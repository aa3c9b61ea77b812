# Verified models of the porcupine checker, the MapReduce labs and the Chord lab

This project models three parts of the repository in Dafny and proves what they promise.

**The porcupine linearizability checker** (`Lab2_MapReduce/src/porcupine`, `Lab2_MapReduce/src/models`).
`Histories` says what a linearization is. `Search` is the backtracking search without its heap: what each
iteration keeps, and why a cached pair that is not on the stack is a dead end. `LinkedEntries` and
`LinkedHistory` are the doubly linked list with lift and unlift; `Bitset` and `MemoCache` the bitset and the
hashed cache. `SingleCheck` puts them together into `CheckSingle`, which terminates and answers exactly
whether a linearization exists. `TimedEntries` is the sorting of operations into entries, `KvModel` the
partition by key with its locality theorem, and `CheckParallel` the goroutines, channel, kill flag and timeout
as a state machine, up to an end-to-end theorem about `checkOperations`.

**MapReduce** (`Lab2_MapReduce/src/mr`, `Lab2_MapReduce/src/main/mrsequential.go`). `JobTracker` and
`Coordinators` are the coordinator: pure handlers, the class that computes them and invariants of all runs;
`CoordinatorRuns` reads its variables off the events of a run, and `Recovery` is bounded recovery over runs. `WorkerData` is what workers and the sequential program compute.
`MapReduce` is the whole system with each worker's files, and when each map job's files are in exactly one
place; `Collecting` is the reduce side: whenever the coordinator is done, the output files hold exactly the lines
of the sequential program.

**Chord** (`Lab3_Chord`). `ChordRing` is the identifier arithmetic, `ChordNode` lookup, list exchange and
repair as functions, `ChordPeer` the node object that computes them, `ChordStabilize` the convergence of
successor lists under any interleaving, and `ChordIsolation` what becomes of a node that knows no successor.

## Modelling decisions

- A checker history is judged as a sequence of operations; for an entry list the positions are the times.
- The comment on `match` at `Lab2_MapReduce/src/porcupine/checker.go:64` says the reverse of the code; the model
  follows the code (a call node has its return as its match).
- `Equal` is any reflexive relation under which equal states can take the same steps to equal states; plain
  equality is one. `Step` is a pure function.
- The kill flag that `checkSingle` polls is a function from loop iterations to the value loaded.
- A 64-bit word is its 64 bits. A bitset put into the cache is stored as its contents, which nothing changes
  afterwards. A recorded partial linearization is a value, not a pointer.
- Sorting is any permutation sorted by the given order; proofs use nothing else about it.
- Hash functions, `Map`, `Reduce`, file contents and the network are parameters. Bucket files are lossless.
- Timers advance by explicit ticks. Handlers run under a lock and are atomic; what happens between two locked
  parts of one call is interleaved freely.
- MapReduce workers are fail-stop: one that was reported dead sends nothing more and cannot be read. Otherwise they
  do what the code does: bucket files are written one by one without asking, the report comes later, from whoever
  had the job, or never, and a reducer fetches from one location after another. Writing one file is one step.
- The coordinator's retry by time-out can take a map job from a worker that is merely slow, and then the promise
  that each map job's files are in one place fails. The system theorems hold for runs in which only workers that
  never write a file of the job are replaced in this way (`OnlySilentReplaced`); `HoldersAreRecipients`,
  `ReissueDuplicates` and `NoReissueIsExact` give the exact condition, and `UnreportedFilesDuplicate` and
  `ReplacedReportLosesFiles` are runs that break the promise.
- A reduce job's locations must still hold at each fetch what they held when it was handed out (`Steady`);
  `FetchedOnceByWrites` gives the exact condition on what they write meanwhile, `UndisturbedIsSteady` shows that it is
  met while none of them is reported dead, and `InterleavedFetchDuplicates` is a run in which it is not.
- The system theorems take it that the coordinator can create its output files; the coordinator itself marks a
  reduce job completed even if it cannot.
- A call to the unknown address "X" gets no answer, and no Chord node has that address.

## Model

| member | source | states |
|---|---|---|
| Histories.LinearizationIsCompletePartial | Lab2_MapReduce/src/porcupine/model.go:27-39 | a permutation that respects real time pairwise and that Step accepts is the same as a complete partial linearization |
| Histories.ContinuesIsPartial | Lab2_MapReduce/src/porcupine/checker.go:190-213 | taking one minimal accepted operation at a time builds exactly the partial linearizations |
| Histories.EqualContinues | Lab2_MapReduce/src/porcupine/model.go:40-42 | states that Equal identifies have the same continuations |
| Search.CachedExplored | Lab2_MapReduce/src/porcupine/checker.go:200-210 | a cached pair one operation larger than the stack cannot be on the stack, so it is a fully explored dead end |
| Search.Advance | Lab2_MapReduce/src/porcupine/checker.go:208-213 | skipping a refused or already explored call keeps the search invariant |
| Search.Push | Lab2_MapReduce/src/porcupine/checker.go:197-207 | linearizing a call keeps the search invariant |
| Search.Pop | Lab2_MapReduce/src/porcupine/checker.go:215-241 | backtracking keeps the search invariant: the popped pair is explored and its operation tried one level down |
| Search.FinishLinearizable | Lab2_MapReduce/src/porcupine/checker.go:244-252 | when no entry remains the stack is a linearization |
| Search.FinishIllegal | Lab2_MapReduce/src/porcupine/checker.go:214-217 | a return reached with an empty stack means that there is no linearization, and that every recorded partial one is of maximum length |
| Bitset.ElemsExtensional | Lab2_MapReduce/src/porcupine/bitset.go:62-72 | bitsets of one size are equal exactly when they hold the same ids |
| Bitset.NewBitset | Lab2_MapReduce/src/porcupine/bitset.go:10-17 | a new bitset is empty and has the fewest words that fit the ids |
| Bitset.Clone | Lab2_MapReduce/src/porcupine/bitset.go:19-23 | a clone is a new array with the same contents |
| Bitset.Set | Lab2_MapReduce/src/porcupine/bitset.go:29-33 | adds exactly the given id to the set |
| Bitset.Clear | Lab2_MapReduce/src/porcupine/bitset.go:35-39 | removes exactly the given id from the set |
| Bitset.Get | Lab2_MapReduce/src/porcupine/bitset.go:41-44 | membership |
| Bitset.Popcnt | Lab2_MapReduce/src/porcupine/bitset.go:46-52 | the cardinality of the set |
| Bitset.Hash | Lab2_MapReduce/src/porcupine/bitset.go:54-60 | a function of the contents: the cardinality xor all words |
| Bitset.HashBits | Lab2_MapReduce/src/porcupine/bitset.go:54-60 | a bit of the hash says whether that bit of the cardinality differs from the parity of the words that have it |
| Bitset.Equals | Lab2_MapReduce/src/porcupine/bitset.go:62-72 | true exactly for the same size and the same set |
| MemoCache.CacheContains | Lab2_MapReduce/src/porcupine/checker.go:145-152 | looking in one hash bucket answers for the flat set of all cached pairs |
| MemoCache.InsertAdds | Lab2_MapReduce/src/porcupine/checker.go:201-202 | appending to the bucket of the hash adds exactly one pair to the flat set and keeps all entries in their buckets |
| LinkedEntries.InsertBefore | Lab2_MapReduce/src/porcupine/checker.go:70-81 | inserts a node before a mark with both link directions right |
| LinkedEntries.Lift | Lab2_MapReduce/src/porcupine/checker.go:159-167 | takes a call and its return out of the list, both link directions staying right, and leaves what unlift needs |
| LinkedEntries.Unlift | Lab2_MapReduce/src/porcupine/checker.go:169-177 | puts a lifted call and return back where they were |
| LinkedEntries.LiftUnlift | Lab2_MapReduce/src/porcupine/checker.go:159-177 | unlift after lift restores every link of every node |
| LinkedHistory.LiftOp | Lab2_MapReduce/src/porcupine/checker.go:206-206 | after the lift the list spells the entries without the linearized operations, and all lifted pairs remain restorable in reverse order |
| LinkedHistory.UnliftOp | Lab2_MapReduce/src/porcupine/checker.go:240-240 | undoing the last lift gives the list before it, for any stack of lifts |
| LinkedHistory.NodeNext | Lab2_MapReduce/src/porcupine/checker.go:209-212 | following a link leads to the next entry of an operation not yet linearized |
| LinkedHistory.HeadNext | Lab2_MapReduce/src/porcupine/checker.go:207-207 | the head's link leads to the first entry of an operation not yet linearized |
| SingleCheck.MakeLinkedEntries | Lab2_MapReduce/src/porcupine/checker.go:121-138 | the list spells the history, with each call matched to its return |
| SingleCheck.Length | Lab2_MapReduce/src/porcupine/checker.go:83-90 | the number of nodes in the list |
| SingleCheck.RecordLongest | Lab2_MapReduce/src/porcupine/checker.go:219-234 | records the stack for exactly those of its operations that have nothing as long recorded |
| SingleCheck.PushCall | Lab2_MapReduce/src/porcupine/checker.go:201-207 | list, bitset, cache and stack move together to the next configuration |
| SingleCheck.TryCall | Lab2_MapReduce/src/porcupine/checker.go:194-213 | an iteration at a call keeps the invariant and either caches a new pair or moves on |
| SingleCheck.Backtrack | Lab2_MapReduce/src/porcupine/checker.go:218-241 | an iteration at a return keeps the invariant and shortens the stack |
| SingleCheck.CheckSingle | Lab2_MapReduce/src/porcupine/checker.go:179-253 | terminates; the loads of the kill flag it made were all in vain, at least one for each operation of what it answers or recorded; it either came to its end, and then is true exactly when a linearization exists, with a linearization for every operation or, if wanted, a longest partial one for each that has any, or was stopped by a load that saw the flag, and then is false; a flag set from the start stops it before it records anything |
| SingleCheck.SearchLoop | Lab2_MapReduce/src/porcupine/checker.go:190-252 | the same of the search loop from the state set up before it |
| SingleCheck.TrueNeedsLoads | Lab2_MapReduce/src/porcupine/checker.go:190-193 | an answer of true saw the flag unset at least once for each operation |
| TimedEntries.SortByTime | Lab2_MapReduce/src/porcupine/checker.go:29-58 | a permutation sorted by time with calls before returns on a tie |
| TimedEntries.PositionsFollowTime | Lab2_MapReduce/src/porcupine/checker.go:39-46 | in any such order a return stands before a call exactly when it is strictly earlier |
| TimedEntries.EntriesFaithful | Lab2_MapReduce/src/porcupine/checker.go:48-60 | sorted entries are well formed exactly when no operation returns before its call, and then have the operations' inputs, outputs and real-time order |
| TimedEntries.MakeEntries | Lab2_MapReduce/src/porcupine/checker.go:48-60 | all call and return entries once, sorted, and a faithful history |
| KvModel.SingleKeySoundEqual | Lab2_MapReduce/src/porcupine/model.go:59-61 | plain equality on the key-value states is what the checker needs of Equal |
| KvModel.StoreStepByKey | Lab2_MapReduce/src/models/kv.go:40-54 | a step of the whole store is the single-key step at its key and leaves other keys alone |
| KvModel.AcceptedExactly | Lab2_MapReduce/src/models/kv.go:40-54 | the store accepts exactly the orders in which every get returns what the last put and the later appends left under its key |
| KvModel.GetAfterPut | Lab2_MapReduce/src/models/kv.go:40-54 | in an accepted order a get returns the value of the last put of its key followed by the values appended since, in order |
| KvModel.GetBeforePut | Lab2_MapReduce/src/models/kv.go:35-39 | before any put a get returns the values appended so far |
| KvModel.GroupByKey | Lab2_MapReduce/src/models/kv.go:19-23 | the operations of each key that occurs, in history order |
| KvModel.SortedKeys | Lab2_MapReduce/src/models/kv.go:24-28 | the keys in ascending order, whatever order iteration gives |
| Strings.LessEqByFirstDifference | Lab2_MapReduce/src/models/kv.go:24-28 | the order of keys: a prefix comes first, and otherwise the smaller character at the first difference |
| KvModel.Partition | Lab2_MapReduce/src/models/kv.go:18-34 | one partition for each key that occurs, in ascending order of keys, holding that key's operations |
| KvModel.Merge | Lab2_MapReduce/src/porcupine/model.go:28-31 | orders that suit each key merge into one order that suits the whole store |
| KvModel.Locality | Lab2_MapReduce/src/models/kv.go:18-54 | a history over many keys is linearizable against a whole store exactly when every key's partition is against the single-key model |
| CheckParallel.RunInv | Lab2_MapReduce/src/porcupine/checker.go:274-310 | in every interleaving each goroutine is running, queued or counted once, and while the loop runs all results are exact |
| CheckParallel.AnswersExact | Lab2_MapReduce/src/porcupine/checker.go:291-352 | Ok means that all partitions are linearizable, Illegal that one is not, Unknown comes only with a timeout, and without one Ok is returned exactly when all are |
| CheckParallel.FlagsExact | Lab2_MapReduce/src/porcupine/checker.go:294-306 | in every run the success flag falls exactly when a failure is received, the timeout flag rises exactly when the timeout fires, and the kill flag is set exactly after a timeout or, with no information wanted, a failure |
| CheckParallel.AnswerByEvents | Lab2_MapReduce/src/porcupine/checker.go:341-351 | the answer is Illegal exactly if a failure was received in the loop, Unknown exactly if the timeout fired and no failure was received before it, and Ok exactly if neither happened |
| CheckParallel.AnswerPrompt | Lab2_MapReduce/src/porcupine/checker.go:295-318 | with no information wanted a failure or a timeout ends the run at once; with it, no answer comes before every goroutine has finished and been counted |
| CheckParallel.RunsBounded | Lab2_MapReduce/src/porcupine/checker.go:292-318 | the number of steps of any run is bounded |
| CheckParallel.NeverStuck | Lab2_MapReduce/src/porcupine/checker.go:292-318 | with at least one partition, a run of goroutines that execute checkSingle can always go on until it answers |
| CheckParallel.EmptyBlocks | Lab2_MapReduce/src/porcupine/checker.go:292-310 | with no partition the collecting loop can move exactly when there is a timeout |
| CheckParallel.ReportJustified | Lab2_MapReduce/src/porcupine/checker.go:280-286 | a goroutine may report whatever checkSingle answers, given the kill flag it saw |
| CheckParallel.KillStays | Lab2_MapReduce/src/porcupine/checker.go:299-307 | the kill flag is never cleared in any run |
| CheckParallel.CheckPartition | Lab2_MapReduce/src/porcupine/checker.go:280-286 | a goroutine that executes checkSingle while the run goes on gets a result that its own loads of the kill flag justify, and false with nothing recorded if its first load sees the flag set |
| CheckParallel.CheckedIsRun | Lab2_MapReduce/src/porcupine/checker.go:274-310 | whatever states of the run the loads of the kill flag happen to see, goroutines that execute checkSingle report only what the machine allows |
| SingleCheck.VerdictExists | Lab2_MapReduce/src/porcupine/checker.go:179-253 | every history has a verdict that meets checkSingle's contract, with longest partial linearizations if wanted |
| CheckParallel.InfoExact | Lab2_MapReduce/src/porcupine/checker.go:311-338 | with information wanted and no timeout fired, every partition's record is exact: a linearization for each operation, or a longest partial one containing it, or none if there is none |
| CheckParallel.PartitionedEntries | Lab2_MapReduce/src/porcupine/checker.go:365-371 | one sorted entry list for each key that occurs; none only for an empty history |
| CheckParallel.KvListsExact | Lab2_MapReduce/src/porcupine/checker.go:365-372 | those entry lists are all linearizable exactly when the whole history is |
| CheckParallel.KvEndToEnd | Lab2_MapReduce/src/porcupine/checker.go:365-373 | end to end on the key-value model, for every run of goroutines that execute checkSingle and poll the kill flag: Ok, Illegal and Unknown mean what they say about the whole history, and the information on partitions is exact unless a timeout fired |
| CheckParallel.WholeEndToEnd | Lab2_MapReduce/src/porcupine/model.go:51-53 | the same for any model with a sound Equal and no partition function |
| JobTracker.HandOutInv | Lab2_MapReduce/src/mr/coordinator.go:71-113 | handing out keeps: a slot has a worker exactly when its timer runs, and slots past the cursor are blank |
| JobTracker.HandOutProgress | Lab2_MapReduce/src/mr/coordinator.go:200-238 | a hand-out gives an eligible job exactly when nothing is ahead of it, and otherwise takes exactly one of the jobs ahead |
| Recovery.TimerCounts | Lab2_MapReduce/src/mr/coordinator.go:250-270 | along any run, the timer of a job that is left alone counts exactly the ticks of its phase; a completed job's stands still |
| Recovery.SilentJobEligible | Lab2_MapReduce/src/mr/coordinator.go:181-198 | in every run a silent job is eligible after TIMEOUT ticks of its phase, whatever else happens between them; for a map job every tick counts; a job completed within the limit never is |
| Recovery.EligibleExactly | Lab2_MapReduce/src/mr/coordinator.go:250-270 | a job just handed out and left alone is eligible exactly from the tenth tick of its phase on |
| Recovery.StaysEligible | Lab2_MapReduce/src/mr/coordinator.go:200-238 | nothing but handing it out ends a job's eligibility, not even its completion or a death report |
| Recovery.AheadCounts | Lab2_MapReduce/src/mr/coordinator.go:71-131 | along any run that does not hand it out, the jobs ahead of an eligible job are those that were, less one for each request served, plus the earlier jobs that became eligible |
| Recovery.GivenExactly | Lab2_MapReduce/src/mr/coordinator.go:71-131 | a request is served with an eligible job exactly when as many requests were served before it as jobs were ahead plus earlier jobs became eligible since; so within the jobs ahead plus one exactly when none did |
| Recovery.EventuallyGivenOut | Lab2_MapReduce/src/mr/coordinator.go:71-131 | in every run an eligible job is handed out once more requests than that have been served in its phase |
| Recovery.Starvation | Lab2_MapReduce/src/mr/coordinator.go:200-219 | the plain bound fails: for every n there is a run in which an eligible job is passed over by n + 1 requests in favour of an earlier one |
| JobTracker.ClearWorkerInv | Lab2_MapReduce/src/mr/coordinator.go:240-248 | taking back a dead worker's jobs keeps the slot invariant |
| Coordinators.ApplyInv | Lab2_MapReduce/src/mr/coordinator.go:115-198 | every handler keeps the coordinator's invariant, and done stays done |
| Coordinators.RunInv | Lab2_MapReduce/src/mr/coordinator.go:71-248 | the invariant holds in every reachable state; once done, the coordinator stays done with every reduce job completed |
| CoordinatorRuns.DoneExactly | Lab2_MapReduce/src/mr/coordinator.go:181-188 | in every run the coordinator is done exactly if some round of the server found all map and reduce jobs completed |
| CoordinatorRuns.NoWorkOnceDone | Lab2_MapReduce/src/mr/coordinator.go:115-121 | from that round on every request is answered that there is no work |
| CoordinatorRuns.AnswersExactly | Lab2_MapReduce/src/mr/coordinator.go:71-131 | a request is answered no work exactly when done, wait exactly when the current phase has no fresh and no eligible job, and otherwise with the next fresh job or else the first eligible one |
| CoordinatorRuns.IdsCount | Lab2_MapReduce/src/mr/coordinator.go:150-160 | the n-th registration is told the id n |
| CoordinatorRuns.DistinctIds | Lab2_MapReduce/src/mr/coordinator.go:150-160 | no two registrations are told the same id |
| CoordinatorRuns.AddressSince | Lab2_MapReduce/src/mr/coordinator.go:150-160 | the address a reducer is told for a worker is the one it registered with, from its registration until it is reported dead |
| CoordinatorRuns.KnownWasRegistered | Lab2_MapReduce/src/mr/coordinator.go:138-148 | no other addresses are known |
| CoordinatorRuns.MapWorkersExactly | Lab2_MapReduce/src/mr/coordinator.go:284-290 | the workers that reducers are sent to are exactly those that were given a map job and not reported dead since |
| CoordinatorRuns.RecordedExactly | Lab2_MapReduce/src/mr/coordinator.go:200-219 | the slot of a map job records exactly the worker it was last given to, unless that one was reported dead since |
| CoordinatorRuns.MapCompletedExactly | Lab2_MapReduce/src/mr/coordinator.go:162-166 | a map job is completed exactly if it was reported finished, by whomever, and the worker its slot records was not reported dead since |
| CoordinatorRuns.ReduceCompletedExactly | Lab2_MapReduce/src/mr/coordinator.go:166-176 | a reduce job is completed exactly if it was reported finished |
| CoordinatorRuns.ReduceWorkersExactly | Lab2_MapReduce/src/mr/coordinator.go:94-113 | the reduce workers are exactly those that were given a reduce job |
| CoordinatorRuns.OutputIsLast | Lab2_MapReduce/src/mr/coordinator.go:166-174 | a reduce job's output file is the last one reported for it that could be created |
| CoordinatorRuns.DeathReport | Lab2_MapReduce/src/mr/coordinator.go:133-148 | a death report makes the reduce job it names eligible at once, its completion flag kept, and every map job of the dead worker, to be done again; all other jobs stay |
| Coordinators.Coordinator.constructor | Lab2_MapReduce/src/mr/coordinator.go:339-355 | starts with blank slots and worker ids from 1 |
| Coordinators.Coordinator.AllChunksDone | Lab2_MapReduce/src/mr/coordinator.go:53-69 | whether all slots are completed |
| Coordinators.Coordinator.DoSetup | Lab2_MapReduce/src/mr/coordinator.go:150-160 | registers the address under the next id |
| Coordinators.Coordinator.GetReduceFileLocations | Lab2_MapReduce/src/mr/coordinator.go:284-290 | every map worker once, with its address |
| Coordinators.Coordinator.RetryMapper | Lab2_MapReduce/src/mr/coordinator.go:200-219 | hands out the first eligible map job, if any |
| Coordinators.Coordinator.RetryReducer | Lab2_MapReduce/src/mr/coordinator.go:221-238 | hands out the first eligible reduce job, if any |
| Coordinators.Coordinator.GetMapJob | Lab2_MapReduce/src/mr/coordinator.go:71-92 | the next fresh map job, or else a retry, or else wait |
| Coordinators.Coordinator.GetReduceJob | Lab2_MapReduce/src/mr/coordinator.go:94-113 | the next fresh reduce job, or else a retry, or else wait |
| Coordinators.Coordinator.GetWorkFor | Lab2_MapReduce/src/mr/coordinator.go:115-131 | computes the handler, with the file of a map job and all map workers' locations for a reduce job |
| Coordinators.Coordinator.WorkDone | Lab2_MapReduce/src/mr/coordinator.go:162-179 | marks the slot completed, whoever reports it, and writes the output of a reduce job if its file can be created |
| Coordinators.Coordinator.ClearMapDeadWorker | Lab2_MapReduce/src/mr/coordinator.go:240-248 | clears all slots of the worker, completed or not, and no others |
| Coordinators.Coordinator.ReportDeadWorker | Lab2_MapReduce/src/mr/coordinator.go:133-148 | takes back the worker's map jobs and the given reduce job, and forgets the worker |
| Coordinators.Coordinator.UpdateTimers | Lab2_MapReduce/src/mr/coordinator.go:251-270 | advances the timers of jobs in progress by one and no others |
| Coordinators.Coordinator.ServerTick | Lab2_MapReduce/src/mr/coordinator.go:181-198 | one round of the server loop: done once all jobs are, and the timers of the current phase advance |
| WorkerData.SortByKey | Lab2_MapReduce/src/mr/worker.go:36-40 | a permutation sorted by key |
| WorkerData.ValuesInOrder | Lab2_MapReduce/src/mr/worker.go:144-152 | the values handed to Reduce are those of the key's pairs, all of them and in order |
| WorkerData.GroupAndReduce | Lab2_MapReduce/src/mr/worker.go:144-155 | one line for each key, ascending, reducing all of the key's values |
| WorkerData.GroupSequentially | Lab2_MapReduce/src/main/mrsequential.go:68-84 | the same of the sequential loops |
| WorkerData.DoMap | Lab2_MapReduce/src/mr/worker.go:160-166 | bucket r holds exactly the pairs whose key hashes to r, in order |
| WorkerData.BucketIsRemainder | Lab2_MapReduce/src/mr/worker.go:42-48 | the reduce job of a key is the remainder of its hash by the number of reduce jobs |
| WorkerData.BucketInOrder | Lab2_MapReduce/src/mr/worker.go:160-166 | the pairs of a bucket stand in the order in which they were mapped |
| WorkerData.DoReduce | Lab2_MapReduce/src/mr/worker.go:96-155 | the reduction of everything delivered |
| WorkerData.Sequential | Lab2_MapReduce/src/main/mrsequential.go:38-84 | the reduction of all intermediate pairs |
| WorkerData.ReducesSameBag | Lab2_MapReduce/src/mr/worker.go:138-155 | if Reduce ignores the order of values, a reduction depends only on the bag of pairs |
| WorkerData.OutputsAgree | Lab2_MapReduce/src/main/test-mr.sh:81-104 | the lines of all output files are, as a bag, those of the sequential output |
| WorkerData.KeyInOneOutput | Lab2_MapReduce/src/mr/worker.go:42-48 | a key that occurs is in the output file of its hash and in no other |
| Coordinators.AskFacts | Lab2_MapReduce/src/mr/coordinator.go:71-131 | a request hands out at most one job, of the current phase, and touches nothing else |
| MapReduce.RunBooks | Lab2_MapReduce/src/mr/coordinator.go:71-148 | in every run, without any assumption: only what was given is written, what was given is written or under way, recorded workers were given their jobs and are not dead |
| MapReduce.RunMapSide | Lab2_MapReduce/src/mr/coordinator.go:115-179 | if only silent workers are replaced, every live worker with a map job is the one its slot records, and a completed job's recorded worker has all its files |
| MapReduce.ReduceLocationsExact | Lab2_MapReduce/src/mr/coordinator.go:94-113 | whenever a reduce job is handed out in such a run, exactly one of its locations holds each map job's files, however late, lost or repeated the reports |
| MapReduce.HoldersAreRecipients | Lab2_MapReduce/src/mr/coordinator.go:284-290 | in every run, once the live workers have written what they were given, each map job's files have one holder exactly when the job has one live recipient |
| MapReduce.ReissueDuplicates | Lab2_MapReduce/src/mr/coordinator.go:200-219 | a time-out that replaces a worker gives two holders if both workers live and write |
| MapReduce.NoReissueIsExact | Lab2_MapReduce/src/mr/coordinator.go:204-219 | without death reports, once all map jobs are completed and written, there is one holder each exactly when no worker was replaced by time-out |
| MapReduce.UnreportedFilesDuplicate | Lab2_MapReduce/src/mr/worker.go:160-184 | a concrete run: a replaced worker writes but its report is lost, the accepted report is in time, and a reduce job is sent to both |
| MapReduce.ReplacedReportLosesFiles | Lab2_MapReduce/src/mr/coordinator.go:133-179 | a concrete run: a replaced worker's report completes the slot of its replacement, it dies, and a reduce job finds the files nowhere |
| Collecting.LocationsStable | Lab2_MapReduce/src/mr/worker.go:103-136 | in every such run, while none of a reduce job's locations was reported dead, they hold exactly what they held when it was handed out |
| Collecting.FetchedOnceExactly | Lab2_MapReduce/src/mr/worker.go:103-136 | a reducer that has fetched from all locations has each map job's file exactly once if and only if each location gave what it held at the hand-out |
| Collecting.HistoryOf | Lab2_MapReduce/src/mr/worker.go:96-136 | every reduce task of every run was handed out at one step, and took what it has from each location at one later fetch |
| Collecting.FetchedOnceByWrites | Lab2_MapReduce/src/mr/worker.go:103-136 | the exact condition on the steps: each file is fetched once if and only if no location, between the hand-out and the fetch from it, wrote that bucket of a map job it had not offered |
| Collecting.SteadyExactly | Lab2_MapReduce/src/mr/worker.go:103-136 | a fetch finds just what was offered exactly when its location wrote nothing else since the hand-out |
| Collecting.UndisturbedIsSteady | Lab2_MapReduce/src/mr/worker.go:103-136 | so it is if no location is reported dead before the last fetch |
| Collecting.RunOutputs | Lab2_MapReduce/src/mr/worker.go:96-158 | in such runs every reduction computed and every output file is that of its bucket of all pairs |
| Collecting.DistributedAgreesWithSequential | Lab2_MapReduce/src/mr/coordinator.go:181-188 | whenever the coordinator is done, the output files hold as a bag the lines of the sequential program, each key in one file |
| Collecting.InterleavedFetchDuplicates | Lab2_MapReduce/src/mr/worker.go:103-136 | a concrete run without time-outs in which a location dies between two fetches and a map job is fetched twice |
| ChordRing.BetweenIsDist | Lab3_Chord/chordUtil.go:44-50 | the circular interval test is a comparison of clockwise distances, inclusive and exclusive |
| ChordRing.UniqueOwner | Lab3_Chord/chordUtil.go:44-50 | every identifier lies in the interval of exactly one node |
| ChordRing.OwnerByDist | Lab3_Chord/chord.go:477-492 | counted from any node, the owner is the first node at least as far as the identifier |
| ChordRing.OwnerWithout | Lab3_Chord/chordUtil.go:44-50 | without a node, its successor owns what it owned and everybody else what they owned |
| ChordNode.FindExact | Lab3_Chord/chord.go:462-497 | on a consistent ring of any size, with lists of any length, a reply marked successor names the owner; there is one exactly when the list is not empty and the owner is the node or listed |
| ChordNode.FindByFirst | Lab3_Chord/chord.go:462-497 | on any node whatever: the first list entry that is unknown, or that the identifier lies before, or at which the node is found to own it, decides the answer, an unknown one for the node itself; without one the lookup is passed along |
| ChordNode.StabilizeReplyMeans | Lab3_Chord/chord.go:168-185 | a caller is good exactly if it is the predecessor afterwards, and then gets the list; only an unknown predecessor is replaced; any other caller is sent the predecessor |
| ChordNode.VerifiedEach | Lab3_Chord/chord.go:122-137 | entry by entry: the first stays, another comes from the successor's list as far as that is known and stays otherwise |
| ChordNode.JumpDist | Lab3_Chord/chordUtil.go:32-38 | the start of finger n lies 2^(n-1) beyond the node, across the wrap-around |
| ChordNode.ClosestIsTopOrFirst | Lab3_Chord/chord.go:499-513 | a lookup is passed to the highest finger for identifiers in the half of the ring after the node, and to the first successor for the others; no other finger is ever used |
| ChordNode.SurvivorsInOrder | Lab3_Chord/chord.go:373-380 | survivors keep their order |
| ChordNode.CompactedExact | Lab3_Chord/chord.go:369-380 | compaction keeps the length and all survivors and removes every copy of the failed node |
| ChordNode.RepairedExact | Lab3_Chord/chord.go:382-399 | no finger to the failed node remains exactly when those fingers stood side by side and a predecessor that fills in is another node |
| ChordNode.RepairedEach | Lab3_Chord/chord.go:382-399 | finger by finger: those of the highest unbroken block to the failed node point to the next other node above them, or the predecessor if there is none; all other fingers and every start stay |
| ChordNode.TrueFingersContiguous | Lab3_Chord/chord.go:550-554 | fingers that are the owners of their starts have each node's entries side by side |
| ChordNode.RepairCompletes | Lab3_Chord/chord.go:366-400 | with such fingers, no finger to the failed node remains exactly when the predecessor, if the highest finger makes it fill in, is another node |
| ChordNode.RepairTrueExactly | Lab3_Chord/chord.go:366-400 | the repair gives the true fingers of the ring without the failed node exactly if the node it fills in is the failed one's successor |
| ChordPeer.Chord.constructor | Lab3_Chord/chord.go:542-558 | every successor and finger is the node itself, each finger with its start; no predecessor |
| ChordPeer.Chord.Find | Lab3_Chord/chord.go:462-497 | computes the lookup function |
| ChordPeer.Chord.ClosestPreceding | Lab3_Chord/chord.go:499-513 | the highest finger whose start is at or beyond the identifier, and the first successor if there is none |
| ChordPeer.Chord.Stabilize | Lab3_Chord/chord.go:168-185 | gives its list to its predecessor, takes a caller for an unknown one, and tells others who it is |
| ChordPeer.Chord.VerifySuccs | Lab3_Chord/chord.go:122-137 | the successor's list, shifted by one, replaces the node's as far as it is known |
| ChordPeer.Chord.CompactSuccessors | Lab3_Chord/chord.go:369-380 | computes the compaction of the list by its first entry |
| ChordPeer.Chord.TopFailedFinger | Lab3_Chord/chord.go:382-391 | the highest finger to the failed node and what stands above it |
| ChordPeer.Chord.ReplaceBlock | Lab3_Chord/chord.go:393-399 | replaces exactly the unbroken block that ends there |
| ChordPeer.Chord.ClearDeadSucc | Lab3_Chord/chord.go:366-400 | computes compaction and repair together |
| ChordPeer.Chord.NextValidFinger | Lab3_Chord/chord.go:357-364 | the first finger from a start on that points to somebody |
| ChordPeer.Chord.FindNewSucc | Lab3_Chord/chord.go:333-355 | moves a longer list up; a list of one falls back on the predecessor or fills fingers |
| ChordPeer.Chord.BeginStabilize | Lab3_Chord/chordRPC.go:74-87 | whom to ask: nobody when alone, and the old first successor otherwise, even an unknown one |
| ChordPeer.NewSuccEach | Lab3_Chord/chord.go:333-355 | what findNewSucc leaves, entry by entry and finger by finger |
| ChordPeer.Chord.EndStabilize | Lab3_Chord/chordRPC.go:87-109 | merges a good reply, treats a missing one as a dead successor, and on a bad one says whom to notify unless that is the node itself |
| ChordPeer.AnsweredKeeps | Lab3_Chord/chordRPC.go:94-108 | a reply changes nothing but the successor list, and that only for the right predecessor |
| ChordPeer.UnansweredForgets | Lab3_Chord/chordRPC.go:87-93 | without a reply the first successor is gone from the list, the others stand as they stood, and it is gone from the fingers exactly under the repair's condition |
| ChordIsolation.RunInv | Lab3_Chord/chord.go:122-137 | in every run of a network of any nodes, the unknown entries of every successor list stand at its end |
| ChordIsolation.IsolatedRound | Lab3_Chord/chord.go:333-355 | a CallStabilize of a node that knows no successor leaves it with none; it finds one and drops it again exactly for a list of one with no finger and a predecessor |
| ChordIsolation.RejoinsExactly | Lab3_Chord/chordRPC.go:74-93 | such a node gets to know a first successor exactly if one is set from outside between two calls: CallStabilize alone never helps, and what is set during a call is lost |
| ChordStabilize.VerifiedPrefix | Lab3_Chord/chord.go:122-137 | merging a list exact in m entries gives one exact in m + 1 |
| ChordStabilize.DoKeepsLevel | Lab3_Chord/chordRPC.go:74-109 | no step shortens the correct prefix that all nodes share |
| ChordStabilize.RoundGains | Lab3_Chord/chordRPC.go:74-109 | after every node has completed an exchange all share one more correct entry, in any interleaving |
| ChordStabilize.Converges | Lab3_Chord/chord.go:122-137 | all lists of length r are exact after r - 1 rounds, and replies still on their way keep them so |
| ChordStabilize.ExactStays | Lab3_Chord/chordRPC.go:94-109 | from such a state on, whatever replies are on their way, lists stay exact after any steps |
| ChordStabilize.AloneNeverChanges | Lab3_Chord/chordRPC.go:80-84 | a node that is alone never asks, so its list never changes |

## Left out

- checkEvents, renumber and convertEntries: they differ from checkOperations only in where the entry lists come from; CheckSingle is proved for every well-formed entry list.
- The removal of duplicates, by pointer, when checkParallel turns the recorded partial linearizations into a list, and all of visualization.go.
- Raft, kvraft, shardctrler and shardkv: mostly stubs whose safety claims this code does not settle.
- labrpc, labgob, the HTTP server and proxy, plugins, scripts and containers.
- Chord membership changes (Join, Notify) other than their effect on the first successor, routing through several nodes, fixFingers, file storage and encryption: these need assumptions about the network that the code does not enforce.
- JSON, glob patterns and the file system: a worker's bucket files are what DoMap wrote; that the pattern for bucket files also matches an output file of the same number is not modelled.
- A reduce location with the reducer's own address under another id, which the reducer reports dead, appears only as a death report.
- Real time: tickers, sleeps and timeouts are steps.

/** What the coordinator's variables say about the events of a run (mr/coordinator.go): when it is done,
    who is registered where, what is completed, recorded and answered. */
module CoordinatorRuns {
  import opened JobTracker
  import opened Coordinators

  // ---------------------------------------------------------------------------
  // Switches
  // ---------------------------------------------------------------------------

  /** A switch is up exactly if it was put up at some step and not put down since. */
  ghost predicate UpSince(on: seq<bool>, off: seq<bool>, k: nat)
    requires |on| == |off| && k <= |on|
  {
    exists m :: 0 <= m < k && on[m] && NeverDown(off, m, k)
  }

  ghost predicate NeverDown(off: seq<bool>, m: nat, k: nat)
    requires m < k <= |off|
  {
    forall d :: m < d < k ==> !off[d]
  }

  lemma {:induction false} Switch(up: seq<bool>, on: seq<bool>, off: seq<bool>, k: nat)
    requires |up| == |on| + 1 == |off| + 1 && k < |up| && !up[0]
    requires forall m :: 0 <= m < |on| ==> (up[m + 1] <==> on[m] || (up[m] && !off[m]))
    ensures up[k] <==> UpSince(on, off, k)
  {
    if k > 0 {
      var n := k - 1;
      Switch(up, on, off, n);
      assert up[n + 1] <==> on[n] || (up[n] && !off[n]);
      if on[n] {
        assert NeverDown(off, n, k);
      } else if up[n] && !off[n] {
        var m :| 0 <= m < n && on[m] && NeverDown(off, m, n);
        assert NeverDown(off, m, k);
      }
      if m :| 0 <= m < k && on[m] && NeverDown(off, m, k) {
        if m < n { assert NeverDown(off, m, n); }
      }
    }
  }

  // ---------------------------------------------------------------------------
  // Done
  // ---------------------------------------------------------------------------

  /** Step `m` is a round of the server that finds all jobs completed. */
  ghost predicate FindsAllDone(run: seq<Coord>, events: seq<Event>, m: nat)
    requires m < |events| && m < |run|
  {
    events[m].TickEvent? && AllCompleted(run[m].mapJobs.slots) && AllCompleted(run[m].reduceJobs.slots)
  }

  /** The coordinator is done exactly if some round of the server found all jobs completed. */
  lemma {:induction false} DoneExactly(numFiles: nat, nReduce: nat, run: seq<Coord>, events: seq<Event>, k: nat)
    requires IsRun(numFiles, nReduce, run, events) && k < |run|
    ensures run[k].isDone <==> exists m :: 0 <= m < k && FindsAllDone(run, events, m)
  {
    if k > 0 {
      var n: nat := k - 1;
      DoneExactly(numFiles, nReduce, run, events, n);
      RunInv(numFiles, nReduce, run, events, n);
      assert run[n + 1] == Apply(run[n], events[n]);
      DoneStep(run[n], events[n]);
      assert run[k].isDone <==> run[n].isDone || FindsAllDone(run, events, n);
    }
  }

  lemma DoneStep(c: Coord, e: Event)
    requires CoordInv(c) && Allowed(c, e)
    ensures Apply(c, e).isDone <==>
      c.isDone || (e.TickEvent? && AllCompleted(c.mapJobs.slots) && AllCompleted(c.reduceJobs.slots))
  {
    hide AllCompleted, CoordInv;
    if e.AskWork? { GetWorkInv(c, e.w); }
  }

  /** From the round that finds all jobs completed on, every request is answered that there is no work. */
  lemma NoWorkOnceDone(numFiles: nat, nReduce: nat, run: seq<Coord>, events: seq<Event>, m: nat, k: nat, w: nat)
    requires IsRun(numFiles, nReduce, run, events) && m < k < |run| && FindsAllDone(run, events, m)
    ensures WellFormedCoord(run[k]) && GetWork(run[k], w) == (run[k], NoWork)
  {
    DoneExactly(numFiles, nReduce, run, events, k);
    RunInv(numFiles, nReduce, run, events, k);
  }

  /** What a request is answered: no work exactly when done; otherwise, in the current phase, the next
      fresh job if there is one, else the first eligible one, else to wait. */
  lemma AnswersExactly(c: Coord, w: nat)
    requires CoordInv(c) && w >= 1
    ensures var job := GetWork(c, w).1; var mapping := !AllCompleted(c.mapJobs.slots);
      var t := if mapping then c.mapJobs else c.reduceJobs;
      && (job.NoWork? <==> c.isDone)
      && (job.Wait? <==> !c.isDone && t.current == |t.slots| && forall i :: 0 <= i < |t.slots| ==> !EligibleAt(t, i))
      && (job.MapJob? ==> mapping) && (job.ReduceJob? ==> !mapping)
      && (job.MapJob? || job.ReduceJob? ==> IsTurn(t, job.id))
  {
  }

  /** Job `i` is the next fresh one, or there is none and it is the first eligible one. */
  ghost predicate IsTurn(t: Tracker, i: nat) {
    if t.current < |t.slots| then i == t.current
    else EligibleAt(t, i) && forall k :: 0 <= k < i ==> !EligibleAt(t, k)
  }

  // ---------------------------------------------------------------------------
  // Registration
  // ---------------------------------------------------------------------------

  ghost function Registrations(events: seq<Event>, k: nat): nat
    requires k <= |events|
  {
    if k == 0 then 0 else Registrations(events, k - 1) + if events[k - 1].Register? then 1 else 0
  }

  /** Step `m` registers a worker, which is told the id `w`. */
  ghost predicate Registers(run: seq<Coord>, events: seq<Event>, m: nat, w: nat)
    requires m < |events| && m < |run|
  {
    events[m].Register? && run[m].nextWorkerId == w
  }

  ghost predicate Reports(events: seq<Event>, m: nat, w: nat)
    requires m < |events|
  {
    events[m].ReportDead? && events[m].w == w
  }

  ghost predicate NotReported(events: seq<Event>, m: nat, k: nat, w: nat)
    requires m < k <= |events|
  {
    forall d :: m < d < k ==> !Reports(events, d, w)
  }

  lemma RegistryStep(c: Coord, e: Event)
    requires CoordInv(c) && Allowed(c, e)
    ensures Apply(c, e).nextWorkerId == c.nextWorkerId + if e.Register? then 1 else 0
    ensures Apply(c, e).workers ==
      if e.Register? then c.workers[c.nextWorkerId := e.address]
      else if e.ReportDead? then c.workers - {e.w} else c.workers
  {
    hide AllCompleted, CoordInv;
    if e.AskWork? { AskRegistry(c, e.w); }
  }

  lemma AskRegistry(c: Coord, w: nat)
    requires CoordInv(c) && w >= 1
    ensures var c' := GetWork(c, w).0; c'.workers == c.workers && c'.nextWorkerId == c.nextWorkerId
  {
    hide AllCompleted, HandOut;
  }

  /** The n-th registration is told the id n. */
  lemma {:induction false} IdsCount(numFiles: nat, nReduce: nat, run: seq<Coord>, events: seq<Event>, k: nat)
    requires IsRun(numFiles, nReduce, run, events) && k < |run|
    ensures run[k].nextWorkerId == Registrations(events, k) + 1
  {
    if k > 0 {
      IdsCount(numFiles, nReduce, run, events, k - 1);
      RunInv(numFiles, nReduce, run, events, k - 1);
      RegistryStep(run[k - 1], events[k - 1]);
      assert run[k] == Apply(run[k - 1], events[k - 1]);
    }
  }

  lemma {:induction false} RegistrationsGrow(events: seq<Event>, i: nat, k: nat)
    requires i <= k <= |events|
    ensures Registrations(events, i) <= Registrations(events, k)
    decreases k
  {
    if i < k { RegistrationsGrow(events, i, k - 1); }
  }

  /** No two workers are told the same id. */
  lemma DistinctIds(numFiles: nat, nReduce: nat, run: seq<Coord>, events: seq<Event>, m: nat, n: nat, v: nat, w: nat)
    requires IsRun(numFiles, nReduce, run, events) && m < n < |events|
    requires Registers(run, events, m, v) && Registers(run, events, n, w)
    ensures v < w
  {
    IdsCount(numFiles, nReduce, run, events, m);
    IdsCount(numFiles, nReduce, run, events, n);
    RegistrationsGrow(events, m + 1, n);
  }

  /** A worker's address is known from its registration until it is reported dead, and is the one it
      registered with: the address a reducer is told. */
  lemma {:induction false} AddressSince(numFiles: nat, nReduce: nat, run: seq<Coord>, events: seq<Event>, m: nat,
                                        k: nat, w: nat)
    requires IsRun(numFiles, nReduce, run, events) && m < k < |run|
    requires Registers(run, events, m, w) && NotReported(events, m, k, w)
    ensures w in run[k].workers && Address(run[k], w) == events[m].address
    decreases k
  {
    var n: nat := k - 1;
    RunInv(numFiles, nReduce, run, events, n);
    RegistryStep(run[n], events[n]);
    assert run[n + 1] == Apply(run[n], events[n]);
    if m < n {
      AddressSince(numFiles, nReduce, run, events, m, n, w);
      assert !Reports(events, n, w);
      if events[n].Register? { DistinctIds(numFiles, nReduce, run, events, m, n, w, run[n].nextWorkerId); }
    }
  }

  /** Nobody else's address is known. */
  lemma {:induction false} KnownWasRegistered(numFiles: nat, nReduce: nat, run: seq<Coord>, events: seq<Event>,
                                              k: nat, w: nat) returns (m: nat)
    requires IsRun(numFiles, nReduce, run, events) && k < |run| && w in run[k].workers
    ensures m < k && Registers(run, events, m, w) && NotReported(events, m, k, w)
    decreases k
  {
    var n: nat := k - 1;
    RunInv(numFiles, nReduce, run, events, n);
    RegistryStep(run[n], events[n]);
    assert run[n + 1] == Apply(run[n], events[n]);
    if Registers(run, events, n, w) {
      m := n;
    } else {
      m := KnownWasRegistered(numFiles, nReduce, run, events, n, w);
    }
  }

  // ---------------------------------------------------------------------------
  // Completion
  // ---------------------------------------------------------------------------

  lemma ReduceFlagStep(c: Coord, e: Event, j: nat)
    requires CoordInv(c) && Allowed(c, e) && j < |c.reduceJobs.slots|
    ensures |Apply(c, e).reduceJobs.slots| == |c.reduceJobs.slots|
    ensures Apply(c, e).reduceJobs.slots[j].completed <==>
      c.reduceJobs.slots[j].completed || (e.FinishReduce? && e.job == j)
  {
    hide AllCompleted, GetWork;
    if e.AskWork? { AskFacts(c, e.w); }
  }

  /** A reduce job is completed exactly if it was reported finished, whatever was taken back meanwhile. */
  lemma {:induction false} ReduceCompletedExactly(numFiles: nat, nReduce: nat, run: seq<Coord>, events: seq<Event>,
                                                  k: nat, j: nat)
    requires IsRun(numFiles, nReduce, run, events) && k < |run| && j < nReduce
    ensures |run[k].reduceJobs.slots| == nReduce
    ensures run[k].reduceJobs.slots[j].completed <==>
      exists m :: 0 <= m < k && events[m].FinishReduce? && events[m].job == j
  {
    if k > 0 {
      var n: nat := k - 1;
      ReduceCompletedExactly(numFiles, nReduce, run, events, n, j);
      RunInv(numFiles, nReduce, run, events, n);
      ReduceFlagStep(run[n], events[n], j);
      assert run[n + 1] == Apply(run[n], events[n]);
    }
  }

  /** Step `m` reports the worker dead that the slot of map job `j` records. */
  ghost predicate TakesBack(run: seq<Coord>, events: seq<Event>, m: nat, j: nat)
    requires m < |events| && m < |run|
  {
    events[m].ReportDead? && j < |run[m].mapJobs.slots| && run[m].mapJobs.slots[j].workerId == events[m].w
  }

  lemma MapFlagStep(c: Coord, e: Event, j: nat)
    requires CoordInv(c) && Allowed(c, e) && j < |c.mapJobs.slots|
    ensures |Apply(c, e).mapJobs.slots| == |c.mapJobs.slots|
    ensures Apply(c, e).mapJobs.slots[j].completed <==>
      || e == FinishMap(j)
      || (c.mapJobs.slots[j].completed && !(e.ReportDead? && c.mapJobs.slots[j].workerId == e.w))
  {
    hide AllCompleted, GetWork;
    if e.AskWork? { AskFacts(c, e.w); }
  }

  lemma {:induction false} MapSlots(numFiles: nat, nReduce: nat, run: seq<Coord>, events: seq<Event>, k: nat)
    requires IsRun(numFiles, nReduce, run, events) && k < |run|
    ensures CoordInv(run[k]) && |run[k].mapJobs.slots| == numFiles
  {
    RunInv(numFiles, nReduce, run, events, k);
    if k > 0 {
      MapSlots(numFiles, nReduce, run, events, k - 1);
      if 0 < numFiles { MapFlagStep(run[k - 1], events[k - 1], 0); } else { NoMapSlots(run[k - 1], events[k - 1]); }
      assert run[k] == Apply(run[k - 1], events[k - 1]);
    }
  }

  lemma NoMapSlots(c: Coord, e: Event)
    requires CoordInv(c) && Allowed(c, e) && c.mapJobs.slots == []
    ensures Apply(c, e).mapJobs.slots == []
  {
    hide AllCompleted, GetWork;
    if e.AskWork? { AskFacts(c, e.w); }
  }

  /** A map job is completed exactly if it was reported finished, by whomever, and since then the worker
      that its slot records was not reported dead. */
  lemma MapCompletedExactly(numFiles: nat, nReduce: nat, run: seq<Coord>, events: seq<Event>, k: nat, j: nat)
    requires IsRun(numFiles, nReduce, run, events) && k < |run| && j < numFiles
    ensures |run[k].mapJobs.slots| == numFiles
    ensures run[k].mapJobs.slots[j].completed <==>
      exists m :: 0 <= m < k && events[m] == FinishMap(j) && forall d :: m < d < k ==> !TakesBack(run, events, d, j)
  {
    hide IsRun, TakesBack;
    forall n | 0 <= n < |run| ensures CoordInv(run[n]) && |run[n].mapJobs.slots| == numFiles {
      MapSlots(numFiles, nReduce, run, events, n);
    }
    RunShape(numFiles, nReduce, run, events);
    var up := seq(|run|, n requires 0 <= n < |run| => run[n].mapJobs.slots[j].completed);
    var on := seq(|events|, n requires 0 <= n < |events| => events[n] == FinishMap(j));
    var off := seq(|events|, n requires 0 <= n < |events| => TakesBack(run, events, n, j));
    forall n | 0 <= n < |events| ensures up[n + 1] <==> on[n] || (up[n] && !off[n]) {
      StepOf(numFiles, nReduce, run, events, n);
      MapFlagStep(run[n], events[n], j);
      TakesBackIs(run, events, n, j);
    }
    Switch(up, on, off, k);
    if UpSince(on, off, k) {
      var m :| 0 <= m < k && on[m] && NeverDown(off, m, k);
      assert events[m] == FinishMap(j);
      assert forall d :: m < d < k ==> !TakesBack(run, events, d, j) by {
        forall d | m < d < k ensures !TakesBack(run, events, d, j) { assert !off[d]; }
      }
    }
    if m :| 0 <= m < k && events[m] == FinishMap(j) && forall d :: m < d < k ==> !TakesBack(run, events, d, j) {
      assert on[m] && NeverDown(off, m, k);
    }
  }

  lemma TakesBackIs(run: seq<Coord>, events: seq<Event>, m: nat, j: nat)
    requires m < |events| && m < |run| && j < |run[m].mapJobs.slots|
    ensures TakesBack(run, events, m, j) <==>
      events[m].ReportDead? && run[m].mapJobs.slots[j].workerId == events[m].w
  {
  }

  lemma RunShape(numFiles: nat, nReduce: nat, run: seq<Coord>, events: seq<Event>)
    requires IsRun(numFiles, nReduce, run, events)
    ensures |run| == |events| + 1 && run[0] == Fresh(numFiles, nReduce)
  {
  }

  lemma StepOf(numFiles: nat, nReduce: nat, run: seq<Coord>, events: seq<Event>, k: nat)
    requires IsRun(numFiles, nReduce, run, events) && k < |events|
    ensures |run| == |events| + 1 && WellFormedCoord(run[k]) && Allowed(run[k], events[k])
    ensures run[k + 1] == Apply(run[k], events[k])
  {
  }

  // ---------------------------------------------------------------------------
  // Who works on what
  // ---------------------------------------------------------------------------

  /** Step `m` gives map job `j` to worker `w`. */
  ghost predicate GivesMap(run: seq<Coord>, events: seq<Event>, m: nat, w: nat, j: nat)
    requires m < |events| && m < |run|
  {
    events[m] == AskWork(w) && WellFormedCoord(run[m]) && GetWork(run[m], w).1 == MapJob(j)
  }

  ghost predicate GivesSomeMap(run: seq<Coord>, events: seq<Event>, m: nat, w: nat)
    requires m < |events| && m < |run|
  {
    events[m] == AskWork(w) && WellFormedCoord(run[m]) && GetWork(run[m], w).1.MapJob?
  }

  lemma MapWorkersStep(c: Coord, e: Event, w: nat)
    requires CoordInv(c) && Allowed(c, e)
    ensures w in Apply(c, e).mapWorkers <==>
      || (e == AskWork(w) && GetWork(c, w).1.MapJob?)
      || (w in c.mapWorkers && !(e.ReportDead? && e.w == w))
  {
    hide AllCompleted, GetWork;
    if e.AskWork? { AskFacts(c, e.w); }
  }

  /** The workers that reducers are sent to are exactly those that were given a map job and were not
      reported dead since. */
  lemma MapWorkersExactly(numFiles: nat, nReduce: nat, run: seq<Coord>, events: seq<Event>, k: nat, w: nat)
    requires IsRun(numFiles, nReduce, run, events) && k < |run|
    ensures w in run[k].mapWorkers <==>
      exists m :: 0 <= m < k && GivesSomeMap(run, events, m, w) && NotReported(events, m, k, w)
  {
    hide IsRun, GetWork, CoordInv;
    RunShape(numFiles, nReduce, run, events);
    var up := seq(|run|, n requires 0 <= n < |run| => w in run[n].mapWorkers);
    var on := seq(|events|, n requires 0 <= n < |events| => GivesSomeMap(run, events, n, w));
    var off := seq(|events|, n requires 0 <= n < |events| => Reports(events, n, w));
    forall n | 0 <= n < |events| ensures up[n + 1] <==> on[n] || (up[n] && !off[n]) {
      StepOf(numFiles, nReduce, run, events, n);
      RunInv(numFiles, nReduce, run, events, n);
      MapWorkersStep(run[n], events[n], w);
    }
    Switch(up, on, off, k);
    if UpSince(on, off, k) {
      var m :| 0 <= m < k && on[m] && NeverDown(off, m, k);
      assert GivesSomeMap(run, events, m, w);
      forall d | m < d < k ensures !Reports(events, d, w) { assert !off[d]; }
    }
    if m :| 0 <= m < k && GivesSomeMap(run, events, m, w) && NotReported(events, m, k, w) {
      assert on[m] && NeverDown(off, m, k);
    }
  }

  ghost predicate GivesSomeReduce(run: seq<Coord>, events: seq<Event>, m: nat, w: nat)
    requires m < |events| && m < |run|
  {
    events[m] == AskWork(w) && WellFormedCoord(run[m]) && GetWork(run[m], w).1.ReduceJob?
  }

  lemma ReduceWorkersStep(c: Coord, e: Event, w: nat)
    requires CoordInv(c) && Allowed(c, e)
    ensures w in Apply(c, e).reduceWorkers <==>
      w in c.reduceWorkers || (e == AskWork(w) && GetWork(c, w).1.ReduceJob?)
  {
    hide AllCompleted, HandOut;
  }

  /** The reduce workers are exactly those that were given a reduce job, dead or alive. */
  lemma {:induction false} ReduceWorkersExactly(numFiles: nat, nReduce: nat, run: seq<Coord>, events: seq<Event>,
                                                k: nat, w: nat)
    requires IsRun(numFiles, nReduce, run, events) && k < |run|
    ensures w in run[k].reduceWorkers <==> exists m :: 0 <= m < k && GivesSomeReduce(run, events, m, w)
  {
    hide GetWork;
    if k > 0 {
      var n: nat := k - 1;
      ReduceWorkersExactly(numFiles, nReduce, run, events, n, w);
      StepOf(numFiles, nReduce, run, events, n);
      RunInv(numFiles, nReduce, run, events, n);
      ReduceWorkersStep(run[n], events[n], w);
      assert w in run[k].reduceWorkers <==> w in run[n].reduceWorkers || GivesSomeReduce(run, events, n, w);
    }
  }

  lemma RecordStep(c: Coord, e: Event, j: nat, w: nat)
    requires CoordInv(c) && Allowed(c, e) && j < |c.mapJobs.slots| && w >= 1
    ensures |Apply(c, e).mapJobs.slots| == |c.mapJobs.slots|
    ensures Apply(c, e).mapJobs.slots[j].workerId == w <==>
      || (e == AskWork(w) && GetWork(c, w).1 == MapJob(j))
      || (c.mapJobs.slots[j].workerId == w && !(e.ReportDead? && e.w == w) &&
          !(e.AskWork? && GetWork(c, e.w).1 == MapJob(j)))
  {
    hide AllCompleted, GetWork;
    if e.AskWork? { AskFacts(c, e.w); }
  }

  /** Step `m` gives map job `j` to anybody, or reports worker `w` dead. */
  ghost predicate Replaces(run: seq<Coord>, events: seq<Event>, m: nat, w: nat, j: nat)
    requires m < |events| && m < |run|
  {
    Reports(events, m, w) || (events[m].AskWork? && GivesMap(run, events, m, events[m].w, j))
  }

  /** The slot of a map job records exactly the worker it was last given to, unless that one was reported
      dead since. */
  lemma RecordedExactly(numFiles: nat, nReduce: nat, run: seq<Coord>, events: seq<Event>, k: nat, w: nat, j: nat)
    requires IsRun(numFiles, nReduce, run, events) && k < |run| && j < numFiles && w >= 1
    ensures |run[k].mapJobs.slots| == numFiles
    ensures run[k].mapJobs.slots[j].workerId == w <==>
      exists m :: 0 <= m < k && GivesMap(run, events, m, w, j) &&
                  forall d :: m < d < k ==> !Replaces(run, events, d, w, j)
  {
    hide IsRun, GetWork, CoordInv;
    forall n | 0 <= n < |run| ensures CoordInv(run[n]) && |run[n].mapJobs.slots| == numFiles {
      MapSlots(numFiles, nReduce, run, events, n);
    }
    RunShape(numFiles, nReduce, run, events);
    var up := seq(|run|, n requires 0 <= n < |run| => run[n].mapJobs.slots[j].workerId == w);
    var on := seq(|events|, n requires 0 <= n < |events| => GivesMap(run, events, n, w, j));
    var off := seq(|events|, n requires 0 <= n < |events| => Replaces(run, events, n, w, j));
    forall n | 0 <= n < |events| ensures up[n + 1] <==> on[n] || (up[n] && !off[n]) {
      StepOf(numFiles, nReduce, run, events, n);
      RecordStep(run[n], events[n], j, w);
    }
    Switch(up, on, off, k);
    if UpSince(on, off, k) {
      var m :| 0 <= m < k && on[m] && NeverDown(off, m, k);
      assert GivesMap(run, events, m, w, j);
      forall d | m < d < k ensures !Replaces(run, events, d, w, j) { assert !off[d]; }
    }
    if m :| 0 <= m < k && GivesMap(run, events, m, w, j) && forall d :: m < d < k ==> !Replaces(run, events, d, w, j) {
      assert on[m] && NeverDown(off, m, k);
    }
  }

  /** A death report makes the reduce job it names eligible at once, its completion flag kept and all other
      reduce jobs untouched; and with it every map job of the dead worker, which must be done again. */
  lemma DeathReport(numFiles: nat, nReduce: nat, run: seq<Coord>, events: seq<Event>, k: nat)
    requires IsRun(numFiles, nReduce, run, events) && k < |events| && events[k].ReportDead?
    ensures var c, c', j := run[k], run[k + 1], events[k].job;
      && EligibleAt(c'.reduceJobs, j) && |c'.reduceJobs.slots| == |c.reduceJobs.slots|
      && j < |c.reduceJobs.slots| && c'.reduceJobs.slots[j].completed == c.reduceJobs.slots[j].completed
      && (forall i :: 0 <= i < |c.reduceJobs.slots| && i != j ==>
            c'.reduceJobs.slots[i] == c.reduceJobs.slots[i] &&
            (EligibleAt(c'.reduceJobs, i) <==> EligibleAt(c.reduceJobs, i)))
    ensures var c, c', w := run[k], run[k + 1], events[k].w;
      && |c'.mapJobs.slots| == |c.mapJobs.slots|
      && forall i :: 0 <= i < |c.mapJobs.slots| ==>
           if c.mapJobs.slots[i].workerId == w then EligibleAt(c'.mapJobs, i) && !c'.mapJobs.slots[i].completed
           else c'.mapJobs.slots[i] == c.mapJobs.slots[i] && (EligibleAt(c'.mapJobs, i) <==> EligibleAt(c.mapJobs, i))
  {
    RunInv(numFiles, nReduce, run, events, k);
    StepOf(numFiles, nReduce, run, events, k);
  }

  /** The output file of a reduce job is the last one reported for it that could be created. */
  lemma {:induction false} OutputIsLast(numFiles: nat, nReduce: nat, run: seq<Coord>, events: seq<Event>, m: nat,
                                        k: nat, j: nat)
    requires IsRun(numFiles, nReduce, run, events) && m < k < |run|
    requires events[m].FinishReduce? && events[m].job == j && events[m].file.Some?
    requires forall d :: m < d < k ==> !(events[d].FinishReduce? && events[d].job == j && events[d].file.Some?)
    ensures j in run[k].outputs && run[k].outputs[j] == events[m].file.value
    decreases k
  {
    var n: nat := k - 1;
    StepOf(numFiles, nReduce, run, events, n);
    RunInv(numFiles, nReduce, run, events, n);
    OutputStep(run[n], events[n]);
    if m < n { OutputIsLast(numFiles, nReduce, run, events, m, n, j); }
  }

  lemma OutputStep(c: Coord, e: Event)
    requires CoordInv(c) && Allowed(c, e)
    ensures Apply(c, e).outputs ==
      if e.FinishReduce? && e.file.Some? then c.outputs[e.job := e.file.value] else c.outputs
  {
    hide AllCompleted, GetWork;
    if e.AskWork? { AskFacts(c, e.w); }
  }
}

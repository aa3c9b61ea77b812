/** The reduce side of the MapReduce system (mr/worker.go, DoReduce): what reducers fetch from one
    location after another, and that the output files agree with the sequential program. */
module Collecting {
  import opened JobTracker
  import opened Coordinators
  import opened WorkerData
  import opened MapReduce

  ghost predicate GoodParams(p: Params) {
    p.nReduce >= 1 && OrderBlind(p.reducef)
  }

  ghost function MapPairs(p: Params): seq<KeyValue> {
    Flatten(Intermediate(p.mapf, p.files))
  }

  // ---------------------------------------------------------------------------
  // What was offered and what is fetched
  // ---------------------------------------------------------------------------

  /** The locations that held the file of map job `j` when the reduce job was handed out. */
  ghost function Offerers(t: Task, j: nat): set<nat> {
    set v | v in t.offered && j in t.offered[v]
  }

  /** Each map job's file was offered by one location, and no other files; locations were fetched from
      while they had at least what they offered. */
  ghost predicate TaskGood(p: Params, t: Task) {
    && (forall j :: 0 <= j < |p.files| ==> |Offerers(t, j)| == 1)
    && (forall v, j :: v in t.offered && j in t.offered[v] ==> j < |p.files|)
    && t.taken.Keys <= t.offered.Keys
    && (forall v :: v in t.taken ==> t.offered[v] <= t.taken[v])
    && (forall v, j :: v in t.taken && j in t.taken[v] ==> j < |p.files|)
  }

  /** Files stay, so a location has at least what it offered. */
  ghost predicate OffersStand(s: Sys, t: Task) {
    forall v :: v in t.offered ==> t.offered[v] <= Holdings(s, v, t.r)
  }

  /** While none of a task's locations was reported dead, they have exactly what they offered, and all
      map jobs are completed and recorded under them. */
  ghost predicate Stable(s: Sys, t: Task) {
    t.offered.Keys !! s.dead ==>
      && (forall v :: v in t.offered ==> Holdings(s, v, t.r) == t.offered[v])
      && (forall j :: 0 <= j < |s.c.mapJobs.slots| ==>
            s.c.mapJobs.slots[j].completed && s.c.mapJobs.slots[j].workerId in t.offered)
  }

  ghost predicate TasksGood(p: Params, s: Sys) {
    forall t :: t in s.tasks ==> TaskGood(p, t) && OffersStand(s, t) && Stable(s, t)
  }

  lemma WrittenJob(p: Params, s: Sys, w: nat, j: nat, r: nat)
    requires Books(p, s) && (w, j, r) in s.files
    ensures j < |p.files|
  {
    assert (w, j) in s.given;
  }

  /** A new task is offered each map job's file once. */
  lemma NewTask(p: Params, silent: set<(nat, nat)>, s: Sys, w: nat, r: nat)
    requires p.nReduce >= 1 && Books(p, s) && MapSide(p, silent, s) && AllCompleted(s.c.mapJobs.slots) && r < p.nReduce
    ensures var t := Task(w, r, Offer(s, s.c.mapWorkers, r), map[]);
      TaskGood(p, t) && OffersStand(s, t) && Stable(s, t)
  {
    hide FilesGood;
    OneHolder(p, silent, s);
    var t := Task(w, r, Offer(s, s.c.mapWorkers, r), map[]);
    forall j | 0 <= j < |p.files| ensures |Offerers(t, j)| == 1 {
      assert Offerers(t, j) == Holders(s, s.c.mapWorkers, j, r);
    }
    forall v, j | v in t.offered && j in t.offered[v] ensures j < |p.files| {
      WrittenJob(p, s, v, j, r);
    }
  }

  lemma AskTasks(p: Params, silent: set<(nat, nat)>, s: Sys, w: nat)
    requires p.nReduce >= 1 && Books(p, s) && WellFormedCoord(s.c) && MapSide(p, silent, s) && TasksGood(p, s) && w >= 1
    ensures TasksGood(p, Ask(s, w))
  {
    hide GetWork, CoordInv, FilesGood, TaskGood, GivenGood, MapSide;
    AskFacts(s.c, w);
    var s' := Ask(s, w);
    var (c', job) := GetWork(s.c, w);
    assert s'.c == c' && s'.files == s.files && s'.dead == s.dead;
    assert forall v, r :: Holdings(s', v, r) == Holdings(s, v, r);
    if job.ReduceJob? {
      NewTask(p, silent, s, w, job.id);
      assert s'.c.mapJobs == s.c.mapJobs;
    } else if job.MapJob? {
      forall t | t in s'.tasks ensures TaskGood(p, t) && OffersStand(s', t) && Stable(s', t) {
        assert t in s.tasks;
        assert !(t.offered.Keys !! s.dead);
      }
    }
  }

  /** A location that is alive writes nothing new while all locations of the task are. */
  lemma WriteTasks(p: Params, silent: set<(nat, nat)>, s: Sys, w: nat, j: nat, n: nat)
    requires p.nReduce >= 1 && Books(p, s) && MapSide(p, silent, s) && TasksGood(p, s)
    requires w !in s.dead && (w, j, n) in s.mapping && n < p.nReduce && (w, j) !in silent
    ensures TasksGood(p, Write(s, w, j, n))
  {
    hide CoordInv, TaskGood;
    var s' := Write(s, w, j, n);
    assert forall v, r :: Holdings(s, v, r) <= Holdings(s', v, r);
    forall t | t in s'.tasks ensures TaskGood(p, t) && OffersStand(s', t) && Stable(s', t) {
      assert t in s.tasks;
      if t.offered.Keys !! s.dead {
        assert (w, j) in s.given;
        assert s.c.mapJobs.slots[j].workerId == w;
        assert (w, j, n) in s.files;
        assert s'.files == s.files;
      }
    }
  }

  lemma FetchTasks(p: Params, s: Sys, t: Task, v: nat)
    requires p.nReduce >= 1 && Books(p, s) && TasksGood(p, s)
    requires t in s.tasks && v in t.offered && v !in t.taken
    ensures TasksGood(p, Fetch(s, t, v))
  {
    hide CoordInv, GivenGood;
    var s' := Fetch(s, t, v);
    var t' := t.(taken := t.taken[v := Holdings(s, v, t.r)]);
    assert forall u, r :: Holdings(s', u, r) == Holdings(s, u, r);
    assert TaskGood(p, t') by {
      assert forall j :: Offerers(t', j) == Offerers(t, j);
      forall u, j | u in t'.taken && j in t'.taken[u] ensures j < |p.files| {
        if u == v { WrittenJob(p, s, v, j, t.r); }
      }
    }
    assert OffersStand(s', t') && Stable(s', t');
  }

  /** Steps that leave the files alone, and the slots except of the newly dead. */
  lemma OtherTasks(p: Params, s: Sys, s': Sys)
    requires TasksGood(p, s) && s'.tasks <= s.tasks && s'.files == s.files && s.dead <= s'.dead
    requires |s'.c.mapJobs.slots| == |s.c.mapJobs.slots|
    requires forall j :: 0 <= j < |s.c.mapJobs.slots| ==>
      || (s'.c.mapJobs.slots[j].workerId == s.c.mapJobs.slots[j].workerId &&
          (s.c.mapJobs.slots[j].completed ==> s'.c.mapJobs.slots[j].completed))
      || s.c.mapJobs.slots[j].workerId in s'.dead
    ensures TasksGood(p, s')
  {
    hide TaskGood;
    assert forall v, r :: Holdings(s', v, r) == Holdings(s, v, r);
  }

  lemma {:induction false} NextTasks(p: Params, silent: set<(nat, nat)>, s: Sys, step: Step, s': Sys)
    requires p.nReduce >= 1 && WellFormedCoord(s.c) && Books(p, s) && MapSide(p, silent, s) && TasksGood(p, s)
    requires Next(p, s, step, s') && StepAllowed(s, step, silent)
    ensures TasksGood(p, s')
  {
    hide MapSide, TasksGood, Reduces, InSomeOrder, GetWork, Ask, Fetch, Write, CoordInv, FilesGood, GivenGood;
    match step {
      case AskStep(w) => AskTasks(p, silent, s, w);
      case WriteStep(w, j, n) => WriteTasks(p, silent, s, w, j, n);
      case FetchStep(t, v) => FetchTasks(p, s, t, v);
      case _ => OtherTasks(p, s, s');
    }
  }

  lemma {:induction false} RunTasks(p: Params, silent: set<(nat, nat)>, run: seq<Sys>, steps: seq<Step>, k: nat)
    requires p.nReduce >= 1 && IsExecution(p, run, steps) && OnlySilentReplaced(run, steps, silent) && k < |run|
    ensures Books(p, run[k]) && TasksGood(p, run[k])
  {
    hide Books, Next, MapSide, StepAllowed, TasksGood;
    RunBooks(p, run, steps, k);
    if k == 0 {
      assert TasksGood(p, Begin(p)) by { NoTasks(p, Begin(p)); }
    } else {
      RunMapSide(p, silent, run, steps, k - 1);
      RunTasks(p, silent, run, steps, k - 1);
      NextTasks(p, silent, run[k - 1], steps[k - 1], run[k]);
    }
  }

  lemma NoTasks(p: Params, s: Sys)
    requires s.tasks == {}
    ensures TasksGood(p, s)
  {
  }

  /** In every run: as long as none of the locations of a reduce job was reported dead, each of them
      holds exactly what it held when the job was handed out. */
  lemma LocationsStable(p: Params, silent: set<(nat, nat)>, run: seq<Sys>, steps: seq<Step>, k: nat, t: Task, v: nat)
    requires p.nReduce >= 1 && IsExecution(p, run, steps) && OnlySilentReplaced(run, steps, silent) && k < |run|
    requires t in run[k].tasks && v in t.offered && t.offered.Keys !! run[k].dead
    ensures Holdings(run[k], v, t.r) == t.offered[v]
  {
    hide Next, Books;
    RunTasks(p, silent, run, steps, k);
    assert Stable(run[k], t);
  }

  /** When every location has been fetched from, each map job's file was fetched exactly once if and only
      if each location still held, when it was fetched from, just what it held at the hand-out. */
  lemma FetchedOnceExactly(p: Params, t: Task)
    requires TaskGood(p, t) && t.taken.Keys == t.offered.Keys
    ensures (forall j: nat :: |Takers(t, j)| == if j < |p.files| then 1 else 0) <==> t.taken == t.offered
  {
    hide TaskGood, Takers;
    if t.taken == t.offered {
      AsOfferedOnce(p, t);
    } else {
      var v :| v in t.offered && t.taken[v] != t.offered[v];
      var j := MoreThanOffered(p, t, v);
    }
  }

  lemma AsOfferedOnce(p: Params, t: Task)
    requires TaskGood(p, t) && t.taken == t.offered
    ensures forall j: nat :: |Takers(t, j)| == if j < |p.files| then 1 else 0
  {
    forall j: nat ensures |Takers(t, j)| == if j < |p.files| then 1 else 0 {
      assert Takers(t, j) == Offerers(t, j);
      if j >= |p.files| { assert Offerers(t, j) == {}; }
    }
  }

  /** A location that gained a file gave one that another location had offered. */
  lemma MoreThanOffered(p: Params, t: Task, v: nat) returns (j: nat)
    requires TaskGood(p, t) && t.taken.Keys == t.offered.Keys && v in t.offered && t.taken[v] != t.offered[v]
    ensures j < |p.files| && |Takers(t, j)| >= 2
  {
    j :| j in t.taken[v] && j !in t.offered[v];
    assert |Offerers(t, j)| == 1;
    var u :| u in Offerers(t, j);
    var ws := Takers(t, j);
    assert u in ws && v in ws && u != v;
    assert ws == {u, v} + (ws - {u, v});
  }

  // ---------------------------------------------------------------------------
  // The exact condition on the steps: what is written between hand-out and fetch
  // ---------------------------------------------------------------------------

  /** Every fetch finds at its location just what that location held when the job was handed out. */
  ghost predicate Steady(run: seq<Sys>, steps: seq<Step>)
    requires |run| == |steps| + 1
  {
    forall k :: 0 <= k < |steps| ==> StepSteady(run[k], steps[k])
  }

  ghost predicate StepSteady(s: Sys, step: Step) {
    step.FetchStep? && step.v in step.t.offered ==> Holdings(s, step.v, step.t.r) == step.t.offered[step.v]
  }

  lemma FilesStep(p: Params, s: Sys, step: Step, s': Sys)
    requires p.nReduce >= 1 && WellFormedCoord(s.c) && Next(p, s, step, s')
    ensures s'.files == s.files + if step.WriteStep? then {(step.w, step.j, step.n)} else {}
  {
    hide GetWork, Reduces, InSomeOrder;
  }

  /** What a worker holds is what it held before and what it wrote since. */
  lemma {:induction false} HoldingsSince(p: Params, run: seq<Sys>, steps: seq<Step>, i: nat, k: nat, v: nat, r: nat,
                                         j: nat)
    requires p.nReduce >= 1 && IsExecution(p, run, steps) && i <= k < |run|
    ensures j in Holdings(run[k], v, r) <==>
            j in Holdings(run[i], v, r) || exists m :: i <= m < k && steps[m] == WriteStep(v, j, r)
    decreases k
  {
    hide Next;
    if i < k {
      HoldingsSince(p, run, steps, i, k - 1, v, r, j);
      FilesStep(p, run[k - 1], steps[k - 1], run[k]);
      assert j in Holdings(run[k], v, r) <==> j in Holdings(run[k - 1], v, r) || steps[k - 1] == WriteStep(v, j, r);
    }
  }

  /** Between steps `i` and `k`, location `v` writes bucket `r` only of map jobs in `js`. */
  ghost predicate WritesOnly(steps: seq<Step>, i: nat, k: nat, v: nat, r: nat, js: set<nat>)
    requires i <= k <= |steps|
  {
    forall m, j :: i <= m < k && steps[m] == WriteStep(v, j, r) ==> j in js
  }

  lemma SameHoldingsExactly(p: Params, run: seq<Sys>, steps: seq<Step>, i: nat, k: nat, v: nat, r: nat)
    requires p.nReduce >= 1 && IsExecution(p, run, steps) && i <= k < |run|
    ensures Holdings(run[k], v, r) == Holdings(run[i], v, r) <==> WritesOnly(steps, i, k, v, r, Holdings(run[i], v, r))
  {
    hide Next;
    forall j: nat ensures j in Holdings(run[k], v, r) <==>
      j in Holdings(run[i], v, r) || exists m :: i <= m < k && steps[m] == WriteStep(v, j, r)
    {
      HoldingsSince(p, run, steps, i, k, v, r, j);
    }
    assert Holdings(run[i], v, r) <= Holdings(run[k], v, r);
  }

  /** Step `i` hands out the reduce job of task `t`. */
  ghost predicate HandsOut(run: seq<Sys>, steps: seq<Step>, i: nat, t: Task)
    requires |run| == |steps| + 1 && i < |steps|
  {
    && steps[i] == AskStep(t.worker) && WellFormedCoord(run[i].c)
    && GetWork(run[i].c, t.worker).1 == ReduceJob(t.r)
    && t.offered == Offer(run[i], GetWork(run[i].c, t.worker).0.mapWorkers, t.r)
  }

  /** Step `m` is a fetch for task `t` from location `v`. */
  ghost predicate Fetches(run: seq<Sys>, steps: seq<Step>, m: nat, t: Task, v: nat)
    requires |run| == |steps| + 1 && m < |steps|
  {
    && steps[m].FetchStep? && steps[m].v == v && steps[m].t.(taken := t.taken) == t
    && v in t.taken && t.taken[v] == Holdings(run[m], v, t.r)
  }

  /** Task `t` was handed out at step `i`, and what it has taken from each location it fetched at step
      `when` of that location. */
  ghost predicate TaskHistory(run: seq<Sys>, steps: seq<Step>, t: Task, k: nat, i: nat, when: map<nat, nat>)
    requires |run| == |steps| + 1
  {
    && i < k < |run| && HandsOut(run, steps, i, t) && when.Keys == t.taken.Keys
    && forall v :: v in when ==> i < when[v] < k && Fetches(run, steps, when[v], t, v)
  }

  /** Where a task that was not there comes from: a hand-out, or a fetch for a task that was. */
  lemma TaskComesFrom(p: Params, s: Sys, step: Step, s': Sys, t: Task)
    requires p.nReduce >= 1 && WellFormedCoord(s.c) && Next(p, s, step, s') && t in s'.tasks && t !in s.tasks
    ensures step.FetchStep? || step == AskStep(t.worker)
    ensures step.FetchStep? ==>
      && step.t in s.tasks && step.v !in step.t.taken
      && t == step.t.(taken := step.t.taken[step.v := Holdings(s, step.v, step.t.r)])
    ensures step.AskStep? ==>
      && t.taken == map[] && GetWork(s.c, t.worker).1 == ReduceJob(t.r)
      && t.offered == Offer(s, GetWork(s.c, t.worker).0.mapWorkers, t.r)
  {
    hide GetWork, Reduces, InSomeOrder;
  }

  lemma HistoryGoesOn(run: seq<Sys>, steps: seq<Step>, t: Task, k: nat, i: nat, when: map<nat, nat>, v: nat)
    requires |run| == |steps| + 1 && k < |steps| && TaskHistory(run, steps, t, k, i, when) && v !in t.taken
    requires steps[k] == FetchStep(t, v)
    ensures var t' := t.(taken := t.taken[v := Holdings(run[k], v, t.r)]);
      TaskHistory(run, steps, t', k + 1, i, when[v := k])
  {
    hide GetWork;
    var t', when' := t.(taken := t.taken[v := Holdings(run[k], v, t.r)]), when[v := k];
    assert HandsOut(run, steps, i, t');
    forall u | u in when' ensures i < when'[u] < k + 1 && Fetches(run, steps, when'[u], t', u) {
      if u != v { assert Fetches(run, steps, when[u], t, u); }
    }
  }

  /** Every task has a history. */
  lemma {:induction false} HistoryOf(p: Params, run: seq<Sys>, steps: seq<Step>, t: Task, k: nat)
    returns (i: nat, when: map<nat, nat>)
    requires p.nReduce >= 1 && IsExecution(p, run, steps) && k < |run| && t in run[k].tasks
    ensures TaskHistory(run, steps, t, k, i, when)
    decreases k
  {
    hide GetWork, Next, Fetches;
    var n := k - 1;
    if t in run[n].tasks {
      i, when := HistoryOf(p, run, steps, t, n);
    } else {
      TaskComesFrom(p, run[n], steps[n], run[k], t);
      if steps[n].FetchStep? {
        i, when := HistoryOf(p, run, steps, steps[n].t, n);
        HistoryGoesOn(run, steps, steps[n].t, n, i, when, steps[n].v);
        when := when[steps[n].v := n];
      } else {
        i, when := n, map[];
      }
    }
  }

  /** The exact condition on the steps of a run: a reducer that has fetched from all its locations has each
      map job's file exactly once if and only if no location, between the hand-out and the fetch from it,
      wrote that bucket of a map job it had not offered. */
  lemma FetchedOnceByWrites(p: Params, silent: set<(nat, nat)>, run: seq<Sys>, steps: seq<Step>, t: Task, k: nat,
                            i: nat, when: map<nat, nat>)
    requires p.nReduce >= 1 && IsExecution(p, run, steps) && OnlySilentReplaced(run, steps, silent)
    requires k < |run| && t in run[k].tasks && t.taken.Keys == t.offered.Keys && TaskHistory(run, steps, t, k, i, when)
    ensures (forall j: nat :: |Takers(t, j)| == if j < |p.files| then 1 else 0) <==>
            forall v :: v in t.offered ==> WritesOnly(steps, i, when[v], v, t.r, t.offered[v])
  {
    hide IsExecution, OnlySilentReplaced, Takers, WritesOnly, GetWork;
    Lengths(p, run, steps);
    RunTasks(p, silent, run, steps, k);
    FetchedOnceExactly(p, t);
    forall v | v in t.offered
      ensures t.taken[v] == t.offered[v] <==> WritesOnly(steps, i, when[v], v, t.r, t.offered[v])
    {
      assert Fetches(run, steps, when[v], t, v);
      assert t.offered[v] == Holdings(run[i], v, t.r);
      SameHoldingsExactly(p, run, steps, i, when[v], v, t.r);
    }
  }

  /** A fetch finds just what was offered exactly when the location has written nothing else since. */
  lemma SteadyExactly(p: Params, run: seq<Sys>, steps: seq<Step>, k: nat, i: nat, when: map<nat, nat>)
    requires p.nReduce >= 1 && IsExecution(p, run, steps) && k < |steps| && steps[k].FetchStep?
    requires TaskHistory(run, steps, steps[k].t, k, i, when) && steps[k].v in steps[k].t.offered
    ensures StepSteady(run[k], steps[k]) <==>
            WritesOnly(steps, i, k, steps[k].v, steps[k].t.r, steps[k].t.offered[steps[k].v])
  {
    hide IsExecution, WritesOnly, GetWork;
    var t, v := steps[k].t, steps[k].v;
    assert t.offered[v] == Holdings(run[i], v, t.r);
    SameHoldingsExactly(p, run, steps, i, k, v, t.r);
  }

  /** So it is if no location of a reduce job is reported dead before the job's last fetch. */
  lemma UndisturbedIsSteady(p: Params, silent: set<(nat, nat)>, run: seq<Sys>, steps: seq<Step>)
    requires p.nReduce >= 1 && IsExecution(p, run, steps) && OnlySilentReplaced(run, steps, silent)
    requires forall k :: 0 <= k < |steps| && steps[k].FetchStep? ==> steps[k].t.offered.Keys !! run[k].dead
    ensures Steady(run, steps)
  {
    forall k | 0 <= k < |steps| ensures StepSteady(run[k], steps[k]) {
      assert Next(p, run[k], steps[k], run[k + 1]);
      if steps[k].FetchStep? {
        LocationsStable(p, silent, run, steps, k, steps[k].t, steps[k].v);
      }
    }
  }

  // ---------------------------------------------------------------------------
  // Outputs
  // ---------------------------------------------------------------------------

  ghost predicate TakenAsOffered(t: Task) {
    forall v :: v in t.taken ==> v in t.offered && t.taken[v] == t.offered[v]
  }

  ghost predicate OutputsGood(p: Params, s: Sys)
    requires p.nReduce >= 1
  {
    && (forall t :: t in s.tasks ==> TakenAsOffered(t))
    && (forall w, r, lines :: (w, r, lines) in s.ready ==>
          OutputOf(p.reducef, p.hash, p.nReduce, MapPairs(p), r, lines))
    && (forall r :: r in s.c.outputs ==> OutputOf(p.reducef, p.hash, p.nReduce, MapPairs(p), r, s.c.outputs[r]))
    && (forall r :: 0 <= r < |s.c.reduceJobs.slots| && s.c.reduceJobs.slots[r].completed ==> r in s.c.outputs)
  }

  ghost function JobIds(n: nat): seq<nat> {
    seq(n, i => i)
  }

  lemma {:induction false} JobIdsCount(n: nat, j: nat)
    ensures multiset(JobIds(n))[j] == if j < n then 1 else 0
  {
    if 0 < n {
      JobIdsCount(n - 1, j);
      assert JobIds(n) == JobIds(n - 1) + [n - 1];
    }
  }

  lemma {:induction false} FlattenConcat<T>(a: seq<seq<T>>, b: seq<seq<T>>)
    ensures Flatten(a + b) == Flatten(a) + Flatten(b)
    decreases |b|
  {
    if b == [] {
      assert a + b == a;
    } else {
      var k := |b| - 1;
      var c := a + b[..k];
      FlattenConcat(a, b[..k]);
      assert a + b == c + [b[k]];
      assert (c + [b[k]])[..|c|] == c;
      assert Flatten(a + b) == Flatten(c) + b[k];
    }
  }

  /** Delivered file by file, a list of map jobs in two parts is delivered in two parts. */
  lemma DeliveredConcat(p: Params, u: seq<nat>, v: seq<nat>, r: nat)
    requires p.nReduce >= 1
    ensures Flatten(Delivered(p, u + v, r)) == Flatten(Delivered(p, u, r)) + Flatten(Delivered(p, v, r))
  {
    hide Flatten, BucketFile;
    assert Delivered(p, u + v, r) == Delivered(p, u, r) + Delivered(p, v, r);
    FlattenConcat(Delivered(p, u, r), Delivered(p, v, r));
  }

  lemma DeliveredOne(p: Params, x: nat, r: nat)
    requires p.nReduce >= 1
    ensures Flatten(Delivered(p, [x], r)) == BucketFile(p, x, r)
  {
    hide BucketFile;
    var d := Delivered(p, [x], r);
    assert d == [BucketFile(p, x, r)];
    assert Flatten(d) == Flatten(d[..0]) + d[0];
  }

  /** Taking one map job out of the list takes its file out of the bag of pairs. */
  lemma {:induction false} DeliveredWithout(p: Params, u: seq<nat>, x: nat, v: seq<nat>, r: nat)
    requires p.nReduce >= 1
    ensures multiset(Flatten(Delivered(p, u + [x] + v, r))) ==
            multiset(Flatten(Delivered(p, u + v, r))) + multiset(BucketFile(p, x, r))
  {
    hide Flatten, BucketFile, Delivered;
    DeliveredConcat(p, u + [x], v, r);
    DeliveredConcat(p, u, [x], r);
    DeliveredConcat(p, u, v, r);
    DeliveredOne(p, x, r);
  }

  lemma TakenOut(rest: seq<nat>, x: nat, b: seq<nat>) returns (u: seq<nat>, v: seq<nat>)
    requires multiset(rest + [x]) == multiset(b)
    ensures b == u + [x] + v && multiset(rest) == multiset(u + v)
  {
    assert x in multiset(rest + [x]);
    var k :| 0 <= k < |b| && b[k] == x;
    u, v := b[..k], b[k + 1..];
    assert b == u + [x] + v;
    assert multiset(b) == multiset(u + v) + multiset{x};
    assert multiset(rest + [x]) == multiset(rest) + multiset{x};
    assert multiset(rest) == multiset(b) - multiset{x};
  }

  /** Files fetched in another order deliver the same bag of pairs. */
  lemma {:induction false} DeliveredSameBag(p: Params, a: seq<nat>, b: seq<nat>, r: nat)
    requires p.nReduce >= 1 && multiset(a) == multiset(b)
    ensures multiset(Flatten(Delivered(p, a, r))) == multiset(Flatten(Delivered(p, b, r)))
    decreases |a|
  {
    hide Flatten, BucketFile, Delivered;
    if a == [] {
      assert |multiset(b)| == 0;
      assert b == [];
    } else {
      var n := |a| - 1;
      var rest, x := a[..n], a[n];
      assert a == rest + [x] + [] && rest + [] == rest;
      var u, v := TakenOut(rest, x, b);
      DeliveredSameBag(p, rest, u + v, r);
      DeliveredWithout(p, rest, x, [], r);
      DeliveredWithout(p, u, x, v, r);
    }
  }

  /** Fetching every map job's file exactly once delivers bucket `r` of all pairs. */
  lemma DeliveredIsBucket(p: Params, fetched: seq<nat>, r: nat)
    requires p.nReduce >= 1 && forall j: nat :: multiset(fetched)[j] == if j < |p.files| then 1 else 0
    ensures multiset(Flatten(Delivered(p, fetched, r))) == multiset(Bucket(MapPairs(p), p.hash, p.nReduce, r))
  {
    hide Flatten, Bucket;
    var n := |p.files|;
    forall j: nat ensures multiset(fetched)[j] == multiset(JobIds(n))[j] {
      JobIdsCount(n, j);
    }
    DeliveredSameBag(p, fetched, JobIds(n), r);
    var ms := Intermediate(p.mapf, p.files);
    BucketOfFlatten(ms, p.hash, p.nReduce, r);
    assert Delivered(p, JobIds(n), r) == seq(|ms|, j requires 0 <= j < |ms| => Bucket(ms[j], p.hash, p.nReduce, r));
  }

  /** What a reducer computes from what it was offered is its output file. */
  lemma CollectedOutput(p: Params, t: Task, fetched: seq<nat>, lines: seq<Line>)
    requires GoodParams(p) && TaskGood(p, t) && TakenAsOffered(t) && t.taken.Keys == t.offered.Keys
    requires InSomeOrder(t, fetched) && Reduces(p.reducef, Flatten(Delivered(p, fetched, t.r)), lines)
    ensures OutputOf(p.reducef, p.hash, p.nReduce, MapPairs(p), t.r, lines)
  {
    hide OrderBlind, Reduces, TaskGood, Delivered, Bucket;
    assert t.taken == t.offered;
    FetchedOnceExactly(p, t);
    DeliveredIsBucket(p, fetched, t.r);
    ReducesSameBag(p.reducef, Flatten(Delivered(p, fetched, t.r)), Bucket(MapPairs(p), p.hash, p.nReduce, t.r), lines);
  }

  lemma {:induction false} NextOutputs(p: Params, s: Sys, step: Step, s': Sys)
    requires GoodParams(p) && WellFormedCoord(s.c) && Books(p, s) && TasksGood(p, s) && OutputsGood(p, s)
    requires Next(p, s, step, s') && StepSteady(s, step)
    ensures OutputsGood(p, s')
  {
    hide OrderBlind, Reduces, InSomeOrder, OutputOf, GetWork, CoordInv, FilesGood, GivenGood, OffersStand, Stable,
         TaskGood, Delivered;
    match step {
      case AskStep(w) =>
        AskFacts(s.c, w);
        var (c', job) := GetWork(s.c, w);
        assert s'.c == c' && s'.ready == s.ready;
      case CollectStep(t, fetched, lines) =>
        CollectedOutput(p, t, fetched, lines);
      case _ =>
    }
  }

  lemma {:induction false} RunOutputs(p: Params, silent: set<(nat, nat)>, run: seq<Sys>, steps: seq<Step>, k: nat)
    requires GoodParams(p) && IsExecution(p, run, steps) && OnlySilentReplaced(run, steps, silent) && Steady(run, steps)
    requires k < |run|
    ensures Books(p, run[k]) && OutputsGood(p, run[k])
  {
    hide Books, Next, TasksGood, OnlySilentReplaced, OrderBlind, StepSteady;
    RunBooks(p, run, steps, k);
    if k > 0 {
      RunTasks(p, silent, run, steps, k - 1);
      RunOutputs(p, silent, run, steps, k - 1);
      NextOutputs(p, run[k - 1], steps[k - 1], run[k]);
    }
  }

  /** Whenever the coordinator is done, the output files hold together exactly the lines of the
      sequential program, and each key is in one file only. */
  lemma DistributedAgreesWithSequential(p: Params, silent: set<(nat, nat)>, run: seq<Sys>, steps: seq<Step>, k: nat,
                                        lines: seq<Line>)
    requires GoodParams(p) && IsExecution(p, run, steps) && OnlySilentReplaced(run, steps, silent) && Steady(run, steps)
    requires k < |run| && run[k].c.isDone && Reduces(p.reducef, MapPairs(p), lines)
    ensures forall r :: 0 <= r < p.nReduce ==> r in run[k].c.outputs
    ensures multiset(Flatten(seq(p.nReduce, r requires 0 <= r < p.nReduce => run[k].c.outputs[r]))) == multiset(lines)
    ensures forall r, key :: 0 <= r < p.nReduce ==>
      (key in LineKeys(run[k].c.outputs[r]) <==> key in KeysOf(MapPairs(p)) && BucketId(p.hash, p.nReduce, key) == r)
  {
    hide OrderBlind, Reduces, OutputOf, IsExecution, Steady, OnlySilentReplaced;
    RunOutputs(p, silent, run, steps, k);
    var s := run[k];
    assert AllCompleted(s.c.reduceJobs.slots);
    var outs := seq(p.nReduce, r requires 0 <= r < p.nReduce => s.c.outputs[r]);
    OutputsAgree(p.reducef, p.hash, p.nReduce, MapPairs(p), outs, lines);
    forall r, key | 0 <= r < p.nReduce
      ensures key in LineKeys(s.c.outputs[r]) <==> key in KeysOf(MapPairs(p)) && BucketId(p.hash, p.nReduce, key) == r
    {
      KeyInOneOutput(p.reducef, p.hash, p.nReduce, MapPairs(p), r, s.c.outputs[r], key);
    }
  }

  // ---------------------------------------------------------------------------
  // What goes wrong when a location dies between two fetches
  // ---------------------------------------------------------------------------

  lemma ExtendedAllowed(p: Params, run: seq<Sys>, steps: seq<Step>, step: Step, s': Sys)
    requires p.nReduce >= 1 && IsExecution(p, run, steps) && OnlySilentReplaced(run, steps, {})
    requires WellFormedCoord(run[|steps|].c) && Next(p, run[|steps|], step, s') && StepAllowed(run[|steps|], step, {})
    ensures IsExecution(p, run + [s'], steps + [step]) && OnlySilentReplaced(run + [s'], steps + [step], {})
  {
    hide Next, StepAllowed, IsExecution;
    Extended(p, run, steps, step, s');
    var run', steps' := run + [s'], steps + [step];
    assert |run| == |steps| + 1 by { Lengths(p, run, steps); }
    forall k | 0 <= k < |steps'| ensures StepAllowed(run'[k], steps'[k], {}) {
      if k < |steps| { assert run'[k] == run[k] && steps'[k] == steps[k]; }
    }
  }

  lemma Lengths(p: Params, run: seq<Sys>, steps: seq<Step>)
    requires p.nReduce >= 1 && IsExecution(p, run, steps)
    ensures |run| == |steps| + 1
  {
  }

  /** Two map jobs, with workers 1 and 2, of which the first `a` are written and the first `b` reported. */
  ghost function TwoJobs(a: nat, b: nat): Sys {
    Sys(Coord(false, Tracker(2, [WorkChunk(1, b >= 1), WorkChunk(2, b >= 2)], [1, 1]), Blank(1), {1, 2}, {}, map[], 1,
              map[]),
        (if a >= 1 then {(1, 0, 0)} else {}) + if a >= 2 then {(2, 1, 0)} else {}, {}, {(1, 0), (2, 1)},
        (if a == 0 then {(1, 0, 0)} else if b == 0 then {(1, 0, 1)} else {}) +
        (if a <= 1 then {(2, 1, 0)} else if b <= 1 then {(2, 1, 1)} else {}), {}, {})
  }

  lemma TwoGiven(p: Params) returns (run: seq<Sys>, steps: seq<Step>)
    requires |p.files| == 2 && p.nReduce == 1
    ensures IsExecution(p, run, steps) && OnlySilentReplaced(run, steps, {}) && |steps| == 2 && run[2] == TwoJobs(0, 0)
  {
    var s0 := Begin(p);
    assert !s0.c.mapJobs.slots[0].completed;
    var s1 := Ask(s0, 1);
    assert s1.c.mapJobs == Tracker(1, [WorkChunk(1, false), WorkChunk(0, false)], [1, 0]);
    assert !s1.c.mapJobs.slots[0].completed;
    var s2 := Ask(s1, 2);
    assert s2.c.mapJobs == Tracker(2, [WorkChunk(1, false), WorkChunk(2, false)], [1, 1]);
    assert s2 == TwoJobs(0, 0);
    run, steps := [s0], [];
    ExtendedAllowed(p, run, steps, AskStep(1), s1);
    run, steps := run + [s1], steps + [AskStep(1)];
    ExtendedAllowed(p, run, steps, AskStep(2), s2);
    run, steps := run + [s2], steps + [AskStep(2)];
  }

  lemma TwoDone(p: Params) returns (run: seq<Sys>, steps: seq<Step>)
    requires |p.files| == 2 && p.nReduce == 1
    ensures IsExecution(p, run, steps) && OnlySilentReplaced(run, steps, {}) && |steps| == 6 && run[6] == TwoJobs(2, 2)
  {
    hide IsExecution, OnlySilentReplaced;
    run, steps := TwoGiven(p);
    Lengths(p, run, steps);
    ExtendedAllowed(p, run, steps, WriteStep(1, 0, 0), TwoJobs(1, 0));
    run, steps := run + [TwoJobs(1, 0)], steps + [WriteStep(1, 0, 0)];
    ExtendedAllowed(p, run, steps, ReportStep(1, 0), TwoJobs(1, 1));
    run, steps := run + [TwoJobs(1, 1)], steps + [ReportStep(1, 0)];
    ExtendedAllowed(p, run, steps, WriteStep(2, 1, 0), TwoJobs(2, 1));
    run, steps := run + [TwoJobs(2, 1)], steps + [WriteStep(2, 1, 0)];
    ExtendedAllowed(p, run, steps, ReportStep(2, 1), TwoJobs(2, 2));
    run, steps := run + [TwoJobs(2, 2)], steps + [ReportStep(2, 1)];
  }

  /** The reduce job of worker 3, with what it has fetched. */
  ghost function ThirdsTask(taken: map<nat, set<nat>>): Task {
    Task(3, 0, map[1 := {0}, 2 := {1}], taken)
  }

  /** Both map jobs are done and worker 3 has fetched what `taken` says. */
  ghost function ThirdCollects(taken: map<nat, set<nat>>): Sys {
    var s := TwoJobs(2, 2);
    s.(c := s.c.(reduceJobs := Tracker(1, [WorkChunk(3, false)], [1]), reduceWorkers := {3}),
       tasks := {ThirdsTask(taken)})
  }

  lemma ThirdAsks()
    ensures TwoJobs(2, 2).dead == {} && WellFormedCoord(TwoJobs(2, 2).c)
    ensures GetWork(TwoJobs(2, 2).c, 3).1 == ReduceJob(0)
    ensures Ask(TwoJobs(2, 2), 3) == ThirdCollects(map[])
  {
    var s := TwoJobs(2, 2);
    assert AllCompleted(s.c.mapJobs.slots);
    assert Holdings(s, 1, 0) == {0} && Holdings(s, 2, 0) == {1};
    assert Offer(s, {1, 2}, 0) == map[1 := {0}, 2 := {1}];
  }

  lemma ThirdFetches()
    ensures Fetch(ThirdCollects(map[]), ThirdsTask(map[]), 1) == ThirdCollects(map[1 := {0}])
  {
    assert Holdings(ThirdCollects(map[]), 1, 0) == {0};
  }

  /** Worker 3 is given the reduce job and fetches from worker 1. */
  lemma FetchedFromFirst(p: Params) returns (run: seq<Sys>, steps: seq<Step>)
    requires |p.files| == 2 && p.nReduce == 1
    ensures IsExecution(p, run, steps) && OnlySilentReplaced(run, steps, {}) && |steps| == 8
    ensures steps[6..] == [AskStep(3), FetchStep(ThirdsTask(map[]), 1)] && run[8] == ThirdCollects(map[1 := {0}])
  {
    hide IsExecution, OnlySilentReplaced, TwoJobs, Ask, Fetch, GetWork;
    run, steps := TwoDone(p);
    Lengths(p, run, steps);
    ThirdAsks();
    ExtendedAllowed(p, run, steps, AskStep(3), ThirdCollects(map[]));
    run, steps := run + [ThirdCollects(map[])], steps + [AskStep(3)];
    ThirdFetches();
    ThirdWellFormed(map[]);
    ExtendedAllowed(p, run, steps, FetchStep(ThirdsTask(map[]), 1), ThirdCollects(map[1 := {0}]));
    run, steps := run + [ThirdCollects(map[1 := {0}])], steps + [FetchStep(ThirdsTask(map[]), 1)];
  }

  lemma ThirdWellFormed(taken: map<nat, set<nat>>)
    ensures WellFormedCoord(ThirdCollects(taken).c) && ThirdCollects(taken).dead == {}
  {
  }

  /** Then worker 1 is reported dead. */
  lemma FetchedThenDead(p: Params) returns (run: seq<Sys>, steps: seq<Step>)
    requires |p.files| == 2 && p.nReduce == 1
    ensures IsExecution(p, run, steps) && OnlySilentReplaced(run, steps, {}) && |steps| == 9
    ensures steps[6..] == [AskStep(3), FetchStep(ThirdsTask(map[]), 1), DeadStep(1, 0)]
    ensures run[9].c.mapJobs == Tracker(2, [WorkChunk(0, false), WorkChunk(2, true)], [0, 1]) && !run[9].c.isDone
    ensures run[9].tasks == {ThirdsTask(map[1 := {0}])} && run[9].dead == {1} && WellFormedCoord(run[9].c)
    ensures run[9].files == {(1, 0, 0), (2, 1, 0)} && run[9].mapping == {}
  {
    hide IsExecution, OnlySilentReplaced;
    run, steps := FetchedFromFirst(p);
    Lengths(p, run, steps);
    var s8 := run[8];
    var s9 := s8.(c := WorkerDead(s8.c, 1, 0), dead := s8.dead + {1});
    assert s9.c.mapJobs == Tracker(2, [WorkChunk(0, false), WorkChunk(2, true)], [0, 1]);
    ExtendedAllowed(p, run, steps, DeadStep(1, 0), s9);
    run, steps := run + [s9], steps + [DeadStep(1, 0)];
  }

  /** A run in which nobody is replaced by time-out, but worker 2 redoes the dead worker's map job before
      the reducer fetches from it: the reducer has map job 0 twice. */
  lemma InterleavedFetchDuplicates(p: Params) returns (run: seq<Sys>, steps: seq<Step>)
    requires |p.files| == 2 && p.nReduce == 1
    ensures IsExecution(p, run, steps) && OnlySilentReplaced(run, steps, {}) && |steps| == 12
    ensures steps[9..] == [AskStep(2), WriteStep(2, 0, 0), FetchStep(ThirdsTask(map[1 := {0}]), 2)]
    ensures var t := ThirdsTask(map[1 := {0}, 2 := {0, 1}]);
      t in run[12].tasks && t.taken.Keys == t.offered.Keys && Takers(t, 0) == {1, 2}
  {
    hide IsExecution, OnlySilentReplaced;
    run, steps := FetchedThenDead(p);
    Lengths(p, run, steps);
    var s9 := run[9];
    assert !s9.c.mapJobs.slots[0].completed;
    assert EligibleAt(s9.c.mapJobs, 0);
    var s10 := Ask(s9, 2);
    assert GetWork(s9.c, 2).1 == MapJob(0);
    ExtendedAllowed(p, run, steps, AskStep(2), s10);
    run, steps := run + [s10], steps + [AskStep(2)];
    var s11 := Write(s10, 2, 0, 0);
    ExtendedAllowed(p, run, steps, WriteStep(2, 0, 0), s11);
    run, steps := run + [s11], steps + [WriteStep(2, 0, 0)];
    var s12 := Fetch(s11, ThirdsTask(map[1 := {0}]), 2);
    assert Holdings(s11, 2, 0) == {0, 1};
    ExtendedAllowed(p, run, steps, FetchStep(ThirdsTask(map[1 := {0}]), 2), s12);
    run, steps := run + [s12], steps + [FetchStep(ThirdsTask(map[1 := {0}]), 2)];
    assert ThirdsTask(map[1 := {0}, 2 := {0, 1}]) in s12.tasks;
  }
}

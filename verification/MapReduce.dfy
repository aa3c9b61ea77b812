/** The whole MapReduce system (mr/coordinator.go with mr/worker.go): the coordinator, the files on each
    worker's disk, and the workers between their requests, as a state machine.

    The workers are fail-stop: one that was reported dead sends nothing more, and its files cannot be
    read.  Nothing else is assumed: files are written without asking, and reports may come late, from a
    worker that was replaced, or never. */
module MapReduce {
  import opened Options
  import opened JobTracker
  import opened Coordinators
  import opened WorkerData

  datatype Params = Params(mapf: MapF, reducef: ReduceF, hash: KeyHash, files: seq<(string, string)>, nReduce: nat)

  /** A reduce job in a worker's hands: for each location it was told, the map jobs of which that worker
      had a file for this reduce job at the time, and for each location already fetched from, the map
      jobs whose files were fetched. */
  datatype Task = Task(worker: nat, r: nat, offered: map<nat, set<nat>>, taken: map<nat, set<nat>>)

  /** files: who has which bucket of which map job on disk, as (worker, map job, bucket);
      given: every map job ever handed to a worker; mapping: map jobs not yet reported, with the number
      of buckets written; tasks: reduce jobs being collected; ready: reductions not yet reported. */
  datatype Sys = Sys(c: Coord, files: set<(nat, nat, nat)>, dead: set<nat>, given: set<(nat, nat)>,
                     mapping: set<(nat, nat, nat)>, tasks: set<Task>, ready: set<(nat, nat, seq<Line>)>)

  /** The map jobs of which worker `w` has bucket `r`. */
  ghost function Holdings(s: Sys, w: nat, r: nat): (js: set<nat>)
    ensures forall j :: j in js <==> (w, j, r) in s.files
  {
    var js := set f | f in s.files && f.0 == w && f.2 == r :: f.1;
    assert forall j :: (w, j, r) in s.files ==> (w, j, r).1 in js;
    js
  }

  /** Which of the workers `at` hold bucket `r` of map job `j`. */
  ghost function Holders(s: Sys, at: set<nat>, j: nat, r: nat): set<nat> {
    set w | w in at && (w, j, r) in s.files
  }

  ghost predicate Written(p: Params, s: Sys, w: nat, j: nat) {
    forall r :: 0 <= r < p.nReduce ==> (w, j, r) in s.files
  }

  // ---------------------------------------------------------------------------
  // Steps
  // ---------------------------------------------------------------------------

  ghost function Begin(p: Params): Sys {
    Sys(Fresh(|p.files|, p.nReduce), {}, {}, {}, {}, {}, {})
  }

  ghost function Offer(s: Sys, at: set<nat>, r: nat): map<nat, set<nat>> {
    map v | v in at :: Holdings(s, v, r)
  }

  ghost function Ask(s: Sys, w: nat): Sys
    requires WellFormedCoord(s.c)
  {
    var (c', job) := GetWork(s.c, w);
    match job
    case MapJob(j) => s.(c := c', given := s.given + {(w, j)}, mapping := s.mapping + {(w, j, 0)})
    case ReduceJob(r) => s.(c := c', tasks := s.tasks + {Task(w, r, Offer(s, c'.mapWorkers, r), map[])})
    case _ => s.(c := c')
  }

  /** Worker `w` writes bucket `n` of map job `j`. */
  ghost function Write(s: Sys, w: nat, j: nat, n: nat): Sys {
    s.(files := s.files + {(w, j, n)}, mapping := s.mapping - {(w, j, n)} + {(w, j, n + 1)})
  }

  ghost function Fetch(s: Sys, t: Task, v: nat): Sys {
    s.(tasks := s.tasks - {t} + {t.(taken := t.taken[v := Holdings(s, v, t.r)])})
  }

  /** From how many locations the file of map job `j` was fetched. */
  ghost function Takers(t: Task, j: nat): set<nat> {
    set v | v in t.taken && j in t.taken[v]
  }

  /** The fetched files in some order, as the map jobs they belong to. */
  ghost predicate InSomeOrder(t: Task, fetched: seq<nat>) {
    forall j :: multiset(fetched)[j] == |Takers(t, j)|
  }

  /** Bucket `r` of the given map jobs, file by file. */
  ghost function Delivered(p: Params, fetched: seq<nat>, r: nat): seq<seq<KeyValue>>
    requires p.nReduce >= 1
  {
    seq(|fetched|, i requires 0 <= i < |fetched| => BucketFile(p, fetched[i], r))
  }

  ghost function BucketFile(p: Params, j: nat, r: nat): seq<KeyValue>
    requires p.nReduce >= 1
  {
    if j < |p.files| then Bucket(p.mapf(p.files[j].0, p.files[j].1), p.hash, p.nReduce, r) else []
  }

  datatype Step =
    | JoinStep(address: string) | AskStep(w: nat) | WriteStep(w: nat, j: nat, n: nat) | ReportStep(w: nat, j: nat)
    | FetchStep(t: Task, v: nat) | CollectStep(t: Task, fetched: seq<nat>, lines: seq<Line>)
    | ReduceStep(w: nat, r: nat, lines: seq<Line>) | DeadStep(w: nat, r: nat) | TickStep

  ghost predicate Next(p: Params, s: Sys, step: Step, s': Sys)
    requires p.nReduce >= 1 && WellFormedCoord(s.c)
  {
    match step
    case JoinStep(a) => s' == s.(c := Setup(s.c, a))
    case AskStep(w) => w >= 1 && w !in s.dead && s' == Ask(s, w)
    case WriteStep(w, j, n) => w !in s.dead && (w, j, n) in s.mapping && n < p.nReduce && s' == Write(s, w, j, n)
    case ReportStep(w, j) =>
      && w !in s.dead && (w, j, p.nReduce) in s.mapping && j < |s.c.mapJobs.slots|
      && s' == s.(c := MapDone(s.c, j), mapping := s.mapping - {(w, j, p.nReduce)})
    case FetchStep(t, v) =>
      t in s.tasks && {t.worker, v} !! s.dead && v in t.offered && v !in t.taken && s' == Fetch(s, t, v)
    case CollectStep(t, fetched, lines) =>
      && t in s.tasks && t.worker !in s.dead && t.taken.Keys == t.offered.Keys && InSomeOrder(t, fetched)
      && Reduces(p.reducef, Flatten(Delivered(p, fetched, t.r)), lines)
      && s' == s.(tasks := s.tasks - {t}, ready := s.ready + {(t.worker, t.r, lines)})
    case ReduceStep(w, r, lines) =>
      && w !in s.dead && (w, r, lines) in s.ready && r < |s.c.reduceJobs.slots|
      && s' == s.(c := ReduceDone(s.c, r, Some(lines)), ready := s.ready - {(w, r, lines)})
    case DeadStep(w, r) =>
      w >= 1 && r < |s.c.reduceJobs.slots| && s' == s.(c := WorkerDead(s.c, w, r), dead := s.dead + {w})
    case TickStep => s' == s.(c := Tick(s.c))
  }

  ghost predicate IsExecution(p: Params, run: seq<Sys>, steps: seq<Step>)
    requires p.nReduce >= 1
  {
    && |run| == |steps| + 1 && run[0] == Begin(p)
    && forall k :: 0 <= k < |steps| ==> WellFormedCoord(run[k].c) && Next(p, run[k], steps[k], run[k + 1])
  }

  // ---------------------------------------------------------------------------
  // What every run keeps
  // ---------------------------------------------------------------------------

  ghost predicate Sizes(p: Params, s: Sys) {
    CoordInv(s.c) && |s.c.mapJobs.slots| == |p.files| && |s.c.reduceJobs.slots| == p.nReduce
  }

  ghost predicate GivenGood(s: Sys) {
    && s.c.mapWorkers !! s.dead
    && (forall w, j :: (w, j) in s.given ==> w >= 1 && j < s.c.mapJobs.current && (w in s.dead || w in s.c.mapWorkers))
    && (forall j :: 0 <= j < |s.c.mapJobs.slots| && s.c.mapJobs.slots[j].workerId != 0 ==>
          (s.c.mapJobs.slots[j].workerId, j) in s.given)
  }

  /** Only what was given is written, and what was given is written or still being worked on. */
  ghost predicate FilesGood(p: Params, s: Sys) {
    && (forall w, j, r :: (w, j, r) in s.files ==> (w, j) in s.given && r < p.nReduce)
    && (forall w, j, n :: (w, j, n) in s.mapping ==> (w, j) in s.given && n <= p.nReduce)
    && (forall w, j, n, r :: (w, j, n) in s.mapping && 0 <= r < n ==> (w, j, r) in s.files)
    && (forall w, j :: (w, j) in s.given && !Written(p, s, w, j) ==> Pending(s, w, j))
  }

  ghost predicate Pending(s: Sys, w: nat, j: nat) {
    exists n :: (w, j, n) in s.mapping
  }

  /** Only reduce jobs that were handed out are worked on. */
  ghost predicate Started(s: Sys) {
    && (forall t :: t in s.tasks ==> t.r < s.c.reduceJobs.current)
    && (forall w, r, lines :: (w, r, lines) in s.ready ==> r < s.c.reduceJobs.current)
  }

  ghost predicate Books(p: Params, s: Sys) {
    Sizes(p, s) && GivenGood(s) && FilesGood(p, s) && Started(s)
  }

  lemma BeginBooks(p: Params)
    ensures Books(p, Begin(p))
  {
    FreshInv(|p.files|, p.nReduce);
  }

  lemma AskBooks(p: Params, s: Sys, w: nat)
    requires Books(p, s) && WellFormedCoord(s.c) && w >= 1 && w !in s.dead
    ensures Books(p, Ask(s, w))
  {
    hide GetWork, CoordInv;
    AskFacts(s.c, w);
    var s' := Ask(s, w);
    var (c', job) := GetWork(s.c, w);
    assert s'.c == c' && |c'.mapJobs.slots| == |s.c.mapJobs.slots|;
    assert Sizes(p, s');
    assert GivenGood(s');
    assert Started(s');
    assert forall v, j :: Written(p, s, v, j) ==> Written(p, s', v, j);
    forall v, j | (v, j) in s'.given && !Written(p, s', v, j) ensures Pending(s', v, j) {
      if (v, j) in s.given {
        var n :| (v, j, n) in s.mapping;
        assert (v, j, n) in s'.mapping;
      } else {
        assert (v, j, 0) in s'.mapping;
      }
    }
  }

  lemma WriteBooks(p: Params, s: Sys, w: nat, j: nat, n: nat)
    requires Books(p, s) && (w, j, n) in s.mapping && n < p.nReduce
    ensures Books(p, Write(s, w, j, n))
  {
    hide CoordInv;
    var s' := Write(s, w, j, n);
    assert forall v, i :: Written(p, s, v, i) ==> Written(p, s', v, i);
    forall v, i | (v, i) in s'.given && !Written(p, s', v, i) ensures Pending(s', v, i) {
      var m :| (v, i, m) in s.mapping;
      assert (v, i, if (v, i, m) == (w, j, n) then n + 1 else m) in s'.mapping;
    }
  }

  lemma ReportBooks(p: Params, s: Sys, w: nat, j: nat)
    requires Books(p, s) && (w, j, p.nReduce) in s.mapping && j < |s.c.mapJobs.slots|
    ensures Books(p, s.(c := MapDone(s.c, j), mapping := s.mapping - {(w, j, p.nReduce)}))
  {
    var s' := s.(c := MapDone(s.c, j), mapping := s.mapping - {(w, j, p.nReduce)});
    assert (w, j) in s.given;
    MapDoneInv(s.c, j);
    assert Written(p, s', w, j);
    forall v, i | (v, i) in s'.given && !Written(p, s', v, i) ensures Pending(s', v, i) {
      assert !Written(p, s, v, i);
      var m :| (v, i, m) in s.mapping;
      assert (v, i, m) in s'.mapping;
    }
  }

  /** Steps that leave files, hand-outs and map work alone, and slots except of the newly dead. */
  lemma OtherBooks(p: Params, s: Sys, s': Sys)
    requires Books(p, s) && Sizes(p, s') && Started(s')
    requires s'.files == s.files && s'.given == s.given && s'.mapping == s.mapping
    requires s'.c.mapJobs.current == s.c.mapJobs.current && s.dead <= s'.dead
    requires s'.c.mapWorkers == s.c.mapWorkers - s'.dead
    requires forall j :: 0 <= j < |p.files| ==>
      s'.c.mapJobs.slots[j].workerId == s.c.mapJobs.slots[j].workerId || s'.c.mapJobs.slots[j].workerId == 0
    ensures Books(p, s')
  {
    hide CoordInv;
    assert forall v, j :: Written(p, s, v, j) <==> Written(p, s', v, j);
    assert forall v, j :: Pending(s, v, j) <==> Pending(s', v, j);
  }

  lemma {:induction false} NextBooks(p: Params, s: Sys, step: Step, s': Sys)
    requires p.nReduce >= 1 && WellFormedCoord(s.c) && Books(p, s) && Next(p, s, step, s')
    ensures Books(p, s')
  {
    hide Written, Pending, Reduces, InSomeOrder, GetWork, Ask, Write;
    match step {
      case JoinStep(a) => SetupInv(s.c, a); OtherBooks(p, s, s');
      case AskStep(w) => AskBooks(p, s, w);
      case WriteStep(w, j, n) => WriteBooks(p, s, w, j, n);
      case ReportStep(w, j) => ReportBooks(p, s, w, j);
      case FetchStep(t, v) => OtherBooks(p, s, s');
      case CollectStep(t, fetched, lines) => OtherBooks(p, s, s');
      case ReduceStep(w, r, lines) => ReduceDoneInv(s.c, r, Some(lines)); OtherBooks(p, s, s');
      case DeadStep(w, r) => WorkerDeadInv(s.c, w, r); OtherBooks(p, s, s');
      case TickStep => TickCoordInv(s.c); OtherBooks(p, s, s');
    }
  }

  lemma {:induction false} RunBooks(p: Params, run: seq<Sys>, steps: seq<Step>, k: nat)
    requires p.nReduce >= 1 && IsExecution(p, run, steps) && k < |run|
    ensures Books(p, run[k])
  {
    hide Books, Next;
    if k == 0 {
      BeginBooks(p);
    } else {
      RunBooks(p, run, steps, k - 1);
      NextBooks(p, run[k - 1], steps[k - 1], run[k]);
    }
  }

  // ---------------------------------------------------------------------------
  // One holder for each map job
  // ---------------------------------------------------------------------------

  /** Exactly one of the workers `at` holds each bucket of each map job. */
  ghost predicate OneHolderEach(p: Params, s: Sys, at: set<nat>) {
    forall j, r :: 0 <= j < |p.files| && 0 <= r < p.nReduce ==> |Holders(s, at, j, r)| == 1
  }

  /** The time-out branch of retryMapper: worker `w` is given a map job that is recorded under another
      worker, who was never reported dead. */
  ghost predicate Reissues(c: Coord, w: nat, j: nat) {
    && WellFormedCoord(c) && GetWork(c, w).1 == MapJob(j) && j < |c.mapJobs.slots|
    && c.mapJobs.slots[j].workerId != 0 && c.mapJobs.slots[j].workerId != w
  }

  /** A map job is taken from a worker by time-out only if that worker writes no file of it in the whole
      run: `silent` holds the workers so replaced, with the job. */
  ghost predicate OnlySilentReplaced(run: seq<Sys>, steps: seq<Step>, silent: set<(nat, nat)>)
    requires |run| == |steps| + 1
  {
    forall k :: 0 <= k < |steps| ==> StepAllowed(run[k], steps[k], silent)
  }

  ghost predicate StepAllowed(s: Sys, step: Step, silent: set<(nat, nat)>) {
    && (step.WriteStep? ==> (step.w, step.j) !in silent)
    && (step.AskStep? ==> forall j: nat :: Reissues(s.c, step.w, j) ==> (s.c.mapJobs.slots[j].workerId, j) in silent)
  }

  /** A live worker that was given a map job is the one its slot records, unless it is a silent one. */
  ghost predicate Recorded(s: Sys, silent: set<(nat, nat)>) {
    forall w, j :: (w, j) in s.given && w !in s.dead && (w, j) !in silent ==>
      j < |s.c.mapJobs.slots| && s.c.mapJobs.slots[j].workerId == w
  }

  ghost predicate SilentWroteNothing(s: Sys, silent: set<(nat, nat)>) {
    forall w, j, r :: (w, j, r) in s.files ==> (w, j) !in silent
  }

  /** The recorded worker of a completed map job has all its files. */
  ghost predicate CompletedWritten(p: Params, s: Sys) {
    forall j :: 0 <= j < |s.c.mapJobs.slots| && s.c.mapJobs.slots[j].completed ==>
      s.c.mapJobs.slots[j].workerId != 0 && Written(p, s, s.c.mapJobs.slots[j].workerId, j)
  }

  ghost predicate MapSide(p: Params, silent: set<(nat, nat)>, s: Sys) {
    Recorded(s, silent) && SilentWroteNothing(s, silent) && CompletedWritten(p, s)
  }

  lemma AskMapSide(p: Params, silent: set<(nat, nat)>, s: Sys, w: nat)
    requires p.nReduce >= 1 && Books(p, s) && WellFormedCoord(s.c) && MapSide(p, silent, s) && w >= 1
    requires StepAllowed(s, AskStep(w), silent)
    ensures MapSide(p, silent, Ask(s, w))
  {
    hide GetWork, CoordInv, FilesGood;
    AskFacts(s.c, w);
    var s' := Ask(s, w);
    var (c', job) := GetWork(s.c, w);
    assert s'.c == c' && s'.files == s.files && s'.dead == s.dead;
    if job.MapJob? {
      var j, v := job.id, s.c.mapJobs.slots[job.id].workerId;
      if v != 0 && v != w {
        assert Reissues(s.c, w, j);
        assert (v, j) in silent;
      }
      if s.c.mapJobs.slots[j].completed {
        assert (v, j, 0) in s.files;
        assert v == w;
      }
      assert Recorded(s', silent);
      assert forall u, i :: Written(p, s', u, i) <==> Written(p, s, u, i);
      assert CompletedWritten(p, s');
    } else {
      assert s'.c.mapJobs == s.c.mapJobs && s'.given == s.given;
      assert forall u, i :: Written(p, s', u, i) <==> Written(p, s, u, i);
    }
  }

  lemma ReportMapSide(p: Params, silent: set<(nat, nat)>, s: Sys, w: nat, j: nat)
    requires p.nReduce >= 1 && Books(p, s) && MapSide(p, silent, s)
    requires w !in s.dead && (w, j, p.nReduce) in s.mapping && j < |s.c.mapJobs.slots|
    ensures MapSide(p, silent, s.(c := MapDone(s.c, j), mapping := s.mapping - {(w, j, p.nReduce)}))
  {
    hide CoordInv;
    var s' := s.(c := MapDone(s.c, j), mapping := s.mapping - {(w, j, p.nReduce)});
    assert (w, j, 0) in s.files;
    assert s.c.mapJobs.slots[j].workerId == w;
    assert Written(p, s', w, j);
    assert forall u, i :: Written(p, s', u, i) <==> Written(p, s, u, i);
  }

  /** Steps that write no file of a silent worker and leave the slots alone, except of the newly dead. */
  lemma OtherMapSide(p: Params, silent: set<(nat, nat)>, s: Sys, s': Sys)
    requires MapSide(p, silent, s) && s.files <= s'.files && s'.given == s.given && s.dead <= s'.dead
    requires forall w, j, r :: (w, j, r) in s'.files - s.files ==> (w, j) !in silent
    requires |s'.c.mapJobs.slots| == |s.c.mapJobs.slots|
    requires forall j :: 0 <= j < |s.c.mapJobs.slots| ==>
      || s'.c.mapJobs.slots[j] == s.c.mapJobs.slots[j]
      || (s'.c.mapJobs.slots[j] == WorkChunk(0, false) && s.c.mapJobs.slots[j].workerId in s'.dead)
    ensures MapSide(p, silent, s')
  {
    assert forall u, i :: Written(p, s, u, i) ==> Written(p, s', u, i);
    forall w, j, r | (w, j, r) in s'.files ensures (w, j) !in silent {
      if (w, j, r) !in s.files { assert (w, j, r) in s'.files - s.files; }
    }
  }

  lemma {:induction false} NextMapSide(p: Params, silent: set<(nat, nat)>, s: Sys, step: Step, s': Sys)
    requires p.nReduce >= 1 && WellFormedCoord(s.c) && Books(p, s) && MapSide(p, silent, s) && Next(p, s, step, s')
    requires StepAllowed(s, step, silent)
    ensures MapSide(p, silent, s')
  {
    hide MapSide, Reduces, InSomeOrder, GetWork, Ask, CoordInv;
    match step {
      case AskStep(w) => AskMapSide(p, silent, s, w);
      case ReportStep(w, j) => ReportMapSide(p, silent, s, w, j);
      case WriteStep(w, j, n) => OtherMapSide(p, silent, s, s');
      case _ => OtherMapSide(p, silent, s, s');
    }
  }

  lemma {:induction false} RunMapSide(p: Params, silent: set<(nat, nat)>, run: seq<Sys>, steps: seq<Step>, k: nat)
    requires p.nReduce >= 1 && IsExecution(p, run, steps) && OnlySilentReplaced(run, steps, silent) && k < |run|
    ensures Books(p, run[k]) && MapSide(p, silent, run[k])
  {
    hide Books, Next, MapSide, StepAllowed;
    RunBooks(p, run, steps, k);
    if k == 0 {
      assert MapSide(p, silent, Begin(p)) by { BeginMapSide(p, silent); }
    } else {
      RunMapSide(p, silent, run, steps, k - 1);
      NextMapSide(p, silent, run[k - 1], steps[k - 1], run[k]);
    }
  }

  lemma BeginMapSide(p: Params, silent: set<(nat, nat)>)
    ensures MapSide(p, silent, Begin(p))
  {
  }

  /** Once all map jobs are completed, each bucket of each has one holder among the live map workers. */
  lemma OneHolder(p: Params, silent: set<(nat, nat)>, s: Sys)
    requires p.nReduce >= 1 && Books(p, s) && MapSide(p, silent, s) && AllCompleted(s.c.mapJobs.slots)
    ensures OneHolderEach(p, s, s.c.mapWorkers)
  {
    forall j, r | 0 <= j < |p.files| && 0 <= r < p.nReduce ensures |Holders(s, s.c.mapWorkers, j, r)| == 1 {
      var w := s.c.mapJobs.slots[j].workerId;
      assert (w, j, r) in s.files && w in s.c.mapWorkers;
      forall v | v in Holders(s, s.c.mapWorkers, j, r) ensures v == w {
        assert (v, j, r) in s.files && (v, j) in s.given;
      }
      assert Holders(s, s.c.mapWorkers, j, r) == {w};
    }
  }

  /** Whenever a reduce job is handed out, exactly one of the locations it is told holds each map job's
      files; whatever was reported late, lost or taken back, as long as only silent workers were
      replaced by time-out. */
  lemma ReduceLocationsExact(p: Params, silent: set<(nat, nat)>, run: seq<Sys>, steps: seq<Step>, k: nat)
    requires p.nReduce >= 1 && IsExecution(p, run, steps) && OnlySilentReplaced(run, steps, silent)
    requires k < |steps| && steps[k].AskStep? && WellFormedCoord(run[k].c) && GetWork(run[k].c, steps[k].w).1.ReduceJob?
    ensures OneHolderEach(p, run[k + 1], run[k + 1].c.mapWorkers)
  {
    hide MapSide;
    RunMapSide(p, silent, run, steps, k);
    RunMapSide(p, silent, run, steps, k + 1);
    assert Next(p, run[k], steps[k], run[k + 1]);
    AskFacts(run[k].c, steps[k].w);
    assert run[k + 1].c.mapJobs == run[k].c.mapJobs;
    OneHolder(p, silent, run[k + 1]);
  }

  // ---------------------------------------------------------------------------
  // The exact condition
  // ---------------------------------------------------------------------------

  /** The live workers that map job `j` was ever handed to. */
  ghost function LiveRecipients(s: Sys, j: nat): (ws: set<nat>)
    ensures forall w :: w in ws <==> (w, j) in s.given && w !in s.dead
  {
    var ws := set g | g in s.given && g.1 == j && g.0 !in s.dead :: g.0;
    assert forall w :: (w, j) in s.given && w !in s.dead ==> (w, j).0 in ws;
    ws
  }

  /** Every live worker has written what it was given. */
  ghost predicate Quiet(p: Params, s: Sys) {
    forall w, j, n :: (w, j, n) in s.mapping && w !in s.dead ==> n == p.nReduce
  }

  /** In every run, once the live workers have written what they were given, there is one holder each
      exactly when each map job has one live recipient: the hand-outs and death reports decide it. */
  lemma HoldersAreRecipients(p: Params, run: seq<Sys>, steps: seq<Step>, k: nat)
    requires p.nReduce >= 1 && IsExecution(p, run, steps) && k < |run| && Quiet(p, run[k])
    ensures OneHolderEach(p, run[k], run[k].c.mapWorkers) <==>
            forall j :: 0 <= j < |p.files| ==> |LiveRecipients(run[k], j)| == 1
  {
    var s := run[k];
    RunBooks(p, run, steps, k);
    forall j, r | 0 <= j < |p.files| && 0 <= r < p.nReduce
      ensures Holders(s, s.c.mapWorkers, j, r) == LiveRecipients(s, j)
    {
      forall w | w in LiveRecipients(s, j) ensures (w, j, r) in s.files {
        assert Written(p, s, w, j);
      }
    }
    if OneHolderEach(p, s, s.c.mapWorkers) {
      forall j | 0 <= j < |p.files| ensures |LiveRecipients(s, j)| == 1 {
        assert |Holders(s, s.c.mapWorkers, j, 0)| == 1;
      }
    }
  }

  lemma {:induction false} GivenStays(p: Params, run: seq<Sys>, steps: seq<Step>, i: nat, k: nat)
    requires p.nReduce >= 1 && IsExecution(p, run, steps) && i <= k < |run|
    ensures run[i].given <= run[k].given && run[i].dead <= run[k].dead
    decreases k
  {
    if i < k {
      GivenStays(p, run, steps, i, k - 1);
      assert Next(p, run[k - 1], steps[k - 1], run[k]);
      NextGiven(p, run[k - 1], steps[k - 1], run[k]);
    }
  }

  lemma NextGiven(p: Params, s: Sys, step: Step, s': Sys)
    requires p.nReduce >= 1 && WellFormedCoord(s.c) && Next(p, s, step, s')
    ensures s.given <= s'.given && s.dead <= s'.dead
  {
    hide GetWork, Reduces, InSomeOrder;
  }

  /** A time-out that replaces a worker leaves two live recipients, so if both of them are alive when
      all live workers have written what they were given, some map job has two holders. */
  lemma ReissueDuplicates(p: Params, run: seq<Sys>, steps: seq<Step>, i: nat, j: nat, k: nat)
    requires p.nReduce >= 1 && IsExecution(p, run, steps) && i < k < |run| && Quiet(p, run[k])
    requires steps[i].AskStep? && Reissues(run[i].c, steps[i].w, j)
    requires {run[i].c.mapJobs.slots[j].workerId, steps[i].w} !! run[k].dead
    ensures {run[i].c.mapJobs.slots[j].workerId, steps[i].w} <= LiveRecipients(run[k], j)
    ensures !OneHolderEach(p, run[k], run[k].c.mapWorkers)
  {
    var w, v := steps[i].w, run[i].c.mapJobs.slots[j].workerId;
    RunBooks(p, run, steps, i);
    RunBooks(p, run, steps, k);
    assert Next(p, run[i], steps[i], run[i + 1]);
    assert (v, j) in run[i].given && (w, j) in run[i + 1].given;
    GivenStays(p, run, steps, i, k);
    GivenStays(p, run, steps, i + 1, k);
    HoldersAreRecipients(p, run, steps, k);
    var ws := LiveRecipients(run[k], j);
    assert ws == {v, w} + (ws - {v, w});
    assert |{v, w}| == 2 && j < |p.files|;
  }

  /** The exact condition for runs without death reports: when all map jobs are completed and all
      workers have written what they were given, there is one holder each exactly when no worker was
      replaced by time-out. */
  lemma NoReissueIsExact(p: Params, run: seq<Sys>, steps: seq<Step>, k: nat)
    requires p.nReduce >= 1 && IsExecution(p, run, steps) && k < |run| && Quiet(p, run[k]) && run[k].dead == {}
    requires AllCompleted(run[k].c.mapJobs.slots)
    ensures OneHolderEach(p, run[k], run[k].c.mapWorkers) <==>
            forall i, j :: 0 <= i < k && steps[i].AskStep? ==> !Reissues(run[i].c, steps[i].w, j)
  {
    hide MapSide, Next;
    if i, j :| 0 <= i < k && steps[i].AskStep? && Reissues(run[i].c, steps[i].w, j) {
      ReissueDuplicates(p, run, steps, i, j, k);
    } else {
      var run', steps' := run[..k + 1], steps[..k];
      assert IsExecution(p, run', steps');
      assert OnlySilentReplaced(run', steps', {});
      RunMapSide(p, {}, run', steps', k);
      OneHolder(p, {}, run[k]);
    }
  }

  // ---------------------------------------------------------------------------
  // What goes wrong when a live worker is replaced
  // ---------------------------------------------------------------------------

  lemma Extended(p: Params, run: seq<Sys>, steps: seq<Step>, step: Step, s': Sys)
    requires p.nReduce >= 1 && IsExecution(p, run, steps) && WellFormedCoord(run[|steps|].c)
    requires Next(p, run[|steps|], step, s')
    ensures IsExecution(p, run + [s'], steps + [step])
  {
    hide Next;
    var run', steps' := run + [s'], steps + [step];
    forall k | 0 <= k < |steps'| ensures WellFormedCoord(run'[k].c) && Next(p, run'[k], steps'[k], run'[k + 1]) {
      if k < |steps| { assert run'[k] == run[k] && run'[k + 1] == run[k + 1] && steps'[k] == steps[k]; }
    }
  }

  /** The only map job is with worker `w`, its timer at `t`; the others in `before` had it earlier. */
  ghost function OneJobWith(w: nat, t: nat, before: set<nat>): Sys {
    var ws := before + {w};
    Sys(Coord(false, Tracker(1, [WorkChunk(w, false)], [t]), Blank(1), ws, {}, map[], 1, map[]),
        {}, {}, set v | v in ws :: (v, 0), set v | v in ws :: (v, 0, 0), {}, {})
  }

  lemma {:induction false} WaitingRun(p: Params, n: nat) returns (run: seq<Sys>, steps: seq<Step>)
    requires |p.files| == 1 && p.nReduce == 1
    ensures IsExecution(p, run, steps) && |steps| == n + 1 && run[n + 1] == OneJobWith(1, n + 1, {})
    ensures forall k :: 0 < k < |steps| ==> steps[k].TickStep?
  {
    if n == 0 {
      var s := Begin(p);
      assert !s.c.mapJobs.slots[0].completed;
      var s' := Ask(s, 1);
      assert s'.c.mapJobs == Tracker(1, [WorkChunk(1, false)], [1]);
      assert s' == OneJobWith(1, 1, {});
      run, steps := [s, s'], [AskStep(1)];
    } else {
      var run0, steps0 := WaitingRun(p, n - 1);
      var s := run0[n];
      assert !s.c.mapJobs.slots[0].completed;
      var s' := s.(c := Tick(s.c));
      assert s'.c.mapJobs.timers == [n + 1];
      Extended(p, run0, steps0, TickStep, s');
      run, steps := run0 + [s'], steps0 + [TickStep];
    }
  }

  /** Worker 1 takes the only map job, ten ticks pass, and worker 2 is given it. */
  lemma ReplacedRun(p: Params) returns (run: seq<Sys>, steps: seq<Step>)
    requires |p.files| == 1 && p.nReduce == 1
    ensures IsExecution(p, run, steps) && |steps| == 12 && run[12] == OneJobWith(2, 1, {1})
  {
    var run0, steps0 := WaitingRun(p, 10);
    var s := run0[11];
    assert !s.c.mapJobs.slots[0].completed;
    assert EligibleAt(s.c.mapJobs, 0);
    var s' := Ask(s, 2);
    assert s'.c.mapJobs == Tracker(1, [WorkChunk(2, false)], [1]);
    assert s' == OneJobWith(2, 1, {1});
    Extended(p, run0, steps0, AskStep(2), s');
    run, steps := run0 + [s'], steps0 + [AskStep(2)];
  }

  /** Worker 1, replaced, still writes its file; its report never arrives.  Worker 2 does the job in time.
      Nobody is reported dead and the one report that is accepted comes from the recorded worker within
      the limit, yet the reduce job handed out next is told to fetch the same file from both. */
  lemma UnreportedFilesDuplicate(p: Params) returns (run: seq<Sys>, steps: seq<Step>)
    requires |p.files| == 1 && p.nReduce == 1
    ensures IsExecution(p, run, steps) && |steps| == 16 && run[16].dead == {}
    ensures steps[12..] == [WriteStep(1, 0, 0), WriteStep(2, 0, 0), ReportStep(2, 0), AskStep(3)]
    ensures run[14].c.mapJobs == Tracker(1, [WorkChunk(2, false)], [1])
    ensures WellFormedCoord(run[15].c) && GetWork(run[15].c, 3).1 == ReduceJob(0)
    ensures Holders(run[16], run[16].c.mapWorkers, 0, 0) == {1, 2} && !OneHolderEach(p, run[16], run[16].c.mapWorkers)
  {
    run, steps := ReplacedRun(p);
    var s12 := run[12];
    var s13 := Write(s12, 1, 0, 0);
    Extended(p, run, steps, WriteStep(1, 0, 0), s13);
    var s14 := Write(s13, 2, 0, 0);
    Extended(p, run + [s13], steps + [WriteStep(1, 0, 0)], WriteStep(2, 0, 0), s14);
    var s15 := s14.(c := MapDone(s14.c, 0), mapping := s14.mapping - {(2, 0, 1)});
    Extended(p, run + [s13] + [s14], steps + [WriteStep(1, 0, 0)] + [WriteStep(2, 0, 0)], ReportStep(2, 0), s15);
    assert s15.c.mapJobs.slots == [WorkChunk(2, true)];
    var s16 := Ask(s15, 3);
    assert GetWork(s15.c, 3).1 == ReduceJob(0);
    run := run + [s13] + [s14] + [s15];
    steps := steps + [WriteStep(1, 0, 0)] + [WriteStep(2, 0, 0)] + [ReportStep(2, 0)];
    Extended(p, run, steps, AskStep(3), s16);
    run, steps := run + [s16], steps + [AskStep(3)];
    var h := Holders(s16, s16.c.mapWorkers, 0, 0);
    assert h == {1, 2};
    assert |h| == 2;
  }

  /** Worker 1, replaced, writes and reports, which completes the slot that records worker 2, and is then
      reported dead.  The slot stays completed although nobody alive has the file: the reduce job handed
      out next finds it nowhere. */
  lemma ReplacedReportLosesFiles(p: Params) returns (run: seq<Sys>, steps: seq<Step>)
    requires |p.files| == 1 && p.nReduce == 1
    ensures IsExecution(p, run, steps) && |steps| == 16
    ensures steps[12..] == [WriteStep(1, 0, 0), ReportStep(1, 0), DeadStep(1, 0), AskStep(3)]
    ensures WellFormedCoord(run[15].c) && GetWork(run[15].c, 3).1 == ReduceJob(0)
    ensures Holders(run[16], run[16].c.mapWorkers, 0, 0) == {} && !OneHolderEach(p, run[16], run[16].c.mapWorkers)
  {
    run, steps := ReplacedRun(p);
    var s12 := run[12];
    var s13 := Write(s12, 1, 0, 0);
    Extended(p, run, steps, WriteStep(1, 0, 0), s13);
    var s14 := s13.(c := MapDone(s13.c, 0), mapping := s13.mapping - {(1, 0, 1)});
    Extended(p, run + [s13], steps + [WriteStep(1, 0, 0)], ReportStep(1, 0), s14);
    var s15 := s14.(c := WorkerDead(s14.c, 1, 0), dead := {1});
    Extended(p, run + [s13] + [s14], steps + [WriteStep(1, 0, 0)] + [ReportStep(1, 0)], DeadStep(1, 0), s15);
    assert s15.c.mapJobs.slots == [WorkChunk(2, true)];
    var s16 := Ask(s15, 3);
    assert GetWork(s15.c, 3).1 == ReduceJob(0);
    run := run + [s13] + [s14] + [s15];
    steps := steps + [WriteStep(1, 0, 0)] + [ReportStep(1, 0)] + [DeadStep(1, 0)];
    Extended(p, run, steps, AskStep(3), s16);
    run, steps := run + [s16], steps + [AskStep(3)];
    assert s16.c.mapWorkers == {2};
    assert Holders(s16, s16.c.mapWorkers, 0, 0) == {};
  }
}

/** The MapReduce coordinator (mr/coordinator.go): its state, its handlers as functions on that state,
    and the class whose methods compute them. */
module Coordinators {
  import opened Options
  import opened JobTracker
  import opened WorkerData

  /** outputs: the output files the coordinator has written. */
  datatype Coord = Coord(isDone: bool, mapJobs: Tracker, reduceJobs: Tracker, mapWorkers: set<nat>,
                         reduceWorkers: set<nat>, workers: map<nat, string>, nextWorkerId: nat,
                         outputs: map<nat, seq<Line>>)

  datatype WorkType = MAP | REDUCE | WAIT | NOWORK

  datatype Job = MapJob(id: nat) | ReduceJob(id: nat) | Wait | NoWork

  ghost predicate WellFormedCoord(c: Coord) {
    WellFormed(c.mapJobs) && WellFormed(c.reduceJobs)
  }

  function Fresh(numFiles: nat, nReduce: nat): Coord {
    Coord(false, Blank(numFiles), Blank(nReduce), {}, {}, map[], 1, map[])
  }

  function Setup(c: Coord, address: string): Coord {
    c.(workers := c.workers[c.nextWorkerId := address], nextWorkerId := c.nextWorkerId + 1)
  }

  /** GetWork: nothing once done, map jobs until all are completed, then reduce jobs. */
  function GetWork(c: Coord, w: nat): (Coord, Job)
    requires WellFormedCoord(c)
  {
    if c.isDone then (c, NoWork)
    else if AllCompleted(c.mapJobs.slots) then
      var (t, job) := HandOut(c.reduceJobs, w);
      if job.Some? then (c.(reduceJobs := t, reduceWorkers := c.reduceWorkers + {w}), ReduceJob(job.value))
        else (c, Wait)
    else
      var (t, job) := HandOut(c.mapJobs, w);
      if job.Some? then (c.(mapJobs := t, mapWorkers := c.mapWorkers + {w}), MapJob(job.value)) else (c, Wait)
  }

  function MapDone(c: Coord, job: nat): Coord
    requires job < |c.mapJobs.slots|
  {
    c.(mapJobs := Complete(c.mapJobs, job))
  }

  /** The job is completed even if its output file cannot be created. */
  function ReduceDone(c: Coord, job: nat, file: Option<seq<Line>>): Coord
    requires job < |c.reduceJobs.slots|
  {
    c.(reduceJobs := Complete(c.reduceJobs, job),
       outputs := if file.Some? then c.outputs[job := file.value] else c.outputs)
  }

  /** WorkerDead: all map work of `w` is taken back, and the reduce job that ran into it. */
  function WorkerDead(c: Coord, w: nat, job: nat): Coord
    requires WellFormedCoord(c) && job < |c.reduceJobs.slots|
  {
    c.(mapJobs := ClearWorker(c.mapJobs, w), reduceJobs := ClearJob(c.reduceJobs, job),
      mapWorkers := c.mapWorkers - {w}, workers := c.workers - {w})
  }

  /** One round of serverHandler. */
  function Tick(c: Coord): Coord
    requires WellFormedCoord(c)
  {
    var mapDone, reduceDone := AllCompleted(c.mapJobs.slots), AllCompleted(c.reduceJobs.slots);
    var d := c.(isDone := c.isDone || (mapDone && reduceDone));
    if !mapDone then d.(mapJobs := TickAll(c.mapJobs)) else d.(reduceJobs := TickAll(c.reduceJobs))
  }

  /** The addresses that a reducer is told to collect from. */
  datatype WorkerLocation = WorkerLocation(workerId: nat, address: string)

  function Address(c: Coord, w: nat): string {
    if w in c.workers then c.workers[w] else ""
  }

  // ---------------------------------------------------------------------------
  // What every handler keeps
  // ---------------------------------------------------------------------------

  ghost predicate CoordInv(c: Coord) {
    && Inv(c.mapJobs) && Inv(c.reduceJobs)
    && (forall i :: 0 <= i < |c.mapJobs.slots| && c.mapJobs.slots[i].workerId != 0 ==>
      c.mapJobs.slots[i].workerId in c.mapWorkers)
    && (c.isDone ==> AllCompleted(c.reduceJobs.slots))
  }

  datatype Event =
    | Register(address: string) | AskWork(w: nat) | FinishMap(job: nat)
    | FinishReduce(job: nat, file: Option<seq<Line>>) | ReportDead(w: nat, job: nat) | TickEvent

  /** Worker ids are positive, and only jobs that were handed out are reported finished. */
  ghost predicate Allowed(c: Coord, e: Event) {
    match e
    case AskWork(w) => w >= 1
    case FinishMap(j) => j < c.mapJobs.current
    case FinishReduce(j, _) => j < c.reduceJobs.current
    case ReportDead(_, j) => j < |c.reduceJobs.slots|
    case _ => true
  }

  ghost function Apply(c: Coord, e: Event): Coord
    requires WellFormedCoord(c) && Allowed(c, e)
  {
    match e
    case Register(a) => Setup(c, a)
    case AskWork(w) => GetWork(c, w).0
    case FinishMap(j) => MapDone(c, j)
    case FinishReduce(j, file) => ReduceDone(c, j, file)
    case ReportDead(w, j) => WorkerDead(c, w, j)
    case TickEvent => Tick(c)
  }

  lemma FreshInv(numFiles: nat, nReduce: nat)
    ensures CoordInv(Fresh(numFiles, nReduce))
  {
    BlankInv(numFiles);
    BlankInv(nReduce);
  }

  lemma ApplyInv(c: Coord, e: Event)
    requires CoordInv(c) && WellFormedCoord(c) && Allowed(c, e)
    ensures CoordInv(Apply(c, e))
    ensures c.isDone ==> Apply(c, e).isDone
  {
    hide CoordInv, Tick, GetWork;
    match e {
      case Register(a) => SetupInv(c, a);
      case AskWork(w) => GetWorkInv(c, w);
      case FinishMap(j) => MapDoneInv(c, j);
      case FinishReduce(j, file) => ReduceDoneInv(c, j, file);
      case ReportDead(w, j) => WorkerDeadInv(c, w, j);
      case TickEvent => TickCoordInv(c);
    }
  }

  lemma SetupInv(c: Coord, address: string)
    requires CoordInv(c)
    ensures CoordInv(Setup(c, address))
  {
  }

  lemma GetWorkInv(c: Coord, w: nat)
    requires CoordInv(c) && w >= 1
    ensures CoordInv(GetWork(c, w).0) && GetWork(c, w).0.isDone == c.isDone
  {
    HandOutInv(c.mapJobs, w);
    HandOutInv(c.reduceJobs, w);
  }

  /** What a request for work does: at most one job of the current phase is handed out. */
  lemma AskFacts(c: Coord, w: nat)
    requires CoordInv(c) && w >= 1
    ensures var (c', job) := GetWork(c, w);
      && CoordInv(c') && c'.isDone == c.isDone && c'.outputs == c.outputs
      && (job.MapJob? ==>
            && Assigned(c.mapJobs, c'.mapJobs, job.id, w) && c'.mapWorkers == c.mapWorkers + {w}
            && c'.reduceJobs == c.reduceJobs && !AllCompleted(c.mapJobs.slots))
      && (job.ReduceJob? ==>
            && Assigned(c.reduceJobs, c'.reduceJobs, job.id, w) && c'.mapWorkers == c.mapWorkers
            && c'.mapJobs == c.mapJobs && AllCompleted(c.mapJobs.slots))
      && (job.Wait? || job.NoWork? ==> c' == c)
  {
    hide FirstEligible;
    GetWorkInv(c, w);
    HandOutJob(c.mapJobs, w);
    HandOutJob(c.reduceJobs, w);
  }

  lemma MapDoneInv(c: Coord, j: nat)
    requires CoordInv(c) && j < c.mapJobs.current
    ensures CoordInv(MapDone(c, j))
  {
    CompleteInv(c.mapJobs, j);
  }

  lemma ReduceDoneInv(c: Coord, j: nat, file: Option<seq<Line>>)
    requires CoordInv(c) && j < c.reduceJobs.current
    ensures CoordInv(ReduceDone(c, j, file))
  {
    CompleteInv(c.reduceJobs, j);
  }

  lemma WorkerDeadInv(c: Coord, w: nat, j: nat)
    requires CoordInv(c) && j < |c.reduceJobs.slots|
    ensures CoordInv(WorkerDead(c, w, j))
  {
    ClearWorkerInv(c.mapJobs, w);
    ClearJobInv(c.reduceJobs, j);
  }

  lemma TickCoordInv(c: Coord)
    requires CoordInv(c)
    ensures CoordInv(Tick(c)) && (c.isDone ==> Tick(c).isDone)
  {
    TickInv(c.mapJobs);
    TickInv(c.reduceJobs);
  }

  ghost predicate IsRun(numFiles: nat, nReduce: nat, run: seq<Coord>, events: seq<Event>) {
    && |run| == |events| + 1 && run[0] == Fresh(numFiles, nReduce)
    && forall k :: 0 <= k < |events| ==>
         WellFormedCoord(run[k]) && Allowed(run[k], events[k]) && run[k + 1] == Apply(run[k], events[k])
  }

  /** In every reachable state: a slot has a worker exactly when its timer runs, slots past the cursor
      are blank, every map slot's worker is among the map workers; and once the coordinator is done it
      stays done with every reduce job completed, whatever is reported later. */
  lemma {:induction false} RunInv(numFiles: nat, nReduce: nat, run: seq<Coord>, events: seq<Event>, k: nat)
    requires IsRun(numFiles, nReduce, run, events) && k < |run|
    ensures CoordInv(run[k])
    ensures forall j :: 0 <= j <= k && run[j].isDone ==> run[k].isDone && AllCompleted(run[k].reduceJobs.slots)
  {
    if k == 0 {
      FreshInv(numFiles, nReduce);
    } else {
      RunInv(numFiles, nReduce, run, events, k - 1);
      ApplyInv(run[k - 1], events[k - 1]);
      assert run[k] == Apply(run[k - 1], events[k - 1]);
    }
  }

  // ---------------------------------------------------------------------------
  // The coordinator object
  // ---------------------------------------------------------------------------

  class Coordinator {
    var isDone: bool
    const files: seq<string>
    const nReduce: nat
    var mapperTimeout: seq<nat>
    var reducerTimeout: seq<nat>
    var workers: map<nat, string>
    var nextWorkerId: nat
    var mapCurrent: nat
    var completedMappers: seq<WorkChunk>
    var mapWorkerIds: set<nat>
    var reduceCurrent: nat
    var completedReducers: seq<WorkChunk>
    var reduceWorkerIds: set<nat>
    var outputs: map<nat, seq<Line>>

    ghost function State(): Coord
      reads this
    {
      Coord(isDone, Tracker(mapCurrent, completedMappers, mapperTimeout),
            Tracker(reduceCurrent, completedReducers, reducerTimeout),
            mapWorkerIds, reduceWorkerIds, workers, nextWorkerId, outputs)
    }

    ghost predicate Valid()
      reads this
    {
      && WellFormedCoord(State())
      && |completedMappers| == |files| && |completedReducers| == nReduce
    }

    constructor (files: seq<string>, nReduce: nat)
      ensures Valid() && State() == Fresh(|files|, nReduce) && this.files == files && this.nReduce == nReduce
    {
      this.isDone, this.files, this.nReduce := false, files, nReduce;
      mapperTimeout, reducerTimeout := seq(|files|, _ => 0), seq(nReduce, _ => 0);
      workers, nextWorkerId, outputs := map[], 1, map[];
      mapCurrent, completedMappers, mapWorkerIds := 0, seq(|files|, _ => WorkChunk(0, false)), {};
      reduceCurrent, completedReducers, reduceWorkerIds := 0, seq(nReduce, _ => WorkChunk(0, false)), {};
    }

    static method AllChunksDone(chunks: seq<WorkChunk>) returns (r: bool)
      ensures r <==> AllCompleted(chunks)
    {
      for i := 0 to |chunks|
        invariant forall k :: 0 <= k < i ==> chunks[k].completed
      {
        if !chunks[i].completed {
          return false;
        }
      }
      return true;
    }

    method DoSetup(address: string) returns (workerId: nat)
      requires Valid()
      modifies this
      ensures Valid() && State() == Setup(old(State()), address) && workerId == old(nextWorkerId)
    {
      workerId := nextWorkerId;
      workers := workers[nextWorkerId := address];
      nextWorkerId := nextWorkerId + 1;
    }

    /** The workers to collect map output from, each once, in whatever order iteration gives them. */
    method GetReduceFileLocations() returns (locations: seq<WorkerLocation>)
      ensures forall l :: l in locations <==> l.workerId in mapWorkerIds && l.address == Address(State(), l.workerId)
      ensures forall i, j :: 0 <= i < j < |locations| ==> locations[i].workerId != locations[j].workerId
    {
      locations := [];
      var left := mapWorkerIds;
      while left != {}
        invariant left <= mapWorkerIds
        invariant forall l :: l in locations <==>
          l.workerId in mapWorkerIds - left && l.address == Address(State(), l.workerId)
        invariant forall i, j :: 0 <= i < j < |locations| ==> locations[i].workerId != locations[j].workerId
        decreases left
      {
        var id :| id in left;
        assert forall i :: 0 <= i < |locations| ==> locations[i] in locations && locations[i].workerId != id;
        locations := locations + [WorkerLocation(id, if id in workers then workers[id] else "")];
        left := left - {id};
      }
    }

    method RetryMapper(workerId: nat) returns (job: Option<nat>)
      requires Valid()
      modifies this
      ensures Valid()
      ensures job == FirstEligible(old(State()).mapJobs, 0)
      ensures State() == if job.None? then old(State())
                         else old(State()).(mapJobs := Assign(old(State()).mapJobs, job.value, workerId),
                           mapWorkers := old(State()).mapWorkers + {workerId})
    {
      ghost var t := State().mapJobs;
      for jobId := 0 to |mapperTimeout|
        invariant State() == old(State()) && FirstEligible(t, 0) == FirstEligible(t, jobId)
      {
        var isCleared := completedMappers[jobId].workerId == 0 && mapperTimeout[jobId] == 0;
        if mapperTimeout[jobId] > TIMEOUT || isCleared {
          mapWorkerIds := mapWorkerIds + {workerId};
          mapperTimeout := mapperTimeout[jobId := 1];
          completedMappers := completedMappers[jobId := completedMappers[jobId].(workerId := workerId)];
          return Some(jobId);
        }
      }
      return None;
    }

    method RetryReducer(workerId: nat) returns (job: Option<nat>)
      requires Valid()
      modifies this
      ensures Valid()
      ensures job == FirstEligible(old(State()).reduceJobs, 0)
      ensures State() == if job.None? then old(State())
                         else old(State()).(reduceJobs := Assign(old(State()).reduceJobs, job.value, workerId),
                           reduceWorkers := old(State()).reduceWorkers + {workerId})
    {
      ghost var t := State().reduceJobs;
      for jobId := 0 to |reducerTimeout|
        invariant State() == old(State()) && FirstEligible(t, 0) == FirstEligible(t, jobId)
      {
        var isCleared := completedReducers[jobId].workerId == 0 && reducerTimeout[jobId] == 0;
        if reducerTimeout[jobId] > TIMEOUT || isCleared {
          reduceWorkerIds := reduceWorkerIds + {workerId};
          reducerTimeout := reducerTimeout[jobId := 1];
          completedReducers := completedReducers[jobId := completedReducers[jobId].(workerId := workerId)];
          return Some(jobId);
        }
      }
      return None;
    }

    method GetMapJob(workerId: nat) returns (job: Job)
      requires Valid()
      modifies this
      ensures Valid()
      ensures var (t, j) := HandOut(old(State()).mapJobs, workerId);
        if j.None? then job == Wait && State() == old(State())
        else (job == MapJob(j.value) &&
              State() == old(State()).(mapJobs := t, mapWorkers := old(State()).mapWorkers + {workerId}))
    {
      if mapCurrent == |files| {
        var retried := RetryMapper(workerId);
        return if retried.Some? then MapJob(retried.value) else Wait;
      }
      mapWorkerIds := mapWorkerIds + {workerId};
      job := MapJob(mapCurrent);
      completedMappers := completedMappers[mapCurrent := completedMappers[mapCurrent].(workerId := workerId)];
      mapperTimeout := mapperTimeout[mapCurrent := 1];
      mapCurrent := mapCurrent + 1;
    }

    method GetReduceJob(workerId: nat) returns (job: Job)
      requires Valid()
      modifies this
      ensures Valid()
      ensures var (t, j) := HandOut(old(State()).reduceJobs, workerId);
        if j.None? then job == Wait && State() == old(State())
        else (job == ReduceJob(j.value) &&
              State() == old(State()).(reduceJobs := t, reduceWorkers := old(State()).reduceWorkers + {workerId}))
    {
      if reduceCurrent == nReduce {
        var retried := RetryReducer(workerId);
        return if retried.Some? then ReduceJob(retried.value) else Wait;
      }
      reduceWorkerIds := reduceWorkerIds + {workerId};
      job := ReduceJob(reduceCurrent);
      reducerTimeout := reducerTimeout[reduceCurrent := 1];
      completedReducers := completedReducers[reduceCurrent := completedReducers[reduceCurrent].(workerId := workerId)];
      reduceCurrent := reduceCurrent + 1;
    }

    /** The reply carries the file of a map job, and the locations of all map output for a reduce job. */
    method GetWorkFor(workerId: nat) returns (job: Job, fileName: string, locations: seq<WorkerLocation>)
      requires Valid()
      modifies this
      ensures Valid()
      ensures (State(), job) == GetWork(old(State()), workerId)
      ensures job.MapJob? ==> job.id < |files| && fileName == files[job.id]
      ensures job.ReduceJob? ==>
        forall l :: l in locations <==> l.workerId in State().mapWorkers && l.address == Address(State(), l.workerId)
    {
      fileName, locations := "", [];
      if isDone {
        return NoWork, "", [];
      }
      var mapDone := AllChunksDone(completedMappers);
      if mapDone {
        job := GetReduceJob(workerId);
        if job.ReduceJob? {
          locations := GetReduceFileLocations();
        }
        return;
      }
      job := GetMapJob(workerId);
      if job.MapJob? {
        fileName := files[job.id];
      }
    }

    /** The output of a reduce job is written to its file, if that can be created. */
    method WorkDone(kind: WorkType, job: nat, outputFile: seq<Line>, created: bool)
      requires Valid() && (kind == MAP ==> job < |files|) && (kind == REDUCE ==> job < nReduce)
      modifies this
      ensures Valid()
      ensures kind == MAP ==> State() == MapDone(old(State()), job)
      ensures kind == REDUCE ==>
        State() == ReduceDone(old(State()), job, if created then Some(outputFile) else None)
      ensures kind != MAP && kind != REDUCE ==> State() == old(State())
    {
      if kind == MAP {
        completedMappers := completedMappers[job := completedMappers[job].(completed := true)];
      } else if kind == REDUCE {
        if created {
          outputs := outputs[job := outputFile];
        }
        completedReducers := completedReducers[job := completedReducers[job].(completed := true)];
      }
    }

    method ClearMapDeadWorker(workerId: nat)
      requires Valid()
      modifies this
      ensures Valid() && State() == old(State()).(mapJobs := ClearWorker(old(State()).mapJobs, workerId))
    {
      ghost var t, u := State().mapJobs, ClearWorker(State().mapJobs, workerId);
      for i := 0 to |completedMappers|
        invariant State() == old(State()).(mapJobs := State().mapJobs) && mapCurrent == t.current
        invariant |completedMappers| == |t.slots| && |mapperTimeout| == |t.timers|
        invariant forall k :: 0 <= k < |t.slots| ==>
          completedMappers[k] == (if k < i then u.slots[k] else t.slots[k]) &&
            mapperTimeout[k] == if k < i then u.timers[k] else t.timers[k]
      {
        if completedMappers[i].workerId == workerId {
          completedMappers := completedMappers[i := WorkChunk(0, false)];
          mapperTimeout := mapperTimeout[i := 0];
        }
      }
    }

    method ReportDeadWorker(workerId: nat, job: nat)
      requires Valid() && job < nReduce
      modifies this
      ensures Valid() && State() == WorkerDead(old(State()), workerId, job)
    {
      ClearMapDeadWorker(workerId);
      mapWorkerIds := mapWorkerIds - {workerId};
      workers := workers - {workerId};
      completedReducers := completedReducers[job := completedReducers[job].(workerId := 0)];
      reducerTimeout := reducerTimeout[job := 0];
    }

    static method UpdateTimers(chunks: seq<WorkChunk>, timers: seq<nat>, ghost current: nat) returns (r: seq<nat>)
      requires WellFormed(Tracker(current, chunks, timers))
      ensures r == TickAll(Tracker(current, chunks, timers)).timers
    {
      r := timers;
      for n := 0 to |timers|
        invariant |r| == |timers|
        invariant forall k :: 0 <= k < |timers| ==> r[k] == if k < n then TickTimer(chunks[k], timers[k]) else timers[k]
      {
        var inProgress := chunks[n].workerId > 0 && !chunks[n].completed;
        if r[n] > 0 && inProgress {
          r := r[n := r[n] + 1];
        }
      }
    }

    method ServerTick()
      requires Valid()
      modifies this
      ensures Valid() && State() == Tick(old(State()))
    {
      var mapperDone := AllChunksDone(completedMappers);
      var reducerDone := AllChunksDone(completedReducers);
      if mapperDone && reducerDone {
        isDone := true;
      }
      if !mapperDone {
        mapperTimeout := UpdateTimers(completedMappers, mapperTimeout, mapCurrent);
      } else {
        reducerTimeout := UpdateTimers(completedReducers, reducerTimeout, reduceCurrent);
      }
    }
  }
}

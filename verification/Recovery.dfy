/** Bounded recovery of the MapReduce coordinator (mr/coordinator.go): when a job given to a worker that
    stays silent is handed out again, over all runs of the coordinator. */
module Recovery {
  import opened JobTracker
  import opened Coordinators

  /** Map jobs and reduce jobs, each with the phase in which they are handed out and timed. */
  datatype Side = OfMap | OfReduce

  function Jobs(c: Coord, side: Side): Tracker {
    if side.OfMap? then c.mapJobs else c.reduceJobs
  }

  /** Reduce jobs have their phase while all map jobs are completed, map jobs otherwise. */
  ghost predicate InPhase(c: Coord, side: Side) {
    AllCompleted(c.mapJobs.slots) <==> side.OfReduce?
  }

  ghost predicate Gives(c: Coord, e: Event, side: Side, j: nat)
    requires WellFormedCoord(c)
  {
    e.AskWork? && GetWork(c, e.w).1 == if side.OfMap? then MapJob(j) else ReduceJob(j)
  }

  /** The event does not hand the job out, complete it or take it back. */
  ghost predicate LeavesAlone(c: Coord, e: Event, side: Side, j: nat)
    requires WellFormedCoord(c) && j < |Jobs(c, side).slots|
  {
    && !Gives(c, e, side, j)
    && (side.OfMap? ==> e != FinishMap(j) && !(e.ReportDead? && e.w == c.mapJobs.slots[j].workerId))
    && (side.OfReduce? ==> !(e.FinishReduce? && e.job == j) && !(e.ReportDead? && e.job == j))
  }

  // ---------------------------------------------------------------------------
  // A silent job becomes eligible
  // ---------------------------------------------------------------------------

  /** The ticks from state `i` to state `k` that are taken in the side's phase. */
  ghost function TicksIn(run: seq<Coord>, events: seq<Event>, side: Side, i: nat, k: nat): nat
    requires i <= k <= |events| < |run|
    decreases k
  {
    if i == k then 0
    else TicksIn(run, events, side, i, k - 1) +
         if events[k - 1].TickEvent? && InPhase(run[k - 1], side) then 1 else 0
  }

  ghost function AllTicks(events: seq<Event>, i: nat, k: nat): nat
    requires i <= k <= |events|
    decreases k
  {
    if i == k then 0 else AllTicks(events, i, k - 1) + if events[k - 1].TickEvent? then 1 else 0
  }

  /** One event that leaves a job alone: its timer moves with a tick of its phase, and only then. */
  lemma StepTimer(c: Coord, e: Event, side: Side, j: nat)
    requires CoordInv(c) && Allowed(c, e) && j < |Jobs(c, side).slots| && LeavesAlone(c, e, side, j)
    ensures var t, t' := Jobs(c, side), Jobs(Apply(c, e), side);
      && |t'.slots| == |t.slots| == |t'.timers| == |t.timers| && t'.slots[j] == t.slots[j]
      && t'.timers[j] == if e.TickEvent? && InPhase(c, side) then TickTimer(t.slots[j], t.timers[j]) else t.timers[j]
  {
    hide GetWork, TickTimer;
    if e.AskWork? { AskFacts(c, e.w); }
  }

  lemma InvSizes(c: Coord, side: Side)
    requires CoordInv(c)
    ensures var t := Jobs(c, side); |t.slots| == |t.timers| && forall j :: 0 <= j < |t.slots| ==>
      (t.slots[j].workerId == 0 <==> t.timers[j] == 0)
  {
  }

  /** The timer of a job in progress counts exactly the ticks of its phase; a completed job's stands still. */
  lemma {:induction false} TimerCounts(numFiles: nat, nReduce: nat, run: seq<Coord>, events: seq<Event>, side: Side,
                                       j: nat, i: nat, k: nat)
    requires IsRun(numFiles, nReduce, run, events) && i <= k < |run| && j < |Jobs(run[i], side).slots|
    requires Jobs(run[i], side).slots[j].workerId > 0
    requires forall m :: i <= m < k ==> j < |Jobs(run[m], side).slots| && LeavesAlone(run[m], events[m], side, j)
    ensures var t, t' := Jobs(run[i], side), Jobs(run[k], side);
      && |t'.slots| == |t.slots| == |t'.timers| == |t.timers| && t'.slots[j] == t.slots[j]
      && t'.timers[j] == t.timers[j] + if t.slots[j].completed then 0 else TicksIn(run, events, side, i, k)
    ensures side.OfMap? && !Jobs(run[i], side).slots[j].completed ==>
      TicksIn(run, events, side, i, k) == AllTicks(events, i, k)
    decreases k
  {
    hide Apply, LeavesAlone, CoordInv;
    RunInv(numFiles, nReduce, run, events, i);
    InvSizes(run[i], side);
    if i < k {
      TimerCounts(numFiles, nReduce, run, events, side, j, i, k - 1);
      RunInv(numFiles, nReduce, run, events, k - 1);
      StepTimer(run[k - 1], events[k - 1], side, j);
      assert run[k] == Apply(run[k - 1], events[k - 1]);
      assert Jobs(run[k - 1], side).timers[j] > 0;
    }
  }

  /** A job given to a worker that stays silent is eligible again after TIMEOUT ticks of its phase,
      whatever else happens in between; for a map job every tick counts, as the map phase cannot end
      without it.  A job completed within the limit is not handed out again. */
  lemma SilentJobEligible(numFiles: nat, nReduce: nat, run: seq<Coord>, events: seq<Event>, side: Side, j: nat,
                          i: nat, k: nat)
    requires IsRun(numFiles, nReduce, run, events) && i <= k < |run| && j < |Jobs(run[i], side).slots|
    requires Jobs(run[i], side).slots[j].workerId > 0 && j < |Jobs(run[i], side).timers|
    requires forall m :: i <= m < k ==> j < |Jobs(run[m], side).slots| && LeavesAlone(run[m], events[m], side, j)
    ensures var slot := Jobs(run[i], side).slots[j];
      && (!slot.completed && TicksIn(run, events, side, i, k) >= TIMEOUT ==> EligibleAt(Jobs(run[k], side), j))
      && (!slot.completed && side.OfMap? && AllTicks(events, i, k) >= TIMEOUT ==> EligibleAt(Jobs(run[k], side), j))
      && (slot.completed && Jobs(run[i], side).timers[j] <= TIMEOUT ==> !EligibleAt(Jobs(run[k], side), j))
  {
    RunInv(numFiles, nReduce, run, events, i);
    TimerCounts(numFiles, nReduce, run, events, side, j, i, k);
  }

  /** A job that was just handed out and stays in progress is eligible exactly from the tenth tick of its
      phase on, and not before. */
  lemma EligibleExactly(numFiles: nat, nReduce: nat, run: seq<Coord>, events: seq<Event>, side: Side, j: nat, i: nat,
                        k: nat)
    requires IsRun(numFiles, nReduce, run, events) && i < k < |run| && WellFormedCoord(run[i])
    requires Gives(run[i], events[i], side, j) && j < |Jobs(run[i], side).slots|
    requires !Jobs(run[i], side).slots[j].completed
    requires forall m :: i < m < k ==> j < |Jobs(run[m], side).slots| && LeavesAlone(run[m], events[m], side, j)
    ensures EligibleAt(Jobs(run[k], side), j) <==> TicksIn(run, events, side, i + 1, k) >= 10
  {
    hide LeavesAlone, GetWork;
    RunInv(numFiles, nReduce, run, events, i);
    assert run[i + 1] == Apply(run[i], events[i]);
    AskFacts(run[i], events[i].w);
    TimerCounts(numFiles, nReduce, run, events, side, j, i + 1, k);
  }

  // ---------------------------------------------------------------------------
  // An eligible job is handed out
  // ---------------------------------------------------------------------------

  /** A request for work that is served from this side's jobs. */
  ghost predicate Served(c: Coord, e: Event, side: Side) {
    e.AskWork? && !c.isDone && InPhase(c, side)
  }

  /** The requests for work between the two states that are served from this side's jobs. */
  ghost function AsksIn(run: seq<Coord>, events: seq<Event>, side: Side, i: nat, k: nat): nat
    requires i <= k <= |events| < |run|
    decreases k
  {
    if i == k then 0
    else AsksIn(run, events, side, i, k - 1) +
         if Served(run[k - 1], events[k - 1], side) then 1 else 0
  }

  /** How often between the two states a job before `j` becomes eligible. */
  ghost function NewlyEligible(run: seq<Coord>, side: Side, j: nat, i: nat, k: nat): nat
    requires i <= k < |run|
    decreases k
  {
    if i == k then 0
    else NewlyEligible(run, side, j, i, k - 1) +
         |EligibleBefore(Jobs(run[k], side), j) - EligibleBefore(Jobs(run[k - 1], side), j)|
  }

  lemma CardGrowth(a: set<nat>, b: set<nat>)
    requires a <= b
    ensures |b| == |a| + |b - a|
  {
    assert b == a + (b - a);
  }

  /** An event other than handing it out leaves an eligible job eligible: not even its completion or a
      death report changes that. */
  lemma StaysEligible(c: Coord, e: Event, side: Side, j: nat)
    requires CoordInv(c) && Allowed(c, e) && EligibleAt(Jobs(c, side), j) && j < Jobs(c, side).current
    requires !Gives(c, e, side, j)
    ensures var t, t' := Jobs(c, side), Jobs(Apply(c, e), side);
      EligibleAt(t', j) && j < t'.current && |t'.slots| == |t.slots| && (!e.AskWork? ==> t'.current == t.current)
  {
    hide GetWork;
    if e.AskWork? { AskFacts(c, e.w); }
  }

  /** Only a hand-out ends the eligibility of an earlier job. */
  lemma EarlierStayEligible(c: Coord, e: Event, side: Side, j: nat)
    requires CoordInv(c) && Allowed(c, e) && j < Jobs(c, side).current && !e.AskWork?
    ensures EligibleBefore(Jobs(c, side), j) <= EligibleBefore(Jobs(Apply(c, e), side), j)
  {
    hide Eligible, Apply;
    forall k | k in EligibleBefore(Jobs(c, side), j) ensures k in EligibleBefore(Jobs(Apply(c, e), side), j) {
      StaysEligible(c, e, side, k);
    }
  }

  /** What one event does to the number of jobs ahead of `j`: each request served in the phase takes one
      away, each earlier job that becomes eligible adds one, and nothing else changes it. */
  lemma StepAhead(c: Coord, e: Event, side: Side, j: nat)
    requires CoordInv(c) && Allowed(c, e) && EligibleAt(Jobs(c, side), j) && j < Jobs(c, side).current
    requires !Gives(c, e, side, j)
    ensures var t, t' := Jobs(c, side), Jobs(Apply(c, e), side);
      && CoordInv(Apply(c, e)) && EligibleAt(t', j) && j < t'.current
      && Ahead(t', j) + (if Served(c, e, side) then 1 else 0) ==
         Ahead(t, j) + |EligibleBefore(t', j) - EligibleBefore(t, j)|
  {
    hide Eligible, FirstEligible;
    ApplyInv(c, e);
    StaysEligible(c, e, side, j);
    var t, t' := Jobs(c, side), Jobs(Apply(c, e), side);
    if e.AskWork? {
      if Served(c, e, side) {
        HandOutProgress(t, j, e.w);
        assert EligibleBefore(t', j) - EligibleBefore(t, j) == {};
      } else {
        assert t' == t;
        assert EligibleBefore(t', j) - EligibleBefore(t, j) == {};
      }
    } else {
      EarlierStayEligible(c, e, side, j);
      CardGrowth(EligibleBefore(t, j), EligibleBefore(t', j));
    }
  }

  /** As long as job `j` is not handed out, the jobs ahead of it are those that were, less one for each
      request served, plus those that became eligible. */
  lemma {:induction false} AheadCounts(numFiles: nat, nReduce: nat, run: seq<Coord>, events: seq<Event>, side: Side,
                                       j: nat, i: nat, k: nat)
    requires IsRun(numFiles, nReduce, run, events) && i <= k < |run|
    requires EligibleAt(Jobs(run[i], side), j) && j < Jobs(run[i], side).current
    requires forall m :: i <= m < k ==> !Gives(run[m], events[m], side, j)
    ensures CoordInv(run[i]) && CoordInv(run[k])
    ensures EligibleAt(Jobs(run[k], side), j) && j < Jobs(run[k], side).current
    ensures Ahead(Jobs(run[k], side), j) + AsksIn(run, events, side, i, k) ==
            Ahead(Jobs(run[i], side), j) + NewlyEligible(run, side, j, i, k)
    decreases k
  {
    hide CoordInv, Ahead, Gives, Served, EligibleAt, EligibleBefore;
    RunInv(numFiles, nReduce, run, events, i);
    if i < k {
      AheadCounts(numFiles, nReduce, run, events, side, j, i, k - 1);
      StepAhead(run[k - 1], events[k - 1], side, j);
      assert run[k] == Apply(run[k - 1], events[k - 1]);
    }
  }

  /** Exactly which request is served with an eligible job: the one before which as many requests were
      served as jobs were ahead of it plus earlier jobs became eligible since.  So it comes within the
      jobs ahead plus one exactly when no earlier job becomes eligible before it. */
  lemma GivenExactly(numFiles: nat, nReduce: nat, run: seq<Coord>, events: seq<Event>, side: Side, j: nat, i: nat,
                     k: nat)
    requires IsRun(numFiles, nReduce, run, events) && i <= k < |events|
    requires EligibleAt(Jobs(run[i], side), j) && j < Jobs(run[i], side).current && WellFormedCoord(run[i])
    requires Served(run[k], events[k], side)
    requires forall m :: i <= m < k ==> !Gives(run[m], events[m], side, j)
    ensures Gives(run[k], events[k], side, j) <==>
      AsksIn(run, events, side, i, k) == Ahead(Jobs(run[i], side), j) + NewlyEligible(run, side, j, i, k)
    ensures Gives(run[k], events[k], side, j) ==>
      (AsksIn(run, events, side, i, k) + 1 <= Ahead(Jobs(run[i], side), j) + 1 <==>
       NewlyEligible(run, side, j, i, k) == 0)
  {
    hide EligibleAt;
    AheadCounts(numFiles, nReduce, run, events, side, j, i, k);
    HandOutProgress(Jobs(run[k], side), j, events[k].w);
  }

  /** An eligible job is handed out again within (fresh jobs + earlier eligible jobs + 1) requests for
      work served in its phase, plus one for each time an earlier job becomes eligible meanwhile;
      whoever asks, and whatever ticks, completions and death reports come between. */
  lemma EventuallyGivenOut(numFiles: nat, nReduce: nat, run: seq<Coord>, events: seq<Event>, side: Side, j: nat,
                           i: nat, k: nat)
    requires IsRun(numFiles, nReduce, run, events) && i <= k < |run|
    requires EligibleAt(Jobs(run[i], side), j) && j < Jobs(run[i], side).current && WellFormedCoord(run[i])
    requires AsksIn(run, events, side, i, k) > Ahead(Jobs(run[i], side), j) + NewlyEligible(run, side, j, i, k)
    ensures exists m :: i <= m < k && WellFormedCoord(run[m]) && Gives(run[m], events[m], side, j)
  {
    hide Gives, EligibleAt;
    if forall m :: i <= m < k ==> !Gives(run[m], events[m], side, j) {
      AheadCounts(numFiles, nReduce, run, events, side, j, i, k);
    }
  }

  // ---------------------------------------------------------------------------
  // The bound needs its last term: a job can wait for ever
  // ---------------------------------------------------------------------------

  /** Two map jobs in progress, the first with worker `w`. */
  ghost predicate TwoInProgress(c: Coord, w: nat, a: nat, b: nat) {
    && CoordInv(c) && !c.isDone && w > 0
    && c.mapJobs == Tracker(2, [WorkChunk(w, false), WorkChunk(2, false)], [a, b])
  }

  lemma TickTwo(c: Coord, w: nat, a: nat, b: nat)
    requires TwoInProgress(c, w, a, b) && a > 0 && b > 0
    ensures TwoInProgress(Tick(c), w, a + 1, b + 1)
  {
    ApplyInv(c, TickEvent);
    assert !c.mapJobs.slots[0].completed;
    assert Tick(c).mapJobs.timers == [a + 1, b + 1];
  }

  lemma AskTwo(c: Coord, w: nat, b: nat)
    requires TwoInProgress(c, w, 11, b) && b > 0
    ensures TwoInProgress(GetWork(c, 3).0, 3, 1, b) && GetWork(c, 3).1 == MapJob(0)
  {
    ApplyInv(c, AskWork(3));
    assert !c.mapJobs.slots[0].completed;
    assert EligibleAt(c.mapJobs, 0);
  }

  lemma StartTwo(nReduce: nat) returns (run: seq<Coord>, events: seq<Event>)
    ensures IsRun(2, nReduce, run, events) && |events| == 2 && AsksOf(events) == 2
    ensures TwoInProgress(run[2], 1, 1, 1) && Starved(run, events, 12)
  {
    var c0 := Fresh(2, nReduce);
    FreshInv(2, nReduce);
    assert !c0.mapJobs.slots[0].completed;
    var c1 := Apply(c0, AskWork(1));
    ApplyInv(c0, AskWork(1));
    assert c1.mapJobs == Tracker(1, [WorkChunk(1, false), WorkChunk(0, false)], [1, 0]);
    assert !c1.mapJobs.slots[0].completed;
    var c2 := Apply(c1, AskWork(2));
    ApplyInv(c1, AskWork(2));
    assert c2.mapJobs == Tracker(2, [WorkChunk(1, false), WorkChunk(2, false)], [1, 1]);
    run, events := [c0, c1, c2], [AskWork(1), AskWork(2)];
    AsksMore([], AskWork(1));
    AsksMore([AskWork(1)], AskWork(2));
  }

  lemma Extended(numFiles: nat, nReduce: nat, run: seq<Coord>, events: seq<Event>, e: Event)
    requires IsRun(numFiles, nReduce, run, events) && CoordInv(run[|events|])
    requires Allowed(run[|events|], e)
    ensures IsRun(numFiles, nReduce, run + [Apply(run[|events|], e)], events + [e])
  {
    var run', events' := run + [Apply(run[|events|], e)], events + [e];
    forall k | 0 <= k < |events'|
      ensures WellFormedCoord(run'[k]) && Allowed(run'[k], events'[k]) && run'[k + 1] == Apply(run'[k], events'[k])
    {
      if k < |events| {
        assert run'[k] == run[k] && run'[k + 1] == run[k + 1] && events'[k] == events[k];
      }
    }
  }

  /** From state `from` on job 1 is eligible; all requests are served, and none of them with job 1. */
  ghost predicate Starved(run: seq<Coord>, events: seq<Event>, from: nat)
    requires |run| == |events| + 1
  {
    forall k :: from <= k < |events| ==>
      && WellFormedCoord(run[k]) && EligibleAt(run[k].mapJobs, 1)
      && (events[k].AskWork? ==> Gives(run[k], events[k], OfMap, 0))
  }

  /** `n` ticks; job 1 is past the limit by the time it counts as eligible. */
  lemma {:induction false} TickedTwo(nReduce: nat, run: seq<Coord>, events: seq<Event>, w: nat, b: nat, from: nat,
                                     n: nat)
    returns (run': seq<Coord>, events': seq<Event>)
    requires IsRun(2, nReduce, run, events) && Starved(run, events, from) && b > 0
    requires TwoInProgress(run[|events|], w, 1, b) && b > TIMEOUT - if |events| < from then from - |events| else 0
    ensures IsRun(2, nReduce, run', events') && |events'| == |events| + n
    ensures TwoInProgress(run'[|events'|], w, 1 + n, b + n) && Starved(run', events', from)
    ensures AsksOf(events') == AsksOf(events)
  {
    hide TwoInProgress, CoordInv, Starved, WellFormedCoord, EligibleAt;
    if n == 0 {
      run', events' := run, events;
    } else {
      var before, prior := TickedTwo(nReduce, run, events, w, b, from, n - 1);
      var c := before[|prior|];
      TwoFacts(c, w, n, b + n - 1);
      Extended(2, nReduce, before, prior, TickEvent);
      TickTwo(c, w, n, b + n - 1);
      StarvedMore(before, prior, from, TickEvent);
      AsksMore(prior, TickEvent);
      run', events' := before + [Apply(c, TickEvent)], prior + [TickEvent];
    }
  }

  /** Ten ticks and a request: the first job is eligible again just in time to be handed out again. */
  lemma StarvedRound(nReduce: nat, run: seq<Coord>, events: seq<Event>, w: nat, b: nat, from: nat)
    returns (run': seq<Coord>, events': seq<Event>)
    requires IsRun(2, nReduce, run, events) && Starved(run, events, from) && b > 0
    requires TwoInProgress(run[|events|], w, 1, b) && b > TIMEOUT - if |events| < from then from - |events| else 0
    ensures IsRun(2, nReduce, run', events') && |events'| == |events| + 11
    ensures TwoInProgress(run'[|events'|], 3, 1, b + 10) && Starved(run', events', from)
    ensures AsksOf(events') == AsksOf(events) + 1
  {
    hide TwoInProgress, CoordInv, Starved, WellFormedCoord, EligibleAt;
    var before, prior := TickedTwo(nReduce, run, events, w, b, from, 10);
    var c := before[|prior|];
    TwoFacts(c, w, 11, b + 10);
    AskTwo(c, w, b + 10);
    Extended(2, nReduce, before, prior, AskWork(3));
    StarvedMore(before, prior, from, AskWork(3));
    AsksMore(prior, AskWork(3));
    run', events' := before + [Apply(c, AskWork(3))], prior + [AskWork(3)];
  }

  lemma TwoFacts(c: Coord, w: nat, a: nat, b: nat)
    requires TwoInProgress(c, w, a, b)
    ensures CoordInv(c) && (b > TIMEOUT ==> EligibleAt(c.mapJobs, 1)) && WellFormedCoord(c)
  {
  }

  ghost function AsksOf(events: seq<Event>): nat {
    if events == [] then 0
    else AsksOf(events[..|events| - 1]) + if events[|events| - 1].AskWork? then 1 else 0
  }

  lemma AsksMore(events: seq<Event>, e: Event)
    ensures AsksOf(events + [e]) == AsksOf(events) + if e.AskWork? then 1 else 0
  {
    assert (events + [e])[..|events|] == events;
  }

  lemma StarvedMore(run: seq<Coord>, events: seq<Event>, from: nat, e: Event)
    requires |run| == |events| + 1 && Starved(run, events, from) && WellFormedCoord(run[|events|])
    requires (from <= |events| ==> EligibleAt(run[|events|].mapJobs, 1)) && Allowed(run[|events|], e)
    requires e.AskWork? ==> Gives(run[|events|], e, OfMap, 0)
    ensures Starved(run + [Apply(run[|events|], e)], events + [e], from)
  {
    hide Gives, WellFormedCoord, EligibleAt, Apply;
    var run', events' := run + [Apply(run[|events|], e)], events + [e];
    forall k | from <= k < |events'|
      ensures && WellFormedCoord(run'[k]) && EligibleAt(run'[k].mapJobs, 1)
              && (events'[k].AskWork? ==> Gives(run'[k], events'[k], OfMap, 0))
    {
      if k < |events| { assert run'[k] == run[k] && events'[k] == events[k]; }
    }
  }

  /** Starvation: two workers take the two map jobs and fall silent, and a third asks every ten ticks.
      It is given the first job every time: the second is eligible from state 12 on and, however many
      requests are served, never handed out. */
  lemma {:induction false} Starvation(nReduce: nat, n: nat) returns (run: seq<Coord>, events: seq<Event>)
    ensures IsRun(2, nReduce, run, events) && |events| == 13 + 11 * n && AsksOf(events) == 3 + n
    ensures TwoInProgress(run[|events|], 3, 1, 11 + 10 * n) && Starved(run, events, 12)
  {
    hide TwoInProgress, CoordInv;
    if n == 0 {
      var before, prior := StartTwo(nReduce);
      run, events := StarvedRound(nReduce, before, prior, 1, 1, 12);
    } else {
      var before, prior := Starvation(nReduce, n - 1);
      run, events := StarvedRound(nReduce, before, prior, 3, 11 + 10 * (n - 1), 12);
    }
  }
}

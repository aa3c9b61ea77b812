/** Job slots, timers and hand-out of the MapReduce coordinator (mr/coordinator.go).  Map jobs and
    reduce jobs are tracked the same way: a cursor over fresh jobs, a slot for each job with its worker
    and completion flag, and a timer for each job. */
module JobTracker {
  import opened Options

  const TIMEOUT := 10

  /** Worker 0 is nobody. */
  datatype WorkChunk = WorkChunk(workerId: nat, completed: bool)

  datatype Tracker = Tracker(current: nat, slots: seq<WorkChunk>, timers: seq<nat>)

  ghost predicate WellFormed(t: Tracker) {
    |t.timers| == |t.slots| && t.current <= |t.slots|
  }

  function Blank(n: nat): Tracker {
    Tracker(0, seq(n, _ => WorkChunk(0, false)), seq(n, _ => 0))
  }

  predicate AllCompleted(slots: seq<WorkChunk>) {
    forall i :: 0 <= i < |slots| ==> slots[i].completed
  }

  /** A job may be handed out again: it timed out, or its slot was cleared. */
  predicate Eligible(slot: WorkChunk, timer: nat) {
    timer > TIMEOUT || (slot.workerId == 0 && timer == 0)
  }

  predicate EligibleAt(t: Tracker, i: nat) {
    i < |t.slots| && i < |t.timers| && Eligible(t.slots[i], t.timers[i])
  }

  /** The first eligible job at or after `i`. */
  function FirstEligible(t: Tracker, i: nat): (r: Option<nat>)
    ensures r.Some? ==> i <= r.value && EligibleAt(t, r.value) && forall k :: i <= k < r.value ==> !EligibleAt(t, k)
    ensures r.None? ==> forall k :: i <= k < |t.slots| ==> !EligibleAt(t, k)
    decreases |t.slots| - i
  {
    if i >= |t.slots| then None
    else if EligibleAt(t, i) then Some(i)
    else FirstEligible(t, i + 1)
  }

  /** Records worker `w` for job `i` and starts its timer. */
  function Assign(t: Tracker, i: nat, w: nat): Tracker
    requires i < |t.slots| && i < |t.timers|
  {
    t.(slots := t.slots[i := t.slots[i].(workerId := w)], timers := t.timers[i := 1])
  }

  /** Hands a job to worker `w`: the next fresh one, or else the first eligible one, if any. */
  function HandOut(t: Tracker, w: nat): (Tracker, Option<nat>)
    requires WellFormed(t)
  {
    if t.current < |t.slots| then
      (Assign(t, t.current, w).(current := t.current + 1), Some(t.current))
    else
      match FirstEligible(t, 0)
      case Some(i) => (Assign(t, i, w), Some(i))
      case None => (t, None)
  }

  function Complete(t: Tracker, i: nat): Tracker
    requires i < |t.slots|
  {
    t.(slots := t.slots[i := t.slots[i].(completed := true)])
  }

  /** What a timer becomes after one tick: only jobs in progress are counted. */
  function TickTimer(slot: WorkChunk, timer: nat): nat {
    if timer > 0 && slot.workerId > 0 && !slot.completed then timer + 1 else timer
  }

  function TickAll(t: Tracker): Tracker
    requires WellFormed(t)
  {
    t.(timers := seq(|t.timers|, i requires 0 <= i < |t.timers| => TickTimer(t.slots[i], t.timers[i])))
  }

  /** Takes back all jobs of worker `w`, completed ones included. */
  function ClearWorker(t: Tracker, w: nat): Tracker
    requires WellFormed(t)
  {
    t.(slots := seq(|t.slots|, i requires 0 <= i < |t.slots| =>
         if t.slots[i].workerId == w then WorkChunk(0, false) else t.slots[i]),
       timers := seq(|t.timers|, i requires 0 <= i < |t.timers| => if t.slots[i].workerId == w then 0 else t.timers[i]))
  }

  /** Takes back one job, which keeps its completion flag. */
  function ClearJob(t: Tracker, i: nat): Tracker
    requires i < |t.slots| && i < |t.timers|
  {
    t.(slots := t.slots[i := t.slots[i].(workerId := 0)], timers := t.timers[i := 0])
  }

  // ---------------------------------------------------------------------------
  // What every operation keeps
  // ---------------------------------------------------------------------------

  /** A slot has a worker exactly when its timer runs, and jobs not yet handed out are blank. */
  ghost predicate Inv(t: Tracker) {
    && WellFormed(t)
    && (forall i :: 0 <= i < |t.slots| ==> (t.slots[i].workerId == 0 <==> t.timers[i] == 0))
    && (forall i :: t.current <= i < |t.slots| ==> t.slots[i] == WorkChunk(0, false))
  }

  lemma BlankInv(n: nat)
    ensures Inv(Blank(n))
  {
  }

  lemma HandOutInv(t: Tracker, w: nat)
    requires Inv(t) && w >= 1
    ensures Inv(HandOut(t, w).0)
  {
  }

  lemma CompleteInv(t: Tracker, i: nat)
    requires Inv(t) && i < t.current
    ensures Inv(Complete(t, i))
  {
  }

  lemma TickInv(t: Tracker)
    requires Inv(t)
    ensures Inv(TickAll(t))
  {
  }

  lemma ClearWorkerInv(t: Tracker, w: nat)
    requires Inv(t)
    ensures Inv(ClearWorker(t, w))
  {
  }

  lemma ClearJobInv(t: Tracker, i: nat)
    requires Inv(t) && i < |t.slots|
    ensures Inv(ClearJob(t, i))
  {
  }

  /** `t'` is `t` with job `i` handed to worker `w`, its completion flag untouched. */
  ghost predicate Assigned(t: Tracker, t': Tracker, i: nat, w: nat) {
    && i < |t.slots| == |t.timers| && i < t'.current && t.current <= t'.current
    && t'.slots == t.slots[i := WorkChunk(w, t.slots[i].completed)] && t'.timers == t.timers[i := 1]
  }

  lemma HandOutJob(t: Tracker, w: nat)
    requires Inv(t) && w >= 1
    ensures var (t', job) := HandOut(t, w);
      (job.Some? ==> Assigned(t, t', job.value, w)) && (job.None? ==> t' == t)
  {
  }

  // ---------------------------------------------------------------------------
  // Whose turn it is
  // ---------------------------------------------------------------------------

  /** The eligible jobs before `i`. */
  ghost function EligibleBefore(t: Tracker, i: nat): set<nat> {
    set k: nat | k < i && EligibleAt(t, k)
  }

  /** How many hand-outs come before job `i`'s turn, unless more jobs become eligible. */
  ghost function Ahead(t: Tracker, i: nat): nat
    requires WellFormed(t)
  {
    |t.slots| - t.current + |EligibleBefore(t, i)|
  }

  /** A hand-out gives job `i` exactly when nothing is ahead of it, and otherwise takes exactly one job
      that is ahead of it. */
  lemma HandOutProgress(t: Tracker, i: nat, w: nat)
    requires Inv(t) && w >= 1 && i < t.current && EligibleAt(t, i)
    ensures var (t', job) := HandOut(t, w);
      && job.Some? && EligibleBefore(t', i) <= EligibleBefore(t, i)
      && (job.value == i <==> Ahead(t, i) == 0)
      && (job.value != i ==> EligibleAt(t', i) && i < t'.current && Ahead(t', i) == Ahead(t, i) - 1)
  {
    var (t', job) := HandOut(t, w);
    var j := job.value;
    if t.current < |t.slots| {
      assert EligibleBefore(t', i) == EligibleBefore(t, i);
    } else {
      assert EligibleBefore(t', i) == EligibleBefore(t, i) - {j};
      if j != i { assert j in EligibleBefore(t, i); } else { assert EligibleBefore(t, i) == {}; }
    }
  }
}

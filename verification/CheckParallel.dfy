/** checkParallel (porcupine/checker.go) as a state machine: one goroutine per partition, a buffered
    channel of results, the collecting loop, the kill flag and the timeout.

    A step is a goroutine finishing, the collector receiving, or the timeout firing; a run is any
    interleaving of steps. */
module CheckParallel {
  import opened Options
  import opened Histories
  import opened Entries
  import opened SingleCheck
  import opened TimedEntries
  import opened KvModel
  import opened Strings

  datatype CheckResult = Unknown | Ok | Illegal

  /** The fixed parameters: what an unkilled check of each partition answers, whether information on
      partial linearizations is wanted, and whether there is a timeout. */
  datatype Params = Params(good: seq<bool>, computeInfo: bool, hasTimeout: bool)

  /** Looping is the select loop, Draining the wait for the remaining goroutines. */
  datatype Phase = Looping | Draining | Done(result: CheckResult)

  /** infos: the longest partial linearizations that each goroutine has recorded for its partition. */
  datatype State = State(
    kill: bool, running: set<nat>, channel: seq<(nat, bool)>, infos: map<nat, seq<Option<seq<nat>>>>, count: nat,
    ok: bool, timedOut: bool, phase: Phase)

  ghost function Start(p: Params): State {
    State(false, UpTo(|p.good|), [], map[], 0, true, false, Looping)
  }

  /** The verdict computed from the flags. */
  function Result(ok: bool, timedOut: bool): CheckResult {
    if !ok then Illegal else if timedOut then Unknown else Ok
  }

  /** Leaving the loop: with information wanted, all goroutines are waited for first. */
  function AfterLoop(p: Params, s: State): State {
    s.(phase := if p.computeInfo && s.count < |p.good| then Draining else Done(Result(s.ok, s.timedOut)))
  }

  /** A goroutine may report success only for a linearizable partition, and failure for a
      linearizable one only if it saw the kill flag, which is then set. */
  ghost predicate MayReport(p: Params, s: State, i: nat, r: bool) {
    i < |p.good| && (r ==> p.good[i]) && (!r && !s.kill ==> !p.good[i])
  }

  /** Goroutine `i` leaves what it has recorded and sends its result. */
  ghost function Sent(s: State, i: nat, r: bool, longest: seq<Option<seq<nat>>>): State {
    s.(running := s.running - {i}, channel := s.channel + [(i, r)], infos := s.infos[i := longest])
  }

  ghost predicate Finish(p: Params, s: State, s': State, i: nat, r: bool, longest: seq<Option<seq<nat>>>) {
    i in s.running && s' == Sent(s, i, r, longest) && MayReport(p, s, i, r)
  }

  ghost predicate Receive(p: Params, s: State, s': State) {
    && s.phase.Looping? && s.channel != []
    && var t := s.(channel := s.channel[1..], count := s.count + 1, ok := s.ok && s.channel[0].1);
       s' == if !t.ok && !p.computeInfo then AfterLoop(p, t.(kill := true))
             else if t.count >= |p.good| then AfterLoop(p, t)
             else t
  }

  ghost predicate Timeout(p: Params, s: State, s': State) {
    && s.phase.Looping? && p.hasTimeout
    && s' == AfterLoop(p, s.(timedOut := true, kill := true))
  }

  ghost predicate Drain(p: Params, s: State, s': State) {
    && s.phase.Draining? && s.channel != []
    && var t := s.(channel := s.channel[1..], count := s.count + 1);
       s' == if t.count >= |p.good| then t.(phase := Done(Result(t.ok, t.timedOut))) else t
  }

  ghost predicate Next(p: Params, s: State, s': State) {
    || (exists i, r, longest :: Finish(p, s, s', i, r, longest))
    || Receive(p, s, s') || Timeout(p, s, s') || Drain(p, s, s')
  }

  ghost predicate IsRun(p: Params, run: seq<State>) {
    && run != [] && run[0] == Start(p)
    && forall k :: 0 <= k < |run| - 1 ==> Next(p, run[k], run[k + 1])
  }

  // ---------------------------------------------------------------------------
  // What every run keeps
  // ---------------------------------------------------------------------------

  ghost function InChannel(s: State): set<nat> {
    set k | 0 <= k < |s.channel| :: s.channel[k].0
  }

  /** Partitions whose result has been received. */
  ghost function Received(p: Params, s: State): set<nat> {
    set i | 0 <= i < |p.good| && i !in s.running && i !in InChannel(s)
  }

  /** Every goroutine is running, waiting in the channel, or received; none twice. */
  ghost predicate EachOnce(p: Params, s: State) {
    && (forall i :: i in s.running ==> i < |p.good| && i !in InChannel(s))
    && (forall k :: 0 <= k < |s.channel| ==> s.channel[k].0 < |p.good|)
    && (forall j, k :: 0 <= j < k < |s.channel| ==> s.channel[j].0 != s.channel[k].0)
    && s.count == |Received(p, s)|
  }

  /** Before the kill flag is set all results are exact and so is the running conjunction. */
  ghost predicate Exact(p: Params, s: State) {
    && (forall k :: 0 <= k < |s.channel| && s.channel[k].0 < |p.good| ==> s.channel[k].1 == p.good[s.channel[k].0])
    && (s.ok <==> forall i :: i in Received(p, s) ==> p.good[i])
  }

  /** What the flags say once the loop is left. */
  ghost predicate Settled(p: Params, s: State) {
    && (!s.ok ==> exists i :: 0 <= i < |p.good| && !p.good[i])
    && (s.ok && !s.timedOut ==> forall i :: 0 <= i < |p.good| ==> p.good[i])
  }

  ghost predicate InLoop(p: Params, s: State) {
    !s.kill && !s.timedOut && Exact(p, s) && (0 < |p.good| ==> s.count < |p.good|) && (!p.computeInfo ==> s.ok)
  }

  ghost predicate Inv(p: Params, s: State) {
    && EachOnce(p, s)
    && (s.phase.Looping? ==> InLoop(p, s))
    && (!s.phase.Looping? ==> Settled(p, s))
    && (s.phase.Draining? ==> s.count < |p.good|)
    && (s.phase.Done? ==> s.phase.result == Result(s.ok, s.timedOut) && (p.computeInfo ==> s.count == |p.good|))
    && (p.computeInfo && s.kill ==> s.timedOut)
    && (s.timedOut ==> p.hasTimeout)
  }

  lemma StartInv(p: Params)
    ensures Inv(p, Start(p))
  {
    var s := Start(p);
    assert Received(p, s) == {};
  }

  lemma FinishInv(p: Params, s: State, s': State, i: nat, r: bool, longest: seq<Option<seq<nat>>>)
    requires Inv(p, s) && Finish(p, s, s', i, r, longest)
    ensures Inv(p, s')
  {
    var n := |s.channel|;
    assert s'.channel[n].0 == i;
    assert forall k :: 0 <= k < n ==> s'.channel[k] == s.channel[k];
    assert InChannel(s') == InChannel(s) + {i};
    assert Received(p, s') == Received(p, s);
  }

  /** Taking the first result out of the channel makes its partition a received one. */
  lemma TakeFirst(p: Params, s: State, t: State)
    requires EachOnce(p, s) && s.channel != []
    requires t.channel == s.channel[1..] && t.running == s.running && t.count == s.count + 1
    ensures EachOnce(p, t) && Received(p, t) == Received(p, s) + {s.channel[0].0} && s.channel[0].0 !in Received(p, s)
  {
    hide InChannel;
    var i := s.channel[0].0;
    ChannelTail(s, t);
    assert Received(p, t) == Received(p, s) + {i};
    assert forall k :: 0 <= k < |t.channel| ==> t.channel[k] == s.channel[k + 1];
  }

  lemma ChannelTail(s: State, t: State)
    requires s.channel != [] && t.channel == s.channel[1..]
    requires forall j, k :: 0 <= j < k < |s.channel| ==> s.channel[j].0 != s.channel[k].0
    ensures InChannel(s) == InChannel(t) + {s.channel[0].0} && s.channel[0].0 !in InChannel(t)
  {
    var i := s.channel[0].0;
    assert forall k :: 0 <= k < |t.channel| ==> t.channel[k] == s.channel[k + 1];
    forall x | x in InChannel(s) ensures x in InChannel(t) + {i} {
      var k :| 0 <= k < |s.channel| && s.channel[k].0 == x;
      if 0 < k { assert t.channel[k - 1].0 == x; }
    }
  }

  lemma AllReceived(p: Params, s: State)
    requires EachOnce(p, s)
    ensures s.count <= |p.good|
    ensures s.count == |p.good| <==> forall i :: 0 <= i < |p.good| ==> i in Received(p, s)
  {
    var all := UpTo(|p.good|);
    assert Received(p, s) <= all;
    assert all == Received(p, s) + (all - Received(p, s));
    if s.count == |p.good| { SubsetEqual(Received(p, s), all); }
    if forall i :: 0 <= i < |p.good| ==> i in Received(p, s) { assert Received(p, s) == all; }
  }

  lemma ReceiveExact(p: Params, s: State, t: State)
    requires EachOnce(p, s) && Exact(p, s) && s.channel != []
    requires t.channel == s.channel[1..] && t.running == s.running && t.count == s.count + 1 &&
      t.ok == (s.ok && s.channel[0].1)
    ensures EachOnce(p, t) && Exact(p, t)
  {
    TakeFirst(p, s, t);
    assert s.channel[0].1 == p.good[s.channel[0].0];
    assert forall k :: 0 <= k < |t.channel| ==> t.channel[k] == s.channel[k + 1];
  }

  lemma ReceiveInv(p: Params, s: State, s': State)
    requires Inv(p, s) && Receive(p, s, s')
    ensures Inv(p, s')
  {
    var t := s.(channel := s.channel[1..], count := s.count + 1, ok := s.ok && s.channel[0].1);
    ReceiveExact(p, s, t);
    assert Received(p, s') == Received(p, t);
    AllReceived(p, t);
    assert s.channel[0].0 < |p.good|;
  }

  lemma TimeoutInv(p: Params, s: State, s': State)
    requires Inv(p, s) && Timeout(p, s, s')
    ensures Inv(p, s')
  {
    assert Received(p, s') == Received(p, s);
  }

  lemma DrainInv(p: Params, s: State, s': State)
    requires Inv(p, s) && Drain(p, s, s')
    ensures Inv(p, s')
  {
    var t := s.(channel := s.channel[1..], count := s.count + 1);
    TakeFirst(p, s, t);
    assert Received(p, s') == Received(p, t);
  }

  lemma {:induction false} RunInv(p: Params, run: seq<State>, k: nat)
    requires IsRun(p, run) && k < |run|
    ensures Inv(p, run[k])
  {
    if k == 0 {
      StartInv(p);
    } else {
      RunInv(p, run, k - 1);
      var s, s' := run[k - 1], run[k];
      assert Next(p, s, s');
      if i, r, longest :| Finish(p, s, s', i, r, longest) { FinishInv(p, s, s', i, r, longest); }
      else if Receive(p, s, s') { ReceiveInv(p, s, s'); }
      else if Timeout(p, s, s') { TimeoutInv(p, s, s'); }
      else { DrainInv(p, s, s'); }
    }
  }

  /** What an answer means, for every interleaving: Ok that all partitions are linearizable, Illegal
      that one is not, and Unknown only with a timeout. */
  lemma AnswersExact(p: Params, run: seq<State>)
    requires IsRun(p, run) && run[|run| - 1].phase.Done?
    ensures var r := run[|run| - 1].phase.result;
      && (r == Ok ==> forall i :: 0 <= i < |p.good| ==> p.good[i])
      && (r == Illegal ==> exists i :: 0 <= i < |p.good| && !p.good[i])
      && (r == Unknown ==> p.hasTimeout)
      && (!p.hasTimeout ==> (r == Ok <==> forall i :: 0 <= i < |p.good| ==> p.good[i]))
    ensures run[|run| - 1].timedOut ==> p.hasTimeout
  {
    RunInv(p, run, |run| - 1);
  }

  /** Step `k` of the run is the receipt of a failure. */
  ghost predicate ReceivesFailure(p: Params, run: seq<State>, k: nat)
    requires k + 1 < |run|
  {
    Receive(p, run[k], run[k + 1]) && !run[k].channel[0].1
  }

  /** Step `k` of the run is the timeout. */
  ghost predicate TimesOut(p: Params, run: seq<State>, k: nat)
    requires k + 1 < |run|
  {
    Timeout(p, run[k], run[k + 1])
  }

  /** Which step of the machine changes which flag. */
  lemma FlagStep(p: Params, run: seq<State>, k: nat)
    requires k + 1 < |run| && Next(p, run[k], run[k + 1])
    ensures run[k + 1].ok == (run[k].ok && !ReceivesFailure(p, run, k))
    ensures run[k + 1].timedOut == (run[k].timedOut || TimesOut(p, run, k))
    ensures !run[k].phase.Looping? ==>
      !run[k + 1].phase.Looping? && run[k + 1].ok == run[k].ok && run[k + 1].timedOut == run[k].timedOut
  {
    hide MayReport;
  }

  /** In every run: the flag for success falls exactly when a failure is received, and the one for the
      timeout rises exactly when it fires; the kill flag is up exactly when the timeout fired, or a failure
      was received and no information is wanted. */
  lemma {:induction false} FlagsExact(p: Params, run: seq<State>, k: nat)
    requires IsRun(p, run) && k < |run|
    ensures !run[k].ok <==> exists j :: 0 <= j < k && ReceivesFailure(p, run, j)
    ensures run[k].timedOut <==> exists j :: 0 <= j < k && TimesOut(p, run, j)
    ensures run[k].kill <==> run[k].timedOut || (!run[k].ok && !p.computeInfo)
  {
    hide Inv, ReceivesFailure, TimesOut, Next;
    if k > 0 {
      var n: nat := k - 1;
      FlagsExact(p, run, n);
      RunInv(p, run, n);
      assert Next(p, run[n], run[n + 1]);
      FlagStep(p, run, n);
      KillStep(p, run[n], run[n + 1]);
    }
  }

  lemma KillStep(p: Params, s: State, s': State)
    requires Next(p, s, s') && Inv(p, s) && (s.kill <==> s.timedOut || (!s.ok && !p.computeInfo))
    ensures s'.kill <==> s'.timedOut || (!s'.ok && !p.computeInfo)
  {
    hide EachOnce, MayReport, Exact, Settled;
  }

  /** A failure that is received decides the answer, whatever happens afterwards: it is Illegal exactly if
      one was received.  It is Unknown exactly if the timeout fired and all results received before it
      were successes, and Ok exactly if neither happened. */
  lemma AnswerByEvents(p: Params, run: seq<State>)
    requires IsRun(p, run) && run[|run| - 1].phase.Done?
    ensures var r, n := run[|run| - 1].phase.result, |run| - 1;
      && (r == Illegal <==> exists k :: 0 <= k < n && ReceivesFailure(p, run, k))
      && (r == Unknown <==> exists k :: 0 <= k < n && TimesOut(p, run, k) && NoFailureBefore(p, run, k))
      && (r == Ok <==> forall k :: 0 <= k < n ==> !ReceivesFailure(p, run, k) && !TimesOut(p, run, k))
  {
    hide ReceivesFailure, TimesOut;
    var n := |run| - 1;
    RunInv(p, run, n);
    FlagsExact(p, run, n);
    forall k | 0 <= k < n && TimesOut(p, run, k) ensures NoFailureBefore(p, run, k) <==> run[n].ok {
      FlagsExact(p, run, k);
      TimeoutLast(p, run, k, n);
    }
  }

  ghost predicate NoFailureBefore(p: Params, run: seq<State>, k: nat)
    requires k < |run|
  {
    forall j :: 0 <= j < k ==> !ReceivesFailure(p, run, j)
  }

  /** After the timeout nothing is received in the loop any more. */
  lemma {:induction false} TimeoutLast(p: Params, run: seq<State>, k: nat, n: nat)
    requires IsRun(p, run) && k < n < |run| && TimesOut(p, run, k)
    ensures !run[n].phase.Looping? && run[n].ok == run[k].ok
    decreases n
  {
    hide Next, Receive, Drain, Finish, Result;
    if n > k + 1 {
      var m: nat := n - 1;
      TimeoutLast(p, run, k, m);
      assert Next(p, run[m], run[m + 1]);
      FlagStep(p, run, m);
    }
  }

  /** With no information wanted, a failure ends the run at once; with information wanted, no answer comes
      before every goroutine has finished. */
  lemma AnswerPrompt(p: Params, run: seq<State>, k: nat)
    requires IsRun(p, run) && k + 1 < |run|
    ensures !p.computeInfo && ReceivesFailure(p, run, k) ==> run[k + 1].phase == Done(Illegal)
    ensures !p.computeInfo && TimesOut(p, run, k) ==> run[k + 1].phase.Done?
    ensures p.computeInfo && run[k + 1].phase.Done? ==> run[k + 1].running == {} && run[k + 1].channel == []
  {
    RunInv(p, run, k);
    RunInv(p, run, k + 1);
    var s := run[k + 1];
    if p.computeInfo && s.phase.Done? {
      AllReceived(p, s);
      assert forall i :: i in s.running ==> i in Received(p, s);
      assert s.channel != [] ==> s.channel[0].0 in Received(p, s) && s.channel[0].0 in InChannel(s);
    }
  }

  // ---------------------------------------------------------------------------
  // Every run comes to an answer
  // ---------------------------------------------------------------------------

  ghost function Measure(s: State): nat {
    2 * |s.running| + |s.channel| + if s.phase.Looping? then 2 else if s.phase.Draining? then 1 else 0
  }

  lemma StepsDecrease(p: Params, s: State, s': State)
    requires Next(p, s, s')
    ensures Measure(s') < Measure(s)
  {
    hide Finish, MayReport, Result;
    if i, r, longest :| Finish(p, s, s', i, r, longest) {
      FinishDecreases(p, s, s', i, r, longest);
    }
  }

  lemma FinishDecreases(p: Params, s: State, s': State, i: nat, r: bool, longest: seq<Option<seq<nat>>>)
    requires Finish(p, s, s', i, r, longest)
    ensures Measure(s') < Measure(s)
  {
    assert s.running == s'.running + {i};
  }

  /** No run is longer than twice the number of partitions plus three states. */
  lemma {:induction false} RunsBounded(p: Params, run: seq<State>, k: nat)
    requires IsRun(p, run) && k < |run|
    ensures Measure(run[k]) + k <= 2 * |p.good| + 2
  {
    if 0 < k {
      RunsBounded(p, run, k - 1);
      assert Next(p, run[k - 1], run[k]);
      StepsDecrease(p, run[k - 1], run[k]);
    }
  }

  ghost predicate CanStep(p: Params, s: State) {
    exists s' :: Next(p, s, s')
  }

  /** Until it has answered, the collector can take a waiting result. */
  lemma CanTake(p: Params, s: State) returns (s': State)
    requires !s.phase.Done? && s.channel != []
    ensures Receive(p, s, s') || Drain(p, s, s')
  {
    var t := s.(channel := s.channel[1..], count := s.count + 1, ok := s.ok && s.channel[0].1);
    var u := s.(channel := s.channel[1..], count := s.count + 1);
    if s.phase.Looping? {
      s' := if !t.ok && !p.computeInfo then AfterLoop(p, t.(kill := true))
            else if t.count >= |p.good| then AfterLoop(p, t) else t;
    } else {
      s' := if u.count >= |p.good| then u.(phase := Done(Result(u.ok, u.timedOut))) else u;
    }
  }

  /** If no result is waiting, some goroutine is still running. */
  lemma SomeoneRuns(p: Params, s: State) returns (i: nat)
    requires Inv(p, s) && 0 < |p.good| && !s.phase.Done? && s.channel == []
    ensures i in s.running && i < |p.good|
  {
    AllReceived(p, s);
    assert InChannel(s) == {};
    i :| 0 <= i < |p.good| && i !in Received(p, s);
  }

  /** With no partition and no timeout the collecting loop waits forever: no step is possible. */
  lemma EmptyBlocks(p: Params)
    requires p.good == []
    ensures CanStep(p, Start(p)) <==> p.hasTimeout
  {
    var s := Start(p);
    if p.hasTimeout {
      var s' := AfterLoop(p, s.(timedOut := true, kill := true));
      assert Timeout(p, s, s');
      assert Next(p, s, s');
    }
  }

  // ---------------------------------------------------------------------------
  // From histories to answers
  // ---------------------------------------------------------------------------

  /** The exact answer for each partition. */
  ghost function Goods<S, I, O>(m: Model<S, I, O>, l: seq<seq<Entry<I, O>>>): seq<bool>
    requires forall i :: 0 <= i < |l| ==> WellFormed(l[i])
  {
    seq(|l|, i requires 0 <= i < |l| => Linearizable(m, OpsOf(l[i])))
  }

  /** Result `r`, sent at step `k`, is one that checkSingle can return for partition `i` after `n` loads in
      vain, when its `j`-th load of the kill flag sees the flag as it is in state `loads(j)` of the run. */
  ghost predicate CheckedWith<S, I, O>(m: Model<S, I, O>, l: seq<seq<Entry<I, O>>>, p: Params, run: seq<State>,
                                       k: nat, i: nat, r: bool, longest: seq<Option<seq<nat>>>, loads: nat -> nat,
                                       kill: nat -> bool, n: nat)
    requires (forall j :: 0 <= j < |l| ==> WellFormed(l[j])) && k < |run|
  {
    && i < |l| && (forall j: nat :: loads(j) <= k && kill(j) == run[loads(j)].kill)
    && Answer(m, OpsOf(l[i]), p.computeInfo, kill, n, r, longest)
  }

  ghost predicate Checked<S, I, O>(m: Model<S, I, O>, l: seq<seq<Entry<I, O>>>, p: Params, run: seq<State>, k: nat,
                                   i: nat, r: bool, longest: seq<Option<seq<nat>>>)
    requires (forall j :: 0 <= j < |l| ==> WellFormed(l[j])) && k < |run|
  {
    exists loads: nat -> nat, kill: nat -> bool, n: nat :: CheckedWith(m, l, p, run, k, i, r, longest, loads, kill, n)
  }

  /** The body of a goroutine: checkSingle on its partition, with the loads it happens to make. */
  method CheckPartition<S(!new), I(!new), O(!new)>(m: Model<S, I, O>, l: seq<seq<Entry<I, O>>>, p: Params, i: nat,
                                                   kill: nat -> bool, ghost run: seq<State>, ghost k: nat,
                                                   ghost loads: nat -> nat)
    returns (r: bool, longest: seq<Option<seq<nat>>>)
    requires SoundEqual(m) && (forall j :: 0 <= j < |l| ==> WellFormed(l[j])) && i < |l| && k < |run|
    requires forall j: nat :: loads(j) <= k && kill(j) == run[loads(j)].kill
    ensures Checked(m, l, p, run, k, i, r, longest)
    ensures l[i] != [] && run[loads(0)].kill ==> !r && NoneRecorded(longest)
  {
    hide Answer, Verdict, SoundEqual, WellFormed;
    ghost var n;
    r, longest, n := CheckSingle(m, l[i], p.computeInfo, kill);
    assert CheckedWith(m, l, p, run, k, i, r, longest, loads, kill, n);
    if l[i] != [] && kill(0) {
      SomeOps(l[i]);
      KilledAtOnce(m, OpsOf(l[i]), p.computeInfo, kill, n, r, longest);
    }
  }

  ghost predicate SendsChecked<S, I, O>(m: Model<S, I, O>, l: seq<seq<Entry<I, O>>>, p: Params, run: seq<State>,
                                        k: nat, i: nat, r: bool, longest: seq<Option<seq<nat>>>)
    requires (forall j :: 0 <= j < |l| ==> WellFormed(l[j])) && k + 1 < |run|
  {
    && i in run[k].running && run[k + 1] == Sent(run[k], i, r, longest)
    && Checked(m, l, p, run, k, i, r, longest)
  }

  ghost predicate CheckedNext<S, I, O>(m: Model<S, I, O>, l: seq<seq<Entry<I, O>>>, p: Params, run: seq<State>, k: nat)
    requires (forall j :: 0 <= j < |l| ==> WellFormed(l[j])) && k + 1 < |run|
  {
    || (exists i, r, longest :: SendsChecked(m, l, p, run, k, i, r, longest))
    || Receive(p, run[k], run[k + 1]) || Timeout(p, run[k], run[k + 1]) || Drain(p, run[k], run[k + 1])
  }

  /** A run in which every goroutine executes checkSingle, loading the kill flag while the run goes on. */
  ghost predicate IsCheckedRun<S, I, O>(m: Model<S, I, O>, l: seq<seq<Entry<I, O>>>, p: Params, run: seq<State>)
    requires forall j :: 0 <= j < |l| ==> WellFormed(l[j])
  {
    && run != [] && run[0] == Start(p) && p.good == Goods(m, l)
    && forall k :: 0 <= k < |run| - 1 ==> CheckedNext(m, l, p, run, k)
  }

  /** What checkSingle promises is what the machine allows a goroutine to report, as long as the
      kill flag it may have seen is still set. */
  lemma ReportJustified<S, I, O>(m: Model<S, I, O>, l: seq<seq<Entry<I, O>>>, p: Params, s: State, i: nat,
                                 killed: bool, r: bool, longest: seq<Option<seq<nat>>>)
    requires (forall k :: 0 <= k < |l| ==> WellFormed(l[k])) && p.good == Goods(m, l) && i < |l|
    requires Verdict(m, OpsOf(l[i]), p.computeInfo, killed, r, longest) && (killed ==> s.kill)
    ensures MayReport(p, s, i, r)
  {
  }

  /** The kill flag, once set, stays set. */
  lemma {:induction false} KillStays<S, I, O>(m: Model<S, I, O>, l: seq<seq<Entry<I, O>>>, p: Params, run: seq<State>,
                                              i: nat, k: nat)
    requires (forall j :: 0 <= j < |l| ==> WellFormed(l[j])) && IsCheckedRun(m, l, p, run) && i <= k < |run|
    ensures run[i].kill ==> run[k].kill
    decreases k
  {
    hide Checked, Result, WellFormed;
    if i < k {
      KillStays(m, l, p, run, i, k - 1);
      assert CheckedNext(m, l, p, run, k - 1);
    }
  }

  /** A result that checkSingle can return is also a verdict for the kill flag at the time it is sent. */
  lemma CheckedVerdict<S, I, O>(m: Model<S, I, O>, l: seq<seq<Entry<I, O>>>, p: Params, run: seq<State>, k: nat,
                                i: nat, r: bool, longest: seq<Option<seq<nat>>>)
    requires (forall j :: 0 <= j < |l| ==> WellFormed(l[j])) && IsCheckedRun(m, l, p, run) && k < |run|
    requires Checked(m, l, p, run, k, i, r, longest)
    ensures i < |l| && Verdict(m, OpsOf(l[i]), p.computeInfo, run[k].kill, r, longest)
  {
    hide WellFormed, IsCheckedRun, Verdict, Answer;
    var loads: nat -> nat, kill: nat -> bool, n: nat :| CheckedWith(m, l, p, run, k, i, r, longest, loads, kill, n);
    AnswerVerdict(m, OpsOf(l[i]), p.computeInfo, kill, n, r, longest);
    if j: nat :| kill(j) { KillStays(m, l, p, run, loads(j), k); }
    VerdictWeakens(m, OpsOf(l[i]), p.computeInfo, exists j: nat :: kill(j), run[k].kill, r, longest);
  }

  lemma VerdictWeakens<S, I, O>(m: Model<S, I, O>, ops: seq<Operation<I, O>>, partial: bool, killed: bool,
                                killed': bool, r: bool, longest: seq<Option<seq<nat>>>)
    requires Verdict(m, ops, partial, killed, r, longest) && (killed ==> killed')
    ensures Verdict(m, ops, partial, killed', r, longest)
  {
    hide Linearizable, IsPartial, MaximalLongest;
  }

  /** Goroutines that execute checkSingle report only what the machine allows. */
  lemma CheckedIsRun<S(!new), I(!new), O(!new)>(m: Model<S, I, O>, l: seq<seq<Entry<I, O>>>, p: Params,
                                                run: seq<State>)
    requires SoundEqual(m) && (forall j :: 0 <= j < |l| ==> WellFormed(l[j])) && IsCheckedRun(m, l, p, run)
    ensures IsRun(p, run)
  {
    hide WellFormed, Verdict, Receive, Timeout, Drain, Goods, MayReport, Sent, Checked, SoundEqual;
    forall k | 0 <= k < |run| - 1 ensures Next(p, run[k], run[k + 1]) {
      assert CheckedNext(m, l, p, run, k);
      if i: nat, r, longest :| SendsChecked(m, l, p, run, k, i, r, longest) {
        CheckedVerdict(m, l, p, run, k, i, r, longest);
        ReportJustified(m, l, p, run[k], i, run[k].kill, r, longest);
        assert Finish(p, run[k], run[k + 1], i, r, longest);
      }
    }
  }

  /** A run that goes on is checked as it was, and in its new step. */
  lemma ExtendedChecked<S, I, O>(m: Model<S, I, O>, l: seq<seq<Entry<I, O>>>, p: Params, run: seq<State>, s': State)
    requires (forall j :: 0 <= j < |l| ==> WellFormed(l[j])) && IsCheckedRun(m, l, p, run)
    requires CheckedNext(m, l, p, run + [s'], |run| - 1)
    ensures IsCheckedRun(m, l, p, run + [s'])
  {
    hide WellFormed, Goods, Sent, Receive, Timeout, Drain, Checked, Start;
    var run' := run + [s'];
    assert forall k :: 0 <= k < |run| ==> run'[k] == run[k];
    forall k | 0 <= k < |run'| - 1 ensures CheckedNext(m, l, p, run', k) {
      if k < |run| - 1 {
        assert CheckedNext(m, l, p, run, k);
        if i: nat, r, longest :| SendsChecked(m, l, p, run, k, i, r, longest) {
          SameChecked(m, l, p, run, run', k, i, r, longest);
          assert SendsChecked(m, l, p, run', k, i, r, longest);
        }
      }
    }
  }

  lemma SameChecked<S, I, O>(m: Model<S, I, O>, l: seq<seq<Entry<I, O>>>, p: Params, run: seq<State>,
                             run': seq<State>, k: nat, i: nat, r: bool, longest: seq<Option<seq<nat>>>)
    requires (forall j :: 0 <= j < |l| ==> WellFormed(l[j])) && k < |run| <= |run'|
    requires (forall n :: 0 <= n <= k ==> run'[n] == run[n]) && Checked(m, l, p, run, k, i, r, longest)
    ensures Checked(m, l, p, run', k, i, r, longest)
  {
    hide WellFormed, Answer;
    var loads: nat -> nat, kill: nat -> bool, n: nat :| CheckedWith(m, l, p, run, k, i, r, longest, loads, kill, n);
    assert CheckedWith(m, l, p, run', k, i, r, longest, loads, kill, n);
  }

  /** There is always a result for checkSingle to return. */
  lemma CanSend<S, I, O>(m: Model<S, I, O>, l: seq<seq<Entry<I, O>>>, p: Params, run: seq<State>, k: nat, i: nat)
    returns (r: bool, longest: seq<Option<seq<nat>>>)
    requires (forall j :: 0 <= j < |l| ==> WellFormed(l[j])) && k < |run| && i < |l|
    ensures Checked(m, l, p, run, k, i, r, longest)
  {
    hide WellFormed, Answer;
    var loads: nat -> nat := _ => k;
    var flag := run[k].kill;
    var kill: nat -> bool := _ => flag;
    var n;
    n, r, longest := AnswerExists(m, OpsOf(l[i]), p.computeInfo, kill);
    assert CheckedWith(m, l, p, run, k, i, r, longest, loads, kill, n);
  }

  /** Until it has answered, a run of goroutines that execute checkSingle, over at least one partition, can
      always go on. */
  lemma NeverStuck<S(!new), I(!new), O(!new)>(m: Model<S, I, O>, l: seq<seq<Entry<I, O>>>, p: Params,
                                              run: seq<State>) returns (s': State)
    requires SoundEqual(m) && (forall j :: 0 <= j < |l| ==> WellFormed(l[j])) && 0 < |l|
    requires IsCheckedRun(m, l, p, run) && !run[|run| - 1].phase.Done?
    ensures IsCheckedRun(m, l, p, run + [s'])
  {
    hide WellFormed, SoundEqual, IsRun, CheckedNext, Inv, Receive, Drain, Sent, Checked;
    var k := |run| - 1;
    var s := run[k];
    CheckedIsRun(m, l, p, run);
    RunInv(p, run, k);
    if s.channel != [] {
      s' := CanTake(p, s);
      TakingIsChecked(m, l, p, run, s');
    } else {
      var i := SomeoneRuns(p, s);
      var r, longest := CanSend(m, l, p, run, k, i);
      s' := Sent(s, i, r, longest);
      SendingIsChecked(m, l, p, run, i, r, longest);
    }
    ExtendedChecked(m, l, p, run, s');
  }

  lemma TakingIsChecked<S, I, O>(m: Model<S, I, O>, l: seq<seq<Entry<I, O>>>, p: Params, run: seq<State>, s': State)
    requires (forall j :: 0 <= j < |l| ==> WellFormed(l[j])) && run != []
    requires Receive(p, run[|run| - 1], s') || Drain(p, run[|run| - 1], s')
    ensures CheckedNext(m, l, p, run + [s'], |run| - 1)
  {
    hide WellFormed, Receive, Drain, SendsChecked;
  }

  lemma SendingIsChecked<S, I, O>(m: Model<S, I, O>, l: seq<seq<Entry<I, O>>>, p: Params, run: seq<State>, i: nat,
                                  r: bool, longest: seq<Option<seq<nat>>>)
    requires (forall j :: 0 <= j < |l| ==> WellFormed(l[j])) && run != [] && i in run[|run| - 1].running
    requires Checked(m, l, p, run, |run| - 1, i, r, longest)
    ensures CheckedNext(m, l, p, run + [Sent(run[|run| - 1], i, r, longest)], |run| - 1)
  {
    hide WellFormed, Sent, Checked;
    var run' := run + [Sent(run[|run| - 1], i, r, longest)];
    assert forall k :: 0 <= k < |run| ==> run'[k] == run[k];
    SameChecked(m, l, p, run, run', |run| - 1, i, r, longest);
    assert SendsChecked(m, l, p, run', |run| - 1, i, r, longest);
  }

  // ---------------------------------------------------------------------------
  // The information on partial linearizations
  // ---------------------------------------------------------------------------

  /** For a linearizable history a linearization for each operation, and otherwise for each operation a
      longest partial linearization that contains it, if there is any. */
  ghost predicate ExactInfo<S, I, O>(m: Model<S, I, O>, ops: seq<Operation<I, O>>, longest: seq<Option<seq<nat>>>) {
    && |longest| == |ops|
    && (Linearizable(m, ops) ==>
          forall x :: 0 <= x < |ops| ==> longest[x].Some? && IsLinearization(m, ops, longest[x].value))
    && (!Linearizable(m, ops) ==> MaximalLongest(m, ops, longest))
  }

  /** What a goroutine that has finished left is a verdict on its partition. */
  ghost predicate InfosChecked<S, I, O>(m: Model<S, I, O>, l: seq<seq<Entry<I, O>>>, p: Params, s: State)
    requires forall j :: 0 <= j < |l| ==> WellFormed(l[j])
  {
    forall i :: 0 <= i < |l| && i !in s.running ==> i in s.infos && InfoChecked(m, OpsOf(l[i]), p, s.kill, s.infos[i])
  }

  ghost predicate InfoChecked<S, I, O>(m: Model<S, I, O>, ops: seq<Operation<I, O>>, p: Params, killed: bool,
                                       longest: seq<Option<seq<nat>>>) {
    exists r :: Verdict(m, ops, p.computeInfo, killed, r, longest)
  }

  lemma InfoWeakens<S, I, O>(m: Model<S, I, O>, ops: seq<Operation<I, O>>, p: Params, killed: bool, killed': bool,
                             longest: seq<Option<seq<nat>>>)
    requires InfoChecked(m, ops, p, killed, longest) && (killed ==> killed')
    ensures InfoChecked(m, ops, p, killed', longest)
  {
    hide Verdict;
    var r :| Verdict(m, ops, p.computeInfo, killed, r, longest);
    VerdictWeakens(m, ops, p.computeInfo, killed, killed', r, longest);
  }

  /** The collector's steps leave goroutines and what they recorded alone. */
  lemma CollectorFrame(p: Params, s: State, s': State)
    requires Receive(p, s, s') || Timeout(p, s, s') || Drain(p, s, s')
    ensures s'.running == s.running && s'.infos == s.infos
  {
  }

  lemma {:induction false} RunInfos<S, I, O>(m: Model<S, I, O>, l: seq<seq<Entry<I, O>>>, p: Params, run: seq<State>,
                                             k: nat)
    requires (forall j :: 0 <= j < |l| ==> WellFormed(l[j])) && IsCheckedRun(m, l, p, run) && k < |run|
    ensures InfosChecked(m, l, p, run[k])
  {
    hide WellFormed, InfoChecked, Checked, Receive, Timeout, Drain;
    if k > 0 {
      var n: nat := k - 1;
      RunInfos(m, l, p, run, n);
      KillStays(m, l, p, run, n, k);
      assert CheckedNext(m, l, p, run, n);
      var s, s' := run[n], run[k];
      forall i | 0 <= i < |l| && i !in s.running
        ensures i in s.infos && InfoChecked(m, OpsOf(l[i]), p, s'.kill, s.infos[i])
      {
        InfoWeakens(m, OpsOf(l[i]), p, s.kill, s'.kill, s.infos[i]);
      }
      if i: nat, r, longest :| SendsChecked(m, l, p, run, n, i, r, longest) {
        SentInfo(m, l, p, run, n, i, r, longest);
      } else {
        CollectorFrame(p, s, s');
      }
    }
  }

  lemma SentInfo<S, I, O>(m: Model<S, I, O>, l: seq<seq<Entry<I, O>>>, p: Params, run: seq<State>, k: nat, i: nat,
                          r: bool, longest: seq<Option<seq<nat>>>)
    requires (forall j :: 0 <= j < |l| ==> WellFormed(l[j])) && IsCheckedRun(m, l, p, run) && k < |run|
    requires Checked(m, l, p, run, k, i, r, longest)
    ensures i < |l| && InfoChecked(m, OpsOf(l[i]), p, run[k].kill, longest)
  {
    hide WellFormed, IsCheckedRun, Checked, Verdict;
    CheckedVerdict(m, l, p, run, k, i, r, longest);
  }

  /** With information wanted, an answer that no timeout hastened comes with exact information on every
      partition. */
  lemma InfoExact<S(!new), I(!new), O(!new)>(m: Model<S, I, O>, l: seq<seq<Entry<I, O>>>, p: Params, run: seq<State>)
    requires SoundEqual(m) && (forall j :: 0 <= j < |l| ==> WellFormed(l[j])) && IsCheckedRun(m, l, p, run)
    requires var s := run[|run| - 1]; s.phase.Done? && p.computeInfo && !s.timedOut
    ensures var s := run[|run| - 1];
      forall i :: 0 <= i < |l| ==> i in s.infos && ExactInfo(m, OpsOf(l[i]), s.infos[i])
  {
    hide WellFormed, SoundEqual, IsRun, CheckedNext, InfoChecked, ExactInfo;
    var s := run[|run| - 1];
    CheckedIsRun(m, l, p, run);
    RunInv(p, run, |run| - 1);
    RunInfos(m, l, p, run, |run| - 1);
    AllReceived(p, s);
    forall i | 0 <= i < |l| ensures i in s.infos && ExactInfo(m, OpsOf(l[i]), s.infos[i]) {
      assert i in Received(p, s);
      UnkilledInfo(m, OpsOf(l[i]), p, s.infos[i]);
    }
  }

  lemma UnkilledInfo<S, I, O>(m: Model<S, I, O>, ops: seq<Operation<I, O>>, p: Params, longest: seq<Option<seq<nat>>>)
    requires InfoChecked(m, ops, p, false, longest) && p.computeInfo
    ensures ExactInfo(m, ops, longest)
  {
    hide Linearizable, MaximalLongest, IsPartial;
  }

  // ---------------------------------------------------------------------------
  // End to end
  // ---------------------------------------------------------------------------

  /** checkOperations on the key-value model: one sorted entry list for each key that occurs. */
  ghost predicate KvLists(history: seq<KvOp>, l: seq<seq<Entry<KvInput, KvOutput>>>) {
    exists keys :: KvListsFor(history, l, keys)
  }

  ghost predicate KvListsFor(history: seq<KvOp>, l: seq<seq<Entry<KvInput, KvOutput>>>, keys: seq<string>) {
    && Ascending(keys) && (forall k :: k in keys <==> k in Keys(history)) && |l| == |keys|
    && forall i :: 0 <= i < |l| ==> AllEntries(ForKey(history, keys[i]), l[i]) && Sorted(l[i])
  }

  method PartitionedEntries(history: seq<KvOp>) returns (l: seq<seq<Entry<KvInput, KvOutput>>>)
    ensures KvLists(history, l)
    ensures |history| > 0 ==> |l| > 0
  {
    var partitions, keys := Partition(history);
    l := [];
    for i := 0 to |partitions|
      invariant |l| == i
      invariant forall j :: 0 <= j < i ==> AllEntries(ForKey(history, keys[j]), l[j]) && Sorted(l[j])
    {
      var entries := MakeEntries(partitions[i]);
      l := l + [entries];
    }
    assert KvListsFor(history, l, keys);
    if |history| > 0 {
      assert history[0].input.key in Keys(history);
      assert history[0].input.key in keys;
    }
  }

  lemma {:induction false} ForKeyWellTimed(history: seq<KvOp>, key: string)
    requires WellTimed(history)
    ensures WellTimed(ForKey(history, key))
  {
    IndicesProperties(history, key);
  }

  /** The checker's partitions, taken together, are linearizable exactly when the whole history is. */
  lemma KvListsExact(history: seq<KvOp>, l: seq<seq<Entry<KvInput, KvOutput>>>)
    requires WellTimed(history) && KvLists(history, l)
    ensures forall i :: 0 <= i < |l| ==> WellFormed(l[i])
    ensures (forall i :: 0 <= i < |l| ==> Linearizable(SingleKey(), OpsOf(l[i]))) <==>
      Linearizable(WholeStore(), history)
  {
    hide AllEntries, Sorted, WellFormed, WellTimed, Linearizable, SameHistory, ForKey, OpsOf, Keys, Ascending;
    var keys :| KvListsFor(history, l, keys);
    forall i | 0 <= i < |l|
      ensures WellFormed(l[i])
      ensures Linearizable(SingleKey(), OpsOf(l[i])) <==> Linearizable(SingleKey(), ForKey(history, keys[i]))
    {
      ForKeyWellTimed(history, keys[i]);
      EntriesFaithful(ForKey(history, keys[i]), l[i]);
      SameLinearizations(SingleKey(), ForKey(history, keys[i]), OpsOf(l[i]));
    }
    Locality(history);
    if forall i :: 0 <= i < |l| ==> Linearizable(SingleKey(), OpsOf(l[i])) {
      forall key | key in Keys(history) ensures Linearizable(SingleKey(), ForKey(history, key)) {
        assert key in keys;
        var i :| 0 <= i < |keys| && keys[i] == key;
      }
    }
    if Linearizable(WholeStore(), history) {
      forall i | 0 <= i < |l| ensures Linearizable(SingleKey(), OpsOf(l[i])) {
        assert keys[i] in keys;
      }
    }
  }

  /** checkOperations end to end on the key-value model, for every run of checkParallel. */
  lemma KvEndToEnd(history: seq<KvOp>, l: seq<seq<Entry<KvInput, KvOutput>>>, p: Params, run: seq<State>)
    requires WellTimed(history) && KvLists(history, l)
    requires forall i :: 0 <= i < |l| ==> WellFormed(l[i])
    requires IsCheckedRun(SingleKey(), l, p, run) && run[|run| - 1].phase.Done?
    ensures var r := run[|run| - 1].phase.result;
      && (r == Ok ==> Linearizable(WholeStore(), history))
      && (r == Illegal ==> !Linearizable(WholeStore(), history))
      && (r == Unknown ==> p.hasTimeout)
      && (!p.hasTimeout ==> (r == Ok <==> Linearizable(WholeStore(), history)))
    ensures var s := run[|run| - 1];
      p.computeInfo && !s.timedOut ==>
        forall i :: 0 <= i < |l| ==> i in s.infos && ExactInfo(SingleKey(), OpsOf(l[i]), s.infos[i])
    ensures !p.hasTimeout ==> !run[|run| - 1].timedOut
  {
    hide KvLists, WellFormed, WellTimed, Linearizable, OpsOf, IsRun, CheckedNext, SoundEqual, ExactInfo;
    SingleKeySoundEqual();
    if p.computeInfo && !run[|run| - 1].timedOut { InfoExact(SingleKey(), l, p, run); }
    KvListsExact(history, l);
    CheckedIsRun(SingleKey(), l, p, run);
    AnswersExact(p, run);
    assert forall i :: 0 <= i < |l| ==> p.good[i] == Linearizable(SingleKey(), OpsOf(l[i]));
  }

  /** The same for a model without a partition function: the history is its only partition. */
  lemma WholeEndToEnd<S(!new), I(!new), O(!new)>(m: Model<S, I, O>, history: seq<Operation<I, O>>,
                                                 entries: seq<Entry<I, O>>, p: Params, run: seq<State>)
    requires SoundEqual(m) && WellTimed(history) && AllEntries(history, entries) && Sorted(entries)
    requires WellFormed(entries)
    requires IsCheckedRun(m, [entries], p, run) && run[|run| - 1].phase.Done?
    ensures var r := run[|run| - 1].phase.result;
      && (r == Ok ==> Linearizable(m, history)) && (r == Illegal ==> !Linearizable(m, history))
      && (r == Unknown ==> p.hasTimeout) && (!p.hasTimeout ==> (r == Ok <==> Linearizable(m, history)))
    ensures var s := run[|run| - 1];
      p.computeInfo && !s.timedOut ==> 0 in s.infos && ExactInfo(m, OpsOf(entries), s.infos[0])
    ensures !p.hasTimeout ==> !run[|run| - 1].timedOut
  {
    hide AllEntries, Sorted, WellFormed, WellTimed, Linearizable, IsRun, CheckedNext, SoundEqual, ExactInfo;
    if p.computeInfo && !run[|run| - 1].timedOut { InfoExact(m, [entries], p, run); }
    CheckedIsRun(m, [entries], p, run);
    EntriesFaithful(history, entries);
    SameLinearizations(m, history, OpsOf(entries));
    AnswersExact(p, run);
    assert p.good[0] == Linearizable(m, history);
  }
}

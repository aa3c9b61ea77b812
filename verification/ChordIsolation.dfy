/** Unknown successors (Lab3_Chord/chord.go and chordRPC.go): where they stand in a list, and how a node
    whose first successor is unknown gets to know one again; over all runs of a network of nodes. */
module ChordIsolation {
  import opened Options
  import opened ChordRing
  import opened ChordNode
  import opened ChordPeer

  /** A node, whom its CallStabilize is waiting for, and the reply on its way. */
  datatype Peer = Peer(node: NodeInfo, asking: Option<string>, reply: Option<StabilizeResponse>)

  type Peers = map<string, Peer>

  /** Begin, Answer and End are the parts of one CallStabilize; SetFirst is Create, Join or a successful
      CallNotify, SetPredecessor any update of the predecessor, SetFinger one of FixFingers. */
  datatype Event =
    | Begin(p: string) | Answer(p: string) | End(p: string) | SetFirst(p: string, a: string)
    | SetPredecessor(p: string, a: string) | SetFinger(p: string, n: nat, f: Finger)

  // ---------------------------------------------------------------------------
  // Steps
  // ---------------------------------------------------------------------------

  ghost predicate Sized(r: nat, x: Peer) {
    && r >= 1 && |x.node.successors| == r && |x.node.fingers| == KEYSIZE + 1
    && (x.reply.Some? && x.reply.value.youGood ==> |x.reply.value.successors| == r)
  }

  /** CallStabilize up to its call: the old first successor is asked, unless it is the node itself. */
  ghost function Begun(x: Peer): Peer
    requires |x.node.successors| >= 1
  {
    var (node, target) := Begins(x.node);
    Peer(node, target, None)
  }

  /** The call returns, with a reply or without. */
  ghost function Ended(r: nat, x: Peer): Peer
    requires Sized(r, x)
  {
    Peer(Stabilized(x.node, x.reply), None, None)
  }

  ghost function WithFirst(x: Peer, a: string): Peer
    requires |x.node.successors| >= 1
  {
    x.(node := x.node.(successors := x.node.successors[0 := a]))
  }

  /** Nobody can be reached at the unknown address, so a call to it gets no answer. */
  ghost predicate Next(r: nat, s: Peers, e: Event, s': Peers)
    requires forall q :: q in s ==> Sized(r, s[q])
  {
    && e.p in s && Sized(r, s[e.p])
    && match e
       case Begin(p) => s[p].asking.None? && s' == s[p := Begun(s[p])]
       case Answer(p) =>
         && s[p].asking.Some? && s[p].asking.value in s
         && var q := s[p].asking.value;
            var (node, response) := StabilizeReply(s[q].node, p);
            var t := s[q := s[q].(node := node)];
            s' == t[p := t[p].(reply := Some(response))]
       case End(p) => s[p].asking.Some? && s' == s[p := Ended(r, s[p])]
       case SetFirst(p, a) => a != NOBODY && s' == s[p := WithFirst(s[p], a)]
       case SetPredecessor(p, a) => s' == s[p := s[p].(node := s[p].node.(predecessor := a))]
       case SetFinger(p, n, f) =>
         n <= KEYSIZE && s' == s[p := s[p].(node := s[p].node.(fingers := s[p].node.fingers[n := f]))]
  }

  /** initClient: every node starts with itself as all its successors. */
  ghost predicate Starts(r: nat, s: Peers) {
    && r >= 1 && NOBODY !in s
    && forall q :: q in s ==>
         && s[q].asking.None? && s[q].reply.None? && s[q].node.address == q
         && s[q].node.successors == seq(r, _ => q) && |s[q].node.fingers| == KEYSIZE + 1
  }

  ghost predicate IsRun(r: nat, run: seq<Peers>, events: seq<Event>) {
    && |run| == |events| + 1 && Starts(r, run[0])
    && forall k :: 0 <= k < |events| ==>
         (forall q :: q in run[k] ==> Sized(r, run[k][q])) && Next(r, run[k], events[k], run[k + 1])
  }

  // ---------------------------------------------------------------------------
  // Unknown entries stand at the end
  // ---------------------------------------------------------------------------

  ghost predicate UnknownLast(list: seq<string>) {
    forall i, j :: 0 <= i < j < |list| && list[i] == NOBODY ==> list[j] == NOBODY
  }

  ghost predicate PeerInv(r: nat, x: Peer) {
    && Sized(r, x) && UnknownLast(x.node.successors)
    && (x.asking.Some? && x.asking.value != NOBODY ==> x.node.successors[0] != NOBODY)
    && (x.reply.Some? ==> x.asking.Some? && x.asking.value != NOBODY)
    && (x.reply.Some? && x.reply.value.youGood ==> UnknownLast(x.reply.value.successors))
  }

  ghost predicate PeersInv(r: nat, s: Peers) {
    NOBODY !in s && forall q :: q in s ==> PeerInv(r, s[q])
  }

  lemma {:induction false} SurvivorsUnknownLast(list: seq<string>, failed: string)
    requires UnknownLast(list)
    ensures UnknownLast(Survivors(list, failed))
    ensures NOBODY in Survivors(list, failed) ==> list != [] && list[|list| - 1] == NOBODY
  {
    if list != [] {
      var n := |list| - 1;
      var before := list[..n];
      assert forall i :: 0 <= i < n ==> before[i] == list[i];
      SurvivorsUnknownLast(before, failed);
      var s := Survivors(before, failed);
      if NOBODY in s { assert before[n - 1] == NOBODY; assert list[n] == NOBODY; }
      assert forall i :: 0 <= i < |s| ==> s[i] in s;
    }
  }

  lemma CompactedUnknownLast(list: seq<string>, failed: string)
    requires UnknownLast(list)
    ensures UnknownLast(Compacted(list, failed)) && |Compacted(list, failed)| == |list|
  {
    SurvivorsShorter(list, failed);
    SurvivorsUnknownLast(list, failed);
  }

  lemma VerifiedUnknownLast(mine: seq<string>, theirs: seq<string>)
    requires |mine| == |theirs| >= 1 && UnknownLast(mine) && UnknownLast(theirs) && mine[0] != NOBODY
    ensures UnknownLast(Verified(mine, theirs)) && Verified(mine, theirs)[0] == mine[0]
  {
    var k := Known(theirs, |mine| - 1);
    var v := Verified(mine, theirs);
    forall i, j | 0 <= i < j < |v| && v[i] == NOBODY ensures v[j] == NOBODY {
      assert forall m :: 1 <= m <= k ==> v[m] == theirs[..k][m - 1];
      assert i > k;
    }
  }

  lemma BegunInv(r: nat, x: Peer)
    requires PeerInv(r, x) && x.asking.None?
    ensures PeerInv(r, Begun(x))
  {
  }

  lemma EndedInv(r: nat, x: Peer)
    requires PeerInv(r, x) && x.asking.Some?
    ensures PeerInv(r, Ended(r, x))
  {
    hide Compacted, Verified, Repaired, UnknownLast;
    if x.reply.None? {
      CompactedUnknownLast(x.node.successors, x.node.successors[0]);
    } else if x.reply.value.youGood {
      VerifiedUnknownLast(x.node.successors, x.reply.value.successors);
    }
  }

  lemma {:induction false} NextInv(r: nat, s: Peers, e: Event, s': Peers)
    requires PeersInv(r, s) && Next(r, s, e, s')
    ensures PeersInv(r, s')
  {
    hide Begun, Ended;
    match e {
      case Begin(p) => BegunInv(r, s[p]);
      case End(p) => EndedInv(r, s[p]);
      case _ =>
    }
  }

  /** In every run of any network: the unknown entries of every node's list stand at its end. */
  lemma {:induction false} RunInv(r: nat, run: seq<Peers>, events: seq<Event>, k: nat)
    requires IsRun(r, run, events) && k < |run|
    ensures PeersInv(r, run[k])
  {
    hide PeerInv, Next;
    if k == 0 {
      StartInv(r, run[0]);
    } else {
      RunInv(r, run, events, k - 1);
      NextInv(r, run[k - 1], events[k - 1], run[k]);
    }
  }

  lemma StartInv(r: nat, s: Peers)
    requires Starts(r, s)
    ensures PeersInv(r, s)
  {
  }

  // ---------------------------------------------------------------------------
  // A node that knows no successor
  // ---------------------------------------------------------------------------

  /** Nothing is known behind the first entry. */
  ghost predicate OnlyFirst(list: seq<string>) {
    forall i :: 1 <= i < |list| ==> list[i] == NOBODY
  }

  lemma {:induction false} OnlyFirstSurvivors(list: seq<string>, n: nat)
    requires 1 <= n <= |list| && OnlyFirst(list)
    ensures Survivors(list[..n], list[0]) == if list[0] == NOBODY then [] else Unknowns(n - 1)
    decreases n
  {
    assert list[..n][..n - 1] == list[..n - 1];
    if n > 1 {
      OnlyFirstSurvivors(list, n - 1);
      assert Unknowns(n - 1) == Unknowns(n - 2) + [NOBODY];
    }
  }

  /** Taking the first entry out of such a list leaves nothing. */
  lemma OnlyFirstCompacted(list: seq<string>)
    requires |list| >= 1 && OnlyFirst(list)
    ensures Compacted(list, list[0]) == Unknowns(|list|)
  {
    OnlyFirstSurvivors(list, |list|);
    assert list[..|list|] == list;
    SurvivorsShorter(list, list[0]);
  }

  /** A CallStabilize of a node that knows no successor leaves it with none, whatever findNewSucc found.
      Something is found, and dropped again, exactly if the list has one entry, no finger points to
      anybody, and there is a predecessor. */
  lemma IsolatedRound(node: NodeInfo)
    requires |node.successors| >= 1 && |node.fingers| == KEYSIZE + 1 && node.successors == Unknowns(|node.successors|)
    ensures Stabilized(WithNewSucc(node), None).successors == Unknowns(|node.successors|)
    ensures WithNewSucc(node).successors[0] != NOBODY <==>
      && |node.successors| == 1 && node.predecessor != NOBODY
      && forall n :: 1 <= n <= KEYSIZE ==> node.fingers[n].address == NOBODY
  {
    hide Repaired, Compacted;
    OnlyFirstCompacted(WithNewSucc(node).successors);
  }

  ghost predicate Idle(s: Peers, p: string) {
    p in s && s[p].asking.None?
  }

  ghost predicate KnowsFirst(s: Peers, p: string) {
    p in s && |s[p].node.successors| >= 1 && s[p].node.successors[0] != NOBODY
  }

  /** No successor is known, or the call to nobody is still out, and then at most the first entry is. */
  ghost predicate Isolated(r: nat, x: Peer) {
    && Sized(r, x) && x.reply.None? && OnlyFirst(x.node.successors)
    && (x.asking.None? ==> x.node.successors[0] == NOBODY)
    && (x.asking.Some? ==> x.asking.value == NOBODY)
  }

  lemma {:induction false} IsolatedStep(r: nat, s: Peers, e: Event, s': Peers, p: string)
    requires PeersInv(r, s) && Next(r, s, e, s') && p in s && Isolated(r, s[p])
    requires !(e.SetFirst? && e.p == p && s[p].asking.None?)
    ensures p in s' && Isolated(r, s'[p])
  {
    hide Compacted, Repaired, Verified;
    if e == End(p) {
      OnlyFirstCompacted(s[p].node.successors);
    }
  }

  lemma {:induction false} IsolatedRun(r: nat, run: seq<Peers>, events: seq<Event>, p: string, i: nat, k: nat)
    requires IsRun(r, run, events) && i <= k < |run| && Idle(run[i], p) && !KnowsFirst(run[i], p)
    requires forall m :: i <= m < k && Idle(run[m], p) ==> !(events[m].SetFirst? && events[m].p == p)
    ensures p in run[k] && Isolated(r, run[k][p])
    decreases k
  {
    hide Next;
    RunInv(r, run, events, i);
    if i < k {
      RunInv(r, run, events, k - 1);
      IsolatedRun(r, run, events, p, i, k - 1);
      IsolatedStep(r, run[k - 1], events[k - 1], run[k], p);
    } else {
      assert UnknownLast(run[i][p].node.successors);
    }
  }

  /** A node whose first successor is unknown, between two calls of CallStabilize, gets to know one exactly
      if it is set from outside, by Join or CallNotify, between two calls.  CallStabilize alone never
      helps, for lists of any length; and what is set while its call to nobody is out is lost again. */
  lemma RejoinsExactly(r: nat, run: seq<Peers>, events: seq<Event>, p: string, i: nat, k: nat)
    requires IsRun(r, run, events) && i <= k < |run| && Idle(run[i], p) && !KnowsFirst(run[i], p)
    ensures (exists m :: i <= m <= k && Idle(run[m], p) && KnowsFirst(run[m], p)) <==>
            (exists m :: i <= m < k && Idle(run[m], p) && events[m].SetFirst? && events[m].p == p)
  {
    hide Next, Isolated;
    if m :| i <= m < k && Idle(run[m], p) && events[m].SetFirst? && events[m].p == p {
      RunInv(r, run, events, m);
      assert Next(r, run[m], events[m], run[m + 1]);
      SetFirstIdle(r, run[m], events[m], run[m + 1]);
      assert Idle(run[m + 1], p) && KnowsFirst(run[m + 1], p);
    } else {
      forall m | i <= m <= k ensures !(Idle(run[m], p) && KnowsFirst(run[m], p)) {
        IsolatedRun(r, run, events, p, i, m);
        IsolatedIdle(r, run[m], p);
      }
    }
  }

  lemma SetFirstIdle(r: nat, s: Peers, e: Event, s': Peers)
    requires PeersInv(r, s) && Next(r, s, e, s') && e.SetFirst? && Idle(s, e.p)
    ensures Idle(s', e.p) && KnowsFirst(s', e.p)
  {
  }

  lemma IsolatedIdle(r: nat, s: Peers, p: string)
    requires p in s && Isolated(r, s[p])
    ensures !(Idle(s, p) && KnowsFirst(s, p))
  {
  }
}

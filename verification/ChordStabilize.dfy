/** Stabilization of successor lists with fixed membership (CallStabilize and Stabilize in
    Lab3_Chord/chordRPC.go and chord.go): nodes ask their successors for their lists and merge them,
    in any interleaving, with the reply to a call travelling between its two locked parts. */
module ChordStabilize {
  import opened Options
  import opened ChordRing
  import opened ChordNode
  import opened ChordPeer

  datatype Net = Net(nodes: seq<NodeInfo>, pending: seq<Option<StabilizeResponse>>)

  datatype Step = Ask(p: nat) | Merge(p: nat)

  /** The node at an address. */
  function Where(ring: seq<string>, address: string): (q: nat)
    requires address in ring
    ensures q < |ring| && ring[q] == address
  {
    if ring[0] == address then 0 else 1 + Where(ring[1..], address)
  }

  /** Ask: unless alone, a node calls its first successor, whose handler runs; the reply is on its way.
      Merge: the reply, if there is one, arrives and is merged. */
  ghost function Do(ring: seq<string>, r: nat, s: Net, step: Step): Net
    requires Wired(ring, r, s)
  {
    match step
    case Ask(p) =>
      if p >= |ring| || s.nodes[p].successors[0] == s.nodes[p].address then s
      else
        var q := Where(ring, s.nodes[p].successors[0]);
        var (node, reply) := StabilizeReply(s.nodes[q], s.nodes[p].address);
        Net(s.nodes[q := node], s.pending[p := Some(reply)])
    case Merge(p) =>
      if p >= |ring| || s.pending[p].None? then s
      else Net(s.nodes[p := Stabilized(s.nodes[p], s.pending[p])], s.pending[p := None])
  }

  ghost predicate NodeWired(ring: seq<string>, r: nat, p: nat, node: NodeInfo)
    requires p < |ring|
  {
    && node.address == ring[p] && node.predecessor == ring[Pred(|ring|, p)]
    && |node.successors| == r && r >= 1 && node.successors[0] == Target(ring, p, 0) && |node.fingers| == KEYSIZE + 1
  }

  ghost predicate ReplyWired(r: nat, reply: Option<StabilizeResponse>) {
    reply.Some? ==> reply.value.youGood && |reply.value.successors| == r
  }

  /** Every first successor and every predecessor is right, and all lists have the same length `r`. */
  ghost predicate Wired(ring: seq<string>, r: nat, s: Net) {
    && |s.nodes| == |s.pending| == |ring| && r >= 1
    && (forall p :: 0 <= p < |ring| ==> NodeWired(ring, r, p, s.nodes[p]))
    && (forall p :: 0 <= p < |ring| ==> ReplyWired(r, s.pending[p]))
  }

  ghost predicate PrefixExact(ring: seq<string>, p: nat, list: seq<string>, m: nat)
    requires p < |ring|
  {
    forall i :: 0 <= i < |list| && i < m ==> list[i] == Target(ring, p, i)
  }

  /** All lists are exact in their first `m` entries, and replies on their way in their first `m - 1`. */
  ghost predicate Level(ring: seq<string>, r: nat, s: Net, m: nat)
    requires Wired(ring, r, s) && m >= 1
  {
    && (forall p :: 0 <= p < |ring| ==> PrefixExact(ring, p, s.nodes[p].successors, m))
    && (forall p :: 0 <= p < |ring| && s.pending[p].Some? ==>
      PrefixExact(ring, Succ(|ring|, p), s.pending[p].value.successors, m - 1))
  }

  ghost predicate DistinctNodes(ring: seq<string>) {
    NOBODY !in ring && forall i, j :: 0 <= i < j < |ring| ==> ring[i] != ring[j]
  }

  // ---------------------------------------------------------------------------
  // One step
  // ---------------------------------------------------------------------------

  /** Merging a list that is exact in its first `m` entries makes ours exact in `m + 1`. */
  lemma VerifiedPrefix(ring: seq<string>, p: nat, mine: seq<string>, theirs: seq<string>, m: nat)
    requires DistinctNodes(ring) && p < |ring| && |mine| >= 1 && |theirs| == |mine|
    requires mine[0] == Target(ring, p, 0) && PrefixExact(ring, Succ(|ring|, p), theirs, m)
    ensures PrefixExact(ring, p, Verified(mine, theirs), m + 1)
  {
    var k, list := Known(theirs, |mine| - 1), Verified(mine, theirs);
    assert k < |mine| - 1 ==> theirs[k] !in ring;
    assert k >= m || k == |mine| - 1;
    forall i | 0 < i < |list| && i < m + 1 ensures list[i] == Target(ring, p, i) {
      assert list[i] == theirs[i - 1] == Target(ring, Succ(|ring|, p), i - 1);
      HopFromNext(|ring|, p, i);
    }
  }

  lemma PredOfSucc(n: nat, p: nat)
    requires p < n
    ensures Pred(n, Succ(n, p)) == p && Hop(n, p, 1) == Succ(n, p)
  {
  }

  /** Asking, unless alone, fetches the successor's list and changes nothing else. */
  lemma AskIs(ring: seq<string>, r: nat, s: Net, p: nat)
    requires DistinctNodes(ring) && Wired(ring, r, s) && p < |ring|
    ensures Do(ring, r, s, Ask(p)) == if |ring| == 1 then s
      else s.(pending := s.pending[p := Some(StabilizeResponse(true, "", s.nodes[Succ(|ring|, p)].successors))])
  {
    var n := |ring|;
    PredOfSucc(n, p);
    var q := Succ(n, p);
    assert NodeWired(ring, r, p, s.nodes[p]) && NodeWired(ring, r, q, s.nodes[q]);
    assert s.nodes[p].successors[0] == ring[q];
    if n >= 2 {
      assert q != p && ring[q] != ring[p];
      assert Where(ring, ring[q]) == q;
      assert ring[p] in ring;
      assert s.nodes[q := s.nodes[q]] == s.nodes;
    }
  }

  lemma MergeIs(ring: seq<string>, r: nat, s: Net, p: nat)
    requires Wired(ring, r, s) && p < |ring| && s.pending[p].Some?
    ensures |s.pending[p].value.successors| == |s.nodes[p].successors| == r
    ensures Do(ring, r, s, Merge(p)) == Net(
      s.nodes[p := s.nodes[p].(successors := Verified(s.nodes[p].successors, s.pending[p].value.successors))],
        s.pending[p := None])
  {
    assert NodeWired(ring, r, p, s.nodes[p]) && ReplyWired(r, s.pending[p]);
  }

  /** A step leaves everything as it is, or changes what `p` has pending, or merges it. */
  datatype Effect = Nothing | Fetch(list: seq<string>) | Merged(list: seq<string>)

  ghost function EffectOf(ring: seq<string>, r: nat, s: Net, step: Step): Effect
    requires Wired(ring, r, s)
  {
    if step.p >= |ring| then Nothing
    else if step.Ask? then (if |ring| == 1 then Nothing else Fetch(s.nodes[Succ(|ring|, step.p)].successors))
    else if s.pending[step.p].None? then Nothing
    else
      assert NodeWired(ring, r, step.p, s.nodes[step.p]) && ReplyWired(r, s.pending[step.p]);
      Merged(Verified(s.nodes[step.p].successors, s.pending[step.p].value.successors))
  }

  ghost function WithEffect(s: Net, p: nat, e: Effect): Net
    requires !e.Nothing? ==> p < |s.nodes| && p < |s.pending|
  {
    match e
    case Nothing => s
    case Fetch(list) => s.(pending := s.pending[p := Some(StabilizeResponse(true, "", list))])
    case Merged(list) => Net(s.nodes[p := s.nodes[p].(successors := list)], s.pending[p := None])
  }

  lemma DoIs(ring: seq<string>, r: nat, s: Net, step: Step)
    requires DistinctNodes(ring) && Wired(ring, r, s)
    ensures Do(ring, r, s, step) == WithEffect(s, step.p, EffectOf(ring, r, s, step))
  {
    hide NodeWired, ReplyWired, Verified;
    if step.p < |ring| {
      if step.Ask? { AskIs(ring, r, s, step.p); }
      else if s.pending[step.p].Some? { MergeIs(ring, r, s, step.p); }
    }
  }

  /** A fetched or merged list has the right length, and a merged one keeps its first entry. */
  lemma EffectSizes(ring: seq<string>, r: nat, s: Net, step: Step)
    requires Wired(ring, r, s)
    ensures var e := EffectOf(ring, r, s, step);
      && (e.Fetch? ==> |e.list| == r)
      && (e.Merged? ==> |e.list| == r && r >= 1 && step.p < |ring| && e.list[0] == Target(ring, step.p, 0))
  {
    if step.p < |ring| {
      assert NodeWired(ring, r, step.p, s.nodes[step.p]) && ReplyWired(r, s.pending[step.p]);
      var q := Succ(|ring|, step.p);
      assert NodeWired(ring, r, q, s.nodes[q]);
    }
  }

  lemma DoWired(ring: seq<string>, r: nat, s: Net, step: Step)
    requires DistinctNodes(ring) && Wired(ring, r, s)
    ensures Wired(ring, r, Do(ring, r, s, step))
  {
    hide Do, EffectOf;
    DoIs(ring, r, s, step);
    EffectSizes(ring, r, s, step);
    EffectKinds(ring, r, s, step);
    var s' := Do(ring, r, s, step);
    forall p | 0 <= p < |ring| ensures NodeWired(ring, r, p, s'.nodes[p]) && ReplyWired(r, s'.pending[p]) {
      assert NodeWired(ring, r, p, s.nodes[p]) && ReplyWired(r, s.pending[p]);
    }
  }

  lemma EffectKinds(ring: seq<string>, r: nat, s: Net, step: Step)
    requires Wired(ring, r, s)
    ensures EffectOf(ring, r, s, step).Fetch? <==> step.Ask? && step.p < |ring| && |ring| >= 2
    ensures EffectOf(ring, r, s, step).Merged? <==> step.Merge? && step.p < |ring| && s.pending[step.p].Some?
  {
  }

  /** A fetched list is as exact as all lists are; merging one exact in `k` entries gives `k + 1`. */
  lemma EffectExact(ring: seq<string>, r: nat, s: Net, step: Step, m: nat, k: nat)
    requires DistinctNodes(ring) && Wired(ring, r, s) && step.p < |ring|
    requires forall p :: 0 <= p < |ring| ==> PrefixExact(ring, p, s.nodes[p].successors, m)
    ensures var e := EffectOf(ring, r, s, step);
      && (e.Fetch? ==> PrefixExact(ring, Succ(|ring|, step.p), e.list, m))
      && (e.Merged? && s.pending[step.p].Some? ==>
            PrefixExact(ring, Succ(|ring|, step.p), s.pending[step.p].value.successors, k) ==>
            PrefixExact(ring, step.p, e.list, k + 1))
  {
    hide PrefixExact;
    var e := EffectOf(ring, r, s, step);
    if e.Merged? && PrefixExact(ring, Succ(|ring|, step.p), s.pending[step.p].value.successors, k) {
      assert NodeWired(ring, r, step.p, s.nodes[step.p]) && ReplyWired(r, s.pending[step.p]);
      VerifiedPrefix(ring, step.p, s.nodes[step.p].successors, s.pending[step.p].value.successors, k);
    }
  }

  /** No step, in any order, shortens the correct prefix that all nodes share. */
  lemma DoKeepsLevel(ring: seq<string>, r: nat, s: Net, step: Step, m: nat)
    requires DistinctNodes(ring) && Wired(ring, r, s) && m >= 1 && Level(ring, r, s, m)
    ensures Wired(ring, r, Do(ring, r, s, step)) && Level(ring, r, Do(ring, r, s, step), m)
  {
    hide Do, EffectOf, PrefixExact, NodeWired, ReplyWired, DistinctNodes;
    DoIs(ring, r, s, step);
    DoWired(ring, r, s, step);
    EffectKinds(ring, r, s, step);
    PrefixLess(ring, m);
    if step.p < |ring| { EffectExact(ring, r, s, step, m, m - 1); }
  }

  lemma PrefixLess(ring: seq<string>, m: nat)
    requires m >= 1
    ensures forall p: nat, list :: p < |ring| && PrefixExact(ring, p, list, m) ==> PrefixExact(ring, p, list, m - 1)
  {
  }

  // ---------------------------------------------------------------------------
  // Rounds
  // ---------------------------------------------------------------------------

  ghost function Exec(ring: seq<string>, r: nat, s: Net, steps: seq<Step>): (s': Net)
    requires DistinctNodes(ring) && Wired(ring, r, s)
    ensures Wired(ring, r, s')
  {
    if steps == [] then s
    else
      var t := Exec(ring, r, s, steps[..|steps| - 1]);
      DoWired(ring, r, t, steps[|steps| - 1]);
      Do(ring, r, t, steps[|steps| - 1])
  }

  lemma {:induction false} ExecKeepsLevel(ring: seq<string>, r: nat, s: Net, steps: seq<Step>, m: nat)
    requires DistinctNodes(ring) && Wired(ring, r, s) && m >= 1 && Level(ring, r, s, m)
    ensures Level(ring, r, Exec(ring, r, s, steps), m)
  {
    if steps != [] {
      var k := |steps| - 1;
      ExecKeepsLevel(ring, r, s, steps[..k], m);
      DoKeepsLevel(ring, r, Exec(ring, r, s, steps[..k]), steps[k], m);
    }
  }

  ghost predicate Asked(steps: seq<Step>, p: nat) {
    exists i :: 0 <= i < |steps| && steps[i] == Ask(p)
  }

  /** `p` has asked and merged afterwards. */
  ghost predicate Exchanged(steps: seq<Step>, p: nat) {
    exists j :: 0 <= j < |steps| && steps[j] == Merge(p) && Asked(steps[..j], p)
  }

  /** Every node completes at least one exchange. */
  ghost predicate IsRound(ring: seq<string>, steps: seq<Step>) {
    forall p :: 0 <= p < |ring| ==> Exchanged(steps, p)
  }

  /** How far a round has come: replies asked for within it are exact in `m` entries, and nodes that
      have completed an exchange in `m + 1`. */
  ghost predicate Progress(ring: seq<string>, r: nat, s: Net, steps: seq<Step>, m: nat)
    requires Wired(ring, r, s)
  {
    && (forall p :: 0 <= p < |ring| && Asked(steps, p) && s.pending[p].Some? ==>
          PrefixExact(ring, Succ(|ring|, p), s.pending[p].value.successors, m))
    && (forall p :: 0 <= p < |ring| && Exchanged(steps, p) ==> PrefixExact(ring, p, s.nodes[p].successors, m + 1))
    && (forall p :: 0 <= p < |ring| && Asked(steps, p) && s.pending[p].None? ==> Exchanged(steps, p))
  }

  lemma AskedSnoc(steps: seq<Step>, step: Step, p: nat)
    ensures Asked(steps + [step], p) <==> Asked(steps, p) || step == Ask(p)
    ensures Exchanged(steps + [step], p) <==> Exchanged(steps, p) || (step == Merge(p) && Asked(steps, p))
  {
    var t, n := steps + [step], |steps|;
    assert t[n] == step;
    assert forall i :: 0 <= i < n ==> t[i] == steps[i];
    assert forall j :: 0 <= j <= n ==> t[..j] == steps[..j];
    assert steps[..n] == steps;
    if Asked(steps, p) {
      var i :| 0 <= i < n && steps[i] == Ask(p);
      assert t[i] == Ask(p);
    }
    if Exchanged(steps, p) {
      var j :| 0 <= j < n && steps[j] == Merge(p) && Asked(steps[..j], p);
      assert t[j] == Merge(p) && Asked(t[..j], p);
    }
    if step == Merge(p) && Asked(steps, p) {
      assert t[n] == Merge(p) && Asked(t[..n], p);
    }
    if Exchanged(t, p) {
      var j :| 0 <= j < |t| && t[j] == Merge(p) && Asked(t[..j], p);
      if j < n { assert steps[j] == Merge(p) && Asked(steps[..j], p); }
    }
  }

  lemma DoProgress(ring: seq<string>, r: nat, s: Net, steps: seq<Step>, step: Step, m: nat)
    requires DistinctNodes(ring) && |ring| >= 2 && Wired(ring, r, s) && m >= 1 && Level(ring, r, s, m) &&
      Progress(ring, r, s, steps, m)
    ensures Wired(ring, r, Do(ring, r, s, step)) && Progress(ring, r, Do(ring, r, s, step), steps + [step], m)
  {
    hide Asked, Exchanged, Do, EffectOf, PrefixExact, NodeWired, ReplyWired, DistinctNodes;
    DoIs(ring, r, s, step);
    DoWired(ring, r, s, step);
    EffectKinds(ring, r, s, step);
    if step.p < |ring| { EffectExact(ring, r, s, step, m, m); }
    var s', t := Do(ring, r, s, step), steps + [step];
    forall p | 0 <= p < |ring|
      ensures Asked(t, p) && s'.pending[p].Some? ==>
        PrefixExact(ring, Succ(|ring|, p), s'.pending[p].value.successors, m)
      ensures Exchanged(t, p) ==> PrefixExact(ring, p, s'.nodes[p].successors, m + 1)
      ensures Asked(t, p) && s'.pending[p].None? ==> Exchanged(t, p)
    {
      AskedSnoc(steps, step, p);
      if Exchanged(steps, p) { ExchangedAsked(steps, p); }
    }
  }

  lemma ExchangedAsked(steps: seq<Step>, p: nat)
    requires Exchanged(steps, p)
    ensures Asked(steps, p)
  {
    var j :| 0 <= j < |steps| && steps[j] == Merge(p) && Asked(steps[..j], p);
    var i :| 0 <= i < j && steps[..j][i] == Ask(p);
    assert steps[i] == Ask(p);
  }

  lemma {:induction false} ExecProgress(ring: seq<string>, r: nat, s: Net, steps: seq<Step>, m: nat)
    requires DistinctNodes(ring) && |ring| >= 2 && Wired(ring, r, s) && m >= 1 && Level(ring, r, s, m)
    ensures Progress(ring, r, Exec(ring, r, s, steps), steps, m)
  {
    hide Level, Progress, Do, Wired, DistinctNodes;
    if steps == [] {
      ProgressNone(ring, r, s, m);
    } else {
      var k := |steps| - 1;
      ExecProgress(ring, r, s, steps[..k], m);
      ExecKeepsLevel(ring, r, s, steps[..k], m);
      DoProgress(ring, r, Exec(ring, r, s, steps[..k]), steps[..k], steps[k], m);
      assert steps[..k] + [steps[k]] == steps;
    }
  }

  lemma ProgressNone(ring: seq<string>, r: nat, s: Net, m: nat)
    requires Wired(ring, r, s)
    ensures Progress(ring, r, s, [], m)
  {
  }

  /** After a round all nodes share one more correct entry. */
  lemma RoundGains(ring: seq<string>, r: nat, s: Net, steps: seq<Step>, m: nat)
    requires DistinctNodes(ring) && |ring| >= 2 && Wired(ring, r, s) && m >= 1 && Level(ring, r, s, m) &&
      IsRound(ring, steps)
    ensures Level(ring, r, Exec(ring, r, s, steps), m + 1)
  {
    hide Exchanged, Asked, PrefixExact, Exec, DistinctNodes;
    ExecProgress(ring, r, s, steps, m);
    forall p | 0 <= p < |ring| ensures Asked(steps, p) && Exchanged(steps, p) {
      ExchangedAsked(steps, p);
    }
  }

  ghost function ExecRounds(ring: seq<string>, r: nat, s: Net, rounds: seq<seq<Step>>): (s': Net)
    requires DistinctNodes(ring) && Wired(ring, r, s)
    ensures Wired(ring, r, s')
  {
    if rounds == [] then s else Exec(ring, r, ExecRounds(ring, r, s, rounds[..|rounds| - 1]), rounds[|rounds| - 1])
  }

  lemma {:induction false} RoundsGain(ring: seq<string>, r: nat, s: Net, rounds: seq<seq<Step>>, m: nat)
    requires DistinctNodes(ring) && |ring| >= 2 && Wired(ring, r, s) && m >= 1 && Level(ring, r, s, m)
    requires forall i :: 0 <= i < |rounds| ==> IsRound(ring, rounds[i])
    ensures Level(ring, r, ExecRounds(ring, r, s, rounds), m + |rounds|)
  {
    hide Level, IsRound, Exec, Wired, DistinctNodes;
    if rounds != [] {
      var k := |rounds| - 1;
      RoundsGain(ring, r, s, rounds[..k], m);
      RoundGains(ring, r, ExecRounds(ring, r, s, rounds[..k]), rounds[k], m + k);
    }
  }

  lemma WiredIsLevelOne(ring: seq<string>, r: nat, s: Net)
    requires Wired(ring, r, s)
    ensures Level(ring, r, s, 1)
  {
    forall p | 0 <= p < |ring| ensures PrefixExact(ring, p, s.nodes[p].successors, 1) {
      assert NodeWired(ring, r, p, s.nodes[p]);
    }
  }

  ghost predicate AllExact(ring: seq<string>, s: Net)
    requires |s.nodes| == |ring|
  {
    forall p :: 0 <= p < |ring| ==> ExactList(ring, p, s.nodes[p].successors)
  }

  /** Convergence: from any state in which first successors and predecessors are right, all successor
      lists of length `r` are exact after `r - 1` rounds, however their steps interleave; and replies still
      on their way are exact enough to keep them so. */
  lemma {:induction false} Converges(ring: seq<string>, r: nat, s: Net, rounds: seq<seq<Step>>)
    requires DistinctNodes(ring) && |ring| >= 2 && Wired(ring, r, s)
    requires (forall i :: 0 <= i < |rounds| ==> IsRound(ring, rounds[i])) && |rounds| >= r - 1
    ensures AllExact(ring, ExecRounds(ring, r, s, rounds)) && Level(ring, r, ExecRounds(ring, r, s, rounds), r)
  {
    WiredIsLevelOne(ring, r, s);
    RoundsGain(ring, r, s, rounds, 1);
    var s' := ExecRounds(ring, r, s, rounds);
    assert Level(ring, r, s', r);
    TopLevelExact(ring, r, s');
  }

  /** Once all lists are exact and replies on their way are exact but for their last entry, every state
      after any further steps is so too. */
  lemma ExactStays(ring: seq<string>, r: nat, s: Net, steps: seq<Step>)
    requires DistinctNodes(ring) && Wired(ring, r, s) && Level(ring, r, s, r)
    ensures AllExact(ring, Exec(ring, r, s, steps)) && Level(ring, r, Exec(ring, r, s, steps), r)
  {
    ExecKeepsLevel(ring, r, s, steps, r);
    TopLevelExact(ring, r, Exec(ring, r, s, steps));
  }

  lemma TopLevelExact(ring: seq<string>, r: nat, s: Net)
    requires Wired(ring, r, s) && Level(ring, r, s, r)
    ensures AllExact(ring, s)
  {
    forall p | 0 <= p < |ring| ensures ExactList(ring, p, s.nodes[p].successors) {
      assert NodeWired(ring, r, p, s.nodes[p]);
      assert PrefixExact(ring, p, s.nodes[p].successors, r);
    }
  }

  /** A node that is alone never asks, so its list never changes: it converges exactly when it is
      exact to begin with. */
  lemma {:induction false} AloneNeverChanges(ring: seq<string>, r: nat, s: Net, steps: seq<Step>)
    requires DistinctNodes(ring) && |ring| == 1 && Wired(ring, r, s) && s.pending == [None]
    ensures Exec(ring, r, s, steps) == s
  {
    if steps != [] {
      var k := |steps| - 1;
      AloneNeverChanges(ring, r, s, steps[..k]);
      DoIs(ring, r, s, steps[k]);
      EffectKinds(ring, r, s, steps[k]);
      assert s.pending[0].None?;
    }
  }
}

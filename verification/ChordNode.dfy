/** A Chord node (Lab3_Chord/chord.go and chordRPC.go): answering lookups, exchanging successor lists,
    and repairing them when the successor dies. */
module ChordNode {
  import opened ChordRing

  /** The address that stands for "nobody known". */
  const NOBODY := "X"

  type HashF = string -> int

  datatype Finger = Finger(identifier: int, address: string)

  datatype NodeInfo = NodeInfo(identifier: int, address: string, predecessor: string, successors: seq<string>,
                               fingers: seq<Finger>)

  datatype RetCode = SOLONODE | MYSUCC | IAMSUCC | PASSALONG

  datatype Response = Response(identifier: int, address: string, isSuccessor: bool)

  datatype StabilizeResponse = StabilizeResponse(youGood: bool, newPredecessor: string, successors: seq<string>)

  // ---------------------------------------------------------------------------
  // Lookup
  // ---------------------------------------------------------------------------

  /** The closest preceding finger at or below `n`, or else the first successor. */
  function ClosestFrom(node: NodeInfo, id: int, n: nat): Response
    requires n < |node.fingers|
  {
    if n == 0 then Response(0, if node.successors == [] then "" else node.successors[0], false)
    else if Between(node.identifier, id, node.fingers[n].identifier, true) then
      Response(node.fingers[n].identifier, node.fingers[n].address, false)
    else ClosestFrom(node, id, n - 1)
  }

  /** Finger `n` starts at or beyond the identifier, seen from the node, and no higher finger does. */
  predicate TopBeyond(node: NodeInfo, id: int, n: nat) {
    && n < |node.fingers| && Between(node.identifier, id, node.fingers[n].identifier, true)
    && forall m :: n < m < |node.fingers| ==> !Between(node.identifier, id, node.fingers[m].identifier, true)
  }

  /** find, from successor `i` on. */
  function FindFrom(hash: HashF, node: NodeInfo, id: int, i: nat): (RetCode, Response)
    requires i <= |node.successors| && |node.fingers| == KEYSIZE + 1
    decreases |node.successors| - i
  {
    if i == |node.successors| then (PASSALONG, ClosestFrom(node, id, KEYSIZE))
    else if node.successors[i] == NOBODY then (SOLONODE, Response(node.identifier, node.address, true))
    else if Between(node.identifier, id, hash(node.successors[i]), true) then
      (MYSUCC, Response(hash(node.successors[i]), node.successors[i], true))
    else if Between(hash(node.predecessor), id, node.identifier, true) then
      (IAMSUCC, Response(node.identifier, node.address, true))
    else FindFrom(hash, node, id, i + 1)
  }

  /** The nodes of a ring, in ascending order of the hash of their addresses. */
  ghost function IdsOf(hash: HashF, ring: seq<string>): seq<int> {
    seq(|ring|, i requires 0 <= i < |ring| => hash(ring[i]))
  }

  ghost predicate IsRingOf(hash: HashF, ring: seq<string>) {
    IsRing(IdsOf(hash, ring)) && NOBODY !in ring
  }

  /** Entry `i` of the exact successor list of node `p`. */
  function Target(ring: seq<string>, p: nat, i: nat): string
    requires p < |ring|
  {
    ring[Hop(|ring|, p, i + 1)]
  }

  ghost predicate ExactList(ring: seq<string>, p: nat, list: seq<string>)
    requires p < |ring|
  {
    forall i :: 0 <= i < |list| ==> list[i] == Target(ring, p, i)
  }

  /** Node `p` of the ring, with an exact successor list of any length and the right predecessor. */
  ghost predicate Consistent(hash: HashF, ring: seq<string>, p: nat, node: NodeInfo)
    requires p < |ring|
  {
    && node.address == ring[p] && node.identifier == hash(ring[p])
    && node.predecessor == ring[Pred(|ring|, p)] && ExactList(ring, p, node.successors)
  }

  /** Node `o` is in the first lap of a list, at or after entry `i`. */
  ghost predicate ListedFrom(ring: seq<string>, list: seq<string>, o: nat, i: nat)
    requires o < |ring|
  {
    exists k :: i <= k < |list| && k < |ring| && list[k] == ring[o]
  }

  lemma {:induction false} FindFromExact(hash: HashF, ring: seq<string>, p: nat, node: NodeInfo, id: int, i: nat)
    requires IsRingOf(hash, ring) && p < |ring| && Consistent(hash, ring, p, node) && IsId(id)
    requires |node.fingers| == KEYSIZE + 1 && i <= |node.successors| && i < |ring|
    requires i > 0 ==> Dist(hash(ring[p]), hash(Target(ring, p, i - 1))) < Dist(hash(ring[p]), id)
    requires i > 0 ==> Owner(IdsOf(hash, ring), id) != p
    ensures var ids := IdsOf(hash, ring); var (_, resp) := FindFrom(hash, node, id, i);
      && (resp.isSuccessor ==> resp.address == ring[Owner(ids, id)] && resp.identifier == ids[Owner(ids, id)])
      && (resp.isSuccessor <==>
            i < |node.successors| && (Owner(ids, id) == p || ListedFrom(ring, node.successors, Owner(ids, id), i)))
    decreases |node.successors| - i
  {
    hide Between, Dist, Owner, IsRing;
    var ids, n := IdsOf(hash, ring), |ring|;
    var me, o := hash(ring[p]), Owner(ids, id);
    RingIds(hash, ring);
    if i == |node.successors| {
      ClosestNotSuccessor(node, id, KEYSIZE);
    } else {
      var q := Hop(n, p, i + 1);
      assert node.successors[i] == ring[q] && ring[q] in ring;
      OwnerByDist(ids, p, i + 1, id);
      BetweenIsDist(me, id, ids[q]);
      UniqueOwner(ids, id, p);
      if Between(me, id, ids[q], true) {
        assert o == q;
      } else if o != p {
        if i + 1 == n {
          DistOfSelf(ids, p);
        }
        FindFromExact(hash, ring, p, node, id, i + 1);
        assert node.successors[i] != ring[o] by {
          if ring[q] == ring[o] { SameNode(hash, ring, q, o); }
        }
      }
    }
  }

  lemma RingIds(hash: HashF, ring: seq<string>)
    requires IsRingOf(hash, ring)
    ensures forall i :: 0 <= i < |ring| ==> IsId(hash(ring[i])) && IdsOf(hash, ring)[i] == hash(ring[i])
  {
    forall i | 0 <= i < |ring| ensures IsId(hash(ring[i])) {
      assert IdsOf(hash, ring)[i] == hash(ring[i]);
    }
  }

  lemma SameNode(hash: HashF, ring: seq<string>, q: nat, o: nat)
    requires IsRingOf(hash, ring) && q < |ring| && o < |ring| && ring[q] == ring[o]
    ensures q == o
  {
    var ids := IdsOf(hash, ring);
    assert ids[q] == ids[o];
  }

  lemma {:induction false} ClosestNotSuccessor(node: NodeInfo, id: int, n: nat)
    requires n < |node.fingers|
    ensures !ClosestFrom(node, id, n).isSuccessor
    decreases n
  {
    if n > 0 { ClosestNotSuccessor(node, id, n - 1); }
  }

  /** On a consistent ring of any size, with lists of any length, a reply marked as successor names the
      owner of the identifier; and there is such a reply exactly when the list is not empty and the
      owner is this node or in it. */
  lemma FindExact(hash: HashF, ring: seq<string>, p: nat, node: NodeInfo, id: int)
    requires IsRingOf(hash, ring) && p < |ring| && Consistent(hash, ring, p, node) && IsId(id) &&
      |node.fingers| == KEYSIZE + 1
    ensures var owner := Owner(IdsOf(hash, ring), id); var (code, resp) := FindFrom(hash, node, id, 0);
      && (resp.isSuccessor ==> resp.address == ring[owner] && resp.identifier == hash(ring[owner]))
      && (resp.isSuccessor <==> node.successors != [] && (owner == p || ring[owner] in node.successors))
      && (resp.isSuccessor <==> code != PASSALONG)
  {
    var ids := IdsOf(hash, ring);
    var o := Owner(ids, id);
    FindFromExact(hash, ring, p, node, id, 0);
    FindCode(hash, node, id, 0);
    if ring[o] in node.successors {
      var k :| 0 <= k < |node.successors| && node.successors[k] == ring[o];
      InFirstLap(ring, p, node.successors, k, o);
    }
  }

  lemma {:induction false} FindCode(hash: HashF, node: NodeInfo, id: int, i: nat)
    requires i <= |node.successors| && |node.fingers| == KEYSIZE + 1
    ensures var (code, resp) := FindFrom(hash, node, id, i); resp.isSuccessor <==> code != PASSALONG
    decreases |node.successors| - i
  {
    if i == |node.successors| { ClosestNotSuccessor(node, id, KEYSIZE); } else { FindCode(hash, node, id, i + 1); }
  }

  /** A node in a list that wraps around is also in its first lap, or is the node itself. */
  lemma {:induction false} InFirstLap(ring: seq<string>, p: nat, list: seq<string>, k: nat, o: nat)
    requires p < |ring| && o < |ring| && ExactList(ring, p, list) && k < |list| && list[k] == ring[o]
    ensures exists j :: 0 <= j < |list| && j < |ring| && list[j] == ring[o]
    decreases k
  {
    if k >= |ring| {
      HopLap(|ring|, p, k + 1 - |ring|);
      assert list[k - |ring|] == Target(ring, p, k - |ring|);
      InFirstLap(ring, p, list, k - |ring|, o);
    }
  }

  /** Entry `i` of the successor list decides a lookup: it is unknown, or the identifier lies before it, or
      the node itself owns the identifier. */
  predicate Decides(hash: HashF, node: NodeInfo, id: int, i: nat)
    requires i < |node.successors|
  {
    || node.successors[i] == NOBODY || Between(node.identifier, id, hash(node.successors[i]), true)
    || Between(hash(node.predecessor), id, node.identifier, true)
  }

  /** What a lookup answers on any node whatever: the first entry that decides does so, as unknown, as the
      owner, or for the node itself; and if none does the lookup is passed along. */
  lemma FindByFirst(hash: HashF, node: NodeInfo, id: int, i: nat)
    requires |node.fingers| == KEYSIZE + 1 && i <= |node.successors|
    requires forall k :: 0 <= k < i ==> !Decides(hash, node, id, k)
    ensures i == |node.successors| ==> FindFrom(hash, node, id, 0) == (PASSALONG, ClosestFrom(node, id, KEYSIZE))
    ensures i < |node.successors| && Decides(hash, node, id, i) ==>
      var s := node.successors[i];
      FindFrom(hash, node, id, 0) ==
        if s == NOBODY then (SOLONODE, Response(node.identifier, node.address, true))
        else if Between(node.identifier, id, hash(s), true) then (MYSUCC, Response(hash(s), s, true))
        else (IAMSUCC, Response(node.identifier, node.address, true))
  {
    SkipUndecided(hash, node, id, 0, i);
  }

  lemma {:induction false} SkipUndecided(hash: HashF, node: NodeInfo, id: int, k: nat, i: nat)
    requires |node.fingers| == KEYSIZE + 1 && k <= i <= |node.successors|
    requires forall j :: k <= j < i ==> !Decides(hash, node, id, j)
    ensures FindFrom(hash, node, id, k) == FindFrom(hash, node, id, i)
    decreases i - k
  {
    if k < i {
      assert !Decides(hash, node, id, k);
      SkipUndecided(hash, node, id, k + 1, i);
    }
  }

  // ---------------------------------------------------------------------------
  // Exchanging successor lists
  // ---------------------------------------------------------------------------

  /** The Stabilize handler: a node without predecessor takes the caller for it; the predecessor is
      given the successor list; anyone else is told who the predecessor is. */
  function StabilizeReply(node: NodeInfo, caller: string): (NodeInfo, StabilizeResponse) {
    if node.predecessor == NOBODY then (node.(predecessor := caller), StabilizeResponse(true, "", node.successors))
    else if node.predecessor == caller then (node, StabilizeResponse(true, "", node.successors))
    else (node, StabilizeResponse(false, node.predecessor, []))
  }

  /** What a caller learns: it is good exactly if it is the predecessor afterwards, and then gets the
      successor list; otherwise it learns who the predecessor is.  Only an unknown predecessor changes. */
  lemma StabilizeReplyMeans(node: NodeInfo, caller: string)
    ensures var (node', r) := StabilizeReply(node, caller);
      && node' == node.(predecessor := if node.predecessor == NOBODY then caller else node.predecessor)
      && (r.youGood <==> node'.predecessor == caller)
      && (r.youGood ==> r.successors == node.successors)
      && (!r.youGood ==> r.newPredecessor == node'.predecessor == node.predecessor != NOBODY)
  {
  }

  /** How many of the first `limit` entries are known before the first unknown one. */
  function Known(list: seq<string>, limit: nat): (k: nat)
    requires limit <= |list|
    ensures k <= limit && NOBODY !in list[..k] && (k < limit ==> list[k] == NOBODY)
  {
    if limit == 0 then 0
    else
      var k := Known(list, limit - 1);
      if k == limit - 1 && list[k] != NOBODY then
        assert list[..k + 1] == list[..k] + [list[k]];
        limit
      else k
  }

  /** verifySuccs: our successor's list, shifted by one, replaces ours as far as it is known. */
  function Verified(mine: seq<string>, theirs: seq<string>): (r: seq<string>)
    requires |mine| >= 1 && |theirs| >= |mine| - 1
    ensures |r| == |mine|
  {
    var k := Known(theirs, |mine| - 1);
    [mine[0]] + theirs[..k] + mine[k + 1..]
  }

  /** Entry by entry: the first stays; another is the entry before it in the successor's list as long as
      that list is known up to there, and stays otherwise. */
  lemma VerifiedEach(mine: seq<string>, theirs: seq<string>, i: nat)
    requires |mine| >= 1 && |theirs| >= |mine| - 1 && i < |mine|
    ensures Verified(mine, theirs)[i] == if i == 0 || NOBODY in theirs[..i] then mine[i] else theirs[i - 1]
  {
    var k := Known(theirs, |mine| - 1);
    if i > 0 {
      if k < i {
        assert theirs[..i][k] == NOBODY;
      } else {
        assert theirs[..i] == theirs[..k][..i];
      }
    }
  }

  // ---------------------------------------------------------------------------
  // A dead successor
  // ---------------------------------------------------------------------------

  /** The entries other than `failed`, in order. */
  function Survivors(list: seq<string>, failed: string): seq<string> {
    if list == [] then []
    else Survivors(list[..|list| - 1], failed) + if list[|list| - 1] == failed then [] else [list[|list| - 1]]
  }

  function Unknowns(n: nat): seq<string> {
    seq(n, _ => NOBODY)
  }

  /** The list with all copies of `failed` taken out and as many unknown entries added at its end. */
  function Compacted(list: seq<string>, failed: string): seq<string> {
    SurvivorsShorter(list, failed);
    Survivors(list, failed) + Unknowns(|list| - |Survivors(list, failed)|)
  }

  lemma {:induction false} SurvivorsShorter(list: seq<string>, failed: string)
    ensures |Survivors(list, failed)| <= |list|
  {
    if list != [] { SurvivorsShorter(list[..|list| - 1], failed); }
  }

  lemma {:induction false} SurvivorsCount(list: seq<string>, failed: string, x: string)
    ensures multiset(Survivors(list, failed))[x] == if x == failed then 0 else multiset(list)[x]
  {
    if list != [] {
      var n := |list| - 1;
      SurvivorsCount(list[..n], failed, x);
      assert list == list[..n] + [list[n]];
      var kept := Survivors(list[..n], failed);
      assert Survivors(list, failed) == if list[n] == failed then kept else kept + [list[n]];
    }
  }

  lemma {:induction false} UnknownsCount(n: nat, x: string)
    ensures multiset(Unknowns(n))[x] == if x == NOBODY then n else 0
  {
    if n > 0 {
      UnknownsCount(n - 1, x);
      assert Unknowns(n) == Unknowns(n - 1) + [NOBODY];
    }
  }

  /** Survivors keep their order: two of them stand in the list as they stand among the survivors. */
  lemma {:induction false} SurvivorsInOrder(list: seq<string>, failed: string) returns (at: seq<nat>)
    ensures |at| == |Survivors(list, failed)|
    ensures forall i :: 0 <= i < |at| ==> at[i] < |list| && list[at[i]] == Survivors(list, failed)[i]
    ensures forall i, j :: 0 <= i < j < |at| ==> at[i] < at[j]
  {
    at := [];
    if list != [] {
      var n := |list| - 1;
      var before := list[..n];
      at := SurvivorsInOrder(before, failed);
      assert forall i :: 0 <= i < |at| ==> before[at[i]] == list[at[i]];
      var kept := Survivors(before, failed);
      if list[n] != failed {
        at := at + [n];
        assert Survivors(list, failed) == kept + [list[n]];
      } else {
        assert Survivors(list, failed) == kept;
      }
    }
  }

  /** Compaction keeps the length, every survivor as often as it occurred, and no copy of the failed
      node unless that is the unknown address itself. */
  lemma CompactedExact(list: seq<string>, failed: string)
    ensures |Compacted(list, failed)| == |list|
    ensures forall x :: x != NOBODY ==>
      multiset(Compacted(list, failed))[x] == if x == failed then 0 else multiset(list)[x]
    ensures failed != NOBODY ==> failed !in Compacted(list, failed)
    ensures Survivors(list, failed) <= Compacted(list, failed)
  {
    SurvivorsShorter(list, failed);
    var n := |list| - |Survivors(list, failed)|;
    forall x | x != NOBODY
      ensures multiset(Compacted(list, failed))[x] == if x == failed then 0 else multiset(list)[x]
    {
      SurvivorsCount(list, failed, x);
      UnknownsCount(n, x);
    }
    if failed != NOBODY { assert failed !in multiset(Compacted(list, failed)); }
  }

  /** The highest finger at or below `n` that points to `failed`; 0 if none does. */
  function TopFailed(f: seq<Finger>, failed: string, n: nat): (r: nat)
    requires n < |f|
    ensures r <= n && (r > 0 ==> f[r].address == failed)
    ensures forall i :: r < i <= n ==> f[i].address != failed
  {
    if n == 0 then 0 else if f[n].address == failed then n else TopFailed(f, failed, n - 1)
  }

  /** The lowest finger of the unbroken block of fingers to `failed` that ends at `n`. */
  function BlockStart(f: seq<Finger>, failed: string, n: nat): (r: nat)
    requires n < |f|
    ensures 1 <= r <= n + 1 && (forall i :: r <= i <= n ==> f[i].address == failed)
    ensures r > 1 ==> f[r - 1].address != failed
  {
    if n == 0 then 1 else if f[n].address == failed then BlockStart(f, failed, n - 1) else n + 1
  }

  /** The finger that takes the place of the failed ones: the next higher one, or the predecessor. */
  function Replacement(f: seq<Finger>, failed: string, predecessor: string): string
    requires |f| == KEYSIZE + 1
  {
    var top := TopFailed(f, failed, KEYSIZE);
    if top == KEYSIZE then predecessor else f[top + 1].address
  }

  function Repaired(f: seq<Finger>, failed: string, predecessor: string): (r: seq<Finger>)
    requires |f| == KEYSIZE + 1
    ensures |r| == |f|
  {
    var top := TopFailed(f, failed, KEYSIZE);
    if top == 0 then f
    else
      var low := BlockStart(f, failed, top);
      seq(|f|, i requires 0 <= i < |f| =>
        if low <= i <= top then f[i].(address := Replacement(f, failed, predecessor)) else f[i])
  }

  /** The fingers to `failed` stand side by side. */
  ghost predicate Contiguous(f: seq<Finger>, failed: string) {
    forall a, b, c :: 1 <= a < b < c < |f| && f[a].address == failed && f[c].address == failed ==>
      f[b].address == failed
  }

  ghost predicate Mentions(f: seq<Finger>, failed: string) {
    exists i :: 1 <= i < |f| && f[i].address == failed
  }

  /** The repair leaves no finger to the failed node exactly when those fingers stood side by side and
      the predecessor, if it has to fill in, is another node. */
  lemma RepairedExact(f: seq<Finger>, failed: string, predecessor: string)
    requires |f| == KEYSIZE + 1
    ensures !Mentions(Repaired(f, failed, predecessor), failed) <==>
            Contiguous(f, failed) && (f[KEYSIZE].address == failed ==> predecessor != failed)
  {
    var top := TopFailed(f, failed, KEYSIZE);
    if top > 0 {
      var low := BlockStart(f, failed, top);
      RepairedBlock(f, failed, predecessor, low, top);
      if a :| 1 <= a < low && f[a].address == failed {
        BrokenBlock(f, failed, a, low, top);
      }
    }
  }

  /** Finger `i` points to the failed node, and so do all fingers between it and any higher one that does. */
  ghost predicate InTopBlock(f: seq<Finger>, failed: string, i: nat) {
    && 1 <= i < |f| && f[i].address == failed
    && forall m, n :: i < m < n < |f| && f[n].address == failed ==> f[m].address == failed
  }

  /** `a` is where the lowest finger above `i` that is not to the failed node points to, or the
      predecessor if all fingers above are. */
  ghost predicate NextOther(f: seq<Finger>, failed: string, predecessor: string, i: nat, a: string) {
    || (exists n :: i < n < |f| && f[n].address == a != failed && forall m :: i < m < n ==> f[m].address == failed)
    || (a == predecessor && forall m :: i < m < |f| ==> f[m].address == failed)
  }

  /** Finger by finger: those of the highest block to the failed node point to the next other node above;
      everything else stays, and every start. */
  lemma RepairedEach(f: seq<Finger>, failed: string, predecessor: string, i: nat)
    requires |f| == KEYSIZE + 1 && i < |f|
    ensures var r := Repaired(f, failed, predecessor);
      && r[i].identifier == f[i].identifier
      && (InTopBlock(f, failed, i) ==> NextOther(f, failed, predecessor, i, r[i].address))
      && (!InTopBlock(f, failed, i) ==> r[i] == f[i])
  {
    var top := TopFailed(f, failed, KEYSIZE);
    if top > 0 {
      var low := BlockStart(f, failed, top);
      if low <= i <= top {
        if top < KEYSIZE { assert f[top + 1].address != failed; }
      } else if 1 <= i < low && f[i].address == failed {
        assert i < low - 1 < top && f[low - 1].address != failed;
      }
    }
  }

  /** There is only one such node. */
  lemma NextOtherUnique(f: seq<Finger>, failed: string, predecessor: string, i: nat, a: string, b: string)
    requires NextOther(f, failed, predecessor, i, a) && NextOther(f, failed, predecessor, i, b)
    ensures a == b
  {
    if m :| i < m < |f| && f[m].address != failed {
      var n :| i < n < |f| && f[n].address == a != failed && forall m :: i < m < n ==> f[m].address == failed;
      var n' :| i < n' < |f| && f[n'].address == b != failed && forall m :: i < m < n' ==> f[m].address == failed;
      assert n == n';
    }
  }

  lemma RepairedBlock(f: seq<Finger>, failed: string, predecessor: string, low: nat, top: nat)
    requires |f| == KEYSIZE + 1 && top == TopFailed(f, failed, KEYSIZE) && top > 0 && low == BlockStart(f, failed, top)
    ensures Mentions(Repaired(f, failed, predecessor), failed) <==>
            (exists a :: 1 <= a < low && f[a].address == failed) ||
              (f[KEYSIZE].address == failed && predecessor == failed)
  {
    var g := Repaired(f, failed, predecessor);
    assert forall i :: 1 <= i < |f| ==>
      g[i].address == if low <= i <= top then Replacement(f, failed, predecessor) else f[i].address;
    assert g[top].address == Replacement(f, failed, predecessor);
  }

  lemma BrokenBlock(f: seq<Finger>, failed: string, a: nat, low: nat, top: nat)
    requires 1 <= a < low <= top < |f| && f[a].address == failed == f[top].address && f[low - 1].address != failed
    ensures !Contiguous(f, failed)
  {
    assert a != low - 1;
  }

  // ---------------------------------------------------------------------------
  // Fingers that are up to date
  // ---------------------------------------------------------------------------

  ghost predicate TrueFingers(hash: HashF, ring: seq<string>, p: nat, f: seq<Finger>)
    requires IsRingOf(hash, ring) && p < |ring|
  {
    && |f| == KEYSIZE + 1
    && forall n :: 1 <= n <= KEYSIZE ==>
         f[n] == Finger(JumpIdentifier(hash(ring[p]), n),
           ring[Owner(IdsOf(hash, ring), JumpIdentifier(hash(ring[p]), n))])
  }

  lemma {:induction false} Pow2Grows(a: nat, b: nat)
    requires a < b
    ensures 2 * Pow2(a) <= Pow2(b)
    decreases b
  {
    if a + 1 < b { Pow2Grows(a, b - 1); }
  }

  /** The start of finger `n` lies 2^(n-1) beyond the node. */
  lemma {:induction false} JumpDist(id: int, n: nat)
    requires IsId(id) && 1 <= n <= KEYSIZE
    ensures Dist(id, JumpIdentifier(id, n)) == Pow2(n - 1) - 1
  {
    hide Pow2;
    Pow2Grows(n - 1, KEYSIZE);
    ModTwice(id + Pow2(n - 1), HashMod());
    DistCases(id, JumpIdentifier(id, n));
  }

  /** Where closestPreceedingNode sends a lookup when every finger has its own start: to the node of the
      highest finger if the identifier lies in the half of the ring that follows the node, and to the
      first successor otherwise.  No other finger is ever used. */
  lemma {:induction false} ClosestIsTopOrFirst(node: NodeInfo, id: int)
    requires IsId(node.identifier) && IsId(id) && |node.fingers| == KEYSIZE + 1 && node.successors != []
    requires forall n :: 1 <= n <= KEYSIZE ==> node.fingers[n].identifier == JumpIdentifier(node.identifier, n)
    ensures ClosestFrom(node, id, KEYSIZE) ==
      if Dist(node.identifier, id) < Pow2(KEYSIZE - 1)
      then Response(node.fingers[KEYSIZE].identifier, node.fingers[KEYSIZE].address, false)
      else Response(0, node.successors[0], false)
  {
    hide Between, JumpIdentifier, Dist, Pow2;
    FingerBeyond(node, id, KEYSIZE);
    if Dist(node.identifier, id) >= Pow2(KEYSIZE - 1) {
      NoneBeyond(node, id, KEYSIZE);
    }
  }

  lemma FingerBeyond(node: NodeInfo, id: int, n: nat)
    requires IsId(node.identifier) && IsId(id) && 1 <= n <= KEYSIZE && n < |node.fingers|
    requires node.fingers[n].identifier == JumpIdentifier(node.identifier, n)
    ensures Between(node.identifier, id, node.fingers[n].identifier, true) <==> Dist(node.identifier, id) < Pow2(n - 1)
  {
    hide Between, Dist, Pow2;
    JumpDist(node.identifier, n);
    BetweenIsDist(node.identifier, id, node.fingers[n].identifier);
  }

  lemma {:induction false} NoneBeyond(node: NodeInfo, id: int, n: nat)
    requires IsId(node.identifier) && IsId(id) && n <= KEYSIZE < |node.fingers| && node.successors != []
    requires forall m :: 1 <= m <= n ==> node.fingers[m].identifier == JumpIdentifier(node.identifier, m)
    requires n >= 1 ==> Dist(node.identifier, id) >= Pow2(n - 1)
    ensures ClosestFrom(node, id, n) == Response(0, node.successors[0], false)
    decreases n
  {
    hide Between, JumpIdentifier, Dist, Pow2;
    if n >= 1 {
      FingerBeyond(node, id, n);
      if n >= 2 { Pow2Grows(n - 2, n - 1); }
      NoneBeyond(node, id, n - 1);
    }
  }

  lemma HopsBetween(n: nat, p: nat, q: nat) returns (k: nat)
    requires p < n && q < n
    ensures 1 <= k <= n && Hop(n, p, k) == q
  {
    k := if q > p then q - p else q + n - p;
    HopSmall(n, p, k);
  }

  /** If fingers `a` and `c` belong to the same owner, so does every finger between them. */
  lemma {:induction false} OwnersMonotone(ids: seq<int>, p: nat, x: int, y: int, z: int)
    requires IsRing(ids) && p < |ids| && IsId(x) && IsId(y) && IsId(z)
    requires Dist(ids[p], x) <= Dist(ids[p], y) <= Dist(ids[p], z) && Owner(ids, x) == Owner(ids, z)
    ensures Owner(ids, y) == Owner(ids, x)
  {
    var k := HopsBetween(|ids|, p, Owner(ids, x));
    OwnerByDist(ids, p, k, x);
    OwnerByDist(ids, p, k, y);
    OwnerByDist(ids, p, k, z);
  }

  /** Fingers that are up to date have the entries of any one node side by side. */
  lemma {:induction false} TrueFingersContiguous(hash: HashF, ring: seq<string>, p: nat, f: seq<Finger>, failed: string)
    requires IsRingOf(hash, ring) && p < |ring| && TrueFingers(hash, ring, p, f)
    ensures Contiguous(f, failed)
  {
    hide Owner, JumpIdentifier, IsRingOf;
    forall a, b, c | 1 <= a < b < c < |f| && f[a].address == failed && f[c].address == failed
      ensures f[b].address == failed
    {
      FingersBetween(hash, ring, p, a, b, c);
    }
  }

  lemma {:induction false} FingersBetween(hash: HashF, ring: seq<string>, p: nat, a: nat, b: nat, c: nat)
    requires IsRingOf(hash, ring) && p < |ring| && 1 <= a < b < c <= KEYSIZE
    requires var ids, me := IdsOf(hash, ring), hash(ring[p]);
      ring[Owner(ids, JumpIdentifier(me, a))] == ring[Owner(ids, JumpIdentifier(me, c))]
    ensures var ids, me := IdsOf(hash, ring), hash(ring[p]);
      Owner(ids, JumpIdentifier(me, b)) == Owner(ids, JumpIdentifier(me, a))
  {
    hide Pow2;
    var ids, me := IdsOf(hash, ring), hash(ring[p]);
    assert ids[p] == me;
    var x, y, z := JumpIdentifier(me, a), JumpIdentifier(me, b), JumpIdentifier(me, c);
    SameNode(hash, ring, Owner(ids, x), Owner(ids, z));
    JumpDist(me, a); JumpDist(me, b); JumpDist(me, c);
    Pow2Grows(a - 1, b - 1); Pow2Grows(b - 1, c - 1);
    OwnersMonotone(ids, p, x, y, z);
  }

  /** With fingers up to date, no finger to the failed node remains exactly when the predecessor, if the
      highest finger makes it fill in, is another node. */
  lemma {:induction false} RepairCompletes(hash: HashF, ring: seq<string>, p: nat, node: NodeInfo, failed: string)
    requires IsRingOf(hash, ring) && p < |ring| && TrueFingers(hash, ring, p, node.fingers)
    ensures !Mentions(Repaired(node.fingers, failed, node.predecessor), failed) <==>
            (node.fingers[KEYSIZE].address == failed ==> node.predecessor != failed)
  {
    TrueFingersContiguous(hash, ring, p, node.fingers, failed);
    RepairedExact(node.fingers, failed, node.predecessor);
  }

  // ---------------------------------------------------------------------------
  // Fingers that are up to date after the repair
  // ---------------------------------------------------------------------------

  lemma RingWithout(hash: HashF, ring: seq<string>, q: nat)
    requires IsRingOf(hash, ring) && |ring| >= 2 && q < |ring|
    ensures IsRingOf(hash, Without(ring, q)) && IdsOf(hash, Without(ring, q)) == Without(IdsOf(hash, ring), q)
    ensures forall p: nat :: p < |ring| && p != q ==>
      Moved(q, p) < |ring| - 1 && Without(ring, q)[Moved(q, p)] == ring[p]
  {
    var ids := IdsOf(hash, ring);
    WithoutIsRing(ids, q);
    assert IdsOf(hash, Without(ring, q)) == Without(ids, q);
    assert forall x :: x in Without(ring, q) ==> x in ring;
  }

  /** Which node a finger should point to once node `q` is gone: its successor in place of it. */
  lemma TrueWithout(hash: HashF, ring: seq<string>, q: nat, x: int)
    requires IsRingOf(hash, ring) && |ring| >= 2 && q < |ring|
    ensures IsRingOf(hash, Without(ring, q))
    ensures var o := Owner(IdsOf(hash, ring), x); var w := Without(ring, q);
      w[Owner(IdsOf(hash, w), x)] == ring[if o == q then Succ(|ring|, q) else o]
  {
    hide Owner;
    RingWithout(hash, ring, q);
    OwnerWithout(IdsOf(hash, ring), q, x);
  }

  /** The repair gives the true fingers of the ring without the failed node exactly if the next other node
      above the failed node's fingers, or else the predecessor, is the failed node's successor. */
  lemma RepairTrueExactly(hash: HashF, ring: seq<string>, p: nat, q: nat, node: NodeInfo)
    requires IsRingOf(hash, ring) && p < |ring| && q < |ring| && p != q && TrueFingers(hash, ring, p, node.fingers)
    ensures IsRingOf(hash, Without(ring, q)) && Moved(q, p) < |Without(ring, q)|
    ensures TrueFingers(hash, Without(ring, q), Moved(q, p), Repaired(node.fingers, ring[q], node.predecessor)) <==>
      forall i: nat :: InTopBlock(node.fingers, ring[q], i) ==>
        NextOther(node.fingers, ring[q], node.predecessor, i, ring[Succ(|ring|, q)])
  {
    hide Owner, JumpIdentifier, InTopBlock, NextOther, Repaired;
    RingWithout(hash, ring, q);
    var f, w, failed := node.fingers, Without(ring, q), ring[q];
    var g := Repaired(f, failed, node.predecessor);
    forall n | 1 <= n <= KEYSIZE
      ensures var x := JumpIdentifier(hash(ring[p]), n);
        g[n] == Finger(x, w[Owner(IdsOf(hash, w), x)]) <==>
        (InTopBlock(f, failed, n) ==> NextOther(f, failed, node.predecessor, n, ring[Succ(|ring|, q)]))
    {
      FingerTrue(hash, ring, p, q, node, n);
    }
    forall i: nat | InTopBlock(f, failed, i) ensures 1 <= i <= KEYSIZE { TopBlockRange(f, failed, i); }
  }

  lemma TopBlockRange(f: seq<Finger>, failed: string, i: nat)
    requires InTopBlock(f, failed, i)
    ensures 1 <= i < |f|
  {
  }

  lemma FingerTrue(hash: HashF, ring: seq<string>, p: nat, q: nat, node: NodeInfo, n: nat)
    requires IsRingOf(hash, ring) && p < |ring| && q < |ring| && p != q && TrueFingers(hash, ring, p, node.fingers)
    requires 1 <= n <= KEYSIZE
    ensures IsRingOf(hash, Without(ring, q))
    ensures var f, w, failed := node.fingers, Without(ring, q), ring[q];
      var x := JumpIdentifier(hash(ring[p]), n);
      Repaired(f, failed, node.predecessor)[n] == Finger(x, w[Owner(IdsOf(hash, w), x)]) <==>
      (InTopBlock(f, failed, n) ==> NextOther(f, failed, node.predecessor, n, ring[Succ(|ring|, q)]))
  {
    hide Owner, JumpIdentifier, NextOther, Repaired;
    var f, failed, ids := node.fingers, ring[q], IdsOf(hash, ring);
    var x := JumpIdentifier(hash(ring[p]), n);
    TrueWithout(hash, ring, q, x);
    RepairedEach(f, failed, node.predecessor, n);
    TrueFingersContiguous(hash, ring, p, f, failed);
    var o := Owner(ids, x);
    assert f[n] == Finger(x, ring[o]);
    if ring[o] == failed { SameNode(hash, ring, o, q); }
    if o == q {
      assert InTopBlock(f, failed, n);
      var a, b := Repaired(f, failed, node.predecessor)[n].address, ring[Succ(|ring|, q)];
      if NextOther(f, failed, node.predecessor, n, b) { NextOtherUnique(f, failed, node.predecessor, n, a, b); }
    }
  }
}

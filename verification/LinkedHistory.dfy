/** The linked list of a whole history during the search (porcupine/checker.go): it always spells the
    entries of the operations not yet linearized, and every lifted pair can be put back. */
module LinkedHistory {
  import opened Histories
  import opened Search
  import opened Entries
  import opened LinkedEntries

  /** Node `p` carries entry `p`; the node of a call has the node of its return as its match. */
  ghost predicate Represents<I, O>(h: seq<Entry<I, O>>, nodes: seq<Node<I, O>>) {
    && |nodes| == |h| && NoRepeats(nodes)
    && forall p :: 0 <= p < |h| ==>
         && nodes[p].id == h[p].id
         && (h[p].CallEntry? ==>
               nodes[p].value == Input(h[p].input) && RetPos(h, h[p].id) < |h| &&
                 nodes[p].matching == nodes[RetPos(h, h[p].id)])
         && (h[p].ReturnEntry? ==> nodes[p].value == Output(h[p].output) && nodes[p].matching == null)
  }

  ghost predicate Positions(r: seq<nat>, n: nat) {
    forall i :: 0 <= i < |r| ==> r[i] < n
  }

  /** The spine of the list with head `head` that spells the nodes at positions `r`. */
  ghost function SpineAt<I, O>(head: Node<I, O>, nodes: seq<Node<I, O>>, r: seq<nat>): (s: seq<Node<I, O>>)
    requires Positions(r, |nodes|)
    ensures |s| == |r| + 1 && s[0] == head
    ensures forall i :: 0 <= i < |r| ==> s[i + 1] == nodes[r[i]]
  {
    [head] + seq(|r|, i requires 0 <= i < |r| => nodes[r[i]])
  }

  /** The list without the operations in `done`. */
  ghost function Spine<I, O>(h: seq<Entry<I, O>>, head: Node<I, O>, nodes: seq<Node<I, O>>,
                             done: set<nat>): seq<Node<I, O>>
    requires |nodes| == |h|
  {
    SegmentPositions(h, done, 0, |h|);
    SpineAt(head, nodes, Remaining(h, done))
  }

  /** Where a position stands in the list. */
  ghost function Rank<I, O>(h: seq<Entry<I, O>>, done: set<nat>, p: nat): nat
    requires p <= |h|
  {
    1 + |Segment(h, done, 0, p)|
  }

  lemma SpineRank<I, O>(h: seq<Entry<I, O>>, head: Node<I, O>, nodes: seq<Node<I, O>>, done: set<nat>, p: nat)
    requires |nodes| == |h| && p < |h| && h[p].id !in done
    ensures var s := Spine(h, head, nodes, done);
      0 < Rank(h, done, p) < |s| && s[Rank(h, done, p)] == nodes[p]
  {
    RemainingAround(h, done, p);
    SegmentPositions(h, done, 0, |h|);
    var r := Remaining(h, done);
    assert r[Rank(h, done, p) - 1] == p;
  }

  lemma RankStep<I, O>(h: seq<Entry<I, O>>, done: set<nat>, p: nat)
    requires p < |h| && h[p].id !in done
    ensures Rank(h, done, p + 1) == Rank(h, done, p) + 1
  {
  }

  /** The node of an operation in `done` is not in the list. */
  lemma NotInSpine<I, O>(h: seq<Entry<I, O>>, head: Node<I, O>, nodes: seq<Node<I, O>>, done: set<nat>, p: nat)
    requires |nodes| == |h| && NoRepeats(nodes) && head !in nodes && p < |h| && h[p].id in done
    ensures nodes[p] !in Spine(h, head, nodes, done)
  {
    SegmentPositions(h, done, 0, |h|);
    var s := Spine(h, head, nodes, done);
    forall i | 0 <= i < |s| ensures s[i] != nodes[p] {
      if 0 < i { assert s[i] == nodes[Remaining(h, done)[i - 1]]; }
    }
  }

  lemma {:induction false} SegmentIncreasing<I, O>(h: seq<Entry<I, O>>, done: set<nat>, p: nat, q: nat)
    requires p <= q <= |h|
    ensures forall i, j :: 0 <= i < j < |Segment(h, done, p, q)| ==>
      Segment(h, done, p, q)[i] < Segment(h, done, p, q)[j]
    decreases q
  {
    if p < q {
      SegmentIncreasing(h, done, p, q - 1);
      SegmentPositions(h, done, p, q - 1);
    }
  }

  lemma SpineNoRepeats<I, O>(h: seq<Entry<I, O>>, head: Node<I, O>, nodes: seq<Node<I, O>>, done: set<nat>)
    requires ListOf(h, head, nodes)
    ensures NoRepeats(Spine(h, head, nodes, done))
  {
    SegmentPositions(h, done, 0, |h|);
    SegmentIncreasing(h, done, 0, |h|);
    var s, r := Spine(h, head, nodes, done), Remaining(h, done);
    forall i, j | 0 <= i < j < |s| ensures s[i] != s[j] {
      assert s[j] == nodes[r[j - 1]];
      if 0 < i { assert s[i] == nodes[r[i - 1]] && r[i - 1] < r[j - 1]; }
    }
  }

  lemma RankOfReturn<I, O>(h: seq<Entry<I, O>>, done: set<nat>, c: nat, r: nat)
    requires c < r < |h| && h[c].id !in done
    ensures Rank(h, done, r) == 2 + |Segment(h, done, 0, c)| + |Segment(h, done, c + 1, r)|
  {
    SegmentSplit(h, done, 0, c + 1, r);
    RankStep(h, done, c);
  }

  lemma SpineIs<I, O>(h: seq<Entry<I, O>>, head: Node<I, O>, nodes: seq<Node<I, O>>, done: set<nat>, r: seq<nat>)
    requires |nodes| == |h| && r == Remaining(h, done)
    ensures Positions(r, |nodes|) && Spine(h, head, nodes, done) == SpineAt(head, nodes, r)
  {
    SegmentPositions(h, done, 0, |h|);
  }

  /** Taking the call `c` and return `r` of one operation out of the list is linearizing it. */
  lemma SpineWithout<I, O>(h: seq<Entry<I, O>>, head: Node<I, O>, nodes: seq<Node<I, O>>, done: set<nat>, x: nat,
                           c: nat, r: nat)
    requires |nodes| == |h| && c < r < |h| && x !in done
    requires forall i :: 0 <= i < |h| ==> (h[i].id == x <==> i == c || i == r)
    ensures 0 < Rank(h, done, c) < Rank(h, done, r) < |Spine(h, head, nodes, done)|
    ensures Spine(h, head, nodes, done + {x}) ==
      Without(Spine(h, head, nodes, done), Rank(h, done, c), Rank(h, done, r))
  {
    hide Segment, Spine;
    var a, b, z := Segment(h, done, 0, c), Segment(h, done, c + 1, r), Segment(h, done, r + 1, |h|);
    assert h[c].id == x && h[r].id == x;
    RankOfReturn(h, done, c, r);
    RemainingWith(h, done, c, r);
    RemainingWithout(h, done, x, c, r);
    SpineIs(h, head, nodes, done, a + [c] + b + [r] + z);
    SpineIs(h, head, nodes, done + {x}, a + [] + b + [] + z);
    DropTwo(head, nodes, a, c, b, r, z);
  }

  lemma DropOne<I, O>(head: Node<I, O>, nodes: seq<Node<I, O>>, u: seq<nat>, c: nat, v: seq<nat>)
    requires Positions(u + [c] + v, |nodes|) && Positions(u + v, |nodes|)
    ensures SpineAt(head, nodes, u + v) == Drop(SpineAt(head, nodes, u + [c] + v), 1 + |u|)
  {
  }

  lemma DropTwo<I, O>(head: Node<I, O>, nodes: seq<Node<I, O>>, a: seq<nat>, c: nat, b: seq<nat>, r: nat, z: seq<nat>)
    requires Positions(a + [c] + b + [r] + z, |nodes|) && Positions(a + [] + b + [] + z, |nodes|)
    ensures SpineAt(head, nodes, a + [] + b + [] + z) ==
            Without(SpineAt(head, nodes, a + [c] + b + [r] + z), 1 + |a|, 2 + |a| + |b|)
  {
    assert a + [c] + b + [r] + z == a + [c] + (b + [r] + z);
    assert a + [] + b + [] + z == (a + b) + z;
    assert a + (b + [r] + z) == (a + b) + [r] + z;
    assert Positions((a + b) + [r] + z, |nodes|) by {
      var full := a + [c] + b + [r] + z;
      assert forall i :: 0 <= i < |a| + |b| + 1 + |z| ==> ((a + b) + [r] + z)[i] == full[if i < |a| then i else i + 1];
    }
    DropOne(head, nodes, a, c, b + [r] + z);
    DropOne(head, nodes, a + b, r, z);
  }

  // ---------------------------------------------------------------------------
  // The list during the search
  // ---------------------------------------------------------------------------

  ghost predicate ListOf<I, O>(h: seq<Entry<I, O>>, head: Node<I, O>, nodes: seq<Node<I, O>>) {
    |nodes| == |h| && WellFormed(h) && Represents(h, nodes) && head !in nodes
  }

  datatype Links<I, O> = Links(callPrev: Node?<I, O>, callNext: Node?<I, O>, retPrev: Node?<I, O>, retNext: Node?<I, O>)

  ghost function LinksOf<I, O>(c: Node<I, O>, r: Node<I, O>): Links<I, O>
    reads c, r
  {
    Links(c.prev, c.next, r.prev, r.next)
  }

  /** Where the call and return of `x` point once lifted from the list without `done`. */
  ghost function HomeLinks<I, O>(h: seq<Entry<I, O>>, head: Node<I, O>, nodes: seq<Node<I, O>>, done: set<nat>,
                                 x: nat): Links<I, O>
    requires |nodes| == |h|
  {
    var s, i, j := Spine(h, head, nodes, done), Rank(h, done, CallPos(h, x)), Rank(h, done, RetPos(h, x));
    if 0 < i < j < |s| then
      var d := Drop(s, i);
      Links(s[i - 1], s[i + 1], d[j - 2], if j < |d| then d[j] else null)
    else Links(null, null, null, null)
  }

  /** Operation `x`, lifted when the operations in `done` already were, can be put back. */
  ghost predicate Restorable<I, O>(h: seq<Entry<I, O>>, head: Node<I, O>, nodes: seq<Node<I, O>>, done: set<nat>,
                                   x: nat)
    requires |nodes| == |h|
    reads nodes
  {
    && CallPos(h, x) < |h| && RetPos(h, x) < |h|
    && LinksOf(nodes[CallPos(h, x)], nodes[RetPos(h, x)]) == HomeLinks(h, head, nodes, done, x)
  }

  lemma SpineInNodes<I, O>(h: seq<Entry<I, O>>, head: Node<I, O>, nodes: seq<Node<I, O>>, done: set<nat>)
    requires |nodes| == |h|
    ensures forall i :: 0 <= i < |Spine(h, head, nodes, done)| ==>
      Spine(h, head, nodes, done)[i] == head || Spine(h, head, nodes, done)[i] in nodes
  {
    SegmentPositions(h, done, 0, |h|);
    var s := Spine(h, head, nodes, done);
    forall i | 0 <= i < |s| ensures s[i] == head || s[i] in nodes {
      if 0 < i { assert s[i] == nodes[Remaining(h, done)[i - 1]]; }
    }
  }

  /** The list spells what the linearized operations `ids` leave, and each of them can be put back
      in turn.  This fixes every link of every node. */
  ghost predicate Lifted<I, O>(h: seq<Entry<I, O>>, head: Node<I, O>, nodes: seq<Node<I, O>>, ids: seq<nat>)
    requires |nodes| == |h|
    reads head, nodes
  {
    SpineInNodes(h, head, nodes, Ids(ids));
    assert forall o: object :: o in Spine(h, head, nodes, Ids(ids)) ==> o == head || o in nodes;
    && Linked(Spine(h, head, nodes, Ids(ids)))
    && AllRestorable(h, head, nodes, ids)
  }

  ghost predicate AllRestorable<I, O>(h: seq<Entry<I, O>>, head: Node<I, O>, nodes: seq<Node<I, O>>, ids: seq<nat>)
    requires |nodes| == |h|
    reads nodes
  {
    forall k :: 0 <= k < |ids| ==> Restorable(h, head, nodes, Ids(ids[..k]), ids[k])
  }

  lemma OpInSpine<I, O>(h: seq<Entry<I, O>>, head: Node<I, O>, nodes: seq<Node<I, O>>, done: set<nat>, x: nat)
    requires ListOf(h, head, nodes) && x < NumOps(h) && x !in done
    ensures var c, r, s := CallPos(h, x), RetPos(h, x), Spine(h, head, nodes, done);
      && c < r < |h| && 0 < Rank(h, done, c) < Rank(h, done, r) < |s|
      && s[Rank(h, done, c)] == nodes[c] && s[Rank(h, done, r)] == nodes[r]
      && nodes[c].matching == nodes[r]
      && Spine(h, head, nodes, done + {x}) == Without(s, Rank(h, done, c), Rank(h, done, r))
  {
    EntriesOf(h, x);
    var c, r := CallPos(h, x), RetPos(h, x);
    SpineRank(h, head, nodes, done, c);
    SpineRank(h, head, nodes, done, r);
    SpineWithout(h, head, nodes, done, x, c, r);
  }

  lemma ParkedIsRestorable<I, O>(h: seq<Entry<I, O>>, head: Node<I, O>, nodes: seq<Node<I, O>>, done: set<nat>, x: nat)
    requires ListOf(h, head, nodes) && x < NumOps(h) && x !in done
    ensures var c, r, s := CallPos(h, x), RetPos(h, x), Spine(h, head, nodes, done);
      && c < r < |h| && 0 < Rank(h, done, c) < Rank(h, done, r) < |s|
      && (Restorable(h, head, nodes, done, x) <==> Parked(s, Rank(h, done, c), Rank(h, done, r)))
  {
    OpInSpine(h, head, nodes, done, x);
  }

  /** The nodes of a lifted operation are not in the list. */
  lemma {:induction false} LiftedApart<I, O>(h: seq<Entry<I, O>>, head: Node<I, O>, nodes: seq<Node<I, O>>,
                                             done: set<nat>, x: nat)
    requires ListOf(h, head, nodes) && x < NumOps(h) && x in done
    ensures CallPos(h, x) < RetPos(h, x) < |h|
    ensures nodes[CallPos(h, x)] !in Spine(h, head, nodes, done) && nodes[RetPos(h, x)] !in Spine(h, head, nodes, done)
  {
    EntriesOf(h, x);
    NotInSpine(h, head, nodes, done, CallPos(h, x));
    NotInSpine(h, head, nodes, done, RetPos(h, x));
  }

  lemma {:induction false} AllLiftedApart<I, O>(h: seq<Entry<I, O>>, head: Node<I, O>, nodes: seq<Node<I, O>>,
                                                ids: seq<nat>, done: set<nat>)
    requires ListOf(h, head, nodes) && InRange(ids, NumOps(h)) && Ids(ids) <= done
    ensures forall k :: 0 <= k < |ids| ==>
      && CallPos(h, ids[k]) < RetPos(h, ids[k]) < |h|
      && nodes[CallPos(h, ids[k])] !in Spine(h, head, nodes, done) &&
        nodes[RetPos(h, ids[k])] !in Spine(h, head, nodes, done)
  {
    forall k | 0 <= k < |ids|
      ensures CallPos(h, ids[k]) < RetPos(h, ids[k]) < |h|
      ensures nodes[CallPos(h, ids[k])] !in Spine(h, head, nodes, done) &&
        nodes[RetPos(h, ids[k])] !in Spine(h, head, nodes, done)
    {
      LiftedApart(h, head, nodes, done, ids[k]);
    }
  }

  lemma RestorablePush<I, O>(h: seq<Entry<I, O>>, head: Node<I, O>, nodes: seq<Node<I, O>>, ids: seq<nat>, x: nat)
    requires |nodes| == |h|
    ensures AllRestorable(h, head, nodes, ids + [x]) <==>
            AllRestorable(h, head, nodes, ids) && Restorable(h, head, nodes, Ids(ids), x)
    ensures Ids(ids + [x]) == Ids(ids) + {x}
  {
    var ids' := ids + [x];
    assert forall k :: 0 <= k <= |ids| ==> ids'[..k] == ids[..k];
    assert ids[..|ids|] == ids;
    if AllRestorable(h, head, nodes, ids') {
      assert Restorable(h, head, nodes, Ids(ids'[..|ids|]), ids'[|ids|]);
      forall k | 0 <= k < |ids| ensures Restorable(h, head, nodes, Ids(ids[..k]), ids[k]) {
        assert Restorable(h, head, nodes, Ids(ids'[..k]), ids'[k]);
      }
    }
  }

  /** Lifting operation `x` from the list. */
  method LiftOp<I, O>(entry: Node<I, O>, ghost h: seq<Entry<I, O>>, ghost head: Node<I, O>,
                      ghost nodes: seq<Node<I, O>>, ghost ids: seq<nat>, ghost x: nat)
    requires ListOf(h, head, nodes) && Lifted(h, head, nodes, ids)
    requires InRange(ids, NumOps(h)) && x < NumOps(h) && x !in Ids(ids) && entry == nodes[CallPos(h, x)]
    modifies head, nodes
    ensures Lifted(h, head, nodes, ids + [x])
  {
    hide WellFormed, Represents, Spine, Rank;
    ghost var done := Ids(ids);
    OpInSpine(h, head, nodes, done, x);
    SpineNoRepeats(h, head, nodes, done);
    SpineInNodes(h, head, nodes, done);
    AllLiftedApart(h, head, nodes, ids, done);
    Lift(entry, Spine(h, head, nodes, done), Rank(h, done, CallPos(h, x)), Rank(h, done, RetPos(h, x)));
    assert AllRestorable(h, head, nodes, ids);
    ParkedIsRestorable(h, head, nodes, done, x);
    RestorablePush(h, head, nodes, ids, x);
  }

  /** Putting the operation lifted last back into the list. */
  method UnliftOp<I, O>(entry: Node<I, O>, ghost h: seq<Entry<I, O>>, ghost head: Node<I, O>,
                        ghost nodes: seq<Node<I, O>>, ghost ids: seq<nat>, ghost x: nat)
    requires ListOf(h, head, nodes) && Lifted(h, head, nodes, ids + [x])
    requires InRange(ids, NumOps(h)) && x < NumOps(h) && x !in Ids(ids) && entry == nodes[CallPos(h, x)]
    modifies head, nodes
    ensures Lifted(h, head, nodes, ids)
  {
    hide WellFormed, Represents, Spine, Rank;
    ghost var done := Ids(ids);
    OpInSpine(h, head, nodes, done, x);
    SpineNoRepeats(h, head, nodes, done);
    RestorablePush(h, head, nodes, ids, x);
    ParkedIsRestorable(h, head, nodes, done, x);
    SpineInNodes(h, head, nodes, done);
    AllLiftedApart(h, head, nodes, ids, done);
    Unlift(entry, Spine(h, head, nodes, done), Rank(h, done, CallPos(h, x)), Rank(h, done, RetPos(h, x)));
    assert AllRestorable(h, head, nodes, ids);
  }

  // ---------------------------------------------------------------------------
  // Walking the list
  // ---------------------------------------------------------------------------

  /** The first remaining position at or after `q`. */
  ghost function FirstFrom<I, O>(h: seq<Entry<I, O>>, done: set<nat>, q: nat): (r: nat)
    requires q <= |h|
    ensures q <= r <= |h| && (r < |h| ==> h[r].id !in done)
    ensures forall i :: q <= i < r ==> h[i].id in done
    decreases |h| - q
  {
    if q == |h| || h[q].id !in done then q else FirstFrom(h, done, q + 1)
  }

  lemma {:induction false} SegmentEmpty<I, O>(h: seq<Entry<I, O>>, done: set<nat>, p: nat, q: nat)
    requires p <= q <= |h| && forall i :: p <= i < q ==> h[i].id in done
    ensures Segment(h, done, p, q) == []
    decreases q
  {
    if p < q { SegmentEmpty(h, done, p, q - 1); }
  }

  ghost function NodeAt<I, O>(nodes: seq<Node<I, O>>, p: nat): Node?<I, O> {
    if p < |nodes| then nodes[p] else null
  }

  lemma SpineAfter<I, O>(h: seq<Entry<I, O>>, head: Node<I, O>, nodes: seq<Node<I, O>>, done: set<nat>, q: nat)
    requires |nodes| == |h| && q <= |h|
    ensures var s, f, k := Spine(h, head, nodes, done), FirstFrom(h, done, q), Rank(h, done, q);
      && k <= |s| && NodeAt(nodes, f) == if k < |s| then s[k] else null
  {
    var f := FirstFrom(h, done, q);
    SegmentEmpty(h, done, q, f);
    SegmentSplit(h, done, 0, q, f);
    SegmentSplit(h, done, 0, f, |h|);
    SegmentPositions(h, done, 0, |h|);
    if f < |h| {
      SpineRank(h, head, nodes, done, f);
    }
  }

  /** The head's link leads to the first remaining entry. */
  lemma HeadNext<I, O>(h: seq<Entry<I, O>>, head: Node<I, O>, nodes: seq<Node<I, O>>, ids: seq<nat>)
    requires |nodes| == |h| && Lifted(h, head, nodes, ids)
    ensures head.next == NodeAt(nodes, FirstFrom(h, Ids(ids), 0))
  {
    SpineAfter(h, head, nodes, Ids(ids), 0);
    assert Segment(h, Ids(ids), 0, 0) == [];
    var s := Spine(h, head, nodes, Ids(ids));
    assert s[0].next == if 1 < |s| then s[1] else null;
  }

  /** The link of a remaining node leads to the next remaining entry. */
  lemma {:induction false} NodeNext<I, O>(h: seq<Entry<I, O>>, head: Node<I, O>, nodes: seq<Node<I, O>>,
                                          ids: seq<nat>, p: nat)
    requires |nodes| == |h| && Lifted(h, head, nodes, ids) && p < |h| && h[p].id !in Ids(ids)
    ensures nodes[p].next == NodeAt(nodes, FirstFrom(h, Ids(ids), p + 1))
  {
    hide Spine, AllRestorable, FirstFrom, Segment;
    var done := Ids(ids);
    var s, k := Spine(h, head, nodes, done), Rank(h, done, p);
    SpineRank(h, head, nodes, done, p);
    SpineAfter(h, head, nodes, done, p + 1);
    RankStep(h, done, p);
    assert s[k].next == if k + 1 < |s| then s[k + 1] else null;
  }

  /** Following a link is moving to the next remaining position. */
  lemma FirstFromIsNext<I, O>(h: seq<Entry<I, O>>, done: set<nat>, p: int)
    requires WellFormed(h) && -1 <= p < |h|
    ensures Next(OpsOf(h), done, p, FirstFrom(h, done, p + 1))
  {
    var ops, f := OpsOf(h), FirstFrom(h, done, p + 1);
    forall y: nat | y < |ops| && y !in done ensures !(p < ops[y].call < f) && !(p < ops[y].ret < f) {
      EntriesOf(h, y);
    }
  }
}

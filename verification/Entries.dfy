/** Histories as the checker sees them (porcupine/checker.go): a time-ordered sequence of call and
    return entries.  The positions of the entries play the role of time. */
module Entries {
  import opened Histories
  import opened Search

  datatype Entry<I, O> =
    | CallEntry(input: I, id: nat, time: int, clientId: int)
    | ReturnEntry(output: O, id: nat, time: int, clientId: int)

  predicate Matches<I, O>(e: Entry<I, O>, isCall: bool, id: nat) {
    e.id == id && e.CallEntry? == isCall
  }

  /** The first position at or after `k` of the call (or return) of operation `id`; |h| if there is none. */
  function PosFrom<I, O>(h: seq<Entry<I, O>>, isCall: bool, id: nat, k: nat): (r: nat)
    requires k <= |h|
    ensures k <= r <= |h|
    ensures r < |h| ==> Matches(h[r], isCall, id)
    ensures forall p :: k <= p < r ==> !Matches(h[p], isCall, id)
    decreases |h| - k
  {
    if k == |h| || Matches(h[k], isCall, id) then k else PosFrom(h, isCall, id, k + 1)
  }

  function CallPos<I, O>(h: seq<Entry<I, O>>, id: nat): (r: nat)
    ensures r <= |h|
  {
    PosFrom(h, true, id, 0)
  }

  function RetPos<I, O>(h: seq<Entry<I, O>>, id: nat): (r: nat)
    ensures r <= |h|
  {
    PosFrom(h, false, id, 0)
  }

  function NumOps<I, O>(h: seq<Entry<I, O>>): nat {
    |h| / 2
  }

  /** The ids are 0..n-1, each with one call entry followed later by one return entry. */
  ghost predicate WellFormed<I, O>(h: seq<Entry<I, O>>) {
    && |h| == 2 * NumOps(h)
    && (forall x: nat :: x < NumOps(h) ==> CallPos(h, x) < RetPos(h, x) < |h|)
    && (forall p :: 0 <= p < |h| ==>
          h[p].id < NumOps(h) && p == if h[p].CallEntry? then CallPos(h, h[p].id) else RetPos(h, h[p].id))
  }

  /** The operations of an entry history, with positions as call and return times. */
  ghost function OpsOf<I, O>(h: seq<Entry<I, O>>): (ops: seq<Operation<I, O>>)
    requires WellFormed(h)
    ensures |ops| == NumOps(h)
    ensures forall x: nat :: x < |ops| ==>
      && ops[x].call == CallPos(h, x) && ops[x].ret == RetPos(h, x)
      && h[CallPos(h, x)] == CallEntry(ops[x].input, x, h[CallPos(h, x)].time, h[CallPos(h, x)].clientId)
      && h[RetPos(h, x)] == ReturnEntry(ops[x].output, x, h[RetPos(h, x)].time, h[RetPos(h, x)].clientId)
  {
    seq(NumOps(h), x requires 0 <= x < NumOps(h) =>
      var c, r := h[CallPos(h, x)], h[RetPos(h, x)];
      Operation(c.clientId, c.input, CallPos(h, x), r.output, RetPos(h, x)))
  }

  lemma EntriesOf<I, O>(h: seq<Entry<I, O>>, x: nat)
    requires WellFormed(h) && x < NumOps(h)
    ensures CallPos(h, x) < RetPos(h, x) < |h|
    ensures h[CallPos(h, x)].CallEntry? && h[RetPos(h, x)].ReturnEntry?
    ensures forall i :: 0 <= i < |h| ==> (h[i].id == x <==> i == CallPos(h, x) || i == RetPos(h, x))
  {
  }

  /** Positions make all call and return times different. */
  lemma OpsDistinctTimes<I, O>(h: seq<Entry<I, O>>)
    requires WellFormed(h)
    ensures DistinctTimes(OpsOf(h))
  {
    var ops := OpsOf(h);
    forall x: nat, y: nat | x < |ops| && y < |ops|
      ensures ops[x].call < ops[x].ret && ops[x].call != ops[y].ret && (x != y ==> ops[x].call != ops[y].call)
    {
      EntriesOf(h, x);
      EntriesOf(h, y);
    }
  }

  // ---------------------------------------------------------------------------
  // What is left of a history once some operations are linearized
  // ---------------------------------------------------------------------------

  /** The positions in [p, q) of operations that are not in `done`, in order. */
  ghost function Segment<I, O>(h: seq<Entry<I, O>>, done: set<nat>, p: nat, q: nat): seq<nat>
    requires p <= q <= |h|
    decreases q
  {
    if p == q then []
    else Segment(h, done, p, q - 1) + if h[q - 1].id in done then [] else [q - 1]
  }

  ghost function Remaining<I, O>(h: seq<Entry<I, O>>, done: set<nat>): seq<nat> {
    Segment(h, done, 0, |h|)
  }

  lemma {:induction false} SegmentPositions<I, O>(h: seq<Entry<I, O>>, done: set<nat>, p: nat, q: nat)
    requires p <= q <= |h|
    ensures forall i :: 0 <= i < |Segment(h, done, p, q)| ==>
      p <= Segment(h, done, p, q)[i] < q && h[Segment(h, done, p, q)[i]].id !in done
    decreases q
  {
    if p < q { SegmentPositions(h, done, p, q - 1); }
  }

  lemma {:induction false} SegmentSplit<I, O>(h: seq<Entry<I, O>>, done: set<nat>, p: nat, q: nat, r: nat)
    requires p <= q <= r <= |h|
    ensures Segment(h, done, p, r) == Segment(h, done, p, q) + Segment(h, done, q, r)
    decreases r
  {
    if q < r { SegmentSplit(h, done, p, q, r - 1); }
  }

  /** Linearizing `x` does not touch a stretch without entries of `x`. */
  lemma {:induction false} SegmentWithout<I, O>(h: seq<Entry<I, O>>, done: set<nat>, x: nat, p: nat, q: nat)
    requires p <= q <= |h|
    requires forall i :: p <= i < q ==> h[i].id != x
    ensures Segment(h, done + {x}, p, q) == Segment(h, done, p, q)
    decreases q
  {
    if p < q { SegmentWithout(h, done, x, p, q - 1); }
  }

  /** What remains before and after the remaining position `p`. */
  lemma RemainingAround<I, O>(h: seq<Entry<I, O>>, done: set<nat>, p: nat)
    requires p < |h| && h[p].id !in done
    ensures Remaining(h, done) == Segment(h, done, 0, p) + [p] + Segment(h, done, p + 1, |h|)
  {
    SegmentSplit(h, done, 0, p, |h|);
    SegmentSplit(h, done, p, p + 1, |h|);
    assert Segment(h, done, p, p) == [];
  }

  lemma SegmentOne<I, O>(h: seq<Entry<I, O>>, done: set<nat>, p: nat)
    requires p < |h|
    ensures Segment(h, done, p, p + 1) == if h[p].id in done then [] else [p]
  {
    assert Segment(h, done, p, p) == [];
  }

  lemma RemainingInFive<I, O>(h: seq<Entry<I, O>>, done: set<nat>, c: nat, r: nat)
    requires c < r < |h|
    ensures Remaining(h, done) == Segment(h, done, 0, c) + Segment(h, done, c, c + 1) + Segment(h, done, c + 1, r)
                                  + Segment(h, done, r, r + 1) + Segment(h, done, r + 1, |h|)
  {
    SegmentSplit(h, done, 0, r + 1, |h|);
    SegmentSplit(h, done, 0, r, r + 1);
    SegmentSplit(h, done, 0, c + 1, r);
    SegmentSplit(h, done, 0, c, c + 1);
  }

  lemma RemainingWith<I, O>(h: seq<Entry<I, O>>, done: set<nat>, c: nat, r: nat)
    requires c < r < |h| && h[c].id == h[r].id
    ensures var a, b, z := Segment(h, done, 0, c), Segment(h, done, c + 1, r), Segment(h, done, r + 1, |h|);
      Remaining(h, done) == if h[c].id in done then a + [] + b + [] + z else a + [c] + b + [r] + z
  {
    RemainingInFive(h, done, c, r);
    SegmentOne(h, done, c);
    SegmentOne(h, done, r);
  }

  /** Taking the two positions `c` and `r` of `x` out of what remains. */
  lemma RemainingWithout<I, O>(h: seq<Entry<I, O>>, done: set<nat>, x: nat, c: nat, r: nat)
    requires c < r < |h|
    requires forall i :: 0 <= i < |h| ==> (h[i].id == x <==> i == c || i == r)
    ensures var a, b, z := Segment(h, done, 0, c), Segment(h, done, c + 1, r), Segment(h, done, r + 1, |h|);
      Remaining(h, done + {x}) == a + [] + b + [] + z
  {
    assert h[c].id == x && h[r].id == x;
    RemainingWith(h, done + {x}, c, r);
    SegmentWithout(h, done, x, 0, c);
    SegmentWithout(h, done, x, c + 1, r);
    SegmentWithout(h, done, x, r + 1, |h|);
  }
}

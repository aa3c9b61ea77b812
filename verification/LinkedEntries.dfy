/** The doubly linked list of call and return nodes that checkSingle edits in place
    (porcupine/checker.go): insertion, and the lift and unlift of a call with its return.

    A spine is the sequence of nodes that a list spells, starting at its first node. */
module LinkedEntries {
  datatype Payload<I, O> = NoValue | Input(input: I) | Output(output: O)

  /** A node of a call has its return as its match; a node of a return has none. */
  class Node<I, O> {
    const value: Payload<I, O>
    const matching: Node?<I, O>
    const id: int
    var next: Node?<I, O>
    var prev: Node?<I, O>

    constructor (value: Payload<I, O>, matching: Node?<I, O>, id: int)
      ensures this.value == value && this.matching == matching && this.id == id && next == null && prev == null
    {
      this.value, this.matching, this.id, next, prev := value, matching, id, null, null;
    }
  }

  ghost predicate NoRepeats<T>(s: seq<T>) {
    forall i, j :: 0 <= i < j < |s| ==> s[i] != s[j]
  }

  /** Both link directions follow the spine, from its first node to its last. */
  ghost predicate Linked<I, O>(spine: seq<Node<I, O>>)
    reads spine
  {
    && NoRepeats(spine)
    && (forall i {:trigger spine[i].next} :: 0 <= i < |spine| ==>
      spine[i].next == if i + 1 < |spine| then spine[i + 1] else null)
    && (forall i {:trigger spine[i].prev} :: 0 <= i < |spine| ==> spine[i].prev == if 0 < i then spine[i - 1] else null)
  }

  method InsertBefore<I, O>(n: Node<I, O>, mark: Node?<I, O>, ghost spine: seq<Node<I, O>>, ghost k: nat)
    returns (r: Node<I, O>)
    requires n.next == null && n.prev == null && n !in spine && Linked(spine)
    requires if mark == null then k == 0 && spine == [] else k < |spine| && mark == spine[k]
    modifies n, spine
    ensures r == n && Linked(spine[..k] + [n] + spine[k..])
  {
    if mark != null {
      var beforeMark := mark.prev;
      mark.prev := n;
      n.next := mark;
      if beforeMark != null {
        n.prev := beforeMark;
        beforeMark.next := n;
      }
    }
    return n;
  }

  // ---------------------------------------------------------------------------
  // Lift and unlift, one node at a time
  // ---------------------------------------------------------------------------

  ghost function Drop<T>(s: seq<T>, k: nat): seq<T>
    requires k < |s|
  {
    s[..k] + s[k + 1..]
  }

  /** The node taken out at `k` still points to its neighbours. */
  ghost predicate PointsBack<I, O>(x: Node<I, O>, spine: seq<Node<I, O>>, k: nat)
    requires 0 < k < |spine|
    reads x
  {
    x.prev == spine[k - 1] && x.next == if k + 1 < |spine| then spine[k + 1] else null
  }

  method Unlink<I, O>(x: Node<I, O>, ghost spine: seq<Node<I, O>>, ghost k: nat)
    requires Linked(spine) && 0 < k < |spine| && x == spine[k]
    modifies set y | y in spine && y != x
    ensures Linked(Drop(spine, k)) && PointsBack(x, spine, k)
  {
    x.prev.next := x.next;
    if x.next != null {
      x.next.prev := x.prev;
    }
  }

  /** The links of a spine whose node `k` is out, read off the full spine. */
  lemma LinkedAround<I, O>(spine: seq<Node<I, O>>, k: nat)
    requires NoRepeats(spine) && 0 < k < |spine| && Linked(Drop(spine, k))
    ensures forall i {:trigger spine[i].next} :: 0 <= i < |spine| && i != k && i != k - 1 ==>
      spine[i].next == if i + 1 < |spine| then spine[i + 1] else null
    ensures forall i {:trigger spine[i].prev} :: 0 <= i < |spine| && i != k && i != k + 1 ==>
      spine[i].prev == if 0 < i then spine[i - 1] else null
  {
    var rest := Drop(spine, k);
    forall i | 0 <= i < |spine| && i != k && i != k - 1
      ensures spine[i].next == if i + 1 < |spine| then spine[i + 1] else null
    {
      var at := if i < k then i else i - 1;
      assert rest[at] == spine[i];
      assert rest[at].next == if at + 1 < |rest| then rest[at + 1] else null;
    }
    forall i | 0 <= i < |spine| && i != k && i != k + 1
      ensures spine[i].prev == if 0 < i then spine[i - 1] else null
    {
      var at := if i < k then i else i - 1;
      assert rest[at] == spine[i];
      assert rest[at].prev == if 0 < at then rest[at - 1] else null;
    }
  }

  method Relink<I, O>(x: Node<I, O>, ghost spine: seq<Node<I, O>>, ghost k: nat)
    requires NoRepeats(spine) && 0 < k < |spine| && x == spine[k]
    requires Linked(Drop(spine, k)) && PointsBack(x, spine, k)
    modifies set y | y in spine && y != x
    ensures Linked(spine)
  {
    LinkedAround(spine, k);
    x.prev.next := x;
    if x.next != null {
      x.next.prev := x;
    }
  }

  /** The spine without its nodes `i` and `j`. */
  ghost function Without<T>(spine: seq<T>, i: nat, j: nat): seq<T>
    requires i < j < |spine|
  {
    Drop(Drop(spine, i), j - 1)
  }

  /** The lifted nodes `i` and `j` of a spine still hold what unlift needs. */
  ghost predicate Parked<I, O>(spine: seq<Node<I, O>>, i: nat, j: nat)
    requires 0 < i < j < |spine|
    reads spine[i], spine[j]
  {
    PointsBack(spine[i], spine, i) && PointsBack(spine[j], Drop(spine, i), j - 1)
  }

  lemma DropKeeps<I, O>(spine: seq<Node<I, O>>, i: nat, j: nat)
    requires NoRepeats(spine) && i < j < |spine|
    ensures |Drop(spine, i)| == |spine| - 1 && Drop(spine, i)[j - 1] == spine[j] && spine[i] !in Drop(spine, i)
    ensures NoRepeats(Drop(spine, i)) && forall x :: x in Drop(spine, i) ==> x in spine
  {
  }

  /** Takes a call and its return out of the list, leaving their own links as they were. */
  method Lift<I, O>(entry: Node<I, O>, ghost spine: seq<Node<I, O>>, ghost i: nat, ghost j: nat)
    requires Linked(spine) && NoRepeats(spine) && 0 < i < j < |spine|
    requires entry == spine[i] && entry.matching == spine[j]
    modifies spine
    ensures Linked(Without(spine, i, j)) && Parked(spine, i, j)
  {
    hide Linked, Drop;
    DropKeeps(spine, i, j);
    Unlink(entry, spine, i);
    Unlink(entry.matching, Drop(spine, i), j - 1);
  }

  /** Puts a lifted call and return back where they were. */
  method Unlift<I, O>(entry: Node<I, O>, ghost spine: seq<Node<I, O>>, ghost i: nat, ghost j: nat)
    requires NoRepeats(spine) && 0 < i < j < |spine|
    requires entry == spine[i] && entry.matching == spine[j]
    requires Linked(Without(spine, i, j)) && Parked(spine, i, j)
    modifies spine
    ensures Linked(spine)
  {
    hide Linked, Drop;
    DropKeeps(spine, i, j);
    Relink(entry.matching, Drop(spine, i), j - 1);
    Relink(entry, spine, i);
  }

  /** Unlift undoes lift exactly: every link of every node is what it was. */
  method LiftUnlift<I, O>(entry: Node<I, O>, ghost spine: seq<Node<I, O>>, ghost i: nat, ghost j: nat)
    requires Linked(spine) && 0 < i < j < |spine|
    requires entry == spine[i] && entry.matching == spine[j]
    modifies spine
    ensures forall x :: x in spine ==> x.next == old(x.next) && x.prev == old(x.prev)
  {
    Lift(entry, spine, i, j);
    Unlift(entry, spine, i, j);
    assert forall k {:trigger spine[k].next} :: 0 <= k < |spine| ==> spine[k].next == old(spine[k].next);
    assert forall k {:trigger spine[k].prev} :: 0 <= k < |spine| ==> spine[k].prev == old(spine[k].prev);
  }
}

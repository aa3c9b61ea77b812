/** Identifier arithmetic on the Chord ring (Lab3_Chord/chordUtil.go): circular intervals modulo
    2^160, and which node owns which identifier. */
module ChordRing {

  const KEYSIZE: nat := 160

  function Pow2(n: nat): (r: nat)
    ensures r >= 1
  {
    if n == 0 then 1 else 2 * Pow2(n - 1)
  }

  function HashMod(): (r: nat)
    ensures r >= 1
  {
    Pow2(KEYSIZE)
  }

  function Mod(x: int): (r: nat)
    ensures r < HashMod()
  {
    x % HashMod()
  }

  /** The start of finger `n`. */
  function JumpIdentifier(id: int, n: nat): (r: nat)
    requires n >= 1
    ensures r < HashMod()
  {
    Mod(id + Pow2(n - 1))
  }

  /** Is `elt` in the circular interval from `start` to `end`, open at the start? */
  predicate Between(start: int, elt: int, end: int, inclusive: bool) {
    if end > start then
      (start < elt && elt < end) || (inclusive && elt == end)
    else
      start < elt || elt < end || (inclusive && elt == end)
  }

  predicate IsId(x: int) {
    0 <= x < HashMod()
  }

  /** How far `x` lies clockwise beyond the successor of `start`. */
  ghost function Dist(start: int, x: int): (d: nat)
    ensures d < HashMod()
  {
    Mod(x - start - 1)
  }

  lemma MulSign(q: int, m: int)
    requires m >= 1
    ensures q >= 1 ==> q * m >= m
    ensures q <= -1 ==> q * m <= -m
  {
    if q >= 1 {
      assert (q - 1) * m >= 0;
    } else if q <= -1 {
      assert (-q - 1) * m >= 0;
    }
  }

  /** A remainder is known by the quotient that leaves it in range. */
  lemma ModIs(x: int, m: int, q: int, rest: int)
    requires m >= 1 && x == q * m + rest && 0 <= rest < m
    ensures x % m == rest
  {
    var q', rest' := x / m, x % m;
    assert x == q' * m + rest';
    assert (q - q') * m == rest' - rest;
    MulSign(q - q', m);
  }

  lemma ModSmall(x: int, m: int)
    requires m >= 1 && -m <= x < m
    ensures x % m == if x >= 0 then x else x + m
  {
    if x >= 0 { ModIs(x, m, 0, x); } else { ModIs(x, m, -1, x + m); }
  }

  lemma ModTwice(x: int, m: int)
    requires m >= 1 && 0 <= x < 2 * m
    ensures x % m == if x < m then x else x - m
  {
    if x < m { ModIs(x, m, 0, x); } else { ModIs(x, m, 1, x - m); }
  }

  lemma {:induction false} DistCases(start: int, x: int)
    requires IsId(start) && IsId(x)
    ensures Dist(start, x) == if x > start then x - start - 1 else x - start - 1 + HashMod()
  {
    ModSmall(x - start - 1, HashMod());
  }

  /** The interval test is a comparison of clockwise distances. */
  lemma {:induction false} BetweenIsDist(start: int, elt: int, end: int)
    requires IsId(start) && IsId(elt) && IsId(end)
    ensures Between(start, elt, end, true) <==> Dist(start, elt) <= Dist(start, end)
    ensures Between(start, elt, end, false) <==> Dist(start, elt) < Dist(start, end)
  {
    DistCases(start, elt);
    DistCases(start, end);
  }

  // ---------------------------------------------------------------------------
  // Rings
  // ---------------------------------------------------------------------------

  /** The identifiers of the nodes, in ascending order. */
  ghost predicate IsRing(ids: seq<int>) {
    && |ids| >= 1
    && (forall i :: 0 <= i < |ids| ==> IsId(ids[i]))
    && (forall i, j :: 0 <= i < j < |ids| ==> ids[i] < ids[j])
  }

  /** The node after node `p` of `n`. */
  function Succ(n: nat, p: nat): (r: nat)
    requires p < n
    ensures r < n
  {
    if p + 1 == n then 0 else p + 1
  }

  /** Going `k` nodes clockwise from node `p`. */
  function Hop(n: nat, p: nat, k: nat): (r: nat)
    requires p < n
    ensures r < n
  {
    if k == 0 then p else Succ(n, Hop(n, p, k - 1))
  }

  function Pred(n: nat, p: nat): (r: nat)
    requires p < n
    ensures r < n
  {
    if p == 0 then n - 1 else p - 1
  }

  lemma {:induction false} HopSmall(n: nat, p: nat, k: nat)
    requires p < n && k <= n
    ensures Hop(n, p, k) == if p + k < n then p + k else p + k - n
  {
    if k > 0 { HopSmall(n, p, k - 1); }
  }

  lemma {:induction false} HopFromNext(n: nat, p: nat, k: nat)
    requires p < n
    ensures Hop(n, p, k + 1) == Hop(n, Succ(n, p), k)
  {
    if k > 0 { HopFromNext(n, p, k - 1); }
  }

  /** A whole lap leads back. */
  lemma {:induction false} HopLap(n: nat, p: nat, k: nat)
    requires p < n
    ensures Hop(n, p, k + n) == Hop(n, p, k)
  {
    if k == 0 { HopSmall(n, p, n); } else { HopLap(n, p, k - 1); }
  }

  lemma DistOfSelf(ids: seq<int>, p: nat)
    requires IsRing(ids) && p < |ids|
    ensures Hop(|ids|, p, |ids|) == p && Dist(ids[p], ids[p]) == HashMod() - 1
  {
    HopSmall(|ids|, p, |ids|);
    DistCases(ids[p], ids[p]);
  }

  /** Node `p` owns the identifiers from its predecessor's, exclusive, to its own. */
  ghost predicate Owns(ids: seq<int>, p: nat, key: int)
    requires p < |ids|
  {
    Between(ids[Pred(|ids|, p)], key, ids[p], true)
  }

  /** The first node at or after `key`, or else the first of all. */
  function OwnerFrom(ids: seq<int>, key: int, i: nat): nat
    requires i <= |ids|
    decreases |ids| - i
  {
    if i == |ids| then 0 else if key <= ids[i] then i else OwnerFrom(ids, key, i + 1)
  }

  lemma {:induction false} OwnerFromIs(ids: seq<int>, key: int, i: nat)
    requires IsRing(ids) && i <= |ids| && forall k :: 0 <= k < i ==> ids[k] < key
    ensures var o := OwnerFrom(ids, key, i);
      && o < |ids|
      && (if key <= ids[|ids| - 1] then key <= ids[o] && forall k :: 0 <= k < o ==> ids[k] < key else o == 0)
    decreases |ids| - i
  {
    if i < |ids| && key > ids[i] { OwnerFromIs(ids, key, i + 1); }
  }

  ghost function Owner(ids: seq<int>, key: int): (o: nat)
    requires IsRing(ids)
    ensures o < |ids|
  {
    OwnerFromIs(ids, key, 0);
    OwnerFrom(ids, key, 0)
  }

  /** Every identifier has exactly one owner. */
  lemma UniqueOwner(ids: seq<int>, key: int, p: nat)
    requires IsRing(ids) && IsId(key) && p < |ids|
    ensures Owns(ids, p, key) <==> p == Owner(ids, key)
  {
    OwnerFromIs(ids, key, 0);
    var o := Owner(ids, key);
    assert p == 0 || ids[p - 1] < ids[p];
    if key <= ids[|ids| - 1] {
      assert o == 0 || ids[o - 1] < key;
    }
    if p < o { assert ids[p] <= ids[o - 1]; }
    if o < p { assert ids[o] <= ids[p - 1]; }
  }

  /** Counting clockwise from node `p`, the owner of `key` is the first node at least as far as it. */
  lemma {:induction false} OwnerByDist(ids: seq<int>, p: nat, k: nat, key: int)
    requires IsRing(ids) && IsId(key) && p < |ids| && 1 <= k <= |ids|
    ensures Hop(|ids|, p, k) == Owner(ids, key) <==>
      && Dist(ids[p], key) <= Dist(ids[p], ids[Hop(|ids|, p, k)])
      && (1 < k ==> Dist(ids[p], ids[Hop(|ids|, p, k - 1)]) < Dist(ids[p], key))
  {
    var n := |ids|;
    var q := Hop(n, p, k);
    UniqueOwner(ids, key, q);
    HopSmall(n, p, k);
    HopSmall(n, p, k - 1);
    assert Pred(n, q) == Hop(n, p, k - 1);
    DistCases(ids[p], key);
    DistCases(ids[p], ids[q]);
    DistCases(ids[p], ids[Hop(n, p, k - 1)]);
  }

  /** The ring without node `q`, and where its other nodes stand then. */
  function Without<T>(ring: seq<T>, q: nat): seq<T>
    requires q < |ring|
  {
    ring[..q] + ring[q + 1..]
  }

  function Moved(q: nat, p: nat): nat
    requires p != q
  {
    if p < q then p else p - 1
  }

  lemma WithoutIsRing(ids: seq<int>, q: nat)
    requires IsRing(ids) && |ids| >= 2 && q < |ids|
    ensures IsRing(Without(ids, q))
    ensures forall p: nat :: p < |ids| && p != q ==> Moved(q, p) < |ids| - 1 && Without(ids, q)[Moved(q, p)] == ids[p]
  {
    var w := Without(ids, q);
    assert forall i :: 0 <= i < |w| ==> w[i] == if i < q then ids[i] else ids[i + 1];
  }

  /** Node `o` is the first at or after `key`, or the first of all if there is none. */
  ghost predicate FirstAt(ids: seq<int>, key: int, o: nat)
    requires o < |ids|
  {
    if key <= ids[|ids| - 1] then key <= ids[o] && (o > 0 ==> ids[o - 1] < key) else o == 0
  }

  lemma OwnerFirstAt(ids: seq<int>, key: int, o: nat)
    requires IsRing(ids) && o < |ids|
    ensures Owner(ids, key) == o <==> FirstAt(ids, key, o)
  {
    OwnerFromIs(ids, key, 0);
    var u := Owner(ids, key);
    assert u < o ==> ids[u] <= ids[o - 1];
  }

  /** Without node `q`, its successor owns what it owned, and everybody else what they owned. */
  lemma {:induction false} OwnerWithout(ids: seq<int>, q: nat, key: int)
    requires IsRing(ids) && |ids| >= 2 && q < |ids|
    ensures IsRing(Without(ids, q)) && Succ(|ids|, q) != q
    ensures var o := Owner(ids, key);
      Owner(Without(ids, q), key) == Moved(q, if o == q then Succ(|ids|, q) else o)
  {
    hide Owner, IsRing;
    WithoutIsRing(ids, q);
    var o := Owner(ids, key);
    var t := if o == q then Succ(|ids|, q) else o;
    OwnerFirstAt(ids, key, o);
    FirstWithout(ids, q, key, o, t);
    OwnerFirstAt(Without(ids, q), key, Moved(q, t));
  }

  lemma FirstWithout(ids: seq<int>, q: nat, key: int, o: nat, t: nat)
    requires IsRing(ids) && |ids| >= 2 && q < |ids| && o < |ids| && FirstAt(ids, key, o)
    requires t == if o == q then Succ(|ids|, q) else o
    ensures Moved(q, t) < |ids| - 1 && FirstAt(Without(ids, q), key, Moved(q, t))
  {
    var w, n := Without(ids, q), |ids|;
    assert forall i :: 0 <= i < |w| ==> w[i] == if i < q then ids[i] else ids[i + 1];
    assert w[|w| - 1] == if q == n - 1 then ids[n - 2] else ids[n - 1];
    assert ids[n - 2] < ids[n - 1];
    if q > 0 { assert ids[q - 1] < ids[q]; }
    if q + 1 < n { assert ids[q] < ids[q + 1]; }
    if o + 1 < n { assert o != n - 1; assert ids[o] <= ids[n - 2]; }
  }
}

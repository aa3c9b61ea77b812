/** Fixed-size bitsets over 64-bit words (porcupine/bitset.go), refined to finite sets of ids.

    A word is its 64 bits, least significant first, and the bitwise operators work bit by bit.  A
    bitset is an array of words; bit `pos % 64` of word `pos / 64` says whether `pos` is in. */
module Bitset {

  type Word = w: seq<bool> | |w| == 64 witness seq(64, _ => false)

  const ZERO: Word := seq(64, _ => false)

  function OneShifted(k: nat): Word { seq(64, i => i == k) }

  function Or(v: Word, w: Word): Word { seq(64, i requires 0 <= i < 64 => v[i] || w[i]) }

  function AndNot(v: Word, w: Word): Word { seq(64, i requires 0 <= i < 64 => v[i] && !w[i]) }

  function And(v: Word, w: Word): Word { seq(64, i requires 0 <= i < 64 => v[i] && w[i]) }

  function Xor(v: Word, w: Word): Word { seq(64, i requires 0 <= i < 64 => v[i] != w[i]) }

  /** The low 64 bits of a number. */
  function ToWord(n: nat): Word { Digits(n, 64) }

  function Digits(n: nat, k: nat): (r: seq<bool>)
    ensures |r| == k
  {
    if k == 0 then [] else [n % 2 == 1] + Digits(n / 2, k - 1)
  }

  function OnesCount(w: Word): nat {
    |set k: nat | k < 64 && w[k]|
  }

  // ---------------------------------------------------------------------------
  // Bitsets as sets
  // ---------------------------------------------------------------------------

  function Elems(b: seq<Word>): set<nat> {
    set i: nat | i < 64 * |b| && b[i / 64][i % 64]
  }

  /** Bitsets of one size are equal exactly when they hold the same ids. */
  lemma ElemsExtensional(a: seq<Word>, b: seq<Word>)
    requires |a| == |b|
    ensures a == b <==> Elems(a) == Elems(b)
  {
    if Elems(a) == Elems(b) {
      forall c, j: nat | 0 <= c < |a| && j < 64 ensures a[c][j] == b[c][j] {
        var i := 64 * c + j;
        assert i / 64 == c && i % 64 == j;
        assert i in Elems(a) <==> a[c][j];
        assert i in Elems(b) <==> b[c][j];
      }
      forall c | 0 <= c < |a| ensures a[c] == b[c] {
      }
    }
  }

  lemma ElemsUpdate(b: seq<Word>, pos: nat)
    requires pos < 64 * |b|
    ensures Elems(b[pos / 64 := Or(b[pos / 64], OneShifted(pos % 64))]) == Elems(b) + {pos}
    ensures Elems(b[pos / 64 := AndNot(b[pos / 64], OneShifted(pos % 64))]) == Elems(b) - {pos}
  {
    forall i: nat | i < 64 * |b| && i / 64 == pos / 64 && i % 64 == pos % 64 ensures i == pos {
    }
  }

  method NewBitset(bits: nat) returns (b: array<Word>)
    ensures fresh(b) && bits <= 64 * b.Length < bits + 64
    ensures Elems(b[..]) == {}
  {
    var extra := 0;
    if bits % 64 != 0 {
      extra := 1;
    }
    b := new Word[bits / 64 + extra](_ => ZERO);
  }

  method Clone(b: array<Word>) returns (c: array<Word>)
    ensures fresh(c) && c[..] == b[..]
  {
    c := new Word[b.Length](i requires 0 <= i < b.Length reads b => b[i]);
  }

  method Set(b: array<Word>, pos: nat)
    requires pos < 64 * b.Length
    modifies b
    ensures Elems(b[..]) == old(Elems(b[..])) + {pos}
  {
    ElemsUpdate(b[..], pos);
    var major, minor := pos / 64, pos % 64;
    b[major] := Or(b[major], OneShifted(minor));
    assert b[..] == old(b[..])[major := Or(old(b[major]), OneShifted(minor))];
  }

  method Clear(b: array<Word>, pos: nat)
    requires pos < 64 * b.Length
    modifies b
    ensures Elems(b[..]) == old(Elems(b[..])) - {pos}
  {
    ElemsUpdate(b[..], pos);
    var major, minor := pos / 64, pos % 64;
    b[major] := AndNot(b[major], OneShifted(minor));
    assert b[..] == old(b[..])[major := AndNot(old(b[major]), OneShifted(minor))];
  }

  method Get(b: array<Word>, pos: nat) returns (r: bool)
    requires pos < 64 * b.Length
    ensures r <==> pos in Elems(b[..])
  {
    var major, minor := pos / 64, pos % 64;
    var w := And(b[major], OneShifted(minor));
    assert w[minor] == b[major][minor];
    r := w != ZERO;
  }

  // ---------------------------------------------------------------------------
  // Counting, hashing and comparing
  // ---------------------------------------------------------------------------

  lemma {:induction false} ShiftedCard(s: set<nat>, d: nat)
    ensures |set k | k in s :: k + d| == |s|
  {
    if s != {} {
      var x :| x in s;
      ShiftedCard(s - {x}, d);
      var t := set k | k in s - {x} :: k + d;
      var u := set k | k in s :: k + d;
      forall y | y in u ensures y in t + {x + d} {
        var k :| k in s && y == k + d;
        assert k != x ==> k in s - {x};
      }
      assert x + d in u;
      assert u == t + {x + d};
    }
  }

  lemma InElems(b: seq<Word>, c: nat, k: nat)
    requires c < |b| && k < 64
    ensures 64 * c + k in Elems(b) <==> b[c][k]
  {
    var i := 64 * c + k;
    assert i / 64 == c && i % 64 == k;
  }

  lemma ElemsBelow(b: seq<Word>)
    ensures forall i :: i in Elems(b) ==> i < 64 * |b|
  {
  }

  lemma ElemsSnoc(b: seq<Word>, w: Word)
    ensures |Elems(b + [w])| == |Elems(b)| + OnesCount(w)
  {
    hide Elems;
    var ones := set k: nat | k < 64 && w[k];
    var moved := set k | k in ones :: k + 64 * |b|;
    ShiftedCard(ones, 64 * |b|);
    var all := b + [w];
    ElemsBelow(all);
    ElemsBelow(b);
    forall i: nat | i < 64 * |b| ensures i in Elems(all) <==> i in Elems(b) {
      InElems(all, i / 64, i % 64);
      InElems(b, i / 64, i % 64);
    }
    forall k: nat | k < 64 ensures 64 * |b| + k in Elems(all) <==> k in ones {
      InElems(all, |b|, k);
    }
    LowAndHigh(Elems(all), Elems(b), ones, 64 * |b|);
    assert Elems(b) !! moved;
  }

  /** A set split at `d` into a low part and a high part of 64. */
  lemma LowAndHigh(all: set<nat>, low: set<nat>, ones: set<nat>, d: nat)
    requires (forall i :: i in all ==> i < d + 64) && (forall i :: i in low ==> i < d)
    requires (forall k :: k in ones ==> k < 64) && (forall i: nat :: i < d ==> (i in all <==> i in low))
    requires forall k: nat :: k < 64 ==> (d + k in all <==> k in ones)
    ensures all == low + set k | k in ones :: k + d
  {
    var moved := set k | k in ones :: k + d;
    forall i: nat ensures i in all <==> i in low + moved {
      if d <= i < d + 64 {
        var k := i - d;
        assert d + k in all <==> k in ones;
        assert k in ones <==> i in moved;
      }
    }
  }

  method Popcnt(b: array<Word>) returns (total: nat)
    ensures total == |Elems(b[..])|
  {
    total := 0;
    for i := 0 to b.Length
      invariant total == |Elems(b[..i])|
    {
      ElemsSnoc(b[..i], b[i]);
      assert b[..i] + [b[i]] == b[..i + 1];
      total := total + OnesCount(b[i]);
    }
    assert b[..b.Length] == b[..];
  }

  function XorAll(seed: Word, b: seq<Word>): Word {
    if b == [] then seed else Xor(XorAll(seed, b[..|b| - 1]), b[|b| - 1])
  }

  /** The hash of a bitset: its cardinality, as a word, xor all its words. */
  function HashOf(b: seq<Word>): Word {
    XorAll(ToWord(|Elems(b)|), b)
  }

  /** The number that a sequence of bits stands for, least significant first. */
  function Value(bits: seq<bool>): nat {
    if bits == [] then 0 else (if bits[0] then 1 else 0) + 2 * Value(bits[1..])
  }

  function TwoTo(k: nat): nat {
    if k == 0 then 1 else 2 * TwoTo(k - 1)
  }

  /** A number that fits is the value of its digits. */
  lemma {:induction false} DigitsValue(n: nat, k: nat)
    requires n < TwoTo(k)
    ensures Value(Digits(n, k)) == n
  {
    if k > 0 {
      DigitsValue(n / 2, k - 1);
      assert Digits(n, k)[1..] == Digits(n / 2, k - 1);
    }
  }

  ghost function WordsWith(b: seq<Word>, k: nat): set<nat>
    requires k < 64
  {
    set c: nat | c < |b| && b[c][k]
  }

  lemma {:induction false} XorAllBit(seed: Word, b: seq<Word>, k: nat)
    requires k < 64
    ensures XorAll(seed, b)[k] <==> seed[k] != (|WordsWith(b, k)| % 2 == 1)
  {
    hide WordsWith;
    WordsWithSnoc(b, k);
    if b != [] {
      var n := |b| - 1;
      XorAllBit(seed, b[..n], k);
      assert XorAll(seed, b)[k] == (XorAll(seed, b[..n])[k] != b[n][k]);
    }
  }

  lemma WordsWithSnoc(b: seq<Word>, k: nat)
    requires k < 64
    ensures b == [] ==> |WordsWith(b, k)| == 0
    ensures b != [] ==> |WordsWith(b, k)| == |WordsWith(b[..|b| - 1], k)| + if b[|b| - 1][k] then 1 else 0
  {
    if b == [] {
      assert WordsWith(b, k) == {};
    } else {
      var n := |b| - 1;
      var before := b[..n];
      assert forall c :: 0 <= c < n ==> before[c] == b[c];
      assert WordsWith(b, k) == WordsWith(before, k) + if b[n][k] then {n} else {};
    }
  }

  /** Bit by bit: a bit of the hash says whether the same bit of the cardinality differs from the parity of
      the words that have that bit. */
  lemma HashBits(b: seq<Word>, k: nat, card: Word)
    requires k < 64 && |Elems(b)| < TwoTo(64) && card == Digits(|Elems(b)|, 64)
    ensures Value(card) == |Elems(b)|
    ensures HashOf(b)[k] <==> card[k] != (|WordsWith(b, k)| % 2 == 1)
  {
    hide Digits, Elems;
    DigitsValue(|Elems(b)|, 64);
    XorAllBit(ToWord(|Elems(b)|), b, k);
  }

  method Hash(b: array<Word>) returns (hash: Word)
    ensures hash == HashOf(b[..])
  {
    var count := Popcnt(b);
    hash := ToWord(count);
    for i := 0 to b.Length
      invariant hash == XorAll(ToWord(count), b[..i])
    {
      assert b[..i + 1][..i] == b[..i];
      hash := Xor(hash, b[i]);
    }
    assert b[..b.Length] == b[..];
  }

  method Equals(a: array<Word>, b: seq<Word>) returns (r: bool)
    ensures r <==> a.Length == |b| && Elems(a[..]) == Elems(b)
  {
    if a.Length != |b| {
      return false;
    }
    ElemsExtensional(a[..], b);
    for i := 0 to a.Length
      invariant a[..i] == b[..i]
    {
      if a[i] != b[i] {
        return false;
      }
    }
    return true;
  }
}

/** makeEntries (porcupine/checker.go): operations with real call and return times become a list of
    entries sorted by time, calls before returns on a tie. */
module TimedEntries {
  import opened Histories
  import opened Entries

  /** The order of byTime. */
  predicate Less<I, O>(a: Entry<I, O>, b: Entry<I, O>) {
    if a.time != b.time then a.time < b.time else a.CallEntry? && b.ReturnEntry?
  }

  ghost predicate Sorted<I, O>(s: seq<Entry<I, O>>) {
    forall i, j :: 0 <= i < j < |s| ==> !Less(s[j], s[i])
  }

  function CallOf<I, O>(history: seq<Operation<I, O>>, x: nat): Entry<I, O>
    requires x < |history|
  {
    CallEntry(history[x].input, x, history[x].call, history[x].clientId)
  }

  function RetOf<I, O>(history: seq<Operation<I, O>>, x: nat): Entry<I, O>
    requires x < |history|
  {
    ReturnEntry(history[x].output, x, history[x].ret, history[x].clientId)
  }

  /** Some sorted permutation; callers rely on nothing else about it. */
  method SortByTime<I, O>(s: seq<Entry<I, O>>) returns (r: seq<Entry<I, O>>)
    ensures multiset(r) == multiset(s) && Sorted(r)
  {
    r := [];
    for i := 0 to |s|
      invariant multiset(r) == multiset(s[..i]) && Sorted(r)
    {
      var k := 0;
      while k < |r| && !Less(s[i], r[k])
        invariant k <= |r| && forall j :: 0 <= j < k ==> !Less(s[i], r[j])
      {
        k := k + 1;
      }
      InsertSorted(r, k, s[i]);
      assert s[..i + 1] == s[..i] + [s[i]];
      assert r == r[..k] + r[k..];
      r := r[..k] + [s[i]] + r[k..];
    }
    assert s[..|s|] == s;
  }

  lemma InsertSorted<I, O>(r: seq<Entry<I, O>>, k: nat, e: Entry<I, O>)
    requires Sorted(r) && k <= |r|
    requires forall j :: 0 <= j < k ==> !Less(e, r[j])
    requires k < |r| ==> Less(e, r[k])
    ensures Sorted(r[..k] + [e] + r[k..])
  {
    forall j | k <= j < |r| ensures !Less(r[j], e) {
      assert j == k || !Less(r[j], r[k]);
    }
  }

  // ---------------------------------------------------------------------------
  // The entries of a history
  // ---------------------------------------------------------------------------

  /** The call and return entries of all operations, each exactly once, in some order. */
  ghost predicate AllEntries<I, O>(history: seq<Operation<I, O>>, s: seq<Entry<I, O>>) {
    && |s| == 2 * |history|
    && (forall p :: 0 <= p < |s| ==>
          s[p].id < |history| && s[p] == if s[p].CallEntry? then CallOf(history, s[p].id) else RetOf(history, s[p].id))
    && (forall p, q :: 0 <= p < q < |s| ==> s[p] != s[q])
    && (forall x: nat :: x < |history| ==> CallOf(history, x) in s && RetOf(history, x) in s)
  }

  lemma PermutedEntries<I, O>(history: seq<Operation<I, O>>, s: seq<Entry<I, O>>, r: seq<Entry<I, O>>)
    requires AllEntries(history, s) && multiset(r) == multiset(s)
    ensures AllEntries(history, r)
  {
    forall p | 0 <= p < |r| ensures r[p] in s {
      assert r[p] in multiset(r);
    }
    forall e | e in s ensures e in r {
      assert e in multiset(s);
    }
    assert |r| == |multiset(r)| == |s|;
    forall p, q | 0 <= p < q < |r| ensures r[p] != r[q] {
      NoRepeatCount(s, r[p]);
      RepeatCount(r, p, q);
    }
  }

  lemma {:induction false} NoRepeatCount<T>(s: seq<T>, e: T)
    requires forall p, q :: 0 <= p < q < |s| ==> s[p] != s[q]
    ensures multiset(s)[e] <= 1
  {
    if s != [] {
      var k := |s| - 1;
      assert s == s[..k] + [s[k]];
      NoRepeatCount(s[..k], e);
      if e == s[k] { assert e !in s[..k]; }
    }
  }

  lemma RepeatCount<T>(s: seq<T>, p: nat, q: nat)
    requires p < q < |s|
    ensures s[p] == s[q] ==> multiset(s)[s[p]] >= 2
  {
    assert s == s[..q] + [s[q]] + s[q + 1..];
    assert s[p] in s[..q];
  }

  /** Where an entry stands, as the checker looks it up. */
  lemma PositionOf<I, O>(history: seq<Operation<I, O>>, s: seq<Entry<I, O>>, x: nat)
    requires AllEntries(history, s) && x < |history|
    ensures CallPos(s, x) < |s| && s[CallPos(s, x)] == CallOf(history, x)
    ensures RetPos(s, x) < |s| && s[RetPos(s, x)] == RetOf(history, x)
  {
    var p :| 0 <= p < |s| && s[p] == CallOf(history, x);
    var q :| 0 <= q < |s| && s[q] == RetOf(history, x);
    assert Matches(s[p], true, x) && Matches(s[q], false, x);
  }

  /** On sorted entries, positions order calls and returns as their times do. */
  lemma PositionsFollowTime<I, O>(history: seq<Operation<I, O>>, s: seq<Entry<I, O>>, x: nat, y: nat)
    requires AllEntries(history, s) && Sorted(s) && x < |history| && y < |history|
    ensures RetPos(s, x) < CallPos(s, y) <==> Precedes(history[x], history[y])
  {
    hide AllEntries, CallPos, RetPos;
    PositionOf(history, s, x);
    PositionOf(history, s, y);
    var r, c := RetPos(s, x), CallPos(s, y);
    assert r != c;
    assert r < c ==> !Less(s[c], s[r]);
    assert c < r ==> !Less(s[r], s[c]);
  }

  /** Sorted entries are a well-formed history exactly when no operation returns before its call,
      and then they have the same inputs, outputs and real-time order as the operations. */
  lemma EntriesFaithful<I, O>(history: seq<Operation<I, O>>, s: seq<Entry<I, O>>)
    requires AllEntries(history, s) && Sorted(s)
    ensures WellFormed(s) <==> WellTimed(history)
    ensures WellTimed(history) ==> SameHistory(history, OpsOf(s))
  {
    forall x: nat | x < |history| ensures CallPos(s, x) < RetPos(s, x) < |s| <==> history[x].call <= history[x].ret {
      PositionOf(history, s, x);
      PositionsFollowTime(history, s, x, x);
    }
    if WellTimed(history) {
      EntriesWellFormed(history, s);
      var ops := OpsOf(s);
      forall x: nat, y: nat | x < |history| && y < |history|
        ensures Precedes(history[x], history[y]) <==> Precedes(ops[x], ops[y])
        ensures history[x].input == ops[x].input && history[x].output == ops[x].output
      {
        PositionOf(history, s, x);
        PositionsFollowTime(history, s, x, y);
      }
    }
  }

  lemma EntriesWellFormed<I, O>(history: seq<Operation<I, O>>, s: seq<Entry<I, O>>)
    requires AllEntries(history, s)
    requires forall x: nat :: x < |history| ==> CallPos(s, x) < RetPos(s, x) < |s|
    ensures WellFormed(s)
  {
    forall p | 0 <= p < |s|
      ensures p == if s[p].CallEntry? then CallPos(s, s[p].id) else RetPos(s, s[p].id)
    {
      PositionOf(history, s, s[p].id);
    }
  }

  method MakeEntries<I, O>(history: seq<Operation<I, O>>) returns (entries: seq<Entry<I, O>>)
    ensures AllEntries(history, entries) && Sorted(entries)
    ensures WellFormed(entries) <==> WellTimed(history)
    ensures WellTimed(history) ==> SameHistory(history, OpsOf(entries))
  {
    hide AllEntries, Sorted, WellFormed, WellTimed, SameHistory;
    entries := [];
    var id: nat := 0;
    for i := 0 to |history|
      invariant id == i && entries == Raw(history, i)
    {
      var elem := history[i];
      entries := entries + [CallEntry(elem.input, id, elem.call, elem.clientId)];
      entries := entries + [ReturnEntry(elem.output, id, elem.ret, elem.clientId)];
      id := id + 1;
    }
    RawEntries(history);
    var sorted := SortByTime(entries);
    PermutedEntries(history, entries, sorted);
    entries := sorted;
    EntriesFaithful(history, entries);
  }

  /** The entries in the order in which they are appended, before sorting. */
  ghost function Raw<I, O>(history: seq<Operation<I, O>>, i: nat): (s: seq<Entry<I, O>>)
    requires i <= |history|
    ensures |s| == 2 * i
  {
    if i == 0 then [] else Raw(history, i - 1) + [CallOf(history, i - 1)] + [RetOf(history, i - 1)]
  }

  lemma {:induction false} RawAt<I, O>(history: seq<Operation<I, O>>, i: nat, p: nat)
    requires p < 2 * i <= 2 * |history|
    ensures Raw(history, i)[p] == if p % 2 == 0 then CallOf(history, p / 2) else RetOf(history, p / 2)
    decreases i
  {
    if p < 2 * (i - 1) { RawAt(history, i - 1, p); }
  }

  lemma {:induction false} RawEntries<I, O>(history: seq<Operation<I, O>>)
    ensures AllEntries(history, Raw(history, |history|))
  {
    hide Raw, AllEntries;
    var s := Raw(history, |history|);
    forall p: nat | p < |s| ensures s[p] == if p % 2 == 0 then CallOf(history, p / 2) else RetOf(history, p / 2) {
      RawAt(history, |history|, p);
    }
    AlternatingEntries(history, s);
  }

  lemma AlternatingEntries<I, O>(history: seq<Operation<I, O>>, s: seq<Entry<I, O>>)
    requires |s| == 2 * |history|
    requires forall p: nat :: p < |s| ==> s[p] == if p % 2 == 0 then CallOf(history, p / 2) else RetOf(history, p / 2)
    ensures AllEntries(history, s)
  {
    forall x: nat | x < |history| ensures CallOf(history, x) in s && RetOf(history, x) in s {
      assert s[2 * x] == CallOf(history, x) && s[2 * x + 1] == RetOf(history, x);
    }
  }
}

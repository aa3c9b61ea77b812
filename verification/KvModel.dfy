/** The key-value model of models/kv.go: Step over a single key's string, Partition by key, and the
    locality theorem that justifies it: a history of gets, puts and appends over many keys is
    linearizable against a whole map exactly when each key's operations are against one string. */
module KvModel {
  import opened Options
  import opened Histories
  import opened Strings

  type Byte = x: nat | x < 256

  /** Op 0 is a get, 1 a put, anything else an append. */
  datatype KvInput = KvInput(op: Byte, key: string, value: string)
  datatype KvOutput = KvOutput(value: string)

  type KvOp = Operation<KvInput, KvOutput>

  function KvStep(st: string, inp: KvInput, out: KvOutput): (bool, string) {
    if inp.op == 0 then (out.value == st, st)
    else if inp.op == 1 then (true, inp.value)
    else (true, st + inp.value)
  }

  function SingleKey(): Model<string, KvInput, KvOutput> {
    Model("", KvStep, (a, b) => a == b)
  }

  lemma SingleKeySoundEqual()
    ensures SoundEqual(SingleKey())
  {
  }

  // The store that the partitioned model stands for: a map in which every key starts out empty.

  type Store = map<string, string>

  function Lookup(m: Store, key: string): string {
    if key in m then m[key] else ""
  }

  function StoreStep(m: Store, inp: KvInput, out: KvOutput): (bool, Store) {
    if inp.op == 0 then (Lookup(m, inp.key) == out.value, m)
    else if inp.op == 1 then (true, m[inp.key := inp.value])
    else (true, m[inp.key := Lookup(m, inp.key) + inp.value])
  }

  function WholeStore(): Model<Store, KvInput, KvOutput> {
    Model(map[], StoreStep, (a, b) => a == b)
  }

  /** A store step is the single-key step at its key and leaves all other keys alone. */
  lemma StoreStepByKey(m: Store, inp: KvInput, out: KvOutput, key: string)
    ensures StoreStep(m, inp, out).0 == KvStep(Lookup(m, inp.key), inp, out).0
    ensures StoreStep(m, inp, out).0 ==>
      Lookup(StoreStep(m, inp, out).1, key) ==
      if key == inp.key then KvStep(Lookup(m, key), inp, out).1 else Lookup(m, key)
  {
  }

  // ---------------------------------------------------------------------------
  // What gets return in an order that the store accepts
  // ---------------------------------------------------------------------------

  /** The values that the operations in the given order append under a key, one after the other. */
  ghost function Appended(history: seq<KvOp>, order: seq<nat>, key: string): string
    requires InRange(order, |history|)
  {
    if order == [] then ""
    else
      var inp := history[order[0]].input;
      (if inp.key == key && inp.op > 1 then inp.value else "") + Appended(history, order[1..], key)
  }

  ghost predicate NoPut(history: seq<KvOp>, order: seq<nat>, key: string)
    requires InRange(order, |history|)
  {
    forall i :: 0 <= i < |order| && history[order[i]].input.key == key ==> history[order[i]].input.op != 1
  }

  /** Operations without a put append to what is held under a key, in order, and otherwise leave it alone. */
  lemma {:induction false} RunAppends(history: seq<KvOp>, m: Store, order: seq<nat>, key: string)
    requires InRange(order, |history|) && NoPut(history, order, key) && Run(WholeStore(), history, m, order).Some?
    ensures Lookup(Run(WholeStore(), history, m, order).value, key) == Lookup(m, key) + Appended(history, order, key)
    decreases |order|
  {
    hide StoreStep, Lookup;
    if order != [] {
      var rest, op := order[1..], history[order[0]];
      assert NoPut(history, rest, key);
      assert op.input.key == key ==> op.input.op != 1;
      StepLeaves(m, op.input, op.output, key);
      var m' := StoreStep(m, op.input, op.output).1;
      RunAppends(history, m', rest, key);
      var added := if op.input.key == key && op.input.op > 1 then op.input.value else "";
      assert Lookup(m', key) == Lookup(m, key) + added;
      assert (Lookup(m, key) + added) + Appended(history, rest, key) ==
             Lookup(m, key) + (added + Appended(history, rest, key));
    }
  }

  lemma {:induction false} RunParts(history: seq<KvOp>, m: Store, order: seq<nat>, n: nat)
    requires InRange(order, |history|) && n <= |order| && Run(WholeStore(), history, m, order).Some?
    ensures Run(WholeStore(), history, m, order[..n]).Some?
    ensures Run(WholeStore(), history, m, order) ==
            Run(WholeStore(), history, Run(WholeStore(), history, m, order[..n]).value, order[n..])
    decreases n
  {
    if n == 0 {
      assert order[0..] == order;
    } else {
      var m' := StoreStep(m, history[order[0]].input, history[order[0]].output).1;
      RunParts(history, m', order[1..], n - 1);
      assert order[1..][..n - 1] == order[..n][1..] && order[1..][n - 1..] == order[n..];
    }
  }

  /** In an accepted order, a get returns the value of the last put of its key, followed by the values
      appended since, in the order of the appends. */
  lemma GetAfterPut(history: seq<KvOp>, order: seq<nat>, p: nat, n: nat)
    requires InRange(order, |history|) && Run(WholeStore(), history, map[], order).Some? && p < n < |order|
    requires var put, get := history[order[p]].input, history[order[n]].input;
      put.op == 1 && get.op == 0 && get.key == put.key && NoPut(history, order[p + 1..n], put.key)
    ensures history[order[n]].output.value ==
            history[order[p]].input.value + Appended(history, order[p + 1..n], history[order[p]].input.key)
  {
    hide Appended, NoPut;
    var key := history[order[p]].input.key;
    RunParts(history, map[], order, n);
    var before := order[..n];
    RunParts(history, map[], before, p);
    var m := Run(WholeStore(), history, map[], before[..p]).value;
    assert before[p..][1..] == order[p + 1..n];
    var op := history[order[p]];
    var m' := StoreStep(m, op.input, op.output).1;
    assert Lookup(m', key) == op.input.value;
    RunAppends(history, m', order[p + 1..n], key);
  }

  /** Before any put of its key, a get returns just the values appended so far: keys start out empty. */
  lemma GetBeforePut(history: seq<KvOp>, order: seq<nat>, n: nat)
    requires InRange(order, |history|) && Run(WholeStore(), history, map[], order).Some? && n < |order|
    requires history[order[n]].input.op == 0 && NoPut(history, order[..n], history[order[n]].input.key)
    ensures history[order[n]].output.value == Appended(history, order[..n], history[order[n]].input.key)
  {
    hide Appended, NoPut;
    RunParts(history, map[], order, n);
    RunAppends(history, map[], order[..n], history[order[n]].input.key);
  }

  /** What the operations in the given order leave under a key, read off from the last one back. */
  ghost function Held(history: seq<KvOp>, order: seq<nat>, key: string): string
    requires InRange(order, |history|)
  {
    if order == [] then ""
    else
      var inp, before := history[order[|order| - 1]].input, Held(history, order[..|order| - 1], key);
      if inp.key != key || inp.op == 0 then before else if inp.op == 1 then inp.value else before + inp.value
  }

  lemma {:induction false} RunSnoc(history: seq<KvOp>, m: Store, order: seq<nat>)
    requires InRange(order, |history|) && order != []
    ensures var n := |order| - 1; var r, op := Run(WholeStore(), history, m, order[..n]), history[order[n]];
      Run(WholeStore(), history, m, order) ==
      if r.Some? && StoreStep(r.value, op.input, op.output).0
      then Some(StoreStep(r.value, op.input, op.output).1) else None
    decreases |order|
  {
    hide StoreStep;
    var n := |order| - 1;
    if n > 0 {
      var op := history[order[0]];
      var (ok, m') := StoreStep(m, op.input, op.output);
      RunSnoc(history, m', order[1..]);
      assert order[1..][..n - 1] == order[..n][1..] && order[1..][n - 1] == order[n];
    } else {
      assert order[1..] == [];
    }
  }

  /** Every get in the order returns what is held under its key at that point. */
  ghost predicate GetsRight(history: seq<KvOp>, order: seq<nat>)
    requires InRange(order, |history|)
  {
    forall n :: 0 <= n < |order| ==> GetRight(history, order, n)
  }

  ghost predicate GetRight(history: seq<KvOp>, order: seq<nat>, n: nat)
    requires InRange(order, |history|) && n < |order|
  {
    var op := history[order[n]];
    op.input.op == 0 ==> op.output.value == Held(history, order[..n], op.input.key)
  }

  /** The store accepts exactly the orders in which every get is right, and then holds what they leave. */
  lemma {:induction false} AcceptedExactly(history: seq<KvOp>, order: seq<nat>)
    requires InRange(order, |history|)
    ensures Run(WholeStore(), history, map[], order).Some? <==> GetsRight(history, order)
    ensures Run(WholeStore(), history, map[], order).Some? ==>
      forall key :: Lookup(Run(WholeStore(), history, map[], order).value, key) == Held(history, order, key)
    decreases |order|
  {
    hide StoreStep, Held, Lookup, GetsRight;
    if order == [] {
      NothingHeld(history, order);
    } else {
      var n := |order| - 1;
      var before := order[..n];
      AcceptedExactly(history, before);
      RunSnoc(history, map[], order);
      GetsRightSnoc(history, order);
      if GetsRight(history, before) {
        StepHolds(history, Run(WholeStore(), history, map[], before).value, order);
      }
    }
  }

  lemma NothingHeld(history: seq<KvOp>, order: seq<nat>)
    requires order == []
    ensures GetsRight(history, order) && forall key :: Lookup(map[], key) == Held(history, order, key)
  {
  }

  lemma GetsRightSnoc(history: seq<KvOp>, order: seq<nat>)
    requires InRange(order, |history|) && order != []
    ensures var n := |order| - 1;
      GetsRight(history, order) <==> GetsRight(history, order[..n]) && GetRight(history, order, n)
  {
    hide GetRight;
    var n := |order| - 1;
    var before := order[..n];
    forall k | 0 <= k < n ensures GetRight(history, before, k) <==> GetRight(history, order, k) {
      SameGet(history, before, order, k);
    }
  }

  lemma SameGet(history: seq<KvOp>, a: seq<nat>, b: seq<nat>, k: nat)
    requires InRange(a, |history|) && InRange(b, |history|) && k < |a| <= |b| && a == b[..|a|]
    ensures GetRight(history, a, k) <==> GetRight(history, b, k)
  {
    hide Held;
    assert a[k] == b[k] && a[..k] == b[..k];
  }

  lemma StepHolds(history: seq<KvOp>, m: Store, order: seq<nat>)
    requires InRange(order, |history|) && order != []
    requires forall key :: Lookup(m, key) == Held(history, order[..|order| - 1], key)
    ensures var op := history[order[|order| - 1]]; var (ok, m') := StoreStep(m, op.input, op.output);
      && (ok <==> (op.input.op == 0 ==>
            op.output.value == Held(history, order[..|order| - 1], op.input.key)))
      && (ok ==> forall key :: Lookup(m', key) == Held(history, order, key))
  {
    hide StoreStep, Lookup, Held;
    var n := |order| - 1;
    var op, before := history[order[n]], order[..n];
    assert Lookup(m, op.input.key) == Held(history, before, op.input.key);
    StepAccepts(m, op.input, op.output);
    var m' := StoreStep(m, op.input, op.output).1;
    forall key ensures StoreStep(m, op.input, op.output).0 ==> Lookup(m', key) == Held(history, order, key) {
      assert Lookup(m, key) == Held(history, before, key);
      StepLeaves(m, op.input, op.output, key);
      HeldSnoc(history, order, key);
    }
  }

  lemma StepAccepts(m: Store, inp: KvInput, out: KvOutput)
    ensures StoreStep(m, inp, out).0 <==> (inp.op == 0 ==> out.value == Lookup(m, inp.key))
  {
  }

  lemma StepLeaves(m: Store, inp: KvInput, out: KvOutput, key: string)
    ensures Lookup(StoreStep(m, inp, out).1, key) ==
      if inp.key != key || inp.op == 0 then Lookup(m, key)
      else if inp.op == 1 then inp.value else Lookup(m, key) + inp.value
  {
  }

  lemma HeldSnoc(history: seq<KvOp>, order: seq<nat>, key: string)
    requires InRange(order, |history|) && order != []
    ensures var inp, before := history[order[|order| - 1]].input, Held(history, order[..|order| - 1], key);
      Held(history, order, key) ==
      if inp.key != key || inp.op == 0 then before else if inp.op == 1 then inp.value else before + inp.value
  {
  }

  // ---------------------------------------------------------------------------
  // Partition
  // ---------------------------------------------------------------------------

  /** The operations on one key, in history order. */
  function ForKey(history: seq<KvOp>, key: string): seq<KvOp> {
    if history == [] then []
    else
      var n := |history| - 1;
      ForKey(history[..n], key) + if history[n].input.key == key then [history[n]] else []
  }

  ghost function Keys(history: seq<KvOp>): set<string> {
    set x | 0 <= x < |history| :: history[x].input.key
  }

  /** The operations of every key that occurs, appended in history order. */
  method GroupByKey(history: seq<KvOp>) returns (m: map<string, seq<KvOp>>)
    ensures m.Keys == Keys(history)
    ensures forall k :: k in m ==> m[k] == ForKey(history, k)
  {
    hide Keys, ForKey;
    m := map[];
    GroupNone();
    for i := 0 to |history|
      invariant m.Keys == Keys(history[..i]) && GroupsSoFar(history[..i], m)
    {
      var key := history[i].input.key;
      KeysSnoc(history, i);
      ForKeySnoc(history, i);
      m := m[key := (if key in m then m[key] else []) + [history[i]]];
    }
    assert history[..|history|] == history;
  }

  ghost predicate GroupsSoFar(history: seq<KvOp>, m: map<string, seq<KvOp>>) {
    forall k :: ForKey(history, k) == if k in m then m[k] else []
  }

  lemma GroupNone()
    ensures Keys([]) == {} && GroupsSoFar([], map[])
  {
  }

  lemma ForKeySnoc(history: seq<KvOp>, i: nat)
    requires i < |history|
    ensures forall k ::
      ForKey(history[..i + 1], k) == ForKey(history[..i], k) + if k == history[i].input.key then [history[i]] else []
  {
    assert history[..i + 1][..i] == history[..i];
  }

  /** The keys of a map in whatever order iteration gives them, then sorted. */
  method SortedKeys(all: set<string>) returns (keys: seq<string>)
    ensures Ascending(keys) && forall k :: k in keys <==> k in all
  {
    var unsorted: seq<string> := [];
    var left := all;
    while left != {}
      invariant forall i, j :: 0 <= i < j < |unsorted| ==> unsorted[i] != unsorted[j]
      invariant forall k :: k in all <==> k in left || k in unsorted
      invariant forall k :: k in left ==> k !in unsorted
      decreases left
    {
      var k :| k in left;
      left := left - {k};
      unsorted := unsorted + [k];
    }
    keys := SortStrings(unsorted);
    forall k ensures k in keys <==> k in unsorted {
      assert k in keys <==> k in multiset(keys);
      assert k in unsorted <==> k in multiset(unsorted);
    }
  }

  method Partition(history: seq<KvOp>) returns (ret: seq<seq<KvOp>>, ghost keys: seq<string>)
    ensures Ascending(keys) && forall k :: k in keys <==> k in Keys(history)
    ensures |ret| == |keys| && forall i :: 0 <= i < |keys| ==> ret[i] == ForKey(history, keys[i])
  {
    var m := GroupByKey(history);
    var sorted := SortedKeys(m.Keys);
    keys := sorted;
    ret := [];
    for i := 0 to |sorted|
      invariant |ret| == i && forall j :: 0 <= j < i ==> ret[j] == ForKey(history, sorted[j])
    {
      ret := ret + [m[sorted[i]]];
    }
  }

  lemma KeysSnoc(history: seq<KvOp>, i: nat)
    requires i < |history|
    ensures Keys(history[..i + 1]) == Keys(history[..i]) + {history[i].input.key}
  {
    var a, b := history[..i], history[..i + 1];
    forall k | k in Keys(b) ensures k in Keys(a) + {history[i].input.key} {
      var x :| 0 <= x < |b| && b[x].input.key == k;
      if x < i { assert a[x] == b[x]; }
    }
    forall k | k in Keys(a) ensures k in Keys(b) {
      var x :| 0 <= x < |a| && a[x].input.key == k;
      assert b[x] == a[x];
    }
    assert b[i].input.key in Keys(b);
  }

  // ---------------------------------------------------------------------------
  // Orders of one key's operations, by their ids in the whole history
  // ---------------------------------------------------------------------------

  ghost predicate OnKey(history: seq<KvOp>, x: nat, key: string) {
    x < |history| && history[x].input.key == key
  }

  ghost predicate PairwiseOrdered(history: seq<KvOp>, order: seq<nat>)
    requires InRange(order, |history|)
  {
    forall i, j :: 0 <= i < j < |order| ==> !Precedes(history[order[j]], history[order[i]])
  }

  /** `order` lists, each once and respecting real time, the operations on `key` outside `done`, and
      the single-key model accepts them from `st`. */
  ghost predicate KeyOrder(history: seq<KvOp>, done: set<nat>, key: string, st: string, order: seq<nat>) {
    && InRange(order, |history|) && Distinct(order)
    && (forall x: nat :: x in order <==> OnKey(history, x, key) && x !in done)
    && PairwiseOrdered(history, order)
    && Run(SingleKey(), history, st, order).Some?
  }

  /** The ids of the operations on one key. */
  ghost function Indices(history: seq<KvOp>, key: string): seq<nat> {
    if history == [] then []
    else
      var n := |history| - 1;
      Indices(history[..n], key) + if history[n].input.key == key then [n] else []
  }

  lemma {:induction false} IndicesProperties(history: seq<KvOp>, key: string)
    ensures |Indices(history, key)| == |ForKey(history, key)|
    ensures forall j :: 0 <= j < |Indices(history, key)| ==>
      Indices(history, key)[j] < |history| && history[Indices(history, key)[j]] == ForKey(history, key)[j]
    ensures forall x: nat :: x in Indices(history, key) <==> OnKey(history, x, key)
    ensures Distinct(Indices(history, key))
  {
    if history != [] {
      var n := |history| - 1;
      IndicesProperties(history[..n], key);
      forall x: nat ensures x in Indices(history, key) <==> OnKey(history, x, key) {
        assert x in Indices(history[..n], key) <==> OnKey(history[..n], x, key);
      }
    }
  }

  function Through(index: seq<nat>, order: seq<nat>): (r: seq<nat>)
    requires InRange(order, |index|)
    ensures |r| == |order| && forall j :: 0 <= j < |r| ==> r[j] == index[order[j]]
  {
    seq(|order|, j requires 0 <= j < |order| => index[order[j]])
  }

  /** Running a partition is running its operations in the whole history. */
  lemma {:induction false} RunThrough(history: seq<KvOp>, sub: seq<KvOp>, index: seq<nat>, st: string, order: seq<nat>)
    requires |index| == |sub| && InRange(index, |history|) && InRange(order, |sub|)
    requires forall j :: 0 <= j < |sub| ==> sub[j] == history[index[j]]
    ensures Run(SingleKey(), sub, st, order) == Run(SingleKey(), history, st, Through(index, order))
    decreases |order|
  {
    if order != [] {
      assert Through(index, order)[1..] == Through(index, order[1..]);
      RunThrough(history, sub, index, StepOp(SingleKey(), st, sub[order[0]]).1, order[1..]);
    }
  }

  lemma PartitionOrders(history: seq<KvOp>, key: string)
    ensures Linearizable(SingleKey(), ForKey(history, key)) <==> exists order :: KeyOrder(history, {}, key, "", order)
  {
    var sub, index := ForKey(history, key), Indices(history, key);
    IndicesProperties(history, key);
    if Linearizable(SingleKey(), sub) {
      var o :| IsLinearization(SingleKey(), sub, o);
      LocalToGlobal(history, key, o);
    }
    if exists order :: KeyOrder(history, {}, key, "", order) {
      var g :| KeyOrder(history, {}, key, "", g);
      GlobalToLocal(history, key, g);
    }
  }

  /** A complete order of indices lists exactly the indexed ids. */
  lemma ThroughCovers(index: seq<nat>, o: seq<nat>)
    requires InRange(o, |index|) && Distinct(o) && |o| == |index|
    ensures forall x: nat :: x in Through(index, o) <==> x in index
  {
    var g := Through(index, o);
    FullOrderCovers(o, |index|);
    forall x: nat ensures x in g <==> x in index {
      if x in index {
        var j :| 0 <= j < |index| && index[j] == x;
        assert j in o;
        var i :| 0 <= i < |o| && o[i] == j;
        assert g[i] == x;
      }
      if x in g {
        var i :| 0 <= i < |g| && g[i] == x;
        assert index[o[i]] in index;
      }
    }
  }

  lemma LocalToGlobal(history: seq<KvOp>, key: string, o: seq<nat>)
    requires IsLinearization(SingleKey(), ForKey(history, key), o)
    ensures exists order :: KeyOrder(history, {}, key, "", order)
  {
    var sub, index := ForKey(history, key), Indices(history, key);
    IndicesProperties(history, key);
    var g := Through(index, o);
    RunThrough(history, sub, index, "", o);
    ThroughCovers(index, o);
    forall i, j | 0 <= i < j < |g| ensures g[i] != g[j] && !Precedes(history[g[j]], history[g[i]]) {
      assert o[i] != o[j];
      assert !Precedes(sub[o[j]], sub[o[i]]);
    }
    assert KeyOrder(history, {}, key, "", g);
  }

  function Find(s: seq<nat>, x: nat): (k: nat)
    requires x in s
    ensures k < |s| && s[k] == x
  {
    if s[0] == x then 0 else 1 + Find(s[1..], x)
  }

  lemma SameLength(a: seq<nat>, b: seq<nat>)
    requires Distinct(a) && Distinct(b) && forall x: nat :: x in a <==> x in b
    ensures |a| == |b|
  {
    assert Ids(a) == Ids(b);
    DistinctCard(a);
    DistinctCard(b);
  }

  lemma GlobalToLocal(history: seq<KvOp>, key: string, g: seq<nat>)
    requires KeyOrder(history, {}, key, "", g)
    ensures Linearizable(SingleKey(), ForKey(history, key))
  {
    var sub, index := ForKey(history, key), Indices(history, key);
    IndicesProperties(history, key);
    forall j | 0 <= j < |g| ensures g[j] in index {
      assert g[j] in g;
    }
    var o := seq(|g|, j requires 0 <= j < |g| => Find(index, g[j]));
    assert Through(index, o) == g;
    RunThrough(history, sub, index, "", o);
    forall i, j | 0 <= i < j < |o| ensures o[i] != o[j] && !Precedes(sub[o[j]], sub[o[i]]) {
      assert g[i] != g[j] && !Precedes(history[g[j]], history[g[i]]);
    }
    SameLength(g, index);
    assert IsLinearization(SingleKey(), sub, o);
  }

  // ---------------------------------------------------------------------------
  // From a whole order to each key's order
  // ---------------------------------------------------------------------------

  ghost function Select(history: seq<KvOp>, order: seq<nat>, key: string): seq<nat>
    requires InRange(order, |history|)
  {
    if order == [] then []
    else (if history[order[0]].input.key == key then [order[0]] else []) + Select(history, order[1..], key)
  }

  lemma ConsOrdered(history: seq<KvOp>, order: seq<nat>, g: seq<nat>)
    requires order != [] && InRange(order, |history|) && Distinct(order) && PairwiseOrdered(history, order)
    requires InRange(g, |history|) && Distinct(g) && PairwiseOrdered(history, g)
    requires forall x :: x in g ==> x in order[1..]
    ensures var g' := [order[0]] + g;
      InRange(g', |history|) && Distinct(g') && PairwiseOrdered(history, g') && g'[1..] == g
  {
    forall j | 0 <= j < |g| ensures g[j] != order[0] && !Precedes(history[g[j]], history[order[0]]) {
      assert g[j] in order[1..];
      var i :| 0 <= i < |order| - 1 && order[1..][i] == g[j];
      assert order[i + 1] == g[j];
    }
  }

  /** The selected ids: distinct, in order, and exactly those of the key. */
  ghost predicate IsSelection(history: seq<KvOp>, order: seq<nat>, key: string, g: seq<nat>)
    requires InRange(order, |history|)
  {
    && InRange(g, |history|) && Distinct(g) && PairwiseOrdered(history, g)
    && forall x: nat :: x in g <==> x in order && OnKey(history, x, key)
  }

  lemma {:induction false} SelectIs(history: seq<KvOp>, order: seq<nat>, key: string)
    requires InRange(order, |history|) && Distinct(order) && PairwiseOrdered(history, order)
    ensures IsSelection(history, order, key, Select(history, order, key))
    decreases |order|
  {
    if order != [] {
      var rest := order[1..];
      SelectIs(history, rest, key);
      var g := Select(history, rest, key);
      assert forall x: nat :: x in order <==> x == order[0] || x in rest by {
        assert order == [order[0]] + rest;
      }
      if history[order[0]].input.key == key {
        ConsOrdered(history, order, g);
      } else {
        assert Select(history, order, key) == g;
      }
    }
  }

  /** Running an order on the store runs each key's selection on its string. */
  lemma {:induction false} SelectRuns(history: seq<KvOp>, order: seq<nat>, key: string, m: Store)
    requires InRange(order, |history|) && Run(WholeStore(), history, m, order).Some?
    ensures InRange(Select(history, order, key), |history|)
    ensures Run(SingleKey(), history, Lookup(m, key), Select(history, order, key)).Some?
    decreases |order|
  {
    if order != [] {
      var op := history[order[0]];
      StoreStepByKey(m, op.input, op.output, key);
      SelectRuns(history, order[1..], key, StepOp(WholeStore(), m, op).1);
      var g := Select(history, order[1..], key);
      if op.input.key == key {
        assert ([order[0]] + g)[1..] == g;
      } else {
        assert Select(history, order, key) == g;
      }
    }
  }

  // ---------------------------------------------------------------------------
  // From each key's order to a whole order
  // ---------------------------------------------------------------------------

  /** Every key of the history has an order for its operations outside `done`. */
  ghost predicate KeyOrders(history: seq<KvOp>, done: set<nat>, m: Store, orders: map<string, seq<nat>>) {
    forall x :: 0 <= x < |history| ==>
      && history[x].input.key in orders
      && KeyOrder(history, done, history[x].input.key, Lookup(m, history[x].input.key), orders[history[x].input.key])
  }

  /** Among the outstanding operations, one that returned first. */
  lemma {:induction false} EarliestReturn(history: seq<KvOp>, done: set<nat>, n: nat) returns (x: int)
    requires n <= |history|
    ensures x == -1 || (0 <= x < n && x !in done)
    ensures forall y: nat :: y < n && y !in done ==> 0 <= x && history[x].ret <= history[y].ret
    decreases n
  {
    if n == 0 {
      x := -1;
    } else {
      x := EarliestReturn(history, done, n - 1);
      if n - 1 !in done && (x == -1 || history[n - 1].ret < history[x].ret) {
        x := n - 1;
      }
    }
  }

  /** The head of the order of the key whose operation returned first may be linearized next. */
  lemma HeadMinimal(history: seq<KvOp>, done: set<nat>, x: nat, st: string, order: seq<nat>)
    requires WellTimed(history) && x < |history| && x !in done
    requires forall y: nat :: y < |history| && y !in done ==> history[x].ret <= history[y].ret
    requires KeyOrder(history, done, history[x].input.key, st, order)
    ensures order != [] && order[0] < |history| && Minimal(history, done, order[0])
    ensures history[order[0]].input.key == history[x].input.key
  {
    assert x in order;
    var i :| 0 <= i < |order| && order[i] == x;
    var head := order[0];
    assert head in order;
    assert history[head].call <= history[x].ret by {
      if i == 0 { assert head == x; } else { assert !Precedes(history[order[i]], history[order[0]]); }
    }
  }

  /** Linearizing the head of one key's order leaves an order for every key. */
  lemma TakeHead(history: seq<KvOp>, done: set<nat>, m: Store, orders: map<string, seq<nat>>, key: string)
    requires KeyOrders(history, done, m, orders) && key in orders && orders[key] != []
    requires orders[key][0] < |history| && history[orders[key][0]].input.key == key
    ensures var x := orders[key][0];
      && StepOp(WholeStore(), m, history[x]).0
      && KeyOrders(history, done + {x}, StepOp(WholeStore(), m, history[x]).1, orders[key := orders[key][1..]])
  {
    var x, order := orders[key][0], orders[key];
    var m' := StepOp(WholeStore(), m, history[x]).1;
    StoreStepByKey(m, history[x].input, history[x].output, key);
    forall y | 0 <= y < |history|
      ensures var k := history[y].input.key;
        KeyOrder(history, done + {x}, k, Lookup(m', k), if k == key then order[1..] else orders[k])
    {
      var k := history[y].input.key;
      StoreStepByKey(m, history[x].input, history[x].output, k);
      assert KeyOrder(history, done, k, Lookup(m, k), orders[k]);
      if k == key {
        TailKeyOrder(history, done, key, Lookup(m, key), order);
      }
    }
  }

  lemma TailKeyOrder(history: seq<KvOp>, done: set<nat>, key: string, st: string, order: seq<nat>)
    requires KeyOrder(history, done, key, st, order) && order != []
    ensures StepOp(SingleKey(), st, history[order[0]]).0
    ensures KeyOrder(history, done + {order[0]}, key, StepOp(SingleKey(), st, history[order[0]]).1, order[1..])
  {
    var x, rest := order[0], order[1..];
    assert order == [x] + rest;
    forall y: nat ensures y in rest <==> y in order && y != x {
    }
  }

  /** Per-key orders merge into one order that the whole store accepts. */
  lemma {:induction false} Merge(history: seq<KvOp>, done: set<nat>, m: Store, orders: map<string, seq<nat>>)
    returns (t: seq<nat>)
    requires WellTimed(history) && KeyOrders(history, done, m, orders) && done <= UpTo(|history|)
    ensures Continues(WholeStore(), history, done, m, t) && |done| + |t| == |history|
    decreases |UpTo(|history|) - done|
  {
    var x := EarliestReturn(history, done, |history|);
    if x == -1 {
      t := [];
      forall y: nat | y < |history| ensures y in done {
      }
      assert done == UpTo(|history|);
    } else {
      var key := history[x].input.key;
      assert KeyOrder(history, done, key, Lookup(m, key), orders[key]);
      HeadMinimal(history, done, x, Lookup(m, key), orders[key]);
      TakeHead(history, done, m, orders, key);
      var h := orders[key][0];
      assert UpTo(|history|) - (done + {h}) < UpTo(|history|) - done;
      Smaller(UpTo(|history|), done, h);
      t := Merge(history, done + {h}, StepOp(WholeStore(), m, history[h]).1, orders[key := orders[key][1..]]);
      t := [h] + t;
    }
  }

  lemma Smaller(all: set<nat>, done: set<nat>, h: nat)
    requires h in all && h !in done
    ensures |all - (done + {h})| < |all - done|
  {
    assert all - done == (all - (done + {h})) + {h};
  }

  // ---------------------------------------------------------------------------
  // Locality
  // ---------------------------------------------------------------------------

  ghost function ChosenOrder(history: seq<KvOp>, key: string): seq<nat>
    requires exists order :: KeyOrder(history, {}, key, "", order)
  {
    var order :| KeyOrder(history, {}, key, "", order); order
  }

  /** A multi-key history is linearizable against the whole store if and only if every key's
      partition is linearizable against the single-key model. */
  lemma Locality(history: seq<KvOp>)
    requires WellTimed(history)
    ensures Linearizable(WholeStore(), history) <==>
            forall key :: key in Keys(history) ==> Linearizable(SingleKey(), ForKey(history, key))
  {
    if Linearizable(WholeStore(), history) {
      var order :| IsLinearization(WholeStore(), history, order);
      FullOrderCovers(order, |history|);
      forall key | key in Keys(history) ensures Linearizable(SingleKey(), ForKey(history, key)) {
        SelectIs(history, order, key);
        SelectRuns(history, order, key, map[]);
        assert KeyOrder(history, {}, key, "", Select(history, order, key));
        PartitionOrders(history, key);
      }
    }
    if forall key :: key in Keys(history) ==> Linearizable(SingleKey(), ForKey(history, key)) {
      forall key | key in Keys(history) ensures exists order :: KeyOrder(history, {}, key, "", order) {
        PartitionOrders(history, key);
      }
      var orders := map key | key in Keys(history) :: ChosenOrder(history, key);
      var t := Merge(history, {}, map[], orders);
      ContinuesIsPartial(WholeStore(), history, t);
      LinearizationIsCompletePartial(WholeStore(), history, t);
    }
  }
}

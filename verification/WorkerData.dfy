/** What MapReduce workers compute (mr/worker.go), and the sequential program they must agree with
    (main/mrsequential.go): mapping into buckets, collecting, sorting, grouping and reducing. */
module WorkerData {
  import opened Strings

  datatype KeyValue = KeyValue(key: string, value: string)

  /** One line "key output" of an output file. */
  datatype Line = Line(key: string, output: string)

  type MapF = (string, string) -> seq<KeyValue>
  type ReduceF = (string, seq<string>) -> string
  type KeyHash = string -> nat

  /** The outcome of a reduction does not depend on the order of the values. */
  ghost predicate OrderBlind(reducef: ReduceF) {
    forall k, a, b :: multiset(a) == multiset(b) ==> reducef(k, a) == reducef(k, b)
  }

  ghost predicate KeySorted(s: seq<KeyValue>) {
    forall i, j :: 0 <= i < j < |s| ==> LessEq(s[i].key, s[j].key)
  }

  /** The values of one key, in order. */
  function Values(s: seq<KeyValue>, key: string): seq<string> {
    if s == [] then []
    else Values(s[..|s| - 1], key) + if s[|s| - 1].key == key then [s[|s| - 1].value] else []
  }

  ghost function KeysOf(s: seq<KeyValue>): set<string> {
    set i | 0 <= i < |s| :: s[i].key
  }

  ghost function LineKeys(lines: seq<Line>): set<string> {
    set i | 0 <= i < |lines| :: lines[i].key
  }

  ghost predicate AscendingKeys(lines: seq<Line>) {
    forall i, j :: 0 <= i < j < |lines| ==> Less(lines[i].key, lines[j].key)
  }

  /** Every line holds the outcome of reducing all values of its key. */
  ghost predicate LinesReduced(reducef: ReduceF, s: seq<KeyValue>, lines: seq<Line>) {
    forall i :: 0 <= i < |lines| ==> lines[i].output == reducef(lines[i].key, Values(s, lines[i].key))
  }

  /** `lines` is the reduction of the pairs `s`: one line for each key that occurs, in ascending order of
      keys, with the outcome of reducing all of the key's values. */
  ghost predicate Reduces(reducef: ReduceF, s: seq<KeyValue>, lines: seq<Line>) {
    AscendingKeys(lines) && LineKeys(lines) == KeysOf(s) && LinesReduced(reducef, s, lines)
  }

  /** `at` lists, in ascending order, exactly the positions of the pairs with the given key. */
  ghost predicate Positions(s: seq<KeyValue>, key: string, at: seq<nat>) {
    && (forall i, j :: 0 <= i < j < |at| ==> at[i] < at[j])
    && (forall i :: 0 <= i < |at| ==> at[i] < |s| && s[at[i]].key == key)
    && (forall n: nat :: n < |s| && s[n].key == key ==> n in at)
  }

  lemma PositionsSkip(s: seq<KeyValue>, key: string, at: seq<nat>)
    requires s != [] && Positions(s[..|s| - 1], key, at) && s[|s| - 1].key != key
    ensures Positions(s, key, at)
  {
    var n := |s| - 1;
    var before := s[..n];
    forall i | 0 <= i < |at| ensures at[i] < |s| && s[at[i]].key == key { assert before[at[i]] == s[at[i]]; }
    forall m: nat | m < |s| && s[m].key == key ensures m in at { assert before[m] == s[m]; }
  }

  lemma PositionsTake(s: seq<KeyValue>, key: string, at: seq<nat>)
    requires s != [] && Positions(s[..|s| - 1], key, at) && s[|s| - 1].key == key
    ensures Positions(s, key, at + [|s| - 1])
  {
    var n := |s| - 1;
    var before, at' := s[..n], at + [n];
    forall i | 0 <= i < |at'| ensures at'[i] < |s| && s[at'[i]].key == key && (i < |at| ==> at'[i] < n) {
      if i < |at| { assert before[at[i]] == s[at[i]]; }
    }
    forall m: nat | m < |s| && s[m].key == key ensures m in at' {
      if m < n { assert before[m] == s[m]; }
    }
  }

  /** The values of a key are those of its pairs, all of them and in order. */
  lemma {:induction false} ValuesInOrder(s: seq<KeyValue>, key: string) returns (at: seq<nat>)
    ensures Positions(s, key, at)
    ensures Values(s, key) == seq(|at|, i requires 0 <= i < |at| => if at[i] < |s| then s[at[i]].value else "")
  {
    hide Positions;
    at := [];
    if s == [] {
      assert Positions(s, key, at) by { NoPositions(s, key); }
    } else {
      var n := |s| - 1;
      var at0 := ValuesInOrder(s[..n], key);
      if s[n].key == key { PositionsTake(s, key, at0); } else { PositionsSkip(s, key, at0); }
      PositionsWithin(s[..n], key, at0);
      at := if s[n].key == key then at0 + [n] else at0;
    }
  }

  lemma NoPositions(s: seq<KeyValue>, key: string)
    requires s == []
    ensures Positions(s, key, [])
  {
  }

  lemma PositionsWithin(s: seq<KeyValue>, key: string, at: seq<nat>)
    requires Positions(s, key, at)
    ensures forall i :: 0 <= i < |at| ==> at[i] < |s|
  {
  }

  // ---------------------------------------------------------------------------
  // Sorting by key
  // ---------------------------------------------------------------------------

  lemma InsertKeySorted(r: seq<KeyValue>, k: nat, e: KeyValue)
    requires KeySorted(r) && k <= |r|
    requires forall j :: 0 <= j < k ==> LessEq(r[j].key, e.key)
    requires k < |r| ==> !LessEq(r[k].key, e.key)
    ensures KeySorted(r[..k] + [e] + r[k..])
  {
    forall j | k <= j < |r| ensures LessEq(e.key, r[j].key) {
      LessEqTotal(e.key, r[k].key);
      if k < j { LessEqTransitive(e.key, r[k].key, r[j].key); }
    }
  }

  /** Some permutation sorted by key; callers rely on nothing else about it. */
  method SortByKey(s: seq<KeyValue>) returns (r: seq<KeyValue>)
    ensures multiset(r) == multiset(s) && KeySorted(r)
  {
    hide KeySorted, LessEq;
    r := [];
    assert KeySorted(r) by { NoneSorted(); }
    for i := 0 to |s|
      invariant multiset(r) == multiset(s[..i]) && KeySorted(r)
    {
      var k := 0;
      while k < |r| && LessEq(r[k].key, s[i].key)
        invariant k <= |r| && forall j :: 0 <= j < k ==> LessEq(r[j].key, s[i].key)
      {
        k := k + 1;
      }
      InsertKeySorted(r, k, s[i]);
      assert s[..i + 1] == s[..i] + [s[i]];
      assert r == r[..k] + r[k..];
      r := r[..k] + [s[i]] + r[k..];
    }
    assert s[..|s|] == s;
  }

  lemma NoneSorted()
    ensures KeySorted([])
  {
  }

  // ---------------------------------------------------------------------------
  // Grouping sorted pairs
  // ---------------------------------------------------------------------------

  /** A run of equal keys [i, j) of sorted pairs holds all values of its key. */
  ghost predicate WholeGroup(s: seq<KeyValue>, i: nat, j: nat) {
    && i < j <= |s|
    && (forall k :: i <= k < j ==> s[k].key == s[i].key)
    && (forall k :: 0 <= k < i ==> s[k].key != s[i].key)
    && (forall k :: j <= k < |s| ==> s[k].key != s[i].key)
  }

  function ValuesIn(s: seq<KeyValue>, i: nat, j: nat): seq<string>
    requires i <= j <= |s|
  {
    seq(j - i, k requires 0 <= k < j - i => s[i + k].value)
  }

  lemma ValuesInSnoc(s: seq<KeyValue>, i: nat, n: nat)
    requires i < n <= |s|
    ensures ValuesIn(s, i, n) == ValuesIn(s, i, n - 1) + [s[n - 1].value]
    ensures n == i + 1 ==> ValuesIn(s, i, n) == [s[n - 1].value]
  {
  }

  lemma {:induction false} ValuesOfPrefix(s: seq<KeyValue>, i: nat, j: nat, n: nat)
    requires WholeGroup(s, i, j) && n <= |s|
    ensures Values(s[..n], s[i].key) == if n <= i then [] else ValuesIn(s, i, if n <= j then n else j)
    decreases n
  {
    hide ValuesIn, Values;
    if n == 0 {
      NoValues(s[..0], s[i].key);
    } else {
      ValuesOfPrefix(s, i, j, n - 1);
      ValuesSnoc(s, s[i].key, n);
      if i < n <= j { ValuesInSnoc(s, i, n); }
    }
  }

  lemma NoValues(s: seq<KeyValue>, key: string)
    requires s == []
    ensures Values(s, key) == []
  {
  }

  lemma ValuesSnoc(s: seq<KeyValue>, key: string, n: nat)
    requires 0 < n <= |s|
    ensures s[n - 1].key == key ==> Values(s[..n], key) == Values(s[..n - 1], key) + [s[n - 1].value]
    ensures s[n - 1].key != key ==> Values(s[..n], key) == Values(s[..n - 1], key)
  {
    assert s[..n][..n - 1] == s[..n - 1];
  }

  lemma ValuesOfGroup(s: seq<KeyValue>, i: nat, j: nat)
    requires WholeGroup(s, i, j)
    ensures Values(s, s[i].key) == ValuesIn(s, i, j)
  {
    ValuesOfPrefix(s, i, j, |s|);
    assert s[..|s|] == s;
  }

  /** The groups before position `i` have been reduced, and no group is cut at `i`. */
  ghost predicate ReducedUpTo(reducef: ReduceF, s: seq<KeyValue>, i: nat, lines: seq<Line>) {
    && i <= |s| && (0 < i < |s| ==> s[i - 1].key != s[i].key)
    && AscendingKeys(lines) && LineKeys(lines) == KeysOf(s[..i]) && LinesReduced(reducef, s, lines)
  }

  lemma GroupIsWhole(s: seq<KeyValue>, i: nat, j: nat)
    requires KeySorted(s) && i < j <= |s| && (0 < i ==> s[i - 1].key != s[i].key)
    requires forall k :: i <= k < j ==> s[k].key == s[i].key
    requires j < |s| ==> s[j].key != s[i].key
    ensures WholeGroup(s, i, j)
    ensures forall k :: 0 <= k < i ==> Less(s[k].key, s[i].key)
  {
    forall k | 0 <= k < i ensures s[k].key != s[i].key {
      if s[k].key == s[i].key && k < i - 1 { LessEqAntisymmetric(s[i - 1].key, s[i].key); }
    }
    forall k | j <= k < |s| ensures s[k].key != s[i].key {
      if s[k].key == s[i].key && j < k { LessEqAntisymmetric(s[j].key, s[i].key); }
    }
  }

  lemma ReduceNext(reducef: ReduceF, s: seq<KeyValue>, i: nat, j: nat, lines: seq<Line>)
    requires ReducedUpTo(reducef, s, i, lines) && WholeGroup(s, i, j)
    requires forall k :: 0 <= k < i ==> Less(s[k].key, s[i].key)
    ensures ReducedUpTo(reducef, s, j, lines + [Line(s[i].key, reducef(s[i].key, ValuesIn(s, i, j)))])
  {
    ValuesOfGroup(s, i, j);
    var line := Line(s[i].key, reducef(s[i].key, ValuesIn(s, i, j)));
    var lines' := lines + [line];
    assert LineKeys(lines') == LineKeys(lines) + {line.key} by {
      assert lines'[|lines|].key == line.key;
      assert forall a :: 0 <= a < |lines| ==> lines'[a] == lines[a];
    }
    KeysOfPrefix(s, i, j);
    forall a | 0 <= a < |lines| ensures Less(lines[a].key, s[i].key) {
      assert lines[a].key in KeysOf(s[..i]);
    }
  }

  lemma KeysOfPrefix(s: seq<KeyValue>, i: nat, j: nat)
    requires i < j <= |s| && forall k :: i <= k < j ==> s[k].key == s[i].key
    ensures KeysOf(s[..j]) == KeysOf(s[..i]) + {s[i].key}
  {
    forall key | key in KeysOf(s[..j]) ensures key in KeysOf(s[..i]) + {s[i].key} {
      var k :| 0 <= k < j && s[..j][k].key == key;
      if k < i { assert s[..i][k].key == key; }
    }
    forall key | key in KeysOf(s[..i]) ensures key in KeysOf(s[..j]) {
      var k :| 0 <= k < i && s[..i][k].key == key;
      assert s[..j][k].key == key;
    }
    assert s[..j][i].key == s[i].key;
  }

  lemma ReducedAll(reducef: ReduceF, s: seq<KeyValue>, lines: seq<Line>)
    requires ReducedUpTo(reducef, s, |s|, lines)
    ensures Reduces(reducef, s, lines)
  {
    assert s[..|s|] == s;
  }

  /** The grouping loop of DoReduce. */
  method GroupAndReduce(reducef: ReduceF, s: seq<KeyValue>) returns (lines: seq<Line>)
    requires KeySorted(s)
    ensures Reduces(reducef, s, lines)
  {
    hide ReducedUpTo, WholeGroup, Reduces;
    lines := [];
    ReducedNone(reducef, s);
    var i := 0;
    while i < |s|
      invariant i <= |s| && ReducedUpTo(reducef, s, i, lines)
    {
      var values: seq<string> := [];
      var j := i;
      while j < |s| && s[j].key == s[i].key
        invariant i <= j <= |s| && (forall k :: i <= k < j ==> s[k].key == s[i].key)
        invariant values == ValuesIn(s, i, j)
      {
        values := values + [s[j].value];
        j := j + 1;
      }
      NotCut(reducef, s, i, lines);
      GroupIsWhole(s, i, j);
      ReduceNext(reducef, s, i, j, lines);
      lines := lines + [Line(s[i].key, reducef(s[i].key, values))];
      i := j;
    }
    ReducedAll(reducef, s, lines);
  }

  lemma ReducedNone(reducef: ReduceF, s: seq<KeyValue>)
    ensures ReducedUpTo(reducef, s, 0, [])
  {
  }

  lemma NotCut(reducef: ReduceF, s: seq<KeyValue>, i: nat, lines: seq<Line>)
    requires ReducedUpTo(reducef, s, i, lines)
    ensures 0 < i < |s| ==> s[i - 1].key != s[i].key
  {
  }

  /** The grouping loop of the sequential program, which finds the group before collecting its values. */
  method GroupSequentially(reducef: ReduceF, s: seq<KeyValue>) returns (lines: seq<Line>)
    requires KeySorted(s)
    ensures Reduces(reducef, s, lines)
  {
    hide ReducedUpTo, WholeGroup, Reduces;
    lines := [];
    ReducedNone(reducef, s);
    var i := 0;
    while i < |s|
      invariant i <= |s| && ReducedUpTo(reducef, s, i, lines)
    {
      var j := i + 1;
      while j < |s| && s[j].key == s[i].key
        invariant i < j <= |s| && (forall k :: i <= k < j ==> s[k].key == s[i].key)
      {
        j := j + 1;
      }
      var values: seq<string> := [];
      for k := i to j
        invariant values == ValuesIn(s, i, k)
      {
        values := values + [s[k].value];
      }
      NotCut(reducef, s, i, lines);
      GroupIsWhole(s, i, j);
      ReduceNext(reducef, s, i, j, lines);
      lines := lines + [Line(s[i].key, reducef(s[i].key, values))];
      i := j;
    }
    ReducedAll(reducef, s, lines);
  }

  // ---------------------------------------------------------------------------
  // Reductions depend only on the bag of pairs
  // ---------------------------------------------------------------------------

  lemma {:induction false} ValuesCount(s: seq<KeyValue>, key: string, v: string)
    ensures multiset(Values(s, key))[v] == multiset(s)[KeyValue(key, v)]
  {
    if s != [] {
      var n := |s| - 1;
      ValuesCount(s[..n], key, v);
      assert s == s[..n] + [s[n]];
      var vs := Values(s[..n], key);
      assert Values(s, key) == if s[n].key == key then vs + [s[n].value] else vs;
    }
  }

  lemma {:induction false} ValuesOfSameBag(s: seq<KeyValue>, t: seq<KeyValue>, key: string)
    requires forall v :: multiset(s)[KeyValue(key, v)] == multiset(t)[KeyValue(key, v)]
    ensures multiset(Values(s, key)) == multiset(Values(t, key))
  {
    forall v ensures multiset(Values(s, key))[v] == multiset(Values(t, key))[v] {
      ValuesCount(s, key, v);
      ValuesCount(t, key, v);
    }
  }

  lemma KeysOfBag(s: seq<KeyValue>, key: string)
    ensures key in KeysOf(s) <==> exists v :: multiset(s)[KeyValue(key, v)] > 0
  {
    if key in KeysOf(s) {
      var i :| 0 <= i < |s| && s[i].key == key;
      assert s[i] in multiset(s) && s[i] == KeyValue(key, s[i].value);
    }
    if v :| multiset(s)[KeyValue(key, v)] > 0 {
      assert KeyValue(key, v) in s;
    }
  }

  lemma KeysOfSameBag(s: seq<KeyValue>, t: seq<KeyValue>)
    requires multiset(s) == multiset(t)
    ensures KeysOf(s) == KeysOf(t)
  {
    forall key ensures key in KeysOf(s) <==> key in KeysOf(t) {
      KeysOfBag(s, key);
      KeysOfBag(t, key);
    }
  }

  lemma ReducesSameBag(reducef: ReduceF, s: seq<KeyValue>, t: seq<KeyValue>, lines: seq<Line>)
    requires OrderBlind(reducef) && multiset(s) == multiset(t) && Reduces(reducef, s, lines)
    ensures Reduces(reducef, t, lines)
  {
    KeysOfSameBag(s, t);
    forall i | 0 <= i < |lines| ensures lines[i].output == reducef(lines[i].key, Values(t, lines[i].key)) {
      ValuesOfSameBag(s, t, lines[i].key);
    }
  }

  /** A line is in a reduction exactly when its key occurs and it holds that key's outcome. */
  ghost predicate IsOutcome(reducef: ReduceF, s: seq<KeyValue>, l: Line) {
    l.key in KeysOf(s) && l.output == reducef(l.key, Values(s, l.key))
  }

  lemma InReduction(reducef: ReduceF, s: seq<KeyValue>, lines: seq<Line>, l: Line)
    requires Reduces(reducef, s, lines)
    ensures multiset(lines)[l] == if IsOutcome(reducef, s, l) then 1 else 0
  {
    AtMostOnce(lines, l);
    if IsOutcome(reducef, s, l) {
      assert l.key in LineKeys(lines);
      var i :| 0 <= i < |lines| && lines[i].key == l.key;
      assert lines[i] == l;
    }
    if l in lines {
      var i :| 0 <= i < |lines| && lines[i] == l;
      assert lines[i].key in LineKeys(lines);
    }
  }

  lemma {:induction false} AtMostOnce(lines: seq<Line>, l: Line)
    requires AscendingKeys(lines)
    ensures multiset(lines)[l] <= 1
  {
    if lines != [] {
      var n := |lines| - 1;
      assert lines == lines[..n] + [lines[n]];
      AtMostOnce(lines[..n], l);
      if l == lines[n] { assert l !in lines[..n]; }
    }
  }

  // ---------------------------------------------------------------------------
  // Buckets
  // ---------------------------------------------------------------------------

  /** The reduce job of a key. */
  function BucketId(hash: KeyHash, n: nat, key: string): (r: nat)
    requires n >= 1
    ensures r < n
  {
    hash(key) % n
  }

  /** The reduce job of a key is the remainder of its hash. */
  lemma BucketIsRemainder(hash: KeyHash, n: nat, key: string) returns (q: nat)
    requires n >= 1
    ensures hash(key) == q * n + BucketId(hash, n, key)
  {
    q := hash(key) / n;
  }

  /** The pairs that go to reduce job `r`. */
  function Bucket(s: seq<KeyValue>, hash: KeyHash, n: nat, r: nat): seq<KeyValue>
    requires n >= 1
  {
    if s == [] then []
    else Bucket(s[..|s| - 1], hash, n, r) + if BucketId(hash, n, s[|s| - 1].key) == r then [s[|s| - 1]] else []
  }

  /** `picked` is what stands in `s` at the ascending positions `at`. */
  ghost predicate Picks<T>(s: seq<T>, at: seq<nat>, picked: seq<T>) {
    && |at| == |picked| && (forall i, j :: 0 <= i < j < |at| ==> at[i] < at[j])
    && (forall i :: 0 <= i < |at| ==> at[i] < |s| && s[at[i]] == picked[i])
  }

  lemma PicksMore<T>(s: seq<T>, at: seq<nat>, picked: seq<T>)
    requires s != [] && Picks(s[..|s| - 1], at, picked)
    ensures Picks(s, at, picked) && Picks(s, at + [|s| - 1], picked + [s[|s| - 1]])
  {
    var n := |s| - 1;
    var before := s[..n];
    assert forall i :: 0 <= i < |at| ==> before[at[i]] == s[at[i]];
    var at', picked' := at + [n], picked + [s[n]];
    assert forall i :: 0 <= i < |at'| ==> at'[i] == if i < |at| then at[i] else n;
    assert forall i :: 0 <= i < |picked'| ==> picked'[i] == if i < |at| then picked[i] else s[n];
  }

  /** The pairs of a bucket stand in the order in which they were mapped. */
  lemma {:induction false} BucketInOrder(s: seq<KeyValue>, hash: KeyHash, n: nat, r: nat) returns (at: seq<nat>)
    requires n >= 1
    ensures Picks(s, at, Bucket(s, hash, n, r))
  {
    hide BucketId, Picks;
    at := [];
    if s == [] {
      assert Picks<KeyValue>([], [], []) by { PicksNothing<KeyValue>(); }
    } else {
      var k := |s| - 1;
      var at0 := BucketInOrder(s[..k], hash, n, r);
      var b := Bucket(s[..k], hash, n, r);
      PicksMore(s, at0, b);
      at := if BucketId(hash, n, s[k].key) == r then at0 + [k] else at0;
      assert Bucket(s, hash, n, r) == if BucketId(hash, n, s[k].key) == r then b + [s[k]] else b;
    }
  }

  lemma PicksNothing<T>()
    ensures Picks<T>([], [], [])
  {
  }

  lemma {:induction false} BucketCount(s: seq<KeyValue>, hash: KeyHash, n: nat, r: nat, e: KeyValue)
    requires n >= 1
    ensures multiset(Bucket(s, hash, n, r))[e] == if BucketId(hash, n, e.key) == r then multiset(s)[e] else 0
  {
    hide BucketId;
    if s != [] {
      var k := |s| - 1;
      BucketCount(s[..k], hash, n, r, e);
      assert s == s[..k] + [s[k]];
      var b := Bucket(s[..k], hash, n, r);
      assert Bucket(s, hash, n, r) == if BucketId(hash, n, s[k].key) == r then b + [s[k]] else b;
    }
  }

  /** The bucket loop of DoMap: pair by pair into the bucket of its key's hash. */
  method DoMap(mapf: MapF, fileName: string, content: string, hash: KeyHash, nReduce: nat)
    returns (buckets: seq<seq<KeyValue>>)
    requires nReduce >= 1
    ensures |buckets| == nReduce
    ensures forall r :: 0 <= r < nReduce ==> buckets[r] == Bucket(mapf(fileName, content), hash, nReduce, r)
  {
    var kva := mapf(fileName, content);
    buckets := seq(nReduce, _ => []);
    for i := 0 to |kva|
      invariant |buckets| == nReduce
      invariant forall r :: 0 <= r < nReduce ==> buckets[r] == Bucket(kva[..i], hash, nReduce, r)
    {
      var bucketId := BucketId(hash, nReduce, kva[i].key);
      assert kva[..i + 1][..i] == kva[..i];
      buckets := buckets[bucketId := buckets[bucketId] + [kva[i]]];
    }
    assert kva[..|kva|] == kva;
  }

  function Flatten<T>(ss: seq<seq<T>>): seq<T> {
    if ss == [] then [] else Flatten(ss[..|ss| - 1]) + ss[|ss| - 1]
  }

  lemma {:induction false} BucketOfFlatten(ss: seq<seq<KeyValue>>, hash: KeyHash, n: nat, r: nat)
    requires n >= 1
    ensures multiset(Bucket(Flatten(ss), hash, n, r)) ==
            multiset(Flatten(seq(|ss|, j requires 0 <= j < |ss| => Bucket(ss[j], hash, n, r))))
  {
    hide BucketId;
    if ss != [] {
      var k := |ss| - 1;
      BucketOfFlatten(ss[..k], hash, n, r);
      var bs := seq(|ss|, j requires 0 <= j < |ss| => Bucket(ss[j], hash, n, r));
      assert bs[..k] == seq(k, j requires 0 <= j < k => Bucket(ss[..k][j], hash, n, r));
      forall e ensures multiset(Bucket(Flatten(ss), hash, n, r))[e] == multiset(Flatten(bs))[e] {
        BucketCount(Flatten(ss), hash, n, r, e);
        BucketCount(Flatten(ss[..k]), hash, n, r, e);
        BucketCount(ss[k], hash, n, r, e);
      }
    }
  }

  // ---------------------------------------------------------------------------
  // The reduce side and the sequential program
  // ---------------------------------------------------------------------------

  /** DoReduce: appends what each location delivered, sorts, groups and reduces. */
  method DoReduce(delivered: seq<seq<KeyValue>>, reducef: ReduceF) returns (lines: seq<Line>)
    ensures exists s :: multiset(s) == multiset(Flatten(delivered)) && KeySorted(s) && Reduces(reducef, s, lines)
    ensures OrderBlind(reducef) ==> Reduces(reducef, Flatten(delivered), lines)
  {
    hide Reduces, KeySorted, OrderBlind;
    var bufferedFile: seq<KeyValue> := [];
    for i := 0 to |delivered|
      invariant bufferedFile == Flatten(delivered[..i])
    {
      assert delivered[..i + 1][..i] == delivered[..i];
      bufferedFile := bufferedFile + delivered[i];
    }
    assert delivered[..|delivered|] == delivered;
    var sorted := SortByKey(bufferedFile);
    lines := GroupAndReduce(reducef, sorted);
    if OrderBlind(reducef) {
      ReducesSameBag(reducef, sorted, bufferedFile, lines);
    }
  }

  /** All intermediate pairs of the given (name, content) files. */
  function Intermediate(mapf: MapF, files: seq<(string, string)>): seq<seq<KeyValue>> {
    seq(|files|, j requires 0 <= j < |files| => mapf(files[j].0, files[j].1))
  }

  method Sequential(mapf: MapF, reducef: ReduceF, files: seq<(string, string)>) returns (lines: seq<Line>)
    ensures exists s ::
              multiset(s) == multiset(Flatten(Intermediate(mapf, files))) && KeySorted(s) && Reduces(reducef, s, lines)
    ensures OrderBlind(reducef) ==> Reduces(reducef, Flatten(Intermediate(mapf, files)), lines)
  {
    hide Reduces, KeySorted, OrderBlind;
    ghost var all := Intermediate(mapf, files);
    var intermediate: seq<KeyValue> := [];
    for i := 0 to |files|
      invariant intermediate == Flatten(all[..i])
    {
      assert all[..i + 1][..i] == all[..i];
      var kva := mapf(files[i].0, files[i].1);
      intermediate := intermediate + kva;
    }
    assert all[..|files|] == all;
    var sorted := SortByKey(intermediate);
    lines := GroupSequentially(reducef, sorted);
    if OrderBlind(reducef) {
      ReducesSameBag(reducef, sorted, intermediate, lines);
    }
  }

  // ---------------------------------------------------------------------------
  // Agreement
  // ---------------------------------------------------------------------------

  /** Output file `r` is the reduction of bucket `r` of all intermediate pairs. */
  ghost predicate OutputOf(reducef: ReduceF, hash: KeyHash, n: nat, all: seq<KeyValue>, r: nat, out: seq<Line>)
    requires n >= 1
  {
    Reduces(reducef, Bucket(all, hash, n, r), out)
  }

  lemma BucketOutcome(reducef: ReduceF, hash: KeyHash, n: nat, all: seq<KeyValue>, r: nat, l: Line)
    requires n >= 1 && OrderBlind(reducef)
    ensures IsOutcome(reducef, Bucket(all, hash, n, r), l) <==>
      BucketId(hash, n, l.key) == r && IsOutcome(reducef, all, l)
  {
    hide BucketId, Bucket;
    var b := Bucket(all, hash, n, r);
    forall v ensures multiset(b)[KeyValue(l.key, v)] ==
      if BucketId(hash, n, l.key) == r then multiset(all)[KeyValue(l.key, v)] else 0 {
      BucketCount(all, hash, n, r, KeyValue(l.key, v));
    }
    KeysOfBag(b, l.key);
    KeysOfBag(all, l.key);
    if BucketId(hash, n, l.key) == r {
      ValuesOfSameBag(b, all, l.key);
    }
  }

  lemma {:induction false} OutputsCount(reducef: ReduceF, hash: KeyHash, n: nat, all: seq<KeyValue>,
                                        outs: seq<seq<Line>>, m: nat, l: Line)
    requires n >= 1 && OrderBlind(reducef) && |outs| == n && m <= n
    requires forall r :: 0 <= r < n ==> OutputOf(reducef, hash, n, all, r, outs[r])
    ensures multiset(Flatten(outs[..m]))[l] ==
      if BucketId(hash, n, l.key) < m && IsOutcome(reducef, all, l) then 1 else 0
  {
    hide OrderBlind, IsOutcome, Reduces, BucketId, Bucket;
    if 0 < m {
      OutputsCount(reducef, hash, n, all, outs, m - 1, l);
      assert outs[..m][..m - 1] == outs[..m - 1];
      assert OutputOf(reducef, hash, n, all, m - 1, outs[m - 1]);
      InReduction(reducef, Bucket(all, hash, n, m - 1), outs[m - 1], l);
      BucketOutcome(reducef, hash, n, all, m - 1, l);
    }
  }

  /** The lines of all output files together are, as a bag, the lines of the sequential output. */
  lemma OutputsAgree(reducef: ReduceF, hash: KeyHash, n: nat, all: seq<KeyValue>, outs: seq<seq<Line>>,
                     lines: seq<Line>)
    requires n >= 1 && OrderBlind(reducef) && |outs| == n
    requires forall r :: 0 <= r < n ==> OutputOf(reducef, hash, n, all, r, outs[r])
    requires Reduces(reducef, all, lines)
    ensures multiset(Flatten(outs)) == multiset(lines)
  {
    hide OrderBlind, IsOutcome, Reduces, BucketId, Bucket;
    forall l ensures multiset(Flatten(outs))[l] == multiset(lines)[l] {
      OutputsCount(reducef, hash, n, all, outs, n, l);
      assert outs[..n] == outs;
      InReduction(reducef, all, lines, l);
    }
  }

  /** Each key that occurs is in exactly one output file, that of its hash. */
  lemma KeyInOneOutput(reducef: ReduceF, hash: KeyHash, n: nat, all: seq<KeyValue>, r: nat, out: seq<Line>, key: string)
    requires n >= 1 && OutputOf(reducef, hash, n, all, r, out)
    ensures key in LineKeys(out) <==> key in KeysOf(all) && BucketId(hash, n, key) == r
  {
    hide BucketId, Bucket;
    var b := Bucket(all, hash, n, r);
    forall v ensures multiset(b)[KeyValue(key, v)] ==
      if BucketId(hash, n, key) == r then multiset(all)[KeyValue(key, v)] else 0 {
      BucketCount(all, hash, n, r, KeyValue(key, v));
    }
    KeysOfBag(b, key);
    KeysOfBag(all, key);
  }
}

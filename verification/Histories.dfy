/** The vocabulary of the linearizability checker (porcupine/model.go): operations,
    sequential models, and what it means for a history to be linearizable.

    Everything the checker promises is stated over a sequence of operations whose ids are
    their indices.  An operation `a` precedes `b` when it returned before `b` was called. */
module Histories {
  import opened Options

  datatype Operation<I, O> = Operation(clientId: int, input: I, call: int, output: O, ret: int)

  /** A sequential specification: an initial state, a step that accepts or refuses an
      (input, output) pair, and the equality used by the memo cache. */
  datatype Model<!S, !I, !O> = Model(init: S, step: (S, I, O) -> (bool, S), equal: (S, S) -> bool)

  /** What the checker needs of `Equal`: it is reflexive, and whatever a state can do, a state
      equal to it can do too, reaching equal states.  Plain equality satisfies this. */
  ghost predicate SoundEqual<S(!new), I(!new), O(!new)>(m: Model<S, I, O>) {
    && (forall s :: m.equal(s, s))
    && (forall s, t, i, o :: m.equal(s, t) && m.step(s, i, o).0 ==>
          m.step(t, i, o).0 && m.equal(m.step(s, i, o).1, m.step(t, i, o).1))
  }

  predicate Precedes<I, O>(a: Operation<I, O>, b: Operation<I, O>) {
    a.ret < b.call
  }

  ghost predicate WellTimed<I, O>(ops: seq<Operation<I, O>>) {
    forall x :: 0 <= x < |ops| ==> ops[x].call <= ops[x].ret
  }

  predicate InRange(order: seq<nat>, n: nat) {
    forall j :: 0 <= j < |order| ==> order[j] < n
  }

  predicate Distinct(order: seq<nat>) {
    forall i, j :: 0 <= i < j < |order| ==> order[i] != order[j]
  }

  /** The effect of one operation on a state. */
  function StepOp<S, I, O>(m: Model<S, I, O>, s: S, op: Operation<I, O>): (bool, S) {
    m.step(s, op.input, op.output)
  }

  /** The state after running the operations in the given order, if every step accepts. */
  function Run<S, I, O>(m: Model<S, I, O>, ops: seq<Operation<I, O>>, s: S, order: seq<nat>): Option<S>
    requires InRange(order, |ops|)
  {
    if order == [] then Some(s)
    else
      var (ok, s') := StepOp(m, s, ops[order[0]]);
      if ok then Run(m, ops, s', order[1..]) else None
  }

  /** Every operation that returned before `order[j]` was called stands before it. */
  ghost predicate RealTime<I, O>(ops: seq<Operation<I, O>>, order: seq<nat>)
    requires InRange(order, |ops|)
  {
    forall j, a :: 0 <= j < |order| && 0 <= a < |ops| && Precedes(ops[a], ops[order[j]]) ==> a in order[..j]
  }

  /** A partial linearization: some of the operations, each once, in an order the model accepts,
      closed under real-time precedence. */
  ghost predicate IsPartial<S, I, O>(m: Model<S, I, O>, ops: seq<Operation<I, O>>, order: seq<nat>) {
    InRange(order, |ops|) && Distinct(order) && RealTime(ops, order) && Run(m, ops, m.init, order).Some?
  }

  /** A linearization: a permutation of all operations that the model accepts and that never
      puts `b` before `a` when `a` returned before `b` was called. */
  ghost predicate IsLinearization<S, I, O>(m: Model<S, I, O>, ops: seq<Operation<I, O>>, order: seq<nat>) {
    && InRange(order, |ops|) && Distinct(order) && |order| == |ops|
    && (forall i, j :: 0 <= i < j < |order| ==> !Precedes(ops[order[j]], ops[order[i]]))
    && Run(m, ops, m.init, order).Some?
  }

  ghost predicate Linearizable<S, I, O>(m: Model<S, I, O>, ops: seq<Operation<I, O>>) {
    exists order :: IsLinearization(m, ops, order)
  }

  // ---------------------------------------------------------------------------
  // Sets of ids
  // ---------------------------------------------------------------------------

  ghost function Ids(order: seq<nat>): set<nat> {
    set x | x in order
  }

  ghost function UpTo(n: nat): (r: set<nat>)
    ensures |r| == n
    ensures forall x: nat :: x in r <==> x < n
  {
    if n == 0 then {} else UpTo(n - 1) + {n - 1}
  }

  lemma {:induction false} DistinctCard(order: seq<nat>)
    requires Distinct(order)
    ensures |Ids(order)| == |order|
  {
    if order != [] {
      var k := |order| - 1;
      DistinctCard(order[..k]);
      assert order == order[..k] + [order[k]];
      assert Ids(order) == Ids(order[..k]) + {order[k]};
    }
  }

  /** Pigeonhole: distinct ids below `n`, `n` of them, are all the ids. */
  lemma FullOrderCovers(order: seq<nat>, n: nat)
    requires InRange(order, n) && Distinct(order) && |order| == n
    ensures forall x: nat :: x < n ==> x in order
  {
    DistinctCard(order);
    assert Ids(order) <= UpTo(n);
    SubsetEqual(Ids(order), UpTo(n));
    forall x: nat | x < n ensures x in order {
      assert x in Ids(order);
    }
  }

  lemma SubsetEqual(a: set<nat>, b: set<nat>)
    requires a <= b && |a| == |b|
    ensures a == b
  {
    assert b == a + (b - a);
    assert |b - a| == 0;
  }

  lemma PartialShort(order: seq<nat>, n: nat)
    requires InRange(order, n) && Distinct(order)
    ensures |order| <= n
    ensures |order| == n ==> Ids(order) == UpTo(n)
  {
    DistinctCard(order);
    assert Ids(order) <= UpTo(n);
    assert UpTo(n) == Ids(order) + (UpTo(n) - Ids(order));
    if |order| == n {
      SubsetEqual(Ids(order), UpTo(n));
    }
  }

  // ---------------------------------------------------------------------------
  // The two readings of real time agree on complete orders
  // ---------------------------------------------------------------------------

  lemma LinearizationIsCompletePartial<S, I, O>(m: Model<S, I, O>, ops: seq<Operation<I, O>>, order: seq<nat>)
    requires WellTimed(ops)
    ensures IsLinearization(m, ops, order) <==> IsPartial(m, ops, order) && |order| == |ops|
  {
    if InRange(order, |ops|) && Distinct(order) && |order| == |ops| {
      FullOrderCovers(order, |ops|);
      if IsPartial(m, ops, order) {
        forall i, j | 0 <= i < j < |order| ensures !Precedes(ops[order[j]], ops[order[i]]) {
          var before := order[..i];
          assert order[j] !in before;
        }
      }
      if IsLinearization(m, ops, order) {
        forall j, a | 0 <= j < |order| && 0 <= a < |ops| && Precedes(ops[a], ops[order[j]]) ensures a in order[..j] {
          assert a in order;
          var i :| 0 <= i < |order| && order[i] == a;
          assert i < j;
          assert order[..j][i] == a;
        }
      }
    }
  }

  // ---------------------------------------------------------------------------
  // Partial linearizations, one operation at a time
  // ---------------------------------------------------------------------------

  /** `x` may be linearized next: nothing still outstanding returned before it was called. */
  ghost predicate Minimal<I, O>(ops: seq<Operation<I, O>>, done: set<nat>, x: nat) {
    && x < |ops| && x !in done
    && forall y :: 0 <= y < |ops| && y !in done ==> !Precedes(ops[y], ops[x])
  }

  /** `t` extends a partial linearization of `done` that reached state `s`. */
  ghost predicate Continues<S, I, O>(m: Model<S, I, O>, ops: seq<Operation<I, O>>, done: set<nat>, s: S, t: seq<nat>)
    decreases |t|
  {
    t == [] ||
    (&& Minimal(ops, done, t[0])
     && StepOp(m, s, ops[t[0]]).0
     && Continues(m, ops, done + {t[0]}, StepOp(m, s, ops[t[0]]).1, t[1..]))
  }

  lemma {:induction false} ContinuesInRange<S, I, O>(m: Model<S, I, O>, ops: seq<Operation<I, O>>, done: set<nat>,
                                                     s: S, t: seq<nat>)
    requires Continues(m, ops, done, s, t)
    ensures InRange(t, |ops|) && Distinct(t)
    ensures forall j :: 0 <= j < |t| ==> t[j] !in done
    ensures Run(m, ops, s, t).Some?
    decreases |t|
  {
    if t != [] {
      var done', s' := done + {t[0]}, StepOp(m, s, ops[t[0]]).1;
      ContinuesInRange(m, ops, done', s', t[1..]);
      forall j | 0 <= j < |t| ensures t[j] < |ops| && t[j] !in done && (0 < j ==> t[j] != t[0]) {
        if 0 < j { assert t[j] == t[1..][j - 1]; assert t[j] !in done'; }
      }
      forall i, j | 0 <= i < j < |t| ensures t[i] != t[j] {
        if 0 < i { assert t[i] == t[1..][i - 1] && t[j] == t[1..][j - 1]; }
      }
    }
  }

  ghost predicate RealTimeFrom<I, O>(ops: seq<Operation<I, O>>, done: set<nat>, t: seq<nat>)
    requires InRange(t, |ops|)
  {
    forall j, a :: 0 <= j < |t| && 0 <= a < |ops| && Precedes(ops[a], ops[t[j]]) ==> a in done || a in t[..j]
  }

  lemma {:induction false} ContinuesRealTime<S, I, O>(m: Model<S, I, O>, ops: seq<Operation<I, O>>, done: set<nat>,
                                                      s: S, t: seq<nat>)
    requires Continues(m, ops, done, s, t)
    ensures InRange(t, |ops|) && RealTimeFrom(ops, done, t)
    decreases |t|
  {
    ContinuesInRange(m, ops, done, s, t);
    if t != [] {
      var done', s' := done + {t[0]}, StepOp(m, s, ops[t[0]]).1;
      ContinuesRealTime(m, ops, done', s', t[1..]);
      forall j, a | 0 <= j < |t| && 0 <= a < |ops| && Precedes(ops[a], ops[t[j]])
        ensures a in done || a in t[..j]
      {
        if 0 < j {
          assert t[j] == t[1..][j - 1];
          assert a in done' || a in t[1..][..j - 1];
          assert t[..j] == [t[0]] + t[1..][..j - 1];
        }
      }
    }
  }

  lemma {:induction false} RealTimeContinues<S, I, O>(m: Model<S, I, O>, ops: seq<Operation<I, O>>, done: set<nat>,
                                                      s: S, t: seq<nat>)
    requires InRange(t, |ops|) && Distinct(t) && RealTimeFrom(ops, done, t)
    requires forall j :: 0 <= j < |t| ==> t[j] !in done
    requires Run(m, ops, s, t).Some?
    ensures Continues(m, ops, done, s, t)
    decreases |t|
  {
    if t != [] {
      var done', u := done + {t[0]}, t[1..];
      assert forall j :: 0 <= j < |u| ==> u[j] == t[j + 1];
      forall j, a | 0 <= j < |u| && 0 <= a < |ops| && Precedes(ops[a], ops[u[j]])
        ensures a in done' || a in u[..j]
      {
        assert a in done || a in t[..j + 1];
        assert t[..j + 1] == [t[0]] + u[..j];
      }
      RealTimeContinues(m, ops, done', StepOp(m, s, ops[t[0]]).1, u);
      assert Minimal(ops, done, t[0]) by {
        forall y | 0 <= y < |ops| && y !in done ensures !Precedes(ops[y], ops[t[0]]) {
          assert y !in t[..0];
        }
      }
    }
  }

  /** Partial linearizations are exactly the sequences built one minimal operation at a time. */
  lemma ContinuesIsPartial<S, I, O>(m: Model<S, I, O>, ops: seq<Operation<I, O>>, t: seq<nat>)
    ensures Continues(m, ops, {}, m.init, t) <==> IsPartial(m, ops, t)
  {
    if Continues(m, ops, {}, m.init, t) {
      ContinuesInRange(m, ops, {}, m.init, t);
      ContinuesRealTime(m, ops, {}, m.init, t);
    }
    if IsPartial(m, ops, t) {
      RealTimeContinues(m, ops, {}, m.init, t);
    }
  }

  /** Equal states admit the same continuations. */
  lemma {:induction false} EqualContinues<S(!new), I(!new), O(!new)>(m: Model<S, I, O>, ops: seq<Operation<I, O>>,
                                                                     done: set<nat>, s: S, s': S, t: seq<nat>)
    requires SoundEqual(m) && m.equal(s, s')
    requires Continues(m, ops, done, s, t)
    ensures Continues(m, ops, done, s', t)
    decreases |t|
  {
    if t != [] {
      EqualContinues(m, ops, done + {t[0]}, StepOp(m, s, ops[t[0]]).1, StepOp(m, s', ops[t[0]]).1, t[1..]);
    }
  }

  /** Two histories with the same inputs, outputs and precedence have the same linearizations. */
  ghost predicate SameHistory<I, O>(a: seq<Operation<I, O>>, b: seq<Operation<I, O>>) {
    && |a| == |b|
    && (forall x :: 0 <= x < |a| ==> a[x].input == b[x].input && a[x].output == b[x].output)
    && (forall x, y :: 0 <= x < |a| && 0 <= y < |a| ==> (Precedes(a[x], a[y]) <==> Precedes(b[x], b[y])))
  }

  lemma {:induction false} SameRun<S, I, O>(m: Model<S, I, O>, a: seq<Operation<I, O>>, b: seq<Operation<I, O>>, s: S,
                                            order: seq<nat>)
    requires SameHistory(a, b) && InRange(order, |a|)
    ensures Run(m, a, s, order) == Run(m, b, s, order)
    decreases |order|
  {
    if order != [] {
      SameRun(m, a, b, StepOp(m, s, a[order[0]]).1, order[1..]);
    }
  }

  lemma SameLinearizations<S, I, O>(m: Model<S, I, O>, a: seq<Operation<I, O>>, b: seq<Operation<I, O>>)
    requires SameHistory(a, b)
    ensures forall order :: IsLinearization(m, a, order) <==> IsLinearization(m, b, order)
    ensures Linearizable(m, a) <==> Linearizable(m, b)
  {
    forall order | InRange(order, |a|) ensures IsLinearization(m, a, order) <==> IsLinearization(m, b, order) {
      SameRun(m, a, b, m.init, order);
    }
  }
}

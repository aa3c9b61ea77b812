/** The backtracking search of checkSingle (porcupine/checker.go), without its heap: what every
    iteration of its loop keeps.

    A configuration records the undo stack (the ids linearized so far and the state before and
    after each), the memo cache as a set of (ids, state) pairs, the position of the current entry,
    and the longest partial linearization recorded for every operation. */
module Search {
  import opened Options
  import opened Histories

  datatype Config<S> = Config(
    ids: seq<nat>, states: seq<S>, ghost cache: set<(set<nat>, S)>, pos: int, longest: seq<Option<seq<nat>>>)

  ghost predicate Covered(longest: seq<Option<seq<nat>>>, i: nat, len: nat) {
    i < |longest| && longest[i].Some? && len <= |longest[i].value|
  }

  /** The extension of `done` by `t` is incomplete and, when partial results are wanted, every
      operation in it has a recorded linearization at least as long. */
  ghost predicate Accounted(n: nat, longest: seq<Option<seq<nat>>>, partial: bool, done: set<nat>, t: seq<nat>) {
    && |done| + |t| < n
    && (partial ==> forall i :: i in done || i in t ==> Covered(longest, i, |done| + |t|))
  }

  /** The pair (done, s) is a dead end all of whose continuations are accounted for. */
  ghost predicate Explored<S, I, O>(m: Model<S, I, O>, ops: seq<Operation<I, O>>, longest: seq<Option<seq<nat>>>,
                                    partial: bool, done: set<nat>, s: S) {
    forall t :: Continues(m, ops, done, s, t) ==> Accounted(|ops|, longest, partial, done, t)
  }

  /** The stack is a path of accepted minimal steps from the initial state. */
  ghost predicate IsPath<S, I, O>(m: Model<S, I, O>, ops: seq<Operation<I, O>>, ids: seq<nat>, states: seq<S>) {
    && |states| == |ids| + 1 && states[0] == m.init
    && forall k :: 0 <= k < |ids| ==>
         Minimal(ops, Ids(ids[..k]), ids[k]) && StepOp(m, states[k], ops[ids[k]]) == (true, states[k + 1])
  }

  /** Call and return times are positions: pairwise different, and a call comes before its return. */
  ghost predicate DistinctTimes<I, O>(ops: seq<Operation<I, O>>) {
    && (forall x :: 0 <= x < |ops| ==> 0 <= ops[x].call < ops[x].ret)
    && (forall x, y :: 0 <= x < |ops| && 0 <= y < |ops| && x != y ==> ops[x].call != ops[y].call)
    && (forall x, y :: 0 <= x < |ops| && 0 <= y < |ops| ==> ops[x].call != ops[y].ret)
  }

  /** Everything that remains before time `p` is a call. */
  ghost predicate CallsBefore<I, O>(ops: seq<Operation<I, O>>, done: set<nat>, p: int) {
    forall y :: 0 <= y < |ops| && y !in done ==> p <= ops[y].ret
  }

  /** How far the candidates at stack level `k` have been tried. */
  ghost function Bound<S, I, O>(ops: seq<Operation<I, O>>, c: Config<S>, k: nat): int {
    if k < |c.ids| && c.ids[k] < |ops| then ops[c.ids[k]].call else c.pos
  }

  /** Every candidate before `bound` at (done, s) has been tried to the end. */
  ghost predicate Tried<S, I, O>(m: Model<S, I, O>, ops: seq<Operation<I, O>>, longest: seq<Option<seq<nat>>>,
                                 partial: bool, done: set<nat>, s: S, bound: int)
  {
    forall x: nat :: Minimal(ops, done, x) && ops[x].call < bound && StepOp(m, s, ops[x]).0 ==>
      Explored(m, ops, longest, partial, done + {x}, StepOp(m, s, ops[x]).1)
  }

  ghost predicate OnStack<S>(c: Config<S>, p: (set<nat>, S)) {
    exists k :: 0 < k <= |c.ids| && k < |c.states| && p == (Ids(c.ids[..k]), c.states[k])
  }

  ghost predicate ValidLongest<S, I, O>(m: Model<S, I, O>, ops: seq<Operation<I, O>>, longest: seq<Option<seq<nat>>>) {
    && |longest| == |ops|
    && forall i :: 0 <= i < |longest| && longest[i].Some? ==>
      i in longest[i].value && IsPartial(m, ops, longest[i].value)
  }

  ghost predicate Inv<S, I, O>(m: Model<S, I, O>, ops: seq<Operation<I, O>>, partial: bool, c: Config<S>)
  {
    && IsPath(m, ops, c.ids, c.states)
    && CallsBefore(ops, Ids(c.ids), c.pos)
    && LevelsTried(m, ops, partial, c)
    && CacheExplored(m, ops, partial, c)
    && ValidLongest(m, ops, c.longest)
  }

  /** At every level of the stack the candidates before the bound have been tried. */
  ghost predicate LevelsTried<S, I, O>(m: Model<S, I, O>, ops: seq<Operation<I, O>>, partial: bool, c: Config<S>)
    requires |c.states| == |c.ids| + 1
  {
    forall k :: 0 <= k <= |c.ids| ==>
      Tried(m, ops, c.longest, partial, Ids(c.ids[..k]), c.states[k], Bound(ops, c, k))
  }

  /** A cached pair is explored unless it is on the stack. */
  ghost predicate CacheExplored<S, I, O>(m: Model<S, I, O>, ops: seq<Operation<I, O>>, partial: bool, c: Config<S>) {
    forall p :: p in c.cache ==> Explored(m, ops, c.longest, partial, p.0, p.1) || OnStack(c, p)
  }

  // ---------------------------------------------------------------------------
  // The stack
  // ---------------------------------------------------------------------------

  lemma {:induction false} PathContinues<S, I, O>(m: Model<S, I, O>, ops: seq<Operation<I, O>>, ids: seq<nat>,
                                                  states: seq<S>, k: nat)
    requires IsPath(m, ops, ids, states) && k <= |ids|
    ensures Continues(m, ops, Ids(ids[..k]), states[k], ids[k..])
    decreases |ids| - k
  {
    if k < |ids| {
      PathContinues(m, ops, ids, states, k + 1);
      assert ids[..k + 1] == ids[..k] + [ids[k]];
      assert Ids(ids[..k + 1]) == Ids(ids[..k]) + {ids[k]};
      assert ids[k..][1..] == ids[k + 1..];
    }
  }

  lemma PathIsPartial<S, I, O>(m: Model<S, I, O>, ops: seq<Operation<I, O>>, ids: seq<nat>, states: seq<S>)
    requires IsPath(m, ops, ids, states)
    ensures IsPartial(m, ops, ids)
  {
    PathContinues(m, ops, ids, states, 0);
    assert Ids(ids[..0]) == {} && ids[0..] == ids;
    ContinuesIsPartial(m, ops, ids);
  }

  lemma PathPrefixCard<S, I, O>(m: Model<S, I, O>, ops: seq<Operation<I, O>>, ids: seq<nat>, states: seq<S>)
    requires IsPath(m, ops, ids, states)
    ensures forall k :: 0 <= k <= |ids| ==> |Ids(ids[..k])| == k
  {
    PathIsPartial(m, ops, ids, states);
    forall k | 0 <= k <= |ids| ensures |Ids(ids[..k])| == k {
      DistinctCard(ids[..k]);
    }
  }

  // ---------------------------------------------------------------------------
  // Explored pairs
  // ---------------------------------------------------------------------------

  ghost predicate Improves(longest: seq<Option<seq<nat>>>, longest': seq<Option<seq<nat>>>) {
    forall i, len :: Covered(longest, i, len) ==> Covered(longest', i, len)
  }

  lemma ExploredMonotone<S, I, O>(m: Model<S, I, O>, ops: seq<Operation<I, O>>, longest: seq<Option<seq<nat>>>,
                                  longest': seq<Option<seq<nat>>>, partial: bool, done: set<nat>, s: S)
    requires Explored(m, ops, longest, partial, done, s) && Improves(longest, longest')
    ensures Explored(m, ops, longest', partial, done, s)
  {
  }

  lemma ExploredEqual<S(!new), I(!new), O(!new)>(m: Model<S, I, O>, ops: seq<Operation<I, O>>,
                                                 longest: seq<Option<seq<nat>>>, partial: bool, done: set<nat>, s: S,
                                                 s': S)
    requires SoundEqual(m) && m.equal(s, s')
    requires Explored(m, ops, longest, partial, done, s')
    ensures Explored(m, ops, longest, partial, done, s)
  {
    forall t | Continues(m, ops, done, s, t) ensures Continues(m, ops, done, s', t) {
      EqualContinues(m, ops, done, s, s', t);
    }
  }

  /** A pair all of whose candidates have been tried is itself explored. */
  lemma {:induction false} AllTriedExplored<S, I, O>(m: Model<S, I, O>, ops: seq<Operation<I, O>>,
                                                     longest: seq<Option<seq<nat>>>, partial: bool, done: set<nat>,
                                                     s: S, pos: int, y: nat)
    requires DistinctTimes(ops) && Tried(m, ops, longest, partial, done, s, pos)
    requires y < |ops| && y !in done && pos == ops[y].ret
    requires |done| < |ops|
    requires partial ==> forall i :: i in done ==> Covered(longest, i, |done|)
    ensures Explored(m, ops, longest, partial, done, s)
  {
    forall t | Continues(m, ops, done, s, t) ensures Accounted(|ops|, longest, partial, done, t) {
      if t != [] {
        assert !Precedes(ops[y], ops[t[0]]);
        AccountedStep(m, ops, longest, partial, done, s, t);
      }
    }
  }

  lemma AccountedStep<S, I, O>(m: Model<S, I, O>, ops: seq<Operation<I, O>>, longest: seq<Option<seq<nat>>>,
                               partial: bool, done: set<nat>, s: S, t: seq<nat>)
    requires t != [] && Continues(m, ops, done, s, t)
    requires Explored(m, ops, longest, partial, done + {t[0]}, StepOp(m, s, ops[t[0]]).1)
    ensures Accounted(|ops|, longest, partial, done, t)
  {
    assert Accounted(|ops|, longest, partial, done + {t[0]}, t[1..]);
    assert t == [t[0]] + t[1..];
  }

  // ---------------------------------------------------------------------------
  // One iteration of the loop
  // ---------------------------------------------------------------------------

  /** `next` is the first remaining position after `p`. */
  ghost predicate Next<I, O>(ops: seq<Operation<I, O>>, done: set<nat>, p: int, next: int) {
    p < next && forall y :: 0 <= y < |ops| && y !in done ==> !(p < ops[y].call < next) && !(p < ops[y].ret < next)
  }

  lemma TriedNext<S, I, O>(m: Model<S, I, O>, ops: seq<Operation<I, O>>, longest: seq<Option<seq<nat>>>,
                           partial: bool, done: set<nat>, s: S, x: nat, next: int)
    requires DistinctTimes(ops) && x < |ops| && x !in done
    requires Tried(m, ops, longest, partial, done, s, ops[x].call)
    requires Next(ops, done, ops[x].call, next)
    requires StepOp(m, s, ops[x]).0 ==>
      Explored(m, ops, longest, partial, done + {x}, StepOp(m, s, ops[x]).1)
    ensures Tried(m, ops, longest, partial, done, s, next)
  {
    forall y: nat | Minimal(ops, done, y) && ops[y].call < next && StepOp(m, s, ops[y]).0
      ensures Explored(m, ops, longest, partial, done + {y}, StepOp(m, s, ops[y]).1)
    {
      assert ops[y].call <= ops[x].call;
    }
  }

  /** Moving past the current call: it was refused, or its outcome is already explored. */
  lemma {:induction false} Advance<S, I, O>(m: Model<S, I, O>, ops: seq<Operation<I, O>>, partial: bool, c: Config<S>,
                                            x: nat, next: int)
    requires DistinctTimes(ops) && Inv(m, ops, partial, c)
    requires x < |ops| && c.pos == ops[x].call && x !in Ids(c.ids)
    requires Next(ops, Ids(c.ids), c.pos, next)
    requires StepOp(m, c.states[|c.ids|], ops[x]).0 ==>
      Explored(m, ops, c.longest, partial, Ids(c.ids) + {x}, StepOp(m, c.states[|c.ids|], ops[x]).1)
    ensures Inv(m, ops, partial, c.(pos := next))
  {
    hide Explored, Tried, OnStack;
    var c', n := c.(pos := next), |c.ids|;
    assert c.ids[..n] == c.ids;
    assert CallsBefore(ops, Ids(c.ids), next);
    assert Bound(ops, c, n) == c.pos;
    TriedNext(m, ops, c.longest, partial, Ids(c.ids), c.states[n], x, next);
    forall k | 0 <= k <= n
      ensures Tried(m, ops, c.longest, partial, Ids(c.ids[..k]), c.states[k], Bound(ops, c', k))
    {
      assert Tried(m, ops, c.longest, partial, Ids(c.ids[..k]), c.states[k], Bound(ops, c, k));
    }
    forall p | p in c.cache ensures Explored(m, ops, c.longest, partial, p.0, p.1) || OnStack(c', p) {
      SameStack(c, c', p);
    }
  }

  /** A cached pair one operation larger than the stack is not on the stack, so it is explored. */
  lemma CachedExplored<S, I, O>(m: Model<S, I, O>, ops: seq<Operation<I, O>>, partial: bool, c: Config<S>, x: nat, s: S)
    requires DistinctTimes(ops) && Inv(m, ops, partial, c)
    requires x !in Ids(c.ids) && (Ids(c.ids) + {x}, s) in c.cache
    ensures Explored(m, ops, c.longest, partial, Ids(c.ids) + {x}, s)
  {
    var p := (Ids(c.ids) + {x}, s);
    PathPrefixCard(m, ops, c.ids, c.states);
    assert c.ids[..|c.ids|] == c.ids;
    assert |p.0| == |c.ids| + 1;
    assert !OnStack(c, p);
  }

  lemma {:induction false} PathPush<S, I, O>(m: Model<S, I, O>, ops: seq<Operation<I, O>>, ids: seq<nat>,
                                             states: seq<S>, x: nat, s: S)
    requires IsPath(m, ops, ids, states)
    requires Minimal(ops, Ids(ids), x) && StepOp(m, states[|ids|], ops[x]) == (true, s)
    ensures IsPath(m, ops, ids + [x], states + [s])
  {
    var ids', states' := ids + [x], states + [s];
    forall k | 0 <= k < |ids'|
      ensures Minimal(ops, Ids(ids'[..k]), ids'[k]) && StepOp(m, states'[k], ops[ids'[k]]) == (true, states'[k + 1])
    {
      assert ids'[..k] == ids[..k];
      if k == |ids| { assert ids[..k] == ids; }
    }
  }

  /** Nothing has been tried yet before the first remaining entry. */
  lemma TriedNone<S, I, O>(m: Model<S, I, O>, ops: seq<Operation<I, O>>, longest: seq<Option<seq<nat>>>,
                           partial: bool, done: set<nat>, s: S, next: int)
    requires DistinctTimes(ops) && Next(ops, done, -1, next)
    ensures Tried(m, ops, longest, partial, done, s, next)
    ensures CallsBefore(ops, done, next)
  {
  }

  /** Linearizing the current call. */
  lemma {:induction false} Push<S, I, O>(m: Model<S, I, O>, ops: seq<Operation<I, O>>, partial: bool, c: Config<S>,
                                         x: nat, s: S, next: int, c': Config<S>)
    requires DistinctTimes(ops) && Inv(m, ops, partial, c)
    requires x < |ops| && c.pos == ops[x].call && x !in Ids(c.ids)
    requires StepOp(m, c.states[|c.ids|], ops[x]) == (true, s)
    requires Next(ops, Ids(c.ids) + {x}, -1, next)
    requires c' == Config(c.ids + [x], c.states + [s], c.cache + {(Ids(c.ids) + {x}, s)}, next, c.longest)
    ensures Inv(m, ops, partial, c')
  {
    hide Explored, Tried, OnStack, Next, LevelsTried, CacheExplored, ValidLongest, DistinctTimes;
    assert Minimal(ops, Ids(c.ids), x);
    PathPush(m, ops, c.ids, c.states, x, s);
    assert Ids(c'.ids) == Ids(c.ids) + {x};
    TriedNone(m, ops, c.longest, partial, Ids(c'.ids), s, next);
    PushLevels(m, ops, partial, c, x, s, c');
    PushCache(m, ops, partial, c, x, s, c');
  }

  lemma {:induction false} PushLevels<S, I, O>(m: Model<S, I, O>, ops: seq<Operation<I, O>>, partial: bool,
                                               c: Config<S>, x: nat, s: S, c': Config<S>)
    requires IsPath(m, ops, c.ids, c.states) && LevelsTried(m, ops, partial, c) && x < |ops| && c.pos == ops[x].call
    requires c'.ids == c.ids + [x] && c'.states == c.states + [s] && c'.longest == c.longest
    requires Tried(m, ops, c.longest, partial, Ids(c'.ids), s, c'.pos)
    ensures LevelsTried(m, ops, partial, c')
  {
    hide Tried;
    var n := |c.ids|;
    assert c'.ids[..n + 1] == c'.ids;
    forall k | 0 <= k <= n + 1
      ensures Tried(m, ops, c.longest, partial, Ids(c'.ids[..k]), c'.states[k], Bound(ops, c', k))
    {
      if k <= n {
        assert c'.ids[..k] == c.ids[..k];
        assert Tried(m, ops, c.longest, partial, Ids(c.ids[..k]), c.states[k], Bound(ops, c, k));
      }
    }
  }

  lemma PushCache<S, I, O>(m: Model<S, I, O>, ops: seq<Operation<I, O>>, partial: bool, c: Config<S>, x: nat, s: S,
                           c': Config<S>)
    requires |c.states| == |c.ids| + 1 && CacheExplored(m, ops, partial, c)
    requires c'.ids == c.ids + [x] && c'.states == c.states + [s] && c'.longest == c.longest
    requires c'.cache == c.cache + {(Ids(c.ids) + {x}, s)}
    ensures CacheExplored(m, ops, partial, c')
  {
    hide Explored, OnStack;
    forall p | p in c'.cache ensures Explored(m, ops, c.longest, partial, p.0, p.1) || OnStack(c', p) {
      PushOnStack(c, x, s, c', p);
    }
  }

  lemma SameStack<S>(c: Config<S>, c': Config<S>, p: (set<nat>, S))
    requires c'.ids == c.ids && c'.states == c.states
    ensures OnStack(c', p) <==> OnStack(c, p)
  {
  }

  lemma PushOnStack<S>(c: Config<S>, x: nat, s: S, c': Config<S>, p: (set<nat>, S))
    requires |c.states| == |c.ids| + 1 && c'.ids == c.ids + [x] && c'.states == c.states + [s]
    ensures OnStack(c, p) || p == (Ids(c.ids) + {x}, s) ==> OnStack(c', p)
  {
    var n := |c.ids|;
    assert c'.ids[..n + 1] == c'.ids;
    assert Ids(c'.ids) == Ids(c.ids) + {x};
    if OnStack(c, p) {
      var k :| 0 < k <= |c.ids| && k < |c.states| && p == (Ids(c.ids[..k]), c.states[k]);
      assert c'.ids[..k] == c.ids[..k];
    } else if p == (Ids(c.ids) + {x}, s) {
      assert p == (Ids(c'.ids[..n + 1]), c'.states[n + 1]);
    }
  }

  lemma PopOnStack<S>(c: Config<S>, c': Config<S>, p: (set<nat>, S))
    requires |c.states| == |c.ids| + 1 && c.ids != []
    requires c'.ids == c.ids[..|c.ids| - 1] && c'.states == c.states[..|c.ids|]
    requires OnStack(c, p)
    ensures OnStack(c', p) || p == (Ids(c.ids), c.states[|c.ids|])
  {
    var k :| 0 < k <= |c.ids| && k < |c.states| && p == (Ids(c.ids[..k]), c.states[k]);
    if k < |c.ids| {
      assert c'.ids[..k] == c.ids[..k];
      assert p == (Ids(c'.ids[..k]), c'.states[k]);
    } else {
      assert c.ids[..k] == c.ids;
    }
  }

  /** The whole of the current level is explored once its first remaining return is reached. */
  lemma {:induction false} LevelExplored<S, I, O>(m: Model<S, I, O>, ops: seq<Operation<I, O>>, partial: bool,
                                                  c: Config<S>, longest: seq<Option<seq<nat>>>, y: nat)
    requires DistinctTimes(ops) && Inv(m, ops, partial, c)
    requires y < |ops| && y !in Ids(c.ids) && c.pos == ops[y].ret
    requires Improves(c.longest, longest)
    requires partial ==> forall i :: i in c.ids ==> Covered(longest, i, |c.ids|)
    ensures Explored(m, ops, longest, partial, Ids(c.ids), c.states[|c.ids|])
  {
    hide Explored, Tried, Improves, OnStack;
    var n, done := |c.ids|, Ids(c.ids);
    assert c.ids[..n] == c.ids;
    PathPrefixCard(m, ops, c.ids, c.states);
    PathIsPartial(m, ops, c.ids, c.states);
    PartialShort(c.ids, |ops|);
    assert Tried(m, ops, c.longest, partial, done, c.states[n], Bound(ops, c, n));
    TriedImproves(m, ops, c.longest, longest, partial, done, c.states[n], c.pos);
    AllTriedExplored(m, ops, longest, partial, done, c.states[n], c.pos, y);
  }

  lemma TriedImproves<S, I, O>(m: Model<S, I, O>, ops: seq<Operation<I, O>>, longest: seq<Option<seq<nat>>>,
                               longest': seq<Option<seq<nat>>>, partial: bool, done: set<nat>, s: S, bound: int)
    requires Tried(m, ops, longest, partial, done, s, bound) && Improves(longest, longest')
    ensures Tried(m, ops, longest', partial, done, s, bound)
  {
    forall x: nat | Minimal(ops, done, x) && ops[x].call < bound && StepOp(m, s, ops[x]).0
      ensures Explored(m, ops, longest', partial, done + {x}, StepOp(m, s, ops[x]).1)
    {
      ExploredMonotone(m, ops, longest, longest', partial, done + {x}, StepOp(m, s, ops[x]).1);
    }
  }

  lemma PathPop<S, I, O>(m: Model<S, I, O>, ops: seq<Operation<I, O>>, ids: seq<nat>, states: seq<S>)
    requires IsPath(m, ops, ids, states) && ids != []
    ensures IsPath(m, ops, ids[..|ids| - 1], states[..|ids|])
  {
    var ids' := ids[..|ids| - 1];
    forall k | 0 <= k < |ids'| ensures Minimal(ops, Ids(ids'[..k]), ids'[k]) {
      assert ids'[..k] == ids[..k];
    }
  }

  /** The facts about the top of the stack that backtracking uses. */
  lemma TopOfPath<S, I, O>(m: Model<S, I, O>, ops: seq<Operation<I, O>>, ids: seq<nat>, states: seq<S>)
    requires IsPath(m, ops, ids, states) && ids != []
    ensures var n := |ids| - 1;
      && Minimal(ops, Ids(ids[..n]), ids[n]) && StepOp(m, states[n], ops[ids[n]]) == (true, states[n + 1])
      && Ids(ids) == Ids(ids[..n]) + {ids[n]}
  {
    var n := |ids| - 1;
    assert ids == ids[..n] + [ids[n]];
  }

  /** The level below a popped pair has now tried the popped operation too. */
  lemma TriedPopped<S, I, O>(m: Model<S, I, O>, ops: seq<Operation<I, O>>, partial: bool,
                             before: seq<Option<seq<nat>>>, longest: seq<Option<seq<nat>>>, done: set<nat>, s: S,
                             x: nat, s': S, next: int)
    requires DistinctTimes(ops) && Minimal(ops, done, x) && StepOp(m, s, ops[x]) == (true, s')
    requires Tried(m, ops, before, partial, done, s, ops[x].call) && Improves(before, longest)
    requires Explored(m, ops, longest, partial, done + {x}, s')
    requires Next(ops, done, ops[x].call, next)
    ensures Tried(m, ops, longest, partial, done, s, next)
  {
    hide Explored, Tried, Improves, Next, DistinctTimes;
    TriedImproves(m, ops, before, longest, partial, done, s, ops[x].call);
    TriedNext(m, ops, longest, partial, done, s, x, next);
  }

  /** Backtracking: the popped pair is explored, and its operation has been tried one level down. */
  lemma {:induction false} Pop<S, I, O>(m: Model<S, I, O>, ops: seq<Operation<I, O>>, partial: bool, c: Config<S>,
                                        longest: seq<Option<seq<nat>>>, y: nat, next: int, c': Config<S>)
    requires DistinctTimes(ops) && Inv(m, ops, partial, c) && c.ids != []
    requires y < |ops| && y !in Ids(c.ids) && c.pos == ops[y].ret
    requires Improves(c.longest, longest) && ValidLongest(m, ops, longest)
    requires partial ==> forall i :: i in c.ids ==> Covered(longest, i, |c.ids|)
    requires Next(ops, Ids(c.ids[..|c.ids| - 1]), ops[c.ids[|c.ids| - 1]].call, next)
    requires c' == Config(c.ids[..|c.ids| - 1], c.states[..|c.ids|], c.cache, next, longest)
    ensures Inv(m, ops, partial, c')
  {
    hide Explored, Tried, Improves, OnStack, ValidLongest, LevelsTried, CacheExplored, Next, DistinctTimes;
    LevelExplored(m, ops, partial, c, longest, y);
    PathPop(m, ops, c.ids, c.states);
    TopOfPath(m, ops, c.ids, c.states);
    PopBound(ops, c, next);
    PopLevels(m, ops, partial, c, longest, next, c');
    PopCache(m, ops, partial, c, longest, c');
  }

  lemma PopBound<S, I, O>(ops: seq<Operation<I, O>>, c: Config<S>, next: int)
    requires DistinctTimes(ops) && c.ids != [] && c.ids[|c.ids| - 1] < |ops|
    requires Minimal(ops, Ids(c.ids[..|c.ids| - 1]), c.ids[|c.ids| - 1])
    requires Next(ops, Ids(c.ids[..|c.ids| - 1]), ops[c.ids[|c.ids| - 1]].call, next)
    ensures CallsBefore(ops, Ids(c.ids[..|c.ids| - 1]), next)
  {
  }

  lemma {:induction false} PopLevels<S, I, O>(m: Model<S, I, O>, ops: seq<Operation<I, O>>, partial: bool,
                                              c: Config<S>, longest: seq<Option<seq<nat>>>, next: int, c': Config<S>)
    requires DistinctTimes(ops) && IsPath(m, ops, c.ids, c.states) && c.ids != [] && LevelsTried(m, ops, partial, c)
    requires Improves(c.longest, longest) && Explored(m, ops, longest, partial, Ids(c.ids), c.states[|c.ids|])
    requires c.ids[|c.ids| - 1] < |ops| && Next(ops, Ids(c.ids[..|c.ids| - 1]), ops[c.ids[|c.ids| - 1]].call, next)
    requires c' == Config(c.ids[..|c.ids| - 1], c.states[..|c.ids|], c.cache, next, longest)
    ensures LevelsTried(m, ops, partial, c')
  {
    hide Explored, Tried, Improves, Next, DistinctTimes;
    TopOfPath(m, ops, c.ids, c.states);
    forall k | 0 <= k <= |c'.ids|
      ensures Tried(m, ops, longest, partial, Ids(c'.ids[..k]), c'.states[k], Bound(ops, c', k))
    {
      assert c'.ids[..k] == c.ids[..k];
      var done, s, bound := Ids(c.ids[..k]), c.states[k], Bound(ops, c, k);
      assert Tried(m, ops, c.longest, partial, done, s, bound);
      if k < |c'.ids| {
        TriedImproves(m, ops, c.longest, longest, partial, done, s, bound);
      } else {
        TriedPopped(m, ops, partial, c.longest, longest, done, s, c.ids[k], c.states[k + 1], next);
      }
    }
  }

  lemma PopCache<S, I, O>(m: Model<S, I, O>, ops: seq<Operation<I, O>>, partial: bool, c: Config<S>,
                          longest: seq<Option<seq<nat>>>, c': Config<S>)
    requires |c.states| == |c.ids| + 1 && c.ids != [] && CacheExplored(m, ops, partial, c)
    requires Improves(c.longest, longest) && Explored(m, ops, longest, partial, Ids(c.ids), c.states[|c.ids|])
    requires c' == Config(c.ids[..|c.ids| - 1], c.states[..|c.ids|], c.cache, c'.pos, longest)
    ensures CacheExplored(m, ops, partial, c')
  {
    hide Explored, Improves, OnStack;
    forall p | p in c'.cache ensures Explored(m, ops, longest, partial, p.0, p.1) || OnStack(c', p) {
      if OnStack(c, p) {
        PopOnStack(c, c', p);
      } else {
        ExploredMonotone(m, ops, c.longest, longest, partial, p.0, p.1);
      }
    }
  }

  /** Nothing is left: the stack is a linearization. */
  lemma {:induction false} FinishLinearizable<S, I, O>(m: Model<S, I, O>, ops: seq<Operation<I, O>>, partial: bool,
                                                       c: Config<S>)
    requires DistinctTimes(ops) && Inv(m, ops, partial, c)
    requires forall x :: 0 <= x < |ops| ==> x in Ids(c.ids)
    ensures IsLinearization(m, ops, c.ids)
  {
    PathIsPartial(m, ops, c.ids, c.states);
    PartialShort(c.ids, |ops|);
    assert Ids(c.ids) == UpTo(|ops|);
    DistinctCard(c.ids);
    LinearizationIsCompletePartial(m, ops, c.ids);
  }

  /** The first return is reached with an empty stack: there is no linearization, and when partial
      results are wanted every recorded one is as long as any that contains its operation. */
  lemma FinishIllegal<S, I, O>(m: Model<S, I, O>, ops: seq<Operation<I, O>>, partial: bool, c: Config<S>, y: nat)
    requires DistinctTimes(ops) && Inv(m, ops, partial, c) && c.ids == []
    requires y < |ops| && c.pos == ops[y].ret
    ensures !Linearizable(m, ops)
    ensures partial ==> forall t, i :: IsPartial(m, ops, t) && i in t ==> Covered(c.longest, i, |t|)
  {
    LevelExplored(m, ops, partial, c, c.longest, y);
    assert Ids(c.ids) == {};
    forall t | IsPartial(m, ops, t)
      ensures |t| < |ops| && (partial ==> forall i :: i in t ==> Covered(c.longest, i, |t|))
    {
      ContinuesIsPartial(m, ops, t);
    }
    forall t ensures !IsLinearization(m, ops, t) {
      LinearizationIsCompletePartial(m, ops, t);
    }
  }
}

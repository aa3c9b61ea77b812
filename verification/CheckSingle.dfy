/** checkSingle (porcupine/checker.go): the memoized backtracking search for a linearization of one
    history, over its linked list of entries, bitset of linearized operations, hashed cache and
    undo stack.  It terminates, and it answers exactly whether a linearization exists. */
module SingleCheck {
  import opened Options
  import opened Histories
  import opened Search
  import opened Entries
  import opened Bitset
  import opened MemoCache
  import opened LinkedEntries
  import opened LinkedHistory

  // ---------------------------------------------------------------------------
  // Building the list
  // ---------------------------------------------------------------------------

  /** Node `n` carries entry `e`, and `ret` is the node of its return if it is a call. */
  ghost predicate Carries<I, O>(n: Node<I, O>, e: Entry<I, O>, ret: Node?<I, O>) {
    && n.id == e.id
    && if e.CallEntry? then n.value == Input(e.input) && n.matching == ret
       else n.value == Output(e.output) && n.matching == null
  }

  /** The nodes built for the entries from position `i` on. */
  ghost predicate Built<I, O>(h: seq<Entry<I, O>>, i: nat, at: map<nat, Node<I, O>>, matches: map<nat, Node<I, O>>) {
    && HasFrom(h, i, at)
    && (forall p: nat, q: nat :: i <= p < q < |h| ==> at[p] != at[q])
    && (forall p: nat :: i <= p < |h| ==> BuiltAt(h, i, at, matches, p))
  }

  /** The node at position `p` carries its entry; a call's node has the return's for its match. */
  ghost predicate BuiltAt<I, O>(h: seq<Entry<I, O>>, i: nat, at: map<nat, Node<I, O>>, matches: map<nat, Node<I, O>>,
                                p: nat)
    requires i <= p < |h| && HasFrom(h, i, at)
  {
    if h[p].CallEntry? then
      i <= RetPos(h, h[p].id) < |h| && Carries(at[p], h[p], at[RetPos(h, h[p].id)])
    else
      Carries(at[p], h[p], null) && h[p].id in matches && matches[h[p].id] == at[p]
  }

  ghost function ListFrom<I, O>(h: seq<Entry<I, O>>, i: nat, at: map<nat, Node<I, O>>): seq<Node<I, O>>
    requires i <= |h| && HasFrom(h, i, at)
  {
    seq(|h| - i, k requires 0 <= k < |h| - i => at[i + k])
  }

  lemma ReturnOf<I, O>(h: seq<Entry<I, O>>, i: nat)
    requires WellFormed(h) && i < |h|
    ensures h[i].CallEntry? ==> var r := RetPos(h, h[i].id); i < r < |h| && h[r].ReturnEntry? && h[r].id == h[i].id
    ensures h[i].ReturnEntry? ==> forall p :: 0 <= p < |h| && p != i && h[p].ReturnEntry? ==> h[p].id != h[i].id
  {
    EntriesOf(h, h[i].id);
  }

  lemma BuiltStep<I, O>(h: seq<Entry<I, O>>, i: nat, at: map<nat, Node<I, O>>, matches: map<nat, Node<I, O>>,
                        n: Node<I, O>, matches': map<nat, Node<I, O>>)
    requires WellFormed(h) && i < |h| && Built(h, i + 1, at, matches)
    requires forall p: nat :: i < p < |h| ==> at[p] != n
    requires Carries(n, h[i], if h[i].id in matches then matches[h[i].id] else null)
    requires matches' == if h[i].ReturnEntry? then matches[h[i].id := n] else matches
    ensures Built(h, i, at[i := n], matches')
  {
    hide WellFormed, RetPos, Carries, BuiltAt;
    ReturnOf(h, i);
    var at' := at[i := n];
    forall p: nat | i <= p < |h| ensures BuiltAt(h, i, at', matches', p) {
      if p == i {
        FirstBuilt(h, i, at, matches, n, matches');
      } else {
        StaysBuilt(h, i, at, matches, n, matches', p);
      }
    }
  }

  lemma FirstBuilt<I, O>(h: seq<Entry<I, O>>, i: nat, at: map<nat, Node<I, O>>, matches: map<nat, Node<I, O>>,
                         n: Node<I, O>, matches': map<nat, Node<I, O>>)
    requires WellFormed(h) && i < |h| && Built(h, i + 1, at, matches)
    requires Carries(n, h[i], if h[i].id in matches then matches[h[i].id] else null)
    requires matches' == if h[i].ReturnEntry? then matches[h[i].id := n] else matches
    ensures HasFrom(h, i, at[i := n]) && BuiltAt(h, i, at[i := n], matches', i)
  {
    hide WellFormed, RetPos, Carries;
    ReturnOf(h, i);
    if h[i].CallEntry? {
      assert BuiltAt(h, i + 1, at, matches, RetPos(h, h[i].id));
    } else {
      AloneCarries(n, h[i], if h[i].id in matches then matches[h[i].id] else null);
    }
  }

  lemma StaysBuilt<I, O>(h: seq<Entry<I, O>>, i: nat, at: map<nat, Node<I, O>>, matches: map<nat, Node<I, O>>,
                         n: Node<I, O>, matches': map<nat, Node<I, O>>, p: nat)
    requires WellFormed(h) && i < p < |h| && HasFrom(h, i + 1, at) && BuiltAt(h, i + 1, at, matches, p)
    requires matches' == if h[i].ReturnEntry? then matches[h[i].id := n] else matches
    ensures HasFrom(h, i, at[i := n]) && BuiltAt(h, i, at[i := n], matches', p)
  {
    hide WellFormed, RetPos, Carries;
    ReturnOf(h, i);
  }

  /** What a return node carries does not depend on a match. */
  lemma AloneCarries<I, O>(n: Node<I, O>, e: Entry<I, O>, r: Node?<I, O>)
    requires Carries(n, e, r) && e.ReturnEntry?
    ensures Carries(n, e, null)
  {
  }

  lemma ListStep<I, O>(h: seq<Entry<I, O>>, i: nat, at: map<nat, Node<I, O>>, n: Node<I, O>)
    requires i < |h| && HasFrom(h, i + 1, at)
    ensures ListFrom(h, i, at[i := n]) == [n] + ListFrom(h, i + 1, at)
  {
  }

  lemma BuiltAll<I, O>(h: seq<Entry<I, O>>, at: map<nat, Node<I, O>>, matches: map<nat, Node<I, O>>)
    requires HasFrom(h, 0, at) && Built(h, 0, at, matches)
    ensures Represents(h, ListFrom(h, 0, at)) && |ListFrom(h, 0, at)| == |h|
  {
    hide RetPos;
    assert forall p: nat :: p < |h| ==> BuiltAt(h, 0, at, matches, p) && ListFrom(h, 0, at)[p] == at[p];
  }

  method NewNode<I, O>(elem: Entry<I, O>, ret: Node?<I, O>) returns (n: Node<I, O>)
    ensures fresh(n) && n.next == null && n.prev == null && Carries(n, elem, ret)
  {
    if elem.ReturnEntry? {
      n := new Node(Output(elem.output), null, elem.id);
    } else {
      n := new Node(Input(elem.input), ret, elem.id);
    }
  }

  ghost predicate HasFrom<I, O>(h: seq<Entry<I, O>>, i: nat, at: map<nat, Node<I, O>>) {
    forall p: nat :: i <= p < |h| ==> p in at
  }

  /** Adding the node of entry `i` in front of the nodes of the entries after it. */
  lemma FrontStep<I, O>(h: seq<Entry<I, O>>, i: nat, at: map<nat, Node<I, O>>, matches: map<nat, Node<I, O>>,
                        list: seq<Node<I, O>>, n: Node<I, O>, matches': map<nat, Node<I, O>>)
    requires WellFormed(h) && i < |h| && HasFrom(h, i + 1, at) && Built(h, i + 1, at, matches)
    requires list == ListFrom(h, i + 1, at) && n !in list
    requires Carries(n, h[i], if h[i].id in matches then matches[h[i].id] else null)
    requires matches' == if h[i].ReturnEntry? then matches[h[i].id := n] else matches
    ensures HasFrom(h, i, at[i := n]) && Built(h, i, at[i := n], matches')
    ensures [n] + list == ListFrom(h, i, at[i := n])
    ensures list[..0] + [n] + list[0..] == [n] + list
  {
    hide WellFormed, Built, Carries;
    assert forall p: nat :: i < p < |h| ==> at[p] == list[p - i - 1];
    BuiltStep(h, i, at, matches, n, matches');
    ListStep(h, i, at, n);
  }

  lemma BuiltNone<I, O>(h: seq<Entry<I, O>>)
    ensures HasFrom<I, O>(h, |h|, map[]) && Built<I, O>(h, |h|, map[], map[]) && ListFrom<I, O>(h, |h|, map[]) == []
    ensures Linked<I, O>([])
  {
  }

  method MakeLinkedEntries<I, O>(h: seq<Entry<I, O>>) returns (root: Node?<I, O>, ghost nodes: seq<Node<I, O>>)
    requires WellFormed(h)
    ensures fresh(nodes) && |nodes| == |h| && Linked(nodes) && Represents(h, nodes)
    ensures root == if nodes == [] then null else nodes[0]
  {
    hide WellFormed, Represents, Linked, Carries, Built, ListFrom, HasFrom;
    root := null;
    nodes := [];
    var matches: map<nat, Node<I, O>> := map[];
    ghost var at: map<nat, Node<I, O>> := map[];
    BuiltNone(h);
    for i := |h| downto 0
      invariant HasFrom(h, i, at) && Built(h, i, at, matches) && nodes == ListFrom(h, i, at)
      invariant fresh(nodes) && Linked(nodes)
      invariant root == if nodes == [] then null else nodes[0]
    {
      var elem := h[i];
      var entry := NewNode(elem, if elem.id in matches then matches[elem.id] else null);
      var _ := InsertBefore(entry, root, nodes, 0);
      ghost var matches0 := matches;
      if elem.ReturnEntry? {
        matches := matches[elem.id := entry];
      }
      FrontStep(h, i, at, matches0, nodes, entry, matches);
      root, nodes, at := entry, [entry] + nodes, at[i := entry];
    }
    BuiltAll(h, at, matches);
  }

  method Length<I, O>(n: Node?<I, O>, ghost spine: seq<Node<I, O>>) returns (l: nat)
    requires Linked(spine) && n == if spine == [] then null else spine[0]
    ensures l == |spine|
  {
    l := 0;
    var at := n;
    while at != null
      invariant l <= |spine| && at == if l < |spine| then spine[l] else null
      decreases |spine| - l
    {
      at := at.next;
      l := l + 1;
    }
  }

  // ---------------------------------------------------------------------------
  // The state of the search and its configuration
  // ---------------------------------------------------------------------------

  datatype CallsEntry<S, I, O> = CallsEntry(entry: Node<I, O>, state: S)

  ghost predicate StackOf<S, I, O>(h: seq<Entry<I, O>>, nodes: seq<Node<I, O>>, calls: seq<CallsEntry<S, I, O>>,
                                   ids: seq<nat>, states: seq<S>) {
    && |calls| == |ids| && |states| == |ids| + 1 && |nodes| == |h|
    && forall k :: 0 <= k < |calls| ==>
         && ids[k] < NumOps(h) && CallPos(h, ids[k]) < |h|
         && calls[k] == CallsEntry(nodes[CallPos(h, ids[k])], states[k])
         && calls[k].entry.id == ids[k]
  }

  /** The current entry is at the configuration's position, which is not linearized. */
  ghost predicate AtPosition<S, I, O>(h: seq<Entry<I, O>>, nodes: seq<Node<I, O>>, entry: Node?<I, O>, c: Config<S>) {
    && 0 <= c.pos <= |h| && entry == NodeAt(nodes, c.pos)
    && (c.pos < |h| ==> h[c.pos].id !in Ids(c.ids))
  }

  /** What the current node says about its operation. */
  lemma CurrentEntry<I, O>(h: seq<Entry<I, O>>, head: Node<I, O>, nodes: seq<Node<I, O>>, p: nat)
    requires ListOf(h, head, nodes) && p < |h|
    ensures var x, ops := h[p].id, OpsOf(h);
      && x < |ops| && nodes[p].id == x && (nodes[p].matching != null <==> h[p].CallEntry?)
      && (h[p].CallEntry? ==>
            && p == CallPos(h, x) && p == ops[x].call
            && nodes[p].value == Input(ops[x].input) && nodes[p].matching.value == Output(ops[x].output))
      && (h[p].ReturnEntry? ==> p == ops[x].ret)
  {
    EntriesOf(h, h[p].id);
  }

  /** While something remains, the search stands at an entry. */
  lemma InsideHistory<S, I, O>(m: Model<S, I, O>, h: seq<Entry<I, O>>, partial: bool, c: Config<S>)
    requires WellFormed(h) && Inv(m, OpsOf(h), partial, c) && c.pos <= |h|
    requires FirstFrom(h, Ids(c.ids), 0) < |h|
    ensures c.pos < |h|
  {
    var x := h[FirstFrom(h, Ids(c.ids), 0)].id;
    EntriesOf(h, x);
    assert c.pos <= OpsOf(h)[x].ret;
  }

  lemma NothingRemains<I, O>(h: seq<Entry<I, O>>, done: set<nat>)
    requires WellFormed(h) && FirstFrom(h, done, 0) == |h|
    ensures forall x :: 0 <= x < |OpsOf(h)| ==> x in done
  {
    forall x: nat | x < NumOps(h) ensures x in done {
      EntriesOf(h, x);
    }
  }

  lemma InvIds<S, I, O>(m: Model<S, I, O>, ops: seq<Operation<I, O>>, partial: bool, c: Config<S>)
    requires Inv(m, ops, partial, c)
    ensures |c.states| == |c.ids| + 1 && InRange(c.ids, |ops|) && Distinct(c.ids)
    ensures IsPartial(m, ops, c.ids) && ValidLongest(m, ops, c.longest)
  {
    PathIsPartial(m, ops, c.ids, c.states);
  }

  /** The configuration before the first iteration. */
  lemma InvStart<S, I, O>(m: Model<S, I, O>, h: seq<Entry<I, O>>, partial: bool, c: Config<S>)
    requires WellFormed(h)
    requires c == Config([], [m.init], {}, 0, c.longest) && |c.longest| == NumOps(h)
    requires forall i :: 0 <= i < |c.longest| ==> c.longest[i].None?
    ensures Inv(m, OpsOf(h), partial, c)
    ensures |h| > 0 ==> FirstFrom(h, Ids(c.ids), 0) == 0
  {
    OpsDistinctTimes(h);
  }

  // ---------------------------------------------------------------------------
  // Termination: only finitely many pairs can ever be cached
  // ---------------------------------------------------------------------------

  ghost function Reach<S, I, O>(m: Model<S, I, O>, ops: seq<Operation<I, O>>, k: nat): set<S> {
    if k == 0 then {m.init}
    else Reach(m, ops, k - 1) + set s, x | s in Reach(m, ops, k - 1) && 0 <= x < |ops| :: StepOp(m, s, ops[x]).1
  }

  ghost function PossiblePairs<S, I, O>(m: Model<S, I, O>, ops: seq<Operation<I, O>>): set<(set<nat>, S)> {
    set d, s | d <= UpTo(|ops|) && s in Reach(m, ops, |ops|) :: (d, s)
  }

  lemma {:induction false} ReachGrows<S, I, O>(m: Model<S, I, O>, ops: seq<Operation<I, O>>, j: nat, k: nat)
    requires j <= k
    ensures Reach(m, ops, j) <= Reach(m, ops, k)
    decreases k
  {
    if j < k { ReachGrows(m, ops, j, k - 1); }
  }

  lemma {:induction false} PathReach<S, I, O>(m: Model<S, I, O>, ops: seq<Operation<I, O>>, ids: seq<nat>,
                                              states: seq<S>, k: nat)
    requires IsPath(m, ops, ids, states) && k <= |ids|
    ensures |states| == |ids| + 1 && states[k] in Reach(m, ops, k)
  {
    hide IsPath, StepOp;
    PathStep(m, ops, ids, states, k - 1);
    if 0 < k {
      PathReach(m, ops, ids, states, k - 1);
      ReachStep(m, ops, states[k - 1], ids[k - 1], k - 1);
    }
  }

  lemma PathStep<S, I, O>(m: Model<S, I, O>, ops: seq<Operation<I, O>>, ids: seq<nat>, states: seq<S>, k: int)
    requires IsPath(m, ops, ids, states)
    ensures |states| == |ids| + 1 && states[0] == m.init
    ensures 0 <= k < |ids| ==> ids[k] < |ops| && states[k + 1] == StepOp(m, states[k], ops[ids[k]]).1
  {
    hide StepOp, CallsBefore;
    if 0 <= k < |ids| {
      assert Minimal(ops, Ids(ids[..k]), ids[k]);
    }
  }

  /** A pair about to be cached is one of the finitely many. */
  lemma {:induction false} NewPairPossible<S, I, O>(m: Model<S, I, O>, ops: seq<Operation<I, O>>, partial: bool,
                                                    c: Config<S>, x: nat)
    requires Inv(m, ops, partial, c) && x < |ops| && x !in Ids(c.ids)
    ensures (Ids(c.ids) + {x}, StepOp(m, c.states[|c.ids|], ops[x]).1) in PossiblePairs(m, ops)
  {
    hide Reach, PossiblePairs, LevelsTried, CacheExplored, ValidLongest, StepOp, IsPath, CallsBefore;
    var n := |c.ids|;
    PathShort(m, ops, c.ids, c.states, x);
    PathReach(m, ops, c.ids, c.states, n);
    ReachStep(m, ops, c.states[n], x, n);
    ReachGrows(m, ops, n + 1, |ops|);
    PairPossible(m, ops, Ids(c.ids) + {x}, StepOp(m, c.states[n], ops[x]).1);
  }

  /** There is room for one more operation on the stack as long as one is missing. */
  lemma PathShort<S, I, O>(m: Model<S, I, O>, ops: seq<Operation<I, O>>, ids: seq<nat>, states: seq<S>, x: nat)
    requires IsPath(m, ops, ids, states) && x < |ops| && x !in Ids(ids)
    ensures |ids| < |ops| && Ids(ids) + {x} <= UpTo(|ops|) && |states| == |ids| + 1
  {
    hide RealTime, Run, Minimal, StepOp;
    PathIsPartial(m, ops, ids, states);
    PartialShort(ids, |ops|);
  }

  lemma PairPossible<S, I, O>(m: Model<S, I, O>, ops: seq<Operation<I, O>>, d: set<nat>, s: S)
    requires d <= UpTo(|ops|) && s in Reach(m, ops, |ops|)
    ensures (d, s) in PossiblePairs(m, ops)
  {
    hide Reach, UpTo;
  }

  lemma ReachStep<S, I, O>(m: Model<S, I, O>, ops: seq<Operation<I, O>>, s: S, x: nat, k: nat)
    requires s in Reach(m, ops, k) && x < |ops|
    ensures StepOp(m, s, ops[x]).1 in Reach(m, ops, k + 1)
  {
    hide StepOp;
  }

  // ---------------------------------------------------------------------------
  // Recording the longest partial linearizations
  // ---------------------------------------------------------------------------

  /** The ids on the undo stack, bottom first. */
  method StackIds<S, I, O>(calls: seq<CallsEntry<S, I, O>>, ghost ids: seq<nat>) returns (r: seq<nat>)
    requires |calls| == |ids| && forall k :: 0 <= k < |calls| ==> calls[k].entry.id == ids[k]
    ensures r == ids
  {
    r := [];
    for i := 0 to |calls|
      invariant r == ids[..i]
    {
      r := r + [calls[i].entry.id];
    }
  }

  /** `i` is on the stack and the stack is longer than what is recorded for it. */
  predicate Beats(longest: seq<Option<seq<nat>>>, ids: seq<nat>, i: nat) {
    i < |longest| && (longest[i].None? || |ids| > |longest[i].value|)
  }

  method RecordLongest<S, I, O>(calls: seq<CallsEntry<S, I, O>>, longest: seq<Option<seq<nat>>>, ghost ids: seq<nat>)
    returns (r: seq<Option<seq<nat>>>)
    requires |calls| == |ids| && Distinct(ids)
    requires forall k :: 0 <= k < |calls| ==> calls[k].entry.id == ids[k] < |longest|
    ensures |r| == |longest|
    ensures forall i: nat :: i < |r| ==> r[i] == if i in ids && Beats(longest, ids, i) then Some(ids) else longest[i]
  {
    r := longest;
    var made: Option<seq<nat>> := None;
    for k := 0 to |calls|
      invariant |r| == |longest|
      invariant made.Some? ==> made.value == ids
      invariant forall i: nat :: i < |r| ==>
        r[i] == if i in ids[..k] && Beats(longest, ids, i) then Some(ids) else longest[i]
    {
      var id: nat := calls[k].entry.id;
      assert id !in ids[..k] && ids[..k + 1] == ids[..k] + [id];
      if r[id].None? || |calls| > |r[id].value| {
        if made.None? {
          var stack := StackIds(calls, ids);
          made := Some(stack);
        }
        r := r[id := made];
      }
    }
    assert ids[..|calls|] == ids;
  }

  /** Recording never loses anything, and covers the whole stack. */
  lemma RecordImproves<S, I, O>(m: Model<S, I, O>, ops: seq<Operation<I, O>>, ids: seq<nat>,
                                longest: seq<Option<seq<nat>>>, r: seq<Option<seq<nat>>>)
    requires ValidLongest(m, ops, longest) && IsPartial(m, ops, ids) && |r| == |longest|
    requires forall i: nat :: i < |r| ==> r[i] == if i in ids && Beats(longest, ids, i) then Some(ids) else longest[i]
    ensures ValidLongest(m, ops, r) && Improves(longest, r)
    ensures forall i :: i in ids ==> Covered(r, i, |ids|)
  {
  }

  // ---------------------------------------------------------------------------
  // The search
  // ---------------------------------------------------------------------------

  lemma StackPush<S, I, O>(h: seq<Entry<I, O>>, nodes: seq<Node<I, O>>, calls: seq<CallsEntry<S, I, O>>,
                           ids: seq<nat>, states: seq<S>, entry: Node<I, O>, x: nat, s: S)
    requires StackOf(h, nodes, calls, ids, states) && x < NumOps(h) && CallPos(h, x) < |h|
    requires entry == nodes[CallPos(h, x)] && entry.id == x
    ensures StackOf(h, nodes, calls + [CallsEntry(entry, states[|ids|])], ids + [x], states + [s])
  {
  }

  lemma StackPop<S, I, O>(h: seq<Entry<I, O>>, nodes: seq<Node<I, O>>, calls: seq<CallsEntry<S, I, O>>, ids: seq<nat>,
                          states: seq<S>)
    requires StackOf(h, nodes, calls, ids, states) && ids != []
    ensures StackOf(h, nodes, calls[..|calls| - 1], ids[..|ids| - 1], states[..|ids|])
    ensures var x, top := ids[|ids| - 1], calls[|calls| - 1];
      && x < NumOps(h) && CallPos(h, x) < |h| && top.entry == nodes[CallPos(h, x)] && top.entry.id == x
      && top.state == states[|ids| - 1]
  {
  }

  /** What an answer of the search means. */
  ghost predicate Verdict<S, I, O>(m: Model<S, I, O>, ops: seq<Operation<I, O>>, partial: bool, killed: bool,
                                   ok: bool, longest: seq<Option<seq<nat>>>) {
    && |longest| == |ops|
    && (ok ==> Linearizable(m, ops) && forall i :: 0 <= i < |ops| ==>
      longest[i].Some? && IsLinearization(m, ops, longest[i].value))
    && (!ok ==> ValidLongest(m, ops, longest))
    && (!ok && !partial ==> forall i :: 0 <= i < |ops| ==> longest[i].None?)
    && (!ok && !killed ==> !Linearizable(m, ops))
    && (!ok && !killed && partial ==> MaximalLongest(m, ops, longest))
  }

  /** No recorded partial linearization is longer than `n`. */
  ghost predicate RecordedWithin(longest: seq<Option<seq<nat>>>, n: int) {
    forall i :: 0 <= i < |longest| && longest[i].Some? ==> |longest[i].value| <= n
  }

  /** None of the first `n` loads sees the flag set. */
  ghost predicate UnsetUpTo(kill: nat -> bool, n: nat) {
    forall k: nat :: k < n ==> !kill(k)
  }

  /** What an answer means for the kill flag: none of `n` loads saw it set, a linearization took at least
      one load for each operation and a partial one another, and the search either came to its end or
      was stopped by the next load. */
  ghost predicate Answer<S, I, O>(m: Model<S, I, O>, ops: seq<Operation<I, O>>, partial: bool, kill: nat -> bool,
                                  n: nat, ok: bool, longest: seq<Option<seq<nat>>>) {
    && UnsetUpTo(kill, n) && RecordedWithin(longest, if ok then n else n - 1)
    && (|| (Verdict(m, ops, partial, false, ok, longest) && (ops != [] ==> n >= 1))
        || (Verdict(m, ops, partial, true, ok, longest) && ops != [] && kill(n) && !ok))
  }

  /** A flag that is set from the start stops the search of any operations before it records anything. */
  lemma KilledAtOnce<S, I, O>(m: Model<S, I, O>, ops: seq<Operation<I, O>>, partial: bool, kill: nat -> bool, n: nat,
                              ok: bool, longest: seq<Option<seq<nat>>>)
    requires Answer(m, ops, partial, kill, n, ok, longest) && ops != [] && kill(0)
    ensures !ok && NoneRecorded(longest)
  {
    hide Linearizable, IsPartial, MaximalLongest, IsLinearization;
  }

  /** A search that answers true saw the flag unset at least once for each operation. */
  lemma TrueNeedsLoads<S, I, O>(m: Model<S, I, O>, ops: seq<Operation<I, O>>, partial: bool, kill: nat -> bool, n: nat,
                                ok: bool, longest: seq<Option<seq<nat>>>)
    requires Answer(m, ops, partial, kill, n, ok, longest) && ok
    ensures Linearizable(m, ops) && forall k: nat :: k < |ops| ==> !kill(k)
  {
    hide Linearizable, IsPartial, MaximalLongest;
    if ops != [] { assert IsLinearization(m, ops, longest[0].value); }
  }

  lemma AnswerVerdict<S, I, O>(m: Model<S, I, O>, ops: seq<Operation<I, O>>, partial: bool, kill: nat -> bool, n: nat,
                               ok: bool, longest: seq<Option<seq<nat>>>)
    requires Answer(m, ops, partial, kill, n, ok, longest)
    ensures Verdict(m, ops, partial, exists k: nat :: kill(k), ok, longest)
  {
    hide Linearizable, IsPartial, MaximalLongest, ValidLongest;
  }

  /** Nothing is recorded for an operation exactly when no partial linearization contains it, and
      what is recorded is as long as any that does. */
  ghost predicate MaximalLongest<S, I, O>(m: Model<S, I, O>, ops: seq<Operation<I, O>>,
                                          longest: seq<Option<seq<nat>>>) {
    && |longest| == |ops|
    && (forall i :: 0 <= i < |ops| ==> (longest[i].None? <==> !exists t :: IsPartial(m, ops, t) && i in t))
    && (forall i, t :: 0 <= i < |ops| && IsPartial(m, ops, t) && i in t ==> |t| <= |longest[i].value|)
  }

  ghost predicate IsLongest<S, I, O>(m: Model<S, I, O>, ops: seq<Operation<I, O>>, x: nat, t: seq<nat>) {
    IsPartial(m, ops, t) && x in t && forall u :: IsPartial(m, ops, u) && x in u ==> |u| <= |t|
  }

  /** Among the partial linearizations that contain an operation there is a longest one. */
  lemma {:induction false} LongestExists<S, I, O>(m: Model<S, I, O>, ops: seq<Operation<I, O>>, x: nat, t: seq<nat>)
    requires IsPartial(m, ops, t) && x in t
    ensures exists u :: IsLongest(m, ops, x, u)
    decreases |ops| - |t|
  {
    if !IsLongest(m, ops, x, t) {
      var u :| IsPartial(m, ops, u) && x in u && |u| > |t|;
      PartialShort(u, |ops|);
      LongestExists(m, ops, x, u);
    }
  }

  ghost function LongestWith<S, I, O>(m: Model<S, I, O>, ops: seq<Operation<I, O>>, x: nat): (r: Option<seq<nat>>)
    ensures r.Some? ==> IsLongest(m, ops, x, r.value)
    ensures r.None? ==> forall t :: IsPartial(m, ops, t) ==> x !in t
  {
    if exists t :: IsPartial(m, ops, t) && x in t then
      var t :| IsPartial(m, ops, t) && x in t;
      LongestExists(m, ops, x, t);
      var u :| IsLongest(m, ops, x, u);
      Some(u)
    else None
  }

  /** Every history has a verdict. */
  lemma VerdictExists<S, I, O>(m: Model<S, I, O>, ops: seq<Operation<I, O>>, partial: bool)
    returns (ok: bool, longest: seq<Option<seq<nat>>>)
    ensures Verdict(m, ops, partial, false, ok, longest)
  {
    hide IsPartial, IsLinearization;
    ok := Linearizable(m, ops);
    if ok {
      var order :| IsLinearization(m, ops, order);
      longest := seq(|ops|, _ => Some(order));
    } else if partial {
      longest := seq(|ops|, x requires 0 <= x < |ops| => LongestWith(m, ops, x));
    } else {
      longest := seq(|ops|, _ => None);
    }
  }

  /** Whatever the flag, unset throughout or set from the start, there is an answer for it. */
  lemma AnswerExists<S, I, O>(m: Model<S, I, O>, ops: seq<Operation<I, O>>, partial: bool, kill: nat -> bool)
    returns (n: nat, ok: bool, longest: seq<Option<seq<nat>>>)
    requires kill(0) || forall k: nat :: !kill(k)
    ensures Answer(m, ops, partial, kill, n, ok, longest)
  {
    hide Linearizable, IsLinearization, MaximalLongest;
    if kill(0) && ops != [] {
      n, ok, longest := 0, false, seq(|ops|, _ => None);
    } else {
      ok, longest := VerdictExists(m, ops, partial);
      n := if ops == [] then 0 else |ops| + 1;
      if ops == [] { NothingToDo(m); }
      forall i | 0 <= i < |longest| && longest[i].Some? ensures |longest[i].value| <= |ops| {
        RecordedShort(m, ops, ok, longest, i);
      }
    }
  }

  lemma NothingToDo<S, I, O>(m: Model<S, I, O>)
    ensures Linearizable<S, I, O>(m, [])
  {
    assert IsLinearization<S, I, O>(m, [], []);
  }

  lemma RecordedShort<S, I, O>(m: Model<S, I, O>, ops: seq<Operation<I, O>>, ok: bool,
                               longest: seq<Option<seq<nat>>>, i: nat)
    requires i < |ops| == |longest| && longest[i].Some?
    requires if ok then IsLinearization(m, ops, longest[i].value) else IsPartial(m, ops, longest[i].value)
    ensures |longest[i].value| <= |ops|
  {
    if !ok { PartialShort(longest[i].value, |ops|); }
  }

  lemma IllegalVerdict<S, I, O>(m: Model<S, I, O>, ops: seq<Operation<I, O>>, partial: bool, killed: bool,
                                c: Config<S>, y: nat)
    requires DistinctTimes(ops) && Inv(m, ops, partial, c) && c.ids == []
    requires y < |ops| && c.pos == ops[y].ret && (partial || NoneRecorded(c.longest))
    ensures Verdict(m, ops, partial, killed, false, c.longest)
  {
    FinishIllegal(m, ops, partial, c, y);
    if partial {
      forall i, t | 0 <= i < |ops| && IsPartial(m, ops, t) && i in t
        ensures IsRecorded(c.longest, i) && |t| <= |c.longest[i].value|
      {
        assert Covered(c.longest, i, |t|);
      }
    }
  }

  ghost predicate NoneRecorded(longest: seq<Option<seq<nat>>>) {
    forall i :: 0 <= i < |longest| ==> longest[i].None?
  }

  predicate IsRecorded(longest: seq<Option<seq<nat>>>, i: nat) {
    i < |longest| && longest[i].Some?
  }

  lemma {:induction false} RemainingAll<I, O>(h: seq<Entry<I, O>>, k: nat)
    requires k <= |h|
    ensures |Segment(h, {}, 0, k)| == k && forall i :: 0 <= i < k ==> Segment(h, {}, 0, k)[i] == i
    decreases k
  {
    if 0 < k { RemainingAll(h, k - 1); }
  }

  lemma SpineAll<I, O>(h: seq<Entry<I, O>>, head: Node<I, O>, nodes: seq<Node<I, O>>)
    requires |nodes| == |h|
    ensures Spine(h, head, nodes, {}) == nodes[..0] + [head] + nodes[0..]
  {
    RemainingAll(h, |h|);
  }

  /** The list and the configuration before the first iteration. */
  lemma StartOfSearch<S, I, O>(m: Model<S, I, O>, h: seq<Entry<I, O>>, partial: bool, head: Node<I, O>,
                               nodes: seq<Node<I, O>>, c: Config<S>)
    requires WellFormed(h) && Represents(h, nodes) && head !in nodes
    requires |nodes| == |h| && Linked(nodes[..0] + [head] + nodes[0..])
    requires c == Config([], [m.init], {}, 0, c.longest) && |c.longest| == NumOps(h)
    requires forall i :: 0 <= i < |c.longest| ==> c.longest[i].None?
    ensures ListOf(h, head, nodes) && Lifted(h, head, nodes, c.ids)
    ensures Inv(m, OpsOf(h), partial, c)
    ensures StackOf<S, I, O>(h, nodes, [], c.ids, c.states) && AtPosition(h, nodes, NodeAt(nodes, 0), c)
  {
    hide WellFormed, Represents, Linked, Inv, Spine;
    InvStart(m, h, partial, c);
    assert Ids([]) == {};
    SpineAll(h, head, nodes);
  }

  lemma EmptyCache<S>(chunks: nat)
    ensures Bucketed<S>(map[], chunks) && Flat<S>(map[]) == {}
  {
  }

  /** Following the current node's link leads to the next position. */
  lemma SkipPosition<S, I, O>(h: seq<Entry<I, O>>, head: Node<I, O>, nodes: seq<Node<I, O>>, c: Config<S>,
                              c': Config<S>)
    requires |nodes| == |h| && Lifted(h, head, nodes, c.ids) && 0 <= c.pos < |h| && h[c.pos].id !in Ids(c.ids)
    requires c' == c.(pos := FirstFrom(h, Ids(c.ids), c.pos + 1))
    ensures AtPosition(h, nodes, nodes[c.pos].next, c') && c.pos < c'.pos
  {
    hide Lifted, FirstFrom;
    NodeNext(h, head, nodes, c.ids, c.pos);
  }

  /** Moving past a refused or explored call keeps the search invariant. */
  lemma SkipInv<S, I, O>(m: Model<S, I, O>, h: seq<Entry<I, O>>, partial: bool, c: Config<S>, x: nat, c': Config<S>)
    requires WellFormed(h) && 0 <= c.pos < |h| && |c.states| == |c.ids| + 1
    requires x < |OpsOf(h)| && x !in Ids(c.ids) && c.pos == OpsOf(h)[x].call
    requires StepOp(m, c.states[|c.ids|], OpsOf(h)[x]).0 ==>
      Explored(m, OpsOf(h), c.longest, partial, Ids(c.ids) + {x}, StepOp(m, c.states[|c.ids|], OpsOf(h)[x]).1)
    requires c' == c.(pos := FirstFrom(h, Ids(c.ids), c.pos + 1))
    requires DistinctTimes(OpsOf(h)) && Inv(m, OpsOf(h), partial, c)
    ensures Inv(m, OpsOf(h), partial, c')
  {
    hide WellFormed, Inv, Explored, Next, DistinctTimes, StepOp, FirstFrom, CallPos, RetPos;
    FirstFromIsNext(h, Ids(c.ids), c.pos);
    Advance(m, OpsOf(h), partial, c, x, c'.pos);
  }

  lemma {:induction false} CachedPairExplored<S(!new), I(!new), O(!new)>(m: Model<S, I, O>, ops: seq<Operation<I, O>>,
                                                                         partial: bool, c: Config<S>, x: nat, s: S)
    requires SoundEqual(m) && DistinctTimes(ops) && Inv(m, ops, partial, c)
    requires x !in Ids(c.ids) && Has(m, c.cache, Ids(c.ids) + {x}, s)
    ensures Explored(m, ops, c.longest, partial, Ids(c.ids) + {x}, s)
  {
    hide SoundEqual, Inv, Explored, DistinctTimes;
    var p :| p in c.cache && p.0 == Ids(c.ids) + {x} && m.equal(s, p.1);
    CachedExplored(m, ops, partial, c, x, p.1);
    ExploredEqual(m, ops, c.longest, partial, Ids(c.ids) + {x}, s, p.1);
  }

  lemma NotCached<S(!new), I(!new), O(!new)>(m: Model<S, I, O>, pairs: set<(set<nat>, S)>, done: set<nat>, s: S)
    requires SoundEqual(m) && !Has(m, pairs, done, s)
    ensures (done, s) !in pairs
  {
    var p := (done, s);
    assert m.equal(s, p.1);
  }

  /** The variables of the search agree with its configuration, which satisfies the invariant. */
  ghost predicate Synced<S, I, O>(m: Model<S, I, O>, h: seq<Entry<I, O>>, partial: bool, head: Node<I, O>,
                                  nodes: seq<Node<I, O>>, linearized: array<Word>, cache: Cache<S>,
                                  calls: seq<CallsEntry<S, I, O>>, state: S, entry: Node?<I, O>, c: Config<S>)
    requires |nodes| == |h|
    reads nodes, linearized, head
  {
    && ListOf(h, head, nodes) && Lifted(h, head, nodes, c.ids)
    && Inv(m, OpsOf(h), partial, c)
    && StackOf(h, nodes, calls, c.ids, c.states) && state == c.states[|c.ids|]
    && AtPosition(h, nodes, entry, c)
    && NumOps(h) <= 64 * linearized.Length && Elems(linearized[..]) == Ids(c.ids)
    && Bucketed(cache, linearized.Length) && Flat(cache) == c.cache
    && c.cache <= PossiblePairs(m, OpsOf(h))
  }

  lemma {:induction false} PushConfig<S, I, O>(m: Model<S, I, O>, h: seq<Entry<I, O>>, partial: bool, c: Config<S>,
                                               x: nat, s: S, c': Config<S>)
    requires WellFormed(h) && Inv(m, OpsOf(h), partial, c) && |c.states| == |c.ids| + 1
    requires x < NumOps(h) && x !in Ids(c.ids) && c.pos == OpsOf(h)[x].call
    requires StepOp(m, c.states[|c.ids|], OpsOf(h)[x]) == (true, s)
    requires c' == Config(c.ids + [x], c.states + [s], c.cache + {(Ids(c.ids) + {x}, s)},
      FirstFrom(h, Ids(c.ids) + {x}, 0), c.longest)
    ensures Inv(m, OpsOf(h), partial, c') && Ids(c'.ids) == Ids(c.ids) + {x}
    ensures (Ids(c.ids) + {x}, s) in PossiblePairs(m, OpsOf(h))
  {
    hide WellFormed, Inv, Next, DistinctTimes, PossiblePairs;
    OpsDistinctTimes(h);
    NewPairPossible(m, OpsOf(h), partial, c, x);
    assert 0 < |h|;
    FirstFromIsNext(h, Ids(c.ids) + {x}, -1);
    Push(m, OpsOf(h), partial, c, x, s, c'.pos, c');
    assert Ids(c'.ids) == Ids(c.ids) + {x};
  }

  /** Linearizes the current call: caches the new pair, pushes the old state, lifts the call. */
  method PushCall<S(!new), I(!new), O(!new)>(m: Model<S, I, O>, ghost h: seq<Entry<I, O>>, ghost partial: bool,
                                             head: Node<I, O>, ghost nodes: seq<Node<I, O>>, linearized: array<Word>,
                                             newLinearized: array<Word>, cache: Cache<S>,
                                             calls: seq<CallsEntry<S, I, O>>, state: S, newState: S,
                                             entry: Node<I, O>, ghost c: Config<S>, ghost x: nat)
    returns (cache': Cache<S>, calls': seq<CallsEntry<S, I, O>>, entry': Node?<I, O>, ghost c': Config<S>)
    requires |nodes| == |h| && Synced(m, h, partial, head, nodes, linearized, cache, calls, state, entry, c)
    requires x < NumOps(h) && x !in Ids(c.ids) && CallPos(h, x) < |h| &&
      c.pos == OpsOf(h)[x].call == CallPos(h, x) && entry.id == x
    requires StepOp(m, state, OpsOf(h)[x]) == (true, newState)
    requires newLinearized.Length == linearized.Length && Elems(newLinearized[..]) == Ids(c.ids) + {x}
    requires newLinearized != linearized
    modifies linearized, head, nodes
    ensures Synced(m, h, partial, head, nodes, linearized, cache', calls', newState, entry', c')
    ensures c'.cache == c.cache + {(Ids(c.ids) + {x}, newState)} && c'.longest == c.longest
    ensures c'.ids == c.ids + [x]
  {
    hide WellFormed, Represents, Inv, Lifted, StackOf, Bucketed, Flat, Elems, PossiblePairs, FirstFrom, CallPos, HashOf,
      AllRestorable, Insert, Linked;
    StackFacts(h, nodes, calls, c.ids, c.states);
    c' := Config(c.ids + [x], c.states + [newState], c.cache + {(Ids(c.ids) + {x}, newState)},
      FirstFrom(h, Ids(c.ids) + {x}, 0), c.longest);
    PushConfig(m, h, partial, c, x, newState, c');
    StackPush(h, nodes, calls, c.ids, c.states, entry, x, newState);
    var hash := Hash(newLinearized);
    InsertAdds(cache, CacheEntry(newLinearized[..], newState));
    cache' := Insert(cache, hash, CacheEntry(newLinearized[..], newState));
    calls' := calls + [CallsEntry(entry, state)];
    Set(linearized, entry.id);
    InvIds(m, OpsOf(h), partial, c);
    LiftOp(entry, h, head, nodes, c.ids, x);
    HeadNext(h, head, nodes, c'.ids);
    entry' := head.next;
    FirstAtPosition(h, nodes, c');
  }

  lemma FirstAtPosition<S, I, O>(h: seq<Entry<I, O>>, nodes: seq<Node<I, O>>, c: Config<S>)
    requires c.pos == FirstFrom(h, Ids(c.ids), 0)
    ensures AtPosition(h, nodes, NodeAt(nodes, c.pos), c)
  {
  }

  lemma StackFacts<S, I, O>(h: seq<Entry<I, O>>, nodes: seq<Node<I, O>>, calls: seq<CallsEntry<S, I, O>>,
                            ids: seq<nat>, states: seq<S>)
    requires StackOf(h, nodes, calls, ids, states)
    ensures |calls| == |ids| && |states| == |ids| + 1
    ensures forall k :: 0 <= k < |calls| ==> calls[k].entry.id == ids[k]
  {
  }

  lemma {:induction false} PopConfig<S, I, O>(m: Model<S, I, O>, h: seq<Entry<I, O>>, partial: bool, c: Config<S>,
                                              longest: seq<Option<seq<nat>>>, y: nat, c': Config<S>)
    requires WellFormed(h) && Inv(m, OpsOf(h), partial, c) && c.ids != [] && |c.states| == |c.ids| + 1
    requires y < NumOps(h) && y !in Ids(c.ids) && c.pos == OpsOf(h)[y].ret
    requires Improves(c.longest, longest) && ValidLongest(m, OpsOf(h), longest)
    requires partial ==> AllCovered(longest, c.ids)
    requires c.ids[|c.ids| - 1] < NumOps(h) && CallPos(h, c.ids[|c.ids| - 1]) < |h|
    requires c' == Config(c.ids[..|c.ids| - 1], c.states[..|c.ids|], c.cache,
                          FirstFrom(h, Ids(c.ids[..|c.ids| - 1]), CallPos(h, c.ids[|c.ids| - 1]) + 1), longest)
    ensures Inv(m, OpsOf(h), partial, c')
    ensures var x := c.ids[|c.ids| - 1];
      && InRange(c'.ids, NumOps(h)) && x !in Ids(c'.ids) && Ids(c.ids) == Ids(c'.ids) + {x} && c.ids == c'.ids + [x]
      && h[CallPos(h, x)].id == x
  {
    hide WellFormed, Inv, Next, DistinctTimes, IsPartial, ValidLongest, Improves, Covered, FirstFrom, CallPos, RetPos;
    OpsDistinctTimes(h);
    InvIds(m, OpsOf(h), partial, c);
    var n := |c.ids| - 1;
    var x := c.ids[n];
    EntriesOf(h, x);
    FirstFromIsNext(h, Ids(c'.ids), CallPos(h, x));
    Pop(m, OpsOf(h), partial, c, longest, y, c'.pos, c');
    assert c.ids == c'.ids + [x];
    assert Ids(c.ids) == Ids(c'.ids) + {x};
  }

  lemma NextAtPosition<S, I, O>(h: seq<Entry<I, O>>, nodes: seq<Node<I, O>>, p: nat, c: Config<S>)
    requires p < |h| && c.pos == FirstFrom(h, Ids(c.ids), p + 1)
    ensures AtPosition(h, nodes, NodeAt(nodes, c.pos), c)
  {
  }

  ghost predicate AllCovered(longest: seq<Option<seq<nat>>>, ids: seq<nat>) {
    forall i :: i in ids ==> Covered(longest, i, |ids|)
  }

  method RecordStack<S, I, O>(ghost m: Model<S, I, O>, ghost ops: seq<Operation<I, O>>, computePartial: bool,
                              calls: seq<CallsEntry<S, I, O>>, longest: seq<Option<seq<nat>>>, ghost ids: seq<nat>)
    returns (r: seq<Option<seq<nat>>>)
    requires |calls| == |ids| && forall k :: 0 <= k < |calls| ==> calls[k].entry.id == ids[k]
    requires ValidLongest(m, ops, longest) && IsPartial(m, ops, ids)
    ensures ValidLongest(m, ops, r) && Improves(longest, r)
    ensures if computePartial then AllCovered(r, ids) else r == longest
    ensures forall n :: |ids| <= n && RecordedWithin(longest, n) ==> RecordedWithin(r, n)
  {
    r := longest;
    if computePartial {
      r := RecordLongest(calls, longest, ids);
      RecordImproves(m, ops, ids, longest, r);
    }
  }

  /** The configuration and stack after backtracking. */
  lemma PopReady<S, I, O>(m: Model<S, I, O>, h: seq<Entry<I, O>>, partial: bool, nodes: seq<Node<I, O>>,
                          calls: seq<CallsEntry<S, I, O>>, c: Config<S>, longest: seq<Option<seq<nat>>>, y: nat)
    returns (x: nat, c': Config<S>)
    requires WellFormed(h) && |nodes| == |h| && Inv(m, OpsOf(h), partial, c) &&
      StackOf(h, nodes, calls, c.ids, c.states) && |calls| > 0
    requires y < NumOps(h) && y !in Ids(c.ids) && c.pos == OpsOf(h)[y].ret
    requires Improves(c.longest, longest) && ValidLongest(m, OpsOf(h), longest)
    requires partial ==> AllCovered(longest, c.ids)
    ensures Inv(m, OpsOf(h), partial, c') && StackOf(h, nodes, calls[..|calls| - 1], c'.ids, c'.states)
    ensures c.ids == c'.ids + [x] && c'.cache == c.cache && c'.longest == longest && |c'.states| == |c'.ids| + 1
    ensures InRange(c'.ids, NumOps(h)) && x < NumOps(h) && x !in Ids(c'.ids) && Ids(c.ids) == Ids(c'.ids) + {x}
    ensures CallPos(h, x) < |h| && h[CallPos(h, x)].id == x && c'.pos == FirstFrom(h, Ids(c'.ids), CallPos(h, x) + 1)
    ensures var top := calls[|calls| - 1];
      top.entry == nodes[CallPos(h, x)] && top.entry.id == x && top.state == c'.states[|c'.ids|]
  {
    hide WellFormed, Inv, StackOf, IsPartial, ValidLongest, Improves, AllCovered, FirstFrom, CallPos;
    StackFacts(h, nodes, calls, c.ids, c.states);
    StackPop(h, nodes, calls, c.ids, c.states);
    var n := |c.ids| - 1;
    x := c.ids[n];
    c' := Config(c.ids[..n], c.states[..n + 1], c.cache, FirstFrom(h, Ids(c.ids[..n]), CallPos(h, x) + 1), longest);
    PopConfig(m, h, partial, c, longest, y, c');
  }

  /** Backtracks: records the stack if partial results are wanted, then undoes its last operation. */
  method Backtrack<S, I, O>(m: Model<S, I, O>, ghost h: seq<Entry<I, O>>, computePartial: bool,
                            ghost head: Node<I, O>, ghost nodes: seq<Node<I, O>>, linearized: array<Word>,
                            ghost cache: Cache<S>, calls: seq<CallsEntry<S, I, O>>, longest: seq<Option<seq<nat>>>,
                            ghost state: S, ghost entry: Node<I, O>, ghost c: Config<S>, ghost y: nat)
    returns (calls': seq<CallsEntry<S, I, O>>, longest': seq<Option<seq<nat>>>, state': S, entry': Node?<I, O>,
             ghost c': Config<S>)
    requires |nodes| == |h| && Synced(m, h, computePartial, head, nodes, linearized, cache, calls, state, entry, c)
    requires |calls| > 0 && c.longest == longest
    requires y < NumOps(h) && y !in Ids(c.ids) && c.pos == OpsOf(h)[y].ret
    modifies linearized, head, nodes
    ensures Synced(m, h, computePartial, head, nodes, linearized, cache, calls', state', entry', c')
    ensures c'.cache == c.cache && c'.longest == longest' && |c'.ids| < |c.ids|
    ensures computePartial || longest' == longest
    ensures forall n :: |c.ids| <= n && RecordedWithin(longest, n) ==> RecordedWithin(longest', n)
  {
    hide WellFormed, Represents, Inv, Lifted, StackOf, Bucketed, Flat, Elems, PossiblePairs, FirstFrom, CallPos,
      AllRestorable, Linked,
         IsPartial, ValidLongest, Improves, AllCovered, RealTime, Distinct, Spine, DistinctTimes;
    StackFacts(h, nodes, calls, c.ids, c.states);
    InvIds(m, OpsOf(h), computePartial, c);
    longest' := RecordStack(m, OpsOf(h), computePartial, calls, longest, c.ids);
    ghost var x;
    x, c' := PopReady(m, h, computePartial, nodes, calls, c, longest', y);
    var callsTop := calls[|calls| - 1];
    state' := callsTop.state;
    Clear(linearized, callsTop.entry.id);
    calls' := calls[..|calls| - 1];
    UnliftOp(callsTop.entry, h, head, nodes, c'.ids, x);
    NodeNext(h, head, nodes, c'.ids, CallPos(h, x));
    entry' := callsTop.entry.next;
    NextAtPosition(h, nodes, CallPos(h, x), c');
  }

  /** Skips the current call, which was refused or leads to an explored pair. */
  lemma SkipSynced<S, I, O>(m: Model<S, I, O>, h: seq<Entry<I, O>>, partial: bool, head: Node<I, O>,
                            nodes: seq<Node<I, O>>, linearized: array<Word>, cache: Cache<S>,
                            calls: seq<CallsEntry<S, I, O>>, state: S, entry: Node<I, O>, c: Config<S>, x: nat,
                            c': Config<S>)
    requires |nodes| == |h| && Synced(m, h, partial, head, nodes, linearized, cache, calls, state, entry, c)
    requires 0 <= c.pos < |h| && x == h[c.pos].id && x < NumOps(h) && x !in Ids(c.ids) && c.pos == OpsOf(h)[x].call
    requires StepOp(m, state, OpsOf(h)[x]).0 ==>
      Explored(m, OpsOf(h), c.longest, partial, Ids(c.ids) + {x}, StepOp(m, state, OpsOf(h)[x]).1)
    requires c' == c.(pos := FirstFrom(h, Ids(c.ids), c.pos + 1))
    ensures Synced(m, h, partial, head, nodes, linearized, cache, calls, state, entry.next, c') && c.pos < c'.pos <= |h|
  {
    hide WellFormed, Represents, Inv, Lifted, StackOf, Bucketed, Flat, Elems, PossiblePairs, FirstFrom, Explored,
      DistinctTimes;
    StackFacts(h, nodes, calls, c.ids, c.states);
    OpsDistinctTimes(h);
    SkipPosition(h, head, nodes, c, c');
    SkipInv(m, h, partial, c, x, c');
  }

  /** One iteration at a call entry. */
  method TryCall<S(!new), I(!new), O(!new)>(m: Model<S, I, O>, ghost h: seq<Entry<I, O>>, ghost partial: bool,
                                            head: Node<I, O>, ghost nodes: seq<Node<I, O>>, linearized: array<Word>,
                                            cache: Cache<S>, calls: seq<CallsEntry<S, I, O>>, state: S,
                                            entry: Node<I, O>, ghost c: Config<S>, ghost x: nat)
    returns (cache': Cache<S>, calls': seq<CallsEntry<S, I, O>>, state': S, entry': Node?<I, O>, ghost c': Config<S>)
    requires SoundEqual(m) && |nodes| == |h| &&
      Synced(m, h, partial, head, nodes, linearized, cache, calls, state, entry, c)
    requires 0 <= c.pos < |h| && x == h[c.pos].id && x < NumOps(h) && x !in Ids(c.ids) &&
      c.pos == OpsOf(h)[x].call == CallPos(h, x)
    requires entry.id == x && entry.matching != null
    requires entry.value == Input(OpsOf(h)[x].input) && entry.matching.value == Output(OpsOf(h)[x].output)
    modifies linearized, head, nodes
    ensures Synced(m, h, partial, head, nodes, linearized, cache', calls', state', entry', c') &&
      c'.longest == c.longest
    ensures (c'.cache > c.cache) || (c'.cache == c.cache && c'.ids == c.ids && c.pos < c'.pos <= |h|)
    ensures |c'.ids| <= |c.ids| + 1
  {
    hide WellFormed, SoundEqual, Inv, Lifted, StackOf, Bucketed, Flat, Has, Elems, PossiblePairs, FirstFrom, CallPos,
      Explored, DistinctTimes, Represents, AtPosition;
    var matching := entry.matching;
    var (accepted, newState) := m.step(state, entry.value.input, matching.value.output);
    assert StepOp(m, state, OpsOf(h)[x]) == (accepted, newState);
    ghost var skipped := c.(pos := FirstFrom(h, Ids(c.ids), c.pos + 1));
    if accepted {
      var newLinearized := Clone(linearized);
      Set(newLinearized, entry.id);
      var cached := CacheContains(m, cache, newLinearized, newState);
      if !cached {
        NotCached(m, c.cache, Ids(c.ids) + {x}, newState);
        cache', calls', entry', c' := PushCall(m, h, partial, head, nodes, linearized, newLinearized, cache, calls,
          state, newState, entry, c, x);
        state' := newState;
        return;
      }
      OpsDistinctTimes(h);
      CachedPairExplored(m, OpsOf(h), partial, c, x, newState);
    }
    SkipSynced(m, h, partial, head, nodes, linearized, cache, calls, state, entry, c, x, skipped);
    return cache, calls, state, entry.next, skipped;
  }

  lemma KilledVerdict<S, I, O>(m: Model<S, I, O>, ops: seq<Operation<I, O>>, partial: bool,
                               longest: seq<Option<seq<nat>>>)
    requires ValidLongest(m, ops, longest) && (partial || NoneRecorded(longest))
    ensures Verdict(m, ops, partial, true, false, longest)
  {
  }

  lemma {:induction false} FoundVerdict<S, I, O>(m: Model<S, I, O>, h: seq<Entry<I, O>>, partial: bool, killed: bool,
                                                 c: Config<S>, longest: seq<Option<seq<nat>>>)
    requires WellFormed(h) && Inv(m, OpsOf(h), partial, c) && FirstFrom(h, Ids(c.ids), 0) == |h|
    requires |longest| == NumOps(h) && forall i :: 0 <= i < |longest| ==> longest[i] == Some(c.ids)
    ensures Verdict(m, OpsOf(h), partial, killed, true, longest)
  {
    hide WellFormed, Inv, DistinctTimes, IsLinearization;
    OpsDistinctTimes(h);
    NothingRemains(h, Ids(c.ids));
    FinishLinearizable(m, OpsOf(h), partial, c);
  }

  /** What the loop knows at the top of an iteration, from the synchronized state alone. */
  lemma Current<S, I, O>(m: Model<S, I, O>, h: seq<Entry<I, O>>, partial: bool, head: Node<I, O>,
                         nodes: seq<Node<I, O>>, linearized: array<Word>, cache: Cache<S>,
                         calls: seq<CallsEntry<S, I, O>>, state: S, entry: Node?<I, O>, c: Config<S>)
    requires |nodes| == |h| && Synced(m, h, partial, head, nodes, linearized, cache, calls, state, entry, c)
    requires head.next != null
    ensures WellFormed(h) && 0 <= c.pos < |h| && entry == nodes[c.pos]
    ensures var x, ops := h[c.pos].id, OpsOf(h);
      && x < NumOps(h) && x !in Ids(c.ids) && entry.id == x && (entry.matching != null <==> h[c.pos].CallEntry?)
      && (h[c.pos].CallEntry? ==>
            && c.pos == CallPos(h, x) == ops[x].call
            && entry.value == Input(ops[x].input) && entry.matching.value == Output(ops[x].output))
      && (h[c.pos].ReturnEntry? ==> c.pos == ops[x].ret)
  {
    hide WellFormed, Represents, Inv, Lifted, StackOf, Bucketed, Flat, Elems, PossiblePairs, FirstFrom;
    HeadNext(h, head, nodes, c.ids);
    InsideHistory(m, h, partial, c);
    CurrentEntry(h, head, nodes, c.pos);
  }

  lemma SyncedFacts<S, I, O>(m: Model<S, I, O>, h: seq<Entry<I, O>>, partial: bool, head: Node<I, O>,
                             nodes: seq<Node<I, O>>, linearized: array<Word>, cache: Cache<S>,
                             calls: seq<CallsEntry<S, I, O>>, state: S, entry: Node?<I, O>, c: Config<S>)
    requires |nodes| == |h| && Synced(m, h, partial, head, nodes, linearized, cache, calls, state, entry, c)
    ensures WellFormed(h) && Inv(m, OpsOf(h), partial, c) && ValidLongest(m, OpsOf(h), c.longest) &&
      |c.longest| == NumOps(h)
    ensures |calls| == |c.ids| && c.cache <= PossiblePairs(m, OpsOf(h)) && c.pos <= |h|
    ensures forall k :: 0 <= k < |calls| ==> calls[k].entry.id == c.ids[k]
    ensures head.next == NodeAt(nodes, FirstFrom(h, Ids(c.ids), 0))
  {
    hide WellFormed, Represents, Lifted, StackOf, Bucketed, Flat, Elems, PossiblePairs, FirstFrom;
    StackFacts(h, nodes, calls, c.ids, c.states);
    HeadNext(h, head, nodes, c.ids);
  }

  /** checkSingle's loop, from the state it has set up. */
  method SearchLoop<S(!new), I(!new), O(!new)>(m: Model<S, I, O>, ghost h: seq<Entry<I, O>>, computePartial: bool,
                                               kill: nat -> bool, headEntry: Node<I, O>, ghost nodes: seq<Node<I, O>>,
                                               linearized: array<Word>, first: Node?<I, O>, n: nat,
                                               ghost start: Config<S>)
    returns (ok: bool, longest: seq<Option<seq<nat>>>, ghost loads: nat)
    requires WellFormed(h) && SoundEqual(m) && |nodes| == |h| && n == NumOps(h)
    requires start == Config([], [m.init], {}, 0, seq(n, _ => None))
    requires Synced(m, h, computePartial, headEntry, nodes, linearized, map[], [], m.init, first, start)
    modifies linearized, headEntry, nodes
    ensures Answer(m, OpsOf(h), computePartial, kill, loads, ok, longest)
  {
    hide WellFormed, SoundEqual, Represents, Linked, Inv, Lifted, StackOf, Bucketed, Flat, Elems, AtPosition,
         PossiblePairs, Verdict, Answer, RecordedWithin, NoneRecorded, UnsetUpTo, FirstFrom, DistinctTimes,
         ValidLongest, CallPos, Synced, ListOf;
    ghost var ops, c := OpsOf(h), start;
    var cache: Cache<S> := map[];
    var calls: seq<CallsEntry<S, I, O>> := [];
    var state, entry := m.init, first;
    longest := seq(n, _ => None);
    NoneWithin(kill, longest);
    var iteration := 0;
    loads := 0;
    while headEntry.next != null
      invariant Synced(m, h, computePartial, headEntry, nodes, linearized, cache, calls, state, entry, c) &&
        c.longest == longest
      invariant computePartial || NoneRecorded(longest)
      invariant loads == iteration && |c.ids| <= loads && RecordedWithin(longest, loads - 1)
      invariant UnsetUpTo(kill, loads)
      decreases PossiblePairs(m, ops) - c.cache, |c.ids|, |h| - c.pos
    {
      SyncedFacts(m, h, computePartial, headEntry, nodes, linearized, cache, calls, state, entry, c);
      if kill(iteration) {
        KilledVerdict(m, ops, computePartial, longest);
        Stopped(m, h, computePartial, kill, loads, longest);
        return false, longest, loads;
      }
      OneMoreLoad(kill, longest, loads);
      iteration, loads := iteration + 1, loads + 1;
      Current(m, h, computePartial, headEntry, nodes, linearized, cache, calls, state, entry, c);
      ghost var x := h[c.pos].id;
      if entry.matching != null {
        cache, calls, state, entry, c :=
          TryCall(m, h, computePartial, headEntry, nodes, linearized, cache, calls, state, entry, c, x);
        SyncedFacts(m, h, computePartial, headEntry, nodes, linearized, cache, calls, state, entry, c);
      } else {
        if |calls| == 0 {
          OpsDistinctTimes(h);
          IllegalVerdict(m, ops, computePartial, false, c, x);
          Finished(m, h, computePartial, kill, loads, false, longest);
          return false, longest, loads;
        }
        calls, longest, state, entry, c :=
          Backtrack(m, h, computePartial, headEntry, nodes, linearized, cache, calls, longest, state, entry, c, x);
      }
    }
    SyncedFacts(m, h, computePartial, headEntry, nodes, linearized, cache, calls, state, entry, c);
    var order := StackIds(calls, c.ids);
    longest := seq(n, _ => Some(order));
    FoundVerdict(m, h, computePartial, false, c, longest);
    AllWithin(longest, c.ids);
    FoundLoads(m, h, computePartial, longest, loads);
    Finished(m, h, computePartial, kill, loads, true, longest);
    return true, longest, loads;
  }

  method CheckSingle<S(!new), I(!new), O(!new)>(m: Model<S, I, O>, h: seq<Entry<I, O>>, computePartial: bool,
                                                kill: nat -> bool)
    returns (ok: bool, longest: seq<Option<seq<nat>>>, ghost loads: nat)
    requires WellFormed(h) && SoundEqual(m)
    ensures Answer(m, OpsOf(h), computePartial, kill, loads, ok, longest)
    ensures Verdict(m, OpsOf(h), computePartial, exists k: nat :: kill(k), ok, longest)
    ensures h != [] && kill(0) ==> !ok && NoneRecorded(longest)
  {
    hide WellFormed, SoundEqual, Represents, Linked, Elems, Verdict, Answer, NoneRecorded, Synced;
    var entry, nodes := MakeLinkedEntries(h);
    var len := Length(entry, nodes);
    var n := len / 2;
    var linearized := NewBitset(n);
    var head := new Node(NoValue, null, -1);
    var headEntry := InsertBefore(head, entry, nodes, 0);
    ghost var c := Config([], [m.init], {}, 0, seq(n, _ => None));
    StartSynced(m, h, computePartial, head, nodes, linearized, c);
    ok, longest, loads := SearchLoop(m, h, computePartial, kill, headEntry, nodes, linearized, entry, n, c);
    AnswerVerdict(m, OpsOf(h), computePartial, kill, loads, ok, longest);
    if h != [] && kill(0) {
      SomeOps(h);
      KilledAtOnce(m, OpsOf(h), computePartial, kill, loads, ok, longest);
    }
  }

  lemma NoneWithin(kill: nat -> bool, longest: seq<Option<seq<nat>>>)
    requires forall i :: 0 <= i < |longest| ==> longest[i].None?
    ensures RecordedWithin(longest, -1) && NoneRecorded(longest) && UnsetUpTo(kill, 0)
  {
  }

  lemma OneMoreLoad(kill: nat -> bool, longest: seq<Option<seq<nat>>>, n: nat)
    requires UnsetUpTo(kill, n) && !kill(n) && RecordedWithin(longest, n - 1)
    ensures UnsetUpTo(kill, n + 1) && RecordedWithin(longest, n)
  {
  }

  lemma AllWithin(longest: seq<Option<seq<nat>>>, ids: seq<nat>)
    requires forall i :: 0 <= i < |longest| ==> longest[i] == Some(ids)
    ensures forall n :: |ids| <= n ==> RecordedWithin(longest, n)
  {
  }

  lemma SomeOps<I, O>(h: seq<Entry<I, O>>)
    requires WellFormed(h)
    ensures h == [] <==> OpsOf(h) == []
  {
  }

  lemma FoundLoads<S, I, O>(m: Model<S, I, O>, h: seq<Entry<I, O>>, partial: bool, longest: seq<Option<seq<nat>>>,
                            n: nat)
    requires WellFormed(h) && Verdict(m, OpsOf(h), partial, false, true, longest) && RecordedWithin(longest, n)
    ensures h != [] ==> n >= 1
  {
    hide WellFormed, Linearizable, ValidLongest, MaximalLongest;
    SomeOps(h);
    if h != [] { assert IsLinearization(m, OpsOf(h), longest[0].value); }
  }

  /** An answer of a search that came to its end. */
  lemma Finished<S, I, O>(m: Model<S, I, O>, h: seq<Entry<I, O>>, partial: bool, kill: nat -> bool, n: nat, ok: bool,
                          longest: seq<Option<seq<nat>>>)
    requires WellFormed(h) && Verdict(m, OpsOf(h), partial, false, ok, longest) && (h != [] ==> n >= 1)
    requires UnsetUpTo(kill, n) && RecordedWithin(longest, if ok then n else n - 1)
    ensures Answer(m, OpsOf(h), partial, kill, n, ok, longest)
  {
    hide WellFormed, Verdict;
    SomeOps(h);
  }

  /** An answer of a search that a load of the kill flag stopped. */
  lemma Stopped<S, I, O>(m: Model<S, I, O>, h: seq<Entry<I, O>>, partial: bool, kill: nat -> bool, n: nat,
                         longest: seq<Option<seq<nat>>>)
    requires WellFormed(h) && Verdict(m, OpsOf(h), partial, true, false, longest) && h != [] && kill(n)
    requires UnsetUpTo(kill, n) && RecordedWithin(longest, n - 1)
    ensures Answer(m, OpsOf(h), partial, kill, n, false, longest)
  {
    hide WellFormed, Verdict;
    SomeOps(h);
  }

  lemma StartSynced<S, I, O>(m: Model<S, I, O>, h: seq<Entry<I, O>>, partial: bool, head: Node<I, O>,
                             nodes: seq<Node<I, O>>, linearized: array<Word>, c: Config<S>)
    requires WellFormed(h) && Represents(h, nodes) && head !in nodes
    requires |nodes| == |h| && Linked(nodes[..0] + [head] + nodes[0..])
    requires c == Config([], [m.init], {}, 0, c.longest) && |c.longest| == NumOps(h)
    requires forall i :: 0 <= i < |c.longest| ==> c.longest[i].None?
    requires NumOps(h) <= 64 * linearized.Length && Elems(linearized[..]) == {}
    ensures Synced(m, h, partial, head, nodes, linearized, map[], [], m.init, NodeAt(nodes, 0), c)
  {
    hide WellFormed, Represents, Inv, Linked, Lifted, StackOf, Bucketed, Flat, Elems, PossiblePairs, AtPosition;
    EmptyCache<S>(linearized.Length);
    assert Ids([]) == {};
    StartOfSearch(m, h, partial, head, nodes, c);
  }
}

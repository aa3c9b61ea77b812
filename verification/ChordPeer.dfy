/** The node object (Lab3_Chord/chord.go and chordRPC.go): its fields, updated in place by its handlers
    and by the periodic stabilization. */
module ChordPeer {
  import opened Options
  import opened ChordRing
  import opened ChordNode

  class Chord {
    const hash: HashF
    const identifier: int
    const address: string
    var predecessor: string
    var successors: seq<string>
    const fingers: array<Finger>

    ghost function Info(): NodeInfo
      reads this, fingers
    {
      NodeInfo(identifier, address, predecessor, successors, fingers[..])
    }

    ghost predicate Valid()
      reads this
    {
      fingers.Length == KEYSIZE + 1 && |successors| >= 1
    }

    /** initClient: alone until told otherwise. */
    constructor (hash: HashF, identifier: int, address: string, numSucc: nat)
      requires numSucc >= 1
      ensures Valid() && fresh(fingers) && this.hash == hash && this.identifier == identifier && this.address == address
      ensures predecessor == NOBODY && successors == seq(numSucc, _ => address)
      ensures fingers[0] == Finger(identifier, address)
      ensures forall n :: 1 <= n <= KEYSIZE ==> fingers[n] == Finger(JumpIdentifier(identifier, n), address)
    {
      this.hash, this.identifier, this.address := hash, identifier, address;
      successors := seq(numSucc, _ => address);
      predecessor := NOBODY;
      fingers := new Finger[KEYSIZE + 1](n requires 0 <= n <= KEYSIZE =>
        if n == 0 then Finger(identifier, address) else Finger(JumpIdentifier(identifier, n), address));
    }

    method Find(id: int) returns (code: RetCode, response: Response)
      requires Valid()
      ensures (code, response) == FindFrom(hash, Info(), id, 0)
    {
      for i := 0 to |successors|
        invariant FindFrom(hash, Info(), id, 0) == FindFrom(hash, Info(), id, i)
      {
        if successors[i] == NOBODY {
          return SOLONODE, Response(identifier, address, true);
        }
        var currSucc := hash(successors[i]);
        if Between(identifier, id, currSucc, true) {
          return MYSUCC, Response(currSucc, successors[i], true);
        }
        var pred := hash(predecessor);
        if Between(pred, id, identifier, true) {
          return IAMSUCC, Response(identifier, address, true);
        }
      }
      response := ClosestPreceding(id);
      return PASSALONG, response;
    }

    /** The highest finger that starts at or beyond the identifier, or else the first successor. */
    method ClosestPreceding(id: int) returns (response: Response)
      requires Valid()
      ensures response == ClosestFrom(Info(), id, KEYSIZE)
      ensures forall n :: 1 <= n <= KEYSIZE && TopBeyond(Info(), id, n) ==>
        response == Response(fingers[n].identifier, fingers[n].address, false)
      ensures (forall n :: 1 <= n <= KEYSIZE ==> !Between(identifier, id, fingers[n].identifier, true)) ==>
        response == Response(0, successors[0], false)
    {
      var n: nat := KEYSIZE;
      while n >= 1
        invariant n <= KEYSIZE && ClosestFrom(Info(), id, KEYSIZE) == ClosestFrom(Info(), id, n)
        invariant forall m :: n < m <= KEYSIZE ==> !Between(identifier, id, fingers[m].identifier, true)
      {
        if Between(identifier, id, fingers[n].identifier, true) {
          return Response(fingers[n].identifier, fingers[n].address, false);
        }
        n := n - 1;
      }
      return Response(0, successors[0], false);
    }

    method Stabilize(caller: string) returns (response: StabilizeResponse)
      requires Valid()
      modifies this
      ensures Valid() && (Info(), response) == StabilizeReply(old(Info()), caller)
    {
      if predecessor == NOBODY {
        predecessor := caller;
        response := StabilizeResponse(true, "", successors);
      } else if predecessor == caller {
        response := StabilizeResponse(true, "", successors);
      } else {
        response := StabilizeResponse(false, predecessor, []);
      }
    }

    method VerifySuccs(theirs: seq<string>)
      requires Valid() && |theirs| >= |successors| - 1
      modifies this`successors
      ensures Valid() && Info() == old(Info()).(successors := Verified(old(successors), theirs))
    {
      ghost var mine := successors;
      ghost var k := Known(theirs, |mine| - 1);
      for n := 1 to |successors|
        invariant n <= k + 1 && successors == [mine[0]] + theirs[..n - 1] + mine[n..]
      {
        var succsSuccessor := theirs[n - 1];
        assert n - 1 < k ==> succsSuccessor in theirs[..k];
        if succsSuccessor == NOBODY {
          return;
        }
        if successors[n] == NOBODY {
          successors := successors[n := succsSuccessor];
        }
        if succsSuccessor != successors[n] {
          successors := successors[n := succsSuccessor];
        }
        assert theirs[..n] == theirs[..n - 1] + [succsSuccessor];
      }
    }

    /** Takes all copies of the first successor out of the successor list. */
    method CompactSuccessors() returns (failedNode: string)
      requires Valid()
      modifies this`successors
      ensures Valid() && failedNode == old(successors[0])
      ensures Info() == old(Info()).(successors := Compacted(old(successors), old(successors[0])))
    {
      failedNode := successors[0];
      var tmpSuccs: seq<string>, failed: seq<string> := [], [];
      for i := 0 to |successors|
        invariant successors == old(successors)
        invariant |tmpSuccs| <= i && tmpSuccs == Survivors(successors[..i], failedNode) &&
          failed == Unknowns(i - |tmpSuccs|)
      {
        assert successors[..i + 1][..i] == successors[..i];
        if successors[i] == failedNode {
          failed := failed + [NOBODY];
        } else {
          tmpSuccs := tmpSuccs + [successors[i]];
        }
      }
      assert successors[..|successors|] == successors;
      CompactedExact(successors, failedNode);
      successors := tmpSuccs + failed;
    }

    /** The highest finger to the failed node, and the finger above it; the predecessor stands above
        the highest of all.  If there is none the first finger is reported with the top index. */
    method TopFailedFinger(failedNode: string) returns (failedId: nat, succ: string)
      requires Valid()
      ensures var top := TopFailed(fingers[..], failedNode, KEYSIZE);
        && failedId == (if top == 0 then KEYSIZE else top)
        && (top > 0 ==> succ == Replacement(fingers[..], failedNode, predecessor))
    {
      ghost var f := fingers[..];
      failedId := KEYSIZE;
      succ := predecessor;
      var n: nat := KEYSIZE;
      while n > 0
        invariant n <= KEYSIZE && TopFailed(f, failedNode, KEYSIZE) == TopFailed(f, failedNode, n)
        invariant failedId == KEYSIZE && succ == if n == KEYSIZE then predecessor else f[n + 1].address
      {
        if failedNode == fingers[n].address {
          return n, succ;
        }
        succ := fingers[n].address;
        n := n - 1;
      }
    }

    /** Points the unbroken block of fingers to the failed node that ends at `failedId` to `succ`. */
    method ReplaceBlock(failedNode: string, failedId: nat, succ: string)
      requires Valid() && 1 <= failedId <= KEYSIZE
      modifies fingers
      ensures var f := old(fingers[..]);
        forall i :: 0 <= i <= KEYSIZE ==>
          fingers[i] == if BlockStart(f, failedNode, failedId) <= i <= failedId then f[i].(address := succ) else f[i]
    {
      ghost var f := fingers[..];
      ghost var low := BlockStart(f, failedNode, failedId);
      var m := failedId;
      while m > 0 && fingers[m].address == failedNode
        invariant m <= failedId && low <= m + 1 && BlockStart(f, failedNode, m) == low
        invariant forall i :: 0 <= i <= KEYSIZE ==>
          fingers[i] == if m < i <= failedId then f[i].(address := succ) else f[i]
      {
        fingers[m] := fingers[m].(address := succ);
        m := m - 1;
      }
      assert fingers[m] == f[m];
      assert m + 1 == low;
    }

    method RepairFingers(failedNode: string)
      requires Valid()
      modifies fingers
      ensures Info() == old(Info()).(fingers := Repaired(old(fingers[..]), failedNode, predecessor))
    {
      ghost var f := fingers[..];
      var failedId, succ := TopFailedFinger(failedNode);
      ReplaceBlock(failedNode, failedId, succ);
      assert fingers[..] == Repaired(f, failedNode, predecessor);
    }

    method ClearDeadSucc()
      requires Valid()
      modifies this`successors, fingers
      ensures Valid()
      ensures var failed := old(successors[0]);
        Info() == old(Info()).(successors := Compacted(old(successors), failed),
          fingers := Repaired(old(fingers[..]), failed, predecessor))
    {
      var failedNode := CompactSuccessors();
      RepairFingers(failedNode);
    }

    /** The first finger at or after `start` that points to somebody; -1 if there is none. */
    method NextValidFinger(start: nat) returns (n: int)
      requires Valid() && start >= 1
      ensures n == FirstValid(fingers[..], start)
    {
      n := start;
      while n <= KEYSIZE
        invariant start <= n && FirstValid(fingers[..], start) == FirstValid(fingers[..], n)
      {
        if fingers[n].address != NOBODY {
          return;
        }
        n := n + 1;
      }
      return -1;
    }

    /** findNewSucc: with more than one successor listed, the list moves up. */
    method FindNewSucc()
      requires Valid()
      modifies this`successors, fingers
      ensures Valid() && Info() == WithNewSucc(old(Info()))
    {
      if |successors| > 1 {
        successors := successors[1..] + [NOBODY];
        return;
      }
      var validFingerIndex := NextValidFinger(1);
      if validFingerIndex == -1 {
        successors := successors[0 := predecessor];
        return;
      }
      var newSucc := fingers[validFingerIndex].address;
      var n := validFingerIndex - 1;
      ghost var f := fingers[..];
      while n > 0
        invariant 0 <= n < validFingerIndex <= KEYSIZE && successors == old(successors)
        invariant forall i :: 0 <= i <= KEYSIZE ==>
          fingers[i] == if n < i < validFingerIndex then f[i].(address := newSucc) else f[i]
      {
        fingers[n] := fingers[n].(address := newSucc);
        n := n - 1;
      }
      assert fingers[..] == WithNewSucc(old(Info())).fingers;
    }

    /** CallStabilize up to its call: whom to ask, if anybody. */
    method BeginStabilize() returns (target: Option<string>)
      requires Valid()
      modifies this`successors, fingers
      ensures Valid()
      ensures (Info(), target) == Begins(old(Info()))
    {
      var succ := successors[0];
      if succ == NOBODY {
        FindNewSucc();
      } else if succ == address {
        return None;
      }
      return Some(succ);
    }

    /** CallStabilize after its call: without a reply the first successor counts as dead; a node that is
        not the asked one's predecessor notifies the one that is; otherwise the lists are merged. */
    method EndStabilize(reply: Option<StabilizeResponse>) returns (notify: Option<string>)
      requires Valid() && (reply.Some? && reply.value.youGood ==> |reply.value.successors| >= |successors| - 1)
      modifies this`successors, fingers
      ensures Valid()
      ensures Info() == Stabilized(old(Info()), reply)
      ensures notify == if reply.Some? && !reply.value.youGood && reply.value.newPredecessor != address
                        then Some(reply.value.newPredecessor) else None
    {
      notify := None;
      match reply {
        case None => ClearDeadSucc();
        case Some(response) =>
          if !response.youGood {
            if response.newPredecessor != address {
              notify := Some(response.newPredecessor);
            }
            return;
          }
          VerifySuccs(response.successors);
      }
    }
  }

  /** The list without its first entry and an unknown one at its end. */
  function MovedUp(list: seq<string>): seq<string>
    requires |list| >= 1
  {
    list[1..] + [NOBODY]
  }

  /** The first finger at or after `n` that points to somebody; -1 if there is none. */
  function FirstValid(f: seq<Finger>, n: nat): (r: int)
    ensures r == -1 || (n <= r < |f| && f[r].address != NOBODY)
    ensures forall i :: n <= i < |f| && (r == -1 || i < r) ==> f[i].address == NOBODY
    decreases |f| - n
  {
    if n >= |f| then -1 else if f[n].address != NOBODY then n else FirstValid(f, n + 1)
  }

  /** findNewSucc: a longer list moves up; a list of one falls back on the predecessor if no finger is
      left, and otherwise the fingers below the first one left are pointed to it. */
  ghost function WithNewSucc(node: NodeInfo): NodeInfo
    requires |node.successors| >= 1
  {
    var v := FirstValid(node.fingers, 1);
    if |node.successors| > 1 then node.(successors := MovedUp(node.successors))
    else if v == -1 then node.(successors := [node.predecessor])
    else node.(fingers := seq(|node.fingers|, i requires 0 <= i < |node.fingers| =>
           if 0 < i < v then node.fingers[i].(address := node.fingers[v].address) else node.fingers[i]))
  }

  /** CallStabilize up to its call: an unknown first successor is looked for, and asked all the same; a node
      that is its own first successor asks nobody. */
  ghost function Begins(node: NodeInfo): (NodeInfo, Option<string>)
    requires |node.successors| >= 1
  {
    var first := node.successors[0];
    if first == NOBODY then (WithNewSucc(node), Some(NOBODY))
    else (node, if first == node.address then None else Some(first))
  }

  /** What findNewSucc leaves, entry by entry: a longer list moves up by one, with an unknown entry at its
      end, and fingers stay.  For a list of one, the predecessor becomes the entry if no finger points to
      anybody; otherwise the entry stays, and exactly the fingers below the first that points to somebody
      point there too. */
  lemma NewSuccEach(node: NodeInfo)
    requires |node.successors| >= 1 && |node.fingers| == KEYSIZE + 1
    ensures var r, list, f := WithNewSucc(node), node.successors, node.fingers;
      && |r.successors| == |list| && |r.fingers| == |f| && r == node.(successors := r.successors, fingers := r.fingers)
      && (|list| > 1 ==>
            && r.fingers == f
            && forall i :: 0 <= i < |list| ==> r.successors[i] == if i + 1 < |list| then list[i + 1] else NOBODY)
      && (|list| == 1 && Nobody(f, KEYSIZE) ==> r.successors == [node.predecessor] && r.fingers == f)
      && (|list| == 1 ==> forall v :: 1 <= v <= KEYSIZE && f[v].address != NOBODY && Nobody(f, v - 1) ==>
            && r.successors == list
            && forall i :: 0 <= i <= KEYSIZE ==>
                 r.fingers[i] == if 1 <= i < v then Finger(f[i].identifier, f[v].address) else f[i])
  {
  }

  /** None of the fingers 1 to `n` points to anybody. */
  ghost predicate Nobody(f: seq<Finger>, n: nat) {
    forall i :: 1 <= i <= n && i < |f| ==> f[i].address == NOBODY
  }

  ghost function Stabilized(node: NodeInfo, reply: Option<StabilizeResponse>): NodeInfo
    requires |node.successors| >= 1 && |node.fingers| == KEYSIZE + 1
    requires reply.Some? && reply.value.youGood ==> |reply.value.successors| >= |node.successors| - 1
  {
    match reply
    case None =>
      node.(successors := Compacted(node.successors, node.successors[0]),
            fingers := Repaired(node.fingers, node.successors[0], node.predecessor))
    case Some(r) => if r.youGood then node.(successors := Verified(node.successors, r.successors)) else node
  }

  /** A reply changes nothing but the successor list, and that only if the node is the right predecessor:
      then entry by entry from the successor's list as far as it is known. */
  lemma AnsweredKeeps(node: NodeInfo, r: StabilizeResponse, i: nat)
    requires |node.successors| >= 1 && |node.fingers| == KEYSIZE + 1 && i < |node.successors|
    requires r.youGood ==> |r.successors| >= |node.successors| - 1
    ensures var n := Stabilized(node, Some(r));
      && n == node.(successors := n.successors) && (!r.youGood ==> n == node)
      && |n.successors| == |node.successors|
      && (r.youGood ==>
            n.successors[i] ==
            if i == 0 || NOBODY in r.successors[..i] then node.successors[i] else r.successors[i - 1])
  {
    hide Verified;
    if r.youGood { VerifiedEach(node.successors, r.successors, i); }
  }

  /** A call without a reply takes the first successor for dead: it is gone from the list, the others stand
      as they stood, and it is gone from the fingers exactly under the repair's condition. */
  lemma UnansweredForgets(node: NodeInfo)
    requires |node.successors| >= 1 && |node.fingers| == KEYSIZE + 1 && node.successors[0] != NOBODY
    ensures var failed, r := node.successors[0], Stabilized(node, None);
      && failed !in r.successors && |r.successors| == |node.successors|
      && Survivors(node.successors, failed) <= r.successors
      && r == node.(successors := r.successors, fingers := r.fingers)
      && (!Mentions(r.fingers, failed) <==>
            Contiguous(node.fingers, failed) &&
            (node.fingers[KEYSIZE].address == failed ==> node.predecessor != failed))
  {
    hide Compacted, Repaired, Contiguous, Mentions, Survivors;
    CompactedExact(node.successors, node.successors[0]);
    RepairedExact(node.fingers, node.successors[0], node.predecessor);
  }
}

/** Reverse order is normal order in a mirror: the nodes numbered backwards, and the CPUs
    within each of them. */
module NodeMirror {
  import opened ListSpec
  import opened NodeSpec

  function Rev(u: seq<bool>): (r: seq<bool>)
    ensures |r| == |u| && forall i :: 0 <= i < |u| ==> r[i] == u[|u| - 1 - i]
  {
    seq(|u|, i requires 0 <= i < |u| => u[|u| - 1 - i])
  }

  /** The node as seen in a mirror held behind the last of total CPUs. */
  function Mirror(n: Node, total: nat): Node {
    var end := n.first + |n.used|;
    Node(-n.id, if end <= total then total - end else 0, n.navail, Rev(n.used))
  }

  function MirrorAll(nodes: seq<Node>, total: nat): seq<Node> {
    MapSeq(n => Mirror(n, total), nodes)
  }

  lemma MirrorCons(n: Node, rest: seq<Node>, total: nat)
    ensures MirrorAll([n] + rest, total) == [Mirror(n, total)] + MirrorAll(rest, total)
  {}

  lemma MirrorNone(total: nat)
    ensures MirrorAll([], total) == []
  {}

  lemma MirrorRest(nodes: seq<Node>, total: nat)
    requires nodes != [] && AllCounted(nodes) && AllCounted(MirrorAll(nodes, total))
    ensures AllCounted(nodes[1..]) && AllCounted(MirrorAll(nodes[1..], total))
    ensures |MirrorAll(nodes, total)| == |nodes|
    ensures MirrorAll(nodes, total)[0] == Mirror(nodes[0], total)
    ensures MirrorAll(nodes, total)[1..] == MirrorAll(nodes[1..], total)
  {
    hide Counted, Mirror;
    assert MirrorAll(nodes, total)[1..] == MirrorAll(nodes[1..], total);
  }

  /** What is free in the mirror is what is free, seen from the other end. */
  lemma MirrorFree(n: Node, total: nat, c: nat)
    requires n.first + |n.used| <= total
    ensures c in FreeCpus(Mirror(n, total)) <==> c < total && total - 1 - c in FreeCpus(n)
  {
    var m := Mirror(n, total);
    var i, j := c - m.first, total - 1 - c - n.first;
    assert 0 <= i < |n.used| <==> 0 <= j < |n.used|;
    assert 0 <= i < |n.used| ==> m.used[i] == n.used[j] && m.first + i == c && n.first + j == total - 1 - c;
  }

  lemma {:induction false} RevCount(u: seq<bool>)
    ensures FreeCount(Rev(u)) == FreeCount(u)
  {
    if u != [] {
      RevCount(u[1..]);
      assert Rev(u) == Rev(u[1..]) + [u[0]];
      FreeConcat(Rev(u[1..]), [u[0]]);
    }
  }

  lemma {:induction false} TakeBackMirror(u: seq<bool>, k: nat)
    ensures TakeBack(Rev(u), k) == Rev(TakeFront(u, k))
  {
    if u != [] && k > 0 {
      var t := u[1..];
      assert Rev(u)[..|u| - 1] == Rev(t);
      TakeBackMirror(t, if u[0] then k else k - 1);
    }
  }

  lemma NodeTakeMirror(n: Node, total: nat, nleft: nat, count: int, reverse: bool)
    requires Counted(n)
    ensures Counted(Mirror(n, total))
    ensures NodeTake(Mirror(n, total), nleft, count, !reverse) == Mirror(NodeTake(n, nleft, count, reverse), total)
  {
    hide FreeCount, TakeFront, TakeBack;
    RevCount(n.used);
    var k := Yield(n, nleft, count);
    if reverse {
      assert Rev(Rev(n.used)) == n.used;
      TakeBackMirror(Rev(n.used), k);
      assert Rev(Rev(TakeFront(Rev(n.used), k))) == TakeFront(Rev(n.used), k);
    } else {
      TakeBackMirror(n.used, k);
    }
  }

  lemma {:induction false} MirrorCounted(nodes: seq<Node>, total: nat)
    requires AllCounted(nodes)
    ensures AllCounted(MirrorAll(nodes, total)) && Total(MirrorAll(nodes, total)) == Total(nodes)
  {
    if nodes != [] {
      RevCount(nodes[0].used);
      assert MirrorAll(nodes, total)[1..] == MirrorAll(nodes[1..], total);
      MirrorCounted(nodes[1..], total);
    }
  }

  lemma MirrorSort(nodes: seq<Node>, total: nat, reverse: bool)
    ensures SortById(MirrorAll(nodes, total), !reverse) == MirrorAll(SortById(nodes, reverse), total)
    ensures Sorting(MirrorAll(nodes, total), CmpFree) == MirrorAll(Sorting(nodes, CmpFree), total)
    ensures Sorting(MirrorAll(nodes, total), CmpAvail) == MirrorAll(Sorting(nodes, CmpAvail), total)
  {
    hide Sorting;
    var h := (n: Node) => Mirror(n, total);
    if reverse { SortingMap(nodes, h, CmpReverse, CmpId); } else { SortingMap(nodes, h, CmpId, CmpReverse); }
    SortingMap(nodes, h, CmpFree, CmpFree);
    SortingMap(nodes, h, CmpAvail, CmpAvail);
  }

  lemma {:induction false} TakeAllMirror(nodes: seq<Node>, total: nat, nleft: nat, reverse: bool)
    requires AllCounted(nodes) && AllCounted(MirrorAll(nodes, total))
    ensures var r := TakeAll(nodes, nleft, reverse);
            TakeAll(MirrorAll(nodes, total), nleft, !reverse) == Result(MirrorAll(r.nodes, total), r.nleft)
  {
    hide NodeTake, Mirror, MirrorAll, FreeCount, TakeAll, Yield;
    if nodes == [] {
      MirrorNone(total);
      TakeAllNone(nleft, reverse);
      TakeAllNone(nleft, !reverse);
    } else {
      MirrorRest(nodes, total);
      NodeTakeMirror(nodes[0], total, nleft, -1, reverse);
      YieldMirror(nodes[0], total, nleft, -1);
      TakeAllFirst(nodes, nleft, reverse);
      TakeAllFirst(MirrorAll(nodes, total), nleft, !reverse);
      TakeAllMirror(nodes[1..], total, nleft - Yield(nodes[0], nleft, -1), reverse);
      MirrorCons(NodeTake(nodes[0], nleft, -1, reverse),
                 TakeAll(nodes[1..], nleft - Yield(nodes[0], nleft, -1), reverse).nodes, total);
    }
  }

  lemma YieldMirror(n: Node, total: nat, nleft: nat, count: int)
    requires n.navail >= 0
    ensures Mirror(n, total).navail == n.navail && |Mirror(n, total).used| == |n.used|
    ensures Yield(Mirror(n, total), nleft, count) == Yield(n, nleft, count)
  {}

  lemma {:induction false} TakeIdleMirror(nodes: seq<Node>, total: nat, nleft: nat, multiplesOnly: bool, reverse: bool)
    requires AllCounted(nodes) && AllCounted(MirrorAll(nodes, total))
    ensures var r := TakeIdle(nodes, nleft, multiplesOnly, reverse);
            TakeIdle(MirrorAll(nodes, total), nleft, multiplesOnly, !reverse)
            == Result(MirrorAll(r.nodes, total), r.nleft)
  {
    if nodes != [] && nleft > 0 {
      hide NodeTake, Mirror, MirrorAll, FreeCount, TakeIdle;
      MirrorRest(nodes, total);
      YieldMirror(nodes[0], total, nleft, -1);
      TakeIdleFirst(nodes, nleft, multiplesOnly, reverse);
      TakeIdleFirst(MirrorAll(nodes, total), nleft, multiplesOnly, !reverse);
      if Idle(nodes[0], nleft, multiplesOnly) {
        NodeTakeMirror(nodes[0], total, nleft, |nodes[0].used|, reverse);
        TakeIdleMirror(nodes[1..], total, nleft - nodes[0].navail, multiplesOnly, reverse);
        MirrorCons(NodeTake(nodes[0], nleft, |nodes[0].used|, reverse),
                   TakeIdle(nodes[1..], nleft - nodes[0].navail, multiplesOnly, reverse).nodes, total);
      } else {
        TakeIdleMirror(nodes[1..], total, nleft, multiplesOnly, reverse);
        MirrorCons(nodes[0], TakeIdle(nodes[1..], nleft, multiplesOnly, reverse).nodes, total);
      }
    }
  }

  lemma ShouldMirror(nodes: seq<Node>, total: nat, policy: Policy, count: nat)
    requires AllCounted(nodes) && AllCounted(MirrorAll(nodes, total))
    ensures ShouldTakeIdle(MirrorAll(nodes, total), policy, count) == ShouldTakeIdle(nodes, policy, count)
  {
    hide FreeCount;
    var ms := MirrorAll(nodes, total);
    forall i | 0 <= i < |nodes|
      ensures ms[i].navail == nodes[i].navail && |ms[i].used| == |nodes[i].used| && ms[i] in ms && nodes[i] in nodes
    {}
  }

  lemma ShouldTakeIdleEitherWay(nodes: seq<Node>, policy: Policy, count: nat)
    requires AllCounted(nodes)
    ensures ShouldTakeIdle(nodes, policy.(reverse := !policy.reverse), count) == ShouldTakeIdle(nodes, policy, count)
  {}

  lemma WorstRoundMirror(nodes: seq<Node>, total: nat, nleft: nat, reverse: bool)
    requires AllCounted(nodes) && AllCounted(MirrorAll(nodes, total)) && nodes != []
    ensures WorstRound(MirrorAll(nodes, total), nleft, !reverse) == MirrorAll(WorstRound(nodes, nleft, reverse), total)
  {
    hide Sorting, Preorder, NodeTake, Mirror, FreeCount;
    Preorders();
    SortedCounted(nodes, CmpAvail);
    MirrorSort(nodes, total, reverse);
    var s := Sorting(nodes, CmpAvail);
    NodeTakeMirror(s[0], total, nleft, 1, reverse);
  }

  lemma {:induction false} TakeWorstMirror(nodes: seq<Node>, total: nat, nleft: nat, reverse: bool)
    requires AllCounted(nodes) && AllCounted(MirrorAll(nodes, total)) && nleft <= Total(nodes)
    requires Total(MirrorAll(nodes, total)) == Total(nodes)
    ensures TakeWorst(MirrorAll(nodes, total), nleft, !reverse) == MirrorAll(TakeWorst(nodes, nleft, reverse), total)
    decreases nleft
  {
    hide WorstRound, Sorting, Preorder, Counted, TakeWorst, MirrorAll;
    if nleft == 0 {
      TakeWorstNone(nodes, reverse);
      TakeWorstNone(MirrorAll(nodes, total), !reverse);
    } else {
      TakeWorstFirst(nodes, nleft, reverse);
      TakeWorstFirst(MirrorAll(nodes, total), nleft, !reverse);
      WorstRoundMirror(nodes, total, nleft, reverse);
      MirrorCounted(WorstRound(nodes, nleft, reverse), total);
      TakeWorstMirror(WorstRound(nodes, nleft, reverse), total, nleft - 1, reverse);
    }
  }

  lemma TakeByPolicyMirror(nodes: seq<Node>, total: nat, policy: Policy, nleft: nat)
    requires AllCounted(nodes) && nleft <= Total(nodes)
    requires AllCounted(MirrorAll(nodes, total)) && Total(MirrorAll(nodes, total)) == Total(nodes)
    ensures TakeByPolicy(MirrorAll(nodes, total), policy.(reverse := !policy.reverse), nleft)
         == MirrorAll(TakeByPolicy(nodes, policy, nleft), total)
  {
    hide Sorting, Preorder, TakeAll, TakeWorst, FreeCount;
    Preorders();
    SortedCounted(nodes, CmpFree);
    var s := Sorting(nodes, CmpFree);
    MirrorSort(nodes, total, policy.reverse);
    MirrorCounted(s, total);
    match policy.fit
    case BestFit => TakeAllMirror(s, total, nleft, policy.reverse);
    case FirstFit => TakeAllMirror(nodes, total, nleft, policy.reverse);
    case WorstFit => TakeWorstMirror(nodes, total, nleft, policy.reverse);
  }

  lemma IdleFirstMirror(nodes: seq<Node>, total: nat, policy: Policy, ncpus: nat)
    requires AllCounted(nodes) && AllCounted(MirrorAll(nodes, total))
    ensures var r := IdleFirst(nodes, policy, ncpus);
            IdleFirst(MirrorAll(nodes, total), policy.(reverse := !policy.reverse), ncpus)
            == Result(MirrorAll(r.nodes, total), r.nleft)
  {
    hide ShouldTakeIdle, TakeIdle, Counted;
    ShouldMirror(nodes, total, policy, ncpus);
    ShouldTakeIdleEitherWay(MirrorAll(nodes, total), policy, ncpus);
    TakeIdleMirror(nodes, total, ncpus, policy.multiplesOnly, policy.reverse);
  }

  /** To allocate in reverse order, look into the mirror, allocate in normal order, and
      look back; under every policy and with idle nodes first or not. */
  lemma ReverseIsMirror(nodes: seq<Node>, total: nat, policy: Policy, ncpus: nat)
    requires AllCounted(nodes) && ncpus <= Total(nodes)
    ensures AllCounted(MirrorAll(nodes, total)) && Total(MirrorAll(nodes, total)) == Total(nodes)
    ensures Allocate(MirrorAll(nodes, total), policy.(reverse := !policy.reverse), ncpus)
         == MirrorAll(Allocate(nodes, policy, ncpus), total)
  {
    hide IdleFirst, TakeByPolicy, SortById, Counted;
    MirrorCounted(nodes, total);
    MirrorSort(nodes, total, policy.reverse);
    SortByIdCounted(nodes, policy.reverse);
    var s := SortById(nodes, policy.reverse);
    MirrorCounted(s, total);
    IdleFirstMirror(s, total, policy, ncpus);
    var r := IdleFirst(s, policy, ncpus);
    MirrorCounted(r.nodes, total);
    TakeByPolicyMirror(r.nodes, total, policy, r.nleft);
  }
}

/** What an allocation does as a whole: in the order of their ids idle nodes go whole, and the
    rest is taken as the policy says, within each node from the first free CPU on. */
module NodeServed {
  import opened Sequences
  import opened ListSpec
  import opened NodeSpec
  import opened NodePolicies

  // ---- which CPUs of a node ----

  /** Where a CPU is left free, so are all free CPUs behind it; in reverse order, before it. */
  predicate TakenInOrder(u: seq<bool>, v: seq<bool>, reverse: bool)
    requires |v| == |u|
  {
    && (forall i :: 0 <= i < |u| && u[i] ==> v[i])
    && (forall i, j :: 0 <= i < |u| && 0 <= j < |u| && !v[i] && !u[j] && (if reverse then j < i else i < j) ==> !v[j])
  }

  lemma {:induction false} TakeFrontInOrder(used: seq<bool>, k: nat)
    ensures TakenInOrder(used, TakeFront(used, k), false)
  {
    if used != [] && k > 0 {
      TakeFrontInOrder(used[1..], if used[0] then k else k - 1);
    }
  }

  lemma {:induction false} TakeBackInOrder(used: seq<bool>, k: nat)
    ensures TakenInOrder(used, TakeBack(used, k), true)
  {
    if used != [] && k > 0 {
      var n := |used| - 1;
      TakeBackInOrder(used[..n], if used[n] then k else k - 1);
    }
  }

  /** The node with some of its free CPUs taken, from the first on or from the last. */
  predicate Shrunk(n: Node, m: Node, reverse: bool) {
    && m.id == n.id && m.first == n.first && |m.used| == |n.used| && m.navail <= n.navail
    && TakenInOrder(n.used, m.used, reverse)
  }

  lemma ShrunkTake(n: Node, nleft: nat, count: int, reverse: bool)
    requires Counted(n)
    ensures Shrunk(n, NodeTake(n, nleft, count, reverse), reverse)
  {
    hide TakeFront, TakeBack, FreeCount, TakenInOrder;
    NodeTakeMeaning(n, nleft, count, reverse);
    TakeFrontInOrder(n.used, Yield(n, nleft, count));
    TakeBackInOrder(n.used, Yield(n, nleft, count));
  }

  lemma ShrunkThen(n: Node, m: Node, l: Node, reverse: bool)
    ensures Shrunk(n, n, reverse)
    ensures Shrunk(n, m, reverse) && Shrunk(m, l, reverse) ==> Shrunk(n, l, reverse)
  {}

  /** Each node in its place, with CPUs taken. */
  predicate AllShrunk(s: seq<Node>, r: seq<Node>, reverse: bool) {
    |r| == |s| && forall i :: 0 <= i < |s| ==> Shrunk(s[i], r[i], reverse)
  }

  lemma {:induction false} TakeAllShrunk(nodes: seq<Node>, k: nat, reverse: bool)
    requires AllCounted(nodes)
    ensures AllShrunk(nodes, TakeAll(nodes, k, reverse).nodes, reverse)
  {
    hide NodeTake, FreeCount, TakeAll, Shrunk;
    if nodes == [] {
      TakeAllNone(k, reverse);
    } else {
      TakeAllFirst(nodes, k, reverse);
      ShrunkTake(nodes[0], k, -1, reverse);
      TakeAllShrunk(nodes[1..], k - Yield(nodes[0], k, -1), reverse);
    }
  }

  /** The nodes in the order in which worst-fit leaves them. */
  lemma {:induction false} TakeWorstShrunk(nodes: seq<Node>, k: nat, reverse: bool) returns (s: seq<Node>)
    requires AllCounted(nodes) && k <= Total(nodes)
    ensures multiset(s) == multiset(nodes) && AllShrunk(s, TakeWorst(nodes, k, reverse), reverse)
    decreases k
  {
    hide NodeTake, Counted, TakeWorst, Shrunk, Sorting, Preorder, Total, WorstRound;
    if k == 0 {
      TakeWorstNone(nodes, reverse);
      forall i | 0 <= i < |nodes| ensures Shrunk(nodes[i], nodes[i], reverse) {
        ShrunkThen(nodes[i], nodes[i], nodes[i], reverse);
      }
      s := nodes;
    } else {
      TakeWorstFirst(nodes, k, reverse);
      var r := WorstRound(nodes, k, reverse);
      var t := RoundShrunk(nodes, k, reverse);
      var u := TakeWorstShrunk(r, k - 1, reverse);
      s := Swapped(u, r, t, TakeWorst(r, k - 1, reverse), reverse);
    }
  }

  lemma RoundShrunk(nodes: seq<Node>, k: nat, reverse: bool) returns (t: seq<Node>)
    requires AllCounted(nodes) && nodes != [] && 0 < k <= Total(nodes)
    ensures multiset(t) == multiset(nodes) && |t| == |nodes|
    ensures var r := WorstRound(nodes, k, reverse);
            |r| == |t| && r[1..] == t[1..] && Shrunk(t[0], r[0], reverse)
  {
    hide NodeTake, FreeCount, Shrunk, Sorting, Preorder, Total;
    Preorders();
    SortingMeaning(nodes, CmpAvail);
    SortedCounted(nodes, CmpAvail);
    t := Sorting(nodes, CmpAvail);
    ShrunkTake(t[0], k, 1, reverse);
  }

  /** If u are the nodes of r in another order, and r is t but for the first node, then t can
      be put in the order of u. */
  lemma Swapped(u: seq<Node>, r: seq<Node>, t: seq<Node>, v: seq<Node>, reverse: bool) returns (s: seq<Node>)
    requires multiset(u) == multiset(r) && r != [] && |t| == |r| && t[1..] == r[1..]
    requires AllShrunk(u, v, reverse) && Shrunk(t[0], r[0], reverse)
    ensures multiset(s) == multiset(t) && AllShrunk(s, v, reverse)
  {
    hide Shrunk;
    assert r[0] in multiset(u);
    var p :| 0 <= p < |u| && u[p] == r[0];
    s := u[p := t[0]];
    SwapBag(u, r, t, p);
    ShrunkThen(t[0], r[0], v[p], reverse);
    forall i | 0 <= i < |s| ensures Shrunk(s[i], v[i], reverse) {
      assert Shrunk(u[i], v[i], reverse);
    }
  }

  lemma SwapBag(u: seq<Node>, r: seq<Node>, t: seq<Node>, p: nat)
    requires multiset(u) == multiset(r) && r != [] && |t| == |r| && t[1..] == r[1..] && p < |u| && u[p] == r[0]
    ensures multiset(u[p := t[0]]) == multiset(t)
  {
    PutIn(u, p, t[0]);
    PutIn(r, 0, t[0]);
    assert r[0 := t[0]] == t;
    BagsAgree(multiset(u[p := t[0]]), multiset(t), multiset(u) + multiset{t[0]}, r[0]);
  }

  lemma PutIn(u: seq<Node>, p: nat, x: Node)
    requires p < |u|
    ensures multiset(u[p := x]) + multiset{u[p]} == multiset(u) + multiset{x}
  {
    assert u == u[..p] + [u[p]] + u[p + 1..] && u[p := x] == u[..p] + [x] + u[p + 1..];
  }

  lemma BagsAgree(a: multiset<Node>, b: multiset<Node>, c: multiset<Node>, x: Node)
    requires a + multiset{x} == c && b + multiset{x} == c
    ensures a == b
  {
    assert a == c - multiset{x} == b;
  }

  // ---- the whole allocation ----

  predicate InIdOrder(nodes: seq<Node>, reverse: bool) {
    forall i, j :: 0 <= i < j < |nodes| ==>
      if reverse then nodes[i].id >= nodes[j].id else nodes[i].id <= nodes[j].id
  }

  /** The node with all its CPUs taken. */
  function Filled(n: Node): Node {
    n.(navail := 0, used := seq(|n.used|, _ => true))
  }

  /** In which case an idle node goes whole when so many CPUs are still to be taken. */
  predicate GoesWhole(n: Node, policy: Policy, nleft: int) {
    && policy.idleFirst && n.navail == |n.used| && 0 < n.navail <= nleft
    && (policy.multiplesOnly ==> nleft % n.navail == 0)
  }

  /** What has gone from the nodes before the one at i. */
  function Gone(was: seq<Node>, nodes: seq<Node>, i: nat): int
    requires AllCounted(was) && AllCounted(nodes) && i <= |was| == |nodes|
  {
    Total(was[..i]) - Total(nodes[..i])
  }

  /** The idle phase has filled the idle nodes that suit the number still to be taken, one
      after the other, and touched no others. */
  predicate IdleServed(was: seq<Node>, nodes: seq<Node>, policy: Policy, k: nat) {
    && AllCounted(was) && AllCounted(nodes) && |was| == |nodes|
    && forall i :: 0 <= i < |was| ==>
         nodes[i] == if GoesWhole(was[i], policy, k - Gone(was, nodes, i)) then Filled(was[i]) else was[i]
  }

  predicate TakenAt(s: seq<Node>, r: seq<Node>, i: nat)
    requires i < |s| == |r|
  {
    r[i].navail < s[i].navail
  }

  /** No other way to take as many CPUs from the nodes uses up more of them, and only one that
      CPUs are taken from keeps any. */
  ghost predicate BestServed(s: seq<Node>, r: seq<Node>, k: nat)
    requires AllCounted(s) && AllCounted(r) && |s| == |r|
  {
    && (forall other :: AllCounted(other) && TakenFrom(s, other, k) ==> UsedUp(other) <= UsedUp(r))
    && (forall i, j :: 0 <= i < j < |s| && TakenAt(s, r, i) && TakenAt(s, r, j) ==>
          r[i].navail == 0 || r[j].navail == 0)
  }

  predicate Before(n: Node, m: Node, reverse: bool) {
    if reverse then n.id > m.id else n.id < m.id
  }

  /** CPUs are taken from a node only when those before it, by node id, have none left. */
  predicate FirstServed(s: seq<Node>, r: seq<Node>, reverse: bool)
    requires |s| == |r|
  {
    forall i, j :: 0 <= i < |s| && 0 <= j < |s| && TakenAt(s, r, j) && Before(s[i], s[j], reverse) ==> r[i].navail == 0
  }

  /** Where CPUs are taken from a node, no node is left with two more. */
  predicate WorstServed(s: seq<Node>, r: seq<Node>)
    requires |s| == |r|
  {
    forall i, j :: 0 <= i < |s| && 0 <= j < |s| && TakenAt(s, r, i) ==> r[j].navail <= r[i].navail + 1
  }

  /** The nodes s are served as the policy says when k CPUs have gone. */
  ghost predicate PolicyServed(s: seq<Node>, r: seq<Node>, policy: Policy, k: nat) {
    && AllCounted(s) && AllCounted(r) && AllShrunk(s, r, policy.reverse) && Total(s) - Total(r) == k
    && match policy.fit
       case BestFit => BestServed(s, r, k)
       case FirstFit => FirstServed(s, r, policy.reverse)
       case WorstFit => WorstServed(s, r)
  }

  /** From the nodes before to those after: in the order of their ids the idle phase, and of
      what it leaves, in some order, the rest as the policy says. */
  ghost predicate Served(before: seq<Node>, after: seq<Node>, policy: Policy, k: nat) {
    exists was, mid, s, left: nat ::
      && multiset(was) == multiset(before) && InIdOrder(was, policy.reverse)
      && IdleServed(was, mid, policy, k) && multiset(s) == multiset(mid)
      && left + (Total(was) - Total(mid)) == k && PolicyServed(s, after, policy, left)
  }

  lemma WholeTake(n: Node, nleft: nat, reverse: bool)
    requires Counted(n) && n.navail == |n.used| <= nleft
    ensures NodeTake(n, nleft, |n.used|, reverse) == Filled(n)
  {
    hide FreeCount;
    TakeFrontFills(n.used, |n.used|);
    TakeBackFills(n.used, 0);
    assert n.used[..|n.used|] == n.used == n.used[0..];
  }

  lemma GoneNone(nodes: seq<Node>, i: nat)
    requires AllCounted(nodes) && i <= |nodes|
    ensures Gone(nodes, nodes, i) == 0
  {}

  lemma GoneNext(was: seq<Node>, nodes: seq<Node>, i: nat)
    requires AllCounted(was) && AllCounted(nodes) && 0 < i <= |was| == |nodes|
    ensures Gone(was, nodes, i) == was[0].navail - nodes[0].navail + Gone(was[1..], nodes[1..], i - 1)
  {
    hide Counted;
    assert was[..i][1..] == was[1..][..i - 1] && nodes[..i][1..] == nodes[1..][..i - 1];
  }

  lemma {:induction false} TakeIdleServes(nodes: seq<Node>, policy: Policy, k: nat)
    requires AllCounted(nodes) && policy.idleFirst
    ensures IdleServed(nodes, TakeIdle(nodes, k, policy.multiplesOnly, policy.reverse).nodes, policy, k)
  {
    hide FreeCount, Take, TakeIdle, Gone, NodeTake;
    TakeIdleMeaning(nodes, k, policy.multiplesOnly, policy.reverse);
    var r := TakeIdle(nodes, k, policy.multiplesOnly, policy.reverse).nodes;
    if nodes == [] || k == 0 {
      TakeIdleNone(nodes, k, policy.multiplesOnly, policy.reverse);
      forall i | 0 <= i < |nodes| ensures Gone(nodes, nodes, i) == 0 { GoneNone(nodes, i); }
    } else {
      TakeIdleFirst(nodes, k, policy.multiplesOnly, policy.reverse);
      var idle := Idle(nodes[0], k, policy.multiplesOnly);
      var t, left := nodes[1..], if idle then k - nodes[0].navail else k;
      TakeIdleServes(t, policy, left);
      if idle { WholeTake(nodes[0], k, policy.reverse); }
      FirstServes(nodes, r, policy, k, left);
    }
  }

  lemma FirstServes(was: seq<Node>, r: seq<Node>, policy: Policy, k: nat, left: int)
    requires AllCounted(was) && AllCounted(r) && |was| == |r| > 0 && left == k - (was[0].navail - r[0].navail)
    requires r[0] == if GoesWhole(was[0], policy, k) then Filled(was[0]) else was[0]
    requires left >= 0 && IdleServed(was[1..], r[1..], policy, left)
    ensures IdleServed(was, r, policy, k)
  {
    hide Gone, Filled, Counted, GoesWhole;
    forall i | 0 <= i < |was|
      ensures r[i] == if GoesWhole(was[i], policy, k - Gone(was, r, i)) then Filled(was[i]) else was[i]
    {
      if i == 0 {
        NoneGone(was, r);
      } else {
        GoneNext(was, r, i);
        assert was[i] == was[1..][i - 1] && r[i] == r[1..][i - 1];
      }
    }
  }

  lemma NoneGone(was: seq<Node>, nodes: seq<Node>)
    requires AllCounted(was) && AllCounted(nodes) && |was| == |nodes|
    ensures Gone(was, nodes, 0) == 0
  {}

  lemma IdleFirstServes(nodes: seq<Node>, policy: Policy, k: nat)
    requires AllCounted(nodes)
    ensures IdleServed(nodes, IdleFirst(nodes, policy, k).nodes, policy, k)
  {
    hide FreeCount, Take, TakeIdle, Gone, Filled;
    if ShouldTakeIdle(nodes, policy, k) {
      TakeIdleServes(nodes, policy, k);
    } else {
      forall i | 0 <= i < |nodes| ensures !GoesWhole(nodes[i], policy, k - Gone(nodes, nodes, i)) {
        GoneNone(nodes, i);
        assert nodes[i] in nodes;
      }
    }
  }

  lemma BestFitServes(nodes: seq<Node>, k: nat, reverse: bool)
    requires AllCounted(nodes) && k <= Total(nodes)
    ensures AllCounted(Sorting(nodes, CmpFree)) && multiset(Sorting(nodes, CmpFree)) == multiset(nodes)
    ensures var s := Sorting(nodes, CmpFree); var r := TakeAll(s, k, reverse).nodes;
            && AllCounted(r) && AllShrunk(s, r, reverse) && Total(s) - Total(r) == k && BestServed(s, r, k)
  {
    hide Preorder, Sorting, TakeAll, Counted, Total, UsedUp, Shrunk;
    Preorders();
    SortedCounted(nodes, CmpFree);
    SortingMeaning(nodes, CmpFree);
    var s := Sorting(nodes, CmpFree);
    var r := TakeAll(s, k, reverse).nodes;
    TakeAllShrunk(s, k, reverse);
    BestFitUsesUp(nodes, k, reverse, s);
    forall other | AllCounted(other) && TakenFrom(s, other, k) ensures UsedUp(other) <= UsedUp(r) {
      BestFitUsesUp(nodes, k, reverse, other);
    }
  }

  lemma FirstFitServes(nodes: seq<Node>, k: nat, reverse: bool)
    requires AllCounted(nodes) && k <= Total(nodes) && InIdOrder(nodes, reverse)
    ensures var r := TakeAll(nodes, k, reverse).nodes;
            && AllCounted(r) && AllShrunk(nodes, r, reverse) && Total(nodes) - Total(r) == k
            && FirstServed(nodes, r, reverse)
  {
    hide TakeAll, Counted, Total, Shrunk, Greedy;
    var r := TakeAll(nodes, k, reverse).nodes;
    TakeAllMeaning(nodes, k, reverse);
    TakeAllShrunk(nodes, k, reverse);
    TakeAllGreedy(nodes, k, reverse);
    GreedyLast(Avails(nodes), k);
  }

  lemma WorstFitServes(nodes: seq<Node>, k: nat, reverse: bool) returns (s: seq<Node>)
    requires AllCounted(nodes) && k <= Total(nodes) && FirstsDiffer(nodes)
    ensures multiset(s) == multiset(nodes) && AllCounted(s)
    ensures var r := TakeWorst(nodes, k, reverse);
            AllShrunk(s, r, reverse) && Total(s) - Total(r) == k && WorstServed(s, r)
  {
    hide TakeWorst, Counted, Total, TakenInOrder;
    s := TakeWorstShrunk(nodes, k, reverse);
    SameCounted(s, nodes);
    WorstFitLevelsFromStart(nodes, k, reverse);
    var r := TakeWorst(nodes, k, reverse);
    forall i, j | 0 <= i < |s| && 0 <= j < |s| && TakenAt(s, r, i) ensures r[j].navail <= r[i].navail + 1 {
      assert s[i] in multiset(nodes);
      assert Shrunk(s[i], r[i], reverse);
    }
  }

  lemma SameCounted(a: seq<Node>, b: seq<Node>)
    requires AllCounted(b) && multiset(a) == multiset(b)
    ensures AllCounted(a) && Total(a) == Total(b)
  {
    hide Counted, Total;
    forall i | 0 <= i < |a| ensures Counted(a[i]) {
      assert a[i] in multiset(b);
    }
    TotalSame(a, b);
  }

  /** The phase that follows the policy does what the policy is for. */
  lemma PolicyServes(nodes: seq<Node>, policy: Policy, k: nat) returns (s: seq<Node>)
    requires AllCounted(nodes) && k <= Total(nodes) && FirstsDiffer(nodes) && InIdOrder(nodes, policy.reverse)
    ensures multiset(s) == multiset(nodes) && PolicyServed(s, TakeByPolicy(nodes, policy, k), policy, k)
  {
    hide Preorder, Sorting, TakeAll, TakeWorst, Counted, Total, AllShrunk, BestServed, FirstServed, WorstServed,
         InIdOrder, FirstsDiffer;
    TakeByPolicyMeaning(nodes, policy, k);
    Preorders();
    if k == 0 {
      NothingServed(nodes, policy);
      s := nodes;
    } else {
      match policy.fit
      case BestFit =>
        BestFitServes(nodes, k, policy.reverse);
        s := Sorting(nodes, CmpFree);
      case FirstFit =>
        FirstFitServes(nodes, k, policy.reverse);
        s := nodes;
      case WorstFit =>
        s := WorstFitServes(nodes, k, policy.reverse);
    }
  }

  lemma NothingServed(nodes: seq<Node>, policy: Policy)
    requires AllCounted(nodes)
    ensures PolicyServed(nodes, nodes, policy, 0)
  {
    hide Total, UsedUp, Counted, TakenInOrder;
    forall i | 0 <= i < |nodes| ensures Shrunk(nodes[i], nodes[i], policy.reverse) {
      ShrunkThen(nodes[i], nodes[i], nodes[i], policy.reverse);
    }
    forall other | AllCounted(other) && TakenFrom(nodes, other, 0) ensures UsedUp(other) <= UsedUp(nodes) {
      NothingTaken(nodes, other);
    }
  }

  lemma NothingTaken(s: seq<Node>, other: seq<Node>)
    requires AllCounted(s) && AllCounted(other) && TakenFrom(s, other, 0)
    ensures UsedUp(other) == UsedUp(s)
  {
    hide Total, Counted, Zeros, Sum;
    SumAvails(s);
    SumAvails(other);
    SumAtMost(Avails(other), Avails(s));
    assert Avails(other) == Avails(s);
  }

  /** nodemap_allocate, on the nodes. */
  lemma AllocateServes(nodes: seq<Node>, policy: Policy, k: nat)
    requires AllCounted(nodes) && k <= Total(nodes)
    requires AllCounted(SortById(nodes, policy.reverse))
    requires FirstsDiffer(IdleFirst(SortById(nodes, policy.reverse), policy, k).nodes)
    ensures Served(nodes, Allocate(nodes, policy, k), policy, k)
  {
    hide Preorder, Sorting, TakeByPolicy, Counted, IdleServed, PolicyServed, Total, FirstsDiffer, IdleFirst, InIdOrder;
    var was := SortById(nodes, policy.reverse);
    SortByIdCounted(nodes, policy.reverse);
    InOrderById(nodes, policy.reverse);
    var r := IdleFirst(was, policy, k);
    IdleFirstServes(was, policy, k);
    IdKept(was, r.nodes, policy, k);
    var s := PolicyServes(r.nodes, policy, r.nleft);
  }

  lemma InOrderById(nodes: seq<Node>, reverse: bool)
    ensures InIdOrder(SortById(nodes, reverse), reverse) && multiset(SortById(nodes, reverse)) == multiset(nodes)
  {
    hide Preorder, Sorting;
    Preorders();
    SortingMeaning(nodes, CmpId);
    SortingMeaning(nodes, CmpReverse);
    var s := SortById(nodes, reverse);
    assert forall i, j :: 0 <= i < j < |s| ==> (if reverse then CmpReverse(s[i], s[j]) else CmpId(s[i], s[j])) <= 0;
  }

  lemma IdKept(was: seq<Node>, nodes: seq<Node>, policy: Policy, k: nat)
    requires IdleServed(was, nodes, policy, k) && InIdOrder(was, policy.reverse)
    ensures InIdOrder(nodes, policy.reverse)
  {
    hide Gone, GoesWhole, Counted;
    assert forall i :: 0 <= i < |was| ==> nodes[i].id == was[i].id;
  }
}

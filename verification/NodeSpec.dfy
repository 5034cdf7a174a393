/** What an allocation does to the NUMA nodes of the map: which local CPUs it takes, node
    by node, under each policy. */
module NodeSpec {
  import opened Sequences
  import opened ListSpec

  /** A node with its local CPUs numbered first, first + 1, ... in the whole system. */
  datatype Node = Node(id: int, first: nat, navail: int, used: seq<bool>)

  datatype Fit = BestFit | FirstFit | WorstFit

  datatype Policy = Policy(fit: Fit, reverse: bool, idleFirst: bool, multiplesOnly: bool)

  function FreeCount(used: seq<bool>): (n: nat)
    ensures n <= |used|
  {
    if used == [] then 0 else (if used[0] then 0 else 1) + FreeCount(used[1..])
  }

  lemma {:induction false} FreeConcat(a: seq<bool>, b: seq<bool>)
    ensures FreeCount(a + b) == FreeCount(a) + FreeCount(b)
  {
    if a == [] {
      assert a + b == b;
    } else {
      assert (a + b)[1..] == a[1..] + b;
      FreeConcat(a[1..], b);
    }
  }

  function Min(a: int, b: int): int {
    if a < b then a else b
  }

  // ---- one node ----

  /** The counter of the node is right. */
  predicate Counted(n: Node) {
    |n.used| > 0 && n.navail == FreeCount(n.used)
  }

  /** The free CPUs of the node, by their numbers in the system. */
  function FreeCpus(n: Node): set<nat> {
    set i | 0 <= i < |n.used| && !n.used[i] :: n.first + i
  }

  /** Take the first k free CPUs. */
  function TakeFront(used: seq<bool>, k: nat): (r: seq<bool>)
    ensures |r| == |used|
  {
    if used == [] || k == 0 then used
    else [true] + TakeFront(used[1..], if used[0] then k else k - 1)
  }

  /** Take the last k free CPUs. */
  function TakeBack(used: seq<bool>, k: nat): (r: seq<bool>)
    ensures |r| == |used|
  {
    if used == [] || k == 0 then used
    else
      var n := |used| - 1;
      TakeBack(used[..n], if used[n] then k else k - 1) + [true]
  }

  function Take(used: seq<bool>, k: nat, reverse: bool): (r: seq<bool>)
    ensures |r| == |used|
  {
    if reverse then TakeBack(used, k) else TakeFront(used, k)
  }

  /** How many CPUs a node yields: at most count, which means all when it is negative. */
  function Yield(n: Node, nleft: nat, count: int): nat
    requires n.navail >= 0
  {
    Min(nleft, if count < 0 then n.navail else Min(count, n.navail))
  }

  /** node_allocate_n */
  function NodeTake(n: Node, nleft: nat, count: int, reverse: bool): (r: Node)
    requires n.navail >= 0
  {
    var m := Yield(n, nleft, count);
    n.(navail := n.navail - m, used := Take(n.used, m, reverse))
  }

  lemma {:induction false} TakeFrontMeaning(used: seq<bool>, k: nat)
    requires k <= FreeCount(used)
    ensures FreeCount(TakeFront(used, k)) == FreeCount(used) - k
    ensures forall i :: 0 <= i < |used| && used[i] ==> TakeFront(used, k)[i]
  {
    if used != [] && k > 0 {
      TakeFrontMeaning(used[1..], if used[0] then k else k - 1);
    }
  }

  lemma {:induction false} TakeBackMeaning(used: seq<bool>, k: nat)
    requires k <= FreeCount(used)
    ensures FreeCount(TakeBack(used, k)) == FreeCount(used) - k
    ensures forall i :: 0 <= i < |used| && used[i] ==> TakeBack(used, k)[i]
  {
    if used != [] && k > 0 {
      var n := |used| - 1;
      var t := TakeBack(used[..n], if used[n] then k else k - 1);
      assert used == used[..n] + [used[n]];
      FreeConcat(used[..n], [used[n]]);
      TakeBackMeaning(used[..n], if used[n] then k else k - 1);
      FreeConcat(t, [true]);
    }
  }

  /** Taking leaves the node counted, frees nothing, and takes what it says. */
  lemma NodeTakeMeaning(n: Node, nleft: nat, count: int, reverse: bool)
    requires Counted(n)
    ensures var r := NodeTake(n, nleft, count, reverse);
            && Counted(r) && r.id == n.id && r.first == n.first && |r.used| == |n.used|
            && r.navail == n.navail - Yield(n, nleft, count)
            && forall i :: 0 <= i < |n.used| && n.used[i] ==> r.used[i]
  {
    TakeFrontMeaning(n.used, Yield(n, nleft, count));
    TakeBackMeaning(n.used, Yield(n, nleft, count));
  }

  /** All CPUs below position i taken, the rest as it was. */
  function FilledTo(used: seq<bool>, i: nat): seq<bool>
    requires i <= |used|
  {
    seq(i, _ => true) + used[i..]
  }

  function FilledFrom(used: seq<bool>, i: nat): seq<bool>
    requires i <= |used|
  {
    used[..i] + seq(|used| - i, _ => true)
  }

  /** The loop from the first CPU on: having passed i CPUs it has taken those free among
      them. */
  lemma {:induction false} TakeFrontFills(used: seq<bool>, i: nat)
    requires i <= |used|
    ensures TakeFront(used, FreeCount(used[..i])) == FilledTo(used, i)
  {
    if i > 0 {
      var t := used[1..];
      assert used[..i][1..] == t[..i - 1];
      TakeFrontFills(t, i - 1);
      if FreeCount(used[..i]) == 0 {
        NoneFree(used[..i]);
        assert FilledTo(used, i) == used;
      } else {
        assert FilledTo(used, i) == [true] + FilledTo(t, i - 1);
      }
    } else {
      assert used[..0] == [] && FilledTo(used, 0) == used;
    }
  }

  lemma {:induction false} NoneFree(used: seq<bool>)
    requires FreeCount(used) == 0
    ensures forall i :: 0 <= i < |used| ==> used[i]
  {
    if used != [] { NoneFree(used[1..]); }
  }

  /** The loop from the last CPU down. */
  lemma {:induction false} TakeBackFills(used: seq<bool>, i: nat)
    requires i <= |used|
    ensures TakeBack(used, FreeCount(used[i..])) == FilledFrom(used, i)
  {
    hide FreeCount, FilledFrom;
    if i == |used| {
      assert used[i..] == [];
      NothingFilled(used, i);
    } else {
      var n := |used| - 1;
      var t := used[..n];
      assert used[i..] == t[i..] + [used[n]];
      FreeConcat(t[i..], [used[n]]);
      FreeOne(used[n]);
      TakeBackFills(t, i);
      if FreeCount(used[i..]) == 0 {
        NoneFree(used[i..]);
        NothingFilled(used, i);
      } else {
        FilledLast(used, i);
      }
    }
  }

  lemma FreeOne(u: bool)
    ensures FreeCount([u]) == (if u then 0 else 1) && FreeCount([]) == 0
  {
    assert [u][1..] == [];
  }

  lemma NothingFilled(used: seq<bool>, i: nat)
    requires i <= |used| && forall k :: 0 <= k < |used[i..]| ==> used[i..][k]
    ensures FilledFrom(used, i) == used
  {
    assert forall k :: i <= k < |used| ==> used[k] == used[i..][k - i];
  }

  lemma FilledLast(used: seq<bool>, i: nat)
    requires i < |used|
    ensures FilledFrom(used, i) == FilledFrom(used[..|used| - 1], i) + [true]
  {}

  // ---- the order of nodes ----

  /** node_cmp_nodeid */
  function CmpId(a: Node, b: Node): int {
    if a.id < b.id then -1 else if a.id > b.id then 1 else 0
  }

  /** node_cmp_reverse */
  function CmpReverse(a: Node, b: Node): int {
    -CmpId(a, b)
  }

  /** node_cmp_free */
  function CmpFree(a: Node, b: Node): int {
    if a.navail == b.navail then 0 else if a.navail < b.navail then -1 else 1
  }

  /** node_cmp_avail */
  function CmpAvail(a: Node, b: Node): int {
    -CmpFree(a, b)
  }

  function SortById(nodes: seq<Node>, reverse: bool): seq<Node> {
    if reverse then Sorting(nodes, CmpReverse) else Sorting(nodes, CmpId)
  }

  lemma Preorders()
    ensures Preorder(CmpId) && Preorder(CmpReverse) && Preorder(CmpFree) && Preorder(CmpAvail)
  {}

  /** Best-fit meets the nodes by free CPUs, and by node id among equals, the highest id
      first in reverse order. */
  lemma BestFitOrder(nodes: seq<Node>, reverse: bool, i: nat, j: nat)
    ensures var s := Sorting(SortById(nodes, reverse), CmpFree);
            i < j < |s| ==>
              s[i].navail < s[j].navail
              || (s[i].navail == s[j].navail && if reverse then s[i].id >= s[j].id else s[i].id <= s[j].id)
  {
    hide Preorder, Sorting, InOrder, Lex;
    var s := Sorting(SortById(nodes, reverse), CmpFree);
    BestFitLex(nodes, reverse);
    if i < j < |s| {
      if reverse {
        OrderAt(s, Lex(CmpFree, CmpReverse), i, j);
        FreeThenReverse(s[i], s[j]);
      } else {
        OrderAt(s, Lex(CmpFree, CmpId), i, j);
        FreeThenId(s[i], s[j]);
      }
    }
  }

  lemma BestFitLex(nodes: seq<Node>, reverse: bool)
    ensures var s := Sorting(SortById(nodes, reverse), CmpFree);
            if reverse then InOrder(s, Lex(CmpFree, CmpReverse)) else InOrder(s, Lex(CmpFree, CmpId))
  {
    hide Preorder, Sorting, InOrder, Lex;
    Preorders();
    if reverse {
      SortingMeaning(nodes, CmpReverse);
      SortingThen(SortById(nodes, reverse), CmpReverse, CmpFree);
    } else {
      SortingMeaning(nodes, CmpId);
      SortingThen(SortById(nodes, reverse), CmpId, CmpFree);
    }
  }

  lemma FreeThenId(a: Node, b: Node)
    requires Lex(CmpFree, CmpId)(a, b) <= 0
    ensures a.navail < b.navail || (a.navail == b.navail && a.id <= b.id)
  {
    LexMeaning(CmpFree, CmpId, a, b);
  }

  lemma FreeThenReverse(a: Node, b: Node)
    requires Lex(CmpFree, CmpReverse)(a, b) <= 0
    ensures a.navail < b.navail || (a.navail == b.navail && a.id >= b.id)
  {
    LexMeaning(CmpFree, CmpReverse, a, b);
  }

  // ---- the phases ----

  predicate AllCounted(nodes: seq<Node>) {
    forall i :: 0 <= i < |nodes| ==> Counted(nodes[i])
  }

  function Total(nodes: seq<Node>): (t: nat)
    requires AllCounted(nodes)
  {
    if nodes == [] then 0 else nodes[0].navail + Total(nodes[1..])
  }

  datatype Result = Result(nodes: seq<Node>, nleft: nat)

  /** do_allocation after sorting: take all that is there from each node in turn. */
  function TakeAll(nodes: seq<Node>, nleft: nat, reverse: bool): (r: Result)
    requires AllCounted(nodes)
    ensures |r.nodes| == |nodes|
  {
    if nodes == [] then Result(nodes, nleft)
    else
      var n := NodeTake(nodes[0], nleft, -1, reverse);
      var r := TakeAll(nodes[1..], nleft - Yield(nodes[0], nleft, -1), reverse);
      Result([n] + r.nodes, r.nleft)
  }

  /** Whether alloc_idle_nodes takes the node. */
  predicate Idle(n: Node, nleft: nat, multiplesOnly: bool) {
    && n.navail > 0
    && (multiplesOnly ==> nleft % n.navail == 0)
    && n.navail == |n.used| && nleft >= n.navail
  }

  /** alloc_idle_nodes */
  function TakeIdle(nodes: seq<Node>, nleft: nat, multiplesOnly: bool, reverse: bool): (r: Result)
    requires AllCounted(nodes)
    ensures |r.nodes| == |nodes|
  {
    if nodes == [] || nleft == 0 then Result(nodes, nleft)
    else if Idle(nodes[0], nleft, multiplesOnly) then
      var n := NodeTake(nodes[0], nleft, |nodes[0].used|, reverse);
      var r := TakeIdle(nodes[1..], nleft - nodes[0].navail, multiplesOnly, reverse);
      Result([n] + r.nodes, r.nleft)
    else
      var r := TakeIdle(nodes[1..], nleft, multiplesOnly, reverse);
      Result([nodes[0]] + r.nodes, r.nleft)
  }

  lemma TakeAllFirst(nodes: seq<Node>, nleft: nat, reverse: bool)
    requires AllCounted(nodes) && nodes != []
    ensures Yield(nodes[0], nleft, -1) <= nleft
    ensures var r := TakeAll(nodes[1..], nleft - Yield(nodes[0], nleft, -1), reverse);
            TakeAll(nodes, nleft, reverse) == Result([NodeTake(nodes[0], nleft, -1, reverse)] + r.nodes, r.nleft)
  {}

  lemma TakeIdleFirst(nodes: seq<Node>, nleft: nat, multiplesOnly: bool, reverse: bool)
    requires AllCounted(nodes) && nodes != [] && nleft > 0
    ensures var idle := Idle(nodes[0], nleft, multiplesOnly);
            var n := if idle then NodeTake(nodes[0], nleft, |nodes[0].used|, reverse) else nodes[0];
            var r := TakeIdle(nodes[1..], if idle then nleft - nodes[0].navail else nleft, multiplesOnly, reverse);
            TakeIdle(nodes, nleft, multiplesOnly, reverse) == Result([n] + r.nodes, r.nleft)
  {}

  /** should_allocate_idle_nodes */
  predicate ShouldTakeIdle(nodes: seq<Node>, policy: Policy, count: nat)
    requires AllCounted(nodes)
  {
    policy.idleFirst
    && exists n :: n in nodes && n.navail == |n.used|
                   && if policy.multiplesOnly then count % |n.used| == 0 else count >= |n.used|
  }

  lemma {:induction false} TotalMember(nodes: seq<Node>, i: nat)
    requires AllCounted(nodes) && i < |nodes|
    ensures nodes[i].navail <= Total(nodes)
  {
    if i > 0 { TotalMember(nodes[1..], i - 1); }
  }

  lemma {:induction false} TotalConcat(a: seq<Node>, b: seq<Node>)
    requires AllCounted(a) && AllCounted(b)
    ensures AllCounted(a + b) && Total(a + b) == Total(a) + Total(b)
  {
    if a == [] {
      assert a + b == b;
    } else {
      assert (a + b)[1..] == a[1..] + b;
      TotalConcat(a[1..], b);
    }
  }

  lemma {:induction false} TotalRemove(s: seq<Node>, i: nat)
    requires AllCounted(s) && i < |s|
    ensures AllCounted(RemoveAt(s, i)) && Total(s) == Total(RemoveAt(s, i)) + s[i].navail
  {
    var r := RemoveAt(s, i);
    if i == 0 {
      assert r == s[1..];
    } else {
      assert r[0] == s[0] && r[1..] == RemoveAt(s[1..], i - 1);
      TotalRemove(s[1..], i - 1);
    }
  }

  lemma {:induction false} TotalSame(a: seq<Node>, b: seq<Node>)
    requires AllCounted(a) && AllCounted(b) && multiset(a) == multiset(b)
    ensures Total(a) == Total(b)
    decreases |a|
  {
    assert |a| == |multiset(a)| == |multiset(b)| == |b|;
    if a != [] {
      hide Total, Counted;
      assert a[0] in multiset(b);
      var i :| 0 <= i < |b| && b[i] == a[0];
      TotalRemove(a, 0);
      TotalRemove(b, i);
      RemoveAtBag(a, 0);
      RemoveAtBag(b, i);
      TotalSame(RemoveAt(a, 0), RemoveAt(b, i));
    }
  }

  lemma SortedCounted(nodes: seq<Node>, f: Compare<Node>)
    requires AllCounted(nodes) && Preorder(f)
    ensures AllCounted(Sorting(nodes, f)) && Total(Sorting(nodes, f)) == Total(nodes)
  {
    hide Preorder, Sorting, Counted;
    SortingMeaning(nodes, f);
    var s := Sorting(nodes, f);
    forall i | 0 <= i < |s| ensures Counted(s[i]) {
      assert s[i] in multiset(nodes);
    }
    TotalSame(s, nodes);
  }

  /** One round of allocation_worst_fit. */
  function WorstRound(nodes: seq<Node>, nleft: nat, reverse: bool): (r: seq<Node>)
    requires AllCounted(nodes) && nodes != []
    ensures |r| == |nodes|
  {
    Preorders();
    SortedCounted(nodes, CmpAvail);
    var s := Sorting(nodes, CmpAvail);
    [NodeTake(s[0], nleft, 1, reverse)] + s[1..]
  }

  lemma WorstRoundMeaning(nodes: seq<Node>, nleft: nat, reverse: bool)
    requires AllCounted(nodes) && nodes != [] && 0 < nleft <= Total(nodes)
    ensures var r := WorstRound(nodes, nleft, reverse);
            && AllCounted(r) && Total(r) == Total(nodes) - 1
            && Sorting(nodes, CmpAvail)[0].navail > 0
  {
    hide Preorder, Sorting, NodeTake, FreeCount;
    Preorders();
    SortingMeaning(nodes, CmpAvail);
    SortedCounted(nodes, CmpAvail);
    var s := Sorting(nodes, CmpAvail);
    NodeTakeMeaning(s[0], nleft, 1, reverse);
    assert forall i :: 0 < i < |s| ==> CmpAvail(s[0], s[i]) <= 0;
    if s[0].navail == 0 {
      NoneAvailable(s);
    }
  }

  lemma {:induction false} NoneAvailable(s: seq<Node>)
    requires AllCounted(s) && forall i :: 0 <= i < |s| ==> s[i].navail <= 0
    ensures Total(s) == 0
  {
    if s != [] { NoneAvailable(s[1..]); }
  }

  /** allocation_worst_fit: it ends because the node with most CPUs free has one as long
      as any is left. */
  function TakeWorst(nodes: seq<Node>, nleft: nat, reverse: bool): (r: seq<Node>)
    requires AllCounted(nodes) && nleft <= Total(nodes)
    ensures AllCounted(r) && Total(r) == Total(nodes) - nleft
    decreases nleft
  {
    if nleft == 0 then nodes
    else
      WorstRoundMeaning(nodes, nleft, reverse);
      TakeWorst(WorstRound(nodes, nleft, reverse), nleft - 1, reverse)
  }

  lemma TakeWorstNone(nodes: seq<Node>, reverse: bool)
    requires AllCounted(nodes)
    ensures TakeWorst(nodes, 0, reverse) == nodes
  {}

  lemma TakeWorstFirst(nodes: seq<Node>, nleft: nat, reverse: bool)
    requires AllCounted(nodes) && 0 < nleft <= Total(nodes)
    ensures nodes != []
    ensures var r := WorstRound(nodes, nleft, reverse);
            && AllCounted(r) && Total(r) == Total(nodes) - 1
            && TakeWorst(nodes, nleft, reverse) == TakeWorst(r, nleft - 1, reverse)
  {
    hide WorstRound, Sorting, Preorder, Counted;
    WorstRoundMeaning(nodes, nleft, reverse);
  }

  lemma {:induction false} TakeAllMeaning(nodes: seq<Node>, nleft: nat, reverse: bool)
    requires AllCounted(nodes)
    ensures var r := TakeAll(nodes, nleft, reverse);
            && AllCounted(r.nodes)
            && Total(nodes) - Total(r.nodes) == nleft - r.nleft
            && r.nleft == if nleft <= Total(nodes) then 0 else nleft - Total(nodes)
  {
    hide FreeCount, Take;
    if nodes != [] {
      NodeTakeMeaning(nodes[0], nleft, -1, reverse);
      TakeAllMeaning(nodes[1..], nleft - Yield(nodes[0], nleft, -1), reverse);
    }
  }

  lemma TakeAllNone(nleft: nat, reverse: bool)
    ensures TakeAll([], nleft, reverse) == Result([], nleft)
  {}

  lemma {:induction false} TakeIdleMeaning(nodes: seq<Node>, nleft: nat, multiplesOnly: bool, reverse: bool)
    requires AllCounted(nodes)
    ensures var r := TakeIdle(nodes, nleft, multiplesOnly, reverse);
            && AllCounted(r.nodes) && r.nleft <= nleft
            && Total(nodes) - Total(r.nodes) == nleft - r.nleft
  {
    hide FreeCount, Take, TakeIdle;
    if nodes == [] || nleft == 0 {
      TakeIdleNone(nodes, nleft, multiplesOnly, reverse);
    } else {
      TakeIdleFirst(nodes, nleft, multiplesOnly, reverse);
      if Idle(nodes[0], nleft, multiplesOnly) {
        NodeTakeMeaning(nodes[0], nleft, |nodes[0].used|, reverse);
        TakeIdleMeaning(nodes[1..], nleft - nodes[0].navail, multiplesOnly, reverse);
      } else {
        TakeIdleMeaning(nodes[1..], nleft, multiplesOnly, reverse);
      }
    }
  }

  lemma TakeIdleNone(nodes: seq<Node>, nleft: nat, multiplesOnly: bool, reverse: bool)
    requires AllCounted(nodes) && (nodes == [] || nleft == 0)
    ensures TakeIdle(nodes, nleft, multiplesOnly, reverse) == Result(nodes, nleft)
  {}

  /** The phase that follows the policy. */
  function TakeByPolicy(nodes: seq<Node>, policy: Policy, nleft: nat): seq<Node>
    requires AllCounted(nodes) && nleft <= Total(nodes)
  {
    Preorders();
    if nleft == 0 then nodes
    else
      match policy.fit
      case BestFit =>
        SortedCounted(nodes, CmpFree);
        TakeAll(Sorting(nodes, CmpFree), nleft, policy.reverse).nodes
      case FirstFit => TakeAll(nodes, nleft, policy.reverse).nodes
      case WorstFit => TakeWorst(nodes, nleft, policy.reverse)
  }

  lemma TakeByPolicyMeaning(nodes: seq<Node>, policy: Policy, nleft: nat)
    requires AllCounted(nodes) && nleft <= Total(nodes)
    ensures AllCounted(TakeByPolicy(nodes, policy, nleft))
    ensures Total(TakeByPolicy(nodes, policy, nleft)) == Total(nodes) - nleft
  {
    hide Preorder, Sorting, TakeAll, TakeWorst, Counted;
    Preorders();
    SortedCounted(nodes, CmpFree);
    TakeAllMeaning(Sorting(nodes, CmpFree), nleft, policy.reverse);
    TakeAllMeaning(nodes, nleft, policy.reverse);
  }

  /** The phase for idle nodes, if there is one. */
  function IdleFirst(nodes: seq<Node>, policy: Policy, ncpus: nat): (r: Result)
    requires AllCounted(nodes)
    ensures AllCounted(r.nodes) && r.nleft <= ncpus
    ensures Total(nodes) - Total(r.nodes) == ncpus - r.nleft
  {
    TakeIdleMeaning(nodes, ncpus, policy.multiplesOnly, policy.reverse);
    if ShouldTakeIdle(nodes, policy, ncpus) then TakeIdle(nodes, ncpus, policy.multiplesOnly, policy.reverse)
    else Result(nodes, ncpus)
  }

  lemma SortByIdCounted(nodes: seq<Node>, reverse: bool)
    requires AllCounted(nodes)
    ensures AllCounted(SortById(nodes, reverse)) && Total(SortById(nodes, reverse)) == Total(nodes)
  {
    Preorders();
    SortedCounted(nodes, CmpReverse);
    SortedCounted(nodes, CmpId);
  }

  /** nodemap_allocate: the nodes afterwards. */
  function Allocate(nodes: seq<Node>, policy: Policy, ncpus: nat): seq<Node>
    requires AllCounted(nodes) && ncpus <= Total(nodes)
  {
    SortByIdCounted(nodes, policy.reverse);
    var r := IdleFirst(SortById(nodes, policy.reverse), policy, ncpus);
    TakeByPolicy(r.nodes, policy, r.nleft)
  }
}

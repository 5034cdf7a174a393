/** What the policies are for: idle nodes are taken whole and as long as they fit, best-fit
    uses up as many nodes as any allocation could, worst-fit keeps the nodes level, and
    first-fit goes on to a node when those before it are full. */
module NodePolicies {
  import opened ListSpec
  import opened NodeSpec

  // ---- idle nodes first ----

  predicate Whole(n: Node) {
    n.navail == |n.used| && n.navail > 0
  }

  /** The idle phase takes whole idle nodes and no others; and unless it is confined to
      multiples, no idle node that would still fit is left. */
  lemma {:induction false} IdleWhole(nodes: seq<Node>, nleft: nat, multiplesOnly: bool, reverse: bool)
    requires AllCounted(nodes)
    ensures var r := TakeIdle(nodes, nleft, multiplesOnly, reverse);
            && r.nleft <= nleft
            && (forall i :: 0 <= i < |nodes| ==>
                  r.nodes[i] == nodes[i] || (Whole(nodes[i]) && r.nodes[i].navail == 0))
            && (!multiplesOnly ==> forall i :: 0 <= i < |nodes| && Whole(r.nodes[i]) ==> r.nodes[i].navail > r.nleft)
  {
    hide FreeCount, Take, TakeIdle;
    if nodes == [] || nleft == 0 {
      TakeIdleNone(nodes, nleft, multiplesOnly, reverse);
    } else {
      TakeIdleFirst(nodes, nleft, multiplesOnly, reverse);
      var t := nodes[1..];
      var idle := Idle(nodes[0], nleft, multiplesOnly);
      var left := if idle then nleft - nodes[0].navail else nleft;
      IdleWhole(t, left, multiplesOnly, reverse);
      var r, rest := TakeIdle(nodes, nleft, multiplesOnly, reverse), TakeIdle(t, left, multiplesOnly, reverse);
      assert forall i :: 0 < i < |nodes| ==> nodes[i] == t[i - 1] && r.nodes[i] == rest.nodes[i - 1];
    }
  }

  /** should_allocate_idle_nodes foresees whether the idle phase would take anything. */
  lemma ShouldForesees(nodes: seq<Node>, policy: Policy, count: nat)
    requires AllCounted(nodes) && count > 0
    ensures ShouldTakeIdle(nodes, policy, count) <==>
            policy.idleFirst && TakeIdle(nodes, count, policy.multiplesOnly, policy.reverse).nleft < count
  {
    hide TakeIdle, FreeCount;
    Foresees(nodes, policy.multiplesOnly, policy.reverse, count);
    assert forall i :: 0 <= i < |nodes| ==> nodes[i] in nodes;
  }

  predicate Suiting(n: Node, multiplesOnly: bool, count: nat)
    requires |n.used| > 0
  {
    n.navail == |n.used| && if multiplesOnly then count % |n.used| == 0 else count >= |n.used|
  }

  lemma {:induction false} Foresees(nodes: seq<Node>, multiplesOnly: bool, reverse: bool, count: nat)
    requires AllCounted(nodes) && count > 0
    ensures (exists i :: 0 <= i < |nodes| && |nodes[i].used| > 0 && Suiting(nodes[i], multiplesOnly, count)) <==>
            TakeIdle(nodes, count, multiplesOnly, reverse).nleft < count
  {
    hide TakeIdle, FreeCount, Suiting;
    if nodes == [] {
      TakeIdleNone(nodes, count, multiplesOnly, reverse);
    } else {
      TakeIdleFirst(nodes, count, multiplesOnly, reverse);
      SuitsFirst(nodes[0], multiplesOnly, count);
      var t := nodes[1..];
      if Idle(nodes[0], count, multiplesOnly) {
        TakeIdleMeaning(t, count - nodes[0].navail, multiplesOnly, reverse);
      } else {
        Foresees(t, multiplesOnly, reverse, count);
        assert forall i :: 0 < i < |nodes| ==> nodes[i] == t[i - 1];
        if i :| 0 <= i < |t| && |t[i].used| > 0 && Suiting(t[i], multiplesOnly, count) {
          assert Suiting(nodes[i + 1], multiplesOnly, count);
        }
      }
    }
  }

  lemma SuitsFirst(n: Node, multiplesOnly: bool, count: nat)
    requires Counted(n) && count > 0
    ensures Suiting(n, multiplesOnly, count) <==> Idle(n, count, multiplesOnly)
  {
    hide FreeCount;
    if multiplesOnly && n.navail == |n.used| && count < n.navail {
      assert count % n.navail == count;
    }
  }

  // ---- best-fit ----

  /** Free CPUs left when k are taken from the first nodes on. */
  function Greedy(a: seq<nat>, k: nat): seq<nat> {
    if a == [] then []
    else if k >= a[0] then [0] + Greedy(a[1..], k - a[0])
    else [a[0] - k] + a[1..]
  }

  function Zeros(a: seq<nat>): nat {
    if a == [] then 0 else (if a[0] == 0 then 1 else 0) + Zeros(a[1..])
  }

  function Sum(a: seq<nat>): nat {
    if a == [] then 0 else a[0] + Sum(a[1..])
  }

  predicate NonDecreasing(a: seq<nat>) {
    forall i, j :: 0 <= i < j < |a| ==> a[i] <= a[j]
  }

  predicate AtMost(b: seq<nat>, a: seq<nat>) {
    |b| == |a| && forall i :: 0 <= i < |a| ==> b[i] <= a[i]
  }

  /** Taking no more than the smallest node holds uses up at most one node more. */
  lemma {:induction false} OneMore(a: seq<nat>, k: nat, d: nat)
    requires forall i :: 0 <= i < |a| ==> d <= a[i]
    ensures Zeros(Greedy(a, k + d)) <= Zeros(Greedy(a, k)) + 1
  {
    if a != [] {
      if k >= a[0] {
        OneMore(a[1..], k - a[0], d);
      } else if k + d >= a[0] {
        var rest := k + d - a[0];
        assert a[0] > 0 && rest <= k;
        if a[1..] != [] {
          assert a[1] == a[1..][0] && d <= a[1];
          UsesUpLess(a[1..], rest);
        }
        assert ([a[0] - k] + a[1..])[1..] == a[1..];
      } else {
        assert ([a[0] - k] + a[1..])[1..] == a[1..] && ([a[0] - (k + d)] + a[1..])[1..] == a[1..];
      }
    }
  }

  /** Fewer CPUs than the first node holds use up none, but for the nodes that were. */
  lemma UsesUpLess(a: seq<nat>, k: nat)
    requires a != [] && k < a[0]
    ensures Zeros(Greedy(a, k)) == Zeros(a)
  {
    assert ([a[0] - k] + a[1..])[1..] == a[1..];
  }

  lemma {:induction false} NoZeros(a: seq<nat>)
    requires forall i :: 0 <= i < |a| ==> a[i] > 0
    ensures Zeros(a) == 0
  {
    if a != [] { NoZeros(a[1..]); }
  }

  lemma {:induction false} SumAtMost(b: seq<nat>, a: seq<nat>)
    requires AtMost(b, a)
    ensures Sum(b) <= Sum(a)
    ensures forall i :: 0 <= i < |a| ==> a[i] - b[i] <= Sum(a) - Sum(b)
  {
    if a != [] {
      SumAtMost(b[1..], a[1..]);
      assert forall i :: 0 < i < |a| ==> a[i] == a[1..][i - 1] && b[i] == b[1..][i - 1];
    }
  }

  /** No way to take k CPUs from nodes in ascending order uses up more nodes than taking
      from the smallest on. */
  lemma {:induction false} GreedyBest(a: seq<nat>, b: seq<nat>, k: nat)
    requires NonDecreasing(a) && AtMost(b, a) && Sum(a) - Sum(b) == k
    ensures Zeros(b) <= Zeros(Greedy(a, k))
  {
    hide Sum, Zeros, Greedy;
    if a == [] {
      NothingLeft(b);
    } else {
      var t, u := a[1..], b[1..];
      Firsts(a, k);
      Firsts(b, 0);
      SumAtMost(b, a);
      SumAtMost(u, t);
      assert forall i :: 0 <= i < |t| ==> t[i] == a[i + 1] && u[i] == b[i + 1] && a[0] <= t[i];
      if k < a[0] {
        assert forall i :: 0 <= i < |b| ==> a[0] <= a[i];
        NoZeros(b);
      } else {
        GreedyBest(t, u, k - (a[0] - b[0]));
        OneMore(t, k - a[0], b[0]);
        Firsts([0] + Greedy(t, k - a[0]), 0);
      }
    }
  }

  lemma NothingLeft(b: seq<nat>)
    requires |b| == 0
    ensures Zeros(b) == 0
  {}

  lemma Firsts(a: seq<nat>, k: nat)
    requires a != []
    ensures Sum(a) == a[0] + Sum(a[1..])
    ensures Zeros(a) == (if a[0] == 0 then 1 else 0) + Zeros(a[1..])
    ensures k >= a[0] ==> Greedy(a, k) == [0] + Greedy(a[1..], k - a[0])
    ensures [0] + Greedy(a[1..], 0) != [] && forall r: seq<nat> :: ([0] + r)[1..] == r
  {}

  function Avails(nodes: seq<Node>): (a: seq<nat>)
    requires AllCounted(nodes)
    ensures |a| == |nodes| && forall i :: 0 <= i < |a| ==> a[i] == nodes[i].navail
  {
    seq(|nodes|, i requires 0 <= i < |nodes| => nodes[i].navail)
  }

  lemma {:induction false} SumAvails(nodes: seq<Node>)
    requires AllCounted(nodes)
    ensures Sum(Avails(nodes)) == Total(nodes)
  {
    if nodes != [] {
      assert Avails(nodes)[1..] == Avails(nodes[1..]);
      SumAvails(nodes[1..]);
    }
  }

  lemma {:induction false} TakeAllGreedy(nodes: seq<Node>, k: nat, reverse: bool)
    requires AllCounted(nodes)
    ensures AllCounted(TakeAll(nodes, k, reverse).nodes)
    ensures Avails(TakeAll(nodes, k, reverse).nodes) == Greedy(Avails(nodes), k)
  {
    hide TakeAll, Greedy, NodeTake, Counted, Total, Avails;
    TakeAllMeaning(nodes, k, reverse);
    if nodes == [] {
      TakeAllNone(k, reverse);
      GreedyOfNone(k);
      assert Avails([]) == [];
    } else {
      YieldAll(nodes[0], k, reverse);
      var m := Yield(nodes[0], k, -1);
      TakeAllGreedy(nodes[1..], k - m, reverse);
      TakeAllFirst(nodes, k, reverse);
      GreedyFirst(Avails(nodes), k);
      AvailsRest(nodes);
      AvailsCons(NodeTake(nodes[0], k, -1, reverse), TakeAll(nodes[1..], k - m, reverse).nodes);
    }
  }

  lemma YieldAll(n: Node, k: nat, reverse: bool)
    requires Counted(n)
    ensures n.navail >= 0 && Yield(n, k, -1) == (if k < n.navail then k else n.navail)
    ensures Counted(NodeTake(n, k, -1, reverse))
    ensures NodeTake(n, k, -1, reverse).navail == n.navail - Yield(n, k, -1)
  {
    hide FreeCount, Take;
    NodeTakeMeaning(n, k, -1, reverse);
  }

  lemma AvailsRest(nodes: seq<Node>)
    requires AllCounted(nodes) && nodes != []
    ensures Avails(nodes)[0] == nodes[0].navail && Avails(nodes)[1..] == Avails(nodes[1..])
  {
    hide Counted;
  }

  lemma AvailsCons(n: Node, rest: seq<Node>)
    requires Counted(n) && AllCounted(rest)
    ensures AllCounted([n] + rest) && n.navail >= 0 && Avails([n] + rest) == [n.navail] + Avails(rest)
  {
    assert n.navail >= 0;
    hide Counted;
  }

  lemma GreedyOfNone(k: nat)
    ensures Greedy([], k) == []
  {}

  lemma GreedyFirst(a: seq<nat>, k: nat)
    requires a != []
    ensures var m := if k < a[0] then k else a[0];
            Greedy(a, k) == [a[0] - m] + Greedy(a[1..], k - m)
  {
    GreedyNone(a[1..]);
  }

  lemma GreedyNone(a: seq<nat>)
    ensures Greedy(a, 0) == a
  {
    if a != [] && a[0] == 0 {
      GreedyNone(a[1..]);
    }
  }

  /** Another way to take k CPUs from the same nodes. */
  predicate TakenFrom(s: seq<Node>, t: seq<Node>, k: nat)
    requires AllCounted(s) && AllCounted(t)
  {
    && |t| == |s| && Total(s) - Total(t) == k
    && forall i :: 0 <= i < |s| ==> t[i].id == s[i].id && t[i].navail <= s[i].navail
  }

  function UsedUp(nodes: seq<Node>): nat
    requires AllCounted(nodes)
  {
    Zeros(Avails(nodes))
  }

  /** The best-fit phase leaves at least as many nodes with no free CPU as any other way
      of taking as many CPUs from the same nodes; and only the last node it takes from can
      have CPUs left. */
  lemma BestFitUsesUp(nodes: seq<Node>, k: nat, reverse: bool, other: seq<Node>)
    requires AllCounted(nodes) && k <= Total(nodes)
    ensures AllCounted(Sorting(nodes, CmpFree))
    ensures var s := Sorting(nodes, CmpFree);
            var r := TakeAll(s, k, reverse).nodes;
            && AllCounted(r) && TakenFrom(s, r, k)
            && (AllCounted(other) && TakenFrom(s, other, k) ==> UsedUp(other) <= UsedUp(r))
            && (forall i, j :: 0 <= i < j < |r| && r[j].navail < s[j].navail ==> r[i].navail == 0)
  {
    hide Preorder, Sorting, TakeAll, Zeros, Greedy, Counted, Total, Sum;
    Preorders();
    SortedCounted(nodes, CmpFree);
    var s := Sorting(nodes, CmpFree);
    TakeAllMeaning(s, k, reverse);
    TakeAllGreedy(s, k, reverse);
    GreedyLast(Avails(s), k);
    TakeAllNodes(s, k, reverse);
    if AllCounted(other) && TakenFrom(s, other, k) {
      SumAvails(s);
      SumAvails(other);
      Ascending(nodes);
      GreedyBest(Avails(s), Avails(other), k);
    }
  }

  lemma Ascending(nodes: seq<Node>)
    requires AllCounted(nodes) && AllCounted(Sorting(nodes, CmpFree))
    ensures NonDecreasing(Avails(Sorting(nodes, CmpFree)))
  {
    hide Preorder, Sorting, Counted;
    Preorders();
    SortingMeaning(nodes, CmpFree);
    var s := Sorting(nodes, CmpFree);
    assert forall i, j :: 0 <= i < j < |s| ==> CmpFree(s[i], s[j]) <= 0;
  }

  lemma {:induction false} GreedyLast(a: seq<nat>, k: nat)
    ensures AtMost(Greedy(a, k), a)
    ensures forall i, j :: 0 <= i < j < |a| && Greedy(a, k)[j] < a[j] ==> Greedy(a, k)[i] == 0
  {
    hide Greedy;
    if a == [] {
      GreedyOfNone(k);
    } else {
      GreedyFirst(a, k);
      var t, m := a[1..], if k < a[0] then k else a[0];
      GreedyLast(t, k - m);
      if k < a[0] { GreedyNone(t); }
      var g, u := Greedy(a, k), Greedy(t, k - m);
      assert forall i :: 0 < i < |a| ==> g[i] == u[i - 1] && a[i] == t[i - 1];
    }
  }

  lemma {:induction false} TakeAllNodes(nodes: seq<Node>, k: nat, reverse: bool)
    requires AllCounted(nodes)
    ensures forall i :: 0 <= i < |nodes| ==>
              && TakeAll(nodes, k, reverse).nodes[i].id == nodes[i].id
              && TakeAll(nodes, k, reverse).nodes[i].navail <= nodes[i].navail
  {
    if nodes != [] {
      NodeTakeMeaning(nodes[0], k, -1, reverse);
      TakeAllNodes(nodes[1..], k - Yield(nodes[0], k, -1), reverse);
    }
  }

  // ---- worst-fit ----

  /** No node has more than one free CPU more than a node that CPUs were taken from. */
  ghost predicate Level(start: seq<Node>, nodes: seq<Node>) {
    forall n0, n, m :: n0 in start && n in nodes && m in nodes && n.first == n0.first && n.navail < n0.navail ==>
      m.navail <= n.navail + 1
  }

  lemma WorstRoundLevel(start: seq<Node>, nodes: seq<Node>, nleft: nat, reverse: bool)
    requires AllCounted(nodes) && nodes != [] && 0 < nleft <= Total(nodes) && Level(start, nodes)
    ensures Level(start, WorstRound(nodes, nleft, reverse))
  {
    hide Preorder, Sorting, NodeTake, Counted, Level, Total, WorstRound;
    var s, r := Sorting(nodes, CmpAvail), WorstRound(nodes, nleft, reverse);
    Greatest(nodes);
    WorstRoundMeaning(nodes, nleft, reverse);
    RoundIs(nodes, nleft, reverse);
    forall x | x in r ensures x == r[0] || x in nodes {
      var i :| 0 <= i < |r| && r[i] == x;
      assert i > 0 ==> s[i] in nodes;
    }
    LevelStep(start, nodes, s[0], r[0], r);
  }

  /** The node that a round takes from has most CPUs free. */
  lemma Greatest(nodes: seq<Node>)
    requires nodes != []
    ensures var s := Sorting(nodes, CmpAvail);
            && s[0] in nodes && (forall x :: x in nodes ==> x.navail <= s[0].navail)
            && forall i :: 0 <= i < |s| ==> s[i] in nodes
  {
    hide Preorder, Sorting;
    Preorders();
    SortingMeaning(nodes, CmpAvail);
    var s := Sorting(nodes, CmpAvail);
    forall i | 0 <= i < |s| ensures s[i] in nodes && s[i].navail <= s[0].navail {
      assert s[i] in multiset(nodes);
      assert i > 0 ==> CmpAvail(s[0], s[i]) <= 0;
    }
    forall x | x in nodes ensures x.navail <= s[0].navail {
      assert x in multiset(s);
    }
  }

  lemma RoundIs(nodes: seq<Node>, nleft: nat, reverse: bool)
    requires AllCounted(nodes) && nodes != [] && 0 < nleft <= Total(nodes)
    ensures var s, r := Sorting(nodes, CmpAvail), WorstRound(nodes, nleft, reverse);
            && s[0].navail > 0 && r[0].navail == s[0].navail - 1
            && |r| == |s| && forall i :: 0 < i < |r| ==> r[i] == s[i]
  {
    hide Preorder, Sorting, Counted, Total;
    WorstRoundMeaning(nodes, nleft, reverse);
  }

  lemma LevelStep(start: seq<Node>, nodes: seq<Node>, h: Node, h': Node, r: seq<Node>)
    requires Level(start, nodes) && h in nodes && forall x :: x in nodes ==> x.navail <= h.navail
    requires h'.navail == h.navail - 1 && forall x :: x in r ==> x == h' || x in nodes
    ensures Level(start, r)
  {}

  /** Worst-fit keeps level: where it took a CPU, no node is left with two more. */
  lemma {:induction false} WorstFitLevels(start: seq<Node>, nodes: seq<Node>, nleft: nat, reverse: bool)
    requires AllCounted(nodes) && nleft <= Total(nodes) && Level(start, nodes)
    ensures Level(start, TakeWorst(nodes, nleft, reverse))
    decreases nleft
  {
    hide WorstRound, Level;
    if nleft > 0 {
      assert nodes != [];
      WorstRoundMeaning(nodes, nleft, reverse);
      WorstRoundLevel(start, nodes, nleft, reverse);
      WorstFitLevels(start, WorstRound(nodes, nleft, reverse), nleft - 1, reverse);
    }
  }

  predicate FirstsDiffer(nodes: seq<Node>) {
    forall i, j :: 0 <= i < j < |nodes| ==> nodes[i].first != nodes[j].first
  }

  /** From the nodes as they are when the phase begins. */
  lemma WorstFitLevelsFromStart(nodes: seq<Node>, nleft: nat, reverse: bool)
    requires AllCounted(nodes) && nleft <= Total(nodes)
    requires FirstsDiffer(nodes)
    ensures Level(nodes, TakeWorst(nodes, nleft, reverse))
  {
    WorstFitLevels(nodes, nodes, nleft, reverse);
  }
}

/** The CPU allocator: used CPUs are kept twice, in the map and in each node, with a count
    beside each, and every allocation keeps all of them in step. */
module NodeMap {
  import opened Sequences
  import opened ListSpec
  import opened NodeSpec
  import opened NodePolicies
  import opened NodeServed

  /** Two nodes with no CPU in common. */
  predicate Apart(a: Node, b: Node) {
    a.first + |a.used| <= b.first || b.first + |b.used| <= a.first
  }

  predicate AllApart(nodes: seq<Node>) {
    forall i, j :: 0 <= i < j < |nodes| ==> Apart(nodes[i], nodes[j])
  }

  function Cpus(ncpus: nat): (s: set<nat>)
    ensures forall c: nat :: c in s <==> c < ncpus
    ensures |s| == ncpus
  {
    if ncpus == 0 then {} else Cpus(ncpus - 1) + {ncpus - 1}
  }

  /** The CPUs free in some node. */
  function AllFree(nodes: seq<Node>): set<nat> {
    set j, c | 0 <= j < |nodes| && c in FreeCpus(nodes[j]) :: c
  }

  predicate Within(nodes: seq<Node>, ncpus: nat) {
    forall i :: 0 <= i < |nodes| ==> nodes[i].first + |nodes[i].used| <= ncpus
  }

  /** Nodes that share no CPU, count right, and between them have free just the CPUs that
      are not used. */
  predicate Laid(nodes: seq<Node>, used: set<nat>, ncpus: nat) {
    && AllCounted(nodes) && AllApart(nodes) && Within(nodes, ncpus)
    && used <= Cpus(ncpus) && AllFree(nodes) == Cpus(ncpus) - used
  }

  /** What an allocation has taken is what has become used. */
  predicate Grown(cpus0: set<nat>, used0: set<nat>, cpus: set<nat>, used: set<nat>) {
    used0 <= used && cpus == cpus0 + (used - used0)
  }

  lemma GrownStart(cpus: set<nat>, used: set<nat>)
    ensures Grown(cpus, used, cpus, used)
  {}

  lemma GrownOne(cpus0: set<nat>, used0: set<nat>, cpus: set<nat>, used: set<nat>, c: nat)
    requires Grown(cpus0, used0, cpus, used) && c !in used
    ensures Grown(cpus0, used0, cpus + {c}, used + {c})
  {}

  lemma GrownThen(cpus0: set<nat>, used0: set<nat>, cpus1: set<nat>, used1: set<nat>, cpus: set<nat>, used: set<nat>)
    requires Grown(cpus0, used0, cpus1, used1) && Grown(cpus1, used1, cpus, used)
    ensures Grown(cpus0, used0, cpus, used)
  {
    assert used - used0 == (used1 - used0) + (used - used1);
  }

  // ---- the two levels agree ----

  lemma FreeIn(nodes: seq<Node>, j: nat, c: nat)
    requires j < |nodes| && c in FreeCpus(nodes[j])
    ensures c in AllFree(nodes)
  {}

  /** Every CPU of a node is marked in the node as it is in the map. */
  lemma BitmapsAgree(nodes: seq<Node>, used: set<nat>, ncpus: nat, j: nat, i: nat)
    requires Laid(nodes, used, ncpus) && j < |nodes| && i < |nodes[j].used|
    ensures nodes[j].used[i] <==> nodes[j].first + i in used
  {
    var g := nodes[j].first + i;
    if nodes[j].used[i] {
      forall k | 0 <= k < |nodes| ensures g !in FreeCpus(nodes[k]) {
        if k < j { assert Apart(nodes[k], nodes[j]); } else if j < k { assert Apart(nodes[j], nodes[k]); }
      }
      assert g !in AllFree(nodes) && g in Cpus(ncpus);
    } else {
      assert g in FreeCpus(nodes[j]);
      FreeIn(nodes, j, g);
    }
  }

  lemma {:induction false} FreeCountIs(n: Node)
    ensures |FreeCpus(n)| == FreeCount(n.used)
    decreases |n.used|
  {
    if n.used == [] {
      assert FreeCpus(n) == {};
    } else {
      var m := n.(first := n.first + 1, used := n.used[1..]);
      FreeCountIs(m);
      forall c ensures c in FreeCpus(n) <==> c in FreeCpus(m) || (!n.used[0] && c == n.first) {
        if c in FreeCpus(n) && c != n.first {
          assert m.first + (c - m.first) == c && n.used[c - n.first] == m.used[c - m.first];
        }
        if c in FreeCpus(m) {
          assert n.first + (c - n.first) == c && n.used[c - n.first] == m.used[c - m.first];
        }
        if !n.used[0] {
          assert n.first + 0 in FreeCpus(n);
        }
      }
      assert FreeCpus(n) == if n.used[0] then FreeCpus(m) else {n.first} + FreeCpus(m);
    }
  }

  /** The counts of the nodes add up to the number of CPUs not used. */
  lemma {:induction false} TotalIsFree(nodes: seq<Node>)
    requires AllCounted(nodes) && AllApart(nodes)
    ensures |AllFree(nodes)| == Total(nodes)
  {
    if nodes == [] {
      assert AllFree(nodes) == {};
    } else {
      hide FreeCpus, FreeCount, Counted;
      TotalIsFree(nodes[1..]);
      CountedIs(nodes[0]);
      assert AllFree(nodes) == FreeCpus(nodes[0]) + AllFree(nodes[1..]) by {
        forall c ensures c in AllFree(nodes) <==> c in FreeCpus(nodes[0]) + AllFree(nodes[1..]) {
          FirstOrRest(nodes, c);
        }
      }
      forall j, c | 0 < j < |nodes| && c in FreeCpus(nodes[0]) ensures c !in FreeCpus(nodes[j]) {
        ApartFree(nodes[0], nodes[j], c);
      }
      assert FreeCpus(nodes[0]) !! AllFree(nodes[1..]);
    }
  }

  lemma CountedIs(n: Node)
    requires Counted(n)
    ensures |FreeCpus(n)| == n.navail
  {
    FreeCountIs(n);
  }

  lemma FirstOrRest(nodes: seq<Node>, c: nat)
    requires nodes != []
    ensures c in AllFree(nodes) <==> c in FreeCpus(nodes[0]) || c in AllFree(nodes[1..])
  {
    hide FreeCpus;
    if c in AllFree(nodes) {
      var j :| 0 <= j < |nodes| && c in FreeCpus(nodes[j]);
      if j > 0 { FreeIn(nodes[1..], j - 1, c); }
    }
    if c in AllFree(nodes[1..]) {
      var j :| 0 <= j < |nodes[1..]| && c in FreeCpus(nodes[1..][j]);
      FreeIn(nodes, j + 1, c);
    }
  }

  lemma ApartFree(a: Node, b: Node, c: nat)
    requires Apart(a, b) && c in FreeCpus(a)
    ensures c !in FreeCpus(b)
  {}

  lemma LaidTotal(nodes: seq<Node>, used: set<nat>, ncpus: nat)
    requires Laid(nodes, used, ncpus)
    ensures Total(nodes) == ncpus - |used| && used <= Cpus(ncpus)
  {
    hide FreeCpus, Counted, AllApart;
    TotalIsFree(nodes);
    assert |Cpus(ncpus) - used| == |Cpus(ncpus)| - |used|;
  }

  // ---- what keeps the layout ----

  lemma {:induction false} ApartInAnyOrder(a: seq<Node>, b: seq<Node>)
    requires AllApart(a) && multiset(a) == multiset(b)
    ensures AllApart(b)
    decreases |a|
  {
    hide Apart, AllApart;
    assert |a| == |multiset(a)| == |multiset(b)| == |b|;
    if b == [] {
      assert a == b;
    } else {
      assert b[0] in multiset(a);
      var i :| 0 <= i < |a| && a[i] == b[0];
      ApartRemoved(a, i);
      RemoveAtBag(a, i);
      RemoveAtBag(b, 0);
      ApartInAnyOrder(RemoveAt(a, i), RemoveAt(b, 0));
      ApartFirst(b, RemoveAt(a, i));
    }
  }

  lemma ApartRemoved(a: seq<Node>, i: nat)
    requires AllApart(a) && i < |a|
    ensures AllApart(RemoveAt(a, i))
    ensures forall k :: 0 <= k < |a| - 1 ==> Apart(a[i], RemoveAt(a, i)[k])
  {
    hide Apart;
    forall x: Node, y: Node ensures Apart(x, y) == Apart(y, x) { ApartEitherWay(x, y); }
    assert forall k :: 0 <= k < |a| - 1 ==> RemoveAt(a, i)[k] == a[if k < i then k else k + 1];
  }

  lemma ApartFirst(b: seq<Node>, r: seq<Node>)
    requires b != [] && AllApart(RemoveAt(b, 0)) && multiset(r) == multiset(RemoveAt(b, 0))
    requires forall k :: 0 <= k < |r| ==> Apart(b[0], r[k])
    ensures AllApart(b)
  {
    hide Apart;
    var t := RemoveAt(b, 0);
    assert forall j :: 0 < j < |b| ==> b[j] == t[j - 1];
    forall j | 0 < j < |b| ensures Apart(b[0], b[j]) {
      assert t[j - 1] in multiset(r);
      var k :| 0 <= k < |r| && r[k] == t[j - 1];
    }
  }

  lemma ApartEitherWay(a: Node, b: Node)
    ensures Apart(a, b) == Apart(b, a)
  {}

  /** Sorting the nodes leaves everything in step. */
  lemma SortLaid(nodes: seq<Node>, used: set<nat>, ncpus: nat, f: Compare<Node>)
    requires Laid(nodes, used, ncpus) && Preorder(f)
    ensures Laid(Sorting(nodes, f), used, ncpus)
  {
    hide Preorder, Sorting, FreeCpus, Counted, Apart;
    SortingMeaning(nodes, f);
    SortedCounted(nodes, f);
    var s := Sorting(nodes, f);
    ApartInAnyOrder(nodes, s);
    forall i | 0 <= i < |s| ensures s[i] in nodes {
      assert s[i] in multiset(nodes);
    }
    forall i | 0 <= i < |nodes| ensures nodes[i] in s {
      assert nodes[i] in multiset(s);
    }
    assert AllFree(s) == AllFree(nodes);
  }

  /** The node with one more CPU in use. */
  function WithUsed(n: Node, i: nat): Node
    requires i < |n.used|
  {
    n.(navail := n.navail - 1, used := n.used[i := true])
  }

  lemma CountOneLess(used: seq<bool>, i: nat)
    requires i < |used| && !used[i]
    ensures FreeCount(used[i := true]) == FreeCount(used) - 1
  {
    hide FreeCount;
    assert used == used[..i] + ([false] + used[i + 1..]);
    assert used[i := true] == used[..i] + ([true] + used[i + 1..]);
    FreeConcat(used[..i], [false] + used[i + 1..]);
    FreeConcat(used[..i], [true] + used[i + 1..]);
    CountFirst(false, used[i + 1..]);
    CountFirst(true, used[i + 1..]);
  }

  lemma CountFirst(b: bool, rest: seq<bool>)
    ensures FreeCount([b] + rest) == (if b then 0 else 1) + FreeCount(rest)
  {
    assert ([b] + rest)[1..] == rest;
  }

  lemma WithUsedFree(n: Node, i: nat)
    requires Counted(n) && i < |n.used| && !n.used[i]
    ensures Counted(WithUsed(n, i))
    ensures FreeCpus(WithUsed(n, i)) == FreeCpus(n) - {n.first + i}
    ensures n.first + i in FreeCpus(n)
  {
    hide FreeCount;
    CountOneLess(n.used, i);
    var m := WithUsed(n, i);
    forall c ensures c in FreeCpus(m) <==> c in FreeCpus(n) && c != n.first + i {
      var k := c - n.first;
      assert 0 <= k < |n.used| ==> n.first + k == c && m.used[k] == (n.used[k] || k == i);
    }
    assert n.first + i in FreeCpus(n);
  }

  /** Taking one CPU, in its node and in the map, leaves everything in step. */
  lemma TakeLaid(nodes: seq<Node>, used: set<nat>, ncpus: nat, j: nat, i: nat)
    requires Laid(nodes, used, ncpus) && j < |nodes| && i < |nodes[j].used| && !nodes[j].used[i]
    ensures nodes[j].first + i !in used
    ensures Laid(nodes[j := WithUsed(nodes[j], i)], used + {nodes[j].first + i}, ncpus)
  {
    BitmapsAgree(nodes, used, ncpus, j, i);
    WithUsedFree(nodes[j], i);
    hide FreeCpus, Counted, AllFree, Apart;
    var g, t := nodes[j].first + i, nodes[j := WithUsed(nodes[j], i)];
    FreeIn(nodes, j, g);
    forall k | 0 <= k < |nodes| && k != j ensures g !in FreeCpus(nodes[k]) {
      assert Apart(nodes[j], nodes[k]) || Apart(nodes[k], nodes[j]);
      ApartEitherWay(nodes[j], nodes[k]);
      ApartFree(nodes[j], nodes[k], g);
    }
    forall k, m | 0 <= k < m < |t| ensures Apart(t[k], t[m]) { SameApart(nodes, t, j, i, k, m); }
    AllFreeWithout(nodes, t, g);
  }

  lemma SameApart(nodes: seq<Node>, t: seq<Node>, j: nat, i: nat, k: nat, m: nat)
    requires AllApart(nodes) && j < |nodes| && i < |nodes[j].used| && t == nodes[j := WithUsed(nodes[j], i)]
    requires k < m < |t|
    ensures Apart(t[k], t[m])
  {
    assert Apart(nodes[k], nodes[m]);
  }

  /** One CPU less in every node that had it is one less in all. */
  lemma AllFreeWithout(nodes: seq<Node>, t: seq<Node>, g: nat)
    requires |t| == |nodes| && forall k :: 0 <= k < |t| ==> FreeCpus(t[k]) == FreeCpus(nodes[k]) - {g}
    ensures AllFree(t) == AllFree(nodes) - {g}
  {
    hide FreeCpus;
    forall c ensures c in AllFree(t) <==> c in AllFree(nodes) && c != g {
      if c in AllFree(t) {
        var k :| 0 <= k < |t| && c in FreeCpus(t[k]);
        FreeIn(nodes, k, c);
      }
      if c in AllFree(nodes) && c != g {
        var k :| 0 <= k < |nodes| && c in FreeCpus(nodes[k]);
        FreeIn(t, k, c);
      }
    }
  }

  // ---- the allocator ----

  class Allocation {
    var nleft: int
    var cpus: set<nat>

    constructor (ntasks: int)
      ensures nleft == ntasks && cpus == {}
    {
      nleft, cpus := ntasks, {};
    }
  }

  /** Node with the CPUs passed so far taken, counted from either end. */
  function Passed(n: Node, i: nat, reverse: bool): Node
    requires i <= |n.used|
  {
    if reverse then n.(navail := n.navail - FreeCount(n.used[i..]), used := FilledFrom(n.used, i))
    else n.(navail := n.navail - FreeCount(n.used[..i]), used := FilledTo(n.used, i))
  }

  lemma PassedStart(n: Node)
    ensures Passed(n, 0, false) == n && Passed(n, |n.used|, true) == n
  {
    assert FilledTo(n.used, 0) == n.used && FilledFrom(n.used, |n.used|) == n.used;
  }

  lemma PassedUp(n: Node, i: nat)
    requires i < |n.used|
    ensures |Passed(n, i, false).used| == |Passed(n, i + 1, false).used| == |n.used|
    ensures Passed(n, i, false).used[i] == n.used[i]
    ensures FreeCount(n.used[..i + 1]) == FreeCount(n.used[..i]) + if n.used[i] then 0 else 1
    ensures Passed(n, i + 1, false) == if n.used[i] then Passed(n, i, false) else WithUsed(Passed(n, i, false), i)
  {
    assert n.used[..i + 1] == n.used[..i] + [n.used[i]];
    FreeConcat(n.used[..i], [n.used[i]]);
    assert FilledTo(n.used, i + 1) == FilledTo(n.used, i)[i := true];
  }

  lemma PassedDown(n: Node, i: nat)
    requires i < |n.used|
    ensures |Passed(n, i, true).used| == |Passed(n, i + 1, true).used| == |n.used|
    ensures Passed(n, i + 1, true).used[i] == n.used[i]
    ensures FreeCount(n.used[i..]) == FreeCount(n.used[i + 1..]) + if n.used[i] then 0 else 1
    ensures Passed(n, i, true) == if n.used[i] then Passed(n, i + 1, true) else WithUsed(Passed(n, i + 1, true), i)
  {
    assert n.used[i..] == [n.used[i]] + n.used[i + 1..];
    FreeConcat([n.used[i]], n.used[i + 1..]);
    assert FilledFrom(n.used, i) == FilledFrom(n.used, i + 1)[i := true];
  }

  /** Where a loop stops, it has done the whole of node_allocate_n. */
  lemma PassedIs(n: Node, i: nat, nleft: nat, count: nat, reverse: bool)
    requires Counted(n) && i <= |n.used|
    requires var k := if reverse then FreeCount(n.used[i..]) else FreeCount(n.used[..i]);
             && k <= nleft && k <= count
             && (k == nleft || k == count || i == if reverse then 0 else |n.used|)
    ensures Passed(n, i, reverse) == NodeTake(n, nleft, count, reverse)
    ensures Yield(n, nleft, count) == if reverse then FreeCount(n.used[i..]) else FreeCount(n.used[..i])
  {
    hide FreeCount, FilledTo, FilledFrom, TakeFront, TakeBack;
    assert n.used == n.used[..i] + n.used[i..];
    FreeConcat(n.used[..i], n.used[i..]);
    CountEnds(n.used);
    assert n.used[..|n.used|] == n.used == n.used[0..];
    if reverse { TakeBackFills(n.used, i); } else { TakeFrontFills(n.used, i); }
  }

  /** Where a node lies: its number and its CPUs. */
  datatype Place = Place(id: int, first: nat, size: nat)

  predicate PlacesApart(a: Place, b: Place) {
    a.first + a.size <= b.first || b.first + b.size <= a.first
  }

  lemma FreeWhenUnused(n: Node, p: Place, used: set<nat>)
    requires n.first == p.first && |n.used| == p.size
    requires forall i :: 0 <= i < p.size ==> (n.used[i] <==> p.first + i in used)
    ensures forall c :: c in FreeCpus(n) <==> p.first <= c < p.first + p.size && c !in used
  {
    forall c | p.first <= c < p.first + p.size
      ensures c in FreeCpus(n) <==> c !in used
    {
      var i := c - p.first;
      assert n.used[i] <==> p.first + i in used;
      assert c == n.first + i;
    }
  }

  /** node_create: the CPUs used in the map are used in the node. */
  function NodeAt(p: Place, used: set<nat>): (n: Node)
    ensures |n.used| == p.size && n.navail == FreeCount(n.used)
    ensures forall c :: c in FreeCpus(n) <==> p.first <= c < p.first + p.size && c !in used
  {
    var u := seq(p.size, i requires 0 <= i < p.size => p.first + i in used);
    var n := Node(p.id, p.first, FreeCount(u), u);
    FreeWhenUnused(n, p, used);
    n
  }

  predicate Holds(p: Place, c: nat) {
    p.first <= c < p.first + p.size
  }

  /** node_cpus_available: whether the current cpuset has a CPU of the node. */
  predicate Available(p: Place, cpus: set<nat>) {
    exists c :: c in cpus && Holds(p, c)
  }

  predicate Covered(places: seq<Place>, c: nat) {
    exists k :: 0 <= k < |places| && Holds(places[k], c)
  }

  /** How the nodes of a system lie: apart, within ncpus CPUs, and over all of them. */
  ghost predicate System(places: seq<Place>, ncpus: nat) {
    && (forall k :: 0 <= k < |places| ==> places[k].size > 0 && places[k].first + places[k].size <= ncpus)
    && (forall k, m :: 0 <= k < m < |places| ==> PlacesApart(places[k], places[m]))
    && (forall c: nat :: c < ncpus ==> Covered(places, c))
  }

  predicate IsAt(n: Node, places: seq<Place>, used: set<nat>) {
    exists k :: 0 <= k < |places| && n == NodeAt(places[k], used)
  }

  /** The nodes made so far, latest in front. */
  ghost predicate Made(nodes: seq<Node>, places: seq<Place>, cpus: set<nat>, used: set<nat>) {
    && AllApart(nodes)
    && (forall n :: n in nodes ==> IsAt(n, places, used))
    && (forall k :: 0 <= k < |places| && Available(places[k], cpus) ==> NodeAt(places[k], used) in nodes)
  }

  lemma MadeOne(nodes: seq<Node>, places: seq<Place>, i: nat, cpus: set<nat>, used: set<nat>, ncpus: nat)
    requires System(places, ncpus) && i < |places| && Made(nodes, places[..i], cpus, used)
    ensures Made([NodeAt(places[i], used)] + nodes, places[..i + 1], cpus, used)
    ensures !Available(places[i], cpus) ==> Made(nodes, places[..i + 1], cpus, used)
  {
    hide FreeCpus, NodeAt, Available;
    var n := NodeAt(places[i], used);
    assert forall k :: 0 <= k < i ==> places[..i][k] == places[..i + 1][k] == places[k];
    assert places[..i + 1][i] == places[i];
    NodeAtLies(places[i], used);
    forall m | m in nodes
      ensures Apart(n, m) && IsAt(m, places[..i + 1], used)
    {
      assert IsAt(m, places[..i], used);
      var k :| 0 <= k < i && m == NodeAt(places[..i][k], used);
      NodeAtLies(places[k], used);
      assert PlacesApart(places[k], places[i]);
      assert m == NodeAt(places[..i + 1][k], used);
    }
    assert n == NodeAt(places[..i + 1][i], used);
  }

  lemma MadeNone(cpus: set<nat>, used: set<nat>)
    ensures Made([], [], cpus, used)
  {}

  lemma NodeAtLies(p: Place, used: set<nat>)
    ensures NodeAt(p, used).first == p.first && |NodeAt(p, used).used| == p.size
  {}

  lemma MadeLaid(nodes: seq<Node>, places: seq<Place>, cpus: set<nat>, used: set<nat>, ncpus: nat)
    requires System(places, ncpus) && Made(nodes, places, cpus, used) && Cpus(ncpus) - cpus <= used <= Cpus(ncpus)
    ensures Laid(nodes, used, ncpus)
  {
    hide FreeCpus, FreeCount, NodeAt, AllApart;
    forall i | 0 <= i < |nodes|
      ensures Counted(nodes[i]) && nodes[i].first + |nodes[i].used| <= ncpus && FreeCpus(nodes[i]) <= Cpus(ncpus) - used
    {
      assert nodes[i] in nodes && IsAt(nodes[i], places, used);
      var k :| 0 <= k < |places| && nodes[i] == NodeAt(places[k], used);
      NodeAtLies(places[k], used);
    }
    forall c | c in Cpus(ncpus) - used ensures c in AllFree(nodes) {
      assert Covered(places, c);
      var k :| 0 <= k < |places| && Holds(places[k], c);
      assert c in cpus && Available(places[k], cpus);
      var j :| 0 <= j < |nodes| && nodes[j] == NodeAt(places[k], used);
      FreeIn(nodes, j, c);
    }
    assert AllFree(nodes) == Cpus(ncpus) - used;
  }

  class NodeMap {
    const ncpus: nat
    var policy: Policy
    var navail: int
    var used: set<nat>
    var nodes: seq<Node>

    ghost predicate Valid()
      reads this
    {
      Laid(nodes, used, ncpus) && navail == ncpus - |used|
    }

    /** nodemap_create, in a cpuset of cpus of a system with ncpus CPUs in the places. */
    constructor (policy: Policy, places: seq<Place>, cpus: set<nat>, used: set<nat>, ncpus: nat)
      requires System(places, ncpus) && Cpus(ncpus) - cpus <= used <= Cpus(ncpus)
      ensures Valid() && this.ncpus == ncpus && this.used == used && this.policy == policy
      ensures Made(nodes, places, cpus, used)
    {
      hide Laid, NodeAt, Made, System;
      this.ncpus, this.policy, this.used, navail := ncpus, policy, used, ncpus - |used|;
      nodes := [];
      new;
      var i := 0;
      assert Made([], places[..0], cpus, used) by { MadeNone(cpus, used); }
      while i < |places|
        invariant 0 <= i <= |places| && Made(nodes, places[..i], cpus, used)
        invariant this.ncpus == ncpus && this.used == used && this.policy == policy && navail == ncpus - |used|
      {
        MadeOne(nodes, places, i, cpus, used, ncpus);
        if Available(places[i], cpus) {
          nodes := [NodeAt(places[i], used)] + nodes;
        }
        i := i + 1;
      }
      assert places[..i] == places;
      MadeLaid(nodes, places, cpus, used, ncpus);
    }

    /** node_allocate_cpu, allocation_add_cpu and try_alloc. */
    method TryAlloc(j: nat, a: Allocation, cpu: nat) returns (ok: bool)
      requires Valid() && j < |nodes| && cpu < |nodes[j].used|
      modifies this`navail, this`used, this`nodes, a
      ensures Valid()
      ensures ok == !old(nodes[j].used[cpu])
      ensures !ok ==> used == old(used) && nodes == old(nodes) && a.nleft == old(a.nleft) && a.cpus == old(a.cpus)
      ensures ok ==>
                && nodes == old(nodes)[j := WithUsed(old(nodes[j]), cpu)]
                && old(nodes[j].first) + cpu !in old(used)
                && used == old(used) + {old(nodes[j].first) + cpu}
                && a.cpus == old(a.cpus) + {old(nodes[j].first) + cpu}
                && a.nleft == old(a.nleft) - 1
      ensures Grown(old(a.cpus), old(used), a.cpus, used)
    {
      hide Laid, WithUsed, Grown;
      GrownStart(a.cpus, used);
      if nodes[j].used[cpu] { return false; }
      var gcpu := nodes[j].first + cpu;
      TakeLaid(nodes, used, ncpus, j, cpu);
      if gcpu in used { return false; }
      GrownOne(a.cpus, used, a.cpus, used, gcpu);
      nodes := nodes[j := WithUsed(nodes[j], cpu)];
      used := used + {gcpu};
      navail := navail - 1;
      a.cpus := a.cpus + {gcpu};
      a.nleft := a.nleft - 1;
      ok := true;
    }

    /** node_allocate_n. What it takes is what becomes used. */
    method NodeAllocateN(j: nat, a: Allocation, count: int)
      requires Valid() && j < |nodes| && a.nleft >= 0
      modifies this`navail, this`used, this`nodes, a
      ensures Valid() && old(nodes[j].navail) >= 0
      ensures nodes == old(nodes)[j := NodeTake(old(nodes[j]), old(a.nleft), count, policy.reverse)]
      ensures a.nleft == old(a.nleft) - Yield(old(nodes[j]), old(a.nleft), count)
      ensures Grown(old(a.cpus), old(used), a.cpus, used)
    {
      hide Laid, Counted, NodeTake, Yield, Grown;
      ghost var n, nleft, was := nodes[j], a.nleft, nodes;
      LaidCounted(nodes, used, ncpus, j);
      GrownStart(a.cpus, used);
      if a.nleft == 0 {
        assert was[j := n] == was;
        TakeNone(n, count, policy.reverse);
        return;
      }
      var want := if count < 0 then nodes[j].navail else count;
      if !policy.reverse {
        AllocateUp(j, a, want);
      } else {
        AllocateDown(j, a, want);
      }
      if count < 0 { WantIs(n, nleft, count, policy.reverse); }
    }

    /** The loop of node_allocate_n in normal order. */
    method AllocateUp(j: nat, a: Allocation, want: nat)
      requires Valid() && j < |nodes| && a.nleft > 0
      modifies this`navail, this`used, this`nodes, a
      ensures Valid()
      ensures nodes == old(nodes)[j := NodeTake(old(nodes[j]), old(a.nleft), want, false)]
      ensures a.nleft == old(a.nleft) - Yield(old(nodes[j]), old(a.nleft), want)
      ensures Grown(old(a.cpus), old(used), a.cpus, used)
    {
      hide Laid, Counted, NodeTake, Yield, FreeCount, WithUsed, Passed, Cpus, Grown;
      ghost var n, nleft, was, mine, marked := nodes[j], a.nleft, nodes, a.cpus, used;
      LaidCounted(nodes, used, ncpus, j);
      PassedStart(n);
      CountEnds(n.used);
      GrownStart(a.cpus, used);
      var i, nalloc := 0, 0;
      while i < |nodes[j].used| && a.nleft != 0 && nalloc < want
        invariant Valid() && 0 <= i <= |n.used| && nodes == was[j := Passed(n, i, false)]
        invariant |nodes[j].used| == |n.used|
        invariant 0 <= nalloc == FreeCount(n.used[..i]) <= want && a.nleft == nleft - nalloc >= 0
        invariant Grown(mine, marked, a.cpus, used)
        decreases |n.used| - i
      {
        PassedUp(n, i);
        ghost var cpus, before := a.cpus, used;
        var ok := TryAlloc(j, a, i);
        GrownThen(mine, marked, cpus, before, a.cpus, used);
        if ok { nalloc := nalloc + 1; }
        i := i + 1;
      }
      PassedIs(n, i, nleft, want, false);
    }

    /** And in reverse order. */
    method AllocateDown(j: nat, a: Allocation, want: nat)
      requires Valid() && j < |nodes| && a.nleft > 0
      modifies this`navail, this`used, this`nodes, a
      ensures Valid()
      ensures nodes == old(nodes)[j := NodeTake(old(nodes[j]), old(a.nleft), want, true)]
      ensures a.nleft == old(a.nleft) - Yield(old(nodes[j]), old(a.nleft), want)
      ensures Grown(old(a.cpus), old(used), a.cpus, used)
    {
      hide Laid, Counted, NodeTake, Yield, FreeCount, WithUsed, Passed, Cpus, Grown;
      ghost var n, nleft, was, mine, marked := nodes[j], a.nleft, nodes, a.cpus, used;
      LaidCounted(nodes, used, ncpus, j);
      PassedStart(n);
      CountEnds(n.used);
      GrownStart(a.cpus, used);
      var i, nalloc := |nodes[j].used| - 1, 0;
      ghost var k := |n.used|;
      while i >= 0 && a.nleft != 0 && nalloc < want
        invariant Valid() && 0 <= k == i + 1 <= |n.used| && nodes == was[j := Passed(n, k, true)]
        invariant |nodes[j].used| == |n.used|
        invariant nalloc == FreeCount(n.used[k..]) <= want && a.nleft == nleft - nalloc >= 0
        invariant Grown(mine, marked, a.cpus, used)
        decreases i
      {
        k := k - 1;
        PassedDown(n, k);
        ghost var cpus, before := a.cpus, used;
        var ok := TryAlloc(j, a, i);
        GrownThen(mine, marked, cpus, before, a.cpus, used);
        if ok { nalloc := nalloc + 1; }
        i := i - 1;
      }
      PassedIs(n, k, nleft, want, true);
    }

    /** should_allocate_idle_nodes */
    method ShouldAllocateIdle(count: int) returns (r: bool)
      requires Valid()
      ensures AllCounted(nodes)
      ensures count >= 0 ==> r == ShouldTakeIdle(nodes, policy, count)
    {
      hide FreeCount, AllApart, AllFree, Within;
      if !policy.idleFirst { return false; }
      var j := 0;
      while j < |nodes|
        invariant 0 <= j <= |nodes|
        invariant count >= 0 ==> forall k :: 0 <= k < j ==> !Suits(nodes[k], policy, count)
      {
        var n := nodes[j];
        assert Counted(n);
        if n.navail == |n.used| && if policy.multiplesOnly then count % |n.used| == 0 else count >= |n.used| {
          assert n in nodes;
          return true;
        }
        j := j + 1;
      }
      return false;
    }

    /** alloc_idle_nodes */
    method AllocIdleNodes(a: Allocation)
      requires Valid()
      modifies this`navail, this`used, this`nodes, a
      ensures Valid() && Grown(old(a.cpus), old(used), a.cpus, used)
      ensures old(AllCounted(nodes)) && (old(a.nleft) >= 0 ==> a.nleft >= 0)
      ensures Result(nodes, NotBelowZero(a.nleft))
           == TakeIdle(old(nodes), NotBelowZero(old(a.nleft)), policy.multiplesOnly, policy.reverse)
    {
      hide Laid, AllCounted, Counted, NodeTake, FreeCount, TakeIdle, Idle, Yield, Grown, IdleSoFar;
      LaidAllCounted(nodes, used, ncpus);
      GrownStart(a.cpus, used);
      ghost var was, r := nodes, TakeIdle(nodes, NotBelowZero(a.nleft), policy.multiplesOnly, policy.reverse);
      var j := 0;
      IdleSoFarStart(was, a.nleft, policy);
      while j < |nodes| && a.nleft > 0
        invariant Valid() && 0 <= j <= |nodes| == |was|
        invariant Grown(old(a.cpus), old(used), a.cpus, used)
        invariant old(a.nleft) >= 0 ==> a.nleft >= 0
        invariant IdleSoFar(nodes, was, j, a.nleft, policy, r)
        decreases |was| - j
      {
        ghost var before, nleft, cpus, marked := nodes, a.nleft, a.cpus, used;
        if Idle(nodes[j], a.nleft, policy.multiplesOnly) {
          IdleYields(nodes[j], a.nleft, policy.multiplesOnly);
          NodeAllocateN(j, a, |nodes[j].used|);
          GrownThen(old(a.cpus), old(used), cpus, marked, a.cpus, used);
        }
        IdleSoFarStep(before, nodes, was, j, nleft, a.nleft, policy, r);
        j := j + 1;
      }
      IdleSoFarEnd(nodes, was, j, a.nleft, policy, r);
    }

    /** list_for_each with node_allocate_all, as do_allocation calls it. */
    method AllocateEach(a: Allocation)
      requires Valid() && a.nleft >= 0
      modifies this`navail, this`used, this`nodes, a
      ensures Valid() && Grown(old(a.cpus), old(used), a.cpus, used)
      ensures old(AllCounted(nodes)) && a.nleft >= 0
      ensures Result(nodes, a.nleft) == TakeAll(old(nodes), old(a.nleft), policy.reverse)
    {
      hide Laid, AllCounted, Counted, NodeTake, FreeCount, TakeAll, Yield, Grown, Ahead;
      LaidAllCounted(nodes, used, ncpus);
      GrownStart(a.cpus, used);
      ghost var was, r := nodes, TakeAll(nodes, a.nleft, policy.reverse);
      var j := 0;
      CountedFrom(was, 0);
      FromStart(was);
      AheadStart(r);
      while j < |nodes|
        invariant Valid() && 0 <= j <= |nodes| == |was| && nodes[j..] == was[j..]
        invariant Grown(old(a.cpus), old(used), a.cpus, used)
        invariant AllCounted(was[j..])
        invariant a.nleft >= 0 && r == Ahead(nodes[..j], TakeAll(was[j..], a.nleft, policy.reverse))
        decreases |was| - j
      {
        ghost var before := nodes;
        CountedFrom(was, j + 1);
        TakeAllFirst(was[j..], a.nleft, policy.reverse);
        FromHere(before, was, j);
        ghost var cpus, marked := a.cpus, used;
        NodeAllocateN(j, a, -1);
        GrownThen(old(a.cpus), old(used), cpus, marked, a.cpus, used);
        AheadOne(before[..j], nodes[j], TakeAll(was[j + 1..], a.nleft, policy.reverse));
        DoneHere(before, nodes, was, j);
        j := j + 1;
      }
      TakeAllNone(a.nleft, policy.reverse);
      AheadAll(nodes, j, a.nleft);
    }

    /** allocation_worst_fit */
    method AllocateWorstFit(a: Allocation)
      requires Valid() && 0 <= a.nleft <= navail
      modifies this`navail, this`used, this`nodes, a
      ensures Valid() && Grown(old(a.cpus), old(used), a.cpus, used)
      ensures old(AllCounted(nodes)) && old(a.nleft) <= Total(old(nodes)) && a.nleft == 0
      ensures nodes == TakeWorst(old(nodes), old(a.nleft), policy.reverse)
    {
      hide Laid, Counted, NodeTake, FreeCount, TakeWorst, Sorting, Preorder, Grown;
      GrownStart(a.cpus, used);
      LaidAllCounted(nodes, used, ncpus);
      LaidTotal(nodes, used, ncpus);
      Preorders();
      ghost var r := TakeWorst(nodes, a.nleft, policy.reverse);
      while a.nleft != 0
        invariant Valid() && Grown(old(a.cpus), old(used), a.cpus, used)
        invariant AllCounted(nodes) && 0 <= a.nleft <= Total(nodes)
        invariant r == TakeWorst(nodes, a.nleft, policy.reverse)
        decreases a.nleft
      {
        TakeWorstFirst(nodes, a.nleft, policy.reverse);
        WorstRoundMeaning(nodes, a.nleft, policy.reverse);
        ghost var round := WorstRound(nodes, a.nleft, policy.reverse);
        SortLaid(nodes, used, ncpus, CmpAvail);
        nodes := Sorting(nodes, CmpAvail);
        YieldsOne(nodes[0], a.nleft);
        ghost var cpus, marked := a.cpus, used;
        NodeAllocateN(0, a, 1);
        GrownThen(old(a.cpus), old(used), cpus, marked, a.cpus, used);
        assert nodes == round;
      }
      TakeWorstNone(nodes, policy.reverse);
    }

    method AllocateIdleFirst(a: Allocation, count: int)
      requires Valid() && a.nleft == count
      modifies this`navail, this`used, this`nodes, a
      ensures Valid() && Grown(old(a.cpus), old(used), a.cpus, used)
      ensures old(AllCounted(nodes)) && (count >= 0 ==> a.nleft >= 0)
      ensures Result(nodes, NotBelowZero(a.nleft)) == IdleFirst(old(nodes), policy, NotBelowZero(count))
    {
      hide Laid, Counted, FreeCount, TakeIdle, ShouldTakeIdle, Grown;
      GrownStart(a.cpus, used);
      TakeIdleNone(nodes, 0, policy.multiplesOnly, policy.reverse) by { LaidAllCounted(nodes, used, ncpus); }
      var idle := ShouldAllocateIdle(count);
      if idle {
        AllocIdleNodes(a);
      }
    }

    method AllocateByPolicy(a: Allocation)
      requires Valid() && a.nleft <= navail
      modifies this`navail, this`used, this`nodes, a
      ensures Valid() && Grown(old(a.cpus), old(used), a.cpus, used)
      ensures old(AllCounted(nodes)) && NotBelowZero(old(a.nleft)) <= Total(old(nodes))
      ensures nodes == TakeByPolicy(old(nodes), policy, NotBelowZero(old(a.nleft)))
    {
      hide Laid, Counted, FreeCount, TakeAll, TakeWorst, Sorting, Preorder, Grown;
      GrownStart(a.cpus, used);
      LaidAllCounted(nodes, used, ncpus);
      LaidTotal(nodes, used, ncpus);
      Preorders();
      if a.nleft > 0 {
        match policy.fit {
          case BestFit =>
            SortLaid(nodes, used, ncpus, CmpFree);
            nodes := Sorting(nodes, CmpFree);
            AllocateEach(a);
          case FirstFit =>
            AllocateEach(a);
          case WorstFit =>
            AllocateWorstFit(a);
        }
      }
    }

    method SortNodes()
      requires Valid()
      modifies this`nodes
      ensures Valid() && nodes == SortById(old(nodes), policy.reverse)
    {
      hide Laid, Sorting, Preorder;
      Preorders();
      if !policy.reverse {
        SortLaid(nodes, used, ncpus, CmpId);
        nodes := Sorting(nodes, CmpId);
      } else {
        SortLaid(nodes, used, ncpus, CmpReverse);
        nodes := Sorting(nodes, CmpReverse);
      }
    }

    /** nodemap_allocate. It fails only where it is asked for more than there is, and
        otherwise takes as many CPUs as it is asked for, none of which was in use, from
        nodes and from CPUs of them as the policy says. */
    method Allocate(count: int) returns (r: Option<set<nat>>)
      requires Valid()
      modifies this`navail, this`used, this`nodes
      ensures Valid() && old(AllCounted(nodes)) && Total(old(nodes)) == old(navail)
      ensures count > old(navail) ==> r == None && used == old(used) && nodes == old(nodes)
      ensures count <= old(navail) ==>
                && r.Some? && |r.value| == NotBelowZero(count)
                && r.value !! old(used) && r.value <= Cpus(ncpus)
                && used == old(used) + r.value && navail == old(navail) - NotBelowZero(count)
                && nodes == NodeSpec.Allocate(old(nodes), policy, NotBelowZero(count))
                && Served(old(nodes), nodes, policy, NotBelowZero(count))
    {
      hide Laid, AllCounted, IdleFirst, TakeByPolicy, SortById, Cpus, Total, Grown, Served, FirstsDiffer;
      LaidTotal(nodes, used, ncpus);
      LaidAllCounted(nodes, used, ncpus);
      if count > navail { return None; }
      ghost var was, n := nodes, NotBelowZero(count);
      SortByIdCounted(nodes, policy.reverse);
      SortNodes();
      var a := new Allocation(count);
      AllocateIdleFirst(a, count);
      ghost var cpus, marked := a.cpus, used;
      LaidTotal(nodes, used, ncpus);
      LaidFirsts(nodes, used, ncpus);
      AllocateServes(was, policy, n);
      ghost var r1 := Result(nodes, NotBelowZero(a.nleft));
      AllocateByPolicy(a);
      GrownThen({}, old(used), cpus, marked, a.cpus, used);
      TakeByPolicyMeaning(r1.nodes, policy, r1.nleft);
      LaidTotal(nodes, used, ncpus);
      Gained(old(used), used, a.cpus, ncpus);
      r := Some(a.cpus);
    }
  }

  function NotBelowZero(n: int): nat {
    if n < 0 then 0 else n
  }

  /** The test of find_multiple_of_node_size or find_node_lt_size. */
  predicate Suits(n: Node, policy: Policy, count: int) {
    && |n.used| > 0 && n.navail == |n.used|
    && if policy.multiplesOnly then count % |n.used| == 0 else count >= |n.used|
  }

  /** What a loop has done before, and what it has still to do. */
  function Ahead(done: seq<Node>, r: Result): Result {
    Result(done + r.nodes, r.nleft)
  }

  /** alloc_idle_nodes has come to the node at j. */
  ghost predicate IdleSoFar(nodes: seq<Node>, was: seq<Node>, j: nat, nleft: int, policy: Policy, r: Result) {
    && j <= |nodes| == |was| && nodes[j..] == was[j..] && AllCounted(was[j..])
    && r == Ahead(nodes[..j], TakeIdle(was[j..], NotBelowZero(nleft), policy.multiplesOnly, policy.reverse))
  }

  lemma IdleSoFarStart(was: seq<Node>, nleft: int, policy: Policy)
    requires AllCounted(was)
    ensures IdleSoFar(was, was, 0, nleft, policy,
                      TakeIdle(was, NotBelowZero(nleft), policy.multiplesOnly, policy.reverse))
  {
    hide AllCounted, TakeIdle;
    FromStart(was);
  }

  lemma IdleSoFarStep(before: seq<Node>, nodes: seq<Node>, was: seq<Node>, j: nat, left0: nat, nleft: nat,
                      policy: Policy, r: Result)
    requires IdleSoFar(before, was, j, left0, policy, r) && j < |was| && left0 > 0
    requires if Idle(before[j], left0, policy.multiplesOnly)
             then nodes == before[j := NodeTake(before[j], left0, |before[j].used|, policy.reverse)]
                  && nleft == left0 - before[j].navail
             else nodes == before && nleft == left0
    ensures IdleSoFar(nodes, was, j + 1, nleft, policy, r)
  {
    hide AllCounted, TakeIdle, NodeTake, Idle, Ahead;
    FromHere(before, was, j);
    CountedFrom(was[j..], 1);
    TakeIdleFirst(was[j..], left0, policy.multiplesOnly, policy.reverse);
    AheadOne(before[..j], nodes[j], TakeIdle(was[j + 1..], nleft, policy.multiplesOnly, policy.reverse));
    DoneHere(before, nodes, was, j);
  }

  lemma IdleSoFarEnd(nodes: seq<Node>, was: seq<Node>, j: nat, nleft: int, policy: Policy, r: Result)
    requires IdleSoFar(nodes, was, j, nleft, policy, r) && (j == |nodes| || nleft <= 0)
    ensures r == Result(nodes, NotBelowZero(nleft))
  {
    hide AllCounted, TakeIdle, Ahead;
    TakeIdleNone(was[j..], NotBelowZero(nleft), policy.multiplesOnly, policy.reverse);
    AheadAll(nodes, j, NotBelowZero(nleft));
  }

  /** The nodes from j on are as they were: the first of them, and then one more is done. */
  lemma FromStart(was: seq<Node>)
    ensures was[0..] == was && was[..0] == []
  {}

  lemma FromHere(nodes: seq<Node>, was: seq<Node>, j: nat)
    requires j < |nodes| == |was| && nodes[j..] == was[j..]
    ensures was[j..] != [] && was[j..][0] == nodes[j] && was[j..][1..] == was[j + 1..]
  {
    assert nodes[j..][0] == nodes[j];
  }

  lemma DoneHere(before: seq<Node>, nodes: seq<Node>, was: seq<Node>, j: nat)
    requires j < |before| == |was| && before[j..] == was[j..]
    requires |nodes| == |before| && nodes == before[j := nodes[j]]
    ensures nodes[..j + 1] == before[..j] + [nodes[j]] && nodes[j + 1..] == was[j + 1..]
  {
    assert nodes[j + 1..] == before[j + 1..] == before[j..][1..] == was[j..][1..];
  }

  lemma AheadOne(done: seq<Node>, n: Node, r: Result)
    ensures Ahead(done, Result([n] + r.nodes, r.nleft)) == Ahead(done + [n], r)
  {
    assert done + ([n] + r.nodes) == done + [n] + r.nodes;
  }

  lemma AheadAll(nodes: seq<Node>, j: nat, nleft: nat)
    requires j <= |nodes|
    ensures Ahead(nodes[..j], Result(nodes[j..], nleft)) == Result(nodes, nleft)
    ensures Ahead([], Result(nodes, nleft)) == Result(nodes, nleft)
  {
    assert nodes == nodes[..j] + nodes[j..];
  }

  lemma AheadStart(r: Result)
    ensures Ahead([], r) == r
  {}

  lemma YieldsOne(n: Node, nleft: nat)
    requires n.navail > 0 && nleft > 0
    ensures Yield(n, nleft, 1) == 1
  {}

  lemma CountedFrom(nodes: seq<Node>, j: nat)
    requires AllCounted(nodes) && j <= |nodes|
    ensures AllCounted(nodes[j..])
    ensures j < |nodes| ==> nodes[j].navail >= 0
  {}

  lemma IdleYields(n: Node, nleft: nat, multiplesOnly: bool)
    requires Idle(n, nleft, multiplesOnly)
    ensures n.navail >= 0 && n.navail <= nleft && Yield(n, nleft, |n.used|) == n.navail
  {}

  lemma Gained(was: set<nat>, used: set<nat>, cpus: set<nat>, ncpus: nat)
    requires Grown({}, was, cpus, used) && used <= Cpus(ncpus)
    ensures |cpus| == |used| - |was| && used == was + cpus && cpus !! was && cpus <= Cpus(ncpus)
  {
    assert used == was + cpus;
  }

  lemma LaidAllCounted(nodes: seq<Node>, used: set<nat>, ncpus: nat)
    requires Laid(nodes, used, ncpus)
    ensures AllCounted(nodes)
  {}

  lemma LaidFirsts(nodes: seq<Node>, used: set<nat>, ncpus: nat)
    requires Laid(nodes, used, ncpus)
    ensures FirstsDiffer(nodes)
  {
    forall i, j | 0 <= i < j < |nodes| ensures nodes[i].first != nodes[j].first {
      assert Counted(nodes[i]) && Counted(nodes[j]) && Apart(nodes[i], nodes[j]);
    }
  }

  lemma LaidCounted(nodes: seq<Node>, used: set<nat>, ncpus: nat, j: nat)
    requires Laid(nodes, used, ncpus) && j < |nodes|
    ensures Counted(nodes[j]) && nodes[j].navail >= 0
  {}

  lemma TakeNone(n: Node, count: int, reverse: bool)
    requires Counted(n)
    ensures NodeTake(n, 0, count, reverse) == n && Yield(n, 0, count) == 0
  {}

  lemma CountEnds(used: seq<bool>)
    ensures FreeCount(used[..0]) == 0 && FreeCount(used[|used|..]) == 0
  {}

  lemma WantIs(n: Node, nleft: nat, count: int, reverse: bool)
    requires Counted(n) && count < 0
    ensures NodeTake(n, nleft, n.navail, reverse) == NodeTake(n, nleft, count, reverse)
    ensures Yield(n, nleft, n.navail) == Yield(n, nleft, count)
  {}
}

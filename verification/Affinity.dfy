/** CPU masks for the tasks of a node: consecutive positions, by physical place, among the
    CPUs that are available. */
module Affinity {
  import opened ListSpec

  // ---- arithmetic of positions ----

  lemma {:induction false} MulAbove(n: nat, a: int, b: int)
    requires a < b
    ensures n * a + n <= n * b
    decreases b - a
  {
    assert n * b == n * (b - 1) + n;
    if a < b - 1 {
      MulAbove(n, a, b - 1);
    }
  }

  lemma QuotientIs(n: nat, p: int, s: nat, q: int, r: nat)
    requires s < n && r < n && n * p + s == n * q + r
    ensures p == q && s == r
  {
    if p < q {
      MulAbove(n, p, q);
    } else if q < p {
      MulAbove(n, q, p);
    }
  }

  lemma DivMod(x: int, n: nat)
    requires n > 0
    ensures x == n * (x / n) + x % n && 0 <= x % n < n
  {}

  lemma ModIs(x: int, n: nat, q: int, r: nat)
    requires n > 0 && x == n * q + r && r < n
    ensures x % n == r
  {
    DivMod(x, n);
    QuotientIs(n, x / n, x % n, q, r);
  }

  /** The position after the one x falls on. */
  lemma ModNext(x: nat, n: nat)
    requires n > 0
    ensures (x % n + 1) % n == (x + 1) % n
    ensures (x + 1) % n == if x % n + 1 == n then 0 else x % n + 1
  {
    var q, r := x / n, x % n;
    if r + 1 == n {
      assert x + 1 == n * (q + 1) + 0;
      ModIs(x + 1, n, q + 1, 0);
      ModIs(n, n, 1, 0);
    } else {
      ModIs(x + 1, n, q, r + 1);
      ModIs(r + 1, n, 0, r + 1);
    }
  }

  /** Two numbers less than n apart fall on different positions. */
  lemma ModApart(x: nat, y: nat, n: nat)
    requires n > 0 && x < y < x + n
    ensures x % n != y % n
  {
    DivMod(x, n);
    DivMod(y, n);
    if x % n == y % n {
      BetweenMultiples(n, x / n, y / n, x % n);
    }
  }

  lemma BetweenMultiples(n: nat, p: int, q: int, r: nat)
    ensures !(n * p + r < n * q + r < n * p + r + n)
  {
    if p < q {
      MulAbove(n, p, q);
    } else if q < p {
      MulAbove(n, q, p);
    }
  }

  /** Every position is met by a number below n, shifted. */
  lemma ModMeets(p: nat, start: nat, n: nat) returns (x: nat)
    requires p < n
    ensures x < n && (x + start) % n == p
  {
    x := (p - start) % n;
    var q := (p - start) / n;
    assert p - start == n * q + x;
    assert x + start == n * (-q) + p;
    ModIs(x + start, n, -q, p);
  }

  /** Task l's i-th CPU comes before those of the tasks after it, and within all. */
  lemma Blocks(l: nat, i: nat, m: nat, cpt: nat, n: nat)
    requires i < cpt && l < m && m * cpt <= n
    ensures l * cpt + i < m * cpt <= n
  {
    assert l * cpt + cpt == (l + 1) * cpt;
    MulMonotone(l + 1, m, cpt);
  }

  lemma MulMonotone(a: nat, b: nat, c: nat)
    requires a <= b
    ensures a * c <= b * c
  {
    assert b * c == a * c + (b - a) * c;
  }

  // ---- the CPUs available ----

  /** How many of the CPUs below i are in the set. */
  function CountBelow(s: set<nat>, i: nat): (n: nat)
    ensures n <= i
  {
    if i == 0 then 0 else CountBelow(s, i - 1) + if i - 1 in s then 1 else 0
  }

  lemma {:induction false} CountBelowMonotone(s: set<nat>, i: nat, j: nat)
    requires i <= j
    ensures CountBelow(s, i) <= CountBelow(s, j)
    ensures i < j && i in s ==> CountBelow(s, i) < CountBelow(s, j)
    decreases j
  {
    if i < j {
      CountBelowMonotone(s, i, j - 1);
    }
  }

  // ---- the position map ----

  datatype CpuInfo = CpuInfo(id: nat, pkgid: int, coreid: int)

  /** cpu_info_cmp */
  function CmpPlace(a: CpuInfo, b: CpuInfo): int {
    if a.pkgid == b.pkgid then a.coreid - b.coreid else a.pkgid - b.pkgid
  }

  /** Highest id first. */
  function CmpLater(a: CpuInfo, b: CpuInfo): int {
    b.id - a.id
  }

  /** Each of 0 .. n - 1 once. */
  ghost predicate Permutes(m: seq<nat>, n: nat) {
    && |m| == n && (forall i :: 0 <= i < n ==> m[i] < n)
    && (forall i, j :: 0 <= i < j < n ==> m[i] != m[j])
    && (forall k: nat :: k < n ==> k in m)
  }

  /** What was read about CPUs 0 .. n - 1, last first, as pushed on the list. */
  predicate Pushed(infos: seq<CpuInfo>, n: nat) {
    |infos| == n && forall i :: 0 <= i < n ==> infos[i].id == n - 1 - i
  }

  function Ids(infos: seq<CpuInfo>): (r: seq<nat>)
    ensures |r| == |infos| && forall i :: 0 <= i < |r| ==> r[i] == infos[i].id
  {
    seq(|infos|, i requires 0 <= i < |infos| => infos[i].id)
  }

  lemma PlacePreorder()
    ensures Preorder(CmpPlace)
  {}

  /** Sorting leaves every CPU on the list once, ordered by package, by core within one,
      and with the highest id first within a core. */
  lemma MapPermutes(infos: seq<CpuInfo>, n: nat)
    requires Pushed(infos, n)
    ensures Permutes(Ids(Sorting(infos, CmpPlace)), n)
    ensures InOrder(Sorting(infos, CmpPlace), Lex(CmpPlace, CmpLater))
  {
    PlacePreorder();
    assert InOrder(infos, CmpLater);
    hide Preorder, Sorting, CmpPlace, CmpLater, InOrder;
    SortingMeaning(infos, CmpPlace);
    SortingThen(infos, CmpLater, CmpPlace);
    SameIds(infos, Sorting(infos, CmpPlace), n);
  }

  lemma SameIds(infos: seq<CpuInfo>, s: seq<CpuInfo>, n: nat)
    requires Pushed(infos, n) && multiset(s) == multiset(infos)
    ensures Permutes(Ids(s), n)
  {
    assert |s| == |multiset(s)| == |multiset(infos)| == n;
    var m := Ids(s);
    forall i | 0 <= i < n ensures m[i] < n {
      assert s[i] in multiset(infos);
      var k :| 0 <= k < n && infos[k] == s[i];
    }
    forall k: nat | k < n ensures k in m {
      assert infos[n - 1 - k] in multiset(s);
      var i :| 0 <= i < n && s[i] == infos[n - 1 - k];
      assert m[i] == k;
    }
    forall i, j | 0 <= i < j < n ensures m[i] != m[j] {
      IdsApart(infos, s, n, i, j);
    }
  }

  lemma IdsApart(infos: seq<CpuInfo>, s: seq<CpuInfo>, n: nat, i: nat, j: nat)
    requires Pushed(infos, n) && multiset(s) == multiset(infos) && i < j < |s|
    ensures s[i].id != s[j].id
  {
    assert s[i] in multiset(infos) && s[j] in multiset(infos);
    var k :| 0 <= k < n && infos[k] == s[i];
    var l :| 0 <= l < n && infos[l] == s[j];
    if k == l {
      TwiceIn(s, i, j);
      OnceIn(infos, k);
    }
  }

  lemma TwiceIn<T>(s: seq<T>, i: nat, j: nat)
    requires i < j < |s| && s[i] == s[j]
    ensures multiset(s)[s[i]] >= 2
  {
    assert s == s[..i] + [s[i]] + s[i + 1..j] + [s[j]] + s[j + 1..];
  }

  lemma OnceIn(infos: seq<CpuInfo>, k: nat)
    requires k < |infos| && forall i, j :: 0 <= i < j < |infos| ==> infos[i].id != infos[j].id
    ensures multiset(infos)[infos[k]] == 1
  {
    assert infos == infos[..k] + [infos[k]] + infos[k + 1..];
    assert infos[k] !in infos[..k] && infos[k] !in infos[k + 1..];
  }

  // ---- masks ----

  /** What masks are made from: the position map, the n CPUs that are available, the CPUs for
      each task, and the position to start from. */
  datatype Layout = Layout(posMap: seq<nat>, available: set<nat>, n: nat, cpt: nat, start: nat)

  /** The position of the i-th CPU of task l; in reverse it is counted from the last one
      down. A single CPU is looked up without going round, but for reverse. */
  function Pos(y: Layout, l: nat, i: nat, reverse: bool): (p: nat)
    requires y.n > 0
    ensures reverse || y.cpt != 1 ==> p < y.n
  {
    if reverse then y.n - 1 - (l * y.cpt + y.start + i) % y.n
    else if y.cpt == 1 then l + y.start + i
    else (l * y.cpt + y.start + i) % y.n
  }

  /** Whether the CPU is one of the first k of the task. */
  predicate Hits(y: Layout, l: nat, k: nat, reverse: bool, c: nat)
    requires y.n > 0
  {
    exists i :: 0 <= i < k && HitsAt(y, l, i, reverse, c)
  }

  predicate HitsAt(y: Layout, l: nat, i: nat, reverse: bool, c: nat)
    requires y.n > 0
  {
    var p := Pos(y, l, i, reverse);
    p < |y.posMap| && y.posMap[p] == CountBelow(y.available, c)
  }

  function Mask(y: Layout, l: nat, k: nat, reverse: bool): set<nat>
    requires y.n > 0
  {
    set c | c in y.available && Hits(y, l, k, reverse, c)
  }

  /** The positions of the map are of different CPUs, and n counts the CPUs that are
      available. */
  ghost predicate Ranked(y: Layout) {
    && y.n > 0 && y.n <= |y.posMap| && (forall p, q :: 0 <= p < q < |y.posMap| ==> y.posMap[p] != y.posMap[q])
    && exists top: nat :: CountBelow(y.available, top) == y.n && AllBelow(y.available, top)
  }

  /** Moreover, the first n positions hold the n CPUs that are available. */
  ghost predicate Sound(y: Layout) {
    Ranked(y) && Permutes(y.posMap[..y.n], y.n)
  }

  predicate AllBelow(s: set<nat>, top: nat) {
    forall c :: c in s ==> c < top
  }

  /** One CPU each is looked up in forward order without going round. */
  predicate Straight(y: Layout, reverse: bool) {
    y.cpt == 1 && !reverse
  }

  /** There are CPUs for all tasks, or else they are looked up without going round. */
  predicate Fits(y: Layout, ntasks: nat, reverse: bool) {
    Straight(y, reverse) || ntasks * y.cpt <= y.n
  }

  /** The position that is looked up for the task is past the end of the map. */
  predicate Overruns(y: Layout, l: nat, reverse: bool) {
    Straight(y, reverse) && l + y.start >= |y.posMap|
  }

  lemma PosWithin(y: Layout, l: nat, i: nat, reverse: bool)
    requires y.n > 0 && i < y.cpt && (Straight(y, reverse) ==> l + y.start < y.n)
    ensures Pos(y, l, i, reverse) < y.n
  {}

  /** No more than one CPU is looked up past the end of the map, and only without going
      round. */
  lemma OverrunIs(y: Layout, l: nat, i: nat, reverse: bool)
    requires 0 < y.n <= |y.posMap| && i < y.cpt
    ensures Overruns(y, l, reverse) <==> Pos(y, l, i, reverse) >= |y.posMap|
  {}

  /** Two tasks with one CPU each, from position 3 of 4 on: the second is looked up past the
      end, where counting from the other end goes round. */
  lemma StartTooLate()
    ensures var y := Layout([0, 1, 2, 3], {0, 1, 2, 3}, 4, 1, 3);
            && Ranked(y) && Fits(y, 2, false) && !Overruns(y, 0, false) && Overruns(y, 1, false)
            && !Overruns(y, 1, true) && Pos(y, 1, 0, true) == 3
  {
    var y := Layout([0, 1, 2, 3], {0, 1, 2, 3}, 4, 1, 3);
    assert CountBelow(y.available, 2) == 2;
    assert CountBelow(y.available, 4) == 4 && AllBelow(y.available, 4);
  }

  /** Different CPUs of the tasks have different positions. */
  lemma PosApart(y: Layout, ntasks: nat, l: nat, i: nat, m: nat, j: nat, reverse: bool)
    requires y.n > 0 && Fits(y, ntasks, reverse) && l < ntasks && m < ntasks && i < y.cpt && j < y.cpt
    requires l < m || (l == m && i < j)
    ensures Pos(y, l, i, reverse) != Pos(y, m, j, reverse)
  {
    hide Pos;
    var a, b := l * y.cpt, m * y.cpt;
    PosIs(y, l, i, reverse, a + y.start + i);
    PosIs(y, m, j, reverse, b + y.start + j);
    if l < m {
      Blocks(l, i, m, y.cpt, b);
    }
    if !Straight(y, reverse) {
      Blocks(m, j, ntasks, y.cpt, y.n);
      assert a + i < b + j < y.n;
      ModApart(a + y.start + i, b + y.start + j, y.n);
    }
  }

  lemma PosIs(y: Layout, l: nat, i: nat, reverse: bool, x: nat)
    requires y.n > 0 && i < y.cpt && x == l * y.cpt + y.start + i
    ensures Pos(y, l, i, reverse) ==
            if reverse then y.n - 1 - x % y.n else if y.cpt == 1 then x else x % y.n
  {}

  /** The CPU with so many of those available below it. */
  lemma NthAvailable(s: set<nat>, top: nat, k: nat) returns (c: nat)
    requires k < CountBelow(s, top)
    ensures c in s && c < top && CountBelow(s, c) == k
  {
    if top - 1 in s && CountBelow(s, top - 1) == k {
      c := top - 1;
    } else {
      c := NthAvailable(s, top - 1, k);
    }
  }

  lemma SameRank(s: set<nat>, c: nat, d: nat)
    requires c in s && d in s && CountBelow(s, c) == CountBelow(s, d)
    ensures c == d
  {
    if c < d { CountBelowMonotone(s, c, d); }
    if d < c { CountBelowMonotone(s, d, c); }
  }

  /** What the position map has at a position below n. */
  lemma IdAt(y: Layout, p: nat)
    requires Sound(y) && p < y.n
    ensures p < |y.posMap| && y.posMap[p] == y.posMap[..y.n][p] < y.n
  {}

  /** Whether a position leads to no CPU that is available. */
  predicate Lost(y: Layout, l: nat, i: nat, reverse: bool)
    requires y.n > 0
  {
    Pos(y, l, i, reverse) >= |y.posMap| || y.posMap[Pos(y, l, i, reverse)] >= y.n
  }

  /** The first of the task's CPUs from the k-th on that is lost, or how many there are. */
  function FirstLost(y: Layout, l: nat, k: nat, reverse: bool): (i: nat)
    requires y.n > 0
    ensures k <= y.cpt ==> k <= i <= y.cpt
    decreases y.cpt - k
  {
    if k >= y.cpt || Lost(y, l, k, reverse) then k else FirstLost(y, l, k + 1, reverse)
  }

  lemma LostStep(y: Layout, l: nat, k: nat, reverse: bool)
    requires y.n > 0
    ensures FirstLost(y, l, k, reverse) ==
            if k >= y.cpt || Lost(y, l, k, reverse) then k else FirstLost(y, l, k + 1, reverse)
  {}

  /** No position before the first one lost is lost. */
  lemma {:induction false} BeforeLost(y: Layout, l: nat, k: nat, i: nat, reverse: bool)
    requires y.n > 0 && k <= i
    ensures i < FirstLost(y, l, k, reverse) ==> !Lost(y, l, i, reverse)
    ensures i < y.cpt && !Lost(y, l, i, reverse) ==> FirstLost(y, l, k, reverse) != i
    decreases i - k
  {
    if k < i {
      BeforeLost(y, l, k + 1, i, reverse);
    } else {
      LostStep(y, l, k, reverse);
    }
  }

  lemma {:induction false} FirstOfTask(y: Layout, ntasks: nat, l: nat, k: nat, reverse: bool)
    requires Ranked(y) && Fits(y, ntasks, reverse) && l < ntasks && k <= FirstLost(y, l, 0, reverse)
    ensures |Mask(y, l, k, reverse)| == k
    decreases k
  {
    hide Mask, Fits, FirstLost;
    if k == 0 {
      NoneHit(y, l, reverse);
    } else {
      FirstOfTask(y, ntasks, l, k - 1, reverse);
      var c := NextCpu(y, ntasks, l, k - 1, reverse);
      assert |Mask(y, l, k - 1, reverse) + {c}| == k;
    }
  }

  lemma NextCpu(y: Layout, ntasks: nat, l: nat, k: nat, reverse: bool) returns (c: nat)
    requires Ranked(y) && Fits(y, ntasks, reverse) && l < ntasks && k < FirstLost(y, l, 0, reverse)
    ensures c !in Mask(y, l, k, reverse) && Mask(y, l, k + 1, reverse) == Mask(y, l, k, reverse) + {c}
  {
    hide Pos, Fits, FirstLost;
    BeforeLost(y, l, 0, k, reverse);
    var p := Pos(y, l, k, reverse);
    var top: nat :| CountBelow(y.available, top) == y.n && AllBelow(y.available, top);
    c := NthAvailable(y.available, top, y.posMap[p]);
    assert HitsAt(y, l, k, reverse, c);
    if Hits(y, l, k, reverse, c) {
      var i :| 0 <= i < k && HitsAt(y, l, i, reverse, c);
      SamePlace(y, ntasks, l, i, l, k, reverse, c);
    }
    forall d ensures d in Mask(y, l, k + 1, reverse) <==> d in Mask(y, l, k, reverse) + {c} {
      if d in y.available && HitsAt(y, l, k, reverse, d) {
        SameRank(y.available, c, d);
      }
    }
  }

  /** A CPU is hit from one place only. */
  lemma SamePlace(y: Layout, ntasks: nat, l: nat, i: nat, m: nat, j: nat, reverse: bool, c: nat)
    requires Ranked(y) && Fits(y, ntasks, reverse) && l < ntasks && m < ntasks && i < y.cpt && j < y.cpt
    requires HitsAt(y, l, i, reverse, c) && HitsAt(y, m, j, reverse, c)
    ensures l == m && i == j
  {
    hide Pos, Fits;
    if l < m || (l == m && i < j) {
      PosApart(y, ntasks, l, i, m, j, reverse);
    } else if m < l || (l == m && j < i) {
      PosApart(y, ntasks, m, j, l, i, reverse);
    }
  }

  /** Where there are enough CPUs, no two tasks share one, and each task has as many as there
      are before the first that is lost. */
  lemma MasksApart(y: Layout, ntasks: nat, l: nat, m: nat, reverse: bool)
    requires Ranked(y) && Fits(y, ntasks, reverse) && l < ntasks && m < ntasks
    ensures l != m ==> Mask(y, l, y.cpt, reverse) !! Mask(y, m, y.cpt, reverse)
    ensures var k := FirstLost(y, l, 0, reverse);
            |Mask(y, l, k, reverse)| == k && Mask(y, l, k, reverse) <= Mask(y, l, y.cpt, reverse) <= y.available
  {
    hide HitsAt, Fits, FirstLost;
    FirstOfTask(y, ntasks, l, FirstLost(y, l, 0, reverse), reverse);
    forall c | c in Mask(y, l, y.cpt, reverse) && c in Mask(y, m, y.cpt, reverse) ensures l == m {
      var i :| 0 <= i < y.cpt && HitsAt(y, l, i, reverse, c);
      var j :| 0 <= j < y.cpt && HitsAt(y, m, j, reverse, c);
      SamePlace(y, ntasks, l, i, m, j, reverse, c);
    }
  }

  /** Where the CPUs come out even, every one available goes to some task. */
  lemma MasksCover(y: Layout, ntasks: nat, reverse: bool, c: nat)
    requires Sound(y) && ntasks * y.cpt == y.n && (Straight(y, reverse) ==> y.start == 0) && c in y.available
    ensures exists l :: 0 <= l < ntasks && c in Mask(y, l, y.cpt, reverse)
  {
    hide Pos;
    var p := PlaceOf(y, c);
    var l, i := Served(y, ntasks, p, reverse);
    assert HitsAt(y, l, i, reverse, c);
    assert c in Mask(y, l, y.cpt, reverse);
  }

  lemma PlaceOf(y: Layout, c: nat) returns (p: nat)
    requires Sound(y) && c in y.available
    ensures p < y.n && y.posMap[p] == CountBelow(y.available, c)
  {
    var top: nat :| CountBelow(y.available, top) == y.n && AllBelow(y.available, top);
    CountBelowMonotone(y.available, c, top);
    var k := CountBelow(y.available, c);
    assert k in y.posMap[..y.n];
    p :| 0 <= p < y.n && y.posMap[..y.n][p] == k;
  }

  lemma Split(x: nat, cpt: nat, ntasks: nat) returns (l: nat, i: nat)
    requires x < ntasks * cpt
    ensures l < ntasks && i < cpt && x == l * cpt + i
  {
    if ntasks == 1 || x < cpt {
      l, i := 0, x;
    } else {
      assert ntasks * cpt == (ntasks - 1) * cpt + cpt;
      l, i := Split(x - cpt, cpt, ntasks - 1);
      assert (l + 1) * cpt == l * cpt + cpt;
      l := l + 1;
    }
  }

  /** Whose CPU is at a position. */
  lemma Served(y: Layout, ntasks: nat, p: nat, reverse: bool) returns (l: nat, i: nat)
    requires y.n > 0 && ntasks * y.cpt == y.n && (Straight(y, reverse) ==> y.start == 0) && p < y.n
    ensures l < ntasks && i < y.cpt && Pos(y, l, i, reverse) == p
  {
    var x := ModMeets(if reverse then y.n - 1 - p else p, y.start, y.n);
    l, i := Split(x, y.cpt, ntasks);
    if y.cpt == 1 && !reverse {
      ModIs(x + y.start, y.n, 0, x);
    }
  }

  /** Reverse order is forward order where positions are counted from the other end. */
  lemma ReverseIsMirror(y: Layout, z: Layout, l: nat, k: nat)
    requires y.n > 0 && y.n <= |y.posMap| && z == y.(posMap := z.posMap) && |z.posMap| == y.n
    requires forall p :: 0 <= p < y.n ==> z.posMap[p] == y.posMap[y.n - 1 - p]
    requires y.cpt == 1 ==> k <= 1 && l + y.start < y.n
    ensures Mask(y, l, k, true) == Mask(z, l, k, false)
  {
    forall c: nat ensures Hits(y, l, k, true, c) <==> Hits(z, l, k, false, c) {
      forall i | 0 <= i < k ensures HitsAt(y, l, i, true, c) <==> HitsAt(z, l, i, false, c) {
        MirrorAt(y, z, l, i);
      }
    }
  }

  lemma MirrorAt(y: Layout, z: Layout, l: nat, i: nat)
    requires y.n > 0 && z == y.(posMap := z.posMap) && (y.cpt == 1 ==> i == 0 && l + y.start < y.n)
    ensures Pos(z, l, i, false) < y.n && Pos(y, l, i, true) == y.n - 1 - Pos(z, l, i, false)
  {
    if y.cpt == 1 {
      ModIs(l + y.start, y.n, 0, l + y.start);
    }
  }

  /** What is generated for a task: its CPUs up to the first that is lost. */
  function Generated(y: Layout, l: nat, reverse: bool): set<nat>
    requires y.n > 0
  {
    Mask(y, l, FirstLost(y, l, 0, reverse), reverse)
  }

  class Affinity {
    var ncpus: nat
    var ntasks: nat
    var startcpu: nat
    var requestedCpt: nat
    var available: set<nat>
    var navailable: nat
    var positionMap: seq<nat>

    /** The CPUs available are among those of the system, and the map has each CPU once. */
    ghost predicate Valid()
      reads this
    {
      && navailable == CountBelow(available, ncpus) && (forall c :: c in available ==> c < ncpus)
      && Permutes(positionMap, ncpus)
    }

    /** create_cpu_position_map; nothing where a CPU's place cannot be read. */
    method CreateCpuPositionMap(n: nat, places: map<nat, CpuInfo>) returns (ok: bool, ghost infos: seq<CpuInfo>)
      requires forall i :: i in places ==> places[i].id == i
      modifies this`positionMap
      ensures ok <==> forall i :: 0 <= i < n ==> i in places
      ensures !ok ==> positionMap == old(positionMap)
      ensures ok ==> Pushed(infos, n) && (forall i :: 0 <= i < n ==> infos[i] == places[n - 1 - i])
      ensures ok ==> Permutes(positionMap, n) && positionMap == Ids(Sorting(infos, CmpPlace))
    {
      hide Sorting, Permutes;
      var list: seq<CpuInfo> := [];
      infos := [];
      var i := 0;
      while i < n
        invariant 0 <= i <= n && |list| == i
        invariant forall k :: 0 <= k < i ==> i - 1 - k in places && list[k] == places[i - 1 - k]
        invariant forall k :: 0 <= k < i ==> k in places
      {
        if i !in places { return false, infos; }
        list := [places[i]] + list;
        i := i + 1;
      }
      infos := list;
      MapPermutes(infos, n);
      list := Sorting(list, CmpPlace);
      positionMap := [];
      i := 0;
      while i < |list|
        invariant 0 <= i <= |list| && |positionMap| == i
        invariant forall k :: 0 <= k < i ==> positionMap[k] == list[k].id
      {
        positionMap := positionMap + [list[i].id];
        i := i + 1;
      }
      assert positionMap == Ids(list);
      ok := true;
    }

    /** get_cpus_per_task: as many as were asked for, if any were. */
    function CpusPerTask(): (k: nat)
      requires ntasks > 0
      reads this
      ensures requestedCpt != 0 ==> k == requestedCpt
    {
      if requestedCpt != 0 then requestedCpt else navailable / ntasks
    }

    /** Where nothing was asked for, each task gets the most that all tasks can have; and
        all CPUs are used if they come out even. */
    lemma MostForAll()
      requires ntasks > 0 && requestedCpt == 0
      ensures ntasks * CpusPerTask() <= navailable < ntasks * (CpusPerTask() + 1)
      ensures navailable % ntasks == 0 ==> ntasks * CpusPerTask() == navailable
    {
      DivMod(navailable, ntasks);
      assert ntasks * (navailable / ntasks + 1) == ntasks * (navailable / ntasks) + ntasks;
    }

    /** The position from which a task's i-th CPU is looked up: from start on, each task's
        behind those of the task before it, going round but for a single CPU in forward
        order; in reverse counted from the other end. */
    function Place(localid: nat, i: nat, reverse: bool): int
      requires ntasks > 0 && navailable > 0
      reads this
    {
      var p := localid * CpusPerTask() + startcpu + i;
      if reverse then navailable - 1 - p % navailable
      else if CpusPerTask() == 1 then p
      else p % navailable
    }

    /** There is a CPU available at that position. */
    predicate Leads(localid: nat, i: nat, reverse: bool)
      requires ntasks > 0 && navailable > 0
      reads this
    {
      var p := Place(localid, i, reverse);
      0 <= p < |positionMap| && positionMap[p] < navailable
    }

    /** The CPU is the one at that position. */
    predicate Serves(c: nat, localid: nat, i: nat, reverse: bool)
      requires ntasks > 0 && navailable > 0
      reads this
    {
      && Leads(localid, i, reverse) && c in available
      && CountBelow(available, c) == positionMap[Place(localid, i, reverse)]
    }

    /** A task can be given all CPUs that it is to have. */
    predicate Servable(localid: nat, reverse: bool)
      requires ntasks > 0 && navailable > 0
      reads this
    {
      forall i :: 0 <= i < CpusPerTask() ==> Leads(localid, i, reverse)
    }

    /** The mask has been given just those CPUs. */
    ghost predicate Served(setp: set<nat>, mask: set<nat>, localid: nat, reverse: bool)
      requires ntasks > 0 && navailable > 0
      reads this
    {
      forall c :: c in mask <==> c in setp || exists i :: 0 <= i < CpusPerTask() && Serves(c, localid, i, reverse)
    }

    /** What is generated, in the terms of the settings. */
    lemma GeneratedIs(setp: set<nat>, l: nat, reverse: bool)
      requires Valid() && ntasks > 0 && navailable > 0
      ensures FirstLost(Current(), l, 0, reverse) == CpusPerTask() <==> Servable(l, reverse)
      ensures Servable(l, reverse) ==> Served(setp, setp + Generated(Current(), l, reverse), l, reverse)
      ensures Servable(l, reverse) && l < ntasks && ntasks * CpusPerTask() <= navailable ==>
                |Generated(Current(), l, reverse)| == CpusPerTask()
    {
      hide FirstLost, CountBelow, Permutes, CpusPerTask, Leads, Pos, Place, Lost, Mask;
      var y, k := Current(), CpusPerTask();
      var f := FirstLost(y, l, 0, reverse);
      forall i | 0 <= i < k ensures i < f ==> Leads(l, i, reverse) {
        LeadsIs(l, i, reverse);
        BeforeLost(y, l, 0, i, reverse);
      }
      if f < k { LostNotServable(l, reverse); }
      if Servable(l, reverse) {
        GeneratedServes(setp, l, reverse);
        if l < ntasks && ntasks * k <= navailable {
          assert Ranked(y) by { MapCovers(); MapDiffers(); assert AllBelow(available, ncpus); }
          MasksApart(y, ntasks, l, l, reverse);
        }
      }
    }

    lemma LostNotServable(l: nat, reverse: bool)
      requires Valid() && ntasks > 0 && navailable > 0 && FirstLost(Current(), l, 0, reverse) < CpusPerTask()
      ensures !Servable(l, reverse)
    {
      hide FirstLost, CountBelow, Permutes, CpusPerTask, Leads, Pos, Place, Lost;
      var f := FirstLost(Current(), l, 0, reverse);
      LeadsIs(l, f, reverse);
      BeforeLost(Current(), l, 0, f, reverse);
    }

    lemma MapDiffers()
      requires Valid()
      ensures forall p, q :: 0 <= p < q < |positionMap| ==> positionMap[p] != positionMap[q]
    {}

    lemma LeadsIs(l: nat, i: nat, reverse: bool)
      requires Valid() && ntasks > 0 && navailable > 0 && i < CpusPerTask()
      ensures Place(l, i, reverse) == Pos(Current(), l, i, reverse)
      ensures Leads(l, i, reverse) <==> !Lost(Current(), l, i, reverse)
    {
      hide CpusPerTask, Permutes, CountBelow;
      PosIs(Current(), l, i, reverse, l * CpusPerTask() + startcpu + i);
    }

    lemma GeneratedServes(setp: set<nat>, l: nat, reverse: bool)
      requires Valid() && ntasks > 0 && navailable > 0 && Servable(l, reverse)
      requires FirstLost(Current(), l, 0, reverse) == CpusPerTask()
      ensures Served(setp, setp + Generated(Current(), l, reverse), l, reverse)
    {
      hide FirstLost, CountBelow, Permutes, CpusPerTask, Leads, Pos, Place, Lost;
      var y, k := Current(), CpusPerTask();
      forall c, i | 0 <= i < k && c in available
        ensures HitsAt(y, l, i, reverse, c) <==> Serves(c, l, i, reverse)
      {
        LeadsIs(l, i, reverse);
        LeadsWithin(l, i, reverse);
      }
    }

    lemma LeadsWithin(l: nat, i: nat, reverse: bool)
      requires ntasks > 0 && navailable > 0
      ensures Leads(l, i, reverse) ==> 0 <= Place(l, i, reverse) < |positionMap|
    {}

    /** mask_to_available: the CPU with so many of those available below it. */
    method MaskToAvailable(cpu: nat) returns (r: int)
      requires Valid()
      ensures r == -1 <==> cpu >= navailable
      ensures r != -1 ==> 0 <= r < ncpus && r in available && CountBelow(available, r) == cpu
    {
      hide Permutes;
      var i, j := 0, 0;
      while i < ncpus
        invariant 0 <= i <= ncpus && j == CountBelow(available, i) <= cpu
      {
        if i in available {
          if cpu == j {
            CountBelowMonotone(available, i, ncpus);
            return i;
          }
          j := j + 1;
        }
        i := i + 1;
      }
      return -1;
    }

    /** The layout for the tasks as things stand. */
    function Current(): Layout
      requires ntasks > 0
      reads this
    {
      Layout(positionMap, available, navailable, CpusPerTask(), startcpu)
    }

    /** Where all CPUs of the system are available, the map is one of these. */
    lemma SoundWhenAll()
      requires Valid() && ntasks > 0 && navailable == ncpus > 0
      ensures Sound(Current())
    {
      assert positionMap[..ncpus] == positionMap;
      assert AllBelow(available, ncpus);
    }

    /** However the CPUs lie that are available: the masks generated for two tasks share no
        CPU, and one that was generated to the end has as many as asked for. With one CPU
        each in forward order that is so for any number of tasks and any start. */
    lemma TasksApart(l: nat, m: nat, reverse: bool)
      requires Valid() && ntasks > 0 && navailable > 0 && Fits(Current(), ntasks, reverse)
      requires l < ntasks && m < ntasks && l != m
      ensures Generated(Current(), l, reverse) !! Generated(Current(), m, reverse)
      ensures |Generated(Current(), l, reverse)| == FirstLost(Current(), l, 0, reverse) <= CpusPerTask()
    {
      hide Fits, Mask, FirstLost, CpusPerTask;
      assert navailable <= ncpus;
      assert Ranked(Current()) by { assert AllBelow(available, ncpus); }
      MasksApart(Current(), ntasks, l, m, reverse);
      MasksApart(Current(), ntasks, m, l, reverse);
    }

    lemma MapCovers()
      requires Valid()
      ensures navailable <= ncpus == |positionMap|
    {}

    /** generate_mask. It fails at the first position whose CPU is not available, with those
        before it set. A single CPU may be looked up past the end of the map. */
    method GenerateMask(setp: set<nat>, localid: nat) returns (ok: bool, mask: set<nat>, overrun: bool)
      requires Valid() && ntasks > 0 && navailable > 0
      ensures overrun <==> Overruns(Current(), localid, false)
      ensures !overrun ==> mask == setp + Generated(Current(), localid, false)
      ensures !overrun ==> (ok <==> FirstLost(Current(), localid, 0, false) == CpusPerTask())
      ensures !overrun ==> (ok <==> Servable(localid, false))
      ensures !overrun && ok ==> Served(setp, mask, localid, false)
      ensures !overrun && ok && setp == {} && localid < ntasks && ntasks * CpusPerTask() <= navailable ==>
                |mask| == CpusPerTask()
      ensures !overrun && ok && setp == {} && localid < ntasks && requestedCpt != 0 ==>
                (ntasks * requestedCpt <= navailable ==> |mask| == requestedCpt)
    {
      hide Mask, FirstLost, CpusPerTask, CountBelow, Pos, Permutes, Servable, Served;
      MapCovers();
      GeneratedIs(setp, localid, false);
      assert {} + Generated(Current(), localid, false) == Generated(Current(), localid, false);
      var cpt, y := CpusPerTask(), Current();
      mask, overrun := setp, false;
      NoneHit(y, localid, false);
      PosFirst(y, localid, false);
      if cpt == 1 {
        if localid + startcpu >= |positionMap| { return false, mask, true; }
        var n := positionMap[localid + startcpu];
        var cpu := MaskToAvailable(n);
        TakeStep(y, localid, 0, false, cpu);
        if cpu < 0 { return false, mask, false; }
        mask := mask + {cpu};
        return true, mask, false;
      }
      var cpu := (localid * cpt + startcpu) % navailable;
      var i := 0;
      while i < cpt
        invariant 0 <= i <= cpt && cpu == Pos(y, localid, i, false) < navailable
        invariant mask == setp + Mask(y, localid, i, false)
        invariant FirstLost(y, localid, 0, false) == FirstLost(y, localid, i, false)
      {
        var bit := MaskToAvailable(positionMap[cpu]);
        TakeStep(y, localid, i, false, bit);
        if bit < 0 { return false, mask, false; }
        mask := mask + {bit};
        PosNext(y, localid, i, false);
        cpu := (cpu + 1) % navailable;
        i := i + 1;
      }
      LostStep(y, localid, i, false);
      ok := true;
    }

    /** generate_mask_reverse */
    method GenerateMaskReverse(setp: set<nat>, localid: nat) returns (ok: bool, mask: set<nat>)
      requires Valid() && ntasks > 0 && navailable > 0
      ensures mask == setp + Generated(Current(), localid, true)
      ensures ok <==> FirstLost(Current(), localid, 0, true) == CpusPerTask()
      ensures ok <==> Servable(localid, true)
      ensures ok ==> Served(setp, mask, localid, true)
      ensures ok && setp == {} && localid < ntasks && ntasks * CpusPerTask() <= navailable ==>
                |mask| == CpusPerTask()
      ensures ok && setp == {} && localid < ntasks && requestedCpt != 0 ==>
                (ntasks * requestedCpt <= navailable ==> |mask| == requestedCpt)
    {
      hide Mask, FirstLost, CpusPerTask, CountBelow, Pos, Permutes, Servable, Served;
      MapCovers();
      GeneratedIs(setp, localid, true);
      assert {} + Generated(Current(), localid, true) == Generated(Current(), localid, true);
      var cpt, y := CpusPerTask(), Current();
      mask := setp;
      NoneHit(y, localid, true);
      PosFirst(y, localid, true);
      var lastcpu := navailable - 1;
      if cpt == 1 {
        var cpu := lastcpu - (localid + startcpu) % navailable;
        var bit := MaskToAvailable(positionMap[cpu]);
        TakeStep(y, localid, 0, true, bit);
        if bit < 0 { return false, mask; }
        mask := mask + {bit};
        return true, mask;
      }
      var cpu := lastcpu - (localid * cpt + startcpu) % navailable;
      var i := 0;
      while i < cpt
        invariant 0 <= i <= cpt && 0 <= cpu == Pos(y, localid, i, true) < navailable
        invariant mask == setp + Mask(y, localid, i, true)
        invariant FirstLost(y, localid, 0, true) == FirstLost(y, localid, i, true)
      {
        var bit := MaskToAvailable(positionMap[cpu]);
        TakeStep(y, localid, i, true, bit);
        if bit < 0 { return false, mask; }
        mask := mask + {bit};
        PosNext(y, localid, i, true);
        cpu := if cpu - 1 >= 0 then cpu - 1 else navailable - 1;
        i := i + 1;
      }
      LostStep(y, localid, i, true);
      ok := true;
    }
  }

  lemma PosFirst(y: Layout, l: nat, reverse: bool)
    requires y.n > 0
    ensures Straight(y, reverse) ==> Pos(y, l, 0, reverse) == l + y.start
    ensures !Straight(y, reverse) ==> Pos(y, l, 0, reverse) < y.n
    ensures !Straight(y, reverse) ==>
              Pos(y, l, 0, reverse) == if reverse then y.n - 1 - (l * y.cpt + y.start) % y.n
                                       else (l * y.cpt + y.start) % y.n
    ensures y.cpt == 1 && reverse ==> Pos(y, l, 0, reverse) == y.n - 1 - (l + y.start) % y.n
  {}

  lemma PosNext(y: Layout, l: nat, i: nat, reverse: bool)
    requires y.n > 0 && y.cpt != 1
    ensures var p, q := Pos(y, l, i, reverse), Pos(y, l, i + 1, reverse);
            q < y.n && q == if reverse then (if p - 1 >= 0 then p - 1 else y.n - 1) else (p + 1) % y.n
  {
    ModNext(l * y.cpt + y.start + i, y.n);
  }

  /** Looking up one CPU of a task. */
  lemma TakeStep(y: Layout, l: nat, i: nat, reverse: bool, bit: int)
    requires 0 < y.n && i < y.cpt && Pos(y, l, i, reverse) < |y.posMap|
    requires bit == -1 <==> y.posMap[Pos(y, l, i, reverse)] >= y.n
    requires bit != -1 ==>
               bit >= 0 && bit in y.available && CountBelow(y.available, bit) == y.posMap[Pos(y, l, i, reverse)]
    ensures FirstLost(y, l, i, reverse) == if bit == -1 then i else FirstLost(y, l, i + 1, reverse)
    ensures i + 1 == y.cpt ==> FirstLost(y, l, i + 1, reverse) == y.cpt
    ensures bit != -1 ==> Mask(y, l, i + 1, reverse) == Mask(y, l, i, reverse) + {bit}
  {
    hide Mask, FirstLost, CountBelow, Pos;
    LostStep(y, l, i, reverse);
    LostStep(y, l, i + 1, reverse);
    if bit != -1 { OneMore(y, l, i, reverse, bit); }
  }

  lemma NoneHit(y: Layout, l: nat, reverse: bool)
    requires y.n > 0
    ensures Mask(y, l, 0, reverse) == {}
  {}

  lemma OneMore(y: Layout, l: nat, i: nat, reverse: bool, c: nat)
    requires y.n > 0 && c in y.available && HitsAt(y, l, i, reverse, c)
    ensures Mask(y, l, i + 1, reverse) == Mask(y, l, i, reverse) + {c}
  {
    forall d ensures d in Mask(y, l, i + 1, reverse) <==> d in Mask(y, l, i, reverse) + {c} {
      if d in y.available && HitsAt(y, l, i, reverse, d) {
        SameRank(y.available, c, d);
      }
    }
  }

  /** Where the first positions hold the CPUs available, no position is lost that tasks use:
      each task has all of its CPUs. */
  lemma NoneLost(y: Layout, ntasks: nat, l: nat, reverse: bool)
    requires Sound(y) && Fits(y, ntasks, reverse) && l < ntasks && (Straight(y, reverse) ==> l + y.start < y.n)
    ensures FirstLost(y, l, 0, reverse) == y.cpt && |Mask(y, l, y.cpt, reverse)| == y.cpt
  {
    hide Fits, Pos, FirstLost, Mask;
    var i := FirstLost(y, l, 0, reverse);
    if i < y.cpt {
      PosWithin(y, l, i, reverse);
      IdAt(y, Pos(y, l, i, reverse));
      BeforeLost(y, l, 0, i, reverse);
    }
    MasksApart(y, ntasks, l, l, reverse);
  }
}

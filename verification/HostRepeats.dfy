/** Names that two ranges of different runs have in common, as foo10 in foo[08-12] and
    foo[9-12], or foo12 in foo1[2] and foo[12]: sorting and joining do not bring them
    together. */
module HostRepeats {
  import opened Sequences
  import opened Decimal
  import opened HostRange
  import opened HostNames
  import opened HostOrder
  import opened HostRuns

  /** Two ranges of a list, or of one it came from, that belong to one run. */
  predicate RunMates(rs: seq<Range>, a: Range, b: Range) {
    a.prefix == b.prefix && a.single == b.single && SameRun(Marks(rs, a.prefix), PrintedWidth(a), PrintedWidth(b))
  }

  predicate Holds(r: Range, x: string)
    requires Proper(r)
  {
    x in Hosts(r)
  }

  /** Two ranges of different runs that have a host in common. */
  ghost predicate SharesIn(rs: seq<Range>, i: nat, j: nat, x: string)
    requires AllProper(rs) && i < |rs| && j < |rs|
  {
    !RunMates(rs, rs[i], rs[j]) && Holds(rs[i], x) && Holds(rs[j], x)
  }

  ghost predicate Shared(rs: seq<Range>)
    requires AllProper(rs)
  {
    exists i, j, x :: 0 <= i < |rs| && 0 <= j < |rs| && SharesIn(rs, i, j, x)
  }

  // ---- lists whose runs have the same hosts ----

  /** The host is in a range of the run of r. */
  ghost predicate InRun(rs: seq<Range>, r: Range, x: string)
    requires AllProper(rs)
  {
    exists k :: 0 <= k < |rs| && Holds(rs[k], x) && RunMates(rs, rs[k], r)
  }

  ghost predicate SameMarks(a: seq<Range>, b: seq<Range>) {
    forall p :: Marks(a, p) == Marks(b, p)
  }

  /** Every host of a range of the first list is in the same run of the second. */
  ghost predicate Kept(a: seq<Range>, b: seq<Range>)
    requires AllProper(a) && AllProper(b)
  {
    forall i, x :: 0 <= i < |a| && Holds(a[i], x) ==> InRun(b, a[i], x)
  }

  ghost predicate SameRuns(a: seq<Range>, b: seq<Range>)
    requires AllProper(a) && AllProper(b)
  {
    SameMarks(a, b) && Kept(a, b) && Kept(b, a)
  }

  lemma RunMatesThen(rs: seq<Range>, a: Range, b: Range, c: Range)
    requires RunMates(rs, a, b)
    ensures RunMates(rs, b, a)
    ensures RunMates(rs, b, c) ==> RunMates(rs, a, c)
  {
    hide PrintedWidth, Marks;
  }

  lemma SameRunsThen(a: seq<Range>, b: seq<Range>, c: seq<Range>)
    requires AllProper(a) && AllProper(b) && AllProper(c) && SameRuns(a, b) && SameRuns(b, c)
    ensures SameRuns(a, c)
  {
    hide Marks, PrintedWidth, Holds;
    KeptThen(a, b, c);
    KeptThen(c, b, a);
  }

  lemma KeptThen(a: seq<Range>, b: seq<Range>, c: seq<Range>)
    requires AllProper(a) && AllProper(b) && AllProper(c) && SameMarks(b, c) && Kept(a, b) && Kept(b, c)
    ensures Kept(a, c)
  {
    hide Marks, PrintedWidth, Holds, RunMates;
    forall i, x | 0 <= i < |a| && Holds(a[i], x) ensures InRun(c, a[i], x) {
      assert InRun(b, a[i], x);
      var k :| 0 <= k < |b| && Holds(b[k], x) && RunMates(b, b[k], a[i]);
      assert InRun(c, b[k], x);
      var m :| 0 <= m < |c| && Holds(c[m], x) && RunMates(c, c[m], b[k]);
      SameMates(b, c, b[k], a[i]);
      RunMatesThen(c, c[m], b[k], a[i]);
    }
  }

  lemma SameMates(a: seq<Range>, b: seq<Range>, x: Range, y: Range)
    requires SameMarks(a, b)
    ensures RunMates(a, x, y) == RunMates(b, x, y)
  {
    hide Marks, PrintedWidth;
  }

  /** Whether a host is shared depends on the runs only. */
  lemma SharedSame(a: seq<Range>, b: seq<Range>)
    requires AllProper(a) && AllProper(b) && SameRuns(a, b)
    ensures Shared(a) <==> Shared(b)
  {
    if Shared(a) { SharedKept(a, b); }
    if Shared(b) { SharedKept(b, a); }
  }

  lemma SharedKept(a: seq<Range>, b: seq<Range>)
    requires AllProper(a) && AllProper(b) && SameMarks(a, b) && Kept(a, b) && Shared(a)
    ensures Shared(b)
  {
    hide Marks, PrintedWidth, Holds, RunMates;
    var i, j, x :| 0 <= i < |a| && 0 <= j < |a| && SharesIn(a, i, j, x);
    assert InRun(b, a[i], x) && InRun(b, a[j], x);
    var k :| 0 <= k < |b| && Holds(b[k], x) && RunMates(b, b[k], a[i]);
    var m :| 0 <= m < |b| && Holds(b[m], x) && RunMates(b, b[m], a[j]);
    SameMates(a, b, a[i], a[j]);
    NotMates(b, b[k], b[m], a[i], a[j]);
    assert SharesIn(b, k, m, x);
  }

  lemma NotMates(rs: seq<Range>, x: Range, y: Range, a: Range, b: Range)
    requires RunMates(rs, x, a) && RunMates(rs, y, b) && !RunMates(rs, a, b)
    ensures !RunMates(rs, x, y)
  {
    hide RunMates;
    RunMatesThen(rs, x, a, a);
    if RunMates(rs, x, y) {
      RunMatesThen(rs, a, x, y);
      RunMatesThen(rs, a, y, b);
    }
  }

  // ---- sorting and joining ----

  /** Sorting keeps the runs, and so does giving ranges other widths that do not show. */
  lemma RearrangedRuns(a: seq<Range>, b: seq<Range>)
    requires AllProper(a) && AllProper(b) && Rearranged(a, b)
    ensures SameRuns(a, b)
  {
    hide Marks, PrintedWidth, Canons;
    forall p ensures Marks(a, p) == Marks(b, p) {
      MarksCanons(a, p);
      MarksCanons(b, p);
      MarksBag(Canons(a), Canons(b), p);
    }
    RearrangedKept(a, b);
    RearrangedKept(b, a);
  }

  lemma RearrangedKept(a: seq<Range>, b: seq<Range>)
    requires AllProper(a) && AllProper(b) && Rearranged(a, b)
    ensures Kept(a, b)
  {
    hide Marks, Canon, Hosts, Rearranged, Proper, Shows;
    forall i, x | 0 <= i < |a| && Holds(a[i], x) ensures InRun(b, a[i], x) {
      var j := RearrangedMember(a, b, i);
      CanonHosts(a[i]);
      CanonHosts(b[j]);
      AlikeShows(a[i], b[j]);
      assert Holds(b[j], x);
    }
  }

  /** A range that takes in the next one keeps the runs. */
  lemma MergedRuns(rs: seq<Range>, i: nat, a: Range)
    requires AllProper(rs) && Ordered(rs) && 0 < i < |rs| && Proper(a)
    requires PrefixCmp(rs[i - 1], rs[i]) == 0 && Compatible(rs[i - 1], rs[i])
    requires Alike(a, rs[i - 1].(hi := a.hi))
    requires forall x :: x in Hosts(a) <==> x in Hosts(rs[i - 1]) || x in Hosts(rs[i])
    ensures AllProper(RemoveAt(rs[i - 1 := a], i)) && SameRuns(rs, RemoveAt(rs[i - 1 := a], i))
  {
    hide Marks, Hosts, Leq, Compatible, SameRun, Holds, PrintedWidth, Shows, Alike;
    var out := RemoveAt(rs[i - 1 := a], i);
    MergedMates(rs, i, a);
    MergedMarks(rs, i, a);
    MergedKept(rs, i, a);
    MergedFrom(rs, i, a);
  }

  lemma MergedMates(rs: seq<Range>, i: nat, a: Range)
    requires AllProper(rs) && Ordered(rs) && 0 < i < |rs|
    requires PrefixCmp(rs[i - 1], rs[i]) == 0 && Compatible(rs[i - 1], rs[i]) && Alike(a, rs[i - 1].(hi := a.hi))
    ensures RunMates(rs, a, rs[i - 1]) && RunMates(rs, a, rs[i])
    ensures Shows(a) == Shows(rs[i - 1]) && PrintedWidth(a) == PrintedWidth(rs[i - 1])
    ensures Shows(rs[i]) ==> Shows(a) && PrintedWidth(rs[i]) == PrintedWidth(a)
  {
    hide Leq, Compatible, Marks;
    var r, q := rs[i - 1], rs[i];
    AlikeShows(a, r.(hi := a.hi));
    PrefixCmpZero(r, q);
    if !r.single {
      CompatibleOneRun(rs, i);
      OrderedFar(rs, i - 1, i);
      WithinIs(r, q);
      CompatibleIff(r, q);
      if r.lo <= q.lo { DigitCountMonotone(r.lo, q.lo); }
      OneRunIsSame(rs, r, q);
    }
  }

  /** The two ways to say that two ranges are in one run. */
  lemma OneRunIsSame(rs: seq<Range>, a: Range, b: Range)
    requires !a.single && !b.single && a.prefix == b.prefix && PrintedWidth(a) <= PrintedWidth(b)
    ensures OneRun(rs, a, b) <==> RunMates(rs, a, b)
  {
    hide PrintedWidth, Shows, Marks;
    var marks := Marks(rs, a.prefix);
    if OneRun(rs, a, b) {
      forall s | s in marks ensures s <= PrintedWidth(a) <==> s <= PrintedWidth(b) {
        var d := MarkIs(rs, a.prefix, s);
        assert !ParsRuns(rs[d], a.prefix, PrintedWidth(a), PrintedWidth(b));
      }
    }
    if RunMates(rs, a, b) {
      forall d | d in rs ensures !ParsRuns(d, a.prefix, PrintedWidth(a), PrintedWidth(b)) {
        var m :| 0 <= m < |rs| && rs[m] == d;
        if OfPrefix(d, a.prefix) && Shows(d) { MarkIn(rs, a.prefix, m); }
      }
    }
  }

  lemma MergedMarks(rs: seq<Range>, i: nat, a: Range)
    requires 0 < i < |rs| && RunMates(rs, a, rs[i - 1]) && RunMates(rs, a, rs[i])
    requires Shows(a) == Shows(rs[i - 1]) && PrintedWidth(a) == PrintedWidth(rs[i - 1])
    requires Shows(rs[i]) ==> Shows(a) && PrintedWidth(rs[i]) == PrintedWidth(a)
    ensures SameMarks(rs, RemoveAt(rs[i - 1 := a], i))
  {
    hide Marks, PrintedWidth, Shows, SameRun;
    var out := RemoveAt(rs[i - 1 := a], i);
    forall p, w ensures w in Marks(rs, p) <==> w in Marks(out, p) {
      if w in Marks(rs, p) {
        var k := MarkIs(rs, p, w);
        MarkIn(out, p, if k < i then k else k - 1);
      }
      if w in Marks(out, p) {
        var k := MarkIs(out, p, w);
        MarkIn(rs, p, if k < i then k else k + 1);
      }
    }
  }

  lemma MergedKept(rs: seq<Range>, i: nat, a: Range)
    requires AllProper(rs) && 0 < i < |rs| && Proper(a) && RunMates(rs, a, rs[i - 1]) && RunMates(rs, a, rs[i])
    requires forall x :: x in Hosts(a) <==> x in Hosts(rs[i - 1]) || x in Hosts(rs[i])
    requires SameMarks(rs, RemoveAt(rs[i - 1 := a], i))
    ensures AllProper(RemoveAt(rs[i - 1 := a], i)) && Kept(rs, RemoveAt(rs[i - 1 := a], i))
  {
    hide Marks, PrintedWidth, Hosts, RunMates;
    var out := RemoveAt(rs[i - 1 := a], i);
    forall k, x | 0 <= k < |rs| && Holds(rs[k], x) ensures InRun(out, rs[k], x) {
      var m := if k < i then k else k - 1;
      MatesSelf(rs, rs[k]);
      assert Holds(out[m], x) && RunMates(rs, out[m], rs[k]);
      SameMates(rs, out, out[m], rs[k]);
    }
  }

  lemma MergedFrom(rs: seq<Range>, i: nat, a: Range)
    requires AllProper(rs) && 0 < i < |rs| && Proper(a) && RunMates(rs, a, rs[i - 1]) && RunMates(rs, a, rs[i])
    requires forall x :: x in Hosts(a) <==> x in Hosts(rs[i - 1]) || x in Hosts(rs[i])
    ensures AllProper(RemoveAt(rs[i - 1 := a], i)) && Kept(RemoveAt(rs[i - 1 := a], i), rs)
  {
    hide Marks, PrintedWidth, Hosts, RunMates;
    var out := RemoveAt(rs[i - 1 := a], i);
    forall m, x | 0 <= m < |out| && Holds(out[m], x) ensures InRun(rs, out[m], x) {
      var k := if m < i - 1 then m else if m >= i then m + 1 else if x in Hosts(rs[i - 1]) then i - 1 else i;
      MatesSelf(rs, rs[k]);
      RunMatesThen(rs, if m == i - 1 then a else rs[k], rs[k], rs[k]);
      assert Holds(rs[k], x) && RunMates(rs, rs[k], out[m]);
    }
  }

  lemma MatesSelf(rs: seq<Range>, r: Range)
    ensures RunMates(rs, r, r)
  {}

  // ---- names left twice ----

  /** A name in two places is repeated. */
  lemma InTwo(rs: seq<Range>, i: nat, j: nat, x: string)
    requires AllProper(rs) && i < j < |rs| && Holds(rs[i], x) && Holds(rs[j], x)
    ensures !Distinct(Expand(rs))
  {
    hide Hosts, Expand, Distinct;
    ExpandAt(rs, j);
    ExpandAt(rs[..j], i);
    assert rs[..j][..i] == rs[..i];
    assert x in Expand(rs[..j]) && x in Hosts(rs[j]) + Expand(rs[j + 1..]);
    InBoth(Expand(rs[..j]), Hosts(rs[j]) + Expand(rs[j + 1..]), x);
    assert Expand(rs) == Expand(rs[..j]) + (Hosts(rs[j]) + Expand(rs[j + 1..]));
  }

  lemma InBoth<T>(a: seq<T>, b: seq<T>, x: T)
    requires x in a && x in b
    ensures !Distinct(a + b)
  {
    var i :| 0 <= i < |a| && a[i] == x;
    var j :| 0 <= j < |b| && b[j] == x;
    assert (a + b)[i] == (a + b)[|a| + j];
  }

  /** Without a name in two ranges no name is repeated. */
  lemma {:induction false} NoneInTwo(rs: seq<Range>)
    requires AllProper(rs)
    requires forall i, j, x :: 0 <= i < j < |rs| && Holds(rs[i], x) ==> !Holds(rs[j], x)
    ensures Distinct(Expand(rs))
  {
    hide Hosts, Expand;
    if rs == [] {
      ExpandNone(rs);
    } else {
      var t := rs[1..];
      ExpandFirst(rs);
      NoneInTwo(t) by { assert forall k :: 0 <= k < |t| ==> t[k] == rs[k + 1]; }
      HostsDistinct(rs[0]);
      forall x | x in Hosts(rs[0]) ensures x !in Expand(t) {
        assert Holds(rs[0], x);
        if x in Expand(t) {
          var k := LaterRangeOf(rs, x);
        }
      }
      DistinctJoin(Hosts(rs[0]), Expand(t));
    }
  }

  lemma DistinctJoin<T>(a: seq<T>, b: seq<T>)
    requires Distinct(a) && Distinct(b) && forall x :: x in a ==> x !in b
    ensures Distinct(a + b)
  {
    var s := a + b;
    forall i, j | 0 <= i < j < |s| ensures s[i] != s[j] {
      assert i < |a| <= j ==> s[i] in a && s[j] in b;
    }
  }

  lemma HostsDistinct(r: Range)
    requires Proper(r)
    ensures Distinct(Hosts(r))
  {
    hide HostName, Hosts;
    assert |Hosts(r)| == Count(r);
    forall i, j | 0 <= i < j < |Hosts(r)| ensures Hosts(r)[i] != Hosts(r)[j] {
      HostAt(r, i);
      HostAt(r, j);
      if Hosts(r)[i] == Hosts(r)[j] {
        NamesDistinct(r.prefix, r.width, r.lo + i, r.width, r.lo + j);
      }
    }
  }

  lemma {:induction false} RangeOf(rs: seq<Range>, x: string) returns (k: nat)
    requires AllProper(rs) && x in Expand(rs)
    ensures k < |rs| && Holds(rs[k], x)
  {
    NotEmpty(rs, x);
    hide Hosts, Expand;
    ExpandFirst(rs);
    if x in Hosts(rs[0]) {
      k := 0;
    } else {
      k := RangeOf(rs[1..], x);
      k := k + 1;
    }
  }

  lemma LaterRangeOf(rs: seq<Range>, x: string) returns (k: nat)
    requires AllProper(rs) && rs != [] && x in Expand(rs[1..])
    ensures 0 < k < |rs| && Holds(rs[k], x)
  {
    k := RangeOf(rs[1..], x);
    k := k + 1;
  }

  lemma NotEmpty(rs: seq<Range>, x: string)
    requires AllProper(rs) && x in Expand(rs)
    ensures rs != []
  {}
}

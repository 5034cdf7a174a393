/** When sorting a list of ranges comes to an assertion that fails. In order, the ranges of
    a prefix fall into runs of ranges with compatible widths. Splitting overlaps in a run
    can move the start of its last range up until it prints wider than the next run. */
module HostRuns {
  import opened Sequences
  import opened Decimal
  import opened HostRange
  import opened HostNames
  import opened HostOrder

  /** The width shows in the lowest suffix. */
  predicate Shows(r: Range) {
    !r.single && VisibleWidth(r.lo, r.width) > 0
  }

  predicate OfPrefix(r: Range, p: string) {
    !r.single && r.prefix == p
  }

  /** A range that shows and has a printed width above the first and up to the second. */
  predicate ParsRuns(d: Range, p: string, above: nat, upTo: nat) {
    OfPrefix(d, p) && Shows(d) && above < PrintedWidth(d) <= upTo
  }

  /** Two ranges of one run that both reach a number as wide as a wider range that shows. */
  predicate Jams(rs: seq<Range>, i: nat, j: nat, k: nat)
    requires i < |rs| && j < |rs| && k < |rs|
  {
    var w := PrintedWidth(rs[k]);
    && i != j && i != k && j != k
    && OfPrefix(rs[i], rs[k].prefix) && OfPrefix(rs[j], rs[k].prefix) && Shows(rs[k])
    && PrintedWidth(rs[i]) <= PrintedWidth(rs[j]) < w
    && DigitCount(rs[i].hi) >= w && DigitCount(rs[j].hi) >= w
    && forall d :: d in rs ==> !ParsRuns(d, rs[k].prefix, PrintedWidth(rs[i]), PrintedWidth(rs[j]))
  }

  ghost predicate Jammed(rs: seq<Range>) {
    exists i, j, k :: 0 <= i < |rs| && 0 <= j < |rs| && 0 <= k < |rs| && Jams(rs, i, j, k)
  }

  // ---- runs and compatibility ----

  /** A wider range is compatible unless its width shows. */
  lemma CompatibleIff(a: Range, b: Range)
    requires !a.single && !b.single && PrintedWidth(a) <= PrintedWidth(b)
    ensures Compatible(a, b) <==> !Shows(b) || PrintedWidth(a) == PrintedWidth(b)
  {
    WidthEquivMeaning(a.lo, a.width, b.lo, b.width);
    var w := if Shows(b) then b.width else if Shows(a) then a.width else 0;
    if !Shows(b) || PrintedWidth(a) == PrintedWidth(b) {
      assert CommonWidth(a.lo, a.width, b.lo, b.width, w);
    }
  }

  lemma AlikeShows(a: Range, b: Range)
    requires Alike(a, b)
    ensures Shows(a) == Shows(b) && PrintedWidth(a) == PrintedWidth(b)
    ensures a.prefix == b.prefix && a.single == b.single && a.lo == b.lo && a.hi == b.hi
  {}

  /** Ranges in order that are of one prefix have only ranges of that prefix between. */
  lemma Between(a: Range, b: Range, c: Range)
    requires Leq(a, b) && Leq(b, c) && PrefixCmp(a, c) == 0
    ensures PrefixCmp(a, b) == 0 == PrefixCmp(b, c)
    ensures WithinRange(a, c) ==> WithinRange(a, b) && WithinRange(b, c)
  {
    PrefixCmpZero(a, c);
    PrefixCmpZero(a, b);
    PrefixCmpZero(b, c);
    StrCmpZero(a.prefix, b.prefix);
    StrCmpZero(b.prefix, c.prefix);
    if StrCmp(a.prefix, b.prefix) <= 0 && StrCmp(b.prefix, c.prefix) <= 0 {
      StrCmpTransitive(a.prefix, b.prefix, c.prefix);
    }
  }

  lemma WithinIs(a: Range, b: Range)
    ensures WithinRange(a, b) <==> !a.single && !b.single && a.prefix == b.prefix
    ensures WithinRange(a, b) && Leq(a, b) ==>
              PrintedWidth(a) <= PrintedWidth(b) && (PrintedWidth(a) == PrintedWidth(b) ==> a.lo <= b.lo)
    ensures WithinRange(a, b) && PrintedWidth(a) < PrintedWidth(b) ==> Leq(a, b)
    ensures WithinRange(a, b) && PrintedWidth(a) == PrintedWidth(b) && a.lo <= b.lo ==> Leq(a, b)
  {
    PrefixCmpZero(a, b);
  }

  lemma {:induction false} OrderedFar(rs: seq<Range>, i: nat, j: nat)
    requires Ordered(rs) && i <= j < |rs|
    ensures Leq(rs[i], rs[j])
    decreases j - i
  {
    hide Leq;
    if i == j {
      KeyOrder(rs[i], rs[i], rs[i]);
    } else {
      OrderedFar(rs, i, j - 1);
      KeyOrder(rs[i], rs[j - 1], rs[j]);
    }
  }

  /** Two ranges in order that share no more than a host at their ends, where their widths
      are compatible. */
  predicate Gap(a: Range, b: Range) {
    WithinRange(a, b) && Compatible(a, b) ==> a.hi <= b.lo
  }

  /** From position i on, neighbours of one prefix and compatible widths share a host at
      their ends at most. */
  predicate GapsFrom(rs: seq<Range>, i: int) {
    forall j :: 0 < j < |rs| && i < j ==> Gap(rs[j - 1], rs[j])
  }

  lemma CompatibleSymmetric(a: Range, b: Range)
    ensures Compatible(a, b) == Compatible(b, a)
  {
    WidthEquivMeaning(a.lo, a.width, b.lo, b.width);
    WidthEquivMeaning(b.lo, b.width, a.lo, a.width);
    assert forall w :: CommonWidth(a.lo, a.width, b.lo, b.width, w) == CommonWidth(b.lo, b.width, a.lo, a.width, w);
  }

  /** Widths that do not show do not count for compatibility. */
  lemma AlikeCompatible(a: Range, b: Range, x: Range, y: Range)
    requires Alike(a, x) && Alike(b, y) && !a.single && !b.single
    ensures Compatible(a, b) == Compatible(x, y)
  {
    hide Compatible, Alike;
    AlikeShows(a, x);
    AlikeShows(b, y);
    if PrintedWidth(a) <= PrintedWidth(b) {
      CompatibleIff(a, b);
      CompatibleIff(x, y);
    } else {
      CompatibleSymmetric(a, b);
      CompatibleSymmetric(x, y);
      CompatibleIff(b, a);
      CompatibleIff(y, x);
    }
  }

  /** Nothing parts the runs of two ranges. */
  ghost predicate OneRun(rs: seq<Range>, a: Range, b: Range) {
    forall d :: d in rs ==> !ParsRuns(d, a.prefix, PrintedWidth(a), PrintedWidth(b))
  }

  /** Without overlaps of neighbours, ranges of one run overlap nowhere. */
  lemma {:induction false} GapsFar(rs: seq<Range>, i: nat, j: nat)
    requires AllProper(rs) && Ordered(rs) && GapsFrom(rs, 0) && i < j < |rs|
    requires WithinRange(rs[i], rs[j]) && OneRun(rs, rs[i], rs[j])
    ensures rs[i].hi <= rs[j].lo
    decreases j - i
  {
    hide Leq, Compatible, PrintedWidth, Shows;
    OrderedFar(rs, i, j - 1);
    Between(rs[i], rs[j - 1], rs[j]);
    WithinIs(rs[i], rs[j - 1]);
    WithinIs(rs[j - 1], rs[j]);
    WithinIs(rs[i], rs[j]);
    CompatibleIff(rs[j - 1], rs[j]);
    assert rs[j] in rs && !ParsRuns(rs[j], rs[i].prefix, PrintedWidth(rs[i]), PrintedWidth(rs[j]));
    assert Gap(rs[j - 1], rs[j]);
    if i < j - 1 {
      GapsFar(rs, i, j - 1);
    }
  }

  /** Neighbours with compatible widths are in one run, in a list in order. */
  lemma CompatibleOneRun(rs: seq<Range>, i: nat)
    requires Ordered(rs) && 0 < i < |rs| && WithinRange(rs[i - 1], rs[i]) && Compatible(rs[i - 1], rs[i])
    ensures OneRun(rs, rs[i - 1], rs[i])
  {
    hide Leq, Compatible;
    var a, b := rs[i - 1], rs[i];
    WithinIs(a, b);
    OrderedFar(rs, i - 1, i);
    CompatibleIff(a, b);
    forall d | d in rs ensures !ParsRuns(d, a.prefix, PrintedWidth(a), PrintedWidth(b)) {
      var k :| 0 <= k < |rs| && rs[k] == d;
      if ParsRuns(d, a.prefix, PrintedWidth(a), PrintedWidth(b)) {
        WithinIs(d, a);
        WithinIs(b, d);
        if k < i { OrderedFar(rs, k, i - 1); } else { OrderedFar(rs, i, k); }
        if b.lo <= d.lo { DigitCountMonotone(b.lo, d.lo); }
      }
    }
  }

  /** Once nothing overlaps, nothing jams. */
  lemma NotJammedAtEnd(rs: seq<Range>)
    requires AllProper(rs) && Ordered(rs) && GapsFrom(rs, 0)
    ensures !Jammed(rs)
  {
    hide Leq, Compatible, Gap;
    forall i, j, k | 0 <= i < |rs| && 0 <= j < |rs| && 0 <= k < |rs| ensures !Jams(rs, i, j, k) {
      if Jams(rs, i, j, k) {
        var p, q := if i < j then i else j, if i < j then j else i;
        WithinIs(rs[p], rs[q]);
        OrderedFar(rs, p, q);
        GapsFar(rs, p, q);
        DigitCountMonotone(rs[p].hi, rs[q].lo);
      }
    }
  }

  lemma UniformNotJammed(rs: seq<Range>)
    requires Uniform(rs)
    ensures !Jammed(rs)
  {
    hide Compatible;
    forall i, j, k | 0 <= i < |rs| && 0 <= j < |rs| && 0 <= k < |rs| ensures !Jams(rs, i, j, k) {
      WithinIs(rs[i], rs[k]);
      if Jams(rs, i, j, k) {
        CompatibleIff(rs[i], rs[k]);
      }
    }
  }

  // ---- counting what reaches ----

  /** The printed widths that show in the ranges of a prefix: where runs begin. */
  function Marks(rs: seq<Range>, p: string): set<nat> {
    set d | d in rs && OfPrefix(d, p) && Shows(d) :: PrintedWidth(d)
  }

  predicate SameRun(marks: set<nat>, x: nat, y: nat) {
    forall s :: s in marks ==> (s <= x <==> s <= y)
  }

  /** A range of the run of x that reaches a number of w digits. */
  predicate Reaches(r: Range, marks: set<nat>, p: string, x: nat, w: nat) {
    OfPrefix(r, p) && SameRun(marks, PrintedWidth(r), x) && DigitCount(r.hi) >= w
  }

  function Tally(rs: seq<Range>, marks: set<nat>, p: string, x: nat, w: nat): nat {
    if rs == [] then 0 else (if Reaches(rs[0], marks, p, x, w) then 1 else 0) + Tally(rs[1..], marks, p, x, w)
  }

  /** Two ranges of the run of x reach the width of a later run. */
  ghost predicate Stuck(rs: seq<Range>, p: string, x: nat, w: nat) {
    w in Marks(rs, p) && x < w && Tally(rs, Marks(rs, p), p, x, w) >= 2
  }

  lemma {:induction false} TallyConcat(a: seq<Range>, b: seq<Range>, marks: set<nat>, p: string, x: nat, w: nat)
    ensures Tally(a + b, marks, p, x, w) == Tally(a, marks, p, x, w) + Tally(b, marks, p, x, w)
  {
    hide Reaches;
    if a == [] {
      assert a + b == b;
    } else {
      assert (a + b)[1..] == a[1..] + b;
      TallyConcat(a[1..], b, marks, p, x, w);
    }
  }

  lemma TallyOne(r: Range, marks: set<nat>, p: string, x: nat, w: nat)
    ensures Tally([r], marks, p, x, w) == if Reaches(r, marks, p, x, w) then 1 else 0
  {
    hide Reaches;
    assert [r][1..] == [];
  }

  lemma {:induction false} TallyNone(rs: seq<Range>, marks: set<nat>, p: string, x: nat, w: nat)
    requires forall r :: r in rs ==> !Reaches(r, marks, p, x, w)
    ensures Tally(rs, marks, p, x, w) == 0
  {
    hide Reaches;
    if rs != [] { TallyNone(rs[1..], marks, p, x, w); }
  }

  lemma {:induction false} TallySome(rs: seq<Range>, marks: set<nat>, p: string, x: nat, w: nat) returns (i: nat)
    requires Tally(rs, marks, p, x, w) >= 1
    ensures i < |rs| && Reaches(rs[i], marks, p, x, w)
  {
    hide Reaches;
    if Reaches(rs[0], marks, p, x, w) {
      i := 0;
    } else {
      i := TallySome(rs[1..], marks, p, x, w);
      i := i + 1;
    }
  }

  lemma {:induction false} TallyPair(rs: seq<Range>, marks: set<nat>, p: string, x: nat, w: nat)
      returns (i: nat, j: nat)
    requires Tally(rs, marks, p, x, w) >= 2
    ensures i < j < |rs| && Reaches(rs[i], marks, p, x, w) && Reaches(rs[j], marks, p, x, w)
  {
    hide Reaches;
    if Reaches(rs[0], marks, p, x, w) {
      i := 0;
      j := TallySome(rs[1..], marks, p, x, w);
    } else {
      i, j := TallyPair(rs[1..], marks, p, x, w);
      i := i + 1;
    }
    j := j + 1;
  }

  lemma TallyTwo(rs: seq<Range>, i: nat, j: nat, marks: set<nat>, p: string, x: nat, w: nat)
    requires i < j < |rs| && Reaches(rs[i], marks, p, x, w) && Reaches(rs[j], marks, p, x, w)
    ensures Tally(rs, marks, p, x, w) >= 2
  {
    hide Reaches, Tally;
    var a, b, c := rs[..i], rs[i + 1..j], rs[j + 1..];
    assert rs == a + [rs[i]] + b + [rs[j]] + c;
    TallyConcat(a + [rs[i]] + b + [rs[j]], c, marks, p, x, w);
    TallyConcat(a + [rs[i]] + b, [rs[j]], marks, p, x, w);
    TallyConcat(a + [rs[i]], b, marks, p, x, w);
    TallyConcat(a, [rs[i]], marks, p, x, w);
    TallyOne(rs[i], marks, p, x, w);
    TallyOne(rs[j], marks, p, x, w);
  }

  lemma MarkIs(rs: seq<Range>, p: string, w: nat) returns (k: nat)
    requires w in Marks(rs, p)
    ensures k < |rs| && OfPrefix(rs[k], p) && Shows(rs[k]) && PrintedWidth(rs[k]) == w
  {
    var d :| d in rs && OfPrefix(d, p) && Shows(d) && PrintedWidth(d) == w;
    k :| 0 <= k < |rs| && rs[k] == d;
  }

  lemma MarkIn(rs: seq<Range>, p: string, k: nat)
    requires k < |rs| && OfPrefix(rs[k], p) && Shows(rs[k])
    ensures PrintedWidth(rs[k]) in Marks(rs, p)
  {}

  /** The two ways to say that a list jams. */
  lemma JammedIsStuck(rs: seq<Range>)
    ensures Jammed(rs) <==> exists p, x, w :: Stuck(rs, p, x, w)
  {
    hide Tally, Marks, Shows, PrintedWidth, DigitCount;
    if Jammed(rs) {
      var i, j, k :| 0 <= i < |rs| && 0 <= j < |rs| && 0 <= k < |rs| && Jams(rs, i, j, k);
      JamSticks(rs, i, j, k);
    }
    if p, x, w :| Stuck(rs, p, x, w) {
      StuckJams(rs, p, x, w);
    }
  }

  lemma JamSticks(rs: seq<Range>, i: nat, j: nat, k: nat)
    requires i < |rs| && j < |rs| && k < |rs| && Jams(rs, i, j, k)
    ensures Stuck(rs, rs[k].prefix, PrintedWidth(rs[j]), PrintedWidth(rs[k]))
  {
    hide Tally, PrintedWidth, DigitCount, VisibleWidth, Marks;
    var p, x, w := rs[k].prefix, PrintedWidth(rs[j]), PrintedWidth(rs[k]);
    var marks := Marks(rs, p);
    MarkIn(rs, p, k);
    forall s | s in marks ensures s <= PrintedWidth(rs[i]) <==> s <= x {
      var d := MarkIs(rs, p, s);
      assert !ParsRuns(rs[d], p, PrintedWidth(rs[i]), x);
    }
    TallyTwo(rs, if i < j then i else j, if i < j then j else i, marks, p, x, w);
  }

  lemma StuckJams(rs: seq<Range>, p: string, x: nat, w: nat)
    requires Stuck(rs, p, x, w)
    ensures Jammed(rs)
  {
    hide Tally, Shows, PrintedWidth, DigitCount, Marks;
    var marks := Marks(rs, p);
    var i, j := TallyPair(rs, marks, p, x, w);
    var k := MarkIs(rs, p, w);
    if PrintedWidth(rs[i]) > PrintedWidth(rs[j]) { i, j := j, i; }
    forall d | d in rs ensures !ParsRuns(d, p, PrintedWidth(rs[i]), PrintedWidth(rs[j])) {
      var m :| 0 <= m < |rs| && rs[m] == d;
      if OfPrefix(d, p) && Shows(d) { MarkIn(rs, p, m); }
    }
    assert Jams(rs, i, j, k);
  }

  // ---- what does not change it ----

  lemma MarksCanons(rs: seq<Range>, p: string)
    ensures Marks(Canons(rs), p) == Marks(rs, p)
  {
    hide Shows, PrintedWidth, Canon;
    var cs := Canons(rs);
    forall i | 0 <= i < |rs|
      ensures OfPrefix(cs[i], p) == OfPrefix(rs[i], p) && Shows(cs[i]) == Shows(rs[i])
              && PrintedWidth(cs[i]) == PrintedWidth(rs[i])
    {
      CanonAlike(rs[i]);
      AlikeShows(cs[i], rs[i]);
    }
    forall w ensures w in Marks(cs, p) <==> w in Marks(rs, p) {
      if w in Marks(cs, p) {
        var k := MarkIs(cs, p, w);
        MarkIn(rs, p, k);
      }
      if w in Marks(rs, p) {
        var k := MarkIs(rs, p, w);
        MarkIn(cs, p, k);
      }
    }
  }

  lemma CanonAlike(r: Range)
    ensures Alike(Canon(r), r)
  {}

  lemma {:induction false} TallyCanons(rs: seq<Range>, marks: set<nat>, p: string, x: nat, w: nat)
    ensures Tally(Canons(rs), marks, p, x, w) == Tally(rs, marks, p, x, w)
  {
    hide PrintedWidth, Canon, SameRun;
    if rs != [] {
      assert Canons(rs)[1..] == Canons(rs[1..]);
      TallyCanons(rs[1..], marks, p, x, w);
      CanonAlike(rs[0]);
      AlikeShows(Canon(rs[0]), rs[0]);
    }
  }

  lemma {:induction false} TallyBag(a: seq<Range>, b: seq<Range>, marks: set<nat>, p: string, x: nat, w: nat)
    requires multiset(a) == multiset(b)
    ensures Tally(a, marks, p, x, w) == Tally(b, marks, p, x, w)
    decreases |a|
  {
    hide Tally, Reaches, RemoveAt;
    if a == [] {
      NothingIn(b);
    } else {
      assert a[0] in multiset(b);
      var j :| 0 <= j < |b| && b[j] == a[0];
      RemoveAtBag(a, 0);
      RemoveAtBag(b, j);
      TallyWithout(a, 0, marks, p, x, w);
      TallyWithout(b, j, marks, p, x, w);
      TallyBag(RemoveAt(a, 0), RemoveAt(b, j), marks, p, x, w);
    }
  }

  lemma NothingIn<T>(s: seq<T>)
    requires multiset(s) == multiset{}
    ensures s == []
  {
    assert |s| == |multiset(s)|;
  }

  lemma TallyWithout(rs: seq<Range>, j: nat, marks: set<nat>, p: string, x: nat, w: nat)
    requires j < |rs|
    ensures |RemoveAt(rs, j)| == |rs| - 1
    ensures Tally(rs, marks, p, x, w) == Tally([rs[j]], marks, p, x, w) + Tally(RemoveAt(rs, j), marks, p, x, w)
  {
    hide Tally;
    var a, b := rs[..j], rs[j + 1..];
    assert rs == a + [rs[j]] + b;
    TallyConcat(a + [rs[j]], b, marks, p, x, w);
    TallyConcat(a, [rs[j]], marks, p, x, w);
    TallyConcat(a, b, marks, p, x, w);
  }

  /** Sorting, and widths that do not show, change nothing about it. */
  lemma JammedRearranged(a: seq<Range>, b: seq<Range>)
    requires Rearranged(a, b)
    ensures Jammed(a) <==> Jammed(b)
  {
    hide Marks, Tally, Jammed, Canons;
    JammedIsStuck(a);
    JammedIsStuck(b);
    forall p, x, w ensures Stuck(a, p, x, w) <==> Stuck(b, p, x, w) {
      MarksCanons(a, p);
      MarksCanons(b, p);
      MarksBag(Canons(a), Canons(b), p);
      TallyCanons(a, Marks(a, p), p, x, w);
      TallyCanons(b, Marks(a, p), p, x, w);
      TallyBag(Canons(a), Canons(b), Marks(a, p), p, x, w);
    }
  }

  lemma MarksBag(a: seq<Range>, b: seq<Range>, p: string)
    requires multiset(a) == multiset(b)
    ensures Marks(a, p) == Marks(b, p)
  {
    forall d ensures d in a <==> d in b {
      assert d in a <==> d in multiset(a);
      assert d in b <==> d in multiset(b);
    }
  }
}

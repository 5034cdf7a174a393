/** Splitting two overlapping ranges where they meet: what becomes of the hosts, that a list
    cannot be split for ever, and what becomes of the order of the list. */
module HostSplits {
  import opened Sequences
  import opened Decimal
  import opened HostRange
  import opened HostNames
  import opened HostOrder
  import opened HostRuns

  // ---- splitting an overlap ----

  function One(r: Range, n: nat): Range {
    r.(lo := n, hi := n)
  }

  /** The single hosts inserted for the numbers from c up to but not including x of an
      overlap c..e: c and e are still in the ranges on either side, once each. */
  function Pieces(r: Range, c: nat, e: nat, x: nat): (ps: seq<Range>)
    requires c <= e
    ensures c < x <= e + 1 ==> |ps| == (x - c - 1) + ((if x <= e then x else e) - c)
    ensures x <= c ==> ps == []
  {
    if x <= c then []
    else
      var y := x - 1;
      Pieces(r, c, e, y) + (if y > c then [One(r, y)] else []) + (if y < e then [One(r, y)] else [])
  }

  /** Single hosts of a range numbered from c up to but not including x, in order. */
  predicate OnesOf(ps: seq<Range>, r: Range, c: nat, x: nat) {
    && (forall i :: 0 <= i < |ps| ==> ps[i] == One(r, ps[i].lo) && c <= ps[i].lo < x)
    && (forall i :: 0 < i < |ps| ==> ps[i - 1].lo <= ps[i].lo)
  }

  lemma {:induction false} PiecesForm(r: Range, c: nat, e: nat, x: nat)
    requires c <= e
    ensures OnesOf(Pieces(r, c, e, x), r, c, x)
  {
    hide OnesOf, Pieces;
    if x <= c {
      NoOnes(r, c, x);
    } else {
      var y := x - 1;
      var ps := Pieces(r, c, e, y);
      var one := if y > c then [One(r, y)] else [];
      PiecesForm(r, c, e, y);
      PiecesLast(r, c, e, x);
      AddOne(ps, r, c, y, y, y > c);
      AddOne(ps + one, r, c, y + 1, y, y < e);
    }
  }

  lemma PiecesLast(r: Range, c: nat, e: nat, x: nat)
    requires c <= e && c < x
    ensures var y := x - 1;
            Pieces(r, c, e, x)
            == Pieces(r, c, e, y) + (if y > c then [One(r, y)] else []) + (if y < e then [One(r, y)] else [])
  {}

  lemma NoOnes(r: Range, c: nat, x: nat)
    ensures OnesOf([], r, c, x)
  {}

  lemma AddOne(ps: seq<Range>, r: Range, c: nat, x: nat, y: nat, add: bool)
    requires OnesOf(ps, r, c, x) && c <= y && y <= x <= y + 1
    ensures OnesOf(ps + (if add then [One(r, y)] else []), r, c, y + 1)
  {
    var out := ps + if add then [One(r, y)] else [];
    forall i | 0 <= i < |out| ensures out[i] == One(r, out[i].lo) && c <= out[i].lo < y + 1 {
      if i < |ps| { assert out[i] == ps[i]; }
    }
    forall i | 0 < i < |out| ensures out[i - 1].lo <= out[i].lo {
      assert out[i - 1] == ps[i - 1];
      if i < |ps| { assert out[i] == ps[i]; }
    }
  }

  lemma OneHosts(r: Range, n: nat)
    requires !r.single
    ensures Proper(One(r, n)) && AllProper([One(r, n)])
    ensures Expand([One(r, n)]) == [HostName(r.prefix, r.width, n)]
  {
    hide Expand, HostName;
    ExpandOne(One(r, n));
    HostAt(One(r, n), 0);
  }

  function Bag(r: Range, lo: nat, end: nat): multiset<string>
    requires lo <= end
  {
    multiset(Names(r.prefix, r.width, lo, end))
  }

  lemma BagSplit(r: Range, lo: nat, mid: nat, end: nat)
    requires lo <= mid <= end
    ensures Bag(r, lo, end) == Bag(r, lo, mid) + Bag(r, mid, end)
  {
    hide Names, HostName;
    NamesSplit(r.prefix, r.width, lo, mid, end);
  }

  lemma BagOne(r: Range, n: nat)
    ensures Bag(r, n, n + 1) == multiset{HostName(r.prefix, r.width, n)}
    ensures Bag(r, n, n) == multiset{}
  {
    hide HostName;
    assert Names(r.prefix, r.width, n, n + 1) == [HostName(r.prefix, r.width, n)];
  }

  lemma PiecesStep(r: Range, c: nat, e: nat, y: nat)
    requires !r.single && c <= y <= e && AllProper(Pieces(r, c, e, y))
    ensures AllProper(Pieces(r, c, e, y + 1))
    ensures multiset(Expand(Pieces(r, c, e, y + 1)))
         == multiset(Expand(Pieces(r, c, e, y)))
          + (if y > c then Bag(r, y, y + 1) else multiset{}) + (if y < e then Bag(r, y, y + 1) else multiset{})
  {
    hide Expand, Names, HostName, Bag;
    var ps, one := Pieces(r, c, e, y), [One(r, y)];
    BagOne(r, y);
    OneHosts(r, y);
    if c < y < e {
      ExpandConcat(ps, one);
      ExpandConcat(ps + one, one);
    } else if c < y || y < e {
      assert Pieces(r, c, e, y + 1) == ps + one;
      ExpandConcat(ps, one);
    } else {
      assert Pieces(r, c, e, y + 1) == ps;
    }
  }

  /** The pieces hold every number of the overlap twice, but its ends once. */
  lemma {:induction false} PiecesHosts(r: Range, c: nat, e: nat, x: nat)
    requires !r.single && c <= e && c < x <= e + 1
    ensures AllProper(Pieces(r, c, e, x))
    ensures multiset(Expand(Pieces(r, c, e, x))) == Bag(r, c + 1, x) + Bag(r, c, if x <= e then x else e)
  {
    hide Expand, Names, HostName, Bag, Pieces;
    var y := x - 1;
    if y == c {
      BagOne(r, c + 1);
      BagOne(r, c);
      ExpandNone(Pieces(r, c, e, c));
      PiecesStep(r, c, e, y);
    } else {
      PiecesHosts(r, c, e, y);
      PiecesStep(r, c, e, y);
      BagSplit(r, c + 1, y, x);
      if y < e {
        BagSplit(r, c, y, x);
      }
    }
  }

  /** The last host that two ranges share. */
  function Joint(a: Range, b: Range): nat {
    if b.hi < a.hi then b.hi else a.hi
  }

  /** Two overlapping ranges after the split: the lower ends at the first common host, the
      upper begins at the last. */
  function SplitRanges(a: Range, b: Range): (s: seq<Range>)
    requires b.lo <= b.hi && b.lo <= a.hi
    ensures |s| >= 2
  {
    var c, e := b.lo, Joint(a, b);
    [a.(hi := c)] + Pieces(a, c, e, e + 1) + [b.(lo := e, hi := if b.hi < a.hi then a.hi else b.hi)]
  }

  /** What the splitting needs: two ranges of one prefix and one width, in order, that
      share more than a single host at the joint. */
  predicate Overlapping(a: Range, b: Range) {
    && !a.single && !b.single && a.prefix == b.prefix && a.width == b.width
    && a.lo <= b.lo <= b.hi && b.lo < a.hi
  }

  /** Splitting keeps every host, as often as it was there. */
  lemma SplitHosts(a: Range, b: Range)
    requires Overlapping(a, b)
    ensures AllProper(SplitRanges(a, b))
    ensures multiset(Expand(SplitRanges(a, b))) == multiset(Hosts(a)) + multiset(Hosts(b))
  {
    hide Expand, Hosts, Bag, Pieces;
    var c, e := b.lo, if b.hi < a.hi then b.hi else a.hi;
    var m := if b.hi < a.hi then a.hi else b.hi;
    var first, last, ps := a.(hi := c), b.(lo := e, hi := m), Pieces(a, c, e, e + 1);
    PiecesHosts(a, c, e, e + 1);
    AroundHosts(first, ps, last);
    BagIs(a, a);
    BagIs(a, b);
    BagIs(a, first);
    BagIs(a, last);
    SplitBags(a, c, e, m);
    SplitBags2(a, c, e, m);
  }

  lemma AroundHosts(first: Range, ps: seq<Range>, last: Range)
    requires Proper(first) && AllProper(ps) && Proper(last)
    ensures AllProper([first] + ps + [last])
    ensures multiset(Expand([first] + ps + [last]))
         == multiset(Hosts(first)) + multiset(Expand(ps)) + multiset(Hosts(last))
  {
    hide Expand, Hosts, Proper;
    ExpandOne(first);
    ExpandOne(last);
    ExpandConcat([first], ps);
    ExpandConcat([first] + ps, [last]);
  }

  /** The hosts of a range, by the prefix and width of another. */
  lemma BagIs(a: Range, r: Range)
    requires Proper(r) && !r.single && r.prefix == a.prefix && r.width == a.width
    ensures multiset(Hosts(r)) == Bag(a, r.lo, r.hi + 1)
  {
    hide Names;
  }

  lemma SplitBags(a: Range, c: nat, e: nat, m: nat)
    requires a.lo <= c <= e <= m
    ensures Bag(a, a.lo, c + 1) + (Bag(a, c + 1, e + 1) + Bag(a, c, e)) + Bag(a, e, m + 1)
         == Bag(a, a.lo, e + 1) + Bag(a, c, m + 1)
  {
    hide Bag;
    BagSplit(a, a.lo, c + 1, e + 1);
    BagSplit(a, c, e, m + 1);
  }

  lemma SplitBags2(a: Range, c: nat, e: nat, m: nat)
    requires a.lo <= c <= e <= m
    ensures Bag(a, a.lo, e + 1) + Bag(a, c, m + 1) == Bag(a, a.lo, m + 1) + Bag(a, c, e + 1)
  {
    hide Bag;
    BagSplit(a, a.lo, e + 1, m + 1);
    BagSplit(a, c, e + 1, m + 1);
  }

  // ---- the measure of the scan ----

  /** Moving a larger hi to the right makes this smaller. */
  function Weight(rs: seq<Range>): nat {
    if rs == [] then 0 else |rs| * rs[0].hi + Weight(rs[1..])
  }

  lemma {:induction false} WeightSwap(rs: seq<Range>, i: nat, a: Range, b: Range)
    requires 0 < i < |rs| && a.hi == rs[i].hi && b.hi == rs[i - 1].hi && a.hi < b.hi
    ensures Weight(rs[i - 1 := a][i := b]) < Weight(rs)
  {
    var out := rs[i - 1 := a][i := b];
    if i == 1 {
      assert out[1..][1..] == rs[1..][1..];
      assert Weight(out) == |rs| * a.hi + ((|rs| - 1) * b.hi + Weight(rs[1..][1..]));
      assert Weight(rs) == |rs| * b.hi + ((|rs| - 1) * a.hi + Weight(rs[1..][1..]));
    } else {
      assert out[1..] == rs[1..][i - 2 := a][i - 1 := b];
      WeightSwap(rs[1..], i - 1, a, b);
    }
  }

  lemma {:induction false} WeightSame(rs: seq<Range>, out: seq<Range>)
    requires |rs| == |out| && forall i :: 0 <= i < |rs| ==> rs[i].hi == out[i].hi
    ensures Weight(rs) == Weight(out)
  {
    if rs != [] {
      WeightSame(rs[1..], out[1..]);
    }
  }

  // ---- one step of the scan ----

  /** A list with one range and its predecessor replaced. */
  function Spliced(rs: seq<Range>, i: nat, mid: seq<Range>): seq<Range>
    requires 0 < i < |rs|
  {
    rs[..i - 1] + mid + rs[i + 1..]
  }

  lemma SplicedHosts(rs: seq<Range>, i: nat, mid: seq<Range>)
    requires AllProper(rs) && AllProper(mid) && 0 < i < |rs|
    requires multiset(Expand(mid)) == multiset(Hosts(rs[i - 1])) + multiset(Hosts(rs[i]))
    ensures AllProper(Spliced(rs, i, mid))
    ensures multiset(Expand(Spliced(rs, i, mid))) == multiset(Expand(rs))
  {
    hide Expand, Hosts;
    var a, b := rs[..i - 1], rs[i + 1..];
    ExpandConcat(a, mid);
    ExpandConcat(a + mid, b);
    ExpandAt(rs, i);
    assert rs[..i - 1 + 1] == rs[..i];
    ExpandTake(rs, i - 1);
  }

  /** The parts of small ranges are small; two parts of two ranges swap the upper bounds. */
  lemma SplitNarrow(a: Range, b: Range)
    requires Overlapping(a, b)
    ensures Proper(a) && Proper(b) && |SplitRanges(a, b)| >= 2
    ensures Narrow([a, b]) ==> Narrow(SplitRanges(a, b))
    ensures var s := SplitRanges(a, b); |s| == 2 ==> s[0].hi == b.hi && s[1].hi == a.hi && b.hi < a.hi
  {
    hide Pieces, Narrow;
    var c, e := b.lo, Joint(a, b);
    PiecesForm(a, c, e, e + 1);
    if Narrow([a, b]) { NarrowParts(a, b, Pieces(a, c, e, e + 1)); }
  }

  lemma NarrowParts(a: Range, b: Range, ps: seq<Range>)
    requires Overlapping(a, b) && Narrow([a, b]) && OnesOf(ps, a, b.lo, Joint(a, b) + 1)
    ensures Narrow([a.(hi := b.lo)] + ps + [b.(lo := Joint(a, b), hi := if b.hi < a.hi then a.hi else b.hi)])
  {
    assert [a, b][0] == a && [a, b][1] == b;
  }

  /** A split keeps the hosts, and either makes the list longer or moves a larger hi to
      the right: the list cannot be split for ever. */
  lemma SplitStep(rs: seq<Range>, i: nat, a: Range, b: Range)
    requires AllProper(rs) && Narrow(rs) && 0 < i < |rs| && Overlapping(a, b)
    requires Alike(rs[i - 1], a) && a == rs[i - 1].(width := a.width)
    requires Alike(rs[i], b) && b == rs[i].(width := b.width)
    ensures var out := Spliced(rs, i, SplitRanges(a, b));
            && AllProper(out) && Narrow(out)
            && multiset(Expand(out)) == multiset(Expand(rs))
            && (|out| > |rs| || (|out| == |rs| && Weight(out) < Weight(rs)))
  {
    hide Expand, Hosts, Canon, Weight, SplitRanges;
    var s := SplitRanges(a, b);
    SplitHosts(a, b);
    CanonHosts(rs[i - 1]);
    CanonHosts(a);
    CanonHosts(rs[i]);
    CanonHosts(b);
    SplicedHosts(rs, i, s);
    SplitNarrow(a, b);
    var out := Spliced(rs, i, s);
    if |s| == 2 {
      WeightSwap(rs, i, s[0], s[1]);
      assert out == rs[i - 1 := s[0]][i := s[1]];
    }
  }

  /** The ranges that a split makes are parts of one range, and in order. */
  lemma SplitInside(a: Range, b: Range)
    requires Overlapping(a, b)
    ensures var s := SplitRanges(a, b); var e := Joint(a, b);
            && s[0] == a.(hi := b.lo) && s[|s| - 1] == b.(lo := e, hi := if b.hi < a.hi then a.hi else b.hi)
            && (forall k :: 0 <= k < |s| ==> s[k] == a.(lo := s[k].lo, hi := s[k].hi) && a.lo <= s[k].lo <= e)
            && (forall k :: 0 <= k < |s| - 1 ==> s[k].hi <= e)
            && Ordered(s)
  {
    hide Leq, Pieces;
    var s := SplitRanges(a, b);
    PiecesForm(a, b.lo, Joint(a, b), Joint(a, b) + 1);
    forall j | 0 < j < |s| ensures Leq(s[j - 1], s[j]) {
      PartsInOrder(a, s[j - 1], s[j]);
    }
  }

  lemma PartsInOrder(a: Range, x: Range, y: Range)
    requires !a.single && x == a.(lo := x.lo, hi := x.hi) && y == a.(lo := y.lo, hi := y.hi) && x.lo <= y.lo
    ensures Leq(x, y)
  {
    WithinIs(x, y);
    DigitCountMonotone(x.lo, y.lo);
  }

  lemma SplitFits(a: Range, b: Range, w: Widths)
    requires Overlapping(a, b) && Fits(a, w)
    ensures AllFit(SplitRanges(a, b), w)
  {
    hide Fits, SplitRanges, Leq;
    SplitInside(a, b);
    var s := SplitRanges(a, b);
    forall k | 0 <= k < |s| ensures Fits(s[k], w) {
      FitsPart(a, s[k].lo, s[k].hi, w);
    }
  }

  /** The next range opens a run that the common hosts reach. */
  predicate Tight(rs: seq<Range>, i: nat, e: nat)
    requires i < |rs|
  {
    && i + 1 < |rs| && WithinRange(rs[i], rs[i + 1]) && !Compatible(rs[i], rs[i + 1])
    && DigitCount(e) >= PrintedWidth(rs[i + 1])
  }

  /** The ranges at k and k + 1 are out of order; behind them all is in order and clear of
      overlaps, so that the scan comes upon these two. */
  predicate Doomed(rs: seq<Range>, k: int) {
    && 0 <= k < |rs| - 1 && WithinRange(rs[k], rs[k + 1]) && !Leq(rs[k], rs[k + 1])
    && (forall j :: k + 1 < j < |rs| ==> Leq(rs[j - 1], rs[j]))
    && GapsFrom(rs, k + 1)
  }

  /** A split in a list in order, clear of overlaps behind it, leaves the list in order, or
      else with two ranges out of order that the scan will come upon. */
  lemma SplitInOrder(rs: seq<Range>, i: nat, a: Range, b: Range)
    requires 0 < i < |rs| && Overlapping(a, b)
    requires Ordered(rs) && GapsFrom(rs, i)
    requires Alike(rs[i - 1], a) && a == rs[i - 1].(width := a.width)
    requires Alike(rs[i], b) && b == rs[i].(width := b.width)
    ensures var s := SplitRanges(a, b); var out := Spliced(rs, i, s);
            && (!Tight(rs, i, Joint(a, b)) ==> Ordered(out))
            && (Tight(rs, i, Joint(a, b)) ==> Doomed(out, i + |s| - 2))
  {
    hide Leq, Canon, SplitRanges, Compatible, DigitCount, PrintedWidth;
    SplitInside(a, b);
    var s := SplitRanges(a, b);
    var out := Spliced(rs, i, s);
    if i > 1 {
      AlikeSameOrder(rs[i - 1], a);
      StartOrder(rs[i - 2], a, s[0]);
    }
    OrderedConcat(rs[..i - 1], s);
    if i + 1 < |rs| {
      assert Gap(rs[i], rs[i + 1]);
      EndOrder(rs[i], b, s[|s| - 1], rs[i + 1], Joint(a, b));
    }
    if Tight(rs, i, Joint(a, b)) {
      var k := i + |s| - 2;
      assert out[k] == s[|s| - 1] && forall j :: k < j < |out| ==> out[j] == rs[j - k + i];
      assert forall j :: i + 1 < j < |rs| ==> Leq(rs[j - 1], rs[j]) && Gap(rs[j - 1], rs[j]);
    } else {
      OrderedConcat(rs[..i - 1] + s, rs[i + 1..]);
    }
  }

  lemma StartOrder(x: Range, a: Range, a': Range)
    requires Leq(x, a) && a' == a.(hi := a'.hi)
    ensures Leq(x, a')
  {}

  /** Where the last of the parts stands to the next range. */
  lemma EndOrder(r: Range, b: Range, last: Range, next: Range, e: nat)
    requires Leq(r, next) && Gap(r, next) && Alike(r, b) && b == r.(width := b.width) && !b.single
    requires last == b.(lo := e, hi := last.hi) && b.lo <= e <= b.hi
    ensures WithinRange(r, next) ==> WithinRange(last, next)
    ensures Leq(last, next) <==>
            !(WithinRange(r, next) && !Compatible(r, next) && DigitCount(e) >= PrintedWidth(next))
  {
    hide Compatible;
    PrefixCmpZero(r, next);
    PrefixCmpZero(last, next);
    WithinIs(r, next);
    WithinIs(last, next);
    DigitCountMonotone(b.lo, e);
    if WithinRange(r, next) {
      CompatibleIff(r, next);
      if e <= next.lo { DigitCountMonotone(e, next.lo); } else { DigitCountMonotone(next.lo, e); }
    }
  }

  // ---- whether the list jams does not change ----

  /** Unless the next range is too close, no run begins where the common hosts reach. */
  lemma Loose(rs: seq<Range>, i: nat, e: nat, s: nat)
    requires 0 < i < |rs| && Ordered(rs) && GapsFrom(rs, i) && !rs[i].single
    requires rs[i].lo <= e <= rs[i].hi && !Tight(rs, i, e)
    requires s in Marks(rs, rs[i].prefix) && PrintedWidth(rs[i]) < s
    ensures DigitCount(e) < s
  {
    hide Leq, Compatible, PrintedWidth, DigitCount, Marks, VisibleWidth;
    var k := MarkIs(rs, rs[i].prefix, s);
    if k <= i {
      OrderedFar(rs, k, i);
      WithinIs(rs[k], rs[i]);
    }
    var q, next := rs[i], rs[i + 1];
    OrderedFar(rs, i, i + 1);
    OrderedFar(rs, i + 1, k);
    PrefixCmpZero(q, rs[k]);
    Between(q, next, rs[k]);
    WithinIs(q, next);
    WithinIs(next, rs[k]);
    if Compatible(q, next) {
      assert Gap(q, next);
      DigitCountMonotone(e, next.lo);
      CompatibleIff(q, next);
      NarrowerPrint(next, rs[k]);
    }
  }

  /** A range whose width does not show prints narrower than a later one that shows. */
  lemma NarrowerPrint(a: Range, b: Range)
    ensures DigitCount(a.lo) <= PrintedWidth(a)
    ensures !a.single && !Shows(a) && Shows(b) && a.lo <= b.lo ==> PrintedWidth(a) < PrintedWidth(b)
  {
    if a.lo <= b.lo { DigitCountMonotone(a.lo, b.lo); }
  }

  /** A part of a range shows only if the range does, and then just like it. */
  lemma PartShows(a: Range, t: Range)
    requires !a.single && t == a.(lo := t.lo, hi := t.hi) && a.lo <= t.lo
    ensures Shows(t) ==> Shows(a) && PrintedWidth(t) == PrintedWidth(a)
    ensures PrintedWidth(a) <= PrintedWidth(t)
    ensures PrintedWidth(t) == PrintedWidth(a) || PrintedWidth(t) == DigitCount(t.lo)
    ensures t.lo == a.lo ==> Shows(t) == Shows(a)
  {
    DigitCountMonotone(a.lo, t.lo);
  }

  /** Parts of a range with its first host among them have its mark, and no other. */
  lemma MarksParts(s: seq<Range>, a: Range, p: string)
    requires !a.single && s != [] && s[0].lo == a.lo
    requires forall k :: 0 <= k < |s| ==> s[k] == a.(lo := s[k].lo, hi := s[k].hi) && a.lo <= s[k].lo
    ensures Marks(s, p) == Marks([a], p)
  {
    hide Shows, PrintedWidth, Marks;
    forall w ensures w in Marks(s, p) <==> w in Marks([a], p) {
      if w in Marks(s, p) {
        var k := MarkIs(s, p, w);
        PartShows(a, s[k]);
        MarkIn([a], p, 0);
      }
      if w in Marks([a], p) {
        var k := MarkIs([a], p, w);
        PartShows(a, s[0]);
        MarkIn(s, p, 0);
      }
    }
  }

  lemma MarksConcat(a: seq<Range>, b: seq<Range>, p: string)
    ensures Marks(a + b, p) == Marks(a, p) + Marks(b, p)
  {
    hide Shows, PrintedWidth;
    assert forall d :: d in a + b <==> d in a || d in b;
  }

  /** The upper of two overlapping ranges has no mark that the lower has not. */
  lemma MarksOverlap(r: Range, q: Range, a: Range, b: Range, p: string)
    requires Overlapping(a, b) && Alike(r, a) && Alike(q, b)
    ensures Marks([r, q], p) == Marks([a], p)
  {
    AlikeShows(r, a);
    AlikeShows(q, b);
    PartShows(a, b.(hi := b.hi));
    hide Shows, PrintedWidth, Marks, Alike;
    forall w ensures w in Marks([r, q], p) <==> w in Marks([a], p) {
      if w in Marks([r, q], p) {
        var k := MarkIs([r, q], p, w);
        MarkIn([a], p, 0);
      }
      if w in Marks([a], p) {
        var k := MarkIs([a], p, w);
        MarkIn([r, q], p, 0);
      }
    }
  }

  lemma MarksSplit(rs: seq<Range>, i: nat, a: Range, b: Range, p: string)
    requires 0 < i < |rs| && Overlapping(a, b) && Alike(rs[i - 1], a) && Alike(rs[i], b)
    ensures Marks(Spliced(rs, i, SplitRanges(a, b)), p) == Marks(rs, p)
  {
    hide Marks, Leq, SplitRanges, Alike;
    SplitInside(a, b);
    var s := SplitRanges(a, b);
    MarksParts(s, a, p);
    MarksOverlap(rs[i - 1], rs[i], a, b, p);
    MarksConcat(rs[..i - 1] + s, rs[i + 1..], p);
    MarksConcat(rs[..i - 1], s, p);
    assert rs == rs[..i - 1] + [rs[i - 1], rs[i]] + rs[i + 1..];
    MarksConcat(rs[..i - 1] + [rs[i - 1], rs[i]], rs[i + 1..], p);
    MarksConcat(rs[..i - 1], [rs[i - 1], rs[i]], p);
  }

  /** Of two overlapping ranges that no run parts, and of their parts, just as many reach
      a later run that the common hosts do not. */
  lemma TallySplit(r: Range, q: Range, a: Range, b: Range, marks: set<nat>, p: string, x: nat, w: nat)
    requires Overlapping(a, b) && Alike(r, a) && Alike(q, b) && w in marks && x < w
    requires p == a.prefix ==>
               forall s :: s in marks && PrintedWidth(a) < s ==> DigitCount(Joint(a, b)) < s && PrintedWidth(b) < s
    ensures Tally(SplitRanges(a, b), marks, p, x, w) == Tally([r, q], marks, p, x, w)
  {
    hide Leq, SplitRanges, Alike, Tally, PrintedWidth, DigitCount, Shows;
    SplitInside(a, b);
    AlikeShows(r, a);
    AlikeShows(q, b);
    var s, e := SplitRanges(a, b), Joint(a, b);
    var first, last := s[..|s| - 1], s[|s| - 1];
    assert s == first + [last];
    TallyConcat(first, [last], marks, p, x, w);
    TallyOne(last, marks, p, x, w);
    assert [r, q] == [r] + [q];
    TallyConcat([r], [q], marks, p, x, w);
    TallyOne(r, marks, p, x, w);
    TallyOne(q, marks, p, x, w);
    forall t | t in first ensures !Reaches(t, marks, p, x, w) {
      ShortOfRun(a, t, marks, p, x, w, e);
    }
    TallyNone(first, marks, p, x, w);
    if p == a.prefix {
      SameRunUpTo(a, b, marks, x, e);
      SameRunUpTo(a, last, marks, x, e);
      DigitCountMonotone(e, last.hi);
      if w <= PrintedWidth(a) {
        assert !SameRun(marks, PrintedWidth(a), x);
      }
    }
  }

  /** Up to the last common host all parts are in one run. */
  lemma SameRunUpTo(a: Range, t: Range, marks: set<nat>, x: nat, e: nat)
    requires !a.single && t == a.(lo := t.lo, hi := t.hi) && a.lo <= t.lo <= e
    requires forall s :: s in marks && PrintedWidth(a) < s ==> DigitCount(e) < s
    ensures SameRun(marks, PrintedWidth(t), x) <==> SameRun(marks, PrintedWidth(a), x)
  {
    PartShows(a, t);
    DigitCountMonotone(t.lo, e);
    hide PrintedWidth, DigitCount;
    forall s | s in marks ensures s <= PrintedWidth(t) <==> s <= PrintedWidth(a) {}
  }

  lemma ShortOfRun(a: Range, t: Range, marks: set<nat>, p: string, x: nat, w: nat, e: nat)
    requires !a.single && t == a.(lo := t.lo, hi := t.hi) && a.lo <= t.lo && t.hi <= e && w in marks && x < w
    requires p == a.prefix ==> forall s :: s in marks && PrintedWidth(a) < s ==> DigitCount(e) < s
    ensures !Reaches(t, marks, p, x, w)
  {
    PartShows(a, t);
    DigitCountMonotone(t.hi, e);
    hide PrintedWidth, DigitCount, Shows;
    if w <= PrintedWidth(t) {
      assert !SameRun(marks, PrintedWidth(t), x);
    }
  }

  /** A split that leaves the list in order changes nothing about whether the list jams,
      and one that does not is of a list that jams. */
  lemma JammedSplit(rs: seq<Range>, i: nat, a: Range, b: Range)
    requires 0 < i < |rs| && Overlapping(a, b) && Compatible(rs[i - 1], rs[i])
    requires Ordered(rs) && GapsFrom(rs, i) && Alike(rs[i - 1], a) && Alike(rs[i], b)
    ensures if Tight(rs, i, Joint(a, b)) then Jammed(rs)
            else Jammed(Spliced(rs, i, SplitRanges(a, b))) <==> Jammed(rs)
  {
    hide Leq, SplitRanges, Alike, Compatible, Tally, Marks, DigitCount, PrintedWidth, Shows, Tight, Jammed, Stuck;
    AlikeShows(rs[i - 1], a);
    AlikeShows(rs[i], b);
    PrefixCmpZero(rs[i - 1], rs[i]);
    CompatibleOneRun(rs, i);
    if Tight(rs, i, Joint(a, b)) {
      TightJams(rs, i, Joint(a, b));
    } else {
      var out := Spliced(rs, i, SplitRanges(a, b));
      JammedIsStuck(rs);
      JammedIsStuck(out);
      forall p, x, w ensures Stuck(out, p, x, w) <==> Stuck(rs, p, x, w) {
        StuckSplit(rs, i, a, b, p, x, w);
      }
    }
  }

  lemma TightJams(rs: seq<Range>, i: nat, e: nat)
    requires 0 < i < |rs| && Ordered(rs) && Tight(rs, i, e) && OneRun(rs, rs[i - 1], rs[i])
    requires WithinRange(rs[i - 1], rs[i]) && e <= rs[i - 1].hi && e <= rs[i].hi
    ensures Jammed(rs)
  {
    hide Leq, Compatible, DigitCount, PrintedWidth, Shows;
    OrderedFar(rs, i - 1, i);
    OrderedFar(rs, i, i + 1);
    WithinIs(rs[i - 1], rs[i]);
    WithinIs(rs[i], rs[i + 1]);
    CompatibleIff(rs[i], rs[i + 1]);
    DigitCountMonotone(e, rs[i - 1].hi);
    DigitCountMonotone(e, rs[i].hi);
    assert Jams(rs, i - 1, i, i + 1);
  }

  lemma StuckSplit(rs: seq<Range>, i: nat, a: Range, b: Range, p: string, x: nat, w: nat)
    requires 0 < i < |rs| && Overlapping(a, b) && !Tight(rs, i, Joint(a, b)) && OneRun(rs, rs[i - 1], rs[i])
    requires Ordered(rs) && GapsFrom(rs, i) && Alike(rs[i - 1], a) && Alike(rs[i], b)
    ensures Stuck(Spliced(rs, i, SplitRanges(a, b)), p, x, w) <==> Stuck(rs, p, x, w)
  {
    hide Leq, SplitRanges, Alike, Compatible, Tally, Marks, DigitCount, PrintedWidth, Shows, Tight;
    AlikeShows(rs[i - 1], a);
    AlikeShows(rs[i], b);
    var marks, s := Marks(rs, p), SplitRanges(a, b);
    MarksSplit(rs, i, a, b, p);
    if w in marks && x < w {
      forall s | p == a.prefix && s in marks && PrintedWidth(a) < s
        ensures DigitCount(Joint(a, b)) < s && PrintedWidth(b) < s
      {
        var k := MarkIs(rs, p, s);
        assert rs[k] in rs && !ParsRuns(rs[k], p, PrintedWidth(a), PrintedWidth(b));
        Loose(rs, i, Joint(a, b), s);
      }
      TallySplit(rs[i - 1], rs[i], a, b, marks, p, x, w);
      TallyConcat(rs[..i - 1] + s, rs[i + 1..], marks, p, x, w);
      TallyConcat(rs[..i - 1], s, marks, p, x, w);
      assert rs == rs[..i - 1] + [rs[i - 1], rs[i]] + rs[i + 1..];
      TallyConcat(rs[..i - 1] + [rs[i - 1], rs[i]], rs[i + 1..], marks, p, x, w);
      TallyConcat(rs[..i - 1], [rs[i - 1], rs[i]], marks, p, x, w);
    }
  }
}

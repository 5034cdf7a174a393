/** hostlist_coalesce, hostlist_collapse and the joining loop of hostlist_uniq. Splitting
    an overlap starts the scan again from the end; that the scan comes to an end, and what
    the lists stand for then, is proved here for every list of ranges. */
module HostCoalesce {
  import opened Sequences
  import opened Decimal
  import opened HostRange
  import opened HostNames
  import opened HostOrder
  import opened HostRuns
  import opened HostSplits

  // ---- the loops ----

  /** The body of the scan for an overlap: cut both ranges back, then insert the common
      hosts one by one between them. */
  method SplitOverlap(rs: seq<Range>, i: nat, a: Range, b: Range, common: Range) returns (out: seq<Range>)
    requires 0 < i < |rs| && Overlapping(a, b) && a.hi <= INT_MAX && b.hi <= INT_MAX
    requires common == a.(lo := b.lo, hi := if b.hi < a.hi then b.hi else a.hi)
    ensures out == Spliced(rs, i, SplitRanges(a, b))
  {
    hide Pieces;
    var hprev, hnext := a, b;
    if common.hi < hprev.hi {
      hnext := hnext.(hi := hprev.hi);
    }
    hprev := hprev.(hi := common.lo);
    hnext := hnext.(lo := common.hi);
    // hprev still holds its lowest host, so the branch that would delete it is dead
    assert !Empty(hprev.lo, hprev.hi);
    PiecesSame(common, a, common.lo, common.hi, common.hi + 1);
    out := InsertCommon(rs[..i - 1] + [hprev], [hnext] + rs[i + 1..], common);
  }

  /** Insert the hosts of the overlap between the lower range, which ends the first part,
      and the upper, which begins the second. */
  method InsertCommon(pre: seq<Range>, post: seq<Range>, common: Range) returns (out: seq<Range>)
    requires pre != [] && post != [] && common.lo <= common.hi
    requires pre[|pre| - 1].hi == common.lo && post[0].lo == common.hi
    ensures out == pre + Pieces(common, common.lo, common.hi, common.hi + 1) + post
  {
    hide Pieces;
    var c, e := common.lo, common.hi;
    var j, n := |pre|, c;
    out := pre + post;
    ghost var ps := Pieces(common, c, e, c);
    while n <= e
      invariant c <= n <= e + 1 && ps == Pieces(common, c, e, n) && j == |pre| + |ps|
      invariant out == pre + ps + post
    {
      var r := common.(lo := n, hi := n);
      PiecesNext(common, c, e, n);
      if n > pre[|pre| - 1].hi {
        InsertBetween(pre, ps, post, r);
        out := out[..j] + [r] + out[j..];
        j := j + 1;
        ps := ps + [r];
      }
      if n < post[0].lo {
        InsertBetween(pre, ps, post, r);
        out := out[..j] + [r] + out[j..];
        j := j + 1;
        ps := ps + [r];
      }
      n := n + 1;
    }
  }

  lemma PiecesNext(r: Range, c: nat, e: nat, n: nat)
    requires c <= n <= e
    ensures Pieces(r, c, e, c) == []
    ensures Pieces(r, c, e, n + 1)
         == Pieces(r, c, e, n) + (if n > c then [One(r, n)] else []) + (if n < e then [One(r, n)] else [])
  {}

  lemma {:induction false} PiecesSame(r: Range, s: Range, c: nat, e: nat, x: nat)
    requires c <= e && r == s.(lo := r.lo, hi := r.hi)
    ensures Pieces(r, c, e, x) == Pieces(s, c, e, x)
  {
    if x > c {
      PiecesSame(r, s, c, e, x - 1);
    }
  }

  lemma InsertBetween<T>(pre: seq<T>, mid: seq<T>, post: seq<T>, r: T)
    ensures var s := pre + mid + post; var j := |pre| + |mid|;
            s[..j] + [r] + s[j..] == pre + (mid + [r]) + post
  {}

  /** What is known in the scan at position i. As long as k is -1 the list is in order, and
      jams if the given list does; else a split has left two ranges out of order at k, which
      the scan has not passed. */
  ghost predicate OnCourse(start: seq<Range>, rs: seq<Range>, i: int, k: int) {
    if k < 0 then Ordered(rs) && GapsFrom(rs, i) && (Jammed(rs) <==> Jammed(start))
    else Doomed(rs, k) && k < i && Jammed(start)
  }

  /** hostlist_coalesce up to the collapse. The answer is false when the assertion on the
      order of two neighbours fails, at which the program aborts; whatever the list, the
      scan ends with the hosts it began with. For a list in order the assertion fails
      exactly if the list jams, and else no two ranges are left overlapping. */
  method Coalesce(rs: seq<Range>, ghost w: Widths) returns (ok: bool, out: seq<Range>)
    requires AllProper(rs) && Narrow(rs)
    ensures AllProper(out) && Narrow(out)
    ensures multiset(Expand(out)) == multiset(Expand(rs))
    ensures Ordered(rs) ==> (ok <==> !Jammed(rs)) && (ok ==> Ordered(out) && GapsFrom(out, 0))
    ensures AllFit(rs, w) ==> AllFit(out, w)
  {
    hide Expand, Hosts, Canon, Leq, Fits, Intersect, SplitRanges, Spliced, Weight, Jammed, Gap, Tight, Ordered, Doomed,
         Compatible, WithinRange, Overlapping;
    ghost var good, fit, k := Ordered(rs), AllFit(rs, w), -1;
    out := rs;
    var i := |out| - 1;
    while i > 0
      invariant AllProper(out) && Narrow(out) && i < |out| + (if |out| == 0 then 1 else 0)
      invariant multiset(Expand(out)) == multiset(Expand(rs))
      invariant good ==> OnCourse(rs, out, i, k)
      invariant fit ==> AllFit(out, w)
      decreases |multiset(Expand(rs))| - |out|, Weight(out), i
    {
      IntersectMeaning(out[i - 1], out[i]);
      if good { Verdict(rs, out, i, k); }
      match Intersect(out[i - 1], out[i])
      case OutOfOrder =>
        return false, out;
      case Apart(a, b) =>
        ApartStep(out, i, a, b, w, fit);
        if good { ApartCourse(rs, out, i, a, b, k); }
        out := out[i - 1 := a][i := b];
        i := i - 1;
      case Overlap(a, b, common) =>
        ghost var before := out;
        out := SplitOverlap(out, i, a, b, common);
        SplitStep(before, i, a, b);
        if fit { SplicedFits(before, i, a, b, w); }
        if good { k := SplitCourse(rs, before, i, a, b); }
        i := |out| - 1;
        assert |multiset(Expand(out))| == |Expand(out)|;
    }
    if good { NotJammedAtEnd(out); }
    return true, out;
  }

  /** hostrange_intersect: the assertion fails when the ranges are out of order, and else the
      ranges come apart exactly if they share no more than one host or no width. */
  lemma IntersectMeaning(a: Range, b: Range)
    requires Proper(a) && Proper(b) && a.lo <= INT_MAX && b.lo <= INT_MAX
    ensures match Intersect(a, b)
            case OutOfOrder => !a.single && !b.single && !Leq(a, b)
            case Apart(a', b') =>
              && Proper(a') && Proper(b') && Alike(a, a') && Alike(b, b')
              && a' == a.(width := a'.width) && b' == b.(width := b'.width)
              && (WithinRange(a, b) ==> Leq(a, b)) && Gap(a, b)
            case Overlap(a', b', common) =>
              && Alike(a, a') && Alike(b, b') && Overlapping(a', b')
              && a' == a.(width := a'.width) && b' == b.(width := b'.width)
              && WithinRange(a, b) && Leq(a, b) && !Gap(a, b)
              && common == a'.(lo := b'.lo, hi := if b'.hi < a'.hi then b'.hi else a'.hi)
  {
    hide Canon, Compatible;
    CmpIsKeyCmp(a, b);
    PrefixCmpZero(a, b);
    if !a.single && !b.single {
      var (c, a1, b1) := Cmp(a, b);
      AlikeCompatible(a, b, a1, b1);
      WidthCombineMeaning(a1, b1);
    }
  }

  /** A list in order passes the assertion, and a list that is not fails it where it is out
      of order, since nothing overlaps before. */
  lemma Verdict(start: seq<Range>, rs: seq<Range>, i: nat, k: int)
    requires OnCourse(start, rs, i, k) && 0 < i < |rs|
    ensures k < 0 ==> Leq(rs[i - 1], rs[i])
    ensures k >= 0 && i == k + 1 ==> WithinRange(rs[i - 1], rs[i]) && !Leq(rs[i - 1], rs[i]) && Jammed(start)
    ensures k >= 0 && i != k + 1 ==> Leq(rs[i - 1], rs[i]) && Gap(rs[i - 1], rs[i])
  {
    hide Leq, Gap, WithinRange, Jammed;
  }

  lemma ApartStep(rs: seq<Range>, i: nat, a: Range, b: Range, w: Widths, fit: bool)
    requires AllProper(rs) && Narrow(rs) && 0 < i < |rs|
    requires Proper(a) && Alike(rs[i - 1], a) && a == rs[i - 1].(width := a.width)
    requires Proper(b) && Alike(rs[i], b) && b == rs[i].(width := b.width)
    requires fit ==> AllFit(rs, w)
    ensures var out := rs[i - 1 := a][i := b];
            && AllProper(out) && Narrow(out) && Expand(out) == Expand(rs) && Weight(out) == Weight(rs)
            && (fit ==> AllFit(out, w))
  {
    hide Expand, Canon, Weight, Fits;
    var out := rs[i - 1 := a][i := b];
    AlikeExpand(rs, out);
    WeightSame(rs, out);
    FitsAlike(rs[i - 1], a, w);
    FitsAlike(rs[i], b, w);
  }

  lemma AlikeGap(a: Range, b: Range, x: Range, y: Range)
    requires Alike(a, x) && Alike(b, y)
    ensures Gap(a, b) == Gap(x, y) && WithinRange(a, b) == WithinRange(x, y) && Leq(a, b) == Leq(x, y)
  {
    AlikeSameOrder(a, x);
    AlikeSameOrder(b, y);
    PrefixCmpZero(a, b);
    PrefixCmpZero(x, y);
    hide Compatible, Leq;
    if !a.single && !b.single { AlikeCompatible(a, b, x, y); }
  }

  /** Where no range overlaps, the scan goes on to the next. */
  lemma ApartCourse(start: seq<Range>, rs: seq<Range>, i: nat, a: Range, b: Range, k: int)
    requires OnCourse(start, rs, i, k) && 0 < i < |rs| && i != k + 1
    requires Alike(rs[i - 1], a) && Alike(rs[i], b) && Gap(rs[i - 1], rs[i])
    ensures OnCourse(start, rs[i - 1 := a][i := b], i - 1, k)
  {
    hide Leq, Gap, WithinRange, Jammed, Alike;
    var out := rs[i - 1 := a][i := b];
    AlikeSelf(rs);
    forall j | 0 < j < |rs|
      ensures Gap(rs[j - 1], rs[j]) == Gap(out[j - 1], out[j])
              && WithinRange(rs[j - 1], rs[j]) == WithinRange(out[j - 1], out[j])
              && Leq(rs[j - 1], rs[j]) == Leq(out[j - 1], out[j])
    {
      AlikeGap(rs[j - 1], rs[j], out[j - 1], out[j]);
    }
    AlikeRearranged(rs, out);
    JammedRearranged(rs, out);
  }

  lemma AlikeSelf(rs: seq<Range>)
    ensures forall j :: 0 <= j < |rs| ==> Alike(rs[j], rs[j])
  {}

  lemma SplicedFits(rs: seq<Range>, i: nat, a: Range, b: Range, w: Widths)
    requires 0 < i < |rs| && Overlapping(a, b) && Alike(rs[i - 1], a) && AllFit(rs, w)
    ensures AllFit(Spliced(rs, i, SplitRanges(a, b)), w)
  {
    hide Fits, SplitRanges, Alike;
    FitsAlike(rs[i - 1], a, w);
    SplitFits(a, b, w);
  }

  /** After a split the scan starts again, with the list in order or on its way to fail. */
  lemma SplitCourse(start: seq<Range>, rs: seq<Range>, i: nat, a: Range, b: Range) returns (k: int)
    requires OnCourse(start, rs, i, -1) && 0 < i < |rs| && Overlapping(a, b)
    requires Alike(rs[i - 1], a) && a == rs[i - 1].(width := a.width)
    requires Alike(rs[i], b) && b == rs[i].(width := b.width)
    requires WithinRange(rs[i - 1], rs[i]) && !Gap(rs[i - 1], rs[i])
    ensures var out := Spliced(rs, i, SplitRanges(a, b)); OnCourse(start, out, |out| - 1, k)
  {
    hide SplitRanges, Leq, Jammed, Alike, Tight, Compatible, WithinRange;
    SplitInOrder(rs, i, a, b);
    JammedSplit(rs, i, a, b);
    k := if Tight(rs, i, Joint(a, b)) then i + |SplitRanges(a, b)| - 2 else -1;
  }

  // ---- joining neighbours that continue one another ----

  predicate NoJoint(a: Range, b: Range) {
    WithinRange(a, b) && Compatible(a, b) ==> a.hi + 1 != b.lo
  }

  predicate NoJointsFrom(rs: seq<Range>, i: int) {
    forall j :: 0 < j < |rs| && i < j ==> NoJoint(rs[j - 1], rs[j])
  }

  /** hostlist_collapse: no host moves. In a list in order without overlaps no two neighbours
      of compatible widths are left that continue one another. */
  method Collapse(rs: seq<Range>, ghost w: Widths) returns (out: seq<Range>)
    requires AllProper(rs) && Narrow(rs)
    ensures AllProper(out) && Narrow(out) && Expand(out) == Expand(rs)
    ensures Ordered(rs) && GapsFrom(rs, 0) ==> Ordered(out) && GapsFrom(out, 0) && NoJointsFrom(out, 0)
    ensures AllFit(rs, w) ==> AllFit(out, w)
  {
    hide Expand, Hosts, Canon, Leq, Fits, Compatible, WidthCombine, Gap;
    ghost var good, fit := Ordered(rs) && GapsFrom(rs, 0), AllFit(rs, w);
    out := rs;
    var i := |out| - 1;
    while i > 0
      invariant AllProper(out) && Narrow(out) && i < |out| + (if |out| == 0 then 1 else 0)
      invariant Expand(out) == Expand(rs)
      invariant good ==> Ordered(out) && GapsFrom(out, 0) && NoJointsFrom(out, i)
      invariant fit ==> AllFit(out, w)
      decreases i
    {
      if PrefixCmp(out[i - 1], out[i]) == 0
         && out[i - 1].hi == (if out[i].lo == 0 then ULONG_MAX else out[i].lo - 1) {
        var (ok, a, b) := WidthCombine(out[i - 1], out[i]);
        CollapseStep(out, i, w, good, fit);
        if ok {
          out := RemoveAt(out[i - 1 := a.(hi := b.hi)], i);
        } else {
          out := out[i - 1 := a][i := b];
        }
      }
      i := i - 1;
    }
  }

  lemma CollapseStep(rs: seq<Range>, i: nat, w: Widths, good: bool, fit: bool)
    requires AllProper(rs) && Narrow(rs) && 0 < i < |rs|
    requires PrefixCmp(rs[i - 1], rs[i]) == 0 && rs[i].lo > 0 && rs[i - 1].hi + 1 == rs[i].lo
    requires good ==> Ordered(rs) && GapsFrom(rs, 0) && NoJointsFrom(rs, i)
    requires fit ==> AllFit(rs, w)
    ensures var (ok, a, b) := WidthCombine(rs[i - 1], rs[i]);
            var out := if ok then RemoveAt(rs[i - 1 := a.(hi := b.hi)], i) else rs[i - 1 := a][i := b];
            && AllProper(out) && Narrow(out) && Expand(out) == Expand(rs)
            && (good ==> Ordered(out) && GapsFrom(out, 0) && NoJointsFrom(out, i - 1))
            && (fit ==> AllFit(out, w))
  {
    hide Expand, Hosts, Canon, Leq, Fits, WidthEquiv, Gap, NoJoint;
    PrefixCmpZero(rs[i - 1], rs[i]);
    WidthCombineMeaning(rs[i - 1], rs[i]);
    var (ok, a, b) := WidthCombine(rs[i - 1], rs[i]);
    if ok {
      JoinedAt(rs, i, a, b);
      FitsAlike(rs[i - 1], a, w);
      if fit { FitsPart(a, a.lo, b.hi, w); }
      if good { JoinedOrder(rs, i, a, a.(hi := b.hi)); }
    } else {
      assert rs[i - 1 := a][i := b] == rs;
      NotCompatible(rs[i - 1], rs[i]);
    }
  }

  lemma NotCompatible(a: Range, b: Range)
    requires !Compatible(a, b)
    ensures NoJoint(a, b)
  {}

  lemma JoinedAt(rs: seq<Range>, i: nat, a: Range, b: Range)
    requires AllProper(rs) && 0 < i < |rs| && Proper(a) && Proper(b)
    requires Alike(rs[i - 1], a) && Alike(rs[i], b) && !a.single && !b.single
    requires a.prefix == b.prefix && a.width == b.width && b.lo == a.hi + 1
    ensures var out := RemoveAt(rs[i - 1 := a.(hi := b.hi)], i);
            AllProper(out) && Expand(out) == Expand(rs)
  {
    hide Expand, Hosts, Canon, HostName, Names;
    var j := a.(hi := b.hi);
    var out := RemoveAt(rs[i - 1 := j], i);
    CanonHosts(rs[i - 1]); CanonHosts(a); CanonHosts(rs[i]); CanonHosts(b);
    assert Hosts(j) == Hosts(a) + Hosts(b) by { JoinedHosts(a, b); }
    ExpandAt(rs, i);
    ExpandTake(rs, i - 1);
    ExpandAt(out, i - 1);
    assert rs[..i - 1 + 1] == rs[..i];
    assert out[..i - 1] == rs[..i - 1] && out[i..] == rs[i + 1..];
  }

  lemma JoinedOrder(rs: seq<Range>, i: nat, a: Range, j: Range)
    requires Ordered(rs) && GapsFrom(rs, 0) && NoJointsFrom(rs, i)
    requires 0 < i < |rs| && WithinRange(rs[i - 1], rs[i])
    requires Alike(rs[i - 1], a) && j == a.(hi := rs[i].hi)
    ensures var out := RemoveAt(rs[i - 1 := j], i); Ordered(out) && GapsFrom(out, 0) && NoJointsFrom(out, i - 1)
  {
    hide Canon, Leq, Gap, NoJoint, Alike, WithinRange;
    if i > 1 { JoinedBefore(rs[i - 2], rs[i - 1], a, j); }
    if i + 1 < |rs| { JoinedBehind(rs[i - 1], rs[i], rs[i + 1], a, j); }
  }

  lemma JoinedBefore(x: Range, r: Range, a: Range, j: Range)
    requires Leq(x, r) && Gap(x, r) && Alike(r, a) && j == a.(hi := j.hi)
    ensures Leq(x, j) && Gap(x, j)
  {
    AlikeSelf([x]);
    AlikeGap(x, r, [x][0], a);
  }

  lemma JoinedBehind(r: Range, q: Range, next: Range, a: Range, j: Range)
    requires WithinRange(r, q) && Leq(r, q) && Leq(q, next) && Gap(q, next) && NoJoint(q, next)
    requires Alike(r, a) && j == a.(hi := q.hi)
    ensures Leq(j, next) && Gap(j, next) && NoJoint(j, next)
  {
    KeyOrder(r, q, next);
    AlikeShows(r, a);
    AlikeSameOrder(r, a);
    PrefixCmpZero(r, q);
    PrefixCmpZero(q, next);
    PrefixCmpZero(j, next);
    hide Compatible, Shows, Alike, DigitCount;
    assert Leq(a, next);
    if WithinRange(j, next) {
      WithinIs(r, q);
      WithinIs(q, next);
      CompatibleIff(q, next);
      CompatibleIff(j, next);
    }
  }
}

/** Lists of ranges in order: what sorting and splitting keep, and when the order of the
    ranges is an order of the hosts. */
module HostOrder {
  import opened Sequences
  import opened Decimal
  import opened HostRange
  import opened HostNames

  /** Lowest suffixes small enough for hostrange_cmp to subtract as ints. */
  predicate Low(rs: seq<Range>) {
    forall i :: 0 <= i < |rs| ==> rs[i].lo <= INT_MAX
  }

  /** All suffixes as small as that, since a split makes any of them a lowest one. */
  predicate Narrow(rs: seq<Range>) {
    forall i :: 0 <= i < |rs| ==> rs[i].lo <= INT_MAX && rs[i].hi <= INT_MAX
  }

  predicate Ordered(rs: seq<Range>) {
    forall j :: 0 < j < |rs| ==> Leq(rs[j - 1], rs[j])
  }

  lemma OrderedConcat(a: seq<Range>, b: seq<Range>)
    requires Ordered(a) && Ordered(b)
    requires a != [] && b != [] ==> Leq(a[|a| - 1], b[0])
    ensures Ordered(a + b)
  {
    hide Leq;
    var s := a + b;
    forall j | 0 < j < |s| ensures Leq(s[j - 1], s[j]) {
      if j < |a| {
        assert s[j - 1] == a[j - 1] && s[j] == a[j];
      } else if j == |a| {
        assert s[j - 1] == a[|a| - 1] && s[j] == b[0];
      } else {
        assert s[j - 1] == b[j - |a| - 1] && s[j] == b[j - |a|];
      }
    }
  }

  // ---- one padding width for each prefix ----

  /** The ranges of one prefix can all be printed at one width. */
  predicate Uniform(rs: seq<Range>) {
    forall i, j :: 0 <= i < |rs| && 0 <= j < |rs| && WithinRange(rs[i], rs[j]) ==>
      Compatible(rs[i], rs[j])
  }

  /** A width for every prefix. */
  type Widths = string -> nat

  ghost predicate Fits(r: Range, w: Widths) {
    r.single || Pad(r.lo, r.width) == Pad(r.lo, w(r.prefix))
  }

  ghost predicate AllFit(rs: seq<Range>, w: Widths) {
    forall i :: 0 <= i < |rs| ==> Fits(rs[i], w)
  }

  /** The first width that shows in a range of the prefix. */
  function ShownWidth(rs: seq<Range>, prefix: string): (w: nat)
    ensures w > 0 ==> exists i :: 0 <= i < |rs| && !rs[i].single && rs[i].prefix == prefix
                             && rs[i].width == w == VisibleWidth(rs[i].lo, rs[i].width)
    ensures w == 0 ==> forall i :: 0 <= i < |rs| && !rs[i].single && rs[i].prefix == prefix ==>
                             VisibleWidth(rs[i].lo, rs[i].width) == 0
  {
    if rs == [] then 0
    else if !rs[0].single && rs[0].prefix == prefix && rs[0].width > DigitCount(rs[0].lo) then rs[0].width
    else
      var w := ShownWidth(rs[1..], prefix);
      assert forall i :: 0 <= i < |rs[1..]| ==> rs[1..][i] == rs[i + 1];
      w
  }

  /** Pairwise compatible ranges fit one width for each prefix: the one that shows. */
  lemma UniformFits(rs: seq<Range>)
    requires Uniform(rs)
    ensures AllFit(rs, p => ShownWidth(rs, p))
  {
    forall i | 0 <= i < |rs| && !rs[i].single
      ensures Pad(rs[i].lo, rs[i].width) == Pad(rs[i].lo, ShownWidth(rs, rs[i].prefix))
    {
      var w := ShownWidth(rs, rs[i].prefix);
      if w > 0 {
        var k :| 0 <= k < |rs| && !rs[k].single && rs[k].prefix == rs[i].prefix
                 && rs[k].width == w == VisibleWidth(rs[k].lo, rs[k].width);
        PrefixCmpZero(rs[i], rs[k]);
        assert WithinRange(rs[i], rs[k]);
      }
    }
  }

  /** Ranges of one prefix that fit are compatible, and ordered by their lowest suffix. */
  lemma FitOrder(a: Range, b: Range, w: Widths)
    requires Fits(a, w) && Fits(b, w) && WithinRange(a, b)
    ensures Compatible(a, b) && (Leq(a, b) <==> a.lo <= b.lo)
  {
    PrefixCmpZero(a, b);
    WidthEquivMeaning(a.lo, a.width, b.lo, b.width);
    assert CommonWidth(a.lo, a.width, b.lo, b.width, w(a.prefix));
    if a.lo <= b.lo { DigitCountMonotone(a.lo, b.lo); } else { DigitCountMonotone(b.lo, a.lo); }
  }

  lemma FitsAlike(a: Range, b: Range, w: Widths)
    requires Alike(a, b)
    ensures Fits(a, w) <==> Fits(b, w)
  {}

  /** A part of a range that fits also fits. */
  lemma FitsPart(a: Range, lo: nat, hi: nat, w: Widths)
    requires Fits(a, w) && !a.single && a.lo <= lo
    ensures Fits(a.(lo := lo, hi := hi), w)
  {
    PadMonotone(a.lo, lo, a.width, w(a.prefix));
  }

  // ---- rearranging ranges ----

  ghost function Canons(rs: seq<Range>): (cs: seq<Range>)
    ensures |cs| == |rs| && forall i :: 0 <= i < |rs| ==> cs[i] == Canon(rs[i])
  {
    seq(|rs|, i requires 0 <= i < |rs| => Canon(rs[i]))
  }

  /** The same ranges in some order, up to widths that do not show. */
  ghost predicate Rearranged(a: seq<Range>, b: seq<Range>) {
    multiset(Canons(a)) == multiset(Canons(b))
  }

  lemma AlikeRearranged(a: seq<Range>, b: seq<Range>)
    requires |a| == |b| && forall j :: 0 <= j < |a| ==> Alike(a[j], b[j])
    ensures Rearranged(a, b)
  {
    hide Canon;
    forall j | 0 <= j < |a| ensures Canons(a)[j] == Canons(b)[j] {
      assert Alike(a[j], b[j]);
    }
    assert Canons(a) == Canons(b);
  }

  lemma RearrangedMember(a: seq<Range>, b: seq<Range>, i: nat) returns (j: nat)
    requires Rearranged(a, b) && i < |a|
    ensures j < |b| && Alike(a[i], b[j])
  {
    assert Canons(a)[i] in multiset(Canons(b));
    j :| 0 <= j < |b| && Canons(b)[j] == Canons(a)[i];
  }

  lemma RearrangedFits(a: seq<Range>, b: seq<Range>, w: Widths)
    requires Rearranged(a, b) && AllFit(b, w)
    ensures AllFit(a, w)
  {
    forall i | 0 <= i < |a| ensures Fits(a[i], w) {
      var j := RearrangedMember(a, b, i);
      FitsAlike(a[i], b[j], w);
    }
  }

  lemma CanonsInsert(a: seq<Range>, k: nat, r: Range)
    requires k <= |a|
    ensures multiset(Canons(a[..k] + [r] + a[k..])) == multiset(Canons(a)) + multiset{Canon(r)}
  {
    hide Canon;
    assert Canons(a[..k] + [r] + a[k..]) == Canons(a)[..k] + [Canon(r)] + Canons(a)[k..];
    assert Canons(a) == Canons(a)[..k] + Canons(a)[k..];
  }

  lemma WithoutOne(rs: seq<Range>, j: nat)
    requires AllProper(rs) && j < |rs|
    ensures AllProper(RemoveAt(rs, j)) && |RemoveAt(rs, j)| == |rs| - 1
    ensures multiset(Expand(rs)) == multiset(Hosts(rs[j])) + multiset(Expand(RemoveAt(rs, j)))
    ensures multiset(Canons(RemoveAt(rs, j))) == multiset(Canons(rs)) - multiset{Canon(rs[j])}
  {
    hide Expand, Canon, Hosts;
    ExpandAt(rs, j);
    ExpandConcat(rs[..j], rs[j + 1..]);
    RemoveAtBag(Canons(rs), j);
    assert Canons(RemoveAt(rs, j)) == RemoveAt(Canons(rs), j);
  }

  lemma RearrangedNarrow(a: seq<Range>, b: seq<Range>)
    requires Rearranged(a, b)
    ensures Narrow(b) ==> Narrow(a)
    ensures Bounded(b) ==> Bounded(a)
  {
    hide Canons;
    forall i | 0 <= i < |a|
      ensures Narrow(b) ==> a[i].lo <= INT_MAX && a[i].hi <= INT_MAX
      ensures Bounded(b) ==> a[i].hi < ULONG_MAX
    {
      var j := RearrangedMember(a, b, i);
      assert a[i].lo == b[j].lo && a[i].hi == b[j].hi;
    }
  }

  /** Rearranging ranges rearranges their hosts. */
  lemma {:induction false} RearrangedHosts(a: seq<Range>, b: seq<Range>)
    requires AllProper(a) && AllProper(b) && Rearranged(a, b)
    ensures multiset(Expand(a)) == multiset(Expand(b))
    decreases |a|
  {
    hide Expand, Canon, Hosts, Canons, RemoveAt;
    assert |a| == |multiset(Canons(a))| == |multiset(Canons(b))| == |b|;
    if a == [] {
      ExpandNone(a);
      ExpandNone(b);
    } else {
      var j := RearrangedMember(a, b, 0);
      WithoutOne(a, 0);
      WithoutOne(b, j);
      RearrangedHosts(RemoveAt(a, 0), RemoveAt(b, j));
      CanonHosts(a[0]);
      CanonHosts(b[j]);
    }
  }

  // ---- a sorting routine in the place of qsort(3) ----

  /** Comparing an element of a list with a range, rewriting both, leaves the list as it
      was but for widths that do not show. */
  lemma CompareAt(rs: seq<Range>, k: nat, x: Range)
    requires AllProper(rs) && Low(rs) && Ordered(rs) && k < |rs|
    requires Proper(x) && x.lo <= INT_MAX
    ensures var (c, a, x') := Cmp(rs[k], x);
            && AllProper(rs[k := a]) && Low(rs[k := a]) && Ordered(rs[k := a])
            && Canons(rs[k := a]) == Canons(rs)
            && Proper(x') && Alike(x, x') && x' == x.(width := x'.width)
            && (forall y :: Leq(y, x') == Leq(y, x) && Leq(x', y) == Leq(x, y))
            && (if c <= 0 then Leq(a, x') else Leq(x', a))
  {
    hide Cmp, Ordered;
    CmpIsKeyCmp(rs[k], x);
    var (c, a, x') := Cmp(rs[k], x);
    AlikeSameOrder(x, x');
    AlikeSameOrder(rs[k], a);
    OrderedAlike(rs, k, a);
    KeyOrder(rs[k], x, x);
    assert Canons(rs[k := a]) == Canons(rs);
  }

  lemma AlikeSameOrder(x: Range, y: Range)
    requires Alike(x, y)
    ensures forall z :: Leq(z, x) == Leq(z, y) && Leq(x, z) == Leq(y, z)
  {}

  lemma OrderedAlike(rs: seq<Range>, k: nat, r: Range)
    requires Ordered(rs) && k < |rs| && Alike(rs[k], r)
    ensures Ordered(rs[k := r])
  {
    AlikeSameOrder(rs[k], r);
    hide Leq, Alike;
  }

  lemma OrderedInsert(rs: seq<Range>, k: nat, x: Range)
    requires Ordered(rs) && k <= |rs|
    requires (k > 0 ==> Leq(rs[k - 1], x)) && (k < |rs| ==> Leq(x, rs[k]))
    ensures Ordered(rs[..k] + [x] + rs[k..])
  {
    hide Leq;
    OrderedConcat(rs[..k], [x]);
    OrderedConcat(rs[..k] + [x], rs[k..]);
  }

  /** Put one range in its place, comparing from the end. */
  method InsertRange(rs: seq<Range>, r: Range) returns (out: seq<Range>)
    requires AllProper(rs) && Low(rs) && Ordered(rs)
    requires Proper(r) && r.lo <= INT_MAX
    ensures AllProper(out) && Low(out) && Ordered(out)
    ensures multiset(Canons(out)) == multiset(Canons(rs)) + multiset{Canon(r)}
  {
    hide Cmp, Leq, Canons, Canon, Ordered;
    out := rs;
    var x, k, placed := r, |rs|, false;
    while k > 0 && !placed
      invariant 0 <= k <= |out|
      invariant AllProper(out) && Low(out) && Ordered(out) && Canons(out) == Canons(rs)
      invariant Proper(x) && Alike(r, x) && x == r.(width := x.width)
      invariant k < |out| ==> Leq(x, out[k])
      invariant placed ==> k > 0 && Leq(out[k - 1], x)
      decreases k, !placed
    {
      CompareAt(out, k - 1, x);
      var (c, a, x') := Cmp(out[k - 1], x);
      out := out[k - 1 := a];
      x := x';
      if c <= 0 {
        placed := true;
      } else {
        k := k - 1;
      }
    }
    OrderedInsert(out, k, x);
    CanonsInsert(out, k, x);
    out := out[..k] + [x] + out[k..];
  }

  /** What the sorting functions need of qsort: the same ranges, in order. The comparison
      rewrites widths all the way through. */
  method SortRanges(rs: seq<Range>) returns (out: seq<Range>)
    requires AllProper(rs) && Low(rs)
    ensures AllProper(out) && Low(out) && Ordered(out)
    ensures Rearranged(out, rs)
  {
    hide Canon;
    out := [];
    var i := 0;
    assert Canons(out) == Canons(rs[..i]);
    while i < |rs|
      invariant 0 <= i <= |rs|
      invariant AllProper(out) && Low(out) && Ordered(out)
      invariant multiset(Canons(out)) == multiset(Canons(rs[..i]))
    {
      out := InsertRange(out, rs[i]);
      CanonsInsert(rs[..i], i, rs[i]);
      assert rs[..i + 1] == rs[..i][..i] + [rs[i]] + rs[..i][i..];
      i := i + 1;
    }
    assert rs[..i] == rs;
  }
}

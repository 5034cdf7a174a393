/** The joining loop of hostlist_uniq, and what ranges in order say about the order of
    their hosts. */
module HostUniq {
  import opened Sequences
  import opened Decimal
  import opened HostRange
  import opened HostNames
  import opened HostOrder
  import opened HostRuns
  import opened HostRepeats

  // ---- hosts as keys ----

  /** A host by its prefix and suffix number. */
  datatype Key = Key(prefix: string, single: bool, num: nat)

  function KeyOf(r: Range, i: nat): Key {
    Key(r.prefix, r.single, if r.single then 0 else r.lo + i)
  }

  function RangeKeys(r: Range): (ks: seq<Key>)
    requires Proper(r)
    ensures |ks| == |Hosts(r)| && forall i :: 0 <= i < |ks| ==> ks[i] == KeyOf(r, i)
  {
    seq(Count(r), i requires 0 <= i < Count(r) => KeyOf(r, i))
  }

  /** The hosts of the ranges, in the order of their names. */
  function Keys(rs: seq<Range>): (ks: seq<Key>)
    requires AllProper(rs)
    ensures |ks| == |Expand(rs)|
  {
    if rs == [] then [] else RangeKeys(rs[0]) + Keys(rs[1..])
  }

  function Text(k: Key, w: Widths): string {
    if k.single then k.prefix else HostName(k.prefix, w(k.prefix), k.num)
  }

  /** Prefix first, then hosts without a suffix, then the number of the suffix. */
  function KeyOrdering(a: Key, b: Key): int {
    var c := StrCmp(a.prefix, b.prefix);
    if c != 0 then c
    else if a.single != b.single then Bit(b.single) - Bit(a.single)
    else a.num - b.num
  }

  predicate Below(a: Key, b: Key, strict: bool) {
    if strict then KeyOrdering(a, b) < 0 else KeyOrdering(a, b) <= 0
  }

  predicate Ascending(ks: seq<Key>, strict: bool) {
    forall i, j :: 0 <= i < j < |ks| ==> Below(ks[i], ks[j], strict)
  }

  /** Two ranges of one prefix and compatible widths share no host and do not continue one
      another. */
  predicate Clear(a: Range, b: Range) {
    PrefixCmp(a, b) == 0 && Compatible(a, b) ==> !a.single && a.hi + 1 < b.lo
  }

  predicate ClearBelow(rs: seq<Range>, i: int) {
    forall j :: 0 < j < |rs| && j < i ==> Clear(rs[j - 1], rs[j])
  }

  lemma BelowTransitive(a: Key, b: Key, c: Key, strict: bool)
    requires Below(a, b, strict) && KeyOrdering(b, c) <= 0
    ensures Below(a, c, strict)
  {
    StrCmpZero(a.prefix, b.prefix);
    StrCmpZero(b.prefix, c.prefix);
    StrCmpZero(a.prefix, c.prefix);
    if StrCmp(a.prefix, b.prefix) <= 0 && StrCmp(b.prefix, c.prefix) <= 0 {
      StrCmpTransitive(a.prefix, b.prefix, c.prefix);
    }
  }

  function First(r: Range): Key { KeyOf(r, 0) }
  function Last(r: Range): Key { Key(r.prefix, r.single, if r.single then 0 else r.hi) }

  /** Of two neighbours in order that fit, all hosts of one come before all of the other. */
  lemma NeighboursBelow(a: Range, b: Range, w: Widths, strict: bool)
    requires Proper(a) && Proper(b) && Leq(a, b) && Fits(a, w) && Fits(b, w)
    requires if strict then Clear(a, b) else Gap(a, b)
    ensures Below(Last(a), First(b), strict)
  {
    PrefixCmpZero(a, b);
    StrCmpZero(a.prefix, b.prefix);
    if WithinRange(a, b) {
      FitOrder(a, b, w);
    } else if PrefixCmp(a, b) == 0 {
      SingleCompatible(a, b, a, b);
    }
  }

  lemma AscendingConcat(a: seq<Key>, b: seq<Key>, strict: bool)
    requires Ascending(a, strict) && Ascending(b, strict)
    requires forall i, j :: 0 <= i < |a| && 0 <= j < |b| ==> Below(a[i], b[j], strict)
    ensures Ascending(a + b, strict)
  {
    hide Below;
  }

  lemma RangeAscends(r: Range, strict: bool)
    requires Proper(r)
    ensures Ascending(RangeKeys(r), strict)
    ensures forall i :: 0 <= i < |RangeKeys(r)| ==>
              KeyOrdering(First(r), RangeKeys(r)[i]) <= 0 && KeyOrdering(RangeKeys(r)[i], Last(r)) <= 0
  {
    hide Hosts, RangeKeys;
    assert |RangeKeys(r)| == Count(r);
    StrCmpZero(r.prefix, r.prefix);
  }

  lemma KeysNone(rs: seq<Range>)
    requires rs == []
    ensures AllProper(rs) && Keys(rs) == []
  {}

  lemma KeysFirst(rs: seq<Range>)
    requires AllProper(rs) && rs != []
    ensures Keys(rs) == RangeKeys(rs[0]) + Keys(rs[1..])
    ensures |RangeKeys(rs[0])| == Count(rs[0])
  {
    hide Expand;
  }

  /** Ranges in order that fit and leave gaps have their hosts in order; strictly, if the
      ranges of a prefix share no host. */
  lemma {:induction false} KeysAscend(rs: seq<Range>, w: Widths, strict: bool)
    requires AllProper(rs) && Ordered(rs) && AllFit(rs, w)
    requires if strict then ClearBelow(rs, |rs|) else GapsFrom(rs, 0)
    ensures Ascending(Keys(rs), strict)
    ensures rs != [] ==> forall i :: 0 <= i < |Keys(rs)| ==> KeyOrdering(First(rs[0]), Keys(rs)[i]) <= 0
  {
    hide Keys, Leq, Fits, Expand, StrCmp, RangeKeys, Hosts, KeyOrdering, Below;
    if rs == [] {
      KeysNone(rs);
    } else {
      var ks, t := RangeKeys(rs[0]), rs[1..];
      KeysFirst(rs);
      KeysAscend(t, w, strict);
      RangeAscends(rs[0], strict);
      if t == [] {
        KeysNone(t);
      } else {
        NeighboursBelow(rs[0], rs[1], w, strict);
        forall i, j | 0 <= i < |ks| && 0 <= j < |Keys(t)|
          ensures Below(ks[i], Keys(t)[j], strict) && KeyOrdering(First(rs[0]), Keys(t)[j]) <= 0
        {
          BelowTransitive(Last(rs[0]), First(rs[1]), Keys(t)[j], strict);
          AcrossBelow(ks[i], Last(rs[0]), Keys(t)[j], strict);
          AcrossBelow(First(rs[0]), Last(rs[0]), Keys(t)[j], strict);
          StrictIsBelow(First(rs[0]), Keys(t)[j], strict);
        }
      }
      AscendingConcat(ks, Keys(t), strict);
    }
  }

  lemma StrictIsBelow(a: Key, b: Key, strict: bool)
    requires Below(a, b, strict)
    ensures KeyOrdering(a, b) <= 0
    ensures strict ==> a != b
  {
    StrCmpZero(a.prefix, b.prefix);
  }

  lemma AcrossBelow(a: Key, b: Key, c: Key, strict: bool)
    requires a.prefix == b.prefix && a.single == b.single && a.num <= b.num && Below(b, c, strict)
    ensures Below(a, c, strict)
  {}

  /** Where widths fit, a key has one text, and the names are the texts of the keys. */
  lemma {:induction false} KeysAreNames(rs: seq<Range>, w: Widths)
    requires AllProper(rs) && AllFit(rs, w)
    ensures forall i :: 0 <= i < |Keys(rs)| ==> Expand(rs)[i] == Text(Keys(rs)[i], w)
  {
    hide Keys, HostName, Names, Hosts, RangeKeys, Expand, Text, KeyOf, Fits;
    if rs == [] {
      KeysNone(rs);
    } else {
      var r, t := rs[0], rs[1..];
      KeysFirst(rs);
      ExpandFirst(rs);
      KeysAreNames(t, w);
      var n := |RangeKeys(r)|;
      forall i | 0 <= i < |Keys(rs)| ensures Expand(rs)[i] == Text(Keys(rs)[i], w) {
        if i < n {
          HostAt(r, i);
          FitText(r, i, w);
          assert Keys(rs)[i] == RangeKeys(r)[i];
        } else {
          assert Keys(rs)[i] == Keys(t)[i - n] && Expand(rs)[i] == Expand(t)[i - n];
        }
      }
    }
  }

  lemma FitText(r: Range, i: nat, w: Widths)
    requires Proper(r) && Fits(r, w) && i < Count(r)
    ensures Text(KeyOf(r, i), w) == if r.single then r.prefix else HostName(r.prefix, r.width, r.lo + i)
  {
    if !r.single {
      PadMonotone(r.lo, r.lo + i, r.width, w(r.prefix));
    }
  }

  // ---- distinct names ----

  /** A range as parsing host names makes it: a single host has no suffix that counts. */
  predicate Parsed(r: Range) {
    Searchable(r) && (r.single ==> HostnameOf(r.prefix).suffix.None?)
  }

  predicate AllParsed(rs: seq<Range>) {
    forall i :: 0 <= i < |rs| ==> Parsed(rs[i])
  }

  predicate ParsedKey(k: Key) {
    if k.single then k.num == 0 && HostnameOf(k.prefix).suffix.None?
    else ProperPrefix(k.prefix) && k.num <= MAX_HOST_SUFFIX
  }

  /** Different hosts have different names. */
  lemma TextInjective(a: Key, b: Key, w: Widths)
    requires ParsedKey(a) && ParsedKey(b) && Text(a, w) == Text(b, w)
    ensures a == b
  {
    hide HostnameOf, HostName;
    if !a.single { HostnameOfHost(a.prefix, w(a.prefix), a.num); }
    if !b.single { HostnameOfHost(b.prefix, w(b.prefix), b.num); }
  }

  lemma {:induction false} KeysParsed(rs: seq<Range>)
    requires AllProper(rs) && AllParsed(rs)
    ensures forall i :: 0 <= i < |Keys(rs)| ==> ParsedKey(Keys(rs)[i])
  {
    if rs != [] {
      assert Keys(rs) == RangeKeys(rs[0]) + Keys(rs[1..]);
      hide Keys, HostnameOf, RangeKeys, Hosts;
      assert |RangeKeys(rs[0])| == Count(rs[0]);
      KeysParsed(rs[1..]);
      assert Parsed(rs[0]);
    }
  }

  /** A sequence has as many members as places exactly if it has no repetitions. */
  lemma {:induction false} DistinctCount<T>(s: seq<T>)
    ensures |set x | x in s| <= |s|
    ensures |set x | x in s| == |s| <==> Distinct(s)
  {
    if s != [] {
      var n := |s| - 1;
      var t, x := s[..n], s[n];
      DistinctCount(t);
      assert s == t + [x];
      if x in t {
        var k :| 0 <= k < n && t[k] == x;
        assert s[k] == s[n];
        assert (set y | y in s) == set y | y in t;
      } else {
        assert (set y | y in s) == (set y | y in t) + {x};
        assert Distinct(s) == Distinct(t);
      }
    }
  }

  lemma RearrangedParsed(a: seq<Range>, b: seq<Range>)
    requires Rearranged(a, b) && AllParsed(b) && AllProper(a)
    ensures AllParsed(a)
  {
    hide HostnameOf;
    forall i | 0 <= i < |a| ensures Parsed(a[i]) {
      var j := RearrangedMember(a, b, i);
      assert Parsed(b[j]);
    }
  }

  /** Ranges in order, fitting and clear of one another name every host once. */
  lemma ClearIsDistinct(rs: seq<Range>, w: Widths)
    requires AllProper(rs) && Ordered(rs) && AllFit(rs, w) && ClearBelow(rs, |rs|) && AllParsed(rs)
    ensures Distinct(Expand(rs))
  {
    hide Expand, Keys, Text, Leq, Fits, Parsed, ParsedKey;
    KeysAscend(rs, w, true);
    KeysAreNames(rs, w);
    KeysParsed(rs);
    var ks := Keys(rs);
    forall i, j | 0 <= i < j < |Expand(rs)| ensures Expand(rs)[i] != Expand(rs)[j] {
      StrictIsBelow(ks[i], ks[j], true);
      if Text(ks[i], w) == Text(ks[j], w) {
        TextInjective(ks[i], ks[j], w);
      }
    }
  }

  // ---- joining ----

  /** Two stretches of numbers that touch name the same hosts as the stretch over both. */
  lemma NamesUnion(prefix: string, width: nat, lo: nat, lo2: nat, end: nat, end2: nat, m: nat)
    requires lo <= lo2 <= end <= m && lo2 <= end2 <= m && (m == end || m == end2)
    ensures forall x :: x in Names(prefix, width, lo, m) <==>
                        x in Names(prefix, width, lo, end) || x in Names(prefix, width, lo2, end2)
  {
    hide HostName, Names;
    NamesSplit(prefix, width, lo, end, m);
    NamesSplit(prefix, width, lo2, end2, m);
    NamesSplit(prefix, width, lo, lo2, m);
    NamesSplit(prefix, width, lo2, end, m);
    NamesSplit(prefix, width, lo, lo2, end);
  }

  /** hostrange_join on ranges in order: joined, the first stands for the hosts of both
      and the result counts those that were in both; left apart, nothing shows. */
  lemma JoinMeaning(a: Range, b: Range)
    requires Proper(a) && Proper(b) && Leq(a, b)
    requires a.lo <= INT_MAX && b.lo <= INT_MAX && |Hosts(b)| <= INT_MAX
    ensures var (dup, a', b') := Join(a, b);
            if dup < 0 then
              && Alike(a, a') && Proper(a') && a' == a.(width := a'.width)
              && Alike(b, b') && Proper(b') && b' == b.(width := b'.width)
              && Clear(a', b')
            else
              && PrefixCmp(a, b) == 0 && Compatible(a, b)
              && Proper(a') && (a'.hi == a.hi || a'.hi == b.hi) && Alike(a', a.(hi := a'.hi))
              && a' == a.(width := a'.width, hi := a'.hi)
              && (forall x :: x in Hosts(a') <==> x in Hosts(a) || x in Hosts(b))
              && |Hosts(a')| + dup == |Hosts(a)| + |Hosts(b)|
  {
    hide HostName, Names, Hosts, WidthEquiv, DigitCount, Canon, AsInt;
    CmpIsKeyCmp(a, b);
    PrefixCmpZero(a, b);
    WidthCombineMeaning(a, b);
    assert |Hosts(b)| == Count(b);
    DupSmall(a, b);
    var (c, a1, b1) := Cmp(a, b);
    if PrefixCmp(a, b) == 0 {
      SingleCompatible(a, b, a1, b1);
      WidthCombineMeaning(a1, b1);
      var (ok, a2, b2) := WidthCombine(a1, b1);
      AlikeThrice(a, a1, a2);
      AlikeThrice(b, b1, b2);
      CanonHosts(a); CanonHosts(a2); CanonHosts(b); CanonHosts(b2);
      if ok && !a.single && a2.hi + 1 >= b2.lo {
        Merged(a2, b2, if a2.hi < b2.hi then b2.hi else a2.hi);
      } else if ok && a.single {
        SameSingle(a2, b2);
      }
    }
  }

  /** The hosts in both are no more than the second has, so that an int can count them. */
  lemma DupSmall(a: Range, b: Range)
    requires Proper(a) && Proper(b) && Count(b) <= INT_MAX
    ensures !b.single ==> AsInt(b.hi - b.lo + 1) == b.hi - b.lo + 1
    ensures !b.single && b.lo <= a.hi < b.hi ==> AsInt(a.hi - b.lo + 1) == a.hi - b.lo + 1
  {
    if !b.single {
      AsIntSmall(b.hi - b.lo + 1);
      if b.lo <= a.hi < b.hi { AsIntSmall(a.hi - b.lo + 1); }
    }
  }

  /** No range has more hosts than the list. */
  lemma CountWithin(rs: seq<Range>, i: nat)
    requires AllProper(rs) && i < |rs|
    ensures |Hosts(rs[i])| <= |Expand(rs)|
  {
    hide Expand, Hosts;
    ExpandAt(rs, i);
  }

  lemma AlikeThrice(a: Range, a1: Range, a2: Range)
    requires Alike(a, a1) && Alike(a1, a2)
    ensures Alike(a, a2)
    ensures a2 == a.(width := a2.width) ==> forall h :: a2.lo <= h ==> Alike(a.(hi := h), a2.(hi := h))
  {}

  lemma SameSingle(a: Range, b: Range)
    requires Proper(a) && Proper(b) && a.single && b.single && a.prefix == b.prefix
    ensures Hosts(a) == Hosts(b) && |Hosts(a)| == 1
  {}

  /** Two ranges that touch and the one over both. */
  lemma Merged(a: Range, b: Range, m: nat)
    requires Proper(a) && Proper(b) && !a.single && !b.single && a.prefix == b.prefix && a.width == b.width
    requires a.lo <= b.lo <= a.hi + 1 && m == if a.hi < b.hi then b.hi else a.hi
    ensures forall x :: x in Hosts(a.(hi := m)) <==> x in Hosts(a) || x in Hosts(b)
    ensures |Hosts(a.(hi := m))| == m + 1 - a.lo && |Hosts(a)| == a.hi + 1 - a.lo && |Hosts(b)| == b.hi + 1 - b.lo
  {
    hide HostName, Names;
    NamesUnion(a.prefix, a.width, a.lo, b.lo, a.hi + 1, b.hi + 1, m + 1);
  }

  lemma SingleCompatible(a: Range, b: Range, a1: Range, b1: Range)
    requires Proper(a) && Proper(b) && Alike(a, a1) && Alike(b, b1) && a.single == b.single
    ensures Compatible(a, b) == Compatible(a1, b1)
    ensures a.single ==> Compatible(a, b)
  {}

  /** Neighbours that stay apart: only widths change. */
  lemma ApartJoin(rs: seq<Range>, i: nat, w: Widths)
    requires AllProper(rs) && Low(rs) && Ordered(rs) && 0 < i < |rs| && Join(rs[i - 1], rs[i]).0 < 0
    requires |Expand(rs)| <= INT_MAX
    ensures var (_, a, b) := Join(rs[i - 1], rs[i]);
            var out := rs[i - 1 := a][i := b];
            && AllProper(out) && Low(out) && Ordered(out) && Expand(out) == Expand(rs)
            && (Bounded(rs) ==> Bounded(out)) && Clear(a, b) && SameRuns(rs, out) && (AllFit(rs, w) ==> AllFit(out, w))
            && (AllParsed(rs) ==> AllParsed(out))
  {
    hide Expand, Hosts, Canon, Leq, Fits, Join, Clear, Compatible, HostnameOf, Alike, SameRuns;
    CountWithin(rs, i);
    JoinMeaning(rs[i - 1], rs[i]);
    var (dup, a, b) := Join(rs[i - 1], rs[i]);
    var out := rs[i - 1 := a][i := b];
    AlikeApart(rs, i, a, b);
    OrderedAlike(rs, i - 1, a);
    OrderedAlike(rs[i - 1 := a], i, b);
    if AllFit(rs, w) {
      FitsAlike(rs[i - 1], a, w);
      FitsAlike(rs[i], b, w);
    }
  }

  lemma AlikeApart(rs: seq<Range>, i: nat, a: Range, b: Range)
    requires AllProper(rs) && 0 < i < |rs| && Proper(a) && Proper(b) && Alike(rs[i - 1], a) && Alike(rs[i], b)
    ensures var out := rs[i - 1 := a][i := b];
            AllProper(out) && Expand(out) == Expand(rs) && SameRuns(rs, out)
  {
    hide Expand, SameRuns, Canon;
    var out := rs[i - 1 := a][i := b];
    AlikeExpand(rs, out);
    AlikeRearranged(rs, out);
    RearrangedRuns(rs, out);
  }

  /** Neighbours that are joined: the hosts in both are counted and lost once. */
  lemma MergedJoin(rs: seq<Range>, i: nat, w: Widths)
    requires AllProper(rs) && Low(rs) && Ordered(rs) && 0 < i < |rs| && Join(rs[i - 1], rs[i]).0 >= 0
    requires |Expand(rs)| <= INT_MAX
    ensures var (dup, a, _) := Join(rs[i - 1], rs[i]);
            var out := RemoveAt(rs[i - 1 := a], i);
            && AllProper(out) && Low(out) && Ordered(out)
            && (forall x :: x in Expand(out) <==> x in Expand(rs))
            && |Expand(out)| + dup == |Expand(rs)|
            && (Bounded(rs) ==> Bounded(out)) && SameRuns(rs, out) && (AllFit(rs, w) ==> AllFit(out, w))
            && (AllParsed(rs) ==> AllParsed(out))
  {
    hide Expand, Hosts, Canon, Leq, Fits, Join, Clear, Compatible, HostnameOf, SameRuns;
    CountWithin(rs, i);
    JoinMeaning(rs[i - 1], rs[i]);
    var (dup, a, b) := Join(rs[i - 1], rs[i]);
    MergedHosts(rs, i, a, dup);
    MergedRuns(rs, i, a);
    var a0 := rs[i - 1].(hi := a.hi);
    OrderedHi(rs, i - 1, a0);
    MergedOrder(rs[i - 1 := a0], i, a);
    assert RemoveAt(rs[i - 1 := a0][i - 1 := a], i) == RemoveAt(rs[i - 1 := a], i);
    if AllFit(rs, w) {
      FitsHi(rs[i - 1], a0, w);
      FitsAlike(a0, a, w);
    }
    if AllParsed(rs) {
      assert Parsed(rs[i - 1]) && Parsed(rs[i]);
      JoinedBound(rs[i - 1], rs[i]);
    }
  }

  lemma MergedOrder(rs: seq<Range>, i: nat, a: Range)
    requires Ordered(rs) && 0 < i < |rs| && Alike(rs[i - 1], a)
    ensures Ordered(RemoveAt(rs[i - 1 := a], i))
  {
    hide Canon;
    AlikeSameOrder(rs[i - 1], a);
    hide Leq;
    if i + 1 < |rs| {
      KeyOrder(rs[i - 1], rs[i], rs[i + 1]);
    }
  }

  lemma FitsHi(a: Range, a': Range, w: Widths)
    requires a' == a.(hi := a'.hi)
    ensures Fits(a', w) == Fits(a, w)
  {}

  lemma OrderedHi(rs: seq<Range>, k: nat, r: Range)
    requires Ordered(rs) && k < |rs| && r == rs[k].(hi := r.hi)
    ensures Ordered(rs[k := r])
  {
    assert forall x :: Leq(x, r) == Leq(x, rs[k]) && Leq(r, x) == Leq(rs[k], x);
    hide Leq;
  }

  lemma JoinedBound(a: Range, b: Range)
    requires Proper(a) && Proper(b) && Leq(a, b) && a.lo <= INT_MAX && b.lo <= INT_MAX
    ensures Join(a, b).1.hi == a.hi || (Join(a, b).1.hi == b.hi && a.single == b.single)
  {
    hide WidthEquiv;
    PrefixCmpZero(a, b);
  }

  /** Merging the range at i into its predecessor, seen from the whole list. */
  lemma MergedHosts(rs: seq<Range>, i: nat, a: Range, dup: nat)
    requires AllProper(rs) && 0 < i < |rs| && Proper(a)
    requires forall x :: x in Hosts(a) <==> x in Hosts(rs[i - 1]) || x in Hosts(rs[i])
    requires |Hosts(a)| + dup == |Hosts(rs[i - 1])| + |Hosts(rs[i])|
    ensures var out := RemoveAt(rs[i - 1 := a], i);
            && AllProper(out)
            && (forall x :: x in Expand(out) <==> x in Expand(rs))
            && |Expand(out)| + dup == |Expand(rs)|
  {
    hide Expand, Hosts;
    var out := RemoveAt(rs[i - 1 := a], i);
    ExpandAt(rs, i);
    ExpandTake(rs, i - 1);
    ExpandAt(out, i - 1);
    assert rs[..i - 1 + 1] == rs[..i];
    assert out[..i - 1] == rs[..i - 1] && out[i - 1 + 1..] == rs[i + 1..];
  }

  /** The loop of hostlist_uniq: no host is lost or made up, and the duplicates joined
      away are counted. Nothing is left to join. */
  method JoinAll(rs: seq<Range>, ghost w: Widths) returns (out: seq<Range>, dups: nat)
    requires AllProper(rs) && Low(rs) && Ordered(rs) && |Expand(rs)| <= INT_MAX
    ensures AllProper(out) && Low(out) && Ordered(out) && (Bounded(rs) ==> Bounded(out))
    ensures forall x :: x in Expand(out) <==> x in Expand(rs)
    ensures |Expand(out)| + dups == |Expand(rs)|
    ensures ClearBelow(out, |out|) && SameRuns(rs, out)
    ensures AllFit(rs, w) ==> AllFit(out, w)
    ensures AllParsed(rs) ==> AllParsed(out)
  {
    hide Expand, Hosts, Canon, Leq, Fits, Join, Clear, Parsed, SameRuns;
    out, dups := rs, 0;
    AlikeRearranged(rs, rs);
    RearrangedRuns(rs, rs);
    var i := 1;
    while i < |out|
      invariant 1 <= i && AllProper(out) && Low(out) && Ordered(out) && (Bounded(rs) ==> Bounded(out))
      invariant forall x :: x in Expand(out) <==> x in Expand(rs)
      invariant |Expand(out)| + dups == |Expand(rs)|
      invariant ClearBelow(out, i) && SameRuns(rs, out)
      invariant AllFit(rs, w) ==> AllFit(out, w)
      invariant AllParsed(rs) ==> AllParsed(out)
      decreases |out| - i
    {
      JoinKeepsClear(out, i);
      ghost var was := out;
      var (dup, a, b) := Join(out[i - 1], out[i]);
      if dup >= 0 {
        MergedJoin(out, i, w);
        out := RemoveAt(out[i - 1 := a], i);
        dups := dups + dup;
      } else {
        ApartJoin(out, i, w);
        out := out[i - 1 := a][i := b];
        i := i + 1;
      }
      SameRunsThen(rs, was, out);
    }
  }

  lemma JoinKeepsClear(rs: seq<Range>, i: nat)
    requires AllProper(rs) && Low(rs) && Ordered(rs) && 0 < i < |rs| && ClearBelow(rs, i)
    requires |Expand(rs)| <= INT_MAX
    ensures var (dup, a, b) := Join(rs[i - 1], rs[i]);
            if dup < 0 then Clear(a, b) ==> ClearBelow(rs[i - 1 := a][i := b], i + 1)
            else ClearBelow(RemoveAt(rs[i - 1 := a], i), i)
  {
    hide Hosts, Canon, Leq, Join, Clear;
    CountWithin(rs, i);
    JoinMeaning(rs[i - 1], rs[i]);
    var (dup, a, b) := Join(rs[i - 1], rs[i]);
    if i > 1 { AlikeClear(rs[i - 2], rs[i - 1], a); }
  }

  lemma AlikeClear(x: Range, a: Range, a': Range)
    requires Proper(x) && Proper(a) && Proper(a') && Clear(x, a) && Alike(a', a.(hi := a'.hi))
    ensures Clear(x, a')
  {
    hide WidthEquiv;
    PrefixCmpZero(x, a);
    PrefixCmpZero(x, a');
    if PrefixCmp(x, a) == 0 {
      if x.single {
        SingleCompatible(x, a, x, a);
      } else {
        AlikeCompatible(x, a.(hi := a'.hi), x, a');
      }
    }
  }

  /** Once neighbours are clear of one another, so are all ranges of one run. */
  lemma {:induction false} ClearFar(rs: seq<Range>, i: nat, j: nat)
    requires AllProper(rs) && Ordered(rs) && ClearBelow(rs, |rs|) && i < j < |rs|
    requires WithinRange(rs[i], rs[j]) && OneRun(rs, rs[i], rs[j])
    ensures rs[i].hi + 1 < rs[j].lo
    decreases j - i
  {
    hide Leq, Compatible, PrintedWidth, Shows;
    OrderedFar(rs, i, j - 1);
    Between(rs[i], rs[j - 1], rs[j]);
    WithinIs(rs[i], rs[j - 1]);
    WithinIs(rs[j - 1], rs[j]);
    WithinIs(rs[i], rs[j]);
    CompatibleIff(rs[j - 1], rs[j]);
    assert rs[j] in rs && !ParsRuns(rs[j], rs[i].prefix, PrintedWidth(rs[i]), PrintedWidth(rs[j]));
    assert Clear(rs[j - 1], rs[j]);
    if i < j - 1 {
      ClearFar(rs, i, j - 1);
    }
  }

  // ---- when names are left twice ----

  lemma SinglesFar(rs: seq<Range>, i: nat, j: nat)
    requires AllProper(rs) && Ordered(rs) && ClearBelow(rs, |rs|) && i < j < |rs| && rs[i].single && rs[j].single
    ensures rs[i].prefix != rs[j].prefix
  {
    hide Leq, Compatible;
    PrefixCmpZero(rs[i], rs[j]);
    if rs[i].prefix == rs[j].prefix {
      OrderedFar(rs, i, j - 1);
      Between(rs[i], rs[j - 1], rs[j]);
      SingleCompatible(rs[j - 1], rs[j], rs[j - 1], rs[j]) by { PrefixCmpZero(rs[j - 1], rs[j]); }
      assert Clear(rs[j - 1], rs[j]);
      PrefixCmpZero(rs[j - 1], rs[j]);
    }
  }

  /** In a list that was sorted and joined, two ranges with a name in common are of
      different runs. */
  lemma HeldByTwo(rs: seq<Range>, i: nat, j: nat, x: string)
    requires AllProper(rs) && Ordered(rs) && ClearBelow(rs, |rs|) && i < j < |rs|
    requires Holds(rs[i], x) && Holds(rs[j], x)
    ensures SharesIn(rs, i, j, x)
  {
    hide Leq, Compatible, PrintedWidth, Marks, Holds, HostName, Clear;
    var a, b := rs[i], rs[j];
    if RunMates(rs, a, b) {
      if a.single {
        SinglesFar(rs, i, j);
      } else {
        var n := NumberHeld(a, x);
        var m := NumberHeld(b, x);
        NamesDistinct(a.prefix, a.width, n, b.width, m);
        WithinIs(a, b);
        OrderedFar(rs, i, j);
        OneRunIsSame(rs, a, b);
        ClearFar(rs, i, j);
      }
    }
  }

  lemma NumberHeld(r: Range, x: string) returns (n: nat)
    requires Proper(r) && !r.single && Holds(r, x)
    ensures r.lo <= n <= r.hi && x == HostName(r.prefix, r.width, n)
  {
    hide HostName;
    var d :| 0 <= d < |Hosts(r)| && Hosts(r)[d] == x;
    n := r.lo + d;
  }

  /** After sorting and joining a name is left twice exactly if two ranges of different runs
      had it in common. */
  lemma DistinctIff(rs: seq<Range>)
    requires AllProper(rs) && Ordered(rs) && ClearBelow(rs, |rs|)
    ensures Distinct(Expand(rs)) <==> !Shared(rs)
  {
    hide Expand, Leq, Clear, Holds, RunMates, Distinct;
    if Shared(rs) {
      var i, j, x :| 0 <= i < |rs| && 0 <= j < |rs| && SharesIn(rs, i, j, x);
      MatesSelf(rs, rs[i]);
      InTwo(rs, if i < j then i else j, if i < j then j else i, x);
    } else {
      forall i, j, x | 0 <= i < j < |rs| && Holds(rs[i], x) ensures !Holds(rs[j], x) {
        if Holds(rs[j], x) { HeldByTwo(rs, i, j, x); }
      }
      NoneInTwo(rs);
    }
  }
}

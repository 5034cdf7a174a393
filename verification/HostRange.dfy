/** One hostrange of a hostlist: a prefix with a range of numeric suffixes, or a
    single host without one. Comparing and combining ranges rewrites their widths,
    so those operations return the ranges they were given along with the answer. */
module HostRange {
  import opened Sequences
  import opened Decimal

  const MAX_HOST_SUFFIX: nat := 0x200_0000
  const INT_MAX: nat := 0x7FFF_FFFF

  datatype Range = Range(prefix: string, lo: nat, hi: nat, width: nat, single: bool)

  function Single(name: string): Range {
    Range(name, 0, 0, 0, true)
  }

  /** What every range in a list looks like: a single host has its numbers at 0,
      and a numbered range is not empty. */
  predicate Proper(r: Range) {
    if r.single then r.lo == r.hi == r.width == 0 else r.lo <= r.hi
  }

  // ---- the names a range stands for ----

  function HostName(prefix: string, width: nat, n: nat): string {
    prefix + Padded(n, width)
  }

  /** The names of the hosts numbered lo up to but not including end. */
  function Names(prefix: string, width: nat, lo: nat, end: nat): (names: seq<string>)
    requires lo <= end
    ensures |names| == end - lo
    ensures forall i :: 0 <= i < |names| ==> names[i] == HostName(prefix, width, lo + i)
  {
    seq(end - lo, i requires 0 <= i < end - lo => HostName(prefix, width, lo + i))
  }

  function Hosts(r: Range): (names: seq<string>)
    requires Proper(r)
    ensures |names| >= 1
  {
    if r.single then [r.prefix] else Names(r.prefix, r.width, r.lo, r.hi + 1)
  }

  lemma HostAt(r: Range, d: nat)
    requires Proper(r) && d < |Hosts(r)|
    ensures Hosts(r)[d] == if r.single then r.prefix else HostName(r.prefix, r.width, r.lo + d)
  {}

  lemma NamesSplit(prefix: string, width: nat, lo: nat, mid: nat, end: nat)
    requires lo <= mid <= end
    ensures Names(prefix, width, lo, end) == Names(prefix, width, lo, mid) + Names(prefix, width, mid, end)
  {}

  lemma JoinedHosts(a: Range, b: Range)
    requires Proper(a) && Proper(b) && !a.single && !b.single
    requires a.prefix == b.prefix && a.width == b.width && b.lo == a.hi + 1
    ensures Hosts(a.(hi := b.hi)) == Hosts(a) + Hosts(b)
  {
    NamesSplit(a.prefix, a.width, a.lo, b.lo, b.hi + 1);
  }

  lemma NamesDistinct(prefix: string, width: nat, n: nat, v: nat, m: nat)
    requires HostName(prefix, width, n) == HostName(prefix, v, m)
    ensures n == m
  {
    assert HostName(prefix, width, n)[|prefix|..] == Padded(n, width);
    assert HostName(prefix, v, m)[|prefix|..] == Padded(m, v);
    PaddedInjective(n, m, width, v);
  }

  // ---- widths ----

  /** Whether a width pads nothing at n, or the width itself when it does. */
  function VisibleWidth(n: nat, width: nat): nat {
    if width > DigitCount(n) then width else 0
  }

  /** The range with an ineffective width set to 0: it stands for the same names, and
      two ranges that differ only in how they came to be compared have the same one. */
  function Canon(r: Range): Range {
    if r.single then r else r.(width := VisibleWidth(r.lo, r.width))
  }

  lemma CanonHosts(r: Range)
    requires Proper(r)
    ensures Proper(Canon(r)) && Hosts(Canon(r)) == Hosts(r)
    ensures Canon(Canon(r)) == Canon(r)
  {
    if !r.single {
      forall i | 0 <= i < |Hosts(r)|
        ensures Hosts(Canon(r))[i] == Hosts(r)[i]
      {
        PadMonotone(r.lo, r.lo + i, r.width, Canon(r).width);
      }
    }
  }

  /** _width_equiv: whether the widths can be made equal, and the widths afterwards. */
  function WidthEquiv(n: nat, wn: nat, m: nat, wm: nat): (bool, nat, nat) {
    var npad, nmpad := Pad(n, wn), Pad(n, wm);
    var mpad, mnpad := Pad(m, wm), Pad(m, wn);
    if npad != nmpad && mpad != mnpad then (false, wn, wm)
    else if npad != nmpad then
      if mpad == mnpad then (true, wn, wn) else (false, wn, wm)
    else
      if npad == nmpad then (true, wm, wm) else (false, wn, wm)
  }

  /** A width that pads both numbers as their own widths do. */
  ghost predicate CommonWidth(n: nat, wn: nat, m: nat, wm: nat, w: nat) {
    Pad(n, w) == Pad(n, wn) && Pad(m, w) == Pad(m, wm)
  }

  /** Success makes the widths equal and changes no printed number from n, or from m, on;
      and it comes about exactly when one width can serve both. */
  lemma WidthEquivMeaning(n: nat, wn: nat, m: nat, wm: nat)
    ensures var (ok, vn, vm) := WidthEquiv(n, wn, m, wm);
            && (ok <==> exists w :: CommonWidth(n, wn, m, wm, w))
            && (ok ==> vn == vm)
            && (!ok ==> vn == wn && vm == wm)
            && (forall k :: k >= n ==> Padded(k, vn) == Padded(k, wn))
            && (forall k :: k >= m ==> Padded(k, vm) == Padded(k, wm))
            && VisibleWidth(n, vn) == VisibleWidth(n, wn)
            && VisibleWidth(m, vm) == VisibleWidth(m, wm)
  {
    var (ok, vn, vm) := WidthEquiv(n, wn, m, wm);
    if ok {
      assert CommonWidth(n, wn, m, wm, vn);
    } else {
      assert forall w :: CommonWidth(n, wn, m, wm, w) ==> w == wn || w == wm;
    }
    forall k | k >= n ensures Padded(k, vn) == Padded(k, wn) { PadMonotone(n, k, vn, wn); }
    forall k | k >= m ensures Padded(k, vm) == Padded(k, wm) { PadMonotone(m, k, vm, wm); }
  }

  predicate Compatible(a: Range, b: Range) {
    WidthEquiv(a.lo, a.width, b.lo, b.width).0
  }

  function WidthCombine(a: Range, b: Range): (bool, Range, Range) {
    var (ok, wa, wb) := WidthEquiv(a.lo, a.width, b.lo, b.width);
    (ok, a.(width := wa), b.(width := wb))
  }

  /** The same range up to a width that does not show. */
  predicate Alike(a: Range, b: Range) {
    Canon(a) == Canon(b)
  }

  lemma WidthCombineMeaning(a: Range, b: Range)
    requires Proper(a) && Proper(b)
    ensures var (ok, a', b') := WidthCombine(a, b);
            && ok == Compatible(a, b)
            && (ok ==> a'.width == b'.width)
            && (!ok ==> a' == a && b' == b)
            && a' == a.(width := a'.width) && b' == b.(width := b'.width)
            && (a.single == b.single ==>
                Proper(a') && Proper(b') && Alike(a, a') && Alike(b, b'))
  {
    WidthEquivMeaning(a.lo, a.width, b.lo, b.width);
  }

  // ---- comparison ----

  /** strcmp, up to the size of a non-zero result. */
  function StrCmp(a: string, b: string): int {
    if a == b == [] then 0
    else if a == [] then -1
    else if b == [] then 1
    else if a[0] != b[0] then a[0] as int - b[0] as int
    else StrCmp(a[1..], b[1..])
  }

  lemma {:induction false} StrCmpZero(a: string, b: string)
    ensures StrCmp(a, b) == 0 <==> a == b
    ensures StrCmp(b, a) == 0 <==> a == b
    ensures StrCmp(a, b) < 0 <==> StrCmp(b, a) > 0
  {
    if a != [] && b != [] && a[0] == b[0] {
      StrCmpZero(a[1..], b[1..]);
      assert a == [a[0]] + a[1..] && b == [b[0]] + b[1..];
    }
  }

  lemma {:induction false} StrCmpTransitive(a: string, b: string, c: string)
    requires StrCmp(a, b) <= 0 && StrCmp(b, c) <= 0
    ensures StrCmp(a, c) <= 0
    ensures StrCmp(a, c) == 0 ==> StrCmp(a, b) == 0 && StrCmp(b, c) == 0
  {
    if a != [] && b != [] && c != [] && a[0] == b[0] == c[0] {
      StrCmpTransitive(a[1..], b[1..], c[1..]);
    }
  }

  function Bit(b: bool): int {
    if b then 1 else 0
  }

  function PrefixCmp(a: Range, b: Range): int {
    var c := StrCmp(a.prefix, b.prefix);
    if c == 0 then Bit(b.single) - Bit(a.single) else c
  }

  lemma PrefixCmpZero(a: Range, b: Range)
    ensures PrefixCmp(a, b) == 0 <==> a.prefix == b.prefix && a.single == b.single
    ensures PrefixCmp(b, a) == 0 <==> a.prefix == b.prefix && a.single == b.single
    ensures PrefixCmp(a, b) < 0 <==> PrefixCmp(b, a) > 0
  {
    StrCmpZero(a.prefix, b.prefix);
  }

  /** hostrange_cmp: the verdict and the two ranges as the comparison leaves them. The
      difference of the suffixes is returned as an int, which is exact up to INT_MAX. */
  function Cmp(a: Range, b: Range): (int, Range, Range)
    requires a.lo <= INT_MAX && b.lo <= INT_MAX
  {
    var c := PrefixCmp(a, b);
    if c != 0 then (c, a, b)
    else
      var (ok, a', b') := WidthCombine(a, b);
      (if ok then a'.lo - b'.lo else a'.width - b'.width, a', b')
  }

  /** How many characters the lowest suffix prints as. */
  function PrintedWidth(r: Range): nat {
    if r.width > DigitCount(r.lo) then r.width else DigitCount(r.lo)
  }

  /** The order that hostrange_cmp sorts by, without side effects: prefix, hosts without
      a suffix first, printed width of the lowest suffix, lowest suffix. */
  function KeyCmp(a: Range, b: Range): int {
    var c := PrefixCmp(a, b);
    if c != 0 then c
    else if PrintedWidth(a) != PrintedWidth(b) then PrintedWidth(a) - PrintedWidth(b)
    else a.lo - b.lo
  }

  predicate Leq(a: Range, b: Range) {
    KeyCmp(a, b) <= 0
  }

  function Sign(x: int): int {
    if x < 0 then -1 else if x == 0 then 0 else 1
  }

  /** The comparison that rewrites widths as it goes decides by the pure key, and what it
      rewrites neither shows in a name nor moves a range in that order. */
  lemma CmpIsKeyCmp(a: Range, b: Range)
    requires Proper(a) && Proper(b) && a.lo <= INT_MAX && b.lo <= INT_MAX
    ensures var (c, a', b') := Cmp(a, b);
            && Sign(c) == Sign(KeyCmp(a, b))
            && Proper(a') && Proper(b') && Alike(a, a') && Alike(b, b')
            && a' == a.(width := a'.width) && b' == b.(width := b'.width)
  {
    PrefixCmpZero(a, b);
    WidthCombineMeaning(a, b);
    if a.lo <= b.lo { DigitCountMonotone(a.lo, b.lo); } else { DigitCountMonotone(b.lo, a.lo); }
  }

  /** The sorting key is a total preorder, whose ties are ranges that begin alike. */
  lemma KeyOrder(a: Range, b: Range, c: Range)
    ensures Leq(a, b) || Leq(b, a)
    ensures Leq(a, b) && Leq(b, c) ==> Leq(a, c)
    ensures KeyCmp(a, b) == 0 ==>
              a.prefix == b.prefix && a.single == b.single && a.lo == b.lo
  {
    PrefixCmpZero(a, b);
    PrefixCmpZero(b, c);
    PrefixCmpZero(a, c);
    if PrefixCmp(a, b) <= 0 && PrefixCmp(b, c) <= 0 {
      StrCmpZero(a.prefix, b.prefix);
      StrCmpZero(b.prefix, c.prefix);
      StrCmpTransitive(a.prefix, b.prefix, c.prefix);
    }
  }

  // ---- taking ranges apart and together ----

  function Count(r: Range): (n: nat)
    requires Proper(r)
    ensures n == |Hosts(r)|
  {
    if r.single then 1 else r.hi - r.lo + 1
  }

  /** hostrange_empty, on the unsigned values hi can take. */
  predicate Empty(lo: nat, hi: nat) {
    hi < lo || hi == ULONG_MAX
  }

  /** hostrange_delete_host: the range that is left, which may be empty, and the upper
      part when n was inside. */
  function DeleteHost(r: Range, n: nat): (Range, Option<Range>)
    requires Proper(r) && !r.single && r.lo <= n <= r.hi
  {
    if n == r.lo then (r.(lo := r.lo + 1), None)
    else if n == r.hi then (r.(hi := r.hi - 1), None)
    else (r.(hi := n - 1), Some(r.(lo := n + 1)))
  }

  /** hostrange_within_range: whether two ranges print inside one pair of brackets. */
  predicate WithinRange(a: Range, b: Range) {
    PrefixCmp(a, b) == 0 && !(a.single || b.single)
  }

  datatype Intersection =
    | OutOfOrder                                     // the assertion on the order fails
    | Apart(a: Range, b: Range)
    | Overlap(a: Range, b: Range, common: Range)

  /** hostrange_intersect: ranges that share one host only are left apart. */
  function Intersect(a: Range, b: Range): Intersection
    requires a.lo <= INT_MAX && b.lo <= INT_MAX
  {
    if a.single || b.single then Apart(a, b)
    else
      var (c, a1, b1) := Cmp(a, b);
      if c > 0 then OutOfOrder
      else if PrefixCmp(a1, b1) == 0 && a1.hi > b1.lo then
        var (ok, a2, b2) := WidthCombine(a1, b1);
        if ok then
          Overlap(a2, b2, a2.(lo := b2.lo, hi := if b2.hi < a2.hi then b2.hi else a2.hi))
        else Apart(a2, b2)
      else Apart(a1, b1)
  }

  /** An unsigned long kept in an int. */
  function AsInt(n: nat): int {
    (n + INT_MAX + 1) % (2 * INT_MAX + 2) - (INT_MAX + 1)
  }

  lemma AsIntSmall(n: nat)
    requires n <= INT_MAX
    ensures AsInt(n) == n
  {}

  /** hostrange_join: -1 when the ranges stay apart, else the number of hosts that both
      held, b being merged into a. */
  function Join(a: Range, b: Range): (r: (int, Range, Range))
    requires Proper(a) && Proper(b) && a.lo <= INT_MAX && b.lo <= INT_MAX
    requires Leq(a, b)
  {
    var (_, a1, b1) := Cmp(a, b);
    if PrefixCmp(a1, b1) != 0 then (-1, a1, b1)
    else
      var (ok, a2, b2) := WidthCombine(a1, b1);
      if !ok then (-1, a2, b2)
      else if a2.single && b2.single then (1, a2, b2)
      else if a2.hi + 1 == b2.lo then (0, a2.(hi := b2.hi), b2)
      else if a2.hi >= b2.lo then
        if a2.hi < b2.hi then (AsInt(a2.hi - b2.lo + 1), a2.(hi := b2.hi), b2)
        else (AsInt(b2.hi - b2.lo + 1), a2, b2)
      else (-1, a2, b2)
  }

  // ---- single host names ----

  /** Where the trailing digits of a name begin (one past host_prefix_end). */
  function PrefixLength(s: string): (n: nat)
    ensures n <= |s| && AllDigits(s[n..]) && (n > 0 ==> !IsDigit(s[n - 1]))
  {
    if |s| > 0 && IsDigit(s[|s| - 1]) then
      var n := PrefixLength(s[..|s| - 1]);
      assert s[n..] == s[..|s| - 1][n..] + [s[|s| - 1]];
      n
    else |s|
  }

  datatype Hostname = Hostname(hostname: string, prefix: string, num: nat, suffix: Option<string>)

  /** hostname_create */
  function HostnameOf(s: string): (hn: Hostname)
    ensures hn.hostname == s
  {
    var n := PrefixLength(s);
    if n == |s| then Hostname(s, s, 0, None)
    else
      var num := Strtoul(s[n..], 0).0;
      if num <= MAX_HOST_SUFFIX then Hostname(s, s[..n], num, Some(s[n..]))
      else Hostname(s, s, num, None)
  }

  /** hostrange_hn_within: the answer, and the range with the width it may have been given. */
  function HnWithin(r: Range, hn: Hostname): (bool, Range) {
    if r.single then (hn.hostname == r.prefix, r)
    else if hn.suffix.None? || r.prefix != hn.prefix then (false, r)
    else if r.lo <= hn.num <= r.hi then
      var (ok, w, _) := WidthEquiv(r.lo, r.width, hn.num, |hn.suffix.value|);
      (ok, r.(width := w))
    else (false, r)
  }

  /** A prefix that parsing a host name could have produced. */
  predicate ProperPrefix(p: string) {
    |p| > 0 ==> !IsDigit(p[|p| - 1])
  }

  /** A range whose hosts can be looked up by name. */
  predicate Searchable(r: Range) {
    Proper(r) && (r.single || (r.hi <= MAX_HOST_SUFFIX && ProperPrefix(r.prefix)))
  }

  lemma {:induction false} PrefixLengthOf(p: string, d: string)
    requires ProperPrefix(p) && AllDigits(d)
    ensures PrefixLength(p + d) == |p|
    decreases |d|
  {
    if d == [] {
      assert p + d == p;
    } else {
      assert (p + d)[..|p + d| - 1] == p + d[..|d| - 1];
      PrefixLengthOf(p, d[..|d| - 1]);
    }
  }

  lemma StrtoulDigits(d: string)
    requires AllDigits(d) && |d| > 0
    ensures Strtoul(d, 0) == (if Value(d) > ULONG_MAX then ULONG_MAX else Value(d), |d|)
  {
    hide Value, DigitsEnd;
    assert d[0..] == d + "";
    DigitsEndOfRun(d, 0, d, "");
    assert d[0..|d|] == d;
    assert IsDigit(d[0]);
  }

  /** Splitting a name at its trailing digits loses nothing. */
  lemma HostnameRebuilt(s: string)
    ensures var hn := HostnameOf(s);
            match hn.suffix
            case None => hn.prefix == s
            case Some(x) => && hn.prefix + x == s && |x| > 0 && AllDigits(x)
                            && hn.num == Value(x) && x == Padded(hn.num, |x|)
                            && hn.num <= MAX_HOST_SUFFIX && ProperPrefix(hn.prefix)
  {
    hide PrefixLength, Strtoul, Padded, Value, AllDigits;
    var n := PrefixLength(s);
    if n < |s| {
      StrtoulDigits(s[n..]);
      DigitsArePadded(s[n..]);
      assert s == s[..n] + s[n..];
      assert n > 0 ==> s[..n][n - 1] == s[n - 1];
    }
  }

  lemma HostnameOfHost(p: string, width: nat, k: nat)
    requires ProperPrefix(p) && k <= MAX_HOST_SUFFIX
    ensures HostnameOf(HostName(p, width, k))
         == Hostname(HostName(p, width, k), p, k, Some(Padded(k, width)))
  {
    var s := HostName(p, width, k);
    PrefixLengthOf(p, Padded(k, width));
    assert s[|p|..] == Padded(k, width) && s[..|p|] == p;
    StrtoulDigits(Padded(k, width));
    ValueOfPadded(k, width);
  }

  predicate HasParts(hn: Hostname, r: Range) {
    && hn.suffix.Some? && hn.prefix == r.prefix && r.lo <= hn.num <= r.hi
    && hn.suffix.value == Padded(hn.num, r.width)
  }

  lemma HostHasParts(r: Range, name: string)
    requires Searchable(r) && !r.single && name in Hosts(r)
    ensures HasParts(HostnameOf(name), r)
  {
    var i :| 0 <= i < |Hosts(r)| && Hosts(r)[i] == name;
    var k := r.lo + i;
    assert name == HostName(r.prefix, r.width, k);
    HostnameOfHost(r.prefix, r.width, k);
  }

  lemma PartsMakeHost(r: Range, hn: Hostname)
    requires Proper(r) && !r.single && HasParts(hn, r)
    requires hn.hostname == hn.prefix + hn.suffix.value
    ensures hn.hostname in Hosts(r)
  {
    assert Hosts(r)[hn.num - r.lo] == HostName(r.prefix, r.width, hn.num);
  }

  /** A suffix of some length is combined with a range just when it is printed alike there. */
  lemma WithinSuffix(r: Range, n: nat, len: nat)
    requires Proper(r) && !r.single && r.lo <= n <= r.hi && len >= DigitCount(n)
    ensures var (ok, w, _) := WidthEquiv(r.lo, r.width, n, len);
            && (ok <==> Padded(n, r.width) == Padded(n, len))
            && Alike(r, r.(width := w))
  {
    WidthEquivMeaning(r.lo, r.width, n, len);
    if Padded(n, r.width) == Padded(n, len) {
      assert CommonWidth(r.lo, r.width, n, len, r.width);
    }
    var w := WidthEquiv(r.lo, r.width, n, len).1;
    if WidthEquiv(r.lo, r.width, n, len).0 {
      assert Padded(n, w) == Padded(n, len) && Padded(n, w) == Padded(n, r.width);
    }
  }

  /** A lookup finds only what is in the range, and all of it if its hosts can be looked up
      by name; it finds the number of the host, and leaves the range standing for the same
      names. */
  lemma HnWithinMeaning(r: Range, name: string)
    requires Proper(r)
    ensures var hn := HostnameOf(name); var (found, r') := HnWithin(r, hn);
            && (found <==> if r.single then name == r.prefix else HasParts(hn, r))
            && (found ==> name in Hosts(r))
            && (Searchable(r) && name in Hosts(r) ==> found)
            && (found && r.single ==> Hosts(r)[0] == name)
            && (found && !r.single ==> hn.suffix.Some? && r.lo <= hn.num <= r.hi && Hosts(r)[hn.num - r.lo] == name)
            && Proper(r') && Alike(r, r') && r' == r.(width := r'.width)
  {
    hide HostnameOf, Padded, DigitCount, WidthEquiv, Canon, Hosts;
    var hn := HostnameOf(name);
    HostnameRebuilt(name);
    if r.single {
      assert Hosts(r) == [r.prefix] by { SingleHosts(r); }
    } else {
      if Searchable(r) && name in Hosts(r) { HostHasParts(r, name); }
      if HasParts(hn, r) { PartsMakeHost(r, hn); }
      if hn.suffix.Some? && r.prefix == hn.prefix && r.lo <= hn.num <= r.hi {
        WithinSuffix(r, hn.num, |hn.suffix.value|);
        assert |Hosts(r)| == Count(r);
        HostAt(r, hn.num - r.lo);
      }
    }
  }

  lemma SingleHosts(r: Range)
    requires Proper(r) && r.single
    ensures Hosts(r) == [r.prefix]
  {}
}

/** hostlist_t: an array of ranges with the count of the hosts in them. Every operation
    is proved against a plain sequence of host names. */
module HostLists {
  import opened Sequences
  import opened Decimal
  import opened HostRange
  import opened HostNames
  import opened HostEntries
  import opened HostOrder
  import opened HostRuns
  import opened HostRepeats
  import opened HostSplits
  import opened HostCoalesce
  import opened HostUniq

  /** The longest name that _hostrange_string returns whole. */
  const NAME_MAX: nat := 78

  /** _hostrange_string, which prints into a fixed buffer. */
  function HostString(r: Range, depth: nat): (s: string)
    requires r.single || |r.prefix| <= NAME_MAX + 1
  {
    var name := if r.single then r.prefix else HostName(r.prefix, r.width, r.lo + depth);
    if |name| > NAME_MAX then name[..NAME_MAX] else name
  }

  /** The range at i holds the host at position n, and its prefix does not fit the buffer
      that its hosts are printed into. */
  ghost predicate OverrunsIn(rs: seq<Range>, i: nat, n: nat)
    requires AllProper(rs) && i < |rs|
  {
    && !rs[i].single && |rs[i].prefix| > NAME_MAX + 1
    && |Expand(rs[..i])| <= n < |Expand(rs[..i + 1])|
  }

  ghost predicate Overruns(rs: seq<Range>, n: nat)
    requires AllProper(rs)
  {
    exists i :: 0 <= i < |rs| && OverrunsIn(rs, i, n)
  }

  /** A position is in one range. */
  lemma OnlyRange(rs: seq<Range>, i: nat, n: nat)
    requires AllProper(rs) && i < |rs| && |Expand(rs[..i])| <= n < |Expand(rs[..i + 1])|
    ensures forall k :: 0 <= k < |rs| && OverrunsIn(rs, k, n) ==> k == i
  {
    hide Expand;
    forall k | 0 <= k < |rs| && OverrunsIn(rs, k, n) ensures k == i {
      if k < i { ShorterExpand(rs, k + 1, i); }
      if i < k { ShorterExpand(rs, i + 1, k); }
    }
  }

  lemma ShorterExpand(rs: seq<Range>, i: nat, j: nat)
    requires AllProper(rs) && i <= j <= |rs|
    ensures |Expand(rs[..i])| <= |Expand(rs[..j])|
  {
    hide Expand;
    assert rs[..j] == rs[..i] + rs[i..j];
    ExpandConcat(rs[..i], rs[i..j]);
  }

  /** hostlist_push_range on the ranges: a range that continues the last one extends it. */
  function Pushed(rs: seq<Range>, r: Range): seq<Range> {
    if |rs| == 0 then [r]
    else
      var n := |rs| - 1;
      var tail := rs[n];
      if PrefixCmp(tail, r) == 0 && tail.hi == (if r.lo == 0 then ULONG_MAX else r.lo - 1) then
        var (ok, tail', r') := WidthCombine(tail, r);
        if ok then rs[n := tail'.(hi := r'.hi)] else rs[n := tail'] + [r']
      else rs + [r]
  }

  /** Joining ranges is invisible: the hosts of the range are appended. */
  lemma PushedAppends(rs: seq<Range>, r: Range)
    requires AllProper(rs) && Proper(r) && Bounded(rs) && r.hi < ULONG_MAX
    ensures AllProper(Pushed(rs, r)) && Bounded(Pushed(rs, r))
    ensures Expand(Pushed(rs, r)) == Expand(rs) + Hosts(r)
  {
    hide Expand, HostRange.Hosts, Names, HostName;
    if |rs| == 0 {
      ExpandNone(rs);
      ExpandOne(r);
    } else {
      var n := |rs| - 1;
      var tail := rs[n];
      PrefixCmpZero(tail, r);
      WidthCombineMeaning(tail, r);
      var (ok, tail', r') := WidthCombine(tail, r);
      assert rs[..n + 1] == rs;
      ExpandTake(rs, n);
      if PrefixCmp(tail, r) == 0 && tail.hi == (if r.lo == 0 then ULONG_MAX else r.lo - 1) {
        PushedJoin(rs[..n], tail, r);
        assert Pushed(rs, r) == rs[..n] + Pushed([tail], r);
      } else {
        ExpandOne(r);
        ExpandConcat(rs, [r]);
      }
    }
  }

  lemma PushedJoin(rs: seq<Range>, tail: Range, r: Range)
    requires AllProper(rs) && Proper(tail) && Proper(r) && Bounded(rs) && tail.hi < ULONG_MAX && r.hi < ULONG_MAX
    requires PrefixCmp(tail, r) == 0 && r.lo > 0 && tail.hi == r.lo - 1
    ensures AllProper(rs + Pushed([tail], r))
    ensures Expand(rs + Pushed([tail], r)) == Expand(rs) + Hosts(tail) + Hosts(r)
  {
    hide Expand, HostRange.Hosts, Names, HostName;
    PrefixCmpZero(tail, r);
    WidthCombineMeaning(tail, r);
    var (ok, tail', r') := WidthCombine(tail, r);
    CanonHosts(tail); CanonHosts(tail'); CanonHosts(r); CanonHosts(r');
    ExpandConcat(rs, Pushed([tail], r));
    if ok {
      JoinedHosts(tail', r');
      ExpandOne(tail'.(hi := r'.hi));
      assert Pushed([tail], r) == [tail'.(hi := r'.hi)];
    } else {
      ExpandOne(tail');
      ExpandOne(r');
      ExpandConcat([tail'], [r']);
      assert Pushed([tail], r) == [tail'] + [r'];
    }
  }

  /** The range continues the other: the same prefix, the next number, and a width that pads
      the numbers of both as they were. */
  ghost predicate Continued(tail: Range, r: Range) {
    && !tail.single && !r.single && tail.prefix == r.prefix && tail.hi + 1 == r.lo
    && exists w :: CommonWidth(tail.lo, tail.width, r.lo, r.width, w)
  }

  /** A range is joined to the last one exactly if it continues it. */
  lemma PushedWhen(rs: seq<Range>, r: Range)
    requires AllProper(rs) && Proper(r) && Bounded(rs)
    ensures var n := |rs| - 1; var out := Pushed(rs, r);
            if rs != [] && Continued(rs[n], r)
            then |out| == |rs| && out[..n] == rs[..n]
                 && out[n] == Range(r.prefix, rs[n].lo, r.hi, out[n].width, false)
            else out == rs + [r]
  {
    hide CommonWidth;
    if rs != [] {
      var tail := rs[|rs| - 1];
      PrefixCmpZero(tail, r);
      WidthCombineMeaning(tail, r);
      WidthEquivMeaning(tail.lo, tail.width, r.lo, r.width);
    }
  }

  lemma AlikeExpandAt(rs: seq<Range>, i: nat, r: Range)
    requires AllProper(rs) && i < |rs| && Proper(r) && Alike(rs[i], r)
    ensures AllProper(rs[i := r]) && Expand(rs[i := r]) == Expand(rs)
  {
    AlikeExpand(rs, rs[i := r]);
  }

  /** What deleting one of its hosts leaves of a range. */
  function Without(r: Range, d: nat): seq<Range>
    requires Proper(r) && d < Count(r)
  {
    if r.single then []
    else
      var (left, upper) := DeleteHost(r, r.lo + d);
      if upper.Some? then [left, upper.value]
      else if Empty(left.lo, left.hi) then []
      else [left]
  }

  lemma WithoutHosts(r: Range, d: nat)
    requires Proper(r) && d < Count(r) && r.hi < ULONG_MAX
    ensures AllProper(Without(r, d)) && Bounded(Without(r, d))
    ensures Listing(Without(r, d)) == RemoveAt(Entries(r), d)
    ensures Expand(Without(r, d)) == RemoveAt(HostRange.Hosts(r), d)
  {
    hide Expand, HostName, Names, HostRange.Hosts, Listing, Entries;
    if r.single {
      ListingNone(Without(r, d));
    } else {
      var n := r.lo + d;
      EntriesAround(r, d);
      if r.lo < n < r.hi {
        var a, b := r.(hi := n - 1), r.(lo := n + 1);
        assert Without(r, d) == [a] + [b];
        ListingOne(a);
        ListingOne(b);
        ListingConcat([a], [b]);
      } else if r.lo == r.hi {
        ListingNone(Without(r, d));
      } else {
        ListingOne(Without(r, d)[0]);
      }
    }
    NamesOfEntries(r);
    ListingNames(Without(r, d));
    NamesWithout(Entries(r), d);
  }

  lemma NamesWithout(es: seq<Entry>, d: nat)
    requires d < |es|
    ensures NamesOf(RemoveAt(es, d)) == RemoveAt(NamesOf(es), d)
  {}

  /** The hosts before and after one that is taken out. */
  lemma EntriesAround(r: Range, d: nat)
    requires Proper(r) && !r.single && d < Count(r)
    ensures var n := r.lo + d;
            && (r.lo < n < r.hi ==>
                  RemoveAt(Entries(r), d) == Entries(r.(hi := n - 1)) + Entries(r.(lo := n + 1)))
            && (n == r.lo < r.hi ==> RemoveAt(Entries(r), d) == Entries(r.(lo := n + 1)))
            && (r.lo < n == r.hi ==> RemoveAt(Entries(r), d) == Entries(r.(hi := n - 1)))
            && (n == r.lo == r.hi ==> RemoveAt(Entries(r), d) == [])
  {
    hide HostName, HostRange.Hosts;
    var n := r.lo + d;
    if r.lo < n { assert Entries(r)[..d] == Entries(r.(hi := n - 1)); }
    if n < r.hi {
      var above := r.(lo := n + 1);
      forall k | 0 <= k < Count(above) ensures Entries(r)[d + 1..][k] == Entries(above)[k] {
        assert r.lo + (d + 1 + k) == above.lo + k;
      }
      assert Entries(r)[d + 1..] == Entries(above);
    }
  }

  lemma WithoutSearchable(r: Range, d: nat)
    requires Searchable(r) && d < Count(r)
    ensures AllSearchable(Without(r, d))
  {}

  lemma DeletedInRange(rs: seq<Range>, i: nat, d: nat)
    requires AllProper(rs) && Bounded(rs) && i < |rs| && d < Count(rs[i])
    ensures var out := rs[..i] + Without(rs[i], d) + rs[i + 1..]; var n := |Expand(rs[..i])| + d;
            && AllProper(out) && Bounded(out)
            && n < |Expand(rs)| == |Listing(rs)|
            && Listing(out) == RemoveAt(Listing(rs), n)
            && Expand(out) == RemoveAt(Expand(rs), n) && |Expand(out)| == |Expand(rs)| - 1
            && (AllSearchable(rs) ==> AllSearchable(out))
  {
    hide Expand, HostRange.Hosts, Listing, Entries, Without, Searchable, RemoveAt, Proper, Count;
    var a, b, mid, n := rs[..i], rs[i + 1..], Without(rs[i], d), |Expand(rs[..i])| + d;
    WithoutHosts(rs[i], d);
    if AllSearchable(rs) { WithoutSearchable(rs[i], d); }
    ListingAt(rs, i);
    ListingConcat(a, mid);
    ListingConcat(a + mid, b);
    RemovedInside(Listing(a), Entries(rs[i]), Listing(b), d);
    ListingNames(rs);
    ListingNames(a + mid + b);
    NamesWithout(Listing(rs), n);
  }

  lemma RemovedInside<T>(a: seq<T>, mid: seq<T>, b: seq<T>, d: nat)
    requires d < |mid|
    ensures RemoveAt(a + mid + b, |a| + d) == a + RemoveAt(mid, d) + b
    ensures |a + RemoveAt(mid, d) + b| == |a + mid + b| - 1
  {}

  /** What the array holds when a host has been deleted from the range at i. */
  lemma WithoutAt(rs: seq<Range>, i: nat, d: nat)
    requires AllProper(rs) && i < |rs| && d < Count(rs[i])
    ensures var out := rs[..i] + Without(rs[i], d) + rs[i + 1..];
            && (rs[i].single ==> RemoveAt(rs, i) == out)
            && (!rs[i].single ==>
                  var (left, upper) := DeleteHost(rs[i], rs[i].lo + d);
                  var changed := rs[i := left];
                  && (upper.Some? ==> changed[..i + 1] + [upper.value] + changed[i + 1..] == out)
                  && (upper.None? && Empty(left.lo, left.hi) ==> RemoveAt(changed, i) == out)
                  && (upper.None? && !Empty(left.lo, left.hi) ==> changed == out))
  {
    hide DeleteHost;
  }

  /** The range that hostlist_push_host makes for a name. */
  function RangeOfHost(name: string): Range {
    var hn := HostnameOf(name);
    if hn.suffix.Some? then Range(hn.prefix, hn.num, hn.num, |hn.suffix.value|, false) else Single(name)
  }

  lemma RangeOfHostMeaning(name: string)
    ensures var r := RangeOfHost(name);
            Searchable(r) && r.hi < ULONG_MAX && HostRange.Hosts(r) == [name]
  {
    hide HostnameOf, HostRange.Hosts, Padded;
    HostnameRebuilt(name);
    var hn, r := HostnameOf(name), RangeOfHost(name);
    if hn.suffix.Some? {
      HostAt(r, 0);
      assert |HostRange.Hosts(r)| == Count(r) == 1;
      assert HostRange.Hosts(r)[0] == hn.prefix + hn.suffix.value == name;
    } else {
      SingleHosts(r);
    }
  }

  predicate IsAt<T(==)>(s: seq<T>, i: nat, x: T)
    requires i < |s|
  {
    s[i] == x
  }

  /** The names still to be deleted, one of which has been popped. */
  function Pending(host: Option<string>, rest: seq<string>): seq<string> {
    rest + if host.Some? then [host.value] else []
  }

  /** The names gone so far were given, and are not among those still to be deleted. */
  ghost predicate OnlyThose(start: seq<string>, now: seq<string>, given: seq<string>, pending: seq<string>) {
    forall x :: OnlyAt(multiset(start)[x], multiset(now)[x], multiset(given)[x], multiset(pending)[x])
  }

  predicate OnlyAt(start: nat, now: nat, given: nat, pending: nat) {
    now <= start && start + pending <= now + given
  }

  lemma OnlyThoseStart(start: seq<string>, given: seq<string>)
    ensures OnlyThose(start, start, given, given)
  {}

  lemma OnlyThoseStep(start: seq<string>, now: seq<string>, next: seq<string>, given: seq<string>,
                      rest: seq<string>, name: string)
    requires OnlyThose(start, now, given, rest + [name])
    requires next == now || multiset(now) == multiset(next) + multiset{name}
    ensures OnlyThose(start, next, given, rest)
  {
    assert multiset(rest + [name]) == multiset(rest) + multiset{name};
    forall x ensures OnlyAt(multiset(start)[x], multiset(next)[x], multiset(given)[x], multiset(rest)[x]) {
      assert OnlyAt(multiset(start)[x], multiset(now)[x], multiset(given)[x], multiset(rest + [name])[x]);
    }
  }

  lemma OnlyThoseEnd(start: seq<string>, now: seq<string>, given: seq<string>, pending: seq<string>)
    requires OnlyThose(start, now, given, pending)
    ensures multiset(now) <= multiset(start) <= multiset(now) + multiset(given)
  {
    forall x ensures multiset(now)[x] <= multiset(start)[x] <= (multiset(now) + multiset(given))[x] {
      assert OnlyAt(multiset(start)[x], multiset(now)[x], multiset(given)[x], multiset(pending)[x]);
    }
  }

  lemma AskedStep(rest: seq<string>, name: string)
    ensures Asked([]) == [] && Asked(rest + [name]) == Asked(rest) + [Entry(name, true)]
  {}

  lemma PendingIs(rest: seq<string>, name: string)
    ensures Pending(Some(name), rest) == rest + [name] && Pending(None, rest) == rest
  {}

  lemma RemovedOne(before: seq<string>, after: seq<string>, name: string)
    requires exists i :: 0 <= i < |before| && IsAt(before, i, name) && after == RemoveAt(before, i)
    ensures |after| == |before| - 1 && multiset(before) == multiset(after) + multiset{name}
  {
    var i :| 0 <= i < |before| && IsAt(before, i, name) && after == RemoveAt(before, i);
    RemoveAtBag(before, i);
  }

  lemma AlikeSearchable(r: Range, r': Range)
    requires Alike(r, r') && Proper(r) && Proper(r') && r' == r.(width := r'.width)
    ensures Searchable(r) <==> Searchable(r')
  {}

  lemma AlikeListsThen(a: seq<Range>, b: seq<Range>, c: seq<Range>)
    requires AlikeLists(a, b) && AlikeLists(b, c)
    ensures AlikeLists(a, c)
  {}

  lemma AlikeListsSelf(a: seq<Range>)
    ensures AlikeLists(a, a)
  {}

  /** One step of the search: what it may rewrite, and where it is then. */
  lemma LookupStep(rs: seq<Range>, i: nat, r: Range)
    requires AllProper(rs) && i < |rs| && Proper(r) && Alike(rs[i], r) && r == rs[i].(width := r.width)
    ensures var out := rs[i := r];
            && AllProper(out) && Expand(out) == Expand(rs) && Listing(out) == Listing(rs) && AlikeLists(rs, out)
            && (AllSearchable(rs) ==> AllSearchable(out))
            && |Expand(out[..i + 1])| == |Expand(rs[..i])| + Count(r)
            && Listing(out[..i + 1]) == Listing(rs[..i]) + Entries(r)
  {
    hide Expand, HostRange.Hosts, Canon, Searchable, Listing, Entries;
    var out := rs[i := r];
    AlikeExpandAt(rs, i, r);
    AlikeListing(rs, out);
    AlikeSearchable(rs[i], r);
    assert out[..i] == rs[..i];
    assert |HostRange.Hosts(r)| == Count(r);
    ExpandTake(out, i);
    ListingTake(out, i);
  }

  /** A range and what shift leaves of it. */
  lemma FirstHost(r: Range)
    requires Proper(r)
    ensures HostRange.Hosts(r)[0] == if r.single then r.prefix else HostName(r.prefix, r.width, r.lo)
    ensures IssuedOf(r)[0] == if r.single then r.prefix else Buffered(r, HostName(r.prefix, r.width, r.lo))
    ensures |IssuedOf(r)| == |HostRange.Hosts(r)|
    ensures r.single || r.lo == r.hi ==> |HostRange.Hosts(r)| == 1
    ensures !r.single && r.lo < r.hi ==>
              var t := r.(lo := r.lo + 1);
              HostRange.Hosts(r)[1..] == HostRange.Hosts(t) && IssuedOf(r)[1..] == IssuedOf(t)
  {
    hide HostName;
    if !r.single && r.lo < r.hi { BufferedAlike(r, r.(lo := r.lo + 1)); }
    SingleBuffered(Single(r.prefix), r.prefix);
  }

  /** A range and what pop leaves of it. */
  lemma LastHost(r: Range)
    requires Proper(r)
    ensures var n := |HostRange.Hosts(r)| - 1;
            && HostRange.Hosts(r)[n] == (if r.single then r.prefix else HostName(r.prefix, r.width, r.hi))
            && |IssuedOf(r)| == n + 1
            && IssuedOf(r)[n] == if r.single then r.prefix else Buffered(r, HostName(r.prefix, r.width, r.hi))
    ensures r.single || r.lo == r.hi ==> |HostRange.Hosts(r)| == 1
    ensures !r.single && r.lo < r.hi ==>
              var t, n := r.(hi := r.hi - 1), |HostRange.Hosts(r)| - 1;
              HostRange.Hosts(r)[..n] == HostRange.Hosts(t) && IssuedOf(r)[..n] == IssuedOf(t)
  {
    hide HostName;
    if !r.single && r.lo < r.hi { BufferedAlike(r, r.(hi := r.hi - 1)); }
    SingleBuffered(Single(r.prefix), r.prefix);
  }

  /** What pop takes from the end of a list, and what it leaves. */
  lemma PopMeaning(rs: seq<Range>)
    requires AllProper(rs) && rs != []
    ensures var k, r, names, given := |rs| - 1, rs[|rs| - 1], Expand(rs), Issued(rs);
            && |names| == |given| > 0
            && given[|given| - 1] == (if r.single then r.prefix else Buffered(r, HostName(r.prefix, r.width, r.hi)))
            && (r.single || r.lo == r.hi ==>
                  Expand(rs[..k]) == names[..|names| - 1] && Issued(rs[..k]) == given[..|given| - 1])
            && (!r.single && r.lo < r.hi ==>
                  var out := rs[k := r.(hi := r.hi - 1)];
                  && AllProper(out) && Expand(out) == names[..|names| - 1] && Issued(out) == given[..|given| - 1])
  {
    hide Expand, HostName, HostRange.Hosts, Issued, IssuedOf, Buffered, Names;
    var k, r := |rs| - 1, rs[|rs| - 1];
    assert rs[..k + 1] == rs;
    ExpandTake(rs, k);
    IssuedTake(rs, k);
    IssuedWhole(rs);
    IssuedWhole(rs[..k]);
    LastHost(r);
    if !r.single && r.lo < r.hi {
      var out := rs[k := r.(hi := r.hi - 1)];
      assert out[..k + 1] == out && out[..k] == rs[..k];
      ExpandTake(out, k);
      IssuedTake(out, k);
    }
  }

  lemma BufferedAlike(r: Range, t: Range)
    requires t == r.(lo := t.lo, hi := t.hi)
    ensures forall x :: Buffered(r, x) == Buffered(t, x)
  {}

  class HostList {
    var hr: seq<Range>
    var nhosts: int

    ghost predicate Valid()
      reads this
    {
      AllProper(hr) && Bounded(hr) && nhosts == |Expand(hr)|
    }

    /** The names of the hosts in the list. */
    ghost function Hosts(): seq<string>
      reads this
      requires AllProper(hr)
    {
      Expand(hr)
    }

    /** The hosts with whether they can be looked up by name. */
    ghost function Listed(): seq<Entry>
      reads this
      requires AllProper(hr)
    {
      Listing(hr)
    }

    /** The names of the hosts as pop and shift return them. */
    ghost function Given(): seq<string>
      reads this
      requires AllProper(hr)
    {
      Issued(hr)
    }

    constructor ()
      ensures Valid() && Hosts() == [] && hr == []
    {
      hr := [];
      nhosts := 0;
    }

    /** The list of some ranges. */
    constructor Of(rs: seq<Range>)
      requires AllProper(rs) && Bounded(rs)
      ensures Valid() && hr == rs
    {
      hr := rs;
      nhosts := |Expand(rs)|;
    }

    method PushRange(r: Range) returns (total: int)
      requires Valid() && Proper(r) && r.hi < ULONG_MAX
      modifies this
      ensures Valid() && Hosts() == old(Hosts()) + HostRange.Hosts(r)
      ensures hr == Pushed(old(hr), r) && total == nhosts
    {
      hide Expand, HostRange.Hosts, Names, HostName;
      PushedAppends(hr, r);
      if |hr| > 0 && PrefixCmp(hr[|hr| - 1], r) == 0
         && hr[|hr| - 1].hi == (if r.lo == 0 then ULONG_MAX else r.lo - 1) {
        var (ok, tail, r') := WidthCombine(hr[|hr| - 1], r);
        hr := hr[|hr| - 1 := tail];
        if ok {
          hr := hr[|hr| - 1 := tail.(hi := r'.hi)];
        } else {
          hr := hr + [r'];
        }
      } else {
        hr := hr + [r];
      }
      assert hr == Pushed(old(hr), r);
      nhosts := nhosts + Count(r);
      total := nhosts;
    }

    method PushHost(name: string)
      requires Valid()
      modifies this
      ensures Valid() && Hosts() == old(Hosts()) + [name]
      ensures hr == Pushed(old(hr), RangeOfHost(name))
    {
      hide Expand, HostRange.Hosts, Names, HostName;
      RangeOfHostMeaning(name);
      var _ := PushRange(RangeOfHost(name));
    }

    method PushList(other: HostList)
      requires Valid() && other.Valid() && other != this
      modifies this
      ensures Valid() && Hosts() == old(Hosts()) + other.Hosts()
    {
      hide Expand, HostRange.Hosts, Names, HostName;
      var i := 0;
      ExpandNone(other.hr[..0]);
      while i < |other.hr|
        invariant 0 <= i <= |other.hr| && Valid()
        invariant Hosts() == old(Hosts()) + Expand(other.hr[..i])
      {
        ExpandTake(other.hr, i);
        var _ := PushRange(other.hr[i]);
        i := i + 1;
      }
      assert other.hr[..i] == other.hr;
    }

    /** Remove the last host and return its name, cut to the buffer it is printed into. */
    method Pop() returns (host: Option<string>)
      requires Valid()
      modifies this
      ensures Valid()
      ensures old(Hosts()) == [] ==> host == None && Hosts() == [] && Given() == []
      ensures old(Hosts()) != [] ==>
                var n := |old(Hosts())| - 1;
                && Hosts() == old(Hosts())[..n]
                && |old(Given())| == n + 1 && host == Some(old(Given())[n]) && Given() == old(Given())[..n]
    {
      hide Expand, HostName, HostRange.Hosts, Issued, IssuedOf, Buffered, Names;
      host := None;
      if |hr| == 0 {
        ExpandNone(hr);
        IssuedNone(hr);
      }
      if nhosts > 0 {
        var n := |hr| - 1;
        var r := hr[n];
        PopMeaning(hr);
        if r.single {
          host := Some(r.prefix);
          r := r.(lo := r.lo + 1);
        } else {
          host := Some(Buffered(r, HostName(r.prefix, r.width, r.hi)));
          r := r.(hi := if r.hi == 0 then ULONG_MAX else r.hi - 1);
        }
        nhosts := nhosts - 1;
        if Empty(r.lo, r.hi) {
          hr := hr[..n];
        } else {
          hr := hr[n := r];
        }
      }
    }

    /** Remove the first host and return its name, cut to the buffer it is printed into. */
    method Shift() returns (host: Option<string>)
      requires Valid()
      modifies this
      ensures Valid()
      ensures old(Hosts()) == [] ==> host == None && Hosts() == [] && Given() == []
      ensures old(Hosts()) != [] ==>
                && Hosts() == old(Hosts())[1..]
                && old(Given()) != [] && host == Some(old(Given())[0]) && Given() == old(Given())[1..]
    {
      hide HostName, Expand, Names, HostRange.Hosts, Issued, IssuedOf, Buffered;
      host := None;
      if |hr| == 0 {
        ExpandNone(hr);
        IssuedNone(hr);
      }
      IssuedWhole(hr);
      if nhosts > 0 {
        var r := hr[0];
        ExpandFirst(hr);
        IssuedFirst(hr);
        FirstHost(r);
        if r.single {
          host := Some(r.prefix);
        } else {
          host := Some(Buffered(r, HostName(r.prefix, r.width, r.lo)));
        }
        r := r.(lo := r.lo + 1);
        nhosts := nhosts - 1;
        if Empty(r.lo, r.hi) {
          hr := hr[1..];
        } else {
          ghost var rest := hr[1..];
          hr := hr[0 := r];
          assert hr[1..] == rest;
          ExpandFirst(hr);
          IssuedFirst(hr);
        }
      }
    }

    /** The host at position n. The name is printed into a buffer on the stack; behind a
        prefix of 80 characters or more the number would be written past its end. */
    method Nth(n: nat) returns (host: Option<string>, overrun: bool)
      requires Valid()
      ensures overrun <==> Overruns(hr, n)
      ensures n >= |Hosts()| ==> host == None && !overrun
      ensures n < |Hosts()| && !overrun ==>
                host == Some(if |Hosts()[n]| > NAME_MAX then Hosts()[n][..NAME_MAX] else Hosts()[n])
    {
      hide Expand, HostRange.Hosts, Names, HostName;
      host, overrun := None, false;
      var i, count := 0, 0;
      ExpandNone(hr[..0]);
      while i < |hr|
        invariant 0 <= i <= |hr| && count == |Expand(hr[..i])| <= n
        invariant forall k :: 0 <= k < i ==> !OverrunsIn(hr, k, n)
      {
        var numInRange := Count(hr[i]);
        ExpandAt(hr, i);
        ExpandTake(hr, i);
        if n <= numInRange - 1 + count {
          OnlyRange(hr, i, n);
          if !hr[i].single && |hr[i].prefix| > NAME_MAX + 1 {
            assert OverrunsIn(hr, i, n);
            return None, true;
          }
          HostAt(hr[i], n - count);
          return Some(HostString(hr[i], n - count)), false;
        }
        count := count + numInRange;
        i := i + 1;
      }
      assert hr[..i] == hr;
    }

    /** The position of a name, or -1: the least at which a host of that name can be looked
        up. The search may rewrite widths. */
    method Find(name: string) returns (at: int)
      requires Valid()
      modifies this`hr
      ensures Valid() && Hosts() == old(Hosts()) && Listed() == old(Listed()) && AlikeLists(old(hr), hr)
      ensures at == IndexOf(Listed(), Entry(name, true))
      ensures at != -1 ==> 0 <= at < |Hosts()| && Hosts()[at] == name
      ensures AllSearchable(old(hr)) ==> AllSearchable(hr) && at == IndexOf(Hosts(), name)
    {
      hide Expand, HostRange.Hosts, Names, HostName, HostnameOf, HnWithin, Canon, IndexOf, Searchable, Listing,
           Entries, AlikeLists, AllSearchable;
      var hn := HostnameOf(name);
      ghost var all, x := AllSearchable(hr), Entry(name, true);
      at := -1;
      var i, count := 0, 0;
      AlikeListsSelf(hr);
      ExpandNone(hr[..0]);
      ListingNone(hr[..0]);
      ListingNames(hr);
      if all { AllKnown(hr); }
      AskedIndex(Hosts(), name);
      while i < |hr|
        invariant 0 <= i <= |hr| && Valid() && Expand(hr) == old(Hosts()) && Listing(hr) == old(Listed())
        invariant AlikeLists(old(hr), hr) && (all ==> AllSearchable(hr))
        invariant count == |Expand(hr[..i])| && x !in Listing(hr[..i])
      {
        LookupMeaning(hr[i], name);
        var (within, r) := HnWithin(hr[i], hn);
        AlikeEntries(hr[i], r);
        LookupStep(hr, i, r);
        AlikeListsThen(old(hr), hr, hr[i := r]);
        ghost var before := hr[..i];
        hr := hr[i := r];
        assert hr[..i] == before;
        if within {
          at := if hn.suffix.Some? && !r.single then count + hn.num - r.lo else count;
          FoundInRange(hr, i, at - count, x);
          return;
        }
        count := count + Count(r);
        i := i + 1;
      }
      assert hr[..i] == hr;
    }

    /** Delete the host at position n. The assertion in the code admits n == nhosts, at
        which nothing is deleted and the count goes wrong. */
    method DeleteNth(n: nat)
      requires Valid() && n <= nhosts
      modifies this
      ensures nhosts == old(nhosts) - 1
      ensures Valid() <==> n < old(nhosts)
      ensures n < old(nhosts) ==> Hosts() == RemoveAt(old(Hosts()), n)
      ensures n < old(nhosts) ==> n < |old(Listed())| && Listed() == RemoveAt(old(Listed()), n)
      ensures n == old(nhosts) ==> hr == old(hr)
      ensures AllSearchable(old(hr)) ==> AllSearchable(hr)
    {
      hide Expand, HostRange.Hosts, Names, HostName, Listing, AllSearchable, Without, RemoveAt, DeleteHost, Empty;
      var i, count := 0, 0;
      ExpandNone(hr[..0]);
      while i < |hr|
        invariant 0 <= i <= |hr| && hr == old(hr) && nhosts == old(nhosts)
        invariant count == |Expand(hr[..i])| <= n
      {
        var numInRange := Count(hr[i]);
        ExpandAt(hr, i);
        ExpandTake(hr, i);
        if n <= numInRange - 1 + count {
          var num := hr[i].lo + n - count;
          DeletedInRange(hr, i, n - count);
          WithoutAt(hr, i, n - count);
          if hr[i].single {
            hr := RemoveAt(hr, i);
          } else {
            var (left, upper) := DeleteHost(hr[i], num);
            hr := hr[i := left];
            if upper.Some? {
              hr := hr[..i + 1] + [upper.value] + hr[i + 1..];
            } else if Empty(left.lo, left.hi) {
              hr := RemoveAt(hr, i);
            }
          }
          nhosts := nhosts - 1;
          return;
        }
        count := count + numInRange;
        i := i + 1;
      }
      assert hr[..i] == hr;
      nhosts := nhosts - 1;
    }

    /** Delete the first host of that name that can be looked up; the result says whether
        there was one. */
    method DeleteHostNamed(name: string) returns (deleted: bool)
      requires Valid()
      modifies this
      ensures Valid() && (AllSearchable(old(hr)) ==> AllSearchable(hr))
      ensures !deleted ==> Hosts() == old(Hosts())
      ensures deleted ==> exists i :: 0 <= i < |old(Hosts())| && IsAt(old(Hosts()), i, name)
                                      && Hosts() == RemoveAt(old(Hosts()), i)
      ensures Listed() == RemoveFirst(old(Listed()), Entry(name, true))
      ensures deleted <==> Entry(name, true) in old(Listed())
      ensures AllSearchable(old(hr)) ==>
                Hosts() == RemoveFirst(old(Hosts()), name) && (deleted <==> name in old(Hosts()))
    {
      hide Expand, HostRange.Hosts, Names, HostName, Searchable;
      var n := Find(name);
      if n >= 0 {
        assert IsAt(old(Hosts()), n, name);
        DeleteNth(n);
      }
      deleted := n >= 0;
    }

    /** Delete the hosts of another list, which is used up. As many hosts go as the result
        says, and no others than those of the list: of each name, as pop returns it, the first
        hosts that can be looked up, as many as the list holds. */
    method Delete(other: HostList) returns (n: nat)
      requires Valid() && other.Valid() && other != this
      modifies this, other
      ensures Valid() && n == |old(Hosts())| - |Hosts()|
      ensures multiset(Hosts()) <= multiset(old(Hosts())) <= multiset(Hosts()) + multiset(old(other.Given()))
      ensures Listed() == DropFirst(old(Listed()), multiset(Asked(old(other.Given()))))
      ensures AllSearchable(old(hr)) ==>
                AllSearchable(hr) && Hosts() == DropFirst(old(Hosts()), multiset(old(other.Given())))
    {
      hide Expand, HostRange.Hosts, Names, HostName, RemoveEach, RemoveFirst, DropFirst, AllSearchable, IsAt, OnlyThose,
           Pending, Issued, Listing, Asked, AllProper, Bounded;
      ghost var all, start, given, listed := AllSearchable(hr), Hosts(), other.Given(), Listed();
      n := 0;
      RemoveEachDropsFirst(start, given);
      RemoveEachDropsFirst(listed, Asked(given));
      var host := PopPending(other);
      OnlyThoseStart(start, given);
      while host.Some?
        invariant Valid() && (all ==> AllSearchable(hr)) && other.Valid()
        invariant host == None ==> other.Given() == []
        invariant all ==> RemoveEach(start, given) == RemoveEach(Hosts(), Pending(host, other.Given()))
        invariant RemoveEach(listed, Asked(given)) == RemoveEach(Listed(), Asked(Pending(host, other.Given())))
        invariant OnlyThose(start, Hosts(), given, Pending(host, other.Given()))
        invariant n == |start| - |Hosts()|
        decreases |other.Given()| + if host.Some? then 1 else 0
      {
        ghost var rest, names := other.Given(), Hosts();
        PendingIs(rest, host.value);
        RemoveEachStep(names, rest, host.value);
        RemoveEachStep(Listed(), Asked(rest), Entry(host.value, true));
        AskedStep(rest, host.value);
        var deleted := DeleteHostNamed(host.value);
        if deleted { RemovedOne(names, Hosts(), host.value); }
        OnlyThoseStep(start, names, Hosts(), given, rest, host.value);
        n := n + if deleted then 1 else 0;
        host := PopPending(other);
      }
      OnlyThoseEnd(start, Hosts(), given, Pending(host, other.Given()));
      PendingIs(other.Given(), "");
      RemoveEachStep(Hosts(), [], "");
      RemoveEachStep(Listed(), [], Entry("", true));
      AskedStep([], "");
    }

    /** Pop, in the terms of the loop above. */
    method PopPending(other: HostList) returns (host: Option<string>)
      requires other.Valid() && other != this
      modifies other
      ensures other.Valid() && old(other.Given()) == Pending(host, other.Given())
      ensures host == None ==> other.Given() == []
      ensures host.Some? ==> |other.Given()| == |old(other.Given())| - 1
    {
      hide Expand, HostName, HostRange.Hosts, Issued, IssuedOf, Buffered, Names;
      host := other.Pop();
    }

    /** Sort the list. Whatever the list, the sorting ends and keeps every host as often
        as it was there. The result is false when an assertion on the order of neighbours
        fails on the way, which aborts the program; that happens exactly if the list jams.
        Else the ranges are in order, and those of one prefix and compatible widths neither
        overlap nor continue one another. If all ranges of a prefix have compatible widths
        the list does not jam, and the hosts come out in order. */
    method Sort() returns (ok: bool)
      requires Valid() && Narrow(hr)
      modifies this
      ensures Valid() && Narrow(hr)
      ensures multiset(Hosts()) == multiset(old(Hosts()))
      ensures ok <==> !Jammed(old(hr))
      ensures ok ==> Ordered(hr) && GapsFrom(hr, 0) && NoJointsFrom(hr, 0)
      ensures Uniform(old(hr)) ==> ok && InOrder(hr, PrefixWidths(old(hr)), false)
    {
      hide Expand, HostRange.Hosts, Fits, ShownWidth, Uniform, Canon, Keys, Ascending, Text, Leq, NoJoint, Gap, Jammed,
           Jams;
      ghost var w := PrefixWidths(hr);
      ghost var uniform := Uniform(hr);
      if uniform {
        UniformFits(hr);
        UniformNotJammed(hr);
      }
      if |hr| <= 1 {
        TooFewToJam(hr);
        if uniform { OrderMeaning(hr, w, false); }
        return true;
      }
      var rs := SortRanges(hr);
      RearrangedHosts(rs, hr);
      RearrangedNarrow(rs, hr);
      JammedRearranged(rs, hr);
      if uniform { RearrangedFits(rs, hr, w); }
      ok, rs := Coalesce(rs, w);
      if ok {
        rs := Collapse(rs, w);
        if uniform { OrderMeaning(rs, w, false); }
      }
      assert |multiset(Expand(rs))| == |Expand(rs)| && |multiset(Expand(hr))| == |Expand(hr)|;
      hr := rs;
    }

    /** Sort the list and join what overlaps. No name is lost or made up, and ranges of one
        prefix and compatible widths neither overlap nor continue one another any more.
        A name is left twice exactly if two ranges of different runs had it in common, and
        the count is the number of distinct names exactly otherwise. If all ranges of a
        prefix have compatible widths the hosts are in order, and no name is left twice
        where names were split as the library splits them. */
    method Uniq()
      requires Valid() && Low(hr) && nhosts <= INT_MAX
      modifies this
      ensures Valid() && Low(hr) && Ordered(hr) && ClearBelow(hr, |hr|)
      ensures forall x :: x in Hosts() <==> x in old(Hosts())
      ensures Distinct(Hosts()) <==> !Shared(old(hr))
      ensures nhosts == |set x | x in old(Hosts())| <==> !Shared(old(hr))
      ensures Uniform(old(hr)) ==> InOrder(hr, PrefixWidths(old(hr)), true)
      ensures Uniform(old(hr)) && AllParsed(old(hr)) ==> !Shared(old(hr))
    {
      hide Expand, HostRange.Hosts, Fits, ShownWidth, Uniform, Canon, Keys, Ascending, Text, Leq, Parsed, Clear,
           Distinct, Shared, SameRuns, RemoveAt;
      ghost var w := PrefixWidths(hr);
      ghost var uniform := Uniform(hr);
      if uniform { UniformFits(hr); }
      if |hr| > 1 {
        var rs := SortRanges(hr);
        RearrangedHosts(rs, hr);
        RearrangedNarrow(rs, hr);
        RearrangedRuns(hr, rs);
        assert forall x :: x in Expand(rs) <==> x in multiset(Expand(rs));
        assert |multiset(Expand(rs))| == |Expand(rs)| && |multiset(Expand(hr))| == |Expand(hr)|;
        if uniform { RearrangedFits(rs, hr, w); }
        if AllParsed(hr) { RearrangedParsed(rs, hr); }
        ghost var given, sorted := hr, rs;
        var dups;
        rs, dups := JoinAll(rs, w);
        SameRunsThen(given, sorted, rs);
        SharedSame(given, rs);
        hr := rs;
        nhosts := nhosts - dups;
      }
      assert Shared(hr) <==> Shared(old(hr));
      if uniform { OrderMeaning(hr, w, true); }
      DistinctIff(hr);
      DistinctCount(Expand(hr));
      assert (set x | x in Expand(hr)) == (set x | x in old(Hosts()));
      if uniform && AllParsed(hr) { ClearIsDistinct(hr, w); }
    }
  }

  /** The width that shows for each prefix. */
  ghost function PrefixWidths(rs: seq<Range>): Widths {
    p => ShownWidth(rs, p)
  }

  /** The hosts of the list, each printed at the width of its prefix, are in the order of
      prefix and number. */
  ghost predicate InOrder(rs: seq<Range>, w: Widths, strict: bool)
    requires AllProper(rs)
  {
    && Ascending(Keys(rs), strict)
    && forall i :: 0 <= i < |Keys(rs)| ==> Expand(rs)[i] == Text(Keys(rs)[i], w)
  }

  lemma OrderMeaning(rs: seq<Range>, w: Widths, strict: bool)
    requires AllProper(rs) && Ordered(rs) && AllFit(rs, w)
    requires if strict then ClearBelow(rs, |rs|) else GapsFrom(rs, 0)
    ensures InOrder(rs, w, strict)
  {
    KeysAscend(rs, w, strict);
    KeysAreNames(rs, w);
  }

  lemma TooFewToJam(rs: seq<Range>)
    requires |rs| < 3
    ensures !Jammed(rs)
  {
    hide PrintedWidth, Shows, DigitCount;
  }

  /** A list that jams: sorting foo[1-20,2-30,07] splits the first two ranges, which leaves
      foo[20-30] in front of foo[07], out of order for the next comparison. */
  lemma SortAborts()
    ensures var a, b, c := Range("foo", 1, 20, 1, false), Range("foo", 2, 30, 1, false),
                           Range("foo", 7, 7, 2, false);
            && Ordered([a, b, c]) && Jammed([a, b, c])
            && Intersect(b, c) == Apart(b, c)
            && Intersect(a, b) == Overlap(a, b, a.(lo := 2, hi := 20))
            && var out := Spliced([a, b, c], 1, SplitRanges(a, b));
               && out[|out| - 1] == c && Intersect(out[|out| - 2], c) == OutOfOrder
  {
    hide Pieces;
    var a, b, c := Range("foo", 1, 20, 1, false), Range("foo", 2, 30, 1, false), Range("foo", 7, 7, 2, false);
    PrefixCmpZero(a, b);
    PrefixCmpZero(b, c);
    assert [a, b, c][1] == b && [a, b, c][2] == c;
    assert Jams([a, b, c], 0, 1, 2);
    var s := SplitRanges(a, b);
    PrefixCmpZero(s[|s| - 1], c);
    assert s[|s| - 1] == Range("foo", 20, 30, 1, false);
  }

  /** A list on which a name is left twice: foo[9-12,08-12] has foo10 in two runs. */
  lemma UniqRepeats()
    ensures var a, b := Range("foo", 9, 12, 1, false), Range("foo", 8, 12, 2, false);
            AllProper([a, b]) && AllParsed([a, b]) && Shared([a, b]) && Holds(a, "foo10") && Holds(b, "foo10")
  {
    var a, b := Range("foo", 9, 12, 1, false), Range("foo", 8, 12, 2, false);
    var rs := [a, b];
    assert AllProper(rs) && AllParsed(rs);
    TenHeld(a, 1);
    TenHeld(b, 2);
    WithinIs(a, b);
    assert PrintedWidth(a) == 1 && PrintedWidth(b) == 2 && Shows(b);
    MarkIn(rs, "foo", 1);
    assert rs[1] == b;
    assert SharesIn(rs, 0, 1, "foo10");
  }

  /** And one whose widths are compatible: foo1[2],foo12 has foo12 under two prefixes. */
  lemma UniqRepeatsSplit()
    ensures var a, b := RangeOfHost("foo12"), Range("foo1", 2, 2, 1, false);
            && AllProper([a, b]) && Uniform([a, b]) && Shared([a, b]) && Holds(a, "foo12") && Holds(b, "foo12")
  {
    hide RangeOfHost, Compatible, Proper, Holds, RunMates, PrefixCmp;
    var a, b := RangeOfHost("foo12"), Range("foo1", 2, 2, 1, false);
    var rs := [a, b];
    SplitTwoWays();
    assert rs[0] == a && rs[1] == b;
    assert SharesIn(rs, 0, 1, "foo12") by { ApartAnyhow(rs, a, b); }
    PrefixCmpZero(a, b);
    SelfCompatible(a);
    SelfCompatible(b);
  }

  lemma ApartAnyhow(rs: seq<Range>, a: Range, b: Range)
    requires a.prefix != b.prefix
    ensures !RunMates(rs, a, b)
  {}

  lemma SplitTwoWays()
    ensures var a, b := RangeOfHost("foo12"), Range("foo1", 2, 2, 1, false);
            && Proper(a) && Proper(b) && Holds(a, "foo12") && Holds(b, "foo12") && a.prefix != b.prefix
  {
    RangeOfHostMeaning("foo12");
    Foo12Held();
    hide RangeOfHost, HostRange.Hosts;
    PrefixEndsProperly("foo12");
    assert "foo1"[3] == '1' && "foo12" != "foo1";
  }

  lemma PrefixEndsProperly(name: string)
    ensures var p := RangeOfHost(name).prefix; ProperPrefix(p) || p == name
  {
    HostnameRebuilt(name);
    hide HostnameOf;
  }

  lemma Foo12Held()
    ensures var b := Range("foo1", 2, 2, 1, false); Proper(b) && Holds(b, "foo12")
  {
    hide HostName, HostRange.Hosts;
    var b := Range("foo1", 2, 2, 1, false);
    assert HostName("foo1", 1, 2) == "foo12" by { Foo12Text(); }
    HostAt(b, 0);
    assert |HostRange.Hosts(b)| == Count(b);
  }

  lemma Foo12Text()
    ensures HostName("foo1", 1, 2) == "foo12"
  {
    assert Dec(2) == "2" && Padded(2, 1) == "2";
  }

  lemma SelfCompatible(r: Range)
    ensures Compatible(r, r)
  {
    WidthEquivMeaning(r.lo, r.width, r.lo, r.width);
    assert CommonWidth(r.lo, r.width, r.lo, r.width, r.width);
  }

  lemma TenHeld(r: Range, d: nat)
    requires 1 <= d <= 2 && r == Range("foo", 10 - d, 12, d, false)
    ensures Proper(r) && Holds(r, "foo10")
  {
    assert Dec(10) == "10" && Padded(10, d) == "10";
    assert HostName("foo", d, 10) == "foo10";
    assert |HostRange.Hosts(r)| == Count(r);
    HostAt(r, d);
  }
}

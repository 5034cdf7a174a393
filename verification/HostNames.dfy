/** The host names that a list of ranges stands for, and the operations on plain
    sequences of names that the operations on ranges amount to. */
module HostNames {
  import opened Sequences
  import opened Decimal
  import opened HostRange

  predicate AllProper(rs: seq<Range>) {
    forall i :: 0 <= i < |rs| ==> Proper(rs[i])
  }

  /** The suffixes are unsigned longs below ULONG_MAX. */
  predicate Bounded(rs: seq<Range>) {
    forall i :: 0 <= i < |rs| ==> rs[i].hi < ULONG_MAX
  }

  function Expand(rs: seq<Range>): (names: seq<string>)
    requires AllProper(rs)
    ensures |names| >= |rs|
  {
    if rs == [] then [] else Hosts(rs[0]) + Expand(rs[1..])
  }

  lemma {:induction false} ExpandConcat(a: seq<Range>, b: seq<Range>)
    requires AllProper(a) && AllProper(b)
    ensures AllProper(a + b) && Expand(a + b) == Expand(a) + Expand(b)
  {
    hide Expand, Hosts, Proper;
    if a == [] {
      assert a + b == b;
      ExpandNone(a);
    } else {
      assert (a + b)[1..] == a[1..] + b;
      ExpandConcat(a[1..], b);
      ExpandFirst(a);
      ExpandFirst(a + b);
    }
  }

  lemma ExpandOne(r: Range)
    requires Proper(r)
    ensures AllProper([r]) && Expand([r]) == Hosts(r)
  {
    assert Expand([r]) == Hosts(r) + Expand([]);
  }

  lemma ExpandSplit(rs: seq<Range>, i: nat)
    requires AllProper(rs) && i <= |rs|
    ensures Expand(rs) == Expand(rs[..i]) + Expand(rs[i..])
  {
    hide Expand, Proper;
    assert rs[..i] + rs[i..] == rs;
    ExpandConcat(rs[..i], rs[i..]);
  }

  lemma ExpandTake(rs: seq<Range>, i: nat)
    requires AllProper(rs) && i < |rs|
    ensures Expand(rs[..i + 1]) == Expand(rs[..i]) + Hosts(rs[i])
  {
    hide Expand, Hosts, Proper;
    assert rs[..i + 1] == rs[..i] + [rs[i]];
    ExpandConcat(rs[..i], [rs[i]]);
    ExpandOne(rs[i]);
  }

  lemma ExpandFirst(rs: seq<Range>)
    requires AllProper(rs) && rs != []
    ensures Expand(rs) == Hosts(rs[0]) + Expand(rs[1..])
  {}

  lemma ExpandNone(rs: seq<Range>)
    requires |rs| == 0
    ensures AllProper(rs) && Expand(rs) == []
  {}

  /** The names before, in and after the range at i. */
  lemma ExpandAt(rs: seq<Range>, i: nat)
    requires AllProper(rs) && i < |rs|
    ensures Expand(rs) == Expand(rs[..i]) + Hosts(rs[i]) + Expand(rs[i + 1..])
  {
    hide *;
    ExpandTake(rs, i);
    ExpandSplit(rs, i + 1);
  }

  /** Two lists whose ranges differ only in widths that do not show. */
  predicate AlikeLists(a: seq<Range>, b: seq<Range>) {
    |a| == |b| && forall i :: 0 <= i < |a| ==> Alike(a[i], b[i])
  }

  lemma {:induction false} AlikeExpand(a: seq<Range>, b: seq<Range>)
    requires AllProper(a) && AllProper(b) && AlikeLists(a, b)
    ensures Expand(a) == Expand(b)
  {
    if a != [] {
      CanonHosts(a[0]);
      CanonHosts(b[0]);
      AlikeExpand(a[1..], b[1..]);
    }
  }

  // ---- names as pop and shift return them ----

  /** The buffer that hostrange_pop and hostrange_shift print a name into has room for the
      prefix and 15 characters more than the width. */
  function Buffered(r: Range, name: string): string {
    if r.single || |name| <= |r.prefix| + r.width + 15 then name else name[..|r.prefix| + r.width + 15]
  }

  /** The name is cut exactly if its number has more digits than that. */
  lemma BufferedMeaning(r: Range, n: nat)
    requires !r.single
    ensures Buffered(r, HostName(r.prefix, r.width, n)) == HostName(r.prefix, r.width, n)
            <==> DigitCount(n) <= r.width + 15
  {}

  function IssuedOf(r: Range): (names: seq<string>)
    requires Proper(r)
    ensures |names| == |Hosts(r)| && forall i :: 0 <= i < |names| ==> names[i] == Buffered(r, Hosts(r)[i])
  {
    seq(|Hosts(r)|, i requires 0 <= i < |Hosts(r)| => Buffered(r, Hosts(r)[i]))
  }

  /** The names of a list, each as pop or shift would return it. */
  function Issued(rs: seq<Range>): seq<string>
    requires AllProper(rs)
  {
    if rs == [] then [] else IssuedOf(rs[0]) + Issued(rs[1..])
  }

  /** No number is too long for the width of its range. */
  predicate NoneCut(rs: seq<Range>) {
    forall i :: 0 <= i < |rs| ==> rs[i].single || DigitCount(rs[i].hi) <= rs[i].width + 15
  }

  /** Then pop and shift return the names as they are. */
  lemma {:induction false} IssuedWhole(rs: seq<Range>)
    requires AllProper(rs)
    ensures |Issued(rs)| == |Expand(rs)|
    ensures NoneCut(rs) ==> Issued(rs) == Expand(rs)
  {
    hide Hosts, Buffered;
    if rs != [] {
      IssuedWhole(rs[1..]);
      if NoneCut(rs) { IssuedOfWhole(rs[0]); }
    }
  }

  lemma IssuedOfWhole(r: Range)
    requires Proper(r) && (r.single || DigitCount(r.hi) <= r.width + 15)
    ensures IssuedOf(r) == Hosts(r)
  {
    hide HostName, Hosts, Buffered;
    assert |Hosts(r)| == Count(r);
    forall i | 0 <= i < |Hosts(r)| ensures Buffered(r, Hosts(r)[i]) == Hosts(r)[i] {
      HostAt(r, i);
      if r.single {
        SingleBuffered(r, r.prefix);
      } else {
        DigitCountMonotone(r.lo + i, r.hi);
        BufferedMeaning(r, r.lo + i);
      }
    }
  }

  lemma SingleBuffered(r: Range, name: string)
    requires r.single
    ensures Buffered(r, name) == name
  {}

  lemma IssuedOne(r: Range)
    requires Proper(r)
    ensures AllProper([r]) && Issued([r]) == IssuedOf(r)
  {
    hide IssuedOf;
    assert Issued([r]) == IssuedOf(r) + Issued([]);
  }

  lemma IssuedNone(rs: seq<Range>)
    requires |rs| == 0
    ensures AllProper(rs) && Issued(rs) == []
  {}

  lemma {:induction false} IssuedConcat(a: seq<Range>, b: seq<Range>)
    requires AllProper(a) && AllProper(b)
    ensures AllProper(a + b) && Issued(a + b) == Issued(a) + Issued(b)
  {
    hide Issued, IssuedOf, Proper;
    if a == [] {
      assert a + b == b;
      IssuedNone(a);
    } else {
      assert (a + b)[1..] == a[1..] + b;
      IssuedConcat(a[1..], b);
      IssuedFirst(a);
      IssuedFirst(a + b);
    }
  }

  lemma IssuedFirst(rs: seq<Range>)
    requires AllProper(rs) && rs != []
    ensures Issued(rs) == IssuedOf(rs[0]) + Issued(rs[1..])
  {}

  lemma IssuedTake(rs: seq<Range>, i: nat)
    requires AllProper(rs) && i < |rs|
    ensures Issued(rs[..i + 1]) == Issued(rs[..i]) + IssuedOf(rs[i])
  {
    hide Issued, IssuedOf, Proper;
    assert rs[..i + 1] == rs[..i] + [rs[i]];
    IssuedConcat(rs[..i], [rs[i]]);
    IssuedOne(rs[i]);
  }

  // ---- sequences of names ----

  /** The least position of x, or -1. */
  function IndexOf<T(==)>(s: seq<T>, x: T): (i: int)
    ensures i == -1 <==> x !in s
    ensures x in s ==> 0 <= i < |s| && s[i] == x && x !in s[..i]
  {
    if s == [] then -1
    else if s[0] == x then 0
    else
      var k := IndexOf(s[1..], x);
      assert s == [s[0]] + s[1..];
      assert k >= 0 ==> s[..k + 1] == [s[0]] + s[1..][..k];
      if k < 0 then -1 else k + 1
  }

  lemma IndexOfIs<T>(s: seq<T>, x: T, i: nat)
    requires i < |s| && s[i] == x && x !in s[..i]
    ensures IndexOf(s, x) == i
  {
    var k := IndexOf(s, x);
    assert forall j :: 0 <= j < i ==> s[j] in s[..i];
    assert forall j :: 0 <= j < k ==> s[j] in s[..k];
  }

  function RemoveFirst<T(==)>(s: seq<T>, x: T): seq<T> {
    if x in s then RemoveAt(s, IndexOf(s, x)) else s
  }

  /** Removing names one at a time, the last of them first. */
  function RemoveEach<T(==)>(s: seq<T>, names: seq<T>): seq<T> {
    if names == [] then s
    else RemoveEach(RemoveFirst(s, names[|names| - 1]), names[..|names| - 1])
  }

  lemma RemoveEachStep<T>(s: seq<T>, names: seq<T>, x: T)
    ensures RemoveEach(s, names + [x]) == RemoveEach(RemoveFirst(s, x), names)
    ensures RemoveEach(s, []) == s
    ensures |RemoveFirst(s, x)| == |s| - if x in s then 1 else 0
  {
    assert (names + [x])[..|names|] == names;
  }

  /** What is left when the first occurrences of each name are dropped from the left, as
      many of them as the name has occurrences in the bag. */
  function DropFirst<T(==)>(s: seq<T>, bag: multiset<T>): (rest: seq<T>)
    ensures multiset(rest) == multiset(s) - bag
  {
    if s == [] then []
    else
      assert s == [s[0]] + s[1..];
      if s[0] in bag then DropFirst(s[1..], bag - multiset{s[0]})
      else
        var rest := DropFirst(s[1..], bag);
        assert multiset([s[0]] + rest) == multiset{s[0]} + multiset(rest);
        [s[0]] + rest
  }

  lemma {:induction false} DropFirstNone<T>(s: seq<T>)
    ensures DropFirst(s, multiset{}) == s
  {
    if s != [] { DropFirstNone(s[1..]); }
  }

  lemma {:induction false} DropFirstOne<T>(s: seq<T>, x: T, bag: multiset<T>)
    ensures DropFirst(s, bag + multiset{x}) == DropFirst(RemoveFirst(s, x), bag)
  {
    if s != [] {
      var t := s[1..];
      assert s == [s[0]] + t;
      if s[0] == x {
        assert RemoveFirst(s, x) == t;
        assert bag + multiset{x} - multiset{x} == bag;
      } else {
        RemoveFirstTail(s, x);
        var u := RemoveFirst(s, x);
        assert u[1..] == RemoveFirst(t, x);
        if s[0] in bag {
          assert bag + multiset{x} - multiset{s[0]} == bag - multiset{s[0]} + multiset{x};
          DropFirstOne(t, x, bag - multiset{s[0]});
        } else {
          DropFirstOne(t, x, bag);
        }
      }
    }
  }

  lemma RemoveFirstTail<T>(s: seq<T>, x: T)
    requires s != [] && s[0] != x
    ensures RemoveFirst(s, x) == [s[0]] + RemoveFirst(s[1..], x)
  {
    hide IndexOf, RemoveAt;
    var t := s[1..];
    assert s == [s[0]] + t;
    IndexOfStep(s, x);
    if x in t { RemoveAtTail(s, IndexOf(t, x)); }
  }

  lemma RemoveAtTail<T>(s: seq<T>, k: nat)
    requires k + 1 < |s|
    ensures RemoveAt(s, k + 1) == [s[0]] + RemoveAt(s[1..], k)
  {
    assert s[..k + 1] == [s[0]] + s[1..][..k] && s[k + 2..] == s[1..][k + 1..];
  }

  lemma IndexOfStep<T>(s: seq<T>, x: T)
    requires s != [] && s[0] != x
    ensures x in s <==> x in s[1..]
    ensures x in s ==> IndexOf(s, x) == IndexOf(s[1..], x) + 1
  {
    assert s == [s[0]] + s[1..];
  }

  /** Deleting names one by one, in whatever order, drops the first occurrences of each. */
  lemma {:induction false} RemoveEachDropsFirst<T>(s: seq<T>, names: seq<T>)
    ensures RemoveEach(s, names) == DropFirst(s, multiset(names))
  {
    if names == [] {
      DropFirstNone(s);
    } else {
      var n := |names| - 1;
      assert names == names[..n] + [names[n]];
      RemoveEachDropsFirst(RemoveFirst(s, names[n]), names[..n]);
      DropFirstOne(s, names[n], multiset(names[..n]));
    }
  }
}

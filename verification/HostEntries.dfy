/** The hosts of a list with whether they can be looked up by name: a name is split at its
    trailing digits, and so only into a prefix that does not end in one. */
module HostEntries {
  import opened Sequences
  import opened Decimal
  import opened HostRange
  import opened HostNames

  datatype Entry = Entry(name: string, known: bool)

  /** Whether hostname_create splits the name of a host at that depth as its range does. */
  predicate Known(r: Range, d: nat) {
    r.single || (ProperPrefix(r.prefix) && r.lo + d <= MAX_HOST_SUFFIX)
  }

  function EntryAt(r: Range, d: nat): Entry {
    Entry(if r.single then r.prefix else HostName(r.prefix, r.width, r.lo + d), Known(r, d))
  }

  function Entries(r: Range): (es: seq<Entry>)
    requires Proper(r)
    ensures |es| == Count(r) && forall d :: 0 <= d < |es| ==> es[d] == EntryAt(r, d)
  {
    seq(Count(r), d requires 0 <= d < Count(r) => EntryAt(r, d))
  }

  function Listing(rs: seq<Range>): seq<Entry>
    requires AllProper(rs)
  {
    if rs == [] then [] else Entries(rs[0]) + Listing(rs[1..])
  }

  function NamesOf(es: seq<Entry>): (names: seq<string>)
    ensures |names| == |es| && forall i :: 0 <= i < |es| ==> names[i] == es[i].name
  {
    seq(|es|, i requires 0 <= i < |es| => es[i].name)
  }

  /** Names to be looked up. */
  function Asked(names: seq<string>): (es: seq<Entry>)
    ensures |es| == |names| && forall i :: 0 <= i < |es| ==> es[i] == Entry(names[i], true)
  {
    seq(|names|, i requires 0 <= i < |names| => Entry(names[i], true))
  }

  // ---- listing and expanding ----

  lemma NamesOfEntries(r: Range)
    requires Proper(r)
    ensures NamesOf(Entries(r)) == Hosts(r)
  {
    hide HostName, Names, Hosts;
    assert |Hosts(r)| == Count(r);
    forall d | 0 <= d < |Hosts(r)| ensures NamesOf(Entries(r))[d] == Hosts(r)[d] {
      HostAt(r, d);
    }
  }

  /** The names listed are those of the hosts. */
  lemma {:induction false} ListingNames(rs: seq<Range>)
    requires AllProper(rs)
    ensures NamesOf(Listing(rs)) == Expand(rs)
  {
    hide Hosts, HostName, Entries;
    if rs != [] {
      ListingNames(rs[1..]);
      NamesOfEntries(rs[0]);
      assert NamesOf(Entries(rs[0]) + Listing(rs[1..])) == NamesOf(Entries(rs[0])) + NamesOf(Listing(rs[1..]));
    }
  }

  lemma {:induction false} ListingConcat(a: seq<Range>, b: seq<Range>)
    requires AllProper(a) && AllProper(b)
    ensures AllProper(a + b) && Listing(a + b) == Listing(a) + Listing(b)
  {
    hide Entries, Proper, Listing;
    if a == [] {
      assert a + b == b;
      ListingNone(a);
    } else {
      assert (a + b)[1..] == a[1..] + b;
      ListingConcat(a[1..], b);
      ListingFirst(a);
      ListingFirst(a + b);
    }
  }

  lemma ListingNone(rs: seq<Range>)
    requires |rs| == 0
    ensures AllProper(rs) && Listing(rs) == []
  {}

  lemma ListingFirst(rs: seq<Range>)
    requires AllProper(rs) && rs != []
    ensures Listing(rs) == Entries(rs[0]) + Listing(rs[1..])
  {}

  lemma ListingOne(r: Range)
    requires Proper(r)
    ensures AllProper([r]) && Listing([r]) == Entries(r)
  {
    hide Entries;
    assert Listing([r]) == Entries(r) + Listing([]);
  }

  lemma ListingAt(rs: seq<Range>, i: nat)
    requires AllProper(rs) && i < |rs|
    ensures Listing(rs) == Listing(rs[..i]) + Entries(rs[i]) + Listing(rs[i + 1..])
    ensures |Listing(rs[..i])| == |Expand(rs[..i])|
  {
    hide Entries, Listing, Proper, Expand;
    assert rs == rs[..i] + [rs[i]] + rs[i + 1..];
    ListingConcat(rs[..i] + [rs[i]], rs[i + 1..]);
    ListingConcat(rs[..i], [rs[i]]);
    ListingOne(rs[i]);
    ListingNames(rs[..i]);
  }

  lemma ListingTake(rs: seq<Range>, i: nat)
    requires AllProper(rs) && i < |rs|
    ensures Listing(rs[..i + 1]) == Listing(rs[..i]) + Entries(rs[i])
  {
    hide Entries, Listing, Proper;
    assert rs[..i + 1] == rs[..i] + [rs[i]];
    ListingConcat(rs[..i], [rs[i]]);
    ListingOne(rs[i]);
  }

  lemma AlikeEntries(a: Range, b: Range)
    requires Proper(a) && Proper(b) && Alike(a, b)
    ensures Entries(a) == Entries(b)
  {
    hide HostName, Hosts;
    forall d | 0 <= d < Count(a) ensures Entries(a)[d] == Entries(b)[d] {
      if !a.single { AlikeNames(a, b, d); }
    }
  }

  lemma AlikeNames(a: Range, b: Range, d: nat)
    requires Proper(a) && Proper(b) && Alike(a, b) && !a.single
    ensures HostName(a.prefix, a.width, a.lo + d) == HostName(b.prefix, b.width, b.lo + d)
  {
    PadMonotone(a.lo, a.lo + d, a.width, b.width);
  }

  lemma {:induction false} AlikeListing(a: seq<Range>, b: seq<Range>)
    requires AllProper(a) && AllProper(b) && AlikeLists(a, b)
    ensures Listing(a) == Listing(b)
  {
    hide Entries, Alike, Proper;
    if a != [] {
      AlikeEntries(a[0], b[0]);
      AlikeListing(a[1..], b[1..]);
    }
  }

  // ---- looking up ----

  /** A host is recognised by its range exactly if it is known. */
  lemma KnownMeaning(r: Range, d: nat)
    requires Proper(r) && !r.single && d < Count(r)
    ensures HasParts(HostnameOf(HostName(r.prefix, r.width, r.lo + d)), r) <==> Known(r, d)
  {
    hide HostnameOf, Padded;
    var name := HostName(r.prefix, r.width, r.lo + d);
    HostnameRebuilt(name);
    if Known(r, d) {
      HostnameOfHost(r.prefix, r.width, r.lo + d);
    }
    if HasParts(HostnameOf(name), r) {
      NamesDistinct(r.prefix, r.width, HostnameOf(name).num, r.width, r.lo + d);
    }
  }

  /** A lookup in a range finds a name exactly if it is that of a known host, and finds the
      depth of that host. */
  lemma LookupMeaning(r: Range, name: string)
    requires Proper(r)
    ensures var hn := HostnameOf(name); var (found, r') := HnWithin(r, hn);
            && (found <==> Entry(name, true) in Entries(r))
            && (found && r.single ==> Entries(r)[0] == Entry(name, true))
            && (found && !r.single ==>
                  hn.suffix.Some? && r.lo <= hn.num <= r.hi && Entries(r)[hn.num - r.lo] == Entry(name, true))
            && Proper(r') && Alike(r, r') && r' == r.(width := r'.width)
  {
    hide HostnameOf, Hosts, HostName, WidthEquiv, Canon, HasParts, HnWithin;
    var hn := HostnameOf(name);
    HnWithinMeaning(r, name);
    var (found, _) := HnWithin(r, hn);
    NamesOfEntries(r);
    if found {
      var d := if r.single then 0 else hn.num - r.lo;
      assert Entries(r)[d].name == name;
      if !r.single { KnownMeaning(r, d); }
    }
    if Entry(name, true) in Entries(r) {
      var d :| 0 <= d < |Entries(r)| && Entries(r)[d] == Entry(name, true);
      if !r.single { KnownMeaning(r, d); }
    }
  }

  /** The names in a range are different, so that no two entries are the same. */
  lemma EntriesDistinct(r: Range, d: nat, e: nat)
    requires Proper(r) && d < Count(r) && e < Count(r) && Entries(r)[d] == Entries(r)[e]
    ensures d == e
  {
    hide HostName, Hosts;
    if !r.single {
      NamesDistinct(r.prefix, r.width, r.lo + d, r.width, r.lo + e);
    }
  }

  /** An entry at some depth of a range, and in no range before it, is the first. */
  lemma FoundInRange(rs: seq<Range>, i: nat, d: nat, x: Entry)
    requires AllProper(rs) && i < |rs| && x !in Listing(rs[..i])
    requires d < Count(rs[i]) && Entries(rs[i])[d] == x
    ensures IndexOf(Listing(rs), x) == |Expand(rs[..i])| + d
  {
    hide Expand, Hosts, Entries, Listing;
    var before, inside := Listing(rs[..i]), Entries(rs[i]);
    var at := |before| + d;
    ListingAt(rs, i);
    forall k | 0 <= k < d ensures inside[k] != x {
      if inside[k] == x { EntriesDistinct(rs[i], k, d); }
    }
    assert Listing(rs)[..at] == before + inside[..d];
    IndexOfIs(Listing(rs), x, at);
  }

  predicate AllSearchable(rs: seq<Range>) {
    forall i :: 0 <= i < |rs| ==> Searchable(rs[i])
  }

  /** Where all hosts can be looked up, the lookup is of the name alone. */
  lemma {:induction false} AllKnown(rs: seq<Range>)
    requires AllProper(rs) && AllSearchable(rs)
    ensures Listing(rs) == Asked(Expand(rs))
  {
    hide HostName, Hosts, Entries;
    if rs != [] {
      var r := rs[0];
      AllKnown(rs[1..]);
      NamesOfEntries(r);
      assert Searchable(r);
      assert forall d :: 0 <= d < Count(r) ==> Entries(r)[d].known;
      assert Entries(r) == Asked(Hosts(r));
      assert Asked(Hosts(r) + Expand(rs[1..])) == Asked(Hosts(r)) + Asked(Expand(rs[1..]));
    }
  }

  lemma AskedIn(names: seq<string>, name: string)
    ensures Entry(name, true) in Asked(names) <==> name in names
  {
    if name in names {
      var i :| 0 <= i < |names| && names[i] == name;
      assert Asked(names)[i] == Entry(name, true);
    }
  }

  lemma AskedIndex(names: seq<string>, name: string)
    ensures IndexOf(Asked(names), Entry(name, true)) == IndexOf(names, name)
  {
    AskedIn(names, name);
    if name in names {
      var i := IndexOf(names, name);
      assert Asked(names)[..i] == Asked(names[..i]);
      AskedIn(names[..i], name);
      IndexOfIs(Asked(names), Entry(name, true), i);
    }
  }
}

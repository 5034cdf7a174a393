/** How a host list prints, by the names of its hosts: each run of ranges as the one name it
    has, or as its prefix and, in brackets, the rest of the first and the last name of each
    range. */
module HostPrinted {
  import opened Decimal
  import opened HostRange
  import opened HostNames
  import opened HostText
  import opened HostRoundTrip

  /** A comma between texts. */
  function Commas(texts: seq<string>): string {
    if texts == [] then ""
    else if |texts| == 1 then texts[0]
    else texts[0] + "," + Commas(texts[1..])
  }

  function Behind(name: string, n: nat): string {
    if n <= |name| then name[n..] else ""
  }

  /** What the names of a range have behind their prefix: that of the first, and of the last if
      there are more. */
  function Ends(r: Range): string
    requires Proper(r)
  {
    var names, n := Hosts(r), |r.prefix|;
    if |names| == 1 then Behind(names[0], n)
    else Behind(names[0], n) + "-" + Behind(names[|names| - 1], n)
  }

  function AllEnds(group: seq<Range>): (texts: seq<string>)
    requires AllProper(group)
    ensures |texts| == |group| && forall j :: 0 <= j < |group| ==> texts[j] == Ends(group[j])
  {
    seq(|group|, j requires 0 <= j < |group| => Ends(group[j]))
  }

  /** A run by its names: the name, if it is one; else the ends of its ranges in brackets. */
  function ByNames(group: seq<Range>): string
    requires AllProper(group) && group != []
  {
    if |Expand(group)| == 1 then Expand(group)[0]
    else group[0].prefix + "[" + Commas(AllEnds(group)) + "]"
  }

  /** The text of a range is that of its first and its last name. */
  lemma NumStrNames(r: Range)
    requires Proper(r)
    ensures NumStr(r) == Ends(r)
    ensures forall k :: 0 <= k < |Hosts(r)| ==> r.prefix <= Hosts(r)[k]
    ensures |Hosts(r)| == 1 ==> r.prefix + NumStr(r) == Hosts(r)[0]
  {
    hide Hosts, NumStr, Ends, Names;
    if r.single {
      SingleNames(r);
    } else {
      NumberedNames(r);
    }
    forall k | 0 <= k < |Hosts(r)| ensures r.prefix <= Hosts(r)[k] {
      PrefixOfHost(r, k);
    }
  }

  lemma PrefixOfHost(r: Range, k: nat)
    requires Proper(r) && k < |Hosts(r)|
    ensures r.prefix <= Hosts(r)[k]
  {
    hide Hosts, HostName;
    HostAt(r, k);
    NameParts(r.prefix, r.width, r.lo + k);
  }

  lemma SingleNames(r: Range)
    requires Proper(r) && r.single
    ensures NumStr(r) == Ends(r) == "" && Hosts(r) == [r.prefix] && r.prefix + "" == r.prefix
  {}

  lemma NumberedNames(r: Range)
    requires Proper(r) && !r.single
    ensures NumStr(r) == Ends(r)
    ensures |Hosts(r)| == 1 ==> r.prefix + NumStr(r) == Hosts(r)[0]
  {
    hide Hosts, HostName, Behind, Padded;
    var n := |Hosts(r)|;
    assert n == Count(r);
    HostAt(r, 0);
    HostAt(r, n - 1);
    NameParts(r.prefix, r.width, r.lo);
    NameParts(r.prefix, r.width, r.hi);
    if n == 1 { assert NumStr(r) == Padded(r.lo, r.width); }
  }

  lemma NameParts(prefix: string, width: nat, n: nat)
    ensures var name := HostName(prefix, width, n);
            prefix <= name && name == prefix + Padded(n, width) && Behind(name, |prefix|) == Padded(n, width)
    ensures prefix <= prefix && Behind(prefix, |prefix|) == ""
  {}

  lemma {:induction false} NumListNames(group: seq<Range>)
    requires AllProper(group)
    ensures NumList(group) == Commas(AllEnds(group))
  {
    hide NumStr, Ends, Proper;
    if group != [] {
      NumStrNames(group[0]);
      assert AllEnds(group)[1..] == AllEnds(group[1..]);
      NumListNames(group[1..]);
    }
  }

  /** What is printed for a run of ranges is what its names say. */
  lemma GroupTextNames(group: seq<Range>)
    requires AllProper(group) && group != []
    ensures GroupText(group) == ByNames(group)
  {
    hide NumStr, NumList, Hosts, AllEnds, Proper, Expand;
    NumListNames(group);
    ExpandFirst(group);
    assert |Expand(group[1..])| >= |group| - 1;
    if |group| == 1 {
      ExpandNone(group[1..]);
      NumStrNames(group[0]);
    }
  }

  // ---- the runs of a list ----

  /** Numbered ranges of one prefix. */
  predicate Together(a: Range, b: Range) {
    !a.single && !b.single && a.prefix == b.prefix
  }

  /** The list cut into runs. */
  function Runs(rs: seq<Range>): (runs: seq<seq<Range>>)
    requires AllProper(rs)
    ensures forall k :: 0 <= k < |runs| ==> AllProper(runs[k]) && runs[k] != []
    decreases |rs|
  {
    if rs == [] then []
    else
      var e := GroupEnd(rs, 1);
      [rs[..e]] + Runs(rs[e..])
  }

  function Flat(runs: seq<seq<Range>>): seq<Range> {
    if runs == [] then [] else runs[0] + Flat(runs[1..])
  }

  lemma WithinIff(a: Range, b: Range)
    ensures WithinRange(a, b) <==> Together(a, b)
  {
    PrefixCmpZero(a, b);
  }

  predicate AllTogether(run: seq<Range>) {
    forall j :: 0 < j < |run| ==> Together(run[j - 1], run[j])
  }

  /** The run at k does not go on with the one before it. */
  predicate CutAt(runs: seq<seq<Range>>, k: nat)
    requires 0 < k < |runs|
  {
    runs[k - 1] != [] && runs[k] != [] && !Together(runs[k - 1][|runs[k - 1]| - 1], runs[k][0])
  }

  lemma FirstRunTogether(rs: seq<Range>, e: nat)
    requires rs != [] && e == GroupEnd(rs, 1)
    ensures AllTogether(rs[..e]) && (e < |rs| ==> !Together(rs[e - 1], rs[e]))
  {
    hide WithinRange;
    forall j | 0 < j < e ensures Together(rs[j - 1], rs[j]) {
      assert Continues(rs, j);
      WithinIff(rs[j], rs[j - 1]);
    }
    if e < |rs| { WithinIff(rs[e], rs[e - 1]); }
  }

  lemma CutMoves(runs: seq<seq<Range>>, more: seq<seq<Range>>, k: nat)
    requires runs != [] && runs[1..] == more && 1 < k < |runs| && CutAt(more, k - 1)
    ensures CutAt(runs, k)
  {
    assert runs[k] == more[k - 1] && runs[k - 1] == more[k - 2];
  }

  lemma FirstCut(rs: seq<Range>, e: nat, runs: seq<seq<Range>>)
    requires 0 < e < |rs| && !Together(rs[e - 1], rs[e])
    requires |runs| > 1 && runs[0] == rs[..e] && runs[1] != [] && runs[1][0] == rs[e..][0]
    ensures CutAt(runs, 1)
  {}

  /** The runs make up the list; the ranges of a run belong together; and those on either side
      of a cut do not. */
  lemma {:induction false} RunsMeaning(rs: seq<Range>)
    requires AllProper(rs)
    ensures var runs := Runs(rs);
            && Flat(runs) == rs && (rs != [] ==> runs != [] && runs[0] != [] && runs[0][0] == rs[0])
            && (forall k :: 0 <= k < |runs| ==> AllTogether(runs[k]))
            && (forall k :: 0 < k < |runs| ==> CutAt(runs, k))
    decreases |rs|
  {
    hide GroupEnd, Proper, Together, AllTogether, CutAt;
    if rs != [] {
      var e := GroupEnd(rs, 1);
      assert 1 <= e <= |rs|;
      var runs, more := Runs(rs), Runs(rs[e..]);
      RunsMeaning(rs[e..]);
      FirstRunTogether(rs, e);
      assert runs[0] == rs[..e] && runs[1..] == more && rs[..e] + rs[e..] == rs;
      forall k | 0 <= k < |runs| ensures AllTogether(runs[k]) {
        assert k > 0 ==> runs[k] == more[k - 1];
      }
      forall k | 0 < k < |runs| ensures CutAt(runs, k) {
        if k > 1 {
          CutMoves(runs, more, k);
        } else {
          FirstCut(rs, e, runs);
        }
      }
    }
  }

  function Texts(runs: seq<seq<Range>>): (texts: seq<string>)
    requires forall k :: 0 <= k < |runs| ==> AllProper(runs[k]) && runs[k] != []
    ensures |texts| == |runs| && forall k :: 0 <= k < |texts| ==> texts[k] == ByNames(runs[k])
  {
    seq(|runs|, k requires 0 <= k < |runs| => ByNames(runs[k]))
  }

  /** Texts that are empty do not count as long as nothing else was printed. */
  function FromText(texts: seq<string>): seq<string> {
    if texts == [] || texts[0] != "" then texts else FromText(texts[1..])
  }

  lemma {:induction false} ListedNames(rs: seq<Range>)
    requires AllProper(rs)
    ensures Listed(rs) == Commas(Texts(Runs(rs)))
    decreases |rs|
  {
    hide GroupText, ByNames, GroupEnd, Proper, Listed;
    if rs == [] {
      ListedNone();
    } else {
      var e := GroupEnd(rs, 1);
      assert 1 <= e <= |rs|;
      ListedUnfold(rs);
      GroupTextNames(rs[..e]);
      ListedNames(rs[e..]);
      assert Texts(Runs(rs))[0] == ByNames(rs[..e]);
      assert Texts(Runs(rs))[1..] == Texts(Runs(rs[e..]));
    }
  }

  lemma ListedNone()
    ensures Listed([]) == ""
  {}

  /** hostlist_ranged_string prints the runs by their names, with commas between. */
  lemma {:induction false} PrintedNames(rs: seq<Range>)
    requires AllProper(rs)
    ensures Printed(rs) == Commas(FromText(Texts(Runs(rs))))
    decreases |rs|
  {
    hide GroupText, ByNames, GroupEnd, Proper, Listed, Printed;
    if rs == [] {
      PrintedNone(rs);
    } else {
      var e := GroupEnd(rs, 1);
      assert 1 <= e <= |rs|;
      PrintedUnfold(rs);
      GroupTextNames(rs[..e]);
      assert Texts(Runs(rs))[0] == ByNames(rs[..e]);
      assert Texts(Runs(rs))[1..] == Texts(Runs(rs[e..]));
      if ByNames(rs[..e]) == "" {
        PrintedNames(rs[e..]);
      } else {
        ListedNames(rs);
      }
    }
  }
}

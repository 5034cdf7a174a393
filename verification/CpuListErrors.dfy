/** What cstr_to_cpuset refuses: exactly which items do not read, and what it has set by then. */
module CpuListErrors {
  import opened Decimal
  import opened Search
  import opened CpuList

  // ---- items that do not read ----

  /** A zero with more digits behind it. */
  predicate LeadingZero(x: string) {
    |x| > 1 && x[0] == '0' && IsDigit(x[1])
  }

  /** From c on, a range that starts at a does not end: there is no number, or one that is
      too large or less than a, or a colon with no number behind it. */
  predicate BadEnd(x: string, a: nat, c: nat)
    requires c <= |x|
  {
    || !StartsNumber(x, c) || Strtoul(x, c).0 >= CPU_SETSIZE || Strtoul(x, c).0 < a
    || (Find(x, ':', c) < |x| && !StartsNumber(x, Find(x, ':', c) + 1))
  }

  /** An item does not read: it starts with no number, or one that is too large or has a
      leading zero; or it has a dash, but not behind the number, or no end of a range there. */
  predicate BadItem(x: string) {
    || !StartsNumber(x, 0) || Strtoul(x, 0).0 >= CPU_SETSIZE || LeadingZero(x)
    || (Find(x, '-', 0) < |x| &&
        (Strtoul(x, 0).1 != Find(x, '-', 0) || BadEnd(x, Strtoul(x, 0).0, Find(x, '-', 0) + 1)))
  }

  // ---- an item within a text ----

  /** The item x stands at p, and nothing or a comma behind it. */
  predicate StandsAt(s: string, p: nat, x: string, more: string) {
    p <= |s| && s[p..] == x + more && ',' !in x && (more != "" ==> more[0] == ',')
  }

  lemma Within(s: string, p: nat, x: string, more: string)
    requires StandsAt(s, p, x, more)
    ensures |s| == p + |x| + |more|
    ensures forall i :: 0 <= i < |x| ==> s[p + i] == x[i]
    ensures more != "" ==> s[p + |x|] == ','
  {
    forall i | 0 <= i < |x| ensures s[p + i] == x[i] { assert s[p..][i] == (x + more)[i]; }
    assert more != "" ==> s[p..][|x|] == (x + more)[|x|];
  }

  lemma {:induction false} SpacesWithin(s: string, p: nat, x: string, more: string, i: nat)
    requires StandsAt(s, p, x, more) && i <= |x|
    ensures p + i <= |s| && SpacesEnd(s, p + i) == p + SpacesEnd(x, i)
    decreases |x| - i
  {
    Within(s, p, x, more);
    if i < |x| && IsSpace(x[i]) { SpacesWithin(s, p, x, more, i + 1); }
  }

  lemma {:induction false} DigitsWithin(s: string, p: nat, x: string, more: string, i: nat)
    requires StandsAt(s, p, x, more) && i <= |x|
    ensures p + i <= |s| && DigitsEnd(s, p + i) == p + DigitsEnd(x, i)
    decreases |x| - i
  {
    Within(s, p, x, more);
    if i < |x| && IsDigit(x[i]) { DigitsWithin(s, p, x, more, i + 1); }
  }

  /** A number in an item does not depend on what is around the item. */
  lemma NumberWithin(s: string, p: nat, x: string, more: string, i: nat)
    requires StandsAt(s, p, x, more) && i <= |x|
    ensures p + i <= |s| && Strtoul(s, p + i) == (Strtoul(x, i).0, p + Strtoul(x, i).1)
  {
    hide SpacesEnd, DigitsEnd, Value, StandsAt, IsDigit;
    SpacesWithin(s, p, x, more, i);
    var j := SpacesEnd(x, i);
    SignWithin(s, p, x, more, j);
    var k := if j < |x| && (x[j] == '+' || x[j] == '-') then j + 1 else j;
    DigitsWithin(s, p, x, more, k);
    SliceWithin(s, p, x, more, k, DigitsEnd(x, k));
  }

  lemma SignWithin(s: string, p: nat, x: string, more: string, j: nat)
    requires StandsAt(s, p, x, more) && j <= |x|
    ensures p + j <= |s| && (j < |x| ==> p + j < |s| && s[p + j] == x[j])
    ensures j == |x| && p + j < |s| ==> s[p + j] == ','
  {
    Within(s, p, x, more);
  }

  lemma SliceWithin(s: string, p: nat, x: string, more: string, i: nat, j: nat)
    requires StandsAt(s, p, x, more) && i <= j <= |x|
    ensures p + j <= |s| && s[p + i..p + j] == x[i..j]
  {
    Within(s, p, x, more);
  }

  /** Looking for a character of an item. */
  lemma FindWithin(s: string, p: nat, x: string, more: string, c: char, i: nat)
    requires StandsAt(s, p, x, more) && i <= |x|
    ensures p + i <= |s|
    ensures Find(x, c, i) < |x| ==> Find(s, c, p + i) == p + Find(x, c, i)
    ensures Find(x, c, i) == |x| ==> Find(s, c, p + i) >= p + |x|
    ensures c == ',' ==> Find(s, c, p + i) == p + |x|
    ensures c != ',' && more != "" && Find(x, c, i) == |x| ==> Find(s, c, p + i) > p + |x|
  {
    hide Find;
    Within(s, p, x, more);
    var k := Find(x, c, i);
    assert s[p + i..p + k] == x[i..k];
    if k < |x| {
      FindAt(s, c, p + i, p + k);
    } else {
      FindLater(s, c, p + i, p + |x|);
    }
  }

  lemma {:induction false} NoValueZeros(d: string)
    requires AllDigits(d) && Value(d) == 0
    ensures forall i :: 0 <= i < |d| ==> d[i] == '0'
  {
    if |d| > 0 { NoValueZeros(d[..|d| - 1]); }
  }

  /** The two tests for leading zeros together. */
  lemma LeadingIff(x: string)
    requires |x| > 0
    ensures var a := Strtoul(x, 0).0;
            (a != 0 && x[0] == '0') || (a == 0 && x[0] == '0' && |x| > 1 && x[1] == '0') <==> LeadingZero(x)
  {
    if x[0] == '0' {
      hide SpacesEnd, Value;
      SpacesIs(x, 0, 0);
      var e := DigitsEnd(x, 0);
      DigitsFrom(x, 0);
      if LeadingZero(x) {
        DigitsTwo(x);
        if Value(x[0..e]) == 0 {
          NoValueZeros(x[0..e]);
          assert x[0..e][1] == x[1];
        }
      } else {
        OneDigit(x);
      }
    }
  }

  lemma DigitsTwo(x: string)
    requires |x| > 1 && IsDigit(x[0]) && IsDigit(x[1])
    ensures DigitsEnd(x, 0) >= 2
  {
    assert DigitsEnd(x, 0) == DigitsEnd(x, 1);
  }

  lemma OneDigit(x: string)
    requires |x| > 0 && x[0] == '0' && !(|x| > 1 && IsDigit(x[1]))
    ensures DigitsEnd(x, 0) == 1 && Value(x[0..1]) == 0
  {
    assert DigitsEnd(x, 0) == DigitsEnd(x, 1);
    assert x[0..1] == "0" && "0"[..0] == "";
  }

  /** The end of a range is refused exactly if it is a bad one. */
  lemma EndIff(s: string, p: nat, x: string, more: string, a: nat, c: nat)
    requires StandsAt(s, p, x, more) && c <= |x|
    ensures p + c <= |s|
    ensures ParseRange(s, a, p + c, NextToken(s, p, ',')).Bad? <==> BadEnd(x, a, c)
  {
    hide Strtoul, Find, StartsNumber, StandsAt;
    Within(s, p, x, more);
    NumberWithin(s, p, x, more, c);
    StartsIff(x, c);
    FindWithin(s, p, x, more, ',', 0);
    FindWithin(s, p, x, more, ':', c);
    var d := Find(x, ':', c);
    if d < |x| {
      NumberWithin(s, p, x, more, d + 1);
      StartsIff(x, d + 1);
    }
  }

  /** An item is refused exactly if it is a bad one, whatever is around it. */
  lemma ItemIff(s: string, p: nat, x: string, more: string)
    requires StandsAt(s, p, x, more)
    ensures ParseItem(s, p).Bad? <==> BadItem(x)
  {
    hide Strtoul, Find, StartsNumber, ParseRange, BadEnd, StandsAt, LeadingZero;
    Within(s, p, x, more);
    NumberWithin(s, p, x, more, 0);
    StartsIff(x, 0);
    FindWithin(s, p, x, more, ',', 0);
    FindWithin(s, p, x, more, '-', 0);
    if |x| > 0 { LeadingIff(x); }
    assert |x| == 1 && more != "" ==> s[p + 1] == ',';
    var a, d := Strtoul(x, 0).0, Find(x, '-', 0);
    if d < |x| {
      EndIff(s, p, x, more, a, d + 1);
    }
  }

  // ---- lists ----

  /** The text of a list up to its next item. */
  function Lead(ws: seq<Written>): string {
    if ws == [] then "" else Texts(ws) + ","
  }

  lemma LeadFirst(ws: seq<Written>)
    requires ws != []
    ensures Lead(ws) == ItemText(ws[0]) + "," + Lead(ws[1..])
  {
    hide ItemText;
    assert |ws| == 1 ==> ws[1..] == [];
  }

  /** The items that read set their CPUs before the parser comes to the next one. */
  lemma {:induction false} LeadParses(s: string, p: nat, ws: seq<Written>, rest: string, mask: set<nat>)
    requires AllLegible(ws) && AllProper(SpansIn(ws)) && p <= |s| && s[p..] == Lead(ws) + rest
    ensures |rest| <= |s| && s[|s| - |rest|..] == rest
    ensures ParseFrom(s, p, mask) == ParseFrom(s, |s| - |rest|, mask + Union(SpansIn(ws)))
    decreases |ws|
  {
    hide ParseItem, NextToken, ItemText, SpanText, Strided, Texts, Legible, Lead;
    var k := |Lead(ws)|;
    assert s[p + k..] == s[p..][k..] == rest;
    if ws == [] {
      LeadNone();
      NoUnion(SpansIn(ws));
      assert mask + {} == mask;
    } else {
      var w, t := ws[0], ws[0].t;
      LeadFirst(ws);
      var after := "," + (Lead(ws[1..]) + rest);
      assert s[p..] == ItemText(w) + after;
      ItemReads(s, p, w, after);
      var q := p + |ItemText(w)| + 1;
      assert s[q..] == s[p..][|ItemText(w)| + 1..] == Lead(ws[1..]) + rest;
      assert SpansIn(ws)[0] == t && SpansIn(ws)[1..] == SpansIn(ws[1..]);
      var more := mask + Strided(t.a, t.b, t.step);
      LeadParses(s, q, ws[1..], rest, more);
      assert more + Union(SpansIn(ws[1..])) == mask + Union(SpansIn(ws));
    }
  }

  lemma LeadNone()
    ensures Lead([]) == ""
  {}

  /** A list is refused at its first bad item, whatever follows it; the CPUs of the items
      before it are set by then. */
  lemma Refused(ws: seq<Written>, x: string, more: string)
    requires AllLegible(ws) && AllProper(SpansIn(ws))
    requires ',' !in x && BadItem(x) && (more != "" ==> more[0] == ',') && (ws == [] && x == "" ==> more != "")
    ensures ParseList(Lead(ws) + (x + more)) == Returns(1, Union(SpansIn(ws)))
  {
    hide ParseItem, BadItem, NextToken, Texts, Lead, Union, Legible;
    var s, rest := Lead(ws) + (x + more), x + more;
    assert s[0..] == s;
    LeadParses(s, 0, ws, rest, {});
    var p := |s| - |rest|;
    ItemIff(s, p, x, more);
    assert {} + Union(SpansIn(ws)) == Union(SpansIn(ws));
    LeadSome(ws);
  }

  lemma LeadSome(ws: seq<Written>)
    ensures Lead(ws) == "" ==> ws == []
  {}

  /** 5-3 is refused, and so is 0-3,abc with the CPUs 0 to 3 set. */
  lemma RefusedExamples()
    ensures ParseList("5-3") == Returns(1, {})
    ensures ParseList("0-3,abc") == Returns(1, {0, 1, 2, 3})
  {
    hide Strtoul, Find, ParseList, Union, Texts, Legible;
    FallingIsBad();
    NoUnion(SpansIn([]));
    assert Lead([]) + ("5-3" + "") == "5-3";
    Refused([], "5-3", "");
    var w := Written(Span(0, 3, 1), "");
    assert !StartsNumber("abc", 0);
    assert Legible(w) by { LegibleIs(w); }
    ThreeText(w);
    assert SpansIn([w]) == [Span(0, 3, 1)] && [Span(0, 3, 1)][1..] == [];
    OneUnion(0, 3, SpansIn([w]));
    NoUnion(SpansIn([w])[1..]);
    assert Lead([w]) + ("abc" + "") == "0-3,abc";
    Refused([w], "abc", "");
  }

  lemma FallingIsBad()
    ensures BadItem("5-3")
  {
    var x := "5-3";
    assert Dec(5) == "5" && Dec(3) == "3";
    hide Strtoul, Dec;
    hide Find, LeadingZero;
    assert x[0..] == x == Dec(5) + "-3" && x[2..] == Dec(3) + "";
    DecReads(x, 0, 5, "-3");
    DecReads(x, 2, 3, "");
    FindAt(x, '-', 0, 1);
  }

  lemma ThreeText(w: Written)
    requires w == Written(Span(0, 3, 1), "")
    ensures Texts([w]) == "0-3"
  {
    assert Dec(0) == "0" && Dec(3) == "3";
  }
}

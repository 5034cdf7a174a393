/** Printing a host list and reading it back gives the same names in the same order. */
module HostRoundTrip {
  import opened Sequences
  import opened Decimal
  import opened Search
  import opened HostRange
  import opened HostNames
  import opened HostEntries
  import opened HostLists
  import opened HostText

  // ---- which lists print unambiguously ----

  /** Free of separators and brackets. */
  predicate Plain(s: string) {
    forall i :: 0 <= i < |s| ==> !IsSep(s[i]) && s[i] != '[' && s[i] != ']'
  }

  predicate Bracketed(group: seq<Range>)
    requires AllProper(group) && group != []
  {
    Count(group[0]) > 1 || |group| > 1
  }

  /** The limits of the parser, for ranges that print together. */
  predicate PrintableGroup(group: seq<Range>)
    requires AllProper(group) && group != []
  {
    && Plain(group[0].prefix) && Bounded(group)
    && (Bracketed(group) ==>
          |group| <= MAX_RANGES && forall j :: 0 <= j < |group| ==> group[j].hi - group[j].lo < MAX_RANGE)
    && (!Bracketed(group) ==> 0 < |GroupText(group)| < TOKEN_SIZE)
  }

  predicate Printable(rs: seq<Range>)
    requires AllProper(rs)
    decreases |rs|
  {
    rs != [] ==>
      var e := GroupEnd(rs, 1);
      PrintableGroup(rs[..e]) && Printable(rs[e..])
  }

  /** Numbered ranges of one prefix. */
  predicate OnePrefix(group: seq<Range>) {
    && AllProper(group) && group != []
    && (|group| > 1 ==> !group[0].single)
    && forall j :: 0 < j < |group| ==> !group[j].single && group[j].prefix == group[0].prefix
  }

  lemma GroupIsOnePrefix(rs: seq<Range>)
    requires AllProper(rs) && rs != []
    ensures OnePrefix(rs[..GroupEnd(rs, 1)])
  {
    var e := GroupEnd(rs, 1);
    forall j | 0 < j < e
      ensures !rs[j].single && !rs[0].single && rs[j].prefix == rs[0].prefix
    {
      SamePrefix(rs, e, j);
    }
  }

  lemma {:induction false} SamePrefix(rs: seq<Range>, e: nat, j: nat)
    requires 0 < j < e <= |rs| && forall k :: 1 <= k < e ==> Continues(rs, k)
    ensures !rs[j].single && !rs[0].single && rs[j].prefix == rs[0].prefix
  {
    assert Continues(rs, j);
    PrefixCmpZero(rs[j], rs[j - 1]);
    if j > 1 {
      SamePrefix(rs, e, j - 1);
    }
  }

  // ---- numbers ----

  /** A string in which no character is a separator but commas, and none a bracket. */
  predicate Unbracketed(s: string) {
    '[' !in s && ']' !in s
  }

  lemma NumStrPlain(r: Range)
    ensures Plain(NumStr(r)) && ',' !in NumStr(r)
  {
    hide Padded;
  }

  lemma StrtoulWhole(n: nat, w: nat)
    requires n <= ULONG_MAX
    ensures Strtoul(Padded(n, w), 0) == (n, |Padded(n, w)|)
  {
    hide Strtoul, Padded;
    assert Padded(n, w)[0..] == Padded(n, w) + "";
    StrtoulOfPadded(Padded(n, w), 0, n, w, "");
  }

  /** How a range reads back: its width is that of its lowest suffix in print. */
  function SpanOf(r: Range): Span {
    Span(r.lo, r.hi, PrintedWidth(r))
  }

  /** Which numbers between brackets are accepted. */
  predicate Accepted(r: Range) {
    r.hi - r.lo < MAX_RANGE || (r.lo == 0 && r.hi == ULONG_MAX)
  }

  lemma CountWraps(r: Range)
    requires r.lo <= r.hi <= ULONG_MAX
    ensures WrappedCount(r.lo, r.hi) <= MAX_RANGE <==> Accepted(r)
  {}

  /** A range is accepted if it is not too long, or so long that its count wraps to 0. */
  lemma NumStrParses(r: Range)
    requires Proper(r) && !r.single && r.hi <= ULONG_MAX
    ensures ParseSingleRange(NumStr(r)) == if Accepted(r) then Some(SpanOf(r)) else None
  {
    hide Padded, Strtoul, Find, WrappedCount;
    CountWraps(r);
    var a, b, s := Padded(r.lo, r.width), Padded(r.hi, r.width), NumStr(r);
    StrtoulWhole(r.lo, r.width);
    StrtoulWhole(r.hi, r.width);
    if r.lo < r.hi {
      assert s == a + ("-" + b);
      assert s[..|a|] == a && s[|a| + 1..] == b && s[0..|a|] == a;
      FindAt(s, '-', 0, |a|);
    } else {
      assert s == a && s[0..|s|] == a && s[..|s|] == a;
      FindAt(s, '-', 0, |s|);
    }
  }

  function SpansOf(group: seq<Range>): seq<Span> {
    if group == [] then [] else [SpanOf(group[0])] + SpansOf(group[1..])
  }

  lemma ParseUnfold(str: string, n: nat)
    requires n > 0
    ensures var p := Find(str, ',', 0);
            var one := ParseSingleRange(str[..p]);
            && (one.Some? && p == |str| ==> ParseRangeList(str, n) == Some([one.value]))
            && (one.Some? && p < |str| && ParseRangeList(str[p + 1..], n - 1).Some? ==>
                ParseRangeList(str, n) == Some([one.value] + ParseRangeList(str[p + 1..], n - 1).value))
  {
    hide Find, ParseSingleRange;
  }

  lemma {:induction false} NumListParses(group: seq<Range>, n: nat)
    requires AllProper(group) && Bounded(group) && 0 < |group| <= n
    requires forall j :: 0 <= j < |group| ==> !group[j].single && group[j].hi - group[j].lo < MAX_RANGE
    ensures ParseRangeList(NumList(group), n) == Some(SpansOf(group))
    ensures Unbracketed(NumList(group))
  {
    hide NumStr, ParseSingleRange, Find, ParseRangeList;
    var s, a := NumList(group), NumStr(group[0]);
    NumStrParses(group[0]);
    NumStrPlain(group[0]);
    ParseUnfold(s, n);
    if |group| == 1 {
      assert s[0..|s|] == s && s[..|s|] == s;
      FindAt(s, ',', 0, |s|);
      assert SpansOf(group) == [SpanOf(group[0])];
    } else {
      var t := NumList(group[1..]);
      assert s == a + ("," + t);
      assert s[0..|a|] == a && s[..|a|] == a && s[|a| + 1..] == t;
      FindAt(s, ',', 0, |a|);
      NumListParses(group[1..], n - 1);
    }
  }

  /** The range that is pushed for a span stands for the hosts of the range printed. */
  lemma SpanHosts(r: Range)
    requires Proper(r) && !r.single
    ensures var r' := Range(r.prefix, r.lo, r.hi, PrintedWidth(r), false);
            Proper(r') && Hosts(r') == Hosts(r)
  {
    hide Hosts;
    CanonHosts(r);
    CanonHosts(Range(r.prefix, r.lo, r.hi, PrintedWidth(r), false));
  }

  lemma {:induction false} PushSpansAppends(rs: seq<Range>, prefix: string, group: seq<Range>)
    requires AllProper(rs) && Bounded(rs) && AllProper(group) && Bounded(group)
    requires forall j :: 0 <= j < |group| ==> !group[j].single && group[j].prefix == prefix
    ensures var out := PushSpans(rs, prefix, SpansOf(group));
            AllProper(out) && Bounded(out) && Expand(out) == Expand(rs) + Expand(group)
    decreases |group|
  {
    hide Expand, Hosts, Pushed, PushSpans, SpansOf, Proper, PrintedWidth;
    if group == [] {
      ExpandNone(group);
      SpansOfNone();
      PushSpansNone(rs, prefix);
    } else {
      var r := group[0];
      var pushed := Range(prefix, r.lo, r.hi, PrintedWidth(r), false);
      SpanHosts(r);
      PushedAppends(rs, pushed);
      PushSpansAppends(Pushed(rs, pushed), prefix, group[1..]);
      SpansOfFirst(group);
      PushSpansFirst(rs, prefix, SpansOf(group));
      ExpandFirst(group);
    }
  }

  lemma SpansOfNone()
    ensures SpansOf([]) == []
  {}

  lemma SpansOfFirst(group: seq<Range>)
    requires group != []
    ensures SpansOf(group) != [] && SpansOf(group)[0] == SpanOf(group[0]) && SpansOf(group)[1..] == SpansOf(group[1..])
  {}

  lemma PushSpansFirst(rs: seq<Range>, prefix: string, spans: seq<Span>)
    requires AllProper(rs) && Bounded(rs) && spans != []
    ensures PushSpans(rs, prefix, spans)
         == PushSpans(Pushed(rs, Range(prefix, spans[0].lo, spans[0].hi, spans[0].width, false)), prefix, spans[1..])
  {
    hide Pushed;
  }

  lemma PushSpansNone(rs: seq<Range>, prefix: string)
    requires AllProper(rs) && Bounded(rs)
    ensures PushSpans(rs, prefix, []) == rs
  {}

  // ---- one token ----

  /** Reading the text of ranges that print together appends their hosts. */
  lemma GroupPushed(rs: seq<Range>, group: seq<Range>)
    requires AllProper(rs) && Bounded(rs) && OnePrefix(group) && PrintableGroup(group)
    ensures var r := PushToken(rs, GroupText(group));
            && r.Created? && AllProper(r.rs) && Bounded(r.rs)
            && Expand(r.rs) == Expand(rs) + Expand(group)
  {
    if Bracketed(group) {
      BracketsPushed(rs, group);
    } else {
      LonePushed(rs, group[0]);
      assert group == [group[0]];
    }
  }

  lemma BracketsPushed(rs: seq<Range>, group: seq<Range>)
    requires AllProper(rs) && Bounded(rs) && OnePrefix(group) && PrintableGroup(group) && Bracketed(group)
    ensures var r := PushToken(rs, GroupText(group));
            && r.Created? && AllProper(r.rs) && Bounded(r.rs)
            && Expand(r.rs) == Expand(rs) + Expand(group)
  {
    hide Expand, Hosts, Pushed, NumList, ParseRangeList, SpansOf, PushSpans, Find;
    var p, body, tok := group[0].prefix, NumList(group), GroupText(group);
    assert !group[0].single;
    NumListParses(group, MAX_RANGES);
    PushSpansAppends(rs, p, group);
    hide GroupText;
    TokenParts(p, body, tok);
  }

  /** Where the brackets of a token are. */
  lemma TokenParts(p: string, body: string, tok: string)
    requires tok == p + "[" + body + "]" && '[' !in p && ']' !in body
    ensures Find(tok, '[', 0) == |p| < |tok| - 1 == Find(tok, ']', |p| + 1)
    ensures tok[..|p|] == p && tok[|p| + 1..|tok| - 1] == body && tok[|tok|..] == ""
  {
    hide Find;
    assert tok[0..|p|] == p;
    FindAt(tok, '[', 0, |p|);
    assert tok[|p| + 1..|tok| - 1] == body;
    FindAt(tok, ']', |p| + 1, |tok| - 1);
  }

  lemma LonePushed(rs: seq<Range>, r: Range)
    requires AllProper(rs) && Bounded(rs) && Proper(r) && Count(r) == 1
    requires Plain(r.prefix) && |r.prefix + NumStr(r)| < TOKEN_SIZE
    ensures AllProper([r])
    ensures var c := PushToken(rs, GroupText([r]));
            && c.Created? && AllProper(c.rs) && Bounded(c.rs)
            && Expand(c.rs) == Expand(rs) + Expand([r])
  {
    hide Expand, Pushed, RangeOfHost, Padded, Find, HostnameOf;
    var tok := GroupText([r]);
    ExpandOne(r);
    HostAt(r, 0);
    NumStrPlain(r);
    assert tok == r.prefix + NumStr(r);
    assert !r.single ==> NumStr(r) == Padded(r.lo, r.width);
    assert r.single ==> r.prefix + "" == r.prefix;
    assert |Hosts(r)| == Count(r) && Hosts(r)[0] == tok;
    assert Hosts(r) == [tok];
    assert tok[0..|tok|] == tok;
    FindAt(tok, '[', 0, |tok|);
    RangeOfHostMeaning(tok);
    PushedAppends(rs, RangeOfHost(tok));
  }

  /** What the tokenizer must see: plain text, or plain text and one pair of brackets. */
  ghost predicate TokenText(g: string) {
    |g| > 0 && !IsSep(g[0]) && (Plain(g) || exists p, body :: BracketText(g, p, body))
  }

  predicate BracketText(g: string, p: string, body: string) {
    g == p + "[" + body + "]" && Plain(p) && Unbracketed(body)
  }

  lemma GroupIsToken(group: seq<Range>)
    requires OnePrefix(group) && PrintableGroup(group)
    ensures TokenText(GroupText(group))
  {
    hide NumList, NumStr;
    var g, p := GroupText(group), group[0].prefix;
    NumStrPlain(group[0]);
    if Bracketed(group) {
      NumListParses(group, MAX_RANGES);
      assert BracketText(g, p, NumList(group));
      assert g[0] == if |p| > 0 then p[0] else '[';
    } else {
      assert Plain(g);
    }
  }

  /** A token followed by a separator, or by nothing, is found whole. */
  lemma TokenFound(s: string, i: nat, g: string, rest: string)
    requires i <= |s| && s[i..] == g + rest && TokenText(g) && (rest != "" ==> IsSep(rest[0]))
    ensures TokenEnd(s, i) == i + |g| && SkipSeps(s, i) == i
  {
    forall k | 0 <= k < |g| ensures s[i + k] == g[k] { assert s[i..][k] == (g + rest)[k]; }
    assert rest != "" ==> s[i + |g|] == s[i..][|g|] == rest[0];
    var e := SkipToSep(s, i);
    assert e <= i + |g|;
    if Plain(g) {
      assert e == i + |g|;
      assert s[i..e] == g;
    } else {
      var p, body :| BracketText(g, p, body);
      BracketsFound(s, i, g, p, body, e);
    }
  }

  lemma SameStretch(s: string, i: nat, g: string, a: nat, b: nat)
    requires i + |g| <= |s| && a <= b <= |g| && forall k :: 0 <= k < |g| ==> s[i + k] == g[k]
    ensures s[i + a..i + b] == g[a..b]
  {
    forall k | 0 <= k < b - a ensures s[i + a..i + b][k] == g[a..b][k] {
      assert s[i + (a + k)] == g[a + k];
    }
  }

  lemma BracketsFound(s: string, i: nat, g: string, p: string, body: string, e: nat)
    requires BracketText(g, p, body) && i + |g| <= |s|
    requires forall k :: 0 <= k < |g| ==> s[i + k] == g[k]
    requires i + |g| < |s| ==> IsSep(s[i + |g|])
    requires e == SkipToSep(s, i) <= i + |g|
    ensures TokenEnd(s, i) == i + |g|
  {
    hide Find, SkipToSep, Plain, BracketText, PastBrackets, TokenEnd;
    var q := i + |g| - 1;
    BracketsAre(g, p, body);
    BeforeBracket(s, i, g, p, body, e);
    TokenEndOnce(s, i);
    if e > q {
      SameStretch(s, i, g, 0, |g|);
      PastOnce(s, i, e, e);
    } else {
      PastTheBrackets(s, i, g, p, body, e - i);
      EndsThere(s, q + 1);
    }
  }

  lemma PastTheBrackets(s: string, i: nat, g: string, p: string, body: string, k: nat)
    requires BracketText(g, p, body) && i + |g| <= |s| && |p| < k < |g|
    requires forall j :: 0 <= j < |g| ==> s[i + j] == g[j]
    ensures PastBrackets(s, i, i + k) == i + |g|
  {
    hide Find, BracketText, PastBrackets;
    var e, q := i + k, i + (|g| - 1);
    BracketsAre(g, p, body);
    BracketsAround(g, p, body, k);
    SameStretch(s, i, g, 0, k);
    SameStretch(s, i, g, k, |g| - 1);
    FindAt(s, ']', e, q);
    ClosesAt(s, i, e, q);
  }

  lemma ClosesAt(s: string, tok: nat, e: nat, q: nat)
    requires tok <= e <= q < |s| && Find(s, ']', e) == q
    requires '[' in s[tok..e] && ']' !in s[tok..e] && '[' !in s[e..q]
    ensures PastBrackets(s, tok, e) == q + 1
  {
    hide Find;
  }

  /** The brackets of a token: the first opens before any closes, the last closes. */
  lemma BracketsAre(g: string, p: string, body: string)
    requires BracketText(g, p, body)
    ensures |g| == |p| + |body| + 2 && g[|p|] == '[' && g[|g| - 1] == ']' && ']' in g
  {
    assert ']' in g by { assert g[|g| - 1] in g; }
  }

  /** Between the two there is no bracket. */
  lemma BracketsAround(g: string, p: string, body: string, k: nat)
    requires BracketText(g, p, body) && |p| < k < |g|
    ensures '[' in g[..k] && ']' !in g[..k] && '[' !in g[k..|g| - 1] && ']' !in g[k..|g| - 1]
  {
    assert g[..k][|p|] == '[';
    assert forall j :: 0 <= j < |p| ==> g[j] == p[j] && p[j] in p;
    assert forall j :: |p| < j < |g| - 1 ==> g[j] == body[j - |p| - 1] && g[j] in body;
  }

  lemma BeforeBracket(s: string, i: nat, g: string, p: string, body: string, e: nat)
    requires BracketText(g, p, body) && i + |g| <= |s|
    requires forall k :: 0 <= k < |g| ==> s[i + k] == g[k]
    requires e == SkipToSep(s, i) <= i + |g|
    ensures e > i + |p|
  {
    hide SkipToSep;
    assert forall k :: 0 <= k < |p| ==> g[k] == p[k];
    assert forall k :: 0 <= k <= |p| ==> !IsSep(g[k]);
    assert e < i + |g| ==> s[i + (e - i)] == g[e - i];
  }

  lemma EndsThere(s: string, k: nat)
    requires k <= |s| && (k < |s| ==> IsSep(s[k]))
    ensures SkipToSep(s, k) == k
  {}

  // ---- the whole text ----

  lemma CreateStep(s: string, i: nat, rs: seq<Range>, e: nat, next: nat)
    requires i < |s| && SkipSeps(s, i) == i && TokenEnd(s, i) == e && SkipSeps(s, e) == next && next > i
    requires PushToken(rs, s[i..e]).Created?
    ensures CreateFrom(s, i, rs) == CreateFrom(s, next, PushToken(rs, s[i..e]).rs)
  {
    hide PushToken, TokenEnd, SkipSeps;
  }

  lemma CreateEnd(s: string, rs: seq<Range>)
    ensures SkipSeps(s, |s|) == |s|
    ensures CreateFrom(s, |s|, rs) == Created(rs)
  {}

  /** The first run of ranges, as it is found and read. */
  lemma FirstRun(s: string, i: nat, rs: seq<Range>, read: seq<Range>, tail: string)
    requires AllProper(rs) && rs != [] && Printable(rs) && AllProper(read) && Bounded(read)
    requires i <= |s| && s[i..] == Listed(rs) + tail && (tail != "" ==> tail[0] == ',')
    ensures var e := GroupEnd(rs, 1); var g, r := GroupText(rs[..e]), PushToken(read, GroupText(rs[..e]));
            && 0 < |g| <= |s| - i && s[i..i + |g|] == g && TokenEnd(s, i) == i + |g| && SkipSeps(s, i) == i
            && s[i + |g|..] == (if e < |rs| then "," + Listed(rs[e..]) else "") + tail
            && r.Created? && AllProper(r.rs) && Bounded(r.rs) && Expand(r.rs) == Expand(read) + Expand(rs[..e])
            && Printable(rs[e..])
  {
    hide Expand, Hosts, PushToken, TokenEnd, GroupText, PrintableGroup, OnePrefix, TokenText, GroupEnd,
         SkipSeps, Listed, Proper, Continues;
    var e := GroupEnd(rs, 1);
    var g, rest := GroupText(rs[..e]), (if e < |rs| then "," + Listed(rs[e..]) else "") + tail;
    ListedUnfold(rs);
    assert s[i..] == g + rest;
    GroupIsOnePrefix(rs);
    GroupIsToken(rs[..e]);
    TokenFound(s, i, g, rest);
    GroupPushed(read, rs[..e]);
    TokenNonEmpty(g);
    assert s[i..i + |g|] == s[i..][..|g|] == g;
    assert s[i + |g|..] == s[i..][|g|..] == rest;
  }

  /** A printed list is read, with whatever follows it still to come. */
  lemma {:induction false} ReadBack(s: string, i: nat, rs: seq<Range>, read: seq<Range>, tail: string)
    returns (r: seq<Range>)
    requires AllProper(rs) && Printable(rs) && AllProper(read) && Bounded(read)
    requires i <= |s| && s[i..] == Listed(rs) + tail && (tail != "" ==> tail[0] == ',')
    ensures AllProper(r) && Bounded(r) && Expand(r) == Expand(read) + Expand(rs) && |tail| <= |s|
    ensures CreateFrom(s, i, read) == CreateFrom(s, SkipSeps(s, |s| - |tail|), r)
    decreases |rs|
  {
    hide Expand, Hosts, PushToken, TokenEnd, GroupText, PrintableGroup, GroupEnd, CreateFrom, SkipSeps, Listed, Proper,
         Continues, Printable;
    if rs == [] {
      PrintedNone(rs);
      assert i == |s| - |tail|;
      ExpandNone(rs);
      SkippedOnce(s, i, read);
      r := read;
    } else {
      var e := GroupEnd(rs, 1);
      var g, more := GroupText(rs[..e]), rs[e..];
      FirstRun(s, i, rs, read, tail);
      ExpandSplit(rs, e);
      var next, k := PushToken(read, g).rs, i + |g|;
      CreateStep(s, i, read, k, SkipSeps(s, k));
      if e < |rs| {
        NextStart(s, k, more, tail);
        r := ReadBack(s, k + 1, more, next, tail);
      } else {
        assert k == |s| - |tail|;
        ExpandNone(more);
        r := next;
      }
    }
  }

  lemma SkippedOnce(s: string, i: nat, read: seq<Range>)
    requires i <= |s|
    ensures CreateFrom(s, i, read) == CreateFrom(s, SkipSeps(s, i), read)
  {
    hide PushToken, TokenEnd;
    assert SkipSeps(s, SkipSeps(s, i)) == SkipSeps(s, i);
  }

  lemma TokenNonEmpty(g: string)
    requires TokenText(g)
    ensures |g| > 0
  {}

  /** After a comma the next token begins at once. */
  lemma NextStart(s: string, i: nat, rs: seq<Range>, tail: string)
    requires i <= |s| && AllProper(rs) && rs != [] && Printable(rs) && s[i..] == "," + Listed(rs) + tail
    ensures i < |s| && SkipSeps(s, i) == i + 1 && s[i + 1..] == Listed(rs) + tail
  {
    hide Listed, GroupText, PrintableGroup, OnePrefix, GroupEnd;
    GroupIsOnePrefix(rs);
    var g := GroupText(rs[..GroupEnd(rs, 1)]);
    GroupIsToken(rs[..GroupEnd(rs, 1)]);
    ListedUnfold(rs);
    assert s[i] == s[i..][0] == ',';
    assert s[i + 1..] == s[i..][1..] == Listed(rs) + tail;
    assert s[i + 1] == s[i + 1..][0] == g[0];
  }

  lemma PrintableListed(rs: seq<Range>)
    requires AllProper(rs) && Printable(rs)
    ensures Printed(rs) == Listed(rs)
  {
    hide Listed, GroupText, PrintableGroup, OnePrefix, GroupEnd, TokenText;
    if rs == [] {
      PrintedNone(rs);
    } else {
      var e := GroupEnd(rs, 1);
      GroupIsOnePrefix(rs);
      GroupIsToken(rs[..e]);
      TokenNonEmpty(GroupText(rs[..e]));
      PrintedUnfold(rs);
    }
  }

  /** Reading a printed host list gives the same names in the same order. */
  lemma RoundTrip(rs: seq<Range>)
    requires AllProper(rs) && Printable(rs)
    ensures var r := CreateFrom(Printed(rs), 0, []);
            r.Created? && AllProper(r.rs) && Expand(r.rs) == Expand(rs)
  {
    hide CreateFrom, Printed, Listed, Printable, Hosts, Expand;
    var s := Printed(rs);
    PrintableListed(rs);
    assert s[0..] == s;
    assert s == Listed(rs) + "";
    var r := ReadBack(s, 0, rs, [], "");
    CreateEnd(s, r);
    ExpandNone([]);
  }

  // ---- names that are not found ----

  function Foo(): Range {
    Range("foo1", 2, 3, 1, false)
  }

  lemma FooText()
    ensures AllProper([Foo()]) && NumList([Foo()]) == "2-3" && SpansOf([Foo()]) == [Span(2, 3, 1)]
    ensures HostName("foo1", 1, 2) == "foo12"
    ensures PushSpans([], "foo1", [Span(2, 3, 1)]) == [Foo()]
  {
    assert DigitCount(2) == 1 && DigitCount(3) == 1;
    assert Dec(2) == "2" && Dec(3) == "3";
    assert Padded(2, 1) == "2" && Padded(3, 1) == "3";
    assert NumStr(Foo()) == "2-3";
    assert [Foo()][1..] == [] && SpansOf([]) == [];
  }

  lemma FooRead()
    ensures CreateFrom("foo1[2-3]", 0, []) == Created([Foo()])
  {
    var r, s := Foo(), "foo1[2-3]";
    FooText();
    hide Find, ParseRangeList, PrintedWidth, GroupText, TokenEnd, NumList, SpansOf, PushSpans, SkipSeps, CreateFrom;
    NumListParses([r], MAX_RANGES);
    assert s == "foo1" + "[" + "2-3" + "]";
    TokenParts("foo1", "2-3", s);
    assert BracketText(s, "foo1", "2-3");
    assert s[0..] == s == s + "" && s[0..|s|] == s;
    TokenFound(s, 0, s, "");
    CreateEnd(s, [r]);
    assert PushToken([], s) == Created([r]);
    CreateStep(s, 0, [], |s|, |s|);
  }

  /** hostlist_create("foo1[2-3]") makes a range whose prefix ends in a digit; foo12 is one
      of its hosts, and is not found by name. */
  lemma ListedButNotFound()
    ensures CreateFrom("foo1[2-3]", 0, []) == Created([Foo()]) && AllProper([Foo()])
    ensures "foo12" in Expand([Foo()]) && Entry("foo12", true) !in Listing([Foo()])
  {
    var r := Foo();
    FooRead();
    FooText();
    hide CreateFrom, Hosts, Expand, HostName;
    ExpandOne(r);
    HostAt(r, 0);
    assert |Hosts(r)| == Count(r);
    ListingOne(r);
    assert forall d :: 0 <= d < Count(r) ==> !Known(r, d);
  }
}

/** What hostlist_create makes of text in brackets that no list need have printed: exactly which
    ranges it refuses, and what the names are when something follows the brackets. */
module HostReading {
  import opened Sequences
  import opened Decimal
  import opened Search
  import opened HostRange
  import opened HostNames
  import opened HostLists
  import opened HostText
  import opened HostRoundTrip
  import opened HostPrinted

  // ---- ranges ----

  /** The text is a number from its start to its end. */
  predicate IsNumber(x: string) {
    StartsNumber(x, 0) && Strtoul(x, 0).1 == |x|
  }

  predicate TooMany(lo: nat, hi: nat) {
    lo > hi || WrappedCount(lo, hi) > MAX_RANGE
  }

  /** What stands before the first dash, and what behind it. */
  function BeforeDash(x: string): string {
    x[..Find(x, '-', 0)]
  }

  function BehindDash(x: string): string {
    if Find(x, '-', 0) < |x| then x[Find(x, '-', 0) + 1..] else ""
  }

  /** A range that is refused: it does not start with a number; or what follows the dash, or
      else the whole, is something other than a number; or the numbers are not in order, or
      too far apart. */
  predicate BadRange(x: string) {
    var a, b := BeforeDash(x), BehindDash(x);
    || !StartsNumber(a, 0)
    || (if b == "" then !IsNumber(a) || TooMany(Strtoul(a, 0).0, Strtoul(a, 0).0)
        else b[0] == '-' || !IsNumber(b) || TooMany(Strtoul(a, 0).0, Strtoul(b, 0).0))
  }

  /** A range is refused exactly if it is a bad one. */
  lemma RangeIff(x: string)
    ensures ParseSingleRange(x) == None <==> BadRange(x)
  {
    hide Strtoul, Find, WrappedCount, StartsNumber;
    StartsIff(BeforeDash(x), 0);
    StartsIff(BehindDash(x), 0);
    assert x == BeforeDash(x) || BehindDash(x) != "" || Find(x, '-', 0) < |x|;
  }

  /** Digits, or digits on either side of a dash, read as the numbers they are. */
  lemma DigitsRead(a: string, b: string)
    requires AllDigits(a) && AllDigits(b) && a != "" && b != "" && Value(a) <= ULONG_MAX && Value(b) <= ULONG_MAX
    ensures ParseSingleRange(a)
         == if TooMany(Value(a), Value(a)) then None else Some(Span(Value(a), Value(a), |a|))
    ensures ParseSingleRange(a + ("-" + b))
         == if TooMany(Value(a), Value(b)) then None else Some(Span(Value(a), Value(b), |a|))
  {
    hide Strtoul, Find, WrappedCount, Value, AllDigits;
    DigitsWhole(a);
    DigitsWhole(b);
    DashAt(a, b);
    assert a[..|a|] == a;
  }

  lemma DigitsWhole(a: string)
    requires AllDigits(a) && a != "" && Value(a) <= ULONG_MAX
    ensures Strtoul(a, 0) == (Value(a), |a|) && Find(a, '-', 0) == |a| && a[0] != '-'
  {
    hide Strtoul, Find, Value;
    DigitsArePadded(a);
    StrtoulWhole(Value(a), |a|);
    assert a[0..|a|] == a;
    FindAt(a, '-', 0, |a|);
  }

  lemma DashAt(a: string, b: string)
    requires AllDigits(a)
    ensures var x := a + ("-" + b); Find(x, '-', 0) == |a| < |x| && x[..|a|] == a && x[|a| + 1..] == b
  {
    hide Find;
    var x := a + ("-" + b);
    assert x[0..|a|] == a;
    FindAt(x, '-', 0, |a|);
  }

  predicate AnyBad(xs: seq<string>) {
    exists k :: 0 <= k < |xs| && BadRange(xs[k])
  }

  predicate NoCommas(xs: seq<string>) {
    forall k :: 0 <= k < |xs| ==> ',' !in xs[k]
  }

  /** A list of ranges is refused exactly if it is too long or has a bad range. */
  lemma {:induction false} RangesIff(xs: seq<string>, n: nat)
    requires xs != [] && NoCommas(xs)
    ensures ParseRangeList(Commas(xs), n) == None <==> |xs| > n || AnyBad(xs)
    ensures ParseRangeList(Commas(xs), n).Some? ==>
              && |ParseRangeList(Commas(xs), n).value| == |xs|
              && forall k :: 0 <= k < |xs| ==> ParseSingleRange(xs[k]) == Some(ParseRangeList(Commas(xs), n).value[k])
    decreases |xs|
  {
    hide Find, ParseSingleRange, BadRange, Commas, ParseRangeList;
    var s := Commas(xs);
    FirstOf(xs);
    RangeIff(xs[0]);
    if n == 0 {
      NoRoom(s);
    } else {
      assert s[0..] == s;
      ParseStep(s, 0, n);
      if |xs| > 1 {
        assert s[0 + |xs[0]| + 1..] == Commas(xs[1..]);
        RangesIff(xs[1..], n - 1);
        AnyBadFirst(xs);
      } else {
        assert xs == [xs[0]];
      }
    }
  }

  lemma AnyBadFirst(xs: seq<string>)
    requires xs != []
    ensures AnyBad(xs) <==> BadRange(xs[0]) || AnyBad(xs[1..])
  {
    hide BadRange;
    if AnyBad(xs[1..]) {
      var k :| 0 <= k < |xs[1..]| && BadRange(xs[1..][k]);
      assert BadRange(xs[k + 1]);
    }
    if AnyBad(xs) && !BadRange(xs[0]) {
      var k :| 0 <= k < |xs| && BadRange(xs[k]);
      assert BadRange(xs[1..][k - 1]);
    }
  }

  lemma FirstOf(xs: seq<string>)
    requires xs != [] && NoCommas(xs)
    ensures var s := Commas(xs);
            && |xs[0]| <= |s| && Find(s, ',', 0) == |xs[0]| && s[..|xs[0]|] == xs[0]
            && (|xs[0]| == |s| <==> |xs| == 1) && (|xs| > 1 ==> s[|xs[0]| + 1..] == Commas(xs[1..]))
  {
    hide Find;
    var s, k := Commas(xs), |xs[0]|;
    assert s[0..k] == xs[0];
    FindAt(s, ',', 0, k);
  }

  // ---- tokens ----

  /** A token with brackets, and possibly something behind them. */
  predicate IsBracketed(tok: string, prefix: string, xs: seq<string>, suffix: string) {
    && tok == prefix + "[" + Commas(xs) + "]" + suffix && '[' !in prefix && ']' !in Commas(xs)
    && xs != [] && NoCommas(xs)
  }

  lemma TokenIs(tok: string, prefix: string, body: string, suffix: string)
    requires tok == prefix + "[" + body + "]" + suffix && '[' !in prefix && ']' !in body
    ensures var p, q := |prefix|, |prefix| + 1 + |body|;
            && Find(tok, '[', 0) == p && q < |tok| && Find(tok, ']', p + 1) == q
            && tok[..p] == prefix && tok[p + 1..q] == body && tok[q + 1..] == suffix
  {
    hide Find;
    var p, q := |prefix|, |prefix| + 1 + |body|;
    assert tok[0..p] == prefix && tok[p + 1..q] == body;
    FindAt(tok, '[', 0, p);
    FindAt(tok, ']', p + 1, q);
  }

  /** A token is refused exactly if its brackets hold too many ranges, or a bad one. */
  lemma TokenIff(rs: seq<Range>, tok: string, prefix: string, xs: seq<string>, suffix: string)
    requires IsBracketed(tok, prefix, xs, suffix)
    ensures PushToken(rs, tok) == Refused <==> |xs| > MAX_RANGES || AnyBad(xs)
  {
    hide Find, ParseRangeList, AnyBad, Commas, PushSpans, PushSpansSuffixed, GoesOn;
    TokenIs(tok, prefix, Commas(xs), suffix);
    RangesIff(xs, MAX_RANGES);
  }

  // ---- what follows the brackets ----

  /** The names that one range makes between a prefix and a suffix. */
  function Between(prefix: string, suffix: string, sp: Span, n: nat): (names: seq<string>)
    requires n <= sp.hi + 1
    ensures |names| == sp.hi + 1 - n
    ensures forall k :: 0 <= k < |names| ==> names[k] == Fitting(prefix + Padded(n + k, sp.width) + suffix)
  {
    seq(sp.hi + 1 - n, k requires 0 <= k < sp.hi + 1 - n => Fitting(prefix + Padded(n + k, sp.width) + suffix))
  }

  /** As much of a name as its buffer holds. */
  function Fitting(name: string): string {
    if |name| >= NAME_SIZE then name[..NAME_SIZE - 1] else name
  }

  function AllBetween(prefix: string, suffix: string, spans: seq<Span>): seq<string>
    requires InOrder(spans)
  {
    if spans == [] then []
    else Between(prefix, suffix, spans[0], spans[0].lo) + AllBetween(prefix, suffix, spans[1..])
  }

  predicate InOrder(spans: seq<Span>) {
    forall k :: 0 <= k < |spans| ==> spans[k].lo <= spans[k].hi
  }

  lemma {:induction false} SuffixedHosts(rs: seq<Range>, prefix: string, suffix: string, sp: Span, n: nat)
    requires AllProper(rs) && Bounded(rs) && n <= sp.hi + 1
    ensures var out := PushSuffixed(rs, prefix, suffix, sp, n);
            AllProper(out) && Bounded(out) && Expand(out) == Expand(rs) + Between(prefix, suffix, sp, n)
    decreases sp.hi + 1 - n
  {
    hide Pushed, Expand, Padded, Fitting, PushSuffixed, AllProper, Bounded, Hosts, Proper;
    if n <= sp.hi {
      var host := Fitting(prefix + Padded(n, sp.width) + suffix);
      SingleHost(host);
      PushedAppends(rs, Single(host));
      SuffixedHosts(Pushed(rs, Single(host)), prefix, suffix, sp, n + 1);
      SuffixedStep(rs, prefix, suffix, sp, n);
      assert Between(prefix, suffix, sp, n) == [host] + Between(prefix, suffix, sp, n + 1);
    } else {
      SuffixedNone(rs, prefix, suffix, sp, n);
      assert Expand(rs) + [] == Expand(rs);
    }
  }

  lemma SingleHost(name: string)
    ensures Proper(Single(name)) && Hosts(Single(name)) == [name] && Single(name).hi == 0
  {}

  lemma SuffixedStep(rs: seq<Range>, prefix: string, suffix: string, sp: Span, n: nat)
    requires n <= sp.hi
    ensures PushSuffixed(rs, prefix, suffix, sp, n) ==
            PushSuffixed(Pushed(rs, Single(Fitting(prefix + Padded(n, sp.width) + suffix))), prefix, suffix, sp, n + 1)
  {
    hide Pushed, Padded;
  }

  lemma SuffixedNone(rs: seq<Range>, prefix: string, suffix: string, sp: Span, n: nat)
    requires n == sp.hi + 1
    ensures PushSuffixed(rs, prefix, suffix, sp, n) == rs
  {}

  lemma {:induction false} AllSuffixedHosts(rs: seq<Range>, prefix: string, suffix: string, spans: seq<Span>)
    requires AllProper(rs) && Bounded(rs) && InOrder(spans)
    ensures var out := PushSpansSuffixed(rs, prefix, suffix, spans);
            AllProper(out) && Bounded(out) && Expand(out) == Expand(rs) + AllBetween(prefix, suffix, spans)
    decreases |spans|
  {
    hide PushSuffixed, PushSpansSuffixed, AllBetween, Expand, Between, AllProper, Bounded;
    if spans == [] {
      NoneSuffixed(rs, prefix, suffix, spans);
      assert Expand(rs) + [] == Expand(rs);
    } else {
      assert spans[0].lo <= spans[0].hi;
      var names, more := Between(prefix, suffix, spans[0], spans[0].lo), spans[1..];
      SpanSuffixed(rs, prefix, suffix, spans);
      SuffixedHosts(rs, prefix, suffix, spans[0], spans[0].lo);
      AllSuffixedHosts(PushSuffixed(rs, prefix, suffix, spans[0], spans[0].lo), prefix, suffix, more);
      assert Expand(rs) + names + AllBetween(prefix, suffix, more) == Expand(rs) + AllBetween(prefix, suffix, spans);
    }
  }

  lemma NoneSuffixed(rs: seq<Range>, prefix: string, suffix: string, spans: seq<Span>)
    requires |spans| == 0
    ensures InOrder(spans) && PushSpansSuffixed(rs, prefix, suffix, spans) == rs
    ensures AllBetween(prefix, suffix, spans) == []
  {}

  lemma SpanSuffixed(rs: seq<Range>, prefix: string, suffix: string, spans: seq<Span>)
    requires spans != [] && InOrder(spans)
    ensures spans[0].lo <= spans[0].hi && InOrder(spans[1..])
    ensures AllBetween(prefix, suffix, spans)
         == Between(prefix, suffix, spans[0], spans[0].lo) + AllBetween(prefix, suffix, spans[1..])
    ensures PushSpansSuffixed(rs, prefix, suffix, spans)
         == PushSpansSuffixed(PushSuffixed(rs, prefix, suffix, spans[0], spans[0].lo), prefix, suffix, spans[1..])
  {
    hide PushSuffixed, Between;
    assert spans[0].lo <= spans[0].hi;
  }

  /** With something behind the brackets each number makes a host of its own: the prefix, the
      number as wide as it was written, and what is behind the brackets. */
  lemma TokenSuffixed(rs: seq<Range>, tok: string, prefix: string, xs: seq<string>, suffix: string,
                      spans: seq<Span>)
    requires AllProper(rs) && Bounded(rs) && IsBracketed(tok, prefix, xs, suffix) && suffix != ""
    requires ParseRangeList(Commas(xs), MAX_RANGES) == Some(spans)
    ensures var r := PushToken(rs, tok);
            && InOrder(spans) && (r == Endless <==> GoesOn(spans))
            && (!GoesOn(spans) ==>
                  && r.Created? && AllProper(r.rs) && Bounded(r.rs)
                  && Expand(r.rs) == Expand(rs) + AllBetween(prefix, suffix, spans))
  {
    hide Find, ParseRangeList, ParseSingleRange, AnyBad, Commas, PushSpansSuffixed, AllBetween, GoesOn, Expand;
    TokenIs(tok, prefix, Commas(xs), suffix);
    RangesIff(xs, MAX_RANGES);
    forall k | 0 <= k < |spans| ensures spans[k].lo <= spans[k].hi {
      RangeInOrder(xs[k]);
    }
    AllSuffixedHosts(rs, prefix, suffix, spans);
  }

  lemma RangeInOrder(x: string)
    ensures ParseSingleRange(x).Some? ==> ParseSingleRange(x).value.lo <= ParseSingleRange(x).value.hi
  {
    hide Strtoul, Find, WrappedCount;
  }

  // ---- whole texts ----

  /** A text is refused if the token after a printed list is, whatever follows it. */
  lemma TextRefused(rs: seq<Range>, prefix: string, xs: seq<string>, more: string)
    requires AllProper(rs) && Printable(rs) && Plain(prefix) && Unbracketed(Commas(xs)) && xs != [] && NoCommas(xs)
    requires |xs| > MAX_RANGES || AnyBad(xs)
    requires more != "" ==> more[0] == ','
    ensures var tok := prefix + "[" + Commas(xs) + "]";
            CreateFrom((if rs == [] then "" else Listed(rs) + ",") + (tok + more), 0, []) == Refused
  {
    hide CreateFrom, Listed, Printable, Hosts, Expand, PushToken, TokenEnd, SkipSeps, Commas, AnyBad, IsSep, Proper;
    var body := Commas(xs);
    var tok := prefix + "[" + body + "]";
    assert BracketText(tok, prefix, body);
    TokenStarts(tok, prefix, body);
    if rs == [] {
      var s := "" + (tok + more);
      assert s[0..] == tok + more;
      BadToken(s, 0, [], tok, more, prefix, xs);
    } else {
      var tail := "," + (tok + more);
      var s := (Listed(rs) + ",") + (tok + more);
      assert s[0..] == s == Listed(rs) + tail;
      var r := ReadBack(s, 0, rs, [], tail);
      var k := |s| - |tail|;
      assert s[k] == ',' && s[k + 1..] == tok + more;
      assert s[k + 1] == (tok + more)[0] == tok[0];
      CommaSkipped(s, k);
      BadToken(s, k + 1, r, tok, more, prefix, xs);
    }
  }

  lemma TokenStarts(tok: string, prefix: string, body: string)
    requires BracketText(tok, prefix, body)
    ensures |tok| > 0 && !IsSep(tok[0]) && TokenText(tok) && '[' !in prefix && ']' !in body
  {
    assert tok[0] == if |prefix| > 0 then prefix[0] else '[';
  }

  lemma CommaSkipped(s: string, k: nat)
    requires k + 1 < |s| && s[k] == ',' && !IsSep(s[k + 1])
    ensures SkipSeps(s, k) == k + 1
  {}

  lemma BadToken(s: string, i: nat, read: seq<Range>, tok: string, more: string, prefix: string, xs: seq<string>)
    requires i <= |s| && s[i..] == tok + more && (more != "" ==> more[0] == ',')
    requires TokenText(tok) && IsBracketed(tok, prefix, xs, "") && (|xs| > MAX_RANGES || AnyBad(xs))
    ensures CreateFrom(s, i, read) == Refused
  {
    hide PushToken, TokenEnd, SkipSeps, Commas, AnyBad, TokenText, IsBracketed;
    TokenFound(s, i, tok, more);
    TokenNonEmpty(tok);
    assert s[i..i + |tok|] == s[i..][..|tok|] == tok;
    TokenIff(read, tok, prefix, xs, "");
    CreateStops(s, i, read);
  }

  lemma CreateStops(s: string, i: nat, read: seq<Range>)
    requires i < |s| && SkipSeps(s, i) == i && PushToken(read, s[i..TokenEnd(s, i)]) == Refused
    ensures CreateFrom(s, i, read) == Refused
  {
    hide PushToken, TokenEnd;
  }

  // ---- separators ----

  /** Tabs, commas and spaces, as many as there are. */
  predicate Gap(g: string) {
    forall k :: 0 <= k < |g| ==> g[k] == '\t' || g[k] == ',' || g[k] == ' '
  }

  predicate Gaps(gaps: seq<string>) {
    forall k :: 0 <= k < |gaps| ==> Gap(gaps[k]) && (k < |gaps| - 1 ==> gaps[k] != "")
  }

  ghost predicate Tokens(toks: seq<string>) {
    forall k :: 0 <= k < |toks| ==> TokenText(toks[k])
  }

  /** Each token with the gap behind it. */
  function Spread(toks: seq<string>, gaps: seq<string>): string
    requires |gaps| == |toks|
  {
    if toks == [] then "" else toks[0] + (gaps[0] + Spread(toks[1..], gaps[1..]))
  }

  /** The tokens pushed one after the other, up to one that fails. */
  function PushAll(rs: seq<Range>, toks: seq<string>): Creation
    decreases |toks|
  {
    if toks == [] then Created(rs)
    else
      var r := PushToken(rs, toks[0]);
      if r.Created? then PushAll(r.rs, toks[1..]) else r
  }

  lemma {:induction false} GapSkipped(s: string, k: nat, g: string, after: string)
    requires k <= |s| && s[k..] == g + after && Gap(g) && (after != "" ==> !IsSep(after[0]))
    ensures SkipSeps(s, k) == k + |g| <= |s| && s[k + |g|..] == after
    decreases |g|
  {
    assert s[k + |g|..] == s[k..][|g|..] == after;
    if g == "" {
      assert k < |s| ==> s[k] == s[k..][0] == after[0];
    } else {
      assert s[k] == s[k..][0] == g[0];
      assert s[k + 1..] == s[k..][1..] == g[1..] + after;
      GapSkipped(s, k + 1, g[1..], after);
    }
  }

  /** The tokens are found one after the other, whatever separates them. */
  lemma {:induction false} SpreadRead(s: string, i: nat, toks: seq<string>, gaps: seq<string>, rs: seq<Range>)
    requires |gaps| == |toks| && Gaps(gaps) && Tokens(toks) && i <= |s| && s[i..] == Spread(toks, gaps)
    ensures CreateFrom(s, i, rs) == PushAll(rs, toks)
    decreases |toks|
  {
    hide PushToken, TokenEnd, SkipSeps, TokenText, Spread, PushAll, Gap, IsSep, CreateFrom;
    SpreadFirst(toks, gaps, rs);
    if toks == [] {
      assert i == |s|;
      CreateEnd(s, rs);
    } else {
      var tok, g, after := toks[0], gaps[0], Spread(toks[1..], gaps[1..]);
      var e := i + |tok|;
      GapBehind(toks, gaps);
      TokenFound(s, i, tok, g + after);
      TokenNonEmpty(tok);
      assert s[i..e] == s[i..][..|tok|] == tok;
      assert s[e..] == s[i..][|tok|..] == g + after;
      GapSkipped(s, e, g, after);
      NextToken(s, i, e, e + |g|, tok, rs);
      if PushToken(rs, tok).Created? {
        SpreadRead(s, e + |g|, toks[1..], gaps[1..], PushToken(rs, tok).rs);
      }
    }
  }

  lemma NextToken(s: string, i: nat, e: nat, next: nat, tok: string, rs: seq<Range>)
    requires i < e <= next <= |s| && s[i..e] == tok
    requires SkipSeps(s, i) == i && TokenEnd(s, i) == e && SkipSeps(s, e) == next
    ensures var r := PushToken(rs, tok);
            CreateFrom(s, i, rs) == if r.Created? then CreateFrom(s, next, r.rs) else r
  {
    hide PushToken, TokenEnd, SkipSeps;
  }

  lemma SpreadFirst(toks: seq<string>, gaps: seq<string>, rs: seq<Range>)
    requires |gaps| == |toks|
    ensures toks == [] ==> Spread(toks, gaps) == "" && PushAll(rs, toks) == Created(rs)
    ensures toks != [] ==>
              && Spread(toks, gaps) == toks[0] + (gaps[0] + Spread(toks[1..], gaps[1..]))
              && PushAll(rs, toks)
                 == var r := PushToken(rs, toks[0]); if r.Created? then PushAll(r.rs, toks[1..]) else r
  {
    hide PushToken;
  }

  /** What is behind the first token begins with a separator, and behind its gap with none. */
  lemma GapBehind(toks: seq<string>, gaps: seq<string>)
    requires toks != [] && |gaps| == |toks| && Gaps(gaps) && Tokens(toks)
    ensures TokenText(toks[0]) && Gap(gaps[0]) && Gaps(gaps[1..]) && Tokens(toks[1..])
    ensures var after := Spread(toks[1..], gaps[1..]);
            && (gaps[0] + after != "" ==> IsSep((gaps[0] + after)[0])) && (after != "" ==> !IsSep(after[0]))
  {
    if |toks| > 1 {
      assert TokenText(toks[1]) && gaps[0] != "" && Gap(gaps[0]);
      TokenNonEmpty(toks[1]);
      assert Spread(toks[1..], gaps[1..])[0] == toks[1][0];
    } else {
      assert gaps[0] + "" == gaps[0] && Gap(gaps[0]);
    }
  }

  /** hostlist_create, on tokens and what separates them. */
  lemma TokensRead(start: string, toks: seq<string>, gaps: seq<string>)
    requires |gaps| == |toks| && Gap(start) && Gaps(gaps) && Tokens(toks)
    ensures CreateFrom(start + Spread(toks, gaps), 0, []) == PushAll([], toks)
  {
    hide PushToken, TokenEnd, SkipSeps, TokenText, Spread, PushAll, Gap, IsSep, CreateFrom;
    var s := start + Spread(toks, gaps);
    assert s[0..] == s;
    StartsWithToken(toks, gaps);
    GapSkipped(s, 0, start, Spread(toks, gaps));
    SkippedOnce(s, 0, []);
    SpreadRead(s, |start|, toks, gaps, []);
  }

  lemma StartsWithToken(toks: seq<string>, gaps: seq<string>)
    requires |gaps| == |toks| && Tokens(toks)
    ensures Spread(toks, gaps) != "" ==> !IsSep(Spread(toks, gaps)[0])
  {
    if toks != [] {
      assert TokenText(toks[0]);
      TokenNonEmpty(toks[0]);
      assert Spread(toks, gaps)[0] == toks[0][0];
    }
  }

  /** A token without brackets is the name of a host. */
  lemma NameToken(rs: seq<Range>, tok: string)
    requires AllProper(rs) && Bounded(rs) && '[' !in tok && |tok| < TOKEN_SIZE
    ensures var r := PushToken(rs, tok);
            r.Created? && AllProper(r.rs) && Bounded(r.rs) && Expand(r.rs) == Expand(rs) + [tok]
  {
    hide Find, RangeOfHost, Pushed, Expand, Hosts, ParseRangeList;
    assert tok[0..|tok|] == tok;
    FindAt(tok, '[', 0, |tok|);
    RangeOfHostMeaning(tok);
    PushedAppends(rs, RangeOfHost(tok));
  }
}

/** The text of a host list: hostlist_ranged_string and hostlist_create. */
module HostText {
  import opened Sequences
  import opened Decimal
  import opened Search
  import opened HostRange
  import opened HostNames
  import opened HostEntries
  import opened HostLists

  const MAX_RANGE: nat := 16384
  const MAX_RANGES: nat := 10240
  const TOKEN_SIZE: nat := 1024
  const NAME_SIZE: nat := 4096

  // ---- printing ----

  /** hostrange_numstr */
  function NumStr(r: Range): string {
    if r.single then ""
    else Padded(r.lo, r.width) + if r.lo < r.hi then "-" + Padded(r.hi, r.width) else ""
  }

  function NumList(rs: seq<Range>): string {
    if |rs| == 0 then ""
    else if |rs| == 1 then NumStr(rs[0])
    else NumStr(rs[0]) + "," + NumList(rs[1..])
  }

  /** Whether the range at j prints in the same brackets as the one before it. */
  predicate Continues(rs: seq<Range>, j: nat)
    requires 0 < j < |rs|
  {
    WithinRange(rs[j], rs[j - 1])
  }

  /** One past the last range that prints in the same brackets as the one before it. */
  function GroupEnd(rs: seq<Range>, i: nat): (e: nat)
    requires 0 < i <= |rs|
    ensures i <= e <= |rs|
    ensures e < |rs| ==> !Continues(rs, e)
    ensures forall j :: i <= j < e ==> Continues(rs, j)
    decreases |rs| - i
  {
    if i < |rs| && WithinRange(rs[i], rs[i - 1]) then GroupEnd(rs, i + 1) else i
  }

  /** A maximal run of ranges that print together. */
  function GroupText(group: seq<Range>): string
    requires AllProper(group) && group != []
  {
    if Count(group[0]) > 1 || |group| > 1 then group[0].prefix + "[" + NumList(group) + "]"
    else group[0].prefix + NumStr(group[0])
  }

  /** All runs, with commas between them. */
  function Listed(rs: seq<Range>): string
    requires AllProper(rs)
  {
    if rs == [] then ""
    else
      var e := GroupEnd(rs, 1);
      GroupText(rs[..e]) + if e < |rs| then "," + Listed(rs[e..]) else ""
  }

  /** What hostlist_ranged_string prints: no comma comes before the first character. */
  function Printed(rs: seq<Range>): string
    requires AllProper(rs)
  {
    if rs == [] then ""
    else
      var e := GroupEnd(rs, 1);
      if GroupText(rs[..e]) == "" then Printed(rs[e..]) else Listed(rs)
  }

  lemma WithinSymmetric(a: Range, b: Range)
    ensures WithinRange(a, b) == WithinRange(b, a)
  {
    PrefixCmpZero(a, b);
  }

  lemma {:induction false} NumListSnoc(a: seq<Range>, r: Range)
    requires a != []
    ensures NumList(a + [r]) == NumList(a) + "," + NumStr(r)
  {
    if |a| > 1 {
      assert (a + [r])[1..] == a[1..] + [r];
      NumListSnoc(a[1..], r);
    } else {
      assert (a + [r])[1..] == [r];
    }
  }

  /** The text of a run of ranges so far, as it is written. */
  lemma NumListStep(rs: seq<Range>, start: nat, i: nat)
    requires start <= i < |rs|
    ensures NumList(rs[start..i + 1])
         == (if i == start then "" else NumList(rs[start..i]) + ",") + NumStr(rs[i])
  {
    hide NumStr;
    assert rs[start..i + 1] == rs[start..i] + [rs[i]];
    if i > start {
      NumListSnoc(rs[start..i], rs[i]);
    }
  }

  lemma GroupTextParts(rs: seq<Range>, start: nat, i: nat, bracket: bool)
    requires AllProper(rs) && start < i <= |rs|
    requires bracket <==> Count(rs[start]) > 1 || i > start + 1
    ensures GroupText(rs[start..i])
         == rs[start].prefix + (if bracket then "[" else "") + NumList(rs[start..i])
          + (if bracket then "]" else "")
  {
    hide NumStr, Hosts, Names;
    assert rs[start..i][0] == rs[start] && |rs[start..i]| == i - start;
  }

  lemma {:induction false} NumListGrows(rs: seq<Range>, start: nat, i: nat, e: nat)
    requires start < i <= e <= |rs|
    ensures |NumList(rs[start..i])| <= |NumList(rs[start..e])|
    decreases e - i
  {
    hide NumStr, NumList;
    if i < e {
      NumListGrows(rs, start, i, e - 1);
      NumListStep(rs, start, e - 1);
    }
  }

  /** hostrange_numstr into a buffer of m characters: how long the text is, if it fits, and
      else at least m. */
  method NumStrInto(r: Range, m: nat) returns (len: nat, text: string)
    ensures |NumStr(r)| < m ==> len == |NumStr(r)| && text == NumStr(r)
    ensures |NumStr(r)| >= m ==> len >= m
  {
    hide Padded;
    len, text := 0, "";
    if r.single || m == 0 { return; }
    text := Padded(r.lo, r.width);
    len := |text|;
    if len < m && r.lo < r.hi {
      text := text + ("-" + Padded(r.hi, r.width));
      len := |text|;
    }
  }

  /** What is written of a run in brackets, or of a range without them. */
  function SoFar(head: string, list: string, bracket: bool): (text: string)
    ensures |text| == |head| + |list| + if bracket then 1 else 0
  {
    head + list + if bracket then "," else ""
  }

  /** One more number of a run is written. */
  lemma NextNumber(rs: seq<Range>, start: nat, i: nat, e: nat, head: string)
    requires start < i < e <= |rs|
    ensures var a, b := NumList(rs[start..i]), NumList(rs[start..i + 1]);
            && SoFar(head, a, true) + NumStr(rs[i]) + "," == SoFar(head, b, true)
            && |SoFar(head, a, true)| + |NumStr(rs[i])| <= |head| + |NumList(rs[start..e])|
  {
    hide NumStr, NumList;
    NumListStep(rs, start, i);
    NumListGrows(rs, start, i + 1, e);
  }

  /** How a whole run is written. */
  lemma RunText(rs: seq<Range>, start: nat, e: nat, bracket: bool)
    requires AllProper(rs) && start < e <= |rs| && (bracket <==> Count(rs[start]) > 1 || e > start + 1)
    ensures var p, list, g := rs[start].prefix, NumList(rs[start..e]), GroupText(rs[start..e]);
            && |g| == |p| + |list| + (if bracket then 2 else 0)
            && (bracket ==> SoFar(p + "[", list, true) == (p + "[" + list) + "," && g == (p + "[" + list) + "]")
            && (!bracket ==> SoFar(p, list, false) == g)
  {
    hide NumStr, NumList, Hosts, GroupText, Count;
    GroupTextParts(rs, start, e, bracket);
  }

  lemma FirstNumber(rs: seq<Range>, start: nat, e: nat, head: string, bracket: bool)
    requires start < e <= |rs|
    ensures head + NumStr(rs[start]) + (if bracket then "," else "")
         == SoFar(head, NumList(rs[start..start + 1]), bracket)
    ensures |NumStr(rs[start])| <= |NumList(rs[start..e])|
  {
    hide NumStr, NumList;
    NumListStep(rs, start, start);
    NumListGrows(rs, start, start + 1, e);
  }

  /** _get_bracketed_list into a buffer of n characters. If the text does not fit the answer
      is n at least. */
  method GetBracketedList(rs: seq<Range>, start: nat, n: nat) returns (len: nat, text: string, i: nat)
    requires AllProper(rs) && start < |rs|
    ensures var e := GroupEnd(rs, start + 1); var g := GroupText(rs[start..e]);
            if |g| < n then len == |g| && text == g && i == e else len >= n
    ensures start <= i <= |rs|
  {
    hide Padded, NumStr, NumList, Hosts, Names, WithinRange, GroupText, Count, Continues, GroupEnd, SoFar, Proper;
    i := start;
    GroupEndIs(rs, i + 1);
    ghost var e := GroupEnd(rs, start + 1);
    var bracket := Count(rs[i]) > 1 || (i + 1 < |rs| && WithinRange(rs[i], rs[i + 1]));
    if i + 1 < |rs| { WithinSymmetric(rs[i], rs[i + 1]); }
    RunText(rs, start, e, bracket);
    text, len := rs[i].prefix, |rs[i].prefix|;
    if len > n { return n, text, i; }
    if bracket && len < n {
      text, len := text + "[", len + 1;
    }
    ghost var head := text;
    var k, t := NumStrInto(rs[i], n - len);
    len, text := len + k, text + t;
    FirstNumber(rs, start, e, head, bracket);
    if len >= n { return; }
    if bracket { text, len := text + ",", len + 1; }
    i := i + 1;
    while i < |rs| && WithinRange(rs[i], rs[i - 1])
      invariant start < i <= e && (i > start + 1 ==> bracket) && len == |text| <= n
      invariant GroupEnd(rs, start + 1) == GroupEnd(rs, i)
      invariant text == SoFar(head, NumList(rs[start..i]), bracket)
    {
      GroupEndIs(rs, i);
      assert bracket;
      NextNumber(rs, start, i, e, head);
      k, t := NumStrInto(rs[i], n - len);
      len, text := len + k, text + t;
      if len >= n { return; }
      text, len := text + ",", len + 1;
      i := i + 1;
    }
    GroupEndIs(rs, i);
    if bracket && len < n {
      text := CloseBracket(text, head + NumList(rs[start..i]));
    }
  }

  lemma GroupEndIs(rs: seq<Range>, i: nat)
    requires 0 < i <= |rs|
    ensures i <= GroupEnd(rs, i) <= |rs|
    ensures i < |rs| && WithinRange(rs[i], rs[i - 1]) ==> GroupEnd(rs, i) == GroupEnd(rs, i + 1) >= i + 1
    ensures !(i < |rs| && WithinRange(rs[i], rs[i - 1])) ==> GroupEnd(rs, i) == i
  {
    hide WithinRange;
  }

  /** The last comma becomes the closing bracket. */
  function CloseBracket(text: string, ghost body: string): (closed: string)
    requires text == body + ","
    ensures closed == body + "]"
  {
    text[..|text| - 1] + "]"
  }

  lemma ListedUnfold(rs: seq<Range>)
    requires AllProper(rs) && rs != []
    ensures var e := GroupEnd(rs, 1);
            Listed(rs) == GroupText(rs[..e]) + if e < |rs| then "," + Listed(rs[e..]) else ""
  {
    hide GroupText, Hosts, WithinRange, GroupEnd;
  }

  lemma PrintedUnfold(rs: seq<Range>)
    requires AllProper(rs) && rs != []
    ensures var e := GroupEnd(rs, 1);
            Printed(rs) == if GroupText(rs[..e]) == "" then Printed(rs[e..]) else Listed(rs)
  {
    hide GroupText, Hosts, WithinRange, GroupEnd, Listed;
  }

  lemma PrintedStep(rs: seq<Range>, i: nat)
    requires AllProper(rs) && i < |rs|
    ensures var e := GroupEnd(rs, i + 1); var g := GroupText(rs[i..e]);
            && Listed(rs[i..]) == g + (if e < |rs| then "," + Listed(rs[e..]) else "")
            && Printed(rs[i..]) == if g == "" then Printed(rs[e..]) else Listed(rs[i..])
  {
    hide GroupText, Hosts, WithinRange, GroupEnd, Printed, Listed;
    var e := GroupEnd(rs, i + 1);
    ListedUnfold(rs[i..]);
    PrintedUnfold(rs[i..]);
    GroupEndShift(rs, i, 1);
    assert rs[i..][..e - i] == rs[i..e] && rs[i..][e - i..] == rs[e..];
  }

  /** hostlist_ranged_string into a buffer of n characters: the length of the text, or -1 if
      it does not fit with the character that ends it. */
  method RangedString(rs: seq<Range>, n: nat) returns (rc: int, text: string)
    requires AllProper(rs)
    ensures rc == if |Printed(rs)| < n then |Printed(rs)| else -1
    ensures rc >= 0 ==> text == Printed(rs)
  {
    hide GroupText, Hosts, WithinRange, GroupEnd, Printed, Listed;
    text := "";
    var i, len := 0, 0;
    assert rs[i..] == rs;
    while i < |rs| && len < n
      invariant 0 <= i <= |rs|
      invariant len >= n ==> |Printed(rs)| >= n
      invariant len < n ==> len == |text|
      invariant len < n ==>
                  Printed(rs) == if text == "" then Printed(rs[i..])
                                 else text + if i < |rs| then Listed(rs[i..]) else ""
      decreases |rs| - i, n - len
    {
      PrintedStep(rs, i);
      var k, group, e := GetBracketedList(rs, i, n - len);
      text := text + group;
      len := len + k;
      i := e;
      if len > 0 && len < n && i < |rs| {
        text := text + ",";
        len := len + 1;
      }
    }
    if len >= n { return -1, text; }
    PrintedNone(rs[i..]);
    return len, text;
  }

  lemma PrintedNone(rs: seq<Range>)
    requires |rs| == 0
    ensures AllProper(rs) && Printed(rs) == Listed(rs) == ""
  {}

  lemma {:induction false} GroupEndShift(rs: seq<Range>, i: nat, k: nat)
    requires 0 < k && i + k <= |rs|
    ensures GroupEnd(rs[i..], k) + i == GroupEnd(rs, i + k)
    decreases |rs| - i - k
  {
    if i + k < |rs| && WithinRange(rs[i + k], rs[i + k - 1]) {
      GroupEndShift(rs, i, k + 1);
    }
  }

  // ---- tokens ----

  predicate IsSep(c: char) {
    c == '\t' || c == ',' || c == ' '
  }

  function SkipSeps(s: string, i: nat): (k: nat)
    requires i <= |s|
    ensures i <= k <= |s| && (k < |s| ==> !IsSep(s[k]))
    decreases |s| - i
  {
    if i < |s| && IsSep(s[i]) then SkipSeps(s, i + 1) else i
  }

  function SkipToSep(s: string, i: nat): (k: nat)
    requires i <= |s|
    ensures i <= k <= |s| && (k < |s| ==> IsSep(s[k])) && forall j :: i <= j < k ==> !IsSep(s[j])
    decreases |s| - i
  {
    if i < |s| && !IsSep(s[i]) then SkipToSep(s, i + 1) else i
  }

  /** _advance_past_brackets: past the bracket that the token opened, if it did. */
  function PastBrackets(s: string, tok: nat, e: nat): (k: nat)
    requires tok <= e <= |s|
    ensures e <= k <= |s| && (k != e ==> ']' in s[tok..k])
  {
    if '[' in s[tok..e] && ']' !in s[tok..e] then
      var q := Find(s, ']', e);
      if q < |s| && '[' !in s[e..q] then
        assert s[tok..q + 1][q - tok] == ']';
        q + 1
      else e
    else e
  }

  /** Where the token that begins at tok ends. */
  function TokenEnd(s: string, tok: nat): (e: nat)
    requires tok <= |s|
    ensures tok <= e <= |s|
  {
    var e := SkipToSep(s, tok);
    var k := PastBrackets(s, tok, e);
    if k == e then e else SkipToSep(s, k)
  }

  lemma SkipSepsOne(s: string, i: nat)
    requires i <= |s|
    ensures SkipSeps(s, i) == if i < |s| && IsSep(s[i]) then SkipSeps(s, i + 1) else i
  {}

  lemma SkipToSepOne(s: string, i: nat)
    requires i <= |s|
    ensures SkipToSep(s, i) == if i < |s| && !IsSep(s[i]) then SkipToSep(s, i + 1) else i
  {}

  /** A token is taken past its brackets once: then it holds one that closes. */
  lemma PastOnce(s: string, tok: nat, was: nat, e: nat)
    requires tok <= was <= e <= |s| && ']' in s[tok..was]
    ensures PastBrackets(s, tok, e) == e
  {
    assert s[tok..was] <= s[tok..e];
  }

  lemma TokenEndOnce(s: string, tok: nat)
    requires tok <= |s|
    ensures var e := SkipToSep(s, tok); var k := PastBrackets(s, tok, e);
            TokenEnd(s, tok) == if k == e then e else SkipToSep(s, k)
  {
    hide SkipToSep, PastBrackets;
  }

  /** _next_tok: the token and where the next one may begin. */
  method NextTok(s: string, start: nat) returns (tok: nat, e: nat, next: nat)
    requires start <= |s|
    ensures tok == SkipSeps(s, start)
    ensures tok < |s| ==> e == TokenEnd(s, tok) && next == SkipSeps(s, e) && tok < next
    ensures tok == |s| ==> e == next == |s|
    ensures next <= |s|
  {
    hide IsSep, SkipSeps, SkipToSep, PastBrackets, TokenEnd;
    var str := start;
    while str < |s| && IsSep(s[str])
      invariant start <= str <= |s| && SkipSeps(s, start) == SkipSeps(s, str)
    {
      SkipSepsOne(s, str);
      str := str + 1;
    }
    SkipSepsOne(s, str);
    tok := str;
    if tok == |s| {
      return tok, |s|, |s|;
    }
    var advanced := true;
    ghost var first := true;
    while advanced
      invariant tok <= str <= |s|
      invariant first ==> advanced && str == tok
      invariant !first && advanced ==>
                  ']' in s[tok..str] && TokenEnd(s, tok) == SkipToSep(s, str)
      invariant !first ==> tok < str
      invariant !advanced ==> str == TokenEnd(s, tok)
      decreases first, advanced
    {
      ghost var was := str;
      while str < |s| && !IsSep(s[str])
        invariant was <= str <= |s| && SkipToSep(s, was) == SkipToSep(s, str)
      {
        SkipToSepOne(s, str);
        str := str + 1;
      }
      SkipToSepOne(s, str);
      if first {
        TokenEndOnce(s, tok);
        SkipToSepOne(s, tok);
      } else {
        PastOnce(s, tok, was, str);
      }
      var k := PastBrackets(s, tok, str);
      advanced := k != str;
      str := k;
      first := false;
    }
    e := str;
    while str < |s| && IsSep(s[str])
      invariant e <= str <= |s| && SkipSeps(s, e) == SkipSeps(s, str)
    {
      SkipSepsOne(s, str);
      str := str + 1;
    }
    SkipSepsOne(s, str);
    next := str;
  }

  // ---- ranges between brackets ----

  datatype Span = Span(lo: nat, hi: nat, width: nat)

  /** How many numbers there are, as an unsigned long. */
  function WrappedCount(lo: nat, hi: nat): nat
    requires lo <= hi
  {
    (hi - lo + 1) % (ULONG_MAX + 1)
  }

  /** _parse_single_range */
  function ParseSingleRange(str: string): Option<Span> {
    var d := Find(str, '-', 0);
    var first, rest := str[..d], if d < |str| then str[d + 1..] else "";
    if rest != "" && rest[0] == '-' then None
    else
      var (lo, q) := Strtoul(first, 0);
      if q == 0 then None
      else
        var (hi, q2) := if rest != "" then Strtoul(rest, 0) else (lo, q);
        if (if rest != "" then q2 == 0 || q2 != |rest| else q != |first|) then None
        else if lo > hi || WrappedCount(lo, hi) > MAX_RANGE then None
        else Some(Span(lo, hi, |first|))
  }

  /** _parse_range_list, with room for n more ranges. */
  function ParseRangeList(str: string, n: nat): Option<seq<Span>>
    decreases |str|
  {
    if n == 0 then None
    else
      var p := Find(str, ',', 0);
      var one := ParseSingleRange(str[..p]);
      if one.None? then None
      else if p == |str| then Some([one.value])
      else
        var rest := ParseRangeList(str[p + 1..], n - 1);
        if rest.None? then None else Some([one.value] + rest.value)
  }

  /** What is read already, in front of what the rest reads. */
  function Prepend(spans: seq<Span>, rest: Option<seq<Span>>): Option<seq<Span>> {
    if rest.None? then None else Some(spans + rest.value)
  }

  lemma PrependEach(spans: seq<Span>, x: Span, rest: Option<seq<Span>>)
    ensures Prepend(spans, Prepend([x], rest)) == Prepend(spans + [x], rest)
    ensures Prepend([], rest) == rest
  {
    if rest.Some? {
      assert [] + rest.value == rest.value;
      assert spans + ([x] + rest.value) == spans + [x] + rest.value;
    }
  }

  lemma ParseStep(str: string, i: nat, n: nat)
    requires i <= |str| && n > 0
    ensures var p := Find(str[i..], ',', 0);
            var one := ParseSingleRange(str[i..][..p]);
            && (one.None? ==> ParseRangeList(str[i..], n) == None)
            && (one.Some? && i + p == |str| ==> ParseRangeList(str[i..], n) == Some([one.value]))
            && (one.Some? && i + p < |str| ==>
                ParseRangeList(str[i..], n) == Prepend([one.value], ParseRangeList(str[i + p + 1..], n - 1)))
  {
    hide Find, ParseSingleRange;
    var p := Find(str[i..], ',', 0);
    assert i + p < |str| ==> str[i..][p + 1..] == str[i + p + 1..];
  }

  method ParseRanges(str: string) returns (r: Option<seq<Span>>)
    ensures r == ParseRangeList(str, MAX_RANGES)
  {
    hide Find, ParseSingleRange, ParseRangeList;
    var spans: seq<Span>, i := [], 0;
    assert str[i..] == str;
    PrependEach([], Span(0, 0, 0), ParseRangeList(str, MAX_RANGES));
    while |spans| < MAX_RANGES
      invariant 0 <= i <= |str| && |spans| <= MAX_RANGES
      invariant ParseRangeList(str, MAX_RANGES) == Prepend(spans, ParseRangeList(str[i..], MAX_RANGES - |spans|))
      decreases MAX_RANGES - |spans|
    {
      ParseStep(str, i, MAX_RANGES - |spans|);
      var p := Find(str[i..], ',', 0);
      var one := ParseSingleRange(str[i..][..p]);
      if one.None? {
        return None;
      }
      if i + p < |str| {
        PrependEach(spans, one.value, ParseRangeList(str[i + p + 1..], MAX_RANGES - |spans| - 1));
      }
      spans := spans + [one.value];
      if i + p == |str| {
        return Some(spans);
      }
      i := i + p + 1;
    }
    NoRoom(str[i..]);
    return None;
  }

  lemma NoRoom(str: string)
    ensures ParseRangeList(str, 0) == None
  {}

  // ---- the list ----

  datatype Creation =
    | Created(rs: seq<Range>)
    | Refused               // a range that does not parse
    | Overrun               // a host name that fills the token buffer
    | Endless               // a loop over suffixes that never ends

  /** _push_range_list */
  function PushSpans(rs: seq<Range>, prefix: string, spans: seq<Span>): seq<Range>
    decreases |spans|
  {
    if spans == [] then rs
    else
      var sp := spans[0];
      PushSpans(Pushed(rs, Range(prefix, sp.lo, sp.hi, sp.width, false)), prefix, spans[1..])
  }

  /** Where the loop over the suffixes of a range is after n rounds. */
  function SuffixAfter(lo: nat, n: nat): nat {
    (lo + n) % (ULONG_MAX + 1)
  }

  /** That loop ends unless the range goes up to the largest unsigned long. */
  lemma SuffixesEnd(lo: nat, hi: nat)
    requires lo <= hi <= ULONG_MAX
    ensures (forall n: nat :: SuffixAfter(lo, n) <= hi) <==> hi == ULONG_MAX
  {
    if hi < ULONG_MAX {
      assert SuffixAfter(lo, hi + 1 - lo) == hi + 1;
    }
  }

  predicate GoesOn(spans: seq<Span>) {
    exists i :: 0 <= i < |spans| && spans[i].hi == ULONG_MAX
  }

  /** The hosts of one range between a prefix and a suffix. */
  function PushSuffixed(rs: seq<Range>, prefix: string, suffix: string, sp: Span, n: nat): seq<Range>
    requires n <= sp.hi + 1
    decreases sp.hi + 1 - n
  {
    if n > sp.hi then rs
    else
      var name := prefix + Padded(n, sp.width) + suffix;
      var host := if |name| >= NAME_SIZE then name[..NAME_SIZE - 1] else name;
      PushSuffixed(Pushed(rs, Single(host)), prefix, suffix, sp, n + 1)
  }

  /** _push_range_list_with_suffix */
  function PushSpansSuffixed(rs: seq<Range>, prefix: string, suffix: string, spans: seq<Span>): seq<Range>
    decreases |spans|
  {
    if spans == [] then rs
    else
      var sp := spans[0];
      var rs' := if sp.lo <= sp.hi then PushSuffixed(rs, prefix, suffix, sp, sp.lo) else rs;
      PushSpansSuffixed(rs', prefix, suffix, spans[1..])
  }

  function PushToken(rs: seq<Range>, tok: string): Creation {
    var p := Find(tok, '[', 0);
    var q := if p < |tok| then Find(tok, ']', p + 1) else |tok|;
    if q == |tok| then
      if |tok| >= TOKEN_SIZE then Overrun else Created(Pushed(rs, RangeOfHost(tok)))
    else
      var spans := ParseRangeList(tok[p + 1..q], MAX_RANGES);
      if spans.None? then Refused
      else if q + 1 < |tok| then
        if GoesOn(spans.value) then Endless
        else Created(PushSpansSuffixed(rs, tok[..p], tok[q + 1..], spans.value))
      else Created(PushSpans(rs, tok[..p], spans.value))
  }

  /** hostlist_create from position i, on top of the ranges read so far. */
  function CreateFrom(s: string, i: nat, rs: seq<Range>): Creation
    requires i <= |s|
    decreases |s| - i
  {
    var tok := SkipSeps(s, i);
    if tok == |s| then Created(rs)
    else
      var e := TokenEnd(s, tok);
      var next := SkipSeps(s, e);
      var r := PushToken(rs, s[tok..e]);
      if r.Created? && next > tok then CreateFrom(s, next, r.rs) else r
  }

  method Create(s: string) returns (r: Creation)
    ensures r == CreateFrom(s, 0, [])
  {
    hide PushToken, TokenEnd;
    var rs: seq<Range>, i := [], 0;
    while true
      invariant 0 <= i <= |s|
      invariant CreateFrom(s, 0, []) == CreateFrom(s, i, rs)
      decreases |s| - i
    {
      var tok, e, next := NextTok(s, i);
      if tok == |s| {
        return Created(rs);
      }
      r := PushToken(rs, s[tok..e]);
      if !r.Created? {
        return;
      }
      rs := r.rs;
      i := next;
    }
  }

  /** hostlist_delete: the hosts of a text, unless it does not parse; then none. */
  method DeleteHosts(list: HostList, hosts: string) returns (n: nat, c: Creation)
    requires list.Valid()
    requires var c := CreateFrom(hosts, 0, []); c.Created? ==> AllProper(c.rs) && Bounded(c.rs)
    modifies list
    ensures list.Valid() && c == CreateFrom(hosts, 0, [])
    ensures n == |old(list.Hosts())| - |list.Hosts()|
    ensures !c.Created? ==> list.hr == old(list.hr)
    ensures c.Created? ==>
              AllProper(c.rs) && list.Listed() == DropFirst(old(list.Listed()), multiset(Asked(Issued(c.rs))))
  {
    c := Create(hosts);
    if c.Created? {
      var other := new HostList.Of(c.rs);
      n := list.Delete(other);
    } else {
      n := 0;
    }
  }
}

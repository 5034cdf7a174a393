/** The form in which CPU sets print, and the masks that are refused. */
module CpuTexts {
  import opened Decimal
  import opened Search
  import opened CpuList
  import opened CpuHex

  // ---- printed lists ----

  /** All CPUs from a to b, and none next to them. */
  predicate WholeRun(mask: set<nat>, a: nat, b: nat) {
    && (forall c :: a <= c <= b ==> c in mask)
    && (a > 0 ==> a - 1 !in mask) && b + 1 !in mask
  }

  /** A run of three CPUs or more is printed as a range, and one of two as two numbers. */
  predicate PrintsAs(mask: set<nat>, t: Span) {
    && t.step == 1
    && if t.a == t.b
       then WholeRun(mask, t.a, t.a) || WholeRun(mask, t.a, t.a + 1) || (t.a > 0 && WholeRun(mask, t.a - 1, t.a))
       else t.a + 2 <= t.b && WholeRun(mask, t.a, t.b)
  }

  predicate Ascend(ts: seq<Span>) {
    forall j, k :: 0 <= j < k < |ts| ==> ts[j].b < ts[k].a
  }

  predicate AllPrint(mask: set<nat>, ts: seq<Span>, i: nat) {
    forall k :: 0 <= k < |ts| ==> PrintsAs(mask, ts[k]) && i <= ts[k].a <= ts[k].b
  }

  predicate InSize(mask: set<nat>) {
    forall c :: c in mask ==> c < CPU_SETSIZE
  }

  /** No run goes on at i. */
  predicate StartsAt(mask: set<nat>, i: nat) {
    i == 0 || i - 1 !in mask || i !in mask
  }

  lemma {:induction false} SpansForm(mask: set<nat>, i: nat)
    requires i <= CPU_SETSIZE && InSize(mask) && StartsAt(mask, i)
    ensures AllPrint(mask, Spans(mask, i), i) && Ascend(Spans(mask, i))
    decreases CPU_SETSIZE - i
  {
    hide RunEnd, WholeRun, PrintsAs;
    if i < CPU_SETSIZE {
      if i !in mask {
        SpansForm(mask, i + 1);
      } else {
        var e := RunEnd(mask, i + 1);
        SpansForm(mask, e);
        RunPrints(mask, i, e);
      }
    }
  }

  lemma RunPrints(mask: set<nat>, i: nat, e: nat)
    requires InSize(mask) && i < CPU_SETSIZE && i in mask && StartsAt(mask, i) && e == RunEnd(mask, i + 1)
    ensures e == i + 2 ==> PrintsAs(mask, Span(i, i, 1)) && PrintsAs(mask, Span(i + 1, i + 1, 1))
    ensures e != i + 2 ==> PrintsAs(mask, Span(i, e - 1, 1))
  {
    assert e !in mask;
    assert WholeRun(mask, i, e - 1);
  }

  /** A number as it prints: its digits, without zeros in front. */
  predicate Prints(x: string, n: nat) {
    x != "" && AllDigits(x) && Value(x) == n && (|x| > 1 ==> x[0] != '0')
  }

  lemma DecPrints(n: nat)
    ensures Prints(Dec(n), n)
  {
    ValueOfDec(n);
    NoLeadingZero(n);
    if n > 0 { hide Value; }
  }

  /** cpuset_to_cstr prints the runs of the set in ascending order: single CPUs as numbers, and
      runs of three or more as two numbers with a dash. */
  lemma ListForm(mask: set<nat>)
    requires InSize(mask)
    ensures var ts := Spans(mask, 0);
            && Ascend(ts) && AllPrint(mask, ts, 0) && AllProper(ts) && Union(ts) == mask
            && (forall k :: 0 <= k < |ts| ==>
                  if ts[k].a == ts[k].b then Prints(SpanText(ts[k]), ts[k].a)
                  else Prints(Dec(ts[k].a), ts[k].a) && Prints(Dec(ts[k].b), ts[k].b)
                       && SpanText(ts[k]) == Dec(ts[k].a) + "-" + Dec(ts[k].b))
  {
    hide Spans, Dec, Union, WholeRun, Prints, Proper;
    var ts := Spans(mask, 0);
    SpansForm(mask, 0);
    SpansUnion(mask, 0);
    forall n: nat ensures Prints(Dec(n), n) { DecPrints(n); }
    assert forall c: nat :: c in Union(ts) <==> c in mask;
  }

  // ---- printed masks ----

  predicate LowerHex(c: char) {
    IsDigit(c) || 'a' <= c <= 'f'
  }

  /** Eight digits, a comma, eight digits, and so on. */
  predicate InEights(s: string) {
    |s| % 9 == 8 && forall i :: 0 <= i < |s| ==> if i % 9 == 8 then s[i] == ',' else LowerHex(s[i])
  }

  lemma {:induction false} DigitsLower(v: nat, k: nat)
    ensures forall i :: 0 <= i < k ==> LowerHex(HexDigits(v, k)[i])
  {
    if k > 0 { DigitsLower(v / 16, k - 1); }
  }

  lemma {:induction false} ChunksForm(mask: set<nat>, chunk: nat)
    ensures |ChunksText(mask, chunk)| == 9 * chunk + 8 && InEights(ChunksText(mask, chunk))
  {
    hide HexDigits, FromBits, ChunkBits;
    var t := ChunkText(mask, chunk);
    DigitsLower(FromBits(ChunkBits(mask, chunk)), HEXCHARSIZE);
    assert |t| == 8 && forall i :: 0 <= i < 8 ==> LowerHex(t[i]);
    if chunk > 0 {
      ChunksForm(mask, chunk - 1);
      EightMore(t, ChunksText(mask, chunk - 1));
    }
  }

  lemma EightMore(t: string, u: string)
    requires |t| == 8 && (forall i :: 0 <= i < 8 ==> LowerHex(t[i])) && InEights(u)
    ensures InEights(t + ("," + u))
  {
    hide LowerHex;
    var s := t + ("," + u);
    forall i | 9 <= i < |s| ensures if i % 9 == 8 then s[i] == ',' else LowerHex(s[i]) {
      assert s[i] == u[i - 9] && (i - 9) % 9 == i % 9;
    }
  }

  /** cpuset_to_hex prints as many chunks as the highest CPU of the set needs, each of eight
      digits in lower case. */
  lemma MaskForm(mask: set<nat>)
    requires InSize(mask)
    ensures var s, last := ChunksText(mask, LastChunk(mask)), (|ChunksText(mask, LastChunk(mask))| - 8) / 9;
            && InEights(s) && |s| == 9 * last + 8
            && (forall c :: c in mask ==> c < (last + 1) * HEXCHUNKSZ)
            && (last > 0 ==> exists c :: c in mask && c >= last * HEXCHUNKSZ)
  {
    hide ChunksText, InEights;
    ChunksForm(mask, LastChunk(mask));
    var h := Highest(mask, CPU_SETSIZE);
    assert forall c :: c in mask ==> c <= h;
  }

  // ---- masks that are refused ----

  predicate NoCommas(xs: seq<string>) {
    forall k :: 0 <= k < |xs| ==> ',' !in xs[k]
  }

  /** Up to eight digits, and then something that is none and cannot be part of a number. */
  predicate BadChunk(x: string, h: string, rest: string) {
    && x == h + rest && |h| <= HEXCHARSIZE && AllHex(h) && rest != "" && !IsHex(rest[0])
    && (h == "" ==> !IsSpace(rest[0]) && rest[0] != '+' && rest[0] != '-')
    && (h == "0" ==> rest[0] != 'x' && rest[0] != 'X')
  }

  /** The next chunk, and where the one after it begins. */
  lemma ChunkAt(s: string, p: nat, x: string, more: string)
    requires p <= |s| && s[p..] == x + more && ',' !in x && (more != "" ==> more[0] == ',')
    ensures NextToken(s, p, ',') == if more == "" then Null else At(p + |x| + 1)
    ensures |s| == p + |x| + |more| && (more != "" ==> s[p + |x| + 1..] == more[1..])
    ensures s[p..p + |x|] == x
  {
    hide Find;
    var k := p + |x|;
    assert s[p..k] == s[p..][..|x|] == x;
    assert s[k..] == s[p..][|x|..] == more;
    if more != "" {
      assert s[k] == s[k..][0] == more[0];
      assert s[k + 1..] == s[k..][1..];
    }
    FindAt(s, ',', p, k);
  }

  lemma FirstChunk(s: string, p: nat, xs: seq<string>)
    requires p <= |s| && xs != [] && NoCommas(xs) && s[p..] == Commas(xs)
    ensures |xs| == 1 ==> s[p..] == xs[0] + "" && NextToken(s, p, ',') == Null
    ensures |xs| > 1 ==> var q := p + |xs[0]| + 1;
              && s[p..] == xs[0] + ("," + Commas(xs[1..])) && NextToken(s, p, ',') == At(q)
              && q <= |s| && s[q..] == Commas(xs[1..])
    ensures NoCommas(xs[1..]) && ',' !in xs[0]
  {
    hide NextToken;
    ChunkAt(s, p, xs[0], if |xs| == 1 then "" else "," + Commas(xs[1..]));
  }

  lemma BadChunkRead(s: string, p: nat, x: string, more: string, h: string, rest: string, chunk: nat)
    requires p <= |s| && s[p..] == x + more && ',' !in x && (more != "" ==> more[0] == ',') && BadChunk(x, h, rest)
    ensures ReadChunk(s, p, chunk) == Returns(-1, {})
  {
    hide HexValue, Strtoul16, NextToken, CpusOf, ChunkCpus;
    ChunkAt(s, p, x, more);
    assert s[p..] == h + (rest + more);
    BadChunkEnds(s, p, h, rest + more);
  }

  /** strtoul stops behind the digits. */
  lemma BadChunkEnds(s: string, p: nat, h: string, rest: string)
    requires p <= |s| && s[p..] == h + rest && BadChunk(h + rest, h, rest)
    ensures Strtoul16(s, p).1 == p + |h|
  {
    hide HexValue, HexEnd, SpacesEnd;
    HexEndAt(s, p, h, rest);
    assert s[p] == s[p..][0] == (h + rest)[0];
    assert p + 1 < |s| ==> s[p + 1] == s[p..][1] == (h + rest)[1];
    SpacesIs(s, p, p);
    if h != "" {
      StartsAtOnce(s, p, p + |h|);
    }
  }

  /** A mask of several chunks is refused if any of them is bad, whatever the others are. */
  lemma {:induction false} BadChunkRefuses(s: string, p: nat, xs: seq<string>, k: nat, h: string, rest: string,
                                           chunk: nat, mask: set<nat>)
    requires p <= |s| && s[p..] == Commas(xs) && NoCommas(xs) && k < |xs| && BadChunk(xs[k], h, rest)
    ensures ReadChunks(s, p, chunk, mask) == Returns(-1, {})
    decreases |xs|
  {
    hide ReadChunk, ReadChunks, NextToken, BadChunk, Commas, NoCommas;
    var more := if |xs| == 1 then "" else "," + Commas(xs[1..]);
    FirstChunk(s, p, xs);
    ReadChunksStep(s, p, chunk, mask);
    if k == 0 {
      BadChunkRead(s, p, xs[0], more, h, rest, chunk);
    } else {
      var r := ReadChunk(s, p, chunk);
      if r.Returns? && r.rc == 0 {
        var next := if chunk > 0 then chunk - 1 else 0;
        BadChunkRefuses(s, p + |xs[0]| + 1, xs[1..], k - 1, h, rest, next, mask + r.mask);
      }
    }
  }

  /** Whole masks of several chunks, with 0x in front or without. */
  lemma MaskRefused(start: string, xs: seq<string>, k: nat, h: string, rest: string)
    requires |xs| > 1 && NoCommas(xs) && k < |xs| && BadChunk(xs[k], h, rest)
    requires start == "0x" || (start == "" && HexStart(Commas(xs)) == 0)
    ensures ParseHex(start + Commas(xs)) == Returns(-1, {})
  {
    hide ReadChunks, Commas, BadChunk, TokenCount, NextToken;
    var s, p := start + Commas(xs), |start|;
    assert s[p..] == Commas(xs);
    assert start == "0x" ==> s[0] == '0' && s[1] == 'x';
    assert start == "" ==> s == Commas(xs);
    MoreThanOne(s, p, xs);
    BadChunkRefuses(s, p, xs, k, h, rest, TokenCount(s, p) - 1, {});
  }

  lemma MoreThanOne(s: string, p: nat, xs: seq<string>)
    requires |xs| > 1 && NoCommas(xs) && p <= |s| && s[p..] == Commas(xs)
    ensures TokenCount(s, p) > 1 && s != ""
  {
    hide TokenCount, NextToken, Commas;
    FirstChunk(s, p, xs);
    TokenCountStep(s, p);
  }
}

/** CPU sets as lists of ranges, "0-3,8,9,16-22": cpuset_to_cstr and cstr_to_cpuset. */
module CpuList {
  import opened Decimal
  import opened Search

  const CPU_SETSIZE: nat := 1024

  // ---- printing ----

  /** CPUs a, a + step, ..., up to b. */
  datatype Span = Span(a: nat, b: nat, step: nat)

  function SpanText(t: Span): string {
    if t.step == 1 && t.a == t.b then Dec(t.a)
    else Dec(t.a) + "-" + Dec(t.b) + if t.step == 1 then "" else ":" + Dec(t.step)
  }

  /** The first CPU from j on that is not in the set. */
  function RunEnd(mask: set<nat>, j: nat): (e: nat)
    requires j <= CPU_SETSIZE
    ensures j <= e <= CPU_SETSIZE && (forall k :: j <= k < e ==> k in mask) && (e < CPU_SETSIZE ==> e !in mask)
    decreases CPU_SETSIZE - j
  {
    if j < CPU_SETSIZE && j in mask then RunEnd(mask, j + 1) else j
  }

  /** The ranges printed for the CPUs from i on; a run of two is not printed as a range. */
  function Spans(mask: set<nat>, i: nat): seq<Span>
    requires i <= CPU_SETSIZE
    decreases CPU_SETSIZE - i
  {
    if i == CPU_SETSIZE then []
    else if i !in mask then Spans(mask, i + 1)
    else
      var e := RunEnd(mask, i + 1);
      (if e == i + 2 then [Span(i, i, 1), Span(i + 1, i + 1, 1)] else [Span(i, e - 1, 1)]) + Spans(mask, e)
  }

  /** A comma after each range. */
  function Ended(ts: seq<Span>): string {
    if ts == [] then "" else SpanText(ts[0]) + "," + Ended(ts[1..])
  }

  /** A comma between ranges. */
  function Joined(ts: seq<Span>): string {
    if ts == [] then ""
    else if |ts| == 1 then SpanText(ts[0])
    else SpanText(ts[0]) + "," + Joined(ts[1..])
  }

  lemma {:induction false} EndedIsJoined(ts: seq<Span>)
    ensures Ended(ts) == if ts == [] then "" else Joined(ts) + ","
  {
    if |ts| > 1 {
      EndedIsJoined(ts[1..]);
    } else if |ts| == 1 {
      assert ts[1..] == [];
    }
  }

  /** What is printed for the run of CPUs from i up to e. */
  function RunText(i: nat, e: nat): string
    requires i < e
  {
    if e == i + 1 then Dec(i) + ","
    else if e == i + 2 then Dec(i) + "," + Dec(i + 1) + ","
    else Dec(i) + "-" + Dec(e - 1) + ","
  }

  lemma RunPrinted(mask: set<nat>, i: nat)
    requires i < CPU_SETSIZE && i in mask
    ensures Ended(Spans(mask, i)) == RunText(i, RunEnd(mask, i + 1)) + Ended(Spans(mask, RunEnd(mask, i + 1)))
  {
    hide RunEnd, Dec, Ended, Spans;
    var e := RunEnd(mask, i + 1);
    var rest := Spans(mask, e);
    SpansTake(mask, i);
    if e == i + 2 {
      EndedFirst(Span(i, i, 1), [Span(i + 1, i + 1, 1)] + rest);
      EndedFirst(Span(i + 1, i + 1, 1), rest);
      assert Spans(mask, i) == [Span(i, i, 1)] + ([Span(i + 1, i + 1, 1)] + rest);
      var x, y := Dec(i) + ",", Dec(i + 1) + ",";
      assert x + (y + Ended(rest)) == x + y + Ended(rest);
      assert x + y == RunText(i, e);
    } else {
      EndedFirst(Span(i, e - 1, 1), rest);
    }
  }

  lemma SpansTake(mask: set<nat>, i: nat)
    requires i < CPU_SETSIZE && i in mask
    ensures var e := RunEnd(mask, i + 1);
            Spans(mask, i) == (if e == i + 2 then [Span(i, i, 1), Span(i + 1, i + 1, 1)] else [Span(i, e - 1, 1)])
                            + Spans(mask, e)
  {
    hide RunEnd;
  }

  lemma EndedFirst(t: Span, ts: seq<Span>)
    ensures Ended([t] + ts) == SpanText(t) + "," + Ended(ts)
  {
    assert ([t] + ts)[1..] == ts;
  }

  /** cpuset_to_cstr. Each range is written with a comma, and the last comma goes. */
  method CpusetToCstr(mask: set<nat>) returns (str: string)
    ensures str == Joined(Spans(mask, 0))
  {
    hide Spans, Dec, Ended, Joined, RunEnd;
    var i, entryMade := 0, 0;
    str := "";
    ghost var all := Ended(Spans(mask, 0));
    assert all == str + all;
    while i < CPU_SETSIZE
      invariant 0 <= i <= CPU_SETSIZE
      invariant all == str + Ended(Spans(mask, i))
      invariant entryMade == if str == "" then 0 else 1
    {
      if i in mask {
        entryMade := 1;
        var run, j := 0, i + 1;
        while j < CPU_SETSIZE && j in mask
          invariant i < j <= CPU_SETSIZE && run == j - i - 1 && RunEnd(mask, j) == RunEnd(mask, i + 1)
        {
          RunEndStep(mask, j);
          run := run + 1;
          j := j + 1;
        }
        RunEndStep(mask, j);
        RunPrinted(mask, i);
        Assoc(str, RunText(i, j), Ended(Spans(mask, j)));
        if run == 0 {
          str := str + (Dec(i) + ",");
        } else if run == 1 {
          str := str + (Dec(i) + "," + Dec(i + 1) + ",");
          i := i + 1;
        } else {
          str := str + (Dec(i) + "-" + Dec(i + run) + ",");
          i := i + run;
        }
      } else {
        SpansSkip(mask, i);
      }
      i := i + 1;
    }
    SpansDone(mask);
    assert all == str;
    EndedIsJoined(Spans(mask, 0));
    EndedNone(Spans(mask, 0));
    str := str[..|str| - entryMade];
  }

  lemma Assoc(a: string, b: string, c: string)
    ensures (a + b) + c == a + (b + c)
  {}

  lemma RunEndStep(mask: set<nat>, j: nat)
    requires j <= CPU_SETSIZE
    ensures RunEnd(mask, j) == if j < CPU_SETSIZE && j in mask then RunEnd(mask, j + 1) else j
  {}

  lemma EndedNone(ts: seq<Span>)
    ensures ts == [] ==> Ended(ts) == "" && Joined(ts) == ""
  {}

  lemma SpansSkip(mask: set<nat>, i: nat)
    requires i < CPU_SETSIZE && i !in mask
    ensures Spans(mask, i) == Spans(mask, i + 1)
  {}

  lemma SpansDone(mask: set<nat>)
    ensures Spans(mask, CPU_SETSIZE) == [] && Ended([]) == ""
  {}

  // ---- parsing ----

  datatype Pointer = Null | At(i: nat)

  /** nexttoken */
  function NextToken(s: string, p: nat, sep: char): (q: Pointer)
    requires p <= |s|
    ensures q.At? ==> p < q.i <= |s|
  {
    var k := Find(s, sep, p);
    if k < |s| then At(k + 1) else Null
  }

  predicate Before(q: Pointer, c: Pointer) {
    q.At? && (c.Null? || q.i < c.i)
  }

  /** One item of a list, and where the last number read in it ends. */
  datatype Item = Bad | Good(t: Span, end: nat)

  function ParseRange(s: string, a: nat, c1: nat, comma: Pointer): (r: Item)
    requires c1 <= |s|
    ensures r.Good? ==> r.end <= |s| && r.t.a == a <= r.t.b < CPU_SETSIZE && r.t.step <= ULONG_MAX
  {
    var (b, e) := Strtoul(s, c1);
    if e == c1 || b >= CPU_SETSIZE then Bad
    else
      var c2 := NextToken(s, c1, ':');
      var (step, e2) := if Before(c2, comma) then Strtoul(s, c2.i) else (1, e);
      if Before(c2, comma) && e2 == c2.i then Bad
      else if a <= b then Good(Span(a, b, step), e2)
      else Bad
  }

  function ParseItem(s: string, p: nat): (r: Item)
    requires p <= |s|
    ensures r.Good? ==> r.end <= |s| && r.t.a <= r.t.b < CPU_SETSIZE && r.t.step <= ULONG_MAX
  {
    var (a, e) := Strtoul(s, p);
    if e == p || a >= CPU_SETSIZE then Bad
    else if (a != 0 && s[p] == '0') || (a == 0 && s[p] == '0' && p + 1 < |s| && s[p + 1] == '0') then Bad
    else
      var c1, comma := NextToken(s, p, '-'), NextToken(s, p, ',');
      if Before(c1, comma) then
        if e != c1.i - 1 then Bad else ParseRange(s, a, c1.i, comma)
      else Good(Span(a, a, 1), e)
  }

  /** Where the loop over a range is after n rounds, in the arithmetic of unsigned long. */
  function After(a: nat, step: nat, n: nat): nat {
    if n == 0 then a else Plus(After(a, step, n - 1), step)
  }

  /** a += s */
  function Plus(a: nat, step: nat): (r: nat)
    ensures r <= ULONG_MAX
  {
    (a + step) % (ULONG_MAX + 1)
  }

  /** What gets smaller in the loop over a range: the way up to its end, or for a step that
      wraps, the way down. */
  function Rounds(a: nat, b: nat, step: nat): nat {
    if a > b then 0 else if step <= ULONG_MAX / 2 then b + 1 - a else a + 1
  }

  lemma FewerRounds(a: nat, b: nat, step: nat)
    requires a <= b < CPU_SETSIZE && 0 < step <= ULONG_MAX
    ensures Rounds(Plus(a, step), b, step) < Rounds(a, b, step)
  {
    if a + step <= ULONG_MAX {
      assert Plus(a, step) == a + step;
    } else {
      assert Plus(a, step) == a + step - (ULONG_MAX + 1);
    }
  }

  lemma PlusZero(a: nat)
    requires a <= ULONG_MAX
    ensures Plus(a, 0) == a
  {}

  /** The loop over a range goes on for ever exactly if the step is 0. */
  lemma LoopEnds(a: nat, b: nat, step: nat)
    requires a <= ULONG_MAX && b < CPU_SETSIZE && step <= ULONG_MAX && a <= b
    ensures (forall n: nat :: After(a, step, n) <= b) <==> step == 0
  {
    if step == 0 {
      forall n: nat ensures After(a, 0, n) == a { StandsStill(a, n); }
    } else {
      var n := LastRound(a, b, step);
    }
  }

  lemma {:induction false} StandsStill(a: nat, n: nat)
    requires a <= ULONG_MAX
    ensures After(a, 0, n) == a
  {
    if n > 0 {
      StandsStill(a, n - 1);
      PlusZero(a);
    }
  }

  /** The first round that leaves the range. */
  lemma LastRound(a: nat, b: nat, step: nat) returns (n: nat)
    requires a <= ULONG_MAX && b < CPU_SETSIZE && 0 < step <= ULONG_MAX
    ensures After(a, step, n) > b
    decreases Rounds(a, b, step)
  {
    if a > b {
      n := 0;
    } else {
      FewerRounds(a, b, step);
      n := LastRound(Plus(a, step), b, step);
      OneRoundOn(a, step, n);
      n := n + 1;
    }
  }

  lemma {:induction false} OneRoundOn(a: nat, step: nat, n: nat)
    requires a <= ULONG_MAX
    ensures After(Plus(a, step), step, n) == After(a, step, n + 1)
  {
    hide Plus;
    if n == 0 {
      assert After(a, step, 0) == a;
    } else {
      OneRoundOn(a, step, n - 1);
    }
  }

  /** The CPUs that the loop over a range sets. */
  function Strided(a: nat, b: nat, step: nat): set<nat>
    requires a <= ULONG_MAX && b < CPU_SETSIZE && 0 < step <= ULONG_MAX
    decreases Rounds(a, b, step)
  {
    if a > b then {}
    else
      FewerRounds(a, b, step);
      {a} + Strided(Plus(a, step), b, step)
  }

  lemma StridedStep(a: nat, b: nat, step: nat)
    requires a <= ULONG_MAX && b < CPU_SETSIZE && 0 < step <= ULONG_MAX
    ensures Strided(a, b, step) == if a > b then {} else {a} + Strided(Plus(a, step), b, step)
  {}

  /** What a parser returns and leaves in the set; it diverges where a loop never ends. */
  datatype Parsed = Returns(rc: int, mask: set<nat>) | Diverges

  function ParseFrom(s: string, p: nat, mask: set<nat>): Parsed
    requires p <= |s|
    decreases |s| - p
  {
    var item := ParseItem(s, p);
    if item.Bad? then Returns(1, mask)
    else if item.t.step == 0 then Diverges
    else
      var more := mask + Strided(item.t.a, item.t.b, item.t.step);
      var q := NextToken(s, p, ',');
      if q.At? then ParseFrom(s, q.i, more) else Returns(if item.end < |s| then 1 else 0, more)
  }

  function ParseList(s: string): Parsed {
    if s == "" then Returns(0, {}) else ParseFrom(s, 0, {})
  }

  /** cstr_to_cpuset */
  method CstrToCpuset(s: string) returns (r: Parsed)
    ensures r == ParseList(s)
  {
    hide ParseItem, Strided, NextToken, Plus, Rounds;
    var mask: set<nat> := {};
    if |s| == 0 { return Returns(0, mask); }
    var q, end := At(0), 0;
    while q.At?
      invariant q.At? ==> q.i <= |s| && ParseList(s) == ParseFrom(s, q.i, mask)
      invariant q.Null? ==> ParseList(s) == Returns(if end < |s| then 1 else 0, mask)
      decreases if q.At? then |s| - q.i + 1 else 0
    {
      var p := q.i;
      q := NextToken(s, p, ',');
      var item := ParseItem(s, p);
      if item.Bad? { return Returns(1, mask); }
      var a: nat, b: nat, step: nat := item.t.a, item.t.b, item.t.step;
      end := item.end;
      if step == 0 {
        // the loop below would go on for ever
        LoopEnds(a, b, step);
        return Diverges;
      }
      ghost var was, n: nat := mask, 0;
      while a <= b
        invariant a <= ULONG_MAX && a == After(item.t.a, step, n)
        invariant was + Strided(item.t.a, b, step) == mask + Strided(a, b, step)
        decreases Rounds(a, b, step)
      {
        StridedStep(a, b, step);
        FewerRounds(a, b, step);
        mask := mask + {a};
        a := Plus(a, step);
        n := n + 1;
      }
      StridedStep(a, b, step);
      assert mask == was + Strided(item.t.a, b, step);
    }
    return Returns(if end < |s| then 1 else 0, mask);
  }

  // ---- ranges with a step ----

  function Nth(a: nat, k: nat, step: nat): nat {
    a + k * step
  }

  ghost predicate Reaches(a: nat, step: nat, c: nat) {
    exists k: nat :: c == Nth(a, k, step)
  }

  /** The CPUs a + k * step up to b. */
  ghost function Progression(a: nat, b: nat, step: nat): set<nat> {
    set c: nat | c <= b && Reaches(a, step, c)
  }

  lemma {:induction false} NoWrap(a: nat, b: nat, step: nat)
    requires b < CPU_SETSIZE && 0 < step && a + step <= ULONG_MAX
    ensures Strided(a, b, step) == Progression(a, b, step)
    decreases if a > b then 0 else b + 1 - a
  {
    hide Strided, Progression;
    StridedStep(a, b, step);
    ProgressionStep(a, b, step);
    if a <= b {
      if a + step <= b {
        NoWrap(a + step, b, step);
      } else {
        StridedStep(a + step, b, step);
        ProgressionStep(a + step, b, step);
      }
    }
  }

  lemma ProgressionStep(a: nat, b: nat, step: nat)
    requires step > 0
    ensures Progression(a, b, step) == if a > b then {} else {a} + Progression(a + step, b, step)
  {
    hide Nth;
    forall c: nat ensures Reaches(a, step, c) <==> c == a || Reaches(a + step, step, c) {
      NthStep(a, 0, step);
      if k: nat :| c == Nth(a, k, step) {
        NthStep(a, k, step);
        assert k > 0 ==> c == Nth(a + step, k - 1, step);
      }
      var next := a + step;
      if k: nat :| c == Nth(next, k, step) {
        NthStep(a, k + 1, step);
      }
    }
    forall c: nat ensures Reaches(a, step, c) ==> c >= a {
      if k: nat :| c == Nth(a, k, step) { NthStep(a, k, step); }
    }
  }

  lemma NthStep(a: nat, k: nat, step: nat)
    ensures Nth(a, 0, step) == a && Nth(a, k, step) >= a
    ensures k > 0 ==> Nth(a, k, step) == Nth(a + step, k - 1, step)
  {
    if k > 0 {
      assert k * step == (k - 1) * step + step;
    }
  }

  /** A range with a step sets a, a + step, ... up to b, as long as the second of these is
      an unsigned long; beyond that it wraps, to a CPU below a. */
  lemma StrideMeaning(a: nat, b: nat, step: nat)
    requires a <= b < CPU_SETSIZE && 0 < step <= ULONG_MAX
    ensures Strided(a, b, step) == Progression(a, b, step) <==> a + step <= ULONG_MAX
  {
    if a + step <= ULONG_MAX {
      NoWrap(a, b, step);
    } else {
      var c := a + step - (ULONG_MAX + 1);
      assert Plus(a, step) == c;
      StridedStep(a, b, step);
      StridedStep(c, b, step);
      hide Strided, Nth;
      assert c in Strided(a, b, step);
      assert c !in Progression(a, b, step) by {
        if k: nat :| c == Nth(a, k, step) { NthStep(a, k, step); }
      }
    }
  }

  // ---- round trip ----

  /** What can be written as an item. */
  predicate Readable(t: Span) {
    t.a <= t.b < CPU_SETSIZE && t.step <= ULONG_MAX
  }

  predicate Proper(t: Span) {
    Readable(t) && t.step > 0
  }

  predicate AllProper(ts: seq<Span>) {
    forall i :: 0 <= i < |ts| ==> Proper(ts[i])
  }

  predicate NoneWraps(ts: seq<Span>) {
    forall i :: 0 <= i < |ts| ==> ts[i].a + ts[i].step <= ULONG_MAX
  }

  function Union(ts: seq<Span>): set<nat>
    requires AllProper(ts)
  {
    if ts == [] then {}
    else
      assert Proper(ts[0]);
      Strided(ts[0].a, ts[0].b, ts[0].step) + Union(ts[1..])
  }

  lemma PadNothing(n: nat)
    ensures Padded(n, 0) == Dec(n)
  {}

  lemma DecReads(s: string, p: nat, n: nat, rest: string)
    requires p <= |s| && s[p..] == Dec(n) + rest && (rest != "" ==> !IsDigit(rest[0])) && n <= ULONG_MAX
    ensures Strtoul(s, p) == (n, p + |Dec(n)|) && p + |Dec(n)| <= |s| && s[p + |Dec(n)|..] == rest
    ensures forall c :: !IsDigit(c) ==> c !in s[p..p + |Dec(n)|]
  {
    hide Strtoul, Padded;
    PadNothing(n);
    StrtoulOfPadded(s, p, n, 0, rest);
    assert s[p..p + |Dec(n)|] == s[p..][..|Dec(n)|] == Dec(n);
    assert s[p + |Dec(n)|..] == s[p..][|Dec(n)|..] == rest;
  }

  /** A number is printed without leading zeros. */
  lemma {:induction false} NoLeadingZero(n: nat)
    ensures Dec(n)[0] == '0' <==> n == 0
    ensures n == 0 ==> |Dec(n)| == 1
  {
    if n >= 10 {
      NoLeadingZero(n / 10);
    }
  }

  lemma FindLater(s: string, c: char, p: nat, k: nat)
    requires p <= k <= |s| && c !in s[p..k]
    ensures Find(s, c, p) >= k
  {
    hide Find;
    assert forall j :: p <= j < k ==> s[j] == s[p..k][j - p];
  }

  // ---- items as they can be written ----

  /** An item, and characters behind it that are not part of it. */
  datatype Written = Written(t: Span, junk: string)

  predicate IsNumber(t: Span) {
    t.step == 1 && t.a == t.b
  }

  /** Characters that do not make another item of this one. */
  predicate Skipped(t: Span, junk: string) {
    junk != "" ==>
      && !IsDigit(junk[0]) && ',' !in junk && (IsNumber(t) ==> '-' !in junk)
      && (!IsNumber(t) && t.step == 1 ==> ':' !in junk)
  }

  function ItemText(w: Written): string {
    SpanText(w.t) + w.junk
  }

  /** A comma between items. */
  function Texts(ws: seq<Written>): string {
    if ws == [] then ""
    else if |ws| == 1 then ItemText(ws[0])
    else ItemText(ws[0]) + "," + Texts(ws[1..])
  }

  predicate Legible(w: Written) {
    Readable(w.t) && Skipped(w.t, w.junk)
  }

  predicate AllLegible(ws: seq<Written>) {
    forall i :: 0 <= i < |ws| ==> Legible(ws[i])
  }

  function SpansIn(ws: seq<Written>): (ts: seq<Span>)
    ensures |ts| == |ws| && forall i :: 0 <= i < |ts| ==> ts[i] == ws[i].t
  {
    seq(|ws|, i requires 0 <= i < |ws| => ws[i].t)
  }

  function Plain(ts: seq<Span>): (ws: seq<Written>)
    ensures |ws| == |ts| && forall i :: 0 <= i < |ws| ==> ws[i] == Written(ts[i], "")
  {
    seq(|ts|, i requires 0 <= i < |ts| => Written(ts[i], ""))
  }

  lemma {:induction false} PlainText(ts: seq<Span>)
    ensures Texts(Plain(ts)) == Joined(ts)
  {
    hide SpanText;
    if ts != [] {
      assert ItemText(Plain(ts)[0]) == SpanText(ts[0]) + "" == SpanText(ts[0]);
      assert Plain(ts)[1..] == Plain(ts[1..]);
      PlainText(ts[1..]);
    }
  }

  /** An item is read as it was printed, whatever is skipped behind it and items follow. */
  lemma ItemReads(s: string, p: nat, w: Written, rest: string)
    requires Legible(w) && p <= |s| && s[p..] == ItemText(w) + rest && (rest != "" ==> rest[0] == ',')
    ensures p + |ItemText(w)| + |rest| == |s|
    ensures ParseItem(s, p) == Good(w.t, p + |SpanText(w.t)|)
    ensures NextToken(s, p, ',') == if rest == "" then Null else At(p + |ItemText(w)| + 1)
  {
    hide ParseItem, Dec, Find, AfterDash, Skipped, SpanText;
    CommaAt(s, p, w, rest);
    var tail := w.junk + rest;
    assert s[p..] == SpanText(w.t) + tail;
    TailStarts(w, rest);
    if IsNumber(w.t) {
      NumberText(w.t);
      NumberReads(s, p, w, rest);
    } else {
      SpanTextIs(w.t, tail);
      RangeItemReads(s, p, w, rest);
    }
  }

  lemma NumberText(t: Span)
    requires IsNumber(t)
    ensures SpanText(t) == Dec(t.a)
  {}

  lemma TailStarts(w: Written, rest: string)
    requires Legible(w) && (rest != "" ==> rest[0] == ',')
    ensures w.junk + rest != "" ==> !IsDigit((w.junk + rest)[0])
  {}

  lemma FirstReads(s: string, p: nat, n: nat, rest: string)
    requires p <= |s| && s[p..] == Dec(n) + rest && (rest != "" ==> !IsDigit(rest[0])) && n <= ULONG_MAX
    ensures Strtoul(s, p) == (n, p + |Dec(n)|) && p + |Dec(n)| <= |s| && s[p + |Dec(n)|..] == rest
    ensures p < |s| && !(n != 0 && s[p] == '0')
    ensures !(n == 0 && s[p] == '0' && p + 1 < |s| && s[p + 1] == '0')
  {
    hide Strtoul, Dec;
    NoLeadingZero(n);
    DecReads(s, p, n, rest);
    assert s[p] == s[p..][0] == Dec(n)[0];
    assert p + 1 < |s| && n == 0 ==> s[p + 1] == s[p..][1] == rest[0];
  }

  lemma NumberReads(s: string, p: nat, w: Written, rest: string)
    requires Legible(w) && IsNumber(w.t) && (rest != "" ==> rest[0] == ',')
    requires p <= |s| && s[p..] == Dec(w.t.a) + (w.junk + rest) && Find(s, ',', p) == p + |Dec(w.t.a)| + |w.junk|
    ensures ParseItem(s, p) == Good(w.t, p + |Dec(w.t.a)|)
  {
    hide Strtoul, Dec, Find, ParseItem, Skipped;
    var tail, n := w.junk + rest, p + |Dec(w.t.a)|;
    TailStarts(w, rest);
    FirstReads(s, p, w.t.a, tail);
    NoDash(s, p, w, rest);
    ParseItemNumber(s, p, w.t.a, n);
  }

  lemma NoDash(s: string, p: nat, w: Written, rest: string)
    requires Legible(w) && IsNumber(w.t) && (rest != "" ==> rest[0] == ',')
    requires p <= |s| && s[p..] == Dec(w.t.a) + (w.junk + rest)
    ensures var k := p + |Dec(w.t.a)| + |w.junk|; k <= |s| && Find(s, '-', p) >= k && (k < |s| ==> Find(s, '-', p) > k)
  {
    hide Dec, Find;
    var k := p + |Dec(w.t.a)| + |w.junk|;
    assert s[p..k] == s[p..][..k - p] == Dec(w.t.a) + w.junk;
    assert AllDigits(Dec(w.t.a));
    FindLater(s, '-', p, k);
    assert rest != "" ==> s[k] == s[p..][k - p] == ',';
  }

  lemma ParseItemNumber(s: string, p: nat, a: nat, e: nat)
    requires p < e <= |s| && Strtoul(s, p) == (a, e) && a < CPU_SETSIZE
    requires !(a != 0 && s[p] == '0') && !(a == 0 && s[p] == '0' && p + 1 < |s| && s[p + 1] == '0')
    requires Find(s, '-', p) >= Find(s, ',', p)
    ensures ParseItem(s, p) == Good(Span(a, a, 1), e)
  {
    hide Strtoul, Find, ParseRange;
  }

  function AfterDash(t: Span, rest: string): string {
    Dec(t.b) + (if t.step == 1 then "" else ":" + Dec(t.step)) + rest
  }

  lemma SpanTextIs(t: Span, tail: string)
    requires !IsNumber(t)
    ensures SpanText(t) + tail == Dec(t.a) + (['-'] + AfterDash(t, tail))
    ensures |SpanText(t) + tail| == |Dec(t.a)| + 1 + |AfterDash(t, tail)|
  {
    hide Dec;
  }

  lemma ParseItemRange(s: string, p: nat, a: nat, e: nat)
    requires p < e < |s| && Strtoul(s, p) == (a, e) && a < CPU_SETSIZE
    requires !(a != 0 && s[p] == '0') && !(a == 0 && s[p] == '0' && p + 1 < |s| && s[p + 1] == '0')
    requires Find(s, '-', p) == e < Find(s, ',', p)
    ensures ParseItem(s, p) == ParseRange(s, a, e + 1, NextToken(s, p, ','))
  {
    hide Strtoul, Find, ParseRange;
  }

  lemma RangeItemReads(s: string, p: nat, w: Written, rest: string)
    requires Legible(w) && !IsNumber(w.t) && (rest != "" ==> rest[0] == ',') && p <= |s|
    requires |w.junk| + |rest| <= |s|
    requires s[p..] == Dec(w.t.a) + (['-'] + AfterDash(w.t, w.junk + rest))
    requires Find(s, ',', p) == |s| - |rest| > p + |Dec(w.t.a)|
    ensures ParseItem(s, p) == Good(w.t, |s| - |w.junk| - |rest|)
  {
    hide Strtoul, Dec, Find, ParseRange, ParseItem, AfterDash, Skipped;
    var n, after := p + |Dec(w.t.a)|, AfterDash(w.t, w.junk + rest);
    FirstReads(s, p, w.t.a, ['-'] + after);
    EndsAt(s, p, w.t.a, '-', after);
    ParseItemRange(s, p, w.t.a, n);
    RangeReads(s, n + 1, w, rest, NextToken(s, p, ','));
  }

  /** A number, the character that ends it, and what follows. */
  lemma EndsAt(s: string, p: nat, n: nat, c: char, after: string)
    requires p <= |s| && s[p..] == Dec(n) + ([c] + after) && !IsDigit(c) && n <= ULONG_MAX
    ensures var k := p + |Dec(n)|;
            && k < |s| && Strtoul(s, p) == (n, k) && Find(s, c, p) == k && s[k + 1..] == after
  {
    hide Strtoul, Find, Dec;
    var k := p + |Dec(n)|;
    DecReads(s, p, n, [c] + after);
    assert s[k] == s[k..][0];
    assert s[k + 1..] == s[k..][1..];
    FindAt(s, c, p, k);
  }

  lemma CommaAt(s: string, p: nat, w: Written, rest: string)
    requires Legible(w) && p <= |s| && s[p..] == ItemText(w) + rest && (rest != "" ==> rest[0] == ',')
    ensures p + |ItemText(w)| + |rest| == |s|
    ensures Find(s, ',', p) == p + |ItemText(w)|
  {
    hide Find, Dec;
    var k := p + |ItemText(w)|;
    assert s[p..k] == s[p..][..|ItemText(w)|] == ItemText(w);
    assert ',' !in SpanText(w.t) by {
      assert AllDigits(Dec(w.t.a)) && AllDigits(Dec(w.t.b)) && AllDigits(Dec(w.t.step));
    }
    hide SpanText;
    assert rest != "" ==> s[k] == s[p..][|ItemText(w)|] == rest[0];
    FindAt(s, ',', p, k);
  }

  lemma RangeReads(s: string, m: nat, w: Written, rest: string, comma: Pointer)
    requires Legible(w) && !IsNumber(w.t) && m <= |s| && (rest != "" ==> rest[0] == ',')
    requires s[m..] == AfterDash(w.t, w.junk + rest)
    requires comma == if rest == "" then Null else At(|s| - |rest| + 1)
    ensures ParseRange(s, w.t.a, m, comma) == Good(w.t, |s| - |w.junk| - |rest|)
  {
    hide Strtoul, Find, Dec, Skipped, ParseRange;
    var t, tail := w.t, w.junk + rest;
    var n := m + |Dec(t.b)|;
    TailStarts(w, rest);
    if t.step == 1 {
      assert s[m..] == Dec(t.b) + tail;
      DecReads(s, m, t.b, tail);
      NoColon(s, m, w, rest);
      NoStepReads(s, t, m, comma);
    } else {
      var after := Dec(t.step) + tail;
      assert s[m..] == Dec(t.b) + (":" + after);
      EndsAt(s, m, t.b, ':', after);
      DecReads(s, n + 1, t.step, tail);
      StepReads(s, t, m, n, comma);
    }
  }

  lemma NoStepReads(s: string, t: Span, m: nat, comma: Pointer)
    requires Readable(t) && t.step == 1 && m <= |s| && Strtoul(s, m).0 == t.b && Strtoul(s, m).1 > m
    requires if comma.Null? then Find(s, ':', m) == |s| else Find(s, ':', m) > comma.i - 1
    ensures ParseRange(s, t.a, m, comma) == Good(t, Strtoul(s, m).1)
  {
    hide Strtoul, Find;
  }

  lemma StepReads(s: string, t: Span, m: nat, n: nat, comma: Pointer)
    requires Readable(t) && m < n < |s| && Strtoul(s, m) == (t.b, n) && Find(s, ':', m) == n
    requires Strtoul(s, n + 1).0 == t.step && Strtoul(s, n + 1).1 > n + 1
    requires comma.At? ==> n + 1 < comma.i
    ensures ParseRange(s, t.a, m, comma) == Good(t, Strtoul(s, n + 1).1)
  {
    hide Strtoul, Find;
  }

  lemma NoColon(s: string, m: nat, w: Written, rest: string)
    requires Legible(w) && !IsNumber(w.t) && w.t.step == 1 && m <= |s| && (rest != "" ==> rest[0] == ',')
    requires s[m..] == Dec(w.t.b) + (w.junk + rest)
    ensures |rest| <= |s| && Find(s, ':', m) >= |s| - |rest|
    ensures rest != "" ==> Find(s, ':', m) > |s| - |rest|
  {
    hide Find, Dec;
    var k := |s| - |rest|;
    assert s[m..k] == s[m..][..k - m] == Dec(w.t.b) + w.junk;
    assert AllDigits(Dec(w.t.b));
    FindLater(s, ':', m, k);
    assert rest != "" ==> s[k] == s[m..][k - m] == ',';
  }

  /** The first item of a list, and what is behind its comma. */
  lemma FirstItem(s: string, p: nat, ws: seq<Written>)
    requires ws != [] && Legible(ws[0]) && p <= |s| && s[p..] == Texts(ws)
    ensures ParseItem(s, p) == Good(ws[0].t, p + |SpanText(ws[0].t)|)
    ensures |ws| == 1 ==> NextToken(s, p, ',') == Null && p + |ItemText(ws[0])| == |s|
    ensures |ws| > 1 ==> var q := p + |ItemText(ws[0])| + 1;
              q <= |s| && NextToken(s, p, ',') == At(q) && s[q..] == Texts(ws[1..])
  {
    hide ParseItem, NextToken, ItemText, SpanText, Legible;
    var w := ws[0];
    var rest := if |ws| == 1 then "" else "," + Texts(ws[1..]);
    assert s[p..] == ItemText(w) + rest;
    ItemReads(s, p, w, rest);
    if |ws| > 1 {
      assert s[p + |ItemText(w)| + 1..] == s[p..][|ItemText(w)| + 1..] == Texts(ws[1..]);
    }
  }

  lemma {:induction false} TextParses(s: string, p: nat, ws: seq<Written>, mask: set<nat>)
    requires ws != [] && AllLegible(ws) && AllProper(SpansIn(ws)) && p <= |s| && s[p..] == Texts(ws)
    ensures ParseFrom(s, p, mask) == Returns(if ws[|ws| - 1].junk == "" then 0 else 1, mask + Union(SpansIn(ws)))
    decreases |ws|
  {
    hide ParseItem, NextToken, SpanText, Strided, Texts, Legible;
    FirstItem(s, p, ws);
    var t := ws[0].t;
    assert SpansIn(ws)[0] == t && SpansIn(ws)[1..] == SpansIn(ws[1..]);
    var more := mask + Strided(t.a, t.b, t.step);
    if |ws| > 1 {
      TextParses(s, p + |ItemText(ws[0])| + 1, ws[1..], more);
      assert more + Union(SpansIn(ws[1..])) == mask + Union(SpansIn(ws));
    }
  }

  lemma JoinedParses(s: string, p: nat, ts: seq<Span>, mask: set<nat>)
    requires ts != [] && AllProper(ts) && p <= |s| && s[p..] == Joined(ts)
    ensures ParseFrom(s, p, mask) == Returns(0, mask + Union(ts))
  {
    hide ParseFrom, Texts, Joined, Union;
    PlainText(ts);
    assert SpansIn(Plain(ts)) == ts;
    TextParses(s, p, Plain(ts), mask);
  }

  lemma {:induction false} SpansUnion(mask: set<nat>, i: nat)
    requires i <= CPU_SETSIZE && forall c :: c in mask ==> c < CPU_SETSIZE
    ensures AllProper(Spans(mask, i))
    ensures forall c: nat :: c in Union(Spans(mask, i)) <==> c in mask && c >= i
    decreases CPU_SETSIZE - i
  {
    hide Strided, RunEnd;
    if i < CPU_SETSIZE {
      if i !in mask {
        SpansUnion(mask, i + 1);
      } else {
        var e := RunEnd(mask, i + 1);
        SpansUnion(mask, e);
        var ts := Spans(mask, e);
        OneUnion(i, if e == i + 2 then i else e - 1, Spans(mask, i));
        if e == i + 2 {
          OneUnion(i + 1, i + 1, Spans(mask, i)[1..]);
          assert Spans(mask, i)[1..][1..] == ts;
        } else {
          assert Spans(mask, i)[1..] == ts;
        }
      }
    }
  }

  lemma OneUnion(a: nat, b: nat, ts: seq<Span>)
    requires AllProper(ts) && ts != [] && ts[0] == Span(a, b, 1)
    ensures forall c: nat :: c in Union(ts) <==> a <= c <= b || c in Union(ts[1..])
  {
    hide Strided, Nth;
    assert Proper(ts[0]);
    NoWrap(a, b, 1);
    forall c: nat ensures Reaches(a, 1, c) <==> a <= c {
      if k: nat :| c == Nth(a, k, 1) { NthStep(a, k, 1); }
      if a <= c { assert c == Nth(a, c - a, 1) by { NthOne(a, c - a); } }
    }
  }

  lemma NthOne(a: nat, k: nat)
    ensures Nth(a, k, 1) == a + k
  {}

  /** What is printed for a set reads back as that set. */
  lemma RoundTrip(mask: set<nat>)
    requires forall c :: c in mask ==> c < CPU_SETSIZE
    ensures ParseList(Joined(Spans(mask, 0))) == Returns(0, mask)
  {
    hide Spans, Joined, ParseFrom, Union, SpanText, Strided;
    var ts := Spans(mask, 0);
    SpansUnion(mask, 0);
    JoinedEmpty(ts);
    if ts != [] {
      var s := Joined(ts);
      assert s[0..] == s;
      JoinedParses(s, 0, ts, {});
    }
  }

  lemma TextNotEmpty(t: Span)
    ensures SpanText(t) != ""
  {}

  lemma JoinedEmpty(ts: seq<Span>)
    ensures Joined(ts) == "" <==> ts == []
    ensures ts == [] ==> Union(ts) == {}
  {}

  predicate AllReadable(ts: seq<Span>) {
    forall i :: 0 <= i < |ts| ==> Readable(ts[i])
  }

  predicate HasZeroStep(ts: seq<Span>) {
    exists i :: 0 <= i < |ts| && ts[i].step == 0
  }

  lemma {:induction false} TextDiverges(s: string, p: nat, ws: seq<Written>, mask: set<nat>)
    requires AllLegible(ws) && HasZeroStep(SpansIn(ws)) && p <= |s| && s[p..] == Texts(ws)
    ensures ParseFrom(s, p, mask) == Diverges
    decreases |ws|
  {
    hide ParseItem, NextToken, SpanText, Strided, Texts, Legible;
    FirstItem(s, p, ws);
    var t := ws[0].t;
    if t.step > 0 {
      var i :| 0 <= i < |SpansIn(ws)| && SpansIn(ws)[i].step == 0;
      assert SpansIn(ws[1..])[i - 1].step == 0;
      assert Legible(ws[0]) && Readable(t) by { LegibleIs(ws[0]); }
      TextDiverges(s, p + |ItemText(ws[0])| + 1, ws[1..], mask + Strided(t.a, t.b, t.step));
    }
  }

  lemma LegibleIs(w: Written)
    ensures Legible(w) ==> Readable(w.t)
    ensures w.junk == "" && Readable(w.t) ==> Legible(w)
  {}

  /** Reading any list of ranges: it never ends if a step is 0. Else it gives all CPUs of the
      ranges; characters behind an item are skipped before a comma, and are an error at the
      end, by when all is set. */
  lemma Leftover(ws: seq<Written>)
    requires ws != [] && AllLegible(ws)
    ensures HasZeroStep(SpansIn(ws)) ==> ParseList(Texts(ws)) == Diverges
    ensures !HasZeroStep(SpansIn(ws)) ==>
              && AllProper(SpansIn(ws))
              && ParseList(Texts(ws)) == Returns(if ws[|ws| - 1].junk == "" then 0 else 1, Union(SpansIn(ws)))
  {
    hide ParseFrom, Texts, Legible, Readable, Union;
    var s, ts := Texts(ws), SpansIn(ws);
    assert s[0..] == s;
    TextsNotEmpty(ws);
    if HasZeroStep(ts) {
      TextDiverges(s, 0, ws, {});
    } else {
      forall i | 0 <= i < |ts| ensures Proper(ts[i]) {
        assert ts[i].step != 0 && Legible(ws[i]);
        LegibleIs(ws[i]);
      }
      TextParses(s, 0, ws, {});
    }
  }

  lemma TextsNotEmpty(ws: seq<Written>)
    requires ws != []
    ensures Texts(ws) != ""
  {
    TextNotEmpty(ws[0].t);
    hide SpanText;
  }

  /** Parsing a list of ranges comes to an end exactly if no step is 0. */
  lemma NeverEnds(ts: seq<Span>)
    requires ts != [] && AllReadable(ts)
    ensures ParseList(Joined(ts)).Diverges? <==> HasZeroStep(ts)
  {
    hide ParseList, Texts, Legible, Readable, Joined, Union;
    PlainText(ts);
    assert SpansIn(Plain(ts)) == ts;
    forall i | 0 <= i < |ts| ensures Legible(Plain(ts)[i]) { LegibleIs(Plain(ts)[i]); }
    Leftover(Plain(ts));
  }

  /** A list whose parsing does not end. */
  lemma ZeroStep()
    ensures ParseList("0-3:0").Diverges?
  {
    var ts := [Span(0, 3, 0)];
    assert Dec(0) == "0" && Dec(3) == "3";
    assert Joined(ts) == "0-3:0";
    assert ts[0].step == 0;
    NeverEnds(ts);
  }

  function Sample(): seq<Written> {
    [Written(Span(0, 3, 1), "x"), Written(Span(7, 7, 1), ":y"), Written(Span(9, 9, 1), "")]
  }

  lemma SampleIs()
    ensures var ts := [Span(0, 3, 1), Span(7, 7, 1), Span(9, 9, 1)];
            AllLegible(Sample()) && SpansIn(Sample()) == ts && !HasZeroStep(ts) && AllProper(ts)
  {}

  lemma SampleUnion(ts: seq<Span>)
    requires ts == [Span(0, 3, 1), Span(7, 7, 1), Span(9, 9, 1)]
    ensures AllProper(ts) && Union(ts) == {0, 1, 2, 3, 7, 9}
  {
    hide Union, Strided, Proper;
    SampleIs();
    var t2, t3, t4 := ts[1..], ts[2..], ts[3..];
    assert t2 == [Span(7, 7, 1), Span(9, 9, 1)] && t2[1..] == t3 == [Span(9, 9, 1)] && t3[1..] == t4;
    OneUnion(0, 3, ts);
    OneUnion(7, 7, t2);
    OneUnion(9, 9, t3);
    NoUnion(t4);
  }

  /** As in 0-3x,7:y,9. */
  lemma LeftoverRead()
    ensures ParseList("0-3x,7:y,9") == Returns(0, {0, 1, 2, 3, 7, 9})
  {
    hide ParseList, Texts, Union, Sample, SpansIn, Legible, HasZeroStep;
    var ts := [Span(0, 3, 1), Span(7, 7, 1), Span(9, 9, 1)];
    SampleText();
    SampleIs();
    SampleUnion(ts);
    SampleEnd();
    Leftover(Sample());
  }

  lemma SampleEnd()
    ensures |Sample()| == 3 && Sample()[2].junk == ""
  {}

  lemma NoUnion(ts: seq<Span>)
    requires |ts| == 0
    ensures AllProper(ts) && Union(ts) == {}
  {}

  lemma SampleText()
    ensures Texts(Sample()) == "0-3x,7:y,9"
  {
    var ws := Sample();
    assert Dec(0) == "0" && Dec(3) == "3" && Dec(7) == "7" && Dec(9) == "9";
    hide Dec;
    assert ItemText(ws[0]) == "0-3x" && ItemText(ws[1]) == "7:y" && ItemText(ws[2]) == "9";
    hide ItemText;
    assert ws[1..][1..] == [ws[2]];
    assert Texts(ws[1..][1..]) == "9";
    assert Texts(ws[1..]) == "7:y,9";
  }

  /** A list of ranges, with steps or without, reads as all the CPUs of its ranges. */
  lemma ListReads(ts: seq<Span>)
    requires ts != [] && AllProper(ts) && NoneWraps(ts)
    ensures ParseList(Joined(ts)).Returns? && ParseList(Joined(ts)).rc == 0
    ensures forall c :: c in ParseList(Joined(ts)).mask <==>
              exists i :: 0 <= i < |ts| && c in Progression(ts[i].a, ts[i].b, ts[i].step)
  {
    hide SpanText, Strided, Progression;
    var s := Joined(ts);
    assert s[0..] == s;
    TextNotEmpty(ts[0]);
    JoinedParses(s, 0, ts, {});
    UnionIs(ts);
  }

  lemma {:induction false} UnionIs(ts: seq<Span>)
    requires AllProper(ts) && NoneWraps(ts)
    ensures forall c :: c in Union(ts) <==>
              exists i :: 0 <= i < |ts| && c in Progression(ts[i].a, ts[i].b, ts[i].step)
  {
    hide Strided, Progression;
    if ts != [] {
      NoWrap(ts[0].a, ts[0].b, ts[0].step);
      UnionIs(ts[1..]);
      forall c ensures c in Union(ts) <==>
                exists i :: 0 <= i < |ts| && c in Progression(ts[i].a, ts[i].b, ts[i].step) {
        if c in Union(ts[1..]) {
          var i :| 0 <= i < |ts[1..]| && c in Progression(ts[1..][i].a, ts[1..][i].b, ts[1..][i].step);
          assert ts[i + 1] == ts[1..][i];
        }
        if i :| 0 < i < |ts| && c in Progression(ts[i].a, ts[i].b, ts[i].step) {
          assert ts[1..][i - 1] == ts[i];
        }
      }
    }
  }
}

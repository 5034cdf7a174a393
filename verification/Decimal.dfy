/** Decimal text: what the printf conversions "%lu" and "%0*lu" write and what
    strtoul(3) in base 10 reads back. */
module Decimal {

  /** ULONG_MAX on the 64-bit systems the programs run on. */
  const ULONG_MAX: nat := 0xFFFF_FFFF_FFFF_FFFF

  predicate IsDigit(c: char) {
    '0' <= c <= '9'
  }

  predicate AllDigits(s: string) {
    forall i :: 0 <= i < |s| ==> IsDigit(s[i])
  }

  function DigitCount(n: nat): (d: nat)
    ensures d >= 1
  {
    if n < 10 then 1 else 1 + DigitCount(n / 10)
  }

  function DigitChar(d: nat): char
    requires d < 10
  {
    d as char + '0'
  }

  function DigitValue(c: char): (d: nat)
    requires IsDigit(c)
    ensures d < 10
  {
    (c - '0') as nat
  }

  /** "%lu" */
  function Dec(n: nat): (s: string)
    ensures |s| == DigitCount(n) && AllDigits(s)
  {
    if n < 10 then [DigitChar(n)] else Dec(n / 10) + [DigitChar(n % 10)]
  }

  function Zeros(k: nat): (s: string)
    ensures |s| == k && AllDigits(s)
  {
    seq(k, _ => '0')
  }

  /** The number of zeros that pad n to the given width. */
  function Pad(n: nat, width: nat): (p: nat)
    ensures DigitCount(n) + p == if width > DigitCount(n) then width else DigitCount(n)
  {
    if width > DigitCount(n) then width - DigitCount(n) else 0
  }

  /** "%0*lu" */
  function Padded(n: nat, width: nat): (s: string)
    ensures |s| == DigitCount(n) + Pad(n, width) && AllDigits(s)
  {
    Zeros(Pad(n, width)) + Dec(n)
  }

  /** The number that a string of digits denotes. */
  function Value(s: string): nat
    requires AllDigits(s)
  {
    if |s| == 0 then 0 else 10 * Value(s[..|s| - 1]) + DigitValue(s[|s| - 1])
  }

  lemma {:induction false} ValueOfDec(n: nat)
    ensures Value(Dec(n)) == n
  {
    if n >= 10 {
      ValueOfDec(n / 10);
      assert Dec(n)[..|Dec(n)| - 1] == Dec(n / 10);
    }
  }

  lemma {:induction false} ValueOfZeros(k: nat, s: string)
    requires AllDigits(s)
    ensures Value(Zeros(k) + s) == Value(s)
    decreases k + |s|
  {
    if |s| > 0 {
      assert (Zeros(k) + s)[..k + |s| - 1] == Zeros(k) + s[..|s| - 1];
      ValueOfZeros(k, s[..|s| - 1]);
    } else if k > 0 {
      assert Zeros(k) + s == Zeros(k - 1) + "" + ['0'];
      assert (Zeros(k) + s)[..k - 1] == Zeros(k - 1) + "";
      ValueOfZeros(k - 1, "");
    }
  }

  /** Reading a padded number gives the number back. */
  lemma {:induction false} ValueOfPadded(n: nat, width: nat)
    ensures Value(Padded(n, width)) == n
  {
    ValueOfZeros(Pad(n, width), Dec(n));
    ValueOfDec(n);
  }

  lemma PaddedInjective(n: nat, m: nat, w: nat, v: nat)
    requires Padded(n, w) == Padded(m, v)
    ensures n == m
  {
    ValueOfPadded(n, w);
    ValueOfPadded(m, v);
  }

  lemma {:induction false} DigitCountMonotone(n: nat, m: nat)
    requires n <= m
    ensures DigitCount(n) <= DigitCount(m)
  {
    if n >= 10 {
      DigitCountMonotone(n / 10, m / 10);
    }
  }

  /** If padding n to two widths looks alike, so does padding any larger number. */
  lemma PadMonotone(n: nat, k: nat, w: nat, v: nat)
    requires n <= k && Pad(n, w) == Pad(n, v)
    ensures Pad(k, w) == Pad(k, v) && Padded(k, w) == Padded(k, v)
  {
    DigitCountMonotone(n, k);
  }

  lemma {:induction false} DigitsAreDec(s: string)
    requires AllDigits(s) && |s| > 0 && s[0] != '0'
    ensures s == Dec(Value(s)) && Value(s) > 0
  {
    var t := s[..|s| - 1];
    assert s == t + [s[|s| - 1]];
    if |s| > 1 {
      DigitsAreDec(t);
      assert Value(s) / 10 == Value(t);
    } else {
      assert Value(t) == 0;
    }
  }

  /** Every non-empty string of digits is its value printed at its own length. */
  lemma {:induction false} DigitsArePadded(s: string)
    requires AllDigits(s) && |s| > 0
    ensures s == Padded(Value(s), |s|)
  {
    if s[0] != '0' {
      DigitsAreDec(s);
    } else if |s| == 1 {
      assert Value(s) == 0;
    } else {
      var t := s[1..];
      DigitsArePadded(t);
      assert s == Zeros(1) + t;
      ValueOfZeros(1, t);
      assert Zeros(Pad(Value(t), |s|)) == Zeros(1) + Zeros(Pad(Value(t), |t|));
    }
  }

  // ---- strtoul ----

  predicate IsSpace(c: char) {
    c == ' ' || '\t' <= c <= '\r'
  }

  /** The first position at or after i that does not hold a digit. */
  function DigitsEnd(s: string, i: nat): (e: nat)
    requires i <= |s|
    ensures i <= e <= |s| && AllDigits(s[i..e]) && (e < |s| ==> !IsDigit(s[e]))
    decreases |s| - i
  {
    if i < |s| && IsDigit(s[i]) then
      var e := DigitsEnd(s, i + 1);
      assert s[i..e] == [s[i]] + s[i + 1..e];
      e
    else i
  }

  function SpacesEnd(s: string, i: nat): (e: nat)
    requires i <= |s|
    ensures i <= e <= |s|
    decreases |s| - i
  {
    if i < |s| && IsSpace(s[i]) then SpacesEnd(s, i + 1) else i
  }

  /** strtoul (s + i, &end, 10): white space, an optional sign, digits. Without
      digits the value is 0 and end is i; too large a number gives ULONG_MAX;
      a minus sign negates modulo 2^64. */
  function Strtoul(s: string, i: nat): (r: (nat, nat))
    requires i <= |s|
    ensures i <= r.1 <= |s| && r.0 <= ULONG_MAX
  {
    var j := SpacesEnd(s, i);
    var k := if j < |s| && (s[j] == '+' || s[j] == '-') then j + 1 else j;
    var e := DigitsEnd(s, k);
    if e == k then (0, i)
    else
      var v := Value(s[k..e]);
      if v > ULONG_MAX then (ULONG_MAX, e)
      else if s[j] == '-' && v > 0 then (ULONG_MAX + 1 - v, e)
      else (v, e)
  }

  lemma {:induction false} DigitsEndOfRun(s: string, i: nat, d: string, rest: string)
    requires i <= |s| && s[i..] == d + rest
    requires AllDigits(d) && (|rest| > 0 ==> !IsDigit(rest[0]))
    ensures DigitsEnd(s, i) == i + |d|
    decreases |d|
  {
    if |d| > 0 {
      assert s[i] == (d + rest)[0] == d[0];
      assert s[i + 1..] == s[i..][1..] == d[1..] + rest;
      DigitsEndOfRun(s, i + 1, d[1..], rest);
    } else if i < |s| {
      assert s[i] == s[i..][0] == rest[0];
    }
  }

  /** On digits followed by something else, strtoul reads exactly the digits. */
  lemma StrtoulOfPadded(s: string, i: nat, n: nat, width: nat, rest: string)
    requires i <= |s| && s[i..] == Padded(n, width) + rest
    requires |rest| > 0 ==> !IsDigit(rest[0])
    requires n <= ULONG_MAX
    ensures Strtoul(s, i) == (n, i + |Padded(n, width)|)
  {
    hide Padded, Dec, Zeros, Value, DigitsEnd;
    var d := Padded(n, width);
    assert s[i] == (d + rest)[0] == d[0];
    DigitsEndOfRun(s, i, d, rest);
    assert s[i..i + |d|] == s[i..][..|d|] == d;
    ValueOfPadded(n, width);
  }

  /** From i on there is a number: digits after white space and at most one sign. */
  predicate StartsNumber(x: string, i: nat) {
    exists k :: i <= k < |x| && IsDigit(x[k]) && OnlyBefore(x, i, k)
  }

  predicate OnlyBefore(x: string, i: nat, k: nat)
    requires i <= k < |x|
  {
    forall j :: i <= j < k ==> IsSpace(x[j]) || (j == k - 1 && (x[j] == '+' || x[j] == '-'))
  }

  lemma {:induction false} SpacesIs(x: string, i: nat, j: nat)
    requires i <= j <= |x| && (forall k :: i <= k < j ==> IsSpace(x[k])) && (j < |x| ==> !IsSpace(x[j]))
    ensures SpacesEnd(x, i) == j
    decreases j - i
  {
    if i < j { SpacesIs(x, i + 1, j); }
  }

  lemma {:induction false} SpacesBefore(x: string, i: nat)
    requires i <= |x|
    ensures forall k :: i <= k < SpacesEnd(x, i) ==> IsSpace(x[k])
    decreases |x| - i
  {
    if i < |x| && IsSpace(x[i]) { SpacesBefore(x, i + 1); }
  }

  /** strtoul reads a number exactly where one starts. */
  lemma StartsIff(x: string, i: nat)
    requires i <= |x|
    ensures StartsNumber(x, i) <==> Strtoul(x, i).1 != i
  {
    hide SpacesEnd, DigitsEnd, Value;
    SpacesBefore(x, i);
    var j := SpacesEnd(x, i);
    var k := if j < |x| && (x[j] == '+' || x[j] == '-') then j + 1 else j;
    DigitsFrom(x, k);
    if k < |x| && IsDigit(x[k]) {
      assert OnlyBefore(x, i, k);
    }
    if StartsNumber(x, i) {
      var m :| i <= m < |x| && IsDigit(x[m]) && OnlyBefore(x, i, m);
      SpacesIs(x, i, if i < m && !IsSpace(x[m - 1]) then m - 1 else m);
      assert k == m;
    }
  }

  lemma DigitsFrom(x: string, k: nat)
    requires k <= |x|
    ensures DigitsEnd(x, k) > k <==> k < |x| && IsDigit(x[k])
  {}
}

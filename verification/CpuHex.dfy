/** CPU sets as hexadecimal masks, "00000001,ffffffff": cpuset_to_hex, s_to_cpuset and
    hex_to_cpuset. */
module CpuHex {
  import opened Decimal
  import opened Search
  import opened CpuList

  const HEXCHARSIZE: nat := 8
  const HEXCHUNKSZ: nat := 32

  // ---- bits ----

  /** (v >> i) & 1 */
  predicate Bit(v: nat, i: nat) {
    if i == 0 then v % 2 == 1 else Bit(v / 2, i - 1)
  }

  /** The number whose bits from the lowest on are those given. */
  function FromBits(bits: seq<bool>): nat {
    if bits == [] then 0 else (if bits[0] then 1 else 0) + 2 * FromBits(bits[1..])
  }

  lemma {:induction false} BitOfFromBits(bits: seq<bool>, i: nat)
    ensures Bit(FromBits(bits), i) <==> i < |bits| && bits[i]
    decreases i
  {
    if bits == [] {
      NoBits(i);
    } else {
      assert FromBits(bits) / 2 == FromBits(bits[1..]);
      if i > 0 {
        BitOfFromBits(bits[1..], i - 1);
      }
    }
  }

  lemma {:induction false} NoBits(i: nat)
    ensures !Bit(0, i)
  {
    if i > 0 { NoBits(i - 1); }
  }

  function Pow16(k: nat): (p: nat)
    ensures p > 0
  {
    if k == 0 then 1 else 16 * Pow16(k - 1)
  }

  /** Four bits make a digit. */
  lemma BitOfDigits(v: nat, d: nat, i: nat)
    requires d < 16
    ensures Bit(16 * v + d, i) <==> if i < 4 then Bit(d, i) else Bit(v, i - 4)
  {
    var n := 16 * v + d;
    assert n / 2 == 8 * v + d / 2 && n / 2 / 2 == 4 * v + d / 2 / 2;
    assert n / 2 / 2 / 2 == 2 * v + d / 2 / 2 / 2 && n / 2 / 2 / 2 / 2 == v;
    if i >= 4 {
      assert Bit(n, i) == Bit(n / 2, i - 1) == Bit(n / 2 / 2, i - 2) == Bit(n / 2 / 2 / 2, i - 3);
    } else if i >= 1 {
      assert Bit(n, i) == Bit(n / 2, i - 1) && Bit(d, i) == Bit(d / 2, i - 1);
      if i >= 2 {
        assert Bit(n / 2, i - 1) == Bit(n / 2 / 2, i - 2) && Bit(d / 2, i - 1) == Bit(d / 2 / 2, i - 2);
      }
      if i >= 3 {
        assert Bit(n / 2 / 2, 1) == Bit(n / 2 / 2 / 2, 0) && Bit(d / 2 / 2, 1) == Bit(d / 2 / 2 / 2, 0);
      }
    }
  }

  // ---- digits ----

  predicate IsHex(c: char) {
    IsDigit(c) || 'a' <= c <= 'f' || 'A' <= c <= 'F'
  }

  predicate AllHex(s: string) {
    forall i :: 0 <= i < |s| ==> IsHex(s[i])
  }

  /** char_to_val */
  function CharToVal(c: char): (v: int)
    ensures -1 <= v < 16 && (v == -1 <==> !IsHex(c))
  {
    if '0' <= c <= '9' then (c - '0') as int
    else if 'a' <= c <= 'f' then (c - 'a') as int + 10
    else if 'A' <= c <= 'F' then (c - 'A') as int + 10
    else -1
  }

  function HexValue(s: string): nat
    requires AllHex(s)
  {
    if s == "" then 0 else 16 * HexValue(s[..|s| - 1]) + CharToVal(s[|s| - 1])
  }

  function HexChar(d: nat): (c: char)
    requires d < 16
    ensures IsHex(c) && CharToVal(c) == d
  {
    if d < 10 then '0' + d as char else 'a' + (d - 10) as char
  }

  /** "%0*x" of a number of no more than k digits. */
  function HexDigits(v: nat, k: nat): (s: string)
    ensures |s| == k && AllHex(s)
  {
    if k == 0 then "" else HexDigits(v / 16, k - 1) + [HexChar(v % 16)]
  }

  lemma {:induction false} ValueOfHexDigits(v: nat, k: nat)
    requires v < Pow16(k)
    ensures HexValue(HexDigits(v, k)) == v
  {
    hide HexValue, HexDigits, Pow16;
    if k == 0 {
      NoDigits(v);
    } else {
      Pow16Less(v, k);
      ValueOfHexDigits(v / 16, k - 1);
      LastDigit(v, k);
    }
  }

  lemma NoDigits(v: nat)
    requires v < Pow16(0)
    ensures v == 0 == HexValue(HexDigits(v, 0))
  {}

  lemma LastDigit(v: nat, k: nat)
    requires k > 0
    ensures HexValue(HexDigits(v, k)) == 16 * HexValue(HexDigits(v / 16, k - 1)) + v % 16
  {
    var d := HexDigits(v, k);
    assert d[..k - 1] == HexDigits(v / 16, k - 1) && d[k - 1] == HexChar(v % 16);
  }

  lemma Pow16Less(v: nat, k: nat)
    requires k > 0 && v < Pow16(k)
    ensures v / 16 < Pow16(k - 1)
  {}

  // ---- printing ----

  /** The word of a chunk. */
  function ChunkBits(mask: set<nat>, chunk: nat): (bits: seq<bool>)
    ensures |bits| == HEXCHUNKSZ && forall i :: 0 <= i < HEXCHUNKSZ ==> bits[i] == (chunk * HEXCHUNKSZ + i in mask)
  {
    seq(HEXCHUNKSZ, i requires 0 <= i < HEXCHUNKSZ => chunk * HEXCHUNKSZ + i in mask)
  }

  function ChunkText(mask: set<nat>, chunk: nat): string {
    HexDigits(FromBits(ChunkBits(mask, chunk)), HEXCHARSIZE)
  }

  /** From the given chunk down, with commas. */
  function ChunksText(mask: set<nat>, chunk: nat): string {
    ChunkText(mask, chunk) + if chunk == 0 then "" else "," + ChunksText(mask, chunk - 1)
  }

  /** The highest CPU below n that is in the set, or 0. */
  function Highest(mask: set<nat>, n: nat): (i: nat)
    ensures (i == 0 || i in mask) && (i == 0 || i < n) && forall c :: i < c < n ==> c !in mask
  {
    if n == 0 then 0 else if n - 1 in mask then n - 1 else Highest(mask, n - 1)
  }

  function LastChunk(mask: set<nat>): (chunk: nat)
    ensures (chunk + 1) * HEXCHUNKSZ <= CPU_SETSIZE
  {
    Highest(mask, CPU_SETSIZE) / HEXCHUNKSZ
  }

  /** cpuset_last_bit */
  method LastBit(mask: set<nat>) returns (i: nat)
    ensures i == Highest(mask, CPU_SETSIZE)
  {
    var k := CPU_SETSIZE - 1;
    while k >= 0
      invariant -1 <= k < CPU_SETSIZE && Highest(mask, CPU_SETSIZE) == Highest(mask, k + 1)
    {
      if k in mask { return k; }
      k := k - 1;
    }
    return 0;
  }

  lemma FromBitsOne(bits: seq<bool>, i: nat)
    requires i < |bits|
    ensures FromBits(bits[i..]) == (if bits[i] then 1 else 0) + 2 * FromBits(bits[i + 1..])
  {
    assert bits[i..][1..] == bits[i + 1..];
  }

  lemma FromBitsEnds(bits: seq<bool>)
    ensures FromBits(bits[|bits|..]) == 0 && bits[0..] == bits
  {}

  lemma ChunksTextOne(mask: set<nat>, chunk: nat)
    ensures ChunksText(mask, chunk)
         == HexDigits(FromBits(ChunkBits(mask, chunk)), HEXCHARSIZE)
          + if chunk == 0 then "" else "," + ChunksText(mask, chunk - 1)
  {}

  /** The inner loop of cpuset_to_hex. */
  method ChunkWord(mask: set<nat>, chunk: nat) returns (val: nat)
    ensures val == FromBits(ChunkBits(mask, chunk))
  {
    hide FromBits;
    ghost var bits := ChunkBits(mask, chunk);
    FromBitsEnds(bits);
    val := 0;
    var bit := HEXCHUNKSZ - 1;
    while bit >= 0
      invariant -1 <= bit < HEXCHUNKSZ && val == FromBits(bits[bit + 1..])
    {
      FromBitsOne(bits, bit);
      val := 2 * val + if chunk * HEXCHUNKSZ + bit in mask then 1 else 0;
      bit := bit - 1;
    }
  }

  /** What snprintf writes of a text that begins at a position of a buffer with so much
      room. */
  function Fragment(text: string, at: nat, len: nat): string
    requires at <= len
  {
    if at + |text| < len then text else text[..if at < len then len - at - 1 else 0]
  }

  /** A text as a buffer of that length holds it. */
  function Fitted(text: string, len: nat): string
    requires len > 0
  {
    if |text| < len then text else text[..len - 1]
  }

  lemma FittedMore(a: string, b: string, len: nat)
    requires len > 0 && |a| <= len
    ensures Fitted(a, len) + Fragment(b, |a|, len) == Fitted(a + b, len)
  {}

  /** cpuset_to_hex, into a buffer of len characters. The room left is computed unsigned: a
      chunk that begins past the end of the buffer is written there. */
  method CpusetToHex(mask: set<nat>, len: nat) returns (cnt: nat, buf: string, overrun: bool)
    ensures var all := ChunksText(mask, LastChunk(mask));
            && (overrun <==> 0 < len < |all| - 9)
            && (len == 0 ==> cnt == 0 && buf == "")
            && (len > 0 && !overrun ==> cnt == |all| && buf == Fitted(all, len))
  {
    hide HexDigits, ChunksText, FromBits, ChunkBits, Highest, Fragment, Fitted;
    ghost var all := ChunksText(mask, LastChunk(mask));
    var last := LastBit(mask);
    cnt, buf, overrun := 0, "", false;
    if len == 0 { return; }
    var sep := "";
    var chunk: int := last / HEXCHUNKSZ;
    ghost var str := "";
    assert all == str + (sep + all);
    NothingFitted(len);
    ChunksTextOne(mask, chunk);
    while chunk >= 0
      invariant -1 <= chunk && |sep| <= 1 && (str != "" ==> sep != "") && (chunk >= 0 ==> |all| >= |str| + |sep| + 8)
      invariant all == str + if chunk < 0 then "" else sep + ChunksText(mask, chunk)
      invariant cnt == |str| <= len + 9 && buf == Fitted(str, len)
    {
      if cnt > len { return cnt, buf, true; }
      var val := ChunkWord(mask, chunk);
      ChunksTextOne(mask, chunk);
      ghost var rest := if chunk == 0 then "" else "," + ChunksText(mask, chunk - 1);
      var piece := sep + HexDigits(val, HEXCHARSIZE);
      Reassoc(str, sep, HexDigits(val, HEXCHARSIZE), rest);
      FittedMore(str, piece, len);
      buf := buf + Fragment(piece, cnt, len);
      str := str + piece;
      cnt := cnt + |piece|;
      sep := ",";
      if chunk > 0 { ChunksTextOne(mask, chunk - 1); }
      chunk := chunk - 1;
    }
    assert all == str;
  }

  lemma NothingFitted(len: nat)
    requires len > 0
    ensures Fitted("", len) == ""
  {}

  lemma Reassoc(a: string, b: string, c: string, d: string)
    ensures a + (b + (c + d)) == (a + (b + c)) + d
  {}

  // ---- s_to_cpuset ----

  /** The CPUs whose bits are set in a number. */
  function CpusOf(v: nat): set<nat> {
    set i | 0 <= i < CPU_SETSIZE && Bit(v, i)
  }

  /** Where the digits that end the string begin. */
  function TailStart(s: string): (k: nat)
    ensures k <= |s| && AllHex(s[k..]) && (k > 0 ==> !IsHex(s[k - 1]))
  {
    if s != "" && IsHex(s[|s| - 1]) then
      var k := TailStart(s[..|s| - 1]);
      assert s[k..] == s[..|s| - 1][k..] + [s[|s| - 1]];
      k
    else |s|
  }

  lemma {:induction false} BitsAbove(s: string, i: nat)
    requires AllHex(s) && i >= 4 * |s|
    ensures !Bit(HexValue(s), i)
  {
    if s == "" {
      NoBits(i);
    } else {
      var t := s[..|s| - 1];
      BitOfDigits(HexValue(t), CharToVal(s[|s| - 1]), i);
      BitsAbove(t, i - 4);
    }
  }

  /** A digit in front adds its four bits above those of the rest. */
  lemma {:induction false} BitOfFirst(c: char, s: string, i: nat)
    requires IsHex(c) && AllHex(s)
    ensures AllHex([c] + s)
    ensures Bit(HexValue([c] + s), i) <==>
            if i < 4 * |s| then Bit(HexValue(s), i) else i < 4 * |s| + 4 && Bit(CharToVal(c), i - 4 * |s|)
    decreases |s|
  {
    var n := [c] + s;
    if s == "" {
      assert n[..0] == "";
      BitOfDigits(0, CharToVal(c), i);
      if i >= 4 { NoBits(i - 4); }
    } else {
      var t, d := s[..|s| - 1], CharToVal(s[|s| - 1]);
      assert n[..|n| - 1] == [c] + t;
      BitOfDigits(HexValue([c] + t), d, i);
      BitOfDigits(HexValue(t), d, i);
      if i >= 4 {
        BitOfFirst(c, t, i - 4);
      }
    }
  }

  predicate InDigit(base: nat, v: nat, i: nat) {
    base <= i < base + 4 && Bit(v, i - base)
  }

  function DigitCpus(base: nat, v: nat): set<nat> {
    set i | 0 <= i < CPU_SETSIZE && InDigit(base, v, i)
  }

  lemma FirstDigit(c: char, s: string)
    requires IsHex(c) && AllHex(s)
    ensures AllHex([c] + s)
    ensures CpusOf(HexValue([c] + s)) == CpusOf(HexValue(s)) + DigitCpus(4 * |s|, CharToVal(c))
  {
    hide Bit, HexValue;
    assert AllHex([c] + s);
    forall i: nat ensures i in CpusOf(HexValue([c] + s)) <==>
                          i in CpusOf(HexValue(s)) + DigitCpus(4 * |s|, CharToVal(c)) {
      BitOfFirst(c, s, i);
      if i >= 4 * |s| { BitsAbove(s, i); }
    }
  }

  /** CPU_SET, which leaves a set alone that has no room for the CPU. */
  function CpuSet(i: nat, mask: set<nat>): set<nat> {
    if i < CPU_SETSIZE then mask + {i} else mask
  }

  lemma BitStep(v: nat, i: nat)
    ensures Bit(v, i) <==> if i == 0 then v % 2 == 1 else Bit(v / 2, i - 1)
  {}

  lemma FourBits(v: nat)
    ensures Bit(v, 0) <==> v % 2 == 1
    ensures Bit(v, 1) <==> v / 2 % 2 == 1
    ensures Bit(v, 2) <==> v / 4 % 2 == 1
    ensures Bit(v, 3) <==> v / 8 % 2 == 1
  {
    hide Bit;
    assert v / 4 == v / 2 / 2 && v / 8 == v / 2 / 2 / 2;
    BitStep(v, 0);
    BitStep(v, 1);
    BitStep(v / 2, 0);
    BitStep(v, 2);
    BitStep(v / 2, 1);
    BitStep(v / 2 / 2, 0);
    BitStep(v, 3);
    BitStep(v / 2, 2);
    BitStep(v / 2 / 2, 1);
    BitStep(v / 2 / 2 / 2, 0);
  }

  lemma FourCpus(base: nat, v: nat, i: nat)
    ensures i in DigitCpus(base, v) <==>
            i < CPU_SETSIZE && ((i == base && Bit(v, 0)) || (i == base + 1 && Bit(v, 1))
                                || (i == base + 2 && Bit(v, 2)) || (i == base + 3 && Bit(v, 3)))
  {
    hide Bit;
  }

  /** The four tests of s_to_cpuset. */
  method SetDigit(mask: set<nat>, base: nat, val: nat) returns (r: set<nat>)
    ensures r == mask + DigitCpus(base, val)
  {
    hide Bit;
    FourBits(val);
    r := mask;
    if val % 2 == 1 { r := CpuSet(base, r); }
    if val / 2 % 2 == 1 { r := CpuSet(base + 1, r); }
    if val / 4 % 2 == 1 { r := CpuSet(base + 2, r); }
    if val / 8 % 2 == 1 { r := CpuSet(base + 3, r); }
    forall i: nat ensures i in r <==> i in mask + DigitCpus(base, val) { FourCpus(base, val, i); }
  }

  /** s_to_cpuset: CPU i is set when bit i of the number is; a character that is no digit
      ends it, with the CPUs of the digits behind set. */
  method SToCpuset(mask: set<nat>, s: string) returns (rc: int, r: set<nat>)
    ensures rc == if AllHex(s) then 0 else -1
    ensures r == mask + CpusOf(HexValue(s[TailStart(s)..]))
  {
    hide Bit, HexValue, CpusOf, DigitCpus, AllHex, TailStart;
    r := mask;
    var ptr, base := |s| - 1, 0;
    ghost var tail := "";
    NothingSet();
    while ptr >= 0
      invariant -1 <= ptr < |s| && tail == s[ptr + 1..] && base == 4 * |tail| && AllHex(tail)
      invariant r == mask + CpusOf(HexValue(tail))
    {
      var val := CharToVal(s[ptr]);
      if val == -1 {
        TailIs(s, ptr + 1);
        if AllHex(s) { AllHexAt(s, 0, ptr) by { assert s[0..] == s; } }
        return -1, r;
      }
      FirstDigit(s[ptr], tail);
      r := SetDigit(r, base, val);
      tail := [s[ptr]] + tail;
      ptr := ptr - 1;
      base := base + 4;
    }
    assert tail == s[0..] == s;
    TailIs(s, 0);
    rc := 0;
  }

  lemma NothingSet()
    ensures AllHex("") && CpusOf(HexValue("")) == {}
  {
    forall i: nat ensures !Bit(0, i) { NoBits(i); }
  }

  lemma TailIs(s: string, k: nat)
    requires k <= |s| && AllHex(s[k..]) && (k > 0 ==> !IsHex(s[k - 1]))
    ensures TailStart(s) == k
  {
    hide AllHex;
    var t := TailStart(s);
    if t < k {
      AllHexAt(s, t, k - 1);
    } else if k < t {
      AllHexAt(s, k, t - 1);
    }
  }

  lemma AllHexAt(s: string, k: nat, j: nat)
    requires k <= j < |s| && AllHex(s[k..])
    ensures IsHex(s[j])
  {
    assert s[j] == s[k..][j - k];
  }

  // ---- hex_to_cpuset ----

  function HexEnd(s: string, i: nat): (e: nat)
    requires i <= |s|
    ensures i <= e <= |s| && AllHex(s[i..e]) && (e < |s| ==> !IsHex(s[e]))
    decreases |s| - i
  {
    if i < |s| && IsHex(s[i]) then
      var e := HexEnd(s, i + 1);
      assert s[i..e] == [s[i]] + s[i + 1..e];
      e
    else i
  }

  /** strtoul (s + i, &end, 16): white space, an optional sign, an optional 0x, digits. */
  function Strtoul16(s: string, i: nat): (r: (nat, nat))
    requires i <= |s|
    ensures i <= r.1 <= |s|
  {
    var j := SpacesEnd(s, i);
    var k := if j < |s| && (s[j] == '+' || s[j] == '-') then j + 1 else j;
    var m := if k + 2 < |s| && s[k] == '0' && (s[k + 1] == 'x' || s[k + 1] == 'X') && IsHex(s[k + 2]) then k + 2 else k;
    var e := HexEnd(s, m);
    if e == m then (0, i)
    else
      var v := HexValue(s[m..e]);
      if v > ULONG_MAX then (ULONG_MAX, e)
      else if s[j] == '-' && v > 0 then (ULONG_MAX + 1 - v, e)
      else (v, e)
  }

  /** The CPUs of a chunk whose bits are set in its word. */
  function ChunkCpus(chunk: nat, v: nat): set<nat> {
    set i | 0 <= i < CPU_SETSIZE && InChunk(chunk, v, i)
  }

  predicate InChunk(chunk: nat, v: nat, i: nat) {
    chunk * HEXCHUNKSZ <= i < (chunk + 1) * HEXCHUNKSZ && Bit(v, i - chunk * HEXCHUNKSZ)
  }

  function TokenCount(s: string, p: nat): (n: nat)
    requires p <= |s|
    ensures n > 0
    decreases |s| - p
  {
    var q := NextToken(s, p, ',');
    1 + if q.At? then TokenCount(s, q.i) else 0
  }

  /** The chunk that begins at p: its CPUs, if it is right. A chunk of more than eight
      characters counts from CPU 0, whatever its place. */
  function ReadChunk(s: string, p: nat, chunk: nat): Parsed
    requires p <= |s|
  {
    var q, (v, e) := NextToken(s, p, ','), Strtoul16(s, p);
    if e - p > HEXCHARSIZE then
      if AllHex(s[p..e]) then Returns(0, CpusOf(HexValue(s[p..e]))) else Returns(-1, {})
    else if (if q.At? then q.i - e != 1 else e < |s|) then Returns(-1, {})
    else if (chunk + 1) * HEXCHUNKSZ > CPU_SETSIZE then Returns(-1, {})
    else Returns(0, ChunkCpus(chunk, v % 0x1_0000_0000))
  }

  function ReadChunks(s: string, p: nat, chunk: nat, mask: set<nat>): Parsed
    requires p <= |s|
    decreases |s| - p
  {
    var q, r := NextToken(s, p, ','), ReadChunk(s, p, chunk);
    if r.Diverges? || r.rc != 0 then Returns(-1, {})
    else if q.At? then ReadChunks(s, q.i, if chunk > 0 then chunk - 1 else 0, mask + r.mask)
    else Returns(0, mask + r.mask)
  }

  /** Past a leading 0x. */
  function HexStart(s: string): (k: nat)
    ensures k <= |s|
  {
    if |s| >= 2 && s[0] == '0' && s[1] == 'x' then 2 else 0
  }

  function ParseHex(s: string): Parsed {
    if s == "" then Returns(0, {})
    else
      var k := HexStart(s);
      var n := TokenCount(s, k);
      if n == 1 then
        Returns(if AllHex(s[k..]) then 0 else -1, CpusOf(HexValue(s[k..][TailStart(s[k..])..])))
      else ReadChunks(s, k, n - 1, {})
  }

  /** hex_to_cpuset */
  method HexToCpuset(s: string) returns (rc: int, mask: set<nat>)
    ensures Returns(rc, mask) == ParseHex(s)
  {
    hide Bit, HexValue, CpusOf, Strtoul16, AllHex, TailStart, Find, TokenCount, ReadChunks, ChunkCpus;
    mask := {};
    if |s| == 0 { return 0, mask; }
    var k := HexStart(s);
    var q, nchunks := At(k), 0;
    while q.At?
      invariant q.At? ==> q.i <= |s|
      invariant TokenCount(s, k) == nchunks + if q.At? then TokenCount(s, q.i) else 0
      decreases if q.At? then |s| - q.i + 1 else 0
    {
      TokenCountStep(s, q.i);
      q := NextToken(s, q.i, ',');
      nchunks := nchunks + 1;
    }
    if nchunks == 1 {
      rc, mask := SToCpuset(mask, s[k..]);
      return;
    }
    var chunk: int := nchunks - 1;
    q := At(k);
    while q.At?
      invariant q.At? ==> q.i <= |s| && chunk + 1 == TokenCount(s, q.i)
                          && ReadChunks(s, k, nchunks - 1, {}) == ReadChunks(s, q.i, chunk, mask)
      invariant q.Null? ==> ReadChunks(s, k, nchunks - 1, {}) == Returns(0, mask)
      decreases if q.At? then |s| - q.i + 1 else 0
    {
      var p := q.i;
      TokenCountStep(s, p);
      ReadChunksStep(s, p, chunk, mask);
      q := NextToken(s, p, ',');
      var (v, e) := Strtoul16(s, p);
      if e - p > HEXCHARSIZE {
        var r, more := SToCpuset(mask, s[p..e]);
        if r < 0 { return -1, {}; }
        TailIs(s[p..e], 0);
        assert s[p..e][0..] == s[p..e];
        mask := more;
      } else {
        if (q.At? && q.i - e != 1) || (q.Null? && e < |s|) { return -1, {}; }
        var ok, more := SetChunk(mask, chunk, v % 0x1_0000_0000);
        if !ok { return -1, {}; }
        mask := more;
      }
      chunk := chunk - 1;
    }
    return 0, mask;
  }

  /** The inner loop of hex_to_cpuset. */
  method SetChunk(mask: set<nat>, chunk: nat, val: nat) returns (ok: bool, r: set<nat>)
    ensures ok <==> (chunk + 1) * HEXCHUNKSZ <= CPU_SETSIZE
    ensures ok ==> r == mask + ChunkCpus(chunk, val)
  {
    hide Bit;
    r := mask;
    var bit := HEXCHUNKSZ - 1;
    while bit >= 0
      invariant -1 <= bit < HEXCHUNKSZ && (bit < HEXCHUNKSZ - 1 ==> (chunk + 1) * HEXCHUNKSZ <= CPU_SETSIZE)
      invariant forall i: nat :: i in r <==>
                  i in mask || (i in ChunkCpus(chunk, val) && i - chunk * HEXCHUNKSZ > bit)
    {
      var n := chunk * HEXCHUNKSZ + bit;
      if n >= CPU_SETSIZE { return false, {}; }
      if Bit(val, bit) { r := r + {n}; }
      bit := bit - 1;
    }
    ok := true;
  }

  lemma TokenCountStep(s: string, p: nat)
    requires p <= |s|
    ensures TokenCount(s, p) == 1 + if NextToken(s, p, ',').At? then TokenCount(s, NextToken(s, p, ',').i) else 0
  {}

  lemma ReadChunksStep(s: string, p: nat, chunk: nat, mask: set<nat>)
    requires p <= |s|
    ensures var q, r := NextToken(s, p, ','), ReadChunk(s, p, chunk);
            ReadChunks(s, p, chunk, mask)
            == if r.Diverges? || r.rc != 0 then Returns(-1, {})
               else if q.At? then ReadChunks(s, q.i, if chunk > 0 then chunk - 1 else 0, mask + r.mask)
               else Returns(0, mask + r.mask)
  {
    hide ReadChunk;
  }

  // ---- round trip ----

  lemma {:induction false} FromBitsBound(bits: seq<bool>, k: nat)
    requires |bits| == 4 * k
    ensures FromBits(bits) < Pow16(k)
  {
    if k > 0 {
      FromBitsBound(bits[4..], k - 1);
      assert bits[1..][1..] == bits[2..] && bits[2..][1..] == bits[3..] && bits[3..][1..] == bits[4..];
      FromBitsFour(bits);
    }
  }

  lemma FromBitsFour(bits: seq<bool>)
    requires |bits| >= 4
    ensures FromBits(bits) < 16 + 16 * FromBits(bits[4..])
  {
    hide FromBits;
    assert bits[0..] == bits;
    FromBitsOne(bits, 0);
    FromBitsOne(bits, 1);
    FromBitsOne(bits, 2);
    FromBitsOne(bits, 3);
  }

  lemma WordSize()
    ensures Pow16(8) == 0x1_0000_0000
  {
    assert Pow16(2) == 256;
    assert Pow16(4) == 256 * Pow16(2);
    assert Pow16(6) == 256 * Pow16(4);
    assert Pow16(8) == 256 * Pow16(6);
  }

  /** A chunk is eight digits, which stand for its bits. */
  lemma ChunkTextMeaning(mask: set<nat>, chunk: nat)
    ensures |ChunkText(mask, chunk)| == 8 && AllHex(ChunkText(mask, chunk))
    ensures HexValue(ChunkText(mask, chunk)) < 0x1_0000_0000
    ensures forall i: nat :: Bit(HexValue(ChunkText(mask, chunk)), i) <==> i < 32 && chunk * HEXCHUNKSZ + i in mask
  {
    hide Bit, HexValue, HexDigits, FromBits, Pow16;
    var bits := ChunkBits(mask, chunk);
    FromBitsBound(bits, 8);
    WordSize();
    ValueOfHexDigits(FromBits(bits), 8);
    forall i: nat { BitOfFromBits(bits, i); }
  }

  lemma {:induction false} HexEndAt(s: string, i: nat, t: string, rest: string)
    requires i <= |s| && s[i..] == t + rest && AllHex(t) && (rest != "" ==> !IsHex(rest[0]))
    ensures HexEnd(s, i) == i + |t| && i + |t| <= |s| && s[i..i + |t|] == t
    decreases |t|
  {
    assert s[i..i + |t|] == s[i..][..|t|] == t;
    if t != "" {
      assert s[i] == s[i..][0] == t[0];
      assert s[i + 1..] == s[i..][1..] == t[1..] + rest;
      HexEndAt(s, i + 1, t[1..], rest);
    } else if i < |s| {
      assert s[i] == s[i..][0] == rest[0];
    }
  }

  /** Digits, up to a comma or the end. */
  lemma ReadsWord(s: string, p: nat, t: string, rest: string)
    requires p <= |s| && t != "" && AllHex(t)
    requires s[p..] == t + rest && (rest != "" ==> rest[0] == ',')
    ensures Strtoul16(s, p).1 == p + |t| <= |s| && s[p..p + |t|] == t
    ensures HexValue(t) < 0x1_0000_0000 ==> Strtoul16(s, p).0 == HexValue(t)
    ensures Find(s, ',', p) == p + |t| && s[p + |t|..] == rest
  {
    hide HexValue, HexEnd, Strtoul16, Find;
    var k := p + |t|;
    HexEndAt(s, p, t, rest);
    assert s[p] == s[p..][0] == t[0];
    assert p + 1 < |s| ==> s[p + 1] == s[p..][1] == (if |t| > 1 then t[1] else rest[0]);
    assert s[k..] == s[p..][|t|..] == rest;
    assert forall j :: p <= j < k ==> s[j] == t[j - p];
    assert rest != "" ==> s[k] == s[k..][0];
    StartsAtOnce(s, p, k);
    assert ',' !in s[p..k];
    FindAt(s, ',', p, k);
  }

  /** No space, sign or 0x in front of the digits. */
  lemma StartsAtOnce(s: string, p: nat, k: nat)
    requires p < k <= |s| && HexEnd(s, p) == k && IsHex(s[p])
    requires s[p] == '0' && p + 1 < |s| ==> s[p + 1] != 'x' && s[p + 1] != 'X'
    ensures AllHex(s[p..k]) && Strtoul16(s, p).1 == k
    ensures HexValue(s[p..k]) <= ULONG_MAX ==> Strtoul16(s, p).0 == HexValue(s[p..k])
  {
    hide HexValue, HexEnd;
  }

  /** The CPUs of the chunks from this one down. */
  function Below(mask: set<nat>, chunk: nat): set<nat> {
    set c | c in mask && c < (chunk + 1) * HEXCHUNKSZ
  }

  lemma ChunkReads(s: string, p: nat, mask: set<nat>, chunk: nat)
    requires p <= |s| && s[p..] == ChunksText(mask, chunk) && (chunk + 1) * HEXCHUNKSZ <= CPU_SETSIZE
    ensures ReadChunk(s, p, chunk).Returns? && ReadChunk(s, p, chunk).rc == 0
    ensures forall i: nat :: i in ReadChunk(s, p, chunk).mask <==> i in Below(mask, chunk) && i >= chunk * HEXCHUNKSZ
    ensures NextToken(s, p, ',') == if chunk == 0 then Null else At(p + 9)
    ensures chunk > 0 ==> p + 9 <= |s| && s[p + 9..] == ChunksText(mask, chunk - 1)
  {
    hide Bit, HexValue, Strtoul16, Find, ChunksText, ChunkText, AllHex, ChunkCpus;
    var t := ChunkText(mask, chunk);
    var rest := if chunk == 0 then "" else "," + ChunksText(mask, chunk - 1);
    ChunkTextMeaning(mask, chunk);
    ChunksTextIs(mask, chunk);
    ReadsWord(s, p, t, rest);
    ChunkCpusAre(mask, chunk);
    if chunk > 0 {
      assert s[p + 9..] == s[p + 8..][1..];
    }
  }

  lemma ChunksTextIs(mask: set<nat>, chunk: nat)
    ensures ChunksText(mask, chunk)
         == ChunkText(mask, chunk) + if chunk == 0 then "" else "," + ChunksText(mask, chunk - 1)
  {}

  lemma ChunkCpusAre(mask: set<nat>, chunk: nat)
    requires (chunk + 1) * HEXCHUNKSZ <= CPU_SETSIZE
    ensures AllHex(ChunkText(mask, chunk)) && HexValue(ChunkText(mask, chunk)) < 0x1_0000_0000
    ensures forall i: nat :: i in ChunkCpus(chunk, HexValue(ChunkText(mask, chunk)))
                             <==> i in Below(mask, chunk) && i >= chunk * HEXCHUNKSZ
  {
    hide Bit, HexValue, ChunkText, AllHex;
    ChunkTextMeaning(mask, chunk);
    var v := HexValue(ChunkText(mask, chunk));
    forall i: nat ensures i in ChunkCpus(chunk, v) <==> i in Below(mask, chunk) && i >= chunk * HEXCHUNKSZ {
      if chunk * HEXCHUNKSZ <= i {
        assert chunk * HEXCHUNKSZ + (i - chunk * HEXCHUNKSZ) == i;
        assert Bit(v, i - chunk * HEXCHUNKSZ) <==> i - chunk * HEXCHUNKSZ < 32 && i in mask;
      }
    }
  }

  lemma {:induction false} ChunksRead(s: string, p: nat, mask: set<nat>, chunk: nat, done: set<nat>)
    requires p <= |s| && s[p..] == ChunksText(mask, chunk) && (chunk + 1) * HEXCHUNKSZ <= CPU_SETSIZE
    ensures TokenCount(s, p) == chunk + 1
    ensures ReadChunks(s, p, chunk, done) == Returns(0, done + Below(mask, chunk))
    decreases chunk
  {
    hide ReadChunk, ReadChunks, TokenCount, NextToken, ChunksText;
    ChunkReads(s, p, mask, chunk);
    ReadChunksStep(s, p, chunk, done);
    TokenCountStep(s, p);
    var r := ReadChunk(s, p, chunk);
    if chunk > 0 {
      ChunksRead(s, p + 9, mask, chunk - 1, done + r.mask);
      assert done + r.mask + Below(mask, chunk - 1) == done + Below(mask, chunk);
    } else {
      assert done + r.mask == done + Below(mask, chunk);
    }
  }

  /** What is printed for a set reads back as that set, with "0x" in front or without. */
  lemma RoundTrip(mask: set<nat>, s: string)
    requires forall c :: c in mask ==> c < CPU_SETSIZE
    requires s == ChunksText(mask, LastChunk(mask)) || s == "0x" + ChunksText(mask, LastChunk(mask))
    ensures ParseHex(s) == Returns(0, mask)
  {
    hide Bit, HexValue, ReadChunks, TokenCount, ChunksText, CpusOf, TailStart, AllHex;
    var text, last := ChunksText(mask, LastChunk(mask)), LastChunk(mask);
    PrintedStart(mask, last);
    var k := HexStart(s);
    assert s[k..] == text;
    ChunksRead(s, k, mask, last, {});
    assert {} + Below(mask, last) == mask;
    if last == 0 {
      OneChunkReads(mask);
    }
  }

  lemma PrintedStart(mask: set<nat>, chunk: nat)
    ensures |ChunksText(mask, chunk)| >= 8 && ChunksText(mask, chunk)[1] != 'x'
  {
    ChunkTextMeaning(mask, chunk);
    ChunksTextOne(mask, chunk);
    assert IsHex(ChunkText(mask, chunk)[1]);
  }

  lemma OneChunkReads(mask: set<nat>)
    requires forall c :: c in mask ==> c < HEXCHUNKSZ
    ensures var t := ChunksText(mask, 0);
            AllHex(t) && CpusOf(HexValue(t[TailStart(t)..])) == mask
  {
    hide Bit, HexValue, TailStart;
    var t := ChunksText(mask, 0);
    ChunkTextMeaning(mask, 0);
    assert t[0..] == t;
    TailIs(t, 0);
    ChunksTextIs(mask, 0);
    assert t == ChunkText(mask, 0);
    forall i: nat ensures i in CpusOf(HexValue(t)) <==> i in mask {
      assert 0 * HEXCHUNKSZ + i == i;
    }
  }

  // ---- chunks of more than eight characters ----

  lemma {:induction false} HexBound(s: string)
    requires AllHex(s)
    ensures HexValue(s) < Pow16(|s|)
  {
    if s != "" { HexBound(s[..|s| - 1]); }
  }

  lemma {:induction false} Pow16Grows(a: nat, b: nat)
    requires a <= b
    ensures Pow16(a) <= Pow16(b)
  {
    if a < b { Pow16Grows(a, b - 1); }
  }

  lemma WordBound(t: string)
    requires AllHex(t) && |t| <= 8
    ensures HexValue(t) < 0x1_0000_0000
  {
    hide HexValue, Pow16;
    HexBound(t);
    Pow16Grows(|t|, 8);
    WordSize();
  }

  /** Chunks with commas between them. */
  function Commas(ds: seq<string>): string {
    if ds == [] then ""
    else if |ds| == 1 then ds[0]
    else ds[0] + "," + Commas(ds[1..])
  }

  predicate AllDigital(ds: seq<string>) {
    forall i :: 0 <= i < |ds| ==> Digital(ds[i])
  }

  predicate Digital(d: string) {
    d != "" && AllHex(d)
  }

  /** A chunk of up to eight digits sets the CPUs of its place; a longer one counts from
      CPU 0, whatever its place. */
  function CpusAt(d: string, place: nat): set<nat>
    requires Digital(d)
  {
    if |d| > HEXCHARSIZE then CpusOf(HexValue(d)) else ChunkCpus(place, HexValue(d))
  }

  /** The places that the CPUs have room for; longer chunks need none. */
  predicate Room(d: string, place: nat) {
    |d| > HEXCHARSIZE || (place + 1) * HEXCHUNKSZ <= CPU_SETSIZE
  }

  predicate AllRoom(ds: seq<string>) {
    ds != [] ==> Room(ds[0], |ds| - 1) && AllRoom(ds[1..])
  }

  function CpusOfChunks(ds: seq<string>): set<nat>
    requires AllDigital(ds)
  {
    if ds == [] then {}
    else
      assert Digital(ds[0]);
      CpusAt(ds[0], |ds| - 1) + CpusOfChunks(ds[1..])
  }

  /** What is read of the chunk at p. */
  lemma ChunkReadsAt(s: string, p: nat, d: string, rest: string, chunk: nat)
    requires p <= |s| && Digital(d) && s[p..] == d + rest && (rest != "" ==> rest[0] == ',')
    ensures ReadChunk(s, p, chunk) == if Room(d, chunk) then Returns(0, CpusAt(d, chunk)) else Returns(-1, {})
    ensures NextToken(s, p, ',') == if rest == "" then Null else At(p + |d| + 1)
    ensures rest != "" ==> p + |d| + 1 <= |s| && s[p + |d| + 1..] == rest[1..]
  {
    hide HexValue, Strtoul16, Find, CpusOf, ChunkCpus, AllHex;
    ReadsWord(s, p, d, rest);
    if |d| <= 8 { WordBound(d); }
    var k := p + |d|;
    if rest != "" { assert s[k + 1..] == s[k..][1..]; }
  }

  lemma {:induction false} CommasRead(s: string, p: nat, ds: seq<string>, done: set<nat>)
    requires p <= |s| && ds != [] && AllDigital(ds) && s[p..] == Commas(ds)
    ensures TokenCount(s, p) == |ds|
    ensures ReadChunks(s, p, |ds| - 1, done)
         == if AllRoom(ds) then Returns(0, done + CpusOfChunks(ds)) else Returns(-1, {})
    decreases |ds|
  {
    hide ReadChunk, ReadChunks, TokenCount, NextToken, CpusAt, Room, Digital;
    var d, n := ds[0], |ds| - 1;
    var rest := if |ds| == 1 then "" else "," + Commas(ds[1..]);
    assert Digital(d);
    assert s[p..] == d + rest;
    ChunkReadsAt(s, p, d, rest, n);
    ReadChunksStep(s, p, n, done);
    TokenCountStep(s, p);
    if |ds| > 1 {
      var x := CpusAt(d, n);
      CommasRead(s, p + |d| + 1, ds[1..], done + x);
      assert done + x + CpusOfChunks(ds[1..]) == done + CpusOfChunks(ds);
    } else {
      assert ds[1..] == [] && done + CpusOfChunks(ds) == done + CpusAt(d, n);
    }
  }

  /** A mask of several chunks: each of up to eight digits is read at its place, which the
      CPUs must have room for, and each longer one as if it were the last. */
  lemma LongChunk(ds: seq<string>)
    requires |ds| >= 2 && AllDigital(ds)
    ensures ParseHex(Commas(ds)) == if AllRoom(ds) then Returns(0, CpusOfChunks(ds)) else Returns(-1, {})
  {
    hide ReadChunks, TokenCount, CpusOfChunks, AllRoom;
    var s := Commas(ds);
    assert s[0..] == s;
    NoHexStart(ds);
    CommasRead(s, 0, ds, {});
    assert {} + CpusOfChunks(ds) == CpusOfChunks(ds);
  }

  lemma NoHexStart(ds: seq<string>)
    requires |ds| >= 2 && AllDigital(ds)
    ensures Commas(ds) != "" && HexStart(Commas(ds)) == 0
  {
    var s := Commas(ds);
    assert Digital(ds[0]);
    assert s[0] == ds[0][0] && s[1] == if |ds[0]| > 1 then ds[0][1] else ',';
  }

  lemma {:induction false} BitOfPow16(k: nat, i: nat)
    ensures Bit(Pow16(k), i) <==> i == 4 * k
  {
    hide Bit;
    if k == 0 {
      BitOfOne(i);
    } else {
      BitOfDigits(Pow16(k - 1), 0, i);
      NoBits(i);
      if i >= 4 { BitOfPow16(k - 1, i - 4); }
    }
  }

  lemma BitOfOne(i: nat)
    ensures Bit(1, i) <==> i == 0
  {
    if i > 0 { NoBits(i - 1); }
  }

  lemma {:induction false} ZerosValue(s: string, k: nat)
    requires |s| == k + 1 && s[0] == '1' && forall i :: 1 <= i <= k ==> s[i] == '0'
    ensures AllHex(s) && HexValue(s) == Pow16(k)
  {
    assert AllHex(s);
    if k > 0 { ZerosValue(s[..k], k - 1); } else { assert s[..0] == ""; }
  }

  lemma {:induction false} NoValue(s: string)
    requires forall i :: 0 <= i < |s| ==> s[i] == '0'
    ensures AllHex(s) && HexValue(s) == 0
  {
    if s != "" { NoValue(s[..|s| - 1]); }
  }

  /** A mask whose first digit stands at bit 64, read as CPU 32. */
  lemma LongChunkMisread()
    ensures ParseHex("100000000,00000000") == Returns(0, {32})
  {
    hide Bit, HexValue, ParseHex, Pow16;
    var d, t := "100000000", "00000000";
    var ds := [d, t];
    ZerosValue(d, 8);
    NoValue(t);
    assert Digital(d) && Digital(t);
    assert Commas(ds) == "100000000,00000000" by { assert ds[1..] == [t]; }
    LongChunk(ds);
    TwoChunks(d, t);
    forall i: nat { BitOfPow16(8, i); }
    forall i: nat { NoBits(i); }
    assert CpusOf(HexValue(d)) + ChunkCpus(0, HexValue(t)) == {32};
  }

  lemma TwoChunks(d: string, t: string)
    requires Digital(d) && Digital(t) && |d| > 8 && |t| <= 8
    ensures AllRoom([d, t]) && AllDigital([d, t])
    ensures CpusOfChunks([d, t]) == CpusOf(HexValue(d)) + ChunkCpus(0, HexValue(t))
  {
    hide CpusOf, ChunkCpus, HexValue, Digital;
    var ds := [d, t];
    assert ds[1..] == [t] && [t][1..] == [];
    assert AllDigital(ds) && AllDigital([t]);
    assert AllRoom([]) && AllRoom([t]) && AllRoom(ds);
    assert CpusOfChunks([]) == {};
    assert CpusOfChunks([t]) == CpusAt(t, 0) + {} == CpusAt(t, 0);
    assert CpusOfChunks(ds) == CpusAt(d, 1) + CpusAt(t, 0);
  }
}

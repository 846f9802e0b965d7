/**
 String literals: what the decoder of cJSON.c computes, why its first pass
 always reserves enough room for its second, and what it means.
 */
module JsonString {
  import opened CBytes

  // ----- UTF-8 (RFC 3629, section 3) ---------------------------------------

  /** The UTF-8 encoding of a code point. */
  function Utf8(cp: nat): (r: bytes)
    requires cp <= 0x10FFFF
    ensures |r| == Utf8Length(cp)
  {
    if cp < 0x80 then [cp]
    else if cp < 0x800 then [0xC0 + cp / 0x40, 0x80 + cp % 0x40]
    else if cp < 0x10000 then [0xE0 + cp / 0x1000, 0x80 + cp / 0x40 % 0x40, 0x80 + cp % 0x40]
    else [0xF0 + cp / 0x40000, 0x80 + cp / 0x1000 % 0x40, 0x80 + cp / 0x40 % 0x40, 0x80 + cp % 0x40]
  }

  function Utf8Length(cp: nat): (n: nat)
    requires cp <= 0x10FFFF
    ensures 1 <= n <= 4
  {
    if cp < 0x80 then 1 else if cp < 0x800 then 2 else if cp < 0x10000 then 3 else 4
  }

  /** Reads one encoded character back, as a UTF-8 reader does. */
  function Utf8Read(s: bytes): Option<nat> {
    if |s| == 1 && s[0] < 0x80 then Some(s[0])
    else if |s| == 2 && 0xC0 <= s[0] < 0xE0 && Tail(s[1]) then
      Some(Less(s[0], 0xC0) * 0x40 + Less(s[1], 0x80))
    else if |s| == 3 && 0xE0 <= s[0] < 0xF0 && Tail(s[1]) && Tail(s[2]) then
      Some(Less(s[0], 0xE0) * 0x1000 + Less(s[1], 0x80) * 0x40 + Less(s[2], 0x80))
    else if |s| == 4 && 0xF0 <= s[0] < 0xF8 && Tail(s[1]) && Tail(s[2]) && Tail(s[3]) then
      Some(Less(s[0], 0xF0) * 0x40000 + Less(s[1], 0x80) * 0x1000 + Less(s[2], 0x80) * 0x40 + Less(s[3], 0x80))
    else None
  }

  function Less(b: byte, mark: nat): nat requires mark <= b { b - mark }

  predicate Tail(b: byte) { 0x80 <= b < 0xC0 }

  lemma Utf8RoundTrip(cp: nat)
    requires cp <= 0x10FFFF
    ensures Utf8Read(Utf8(cp)) == Some(cp)
  {
    if 0x800 <= cp < 0x10000 {
      assert cp / 0x1000 == cp / 0x40 / 0x40;
    } else if 0x10000 <= cp {
      assert cp / 0x1000 == cp / 0x40 / 0x40;
      assert cp / 0x40000 == cp / 0x40 / 0x40 / 0x40;
    }
  }

  // ----- four hexadecimal digits -------------------------------------------

  predicate IsHex(b: byte) {
    '0' as int <= b <= '9' as int || 'A' as int <= b <= 'F' as int || 'a' as int <= b <= 'f' as int
  }

  function HexValue(b: byte): (v: nat)
    requires IsHex(b)
    ensures v < 16
  {
    if b <= '9' as int then b - '0' as int
    else if b <= 'F' as int then 10 + b - 'A' as int
    else 10 + b - 'a' as int
  }

  /** The value of four hexadecimal digits; 0 when one of them is not a digit. */
  function Hex4(s: bytes): (h: nat)
    requires |s| == 4
    ensures h < 0x10000
    ensures h != 0 ==> forall i | 0 <= i < 4 :: IsHex(s[i])
  {
    if IsHex(s[0]) && IsHex(s[1]) && IsHex(s[2]) && IsHex(s[3]) then
      ((HexValue(s[0]) * 16 + HexValue(s[1])) * 16 + HexValue(s[2])) * 16 + HexValue(s[3])
    else 0
  }

  /** A hexadecimal digit, as a capital or a small letter from ten on. */
  function HexDigit(n: nat, capital: bool): (b: byte)
    requires n < 16
    ensures IsHex(b) && b != NUL
  {
    if n < 10 then '0' as int + n else if capital then 'A' as int + (n - 10) else 'a' as int + (n - 10)
  }

  /** The four digits of a 16-bit unit, each in either case. */
  function UnitText(u: nat, capitals: seq<bool>): (h: bytes)
    requires u < 0x10000 && |capitals| == 4
    ensures |h| == 4 && NulFree(h) && forall i | 0 <= i < 4 :: IsHex(h[i])
  {
    [HexDigit(u / 0x1000, capitals[0]), HexDigit(u / 0x100 % 0x10, capitals[1]),
     HexDigit(u / 0x10 % 0x10, capitals[2]), HexDigit(u % 0x10, capitals[3])]
  }

  lemma HexDigitRoundTrip(n: nat, capital: bool)
    requires n < 16
    ensures HexValue(HexDigit(n, capital)) == n
  {
  }

  /** Four digits read back as their unit. */
  lemma UnitRoundTrip(u: nat, capitals: seq<bool>)
    requires u < 0x10000 && |capitals| == 4
    ensures Hex4(UnitText(u, capitals)) == u
  {
    hide HexDigit, HexValue;
    HexDigitRoundTrip(u / 0x1000, capitals[0]);
    HexDigitRoundTrip(u / 0x100 % 0x10, capitals[1]);
    HexDigitRoundTrip(u / 0x10 % 0x10, capitals[2]);
    HexDigitRoundTrip(u % 0x10, capitals[3]);
    NibblesOf(u);
  }

  lemma NibblesOf(u: nat)
    ensures ((u / 0x1000 * 16 + u / 0x100 % 0x10) * 16 + u / 0x10 % 0x10) * 16 + u % 0x10 == u
  {
    assert u / 0x1000 == u / 0x100 / 0x10;
    assert u / 0x100 == u / 0x10 / 0x10;
  }

  predicate HighSurrogate(u: nat) { 0xD800 <= u <= 0xDBFF }
  predicate LowSurrogate(u: nat) { 0xDC00 <= u <= 0xDFFF }

  /** RFC 2781, section 2.1: the surrogate pair of a code point. */
  function HighUnit(cp: nat): (u: nat)
    requires 0x10000 <= cp <= 0x10FFFF
    ensures HighSurrogate(u)
  {
    0xD800 + (cp - 0x10000) / 0x400
  }

  function LowUnit(cp: nat): (u: nat)
    requires 0x10000 <= cp <= 0x10FFFF
    ensures LowSurrogate(u)
  {
    0xDC00 + (cp - 0x10000) % 0x400
  }

  /** RFC 2781, section 2.2: the code point of a surrogate pair. */
  function Combine(high: nat, low: nat): (cp: nat)
    requires HighSurrogate(high) && LowSurrogate(low)
    ensures 0x10000 <= cp <= 0x10FFFF
  {
    0x10000 + (high - 0xD800) * 0x400 + (low - 0xDC00)
  }

  /** Every code point behind the first plane has exactly one pair: the one that is combined to it. */
  lemma SurrogateRoundTrip(cp: nat, high: nat, low: nat)
    requires 0x10000 <= cp <= 0x10FFFF && HighSurrogate(high) && LowSurrogate(low)
    ensures Combine(high, low) == cp <==> high == HighUnit(cp) && low == LowUnit(cp)
  {
    if Combine(high, low) == cp {
      assert cp - 0x10000 == (high - 0xD800) * 0x400 + (low - 0xDC00);
      assert (cp - 0x10000) / 0x400 == high - 0xD800;
    }
  }

  // ----- one \u escape ------------------------------------------------------

  datatype Utf16 = BadUtf16 | GoodUtf16(codepoint: nat, consumed: nat)

  /** What `utf16_literal_to_utf8` makes of the text at `p`; `end` is the closing quote. */
  function Utf16Literal(c: bytes, p: nat, end: nat): (r: Utf16)
    requires p <= end <= |c|
    ensures r.GoodUtf16? ==> r.codepoint <= 0x10FFFF && (r.consumed == 6 || r.consumed == 12)
    ensures r.GoodUtf16? ==> p + r.consumed <= end
  {
    if end - p < 6 then BadUtf16
    else
      var first := Hex4(c[p + 2..p + 6]);
      if LowSurrogate(first) then BadUtf16
      else if HighSurrogate(first) then
        if end - (p + 6) < 6 || c[p + 6] != BACKSLASH || c[p + 7] != 'u' as int then BadUtf16
        else
          var second := Hex4(c[p + 8..p + 12]);
          if !LowSurrogate(second) then BadUtf16
          else GoodUtf16(Combine(first, second), 12)
      else GoodUtf16(first, 6)
  }

  // ----- first pass: find the closing quote ---------------------------------

  datatype Scan = NoQuote | Closed(end: nat, skipped: nat)

  /** The first pass from position `i`: where the literal closes and how many escapes it stepped over. */
  function FirstPass(c: bytes, i: nat): (r: Scan)
    ensures r.Closed? ==> i <= r.end < |c| && c[r.end] == QUOTE && i + 2 * r.skipped <= r.end
    decreases |c| - i
  {
    if i >= |c| then NoQuote
    else if c[i] == QUOTE then Closed(i, 0)
    else if c[i] == BACKSLASH then
      if i + 1 >= |c| then NoQuote
      else match FirstPass(c, i + 2)
        case NoQuote => NoQuote
        case Closed(end, skipped) => Closed(end, skipped + 1)
    else FirstPass(c, i + 1)
  }

  // ----- second pass: decode ------------------------------------------------

  /** The byte a two-character escape stands for. */
  function ShortEscape(e: byte): Option<byte> {
    if e == 'b' as int then Some(8)
    else if e == 'f' as int then Some(12)
    else if e == 'n' as int then Some(NEWLINE)
    else if e == 'r' as int then Some(13)
    else if e == 't' as int then Some(TAB)
    else if e == QUOTE || e == BACKSLASH || e == '/' as int then Some(e)
    else None
  }

  /** Result of the second pass: whether it reached the end, the position it stopped at, the bytes written. */
  datatype Decoded = Decoded(ok: bool, at: nat, out: bytes)

  function Prepend(s: bytes, d: Decoded): Decoded { d.(out := s + d.out) }

  /** The second pass from `p`; `end` is the closing quote found by the first pass. */
  function SecondPass(c: bytes, p: nat, end: nat): (r: Decoded)
    requires end < |c|
    decreases |c| - p
  {
    if p >= end then Decoded(true, p, [])
    else if c[p] != BACKSLASH then Prepend([c[p]], SecondPass(c, p + 1, end))
    else if ShortEscape(c[p + 1]).Some? then
      Prepend([ShortEscape(c[p + 1]).value], SecondPass(c, p + 2, end))
    else if c[p + 1] == 'u' as int && Utf16Literal(c, p, end).GoodUtf16? then
      var u := Utf16Literal(c, p, end);
      Prepend(Utf8(u.codepoint), SecondPass(c, p + u.consumed, end))
    else Decoded(false, p, [])
  }

  // ----- the bound ------------------------------------------------------------

  /** Number of characters and escapes the first pass counted from `i` on. */
  function Tokens(c: bytes, i: nat): (n: nat)
    requires FirstPass(c, i).Closed?
  {
    FirstPass(c, i).end - i - FirstPass(c, i).skipped
  }

  /** The first pass stops at `i` in between two tokens. */
  predicate InStep(c: bytes, i: nat, end: nat) {
    FirstPass(c, i).Closed? && FirstPass(c, i).end == end
  }

  /** One token of the first pass. */
  lemma OneToken(c: bytes, i: nat, end: nat)
    requires InStep(c, i, end)
    ensures i <= end < |c|
    ensures i < end ==> c[i] != QUOTE
    ensures i < end && c[i] == BACKSLASH ==>
      i + 2 <= end && InStep(c, i + 2, end) && Tokens(c, i) == Tokens(c, i + 2) + 1
    ensures i < end && c[i] != BACKSLASH ==> InStep(c, i + 1, end) && Tokens(c, i) == Tokens(c, i + 1) + 1
  {
  }

  /**
   Skipping `n` bytes leaves the first pass between tokens there or one byte
   later, having passed at least n/2 tokens.
   */
  lemma {:induction false} SkipBytes(c: bytes, i: nat, n: nat, end: nat)
    requires InStep(c, i, end) && i + n <= end
    ensures || (InStep(c, i + n, end) && Tokens(c, i) >= Tokens(c, i + n) + n / 2)
            || (InStep(c, i + n + 1, end) && i + n + 1 <= end && Tokens(c, i) >= Tokens(c, i + n + 1) + (n + 1) / 2)
    decreases n
  {
    hide FirstPass, Tokens;
    if n > 0 {
      OneToken(c, i, end);
      if c[i] != BACKSLASH {
        SkipBytes(c, i + 1, n - 1, end);
      } else if n >= 2 {
        SkipBytes(c, i + 2, n - 2, end);
      }
    }
  }

  /** The first pass steps through bytes that are neither quotes nor backslashes one at a time. */
  lemma {:induction false} SkipPlain(c: bytes, i: nat, n: nat, end: nat)
    requires InStep(c, i, end) && i + n <= end
    requires forall k | i <= k < i + n :: c[k] != BACKSLASH && c[k] != QUOTE
    ensures InStep(c, i + n, end) && Tokens(c, i) == Tokens(c, i + n) + n
    decreases n
  {
    hide FirstPass, Tokens;
    if n > 0 {
      OneToken(c, i, end);
      SkipPlain(c, i + 1, n - 1, end);
    }
  }

  /**
   Room for the second pass.  In step with the first pass it writes at most
   one byte per token that is left; one byte out of step, at most one more.
   */
  lemma {:induction false} SecondPassFits(c: bytes, p: nat, end: nat)
    requires end < |c|
    ensures InStep(c, p, end) ==> |SecondPass(c, p, end).out| <= Tokens(c, p)
    ensures InStep(c, p + 1, end) ==> |SecondPass(c, p, end).out| <= Tokens(c, p + 1) + 1
    decreases |c| - p
  {
    if p < end {
      if c[p] != BACKSLASH {
        SecondPassFits(c, p + 1, end);
      } else if ShortEscape(c[p + 1]).Some? {
        SecondPassFits(c, p + 2, end);
      } else if c[p + 1] == 'u' as int && Utf16Literal(c, p, end).GoodUtf16? {
        UnitFits(c, p, end);
      }
    }
  }

  lemma {:induction false} UnitFits(c: bytes, p: nat, end: nat)
    requires p < end < |c| && c[p] == BACKSLASH && c[p + 1] == 'u' as int
    requires Utf16Literal(c, p, end).GoodUtf16?
    ensures InStep(c, p, end) ==> |SecondPass(c, p, end).out| <= Tokens(c, p)
    ensures InStep(c, p + 1, end) ==> |SecondPass(c, p, end).out| <= Tokens(c, p + 1) + 1
    decreases |c| - p, 0
  {
    var u := Utf16Literal(c, p, end);
    var q := p + u.consumed;
    SecondPassFits(c, q, end);
    assert |SecondPass(c, p, end).out| == |Utf8(u.codepoint)| + |SecondPass(c, q, end).out|;
    if InStep(c, p + 2, end) {
      UnitTokens(c, p, end);
    }
  }

  /**
   The tokens a \u escape of the second pass covers outnumber the bytes it
   writes, even when its digits are not digits.
   */
  lemma {:induction false} UnitTokens(c: bytes, p: nat, end: nat)
    requires p < end < |c| && InStep(c, p + 2, end)
    requires Utf16Literal(c, p, end).GoodUtf16?
    ensures var u := Utf16Literal(c, p, end);
            var q := p + u.consumed;
            || (InStep(c, q, end) && Tokens(c, p + 2) + 1 >= Utf8Length(u.codepoint) + Tokens(c, q))
            || (InStep(c, q + 1, end) && Tokens(c, p + 2) >= Utf8Length(u.codepoint) + Tokens(c, q + 1))
  {
    hide FirstPass, Tokens, Hex4;
    var u := Utf16Literal(c, p, end);
    var h := c[p + 2..p + 6];
    if Hex4(h) == 0 {
      SkipBytes(c, p + 2, 4, end);
    } else {
      DigitsArePlain(c, p + 2);
      SkipPlain(c, p + 2, 4, end);
      if u.consumed == 12 {
        DigitsArePlain(c, p + 8);
        OneToken(c, p + 6, end);
        SkipPlain(c, p + 8, 4, end);
      }
    }
  }

  lemma DigitsArePlain(c: bytes, i: nat)
    requires i + 4 <= |c| && Hex4(c[i..i + 4]) != 0
    ensures forall k | i <= k < i + 4 :: IsHex(c[k]) && c[k] != BACKSLASH && c[k] != QUOTE
  {
    assert forall k | i <= k < i + 4 :: c[k] == c[i..i + 4][k - i];
  }

  /** The number of bytes `parse_string` asks the allocator for; `start` is the opening quote. */
  function AllocationLength(c: bytes, start: nat): nat
    requires FirstPass(c, start + 1).Closed?
  {
    var scan := FirstPass(c, start + 1);
    scan.end - start - scan.skipped + 1
  }

  /** Whatever the input, the decoded bytes and the final NUL fit in the block reserved for them. */
  lemma TwoPassBound(c: bytes, start: nat)
    requires FirstPass(c, start + 1).Closed?
    ensures var end := FirstPass(c, start + 1).end;
            |SecondPass(c, start + 1, end).out| + 1 <= AllocationLength(c, start) - 1
    ensures var end := FirstPass(c, start + 1).end;
            var d := SecondPass(c, start + 1, end);
            if d.ok then end <= d.at <= end + 1 else start + 1 <= d.at < end
  {
    var end := FirstPass(c, start + 1).end;
    SecondPassFits(c, start + 1, end);
    SecondPassStops(c, start + 1, end);
  }

  /** `n` bytes of `c` from `p` on are those of `d` from `q` on. */
  predicate SameBytes(c: bytes, p: nat, d: bytes, q: nat, n: nat) {
    p + n <= |c| && q + n <= |d| && c[p..p + n] == d[q..q + n]
  }

  lemma SameBytesAt(c: bytes, p: nat, d: bytes, q: nat, n: nat, i: nat)
    requires SameBytes(c, p, d, q, n) && i <= n
    ensures i < n ==> c[p + i] == d[q + i]
    ensures SameBytes(c, p + i, d, q + i, n - i)
    ensures c[p..p + i] == d[q..q + i]
  {
    var s, t := c[p..p + n], d[q..q + n];
    assert i < n ==> c[p + i] == s[i] && d[q + i] == t[i];
    Subslices(c, p, n, i);
    Subslices(d, q, n, i);
  }

  lemma Subslices(c: bytes, p: nat, n: nat, i: nat)
    requires p + n <= |c| && i <= n
    ensures c[p..p + i] == c[p..p + n][..i] && c[p + i..p + n] == c[p..p + n][i..]
  {
    var a, b := c[p..p + i], c[p..p + n][..i];
    assert |a| == |b| && forall k | 0 <= k < |a| :: a[k] == b[k];
  }

  /**
   The decoder reads nothing in front of the opening and nothing behind the
   closing quote: what it does depends on the bytes between them only, not on
   the buffer and not on the place.
   */
  lemma ReadsToQuote(c: bytes, p: nat, d: bytes, q: nat)
    requires FirstPass(c, p).Closed? && SameBytes(c, p, d, q, FirstPass(c, p).end + 1 - p)
    ensures var end := q + (FirstPass(c, p).end - p);
            && FirstPass(d, q) == Closed(end, FirstPass(c, p).skipped)
            && SecondPass(d, q, end).ok == SecondPass(c, p, FirstPass(c, p).end).ok
            && SecondPass(d, q, end).out == SecondPass(c, p, FirstPass(c, p).end).out
            && SecondPass(d, q, end).at - q == SecondPass(c, p, FirstPass(c, p).end).at - p
  {
    hide FirstPass, SecondPass, SameBytes;
    SameBytesBounds(c, p, d, q, FirstPass(c, p).end + 1 - p);
    FirstPassLocal(c, p, d, q);
    SecondPassLocal(c, p, FirstPass(c, p).end, d, q, q + (FirstPass(c, p).end - p));
  }

  lemma {:induction false} FirstPassLocal(c: bytes, p: nat, d: bytes, q: nat)
    requires FirstPass(c, p).Closed? && SameBytes(c, p, d, q, FirstPass(c, p).end + 1 - p)
    ensures FirstPass(d, q) == Closed(q + (FirstPass(c, p).end - p), FirstPass(c, p).skipped)
    decreases |c| - p
  {
    hide SameBytes;
    var n := FirstPass(c, p).end + 1 - p;
    SameBytesBounds(c, p, d, q, n);
    SameBytesAt(c, p, d, q, n, 0);
    if c[p] == BACKSLASH {
      SameBytesAt(c, p, d, q, n, 2);
      FirstPassLocal(c, p + 2, d, q + 2);
    } else if c[p] != QUOTE {
      SameBytesAt(c, p, d, q, n, 1);
      FirstPassLocal(c, p + 1, d, q + 1);
    }
  }

  lemma SameBytesBounds(c: bytes, p: nat, d: bytes, q: nat, n: nat)
    requires SameBytes(c, p, d, q, n)
    ensures p + n <= |c| && q + n <= |d|
  {
  }

  lemma {:induction false} SecondPassLocal(c: bytes, p: nat, end: nat, d: bytes, q: nat, end': nat)
    requires end < |c| && end' < |d| && end - p == end' - q
    requires p <= end ==> SameBytes(c, p, d, q, end + 1 - p)
    ensures var r, r' := SecondPass(c, p, end), SecondPass(d, q, end');
            r'.ok == r.ok && r'.out == r.out && r'.at - q == r.at - p
    decreases |c| - p
  {
    hide Utf16Literal, Utf8, ShortEscape, SameBytes;
    if p < end {
      var n := end + 1 - p;
      SameBytesAt(c, p, d, q, n, 0);
      SameBytesAt(c, p, d, q, n, 1);
      UnitLocal(c, p, end, d, q, end');
      if c[p] != BACKSLASH {
        SecondPassLocal(c, p + 1, end, d, q + 1, end');
      } else if ShortEscape(c[p + 1]).Some? {
        if p + 2 <= end {
          SameBytesAt(c, p, d, q, n, 2);
        }
        SecondPassLocal(c, p + 2, end, d, q + 2, end');
      } else if c[p + 1] == 'u' as int && Utf16Literal(c, p, end).GoodUtf16? {
        var k := Utf16Literal(c, p, end).consumed;
        SameBytesAt(c, p, d, q, n, k);
        SecondPassLocal(c, p + k, end, d, q + k, end');
      }
    }
  }

  lemma UnitLocal(c: bytes, p: nat, end: nat, d: bytes, q: nat, end': nat)
    requires p <= end < |c| && end' < |d| && end - p == end' - q && SameBytes(c, p, d, q, end + 1 - p)
    ensures Utf16Literal(d, q, end') == Utf16Literal(c, p, end)
  {
    hide SameBytes, Hex4;
    var n := end + 1 - p;
    if p + 6 <= end {
      SameBytesAt(c, p, d, q, n, 2);
      SameBytesAt(c, p + 2, d, q + 2, n - 2, 4);
    }
    if p + 12 <= end {
      SameBytesAt(c, p, d, q, n, 6);
      SameBytesAt(c, p, d, q, n, 7);
      SameBytesAt(c, p, d, q, n, 8);
      SameBytesAt(c, p + 8, d, q + 8, n - 8, 4);
    }
  }

  /** The second pass stops at the closing quote, at most one byte past it, or at a bad escape before it. */
  lemma {:induction false} SecondPassStops(c: bytes, p: nat, end: nat)
    requires end < |c| && p <= end + 1
    ensures var d := SecondPass(c, p, end);
            if d.ok then end <= d.at <= end + 1 else p <= d.at < end
    decreases |c| - p
  {
    if p < end {
      if c[p] != BACKSLASH {
        SecondPassStops(c, p + 1, end);
      } else if ShortEscape(c[p + 1]).Some? {
        SecondPassStops(c, p + 2, end);
      } else if c[p + 1] == 'u' as int && Utf16Literal(c, p, end).GoodUtf16? {
        SecondPassStops(c, p + Utf16Literal(c, p, end).consumed, end);
      }
    }
  }
}

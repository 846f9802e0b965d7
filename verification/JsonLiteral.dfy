/**
 The meaning of string literals (RFC 8259, section 7) as a syntax of its own,
 and the two facts that tie it to the decoder and to the printer: decoding a
 well-formed literal gives its meaning, and every printed string is one.
 */
module JsonLiteral {
  import opened CBytes
  import opened JsonString

  /**
   One character of a literal: itself, a two-character escape, the escape of a
   16-bit unit, or those of the surrogate pair of a code point; hexadecimal
   digits in either case.
   */
  datatype LitChar =
    | Plain(b: byte)
    | Short(e: byte)
    | Unit(u: nat, capitals: seq<bool>)
    | Pair(cp: nat, high: seq<bool>, low: seq<bool>)

  /** RFC 8259, section 7: the letters of the two-character escapes and what they stand for. */
  const SHORT_ESCAPES: map<byte, byte> :=
    map[0x22 := 0x22, 0x5C := 0x5C, 0x2F := 0x2F, 0x62 := 0x08, 0x66 := 0x0C, 0x6E := 0x0A, 0x72 := 0x0D, 0x74 := 0x09]

  predicate WellFormed(l: LitChar) {
    match l
    case Plain(b) => b != QUOTE && b != BACKSLASH
    case Short(e) => e in SHORT_ESCAPES
    case Unit(u, capitals) => u < 0x10000 && |capitals| == 4 && !HighSurrogate(u) && !LowSurrogate(u)
    case Pair(cp, high, low) => 0x10000 <= cp <= 0x10FFFF && |high| == 4 == |low|
  }

  const U: bytes := [BACKSLASH, 'u' as int]

  function CharText(l: LitChar): bytes
    requires WellFormed(l)
  {
    match l
    case Plain(b) => [b]
    case Short(e) => [BACKSLASH, e]
    case Unit(u, capitals) => U + UnitText(u, capitals)
    case Pair(cp, high, low) => U + UnitText(HighUnit(cp), high) + (U + UnitText(LowUnit(cp), low))
  }

  /** The bytes a character of a literal stands for. */
  function CharMeaning(l: LitChar): bytes
    requires WellFormed(l)
  {
    match l
    case Plain(b) => [b]
    case Short(e) => [SHORT_ESCAPES[e]]
    case Unit(u, _) => Utf8(u)
    case Pair(cp, _, _) => Utf8(cp)
  }

  /** The decoder knows exactly the two-character escapes of the standard. */
  lemma ShortEscapes(e: byte)
    ensures ShortEscape(e) == if e in SHORT_ESCAPES then Some(SHORT_ESCAPES[e]) else None
  {
  }

  predicate AllWellFormed(ls: seq<LitChar>) { forall i | 0 <= i < |ls| :: WellFormed(ls[i]) }

  function LiteralText(ls: seq<LitChar>): bytes
    requires AllWellFormed(ls)
  {
    if ls == [] then [] else CharText(ls[0]) + LiteralText(ls[1..])
  }

  function Meaning(ls: seq<LitChar>): bytes
    requires AllWellFormed(ls)
  {
    if ls == [] then [] else CharMeaning(ls[0]) + Meaning(ls[1..])
  }

  // ----- parse_string ---------------------------------------------------------

  datatype StringResult = StringErr(offset: nat) | StringOk(value: cstring, offset: nat)

  /** What `parse_string` does at offset `off`: the C string it stores, or a failure, and the new offset. */
  function ParseStringAt(c: bytes, off: nat): (r: StringResult)
    requires off < |c|
    ensures r.offset <= |c| && off < r.offset
    ensures r.StringOk? ==> c[r.offset - 1] == QUOTE
  {
    if c[off] != QUOTE then StringErr(off + 1)
    else match FirstPass(c, off + 1)
      case NoQuote => StringErr(off + 1)
      case Closed(end, _) =>
        TwoPassBound(c, off);
        var d := SecondPass(c, off + 1, end);
        if d.ok then StringOk(CString(d.out), end + 1) else StringErr(d.at)
  }

  // ----- decoding a well-formed literal gives its meaning ------------------------

  lemma {:induction false} DecodeLiteral(c: bytes, p: nat, ls: seq<LitChar>, end: nat)
    requires AllWellFormed(ls)
    requires Has(c, p, LiteralText(ls)) && end == p + |LiteralText(ls)| < |c| && c[end] == QUOTE
    ensures InStep(c, p, end)
    ensures SecondPass(c, p, end) == Decoded(true, end, Meaning(ls))
    decreases |ls|
  {
    hide Has, FirstPass, SecondPass, CharText, CharMeaning, LiteralText, Meaning, WellFormed;
    LiteralUnfold(ls);
    if ls == [] {
      AtQuote(c, end);
    } else {
      HasConcat(c, p, CharText(ls[0]), LiteralText(ls[1..]));
      DecodeLiteral(c, p + |CharText(ls[0])|, ls[1..], end);
      DecodeChar(c, p, ls[0], end);
    }
  }

  lemma LiteralUnfold(ls: seq<LitChar>)
    requires AllWellFormed(ls)
    ensures ls == [] ==> LiteralText(ls) == [] && Meaning(ls) == []
    ensures ls != [] ==> LiteralText(ls) == CharText(ls[0]) + LiteralText(ls[1..])
    ensures ls != [] ==> Meaning(ls) == CharMeaning(ls[0]) + Meaning(ls[1..])
  {
    hide CharText, CharMeaning;
  }

  lemma AtQuote(c: bytes, end: nat)
    requires end < |c| && c[end] == QUOTE
    ensures InStep(c, end, end) && SecondPass(c, end, end) == Decoded(true, end, [])
  {
  }

  lemma DecodeChar(c: bytes, p: nat, l: LitChar, end: nat)
    requires WellFormed(l) && Has(c, p, CharText(l))
    requires p + |CharText(l)| <= end < |c| && InStep(c, p + |CharText(l)|, end)
    ensures InStep(c, p, end)
    ensures SecondPass(c, p, end) == Prepend(CharMeaning(l), SecondPass(c, p + |CharText(l)|, end))
  {
    hide Has, UnitText, Hex4, Utf8, HighUnit, LowUnit, Combine, ShortEscape;
    var w := CharText(l);
    match l {
      case Plain(b) => HasByte(c, p, w, 0);
      case Short(e) => HasByte(c, p, w, 0); HasByte(c, p, w, 1); ShortEscapes(e);
      case Unit(u, capitals) =>
        UnitRoundTrip(u, capitals);
        DecodeUnit(c, p, UnitText(u, capitals), end);
      case Pair(cp, high, low) =>
        UnitRoundTrip(HighUnit(cp), high);
        UnitRoundTrip(LowUnit(cp), low);
        SurrogateRoundTrip(cp, HighUnit(cp), LowUnit(cp));
        DecodePair(c, p, UnitText(HighUnit(cp), high), UnitText(LowUnit(cp), low), end);
    }
  }

  predicate FourDigits(h: bytes) { |h| == 4 && forall i | 0 <= i < 4 :: IsHex(h[i]) }

  lemma UnitBytes(c: bytes, p: nat, h: bytes)
    requires FourDigits(h) && Has(c, p, U + h)
    ensures p + 6 <= |c| && c[p] == BACKSLASH && c[p + 1] == 'u' as int && c[p + 2..p + 6] == h
  {
    HasByte(c, p, U + h, 0);
    HasByte(c, p, U + h, 1);
    HasConcat(c, p, U, h);
  }

  lemma DigitsSkipped(c: bytes, p: nat, h: bytes)
    requires FourDigits(h) && Has(c, p, U + h)
    ensures FirstPass(c, p + 6).Closed? ==>
              FirstPass(c, p).Closed? && FirstPass(c, p).end == FirstPass(c, p + 6).end
  {
    UnitBytes(c, p, h);
    assert forall k | p + 2 <= k < p + 6 :: c[k] == h[k - (p + 2)];
    assert FirstPass(c, p + 5) == FirstPass(c, p + 6);
    assert FirstPass(c, p + 4) == FirstPass(c, p + 5);
    assert FirstPass(c, p + 3) == FirstPass(c, p + 4);
    assert FirstPass(c, p + 2) == FirstPass(c, p + 3);
  }

  lemma DecodeUnit(c: bytes, p: nat, h: bytes, end: nat)
    requires FourDigits(h) && !HighSurrogate(Hex4(h)) && !LowSurrogate(Hex4(h)) && Has(c, p, U + h)
    requires p + 6 <= end < |c| && InStep(c, p + 6, end)
    ensures InStep(c, p, end)
    ensures SecondPass(c, p, end) == Prepend(Utf8(Hex4(h)), SecondPass(c, p + 6, end))
  {
    UnitBytes(c, p, h);
    DigitsSkipped(c, p, h);
  }

  lemma DecodePair(c: bytes, p: nat, high: bytes, low: bytes, end: nat)
    requires FourDigits(high) && FourDigits(low) && HighSurrogate(Hex4(high)) && LowSurrogate(Hex4(low))
    requires Has(c, p, U + high + (U + low))
    requires p + 12 <= end < |c| && InStep(c, p + 12, end)
    ensures InStep(c, p, end)
    ensures SecondPass(c, p, end) ==
            Prepend(Utf8(Combine(Hex4(high), Hex4(low))), SecondPass(c, p + 12, end))
  {
    HasConcat(c, p, U + high, U + low);
    UnitBytes(c, p, high);
    UnitBytes(c, p + 6, low);
    DigitsSkipped(c, p + 6, low);
    DigitsSkipped(c, p, high);
  }

  lemma Enclosed(c: bytes, off: nat, t: bytes)
    requires Has(c, off, [QUOTE] + t + [QUOTE])
    ensures off + |t| + 2 <= |c| && c[off] == QUOTE && Has(c, off + 1, t) && c[off + 1 + |t|] == QUOTE
  {
    hide Has;
    HasConcat(c, off, [QUOTE] + t, [QUOTE]);
    HasConcat(c, off, [QUOTE], t);
    HasByte(c, off, [QUOTE], 0);
    HasByte(c, off + 1 + |t|, [QUOTE], 0);
  }

  lemma DecodedString(c: bytes, off: nat, end: nat, out: bytes)
    requires off < end < |c| && c[off] == QUOTE && InStep(c, off + 1, end)
    requires SecondPass(c, off + 1, end) == Decoded(true, end, out)
    ensures ParseStringAt(c, off) == StringOk(CString(out), end + 1)
  {
  }

  /** `parse_string` applied to a well-formed literal stores its meaning and stops behind the closing quote. */
  lemma ParseLiteral(c: bytes, off: nat, ls: seq<LitChar>)
    requires AllWellFormed(ls)
    requires Has(c, off, [QUOTE] + LiteralText(ls) + [QUOTE])
    ensures ParseStringAt(c, off) == StringOk(CString(Meaning(ls)), off + |LiteralText(ls)| + 2)
  {
    hide ParseStringAt, Has, LiteralText, Meaning;
    var t := LiteralText(ls);
    Enclosed(c, off, t);
    var end := off + 1 + |t|;
    assert InStep(c, off + 1, end) && SecondPass(c, off + 1, end) == Decoded(true, end, Meaning(ls)) by {
      DecodeLiteral(c, off + 1, ls, end);
    }
    DecodedString(c, off, end, Meaning(ls));
  }

  /** `text` between quotes stands for `value`. */
  predicate StringToken(text: bytes, value: cstring) {
    ParseStringAt([QUOTE] + text + [QUOTE], 0) == StringOk(value, |text| + 2)
  }

  lemma LiteralToken(ls: seq<LitChar>)
    requires AllWellFormed(ls)
    ensures StringToken(LiteralText(ls), CString(Meaning(ls)))
  {
    hide ParseStringAt, LiteralText, Meaning;
    var c := [QUOTE] + LiteralText(ls) + [QUOTE];
    assert c[0..0 + |c|] == c;
    ParseLiteral(c, 0, ls);
  }

  /** Wherever a string stands, it reads the same. */
  lemma StringMoved(c: bytes, off: nat, d: bytes, off': nat)
    requires off < |c| && ParseStringAt(c, off).StringOk?
    requires SameBytes(c, off, d, off', ParseStringAt(c, off).offset - off) && off' < |d|
    ensures ParseStringAt(d, off')
         == StringOk(ParseStringAt(c, off).value, off' + (ParseStringAt(c, off).offset - off))
  {
    hide FirstPass, SecondPass, SameBytes;
    var n := ParseStringAt(c, off).offset - off;
    SameBytesAt(c, off, d, off', n, 0);
    SameBytesAt(c, off, d, off', n, 1);
    ReadsToQuote(c, off + 1, d, off' + 1);
  }

  lemma Between(c: bytes, off: nat, text: bytes)
    ensures Has(c, off, [QUOTE] + text + [QUOTE]) <==> SameBytes([QUOTE] + text + [QUOTE], 0, c, off, |text| + 2)
  {
    var t: bytes := [QUOTE] + text + [QUOTE];
    assert t[0..|text| + 2] == t;
  }

  /** A string token reads as its value in every buffer. */
  lemma TokenParses(c: bytes, off: nat, text: bytes, value: cstring)
    requires StringToken(text, value) && Has(c, off, [QUOTE] + text + [QUOTE])
    ensures off < |c| && c[off] == QUOTE && ParseStringAt(c, off) == StringOk(value, off + |text| + 2)
  {
    hide ParseStringAt, SameBytes, Has;
    Enclosed(c, off, text);
    Between(c, off, text);
    StringMoved([QUOTE] + text + [QUOTE], 0, c, off);
  }

  /** What reads as a string is a string token. */
  lemma ParsedToken(c: bytes, off: nat) returns (text: bytes)
    requires off < |c| && ParseStringAt(c, off).StringOk?
    ensures StringToken(text, ParseStringAt(c, off).value) && Has(c, off, [QUOTE] + text + [QUOTE])
    ensures ParseStringAt(c, off).offset == off + |text| + 2
  {
    hide FirstPass, SecondPass, SameBytes;
    var end := ParseStringAt(c, off).offset;
    text := c[off + 1..end - 1];
    assert c[off..end] == [QUOTE] + text + [QUOTE];
    Between(c, off, text);
    SameBytesBack([QUOTE] + text + [QUOTE], 0, c, off, |text| + 2);
    StringMoved(c, off, [QUOTE] + text + [QUOTE], 0);
  }

  lemma SameBytesBack(c: bytes, p: nat, d: bytes, q: nat, n: nat)
    requires SameBytes(c, p, d, q, n)
    ensures SameBytes(d, q, c, p, n)
  {
  }

  // ----- print_string_ptr -----------------------------------------------------

  /** The printer writes small letters. */
  const SMALL: seq<bool> := [false, false, false, false]

  /** The four digits that "%04x" prints for a byte. */
  function HexText(b: byte): (h: bytes)
    ensures FourDigits(h) && NulFree(h)
  {
    UnitText(b, SMALL)
  }

  /** The letter of the two-character escape that the printer uses for a byte, if it has one. */
  function EscapeLetter(b: byte): Option<byte> {
    if b == QUOTE || b == BACKSLASH then Some(b)
    else if b == 8 then Some('b' as int)
    else if b == 12 then Some('f' as int)
    else if b == NEWLINE then Some('n' as int)
    else if b == 13 then Some('r' as int)
    else if b == TAB then Some('t' as int)
    else None
  }

  function EscapeByte(b: byte): (r: bytes)
    ensures b != NUL ==> NulFree(r)
  {
    if EscapeLetter(b).Some? then [BACKSLASH, EscapeLetter(b).value]
    else if b < 32 then U + HexText(b)
    else [b]
  }

  function Escape(s: bytes): (r: bytes)
    ensures NulFree(s) ==> NulFree(r)
  {
    if s == [] then [] else EscapeByte(s[0]) + Escape(s[1..])
  }

  /** The printed form of a string: its escaped bytes between quotes. */
  function Quoted(s: bytes): (r: bytes)
    ensures NulFree(s) ==> NulFree(r)
  {
    [QUOTE] + Escape(s) + [QUOTE]
  }

  /** The extra characters the printer reserves for a byte: the count of its first loop. */
  function ExtraFor(b: byte): nat {
    if EscapeLetter(b).Some? then 1 else if b < 32 then 5 else 0
  }

  function Extra(s: bytes): nat {
    if s == [] then 0 else ExtraFor(s[0]) + Extra(s[1..])
  }

  lemma {:induction false} EscapeSnoc(s: bytes, b: byte)
    ensures Escape(s + [b]) == Escape(s) + EscapeByte(b)
    ensures Extra(s + [b]) == Extra(s) + ExtraFor(b)
    decreases |s|
  {
    if s == [] {
      assert s + [b] == [b];
    } else {
      assert (s + [b])[1..] == s[1..] + [b];
      EscapeSnoc(s[1..], b);
    }
  }

  /**
   The length counted in advance is exactly the length of the escaped text, and
   nothing is escaped iff no extra is counted.
   */
  lemma {:induction false} ExtraIsExact(s: bytes)
    ensures |Escape(s)| == |s| + Extra(s)
    ensures Extra(s) == 0 ==> Escape(s) == s
    decreases |s|
  {
    if s != [] {
      ExtraIsExact(s[1..]);
    }
  }

  /** How a printed byte reads as a character of a literal. */
  function AsLitChar(b: byte): (l: LitChar)
    ensures WellFormed(l) && CharText(l) == EscapeByte(b) && CharMeaning(l) == [b]
  {
    if EscapeLetter(b).Some? then Short(EscapeLetter(b).value)
    else if b < 32 then Unit(b, SMALL)
    else Plain(b)
  }

  function AsLiteral(s: bytes): (ls: seq<LitChar>)
    ensures AllWellFormed(ls)
  {
    if s == [] then [] else [AsLitChar(s[0])] + AsLiteral(s[1..])
  }

  lemma {:induction false} EscapeIsLiteral(s: bytes)
    ensures LiteralText(AsLiteral(s)) == Escape(s) && Meaning(AsLiteral(s)) == s
    decreases |s|
  {
    if s != [] {
      EscapeIsLiteral(s[1..]);
      var l, rest := AsLitChar(s[0]), AsLiteral(s[1..]);
      assert AsLiteral(s)[0] == l && AsLiteral(s)[1..] == rest;
      assert CharMeaning(l) + Meaning(rest) == [s[0]] + s[1..] == s;
    }
  }

  /** Decoding undoes printing: for every C string, wherever its printed form stands. */
  lemma StringRoundTrip(c: bytes, off: nat, s: cstring)
    requires Has(c, off, Quoted(s))
    ensures ParseStringAt(c, off) == StringOk(s, off + |Quoted(s)|)
  {
    EscapeIsLiteral(s);
    ParseLiteral(c, off, AsLiteral(s));
  }
}

/**
 The parser of cJSON.c over its parse buffer: offset and depth advance in
 place, decoded strings are written through an output index, and the nodes
 of arrays and objects are linked as they are read.  Every method is tied to
 the function of JsonGrammar or JsonLiteral that says what it accepts.
 */
module CJsonParser {
  import opened CBytes
  import opened JsonNumber
  import opened JsonString
  import opened JsonLiteral
  import opened JsonTree
  import opened JsonGrammar
  import opened CJsonNode

  // ----- parse_hex4 -----------------------------------------------------------------

  function HexFold(s: bytes, i: nat): nat
    requires i <= |s| && forall k | 0 <= k < i :: IsHex(s[k])
  {
    if i == 0 then 0 else HexFold(s, i - 1) * 16 + HexValue(s[i - 1])
  }

  method ParseHex4(c: bytes, p: nat) returns (h: nat)
    requires p + 4 <= |c|
    ensures h == Hex4(c[p..p + 4])
  {
    ghost var s := c[p..p + 4];
    h := 0;
    for i := 0 to 4
      invariant forall k | 0 <= k < i :: IsHex(s[k])
      invariant h == HexFold(s, i) * (if i < 4 then 16 else 1)
    {
      var b := c[p + i];
      assert b == s[i];
      if '0' as int <= b <= '9' as int {
        h := h + b - '0' as int;
      } else if 'A' as int <= b <= 'F' as int {
        h := h + 10 + b - 'A' as int;
      } else if 'a' as int <= b <= 'f' as int {
        h := h + 10 + b - 'a' as int;
      } else {
        return 0;
      }
      if i < 3 {
        h := h * 16;
      }
    }
    HexFoldIsHex4(s);
  }

  lemma HexFoldIsHex4(s: bytes)
    requires |s| == 4 && forall k | 0 <= k < 4 :: IsHex(s[k])
    ensures HexFold(s, 4) == Hex4(s)
  {
    assert HexFold(s, 1) == HexValue(s[0]);
    assert HexFold(s, 2) == HexFold(s, 1) * 16 + HexValue(s[1]);
    assert HexFold(s, 3) == HexFold(s, 2) * 16 + HexValue(s[2]);
  }

  // ----- utf16_literal_to_utf8 --------------------------------------------------------

  /** The code point after `n` shifts by six bits. */
  function Shifted(cp: nat, n: nat): nat {
    if n == 0 then cp else Shifted(cp, n - 1) / 0x40
  }

  function FirstByteMark(len: nat): byte {
    if len == 2 then 0xC0 else if len == 3 then 0xE0 else if len == 4 then 0xF0 else 0
  }

  /** The encoding as the loop of the C code builds it: from the last byte to the first. */
  lemma Utf8ByShifts(cp: nat, k: nat)
    requires cp <= 0x10FFFF && k < Utf8Length(cp)
    ensures k > 0 ==> Utf8(cp)[k] == 0x80 + Shifted(cp, Utf8Length(cp) - 1 - k) % 0x40
    ensures k == 0 ==> Utf8(cp)[0] == FirstByteMark(Utf8Length(cp)) + Shifted(cp, Utf8Length(cp) - 1)
  {
    assert Shifted(cp, 1) == cp / 0x40;
    assert Shifted(cp, 2) == Shifted(cp, 1) / 0x40 == cp / 0x1000;
    assert Shifted(cp, 3) == Shifted(cp, 2) / 0x40 == cp / 0x40000;
  }

  /** Writes the bytes of `cp` at `o`, last byte first; `(cp | 0x80) & 0xBF` is 0x80 plus the low six bits. */
  method EncodeUtf8(cp: nat, out: array<byte>, o: nat)
    requires cp <= 0x10FFFF && o + Utf8Length(cp) <= out.Length
    modifies out
    ensures out[..o + Utf8Length(cp)] == old(out[..o]) + Utf8(cp)
  {
    hide Utf8;
    var codepoint := cp;
    var len := Utf8Length(cp);
    var pos := len - 1;
    while pos > 0
      invariant 0 <= pos < len
      invariant codepoint == Shifted(cp, len - 1 - pos)
      invariant forall k | pos < k < len :: out[o + k] == Utf8(cp)[k]
      invariant forall k | 0 <= k < o :: out[k] == old(out[k])
    {
      Utf8ByShifts(cp, pos);
      out[o + pos] := 0x80 + codepoint % 0x40;
      codepoint := codepoint / 0x40;
      pos := pos - 1;
    }
    Utf8ByShifts(cp, 0);
    out[o] := FirstByteMark(len) + codepoint;
  }

  /** Returns the number of input bytes used, 0 on failure, and the new output index. */
  method Utf16LiteralToUtf8(c: bytes, p: nat, end: nat, out: array<byte>, o: nat) returns (consumed: nat, o': nat)
    requires p <= end <= |c| && o <= out.Length
    requires Utf16Literal(c, p, end).GoodUtf16? ==> o + Utf8Length(Utf16Literal(c, p, end).codepoint) <= out.Length
    modifies out
    ensures match Utf16Literal(c, p, end)
            case BadUtf16 => consumed == 0 && o' == o && out[..] == old(out[..])
            case GoodUtf16(cp, n) =>
              consumed == n && o' == o + Utf8Length(cp) && out[..o'] == old(out[..o]) + Utf8(cp)
  {
    hide Hex4, Utf8, Utf8Length;
    consumed, o' := 0, o;
    if end - p < 6 {
      return;
    }
    var first := ParseHex4(c, p + 2);
    if 0xDC00 <= first <= 0xDFFF {
      return;
    }
    var codepoint, sequenceLength;
    if 0xD800 <= first <= 0xDBFF {
      if end - (p + 6) < 6 {
        return;
      }
      if c[p + 6] != BACKSLASH || c[p + 7] != 'u' as int {
        return;
      }
      var second := ParseHex4(c, p + 8);
      if second < 0xDC00 || second > 0xDFFF {
        return;
      }
      assert first % 0x400 == first - 0xD800 && second % 0x400 == second - 0xDC00;
      codepoint, sequenceLength := 0x10000 + (first % 0x400) * 0x400 + second % 0x400, 12;
    } else {
      codepoint, sequenceLength := first, 6;
    }
    EncodeUtf8(codepoint, out, o);
    return sequenceLength, o + Utf8Length(codepoint);
  }

  // ----- parse_string -------------------------------------------------------------------

  function Skipped(r: Scan, k: nat): Scan {
    match r
    case NoQuote => NoQuote
    case Closed(end, skipped) => Closed(end, skipped + k)
  }

  /** The first loop of `parse_string`; `end` is where it stopped. */
  method FindQuote(c: bytes, start: nat) returns (found: bool, end: nat, skipped: nat)
    ensures FirstPass(c, start) == if found then Closed(end, skipped) else NoQuote
  {
    end, skipped := start, 0;
    while end < |c| && c[end] != QUOTE
      invariant Skipped(FirstPass(c, end), skipped) == FirstPass(c, start)
      decreases |c| - end
    {
      if c[end] == BACKSLASH {
        if end + 1 >= |c| {
          return false, end, skipped;
        }
        skipped := skipped + 1;
        end := end + 1;
      }
      end := end + 1;
    }
    found := end < |c|;
  }

  /** A NUL at `o` ends the C string there. */
  lemma {:induction false} CStringCut(s: bytes, o: nat)
    requires o < |s| && s[o] == NUL
    ensures CString(s) == CString(s[..o])
    decreases o
  {
    hide CString;
    CStringUnfold(s);
    CStringUnfold(s[..o]);
    if o > 0 && s[0] != NUL {
      assert s[1..][..o - 1] == s[..o][1..];
      CStringCut(s[1..], o - 1);
    }
  }

  lemma CStringUnfold(s: bytes)
    ensures CString(s) == if s == [] || s[0] == NUL then [] else [s[0]] + CString(s[1..])
  {
  }

  lemma PrependTwice(s: bytes, t: bytes, d: Decoded)
    ensures Prepend(s, Prepend(t, d)) == Prepend(s + t, d)
    ensures Prepend(s, d).ok == d.ok && Prepend(s, d).at == d.at && Prepend(s, d).out == s + d.out
    ensures Prepend(s, Prepend(t, d)).out == s + t + d.out
    ensures Prepend([], d) == d
  {
    assert s + (t + d.out) == s + t + d.out;
  }

  /**
   The second loop of `parse_string`: decodes into `out` and ends it with a
   NUL; every write is inside the block of `AllocationLength` bytes.
   */
  method DecodeInto(c: bytes, start: nat, end: nat, out: array<byte>) returns (ok: bool, at: nat)
    requires end < |c| && start <= end
    requires |SecondPass(c, start, end).out| < out.Length
    modifies out
    ensures ok == SecondPass(c, start, end).ok && at == SecondPass(c, start, end).at
    ensures ok ==> CString(out[..]) == CString(SecondPass(c, start, end).out)
  {
    hide Utf16Literal, Utf8, Hex4, CString, ShortEscape, Prepend;
    ghost var d := SecondPass(c, start, end);
    var p, o := start, 0;
    PrependTwice([], [], d);
    while p < end
      invariant start <= p <= |c| && 0 <= o <= out.Length
      invariant Prepend(out[..o], SecondPass(c, p, end)) == d
      decreases |c| - p
    {
      ghost var was := out[..o];
      if c[p] != BACKSLASH {
        PrependTwice(was, [c[p]], SecondPass(c, p + 1, end));
        out[o] := c[p];
        assert out[..o + 1] == was + [c[p]];
        p, o := p + 1, o + 1;
      } else {
        var e := c[p + 1];
        if ShortEscape(e).Some? {
          PrependTwice(was, [ShortEscape(e).value], SecondPass(c, p + 2, end));
          out[o] := ShortEscape(e).value;
          assert out[..o + 1] == was + [ShortEscape(e).value];
          p, o := p + 2, o + 1;
        } else if e == 'u' as int {
          ghost var u := Utf16Literal(c, p, end);
          if u.GoodUtf16? {
            PrependTwice(was, Utf8(u.codepoint), SecondPass(c, p + u.consumed, end));
          } else {
            PrependTwice(was, [], SecondPass(c, p, end));
          }
          var n, o' := Utf16LiteralToUtf8(c, p, end, out, o);
          if n == 0 {
            return false, p;
          }
          p, o := p + n, o';
        } else {
          PrependTwice(was, [], SecondPass(c, p, end));
          return false, p;
        }
      }
    }
    PrependTwice(out[..o], [], SecondPass(c, p, end));
    out[o] := NUL;
    assert out[..o] == d.out;
    CStringCut(out[..], o);
    assert out[..][..o] == out[..o];
    return true, p;
  }

  // ----- parse_number ---------------------------------------------------------------------

  /**
   The first loop of `parse_number`: copies number characters, one less than
   `text` holds, and ends them with a NUL.
   */
  method CopyNumber(c: bytes, off: nat, text: array<byte>) returns (i: nat)
    requires off < |c| && text.Length > 0
    modifies text
    ensures i == NumberRun(c, off, text.Length - 1) && text[..i] == c[off..off + i]
  {
    hide IsNumberByte;
    var room := text.Length - 1;
    i := 0;
    while i < room && off + i < |c| && IsNumberByte(c[off + i])
      invariant i <= room && off + i <= |c|
      invariant forall k | 0 <= k < i :: text[k] == c[off + k]
      invariant NumberRun(c, off, room) == i + NumberRun(c, off + i, room - i)
    {
      text[i] := c[off + i];
      i := i + 1;
    }
    text[i] := NUL;
  }

  // ----- the parse buffer -----------------------------------------------------------------

  /** The node stands for the parsed value, and the offset is where the value ends or the error is. */
  ghost predicate Result(r: Parsed, ok: bool, offset: nat, item: CJson, s: Shape)
    reads s.foot
  {
    match r
    case Err(o) => !ok && offset == o
    case Ok(v, o) => ok && offset == o && s.node == item && Wf(s) && TreeOf(s) == v
  }

  function PrependItems(vs: seq<Json>, r: ParsedItems): ParsedItems {
    match r
    case ItemsErr(o) => r
    case ItemsOk(items, o) => ItemsOk(vs + items, o)
  }

  function PrependMembers(ms: seq<Member>, r: ParsedMembers): ParsedMembers {
    match r
    case MembersErr(o) => r
    case MembersOk(members, o) => MembersOk(ms + members, o)
  }

  lemma PrependNothing(r: ParsedItems, q: ParsedMembers)
    ensures PrependItems([], r) == r && PrependMembers([], q) == q
  {
  }

  /** One turn of the loop of `parse_array`, seen from the values read so far. */
  lemma ItemsStep(c: bytes, p: nat, depth: nat, limit: nat, vs: seq<Json>)
    requires Terminated(c) && p + 1 < |c|
    ensures var r := PrependItems(vs, JsonGrammar.ParseItems(c, p, depth, limit));
            match JsonGrammar.ParseValue(c, SkipWs(c, p + 1), depth, limit)
            case Err(o) => r == ItemsErr(o)
            case Ok(v, o) =>
              var next := SkipWs(c, o);
              if c[next] == ',' as int then
                next + 1 < |c| && r == PrependItems(vs + [v], JsonGrammar.ParseItems(c, next, depth, limit))
              else r == ItemsOk(vs + [v], next)
  {
    hide JsonGrammar.ParseValue, SkipWs;
    match JsonGrammar.ParseValue(c, SkipWs(c, p + 1), depth, limit)
    case Err(o) =>
    case Ok(v, o) =>
      var next := SkipWs(c, o);
      if c[next] == ',' as int {
        match JsonGrammar.ParseItems(c, next, depth, limit)
        case ItemsErr(_) =>
        case ItemsOk(items, _) => assert vs + ([v] + items) == vs + [v] + items;
      }
  }

  /** One turn of the loop of `parse_object`. */
  lemma MembersStep(c: bytes, p: nat, depth: nat, limit: nat, ms: seq<Member>)
    requires Terminated(c) && p + 1 < |c|
    ensures var r := PrependMembers(ms, JsonGrammar.ParseMembers(c, p, depth, limit));
            match ParseName(c, p)
            case NameErr(o) => r == MembersErr(o)
            case NameOk(name, o0) =>
              match JsonGrammar.ParseValue(c, o0, depth, limit)
              case Err(o) => r == MembersErr(o)
              case Ok(v, o) =>
                var next := SkipWs(c, o);
                if c[next] == ',' as int then
                  && next + 1 < |c|
                  && r == PrependMembers(ms + [Member(name, v)], JsonGrammar.ParseMembers(c, next, depth, limit))
                else r == MembersOk(ms + [Member(name, v)], next)
  {
    hide JsonGrammar.ParseValue, SkipWs, ParseName;
    match ParseName(c, p)
    case NameErr(_) =>
    case NameOk(name, o0) =>
      match JsonGrammar.ParseValue(c, o0, depth, limit)
      case Err(_) =>
      case Ok(v, o) =>
        var next := SkipWs(c, o);
        if c[next] == ',' as int {
          match JsonGrammar.ParseMembers(c, next, depth, limit)
          case MembersErr(_) =>
          case MembersOk(members, _) =>
            assert ms + ([Member(name, v)] + members) == ms + [Member(name, v)] + members;
        }
  }

  lemma ValuesSnoc(es: seq<Entry>, e: Entry)
    ensures Values(es + [e]) == Values(es) + [e.value] && Values([]) == []
    ensures AllNamed(es) && e.name.Some? ==>
              AllNamed(es + [e]) && Members(es + [e]) == Members(es) + [Member(e.name.value, e.value)]
    ensures Members([]) == []
  {
  }

  lemma HeadInFoot(head: CJson?, tail: CJson?, kids: seq<Shape>, foot: set<CJson>, es: seq<Entry>)
    requires ListFrom(head, tail, kids, foot, es)
    ensures head != null ==> head in foot
  {
  }

  lemma NoNames()
    ensures AllNamed([]) && Members([]) == []
  {
  }

  class ParseBuffer {
    const content: bytes
    var offset: nat
    var depth: nat

    /** The buffer of `cJSON_ParseWithOpts`: the string with its NUL. */
    constructor (s: cstring)
      ensures content == s + [NUL] && offset == 0 && depth == 0
    {
      content, offset, depth := s + [NUL], 0, 0;
    }

    method SkipWhitespace()
      requires offset <= |content|
      modifies this`offset
      ensures offset == if old(offset) < |content| then SkipWs(content, old(offset)) else old(offset)
    {
      if offset >= |content| {
        return;
      }
      while offset < |content| && content[offset] <= SPACE
        invariant old(offset) <= offset <= |content|
        invariant if offset < |content| then SkipWs(content, offset) == SkipWs(content, old(offset))
                  else SkipWs(content, old(offset)) == |content| - 1
        decreases |content| - offset
      {
        offset := offset + 1;
      }
      if offset == |content| {
        offset := offset - 1;
      }
    }

    method ParseString(item: CJson) returns (ok: bool)
      requires offset < |content|
      modifies this`offset, item`kind, item`valuestring
      ensures match ParseStringAt(content, old(offset))
              case StringErr(o) =>
                !ok && offset == o && item.kind == old(item.kind) && item.valuestring == old(item.valuestring)
              case StringOk(v, o) =>
                ok && offset == o && item.kind == StringKind && item.valuestring == Some(v)
    {
      hide FirstPass, SecondPass, CString;
      var start := offset + 1;
      if content[offset] != QUOTE {
        offset := start;
        return false;
      }
      var found, end, skipped := FindQuote(content, start);
      if !found {
        offset := start;
        return false;
      }
      TwoPassBound(content, offset);
      var output := new byte[end - offset - skipped + 1];
      var good, at := DecodeInto(content, start, end, output);
      if !good {
        offset := at;
        return false;
      }
      item.kind := StringKind;
      item.valuestring := Some(CString(output[..]));
      offset := end + 1;
      return true;
    }

    method ParseNumber(item: CJson) returns (ok: bool)
      requires offset < |content|
      modifies this`offset, item`kind, item`valueint, item`valuedouble
      ensures var r := ParseNumberAt(content, old(offset));
              if r.length == 0 then
                !ok && offset == old(offset) && item.kind == old(item.kind)
              else
                && ok && offset == old(offset) + r.length && item.kind == NumberKind
                && item.valuedouble == r.value && item.valueint == SaturatedInt(r.value)
    {
      hide Strtod, SaturatedInt, NumberRun;
      var text := new byte[NUMBER_ROOM + 1];
      var i := CopyNumber(content, offset, text);
      var number := Strtod(text[..i]);
      assert number == ParseNumberAt(content, offset);
      if number.length == 0 {
        return false;
      }
      item.valuedouble := number.value;
      item.valueint := SaturatedInt(number.value);
      item.kind := NumberKind;
      offset := offset + number.length;
      return true;
    }

    /** `parse_value` into a fresh node; its sibling pointers and its name stay as they are. */
    method ParseValue(item: CJson) returns (ok: bool, ghost s: Shape)
      requires Terminated(content) && offset < |content| && item.child == null
      modifies this, item
      ensures Result(JsonGrammar.ParseValue(content, old(offset), old(depth), NESTING_LIMIT), ok, offset, item, s)
      ensures ok ==> depth == old(depth) && fresh(s.foot - {item})
      ensures item.next == old(item.next) && item.prev == old(item.prev) && item.name == old(item.name)
      decreases |content| - offset, 4
    {
      hide ParseStringAt, ParseNumberAt, JsonGrammar.ParseArray, JsonGrammar.ParseObject, SaturatedInt;
      s := Shape(item, [], {item});
      if offset + 4 <= |content| && content[offset..offset + 4] == NULL_TEXT {
        item.kind := NullKind;
        offset := offset + 4;
        return true, s;
      }
      if offset + 5 <= |content| && content[offset..offset + 5] == FALSE_TEXT {
        item.kind := FalseKind;
        offset := offset + 5;
        return true, s;
      }
      if offset + 4 <= |content| && content[offset..offset + 4] == TRUE_TEXT {
        item.kind := TrueKind;
        item.valueint := 1;
        offset := offset + 4;
        return true, s;
      }
      if content[offset] == QUOTE {
        ok := ParseString(item);
        return ok, s;
      }
      if content[offset] == '-' as int || IsDigit(content[offset]) {
        ok := ParseNumber(item);
        return ok, s;
      }
      if content[offset] == '[' as int {
        ok, s := ParseArray(item);
        return ok, s;
      }
      if content[offset] == '{' as int {
        ok, s := ParseObject(item);
        return ok, s;
      }
      return false, s;
    }

    /** One turn of the loop of `parse_array`: link a new node behind `tail` and parse the next value into it. */
    method NextElement(head: CJson?, tail: CJson?, ghost kids: seq<Shape>, ghost foot: set<CJson>, ghost es: seq<Entry>)
      returns (ok: bool, node: CJson, ghost s: Shape)
      requires Terminated(content) && offset + 1 < |content|
      requires ListFrom(head, tail, kids, foot, es)
      modifies this, if tail == null then {} else {tail}`next
      ensures Result(JsonGrammar.ParseValue(content, SkipWs(content, old(offset) + 1), old(depth), NESTING_LIMIT),
                     ok, offset, node, s)
      ensures fresh(node)
      ensures ok ==> depth == old(depth) && fresh(s.foot)
      ensures ok ==> ListFrom(if head == null then node else head, node, kids + [s], foot + s.foot, es + [EntryOf(s)])
      decreases |content| - offset, 0
    {
      hide Wf, TreeOf, Pending, ListFrom, JsonGrammar.ParseValue, SkipWs;
      node := AttachNew(head, tail, kids, foot, es);
      label L:
      offset := offset + 1;
      SkipWhitespace();
      ok, s := ParseValue(node);
      if ok {
        PendingKept@L(Draft(head, kids, foot, es, node));
        Joined(Draft(head, kids, foot, es, node), s);
      }
    }

    /** The loop of `parse_array`; on entry the offset is in front of the first element. */
    method ParseElements() returns (ok: bool, head: CJson?, tail: CJson?, ghost kids: seq<Shape>,
                                    ghost foot: set<CJson>, ghost es: seq<Entry>)
      requires Terminated(content) && offset + 1 < |content|
      modifies this
      ensures match ParseItems(content, old(offset), old(depth), NESTING_LIMIT)
              case ItemsErr(o) => !ok && offset == o
              case ItemsOk(vs, o) => ok && offset == o && depth == old(depth) && vs == Values(es)
      ensures ok ==> ListFrom(head, tail, kids, foot, es) && fresh(foot)
      decreases |content| - offset, 1
    {
      hide Wf, TreeOf, ListFrom, JsonGrammar.ParseItems, JsonGrammar.ParseValue, SkipWs, PrependItems, Values;
      ok, head, tail, kids, foot, es := true, null, null, [], {}, [];
      EmptyList();
      ghost var r := ParseItems(content, offset, depth, NESTING_LIMIT);
      PrependNothing(r, MembersErr(0));
      ValuesSnoc([], Entry(None, Null));
      while ok
        invariant depth == old(depth) && old(offset) <= offset < |content|
        invariant ListFrom(head, tail, kids, foot, es) && fresh(foot)
        invariant tail != null ==> fresh(tail)
        invariant ok ==> offset + 1 < |content|
        invariant ok ==> PrependItems(Values(es), ParseItems(content, offset, depth, NESTING_LIMIT)) == r
        invariant !ok ==> r == ItemsOk(Values(es), offset)
        decreases |content| - offset, ok
      {
        ItemsStep(content, offset, depth, NESTING_LIMIT, Values(es));
        var node; ghost var k;
        ok, node, k := NextElement(head, tail, kids, foot, es);
        if !ok {
          return;
        }
        SkipWhitespace();
        ValuesSnoc(es, EntryOf(k));
        head, tail := if head == null then node else head, node;
        kids, foot, es := kids + [k], foot + k.foot, es + [EntryOf(k)];
        ok := content[offset] == ',' as int;
      }
      ok := true;
    }

    /** The opening of a container: past the bracket and the white space, and a step back unless it closes at once. */
    method EnterContainer(close: byte) returns (empty: bool)
      requires Terminated(content) && offset < |content| && content[offset] != NUL
      modifies this
      ensures depth == old(depth) + 1
      ensures var first := SkipWs(content, old(offset) + 1);
              empty == (content[first] == close) && offset == if empty then first else first - 1
    {
      depth := depth + 1;
      offset := offset + 1;
      SkipWhitespace();
      empty := content[offset] == close;
      if !empty {
        // step back to the character in front of the first element
        offset := offset - 1;
      }
    }

    /** `parse_array` up to the closing bracket. */
    method ArrayItems() returns (ok: bool, head: CJson?, tail: CJson?,
                                  ghost kids: seq<Shape>, ghost foot: set<CJson>, ghost es: seq<Entry>)
      requires Terminated(content) && offset < |content| && content[offset] == '[' as int
      modifies this
      ensures match JsonGrammar.ParseArray(content, old(offset), old(depth), NESTING_LIMIT)
              case Err(o) => !ok && offset == o
              case Ok(v, o) => ok && offset + 1 == o && depth == old(depth) + 1 && v == Array(Values(es))
      ensures ok ==> ListFrom(head, tail, kids, foot, es) && fresh(foot)
      decreases |content| - offset, 2
    {
      hide Wf, TreeOf, ListFrom, JsonGrammar.ParseItems, JsonGrammar.ParseValue, SkipWs, Values;
      ok, head, tail, kids, foot, es := false, null, null, [], {}, [];
      if depth >= NESTING_LIMIT {
        return;
      }
      var empty := EnterContainer(']' as int);
      EmptyList();
      ValuesSnoc([], Entry(None, Null));
      if empty {
        return true, head, tail, kids, foot, es;
      }
      ok, head, tail, kids, foot, es := ParseElements();
      ok := ok && content[offset] == ']' as int;
    }

    /** The end of a container: past the closing bracket, with the list in the node. */
    method CloseContainer(item: CJson, kind: Kind, head: CJson?, tail: CJson?,
                          ghost kids: seq<Shape>, ghost foot: set<CJson>, ghost es: seq<Entry>) returns (ghost s: Shape)
      requires ListFrom(head, tail, kids, foot, es) && item !in foot && depth > 0
      requires kind == ArrayKind || (kind == ObjectKind && AllNamed(es))
      modifies this`depth, this`offset, item`kind, item`child, if head == null then {} else {head}`prev
      ensures depth == old(depth) - 1 && offset == old(offset) + 1
      ensures s == Shape(item, kids, {item} + foot) && Wf(s)
      ensures TreeOf(s) == if kind == ArrayKind then Array(Values(es)) else Object(Members(es))
    {
      hide Wf, TreeOf, ListFrom, Values, Members, AllNamed;
      depth := depth - 1;
      FinishContainer(item, kind, head, tail, kids, foot, es);
      offset := offset + 1;
      s := Shape(item, kids, {item} + foot);
    }

    method ParseArray(item: CJson) returns (ok: bool, ghost s: Shape)
      requires Terminated(content) && offset < |content| && item.child == null
      requires content[offset] == '[' as int
      modifies this, item
      ensures Result(JsonGrammar.ParseArray(content, old(offset), old(depth), NESTING_LIMIT), ok, offset, item, s)
      ensures ok ==> depth == old(depth) && fresh(s.foot - {item})
      ensures item.next == old(item.next) && item.prev == old(item.prev) && item.name == old(item.name)
      decreases |content| - offset, 3
    {
      hide Wf, TreeOf, ListFrom, JsonGrammar.ParseArray, Values, Members, AllNamed;
      s := Shape(item, [], {item});
      var head: CJson?, tail: CJson?;
      ghost var kids, foot, es;
      ok, head, tail, kids, foot, es := ArrayItems();
      if ok {
        HeadInFoot(head, tail, kids, foot, es);
        s := CloseContainer(item, ArrayKind, head, tail, kids, foot, es);
      }
    }

    /** One turn of the loop of `parse_object`: link a new node, parse its name, the colon and its value. */
    method NextMember(head: CJson?, tail: CJson?, ghost kids: seq<Shape>, ghost foot: set<CJson>, ghost es: seq<Entry>)
      returns (ok: bool, node: CJson, ghost s: Shape)
      requires Terminated(content) && offset + 1 < |content|
      requires ListFrom(head, tail, kids, foot, es)
      modifies this, if tail == null then {} else {tail}`next
      ensures match ParseName(content, old(offset))
              case NameErr(o) => !ok && offset == o
              case NameOk(name, o) =>
                && Result(JsonGrammar.ParseValue(content, o, old(depth), NESTING_LIMIT), ok, offset, node, s)
                && node.name == Some(name)
      ensures fresh(node)
      ensures ok ==> depth == old(depth) && fresh(s.foot)
      ensures ok ==> ListFrom(if head == null then node else head, node, kids + [s], foot + s.foot, es + [EntryOf(s)])
      decreases |content| - offset, 0
    {
      hide Wf, TreeOf, Pending, ListFrom, ParseName, JsonGrammar.ParseValue, SkipWs;
      node := AttachNew(head, tail, kids, foot, es);
      label L:
      s := Shape(node, [], {node});
      ok := ParseMemberName(node);
      if ok {
        ok, s := ParseValue(node);
        if ok {
          PendingKept@L(Draft(head, kids, foot, es, node));
          Joined(Draft(head, kids, foot, es, node), s);
        }
      }
    }

    /** The name of a member and its colon, up to the first character of the value. */
    method ParseMemberName(node: CJson) returns (ok: bool)
      requires Terminated(content) && offset + 1 < |content|
      modifies this`offset, node`kind, node`valuestring, node`name
      ensures match ParseName(content, old(offset))
              case NameErr(o) => !ok && offset == o
              case NameOk(name, o) => ok && offset == o && node.name == Some(name) && node.valuestring == None
    {
      hide ParseStringAt, SkipWs;
      offset := offset + 1;
      SkipWhitespace();
      ok := ParseString(node);
      if !ok {
        return;
      }
      SkipWhitespace();
      // the string just parsed is the name
      node.name := node.valuestring;
      node.valuestring := None;
      if content[offset] != ':' as int {
        return false;
      }
      offset := offset + 1;
      SkipWhitespace();
    }

    /** `parse_object` up to the closing brace. */
    method ObjectMembers() returns (ok: bool, head: CJson?, tail: CJson?,
                                  ghost kids: seq<Shape>, ghost foot: set<CJson>, ghost es: seq<Entry>)
      requires Terminated(content) && offset < |content| && content[offset] == '{' as int
      modifies this
      ensures match JsonGrammar.ParseObject(content, old(offset), old(depth), NESTING_LIMIT)
              case Err(o) => !ok && offset == o
              case Ok(v, o) =>
                ok && offset + 1 == o && depth == old(depth) + 1 && AllNamed(es) && v == Object(Members(es))
      ensures ok ==> ListFrom(head, tail, kids, foot, es) && fresh(foot)
      decreases |content| - offset, 2
    {
      hide Wf, TreeOf, ListFrom, JsonGrammar.ParseMembers, JsonGrammar.ParseValue, SkipWs, Members, AllNamed;
      ok, head, tail, kids, foot, es := false, null, null, [], {}, [];
      if depth >= NESTING_LIMIT {
        return;
      }
      var empty := EnterContainer('}' as int);
      EmptyList();
      NoNames();
      if empty {
        return true, head, tail, kids, foot, es;
      }
      ok, head, tail, kids, foot, es := ParseMemberList();
      ok := ok && content[offset] == '}' as int;
    }

    method ParseObject(item: CJson) returns (ok: bool, ghost s: Shape)
      requires Terminated(content) && offset < |content| && item.child == null
      requires content[offset] == '{' as int
      modifies this, item
      ensures Result(JsonGrammar.ParseObject(content, old(offset), old(depth), NESTING_LIMIT), ok, offset, item, s)
      ensures ok ==> depth == old(depth) && fresh(s.foot - {item})
      ensures item.next == old(item.next) && item.prev == old(item.prev) && item.name == old(item.name)
      decreases |content| - offset, 3
    {
      hide Wf, TreeOf, ListFrom, JsonGrammar.ParseObject, Values, Members, AllNamed;
      s := Shape(item, [], {item});
      var head: CJson?, tail: CJson?;
      ghost var kids, foot, es;
      ok, head, tail, kids, foot, es := ObjectMembers();
      if ok {
        HeadInFoot(head, tail, kids, foot, es);
        s := CloseContainer(item, ObjectKind, head, tail, kids, foot, es);
      }
    }

    /** The loop of `parse_object`; on entry the offset is in front of the first member. */
    method ParseMemberList() returns (ok: bool, head: CJson?, tail: CJson?, ghost kids: seq<Shape>,
                                    ghost foot: set<CJson>, ghost es: seq<Entry>)
      requires Terminated(content) && offset + 1 < |content|
      modifies this
      ensures match ParseMembers(content, old(offset), old(depth), NESTING_LIMIT)
              case MembersErr(o) => !ok && offset == o
              case MembersOk(ms, o) =>
                ok && offset == o && depth == old(depth) && AllNamed(es) && ms == Members(es)
      ensures ok ==> ListFrom(head, tail, kids, foot, es) && fresh(foot)
      decreases |content| - offset, 1
    {
      hide Wf, TreeOf, ListFrom, JsonGrammar.ParseMembers, JsonGrammar.ParseValue, ParseName, SkipWs, PrependMembers;
      hide Members, AllNamed;
      ok, head, tail, kids, foot, es := true, null, null, [], {}, [];
      EmptyList();
      ghost var r := ParseMembers(content, offset, depth, NESTING_LIMIT);
      PrependNothing(ItemsErr(0), r);
      NoNames();
      while ok
        invariant depth == old(depth) && old(offset) <= offset < |content|
        invariant ListFrom(head, tail, kids, foot, es) && fresh(foot) && AllNamed(es)
        invariant tail != null ==> fresh(tail)
        invariant ok ==> offset + 1 < |content|
        invariant ok ==> PrependMembers(Members(es), ParseMembers(content, offset, depth, NESTING_LIMIT)) == r
        invariant !ok ==> r == MembersOk(Members(es), offset)
        decreases |content| - offset, ok
      {
        MembersStep(content, offset, depth, NESTING_LIMIT, Members(es));
        var node; ghost var k;
        ok, node, k := NextMember(head, tail, kids, foot, es);
        if !ok {
          return;
        }
        SkipWhitespace();
        ValuesSnoc(es, EntryOf(k));
        head, tail := if head == null then node else head, node;
        kids, foot, es := kids + [k], foot + k.foot, es + [EntryOf(k)];
        ok := content[offset] == ',' as int;
      }
      ok := true;
    }

    /** `skip_utf8_bom`, at the start of the buffer. */
    method SkipUtf8Bom()
      requires offset == 0 && offset <= |content|
      modifies this`offset
      ensures offset == if 4 < |content| && content[..3] == BOM then 3 else 0
    {
      if offset + 4 < |content| && content[offset..offset + 3] == BOM {
        offset := offset + 3;
      }
    }
  }

  /**
   `cJSON_ParseWithOpts`.  On success `end` is `*return_parse_end`; on failure
   the result is null and `end` is the error position.
   */
  method ParseWithOpts(value: cstring, strict: bool) returns (item: CJson?, end: nat, ghost s: Shape)
    ensures match Parse(value, strict)
            case Rejected(position) => item == null && end == position
            case Accepted(tree, e) =>
              item != null && end == e && s.node == item && fresh(s.foot) && Wf(s) && TreeOf(s) == tree
  {
    hide Wf, TreeOf, JsonGrammar.ParseValue, SkipWs;
    var buffer := new ParseBuffer(value);
    ghost var c := buffer.content;
    var root := new CJson();
    buffer.SkipUtf8Bom();
    buffer.SkipWhitespace();
    assert buffer.offset == ValueStart(c);
    var ok;
    ok, s := buffer.ParseValue(root);
    if ok && strict {
      buffer.SkipWhitespace();
      ok := buffer.content[buffer.offset] == NUL;
    }
    end := buffer.offset;
    if !ok {
      if buffer.offset >= |buffer.content| {
        end := |buffer.content| - 1;
      }
      return null, end, s;
    }
    item := root;
  }
}

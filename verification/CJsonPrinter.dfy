/**
 The printer of cJSON.c: it writes through an offset into a buffer that
 `ensure` replaces by a larger one, and finds the end of what a nested call
 wrote by looking for its NUL.  Every method writes exactly the text of
 JsonText behind what was there, or fails for want of room.
 */
module CJsonPrinter {
  import opened CBytes
  import opened JsonNumber
  import opened JsonTree
  import opened JsonGrammar
  import opened JsonLiteral
  import opened JsonText
  import opened CJsonNode

  class PrintBuffer {
    var buffer: array?<byte>
    var length: nat
    var offset: nat
    var depth: nat
    const noalloc: bool
    /** The allocator refuses nothing. */
    const hasMemory: bool
    const style: Style

    /** Only a caller's buffer may be empty. */
    ghost predicate Sized()
      reads `buffer, `length
    {
      buffer != null ==> buffer.Length == length <= INT_MAX && (length == 0 ==> noalloc)
    }

    ghost predicate Valid()
      reads `buffer, `length, `offset
    {
      Sized() && (buffer != null ==> offset < length || (length == 0 && offset == 0))
    }

    /** The buffer is the same, or a larger one, or lost; the largest possible one is the same. */
    twostate predicate Continues()
      reads `buffer, `length, `offset
    {
      && Valid() && (buffer == null || buffer == old(buffer) || fresh(buffer))
      && (noalloc ==> buffer == old(buffer)) && (hasMemory ==> buffer != null)
      && (buffer != null ==> Limit() == old(Limit()))
    }

    /** The largest buffer this print can have. */
    ghost function Limit(): nat
      reads `length
    {
      if noalloc then length else INT_MAX
    }

    /** The text written so far. */
    ghost function Written(): bytes
      requires buffer != null && Valid()
      reads `buffer, `length, `offset, buffer
    {
      buffer[..offset]
    }

    constructor (storage: array<byte>, noalloc: bool, hasMemory: bool, style: Style)
      requires storage.Length <= INT_MAX && (storage.Length == 0 ==> noalloc)
      ensures Valid() && buffer == storage && length == storage.Length && offset == 0 && depth == 0
      ensures this.noalloc == noalloc && this.hasMemory == hasMemory && this.style == style
    {
      this.buffer, this.length, this.offset, this.depth := storage, storage.Length, 0, 0;
      this.noalloc, this.hasMemory, this.style := noalloc, hasMemory, style;
    }

    /**
     `ensure`: room for `needed` bytes and one more behind the offset.  It
     fails exactly when the largest buffer is too small for that or the
     allocator refuses, which loses the buffer; otherwise it keeps the text.
     Without a buffer, or with an offset behind its end, it fails too.
     */
    method Ensure(needed: nat) returns (ok: bool)
      requires Sized()
      modifies this`buffer, this`length
      ensures !old(Valid() && buffer != null) ==> !ok && unchanged(this)
      ensures old(Valid() && buffer != null) ==>
        && Continues() && ok == (buffer != null && offset + needed + 1 <= old(Limit()))
        && (buffer != null ==> Written() == old(Written()))
        && (ok ==> offset + needed + 1 <= length)
    {
      if buffer == null {
        return false;
      }
      if length > 0 && offset >= length {
        return false;
      }
      if needed > INT_MAX {
        return false;
      }
      var total := needed + offset + 1;
      if total <= length {
        return true;
      }
      if noalloc {
        return false;
      }
      var newsize;
      if total > INT_MAX / 2 {
        if total <= INT_MAX {
          newsize := INT_MAX;
        } else {
          return false;
        }
      } else {
        newsize := total * 2;
      }
      var granted: bool := *;
      if !hasMemory && !granted {
        length, buffer := 0, null;
        return false;
      }
      var newbuffer := new byte[newsize];
      for i := 0 to offset + 1
        modifies newbuffer
        invariant forall k | 0 <= k < i :: newbuffer[k] == buffer[k]
      {
        newbuffer[i] := buffer[i];
      }
      length, buffer := newsize, newbuffer;
      return true;
    }

    /** Stores `s` from the offset on, without moving it. */
    method Store(s: bytes)
      requires Valid() && buffer != null && offset + |s| <= length
      modifies buffer
      ensures buffer[..offset + |s|] == old(Written()) + s
    {
      for i := 0 to |s|
        invariant buffer[..offset + i] == old(Written()) + s[..i]
      {
        buffer[offset + i] := s[i];
        assert s[..i + 1] == s[..i] + [s[i]];
        assert buffer[..offset + i + 1] == buffer[..offset + i] + [s[i]];
      }
      assert s[..|s|] == s;
    }

    /**
     `text` stands behind `before`, ends with a NUL inside the buffer, and the
     offset points into it or at that NUL.
     */
    ghost predicate Printed(before: bytes, text: cstring)
      requires buffer != null && Valid()
      reads `buffer, `length, `offset, buffer
    {
      var end := |before| + |text|;
      && |before| <= offset <= end < length
      && buffer[..end] == before + text && buffer[end] == NUL
    }

    /** `update_offset`: move to the NUL, which is always inside the buffer. */
    method UpdateOffset(ghost before: bytes, ghost text: cstring)
      requires Valid() && buffer != null && Printed(before, text)
      modifies this`offset
      ensures Valid() && offset == |before| + |text| && Written() == before + text
    {
      ghost var end := |before| + |text|;
      forall i | |before| <= i < end ensures buffer[i] != NUL {
        assert buffer[i] == buffer[..end][i] == text[i - |before|];
      }
      while buffer[offset] != NUL
        invariant |before| <= offset <= end
        decreases end - offset
      {
        offset := offset + 1;
      }
    }

    // ----- strings ----------------------------------------------------------------------

    /**
     `print_string_ptr`: the two loops that count and escape, and the shortcut
     when nothing is escaped.  Null is printed as the empty string.
     */
    method PrintStringPtr(text: Option<cstring>) returns (ok: bool)
      requires Valid() && buffer != null
      modifies this`buffer, this`length, buffer
      ensures Continues()
      ensures ok == (buffer != null && offset + |Quoted(Contents(text))| + 2 <= old(Limit()))
      ensures ok ==> Printed(old(Written()), Quoted(Contents(text)))
    {
      match text
      case Some(input) => ok := PrintString(input);
      case None =>
        assert Quoted([]) == [QUOTE, QUOTE];
        ok := PrintText([QUOTE, QUOTE]);
    }

    method PrintString(input: cstring) returns (ok: bool)
      requires Valid() && buffer != null
      modifies this`buffer, this`length, buffer
      ensures Continues()
      ensures ok == (buffer != null && offset + |Quoted(input)| + 2 <= old(Limit()))
      ensures ok ==> Printed(old(Written()), Quoted(input))
    {
      hide Quoted, Escape, Extra, Limit, Printed;
      var extra := CountExtra(input);
      QuotedLength(input);
      var outputLength := |input| + extra;
      ok := Ensure(outputLength + 3);
      if ok {
        StoreString(input, extra);
      }
    }

    /** The first loop: how many more bytes the escaped string has. */
    method CountExtra(input: cstring) returns (extra: nat)
      ensures extra == Extra(input)
    {
      hide EscapeByte, ExtraFor, Escape, Extra;
      NothingEscaped();
      extra := 0;
      for i := 0 to |input|
        invariant extra == Extra(input[..i])
      {
        EscapeSnoc(input[..i], input[i]);
        assert input[..i + 1] == input[..i] + [input[i]];
        extra := extra + ExtraFor(input[i]);
      }
      assert input[..|input|] == input;
    }

    /** Both ways of storing a string between quotes, with a NUL behind. */
    method StoreString(input: cstring, extra: nat)
      requires Valid() && buffer != null && extra == Extra(input) && offset + |Quoted(input)| + 2 <= length
      modifies buffer
      ensures Printed(old(Written()), Quoted(input))
    {
      hide Escape, Extra, Printed;
      ghost var before := Written();
      ExtraIsExact(input);
      if extra == 0 {
        Store([QUOTE] + input + [QUOTE, NUL]);
        assert [QUOTE] + input + [QUOTE, NUL] == Quoted(input) + [NUL];
      } else {
        StoreEscaped(input);
      }
      assert before + (Quoted(input) + [NUL]) == before + Quoted(input) + [NUL];
      StoredThenNul(before, Quoted(input));
    }

    /** What was stored with a NUL at its end is printed. */
    lemma StoredThenNul(before: bytes, text: cstring)
      requires Valid() && buffer != null && offset == |before|
      requires |before| + |text| < length && buffer[..|before| + |text| + 1] == before + text + [NUL]
      ensures Printed(before, text)
    {
      var end := |before| + |text|;
      assert buffer[..end] == buffer[..end + 1][..end];
      assert buffer[end] == buffer[..end + 1][end];
    }

    /** The second loop: the escaped bytes between quotes, with a NUL behind. */
    method StoreEscaped(input: cstring)
      requires Valid() && buffer != null && offset + |Quoted(input)| + 2 <= length
      modifies buffer
      ensures buffer[..offset + |Quoted(input)| + 1] == old(Written()) + Quoted(input) + [NUL]
    {
      hide EscapeByte, Escape;
      ghost var before := Written() + [QUOTE];
      ghost var all := |Escape(input)|;
      NothingEscaped();
      buffer[offset] := QUOTE;
      var at := offset + 1;
      assert buffer[..at] == before + [];
      for i := 0 to |input|
        invariant at == offset + 1 + |Escape(input[..i])| <= offset + 1 + all
        invariant buffer[..at] == before + Escape(input[..i])
      {
        EscapedNext(before, input, i);
        StoreEscape(input[i], at);
        at := at + |EscapeByte(input[i])|;
      }
      assert input[..|input|] == input;
      buffer[at] := QUOTE;
      buffer[at + 1] := NUL;
      assert buffer[..at + 2] == buffer[..at] + [QUOTE, NUL];
      assert before + Escape(input) + [QUOTE, NUL] == old(Written()) + Quoted(input) + [NUL];
    }

    /** One byte of the string, escaped or not. */
    method StoreEscape(b: byte, at: nat)
      requires Valid() && buffer != null && at + |EscapeByte(b)| < length
      modifies buffer
      ensures buffer[..at + |EscapeByte(b)|] == old(buffer[..at]) + EscapeByte(b)
    {
      hide EscapeByte, EscapeLetter, HexText;
      EscapeForm(b);
      ghost var before := buffer[..at];
      if b > 31 && b != QUOTE && b != BACKSLASH {
        Put(b, at);
      } else {
        Put(BACKSLASH, at);
        if EscapeLetter(b).Some? {
          Put(EscapeLetter(b).value, at + 1);
          assert before + [BACKSLASH] + [EscapeLetter(b).value] == before + EscapeByte(b);
        } else {
          StoreUnit(HexText(b), at + 1);
          assert before + [BACKSLASH] + ['u' as int] + HexText(b) == before + EscapeByte(b);
        }
      }
    }

    method Put(b: byte, at: nat)
      requires Valid() && buffer != null && at < length
      modifies buffer
      ensures buffer[..at + 1] == old(buffer[..at]) + [b]
    {
      buffer[at] := b;
    }

    /** "u%04x", which also writes a NUL behind its digits. */
    method StoreUnit(h: bytes, at: nat)
      requires Valid() && buffer != null && |h| == 4 && at + 5 < length
      modifies buffer
      ensures buffer[..at + 5] == old(buffer[..at]) + ['u' as int] + h
    {
      buffer[at] := 'u' as int;
      buffer[at + 1], buffer[at + 2], buffer[at + 3], buffer[at + 4] := h[0], h[1], h[2], h[3];
      buffer[at + 5] := NUL;
    }

    // ----- values -----------------------------------------------------------------------

    /** Reserve room for `text` and its NUL and copy both: the literals and raw text. */
    method PrintText(text: cstring) returns (ok: bool)
      requires Valid() && buffer != null
      modifies this`buffer, this`length, buffer
      ensures Continues()
      ensures ok == (buffer != null && offset + |text| + 2 <= old(Limit()))
      ensures ok ==> Printed(old(Written()), text)
    {
      ghost var before := Written();
      ok := Ensure(|text| + 1);
      if ok {
        Store(text + [NUL]);
        assert before + (text + [NUL]) == before + text + [NUL];
        StoredThenNul(before, text);
      }
    }

    /** `PrintText`, then past it: a separator or the end of a member. */
    method AppendText(text: cstring) returns (ok: bool)
      requires Valid() && buffer != null
      modifies this`buffer, this`length, this`offset, buffer
      ensures Continues()
      ensures ok == (buffer != null && old(offset) + |text| + 2 <= old(Limit()))
      ensures ok ==> Written() == old(Written()) + text
    {
      ok := PrintText(text);
      if ok {
        offset := offset + |text|;
      }
    }

    /** Reserve `needed` bytes, store `text` without a NUL and move past it: brackets, indentation, colons. */
    method Append(text: cstring, needed: nat) returns (ok: bool)
      requires Valid() && buffer != null && |text| <= needed
      modifies this`buffer, this`length, this`offset, buffer
      ensures Continues()
      ensures ok == (buffer != null && old(offset) + needed + 1 <= old(Limit()))
      ensures ok ==> Written() == old(Written()) + text
    {
      ok := Ensure(needed);
      if ok {
        Store(text);
        offset := offset + |text|;
      }
    }

    /** `PrintText` of the last piece of a value, which completes it. */
    method PrintLast(piece: cstring, ghost before: bytes, ghost text: cstring) returns (ok: bool)
      requires Valid() && buffer != null
      requires Written() + piece == before + text && |before| <= offset
      modifies this`buffer, this`length, buffer
      ensures Continues()
      ensures ok == (buffer != null && |before| + |text| + 2 <= old(Limit()))
      ensures ok ==> Printed(before, text)
    {
      assert |before + text| == |Written() + piece|;
      ok := PrintText(piece);
    }

    method PrintNumber(v: real) returns (ok: bool)
      requires Valid() && buffer != null
      modifies this`buffer, this`length, this`offset, buffer
      ensures Continues()
      ensures ok == (buffer != null && old(offset) + |NumberText(v, style)| + 2 <= old(Limit()))
      ensures ok ==> Printed(old(Written()), NumberText(v, style))
    {
      hide Decimal, Strtod, Close;
      var text: number_text := [];
      if v == SaturatedInt(v) as real {
        DecimalLength(SaturatedInt(v));
        text := Decimal(SaturatedInt(v));
      } else {
        text := style.short(v);
        var test := Strtod(text);
        if test.length == 0 || !Close(test.value, v) {
          text := style.long(v);
        }
      }
      ok := PrintText(text);
      if ok {
        offset := offset + |text|;
      }
    }

    method PrintValue(item: CJson, ghost s: Shape) returns (ok: bool)
      requires Valid() && buffer != null && Wf(s) && s.node == item
      modifies this, buffer
      ensures Continues()
      ensures var text := TextOf(TreeOf(s), style, old(depth));
              && ok == (buffer != null && old(offset) + |text| + 2 <= old(Limit()))
              && (ok ==> Printed(old(Written()), text) && depth == old(depth))
      decreases s, 4
    {
      hide Quoted, NumberText, TextOf, Wf, TreeOf, Printed, Limit;
      LeafText(s, style, depth);
      match item.kind
      case NullKind => ok := PrintText(NULL_TEXT);
      case FalseKind => ok := PrintText(FALSE_TEXT);
      case TrueKind => ok := PrintText(TRUE_TEXT);
      case NumberKind => ok := PrintNumber(item.valuedouble);
      case StringKind => ok := PrintStringPtr(item.valuestring);
      case RawKind => ok := PrintText(item.valuestring.value);
      case ArrayKind => ok := PrintArray(item, s);
      case ObjectKind => ok := PrintObject(item, s);
    }

    /** One turn of the loop of `print_array`: the value and, unless it is the last, the separator. */
    method PrintElement(current: CJson, ghost kid: Shape) returns (ok: bool)
      requires Valid() && buffer != null && Wf(kid) && kid.node == current
      modifies this, buffer
      ensures Continues()
      ensures var separator := if current.next != null then Separator(style) else [];
              var chunk := TextOf(TreeOf(kid), style, old(depth)) + separator;
              && ok == (buffer != null && old(offset) + |chunk| + 2 <= old(Limit()))
              && (ok ==> Written() == old(Written()) + chunk && depth == old(depth))
      decreases kid, 5
    {
      hide Wf, TreeOf, TextOf, Separator;
      ghost var before, text := Written(), TextOf(TreeOf(kid), style, depth);
      ok := PrintValue(current, kid);
      if !ok {
        return;
      }
      UpdateOffset(before, text);
      if current.next != null {
        ok := AppendText(Separator(style));
        assert (before + text) + Separator(style) == before + (text + Separator(style));
      }
    }

    /** The loop of `print_array`. */
    method PrintElements(ghost s: Shape, first: CJson?) returns (ok: bool)
      requires Valid() && buffer != null && Wf(s) && s.node.kind == ArrayKind && first == NodeAt(s, 0)
      modifies this, buffer
      ensures Continues()
      ensures TreeOf(s).Array?
      ensures var text := ItemsText(TreeOf(s).items, style, old(depth));
              && (ok ==> buffer != null && Written() == old(Written()) + text && depth == old(depth))
              && (!ok ==> buffer == null || old(offset) + |text| + 2 > old(Limit()))
      decreases s, 1
    {
      hide Wf, TreeOf, TextOf, ItemsText, Separator;
      IsArray(s);
      ghost var tree := TreeOf(s);
      ghost var vs := tree.items;
      ghost var goal := Written() + ItemsText(vs, style, depth);
      ItemsEnds(vs, style, depth);
      var current := first;
      ghost var k := 0;
      while current != null
        invariant Continues() && buffer != null && depth == old(depth)
        invariant Wf(s) && TreeOf(s) == tree
        invariant k <= |vs| && current == NodeAt(s, k)
        invariant Written() + ItemsText(vs[k..], style, depth) == goal
        decreases |vs| - k
      {
        ArrayKid(s, k);
        ItemsStep(vs, k, style, depth);
        ok := PrintElement(current, s.kids[k]);
        if !ok {
          return;
        }
        ArrayKid(s, k);
        current := current.next;
        k := k + 1;
      }
      ok := true;
    }

    /** An array up to its closing bracket. */
    method PrintOpenArray(item: CJson, ghost s: Shape) returns (ok: bool)
      requires Valid() && buffer != null && Wf(s) && s.node == item && item.kind == ArrayKind
      modifies this, buffer
      ensures Continues() && TreeOf(s).Array?
      ensures var text := ['[' as int] + ItemsText(TreeOf(s).items, style, old(depth) + 1);
              && (ok ==> buffer != null && Written() == old(Written()) + text && depth == old(depth) + 1)
              && (!ok ==> buffer == null || old(offset) + |text| + 2 > old(Limit()))
      decreases s, 2
    {
      hide Wf, TreeOf, ItemsText, Limit;
      IsArray(s);
      FirstKid(s);
      ok := Append(['[' as int], 1);
      if !ok {
        return;
      }
      depth := depth + 1;
      ok := PrintElements(s, item.child);
    }

    method PrintArray(item: CJson, ghost s: Shape) returns (ok: bool)
      requires Valid() && buffer != null && Wf(s) && s.node == item && item.kind == ArrayKind
      modifies this, buffer
      ensures Continues()
      ensures var text := TextOf(TreeOf(s), style, old(depth));
              && ok == (buffer != null && old(offset) + |text| + 2 <= old(Limit()))
              && (ok ==> Printed(old(Written()), text) && depth == old(depth))
      decreases s, 3
    {
      hide Wf, TreeOf, ItemsText, Printed, TextOf, Limit;
      ghost var before := Written();
      IsArray(s);
      ghost var text := TextOf(TreeOf(s), style, depth);
      ArrayText(TreeOf(s), style, depth);
      ok := PrintOpenArray(item, s);
      if !ok {
        return;
      }
      assert Written() + [']' as int] == before + text;
      ok := PrintLast([']' as int], before, text);
      if ok {
        depth := depth - 1;
      }
    }

    /** One turn of the loop of `print_object`: indentation, name, colon, value, comma and line end. */
    method PrintMember(current: CJson, ghost kid: Shape) returns (ok: bool)
      requires Valid() && buffer != null && Wf(kid) && kid.node == current && current.name.Some?
      modifies this, buffer
      ensures Continues()
      ensures var m := Member(current.name.value, TreeOf(kid));
              var chunk := Indent(style, old(depth)) + MemberText(m, style, old(depth), current.next != null);
              && ok == (buffer != null && old(offset) + |chunk| + 2 <= old(Limit()))
              && (ok ==> Written() == old(Written()) + chunk && depth == old(depth))
      decreases kid, 6
    {
      hide Wf, TreeOf, TextOf, Colon, Indent, MemberEnd, Quoted, MemberText, Limit;
      MemberLayout(Member(current.name.value, TreeOf(kid)), style, depth, current.next != null);
      var name, more := current.name.value, current.next != null;
      ghost var before, value := Written(), TextOf(TreeOf(kid), style, depth);
      MemberPieces(before, Indent(style, depth), Quoted(name), Colon(style), value, MemberEnd(style, more));
      ok := PrintName(name);
      if ok {
        ok := PrintNamed(current, more, kid);
      }
    }

    /** A member's value and what ends the member. */
    method PrintNamed(current: CJson, more: bool, ghost kid: Shape) returns (ok: bool)
      requires Valid() && buffer != null && Wf(kid) && kid.node == current
      modifies this, buffer
      ensures Continues()
      ensures var value, end := TextOf(TreeOf(kid), style, old(depth)), MemberEnd(style, more);
              && ok == (buffer != null && old(offset) + |value| + |end| + 2 <= old(Limit()))
              && (ok ==> Written() == old(Written()) + value + end && depth == old(depth))
      decreases kid, 5
    {
      hide Wf, TreeOf, TextOf, MemberEnd, Limit;
      ghost var here, value := Written(), TextOf(TreeOf(kid), style, depth);
      ok := PrintValue(current, kid);
      if ok {
        UpdateOffset(here, value);
        ok := AppendText(MemberEnd(style, more));
      }
    }

    /** What stands in front of a member's value. */
    method PrintName(name: cstring) returns (ok: bool)
      requires Valid() && buffer != null
      modifies this`buffer, this`length, this`offset, buffer
      ensures Continues()
      ensures ok ==> buffer != null && Written() == old(Written()) + Indent(style, depth) + Quoted(name) + Colon(style)
      ensures !ok ==> buffer == null ||
                      old(offset) + |Indent(style, depth)| + |Quoted(name)| + |Colon(style)| + 2 > old(Limit())
    {
      hide Colon, Indent, Quoted;
      ghost var before, indent := Written(), Indent(style, depth);
      ok := PrintIndent();
      if !ok {
        return;
      }
      ok := PrintStringPtr(Some(name));
      if !ok {
        return;
      }
      UpdateOffset(before + indent, Quoted(name));
      ok := Append(Colon(style), |Colon(style)|);
    }

    /** One tab per open container, if the print is formatted. */
    method PrintIndent() returns (ok: bool)
      requires Valid() && buffer != null
      modifies this`buffer, this`length, this`offset, buffer
      ensures Continues()
      ensures ok ==> buffer != null && Written() == old(Written()) + Indent(style, depth)
      ensures !ok ==> buffer == null || old(offset) + |Indent(style, depth)| + 1 > old(Limit())
    {
      ok := true;
      if style.format {
        ok := Append(Tabs(depth), depth);
      } else {
        assert Written() + [] == Written();
      }
    }

    /** The loop of `print_object`. */
    method PrintMembers(ghost s: Shape, first: CJson?) returns (ok: bool)
      requires Valid() && buffer != null && Wf(s) && s.node.kind == ObjectKind && first == NodeAt(s, 0)
      modifies this, buffer
      ensures Continues()
      ensures TreeOf(s).Object?
      ensures var text := MembersText(TreeOf(s).members, style, old(depth));
              && (ok ==> buffer != null && Written() == old(Written()) + text && depth == old(depth))
              && (!ok ==> buffer == null || old(offset) + |text| + 2 > old(Limit()))
      decreases s, 1
    {
      hide Wf, TreeOf, TextOf, MembersText, MemberText, Indent;
      IsObject(s);
      ghost var tree := TreeOf(s);
      ghost var ms := tree.members;
      ghost var goal := Written() + MembersText(ms, style, depth);
      MembersEnds(ms, style, depth);
      var current := first;
      ghost var k := 0;
      while current != null
        invariant Continues() && buffer != null && depth == old(depth)
        invariant Wf(s) && TreeOf(s) == tree
        invariant k <= |ms| && current == NodeAt(s, k)
        invariant Written() + MembersText(ms[k..], style, depth) == goal
        decreases |ms| - k
      {
        ObjectKid(s, k);
        MembersStep(ms, k, style, depth);
        ok := PrintMember(current, s.kids[k]);
        if !ok {
          return;
        }
        ObjectKid(s, k);
        current := current.next;
        k := k + 1;
      }
      ok := true;
    }

    /** An object up to the white space in front of its closing brace. */
    method PrintOpenObject(item: CJson, ghost s: Shape) returns (ok: bool)
      requires Valid() && buffer != null && Wf(s) && s.node == item && item.kind == ObjectKind
      modifies this, buffer
      ensures Continues() && TreeOf(s).Object?
      ensures var text := Open(style) + MembersText(TreeOf(s).members, style, old(depth) + 1);
              && (ok ==> buffer != null && Written() == old(Written()) + text && depth == old(depth) + 1)
              && (!ok ==> buffer == null || old(offset) + |text| + 2 > old(Limit()))
      decreases s, 2
    {
      hide Wf, TreeOf, MembersText, Open, Limit;
      IsObject(s);
      FirstKid(s);
      var open := Open(style);
      ok := Append(open, |open| + 1);
      if !ok {
        return;
      }
      depth := depth + 1;
      ok := PrintMembers(s, item.child);
    }

    method PrintObject(item: CJson, ghost s: Shape) returns (ok: bool)
      requires Valid() && buffer != null && Wf(s) && s.node == item && item.kind == ObjectKind
      modifies this, buffer
      ensures Continues()
      ensures var text := TextOf(TreeOf(s), style, old(depth));
              && ok == (buffer != null && old(offset) + |text| + 2 <= old(Limit()))
              && (ok ==> Printed(old(Written()), text) && depth == old(depth))
      decreases s, 3
    {
      hide Wf, TreeOf, MembersText, Printed, Indent, Open, TextOf, Limit;
      ghost var before := Written();
      IsObject(s);
      ghost var text := TextOf(TreeOf(s), style, depth);
      var close := Indent(style, depth) + ['}' as int];
      ObjectText(TreeOf(s), style, depth);
      ok := PrintOpenObject(item, s);
      if !ok {
        return;
      }
      assert Written() + close == before + text;
      ok := PrintLast(close, before, text);
      if ok {
        depth := depth - 1;
      }
    }
  }

  /**
   `cJSON_PrintPreallocated`: true exactly when the text and two more bytes
   fit, and then the caller's buffer holds the whole text and its NUL.
   (The header asks callers for five spare bytes; one behind the NUL is enough,
   and without it the print fails.)
   */
  method PrintPreallocated(item: CJson, storage: array?<byte>, style: Style, ghost s: Shape) returns (ok: bool)
    requires Wf(s) && s.node == item && (storage != null ==> storage.Length <= INT_MAX)
    modifies storage
    ensures var text := TextOf(TreeOf(s), style, 0);
            && ok == (storage != null && |text| + 2 <= storage.Length)
            && (ok ==> storage[..|text| + 1] == text + [NUL])
  {
    hide Wf, TreeOf, TextOf;
    if storage == null {
      return false;
    }
    var p := new PrintBuffer(storage, true, false, style);
    ghost var text := TextOf(TreeOf(s), style, 0);
    ok := p.PrintValue(item, s);
    if ok {
      assert storage[..|text| + 1] == storage[..|text|] + [NUL];
      assert p.Printed([], text);
    }
  }

  /**
   `print` behind cJSON_Print and cJSON_PrintUnformatted: a fresh block that
   holds the text and its NUL. Null if the allocator refuses, or the text is too
   long.
   */
  method Print(item: CJson, style: Style, hasMemory: bool, ghost s: Shape) returns (printed: array?<byte>)
    requires Wf(s) && s.node == item
    ensures var text := TextOf(TreeOf(s), style, 0);
            && (hasMemory ==> (printed != null <==> |text| + 2 <= INT_MAX))
            && (|text| + 2 > INT_MAX ==> printed == null)
            && (printed != null ==> fresh(printed) && printed[..] == text + [NUL])
  {
    hide Wf, TreeOf, TextOf, PrintBuffer.Printed;
    ghost var text := TextOf(TreeOf(s), style, 0);
    var storage := new byte[256];
    var p := new PrintBuffer(storage, false, hasMemory, style);
    var ok := p.PrintValue(item, s);
    if !ok {
      return null;
    }
    p.UpdateOffset([], text);
    var granted: bool := *;
    if !hasMemory && !granted {
      return null;
    }
    printed := Trimmed(p.buffer, p.offset);
  }

  /** The first `n` bytes and a NUL in an array of their own. */
  method Trimmed(source: array<byte>, n: nat) returns (printed: array<byte>)
    requires n <= source.Length
    ensures fresh(printed) && printed[..] == source[..n] + [NUL]
  {
    printed := new byte[n + 1];
    for i := 0 to n
      modifies printed
      invariant printed[..i] == source[..i]
    {
      printed[i] := source[i];
      assert source[..i + 1] == source[..i] + [source[i]] && printed[..i + 1] == printed[..i] + [source[i]];
    }
    printed[n] := NUL;
    assert printed[..] == printed[..n] + [NUL];
  }

  function Contents(text: Option<cstring>): cstring { if text.Some? then text.value else [] }

  // ----- what is left to print ------------------------------------------------------------

  ghost function NodeAt(s: Shape, k: nat): CJson? { if k < |s.kids| then s.kids[k].node else null }

  lemma IsArray(s: Shape)
    requires Wf(s) && s.node.kind == ArrayKind
    ensures TreeOf(s).Array? && |TreeOf(s).items| == |s.kids|
  {
  }

  lemma FirstKid(s: Shape)
    requires Wf(s)
    ensures s.node.child == NodeAt(s, 0)
  {
  }

  /** Child `k`: its value in the tree of the parent, and the node behind it. */
  lemma ArrayKid(s: Shape, k: nat)
    requires Wf(s) && s.node.kind == ArrayKind && k < |s.kids|
    ensures Wf(s.kids[k]) && TreeOf(s).Array? && |TreeOf(s).items| == |s.kids|
    ensures TreeOf(s.kids[k]) == TreeOf(s).items[k]
    ensures s.kids[k].node.next == NodeAt(s, k + 1)
  {
    var ns := NodesOf(s.kids);
    assert ns[k].next == After(ns, k);
  }

  lemma IsObject(s: Shape)
    requires Wf(s) && s.node.kind == ObjectKind
    ensures TreeOf(s).Object? && |TreeOf(s).members| == |s.kids|
  {
  }

  lemma ObjectKid(s: Shape, k: nat)
    requires Wf(s) && s.node.kind == ObjectKind && k < |s.kids|
    ensures Wf(s.kids[k]) && TreeOf(s).Object? && |TreeOf(s).members| == |s.kids|
    ensures s.kids[k].node.name.Some?
    ensures TreeOf(s).members[k] == Member(s.kids[k].node.name.value, TreeOf(s.kids[k]))
    ensures s.kids[k].node.next == NodeAt(s, k + 1)
  {
    var ns := NodesOf(s.kids);
    assert ns[k].next == After(ns, k);
  }

  /** The text of a value that is not a container, by the kind of its node. */
  lemma LeafText(s: Shape, st: Style, depth: nat)
    requires Wf(s)
    ensures var text := TextOf(TreeOf(s), st, depth);
            match s.node.kind
            case NullKind => text == NULL_TEXT
            case FalseKind => text == FALSE_TEXT
            case TrueKind => text == TRUE_TEXT
            case NumberKind => text == NumberText(s.node.valuedouble, st)
            case StringKind => s.node.valuestring.Some? && text == Quoted(s.node.valuestring.value)
            case RawKind => s.node.valuestring.Some? && text == s.node.valuestring.value
            case Invalid => false
            case _ => true
  {
    hide Quoted, NumberText, Linked, ItemsText, MembersText;
  }

  lemma QuotedLength(s: bytes)
    ensures |Quoted(s)| == |s| + Extra(s) + 2
  {
    ExtraIsExact(s);
  }

  lemma EscapeForm(b: byte)
    ensures if b > 31 && b != QUOTE && b != BACKSLASH then EscapeByte(b) == [b]
            else if EscapeLetter(b).Some? then EscapeByte(b) == [BACKSLASH, EscapeLetter(b).value]
            else EscapeByte(b) == [BACKSLASH, 'u' as int] + HexText(b)
  {
  }

  lemma NothingEscaped()
    ensures Escape([]) == [] && Extra([]) == 0
  {
  }

  /** The escaped text so far and that of the next byte. */
  lemma EscapedNext(before: bytes, s: bytes, i: nat)
    requires i < |s|
    ensures before + Escape(s[..i]) + EscapeByte(s[i]) == before + Escape(s[..i + 1])
    ensures |Escape(s[..i])| + |EscapeByte(s[i])| == |Escape(s[..i + 1])| <= |Escape(s)|
  {
    hide EscapeByte, Escape;
    assert s[..i + 1] == s[..i] + [s[i]];
    EscapeSnoc(s[..i], s[i]);
    EscapePrefix(s, i + 1);
  }

  lemma ArrayText(t: Json, st: Style, depth: nat)
    requires t.Array?
    ensures var items := ItemsText(t.items, st, depth + 1);
            TextOf(t, st, depth) == ['[' as int] + (items + [']' as int]) && |TextOf(t, st, depth)| == |items| + 2
  {
    hide ItemsText;
  }

  lemma ObjectText(t: Json, st: Style, depth: nat)
    requires t.Object?
    ensures var members, close := MembersText(t.members, st, depth + 1), Indent(st, depth) + ['}' as int];
            && TextOf(t, st, depth) == Open(st) + (members + close)
            && |TextOf(t, st, depth)| == |Open(st)| + |members| + |close|
  {
    hide MembersText, Open, Indent;
  }

  lemma MemberLayout(m: Member, st: Style, depth: nat, more: bool)
    ensures var value, end := TextOf(m.value, st, depth), MemberEnd(st, more);
            && MemberText(m, st, depth, more) == Quoted(m.name) + (Colon(st) + (value + end))
            && |MemberText(m, st, depth, more)| == |Quoted(m.name)| + |Colon(st)| + |value| + |end|
  {
    hide Quoted, Colon, TextOf, MemberEnd;
  }

  lemma MemberPieces(before: bytes, indent: bytes, quoted: bytes, colon: bytes, value: bytes, end: bytes)
    ensures before + indent + quoted + colon + value + end == before + (indent + (quoted + (colon + (value + end))))
  {
  }

  lemma MembersEnds(ms: seq<Member>, st: Style, depth: nat)
    ensures MembersText(ms[0..], st, depth) == MembersText(ms, st, depth)
    ensures MembersText(ms[|ms|..], st, depth) == []
  {
    assert ms[0..] == ms;
  }

  lemma MembersStep(ms: seq<Member>, k: nat, st: Style, depth: nat)
    requires k < |ms|
    ensures MembersText(ms[k..], st, depth) ==
            Indent(st, depth) + MemberText(ms[k], st, depth, k + 1 < |ms|) + MembersText(ms[k + 1..], st, depth)
  {
    hide MemberText, Indent;
    assert ms[k..][1..] == ms[k + 1..];
  }

  lemma ItemsEnds(vs: seq<Json>, st: Style, depth: nat)
    ensures ItemsText(vs[0..], st, depth) == ItemsText(vs, st, depth)
    ensures ItemsText(vs[|vs|..], st, depth) == []
  {
    assert vs[0..] == vs;
  }

  lemma ItemsStep(vs: seq<Json>, k: nat, st: Style, depth: nat)
    requires k < |vs|
    ensures ItemsText(vs[k..], st, depth) ==
            TextOf(vs[k], st, depth) + (if k + 1 < |vs| then Separator(st) else []) + ItemsText(vs[k + 1..], st, depth)
  {
    hide TextOf, Separator;
    assert vs[k..][1..] == vs[k + 1..];
  }

  lemma {:induction false} EscapePrefix(s: bytes, i: nat)
    requires i <= |s|
    ensures |Escape(s[..i])| <= |Escape(s)|
    decreases |s| - i
  {
    if i == |s| {
      assert s[..i] == s;
    } else {
      assert s[..i + 1] == s[..i] + [s[i]];
      EscapeSnoc(s[..i], s[i]);
      EscapePrefix(s, i + 1);
    }
  }
}

/**
 The layout of formatted text, as a reader of the bytes sees it: every line
 begins with one tab for each container that is open there.
 */
module JsonLayout {
  import opened CBytes
  import opened JsonTree
  import opened JsonNumber
  import opened JsonString
  import opened JsonLiteral
  import opened JsonGrammar
  import opened JsonText
  import opened JsonRoundTrip

  /**
   What is known behind a byte: how many containers are open, whether it is
   inside a string and behind a backslash there, how many tabs begin a line of
   which nothing else has been seen, and whether all lines began as they should.
   */
  datatype Where = Where(open: int, quoted: bool, escaped: bool, tabs: Option<nat>, good: bool)

  predicate Opening(b: byte) { b == '[' as int || b == '{' as int }
  predicate Closing(b: byte) { b == ']' as int || b == '}' as int }

  function Step(w: Where, b: byte): Where {
    if w.quoted then
      if w.escaped then w.(escaped := false)
      else if b == BACKSLASH then w.(escaped := true)
      else w.(quoted := b != QUOTE)
    else if b == NEWLINE then w.(tabs := Some(0))
    else if b == TAB && w.tabs.Some? then w.(tabs := Some(w.tabs.value + 1))
    else if b <= SPACE then w
    else
      var inside := if Closing(b) then w.open - 1 else w.open;
      Where(if Opening(b) then w.open + 1 else inside, b == QUOTE, false, None,
            w.good && (w.tabs.Some? ==> w.tabs.value == inside))
  }

  function Walk(w: Where, s: bytes): Where
    decreases |s|
  {
    if s == [] then w else Walk(Step(w, s[0]), s[1..])
  }

  /** Every line of the text begins with a tab for each open container, and all containers are closed. */
  predicate Indented(s: bytes) { Walk(Where(0, false, false, None, true), s) == Where(0, false, false, None, true) }

  lemma {:induction false} WalkConcat(w: Where, s: bytes, t: bytes)
    ensures Walk(w, s + t) == Walk(Walk(w, s), t)
    decreases |s|
  {
    hide Step;
    if s == [] {
      assert s + t == t;
    } else {
      assert (s + t)[0] == s[0] && (s + t)[1..] == s[1..] + t;
      WalkConcat(Step(w, s[0]), s[1..], t);
    }
  }

  lemma WalkOne(w: Where, b: byte)
    ensures Walk(w, [b]) == Step(w, b)
  {
    hide Step;
    assert Walk(Step(w, b), [b][1..]) == Step(w, b);
  }

  lemma WalkTwo(w: Where, a: byte, b: byte)
    ensures Walk(w, [a, b]) == Step(Step(w, a), b)
  {
    hide Step;
    assert [a, b][1..] == [b];
    WalkOne(Step(w, a), b);
  }

  /** In the middle of a line. */
  predicate Inline(w: Where) { !w.quoted && !w.escaped && w.tabs == None }

  /** Bytes that are visible and neither quotes nor brackets change nothing there. */
  predicate Plain(b: byte) { b > SPACE && b != QUOTE && !Opening(b) && !Closing(b) }

  lemma {:induction false} WalkPlain(w: Where, s: bytes)
    requires Inline(w) && forall i | 0 <= i < |s| :: Plain(s[i])
    ensures Walk(w, s) == w
    decreases |s|
  {
    if s != [] {
      WalkPlain(w, s[1..]);
    }
  }

  lemma NumberPlain(v: real, st: Style)
    requires Formatted(v, st)
    ensures forall i | 0 <= i < |NumberText(v, st)| :: Plain(NumberText(v, st)[i])
  {
    hide NumberText, NumberLike, GoodNumber, PartsText, PartsValue, Strtod;
    FormattedLike(v, st);
    var s := NumberText(v, st);
    PartsBytes(PartsOf(s));
  }

  // ----- strings ------------------------------------------------------------------------

  lemma {:induction false} WalkDigits(w: Where, h: bytes)
    requires w.quoted && !w.escaped && forall i | 0 <= i < |h| :: IsHex(h[i])
    ensures Walk(w, h) == w
    decreases |h|
  {
    if h != [] {
      WalkDigits(w, h[1..]);
    }
  }

  lemma WalkEscapeByte(w: Where, b: byte)
    requires w.quoted && !w.escaped
    ensures Walk(w, EscapeByte(b)) == w
  {
    hide HexText;
    if EscapeLetter(b).Some? {
      WalkTwo(w, BACKSLASH, EscapeLetter(b).value);
    } else if b < 32 {
      WalkConcat(w, U, HexText(b));
      WalkTwo(w, BACKSLASH, 'u' as int);
      WalkDigits(w, HexText(b));
    } else {
      WalkOne(w, b);
    }
  }

  lemma {:induction false} WalkEscape(w: Where, s: bytes)
    requires w.quoted && !w.escaped
    ensures Walk(w, Escape(s)) == w
    decreases |s|
  {
    hide EscapeByte, Step;
    if s != [] {
      WalkConcat(w, EscapeByte(s[0]), Escape(s[1..]));
      WalkEscapeByte(w, s[0]);
      WalkEscape(w, s[1..]);
    }
  }

  /** A string, which may begin a line. */
  lemma WalkQuoted(w: Where, s: bytes)
    requires !w.quoted && !w.escaped && (w.tabs.Some? ==> w.tabs.value == w.open)
    ensures Walk(w, Quoted(s)) == w.(tabs := None)
  {
    hide Escape;
    var q := Step(w, QUOTE);
    WalkConcat(w, [QUOTE] + Escape(s), [QUOTE]);
    WalkConcat(w, [QUOTE], Escape(s));
    WalkOne(w, QUOTE);
    WalkEscape(q, s);
    WalkOne(q, QUOTE);
  }

  // ----- values -------------------------------------------------------------------------

  lemma {:induction false} WalkTabs(w: Where, n: nat)
    requires !w.quoted && w.tabs.Some?
    ensures Walk(w, Tabs(n)) == w.(tabs := Some(w.tabs.value + n))
  {
    if n > 0 {
      WalkTabs(w, n - 1);
      WalkConcat(w, Tabs(n - 1), [TAB]);
      WalkOne(Walk(w, Tabs(n - 1)), TAB);
    }
  }

  lemma {:induction false} WalkText(w: Where, t: Json, st: Style, depth: nat)
    requires st.format && Readable(t, st) && Inline(w) && w.open == depth
    ensures Walk(w, TextOf(t, st, depth)) == w
    decreases t, 1
  {
    hide NumberText, Quoted, Walk, Step, Formatted, Plain;
    match t
    case Number(v) =>
      NumberPlain(v, st);
      WalkPlain(w, NumberText(v, st));
    case Text(s) => WalkQuoted(w, s);
    case Array(items) => WalkArray(w, items, st, depth);
    case Object(ms) => WalkObject(w, ms, st, depth);
    case _ => WordsPlain(); WalkPlain(w, TextOf(t, st, depth));
  }

  lemma WordsPlain()
    ensures forall i | 0 <= i < |NULL_TEXT| :: Plain(NULL_TEXT[i])
    ensures forall i | 0 <= i < |TRUE_TEXT| :: Plain(TRUE_TEXT[i])
    ensures forall i | 0 <= i < |FALSE_TEXT| :: Plain(FALSE_TEXT[i])
  {
  }

  lemma {:induction false} WalkArray(w: Where, items: seq<Json>, st: Style, depth: nat)
    requires st.format && (forall i | 0 <= i < |items| :: Readable(items[i], st)) && Inline(w) && w.open == depth
    ensures Walk(w, TextOf(Array(items), st, depth)) == w
    decreases items, 1
  {
    hide Walk, ItemsText, Readable;
    var body, inner := ItemsText(items, st, depth + 1), w.(open := depth + 1);
    WalkConcat(w, ['[' as int], body + [']' as int]);
    WalkOne(w, '[' as int);
    WalkConcat(inner, body, [']' as int]);
    WalkItems(inner, items, st, depth + 1);
    WalkOne(inner, ']' as int);
  }

  lemma {:induction false} WalkItems(w: Where, ts: seq<Json>, st: Style, depth: nat)
    requires st.format && (forall i | 0 <= i < |ts| :: Readable(ts[i], st)) && Inline(w) && w.open == depth
    ensures Walk(w, ItemsText(ts, st, depth)) == w
    decreases ts, 0
  {
    hide TextOf, Readable;
    if ts != [] {
      WalkText(w, ts[0], st, depth);
      if |ts| > 1 {
        var rest := ItemsText(ts[1..], st, depth);
        WalkConcat(w, TextOf(ts[0], st, depth), Separator(st) + rest);
        WalkConcat(w, Separator(st), rest);
        WalkTwo(w, ',' as int, SPACE);
        WalkItems(w, ts[1..], st, depth);
      }
    }
  }

  lemma {:induction false} WalkObject(w: Where, ms: seq<Member>, st: Style, depth: nat)
    requires st.format && (forall i | 0 <= i < |ms| :: Readable(ms[i].value, st)) && Inline(w) && w.open == depth
    ensures Walk(w, TextOf(Object(ms), st, depth)) == w
    decreases ms, 1
  {
    hide Walk, MembersText, Readable, Tabs;
    var body, inner := MembersText(ms, st, depth + 1), w.(open := depth + 1, tabs := Some(0));
    WalkConcat(w, Open(st), body + (Indent(st, depth) + ['}' as int]));
    WalkTwo(w, '{' as int, NEWLINE);
    assert Open(st) == ['{' as int, NEWLINE];
    WalkConcat(inner, body, Indent(st, depth) + ['}' as int]);
    WalkMembers(inner, ms, st, depth + 1);
    WalkConcat(inner, Indent(st, depth), ['}' as int]);
    WalkTabs(inner, depth);
    WalkOne(inner.(tabs := Some(depth)), '}' as int);
  }

  /** The members stand on lines of their own. */
  lemma {:induction false} WalkMembers(w: Where, ms: seq<Member>, st: Style, depth: nat)
    requires st.format && (forall i | 0 <= i < |ms| :: Readable(ms[i].value, st))
    requires !w.quoted && !w.escaped && w.open == depth && w.tabs == Some(0)
    ensures Walk(w, MembersText(ms, st, depth)) == w
    decreases ms, 0
  {
    hide Walk, MemberText, Readable, Tabs, Step;
    if ms == [] {
      WalkNothing(w);
    } else {
      var member, rest := MemberText(ms[0], st, depth, |ms| > 1), MembersText(ms[1..], st, depth);
      var begun := w.(tabs := Some(depth));
      WalkConcat(w, Indent(st, depth), member + rest);
      WalkTabs(w, depth);
      WalkConcat(begun, member, rest);
      WalkMember(begun, ms[0], st, depth, |ms| > 1);
      WalkMembers(w, ms[1..], st, depth);
    }
  }

  lemma WalkNothing(w: Where)
    ensures Walk(w, []) == w
  {
  }

  /** A member from its indentation to the end of its line. */
  lemma {:induction false} WalkMember(w: Where, m: Member, st: Style, depth: nat, more: bool)
    requires st.format && Readable(m.value, st)
    requires !w.quoted && !w.escaped && w.open == depth && w.tabs == Some(depth)
    ensures Walk(w, MemberText(m, st, depth, more)) == w.(tabs := Some(0))
    decreases m, 0
  {
    hide Walk, TextOf, Quoted, Readable;
    var v, inline := TextOf(m.value, st, depth), w.(tabs := None);
    WalkConcat(w, Quoted(m.name), Colon(st) + (v + MemberEnd(st, more)));
    WalkQuoted(w, m.name);
    WalkConcat(inline, Colon(st), v + MemberEnd(st, more));
    WalkTwo(inline, ':' as int, TAB);
    WalkConcat(inline, v, MemberEnd(st, more));
    WalkText(inline, m.value, st, depth);
    if more {
      assert MemberEnd(st, more) == [',' as int, NEWLINE];
      WalkTwo(inline, ',' as int, NEWLINE);
    } else {
      assert MemberEnd(st, more) == [NEWLINE];
      WalkOne(inline, NEWLINE);
    }
  }

  /** Formatted text is indented by one tab for each container that is open. */
  lemma FormattedText(t: Json, st: Style)
    requires st.format && Readable(t, st)
    ensures Indented(TextOf(t, st, 0))
  {
    WalkText(Where(0, false, false, None, true), t, st, 0);
  }
}

/**
 The printed text of a tree is a spelling of it, so parsing gives it back: the
 same tree, except that numbers that are no `int`s are what their text reads as.
 */
module JsonRoundTrip {
  import opened CBytes
  import opened JsonTree
  import opened JsonNumber
  import opened JsonLiteral
  import opened JsonGrammar
  import opened JsonText
  import opened JsonSyntax
  import opened JsonCompare

  // ----- what the text of a number reads as -----------------------------------------

  /** The text is that of a number, all of it, and starts like one. */
  predicate NumberLike(s: bytes) { s != [] && LeadsNumber(s[0]) && Strtod(s).length == |s| }

  lemma IntLike(v: real, st: Style)
    requires PrintsAsInt(v)
    ensures NumberLike(NumberText(v, st)) && Strtod(NumberText(v, st)).value == v
  {
    hide Strtod, Decimal, PartsText, PartsValue, GoodNumber;
    DecimalValue(SaturatedInt(v));
    StrtodReads(DecimalParts(SaturatedInt(v)));
  }

  /** What `sprintf` gives for a number that is no `int` is the text of a number. */
  predicate Formatted(v: real, st: Style) { !PrintsAsInt(v) ==> NumberLike(st.short(v)) && NumberLike(st.long(v)) }

  lemma FormattedLike(v: real, st: Style)
    requires Formatted(v, st)
    ensures NumberLike(NumberText(v, st))
  {
    hide NumberLike, Strtod, Decimal;
    if PrintsAsInt(v) {
      IntLike(v, st);
    }
  }

  /** Nothing is raw, and all numbers have texts: the trees whose text can be read back. */
  predicate Readable(t: Json, st: Style) {
    match t
    case Number(v) => Formatted(v, st)
    case Raw(_) => false
    case Array(items) => forall i | 0 <= i < |items| :: Readable(items[i], st)
    case Object(members) => forall i | 0 <= i < |members| :: Readable(members[i].value, st)
    case _ => true
  }

  /** The tree with every number replaced by what its text reads as. */
  function Reread(t: Json, st: Style): Json {
    match t
    case Number(v) => Number(Strtod(NumberText(v, st)).value)
    case Array(items) => Array(RereadItems(items, st))
    case Object(members) => Object(RereadMembers(members, st))
    case _ => t
  }

  function RereadItems(ts: seq<Json>, st: Style): (r: seq<Json>)
    ensures |r| == |ts| && forall i | 0 <= i < |ts| :: r[i] == Reread(ts[i], st)
  {
    if ts == [] then [] else [Reread(ts[0], st)] + RereadItems(ts[1..], st)
  }

  function RereadMembers(ms: seq<Member>, st: Style): (r: seq<Member>)
    ensures |r| == |ms| && forall i | 0 <= i < |ms| :: r[i] == Member(ms[i].name, Reread(ms[i].value, st))
  {
    if ms == [] then [] else [Member(ms[0].name, Reread(ms[0].value, st))] + RereadMembers(ms[1..], st)
  }

  // ----- the spelling that is printed -----------------------------------------------

  predicate IsPartsOf(n: NumberParts, s: bytes) {
    GoodNumber(n) && PartsText(n) == s && PartsValue(n) == Strtod(s).value
  }

  lemma PartsExist(s: bytes)
    requires NumberLike(s)
    ensures exists n: NumberParts :: IsPartsOf(n, s)
  {
    hide Strtod, PartsText, PartsValue, GoodNumber;
    var n := StrtodWrites(s);
    assert s[..|s|] == s;
    assert IsPartsOf(n, s);
  }

  ghost function PartsOf(s: bytes): (n: NumberParts)
    requires NumberLike(s)
    ensures IsPartsOf(n, s)
  {
    PartsExist(s);
    var n: NumberParts :| IsPartsOf(n, s);
    n
  }

  function ItemGap(st: Style): bytes { if st.format then [SPACE] else [] }
  function ColonGap(st: Style): bytes { if st.format then [TAB] else [] }

  /** The printed form of a tree inside `depth` containers. */
  ghost function AsWord(t: Json, st: Style, depth: nat): Spelling
    requires Readable(t, st)
    decreases t
  {
    match t
    case Null => NullWord
    case False => FalseWord
    case True => TrueWord
    case Number(v) => FormattedLike(v, st); NumberWord(PartsOf(NumberText(v, st)))
    case Text(s) => StringWord(Escape(s), s)
    case Array(items) => ArrayWord([], AsItems(items, st, depth + 1, []))
    case Object(members) =>
      ObjectWord(Newline(st) + Indent(st, depth), AsMembers(members, st, depth + 1, Newline(st) + Indent(st, depth)))
  }

  ghost function AsItems(ts: seq<Json>, st: Style, depth: nat, before: bytes): (r: seq<ItemWord>)
    requires forall i | 0 <= i < |ts| :: Readable(ts[i], st)
    ensures |r| == |ts|
    decreases ts
  {
    if ts == [] then []
    else [ItemWord(before, AsWord(ts[0], st, depth), [])] + AsItems(ts[1..], st, depth, ItemGap(st))
  }

  /** `close` is what stands between the last member and the closing brace. */
  ghost function AsMembers(ms: seq<Member>, st: Style, depth: nat, close: bytes): (r: seq<MemberWord>)
    requires forall i | 0 <= i < |ms| :: Readable(ms[i].value, st)
    ensures |r| == |ms|
    decreases ms
  {
    if ms == [] then [] else [AsMember(ms[0], st, depth, if |ms| == 1 then close else [])]
                             + AsMembers(ms[1..], st, depth, close)
  }

  ghost function AsMember(m: Member, st: Style, depth: nat, after: bytes): MemberWord
    requires Readable(m.value, st)
    decreases m
  {
    MemberWord(Newline(st) + Indent(st, depth), Escape(m.name), m.name, [],
               ItemWord(ColonGap(st), AsWord(m.value, st, depth), after))
  }

  lemma BlankIndent(st: Style, depth: nat)
    ensures Blank(Newline(st) + Indent(st, depth)) && Blank(ItemGap(st)) && Blank(ColonGap(st)) && Blank([])
  {
  }

  lemma NumberGood(s: bytes)
    requires NumberLike(s) && |s| <= NUMBER_TEXT_ROOM
    ensures NumberToken(PartsOf(s)) && PartsText(PartsOf(s)) == s && PartsValue(PartsOf(s)) == Strtod(s).value
  {
    hide Strtod, PartsText, PartsValue, GoodNumber;
  }

  lemma EscapeGood(s: cstring)
    ensures StringToken(Escape(s), s) && InQuotes(Escape(s)) == Quoted(s)
  {
    hide StringToken, Escape, Meaning, LiteralText;
    EscapeIsLiteral(s);
    LiteralToken(AsLiteral(s));
  }

  lemma ScalarGood(t: Json, st: Style, depth: nat)
    requires Readable(t, st) && !t.Array? && !t.Object?
    ensures Good(AsWord(t, st, depth)) && Denoted(AsWord(t, st, depth)) == Reread(t, st)
  {
    hide NumberToken, StringToken, NumberLike, NumberText, Strtod, PartsValue, Escape, Formatted;
    match t
    case Number(v) => FormattedLike(v, st); NumberGood(NumberText(v, st)); TokenIsGood(PartsOf(NumberText(v, st)));
    case Text(s) => EscapeGood(s);
    case _ =>
  }

  /** The printed form is well spelled and stands for the tree. */
  lemma {:induction false} WordGood(t: Json, st: Style, depth: nat)
    requires Readable(t, st)
    ensures Good(AsWord(t, st, depth)) && Denoted(AsWord(t, st, depth)) == Reread(t, st)
    decreases t, 1
  {
    hide Blank, GoodItem, GoodMember, NumberText, Strtod, Newline, Indent, Formatted;
    match t
    case Array(items) =>
      BlankIndent(st, depth);
      ItemsGood(items, st, depth + 1, []);
    case Object(ms) =>
      BlankIndent(st, depth);
      MembersGood(ms, st, depth + 1, Newline(st) + Indent(st, depth));
    case _ => ScalarGood(t, st, depth);
  }

  lemma TokenIsGood(n: NumberParts)
    requires NumberToken(n)
    ensures GoodNumber(n)
  {
  }

  lemma {:induction false} ItemsGood(ts: seq<Json>, st: Style, depth: nat, before: bytes)
    requires (forall i | 0 <= i < |ts| :: Readable(ts[i], st)) && Blank(before)
    ensures forall i | 0 <= i < |ts| :: GoodItem(AsItems(ts, st, depth, before)[i])
    ensures DenotedItems(AsItems(ts, st, depth, before)) == RereadItems(ts, st)
    decreases ts, 0
  {
    hide AsWord, Good, Denoted, Reread, Blank, Readable;
    if ts != [] {
      BlankIndent(st, depth);
      WordGood(ts[0], st, depth);
      ItemsGood(ts[1..], st, depth, ItemGap(st));
      var x := ItemWord(before, AsWord(ts[0], st, depth), []);
      var rest := AsItems(ts[1..], st, depth, ItemGap(st));
      assert AsItems(ts, st, depth, before) == [x] + rest;
      assert ([x] + rest)[1..] == rest && GoodItem(x);
    }
  }

  lemma {:induction false} MembersGood(ms: seq<Member>, st: Style, depth: nat, close: bytes)
    requires (forall i | 0 <= i < |ms| :: Readable(ms[i].value, st)) && Blank(close)
    ensures forall i | 0 <= i < |ms| :: GoodMember(AsMembers(ms, st, depth, close)[i])
    ensures DenotedMembers(AsMembers(ms, st, depth, close)) == RereadMembers(ms, st)
    decreases ms, 0
  {
    hide AsWord, Good, Denoted, Reread, Blank, Readable, StringToken, Escape, Newline, Indent, ColonGap, GoodItem;
    if ms != [] {
      BlankIndent(st, depth);
      WordGood(ms[0].value, st, depth);
      EscapeGood(ms[0].name);
      MembersGood(ms[1..], st, depth, close);
      var x := AsMember(ms[0], st, depth, if |ms| == 1 then close else []);
      var rest := AsMembers(ms[1..], st, depth, close);
      assert AsMembers(ms, st, depth, close) == [x] + rest;
      ItemIsGood(x.item);
      assert ([x] + rest)[1..] == rest && GoodMember(x);
    }
  }

  lemma ItemIsGood(x: ItemWord)
    requires Blank(x.before) && Good(x.value) && Blank(x.after)
    ensures GoodItem(x)
  {
  }

  // ----- its text is the text that is printed -----------------------------------------

  lemma {:induction false} WordText(t: Json, st: Style, depth: nat)
    requires Readable(t, st)
    ensures Spell(AsWord(t, st, depth)) == TextOf(t, st, depth)
    decreases t, 1
  {
    hide NumberLike, NumberText, Strtod, PartsText, Escape, Indent, Newline, SpellItems, SpellMembers;
    hide ItemsText, MembersText, Formatted;
    match t
    case Number(v) => FormattedLike(v, st); NumberGood(NumberText(v, st));
    case Array(items) =>
      if items != [] {
        ItemsTexts(items, st, depth + 1, []);
      }
      NoItems(st, depth + 1);
      assert [] + ItemsText(items, st, depth + 1) == ItemsText(items, st, depth + 1);
    case Object(ms) =>
      if ms != [] {
        MembersTexts(ms, st, depth + 1, Indent(st, depth));
      }
      NoItems(st, depth + 1);
      Braces(Newline(st), MembersText(ms, st, depth + 1), Indent(st, depth));
    case _ =>
  }

  lemma NoItems(st: Style, depth: nat)
    ensures ItemsText([], st, depth) == [] && MembersText([], st, depth) == []
  {
  }

  /** Moving brackets: all that an object without its opening brace consists of. */
  lemma Braces(newline: bytes, body: bytes, indent: bytes)
    ensures ['{' as int] + newline + (body + (indent + ['}' as int]))
         == ['{' as int] + (newline + body + indent + ['}' as int])
    ensures newline + [] + indent == newline + indent
  {
  }

  lemma {:induction false} ItemsTexts(ts: seq<Json>, st: Style, depth: nat, before: bytes)
    requires ts != [] && forall i | 0 <= i < |ts| :: Readable(ts[i], st)
    ensures SpellItems(AsItems(ts, st, depth, before)) == before + ItemsText(ts, st, depth)
    decreases ts, 0
  {
    hide AsWord, Spell, TextOf, Readable, ItemGap, Separator;
    WordText(ts[0], st, depth);
    var x, rest := ItemWord(before, AsWord(ts[0], st, depth), []), AsItems(ts[1..], st, depth, ItemGap(st));
    var xs := AsItems(ts, st, depth, before);
    assert xs == [x] + rest && xs[1..] == rest;
    ItemsUnfold(xs);
    if |ts| == 1 {
      assert [] + MoreItems(xs) == [];
      assert TextOf(ts[0], st, depth) + [] == TextOf(ts[0], st, depth);
    } else {
      ItemsTexts(ts[1..], st, depth, ItemGap(st));
      SeparatorGap(st, ItemsText(ts[1..], st, depth));
      assert [] + MoreItems(xs) == MoreItems(xs);
    }
  }

  lemma SeparatorGap(st: Style, rest: bytes)
    ensures [',' as int] + (ItemGap(st) + rest) == Separator(st) + rest
  {
  }

  /** A member up to the end of its value, behind the indentation. */
  function MemberHead(m: Member, st: Style, depth: nat): bytes {
    Quoted(m.name) + (Colon(st) + TextOf(m.value, st, depth))
  }

  lemma HeadSpelled(m: Member, st: Style, depth: nat, after: bytes, more: bytes)
    requires Readable(m.value, st) && Spell(AsWord(m.value, st, depth)) == TextOf(m.value, st, depth)
    ensures SpellMember(AsMember(m, st, depth, after), more)
         == Newline(st) + Indent(st, depth) + (MemberHead(m, st, depth) + (after + more))
  {
    hide AsWord, Spell, TextOf, Readable, Quoted, Escape, Newline, Indent, Colon, ColonGap, InQuotes;
    EscapeGood(m.name);
    ColonSpelled(st);
    Flattened(Quoted(m.name), ColonGap(st), TextOf(m.value, st, depth), after + more);
  }

  lemma ColonSpelled(st: Style)
    ensures Colon(st) == [':' as int] + ColonGap(st)
  {
  }

  lemma Flattened(q: bytes, gap: bytes, v: bytes, z: bytes)
    ensures q + ([] + ([':' as int] + (gap + (v + z)))) == q + ([':' as int] + gap + v) + z
  {
  }

  lemma HeadPrinted(m: Member, st: Style, depth: nat, more: bool)
    ensures MemberText(m, st, depth, more) == MemberHead(m, st, depth) + MemberEnd(st, more)
  {
    hide TextOf, Quoted, Colon, MemberEnd;
    Grouped(Quoted(m.name), Colon(st), TextOf(m.value, st, depth), MemberEnd(st, more));
  }

  lemma Grouped(q: bytes, c: bytes, v: bytes, e: bytes)
    ensures q + (c + (v + e)) == q + (c + v) + e
  {
  }

  /** The newline behind a comma belongs to the member that follows it. */
  lemma Shifted(n: bytes, i: bytes, h: bytes, t: bytes, last: bytes)
    ensures n + (i + (h + ([',' as int] + n) + t)) + last == n + i + (h + ([] + ([',' as int] + (n + t + last))))
  {
  }

  lemma ShiftedLast(n: bytes, i: bytes, h: bytes, last: bytes)
    ensures n + (i + (h + ([] + n) + [])) + last == n + i + (h + (n + last + []))
  {
  }

  lemma {:induction false} MembersTexts(ms: seq<Member>, st: Style, depth: nat, last: bytes)
    requires ms != [] && forall i | 0 <= i < |ms| :: Readable(ms[i].value, st)
    ensures Newline(st) + MembersText(ms, st, depth) + last
         == SpellMembers(AsMembers(ms, st, depth, Newline(st) + last))
    decreases ms, 0
  {
    hide AsWord, AsMember, Spell, TextOf, Readable, Newline, Indent, MemberText, MemberHead, SpellMember;
    var n, m, close := Newline(st), ms[0], Newline(st) + last;
    var after := if |ms| == 1 then close else [];
    var x, rest := AsMember(m, st, depth, after), AsMembers(ms[1..], st, depth, close);
    var xs := AsMembers(ms, st, depth, close);
    assert xs == [x] + rest && xs[1..] == rest;
    WordText(m.value, st, depth);
    HeadSpelled(m, st, depth, after, MoreMembers(xs));
    HeadPrinted(m, st, depth, |ms| > 1);
    if |ms| > 1 {
      MembersTexts(ms[1..], st, depth, last);
      Shifted(n, Indent(st, depth), MemberHead(m, st, depth), MembersText(ms[1..], st, depth), last);
    } else {
      ShiftedLast(n, Indent(st, depth), MemberHead(m, st, depth), last);
    }
  }

  // ----- round trips --------------------------------------------------------------------

  lemma {:induction false} RereadNesting(t: Json, st: Style)
    ensures Nesting(Reread(t, st)) == Nesting(t)
    decreases t, 1
  {
    hide NumberText, Strtod;
    match t
    case Array(items) => RereadItemsNesting(items, st);
    case Object(ms) => RereadMembersNesting(ms, st);
    case _ =>
  }

  lemma {:induction false} RereadItemsNesting(ts: seq<Json>, st: Style)
    ensures NestingItems(RereadItems(ts, st)) == NestingItems(ts)
    decreases ts, 0
  {
    hide NumberText, Strtod, Reread, Nesting;
    if ts != [] {
      RereadNesting(ts[0], st);
      RereadItemsNesting(ts[1..], st);
      assert RereadItems(ts, st)[1..] == RereadItems(ts[1..], st);
    }
  }

  lemma {:induction false} RereadMembersNesting(ms: seq<Member>, st: Style)
    ensures NestingMembers(RereadMembers(ms, st)) == NestingMembers(ms)
    decreases ms, 0
  {
    hide NumberText, Strtod, Reread, Nesting;
    if ms != [] {
      RereadNesting(ms[0].value, st);
      RereadMembersNesting(ms[1..], st);
      assert RereadMembers(ms, st)[1..] == RereadMembers(ms[1..], st);
    }
  }

  /** Wherever the printed text of a tree stands, it parses to the tree that its numbers read as. */
  lemma ValueRoundTrip(c: bytes, off: nat, t: Json, st: Style, pd: nat, depth: nat, limit: nat)
    requires Terminated(c) && Readable(t, st) && Has(c, off, TextOf(t, st, pd))
    requires off + |TextOf(t, st, pd)| < |c| && !IsNumberByte(c[off + |TextOf(t, st, pd)|])
    requires depth + Nesting(t) <= limit
    ensures ParseValue(c, off, depth, limit) == Ok(Reread(t, st), off + |TextOf(t, st, pd)|)
  {
    hide Has, Readable, ParseValue, TextOf, Nesting, Reread, AsWord, Spell, Denoted, Good;
    WordGood(t, st, pd);
    WordText(t, st, pd);
    RereadNesting(t, st);
    ValueAccepted(c, off, AsWord(t, st, pd), depth, limit);
  }

  /**
   The whole-tree round trip: `cJSON_ParseWithOpts` accepts the printed text of
   a readable tree exactly when the tree is nested at most 1000 deep, and then
   it returns that tree, with every key in its place and every number as its
   text reads, and consumes all the text.
   */
  lemma RoundTrip(t: Json, st: Style, strict: bool)
    requires Readable(t, st)
    ensures Nesting(t) <= NESTING_LIMIT ==>
      Parse(TextOf(t, st, 0), strict) == Accepted(Reread(t, st), |TextOf(t, st, 0)|)
    ensures Nesting(t) > NESTING_LIMIT ==> Parse(TextOf(t, st, 0), strict).Rejected?
  {
    hide Readable, Parse, TextOf, Nesting, Reread, AsWord, Spell, Denoted, Good;
    WordGood(t, st, 0);
    WordText(t, st, 0);
    RereadNesting(t, st);
    var d := Document(false, [], AsWord(t, st, 0), []);
    assert DocumentText(d) == TextOf(t, st, 0);
    DocumentParses(d, TextOf(t, st, 0), strict);
  }

  // ----- what becomes of the numbers ------------------------------------------------------

  predicate RawFree(t: Json) {
    match t
    case Raw(_) => false
    case Array(items) => forall i | 0 <= i < |items| :: RawFree(items[i])
    case Object(members) => forall i | 0 <= i < |members| :: RawFree(members[i].value)
    case _ => true
  }

  /** The text that is chosen for a number that is no `int` reads as the number. */
  predicate ReadsAs(v: real, st: Style) {
    PrintsAsInt(v) || Strtod(if Recovers(st.short(v), v) then st.short(v) else st.long(v)).value == v
  }

  predicate Exact(t: Json, st: Style) {
    match t
    case Number(v) => ReadsAs(v, st)
    case Array(items) => forall i | 0 <= i < |items| :: Exact(items[i], st)
    case Object(members) => forall i | 0 <= i < |members| :: Exact(members[i].value, st)
    case _ => true
  }

  lemma NumberExact(v: real, st: Style)
    ensures Strtod(NumberText(v, st)).value == v <==> ReadsAs(v, st)
  {
    hide Strtod, Decimal;
    if PrintsAsInt(v) {
      IntLike(v, st);
    }
  }

  /** A tree is read back exactly if the text of every number reads as the number. */
  lemma {:induction false} RereadExact(t: Json, st: Style)
    ensures Reread(t, st) == t <==> Exact(t, st)
  {
    hide NumberText, Strtod, ReadsAs;
    match t
    case Number(v) => NumberExact(v, st);
    case Array(items) =>
      forall i | 0 <= i < |items| ensures Reread(items[i], st) == items[i] <==> Exact(items[i], st) {
        RereadExact(items[i], st);
      }
      assert RereadItems(items, st) == items <==> forall i | 0 <= i < |items| :: Reread(items[i], st) == items[i];
    case Object(ms) =>
      forall i | 0 <= i < |ms| ensures Reread(ms[i].value, st) == ms[i].value <==> Exact(ms[i].value, st) {
        RereadExact(ms[i].value, st);
      }
      assert RereadMembers(ms, st) == ms
        <==> forall i | 0 <= i < |ms| :: Member(ms[i].name, Reread(ms[i].value, st)) == ms[i];
    case _ =>
  }

  /** With nothing but `int`s there is nothing to ask of `sprintf`. */
  lemma {:induction false} IntsReadable(t: Json, st: Style)
    requires IntsOnly(t)
    ensures Exact(t, st) && (RawFree(t) ==> Readable(t, st))
  {
    hide NumberText, Strtod, NumberLike, PrintsAsInt;
    match t
    case Array(items) =>
      forall i | 0 <= i < |items| ensures Exact(items[i], st) && (RawFree(items[i]) ==> Readable(items[i], st)) {
        IntsReadable(items[i], st);
      }
    case Object(ms) =>
      forall i | 0 <= i < |ms| ensures Exact(ms[i].value, st) && (RawFree(ms[i].value) ==> Readable(ms[i].value, st)) {
        IntsReadable(ms[i].value, st);
      }
    case _ =>
  }

  /** 17 digits recover every number that is no `int`. */
  predicate Recovered(t: Json, st: Style) {
    match t
    case Number(v) => PrintsAsInt(v) || Recovers(st.long(v), v)
    case Array(items) => forall i | 0 <= i < |items| :: Recovered(items[i], st)
    case Object(members) => forall i | 0 <= i < |members| :: Recovered(members[i].value, st)
    case _ => true
  }

  lemma NumberRecovered(v: real, st: Style)
    requires PrintsAsInt(v) || Recovers(st.long(v), v)
    ensures Close(v, Strtod(NumberText(v, st)).value)
  {
    hide Strtod, Decimal, Close;
    if PrintsAsInt(v) {
      IntLike(v, st);
      CloseReflexive(v);
    }
    CloseSymmetric(v, Strtod(NumberText(v, st)).value);
  }

  lemma CloseReflexive(v: real)
    ensures Close(v, v)
  {
    assert Magnitude(v) * DBL_EPSILON >= 0.0;
  }

  lemma CloseSymmetric(x: real, y: real)
    ensures Close(x, y) <==> Close(y, x)
  {
    assert Magnitude(x - y) == Magnitude(y - x);
  }

  lemma {:induction false} RereadAlike(t: Json, st: Style, caseSensitive: bool)
    requires Recovered(t, st)
    ensures Alike(Canon(t, caseSensitive), Canon(Reread(t, st), caseSensitive))
    decreases t, 1
  {
    hide NumberText, Strtod, Close;
    match t
    case Number(v) => NumberRecovered(v, st);
    case Array(items) =>
      forall i | 0 <= i < |items|
        ensures Alike(Canon(items[i], caseSensitive), Canon(Reread(items[i], st), caseSensitive))
      {
        RereadAlike(items[i], st, caseSensitive);
      }
    case Object(ms) => RereadMembersAlike(ms, st, caseSensitive);
    case _ =>
  }

  lemma {:induction false} RereadMembersAlike(ms: seq<Member>, st: Style, caseSensitive: bool)
    requires forall i | 0 <= i < |ms| :: Recovered(ms[i].value, st)
    ensures var m, n := CanonMembers(ms, caseSensitive), CanonMembers(RereadMembers(ms, st), caseSensitive);
            m.Keys == n.Keys && forall k | k in m :: Alike(m[k], n[k])
    decreases ms, 0
  {
    hide Recovered, Alike, Canon, Reread;
    if ms != [] {
      RereadAlike(ms[0].value, st, caseSensitive);
      RereadMembersAlike(ms[1..], st, caseSensitive);
      assert RereadMembers(ms, st)[1..] == RereadMembers(ms[1..], st);
    }
  }

  lemma {:induction false} RereadUnique(t: Json, st: Style, caseSensitive: bool)
    requires UniqueKeys(t, caseSensitive)
    ensures UniqueKeys(Reread(t, st), caseSensitive)
  {
    hide NumberText, Strtod, Key;
    match t
    case Array(items) =>
      forall i | 0 <= i < |items| ensures UniqueKeys(Reread(items[i], st), caseSensitive) {
        RereadUnique(items[i], st, caseSensitive);
      }
    case Object(ms) =>
      forall i | 0 <= i < |ms| ensures UniqueKeys(Reread(ms[i].value, st), caseSensitive) {
        RereadUnique(ms[i].value, st, caseSensitive);
      }
    case _ =>
  }

  /**
   A tree with unique keys compares equal to what its text reads as, whatever
   its numbers are, if 17 digits recover them.
   */
  lemma RereadCompares(t: Json, st: Style, caseSensitive: bool)
    requires UniqueKeys(t, caseSensitive) && Recovered(t, st)
    ensures Compare(t, Reread(t, st), caseSensitive)
  {
    hide Compare, UniqueKeys, Alike, Canon, Reread, Recovered;
    RereadAlike(t, st, caseSensitive);
    RereadUnique(t, st, caseSensitive);
    CompareUnique(t, Reread(t, st), caseSensitive);
  }
}

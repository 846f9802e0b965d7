/**
 The texts that the parser accepts, as a syntax of its own: values with white
 space around every token.  Every spelling of a value parses to it, and what
 parses is a spelling.
 */
module JsonSyntax {
  import opened CBytes
  import opened Integers
  import opened JsonTree
  import opened JsonNumber
  import opened JsonString
  import opened JsonLiteral
  import opened JsonGrammar

  /** A value as it is written; `gap` is the white space inside empty brackets. */
  datatype Spelling =
    | NullWord
    | FalseWord
    | TrueWord
    | NumberWord(number: NumberParts)
    | StringWord(text: bytes, meaning: cstring)
    | ArrayWord(gap: bytes, items: seq<ItemWord>)
    | ObjectWord(gap: bytes, members: seq<MemberWord>)

  /** A value between the white space in front of it and behind it. */
  datatype ItemWord = ItemWord(before: bytes, value: Spelling, after: bytes)

  /** A name between white space, a colon, and a value between white space. */
  datatype MemberWord = MemberWord(before: bytes, name: bytes, key: cstring, beforeColon: bytes, item: ItemWord)

  predicate Blank(s: bytes) { forall i | 0 <= i < |s| :: s[i] <= SPACE }

  /** A number that the parser has room for and takes for one. */
  predicate NumberToken(n: NumberParts) {
    GoodNumber(n) && 0 < |PartsText(n)| <= NUMBER_ROOM && LeadsNumber(PartsText(n)[0])
  }

  predicate Good(w: Spelling) {
    match w
    case NumberWord(n) => NumberToken(n)
    case StringWord(text, meaning) => StringToken(text, meaning)
    case ArrayWord(gap, items) => Blank(gap) && forall i | 0 <= i < |items| :: GoodItem(items[i])
    case ObjectWord(gap, members) => Blank(gap) && forall i | 0 <= i < |members| :: GoodMember(members[i])
    case _ => true
  }

  predicate GoodItem(x: ItemWord) { Blank(x.before) && Good(x.value) && Blank(x.after) }

  predicate GoodMember(m: MemberWord) {
    Blank(m.before) && StringToken(m.name, m.key) && Blank(m.beforeColon) && GoodItem(m.item)
  }

  function Spell(w: Spelling): bytes {
    match w
    case NullWord => NULL_TEXT
    case FalseWord => FALSE_TEXT
    case TrueWord => TRUE_TEXT
    case NumberWord(n) => PartsText(n)
    case StringWord(text, _) => InQuotes(text)
    case ArrayWord(gap, items) => ['[' as int] + ((if items == [] then gap else SpellItems(items)) + [']' as int])
    case ObjectWord(gap, members) =>
      ['{' as int] + ((if members == [] then gap else SpellMembers(members)) + ['}' as int])
  }

  function InQuotes(text: bytes): bytes { [QUOTE] + text + [QUOTE] }

  function SpellItems(xs: seq<ItemWord>): bytes {
    if xs == [] then []
    else SpellItem(xs[0], if |xs| == 1 then [] else [',' as int] + SpellItems(xs[1..]))
  }

  /** An item in front of `rest`. */
  function SpellItem(x: ItemWord, rest: bytes): bytes { x.before + (Spell(x.value) + (x.after + rest)) }

  function SpellMembers(ms: seq<MemberWord>): bytes {
    if ms == [] then []
    else SpellMember(ms[0], if |ms| == 1 then [] else [',' as int] + SpellMembers(ms[1..]))
  }

  function SpellMember(m: MemberWord, rest: bytes): bytes {
    m.before + (InQuotes(m.name) + (m.beforeColon + ([':' as int] + SpellItem(m.item, rest))))
  }

  /** The value that is written. */
  function Denoted(w: Spelling): Json {
    match w
    case NullWord => Null
    case FalseWord => False
    case TrueWord => True
    case NumberWord(n) => if GoodNumber(n) then Number(PartsValue(n)) else Null
    case StringWord(_, meaning) => Text(meaning)
    case ArrayWord(_, items) => Array(DenotedItems(items))
    case ObjectWord(_, members) => Object(DenotedMembers(members))
  }

  function DenotedItems(xs: seq<ItemWord>): (r: seq<Json>)
    ensures |r| == |xs|
  {
    if xs == [] then [] else [Denoted(xs[0].value)] + DenotedItems(xs[1..])
  }

  function DenotedMembers(ms: seq<MemberWord>): (r: seq<Member>)
    ensures |r| == |ms|
  {
    if ms == [] then [] else [Member(ms[0].key, Denoted(ms[0].item.value))] + DenotedMembers(ms[1..])
  }

  // ----- white space ----------------------------------------------------------------

  lemma {:induction false} SkipBlank(c: bytes, i: nat, s: bytes)
    requires Has(c, i, s) && Blank(s) && i + |s| < |c|
    ensures SkipWs(c, i) == SkipWs(c, i + |s|)
    decreases |s|
  {
    if s != [] {
      HasByte(c, i, s, 0);
      assert s == [s[0]] + s[1..];
      HasConcat(c, i, [s[0]], s[1..]);
      SkipBlank(c, i + 1, s[1..]);
    }
  }

  lemma SkipNothing(c: bytes, i: nat)
    requires i < |c| && c[i] > SPACE
    ensures SkipWs(c, i) == i
  {
  }

  /** A visible token between white space, in front of something visible that is no number character. */
  lemma Placed(c: bytes, i: nat, before: bytes, text: bytes, after: bytes, rest: bytes)
    requires Has(c, i, before + (text + (after + rest))) && Blank(before) && Blank(after)
    requires text != [] && text[0] > SPACE
    requires var next := i + |before| + |text| + |after|; next < |c| && c[next] > SPACE && !IsNumberByte(c[next])
    ensures var q := i + |before|;
            var o := q + |text|;
            var next := o + |after|;
            && i < |c| && q < |c| && o < |c| && SkipWs(c, i) == q && Has(c, q, text) && SkipWs(c, o) == next
            && !IsNumberByte(c[o]) && Has(c, next, rest)
  {
    hide Has, SkipWs;
    var q := i + |before|;
    var o := q + |text|;
    HasConcat(c, i, before, text + (after + rest));
    HasConcat(c, q, text, after + rest);
    HasConcat(c, o, after, rest);
    HasByte(c, q, text, 0);
    SkipBlank(c, i, before);
    SkipNothing(c, q);
    SkipBlank(c, o, after);
    SkipNothing(c, o + |after|);
    if after != [] {
      HasByte(c, o, after, 0);
    }
  }

  // ----- single steps of the parser, each from its own premises -----------------------

  lemma ArrayStep(c: bytes, off: nat, items: seq<Json>, end: nat, depth: nat, limit: nat)
    requires Terminated(c) && off + 1 < |c| && c[off] == '[' as int && depth < limit
    requires end < |c| && c[end] == ']' as int
    requires var first := SkipWs(c, off + 1);
             if items == [] then first == end
             else c[first] != ']' as int && ParseItems(c, off, depth + 1, limit) == ItemsOk(items, end)
    ensures ParseValue(c, off, depth, limit) == Ok(Array(items), end + 1)
  {
    hide ParseValue, ParseItems, ParseMembers, SkipWs;
    LeadsToContainer(c, off, depth, limit);
    if items != [] {
      ParseItemsFrom(c, off, depth + 1, limit);
    }
  }

  lemma ObjectStep(c: bytes, off: nat, ms: seq<Member>, end: nat, depth: nat, limit: nat)
    requires Terminated(c) && off + 1 < |c| && c[off] == '{' as int && depth < limit
    requires end < |c| && c[end] == '}' as int
    requires var first := SkipWs(c, off + 1);
             if ms == [] then first == end
             else c[first] != '}' as int && ParseMembers(c, off, depth + 1, limit) == MembersOk(ms, end)
    ensures ParseValue(c, off, depth, limit) == Ok(Object(ms), end + 1)
  {
    hide ParseValue, ParseItems, ParseMembers, SkipWs;
    LeadsToContainer(c, off, depth, limit);
    if ms != [] {
      ParseMembersFrom(c, off, depth + 1, limit);
    }
  }

  /** The loop of `parse_array` may as well start behind the bracket as behind the white space there. */
  lemma ParseItemsFrom(c: bytes, p: nat, depth: nat, limit: nat)
    requires Terminated(c) && p + 1 < |c|
    ensures ParseItems(c, SkipWs(c, p + 1) - 1, depth, limit) == ParseItems(c, p, depth, limit)
  {
    hide ParseValue, SkipWs;
    SkipAgain(c, p + 1);
  }

  lemma ParseMembersFrom(c: bytes, p: nat, depth: nat, limit: nat)
    requires Terminated(c) && p + 1 < |c|
    ensures ParseMembers(c, SkipWs(c, p + 1) - 1, depth, limit) == ParseMembers(c, p, depth, limit)
  {
    hide ParseName, ParseValue, SkipWs;
    ParseNameFrom(c, p);
  }

  lemma ParseNameFrom(c: bytes, p: nat)
    requires Terminated(c) && p + 1 < |c|
    ensures ParseName(c, SkipWs(c, p + 1) - 1) == ParseName(c, p)
  {
    hide ParseStringAt, SkipWs;
    SkipAgain(c, p + 1);
  }

  lemma SkipAgain(c: bytes, i: nat)
    requires i < |c|
    ensures SkipWs(c, SkipWs(c, i)) == SkipWs(c, i)
  {
  }

  lemma LastItem(c: bytes, p: nat, v: Json, o: nat, depth: nat, limit: nat)
    requires Terminated(c) && p + 1 < |c| && o < |c|
    requires ParseValue(c, SkipWs(c, p + 1), depth, limit) == Ok(v, o) && c[SkipWs(c, o)] != ',' as int
    ensures ParseItems(c, p, depth, limit) == ItemsOk([v], SkipWs(c, o))
  {
    hide ParseValue, SkipWs;
  }

  lemma NextItem(c: bytes, p: nat, v: Json, o: nat, rest: seq<Json>, end: nat, depth: nat, limit: nat)
    requires Terminated(c) && p + 1 < |c| && o < |c|
    requires ParseValue(c, SkipWs(c, p + 1), depth, limit) == Ok(v, o)
    requires var next := SkipWs(c, o);
             c[next] == ',' as int && next + 1 < |c| && ParseItems(c, next, depth, limit) == ItemsOk(rest, end)
    ensures ParseItems(c, p, depth, limit) == ItemsOk([v] + rest, end)
  {
    hide ParseValue, SkipWs;
  }

  lemma LastMember(c: bytes, p: nat, m: Member, o: nat, e: nat, depth: nat, limit: nat)
    requires Terminated(c) && p + 1 < |c| && o < |c| && e < |c|
    requires ParseName(c, p) == NameOk(m.name, o) && ParseValue(c, o, depth, limit) == Ok(m.value, e)
    requires c[SkipWs(c, e)] != ',' as int
    ensures ParseMembers(c, p, depth, limit) == MembersOk([m], SkipWs(c, e))
  {
    hide ParseName, ParseValue, SkipWs;
  }

  lemma NextMember(c: bytes, p: nat, m: Member, o: nat, e: nat, rest: seq<Member>, end: nat, depth: nat, limit: nat)
    requires Terminated(c) && p + 1 < |c| && o < |c| && e < |c|
    requires ParseName(c, p) == NameOk(m.name, o) && ParseValue(c, o, depth, limit) == Ok(m.value, e)
    requires var next := SkipWs(c, e);
             c[next] == ',' as int && next + 1 < |c| && ParseMembers(c, next, depth, limit) == MembersOk(rest, end)
    ensures ParseMembers(c, p, depth, limit) == MembersOk([m] + rest, end)
  {
    hide ParseName, ParseValue, SkipWs;
  }

  // ----- every spelling parses --------------------------------------------------------

  /** A spelling starts with a byte that is neither white space nor a closing bracket nor a byte order mark. */
  predicate Leading(b: byte) { SPACE < b < 128 && b != ']' as int && b != '}' as int }

  lemma SpellLeads(w: Spelling)
    requires Good(w)
    ensures Spell(w) != [] && Leading(Spell(w)[0])
  {
    hide PartsText, StringToken;
  }

  lemma {:induction false} ValueAccepted(c: bytes, off: nat, w: Spelling, depth: nat, limit: nat)
    requires Terminated(c) && Good(w) && Has(c, off, Spell(w))
    requires off + |Spell(w)| < |c| && !IsNumberByte(c[off + |Spell(w)|])
    requires depth + Nesting(Denoted(w)) <= limit
    ensures ParseValue(c, off, depth, limit) == Ok(Denoted(w), off + |Spell(w)|)
    decreases w, 2
  {
    hide Has, ParseValue, Spell, Good, Denoted;
    match w {
      case ArrayWord(gap, items) => ArrayAccepted(c, off, gap, items, depth, limit);
      case ObjectWord(gap, members) => ObjectAccepted(c, off, gap, members, depth, limit);
      case _ => ScalarAccepted(c, off, w, depth, limit);
    }
  }

  lemma ScalarAccepted(c: bytes, off: nat, w: Spelling, depth: nat, limit: nat)
    requires Terminated(c) && Good(w) && !w.ArrayWord? && !w.ObjectWord? && Has(c, off, Spell(w))
    requires off + |Spell(w)| < |c| && !IsNumberByte(c[off + |Spell(w)|])
    ensures ParseValue(c, off, depth, limit) == Ok(Denoted(w), off + |Spell(w)|)
  {
    hide Has, ParseStringAt, ParseNumberAt, PartsText, PartsValue, GoodNumber, StringToken;
    SpellLeads(w);
    HasByte(c, off, Spell(w), 0);
    NotLiteral(c, off);
    match w {
      case NumberWord(n) => NumberParses(c, off, n);
      case StringWord(text, meaning) => TokenParses(c, off, text, meaning);
      case _ =>
    }
  }

  /** Brackets around a text. */
  lemma Bracketed(c: bytes, off: nat, open: byte, body: bytes, close: byte)
    requires Has(c, off, [open] + (body + [close]))
    ensures off + |body| + 2 <= |c| && c[off] == open && Has(c, off + 1, body) && c[off + 1 + |body|] == close
  {
    hide Has;
    HasConcat(c, off, [open], body + [close]);
    HasConcat(c, off + 1, body, [close]);
    HasByte(c, off, [open], 0);
    HasByte(c, off + 1 + |body|, [close], 0);
  }

  lemma {:induction false} ArrayAccepted(c: bytes, off: nat, gap: bytes, xs: seq<ItemWord>, depth: nat, limit: nat)
    requires Terminated(c) && Good(ArrayWord(gap, xs)) && Has(c, off, Spell(ArrayWord(gap, xs)))
    requires depth + Nesting(Denoted(ArrayWord(gap, xs))) <= limit
    ensures ParseValue(c, off, depth, limit) == Ok(Denoted(ArrayWord(gap, xs)), off + |Spell(ArrayWord(gap, xs))|)
    decreases xs, 1
  {
    hide Has, ParseValue, ParseItems, SkipWs, SpellItems, NestingItems, GoodItem;
    var body := if xs == [] then gap else SpellItems(xs);
    var end := off + 1 + |body|;
    Bracketed(c, off, '[' as int, body, ']' as int);
    if xs == [] {
      SkipBlank(c, off + 1, gap);
      SkipNothing(c, end);
    } else {
      ItemsAccepted(c, off, xs, depth + 1, limit);
      ItemsFirst(c, off + 1, xs, end);
    }
    ArrayStep(c, off, DenotedItems(xs), end, depth, limit);
  }

  /** What follows the item: nothing, or a comma and the other items. */
  function MoreItems(xs: seq<ItemWord>): bytes
    requires xs != []
  {
    if |xs| == 1 then [] else [',' as int] + SpellItems(xs[1..])
  }

  lemma ItemsUnfold(xs: seq<ItemWord>)
    requires xs != []
    ensures SpellItems(xs) == SpellItem(xs[0], MoreItems(xs))
  {
    hide SpellItem;
  }

  lemma ItemsDenoted(xs: seq<ItemWord>)
    requires xs != []
    ensures Nesting(Denoted(xs[0].value)) <= NestingItems(DenotedItems(xs))
    ensures NestingItems(DenotedItems(xs[1..])) <= NestingItems(DenotedItems(xs))
    ensures DenotedItems(xs) == [Denoted(xs[0].value)] + DenotedItems(xs[1..])
    ensures |xs| == 1 ==> DenotedItems(xs) == [Denoted(xs[0].value)]
  {
    hide Spell, Denoted, Nesting;
    var ts := DenotedItems(xs);
    assert ts[0] == Denoted(xs[0].value) && ts[1..] == DenotedItems(xs[1..]);
  }

  lemma FoundBehind(c: bytes, i: nat, before: bytes, text: bytes, after: bytes, rest: bytes)
    requires Has(c, i, before + (text + (after + rest)))
    ensures Has(c, i + |before| + |text| + |after|, rest)
  {
    hide Has;
    HasConcat(c, i, before, text + (after + rest));
    HasConcat(c, i + |before|, text, after + rest);
    HasConcat(c, i + |before| + |text|, after, rest);
  }

  predicate Closing(b: byte) { b == ']' as int || b == '}' as int }

  /** Where an item stands, and what is behind it: nothing up to a closing bracket, or a comma. */
  lemma ItemPlace(c: bytes, i: nat, x: ItemWord, more: bytes, end: nat)
    requires GoodItem(x) && Has(c, i, SpellItem(x, more)) && end == i + |SpellItem(x, more)| < |c| && Closing(c[end])
    requires more == [] || more[0] == ',' as int
    ensures var q := i + |x.before|;
            var o := q + |Spell(x.value)|;
            var next := o + |x.after|;
            && i < |c| && q < |c| && SkipWs(c, i) == q && Has(c, q, Spell(x.value)) && Leading(c[q])
            && o < |c| && !IsNumberByte(c[o]) && next < |c| && SkipWs(c, o) == next
            && Has(c, next, more) && end == next + |more| && (more != [] ==> c[next] == ',' as int)
  {
    hide Has, SkipWs, Spell, Good, Blank;
    SpellLeads(x.value);
    FoundBehind(c, i, x.before, Spell(x.value), x.after, more);
    if more != [] {
      HasByte(c, i + |x.before| + |Spell(x.value)| + |x.after|, more, 0);
    }
    Placed(c, i, x.before, Spell(x.value), x.after, more);
    HasByte(c, i + |x.before|, Spell(x.value), 0);
  }

  lemma GoodParts(x: ItemWord)
    requires GoodItem(x)
    ensures Good(x.value)
  {
  }

  lemma GoodMemberParts(m: MemberWord)
    requires GoodMember(m)
    ensures GoodItem(m.item) && Good(m.item.value)
  {
  }

  /** Behind the comma are the other items. */
  lemma ItemsBehind(c: bytes, next: nat, xs: seq<ItemWord>)
    requires |xs| > 1 && Has(c, next, MoreItems(xs))
    ensures |MoreItems(xs)| == 1 + |SpellItems(xs[1..])| && Has(c, next + 1, SpellItems(xs[1..]))
  {
    hide Has, SpellItems;
    HasConcat(c, next, [',' as int], SpellItems(xs[1..]));
  }

  lemma MoreItemsFirst(xs: seq<ItemWord>)
    requires xs != []
    ensures MoreItems(xs) == [] <==> |xs| == 1
    ensures |xs| > 1 ==> MoreItems(xs)[0] == ',' as int
    ensures forall k | 0 <= k < |xs| - 1 :: xs[1..][k] == xs[k + 1]
  {
    hide SpellItems;
  }

  lemma ItemsFirst(c: bytes, i: nat, xs: seq<ItemWord>, end: nat)
    requires xs != [] && (forall k | 0 <= k < |xs| :: GoodItem(xs[k]))
    requires Has(c, i, SpellItems(xs)) && end == i + |SpellItems(xs)| < |c| && c[end] == ']' as int
    ensures i < |c| && Leading(c[SkipWs(c, i)])
  {
    hide Has, SkipWs, Spell, SpellItems, Good, SpellItem;
    assert GoodItem(xs[0]);
    ItemsUnfold(xs);
    ItemPlace(c, i, xs[0], MoreItems(xs), end);
  }

  lemma {:induction false} ItemsAccepted(c: bytes, p: nat, xs: seq<ItemWord>, depth: nat, limit: nat)
    requires Terminated(c) && xs != [] && (forall k | 0 <= k < |xs| :: GoodItem(xs[k]))
    requires Has(c, p + 1, SpellItems(xs))
    requires p + 1 + |SpellItems(xs)| < |c| && c[p + 1 + |SpellItems(xs)|] == ']' as int
    requires depth + NestingItems(DenotedItems(xs)) <= limit
    ensures ParseItems(c, p, depth, limit) == ItemsOk(DenotedItems(xs), p + 1 + |SpellItems(xs)|)
    decreases xs, 0
  {
    hide Has, SkipWs, ParseValue, ParseItems, Spell, SpellItems, Good, Denoted, DenotedItems, Nesting, NestingItems;
    hide IsNumberByte, Leading, Blank, SpellItem, MoreItems, GoodItem;
    var x, end := xs[0], p + 1 + |SpellItems(xs)|;
    assert GoodItem(x);
    var q := p + 1 + |x.before|;
    var o := q + |Spell(x.value)|;
    ItemsDenoted(xs);
    ItemsUnfold(xs);
    MoreItemsFirst(xs);
    GoodParts(x);
    ItemPlace(c, p + 1, x, MoreItems(xs), end);
    ValueAccepted(c, q, x.value, depth, limit);
    if |xs| == 1 {
      LastItem(c, p, Denoted(x.value), o, depth, limit);
    } else {
      ItemsBehind(c, o + |x.after|, xs);
      ItemsAccepted(c, o + |x.after|, xs[1..], depth, limit);
      NextItem(c, p, Denoted(x.value), o, DenotedItems(xs[1..]), end, depth, limit);
    }
  }

  // ----- objects ----------------------------------------------------------------------

  lemma {:induction false} ObjectAccepted(c: bytes, off: nat, gap: bytes, ms: seq<MemberWord>, depth: nat, limit: nat)
    requires Terminated(c) && Good(ObjectWord(gap, ms)) && Has(c, off, Spell(ObjectWord(gap, ms)))
    requires depth + Nesting(Denoted(ObjectWord(gap, ms))) <= limit
    ensures ParseValue(c, off, depth, limit) == Ok(Denoted(ObjectWord(gap, ms)), off + |Spell(ObjectWord(gap, ms))|)
    decreases ms, 1
  {
    hide Has, ParseValue, ParseMembers, SkipWs, SpellMembers, NestingMembers, GoodMember;
    var body := if ms == [] then gap else SpellMembers(ms);
    var end := off + 1 + |body|;
    Bracketed(c, off, '{' as int, body, '}' as int);
    if ms == [] {
      SkipBlank(c, off + 1, gap);
      SkipNothing(c, end);
    } else {
      MembersAccepted(c, off, ms, depth + 1, limit);
      MembersFirst(c, off + 1, ms, end);
    }
    ObjectStep(c, off, DenotedMembers(ms), end, depth, limit);
  }

  function MoreMembers(ms: seq<MemberWord>): bytes
    requires ms != []
  {
    if |ms| == 1 then [] else [',' as int] + SpellMembers(ms[1..])
  }

  /** The value of the first member, with what is behind it. */
  function FirstValue(ms: seq<MemberWord>): bytes
    requires ms != []
  {
    SpellItem(ms[0].item, MoreMembers(ms))
  }

  lemma MembersUnfold(ms: seq<MemberWord>)
    requires ms != []
    ensures SpellMembers(ms)
         == ms[0].before + (InQuotes(ms[0].name) + (ms[0].beforeColon + ([':' as int] + FirstValue(ms))))
  {
    hide Spell, InQuotes, SpellItem;
    assert SpellMembers(ms) == SpellMember(ms[0], MoreMembers(ms)) by {
      hide SpellMember;
    }
  }

  lemma MembersDenoted(ms: seq<MemberWord>)
    requires ms != []
    ensures Nesting(Denoted(ms[0].item.value)) <= NestingMembers(DenotedMembers(ms))
    ensures NestingMembers(DenotedMembers(ms[1..])) <= NestingMembers(DenotedMembers(ms))
    ensures DenotedMembers(ms) == [Member(ms[0].key, Denoted(ms[0].item.value))] + DenotedMembers(ms[1..])
    ensures |ms| == 1 ==> DenotedMembers(ms) == [Member(ms[0].key, Denoted(ms[0].item.value))]
  {
    hide Spell, Denoted, Nesting;
    var ts := DenotedMembers(ms);
    assert ts[0] == Member(ms[0].key, Denoted(ms[0].item.value)) && ts[1..] == DenotedMembers(ms[1..]);
  }

  /** Where the colon of the first member is. */
  function ColonAt(i: nat, m: MemberWord): nat { i + |m.before| + |InQuotes(m.name)| + |m.beforeColon| }

  /** The name of the first member and its colon. */
  lemma NamePlace(c: bytes, i: nat, ms: seq<MemberWord>)
    requires ms != [] && GoodMember(ms[0]) && Has(c, i, SpellMembers(ms))
    ensures var m := ms[0];
            var q, colon := i + |m.before|, ColonAt(i, m);
            && i < |c| && q < |c| && SkipWs(c, i) == q && Has(c, q, InQuotes(m.name)) && c[q] == QUOTE
            && colon < |c| && q + |InQuotes(m.name)| < |c| && SkipWs(c, q + |InQuotes(m.name)|) == colon
            && c[colon] == ':' as int && Has(c, colon + 1, FirstValue(ms))
  {
    hide Has, SkipWs, Spell, SpellMembers, GoodItem, Denoted, Nesting, NestingMembers, FirstValue, StringToken;
    var m, colon := ms[0], ColonAt(i, ms[0]);
    var rest := [':' as int] + FirstValue(ms);
    MembersUnfold(ms);
    FoundBehind(c, i, m.before, InQuotes(m.name), m.beforeColon, rest);
    HasConcat(c, colon, [':' as int], FirstValue(ms));
    HasByte(c, colon, [':' as int], 0);
    Placed(c, i, m.before, InQuotes(m.name), m.beforeColon, rest);
    HasByte(c, i + |m.before|, InQuotes(m.name), 0);
  }

  lemma NameAccepted(c: bytes, p: nat, ms: seq<MemberWord>)
    requires Terminated(c) && ms != [] && GoodMember(ms[0]) && Has(c, p + 1, SpellMembers(ms))
    requires ColonAt(p + 1, ms[0]) + 1 < |c|
    ensures p + 1 < |c| && ParseName(c, p) == NameOk(ms[0].key, SkipWs(c, ColonAt(p + 1, ms[0]) + 1))
  {
    hide Has, SkipWs, SpellMembers, GoodItem, StringToken, ParseStringAt, FirstValue;
    NamePlace(c, p + 1, ms);
    TokenParses(c, p + 1 + |ms[0].before|, ms[0].name, ms[0].key);
  }

  lemma MembersBehind(c: bytes, next: nat, ms: seq<MemberWord>)
    requires |ms| > 1 && Has(c, next, MoreMembers(ms))
    ensures |MoreMembers(ms)| == 1 + |SpellMembers(ms[1..])| && Has(c, next + 1, SpellMembers(ms[1..]))
  {
    hide Has, SpellMembers;
    HasConcat(c, next, [',' as int], SpellMembers(ms[1..]));
  }

  lemma MoreMembersFirst(ms: seq<MemberWord>)
    requires ms != []
    ensures MoreMembers(ms) == [] <==> |ms| == 1
    ensures |ms| > 1 ==> MoreMembers(ms)[0] == ',' as int
    ensures forall k | 0 <= k < |ms| - 1 :: ms[1..][k] == ms[k + 1]
  {
    hide SpellMembers;
  }

  lemma MembersFirst(c: bytes, i: nat, ms: seq<MemberWord>, end: nat)
    requires ms != [] && (forall k | 0 <= k < |ms| :: GoodMember(ms[k]))
    requires Has(c, i, SpellMembers(ms)) && end == i + |SpellMembers(ms)| < |c|
    ensures i < |c| && c[SkipWs(c, i)] == QUOTE
  {
    hide Has, SkipWs, SpellMembers, FirstValue, GoodMember;
    assert GoodMember(ms[0]);
    NamePlace(c, i, ms);
  }

  lemma {:induction false} MembersAccepted(c: bytes, p: nat, ms: seq<MemberWord>, depth: nat, limit: nat)
    requires Terminated(c) && ms != [] && (forall k | 0 <= k < |ms| :: GoodMember(ms[k]))
    requires Has(c, p + 1, SpellMembers(ms))
    requires p + 1 + |SpellMembers(ms)| < |c| && c[p + 1 + |SpellMembers(ms)|] == '}' as int
    requires depth + NestingMembers(DenotedMembers(ms)) <= limit
    ensures ParseMembers(c, p, depth, limit) == MembersOk(DenotedMembers(ms), p + 1 + |SpellMembers(ms)|)
    decreases ms, 0
  {
    hide Has, SkipWs, ParseName, ParseValue, ParseMembers, Spell, SpellMembers, SpellItem, Good, StringToken;
    hide Denoted, DenotedMembers, Nesting, NestingMembers, InQuotes, IsNumberByte, Blank, MoreMembers, GoodItem;
    hide GoodMember, Leading;
    var x, end := ms[0].item, p + 1 + |SpellMembers(ms)|;
    assert GoodMember(ms[0]);
    var start := ColonAt(p + 1, ms[0]) + 1;
    var q := start + |x.before|;
    var o := q + |Spell(x.value)|;
    MembersUnfold(ms);
    MembersDenoted(ms);
    MoreMembersFirst(ms);
    GoodMemberParts(ms[0]);
    NamePlace(c, p + 1, ms);
    ItemPlace(c, start, x, MoreMembers(ms), end);
    NameAccepted(c, p, ms);
    ValueAccepted(c, q, x.value, depth, limit);
    var m := Member(ms[0].key, Denoted(x.value));
    if |ms| == 1 {
      LastMember(c, p, m, q, o, depth, limit);
    } else {
      MembersBehind(c, o + |x.after|, ms);
      MembersAccepted(c, o + |x.after|, ms[1..], depth, limit);
      NextMember(c, p, m, q, o, DenotedMembers(ms[1..]), end, depth, limit);
    }
  }

  // ----- what parses is a spelling ------------------------------------------------------

  /** A token between two stretches of the buffer. */
  lemma Assembled(c: bytes, i: nat, q: nat, text: bytes, next: nat, rest: bytes)
    requires i <= q && Has(c, q, text) && q + |text| <= next <= |c| && Has(c, next, rest)
    ensures var o := q + |text|; Has(c, i, c[i..q] + (text + (c[o..next] + rest)))
  {
    hide Has;
    var o := q + |text|;
    Stretch(c, i, q);
    Stretch(c, o, next);
    HasConcat(c, o, c[o..next], rest);
    HasConcat(c, q, text, c[o..next] + rest);
    HasConcat(c, i, c[i..q], text + (c[o..next] + rest));
  }

  lemma Stretch(c: bytes, i: nat, j: nat)
    requires i <= j <= |c|
    ensures Has(c, i, c[i..j])
  {
  }

  lemma BlankStretch(c: bytes, i: nat)
    requires i < |c|
    ensures Blank(c[i..SkipWs(c, i)])
  {
  }

  lemma HasOne(c: bytes, i: nat, b: byte)
    requires i < |c| && c[i] == b
    ensures Has(c, i, [b])
  {
  }

  lemma {:induction false} ValueSpelled(c: bytes, off: nat, depth: nat, limit: nat) returns (w: Spelling)
    requires Terminated(c) && off < |c| && ParseValue(c, off, depth, limit).Ok?
    ensures Good(w) && Has(c, off, Spell(w))
    ensures ParseValue(c, off, depth, limit) == Ok(Denoted(w), off + |Spell(w)|)
    decreases |c| - off, 2
  {
    hide Has, ParseValue, Spell, Good, Denoted;
    if c[off] == '[' as int {
      w := ArraySpelled(c, off, depth, limit);
    } else if c[off] == '{' as int {
      w := ObjectSpelled(c, off, depth, limit);
    } else {
      w := ScalarSpelled(c, off, depth, limit);
    }
  }

  lemma ScalarSpelled(c: bytes, off: nat, depth: nat, limit: nat) returns (w: Spelling)
    requires Terminated(c) && off < |c| && c[off] != '[' as int && c[off] != '{' as int
    requires ParseValue(c, off, depth, limit).Ok?
    ensures Good(w) && Has(c, off, Spell(w))
    ensures ParseValue(c, off, depth, limit) == Ok(Denoted(w), off + |Spell(w)|)
  {
    hide Has, ParseStringAt, ParseNumberAt, PartsText, PartsValue, GoodNumber, StringToken, ParseArray, ParseObject;
    if Has(c, off, NULL_TEXT) {
      w := NullWord;
    } else if Has(c, off, FALSE_TEXT) {
      w := FalseWord;
    } else if Has(c, off, TRUE_TEXT) {
      w := TrueWord;
    } else if c[off] == QUOTE {
      var text := ParsedToken(c, off);
      w := StringWord(text, ParseStringAt(c, off).value);
    } else {
      var n := ParsedNumber(c, off);
      HasByte(c, off, PartsText(n), 0);
      w := NumberWord(n);
    }
  }

  lemma {:induction false} ArraySpelled(c: bytes, off: nat, depth: nat, limit: nat) returns (w: Spelling)
    requires Terminated(c) && off < |c| && c[off] == '[' as int && ParseValue(c, off, depth, limit).Ok?
    ensures Good(w) && Has(c, off, Spell(w))
    ensures ParseValue(c, off, depth, limit) == Ok(Denoted(w), off + |Spell(w)|)
    decreases |c| - off, 1
  {
    hide Has, ParseValue, ParseItems, SkipWs, SpellItems, GoodItem, Blank, ParseObject;
    LeadsToContainer(c, off, depth, limit);
    var first := SkipWs(c, off + 1);
    BlankStretch(c, off + 1);
    if c[first] == ']' as int {
      w := ArrayWord(c[off + 1..first], []);
      Stretch(c, off + 1, first);
      Enclose(c, off, '[' as int, c[off + 1..first], ']' as int);
    } else {
      ParseItemsFrom(c, off, depth + 1, limit);
      var xs := ItemsSpelled(c, off, depth + 1, limit);
      w := ArrayWord([], xs);
      assert Blank([]) by { BlankNothing(); }
      Enclose(c, off, '[' as int, SpellItems(xs), ']' as int);
    }
  }

  lemma BlankNothing()
    ensures Blank([])
  {
  }

  lemma Enclose(c: bytes, off: nat, open: byte, body: bytes, close: byte)
    requires off < |c| && c[off] == open && Has(c, off + 1, body)
    requires off + 1 + |body| < |c| && c[off + 1 + |body|] == close
    ensures Has(c, off, [open] + (body + [close]))
  {
    hide Has;
    HasOne(c, off, open);
    HasOne(c, off + 1 + |body|, close);
    HasConcat(c, off + 1, body, [close]);
    HasConcat(c, off, [open], body + [close]);
  }

  lemma {:induction false} ItemsSpelled(c: bytes, p: nat, depth: nat, limit: nat) returns (xs: seq<ItemWord>)
    requires Terminated(c) && p + 1 < |c| && ParseItems(c, p, depth, limit).ItemsOk?
    ensures xs != [] && (forall k | 0 <= k < |xs| :: GoodItem(xs[k])) && Has(c, p + 1, SpellItems(xs))
    ensures ParseItems(c, p, depth, limit) == ItemsOk(DenotedItems(xs), p + 1 + |SpellItems(xs)|)
    decreases |c| - p, 0
  {
    hide Has, SkipWs, ParseValue, Spell, SpellItem, SpellItems, Good, Denoted, DenotedItems, Blank;
    var q := SkipWs(c, p + 1);
    var o := ParseValue(c, q, depth, limit).offset;
    var next := SkipWs(c, o);
    BlankStretch(c, p + 1);
    BlankStretch(c, o);
    var v := ValueSpelled(c, q, depth, limit);
    var x := ItemWord(c[p + 1..q], v, c[o..next]);
    if c[next] == ',' as int {
      var rest := ItemsSpelled(c, next, depth, limit);
      xs := [x] + rest;
      assert xs[1..] == rest;
      HasOne(c, next, ',' as int);
      HasConcat(c, next, [',' as int], SpellItems(rest));
    } else {
      xs := [x];
      Stretch(c, next, next);
      assert c[next..next] == [];
    }
    ItemsUnfold(xs);
    ItemsDenoted(xs);
    ItemSpelled(c, p + 1, q, x, next, MoreItems(xs));
  }

  lemma ItemSpelled(c: bytes, i: nat, q: nat, x: ItemWord, next: nat, more: bytes)
    requires i <= q && Has(c, q, Spell(x.value)) && q + |Spell(x.value)| <= next <= |c| && Has(c, next, more)
    requires x.before == c[i..q] && x.after == c[q + |Spell(x.value)|..next]
    ensures Has(c, i, SpellItem(x, more)) && i + |SpellItem(x, more)| == next + |more|
  {
    hide Has, Spell;
    Assembled(c, i, q, Spell(x.value), next, more);
  }

  lemma {:induction false} ObjectSpelled(c: bytes, off: nat, depth: nat, limit: nat) returns (w: Spelling)
    requires Terminated(c) && off < |c| && c[off] == '{' as int && ParseValue(c, off, depth, limit).Ok?
    ensures Good(w) && Has(c, off, Spell(w))
    ensures ParseValue(c, off, depth, limit) == Ok(Denoted(w), off + |Spell(w)|)
    decreases |c| - off, 1
  {
    hide Has, ParseValue, ParseMembers, SkipWs, SpellMembers, GoodMember, Blank, ParseArray;
    LeadsToContainer(c, off, depth, limit);
    var first := SkipWs(c, off + 1);
    BlankStretch(c, off + 1);
    if c[first] == '}' as int {
      w := ObjectWord(c[off + 1..first], []);
      Stretch(c, off + 1, first);
      Enclose(c, off, '{' as int, c[off + 1..first], '}' as int);
    } else {
      ParseMembersFrom(c, off, depth + 1, limit);
      var ms := MembersSpelled(c, off, depth + 1, limit);
      w := ObjectWord([], ms);
      assert Blank([]) by { BlankNothing(); }
      Enclose(c, off, '{' as int, SpellMembers(ms), '}' as int);
    }
  }

  /** A name, the white space around it, and the colon. */
  lemma NameSpelled(c: bytes, p: nat) returns (before: bytes, name: bytes, beforeColon: bytes, colon: nat)
    requires Terminated(c) && p + 1 < |c| && ParseName(c, p).NameOk?
    ensures Blank(before) && StringToken(name, ParseName(c, p).name) && Blank(beforeColon)
    ensures colon + 1 < |c| && ParseName(c, p).offset == SkipWs(c, colon + 1)
    ensures var head := before + (InQuotes(name) + (beforeColon + [':' as int]));
            Has(c, p + 1, head) && p + 1 + |head| == colon + 1
  {
    hide Has, SkipWs, ParseStringAt, StringToken, Blank;
    var q := SkipWs(c, p + 1);
    name := ParsedToken(c, q);
    var o := ParseStringAt(c, q).offset;
    colon := SkipWs(c, o);
    BlankStretch(c, p + 1);
    BlankStretch(c, o);
    before, beforeColon := c[p + 1..q], c[o..colon];
    HasOne(c, colon, ':' as int);
    Assembled(c, p + 1, q, InQuotes(name), colon, [':' as int]);
  }

  lemma {:induction false} MembersSpelled(c: bytes, p: nat, depth: nat, limit: nat) returns (ms: seq<MemberWord>)
    requires Terminated(c) && p + 1 < |c| && ParseMembers(c, p, depth, limit).MembersOk?
    ensures ms != [] && (forall k | 0 <= k < |ms| :: GoodMember(ms[k])) && Has(c, p + 1, SpellMembers(ms))
    ensures ParseMembers(c, p, depth, limit) == MembersOk(DenotedMembers(ms), p + 1 + |SpellMembers(ms)|)
    decreases |c| - p, 0, 1
  {
    hide Has, SkipWs, ParseName, ParseValue, Spell, SpellItem, SpellMembers, Good, Denoted, DenotedMembers, Blank;
    hide InQuotes, StringToken, GoodMember, MoreMembers;
    var v := ParseName(c, p).offset;
    var next := SkipWs(c, ParseValue(c, v, depth, limit).offset);
    var m, start := MemberSpelled(c, p, depth, limit);
    if c[next] == ',' as int {
      var rest := MembersSpelled(c, next, depth, limit);
      ms := [m] + rest;
      assert ms[1..] == rest;
      CommaFirst(c, next, SpellMembers(rest));
      MoreMembersText(ms);
    } else {
      ms := [m];
      Nothing(c, next);
      MoreMembersText(ms);
    }
    MembersUnfold(ms);
    MembersDenoted(ms);
    ItemSpelled(c, start, SkipWs(c, start), m.item, next, MoreMembers(ms));
    Regrouped(c, p + 1, m.before, InQuotes(m.name), m.beforeColon, SpellItem(m.item, MoreMembers(ms)));
  }

  lemma MoreMembersText(ms: seq<MemberWord>)
    requires ms != []
    ensures MoreMembers(ms) == if |ms| == 1 then [] else [',' as int] + SpellMembers(ms[1..])
  {
  }

  lemma CommaFirst(c: bytes, next: nat, rest: bytes)
    requires next < |c| && c[next] == ',' as int && Has(c, next + 1, rest)
    ensures Has(c, next, [',' as int] + rest)
  {
    hide Has;
    HasOne(c, next, ',' as int);
    HasConcat(c, next, [',' as int], rest);
  }

  lemma Nothing(c: bytes, i: nat)
    requires i <= |c|
    ensures Has(c, i, [])
  {
  }

  /** The first member: what stands in front of its value, and where that is. */
  lemma {:induction false} MemberSpelled(c: bytes, p: nat, depth: nat, limit: nat)
    returns (m: MemberWord, start: nat)
    requires Terminated(c) && p + 1 < |c| && ParseName(c, p).NameOk?
    requires ParseValue(c, ParseName(c, p).offset, depth, limit).Ok?
    ensures GoodMember(m) && m.key == ParseName(c, p).name
    ensures var head := m.before + (InQuotes(m.name) + (m.beforeColon + [':' as int]));
            Has(c, p + 1, head) && start == p + 1 + |head|
    ensures var q := ParseName(c, p).offset;
            var o := q + |Spell(m.item.value)|;
            && start < |c| && q == SkipWs(c, start) && Has(c, q, Spell(m.item.value)) && o < |c|
            && ParseValue(c, q, depth, limit) == Ok(Denoted(m.item.value), o)
            && m.item.before == c[start..q] && m.item.after == c[o..SkipWs(c, o)]
    decreases |c| - p, 0, 0
  {
    hide Has, SkipWs, ParseName, ParseValue, Spell, Good, Denoted, Blank, InQuotes, StringToken;
    var before, name, beforeColon, colon := NameSpelled(c, p);
    start := colon + 1;
    var q := ParseName(c, p).offset;
    var o := ParseValue(c, q, depth, limit).offset;
    BlankStretch(c, start);
    BlankStretch(c, o);
    var v := ValueSpelled(c, q, depth, limit);
    m := MemberWord(before, name, ParseName(c, p).name, beforeColon, ItemWord(c[start..q], v, c[o..SkipWs(c, o)]));
  }

  /** A name with its colon, followed by the rest of the member. */
  lemma Regrouped(c: bytes, i: nat, before: bytes, name: bytes, beforeColon: bytes, rest: bytes)
    requires Has(c, i, before + (name + (beforeColon + [':' as int])))
    requires Has(c, i + |before| + |name| + |beforeColon| + 1, rest)
    ensures Has(c, i, before + (name + (beforeColon + ([':' as int] + rest))))
  {
    hide Has;
    var j := i + |before|;
    var k := j + |name|;
    var colon := k + |beforeColon|;
    HasConcat(c, i, before, name + (beforeColon + [':' as int]));
    HasConcat(c, j, name, beforeColon + [':' as int]);
    HasConcat(c, k, beforeColon, [':' as int]);
    HasConcat(c, colon, [':' as int], rest);
    HasConcat(c, k, beforeColon, [':' as int] + rest);
    HasConcat(c, j, name, beforeColon + ([':' as int] + rest));
    HasConcat(c, i, before, name + (beforeColon + ([':' as int] + rest)));
  }

  // ----- documents ----------------------------------------------------------------------

  /** A whole text: a byte order mark perhaps, and a value between white space. */
  datatype Document = Document(mark: bool, before: bytes, value: Spelling, after: bytes)

  predicate GoodDocument(d: Document) { Blank(d.before) && Good(d.value) && Blank(d.after) }

  function Mark(d: Document): bytes { if d.mark then BOM else [] }

  function DocumentText(d: Document): bytes { Mark(d) + (d.before + (Spell(d.value) + d.after)) }

  /** The string `s` is a document for the value `v`. */
  predicate Spells(d: Document, s: cstring, v: Json) {
    GoodDocument(d) && DocumentText(d) == s && Denoted(d.value) == v
  }

  /** A value between white space at the end of a string. */
  lemma ValuePlace(s: bytes, i: nat, before: bytes, w: Spelling, after: bytes)
    requires Blank(before) && Good(w) && Blank(after)
    requires Has(s + [NUL], i, before + (Spell(w) + after)) && i + |before + (Spell(w) + after)| == |s|
    ensures var c := s + [NUL];
            var q := i + |before|;
            var o := q + |Spell(w)|;
            && SkipWs(c, i) == q && Has(c, i, before) && Has(c, q, Spell(w)) && Leading(c[q])
            && q < o && o + |after| == |s| && !IsNumberByte(c[o]) && SkipWs(c, o) == |s|
  {
    hide Has, SkipWs, Spell, Good, Blank;
    var c := s + [NUL];
    var q := i + |before|;
    SpellLeads(w);
    HasConcat(c, i, before, Spell(w) + after);
    HasConcat(c, q, Spell(w), after);
    HasByte(c, q, Spell(w), 0);
    SkipBlank(c, i, before);
    SkipNothing(c, q);
    SkipBlank(c, q + |Spell(w)|, after);
    AtLast(c);
    AfterValue(c, q + |Spell(w)|, after);
  }

  /** Where the value of a document stands in the buffer. */
  lemma DocumentPlace(d: Document, s: bytes)
    requires GoodDocument(d) && Has(s + [NUL], 0, DocumentText(d)) && |s| == |DocumentText(d)|
    ensures var c := s + [NUL];
            var q := |Mark(d)| + |d.before|;
            var o := q + |Spell(d.value)|;
            && ValueStart(c) == q && Has(c, q, Spell(d.value)) && o <= |s| && !IsNumberByte(c[o])
            && o + |d.after| == |s| && SkipWs(c, o) == |s|
  {
    hide Has, SkipWs, Spell, Good, Blank, Leading, Mark, ValueStart, IsNumberByte;
    var c, m := s + [NUL], Mark(d);
    HasConcat(c, 0, m, d.before + (Spell(d.value) + d.after));
    ValuePlace(s, |m|, d.before, d.value, d.after);
    MarkFound(c, d, |m| + |d.before|);
  }

  lemma MarkLength(d: Document)
    ensures |Mark(d)| == if d.mark then 3 else 0
  {
  }

  lemma Prefix(s: bytes)
    ensures Has(s + [NUL], 0, s)
  {
  }

  lemma AtLast(c: bytes)
    requires c != []
    ensures SkipWs(c, |c| - 1) == |c| - 1
  {
  }

  lemma AfterValue(c: bytes, o: nat, after: bytes)
    requires Terminated(c) && Has(c, o, after) && Blank(after) && o + |after| == |c| - 1
    ensures !IsNumberByte(c[o])
  {
    if after != [] {
      HasByte(c, o, after, 0);
    }
  }

  /** The mark is skipped if it is there, and nothing else is taken for one. */
  lemma MarkFound(c: bytes, d: Document, q: nat)
    requires Has(c, 0, Mark(d)) && Has(c, |Mark(d)|, d.before) && Blank(d.before)
    requires q == |Mark(d)| + |d.before| && q + 1 < |c| && Leading(c[q])
    ensures Terminated(c) ==> ValueStart(c) == SkipWs(c, |Mark(d)|)
  {
    hide Blank, SkipWs;
    MarkLength(d);
    if d.mark {
      assert c[0..3] == c[..3];
    } else {
      assert c[0] < 128 by {
        if d.before != [] {
          HasByte(c, 0, d.before, 0);
          BlankByte(d.before);
        }
      }
      assert 4 < |c| ==> c[..3][0] == c[0];
    }
  }

  lemma BlankByte(s: bytes)
    requires Blank(s) && s != []
    ensures s[0] <= SPACE
  {
  }

  /** Every document nested at most 1000 deep is accepted, and no other. */
  lemma DocumentParses(d: Document, s: cstring, strict: bool)
    requires GoodDocument(d) && DocumentText(d) == s
    ensures Nesting(Denoted(d.value)) <= NESTING_LIMIT ==>
      Parse(s, strict) == Accepted(Denoted(d.value), if strict then |s| else |s| - |d.after|)
    ensures Nesting(Denoted(d.value)) > NESTING_LIMIT ==> Parse(s, strict).Rejected?
  {
    hide DocumentText, ParseValue, SkipWs, Spell, Denoted, Good, Nesting, ValueStart, Has;
    var c := s + [NUL];
    var q := |Mark(d)| + |d.before|;
    Prefix(s);
    DocumentPlace(d, s);
    var limit := Max(Nesting(Denoted(d.value)), NESTING_LIMIT);
    ValueAccepted(c, q, d.value, 0, limit);
    if ParseValue(c, q, 0, NESTING_LIMIT).Ok? {
      LimitMonotone(c, q, 0, NESTING_LIMIT, limit);
      NestingBounded(c, q, 0, NESTING_LIMIT);
    }
  }

  /** What a strict parse accepts is a document. */
  lemma ParsedDocument(s: cstring) returns (d: Document)
    requires Parse(s, true).Accepted?
    ensures Spells(d, s, Parse(s, true).value) && Parse(s, true).end == |s|
    ensures Nesting(Parse(s, true).value) <= NESTING_LIMIT
  {
    hide ParseValue, SkipWs, Spell, Denoted, Good, Nesting, Has, Blank, DocumentText;
    var c := s + [NUL];
    var start := if 4 < |c| && c[..3] == BOM then 3 else 0;
    var q := SkipWs(c, start);
    var w := ValueSpelled(c, q, 0, NESTING_LIMIT);
    var o := q + |Spell(w)|;
    NestingBounded(c, q, 0, NESTING_LIMIT);
    BlankStretch(c, start);
    BlankStretch(c, o);
    assert SkipWs(c, o) == |s|;
    d := Document(start == 3, c[start..q], w, c[o..|s|]);
    StartMark(c, d, start);
    DocumentAssembled(s, d, start, q);
  }

  lemma StartMark(c: bytes, d: Document, start: nat)
    requires start == (if 4 < |c| && c[..3] == BOM then 3 else 0) && d.mark == (start == 3)
    ensures start == |Mark(d)| && Has(c, 0, Mark(d))
  {
    if d.mark {
      assert c[0..3] == c[..3];
    }
  }

  lemma DocumentAssembled(s: bytes, d: Document, start: nat, q: nat)
    requires var c, o := s + [NUL], q + |Spell(d.value)|;
             && start <= q && o <= |s| && Has(c, q, Spell(d.value))
             && d.before == c[start..q] && d.after == c[o..|s|]
    requires start == |Mark(d)| && Has(s + [NUL], 0, Mark(d))
    ensures DocumentText(d) == s
  {
    hide Has, Spell, Mark;
    var c, o := s + [NUL], q + |Spell(d.value)|;
    Stretch(c, start, q);
    Stretch(c, o, |s|);
    HasConcat(c, q, Spell(d.value), d.after);
    HasConcat(c, start, d.before, Spell(d.value) + d.after);
    HasConcat(c, 0, Mark(d), d.before + (Spell(d.value) + d.after));
    WholeText(s, DocumentText(d));
  }

  lemma WholeText(s: bytes, t: bytes)
    requires Has(s + [NUL], 0, t) && |t| == |s|
    ensures s == t
  {
    assert (s + [NUL])[0..|s|] == s;
  }

  /** `cJSON_ParseWithOpts`, asked for a NUL behind the value, accepts exactly the documents. */
  lemma AcceptsExactly(s: cstring, v: Json)
    ensures Parse(s, true) == Accepted(v, |s|) <==>
              Nesting(v) <= NESTING_LIMIT && exists d: Document :: Spells(d, s, v)
  {
    hide Parse, GoodDocument, DocumentText, Denoted, Nesting, Spells;
    if Parse(s, true) == Accepted(v, |s|) {
      var d := ParsedDocument(s);
    }
    if Nesting(v) <= NESTING_LIMIT && exists d: Document :: Spells(d, s, v) {
      var d: Document :| Spells(d, s, v);
      SpellsParts(d, s, v);
      DocumentParses(d, s, true);
    }
  }

  lemma SpellsParts(d: Document, s: cstring, v: Json)
    requires Spells(d, s, v)
    ensures GoodDocument(d) && DocumentText(d) == s && Denoted(d.value) == v
  {
  }
}

/**
 The recursive-descent parser of cJSON.c as functions of the buffer, the
 offset and the number of containers that are open.
 */
module JsonGrammar {
  import opened CBytes
  import opened JsonTree
  import opened JsonNumber
  import opened JsonLiteral

  const NULL_TEXT: bytes := ['n' as int, 'u' as int, 'l' as int, 'l' as int]
  const FALSE_TEXT: bytes := ['f' as int, 'a' as int, 'l' as int, 's' as int, 'e' as int]
  const TRUE_TEXT: bytes := ['t' as int, 'r' as int, 'u' as int, 'e' as int]

  const NESTING_LIMIT: nat := 1000

  datatype Parsed = Err(offset: nat) | Ok(value: Json, offset: nat)
  datatype ParsedItems = ItemsErr(offset: nat) | ItemsOk(items: seq<Json>, offset: nat)
  datatype ParsedMembers = MembersErr(offset: nat) | MembersOk(members: seq<Member>, offset: nat)

  /** The buffer ends with the NUL that `cJSON_ParseWithOpts` counts into its length. */
  predicate Terminated(c: bytes) { |c| > 0 && c[|c| - 1] == NUL }

  /** Where `buffer_skip_whitespace` stops: never before `i`, never beyond the last byte. */
  function SkipWs(c: bytes, i: nat): (r: nat)
    requires i < |c|
    ensures i <= r < |c|
    ensures c[r] > SPACE || r == |c| - 1
    ensures forall j | i <= j < r :: c[j] <= SPACE
    decreases |c| - i
  {
    if c[i] > SPACE || i + 1 == |c| then i else SkipWs(c, i + 1)
  }

  /** A word that stands for a value; the NUL at the end of the buffer is no part of it. */
  function Word(c: bytes, off: nat, text: cstring, v: Json): (r: Parsed)
    requires Terminated(c) && text != [] && Has(c, off, text)
    ensures r == Ok(v, off + |text|) && off < r.offset < |c|
  {
    HasByte(c, off, text, |text| - 1);
    Ok(v, off + |text|)
  }

  function ParseValue(c: bytes, off: nat, depth: nat, limit: nat): (r: Parsed)
    requires Terminated(c) && off < |c|
    ensures r.offset <= |c|
    ensures r.Ok? ==> off < r.offset < |c|
    decreases |c| - off, 2
  {
    hide Has, ParseStringAt, ParseNumberAt, ParseArray, ParseObject;
    if Has(c, off, NULL_TEXT) then Word(c, off, NULL_TEXT, Null)
    else if Has(c, off, FALSE_TEXT) then Word(c, off, FALSE_TEXT, False)
    else if Has(c, off, TRUE_TEXT) then Word(c, off, TRUE_TEXT, True)
    else if c[off] == QUOTE then
      match ParseStringAt(c, off)
      case StringErr(o) => Err(o)
      case StringOk(s, o) => Ok(Text(s), o)
    else if c[off] == '-' as int || IsDigit(c[off]) then
      var n := ParseNumberAt(c, off);
      if n.length == 0 then Err(off) else Ok(Number(n.value), off + n.length)
    else if c[off] == '[' as int then ParseArray(c, off, depth, limit)
    else if c[off] == '{' as int then ParseObject(c, off, depth, limit)
    else Err(off)
  }

  function ParseArray(c: bytes, off: nat, depth: nat, limit: nat): (r: Parsed)
    requires Terminated(c) && off < |c| && c[off] == '[' as int
    ensures r.offset <= |c|
    ensures r.Ok? ==> off < r.offset < |c|
    decreases |c| - off, 1
  {
    hide SkipWs, ParseItems;
    if depth >= limit then Err(off)
    else
      var first := SkipWs(c, off + 1);
      if c[first] == ']' as int then Ok(Array([]), first + 1)
      else match ParseItems(c, first - 1, depth + 1, limit)
        case ItemsErr(o) => Err(o)
        case ItemsOk(items, o) => if c[o] == ']' as int then Ok(Array(items), o + 1) else Err(o)
  }

  /** The loop of `parse_array`; `p` is the position in front of the next element. */
  function ParseItems(c: bytes, p: nat, depth: nat, limit: nat): (r: ParsedItems)
    requires Terminated(c) && p + 1 < |c|
    ensures r.offset <= |c|
    ensures r.ItemsOk? ==> p + 1 < r.offset < |c| && r.items != []
    decreases |c| - p, 0
  {
    hide SkipWs, ParseValue;
    match ParseValue(c, SkipWs(c, p + 1), depth, limit)
    case Err(o) => ItemsErr(o)
    case Ok(v, o) =>
      var next := SkipWs(c, o);
      if c[next] == ',' as int then
        match ParseItems(c, next, depth, limit)
        case ItemsErr(o') => ItemsErr(o')
        case ItemsOk(items, o') => ItemsOk([v] + items, o')
      else ItemsOk([v], next)
  }

  function ParseObject(c: bytes, off: nat, depth: nat, limit: nat): (r: Parsed)
    requires Terminated(c) && off < |c| && c[off] == '{' as int
    ensures r.offset <= |c|
    ensures r.Ok? ==> off < r.offset < |c|
    decreases |c| - off, 1
  {
    hide SkipWs, ParseMembers;
    if depth >= limit then Err(off)
    else
      var first := SkipWs(c, off + 1);
      if c[first] == '}' as int then Ok(Object([]), first + 1)
      else match ParseMembers(c, first - 1, depth + 1, limit)
        case MembersErr(o) => Err(o)
        case MembersOk(members, o) => if c[o] == '}' as int then Ok(Object(members), o + 1) else Err(o)
  }

  datatype ParsedName = NameErr(offset: nat) | NameOk(name: cstring, offset: nat)

  /** A member's name and its colon; the offset is where the value starts. */
  function ParseName(c: bytes, p: nat): (r: ParsedName)
    requires Terminated(c) && p + 1 < |c|
    ensures r.offset <= |c|
    ensures r.NameOk? ==> p + 1 < r.offset < |c|
  {
    hide SkipWs, ParseStringAt;
    match ParseStringAt(c, SkipWs(c, p + 1))
    case StringErr(o) => NameErr(o)
    case StringOk(name, o) =>
      var colon := SkipWs(c, o);
      if c[colon] == ':' as int then NameOk(name, SkipWs(c, colon + 1)) else NameErr(colon)
  }

  /** The loop of `parse_object`. */
  function ParseMembers(c: bytes, p: nat, depth: nat, limit: nat): (r: ParsedMembers)
    requires Terminated(c) && p + 1 < |c|
    ensures r.offset <= |c|
    ensures r.MembersOk? ==> p + 1 < r.offset < |c| && r.members != []
    decreases |c| - p, 0
  {
    hide SkipWs, ParseName, ParseValue;
    match ParseName(c, p)
    case NameErr(o) => MembersErr(o)
    case NameOk(name, o0) =>
      match ParseValue(c, o0, depth, limit)
      case Err(o) => MembersErr(o)
      case Ok(v, o) =>
        var next := SkipWs(c, o);
        if c[next] == ',' as int then
          match ParseMembers(c, next, depth, limit)
          case MembersErr(o') => MembersErr(o')
          case MembersOk(members, o') => MembersOk([Member(name, v)] + members, o')
        else MembersOk([Member(name, v)], next)
  }

  // ----- cJSON_ParseWithOpts ------------------------------------------------------

  const BOM: bytes := [0xEF, 0xBB, 0xBF]

  /** Where the value starts, after a byte order mark and white space. */
  function ValueStart(c: bytes): (r: nat)
    requires Terminated(c)
    ensures r < |c|
  {
    SkipWs(c, if 4 < |c| && c[..3] == BOM then 3 else 0)
  }

  /** The outcome of a parse: the tree and where it ends, or the reported error position. */
  datatype Outcome = Rejected(position: nat) | Accepted(value: Json, end: nat)

  /** The position reported for a failure at offset `o`: the offset, or the last byte when the offset is at the end. */
  function ErrorPosition(c: bytes, o: nat): (p: nat)
    requires Terminated(c)
    ensures p < |c|
  {
    if o < |c| then o else |c| - 1
  }

  /** `cJSON_ParseWithOpts` on the C string `s`; a NUL is required behind the value when `strict`. */
  function Parse(s: cstring, strict: bool): (r: Outcome)
    ensures r.Rejected? ==> r.position <= |s|
    ensures r.Accepted? ==> r.end <= |s|
    ensures r.Accepted? && strict ==> r.end == |s|
  {
    var c := s + [NUL];
    match ParseValue(c, ValueStart(c), 0, NESTING_LIMIT)
    case Err(o) => Rejected(ErrorPosition(c, o))
    case Ok(v, o) =>
      var end := if strict then SkipWs(c, o) else o;
      if strict && c[end] != NUL then Rejected(ErrorPosition(c, end)) else Accepted(v, end)
  }

  // ----- the first byte decides ---------------------------------------------------

  lemma NotLiteral(c: bytes, off: nat)
    requires off < |c|
    ensures Has(c, off, NULL_TEXT) ==> c[off] == 'n' as int
    ensures Has(c, off, FALSE_TEXT) ==> c[off] == 'f' as int
    ensures Has(c, off, TRUE_TEXT) ==> c[off] == 't' as int
  {
    if Has(c, off, NULL_TEXT) { HasByte(c, off, NULL_TEXT, 0); }
    if Has(c, off, FALSE_TEXT) { HasByte(c, off, FALSE_TEXT, 0); }
    if Has(c, off, TRUE_TEXT) { HasByte(c, off, TRUE_TEXT, 0); }
  }

  lemma LeadsToContainer(c: bytes, off: nat, depth: nat, limit: nat)
    requires Terminated(c) && off < |c|
    ensures c[off] == '[' as int ==> ParseValue(c, off, depth, limit) == ParseArray(c, off, depth, limit)
    ensures c[off] == '{' as int ==> ParseValue(c, off, depth, limit) == ParseObject(c, off, depth, limit)
  {
    hide ParseArray, ParseObject, ParseStringAt, ParseNumberAt;
    NotLiteral(c, off);
  }

  /** Only the container branches look at the nesting, and scalars nest nothing. */
  lemma LeadsToScalar(c: bytes, off: nat, depth: nat, limit: nat, depth': nat, limit': nat)
    requires Terminated(c) && off < |c| && c[off] != '[' as int && c[off] != '{' as int
    ensures ParseValue(c, off, depth, limit) == ParseValue(c, off, depth', limit')
    ensures ParseValue(c, off, depth, limit).Ok? ==> Nesting(ParseValue(c, off, depth, limit).value) == 0
  {
    hide ParseStringAt, ParseNumberAt;
  }

  // ----- nesting ------------------------------------------------------------------

  /** An accepted value opens at most `limit` containers, counting those already open. */
  lemma {:induction false} NestingBounded(c: bytes, off: nat, depth: nat, limit: nat)
    requires Terminated(c) && off < |c| && depth <= limit
    requires ParseValue(c, off, depth, limit).Ok?
    ensures depth + Nesting(ParseValue(c, off, depth, limit).value) <= limit
    decreases |c| - off, 1
  {
    hide ParseValue, ParseArray, ParseObject;
    if c[off] == '[' as int {
      LeadsToContainer(c, off, depth, limit);
      NestingArrayBounded(c, off, depth, limit);
    } else if c[off] == '{' as int {
      LeadsToContainer(c, off, depth, limit);
      NestingObjectBounded(c, off, depth, limit);
    } else {
      LeadsToScalar(c, off, depth, limit, depth, limit);
    }
  }

  lemma {:induction false} NestingArrayBounded(c: bytes, off: nat, depth: nat, limit: nat)
    requires Terminated(c) && off < |c| && depth <= limit && c[off] == '[' as int
    requires ParseArray(c, off, depth, limit).Ok?
    ensures depth + Nesting(ParseArray(c, off, depth, limit).value) <= limit
    decreases |c| - off, 0, 1
  {
    hide ParseName, ParseValue, SkipWs, ParseItems, ParseMembers;
    var first := SkipWs(c, off + 1);
    if c[first] != ']' as int {
      NestingItemsBounded(c, first - 1, depth + 1, limit);
    }
  }

  lemma {:induction false} NestingObjectBounded(c: bytes, off: nat, depth: nat, limit: nat)
    requires Terminated(c) && off < |c| && depth <= limit && c[off] == '{' as int
    requires ParseObject(c, off, depth, limit).Ok?
    ensures depth + Nesting(ParseObject(c, off, depth, limit).value) <= limit
    decreases |c| - off, 0, 1
  {
    hide ParseName, ParseValue, SkipWs, ParseItems, ParseMembers;
    var first := SkipWs(c, off + 1);
    if c[first] != '}' as int {
      NestingMembersBounded(c, first - 1, depth + 1, limit);
    }
  }

  lemma {:induction false} NestingItemsBounded(c: bytes, p: nat, depth: nat, limit: nat)
    requires Terminated(c) && p + 1 < |c| && depth <= limit
    requires ParseItems(c, p, depth, limit).ItemsOk?
    ensures depth + NestingItems(ParseItems(c, p, depth, limit).items) <= limit
    decreases |c| - p, 0, 0
  {
    hide ParseName, ParseValue, SkipWs;
    var q := SkipWs(c, p + 1);
    var v := ParseValue(c, q, depth, limit);
    NestingBounded(c, q, depth, limit);
    var next := SkipWs(c, v.offset);
    if c[next] == ',' as int {
      NestingItemsBounded(c, next, depth, limit);
      var rest := ParseItems(c, next, depth, limit).items;
      assert ([v.value] + rest)[1..] == rest;
    }
  }

  lemma {:induction false} NestingMembersBounded(c: bytes, p: nat, depth: nat, limit: nat)
    requires Terminated(c) && p + 1 < |c| && depth <= limit
    requires ParseMembers(c, p, depth, limit).MembersOk?
    ensures depth + NestingMembers(ParseMembers(c, p, depth, limit).members) <= limit
    decreases |c| - p, 0, 0
  {
    hide ParseName, ParseValue, SkipWs;
    var name := ParseName(c, p);
    var v := ParseValue(c, name.offset, depth, limit);
    NestingBounded(c, name.offset, depth, limit);
    var next := SkipWs(c, v.offset);
    if c[next] == ',' as int {
      NestingMembersBounded(c, next, depth, limit);
      var rest := ParseMembers(c, next, depth, limit).members;
      assert ([Member(name.name, v.value)] + rest)[1..] == rest;
    }
  }

  // ----- a larger limit changes nothing for what a smaller one accepts ---------------

  lemma {:induction false} LimitMonotone(c: bytes, off: nat, depth: nat, limit: nat, limit': nat)
    requires Terminated(c) && off < |c| && limit <= limit'
    requires ParseValue(c, off, depth, limit).Ok?
    ensures ParseValue(c, off, depth, limit') == ParseValue(c, off, depth, limit)
    decreases |c| - off, 1
  {
    hide ParseValue, ParseArray, ParseObject;
    if c[off] == '[' as int {
      LeadsToContainer(c, off, depth, limit);
      LeadsToContainer(c, off, depth, limit');
      LimitMonotoneArray(c, off, depth, limit, limit');
    } else if c[off] == '{' as int {
      LeadsToContainer(c, off, depth, limit);
      LeadsToContainer(c, off, depth, limit');
      LimitMonotoneObject(c, off, depth, limit, limit');
    } else {
      LeadsToScalar(c, off, depth, limit, depth, limit');
    }
  }

  lemma {:induction false} LimitMonotoneArray(c: bytes, off: nat, depth: nat, limit: nat, limit': nat)
    requires Terminated(c) && off < |c| && limit <= limit' && c[off] == '[' as int
    requires ParseArray(c, off, depth, limit).Ok?
    ensures ParseArray(c, off, depth, limit') == ParseArray(c, off, depth, limit)
    decreases |c| - off, 0, 1
  {
    hide ParseName, ParseValue, SkipWs, ParseItems, ParseMembers;
    var first := SkipWs(c, off + 1);
    if c[first] != ']' as int {
      LimitMonotoneItems(c, first - 1, depth + 1, limit, limit');
    }
  }

  lemma {:induction false} LimitMonotoneObject(c: bytes, off: nat, depth: nat, limit: nat, limit': nat)
    requires Terminated(c) && off < |c| && limit <= limit' && c[off] == '{' as int
    requires ParseObject(c, off, depth, limit).Ok?
    ensures ParseObject(c, off, depth, limit') == ParseObject(c, off, depth, limit)
    decreases |c| - off, 0, 1
  {
    hide ParseName, ParseValue, SkipWs, ParseItems, ParseMembers;
    var first := SkipWs(c, off + 1);
    if c[first] != '}' as int {
      LimitMonotoneMembers(c, first - 1, depth + 1, limit, limit');
    }
  }

  lemma {:induction false} LimitMonotoneItems(c: bytes, p: nat, depth: nat, limit: nat, limit': nat)
    requires Terminated(c) && p + 1 < |c| && limit <= limit'
    requires ParseItems(c, p, depth, limit).ItemsOk?
    ensures ParseItems(c, p, depth, limit') == ParseItems(c, p, depth, limit)
    decreases |c| - p, 0, 0
  {
    hide ParseName, ParseValue, SkipWs;
    var q := SkipWs(c, p + 1);
    LimitMonotone(c, q, depth, limit, limit');
    var next := SkipWs(c, ParseValue(c, q, depth, limit).offset);
    if c[next] == ',' as int {
      LimitMonotoneItems(c, next, depth, limit, limit');
    }
  }

  lemma {:induction false} LimitMonotoneMembers(c: bytes, p: nat, depth: nat, limit: nat, limit': nat)
    requires Terminated(c) && p + 1 < |c| && limit <= limit'
    requires ParseMembers(c, p, depth, limit).MembersOk?
    ensures ParseMembers(c, p, depth, limit') == ParseMembers(c, p, depth, limit)
    decreases |c| - p, 0, 0
  {
    hide ParseName, ParseValue, SkipWs;
    var q := ParseName(c, p).offset;
    LimitMonotone(c, q, depth, limit, limit');
    var next := SkipWs(c, ParseValue(c, q, depth, limit).offset);
    if c[next] == ',' as int {
      LimitMonotoneMembers(c, next, depth, limit, limit');
    }
  }
}

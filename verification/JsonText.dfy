/** The text that the printer of cJSON.c produces, as plain concatenation. */
module JsonText {
  import opened CBytes
  import opened JsonTree
  import opened JsonNumber
  import opened JsonLiteral
  import opened JsonGrammar

  /** The temporary buffer of `print_number` holds 25 characters and a NUL. */
  const NUMBER_TEXT_ROOM: nat := 25

  type number_text = s: cstring | |s| <= NUMBER_TEXT_ROOM

  /**
   `format` selects the indented form.  `short` and `long` are the texts that
   `sprintf` gives for a number with 15 and with 17 digits, "%1.15g" and "%1.17g".
   */
  datatype Style = Style(format: bool, short: real -> number_text, long: real -> number_text)

  /** `sscanf` reads the text as a number that `compare_double` takes for `v`. */
  predicate Recovers(text: bytes, v: real) { Strtod(text).length > 0 && Close(Strtod(text).value, v) }

  /** An `int` is printed as such, any other number with 15 digits if these recover it and with 17 otherwise. */
  function NumberText(v: real, st: Style): (s: cstring)
    ensures |s| <= NUMBER_TEXT_ROOM
  {
    if PrintsAsInt(v) then DecimalLength(SaturatedInt(v)); Decimal(SaturatedInt(v))
    else if Recovers(st.short(v), v) then st.short(v)
    else st.long(v)
  }

  function Tabs(n: nat): (s: cstring)
    ensures |s| == n && forall i | 0 <= i < n :: s[i] == TAB
  {
    if n == 0 then [] else Tabs(n - 1) + [TAB]
  }

  function Open(st: Style): cstring { ['{' as int] + Newline(st) }
  function Newline(st: Style): cstring { if st.format then [NEWLINE] else [] }
  function Indent(st: Style, depth: nat): cstring { if st.format then Tabs(depth) else [] }
  function Colon(st: Style): cstring { if st.format then [':' as int, TAB] else [':' as int] }
  function Separator(st: Style): cstring { if st.format then [',' as int, SPACE] else [',' as int] }
  function MemberEnd(st: Style, more: bool): cstring { (if more then [',' as int] else []) + Newline(st) }

  /** The printed form of `t` inside `depth` containers. */
  function TextOf(t: Json, st: Style, depth: nat): cstring {
    match t
    case Null => NULL_TEXT
    case False => FALSE_TEXT
    case True => TRUE_TEXT
    case Number(v) => NumberText(v, st)
    case Text(s) => Quoted(s)
    case Raw(s) => s
    case Array(items) => ['[' as int] + (ItemsText(items, st, depth + 1) + [']' as int])
    case Object(members) =>
      Open(st) + (MembersText(members, st, depth + 1) + (Indent(st, depth) + ['}' as int]))
  }

  function ItemsText(ts: seq<Json>, st: Style, depth: nat): cstring {
    if ts == [] then []
    else if |ts| == 1 then TextOf(ts[0], st, depth)
    else TextOf(ts[0], st, depth) + (Separator(st) + ItemsText(ts[1..], st, depth))
  }

  function MembersText(ms: seq<Member>, st: Style, depth: nat): cstring {
    if ms == [] then []
    else Indent(st, depth) + (MemberText(ms[0], st, depth, |ms| > 1) + MembersText(ms[1..], st, depth))
  }

  /** One member behind its indentation. */
  function MemberText(m: Member, st: Style, depth: nat, more: bool): cstring {
    Quoted(m.name) + (Colon(st) + (TextOf(m.value, st, depth) + MemberEnd(st, more)))
  }
}

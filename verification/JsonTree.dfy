/** JSON values as trees; object members keep their order and may repeat a name. */
module JsonTree {
  import opened CBytes
  import opened Integers
  import opened JsonNumber

  datatype Json =
    | Null
    | False
    | True
    | Number(value: real)
    | Text(text: cstring)
    | Raw(text: cstring)
    | Array(items: seq<Json>)
    | Object(members: seq<Member>)

  datatype Member = Member(name: cstring, value: Json)

  /** How many containers are open at the deepest point. */
  function Nesting(t: Json): nat {
    match t
    case Array(items) => 1 + NestingItems(items)
    case Object(members) => 1 + NestingMembers(members)
    case _ => 0
  }

  function NestingItems(ts: seq<Json>): nat {
    if ts == [] then 0 else Max(Nesting(ts[0]), NestingItems(ts[1..]))
  }

  function NestingMembers(ms: seq<Member>): nat {
    if ms == [] then 0 else Max(Nesting(ms[0].value), NestingMembers(ms[1..]))
  }
}

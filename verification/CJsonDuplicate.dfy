/** `cJSON_Duplicate`: a copy made of new nodes. */
module CJsonDuplicate {
  import opened CBytes
  import opened JsonNumber
  import opened JsonTree
  import opened CJsonNode

  /** The tree without the children of its root: what a copy that is not recursive holds. */
  function Childless(t: Json): Json {
    match t
    case Array(_) => Array([])
    case Object(_) => Object([])
    case _ => t
  }

  /** The kind and the values of one node are those of another. */
  ghost predicate SameFields(r: CJson, item: CJson)
    reads r, item
  {
    && r.kind == item.kind && r.valueint == item.valueint && r.valuedouble == item.valuedouble
    && r.valuestring == item.valuestring && r.name == item.name
  }

  method CopyNode(item: CJson) returns (r: CJson)
    ensures fresh(r) && SameFields(r, item) && r.next == null && r.prev == null && r.child == null
  {
    r := new CJson();
    r.kind := item.kind;
    r.valueint := item.valueint;
    r.valuedouble := item.valuedouble;
    r.valuestring := item.valuestring;
    r.name := item.name;
  }

  /** `r` is the root of a tree of its own under the name of `s`, and its value is `value`. */
  ghost predicate IsCopy(r: CJson, d: Shape, name: Option<cstring>, value: Json)
    reads r, d.foot
  {
    && r == d.node && r.next == null && r.prev == null && Wf(d)
    && r.name == name && TreeOf(d) == value
  }

  /** A node copied without children. */
  lemma CopiedLeaf(r: CJson, s: Shape, foot: set<CJson>)
    requires Wf(s) && SameFields(r, s.node) && r.next == null && r.prev == null && r.child == null
    ensures IsCopy(r, Shape(r, [], {r} + foot), s.node.name, Childless(TreeOf(s)))
    ensures s.kids == [] ==> Childless(TreeOf(s)) == TreeOf(s)
  {
  }

  /** `cJSON_Duplicate`. */
  method Duplicate(item: CJson?, recurse: bool, ghost s: Shape) returns (r: CJson?, ghost d: Shape)
    requires item != null ==> Wf(s) && s.node == item
    ensures r == null <==> item == null
    ensures r != null ==> fresh(d.foot) && IsCopy(r, d, item.name, if recurse then TreeOf(s) else Childless(TreeOf(s)))
    decreases s, 2
  {
    hide Wf, TreeOf, SameFields, IsCopy, Childless;
    d := s;
    if item == null {
      return null, d;
    }
    NodeInFoot(s);
    r := CopyNode(item);
    if recurse {
      ghost var g := DuplicateChildren(item, r, s);
      d := ShapeOf(r, g);
    } else {
      d := Shape(r, [], {r} + {});
      CopiedLeaf(r, s, {});
    }
  }

  /** The rest of a recursive copy: the children of `item` are copied one by one, each behind the last. */
  method DuplicateChildren(item: CJson, r: CJson, ghost s: Shape) returns (ghost g: Progress)
    requires Wf(s) && s.node == item && r !in s.foot
    requires SameFields(r, item) && r.next == null && r.prev == null && r.child == null
    modifies r`child
    ensures fresh(g.foot) && IsCopy(r, ShapeOf(r, g), item.name, TreeOf(s))
    decreases s, 1
  {
    hide Wf, TreeOf, EntryOf, EntriesOf, Entries, HasEntries, ListFrom, Growing, IsCopy;
    EntriesExist(s);
    ghost var es := EntriesOf(s.kids, s.foot);
    StartGrowing(r);
    g := Progress([], {}, []);
    var child, next := item.child, null;
    ghost var i := 0;
    while child != null
      invariant 0 <= i <= |s.kids| && child == First(s.kids[i..])
      invariant HasEntries(s, es) && fresh(g.foot) && Growing(r, next, g) && g.es == es[..i]
      invariant (next != null ==> next in g.foot) && (r.child != null ==> r.child in g.foot)
      decreases |s.kids| - i
    {
      next, g := DuplicateChild(child, r, next, g, s, es, i);
      child := child.next;
      i := i + 1;
    }
    FinishCopy(r, next, g, s, es);
  }

  /** A turn of that loop. */
  method DuplicateChild(child: CJson, r: CJson, next: CJson?, ghost g: Progress,
                        ghost s: Shape, ghost es: seq<Entry>, ghost i: nat)
    returns (newchild: CJson, ghost h: Progress)
    requires HasEntries(s, es) && i < |s.kids| && child == s.kids[i].node
    requires r !in s.foot && g.foot !! s.foot
    requires Growing(r, next, g) && i <= |es| && g.es == es[..i]
    modifies r`child, if next == null then {} else {next}`next
    ensures fresh(h.foot - g.foot) && fresh(newchild) && newchild in h.foot
    ensures Growing(r, newchild, h) && r.child in h.foot
    ensures HasEntries(s, es) && i < |es| && h.es == es[..i + 1] && child.next == First(s.kids[i + 1..])
    decreases s, 0
  {
    hide Wf, TreeOf, Entries, HasEntries, ListFrom, SameFields;
    ChildAt(s, es, i);
    ghost var d;
    newchild, d := Duplicate(child, true, s.kids[i]);
    NodeInFoot(d);
    h := Grown(g, d);
    AddTree(r, next, newchild, g, d);
  }

  /** `newitem->child->prev = newchild`. */
  method FinishCopy(r: CJson, newchild: CJson?, ghost g: Progress, ghost s: Shape, ghost es: seq<Entry>)
    requires HasEntries(s, es) && Growing(r, newchild, g) && g.es == es
    requires SameFields(r, s.node) && r.next == null && r.prev == null && g.foot !! s.foot
    modifies if r.child == null then {} else {r.child}`prev
    ensures IsCopy(r, ShapeOf(r, g), s.node.name, TreeOf(s))
  {
    hide Wf, TreeOf;
    EntriesValue(s, es);
    if r.child != null {
      FinishGrowing(r, newchild, g);
    } else {
      CopiedLeaf(r, s, g.foot);
    }
  }
}

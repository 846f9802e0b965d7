/**
 The nodes of cJSON.c: records linked by next, prev and child pointers, in
 which the first child's prev is the last child.  A ghost `Shape` names the
 nodes of a tree; `Wf` says that the pointers agree with it.
 */
module CJsonNode {
  import opened CBytes
  import opened JsonNumber
  import opened JsonTree

  datatype Kind = Invalid | FalseKind | TrueKind | NullKind | NumberKind | StringKind | ArrayKind | ObjectKind | RawKind

  class CJson {
    var next: CJson?
    var prev: CJson?
    var child: CJson?
    var kind: Kind
    var valuestring: Option<cstring>
    var valueint: int
    var valuedouble: real
    var name: Option<cstring>

    /** `cJSON_New_Item`: every field is zero. */
    constructor ()
      ensures next == null && prev == null && child == null && kind == Invalid
      ensures valuestring == None && valueint == 0 && valuedouble == 0.0 && name == None
    {
      next, prev, child := null, null, null;
      kind, valuestring, valueint, valuedouble, name := Invalid, None, 0, 0.0, None;
    }
  }

  /** A tree of nodes: its root, its subtrees, and a set of nodes that contains all of them. */
  datatype Shape = Shape(node: CJson, kids: seq<Shape>, foot: set<CJson>)

  ghost predicate Within(ss: seq<Shape>, foot: set<CJson>) {
    forall i | 0 <= i < |ss| :: ss[i].node in ss[i].foot && ss[i].foot <= foot
  }

  ghost predicate Disjoint(ss: seq<Shape>) {
    forall i, j | 0 <= i < j < |ss| :: ss[i].foot !! ss[j].foot
  }

  function First(ss: seq<Shape>): CJson? { if ss == [] then null else ss[0].node }

  ghost function NodesOf(ss: seq<Shape>): (ns: seq<CJson>)
    ensures |ns| == |ss| && forall i | 0 <= i < |ss| :: ns[i] == ss[i].node
  {
    seq(|ss|, i requires 0 <= i < |ss| => ss[i].node)
  }

  function After(ns: seq<CJson>, i: nat): CJson? { if i + 1 < |ns| then ns[i + 1] else null }

  function Before(ns: seq<CJson>, i: nat, before: CJson?): CJson? {
    if 0 < i <= |ns| then ns[i - 1] else before
  }

  /** A null-terminated sibling list whose first prev is `before`. */
  ghost predicate Chained(ns: seq<CJson>, before: CJson?)
    reads ns
  {
    forall i | 0 <= i < |ns| :: ns[i].next == After(ns, i) && ns[i].prev == Before(ns, i, before)
  }

  /** The sibling list of cJSON.c: the first prev is the last node. */
  ghost predicate Linked(ss: seq<Shape>, foot: set<CJson>)
    requires Within(ss, foot)
    reads foot
  {
    ss != [] ==> Chained(NodesOf(ss), ss[|ss| - 1].node)
  }

  /** The fields of the node suit its kind; children come only under containers, named under objects. */
  ghost predicate Fields(s: Shape)
    requires s.node in s.foot && Within(s.kids, s.foot)
    reads s.foot
  {
    match s.node.kind
    case Invalid => false
    case NumberKind => s.kids == [] && s.node.valueint == SaturatedInt(s.node.valuedouble)
    case StringKind => s.kids == [] && s.node.valuestring.Some?
    case RawKind => s.kids == [] && s.node.valuestring.Some?
    case ArrayKind => true
    case ObjectKind => forall i | 0 <= i < |s.kids| :: s.kids[i].node.name.Some?
    case _ => s.kids == []
  }

  ghost predicate Wf(s: Shape)
    reads s.foot
    decreases s
  {
    && s.node in s.foot
    && Within(s.kids, s.foot - {s.node})
    && s.node.child == First(s.kids)
    && Disjoint(s.kids)
    && Linked(s.kids, s.foot)
    && Fields(s)
    && (forall i | 0 <= i < |s.kids| :: Wf(s.kids[i]))
  }

  /** The JSON value that a well-formed tree of nodes stands for. */
  ghost function TreeOf(s: Shape): Json
    requires Wf(s)
    reads s.foot
    decreases s
  {
    match s.node.kind
    case NullKind => Null
    case FalseKind => False
    case TrueKind => True
    case NumberKind => Number(s.node.valuedouble)
    case StringKind => Text(s.node.valuestring.value)
    case RawKind => Raw(s.node.valuestring.value)
    case ArrayKind => Array(ItemsOf(s.kids, s.foot))
    case ObjectKind => Object(MembersOf(s.kids, s.foot))
  }

  ghost predicate WfAll(ss: seq<Shape>, foot: set<CJson>)
    reads foot
  {
    Within(ss, foot) && forall i | 0 <= i < |ss| :: Wf(ss[i])
  }

  ghost function ItemsOf(ss: seq<Shape>, foot: set<CJson>): (r: seq<Json>)
    requires WfAll(ss, foot)
    reads foot
    ensures |r| == |ss| && forall i | 0 <= i < |ss| :: r[i] == TreeOf(ss[i])
    decreases ss
  {
    if ss == [] then [] else [TreeOf(ss[0])] + ItemsOf(ss[1..], foot)
  }

  ghost predicate Named(ss: seq<Shape>, foot: set<CJson>)
    requires Within(ss, foot)
    reads foot
  {
    forall i | 0 <= i < |ss| :: ss[i].node.name.Some?
  }

  ghost function MembersOf(ss: seq<Shape>, foot: set<CJson>): (r: seq<Member>)
    requires WfAll(ss, foot) && Named(ss, foot)
    reads foot
    ensures |r| == |ss|
    ensures forall i | 0 <= i < |ss| :: r[i] == Member(ss[i].node.name.value, TreeOf(ss[i]))
    decreases ss
  {
    if ss == [] then [] else [Member(ss[0].node.name.value, TreeOf(ss[0]))] + MembersOf(ss[1..], foot)
  }

  /** A tree none of whose nodes changed. */
  twostate lemma Untouched(s: Shape)
    requires forall n | n in s.foot :: unchanged(n)
    requires old(Wf(s))
    ensures Wf(s) && TreeOf(s) == old(TreeOf(s))
  {
  }

  /** `k` is the tree it was, with the same name and sibling pointers. */
  twostate predicate KidKept(k: Shape)
    requires old(Wf(k)) && k.node in k.foot
    reads k.foot
  {
    && Wf(k) && TreeOf(k) == old(TreeOf(k)) && k.node.name == old(k.node.name)
    && k.node.next == old(k.node.next) && k.node.prev == old(k.node.prev)
  }

  twostate predicate KidsKept(s: Shape)
    requires old(Wf(s)) && Within(s.kids, s.foot)
    reads s.foot
  {
    forall i | 0 <= i < |s.kids| :: KidKept(s.kids[i])
  }

  twostate lemma LinkedKept(s: Shape)
    requires old(Wf(s))
    requires KidsKept(s)
    ensures Linked(s.kids, s.foot)
  {
    hide TreeOf;
    var kids, ns := s.kids, NodesOf(s.kids);
    if kids != [] {
      forall i | 0 <= i < |ns|
        ensures ns[i].next == old(ns[i].next) && ns[i].prev == old(ns[i].prev)
      {
        assert KidKept(kids[i]);
      }
    }
  }

  twostate lemma RootWf(s: Shape)
    requires old(Wf(s))
    requires KidsKept(s)
    requires Linked(s.kids, s.foot)
    requires s.node.child == old(s.node.child) && s.node.kind == old(s.node.kind)
    requires s.node.valuestring == old(s.node.valuestring)
    requires s.node.valueint == old(s.node.valueint) && s.node.valuedouble == old(s.node.valuedouble)
    ensures Wf(s)
  {
    hide TreeOf, Linked;
    assert forall i | 0 <= i < |s.kids| :: KidKept(s.kids[i]);
    assert old(Fields(s));
  }

  twostate lemma RootTree(s: Shape)
    requires old(Wf(s)) && Wf(s) && KidsKept(s)
    requires s.node.kind == old(s.node.kind)
    requires s.node.valuestring == old(s.node.valuestring) && s.node.valuedouble == old(s.node.valuedouble)
    ensures TreeOf(s) == old(TreeOf(s))
  {
    hide Linked, Disjoint;
    if s.node.kind == ArrayKind {
      assert ItemsOf(s.kids, s.foot) == old(ItemsOf(s.kids, s.foot));
    } else if s.node.kind == ObjectKind {
      assert MembersOf(s.kids, s.foot) == old(MembersOf(s.kids, s.foot));
    }
  }

  twostate lemma KidsUntouched(s: Shape)
    requires old(Wf(s)) && Within(s.kids, s.foot)
    requires forall n | n in s.foot && n != s.node :: unchanged(n)
    ensures KidsKept(s)
  {
    hide TreeOf, Linked, Fields;
    forall i | 0 <= i < |s.kids| ensures KidKept(s.kids[i]) {
      Untouched(s.kids[i]);
    }
  }

  /** Nothing changed in `k` but the sibling pointers of its root. */
  twostate predicate RootLinksOnly(k: Shape)
    reads k.foot
  {
    && k.node in k.foot
    && (forall n | n in k.foot && n != k.node :: unchanged(n))
    && k.node.child == old(k.node.child) && k.node.kind == old(k.node.kind)
    && k.node.valuestring == old(k.node.valuestring) && k.node.name == old(k.node.name)
    && k.node.valueint == old(k.node.valueint) && k.node.valuedouble == old(k.node.valuedouble)
  }

  /** A node in a sibling list: its name and its tree. */
  datatype Entry = Entry(name: Option<cstring>, value: Json)

  ghost function EntryOf(k: Shape): Entry
    requires Wf(k)
    reads k.foot
  {
    Entry(k.node.name, TreeOf(k))
  }

  /** The tree is the one it was, under the same name. */
  twostate predicate SameTree(k: Shape)
    requires old(Wf(k))
    reads k.foot
  {
    Wf(k) && EntryOf(k) == old(EntryOf(k))
  }

  /** The sibling pointers of the root are not part of its tree. */
  twostate lemma RootLinksIrrelevant(s: Shape)
    requires old(Wf(s))
    requires RootLinksOnly(s)
    ensures SameTree(s)
  {
    assert Within(s.kids, s.foot);
    hide Wf, TreeOf;
    KidsUntouched(s);
    LinkedKept(s);
    RootWf(s);
    RootTree(s);
  }

  // ----- building a sibling list ----------------------------------------------------

  /** Disjoint trees and their names are `es`, in order. */
  ghost predicate Entries(kids: seq<Shape>, foot: set<CJson>, es: seq<Entry>)
    reads foot
  {
    && WfAll(kids, foot) && Disjoint(kids)
    && |es| == |kids| && forall i | 0 <= i < |kids| :: EntryOf(kids[i]) == es[i]
  }

  /** The entries are chained from the front; the first prev is still null, and `next` (if any) follows the last. */
  ghost predicate Building(kids: seq<Shape>, foot: set<CJson>, es: seq<Entry>)
    reads foot
  {
    Entries(kids, foot, es) && Chained(NodesOf(kids), null)
  }

  /** A list under construction with its first and last node. */
  ghost predicate ListFrom(head: CJson?, tail: CJson?, kids: seq<Shape>, foot: set<CJson>, es: seq<Entry>)
    reads foot
  {
    && Building(kids, foot, es)
    && (if kids == [] then head == tail == null
        else head == kids[0].node && tail == kids[|kids| - 1].node && head in foot && tail in foot)
  }

  function Values(es: seq<Entry>): (vs: seq<Json>)
    ensures |vs| == |es| && forall i | 0 <= i < |es| :: vs[i] == es[i].value
  {
    seq(|es|, i requires 0 <= i < |es| => es[i].value)
  }

  predicate AllNamed(es: seq<Entry>) { forall i | 0 <= i < |es| :: es[i].name.Some? }

  function Members(es: seq<Entry>): (ms: seq<Member>)
    requires AllNamed(es)
    ensures |ms| == |es| && forall i | 0 <= i < |es| :: ms[i] == Member(es[i].name.value, es[i].value)
  {
    seq(|es|, i requires 0 <= i < |es| => Member(es[i].name.value, es[i].value))
  }

  /** Every tree of `kids` is the tree it was, under the same name. */
  twostate predicate SameTrees(kids: seq<Shape>)
    requires forall i | 0 <= i < |kids| :: old(Wf(kids[i]))
    reads set i, n | 0 <= i < |kids| && n in kids[i].foot :: n
  {
    forall i | 0 <= i < |kids| :: SameTree(kids[i])
  }

  twostate lemma SiblingsKept(kids: seq<Shape>)
    requires forall i | 0 <= i < |kids| :: old(Wf(kids[i]))
    requires forall i | 0 <= i < |kids| :: RootLinksOnly(kids[i])
    ensures SameTrees(kids)
  {
    hide Wf, TreeOf, RootLinksOnly, SameTree;
    forall i | 0 <= i < |kids| ensures SameTree(kids[i]) {
      RootLinksIrrelevant(kids[i]);
    }
  }

  twostate lemma AllUntouched(kids: seq<Shape>)
    requires forall i | 0 <= i < |kids| :: old(Wf(kids[i]))
    requires forall i, n | 0 <= i < |kids| && n in kids[i].foot :: unchanged(n)
    ensures SameTrees(kids)
  {
    forall i | 0 <= i < |kids| ensures SameTree(kids[i]) {
      Untouched(kids[i]);
    }
  }

  twostate lemma ChainKept(ms: seq<CJson>)
    requires old(Chained(ms, null))
    requires forall i | 0 <= i < |ms| :: ms[i].next == old(ms[i].next) && ms[i].prev == old(ms[i].prev)
    ensures Chained(ms, null)
  {
    forall i | 0 <= i < |ms| ensures ms[i].next == After(ms, i) && ms[i].prev == Before(ms, i, null) {
      assert old(ms[i].next) == After(ms, i) && old(ms[i].prev) == Before(ms, i, null);
    }
  }

  /** The chain `ms` without its last node was a chain, and the last node was linked behind it. */
  twostate lemma ChainExtended(ms: seq<CJson>)
    requires |ms| >= 2
    requires old(Chained(ms[..|ms| - 1], null))
    requires forall i | 0 <= i < |ms| - 1 :: ms[i].prev == old(ms[i].prev)
    requires forall i | 0 <= i < |ms| - 2 :: ms[i].next == old(ms[i].next)
    requires ms[|ms| - 2].next == ms[|ms| - 1] && ms[|ms| - 1].prev == ms[|ms| - 2] && ms[|ms| - 1].next == null
    ensures Chained(ms, null)
  {
    var ns := ms[..|ms| - 1];
    forall i | 0 <= i < |ms| ensures ms[i].next == After(ms, i) && ms[i].prev == Before(ms, i, null) {
      if i < |ns| {
        assert old(ns[i].next) == After(ns, i) && old(ns[i].prev) == Before(ns, i, null);
      }
    }
  }

  /** The first prev was null and now is the last node. */
  twostate lemma ChainClosed(ns: seq<CJson>)
    requires ns != []
    requires old(Chained(ns, null))
    requires forall i | 0 <= i < |ns| :: ns[i].next == old(ns[i].next)
    requires forall i | 0 < i < |ns| :: ns[i].prev == old(ns[i].prev)
    requires ns[0].prev == ns[|ns| - 1]
    ensures Chained(ns, ns[|ns| - 1])
  {
    forall i | 0 <= i < |ns|
      ensures ns[i].next == After(ns, i) && ns[i].prev == Before(ns, i, ns[|ns| - 1])
    {
      assert old(ns[i].next) == After(ns, i) && old(ns[i].prev) == Before(ns, i, null);
    }
  }

  /** The root of `kids[k]` belongs to no other tree, and `item` to none. */
  lemma RootApart(kids: seq<Shape>, foot: set<CJson>, k: nat, item: CJson?)
    requires WfAll(kids, foot) && Disjoint(kids) && k < |kids| && item !in foot
    ensures forall i | 0 <= i < |kids| ::
              kids[i].node in kids[i].foot && item !in kids[i].foot && (i != k ==> kids[k].node !in kids[i].foot)
  {
    hide Wf;
    forall i | 0 <= i < |kids| && i != k ensures kids[k].node !in kids[i].foot {
      assert kids[if i < k then i else k].foot !! kids[if i < k then k else i].foot;
    }
  }

  /** `suffix_object`: link `item` behind `prev`, the last node of `kids`. */
  method SuffixObject(prev: CJson, item: CJson, ghost kids: seq<Shape>, ghost foot: set<CJson>, ghost es: seq<Entry>)
    requires Building(kids, foot, es) && kids != [] && prev == kids[|kids| - 1].node
    requires item !in foot && item.next == null
    modifies prev`next, item`prev
    ensures Entries(kids, foot, es)
    ensures Chained(NodesOf(kids) + [item], null)
  {
    hide Wf, TreeOf, Chained;
    ghost var ms := NodesOf(kids) + [item];
    RootApart(kids, foot, |kids| - 1, item);
    assert ms[..|kids|] == NodesOf(kids);
    prev.next := item;
    item.prev := prev;
    SiblingsKept(kids);
    ChainExtended(ms);
  }

  /** A new tree, already chained behind the others, joins them. */
  lemma BuildingExtended(kids: seq<Shape>, foot: set<CJson>, es: seq<Entry>, s: Shape)
    requires Entries(kids, foot, es) && Wf(s) && s.foot !! foot
    requires Chained(NodesOf(kids) + [s.node], null)
    ensures Building(kids + [s], foot + s.foot, es + [EntryOf(s)])
  {
    hide Wf, TreeOf, EntryOf, Chained;
    NodeInFoot(s);
    assert NodesOf(kids + [s]) == NodesOf(kids) + [s.node];
    DisjointExtended(kids, foot, s);
  }

  lemma DisjointExtended(kids: seq<Shape>, foot: set<CJson>, s: Shape)
    requires Within(kids, foot) && Disjoint(kids) && s.foot !! foot && s.node in s.foot
    ensures Within(kids + [s], foot + s.foot) && Disjoint(kids + [s])
  {
  }

  lemma NodeInFoot(s: Shape)
    requires Wf(s)
    ensures s.node in s.foot
  {
  }

  lemma SingleChain(node: CJson)
    requires node.next == null && node.prev == null
    ensures Chained([node], null)
  {
  }

  lemma EmptyList()
    ensures ListFrom(null, null, [], {}, [])
  {
  }

  /** A list with a new node linked behind it that is not a tree yet. */
  datatype Draft = Draft(head: CJson?, kids: seq<Shape>, foot: set<CJson>, es: seq<Entry>, node: CJson)

  ghost predicate Pending(d: Draft)
    reads d.foot, d.node
  {
    && Entries(d.kids, d.foot, d.es) && d.node !in d.foot
    && Chained(NodesOf(d.kids) + [d.node], null)
    && (if d.kids == [] then d.head == null else d.head == d.kids[0].node && d.head in d.foot)
  }

  /** Filling in the new node leaves the draft as it is. */
  twostate lemma PendingKept(d: Draft)
    requires old(Pending(d))
    requires forall n | n in d.foot :: unchanged(n)
    requires d.node.next == old(d.node.next) && d.node.prev == old(d.node.prev)
    ensures Pending(d)
  {
    hide Wf, TreeOf;
    AllUntouched(d.kids);
    ChainKept(NodesOf(d.kids) + [d.node]);
  }

  /** Once the new node is a tree of its own, the list has one entry more. */
  lemma Joined(d: Draft, s: Shape)
    requires Pending(d) && Wf(s) && s.node == d.node && s.foot !! d.foot
    ensures ListFrom(if d.head == null then d.node else d.head, d.node,
                     d.kids + [s], d.foot + s.foot, d.es + [EntryOf(s)])
  {
    NodeInFoot(s);
    BuildingExtended(d.kids, d.foot, d.es, s);
    hide Building, Entries, Wf, TreeOf, EntryOf;
    assert (d.kids + [s])[|d.kids|] == s;
  }

  /** A new node behind `tail`: the start of every turn of a loop that builds children. */
  method AttachNew(head: CJson?, tail: CJson?, ghost kids: seq<Shape>, ghost foot: set<CJson>, ghost es: seq<Entry>)
    returns (node: CJson)
    requires ListFrom(head, tail, kids, foot, es)
    modifies if tail == null then {} else {tail}`next
    ensures fresh(node) && node.child == null && node.name == None && node.kind == Invalid
    ensures Pending(Draft(head, kids, foot, es, node))
  {
    hide Wf, TreeOf, Chained;
    node := new CJson();
    if tail != null {
      SuffixObject(tail, node, kids, foot, es);
    } else {
      SingleChain(node);
      assert kids == [] && NodesOf(kids) + [node] == [node];
    }
  }

  /** A finished tree joins the list: `if (!i) head = n; else suffix_object(p, n)`. */
  method AttachTree(head: CJson?, tail: CJson?, node: CJson,
                    ghost kids: seq<Shape>, ghost foot: set<CJson>, ghost es: seq<Entry>, ghost s: Shape)
    returns (newHead: CJson)
    requires ListFrom(head, tail, kids, foot, es) && Wf(s) && s.node == node && s.foot !! foot
    requires node.next == null && node.prev == null
    modifies if tail == null then {} else {tail}`next
    modifies node`prev
    ensures newHead == if head == null then node else head
    ensures ListFrom(newHead, node, kids + [s], foot + s.foot, es + [old(EntryOf(s))])
  {
    hide Wf, TreeOf, EntryOf, Chained, Entries;
    NodeInFoot(s);
    if tail != null {
      SuffixObject(tail, node, kids, foot, es);
      newHead := head;
    } else {
      SingleChain(node);
      assert NodesOf(kids) + [node] == [node];
      newHead := node;
    }
    RootLinksIrrelevant(s);
    BuildingExtended(kids, foot, es, s);
    assert (kids + [s])[|kids|] == s;
  }

  /** The last step of building a list: the first prev becomes the tail. */
  method CloseList(head: CJson, tail: CJson, ghost kids: seq<Shape>, ghost foot: set<CJson>, ghost es: seq<Entry>)
    requires Building(kids, foot, es) && kids != [] && head == kids[0].node && tail == kids[|kids| - 1].node
    modifies head`prev
    ensures Entries(kids, foot, es) && Linked(kids, foot)
  {
    hide Wf, TreeOf, Chained;
    RootApart(kids, foot, 0, null);
    head.prev := tail;
    SiblingsKept(kids);
    ChainClosed(NodesOf(kids));
  }

  lemma ContainerWf(s: Shape, foot: set<CJson>)
    requires s.foot == {s.node} + foot && s.node !in foot
    requires WfAll(s.kids, foot) && Disjoint(s.kids) && Linked(s.kids, foot)
    requires s.node.kind == ArrayKind || (s.node.kind == ObjectKind && Named(s.kids, foot))
    requires s.node.child == First(s.kids)
    ensures Wf(s)
  {
    hide TreeOf;
  }

  lemma ContainerTree(s: Shape, foot: set<CJson>, es: seq<Entry>)
    requires Wf(s) && foot <= s.foot && Entries(s.kids, foot, es)
    ensures s.node.kind == ArrayKind ==> TreeOf(s) == Array(Values(es))
    ensures s.node.kind == ObjectKind && AllNamed(es) ==> TreeOf(s) == Object(Members(es))
  {
    hide Linked, Disjoint;
    var kids := s.kids;
    assert forall i | 0 <= i < |kids| :: EntryOf(kids[i]) == es[i];
    if s.node.kind == ArrayKind {
      assert ItemsOf(kids, s.foot) == Values(es);
    } else if s.node.kind == ObjectKind && AllNamed(es) {
      assert MembersOf(kids, s.foot) == Members(es);
    }
  }

  /** `item->type = kind; item->child = head` for a finished list. */
  method AdoptList(item: CJson, kind: Kind, head: CJson?, ghost kids: seq<Shape>, ghost foot: set<CJson>,
                   ghost es: seq<Entry>)
    requires Entries(kids, foot, es) && Linked(kids, foot)
    requires kind == ArrayKind || (kind == ObjectKind && AllNamed(es))
    requires head == First(kids) && item !in foot
    modifies item`kind, item`child
    ensures var s := Shape(item, kids, {item} + foot);
            Wf(s) && TreeOf(s) == if kind == ArrayKind then Array(Values(es)) else Object(Members(es))
  {
    hide Wf, TreeOf, Linked, Disjoint;
    item.kind := kind;
    item.child := head;
    AllUntouched(kids);
    assert forall i | 0 <= i < |kids| :: EntryOf(kids[i]) == es[i];
    ContainerWf(Shape(item, kids, {item} + foot), foot);
    ContainerTree(Shape(item, kids, {item} + foot), foot, es);
  }

  /** The end of every loop that builds children: `head->prev = tail; item->type = kind; item->child = head`. */
  method FinishContainer(item: CJson, kind: Kind, head: CJson?, tail: CJson?,
                         ghost kids: seq<Shape>, ghost foot: set<CJson>, ghost es: seq<Entry>)
    requires ListFrom(head, tail, kids, foot, es)
    requires kind == ArrayKind || (kind == ObjectKind && AllNamed(es))
    requires item !in foot
    modifies item`kind, item`child, if head == null then {} else {head}`prev
    ensures var s := Shape(item, kids, {item} + foot);
            Wf(s) && TreeOf(s) == if kind == ArrayKind then Array(Values(es)) else Object(Members(es))
  {
    hide Wf, TreeOf;
    if head != null {
      CloseList(head, tail, kids, foot, es);
    }
    AdoptList(item, kind, head, kids, foot, es);
  }

  // ----- a container that grows at the end ------------------------------------------------

  /** The children a container has so far, their nodes and their entries. */
  datatype Progress = Progress(kids: seq<Shape>, foot: set<CJson>, es: seq<Entry>)

  /** The children of `a` are chained from `a.child` to `last`; the first prev is not set yet. */
  ghost predicate Growing(a: CJson, last: CJson?, g: Progress)
    reads a, g.foot
  {
    && a !in g.foot && ListFrom(a.child, last, g.kids, g.foot, g.es)
    && (a.child == null <==> last == null) && (last != null ==> last in g.foot && a.child in g.foot)
  }

  ghost function Grown(g: Progress, s: Shape): Progress
    requires Wf(s)
    reads s.foot
  {
    Progress(g.kids + [s], g.foot + s.foot, g.es + [EntryOf(s)])
  }

  lemma StartGrowing(a: CJson)
    requires a.child == null
    ensures Growing(a, null, Progress([], {}, []))
  {
    EmptyList();
  }

  /** `if (last == NULL) a->child = n; else suffix_object(last, n);` */
  method AddTree(a: CJson, last: CJson?, n: CJson, ghost g: Progress, ghost s: Shape)
    requires Growing(a, last, g) && Wf(s) && s.node == n && s.foot !! g.foot && a !in s.foot
    requires n.next == null && n.prev == null
    modifies a`child, n`prev, if last == null then {} else {last}`next
    ensures Growing(a, n, old(Grown(g, s))) && a.child in g.foot + s.foot
  {
    hide Wf, TreeOf, Building;
    a.child := AttachTree(a.child, last, n, g.kids, g.foot, g.es, s);
  }

  /** `if (a->child) a->child->prev = n;` finishes the container. */
  method FinishGrowing(a: CJson, last: CJson?, ghost g: Progress)
    requires Growing(a, last, g)
    requires a.kind == ArrayKind || (a.kind == ObjectKind && AllNamed(g.es))
    modifies if a.child == null then {} else {a.child}`prev
    ensures IsContainer(a, g)
  {
    hide Wf, TreeOf;
    if a.child != null {
      CloseList(a.child, last, g.kids, g.foot, g.es);
    }
    assert forall i | 0 <= i < |g.kids| :: EntryOf(g.kids[i]) == g.es[i];
    ContainerWf(ShapeOf(a, g), g.foot);
    ContainerTree(ShapeOf(a, g), g.foot, g.es);
  }

  ghost function ShapeOf(a: CJson, g: Progress): Shape { Shape(a, g.kids, {a} + g.foot) }

  /** `a` is the root of a tree whose value has these entries. */
  ghost predicate IsContainer(a: CJson, g: Progress)
    reads a, g.foot
  {
    && Wf(ShapeOf(a, g)) && (a.kind == ObjectKind ==> AllNamed(g.es))
    && TreeOf(ShapeOf(a, g)) == if a.kind == ObjectKind then Object(Members(g.es)) else Array(Values(g.es))
  }

  // ----- reading a tree -------------------------------------------------------------------

  ghost function EntriesOf(ss: seq<Shape>, foot: set<CJson>): (r: seq<Entry>)
    requires WfAll(ss, foot)
    reads foot
    ensures |r| == |ss| && forall i | 0 <= i < |ss| :: r[i] == EntryOf(ss[i])
    decreases ss
  {
    if ss == [] then [] else [EntryOf(ss[0])] + EntriesOf(ss[1..], foot)
  }

  /** A well-formed tree and the entries its children stand for. */
  ghost predicate HasEntries(s: Shape, es: seq<Entry>)
    reads s.foot
  {
    Wf(s) && Entries(s.kids, s.foot, es)
  }

  lemma EntriesExist(s: Shape)
    requires Wf(s)
    ensures WfAll(s.kids, s.foot) && HasEntries(s, EntriesOf(s.kids, s.foot))
    ensures s.node.child == First(s.kids)
  {
    hide TreeOf, Linked;
  }

  /** What the walk over the children meets. */
  lemma ChildAt(s: Shape, es: seq<Entry>, i: nat)
    requires HasEntries(s, es) && i < |s.kids|
    ensures s.kids[i].node in s.foot && Wf(s.kids[i]) && |es| == |s.kids| && es[i] == EntryOf(s.kids[i])
    ensures s.kids[i].foot <= s.foot && s.kids[i].node.next == First(s.kids[i + 1..])
  {
    hide TreeOf, EntryOf;
    var ns := NodesOf(s.kids);
    assert ns[i].next == After(ns, i);
  }

  /** A tree with children is a container, and its value is made of their entries. */
  lemma EntriesValue(s: Shape, es: seq<Entry>)
    requires HasEntries(s, es)
    ensures s.kids != [] ==> s.node.kind == ArrayKind || s.node.kind == ObjectKind
    ensures s.node.kind == ObjectKind ==> AllNamed(es) && TreeOf(s) == Object(Members(es))
    ensures s.node.kind == ArrayKind ==> TreeOf(s) == Array(Values(es))
  {
    EntriesNamed(s, es);
    hide Wf, TreeOf, EntryOf, Entries;
    ContainerTree(s, s.foot, es);
  }

  lemma EntriesNamed(s: Shape, es: seq<Entry>)
    requires HasEntries(s, es)
    ensures s.kids != [] ==> s.node.kind == ArrayKind || s.node.kind == ObjectKind
    ensures s.node.kind == ObjectKind ==> AllNamed(es)
  {
    hide TreeOf, Linked;
    assert forall i | 0 <= i < |es| :: es[i] == EntryOf(s.kids[i]);
  }
}

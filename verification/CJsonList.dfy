/**
 Surgery on the child list of an array or object: appending, inserting,
 detaching and replacing through the next and prev pointers act as the
 corresponding operations on the sequence of children.
 */
module CJsonList {
  import opened CBytes
  import opened JsonTree
  import opened JsonNumber
  import opened CJsonDelete
  import opened CJsonNode
  import opened Sequences

  // ----- the pointers ---------------------------------------------------------------------

  ghost predicate Distinct(ns: seq<CJson>) { forall i, j | 0 <= i < j < |ns| :: ns[i] != ns[j] }

  ghost function NodeSet(ns: seq<CJson>): set<CJson> { set n | n in ns }

  /** The child list of `parent` is exactly `ns`. */
  ghost predicate ChildList(parent: CJson, ns: seq<CJson>)
    reads parent, ns
  {
    && parent !in ns && Distinct(ns)
    && parent.child == (if ns == [] then null else ns[0])
    && (ns != [] ==> Chained(ns, ns[|ns| - 1]))
  }

  /** `get_array_item`: the child at `index`, or null behind the end. */
  method GetArrayItem(parent: CJson, index: nat, ghost ns: seq<CJson>) returns (item: CJson?)
    requires ChildList(parent, ns)
    ensures item == if index < |ns| then ns[index] else null
  {
    var left := index;
    item := parent.child;
    ghost var k := 0;
    while item != null && left > 0
      invariant left >= 0 && k + left == index && k <= |ns|
      invariant if k < |ns| then item == ns[k] else item == null
      decreases left
    {
      assert ns[k].next == After(ns, k);
      left := left - 1;
      item := item.next;
      k := k + 1;
    }
  }

  /**
   `add_item_to_array`: the tail is found through the first prev.  Behind
   other children the `next` of the item stays, so it must be null already.
   */
  method AppendNode(parent: CJson, item: CJson, ghost ns: seq<CJson>)
    requires ChildList(parent, ns) && item !in ns && item != parent
    modifies parent`child, NodeSet(ns + [item])`next, NodeSet(ns + [item])`prev
    ensures ChildList(parent, ns + [item]) <==> ns == [] || old(item.next) == null
  {
    hide Chained;
    var child := parent.child;
    AppendDistinct(ns, item);
    if child == null {
      parent.child := item;
      item.prev := item;
      item.next := null;
      SingleChain(item);
      assert ns + [item] == [item];
    } else {
      ChainAt(ns, 0);
      ChainAt(ns, |ns| - 1);
      child.prev.next := item;
      item.prev := child.prev;
      parent.child.prev := item;
      if item.next == null {
        AppendChain(Joint(ns, |ns|, item));
      } else if ChildList(parent, ns + [item]) {
        ChainAt(ns + [item], |ns|);
      }
    }
  }

  lemma AppendDistinct(ns: seq<CJson>, item: CJson)
    requires Distinct(ns) && item !in ns
    ensures Distinct(ns + [item])
  {
  }

  lemma SingleChain(item: CJson)
    requires item.next == null && item.prev == item
    ensures Chained([item], item)
  {
  }

  /** The pointer writes of an append, if the item is linked to nothing. */
  twostate lemma AppendChain(j: Joint)
    requires j.ns != [] && j.item !in j.ns
    requires old(Chained(j.ns, j.ns[|j.ns| - 1]))
    requires j.item.next == null && j.item.prev == j.ns[|j.ns| - 1]
    requires forall i | 0 <= i < |j.ns| :: j.ns[i].next == if i + 1 == |j.ns| then j.item else old(j.ns[i].next)
    requires forall i | 0 <= i < |j.ns| :: j.ns[i].prev == if i == 0 then j.item else old(j.ns[i].prev)
    ensures Chained(j.ns + [j.item], j.item)
  {
    var ns, ms := j.ns, j.ns + [j.item];
    forall i | 0 <= i < |ms| ensures ms[i].next == After(ms, i) && ms[i].prev == Before(ms, i, j.item) {
      if i < |ns| {
        assert old(ns[i].next) == After(ns, i) && old(ns[i].prev) == Before(ns, i, ns[|ns| - 1]);
      }
    }
  }

  /** `cJSON_DetachItemViaPointer`. */
  method DetachNode(parent: CJson, item: CJson, ghost ns: seq<CJson>, ghost k: nat)
    requires ChildList(parent, ns) && k < |ns| && item == ns[k]
    modifies parent`child, NodeSet(ns)`next, NodeSet(ns)`prev
    ensures ChildList(parent, Remove(ns, k)) && item.next == null && item.prev == null
  {
    hide Chained, Remove;
    ChainAt(ns, k);
    RemoveDistinct(ns, k);
    if item != parent.child {
      item.prev.next := item.next;
    }
    if item.next != null {
      item.next.prev := item.prev;
    }
    if item == parent.child {
      parent.child := item.next;
    } else if item.next == null {
      parent.child.prev := item.prev;
    }
    item.prev := null;
    item.next := null;
    if |ns| > 1 {
      DetachChain(Gap(ns, k));
    }
  }

  lemma ChainAt(ns: seq<CJson>, k: nat)
    requires k < |ns| && Chained(ns, ns[|ns| - 1])
    ensures ns[k].next == After(ns, k) && ns[k].prev == Before(ns, k, ns[|ns| - 1])
  {
  }

  lemma RemoveDistinct(ns: seq<CJson>, k: nat)
    requires Distinct(ns) && k < |ns|
    ensures Distinct(Remove(ns, k)) && ns[k] !in Remove(ns, k) && |Remove(ns, k)| == |ns| - 1
    ensures forall n | n in Remove(ns, k) :: n in ns
    ensures |ns| > 1 ==> Remove(ns, k)[0] == if k == 0 then ns[1] else ns[0]
  {
  }

  datatype Gap = Gap(ns: seq<CJson>, k: nat)

  /** The pointer writes of a detach close the gap. */
  twostate lemma DetachChain(g: Gap)
    requires g.k < |g.ns| && |g.ns| > 1
    requires old(Chained(g.ns, g.ns[|g.ns| - 1]))
    requires forall i | 0 <= i < |g.ns| && i != g.k ::
      g.ns[i].next == if i + 1 == g.k then old(g.ns[g.k].next) else old(g.ns[i].next)
    requires forall i | 0 <= i < |g.ns| && i != g.k ::
      g.ns[i].prev == if i == g.k + 1 || (i == 0 && g.k == |g.ns| - 1) then old(g.ns[g.k].prev) else old(g.ns[i].prev)
    ensures var ms := Remove(g.ns, g.k); Chained(ms, ms[|ms| - 1])
  {
    DetachNext(g);
    DetachPrev(g);
  }

  twostate lemma DetachNext(g: Gap)
    requires g.k < |g.ns| && |g.ns| > 1
    requires old(Chained(g.ns, g.ns[|g.ns| - 1]))
    requires forall i | 0 <= i < |g.ns| && i != g.k ::
      g.ns[i].next == if i + 1 == g.k then old(g.ns[g.k].next) else old(g.ns[i].next)
    ensures var ms := Remove(g.ns, g.k); forall i | 0 <= i < |ms| :: ms[i].next == After(ms, i)
  {
    hide Remove, Before;
    var ns, k := g.ns, g.k;
    var ms := Remove(ns, k);
    RemoveIndex(ns, k);
    forall i | 0 <= i < |ms| ensures ms[i].next == After(ms, i) {
      var j := if i < k then i else i + 1;
      assert old(ns[j].next) == After(ns, j) && old(ns[k].next) == After(ns, k);
    }
  }

  twostate lemma DetachPrev(g: Gap)
    requires g.k < |g.ns| && |g.ns| > 1
    requires old(Chained(g.ns, g.ns[|g.ns| - 1]))
    requires forall i | 0 <= i < |g.ns| && i != g.k ::
      g.ns[i].prev == if i == g.k + 1 || (i == 0 && g.k == |g.ns| - 1) then old(g.ns[g.k].prev) else old(g.ns[i].prev)
    ensures var ms := Remove(g.ns, g.k); forall i | 0 <= i < |ms| :: ms[i].prev == Before(ms, i, ms[|ms| - 1])
  {
    hide Remove, After;
    var ns, k := g.ns, g.k;
    var ms := Remove(ns, k);
    RemoveIndex(ns, k);
    forall i | 0 <= i < |ms| ensures ms[i].prev == Before(ms, i, ms[|ms| - 1]) {
      var j := if i < k then i else i + 1;
      assert old(ns[j].prev) == Before(ns, j, ns[|ns| - 1]) && old(ns[k].prev) == Before(ns, k, ns[|ns| - 1]);
    }
  }

  /** `cJSON_InsertItemInArray` in front of the existing child `after`, which is at `k`. */
  method InsertNode(parent: CJson, after: CJson, item: CJson, ghost ns: seq<CJson>, ghost k: nat)
    requires ChildList(parent, ns) && k < |ns| && after == ns[k] && item !in ns && item != parent
    modifies parent`child, NodeSet(ns + [item])`next, NodeSet(ns + [item])`prev
    ensures ChildList(parent, Insert(ns, k, item))
  {
    hide Chained, Insert;
    ChainAt(ns, k);
    InsertDistinct(ns, k, item);
    item.next := after;
    item.prev := after.prev;
    after.prev := item;
    if after == parent.child {
      parent.child := item;
    } else {
      item.prev.next := item;
    }
    InsertChain(Joint(ns, k, item));
  }

  lemma InsertDistinct(ns: seq<CJson>, k: nat, item: CJson)
    requires Distinct(ns) && k <= |ns| && item !in ns
    ensures Distinct(Insert(ns, k, item)) && |Insert(ns, k, item)| == |ns| + 1
    ensures forall n | n in Insert(ns, k, item) :: n in ns || n == item
    ensures Insert(ns, k, item)[0] == if k == 0 then item else ns[0]
  {
  }

  datatype Joint = Joint(ns: seq<CJson>, k: nat, item: CJson)

  /** The pointer writes of an insertion open the list at `k`. */
  twostate lemma InsertChain(j: Joint)
    requires j.k < |j.ns| && j.item !in j.ns
    requires old(Chained(j.ns, j.ns[|j.ns| - 1]))
    requires j.item.next == j.ns[j.k] && j.item.prev == old(j.ns[j.k].prev)
    requires forall i | 0 <= i < |j.ns| :: j.ns[i].next == if i + 1 == j.k then j.item else old(j.ns[i].next)
    requires forall i | 0 <= i < |j.ns| :: j.ns[i].prev == if i == j.k then j.item else old(j.ns[i].prev)
    ensures var ms := Insert(j.ns, j.k, j.item); Chained(ms, ms[|ms| - 1])
  {
    InsertNext(j);
    InsertPrev(j);
  }

  twostate lemma InsertNext(j: Joint)
    requires j.k < |j.ns|
    requires old(Chained(j.ns, j.ns[|j.ns| - 1]))
    requires j.item.next == j.ns[j.k]
    requires forall i | 0 <= i < |j.ns| :: j.ns[i].next == if i + 1 == j.k then j.item else old(j.ns[i].next)
    ensures var ms := Insert(j.ns, j.k, j.item); forall i | 0 <= i < |ms| :: ms[i].next == After(ms, i)
  {
    hide Insert, Before;
    var ns, k := j.ns, j.k;
    var ms := Insert(ns, k, j.item);
    InsertIndex(ns, k, j.item);
    forall i | 0 <= i < |ms| ensures ms[i].next == After(ms, i) {
      if i != k {
        var h := if i < k then i else i - 1;
        assert old(ns[h].next) == After(ns, h);
      }
    }
  }

  twostate lemma InsertPrev(j: Joint)
    requires j.k < |j.ns|
    requires old(Chained(j.ns, j.ns[|j.ns| - 1]))
    requires j.item.prev == old(j.ns[j.k].prev)
    requires forall i | 0 <= i < |j.ns| :: j.ns[i].prev == if i == j.k then j.item else old(j.ns[i].prev)
    ensures var ms := Insert(j.ns, j.k, j.item); forall i | 0 <= i < |ms| :: ms[i].prev == Before(ms, i, ms[|ms| - 1])
  {
    hide Insert, After;
    var ns, k := j.ns, j.k;
    var ms := Insert(ns, k, j.item);
    InsertIndex(ns, k, j.item);
    forall i | 0 <= i < |ms| ensures ms[i].prev == Before(ms, i, ms[|ms| - 1]) {
      var h := if i <= k then i else i - 1;
      assert old(ns[h].prev) == Before(ns, h, ns[|ns| - 1]);
    }
  }

  /** `cJSON_ReplaceItemViaPointer` with a node that is not in the list. */
  method ReplaceNode(parent: CJson, item: CJson, replacement: CJson, ghost ns: seq<CJson>, ghost k: nat)
    requires ChildList(parent, ns) && k < |ns| && item == ns[k] && replacement !in ns && replacement != parent
    modifies parent`child, NodeSet(ns + [replacement])`next, NodeSet(ns + [replacement])`prev
    ensures ChildList(parent, ns[k := replacement]) && item.next == null && item.prev == null
  {
    hide Chained;
    ChainAt(ns, k);
    ChainAt(ns, 0);
    replacement.next := item.next;
    replacement.prev := item.prev;
    if replacement.next != null {
      replacement.next.prev := replacement;
    }
    if parent.child == item {
      if parent.child.prev == parent.child {
        replacement.prev := replacement;
      }
      parent.child := replacement;
    } else {
      if replacement.prev != null {
        replacement.prev.next := replacement;
      }
      if replacement.next == null {
        parent.child.prev := replacement;
      }
    }
    item.next := null;
    item.prev := null;
    ReplaceChain(Joint(ns, k, replacement));
  }

  /** The pointer writes of a replacement put the new node in the old one's place. */
  twostate lemma ReplaceChain(j: Joint)
    requires j.k < |j.ns| && j.item !in j.ns
    requires old(Chained(j.ns, j.ns[|j.ns| - 1]))
    requires j.item.next == old(j.ns[j.k].next)
    requires j.item.prev == if |j.ns| == 1 then j.item else old(j.ns[j.k].prev)
    requires forall i | 0 <= i < |j.ns| && i != j.k ::
      j.ns[i].next == if i + 1 == j.k then j.item else old(j.ns[i].next)
    requires forall i | 0 <= i < |j.ns| && i != j.k ::
      j.ns[i].prev == if i == j.k + 1 || (i == 0 && j.k == |j.ns| - 1) then j.item else old(j.ns[i].prev)
    ensures var ms := j.ns[j.k := j.item]; Chained(ms, ms[|ms| - 1])
  {
    ReplaceNext(j);
    ReplacePrev(j);
  }

  twostate lemma ReplaceNext(j: Joint)
    requires j.k < |j.ns|
    requires old(Chained(j.ns, j.ns[|j.ns| - 1]))
    requires j.item.next == old(j.ns[j.k].next)
    requires forall i | 0 <= i < |j.ns| && i != j.k ::
      j.ns[i].next == if i + 1 == j.k then j.item else old(j.ns[i].next)
    ensures var ms := j.ns[j.k := j.item]; forall i | 0 <= i < |ms| :: ms[i].next == After(ms, i)
  {
    hide Before;
    var ns, ms := j.ns, j.ns[j.k := j.item];
    forall i | 0 <= i < |ms| ensures ms[i].next == After(ms, i) {
      assert old(ns[i].next) == After(ns, i);
    }
  }

  twostate lemma ReplacePrev(j: Joint)
    requires j.k < |j.ns|
    requires old(Chained(j.ns, j.ns[|j.ns| - 1]))
    requires j.item.prev == if |j.ns| == 1 then j.item else old(j.ns[j.k].prev)
    requires forall i | 0 <= i < |j.ns| && i != j.k ::
      j.ns[i].prev == if i == j.k + 1 || (i == 0 && j.k == |j.ns| - 1) then j.item else old(j.ns[i].prev)
    ensures var ms := j.ns[j.k := j.item]; forall i | 0 <= i < |ms| :: ms[i].prev == Before(ms, i, ms[|ms| - 1])
  {
    hide After;
    var ns, ms := j.ns, j.ns[j.k := j.item];
    forall i | 0 <= i < |ms| ensures ms[i].prev == Before(ms, i, ms[|ms| - 1]) {
      assert old(ns[i].prev) == Before(ns, i, ns[|ns| - 1]);
    }
  }

  // ----- the trees ------------------------------------------------------------------------

  /** The children of a container: their trees, the nodes below it, and the entries they stand for. */
  datatype Children = Children(kids: seq<Shape>, foot: set<CJson>, es: seq<Entry>)

  ghost predicate Owns(parent: CJson, c: Children)
    reads parent, c.foot
  {
    && parent !in c.foot
    && Entries(c.kids, c.foot, c.es)
    && NodesWithin(NodesOf(c.kids), c.foot)
    && ChildList(parent, NodesOf(c.kids))
  }

  ghost predicate NodesWithin(ns: seq<CJson>, foot: set<CJson>) { forall n | n in ns :: n in foot }

  /** A container whose pointers are in order owns its children ... */
  lemma ContainerOwns(s: Shape, es: seq<Entry>)
    requires Wf(s) && Entries(s.kids, s.foot - {s.node}, es)
    ensures Owns(s.node, Children(s.kids, s.foot - {s.node}, es))
  {
    hide TreeOf, EntryOf;
    RootsDistinct(s.kids, s.foot - {s.node});
  }

  /** ... and owning them makes an array (or, if they are named, an object) of those entries. */
  lemma OwnedContainer(parent: CJson, c: Children)
    requires Owns(parent, c)
    requires parent.kind == ArrayKind || (parent.kind == ObjectKind && AllNamed(c.es))
    ensures var s := Shape(parent, c.kids, {parent} + c.foot);
            Wf(s) && TreeOf(s) == if parent.kind == ArrayKind then Array(Values(c.es)) else Object(Members(c.es))
  {
    hide Wf, TreeOf;
    var s := Shape(parent, c.kids, {parent} + c.foot);
    assert forall i | 0 <= i < |c.kids| :: EntryOf(c.kids[i]) == c.es[i];
    ContainerWf(s, c.foot);
    ContainerTree(s, c.foot, c.es);
  }

  lemma RootsDistinct(kids: seq<Shape>, foot: set<CJson>)
    requires Within(kids, foot) && Disjoint(kids)
    ensures Distinct(NodesOf(kids)) && NodesWithin(NodesOf(kids), foot)
  {
    var ns := NodesOf(kids);
    forall i, j | 0 <= i < j < |ns| ensures ns[i] != ns[j] {
      assert kids[i].foot !! kids[j].foot;
    }
  }

  /** Roots of disjoint trees are in no other tree of theirs. */
  lemma RootsApart(kids: seq<Shape>, foot: set<CJson>)
    requires Within(kids, foot) && Disjoint(kids)
    ensures forall i, n | 0 <= i < |kids| && n in kids[i].foot && n != kids[i].node :: n !in NodesOf(kids)
  {
    forall i, j | 0 <= i < |kids| && 0 <= j < |kids| && i != j ensures kids[j].node !in kids[i].foot {
      assert kids[if i < j then i else j].foot !! kids[if i < j then j else i].foot;
    }
  }

  /** A tree that is not among the children, with its own entry. */
  lemma EntriesWith(c: Children, t: Shape)
    requires Entries(c.kids, c.foot, c.es) && Wf(t) && t.foot !! c.foot
    ensures Entries(c.kids + [t], c.foot + t.foot, c.es + [EntryOf(t)])
    ensures t.node !in NodesOf(c.kids)
  {
    NodeInFoot(t);
    hide Wf, TreeOf, EntryOf;
    DisjointExtended(c.kids, c.foot, t);
    RootsDistinct(c.kids, c.foot);
  }

  /** The same entries with the last one moved to position `k`. */
  lemma EntriesInsert(c: Children, k: nat, t: Shape)
    requires k <= |c.kids| && Wf(t) && Entries(c.kids + [t], c.foot + t.foot, c.es + [EntryOf(t)]) && |c.es| == |c.kids|
    ensures Entries(Insert(c.kids, k, t), c.foot + t.foot, Insert(c.es, k, EntryOf(t)))
  {
    hide Wf, TreeOf, EntryOf;
    var all, es := c.kids + [t], c.es + [EntryOf(t)];
    var ms, fs := Insert(c.kids, k, t), Insert(c.es, k, EntryOf(t));
    forall i | 0 <= i < |ms|
      ensures exists j :: 0 <= j < |all| && ms[i] == all[j] && fs[i] == es[j]
    {
      var j := if i < k then i else if i == k then |c.kids| else i - 1;
      assert ms[i] == all[j] && fs[i] == es[j];
    }
    DisjointInsert(c.kids, k, t);
  }

  lemma DisjointInsert(kids: seq<Shape>, k: nat, t: Shape)
    requires k <= |kids| && Disjoint(kids + [t])
    ensures Disjoint(Insert(kids, k, t))
  {
    hide Insert;
    InsertIndex(kids, k, t);
    var all, ms := kids + [t], Insert(kids, k, t);
    forall i, j | 0 <= i < j < |ms| ensures ms[i].foot !! ms[j].foot {
      var h := if i < k then i else if i == k then |kids| else i - 1;
      var l := if j < k then j else if j == k then |kids| else j - 1;
      assert ms[i] == all[h] && ms[j] == all[l];
      assert all[if h < l then h else l].foot !! all[if h < l then l else h].foot;
    }
  }

  /** The entries without the one at `k`, and without its nodes. */
  lemma EntriesRemove(c: Children, k: nat)
    requires k < |c.kids| && Entries(c.kids, c.foot, c.es)
    ensures Entries(Remove(c.kids, k), c.foot - c.kids[k].foot, Remove(c.es, k))
    ensures Wf(c.kids[k]) && EntryOf(c.kids[k]) == c.es[k]
  {
    hide Wf, TreeOf, EntryOf;
    var ms, fs := Remove(c.kids, k), Remove(c.es, k);
    forall i | 0 <= i < |ms|
      ensures var j := if i < k then i else i + 1;
              ms[i] == c.kids[j] && fs[i] == c.es[j] && ms[i].foot <= c.foot - c.kids[k].foot
    {
      var j := if i < k then i else i + 1;
      assert ms[i] == c.kids[j];
      assert c.kids[if j < k then j else k].foot !! c.kids[if j < k then k else j].foot;
    }
  }

  /** The same entries with the tree at `k` exchanged for `t`. */
  lemma EntriesReplace(c: Children, k: nat, t: Shape)
    requires k < |c.kids| && Entries(c.kids, c.foot, c.es) && Wf(t) && t.foot !! c.foot
    ensures Entries(c.kids[k := t], (c.foot - c.kids[k].foot) + t.foot, c.es[k := EntryOf(t)])
  {
    hide Wf, TreeOf, EntryOf, Entries;
    EntriesLength(c);
    var rest := Children(Remove(c.kids, k), c.foot - c.kids[k].foot, Remove(c.es, k));
    EntriesRemove(c, k);
    EntriesWith(rest, t);
    EntriesLength(rest);
    EntriesInsert(rest, k, t);
    assert Insert(rest.kids, k, t) == c.kids[k := t] && Insert(rest.es, k, EntryOf(t)) == c.es[k := EntryOf(t)];
  }

  lemma EntriesLength(c: Children)
    requires Entries(c.kids, c.foot, c.es)
    ensures |c.es| == |c.kids| && NodesWithin(NodesOf(c.kids), c.foot)
  {
  }

  lemma EntriesWithin(c: Children)
    requires Entries(c.kids, c.foot, c.es)
    ensures Within(c.kids, c.foot)
  {
  }

  /** Only the sibling pointers of the roots moved: the trees and their names are what they were. */
  twostate lemma OnlyLinksMoved(c: Children)
    requires old(Entries(c.kids, c.foot, c.es))
    requires forall n | n in c.foot && n !in NodesOf(c.kids) :: unchanged(n)
    requires forall k | k in c.kids :: SameButLinks(k.node)
    ensures Entries(c.kids, c.foot, c.es)
  {
    hide Wf, TreeOf, EntryOf;
    RootsApart(c.kids, c.foot);
    forall i | 0 <= i < |c.kids| ensures RootLinksOnly(c.kids[i]) {
      assert c.kids[i] in c.kids;
    }
    SiblingsKept(c.kids);
  }

  twostate predicate SameButLinks(n: CJson)
    reads n
  {
    && n.child == old(n.child) && n.kind == old(n.kind) && n.valuestring == old(n.valuestring)
    && n.name == old(n.name) && n.valueint == old(n.valueint) && n.valuedouble == old(n.valuedouble)
  }

  ghost function With(c: Children, t: Shape): Children
    requires Wf(t)
    reads t.foot
  {
    Children(c.kids + [t], c.foot + t.foot, c.es + [EntryOf(t)])
  }

  ghost function Inserted(c: Children, k: nat, t: Shape): Children
    requires Wf(t) && k <= |c.kids| == |c.es|
    reads t.foot
  {
    Children(Insert(c.kids, k, t), c.foot + t.foot, Insert(c.es, k, EntryOf(t)))
  }

  ghost function Removed(c: Children, k: nat): Children
    requires k < |c.kids| == |c.es|
  {
    Children(Remove(c.kids, k), c.foot - c.kids[k].foot, Remove(c.es, k))
  }

  ghost function Replaced(c: Children, k: nat, t: Shape): Children
    requires Wf(t) && k < |c.kids| == |c.es|
    reads t.foot
  {
    Children(c.kids[k := t], c.foot - c.kids[k].foot + t.foot, c.es[k := EntryOf(t)])
  }

  /** `t` is a tree of its own, apart from `parent` and its children. */
  ghost predicate Separate(parent: CJson, c: Children, t: Shape)
    reads t.foot
  {
    Wf(t) && t.foot !! c.foot && parent !in t.foot
  }

  ghost function Only(n: CJson?): set<CJson> { if n == null then {} else {n} }

  /** The nodes of a child list and `item`. */
  ghost function Siblings(c: Children, item: CJson?): set<CJson> { NodeSet(NodesOf(c.kids)) + Only(item) }

  /** Where an operation takes place. */
  datatype Site = Site(parent: CJson?, item: CJson?, c: Children)

  /** Nothing has changed. */
  twostate predicate Unmoved(s: Site)
    reads Only(s.parent) + Only(s.item) + s.c.foot
  {
    unchanged(Only(s.parent) + Only(s.item) + s.c.foot)
  }

  method AppendTree(parent: CJson, item: CJson, ghost c: Children, ghost t: Shape)
    requires Owns(parent, c) && Separate(parent, c, t) && t.node == item
    modifies parent`child, Siblings(c, item)`next, Siblings(c, item)`prev
    ensures Owns(parent, old(With(c, t))) <==> c.kids == [] || old(item.next) == null
  {
    hide Wf, TreeOf, EntryOf, Entries, ChildList;
    ghost var all := With(c, t);
    NodeInFoot(t);
    EntriesWith(c, t);
    EntriesLength(all);
    assert NodesOf(all.kids) == NodesOf(c.kids) + [item];
    AppendNode(parent, item, NodesOf(c.kids));
    OnlyLinksMoved(all);
  }

  /**
   `cJSON_AddItemToArray`: the children are those from before and then `item`,
   unless there are some and `item` is still linked to another node.
   */
  method AddItemToArray(parent: CJson?, item: CJson?, ghost c: Children, ghost t: Shape) returns (ok: bool)
    requires parent != null && item != null && parent != item ==>
      Owns(parent, c) && Separate(parent, c, t) && t.node == item
    modifies Only(parent)`child, Siblings(c, item)`next, Siblings(c, item)`prev
    ensures ok == (parent != null && item != null && parent != item)
    ensures !ok ==> Unmoved(Site(parent, item, c))
    ensures ok ==> (Owns(parent, old(With(c, t))) <==> c.kids == [] || old(item.next) == null)
  {
    hide Wf, TreeOf, EntryOf, Entries, ChildList, Owns, With;
    if item == null || parent == null || parent == item {
      return false;
    }
    AppendTree(parent, item, c, t);
    return true;
  }

  /** A new name leaves the tree as it is. */
  method Rename(item: CJson, name: cstring, ghost t: Shape)
    requires Wf(t) && t.node == item
    modifies item`name
    ensures item.name == Some(name) && Wf(t) && TreeOf(t) == old(TreeOf(t))
  {
    item.name := Some(name);
    hide Wf, TreeOf;
    RootRenamed(t);
  }

  twostate lemma RootRenamed(s: Shape)
    requires old(Wf(s))
    requires forall n | n in s.foot && n != s.node :: unchanged(n)
    requires s.node.child == old(s.node.child) && s.node.kind == old(s.node.kind)
    requires s.node.valuestring == old(s.node.valuestring)
    requires s.node.valueint == old(s.node.valueint) && s.node.valuedouble == old(s.node.valuedouble)
    ensures Wf(s) && TreeOf(s) == old(TreeOf(s))
  {
    assert Within(s.kids, s.foot);
    hide Wf, TreeOf;
    KidsUntouched(s);
    LinkedKept(s);
    RootWf(s);
    RootTree(s);
  }

  /** `cJSON_AddItemToObject`: the item takes the name and comes last. */
  method AddItemToObject(parent: CJson?, name: Option<cstring>, item: CJson?, ghost c: Children, ghost t: Shape)
    returns (ok: bool)
    requires parent != null && item != null && parent != item ==>
      Owns(parent, c) && Separate(parent, c, t) && t.node == item
    modifies Only(parent)`child, Siblings(c, item)`next, Siblings(c, item)`prev, Only(item)`name
    ensures ok == (parent != null && name.Some? && item != null && parent != item)
    ensures !ok ==> Unmoved(Site(parent, item, c))
    ensures ok ==>
      (Owns(parent, Children(c.kids + [t], c.foot + t.foot, c.es + [Entry(name, old(TreeOf(t)))]))
       <==> c.kids == [] || old(item.next) == null)
  {
    hide Wf, TreeOf, Entries, ChildList;
    if parent == null || name.None? || item == null || parent == item {
      return false;
    }
    NodeInFoot(t);
    Rename(item, name.value, t);
    ok := AddItemToArray(parent, item, c, t);
  }

  method InsertTree(parent: CJson, after: CJson, item: CJson, ghost c: Children, ghost k: nat, ghost t: Shape)
    requires Owns(parent, c) && Separate(parent, c, t) && t.node == item
    requires k < |c.kids| == |c.es| && after == c.kids[k].node
    modifies parent`child, Siblings(c, item)`next, Siblings(c, item)`prev
    ensures Owns(parent, old(Inserted(c, k, t)))
  {
    hide Wf, TreeOf, EntryOf, Entries, ChildList, Insert;
    ghost var all := With(c, t);
    NodeInFoot(t);
    EntriesWith(c, t);
    EntriesWithin(c);
    NodesInsert(c.kids, k, t);
    assert NodesOf(all.kids) == NodesOf(c.kids) + [item];
    InsertNode(parent, after, item, NodesOf(c.kids), k);
    OnlyLinksMoved(all);
    EntriesSplit(c, t, all.es);
    EntriesInsert(c, k, t);
    EntriesLength(Inserted(c, k, t));
  }

  lemma NodesInsert(kids: seq<Shape>, k: nat, t: Shape)
    requires k <= |kids|
    ensures NodesOf(Insert(kids, k, t)) == Insert(NodesOf(kids), k, t.node)
  {
  }

  lemma InsertedLast(c: Children, t: Shape)
    requires Wf(t) && |c.es| == |c.kids|
    ensures Inserted(c, |c.kids|, t) == With(c, t)
  {
    hide Wf;
  }

  /** `get_array_item`, which also takes null. */
  method ItemAt(parent: CJson?, which: nat, ghost c: Children) returns (item: CJson?)
    requires parent != null ==> Owns(parent, c)
    ensures item == if parent != null && which < |c.kids| then c.kids[which].node else null
  {
    hide Wf, TreeOf, EntryOf, Entries, ChildList;
    if parent == null {
      return null;
    }
    item := GetArrayItem(parent, which, NodesOf(c.kids));
  }

  /** `cJSON_InsertItemInArray`: in front of the child at `which`, or at the end. */
  method InsertItemInArray(parent: CJson?, which: int, item: CJson?, ghost c: Children, ghost t: Shape)
    returns (ok: bool)
    requires |c.es| == |c.kids|
    requires parent != null ==> Owns(parent, c)
    requires parent != null && item != null && parent != item ==> Separate(parent, c, t) && t.node == item
    requires parent != null && 0 <= which < |c.kids| ==> item != null && item != parent
    modifies Only(parent)`child, Siblings(c, item)`next, Siblings(c, item)`prev
    ensures ok == (which >= 0 && parent != null && item != null && parent != item)
    ensures !ok ==> Unmoved(Site(parent, item, c))
    ensures ok ==>
      (Owns(parent, old(Inserted(c, if which < |c.kids| then which else |c.kids|, t)))
       <==> which < |c.kids| || c.kids == [] || old(item.next) == null)
  {
    hide Wf, TreeOf, EntryOf, Entries, ChildList, Owns, Inserted, With, Siblings, NodesOf, NodeSet;
    if which < 0 {
      return false;
    }
    var after := ItemAt(parent, which, c);
    if after == null {
      if parent != null && item != null && parent != item {
        InsertedLast(c, t);
      }
      ok := AddItemToArray(parent, item, c, t);
    } else {
      InsertTree(parent, after, item, c, which, t);
      ok := true;
    }
  }

  /** `cJSON_DetachItemViaPointer`: the tree of `item` leaves the list and is whole. */
  method DetachItemViaPointer(parent: CJson?, item: CJson?, ghost c: Children, ghost k: nat) returns (r: CJson?)
    requires |c.es| == |c.kids|
    requires parent != null && item != null ==> Owns(parent, c) && k < |c.kids| && item == c.kids[k].node
    modifies Only(parent)`child, Siblings(c, null)`next, Siblings(c, null)`prev
    ensures r == if parent == null then null else item
    ensures r == null ==> Unmoved(Site(parent, null, c))
    ensures r != null ==> Owns(parent, Removed(c, k)) && Detached(r, c.kids[k], c.es[k])
  {
    hide Wf, TreeOf, EntryOf, Entries, ChildList;
    if parent == null || item == null {
      return null;
    }
    DetachTree(parent, item, c, k);
    return item;
  }

  /** `node` is the root of a whole tree that is in no list. */
  ghost predicate Detached(node: CJson, s: Shape, e: Entry)
    reads s.foot, node
  {
    node == s.node && node.next == null && node.prev == null && Wf(s) && EntryOf(s) == e
  }

  method DetachTree(parent: CJson, item: CJson, ghost c: Children, ghost k: nat)
    requires Owns(parent, c) && k < |c.kids| == |c.es| && item == c.kids[k].node
    modifies parent`child, Siblings(c, null)`next, Siblings(c, null)`prev
    ensures Owns(parent, Removed(c, k)) && Detached(item, c.kids[k], c.es[k])
  {
    hide Wf, TreeOf, EntryOf, Entries, ChildList, Remove;
    NodesRemove(c.kids, k);
    DetachNode(parent, item, NodesOf(c.kids), k);
    OnlyLinksMoved(c);
    EntriesRemove(c, k);
    EntriesLength(Removed(c, k));
  }

  lemma NodesRemove(kids: seq<Shape>, k: nat)
    requires k < |kids|
    ensures NodesOf(Remove(kids, k)) == Remove(NodesOf(kids), k)
  {
  }

  /** `cJSON_DetachItemFromArray`. */
  method DetachItemFromArray(parent: CJson?, which: int, ghost c: Children) returns (r: CJson?)
    requires |c.es| == |c.kids|
    requires parent != null ==> Owns(parent, c)
    modifies Only(parent)`child, Siblings(c, null)`next, Siblings(c, null)`prev
    ensures r == if parent != null && 0 <= which < |c.kids| then c.kids[which].node else null
    ensures r == null ==> Unmoved(Site(parent, null, c))
    ensures r != null ==> Owns(parent, Removed(c, which)) && Detached(r, c.kids[which], c.es[which])
  {
    hide Wf, TreeOf, EntryOf, Entries, ChildList, Detached, Owns, Removed;
    if which < 0 {
      return null;
    }
    var item := ItemAt(parent, which, c);
    r := DetachItemViaPointer(parent, item, c, which);
  }

  method ReplaceTree(parent: CJson, item: CJson, replacement: CJson, ghost c: Children, ghost k: nat, ghost t: Shape)
    requires Owns(parent, c) && Separate(parent, c, t) && t.node == replacement
    requires k < |c.kids| == |c.es| && item == c.kids[k].node
    modifies parent`child, Siblings(c, replacement)`next, Siblings(c, replacement)`prev
    ensures Owns(parent, old(Replaced(c, k, t))) && Detached(item, c.kids[k], c.es[k])
  {
    hide Wf, TreeOf, EntryOf, Entries, ChildList;
    ghost var all := With(c, t);
    NodeInFoot(t);
    EntriesWith(c, t);
    EntriesWithin(c);
    assert NodesOf(all.kids) == NodesOf(c.kids) + [replacement];
    assert NodesOf(c.kids[k := t]) == NodesOf(c.kids)[k := replacement];
    ReplaceNode(parent, item, replacement, NodesOf(c.kids), k);
    OnlyLinksMoved(all);
    EntriesSplit(c, t, all.es);
    assert all.es[..|c.kids|] == c.es;
    EntriesReplace(c, k, t);
    EntriesRemove(c, k);
    EntriesLength(Replaced(c, k, t));
  }

  /** The last tree of a family, and the others. */
  lemma EntriesSplit(c: Children, t: Shape, es: seq<Entry>)
    requires Entries(c.kids + [t], c.foot + t.foot, es)
    requires Within(c.kids, c.foot)
    ensures |es| == |c.kids| + 1
    ensures Entries(c.kids, c.foot, es[..|c.kids|]) && Wf(t) && EntryOf(t) == es[|c.kids|]
  {
    hide Wf, TreeOf, EntryOf;
    var all := c.kids + [t];
    assert all[|c.kids|] == t && all[..|c.kids|] == c.kids;
  }

  /** What is left behind is freed, node by node, and no node of the new list is. */
  method FreeTree(item: CJson, ghost c: Children, ghost k: nat, ghost t: Shape) returns (freed: seq<CJson>)
    requires k < |c.kids| == |c.es| && Detached(item, c.kids[k], c.es[k])
    requires c.kids[k].foot <= c.foot && t.foot !! c.foot
    ensures freed == Freed([c.kids[k]]) && NoneTwice(freed)
    ensures forall n | n in freed :: n !in c.foot - c.kids[k].foot + t.foot
  {
    hide Wf, TreeOf, EntryOf, Freed, TreeList, NoneTwice;
    SingleTree(c.kids[k]);
    freed := Delete(item, [c.kids[k]], c.kids[k].foot);
    FreedOnce([c.kids[k]], c.kids[k].foot);
  }

  /** `cJSON_ReplaceItemViaPointer`: the tree of `replacement` takes the place of that of `item`, which is deleted. */
  method ReplaceItemViaPointer(parent: CJson?, item: CJson?, replacement: CJson?, ghost c: Children, ghost k: nat,
                               ghost t: Shape)
    returns (ok: bool, freed: seq<CJson>)
    requires |c.es| == |c.kids|
    requires parent != null && item != null && replacement != null && replacement != item ==>
      && Owns(parent, c) && Separate(parent, c, t) && t.node == replacement
      && k < |c.kids| && item == c.kids[k].node
    modifies Only(parent)`child, Siblings(c, replacement)`next, Siblings(c, replacement)`prev
    ensures ok == (parent != null && item != null && replacement != null)
    ensures !ok || replacement == item ==> Unmoved(Site(parent, replacement, c)) && freed == []
    ensures ok && replacement != item ==> Owns(parent, old(Replaced(c, k, t)))
    ensures ok && replacement != item ==>
      && freed == Freed([c.kids[k]]) && NoneTwice(freed)
      && forall n | n in freed :: n !in c.foot - c.kids[k].foot + t.foot
  {
    hide Wf, TreeOf, EntryOf, Entries, ChildList, Owns, Detached, Freed, NoneTwice;
    ok, freed := false, [];
    if parent == null || replacement == null || item == null {
      return;
    }
    ok := true;
    if replacement == item {
      return;
    }
    OwnsWithin(parent, c, k);
    ReplaceTree(parent, item, replacement, c, k, t);
    freed := FreeTree(item, c, k, t);
  }

  lemma OwnsWithin(parent: CJson, c: Children, k: nat)
    requires Owns(parent, c) && k < |c.kids|
    ensures c.kids[k].foot <= c.foot
  {
  }

  /** `cJSON_ReplaceItemInArray`. */
  method ReplaceItemInArray(parent: CJson?, which: int, replacement: CJson?, ghost c: Children, ghost t: Shape)
    returns (ok: bool, freed: seq<CJson>)
    requires |c.es| == |c.kids|
    requires parent != null ==> Owns(parent, c)
    requires parent != null && replacement != null && 0 <= which < |c.kids| ==>
      Separate(parent, c, t) && t.node == replacement
    modifies Only(parent)`child, Siblings(c, replacement)`next, Siblings(c, replacement)`prev
    ensures ok == (parent != null && replacement != null && 0 <= which < |c.kids|)
    ensures !ok ==> Unmoved(Site(parent, replacement, c)) && freed == []
    ensures ok ==> Owns(parent, old(Replaced(c, which, t))) && freed == Freed([c.kids[which]]) && NoneTwice(freed)
  {
    hide Wf, TreeOf, EntryOf, Entries, ChildList, Owns, Separate;
    hide Replaced, Siblings, NodesOf, NodeSet, Freed, NoneTwice;
    ok, freed := false, [];
    if which < 0 {
      return;
    }
    var item := ItemAt(parent, which, c);
    if parent != null && item != null && replacement != null {
      RootOutside(parent, c, t, which);
    }
    ok, freed := ReplaceItemViaPointer(parent, item, replacement, c, which, t);
  }

  lemma RootOutside(parent: CJson, c: Children, t: Shape, k: nat)
    requires Owns(parent, c) && Separate(parent, c, t) && k < |c.kids|
    ensures t.node != c.kids[k].node
  {
    hide TreeOf, EntryOf;
  }
}

/** `get_object_item` and `cJSON_Compare` on linked nodes. */
module CJsonCompare {
  import opened CBytes
  import opened Integers
  import opened JsonNumber
  import opened JsonTree
  import opened JsonCompare
  import opened CJsonNode

  /** The byte at `i` of a NUL-terminated string. */
  function At(s: cstring, i: nat): byte { if i < |s| then s[i] else NUL }

  /** `case_insensitive_strcmp` of two strings. */
  method CaseInsensitiveStrcmp(a: cstring, b: cstring) returns (r: int)
    ensures r == 0 <==> Key(a, false) == Key(b, false)
  {
    var i := 0;
    while Lower(At(a, i)) == Lower(At(b, i))
      invariant i <= |a| && i <= |b|
      invariant Key(a, false)[..i] == Key(b, false)[..i]
      decreases |a| - i
    {
      if At(a, i) == NUL {
        assert |a| == i == |b|;
        return 0;
      }
      assert Key(a, false)[..i + 1] == Key(a, false)[..i] + [Lower(a[i])];
      assert Key(b, false)[..i + 1] == Key(b, false)[..i] + [Lower(b[i])];
      i := i + 1;
    }
    SameKeySameByte(a, b, i);
    r := Lower(At(a, i)) - Lower(At(b, i));
  }

  lemma SameKeySameByte(a: cstring, b: cstring, i: nat)
    requires i <= |a|
    ensures Key(a, false) == Key(b, false) ==> Lower(At(a, i)) == Lower(At(b, i))
  {
    assert i < |a| ==> Key(a, false)[i] == Lower(a[i]);
    assert i < |b| ==> Key(b, false)[i] == Lower(b[i]);
  }

  method SameName(name: cstring, other: Option<cstring>, caseSensitive: bool) returns (same: bool)
    ensures same <==> other.Some? && Key(name, caseSensitive) == Key(other.value, caseSensitive)
  {
    if other.None? {
      return false;
    }
    if caseSensitive {
      same := name == other.value;
    } else {
      var r := CaseInsensitiveStrcmp(name, other.value);
      same := r == 0;
    }
  }

  /** Where the first entry with the name is; a case sensitive search ends at an entry without one. */
  function FindEntry(es: seq<Entry>, name: cstring, caseSensitive: bool): (k: nat)
    ensures k <= |es|
    ensures k < |es| && es[k].name.Some? ==> Key(es[k].name.value, caseSensitive) == Key(name, caseSensitive)
  {
    if es == [] then 0
    else if es[0].name.Some? && Key(es[0].name.value, caseSensitive) == Key(name, caseSensitive) then 0
    else if es[0].name.None? && caseSensitive then 0
    else 1 + FindEntry(es[1..], name, caseSensitive)
  }

  /** In an object this is the lookup on trees. */
  lemma {:induction false} FindEntryFirst(es: seq<Entry>, name: cstring, caseSensitive: bool)
    requires AllNamed(es)
    ensures var k := FindEntry(es, name, caseSensitive);
            FirstWith(Members(es), Key(name, caseSensitive), caseSensitive)
            == if k < |es| then Some(es[k].value) else None
  {
    if es != [] {
      assert Members(es)[1..] == Members(es[1..]);
      FindEntryFirst(es[1..], name, caseSensitive);
    }
  }

  /** Where the search from `i` on stops, in terms of the search from the next entry on. */
  lemma FindStep(es: seq<Entry>, i: nat, name: cstring, caseSensitive: bool)
    requires i < |es|
    ensures FindEntry(es[i..], name, caseSensitive) ==
              if Stops(es[i].name, name, caseSensitive) then 0 else 1 + FindEntry(es[i + 1..], name, caseSensitive)
  {
    assert es[i..][1..] == es[i + 1..];
  }

  predicate Stops(other: Option<cstring>, name: cstring, caseSensitive: bool) {
    if other.Some? then Key(name, caseSensitive) == Key(other.value, caseSensitive) else caseSensitive
  }

  /** The loop of `get_object_item`. */
  method Search(parent: CJson, name: cstring, caseSensitive: bool, ghost s: Shape, ghost es: seq<Entry>)
    returns (item: CJson?)
    requires s.node == parent && HasEntries(s, es)
    ensures |es| == |s.kids|
    ensures var k := FindEntry(es, name, caseSensitive);
            item == First(s.kids[k..]) && (item != null ==> k < |es| && item.name == es[k].name)
  {
    hide Wf, TreeOf, HasEntries, Key, FindEntry, Stops;
    KidsOf(s, es);
    item := parent.child;
    ghost var i := 0;
    var searching := true;
    assert es[0..] == es;
    while item != null && searching
      invariant 0 <= i <= |es| && item == First(s.kids[i..])
      invariant FindEntry(es, name, caseSensitive)
             == i + (if searching then FindEntry(es[i..], name, caseSensitive) else 0)
      invariant !searching ==> item != null && item.name == es[i].name
      decreases |es| - i, searching
    {
      ChildAt(s, es, i);
      FindStep(es, i, name, caseSensitive);
      searching := GoesOn(name, item.name, caseSensitive);
      if searching {
        item := item.next;
        i := i + 1;
      }
    }
    FindNothing(name, caseSensitive);
    assert es[|es|..] == [];
  }

  lemma FindNothing(name: cstring, caseSensitive: bool)
    ensures FindEntry([], name, caseSensitive) == 0
  {
  }

  /** Whether the search goes on. */
  method GoesOn(name: cstring, other: Option<cstring>, caseSensitive: bool) returns (goesOn: bool)
    ensures goesOn <==> !Stops(other, name, caseSensitive)
  {
    var same := SameName(name, other, caseSensitive);
    goesOn := !same && !(caseSensitive && other.None?);
  }

  /** `get_object_item`. */
  method GetObjectItem(parent: CJson?, name: Option<cstring>, caseSensitive: bool, ghost s: Shape, ghost es: seq<Entry>)
    returns (item: CJson?)
    requires parent != null ==> s.node == parent && HasEntries(s, es)
    ensures parent == null || name.None? ==> item == null
    ensures parent != null && name.Some? ==> |es| == |s.kids|
    ensures parent != null && name.Some? ==>
      var k := FindEntry(es, name.value, caseSensitive);
      item == if k < |es| && es[k].name.Some? then s.kids[k].node else null
  {
    if parent == null || name.None? {
      return null;
    }
    hide Wf, TreeOf, HasEntries, Key, FindEntry;
    item := Search(parent, name.value, caseSensitive, s, es);
    if item != null && item.name.None? {
      item := null;
    }
  }

  lemma KidsOf(s: Shape, es: seq<Entry>)
    requires HasEntries(s, es)
    ensures |es| == |s.kids| && s.node in s.foot && s.node.child == First(s.kids)
  {
  }

  // ----- a node has one tree --------------------------------------------------------------

  /** Two descriptions of the tree below one node agree on its children ... */
  lemma SameChildren(s: Shape, t: Shape, es: seq<Entry>, fs: seq<Entry>, i: nat)
    requires HasEntries(s, es) && HasEntries(t, fs) && s.node == t.node && i <= |s.kids|
    ensures i <= |t.kids| && First(s.kids[i..]) == First(t.kids[i..])
    ensures forall j | 0 <= j < i :: s.kids[j].node == t.kids[j].node
  {
    hide Wf, TreeOf, HasEntries;
    KidsOf(s, es);
    KidsOf(t, fs);
    if i > 0 {
      SameChildren(s, t, es, fs, i - 1);
      ChildAt(s, es, i - 1);
      assert s.kids[i - 1..][0] == s.kids[i - 1];
      ChildAt(t, fs, i - 1);
    }
  }

  /** ... and on its value. */
  lemma {:induction false} SameRoot(s: Shape, t: Shape)
    requires Wf(s) && Wf(t) && s.node == t.node
    ensures TreeOf(s) == TreeOf(t)
    decreases s
  {
    hide Wf, TreeOf, EntriesOf, HasEntries;
    EntriesExist(s);
    EntriesExist(t);
    var es, fs := EntriesOf(s.kids, s.foot), EntriesOf(t.kids, t.foot);
    SameChildren(s, t, es, fs, |s.kids|);
    SameChildren(t, s, fs, es, |t.kids|);
    KidsOf(s, es);
    KidsOf(t, fs);
    forall i | 0 <= i < |es| ensures es[i] == fs[i] {
      ChildAt(s, es, i);
      ChildAt(t, fs, i);
      SameRoot(s.kids[i], t.kids[i]);
    }
    assert es == fs;
    SameValue(s, t, es);
  }

  lemma SameValue(s: Shape, t: Shape, es: seq<Entry>)
    requires HasEntries(s, es) && HasEntries(t, es) && s.node == t.node
    ensures TreeOf(s) == TreeOf(t)
  {
    EntriesValue(s, es);
    EntriesValue(t, es);
    hide HasEntries;
    assert s.node.kind != ArrayKind && s.node.kind != ObjectKind ==> TreeOf(s) == TreeOf(t);
  }

  // ----- cJSON_Compare --------------------------------------------------------------------

  function Height(s: Shape): nat { 1 + HeightOf(s.kids) }

  function HeightOf(ss: seq<Shape>): nat { if ss == [] then 0 else Max(Height(ss[0]), HeightOf(ss[1..])) }

  lemma {:induction false} KidHeight(ss: seq<Shape>, i: nat)
    requires i < |ss|
    ensures Height(ss[i]) <= HeightOf(ss)
  {
    if i > 0 {
      KidHeight(ss[1..], i - 1);
    }
  }

  /** The trees share no node, or neither repeats a key. */
  ghost predicate Comparable(sa: Shape, sb: Shape, caseSensitive: bool)
    requires Wf(sa) && Wf(sb)
    reads sa.foot, sb.foot
  {
    sa.foot !! sb.foot || (UniqueKeys(TreeOf(sa), caseSensitive) && UniqueKeys(TreeOf(sb), caseSensitive))
  }

  /** Two trees with their entries. */
  datatype Pair = Pair(sa: Shape, es: seq<Entry>, sb: Shape, fs: seq<Entry>)

  ghost predicate Known(p: Pair)
    reads p.sa.foot, p.sb.foot
  {
    HasEntries(p.sa, p.es) && HasEntries(p.sb, p.fs)
  }

  lemma HasEntriesWf(s: Shape, es: seq<Entry>)
    requires HasEntries(s, es)
    ensures Wf(s)
  {
  }

  lemma UniqueKid(s: Shape, es: seq<Entry>, i: nat, caseSensitive: bool)
    requires HasEntries(s, es) && i < |s.kids| && UniqueKeys(TreeOf(s), caseSensitive)
    ensures i < |es| && UniqueKeys(es[i].value, caseSensitive)
  {
    hide Wf, TreeOf, HasEntries, Entries, EntryOf;
    HasEntriesWf(s, es);
    EntriesValue(s, es);
    KidsOf(s, es);
    var t := TreeOf(s);
    if s.node.kind == ArrayKind {
      assert t.items[i] == es[i].value;
    } else {
      assert t.members[i].value == es[i].value;
    }
  }

  lemma KidsComparable(p: Pair, i: nat, j: nat, caseSensitive: bool)
    requires Known(p) && i < |p.sa.kids| && j < |p.sb.kids| && Comparable(p.sa, p.sb, caseSensitive)
    ensures Wf(p.sa.kids[i]) && Wf(p.sb.kids[j]) && Comparable(p.sa.kids[i], p.sb.kids[j], caseSensitive)
  {
    ChildAt(p.sa, p.es, i);
    ChildAt(p.sb, p.fs, j);
    if !(p.sa.foot !! p.sb.foot) {
      UniqueKid(p.sa, p.es, i, caseSensitive);
      UniqueKid(p.sb, p.fs, j, caseSensitive);
    }
  }

  /** `compare_double`. */
  method CompareDouble(x: real, y: real) returns (r: bool)
    ensures r <==> Close(x, y)
  {
    var maxVal := if Magnitude(x) > Magnitude(y) then Magnitude(x) else Magnitude(y);
    r := Magnitude(x - y) <= maxVal * DBL_EPSILON;
  }

  /** What the kind of a node says about its value. */
  lemma KindOf(s: Shape)
    requires Wf(s)
    ensures s.node.kind != Invalid
    ensures s.node.kind == NullKind <==> TreeOf(s) == Null
    ensures s.node.kind == FalseKind <==> TreeOf(s) == False
    ensures s.node.kind == TrueKind <==> TreeOf(s) == True
    ensures s.node.kind == NumberKind <==> TreeOf(s).Number?
    ensures s.node.kind == NumberKind ==> TreeOf(s) == Number(s.node.valuedouble)
    ensures s.node.kind == StringKind <==> TreeOf(s).Text?
    ensures s.node.kind == StringKind ==> s.node.valuestring == Some(TreeOf(s).text)
    ensures s.node.kind == RawKind <==> TreeOf(s).Raw?
    ensures s.node.kind == RawKind ==> s.node.valuestring == Some(TreeOf(s).text)
    ensures s.node.kind == ArrayKind <==> TreeOf(s).Array?
    ensures s.node.kind == ObjectKind <==> TreeOf(s).Object?
  {
  }

  /** `cJSON_Compare`. */
  method CompareNodes(a: CJson?, b: CJson?, caseSensitive: bool, ghost sa: Shape, ghost sb: Shape) returns (r: bool)
    requires a != null ==> Wf(sa) && sa.node == a
    requires b != null ==> Wf(sb) && sb.node == b
    ensures a == null || b == null ==> !r
    ensures a != null && a == b ==> r
    ensures a != null && b != null && Comparable(sa, sb, caseSensitive) ==>
      (r <==> Compare(TreeOf(sa), TreeOf(sb), caseSensitive))
    decreases Height(sa) + Height(sb), 4
  {
    hide Wf, TreeOf;
    if a == null || b == null {
      return false;
    }
    KindOf(sa);
    KindOf(sb);
    if a.kind != b.kind {
      return false;
    }
    if a == b {
      Identical(sa, sb, caseSensitive);
      return true;
    }
    match a.kind
    case FalseKind => r := true;
    case TrueKind => r := true;
    case NullKind => r := true;
    case NumberKind => r := CompareDouble(a.valuedouble, b.valuedouble);
    case StringKind => r := a.valuestring.Some? && b.valuestring.Some? && a.valuestring.value == b.valuestring.value;
    case RawKind => r := a.valuestring.Some? && b.valuestring.Some? && a.valuestring.value == b.valuestring.value;
    case ArrayKind => r := CompareArrays(a, b, caseSensitive, sa, sb);
    case ObjectKind => r := CompareObjects(a, b, caseSensitive, sa, sb);
    case Invalid => r := false;
  }

  lemma Identical(sa: Shape, sb: Shape, caseSensitive: bool)
    requires Wf(sa) && Wf(sb) && sa.node == sb.node
    ensures Comparable(sa, sb, caseSensitive) ==> Compare(TreeOf(sa), TreeOf(sb), caseSensitive)
  {
    SameRoot(sa, sb);
    NodeInFoot(sa);
    NodeInFoot(sb);
    if UniqueKeys(TreeOf(sa), caseSensitive) {
      UniqueKeysReflexive(TreeOf(sa), caseSensitive);
    }
  }

  // ----- arrays ---------------------------------------------------------------------------

  /** The first `n` elements are equal pairwise. */
  predicate ItemsAgree(es: seq<Entry>, fs: seq<Entry>, n: nat, caseSensitive: bool) {
    n <= |es| && n <= |fs| && forall j | 0 <= j < n :: Compare(es[j].value, fs[j].value, caseSensitive)
  }

  lemma ArrayVerdict(p: Pair, n: nat, caseSensitive: bool)
    requires Known(p) && p.sa.node.kind == p.sb.node.kind == ArrayKind
    requires ItemsAgree(p.es, p.fs, n, caseSensitive)
    ensures n < |p.es| && n < |p.fs| && !Compare(p.es[n].value, p.fs[n].value, caseSensitive) ==>
              !Compare(TreeOf(p.sa), TreeOf(p.sb), caseSensitive)
    ensures n == |p.es| || n == |p.fs| ==>
              (Compare(TreeOf(p.sa), TreeOf(p.sb), caseSensitive) <==> |p.es| == |p.fs|)
  {
    EntriesValue(p.sa, p.es);
    EntriesValue(p.sb, p.fs);
    hide Wf, TreeOf, HasEntries;
    ValuesCompared(p.es, p.fs, caseSensitive);
  }

  lemma ValuesCompared(es: seq<Entry>, fs: seq<Entry>, caseSensitive: bool)
    ensures Compare(Array(Values(es)), Array(Values(fs)), caseSensitive) <==>
              |es| == |fs| && ItemsAgree(es, fs, |es|, caseSensitive)
  {
    var xs, ys := Values(es), Values(fs);
    assert Compare(Array(xs), Array(ys), caseSensitive) <==> CompareItems(xs, ys, caseSensitive);
    hide Values;
    if CompareItems(xs, ys, caseSensitive) {
      forall j | 0 <= j < |es| ensures Compare(es[j].value, fs[j].value, caseSensitive) {
        assert Compare(xs[j], ys[j], caseSensitive);
      }
    }
  }

  /** Array elements are compared in step. */
  method CompareArrays(a: CJson, b: CJson, caseSensitive: bool, ghost sa: Shape, ghost sb: Shape) returns (r: bool)
    requires Wf(sa) && Wf(sb) && sa.node == a && sb.node == b && a.kind == b.kind == ArrayKind
    ensures Comparable(sa, sb, caseSensitive) ==> (r <==> Compare(TreeOf(sa), TreeOf(sb), caseSensitive))
    decreases Height(sa) + Height(sb), 2
  {
    hide Wf, TreeOf, EntriesOf, HasEntries, Compare, Height, Comparable, ItemsAgree;
    EntriesExist(sa);
    EntriesExist(sb);
    ghost var p := Pair(sa, EntriesOf(sa.kids, sa.foot), sb, EntriesOf(sb.kids, sb.foot));
    NothingCompared(p, caseSensitive);
    var x, y := a.child, b.child;
    ghost var i := 0;
    while x != null && y != null
      invariant 0 <= i <= |sa.kids| && i <= |sb.kids| && x == First(sa.kids[i..]) && y == First(sb.kids[i..])
      invariant Comparable(sa, sb, caseSensitive) ==> ItemsAgree(p.es, p.fs, i, caseSensitive)
      decreases |sa.kids| - i
    {
      var same := CompareElements(x, y, caseSensitive, p, i);
      if !same {
        return false;
      }
      x, y, i := x.next, y.next, i + 1;
    }
    if Comparable(sa, sb, caseSensitive) {
      ArrayVerdict(p, i, caseSensitive);
    }
    r := x == y;
  }

  lemma NothingCompared(p: Pair, caseSensitive: bool)
    requires Known(p)
    ensures ItemsAgree(p.es, p.fs, 0, caseSensitive) && |p.es| == |p.sa.kids| && |p.fs| == |p.sb.kids|
  {
  }

  /** A turn of that loop. */
  method CompareElements(x: CJson, y: CJson, caseSensitive: bool, ghost p: Pair, ghost i: nat) returns (same: bool)
    requires Known(p) && p.sa.node.kind == p.sb.node.kind == ArrayKind
    requires i < |p.sa.kids| && i < |p.sb.kids| && x == p.sa.kids[i].node && y == p.sb.kids[i].node
    requires Comparable(p.sa, p.sb, caseSensitive) ==> ItemsAgree(p.es, p.fs, i, caseSensitive)
    ensures x.next == First(p.sa.kids[i + 1..]) && y.next == First(p.sb.kids[i + 1..])
    ensures same && Comparable(p.sa, p.sb, caseSensitive) ==> ItemsAgree(p.es, p.fs, i + 1, caseSensitive)
    ensures !same && Comparable(p.sa, p.sb, caseSensitive) ==> !Compare(TreeOf(p.sa), TreeOf(p.sb), caseSensitive)
    decreases Height(p.sa) + Height(p.sb), 1
  {
    hide Wf, TreeOf, Entries, Compare, Comparable;
    ChildAt(p.sa, p.es, i);
    ChildAt(p.sb, p.fs, i);
    KidHeight(p.sa.kids, i);
    KidHeight(p.sb.kids, i);
    same := CompareNodes(x, y, caseSensitive, p.sa.kids[i], p.sb.kids[i]);
    if Comparable(p.sa, p.sb, caseSensitive) {
      KidsComparable(p, i, i, caseSensitive);
      ArrayVerdict(p, i, caseSensitive);
    }
  }

  // ----- objects --------------------------------------------------------------------------

  /** The member is equal to the first of its name in `ns`. */
  predicate MemberCovered(m: Member, ns: seq<Member>, caseSensitive: bool) {
    var v := FirstWith(ns, Key(m.name, caseSensitive), caseSensitive);
    v.Some? && Compare(m.value, v.value, caseSensitive)
  }

  /** The first `n` members are. */
  predicate MembersCovered(ms: seq<Member>, ns: seq<Member>, n: nat, caseSensitive: bool) {
    n <= |ms| && forall j | 0 <= j < n :: MemberCovered(ms[j], ns, caseSensitive)
  }

  lemma AllCovered(ms: seq<Member>, ns: seq<Member>, caseSensitive: bool)
    ensures MembersCovered(ms, ns, |ms|, caseSensitive) <==> Covered(ms, ns, caseSensitive)
  {
    hide Compare, FirstWith, Key;
    if Covered(ms, ns, caseSensitive) {
      forall j | 0 <= j < |ms| ensures MemberCovered(ms[j], ns, caseSensitive) { }
    }
  }

  /** Both passes over two objects. */
  method CompareObjects(a: CJson, b: CJson, caseSensitive: bool, ghost sa: Shape, ghost sb: Shape) returns (r: bool)
    requires Wf(sa) && Wf(sb) && sa.node == a && sb.node == b && a.kind == b.kind == ObjectKind
    ensures Comparable(sa, sb, caseSensitive) ==> (r <==> Compare(TreeOf(sa), TreeOf(sb), caseSensitive))
    decreases Height(sa) + Height(sb), 3
  {
    hide Wf, TreeOf, EntriesOf, HasEntries, Height, Covered;
    EntriesExist(sa);
    EntriesExist(sb);
    ghost var p := Pair(sa, EntriesOf(sa.kids, sa.foot), sb, EntriesOf(sb.kids, sb.foot));
    EntriesValue(sa, p.es);
    EntriesValue(sb, p.fs);
    r := CoverMembers(a, b, caseSensitive, p);
    if r {
      r := CoverMembers(b, a, caseSensitive, Pair(sb, p.fs, sa, p.es));
    }
  }

  /** One pass: every member of `a` is looked up in `b`. */
  method CoverMembers(a: CJson, b: CJson, caseSensitive: bool, ghost p: Pair) returns (r: bool)
    requires Known(p) && p.sa.node == a && p.sb.node == b && a.kind == b.kind == ObjectKind
    ensures AllNamed(p.es) && AllNamed(p.fs)
    ensures Comparable(p.sa, p.sb, caseSensitive) ==> (r <==> Covered(Members(p.es), Members(p.fs), caseSensitive))
    decreases Height(p.sa) + Height(p.sb), 2
  {
    hide Wf, TreeOf, Entries, Height, Compare, Comparable, MemberCovered, Covered, Members;
    EntriesValue(p.sa, p.es);
    EntriesValue(p.sb, p.fs);
    KidsOf(p.sa, p.es);
    ghost var ms, ns, comparable := Members(p.es), Members(p.fs), Comparable(p.sa, p.sb, caseSensitive);
    AllCovered(ms, ns, caseSensitive);
    var x := a.child;
    ghost var i := 0;
    while x != null
      invariant 0 <= i <= |p.sa.kids| && x == First(p.sa.kids[i..])
      invariant comparable ==> MembersCovered(ms, ns, i, caseSensitive)
      decreases |p.sa.kids| - i
    {
      var same := CompareMember(x, b, caseSensitive, p, i);
      if !same {
        return false;
      }
      x, i := x.next, i + 1;
    }
    r := true;
  }

  /** A turn of that loop. */
  method CompareMember(x: CJson, b: CJson, caseSensitive: bool, ghost p: Pair, ghost i: nat) returns (same: bool)
    requires Known(p) && p.sb.node == b && i < |p.sa.kids| && x == p.sa.kids[i].node
    requires AllNamed(p.es) && AllNamed(p.fs)
    ensures x.next == First(p.sa.kids[i + 1..]) && i < |p.es|
    ensures Comparable(p.sa, p.sb, caseSensitive) ==>
      (same <==> MemberCovered(Members(p.es)[i], Members(p.fs), caseSensitive))
    decreases Height(p.sa) + Height(p.sb), 1
  {
    hide Wf, TreeOf, Entries, Compare, Comparable, FindEntry, Key;
    ChildAt(p.sa, p.es, i);
    var y := GetObjectItem(b, x.name, caseSensitive, p.sb, p.fs);
    FindEntryFirst(p.fs, x.name.value, caseSensitive);
    if y == null {
      return false;
    }
    ghost var k := FindEntry(p.fs, x.name.value, caseSensitive);
    ChildAt(p.sb, p.fs, k);
    KidHeight(p.sa.kids, i);
    KidHeight(p.sb.kids, k);
    same := CompareNodes(x, y, caseSensitive, p.sa.kids[i], p.sb.kids[k]);
    if Comparable(p.sa, p.sb, caseSensitive) {
      KidsComparable(p, i, k, caseSensitive);
    }
  }
}

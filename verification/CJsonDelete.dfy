/** `cJSON_Delete`: which nodes it gives back, and that it gives back none of them twice. */
module CJsonDelete {
  import opened CJsonNode

  /** `n` is a node of the tree. */
  predicate InTree(n: CJson, s: Shape) { n == s.node || InTrees(n, s.kids) }

  predicate InTrees(n: CJson, ss: seq<Shape>) { ss != [] && (InTree(n, ss[0]) || InTrees(n, ss[1..])) }

  /** The nodes in the order in which they are freed: the children before their parent. */
  function Freed(ss: seq<Shape>): seq<CJson> {
    if ss == [] then [] else Freed(ss[0].kids) + [ss[0].node] + Freed(ss[1..])
  }

  /** Whole trees that share no node, linked by `next` up to null. */
  ghost predicate TreeList(ss: seq<Shape>, foot: set<CJson>)
    reads foot
  {
    && Within(ss, foot) && Disjoint(ss)
    && (forall i | 0 <= i < |ss| :: Wf(ss[i]))
    && (forall i | 0 <= i < |ss| :: ss[i].node.next == After(NodesOf(ss), i))
  }

  lemma {:induction false} FreedConcat(ss: seq<Shape>, ts: seq<Shape>)
    ensures Freed(ss + ts) == Freed(ss) + Freed(ts)
    decreases |ss|
  {
    if ss == [] {
      assert ss + ts == ts;
    } else {
      assert (ss + ts)[1..] == ss[1..] + ts;
      FreedConcat(ss[1..], ts);
    }
  }

  /** Exactly the nodes of the trees are freed. */
  lemma {:induction false} FreedAll(ss: seq<Shape>, n: CJson)
    ensures n in Freed(ss) <==> InTrees(n, ss)
    decreases ss
  {
    if ss != [] {
      FreedAll(ss[0].kids, n);
      FreedAll(ss[1..], n);
    }
  }

  /** They lie in the trees, and none is freed twice. */
  lemma {:induction false} FreedOnce(ss: seq<Shape>, foot: set<CJson>)
    requires TreeList(ss, foot)
    ensures forall n | n in Freed(ss) :: n in foot
    ensures NoneTwice(Freed(ss))
    decreases ss
  {
    hide TreeList, Freed, NoneTwice;
    FreedUnfold(ss);
    if ss != [] {
      var below, rest := ss[0].foot - {ss[0].node}, foot - ss[0].foot;
      FirstTree(ss, foot);
      FreedOnce(ss[0].kids, below);
      FreedOnce(ss[1..], rest);
      JoinedOnce(Freed(ss[0].kids), ss[0].node, Freed(ss[1..]), below, rest);
    } else {
      assert NoneTwice([]) by { NothingTwice(); }
    }
  }

  predicate NoneTwice(ns: seq<CJson>) { forall i, j | 0 <= i < j < |ns| :: ns[i] != ns[j] }

  lemma NothingTwice()
    ensures NoneTwice([])
  {
  }

  lemma JoinedOnce(a: seq<CJson>, n: CJson, b: seq<CJson>, below: set<CJson>, rest: set<CJson>)
    requires NoneTwice(a) && NoneTwice(b) && below !! rest && n !in below && n !in rest
    requires (forall m | m in a :: m in below) && (forall m | m in b :: m in rest)
    ensures NoneTwice(a + [n] + b)
    ensures forall m | m in a + [n] + b :: m in below || m == n || m in rest
  {
    var ns := a + [n] + b;
    forall i | 0 <= i < |ns|
      ensures if i < |a| then ns[i] in below else if i == |a| then ns[i] == n else ns[i] in rest
    {
      assert i < |a| ==> ns[i] == a[i] && a[i] in a;
      assert i > |a| ==> ns[i] == b[i - |a| - 1] && b[i - |a| - 1] in b;
    }
  }

  lemma FreedUnfold(ss: seq<Shape>)
    ensures Freed(ss) == if ss == [] then [] else Freed(ss[0].kids) + [ss[0].node] + Freed(ss[1..])
  {
  }

  /** The children of the first tree, and the other trees. */
  lemma FirstTree(ss: seq<Shape>, foot: set<CJson>)
    requires TreeList(ss, foot) && ss != []
    ensures ss[0].node in ss[0].foot && ss[0].foot <= foot
    ensures TreeList(ss[0].kids, ss[0].foot - {ss[0].node})
    ensures TreeList(ss[1..], foot - ss[0].foot)
  {
    hide Wf;
    KidsList(ss[0]);
    RootInFoot(ss, foot, 0);
    var rest, ns := ss[1..], NodesOf(ss);
    forall i | 0 <= i < |rest| ensures rest[i].node.next == After(NodesOf(rest), i) {
      assert rest[i] == ss[i + 1] && ss[i + 1].node.next == After(ns, i + 1);
    }
  }

  lemma RootInFoot(ss: seq<Shape>, foot: set<CJson>, i: nat)
    requires Within(ss, foot) && i < |ss|
    ensures ss[i].node in ss[i].foot && ss[i].foot <= foot
  {
  }

  lemma KidsList(s: Shape)
    requires Wf(s)
    ensures TreeList(s.kids, s.foot - {s.node}) && s.node.child == First(s.kids)
  {
    hide Fields, Disjoint;
    var ns := NodesOf(s.kids);
    forall i | 0 <= i < |s.kids| ensures s.kids[i].node.next == After(ns, i) {
      assert ns[i].next == After(ns, i);
    }
  }

  /** `cJSON_Delete`; `freed` are the nodes given to the deallocator, in order. */
  method Delete(item: CJson?, ghost ss: seq<Shape>, ghost foot: set<CJson>) returns (freed: seq<CJson>)
    requires TreeList(ss, foot) && item == First(ss)
    ensures freed == Freed(ss)
    decreases ss
  {
    hide TreeList, Freed;
    FreedUnfold([]);
    freed := [];
    var current := item;
    ghost var i := 0;
    assert ss[..0] == [] && ss[0..] == ss;
    while current != null
      invariant 0 <= i <= |ss| && current == First(ss[i..]) && freed == Freed(ss[..i])
      decreases |ss| - i
    {
      assert ss[i..][0] == ss[i];
      ListAt(ss, foot, i);
      var next := current.next;
      if current.child != null {
        var below := Delete(current.child, ss[i].kids, ss[i].foot - {ss[i].node});
        freed := freed + below;
      }
      freed := freed + [current];
      FreedMore(ss, i);
      current, i := next, i + 1;
    }
    assert i == |ss| by { ListEnd(ss, i); }
    assert ss[..i] == ss;
  }

  lemma ListEnd(ss: seq<Shape>, i: nat)
    requires i <= |ss| && First(ss[i..]) == null
    ensures i == |ss|
  {
  }

  lemma FreedMore(ss: seq<Shape>, i: nat)
    requires i < |ss|
    ensures Freed(ss[..i + 1]) == Freed(ss[..i]) + Freed(ss[i].kids) + [ss[i].node]
    ensures ss[i].kids == [] ==> Freed(ss[i].kids) == []
  {
    assert ss[..i + 1] == ss[..i] + [ss[i]];
    FreedConcat(ss[..i], [ss[i]]);
    assert [ss[i]][1..] == [];
    assert Freed([ss[i]]) == Freed(ss[i].kids) + [ss[i].node] + [];
  }

  lemma ListAt(ss: seq<Shape>, foot: set<CJson>, i: nat)
    requires TreeList(ss, foot) && i < |ss|
    ensures ss[i].node.next == First(ss[i + 1..])
    ensures TreeList(ss[i].kids, ss[i].foot - {ss[i].node}) && ss[i].node.child == First(ss[i].kids)
    ensures ss[i].node.child == null ==> ss[i].kids == []
  {
    KidsList(ss[i]);
  }

  /** A tree of its own. */
  lemma SingleTree(s: Shape)
    requires Wf(s) && s.node.next == null
    ensures TreeList([s], s.foot)
  {
  }
}

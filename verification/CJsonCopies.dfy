/**
 What copying a tree keeps: a duplicate, and the tree that is parsed from the
 printed text, compared with the original by `cJSON_Compare`.
 */
module CJsonCopies {
  import opened CBytes
  import opened JsonTree
  import opened JsonNumber
  import opened JsonGrammar
  import opened JsonText
  import opened JsonRoundTrip
  import opened JsonCompare
  import opened CJsonNode
  import opened CJsonParser
  import opened CJsonPrinter
  import opened CJsonDuplicate
  import opened CJsonCompare

  /** The comparison of a tree with an equal one made of other nodes. */
  lemma EqualTrees(t: Json, caseSensitive: bool)
    ensures IntsOnly(t) ==> (Compare(t, t, caseSensitive) <==> Consistent(t, caseSensitive))
    ensures UniqueKeys(t, caseSensitive) ==> Compare(t, t, caseSensitive)
  {
    hide IntsOnly, Compare, Consistent, UniqueKeys;
    if IntsOnly(t) {
      CompareSelf(t, caseSensitive);
    }
    if UniqueKeys(t, caseSensitive) {
      UniqueKeysReflexive(t, caseSensitive);
    }
  }

  /** A tree is equal to its duplicate exactly if it is equal to itself: for ints, if no key has two values. */
  method CompareWithDuplicate(item: CJson, caseSensitive: bool, ghost s: Shape) returns (same: bool)
    requires Wf(s) && s.node == item
    ensures same <==> Compare(TreeOf(s), TreeOf(s), caseSensitive)
    ensures IntsOnly(TreeOf(s)) ==> (same <==> Consistent(TreeOf(s), caseSensitive))
    ensures UniqueKeys(TreeOf(s), caseSensitive) ==> same
  {
    hide Wf, TreeOf, IntsOnly, Compare, Consistent, UniqueKeys;
    ghost var t := TreeOf(s);
    var copy; ghost var d;
    copy, d := Duplicate(item, true, s);
    same := CompareNodes(item, copy, caseSensitive, s, d);
    EqualTrees(t, caseSensitive);
  }

  /** What the printed text of a tree reads as, compared with the tree. */
  lemma RereadTrees(t: Json, st: Style, caseSensitive: bool)
    ensures Exact(t, st) <==> Reread(t, st) == t
    ensures IntsOnly(t) ==>
      Exact(t, st) && (Compare(t, Reread(t, st), caseSensitive) <==> Consistent(t, caseSensitive))
    ensures UniqueKeys(t, caseSensitive) && Recovered(t, st) ==> Compare(t, Reread(t, st), caseSensitive)
  {
    hide IntsOnly, Compare, Consistent, UniqueKeys, Exact, Recovered, Reread;
    RereadExact(t, st);
    if IntsOnly(t) {
      IntsReadable(t, st);
    }
    EqualTrees(t, caseSensitive);
    if UniqueKeys(t, caseSensitive) && Recovered(t, st) {
      RereadCompares(t, st, caseSensitive);
    }
  }

  /**
   The tree parsed from the printed text of a readable tree, if there is room
   for the text: there is one exactly if the tree is nested at most 1000 deep.
   It is the tree that the texts of the numbers read as; the same
   tree exactly if these read as the numbers.  It compares equal if keys are
   unique and 17 digits recover the numbers, and for `int`s, which always come
   back, exactly if no key has two values.
   */
  method CompareWithParsedPrint(item: CJson, style: Style, strict: bool, caseSensitive: bool, ghost s: Shape)
    returns (printed: bool, copy: CJson?, same: bool, ghost d: Shape)
    requires Wf(s) && s.node == item && Readable(TreeOf(s), style)
    ensures printed <==> |TextOf(TreeOf(s), style, 0)| + 2 <= INT_MAX
    ensures printed ==> (copy != null <==> Nesting(TreeOf(s)) <= NESTING_LIMIT)
    ensures copy != null ==> fresh(d.foot) && d.node == copy && Wf(d) && TreeOf(d) == Reread(TreeOf(s), style)
    ensures copy != null ==> (TreeOf(d) == TreeOf(s) <==> Exact(TreeOf(s), style))
    ensures copy != null && IntsOnly(TreeOf(s)) ==>
      TreeOf(d) == TreeOf(s) && (same <==> Consistent(TreeOf(s), caseSensitive))
    ensures copy != null && UniqueKeys(TreeOf(s), caseSensitive) && Recovered(TreeOf(s), style) ==> same
  {
    hide Wf, TreeOf, TextOf, Readable, Nesting, IntsOnly, Compare, Consistent, UniqueKeys, Parse;
    hide Exact, Recovered, Reread;
    ghost var t := TreeOf(s);
    printed, copy, same, d := false, null, false, s;
    var text := Print(item, style, true, s);
    if text == null {
      return;
    }
    printed := true;
    ghost var content := TextOf(t, style, 0);
    assert text[..text.Length - 1] == content;
    var end;
    copy, end, d := ParseWithOpts(text[..text.Length - 1], strict);
    RoundTrip(t, style, strict);
    if copy != null {
      same := CompareNodes(item, copy, caseSensitive, s, d);
      RereadTrees(t, style, caseSensitive);
    }
  }
}

/** The constructors of cJSON.c that take counted data build well-formed arrays. */
module CJsonCreate {
  import opened CBytes
  import opened JsonNumber
  import opened JsonTree
  import opened CJsonNode

  /** A new node without neighbours or children, and the one-node tree it is. */
  ghost predicate Leaf(node: CJson, value: Json)
    reads node
  {
    && node.next == null && node.prev == null
    && Wf(LeafShape(node)) && EntryOf(LeafShape(node)) == Entry(None, value)
  }

  ghost function LeafShape(node: CJson): Shape { Shape(node, [], {node}) }

  /** `cJSON_CreateNumber`. */
  method CreateNumber(num: real) returns (node: CJson)
    ensures fresh(node) && Leaf(node, Number(num))
  {
    node := new CJson();
    node.kind := NumberKind;
    node.valuedouble := num;
    if num >= INT_MAX as real {
      node.valueint := INT_MAX;
    } else if num <= INT_MIN as real {
      node.valueint := INT_MIN;
    } else {
      node.valueint := SaturatedInt(num);
    }
  }

  /** `cJSON_CreateString`; copying a null string gives no node. */
  method CreateString(text: Option<cstring>) returns (node: CJson?)
    ensures text.None? ==> node == null
    ensures text.Some? ==> node != null && fresh(node) && Leaf(node, Text(text.value))
  {
    if text.None? {
      return null;
    }
    var item := new CJson();
    item.kind := StringKind;
    item.valuestring := text;
    return item;
  }

  /** `cJSON_CreateArray`. */
  method CreateArray() returns (node: CJson)
    ensures fresh(node) && Leaf(node, Array([])) && node.kind == ArrayKind && node.child == null
  {
    node := new CJson();
    node.kind := ArrayKind;
  }

  /** A turn of the loop: a new number node at the end. */
  method AddNumber(a: CJson, p: CJson?, value: real, ghost g: Progress) returns (n: CJson, ghost h: Progress)
    requires Growing(a, p, g)
    modifies a`child, if p == null then {} else {p}`next
    ensures fresh(n) && h.foot == g.foot + {n} && h.es == g.es + [Entry(None, Number(value))]
    ensures Growing(a, n, h) && a.child in h.foot
  {
    hide Wf, TreeOf, ListFrom, Leaf;
    n := CreateNumber(value);
    h := Grown(g, LeafShape(n));
    AddTree(a, p, n, g, LeafShape(n));
  }

  /** The loop of `cJSON_CreateDoubleArray`. */
  method AddNumbers(a: CJson, numbers: array<real>, count: nat) returns (n: CJson?, ghost g: Progress)
    requires a.child == null && count <= numbers.Length
    modifies a`child
    ensures fresh(g.foot) && Growing(a, n, g) && (a.child != null ==> a.child in g.foot)
    ensures |g.es| == count && forall i | 0 <= i < count :: g.es[i] == Entry(None, Number(numbers[i]))
  {
    hide *;
    StartGrowing(a);
    var i := 0;
    n, g := null, Progress([], {}, []);
    while i < count
      invariant 0 <= i <= count && fresh(g.foot) && Growing(a, n, g)
      invariant (n != null ==> n in g.foot) && (a.child != null ==> a.child in g.foot)
      invariant |g.es| == i && forall j | 0 <= j < i :: g.es[j] == Entry(None, Number(numbers[j]))
    {
      n, g := AddNumber(a, n, numbers[i], g);
      i := i + 1;
    }
  }

  /** `cJSON_CreateDoubleArray`; on a null pointer or a negative count there is no array. */
  method CreateDoubleArray(numbers: array?<real>, count: int) returns (a: CJson?, ghost g: Progress)
    requires numbers != null && count >= 0 ==> count <= numbers.Length
    ensures a == null <==> numbers == null || count < 0
    ensures a != null ==> fresh(a) && fresh(g.foot) && a.kind == ArrayKind && IsContainer(a, g)
    ensures a != null ==> |g.es| == count && forall i | 0 <= i < count :: g.es[i] == Entry(None, Number(numbers[i]))
  {
    g := Progress([], {}, []);
    if count < 0 || numbers == null {
      return null, g;
    }
    hide *;
    a := CreateArray();
    var n;
    n, g := AddNumbers(a, numbers, count);
    FinishGrowing(a, n, g);
  }

  /** A turn of the loop over strings; a null string gives no node. */
  method AddString(a: CJson, p: CJson?, text: Option<cstring>, ghost g: Progress) returns (n: CJson?, ghost h: Progress)
    requires Growing(a, p, g)
    modifies a`child, if p == null then {} else {p}`next
    ensures n == null <==> text.None?
    ensures n != null ==> fresh(n) && h.foot == g.foot + {n} && h.es == g.es + [Entry(None, Text(text.value))]
    ensures n != null ==> Growing(a, n, h) && a.child in h.foot
  {
    hide Wf, TreeOf, ListFrom, Leaf;
    h := g;
    n := CreateString(text);
    if n != null {
      h := Grown(g, LeafShape(n));
      AddTree(a, p, n, g, LeafShape(n));
    }
  }

  /** The loop of `cJSON_CreateStringArray`: it gives up at a null string. */
  method AddStrings(a: CJson, strings: array<Option<cstring>>, count: nat)
    returns (ok: bool, n: CJson?, ghost g: Progress)
    requires a.child == null && count <= strings.Length
    modifies a`child
    ensures ok == forall i | 0 <= i < count :: strings[i].Some?
    ensures ok ==> fresh(g.foot) && Growing(a, n, g) && (a.child != null ==> a.child in g.foot)
    ensures ok ==> |g.es| == count && forall i | 0 <= i < count :: g.es[i] == Entry(None, Text(strings[i].value))
  {
    hide *;
    StartGrowing(a);
    var i := 0;
    n, g := null, Progress([], {}, []);
    while i < count
      invariant 0 <= i <= count && fresh(g.foot) && Growing(a, n, g)
      invariant (n != null ==> n in g.foot) && (a.child != null ==> a.child in g.foot)
      invariant |g.es| == i && forall j | 0 <= j < i ::
        strings[j].Some? && g.es[j] == Entry(None, Text(strings[j].value))
    {
      var m;
      m, g := AddString(a, n, strings[i], g);
      if m == null {
        return false, n, g;
      }
      n := m;
      i := i + 1;
    }
    ok := true;
  }

  /** `cJSON_CreateStringArray`. */
  method CreateStringArray(strings: array?<Option<cstring>>, count: int) returns (a: CJson?, ghost g: Progress)
    requires strings != null && count >= 0 ==> count <= strings.Length
    ensures a != null <==> strings != null && count >= 0 && forall i | 0 <= i < count :: strings[i].Some?
    ensures a != null ==> fresh(a) && fresh(g.foot) && a.kind == ArrayKind && IsContainer(a, g)
    ensures a != null ==> |g.es| == count && forall i | 0 <= i < count :: g.es[i] == Entry(None, Text(strings[i].value))
  {
    g := Progress([], {}, []);
    if count < 0 || strings == null {
      return null, g;
    }
    hide *;
    var node := CreateArray();
    var n, ok;
    ok, n, g := AddStrings(node, strings, count);
    if !ok {
      return null, g;
    }
    FinishGrowing(node, n, g);
    a := node;
  }
}

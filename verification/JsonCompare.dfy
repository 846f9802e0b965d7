/**
 When two JSON trees are equal for `cJSON_Compare`: arrays item by item,
 objects by looking every member of each up in the other.
 */
module JsonCompare {
  import opened CBytes
  import opened JsonNumber
  import opened JsonTree

  // ----- the comparison -------------------------------------------------------------------

  function Lower(b: byte): byte { if 'A' as int <= b <= 'Z' as int then b + 32 else b }

  /** The spelling under which a name is looked up: itself, or folded to lower case. */
  function Key(name: cstring, caseSensitive: bool): (k: bytes)
    ensures |k| == |name|
  {
    if caseSensitive then name else seq(|name|, i requires 0 <= i < |name| => Lower(name[i]))
  }

  predicate Letter(b: byte) { 'A' as int <= b <= 'Z' as int || 'a' as int <= b <= 'z' as int }

  /** The same byte, or a letter in either case. */
  predicate SameLetter(a: byte, b: byte) {
    a == b || (Letter(a) && Letter(b) && (a == b + 32 || b == a + 32))
  }

  /** Two names have one key exactly if they are equal, byte by byte, or letter by letter in either case. */
  lemma SameKey(x: cstring, y: cstring, caseSensitive: bool)
    ensures Key(x, caseSensitive) == Key(y, caseSensitive) <==>
      if caseSensitive then x == y else |x| == |y| && forall i | 0 <= i < |x| :: SameLetter(x[i], y[i])
  {
    if !caseSensitive && |x| == |y| {
      hide Lower, SameLetter;
      var k, l := Key(x, false), Key(y, false);
      forall i | 0 <= i < |x| ensures k[i] == l[i] <==> SameLetter(x[i], y[i]) {
        SameLower(x[i], y[i]);
      }
      assert k == l <==> forall i | 0 <= i < |x| :: k[i] == l[i];
    }
  }

  lemma SameLower(a: byte, b: byte)
    ensures Lower(a) == Lower(b) <==> SameLetter(a, b)
  {
  }

  /** `get_object_item`: the value of the first member with that key. */
  function FirstWith(ms: seq<Member>, k: bytes, caseSensitive: bool): (v: Option<Json>)
    ensures v.Some? ==> Nesting(v.value) <= NestingMembers(ms)
  {
    if ms == [] then None
    else if Key(ms[0].name, caseSensitive) == k then Some(ms[0].value)
    else FirstWith(ms[1..], k, caseSensitive)
  }

  /** `cJSON_Compare` on trees. */
  predicate Compare(a: Json, b: Json, caseSensitive: bool)
    decreases Nesting(a) + Nesting(b), 0
  {
    match a
    case Null => b.Null?
    case False => b.False?
    case True => b.True?
    case Number(v) => b.Number? && Close(v, b.value)
    case Text(s) => b.Text? && b.text == s
    case Raw(s) => b.Raw? && b.text == s
    case Array(xs) => b.Array? && CompareItems(xs, b.items, caseSensitive)
    case Object(ms) =>
      b.Object? && Covered(ms, b.members, caseSensitive) && Covered(b.members, ms, caseSensitive)
  }

  predicate CompareItems(xs: seq<Json>, ys: seq<Json>, caseSensitive: bool)
    decreases NestingItems(xs) + NestingItems(ys), 1
  {
    |xs| == |ys| && forall i | 0 <= i < |xs| ::
      (ItemNesting(xs, i); ItemNesting(ys, i); Compare(xs[i], ys[i], caseSensitive))
  }

  /** Every member of `ms` is equal to the first of that name in `ns`. */
  predicate Covered(ms: seq<Member>, ns: seq<Member>, caseSensitive: bool)
    decreases NestingMembers(ms) + NestingMembers(ns), 1
  {
    forall i | 0 <= i < |ms| ::
      (MemberNesting(ms, i);
       var v := FirstWith(ns, Key(ms[i].name, caseSensitive), caseSensitive);
       v.Some? && Compare(ms[i].value, v.value, caseSensitive))
  }

  lemma {:induction false} ItemNesting(xs: seq<Json>, i: nat)
    requires i < |xs|
    ensures Nesting(xs[i]) <= NestingItems(xs)
  {
    if i > 0 {
      ItemNesting(xs[1..], i - 1);
    }
  }

  lemma {:induction false} MemberNesting(ms: seq<Member>, i: nat)
    requires i < |ms|
    ensures Nesting(ms[i].value) <= NestingMembers(ms)
  {
    if i > 0 {
      MemberNesting(ms[1..], i - 1);
    }
  }

  // ----- symmetry -------------------------------------------------------------------------

  lemma {:induction false} CompareSymmetric(a: Json, b: Json, caseSensitive: bool)
    ensures Compare(a, b, caseSensitive) <==> Compare(b, a, caseSensitive)
    decreases Nesting(a) + Nesting(b)
  {
    if a.Array? && b.Array? && |a.items| == |b.items| {
      forall i | 0 <= i < |a.items|
        ensures Compare(a.items[i], b.items[i], caseSensitive) <==> Compare(b.items[i], a.items[i], caseSensitive)
      {
        ItemNesting(a.items, i);
        ItemNesting(b.items, i);
        CompareSymmetric(a.items[i], b.items[i], caseSensitive);
      }
    }
  }

  // ----- normal forms ---------------------------------------------------------------------

  /** A tree without the order of members: objects are maps from keys. */
  datatype Canonical =
    | CNull
    | CFalse
    | CTrue
    | CNumber(value: real)
    | CText(text: cstring)
    | CRaw(text: cstring)
    | CArray(items: seq<Canonical>)
    | CObject(members: map<bytes, Canonical>)

  function Canon(t: Json, caseSensitive: bool): Canonical {
    match t
    case Null => CNull
    case False => CFalse
    case True => CTrue
    case Number(v) => CNumber(v)
    case Text(s) => CText(s)
    case Raw(s) => CRaw(s)
    case Array(xs) => CArray(CanonItems(xs, caseSensitive))
    case Object(ms) => CObject(CanonMembers(ms, caseSensitive))
  }

  function CanonItems(xs: seq<Json>, caseSensitive: bool): (r: seq<Canonical>)
    ensures |r| == |xs| && forall i | 0 <= i < |xs| :: r[i] == Canon(xs[i], caseSensitive)
  {
    if xs == [] then [] else [Canon(xs[0], caseSensitive)] + CanonItems(xs[1..], caseSensitive)
  }

  /** Where a key repeats, its first member counts. */
  function CanonMembers(ms: seq<Member>, caseSensitive: bool): map<bytes, Canonical> {
    if ms == [] then map[]
    else CanonMembers(ms[1..], caseSensitive)[Key(ms[0].name, caseSensitive) := Canon(ms[0].value, caseSensitive)]
  }

  lemma {:induction false} CanonLookup(ms: seq<Member>, k: bytes, caseSensitive: bool)
    ensures k in CanonMembers(ms, caseSensitive) <==> FirstWith(ms, k, caseSensitive).Some?
    ensures k in CanonMembers(ms, caseSensitive) ==>
      CanonMembers(ms, caseSensitive)[k] == Canon(FirstWith(ms, k, caseSensitive).value, caseSensitive)
  {
    if ms != [] {
      CanonLookup(ms[1..], k, caseSensitive);
    }
  }

  lemma {:induction false} MemberFound(ms: seq<Member>, i: nat, caseSensitive: bool)
    requires i < |ms|
    ensures FirstWith(ms, Key(ms[i].name, caseSensitive), caseSensitive).Some?
  {
    if i > 0 {
      MemberFound(ms[1..], i - 1, caseSensitive);
    }
  }

  /** What is found is one of the members, under that key. */
  lemma {:induction false} FoundIsMember(ms: seq<Member>, k: bytes, caseSensitive: bool) returns (i: nat)
    requires FirstWith(ms, k, caseSensitive).Some?
    ensures i < |ms| && Key(ms[i].name, caseSensitive) == k && ms[i].value == FirstWith(ms, k, caseSensitive).value
  {
    if Key(ms[0].name, caseSensitive) == k {
      i := 0;
    } else {
      i := FoundIsMember(ms[1..], k, caseSensitive);
      i := i + 1;
    }
  }

  // ----- trees of ints --------------------------------------------------------------------

  predicate IntsOnly(t: Json) {
    match t
    case Number(v) => PrintsAsInt(v)
    case Array(xs) => forall i | 0 <= i < |xs| :: IntsOnly(xs[i])
    case Object(ms) => forall i | 0 <= i < |ms| :: IntsOnly(ms[i].value)
    case _ => true
  }

  /** Members that share a key have the same value. */
  predicate Consistent(t: Json, caseSensitive: bool) {
    match t
    case Array(xs) => forall i | 0 <= i < |xs| :: Consistent(xs[i], caseSensitive)
    case Object(ms) =>
      && (forall i | 0 <= i < |ms| :: Consistent(ms[i].value, caseSensitive))
      && AgreesWith(ms, CanonMembers(ms, caseSensitive), caseSensitive)
    case _ => true
  }

  /** Every member is the one that the map has for its key. */
  predicate AgreesWith(ms: seq<Member>, m: map<bytes, Canonical>, caseSensitive: bool) {
    forall i | 0 <= i < |ms| ::
      Key(ms[i].name, caseSensitive) in m && m[Key(ms[i].name, caseSensitive)] == Canon(ms[i].value, caseSensitive)
  }

  /** Two ints that `compare_double` takes for equal are equal. */
  lemma IntsClose(x: real, y: real)
    requires PrintsAsInt(x) && PrintsAsInt(y)
    ensures Close(x, y) <==> x == y
  {
    var m, n := SaturatedInt(x), SaturatedInt(y);
    assert x - y == (m - n) as real;
    var bound := if Magnitude(x) > Magnitude(y) then Magnitude(x) else Magnitude(y);
    assert bound * DBL_EPSILON < 1.0;
  }

  /**
   On trees of ints `cJSON_Compare` is exactly equality of normal forms, on
   condition that neither tree gives one key two different values.
   */
  lemma {:induction false} CompareExact(a: Json, b: Json, caseSensitive: bool)
    requires IntsOnly(a) && IntsOnly(b)
    ensures Compare(a, b, caseSensitive) <==>
              && Consistent(a, caseSensitive) && Consistent(b, caseSensitive)
              && Canon(a, caseSensitive) == Canon(b, caseSensitive)
    decreases Nesting(a) + Nesting(b), 0
  {
    if a.Number? && b.Number? {
      IntsClose(a.value, b.value);
    } else if a.Array? && b.Array? {
      ItemsExact(a.items, b.items, caseSensitive);
    } else if a.Object? && b.Object? {
      MembersExact(a.members, b.members, caseSensitive);
    }
  }

  lemma ItemsExact(xs: seq<Json>, ys: seq<Json>, caseSensitive: bool)
    requires IntsOnly(Array(xs)) && IntsOnly(Array(ys))
    ensures CompareItems(xs, ys, caseSensitive) <==>
              Consistent(Array(xs), caseSensitive) && Consistent(Array(ys), caseSensitive)
              && CanonItems(xs, caseSensitive) == CanonItems(ys, caseSensitive)
    decreases NestingItems(xs) + NestingItems(ys), 1
  {
    hide Canon;
    if |xs| == |ys| {
      forall i | 0 <= i < |xs|
        ensures Compare(xs[i], ys[i], caseSensitive) <==>
                  Consistent(xs[i], caseSensitive) && Consistent(ys[i], caseSensitive)
                  && CanonItems(xs, caseSensitive)[i] == CanonItems(ys, caseSensitive)[i]
      {
        ItemNesting(xs, i);
        ItemNesting(ys, i);
        CompareExact(xs[i], ys[i], caseSensitive);
      }
    }
  }

  lemma MembersExact(ms: seq<Member>, ns: seq<Member>, caseSensitive: bool)
    requires IntsOnly(Object(ms)) && IntsOnly(Object(ns))
    ensures Covered(ms, ns, caseSensitive) && Covered(ns, ms, caseSensitive) <==>
              Consistent(Object(ms), caseSensitive) && Consistent(Object(ns), caseSensitive)
              && CanonMembers(ms, caseSensitive) == CanonMembers(ns, caseSensitive)
    decreases NestingMembers(ms) + NestingMembers(ns), 3
  {
    CoveredExact(ms, ns, caseSensitive);
    CoveredExact(ns, ms, caseSensitive);
    hide Covered, Canon, CanonMembers, AgreesWith;
    if AgreesWith(ms, CanonMembers(ns, caseSensitive), caseSensitive)
      && AgreesWith(ns, CanonMembers(ms, caseSensitive), caseSensitive) {
      MutualAgreement(ms, ns, caseSensitive);
    }
  }

  predicate AllConsistent(ms: seq<Member>, caseSensitive: bool) {
    forall i | 0 <= i < |ms| :: Consistent(ms[i].value, caseSensitive)
  }

  /** Being covered by the other object, in terms of its map. */
  lemma CoveredExact(ms: seq<Member>, ns: seq<Member>, caseSensitive: bool)
    requires IntsOnly(Object(ms)) && IntsOnly(Object(ns))
    ensures Covered(ms, ns, caseSensitive) ==> AllConsistent(ms, caseSensitive)
    ensures Covered(ms, ns, caseSensitive) ==> AgreesWith(ms, CanonMembers(ns, caseSensitive), caseSensitive)
    ensures AllConsistent(ms, caseSensitive) && AllConsistent(ns, caseSensitive) ==>
      AgreesWith(ms, CanonMembers(ns, caseSensitive), caseSensitive) ==> Covered(ms, ns, caseSensitive)
    decreases NestingMembers(ms) + NestingMembers(ns), 2
  {
    hide Canon, CanonMembers, Compare, Consistent, IntsOnly;
    var m := CanonMembers(ns, caseSensitive);
    if Covered(ms, ns, caseSensitive) {
      forall i | 0 <= i < |ms|
        ensures Consistent(ms[i].value, caseSensitive)
        ensures Key(ms[i].name, caseSensitive) in m
          && m[Key(ms[i].name, caseSensitive)] == Canon(ms[i].value, caseSensitive)
      {
        MemberCompared(ms, ns, i, caseSensitive);
      }
    }
    if AllConsistent(ms, caseSensitive) && AllConsistent(ns, caseSensitive) && AgreesWith(ms, m, caseSensitive) {
      forall i | 0 <= i < |ms|
        ensures var v := FirstWith(ns, Key(ms[i].name, caseSensitive), caseSensitive);
                v.Some? && Compare(ms[i].value, v.value, caseSensitive)
      {
        MemberCompared(ms, ns, i, caseSensitive);
      }
    }
  }

  /** One member, its counterpart, and the map of the other object. */
  predicate MemberExact(ms: seq<Member>, ns: seq<Member>, i: nat, caseSensitive: bool)
    requires i < |ms|
  {
    var k := Key(ms[i].name, caseSensitive);
    var v := FirstWith(ns, k, caseSensitive);
    var m := CanonMembers(ns, caseSensitive);
    && (k in m <==> v.Some?)
    && (v.Some? && AllConsistent(ns, caseSensitive) ==> Consistent(v.value, caseSensitive))
    && (v.Some? ==> (Compare(ms[i].value, v.value, caseSensitive) <==>
          Consistent(ms[i].value, caseSensitive) && Consistent(v.value, caseSensitive)
          && m[k] == Canon(ms[i].value, caseSensitive)))
  }

  lemma MemberCompared(ms: seq<Member>, ns: seq<Member>, i: nat, caseSensitive: bool)
    requires IntsOnly(Object(ms)) && IntsOnly(Object(ns)) && i < |ms|
    ensures MemberExact(ms, ns, i, caseSensitive)
    decreases NestingMembers(ms) + NestingMembers(ns), 1
  {
    var k := Key(ms[i].name, caseSensitive);
    CanonLookup(ns, k, caseSensitive);
    if FirstWith(ns, k, caseSensitive).Some? {
      var j := FoundIsMember(ns, k, caseSensitive);
      MemberNesting(ms, i);
      MemberNesting(ns, j);
      hide Canon, CanonMembers, Compare, Consistent;
      assert IntsOnly(ms[i].value) && IntsOnly(ns[j].value);
      CompareExact(ms[i].value, ns[j].value, caseSensitive);
    }
  }

  /** Two objects of which each agrees with the map of the other have the same map. */
  lemma MutualAgreement(ms: seq<Member>, ns: seq<Member>, caseSensitive: bool)
    requires AgreesWith(ms, CanonMembers(ns, caseSensitive), caseSensitive)
    requires AgreesWith(ns, CanonMembers(ms, caseSensitive), caseSensitive)
    ensures CanonMembers(ms, caseSensitive) == CanonMembers(ns, caseSensitive)
  {
    KeysAgree(ms, ns, caseSensitive);
    KeysAgree(ns, ms, caseSensitive);
  }

  lemma KeysAgree(ms: seq<Member>, ns: seq<Member>, caseSensitive: bool)
    requires AgreesWith(ms, CanonMembers(ns, caseSensitive), caseSensitive)
    ensures forall k | k in CanonMembers(ms, caseSensitive) ::
              && k in CanonMembers(ns, caseSensitive)
              && CanonMembers(ms, caseSensitive)[k] == CanonMembers(ns, caseSensitive)[k]
  {
    hide Canon, CanonMembers;
    forall k | k in CanonMembers(ms, caseSensitive)
      ensures k in CanonMembers(ns, caseSensitive)
        && CanonMembers(ms, caseSensitive)[k] == CanonMembers(ns, caseSensitive)[k]
    {
      CanonLookup(ms, k, caseSensitive);
      var i := FoundIsMember(ms, k, caseSensitive);
    }
  }

  /** A tree of ints is equal to itself, hence to its duplicate, exactly if no key has two values. */
  lemma CompareSelf(t: Json, caseSensitive: bool)
    requires IntsOnly(t)
    ensures Compare(t, t, caseSensitive) <==> Consistent(t, caseSensitive)
  {
    CompareExact(t, t, caseSensitive);
  }

  /** `{"a":1,"a":2}` is not equal to its duplicate. */
  lemma RepeatedKeyDiffers(caseSensitive: bool)
    ensures var name: cstring := ['a' as int];
            var t := Object([Member(name, Number(1.0)), Member(name, Number(2.0))]);
            !Compare(t, t, caseSensitive)
  {
    var name: cstring := ['a' as int];
    var ms := [Member(name, Number(1.0)), Member(name, Number(2.0))];
    assert FirstWith(ms, Key(name, caseSensitive), caseSensitive) == Some(Number(1.0));
    assert !Close(2.0, 1.0);
    assert ms[1] == Member(name, Number(2.0)) && !Compare(ms[1].value, Number(1.0), caseSensitive);
    assert !Covered(ms, ms, caseSensitive);
  }

  // ----- unique keys ----------------------------------------------------------------------

  predicate DistinctKeys(ms: seq<Member>, caseSensitive: bool) {
    forall i, j | 0 <= i < j < |ms| :: Key(ms[i].name, caseSensitive) != Key(ms[j].name, caseSensitive)
  }

  predicate UniqueKeys(t: Json, caseSensitive: bool) {
    match t
    case Array(xs) => forall i | 0 <= i < |xs| :: UniqueKeys(xs[i], caseSensitive)
    case Object(ms) =>
      DistinctKeys(ms, caseSensitive) && forall i | 0 <= i < |ms| :: UniqueKeys(ms[i].value, caseSensitive)
    case _ => true
  }

  /** Equality of normal forms up to the tolerance of `compare_double`. */
  predicate Alike(x: Canonical, y: Canonical) {
    match x
    case CNumber(v) => y.CNumber? && Close(v, y.value)
    case CArray(xs) => y.CArray? && |xs| == |y.items| && forall i | 0 <= i < |xs| :: Alike(xs[i], y.items[i])
    case CObject(m) => y.CObject? && m.Keys == y.members.Keys && forall k | k in m :: Alike(m[k], y.members[k])
    case _ => x == y
  }

  lemma {:induction false} AlikeSymmetric(x: Canonical, y: Canonical)
    requires Alike(x, y)
    ensures Alike(y, x)
    decreases x
  {
    match x
    case CArray(xs) =>
      forall i | 0 <= i < |xs| ensures Alike(y.items[i], xs[i]) {
        AlikeSymmetric(xs[i], y.items[i]);
      }
    case CObject(m) =>
      forall k | k in m ensures Alike(y.members[k], m[k]) {
        AlikeSymmetric(m[k], y.members[k]);
      }
    case _ =>
  }

  lemma {:induction false} UniqueFirst(ms: seq<Member>, i: nat, caseSensitive: bool)
    requires i < |ms| && DistinctKeys(ms, caseSensitive)
    ensures FirstWith(ms, Key(ms[i].name, caseSensitive), caseSensitive) == Some(ms[i].value)
  {
    if i > 0 {
      assert ms[1..][i - 1] == ms[i];
      assert Key(ms[0].name, caseSensitive) != Key(ms[i].name, caseSensitive);
      UniqueFirst(ms[1..], i - 1, caseSensitive);
    }
  }

  /** On trees with unique keys `cJSON_Compare` is equality of normal forms, for all numbers. */
  lemma {:induction false} CompareUnique(a: Json, b: Json, caseSensitive: bool)
    requires UniqueKeys(a, caseSensitive) && UniqueKeys(b, caseSensitive)
    ensures Compare(a, b, caseSensitive) <==> Alike(Canon(a, caseSensitive), Canon(b, caseSensitive))
    decreases Nesting(a) + Nesting(b), 0
  {
    hide Canon, Alike, Compare, Covered, CanonMembers, CanonItems, CompareItems;
    Unfolded(a, b, caseSensitive);
    if a.Array? && b.Array? {
      ItemsUnique(a.items, b.items, caseSensitive);
    } else if a.Object? && b.Object? {
      CoveredUnique(a.members, b.members, caseSensitive);
      CoveredUnique(b.members, a.members, caseSensitive);
      ObjectsAlike(CanonMembers(a.members, caseSensitive), CanonMembers(b.members, caseSensitive));
    }
  }

  /** One step of both definitions. */
  lemma Unfolded(a: Json, b: Json, caseSensitive: bool)
    ensures a.Array? && b.Array? ==>
      && (Compare(a, b, caseSensitive) <==> CompareItems(a.items, b.items, caseSensitive))
      && Canon(a, caseSensitive) == CArray(CanonItems(a.items, caseSensitive))
      && Canon(b, caseSensitive) == CArray(CanonItems(b.items, caseSensitive))
    ensures a.Object? && b.Object? ==>
      && (Compare(a, b, caseSensitive)
          <==> Covered(a.members, b.members, caseSensitive) && Covered(b.members, a.members, caseSensitive))
      && Canon(a, caseSensitive) == CObject(CanonMembers(a.members, caseSensitive))
      && Canon(b, caseSensitive) == CObject(CanonMembers(b.members, caseSensitive))
    ensures !(a.Array? && b.Array?) && !(a.Object? && b.Object?) ==>
      (Compare(a, b, caseSensitive) <==> Alike(Canon(a, caseSensitive), Canon(b, caseSensitive)))
  {
    hide CanonItems, CanonMembers, Covered, CompareItems;
  }

  lemma ItemsUnique(xs: seq<Json>, ys: seq<Json>, caseSensitive: bool)
    requires UniqueKeys(Array(xs), caseSensitive) && UniqueKeys(Array(ys), caseSensitive)
    ensures CompareItems(xs, ys, caseSensitive)
       <==> Alike(CArray(CanonItems(xs, caseSensitive)), CArray(CanonItems(ys, caseSensitive)))
    decreases NestingItems(xs) + NestingItems(ys), 2
  {
    hide Canon, CanonItems, Compare;
    if |xs| == |ys| {
      forall i | 0 <= i < |xs|
        ensures Compare(xs[i], ys[i], caseSensitive)
           <==> Alike(CanonItems(xs, caseSensitive)[i], CanonItems(ys, caseSensitive)[i])
      {
        ItemNesting(xs, i);
        ItemNesting(ys, i);
        CompareUnique(xs[i], ys[i], caseSensitive);
      }
    }
  }

  /** The keys of `m` are keys of `n`, with like values. */
  predicate Included(m: map<bytes, Canonical>, n: map<bytes, Canonical>) {
    forall k | k in m :: k in n && Alike(m[k], n[k])
  }

  lemma ObjectsAlike(m: map<bytes, Canonical>, n: map<bytes, Canonical>)
    ensures Alike(CObject(m), CObject(n)) <==> Included(m, n) && Included(n, m)
  {
    if Alike(CObject(m), CObject(n)) {
      AlikeSymmetric(CObject(m), CObject(n));
    }
  }

  lemma CoveredUnique(ms: seq<Member>, ns: seq<Member>, caseSensitive: bool)
    requires UniqueKeys(Object(ms), caseSensitive) && UniqueKeys(Object(ns), caseSensitive)
    ensures Covered(ms, ns, caseSensitive) <==>
      Included(CanonMembers(ms, caseSensitive), CanonMembers(ns, caseSensitive))
    decreases NestingMembers(ms) + NestingMembers(ns), 2
  {
    hide Canon, CanonMembers, Compare, UniqueKeys, Alike;
    var m, n := CanonMembers(ms, caseSensitive), CanonMembers(ns, caseSensitive);
    if Covered(ms, ns, caseSensitive) {
      forall k | k in m ensures k in n && Alike(m[k], n[k]) {
        CanonLookup(ms, k, caseSensitive);
        var i := FoundIsMember(ms, k, caseSensitive);
        MemberUnique(ms, ns, i, caseSensitive);
      }
    }
    if Included(m, n) {
      forall i | 0 <= i < |ms|
        ensures var v := FirstWith(ns, Key(ms[i].name, caseSensitive), caseSensitive);
                v.Some? && Compare(ms[i].value, v.value, caseSensitive)
      {
        MemberUnique(ms, ns, i, caseSensitive);
      }
    }
  }

  lemma MemberUnique(ms: seq<Member>, ns: seq<Member>, i: nat, caseSensitive: bool)
    requires UniqueKeys(Object(ms), caseSensitive) && UniqueKeys(Object(ns), caseSensitive) && i < |ms|
    ensures var k := Key(ms[i].name, caseSensitive);
            var v := FirstWith(ns, k, caseSensitive);
            var m, n := CanonMembers(ms, caseSensitive), CanonMembers(ns, caseSensitive);
            k in m && (k in n <==> v.Some?)
            && (v.Some? ==> (Compare(ms[i].value, v.value, caseSensitive) <==> Alike(m[k], n[k])))
    decreases NestingMembers(ms) + NestingMembers(ns), 1
  {
    var k := Key(ms[i].name, caseSensitive);
    CanonLookup(ms, k, caseSensitive);
    CanonLookup(ns, k, caseSensitive);
    UniqueFirst(ms, i, caseSensitive);
    if FirstWith(ns, k, caseSensitive).Some? {
      var j := FoundIsMember(ns, k, caseSensitive);
      MemberNesting(ms, i);
      MemberNesting(ns, j);
      hide Canon, CanonMembers, Compare, Alike;
      assert UniqueKeys(ms[i].value, caseSensitive) && UniqueKeys(ns[j].value, caseSensitive);
      CompareUnique(ms[i].value, ns[j].value, caseSensitive);
    }
  }

  lemma {:induction false} AlikeReflexive(x: Canonical)
    ensures Alike(x, x)
    decreases x
  {
    match x
    case CArray(xs) =>
      forall i | 0 <= i < |xs| ensures Alike(xs[i], xs[i]) {
        AlikeReflexive(xs[i]);
      }
    case CObject(m) =>
      forall k | k in m ensures Alike(m[k], m[k]) {
        AlikeReflexive(m[k]);
      }
    case _ =>
  }

  /** A tree with unique keys is equal to itself, hence to its duplicate. */
  lemma UniqueKeysReflexive(t: Json, caseSensitive: bool)
    requires UniqueKeys(t, caseSensitive)
    ensures Compare(t, t, caseSensitive)
  {
    CompareUnique(t, t, caseSensitive);
    AlikeReflexive(Canon(t, caseSensitive));
  }
}

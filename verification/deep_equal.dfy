/** `isDeepEqual` on trees that have already been encoded: both sides are
    normalised and the results compared structurally. */
module DeepEqual {
  import opened JsStrings
  import opened JsonTree
  import opened JsonText
  import opened Sorting
  import opened Normalizer

  /** Deep equality never tells a tree from itself, never identifies an
      array or an object with a value of another kind, and only identifies
      arrays of the same length and objects with the same keys. */
  function IsDeepEqual(a: Json, b: Json): (r: bool)
    ensures a == b ==> r
    ensures r ==> a.Arr? == b.Arr? && a.Obj? == b.Obj?
    ensures r && a.Arr? ==> |a.elems| == |b.elems|
    ensures r && a.Obj? ==> multiset(Keys(a.members)) == multiset(Keys(b.members))
  {
    Normalize(a) == Normalize(b)
  }

  /** `x` and `y` differ only in the order of array elements and of object
      members, at any depth. */
  ghost predicate Reorders(x: Json, y: Json)
    decreases x
  {
    match x
    case Arr(a) => y.Arr? && exists p :: ElementsMatch(a, y.elems, p)
    case Obj(m) => y.Obj? && exists p :: MembersMatch(m, y.members, p)
    case _ => x == y
  }

  /** Element `i` of `a` is a reordering of element `p[i]` of `b`. */
  ghost predicate ElementsMatch(a: seq<Json>, b: seq<Json>, p: seq<nat>)
    decreases a
  {
    && |a| == |b|
    && IsPermutation(p, |a|)
    && forall i :: 0 <= i < |a| ==> Reorders(a[i], b[p[i]])
  }

  /** Member `i` of `m` has the key of member `p[i]` of `n`, and a value
      that is a reordering of its value. */
  ghost predicate MembersMatch(m: seq<Member>, n: seq<Member>, p: seq<nat>)
    decreases m
  {
    && |m| == |n|
    && IsPermutation(p, |m|)
    && forall i :: 0 <= i < |m| ==> m[i].key == n[p[i]].key && Reorders(m[i].value, n[p[i]].value)
  }

  /** Reordering arrays and object members, at any depth, does not change
      the normal form. */
  lemma {:induction false} ReordersSound(x: Json, y: Json)
    requires WellFormed(x) && WellFormed(y) && Reorders(x, y)
    ensures Normalize(x) == Normalize(y)
    decreases x
  {
    match x
    case Arr(a) =>
      var b := y.elems;
      var p :| ElementsMatch(a, b, p);
      forall i | 0 <= i < |a| ensures Normalize(a[i]) == Normalize(b[p[i]]) {
        ReordersSound(a[i], b[p[i]]);
      }
      EachPermutes(a, b, p);
      ArraySortDeterminate(b, NormalizeArray(a));
    case Obj(m) =>
      var n := y.members;
      var p :| MembersMatch(m, n, p);
      assert Permutes(Keys(m), Keys(n), p);
      PermutedMultiset(Keys(m), Keys(n), p);
      SortedUnique(SortedKeys(m), SortedKeys(n), Id);
      forall k | k in SortedKeys(m) ensures Normalize(Get(m, k).value) == Normalize(Get(n, k).value) {
        var i :| 0 <= i < |m| && m[i].key == k;
        GetUnique(m, k, m[i].value);
        GetUnique(n, k, n[p[i]].value);
        ReordersSound(m[i].value, n[p[i]].value);
      }
      ObjectFromLookups(m, n);
    case _ =>
  }

  /** Two trees with the same normal form differ only in the order of array
      elements and object members. */
  lemma {:induction false} ReordersComplete(x: Json, y: Json)
    requires WellFormed(x) && WellFormed(y) && Normalize(x) == Normalize(y)
    ensures Reorders(x, y)
    decreases x
  {
    match x
    case Arr(a) =>
      var b := y.elems;
      var p := MultisetPermutation(NormalizeEach(a), NormalizeEach(b));
      forall i | 0 <= i < |a| ensures Reorders(a[i], b[p[i]]) {
        ReordersComplete(a[i], b[p[i]]);
      }
      assert ElementsMatch(a, b, p);
    case Obj(m) =>
      var n := y.members;
      var p := MultisetPermutation(Keys(m), Keys(n));
      forall i | 0 <= i < |m| ensures m[i].key == n[p[i]].key && Reorders(m[i].value, n[p[i]].value) {
        var k := m[i].key;
        assert Keys(m)[i] == Keys(n)[p[i]];
        GetUnique(m, k, m[i].value);
        GetUnique(n, k, n[p[i]].value);
        ObjectLookup(m, k);
        ObjectLookup(n, k);
        ReordersComplete(m[i].value, n[p[i]].value);
      }
      assert MembersMatch(m, n, p);
    case _ =>
  }

  /** On JavaScript values (objects with unique keys), `isDeepEqual` holds
      exactly when the two trees differ only in the order of array elements
      and of object keys. */
  lemma DeepEqualIffReorders(x: Json, y: Json)
    requires WellFormed(x) && WellFormed(y)
    ensures IsDeepEqual(x, y) <==> Reorders(x, y)
  {
    if IsDeepEqual(x, y) {
      ReordersComplete(x, y);
    }
    if Reorders(x, y) {
      ReordersSound(x, y);
    }
  }

  lemma DeepEqualIsEquivalence(x: Json, y: Json, z: Json)
    ensures IsDeepEqual(x, x)
    ensures IsDeepEqual(x, y) ==> IsDeepEqual(y, x)
    ensures IsDeepEqual(x, y) && IsDeepEqual(y, z) ==> IsDeepEqual(x, z)
  {
  }

  /** A leaf is deep-equal only to itself: no coercion between `1` and
      `"1"`, or between `null` and `false`. */
  lemma DeepEqualLeaves(x: Json, y: Json)
    requires IsPrimitive(x)
    ensures IsDeepEqual(x, y) <==> x == y
  {
  }

  /** Arrays with the same elements in any order are deep-equal. */
  lemma DeepEqualPermutedArrays(a: seq<Json>, b: seq<Json>)
    requires multiset(a) == multiset(b)
    ensures IsDeepEqual(Arr(a), Arr(b))
  {
    ArrayOrderInsensitive(a, b);
  }

  /** `[1, 2, 3]` and `[3, 1, 2]` are deep-equal. */
  lemma RotatedArrayExample()
    ensures IsDeepEqual(Arr([Num(1), Num(2), Num(3)]), Arr([Num(3), Num(1), Num(2)]))
  {
    DeepEqualPermutedArrays([Num(1), Num(2), Num(3)], [Num(3), Num(1), Num(2)]);
  }

  /** `{"a": 1, "b": 2}` and `{"b": 2, "a": 1}` are deep-equal. */
  lemma SwappedKeysExample()
    ensures IsDeepEqual(
      Obj([Member(Lit("a"), Num(1)), Member(Lit("b"), Num(2))]),
      Obj([Member(Lit("b"), Num(2)), Member(Lit("a"), Num(1))]))
  {
    assert Lit("a")[0] != Lit("b")[0];
    SwappedMembers(Member(Lit("a"), Num(1)), Member(Lit("b"), Num(2)));
  }

  /** Any object with two different keys is deep-equal to its members
      swapped. */
  lemma SwappedMembers(p: Member, q: Member)
    requires p.key != q.key
    ensures IsDeepEqual(Obj([p, q]), Obj([q, p]))
  {
    var m, n := [p, q], [q, p];
    assert multiset(m) == multiset(n);
    ObjectOrderInsensitive(m, n);
  }

  /** `5` and `"5"` are not deep-equal. */
  lemma NumberIsNotStringExample()
    ensures !IsDeepEqual(Num(5), Str(Lit("5")))
  {
    DeepEqualLeaves(Num(5), Str(Lit("5")));
  }

  /** `[{"a": [1, 2]}, {"b": 3}]` and `[{"b": 3}, {"a": [2, 1]}]` are
      deep-equal: the outer and the inner array are both reordered. */
  lemma NestedExample()
    ensures IsDeepEqual(
      Arr([Obj([Member(Lit("a"), Arr([Num(1), Num(2)]))]), Obj([Member(Lit("b"), Num(3))])]),
      Arr([Obj([Member(Lit("b"), Num(3))]), Obj([Member(Lit("a"), Arr([Num(2), Num(1)]))])]))
  {
    ExampleReorders(Lit("a"), Lit("b"));
  }

  /** The reordering behind NestedExample, for any two keys. */
  lemma ExampleReorders(ka: JsString, kb: JsString)
    ensures IsDeepEqual(
      Arr([Obj([Member(ka, Arr([Num(1), Num(2)]))]), Obj([Member(kb, Num(3))])]),
      Arr([Obj([Member(kb, Num(3))]), Obj([Member(ka, Arr([Num(2), Num(1)]))])]))
  {
    var a12, a21 := Arr([Num(1), Num(2)]), Arr([Num(2), Num(1)]);
    var oa, ob := Obj([Member(ka, a12)]), Obj([Member(kb, Num(3))]);
    var oa' := Obj([Member(ka, a21)]);
    var x, y := Arr([oa, ob]), Arr([ob, oa']);
    SwapReorders(a12.elems);
    SingleMemberReorders(ka, a12, a21);
    SingleMemberReorders(kb, Num(3), Num(3));
    PairReorders(oa, ob, ob, oa');
    ReordersSound(x, y);
  }

  lemma SwapReorders(a: seq<Json>)
    requires |a| == 2 && IsPrimitive(a[0]) && IsPrimitive(a[1])
    ensures Reorders(Arr(a), Arr([a[1], a[0]]))
  {
    assert ElementsMatch(a, [a[1], a[0]], [1, 0]);
  }

  lemma SingleMemberReorders(k: JsString, v: Json, w: Json)
    requires Reorders(v, w)
    ensures Reorders(Obj([Member(k, v)]), Obj([Member(k, w)]))
  {
    assert MembersMatch([Member(k, v)], [Member(k, w)], [0]);
  }

  lemma PairReorders(u: Json, v: Json, v': Json, u': Json)
    requires Reorders(u, u') && Reorders(v, v')
    ensures Reorders(Arr([u, v]), Arr([v', u']))
  {
    assert ElementsMatch([u, v], [v', u'], [1, 0]);
  }

  /** `{"a": 1}` and `{"a": 2}` are not deep-equal. */
  lemma ChangedValueExample()
    ensures !IsDeepEqual(Obj([Member(Lit("a"), Num(1))]), Obj([Member(Lit("a"), Num(2))]))
  {
    ValueAtKeyMatters([Member(Lit("a"), Num(1))], [Member(Lit("a"), Num(2))], Lit("a"));
  }

  /** Objects that hold values with different normal forms under the same
      key are not deep-equal. */
  lemma ValueAtKeyMatters(m: seq<Member>, n: seq<Member>, k: JsString)
    requires Get(m, k).Some? && Get(n, k).Some?
    requires Normalize(Get(m, k).value) != Normalize(Get(n, k).value)
    ensures !IsDeepEqual(Obj(m), Obj(n))
  {
    ObjectLookup(m, k);
    ObjectLookup(n, k);
  }

  /** The array sort compares texts, not values: `["b", 9, 10]` normalises
      to `["b", 10, 9]`, because `"` (0x22) comes before `1` (0x31), which
      comes before `9` (0x39). */
  lemma TextOrderExample()
    ensures NormalizeArray([Str(Lit("b")), Num(9), Num(10)]) == [Str(Lit("b")), Num(10), Num(9)]
  {
    assert Digits(10) == Digits(1) + [ZERO];
    SortedByFirstUnit([Str(Lit("b")), Num(9), Num(10)], [Str(Lit("b")), Num(10), Num(9)]);
  }

  /** An arrangement of leaves whose texts start with strictly ascending
      code units is their normal form. */
  lemma SortedByFirstUnit(a: seq<Json>, s: seq<Json>)
    requires forall i :: 0 <= i < |a| ==> IsPrimitive(a[i])
    requires multiset(a) == multiset(s)
    requires forall i, j :: 0 <= i < j < |s| ==> Stringify(s[i])[0] < Stringify(s[j])[0]
    ensures NormalizeArray(a) == s
  {
    assert NormalizeEach(a) == a;
    ArraySortDeterminate(a, s);
  }

  /** Repeated elements count: `[1, 1, 2]` and `[1, 2, 2]` hold the same
      values but are not deep-equal. */
  lemma RepeatsMatter()
    ensures !IsDeepEqual(Arr([Num(1), Num(1), Num(2)]), Arr([Num(1), Num(2), Num(2)]))
  {
    var a, b := [Num(1), Num(1), Num(2)], [Num(1), Num(2), Num(2)];
    assert multiset(a)[Num(1)] == 2 && multiset(b)[Num(1)] == 1;
    DifferentLeaves(a, b);
  }

  /** Arrays of leaves are deep-equal only when they hold the same leaves
      the same number of times. */
  lemma DifferentLeaves(a: seq<Json>, b: seq<Json>)
    requires forall i :: 0 <= i < |a| ==> IsPrimitive(a[i])
    requires forall i :: 0 <= i < |b| ==> IsPrimitive(b[i])
    ensures IsDeepEqual(Arr(a), Arr(b)) <==> multiset(a) == multiset(b)
  {
    assert NormalizeEach(a) == a && NormalizeEach(b) == b;
    if multiset(a) == multiset(b) {
      ArrayOrderInsensitive(a, b);
    }
  }
}

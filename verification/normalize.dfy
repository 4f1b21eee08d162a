/** `deepNormalize`: arrays are normalised element by element and then
    sorted by the `JSON.stringify` text of each normalised element; plain
    objects are rebuilt with their keys in ascending order and normalised
    values; everything else is returned as it is. */
module Normalizer {
  import opened JsStrings
  import opened JsonTree
  import opened JsonText
  import opened Sorting
  import opened StringifyUnique

  /** `Object.keys(v).sort()`: the keys of an object in ascending code-unit
      order, each of them a key that a lookup finds. */
  function SortedKeys(m: seq<Member>): (ks: seq<JsString>)
    ensures multiset(ks) == multiset(Keys(m))
    ensures SortedBy(ks, Id)
    ensures forall k :: k in ks ==> Get(m, k).Some?
  {
    var ks := SortBy(Keys(m), Id);
    assert forall k :: k in ks ==> Get(m, k).Some? by {
      forall k | k in ks ensures Get(m, k).Some? {
        assert k in multiset(Keys(m));
        var i :| 0 <= i < |m| && Keys(m)[i] == k;
      }
    }
    ks
  }

  function Normalize(x: Json): (r: Json)
    ensures IsPrimitive(x) ==> r == x
    ensures r.Arr? == x.Arr? && r.Obj? == x.Obj?
    decreases x, 2
  {
    match x
    case Arr(a) => Arr(NormalizeArray(a))
    case Obj(m) => Obj(NormalizeObject(m))
    case _ => x
  }

  /** `v.map(deepNormalize)`. */
  function NormalizeEach(a: seq<Json>): (r: seq<Json>)
    ensures |r| == |a|
    ensures forall i :: 0 <= i < |a| ==> r[i] == Normalize(a[i])
    decreases a, 0
  {
    seq(|a|, i requires 0 <= i < |a| => Normalize(a[i]))
  }

  /** The normalised elements, sorted by their `JSON.stringify` text. */
  function NormalizeArray(a: seq<Json>): (r: seq<Json>)
    ensures |r| == |a|
    ensures multiset(r) == multiset(NormalizeEach(a))
    ensures SortedBy(r, Stringify)
    decreases a, 1
  {
    SortBy(NormalizeEach(a), Stringify)
  }

  /** For each key in ascending order, the member `key: deepNormalize(v[key])`. */
  function NormalizeObject(m: seq<Member>): (r: seq<Member>)
    ensures multiset(Keys(r)) == multiset(Keys(m))
    ensures SortedBy(Keys(r), Id)
    decreases m, 1
  {
    var ks := SortedKeys(m);
    var r := seq(|ks|, i requires 0 <= i < |ks| => Member(ks[i], Normalize(Get(m, ks[i]).value)));
    assert Keys(r) == ks;
    r
  }

  /** The normalised object, member by member: the i-th member has the i-th
      sorted key and the normalised value that a lookup of that key finds. */
  lemma ObjectShape(m: seq<Member>)
    ensures |NormalizeObject(m)| == |SortedKeys(m)|
    ensures forall i :: 0 <= i < |SortedKeys(m)| ==>
      NormalizeObject(m)[i] == Member(SortedKeys(m)[i], Normalize(Get(m, SortedKeys(m)[i]).value))
  {
  }

  // ----- arrays (index.ts lines 7-11) -----

  /** Two trees with the same `JSON.stringify` text are the same tree. */
  lemma StringifyKeyInjective(s: seq<Json>)
    ensures KeyInjective(s, Stringify)
  {
    forall i, j | 0 <= i < |s| && 0 <= j < |s| && Stringify(s[i]) == Stringify(s[j])
      ensures s[i] == s[j]
    {
      StringifyInjective(s[i], s[j]);
    }
  }

  /** Whatever algorithm sorts with the comparator of line 10, the result is
      the same: there is exactly one sorted arrangement of the normalised
      elements, because elements with equal text are equal. */
  lemma {:induction false} ArraySortDeterminate(a: seq<Json>, s: seq<Json>)
    requires multiset(s) == multiset(NormalizeEach(a))
    requires SortedBy(s, Stringify)
    ensures s == NormalizeArray(a)
  {
    StringifyKeyInjective(s);
    SortedUnique(s, NormalizeArray(a), Stringify);
  }

  /** Elements that pair up under a permutation and normalise alike give
      normalised sequences with the same multiset. */
  lemma EachPermutes(a: seq<Json>, b: seq<Json>, p: seq<nat>)
    requires |a| == |b| && IsPermutation(p, |a|)
    requires forall i :: 0 <= i < |a| ==> Normalize(a[i]) == Normalize(b[p[i]])
    ensures multiset(NormalizeEach(a)) == multiset(NormalizeEach(b))
  {
    assert Permutes(NormalizeEach(a), NormalizeEach(b), p);
    PermutedMultiset(NormalizeEach(a), NormalizeEach(b), p);
  }

  /** Element order does not matter: two arrays holding the same elements,
      in any order, normalise to the same array. */
  lemma {:induction false} ArrayOrderInsensitive(a: seq<Json>, b: seq<Json>)
    requires multiset(a) == multiset(b)
    ensures NormalizeArray(a) == NormalizeArray(b)
  {
    var p := MultisetPermutation(a, b);
    EachPermutes(a, b, p);
    ArraySortDeterminate(b, NormalizeArray(a));
  }

  // ----- objects (index.ts lines 15-19) -----

  /** Looking a key up in the normalised object finds the normalised value
      of that key in the original object, and a key that was not there is
      still not there. */
  lemma {:induction false} ObjectLookup(m: seq<Member>, k: JsString)
    ensures Get(m, k).None? ==> Get(NormalizeObject(m), k).None?
    ensures Get(m, k).Some? ==> Get(NormalizeObject(m), k) == Some(Normalize(Get(m, k).value))
  {
    var r, ks := NormalizeObject(m), SortedKeys(m);
    ObjectShape(m);
    if Get(m, k).None? {
      forall i | 0 <= i < |r| ensures r[i].key != k {
        assert r[i].key == ks[i] && ks[i] in ks;
      }
    } else {
      var i :| 0 <= i < |m| && m[i].key == k;
      assert Keys(m)[i] == k;
      assert k in multiset(Keys(r));
      var j :| 0 <= j < |r| && Keys(r)[j] == k;
      assert r[j].key == k;
      var w := Get(r, k).value;
      var l :| 0 <= l < |r| && r[l] == Member(k, w);
      assert ks[l] == k;
    }
  }

  /** Keys of a JavaScript object are unique, so the normalised keys are in
      strictly ascending order and still unique. */
  lemma ObjectKeysAscending(m: seq<Member>)
    requires UniqueKeys(m)
    ensures UniqueKeys(NormalizeObject(m))
    ensures forall i, j :: 0 <= i < j < |NormalizeObject(m)| ==>
      Less(NormalizeObject(m)[i].key, NormalizeObject(m)[j].key)
  {
    var r := NormalizeObject(m);
    assert Distinct(Keys(m)) by {
      forall i, j | 0 <= i < j < |m| ensures Keys(m)[i] != Keys(m)[j] {
        assert m[i].key != m[j].key;
      }
    }
    PermutationKeepsDistinct(Keys(m), Keys(r));
    SortedDistinctAscends(Keys(r));
    forall i, j | 0 <= i < j < |r| ensures Less(r[i].key, r[j].key) {
      assert Keys(r)[i] == r[i].key && Keys(r)[j] == r[j].key;
    }
    forall i, j | 0 <= i < j < |r| ensures r[i].key != r[j].key {
      LessIrreflexive(r[i].key);
    }
  }

  /** Two objects whose keys sort alike and whose lookups normalise alike
      normalise to the same object. */
  lemma ObjectFromLookups(m: seq<Member>, n: seq<Member>)
    requires SortedKeys(m) == SortedKeys(n)
    requires forall k :: k in SortedKeys(m) ==> Normalize(Get(m, k).value) == Normalize(Get(n, k).value)
    ensures NormalizeObject(m) == NormalizeObject(n)
  {
    ObjectShape(m);
    ObjectShape(n);
    var ks := SortedKeys(m);
    forall i | 0 <= i < |ks| ensures NormalizeObject(m)[i] == NormalizeObject(n)[i] {
      assert ks[i] in ks;
    }
  }

  /** Key order does not matter: two objects with the same key/value pairs,
      in any order, normalise to the same object. */
  lemma {:induction false} ObjectOrderInsensitive(m: seq<Member>, n: seq<Member>)
    requires multiset(m) == multiset(n)
    requires UniqueKeys(m) && UniqueKeys(n)
    ensures NormalizeObject(m) == NormalizeObject(n)
  {
    var p := MultisetPermutation(m, n);
    assert Permutes(Keys(m), Keys(n), p);
    PermutedMultiset(Keys(m), Keys(n), p);
    SortedUnique(SortedKeys(m), SortedKeys(n), Id);
    forall k | k in SortedKeys(m) ensures Get(m, k) == Get(n, k) {
      var v := Get(m, k).value;
      GetUnique(m, k, v);
      assert Member(k, v) in multiset(n);
      GetUnique(n, k, v);
    }
    ObjectFromLookups(m, n);
  }

  // ----- the whole tree (index.ts lines 5-23) -----

  /** The form `deepNormalize` produces: every array sorted by element text,
      every object with sorted keys, members with equal keys equal, and all
      children in this form too. */
  ghost predicate Canonical(x: Json)
    decreases x
  {
    match x
    case Arr(a) => SortedBy(a, Stringify) && forall i :: 0 <= i < |a| ==> Canonical(a[i])
    case Obj(m) =>
      && SortedBy(Keys(m), Id)
      && KeyInjective(m, MemberKey)
      && forall i :: 0 <= i < |m| ==> Canonical(m[i].value)
    case _ => true
  }

  lemma {:induction false} NormalizeIsCanonical(x: Json)
    ensures Canonical(Normalize(x))
    decreases x
  {
    match x
    case Arr(a) =>
      forall i | 0 <= i < |a| ensures Canonical(Normalize(a[i])) {
        NormalizeIsCanonical(a[i]);
      }
      ArrayCanonical(a);
    case Obj(m) =>
      forall i | 0 <= i < |m| ensures Canonical(Normalize(m[i].value)) {
        NormalizeIsCanonical(m[i].value);
      }
      ObjectCanonical(m);
    case _ =>
  }

  /** The array step of NormalizeIsCanonical. */
  lemma ArrayCanonical(a: seq<Json>)
    requires forall i :: 0 <= i < |a| ==> Canonical(Normalize(a[i]))
    ensures Canonical(Arr(NormalizeArray(a)))
  {
    var s := NormalizeEach(a);
    assert forall i :: 0 <= i < |s| ==> Canonical(s[i]);
    SortedCanonical(NormalizeArray(a), s);
  }

  /** A sorted rearrangement of canonical trees is a canonical array. */
  lemma SortedCanonical(r: seq<Json>, s: seq<Json>)
    requires multiset(r) == multiset(s) && SortedBy(r, Stringify)
    requires forall i :: 0 <= i < |s| ==> Canonical(s[i])
    ensures Canonical(Arr(r))
  {
    forall i | 0 <= i < |r| ensures Canonical(r[i]) {
      var j := MultisetIndex(r, s, i);
    }
  }

  /** The object step of NormalizeIsCanonical. */
  lemma ObjectCanonical(m: seq<Member>)
    requires forall i :: 0 <= i < |m| ==> Canonical(Normalize(m[i].value))
    ensures Canonical(Obj(NormalizeObject(m)))
  {
    ObjectValuesCanonical(m);
    ObjectKeyInjective(m);
    MembersCanonical(NormalizeObject(m));
  }

  lemma MembersCanonical(r: seq<Member>)
    requires SortedBy(Keys(r), Id) && KeyInjective(r, MemberKey)
    requires forall i :: 0 <= i < |r| ==> Canonical(r[i].value)
    ensures Canonical(Obj(r))
  {
  }

  lemma ObjectValuesCanonical(m: seq<Member>)
    requires forall i :: 0 <= i < |m| ==> Canonical(Normalize(m[i].value))
    ensures forall i :: 0 <= i < |NormalizeObject(m)| ==> Canonical(NormalizeObject(m)[i].value)
  {
    var r, ks := NormalizeObject(m), SortedKeys(m);
    ObjectShape(m);
    forall i | 0 <= i < |r| ensures Canonical(r[i].value) {
      assert ks[i] in ks;
      var v := Get(m, ks[i]).value;
      var j :| 0 <= j < |m| && m[j] == Member(ks[i], v);
      assert r[i].value == Normalize(m[j].value);
    }
  }

  /** Members of a normalised object with equal keys are equal. */
  lemma ObjectKeyInjective(m: seq<Member>)
    ensures KeyInjective(NormalizeObject(m), MemberKey)
  {
    ObjectShape(m);
  }

  lemma {:induction false} CanonicalIsFixed(x: Json)
    requires Canonical(x)
    ensures Normalize(x) == x
    decreases x
  {
    match x
    case Arr(a) =>
      forall i | 0 <= i < |a| ensures Normalize(a[i]) == a[i] {
        CanonicalIsFixed(a[i]);
      }
      assert NormalizeEach(a) == a;
      SortSortedIsIdentity(a, Stringify);
    case Obj(m) =>
      SortSortedIsIdentity(Keys(m), Id);
      ObjectShape(m);
      forall i | 0 <= i < |m| ensures NormalizeObject(m)[i] == m[i] {
        var w := Get(m, m[i].key).value;
        var j :| 0 <= j < |m| && m[j] == Member(m[i].key, w);
        assert MemberKey(m[j]) == MemberKey(m[i]);
        CanonicalIsFixed(m[i].value);
      }
    case _ =>
  }

  /** Normalising a JavaScript value (unique keys in every object) gives a
      JavaScript value again. */
  lemma {:induction false} NormalizeWellFormed(x: Json)
    requires WellFormed(x)
    ensures WellFormed(Normalize(x))
    decreases x
  {
    match x
    case Arr(a) =>
      var r := NormalizeArray(a);
      forall i | 0 <= i < |r| ensures WellFormed(r[i]) {
        assert r[i] in multiset(NormalizeEach(a));
        var j :| 0 <= j < |a| && NormalizeEach(a)[j] == r[i];
        NormalizeWellFormed(a[j]);
      }
    case Obj(m) =>
      var r, ks := NormalizeObject(m), SortedKeys(m);
      ObjectShape(m);
      ObjectKeysAscending(m);
      forall i | 0 <= i < |r| ensures WellFormed(r[i].value) {
        assert ks[i] in ks;
        var v := Get(m, ks[i]).value;
        var j :| 0 <= j < |m| && m[j] == Member(ks[i], v);
        NormalizeWellFormed(m[j].value);
      }
    case _ =>
  }

  /** Normalising twice is normalising once. */
  lemma NormalizeIdempotent(x: Json)
    ensures Normalize(Normalize(x)) == Normalize(x)
  {
    NormalizeIsCanonical(x);
    CanonicalIsFixed(Normalize(x));
  }

  /** The trees that normalisation leaves alone are exactly the canonical ones. */
  lemma FixedPointIffCanonical(x: Json)
    ensures Normalize(x) == x <==> Canonical(x)
  {
    NormalizeIsCanonical(x);
    if Canonical(x) {
      CanonicalIsFixed(x);
    }
  }

  // ----- the loop of lines 15-19 -----

  /** `out[key] = value` on a plain object: a key already present keeps its
      place and takes the new value; a new key is added at the end. */
  function Put(out: seq<Member>, k: JsString, v: Json): (r: seq<Member>)
    ensures Get(r, k) == Some(v)
    ensures forall k' :: k' != k ==> Get(r, k') == Get(out, k')
    ensures Get(out, k).Some? ==> Keys(r) == Keys(out)
    ensures Get(out, k).None? ==> r == out + [Member(k, v)]
  {
    if out == [] then [Member(k, v)]
    else if out[0].key == k then
      ConsFacts(Member(k, v), out[1..]);
      ConsFacts(out[0], out[1..]);
      assert out == [out[0]] + out[1..];
      [Member(k, v)] + out[1..]
    else
      var rest := Put(out[1..], k, v);
      PutBehind(out[0], out[1..], k, v, rest);
      assert out == [out[0]] + out[1..];
      [out[0]] + rest
  }

  /** Storing behind a member with another key leaves that member in front. */
  lemma PutBehind(x: Member, s: seq<Member>, k: JsString, v: Json, rest: seq<Member>)
    requires x.key != k
    requires Get(rest, k) == Some(v)
    requires forall k' :: k' != k ==> Get(rest, k') == Get(s, k')
    requires Get(s, k).Some? ==> Keys(rest) == Keys(s)
    requires Get(s, k).None? ==> rest == s + [Member(k, v)]
    ensures Get([x] + rest, k) == Some(v)
    ensures forall k' :: k' != k ==> Get([x] + rest, k') == Get([x] + s, k')
    ensures Get([x] + s, k).Some? ==> Keys([x] + rest) == Keys([x] + s)
    ensures Get([x] + s, k).None? ==> [x] + rest == [x] + s + [Member(k, v)]
  {
    ConsFacts(x, rest);
    ConsFacts(x, s);
    if Get(s, k).None? {
      assert [x] + (s + [Member(k, v)]) == [x] + s + [Member(k, v)];
    }
  }

  /** Lookup and key list of a member followed by more members. */
  lemma ConsFacts(x: Member, s: seq<Member>)
    ensures Keys([x] + s) == [x.key] + Keys(s)
    ensures forall k :: Get([x] + s, k) == if x.key == k then Some(x.value) else Get(s, k)
  {
    assert ([x] + s)[1..] == s;
  }

  /** The object branch as the source writes it: sort the keys, then for
      each key store the normalised value of `v[key]` in a fresh object. */
  method BuildNormalizedObject(v: seq<Member>) returns (out: seq<Member>)
    requires UniqueKeys(v)
    ensures out == NormalizeObject(v)
  {
    var keys := SortedKeys(v);
    out := [];
    for i := 0 to |keys|
      invariant out == NormalizeObject(v)[..i]
    {
      var key := keys[i];
      PutStep(v, i, out);
      out := Put(out, key, Normalize(Get(v, key).value));
    }
    ObjectShape(v);
    assert NormalizeObject(v)[..|keys|] == NormalizeObject(v);
  }

  /** One turn of the loop: the next key is new to `out`, so storing it
      appends the next member of the normalised object. */
  lemma PutStep(v: seq<Member>, i: nat, out: seq<Member>)
    requires UniqueKeys(v) && i < |SortedKeys(v)|
    requires out == NormalizeObject(v)[..i]
    ensures Put(out, SortedKeys(v)[i], Normalize(Get(v, SortedKeys(v)[i]).value)) == NormalizeObject(v)[..i + 1]
  {
    var r, key := NormalizeObject(v), SortedKeys(v)[i];
    ObjectShape(v);
    ObjectKeysAscending(v);
    forall j | 0 <= j < |out| ensures out[j].key != key {
      assert r[j].key != r[i].key;
    }
    assert r[..i + 1] == r[..i] + [r[i]];
  }
}

/** Sorting a sequence by a string-valued key, as `Array.prototype.sort`
    does with a comparator that compares the keys of two elements, and the
    facts about permutations that the rest of the model relies on. */
module Sorting {
  import opened JsStrings

  /** Every element's key is at most the key of every later element. */
  predicate SortedBy<T>(s: seq<T>, key: T -> JsString) {
    forall i, j :: 0 <= i < j < |s| ==> LessEq(key(s[i]), key(s[j]))
  }

  /** Elements with equal keys are equal: the key identifies the element. */
  ghost predicate KeyInjective<T>(s: seq<T>, key: T -> JsString) {
    forall i, j :: 0 <= i < |s| && 0 <= j < |s| && key(s[i]) == key(s[j]) ==> s[i] == s[j]
  }

  /** Inserts `x` in front of the first element whose key the comparator
      does not place below `x`'s own, so that `x` stays ahead of elements
      with an equal key. */
  function Insert<T(==)>(x: T, s: seq<T>, key: T -> JsString): (r: seq<T>)
    requires SortedBy(s, key)
    ensures |r| == |s| + 1
    ensures multiset(r) == multiset(s) + multiset{x}
    ensures SortedBy(r, key)
  {
    if s == [] then [x]
    else if Compare(key(x), key(s[0])) <= 0 then
      assert SortedBy([x] + s, key) by {
        forall j | 0 <= j < |s| ensures LessEq(key(x), key(s[j])) {
          if j > 0 { LessEqTransitive(key(x), key(s[0]), key(s[j])); }
        }
      }
      [x] + s
    else
      var rest := Insert(x, s[1..], key);
      assert s == [s[0]] + s[1..];
      assert SortedBy([s[0]] + rest, key) by {
        LessEqTotal(key(x), key(s[0]));
        forall j | 0 <= j < |rest| ensures LessEq(key(s[0]), key(rest[j])) {
          assert rest[j] in multiset(rest);
          if rest[j] != x {
            assert rest[j] in multiset(s[1..]);
            var k :| 0 <= k < |s[1..]| && s[1..][k] == rest[j];
            assert s[k + 1] == rest[j];
          }
        }
      }
      [s[0]] + rest
  }

  /** Stable insertion sort by key. */
  function SortBy<T(==)>(s: seq<T>, key: T -> JsString): (r: seq<T>)
    ensures |r| == |s|
    ensures multiset(r) == multiset(s)
    ensures SortedBy(r, key)
  {
    if s == [] then []
    else
      assert s == [s[0]] + s[1..];
      Insert(s[0], SortBy(s[1..], key), key)
  }

  /** Sorting a sequence that is already sorted leaves it as it is. */
  lemma {:induction false} SortSortedIsIdentity<T>(s: seq<T>, key: T -> JsString)
    requires SortedBy(s, key)
    ensures SortBy(s, key) == s
  {
    if s != [] {
      SortSortedIsIdentity(s[1..], key);
      assert s == [s[0]] + s[1..];
    }
  }

  /** When the key identifies the element, there is only one sorted
      arrangement of a multiset: any two sorts of it agree. */
  lemma {:induction false} SortedUnique<T>(s: seq<T>, t: seq<T>, key: T -> JsString)
    requires SortedBy(s, key) && SortedBy(t, key)
    requires multiset(s) == multiset(t)
    requires KeyInjective(s, key)
    ensures s == t
  {
    assert |s| == |multiset(s)| == |t|;
    if s != [] {
      SortedHeadsAgree(s, t, key);
      DropHead(s, t);
      SortedUnique(s[1..], t[1..], key);
      assert s == [s[0]] + s[1..] && t == [t[0]] + t[1..];
    }
  }

  lemma SortedHeadsAgree<T>(s: seq<T>, t: seq<T>, key: T -> JsString)
    requires s != [] && t != []
    requires SortedBy(s, key) && SortedBy(t, key)
    requires multiset(s) == multiset(t)
    requires KeyInjective(s, key)
    ensures s[0] == t[0]
  {
    assert t[0] in multiset(s);
    var k :| 0 <= k < |s| && s[k] == t[0];
    assert s[0] in multiset(t);
    var k' :| 0 <= k' < |t| && t[k'] == s[0];
    assert LessEq(key(s[0]), key(s[k]));
    assert LessEq(key(t[0]), key(t[k']));
    LessEqAntisymmetric(key(s[0]), key(t[0]));
  }

  /** Removing equal first elements keeps two multisets equal. */
  lemma DropHead<T>(s: seq<T>, t: seq<T>)
    requires s != [] && t != [] && s[0] == t[0]
    requires multiset(s) == multiset(t)
    ensures multiset(s[1..]) == multiset(t[1..])
  {
    DropAt(s, 0);
    DropAt(t, 0);
    assert s[..0] + s[1..] == s[1..];
    assert t[..0] + t[1..] == t[1..];
  }

  /** Removing one element at index `k` removes it from the multiset. */
  lemma DropAt<T>(b: seq<T>, k: nat)
    requires k < |b|
    ensures multiset(b[..k] + b[k + 1..]) == multiset(b) - multiset{b[k]}
  {
    assert b == b[..k] + [b[k]] + b[k + 1..];
    assert multiset(b) == multiset(b[..k]) + multiset{b[k]} + multiset(b[k + 1..]);
  }

  /** `p` sends each index below `n` to a distinct index below `n`. */
  ghost predicate IsPermutation(p: seq<nat>, n: nat) {
    && |p| == n
    && (forall i :: 0 <= i < n ==> p[i] < n)
    && (forall i, j :: 0 <= i < j < n ==> p[i] != p[j])
  }

  /** Element `i` of `a` is element `p[i]` of `b`, for a permutation `p`. */
  ghost predicate Permutes<T>(a: seq<T>, b: seq<T>, p: seq<nat>) {
    && |a| == |b|
    && IsPermutation(p, |a|)
    && forall i :: 0 <= i < |a| ==> a[i] == b[p[i]]
  }

  /** Rearranging by a permutation keeps the multiset. */
  lemma {:induction false} PermutedMultiset<T>(a: seq<T>, b: seq<T>, p: seq<nat>)
    requires Permutes(a, b, p)
    ensures multiset(a) == multiset(b)
    decreases |a|
  {
    var n := |a|;
    if n > 0 {
      var k := p[n - 1];
      var p' := DropFromPermutes(a, b, p);
      PermutedMultiset(a[..n - 1], b[..k] + b[k + 1..], p');
      AddBack(a, b, k);
    }
  }

  /** Taking the last element of `a`, and its image in `b`, away from a
      rearrangement leaves a rearrangement. */
  lemma DropFromPermutes<T>(a: seq<T>, b: seq<T>, p: seq<nat>) returns (p': seq<nat>)
    requires Permutes(a, b, p) && |a| > 0
    ensures Permutes(a[..|a| - 1], b[..p[|a| - 1]] + b[p[|a| - 1] + 1..], p')
  {
    var n, k := |a|, p[|a| - 1];
    var b' := b[..k] + b[k + 1..];
    p' := seq(n - 1, i requires 0 <= i < n - 1 => if p[i] < k then p[i] else p[i] - 1);
    forall i | 0 <= i < n - 1 ensures p'[i] < n - 1 && a[i] == b'[p'[i]] {
      assert p[i] != p[n - 1];
    }
    forall i, j | 0 <= i < j < n - 1 ensures p'[i] != p'[j] {
      assert p[i] != p[j];
    }
  }

  /** Putting back an equal element on each side keeps two multisets equal. */
  lemma AddBack<T>(a: seq<T>, b: seq<T>, k: nat)
    requires |a| > 0 && k < |b| && a[|a| - 1] == b[k]
    requires multiset(a[..|a| - 1]) == multiset(b[..k] + b[k + 1..])
    ensures multiset(a) == multiset(b)
  {
    var n := |a|;
    assert a == a[..n - 1] + [a[n - 1]];
    assert b == b[..k] + [b[k]] + b[k + 1..];
    assert multiset(b) == multiset(b[..k]) + multiset{b[k]} + multiset(b[k + 1..]);
  }

  /** Two sequences with the same multiset are rearrangements of each other,
      and the lemma returns a permutation that shows it. */
  lemma {:induction false} MultisetPermutation<T>(a: seq<T>, b: seq<T>) returns (p: seq<nat>)
    requires multiset(a) == multiset(b)
    ensures Permutes(a, b, p)
    decreases |a|
  {
    assert |a| == |multiset(a)| == |b|;
    var n := |a|;
    if n == 0 {
      p := [];
    } else {
      var e := a[n - 1];
      assert e in multiset(b);
      var k :| 0 <= k < |b| && b[k] == e;
      DropAt(a, n - 1);
      DropAt(b, k);
      assert a[..n - 1] + a[n..] == a[..n - 1];
      var p' := MultisetPermutation(a[..n - 1], b[..k] + b[k + 1..]);
      p := ExtendPermutes(a, b, k, p');
    }
  }

  /** The converse of DropFromPermutes. */
  lemma ExtendPermutes<T>(a: seq<T>, b: seq<T>, k: nat, p': seq<nat>) returns (p: seq<nat>)
    requires |a| > 0 && k < |b| && a[|a| - 1] == b[k]
    requires Permutes(a[..|a| - 1], b[..k] + b[k + 1..], p')
    ensures Permutes(a, b, p)
  {
    var n, b' := |a|, b[..k] + b[k + 1..];
    p := seq(n - 1, i requires 0 <= i < n - 1 => if p'[i] < k then p'[i] else p'[i] + 1) + [k];
    forall i | 0 <= i < n ensures p[i] < n && a[i] == b[p[i]] {
      if i < n - 1 {
        assert a[i] == a[..n - 1][i] == b'[p'[i]];
      }
    }
    forall i, j | 0 <= i < j < n ensures p[i] != p[j] {
      if j < n - 1 {
        assert p'[i] != p'[j];
      }
    }
  }

  /** No element occurs twice. */
  predicate Distinct<T(==)>(s: seq<T>) {
    forall i, j :: 0 <= i < j < |s| ==> s[i] != s[j]
  }

  /** A rearrangement of a sequence without repeats has no repeats. */
  lemma PermutationKeepsDistinct<T>(s: seq<T>, t: seq<T>)
    requires multiset(s) == multiset(t) && Distinct(s)
    ensures Distinct(t)
  {
    var p := MultisetPermutation(t, s);
    forall i, j | 0 <= i < j < |t| ensures t[i] != t[j] {
      if p[i] < p[j] {
        assert s[p[i]] != s[p[j]];
      } else {
        assert s[p[j]] != s[p[i]];
      }
    }
  }

  /** The key that sorts strings by themselves, as the default comparator
      of `Array.prototype.sort` does for an array of strings. */
  function Id(k: JsString): JsString {
    k
  }

  /** In a sorted sequence without repeats, keys strictly ascend. */
  lemma SortedDistinctAscends(s: seq<JsString>)
    requires SortedBy(s, Id) && Distinct(s)
    ensures forall i, j :: 0 <= i < j < |s| ==> Less(s[i], s[j])
  {
  }

  /** Each element of a sequence occurs in any sequence with the same
      multiset, and the lemma returns where. */
  lemma MultisetIndex<T>(s: seq<T>, t: seq<T>, i: nat) returns (j: nat)
    requires multiset(s) == multiset(t) && i < |s|
    ensures j < |t| && t[j] == s[i]
  {
    assert s[i] in multiset(t);
    j :| 0 <= j < |t| && t[j] == s[i];
  }
}

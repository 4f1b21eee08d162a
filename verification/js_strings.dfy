/** JavaScript strings as sequences of UTF-16 code units, and the order in
    which JavaScript compares them: the relational operator `<` on two
    strings, and the default comparator of `Array.prototype.sort`, both
    compare code unit by code unit, and a proper prefix is smaller. */
module JsStrings {

  /** One UTF-16 code unit. */
  type CodeUnit = u: int | 0 <= u < 0x1_0000

  /** A JavaScript string value. */
  type JsString = seq<CodeUnit>

  /** The code units of a Dafny string literal made only of BMP characters. */
  function Lit(s: string): JsString
    requires forall i :: 0 <= i < |s| ==> s[i] as int < 0x1_0000
  {
    seq(|s|, i requires 0 <= i < |s| => s[i] as int)
  }

  /** `a < b` on JavaScript strings: code-unit lexicographic order. */
  predicate Less(a: JsString, b: JsString)
    ensures |a| < |b| && a == b[..|a|] ==> Less(a, b)
    decreases |a|
  {
    if a == [] then b != []
    else if b == [] then false
    else if a[0] == b[0] then Less(a[1..], b[1..])
    else a[0] < b[0]
  }

  predicate LessEq(a: JsString, b: JsString) {
    a == b || Less(a, b)
  }

  /** The comparator of index.ts line 10: `sa < sb ? -1 : sa > sb ? 1 : 0`. */
  function Compare(a: JsString, b: JsString): (c: int)
    ensures c == -1 || c == 0 || c == 1
    ensures c == 0 <==> a == b
    ensures c < 0 <==> Less(a, b)
    ensures c > 0 <==> Less(b, a)
  {
    LessIrreflexive(a);
    LessTotal(a, b);
    LessAsymmetric(a, b);
    if Less(a, b) then -1 else if Less(b, a) then 1 else 0
  }

  lemma CompareAntisymmetric(a: JsString, b: JsString)
    ensures Compare(a, b) == -Compare(b, a)
  {
  }

  /** `Less` is the order of section 7.2.13 (IsLessThan) of ECMA-262: `a` is
      below `b` when it is a proper prefix of `b`, or when at the first index
      where they differ the code unit of `a` is the smaller one. */
  lemma {:induction false} LessFirstDifference(a: JsString, b: JsString)
    ensures Less(a, b) <==>
      (|a| < |b| && a == b[..|a|]) ||
      (exists i :: 0 <= i < |a| && i < |b| && a[..i] == b[..i] && a[i] < b[i])
    decreases |a|
  {
    if a != [] && b != [] {
      if a[0] != b[0] {
        if a[0] < b[0] {
          assert a[..0] == b[..0];
        }
      } else {
        var a', b' := a[1..], b[1..];
        LessFirstDifference(a', b');
        assert a == [a[0]] + a' && b == [b[0]] + b';
        if |a'| < |b'| && a' == b'[..|a'|] {
          assert a == b[..|a|];
        }
        if |a| < |b| && a == b[..|a|] {
          assert a' == b'[..|a'|];
        }
        if i :| 0 <= i < |a'| && i < |b'| && a'[..i] == b'[..i] && a'[i] < b'[i] {
          assert a[..i + 1] == [a[0]] + a'[..i] && b[..i + 1] == [b[0]] + b'[..i];
        }
        if i :| 0 <= i < |a| && i < |b| && a[..i] == b[..i] && a[i] < b[i] {
          assert i > 0;
          assert a'[..i - 1] == a[..i][1..];
          assert b'[..i - 1] == b[..i][1..];
        }
      }
    }
  }

  lemma {:induction false} LessIrreflexive(a: JsString)
    ensures !Less(a, a)
    decreases |a|
  {
    if a != [] {
      LessIrreflexive(a[1..]);
    }
  }

  lemma {:induction false} LessAsymmetric(a: JsString, b: JsString)
    ensures Less(a, b) ==> !Less(b, a)
    decreases |a|
  {
    if a != [] && b != [] && a[0] == b[0] {
      LessAsymmetric(a[1..], b[1..]);
    }
  }

  lemma {:induction false} LessTransitive(a: JsString, b: JsString, c: JsString)
    requires Less(a, b) && Less(b, c)
    ensures Less(a, c)
    decreases |a|
  {
    if a != [] && a[0] == b[0] && b[0] == c[0] {
      LessTransitive(a[1..], b[1..], c[1..]);
    }
  }

  /** Any two strings are equal or ordered one way or the other. */
  lemma {:induction false} LessTotal(a: JsString, b: JsString)
    ensures a == b || Less(a, b) || Less(b, a)
    decreases |a|
  {
    if a != [] && b != [] && a[0] == b[0] {
      LessTotal(a[1..], b[1..]);
      if a[1..] == b[1..] {
        assert a == [a[0]] + a[1..] && b == [b[0]] + b[1..];
      }
    }
  }

  lemma LessEqTransitive(a: JsString, b: JsString, c: JsString)
    requires LessEq(a, b) && LessEq(b, c)
    ensures LessEq(a, c)
  {
    if a != b && b != c {
      LessTransitive(a, b, c);
    }
  }

  lemma LessEqAntisymmetric(a: JsString, b: JsString)
    requires LessEq(a, b) && LessEq(b, a)
    ensures a == b
  {
    LessAsymmetric(a, b);
  }

  lemma LessEqTotal(a: JsString, b: JsString)
    ensures LessEq(a, b) || LessEq(b, a)
  {
    LessTotal(a, b);
  }
}

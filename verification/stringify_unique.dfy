/** The text `JSON.stringify` produces can be read back in only one way:
    two trees with the same text are the same tree. The normaliser sorts
    array elements by this text, so this is what makes elements with equal
    sort keys interchangeable.

    The proofs read a text left to right, the way a JSON parser would: each
    lemma says that if a value's text followed by some rest equals another
    value's text followed by another rest, then the two values and the two
    rests are the same, provided the rests start where a value may end. */
module StringifyUnique {
  import opened JsStrings
  import opened JsonTree
  import opened JsonText

  /** What may follow a complete value in JSON text. */
  predicate EndsValue(r: JsString) {
    r == [] || r[0] == COMMA || r[0] == RBRACKET || r[0] == RBRACE
  }

  predicate NoLeadingDigit(r: JsString) {
    r == [] || !IsDigit(r[0])
  }

  lemma DropCommonPrefix(p: JsString, q: JsString, r1: JsString, r2: JsString)
    requires p + r1 == q + r2 && |p| == |q|
    ensures p == q && r1 == r2
  {
    assert p == (p + r1)[..|p|] && q == (q + r2)[..|q|];
    assert r1 == (p + r1)[|p|..] && r2 == (q + r2)[|q|..];
  }

  // ----- quoted strings -----

  /** An escape starts with a backslash; an unescaped code unit is neither
      a quote, a backslash nor a surrogate. */
  lemma EscapeUnitShape(u: CodeUnit)
    ensures |EscapeUnit(u)| >= 1
    ensures EscapeUnit(u)[0] == BACKSLASH || EscapeUnit(u) == [u]
    ensures EscapeUnit(u) == [u] ==>
      u != QUOTE && u != BACKSLASH && !IsLeadSurrogate(u) && !IsTrailSurrogate(u)
  {
  }

  lemma HexDigitInjective(d: int, e: int)
    requires 0 <= d < 16 && 0 <= e < 16 && HexDigit(d) == HexDigit(e)
    ensures d == e
  {
  }

  /** Four hexadecimal digits determine a code unit. */
  lemma HexDigitsDetermine(u: CodeUnit, v: CodeUnit)
    requires u / 0x1000 == v / 0x1000 && u / 0x100 % 16 == v / 0x100 % 16
    requires u / 0x10 % 16 == v / 0x10 % 16 && u % 16 == v % 16
    ensures u == v
  {
    assert u / 0x100 == 16 * (u / 0x1000) + u / 0x100 % 16;
    assert v / 0x100 == 16 * (v / 0x1000) + v / 0x100 % 16;
    assert u / 0x10 == 16 * (u / 0x100) + u / 0x10 % 16;
    assert v / 0x10 == 16 * (v / 0x100) + v / 0x10 % 16;
  }

  /** The escape of one code unit can be told apart from what follows it. */
  lemma EscapeUnitPrefix(u: CodeUnit, v: CodeUnit, r1: JsString, r2: JsString)
    requires EscapeUnit(u) + r1 == EscapeUnit(v) + r2
    ensures u == v && r1 == r2
  {
    var e, f := EscapeUnit(u), EscapeUnit(v);
    EscapeUnitShape(u);
    EscapeUnitShape(v);
    assert (e + r1)[0] == e[0] && (f + r2)[0] == f[0];
    if e == [u] && f == [v] {
      DropCommonPrefix(e, f, r1, r2);
    } else if e == [u] || f == [v] {
      assert false;
    } else {
      assert (e + r1)[1] == e[1] && (f + r2)[1] == f[1];
      if HasShortEscape(u) && HasShortEscape(v) {
        DropCommonPrefix(e, f, r1, r2);
      } else if HasShortEscape(u) || HasShortEscape(v) {
        assert false;
      } else {
        DropCommonPrefix(e, f, r1, r2);
        HexDigitInjective(u / 0x1000, v / 0x1000);
        HexDigitInjective(u / 0x100 % 16, v / 0x100 % 16);
        HexDigitInjective(u / 0x10 % 16, v / 0x10 % 16);
        HexDigitInjective(u % 16, v % 16);
        HexDigitsDetermine(u, v);
      }
    }
  }

  /** The first code unit of an escaped body says whether it starts with a
      surrogate pair, and it is never a quote. */
  lemma EscapeStart(s: JsString)
    requires s != []
    ensures |Escape(s)| >= 1 && Escape(s)[0] != QUOTE
    ensures IsLeadSurrogate(Escape(s)[0]) <==> |s| >= 2 && IsLeadSurrogate(s[0]) && IsTrailSurrogate(s[1])
  {
    if !(|s| >= 2 && IsLeadSurrogate(s[0]) && IsTrailSurrogate(s[1])) {
      EscapeUnitShape(s[0]);
      assert Escape(s)[0] == EscapeUnit(s[0])[0];
    }
  }

  /** An escaped body followed by the closing quote is read back uniquely. */
  lemma {:induction false} EscapePrefix(s: JsString, t: JsString, r1: JsString, r2: JsString)
    requires Escape(s) + r1 == Escape(t) + r2
    requires r1 != [] && r1[0] == QUOTE && r2 != [] && r2[0] == QUOTE
    ensures s == t && r1 == r2
    decreases |s|
  {
    if s == [] && t == [] {
      assert Escape(s) + r1 == r1 && Escape(t) + r2 == r2;
    } else if s == [] {
      EscapeStart(t);
      HeadOf(Escape(t), r2);
      assert false;
    } else if t == [] {
      EscapeStart(s);
      HeadOf(Escape(s), r1);
      assert false;
    } else {
      EscapeStart(s);
      EscapeStart(t);
      HeadOf(Escape(s), r1);
      HeadOf(Escape(t), r2);
      var pairS := |s| >= 2 && IsLeadSurrogate(s[0]) && IsTrailSurrogate(s[1]);
      var pairT := |t| >= 2 && IsLeadSurrogate(t[0]) && IsTrailSurrogate(t[1]);
      if pairS && pairT {
        EscapePairStep(s, r1);
        EscapePairStep(t, r2);
        DropCommonPrefix([s[0], s[1]], [t[0], t[1]], Escape(s[2..]) + r1, Escape(t[2..]) + r2);
        EscapePrefix(s[2..], t[2..], r1, r2);
        assert s == [s[0], s[1]] + s[2..] && t == [t[0], t[1]] + t[2..];
      } else if pairS || pairT {
        assert false;
      } else {
        EscapeUnitStep(s, r1);
        EscapeUnitStep(t, r2);
        EscapeUnitPrefix(s[0], t[0], Escape(s[1..]) + r1, Escape(t[1..]) + r2);
        EscapePrefix(s[1..], t[1..], r1, r2);
        assert s == [s[0]] + s[1..] && t == [t[0]] + t[1..];
      }
    }
  }

  lemma Assoc(a: JsString, b: JsString, c: JsString)
    ensures (a + b) + c == a + (b + c)
  {
  }

  lemma HeadOf(p: JsString, r: JsString)
    requires p != []
    ensures (p + r)[0] == p[0]
  {
  }

  lemma EscapePairStep(s: JsString, r: JsString)
    requires |s| >= 2 && IsLeadSurrogate(s[0]) && IsTrailSurrogate(s[1])
    ensures Escape(s) + r == [s[0], s[1]] + (Escape(s[2..]) + r)
  {
    Assoc([s[0], s[1]], Escape(s[2..]), r);
  }

  lemma EscapeUnitStep(s: JsString, r: JsString)
    requires s != [] && !(|s| >= 2 && IsLeadSurrogate(s[0]) && IsTrailSurrogate(s[1]))
    ensures Escape(s) + r == EscapeUnit(s[0]) + (Escape(s[1..]) + r)
  {
    Assoc(EscapeUnit(s[0]), Escape(s[1..]), r);
  }

  /** Regrouping an opening delimiter, a body, a closing delimiter and a rest. */
  lemma Enclosed(o: JsString, b: JsString, c: JsString, r: JsString)
    ensures o + b + c + r == o + (b + (c + r))
  {
    Assoc(o + b, c, r);
    Assoc(o, b, c + r);
  }

  lemma QuotePrefix(s: JsString, t: JsString, r1: JsString, r2: JsString)
    requires Quote(s) + r1 == Quote(t) + r2
    ensures s == t && r1 == r2
  {
    Enclosed([QUOTE], Escape(s), [QUOTE], r1);
    Enclosed([QUOTE], Escape(t), [QUOTE], r2);
    DropCommonPrefix([QUOTE], [QUOTE], Escape(s) + ([QUOTE] + r1), Escape(t) + ([QUOTE] + r2));
    EscapePrefix(s, t, [QUOTE] + r1, [QUOTE] + r2);
    DropCommonPrefix([QUOTE], [QUOTE], r1, r2);
  }

  // ----- numbers -----

  lemma {:induction false} DigitsShape(n: nat)
    ensures |Digits(n)| >= 1 && (n >= 10 ==> |Digits(n)| >= 2)
    ensures forall i :: 0 <= i < |Digits(n)| ==> IsDigit(Digits(n)[i])
    decreases n
  {
    if n >= 10 {
      DigitsShape(n / 10);
    }
  }

  lemma {:induction false} DigitsInjective(p: nat, q: nat)
    requires Digits(p) == Digits(q)
    ensures p == q
    decreases p
  {
    DigitsShape(p);
    DigitsShape(q);
    if p >= 10 && q >= 10 {
      var d := Digits(p);
      assert d[|d| - 1] == ZERO + p % 10 && d[|d| - 1] == ZERO + q % 10;
      assert Digits(p / 10) == d[..|d| - 1] == Digits(q / 10);
      DigitsInjective(p / 10, q / 10);
    }
  }

  /** A run of digits ends where the digits end. */
  lemma DigitsPrefix(p: nat, q: nat, r1: JsString, r2: JsString)
    requires Digits(p) + r1 == Digits(q) + r2
    requires NoLeadingDigit(r1) && NoLeadingDigit(r2)
    ensures p == q && r1 == r2
  {
    var d, e := Digits(p), Digits(q);
    DigitsShape(p);
    DigitsShape(q);
    DigitRunLength(d, e, r1, r2);
    DigitRunLength(e, d, r2, r1);
    DropCommonPrefix(d, e, r1, r2);
    DigitsInjective(p, q);
  }

  /** A run of digits followed by a non-digit is at least as long as any
      run of digits it begins with. */
  lemma DigitRunLength(d: JsString, e: JsString, r1: JsString, r2: JsString)
    requires forall i :: 0 <= i < |e| ==> IsDigit(e[i])
    requires d + r1 == e + r2 && NoLeadingDigit(r1)
    ensures |e| <= |d|
  {
    AppendAt(d, r1);
    AppendInside(e, r2, |d|);
  }

  lemma AppendAt(d: JsString, r: JsString)
    ensures r != [] ==> (d + r)[|d|] == r[0]
  {
  }

  lemma AppendInside(e: JsString, r: JsString, i: int)
    ensures 0 <= i < |e| ==> (e + r)[i] == e[i]
  {
  }

  lemma NegativeStep(n: int, r: JsString)
    requires n < 0
    ensures NumberText(n) + r == [MINUS] + (Digits(-n) + r)
  {
    Assoc([MINUS], Digits(-n), r);
  }

  lemma NumberPrefix(n: int, m: int, r1: JsString, r2: JsString)
    requires NumberText(n) + r1 == NumberText(m) + r2
    requires NoLeadingDigit(r1) && NoLeadingDigit(r2)
    ensures n == m && r1 == r2
  {
    HeadOf(NumberText(n), r1);
    HeadOf(NumberText(m), r2);
    if n < 0 && m < 0 {
      NegativeStep(n, r1);
      NegativeStep(m, r2);
      DropCommonPrefix([MINUS], [MINUS], Digits(-n) + r1, Digits(-m) + r2);
      DigitsPrefix(-n, -m, r1, r2);
    } else if n < 0 || m < 0 {
      assert false;
    } else {
      DigitsPrefix(n, m, r1, r2);
    }
  }

  // ----- values -----

  /** A value's text, followed by anything that may follow a value, is read
      back as that value and that rest. */
  lemma {:induction false} StringifyPrefix(x: Json, y: Json, r1: JsString, r2: JsString)
    requires Stringify(x) + r1 == Stringify(y) + r2
    requires EndsValue(r1) && EndsValue(r2)
    ensures x == y && r1 == r2
    decreases x
  {
    HeadOf(Stringify(x), r1);
    HeadOf(Stringify(y), r2);
    match x
    case Null =>
      DropCommonPrefix(Stringify(x), Stringify(y), r1, r2);
    case Bool(_) =>
      DropCommonPrefix(Stringify(x), Stringify(y), r1, r2);
    case Num(n) =>
      NumberPrefix(n, y.n, r1, r2);
    case Str(s) =>
      QuotePrefix(s, y.s, r1, r2);
    case Arr(a) =>
      var b := y.elems;
      ArrayStep(a, r1);
      ArrayStep(b, r2);
      DropCommonPrefix([LBRACKET], [LBRACKET], Elements(a) + ([RBRACKET] + r1), Elements(b) + ([RBRACKET] + r2));
      ElementsPrefix(a, b, [RBRACKET] + r1, [RBRACKET] + r2);
      DropCommonPrefix([RBRACKET], [RBRACKET], r1, r2);
    case Obj(m) =>
      var n := y.members;
      ObjectStep(m, r1);
      ObjectStep(n, r2);
      DropCommonPrefix([LBRACE], [LBRACE], MembersText(m) + ([RBRACE] + r1), MembersText(n) + ([RBRACE] + r2));
      MembersPrefix(m, n, [RBRACE] + r1, [RBRACE] + r2);
      DropCommonPrefix([RBRACE], [RBRACE], r1, r2);
  }

  lemma ArrayStep(a: seq<Json>, r: JsString)
    ensures Stringify(Arr(a)) + r == [LBRACKET] + (Elements(a) + ([RBRACKET] + r))
  {
    Enclosed([LBRACKET], Elements(a), [RBRACKET], r);
  }

  lemma ObjectStep(m: seq<Member>, r: JsString)
    ensures Stringify(Obj(m)) + r == [LBRACE] + (MembersText(m) + ([RBRACE] + r))
  {
    Enclosed([LBRACE], MembersText(m), [RBRACE], r);
  }

  /** What follows the first element's text inside an array's text. */
  ghost function ElementsRest(a: seq<Json>, r: JsString): JsString
    requires a != []
  {
    if |a| == 1 then r else [COMMA] + (Elements(a[1..]) + r)
  }

  lemma ElementsStep(a: seq<Json>, r: JsString)
    requires a != []
    ensures Elements(a) + r == Stringify(a[0]) + ElementsRest(a, r)
  {
    if |a| > 1 {
      Enclosed(Stringify(a[0]), [COMMA], Elements(a[1..]), r);
    }
  }

  lemma ElementsStart(a: seq<Json>, r: JsString)
    ensures a != [] ==> |Elements(a)| >= 1 && (Elements(a) + r)[0] != RBRACKET
  {
    if a != [] {
      ElementsStep(a, r);
      HeadOf(Stringify(a[0]), ElementsRest(a, r));
    }
  }

  lemma {:induction false} ElementsPrefix(a: seq<Json>, b: seq<Json>, r1: JsString, r2: JsString)
    requires Elements(a) + r1 == Elements(b) + r2
    requires r1 != [] && r1[0] == RBRACKET && r2 != [] && r2[0] == RBRACKET
    ensures a == b && r1 == r2
    decreases a
  {
    if a == [] && b == [] {
      assert Elements(a) + r1 == r1 && Elements(b) + r2 == r2;
    } else if a == [] {
      ElementsStart(b, r2);
      assert false;
    } else if b == [] {
      ElementsStart(a, r1);
      assert false;
    } else {
      ElementsStep(a, r1);
      ElementsStep(b, r2);
      StringifyPrefix(a[0], b[0], ElementsRest(a, r1), ElementsRest(b, r2));
      if |a| == 1 && |b| == 1 {
        assert a == [a[0]] && b == [b[0]];
      } else if |a| > 1 && |b| > 1 {
        DropCommonPrefix([COMMA], [COMMA], Elements(a[1..]) + r1, Elements(b[1..]) + r2);
        ElementsPrefix(a[1..], b[1..], r1, r2);
        assert a == [a[0]] + a[1..] && b == [b[0]] + b[1..];
      } else {
        assert false;
      }
    }
  }

  /** What follows the first member's key inside an object's text. */
  ghost function MembersRest(m: seq<Member>, r: JsString): JsString
    requires m != []
  {
    if |m| == 1 then r else [COMMA] + (MembersText(m[1..]) + r)
  }

  lemma MembersStep(m: seq<Member>, r: JsString)
    requires m != []
    ensures MembersText(m) + r == Quote(m[0].key) + ([COLON] + (Stringify(m[0].value) + MembersRest(m, r)))
  {
    var q, v := Quote(m[0].key), Stringify(m[0].value);
    if |m| == 1 {
      Enclosed(q, [COLON], v, r);
    } else {
      var tail := MembersText(m[1..]);
      Assoc(q + [COLON] + v + [COMMA], tail, r);
      Enclosed(q + [COLON], v, [COMMA], tail + r);
      Assoc(q, [COLON], v + ([COMMA] + (tail + r)));
    }
  }

  lemma MembersStart(m: seq<Member>, r: JsString)
    ensures m != [] ==> (MembersText(m) + r)[0] == QUOTE
  {
    if m != [] {
      MembersStep(m, r);
      HeadOf(Quote(m[0].key), [COLON] + (Stringify(m[0].value) + MembersRest(m, r)));
    }
  }

  lemma {:induction false} MembersPrefix(m: seq<Member>, n: seq<Member>, r1: JsString, r2: JsString)
    requires MembersText(m) + r1 == MembersText(n) + r2
    requires r1 != [] && r1[0] == RBRACE && r2 != [] && r2[0] == RBRACE
    ensures m == n && r1 == r2
    decreases m
  {
    if m == [] && n == [] {
      assert MembersText(m) + r1 == r1 && MembersText(n) + r2 == r2;
    } else if m == [] {
      MembersStart(n, r2);
      assert false;
    } else if n == [] {
      MembersStart(m, r1);
      assert false;
    } else {
      var rm, rn := MembersRest(m, r1), MembersRest(n, r2);
      MembersStep(m, r1);
      MembersStep(n, r2);
      QuotePrefix(m[0].key, n[0].key, [COLON] + (Stringify(m[0].value) + rm), [COLON] + (Stringify(n[0].value) + rn));
      DropCommonPrefix([COLON], [COLON], Stringify(m[0].value) + rm, Stringify(n[0].value) + rn);
      StringifyPrefix(m[0].value, n[0].value, rm, rn);
      if |m| == 1 && |n| == 1 {
        assert m == [m[0]] && n == [n[0]];
      } else if |m| > 1 && |n| > 1 {
        DropCommonPrefix([COMMA], [COMMA], MembersText(m[1..]) + r1, MembersText(n[1..]) + r2);
        MembersPrefix(m[1..], n[1..], r1, r2);
        assert m == [m[0]] + m[1..] && n == [n[0]] + n[1..];
      } else {
        assert false;
      }
    }
  }

  /** `JSON.stringify` is injective on JSON trees. */
  lemma StringifyInjective(x: Json, y: Json)
    requires Stringify(x) == Stringify(y)
    ensures x == y
  {
    assert Stringify(x) + [] == Stringify(y) + [];
    StringifyPrefix(x, y, [], []);
  }
}

/** `JSON.stringify` on the JSON tree, without indentation: the text whose
    order decides where an element goes when an array is normalised.
    Strings are quoted as ECMAScript's QuoteJSONString does; integers are
    written in decimal; object members are written in their stored order. */
module JsonText {
  import opened JsStrings
  import opened JsonTree

  const QUOTE: CodeUnit := 0x22       // "
  const BACKSLASH: CodeUnit := 0x5C   // \
  const COMMA: CodeUnit := 0x2C       // ,
  const COLON: CodeUnit := 0x3A       // :
  const LBRACKET: CodeUnit := 0x5B    // [
  const RBRACKET: CodeUnit := 0x5D    // ]
  const LBRACE: CodeUnit := 0x7B      // {
  const RBRACE: CodeUnit := 0x7D      // }
  const MINUS: CodeUnit := 0x2D       // -
  const ZERO: CodeUnit := 0x30        // 0

  const NULL_TEXT: JsString := Lit("null")
  const TRUE_TEXT: JsString := Lit("true")
  const FALSE_TEXT: JsString := Lit("false")

  predicate IsDigit(u: CodeUnit) {
    ZERO <= u <= ZERO + 9
  }

  predicate IsLeadSurrogate(u: CodeUnit) {
    0xD800 <= u <= 0xDBFF
  }

  predicate IsTrailSurrogate(u: CodeUnit) {
    0xDC00 <= u <= 0xDFFF
  }

  /** The code units that have a two-character escape in JSON text:
      backspace, tab, line feed, form feed, carriage return, `"` and `\`. */
  predicate HasShortEscape(u: CodeUnit) {
    u == 0x08 || u == 0x09 || u == 0x0A || u == 0x0C || u == 0x0D || u == QUOTE || u == BACKSLASH
  }

  /** The letter after the backslash in a two-character escape. */
  function ShortEscapeLetter(u: CodeUnit): CodeUnit
    requires HasShortEscape(u)
  {
    if u == 0x08 then 0x62        // b
    else if u == 0x09 then 0x74   // t
    else if u == 0x0A then 0x6E   // n
    else if u == 0x0C then 0x66   // f
    else if u == 0x0D then 0x72   // r
    else u                        // " and \ stand for themselves
  }

  /** Other control characters, and surrogates that are not part of a pair,
      are written as `\u` and four lower-case hexadecimal digits. */
  predicate NeedsUnicodeEscape(u: CodeUnit) {
    !HasShortEscape(u) && (u < 0x20 || IsLeadSurrogate(u) || IsTrailSurrogate(u))
  }

  function HexDigit(d: int): CodeUnit
    requires 0 <= d < 16
  {
    if d < 10 then ZERO + d else 0x61 + (d - 10)
  }

  /** One code unit that is not the first half of a surrogate pair. */
  function EscapeUnit(u: CodeUnit): JsString {
    if HasShortEscape(u) then [BACKSLASH, ShortEscapeLetter(u)]
    else if NeedsUnicodeEscape(u) then
      [BACKSLASH, 0x75, HexDigit(u / 0x1000), HexDigit(u / 0x100 % 16), HexDigit(u / 0x10 % 16), HexDigit(u % 16)]
    else [u]
  }

  /** The body of a quoted string: a well-formed surrogate pair is copied,
      every other code unit goes through EscapeUnit. */
  function Escape(s: JsString): JsString
    decreases |s|
  {
    if s == [] then []
    else if |s| >= 2 && IsLeadSurrogate(s[0]) && IsTrailSurrogate(s[1]) then [s[0], s[1]] + Escape(s[2..])
    else EscapeUnit(s[0]) + Escape(s[1..])
  }

  function Quote(s: JsString): JsString {
    [QUOTE] + Escape(s) + [QUOTE]
  }

  /** The decimal digits of `n`, without leading zeros. */
  function Digits(n: nat): (d: JsString)
    ensures |d| >= 1 && IsDigit(d[0])
    decreases n
  {
    if n < 10 then [ZERO + n] else Digits(n / 10) + [ZERO + n % 10]
  }

  /** A number's text starts with a minus sign exactly when the number is
      negative, and with a digit otherwise. */
  function NumberText(n: int): (s: JsString)
    ensures |s| >= 1 && (s[0] == MINUS <==> n < 0) && (IsDigit(s[0]) <==> n >= 0)
  {
    if n < 0 then [MINUS] + Digits(-n) else Digits(n)
  }

  /** The text is never empty, and its first code unit tells which kind of
      value it is. */
  function Stringify(x: Json): (s: JsString)
    ensures |s| >= 1
    ensures x.Null? <==> s[0] == 0x6E                        // n
    ensures x == Bool(true) <==> s[0] == 0x74                // t
    ensures x == Bool(false) <==> s[0] == 0x66               // f
    ensures x.Num? <==> s[0] == MINUS || IsDigit(s[0])
    ensures x.Str? <==> s[0] == QUOTE
    ensures x.Arr? <==> s[0] == LBRACKET
    ensures x.Obj? <==> s[0] == LBRACE
    decreases x
  {
    match x
    case Null => NULL_TEXT
    case Bool(b) => if b then TRUE_TEXT else FALSE_TEXT
    case Num(n) => NumberText(n)
    case Str(s) => Quote(s)
    case Arr(a) => [LBRACKET] + Elements(a) + [RBRACKET]
    case Obj(m) => [LBRACE] + MembersText(m) + [RBRACE]
  }

  /** The array elements, separated by commas. */
  function Elements(a: seq<Json>): JsString
    decreases a
  {
    if |a| == 0 then []
    else if |a| == 1 then Stringify(a[0])
    else Stringify(a[0]) + [COMMA] + Elements(a[1..])
  }

  /** The members as `"key":value`, separated by commas. */
  function MembersText(m: seq<Member>): JsString
    decreases m
  {
    if |m| == 0 then []
    else
      var first := Quote(m[0].key) + [COLON] + Stringify(m[0].value);
      if |m| == 1 then first else first + [COMMA] + MembersText(m[1..])
  }

  /** A lone lead surrogate is written as the six units `\ud800`, while a
      well-formed surrogate pair is copied as it is. */
  lemma SurrogateExample()
    ensures Stringify(Str([0xD800])) == [QUOTE, BACKSLASH, 0x75, 0x64, 0x38, ZERO, ZERO, QUOTE]
    ensures Stringify(Str([0xD83D, 0xDE00])) == [QUOTE, 0xD83D, 0xDE00, QUOTE]
  {
    assert Escape([0xD800]) == EscapeUnit(0xD800) + Escape([]);
    assert Escape([0xD83D, 0xDE00]) == [0xD83D, 0xDE00] + Escape([]);
  }
}

/** The plain JSON tree that the encoder hands to the normaliser: the `json`
    half of what `SuperJSON.serialize` returns. Numbers are integers here;
    an object is its own-property list in enumeration order. */
module JsonTree {
  import opened JsStrings

  datatype Json =
    | Null
    | Bool(b: bool)
    | Num(n: int)
    | Str(s: JsString)
    | Arr(elems: seq<Json>)
    | Obj(members: seq<Member>)

  /** One own property of a plain object. */
  datatype Member = Member(key: JsString, value: Json)

  datatype Option<T> = None | Some(value: T)

  /** The leaves: everything that is neither an array nor a plain object. */
  predicate IsPrimitive(x: Json) {
    !x.Arr? && !x.Obj?
  }

  function MemberKey(m: Member): JsString {
    m.key
  }

  function Keys(m: seq<Member>): (ks: seq<JsString>)
    ensures |ks| == |m|
  {
    seq(|m|, i requires 0 <= i < |m| => m[i].key)
  }

  /** No key occurs twice, as in every JavaScript object. */
  ghost predicate UniqueKeys(m: seq<Member>) {
    forall i, j :: 0 <= i < j < |m| ==> m[i].key != m[j].key
  }

  /** Every object in the tree has unique keys. */
  ghost predicate WellFormed(x: Json) {
    match x
    case Arr(a) => forall i :: 0 <= i < |a| ==> WellFormed(a[i])
    case Obj(m) => UniqueKeys(m) && forall i :: 0 <= i < |m| ==> WellFormed(m[i].value)
    case _ => true
  }

  /** Property lookup `v[key]`: the value of the first member named `k`. */
  function Get(m: seq<Member>, k: JsString): (r: Option<Json>)
    ensures r.None? <==> forall i :: 0 <= i < |m| ==> m[i].key != k
    ensures r.Some? ==> Member(k, r.value) in m
  {
    if m == [] then None
    else if m[0].key == k then Some(m[0].value)
    else Get(m[1..], k)
  }

  /** With unique keys, looking a key up finds exactly the member that has it. */
  lemma GetUnique(m: seq<Member>, k: JsString, v: Json)
    requires UniqueKeys(m)
    ensures Get(m, k) == Some(v) <==> Member(k, v) in m
  {
  }
}

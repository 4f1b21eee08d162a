# deep-equal: an order-insensitive deep equality, modelled in Dafny

`isDeepEqual(a, b)` encodes both values with SuperJSON, normalises the
resulting plain JSON trees with `deepNormalize`, and compares the normal forms
with `fast-deep-equal`. The normaliser does three things:

- It returns primitives unchanged.
- It normalises every array element-wise and then sorts the elements by the
  `JSON.stringify` text of the normalised element, compared as strings.
- It rebuilds every plain object by iterating its keys in ascending order and
  storing the normalised value of each key in a fresh object.

The result is that neither array order nor key order affects the comparison.

This project models that normaliser over the JSON tree that the encoder
produces, and proves what it promises.

- `js_strings.dfy` (module `JsStrings`): JavaScript strings as sequences of
  UTF-16 code units, their `<` order, and the three-way comparator of the array
  sort.
- `sorting.dfy` (module `Sorting`): a stable sort that orders elements by a
  string key with the three-way comparator, proved sorted and a permutation. It also proves that when the key identifies the
  element, there is only one sorted arrangement, so the result does not
  depend on the sorting algorithm. It includes the permutation and multiset
  facts used elsewhere.
- `json.dfy` (module `JsonTree`): the JSON tree, and property lookup `v[key]`.
- `stringify.dfy` (module `JsonText`): `JSON.stringify` without indentation.
  Strings are quoted with the short escapes, with `\u` escapes for other
  control characters and for lone surrogates. Integers are written in
  decimal. Members are written in stored order.
- `stringify_unique.dfy` (module `StringifyUnique`): `JSON.stringify` is
  injective on JSON trees. Elements with equal sort keys are therefore equal,
  and the outcome of the sort is unambiguous.
- `normalize.dfy` (module `Normalizer`): `deepNormalize` as a function, and
  the object branch's loop as a method proved equal to it. The lemmas cover
  the array branch, the object branch, idempotence and canonical forms.
- `deep_equal.dfy` (module `DeepEqual`): `isDeepEqual` on encoded trees. It
  holds exactly when two trees (with unique keys in every object) differ only
  in the order of array elements and object members, at any depth. The
  examples from the documentation are included.

## Model

| member | source | states |
|---|---|---|
| `JsStrings.Compare` | src/index.ts:10 | the comparator returns -1, 0 or 1; it returns 0 exactly when the strings are equal, a negative value exactly when the first is below the second in code-unit order, and a positive value exactly when it is above |
| `JsStrings.Less` | src/index.ts:10 | `sa < sb` holds whenever `sa` is a proper prefix of `sb`; `LessFirstDifference` gives the full rule, and `LessIrreflexive`, `LessAsymmetric`, `LessTransitive` and `LessTotal` show it is a strict total order |
| `JsStrings.LessFirstDifference` | src/index.ts:10 | `sa < sb` holds exactly when `sa` is a proper prefix of `sb`, or when `sa` has the smaller code unit at the first position where the two differ |
| `JsStrings.CompareAntisymmetric` | src/index.ts:10 | swapping the arguments negates the comparator's result |
| `JsStrings.LessIrreflexive` | src/index.ts:10 | no string is below itself |
| `JsStrings.LessAsymmetric` | src/index.ts:10 | two strings are never each below the other |
| `JsStrings.LessTransitive` | src/index.ts:10 | the string order is transitive |
| `JsStrings.LessTotal` | src/index.ts:10 | any two strings are equal or ordered one way or the other, so the comparator is a total order |
| `Sorting.SortBy` | src/index.ts:7-11 | the sorted sequence has the input's length and multiset, and its keys are in non-decreasing order |
| `Sorting.SortSortedIsIdentity` | src/index.ts:7-11 | sorting an already sorted sequence returns it unchanged |
| `Sorting.SortedUnique` | src/index.ts:7-11 | when elements with equal keys are equal, two sorted sequences with the same multiset are identical |
| `JsonTree.Get` | src/index.ts:17 | `v[key]` finds nothing exactly when no member has that key; what it finds is the value of a member with that key |
| `JsonTree.GetUnique` | src/index.ts:17 | with unique keys, the lookup of `k` returns `v` exactly when the member `k: v` is present |
| `JsonText.Stringify` | src/index.ts:8-9 | the text of a value is never empty, and its first code unit tells `null`, `true`, `false`, a number, a string, an array and an object apart; `StringifyUnique.StringifyInjective` shows the whole text determines the value |
| `JsonText.SurrogateExample` | src/index.ts:8-9 | a lone surrogate in a string is written as `\ud800`, while a well-formed surrogate pair is copied unchanged |
| `StringifyUnique.StringifyPrefix` | src/index.ts:8-9 | a value's text followed by anything that may follow a value determines both the value and the rest |
| `StringifyUnique.StringifyInjective` | src/index.ts:8-9 | two trees with the same `JSON.stringify` text are the same tree |
| `Normalizer.SortedKeys` | src/index.ts:16 | `Object.keys(v).sort()` holds each key of the object exactly as often as the object does, in ascending order, and every such key is found by a lookup |
| `Normalizer.Normalize` | src/index.ts:5-23 | primitives come back unchanged; an array stays an array and an object stays an object |
| `Normalizer.NormalizeEach` | src/index.ts:7 | `v.map(deepNormalize)` keeps the length and puts the normal form of element `i` at position `i` |
| `Normalizer.NormalizeArray` | src/index.ts:7-11 | the result has the input's length, holds the normalised elements with the same multiplicities, and is sorted by their `JSON.stringify` text |
| `Normalizer.NormalizeObject` | src/index.ts:15-19 | the result has the same keys as the input, with the same multiplicities, and they come in ascending order |
| `Normalizer.ArraySortDeterminate` | src/index.ts:7-11 | any arrangement of the normalised elements that is sorted by text equals the normalised array, so the sort algorithm does not matter |
| `Normalizer.EachPermutes` | src/index.ts:7 | elements that pair up under a permutation and normalise alike give mapped arrays with equal multisets |
| `Normalizer.ArrayOrderInsensitive` | src/index.ts:7-11 | two arrays with the same elements in any order normalise to the same array |
| `Normalizer.ObjectLookup` | src/index.ts:15-19 | looking up a key in the normalised object gives the normalised value of that key in the input; a key absent from the input is absent from the result |
| `Normalizer.ObjectKeysAscending` | src/index.ts:15-19 | for an object with unique keys, the normalised keys are strictly ascending and unique |
| `Normalizer.ObjectFromLookups` | src/index.ts:15-19 | two objects whose sorted keys agree and whose lookups normalise alike normalise to the same object |
| `Normalizer.ObjectOrderInsensitive` | src/index.ts:15-19 | two objects with the same key/value pairs in any order normalise to the same object |
| `Normalizer.NormalizeIsCanonical` | src/index.ts:5-23 | every normal form is canonical: at every depth, arrays are sorted by text, object keys are sorted, and members with the same key are equal |
| `Normalizer.CanonicalIsFixed` | src/index.ts:5-23 | normalisation leaves a canonical tree unchanged |
| `Normalizer.NormalizeWellFormed` | src/index.ts:5-23 | a tree whose objects all have unique keys normalises to such a tree again |
| `Normalizer.NormalizeIdempotent` | src/index.ts:5-23 | normalising twice gives the same result as normalising once |
| `Normalizer.FixedPointIffCanonical` | src/index.ts:5-23 | normalisation leaves a tree unchanged exactly when the tree is canonical |
| `Normalizer.Put` | src/index.ts:17 | `out[key] = value`: afterwards the key holds the value, other keys are unchanged, an existing key keeps its place, and a new key is appended |
| `Normalizer.BuildNormalizedObject` | src/index.ts:15-19 | the loop over the sorted keys builds exactly the normalised object |
| `Normalizer.PutStep` | src/index.ts:17 | each turn of the loop appends the next member of the normalised object, because the next key is not yet in `out` |
| `DeepEqual.ReordersSound` | src/index.ts:40-42 | trees that differ only in the order of array elements and object members have the same normal form |
| `DeepEqual.ReordersComplete` | src/index.ts:40-42 | trees with the same normal form differ only in the order of array elements and object members |
| `DeepEqual.DeepEqualIffReorders` | src/index.ts:40-42 | when every object has unique keys, `isDeepEqual` holds exactly when the trees differ only in array and member order |
| `DeepEqual.IsDeepEqual` | src/index.ts:40-42 | every tree is deep-equal to itself; deep-equal trees are both arrays, both objects or neither; deep-equal arrays have the same length, and deep-equal objects have the same keys; `DeepEqualIffReorders` gives the full characterisation |
| `DeepEqual.DeepEqualIsEquivalence` | src/index.ts:40-42 | `isDeepEqual` is reflexive, symmetric and transitive |
| `DeepEqual.DeepEqualLeaves` | src/index.ts:22 | a primitive is deep-equal only to itself |
| `DeepEqual.DeepEqualPermutedArrays` | src/index.ts:28 | arrays with the same elements in any order are deep-equal |
| `DeepEqual.RotatedArrayExample` | src/index.ts:28 | `[1,2,3]` and `[3,1,2]` are deep-equal |
| `DeepEqual.SwappedKeysExample` | src/index.ts:29 | `{a:1,b:2}` and `{b:2,a:1}` are deep-equal |
| `DeepEqual.SwappedMembers` | src/index.ts:15-19 | an object with two different keys is deep-equal to the same object with its two members swapped |
| `DeepEqual.ValueAtKeyMatters` | src/index.ts:15-19 | objects that hold values with different normal forms under the same key are not deep-equal |
| `DeepEqual.ChangedValueExample` | src/index.ts:17 | `{a:1}` and `{a:2}` are not deep-equal |
| `DeepEqual.TextOrderExample` | src/index.ts:7-11 | `["b", 9, 10]` normalises to `["b", 10, 9]`: the elements are ordered by their text, so a string comes before numbers and `10` comes before `9` |
| `DeepEqual.SortedByFirstUnit` | src/index.ts:7-11 | an arrangement of primitives whose texts start with strictly ascending code units is their normal form |
| `DeepEqual.NumberIsNotStringExample` | src/index.ts:40-42 | `5` and `"5"` are not deep-equal |
| `DeepEqual.NestedExample` | src/index.ts:26-29 | `[{a:[1,2]},{b:3}]` and `[{b:3},{a:[2,1]}]` are deep-equal, with both the outer and the inner order changed |
| `DeepEqual.DifferentLeaves` | src/index.ts:7-11 | two arrays of primitives are deep-equal exactly when they hold the same primitives the same number of times |
| `DeepEqual.RepeatsMatter` | src/index.ts:7-11 | `[1,1,2]` and `[1,2,2]` are not deep-equal: multiplicities count, not just the set of elements |

## Left out

- `SuperJSON.serialize` (src/index.ts:33) is a foreign library. The model takes the encoded tree as its input. The source keeps only the `json` half and discards the type metadata, so two values whose `json` halves agree compare equal even when their types differ (a `Date` and its ISO string, for instance). The model cannot see the difference either.
- `fast-deep-equal` (src/index.ts:41) is a foreign library and is replaced by structural equality of the normal forms. Both sides are normalised first, so the order of members is already fixed when the comparison runs.
- Numbers are integers. JavaScript's floating point, `NaN`, `Infinity`, `-0`, and the exponent form that `JSON.stringify` uses from 1e21 upwards are not modelled.
- JavaScript lists integer-like keys (such as `"2"` and `"10"`) first, in numeric order, whatever order they were inserted in at src/index.ts:17. The `JSON.stringify` text of such an object therefore does not follow the sorted order. The model writes objects in stored order, which is the sorted order. The normal form is still a function of the key set, so equality is unaffected, but the sort key of such an object differs from the real one.
- Assigning to the key `__proto__` at src/index.ts:17 changes the prototype rather than adding a property. `Normalizer.Put` treats every key alike.
- The `Object.prototype.toString` probe of `isPlainObject` (src/index.ts:38) is replaced by the variants of the `Json` datatype. Class instances, cyclic structures, `undefined`, functions and `toJSON` methods are not in the model's domain.
- `normalize` (src/index.ts:31-36) is the composition of the encoder with `deepNormalize`. Without the encoder it is `Normalize` itself.
- `Array.prototype.sort` is modelled as a stable insertion sort. `Normalizer.ArraySortDeterminate` shows that any algorithm that sorts with the same comparator gives the same array.
- Normalizer.BuildNormalizedObject: requires unique keys, which every JavaScript object has. `Normalize` is defined on all trees. On a tree with a repeated key (which is not a JavaScript value) it keeps both members, each with the value of the first, whereas storing into a real object would merge them.
- Normalizer.BuildNormalizedObject: the recursive call `deepNormalize(v[key])` is the function `Normalize`. Only the object branch's loop is written as a method.

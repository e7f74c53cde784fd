# crimprs in Dafny

crimprs computes a canonical "signature" of a document. It has two pieces, and
they work on two different value types. This project models both, and proves
what each piece promises.

- **The canonical sorter** (`src/sorter.rs`) works on a serde-style JSON
  document. It walks the tree and, at every array reached through arrays,
  sorts the elements first. It then stably sorts the array by an ordering
  key:
  - a string ranks by its raw content;
  - an array ranks by its minified JSON;
  - anything else ranks by its JSON text formatted with `{:?}`, that is,
    between double quotes.

  The key is cut to one byte per character, the low 8 bits of the code point.
  Keys compare as byte sequences. Objects, and everything inside them, are left
  alone.
- **The tagged notation** (`src/notation.rs`) works on the crate's own `Value`
  (`src/value.rs`):
  - a string is written with the tag `S`;
  - an integer with `N`;
  - null as `_`;
  - a list as its elements' notations followed by `A`.

  `src/value.rs` also gives `Value` a `Display` text (a flat concatenation)
  and an `Ord` built on that text. Under that `Ord`, any two arrays are equal.

Modules:

- `Json` (`json.dfy`): the document tree `JValue` and its minified text
  `ToJson`. A number keeps the literal text it was written with.
- `Sorter` (`sorter.dfy`): the pieces of the sorter.
  - The key: `Normalise`, `Bytes`, `Key`, and the byte order `LexLe`/`LexLt`.
  - A functional specification: `SortByKey`, a stable insertion sort, and
    `SortedTree`, the whole bottom-up sort.
  - The imperative code proved against it: `SortValue` rebuilds a value. It
    copies an array's children into an `array`, sorts each child in a loop, and
    sorts the level in place with `SortLevel` (an insertion sort built from
    `InsertAt`).
- `Values` (`values.dfy`): `Value`, `Display`, string comparison, `Cmp` and
  `PartialCmp`.
- `Notation` (`notation.dfy`): every `Notation` impl; the list encoder as
  written; and `SortBottomUp`, the bottom-up stable sort by `Cmp` that the
  list examples assume. Its stability is `SortBottomUpStable` and `SortBottomUpKeepsEqual`.

Two facts about the key follow from the code. They contradict the intuition
that "numbers come first, then arrays, then strings":

- Strings that start above `[` (byte 0x5B), such as those that start with a
  lower-case letter, sort after every array (`ArrayBeforeLowercase`). Strings
  that start below `[`, such as those that start with an upper-case letter,
  sort before every array (`UppercaseBeforeArray`). A string that starts with
  `[` compares with an array's JSON byte by byte: `"[z"` sorts after `[1]`, and
  the string `[]` ties with the empty array (`StringArrayKeyCollision`).
- The quotes keep the number `1` apart from the string `"1"`. But other
  collisions do exist:
  - the string `[]` and the empty array share a key;
  - the string `"1"`, quotes included, shares the number `1`'s key;
  - characters whose code points agree in the low 8 bits give the same byte.

## Model

| member | source | states |
|---|---|---|
| `Sorter.Sort` | src/sorter.rs:3-6 | `sorter` returns exactly the bottom-up sorted tree `SortedTree(data)` |
| `Sorter.SortValue` | src/sorter.rs:8-20 | the recursive in-place sort (children sorted one by one in a loop, then the level) yields `SortedTree(v)` |
| `Sorter.SortLevel` | src/sorter.rs:14-16 | `arr.sort_by` on the keys: afterwards the array holds `SortByKey(Key, old contents)` |
| `Sorter.InsertAt` | src/sorter.rs:14-16 | one insertion step in place: the prefix becomes the stable insertion of `a[i]`, and the rest of the array is unchanged |
| `Sorter.SortedChildren` | src/sorter.rs:11-13 | the `for` loop's effect: each element sorted on its own, in place; the length is kept, an element stays an array exactly when it was one, and a non-array element is unchanged |
| `Sorter.SortedTree` | src/sorter.rs:8-20 | a value that is not an array (an object included, with any arrays inside it) is returned unchanged; an array keeps its length |
| `Sorter.SortedTreeCanonical` | src/sorter.rs:8-20 | in the result, every array reachable through arrays is in non-decreasing key order |
| `Sorter.SortedTreePermutes` | src/sorter.rs:10-16 | each sorted array is a permutation (as a multiset) of its recursively sorted children |
| `Sorter.SortedTreeStable` | src/sorter.rs:14 | children with equal keys keep their relative order |
| `Sorter.SortedTreeOfCanonical` | src/sorter.rs:8-20 | a tree already in key order at every array is returned unchanged |
| `Sorter.SortedTreeIdempotent` | src/sorter.rs:3-20 | sorting a sorted tree changes nothing |
| `Sorter.InsertByKey` | src/sorter.rs:14-16 | the insertion step of a stable sort: `x` goes after every element whose key is not above its own, and the result is one longer; its content is fixed by `InsertByKeyPermutes`, `InsertByKeyOrdered` and `InsertByKeyWithKey` |
| `Sorter.SortByKey` | src/sorter.rs:14-16 | the stable sort `arr.sort_by` performs, by the byte keys; it keeps the length, and the lemmas below prove it a key-ordered, stable permutation and the only one (`StableSortUnique`) |
| `Sorter.SortByKeyPermutes` | src/sorter.rs:14-16 | one level's sort keeps every element, each as often |
| `Sorter.SortByKeyOrdered` | src/sorter.rs:14-16 | one level's sort leaves the keys in non-decreasing byte order, for every pair of positions |
| `Sorter.SortByKeyStable` | src/sorter.rs:14-16 | for any key value, the elements with that key appear in the same order before and after |
| `Sorter.SortByKeyOfOrdered` | src/sorter.rs:14-16 | a level already in key order is left as it is |
| `Sorter.OrderedSameWithKeys` | src/sorter.rs:14-16 | two key-ordered sequences of the same length that hold, for every key, the same elements with that key in the same order, are equal |
| `Sorter.StableSortUnique` | src/sorter.rs:14-16 | any key-ordered permutation of a level that keeps the elements of every key in input order is exactly `SortByKey`'s result, so every stable sort by the key, `sort_by` included, gives the model's result, ties included |
| `Sorter.OrderedUnique` | src/sorter.rs:14-16 | two key-ordered arrangements of the same elements, with no two different elements sharing a key, are equal |
| `Sorter.SortByKeyOrderIndependent` | src/sorter.rs:14-16 | when no two different elements share a key, the sorted level depends only on the multiset of elements |
| `Sorter.SortByKeyIs` | src/sorter.rs:14-16 | any arrangement of the same elements with strictly increasing keys is the sort's result |
| `Sorter.InsertByKeyPermutes` | src/sorter.rs:14-16 | inserting adds exactly the inserted element |
| `Sorter.InsertByKeyOrdered` | src/sorter.rs:14-16 | inserting into a key-ordered level keeps it key-ordered |
| `Sorter.InsertByKeyWithKey` | src/sorter.rs:14-16 | inserting an element changes the elements of any key only by appending that element when its key matches |
| `Json.ToJson` | src/sorter.rs:25-26 | serde's `to_string`, minified: a number's literal text, a string between quotes, elements and members separated by commas; no contract of its own, its shape is proved in `Sorter.ArrayKeyStart`, `Sorter.ArrayKeyHead`, `Sorter.QuotedKeyStart` and `Sorter.PairJson` |
| `Json.JoinValues` | src/sorter.rs:25 | an array's elements' JSON separated by commas: at least one character per separator |
| `Json.JoinEntries` | src/sorter.rs:25-26 | an object's members as `"key":value` separated by commas: a non-empty object's members start with `"` and take at least four characters per member, less one |
| `Sorter.DebugQuoted` | src/sorter.rs:26 | `{:?}` of a string: it begins and ends with `"` and is at least two longer than the text |
| `Sorter.DebugEscape` | src/sorter.rs:26 | the escaping inside `{:?}`: it never shortens the text, and it keeps the length exactly when the text has no `"` and no `\` |
| `Sorter.Normalise` | src/sorter.rs:22-28 | `normalise_value`: a string's raw content; an array's minified JSON, which begins with `[` and ends with `]`; null, a boolean, a number or an object as its JSON inside `{:?}`, which begins and ends with `"` |
| `Sorter.Bytes` | src/sorter.rs:30-32 | `string_to_ascii`: one byte per character, every byte in 0..255, equal to the code point for every character below 256 |
| `Sorter.Key` | src/sorter.rs:22-32 | the key `sort_by` compares, `string_to_ascii(normalise_value(v))`: every byte lies in 0..255 |
| `Sorter.LexLe` | src/sorter.rs:15 | `Vec<u8>::cmp` is not `Greater`: a prefix is never greater, and the first byte of the smaller sequence is not above that of the larger |
| `Sorter.LexLt` | src/sorter.rs:15 | `Vec<u8>::cmp` is `Less`: a proper prefix is strictly smaller |
| `Sorter.BytesAppend` | src/sorter.rs:30-32 | the conversion maps each character on its own, so it distributes over concatenation |
| `Sorter.BytesInjective` | src/sorter.rs:30-32 | on text whose code points are all below 256, the bytes determine the text |
| `Sorter.WideCharKeyCollision` | src/sorter.rs:30-32 | `as u8` keeps only the low 8 bits, so `š` (U+0161) and `a` share a key |
| `Sorter.LexLeReflexive` | src/sorter.rs:15 | the byte order is reflexive |
| `Sorter.LexLeTotal` | src/sorter.rs:15 | the byte order is total |
| `Sorter.LexLeTransitive` | src/sorter.rs:15 | the byte order is transitive |
| `Sorter.LexLeAntisymmetric` | src/sorter.rs:15 | the byte order is antisymmetric |
| `Sorter.LexPrefixSmaller` | src/sorter.rs:15 | a proper prefix is strictly smaller |
| `Sorter.LexLtAt` | src/sorter.rs:15 | the first differing byte decides |
| `Sorter.DebugEscapePlain` | src/sorter.rs:26 | `{:?}` leaves text with no `"` and no `\` unchanged apart from the surrounding quotes |
| `Sorter.NumberKey` | src/sorter.rs:22-32 | a number ranks by its literal text between double quotes |
| `Sorter.QuotedKeyStart` | src/sorter.rs:26 | null, booleans, numbers and objects have keys that begin and end with the byte 0x22 |
| `Sorter.ArrayKeyStart` | src/sorter.rs:25 | an array's key begins with `[` |
| `Sorter.ArrayKeyHead` | src/sorter.rs:25 | after `[`, an array's key continues with the first character of its first element's JSON |
| `Sorter.ArrayKeysByFirstChar` | src/sorter.rs:25 | arrays whose first elements' JSON starts with different characters rank by those characters |
| `Sorter.PairJson` | src/sorter.rs:25 | a two-element array's key text is `[`, the first element's JSON, `,`, the second's JSON, `]` |
| `Sorter.PairKeysAt` | src/sorter.rs:25 | two pairs with the same first element rank by the first differing character of their second elements' JSON |
| `Sorter.BytesLtAt` | src/sorter.rs:15-32 | two texts that agree up to a position rank by the byte at that position |
| `Sorter.QuotedBeforeArray` | src/sorter.rs:22-28 | a number (or null, boolean, object) sorts strictly before any array |
| `Sorter.QuotedBeforeString` | src/sorter.rs:22-28 | a number (or null, boolean, object) sorts strictly before any string that starts above `"` |
| `Sorter.ArrayBeforeLowercase` | src/sorter.rs:22-28 | an array sorts strictly before any string that starts with a lower-case letter |
| `Sorter.UppercaseBeforeArray` | src/sorter.rs:22-28 | a string that starts with an upper-case letter sorts strictly before any array |
| `Sorter.NumberStringKeysDiffer` | src/sorter.rs:24-26 | a number's key never equals the key of the string with the same text |
| `Sorter.StringArrayKeyCollision` | src/sorter.rs:24-25 | the string `[]` and the empty array share a key |
| `Sorter.StringNumberKeyCollision` | src/sorter.rs:24-26 | the string `"1"`, quotes included, and the number `1` share a key |
| `Sorter.NumberKeyLt` | src/sorter.rs:22-32 | plain numbers rank by the first characters of their texts when those differ |
| `Sorter.StringKeyLt` | src/sorter.rs:22-32 | strings rank by their first bytes when those differ |
| `Sorter.SortedLeafPair` | src/sorter.rs:8-20 | a pair of non-arrays comes out in key order, whichever order it came in |
| `Sorter.SortedPair` | src/sorter.rs:8-20 | a pair whose sorted children are in strictly increasing key order keeps those children in place |
| `Sorter.NumberPairSorted` | src/sorter.rs:8-32 | two one-digit numbers, in either order, come out in digit order |
| `Sorter.StringPairSorted` | src/sorter.rs:8-32 | two strings with different first bytes, in either order, come out in byte order |
| `Sorter.NumberStringPairSorted` | src/sorter.rs:8-32 | a number and a string that starts above `"`, in either order, come out number first |
| `Sorter.ShortArrayKeysOrdered` | src/sorter.rs:54-60 | `["b","c"]` ranks before `[1,"a"]`: after `[`, a quote precedes a digit |
| `Sorter.SortNumbersExample` | src/sorter.rs:70-76 | `[2,1]` becomes `[1,2]` |
| `Sorter.SortStringsExample` | src/sorter.rs:78-84 | `["b","a"]` becomes `["a","b"]` |
| `Sorter.SortSimpleValuesExample` | src/sorter.rs:62-68 | `["a",1]` becomes `[1,"a"]` |
| `Sorter.SortSimpleItemsExample` | src/sorter.rs:86-92 | `[[1],"c",["b"]]` becomes `[["b"],[1],"c"]` |
| `Sorter.SortFloatsExample` | src/sorter.rs:94-100 | `[7.1,3.2,1.6]` becomes `[1.6,3.2,7.1]` (numbers as literal text) |
| `Sorter.SortShortArrayExample` | src/sorter.rs:54-60 | `[["c","b"],["a",1]]` becomes `[["b","c"],[1,"a"]]`: children first, then ranked by their sorted text |
| `Sorter.DataMixedChildren` | src/sorter.rs:42-52 | the number/string pairs of the ten-element input sort to the pairs the expected output holds |
| `Sorter.DataNumberChildren` | src/sorter.rs:42-52 | the number pairs of the ten-element input sort to the pairs the expected output holds |
| `Sorter.DataPairKeys` | src/sorter.rs:42-52 | the neighbours of the ten-element expected output that share a first element are in strictly increasing key order |
| `Sorter.DataOtherKeys` | src/sorter.rs:42-52 | the other neighbours of the ten-element expected output are in strictly increasing key order |
| `Values.DecimalText` | src/value.rs:36 | `to_string` of an integer: nonempty, a leading `-` exactly for negatives, digits elsewhere |
| `Values.Digits` | src/value.rs:36 | the decimal digits of a natural number, without a leading zero |
| `Values.DigitsRoundTrip` | src/value.rs:36 | reading the digits back gives the number |
| `Values.DecimalRoundTrip` | src/value.rs:36 | reading the decimal text back gives the integer |
| `Values.DecimalTextInjective` | src/value.rs:36 | distinct integers have distinct texts |
| `Values.Display` | src/value.rs:31-48 | `impl Display`: a non-array displays as `""` exactly when it is `Null` or the empty string |
| `Values.DisplayAll` | src/value.rs:40-45 | the fold over an array's elements: a one-element array displays as its element |
| `Values.DisplayCases` | src/value.rs:34-45 | `Null` displays as `""`, a number as its decimal text, a string as itself, `[]` as `""` and `[x]` as `x`'s text |
| `Values.DisplayAppend` | src/value.rs:40-45 | an array's text is the concatenation of its parts' texts: `Display(Array(xs+ys)) == Display(Array(xs)) + Display(Array(ys))` |
| `Values.CompareStrings` | src/value.rs:21 | `String::cmp`: a proper prefix is `Less`, and a proper extension `Greater`; with `CompareStringsAt`, the order is lexicographic |
| `Values.CompareStringsReverse` | src/value.rs:21 | exchanging the strings reverses the outcome |
| `Values.CompareStringsEqual` | src/value.rs:21 | two strings compare `Equal` exactly when they are equal |
| `Values.CompareStringsAt` | src/value.rs:21 | the first position where two strings differ decides: the string with the smaller character there is `Less`, the other `Greater`, whatever follows |
| `Values.EmptyStringSmallest` | src/value.rs:21 | the empty string is never greater, and equal only to itself |
| `Values.Cmp` | src/value.rs:15-23 | `impl Ord`: two arrays are `Equal`, anything else compares by its text; every value is `Equal` to itself |
| `Values.CmpGreaterAsymmetric` | src/value.rs:15-23 | never both `cmp(a,b) == Greater` and `cmp(b,a) == Greater` |
| `Values.CmpAntisymmetric` | src/value.rs:15-23 | `cmp(b,a)` is the reverse of `cmp(a,b)` |
| `Values.CmpEqualIff` | src/value.rs:15-23 | `cmp` is `Equal` exactly when both are arrays or their texts agree |
| `Values.CmpArraysEqual` | src/value.rs:17-19 | any two arrays are `Equal`, whatever they hold |
| `Values.CmpNumberString` | src/value.rs:21 | `cmp(Number(1), String("1")) == Equal` |
| `Values.CmpNullNotGreater` | src/value.rs:21-35 | `cmp(Null, x)` is never `Greater`, and is `Equal` exactly when `x` displays as `""` |
| `Values.CmpNotTransitive` | src/value.rs:15-23 | `["a"] < "b" < ["c"]` while `["a"]` and `["c"]` are `Equal` |
| `Values.PartialCmp` | src/value.rs:25-29 | `partial_cmp` is always `Some(cmp(a,b))` |
| `Notation.NotateString` | src/notation.rs:7-11 | a string notates to itself followed by `S` |
| `Notation.NotateI32` | src/notation.rs:13-17 | an `i32` notates to text ending in `N` |
| `Notation.NotateI64` | src/notation.rs:19-23 | an `i64` notates to text ending in `N`; `NotateI64ReadBack` reads the text before it back to the value |
| `Notation.NotateI64ReadBack` | src/notation.rs:19-23 | for every `i64`, the text before the final `N` parses back to the value, across the whole 64-bit range |
| `Notation.NotateIntegerWidths` | src/notation.rs:13-23 | an integer notates the same as `i32` and as `i64`, and the text before `N` reads back as the integer |
| `Notation.NotateIntItems` | src/notation.rs:33 | the elements' `i32` notations collected into one string: empty only for the empty list |
| `Notation.NotateInts` | src/notation.rs:31-35 | `[i32]` notates to text ending in `A` |
| `Notation.NotateIntsAsValues` | src/notation.rs:31-35 | `[i32]` notates exactly as the list of the same `Number` values |
| `Notation.NotateStrItems` | src/notation.rs:41-44 | the elements' string notations collected into one string: at least one character per element |
| `Notation.NotateStrs` | src/notation.rs:37-47 | `[&str]` notates to text ending in `A` |
| `Notation.NotateStrsAsValues` | src/notation.rs:37-47 | `[&str]` notates exactly as the list of the same `String` values |
| `Notation.Notate` | src/notation.rs:49-66 | `impl Notation for Value`: never empty; its tag is fixed by `NotateEndsWithTag` |
| `Notation.NotateSeq` | src/notation.rs:68-74 | `impl Notation for [Value]` as written: longer than the list and ending in `A` |
| `Notation.NotateItems` | src/notation.rs:72 | the elements' notations in the order given, collected: at least one character per element |
| `Notation.NotateEndsWithTag` | src/notation.rs:49-66 | every notation is nonempty, and its last character is the variant's tag (`_`, `N`, `S` or `A`) |
| `Notation.NotateKindSensitive` | src/notation.rs:49-66 | `Number(n)`, `String(s)` and `Null` never notate alike |
| `Notation.NotateAlphanumericFields` | src/notation.rs:56-62 | an `Alphanumeric` notates to `value` followed by `N` or `S` by `is_number`; `raw` and `is_string` are ignored |
| `Notation.NotateItemsAppend` | src/notation.rs:68-74 | the elements' notations concatenate in the order given |
| `Notation.NotateSeqAppend` | src/notation.rs:68-74 | notating `xs + ys` is notating `xs`'s elements, then the list `ys` |
| `Notation.NotateSeqEmpty` | src/notation.rs:68-74 | the empty list notates to `A` |
| `Notation.NotateCollision` | src/notation.rs:49-74 | different trees can share a notation: `["a","b"]` and `["aSb"]` |
| `Notation.NotateScalarExamples` | src/notation.rs:80-90 | `"abc"` gives `abcS`; `1` gives `1N` as `i32` and as `i64`; null gives `_` |
| `Notation.NotateIntsExample` | src/notation.rs:98-102 | `[1,2,3]` gives `1N2N3NA` |
| `Notation.NotateStrsExample` | src/notation.rs:104-108 | `["a","b","c"]` gives `aSbScSA` |
| `Notation.NotateSeqUnsorted` | src/notation.rs:68-74 | as written, `[1,"a",3]` gives `1NaS3NA`, not the `1N3NaSA` of the example at src/notation.rs:110-119 |
| `Notation.InsertBy` | src/notation.rs:110-157 | the insertion step of the stable sort the examples expect: `x` goes after every element not `Greater` than it, and the result is one longer |
| `Notation.SortBy` | src/notation.rs:110-157 | the stable insertion sort by a comparison: it keeps the length; the lemmas below prove it a permutation, ordered and stable |
| `Notation.InsertByFilter` | src/notation.rs:121-131 | inserting changes the elements a predicate picks out only by appending `x` when it is picked, provided the comparison never puts one picked element above another |
| `Notation.SortByFilter` | src/notation.rs:121-131 | stability: the elements a predicate picks out, none of them above another, keep their relative order |
| `Notation.InsertByPermutes` | src/notation.rs:110-157 | inserting adds exactly the inserted element |
| `Notation.SortByPermutes` | src/notation.rs:110-157 | the stable sort keeps every element, each as often |
| `Notation.InsertByOrdered` | src/notation.rs:110-157 | inserting into a list where no element is greater than its successor keeps that property |
| `Notation.SortByOrdered` | src/notation.rs:110-157 | after the sort, no element is greater than its successor under an asymmetric comparison |
| `Notation.SortBottomUp` | src/notation.rs:110-157 | the bottom-up sort keeps values free of `Alphanumeric`, returns a non-array unchanged and keeps an array's length |
| `Notation.SortedElements` | src/notation.rs:110-157 | each element sorted on its own first: length kept, and still comparable |
| `Notation.SortBottomUpStable` | src/notation.rs:121-131 | at every level, two classes of mutually `Equal` values keep their order: the values (arrays included) with any one text, and the arrays |
| `Notation.SortBottomUpKeepsEqual` | src/notation.rs:121-131 | at every level, any two values that compare `Equal`, such as `["a"]` and `"a"` or `[]` and `null`, keep the order the sorted elements had |
| `Notation.NotateSorted` | src/notation.rs:110-157 | the notation of the sorted value, which the examples expect: never empty, and it ends with the tag of the value's own kind |
| `Notation.SortBottomUpPermutes` | src/notation.rs:110-157 | each sorted list is a permutation of its sorted elements, and no element is `Greater` than its successor |
| `Notation.NotateSortedMixed` | src/notation.rs:110-119 | `[1,"a",3]` sorted gives `1N3NaSA` |
| `Notation.NotateSortedStable` | src/notation.rs:121-131 | `[3,null,1,"1"]` sorted gives `_1N1S3NA`; `1` and `"1"` compare equal and keep their order |
| `Notation.NotateSortedCasing` | src/notation.rs:133-143 | `["a","A","b","B"]` sorted gives `ASBSaSbSA` |
| `Notation.NotateSortedNested` | src/notation.rs:145-157 | `["a",1,["b","2"]]` sorted gives `1N2SbSAaSA`; the inner list is sorted first and ranked by its text `2b` |

## Left out

- `signature` (src/lib.rs:9-11): it is an MD5 digest, a foreign call, plus hex formatting. It is not part of this model.
- `json_from` (src/lib.rs:13-15, src/sorter.rs:34-36): serde parsing, which panics on invalid input. The model starts from a parsed tree.
- The `f32` notation (src/notation.rs:25-29) and float formatting. The sorter keeps a number as its literal text; the notation has only integers.
- JSON escaping is not modelled:
  - serde's string escaping in `to_string` (`ToJson` writes string content unescaped);
  - the order serde uses to write object members (`ToJson` keeps the order the tree holds);
  - characters that `{:?}` escapes other than `"` and `\`, such as control characters.
- The Bool and Object notations (`trueB`, `...H`): they exist only in comments (src/notation.rs:54, src/notation.rs:159-192).
- The commented-out `Raw`-based test (src/notation.rs:194-221), and the ordering the crate derives for `Alphanumeric`/`Raw` (src/value.rs:51-63). The datatypes are modelled, their derived order is not.
- In-place mutation through `&mut` for the recursive sort of children is not modelled. `SortValue` copies an array's children into a fresh array, sorts each child in a loop, then sorts that array in place and returns the rebuilt value. The level sort itself is in place.
- Rust's `sort_by` is a stable sort. The model uses a stable insertion sort. `StableSortUnique` proves that any key-ordered permutation that keeps equal-key elements in input order is the insertion sort's result, so the two sorts agree, ties included.
- SortBottomUp: `Cmp` is not transitive (`CmpNotTransitive`), so a real sort by it has no unique result. The model fixes the one a stable insertion sort gives; the lemmas prove a permutation, no element `Greater` than its successor, and the examples.
- In `Values`, the constructors are renamed: `Alphanumeric` is `Alpha`, and `Raw::Number`/`Raw::String` are `RawNumber`/`RawString`. `Null()` is `Null`.
- ToJson: no contract of its own, because its shape facts are stated as lemmas about the keys (`ArrayKeyStart`, `ArrayKeyHead`, `QuotedKeyStart`, `PairJson`).
- `Display` panics on an `Alphanumeric` (src/value.rs:38). Every function that displays a value therefore requires `NoAlphanumeric`.
- `Cmp` of any pair that is not two arrays displays both, so it requires that neither holds an `Alphanumeric` (`Comparable`).
- The ten-element example of src/sorter.rs:42-52 is not proved as one equation; only its parts are:
  - `DataMixedChildren` and `DataNumberChildren` show what each child becomes;
  - `SortShortArrayExample` covers `["c","b"]`;
  - `DataPairKeys`, `DataOtherKeys` and `ShortArrayKeysOrdered` show that each neighbour of the expected output has a strictly smaller key than the next.

  With `SortByKeyIs`, these imply the expected output. The final ten-element equation is not proved here.

## Findings

| source | as written | input that shows it | evidently intended | confidence | as-written member | corrected member |
|---|---|---|---|---|---|---|
| src/notation.rs:68-74 | the `[Value]` impl notates the elements in the order given, with no sorting | `[Number(1), String("a"), Number(3)]` gives `1NaS3NA`, but the example at src/notation.rs:110-119 expects `1N3NaSA` (likewise the examples at src/notation.rs:121-157) | every level stably sorted bottom-up by `cmp` before it is notated | not executed | `Notation.NotateSeqUnsorted` | `Notation.SortBottomUpPermutes` |

/**
 * The tagged notation: every datum is written as its text followed by a
 * one-character tag naming its kind (`S` string, `N` number, `_` null,
 * `A` array), and an array as its elements' notations, in the order given,
 * followed by `A`.
 */
module Notation {
  import opened Values

  /** `impl Notation for String`. */
  function NotateString(s: string): (r: string)
    ensures |r| == |s| + 1 && r[..|s|] == s && r[|s|] == 'S'
  {
    s + "S"
  }

  /** `impl Notation for i32`. */
  function NotateI32(n: i32): (r: string)
    ensures r != [] && r[|r| - 1] == 'N'
  {
    DecimalText(n as int) + "N"
  }

  /** `impl Notation for i64`. */
  function NotateI64(n: i64): (r: string)
    ensures r != [] && r[|r| - 1] == 'N'
  {
    DecimalText(n as int) + "N"
  }

  /** An integer's notation is its decimal text and `N`, whichever width it has. */
  lemma NotateIntegerWidths(n: i32)
    ensures NotateI32(n) == NotateI64(n as int as i64)
    ensures ParseDecimal(NotateI32(n)[..|NotateI32(n)| - 1]) == n as int
  {
    DecimalRoundTrip(n as int);
    assert NotateI32(n)[..|NotateI32(n)| - 1] == DecimalText(n as int);
  }

  /** The text before an `i64`'s `N` reads back to it, across the whole 64-bit range. */
  lemma NotateI64ReadBack(m: i64)
    ensures ParseDecimal(NotateI64(m)[..|NotateI64(m)| - 1]) == m as int
  {
    DecimalRoundTrip(m as int);
    assert NotateI64(m)[..|NotateI64(m)| - 1] == DecimalText(m as int);
  }

  /** The tag that ends a value's notation. */
  function Tag(v: Value): char
  {
    match v
    case Null => '_'
    case Number(_) => 'N'
    case String(_) => 'S'
    case Alpha(a) => if a.isNumber then 'N' else 'S'
    case Array(_) => 'A'
  }

  /** `impl Notation for Value`. */
  function Notate(v: Value): (r: string)
    ensures r != []
    decreases v, 0
  {
    match v
    case Number(n) => NotateI32(n)
    case Null => "_"
    case String(s) => NotateString(s)
    case Alpha(a) => if a.isNumber then a.value + "N" else a.value + "S"
    case Array(es) => NotateSeq(es)
  }

  /** The last character of a notation names the value's kind. */
  lemma NotateEndsWithTag(v: Value)
    ensures Notate(v) != [] && Notate(v)[|Notate(v)| - 1] == Tag(v)
  {
    match v
    case Number(n) =>
    case Null =>
    case String(s) =>
    case Alpha(a) =>
    case Array(es) =>
  }

  /** `impl Notation for [Value]`: the elements' notations in order, then `A`. */
  function NotateSeq(es: seq<Value>): (r: string)
    ensures |r| > |es| && r[|r| - 1] == 'A'
    decreases es, 1
  {
    NotateItems(es) + "A"
  }

  /** The concatenated notations of the elements, first to last. */
  function NotateItems(es: seq<Value>): (r: string)
    ensures |r| >= |es|
    decreases es, 0
  {
    if es == [] then "" else Notate(es[0]) + NotateItems(es[1..])
  }

  lemma {:induction false} NotateItemsAppend(xs: seq<Value>, ys: seq<Value>)
    ensures NotateItems(xs + ys) == NotateItems(xs) + NotateItems(ys)
  {
    if xs == [] {
      assert xs + ys == ys;
    } else {
      assert (xs + ys)[1..] == xs[1..] + ys;
      NotateItemsAppend(xs[1..], ys);
    }
  }

  /** Notating a list is notating its parts one after the other, then `A`. */
  lemma NotateSeqAppend(xs: seq<Value>, ys: seq<Value>)
    ensures NotateSeq(xs + ys) == NotateItems(xs) + NotateSeq(ys)
  {
    NotateItemsAppend(xs, ys);
  }

  /** The empty list notates to `A`. */
  lemma NotateSeqEmpty()
    ensures NotateSeq([]) == "A"
  {
  }

  /** `impl Notation for [i32]`. */
  function NotateInts(xs: seq<i32>): (r: string)
    ensures r != [] && r[|r| - 1] == 'A'
  {
    NotateIntItems(xs) + "A"
  }

  /** The elements' notations, one after the other: empty only for the empty list. */
  function NotateIntItems(xs: seq<i32>): (r: string)
    ensures r == [] <==> xs == []
  {
    if xs == [] then "" else NotateI32(xs[0]) + NotateIntItems(xs[1..])
  }

  /** `impl Notation for [&str]`. */
  function NotateStrs(xs: seq<string>): (r: string)
    ensures r != [] && r[|r| - 1] == 'A'
  {
    NotateStrItems(xs) + "A"
  }

  /** The elements' notations, each at least its tag. */
  function NotateStrItems(xs: seq<string>): (r: string)
    ensures |r| >= |xs|
  {
    if xs == [] then "" else NotateString(xs[0]) + NotateStrItems(xs[1..])
  }

  /** A list of integers notates as the same list of `Number` values. */
  lemma {:induction false} NotateIntsAsValues(xs: seq<i32>)
    ensures NotateInts(xs) == NotateSeq(seq(|xs|, i requires 0 <= i < |xs| => Number(xs[i])))
  {
    IntItemsAsValues(xs);
  }

  lemma {:induction false} IntItemsAsValues(xs: seq<i32>)
    ensures NotateIntItems(xs) == NotateItems(seq(|xs|, i requires 0 <= i < |xs| => Number(xs[i])))
  {
    if xs != [] {
      IntItemsAsValues(xs[1..]);
      var vs := seq(|xs|, i requires 0 <= i < |xs| => Number(xs[i]));
      assert vs[1..] == seq(|xs[1..]|, i requires 0 <= i < |xs[1..]| => Number(xs[1..][i]));
    }
  }

  /** A list of strings notates as the same list of `String` values. */
  lemma {:induction false} NotateStrsAsValues(xs: seq<string>)
    ensures NotateStrs(xs) == NotateSeq(seq(|xs|, i requires 0 <= i < |xs| => String(xs[i])))
  {
    StrItemsAsValues(xs);
  }

  lemma {:induction false} StrItemsAsValues(xs: seq<string>)
    ensures NotateStrItems(xs) == NotateItems(seq(|xs|, i requires 0 <= i < |xs| => String(xs[i])))
  {
    if xs != [] {
      StrItemsAsValues(xs[1..]);
      var vs := seq(|xs|, i requires 0 <= i < |xs| => String(xs[i]));
      assert vs[1..] == seq(|xs[1..]|, i requires 0 <= i < |xs[1..]| => String(xs[1..][i]));
    }
  }

  /** The tag keeps a number apart from the string with the same text. */
  lemma NotateKindSensitive(n: i32, s: string)
    ensures Notate(Number(n)) != Notate(String(s))
    ensures Notate(Null) != Notate(Number(n)) && Notate(Null) != Notate(String(s))
  {
    NotateEndsWithTag(Number(n));
    NotateEndsWithTag(String(s));
    NotateEndsWithTag(Null);
  }

  /** Only `value` and `isNumber` of an `Alphanumeric` enter its notation. */
  lemma NotateAlphanumericFields(a: Alphanumeric, b: Alphanumeric)
    requires a.value == b.value && a.isNumber == b.isNumber
    ensures Notate(Alpha(a)) == Notate(Alpha(b))
    ensures Notate(Alpha(a)) == a.value + (if a.isNumber then "N" else "S")
  {
  }

  /** Nesting is not recorded apart from the tags, so different trees can share a notation. */
  lemma NotateCollision()
    ensures Notate(Array([String("a"), String("b")])) == Notate(Array([String("aSb")]))
  {
    assert NotateItems([String("b")]) == "bS";
    assert NotateItems([String("a"), String("b")]) == "aSbS";
  }

  /** The vectors of the notation's own examples for single data. */
  lemma NotateScalarExamples()
    ensures NotateString("abc") == "abcS"
    ensures NotateI32(1) == "1N" && NotateI64(1) == "1N"
    ensures Notate(Null) == "_"
  {
    assert DecimalText(1) == "1";
  }

  /** The vector of the notation's own example for a list of integers. */
  lemma NotateIntsExample()
    ensures NotateInts([1, 2, 3]) == "1N2N3NA"
  {
    assert DecimalText(1) == "1";
    assert DecimalText(2) == "2";
    assert DecimalText(3) == "3";
    assert NotateIntItems([3]) == "3N";
    assert NotateIntItems([2, 3]) == "2N3N";
  }

  /** The vector of the notation's own example for a list of strings. */
  lemma NotateStrsExample()
    ensures NotateStrs(["a", "b", "c"]) == "aSbScSA"
  {
    assert NotateStrItems(["c"]) == "cS";
    assert NotateStrItems(["b", "c"]) == "bScS";
  }

  // ---------------------------------------------------------------------------
  // The list encoder as written does not sort
  // ---------------------------------------------------------------------------

  /**
   * The list impl keeps the given order, so `[1, "a", 3]` notates to
   * `1NaS3NA`, not to the `1N3NaSA` its example expects.
   */
  lemma NotateSeqUnsorted()
    ensures NotateSeq([Number(1), String("a"), Number(3)]) == "1NaS3NA"
    ensures NotateSeq([Number(1), String("a"), Number(3)]) != "1N3NaSA"
  {
    assert DecimalText(1) == "1";
    assert DecimalText(3) == "3";
    assert NotateItems([Number(3)]) == "3N";
    assert NotateItems([String("a"), Number(3)]) == "aS3N";
  }

  // ---------------------------------------------------------------------------
  // The sorted encoder the examples expect
  // ---------------------------------------------------------------------------

  /** Inserts `x` after every element that `gt` does not put above it, from the right. */
  function InsertBy(gt: (Value, Value) -> bool, s: seq<Value>, x: Value): (r: seq<Value>)
    ensures |r| == |s| + 1
  {
    if s == [] || !gt(s[|s| - 1], x) then s + [x]
    else InsertBy(gt, s[..|s| - 1], x) + [s[|s| - 1]]
  }

  /** A stable insertion sort: an element moves only past elements `gt` puts above it. */
  function SortBy(gt: (Value, Value) -> bool, s: seq<Value>): (r: seq<Value>)
    ensures |r| == |s|
  {
    if s == [] then [] else InsertBy(gt, SortBy(gt, s[..|s| - 1]), s[|s| - 1])
  }

  lemma {:induction false} InsertByPermutes(gt: (Value, Value) -> bool, s: seq<Value>, x: Value)
    ensures multiset(InsertBy(gt, s, x)) == multiset(s) + multiset{x}
  {
    if s != [] && gt(s[|s| - 1], x) {
      var init, last := s[..|s| - 1], s[|s| - 1];
      InsertByPermutes(gt, init, x);
      assert InsertBy(gt, s, x) == InsertBy(gt, init, x) + [last];
      assert multiset(InsertBy(gt, s, x)) == multiset(InsertBy(gt, init, x)) + multiset{last};
      assert s == init + [last];
      assert multiset(s) == multiset(init) + multiset{last};
    }
  }

  /** The sort keeps every element, each as often. */
  lemma {:induction false} SortByPermutes(gt: (Value, Value) -> bool, s: seq<Value>)
    ensures multiset(SortBy(gt, s)) == multiset(s)
  {
    if s != [] {
      var init, last := s[..|s| - 1], s[|s| - 1];
      SortByPermutes(gt, init);
      InsertByPermutes(gt, SortBy(gt, init), last);
      assert SortBy(gt, s) == InsertBy(gt, SortBy(gt, init), last);
      assert s == init + [last];
      assert multiset(s) == multiset(init) + multiset{last};
    }
  }

  /** No element is put above the next one. */
  predicate AdjacentOrdered(gt: (Value, Value) -> bool, s: seq<Value>)
  {
    forall i :: 0 <= i < |s| - 1 ==> !gt(s[i], s[i + 1])
  }

  lemma {:induction false} InsertByOrdered(gt: (Value, Value) -> bool, s: seq<Value>, x: Value)
    requires Asymmetric(gt) && AdjacentOrdered(gt, s)
    ensures AdjacentOrdered(gt, InsertBy(gt, s, x))
  {
    var r := InsertBy(gt, s, x);
    if s == [] || !gt(s[|s| - 1], x) {
      assert r == s + [x];
      forall i | 0 <= i < |r| - 1
        ensures !gt(r[i], r[i + 1])
      {
        if i < |s| - 1 {
          assert r[i] == s[i] && r[i + 1] == s[i + 1];
        }
      }
    } else {
      var init, last := s[..|s| - 1], s[|s| - 1];
      assert AdjacentOrdered(gt, init) by {
        forall i | 0 <= i < |init| - 1
          ensures !gt(init[i], init[i + 1])
        {
          assert init[i] == s[i] && init[i + 1] == s[i + 1];
        }
      }
      InsertByOrdered(gt, init, x);
      var t := InsertBy(gt, init, x);
      assert r == t + [last];
      assert !gt(t[|t| - 1], last) by {
        InsertByLast(gt, init, x);
        if init != [] {
          assert s[|s| - 2] == init[|init| - 1];
        }
      }
      forall i | 0 <= i < |r| - 1
        ensures !gt(r[i], r[i + 1])
      {
        if i < |t| - 1 {
          assert r[i] == t[i] && r[i + 1] == t[i + 1];
        }
      }
    }
  }

  /** Inserting ends with `x` or with the old last element. */
  lemma InsertByLast(gt: (Value, Value) -> bool, s: seq<Value>, x: Value)
    ensures InsertBy(gt, s, x)[|s|] == x || (s != [] && InsertBy(gt, s, x)[|s|] == s[|s| - 1])
  {
  }

  /** The sorted list has no element put above the next one. */
  lemma {:induction false} SortByOrdered(gt: (Value, Value) -> bool, s: seq<Value>)
    requires Asymmetric(gt)
    ensures AdjacentOrdered(gt, SortBy(gt, s))
  {
    if s != [] {
      var init := s[..|s| - 1];
      SortByOrdered(gt, init);
      InsertByOrdered(gt, SortBy(gt, init), s[|s| - 1]);
    }
  }

  /** Every level sorted by `Cmp`, the elements of each array before the array itself. */
  function SortBottomUp(v: Value): (r: Value)
    requires NoAlphanumeric(v)
    ensures NoAlphanumeric(r)
    ensures !v.Array? ==> r == v
    ensures v.Array? ==> r.Array? && |r.elems| == |v.elems|
  {
    match v
    case Array(es) =>
      var elems := SortedElements(es);
      SortByPermutes(CmpGreater, elems);
      assert forall e | e in SortBy(CmpGreater, elems) :: e in multiset(elems);
      Array(SortBy(CmpGreater, elems))
    case _ => v
  }

  function SortedElements(es: seq<Value>): (r: seq<Value>)
    requires AllComparable(es)
    ensures AllComparable(r)
    ensures |r| == |es|
  {
    seq(|es|, i requires 0 <= i < |es| => SortBottomUp(es[i]))
  }

  /** At every level, the sorted elements are those of the input, each sorted itself. */
  lemma SortBottomUpPermutes(es: seq<Value>)
    requires AllComparable(es)
    ensures NoAlphanumeric(Array(es))
    ensures multiset(SortBottomUp(Array(es)).elems) == multiset(SortedElements(es))
    ensures AdjacentOrdered(CmpGreater, SortBottomUp(Array(es)).elems)
  {
    SortByPermutes(CmpGreater, SortedElements(es));
    CmpGreaterAsymmetric();
    SortByOrdered(CmpGreater, SortedElements(es));
  }

  /** The elements of `s` that satisfy `P`, in their order in `s`. */
  function Filter(P: Value -> bool, s: seq<Value>): (r: seq<Value>)
    ensures |r| <= |s|
  {
    if s == [] then [] else Filter(P, s[..|s| - 1]) + (if P(s[|s| - 1]) then [s[|s| - 1]] else [])
  }

  /** Inserting changes the elements `P` picks out only by appending `x` when `P` picks it. */
  lemma {:induction false} InsertByFilter(gt: (Value, Value) -> bool, P: Value -> bool, s: seq<Value>, x: Value)
    requires forall a, b :: P(a) && P(b) ==> !gt(a, b)
    ensures Filter(P, InsertBy(gt, s, x)) == Filter(P, s) + (if P(x) then [x] else [])
  {
    if s == [] || !gt(s[|s| - 1], x) {
      FilterSnoc(P, s, x);
    } else {
      var init, last := s[..|s| - 1], s[|s| - 1];
      InsertByFilter(gt, P, init, x);
      FilterSnoc(P, InsertBy(gt, init, x), last);
      assert !(P(last) && P(x));
    }
  }

  lemma FilterSnoc(P: Value -> bool, t: seq<Value>, x: Value)
    ensures Filter(P, t + [x]) == Filter(P, t) + (if P(x) then [x] else [])
  {
    assert (t + [x])[..|t|] == t;
  }

  /**
   * Stability: when `gt` never puts one element `P` picks out above another,
   * those elements keep their relative order.
   */
  lemma {:induction false} SortByFilter(gt: (Value, Value) -> bool, P: Value -> bool, s: seq<Value>)
    requires forall a, b :: P(a) && P(b) ==> !gt(a, b)
    ensures Filter(P, SortBy(gt, s)) == Filter(P, s)
  {
    if s != [] {
      SortByFilter(gt, P, s[..|s| - 1]);
      InsertByFilter(gt, P, SortBy(gt, s[..|s| - 1]), s[|s| - 1]);
    }
  }

  /** Picks out the values, arrays included, whose text is `t`: any two of them compare `Equal`. */
  function DisplaysAs(t: string): Value -> bool
  {
    (e: Value) => NoAlphanumeric(e) && Display(e) == t
  }

  /** Picks out the arrays: any two of them compare `Equal`. */
  function IsArray(): Value -> bool
  {
    (e: Value) => e.Array?
  }

  /**
   * At every level, values that compare `Equal` keep the order the sorted
   * elements had: the values with any one text, and the arrays.
   */
  lemma SortBottomUpStable(es: seq<Value>, t: string)
    requires AllComparable(es)
    ensures NoAlphanumeric(Array(es))
    ensures Filter(DisplaysAs(t), SortBottomUp(Array(es)).elems) == Filter(DisplaysAs(t), SortedElements(es))
    ensures Filter(IsArray(), SortBottomUp(Array(es)).elems) == Filter(IsArray(), SortedElements(es))
  {
    forall a, b | DisplaysAs(t)(a) && DisplaysAs(t)(b)
      ensures !CmpGreater(a, b)
    {
      CompareStringsEqual(Display(a), Display(b));
    }
    SortByFilter(CmpGreater, DisplaysAs(t), SortedElements(es));
    SortByFilter(CmpGreater, IsArray(), SortedElements(es));
  }

  /** Picks out the two values `a` and `b`. */
  function OneOf(a: Value, b: Value): Value -> bool
  {
    (e: Value) => e == a || e == b
  }

  /** Any two values that compare `Equal` keep the order the sorted elements had. */
  lemma SortBottomUpKeepsEqual(es: seq<Value>, a: Value, b: Value)
    requires AllComparable(es) && Comparable(a, b) && Cmp(a, b) == Equal
    ensures NoAlphanumeric(Array(es))
    ensures Filter(OneOf(a, b), SortBottomUp(Array(es)).elems) == Filter(OneOf(a, b), SortedElements(es))
  {
    CmpAntisymmetric(a, b);
    forall x, y | OneOf(a, b)(x) && OneOf(a, b)(y)
      ensures !CmpGreater(x, y)
    {
    }
    SortByFilter(CmpGreater, OneOf(a, b), SortedElements(es));
  }

  /** The notation of the bottom-up sorted value: what the list examples expect. */
  function NotateSorted(v: Value): (r: string)
    requires NoAlphanumeric(v)
    ensures r != [] && r[|r| - 1] == Tag(v)
  {
    NotateEndsWithTag(SortBottomUp(v));
    Notate(SortBottomUp(v))
  }

  // ---------------------------------------------------------------------------
  // The list examples, against the sorted encoder
  // ---------------------------------------------------------------------------

  /** Notating a list is notating its head, then its tail. */
  lemma NotateCons(x: Value, rest: seq<Value>)
    ensures NotateItems([x] + rest) == Notate(x) + NotateItems(rest)
  {
    assert ([x] + rest)[1..] == rest;
  }

  lemma NotateItemsThree(x: Value, y: Value, z: Value)
    ensures NotateItems([x, y, z]) == Notate(x) + (Notate(y) + Notate(z))
  {
    NotateCons(z, []);
    assert [z] + [] == [z];
    NotateCons(y, [z]);
    assert [y] + [z] == [y, z];
    NotateCons(x, [y, z]);
    assert [x] + [y, z] == [x, y, z];
  }

  lemma NotateThree(x: Value, y: Value, z: Value)
    ensures NotateSeq([x, y, z]) == Notate(x) + (Notate(y) + Notate(z)) + "A"
  {
    NotateItemsThree(x, y, z);
  }

  lemma NotateFour(w: Value, x: Value, y: Value, z: Value)
    ensures NotateSeq([w, x, y, z]) == Notate(w) + (Notate(x) + (Notate(y) + Notate(z))) + "A"
  {
    NotateItemsThree(x, y, z);
    NotateCons(w, [x, y, z]);
    assert [w] + [x, y, z] == [w, x, y, z];
  }

  /** The elements of a list without arrays are left as they are before the list is sorted. */
  lemma SortedElementsFlat(es: seq<Value>)
    requires AllComparable(es)
    requires forall i :: 0 <= i < |es| ==> !es[i].Array?
    ensures SortedElements(es) == es
  {
  }

  lemma SortedElementsThree(x: Value, y: Value, z: Value)
    requires NoAlphanumeric(x) && NoAlphanumeric(y) && NoAlphanumeric(z)
    ensures SortedElements([x, y, z]) == [SortBottomUp(x), SortBottomUp(y), SortBottomUp(z)]
  {
  }

  /** Two elements, the first above the second, are swapped. */
  lemma SortSwapTwo(gt: (Value, Value) -> bool, x: Value, y: Value)
    requires gt(x, y)
    ensures SortBy(gt, [x, y]) == [y, x]
  {
    assert [x, y][..1] == [x] && [x][..0] == [];
    assert SortBy(gt, [x]) == [x];
    assert SortBy(gt, [x, y]) == InsertBy(gt, [x], y);
    assert InsertBy(gt, [x], y) == InsertBy(gt, [], y) + [x];
  }

  /** The pattern of `[1, "a", 3]`. */
  lemma SortLastBetween(gt: (Value, Value) -> bool, x: Value, y: Value, z: Value)
    requires !gt(x, y) && gt(y, z) && !gt(x, z)
    ensures SortBy(gt, [x, y, z]) == [x, z, y]
  {
    assert [x, y, z][..2] == [x, y] && [x, y][..1] == [x] && [x][..0] == [];
    assert SortBy(gt, [x]) == [x];
    assert SortBy(gt, [x, y]) == [x, y];
    assert SortBy(gt, [x, y, z]) == InsertBy(gt, [x, y], z);
    assert InsertBy(gt, [x], z) == [x, z];
  }

  /** The pattern of `["a", 1, [..]]`. */
  lemma SortFirstLast(gt: (Value, Value) -> bool, a: Value, b: Value, c: Value)
    requires gt(a, b) && gt(a, c) && !gt(b, c)
    ensures SortBy(gt, [a, b, c]) == [b, c, a]
  {
    SortSwapTwo(gt, a, b);
    assert [a, b, c][..2] == [a, b] && [b, a][..1] == [b];
    assert SortBy(gt, [a, b, c]) == InsertBy(gt, [b, a], c);
    assert InsertBy(gt, [b], c) == [b, c];
  }

  /** The pattern of `[3, null, 1, "1"]`. */
  lemma SortFirstToEnd(gt: (Value, Value) -> bool, a: Value, b: Value, c: Value, d: Value)
    requires gt(a, b) && gt(a, c) && !gt(b, c)
    requires gt(a, d) && !gt(c, d)
    ensures SortBy(gt, [a, b, c, d]) == [b, c, d, a]
  {
    SortFirstLast(gt, a, b, c);
    assert [a, b, c, d][..3] == [a, b, c] && [b, c, a][..2] == [b, c];
    assert SortBy(gt, [a, b, c, d]) == InsertBy(gt, [b, c, a], d);
    assert InsertBy(gt, [b, c], d) == [b, c, d];
  }

  lemma SortSwapThenKeep(gt: (Value, Value) -> bool, p: Value, q: Value, r: Value)
    requires gt(p, q) && !gt(p, r)
    ensures SortBy(gt, [p, q, r]) == [q, p, r]
  {
    SortSwapTwo(gt, p, q);
    assert [p, q, r][..2] == [p, q];
    assert SortBy(gt, [p, q, r]) == InsertBy(gt, [q, p], r);
  }

  /** Inserting an element that belongs second into a list of three. */
  lemma InsertSecondOfFour(gt: (Value, Value) -> bool, q: Value, p: Value, r: Value, t: Value)
    requires gt(r, t) && gt(p, t) && !gt(q, t)
    ensures InsertBy(gt, [q, p, r], t) == [q, t, p, r]
  {
    assert [q, p, r][..2] == [q, p] && [q, p][..1] == [q];
    assert InsertBy(gt, [q, p, r], t) == InsertBy(gt, [q, p], t) + [r];
    assert InsertBy(gt, [q, p], t) == InsertBy(gt, [q], t) + [p];
    assert InsertBy(gt, [q], t) == [q, t];
  }

  /** The pattern of `["a", "A", "b", "B"]`. */
  lemma SortInterleaved(gt: (Value, Value) -> bool, p: Value, q: Value, r: Value, t: Value)
    requires gt(p, q) && !gt(p, r)
    requires gt(r, t) && gt(p, t) && !gt(q, t)
    ensures SortBy(gt, [p, q, r, t]) == [q, t, p, r]
  {
    SortSwapThenKeep(gt, p, q, r);
    InsertSecondOfFour(gt, q, p, r, t);
    assert [p, q, r, t][..3] == [p, q, r];
  }

  lemma MixedFacts()
    ensures Cmp(Number(1), String("a")) == Less && Cmp(String("a"), Number(3)) == Greater
    ensures Cmp(Number(1), Number(3)) == Less
  {
    assert Display(Number(1)) == "1" && Display(Number(3)) == "3";
  }

  lemma MixedSorted()
    ensures SortBottomUp(Array([Number(1), String("a"), Number(3)])) == Array([Number(1), Number(3), String("a")])
  {
    var x, y, z := Number(1), String("a"), Number(3);
    MixedFacts();
    SortedElementsFlat([x, y, z]);
    SortLastBetween(CmpGreater, x, y, z);
  }

  lemma MixedNotation()
    ensures Notate(Array([Number(1), Number(3), String("a")])) == "1N3NaSA"
  {
    NotateThree(Number(1), Number(3), String("a"));
    assert DecimalText(1) == "1" && DecimalText(3) == "3";
  }

  /** `[1, "a", 3]`: the texts `1`, `a`, `3` order the numbers first. */
  lemma NotateSortedMixed()
    ensures NotateSorted(Array([Number(1), String("a"), Number(3)])) == "1N3NaSA"
  {
    MixedSorted();
    MixedNotation();
  }

  lemma StableFacts()
    ensures Cmp(Number(3), Null) == Greater && Cmp(Number(3), Number(1)) == Greater
    ensures Cmp(Null, Number(1)) == Less
    ensures Cmp(Number(3), String("1")) == Greater && Cmp(Number(1), String("1")) == Equal
  {
    assert Display(Number(1)) == "1" && Display(Number(3)) == "3";
  }

  lemma StableSorted()
    ensures SortBottomUp(Array([Number(3), Null, Number(1), String("1")]))
         == Array([Null, Number(1), String("1"), Number(3)])
  {
    var a, b, c, d := Number(3), Null, Number(1), String("1");
    StableFacts();
    SortedElementsFlat([a, b, c, d]);
    SortFirstToEnd(CmpGreater, a, b, c, d);
  }

  lemma StableNotation()
    ensures Notate(Array([Null, Number(1), String("1"), Number(3)])) == "_1N1S3NA"
  {
    NotateFour(Null, Number(1), String("1"), Number(3));
    assert DecimalText(1) == "1" && DecimalText(3) == "3";
  }

  /** `[3, null, 1, "1"]`: null displays as nothing, and `1` and `"1"` stay in input order. */
  lemma NotateSortedStable()
    ensures NotateSorted(Array([Number(3), Null, Number(1), String("1")])) == "_1N1S3NA"
  {
    StableSorted();
    StableNotation();
  }

  lemma CasingSorted()
    ensures SortBottomUp(Array([String("a"), String("A"), String("b"), String("B")]))
         == Array([String("A"), String("B"), String("a"), String("b")])
  {
    var p, q, r, t := String("a"), String("A"), String("b"), String("B");
    assert Cmp(p, q) == Greater && Cmp(p, r) == Less;
    assert Cmp(r, t) == Greater && Cmp(p, t) == Greater && Cmp(q, t) == Less;
    SortedElementsFlat([p, q, r, t]);
    SortInterleaved(CmpGreater, p, q, r, t);
  }

  lemma CasingNotation()
    ensures Notate(Array([String("A"), String("B"), String("a"), String("b")])) == "ASBSaSbSA"
  {
    NotateFour(String("A"), String("B"), String("a"), String("b"));
  }

  /** `["a", "A", "b", "B"]`: upper-case letters come before lower-case ones. */
  lemma NotateSortedCasing()
    ensures NotateSorted(Array([String("a"), String("A"), String("b"), String("B")])) == "ASBSaSbSA"
  {
    CasingSorted();
    CasingNotation();
  }

  lemma SortedInner()
    ensures SortBottomUp(Array([String("b"), String("2")])) == Array([String("2"), String("b")])
  {
    var x, y := String("b"), String("2");
    assert SortedElements([x, y]) == [x, y];
    assert Cmp(x, y) == Greater;
    SortSwapTwo(CmpGreater, x, y);
  }

  lemma NestedFacts()
    ensures NoAlphanumeric(Array([String("2"), String("b")]))
    ensures Cmp(String("a"), Number(1)) == Greater
    ensures Cmp(String("a"), Array([String("2"), String("b")])) == Greater
    ensures Cmp(Number(1), Array([String("2"), String("b")])) == Less
  {
    assert Display(Number(1)) == "1";
    DisplayCases(0, "2", String("2"));
    DisplayAppend([String("2")], [String("b")]);
    assert [String("2")] + [String("b")] == [String("2"), String("b")];
    assert Display(Array([String("2"), String("b")])) == "2b";
  }

  lemma NestedSorted()
    ensures SortBottomUp(Array([String("a"), Number(1), Array([String("b"), String("2")])]))
         == Array([Number(1), Array([String("2"), String("b")]), String("a")])
  {
    var a, b := String("a"), Number(1);
    var w, w' := Array([String("b"), String("2")]), Array([String("2"), String("b")]);
    SortedInner();
    SortedElementsThree(a, b, w);
    NestedFacts();
    SortFirstLast(CmpGreater, a, b, w');
  }

  lemma NestedNotation()
    ensures Notate(Array([Number(1), Array([String("2"), String("b")]), String("a")])) == "1N2SbSAaSA"
  {
    NotateThree(Number(1), Array([String("2"), String("b")]), String("a"));
    assert [String("2"), String("b")][1..] == [String("b")];
    assert Notate(Array([String("2"), String("b")])) == "2SbSA";
    assert DecimalText(1) == "1";
  }

  /** `["a", 1, ["b", "2"]]`: the inner array is sorted first and then ranked by its text `2b`. */
  lemma NotateSortedNested()
    ensures NotateSorted(Array([String("a"), Number(1), Array([String("b"), String("2")])])) == "1N2SbSAaSA"
  {
    NestedSorted();
    NestedNotation();
  }
}

/**
 * The crate's own value type, its `Display` text and the ordering built on
 * that text.
 *
 * `Display` writes a value's content with no type information: nothing for
 * `Null`, the decimal digits of a number, the characters of a string, and the
 * plain concatenation of an array's elements. It panics on an `Alphanumeric`,
 * so every function that displays a value requires that none occurs in it.
 */
module Values {

  /** Rust's `i32`. */
  newtype i32 = x: int | -0x8000_0000 <= x < 0x8000_0000

  /** Rust's `i64`. */
  newtype i64 = x: int | -0x8000_0000_0000_0000 <= x < 0x8000_0000_0000_0000

  /** The outcome of a comparison. */
  datatype Ordering = Less | Equal | Greater
  {
    /** The outcome with the operands exchanged. */
    function Reverse(): Ordering
    {
      match this
      case Less => Greater
      case Equal => Equal
      case Greater => Less
    }
  }

  datatype Option<T> = None | Some(value: T)

  /** The original datum an `Alphanumeric` was made from. */
  datatype Raw = RawNumber(n: i32) | RawString(s: string)

  /** A datum with its text and flags saying what kind it is. */
  datatype Alphanumeric = Alphanumeric(value: string, raw: Raw, isNumber: bool, isString: bool)

  datatype Value =
    | Null
    | Number(n: i32)
    | Array(elems: seq<Value>)
    | String(s: string)
    | Alpha(a: Alphanumeric)

  // ---------------------------------------------------------------------------
  // Decimal text of an integer
  // ---------------------------------------------------------------------------

  /** The character of a decimal digit. */
  function DigitChar(d: nat): (c: char)
    requires d < 10
    ensures '0' <= c <= '9' && c as int - '0' as int == d
  {
    ('0' as int + d) as char
  }

  /** The decimal digits of a natural number, most significant first, without leading zeros. */
  function Digits(n: nat): (r: string)
    ensures r != []
    ensures forall i :: 0 <= i < |r| ==> '0' <= r[i] <= '9'
    ensures r[0] == '0' ==> n == 0
  {
    if n < 10 then [DigitChar(n)] else Digits(n / 10) + [DigitChar(n % 10)]
  }

  /** The number a string of decimal digits denotes. */
  function DigitsValue(s: string): nat
    requires forall i :: 0 <= i < |s| ==> '0' <= s[i] <= '9'
  {
    if s == [] then 0 else DigitsValue(s[..|s| - 1]) * 10 + (s[|s| - 1] as int - '0' as int)
  }

  /** Reading the digits back gives the number. */
  lemma {:induction false} DigitsRoundTrip(n: nat)
    ensures DigitsValue(Digits(n)) == n
  {
    if n >= 10 {
      DigitsRoundTrip(n / 10);
      var r := Digits(n);
      assert r[..|r| - 1] == Digits(n / 10);
      assert r[|r| - 1] == DigitChar(n % 10);
    }
  }

  /** `to_string` of an integer: an optional minus sign, then its digits. */
  function DecimalText(n: int): (r: string)
    ensures r != []
    ensures r[0] == '-' <==> n < 0
    ensures r[0] == '-' || '0' <= r[0] <= '9'
    ensures forall i :: 0 < i < |r| ==> '0' <= r[i] <= '9'
  {
    if n < 0 then "-" + Digits(-n) else Digits(n)
  }

  /** Reads back what `DecimalText` writes. */
  function ParseDecimal(s: string): int
    requires s != [] && forall i :: 0 < i < |s| ==> '0' <= s[i] <= '9'
    requires s[0] == '-' || '0' <= s[0] <= '9'
  {
    if s[0] == '-' then -(DigitsValue(s[1..]) as int) else DigitsValue(s)
  }

  /** The decimal text of an integer determines it. */
  lemma DecimalRoundTrip(n: int)
    ensures ParseDecimal(DecimalText(n)) == n
  {
    if n < 0 {
      DigitsRoundTrip(-n);
      assert DecimalText(n)[1..] == Digits(-n);
    } else {
      DigitsRoundTrip(n);
    }
  }

  lemma DecimalTextInjective(m: int, n: int)
    requires DecimalText(m) == DecimalText(n)
    ensures m == n
  {
    DecimalRoundTrip(m);
    DecimalRoundTrip(n);
  }

  // ---------------------------------------------------------------------------
  // Display
  // ---------------------------------------------------------------------------

  /** No `Alphanumeric` occurs anywhere in the value. */
  predicate NoAlphanumeric(v: Value)
  {
    match v
    case Alpha(_) => false
    case Array(es) => forall e | e in es :: NoAlphanumeric(e)
    case _ => true
  }

  /** `impl Display for Value`. */
  function Display(v: Value): (r: string)
    requires NoAlphanumeric(v)
    ensures !v.Array? ==> (r == "" <==> v.Null? || v == String(""))
  {
    match v
    case Null => ""
    case Number(n) => DecimalText(n as int)
    case String(s) => s
    case Array(es) => DisplayAll(es)
  }

  /** The fold over an array's elements, appending each one's text to the accumulator. */
  function DisplayAll(es: seq<Value>): (r: string)
    requires forall e | e in es :: NoAlphanumeric(e)
    ensures |es| == 1 ==> r == Display(es[0])
  {
    if es == [] then "" else DisplayAll(es[..|es| - 1]) + Display(es[|es| - 1])
  }

  /** An array's text is the plain concatenation of its parts' texts. */
  lemma {:induction false} DisplayAppend(xs: seq<Value>, ys: seq<Value>)
    requires NoAlphanumeric(Array(xs)) && NoAlphanumeric(Array(ys))
    ensures NoAlphanumeric(Array(xs + ys))
    ensures Display(Array(xs + ys)) == Display(Array(xs)) + Display(Array(ys))
  {
    if ys == [] {
      assert xs + ys == xs;
    } else {
      var init := ys[..|ys| - 1];
      assert (xs + ys)[..|xs + ys| - 1] == xs + init;
      DisplayAppend(xs, init);
    }
  }

  /** The base cases of `Display`, and an array's text with neither brackets nor separators. */
  lemma DisplayCases(n: i32, s: string, x: Value)
    requires NoAlphanumeric(x)
    ensures ParseDecimal(Display(Number(n))) == n as int
    ensures Display(String(s)) == s
    ensures Display(Null) == "" && Display(Array([])) == ""
    ensures Display(Array([x])) == Display(x)
  {
    DecimalRoundTrip(n as int);
    assert [x][..0] == [];
  }

  // ---------------------------------------------------------------------------
  // Ordering
  // ---------------------------------------------------------------------------

  /** `String::cmp`: character by character, a proper prefix being smaller. */
  function CompareStrings(a: string, b: string): (r: Ordering)
    ensures a < b ==> r == Less
    ensures b < a ==> r == Greater
  {
    if a == [] && b == [] then Equal
    else if a == [] then Less
    else if b == [] then Greater
    else if a[0] < b[0] then Less
    else if b[0] < a[0] then Greater
    else CompareStrings(a[1..], b[1..])
  }

  lemma {:induction false} CompareStringsReverse(a: string, b: string)
    ensures CompareStrings(b, a) == CompareStrings(a, b).Reverse()
  {
    if a != [] && b != [] && a[0] == b[0] {
      CompareStringsReverse(a[1..], b[1..]);
    }
  }

  lemma {:induction false} CompareStringsEqual(a: string, b: string)
    ensures CompareStrings(a, b) == Equal <==> a == b
  {
    if a != [] && b != [] && a[0] == b[0] {
      CompareStringsEqual(a[1..], b[1..]);
      assert a == [a[0]] + a[1..];
      assert b == [b[0]] + b[1..];
    }
  }

  /** The empty string is smaller than every other string. */
  lemma EmptyStringSmallest(b: string)
    ensures CompareStrings("", b) != Greater
    ensures CompareStrings("", b) == Equal <==> b == ""
  {
  }

  /** The first position where the strings differ decides, whatever follows it. */
  lemma {:induction false} CompareStringsAt(a: string, b: string, k: nat)
    requires k < |a| && k < |b| && a[..k] == b[..k] && a[k] < b[k]
    ensures CompareStrings(a, b) == Less
    ensures CompareStrings(b, a) == Greater
  {
    if k > 0 {
      assert a[0] == a[..k][0] && b[0] == b[..k][0];
      assert a[1..][..k - 1] == a[..k][1..];
      assert b[1..][..k - 1] == b[..k][1..];
      CompareStringsAt(a[1..], b[1..], k - 1);
    }
  }

  /** Both operands can be compared without displaying an `Alphanumeric`. */
  predicate Comparable(a: Value, b: Value)
  {
    (a.Array? && b.Array?) || (NoAlphanumeric(a) && NoAlphanumeric(b))
  }

  /** `impl Ord for Value`: two arrays are equal, anything else compares by its text. */
  function Cmp(a: Value, b: Value): (r: Ordering)
    requires Comparable(a, b)
    ensures a == b ==> r == Equal
  {
    if a.Array? && b.Array? then Equal
    else
      CompareStringsEqual(Display(a), Display(b));
      CompareStrings(Display(a), Display(b))
  }

  /** `impl PartialOrd for Value`: always defined, and agrees with `Cmp`. */
  function PartialCmp(a: Value, b: Value): (r: Option<Ordering>)
    requires Comparable(a, b)
    ensures r.Some? && r.value == Cmp(a, b)
  {
    Some(Cmp(a, b))
  }

  /** Exchanging the operands reverses the outcome. */
  lemma CmpAntisymmetric(a: Value, b: Value)
    requires Comparable(a, b)
    ensures Cmp(b, a) == Cmp(a, b).Reverse()
  {
    if !(a.Array? && b.Array?) {
      CompareStringsReverse(Display(a), Display(b));
    }
  }

  /** Two values are equal under `Cmp` exactly when both are arrays or their texts agree. */
  lemma CmpEqualIff(a: Value, b: Value)
    requires Comparable(a, b)
    ensures Cmp(a, b) == Equal <==> (a.Array? && b.Array?) || Display(a) == Display(b)
  {
    if !(a.Array? && b.Array?) {
      CompareStringsEqual(Display(a), Display(b));
    }
  }

  /** Any two arrays are equal, whatever they hold. */
  lemma CmpArraysEqual(xs: seq<Value>, ys: seq<Value>)
    ensures Cmp(Array(xs), Array(ys)) == Equal
  {
  }

  /** The type is not part of the comparison: `1` and `"1"` are equal. */
  lemma CmpNumberString()
    ensures Cmp(Number(1), String("1")) == Equal
  {
    assert Display(Number(1)) == "1";
  }

  /** `Null` displays as the empty text, so it is never greater than anything. */
  lemma CmpNullNotGreater(x: Value)
    requires NoAlphanumeric(x)
    ensures Cmp(Null, x) != Greater
    ensures Cmp(Null, x) == Equal <==> Display(x) == ""
  {
    EmptyStringSmallest(Display(x));
  }

  /** Every element can be compared with every other without a panic. */
  predicate AllComparable(s: seq<Value>)
  {
    forall e | e in s :: NoAlphanumeric(e)
  }

  /** `Cmp` says `Greater`; never so for two values it cannot compare. */
  predicate CmpGreater(a: Value, b: Value)
  {
    Comparable(a, b) && Cmp(a, b) == Greater
  }

  /** Never both `a` above `b` and `b` above `a`. */
  ghost predicate Asymmetric(gt: (Value, Value) -> bool)
  {
    forall a, b :: gt(a, b) ==> !gt(b, a)
  }

  /** `Cmp` reverses with its operands, so `CmpGreater` is asymmetric. */
  lemma CmpGreaterAsymmetric()
    ensures Asymmetric(CmpGreater)
  {
    forall a, b | CmpGreater(a, b)
      ensures !CmpGreater(b, a)
    {
      CmpAntisymmetric(a, b);
    }
  }

  /** `Cmp` is not transitive once arrays are mixed with other values. */
  lemma CmpNotTransitive()
    ensures Cmp(Array([String("a")]), String("b")) == Less
    ensures Cmp(String("b"), Array([String("c")])) == Less
    ensures Cmp(Array([String("a")]), Array([String("c")])) == Equal
  {
    DisplayCases(0, "a", String("a"));
    DisplayCases(0, "c", String("c"));
  }
}

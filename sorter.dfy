/**
 * The bottom-up canonical sorter: every array, at every depth reached through
 * arrays, is stably sorted by an ordering key after its own elements have been
 * sorted. Objects, and whatever they contain, are left as they are.
 */
module Sorter {
  import opened Json

  // ---------------------------------------------------------------------------
  // The ordering key
  // ---------------------------------------------------------------------------

  /** Rust's `{:?}` formatting of a string: between double quotes, with `"` and `\` escaped. */
  function DebugQuoted(t: string): (r: string)
    ensures |r| >= |t| + 2 && r[0] == '"' && r[|r| - 1] == '"'
  {
    "\"" + DebugEscape(t) + "\""
  }

  /** The escaping `{:?}` applies: a backslash before every `"` and every `\`. */
  function DebugEscape(t: string): (r: string)
    ensures |r| >= |t|
    ensures |r| == |t| <==> Plain(t)
  {
    if t == [] then []
    else
      PlainCons(t);
      (if t[0] == '"' || t[0] == '\\' then ['\\', t[0]] else [t[0]]) + DebugEscape(t[1..])
  }

  /**
   * The text an element is ranked by: the raw content of a string, the minified
   * JSON of an array, and the JSON of anything else formatted with `{:?}`.
   */
  function Normalise(v: JValue): (r: string)
    ensures v.JArray? ==> |r| >= 2 && r[0] == '[' && r[|r| - 1] == ']'
    ensures !v.JString? && !v.JArray? ==> |r| >= 2 && r[0] == '"' && r[|r| - 1] == '"'
  {
    match v
    case JString(s) => s
    case JArray(_) => ToJson(v)
    case _ => DebugQuoted(ToJson(v))
  }

  /** One byte per character: the low 8 bits of its code point. */
  function Bytes(s: string): (r: seq<int>)
    ensures |r| == |s|
    ensures forall i :: 0 <= i < |r| ==> 0 <= r[i] < 256
    ensures forall i :: 0 <= i < |s| && s[i] as int < 256 ==> r[i] == s[i] as int
  {
    seq(|s|, i requires 0 <= i < |s| => s[i] as int % 256)
  }

  /** The byte key an array element is sorted by. */
  function Key(v: JValue): (r: seq<int>)
    ensures forall i :: 0 <= i < |r| ==> 0 <= r[i] < 256
  {
    Bytes(Normalise(v))
  }

  /**
   * Byte-sequence order (`Vec<u8>::cmp` is not `Greater`): the first byte that
   * differs decides, and a proper prefix is smaller.
   */
  predicate LexLe(a: seq<int>, b: seq<int>)
    ensures a <= b ==> LexLe(a, b)
    ensures LexLe(a, b) && a != [] ==> b != [] && a[0] <= b[0]
  {
    a == [] || (b != [] && (a[0] < b[0] || (a[0] == b[0] && LexLe(a[1..], b[1..]))))
  }

  /** The strict byte-sequence order. */
  predicate LexLt(a: seq<int>, b: seq<int>)
    ensures a < b ==> LexLt(a, b)
  {
    LexLe(a, b) && a != b
  }

  lemma {:induction false} LexLeReflexive(a: seq<int>)
    ensures LexLe(a, a)
  {
    if a != [] {
      LexLeReflexive(a[1..]);
    }
  }

  lemma {:induction false} LexLeTotal(a: seq<int>, b: seq<int>)
    ensures LexLe(a, b) || LexLe(b, a)
  {
    if a != [] && b != [] && a[0] == b[0] {
      LexLeTotal(a[1..], b[1..]);
    }
  }

  lemma {:induction false} LexLeTransitive(a: seq<int>, b: seq<int>, c: seq<int>)
    requires LexLe(a, b) && LexLe(b, c)
    ensures LexLe(a, c)
  {
    if a != [] && b != [] && c != [] && a[0] == b[0] && b[0] == c[0] {
      LexLeTransitive(a[1..], b[1..], c[1..]);
    }
  }

  lemma {:induction false} LexLeAntisymmetric(a: seq<int>, b: seq<int>)
    requires LexLe(a, b) && LexLe(b, a)
    ensures a == b
  {
    if a != [] && b != [] {
      LexLeAntisymmetric(a[1..], b[1..]);
      assert a == [a[0]] + a[1..];
      assert b == [b[0]] + b[1..];
    }
  }

  /** A proper prefix is strictly smaller. */
  lemma {:induction false} LexPrefixSmaller(p: seq<int>, q: seq<int>)
    requires q != []
    ensures LexLt(p, p + q)
  {
    if p != [] {
      LexPrefixSmaller(p[1..], q);
      assert (p + q)[1..] == p[1..] + q;
    }
  }

  /** Text with no `"` and no `\`, which `{:?}` leaves as it is. */
  predicate Plain(t: string)
  {
    forall i :: 0 <= i < |t| ==> t[i] != '"' && t[i] != '\\'
  }

  lemma PlainCons(t: string)
    requires t != []
    ensures Plain(t) <==> t[0] != '"' && t[0] != '\\' && Plain(t[1..])
  {
    assert forall i :: 0 <= i < |t[1..]| ==> t[1..][i] == t[i + 1];
  }

  lemma {:induction false} DebugEscapePlain(t: string)
    requires Plain(t)
    ensures DebugEscape(t) == t
  {
    if t != [] {
      assert Plain(t[1..]) by {
        forall i | 0 <= i < |t[1..]| ensures t[1..][i] != '"' && t[1..][i] != '\\' {
          assert t[1..][i] == t[i + 1];
        }
      }
      DebugEscapePlain(t[1..]);
      assert t == [t[0]] + t[1..];
    }
  }

  /** The conversion works character by character. */
  lemma BytesAppend(s: string, t: string)
    ensures Bytes(s + t) == Bytes(s) + Bytes(t)
  {
    assert forall i :: 0 <= i < |s + t| ==> (s + t)[i] == if i < |s| then s[i] else t[i - |s|];
  }

  /** On text whose code points are all below 256 nothing is lost: the bytes determine the text. */
  lemma BytesInjective(s: string, t: string)
    requires forall i :: 0 <= i < |s| ==> s[i] as int < 256
    requires forall i :: 0 <= i < |t| ==> t[i] as int < 256
    requires Bytes(s) == Bytes(t)
    ensures s == t
  {
    assert |s| == |Bytes(s)| == |Bytes(t)| == |t|;
    forall i | 0 <= i < |s|
      ensures s[i] == t[i]
    {
      assert Bytes(s)[i] == Bytes(t)[i];
    }
  }

  /** A number whose literal text is plain ranks by that text in double quotes. */
  lemma NumberKey(t: string)
    requires Plain(t)
    ensures Key(JNumber(t)) == [0x22] + Bytes(t) + [0x22]
  {
    DebugEscapePlain(t);
    var n := Normalise(JNumber(t));
    assert n == "\"" + t + "\"";
    var k, e := Key(JNumber(t)), [0x22] + Bytes(t) + [0x22];
    assert |k| == |n| == |e|;
    forall i | 0 <= i < |k|
      ensures k[i] == e[i]
    {
      if 0 < i <= |t| {
        assert n[i] == t[i - 1];
      }
    }
  }

  /** Null, booleans, numbers and objects rank by their JSON text in double quotes. */
  lemma QuotedKeyStart(v: JValue)
    requires !v.JString? && !v.JArray?
    ensures |Key(v)| >= 2 && Key(v)[0] == 0x22 && Key(v)[|Key(v)| - 1] == 0x22
  {
    var t := "\"" + DebugEscape(ToJson(v)) + "\"";
    assert Normalise(v) == t by {
      match v
      case JNull =>
      case JBool(_) =>
      case JNumber(_) =>
      case JObject(_) =>
    }
    QuotedBytes(DebugEscape(ToJson(v)));
  }

  lemma QuotedBytes(e: string)
    ensures var b := Bytes("\"" + e + "\""); |b| >= 2 && b[0] == 0x22 && b[|b| - 1] == 0x22
  {
    var t := "\"" + e + "\"";
    assert t[0] == '"' && t[|t| - 1] == '"';
  }

  /** An array ranks by its minified JSON, which opens with `[`. */
  lemma ArrayKeyStart(v: JValue)
    requires v.JArray?
    ensures |Key(v)| >= 2 && Key(v)[0] == 0x5B
  {
    assert Normalise(v)[0] == '[';
  }

  /** Hence a number (or null, boolean, object) sorts before any array. */
  lemma QuotedBeforeArray(x: JValue, y: JValue)
    requires !x.JString? && !x.JArray? && y.JArray?
    ensures LexLt(Key(x), Key(y))
  {
    QuotedKeyStart(x);
    ArrayKeyStart(y);
  }

  /** An array sorts before any string that starts with a lower-case letter. */
  lemma ArrayBeforeLowercase(y: JValue, s: string)
    requires y.JArray? && s != [] && 'a' <= s[0] <= 'z'
    ensures LexLt(Key(y), Key(JString(s)))
  {
    ArrayKeyStart(y);
  }

  /** ... but after any string that starts with an upper-case letter. */
  lemma UppercaseBeforeArray(s: string, y: JValue)
    requires y.JArray? && s != [] && 'A' <= s[0] <= 'Z'
    ensures LexLt(Key(JString(s)), Key(y))
  {
    ArrayKeyStart(y);
  }

  /** The quotes keep a number apart from the string with the same text. */
  lemma NumberStringKeysDiffer(t: string)
    ensures Key(JNumber(t)) != Key(JString(t))
  {
    assert |Key(JNumber(t))| == |DebugEscape(t)| + 2;
  }

  /** A string that spells an array's JSON shares that array's key. */
  lemma StringArrayKeyCollision()
    ensures Key(JString("[]")) == Key(JArray([]))
  {
    assert Normalise(JArray([])) == "[]";
  }

  /** A string that spells a number's `{:?}` text shares that number's key. */
  lemma StringNumberKeyCollision()
    ensures Key(JString("\"1\"")) == Key(JNumber("1"))
  {
    assert Normalise(JNumber("1")) == "\"1\"";
  }

  /** Characters whose code points agree in the low 8 bits share a key. */
  lemma WideCharKeyCollision()
    ensures Key(JString("\U{0161}")) == Key(JString("a"))
  {
  }

  /** Two plain numbers rank by the first characters of their texts when those differ. */
  lemma NumberKeyLt(t: string, u: string)
    requires Plain(t) && Plain(u) && t != [] && u != []
    requires t[0] as int % 256 < u[0] as int % 256
    ensures LexLt(Key(JNumber(t)), Key(JNumber(u)))
  {
    NumberKey(t);
    NumberKey(u);
    var a, b := Key(JNumber(t)), Key(JNumber(u));
    assert a[0] == b[0] == 0x22;
    assert a[1..][0] == t[0] as int % 256 && b[1..][0] == u[0] as int % 256;
    assert a[1] != b[1];
  }

  /** Two strings rank by their first bytes when those differ. */
  lemma StringKeyLt(s: string, t: string)
    requires s != [] && t != [] && s[0] as int % 256 < t[0] as int % 256
    ensures LexLt(Key(JString(s)), Key(JString(t)))
  {
    var a, b := Key(JString(s)), Key(JString(t));
    assert a[0] == s[0] as int % 256 && b[0] == t[0] as int % 256;
    assert a[0] != b[0];
  }

  /** The first byte where two keys differ decides. */
  lemma {:induction false} LexLtAt(a: seq<int>, b: seq<int>, k: nat)
    requires k < |a| && k < |b| && a[..k] == b[..k] && a[k] < b[k]
    ensures LexLt(a, b)
  {
    if k > 0 {
      assert a[0] == a[..k][0] == b[..k][0] == b[0];
      assert a[1..][..k - 1] == a[1..k] == a[..k][1..];
      assert b[1..][..k - 1] == b[1..k] == b[..k][1..];
      LexLtAt(a[1..], b[1..], k - 1);
      assert a[1..] != b[1..];
    }
  }

  // ---------------------------------------------------------------------------
  // One level: the stable sort of an array's elements by a byte key
  // ---------------------------------------------------------------------------

  /** The elements are in non-decreasing key order. */
  predicate KeysOrdered(key: JValue -> seq<int>, s: seq<JValue>)
  {
    forall i, j :: 0 <= i < j < |s| ==> LexLe(key(s[i]), key(s[j]))
  }

  /** Inserts `x` after every element whose key is not greater than its own. */
  function InsertByKey(key: JValue -> seq<int>, s: seq<JValue>, x: JValue): (r: seq<JValue>)
    ensures |r| == |s| + 1
  {
    if s == [] || LexLe(key(s[|s| - 1]), key(x)) then s + [x]
    else InsertByKey(key, s[..|s| - 1], x) + [s[|s| - 1]]
  }

  /**
   * The stable sort `arr.sort_by` performs when it compares the elements'
   * keys, written as an insertion sort.
   */
  function SortByKey(key: JValue -> seq<int>, s: seq<JValue>): (r: seq<JValue>)
    ensures |r| == |s|
  {
    if s == [] then []
    else InsertByKey(key, SortByKey(key, s[..|s| - 1]), s[|s| - 1])
  }

  lemma {:induction false} InsertByKeyPermutes(key: JValue -> seq<int>, s: seq<JValue>, x: JValue)
    ensures multiset(InsertByKey(key, s, x)) == multiset(s) + multiset{x}
  {
    if s != [] && !LexLe(key(s[|s| - 1]), key(x)) {
      InsertByKeyPermutes(key, s[..|s| - 1], x);
      assert s == s[..|s| - 1] + [s[|s| - 1]];
    }
  }

  /** The sorted level holds the same elements, each as often. */
  lemma {:induction false} SortByKeyPermutes(key: JValue -> seq<int>, s: seq<JValue>)
    ensures multiset(SortByKey(key, s)) == multiset(s)
  {
    if s != [] {
      SortByKeyPermutes(key, s[..|s| - 1]);
      InsertByKeyPermutes(key, SortByKey(key, s[..|s| - 1]), s[|s| - 1]);
      assert s == s[..|s| - 1] + [s[|s| - 1]];
    }
  }

  /** No key in `s` is above `b`. */
  predicate AllKeysLe(key: JValue -> seq<int>, s: seq<JValue>, b: JValue)
  {
    forall i :: 0 <= i < |s| ==> LexLe(key(s[i]), key(b))
  }

  /** A key-ordered sequence stays ordered when an element no key is above is appended. */
  lemma OrderedSnoc(key: JValue -> seq<int>, t: seq<JValue>, last: JValue)
    requires KeysOrdered(key, t) && AllKeysLe(key, t, last)
    ensures KeysOrdered(key, t + [last])
  {
    var r := t + [last];
    forall i, j | 0 <= i < j < |r|
      ensures LexLe(key(r[i]), key(r[j]))
    {
      assert r[i] == t[i];
      if j < |t| {
        assert r[j] == t[j];
      }
    }
  }

  /** Inserting below `last` an element whose key is not above its own keeps every key below it. */
  lemma InsertByKeyLe(key: JValue -> seq<int>, s: seq<JValue>, x: JValue, last: JValue)
    requires AllKeysLe(key, s, last) && LexLe(key(x), key(last))
    ensures AllKeysLe(key, InsertByKey(key, s, x), last)
  {
    var t := InsertByKey(key, s, x);
    InsertByKeyPermutes(key, s, x);
    forall k | 0 <= k < |t|
      ensures LexLe(key(t[k]), key(last))
    {
      assert t[k] in multiset(t);
      if t[k] != x {
        assert t[k] in multiset(s);
        var i :| 0 <= i < |s| && s[i] == t[k];
      }
    }
  }

  lemma {:induction false} InsertByKeyOrdered(key: JValue -> seq<int>, s: seq<JValue>, x: JValue)
    requires KeysOrdered(key, s)
    ensures KeysOrdered(key, InsertByKey(key, s, x))
  {
    if s == [] || LexLe(key(s[|s| - 1]), key(x)) {
      forall i | 0 <= i < |s|
        ensures LexLe(key(s[i]), key(x))
      {
        if i < |s| - 1 {
          LexLeTransitive(key(s[i]), key(s[|s| - 1]), key(x));
        }
      }
      OrderedSnoc(key, s, x);
    } else {
      var init, last := s[..|s| - 1], s[|s| - 1];
      assert KeysOrdered(key, init) && AllKeysLe(key, init, last) by {
        forall i, j | 0 <= i < j < |init|
          ensures LexLe(key(init[i]), key(init[j]))
        {
          assert init[i] == s[i] && init[j] == s[j];
        }
        forall i | 0 <= i < |init|
          ensures LexLe(key(init[i]), key(last))
        {
          assert init[i] == s[i];
        }
      }
      InsertByKeyOrdered(key, init, x);
      LexLeTotal(key(last), key(x));
      InsertByKeyLe(key, init, x, last);
      OrderedSnoc(key, InsertByKey(key, init, x), last);
    }
  }

  /** The sorted level is in key order. */
  lemma {:induction false} SortByKeyOrdered(key: JValue -> seq<int>, s: seq<JValue>)
    ensures KeysOrdered(key, SortByKey(key, s))
  {
    if s != [] {
      SortByKeyOrdered(key, s[..|s| - 1]);
      InsertByKeyOrdered(key, SortByKey(key, s[..|s| - 1]), s[|s| - 1]);
    }
  }

  /** The elements of `s` whose key is `k`, in their order in `s`. */
  function WithKey(key: JValue -> seq<int>, s: seq<JValue>, k: seq<int>): seq<JValue>
  {
    if s == [] then []
    else WithKey(key, s[..|s| - 1], k) + (if key(s[|s| - 1]) == k then [s[|s| - 1]] else [])
  }

  lemma {:induction false} WithKeyAppend(key: JValue -> seq<int>, s: seq<JValue>, t: seq<JValue>, k: seq<int>)
    ensures WithKey(key, s + t, k) == WithKey(key, s, k) + WithKey(key, t, k)
  {
    if t == [] {
      assert s + t == s;
    } else {
      var init := t[..|t| - 1];
      assert (s + t)[..|s + t| - 1] == s + init;
      WithKeyAppend(key, s, init, k);
    }
  }

  /** The elements with key `k` in `t + [last]` and in `t + [last] + [x]`, with `x`'s key not `last`'s. */
  lemma WithKeyPassed(key: JValue -> seq<int>, t: seq<JValue>, r: seq<JValue>, last: JValue, x: JValue, k: seq<int>)
    requires key(last) != key(x)
    requires WithKey(key, r, k) == WithKey(key, t, k) + (if key(x) == k then [x] else [])
    ensures WithKey(key, r + [last], k) == WithKey(key, t + [last], k) + (if key(x) == k then [x] else [])
  {
    WithKeyAppend(key, r, [last], k);
    WithKeyAppend(key, t, [last], k);
    assert [last][..0] == [];
  }

  lemma {:induction false} InsertByKeyWithKey(key: JValue -> seq<int>, s: seq<JValue>, x: JValue, k: seq<int>)
    ensures WithKey(key, InsertByKey(key, s, x), k) == WithKey(key, s, k) + (if key(x) == k then [x] else [])
  {
    if s == [] || LexLe(key(s[|s| - 1]), key(x)) {
      assert (s + [x])[..|s|] == s;
    } else {
      var init, last := s[..|s| - 1], s[|s| - 1];
      LexLeReflexive(key(x));
      InsertByKeyWithKey(key, init, x, k);
      WithKeyPassed(key, init, InsertByKey(key, init, x), last, x, k);
      assert s == init + [last];
    }
  }

  /** Stability: the elements sharing one key keep their relative order. */
  lemma {:induction false} SortByKeyStable(key: JValue -> seq<int>, s: seq<JValue>, k: seq<int>)
    ensures WithKey(key, SortByKey(key, s), k) == WithKey(key, s, k)
  {
    if s != [] {
      SortByKeyStable(key, s[..|s| - 1], k);
      InsertByKeyWithKey(key, SortByKey(key, s[..|s| - 1]), s[|s| - 1], k);
    }
  }

  /** Sorting a level that is already in key order changes nothing. */
  lemma {:induction false} SortByKeyOfOrdered(key: JValue -> seq<int>, s: seq<JValue>)
    requires KeysOrdered(key, s)
    ensures SortByKey(key, s) == s
  {
    if s != [] {
      SortByKeyOfOrdered(key, s[..|s| - 1]);
      assert s[..|s| - 1] + [s[|s| - 1]] == s;
    }
  }

  /** No two elements of `s` that differ share a key. */
  predicate KeysDistinct(key: JValue -> seq<int>, s: seq<JValue>)
  {
    forall i, j :: 0 <= i < |s| && 0 <= j < |s| && key(s[i]) == key(s[j]) ==> s[i] == s[j]
  }

  /** Two ordered arrangements of the same elements, keys distinct, start alike. */
  lemma OrderedSameHead(key: JValue -> seq<int>, a: seq<JValue>, b: seq<JValue>)
    requires KeysOrdered(key, a) && KeysOrdered(key, b) && multiset(a) == multiset(b)
    requires KeysDistinct(key, a)
    requires a != []
    ensures b != [] && a[0] == b[0]
  {
    assert a[0] in multiset(b);
    var j :| 0 <= j < |b| && b[j] == a[0];
    assert b[0] in multiset(a);
    var i :| 0 <= i < |a| && a[i] == b[0];
    if i > 0 {
      assert LexLe(key(a[0]), key(a[i]));
    } else {
      LexLeReflexive(key(a[0]));
    }
    if j > 0 {
      assert LexLe(key(b[0]), key(b[j]));
    } else {
      LexLeReflexive(key(b[0]));
    }
    LexLeAntisymmetric(key(a[0]), key(b[0]));
  }

  /** Permutations of each other that start alike continue as permutations. */
  lemma SameTail(a: seq<JValue>, b: seq<JValue>)
    requires multiset(a) == multiset(b) && a != [] && b != [] && a[0] == b[0]
    ensures multiset(a[1..]) == multiset(b[1..])
  {
    assert a == [a[0]] + a[1..];
    assert b == [b[0]] + b[1..];
    assert multiset(a) == multiset{a[0]} + multiset(a[1..]);
    assert multiset(b) == multiset{b[0]} + multiset(b[1..]);
    assert multiset(a[1..]) == multiset(a) - multiset{a[0]};
    assert multiset(b[1..]) == multiset(b) - multiset{b[0]};
  }

  lemma OrderedTail(key: JValue -> seq<int>, a: seq<JValue>)
    requires KeysOrdered(key, a) && a != []
    ensures KeysOrdered(key, a[1..])
  {
    forall i, j | 0 <= i < j < |a[1..]|
      ensures LexLe(key(a[1..][i]), key(a[1..][j]))
    {
      assert a[1..][i] == a[i + 1] && a[1..][j] == a[j + 1];
    }
  }

  lemma KeysDistinctTail(key: JValue -> seq<int>, a: seq<JValue>)
    requires KeysDistinct(key, a) && a != []
    ensures KeysDistinct(key, a[1..])
  {
    forall i, j | 0 <= i < |a[1..]| && 0 <= j < |a[1..]| && key(a[1..][i]) == key(a[1..][j])
      ensures a[1..][i] == a[1..][j]
    {
      assert a[1..][i] == a[i + 1] && a[1..][j] == a[j + 1];
    }
  }

  /** Two key-ordered arrangements of the same elements, keys distinct, are the same. */
  lemma {:induction false} OrderedUnique(key: JValue -> seq<int>, a: seq<JValue>, b: seq<JValue>)
    requires KeysOrdered(key, a) && KeysOrdered(key, b) && multiset(a) == multiset(b)
    requires KeysDistinct(key, a)
    ensures a == b
  {
    if a == [] {
      assert |b| == |multiset(b)| == 0;
    } else {
      OrderedSameHead(key, a, b);
      SameTail(a, b);
      KeysDistinctTail(key, a);
      OrderedTail(key, a);
      OrderedTail(key, b);
      OrderedUnique(key, a[1..], b[1..]);
      assert a == [a[0]] + a[1..];
      assert b == [b[0]] + b[1..];
    }
  }

  /**
   * When no two different elements share a key, the sorted level depends only
   * on which elements there are, not on their order.
   */
  lemma SortByKeyOrderIndependent(key: JValue -> seq<int>, s: seq<JValue>, t: seq<JValue>)
    requires multiset(s) == multiset(t)
    requires KeysDistinct(key, s)
    ensures SortByKey(key, s) == SortByKey(key, t)
  {
    var a, b := SortByKey(key, s), SortByKey(key, t);
    SortByKeyPermutes(key, s);
    SortByKeyPermutes(key, t);
    SortByKeyOrdered(key, s);
    SortByKeyOrdered(key, t);
    forall i, j | 0 <= i < |a| && 0 <= j < |a| && key(a[i]) == key(a[j])
      ensures a[i] == a[j]
    {
      assert a[i] in multiset(s) && a[j] in multiset(s);
      var i' :| 0 <= i' < |s| && s[i'] == a[i];
      var j' :| 0 <= j' < |s| && s[j'] == a[j];
    }
    OrderedUnique(key, a, b);
  }

  /** An element with key `k` in `s` is an element of `s`, with that key. */
  lemma {:induction false} WithKeyIn(key: JValue -> seq<int>, s: seq<JValue>, k: seq<int>, e: JValue)
    requires e in WithKey(key, s, k)
    ensures e in s && key(e) == k
  {
    var init := s[..|s| - 1];
    if e in WithKey(key, init, k) {
      WithKeyIn(key, init, k, e);
      var i :| 0 <= i < |init| && init[i] == e;
      assert s[i] == e;
    }
  }

  lemma OrderedInit(key: JValue -> seq<int>, a: seq<JValue>)
    requires KeysOrdered(key, a) && a != []
    ensures KeysOrdered(key, a[..|a| - 1])
  {
    var init := a[..|a| - 1];
    forall i, j | 0 <= i < j < |init|
      ensures LexLe(key(init[i]), key(init[j]))
    {
      assert init[i] == a[i] && init[j] == a[j];
    }
  }

  /** The last element of a key-ordered sequence has the greatest key of any of its elements. */
  lemma OrderedLastGreatest(key: JValue -> seq<int>, a: seq<JValue>, e: JValue)
    requires KeysOrdered(key, a) && e in a
    ensures LexLe(key(e), key(a[|a| - 1]))
  {
    var i :| 0 <= i < |a| && a[i] == e;
    if i == |a| - 1 {
      LexLeReflexive(key(e));
    }
  }

  /** The last elements of two key-ordered sequences with the same elements per key share a key. */
  lemma SameLastKey(key: JValue -> seq<int>, a: seq<JValue>, b: seq<JValue>)
    requires KeysOrdered(key, a) && KeysOrdered(key, b) && a != [] && b != []
    requires forall k :: WithKey(key, a, k) == WithKey(key, b, k)
    ensures key(a[|a| - 1]) == key(b[|b| - 1])
  {
    var x, y := a[|a| - 1], b[|b| - 1];
    assert y in WithKey(key, b, key(y));
    WithKeyIn(key, a, key(y), y);
    OrderedLastGreatest(key, a, y);
    assert x in WithKey(key, a, key(x));
    WithKeyIn(key, b, key(x), x);
    OrderedLastGreatest(key, b, x);
    LexLeAntisymmetric(key(x), key(y));
  }

  /**
   * Two key-ordered sequences that hold, for every key, the same elements with
   * that key in the same order, are equal.
   */
  lemma {:induction false} OrderedSameWithKeys(key: JValue -> seq<int>, a: seq<JValue>, b: seq<JValue>)
    requires KeysOrdered(key, a) && KeysOrdered(key, b) && |a| == |b|
    requires forall k :: WithKey(key, a, k) == WithKey(key, b, k)
    ensures a == b
    decreases |a|
  {
    if a != [] {
      var a', b', x, y := a[..|a| - 1], b[..|b| - 1], a[|a| - 1], b[|b| - 1];
      SameLastKey(key, a, b);
      var k0 := key(x);
      assert WithKey(key, a, k0) == WithKey(key, a', k0) + [x];
      assert WithKey(key, b, k0) == WithKey(key, b', k0) + [y];
      assert WithKey(key, a', k0) + [x] == WithKey(key, b', k0) + [y];
      assert x == y && WithKey(key, a', k0) == WithKey(key, b', k0) by {
        var p, q := WithKey(key, a', k0) + [x], WithKey(key, b', k0) + [y];
        assert p[..|p| - 1] == WithKey(key, a', k0) && q[..|q| - 1] == WithKey(key, b', k0);
      }
      forall k
        ensures WithKey(key, a', k) == WithKey(key, b', k)
      {
        assert WithKey(key, a, k) == WithKey(key, b, k);
        if k != k0 {
          assert WithKey(key, a, k) == WithKey(key, a', k);
          assert WithKey(key, b, k) == WithKey(key, b', k);
        }
      }
      OrderedInit(key, a);
      OrderedInit(key, b);
      OrderedSameWithKeys(key, a', b');
      assert a == a' + [x] && b == b' + [y];
    }
  }

  /**
   * Any stable sort by the key gives `SortByKey`'s result: an arrangement of
   * the same elements in key order, in which the elements sharing any one key
   * are in their input order, is the one the insertion sort builds.
   */
  lemma StableSortUnique(key: JValue -> seq<int>, s: seq<JValue>, r: seq<JValue>)
    requires KeysOrdered(key, r) && multiset(r) == multiset(s)
    requires forall k :: WithKey(key, r, k) == WithKey(key, s, k)
    ensures r == SortByKey(key, s)
  {
    var t := SortByKey(key, s);
    SortByKeyOrdered(key, s);
    SortByKeyPermutes(key, s);
    forall k
      ensures WithKey(key, r, k) == WithKey(key, t, k)
    {
      SortByKeyStable(key, s, k);
    }
    assert |r| == |multiset(r)| == |multiset(t)| == |t|;
    OrderedSameWithKeys(key, r, t);
  }

  // ---------------------------------------------------------------------------
  // The whole tree
  // ---------------------------------------------------------------------------

  /** What `sorter` returns: arrays rebuilt bottom-up, everything else as it was. */
  function SortedTree(v: JValue): (r: JValue)
    ensures !v.JArray? ==> r == v
    ensures v.JArray? ==> r.JArray? && |r.elems| == |v.elems|
  {
    match v
    case JArray(es) => JArray(SortByKey(Key, SortedChildren(es)))
    case _ => v
  }

  /** Every element of an array sorted on its own, in place. */
  function SortedChildren(es: seq<JValue>): (r: seq<JValue>)
    ensures |r| == |es|
    ensures forall i :: 0 <= i < |es| ==> (r[i].JArray? <==> es[i].JArray?)
    ensures forall i :: 0 <= i < |es| && !es[i].JArray? ==> r[i] == es[i]
  {
    seq(|es|, i requires 0 <= i < |es| => SortedTree(es[i]))
  }

  /** Every array reachable through arrays is in key order. */
  predicate Canonical(v: JValue)
  {
    match v
    case JArray(es) => KeysOrdered(Key, es) && forall e | e in es :: Canonical(e)
    case _ => true
  }

  /** The sorted tree is in key order at every level the sorter visits. */
  lemma {:induction false} SortedTreeCanonical(v: JValue)
    ensures Canonical(SortedTree(v))
  {
    match v
    case JArray(es) =>
      var cs := SortedChildren(es);
      forall i | 0 <= i < |es|
        ensures Canonical(cs[i])
      {
        SortedTreeCanonical(es[i]);
      }
      SortByKeyOrdered(Key, cs);
      SortByKeyPermutes(Key, cs);
      forall e | e in SortByKey(Key, cs)
        ensures Canonical(e)
      {
        assert e in multiset(cs);
        var i :| 0 <= i < |cs| && cs[i] == e;
      }
    case _ =>
  }

  /** A tree that is already canonical is returned unchanged. */
  lemma {:induction false} SortedTreeOfCanonical(v: JValue)
    requires Canonical(v)
    ensures SortedTree(v) == v
  {
    match v
    case JArray(es) =>
      forall i | 0 <= i < |es|
        ensures SortedTree(es[i]) == es[i]
      {
        assert es[i] in es;
        SortedTreeOfCanonical(es[i]);
      }
      assert SortedChildren(es) == es;
      SortByKeyOfOrdered(Key, es);
    case _ =>
  }

  /** Sorting twice is sorting once. */
  lemma SortedTreeIdempotent(v: JValue)
    ensures SortedTree(SortedTree(v)) == SortedTree(v)
  {
    SortedTreeCanonical(v);
    SortedTreeOfCanonical(SortedTree(v));
  }

  /** Each array holds its sorted children, each as often as before. */
  lemma SortedTreePermutes(es: seq<JValue>)
    ensures multiset(SortedTree(JArray(es)).elems) == multiset(SortedChildren(es))
  {
    SortByKeyPermutes(Key, SortedChildren(es));
  }

  /** Each array's elements keep their key-ties in the order the children had. */
  lemma SortedTreeStable(es: seq<JValue>, k: seq<int>)
    ensures WithKey(Key, SortedTree(JArray(es)).elems, k) == WithKey(Key, SortedChildren(es), k)
  {
    SortByKeyStable(Key, SortedChildren(es), k);
  }

  // ---------------------------------------------------------------------------
  // The in-place implementation
  // ---------------------------------------------------------------------------

  /** Moving the insertion point of `x` one element to the left. */
  lemma InsertByKeyShift(key: JValue -> seq<int>, s: seq<JValue>, x: JValue, j: nat)
    requires 0 < j <= |s|
    requires !LexLe(key(s[j - 1]), key(x))
    ensures InsertByKey(key, s[..j], x) + s[j..] == InsertByKey(key, s[..j - 1], x) + s[j - 1..]
  {
    assert s[..j][..j - 1] == s[..j - 1];
    assert s[j - 1..] == [s[j - 1]] + s[j..];
  }

  /** Where the insertion of `x` stops. */
  lemma InsertByKeyStop(key: JValue -> seq<int>, s: seq<JValue>, x: JValue, j: nat)
    requires j <= |s|
    requires j == 0 || LexLe(key(s[j - 1]), key(x))
    ensures InsertByKey(key, s[..j], x) == s[..j] + [x]
  {
    if j > 0 {
      assert s[..j][j - 1] == s[j - 1];
    }
  }

  /**
   * The state of an insertion into `s`, which came from `u[..|s|]`: the
   * elements of `s` before `j` are in place, those from `j` on have moved one
   * to the right, and what follows is as in `u`.
   */
  ghost predicate Shifted(t: seq<JValue>, u: seq<JValue>, s: seq<JValue>, j: nat)
  {
    |t| == |u| > |s| >= j
    && (forall k :: 0 <= k < j ==> t[k] == s[k])
    && (forall k :: j < k <= |s| ==> t[k] == s[k - 1])
    && t[|s| + 1..] == u[|s| + 1..]
  }

  /** Copying the element before the gap into the gap moves the gap one to the left. */
  lemma ShiftedStep(t: seq<JValue>, u: seq<JValue>, s: seq<JValue>, j: nat)
    requires Shifted(t, u, s, j) && 0 < j
    ensures Shifted(t[j := t[j - 1]], u, s, j - 1)
  {
    var t' := t[j := t[j - 1]];
    assert t'[|s| + 1..] == t[|s| + 1..];
  }

  /** Filling the gap with `x` completes the insertion. */
  lemma ShiftedFill(t: seq<JValue>, u: seq<JValue>, s: seq<JValue>, x: JValue, j: nat)
    requires Shifted(t, u, s, j)
    ensures t[j := x][..|s| + 1] == s[..j] + [x] + s[j..]
    ensures t[j := x][|s| + 1..] == u[|s| + 1..]
  {
    var t', w := t[j := x], s[..j] + [x] + s[j..];
    forall k | 0 <= k <= |s|
      ensures t'[k] == w[k]
    {
      if k < j {
        assert w[k] == s[k];
      } else if j < k {
        assert w[k] == s[k - 1];
      }
    }
    assert t'[|s| + 1..] == t[|s| + 1..];
  }

  /**
   * One step of the insertion sort: `a[..i]` is sorted, and `a[i]` is moved
   * left past every element whose key is greater than its own.
   */
  method InsertAt(key: JValue -> seq<int>, a: array<JValue>, i: nat)
    requires i < a.Length
    modifies a
    ensures a[..i + 1] == InsertByKey(key, old(a[..i]), old(a[i]))
    ensures a[i + 1..] == old(a[i + 1..])
  {
    var x := a[i];
    ghost var s, u := a[..i], a[..];
    var j := i;
    assert s[..j] == s && s[j..] == [];
    while j > 0 && !LexLe(key(a[j - 1]), key(x))
      invariant 0 <= j <= i
      invariant Shifted(a[..], u, s, j)
      invariant InsertByKey(key, s, x) == InsertByKey(key, s[..j], x) + s[j..]
    {
      ghost var t := a[..];
      assert a[j - 1] == s[j - 1];
      InsertByKeyShift(key, s, x, j);
      a[j] := a[j - 1];
      assert a[..] == t[j := t[j - 1]];
      ShiftedStep(t, u, s, j);
      j := j - 1;
    }
    InsertByKeyStop(key, s, x, j);
    ghost var t := a[..];
    a[j] := x;
    assert a[..] == t[j := x];
    ShiftedFill(t, u, s, x, j);
    assert old(a[i + 1..]) == u[i + 1..];
  }

  /** `arr.sort_by(..)` comparing the elements' keys: an in-place stable insertion sort. */
  method SortLevel(key: JValue -> seq<int>, a: array<JValue>)
    modifies a
    ensures a[..] == SortByKey(key, old(a[..]))
  {
    var i := 0;
    while i < a.Length
      invariant 0 <= i <= a.Length
      invariant a[..i] == SortByKey(key, old(a[..])[..i])
      invariant a[i..] == old(a[..])[i..]
    {
      ghost var rest := a[i..];
      InsertAt(key, a, i);
      ghost var prefix := old(a[..])[..i + 1];
      assert prefix[..i] == old(a[..])[..i];
      assert prefix[i] == rest[0] == old(a[..])[i..][0];
      i := i + 1;
    }
    assert a[..] == a[..a.Length];
    assert old(a[..]) == old(a[..])[..a.Length];
  }

  /** The children before `i` are sorted, the rest still as given; sorting child `i` moves on by one. */
  lemma ChildrenPending(cs: seq<JValue>, es: seq<JValue>, i: nat, t: seq<JValue>)
    requires |cs| == |es| && i < |es| && t == cs[..i] + es[i..]
    ensures t[i] == es[i]
    ensures t[i := cs[i]] == cs[..i + 1] + es[i + 1..]
  {
  }

  /** `sort_value`: sorts every element recursively, then the array itself. */
  method SortValue(v: JValue) returns (r: JValue)
    ensures r == SortedTree(v)
    decreases v
  {
    match v {
      case JArray(es) =>
        var a := new JValue[|es|](k requires 0 <= k < |es| => es[k]);
        ghost var cs := SortedChildren(es);
        var i := 0;
        assert a[..] == cs[..0] + es[0..];
        while i < a.Length
          invariant 0 <= i <= a.Length == |es|
          invariant a[..] == cs[..i] + es[i..]
        {
          ghost var t := a[..];
          ChildrenPending(cs, es, i, t);
          assert es[i] in es;
          var c := SortValue(a[i]);
          a[i] := c;
          assert a[..] == t[i := c];
          i := i + 1;
        }
        assert cs[..i] + es[i..] == cs;
        assert a[..] == cs;
        SortLevel(Key, a);
        assert a[..] == SortByKey(Key, cs);
        r := JArray(a[..]);
        assert r == SortedTree(v);
      case _ =>
        r := v;
    }
  }

  /** `sorter`: takes the document by value and returns it sorted. */
  method Sort(data: JValue) returns (r: JValue)
    ensures r == SortedTree(data)
  {
    r := SortValue(data);
  }

  // ---------------------------------------------------------------------------
  // The sorter's own examples
  // ---------------------------------------------------------------------------

  /** Strictly increasing neighbours make every pair strictly increasing. */
  lemma {:induction false} IncreasingKeys(key: JValue -> seq<int>, t: seq<JValue>)
    requires forall i :: 0 <= i < |t| - 1 ==> LexLt(key(t[i]), key(t[i + 1]))
    ensures forall i, j :: 0 <= i < j < |t| ==> LexLt(key(t[i]), key(t[j]))
  {
    if |t| > 1 {
      IncreasingKeys(key, t[1..]);
      forall i, j | 0 <= i < j < |t|
        ensures LexLt(key(t[i]), key(t[j]))
      {
        if i > 0 {
          assert t[i] == t[1..][i - 1] && t[j] == t[1..][j - 1];
        } else if j > 1 {
          assert LexLt(key(t[1..][0]), key(t[1..][j - 1]));
          LexLeTransitive(key(t[0]), key(t[1]), key(t[j]));
          if key(t[0]) == key(t[j]) {
            LexLeAntisymmetric(key(t[0]), key(t[1]));
          }
        }
      }
    }
  }

  /**
   * An arrangement of the same elements with strictly increasing keys is what
   * the sort produces.
   */
  lemma SortByKeyIs(key: JValue -> seq<int>, s: seq<JValue>, t: seq<JValue>)
    requires multiset(s) == multiset(t)
    requires forall i :: 0 <= i < |t| - 1 ==> LexLt(key(t[i]), key(t[i + 1]))
    ensures SortByKey(key, s) == t
  {
    IncreasingKeys(key, t);
    forall i, j | 0 <= i < |t| && 0 <= j < |t| && i != j
      ensures key(t[i]) != key(t[j])
    {
      if i < j {
        assert LexLt(key(t[i]), key(t[j]));
      } else {
        assert LexLt(key(t[j]), key(t[i]));
      }
    }
    assert KeysDistinct(key, t);
    SortByKeyOrdered(key, s);
    SortByKeyPermutes(key, s);
    OrderedUnique(key, t, SortByKey(key, s));
  }

  lemma SortNumbersExample()
    ensures SortedTree(JArray([JNumber("2"), JNumber("1")])) == JArray([JNumber("1"), JNumber("2")])
  {
    var es := [JNumber("2"), JNumber("1")];
    assert SortedChildren(es) == es;
    NumberKeyLt("1", "2");
    SortSwappedTwo(Key, es[0], es[1]);
  }

  lemma SortStringsExample()
    ensures SortedTree(JArray([JString("b"), JString("a")])) == JArray([JString("a"), JString("b")])
  {
    var es := [JString("b"), JString("a")];
    assert SortedChildren(es) == es;
    StringKeyLt("a", "b");
    SortSwappedTwo(Key, es[0], es[1]);
  }

  /** Three elements with strictly decreasing keys come out reversed. */
  lemma SortReversedThree(key: JValue -> seq<int>, x: JValue, y: JValue, z: JValue)
    requires LexLt(key(z), key(y)) && LexLt(key(y), key(x))
    ensures SortByKey(key, [x, y, z]) == [z, y, x]
  {
    var t := [z, y, x];
    assert multiset([x, y, z]) == multiset(t);
    assert t[0] == z && t[1] == y && t[2] == x;
    SortByKeyIs(key, [x, y, z], t);
  }

  /** The keys of the literals `1.6`, `3.2` and `7.1` increase in that order. */
  lemma FloatKeyLt(a: string, b: string)
    requires (a == "1.6" && b == "3.2") || (a == "3.2" && b == "7.1")
    ensures LexLt(Key(JNumber(a)), Key(JNumber(b)))
  {
    assert Plain(a) && Plain(b);
    NumberKeyLt(a, b);
  }

  /** Children that are not arrays are left as they are. */
  lemma LeavesSorted(es: seq<JValue>)
    requires forall i :: 0 <= i < |es| ==> !es[i].JArray?
    ensures SortedChildren(es) == es
  {
  }

  /** Three leaves with strictly decreasing keys come out of the tree sort reversed. */
  lemma SortedReversedLeaves(x: JValue, y: JValue, z: JValue)
    requires !x.JArray? && !y.JArray? && !z.JArray?
    requires LexLt(Key(z), Key(y)) && LexLt(Key(y), Key(x))
    ensures SortedTree(JArray([x, y, z])) == JArray([z, y, x])
  {
    var es := [x, y, z];
    LeavesSorted(es);
    SortReversedThree(Key, x, y, z);
    assert SortedTree(JArray(es)) == JArray(SortByKey(Key, es));
  }

  lemma SortFloatsExample()
    ensures SortedTree(JArray([JNumber("7.1"), JNumber("3.2"), JNumber("1.6")]))
         == JArray([JNumber("1.6"), JNumber("3.2"), JNumber("7.1")])
  {
    FloatKeyLt("1.6", "3.2");
    FloatKeyLt("3.2", "7.1");
    SortedReversedLeaves(JNumber("7.1"), JNumber("3.2"), JNumber("1.6"));
  }

  /** Three elements whose keys order the last first, then the first, then the middle. */
  lemma SortRotatedThree(key: JValue -> seq<int>, x: JValue, y: JValue, z: JValue)
    requires LexLt(key(z), key(x)) && LexLt(key(x), key(y))
    ensures SortByKey(key, [x, y, z]) == [z, x, y]
  {
    var t := [z, x, y];
    assert multiset([x, y, z]) == multiset(t);
    assert t[0] == z && t[1] == x && t[2] == y;
    SortByKeyIs(key, [x, y, z], t);
  }

  /** Two elements whose keys are in strictly decreasing order are swapped. */
  lemma SortSwappedTwo(key: JValue -> seq<int>, x: JValue, y: JValue)
    requires LexLt(key(y), key(x))
    ensures SortByKey(key, [x, y]) == [y, x]
  {
    assert multiset([x, y]) == multiset([y, x]);
    SortByKeyIs(key, [x, y], [y, x]);
  }

  /** Two elements whose keys are in strictly increasing order stay as they are. */
  lemma SortOrderedTwo(key: JValue -> seq<int>, x: JValue, y: JValue)
    requires LexLt(key(x), key(y))
    ensures SortByKey(key, [x, y]) == [x, y]
  {
    SortByKeyIs(key, [x, y], [x, y]);
  }

  /** A number sorts before a string that starts with a letter. */
  lemma SortSimpleValuesExample()
    ensures SortedTree(JArray([JString("a"), JNumber("1")])) == JArray([JNumber("1"), JString("a")])
  {
    var es := [JString("a"), JNumber("1")];
    assert SortedChildren(es) == es;
    QuotedKeyStart(JNumber("1"));
    SortSwappedTwo(Key, es[0], es[1]);
  }

  /** The keys of `["b"]`, `[1]` and `"c"` increase in that order. */
  lemma SimpleItemsKeys()
    ensures LexLt(Key(JArray([JString("b")])), Key(JArray([JNumber("1")])))
    ensures LexLt(Key(JArray([JNumber("1")])), Key(JString("c")))
  {
    assert ToJson(JString("b"))[0] == '"' && ToJson(JNumber("1"))[0] == '1';
    ArrayKeysByFirstChar([JString("b")], [JNumber("1")]);
    ArrayBeforeLowercase(JArray([JNumber("1")]), "c");
  }

  /** Each element of `[[1], "c", ["b"]]` is already in sorted form. */
  lemma SimpleItemsChildren()
    ensures SortedChildren([JArray([JNumber("1")]), JString("c"), JArray([JString("b")])])
         == [JArray([JNumber("1")]), JString("c"), JArray([JString("b")])]
  {
    assert SortedTree(JArray([JNumber("1")])) == JArray([JNumber("1")]) by {
      assert SortedChildren([JNumber("1")]) == [JNumber("1")];
    }
    assert SortedTree(JArray([JString("b")])) == JArray([JString("b")]) by {
      assert SortedChildren([JString("b")]) == [JString("b")];
    }
  }

  /** Arrays rank by their JSON text, so `["b"]` (a quote after `[`) precedes `[1]`. */
  lemma SortSimpleItemsExample()
    ensures SortedTree(JArray([JArray([JNumber("1")]), JString("c"), JArray([JString("b")])]))
         == JArray([JArray([JString("b")]), JArray([JNumber("1")]), JString("c")])
  {
    SimpleItemsChildren();
    SimpleItemsKeys();
    SortRotatedThree(Key, JArray([JNumber("1")]), JString("c"), JArray([JString("b")]));
  }

  /** An array ranks first by `[`, then by the first character of its first element's JSON. */
  lemma ArrayKeyHead(es: seq<JValue>)
    requires es != [] && ToJson(es[0]) != []
    ensures |Key(JArray(es))| >= 2
    ensures Key(JArray(es))[0] == 0x5B
    ensures Key(JArray(es))[1] == ToJson(es[0])[0] as int % 256
  {
    var j := JoinValues(es);
    assert j[0] == ToJson(es[0])[0] by {
      if |es| > 1 {
        assert j == ToJson(es[0]) + ("," + JoinValues(es[1..]));
      }
    }
    assert Normalise(JArray(es)) == "[" + j + "]";
  }

  /** Two arrays whose first elements' JSON texts start with different characters rank by those. */
  lemma ArrayKeysByFirstChar(xs: seq<JValue>, ys: seq<JValue>)
    requires xs != [] && ys != [] && ToJson(xs[0]) != [] && ToJson(ys[0]) != []
    requires ToJson(xs[0])[0] as int % 256 < ToJson(ys[0])[0] as int % 256
    ensures LexLt(Key(JArray(xs)), Key(JArray(ys)))
  {
    ArrayKeyHead(xs);
    ArrayKeyHead(ys);
    var a, b := Key(JArray(xs)), Key(JArray(ys));
    assert a[..1] == b[..1];
    LexLtAt(a, b, 1);
  }

  /** `["b","c"]` ranks before `[1,"a"]`: after `[`, a quote precedes the digit. */
  lemma ShortArrayKeysOrdered()
    ensures LexLt(Key(JArray([JString("b"), JString("c")])), Key(JArray([JNumber("1"), JString("a")])))
  {
    assert ToJson(JString("b"))[0] == '"' && ToJson(JNumber("1"))[0] == '1';
    ArrayKeysByFirstChar([JString("b"), JString("c")], [JNumber("1"), JString("a")]);
  }

  /** A pair whose sorted elements are in strictly increasing key order. */
  lemma SortedPair(x: JValue, y: JValue, x': JValue, y': JValue)
    requires SortedTree(x) == x' && SortedTree(y) == y'
    requires LexLt(Key(x'), Key(y'))
    ensures SortedTree(JArray([x, y])) == JArray([x', y'])
  {
    assert SortedChildren([x, y]) == [x', y'];
    SortOrderedTwo(Key, x', y');
  }

  /**
   * Children first: `["c","b"]` becomes `["b","c"]` and `["a",1]` becomes
   * `[1,"a"]`, and the outer array is ranked by those sorted texts.
   */
  lemma SortShortArrayExample()
    ensures SortedTree(JArray([JArray([JString("c"), JString("b")]), JArray([JString("a"), JNumber("1")])]))
         == JArray([JArray([JString("b"), JString("c")]), JArray([JNumber("1"), JString("a")])])
  {
    StringPairSorted("b", "c");
    NumberStringPairSorted("1", "a");
    ShortArrayKeysOrdered();
    SortedPair(JArray([JString("c"), JString("b")]), JArray([JString("a"), JNumber("1")]),
               JArray([JString("b"), JString("c")]), JArray([JNumber("1"), JString("a")]));
  }

  /** Two texts whose bytes agree before position `m` and differ at `m` rank by that byte. */
  lemma BytesLtAt(n1: string, n2: string, m: nat)
    requires m < |n1| && m < |n2| && n1[..m] == n2[..m]
    requires n1[m] as int % 256 < n2[m] as int % 256
    ensures LexLt(Bytes(n1), Bytes(n2))
  {
    var a, b := Bytes(n1), Bytes(n2);
    forall i | 0 <= i < m
      ensures a[i] == b[i]
    {
      assert n1[i] == n1[..m][i] == n2[..m][i] == n2[i];
    }
    assert a[..m] == b[..m];
    LexLtAt(a, b, m);
  }

  /** The JSON of a two-element array. */
  lemma PairJson(e: JValue, x: JValue)
    ensures Normalise(JArray([e, x])) == "[" + ToJson(e) + "," + ToJson(x) + "]"
  {
    var es := [e, x];
    assert es[0] == e && es[1..] == [x];
    assert JoinValues([x]) == ToJson(x);
    assert JoinValues(es) == ToJson(e) + "," + ToJson(x);
    assert Normalise(JArray(es)) == "[" + JoinValues(es) + "]";
  }

  /**
   * Two pairs with the same first element rank by their second elements'
   * JSON texts, from the first character where those differ.
   */
  lemma PairKeysAt(e: JValue, x: JValue, y: JValue, k: nat)
    requires k < |ToJson(x)| && k < |ToJson(y)| && ToJson(x)[..k] == ToJson(y)[..k]
    requires ToJson(x)[k] as int % 256 < ToJson(y)[k] as int % 256
    ensures LexLt(Key(JArray([e, x])), Key(JArray([e, y])))
  {
    PairJson(e, x);
    PairJson(e, y);
    var p := "[" + ToJson(e) + ",";
    var n1, n2 := p + ToJson(x) + "]", p + ToJson(y) + "]";
    assert n1[..|p| + k] == p + ToJson(x)[..k];
    assert n2[..|p| + k] == p + ToJson(y)[..k];
    assert n1[|p| + k] == ToJson(x)[k] && n2[|p| + k] == ToJson(y)[k];
    BytesLtAt(n1, n2, |p| + k);
  }

  /** Null, a boolean, a number or an object ranks before a string that starts above `"`. */
  lemma QuotedBeforeString(x: JValue, s: string)
    requires !x.JString? && !x.JArray? && s != [] && s[0] as int % 256 > 0x22
    ensures LexLt(Key(x), Key(JString(s)))
  {
    QuotedKeyStart(x);
    assert Key(JString(s))[0] == s[0] as int % 256;
  }

  /** A pair of leaves comes out in key order, whichever order it came in. */
  lemma SortedLeafPair(x: JValue, y: JValue)
    requires !x.JArray? && !y.JArray? && LexLt(Key(x), Key(y))
    ensures SortedTree(JArray([x, y])) == JArray([x, y])
    ensures SortedTree(JArray([y, x])) == JArray([x, y])
  {
    LeavesSorted([x, y]);
    LeavesSorted([y, x]);
    SortOrderedTwo(Key, x, y);
    SortSwappedTwo(Key, y, x);
  }

  /** Two numbers, in either order, come out by their first digits. */
  lemma NumberPairSorted(t: string, u: string)
    requires |t| == 1 && |u| == 1 && '0' <= t[0] < u[0] <= '9'
    ensures SortedTree(JArray([JNumber(t), JNumber(u)])) == JArray([JNumber(t), JNumber(u)])
    ensures SortedTree(JArray([JNumber(u), JNumber(t)])) == JArray([JNumber(t), JNumber(u)])
  {
    assert Plain(t) && Plain(u);
    NumberKeyLt(t, u);
    SortedLeafPair(JNumber(t), JNumber(u));
  }

  /** Two strings, in either order, come out by their first bytes. */
  lemma StringPairSorted(s: string, t: string)
    requires s != [] && t != [] && s[0] as int % 256 < t[0] as int % 256
    ensures SortedTree(JArray([JString(s), JString(t)])) == JArray([JString(s), JString(t)])
    ensures SortedTree(JArray([JString(t), JString(s)])) == JArray([JString(s), JString(t)])
  {
    StringKeyLt(s, t);
    SortedLeafPair(JString(s), JString(t));
  }

  /** A number and a string that starts above `"`, in either order, come out number first. */
  lemma NumberStringPairSorted(t: string, s: string)
    requires s != [] && s[0] as int % 256 > 0x22
    ensures SortedTree(JArray([JNumber(t), JString(s)])) == JArray([JNumber(t), JString(s)])
    ensures SortedTree(JArray([JString(s), JNumber(t)])) == JArray([JNumber(t), JString(s)])
  {
    QuotedBeforeString(JNumber(t), s);
    SortedLeafPair(JNumber(t), JString(s));
  }

  // The ten-element example: what each child becomes, and the key order of the expected output

  /** The children of the main example's input that pair a number with a string, each sorted on its own. */
  lemma DataMixedChildren()
    ensures SortedTree(JArray([JString("b"), JNumber("2")])) == JArray([JNumber("2"), JString("b")])
    ensures SortedTree(JArray([JNumber("4"), JString("b")])) == JArray([JNumber("4"), JString("b")])
    ensures SortedTree(JArray([JNumber("2"), JString("a")])) == JArray([JNumber("2"), JString("a")])
    ensures SortedTree(JArray([JString("a"), JNumber("1")])) == JArray([JNumber("1"), JString("a")])
  {
    NumberStringPairSorted("2", "b");
    NumberStringPairSorted("4", "b");
    NumberStringPairSorted("2", "a");
    NumberStringPairSorted("1", "a");
  }

  /** The children of the main example's input that pair two numbers, each sorted on its own. */
  lemma DataNumberChildren()
    ensures SortedTree(JArray([JNumber("1"), JNumber("2")])) == JArray([JNumber("1"), JNumber("2")])
    ensures SortedTree(JArray([JNumber("3"), JNumber("2")])) == JArray([JNumber("2"), JNumber("3")])
  {
    NumberPairSorted("1", "2");
    NumberPairSorted("2", "3");
  }

  /** The neighbours in the expected output of the example that start alike, in key order. */
  lemma DataPairKeys()
    ensures LexLt(Key(JArray([JNumber("1"), JString("a")])), Key(JArray([JNumber("1"), JNumber("2")])))
    ensures LexLt(Key(JArray([JNumber("2"), JString("a")])), Key(JArray([JNumber("2"), JString("b")])))
    ensures LexLt(Key(JArray([JNumber("2"), JString("b")])), Key(JArray([JNumber("2"), JNumber("3")])))
  {
    PairKeysAt(JNumber("1"), JString("a"), JNumber("2"), 0);
    assert ToJson(JString("a"))[..1] == ToJson(JString("b"))[..1];
    PairKeysAt(JNumber("2"), JString("a"), JString("b"), 1);
    PairKeysAt(JNumber("2"), JString("b"), JNumber("3"), 0);
  }

  /** The other neighbours in the expected output of the example, in key order. */
  lemma DataOtherKeys()
    ensures LexLt(Key(JNumber("3")), Key(JNumber("7")))
    ensures LexLt(Key(JNumber("7")), Key(JArray([JString("b"), JString("c")])))
    ensures LexLt(Key(JArray([JNumber("1"), JNumber("2")])), Key(JArray([JNumber("2"), JString("a")])))
    ensures LexLt(Key(JArray([JNumber("2"), JNumber("3")])), Key(JArray([JNumber("4"), JString("b")])))
    ensures LexLt(Key(JArray([JNumber("4"), JString("b")])), Key(JString("c")))
  {
    assert Plain("3") && Plain("7");
    NumberKeyLt("3", "7");
    QuotedBeforeArray(JNumber("7"), JArray([JString("b"), JString("c")]));
    assert ToJson(JNumber("1"))[0] == '1' && ToJson(JNumber("2"))[0] == '2' && ToJson(JNumber("4"))[0] == '4';
    ArrayKeysByFirstChar([JNumber("1"), JNumber("2")], [JNumber("2"), JString("a")]);
    ArrayKeysByFirstChar([JNumber("2"), JNumber("3")], [JNumber("4"), JString("b")]);
    ArrayBeforeLowercase(JArray([JNumber("4"), JString("b")]), "c");
  }
}

/**
 * The small value helpers: `get` / `get$1` (a dotted-path lookup with a
 * default), `toArray`, `inArray`, and the string `repeat` by squaring.
 *
 * JavaScript values are a tree: primitives, plain objects as maps from
 * property name to value, arrays as sequences, and functions as opaque
 * identities. Numbers are integers here.
 */
module Values {
  import opened Strings
  import opened Wrappers

  datatype Value =
    | Undefined
    | Null
    | Bool(b: bool)
    | Num(n: int)
    | Str(s: string)
    | Obj(fields: map<string, Value>)
    | Arr(items: seq<Value>)
    | Fn(id: nat)

  /** JavaScript truthiness: `undefined`, `null`, `false`, `0` and `""`
      are falsy. */
  predicate Truthy(v: Value)
  {
    match v
    case Undefined => false
    case Null => false
    case Bool(b) => b
    case Num(n) => n != 0
    case Str(s) => s != ""
    case _ => true
  }

  /** `isObject`: not `null`, and of type `object` or `function`. */
  predicate IsObject(v: Value)
  {
    v.Obj? || v.Arr? || v.Fn?
  }

  // -------------------------------------------------------------------
  // Array indices: the property names that are canonical decimal numbers
  // -------------------------------------------------------------------

  predicate IsDigit(c: char)
  {
    '0' <= c <= '9'
  }

  function DigitChar(d: nat): char
    requires d < 10
  {
    ('0' as int + d) as char
  }

  /** The decimal value of a string of digits. */
  function DigitsValue(s: string): nat
    requires forall i :: 0 <= i < |s| ==> IsDigit(s[i])
  {
    if |s| == 0 then 0
    else
      var last := s[|s| - 1];
      assert IsDigit(last);
      DigitsValue(s[..|s| - 1]) * 10 + (last as int - '0' as int)
  }

  /** `String(n)` for a natural number. */
  function NatToString(n: nat): (s: string)
    ensures |s| >= 1 && forall i :: 0 <= i < |s| ==> IsDigit(s[i])
    ensures n >= 10 ==> s[0] != '0'
  {
    if n < 10 then [DigitChar(n)]
    else NatToString(n / 10) + [DigitChar(n % 10)]
  }

  /** The array index a property name denotes: a non-empty string of
      digits without a leading zero (other than `"0"` itself). The index is
      exactly the number whose decimal text is the name. */
  function ParseIndex(key: string): (r: Option<nat>)
    ensures r.Some? ==> NatToString(r.value) == key
  {
    if key != "" && (forall i :: 0 <= i < |key| ==> IsDigit(key[i])) && (key[0] != '0' || |key| == 1)
    then
      CanonicalDigits(key);
      Some(DigitsValue(key))
    else None
  }

  /** A canonical digit string is the decimal text of its value. */
  lemma {:induction false} CanonicalDigits(key: string)
    requires key != "" && forall i :: 0 <= i < |key| ==> IsDigit(key[i])
    requires key[0] != '0' || |key| == 1
    ensures NatToString(DigitsValue(key)) == key
    ensures |key| > 1 ==> DigitsValue(key) >= 10
    decreases |key|
  {
    if |key| > 1 {
      var init := key[..|key| - 1];
      assert init[0] == key[0];
      CanonicalDigits(init);
      PositiveDigits(init);
      var n := DigitsValue(key);
      assert n / 10 == DigitsValue(init);
      assert key == init + [key[|key| - 1]];
    }
  }

  lemma {:induction false} PositiveDigits(s: string)
    requires s != "" && forall i :: 0 <= i < |s| ==> IsDigit(s[i])
    requires s[0] != '0'
    ensures DigitsValue(s) >= 1
    decreases |s|
  {
    if |s| > 1 {
      var init := s[..|s| - 1];
      assert init[0] == s[0];
      PositiveDigits(init);
    }
  }

  /** Every natural number's decimal text reads back as that number. */
  lemma {:induction false} IndexOfNatToString(n: nat)
    ensures ParseIndex(NatToString(n)) == Some(n)
  {
    DigitsOfNatToString(n);
  }

  lemma {:induction false} DigitsOfNatToString(n: nat)
    ensures DigitsValue(NatToString(n)) == n
  {
    var s := NatToString(n);
    if n >= 10 {
      DigitsOfNatToString(n / 10);
      assert s[..|s| - 1] == NatToString(n / 10);
    }
  }

  // -------------------------------------------------------------------
  // Property lookup and `get`
  // -------------------------------------------------------------------

  /** `acc[key]` on a value that can be indexed: an own property of an
      object, an element or the `length` of an array or a string. */
  function Property(v: Value, key: string): Value
  {
    match v
    case Obj(fields) => if key in fields then fields[key] else Undefined
    case Arr(items) =>
      (match ParseIndex(key)
       case Some(i) => if i < |items| then items[i] else Undefined
       case None => if key == "length" then Num(|items|) else Undefined)
    case Str(s) =>
      (match ParseIndex(key)
       case Some(i) => if i < |s| then Str([s[i]]) else Undefined
       case None => if key == "length" then Num(|s|) else Undefined)
    case _ => Undefined
  }

  /** One reduction step of `get$1`: `acc && acc[val]`. */
  function Step(acc: Value, key: string): Value
  {
    if Truthy(acc) then Property(acc, key) else acc
  }

  /** `keys.reduce((acc, val) => acc && acc[val], acc)`. */
  function Lookup(acc: Value, keys: seq<string>): Value
    decreases |keys|
  {
    if |keys| == 0 then acc else Lookup(Step(acc, keys[0]), keys[1..])
  }

  /** `get$1(obj, path)`. */
  function GetPath(obj: Value, path: string): Value
  {
    Lookup(obj, Split(path, '.'))
  }

  /** `get(obj, path, defVal)`: the value at `path` when `obj` is an object
      and `path` a string, the default in place of `undefined`. */
  function Get(obj: Value, path: Value, defVal: Value): (r: Value)
    ensures r == Undefined ==> defVal == Undefined
    ensures !(IsObject(obj) && path.Str?) ==> r == defVal
    ensures IsObject(obj) && path.Str? && GetPath(obj, path.s) != Undefined ==>
      r == GetPath(obj, path.s)
    ensures IsObject(obj) && path.Str? && GetPath(obj, path.s) == Undefined ==> r == defVal
  {
    var result := if IsObject(obj) && path.Str? then GetPath(obj, path.s) else Undefined;
    if result == Undefined then defVal else result
  }

  /** Once the accumulator is falsy, the rest of the path is skipped and
      the falsy value is the result. */
  lemma {:induction false} LookupFalsy(acc: Value, keys: seq<string>)
    requires !Truthy(acc)
    ensures Lookup(acc, keys) == acc
    decreases |keys|
  {
    if |keys| > 0 {
      LookupFalsy(acc, keys[1..]);
    }
  }

  /** Looking up a path in two parts is looking up the second part in the
      result of the first. */
  lemma {:induction false} LookupAppend(acc: Value, k1: seq<string>, k2: seq<string>)
    ensures Lookup(acc, k1 + k2) == Lookup(Lookup(acc, k1), k2)
    decreases |k1|
  {
    if |k1| == 0 {
      assert k1 + k2 == k2;
    } else {
      assert (k1 + k2)[0] == k1[0];
      assert (k1 + k2)[1..] == k1[1..] + k2;
      LookupAppend(Step(acc, k1[0]), k1[1..], k2);
    }
  }

  /** `get$1(obj, 'p.q')` is `get$1(get$1(obj, 'p'), 'q')`. */
  lemma GetPathCompose(obj: Value, p1: string, p2: string)
    ensures GetPath(obj, p1 + "." + p2) == GetPath(GetPath(obj, p1), p2)
  {
    assert p1 + "." + p2 == p1 + ['.'] + p2;
    SplitAround(p1, p2, '.');
    LookupAppend(obj, Split(p1, '.'), Split(p2, '.'));
  }

  /** A path without dots is a single property access (when the object is
      truthy). */
  lemma GetPathSingle(obj: Value, key: string)
    requires '.' !in key
    ensures GetPath(obj, key) == Step(obj, key)
  {
    SplitWithout(key, '.');
    assert Split(key, '.') == [key];
    assert [key][1..] == [];
    assert Lookup(obj, [key]) == Lookup(Step(obj, key), []);
  }

  /** The default only replaces `undefined`: when a prefix of the path
      resolves to another falsy value (`null`, `0`, `""`, `false`), `get`
      returns that value and not the default. */
  lemma GetStopsAtFalsy(obj: Value, p1: string, p2: string, defVal: Value)
    requires IsObject(obj)
    requires !Truthy(GetPath(obj, p1)) && GetPath(obj, p1) != Undefined
    ensures Get(obj, Str(p1 + "." + p2), defVal) == GetPath(obj, p1)
  {
    GetPathCompose(obj, p1, p2);
    SplitLookupFalsy(GetPath(obj, p1), p2);
  }

  lemma SplitLookupFalsy(acc: Value, path: string)
    requires !Truthy(acc)
    ensures GetPath(acc, path) == acc
  {
    LookupFalsy(acc, Split(path, '.'));
  }

  /** The value the examples below look into:
      `{a: {b: 1}, xs: ['p', 'q']}`. */
  function Sample(): Value
  {
    Obj(map["a" := Obj(map["b" := Num(1)]), "xs" := Arr([Str("p"), Str("q")])])
  }

  /** `get(sample, 'a.b', 0)` is `1` and `get(sample, 'a.c', 5)` is `5`. */
  lemma GetNested()
    ensures Get(Sample(), Str("a.b"), Num(0)) == Num(1)
    ensures Get(Sample(), Str("a.c"), Num(5)) == Num(5)
  {
    assert "a.b" == "a" + "." + "b";
    assert "a.c" == "a" + "." + "c";
    PathOfTwo(Sample(), "a", "b");
    PathOfTwo(Sample(), "a", "c");
  }

  /** `get(sample, 'xs.1')` is `'q'` and `get(sample, 'xs.length')` is `2`. */
  lemma GetArray()
    ensures Get(Sample(), Str("xs.1"), Null) == Str("q")
    ensures Get(Sample(), Str("xs.length"), Null) == Num(2)
  {
    GetArrayIndex();
    GetArrayLength();
    GetResolved(Sample(), "xs.1", Null);
    GetResolved(Sample(), "xs.length", Null);
  }

  lemma GetResolved(obj: Value, path: string, defVal: Value)
    requires IsObject(obj) && GetPath(obj, path) != Undefined
    ensures Get(obj, Str(path), defVal) == GetPath(obj, path)
  {
  }

  lemma GetArrayIndex()
    ensures GetPath(Sample(), "xs.1") == Str("q")
  {
    assert "xs.1" == "xs" + "." + "1";
    PathOfTwo(Sample(), "xs", "1");
    IndexOfNatToString(1);
    assert NatToString(1) == "1";
  }

  lemma GetArrayLength()
    ensures GetPath(Sample(), "xs.length") == Num(2)
  {
    assert "xs.length" == "xs" + "." + "length";
    PathOfTwo(Sample(), "xs", "length");
    var xs := [Str("p"), Str("q")];
    assert Step(Sample(), "xs") == Arr(xs);
    ArrayLength(xs);
  }

  /** `arr.length`: `"length"` is not an index. */
  lemma ArrayLength(items: seq<Value>)
    ensures Property(Arr(items), "length") == Num(|items|)
  {
    NotIndex("length");
  }

  lemma NotIndex(key: string)
    requires |key| > 0 && !IsDigit(key[0])
    ensures ParseIndex(key) == None
  {
  }

  lemma PathOfTwo(obj: Value, a: string, b: string)
    requires '.' !in a && '.' !in b
    ensures GetPath(obj, a + "." + b) == Step(Step(obj, a), b)
  {
    GetPathCompose(obj, a, b);
    GetPathSingle(obj, a);
    GetPathSingle(Step(obj, a), b);
  }

  // -------------------------------------------------------------------
  // `toArray` and `inArray`
  // -------------------------------------------------------------------

  /** `toArray(val)`: nothing for `null` and `undefined`, an array as it
      is, anything else wrapped in a one-element array. */
  function ToArray(v: Value): (r: seq<Value>)
    ensures forall x :: x in r <==> (if v.Arr? then x in v.items else x == v && !v.Null? && !v.Undefined?)
    ensures !v.Arr? ==> |r| <= 1
    ensures v.Arr? ==> r == v.items
    ensures v.Null? || v.Undefined? ==> r == []
    ensures !v.Arr? && !v.Null? && !v.Undefined? ==> r == [v]
  {
    match v
    case Null => []
    case Undefined => []
    case Arr(items) => items
    case _ => [v]
  }

  /** Converting an array a second time changes nothing. */
  lemma ToArrayIdempotent(v: Value)
    ensures ToArray(Arr(ToArray(v))) == ToArray(v)
  {
  }

  /** `arr.indexOf(val)`: the first position of `val`, or -1. */
  function IndexOf<T(==)>(items: seq<T>, v: T): (r: int)
    ensures -1 <= r < |items|
    ensures r == -1 <==> v !in items
    ensures r >= 0 ==> items[r] == v && forall j :: 0 <= j < r ==> items[j] != v
  {
    if |items| == 0 then -1
    else if items[0] == v then 0
    else
      var r := IndexOf(items[1..], v);
      assert forall j :: 1 <= j < |items| ==> items[j] == items[1..][j - 1];
      if r == -1 then -1 else r + 1
  }

  /** `inArray(arr, val)`: `(arr || []).indexOf(val) !== -1`, with a missing
      array as none. */
  function InArray(arr: Option<seq<Value>>, v: Value): (r: bool)
    ensures r <==> arr.Some? && v in arr.value
  {
    var items := match arr case None => [] case Some(a) => a;
    IndexOf(items, v) != -1
  }

  // -------------------------------------------------------------------
  // `repeat`
  // -------------------------------------------------------------------

  /** `str` repeated `n` times. */
  function Rep(str: string, n: nat): (r: string)
    ensures |r| == n * |str|
  {
    if n == 0 then "" else str + Rep(str, n - 1)
  }

  /** Block `k` of a repetition is `str` itself: character `j` of `str`
      sits at position `k * |str| + j`. */
  lemma RepBlock(str: string, n: nat, k: nat, j: int)
    requires k < n && 0 <= j < |str|
    ensures k * |str| + j < |Rep(str, n)|
    ensures Rep(str, n)[k * |str| + j] == str[j]
  {
    RepAdd(str, k, n - k);
    assert Rep(str, n - k) == str + Rep(str, n - k - 1);
    assert Rep(str, n) == Rep(str, k) + (str + Rep(str, n - k - 1));
  }

  lemma {:induction false} RepAdd(str: string, a: nat, b: nat)
    ensures Rep(str, a + b) == Rep(str, a) + Rep(str, b)
    decreases a
  {
    if a > 0 {
      RepAdd(str, a - 1, b);
      assert a + b - 1 == (a - 1) + b;
    }
  }

  lemma {:induction false} RepDouble(str: string, k: nat)
    ensures Rep(str + str, k) == Rep(str, 2 * k)
    decreases k
  {
    if k > 0 {
      RepDouble(str, k - 1);
      RepAdd(str, 2, 2 * (k - 1));
      assert Rep(str, 2) == str + str;
      assert 2 * k == 2 + 2 * (k - 1);
    }
  }

  /** `repeat(str, n)`: adds `str` for each set bit of `n` while doubling
      it. `n >>= 1` is a 32-bit shift, and for negative `n` the loop never
      ends, so `n` is within `[0, 2^31)`, as at its one call site. */
  method Repeat(str: string, n: int) returns (res: string)
    requires 0 <= n < 0x8000_0000
    ensures res == Rep(str, n)
  {
    res := "";
    var s := str;
    var m := n;
    while m != 0
      invariant 0 <= m < 0x8000_0000
      invariant res + Rep(s, m) == Rep(str, n)
      decreases m
    {
      ghost var oldRes, oldS, oldM := res, s, m;
      if m % 2 == 1 {
        res := res + s;
      }
      if m > 1 {
        s := s + s;
      }
      m := m / 2;
      if oldM > 1 {
        RepDouble(oldS, m);
        RepAdd(oldS, oldM % 2, 2 * m);
        assert oldM == oldM % 2 + 2 * m;
        assert Rep(oldS, oldM % 2) == if oldM % 2 == 1 then oldS else "";
      } else {
        assert Rep(oldS, 1) == oldS;
      }
    }
  }
}

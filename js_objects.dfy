/**
 * The JavaScript values the TypeScript and React code works on: truthiness,
 * property access, optional chaining, object spread and property keys.
 */
module JsObjects {

  /** A JavaScript number; only whole finite values are modelled. */
  datatype JsNumber = Int(value: int) | Infinity | NegativeInfinity | NaN

  datatype JsValue =
    | Undefined
    | Null
    | Bool(b: bool)
    | Num(n: JsNumber)
    | Str(s: string)
    | Arr(elements: seq<JsValue>)
    | Obj(fields: map<string, JsValue>)
    | Function(name: string)

  /** `!!v` */
  predicate Truthy(v: JsValue)
  {
    match v
    case Undefined => false
    case Null => false
    case Bool(b) => b
    case Num(n) => n != Int(0) && n != NaN
    case Str(s) => s != ""
    case _ => true
  }

  /** `a || b`: the first operand when it is truthy, else the second. */
  function Or(a: JsValue, b: JsValue): (r: JsValue)
    ensures Truthy(r) <==> Truthy(a) || Truthy(b)
    ensures Truthy(a) ==> r == a
  {
    if Truthy(a) then a else b
  }

  /** `v.key` on an object; a property that is not there reads as `undefined`. */
  function Get(v: JsValue, key: string): (r: JsValue)
    ensures v.Obj? && key in v.fields ==> r == v.fields[key]
    ensures !(v.Obj? && key in v.fields) ==> r == Undefined
  {
    if v.Obj? && key in v.fields then v.fields[key] else Undefined
  }

  /** `v?.key`: `undefined` on `null` or `undefined` instead of an exception. */
  function OptionalGet(v: JsValue, key: string): (r: JsValue)
    ensures v == Null || v == Undefined ==> r == Undefined
    ensures v != Null && v != Undefined ==> r == Get(v, key)
  {
    if v == Null || v == Undefined then Undefined else Get(v, key)
  }

  /** `v[i]` on an array; out of range reads as `undefined`. */
  function At(v: seq<JsValue>, i: nat): (r: JsValue)
    ensures i < |v| ==> r == v[i]
    ensures i >= |v| ==> r == Undefined
  {
    if i < |v| then v[i] else Undefined
  }

  /** The properties `...v` contributes to an object literal: none for `null` or `undefined`. */
  function Spread(v: JsValue): (r: map<string, JsValue>)
    ensures v.Obj? ==> r == v.fields
    ensures !v.Obj? ==> r == map[]
  {
    if v.Obj? then v.fields else map[]
  }

  predicate IsDecimalDigit(c: char)
  {
    '0' <= c <= '9'
  }

  /** The number a string of decimal digits is read as. */
  function DecimalValue(s: string): nat
    requires forall i | 0 <= i < |s| :: IsDecimalDigit(s[i])
  {
    if s == [] then 0
    else
      assert IsDecimalDigit(s[|s| - 1]);
      10 * DecimalValue(s[..|s| - 1]) + (s[|s| - 1] as int - '0' as int)
  }

  /**
   * The decimal digits of a natural number: digits only, no leading zero
   * except for 0 itself, and read back as the number.
   */
  function NatString(n: nat): (s: string)
    ensures |s| > 0
    ensures forall i | 0 <= i < |s| :: IsDecimalDigit(s[i])
    ensures s[0] == '0' <==> n == 0
    ensures DecimalValue(s) == n
    decreases n
  {
    var digit := ['0' + (n % 10) as char];
    if n < 10 then
      assert digit[..0] == [];
      digit
    else
      var front := NatString(n / 10);
      var s := front + digit;
      assert s[..|s| - 1] == front;
      s
  }

  /** `String(n)` for a number, which is also the property key it stands for. */
  function NumberString(n: JsNumber): string
  {
    match n
    case Int(i) => if i < 0 then "-" + NatString(-i) else NatString(i)
    case Infinity => "Infinity"
    case NegativeInfinity => "-Infinity"
    case NaN => "NaN"
  }

  /** The strings joined with a comma between each two, as `Array.prototype.join` does. */
  function CommaJoined(parts: seq<string>): (r: string)
    ensures |parts| == 1 ==> r == parts[0]
    ensures parts == [] ==> r == ""
  {
    if parts == [] then ""
    else if |parts| == 1 then parts[0]
    else parts[0] + "," + CommaJoined(parts[1..])
  }

  /**
   * The property key a value is converted to by `o[v]`, which is `String(v)`.
   * An array joins its elements' strings with commas; a function stands for
   * its name.
   */
  function ToPropertyKey(v: JsValue): string
    decreases v, 0
  {
    match v
    case Undefined => "undefined"
    case Null => "null"
    case Bool(b) => if b then "true" else "false"
    case Num(n) => NumberString(n)
    case Str(s) => s
    case Arr(es) => CommaJoined(seq(|es|, i requires 0 <= i < |es| => ElementKey(es[i])))
    case Obj(_) => "[object Object]"
    case Function(name) => name
  }

  /** An array element's part of `String(array)`: empty for `null` and `undefined`. */
  function ElementKey(v: JsValue): string
    decreases v, 1
  {
    if v == Undefined || v == Null then "" else ToPropertyKey(v)
  }

  /** The key of a whole number starts with a minus sign exactly when it is negative. */
  lemma NumberKeySign(n: int)
    ensures |ToPropertyKey(Num(Int(n)))| > 0
    ensures ToPropertyKey(Num(Int(n)))[0] == '-' <==> n < 0
  {
    if n >= 0 {
      assert IsDecimalDigit(NatString(n)[0]);
    }
  }

  /** Whole numbers are told apart by the keys they convert to. */
  lemma NumberKeysDistinct(a: int, b: int)
    requires ToPropertyKey(Num(Int(a))) == ToPropertyKey(Num(Int(b)))
    ensures a == b
  {
    NumberKeySign(a);
    NumberKeySign(b);
    if a < 0 {
      var ka, kb := NumberString(Int(a)), NumberString(Int(b));
      assert ka[1..] == NatString(-a) && kb[1..] == NatString(-b);
    }
  }

  /** A whole number and its decimal string name the same property. */
  lemma NumberAndStringKeysAgree(n: nat)
    ensures ToPropertyKey(Num(Int(n))) == ToPropertyKey(Str(NatString(n)))
  {
  }

  lemma PairKey()
    ensures ToPropertyKey(Arr([Num(Int(2)), Num(Int(3))])) == "2,3"
  {
    var es := [Num(Int(2)), Num(Int(3))];
    var parts := seq(|es|, i requires 0 <= i < |es| => ElementKey(es[i]));
    assert NatString(2) == "2" && NatString(3) == "3";
    assert parts == ["2", "3"];
    assert CommaJoined(["2", "3"]) == "2" + "," + "3";
  }

  /** `String([1, null, [2, 3]])` is `"1,,2,3"`. */
  lemma ArrayKeyExample()
    ensures ToPropertyKey(Arr([Num(Int(1)), Null, Arr([Num(Int(2)), Num(Int(3))])])) == "1,,2,3"
  {
    var es := [Num(Int(1)), Null, Arr([Num(Int(2)), Num(Int(3))])];
    var parts := seq(|es|, i requires 0 <= i < |es| => ElementKey(es[i]));
    PairKey();
    assert NatString(1) == "1";
    assert parts == ["1", "", "2,3"];
    assert CommaJoined(["1", "", "2,3"]) == "1" + "," + ("" + "," + "2,3");
  }

  /** The six falsy values of JavaScript, `-0` aside. */
  lemma FalsyValues(v: JsValue)
    ensures !Truthy(v) <==>
      v == Undefined || v == Null || v == Bool(false) || v == Num(Int(0)) || v == Num(NaN) || v == Str("")
  {
  }
}

/** JavaScript values as option records and messages carry them, and the
    built-in operations the core relies on: property lookup, `typeof`,
    conversion to string and the remainder operator. */
module Js {

  datatype Option<T> = None | Some(value: T)

  /** A JavaScript value. Numbers are modelled as integers. */
  datatype JsValue =
    | Undefined
    | Null
    | Bool(b: bool)
    | Num(n: int)
    | Str(s: string)
    | Arr(items: seq<JsValue>)
    | Obj(fields: map<string, JsValue>)

  /** A plain object used as a dictionary from property names to values. */
  type Dict = map<string, JsValue>

  /** Reading a property: an absent property reads as `undefined`. */
  function Get(d: Dict, k: string): JsValue {
    if k in d then d[k] else Undefined
  }

  /** The possible answers of the `typeof` operator on a JsValue. */
  datatype JsType = TUndefined | TObject | TBoolean | TNumber | TString

  /** `typeof v`; `null` and arrays are both "object". */
  function TypeOf(v: JsValue): (t: JsType)
    ensures t == TUndefined <==> v.Undefined?
    ensures t == TString <==> v.Str?
    ensures t == TNumber <==> v.Num?
  {
    match v
    case Undefined => TUndefined
    case Null => TObject
    case Bool(_) => TBoolean
    case Num(_) => TNumber
    case Str(_) => TString
    case Arr(_) => TObject
    case Obj(_) => TObject
  }

  predicate IsDigit(c: char) {
    '0' <= c <= '9'
  }

  predicate AllDigits(s: string) {
    forall i :: 0 <= i < |s| ==> IsDigit(s[i])
  }

  function DigitChar(d: nat): (c: char)
    requires d < 10
    ensures IsDigit(c) && c as int - '0' as int == d
  {
    (48 + d) as char
  }

  /** The decimal numeral of a non-negative integer, as `String(n)` writes it. */
  function Decimal(n: nat): string
    decreases n
  {
    if n < 10 then [DigitChar(n)] else Decimal(n / 10) + [DigitChar(n % 10)]
  }

  /** The number a string of decimal digits denotes. */
  function DigitsValue(s: string): nat
    requires AllDigits(s)
  {
    if s == [] then 0
    else 10 * DigitsValue(s[..|s| - 1]) + (s[|s| - 1] as int - '0' as int)
  }

  /** A numeral has at least one digit, only digits, and no more than k
      digits for a number below 10^k. */
  lemma {:induction false} DecimalShape(n: nat, k: nat)
    requires 1 <= k && n < Pow10(k)
    ensures 1 <= |Decimal(n)| <= k && AllDigits(Decimal(n))
    decreases n
  {
    if n >= 10 {
      assert Pow10(1) == 10;
      assert n / 10 < Pow10(k - 1);
      DecimalShape(n / 10, k - 1);
    }
  }

  function Pow10(k: nat): (p: nat)
    ensures p >= 1
  {
    if k == 0 then 1 else 10 * Pow10(k - 1)
  }

  /** Reading back the numeral of n gives n. */
  lemma {:induction false} DecimalValue(n: nat)
    ensures AllDigits(Decimal(n)) && DigitsValue(Decimal(n)) == n
    decreases n
  {
    NumeralBound(n);
    DecimalShape(n, |Decimal(n)|);
    if n >= 10 {
      DecimalValue(n / 10);
      var d := Decimal(n);
      assert d[..|d| - 1] == Decimal(n / 10);
    }
  }

  /** n is below 10 to the power of the length of its numeral. */
  lemma {:induction false} NumeralBound(n: nat)
    ensures |Decimal(n)| >= 1 && n < Pow10(|Decimal(n)|)
    decreases n
  {
    if n >= 10 {
      NumeralBound(n / 10);
    }
  }

  /** Leading zeros do not change the value of a numeral. */
  lemma {:induction false} LeadingZeroValue(s: string)
    requires AllDigits(s)
    ensures AllDigits("0" + s) && DigitsValue("0" + s) == DigitsValue(s)
    decreases |s|
  {
    var z := "0" + s;
    assert AllDigits(z) by {
      forall i | 0 <= i < |z| ensures IsDigit(z[i]) {
        if i > 0 { assert z[i] == s[i - 1]; }
      }
    }
    if s != [] {
      var init := s[..|s| - 1];
      LeadingZeroValue(init);
      assert z[..|z| - 1] == "0" + init;
    }
  }

  /** `String(n)` for a number held as an integer. */
  function NumberToString(n: int): string {
    if n < 0 then "-" + Decimal(-n) else Decimal(n)
  }

  /** Array.prototype.join: the strings separated by `sep`. */
  function Join(parts: seq<string>, sep: string): string {
    if |parts| == 0 then ""
    else if |parts| == 1 then parts[0]
    else Join(parts[..|parts| - 1], sep) + sep + parts[|parts| - 1]
  }

  /** String conversion as `'' + v` performs it. An array converts to its
      elements joined by commas, `null` and `undefined` elements becoming
      empty; any other object converts to "[object Object]". */
  function ToStr(v: JsValue): string
    decreases v
  {
    match v
    case Undefined => "undefined"
    case Null => "null"
    case Bool(b) => if b then "true" else "false"
    case Num(n) => NumberToString(n)
    case Str(s) => s
    case Arr(items) =>
      Join(seq(|items|, i requires 0 <= i < |items| =>
        if items[i].Undefined? || items[i].Null? then "" else ToStr(items[i])), ",")
    case Obj(_) => "[object Object]"
  }

  /** The `%` operator for a positive divisor: the remainder of truncating
      division, which takes the sign of the dividend. */
  function Rem(a: int, b: int): (r: int)
    requires b > 0
    ensures r == 0 <==> a % b == 0
    ensures a >= 0 ==> r == a % b
    ensures a < 0 ==> -b < r <= 0
    ensures (a - r) % b == 0
  {
    if a >= 0 then
      assert a - a % b == b * (a / b);
      MultipleRemainder(a / b, b);
      a % b
    else
      NegatedRemainderZero(a, b);
      assert a + (-a) % b == b * -((-a) / b);
      MultipleRemainder(-((-a) / b), b);
      -((-a) % b)
  }

  lemma NegatedRemainderZero(a: int, b: int)
    requires b > 0
    ensures (-a) % b == 0 <==> a % b == 0
  {
    if (-a) % b == 0 {
      var q := (-a) / b;
      assert a == b * (-q);
      MultipleRemainder(-q, b);
    }
    if a % b == 0 {
      var q := a / b;
      assert -a == b * (-q);
      MultipleRemainder(-q, b);
    }
  }

  lemma MultipleRemainder(k: int, b: int)
    requires b > 0
    ensures (b * k) % b == 0
  {
    var x := b * k;
    var q, r := x / b, x % b;
    assert x == b * q + r;
    assert b * (k - q) == r by { assert b * (k - q) == b * k - b * q; }
    if k - q > 0 {
      ProductAtLeast(b, k - q);
    } else if k - q < 0 {
      ProductAtLeast(b, q - k);
    }
  }

  lemma ProductAtLeast(b: int, m: int)
    requires b > 0 && m > 0
    ensures b * m >= b
  {
    assert b * m == b * (m - 1) + b;
  }
}

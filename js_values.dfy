/**
 * The few JavaScript value semantics the accessory relies on: numbers that
 * may be NaN, truthiness, `Array.prototype.indexOf` and `parseInt` without a
 * radix, with the decimal spelling of a non-negative integer as its partner.
 */
module JsValues {

  datatype Option<T> = None | Some(value: T) {
    function GetOr(default: T): T {
      match this
      case Some(v) => v
      case None => default
    }
  }

  /**
   * A JavaScript number as it reaches a preset identifier: an integer, or a
   * value that is not one (NaN, or `undefined` read from an empty array).
   * Both of the latter are falsy and equal to no array element.
   */
  datatype Num = Int(n: int) | NaN

  /** JavaScript truthiness of a number: neither 0 nor NaN. */
  predicate Truthy(x: Num) {
    x.Int? && x.n != 0
  }

  /** `s.indexOf(x)`: the first index holding x, or -1. */
  function IndexOf(s: seq<int>, x: int): (r: int)
    ensures -1 <= r < |s|
    ensures r == -1 <==> x !in s
    ensures 0 <= r ==> s[r] == x && x !in s[..r]
  {
    if |s| == 0 then -1
    else if s[0] == x then 0
    else
      var k := IndexOf(s[1..], x);
      assert s[1..][..if k < 0 then 0 else k] == s[1..1 + if k < 0 then 0 else k];
      if k < 0 then -1 else k + 1
  }

  /** `s.indexOf(x)` for a number that may be NaN: strict equality never matches NaN. */
  function IndexOfNum(s: seq<int>, x: Num): (r: int)
    ensures -1 <= r < |s|
    ensures r == -1 <==> (x.NaN? || x.n !in s)
  {
    match x
    case NaN => -1
    case Int(n) => IndexOf(s, n)
  }

  // ---------------------------------------------------------------------------
  // parseInt

  /** The characters `parseInt` skips at the start of its argument (white space and line terminators). */
  predicate IsWhiteSpace(c: char) {
    // tab, vertical tab, form feed, space, no-break space, byte order mark
    c == '\t' || c == '\U{B}' || c == '\U{C}' || c == ' ' || c == '\U{A0}' || c == '\U{FEFF}'
    // line feed, carriage return, line and paragraph separators
    || c == '\n' || c == '\r' || c == '\U{2028}' || c == '\U{2029}'
    // the other space separators of Unicode category Zs
    || c == '\U{1680}' || ('\U{2000}' <= c <= '\U{200A}') || c == '\U{202F}' || c == '\U{205F}' || c == '\U{3000}'
  }

  /** The string without its leading white space. */
  function TrimStart(s: string): (t: string)
    ensures |t| <= |s|
  {
    if |s| > 0 && IsWhiteSpace(s[0]) then TrimStart(s[1..]) else s
  }

  /** Trimming removes exactly the leading run of white space: what is left is a suffix that does not start with white space. */
  lemma {:induction false} TrimStartSuffix(s: string)
    ensures var t := TrimStart(s);
      && t == s[|s| - |t|..]
      && (|t| > 0 ==> !IsWhiteSpace(t[0]))
      && forall i :: 0 <= i < |s| - |t| ==> IsWhiteSpace(s[i])
    decreases |s|
  {
    if |s| > 0 && IsWhiteSpace(s[0]) {
      TrimStartSuffix(s[1..]);
    }
  }

  /** The value of a digit character in radix 16 (letters in either case), or 16 for any other character. */
  function DigitValue(c: char): (v: int)
    ensures 0 <= v <= 16
  {
    if '0' <= c <= '9' then c as int - '0' as int
    else if 'a' <= c <= 'f' then c as int - 'a' as int + 10
    else if 'A' <= c <= 'F' then c as int - 'A' as int + 10
    else 16
  }

  predicate IsDigit(c: char, radix: int) {
    DigitValue(c) < radix
  }

  predicate AllDigits(s: string, radix: int) {
    forall i :: 0 <= i < |s| ==> IsDigit(s[i], radix)
  }

  /** The length of the longest prefix of s made of radix digits. */
  function DigitPrefixLength(s: string, radix: int): (n: nat)
    ensures n <= |s|
  {
    if |s| == 0 || !IsDigit(s[0], radix) then 0
    else 1 + DigitPrefixLength(s[1..], radix)
  }

  /** The digit prefix is all digits, and is followed by a non-digit or by the end of the string. */
  lemma {:induction false} DigitPrefixMaximal(s: string, radix: int)
    ensures var n := DigitPrefixLength(s, radix);
      AllDigits(s[..n], radix) && (n < |s| ==> !IsDigit(s[n], radix))
    decreases |s|
  {
    if |s| > 0 && IsDigit(s[0], radix) {
      DigitPrefixMaximal(s[1..], radix);
      var k := DigitPrefixLength(s[1..], radix);
      assert s[..k + 1] == [s[0]] + s[1..][..k];
    }
  }

  /** The value of a string of digits, most significant first (any other character counts as 16). */
  function DigitsValue(ds: string, radix: nat): nat
  {
    if |ds| == 0 then 0
    else DigitsValue(ds[..|ds| - 1], radix) * radix + DigitValue(ds[|ds| - 1])
  }

  /**
   * `parseInt(s)` with no radix: skip leading white space, take an optional
   * sign, switch to radix 16 after `0x`/`0X`, then read the longest run of
   * digits; NaN when that run is empty.
   */
  function ParseInt(s: string): Num {
    var t := TrimStart(s);
    var negative := |t| > 0 && t[0] == '-';
    var u := if |t| > 0 && (t[0] == '-' || t[0] == '+') then t[1..] else t;
    var hex := |u| >= 2 && u[0] == '0' && (u[1] == 'x' || u[1] == 'X');
    var n := if hex then DigitPrefixLength(u[2..], 16) else DigitPrefixLength(u, 10);
    if n == 0 then NaN
    else
      var v: int := if hex then DigitsValue(u[2..][..n], 16) else DigitsValue(u[..n], 10);
      Int(if negative then -v else v)
  }

  // ---------------------------------------------------------------------------
  // Decimal spelling, the form in which object keys name integer presets

  function DigitChar(d: int): (c: char)
    requires 0 <= d < 10
    ensures IsDigit(c, 10) && DigitValue(c) == d
  {
    ('0' as int + d) as char
  }

  /** The decimal spelling of a non-negative integer, as `String(n)` gives it. */
  function DecimalString(n: nat): (s: string)
    decreases n
  {
    if n < 10 then [DigitChar(n)] else DecimalString(n / 10) + [DigitChar(n % 10)]
  }

  /** A decimal spelling is a non-empty run of decimal digits whose value is n, with no leading zero. */
  lemma {:induction false} DecimalStringDigits(n: nat)
    ensures var s := DecimalString(n);
      && |s| > 0 && AllDigits(s, 10) && DigitsValue(s, 10) == n
      && (s[0] == '0' ==> n == 0 && |s| == 1)
    decreases n
  {
    if n >= 10 {
      DecimalStringDigits(n / 10);
      var s := DecimalString(n);
      assert s[..|s| - 1] == DecimalString(n / 10);
    }
  }

  /** Appending a non-digit after a run of digits leaves the digit prefix where it was. */
  lemma {:induction false} DigitPrefixOfDigits(ds: string, rest: string, radix: int)
    requires AllDigits(ds, radix)
    requires |rest| == 0 || !IsDigit(rest[0], radix)
    ensures DigitPrefixLength(ds + rest, radix) == |ds|
    decreases |ds|
  {
    if |ds| > 0 {
      DigitPrefixOfDigits(ds[1..], rest, radix);
      assert (ds + rest)[1..] == ds[1..] + rest;
    }
  }

  /**
   * `parseInt` reads back the decimal spelling of n and ignores whatever
   * follows it, when that does not start with a digit; a lone `0` followed
   * by `x` or `X` is the exception, since that starts a hexadecimal number.
   */
  lemma ParseIntDecimal(n: nat, rest: string)
    requires |rest| == 0 || !IsDigit(rest[0], 10)
    requires n == 0 && |rest| > 0 ==> rest[0] != 'x' && rest[0] != 'X'
    ensures ParseInt(DecimalString(n) + rest) == Int(n)
  {
    var s := DecimalString(n);
    DecimalStringDigits(n);
    var u := s + rest;
    assert !(|u| >= 2 && u[0] == '0' && (u[1] == 'x' || u[1] == 'X')) by {
      if |s| >= 2 {
        assert u[1] == s[1];
      }
    }
    assert IsDigit(u[0], 10);
    ParseIntOfDigit(u);
    DigitPrefixOfDigits(s, rest, 10);
    assert u[..|s|] == s;
  }

  /** A string that starts with a decimal digit, and not with `0x` or `0X`, parses from its decimal digit prefix. */
  lemma ParseIntOfDigit(u: string)
    requires |u| > 0 && IsDigit(u[0], 10)
    requires !(|u| >= 2 && u[0] == '0' && (u[1] == 'x' || u[1] == 'X'))
    ensures var n := DigitPrefixLength(u, 10);
      n > 0 && ParseInt(u) == Int(DigitsValue(u[..n], 10))
  {
    assert !IsWhiteSpace(u[0]) && u[0] != '-' && u[0] != '+';
    assert TrimStart(u) == u;
  }

  /** A string with no digit at all (after white space and sign) parses to NaN. */
  lemma ParseIntNoDigits(s: string)
    requires forall i :: 0 <= i < |s| ==> !IsDigit(s[i], 10)
    ensures ParseInt(s) == NaN
  {
    var t := TrimStart(s);
    TrimStartSuffix(s);
    var u := if |t| > 0 && (t[0] == '-' || t[0] == '+') then t[1..] else t;
    assert |u| > 0 ==> u[0] == s[|s| - |u|];
  }
}

/**
 * The JavaScript built-ins the resource tree leans on: the global `parseInt`
 * called without a radix, the decimal text of an integer (`"" + n`), and the
 * property key JavaScript makes of a value that may be `undefined`.
 */
module JsBuiltins {

  datatype Option<T> = None | Some(value: T)

  /** The property key a possibly-undefined string becomes: `obj[undefined]` reads key "undefined". */
  function PropertyKey(v: Option<string>): (k: string)
    ensures v.Some? ==> k == v.value
    ensures v.None? ==> k == "undefined"
  {
    if v.Some? then v.value else "undefined"
  }

  /** `v || ""`: an absent or empty string falls back to the empty string. */
  function OrEmpty(v: Option<string>): string
  {
    if v.Some? then v.value else ""
  }

  /** StrWhiteSpaceChar of ECMAScript: the WhiteSpace and LineTerminator code points. */
  predicate IsStrWhiteSpace(c: char)
  {
    var u := c as int;
    u == 0x09 || u == 0x0A || u == 0x0B || u == 0x0C || u == 0x0D || u == 0x20
    || u == 0xA0 || u == 0x1680 || (0x2000 <= u <= 0x200A) || u == 0x2028
    || u == 0x2029 || u == 0x202F || u == 0x205F || u == 0x3000 || u == 0xFEFF
  }

  /** The value of a letter or digit in radix 36; 36 for any other character. */
  function DigitValue(c: char): (d: nat)
    ensures d <= 36
  {
    if '0' <= c <= '9' then c as int - '0' as int
    else if 'a' <= c <= 'z' then c as int - 'a' as int + 10
    else if 'A' <= c <= 'Z' then c as int - 'A' as int + 10
    else 36
  }

  predicate IsRadixDigit(c: char, radix: nat)
  {
    DigitValue(c) < radix
  }

  /** The longest prefix of `s` made of digits of `radix`. */
  function DigitRun(s: string, radix: nat): string
  {
    if s != [] && IsRadixDigit(s[0], radix) then [s[0]] + DigitRun(s[1..], radix) else []
  }

  /** The number a digit string denotes in `radix`, most significant digit first. */
  function DigitsValue(z: string, radix: nat): nat
  {
    if z == [] then 0 else DigitsValue(z[..|z| - 1], radix) * radix + DigitValue(z[|z| - 1])
  }

  /** What is left after an optional sign. */
  function Unsigned(t: string): string
  {
    if t != [] && (t[0] == '-' || t[0] == '+') then t[1..] else t
  }

  predicate HasHexPrefix(u: string)
  {
    |u| >= 2 && u[0] == '0' && (u[1] == 'x' || u[1] == 'X')
  }

  /**
   * `parseInt` once the leading white space is gone: one sign is read, "0x"/"0X"
   * switches to radix 16, and the longest run of digits that follows is
   * converted; an empty run gives NaN (`None`).
   */
  function ParseTrimmed(t: string): Option<int>
  {
    var negative := t != [] && t[0] == '-';
    var u := Unsigned(t);
    var radix := if HasHexPrefix(u) then 16 else 10;
    var z := DigitRun(if HasHexPrefix(u) then u[2..] else u, radix);
    var magnitude: int := DigitsValue(z, radix);
    if z == [] then None else Some(if negative then -magnitude else magnitude)
  }

  /** `parseInt(s)` with no radix: leading white space is skipped, then the rest is read. */
  function ParseInt(s: string): Option<int>
  {
    if s != [] && IsStrWhiteSpace(s[0]) then ParseInt(s[1..]) else ParseTrimmed(s)
  }

  /**
   * Where white space has ended, parseInt yields a number exactly when a decimal
   * digit follows the optional sign -- except that after "0x"/"0X" a hexadecimal
   * digit must follow.
   */
  predicate StartsNumber(t: string)
  {
    var u := Unsigned(t);
    if HasHexPrefix(u) then |u| > 2 && IsRadixDigit(u[2], 16) else u != [] && IsRadixDigit(u[0], 10)
  }

  lemma ParseTrimmedDefined(t: string)
    ensures ParseTrimmed(t).Some? <==> StartsNumber(t)
  {
  }

  function DigitChar(d: nat): (c: char)
    requires d < 10
    ensures DigitValue(c) == d
  {
    ('0' as int + d) as char
  }

  /** The decimal text of a natural number, without leading zeros. */
  function NatToString(n: nat): string
  {
    if n < 10 then [DigitChar(n)] else NatToString(n / 10) + [DigitChar(n % 10)]
  }

  /** `"" + n` for an integer number. */
  function IntToString(n: int): string
  {
    if n < 0 then "-" + NatToString(-n) else NatToString(n)
  }

  /** The decimal text is made of decimal digits and starts with a zero only when it is "0". */
  lemma {:induction false} NatToStringDigits(n: nat)
    ensures NatToString(n) != []
    ensures forall i :: 0 <= i < |NatToString(n)| ==> IsRadixDigit(NatToString(n)[i], 10)
    ensures DigitValue(NatToString(n)[0]) == 0 ==> n == 0 && |NatToString(n)| == 1
  {
    if n >= 10 {
      NatToStringDigits(n / 10);
    }
  }

  lemma {:induction false} NatToStringValue(n: nat)
    ensures DigitsValue(NatToString(n), 10) == n
  {
    if n >= 10 {
      var s := NatToString(n);
      NatToStringValue(n / 10);
      assert s[..|s| - 1] == NatToString(n / 10);
    }
  }

  lemma {:induction false} DigitRunOfDigits(z: string, radix: nat)
    requires forall i :: 0 <= i < |z| ==> IsRadixDigit(z[i], radix)
    ensures DigitRun(z, radix) == z
  {
    if z != [] {
      DigitRunOfDigits(z[1..], radix);
    }
  }

  /** A run of decimal digits, signed or not, reads back as its value. */
  lemma ParseTrimmedOfDigits(digits: string, negative: bool)
    requires digits != [] && !HasHexPrefix(digits)
    requires DigitRun(digits, 10) == digits
    ensures ParseTrimmed(if negative then "-" + digits else digits)
            == Some(if negative then 0 - DigitsValue(digits, 10) else DigitsValue(digits, 10))
  {
    var t := if negative then "-" + digits else digits;
    assert Unsigned(t) == digits;
  }

  /** Reading back the decimal text of an integer with parseInt gives that integer. */
  lemma ParseIntOfIntToString(n: int)
    ensures ParseInt(IntToString(n)) == Some(n)
  {
    var m: nat := if n < 0 then -n else n;
    var digits := NatToString(m);
    NatToStringDigits(m);
    DigitRunOfDigits(digits, 10);
    NatToStringValue(m);
    ParseTrimmedOfDigits(digits, n < 0);
    assert IntToString(n) == if n < 0 then "-" + digits else digits;
    assert !IsStrWhiteSpace(IntToString(n)[0]);
  }
}

/** The two integer/string conversions the calendar code relies on.

    - `parseInt(string, radix)` (section 19.2.5 of ECMA-262): the Calendar
      constructor calls it without a radix on a string year, and `fromJSON`
      calls it with radix 10 on every key.
    - Number-to-string for integers: `json[this.year] = …` turns the year
      into a property key.

    NaN is represented by `None`.
 */
module JsNumbers {
  import opened Results

  /** WhiteSpace and LineTerminator code points that `parseInt` skips. */
  predicate IsJsWhitespace(c: char) {
    var n := c as int;
    n == 0x09 || n == 0x0A || n == 0x0B || n == 0x0C || n == 0x0D || n == 0x20
    || n == 0xA0 || n == 0x1680 || (0x2000 <= n <= 0x200A) || n == 0x2028 || n == 0x2029
    || n == 0x202F || n == 0x205F || n == 0x3000 || n == 0xFEFF
  }

  function TrimStart(s: string): (t: string)
    ensures |t| <= |s| && t == s[|s| - |t|..]
    ensures |t| > 0 ==> !IsJsWhitespace(t[0])
  {
    if |s| > 0 && IsJsWhitespace(s[0]) then TrimStart(s[1..]) else s
  }

  /** Value of `c` as a digit in radices up to 36 ('a'/'A' = 10 … 'z'/'Z' = 35). */
  function DigitOf(c: char): (d: Option<nat>)
    ensures d.Some? ==> d.value < 36
  {
    if '0' <= c <= '9' then Some(c as int - '0' as int)
    else if 'a' <= c <= 'z' then Some(c as int - 'a' as int + 10)
    else if 'A' <= c <= 'Z' then Some(c as int - 'A' as int + 10)
    else None
  }

  predicate IsDigitIn(c: char, radix: nat) {
    DigitOf(c).Some? && DigitOf(c).value < radix
  }

  /** The longest prefix of `s` made of digits of `radix`. */
  function DigitPrefix(s: string, radix: nat): (p: string)
    ensures |p| <= |s| && p == s[..|p|]
    ensures forall i :: 0 <= i < |p| ==> IsDigitIn(p[i], radix)
    ensures |p| < |s| ==> !IsDigitIn(s[|p|], radix)
  {
    if |s| == 0 || !IsDigitIn(s[0], radix) then [] else [s[0]] + DigitPrefix(s[1..], radix)
  }

  /** Value of `c` as a digit of `radix`; 0 for any other character. */
  function CharValue(c: char, radix: nat): (d: nat)
    ensures IsDigitIn(c, radix) ==> Some(d) == DigitOf(c)
  {
    if IsDigitIn(c, radix) then DigitOf(c).value else 0
  }

  /** Value of a string of digits of `radix`, most significant first. It is
      only applied to strings made of such digits. */
  function DigitsValue(s: string, radix: nat): nat {
    if |s| == 0 then 0 else radix * DigitsValue(s[..|s| - 1], radix) + CharValue(s[|s| - 1], radix)
  }

  /** The longest digit prefix of `u` in `radix`, read as a number; no
      digit at all gives NaN. */
  function LeadingDigits(u: string, radix: nat): (r: Option<nat>)
    ensures r.None? <==> |u| == 0 || !IsDigitIn(u[0], radix)
  {
    var digits := DigitPrefix(u, radix);
    if |digits| == 0 then None else Some(DigitsValue(digits, radix))
  }

  /** The digits after the sign: a "0x"/"0X" prefix switches to radix 16
      when the radix is omitted or 16; otherwise an omitted radix is 10. */
  function ParseUnsigned(u: string, radix: int): (r: Option<nat>)
    requires radix == 0 || 2 <= radix <= 36
  {
    if (radix == 0 || radix == 16) && HasHexPrefix(u) then LeadingDigits(u[2..], 16)
    else LeadingDigits(u, if radix == 0 then 10 else radix)
  }

  predicate HasHexPrefix(u: string) {
    |u| >= 2 && u[0] == '0' && (u[1] == 'x' || u[1] == 'X')
  }

  function Signed(v: Option<nat>, negative: bool): Option<int> {
    match v
    case None => None
    case Some(n) => Some(if negative then -(n as int) else n as int)
  }

  /** `parseInt(s, radix)`, where radix 0 stands for an omitted radix:
      skip leading white space, read an optional sign, then digits. */
  function ParseInt(s: string, radix: int): (r: Option<int>)
    ensures radix != 0 && (radix < 2 || radix > 36) ==> r == None
  {
    if radix != 0 && (radix < 2 || radix > 36) then None
    else
      var t := TrimStart(s);
      var negative := |t| > 0 && t[0] == '-';
      var u := if |t| > 0 && (t[0] == '-' || t[0] == '+') then t[1..] else t;
      Signed(ParseUnsigned(u, radix), negative)
  }

  function DecimalChar(d: nat): (c: char)
    requires d < 10
    ensures IsDigitIn(c, 10) && DigitOf(c) == Some(d)
  {
    ('0' as int + d) as char
  }

  /** Decimal digits of a natural number, no leading zeros. */
  function NatToDecimal(n: nat): (s: string)
    ensures |s| > 0
    ensures forall i :: 0 <= i < |s| ==> IsDigitIn(s[i], 10)
    ensures DigitsValue(s, 10) == n
  {
    if n < 10 then
      [DecimalChar(n)]
    else
      var s := NatToDecimal(n / 10) + [DecimalChar(n % 10)];
      assert s[..|s| - 1] == NatToDecimal(n / 10);
      s
  }

  /** The property key an integer year becomes (Number::toString). */
  function IntToString(n: int): (s: string)
    ensures |s| > 0
  {
    if n < 0 then "-" + NatToDecimal(-n) else NatToDecimal(n)
  }

  /** An all-digit string is its own longest digit prefix. */
  lemma {:induction false} DigitPrefixOfDigits(s: string, radix: nat)
    requires forall i :: 0 <= i < |s| ==> IsDigitIn(s[i], radix)
    ensures DigitPrefix(s, radix) == s
  {
    if |s| > 0 {
      DigitPrefixOfDigits(s[1..], radix);
    }
  }

  lemma ParseUnsignedDecimal(ds: string, radix: int)
    requires radix == 0 || radix == 10
    requires |ds| > 0 && forall i :: 0 <= i < |ds| ==> IsDigitIn(ds[i], 10)
    ensures ParseUnsigned(ds, radix) == Some(DigitsValue(ds, 10))
  {
    assert !HasHexPrefix(ds) by {
      if |ds| >= 2 {
        assert IsDigitIn(ds[1], 10);
      }
    }
    assert ParseUnsigned(ds, radix) == LeadingDigits(ds, 10);
    DigitPrefixOfDigits(ds, 10);
  }

  /** A leading minus sign is read as the sign: no white space is
      skipped and the rest is read as digits. */
  lemma ParseIntNegative(u: string, radix: int)
    requires radix == 0 || 2 <= radix <= 36
    ensures ParseInt("-" + u, radix) == Signed(ParseUnsigned(u, radix), true)
  {
    var s := "-" + u;
    assert TrimStart(s) == s && s[0] == '-' && s[1..] == u;
  }

  /** A string that starts with a decimal digit is read as digits
      directly. */
  lemma ParseIntDigitFirst(u: string, radix: int)
    requires radix == 0 || 2 <= radix <= 36
    requires |u| > 0 && '0' <= u[0] <= '9'
    ensures ParseInt(u, radix) == Signed(ParseUnsigned(u, radix), false)
  {
    assert !IsJsWhitespace(u[0]) && u[0] != '-' && u[0] != '+';
    assert TrimStart(u) == u;
  }

  /** A minus sign in front of digits that parse to `v` gives -v. */
  lemma ParseNegative(u: string, radix: int, v: nat)
    requires radix == 0 || 2 <= radix <= 36
    requires ParseUnsigned(u, radix) == Some(v)
    ensures ParseInt("-" + u, radix) == Some(-(v as int))
  {
    ParseIntNegative(u, radix);
  }

  /** Digits that parse to `v`, starting with a decimal digit, give v. */
  lemma ParsePlain(u: string, radix: int, v: nat)
    requires radix == 0 || 2 <= radix <= 36
    requires |u| > 0 && '0' <= u[0] <= '9'
    requires ParseUnsigned(u, radix) == Some(v)
    ensures ParseInt(u, radix) == Some(v as int)
  {
    ParseIntDigitFirst(u, radix);
  }

  /** The string an integer becomes as a key parses back to that integer,
      with radix 10 (as `fromJSON` does) and with no radix (as the Calendar
      constructor does). */
  lemma IntToStringRoundTrip(n: int)
    ensures ParseInt(IntToString(n), 10) == Some(n)
    ensures ParseInt(IntToString(n), 0) == Some(n)
  {
    var ds := NatToDecimal(if n < 0 then -n else n);
    ParseUnsignedDecimal(ds, 10);
    ParseUnsignedDecimal(ds, 0);
    if n < 0 {
      ParseNegative(ds, 10, -n);
      ParseNegative(ds, 0, -n);
    } else {
      assert '0' <= ds[0] <= '9' by {
        assert IsDigitIn(ds[0], 10);
      }
      ParsePlain(ds, 10, n);
      ParsePlain(ds, 0, n);
    }
  }

  function Power(base: nat, n: nat): nat {
    if n == 0 then 1 else base * Power(base, n - 1)
  }

  lemma Regroup(r: int, d: int, p: int, v: int, l: int)
    ensures r * (d * p + v) + l == d * (r * p) + (r * v + l)
  {
    assert r * (d * p) == d * (r * p);
  }

  /** Putting a digit in front of `t` adds its weight radix^|t|. */
  lemma {:induction false} DigitsValueCons(c: char, t: string, radix: nat)
    requires IsDigitIn(c, radix)
    requires forall i :: 0 <= i < |t| ==> IsDigitIn(t[i], radix)
    ensures forall i :: 0 <= i < |[c] + t| ==> IsDigitIn(([c] + t)[i], radix)
    ensures DigitsValue([c] + t, radix) == DigitOf(c).value * Power(radix, |t|) + DigitsValue(t, radix)
  {
    var s := [c] + t;
    assert forall i :: 0 <= i < |s| ==> IsDigitIn(s[i], radix) by {
      forall i | 0 <= i < |s| ensures IsDigitIn(s[i], radix) {
        if i > 0 { assert s[i] == t[i - 1]; }
      }
    }
    if |t| > 0 {
      var t' := t[..|t| - 1];
      var last := DigitOf(t[|t| - 1]).value;
      var d := DigitOf(c).value;
      assert s[..|s| - 1] == [c] + t';
      DigitsValueCons(c, t', radix);
      assert s[|s| - 1] == t[|t| - 1];
      assert DigitsValue(s, radix) == radix * DigitsValue([c] + t', radix) + last;
      assert DigitsValue(t, radix) == radix * DigitsValue(t', radix) + last;
      Regroup(radix, d, Power(radix, |t'|), DigitsValue(t', radix), last);
    }
  }
}

/** Month masks as strings of binary digits and as integers.

    The code builds a month's mask as a string of '0'/'1' characters, most
    significant digit first, and turns it into a number with
    `parseInt(str, 2)`. Bit `k` of that number (counting from 0 at the
    least significant end) is the character `k` places from the right.
 */
module Masks {

  function Pow2(n: nat): (p: nat)
    ensures p >= 1
  {
    if n == 0 then 1 else 2 * Pow2(n - 1)
  }

  predicate IsBinaryDigit(c: char) {
    c == '0' || c == '1'
  }

  predicate IsBinary(s: seq<char>) {
    forall i :: 0 <= i < |s| ==> IsBinaryDigit(s[i])
  }

  function DigitValue(c: char): nat {
    if c == '1' then 1 else 0
  }

  /** `parseInt(s, 2)` for a string of binary digits: read left to right,
      doubling the running value and adding each digit. (`parseInt` of an
      empty string is NaN; the code never parses one, since every month
      string has 28 to 31 digits, and the value 0 here only ends the
      recursion.) */
  function ParseBinary(s: seq<char>): (v: nat)
    requires IsBinary(s)
    ensures v < Pow2(|s|)
  {
    if |s| == 0 then 0 else 2 * ParseBinary(s[..|s| - 1]) + DigitValue(s[|s| - 1])
  }

  /** Bit `k` of `v`: shift right `k` times and look at the lowest bit. */
  predicate Bit(v: nat, k: nat) {
    if k == 0 then v % 2 == 1 else Bit(v / 2, k - 1)
  }

  /** The character-wise complement of a digit string. */
  function Complement(s: seq<char>): (c: seq<char>)
    ensures |c| == |s|
  {
    seq(|s|, i requires 0 <= i < |s| => if s[i] == '1' then '0' else '1')
  }

  /** Bit `k` of the parsed value is the digit `k` places from the right. */
  lemma {:induction false} ParseBinaryBit(s: seq<char>, k: nat)
    requires IsBinary(s)
    requires k < |s|
    ensures Bit(ParseBinary(s), k) <==> s[|s| - 1 - k] == '1'
  {
    var p := s[..|s| - 1];
    assert IsBinary(p);
    var v := ParseBinary(s);
    assert v == 2 * ParseBinary(p) + DigitValue(s[|s| - 1]);
    if k > 0 {
      assert v / 2 == ParseBinary(p);
      ParseBinaryBit(p, k - 1);
      assert p[|p| - 1 - (k - 1)] == s[|s| - 1 - k];
    }
  }

  /** A value below 2^n has no bit at position n or above. */
  lemma {:induction false} NoBitsAbove(v: nat, n: nat, k: nat)
    requires v < Pow2(n)
    requires n <= k
    ensures !Bit(v, k)
  {
    if k == 0 {
      assert v == 0;
    } else if n == 0 {
      assert v == 0;
      NoBitsAbove(v / 2, 0, k - 1);
    } else {
      NoBitsAbove(v / 2, n - 1, k - 1);
    }
  }

  /** Putting a digit in front of `t` adds its weight 2^|t|. */
  lemma {:induction false} ParseBinaryCons(c: char, t: seq<char>)
    requires IsBinaryDigit(c) && IsBinary(t)
    ensures IsBinary([c] + t)
    ensures ParseBinary([c] + t) == DigitValue(c) * Pow2(|t|) + ParseBinary(t)
  {
    var s := [c] + t;
    assert IsBinary(s) by {
      forall i | 0 <= i < |s| ensures IsBinaryDigit(s[i]) {
        if i > 0 { assert s[i] == t[i - 1]; }
      }
    }
    if |t| > 0 {
      var t' := t[..|t| - 1];
      assert s[..|s| - 1] == [c] + t';
      assert IsBinary(t');
      ParseBinaryCons(c, t');
      if c == '1' {
        assert ParseBinary(s) == 2 * (Pow2(|t'|) + ParseBinary(t')) + DigitValue(t[|t| - 1]);
      } else {
        assert ParseBinary(s) == 2 * ParseBinary(t') + DigitValue(t[|t| - 1]);
      }
    }
  }

  /** A string of n '1' digits parses to 2^n - 1. */
  lemma {:induction false} AllOnesValue(s: seq<char>)
    requires forall i :: 0 <= i < |s| ==> s[i] == '1'
    ensures IsBinary(s)
    ensures ParseBinary(s) == Pow2(|s|) - 1
  {
    if |s| > 0 {
      AllOnesValue(s[..|s| - 1]);
    }
  }

  /** Complementing every digit of an n-digit string complements its value
      within n bits. */
  lemma {:induction false} ComplementValue(s: seq<char>)
    requires IsBinary(s)
    ensures IsBinary(Complement(s))
    ensures ParseBinary(Complement(s)) == Pow2(|s|) - 1 - ParseBinary(s)
  {
    var c := Complement(s);
    if |s| > 0 {
      var p := s[..|s| - 1];
      assert c[..|c| - 1] == Complement(p);
      ComplementValue(p);
    }
  }

  /** Powers of two grow with the exponent. */
  lemma {:induction false} Pow2Monotone(i: nat, j: nat)
    requires i <= j
    ensures Pow2(i) <= Pow2(j)
  {
    if i < j {
      Pow2Monotone(i, j - 1);
    }
  }

  lemma {:induction false} Pow2Add(a: nat, b: nat)
    ensures Pow2(a + b) == Pow2(a) * Pow2(b)
  {
    if a > 0 {
      Pow2Add(a - 1, b);
    }
  }

  /** Every month of at most 31 days has its masks below 2^31, the sign
      bit of a 32-bit integer. */
  lemma Pow2ThirtyOne()
    ensures Pow2(31) == 0x8000_0000
  {
    assert Pow2(4) == 16;
    Pow2Add(4, 4);
    Pow2Add(8, 8);
    Pow2Add(16, 15);
    Pow2Add(8, 7);
    Pow2Add(4, 3);
  }

  /** ToUint32: the operand conversion of the JavaScript bitwise
      operators, an integer taken modulo 2^32. */
  function ToUint32(x: int): (u: nat)
    ensures u < 0x1_0000_0000
    ensures 0 <= x < 0x1_0000_0000 ==> u == x
  {
    x % 0x1_0000_0000
  }

  /** A 32-bit result of `&` read back as a signed 32-bit integer is
      positive exactly when it is non-zero and its top bit is clear. */
  predicate Int32Positive(u: nat) {
    0 < u < 0x8000_0000
  }

  /** Bitwise AND of two naturals, lowest bit first. */
  function And(a: nat, b: nat): (r: nat)
    ensures r <= a && r <= b
  {
    if a == 0 || b == 0 then 0
    else 2 * And(a / 2, b / 2) + (if a % 2 == 1 && b % 2 == 1 then 1 else 0)
  }

  /** Bit k of `a & b` is set exactly when it is set in both. */
  lemma {:induction false} AndBit(a: nat, b: nat, k: nat)
    ensures Bit(And(a, b), k) <==> Bit(a, k) && Bit(b, k)
  {
    if a == 0 || b == 0 {
      NoBitsAbove(0, 0, k);
    } else {
      var q := And(a / 2, b / 2);
      var e := if a % 2 == 1 && b % 2 == 1 then 1 else 0;
      assert And(a, b) == 2 * q + e;
      assert (2 * q + e) / 2 == q && (2 * q + e) % 2 == e;
      if k > 0 {
        AndBit(a / 2, b / 2, k - 1);
      }
    }
  }

  /** Masking `v` with the single bit 2^k leaves something exactly when
      bit k of `v` is set. */
  lemma {:induction false} AndPow2(k: nat, v: nat)
    ensures And(Pow2(k), v) > 0 <==> Bit(v, k)
  {
    if v == 0 {
      NoBitsAbove(0, 0, k);
    } else if k > 0 {
      assert Pow2(k) / 2 == Pow2(k - 1) && Pow2(k) % 2 == 0;
      AndPow2(k - 1, v / 2);
    }
  }
}

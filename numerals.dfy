/** Positional numerals: `Number.prototype.toString(radix)` for non-negative integers and its
    inverse, `parseInt` on a string made only of digits. */
module Numerals {

  const DecimalDigits := "0123456789"
  const LowerHexDigits := "0123456789abcdef"
  const UpperHexDigits := "0123456789ABCDEF"

  /** A digit alphabet: at least two distinct digits, the first one standing for zero. */
  predicate IsAlphabet(digits: string)
  {
    |digits| >= 2 && forall i, j :: 0 <= i < j < |digits| ==> digits[i] != digits[j]
  }

  function Pow(b: nat, k: nat): nat
  {
    if k == 0 then 1 else b * Pow(b, k - 1)
  }

  lemma MulCancel(a: nat, c: nat, b: nat)
    requires b > 0 && a * b < c * b
    ensures a < c
  {}

  lemma DivBelow(n: nat, b: nat, m: nat)
    requires b > 0 && n < b * m
    ensures n / b < m
  {
    assert (n / b) * b <= n;
    MulCancel(n / b, m, b);
  }

  lemma DivAtLeast(n: nat, b: nat, m: nat)
    requires b > 0 && b * m <= n
    ensures m <= n / b
  {
    var q, r := n / b, n % b;
    assert n == q * b + r && r < b;
    assert m * b < (q + 1) * b;
    MulCancel(m, q + 1, b);
  }

  lemma DivMod(n: nat, b: nat)
    requires b >= 2
    ensures (n / b) * b + n % b == n && n % b < b
    ensures n > 0 ==> n / b < n
  {}

  predicate AllIn(s: string, digits: string)
  {
    forall k :: 0 <= k < |s| ==> s[k] in digits
  }

  /** `n.toString(|digits|)`: the most significant digit first, no leading zeros, one digit for 0. */
  function NumeralText(n: nat, digits: string): (r: string)
    requires |digits| >= 2
    decreases n
  {
    if n < |digits| then [digits[n]]
    else NumeralText(n / |digits|, digits) + [digits[n % |digits|]]
  }

  /** The value of a digit: its position in the alphabet. */
  function DigitIndex(c: char, digits: string): (d: nat)
    requires c in digits
    ensures d < |digits| && digits[d] == c
  {
    if digits[0] == c then 0 else 1 + DigitIndex(c, digits[1..])
  }

  /** The number a string of digits denotes, read most significant digit first. */
  function NumeralValue(s: string, digits: string): nat
    requires AllIn(s, digits)
  {
    if s == [] then 0
    else NumeralValue(s[..|s| - 1], digits) * |digits| + DigitIndex(s[|s| - 1], digits)
  }

  lemma {:induction false} TextInAlphabet(n: nat, digits: string)
    requires |digits| >= 2
    ensures AllIn(NumeralText(n, digits), digits)
    ensures |NumeralText(n, digits)| >= 1
    decreases n
  {
    if n >= |digits| {
      TextInAlphabet(n / |digits|, digits);
    }
  }

  lemma DigitIndexOf(digits: string, k: nat)
    requires IsAlphabet(digits) && k < |digits|
    ensures DigitIndex(digits[k], digits) == k
  {
    var d := DigitIndex(digits[k], digits);
    assert digits[d] == digits[k];
  }

  lemma ValueOfAppend(s: string, c: char, digits: string)
    requires AllIn(s, digits) && c in digits
    ensures AllIn(s + [c], digits)
    ensures NumeralValue(s + [c], digits) == NumeralValue(s, digits) * |digits| + DigitIndex(c, digits)
  {
    assert (s + [c])[..|s|] == s;
  }

  /** Reading back a numeral gives the number it was written from. */
  lemma {:induction false} ValueOfText(n: nat, digits: string)
    requires IsAlphabet(digits)
    ensures AllIn(NumeralText(n, digits), digits)
    ensures NumeralValue(NumeralText(n, digits), digits) == n
    decreases n
  {
    TextInAlphabet(n, digits);
    var b := |digits|;
    if n < b {
      DigitIndexOf(digits, n);
      assert NumeralText(n, digits) == [] + [digits[n]];
      ValueOfAppend([], digits[n], digits);
    } else {
      var q, r := n / b, n % b;
      DivMod(n, b);
      ValueOfText(q, digits);
      DigitIndexOf(digits, r);
      ValueOfAppend(NumeralText(q, digits), digits[r], digits);
    }
  }

  /** A numeral of a number below b^k has at most k digits. */
  lemma {:induction false} TextLength(n: nat, digits: string, k: nat)
    requires |digits| >= 2 && k >= 1 && n < Pow(|digits|, k)
    ensures |NumeralText(n, digits)| <= k
    decreases k
  {
    var b := |digits|;
    if n >= b && k > 1 {
      DivBelow(n, b, Pow(b, k - 1));
      TextLength(n / b, digits, k - 1);
    }
  }

  /** A numeral of a number at least b^(k-1) has at least k digits. */
  lemma {:induction false} TextLengthAtLeast(n: nat, digits: string, k: nat)
    requires |digits| >= 2 && k >= 1 && Pow(|digits|, k - 1) <= n
    ensures k <= |NumeralText(n, digits)|
    decreases k
  {
    var b := |digits|;
    if k >= 2 {
      assert b * Pow(b, k - 2) <= n;
      DivAtLeast(n, b, Pow(b, k - 2));
      TextLengthAtLeast(n / b, digits, k - 1);
    }
  }

  /** Zero digits in front do not change the value: what `padStart(k, '0')` relies on. */
  lemma {:induction false} LeadingZeros(z: string, s: string, digits: string)
    requires IsAlphabet(digits) && AllIn(s, digits)
    requires forall k :: 0 <= k < |z| ==> z[k] == digits[0]
    ensures AllIn(z + s, digits) && NumeralValue(z + s, digits) == NumeralValue(s, digits)
    decreases |z| + |s|
  {
    var t := z + s;
    if s == [] {
      assert t == z;
      if z != [] {
        DigitIndexOf(digits, 0);
        LeadingZeros(z[..|z| - 1], [], digits);
        assert t[..|t| - 1] == z[..|z| - 1] + [];
      }
    } else {
      LeadingZeros(z, s[..|s| - 1], digits);
      assert t[..|t| - 1] == z + s[..|s| - 1];
      assert t[|t| - 1] == s[|s| - 1];
    }
  }

  /** `String(n)` for a non-negative integer below 10^21, where JavaScript writes plain digits. */
  function Decimal(n: nat): string
  {
    NumeralText(n, DecimalDigits)
  }

  /** The class `[0-9]`, also written `\d`. */
  predicate IsDecimalDigit(c: char)
  {
    '0' <= c <= '9'
  }

  /** A string of decimal digits only. */
  predicate IsDecimal(s: string)
  {
    forall k :: 0 <= k < |s| ==> IsDecimalDigit(s[k])
  }

  /** The decimal digits are the characters of `DecimalDigits`, in order. */
  lemma DecimalDigitAt(c: char)
    ensures IsDecimalDigit(c) <==> c in DecimalDigits
    ensures IsDecimalDigit(c) ==> DecimalDigits[c as int - '0' as int] == c
  {
  }

  /** `parseInt(s, 10)` on a non-empty string of decimal digits. */
  function ParseDecimal(s: string): nat
    requires IsDecimal(s)
  {
    assert AllIn(s, DecimalDigits) by {
      forall k | 0 <= k < |s| ensures s[k] in DecimalDigits {
        DecimalDigitAt(s[k]);
      }
    }
    NumeralValue(s, DecimalDigits)
  }

  /** Decimal text is made of decimal digits and reads back as its number. */
  lemma DecimalRoundTrip(n: nat)
    ensures |Decimal(n)| >= 1
    ensures IsDecimal(Decimal(n))
    ensures ParseDecimal(Decimal(n)) == n
  {
    assert IsAlphabet(DecimalDigits);
    ValueOfText(n, DecimalDigits);
    TextInAlphabet(n, DecimalDigits);
    var t := Decimal(n);
    forall k | 0 <= k < |t| ensures IsDecimalDigit(t[k]) {
      DecimalDigitAt(t[k]);
    }
  }

  lemma DecimalDigitChar(k: nat)
    requires k < 10
    ensures DecimalDigits[k] == ('0' as int + k) as char
  {
  }

  lemma DecimalDigitValue(k: nat)
    requires k < 10
    ensures DigitIndex(DecimalDigits[k], DecimalDigits) == k
  {
    assert IsAlphabet(DecimalDigits);
    DigitIndexOf(DecimalDigits, k);
  }

  /** One- and two-digit numbers in decimal. */
  lemma DecimalBelow100(n: nat)
    requires n <= 99
    ensures n < 10 ==> Decimal(n) == [DecimalDigits[n]]
    ensures 10 <= n ==> Decimal(n) == [DecimalDigits[n / 10], DecimalDigits[n % 10]]
  {
    if 10 <= n {
      assert Decimal(n) == Decimal(n / 10) + [DecimalDigits[n % 10]];
    }
  }

  /** Two decimal digits read as a number below 100. */
  lemma ParseTwoDigits(a: nat, b: nat)
    requires a < 10 && b < 10
    ensures IsDecimal([DecimalDigits[a], DecimalDigits[b]])
    ensures ParseDecimal([DecimalDigits[a], DecimalDigits[b]]) == 10 * a + b
  {
    var t := [DecimalDigits[a], DecimalDigits[b]];
    DecimalDigitChar(a);
    DecimalDigitChar(b);
    DecimalDigitValue(a);
    DecimalDigitValue(b);
    var one := t[..1];
    assert one == [DecimalDigits[a]] && one[..0] == [];
    assert NumeralValue(one, DecimalDigits) == 0 * 10 + a;
    assert t[..|t| - 1] == one;
    assert NumeralValue(t, DecimalDigits) == NumeralValue(one, DecimalDigits) * 10 + b;
  }

  /** Any two decimal digits read as a number below 100. */
  lemma TwoDigitsBelow100(d: string)
    requires |d| == 2 && IsDecimal(d)
    ensures ParseDecimal(d) <= 99
  {
    DecimalDigitAt(d[0]);
    DecimalDigitAt(d[1]);
    var a, b := d[0] as int - '0' as int, d[1] as int - '0' as int;
    assert d == [DecimalDigits[a], DecimalDigits[b]];
    ParseTwoDigits(a, b);
  }
}

/**
 Strings as Python sees them in the batch-script utilities: substring tests
 (`w in t`), the code-point order used by `sorted`, and the decimal rendering
 of an integer used by f-strings.
 */
module Text {

  datatype Option<T> = None | Some(value: T)

  /** The model of `\d`: an ASCII decimal digit. */
  predicate IsDigit(c: char) {
    '0' <= c <= '9'
  }

  /** `w` occurs in `t` starting at index `j`. */
  predicate OccursAt(w: string, t: string, j: int) {
    0 <= j <= |t| - |w| && t[j..j + |w|] == w
  }

  /** Python's `w in t` on two strings: `w` occurs contiguously in `t`. */
  predicate IsSubstring(w: string, t: string) {
    exists j | 0 <= j <= |t| - |w| :: OccursAt(w, t, j)
  }

  /** `t` ends with `w`. */
  predicate IsSuffix(w: string, t: string) {
    |w| <= |t| && t[|t| - |w|..] == w
  }

  // ---------------------------------------------------------------------------
  // Code-point lexicographic order (Python's `<` on str)
  // ---------------------------------------------------------------------------

  /** `a` sorts strictly before `b`: a proper prefix, or smaller at the first difference. */
  predicate Less(a: string, b: string)
    decreases |a|
  {
    |b| > 0 && (|a| == 0 || a[0] < b[0] || (a[0] == b[0] && Less(a[1..], b[1..])))
  }

  lemma {:induction false} LessIrreflexive(a: string)
    ensures !Less(a, a)
    decreases |a|
  {
    if |a| > 0 {
      LessIrreflexive(a[1..]);
    }
  }

  lemma {:induction false} LessTransitive(a: string, b: string, c: string)
    requires Less(a, b) && Less(b, c)
    ensures Less(a, c)
    decreases |a|
  {
    if |a| > 0 && a[0] == b[0] && b[0] == c[0] {
      LessTransitive(a[1..], b[1..], c[1..]);
    }
  }

  lemma LessAsymmetric(a: string, b: string)
    requires Less(a, b)
    ensures !Less(b, a)
  {
    if Less(b, a) {
      LessTransitive(a, b, a);
      LessIrreflexive(a);
    }
  }

  lemma {:induction false} LessTotal(a: string, b: string)
    requires a != b
    ensures Less(a, b) || Less(b, a)
    decreases |a|
  {
    if |a| > 0 && |b| > 0 && a[0] == b[0] {
      assert a == [a[0]] + a[1..] && b == [b[0]] + b[1..];
      LessTotal(a[1..], b[1..]);
    }
  }

  // ---------------------------------------------------------------------------
  // Decimal rendering (Python's `str(n)` / `f"{n}"` on an int)
  // ---------------------------------------------------------------------------

  function DigitChar(d: nat): (c: char)
    requires d < 10
    ensures IsDigit(c)
  {
    (48 + d) as char
  }

  /** The digits of `n`, most significant first, with no leading zero. */
  function NatToDecimal(n: nat): (s: string)
    ensures |s| > 0 && IsDigit(s[0])
    ensures forall k :: 0 <= k < |s| ==> IsDigit(s[k])
    ensures s[0] == '0' ==> n == 0
    decreases n
  {
    (if n < 10 then [] else NatToDecimal(n / 10)) + [DigitChar(n % 10)]
  }

  /** `str(n)`: a minus sign for negative numbers, then the digits of `|n|`. */
  function IntToDecimal(n: int): (s: string)
    ensures |s| > 0 && (s[0] == '-' <==> n < 0)
    ensures forall k :: (if n < 0 then 1 else 0) <= k < |s| ==> IsDigit(s[k])
    ensures |s| > (if n < 0 then 1 else 0) && (s[if n < 0 then 1 else 0] == '0' ==> s == "0")
  {
    if n < 0 then "-" + NatToDecimal(-n) else NatToDecimal(n)
  }

  /** The value of a string of decimal digits, most significant first. */
  function DecimalValue(s: string): int {
    if |s| == 0 then 0 else DecimalValue(s[..|s| - 1]) * 10 + (s[|s| - 1] as int - 48)
  }

  /** `int(s)` for the strings `str` produces. */
  function DecimalToInt(s: string): int {
    if |s| > 0 && s[0] == '-' then -DecimalValue(s[1..]) else DecimalValue(s)
  }

  /** Appending a digit shifts the value one decimal place and adds the digit. */
  lemma DecimalValueSnoc(p: string, d: nat)
    requires d < 10
    ensures DecimalValue(p + [DigitChar(d)]) == DecimalValue(p) * 10 + d
  {
    var s := p + [DigitChar(d)];
    assert s[..|s| - 1] == p;
    assert s[|s| - 1] as int - 48 == d;
  }

  lemma {:induction false} NatDecimalRoundTrip(n: nat)
    ensures DecimalValue(NatToDecimal(n)) == n
    decreases n
  {
    var prefix := if n < 10 then [] else NatToDecimal(n / 10);
    var s := NatToDecimal(n);
    assert s == prefix + [DigitChar(n % 10)];
    DecimalValueSnoc(prefix, n % 10);
    if n >= 10 {
      NatDecimalRoundTrip(n / 10);
    }
    assert DecimalValue(prefix) == n / 10;
    assert n / 10 * 10 + n % 10 == n;
    assert DecimalValue(s) == DecimalValue(prefix) * 10 + n % 10;
  }

  /** Reading back what `str` wrote gives the number again. */
  lemma IntDecimalRoundTrip(n: int)
    ensures DecimalToInt(IntToDecimal(n)) == n
  {
    if n < 0 {
      var s := "-" + NatToDecimal(-n);
      assert s[1..] == NatToDecimal(-n);
      NatDecimalRoundTrip(-n);
    } else {
      NatDecimalRoundTrip(n);
    }
  }

  /** Different integers are written differently. */
  lemma IntToDecimalInjective(a: int, b: int)
    requires IntToDecimal(a) == IntToDecimal(b)
    ensures a == b
  {
    IntDecimalRoundTrip(a);
    IntDecimalRoundTrip(b);
  }
}

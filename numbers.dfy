/**
  Python's `float(s)`, reduced to the decimal forms the calculator meets:
  an optional sign, ASCII digits, at most one `.` and at least one digit
  (`"85"`, `"3.000"`, `"-2.5"`, `".5"`, `"7."`). The value is an exact `real`.
 */
module Numbers {
  import opened Text

  function DigitValue(c: char): (d: real)
    requires IsDigit(c)
    ensures 0.0 <= d <= 9.0
  {
    (c as int - '0' as int) as real
  }

  /** The value of a string of decimal digits, most significant first. */
  function DigitsValue(s: string): real
    requires AllDigits(s)
  {
    if s == [] then 0.0 else DigitsValue(s[..|s| - 1]) * 10.0 + DigitValue(s[|s| - 1])
  }

  /** The value of the digits after a decimal point: `0.d1d2...` is `(d1 + 0.d2...) / 10`. */
  function FractionValue(s: string): real
    requires AllDigits(s)
  {
    if s == [] then 0.0 else (DigitValue(s[0]) + FractionValue(s[1..])) / 10.0
  }

  function Pow10(n: nat): (p: real)
    ensures p >= 1.0
  {
    if n == 0 then 1.0 else 10.0 * Pow10(n - 1)
  }

  /** `n` digits make a number from 0 to `10^n - 1`. */
  lemma {:induction false} DigitsValueBound(s: string)
    requires AllDigits(s)
    ensures 0.0 <= DigitsValue(s) <= Pow10(|s|) - 1.0
  {
    if s != [] {
      DigitsValueBound(s[..|s| - 1]);
    }
  }

  /** The value of a digit run is a whole number. */
  lemma {:induction false} DigitsValueWhole(s: string)
    requires AllDigits(s)
    ensures DigitsValue(s) == DigitsValue(s).Floor as real
  {
    if s != [] {
      var init := s[..|s| - 1];
      DigitsValueWhole(init);
      var k := DigitsValue(init).Floor;
      var d := s[|s| - 1] as int - '0' as int;
      assert DigitsValue(s) == (10 * k + d) as real;
    }
  }

  /** Digits after the point make a value in [0, 1). */
  lemma {:induction false} FractionValueBound(s: string)
    requires AllDigits(s)
    ensures 0.0 <= FractionValue(s) < 1.0
  {
    if s != [] {
      FractionValueBound(s[1..]);
    }
  }

  /** Digits with at most one `.` and at least one digit. */
  predicate IsDecimal(b: string) {
    if '.' in b then
      var k := IndexOf(b, '.');
      |b| >= 2 && AllDigits(b[..k]) && AllDigits(b[k + 1..])
    else
      |b| >= 1 && AllDigits(b)
  }

  function DecimalValue(b: string): (v: real)
    requires IsDecimal(b)
    ensures v >= 0.0
  {
    if '.' in b then
      var k := IndexOf(b, '.');
      DigitsValueBound(b[..k]);
      FractionValueBound(b[k + 1..]);
      DigitsValue(b[..k]) + FractionValue(b[k + 1..])
    else
      DigitsValueBound(b);
      DigitsValue(b)
  }

  /** A decimal form holds a digit, and nothing but digits and `.`. */
  lemma DecimalChars(b: string)
    requires IsDecimal(b)
    ensures exists i :: 0 <= i < |b| && IsDigit(b[i])
    ensures forall i :: 0 <= i < |b| ==> IsDigit(b[i]) || b[i] == '.'
  {
    if '.' in b {
      var k := IndexOf(b, '.');
      forall i | 0 <= i < |b| ensures IsDigit(b[i]) || b[i] == '.' {
        if i < k {
          assert b[i] == b[..k][i];
        } else if i > k {
          assert b[i] == b[k + 1..][i - k - 1];
        }
      }
      if k >= 1 {
        assert b[0] == b[..k][0];
      } else {
        assert b[1] == b[k + 1..][0];
      }
    } else {
      assert IsDigit(b[0]);
    }
  }

  /** `float(s)` does not raise `ValueError`: an optional sign followed by a decimal form. */
  predicate IsNumeric(s: string) {
    if |s| >= 1 && (s[0] == '+' || s[0] == '-') then IsDecimal(s[1..]) else IsDecimal(s)
  }

  /** What `float()` accepts holds a digit, and nothing but digits, `.` and a leading sign. */
  lemma NumericChars(s: string)
    requires IsNumeric(s)
    ensures exists i :: 0 <= i < |s| && IsDigit(s[i])
    ensures forall i :: 0 <= i < |s| ==> IsDigit(s[i]) || s[i] == '.' || (i == 0 && (s[i] == '+' || s[i] == '-'))
  {
    if |s| >= 1 && (s[0] == '+' || s[0] == '-') {
      var b := s[1..];
      DecimalChars(b);
      assert forall i :: 1 <= i < |s| ==> s[i] == b[i - 1];
    } else {
      DecimalChars(s);
    }
  }

  /** `float(s)` for a numeric `s`: negative only under a minus sign. */
  function NumericValue(s: string): (v: real)
    requires IsNumeric(s)
    ensures |s| >= 1 && s[0] == '-' ==> v <= 0.0
    ensures !(|s| >= 1 && s[0] == '-') ==> v >= 0.0
  {
    if |s| >= 1 && s[0] == '-' then -DecimalValue(s[1..])
    else if |s| >= 1 && s[0] == '+' then DecimalValue(s[1..])
    else DecimalValue(s)
  }

  /** A non-empty run of digits is numeric; its value is the digits' value, at most `10^|s| - 1`. */
  lemma DigitRunValue(s: string)
    requires |s| >= 1 && AllDigits(s)
    ensures IsNumeric(s)
    ensures NumericValue(s) == DigitsValue(s)
    ensures 0.0 <= NumericValue(s) <= Pow10(|s|) - 1.0
  {
    assert s[0] != '+' && s[0] != '-';
    assert forall k :: 0 <= k < |s| ==> s[k] != '.';
    DigitsValueBound(s);
  }

  /** Neither sentinel grade parses as a number. */
  lemma SentinelsAreNotNumeric()
    ensures !IsNumeric("TR") && !IsNumeric("W")
  {
    assert '.' !in "TR" && '.' !in "W";
    assert !IsDigit("TR"[0]) && !IsDigit("W"[0]);
  }
}

/**
 The few JavaScript values the asset-budget check handles: a nullable value
 (`T | null`), a number that is either finite or NaN, and the conversion
 `Number(text)` restricted to the texts a `content-length` header carries.
 */
module JsValues {

  /** `T | null`: `None` is JavaScript's `null`. */
  datatype Option<+T> = None | Some(value: T)

  /** A JavaScript number as the check sees one: a non-negative integer or NaN. */
  datatype Num = Finite(value: nat) | NaN

  predicate IsDigit(c: char) {
    '0' <= c <= '9'
  }

  /** Every character of `s` is a decimal digit (the empty string qualifies). */
  predicate AllDigits(s: string) {
    forall i :: 0 <= i < |s| ==> IsDigit(s[i])
  }

  function DigitValue(c: char): (d: nat)
    requires IsDigit(c)
    ensures d < 10
  {
    c as int - '0' as int
  }

  function DigitChar(d: nat): (c: char)
    requires d < 10
    ensures IsDigit(c) && DigitValue(c) == d
  {
    ('0' as int + d) as char
  }

  /** The value of a digit string, most significant digit first. */
  function DecimalValue(s: string): nat
    requires AllDigits(s)
  {
    if s == [] then 0 else 10 * DecimalValue(s[..|s| - 1]) + DigitValue(s[|s| - 1])
  }

  /**
   The shortest decimal spelling of `n`, as JavaScript prints the integers a
   status takes (JavaScript switches to exponent notation only from 1e21).
   */
  function FormatDecimal(n: nat): (s: string)
    ensures |s| > 0 && AllDigits(s)
    ensures DecimalValue(s) == n
    ensures |s| > 1 ==> s[0] != '0'
  {
    if n < 10 then [DigitChar(n)]
    else
      var prefix := FormatDecimal(n / 10);
      var s := prefix + [DigitChar(n % 10)];
      assert s[..|s| - 1] == prefix;
      s
  }

  /** A zero in front of a digit string does not change its decimal value. */
  lemma {:induction false} DecimalLeadingZero(s: string)
    requires AllDigits(s)
    ensures AllDigits("0" + s) && DecimalValue("0" + s) == DecimalValue(s)
  {
    var t := "0" + s;
    if s != [] {
      assert t[..|t| - 1] == "0" + s[..|s| - 1];
      DecimalLeadingZero(s[..|s| - 1]);
    }
  }

  /**
   This model's `Number(text)`, for the texts a `content-length` header is
   meant to carry: the empty string is 0, a digit string is its decimal
   value, and every other text is NaN.
   */
  function ToNumber(text: string): (r: Num)
    ensures r.Finite? <==> AllDigits(text)
    ensures text == "" ==> r == Finite(0)
  {
    if AllDigits(text) then Finite(DecimalValue(text)) else NaN
  }

  /** Leading zeros do not change the number read: `Number("007")` is 7. */
  lemma LeadingZeroIgnored(s: string)
    ensures ToNumber("0" + s) == ToNumber(s)
  {
    if AllDigits(s) {
      DecimalLeadingZero(s);
    } else {
      var j :| 0 <= j < |s| && !IsDigit(s[j]);
      assert ("0" + s)[j + 1] == s[j];
    }
  }

  /** Printing a size and reading it back gives the size again. */
  lemma NumberOfPrintedValue(n: nat)
    ensures ToNumber(FormatDecimal(n)) == Finite(n)
  {
  }

  /** A digit string as JavaScript prints a number: non-empty, no leading zero unless it is "0". */
  predicate IsCanonicalDecimal(s: string) {
    |s| > 0 && AllDigits(s) && (|s| > 1 ==> s[0] != '0')
  }

  lemma {:induction false} CanonicalIsPositive(s: string)
    requires IsCanonicalDecimal(s) && |s| > 1
    ensures DecimalValue(s) > 0
  {
    var p := s[..|s| - 1];
    if |p| > 1 {
      CanonicalIsPositive(p);
    } else {
      assert p[0] == s[0];
    }
  }

  /** Reading a canonically printed number and printing it again gives the same text. */
  lemma {:induction false} PrintedValueOfCanonical(s: string)
    requires IsCanonicalDecimal(s)
    ensures ToNumber(s).Finite? && FormatDecimal(ToNumber(s).value) == s
  {
    var v := DecimalValue(s);
    var d := DigitValue(s[|s| - 1]);
    assert DigitChar(d) == s[|s| - 1];
    if |s| == 1 {
      assert FormatDecimal(v) == [DigitChar(d)];
    } else {
      var p := s[..|s| - 1];
      assert p[0] == s[0];
      CanonicalIsPositive(s);
      if |p| > 1 {
        CanonicalIsPositive(p);
      }
      assert DecimalValue(p) > 0;
      PrintedValueOfCanonical(p);
      assert v / 10 == DecimalValue(p) && v % 10 == d;
      assert s == p + [s[|s| - 1]];
    }
  }
}

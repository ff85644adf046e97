/**
 * Text forms of numbers: the canonical two-decimal form that `BigDecimal`
 * gives a decimal(18, 2) value (`toString()`), the subset of `BigDecimal(String)`
 * that reads it back, and a decimal rendering of integers used for timestamps.
 */
module DecimalText {
  import opened Wrappers

  predicate IsDigit(c: char) {
    '0' <= c <= '9'
  }

  predicate AllDigits(s: string) {
    forall i | 0 <= i < |s| :: IsDigit(s[i])
  }

  function DigitChar(d: nat): (c: char)
    requires d < 10
    ensures IsDigit(c)
  {
    ('0' as int + d) as char
  }

  function DigitValue(c: char): (d: nat)
    requires IsDigit(c)
    ensures d < 10 && DigitChar(d) == c
  {
    c as int - '0' as int
  }

  /** Decimal digits of `n`, most significant first, without leading zeros. */
  function NatText(n: nat): string
    decreases n
  {
    if n < 10 then [DigitChar(n)] else NatText(n / 10) + [DigitChar(n % 10)]
  }

  /** The value of a string of decimal digits. */
  function DigitsValue(s: string): nat
    requires AllDigits(s)
  {
    if s == [] then 0 else DigitsValue(s[..|s| - 1]) * 10 + DigitValue(s[|s| - 1])
  }

  lemma {:induction false} NatTextRoundTrip(n: nat)
    ensures |NatText(n)| >= 1 && AllDigits(NatText(n))
    ensures DigitsValue(NatText(n)) == n
    decreases n
  {
    if n >= 10 {
      NatTextRoundTrip(n / 10);
      var s := NatText(n);
      assert s[..|s| - 1] == NatText(n / 10);
      assert DigitValue(DigitChar(n % 10)) == n % 10;
    } else {
      assert DigitValue(DigitChar(n)) == n;
    }
  }

  /** A decimal rendering of an integer; injective (IntTextInjective). */
  function IntText(i: int): string {
    if i < 0 then "-" + NatText(-i) else NatText(i)
  }

  lemma IntTextSign(i: int)
    ensures |IntText(i)| >= 1
    ensures IntText(i)[0] == '-' <==> i < 0
    ensures i < 0 ==> IntText(i)[1..] == NatText(-i)
    ensures i >= 0 ==> IntText(i) == NatText(i)
  {
    if i >= 0 {
      NatTextRoundTrip(i);
      assert IsDigit(NatText(i)[0]);
    }
  }

  lemma IntTextInjective(a: int, b: int)
    requires IntText(a) == IntText(b)
    ensures a == b
  {
    IntTextSign(a);
    IntTextSign(b);
    NatTextRoundTrip(if a < 0 then -a else a);
    NatTextRoundTrip(if b < 0 then -b else b);
  }

  /**
   * `BigDecimal.toString()` of a scale-2 value: an optional minus sign, the
   * integer part without leading zeros, a point and exactly two digits.
   */
  function RenderCents(c: int): string {
    var m := if c < 0 then -c else c;
    (if c < 0 then "-" else "") + NatText(m / 100) + "." + [DigitChar(m % 100 / 10), DigitChar(m % 10)]
  }

  /**
   * `BigDecimal(String)` restricted to the two-decimal form: `None` for any
   * other text (where the source either throws or reads another form).
   */
  function ParseCents(s: string): Option<int> {
    if |s| < 4 || s[|s| - 3] != '.' then None
    else
      var head := s[..|s| - 3];
      var frac := s[|s| - 2..];
      var negative := |head| > 0 && head[0] == '-';
      var whole := if negative then head[1..] else head;
      if whole == [] || !AllDigits(whole) || !AllDigits(frac) then None
      else
        var v := DigitsValue(whole) * 100 + DigitsValue(frac);
        Some(if negative then -v else v)
  }

  lemma TwoDigitsValue(d1: char, d2: char)
    requires IsDigit(d1) && IsDigit(d2)
    ensures AllDigits([d1, d2]) && DigitsValue([d1, d2]) == DigitValue(d1) * 10 + DigitValue(d2)
  {
    assert [d1, d2][..1] == [d1];
    assert [d1][..0] == [];
    assert DigitsValue([d1]) == DigitValue(d1);
  }

  /** Reading back `sign whole . d1 d2` for a digit string `whole`. */
  lemma ParseTwoDecimals(negative: bool, whole: string, d1: char, d2: char)
    requires whole != [] && AllDigits(whole) && IsDigit(d1) && IsDigit(d2)
    ensures var v := DigitsValue(whole) * 100 + DigitValue(d1) * 10 + DigitValue(d2);
      ParseCents((if negative then "-" else "") + whole + "." + [d1, d2]) == Some(if negative then -v else v)
  {
    var sign := if negative then "-" else "";
    var s := sign + whole + "." + [d1, d2];
    var head := s[..|s| - 3];
    assert head == sign + whole;
    assert s[|s| - 3] == '.';
    assert s[|s| - 2..] == [d1, d2];
    TwoDigitsValue(d1, d2);
    var isNeg := |head| > 0 && head[0] == '-';
    if negative {
      assert isNeg;
      assert head[1..] == whole;
    } else {
      assert head == whole;
      assert IsDigit(whole[0]);
      assert !isNeg;
    }
  }

  /** `m` split into its integer part and its two decimal digits. */
  lemma CentsDigits(m: nat)
    ensures m == (m / 100) * 100 + (m % 100 / 10) * 10 + m % 100 % 10
    ensures m % 100 % 10 == m % 10
  {
  }

  /** Every rendered amount reads back as the amount it renders. */
  lemma RenderCentsRoundTrip(c: int)
    ensures ParseCents(RenderCents(c)) == Some(c)
  {
    var m := if c < 0 then -c else c;
    var q := m / 100;
    NatTextRoundTrip(q);
    CentsDigits(m);
    var d1, d2 := DigitChar(m % 100 / 10), DigitChar(m % 10);
    assert RenderCents(c) == (if c < 0 then "-" else "") + NatText(q) + "." + [d1, d2];
    ParseTwoDecimals(c < 0, NatText(q), d1, d2);
  }

  /** Distinct amounts never render alike, so comparing rendered amounts compares amounts. */
  lemma RenderCentsInjective(a: int, b: int)
    requires RenderCents(a) == RenderCents(b)
    ensures a == b
  {
    RenderCentsRoundTrip(a);
    RenderCentsRoundTrip(b);
  }

  /** A rendered amount never contains a comma or a line break. */
  lemma RenderCentsPlain(c: int)
    ensures ',' !in RenderCents(c) && '\n' !in RenderCents(c)
  {
    var m := if c < 0 then -c else c;
    NatTextRoundTrip(m / 100);
    var s := RenderCents(c);
    forall i | 0 <= i < |s| ensures s[i] != ',' && s[i] != '\n' {
      var sign := if c < 0 then "-" else "";
      if i >= |sign| && i < |sign| + |NatText(m / 100)| {
        assert s[i] == NatText(m / 100)[i - |sign|];
      }
    }
  }
}

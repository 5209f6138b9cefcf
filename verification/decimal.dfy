/**
  Fixed-point decimal rendering with two fractional digits: the behaviour of
  Go's `%.2f` verb on a finite, non-negative value.

  A finite float64 is an exact fraction, so the value is given as `num / den`.
  Go's formatter rounds that exact value to the nearest multiple of 0.01 and
  breaks an exact tie towards the even last digit; `Render` then writes the
  integer part without leading zeros, a dot and exactly two digits.
*/
module Decimal {
  import opened Wrappers

  predicate IsDigit(c: char) {
    '0' <= c <= '9'
  }

  predicate AllDigits(s: string) {
    forall i :: 0 <= i < |s| ==> IsDigit(s[i])
  }

  function DigitChar(d: nat): (c: char)
    requires d < 10
    ensures IsDigit(c)
  {
    ('0' as int + d) as char
  }

  function DigitValue(c: char): (d: nat)
    requires IsDigit(c)
    ensures d < 10
    ensures DigitChar(d) == c
  {
    c as int - '0' as int
  }

  /** The decimal numeral of `n`, without leading zeros. */
  function NatToString(n: nat): (s: string)
    ensures |s| >= 1 && AllDigits(s)
    ensures n == 0 <==> s == "0"
    ensures s[0] == '0' ==> n == 0
    decreases n
  {
    if n < 10 then [DigitChar(n)] else NatToString(n / 10) + [DigitChar(n % 10)]
  }

  /** The value of a string of decimal digits (the empty string reads as 0). */
  function StringToNat(s: string): nat
    requires AllDigits(s)
    decreases |s|
  {
    if |s| == 0 then 0 else StringToNat(s[..|s| - 1]) * 10 + DigitValue(s[|s| - 1])
  }

  lemma {:induction false} StringToNatOfNatToString(n: nat)
    ensures StringToNat(NatToString(n)) == n
    decreases n
  {
    var last := [DigitChar(n % 10)];
    if n < 10 {
      assert last[..0] == [];
    } else {
      var s := NatToString(n / 10);
      StringToNatOfNatToString(n / 10);
      assert (s + last)[..|s|] == s;
    }
  }

  /** A numeral without leading zeros: "0" itself, or digits starting with 1-9. */
  predicate NoLeadingZero(t: string) {
    |t| >= 1 && AllDigits(t) && (t[0] == '0' ==> |t| == 1)
  }

  /** Writing back the value of a numeral without leading zeros gives the same numeral. */
  lemma {:induction false} NatToStringOfStringToNat(t: string)
    requires NoLeadingZero(t)
    ensures NatToString(StringToNat(t)) == t
    decreases |t|
  {
    var p := t[..|t| - 1];
    var d := DigitValue(t[|t| - 1]);
    assert StringToNat(t) == StringToNat(p) * 10 + d;
    if |t| == 1 {
      assert p == [];
    } else {
      assert p[0] == t[0];
      NatToStringOfStringToNat(p);
      var m := StringToNat(p);
      assert m != 0;
      DivModTen(m, d);
      assert t == p + [t[|t| - 1]];
    }
  }

  lemma DivModTen(m: nat, d: nat)
    requires d < 10
    ensures (m * 10 + d) / 10 == m && (m * 10 + d) % 10 == d
  {
  }

  /**
    `q` is `num / den` rounded to the nearest integer, an exact half going to
    the even neighbour: |num/den - q| <= 1/2, and at distance exactly 1/2 the
    integer `q` is even.
  */
  predicate IsRoundHalfEven(num: nat, den: nat, q: nat)
    requires den > 0
  {
    && 2 * (q * den) <= 2 * num + den
    && 2 * num <= 2 * (q * den) + den
    && (2 * (q * den) == 2 * num + den || 2 * num == 2 * (q * den) + den ==> q % 2 == 0)
  }

  function RoundHalfEven(num: nat, den: nat): (q: nat)
    requires den > 0
    ensures IsRoundHalfEven(num, den, q)
  {
    var q, r := num / den, num % den;
    assert num == q * den + r;
    assert (q + 1) * den == q * den + den;
    if 2 * r < den then q
    else if 2 * r > den then q + 1
    else if q % 2 == 0 then q
    else q + 1
  }

  lemma MulCancel(a: int, b: int, d: int)
    requires d > 0 && a * d <= b * d
    ensures a <= b
  {
  }

  /** There is exactly one correctly rounded integer, and `RoundHalfEven` returns it. */
  lemma RoundHalfEvenUnique(num: nat, den: nat, q: nat)
    requires den > 0
    ensures IsRoundHalfEven(num, den, q) <==> q == RoundHalfEven(num, den)
  {
    var p := RoundHalfEven(num, den);
    if IsRoundHalfEven(num, den, q) {
      RoundedOrder(num, num, den, q, p);
      RoundedOrder(num, num, den, p, q);
    }
  }

  /** Correct rounding preserves the order of the numerators. */
  lemma RoundedOrder(n1: nat, n2: nat, den: nat, q1: nat, q2: nat)
    requires den > 0 && n1 <= n2
    requires IsRoundHalfEven(n1, den, q1) && IsRoundHalfEven(n2, den, q2)
    ensures q1 <= q2
  {
    // (2 q1 - 1) den <= 2 n1 <= 2 n2 <= (2 q2 + 1) den gives q1 <= q2 + 1, and
    // q1 == q2 + 1 would make both bounds tight, so that q1 and q2 were both even.
    assert (q2 + 1) * den == q2 * den + den;
    MulCancel(q1, q2 + 1, den);
  }

  /** Rounding is monotone in the numerator. */
  lemma RoundHalfEvenMonotone(n1: nat, n2: nat, den: nat)
    requires den > 0 && n1 <= n2
    ensures RoundHalfEven(n1, den) <= RoundHalfEven(n2, den)
  {
    RoundedOrder(n1, n2, den, RoundHalfEven(n1, den), RoundHalfEven(n2, den));
  }

  /**
    A two-decimal text whose integer part has no leading zero: it starts with
    a zero only when the integer part is that single zero.
  */
  predicate Canonical(s: string) {
    |s| >= 4 && (s[0] == '0' ==> s[1] == '.')
  }

  /** The text of `h` hundredths: integer part, a dot, exactly two fractional digits. */
  function Render(h: nat): (s: string)
    ensures Canonical(s)
    ensures |s| >= 4 && s[|s| - 3] == '.'
    ensures AllDigits(s[..|s| - 3]) && IsDigit(s[|s| - 2]) && IsDigit(s[|s| - 1])
  {
    var i := NatToString(h / 10 / 10);
    var s := i + "." + [DigitChar(h / 10 % 10), DigitChar(h % 10)];
    assert s[..|s| - 3] == i;
    assert s[0] == i[0] && (|i| == 1 ==> s[1] == '.') && (|i| > 1 ==> s[1] == i[1]);
    s
  }

  /**
    Reads a two-decimal text back as a count of hundredths; any other text,
    such as "NaN" or "+Inf", reads as `None`.
  */
  function Parse(s: string): Option<nat> {
    if |s| >= 4 && s[|s| - 3] == '.' && AllDigits(s[..|s| - 3])
       && IsDigit(s[|s| - 2]) && IsDigit(s[|s| - 1])
    then Some(StringToNat(s[..|s| - 3]) * 100 + DigitValue(s[|s| - 2]) * 10 + DigitValue(s[|s| - 1]))
    else None
  }

  lemma ParseRender(h: nat)
    ensures Parse(Render(h)) == Some(h)
  {
    var i := NatToString(h / 10 / 10);
    var s := Render(h);
    assert s == i + "." + [DigitChar(h / 10 % 10), DigitChar(h % 10)];
    assert s[..|s| - 3] == i;
    assert s[|s| - 2] == DigitChar(h / 10 % 10) && s[|s| - 1] == DigitChar(h % 10);
    StringToNatOfNatToString(h / 10 / 10);
    DigitRoundTrip(h / 10 % 10);
    DigitRoundTrip(h % 10);
    SplitHundredths(h);
  }

  lemma SplitHundredths(h: nat)
    ensures h == h / 10 / 10 * 100 + h / 10 % 10 * 10 + h % 10
  {
    var q := h / 10;
    assert h == q * 10 + h % 10;
    assert q == q / 10 * 10 + q % 10;
  }

  lemma DigitRoundTrip(d: nat)
    requires d < 10
    ensures DigitValue(DigitChar(d)) == d
  {
  }

  /** A canonical two-decimal text is the rendering of the hundredths it reads as. */
  lemma RenderParse(s: string, h: nat)
    requires Canonical(s) && Parse(s) == Some(h)
    ensures s == Render(h)
  {
    var i := s[..|s| - 3];
    var d1, d2 := DigitValue(s[|s| - 2]), DigitValue(s[|s| - 1]);
    assert i[0] == s[0] && (|i| > 1 ==> i[1] == s[1]);
    NatToStringOfStringToNat(i);
    HundredthsDigits(StringToNat(i), d1, d2);
    assert s == i + "." + [s[|s| - 2], s[|s| - 1]];
  }

  lemma HundredthsDigits(m: nat, d1: nat, d2: nat)
    requires d1 < 10 && d2 < 10
    ensures var h := m * 100 + d1 * 10 + d2; h / 10 / 10 == m && h / 10 % 10 == d1 && h % 10 == d2
  {
    var t := m * 10 + d1;
    assert m * 100 + d1 * 10 + d2 == t * 10 + d2;
    DivModTen(t, d2);
    DivModTen(m, d1);
  }

  /**
    `s` is what `%.2f` prints for the exact value `num / den`: a canonical
    two-decimal text that reads as the correctly rounded count of hundredths.
  */
  predicate DenotesFixed2(s: string, num: nat, den: nat)
    requires den > 0
  {
    Canonical(s) && Parse(s).Some? && IsRoundHalfEven(100 * num, den, Parse(s).value)
  }

  /** `%.2f` of the exact value `num / den`. */
  function FormatFixed2(num: nat, den: nat): (s: string)
    requires den > 0
    ensures DenotesFixed2(s, num, den)
  {
    var h := RoundHalfEven(100 * num, den);
    ParseRender(h);
    Render(h)
  }

  /** Any correctly rounded count of hundredths is the one `FormatFixed2` renders. */
  lemma FormatFixed2Is(num: nat, den: nat, h: nat)
    requires den > 0 && IsRoundHalfEven(100 * num, den, h)
    ensures FormatFixed2(num, den) == Render(h)
  {
    RoundHalfEvenUnique(100 * num, den, h);
  }

  /** The description pins the text down: exactly one string denotes `num / den`. */
  lemma FormatFixed2Exactly(s: string, num: nat, den: nat)
    requires den > 0
    ensures DenotesFixed2(s, num, den) <==> s == FormatFixed2(num, den)
  {
    if DenotesFixed2(s, num, den) {
      var h := Parse(s).value;
      RenderParse(s, h);
      FormatFixed2Is(num, den, h);
    }
  }

  /** The rendered value never decreases when the value grows. */
  lemma FormatFixed2Monotone(n1: nat, n2: nat, den: nat)
    requires den > 0 && n1 <= n2
    ensures Parse(FormatFixed2(n1, den)).value <= Parse(FormatFixed2(n2, den)).value
  {
    var h1, h2 := Parse(FormatFixed2(n1, den)).value, Parse(FormatFixed2(n2, den)).value;
    RoundHalfEvenUnique(100 * n1, den, h1);
    RoundHalfEvenUnique(100 * n2, den, h2);
    RoundHalfEvenMonotone(100 * n1, 100 * n2, den);
  }
}

/**
  The two numeric renderings the producers use: a byte count in mebibytes,
  and a ratio as a percentage, both printed with `%.2f`.
*/
module Units {
  import opened Wrappers
  import opened Decimal

  /** Bytes per megabyte: the source divides by 1024 twice. */
  const MiB: nat := 1024 * 1024

  /** 2^53: every smaller count converts to float64 without rounding. */
  const Float64Exact: nat := 0x20_0000_0000_0000

  /** `value` is the byte count `bytes` in megabytes, correctly rounded to two decimals. */
  predicate DenotesMegabytes(value: string, bytes: nat) {
    DenotesFixed2(value, bytes, MiB)
  }

  /**
    A byte count in megabytes with two decimals. Below 2^53 the float64
    quotient `bytes / 1024 / 1024` is exact (dividing by a power of two), so
    the printed text is the exact quotient rounded half to even.
  */
  function ToMegabytesString(bytes: nat): (s: string)
    requires bytes < Float64Exact
    ensures DenotesMegabytes(s, bytes)
  {
    FormatFixed2(bytes, MiB)
  }

  /** Exactly one text denotes a byte count in megabytes: the one `ToMegabytesString` returns. */
  lemma MegabytesExactly(value: string, bytes: nat)
    requires bytes < Float64Exact
    ensures DenotesMegabytes(value, bytes) <==> value == ToMegabytesString(bytes)
  {
    FormatFixed2Exactly(value, bytes, MiB);
  }

  /** The megabyte text reads back as a value that never decreases with the byte count. */
  lemma MegabytesMonotone(b1: nat, b2: nat)
    requires b1 <= b2 < Float64Exact
    ensures Parse(ToMegabytesString(b1)).value <= Parse(ToMegabytesString(b2)).value
  {
    FormatFixed2Monotone(b1, b2, MiB);
  }

  /** One megabyte prints "1.00". */
  lemma MegabytesWhole()
    ensures ToMegabytesString(1048576) == "1.00"
  {
    assert Render(100) == "1.00" by { assert NatToString(1) == "1"; }
    FormatFixed2Is(1048576, MiB, 100);
  }

  /** One and a half megabytes prints "1.50". */
  lemma MegabytesHalf()
    ensures ToMegabytesString(1572864) == "1.50"
  {
    assert Render(150) == "1.50" by { assert NatToString(1) == "1"; }
    FormatFixed2Is(1572864, MiB, 150);
  }

  /** 0.125 MB lies exactly between 0.12 and 0.13 and goes to the even digit. */
  lemma MegabytesTieDown()
    ensures ToMegabytesString(131072) == "0.12"
  {
    assert Render(12) == "0.12" by { assert NatToString(0) == "0"; }
    FormatFixed2Is(131072, MiB, 12);
  }

  /** 0.375 MB lies exactly between 0.37 and 0.38 and goes to the even digit. */
  lemma MegabytesTieUp()
    ensures ToMegabytesString(393216) == "0.38"
  {
    assert Render(38) == "0.38" by { assert NatToString(0) == "0"; }
    FormatFixed2Is(393216, MiB, 38);
  }

  /** Whole and half megabytes, and two halfway cases that round to the even digit. */
  lemma MegabytesExamples()
    ensures ToMegabytesString(1048576) == "1.00"
    ensures ToMegabytesString(1572864) == "1.50"
    ensures ToMegabytesString(131072) == "0.12"
    ensures ToMegabytesString(393216) == "0.38"
  {
    MegabytesWhole();
    MegabytesHalf();
    MegabytesTieDown();
    MegabytesTieUp();
  }

  /**
    `value` is what `%.2f` prints for `(part / whole) * 100`: the correctly
    rounded percentage when `whole` is positive; for a zero divisor the
    float64 quotient is NaN (0/0) or +Inf, which print as "NaN" and "+Inf".
  */
  predicate DenotesPercent(value: string, part: nat, whole: nat) {
    if whole == 0 then value == (if part == 0 then "NaN" else "+Inf")
    else DenotesFixed2(value, 100 * part, whole)
  }

  /** The percentage text of `part` out of `whole`, with no guard against a zero divisor. */
  function PercentString(part: nat, whole: nat): (s: string)
    ensures DenotesPercent(s, part, whole)
    ensures whole == 0 <==> Parse(s).None?
  {
    if whole == 0 then (if part == 0 then "NaN" else "+Inf")
    else FormatFixed2(100 * part, whole)
  }

  /** Exactly one text denotes a percentage: the one `PercentString` returns. */
  lemma PercentExactly(value: string, part: nat, whole: nat)
    ensures DenotesPercent(value, part, whole) <==> value == PercentString(part, whole)
  {
    if whole > 0 {
      FormatFixed2Exactly(value, 100 * part, whole);
    }
  }

  /** A quarter of the memory in use, and the two zero-divisor texts. */
  lemma PercentExamples()
    ensures PercentString(250, 1000) == "25.00"
    ensures PercentString(0, 0) == "NaN"
    ensures PercentString(7, 0) == "+Inf"
  {
    FormatFixed2Is(25000, 1000, 2500);
    assert Render(2500) == "25.00" by { assert NatToString(25) == "25"; }
  }

  type Positive = n: nat | n > 0 witness 1

  /**
    A float64 reading that is finite and non-negative, as the exact fraction
    `num / den` it equals.
  */
  datatype Reading = Reading(num: nat, den: Positive)

  /** `value` is the reading `r` correctly rounded to two decimals. */
  predicate DenotesReading(value: string, r: Reading) {
    DenotesFixed2(value, r.num, r.den)
  }

  function ReadingString(r: Reading): (s: string)
    ensures DenotesReading(s, r)
  {
    FormatFixed2(r.num, r.den)
  }

  /** Exactly one text denotes a reading: the one `ReadingString` returns. */
  lemma ReadingExactly(value: string, r: Reading)
    ensures DenotesReading(value, r) <==> value == ReadingString(r)
  {
    FormatFixed2Exactly(value, r.num, r.den);
  }
}

/** C integer types and arithmetic as the watchface uses them: fixed-width
    ranges and division that truncates toward zero. */
module CArith {

  const MinInt32: int := -0x8000_0000
  const MaxInt32: int := 0x7fff_ffff

  type int32 = x: int | MinInt32 <= x <= MaxInt32
  type uint32 = x: int | 0 <= x < 0x1_0000_0000
  type uint8 = x: int | 0 <= x < 0x100

  function Abs(x: int): (r: nat) { if x < 0 then -x else x }

  /** C's `a / d` for a positive divisor: the quotient rounded toward zero, so
      the remainder takes the sign of the dividend (Dafny's own `/` rounds
      toward minus infinity for negative dividends). */
  function TruncDiv(a: int, d: int): (q: int)
    requires d > 0
    ensures Abs(a - q * d) < d
    ensures a - q * d == 0 || (a - q * d > 0) == (a > 0)
  {
    if a >= 0 then a / d else -((-a) / d)
  }

  /** `c * 9` stays inside int32: outside this range the C expression
      overflows, which is undefined behaviour. */
  predicate FahrenheitDefined(c: int) {
    MinInt32 <= c * 9 <= MaxInt32
  }

  /** `(int)c * 9/5 + 32` in C: Celsius to Fahrenheit with the division
      truncated toward zero. */
  function Fahrenheit(c: int32): (f: int32)
    requires FahrenheitDefined(c)
    ensures Abs(9 * c - 5 * (f - 32)) < 5
    ensures 9 * c - 5 * (f - 32) == 0 || (9 * c - 5 * (f - 32) > 0) == (c > 0)
  {
    TruncDiv(c * 9, 5) + 32
  }

  /** Worked values of the conversion, including one where truncation and
      floor division part ways: -1 C gives 31 F, not the 30 F that Dafny's
      Euclidean division would give. */
  lemma FahrenheitExamples()
    ensures Fahrenheit(0) == 32 && Fahrenheit(100) == 212
    ensures Fahrenheit(-40) == -40 && Fahrenheit(-1) == 31
    ensures (-1 * 9) / 5 + 32 == 30
  {
  }

  /** A warmer reading never converts to a colder one. */
  lemma FahrenheitMonotone(c1: int32, c2: int32)
    requires FahrenheitDefined(c1) && FahrenheitDefined(c2)
    requires c1 <= c2
    ensures Fahrenheit(c1) <= Fahrenheit(c2)
  {
  }
}

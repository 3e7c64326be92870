/** sleep_ms (debug.c): a delay in milliseconds split into the seconds and
    nanoseconds of a timespec, with C's truncating division and remainder.
    The nanosleep call itself is not modelled. */
module Timing {
  import opened Bytes

  /** C's `/` on int: the quotient truncated toward zero. */
  function CDiv(a: int, b: int): int
    requires b > 0
  {
    if a >= 0 then a / b else -((-a) / b)
  }

  /** C's `%` on int: the remainder that goes with CDiv, with the sign of `a`. */
  function CRem(a: int, b: int): int
    requires b > 0
  {
    a - b * CDiv(a, b)
  }

  /** The quotient and remainder of C's division: they rebuild the dividend,
      the remainder is smaller than the divisor in magnitude and carries the
      dividend's sign, and the quotient is rounded toward zero. */
  lemma CDivRem(a: int, b: int)
    requires b > 0
    ensures b * CDiv(a, b) + CRem(a, b) == a
    ensures a >= 0 ==> 0 <= CRem(a, b) < b && b * CDiv(a, b) <= a < b * (CDiv(a, b) + 1)
    ensures a < 0 ==> -b < CRem(a, b) <= 0 && b * (CDiv(a, b) - 1) < a <= b * CDiv(a, b)
  {
  }

  /** A struct timespec. */
  datatype Timespec = Timespec(sec: int, nsec: int)

  /** sleep_ms: tv_sec = milliseconds / 1000, tv_nsec = (milliseconds % 1000)
      * 1000000. The seconds are the delay rounded toward zero to whole
      seconds, and the nanoseconds carry the rest, with the delay's sign. */
  function SleepMs(milliseconds: int32): (ts: Timespec)
    ensures ts.sec * 1000 + ts.nsec / 1000000 == milliseconds
    ensures ts.nsec % 1000000 == 0
    ensures milliseconds >= 0 ==> 0 <= ts.nsec <= 999000000 && ts.sec * 1000 <= milliseconds < (ts.sec + 1) * 1000
    ensures milliseconds < 0 ==> -999000000 <= ts.nsec <= 0 && (ts.sec - 1) * 1000 < milliseconds <= ts.sec * 1000
  {
    CDivRem(milliseconds, 1000);
    Timespec(CDiv(milliseconds, 1000), CRem(milliseconds, 1000) * 1000000)
  }

  /** A valid timespec: nanoseconds in [0, 10^9). */
  predicate ValidTimespec(ts: Timespec)
  {
    ts.sec >= 0 && 0 <= ts.nsec < 1_000_000_000
  }

  /** Every non-negative delay gives a valid timespec; a negative one never
      does (nanosleep rejects it), and tv_nsec fits in a C int either way. */
  lemma SleepMsValid(milliseconds: int32)
    ensures ValidTimespec(SleepMs(milliseconds)) <==> milliseconds >= 0
    ensures -0x8000_0000 <= SleepMs(milliseconds).nsec < 0x8000_0000
  {
  }

  /** Distinct delays give distinct timespecs: no information is lost. */
  lemma SleepMsInjective(a: int32, b: int32)
    requires SleepMs(a) == SleepMs(b)
    ensures a == b
  {
    assert SleepMs(a).sec * 1000 + SleepMs(a).nsec / 1000000 == a;
  }
}

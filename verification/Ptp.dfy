/** Time arithmetic of the precision clock: lib-gd32/include/gd32_ptp.h. */
module Ptp {

  import opened Machine

  const BILLION: int := 1_000_000_000
  const HALF_RANGE: int := 0x8000_0000

  type Int32 = x: int | -HALF_RANGE <= x < HALF_RANGE

  predicate Fits(x: int) {
    -HALF_RANGE <= x < HALF_RANGE
  }

  // Division as C does it: towards zero.
  function Quot(x: int, d: int): int
    requires 0 < d
  {
    if x >= 0 then x / d else -(-x / d)
  }

  // The value of a time in nanoseconds.
  function Value(sec: int, nsec: int): int {
    sec * BILLION + nsec
  }

  // Less than a second of nanoseconds, and not of the sign opposite to that of the seconds.
  predicate Normal(sec: int, nsec: int) {
    -BILLION < nsec < BILLION && !(sec > 0 && nsec < 0) && !(sec < 0 && nsec > 0)
  }

  /** There is one normal form for every value: the seconds are the value divided as C divides. */
  lemma NormalUnique(sec: int, nsec: int)
    requires Normal(sec, nsec)
    ensures sec == Quot(Value(sec, nsec), BILLION)
    ensures nsec == Value(sec, nsec) - Quot(Value(sec, nsec), BILLION) * BILLION
  {
  }

  /** So normal forms of opposite values are opposite field by field, and x - y is the opposite of y - x. */
  lemma NormalOpposite(sec: int, nsec: int, sec': int, nsec': int)
    requires Normal(sec, nsec) && Normal(sec', nsec') && Value(sec, nsec) == -Value(sec', nsec')
    ensures sec == -sec' && nsec == -nsec'
  {
  }

  class Time {
    var sec: Int32
    var nsec: Int32

    function Nanoseconds(): int
      reads this
    {
      Value(sec, nsec)
    }

    /** Brings a time to normal form without changing its value. The source's sum of seconds must fit its
        32-bit integer. */
    method Normalize()
      requires Fits(sec + Quot(nsec, BILLION))
      modifies this
      ensures Nanoseconds() == old(Nanoseconds())
      ensures Normal(sec, nsec)
    {
      sec := sec + Quot(nsec, BILLION);
      nsec := nsec - Quot(nsec, BILLION) * BILLION;
      if sec > 0 && nsec < 0 {
        sec := sec - 1;
        nsec := nsec + BILLION;
      } else if sec < 0 && nsec > 0 {
        sec := sec + 1;
        nsec := nsec - BILLION;
      }
    }

    /** Sets this time to x - y, which may be times of their own or this one. */
    method Sub(x: Time, y: Time)
      requires Fits(x.sec - y.sec) && Fits(x.nsec - y.nsec)
      requires Fits(x.sec - y.sec + Quot(x.nsec - y.nsec, BILLION))
      modifies this
      ensures Nanoseconds() == old(x.Nanoseconds()) - old(y.Nanoseconds())
      ensures Normal(sec, nsec)
    {
      sec := x.sec - y.sec;
      nsec := x.nsec - y.nsec;
      Normalize();
    }
  }

  /* ---- Nanoseconds and subseconds ---- */

  function ToSubsecond(nanosecond: Word): Word {
    nanosecond * HALF_RANGE / BILLION % UINT32
  }

  function ToNanosecond(subsecond: Word): Word {
    subsecond * BILLION / HALF_RANGE % UINT32
  }

  function CeilingDiv(x: nat, d: nat): nat
    requires 0 < d
  {
    (x + d - 1) / d
  }

  /** To subseconds and back keeps a number of nanoseconds modulo two seconds, which is what 32 bits of
      subseconds hold, and takes one nanosecond off unless the number of subseconds is whole. */
  lemma NanosecondBack(n: Word)
    ensures ToNanosecond(ToSubsecond(n)) == n % (2 * BILLION) - (if n * HALF_RANGE % BILLION == 0 then 0 else 1)
    ensures n - 1 <= ToNanosecond(ToSubsecond(n)) <= n <==> n < 2 * BILLION
  {
    var periods, m := n / (2 * BILLION), n % (2 * BILLION);
    var a, r := m * HALF_RANGE / BILLION, m * HALF_RANGE % BILLION;
    assert m * HALF_RANGE == a * BILLION + r;
    Unique(n * HALF_RANGE, BILLION, periods * UINT32 + a, r);
    Unique(n * HALF_RANGE / BILLION, UINT32, periods, a);
    Unique(a * BILLION, HALF_RANGE, if r == 0 then m else m - 1, if r == 0 then 0 else HALF_RANGE - r);
  }

  lemma CeilingBounds(r: nat)
    requires r < HALF_RANGE
    ensures var c := CeilingDiv(r, BILLION); c <= 3 && 0 <= c * BILLION - r < BILLION
  {
  }

  lemma NanosecondsFit(s: Word)
    ensures ToNanosecond(s) == s * 1_000_000_000 / 0x8000_0000 <= 2_000_000_000
  {
  }

  lemma SubsecondsFit(n: Word)
    requires n < 2 * BILLION
    ensures ToSubsecond(n) == n * 0x8000_0000 / 1_000_000_000
  {
  }

  /** To nanoseconds and back takes at most three subseconds off: the part of a nanosecond lost, rounded up. */
  lemma SubsecondBack(s: Word)
    ensures var back := ToSubsecond(ToNanosecond(s));
            back == s - CeilingDiv(s * BILLION % HALF_RANGE, BILLION) && s - 3 <= back <= s
  {
    hide ToSubsecond, ToNanosecond, CeilingDiv;
    var a, r := s * BILLION / HALF_RANGE, s * BILLION % HALF_RANGE;
    var c := CeilingDiv(r, BILLION);
    CeilingBounds(r);
    NanosecondsFit(s);
    SubsecondsFit(a);
    assert s * BILLION == a * HALF_RANGE + r;
    Unique(a * HALF_RANGE, BILLION, s - c, c * BILLION - r);
  }
}

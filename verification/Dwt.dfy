/** Time from the 32-bit cycle counter: namespace dwt of lib-gd32/src/gd32_timers.cpp. A true time is a
    number of cycles that never wraps; the counter shows it modulo 2^32. */
module Dwt {

  import opened Machine

  /* ---- Micros ---- */

  // The static variables of Micros.
  datatype State = State(cyclesPrevious: Word, microsAccumulated: Word, cycleRemainder: Word)

  const INITIAL: State := State(0, 0, 0)

  function Step(k: Word, s: State, now: Word): State
    requires 0 < k
  {
    var total := Wrap(s.cycleRemainder + Wrap(now - s.cyclesPrevious));
    State(now, Wrap(s.microsAccumulated + total / k), total % k)
  }

  // The variables agree with the true time.
  predicate Exact(k: Word, s: State, time: nat)
    requires 0 < k
  {
    s == State(Wrap(time), Wrap(time / k), time % k)
  }

  lemma WrapAdd(x: int, y: int)
    ensures Wrap(Wrap(x) + y) == Wrap(x + y)
    ensures Wrap(Wrap(x) - Wrap(y)) == Wrap(x - y)
  {
    assert x == UINT32 * (x / UINT32) + Wrap(x);
    assert y == UINT32 * (y / UINT32) + Wrap(y);
  }

  lemma WrapOnce(x: int)
    requires UINT32 <= x < 2 * UINT32
    ensures Wrap(x) == x - UINT32
  {
  }

  // Cycles counted in two parts.
  lemma Carried(k: nat, time: nat, gap: nat)
    requires 0 < k
    ensures var sum := time % k + gap;
            (time + gap) / k == time / k + sum / k && (time + gap) % k == sum % k
  {
    var sum := time % k + gap;
    assert time == k * (time / k) + time % k;
    assert sum == k * (sum / k) + sum % k;
    Regroup(k, time / k, sum / k);
    Unique(time + gap, k, time / k + sum / k, sum % k);
  }

  lemma Regroup(k: int, a: int, b: int)
    ensures k * a + k * b == k * (a + b)
  {
  }

  // What a call makes of a gap, in terms of the sum of remainder and gap.
  lemma StepSum(k: Word, s: State, time: nat, gap: nat)
    requires 0 < k && Exact(k, s, time) && gap < UINT32
    ensures var total := Wrap(time % k + gap);
            Step(k, s, Wrap(time + gap)) == State(Wrap(time + gap), Wrap(time / k + total / k), total % k)
  {
    hide Wrap;
    Elapsed(time, gap);
    WrapAdd(time / k, Wrap(time % k + gap) / k);
  }

  lemma StepFits(k: Word, s: State, time: nat, gap: nat)
    requires 0 < k && Exact(k, s, time) && time % k + gap < UINT32
    ensures Exact(k, Step(k, s, Wrap(time + gap)), time + gap)
  {
    hide Wrap, Step;
    StepSum(k, s, time, gap);
    Carried(k, time, gap);
    NoWrap(time % k + gap);
  }

  lemma StepLoses(k: Word, s: State, time: nat, gap: nat)
    requires 1 < k && Exact(k, s, time) && gap < UINT32 <= time % k + gap
    ensures Step(k, s, Wrap(time + gap)).microsAccumulated != Wrap((time + gap) / k)
  {
    hide Wrap, Step;
    var sum := time % k + gap;
    var total := sum - UINT32;
    StepSum(k, s, time, gap);
    Carried(k, time, gap);
    WrapOnce(sum);
    Short(k, total);
    Differ(time / k, sum / k, total / k);
  }

  /** A call brings the variables up to the true time exactly if the cycles since the last call and the
      remainder kept from it fit in 32 bits together. */
  lemma StepExact(k: Word, s: State, time: nat, gap: nat)
    requires 1 < k && Exact(k, s, time) && gap < UINT32
    ensures Exact(k, Step(k, s, Wrap(time + gap)), time + gap) <==> time % k + gap < UINT32
  {
    if time % k + gap < UINT32 {
      StepFits(k, s, time, gap);
    } else {
      StepLoses(k, s, time, gap);
    }
    hide Wrap, Step;
  }

  lemma Elapsed(time: nat, gap: nat)
    requires gap < UINT32
    ensures Wrap(Wrap(time + gap) - Wrap(time)) == gap
  {
  }

  // Losing 2^32 cycles loses some microseconds, but not a multiple of 2^32 of them.
  lemma Short(k: nat, total: nat)
    requires 1 < k < UINT32
    ensures 0 < (total + UINT32) / k - total / k < UINT32
  {
    var a, b := (total + UINT32) / k, total / k;
    assert total + UINT32 == k * a + (total + UINT32) % k;
    assert total == k * b + total % k;
    assert k * (a - b) == UINT32 + total % k - (total + UINT32) % k;
    if a - b <= 0 { Larger(k, 1 - (a - b)); }
    if a - b >= UINT32 { TwiceAsMuch(k, a - b); }
  }

  lemma TwiceAsMuch(k: nat, d: int)
    requires 1 < k < UINT32 && d >= UINT32
    ensures k * d >= UINT32 + k
  {
  }

  lemma Differ(base: int, a: int, b: int)
    requires 0 < a - b < UINT32
    ensures Wrap(base + a) != Wrap(base + b)
  {
  }

  // Times in order, from a given one on, and each less than the bound after the one before.
  predicate Apart(time: nat, times: seq<nat>, bound: int)
    decreases |times|
  {
    times == [] || (0 <= times[0] - time < bound && Apart(times[0], times[1..], bound))
  }

  // The values Micros returns when called at the given times.
  function Readings(k: Word, s: State, times: seq<nat>): (readings: seq<Word>)
    requires 0 < k
    ensures |readings| == |times|
    decreases |times|
  {
    if times == [] then []
    else var s' := Step(k, s, Wrap(times[0]));
         [s'.microsAccumulated] + Readings(k, s', times[1..])
  }

  /** However often it is called, Micros returns the whole microseconds of the true time, modulo 2^32, with
      no drift, as long as two calls are less than 2^32 - k cycles apart. */
  lemma {:induction false} NoDrift(k: Word, s: State, time: nat, times: seq<nat>)
    requires 0 < k && Exact(k, s, time) && Apart(time, times, UINT32 - k)
    ensures forall i :: 0 <= i < |times| ==> Readings(k, s, times)[i] == Wrap(times[i] / k)
    decreases |times|
  {
    if times != [] {
      StepFits(k, s, time, times[0] - time);
      hide Step, Wrap, Exact;
      NoDrift(k, Step(k, s, Wrap(times[0])), times[0], times[1..]);
    }
  }

  class Clock {
    const k: Word
    var cyclesPrevious: Word
    var microsAccumulated: Word
    var cycleRemainder: Word

    ghost function View(): State
      reads this
    {
      State(cyclesPrevious, microsAccumulated, cycleRemainder)
    }

    constructor (k: Word)
      ensures this.k == k && View() == INITIAL && (0 < k ==> Exact(k, View(), 0))
      ensures cyclesPrevious == 0 && microsAccumulated == 0 && cycleRemainder == 0
    {
      this.k := k;
      cyclesPrevious, microsAccumulated, cycleRemainder := 0, 0, 0;
    }

    method Micros(cyclesNow: Word) returns (micros: Word)
      requires 0 < k
      modifies this
      ensures View() == Step(k, old(View()), cyclesNow) && micros == microsAccumulated
    {
      var deltaCycles := Wrap(cyclesNow - cyclesPrevious);
      cyclesPrevious := cyclesNow;
      var total := Wrap(cycleRemainder + deltaCycles);
      microsAccumulated := Wrap(microsAccumulated + total / k);
      cycleRemainder := total % k;
      micros := microsAccumulated;
    }
  }

  /* ---- DelayUs ---- */

  // What the loop adds for a reading that differs from the one before: one cycle less than has passed
  // when the counter has wrapped.
  function Advance(previous: Word, now: Word): Word {
    if now > previous then now - previous
    else if now < previous then UINT32 - 1 - previous + now
    else 0
  }

  // The number of readings after which the wait is over.
  function Wait(ticks: Word, previous: Word, count: Word, readings: seq<Word>): (r: Option<nat>)
    ensures r.Some? ==> 1 <= r.value <= |readings|
    decreases |readings|
  {
    if readings == [] then None
    else
      var now := readings[0];
      var count' := Wrap(count + Advance(previous, now));
      if now != previous && count' >= ticks then Some(1)
      else match Wait(ticks, now, count', readings[1..])
           case None => None
           case Some(n) => Some(n + 1)
  }

  function Shown(times: seq<nat>): (readings: seq<Word>)
    ensures |readings| == |times|
  {
    seq(|times|, i requires 0 <= i < |times| => Wrap(times[i]))
  }

  // Times in order.
  predicate Ordered(time: nat, times: seq<nat>)
    decreases |times|
  {
    times == [] || (time <= times[0] && Ordered(times[0], times[1..]))
  }

  lemma ShownTail(times: seq<nat>)
    requires times != []
    ensures Shown(times)[0] == Wrap(times[0]) && Shown(times)[1..] == Shown(times[1..])
  {
  }

  lemma AdvanceBound(time: nat, now: nat)
    requires time <= now
    ensures Advance(Wrap(time), Wrap(now)) <= now - time
  {
  }

  /** The wait is never over before as many cycles as asked for have passed, whenever the counter is
      read and however often it wraps. */
  lemma {:induction false} NeverEarly(ticks: Word, start: nat, time: nat, count: Word, times: seq<nat>)
    requires start <= time && count <= time - start && Ordered(time, times)
    ensures var r := Wait(ticks, Wrap(time), count, Shown(times));
            r.Some? ==> times[r.value - 1] - start >= ticks
    decreases |times|
  {
    if times != [] {
      ShownTail(times);
      AdvanceBound(time, times[0]);
      NeverEarly(ticks, start, times[0], Wrap(count + Advance(Wrap(time), Wrap(times[0]))), times[1..]);
      hide Wrap, Shown, Advance;
    }
  }

  // The times the counter has wrapped.
  function Wraps(start: nat, time: nat): int {
    time / UINT32 - start / UINT32
  }

  lemma AdvanceExact(start: nat, time: nat, now: nat)
    requires start <= time <= now < start + UINT32
    ensures Advance(Wrap(time), Wrap(now)) == now - time - (Wraps(start, now) - Wraps(start, time))
    ensures 0 <= Wraps(start, time) <= Wraps(start, now) <= 1
    ensures 0 <= now - start - Wraps(start, now)
    ensures Wrap(time) == Wrap(now) <==> time == now
  {
  }

  lemma {:induction false} OrderedUpTo(time: nat, times: seq<nat>, n: nat)
    requires Ordered(time, times) && n < |times|
    ensures time <= times[0] <= times[n]
    decreases |times|
  {
    if n > 0 {
      OrderedUpTo(times[0], times[1..], n - 1);
    }
  }

  /** A wait of less than 2^32 cycles is over, at the latest, at the first reading of a new value at which
      as many cycles have passed as were asked for, and one more if the counter has wrapped. */
  lemma {:induction false} InTime(ticks: Word, start: nat, time: nat, count: Word, times: seq<nat>, n: nat)
    requires start <= time && Ordered(time, times) && n < |times| && times[n] < start + UINT32
    requires count == time - start - Wraps(start, time)
    requires times[n] > if n == 0 then time else times[n - 1]
    requires times[n] - start >= ticks + Wraps(start, times[n])
    ensures var r := Wait(ticks, Wrap(time), count, Shown(times));
            r.Some? && r.value <= n + 1
    decreases |times|
  {
    hide Wrap, Shown, Advance, Wraps;
    ShownTail(times);
    OrderedUpTo(time, times, n);
    AdvanceExact(start, time, times[0]);
    NoWrap(count + Advance(Wrap(time), Wrap(times[0])));
    if n > 0 {
      InTime(ticks, start, times[0], Wrap(count + Advance(Wrap(time), Wrap(times[0]))), times[1..], n - 1);
    }
  }

  // A number of readings, with those before it.
  function Later(r: Option<nat>, i: nat): Option<nat> {
    match r
    case None => None
    case Some(n) => Some(n + i)
  }

  lemma WaitedOut(ticks: Word, previous: Word, count: Word)
    ensures Wait(ticks, previous, count, []) == None
  {
  }

  lemma WaitOn(ticks: Word, previous: Word, count: Word, readings: seq<Word>, i: nat)
    requires i < |readings|
    ensures var now := readings[i];
            var count' := Wrap(count + Advance(previous, now));
            Later(Wait(ticks, previous, count, readings[i..]), i)
            == if now == previous then Later(Wait(ticks, now, count, readings[i + 1..]), i + 1)
               else if count' >= ticks then Some(i + 1)
               else Later(Wait(ticks, now, count', readings[i + 1..]), i + 1)
  {
    hide Wrap;
    NoWrap(count);
    assert readings[i..][1..] == readings[i + 1..];
  }

  lemma WholeWait(ticks: Word, times: seq<nat>)
    requires times != [] && Ordered(times[0], times[1..])
    ensures var r := Wait(ticks, Shown(times)[0], 0, Shown(times)[1..]);
            r.Some? ==> times[r.value] - times[0] >= ticks
  {
    hide Wait, Ordered;
    ShownTail(times);
    NeverEarly(ticks, times[0], times[0], 0, times[1..]);
  }

  // The wait has taken as long as was asked for, whatever times in order the readings were made at.
  ghost predicate LongEnough(ticks: int, readings: seq<Word>, n: nat)
    requires 1 <= n <= |readings|
  {
    forall times: seq<nat> :: readings == Shown(times) && Ordered(times[0], times[1..])
                          ==> times[n - 1] - times[0] >= ticks
  }

  lemma WaitLongEnough(ticks: Word, readings: seq<Word>)
    requires readings != []
    ensures var r := Wait(ticks, readings[0], 0, readings[1..]);
            r.Some? ==> LongEnough(ticks, readings, r.value + 1)
  {
    hide Wait, Ordered;
    forall times: seq<nat> | readings == Shown(times) && Ordered(times[0], times[1..])
      ensures var r := Wait(ticks, readings[0], 0, readings[1..]);
              r.Some? ==> times[r.value] - times[0] >= ticks
    {
      WholeWait(ticks, times);
    }
  }

  /** The busy-wait, on the values the counter shows one reading after the other; it is the first of them
      that time is counted from, unless another starting point is given. The result is the number of
      readings made by the end of the wait, if there are enough of them; as long as the cycles to wait for
      fit in 32 bits, they have passed by the last of these. */
  method DelayUs(k: Word, micros: Word, offsetMicros: Word, readings: seq<Word>) returns (r: Option<nat>)
    ensures var ticks := Wrap(micros * k);
            if offsetMicros != 0 then r == Wait(ticks, offsetMicros, 0, readings)
            else if readings == [] then r == None
            else match Wait(ticks, readings[0], 0, readings[1..])
                 case None => r == None
                 case Some(n) => r == Some(n + 1)
    ensures offsetMicros == 0 && micros * k < UINT32 && r.Some?
        ==> 1 <= r.value <= |readings| && LongEnough(micros * k, readings, r.value)
  {
    hide Wrap, Wait, LongEnough;
    var ticks := Wrap(micros * k);
    var ticksPrevious: Word := offsetMicros;
    var i := 0;
    if offsetMicros == 0 {
      if readings == [] {
        return None;
      }
      ticksPrevious := readings[0];
      i := 1;
      WaitLongEnough(ticks, readings);
      if micros * k < UINT32 {
        NoWrap(micros * k);
      }
    }
    ghost var all := Later(Wait(ticks, ticksPrevious, 0, readings[i..]), i);
    assert readings[0..] == readings;
    var ticksCount: Word := 0;
    while i < |readings|
      invariant i <= |readings|
      invariant Later(Wait(ticks, ticksPrevious, ticksCount, readings[i..]), i) == all
    {
      WaitOn(ticks, ticksPrevious, ticksCount, readings, i);
      var ticksNow := readings[i];
      i := i + 1;
      if ticksNow != ticksPrevious {
        ticksCount := Wrap(ticksCount + if ticksNow > ticksPrevious then ticksNow - ticksPrevious
                                        else UINT32 - 1 - ticksPrevious + ticksNow);
        if ticksCount >= ticks {
          return Some(i);
        }
        ticksPrevious := ticksNow;
      }
    }
    WaitedOut(ticks, ticksPrevious, ticksCount);
    assert readings[i..] == [];
    return None;
  }
}

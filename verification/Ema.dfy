/** The exponential moving average of lib-device/include/ema.h: a filter on 16-bit unsigned arithmetic
    whose state is about 2^K - 1 times its output. */
module Ema {

  import opened Digits
  import opened Machine

  datatype Result = Result(state: Half, output: Half)

  function WrapHalf(x: int): Half {
    x % 0x1_0000
  }

  // The state a value is settled at, for the weight p = 2^K.
  function Start(p: nat, value: Half): Half {
    WrapHalf(WrapHalf(value * p) - value)
  }

  // The constant that rounds, kHalf, in its 16 bits.
  function HalfStep(p: nat): Half {
    WrapHalf(p / 2)
  }

  // One pass of the filter.
  function Step(p: nat, state: Half, input: Half): Result
    requires 0 < p
  {
    var sum := WrapHalf(state + input);
    var output := WrapHalf((sum + HalfStep(p)) / p);
    Result(WrapHalf(sum - output), output)
  }

  /* ---- No overflow ---- */

  // The states between those settled at lo and at hi.
  predicate InBand(p: nat, lo: int, hi: int, state: int) {
    (p - 1) * lo <= state <= (p - 1) * hi
  }

  // A quotient rounded to the nearest, from the excess over a multiple.
  lemma Rounded(p: nat, base: int, d: int)
    requires 0 < p
    ensures (p * base + d + p / 2) / p == base + (d + p / 2) / p
  {
    var q, r := (d + p / 2) / p, (d + p / 2) % p;
    assert p * base + d + p / 2 == p * (base + q) + r;
    Unique(p * base + d + p / 2, p, base + q, r);
  }

  // The correction a pass makes for an excess d: towards zero, not past it, and none within half a step.
  lemma Correction(p: nat, d: int)
    requires 0 < p
    ensures var q := (d + p / 2) / p;
            && (0 <= d ==> 0 <= q <= d)
            && (d <= 0 ==> d <= q <= 0)
            && (q == 0 <==> -(p / 2) <= d < p - p / 2)
  {
    var q, r := (d + p / 2) / p, (d + p / 2) % p;
    assert d + p / 2 == p * q + r;
    if q >= 1 { Larger(p, q); MultipleGrows(p, q); }
    if q <= -1 { Larger(p, -q); MultipleGrows(p, -q); }
  }

  lemma MultipleGrows(p: nat, k: int)
    requires k >= 1 && p >= 1
    ensures p * k - p >= k - 1
    ensures p * -k == -(p * k)
  {
  }

  // For weights from 2^17 the constant does not fit, but neither does a sum count then.
  lemma HalfStepFits(p: nat, sum: Half)
    requires 0 < p
    ensures (sum + HalfStep(p)) / p == (sum + p / 2) / p
  {
    if p >= 0x2_0000 {
      assert p == p / 2 + p / 2 + p % 2;
      Unique(sum + HalfStep(p), p, 0, sum + HalfStep(p));
      Unique(sum + p / 2, p, 0, sum + p / 2);
    }
  }

  lemma HalfKept(sum: Half, output: int)
    requires 0 <= output <= sum
    ensures WrapHalf(sum) == sum && WrapHalf(output) == output && WrapHalf(sum - output) == sum - output
  {
  }

  // While the sum fits, so do the output and the new state.
  lemma StepExact(p: nat, state: Half, input: Half)
    requires 0 < p && state + input < 0x1_0000
    ensures var r := Step(p, state, input);
            r.output == (state + input + p / 2) / p && r.state == state + input - r.output
  {
    hide HalfStep;
    HalfStepFits(p, state + input);
    Correction(p, state + input);
    HalfKept(state + input, (state + input + p / 2) / p);
  }

  /** For inputs between lo and hi a pass overflows nowhere: its sum is the true one, its output lies
      between lo and hi again and is the true quotient rounded, and the state stays in the band. */
  lemma StepInBand(p: nat, lo: Half, hi: Half, state: Half, input: Half)
    requires 0 < p && hi * p < 0x1_0000 && lo <= input <= hi && InBand(p, lo, hi, state)
    ensures var r := Step(p, state, input);
            && lo <= r.output <= hi && r.output == (state + input + p / 2) / p
            && r.state == state + input - r.output && (p - 1) * lo <= r.state <= (p - 1) * hi
            && IdealStep(p, state, input) == Ideal(r.state, r.output) && InBand(p, lo, hi, r.state)
  {
    Less(p, lo);
    Less(p, hi);
    hide Step;
    FromBelow(p, lo, state + input);
    FromAbove(p, hi, state + input);
    StepExact(p, state, input);
  }

  lemma Less(p: nat, x: int)
    ensures (p - 1) * x == p * x - x && p * x == x * p
  {
  }

  lemma FromBelow(p: nat, lo: int, t: int)
    requires 0 < p && p * lo <= t
    ensures lo <= (t + p / 2) / p && p * lo - lo <= t - (t + p / 2) / p
  {
    Rounded(p, lo, t - p * lo);
    Correction(p, t - p * lo);
  }

  lemma FromAbove(p: nat, hi: int, t: int)
    requires 0 < p && t <= p * hi
    ensures (t + p / 2) / p <= hi && t - (t + p / 2) / p <= p * hi - hi
  {
    Rounded(p, hi, t - p * hi);
    Correction(p, t - p * hi);
  }

  // The states and outputs of a run, pass by pass.
  function Run(p: nat, state: Half, inputs: seq<Half>): (results: seq<Result>)
    requires 0 < p
    ensures |results| == |inputs|
    decreases |inputs|
  {
    if inputs == [] then []
    else var r := Step(p, state, inputs[0]);
         [r] + Run(p, r.state, inputs[1..])
  }

  // The same on unbounded integers: what the filter is meant to compute.
  datatype Ideal = Ideal(state: int, output: int)

  function IdealStep(p: nat, state: int, input: int): Ideal
    requires 0 < p
  {
    var output := (state + input + p / 2) / p;
    Ideal(state + input - output, output)
  }

  function IdealRun(p: nat, state: int, inputs: seq<int>): (results: seq<Ideal>)
    requires 0 < p
    ensures |results| == |inputs|
    decreases |inputs|
  {
    if inputs == [] then []
    else var r := IdealStep(p, state, inputs[0]);
         [r] + IdealRun(p, r.state, inputs[1..])
  }

  /** A run on inputs between lo and hi, from a state in the band, is the one on unbounded integers: it overflows
      nowhere. After every pass the state is in the band, and every output lies between lo and hi. */
  lemma {:induction false} RunInBand(p: nat, lo: Half, hi: Half, state: Half, inputs: seq<Half>)
    requires 0 < p && hi * p < 0x1_0000 && InBand(p, lo, hi, state)
    requires forall i :: 0 <= i < |inputs| ==> lo <= inputs[i] <= hi
    ensures forall i :: 0 <= i < |inputs| ==>
              var r := Run(p, state, inputs)[i];
              && IdealRun(p, state, inputs)[i] == Ideal(r.state, r.output)
              && InBand(p, lo, hi, r.state) && lo <= r.output <= hi
    decreases |inputs|
  {
    hide Step, IdealStep, InBand;
    if inputs != [] {
      var r := Step(p, state, inputs[0]);
      StepInBand(p, lo, hi, state, inputs[0]);
      RunInBand(p, lo, hi, r.state, inputs[1..]);
    }
  }

  lemma StartInBand(p: nat, lo: Half, hi: Half, value: Half)
    requires 0 < p && hi * p < 0x1_0000 && lo <= value <= hi
    ensures Start(p, value) == (p - 1) * value && InBand(p, lo, hi, Start(p, value))
  {
    MultipleOrder(p, value, hi);
    MultipleOrder(p - 1, lo, value);
    MultipleOrder(p - 1, value, hi);
    assert value * p - value == (p - 1) * value;
    assert 0 <= (p - 1) * value;
  }

  lemma MultipleOrder(p: nat, a: int, b: int)
    requires a <= b
    ensures p * a <= p * b
  {
  }

  /* ---- Settling ---- */

  // How far the state is from the one settled at x.
  function Excess(p: nat, state: int, x: int): int {
    state - (p - 1) * x
  }

  // The states in which the filter puts out x.
  predicate Settled(p: nat, state: int, x: int) {
    -(p / 2) <= Excess(p, state, x) < p - p / 2
  }

  /** Under a constant input the state moves towards that of the input, at every pass, until the output is
      the input; then it stays where it is. The output is the input exactly in those states. */
  lemma StepSettles(p: nat, lo: Half, hi: Half, state: Half, x: Half)
    requires 0 < p && hi * p < 0x1_0000 && lo <= x <= hi && InBand(p, lo, hi, state)
    ensures var r := Step(p, state, x);
            && (r.output == x <==> Settled(p, state, x))
            && (Settled(p, state, x) <==> -(p / 2) <= state - (p - 1) * x < p - p / 2)
            && if Settled(p, state, x) then r.state == state
               else Abs(Excess(p, r.state, x)) < Abs(Excess(p, state, x))
  {
    var e := Excess(p, state, x);
    StepInBand(p, lo, hi, state, x);
    assert state + x == p * x + e;
    Rounded(p, x, e);
    Correction(p, e);
  }

  function After(p: nat, state: Half, x: Half, n: nat): Half
    requires 0 < p
    decreases n
  {
    if n == 0 then state else After(p, Step(p, state, x).state, x, n - 1)
  }

  /** So from any state in the band the output has become the input after at most as many passes as the
      state was off by, and is the input for ever after. */
  lemma {:induction false} Settles(p: nat, lo: Half, hi: Half, state: Half, x: Half, n: nat)
    requires 0 < p && hi * p < 0x1_0000 && lo <= x <= hi && InBand(p, lo, hi, state)
    requires n >= Abs(Excess(p, state, x))
    ensures Settled(p, After(p, state, x, n), x)
    ensures Step(p, After(p, state, x, n), x) == Result(After(p, state, x, n), x)
    decreases n
  {
    NoExcess(p, state, x);
    StepInBand(p, lo, hi, state, x);
    StepSettles(p, lo, hi, state, x);
    hide Excess, InBand, Settled, Step;
    if Settled(p, state, x) {
      Stays(p, state, x, n);
    } else {
      Settles(p, lo, hi, Step(p, state, x).state, x, n - 1);
    }
  }

  lemma NoExcess(p: nat, state: int, x: int)
    requires 0 < p
    ensures Excess(p, state, x) == 0 ==> Settled(p, state, x)
  {
  }

  lemma {:induction false} Stays(p: nat, state: Half, x: Half, n: nat)
    requires 0 < p && Step(p, state, x).state == state
    ensures After(p, state, x, n) == state
    decreases n
  {
    hide Step;
    if n > 0 {
      Stays(p, state, x, n - 1);
    }
  }

  /** The bound on the inputs is the right one: for a weight of at most 2^16 a filter started at a value
      and fed it puts it out again exactly if the value times the weight fits in 16 bits. */
  lemma KeepsValue(p: nat, w: nat, x: Half)
    requires p * w == 0x1_0000
    ensures Step(p, Start(p, x), x).output == x <==> x * p < 0x1_0000
  {
    hide Start, WrapHalf;
    var m, r := x * p / 0x1_0000, x * p % 0x1_0000;
    var output := x - w * m;
    FedBack(p, x);
    Regroup(p, w, m, x);
    NotNegative(p, output, r);
    HalfStepFits(p, r);
    Unique(r + p / 2, p, output, p / 2);
    hide HalfStep;
    NoWrapHalf(output);
    if m >= 1 {
      Larger(w, m);
    }
  }

  lemma FedBack(p: nat, x: Half)
    ensures WrapHalf(Start(p, x) + x) == x * p % 0x1_0000
  {
    FedBackProduct(x * p, x);
  }

  lemma FedBackProduct(y: int, x: Half)
    ensures WrapHalf(WrapHalf(WrapHalf(y) - x) + x) == y % 0x1_0000
  {
  }

  lemma NoWrapHalf(x: Half)
    ensures WrapHalf(x) == x
  {
  }

  lemma NotNegative(p: nat, k: int, n: nat)
    requires 0 < p && n == p * k
    ensures k >= 0
  {
  }

  lemma Regroup(p: nat, w: nat, m: nat, x: nat)
    ensures x * p - p * w * m == p * (x - w * m)
  {
  }

  /* ---- The filter ---- */

  class Filter {
    const k: nat
    var state: Half

    constructor (k: nat, initial: Half)
      ensures this.k == k && state == Start(Power(2, k), initial)
      ensures state == (initial * Power(2, k) % 0x1_0000 - initial) % 0x1_0000
    {
      this.k := k;
      state := WrapHalf(WrapHalf(initial * Power(2, k)) - initial);
    }

    method Reset(value: Half)
      modifies this
      ensures state == Start(Power(2, k), value)
      ensures state == (value * Power(2, k) % 0x1_0000 - value) % 0x1_0000
    {
      state := WrapHalf(WrapHalf(value * Power(2, k)) - value);
    }

    method Filter(input: Half) returns (output: Half)
      modifies this
      ensures Result(state, output) == Step(Power(2, k), old(state), input)
      ensures var sum := (old(state) + input) % 0x1_0000;
              && output == (sum + Power(2, k) / 2 % 0x1_0000) / Power(2, k) % 0x1_0000
              && state == (sum - output) % 0x1_0000
    {
      state := WrapHalf(state + input);
      output := WrapHalf((state + KHalf()) / Power(2, k));
      state := WrapHalf(state - output);
    }

    // kHalf.
    function KHalf(): (h: Half)
      ensures h == HalfStep(Power(2, k))
    {
      if k > 0 then WrapHalf(Power(2, k - 1)) else 0
    }
  }
}

/** The integer exponential moving average: a rounding filter in 16-bit arithmetic. */
module Ema {
  import opened Arithmetic
  import opened Words

  const WORD := 0x1_0000

  /** The rounding constant, a 16-bit number. */
  function Half(k: nat): (r: nat)
    ensures r < WORD && 2 * r <= Pow2(k)
  {
    if k > 0 then Pow2(k - 1) % WORD else 0
  }

  datatype Step = Step(state: int, output: int)

  /** One filter step over unbounded integers: add the input, divide with rounding, take the quotient out. */
  function IdealStep(k: nat, state: int, input: int): Step {
    var output := (state + input + Half(k)) / Pow2(k);
    Step(state + input - output, output)
  }

  /** The same step as the code takes it, every assignment cut to 16 bits. */
  function WordStep(k: nat, state: half, input: half): (r: Step)
    ensures 0 <= r.state < WORD && 0 <= r.output < WORD
  {
    var sum := (state + input) % WORD;
    var output := (sum + Half(k)) / Pow2(k) % WORD;
    Step((sum - output) % WORD, output)
  }

  /** A state that was reset to a value: the value, added once, makes it the shifted value. */
  predicate IsReset(k: nat, state: half, value: half) {
    (state + value) % WORD == value * Pow2(k) % WORD
  }

  /** At rest on a value: however often it is the input, it is also the output. */
  ghost predicate Rests(k: nat, state: half, value: half) {
    forall n: nat {:trigger Repeat(value, n)} :: WordRun(k, state, Repeat(value, n)).outputs == Repeat(value, n)
  }

  class EMA {
    const k: nat
    var state: half

    constructor (k: nat, initial: half)
      ensures this.k == k && IsReset(k, state, initial)
      ensures initial * Pow2(k) < WORD ==> Rests(k, state, initial)
    {
      hide Rests, IsReset;
      this.k := k;
      state := (initial * Pow2(k) % WORD - initial) % WORD;
      new;
      StateIsReset(k, initial);
      ResetRests(k, state, initial);
    }

    method Reset(value: half)
      modifies this
      ensures IsReset(k, state, value)
      ensures forall m {:trigger Within(k, state, m)} :: m * Pow2(k) < WORD && value <= m ==> Within(k, state, m)
      ensures value * Pow2(k) < WORD ==> Rests(k, state, value)
      ensures k <= 16 ==> WordStep(k, state, value).output == value % Pow2(16 - k)
    {
      hide Rests, IsReset, Within, WordStep;
      state := (value * Pow2(k) % WORD - value) % WORD;
      StateIsReset(k, value);
      forall m {:trigger Within(k, state, m)} | m * Pow2(k) < WORD && value <= m
        ensures Within(k, state, m)
      {
        ResetWithin(k, state, value, m);
      }
      ResetRests(k, state, value);
      if k <= 16 {
        FirstOutput(k, state, value);
      }
    }

    method Filter(input: half) returns (output: half)
      modifies this
      ensures Step(state, output) == WordStep(k, old(state), input)
      // The nearest integer to the quotient is given out, and taken out of the state.
      ensures k <= 16 ==>
                var sum := (old(state) + input) % 0x1_0000;
                && Nearest(sum, Pow2(k), output)
                && state == (sum - output) % 0x1_0000
      // In bounds, it is the unbounded filter, and stays in bounds.
      ensures forall m {:trigger Within(k, old(state), m)} ::
                m * Pow2(k) < WORD && Within(k, old(state), m) && input <= m ==>
                Step(state, output) == IdealStep(k, old(state), input) && Within(k, state, m) && output <= m
    {
      hide Pow2, Half, Within, IdealStep, Nearest;
      if k <= 16 {
        NearestWord(k, state, input);
      }
      forall m {:trigger Within(k, state, m)} | m * Pow2(k) < WORD && Within(k, state, m) && input <= m
        ensures WordStep(k, state, input) == IdealStep(k, state, input)
        ensures var r := IdealStep(k, state, input); Within(k, r.state, m) && r.output <= m
      {
        NoWrap(k, state, input, m);
        IdealStepBounded(k, state, input, m);
      }
      state := (state + input) % WORD;
      output := (state + Half(k)) / Pow2(k) % WORD;
      state := (state - output) % WORD;
    }

    /** A whole run: the outputs for a list of inputs. */
    method FilterAll(inputs: seq<half>) returns (outputs: seq<half>)
      modifies this
      ensures Run(state, outputs) == WordRun(k, old(state), inputs)
    {
      outputs := [];
      for i := 0 to |inputs|
        invariant Run(state, outputs) == WordRun(k, old(state), inputs[..i])
      {
        assert inputs[..i + 1][..i] == inputs[..i];
        var output := Filter(inputs[i]);
        outputs := outputs + [output];
      }
      assert inputs[..|inputs|] == inputs;
    }
  }

  // ---------- runs ----------

  datatype Run = Run(state: int, outputs: seq<int>)

  /** The code's filter over a list of inputs. */
  function WordRun(k: nat, state: half, inputs: seq<half>): (r: Run)
    ensures |r.outputs| == |inputs| && 0 <= r.state < WORD
  {
    if inputs == [] then Run(state, [])
    else
      var before := WordRun(k, state, inputs[..|inputs| - 1]);
      var step := WordStep(k, before.state, inputs[|inputs| - 1]);
      Run(step.state, before.outputs + [step.output])
  }

  /** The unbounded filter over a list of inputs. */
  function IdealRun(k: nat, state: int, inputs: seq<half>): (r: Run)
    ensures |r.outputs| == |inputs|
  {
    if inputs == [] then Run(state, [])
    else
      var before := IdealRun(k, state, inputs[..|inputs| - 1]);
      var step := IdealStep(k, before.state, inputs[|inputs| - 1]);
      Run(step.state, before.outputs + [step.output])
  }

  /** The states from which inputs up to m leave every 16-bit operation exact. */
  predicate Within(k: nat, state: int, m: int) {
    0 <= state <= (Pow2(k) - 1) * m
  }

  /** Rounding division: the remainder lies in a window of p values from -half on. */
  lemma Rounded(x: int, p: int, half: int) returns (q: int, d: int)
    requires p > 0 && 0 <= half && 2 * half <= p
    ensures q == (x + half) / p && x == p * q + d && -half <= d < p - half
  {
    q := (x + half) / p;
    d := (x + half) % p - half;
  }

  lemma QuotientAtMost(p: int, q: int, m: int, d: int, half: int)
    requires p > 0 && 0 <= half && 2 * half <= p && p * q + d <= p * m && -half <= d
    ensures q <= m
  {
    Expand(p, m + 1);
    if q > m {
      MulMonotone(p, m + 1, q);
    }
  }

  lemma QuotientAtLeastZero(p: int, q: int, d: int, half: int)
    requires p > 0 && 0 <= half && p * q + d >= 0 && d < p - half
    ensures q >= 0
  {
    if q < 0 {
      MulMonotone(p, q, -1);
    }
  }

  /** One step over the integers keeps the state within bounds and the output at most m. */
  lemma IdealStepBounded(k: nat, state: int, input: int, m: int)
    requires Within(k, state, m) && 0 <= input <= m
    ensures var r := IdealStep(k, state, input); Within(k, r.state, m) && 0 <= r.output <= m
  {
    hide Pow2, Half;
    var p, x := Pow2(k), state + input;
    var q, d := Rounded(x, p, Half(k));
    assert x <= (p - 1) * m + m == p * m;
    QuotientAtMost(p, q, m, d, Half(k));
    QuotientAtLeastZero(p, q, d, Half(k));
    RemainderBounded(p, q, m, d, Half(k));
  }

  lemma RemainderBounded(p: int, q: int, m: int, d: int, half: int)
    requires p > 0 && 0 <= half && 2 * half <= p && 0 <= q <= m && 0 <= p * q + d <= p * m && -half <= d < p - half
    ensures 0 <= p * q + d - q <= (p - 1) * m
  {
    Expand(p, m);
    Expand(p, q);
    if q < m {
      MulMonotone(p - 1, q, m - 1);
    }
    if q > 0 {
      MulMonotone(p - 1, 1, q);
    }
  }

  /** While inputs and state are in bounds, no operation wraps: the code's step is the unbounded one. */
  lemma NoWrap(k: nat, state: half, input: half, m: int)
    requires m * Pow2(k) < WORD && Within(k, state, m) && input <= m
    ensures WordStep(k, state, input) == IdealStep(k, state, input)
  {
    hide Pow2, Half;
    IdealStepBounded(k, state, input, m);
    InRange(Pow2(k), state, input, m);
    Exact(state, input, Half(k), Pow2(k));
  }

  lemma InRange(p: int, state: int, input: int, m: int)
    requires p > 0 && m * p < WORD && 0 <= state <= (p - 1) * m && 0 <= input <= m
    ensures state + input < WORD && m < WORD && (p - 1) * m < WORD
  {
    Expand(p, m);
    AtMostProduct(m, p);
  }

  lemma Exact(state: half, input: half, half: int, p: int)
    requires p > 0 && state + input < WORD
    requires var output := (state + input + half) / p; 0 <= output < WORD && 0 <= state + input - output < WORD
    ensures (state + input) % WORD == state + input
    ensures var output := (state + input + half) / p;
            output % WORD == output && (state + input - output) % WORD == state + input - output
  {
  }

  lemma AtMostProduct(m: int, p: int)
    requires m >= 0 && p > 0
    ensures m <= m * p
  {
  }

  /** Every run on inputs up to m, with m times two to the k still a 16-bit number: the state stays in bounds, no
      output exceeds m, and the 16-bit filter agrees with the unbounded one throughout. */
  lemma {:induction false} BoundedRun(k: nat, state: half, inputs: seq<half>, m: int)
    requires m * Pow2(k) < WORD && Within(k, state, m)
    requires forall i :: 0 <= i < |inputs| ==> inputs[i] <= m
    ensures var r := WordRun(k, state, inputs);
            r == IdealRun(k, state, inputs) && Within(k, r.state, m)
                && forall i :: 0 <= i < |inputs| ==> r.outputs[i] <= m
    decreases |inputs|
  {
    if inputs != [] {
      hide WordStep, IdealStep, Pow2, Within;
      var last := |inputs| - 1;
      BoundedRun(k, state, inputs[..last], m);
      var before := WordRun(k, state, inputs[..last]);
      NoWrap(k, before.state, inputs[last], m);
      IdealStepBounded(k, before.state, inputs[last], m);
    }
  }

  // ---------- rounding ----------

  lemma {:induction false} PowerBelow(k: nat)
    requires k <= 15
    ensures Pow2(k) <= 0x8000
    decreases 15 - k
  {
    if k == 15 {
      assert Pow2(8) == 0x100;
    } else {
      PowerBelow(k + 1);
    }
  }

  /** The rounding constant is one half of the divisor. */
  lemma HalfIsHalf(k: nat)
    requires k <= 16
    ensures if k == 0 then Half(k) == 0 else 2 * Half(k) == Pow2(k)
  {
    if k > 0 {
      PowerBelow(k - 1);
    }
  }

  /** q is an integer nearest to x / p, the upper one of two. */
  ghost predicate Nearest(x: int, p: int, q: int) {
    -p <= 2 * (x - p * q) < p
  }

  /** The output is the integer nearest to the sum of state and input divided by two to the k, the upper one of two. */
  lemma NearestOutput(k: nat, state: int, input: int)
    requires k <= 16
    ensures var p, q := Pow2(k), IdealStep(k, state, input).output;
            Nearest(state + input, p, q)
  {
    hide Pow2, Half;
    HalfIsHalf(k);
    PowerOne(k);
    var q, d := Rounded(state + input, Pow2(k), Half(k));
  }

  lemma PowerOne(k: nat)
    ensures Pow2(0) == 1
  {
  }

  /** The same for the step in 16 bits, whose sum may have wrapped; the rest of the sum is the new state. */
  lemma NearestWord(k: nat, state: half, input: half)
    requires k <= 16
    ensures var sum, p, r := (state + input) % WORD, Pow2(k), WordStep(k, state, input);
            Nearest(sum, p, r.output) && r.state == (sum - r.output) % WORD
  {
    hide Pow2, Half, Nearest;
    var sum := (state + input) % WORD;
    NearestOutput(k, sum, 0);
    QuotientFits(k, sum);
  }

  lemma QuotientFits(k: nat, sum: half)
    requires k <= 16
    ensures 0 <= (sum + Half(k)) / Pow2(k) < WORD
  {
    hide Pow2, Half;
    HalfIsHalf(k);
    PowerOne(k);
    var p := Pow2(k);
    var q, d := Rounded(sum, p, Half(k));
    if q >= WORD {
      MulMonotone(p, WORD, q);
      MulMonotone(WORD, 1, p);
    } else if q < 0 {
      MulMonotone(p, q, -1);
    }
  }

  // ---------- reset ----------

  lemma StateIsReset(k: nat, value: half)
    ensures IsReset(k, (value * Pow2(k) % WORD - value) % WORD, value)
  {
    BackAgain(value * Pow2(k) % WORD, value);
  }

  /** There is one such state for each value. */
  lemma ResetUnique(k: nat, s: half, t: half, value: half)
    requires IsReset(k, s, value) && IsReset(k, t, value)
    ensures s == t
  {
    assert (s + value) % WORD == (t + value) % WORD;
  }

  /** Reset to a value within bounds puts the state within bounds. */
  lemma ResetWithin(k: nat, state: half, value: half, m: int)
    requires IsReset(k, state, value) && m * Pow2(k) < WORD && value <= m
    ensures Within(k, state, m) && state == (Pow2(k) - 1) * value
  {
    hide Pow2;
    var p := Pow2(k);
    MulMonotone(p, value, m);
    MulMonotone(p - 1, value, m);
    MulMonotone(p - 1, 0, value);
    AtMostProduct(value, p);
    Expand(p, value);
    Expand(p, m);
    NotWrapped(state, value, p * value);
  }

  lemma NotWrapped(state: half, value: half, shifted: int)
    requires value <= shifted < WORD && (state + value) % WORD == shifted
    ensures state == shifted - value
  {
  }

  lemma ModOfMultiple(v: int, p: int, q: int)
    requires v >= 0 && p > 0 && q > 0
    ensures v * p % (q * p) == v % q * p
  {
    var a, r := v / q, v % q;
    assert v == q * a + r;
    Regroup(v, p, q, a, r);
    MulMonotone(p, r, q - 1);
    MulMonotone(p, 0, r);
    Expand(p, q);
    ModUnique(v * p, q * p, a, r * p);
  }

  lemma Regroup(v: int, p: int, q: int, a: int, r: int)
    requires v == q * a + r
    ensures v * p == (q * p) * a + r * p
  {
  }

  /** The first output for the value the filter was reset to. */
  lemma FirstOutput(k: nat, state: half, value: half)
    requires k <= 16 && IsReset(k, state, value)
    ensures WordStep(k, state, value).output == value % Pow2(16 - k)
  {
    hide Pow2, Half, WordStep;
    var p, q := Pow2(k), Pow2(16 - k);
    Pow2Sum(16 - k, k);
    SixteenBits();
    ModOfMultiple(value, p, q);
    SmallerMod(value, q);
    OutputOfSum(k, state, value, value % q);
  }

  lemma OutputOfSum(k: nat, state: half, input: half, w: int)
    requires 0 <= w < WORD && (state + input) % WORD == w * Pow2(k)
    ensures WordStep(k, state, input).output == w
  {
    hide Pow2, Half;
    RoundExact(w, Pow2(k), Half(k));
  }

  lemma SmallerMod(v: int, q: int)
    requires v >= 0 && q > 0
    ensures 0 <= v % q <= v
  {
  }

  lemma SixteenBits()
    ensures Pow2(16) == WORD
  {
    assert Pow2(8) == 0x100;
  }

  lemma BackAgain(a: int, v: int)
    requires 0 <= a < WORD && 0 <= v < WORD
    ensures ((a - v) % WORD + v) % WORD == a
  {
  }

  lemma RoundExact(w: int, p: int, half: int)
    requires p > 0 && 0 <= half && 2 * half <= p && 0 <= w < WORD
    ensures (w * p + half) / p == w
  {
    assert half < p;
    Expand(p, w);
    ModUnique(w * p + half, p, w, half);
  }

  /** A filter reset to a value gives that value back for it exactly when the shifted value fits in 16 bits. */
  lemma ResetHoldsIff(k: nat, state: half, value: half)
    requires k <= 16 && IsReset(k, state, value)
    ensures WordStep(k, state, value).output == value <==> value * Pow2(k) < WORD
  {
    hide Pow2, WordStep, IsReset;
    FirstOutput(k, state, value);
    Pow2Sum(16 - k, k);
    SixteenBits();
    FitsIff(value, Pow2(k), Pow2(16 - k));
  }

  lemma FitsIff(v: int, p: int, q: int)
    requires v >= 0 && p > 0 && q > 0
    ensures v % q == v <==> v * p < q * p
  {
    Expand(v, p);
    Expand(p, q);
    if v < q {
      MulMonotone(p, v, q - 1);
    } else {
      MulMonotone(p, q, v);
    }
  }

  // ---------- constant input ----------

  /** The state after n more steps on the same input. */
  ghost function StateAfter(k: nat, state: int, v: int, n: nat): int {
    if n == 0 then state else IdealStep(k, StateAfter(k, state, v, n - 1), v).state
  }

  /** The n-th output, counted from zero, on the same input. */
  ghost function OutputAt(k: nat, state: int, v: int, n: nat): int {
    IdealStep(k, StateAfter(k, state, v, n), v).output
  }

  /** How far the sum of state and input is from its resting point. */
  function Gap(k: nat, state: int, v: int): int {
    state + v - Pow2(k) * v
  }

  function Abs(x: int): nat {
    if x < 0 then -x else x
  }

  /** One step on input v: above its target the gap falls but not below zero, below it rises but not above, and on
      target it stays; which of the three, the output says. */
  lemma GapStep(k: nat, state: int, v: int)
    ensures var r := IdealStep(k, state, v);
            var g, h := Gap(k, state, v), Gap(k, r.state, v);
            && (r.output > v ==> 0 <= h < g)
            && (r.output < v ==> g < h <= 0)
            && (r.output == v ==> r.state == state)
            && (r.output > v ==> g > 0) && (r.output < v ==> g < 0)
  {
    hide Pow2, Half;
    var p := Pow2(k);
    var q, d := Rounded(state + v, p, Half(k));
    var e := q - v;
    assert p * e == p * q - p * v;
    Expand(p, e);
    if e > 0 {
      MulMonotone(p - 1, 1, e);
    } else if e < 0 {
      MulMonotone(p - 1, e, -1);
    }
  }

  lemma OutputOfGap(k: nat, s: int, t: int, v: int)
    requires Gap(k, s, v) <= Gap(k, t, v)
    ensures IdealStep(k, s, v).output <= IdealStep(k, t, v).output
  {
    hide Pow2, Half;
    DivMonotone(s + v + Half(k), t + v + Half(k), Pow2(k));
  }

  /** Where the gap has a sign, the output is on the same side of the target, or on it. */
  lemma SideOfOutput(k: nat, state: int, v: int)
    ensures var out := IdealStep(k, state, v).output;
            (Gap(k, state, v) >= 0 ==> out >= v) && (Gap(k, state, v) <= 0 ==> out <= v)
  {
    hide Pow2, Half, IdealStep;
    GapStep(k, state, v);
  }

  /** On a constant input each output lies between the one before and the input: no step away, no overshoot. */
  lemma TowardsInput(k: nat, state: int, v: int, n: nat)
    ensures var a, b := OutputAt(k, state, v, n), OutputAt(k, state, v, n + 1);
            v <= b <= a || a <= b <= v
  {
    hide Pow2, Half, Gap, IdealStep;
    var s := StateAfter(k, state, v, n);
    var t := StateAfter(k, state, v, n + 1);
    assert t == IdealStep(k, s, v).state;
    GapStep(k, s, v);
    SideOfOutput(k, t, v);
    if IdealStep(k, s, v).output > v {
      OutputOfGap(k, t, s, v);
    } else if IdealStep(k, s, v).output < v {
      OutputOfGap(k, s, t, v);
    }
  }

  /** Until the output is the input, every step makes the gap smaller. */
  lemma {:induction false} GapShrinks(k: nat, state: int, v: int, n: nat)
    ensures OutputAt(k, state, v, n) == v || Abs(Gap(k, StateAfter(k, state, v, n), v)) + n <= Abs(Gap(k, state, v))
  {
    hide Pow2, Half, Gap, IdealStep;
    if n > 0 {
      GapShrinks(k, state, v, n - 1);
      GapStep(k, StateAfter(k, state, v, n - 1), v);
    }
  }

  /** After as many steps as the gap was wide the output is the input. */
  lemma Settles(k: nat, state: int, v: int, n: nat)
    requires n >= Abs(Gap(k, state, v))
    ensures OutputAt(k, state, v, n) == v
  {
    hide Pow2, Half, Gap, IdealStep;
    GapShrinks(k, state, v, n);
    GapStep(k, StateAfter(k, state, v, n), v);
  }

  /** The unbounded run on a constant input, output by output. */
  lemma {:induction false} ConstantRun(k: nat, state: int, v: half, n: nat)
    ensures var r := IdealRun(k, state, Repeat(v, n));
            r.state == StateAfter(k, state, v, n) && forall i :: 0 <= i < n ==> r.outputs[i] == OutputAt(k, state, v, i)
  {
    hide IdealStep;
    if n > 0 {
      ConstantRun(k, state, v, n - 1);
      assert Repeat(v, n)[..n - 1] == Repeat(v, n - 1);
    }
  }

  /** The code's filter on a constant input: from a state within bounds the outputs move towards the input without
      passing it, and from the position given by the initial gap on they all equal it. */
  lemma ConstantInputSettles(k: nat, state: half, v: half, m: int, n: nat)
    requires m * Pow2(k) < WORD && Within(k, state, m) && v <= m
    ensures var out := WordRun(k, state, Repeat(v, n)).outputs;
            && (forall i :: 0 <= i < n - 1 ==> v <= out[i + 1] <= out[i] || out[i] <= out[i + 1] <= v)
            && (forall i :: Abs(Gap(k, state, v)) <= i < n ==> out[i] == v)
  {
    hide Pow2, WordStep, IdealStep, Within, Gap, OutputAt;
    BoundedRun(k, state, Repeat(v, n), m);
    ConstantRun(k, state, v, n);
    var out := WordRun(k, state, Repeat(v, n)).outputs;
    forall i | 0 <= i < n - 1
      ensures v <= out[i + 1] <= out[i] || out[i] <= out[i + 1] <= v
    {
      TowardsInput(k, state, v, i);
    }
    forall i | Abs(Gap(k, state, v)) <= i < n
      ensures out[i] == v
    {
      Settles(k, state, v, i);
    }
  }
  /** A filter reset to a value that fits, shifted, in 16 bits rests on it. */
  lemma ResetRests(k: nat, state: half, value: half)
    requires IsReset(k, state, value)
    ensures value * Pow2(k) < WORD ==> Rests(k, state, value)
  {
    hide Pow2, WordRun, IsReset, Gap, Within;
    if value * Pow2(k) < WORD {
      ResetWithin(k, state, value, value);
      NoGap(k, state, value);
      forall n: nat {:trigger Repeat(value, n)}
        ensures WordRun(k, state, Repeat(value, n)).outputs == Repeat(value, n)
      {
        ConstantInputSettles(k, state, value, value, n);
      }
    }
  }

  lemma NoGap(k: nat, state: int, value: int)
    requires state == (Pow2(k) - 1) * value
    ensures Gap(k, state, value) == 0
  {
    hide Pow2;
    Expand(Pow2(k), value);
  }
}

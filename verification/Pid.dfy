/** The PID controller, over exact reals. */
module Pid {

  // The gains are kept scaled to the sample time and signed by the direction, and the integral
  // term is clamped at every step.

  const AUTOMATIC := 1
  const REVERSE := 1
  const ON_E := 1

  /** Millisecond times are unsigned 32-bit numbers. */
  const TIMES := 0x1_0000_0000

  /** A sample period in milliseconds. */
  type Millis = n: int | 0 < n witness 1

  function Seconds(t: Millis): (s: real)
    ensures s > 0.0
  {
    t as real / 1000.0
  }

  function Clamp(x: real, lo: real, hi: real): real
  {
    if x > hi then hi else if x < lo then lo else x
  }

  datatype Gains = Gains(p: real, i: real, d: real)
  {
    function Negated(): Gains
    {
      Gains(0.0 - p, 0.0 - i, 0.0 - d)
    }

    /** The same gains for a period ratio times as long. */
    function Stretched(ratio: real): Gains
      requires ratio != 0.0
    {
      Gains(p, i * ratio, d / ratio)
    }

    predicate NonNegative()
    {
      p >= 0.0 && i >= 0.0 && d >= 0.0
    }
  }

  /** The working gains for the gains a user entered, in units of seconds. */
  function Working(entered: Gains, reversed: bool, t: Millis): Gains
  {
    var g := Gains(entered.p, entered.i * Seconds(t), entered.d / Seconds(t));
    if reversed then g.Negated() else g
  }

  datatype Controller = Controller(
    gains: Gains, entered: Gains, direction: int, pOn: int, pOnE: bool,
    output: real, outputSum: real, lastInput: real, lastTime: int,
    sampleTime: Millis, outMin: real, outMax: real, inAuto: bool)
  {
    function Initialized(input: real): Controller
    {
      this.(outputSum := Clamp(output, outMin, outMax), lastInput := input)
    }

    function Tuned(entered: Gains, pOn: int): Controller
    {
      if entered.NonNegative()
      then this.(entered := entered, pOn := pOn, pOnE := pOn == ON_E,
                 gains := Working(entered, direction == REVERSE, sampleTime))
      else this
    }

    function Sampled(ms: int): Controller
    {
      if ms > 0 then this.(gains := gains.Stretched(ms as real / sampleTime as real), sampleTime := ms) else this
    }

    function Limited(min: real, max: real): Controller
    {
      if min >= max then this
      else if !inAuto then this.(outMin := min, outMax := max)
      else this.(outMin := min, outMax := max,
                 output := Clamp(output, min, max), outputSum := Clamp(outputSum, min, max))
    }

    function InMode(mode: int, input: real): Controller
    {
      var c := if mode == AUTOMATIC && !inAuto then Initialized(input) else this;
      c.(inAuto := mode == AUTOMATIC)
    }

    function Directed(d: int): Controller
    {
      this.(gains := if inAuto && d != direction then gains.Negated() else gains, direction := d)
    }

    /** A computation takes place: the mode is automatic and a sample period has passed. */
    predicate Due(now: int)
    {
      inAuto && (now - lastTime) % TIMES >= sampleTime
    }

    /** What a due computation adds to the integral term before clamping. */
    function Increment(error: real, dInput: real): real
    {
      gains.i * error - if pOnE then 0.0 else gains.p * dInput
    }

    function Combined(sum: real, error: real, dInput: real): real
    {
      (if pOnE then gains.p * error else 0.0) + (sum - gains.d * dInput)
    }

    function Computed(now: int, input: real, setPoint: real): Controller
    {
      if !Due(now) then this
      else
        var error, dInput := setPoint - input, input - lastInput;
        var sum := Clamp(outputSum + Increment(error, dInput), outMin, outMax);
        this.(outputSum := sum, lastInput := input, lastTime := now,
              output := Clamp(Combined(sum, error, dInput), outMin, outMax))
    }

    ghost predicate Bounded()
    {
      outMin <= outputSum <= outMax
    }
  }

  /** A variable the controller and its application share. */
  class Cell {
    var v: real

    constructor (v: real)
      ensures this.v == v
    {
      this.v := v;
    }
  }

  class Pid {
    const input: Cell
    const output: Cell
    const setPoint: Cell
    var kp: real
    var ki: real
    var kd: real
    var dispKp: real
    var dispKi: real
    var dispKd: real
    var direction: int
    var pOn: int
    var pOnE: bool
    var lastTime: int
    var outputSum: real
    var lastInput: real
    var sampleTime: Millis
    var outMin: real
    var outMax: real
    var inAuto: bool

    ghost function Abs(): Controller
      reads this, output
    {
      Controller(Gains(kp, ki, kd), Gains(dispKp, dispKi, dispKd), direction, pOn, pOnE,
                 output.v, outputSum, lastInput, lastTime, sampleTime, outMin, outMax, inAuto)
    }

    constructor (input: Cell, output: Cell, setPoint: Cell,
                 kp: real, ki: real, kd: real, pOn: int, direction: int, now: int)
      modifies output
      ensures output.v == old(output.v)
      ensures this.input == input && this.output == output && this.setPoint == setPoint
      ensures Gains(kp, ki, kd).NonNegative() ==>
                Abs() == Created(Gains(kp, ki, kd), pOn, direction, input.v, output.v, now)
    {
      this.input, this.output, this.setPoint := input, output, setPoint;
      inAuto := false;
      sampleTime := 100;
      new;
      SetOutputLimits(0.0, 4095.0);
      SetDirection(direction);
      SetTunings(kp, ki, kd, pOn);
      Initialize();
      lastTime := (now - sampleTime) % TIMES;
    }

    method Limit(x: real) returns (y: real)
      ensures y == Clamp(x, outMin, outMax)
    {
      y := x;
      if x > outMax {
        y := outMax;
      } else if x < outMin {
        y := outMin;
      }
    }

    method Compute(now: int) returns (ran: bool)
      modifies this, output
      ensures ran == old(Abs()).Due(now)
      ensures Abs() == old(Abs()).Computed(now, old(input.v), old(setPoint.v))
    {
      if !inAuto {
        return false;
      }
      var timeChange := (now - lastTime) % TIMES;
      if timeChange < sampleTime {
        return false;
      }
      ComputeDue(now);
      return true;
    }

    /** A computation that is due. */
    method ComputeDue(now: int)
      requires Abs().Due(now)
      modifies this, output
      ensures Abs() == old(Abs()).Computed(now, old(input.v), old(setPoint.v))
    {
      var measured := input.v;
      var error := setPoint.v - measured;
      var dInput := measured - lastInput;
      Integrate(error, dInput);
      var out := Combine(error, dInput);
      output.v := out;
      lastInput := measured;
      lastTime := now;
    }

    /** The part of Compute that updates the integral term. */
    method Integrate(error: real, dInput: real)
      modifies this`outputSum
      ensures outputSum == Clamp(old(outputSum) + old(Abs()).Increment(error, dInput), outMin, outMax)
    {
      ghost var c := Abs();
      outputSum := outputSum + ki * error;
      if !pOnE {
        outputSum := outputSum - kp * dInput;
      }
      assert outputSum == c.outputSum + c.Increment(error, dInput);
      outputSum := Limit(outputSum);
    }

    /** The part of Compute that forms the output. */
    method Combine(error: real, dInput: real) returns (out: real)
      ensures out == Clamp(Abs().Combined(outputSum, error, dInput), outMin, outMax)
    {
      if pOnE {
        out := kp * error;
      } else {
        out := 0.0;
      }
      out := out + (outputSum - kd * dInput);
      out := Limit(out);
    }

    method SetTunings(kp: real, ki: real, kd: real, pOn: int)
      modifies this
      ensures Abs() == old(Abs()).Tuned(Gains(kp, ki, kd), pOn)
    {
      if kp < 0.0 || ki < 0.0 || kd < 0.0 {
        return;
      }
      this.pOn := pOn;
      pOnE := pOn == ON_E;
      dispKp, dispKi, dispKd := kp, ki, kd;
      SetGains(kp, ki, kd);
    }

    method SetGains(kp: real, ki: real, kd: real)
      modifies this`kp, this`ki, this`kd
      ensures Gains(this.kp, this.ki, this.kd) == Working(Gains(kp, ki, kd), direction == REVERSE, sampleTime)
    {
      var sampleTimeInSec := sampleTime as real / 1000.0;
      this.kp := kp;
      this.ki := ki * sampleTimeInSec;
      this.kd := kd / sampleTimeInSec;
      if direction == REVERSE {
        this.kp := 0.0 - this.kp;
        this.ki := 0.0 - this.ki;
        this.kd := 0.0 - this.kd;
      }
    }

    method SetSampleTime(newSampleTime: int)
      modifies this
      ensures Abs() == old(Abs()).Sampled(newSampleTime)
    {
      if newSampleTime > 0 {
        var ratio := newSampleTime as real / sampleTime as real;
        ki := ki * ratio;
        kd := kd / ratio;
        sampleTime := newSampleTime;
      }
    }

    method SetOutputLimits(min: real, max: real)
      modifies this, output
      ensures Abs() == old(Abs()).Limited(min, max)
    {
      if min >= max {
        return;
      }
      outMin := min;
      outMax := max;
      if inAuto {
        output.v := Limit(output.v);
        outputSum := Limit(outputSum);
      }
    }

    method SetMode(mode: int)
      modifies this
      ensures Abs() == old(Abs()).InMode(mode, input.v)
    {
      var newAuto := mode == AUTOMATIC;
      if newAuto && !inAuto {
        Initialize();
      }
      inAuto := newAuto;
    }

    method Initialize()
      modifies this
      ensures Abs() == old(Abs()).Initialized(input.v)
    {
      outputSum := output.v;
      lastInput := input.v;
      outputSum := Limit(outputSum);
    }

    method SetDirection(direction: int)
      modifies this
      ensures Abs() == old(Abs()).Directed(direction)
    {
      if inAuto && direction != this.direction {
        kp := 0.0 - kp;
        ki := 0.0 - ki;
        kd := 0.0 - kd;
      }
      this.direction := direction;
    }
  }

  // ----- Runs ----------------------------------------------------------------------

  /** A freshly created controller: manual, 12-bit limits, a period of 100 ms, due at once. */
  function Created(entered: Gains, pOn: int, direction: int, input: real, output: real, now: int): Controller
  {
    Controller(Working(entered, direction == REVERSE, 100), entered, direction, pOn, pOn == ON_E,
               output, Clamp(output, 0.0, 4095.0), input, (now - 100) % TIMES, 100, 0.0, 4095.0, false)
  }

  /** One call, with the values it reads; Drive is the application writing the output itself. */
  datatype Call =
    | SetTunings(entered: Gains, pOn: int)
    | SetSampleTime(ms: int)
    | SetOutputLimits(min: real, max: real)
    | SetMode(mode: int, input: real)
    | SetDirection(direction: int)
    | Compute(now: int, input: real, setPoint: real)
    | Initialize(input: real)
    | Drive(output: real)

  function Next(c: Controller, call: Call): Controller
  {
    match call
    case SetTunings(entered, pOn) => c.Tuned(entered, pOn)
    case SetSampleTime(ms) => c.Sampled(ms)
    case SetOutputLimits(min, max) => c.Limited(min, max)
    case SetMode(mode, input) => c.InMode(mode, input)
    case SetDirection(d) => c.Directed(d)
    case Compute(now, input, setPoint) => c.Computed(now, input, setPoint)
    case Initialize(input) => c.Initialized(input)
    case Drive(output) => c.(output := output)
  }

  function After(c: Controller, calls: seq<Call>): Controller
    decreases |calls|
  {
    if calls == [] then c else Next(After(c, calls[..|calls|-1]), calls[|calls|-1])
  }

  // ----- Gains -----------------------------------------------------------------------

  predicate Retunes(call: Call)
  {
    call.SetTunings? && call.entered.NonNegative()
  }

  /** Whether the working gains are negated, from the calls alone: set by the direction at the
      last accepted tuning and flipped by every direction change in automatic mode. */
  predicate Reversed(c: Controller, calls: seq<Call>)
    decreases |calls|
  {
    if calls == [] then c.direction == REVERSE
    else
      var n := |calls| - 1;
      var before, call := After(c, calls[..n]), calls[n];
      if Retunes(call) then before.direction == REVERSE
      else Reversed(c, calls[..n]) != (call.SetDirection? && before.inAuto && call.direction != before.direction)
  }

  /** A direction change that the gains do not follow: to or from the reverse direction in
      manual mode, or between two codes of the direct direction in automatic mode. */
  predicate Slips(c: Controller, d: int)
  {
    (c.inAuto && d != c.direction) != ((d == REVERSE) != (c.direction == REVERSE))
  }

  /** Slips since the last accepted tuning. */
  function SlipsSinceTuning(c: Controller, calls: seq<Call>): nat
    decreases |calls|
  {
    if calls == [] then 0
    else
      var n := |calls| - 1;
      var before, call := After(c, calls[..n]), calls[n];
      if Retunes(call) then 0
      else SlipsSinceTuning(c, calls[..n]) + if call.SetDirection? && Slips(before, call.direction) then 1 else 0
  }

  lemma NegatedTwice(entered: Gains, reversed: bool, t: Millis)
    ensures Working(entered, reversed, t).Negated() == Working(entered, !reversed, t)
  {
  }

  /** Rescaling the working gains to a new period gives the working gains of that period. */
  lemma Rescaled(entered: Gains, reversed: bool, t: Millis, ms: Millis)
    ensures Working(entered, reversed, t).Stretched(ms as real / t as real) == Working(entered, reversed, ms)
  {
    var i, d, ratio := entered.i, entered.d, ms as real / t as real;
    assert Seconds(t) * ratio == Seconds(ms) by {
      assert ratio * t as real == ms as real;
    }
    Product(i, Seconds(t), ratio);
    Quotient(d, Seconds(t), ratio);
  }

  lemma Product(x: real, s: real, r: real)
    ensures x * s * r == x * (s * r) && (0.0 - x * s) * r == 0.0 - x * (s * r)
  {
  }

  lemma Quotient(x: real, s: real, r: real)
    requires s > 0.0 && r > 0.0 && s * r > 0.0
    ensures x / s / r == x / (s * r) && (0.0 - x / s) / r == 0.0 - x / (s * r)
  {
    var q := x / s / r;
    assert q * r == x / s;
    assert q * r * s == x;
    assert q * (s * r) == x;
  }

  /** Gains survive negation only if they are all zero. */
  lemma SignMatters(entered: Gains, t: Millis)
    ensures Working(entered, true, t) == Working(entered, false, t) <==> entered == Gains(0.0, 0.0, 0.0)
  {
    var s, w := Seconds(t), Working(entered, false, t);
    ZeroProduct(entered.i, s);
    ZeroQuotient(entered.d, s);
    assert w == Gains(entered.p, entered.i * s, entered.d / s);
    assert w == w.Negated() <==> w == Gains(0.0, 0.0, 0.0);
  }

  lemma ZeroProduct(x: real, s: real)
    requires s > 0.0
    ensures x * s == 0.0 <==> x == 0.0
  {
  }

  lemma ZeroQuotient(x: real, s: real)
    requires s > 0.0
    ensures x / s == 0.0 <==> x == 0.0
  {
    assert x == (x / s) * s;
  }

  /** The working gains are the entered ones, scaled to the sample time and possibly negated. */
  ghost predicate Acts(c: Controller, reversed: bool)
  {
    c.gains == Working(c.entered, reversed, c.sampleTime)
  }

  lemma CallKeepsActing(c: Controller, reversed: bool, call: Call)
    requires Acts(c, reversed)
    ensures Acts(Next(c, call),
                 if Retunes(call) then c.direction == REVERSE
                 else reversed != (call.SetDirection? && c.inAuto && call.direction != c.direction))
  {
    NegatedTwice(c.entered, reversed, c.sampleTime);
    if call.SetSampleTime? && call.ms > 0 {
      Rescaled(c.entered, reversed, c.sampleTime, call.ms);
    }
  }

  /** Over every sequence of calls, the working gains are the entered ones scaled to the current
      sample time, under one sign for all three. */
  lemma {:induction false} GainsFollowTunings(c: Controller, calls: seq<Call>)
    requires Acts(c, c.direction == REVERSE)
    ensures Acts(After(c, calls), Reversed(c, calls))
    decreases |calls|
  {
    if calls == [] {
    } else {
      var n := |calls| - 1;
      GainsFollowTunings(c, calls[..n]);
      CallKeepsActing(After(c, calls[..n]), Reversed(c, calls[..n]), calls[n]);
    }
  }

  /** That sign is the set direction's exactly if the direction slipped an even number of times
      since the last accepted tuning. */
  lemma {:induction false} SignFollowsSlips(c: Controller, calls: seq<Call>)
    ensures Reversed(c, calls) == (After(c, calls).direction == REVERSE) <==> SlipsSinceTuning(c, calls) % 2 == 0
    decreases |calls|
  {
    if calls == [] {
    } else {
      SignFollowsSlips(c, calls[..|calls|-1]);
    }
  }

  /** The gains act in the set direction exactly if the direction slipped an even number of
      times since the last accepted tuning, or there is nothing to negate. */
  lemma GainsMatchDirection(c: Controller, calls: seq<Call>)
    requires Acts(c, c.direction == REVERSE)
    ensures var a := After(c, calls);
      Acts(a, a.direction == REVERSE) <==>
      SlipsSinceTuning(c, calls) % 2 == 0 || a.entered == Gains(0.0, 0.0, 0.0)
  {
    var a := After(c, calls);
    GainsFollowTunings(c, calls);
    SignFollowsSlips(c, calls);
    SignMatters(a.entered, a.sampleTime);
  }

  /** A direct controller reversed while in manual mode still acts directly. */
  lemma ManualReverseIsLost(c: Controller, input: real)
    requires !c.inAuto && c.direction != REVERSE && c.entered.p > 0.0
    requires Acts(c, false)
    ensures var a := After(c, [SetDirection(REVERSE), SetMode(AUTOMATIC, input)]);
      a.inAuto && a.direction == REVERSE && a.gains.p > 0.0
  {
    var calls := [SetDirection(REVERSE), SetMode(AUTOMATIC, input)];
    assert calls[..1] == [SetDirection(REVERSE)] && calls[..1][..0] == [];
    assert After(c, calls[..1]) == c.Directed(REVERSE);
  }

  // ----- The integral term -----------------------------------------------------------

  /** In every reachable state the limits are in order, the integral term is within them in
      automatic mode, and so is every computed output. */
  lemma {:induction false} NeverWindsUp(c: Controller, calls: seq<Call>)
    requires c.outMin < c.outMax && (c.inAuto ==> c.Bounded())
    ensures var a := After(c, calls);
      && a.outMin < a.outMax && (a.inAuto ==> a.Bounded())
      && (calls != [] && calls[|calls|-1].Compute? && a != After(c, calls[..|calls|-1]) ==>
          a.outMin <= a.output <= a.outMax)
    decreases |calls|
  {
    if calls == [] {
    } else {
      NeverWindsUp(c, calls[..|calls|-1]);
      CallKeepsLimits(After(c, calls[..|calls|-1]), calls[|calls|-1]);
    }
  }

  lemma CallKeepsLimits(c: Controller, call: Call)
    requires c.outMin < c.outMax && (c.inAuto ==> c.Bounded())
    ensures var a := Next(c, call);
      && a.outMin < a.outMax && (a.inAuto ==> a.Bounded())
      && (call.Compute? && a != c ==> a.outMin <= a.output <= a.outMax)
  {
  }

  /** All calls are computations. */
  predicate Computing(calls: seq<Call>)
  {
    forall k :: 0 <= k < |calls| ==> calls[k].Compute?
  }

  /** What call k adds to the integral term before clamping. */
  function IncrementAt(c: Controller, calls: seq<Call>, k: nat): real
    requires k < |calls| && Computing(calls)
  {
    var b := After(c, calls[..k]);
    if b.Due(calls[k].now) then b.Increment(calls[k].setPoint - calls[k].input, calls[k].input - b.lastInput) else 0.0
  }

  function TotalIncrement(c: Controller, calls: seq<Call>): real
    requires Computing(calls)
    decreases |calls|
  {
    if calls == [] then 0.0
    else TotalIncrement(c, calls[..|calls|-1]) + IncrementAt(c, calls, |calls| - 1)
  }

  /** Computations change neither mode, limits, gains nor period. */
  lemma {:induction false} ComputingKeeps(c: Controller, calls: seq<Call>)
    requires Computing(calls)
    ensures var a := After(c, calls);
      a == c.(output := a.output, outputSum := a.outputSum, lastInput := a.lastInput, lastTime := a.lastTime)
    decreases |calls|
  {
    if calls == [] {
    } else {
      ComputingKeeps(c, calls[..|calls|-1]);
    }
  }

  predicate Pushes(x: real, up: bool)
  {
    if up then x >= 0.0 else x <= 0.0
  }

  /** While the increments all push the same way, clamping at every step is clamping once: the
      integral term is the clamped sum of everything added. */
  lemma {:induction false} ClampOnce(c: Controller, calls: seq<Call>, up: bool)
    requires c.outMin < c.outMax && c.inAuto && c.Bounded() && Computing(calls)
    requires forall k :: 0 <= k < |calls| ==> Pushes(IncrementAt(c, calls, k), up)
    ensures After(c, calls).outputSum == Clamp(c.outputSum + TotalIncrement(c, calls), c.outMin, c.outMax)
    ensures Pushes(TotalIncrement(c, calls), up)
    decreases |calls|
  {
    if calls == [] {
    } else {
      var n := |calls| - 1;
      forall k | 0 <= k < n ensures Pushes(IncrementAt(c, calls[..n], k), up) {
        PrefixIncrement(c, calls, n, k);
      }
      ClampOnce(c, calls[..n], up);
      ComputingKeeps(c, calls[..n]);
      OneComputation(After(c, calls[..n]), calls[n].now, calls[n].input, calls[n].setPoint);
      ClampTwice(c.outputSum, TotalIncrement(c, calls[..n]), IncrementAt(c, calls, n), c.outMin, c.outMax);
    }
  }

  lemma OneComputation(b: Controller, now: int, input: real, setPoint: real)
    requires b.outMin <= b.outputSum <= b.outMax
    ensures b.Computed(now, input, setPoint).outputSum ==
            Clamp(b.outputSum + if b.Due(now) then b.Increment(setPoint - input, input - b.lastInput) else 0.0,
                  b.outMin, b.outMax)
  {
  }

  lemma ClampTwice(s: real, x: real, y: real, lo: real, hi: real)
    requires lo <= s <= hi && (exists up :: Pushes(x, up) && Pushes(y, up))
    ensures Clamp(Clamp(s + x, lo, hi) + y, lo, hi) == Clamp(s + (x + y), lo, hi)
  {
  }

  /** The computations of the calls that were due. */
  function DueCount(c: Controller, calls: seq<Call>): nat
    requires Computing(calls)
    decreases |calls|
  {
    if calls == [] then 0
    else
      var n := |calls| - 1;
      DueCount(c, calls[..n]) + if After(c, calls[..n]).Due(calls[n].now) then 1 else 0
  }

  /** With the proportional term on the error and a constant error e, n due computations leave
      the integral term at its start plus n times ki times e, clamped once. */
  lemma ConstantError(c: Controller, calls: seq<Call>, e: real, n: nat, step: real)
    requires c.outMin < c.outMax && c.inAuto && c.Bounded() && c.pOnE && Computing(calls)
    requires forall k :: 0 <= k < |calls| ==> calls[k].setPoint - calls[k].input == e
    requires n == DueCount(c, calls) && step == c.gains.i * e
    ensures After(c, calls).outputSum == Clamp(c.outputSum + n as real * step, c.outMin, c.outMax)
  {
    ConstantErrorRepeats(c, calls, e, step);
    RepeatedIsProduct(n, step);
  }

  lemma ConstantErrorRepeats(c: Controller, calls: seq<Call>, e: real, x: real)
    requires c.outMin < c.outMax && c.inAuto && c.Bounded() && c.pOnE && Computing(calls) && x == c.gains.i * e
    requires forall k :: 0 <= k < |calls| ==> calls[k].setPoint - calls[k].input == e
    ensures After(c, calls).outputSum ==
            Clamp(c.outputSum + Repeated(DueCount(c, calls), x), c.outMin, c.outMax)
  {
    forall k | 0 <= k < |calls| ensures AddsStep(c, calls, k, x) && Pushes(IncrementAt(c, calls, k), x >= 0.0) {
      ComputingKeeps(c, calls[..k]);
    }
    ClampOnce(c, calls, x >= 0.0);
    SameIncrements(c, calls, x);
  }

  /** Call k adds x if it is due. */
  predicate AddsStep(c: Controller, calls: seq<Call>, k: nat, x: real)
    requires k < |calls| && Computing(calls)
  {
    IncrementAt(c, calls, k) == if After(c, calls[..k]).Due(calls[k].now) then x else 0.0
  }

  lemma PrefixIncrement(c: Controller, calls: seq<Call>, n: nat, k: nat)
    requires k < n <= |calls| && Computing(calls)
    ensures IncrementAt(c, calls[..n], k) == IncrementAt(c, calls, k)
    ensures forall x :: AddsStep(c, calls[..n], k, x) == AddsStep(c, calls, k, x)
  {
    assert calls[..n][..k] == calls[..k];
  }

  function Repeated(n: nat, x: real): real
  {
    if n == 0 then 0.0 else Repeated(n - 1, x) + x
  }

  lemma {:induction false} RepeatedIsProduct(n: nat, x: real)
    ensures Repeated(n, x) == n as real * x
  {
    if n == 0 {
    } else {
      RepeatedIsProduct(n - 1, x);
      assert n as real == (n - 1) as real + 1.0;
    }
  }

  lemma {:induction false} SameIncrements(c: Controller, calls: seq<Call>, x: real)
    requires Computing(calls)
    requires forall k :: 0 <= k < |calls| ==> AddsStep(c, calls, k, x)
    ensures TotalIncrement(c, calls) == Repeated(DueCount(c, calls), x)
    decreases |calls|
  {
    if calls == [] {
    } else {
      var n := |calls| - 1;
      forall k | 0 <= k < n ensures AddsStep(c, calls[..n], k, x) {
        PrefixIncrement(c, calls, n, k);
      }
      SameIncrements(c, calls[..n], x);
      assert AddsStep(c, calls, n, x);
    }
  }

  /** Bumpless transfer: switching a manual controller to automatic and computing with no error
      and no change of the measurement leaves an output that was within the limits as it was. */
  lemma BumplessTransfer(c: Controller, input: real, now: int)
    requires !c.inAuto && c.outMin <= c.output <= c.outMax
    ensures After(c, [SetMode(AUTOMATIC, input), Compute(now, input, input)]).output == c.output
  {
    var calls := [SetMode(AUTOMATIC, input), Compute(now, input, input)];
    assert calls[..1] == [SetMode(AUTOMATIC, input)] && calls[..1][..0] == [];
    var a := After(c, calls[..1]);
    assert a == Next(After(c, []), calls[0]);
    assert a == c.InMode(AUTOMATIC, input);
    assert a.gains.i * 0.0 == 0.0 && a.gains.p * 0.0 == 0.0 && a.gains.d * 0.0 == 0.0;
  }

  // ----- Runs of a controller object -----------------------------------------------------

  /** One call, or the application writing the output; the cells get the values the call reads. */
  method Apply(pid: Pid, call: Call)
    requires pid.input != pid.output && pid.setPoint != pid.output && pid.input != pid.setPoint
    modifies pid, pid.input, pid.output, pid.setPoint
    ensures pid.Abs() == Next(old(pid.Abs()), call)
  {
    match call {
      case SetTunings(entered, pOn) => pid.SetTunings(entered.p, entered.i, entered.d, pOn);
      case SetSampleTime(ms) => pid.SetSampleTime(ms);
      case SetOutputLimits(min, max) => pid.SetOutputLimits(min, max);
      case SetMode(mode, input) =>
        pid.input.v := input;
        pid.SetMode(mode);
      case SetDirection(d) => pid.SetDirection(d);
      case Compute(now, input, setPoint) =>
        pid.input.v, pid.setPoint.v := input, setPoint;
        var _ := pid.Compute(now);
      case Initialize(input) =>
        pid.input.v := input;
        pid.Initialize();
      case Drive(output) => pid.output.v := output;
    }
  }

  /** A controller is created with valid gains and takes any sequence of calls: its gains are the
      entered ones under one sign, which is that of the direction exactly if it slipped an even
      number of times since the last accepted tuning (or there is nothing to negate), and it
      never winds up. */
  method Run(entered: Gains, pOn: int, direction: int, input: real, output: real, now: int, calls: seq<Call>)
    returns (pid: Pid)
    requires entered.NonNegative()
    ensures var c, a := Created(entered, pOn, direction, input, output, now), pid.Abs();
      && a == After(c, calls) && Acts(a, Reversed(c, calls))
      && (Acts(a, a.direction == REVERSE) <==>
          SlipsSinceTuning(c, calls) % 2 == 0 || a.entered == Gains(0.0, 0.0, 0.0))
      && a.outMin < a.outMax && (a.inAuto ==> a.Bounded())
  {
    var inCell := new Cell(input);
    var outCell := new Cell(output);
    var setCell := new Cell(0.0);
    pid := new Pid(inCell, outCell, setCell, entered.p, entered.i, entered.d, pOn, direction, now);
    ghost var c := pid.Abs();
    for n := 0 to |calls|
      invariant pid.input == inCell && pid.output == outCell && pid.setPoint == setCell
      invariant fresh(pid) && pid.Abs() == After(c, calls[..n])
    {
      Apply(pid, calls[n]);
      assert calls[..n+1][..n] == calls[..n];
    }
    assert calls[..|calls|] == calls;
    GainsFollowTunings(c, calls);
    GainsMatchDirection(c, calls);
    NeverWindsUp(c, calls);
  }
}

/** What the terms of the PID controller do. */
module PidLaws {
  import opened Pid

  // ----- The PID equation ----------------------------------------------------------------

  /** The errors of the computations that were due, summed. */
  function ErrorSum(c: Controller, calls: seq<Call>): real
    requires Computing(calls)
    decreases |calls|
  {
    if calls == [] then 0.0
    else
      var n := |calls| - 1;
      ErrorSum(c, calls[..n]) +
      if After(c, calls[..n]).Due(calls[n].now) then calls[n].setPoint - calls[n].input else 0.0
  }

  /** The measurement of the latest computation that was due, or what was remembered before. */
  function Measured(c: Controller, calls: seq<Call>): real
    requires Computing(calls)
    decreases |calls|
  {
    if calls == [] then c.lastInput
    else
      var n := |calls| - 1;
      if After(c, calls[..n]).Due(calls[n].now) then calls[n].input else Measured(c, calls[..n])
  }

  lemma {:induction false} RemembersMeasured(c: Controller, calls: seq<Call>)
    requires Computing(calls)
    ensures After(c, calls).lastInput == Measured(c, calls)
    decreases |calls|
  {
    if calls != [] {
      RemembersMeasured(c, calls[..|calls|-1]);
    }
  }

  /** total is ki times errors and, if the proportional term is on the measurement, minus kp
      times the change of the measurement to y. */
  ghost predicate Telescoped(c: Controller, total: real, errors: real, y: real)
  {
    total == c.gains.i * errors - if c.pOnE then 0.0 else c.gains.p * (y - c.lastInput)
  }

  /** All that is added to the integral term depends on the summed errors and the first and last
      measurements only. */
  lemma {:induction false} IncrementsTelescope(c: Controller, calls: seq<Call>)
    requires Computing(calls)
    ensures Telescoped(c, TotalIncrement(c, calls), ErrorSum(c, calls), Measured(c, calls))
    decreases |calls|
  {
    if calls == [] {
      NothingAdded(c);
    } else {
      var n := |calls| - 1;
      IncrementsTelescope(c, calls[..n]);
      ComputingKeeps(c, calls[..n]);
      RemembersMeasured(c, calls[..n]);
      TelescopeCall(c, After(c, calls[..n]), calls[n], IncrementAt(c, calls, n),
                    TotalIncrement(c, calls[..n]), ErrorSum(c, calls[..n]), Measured(c, calls[..n]));
    }
  }

  lemma NothingAdded(c: Controller)
    ensures Telescoped(c, 0.0, 0.0, c.lastInput)
  {
    assert c.gains.i * 0.0 == 0.0 && c.gains.p * 0.0 == 0.0;
  }

  lemma TelescopeCall(c: Controller, b: Controller, call: Call, inc: real, total: real, errors: real, y: real)
    requires call.Compute? && Telescoped(c, total, errors, y)
    requires b.gains == c.gains && b.pOnE == c.pOnE && b.lastInput == y
    requires inc == if b.Due(call.now) then b.Increment(call.setPoint - call.input, call.input - y) else 0.0
    ensures var due := b.Due(call.now);
      Telescoped(c, total + inc, errors + if due then call.setPoint - call.input else 0.0,
                 if due then call.input else y)
  {
    if b.Due(call.now) {
      Distributes(c.gains.i, errors, call.setPoint - call.input);
      Distributes(c.gains.p, y - c.lastInput, call.input - y);
    }
  }

  lemma Distributes(k: real, x: real, y: real)
    ensures k * (x + y) == k * x + k * y
  {
  }

  /** The integral term meets no limit in any of the computations. */
  ghost predicate Unlimited(c: Controller, calls: seq<Call>)
    requires Computing(calls)
  {
    forall k :: 0 <= k <= |calls| ==> c.outMin <= c.outputSum + TotalIncrement(c, calls[..k]) <= c.outMax
  }

  lemma {:induction false} UnlimitedSum(c: Controller, calls: seq<Call>)
    requires Computing(calls) && Unlimited(c, calls)
    ensures After(c, calls).outputSum == c.outputSum + TotalIncrement(c, calls)
    decreases |calls|
  {
    assert calls[..|calls|] == calls;
    if calls != [] {
      var n := |calls| - 1;
      forall k | 0 <= k <= n
        ensures c.outMin <= c.outputSum + TotalIncrement(c, calls[..n][..k]) <= c.outMax
      {
        assert calls[..n][..k] == calls[..k];
      }
      UnlimitedSum(c, calls[..n]);
      ComputingKeeps(c, calls[..n]);
      OneComputation(After(c, calls[..n]), calls[n].now, calls[n].input, calls[n].setPoint);
    }
  }

  /** The sum that the controller forms, in the gains and seconds of its user: the proportional
      part is on the error, or on the change of the measurement since the start; s is the period
      in seconds. */
  function Equation(entered: Gains, onError: bool, s: real, error: real, errors: real, change: real, step: real): real
    requires s > 0.0
  {
    entered.p * (if onError then error else 0.0 - change) + entered.i * (errors * s) - entered.d * (step / s)
  }

  /** The output is the start value of the integral term plus (or, reversed, minus) the sum of
      the three terms, clamped. */
  ghost predicate ObeysEquation(c: Controller, output: real, reversed: bool,
                                error: real, errors: real, change: real, step: real)
  {
    var sum := Equation(c.entered, c.pOnE, c.sampleTime as real / 1000.0, error, errors, change, step);
    output == Clamp(if reversed then c.outputSum - sum else c.outputSum + sum, c.outMin, c.outMax)
  }

  /** The PID equation holds after any computations that do not drive the integral term into a
      limit: error is the last error, errors the sum of all, change that of the measurement since
      the start and step that since the computation before. */
  lemma PidEquation(c: Controller, calls: seq<Call>, reversed: bool,
                    output: real, error: real, errors: real, change: real, step: real)
    requires Acts(c, reversed) && Computing(calls) && calls != [] && Unlimited(c, calls)
    requires After(c, calls[..|calls|-1]).Due(calls[|calls|-1].now)
    requires output == After(c, calls).output && errors == ErrorSum(c, calls)
    requires var last := calls[|calls|-1];
      && error == last.setPoint - last.input && change == last.input - c.lastInput
      && step == last.input - Measured(c, calls[..|calls|-1])
    ensures ObeysEquation(c, output, reversed, error, errors, change, step)
  {
    var n, total := |calls| - 1, TotalIncrement(c, calls);
    IncrementsTelescope(c, calls);
    UnlimitedSum(c, calls);
    ComputingKeeps(c, calls[..n]);
    RemembersMeasured(c, calls[..n]);
    var b, a := After(c, calls[..n]), After(c, calls);
    assert a == Next(b, calls[n]) && Measured(c, calls) == calls[n].input == c.lastInput + change;
    LastOutput(c, b, a, calls[n], reversed, total, error, errors, change, step);
  }

  lemma LastOutput(c: Controller, b: Controller, a: Controller, last: Call, reversed: bool, total: real,
                   error: real, errors: real, change: real, step: real)
    requires Acts(c, reversed) && last.Compute? && b.Due(last.now) && a == Next(b, last)
    requires b == c.(output := b.output, outputSum := b.outputSum, lastInput := b.lastInput, lastTime := b.lastTime)
    requires error == last.setPoint - last.input && step == last.input - b.lastInput
    requires Telescoped(c, total, errors, c.lastInput + change) && a.outputSum == c.outputSum + total
    ensures ObeysEquation(c, a.output, reversed, error, errors, change, step)
  {
    var pe, dd := if c.pOnE then c.gains.p * error else 0.0, c.gains.d * step;
    OutputParts(b, a, last, error, step, pe, dd);
    InUserUnits(c, reversed, error, errors, change, step, total, pe, dd);
    SumObeys(c, a.output, reversed, error, errors, change, step, pe + total - dd);
  }

  lemma OutputParts(b: Controller, a: Controller, last: Call, error: real, step: real, pe: real, dd: real)
    requires last.Compute? && b.Due(last.now) && a == Next(b, last)
    requires error == last.setPoint - last.input && step == last.input - b.lastInput
    requires pe == (if b.pOnE then b.gains.p * error else 0.0) && dd == b.gains.d * step
    ensures a.output == Clamp(pe + (a.outputSum - dd), b.outMin, b.outMax)
  {
    ComputedOutput(b, last.now, last.input, last.setPoint, error, step);
    assert b.Combined(a.outputSum, error, step) == pe + (a.outputSum - dd);
  }

  lemma ComputedOutput(b: Controller, now: int, input: real, setPoint: real, error: real, step: real)
    requires b.Due(now) && error == setPoint - input && step == input - b.lastInput
    ensures var a := b.Computed(now, input, setPoint);
      && a.outputSum == Clamp(b.outputSum + b.Increment(error, step), b.outMin, b.outMax)
      && a.output == Clamp(b.Combined(a.outputSum, error, step), b.outMin, b.outMax)
  {
  }

  lemma SumObeys(c: Controller, output: real, reversed: bool, error: real, errors: real, change: real, step: real,
                 x: real)
    requires var sum := Equation(c.entered, c.pOnE, c.sampleTime as real / 1000.0, error, errors, change, step);
      x == if reversed then 0.0 - sum else sum
    requires output == Clamp(c.outputSum + x, c.outMin, c.outMax)
    ensures ObeysEquation(c, output, reversed, error, errors, change, step)
  {
  }

  /** The three parts that a computation adds to the start value of the integral term. */
  lemma InUserUnits(c: Controller, reversed: bool, error: real, errors: real, change: real, step: real,
                    total: real, pe: real, dd: real)
    requires Acts(c, reversed) && Telescoped(c, total, errors, c.lastInput + change)
    requires pe == (if c.pOnE then c.gains.p * error else 0.0) && dd == c.gains.d * step
    ensures var sum := Equation(c.entered, c.pOnE, c.sampleTime as real / 1000.0, error, errors, change, step);
      pe + total - dd == if reversed then 0.0 - sum else sum
  {
    var s := c.sampleTime as real / 1000.0;
    Regroup(c.entered.i, s, errors);
    RegroupQuotient(c.entered.d, s, step);
    Signs(c.entered.p, error);
    Signs(c.entered.p, change);
  }

  lemma Regroup(x: real, s: real, y: real)
    ensures x * s * y == x * (y * s) && (0.0 - x * s) * y == 0.0 - x * (y * s)
  {
  }

  lemma RegroupQuotient(x: real, s: real, y: real)
    requires s > 0.0
    ensures x / s * y == x * (y / s) && (0.0 - x / s) * y == 0.0 - x * (y / s)
  {
    var q, r := x / s, y / s;
    assert q * s == x && r * s == y;
    assert q * y == q * (r * s) == (q * s) * r;
  }

  lemma Signs(k: real, x: real)
    ensures (0.0 - k) * x == 0.0 - k * x && k * (0.0 - x) == 0.0 - k * x
  {
  }

  // ----- One computation -----------------------------------------------------------------

  /** At zero error the controller works against a change of the measurement: a rising one leaves
      the output no higher than the integral term was and a falling one no lower, and with the
      proportional term on the error the difference is kd times the change, up to the limits. */
  lemma OpposesChange(c: Controller, now: int, input: real, change: real)
    requires c.Due(now) && c.Bounded() && c.gains.NonNegative() && change == input - c.lastInput
    ensures var out := c.Computed(now, input, input).output;
      && (change >= 0.0 ==> out <= c.outputSum)
      && (change <= 0.0 ==> out >= c.outputSum)
      && (c.pOnE ==> out == Clamp(c.outputSum - c.gains.d * change, c.outMin, c.outMax))
  {
    SameSign(c.gains.d, change);
    SameSign(c.gains.p, change);
    ZeroError(c, now, input, change, c.gains.p * change, c.gains.d * change);
    BelowSum(c.pOnE, c.outputSum, c.gains.p * change, c.gains.d * change, c.outMin, c.outMax);
  }

  lemma ZeroError(c: Controller, now: int, input: real, change: real, pd: real, dd: real)
    requires c.Due(now) && change == input - c.lastInput && pd == c.gains.p * change && dd == c.gains.d * change
    ensures c.Computed(now, input, input).output
         == Formed(c.pOnE, c.outputSum, 0.0, 0.0, pd, dd, c.outMin, c.outMax)
  {
    assert c.gains.i * 0.0 == 0.0 && c.gains.p * 0.0 == 0.0;
    OutputForm(c, now, input, input, 0.0, change, 0.0, 0.0, pd, dd);
  }

  /** The output formed from the products of gains and signals. */
  function Formed(onError: bool, sum: real, ie: real, pe: real, pd: real, dd: real, lo: real, hi: real): real
  {
    Clamp((if onError then pe else 0.0) + (Clamp(sum + (ie - if onError then 0.0 else pd), lo, hi) - dd), lo, hi)
  }

  lemma OutputForm(c: Controller, now: int, input: real, setPoint: real, error: real, step: real,
                   ie: real, pe: real, pd: real, dd: real)
    requires c.Due(now) && error == setPoint - input && step == input - c.lastInput
    requires ie == c.gains.i * error && pe == c.gains.p * error && pd == c.gains.p * step && dd == c.gains.d * step
    ensures c.Computed(now, input, setPoint).output
         == Formed(c.pOnE, c.outputSum, ie, pe, pd, dd, c.outMin, c.outMax)
  {
    var a := c.Computed(now, input, setPoint);
    ComputedOutput(c, now, input, setPoint, error, step);
    assert c.Increment(error, step) == ie - if c.pOnE then 0.0 else pd;
    assert c.Combined(a.outputSum, error, step) == (if c.pOnE then pe else 0.0) + (a.outputSum - dd);
  }

  lemma BelowSum(onError: bool, sum: real, pd: real, dd: real, lo: real, hi: real)
    requires lo <= sum <= hi
    ensures pd >= 0.0 && dd >= 0.0 ==> Formed(onError, sum, 0.0, 0.0, pd, dd, lo, hi) <= sum
    ensures pd <= 0.0 && dd <= 0.0 ==> Formed(onError, sum, 0.0, 0.0, pd, dd, lo, hi) >= sum
    ensures onError ==> Formed(onError, sum, 0.0, 0.0, pd, dd, lo, hi) == Clamp(sum - dd, lo, hi)
  {
  }

  lemma SameSign(k: real, x: real)
    requires k >= 0.0
    ensures (x >= 0.0 ==> k * x >= 0.0) && (x <= 0.0 ==> k * x <= 0.0)
  {
  }

  /** A higher set point never lowers the output of a direct controller, nor raises that of a
      reversed one. */
  lemma FollowsSetPoint(c: Controller, now: int, input: real, low: real, high: real)
    requires c.Due(now) && c.outMin < c.outMax && low <= high
    ensures c.gains.NonNegative() ==>
      c.Computed(now, input, low).output <= c.Computed(now, input, high).output
    ensures c.gains.Negated().NonNegative() ==>
      c.Computed(now, input, low).output >= c.Computed(now, input, high).output
  {
    OutputsOrdered(c, now, input, low, high, low - input, high - input);
  }

  lemma OutputsOrdered(c: Controller, now: int, input: real, low: real, high: real, x: real, y: real)
    requires c.Due(now) && c.outMin < c.outMax && x <= y && x == low - input && y == high - input
    ensures c.gains.NonNegative() ==>
      c.Computed(now, input, low).output <= c.Computed(now, input, high).output
    ensures c.gains.Negated().NonNegative() ==>
      c.Computed(now, input, low).output >= c.Computed(now, input, high).output
  {
    var step := input - c.lastInput;
    var ie, ie', pe, pe', pd, dd := c.gains.i * x, c.gains.i * y, c.gains.p * x, c.gains.p * y,
                                    c.gains.p * step, c.gains.d * step;
    OrderedProducts(c.gains, x, y, ie, ie', pe, pe');
    OutputForm(c, now, input, low, x, step, ie, pe, pd, dd);
    OutputForm(c, now, input, high, y, step, ie', pe', pd, dd);
    FormsOrdered(c, c.Computed(now, input, low).output, c.Computed(now, input, high).output,
                 ie, ie', pe, pe', pd, dd);
  }

  lemma FormsOrdered(c: Controller, out: real, out': real, ie: real, ie': real, pe: real, pe': real, pd: real, dd: real)
    requires c.outMin < c.outMax
    requires out == Formed(c.pOnE, c.outputSum, ie, pe, pd, dd, c.outMin, c.outMax)
    requires out' == Formed(c.pOnE, c.outputSum, ie', pe', pd, dd, c.outMin, c.outMax)
    requires c.gains.NonNegative() ==> ie <= ie' && pe <= pe'
    requires c.gains.Negated().NonNegative() ==> ie >= ie' && pe >= pe'
    ensures c.gains.NonNegative() ==> out <= out'
    ensures c.gains.Negated().NonNegative() ==> out >= out'
  {
    FormedMonotonic(c.pOnE, c.outputSum, ie, ie', pe, pe', pd, dd, c.outMin, c.outMax);
  }

  lemma OrderedProducts(g: Gains, x: real, y: real, ix: real, iy: real, px: real, py: real)
    requires x <= y && ix == g.i * x && iy == g.i * y && px == g.p * x && py == g.p * y
    ensures g.NonNegative() ==> ix <= iy && px <= py
    ensures g.Negated().NonNegative() ==> ix >= iy && px >= py
  {
    Ordered(g.i, x, y, ix, iy);
    Ordered(g.p, x, y, px, py);
  }

  lemma FormedMonotonic(onError: bool, sum: real, ie: real, ie': real, pe: real, pe': real, pd: real, dd: real,
                        lo: real, hi: real)
    requires lo < hi
    ensures ie <= ie' && pe <= pe' ==>
      Formed(onError, sum, ie, pe, pd, dd, lo, hi) <= Formed(onError, sum, ie', pe', pd, dd, lo, hi)
    ensures ie >= ie' && pe >= pe' ==>
      Formed(onError, sum, ie, pe, pd, dd, lo, hi) >= Formed(onError, sum, ie', pe', pd, dd, lo, hi)
  {
  }

  lemma Ordered(k: real, x: real, y: real, kx: real, ky: real)
    requires x <= y && kx == k * x && ky == k * y
    ensures (k >= 0.0 ==> kx <= ky) && (k <= 0.0 ==> kx >= ky)
  {
    SameSign(if k >= 0.0 then k else 0.0 - k, y - x);
    assert k * (y - x) == ky - kx;
  }

  /** After a computation the next is due once a sample period has passed, and not before, up to
      the wrap of the millisecond clock. */
  lemma NextDue(c: Controller, now: int, input: real, setPoint: real, ms: nat)
    requires c.Due(now) && ms < 0x1_0000_0000
    ensures c.Computed(now, input, setPoint).Due((now + ms) % 0x1_0000_0000) <==> ms >= c.sampleTime
  {
    WrapDifference(now, ms);
  }

  lemma WrapDifference(now: int, ms: nat)
    requires ms < 0x1_0000_0000
    ensures ((now + ms) % 0x1_0000_0000 - now) % 0x1_0000_0000 == ms
  {
  }

  // ----- The settings --------------------------------------------------------------------

  /** A created controller has the period, the limits and the direct or negated gains of the
      entered ones at 100 ms, and is due as soon as it is switched on. */
  lemma CreatedSettings(entered: Gains, pOn: int, direction: int, input: real, output: real, now: int)
    ensures var c := Created(entered, pOn, direction, input, output, now);
      && c.sampleTime == 100 && c.outMin == 0.0 && c.outMax == 4095.0 && !c.inAuto
      && Acts(c, direction == 1) && (c.pOnE <==> pOn == 1)
      && c.gains.i == (if direction == 1 then 0.0 - entered.i / 10.0 else entered.i / 10.0)
      && c.InMode(1, input).Due(now) && !c.Due(now)
  {
    assert (now - (now - 100) % 0x1_0000_0000) % 0x1_0000_0000 == 100;
  }

  /** The settings are those of the latest call that sets them: tunings with a negative gain and
      periods that are not positive are ignored. */
  lemma {:induction false} LatestSettings(c: Controller, calls: seq<Call>)
    requires c.pOnE <==> c.pOn == 1
    ensures var a := After(c, calls);
      && (a.entered, a.pOn) == LastTuning((c.entered, c.pOn), calls) && (a.pOnE <==> a.pOn == 1)
      && a.sampleTime == LastPeriod(c.sampleTime, calls) && a.direction == LastDirection(c.direction, calls)
    decreases |calls|
  {
    if calls != [] {
      var n := |calls| - 1;
      LatestSettings(c, calls[..n]);
      CallSets(After(c, calls[..n]), calls[n]);
    }
  }

  lemma CallSets(b: Controller, call: Call)
    requires b.pOnE <==> b.pOn == 1
    ensures var a := Next(b, call);
      && (a.pOnE <==> a.pOn == 1)
      && (a.entered, a.pOn) ==
         (if call.SetTunings? && call.entered.p >= 0.0 && call.entered.i >= 0.0 && call.entered.d >= 0.0
          then (call.entered, call.pOn) else (b.entered, b.pOn))
      && a.sampleTime == (if call.SetSampleTime? && call.ms > 0 then call.ms else b.sampleTime)
      && a.direction == (if call.SetDirection? then call.direction else b.direction)
  {
  }

  function LastTuning(t: (Gains, int), calls: seq<Call>): (Gains, int)
    decreases |calls|
  {
    if calls == [] then t
    else
      var call := calls[|calls|-1];
      if call.SetTunings? && call.entered.p >= 0.0 && call.entered.i >= 0.0 && call.entered.d >= 0.0
      then (call.entered, call.pOn)
      else LastTuning(t, calls[..|calls|-1])
  }

  function LastPeriod(ms: int, calls: seq<Call>): int
    decreases |calls|
  {
    if calls == [] then ms
    else
      var call := calls[|calls|-1];
      if call.SetSampleTime? && call.ms > 0 then call.ms else LastPeriod(ms, calls[..|calls|-1])
  }

  function LastDirection(d: int, calls: seq<Call>): int
    decreases |calls|
  {
    if calls == [] then d
    else if calls[|calls|-1].SetDirection? then calls[|calls|-1].direction
    else LastDirection(d, calls[..|calls|-1])
  }

  /** New limits bind the output at once in automatic mode, and change it only if it lies beyond
      them; limits that are not in order are ignored. */
  lemma LimitsTakeEffect(c: Controller, min: real, max: real)
    ensures min >= max ==> Next(c, SetOutputLimits(min, max)) == c
    ensures min < max ==>
      var a := Next(c, SetOutputLimits(min, max));
      && a.outMin == min && a.outMax == max
      && (c.inAuto ==> min <= a.output <= max && min <= a.outputSum <= max)
      && (min <= c.output <= max || !c.inAuto ==> a.output == c.output)
      && (min <= c.outputSum <= max || !c.inAuto ==> a.outputSum == c.outputSum)
  {
  }

  /** In manual mode the controller leaves the output to its application. */
  lemma {:induction false} ManualLeavesOutput(c: Controller, calls: seq<Call>)
    requires !c.inAuto && forall k :: 0 <= k < |calls| && calls[k].SetMode? ==> calls[k].mode != 1
    ensures !After(c, calls).inAuto && After(c, calls).output == LastDriven(c.output, calls)
    decreases |calls|
  {
    if calls != [] {
      ManualLeavesOutput(c, calls[..|calls|-1]);
    }
  }

  function LastDriven(output: real, calls: seq<Call>): real
    decreases |calls|
  {
    if calls == [] then output
    else if calls[|calls|-1].Drive? then calls[|calls|-1].output
    else LastDriven(output, calls[..|calls|-1])
  }
}

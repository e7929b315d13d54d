/** A whole memory test: the selected tests in order, each at every selected width. */
module MemtestRun {
  import opened Gf2
  import opened Patterns
  import opened Memtest
  import opened Prelude

  const MEMTEST_WALKING_ONE := 1
  const MEMTEST_WALKING_ZERO := 2
  const MEMTEST_OWN_ADDRESS := 4
  const MEMTEST_MOVING_INVERSION_ZERO := 8
  const MEMTEST_MOVING_INVERSION_55AA := 16
  const MEMTEST_MOVING_INVERSION_RAND := 32

  const MEMTEST_WIDTH_8 := 1
  const MEMTEST_WIDTH_16 := 2
  const MEMTEST_WIDTH_32 := 4
  const MEMTEST_WIDTH_64 := 8

  /** mask & flag, for a flag that is a power of two. */
  predicate Selected(mask: nat, flag: nat)
    requires flag > 0
  {
    mask / flag % 2 == 1
  }

  function Chosen(mask: nat, flag: nat, x: nat): (c: seq<nat>)
    requires flag > 0
    ensures forall y :: y in c <==> y == x && Selected(mask, flag)
  {
    if Selected(mask, flag) then [x] else []
  }

  // ----- What a run consists of --------------------------------------------------

  /** One pass at one width. */
  datatype Step = Step(width: nat, pass: Pass)

  /** The static seed of the random test after one more random pass. */
  function NextSeed(test: nat, prng: nat): nat
  {
    if test == MEMTEST_MOVING_INVERSION_RAND then prng + 1 else prng
  }

  /** The passes of one test at one width; prng is the static seed when the passes run. */
  function DriverPlan(test: nat, w: nat, prng: nat): (p: seq<Step>)
    requires w > 0
    ensures forall k :: 0 <= k < |p| ==> p[k].width == w && |p[k].pass.seed| == w
  {
    if test == MEMTEST_WALKING_ONE then [Step(w, Pass(WalkingOne, Bit(w, 0)))]
    else if test == MEMTEST_WALKING_ZERO then [Step(w, Pass(WalkingZero, Bit(w, 0)))]
    else if test == MEMTEST_OWN_ADDRESS then [Step(w, Pass(OwnAddress, Zeros(w)))]
    else if test == MEMTEST_MOVING_INVERSION_ZERO then
      [Step(w, Pass(MovingInv, Zeros(w))), Step(w, Pass(MovingInv, Not(Zeros(w))))]
    else if test == MEMTEST_MOVING_INVERSION_55AA then
      [Step(w, Pass(MovingInv, Alternating(w))), Step(w, Pass(MovingInv, Not(Alternating(w))))]
    else [Step(w, Pass(MovingInvRand, WordOf(prng, w)))]
  }

  /** The selected widths, in the order they are tested. */
  function Widths(widthMask: nat): (ws: seq<nat>)
    ensures forall k :: 0 <= k < |ws| ==> ws[k] in {8, 16, 32, 64}
  {
    Chosen(widthMask, MEMTEST_WIDTH_8, 8) +
    Chosen(widthMask, MEMTEST_WIDTH_16, 16) +
    Chosen(widthMask, MEMTEST_WIDTH_32, 32) +
    Chosen(widthMask, MEMTEST_WIDTH_64, 64)
  }

  /** One test at the given widths, and the static seed it leaves. */
  function WidthsPlan(test: nat, ws: seq<nat>, prng: nat): (p: seq<Step>)
    requires forall k :: 0 <= k < |ws| ==> ws[k] > 0
    decreases |ws|
  {
    if ws == [] then []
    else WidthsPlan(test, ws[..|ws|-1], prng)
         + DriverPlan(test, ws[|ws|-1], SeedAfter(test, |ws|, prng))
  }

  function SeedAfter(test: nat, passes: nat, prng: nat): nat
  {
    if test == MEMTEST_MOVING_INVERSION_RAND then prng + passes else prng
  }

  function Tests(testMask: nat): seq<nat>
  {
    Chosen(testMask, MEMTEST_WALKING_ONE, MEMTEST_WALKING_ONE) +
    Chosen(testMask, MEMTEST_WALKING_ZERO, MEMTEST_WALKING_ZERO) +
    Chosen(testMask, MEMTEST_OWN_ADDRESS, MEMTEST_OWN_ADDRESS) +
    Chosen(testMask, MEMTEST_MOVING_INVERSION_ZERO, MEMTEST_MOVING_INVERSION_ZERO) +
    Chosen(testMask, MEMTEST_MOVING_INVERSION_55AA, MEMTEST_MOVING_INVERSION_55AA) +
    Chosen(testMask, MEMTEST_MOVING_INVERSION_RAND, MEMTEST_MOVING_INVERSION_RAND)
  }

  /** The whole run. Only the last test moves the static seed. */
  function RunPlan(tests: seq<nat>, ws: seq<nat>, prng: nat): (p: seq<Step>)
    requires forall k :: 0 <= k < |ws| ==> ws[k] > 0
    decreases |tests|
  {
    if tests == [] then []
    else RunPlan(tests[..|tests|-1], ws, prng) + WidthsPlan(tests[|tests|-1], ws, prng)
  }

  /** What happened in one pass: which callback, if any. */
  datatype Outcome = Outcome(step: Step, report: Option<Report>)

  /** The callback invocations of a run, in order. */
  function Reports(trace: seq<Outcome>): seq<Report>
  {
    if trace == [] then []
    else Reports(trace[..|trace|-1])
         + (if trace[|trace|-1].report.Some? then [trace[|trace|-1].report.value] else [])
  }

  /** The four views of the tested area, one for each width. */
  datatype Views = Views(area8: Area, area16: Area, area32: Area, area64: Area)
  {
    ghost predicate Valid()
    {
      && area8.Valid() && area16.Valid() && area32.Valid() && area64.Valid()
      && area8.width == 8 && area16.width == 16 && area32.width == 32 && area64.width == 64
    }

    function At(w: nat): (a: Area)
      ensures Valid() && w in {8, 16, 32, 64} ==> a.Valid() && a.width == w
    {
      if w == 8 then area8 else if w == 16 then area16 else if w == 32 then area32 else area64
    }
  }

  ghost predicate RightOutcome(views: Views, rand: (nat, nat) -> nat, cb: bool, o: Outcome)
    requires views.Valid()
  {
    && o.step.width in {8, 16, 32, 64} && |o.step.pass.seed| == o.step.width
    && RightReport(views.At(o.step.width), o.step.pass, rand, cb, o.report)
  }

  /** The trace runs through the plan, every pass with the right outcome. */
  ghost predicate Follows(views: Views, rand: (nat, nat) -> nat, cb: bool, trace: seq<Outcome>, plan: seq<Step>)
    requires views.Valid()
  {
    && |trace| == |plan|
    && forall k :: 0 <= k < |trace| ==> trace[k].step == plan[k] && RightOutcome(views, rand, cb, trace[k])
  }

  lemma FollowsConcat(views: Views, rand: (nat, nat) -> nat, cb: bool,
                      a: seq<Outcome>, p: seq<Step>, b: seq<Outcome>, q: seq<Step>)
    requires views.Valid()
    requires Follows(views, rand, cb, a, p) && Follows(views, rand, cb, b, q)
    ensures Follows(views, rand, cb, a + b, p + q)
  {
  }

  // ----- The tester --------------------------------------------------------------

  class Tester {
    const memory8: Memory
    const memory16: Memory
    const memory32: Memory
    const memory64: Memory
    const views: Views
    const widthMask: nat
    const cb: bool
    const rand: (nat, nat) -> nat
    var prngSeed: nat

    ghost predicate Valid()
      reads memory8, memory16, memory32, memory64
    {
      && memory8.Valid() && memory16.Valid() && memory32.Valid() && memory64.Valid()
      && views == Views(memory8.area, memory16.area, memory32.area, memory64.area)
      && views.Valid()
    }

    constructor (memory8: Memory, memory16: Memory, memory32: Memory, memory64: Memory,
                 widthMask: nat, cb: bool, rand: (nat, nat) -> nat)
      requires memory8.Valid() && memory16.Valid() && memory32.Valid() && memory64.Valid()
      requires Views(memory8.area, memory16.area, memory32.area, memory64.area).Valid()
      ensures Valid() && prngSeed == 42
      ensures views == Views(memory8.area, memory16.area, memory32.area, memory64.area)
      ensures this.widthMask == widthMask && this.cb == cb && this.rand == rand
    {
      this.memory8, this.memory16, this.memory32, this.memory64 := memory8, memory16, memory32, memory64;
      this.views := Views(memory8.area, memory16.area, memory32.area, memory64.area);
      this.widthMask, this.cb, this.rand := widthMask, cb, rand;
      prngSeed := 42;
    }

    method RunPass(memory: Memory, pass: Pass) returns (o: Outcome)
      requires Valid() && memory in {memory8, memory16, memory32, memory64}
      requires |pass.seed| == memory.area.width
      modifies memory
      ensures Valid()
      ensures o.step == Step(memory.area.width, pass) && RightOutcome(views, rand, cb, o)
    {
      var generator := new Generator(pass.kind, rand, memory.area.width);
      var r := Sequential(memory, generator, pass.seed, cb);
      o := Outcome(Step(memory.area.width, pass), r);
      assert views.At(memory.area.width) == memory.area;
    }

    /** The driver of one test at one width. */
    method RunDriver(test: nat, memory: Memory) returns (trace: seq<Outcome>)
      requires Valid() && memory in {memory8, memory16, memory32, memory64}
      modifies `prngSeed, memory
      ensures Valid() && prngSeed == NextSeed(test, old(prngSeed))
      ensures Follows(views, rand, cb, trace, DriverPlan(test, memory.area.width, prngSeed))
    {
      var w := memory.area.width;
      if test == MEMTEST_WALKING_ONE {
        var o := RunPass(memory, Pass(WalkingOne, Bit(w, 0)));
        trace := [o];
      } else if test == MEMTEST_WALKING_ZERO {
        var o := RunPass(memory, Pass(WalkingZero, Bit(w, 0)));
        trace := [o];
      } else if test == MEMTEST_OWN_ADDRESS {
        var o := RunPass(memory, Pass(OwnAddress, Zeros(w)));
        trace := [o];
      } else if test == MEMTEST_MOVING_INVERSION_ZERO {
        trace := RunBothSeeds(memory, Zeros(w));
      } else if test == MEMTEST_MOVING_INVERSION_55AA {
        trace := RunBothSeeds(memory, Alternating(w));
      } else {
        prngSeed := NextSeed(test, prngSeed);
        var o := RunPass(memory, Pass(MovingInvRand, WordOf(prngSeed, w)));
        trace := [o];
      }
    }

    method RunBothSeeds(memory: Memory, seed: Bits) returns (trace: seq<Outcome>)
      requires Valid() && memory in {memory8, memory16, memory32, memory64}
      requires |seed| == memory.area.width
      modifies memory
      ensures Valid()
      ensures Follows(views, rand, cb, trace,
                      [Step(memory.area.width, Pass(MovingInv, seed)),
                       Step(memory.area.width, Pass(MovingInv, Not(seed)))])
    {
      var o1 := RunPass(memory, Pass(MovingInv, seed));
      var o2 := RunPass(memory, Pass(MovingInv, Not(seed)));
      trace := [o1, o2];
    }

    method RunWidth(test: nat, flag: nat, memory: Memory, trace: seq<Outcome>, ghost ws: seq<nat>, ghost prng: nat)
      returns (trace': seq<Outcome>)
      requires Valid() && memory in {memory8, memory16, memory32, memory64} && flag > 0
      requires forall k :: 0 <= k < |ws| ==> ws[k] > 0
      requires prngSeed == SeedAfter(test, |ws|, prng)
      requires Follows(views, rand, cb, trace, WidthsPlan(test, ws, prng))
      modifies `prngSeed, memory
      ensures Valid()
      ensures var ws' := ws + Chosen(widthMask, flag, memory.area.width);
        && prngSeed == SeedAfter(test, |ws'|, prng)
        && Follows(views, rand, cb, trace', WidthsPlan(test, ws', prng))
    {
      trace' := trace;
      ghost var ws' := ws + Chosen(widthMask, flag, memory.area.width);
      if Selected(widthMask, flag) {
        var t := RunDriver(test, memory);
        FollowsConcat(views, rand, cb, trace, WidthsPlan(test, ws, prng),
                      t, DriverPlan(test, memory.area.width, prngSeed));
        assert ws'[..|ws'|-1] == ws;
        trace' := trace + t;
      } else {
        assert ws' == ws;
      }
    }

    /** One test at every selected width. */
    method RunWidths(test: nat) returns (trace: seq<Outcome>)
      requires Valid()
      modifies `prngSeed, memory8, memory16, memory32, memory64
      ensures Valid() && prngSeed == SeedAfter(test, |Widths(widthMask)|, old(prngSeed))
      ensures Follows(views, rand, cb, trace, WidthsPlan(test, Widths(widthMask), old(prngSeed)))
    {
      ghost var prng := prngSeed;
      trace := [];
      trace := RunWidth(test, MEMTEST_WIDTH_8, memory8, trace, [], prng);
      ghost var c8 := [] + Chosen(widthMask, MEMTEST_WIDTH_8, 8);
      trace := RunWidth(test, MEMTEST_WIDTH_16, memory16, trace, c8, prng);
      ghost var c16 := c8 + Chosen(widthMask, MEMTEST_WIDTH_16, 16);
      trace := RunWidth(test, MEMTEST_WIDTH_32, memory32, trace, c16, prng);
      ghost var c32 := c16 + Chosen(widthMask, MEMTEST_WIDTH_32, 32);
      trace := RunWidth(test, MEMTEST_WIDTH_64, memory64, trace, c32, prng);
      WidthsWhole(widthMask);
    }

    method RunTest(testMask: nat, test: nat, trace: seq<Outcome>, ghost tests: seq<nat>, ghost prng: nat)
      returns (trace': seq<Outcome>, ghost tests': seq<nat>)
      requires Valid() && test > 0 && prngSeed == prng
      requires Follows(views, rand, cb, trace, RunPlan(tests, Widths(widthMask), prng))
      modifies `prngSeed, memory8, memory16, memory32, memory64
      ensures Valid() && (test != MEMTEST_MOVING_INVERSION_RAND ==> prngSeed == prng)
      ensures tests' == tests + Chosen(testMask, test, test)
      ensures Follows(views, rand, cb, trace', RunPlan(tests', Widths(widthMask), prng))
    {
      trace' := trace;
      tests' := tests + Chosen(testMask, test, test);
      if Selected(testMask, test) {
        var t := RunWidths(test);
        FollowsConcat(views, rand, cb, trace, RunPlan(tests, Widths(widthMask), prng),
                      t, WidthsPlan(test, Widths(widthMask), prng));
        assert tests'[..|tests'|-1] == tests;
        trace' := trace + t;
      } else {
        assert tests' == tests;
      }
    }

    /** The selected tests in order. */
    method Run(testMask: nat) returns (trace: seq<Outcome>)
      requires Valid()
      modifies `prngSeed, memory8, memory16, memory32, memory64
      ensures Valid()
      ensures Follows(views, rand, cb, trace, RunPlan(Tests(testMask), Widths(widthMask), old(prngSeed)))
    {
      ghost var prng := prngSeed;
      ghost var tests: seq<nat>;
      trace, tests := RunWalking(testMask);
      trace, tests := RunTest(testMask, MEMTEST_OWN_ADDRESS, trace, tests, prng);
      trace, tests := RunTest(testMask, MEMTEST_MOVING_INVERSION_ZERO, trace, tests, prng);
      trace, tests := RunTest(testMask, MEMTEST_MOVING_INVERSION_55AA, trace, tests, prng);
      trace, tests := RunTest(testMask, MEMTEST_MOVING_INVERSION_RAND, trace, tests, prng);
    }

    method RunWalking(testMask: nat) returns (trace: seq<Outcome>, ghost tests: seq<nat>)
      requires Valid()
      modifies `prngSeed, memory8, memory16, memory32, memory64
      ensures Valid() && prngSeed == old(prngSeed)
      ensures tests == Chosen(testMask, MEMTEST_WALKING_ONE, MEMTEST_WALKING_ONE)
                       + Chosen(testMask, MEMTEST_WALKING_ZERO, MEMTEST_WALKING_ZERO)
      ensures Follows(views, rand, cb, trace, RunPlan(tests, Widths(widthMask), old(prngSeed)))
    {
      trace, tests := RunTest(testMask, MEMTEST_WALKING_ONE, [], [], prngSeed);
      assert tests == Chosen(testMask, MEMTEST_WALKING_ONE, MEMTEST_WALKING_ONE);
      trace, tests := RunTest(testMask, MEMTEST_WALKING_ZERO, trace, tests, prngSeed);
    }
  }

  lemma WidthsWhole(widthMask: nat)
    ensures ((([] + Chosen(widthMask, MEMTEST_WIDTH_8, 8)) + Chosen(widthMask, MEMTEST_WIDTH_16, 16))
             + Chosen(widthMask, MEMTEST_WIDTH_32, 32)) + Chosen(widthMask, MEMTEST_WIDTH_64, 64)
         == Widths(widthMask)
  {
    assert [] + Chosen(widthMask, MEMTEST_WIDTH_8, 8) == Chosen(widthMask, MEMTEST_WIDTH_8, 8);
  }

  // ----- Guarantees of a whole run -----------------------------------------------

  lemma {:induction false} NoReports(trace: seq<Outcome>)
    ensures Reports(trace) == [] <==> forall k :: 0 <= k < |trace| ==> trace[k].report == None
    decreases |trace|
  {
    if trace != [] {
      var init := trace[..|trace|-1];
      NoReports(init);
      assert forall k :: 0 <= k < |init| ==> init[k] == trace[k];
    }
  }

  /** On faithful memory no combination of tests and widths ever calls the callback. */
  lemma FaithfulRunIsSilent(views: Views, rand: (nat, nat) -> nat, cb: bool, trace: seq<Outcome>, plan: seq<Step>)
    requires views.Valid() && Follows(views, rand, cb, trace, plan)
    requires forall w :: w in {8, 16, 32, 64} ==> views.At(w).Faithful()
    ensures Reports(trace) == []
  {
    forall k | 0 <= k < |trace| ensures trace[k].report == None {
      var o := trace[k];
      assert RightOutcome(views, rand, cb, o);
      NoFalseAlarm(views.At(o.step.width), o.step.pass, rand);
    }
    NoReports(trace);
  }

  /** A step of the plan that detects a fault makes the run report one. */
  lemma DetectedMeansReported(views: Views, rand: (nat, nat) -> nat, trace: seq<Outcome>, plan: seq<Step>, s: Step)
    requires views.Valid() && Follows(views, rand, true, trace, plan)
    requires s in plan && s.width in {8, 16, 32, 64} && |s.pass.seed| == s.width
    requires Detects(views.At(s.width), s.pass, rand)
    ensures Reports(trace) != []
  {
    var k :| 0 <= k < |plan| && plan[k] == s;
    assert RightOutcome(views, rand, true, trace[k]);
    assert trace[k].report.Some?;
    NoReports(trace);
  }

  lemma {:induction false} WidthInPlan(test: nat, ws: seq<nat>, prng: nat, w: nat)
    requires (forall k :: 0 <= k < |ws| ==> ws[k] > 0) && w in ws && test != MEMTEST_MOVING_INVERSION_RAND
    ensures forall s :: s in DriverPlan(test, w, prng) ==> s in WidthsPlan(test, ws, prng)
    decreases |ws|
  {
    if w != ws[|ws|-1] {
      WidthInPlan(test, ws[..|ws|-1], prng, w);
    }
  }

  lemma {:induction false} TestInPlan(tests: seq<nat>, ws: seq<nat>, prng: nat, test: nat)
    requires (forall k :: 0 <= k < |ws| ==> ws[k] > 0) && test in tests
    ensures forall s :: s in WidthsPlan(test, ws, prng) ==> s in RunPlan(tests, ws, prng)
    decreases |tests|
  {
    if test != tests[|tests|-1] {
      TestInPlan(tests[..|tests|-1], ws, prng, test);
    }
  }

  lemma StepInRun(testMask: nat, widthMask: nat, prng: nat, test: nat, w: nat, s: Step)
    requires test in Tests(testMask) && w in Widths(widthMask) && test != MEMTEST_MOVING_INVERSION_RAND
    requires s in DriverPlan(test, w, prng)
    ensures s in RunPlan(Tests(testMask), Widths(widthMask), prng)
  {
    WidthInPlan(test, Widths(widthMask), prng, w);
    TestInPlan(Tests(testMask), Widths(widthMask), prng, test);
  }

  /** A run with both walking tests at some width reports any stuck bit of any tested cell. */
  lemma StuckBitReported(views: Views, rand: (nat, nat) -> nat, testMask: nat, widthMask: nat, prng: nat,
                         trace: seq<Outcome>, w: nat, c: nat, b: nat)
    requires views.Valid()
    requires Follows(views, rand, true, trace, RunPlan(Tests(testMask), Widths(widthMask), prng))
    requires Selected(testMask, MEMTEST_WALKING_ONE) && Selected(testMask, MEMTEST_WALKING_ZERO)
    requires w in Widths(widthMask)
    requires var area := views.At(w); c < area.Cells() && b < w && area.stuck[area.alias[c]][b].Some?
    ensures Reports(trace) != []
  {
    var plan := RunPlan(Tests(testMask), Widths(widthMask), prng);
    var one, zero := Step(w, Pass(WalkingOne, Bit(w, 0))), Step(w, Pass(WalkingZero, Bit(w, 0)));
    StuckBitDetected(views.At(w), rand, c, b);
    if Detects(views.At(w), one.pass, rand) {
      StepInRun(testMask, widthMask, prng, MEMTEST_WALKING_ONE, w, one);
      DetectedMeansReported(views, rand, trace, plan, one);
    } else {
      StepInRun(testMask, widthMask, prng, MEMTEST_WALKING_ZERO, w, zero);
      DetectedMeansReported(views, rand, trace, plan, zero);
    }
  }

  lemma SharedSmall(area: Area, rand: (nat, nat) -> nat, i: nat, j: nat)
    requires area.Valid() && i < j < area.Cells() <= Pow2(area.width) && area.alias[i] == area.alias[j]
    ensures Detects(area, Pass(OwnAddress, Zeros(area.width)), rand)
  {
    SmallMod(i, Pow2(area.width));
    SmallMod(j, Pow2(area.width));
    SharedStorageDetected(area, rand, i, j);
  }

  /** A run with the own-address test at some width reports any two cells of up to 2^w that
      share storage. */
  lemma AliasingReported(views: Views, rand: (nat, nat) -> nat, testMask: nat, widthMask: nat, prng: nat,
                         trace: seq<Outcome>, w: nat, i: nat, j: nat)
    requires views.Valid()
    requires Follows(views, rand, true, trace, RunPlan(Tests(testMask), Widths(widthMask), prng))
    requires Selected(testMask, MEMTEST_OWN_ADDRESS) && w in Widths(widthMask)
    requires var area := views.At(w); i < j < area.Cells() <= Pow2(w) && area.alias[i] == area.alias[j]
    ensures Reports(trace) != []
  {
    var s := Step(w, Pass(OwnAddress, Zeros(w)));
    var area := views.At(w);
    assert area.Valid() && area.width == w;
    SharedSmall(area, rand, i, j);
    OwnAddressInRun(testMask, widthMask, prng, w, s);
    DetectedMeansReported(views, rand, trace, RunPlan(Tests(testMask), Widths(widthMask), prng), s);
  }

  lemma OwnAddressInRun(testMask: nat, widthMask: nat, prng: nat, w: nat, s: Step)
    requires Selected(testMask, MEMTEST_OWN_ADDRESS) && w in Widths(widthMask)
    requires s == Step(w, Pass(OwnAddress, Zeros(w)))
    ensures s in RunPlan(Tests(testMask), Widths(widthMask), prng)
  {
    StepInRun(testMask, widthMask, prng, MEMTEST_OWN_ADDRESS, w, s);
  }
}

/** What the test masks select, in the program's own numbers. */
module MemtestPlan {
  import opened Gf2
  import opened Patterns
  import opened Memtest
  import opened MemtestRun
  import opened Inversion
  import opened Prelude

  // ----- Masks -------------------------------------------------------------------

  /** A flag is selected exactly if its bit is set in the mask. */
  lemma SelectedIsBit(mask: bv8)
    ensures Selected(mask as nat, 1) <==> mask & 1 != 0
    ensures Selected(mask as nat, 2) <==> mask & 2 != 0
    ensures Selected(mask as nat, 4) <==> mask & 4 != 0
    ensures Selected(mask as nat, 8) <==> mask & 8 != 0
    ensures Selected(mask as nat, 16) <==> mask & 16 != 0
    ensures Selected(mask as nat, 32) <==> mask & 32 != 0
  {
    MaskDigits(mask);
    DigitsSelected(mask as nat, Digit(mask, 1), Digit(mask, 2), Digit(mask, 4), Digit(mask, 8), Digit(mask, 16),
                   Digit(mask, 32), Digit(mask, 64) + 2 * Digit(mask, 128));
  }

  function Digit(mask: bv8, flag: bv8): nat
  {
    if mask & flag != 0 then 1 else 0
  }

  lemma DigitsSelected(n: nat, a: nat, b: nat, c: nat, d: nat, e: nat, f: nat, rest: nat)
    requires a < 2 && b < 2 && c < 2 && d < 2 && e < 2 && f < 2
    requires n == a + 2 * (b + 2 * (c + 2 * (d + 2 * (e + 2 * (f + 2 * rest)))))
    ensures Selected(n, 1) == (a == 1) && Selected(n, 2) == (b == 1) && Selected(n, 4) == (c == 1)
    ensures Selected(n, 8) == (d == 1) && Selected(n, 16) == (e == 1) && Selected(n, 32) == (f == 1)
  {
    var n5 := f + 2 * rest;
    var n4 := e + 2 * n5;
    var n3 := d + 2 * n4;
    var n2 := c + 2 * n3;
    var n1 := b + 2 * n2;
    LowDigit(n5, f, rest);
    LowDigit(n4, e, n5);
    LowDigit(n3, d, n4);
    LowDigit(n2, c, n3);
    LowDigit(n1, b, n2);
    LowDigit(n, a, n1);
  }

  /** The flags of a number with one binary digit more. */
  lemma LowDigit(n: nat, a: nat, m: nat)
    requires a < 2 && n == a + 2 * m
    ensures Selected(n, 1) == (a == 1)
    ensures Selected(n, 2) == Selected(m, 1) && Selected(n, 4) == Selected(m, 2) && Selected(n, 8) == Selected(m, 4)
    ensures Selected(n, 16) == Selected(m, 8) && Selected(n, 32) == Selected(m, 16)
  {
    HalvedQuotient(n, a, m, 1);
    HalvedQuotient(n, a, m, 2);
    HalvedQuotient(n, a, m, 4);
    HalvedQuotient(n, a, m, 8);
    HalvedQuotient(n, a, m, 16);
  }

  lemma HalvedQuotient(n: nat, a: nat, m: nat, f: nat)
    requires a < 2 && n == a + 2 * m && f > 0
    ensures n / (2 * f) == m / f
  {
    var q, r := m / f, m % f;
    assert m == q * f + r;
    assert n == q * (2 * f) + (2 * r + a);
    QuotientOfMultiple(q, 2 * f, 2 * r + a);
  }

  lemma QuotientOfMultiple(q: nat, w: nat, r: nat)
    requires r < w
    ensures (q * w + r) / w == q
  {
    var n := q * w + r;
    var e, f := n / w, n % w;
    assert n == e * w + f;
    MultipleGap(e, q, w);
    MultipleGap(q, e, w);
  }

  lemma MaskDigits(mask: bv8)
    ensures mask as nat
         == Digit(mask, 1) + 2 * (Digit(mask, 2) + 2 * (Digit(mask, 4) + 2 * (Digit(mask, 8)
            + 2 * (Digit(mask, 16) + 2 * (Digit(mask, 32) + 2 * (Digit(mask, 64) + 2 * Digit(mask, 128)))))))
  {
  }

  predicate Increasing(s: seq<nat>)
  {
    forall i, j :: 0 <= i < j < |s| ==> s[i] < s[j]
  }

  /** One more choice, greater than all before. */
  lemma OneMoreChoice(s: seq<nat>, mask: nat, flag: nat, x: nat)
    requires flag > 0 && Increasing(s) && forall y :: y in s ==> y < x
    ensures Increasing(s + Chosen(mask, flag, x))
    ensures forall y :: y in s + Chosen(mask, flag, x) <==> y in s || (y == x && Selected(mask, flag))
  {
    var r := s + Chosen(mask, flag, x);
    forall i, j | 0 <= i < j < |r| ensures r[i] < r[j] {
      assert r[i] == s[i] && s[i] in s;
      assert j < |s| ==> r[j] == s[j];
    }
  }

  /** The widths are tested from the narrowest to the widest, and are exactly the selected ones. */
  lemma WidthsExact(mask: nat)
    ensures Increasing(Widths(mask))
    ensures forall w :: w in Widths(mask) <==>
              (w == 8 && Selected(mask, 1)) || (w == 16 && Selected(mask, 2))
              || (w == 32 && Selected(mask, 4)) || (w == 64 && Selected(mask, 8))
  {
    var a := Chosen(mask, 1, 8);
    var b := a + Chosen(mask, 2, 16);
    var c := b + Chosen(mask, 4, 32);
    OneMoreChoice(a, mask, 2, 16);
    OneMoreChoice(b, mask, 4, 32);
    OneMoreChoice(c, mask, 8, 64);
    assert Widths(mask) == c + Chosen(mask, 8, 64);
  }

  /** The tests run in the order of their flags, and are exactly the selected ones. */
  lemma TestsExact(mask: nat)
    ensures Increasing(Tests(mask))
    ensures forall t :: t in Tests(mask) <==> t in {1, 2, 4, 8, 16, 32} && Selected(mask, t)
  {
    var a := Chosen(mask, 1, 1);
    var b := a + Chosen(mask, 2, 2);
    var c := b + Chosen(mask, 4, 4);
    var d := c + Chosen(mask, 8, 8);
    var e := d + Chosen(mask, 16, 16);
    OneMoreChoice(a, mask, 2, 2);
    OneMoreChoice(b, mask, 4, 4);
    OneMoreChoice(c, mask, 8, 8);
    OneMoreChoice(d, mask, 16, 16);
    OneMoreChoice(e, mask, 32, 32);
    assert Tests(mask) == e + Chosen(mask, 32, 32);
  }

  // ----- The passes of each test -------------------------------------------------

  /** The flag by which the program names a test type to its callback. */
  function TypeCode(t: TestType): nat
  {
    match t
    case WalkingOneTest => 1
    case WalkingZeroTest => 2
    case OwnAddressTest => 4
    case InversionZero => 8
    case Inversion55AA => 16
    case InversionRand => 32
  }

  /** Every pass of a test reports its mismatches under the flag that selects the test. */
  lemma ReportsOwnType(test: nat, w: nat, prng: nat, k: nat, i: nat)
    requires test in {1, 2, 4, 8, 16, 32} && w >= 8 && k < |DriverPlan(test, w, prng)|
    ensures var pass := DriverPlan(test, w, prng)[k].pass;
      TypeCode(TypeAt(pass.kind, pass.seed, i)) == test
  {
    InversionTypes(w, i);
    assert Not(Zeros(w)) == Ones(w);
  }

  /** The step is a pass at width w of the given kind, from the word of the given value. */
  ghost predicate IsPass(s: Step, w: nat, kind: Kind, value: int)
  {
    s.width == w && s.pass.kind == kind && ValueOf(s.pass.seed) == value
  }

  /** The passes of each test, and their seeds: walking bits start from 1, addresses from 0, the
      two inversions from 0 and from 0x55 in every byte and then from the complement, and the
      random one from the static seed. */
  lemma PassSeeds(test: nat, w: nat, prng: nat)
    requires w in {8, 16, 32, 64} && test in {1, 2, 4, 8, 16, 32}
    ensures var plan := DriverPlan(test, w, prng);
      if test == 8 || test == 16 then
        var seed := if test == 8 then 0 else Fives(w);
        |plan| == 2 && IsPass(plan[0], w, MovingInv, seed) && IsPass(plan[1], w, MovingInv, Pow2(w) - 1 - seed)
      else
        |plan| == 1 && match test
                       case 1 => IsPass(plan[0], w, WalkingOne, 1)
                       case 2 => IsPass(plan[0], w, WalkingZero, 1)
                       case 4 => IsPass(plan[0], w, OwnAddress, 0)
                       case _ => IsPass(plan[0], w, MovingInvRand, prng % Pow2(w))
  {
    if test == 8 || test == 16 {
      InversionSeeds(test, w, prng);
    } else {
      BitValue(w, 0);
      ZerosValue(w);
      WordValue(prng, w);
    }
  }

  lemma InversionSeeds(test: nat, w: nat, prng: nat)
    requires w in {8, 16, 32, 64} && (test == 8 || test == 16)
    ensures var plan, seed := DriverPlan(test, w, prng), if test == 8 then 0 else Fives(w);
      |plan| == 2 && IsPass(plan[0], w, MovingInv, seed) && IsPass(plan[1], w, MovingInv, Pow2(w) - 1 - seed)
  {
    ZerosValue(w);
    NotValue(Zeros(w));
    FivesValue(w);
    NotValue(Alternating(w));
  }

  /** 0x55 in every byte. */
  function Fives(w: nat): int
    requires w in {8, 16, 32, 64}
  {
    if w == 8 then 0x55 else if w == 16 then 0x5555 else if w == 32 then 0x5555_5555 else 0x5555_5555_5555_5555
  }

  lemma FivesValue(w: nat)
    requires w in {8, 16, 32, 64}
    ensures ValueOf(Alternating(w)) == Fives(w)
  {
    AlternatingValue();
  }

  /** The random test runs one pass at every width, each from the next static seed. */
  lemma {:induction false} RandomSeeds(ws: seq<nat>, prng: nat, k: nat)
    requires (forall i :: 0 <= i < |ws| ==> ws[i] > 0) && k < |ws|
    ensures var plan := WidthsPlan(32, ws, prng);
      && |plan| == |ws| && plan[k].width == ws[k] && plan[k].pass.kind == MovingInvRand
      && ValueOf(plan[k].pass.seed) == (prng + k + 1) % Pow2(ws[k])
    decreases |ws|
  {
    var n := |ws| - 1;
    RandomPlanLength(ws[..n], prng);
    WordValue(prng + n + 1, ws[n]);
    if k < n {
      RandomSeeds(ws[..n], prng, k);
    }
  }

  lemma {:induction false} RandomPlanLength(ws: seq<nat>, prng: nat)
    requires forall i :: 0 <= i < |ws| ==> ws[i] > 0
    ensures |WidthsPlan(32, ws, prng)| == |ws|
    decreases |ws|
  {
    if ws != [] {
      RandomPlanLength(ws[..|ws|-1], prng);
    }
  }

  // ----- Whole runs --------------------------------------------------------------

  /** A run with one of the two moving inversions at some width reports any stuck bit of a tested
      cell, and any two tested cells of different parity that share storage. */
  lemma InversionReported(views: Views, rand: (nat, nat) -> nat, testMask: nat, widthMask: nat, prng: nat,
                          trace: seq<Outcome>, test: nat, w: nat)
    requires views.Valid()
    requires Follows(views, rand, true, trace, RunPlan(Tests(testMask), Widths(widthMask), prng))
    requires (test == 8 || test == 16) && Selected(testMask, test) && w in Widths(widthMask)
    requires StuckSomewhere(views.At(w)) || SharedOffParity(views.At(w))
    ensures Reports(trace) != []
  {
    var seed := if test == 8 then Zeros(w) else Alternating(w);
    var first, second := Step(w, Pass(MovingInv, seed)), Step(w, Pass(MovingInv, Not(seed)));
    InversionSteps(test, w, prng, first, second);
    BothInversionsExact(views.At(w), rand, seed);
    if Detects(views.At(w), first.pass, rand) {
      FoundMeansReported(views, rand, testMask, widthMask, prng, trace, test, w, first);
    } else {
      FoundMeansReported(views, rand, testMask, widthMask, prng, trace, test, w, second);
    }
  }

  lemma InversionSteps(test: nat, w: nat, prng: nat, first: Step, second: Step)
    requires w > 0 && (test == 8 || test == 16)
    requires var seed := if test == 8 then Zeros(w) else Alternating(w);
      first == Step(w, Pass(MovingInv, seed)) && second == Step(w, Pass(MovingInv, Not(seed)))
    ensures first in DriverPlan(test, w, prng) && second in DriverPlan(test, w, prng)
  {
    assert DriverPlan(test, w, prng) == [first, second];
  }

  lemma FoundMeansReported(views: Views, rand: (nat, nat) -> nat, testMask: nat, widthMask: nat, prng: nat,
                           trace: seq<Outcome>, test: nat, w: nat, s: Step)
    requires views.Valid()
    requires Follows(views, rand, true, trace, RunPlan(Tests(testMask), Widths(widthMask), prng))
    requires (test == 8 || test == 16) && Selected(testMask, test) && w in Widths(widthMask)
    requires s in DriverPlan(test, w, prng) && Detects(views.At(w), s.pass, rand)
    ensures Reports(trace) != []
  {
    StepInRun(testMask, widthMask, prng, test, w, s);
    DetectedMeansReported(views, rand, trace, RunPlan(Tests(testMask), Widths(widthMask), prng), s);
  }
}

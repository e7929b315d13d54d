/** Polynomials over GF(2) and their division. */
module Gf2 {
  import opened Prelude

  // A polynomial is a bit sequence, most significant coefficient first; division is by the
  // shift register that a CRC runs.

  type Bits = seq<bool>

  function Zeros(n: nat): (z: Bits)
    ensures |z| == n && forall i :: 0 <= i < n ==> !z[i]
  {
    seq(n, _ => false)
  }

  /** Addition, which is also subtraction. */
  function Xor(a: Bits, b: Bits): (r: Bits)
    requires |a| == |b|
    ensures |r| == |a| && forall i :: 0 <= i < |r| ==> r[i] == (a[i] != b[i])
  {
    seq(|a|, i requires 0 <= i < |a| => a[i] != b[i])
  }

  /** c * g for a single bit c. */
  function Times(c: bool, g: Bits): (r: Bits)
    ensures |r| == |g| && forall i :: 0 <= i < |r| ==> r[i] == (c && g[i])
  {
    if c then g else Zeros(|g|)
  }

  // ----- The shift register ------------------------------------------------------

  /** One step of the register r for the generator x^n + g, taking in message bit c at the top:
      shift towards the top, feedback g on the sum of c and the bit that falls out. */
  function Step(r: Bits, g: Bits, c: bool): (r': Bits)
    requires |r| == |g| > 0
    ensures |r'| == |r|
    ensures forall i :: 0 <= i < |r| ==> r'[i] == ((i + 1 < |r| && r[i+1]) != ((r[0] != c) && g[i]))
  {
    seq(|r|, i requires 0 <= i < |r| => (i + 1 < |r| && r[i+1]) != ((r[0] != c) && g[i]))
  }

  lemma StepCases(r: Bits, g: Bits)
    requires |r| == |g| > 0
    ensures r[0] ==> Step(r, g, false) == Xor(r[1..] + [false], g)
    ensures !r[0] ==> Step(r, g, false) == r[1..] + [false]
  {
  }

  function Run(r: Bits, g: Bits, m: Bits): (r': Bits)
    requires |r| == |g| > 0
    ensures |r'| == |r|
    decreases |m|
  {
    if m == [] then r else Run(Step(r, g, m[0]), g, m[1..])
  }

  lemma {:induction false} RunConcat(r: Bits, g: Bits, a: Bits, b: Bits)
    requires |r| == |g| > 0
    ensures Run(r, g, a + b) == Run(Run(r, g, a), g, b)
    decreases |a|
  {
    if a == [] {
      assert a + b == b;
    } else {
      assert (a + b)[1..] == a[1..] + b;
      RunConcat(Step(r, g, a[0]), g, a[1..], b);
    }
  }

  lemma StepLinear(r: Bits, s: Bits, g: Bits, c: bool, d: bool)
    requires |r| == |s| == |g| > 0
    ensures Step(Xor(r, s), g, c != d) == Xor(Step(r, g, c), Step(s, g, d))
  {
  }

  /** The register is linear in its start value and the message together. */
  lemma {:induction false} RunLinear(r: Bits, s: Bits, g: Bits, a: Bits, b: Bits)
    requires |r| == |s| == |g| > 0 && |a| == |b|
    ensures Run(Xor(r, s), g, Xor(a, b)) == Xor(Run(r, g, a), Run(s, g, b))
    decreases |a|
  {
    if a != [] {
      StepLinear(r, s, g, a[0], b[0]);
      assert Xor(a, b)[1..] == Xor(a[1..], b[1..]);
      RunLinear(Step(r, g, a[0]), Step(s, g, b[0]), g, a[1..], b[1..]);
    }
  }

  /** Up to n message bits may be added into the top of the register first and then shifted
      through with zero input: what the byte loop does. */
  lemma {:induction false} RunPreloaded(r: Bits, g: Bits, d: Bits)
    requires |r| == |g| > 0 && |d| <= |g|
    ensures Run(r, g, d) == Run(Xor(r, d + Zeros(|g| - |d|)), g, Zeros(|d|))
    decreases |d|
  {
    var n := |g|;
    var p := Xor(r, d + Zeros(n - |d|));
    if d == [] {
      assert p == r;
    } else {
      var r' := Step(r, g, d[0]);
      assert Step(p, g, false) == Xor(r', d[1..] + Zeros(n - |d[1..]|));
      assert Zeros(|d|)[1..] == Zeros(|d[1..]|);
      RunPreloaded(r', g, d[1..]);
    }
  }

  // ----- Division ----------------------------------------------------------------

  /** Product of q with the monic polynomial x^n + g; it has |q| + n coefficients. */
  function Mul(q: Bits, g: Bits): (p: Bits)
    ensures |p| == |q| + |g|
  {
    if q == [] then Zeros(|g|)
    else Xor(Times(q[0], [true] + g + Zeros(|q| - 1)), [false] + Mul(q[1..], g))
  }

  function Quotient(r: Bits, g: Bits, m: Bits): (q: Bits)
    requires |r| == |g| > 0
    ensures |q| == |m|
    decreases |m|
  {
    if m == [] then [] else [r[0] != m[0]] + Quotient(Step(r, g, m[0]), g, m[1..])
  }

  lemma XorAssociative(a: Bits, b: Bits, c: Bits)
    requires |a| == |b| == |c|
    ensures Xor(a, Xor(b, c)) == Xor(Xor(a, b), c)
  {
  }

  lemma XorCancels(h: Bits, a: Bits, b: Bits)
    requires |h| == |a| == |b| && Xor(h, a) == Xor(h, b)
    ensures a == b
  {
    assert forall i :: 0 <= i < |a| ==> Xor(h, a)[i] == Xor(h, b)[i];
  }

  lemma ConsXor(c: bool, a: Bits, b: Bits)
    requires |a| == |b|
    ensures [c] + Xor(a, b) == Xor([c] + a, [false] + b)
  {
  }

  lemma ZerosCons(k: nat, r: Bits)
    ensures Zeros(k + 1) + r == [false] + (Zeros(k) + r)
  {
  }

  /** Coefficient k of a * x^j, where a has degree below |a| + j. */
  predicate Coefficient(a: Bits, k: nat)
  {
    k < |a| && a[k]
  }

  /** r * x^|m| + m * x^n. */
  function Dividend(r: Bits, g: Bits, m: Bits): (d: Bits)
    requires |r| == |g|
    ensures |d| == |m| + |g|
    ensures forall k :: 0 <= k < |d| ==> d[k] == (Coefficient(r, k) != Coefficient(m, k))
  {
    Xor(r + Zeros(|m|), m + Zeros(|g|))
  }

  /** q * (x^n + g) + rem. */
  function MulAdd(q: Bits, g: Bits, rem: Bits): (d: Bits)
    requires |rem| == |g|
    ensures |d| == |q| + |g|
  {
    Xor(Mul(q, g), Zeros(|q|) + rem)
  }

  /** t * x^|q| * (x^n + g) + s, where s has one coefficient less. */
  function Lead(t: bool, g: Bits, k: nat, s: Bits): (d: Bits)
    requires |s| == |g| + k
    ensures |d| == |s| + 1 && d[0] == t
    ensures forall i :: 0 < i < |d| ==> d[i] == ((t && Coefficient(g, i - 1)) != s[i-1])
  {
    Xor(Times(t, [true] + g + Zeros(k)), [false] + s)
  }

  lemma LeadCancels(t: bool, g: Bits, k: nat, s1: Bits, s2: Bits)
    requires |s1| == |s2| == |g| + k && Lead(t, g, k, s1) == Lead(t, g, k, s2)
    ensures s1 == s2
  {
    XorCancels(Times(t, [true] + g + Zeros(k)), [false] + s1, [false] + s2);
    assert s1 == ([false] + s1)[1..] == ([false] + s2)[1..] == s2;
  }

  /** Both sides of a division, their leading coefficient taken out. */
  lemma MulAddPeel(q: Bits, g: Bits, r: Bits)
    requires q != [] && |r| == |g|
    ensures MulAdd(q, g, r) == Lead(q[0], g, |q| - 1, MulAdd(q[1..], g, r))
  {
    var k := |q| - 1;
    var head, tail := Times(q[0], [true] + g + Zeros(k)), Mul(q[1..], g);
    ZerosCons(k, r);
    XorAssociative(head, [false] + tail, Zeros(|q|) + r);
    ConsXor(false, tail, Zeros(k) + r);
  }

  lemma DividendPeel(r: Bits, g: Bits, m: Bits)
    requires |r| == |g| > 0 && m != []
    ensures Dividend(r, g, m) == Lead(r[0] != m[0], g, |m| - 1, Dividend(Step(r, g, m[0]), g, m[1..]))
  {
  }

  /** The register holds the remainder: from any start value, dividend = quotient * generator
      + register. */
  lemma {:induction false} Division(r: Bits, g: Bits, m: Bits)
    requires |r| == |g| > 0
    ensures Dividend(r, g, m) == MulAdd(Quotient(r, g, m), g, Run(r, g, m))
    decreases |m|
  {
    if m == [] {
      DivisionEmpty(r, g);
    } else {
      Division(Step(r, g, m[0]), g, m[1..]);
      QuotientUnfolds(r, g, m);
      DividendPeel(r, g, m);
      MulAddPeel(Quotient(r, g, m), g, Run(r, g, m));
    }
  }

  lemma QuotientUnfolds(r: Bits, g: Bits, m: Bits)
    requires |r| == |g| > 0 && m != []
    ensures Quotient(r, g, m)[0] == (r[0] != m[0])
    ensures Quotient(r, g, m)[1..] == Quotient(Step(r, g, m[0]), g, m[1..])
    ensures Run(r, g, m) == Run(Step(r, g, m[0]), g, m[1..])
  {
  }

  lemma DivisionEmpty(r: Bits, g: Bits)
    requires |r| == |g|
    ensures Dividend(r, g, []) == MulAdd([], g, r)
  {
  }

  /** Quotient and remainder by a monic polynomial are unique. */
  lemma {:induction false} DivisionUnique(q1: Bits, q2: Bits, g: Bits, r1: Bits, r2: Bits)
    requires |q1| == |q2| && |r1| == |r2| == |g|
    requires MulAdd(q1, g, r1) == MulAdd(q2, g, r2)
    ensures q1 == q2 && r1 == r2
    decreases |q1|
  {
    if q1 == [] {
      XorCancels(Zeros(|g|), Zeros(0) + r1, Zeros(0) + r2);
      assert Zeros(0) + r1 == r1 && Zeros(0) + r2 == r2;
    } else {
      MulAddPeel(q1, g, r1);
      MulAddPeel(q2, g, r2);
      LeadCancels(q1[0], g, |q1| - 1, MulAdd(q1[1..], g, r1), MulAdd(q2[1..], g, r2));
      DivisionUnique(q1[1..], q2[1..], g, r1, r2);
      SamePeeled(q1, q2);
    }
  }

  lemma SamePeeled(a: Bits, b: Bits)
    requires a != [] && b != [] && a[0] == b[0] && a[1..] == b[1..]
    ensures a == b
  {
    assert a == [a[0]] + a[1..] && b == [b[0]] + b[1..];
  }

  /** rem is the remainder of message * x^n on division by x^n + g. */
  ghost predicate IsRemainder(m: Bits, g: Bits, rem: Bits)
  {
    |rem| == |g| && exists q: Bits :: |q| == |m| && m + Zeros(|g|) == MulAdd(q, g, rem)
  }

  /** From a zero start the register holds exactly the polynomial remainder. */
  lemma RunIsRemainder(m: Bits, g: Bits, rem: Bits)
    requires |g| > 0
    ensures IsRemainder(m, g, rem) <==> rem == Run(Zeros(|g|), g, m)
  {
    var zero := Zeros(|g|);
    Division(zero, g, m);
    assert Dividend(zero, g, m) == m + Zeros(|g|);
    if IsRemainder(m, g, rem) {
      var q: Bits :| |q| == |m| && m + Zeros(|g|) == MulAdd(q, g, rem);
      DivisionUnique(q, Quotient(zero, g, m), g, rem, Run(zero, g, m));
    }
  }

  // ----- Error detection ---------------------------------------------------------

  /** With a constant term in the generator no step loses information. */
  lemma StepInjective(r: Bits, s: Bits, g: Bits, c: bool)
    requires |r| == |s| == |g| > 0 && g[|g|-1]
    ensures Step(r, g, c) == Step(s, g, c) ==> r == s
  {
    var n := |g|;
    var r', s' := Step(r, g, c), Step(s, g, c);
    if r' == s' {
      assert r'[n-1] == (r[0] != c) && s'[n-1] == (s[0] != c);
      forall i | 0 <= i < n ensures r[i] == s[i] {
        if i > 0 {
          assert r'[i-1] == s'[i-1];
        }
      }
    }
  }

  lemma {:induction false} RunInjective(r: Bits, s: Bits, g: Bits, m: Bits)
    requires |r| == |s| == |g| > 0 && g[|g|-1]
    ensures Run(r, g, m) == Run(s, g, m) ==> r == s
    decreases |m|
  {
    if m != [] {
      RunInjective(Step(r, g, m[0]), Step(s, g, m[0]), g, m[1..]);
      StepInjective(r, s, g, m[0]);
    }
  }

  /** Two messages that agree outside one stretch of at most n bits leave equal registers
      behind only if they agree in that stretch too. */
  lemma BurstDetected(r: Bits, g: Bits, a: Bits, x: Bits, y: Bits, b: Bits)
    requires |r| == |g| > 0 && g[|g|-1]
    requires |x| == |y| <= |g|
    ensures Run(r, g, a + x + b) == Run(r, g, a + y + b) <==> x == y
  {
    var s := Run(r, g, a);
    RunConcat(r, g, a + x, b);
    RunConcat(r, g, a + y, b);
    RunConcat(r, g, a, x);
    RunConcat(r, g, a, y);
    ShortBurst(s, g, x, y);
    RunInjective(Run(s, g, x), Run(s, g, y), g, b);
  }

  lemma ShortBurst(s: Bits, g: Bits, x: Bits, y: Bits)
    requires |s| == |g| > 0 && g[|g|-1]
    requires |x| == |y| <= |g|
    ensures Run(s, g, x) == Run(s, g, y) ==> x == y
  {
    RunPreloaded(s, g, x);
    RunPreloaded(s, g, y);
    var pad := Zeros(|g| - |x|);
    RunInjective(Xor(s, x + pad), Xor(s, y + pad), g, Zeros(|x|));
    if Run(s, g, x) == Run(s, g, y) {
      XorCancels(s, x + pad, y + pad);
      assert x == (x + pad)[..|x|] == (y + pad)[..|y|] == y;
    }
  }

  // ----- Reflection --------------------------------------------------------------

  lemma RevXor(a: Bits, b: Bits)
    requires |a| == |b|
    ensures Reverse(Xor(a, b)) == Xor(Reverse(a), Reverse(b))
  {
  }

  /** One step of the mirrored register: shift towards the low end, feedback h on the bit that
      falls out. */
  function RStep(s: Bits, h: Bits): (s': Bits)
    requires |s| == |h| > 0
    ensures |s'| == |s|
    ensures forall i :: 0 <= i < |s| ==> s'[i] == ((i > 0 && s[i-1]) != (s[|s|-1] && h[i]))
  {
    seq(|s|, i requires 0 <= i < |s| => (i > 0 && s[i-1]) != (s[|s|-1] && h[i]))
  }

  function RRun(s: Bits, h: Bits, k: nat): (s': Bits)
    requires |s| == |h| > 0
    ensures |s'| == |s|
    decreases k, |s|
  {
    if k == 0 then s else RRun(RStep(s, h), h, k - 1)
  }

  lemma MirroredStep(r: Bits, g: Bits)
    requires |r| == |g| > 0
    ensures Reverse(Step(r, g, false)) == RStep(Reverse(r), Reverse(g))
  {
  }

  lemma {:induction false} MirroredRun(r: Bits, g: Bits, k: nat)
    requires |r| == |g| > 0
    ensures Reverse(Run(r, g, Zeros(k))) == RRun(Reverse(r), Reverse(g), k)
    decreases k
  {
    if k > 0 {
      MirroredStep(r, g);
      assert Zeros(k)[1..] == Zeros(k - 1);
      MirroredRun(Step(r, g, false), g, k - 1);
    }
  }

  lemma RStepLinear(a: Bits, b: Bits, h: Bits)
    requires |a| == |b| == |h| > 0
    ensures RStep(Xor(a, b), h) == Xor(RStep(a, h), RStep(b, h))
  {
  }

  lemma {:induction false} RRunLinear(a: Bits, b: Bits, h: Bits, k: nat)
    requires |a| == |b| == |h| > 0
    ensures RRun(Xor(a, b), h, k) == Xor(RRun(a, h, k), RRun(b, h, k))
    decreases k
  {
    if k > 0 {
      RStepLinear(a, b, h);
      RRunLinear(RStep(a, h), RStep(b, h), h, k - 1);
    }
  }

  /** With k zero bits at the low end, k mirrored steps are just a shift. */
  lemma {:induction false} RRunShifts(hi: Bits, h: Bits, k: nat)
    requires |hi| + k == |h| > 0
    ensures RRun(hi + Zeros(k), h, k) == Zeros(k) + hi
    decreases k
  {
    if k == 0 {
      assert hi + Zeros(0) == hi == Zeros(0) + hi;
    } else {
      RStepShifts(hi, h, k);
      RRunShifts([false] + hi, h, k - 1);
      ZerosSnoc(k - 1, hi);
    }
  }

  lemma RStepShifts(hi: Bits, h: Bits, k: nat)
    requires |hi| + k == |h| && k > 0
    ensures RStep(hi + Zeros(k), h) == ([false] + hi) + Zeros(k - 1)
  {
  }

  lemma ZerosSnoc(k: nat, r: Bits)
    ensures Zeros(k) + ([false] + r) == Zeros(k + 1) + r
  {
  }

  /** k mirrored steps split into a shift of the high part and a correction that depends only
      on the k low bits: the reason a table of corrections works. */
  lemma RRunSplits(hi: Bits, lo: Bits, h: Bits)
    requires |hi| + |lo| == |h| > 0
    ensures RRun(hi + lo, h, |lo|) == Xor(RRun(Zeros(|hi|) + lo, h, |lo|), Zeros(|lo|) + hi)
  {
    SplitHiLo(hi, lo);
    RRunLinear(Zeros(|hi|) + lo, hi + Zeros(|lo|), h, |lo|);
    RRunShifts(hi, h, |lo|);
  }

  lemma SplitHiLo(hi: Bits, lo: Bits)
    ensures hi + lo == Xor(Zeros(|hi|) + lo, hi + Zeros(|lo|))
  {
  }
}

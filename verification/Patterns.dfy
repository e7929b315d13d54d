/** The pattern generators of the memory tester. A cell of type T is its bits, least significant
    first. */
module Patterns {
  import opened Gf2
  import opened Prelude

  function Ones(w: nat): (z: Bits)
    ensures |z| == w && forall i :: 0 <= i < w ==> z[i]
  {
    seq(w, _ => true)
  }

  function Not(s: Bits): (r: Bits)
    ensures |r| == |s| && forall i :: 0 <= i < |s| ==> r[i] == !s[i]
  {
    seq(|s|, i requires 0 <= i < |s| => !s[i])
  }

  /** s << 1, truncated to the width. */
  function Shl(s: Bits): (r: Bits)
    requires s != []
    ensures |r| == |s|
  {
    [false] + s[..|s|-1]
  }

  /** s + 1, wrapping at the width. */
  function Inc(s: Bits): (r: Bits)
    ensures |r| == |s|
  {
    if s == [] then [] else if s[0] then [false] + Inc(s[1..]) else [true] + s[1..]
  }

  function ValueOf(s: Bits): nat
  {
    if s == [] then 0 else (if s[0] then 1 else 0) + 2 * ValueOf(s[1..])
  }

  /** The low w bits of v. */
  function WordOf(v: nat, w: nat): (s: Bits)
    ensures |s| == w
  {
    if w == 0 then [] else [v % 2 == 1] + WordOf(v / 2, w - 1)
  }

  function Pow2(n: nat): (p: nat)
    ensures p > 0
  {
    if n == 0 then 1 else 2 * Pow2(n - 1)
  }

  /** The word with only bit k set: 1 << k. */
  function Bit(w: nat, k: nat): (s: Bits)
    ensures |s| == w && forall i :: 0 <= i < w ==> s[i] == (i == k)
  {
    seq(w, i => i == k)
  }

  /** Every byte 0x55. */
  function Alternating(w: nat): (s: Bits)
    ensures |s| == w && forall i :: 0 <= i < w ==> s[i] == (i % 2 == 0)
  {
    seq(w, i => i % 2 == 0)
  }

  datatype Kind = WalkingOne | WalkingZero | OwnAddress | MovingInv | MovingInvRand

  datatype TestType = WalkingOneTest | WalkingZeroTest | OwnAddressTest | InversionZero | Inversion55AA | InversionRand

  // ----- The sequence each generator replays from its seed -----------------------

  /** A walking bit that re-enters at the bottom. */
  function WalkStep(p: Bits): (r: Bits)
    requires p != []
    ensures |r| == |p|
  {
    if Shl(p) == Zeros(|p|) then Bit(|p|, 0) else Shl(p)
  }

  function Walk(seed: Bits, i: nat): (p: Bits)
    requires seed != []
    ensures |p| == |seed|
  {
    if i == 0 then seed else WalkStep(Walk(seed, i - 1))
  }

  function Count(seed: Bits, i: nat): (p: Bits)
    ensures |p| == |seed|
  {
    if i == 0 then seed else Inc(Count(seed, i - 1))
  }

  function Invert(seed: Bits, i: nat): (p: Bits)
    ensures |p| == |seed|
  {
    if i % 2 == 0 then seed else Not(seed)
  }

  /** Calls of rand() for one fresh random word. */
  function CallsPerDraw(w: nat): nat
  {
    if w == 64 then 2 else 1
  }

  /** Random word number k of the stream that srand started from the given value. */
  function Draw(rand: (nat, nat) -> nat, start: nat, w: nat, k: nat): (d: Bits)
    ensures |d| == w
  {
    if w == 64 then WordOf(rand(start, 2 * k + 1), 32) + WordOf(rand(start, 2 * k), 32)
    else WordOf(rand(start, k), w)
  }

  function Output(kind: Kind, rand: (nat, nat) -> nat, seed: Bits, i: nat): (p: Bits)
    requires seed != []
    ensures |p| == |seed|
  {
    match kind
    case WalkingOne => Walk(seed, i)
    case WalkingZero => Not(Walk(seed, i))
    case OwnAddress => Count(seed, i)
    case MovingInv => Invert(seed, i)
    case MovingInvRand => Invert(Draw(rand, ValueOf(seed), |seed|, i / 2), i)
  }

  /** The test type that is reported for a mismatch at word i. */
  function TypeAt(kind: Kind, seed: Bits, i: nat): TestType
    requires |seed| >= 8
  {
    match kind
    case WalkingOne => WalkingOneTest
    case WalkingZero => WalkingZeroTest
    case OwnAddress => OwnAddressTest
    case MovingInv => InversionType(Invert(seed, i + 1))
    case MovingInvRand => InversionRand
  }

  function InversionType(pattern: Bits): TestType
    requires |pattern| >= 8
  {
    if pattern == Zeros(|pattern|) || pattern[..8] == Ones(8) then InversionZero else Inversion55AA
  }

  class Generator {
    const kind: Kind
    const rand: (nat, nat) -> nat
    const width: nat
    var pattern: Bits
    var step: nat
    var prev: Bits
    // State of the C library's random number generator: its start value and the calls so far.
    var start: nat
    var calls: nat

    constructor (kind: Kind, rand: (nat, nat) -> nat, width: nat)
      ensures this.kind == kind && this.rand == rand && this.width == width
    {
      this.kind, this.rand, this.width := kind, rand, width;
      pattern, step, prev := Zeros(width), 0, Zeros(width);
      start, calls := 0, 0;
    }

    /** The state after Init(seed) and i calls of Get. */
    ghost predicate At(seed: Bits, i: nat)
      reads this
    {
      && |seed| == width > 0
      && match kind
         case WalkingOne => pattern == Walk(seed, i)
         case WalkingZero => pattern == Walk(seed, i)
         case OwnAddress => pattern == Count(seed, i)
         case MovingInv => pattern == Invert(seed, i)
         case MovingInvRand =>
           && step == i && start == ValueOf(seed)
           && calls == CallsPerDraw(width) * ((i + 1) / 2)
           && (i % 2 == 1 ==> prev == Draw(rand, start, width, i / 2))
    }

    method Init(seed: Bits)
      requires |seed| == width > 0
      modifies this
      ensures At(seed, 0)
    {
      if kind == MovingInvRand {
        start, calls := ValueOf(seed), 0;
        step := 0;
        prev := Zeros(width);
      } else {
        pattern := seed;
      }
    }

    method Rand() returns (v: nat)
      modifies `calls
      ensures v == rand(start, old(calls)) && calls == old(calls) + 1
    {
      v := rand(start, calls);
      calls := calls + 1;
    }

    /** A fresh random word; two calls of rand() make a 64-bit one. */
    method FreshWord(ghost k: nat) returns (d: Bits)
      requires calls == CallsPerDraw(width) * k
      modifies `calls
      ensures d == Draw(rand, start, width, k) && calls == CallsPerDraw(width) * (k + 1)
    {
      var v := Rand();
      if width == 64 {
        var low := Rand();
        d := WordOf(low, 32) + WordOf(v, 32);
      } else {
        d := WordOf(v, width);
      }
    }

    method Get(ghost seed: Bits, ghost i: nat) returns (ret: Bits)
      requires At(seed, i)
      modifies this
      ensures At(seed, i + 1)
      ensures ret == Output(kind, rand, seed, i)
    {
      match kind {
        case WalkingOne =>
          ret := pattern;
          pattern := Shl(pattern);
          if pattern == Zeros(width) {
            pattern := Bit(width, 0);
          }
        case WalkingZero =>
          ret := Not(pattern);
          pattern := Shl(pattern);
          if pattern == Zeros(width) {
            pattern := Bit(width, 0);
          }
        case OwnAddress =>
          ret := pattern;
          pattern := Inc(pattern);
        case MovingInv =>
          ret := pattern;
          NotNot(seed);
          pattern := Not(pattern);
        case MovingInvRand =>
          if step % 2 == 0 {
            ret := FreshWord(i / 2);
            prev := ret;
          } else {
            ret := Not(prev);
          }
          step := step + 1;
      }
    }

    method GetType(ghost seed: Bits, ghost i: nat) returns (t: TestType)
      requires width >= 8 && At(seed, i + 1)
      ensures t == TypeAt(kind, seed, i)
    {
      match kind {
        case WalkingOne => t := WalkingOneTest;
        case WalkingZero => t := WalkingZeroTest;
        case OwnAddress => t := OwnAddressTest;
        case MovingInv => t := InversionType(pattern);
        case MovingInvRand => t := InversionRand;
      }
    }
  }

  // ----- What the sequences are --------------------------------------------------

  lemma NotNot(s: Bits)
    ensures Not(Not(s)) == s
  {
  }

  /** Word i of the walking-one sequence is 1 << (i mod w). */
  lemma {:induction false} WalkIsBit(w: nat, i: nat)
    requires w > 0
    ensures Walk(Bit(w, 0), i) == Bit(w, i % w)
    decreases i
  {
    if i > 0 {
      WalkIsBit(w, i - 1);
      var k := (i - 1) % w;
      NextMod(i - 1, w);
      ShlBit(w, k);
    } else {
      assert 0 % w == 0;
    }
  }

  lemma ShlBit(w: nat, k: nat)
    requires k < w
    ensures k + 1 < w ==> Shl(Bit(w, k)) == Bit(w, k + 1) && Bit(w, k + 1) != Zeros(w)
    ensures k + 1 == w ==> Shl(Bit(w, k)) == Zeros(w)
  {
    if k + 1 < w {
      assert Bit(w, k + 1)[k+1] && !Zeros(w)[k+1];
    }
  }

  lemma NextMod(i: nat, w: nat)
    requires w > 0
    ensures (i + 1) % w == if i % w + 1 == w then 0 else i % w + 1
  {
    var q, r := i / w, i % w;
    assert i == q * w + r;
    if r + 1 == w {
      assert i + 1 == (q + 1) * w;
      ModOfMultiple(q + 1, w, 0);
    } else {
      ModOfMultiple(q, w, r + 1);
    }
  }

  lemma ModOfMultiple(q: nat, w: nat, r: nat)
    requires r < w
    ensures (q * w + r) % w == r
  {
    var n := q * w + r;
    var e, f := n / w, n % w;
    assert n == e * w + f;
    MultipleGap(e, q, w);
    MultipleGap(q, e, w);
  }

  lemma {:induction false} IncValue(s: Bits)
    ensures ValueOf(s) < Pow2(|s|)
    ensures ValueOf(Inc(s)) == if ValueOf(s) + 1 == Pow2(|s|) then 0 else ValueOf(s) + 1
    decreases |s|
  {
    if s != [] {
      IncValue(s[1..]);
      assert Inc(s)[1..] == if s[0] then Inc(s[1..]) else s[1..];
    }
  }

  lemma {:induction false} ValueInjective(s: Bits, t: Bits)
    requires |s| == |t|
    ensures ValueOf(s) == ValueOf(t) <==> s == t
    decreases |s|
  {
    if s != [] {
      ValueInjective(s[1..], t[1..]);
      assert s == [s[0]] + s[1..] && t == [t[0]] + t[1..];
    }
  }

  lemma {:induction false} ZerosValue(w: nat)
    ensures ValueOf(Zeros(w)) == 0
  {
    if w > 0 {
      assert Zeros(w)[1..] == Zeros(w - 1);
      ZerosValue(w - 1);
    }
  }

  /** Word i of the own-address sequence is i, modulo 2^w. */
  lemma {:induction false} CountValue(w: nat, i: nat)
    ensures ValueOf(Count(Zeros(w), i)) == i % Pow2(w)
    decreases i
  {
    if i == 0 {
      ZerosValue(w);
      assert 0 % Pow2(w) == 0;
    } else {
      CountValue(w, i - 1);
      IncValue(Count(Zeros(w), i - 1));
      NextMod(i - 1, Pow2(w));
    }
  }

  /** The own-address sequence repeats exactly after 2^w words. */
  lemma CountRepeats(w: nat, i: nat, j: nat)
    ensures Count(Zeros(w), i) == Count(Zeros(w), j) <==> i % Pow2(w) == j % Pow2(w)
  {
    CountValue(w, i);
    CountValue(w, j);
    ValueInjective(Count(Zeros(w), i), Count(Zeros(w), j));
  }

  /** The two moving-inversion passes report their own type, at every word. */
  lemma InversionTypes(w: nat, i: nat)
    requires w >= 8
    ensures TypeAt(MovingInv, Zeros(w), i) == TypeAt(MovingInv, Ones(w), i) == InversionZero
    ensures TypeAt(MovingInv, Alternating(w), i) == TypeAt(MovingInv, Not(Alternating(w)), i) == Inversion55AA
  {
    assert Not(Zeros(w)) == Ones(w) && Not(Ones(w)) == Zeros(w);
    assert Ones(w)[..8] == Ones(8);
    assert Alternating(w)[0] && !Alternating(w)[1];
    assert !Not(Alternating(w))[0] && Not(Alternating(w))[1];
    assert Not(Not(Alternating(w))) == Alternating(w);
    forall p: Bits | |p| == w && p[0] != p[1] ensures InversionType(p) == Inversion55AA {
      assert p[..8][0] == p[0] && p[..8][1] == p[1];
    }
  }
}

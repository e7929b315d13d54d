/** The numbers behind the test patterns, and what the moving inversions find. */
module Inversion {
  import opened Gf2
  import opened Patterns
  import opened Memtest
  import opened Prelude

  // ----- Words as numbers --------------------------------------------------------

  /** The complement of a word is what it lacks to the greatest one. */
  lemma {:induction false} NotValue(s: Bits)
    ensures ValueOf(Not(s)) == Pow2(|s|) - 1 - ValueOf(s)
    decreases |s|
  {
    if s != [] {
      assert Not(s)[1..] == Not(s[1..]);
      NotValue(s[1..]);
    }
  }

  /** The low w bits of v are v modulo 2^w. */
  lemma {:induction false} WordValue(v: nat, w: nat)
    ensures ValueOf(WordOf(v, w)) == v % Pow2(w)
    decreases w
  {
    if w > 0 {
      WordValue(v / 2, w - 1);
      assert WordOf(v, w)[1..] == WordOf(v / 2, w - 1);
      HalfMod(v, Pow2(w - 1));
    }
  }

  lemma HalfMod(v: nat, m: nat)
    requires m > 0
    ensures v % (2 * m) == v % 2 + 2 * (v / 2 % m)
  {
    var q, r := v / 2 / m, v / 2 % m;
    assert v / 2 == q * m + r;
    assert v == q * (2 * m) + (2 * r + v % 2);
    ModOfMultiple(q, 2 * m, 2 * r + v % 2);
  }

  lemma {:induction false} ConcatValue(s: Bits, t: Bits)
    ensures ValueOf(s + t) == ValueOf(s) + Pow2(|s|) * ValueOf(t)
    decreases |s|
  {
    if s == [] {
      assert s + t == t;
    } else {
      ConcatValue(s[1..], t);
      assert (s + t)[1..] == s[1..] + t;
      Doubled(Pow2(|s| - 1), ValueOf(t));
    }
  }

  lemma Doubled(p: nat, v: nat)
    ensures 2 * p * v == 2 * (p * v)
  {
  }

  /** Two bits more of the alternating word. */
  lemma AlternatingStep(w: nat)
    ensures ValueOf(Alternating(w + 2)) == 4 * ValueOf(Alternating(w)) + 1
  {
    var a := Alternating(w + 2);
    assert a[1..][1..] == Alternating(w);
    assert a[0] && !a[1..][0];
  }

  lemma AlternatingByte(w: nat)
    ensures ValueOf(Alternating(w + 8)) == 0x100 * ValueOf(Alternating(w)) + 0x55
  {
    AlternatingStep(w);
    AlternatingStep(w + 2);
    AlternatingStep(w + 4);
    AlternatingStep(w + 6);
  }

  /** The alternating seed is 0x55 in every byte. */
  lemma AlternatingValue()
    ensures ValueOf(Alternating(8)) == 0x55 && ValueOf(Alternating(16)) == 0x5555
    ensures ValueOf(Alternating(32)) == 0x5555_5555 && ValueOf(Alternating(64)) == 0x5555_5555_5555_5555
  {
    assert Alternating(0) == [];
    AlternatingByte(0);
    AlternatingByte(8);
    AlternatingByte(16);
    AlternatingByte(24);
    AlternatingByte(32);
    AlternatingByte(40);
    AlternatingByte(48);
    AlternatingByte(56);
  }

  lemma {:induction false} BitValue(w: nat, k: nat)
    requires k < w
    ensures ValueOf(Bit(w, k)) == Pow2(k)
    decreases w
  {
    if k == 0 {
      assert Bit(w, 0)[1..] == Zeros(w - 1);
      ZerosValue(w - 1);
    } else {
      assert Bit(w, k)[1..] == Bit(w - 1, k - 1);
      BitValue(w - 1, k - 1);
    }
  }

  /** Random word k: below 64 bits call k of rand modulo 2^w; at 64 bits call 2k is the upper and
      call 2k + 1 the lower half. */
  lemma DrawValue(rand: (nat, nat) -> nat, start: nat, w: nat, k: nat)
    ensures w != 64 ==> ValueOf(Draw(rand, start, w, k)) == rand(start, k) % Pow2(w)
    ensures w == 64 ==>
      var upper, lower := rand(start, 2 * k) % 0x1_0000_0000, rand(start, 2 * k + 1) % 0x1_0000_0000;
      ValueOf(Draw(rand, start, w, k)) == upper * 0x1_0000_0000 + lower
  {
    if w == 64 {
      HalvesValue(rand(start, 2 * k), rand(start, 2 * k + 1));
    } else {
      WordValue(rand(start, k), w);
    }
  }

  lemma HalvesValue(upper: nat, lower: nat)
    ensures ValueOf(WordOf(lower, 32) + WordOf(upper, 32))
         == upper % 0x1_0000_0000 * 0x1_0000_0000 + lower % 0x1_0000_0000
  {
    Pow2Of32();
    WordValue(upper, 32);
    WordValue(lower, 32);
    ConcatValue(WordOf(lower, 32), WordOf(upper, 32));
  }

  lemma Pow2Of32()
    ensures Pow2(8) == 0x100 && Pow2(16) == 0x1_0000 && Pow2(32) == 0x1_0000_0000
  {
    assert Pow2(8) == 0x100;
    assert Pow2(12) == 0x1000;
    assert Pow2(16) == 0x1_0000;
    assert Pow2(20) == 0x10_0000;
    assert Pow2(24) == 0x100_0000;
    assert Pow2(28) == 0x1000_0000;
  }

  // ----- The inversion sequences -------------------------------------------------

  /** Word i of the moving inversion is the seed at even i and its complement at odd i; from the
      complement of the seed it is the complement throughout. */
  lemma InversionWords(rand: (nat, nat) -> nat, seed: Bits, i: nat, j: nat)
    requires seed != []
    ensures i % 2 == 0 ==> Output(MovingInv, rand, seed, i) == seed
    ensures i % 2 == 1 ==> ValueOf(Output(MovingInv, rand, seed, i)) == Pow2(|seed|) - 1 - ValueOf(seed)
    ensures Output(MovingInv, rand, seed, i) == Output(MovingInv, rand, seed, j) <==> i % 2 == j % 2
    ensures forall b :: 0 <= b < |seed| ==>
              Output(MovingInv, rand, Not(seed), i)[b] != Output(MovingInv, rand, seed, i)[b]
  {
    NotValue(seed);
    NotNot(seed);
    assert Not(seed)[0] != seed[0];
  }

  /** Every odd word of the random sequence is the complement of the fresh word before it. */
  lemma {:induction false} RandomComplement(rand: (nat, nat) -> nat, seed: Bits, i: nat)
    requires seed != [] && i % 2 == 0
    ensures var drawn := Draw(rand, ValueOf(seed), |seed|, i / 2);
      && Output(MovingInvRand, rand, seed, i) == drawn
      && Output(MovingInvRand, rand, seed, i + 1) == Not(drawn) != drawn
  {
    var drawn := Draw(rand, ValueOf(seed), |seed|, i / 2);
    assert (i + 1) / 2 == i / 2 && (i + 1) % 2 == 1;
    assert Not(drawn)[0] != drawn[0];
  }

  // ----- What they find ----------------------------------------------------------

  /** Two tested cells whose indices differ in parity share storage. */
  ghost predicate SharedOffParity(area: Area)
    requires area.Valid()
  {
    exists i, j :: 0 <= i < j < area.Cells() && area.alias[i] == area.alias[j] && i % 2 != j % 2
  }

  /** Without stuck bits a moving inversion finds the area faulty exactly then, from any seed. */
  lemma InversionExact(area: Area, rand: (nat, nat) -> nat, seed: Bits)
    requires area.Valid() && area.NothingStuck() && |seed| == area.width
    ensures Detects(area, Pass(MovingInv, seed), rand) <==> SharedOffParity(area)
  {
    var pass := Pass(MovingInv, seed);
    DetectsAliasing(area, pass, rand);
    forall i: nat, j: nat | i < area.Cells() && j < area.Cells()
      ensures Collide(area, pass, rand, i, j) <==> area.alias[i] == area.alias[j] && i % 2 != j % 2
    {
      InversionWords(rand, seed, i, j);
    }
  }

  /** The passes from a seed and from its complement together find the area faulty exactly if a
      tested cell has a stuck bit or two of different parity share storage. */
  lemma BothInversionsExact(area: Area, rand: (nat, nat) -> nat, seed: Bits)
    requires area.Valid() && |seed| == area.width
    ensures Detects(area, Pass(MovingInv, seed), rand) || Detects(area, Pass(MovingInv, Not(seed)), rand)
       <==> StuckSomewhere(area) || SharedOffParity(area)
  {
    if StuckSomewhere(area) {
      var c, b :| 0 <= c < area.Cells() && 0 <= b < area.width && area.stuck[area.alias[c]][b].Some?;
      InversionFindsStuck(area, rand, seed, c, b);
    } else {
      InversionExact(area, rand, seed);
      InversionExact(area, rand, Not(seed));
    }
  }

  /** Whatever else is wrong with the memory, one of the two passes finds a stuck bit. */
  lemma InversionFindsStuck(area: Area, rand: (nat, nat) -> nat, seed: Bits, c: nat, b: nat)
    requires area.Valid() && |seed| == area.width
    requires c < area.Cells() && b < area.width && area.stuck[area.alias[c]][b].Some?
    ensures Detects(area, Pass(MovingInv, seed), rand) || Detects(area, Pass(MovingInv, Not(seed)), rand)
  {
    var p, q := Pass(MovingInv, seed), Pass(MovingInv, Not(seed));
    var i := LastWriter(area.alias, area.Cells(), area.alias[c]);
    InversionWords(rand, seed, i, i);
    assert Expected(p, rand, i)[b] != Expected(q, rand, i)[b];
    assert ReadBack(area, p, rand, i)[b] == ReadBack(area, q, rand, i)[b];
    assert MismatchAt(area, p, rand, i) || MismatchAt(area, q, rand, i);
  }

  /** The random pass finds two neighbours, one fresh word and its complement, in the same
      storage, whatever rand gives. */
  lemma RandomFindsNeighbours(area: Area, rand: (nat, nat) -> nat, seed: Bits, i: nat)
    requires area.Valid() && |seed| == area.width
    requires i % 2 == 0 && i + 1 < area.Cells() && area.alias[i] == area.alias[i+1]
    ensures Detects(area, Pass(MovingInvRand, seed), rand)
  {
    RandomComplement(rand, seed, i);
    CollisionDetected(area, Pass(MovingInvRand, seed), rand, i, i + 1);
  }

  // ----- What is reported --------------------------------------------------------

  /** The report is of the least cell that does not read back: its index, its width in bytes, the
      word that was read and the word that was expected, both modulo 2^32. */
  lemma {:induction false} ReportSays(area: Area, pass: Pass, rand: (nat, nat) -> nat, cb: bool, r: Option<Report>)
    requires area.Valid() && |pass.seed| == area.width && RightReport(area, pass, rand, cb, r) && r.Some?
    ensures var i := r.value.index;
      && i < area.Cells() && r.value.bytes * 8 == area.width
      && ValueOf(r.value.got) == ValueOf(ReadBack(area, pass, rand, i)) % 0x1_0000_0000
      && ValueOf(r.value.want) == ValueOf(Output(pass.kind, rand, pass.seed, i)) % 0x1_0000_0000
      && forall j :: 0 <= j < i ==> !MismatchAt(area, pass, rand, j)
  {
    ReportFields(area, pass, rand, cb, r);
    var got, want := ReadBack(area, pass, rand, r.value.index), Expected(pass, rand, r.value.index);
    Word32Value(got);
    Word32Value(want);
  }

  lemma ReportFields(area: Area, pass: Pass, rand: (nat, nat) -> nat, cb: bool, r: Option<Report>)
    requires area.Valid() && |pass.seed| == area.width && RightReport(area, pass, rand, cb, r) && r.Some?
    ensures var i := r.value.index;
      && i < area.Cells() && r.value.bytes == area.width / 8
      && r.value.got == ToWord32(ReadBack(area, pass, rand, i))
      && r.value.want == ToWord32(Expected(pass, rand, i))
      && forall j :: 0 <= j < i ==> !MismatchAt(area, pass, rand, j)
  {
  }

  /** A stuck bit among the lowest 32 is reported as what it is stuck at. */
  lemma StuckBitShown(area: Area, pass: Pass, rand: (nat, nat) -> nat, cb: bool, r: Option<Report>, b: nat)
    requires area.Valid() && |pass.seed| == area.width && RightReport(area, pass, rand, cb, r) && r.Some?
    requires b < area.width && b < 32 && r.value.index < area.Cells()
    requires area.stuck[area.alias[r.value.index]][b].Some?
    ensures r.value.got[b] == area.stuck[area.alias[r.value.index]][b].value
  {
    ReportFields(area, pass, rand, cb, r);
    StuckBitRead(area, pass, rand, r.value.index, b);
  }

  /** A stuck bit is read as what it is stuck at. */
  lemma StuckBitRead(area: Area, pass: Pass, rand: (nat, nat) -> nat, i: nat, b: nat)
    requires area.Valid() && |pass.seed| == area.width && i < area.Cells()
    ensures b < area.width && b < 32 && area.stuck[area.alias[i]][b].Some? ==>
      ToWord32(ReadBack(area, pass, rand, i))[b] == area.stuck[area.alias[i]][b].value
  {
  }

  lemma Word32Value(v: Bits)
    ensures ValueOf(ToWord32(v)) == ValueOf(v) % 0x1_0000_0000
  {
    if |v| >= 32 {
      assert v == v[..32] + v[32..];
      LowHalf(v[..32], v[32..]);
    } else {
      Widened(v, 32 - |v|);
    }
  }

  lemma LowHalf(lo: Bits, hi: Bits)
    requires |lo| == 32
    ensures ValueOf(lo) == ValueOf(lo + hi) % 0x1_0000_0000
  {
    Pow2Of32();
    ConcatValue(lo, hi);
    ValueBelow(lo);
    ModOfMultiple(ValueOf(hi), 0x1_0000_0000, ValueOf(lo));
  }

  lemma Widened(v: Bits, k: nat)
    requires |v| + k == 32
    ensures ValueOf(v + Zeros(k)) == ValueOf(v) % 0x1_0000_0000
  {
    PadValue(v, k);
    ValueBelow(v);
    Pow2Grows(|v|, 32);
    Pow2Of32();
    assert ValueOf(v) < 0x1_0000_0000;
  }

  lemma {:induction false} PadValue(v: Bits, k: nat)
    ensures ValueOf(v + Zeros(k)) == ValueOf(v)
    decreases |v|
  {
    if v == [] {
      assert v + Zeros(k) == Zeros(k);
      ZerosValue(k);
    } else {
      assert (v + Zeros(k))[1..] == v[1..] + Zeros(k);
      PadValue(v[1..], k);
    }
  }

  lemma {:induction false} ValueBelow(s: Bits)
    ensures ValueOf(s) < Pow2(|s|)
    decreases |s|
  {
    if s != [] {
      ValueBelow(s[1..]);
    }
  }

  lemma {:induction false} Pow2Grows(m: nat, n: nat)
    requires m <= n
    ensures Pow2(m) <= Pow2(n)
    decreases n
  {
    if m < n {
      Pow2Grows(m, n - 1);
    }
  }
}

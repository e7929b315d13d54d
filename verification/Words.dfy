/** 32-bit words and the bits they stand for, most significant first. The program's shifts by a
    variable amount are written with One(k), the word 1 << k, so that every shift in a proof is
    by a constant. */
module Words {
  import opened Gf2

  /** The low n bits of x, most significant first. */
  function BitsOf(x: bv32, n: nat): (b: Bits)
    ensures |b| == n
  {
    if n == 0 then [] else BitsOf(x >> 1, n - 1) + [x & 1 == 1]
  }

  /** No bit of x at or above position n is set. */
  predicate Fits(x: bv32, n: nat)
  {
    if n == 0 then x == 0 else Fits(x >> 1, n - 1)
  }

  /** 1 << k. */
  function One(k: nat): bv32
    requires k < 32
  {
    if k == 0 then 0x00000001 else if k == 1 then 0x00000002 else if k == 2 then 0x00000004 else
    if k == 3 then 0x00000008 else if k == 4 then 0x00000010 else if k == 5 then 0x00000020 else
    if k == 6 then 0x00000040 else if k == 7 then 0x00000080 else if k == 8 then 0x00000100 else
    if k == 9 then 0x00000200 else if k == 10 then 0x00000400 else if k == 11 then 0x00000800 else
    if k == 12 then 0x00001000 else if k == 13 then 0x00002000 else if k == 14 then 0x00004000 else
    if k == 15 then 0x00008000 else if k == 16 then 0x00010000 else if k == 17 then 0x00020000 else
    if k == 18 then 0x00040000 else if k == 19 then 0x00080000 else if k == 20 then 0x00100000 else
    if k == 21 then 0x00200000 else if k == 22 then 0x00400000 else if k == 23 then 0x00800000 else
    if k == 24 then 0x01000000 else if k == 25 then 0x02000000 else if k == 26 then 0x04000000 else
    if k == 27 then 0x08000000 else if k == 28 then 0x10000000 else if k == 29 then 0x20000000 else
    if k == 30 then 0x40000000 else
    0x80000000
  }

  /** m is 1 << k, bit by bit. */
  predicate IsOne(m: bv32, k: nat)
  {
    if k == 0 then m == 1 else m & 1 == 0 && IsOne(m >> 1, k - 1)
  }

  lemma OneHalves(k: nat)
    requires 0 < k < 32
    ensures One(k) >> 1 == One(k - 1) && One(k) & 1 == 0
  {
  }

  lemma {:induction false} OneIsOne(k: nat)
    requires k < 32
    ensures IsOne(One(k), k)
  {
    if k > 0 {
      OneHalves(k);
      OneIsOne(k - 1);
    }
  }

  /** x << k. */
  function ShiftLeft(x: bv32, k: nat): bv32
  {
    if k == 0 then x else ShiftLeft(x, k - 1) << 1
  }

  /** The word with the low n bits set, as the program builds it. */
  function Mask(n: nat): bv32
    requires 1 <= n <= 32
  {
    One(n - 1) | (One(n - 1) - 1)
  }

  // ----- Facts about single words ------------------------------------------------
  // Each is plain bit-vector arithmetic; the inductions below only use them by name.

  lemma AndHalves(x: bv32, m: bv32)
    requires m & 1 == 0
    ensures (x & m != 0) == ((x >> 1) & (m >> 1) != 0)
  {
  }

  lemma AndOne(x: bv32)
    ensures (x & 1 != 0) == (x & 1 == 1)
  {
  }

  lemma BelowHalves(x: bv32, m: bv32)
    requires x < m && m & 1 == 0
    ensures x >> 1 < m >> 1
  {
  }

  lemma ZeroParts()
    ensures (0 as bv32) >> 1 == 0 && (0 as bv32) & 1 == 0
  {
  }

  lemma LeftThenRight(x: bv32)
    ensures (x << 1) >> 1 == x & 0x7fff_ffff && (x << 1) & 1 == 0
  {
  }

  lemma MaskParts(o: bv32)
    requires o & 1 == 0 && o != 0
    ensures (o | (o - 1)) >> 1 == (o >> 1) | ((o >> 1) - 1) && (o | (o - 1)) & 1 == 1
  {
  }

  lemma MaskedParts(x: bv32, m: bv32)
    requires m & 1 == 1
    ensures (x & m) >> 1 == (x >> 1) & (m >> 1) && (x & m) & 1 == x & 1
  {
  }

  // ----- Bits of the word operations ---------------------------------------------

  /** Word x is the half x' followed by the bit b. */
  predicate Splits(x: bv32, x': bv32, b: bool)
  {
    x' == x >> 1 && b == (x & 1 == 1)
  }

  lemma Unfold(x: bv32, x': bv32, b: bool, n: nat)
    requires n > 0 && Splits(x, x', b)
    ensures BitsOf(x, n) == BitsOf(x', n - 1) + [b]
    ensures Fits(x, n) == Fits(x', n - 1)
  {
  }

  lemma XorSplits(x: bv32, y: bv32) returns (x': bv32, y': bv32, b: bool, c: bool)
    ensures Splits(x, x', b) && Splits(y, y', c) && Splits(x ^ y, x' ^ y', b != c)
  {
    x', y', b, c := x >> 1, y >> 1, x & 1 == 1, y & 1 == 1;
  }

  lemma OrHalves(x: bv32, y: bv32)
    ensures (x | y) >> 1 == (x >> 1) | (y >> 1)
  {
  }

  lemma OrOdd(x: bv32, y: bv32)
    ensures ((x | y) & 1 == 1) == ((x & 1 == 1) || (y & 1 == 1))
  {
  }

  lemma OrSplits(x: bv32, y: bv32, x': bv32, y': bv32, b: bool, c: bool)
    requires Splits(x, x', b) && Splits(y, y', c)
    ensures Splits(x | y, x' | y', b || c)
  {
    OrHalves(x, y);
    OrOdd(x, y);
  }

  lemma {:induction false} BitsOfXor(x: bv32, y: bv32, n: nat)
    ensures BitsOf(x ^ y, n) == Xor(BitsOf(x, n), BitsOf(y, n))
    decreases n
  {
    if n == 0 {
      assert BitsOf(x ^ y, n) == Xor(BitsOf(x, n), BitsOf(y, n));
    } else {
      var x', y', b, c := XorSplits(x, y);
      BitsOfXor(x', y', n - 1);
      Unfold(x, x', b, n);
      Unfold(y, y', c, n);
      Unfold(x ^ y, x' ^ y', b != c, n);
      XorSnoc(BitsOf(x', n - 1), BitsOf(y', n - 1), b, c);
      assert BitsOf(x ^ y, n) == Xor(BitsOf(x, n), BitsOf(y, n));
    }
  }

  lemma XorSnoc(a: Bits, b: Bits, c: bool, d: bool)
    requires |a| == |b|
    ensures Xor(a + [c], b + [d]) == Xor(a, b) + [c != d]
  {
  }

  /** Disjunction of bit sequences. */
  function Or(a: Bits, b: Bits): (r: Bits)
    requires |a| == |b|
    ensures |r| == |a| && forall i :: 0 <= i < |r| ==> r[i] == (a[i] || b[i])
  {
    seq(|a|, i requires 0 <= i < |a| => a[i] || b[i])
  }

  lemma OrSnoc(a: Bits, b: Bits, c: bool, d: bool)
    requires |a| == |b|
    ensures Or(a + [c], b + [d]) == Or(a, b) + [c || d]
  {
  }

  lemma {:induction false} BitsOfOr(x: bv32, y: bv32, n: nat)
    ensures BitsOf(x | y, n) == Or(BitsOf(x, n), BitsOf(y, n))
    decreases n
  {
    if n == 0 {
      assert BitsOf(x | y, n) == Or(BitsOf(x, n), BitsOf(y, n));
    } else {
      var x', y', b, c := x >> 1, y >> 1, x & 1 == 1, y & 1 == 1;
      OrSplits(x, y, x', y', b, c);
      BitsOfOr(x', y', n - 1);
      Unfold(x, x', b, n);
      Unfold(y, y', c, n);
      Unfold(x | y, x' | y', b || c, n);
      OrSnoc(BitsOf(x', n - 1), BitsOf(y', n - 1), b, c);
      assert BitsOf(x | y, n) == Or(BitsOf(x, n), BitsOf(y, n));
    }
  }

  lemma {:induction false} BitsOfZero(n: nat)
    ensures BitsOf(0, n) == Zeros(n) && Fits(0, n)
  {
    if n > 0 {
      ZeroParts();
      BitsOfZero(n - 1);
      Unfold(0, 0, false, n);
    }
  }

  /** The n-bit word with only bit k set. */
  function Unit(n: nat, k: nat): (u: Bits)
    ensures |u| == n && forall i :: 0 <= i < n ==> u[i] == (i == n - 1 - k)
  {
    seq(n, i => i == n - 1 - k)
  }

  lemma {:induction false} BitsOfUnit(m: bv32, k: nat, n: nat)
    requires IsOne(m, k)
    ensures BitsOf(m, n) == Unit(n, k)
  {
    if n > 0 {
      var m' := m >> 1;
      if k == 0 {
        assert Splits(1, 0, true);
        Unfold(m, 0, true, n);
        BitsOfZero(n - 1);
        assert BitsOf(m, n) == Unit(n, k);
      } else {
        assert Splits(m, m', false);
        Unfold(m, m', false, n);
        BitsOfUnit(m', k - 1, n - 1);
        assert BitsOf(m, n) == Unit(n, k);
      }
    }
  }

  lemma BitsOfOne(k: nat, n: nat)
    requires k < 32
    ensures BitsOf(One(k), n) == Unit(n, k)
  {
    OneIsOne(k);
    BitsOfUnit(One(k), k, n);
  }

  /** The low m of the low n bits. */
  lemma {:induction false} BitsOfLow(x: bv32, n: nat, m: nat)
    requires m <= n
    ensures BitsOf(x, n)[n-m..] == BitsOf(x, m)
    decreases m
  {
    if m > 0 {
      var x', b := x >> 1, x & 1 == 1;
      Unfold(x, x', b, n);
      Unfold(x, x', b, m);
      BitsOfLow(x', n - 1, m - 1);
    }
  }

  lemma BitsOfHighOff(x: bv32, n: nat)
    requires n <= 31
    ensures BitsOf(x & 0x7fff_ffff, n) == BitsOf(x, n)
  {
    var top := HighBit(x);
    BitsOfXor(x, top, n);
    BitsOfHighBit(top, n);
    assert Xor(BitsOf(x, n), Zeros(n)) == BitsOf(x, n);
  }

  lemma HighBit(x: bv32) returns (top: bv32)
    ensures (top == 0 || top == 0x8000_0000) && x & 0x7fff_ffff == x ^ top
  {
    top := if x & 0x8000_0000 == 0 then 0 else 0x8000_0000;
  }

  lemma BitsOfHighBit(top: bv32, n: nat)
    requires n <= 31 && (top == 0 || top == 0x8000_0000)
    ensures BitsOf(top, n) == Zeros(n)
  {
    if top == 0 {
      BitsOfZero(n);
    } else {
      assert top == One(31);
      BitsOfOne(31, n);
      assert Unit(n, 31) == Zeros(n);
    }
  }

  lemma BitsOfShiftedLeft(x: bv32, n: nat)
    requires 1 <= n <= 32
    ensures BitsOf(x << 1, n) == BitsOf(x, n)[1..] + [false]
  {
    LeftThenRight(x);
    Unfold(x << 1, x & 0x7fff_ffff, false, n);
    BitsOfHighOff(x, n - 1);
    BitsOfLow(x, n, n - 1);
  }

  lemma {:induction false} BitsOfShiftLeft(x: bv32, k: nat, n: nat)
    requires k <= n <= 32
    ensures BitsOf(ShiftLeft(x, k), n) == BitsOf(x, n)[k..] + Zeros(k)
    decreases k
  {
    if k > 0 {
      BitsOfShiftLeft(x, k - 1, n);
      BitsOfShiftedLeft(ShiftLeft(x, k - 1), n);
      ShiftSnoc(BitsOf(x, n), k);
    }
  }

  lemma ShiftSnoc(b: Bits, k: nat)
    requires 0 < k <= |b|
    ensures (b[k-1..] + Zeros(k - 1))[1..] + [false] == b[k..] + Zeros(k)
  {
  }

  /** The test for the top bit of an n-bit register, where m is 1 << (n - 1). */
  lemma {:induction false} TopBit(x: bv32, m: bv32, n: nat)
    requires n > 0 && IsOne(m, n - 1)
    ensures (x & m != 0) == BitsOf(x, n)[0]
    decreases n
  {
    var x', m', b := x >> 1, m >> 1, x & 1 == 1;
    Unfold(x, x', b, n);
    if n == 1 {
      AndOne(x);
      assert (x & m != 0) == BitsOf(x, n)[0];
    } else {
      AndHalves(x, m);
      TopBit(x', m', n - 1);
      assert (x & m != 0) == BitsOf(x, n)[0];
    }
  }

  // ----- Words that fit ----------------------------------------------------------

  lemma {:induction false} FitsWider(x: bv32, n: nat, m: nat)
    requires Fits(x, n) && n <= m
    ensures Fits(x, m)
    decreases m
  {
    if n == 0 {
      BitsOfZero(m);
    } else {
      var x', b := x >> 1, x & 1 == 1;
      Unfold(x, x', b, n);
      Unfold(x, x', b, m);
      FitsWider(x', n - 1, m - 1);
    }
  }

  lemma {:induction false} FitsXor(x: bv32, y: bv32, n: nat)
    requires Fits(x, n) && Fits(y, n)
    ensures Fits(x ^ y, n)
    decreases n
  {
    if n == 0 {
      assert x ^ y == 0;
    } else {
      var x', y', b, c := XorSplits(x, y);
      Unfold(x, x', b, n);
      Unfold(y, y', c, n);
      FitsXor(x', y', n - 1);
      Unfold(x ^ y, x' ^ y', b != c, n);
    }
  }

  /** Shifting right within n bits. */
  lemma ShiftedRight(x: bv32, x': bv32, n: nat)
    requires n > 0 && Fits(x, n) && x' == x >> 1
    ensures Fits(x', n)
    ensures BitsOf(x', n) == [false] + BitsOf(x, n)[..n-1]
  {
    Unfold(x, x', x & 1 == 1, n);
    TopOff(x', n - 1);
    FitsWider(x', n - 1, n);
    assert BitsOf(x, n)[..n-1] == BitsOf(x', n - 1);
  }

  lemma {:induction false} TopOff(x: bv32, n: nat)
    requires Fits(x, n)
    ensures BitsOf(x, n + 1) == [false] + BitsOf(x, n)
    decreases n
  {
    if n == 0 {
      BitsOfZero(1);
      assert BitsOf(x, n + 1) == [false] + BitsOf(x, n);
    } else {
      var x', b := x >> 1, x & 1 == 1;
      Unfold(x, x', b, n);
      Unfold(x, x', b, n + 1);
      TopOff(x', n - 1);
      assert BitsOf(x, n + 1) == [false] + BitsOf(x, n);
    }
  }

  lemma {:induction false} BelowOneFits(x: bv32, m: bv32, n: nat)
    requires IsOne(m, n) && x < m
    ensures Fits(x, n)
    decreases n
  {
    if n > 0 {
      var x', m' := x >> 1, m >> 1;
      BelowHalves(x, m);
      BelowOneFits(x', m', n - 1);
      Unfold(x, x', x & 1 == 1, n);
    }
  }

  lemma AllFit(x: bv32)
    ensures Fits(x, 32)
  {
    var x' := x >> 1;
    assert x' < 0x8000_0000;
    OneIsOne(31);
    BelowOneFits(x', 0x8000_0000, 31);
    Unfold(x, x', x & 1 == 1, 32);
  }

  // ----- Masks -------------------------------------------------------------------

  /** m has exactly the low n bits set. */
  predicate IsMask(m: bv32, n: nat)
  {
    if n == 0 then m == 0 else m & 1 == 1 && IsMask(m >> 1, n - 1)
  }

  lemma {:induction false} MaskOfOne(o: bv32, m: bv32, n: nat)
    requires n > 0 && IsOne(o, n - 1) && m == o | (o - 1)
    ensures IsMask(m, n)
    decreases n
  {
    var m', o' := m >> 1, o >> 1;
    if n == 1 {
      assert m == 1;
      ZeroParts();
      assert IsMask(m', 0);
    } else {
      OneNonZero(o, n - 1);
      MaskParts(o);
      MaskOfOne(o', m', n - 1);
    }
  }

  lemma {:induction false} OneNonZero(o: bv32, k: nat)
    requires IsOne(o, k)
    ensures o != 0
  {
    if o == 0 && k > 0 {
      ZeroParts();
      OneNonZero(0, k - 1);
    }
  }

  lemma MaskIsMask(n: nat)
    requires 1 <= n <= 32
    ensures IsMask(Mask(n), n)
  {
    OneIsOne(n - 1);
    MaskOfOne(One(n - 1), Mask(n), n);
  }

  /** Words that fit in n bits are determined by those bits. */
  lemma {:induction false} FitsEqual(x: bv32, y: bv32, n: nat)
    requires Fits(x, n) && Fits(y, n) && BitsOf(x, n) == BitsOf(y, n)
    ensures x == y
    decreases n
  {
    if n > 0 {
      var x', y', b, c := x >> 1, y >> 1, x & 1 == 1, y & 1 == 1;
      Unfold(x, x', b, n);
      Unfold(y, y', c, n);
      SnocEqual(BitsOf(x', n - 1), BitsOf(y', n - 1), b, c);
      FitsEqual(x', y', n - 1);
      SplitsEqual(x, y, x', b);
    }
  }

  lemma SplitsEqual(x: bv32, y: bv32, x': bv32, b: bool)
    requires Splits(x, x', b) && Splits(y, x', b)
    ensures x == y
  {
  }

  lemma SnocEqual(a: Bits, b: Bits, c: bool, d: bool)
    requires a + [c] == b + [d]
    ensures a == b && c == d
  {
    assert a == (a + [c])[..|a|] && b == (b + [d])[..|b|];
    assert c == (a + [c])[|a|] && d == (b + [d])[|b|];
  }

  /** Masking keeps the low bits and clears the rest. */
  lemma {:induction false} BitsOfMasked(x: bv32, m: bv32, n: nat)
    requires IsMask(m, n)
    ensures BitsOf(x & m, n) == BitsOf(x, n) && Fits(x & m, n)
    decreases n
  {
    if n == 0 {
      AndZero(x, m);
      BitsOfZero(0);
      assert BitsOf(x & m, n) == BitsOf(x, n) && Fits(x & m, n);
    } else {
      var x', m', b := x >> 1, m >> 1, x & 1 == 1;
      MaskedSplits(x, m, x', m', b);
      BitsOfMasked(x', m', n - 1);
      Unfold(x, x', b, n);
      Unfold(x & m, x' & m', b, n);
      assert BitsOf(x & m, n) == BitsOf(x, n) && Fits(x & m, n);
    }
  }

  lemma AndZero(x: bv32, m: bv32)
    requires m == 0
    ensures x & m == 0
  {
  }

  lemma MaskedSplits(x: bv32, m: bv32, x': bv32, m': bv32, b: bool)
    requires Splits(x, x', b) && m & 1 == 1 && m' == m >> 1
    ensures Splits(x & m, x' & m', b)
  {
    MaskedParts(x, m);
  }
}

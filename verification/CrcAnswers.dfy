/** What CRCs mean for bytes: the order in which bits enter, and the word that is reported. */
module CrcAnswers {
  import opened Prelude
  import opened Gf2
  import opened Words
  import opened Crc
  import opened CrcProperties

  // ----- The bits of a message ---------------------------------------------------

  /** Bit k of a word: the low bit of x >> k, shifted bit by bit. */
  predicate BitOf(x: bv32, k: nat)
  {
    if k == 0 then x & 1 == 1 else BitOf(x >> 1, k - 1)
  }

  lemma {:induction false} BitsAt(x: bv32, n: nat, k: nat)
    requires k < n
    ensures BitsOf(x, n)[n-1-k] == BitOf(x, k)
    decreases k
  {
    var x', b := x >> 1, x & 1 == 1;
    Unfold(x, x', b, n);
    if k > 0 {
      BitsAt(x', n - 1, k - 1);
    }
  }

  /** The bits of byte i come in from its lowest to its highest if the data are reflected, and
      from its highest to its lowest if not. */
  lemma {:induction false} MessageBit(config: CrcConfig, buf: seq<bv8>, i: nat, j: nat)
    requires i < |buf| && j < 8
    ensures config.Message(buf)[8*i+j] == BitOf(buf[i] as bv32, if config.reflectData then j else 7 - j)
    decreases |buf|
  {
    var n := |buf| - 1;
    var m, d := config.Message(buf[..n]), config.ByteBits(buf[n]);
    assert config.Message(buf) == m + d && |m| == 8 * n;
    if i == n {
      ByteBit(config, buf[n], j);
      assert (m + d)[8*n+j] == d[j];
    } else {
      MessageBit(config, buf[..n], i, j);
      assert (m + d)[8*i+j] == m[8*i+j];
    }
  }

  lemma ByteBit(config: CrcConfig, b: bv8, j: nat)
    requires j < 8
    ensures config.ByteBits(b)[j] == BitOf(b as bv32, if config.reflectData then j else 7 - j)
  {
    BitsAt(b as bv32, 8, if config.reflectData then j else 7 - j);
  }

  /** The number whose binary digits are m, the highest first. */
  function NumberOf(m: Bits): nat
  {
    if m == [] then 0 else 2 * NumberOf(m[..|m|-1]) + if m[|m|-1] then 1 else 0
  }

  /** The number whose digits to the base 256 are the bytes, the highest first. */
  function BigEndian(buf: seq<bv8>): nat
  {
    if buf == [] then 0 else 256 * BigEndian(buf[..|buf|-1]) + buf[|buf|-1] as nat
  }

  /** Without reflection the message polynomial is the big-endian number of the buffer. */
  lemma {:induction false} MessageNumber(config: CrcConfig, buf: seq<bv8>)
    requires !config.reflectData
    ensures NumberOf(config.Message(buf)) == BigEndian(buf)
    decreases |buf|
  {
    if buf != [] {
      var n := |buf| - 1;
      MessageNumber(config, buf[..n]);
      ByteNumber(buf[n]);
      EightMore(config.Message(buf[..n]), BitsOf(buf[n] as bv32, 8));
    }
  }

  lemma EightMore(m: Bits, d: Bits)
    requires |d| == 8
    ensures NumberOf(m + d) == 256 * NumberOf(m) + NumberOf(d)
  {
    var hi, lo := d[..4], d[4..];
    assert d == hi + lo && m + d == (m + hi) + lo;
    FourMore(m, hi);
    FourMore(m + hi, lo);
    FourMore(hi, lo);
  }

  lemma FourMore(m: Bits, d: Bits)
    requires |d| == 4
    ensures NumberOf(m + d) == 16 * NumberOf(m) + NumberOf(d)
  {
    NumberSnoc(m, d, 1);
    NumberSnoc(m, d, 2);
    NumberSnoc(m, d, 3);
    NumberSnoc(m, d, 4);
    assert d[..4] == d && m + d[..0] == m && d[..0] == [];
  }

  lemma {:induction false} NumberSnoc(m: Bits, d: Bits, k: nat)
    requires 0 < k <= |d|
    ensures NumberOf(m + d[..k]) == 2 * NumberOf(m + d[..k-1]) + if d[k-1] then 1 else 0
    ensures NumberOf(d[..k]) == 2 * NumberOf(d[..k-1]) + if d[k-1] then 1 else 0
  {
    assert (m + d[..k])[..|m|+k-1] == m + d[..k-1] && d[..k][..k-1] == d[..k-1];
  }

  lemma ByteNumber(b: bv8)
    ensures NumberOf(BitsOf(b as bv32, 8)) == b as nat
  {
    ByteFits(b);
    BitsNumber(b, 8);
  }

  lemma {:induction false} BitsNumber(x: bv8, n: nat)
    requires Fits(x as bv32, n)
    ensures NumberOf(BitsOf(x as bv32, n)) == x as nat
    decreases n
  {
    if n == 0 {
      ZeroByte(x);
    } else {
      HalvedByte(x);
      Unfold(x as bv32, (x >> 1) as bv32, x & 1 == 1, n);
      BitsNumber(x >> 1, n - 1);
    }
  }

  lemma ZeroByte(x: bv8)
    requires x as bv32 == 0
    ensures x as nat == 0
  {
  }

  lemma HalvedByte(x: bv8)
    ensures Splits(x as bv32, (x >> 1) as bv32, x & 1 == 1)
    ensures x as nat == 2 * ((x >> 1) as nat) + (if x & 1 == 1 then 1 else 0)
  {
  }

  // ----- The reported word -------------------------------------------------------

  /** A register that is not reflected is reported by one exclusive-or with the final value, cut
      to the register's width. */
  lemma PlainReport(config: CrcConfig, crc0: bv32, buf: seq<bv8>, crc: bv32, r: bv32)
    requires config.Valid() && Continues(config, crc0, buf, crc, r)
    requires config.table.Some? || !config.reflectRemainder
    ensures r == (crc ^ config.finalVal) & Mask(config.polySize)
  {
    var n := config.polySize;
    MaskIsMask(n);
    MaskedReport(crc, config.finalVal, r, Mask(n), n);
  }

  lemma MaskedReport(out: bv32, f: bv32, r: bv32, mask: bv32, n: nat)
    requires IsMask(mask, n) && Fits(r, n) && BitsOf(r, n) == Xor(BitsOf(out, n), BitsOf(f, n))
    ensures r == (out ^ f) & mask
  {
    FinishBits(out, f, mask, n);
    FitsEqual(r, (out ^ f) & mask, n);
  }

  /** A register that is reflected is reported with its low n bits in the opposite order. */
  lemma {:induction false} ReflectedReport(config: CrcConfig, crc0: bv32, buf: seq<bv8>, crc: bv32, r: bv32, i: nat)
    requires config.Valid() && Continues(config, crc0, buf, crc, r) && i < config.polySize
    requires config.table.None? && config.reflectRemainder
    ensures var n := config.polySize;
      BitsOf(r, n)[i] == (BitsOf(crc, n)[n-1-i] != BitsOf(config.finalVal, n)[i])
  {
    var n := config.polySize;
    ReversedSumAt(BitsOf(crc, n), BitsOf(config.finalVal, n), BitsOf(r, n), i);
  }

  lemma ReversedSumAt(c: Bits, f: Bits, r: Bits, i: nat)
    requires |c| == |f| == |r| && i < |c| && r == Xor(Reverse(c), f)
    ensures r[i] == (c[|c|-1-i] != f[i])
  {
  }

  /** The CRC of the single bit 1 is the polynomial: from a zero register, the byte whose last bit
      to enter is set leaves the polynomial in the low n bits. */
  lemma SingleBit(config: CrcConfig, crc: bv32, r: bv32)
    requires config.Valid() && config.table.None?
    requires Continues(config, 0, [if config.reflectData then 0x80 else 0x01], crc, r)
    ensures BitsOf(crc, config.polySize) == BitsOf(config.poly, config.polySize)
    ensures !config.reflectRemainder ==> r == (config.poly ^ config.finalVal) & Mask(config.polySize)
  {
    var n, b: bv8 := config.polySize, if config.reflectData then 0x80 else 0x01;
    SingleBitMessage(config, b);
    BitsOfZero(n);
    OneIn(config.Generator());
    if !config.reflectRemainder {
      MaskIsMask(n);
      MaskedReport(config.poly, config.finalVal, r, Mask(n), n);
    }
  }

  lemma SingleBitMessage(config: CrcConfig, b: bv8)
    requires b == if config.reflectData then 0x80 else 0x01
    ensures config.Message([b]) == Zeros(7) + [true]
  {
    SingleBitByte(config, b);
    assert [b][..0] == [] && config.Message([]) == [];
    assert config.Message([b]) == [] + config.ByteBits(b);
  }

  lemma SingleBitByte(config: CrcConfig, b: bv8)
    requires b == if config.reflectData then 0x80 else 0x01
    ensures config.ByteBits(b) == Zeros(7) + [true]
  {
    BitsOfOne(0, 8);
    BitsOfOne(7, 8);
    assert b as bv32 == One(if config.reflectData then 7 else 0);
  }

  lemma {:induction false} OneIn(g: Bits)
    requires |g| > 0
    ensures Run(Zeros(|g|), g, Zeros(7) + [true]) == g
  {
    var z := Zeros(|g|);
    RunConcat(z, g, Zeros(7), [true]);
    ZerosStay(g, 7);
    assert [true][1..] == [];
    assert Run(z, g, [true]) == Run(Step(z, g, true), g, []) == Step(z, g, true) == g;
  }

  lemma {:induction false} ZerosStay(g: Bits, k: nat)
    requires |g| > 0
    ensures Run(Zeros(|g|), g, Zeros(k)) == Zeros(|g|)
  {
    var z := Zeros(|g|);
    if k > 0 {
      assert Step(z, g, false) == z && Zeros(k)[1..] == Zeros(k - 1);
      ZerosStay(g, k - 1);
    }
  }
}

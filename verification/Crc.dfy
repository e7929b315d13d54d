/** The software CRC driver: a byte-table engine and a bit-at-a-time engine for any generator of
    degree 8 to 32, with optional reflection and a running state. */
module Crc {
  import opened Gf2
  import opened Prelude
  import opened Words

  datatype CrcConfig = CrcConfig(
    polySize: nat,
    poly: bv32,
    initialVal: bv32,
    finalVal: bv32,
    reflectData: bool,
    reflectRemainder: bool,
    table: Option<seq<bv32>>)
  {
    predicate Valid()
    {
      8 <= polySize <= 32 && (table.Some? ==> |table.value| == 256)
    }

    /** The generator without its leading term. */
    function Generator(): (g: Bits)
      ensures |g| == polySize
    {
      BitsOf(poly, polySize)
    }

    /** The order in which a byte's bits enter the register. */
    function ByteBits(b: bv8): (d: Bits)
      ensures |d| == 8
    {
      if reflectData then Reverse(BitsOf(b as bv32, 8)) else BitsOf(b as bv32, 8)
    }

    /** The message polynomial of a buffer. */
    function Message(buf: seq<bv8>): (m: Bits)
      ensures |m| == 8 * |buf|
    {
      if buf == [] then [] else Message(buf[..|buf|-1]) + ByteBits(buf[|buf|-1])
    }

    /** What a register with bits r is reported as. */
    function Report(r: Bits): (d: Bits)
      requires |r| == polySize
      ensures |d| == polySize
    {
      Xor(if reflectRemainder then Reverse(r) else r, BitsOf(finalVal, polySize))
    }

    lemma {:induction false} MessageConcat(a: seq<bv8>, b: seq<bv8>)
      ensures Message(a + b) == Message(a) + Message(b)
      decreases |b|
    {
      if b == [] {
        assert a + b == a;
      } else {
        var b' := b[..|b|-1];
        assert (a + b)[..|a + b|-1] == a + b';
        MessageConcat(a, b');
        ConcatAssociative(Message(a), Message(b'), ByteBits(b[|b|-1]));
      }
    }
  }

  lemma ConcatAssociative(a: Bits, b: Bits, c: Bits)
    ensures (a + b) + c == a + (b + c)
  {
  }

  // ----- reflect -----------------------------------------------------------------

  /** The first k bits of the reversal of b, the rest clear. */
  function RevPart(b: Bits, k: nat): (r: Bits)
    requires k <= |b|
    ensures |r| == |b| && forall j :: 0 <= j < |b| ==> r[j] == (j < k && b[|b|-1-j])
  {
    seq(|b|, j requires 0 <= j < |b| => j < k && b[|b|-1-j])
  }

  lemma RevPartEnds(b: Bits)
    ensures RevPart(b, 0) == Zeros(|b|) && RevPart(b, |b|) == Reverse(b) && b[..|b|] == b
  {
  }

  method Reflect(data: bv32, nBits: nat) returns (reflection: bv32)
    requires nBits <= 32
    ensures BitsOf(reflection, nBits) == Reverse(BitsOf(data, nBits))
  {
    reflection := 0;
    var d := data;
    ghost var b := BitsOf(data, nBits);
    BitsOfZero(nBits);
    RevPartEnds(b);
    for bit := 0 to nBits
      invariant BitsOf(d, nBits - bit) == b[..nBits-bit]
      invariant BitsOf(reflection, nBits) == RevPart(b, bit)
    {
      var d', reflection' := ReflectOne(d, reflection, nBits - 1 - bit, b, bit);
      d, reflection := d', reflection';
    }
  }

  /** One turn of the loop. */
  method ReflectOne(d: bv32, r: bv32, k: nat, ghost b: Bits, ghost bit: nat) returns (d': bv32, r': bv32)
    requires bit < |b| <= 32 && k == |b| - 1 - bit
    requires BitsOf(d, k + 1) == b[..k+1] && BitsOf(r, |b|) == RevPart(b, bit)
    ensures BitsOf(d', k) == b[..k] && BitsOf(r', |b|) == RevPart(b, bit + 1)
  {
    var odd, o := d & 1 == 1, One(k);
    d' := d >> 1;
    r' := if odd then r | o else r;
    ReflectShift(d, d', odd, b, k + 1);
    RevPartSet(b, bit);
    if odd {
      ReflectSet(r, o, b, k, bit);
    }
  }

  lemma ReflectShift(d: bv32, d': bv32, odd: bool, b: Bits, m: nat)
    requires 0 < m <= |b| && Splits(d, d', odd)
    requires BitsOf(d, m) == b[..m]
    ensures BitsOf(d', m - 1) == b[..m-1] && odd == b[m-1]
  {
    Unfold(d, d', odd, m);
    assert b[..m] == b[..m-1] + [b[m-1]];
    SnocEqual(BitsOf(d', m - 1), b[..m-1], odd, b[m-1]);
  }

  lemma ReflectSet(reflection: bv32, o: bv32, b: Bits, k: nat, bit: nat)
    requires bit < |b| <= 32 && k == |b| - 1 - bit && o == One(k)
    requires BitsOf(reflection, |b|) == RevPart(b, bit) && b[k]
    ensures BitsOf(reflection | o, |b|) == RevPart(b, bit + 1)
  {
    BitsOfOr(reflection, o, |b|);
    BitsOfOne(k, |b|);
    RevPartSet(b, bit);
  }

  lemma RevPartSet(b: Bits, bit: nat)
    requires bit < |b|
    ensures b[|b|-1-bit] ==> Or(RevPart(b, bit), Unit(|b|, |b| - 1 - bit)) == RevPart(b, bit + 1)
    ensures !b[|b|-1-bit] ==> RevPart(b, bit) == RevPart(b, bit + 1)
  {
  }

  // ----- The bit-at-a-time engine ------------------------------------------------

  /** One modulo-2 division step on the word is one step of the shift register, whatever the
      bits above the register hold. */
  method DivideBit(crc0: bv32, poly: bv32, n: nat) returns (crc: bv32)
    requires 1 <= n <= 32
    ensures BitsOf(crc, n) == Step(BitsOf(crc0, n), BitsOf(poly, n), false)
  {
    var top, shifted := One(n - 1), crc0 << 1;
    OneIsOne(n - 1);
    TopBit(crc0, top, n);
    BitsOfShiftedLeft(crc0, n);
    if crc0 & top != 0 {
      crc := shifted ^ poly;
      DivideOn(BitsOf(crc0, n), shifted, poly, n);
    } else {
      crc := shifted;
      StepCases(BitsOf(crc0, n), BitsOf(poly, n));
    }
  }

  lemma DivideOn(r: Bits, shifted: bv32, poly: bv32, n: nat)
    requires |r| == n > 0 && r[0] && BitsOf(shifted, n) == r[1..] + [false]
    ensures BitsOf(shifted ^ poly, n) == Step(r, BitsOf(poly, n), false)
  {
    BitsOfXor(shifted, poly, n);
    StepCases(r, BitsOf(poly, n));
  }

  /** The inner loop: eight zero bits go in. */
  method DivideByte(crc0: bv32, poly: bv32, n: nat) returns (crc: bv32)
    requires 1 <= n <= 32
    ensures BitsOf(crc, n) == Run(BitsOf(crc0, n), BitsOf(poly, n), Zeros(8))
  {
    crc := crc0;
    var bit := 8;
    ghost var r, g := BitsOf(crc, n), BitsOf(poly, n);
    ghost var divided := Run(r, g, Zeros(8));
    while bit > 0
      invariant 0 <= bit <= 8
      invariant r == BitsOf(crc, n) && |r| == n && Run(r, g, Zeros(bit)) == divided
    {
      RunZero(r, g, bit);
      crc := DivideBit(crc, poly, n);
      r := Step(r, g, false);
      bit := bit - 1;
    }
  }

  lemma RunZero(r: Bits, g: Bits, k: nat)
    requires |r| == |g| > 0 && k > 0
    ensures Run(r, g, Zeros(k)) == Run(Step(r, g, false), g, Zeros(k - 1))
  {
    assert Zeros(k)[1..] == Zeros(k - 1);
  }

  /** Brings one byte into the remainder and divides. */
  method ByteStep(crc0: bv32, data0: bv8, config: CrcConfig) returns (crc: bv32)
    requires config.Valid()
    ensures BitsOf(crc, config.polySize)
         == Run(BitsOf(crc0, config.polySize), config.Generator(), config.ByteBits(data0))
  {
    var n := config.polySize;
    var data: bv32 := data0 as bv32;
    if config.reflectData {
      data := Reflect(data, 8);
    }
    assert BitsOf(data, 8) == config.ByteBits(data0);
    var shifted := ShiftLeft(data, n - 8);
    Preload(crc0, data, shifted, n, config.Generator());
    crc := DivideByte(crc0 ^ shifted, config.poly, n);
  }

  lemma Preload(crc: bv32, data: bv32, shifted: bv32, n: nat, g: Bits)
    requires 8 <= n <= 32 && |g| == n && shifted == ShiftLeft(data, n - 8)
    ensures Run(BitsOf(crc ^ shifted, n), g, Zeros(8)) == Run(BitsOf(crc, n), g, BitsOf(data, 8))
  {
    BitsOfXor(crc, shifted, n);
    ShiftedByte(data, n);
    PreloadBits(BitsOf(crc, n), BitsOf(shifted, n), BitsOf(crc ^ shifted, n), BitsOf(data, 8), g);
  }

  lemma PreloadBits(r: Bits, s: Bits, p: Bits, d: Bits, g: Bits)
    requires |r| == |s| == |g| >= 8 && |d| == 8 && s == d + Zeros(|g| - 8) && p == Xor(r, s)
    ensures Run(p, g, Zeros(8)) == Run(r, g, d)
  {
    RunPreloaded(r, g, d);
  }

  lemma ShiftedByte(data: bv32, n: nat)
    requires 8 <= n <= 32
    ensures BitsOf(ShiftLeft(data, n - 8), n) == BitsOf(data, 8) + Zeros(n - 8)
  {
    BitsOfShiftLeft(data, n - 8, n);
    BitsOfLow(data, n, 8);
  }

  // ----- The table engine --------------------------------------------------------

  /** The low byte of the running value after the next data byte is added in. */
  function TableIndex(crc: bv32, data: bv8): bv8
  {
    ((crc ^ (data as bv32)) & 0xFF) as bv8
  }

  function TableStep(table: seq<bv32>, crc: bv32, data: bv8): bv32
    requires |table| == 256
  {
    table[TableIndex(crc, data) as nat] ^ (crc >> 8)
  }

  function TableRun(table: seq<bv32>, crc: bv32, buf: seq<bv8>): bv32
    requires |table| == 256
  {
    if buf == [] then crc else TableStep(table, TableRun(table, crc, buf[..|buf|-1]), buf[|buf|-1])
  }

  method RunTable(table: seq<bv32>, crc0: bv32, buf: seq<bv8>) returns (crc: bv32)
    requires |table| == 256
    ensures crc == TableRun(table, crc0, buf)
  {
    crc := crc0;
    for i := 0 to |buf|
      invariant crc == TableRun(table, crc0, buf[..i])
    {
      assert buf[..i+1][..i] == buf[..i];
      var idx := TableIndex(crc, buf[i]);
      crc := table[idx as nat] ^ (crc >> 8);
    }
    assert buf[..|buf|] == buf;
  }

  method RunBits(config: CrcConfig, crc0: bv32, buf: seq<bv8>) returns (crc: bv32)
    requires config.Valid()
    ensures BitsOf(crc, config.polySize)
         == Run(BitsOf(crc0, config.polySize), config.Generator(), config.Message(buf))
  {
    crc := crc0;
    for i := 0 to |buf|
      invariant BitsOf(crc, config.polySize)
             == Run(BitsOf(crc0, config.polySize), config.Generator(), config.Message(buf[..i]))
    {
      assert buf[..i+1][..i] == buf[..i];
      RunConcat(BitsOf(crc0, config.polySize), config.Generator(), config.Message(buf[..i]), config.ByteBits(buf[i]));
      crc := ByteStep(crc, buf[i], config);
    }
    assert buf[..|buf|] == buf;
  }

  // ----- The reported value ------------------------------------------------------

  method ReflectRegister(config: CrcConfig, crc: bv32) returns (out: bv32)
    requires config.Valid()
    ensures Xor(BitsOf(out, config.polySize), BitsOf(config.finalVal, config.polySize))
         == config.Report(BitsOf(crc, config.polySize))
  {
    out := crc;
    if config.reflectRemainder {
      out := Reflect(crc, config.polySize);
    }
  }

  method Finish(out: bv32, finalVal: bv32, n: nat) returns (r: bv32)
    requires 1 <= n <= 32
    ensures Fits(r, n) && BitsOf(r, n) == Xor(BitsOf(out, n), BitsOf(finalVal, n))
  {
    var mask := Mask(n);
    MaskIsMask(n);
    FinishBits(out, finalVal, mask, n);
    r := (out ^ finalVal) & mask;
  }

  lemma FinishBits(out: bv32, f: bv32, mask: bv32, n: nat)
    requires IsMask(mask, n)
    ensures Fits((out ^ f) & mask, n)
    ensures BitsOf((out ^ f) & mask, n) == Xor(BitsOf(out, n), BitsOf(f, n))
  {
    BitsOfXor(out, f, n);
    BitsOfMasked(out ^ f, mask, n);
  }

  /** What one calculation over buf does to a register that holds crc0: it leaves crc there and
      reports r. The register itself is kept unreflected and without the final value. */
  ghost predicate Continues(config: CrcConfig, crc0: bv32, buf: seq<bv8>, crc: bv32, r: bv32)
    requires config.Valid()
  {
    var n := config.polySize;
    && Fits(r, n)
    && match config.table
       case Some(table) =>
         && crc == TableRun(table, crc0, buf)
         && BitsOf(r, n) == Xor(BitsOf(crc, n), BitsOf(config.finalVal, n))
       case None =>
         && BitsOf(crc, n) == Run(BitsOf(crc0, n), config.Generator(), config.Message(buf))
         && BitsOf(r, n) == config.Report(BitsOf(crc, n))
  }

  method CalcByTable(config: CrcConfig, crc0: bv32, buf: seq<bv8>) returns (crc: bv32, r: bv32)
    requires config.Valid() && config.table.Some?
    ensures Continues(config, crc0, buf, crc, r)
  {
    crc := RunTable(config.table.value, crc0, buf);
    r := Finish(crc, config.finalVal, config.polySize);
  }

  method CalcByBits(config: CrcConfig, crc0: bv32, buf: seq<bv8>) returns (crc: bv32, r: bv32)
    requires config.Valid() && config.table.None?
    ensures Continues(config, crc0, buf, crc, r)
  {
    crc := RunBits(config, crc0, buf);
    var out := ReflectRegister(config, crc);
    r := Finish(out, config.finalVal, config.polySize);
  }

  // ----- The driver --------------------------------------------------------------

  class CrcDriver {
    var config: CrcConfig
    var crc: bv32

    constructor (config: CrcConfig)
      ensures this.config == config && crc == config.initialVal
    {
      this.config := config;
      this.crc := config.initialVal;
    }

    method Reset()
      modifies `crc
      ensures crc == config.initialVal
    {
      crc := config.initialVal;
    }

    /** Continues the calculation over buf and reports the CRC so far. */
    method Calc(buf: seq<bv8>) returns (r: bv32)
      requires config.Valid()
      modifies `crc
      ensures Continues(config, old(crc), buf, crc, r)
    {
      if config.table.Some? {
        crc, r := CalcByTable(config, crc, buf);
      } else {
        crc, r := CalcByBits(config, crc, buf);
      }
    }
  }
}

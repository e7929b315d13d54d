/** The two CRC engines against each other, from every start value. */
module CrcEngines {
  import opened Gf2
  import opened Words
  import opened Crc
  import opened CrcProperties
  import opened Prelude

  // ----- The table engine on the whole word --------------------------------------------------

  /** The table's generator h for a register of 32 bits. */
  function Wide(h: Bits): (w: Bits)
    requires |h| <= 32
    ensures |w| == 32
  {
    Zeros(32 - |h|) + h
  }

  lemma WideStep(k: nat, b: Bits, h: Bits)
    requires |b| == |h| > 0
    ensures RStep(Zeros(k) + b, Zeros(k) + h) == Zeros(k) + RStep(b, h)
  {
  }

  lemma {:induction false} WideRun(k: nat, b: Bits, h: Bits, m: nat)
    requires |b| == |h| > 0
    ensures RRun(Zeros(k) + b, Zeros(k) + h, m) == Zeros(k) + RRun(b, h, m)
    decreases m, k
  {
    if m == 0 {
    } else {
      WideStep(k, b, h);
      WideRun(k, RStep(b, h), h, m - 1);
    }
  }

  /** A right table is right for the whole word: its entries leave the high bits alone. */
  lemma TableIsWide(table: seq<bv32>, h: Bits)
    requires 8 <= |h| <= 32 && IsTable(table, h)
    ensures IsTable(table, Wide(h))
  {
    forall i: bv8 ensures EntryOk(table, Wide(h), i) {
      TableEntry(table, h, i);
      WideEntry(table[i as nat], h, BitsOf(i as bv32, |h|), 8);
      ByteFits(i);
      FitsWider(i as bv32, 8, |h|);
      Padded(i as bv32, |h|, 32);
    }
  }

  lemma WideEntry(t: bv32, h: Bits, b: Bits, k: nat)
    requires 8 <= |h| == |b| <= 32 && Reads(t, RRun(b, h, k))
    ensures Reads(t, RRun(Zeros(32 - |h|) + b, Wide(h), k))
  {
    Padded(t, |h|, 32);
    WideRun(32 - |h|, b, h, k);
  }

  function ByteOf(d: bv8): (b: Bits)
    ensures |b| == 8
  {
    BitsOf(d as bv32, 8)
  }

  /** The table engine on a register of bits. */
  function WordRun(b: Bits, h: Bits, buf: seq<bv8>): (r: Bits)
    requires |b| == |h| >= 8
    ensures |r| == |b|
    decreases |buf|
  {
    if buf == [] then b
    else RRun(Running(WordRun(b, h, buf[..|buf|-1]), ByteOf(buf[|buf|-1])), h, 8)
  }

  lemma {:induction false} TableRunsWord(table: seq<bv32>, h: Bits, c: bv32, buf: seq<bv8>)
    requires |h| == 32 && IsTable(table, h)
    ensures BitsOf(TableRun(table, c, buf), 32) == WordRun(BitsOf(c, 32), h, buf)
    decreases |buf|
  {
    if buf == [] {
    } else {
      var n := |buf| - 1;
      TableRunsWord(table, h, c, buf[..n]);
      AllFit(TableRun(table, c, buf[..n]));
      TableStepBits(table, h, TableRun(table, c, buf[..n]), buf[n]);
    }
  }

  lemma RunningSum(a: Bits, b: Bits, c: Bits, e: Bits, d: Bits, f: Bits)
    requires |a| == |b| == |c| == |e| >= |d| == |f| && Xor(a, b) == Xor(c, e)
    ensures Xor(Running(a, d), Running(b, f)) == Xor(Running(c, d), Running(e, f))
  {
    forall k | 0 <= k < |a|
      ensures Xor(Running(a, d), Running(b, f))[k] == Xor(Running(c, d), Running(e, f))[k]
    {
      assert Xor(a, b)[k] == Xor(c, e)[k];
    }
  }

  /** How far two buffers' registers differ does not depend on where they start. */
  lemma {:induction false} DifferenceFromAnywhere(b: Bits, c: Bits, h: Bits, x: seq<bv8>, y: seq<bv8>)
    requires |b| == |c| == |h| >= 8 && |x| == |y|
    ensures Xor(WordRun(b, h, x), WordRun(b, h, y)) == Xor(WordRun(c, h, x), WordRun(c, h, y))
    decreases |x|
  {
    if x == [] {
    } else {
      var n := |x| - 1;
      DifferenceFromAnywhere(b, c, h, x[..n], y[..n]);
      var b1, b2, c1, c2 := WordRun(b, h, x[..n]), WordRun(b, h, y[..n]), WordRun(c, h, x[..n]), WordRun(c, h, y[..n]);
      var d, f := ByteOf(x[n]), ByteOf(y[n]);
      RunningSum(b1, b2, c1, c2, d, f);
      RRunLinear(Running(b1, d), Running(b2, f), h, 8);
      RRunLinear(Running(c1, d), Running(c2, f), h, 8);
    }
  }

  // ----- Bursts ------------------------------------------------------------------------------

  /** Words that differ in the same bits differ in the same low bits. */
  lemma SameLowBits(a: bv32, b: bv32, c: bv32, d: bv32, n: nat)
    requires n <= 32 && Xor(BitsOf(a, 32), BitsOf(b, 32)) == Xor(BitsOf(c, 32), BitsOf(d, 32))
    ensures BitsOf(a, n) == BitsOf(b, n) <==> BitsOf(c, n) == BitsOf(d, n)
  {
    LowSum(a, b, n);
    LowSum(c, d, n);
    XorSame(BitsOf(a, n), BitsOf(b, n));
    XorSame(BitsOf(c, n), BitsOf(d, n));
  }

  lemma LowSum(a: bv32, b: bv32, n: nat)
    requires n <= 32
    ensures Xor(BitsOf(a, n), BitsOf(b, n)) == Xor(BitsOf(a, 32), BitsOf(b, 32))[32-n..]
  {
    BitsOfLow(a, 32, n);
    BitsOfLow(b, 32, n);
    SuffixSum(BitsOf(a, 32), BitsOf(b, 32), 32 - n);
  }

  lemma SuffixSum(a: Bits, b: Bits, k: nat)
    requires |a| == |b| && k <= |a|
    ensures Xor(a[k..], b[k..]) == Xor(a, b)[k..]
  {
  }

  lemma XorSame(a: Bits, b: Bits)
    requires |a| == |b|
    ensures Xor(a, b) == Zeros(|a|) <==> a == b
  {
    if Xor(a, b) == Zeros(|a|) {
      forall k | 0 <= k < |a| ensures a[k] == b[k] {
        assert !Xor(a, b)[k];
      }
    }
  }

  /** With a right table and an odd polynomial the table engine detects the bursts that the
      bitwise engine does, from any register, high bits and all. */
  lemma TableBurstErrorDetected(config: CrcConfig, crc0: bv32, pre: seq<bv8>, x: seq<bv8>, y: seq<bv8>, post: seq<bv8>,
                                crcX: bv32, rX: bv32, crcY: bv32, rY: bv32)
    requires config.Valid() && config.table.Some? && config.reflectData && config.poly & 1 == 1
    requires IsTable(config.table.value, Reverse(config.Generator()))
    requires |x| == |y| <= config.polySize / 8
    requires Continues(config, crc0, pre + x + post, crcX, rX)
    requires Continues(config, crc0, pre + y + post, crcY, rY)
    ensures rX == rY <==> x == y
  {
    var n, table, bufX, bufY := config.polySize, config.table.value, pre + x + post, pre + y + post;
    var zX, zY := TableRun(table, 0, bufX), TableRun(table, 0, bufY);
    SameDifference(table, Reverse(config.Generator()), crc0, bufX, bufY);
    SameLowBits(crcX, crcY, zX, zY, n);
    BurstFromZero(config, pre, x, y, post, bufX, bufY);
    SameFinished(BitsOf(crcX, n), BitsOf(crcY, n), BitsOf(config.finalVal, n));
    if BitsOf(crcX, n) == BitsOf(crcY, n) {
      FitsEqual(rX, rY, n);
    }
  }

  lemma SameDifference(table: seq<bv32>, h: Bits, c: bv32, x: seq<bv8>, y: seq<bv8>)
    requires 8 <= |h| <= 32 && IsTable(table, h) && |x| == |y|
    ensures Xor(BitsOf(TableRun(table, c, x), 32), BitsOf(TableRun(table, c, y), 32)) ==
            Xor(BitsOf(TableRun(table, 0, x), 32), BitsOf(TableRun(table, 0, y), 32))
  {
    TableIsWide(table, h);
    DifferenceFromAnywhere(BitsOf(c, 32), BitsOf(0, 32), Wide(h), x, y);
    TableRunsWord(table, Wide(h), c, x);
    TableRunsWord(table, Wide(h), c, y);
    TableRunsWord(table, Wide(h), 0, x);
    TableRunsWord(table, Wide(h), 0, y);
  }

  lemma SameFinished(a: Bits, b: Bits, f: Bits)
    requires |a| == |b| == |f|
    ensures Xor(a, f) == Xor(b, f) <==> a == b
  {
    XorCommutes(a, f);
    XorCommutes(b, f);
    if Xor(a, f) == Xor(b, f) {
      XorCancels(f, a, b);
    }
  }

  lemma BurstFromZero(config: CrcConfig, pre: seq<bv8>, x: seq<bv8>, y: seq<bv8>, post: seq<bv8>,
                      bufX: seq<bv8>, bufY: seq<bv8>)
    requires config.Valid() && config.table.Some? && config.reflectData && config.poly & 1 == 1
    requires IsTable(config.table.value, Reverse(config.Generator()))
    requires |x| == |y| <= config.polySize / 8 && bufX == pre + x + post && bufY == pre + y + post
    ensures var table, n := config.table.value, config.polySize;
      BitsOf(TableRun(table, 0, bufX), n) == BitsOf(TableRun(table, 0, bufY), n) <==> x == y
  {
    var n, g, zero := config.polySize, config.Generator(), Zeros(config.polySize);
    BitsOfZero(n);
    ZeroFits(n);
    TableMirrorsBits(config, config.table.value, 0, zero, bufX);
    TableMirrorsBits(config, config.table.value, 0, zero, bufY);
    GeneratorOdd(config);
    MessageBurst(config, zero, pre, x, y, post, bufX, bufY);
    ReverseReverse(Run(zero, g, config.Message(bufX)));
    ReverseReverse(Run(zero, g, config.Message(bufY)));
  }

  // ----- When the engines agree ----------------------------------------------------------------

  /** What the table engine reports of a buffer after a reset. */
  function TableReport(config: CrcConfig, buf: seq<bv8>): Bits
    requires config.Valid() && config.table.Some?
  {
    var n := config.polySize;
    Xor(BitsOf(TableRun(config.table.value, config.initialVal, buf), n), BitsOf(config.finalVal, n))
  }

  /** What the bitwise engine reports of it, without the table. */
  function BitsReport(config: CrcConfig, buf: seq<bv8>): Bits
    requires config.Valid()
  {
    config.Report(Run(BitsOf(config.initialVal, config.polySize), config.Generator(), config.Message(buf)))
  }

  ghost predicate EnginesAgree(config: CrcConfig, buf: seq<bv8>)
    requires config.Valid() && config.table.Some?
  {
    TableReport(config, buf) == BitsReport(config, buf)
  }

  /** The engines agree exactly if they return the same word. */
  lemma AgreeMeansEqual(config: CrcConfig, buf: seq<bv8>, crcT: bv32, rT: bv32, crcB: bv32, rB: bv32)
    requires config.Valid() && config.table.Some?
    requires Continues(config, config.initialVal, buf, crcT, rT)
    requires Continues(config.(table := None), config.initialVal, buf, crcB, rB)
    ensures rT == rB <==> EnginesAgree(config, buf)
  {
    SameMessage(config, buf);
    assert BitsOf(rT, config.polySize) == TableReport(config, buf);
    assert BitsOf(rB, config.polySize) == BitsReport(config, buf);
    if EnginesAgree(config, buf) {
      FitsEqual(rT, rB, config.polySize);
    }
  }

  /** The start value uses no bits above the register and is its own mirror image. */
  ghost predicate SelfMirrored(config: CrcConfig)
  {
    var start := BitsOf(config.initialVal, config.polySize);
    Fits(config.initialVal, config.polySize) && Reverse(start) == start
  }

  ghost predicate Mirrorable(config: CrcConfig)
  {
    && config.Valid() && config.table.Some? && config.reflectData && config.reflectRemainder
    && IsTable(config.table.value, Reverse(config.Generator()))
  }

  /** From a start value s that fits, the table engine ends in the mirror image of the bitwise
      engine started from the mirror image of s. */
  lemma FromMirror(config: CrcConfig, s: bv32, buf: seq<bv8>)
    requires Mirrorable(config) && Fits(s, config.polySize)
    ensures var n := config.polySize;
      BitsOf(TableRun(config.table.value, s, buf), n) ==
      Reverse(Run(Reverse(BitsOf(s, n)), config.Generator(), config.Message(buf)))
  {
    var r := Reverse(BitsOf(s, config.polySize));
    ReverseReverse(BitsOf(s, config.polySize));
    TableMirrorsBits(config, config.table.value, s, r, buf);
  }

  /** The table engine refines the bitwise engine: for a fully reflected configuration with the
      right table, both report the same CRC of every buffer exactly if the start value fits the
      register and is its own mirror image. */
  lemma TableRefinesBits(config: CrcConfig)
    requires Mirrorable(config)
    ensures (forall buf :: EnginesAgree(config, buf)) <==> SelfMirrored(config)
  {
    if SelfMirrored(config) {
      forall buf ensures EnginesAgree(config, buf) {
        FromMirror(config, config.initialVal, buf);
      }
    }
    if forall buf :: EnginesAgree(config, buf) {
      AgreeOnNothing(config);
      HighBitsShow(config);
    }
  }

  /** The empty buffer tells whether the register's part of the start value is its own mirror
      image. */
  lemma AgreeOnNothing(config: CrcConfig)
    requires Mirrorable(config)
    ensures var start := BitsOf(config.initialVal, config.polySize);
      EnginesAgree(config, []) <==> Reverse(start) == start
  {
    var start, f := BitsOf(config.initialVal, config.polySize), BitsOf(config.finalVal, config.polySize);
    assert config.Message([]) == [];
    SameFinished(start, Reverse(start), f);
  }

  /** For an odd polynomial one buffer is enough: the engines agree on all or on none. */
  lemma OddPolynomialDecides(config: CrcConfig, buf: seq<bv8>)
    requires Mirrorable(config) && config.poly & 1 == 1 && Fits(config.initialVal, config.polySize)
    ensures EnginesAgree(config, buf) <==> SelfMirrored(config)
  {
    var n, g, m := config.polySize, config.Generator(), config.Message(buf);
    var i, f := BitsOf(config.initialVal, n), BitsOf(config.finalVal, n);
    FromMirror(config, config.initialVal, buf);
    SameReport(Run(Reverse(i), g, m), Run(i, g, m), f);
    GeneratorOdd(config);
    RunInjective(Reverse(i), i, g, m);
  }

  // ----- Start values that do not fit ------------------------------------------------------------

  function Nulls(k: nat): (z: seq<bv8>)
    ensures |z| == k && forall i :: 0 <= i < k ==> z[i] == 0
  {
    seq(k, _ => 0)
  }

  /** k bytes later the difference of two registers that take in the same bytes. */
  function Down(e: Bits, h: Bits, k: nat): (r: Bits)
    requires |e| == |h| > 0
    ensures |r| == |e|
  {
    if k == 0 then e else RRun(Down(e, h, k - 1), h, 8)
  }

  lemma {:induction false} DownEarlier(e: Bits, h: Bits, k: nat)
    requires |e| == |h| > 0
    ensures Down(RRun(e, h, 8), h, k) == Down(e, h, k + 1)
  {
    if k == 0 {
    } else {
      DownEarlier(e, h, k - 1);
    }
  }

  lemma {:induction false} DifferenceGoesDown(b: Bits, c: Bits, h: Bits, k: nat)
    requires |b| == |c| == |h| >= 8
    ensures Xor(WordRun(b, h, Nulls(k)), WordRun(c, h, Nulls(k))) == Down(Xor(b, c), h, k)
  {
    if k == 0 {
    } else {
      DifferenceGoesDown(b, c, h, k - 1);
      assert Nulls(k)[..k-1] == Nulls(k - 1);
      var x, y, d := WordRun(b, h, Nulls(k - 1)), WordRun(c, h, Nulls(k - 1)), ByteOf(0);
      SameAdded(x, y, d);
      RRunLinear(Running(x, d), Running(y, d), h, 8);
    }
  }

  lemma SameAdded(x: Bits, y: Bits, d: Bits)
    requires |x| == |y| >= |d|
    ensures Xor(Running(x, d), Running(y, d)) == Xor(x, y)
  {
  }

  /** A register that is clear in its low byte is shifted down by a byte. */
  lemma QuietByte(e: Bits, h: Bits)
    requires |e| == |h| >= 8 && forall i :: |e| - 8 <= i < |e| ==> !e[i]
    ensures RRun(e, h, 8) == Zeros(8) + e[..|e|-8]
  {
    assert e == e[..|e|-8] + Zeros(8);
    RRunShifts(e[..|e|-8], h, 8);
  }

  /** A bit of the difference comes down into the low n bits, a byte at a time. */
  lemma {:induction false} BitComesDown(e: Bits, h: Bits, n: nat, j: nat) returns (k: nat, i: nat)
    requires |e| == |h| >= n >= 8 && j < |e| && e[j]
    ensures |e| - n <= i < |e| && Down(e, h, k)[i]
    decreases |e| - j
  {
    if j >= |e| - n {
      k, i := 0, j;
    } else if l :| |e| - 8 <= l < |e| && e[l] {
      k, i := 0, l;
    } else {
      QuietByte(e, h);
      k, i := BitComesDown(RRun(e, h, 8), h, n, j + 8);
      DownEarlier(e, h, k);
      k := k + 1;
    }
  }

  /** A start value with bits above the register disagrees with its register part on some
      buffer, so it cannot agree with the bitwise engine on all. */
  lemma HighBitsShow(config: CrcConfig)
    requires Mirrorable(config) && forall buf :: EnginesAgree(config, buf)
    ensures Fits(config.initialVal, config.polySize)
  {
    var n, s, low := config.polySize, config.initialVal, config.initialVal & Mask(config.polySize);
    MaskIsMask(n);
    BitsOfMasked(s, Mask(n), n);
    if s != low {
      var k := SomeBufferDiffers(config.table.value, Reverse(config.Generator()), s, low);
      assert EnginesAgree(config, Nulls(k)) && EnginesAgree(config, []);
      SameAsLow(config, low, Nulls(k));
    }
  }

  /** Two different words are told apart by the low bits of the register after some buffer. */
  lemma SomeBufferDiffers(table: seq<bv32>, h: Bits, s: bv32, low: bv32) returns (k: nat)
    requires 8 <= |h| <= 32 && IsTable(table, h) && s != low
    ensures BitsOf(TableRun(table, s, Nulls(k)), |h|) != BitsOf(TableRun(table, low, Nulls(k)), |h|)
  {
    var b, c := BitsOf(s, 32), BitsOf(low, 32);
    var j := DifferentBit(s, low);
    var i;
    k, i := BitComesDown(Xor(b, c), Wide(h), |h|, j);
    DifferenceGoesDown(b, c, Wide(h), k);
    TableIsWide(table, h);
    TableRunsWord(table, Wide(h), s, Nulls(k));
    TableRunsWord(table, Wide(h), low, Nulls(k));
    LowBitsDiffer(TableRun(table, s, Nulls(k)), TableRun(table, low, Nulls(k)), |h|, i);
  }

  lemma DifferentBit(a: bv32, b: bv32) returns (j: nat)
    requires a != b
    ensures j < 32 && Xor(BitsOf(a, 32), BitsOf(b, 32))[j]
  {
    AllFit(a);
    AllFit(b);
    if BitsOf(a, 32) == BitsOf(b, 32) {
      FitsEqual(a, b, 32);
    }
    j :| 0 <= j < 32 && BitsOf(a, 32)[j] != BitsOf(b, 32)[j];
  }

  lemma LowBitsDiffer(a: bv32, b: bv32, n: nat, i: nat)
    requires n <= 32 && 32 - n <= i < 32 && Xor(BitsOf(a, 32), BitsOf(b, 32))[i]
    ensures BitsOf(a, n) != BitsOf(b, n)
  {
    BitsOfLow(a, 32, n);
    BitsOfLow(b, 32, n);
    assert BitsOf(a, 32)[32-n..][i-(32-n)] != BitsOf(b, 32)[32-n..][i-(32-n)];
  }

  /** Where the engines agree, the table engine might as well have started from the register's
      part of the start value. */
  lemma SameAsLow(config: CrcConfig, low: bv32, buf: seq<bv8>)
    requires Mirrorable(config) && EnginesAgree(config, []) && EnginesAgree(config, buf)
    requires Fits(low, config.polySize) && BitsOf(low, config.polySize) == BitsOf(config.initialVal, config.polySize)
    ensures var n, table := config.polySize, config.table.value;
      BitsOf(TableRun(table, config.initialVal, buf), n) == BitsOf(TableRun(table, low, buf), n)
  {
    var n, table := config.polySize, config.table.value;
    AgreeOnNothing(config);
    FromMirror(config, low, buf);
    SameFinished(BitsOf(TableRun(table, config.initialVal, buf), n), BitsOf(TableRun(table, low, buf), n),
                 BitsOf(config.finalVal, n));
  }
}

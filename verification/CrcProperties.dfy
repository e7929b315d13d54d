/** What the two CRC engines guarantee, over all buffers and all configurations. */
module CrcProperties {
  import opened Gf2
  import opened Words
  import opened Crc
  import opened Prelude

  // ----- Running state -----------------------------------------------------------

  lemma {:induction false} TableRunConcat(table: seq<bv32>, crc: bv32, a: seq<bv8>, b: seq<bv8>)
    requires |table| == 256
    ensures TableRun(table, crc, a + b) == TableRun(table, TableRun(table, crc, a), b)
    decreases |b|
  {
    if b == [] {
      assert a + b == a;
    } else {
      assert (a + b)[..|a + b|-1] == a + b[..|b|-1];
      TableRunConcat(table, crc, a, b[..|b|-1]);
    }
  }

  /** Splitting a message is invisible: calculating a and then b from any register reports the
      same as calculating a + b, in both engines and for every setting. */
  lemma SplitInvisible(config: CrcConfig, crc0: bv32, a: seq<bv8>, b: seq<bv8>,
                       crcA: bv32, rA: bv32, crcB: bv32, rB: bv32, crcAB: bv32, rAB: bv32)
    requires config.Valid()
    requires Continues(config, crc0, a, crcA, rA)
    requires Continues(config, crcA, b, crcB, rB)
    requires Continues(config, crc0, a + b, crcAB, rAB)
    ensures rB == rAB
  {
    var n := config.polySize;
    if config.table.Some? {
      TableRunConcat(config.table.value, crc0, a, b);
      FitsEqual(rB, rAB, n);
    } else {
      config.MessageConcat(a, b);
      RunConcat(BitsOf(crc0, n), config.Generator(), config.Message(a), config.Message(b));
      FitsEqual(rB, rAB, n);
    }
  }

  // ----- Division ----------------------------------------------------------------

  /** From a zero register the bitwise engine leaves exactly the remainder of message * x^n on
      division by the generator in the low n bits of its register. */
  lemma ComputesRemainder(config: CrcConfig, buf: seq<bv8>, crc: bv32, r: bv32, rem: Bits)
    requires config.Valid() && config.table.None?
    requires Continues(config, 0, buf, crc, r)
    ensures IsRemainder(config.Message(buf), config.Generator(), rem) <==> rem == BitsOf(crc, config.polySize)
  {
    BitsOfZero(config.polySize);
    RunIsRemainder(config.Message(buf), config.Generator(), rem);
  }

  // ----- Error detection ---------------------------------------------------------

  lemma GeneratorOdd(config: CrcConfig)
    requires config.Valid()
    ensures config.Generator()[config.polySize-1] == (config.poly & 1 == 1)
  {
    Unfold(config.poly, config.poly >> 1, config.poly & 1 == 1, config.polySize);
  }

  lemma ByteBitsInjective(config: CrcConfig, x: bv8, y: bv8)
    ensures config.ByteBits(x) == config.ByteBits(y) ==> x == y
  {
    if config.ByteBits(x) == config.ByteBits(y) {
      ReverseReverse(BitsOf(x as bv32, 8));
      ReverseReverse(BitsOf(y as bv32, 8));
      BytesEqual(x, y);
    }
  }

  lemma BytesEqual(x: bv8, y: bv8)
    requires BitsOf(x as bv32, 8) == BitsOf(y as bv32, 8)
    ensures x == y
  {
    ByteFits(x);
    ByteFits(y);
    FitsEqual(x as bv32, y as bv32, 8);
    BytesOfWord(x, y);
  }

  lemma BytesOfWord(x: bv8, y: bv8)
    requires x as bv32 == y as bv32
    ensures x == y
  {
    assert (x as bv32) as bv8 == x && (y as bv32) as bv8 == y;
  }

  lemma ByteFits(x: bv8)
    ensures Fits(x as bv32, 8)
  {
    ByteMask();
    BitsOfMasked(x as bv32, 0xFF, 8);
    MaskedByte(x);
  }

  lemma MaskedByte(x: bv8)
    ensures (x as bv32) & 0xFF == x as bv32
  {
  }

  lemma ByteMask()
    ensures IsMask(0xFF, 8)
  {
    MaskIsMask(8);
    assert One(7) == 0x80;
    assert Mask(8) == 0xFF;
  }

  lemma {:induction false} MessageInjective(config: CrcConfig, x: seq<bv8>, y: seq<bv8>)
    requires |x| == |y|
    ensures config.Message(x) == config.Message(y) ==> x == y
    decreases |x|
  {
    if x != [] && config.Message(x) == config.Message(y) {
      var k := |x| - 1;
      var mx, my := config.Message(x[..k]), config.Message(y[..k]);
      var bitsX, bitsY := config.ByteBits(x[k]), config.ByteBits(y[k]);
      ConcatEqual(mx, bitsX, my, bitsY);
      MessageInjective(config, x[..k], y[..k]);
      ByteBitsInjective(config, x[k], y[k]);
      assert x == x[..k] + [x[k]] && y == y[..k] + [y[k]];
    }
  }

  lemma ConcatEqual(a: Bits, b: Bits, c: Bits, d: Bits)
    requires |a| == |c| && a + b == c + d
    ensures a == c && b == d
  {
    assert a == (a + b)[..|a|] && c == (c + d)[..|c|];
    assert b == (a + b)[|a|..] && d == (c + d)[|c|..];
  }

  lemma ReportInjective(config: CrcConfig, r: Bits, s: Bits)
    requires |r| == |s| == config.polySize
    ensures config.Report(r) == config.Report(s) <==> r == s
  {
    if config.Report(r) == config.Report(s) {
      var f := BitsOf(config.finalVal, config.polySize);
      var r' := if config.reflectRemainder then Reverse(r) else r;
      var s' := if config.reflectRemainder then Reverse(s) else s;
      XorCommutes(r', f);
      XorCommutes(s', f);
      XorCancels(f, r', s');
      ReverseReverse(r);
      ReverseReverse(s);
    }
  }

  lemma XorCommutes(a: Bits, b: Bits)
    requires |a| == |b|
    ensures Xor(a, b) == Xor(b, a)
  {
  }

  /** With an odd polynomial, two buffers of equal length that may differ only inside
      floor(n / 8) consecutive bytes get equal CRCs from the same register only if they are
      equal: every such burst is detected. */
  lemma BurstErrorDetected(config: CrcConfig, crc0: bv32, pre: seq<bv8>, x: seq<bv8>, y: seq<bv8>, post: seq<bv8>,
                           crcX: bv32, rX: bv32, crcY: bv32, rY: bv32)
    requires config.Valid() && config.table.None? && config.poly & 1 == 1
    requires |x| == |y| <= config.polySize / 8
    requires Continues(config, crc0, pre + x + post, crcX, rX)
    requires Continues(config, crc0, pre + y + post, crcY, rY)
    ensures rX == rY <==> x == y
  {
    var n := config.polySize;
    GeneratorOdd(config);
    MessageBurst(config, BitsOf(crc0, n), pre, x, y, post, pre + x + post, pre + y + post);
    ReportInjective(config, BitsOf(crcX, n), BitsOf(crcY, n));
    if BitsOf(crcX, n) == BitsOf(crcY, n) {
      FitsEqual(rX, rY, n);
    }
  }

  // ----- The table engine refines the bitwise engine -----------------------------

  /** Entry i of the table is what eight steps of the mirrored register make of i, for the
      mirrored generator h. */
  ghost predicate IsTable(table: seq<bv32>, h: Bits)
    requires |h| >= 8
  {
    && |table| == 256
    && forall i: bv8 :: EntryOk(table, h, i)
  }

  ghost predicate EntryOk(table: seq<bv32>, h: Bits, i: bv8)
    requires |h| >= 8 && |table| == 256
  {
    Reads(table[i as nat], RRun(BitsOf(i as bv32, |h|), h, 8))
  }

  lemma RightStep(y: bv32, y': bv32, b: Bits, n: nat, k: nat)
    requires 0 < k <= n == |b| && Fits(y, n) && y' == y >> 1
    requires BitsOf(y, n) == Zeros(k - 1) + b[..n-k+1]
    ensures Fits(y', n) && BitsOf(y', n) == Zeros(k) + b[..n-k]
  {
    ShiftedRight(y, y', n);
    ZerosInFront(b, n, k);
  }

  lemma ZerosInFront(b: Bits, n: nat, k: nat)
    requires 0 < k <= n == |b|
    ensures [false] + (Zeros(k - 1) + b[..n-k+1])[..n-1] == Zeros(k) + b[..n-k]
  {
  }

  /** x >> 8 within n bits. */
  lemma RightByte(x: bv32, n: nat)
    requires n >= 8 && Fits(x, n)
    ensures Fits(x >> 8, n) && BitsOf(x >> 8, n) == Zeros(8) + BitsOf(x, n)[..n-8]
  {
    var b := BitsOf(x, n);
    assert b == Zeros(0) + b[..n];
    var x1, x2, x3, x4, x5, x6, x7, x8 := EightShifts(x);
    RightStep(x, x1, b, n, 1);
    RightStep(x1, x2, b, n, 2);
    RightStep(x2, x3, b, n, 3);
    RightStep(x3, x4, b, n, 4);
    RightStep(x4, x5, b, n, 5);
    RightStep(x5, x6, b, n, 6);
    RightStep(x6, x7, b, n, 7);
    RightStep(x7, x8, b, n, 8);
  }

  lemma EightShifts(x: bv32)
    returns (x1: bv32, x2: bv32, x3: bv32, x4: bv32, x5: bv32, x6: bv32, x7: bv32, x8: bv32)
    ensures x1 == x >> 1 && x2 == x1 >> 1 && x3 == x2 >> 1 && x4 == x3 >> 1
    ensures x5 == x4 >> 1 && x6 == x5 >> 1 && x7 == x6 >> 1 && x8 == x7 >> 1
    ensures x8 == x >> 8
  {
    x1 := x >> 1;
    x2 := x1 >> 1;
    x3 := x2 >> 1;
    x4 := x3 >> 1;
    x5 := x4 >> 1;
    x6 := x5 >> 1;
    x7 := x6 >> 1;
    x8 := x7 >> 1;
  }

  /** A word that fits in m bits, seen as n bits. */
  lemma {:induction false} Padded(x: bv32, m: nat, n: nat)
    requires m <= n && Fits(x, m)
    ensures BitsOf(x, n) == Zeros(n - m) + BitsOf(x, m) && Fits(x, n)
    decreases n
  {
    if n == m {
      assert Zeros(0) + BitsOf(x, m) == BitsOf(x, m);
    } else {
      Padded(x, m, n - 1);
      TopOff(x, n - 1);
      FitsWider(x, n - 1, n);
      ZerosCons(n - 1 - m, BitsOf(x, m));
    }
  }

  /** The index is the low byte of the running value, padded to n bits. */
  lemma IndexBits(t: bv32, idx: bv8, n: nat)
    requires n >= 8 && idx as bv32 == t & 0xFF
    ensures BitsOf(idx as bv32, n) == Zeros(n - 8) + BitsOf(t, n)[n-8..]
  {
    var low := idx as bv32;
    ByteMask();
    BitsOfMasked(t, 0xFF, 8);
    LowByte(t, low, n);
  }

  lemma LowByte(t: bv32, low: bv32, n: nat)
    requires n >= 8 && Fits(low, 8) && BitsOf(low, 8) == BitsOf(t, 8)
    ensures BitsOf(low, n) == Zeros(n - 8) + BitsOf(t, n)[n-8..]
  {
    Padded(low, 8, n);
    BitsOfLow(t, n, 8);
  }

  /** The running value: the register with the data byte added in at the low end. */
  function Running(r: Bits, d: Bits): (b: Bits)
    requires |r| >= |d|
    ensures |b| == |r|
  {
    Xor(r, Zeros(|r| - |d|) + d)
  }

  /** The low byte of the running value selects the table entry. */
  lemma IndexRunning(crc: bv32, data: bv8, idx: bv8, n: nat)
    requires n >= 8 && idx == TableIndex(crc, data)
    ensures BitsOf(idx as bv32, n) == Zeros(n - 8) + Running(BitsOf(crc, n), BitsOf(data as bv32, 8))[n-8..]
  {
    IndexLowByte(crc, data, idx);
    ByteFits(data);
    IndexWord(crc, data as bv32, idx, n);
  }

  lemma IndexWord(crc: bv32, w: bv32, idx: bv8, n: nat)
    requires n >= 8 && Fits(w, 8) && idx as bv32 == (crc ^ w) & 0xFF
    ensures BitsOf(idx as bv32, n) == Zeros(n - 8) + Running(BitsOf(crc, n), BitsOf(w, 8))[n-8..]
  {
    RunningWord(crc, w, n);
    IndexBits(crc ^ w, idx, n);
  }

  lemma RunningWord(crc: bv32, w: bv32, n: nat)
    requires n >= 8 && Fits(w, 8)
    ensures BitsOf(crc ^ w, n) == Running(BitsOf(crc, n), BitsOf(w, 8))
  {
    Padded(w, 8, n);
    BitsOfXor(crc, w, n);
  }

  lemma IndexLowByte(crc: bv32, data: bv8, idx: bv8)
    requires idx == TableIndex(crc, data)
    ensures idx as bv32 == (crc ^ (data as bv32)) & 0xFF
  {
  }

  /** The rest of the register is what the shift keeps of the running value. */
  lemma RestRunning(crc: bv32, d: Bits, n: nat)
    requires n >= 8 == |d| && Fits(crc, n)
    ensures Fits(crc >> 8, n)
    ensures BitsOf(crc >> 8, n) == Zeros(8) + Running(BitsOf(crc, n), d)[..n-8]
  {
    RightByte(crc, n);
    RunningHigh(BitsOf(crc, n), d);
  }

  lemma RunningHigh(r: Bits, d: Bits)
    requires |r| >= |d|
    ensures Running(r, d)[..|r|-|d|] == r[..|r|-|d|]
  {
  }

  /** w is the n-bit word with bits b. */
  ghost predicate Reads(w: bv32, b: Bits)
  {
    Fits(w, |b|) && BitsOf(w, |b|) == b
  }

  lemma TableEntry(table: seq<bv32>, h: Bits, idx: bv8)
    requires |h| >= 8 && IsTable(table, h)
    ensures Reads(table[idx as nat], RRun(BitsOf(idx as bv32, |h|), h, 8))
  {
    assert EntryOk(table, h, idx);
  }

  /** One table step is eight mirrored steps of the running value. */
  lemma TableStepBits(table: seq<bv32>, h: Bits, crc: bv32, data: bv8)
    requires |h| >= 8 && IsTable(table, h) && Fits(crc, |h|)
    ensures Reads(TableStep(table, crc, data), RRun(Running(BitsOf(crc, |h|), BitsOf(data as bv32, 8)), h, 8))
  {
    var n, idx, d := |h|, TableIndex(crc, data), BitsOf(data as bv32, 8);
    IndexRunning(crc, data, idx, n);
    RestRunning(crc, d, n);
    TableEntry(table, h, idx);
    Corrected(Running(BitsOf(crc, n), d), idx as bv32, table[idx as nat], crc >> 8, h);
  }

  /** Shifting right by a byte and adding the table's correction for the lost byte. */
  lemma Corrected(b: Bits, idx: bv32, entry: bv32, rest: bv32, h: Bits)
    requires |b| == |h| >= 8
    requires BitsOf(idx, |h|) == Zeros(|h| - 8) + b[|h|-8..]
    requires Fits(rest, |h|) && BitsOf(rest, |h|) == Zeros(8) + b[..|h|-8]
    requires Reads(entry, RRun(BitsOf(idx, |h|), h, 8))
    ensures Reads(entry ^ rest, RRun(b, h, 8))
  {
    var n := |h|;
    SplitRun(b, b[..n-8], b[n-8..], h);
    BitsOfXor(entry, rest, n);
    FitsXor(entry, rest, n);
  }

  lemma SplitRun(b: Bits, hi: Bits, lo: Bits, h: Bits)
    requires |b| == |h| >= 8 && hi == b[..|h|-8] && lo == b[|h|-8..]
    ensures RRun(b, h, 8) == Xor(RRun(Zeros(|h| - 8) + lo, h, 8), Zeros(8) + hi)
  {
    assert b == hi + lo;
    assert |lo| == 8 && |hi| == |h| - 8;
    RRunSplits(hi, lo, h);
  }

  /** One byte of the bitwise engine, mirrored. */
  lemma MirroredByte(r: Bits, g: Bits, d: Bits)
    requires |r| == |g| >= |d|
    requires |g| > 0
    ensures Reverse(Run(r, g, Reverse(d))) == RRun(Running(Reverse(r), d), Reverse(g), |d|)
  {
    var x := Xor(r, Reverse(d) + Zeros(|g| - |d|));
    RunPreloaded(r, g, Reverse(d));
    assert Run(r, g, Reverse(d)) == Run(x, g, Zeros(|d|));
    MirroredRun(x, g, |d|);
    RevRunning(r, d);
    assert Reverse(x) == Running(Reverse(r), d);
  }

  lemma RevRunning(r: Bits, d: Bits)
    requires |r| >= |d|
    ensures Reverse(Xor(r, Reverse(d) + Zeros(|r| - |d|))) == Running(Reverse(r), d)
  {
    RevXor(r, Reverse(d) + Zeros(|r| - |d|));
    RevPad(d, |r|);
  }

  lemma RevPad(d: Bits, n: nat)
    requires n >= |d|
    ensures Reverse(Reverse(d) + Zeros(n - |d|)) == Zeros(n - |d|) + d
  {
  }

  /** The table register is the mirror image of the bitwise register after every byte. */
  lemma {:induction false} TableMirrorsBits(config: CrcConfig, table: seq<bv32>, s: bv32, r: Bits, buf: seq<bv8>)
    requires config.Valid() && config.reflectData && |r| == config.polySize
    requires IsTable(table, Reverse(config.Generator()))
    requires Fits(s, config.polySize) && BitsOf(s, config.polySize) == Reverse(r)
    ensures var n := config.polySize;
      && Fits(TableRun(table, s, buf), n)
      && BitsOf(TableRun(table, s, buf), n) == Reverse(Run(r, config.Generator(), config.Message(buf)))
    decreases |buf|
  {
    if buf == [] {
      assert config.Message(buf) == [];
    } else {
      var g, b, data := config.Generator(), buf[..|buf|-1], buf[|buf|-1];
      TableMirrorsBits(config, table, s, r, b);
      RunConcat(r, g, config.Message(b), config.ByteBits(data));
      MirrorsByte(config, table, TableRun(table, s, b), Run(r, g, config.Message(b)), data);
    }
  }

  lemma MirrorsByte(config: CrcConfig, table: seq<bv32>, s: bv32, r: Bits, data: bv8)
    requires config.Valid() && config.reflectData && |r| == config.polySize
    requires IsTable(table, Reverse(config.Generator()))
    requires Fits(s, config.polySize) && BitsOf(s, config.polySize) == Reverse(r)
    ensures var n := config.polySize;
      && Fits(TableStep(table, s, data), n)
      && BitsOf(TableStep(table, s, data), n) == Reverse(Run(r, config.Generator(), config.ByteBits(data)))
  {
    MirroredByte(r, config.Generator(), BitsOf(data as bv32, 8));
    TableStepBits(table, Reverse(config.Generator()), s, data);
  }

  /** With a right table the table engine divides too: from a zero register it leaves the mirror
      image of the remainder. */
  lemma TableComputesRemainder(config: CrcConfig, buf: seq<bv8>, crc: bv32, r: bv32, rem: Bits)
    requires config.Valid() && config.table.Some? && config.reflectData
    requires IsTable(config.table.value, Reverse(config.Generator()))
    requires Continues(config, 0, buf, crc, r)
    ensures IsRemainder(config.Message(buf), config.Generator(), rem) <==> rem == Reverse(BitsOf(crc, config.polySize))
  {
    var n := config.polySize;
    var zero := Zeros(n);
    BitsOfZero(n);
    ZeroFits(n);
    TableMirrorsBits(config, config.table.value, 0, zero, buf);
    ReverseReverse(Run(zero, config.Generator(), config.Message(buf)));
    RunIsRemainder(config.Message(buf), config.Generator(), rem);
  }

  lemma ZeroFits(n: nat)
    requires 1 <= n <= 32
    ensures Fits(0, n) && Reverse(Zeros(n)) == Zeros(n)
  {
  }

  lemma {:induction false} MessageBurst(config: CrcConfig, r: Bits, pre: seq<bv8>, x: seq<bv8>, y: seq<bv8>,
                                        post: seq<bv8>, bufX: seq<bv8>, bufY: seq<bv8>)
    requires config.Valid() && |r| == config.polySize && config.Generator()[config.polySize-1]
    requires |x| == |y| <= config.polySize / 8 && bufX == pre + x + post && bufY == pre + y + post
    ensures var g := config.Generator();
      Run(r, g, config.Message(bufX)) == Run(r, g, config.Message(bufY)) <==> x == y
  {
    var mx, my := config.Message(bufX), config.Message(bufY);
    MessageConcat3(config, pre, x, post, bufX);
    MessageConcat3(config, pre, y, post, bufY);
    BitBurst(r, config.Generator(), config.Message(pre), config.Message(x), config.Message(y), config.Message(post),
             mx, my);
    MessageInjective(config, x, y);
  }

  lemma BitBurst(r: Bits, g: Bits, a: Bits, x: Bits, y: Bits, b: Bits, mx: Bits, my: Bits)
    requires |r| == |g| > 0 && g[|g|-1] && |x| == |y| <= |g|
    requires mx == a + x + b && my == a + y + b
    ensures Run(r, g, mx) == Run(r, g, my) <==> x == y
  {
    BurstDetected(r, g, a, x, y, b);
  }

  lemma MessageConcat3(config: CrcConfig, pre: seq<bv8>, x: seq<bv8>, post: seq<bv8>, buf: seq<bv8>)
    requires buf == pre + x + post
    ensures config.Message(buf) == config.Message(pre) + config.Message(x) + config.Message(post)
  {
    config.MessageConcat(pre + x, post);
    config.MessageConcat(pre, x);
  }

  lemma SameReport(a: Bits, b: Bits, f: Bits)
    requires |a| == |b| == |f|
    ensures Xor(Reverse(a), f) == Xor(Reverse(b), f) <==> a == b
  {
    XorCommutes(Reverse(a), f);
    XorCommutes(Reverse(b), f);
    if Xor(Reverse(a), f) == Xor(Reverse(b), f) {
      XorCancels(f, Reverse(a), Reverse(b));
      ReverseReverse(a);
      ReverseReverse(b);
    }
  }

  lemma {:induction false} SameMessage(config: CrcConfig, buf: seq<bv8>)
    ensures config.(table := None).Message(buf) == config.Message(buf)
    decreases |buf|
  {
    if buf != [] {
      SameMessage(config, buf[..|buf|-1]);
    }
  }
}

/** The answers that the CRC driver's test program expects, from the configurations and the
    shipped tables. The registers after each byte of its buffer are written out, each with the
    step that leads to it, four bytes to a lemma. */
module CrcTestData {
  import opened Prelude
  import opened Gf2
  import opened Words
  import opened Crc
  import opened CrcProperties
  import opened CrcEngines
  import opened CrcRun
  import opened CrcTables
  import opened CrcAnswers

  /** The buffer that the test program runs through every configuration. */
  const DATA := FOUR0 + FOUR1 + FOUR2 + FOUR3 + FOUR4 + FOUR5 + FOUR6 + FOUR7

  const FOUR0: seq<bv8> := [0x00, 0x01, 0x02, 0x03]
  const FOUR1: seq<bv8> := [0x04, 0x05, 0x06, 0x07]
  const FOUR2: seq<bv8> := [0x08, 0x09, 0x0a, 0x0b]
  const FOUR3: seq<bv8> := [0x0c, 0x0d, 0x0e, 0x0f]
  const FOUR4: seq<bv8> := [0x10, 0x11, 0x12, 0x13]
  const FOUR5: seq<bv8> := [0x14, 0x15, 0x16, 0x17]
  const FOUR6: seq<bv8> := [0x18, 0x19, 0x1a, 0x1b]
  const FOUR7: seq<bv8> := [0x1c, 0x1d, 0x1e, 0x1f]

  /** Its configuration without reflection. */
  function Crc8Config(): CrcConfig
  {
    CrcConfig(8, 0x07, 0, 0, false, false, None)
  }

  lemma FourAppended<T>(pre: seq<T>, a: T, b: T, c: T, d: T)
    ensures pre + [a] + [b] + [c] + [d] == pre + [a, b, c, d]
  {
  }

  /** One byte into a mirrored register. */
  function MirrorByte(h: bv32, x: bv32, b: bv8): bv32
  {
    RWord8((x ^ (b as bv32)) & 0xFF, h) ^ (x >> 8)
  }

  function MirrorFold(h: bv32, x: bv32, buf: seq<bv8>): bv32
  {
    if buf == [] then x else MirrorByte(h, MirrorFold(h, x, buf[..|buf|-1]), buf[|buf|-1])
  }

  lemma {:induction false} MirrorOne(h: bv32, x: bv32, pre: seq<bv8>, b: bv8, v: bv32, w: bv32)
    requires MirrorFold(h, x, pre) == v && Moves(h, v, b, w)
    ensures MirrorFold(h, x, pre + [b]) == w
  {
    assert (pre + [b])[..|pre|] == pre;
  }

  /** The byte b takes the mirrored register from v to w. */
  predicate Moves(h: bv32, v: bv32, b: bv8, w: bv32)
  {
    MirrorByte(h, v, b) == w
  }

  /** One turn of the bit loop for polynomial 0x07 on the low byte of the register. */
  function DivideWord(x: bv32): bv32
  {
    (if x & 0x80 != 0 then (x << 1) ^ 0x07 else x << 1) & 0xFF
  }

  function DivideWord4(x: bv32): bv32
  {
    DivideWord(DivideWord(DivideWord(DivideWord(x))))
  }

  function DivideByte8(x: bv32, b: bv8): bv32
  {
    DivideWord4(DivideWord4(x ^ (b as bv32)))
  }

  function DivideFold(buf: seq<bv8>): bv32
  {
    if buf == [] then 0 else DivideByte8(DivideFold(buf[..|buf|-1]), buf[|buf|-1])
  }

  lemma {:induction false} DivideOne(pre: seq<bv8>, b: bv8, v: bv32, w: bv32)
    requires DivideFold(pre) == v && DivideByte8(v, b) == w
    ensures DivideFold(pre + [b]) == w
  {
    assert (pre + [b])[..|pre|] == pre;
  }

  lemma Mirror32Four0Steps()
    ensures Moves(0xEDB88320, 0xffffffff, 0, 0x2dfd1072) && Moves(0xEDB88320, 0x2dfd1072, 1, 0xc921dd96)
    ensures Moves(0xEDB88320, 0xc921dd96, 2, 0xf7ab7680) && Moves(0xEDB88320, 0xf7ab7680, 3, 0x744679ec)
  {
  }

  lemma Mirror32Four0(pre: seq<bv8>)
    requires MirrorFold(0xEDB88320, 0xFFFFFFFF, pre) == 0xffffffff
    ensures MirrorFold(0xEDB88320, 0xFFFFFFFF, pre + FOUR0) == 0x744679ec
  {
    Mirror32Four0Steps();
    MirrorOne(0xEDB88320, 0xFFFFFFFF, pre, 0x00, 0xffffffff, 0x2dfd1072);
    MirrorOne(0xEDB88320, 0xFFFFFFFF, pre + [0x00], 0x01, 0x2dfd1072, 0xc921dd96);
    MirrorOne(0xEDB88320, 0xFFFFFFFF, pre + [0x00] + [0x01], 0x02, 0xc921dd96, 0xf7ab7680);
    MirrorOne(0xEDB88320, 0xFFFFFFFF, pre + [0x00] + [0x01] + [0x02], 0x03, 0xf7ab7680, 0x744679ec);
    FourAppended(pre, 0x00, 0x01, 0x02, 0x03);
  }

  lemma Mirror32Four1Steps()
    ensures Moves(0xEDB88320, 0x744679ec, 4, 0xaea52c33) && Moves(0xEDB88320, 0xaea52c33, 5, 0xcf1430b5)
    ensures Moves(0xEDB88320, 0xcf1430b5, 6, 0x52a7f606) && Moves(0xEDB88320, 0x52a7f606, 7, 0x77559760)
  {
  }

  lemma Mirror32Four1(pre: seq<bv8>)
    requires MirrorFold(0xEDB88320, 0xFFFFFFFF, pre) == 0x744679ec
    ensures MirrorFold(0xEDB88320, 0xFFFFFFFF, pre + FOUR1) == 0x77559760
  {
    Mirror32Four1Steps();
    MirrorOne(0xEDB88320, 0xFFFFFFFF, pre, 0x04, 0x744679ec, 0xaea52c33);
    MirrorOne(0xEDB88320, 0xFFFFFFFF, pre + [0x04], 0x05, 0xaea52c33, 0xcf1430b5);
    MirrorOne(0xEDB88320, 0xFFFFFFFF, pre + [0x04] + [0x05], 0x06, 0xcf1430b5, 0x52a7f606);
    MirrorOne(0xEDB88320, 0xFFFFFFFF, pre + [0x04] + [0x05] + [0x06], 0x07, 0x52a7f606, 0x77559760);
    FourAppended(pre, 0x04, 0x05, 0x06, 0x07);
  }

  lemma Mirror32Four2Steps()
    ensures Moves(0xEDB88320, 0x77559760, 8, 0x431ebcfd) && Moves(0xEDB88320, 0x431ebcfd, 9, 0xba9328b9)
    ensures Moves(0xEDB88320, 0xba9328b9, 10, 0x52d2711e) && Moves(0xEDB88320, 0x52d2711e, 11, 0x6d8f369a)
  {
  }

  lemma Mirror32Four2(pre: seq<bv8>)
    requires MirrorFold(0xEDB88320, 0xFFFFFFFF, pre) == 0x77559760
    ensures MirrorFold(0xEDB88320, 0xFFFFFFFF, pre + FOUR2) == 0x6d8f369a
  {
    Mirror32Four2Steps();
    MirrorOne(0xEDB88320, 0xFFFFFFFF, pre, 0x08, 0x77559760, 0x431ebcfd);
    MirrorOne(0xEDB88320, 0xFFFFFFFF, pre + [0x08], 0x09, 0x431ebcfd, 0xba9328b9);
    MirrorOne(0xEDB88320, 0xFFFFFFFF, pre + [0x08] + [0x09], 0x0a, 0xba9328b9, 0x52d2711e);
    MirrorOne(0xEDB88320, 0xFFFFFFFF, pre + [0x08] + [0x09] + [0x0a], 0x0b, 0x52d2711e, 0x6d8f369a);
    FourAppended(pre, 0x08, 0x09, 0x0a, 0x0b);
  }

  lemma Mirror32Four3Steps()
    ensures Moves(0xEDB88320, 0x6d8f369a, 12, 0x1901b947) && Moves(0xEDB88320, 0x1901b947, 13, 0x9610a937)
    ensures Moves(0xEDB88320, 0x9610a937, 14, 0x5f9398a1) && Moves(0xEDB88320, 0x5f9398a1, 15, 0x31311d77)
  {
  }

  lemma Mirror32Four3(pre: seq<bv8>)
    requires MirrorFold(0xEDB88320, 0xFFFFFFFF, pre) == 0x6d8f369a
    ensures MirrorFold(0xEDB88320, 0xFFFFFFFF, pre + FOUR3) == 0x31311d77
  {
    Mirror32Four3Steps();
    MirrorOne(0xEDB88320, 0xFFFFFFFF, pre, 0x0c, 0x6d8f369a, 0x1901b947);
    MirrorOne(0xEDB88320, 0xFFFFFFFF, pre + [0x0c], 0x0d, 0x1901b947, 0x9610a937);
    MirrorOne(0xEDB88320, 0xFFFFFFFF, pre + [0x0c] + [0x0d], 0x0e, 0x9610a937, 0x5f9398a1);
    MirrorOne(0xEDB88320, 0xFFFFFFFF, pre + [0x0c] + [0x0d] + [0x0e], 0x0f, 0x5f9398a1, 0x31311d77);
    FourAppended(pre, 0x0c, 0x0d, 0x0e, 0x0f);
  }

  lemma Mirror32Four4Steps()
    ensures Moves(0xEDB88320, 0x31311d77, 16, 0xd3e7c5e6) && Moves(0xEDB88320, 0xd3e7c5e6, 17, 0x230a807a)
    ensures Moves(0xEDB88320, 0x230a807a, 18, 0x434ae3ea) && Moves(0xEDB88320, 0x434ae3ea, 19, 0xc422005b)
  {
  }

  lemma Mirror32Four4(pre: seq<bv8>)
    requires MirrorFold(0xEDB88320, 0xFFFFFFFF, pre) == 0x31311d77
    ensures MirrorFold(0xEDB88320, 0xFFFFFFFF, pre + FOUR4) == 0xc422005b
  {
    Mirror32Four4Steps();
    MirrorOne(0xEDB88320, 0xFFFFFFFF, pre, 0x10, 0x31311d77, 0xd3e7c5e6);
    MirrorOne(0xEDB88320, 0xFFFFFFFF, pre + [0x10], 0x11, 0xd3e7c5e6, 0x230a807a);
    MirrorOne(0xEDB88320, 0xFFFFFFFF, pre + [0x10] + [0x11], 0x12, 0x230a807a, 0x434ae3ea);
    MirrorOne(0xEDB88320, 0xFFFFFFFF, pre + [0x10] + [0x11] + [0x12], 0x13, 0x434ae3ea, 0xc422005b);
    FourAppended(pre, 0x10, 0x11, 0x12, 0x13);
  }

  lemma Mirror32Four5Steps()
    ensures Moves(0xEDB88320, 0xc422005b, 20, 0xe6a77e01) && Moves(0xEDB88320, 0xe6a77e01, 21, 0x1a3c7303)
    ensures Moves(0xEDB88320, 0x1a3c7303, 22, 0x6dc7d898) && Moves(0xEDB88320, 0x6dc7d898, 23, 0x7d6a5969)
  {
  }

  lemma Mirror32Four5(pre: seq<bv8>)
    requires MirrorFold(0xEDB88320, 0xFFFFFFFF, pre) == 0xc422005b
    ensures MirrorFold(0xEDB88320, 0xFFFFFFFF, pre + FOUR5) == 0x7d6a5969
  {
    Mirror32Four5Steps();
    MirrorOne(0xEDB88320, 0xFFFFFFFF, pre, 0x14, 0xc422005b, 0xe6a77e01);
    MirrorOne(0xEDB88320, 0xFFFFFFFF, pre + [0x14], 0x15, 0xe6a77e01, 0x1a3c7303);
    MirrorOne(0xEDB88320, 0xFFFFFFFF, pre + [0x14] + [0x15], 0x16, 0x1a3c7303, 0x6dc7d898);
    MirrorOne(0xEDB88320, 0xFFFFFFFF, pre + [0x14] + [0x15] + [0x16], 0x17, 0x6dc7d898, 0x7d6a5969);
    FourAppended(pre, 0x14, 0x15, 0x16, 0x17);
  }

  lemma Mirror32Four6Steps()
    ensures Moves(0xEDB88320, 0x7d6a5969, 24, 0x277f2bf3) && Moves(0xEDB88320, 0x277f2bf3, 25, 0x40f8744d)
    ensures Moves(0xEDB88320, 0x40f8744d, 26, 0xf54f3c23) && Moves(0xEDB88320, 0xf54f3c23, 27, 0x28f7f7a2)
  {
  }

  lemma Mirror32Four6(pre: seq<bv8>)
    requires MirrorFold(0xEDB88320, 0xFFFFFFFF, pre) == 0x7d6a5969
    ensures MirrorFold(0xEDB88320, 0xFFFFFFFF, pre + FOUR6) == 0x28f7f7a2
  {
    Mirror32Four6Steps();
    MirrorOne(0xEDB88320, 0xFFFFFFFF, pre, 0x18, 0x7d6a5969, 0x277f2bf3);
    MirrorOne(0xEDB88320, 0xFFFFFFFF, pre + [0x18], 0x19, 0x277f2bf3, 0x40f8744d);
    MirrorOne(0xEDB88320, 0xFFFFFFFF, pre + [0x18] + [0x19], 0x1a, 0x40f8744d, 0xf54f3c23);
    MirrorOne(0xEDB88320, 0xFFFFFFFF, pre + [0x18] + [0x19] + [0x1a], 0x1b, 0xf54f3c23, 0x28f7f7a2);
    FourAppended(pre, 0x18, 0x19, 0x1a, 0x1b);
  }

  lemma Mirror32Four7Steps()
    ensures Moves(0xEDB88320, 0x28f7f7a2, 28, 0x2cf1697c) && Moves(0xEDB88320, 0x2cf1697c, 29, 0x3a99a0a7)
    ensures Moves(0xEDB88320, 0x3a99a0a7, 30, 0xb2879288) && Moves(0xEDB88320, 0xb2879288, 31, 0x6ed98175)
  {
  }

  lemma Mirror32Four7(pre: seq<bv8>)
    requires MirrorFold(0xEDB88320, 0xFFFFFFFF, pre) == 0x28f7f7a2
    ensures MirrorFold(0xEDB88320, 0xFFFFFFFF, pre + FOUR7) == 0x6ed98175
  {
    Mirror32Four7Steps();
    MirrorOne(0xEDB88320, 0xFFFFFFFF, pre, 0x1c, 0x28f7f7a2, 0x2cf1697c);
    MirrorOne(0xEDB88320, 0xFFFFFFFF, pre + [0x1c], 0x1d, 0x2cf1697c, 0x3a99a0a7);
    MirrorOne(0xEDB88320, 0xFFFFFFFF, pre + [0x1c] + [0x1d], 0x1e, 0x3a99a0a7, 0xb2879288);
    MirrorOne(0xEDB88320, 0xFFFFFFFF, pre + [0x1c] + [0x1d] + [0x1e], 0x1f, 0xb2879288, 0x6ed98175);
    FourAppended(pre, 0x1c, 0x1d, 0x1e, 0x1f);
  }

  lemma Mirror32Data()
    ensures MirrorFold(0xEDB88320, 0xFFFFFFFF, DATA) == 0x6ed98175
  {
    assert [] + FOUR0 == FOUR0;
    Mirror32Four0([]);
    Mirror32Four1(FOUR0);
    Mirror32Four2(FOUR0 + FOUR1);
    Mirror32Four3(FOUR0 + FOUR1 + FOUR2);
    Mirror32Four4(FOUR0 + FOUR1 + FOUR2 + FOUR3);
    Mirror32Four5(FOUR0 + FOUR1 + FOUR2 + FOUR3 + FOUR4);
    Mirror32Four6(FOUR0 + FOUR1 + FOUR2 + FOUR3 + FOUR4 + FOUR5);
    Mirror32Four7(FOUR0 + FOUR1 + FOUR2 + FOUR3 + FOUR4 + FOUR5 + FOUR6);
  }

  lemma Mirror16Four0Steps()
    ensures Moves(0xA001, 0x0000, 0, 0x0000) && Moves(0xA001, 0x0000, 1, 0xc0c1)
    ensures Moves(0xA001, 0xc0c1, 2, 0x5180) && Moves(0xA001, 0x5180, 3, 0xa110)
  {
  }

  lemma Mirror16Four0(pre: seq<bv8>)
    requires MirrorFold(0xA001, 0, pre) == 0x0000
    ensures MirrorFold(0xA001, 0, pre + FOUR0) == 0xa110
  {
    Mirror16Four0Steps();
    MirrorOne(0xA001, 0, pre, 0x00, 0x0000, 0x0000);
    MirrorOne(0xA001, 0, pre + [0x00], 0x01, 0x0000, 0xc0c1);
    MirrorOne(0xA001, 0, pre + [0x00] + [0x01], 0x02, 0xc0c1, 0x5180);
    MirrorOne(0xA001, 0, pre + [0x00] + [0x01] + [0x02], 0x03, 0x5180, 0xa110);
    FourAppended(pre, 0x00, 0x01, 0x02, 0x03);
  }

  lemma Mirror16Four1Steps()
    ensures Moves(0xA001, 0xa110, 4, 0x0fa1) && Moves(0xA001, 0x0fa1, 5, 0xbb0e)
    ensures Moves(0xA001, 0xbb0e, 6, 0xc6ba) && Moves(0xA001, 0xc6ba, 7, 0x7106)
  {
  }

  lemma Mirror16Four1(pre: seq<bv8>)
    requires MirrorFold(0xA001, 0, pre) == 0xa110
    ensures MirrorFold(0xA001, 0, pre + FOUR1) == 0x7106
  {
    Mirror16Four1Steps();
    MirrorOne(0xA001, 0, pre, 0x04, 0xa110, 0x0fa1);
    MirrorOne(0xA001, 0, pre + [0x04], 0x05, 0x0fa1, 0xbb0e);
    MirrorOne(0xA001, 0, pre + [0x04] + [0x05], 0x06, 0xbb0e, 0xc6ba);
    MirrorOne(0xA001, 0, pre + [0x04] + [0x05] + [0x06], 0x07, 0xc6ba, 0x7106);
    FourAppended(pre, 0x04, 0x05, 0x06, 0x07);
  }

  lemma Mirror16Four2Steps()
    ensures Moves(0xA001, 0x7106, 8, 0xc4f0) && Moves(0xA001, 0xc4f0, 9, 0x4204)
    ensures Moves(0xA001, 0x4204, 10, 0xc4c3) && Moves(0xA001, 0xc4c3, 11, 0x96c5)
  {
  }

  lemma Mirror16Four2(pre: seq<bv8>)
    requires MirrorFold(0xA001, 0, pre) == 0x7106
    ensures MirrorFold(0xA001, 0, pre + FOUR2) == 0x96c5
  {
    Mirror16Four2Steps();
    MirrorOne(0xA001, 0, pre, 0x08, 0x7106, 0xc4f0);
    MirrorOne(0xA001, 0, pre + [0x08], 0x09, 0xc4f0, 0x4204);
    MirrorOne(0xA001, 0, pre + [0x08] + [0x09], 0x0a, 0x4204, 0xc4c3);
    MirrorOne(0xA001, 0, pre + [0x08] + [0x09] + [0x0a], 0x0b, 0xc4c3, 0x96c5);
    FourAppended(pre, 0x08, 0x09, 0x0a, 0x0b);
  }

  lemma Mirror16Four3Steps()
    ensures Moves(0xA001, 0x96c5, 12, 0x5656) && Moves(0xA001, 0x5656, 13, 0xfb17)
    ensures Moves(0xA001, 0xfb17, 14, 0xca3a) && Moves(0xA001, 0xca3a, 15, 0x170a)
  {
  }

  lemma Mirror16Four3(pre: seq<bv8>)
    requires MirrorFold(0xA001, 0, pre) == 0x96c5
    ensures MirrorFold(0xA001, 0, pre + FOUR3) == 0x170a
  {
    Mirror16Four3Steps();
    MirrorOne(0xA001, 0, pre, 0x0c, 0x96c5, 0x5656);
    MirrorOne(0xA001, 0, pre + [0x0c], 0x0d, 0x5656, 0xfb17);
    MirrorOne(0xA001, 0, pre + [0x0c] + [0x0d], 0x0e, 0xfb17, 0xca3a);
    MirrorOne(0xA001, 0, pre + [0x0c] + [0x0d] + [0x0e], 0x0f, 0xca3a, 0x170a);
    FourAppended(pre, 0x0c, 0x0d, 0x0e, 0x0f);
  }

  lemma Mirror16Four4Steps()
    ensures Moves(0xA001, 0x170a, 16, 0xcb96) && Moves(0xA001, 0xcb96, 17, 0x628b)
    ensures Moves(0xA001, 0x628b, 18, 0x6aa2) && Moves(0xA001, 0x6aa2, 19, 0x74aa)
  {
  }

  lemma Mirror16Four4(pre: seq<bv8>)
    requires MirrorFold(0xA001, 0, pre) == 0x170a
    ensures MirrorFold(0xA001, 0, pre + FOUR4) == 0x74aa
  {
    Mirror16Four4Steps();
    MirrorOne(0xA001, 0, pre, 0x10, 0x170a, 0xcb96);
    MirrorOne(0xA001, 0, pre + [0x10], 0x11, 0xcb96, 0x628b);
    MirrorOne(0xA001, 0, pre + [0x10] + [0x11], 0x12, 0x628b, 0x6aa2);
    MirrorOne(0xA001, 0, pre + [0x10] + [0x11] + [0x12], 0x13, 0x6aa2, 0x74aa);
    FourAppended(pre, 0x10, 0x11, 0x12, 0x13);
  }

  lemma Mirror16Four5Steps()
    ensures Moves(0xA001, 0x74aa, 20, 0x70f4) && Moves(0xA001, 0x70f4, 21, 0x48b0)
    ensures Moves(0xA001, 0x48b0, 22, 0x7ac8) && Moves(0xA001, 0x7ac8, 23, 0x983b)
  {
  }

  lemma Mirror16Four5(pre: seq<bv8>)
    requires MirrorFold(0xA001, 0, pre) == 0x74aa
    ensures MirrorFold(0xA001, 0, pre + FOUR5) == 0x983b
  {
    Mirror16Four5Steps();
    MirrorOne(0xA001, 0, pre, 0x14, 0x74aa, 0x70f4);
    MirrorOne(0xA001, 0, pre + [0x14], 0x15, 0x70f4, 0x48b0);
    MirrorOne(0xA001, 0, pre + [0x14] + [0x15], 0x16, 0x48b0, 0x7ac8);
    MirrorOne(0xA001, 0, pre + [0x14] + [0x15] + [0x16], 0x17, 0x7ac8, 0x983b);
    FourAppended(pre, 0x14, 0x15, 0x16, 0x17);
  }

  lemma Mirror16Four6Steps()
    ensures Moves(0xA001, 0x983b, 24, 0xd9d9) && Moves(0xA001, 0xd9d9, 25, 0x50d9)
    ensures Moves(0xA001, 0x50d9, 26, 0x5110) && Moves(0xA001, 0x5110, 27, 0xc710)
  {
  }

  lemma Mirror16Four6(pre: seq<bv8>)
    requires MirrorFold(0xA001, 0, pre) == 0x983b
    ensures MirrorFold(0xA001, 0, pre + FOUR6) == 0xc710
  {
    Mirror16Four6Steps();
    MirrorOne(0xA001, 0, pre, 0x18, 0x983b, 0xd9d9);
    MirrorOne(0xA001, 0, pre + [0x18], 0x19, 0xd9d9, 0x50d9);
    MirrorOne(0xA001, 0, pre + [0x18] + [0x19], 0x1a, 0x50d9, 0x5110);
    MirrorOne(0xA001, 0, pre + [0x18] + [0x19] + [0x1a], 0x1b, 0x5110, 0xc710);
    FourAppended(pre, 0x18, 0x19, 0x1a, 0x1b);
  }

  lemma Mirror16Four7Steps()
    ensures Moves(0xA001, 0xc710, 28, 0x05c7) && Moves(0xA001, 0x05c7, 29, 0x9b84)
    ensures Moves(0xA001, 0x9b84, 30, 0x6b1b) && Moves(0xA001, 0x6b1b, 31, 0xc36a)
  {
  }

  lemma Mirror16Four7(pre: seq<bv8>)
    requires MirrorFold(0xA001, 0, pre) == 0xc710
    ensures MirrorFold(0xA001, 0, pre + FOUR7) == 0xc36a
  {
    Mirror16Four7Steps();
    MirrorOne(0xA001, 0, pre, 0x1c, 0xc710, 0x05c7);
    MirrorOne(0xA001, 0, pre + [0x1c], 0x1d, 0x05c7, 0x9b84);
    MirrorOne(0xA001, 0, pre + [0x1c] + [0x1d], 0x1e, 0x9b84, 0x6b1b);
    MirrorOne(0xA001, 0, pre + [0x1c] + [0x1d] + [0x1e], 0x1f, 0x6b1b, 0xc36a);
    FourAppended(pre, 0x1c, 0x1d, 0x1e, 0x1f);
  }

  lemma Mirror16Data()
    ensures MirrorFold(0xA001, 0, DATA) == 0xc36a
  {
    assert [] + FOUR0 == FOUR0;
    Mirror16Four0([]);
    Mirror16Four1(FOUR0);
    Mirror16Four2(FOUR0 + FOUR1);
    Mirror16Four3(FOUR0 + FOUR1 + FOUR2);
    Mirror16Four4(FOUR0 + FOUR1 + FOUR2 + FOUR3);
    Mirror16Four5(FOUR0 + FOUR1 + FOUR2 + FOUR3 + FOUR4);
    Mirror16Four6(FOUR0 + FOUR1 + FOUR2 + FOUR3 + FOUR4 + FOUR5);
    Mirror16Four7(FOUR0 + FOUR1 + FOUR2 + FOUR3 + FOUR4 + FOUR5 + FOUR6);
  }

  lemma Divide8Four0Steps()
    ensures DivideByte8(0x00, 0) == 0x00 && DivideByte8(0x00, 1) == 0x07
    ensures DivideByte8(0x07, 2) == 0x1b && DivideByte8(0x1b, 3) == 0x48
  {
  }

  lemma Divide8Four0(pre: seq<bv8>)
    requires DivideFold(pre) == 0x00
    ensures DivideFold(pre + FOUR0) == 0x48
  {
    Divide8Four0Steps();
    DivideOne(pre, 0x00, 0x00, 0x00);
    DivideOne(pre + [0x00], 0x01, 0x00, 0x07);
    DivideOne(pre + [0x00] + [0x01], 0x02, 0x07, 0x1b);
    DivideOne(pre + [0x00] + [0x01] + [0x02], 0x03, 0x1b, 0x48);
    FourAppended(pre, 0x00, 0x01, 0x02, 0x03);
  }

  lemma Divide8Four1Steps()
    ensures DivideByte8(0x48, 4) == 0xe3 && DivideByte8(0xe3, 5) == 0xbc
    ensures DivideByte8(0xbc, 6) == 0x2f && DivideByte8(0x2f, 7) == 0xd8
  {
  }

  lemma Divide8Four1(pre: seq<bv8>)
    requires DivideFold(pre) == 0x48
    ensures DivideFold(pre + FOUR1) == 0xd8
  {
    Divide8Four1Steps();
    DivideOne(pre, 0x04, 0x48, 0xe3);
    DivideOne(pre + [0x04], 0x05, 0xe3, 0xbc);
    DivideOne(pre + [0x04] + [0x05], 0x06, 0xbc, 0x2f);
    DivideOne(pre + [0x04] + [0x05] + [0x06], 0x07, 0x2f, 0xd8);
    FourAppended(pre, 0x04, 0x05, 0x06, 0x07);
  }

  lemma Divide8Four2Steps()
    ensures DivideByte8(0xd8, 8) == 0x3e && DivideByte8(0x3e, 9) == 0x85
    ensures DivideByte8(0x85, 10) == 0xa4 && DivideByte8(0xa4, 11) == 0x44
  {
  }

  lemma Divide8Four2(pre: seq<bv8>)
    requires DivideFold(pre) == 0xd8
    ensures DivideFold(pre + FOUR2) == 0x44
  {
    Divide8Four2Steps();
    DivideOne(pre, 0x08, 0xd8, 0x3e);
    DivideOne(pre + [0x08], 0x09, 0x3e, 0x85);
    DivideOne(pre + [0x08] + [0x09], 0x0a, 0x85, 0xa4);
    DivideOne(pre + [0x08] + [0x09] + [0x0a], 0x0b, 0xa4, 0x44);
    FourAppended(pre, 0x08, 0x09, 0x0a, 0x0b);
  }

  lemma Divide8Four3Steps()
    ensures DivideByte8(0x44, 12) == 0xff && DivideByte8(0xff, 13) == 0xd0
    ensures DivideByte8(0xd0, 14) == 0x14 && DivideByte8(0x14, 15) == 0x41
  {
  }

  lemma Divide8Four3(pre: seq<bv8>)
    requires DivideFold(pre) == 0x44
    ensures DivideFold(pre + FOUR3) == 0x41
  {
    Divide8Four3Steps();
    DivideOne(pre, 0x0c, 0x44, 0xff);
    DivideOne(pre + [0x0c], 0x0d, 0xff, 0xd0);
    DivideOne(pre + [0x0c] + [0x0d], 0x0e, 0xd0, 0x14);
    DivideOne(pre + [0x0c] + [0x0d] + [0x0e], 0x0f, 0x14, 0x41);
    FourAppended(pre, 0x0c, 0x0d, 0x0e, 0x0f);
  }

  lemma Divide8Four4Steps()
    ensures DivideByte8(0x41, 16) == 0xb0 && DivideByte8(0xb0, 17) == 0x6e
    ensures DivideByte8(0x6e, 18) == 0x73 && DivideByte8(0x73, 19) == 0x27
  {
  }

  lemma Divide8Four4(pre: seq<bv8>)
    requires DivideFold(pre) == 0x41
    ensures DivideFold(pre + FOUR4) == 0x27
  {
    Divide8Four4Steps();
    DivideOne(pre, 0x10, 0x41, 0xb0);
    DivideOne(pre + [0x10], 0x11, 0xb0, 0x6e);
    DivideOne(pre + [0x10] + [0x11], 0x12, 0x6e, 0x73);
    DivideOne(pre + [0x10] + [0x11] + [0x12], 0x13, 0x73, 0x27);
    FourAppended(pre, 0x10, 0x11, 0x12, 0x13);
  }

  lemma Divide8Four5Steps()
    ensures DivideByte8(0x27, 20) == 0x99 && DivideByte8(0x99, 21) == 0xad
    ensures DivideByte8(0xad, 22) == 0x28 && DivideByte8(0x28, 23) == 0xbd
  {
  }

  lemma Divide8Four5(pre: seq<bv8>)
    requires DivideFold(pre) == 0x27
    ensures DivideFold(pre + FOUR5) == 0xbd
  {
    Divide8Four5Steps();
    DivideOne(pre, 0x14, 0x27, 0x99);
    DivideOne(pre + [0x14], 0x15, 0x99, 0xad);
    DivideOne(pre + [0x14] + [0x15], 0x16, 0xad, 0x28);
    DivideOne(pre + [0x14] + [0x15] + [0x16], 0x17, 0x28, 0xbd);
    FourAppended(pre, 0x14, 0x15, 0x16, 0x17);
  }

  lemma Divide8Four6Steps()
    ensures DivideByte8(0xbd, 24) == 0x72 && DivideByte8(0x72, 25) == 0x16
    ensures DivideByte8(0x16, 26) == 0x24 && DivideByte8(0x24, 27) == 0xbd
  {
  }

  lemma Divide8Four6(pre: seq<bv8>)
    requires DivideFold(pre) == 0xbd
    ensures DivideFold(pre + FOUR6) == 0xbd
  {
    Divide8Four6Steps();
    DivideOne(pre, 0x18, 0xbd, 0x72);
    DivideOne(pre + [0x18], 0x19, 0x72, 0x16);
    DivideOne(pre + [0x18] + [0x19], 0x1a, 0x16, 0x24);
    DivideOne(pre + [0x18] + [0x19] + [0x1a], 0x1b, 0x24, 0xbd);
    FourAppended(pre, 0x18, 0x19, 0x1a, 0x1b);
  }

  lemma Divide8Four7Steps()
    ensures DivideByte8(0xbd, 28) == 0x6e && DivideByte8(0x6e, 29) == 0x5e
    ensures DivideByte8(0x5e, 30) == 0xc7 && DivideByte8(0xc7, 31) == 0x06
  {
  }

  lemma Divide8Four7(pre: seq<bv8>)
    requires DivideFold(pre) == 0xbd
    ensures DivideFold(pre + FOUR7) == 0x06
  {
    Divide8Four7Steps();
    DivideOne(pre, 0x1c, 0xbd, 0x6e);
    DivideOne(pre + [0x1c], 0x1d, 0x6e, 0x5e);
    DivideOne(pre + [0x1c] + [0x1d], 0x1e, 0x5e, 0xc7);
    DivideOne(pre + [0x1c] + [0x1d] + [0x1e], 0x1f, 0xc7, 0x06);
    FourAppended(pre, 0x1c, 0x1d, 0x1e, 0x1f);
  }

  lemma Divide8Data()
    ensures DivideFold(DATA) == 0x06
  {
    assert [] + FOUR0 == FOUR0;
    Divide8Four0([]);
    Divide8Four1(FOUR0);
    Divide8Four2(FOUR0 + FOUR1);
    Divide8Four3(FOUR0 + FOUR1 + FOUR2);
    Divide8Four4(FOUR0 + FOUR1 + FOUR2 + FOUR3);
    Divide8Four5(FOUR0 + FOUR1 + FOUR2 + FOUR3 + FOUR4);
    Divide8Four6(FOUR0 + FOUR1 + FOUR2 + FOUR3 + FOUR4 + FOUR5);
    Divide8Four7(FOUR0 + FOUR1 + FOUR2 + FOUR3 + FOUR4 + FOUR5 + FOUR6);
  }

  // ----- From words to the driver ------------------------------------------------

  predicate IsEntry(table: seq<bv32>, h: bv32, i: bv8)
    requires |table| == 256
  {
    table[i as nat] == RWord8(i as bv32, h)
  }

  /** A table whose entries are the mirrored remainders steps like the mirrored register. */
  lemma {:induction false} FoldsTable(table: seq<bv32>, h: bv32, x: bv32, buf: seq<bv8>)
    requires |table| == 256 && forall i: bv8 :: IsEntry(table, h, i)
    ensures TableRun(table, x, buf) == MirrorFold(h, x, buf)
    decreases |buf|
  {
    if buf != [] {
      var n := |buf| - 1;
      FoldsTable(table, h, x, buf[..n]);
      var v, b := TableRun(table, x, buf[..n]), buf[n];
      assert IsEntry(table, h, TableIndex(v, b));
      StepsTable(table, h, v, b);
    }
  }

  lemma StepsTable(table: seq<bv32>, h: bv32, v: bv32, b: bv8)
    requires |table| == 256 && IsEntry(table, h, TableIndex(v, b))
    ensures TableStep(table, v, b) == MirrorByte(h, v, b)
  {
    var e := EntryFor(table, h, v, b, TableIndex(v, b));
    MirrorWord(h, v, b, e);
  }

  lemma MirrorWord(h: bv32, v: bv32, b: bv8, e: bv32)
    requires e == RWord8((v ^ (b as bv32)) & 0xFF, h)
    ensures Sum(MirrorByte(h, v, b), e, v)
  {
  }

  lemma EntryFor(table: seq<bv32>, h: bv32, v: bv32, b: bv8, idx: bv8) returns (e: bv32)
    requires |table| == 256 && idx == TableIndex(v, b) && IsEntry(table, h, idx)
    ensures Sum(TableStep(table, v, b), e, v) && e == RWord8((v ^ (b as bv32)) & 0xFF, h)
  {
    e := table[idx as nat];
    StepWord(table, v, b, idx, e);
    EntryWord(table, h, v, b, idx, e);
  }

  lemma EntryWord(table: seq<bv32>, h: bv32, v: bv32, b: bv8, idx: bv8, e: bv32)
    requires |table| == 256 && idx == TableIndex(v, b) && IsEntry(table, h, idx) && e == table[idx as nat]
    ensures e == RWord8((v ^ (b as bv32)) & 0xFF, h)
  {
    IndexLowByte(v, b, idx);
  }

  lemma StepWord(table: seq<bv32>, v: bv32, b: bv8, idx: bv8, e: bv32)
    requires |table| == 256 && idx == TableIndex(v, b) && e == table[idx as nat]
    ensures Sum(TableStep(table, v, b), e, v)
  {
  }

  /** w is the entry e added to the register v moved down by a byte. */
  predicate Sum(w: bv32, e: bv32, v: bv32)
  {
    w == e ^ (v >> 8)
  }

  /** The report of a shipped configuration is that of its table, whichever engine runs. */
  lemma ShippedReport(shipped: CrcConfig, config: CrcConfig, buf: seq<bv8>, r: bv32)
    requires shipped == Crc32Config() || shipped == Crc16Config()
    requires config == shipped || config == shipped.(table := None)
    requires Reports(config, buf, r)
    ensures r == (TableRun(shipped.table.value, shipped.initialVal, buf) ^ shipped.finalVal) & Mask(shipped.polySize)
  {
    var n, crc := shipped.polySize, TableRun(shipped.table.value, shipped.initialVal, buf);
    ShippedTablesAgree(shipped, buf);
    SameMessage(shipped, buf);
    MaskIsMask(n);
    assert BitsOf(r, n) == TableReport(shipped, buf) && Fits(r, n);
    MaskedReport(crc, shipped.finalVal, r, Mask(n), n);
  }

  /** The CRC-32 of the test data is 0x91267E8A, by the table and by computation. */
  lemma Crc32Answer(config: CrcConfig, r: bv32)
    requires config == Crc32Config() || config == Crc32Config().(table := None)
    requires Reports(config, DATA, r)
    ensures r == 0x91267e8a
  {
    var t := Crc32Config().table.value;
    forall i: bv8 ensures IsEntry(t, 0xEDB88320, i) {
      Crc32EntryOk(i);
    }
    FoldsTable(t, 0xEDB88320, 0xFFFFFFFF, DATA);
    Mirror32Data();
    ShippedReport(Crc32Config(), config, DATA, r);
  }

  /** The CRC-16 of the test data is 0xC36A, by the table and by computation. */
  lemma Crc16Answer(config: CrcConfig, r: bv32)
    requires config == Crc16Config() || config == Crc16Config().(table := None)
    requires Reports(config, DATA, r)
    ensures r == 0xc36a
  {
    var t := Crc16Config().table.value;
    forall i: bv8 ensures IsEntry(t, 0xA001, i) {
      Crc16EntryOk(i);
    }
    FoldsTable(t, 0xA001, 0, DATA);
    Mirror16Data();
    ShippedReport(Crc16Config(), config, DATA, r);
  }

  lemma {:induction false} DividedWord(x: bv32)
    ensures Fits(DivideWord(x), 8)
    ensures BitsOf(DivideWord(x), 8) == Step(BitsOf(x, 8), BitsOf(0x07, 8), false)
  {
    var shifted := x << 1;
    OneIsOne(7);
    TopBit(x, One(7), 8);
    BitsOfShiftedLeft(x, 8);
    ByteMask();
    BitsOfMasked(shifted ^ 0x07, 0xFF, 8);
    BitsOfMasked(shifted, 0xFF, 8);
    if x & 0x80 != 0 {
      DivideOn(BitsOf(x, 8), shifted, 0x07, 8);
    } else {
      StepCases(BitsOf(x, 8), BitsOf(0x07, 8));
    }
  }

  lemma DividedWord4(x: bv32, k: nat)
    ensures var g := BitsOf(0x07, 8);
      Run(BitsOf(x, 8), g, Zeros(k + 4)) == Run(BitsOf(DivideWord4(x), 8), g, Zeros(k))
    ensures Fits(DivideWord4(x), 8)
  {
    var g, x1 := BitsOf(0x07, 8), DivideWord(x);
    var x2 := DivideWord(x1);
    var x3 := DivideWord(x2);
    DividedWord(x);
    DividedWord(x1);
    DividedWord(x2);
    DividedWord(x3);
    RunZero(BitsOf(x, 8), g, k + 4);
    RunZero(BitsOf(x1, 8), g, k + 3);
    RunZero(BitsOf(x2, 8), g, k + 2);
    RunZero(BitsOf(x3, 8), g, k + 1);
  }

  lemma DividedByte(x: bv32, b: bv8)
    ensures var y := DivideByte8(x, b);
      BitsOf(y, 8) == Run(BitsOf(x, 8), BitsOf(0x07, 8), BitsOf(b as bv32, 8)) && Fits(y, 8)
  {
    var r, g, d := BitsOf(x, 8), BitsOf(0x07, 8), BitsOf(b as bv32, 8);
    var w := x ^ (b as bv32);
    BitsOfXor(x, b as bv32, 8);
    assert d + Zeros(0) == d;
    RunPreloaded(r, g, d);
    DividedWord4(w, 4);
    DividedWord4(DivideWord4(w), 0);
  }

  lemma {:induction false} FoldsDivision(buf: seq<bv8>)
    ensures Fits(DivideFold(buf), 8)
    ensures BitsOf(DivideFold(buf), 8) == Run(BitsOf(0, 8), BitsOf(0x07, 8), Crc8Config().Message(buf))
    decreases |buf|
  {
    if buf == [] {
      ZeroFits(8);
    } else {
      var n := |buf| - 1;
      FoldsDivision(buf[..n]);
      DividedByte(DivideFold(buf[..n]), buf[n]);
      RunSnoc(BitsOf(0, 8), BitsOf(0x07, 8), Crc8Config().Message(buf[..n]), BitsOf(buf[n] as bv32, 8),
              BitsOf(DivideFold(buf[..n]), 8), BitsOf(DivideFold(buf), 8), Crc8Config().Message(buf));
    }
  }

  lemma RunSnoc(z: Bits, g: Bits, m: Bits, d: Bits, r: Bits, s: Bits, md: Bits)
    requires |z| == |g| > 0 && md == m + d && r == Run(z, g, m) && s == Run(r, g, d)
    ensures s == Run(z, g, md)
  {
    RunConcat(z, g, m, d);
  }

  /** The CRC-8 of the test data, without reflection, is 0x06, and that of the byte 1 is 0x07. */
  lemma Crc8Answer(r: bv32)
    ensures Reports(Crc8Config(), DATA, r) ==> r == 0x06
    ensures Reports(Crc8Config(), [0x01], r) ==> r == 0x07
  {
    if Reports(Crc8Config(), DATA, r) {
      FoldsDivision(DATA);
      Divide8Data();
      Crc8Report(DATA, r, 0x06);
    }
    if Reports(Crc8Config(), [0x01], r) {
      var crc :| Continues(Crc8Config(), 0, [0x01], crc, r);
      SingleBit(Crc8Config(), crc, r);
      assert Mask(8) == 0xFF;
    }
  }

  lemma Crc8Report(buf: seq<bv8>, r: bv32, v: bv32)
    requires Reports(Crc8Config(), buf, r) && Fits(v, 8)
    requires BitsOf(v, 8) == Run(BitsOf(0, 8), BitsOf(0x07, 8), Crc8Config().Message(buf))
    ensures r == v
  {
    BitsOfZero(8);
    assert Xor(BitsOf(v, 8), Zeros(8)) == BitsOf(v, 8);
    FitsEqual(r, v, 8);
  }
}

/** The two shipped configurations and their byte tables. */
module CrcTables {
  import opened Gf2
  import opened Words
  import opened Crc
  import opened CrcEngines
  import opened CrcProperties
  import opened Prelude

  /** Entries 16 * r, ..., 16 * r + 15 of the CRC-32 table. */
  function Crc32Row(r: nat): (row: seq<bv32>)
    requires r < 16
    ensures |row| == 16
  {
    match r
    case 0 => [
      0x00000000, 0x77073096, 0xee0e612c, 0x990951ba,
      0x076dc419, 0x706af48f, 0xe963a535, 0x9e6495a3,
      0x0edb8832, 0x79dcb8a4, 0xe0d5e91e, 0x97d2d988,
      0x09b64c2b, 0x7eb17cbd, 0xe7b82d07, 0x90bf1d91]
    case 1 => [
      0x1db71064, 0x6ab020f2, 0xf3b97148, 0x84be41de,
      0x1adad47d, 0x6ddde4eb, 0xf4d4b551, 0x83d385c7,
      0x136c9856, 0x646ba8c0, 0xfd62f97a, 0x8a65c9ec,
      0x14015c4f, 0x63066cd9, 0xfa0f3d63, 0x8d080df5]
    case 2 => [
      0x3b6e20c8, 0x4c69105e, 0xd56041e4, 0xa2677172,
      0x3c03e4d1, 0x4b04d447, 0xd20d85fd, 0xa50ab56b,
      0x35b5a8fa, 0x42b2986c, 0xdbbbc9d6, 0xacbcf940,
      0x32d86ce3, 0x45df5c75, 0xdcd60dcf, 0xabd13d59]
    case 3 => [
      0x26d930ac, 0x51de003a, 0xc8d75180, 0xbfd06116,
      0x21b4f4b5, 0x56b3c423, 0xcfba9599, 0xb8bda50f,
      0x2802b89e, 0x5f058808, 0xc60cd9b2, 0xb10be924,
      0x2f6f7c87, 0x58684c11, 0xc1611dab, 0xb6662d3d]
    case 4 => [
      0x76dc4190, 0x01db7106, 0x98d220bc, 0xefd5102a,
      0x71b18589, 0x06b6b51f, 0x9fbfe4a5, 0xe8b8d433,
      0x7807c9a2, 0x0f00f934, 0x9609a88e, 0xe10e9818,
      0x7f6a0dbb, 0x086d3d2d, 0x91646c97, 0xe6635c01]
    case 5 => [
      0x6b6b51f4, 0x1c6c6162, 0x856530d8, 0xf262004e,
      0x6c0695ed, 0x1b01a57b, 0x8208f4c1, 0xf50fc457,
      0x65b0d9c6, 0x12b7e950, 0x8bbeb8ea, 0xfcb9887c,
      0x62dd1ddf, 0x15da2d49, 0x8cd37cf3, 0xfbd44c65]
    case 6 => [
      0x4db26158, 0x3ab551ce, 0xa3bc0074, 0xd4bb30e2,
      0x4adfa541, 0x3dd895d7, 0xa4d1c46d, 0xd3d6f4fb,
      0x4369e96a, 0x346ed9fc, 0xad678846, 0xda60b8d0,
      0x44042d73, 0x33031de5, 0xaa0a4c5f, 0xdd0d7cc9]
    case 7 => [
      0x5005713c, 0x270241aa, 0xbe0b1010, 0xc90c2086,
      0x5768b525, 0x206f85b3, 0xb966d409, 0xce61e49f,
      0x5edef90e, 0x29d9c998, 0xb0d09822, 0xc7d7a8b4,
      0x59b33d17, 0x2eb40d81, 0xb7bd5c3b, 0xc0ba6cad]
    case 8 => [
      0xedb88320, 0x9abfb3b6, 0x03b6e20c, 0x74b1d29a,
      0xead54739, 0x9dd277af, 0x04db2615, 0x73dc1683,
      0xe3630b12, 0x94643b84, 0x0d6d6a3e, 0x7a6a5aa8,
      0xe40ecf0b, 0x9309ff9d, 0x0a00ae27, 0x7d079eb1]
    case 9 => [
      0xf00f9344, 0x8708a3d2, 0x1e01f268, 0x6906c2fe,
      0xf762575d, 0x806567cb, 0x196c3671, 0x6e6b06e7,
      0xfed41b76, 0x89d32be0, 0x10da7a5a, 0x67dd4acc,
      0xf9b9df6f, 0x8ebeeff9, 0x17b7be43, 0x60b08ed5]
    case 10 => [
      0xd6d6a3e8, 0xa1d1937e, 0x38d8c2c4, 0x4fdff252,
      0xd1bb67f1, 0xa6bc5767, 0x3fb506dd, 0x48b2364b,
      0xd80d2bda, 0xaf0a1b4c, 0x36034af6, 0x41047a60,
      0xdf60efc3, 0xa867df55, 0x316e8eef, 0x4669be79]
    case 11 => [
      0xcb61b38c, 0xbc66831a, 0x256fd2a0, 0x5268e236,
      0xcc0c7795, 0xbb0b4703, 0x220216b9, 0x5505262f,
      0xc5ba3bbe, 0xb2bd0b28, 0x2bb45a92, 0x5cb36a04,
      0xc2d7ffa7, 0xb5d0cf31, 0x2cd99e8b, 0x5bdeae1d]
    case 12 => [
      0x9b64c2b0, 0xec63f226, 0x756aa39c, 0x026d930a,
      0x9c0906a9, 0xeb0e363f, 0x72076785, 0x05005713,
      0x95bf4a82, 0xe2b87a14, 0x7bb12bae, 0x0cb61b38,
      0x92d28e9b, 0xe5d5be0d, 0x7cdcefb7, 0x0bdbdf21]
    case 13 => [
      0x86d3d2d4, 0xf1d4e242, 0x68ddb3f8, 0x1fda836e,
      0x81be16cd, 0xf6b9265b, 0x6fb077e1, 0x18b74777,
      0x88085ae6, 0xff0f6a70, 0x66063bca, 0x11010b5c,
      0x8f659eff, 0xf862ae69, 0x616bffd3, 0x166ccf45]
    case 14 => [
      0xa00ae278, 0xd70dd2ee, 0x4e048354, 0x3903b3c2,
      0xa7672661, 0xd06016f7, 0x4969474d, 0x3e6e77db,
      0xaed16a4a, 0xd9d65adc, 0x40df0b66, 0x37d83bf0,
      0xa9bcae53, 0xdebb9ec5, 0x47b2cf7f, 0x30b5ffe9]
    case _ => [
      0xbdbdf21c, 0xcabac28a, 0x53b39330, 0x24b4a3a6,
      0xbad03605, 0xcdd70693, 0x54de5729, 0x23d967bf,
      0xb3667a2e, 0xc4614ab8, 0x5d681b02, 0x2a6f2b94,
      0xb40bbe37, 0xc30c8ea1, 0x5a05df1b, 0x2d02ef8d]
  }

  /** Entries 16 * r, ..., 16 * r + 15 of the CRC-16 table. */
  function Crc16Row(r: nat): (row: seq<bv32>)
    requires r < 16
    ensures |row| == 16
  {
    match r
    case 0 => [
      0x0000, 0xc0c1, 0xc181, 0x0140, 0xc301, 0x03c0, 0x0280, 0xc241,
      0xc601, 0x06c0, 0x0780, 0xc741, 0x0500, 0xc5c1, 0xc481, 0x0440]
    case 1 => [
      0xcc01, 0x0cc0, 0x0d80, 0xcd41, 0x0f00, 0xcfc1, 0xce81, 0x0e40,
      0x0a00, 0xcac1, 0xcb81, 0x0b40, 0xc901, 0x09c0, 0x0880, 0xc841]
    case 2 => [
      0xd801, 0x18c0, 0x1980, 0xd941, 0x1b00, 0xdbc1, 0xda81, 0x1a40,
      0x1e00, 0xdec1, 0xdf81, 0x1f40, 0xdd01, 0x1dc0, 0x1c80, 0xdc41]
    case 3 => [
      0x1400, 0xd4c1, 0xd581, 0x1540, 0xd701, 0x17c0, 0x1680, 0xd641,
      0xd201, 0x12c0, 0x1380, 0xd341, 0x1100, 0xd1c1, 0xd081, 0x1040]
    case 4 => [
      0xf001, 0x30c0, 0x3180, 0xf141, 0x3300, 0xf3c1, 0xf281, 0x3240,
      0x3600, 0xf6c1, 0xf781, 0x3740, 0xf501, 0x35c0, 0x3480, 0xf441]
    case 5 => [
      0x3c00, 0xfcc1, 0xfd81, 0x3d40, 0xff01, 0x3fc0, 0x3e80, 0xfe41,
      0xfa01, 0x3ac0, 0x3b80, 0xfb41, 0x3900, 0xf9c1, 0xf881, 0x3840]
    case 6 => [
      0x2800, 0xe8c1, 0xe981, 0x2940, 0xeb01, 0x2bc0, 0x2a80, 0xea41,
      0xee01, 0x2ec0, 0x2f80, 0xef41, 0x2d00, 0xedc1, 0xec81, 0x2c40]
    case 7 => [
      0xe401, 0x24c0, 0x2580, 0xe541, 0x2700, 0xe7c1, 0xe681, 0x2640,
      0x2200, 0xe2c1, 0xe381, 0x2340, 0xe101, 0x21c0, 0x2080, 0xe041]
    case 8 => [
      0xa001, 0x60c0, 0x6180, 0xa141, 0x6300, 0xa3c1, 0xa281, 0x6240,
      0x6600, 0xa6c1, 0xa781, 0x6740, 0xa501, 0x65c0, 0x6480, 0xa441]
    case 9 => [
      0x6c00, 0xacc1, 0xad81, 0x6d40, 0xaf01, 0x6fc0, 0x6e80, 0xae41,
      0xaa01, 0x6ac0, 0x6b80, 0xab41, 0x6900, 0xa9c1, 0xa881, 0x6840]
    case 10 => [
      0x7800, 0xb8c1, 0xb981, 0x7940, 0xbb01, 0x7bc0, 0x7a80, 0xba41,
      0xbe01, 0x7ec0, 0x7f80, 0xbf41, 0x7d00, 0xbdc1, 0xbc81, 0x7c40]
    case 11 => [
      0xb401, 0x74c0, 0x7580, 0xb541, 0x7700, 0xb7c1, 0xb681, 0x7640,
      0x7200, 0xb2c1, 0xb381, 0x7340, 0xb101, 0x71c0, 0x7080, 0xb041]
    case 12 => [
      0x5000, 0x90c1, 0x9181, 0x5140, 0x9301, 0x53c0, 0x5280, 0x9241,
      0x9601, 0x56c0, 0x5780, 0x9741, 0x5500, 0x95c1, 0x9481, 0x5440]
    case 13 => [
      0x9c01, 0x5cc0, 0x5d80, 0x9d41, 0x5f00, 0x9fc1, 0x9e81, 0x5e40,
      0x5a00, 0x9ac1, 0x9b81, 0x5b40, 0x9901, 0x59c0, 0x5880, 0x9841]
    case 14 => [
      0x8801, 0x48c0, 0x4980, 0x8941, 0x4b00, 0x8bc1, 0x8a81, 0x4a40,
      0x4e00, 0x8ec1, 0x8f81, 0x4f40, 0x8d01, 0x4dc0, 0x4c80, 0x8c41]
    case _ => [
      0x4400, 0x84c1, 0x8581, 0x4540, 0x8701, 0x47c0, 0x4680, 0x8641,
      0x8201, 0x42c0, 0x4380, 0x8341, 0x4100, 0x81c1, 0x8081, 0x4040]
  }

  function TableOf(row: nat --> seq<bv32>): (t: seq<bv32>)
    requires forall r: nat :: r < 16 ==> row.requires(r) && |row(r)| == 16
    ensures |t| == 256 && forall i :: 0 <= i < 256 ==> t[i] == row(i / 16)[i % 16]
  {
    seq(256, i requires 0 <= i < 256 && row.requires(i / 16) && |row(i / 16)| == 16 => row(i / 16)[i % 16])
  }

  function Crc32Config(): CrcConfig
  {
    CrcConfig(32, 0x04C11DB7, 0xFFFFFFFF, 0xFFFFFFFF, true, true, Some(TableOf(Crc32Row)))
  }

  function Crc16Config(): CrcConfig
  {
    CrcConfig(16, 0x8005, 0, 0, true, true, Some(TableOf(Crc16Row)))
  }

  // ----- Eight mirrored steps on a word ------------------------------------------

  function RStepWord(x: bv32, h: bv32): bv32
  {
    if x & 1 == 1 then (x >> 1) ^ h else x >> 1
  }

  function RWord4(x: bv32, h: bv32): bv32
  {
    RStepWord(RStepWord(RStepWord(RStepWord(x, h), h), h), h)
  }

  function RWord8(x: bv32, h: bv32): bv32
  {
    RWord4(RWord4(x, h), h)
  }

  lemma RStepWordReads(x: bv32, h: bv32, b: Bits, g: Bits)
    requires |b| == |g| > 0 && Reads(x, b) && Reads(h, g)
    ensures Reads(RStepWord(x, h), RStep(b, g))
  {
    var n, x', odd := |b|, x >> 1, x & 1 == 1;
    ShiftedRight(x, x', n);
    Unfold(x, x', odd, n);
    assert b[n-1] == odd;
    if odd {
      RStepOdd(x', h, b, g);
    } else {
      RStepCases(b, g);
    }
  }

  lemma RStepOdd(x': bv32, h: bv32, b: Bits, g: Bits)
    requires |b| == |g| > 0 && b[|b|-1] && Reads(x', [false] + b[..|b|-1]) && Reads(h, g)
    ensures Reads(x' ^ h, RStep(b, g))
  {
    RStepCases(b, g);
    BitsOfXor(x', h, |b|);
    FitsXor(x', h, |b|);
  }

  lemma RStepCases(b: Bits, g: Bits)
    requires |b| == |g| > 0
    ensures b[|b|-1] ==> RStep(b, g) == Xor([false] + b[..|b|-1], g)
    ensures !b[|b|-1] ==> RStep(b, g) == [false] + b[..|b|-1]
  {
  }

  lemma RWord2Reads(x: bv32, h: bv32, b: Bits, g: Bits, k: nat) returns (c: Bits)
    requires |b| == |g| > 0 && Reads(x, b) && Reads(h, g)
    ensures |c| == |g| && Reads(RStepWord(RStepWord(x, h), h), c) && RRun(b, g, k + 2) == RRun(c, g, k)
  {
    RStepWordReads(x, h, b, g);
    RStepWordReads(RStepWord(x, h), h, RStep(b, g), g);
    c := RStep(RStep(b, g), g);
    assert RRun(b, g, k + 2) == RRun(RStep(b, g), g, k + 1);
  }

  lemma RWord4Reads(x: bv32, h: bv32, b: Bits, g: Bits, k: nat) returns (c: Bits)
    requires |b| == |g| > 0 && Reads(x, b) && Reads(h, g)
    ensures |c| == |g| && Reads(RWord4(x, h), c) && RRun(b, g, k + 4) == RRun(c, g, k)
  {
    var b2 := RWord2Reads(x, h, b, g, k + 2);
    c := RWord2Reads(RStepWord(RStepWord(x, h), h), h, b2, g, k);
  }

  lemma RWord8Reads(x: bv32, h: bv32, b: Bits, g: Bits)
    requires |b| == |g| > 0 && Reads(x, b) && Reads(h, g)
    ensures Reads(RWord8(x, h), RRun(b, g, 8))
  {
    var c := RWord4Reads(x, h, b, g, 4);
    var d := RWord4Reads(RWord4(x, h), h, c, g, 0);
    assert RRun(c, g, 4) == RRun(d, g, 0) == d;
  }

  // ----- Every entry of both tables ----------------------------------------------

  predicate Crc32Entry(i: bv8)
  {
    Crc32Row(i as nat / 16)[i as nat % 16] == RWord8(i as bv32, 0xEDB88320)
  }

  predicate Crc16Entry(i: bv8)
  {
    Crc16Row(i as nat / 16)[i as nat % 16] == RWord8(i as bv32, 0xA001)
  }

  lemma Crc32Entry0(i: bv8) ensures i < 0x10 ==> Crc32Entry(i)
  { if i < 0x08 { assert Crc32Entry(i); } else if i < 0x10 { assert Crc32Entry(i); } }
  lemma Crc32Entry1(i: bv8) ensures 0x10 <= i < 0x20 ==> Crc32Entry(i)
  { if 0x10 <= i < 0x18 { assert Crc32Entry(i); } else if 0x18 <= i < 0x20 { assert Crc32Entry(i); } }
  lemma Crc32Entry2(i: bv8) ensures 0x20 <= i < 0x30 ==> Crc32Entry(i)
  { if 0x20 <= i < 0x28 { assert Crc32Entry(i); } else if 0x28 <= i < 0x30 { assert Crc32Entry(i); } }
  lemma Crc32Entry3(i: bv8) ensures 0x30 <= i < 0x40 ==> Crc32Entry(i)
  { if 0x30 <= i < 0x38 { assert Crc32Entry(i); } else if 0x38 <= i < 0x40 { assert Crc32Entry(i); } }
  lemma Crc32Entry4(i: bv8) ensures 0x40 <= i < 0x50 ==> Crc32Entry(i)
  { if 0x40 <= i < 0x48 { assert Crc32Entry(i); } else if 0x48 <= i < 0x50 { assert Crc32Entry(i); } }
  lemma Crc32Entry5(i: bv8) ensures 0x50 <= i < 0x60 ==> Crc32Entry(i)
  { if 0x50 <= i < 0x58 { assert Crc32Entry(i); } else if 0x58 <= i < 0x60 { assert Crc32Entry(i); } }
  lemma Crc32Entry6(i: bv8) ensures 0x60 <= i < 0x70 ==> Crc32Entry(i)
  { if 0x60 <= i < 0x68 { assert Crc32Entry(i); } else if 0x68 <= i < 0x70 { assert Crc32Entry(i); } }
  lemma Crc32Entry7(i: bv8) ensures 0x70 <= i < 0x80 ==> Crc32Entry(i)
  { if 0x70 <= i < 0x78 { assert Crc32Entry(i); } else if 0x78 <= i < 0x80 { assert Crc32Entry(i); } }
  lemma Crc32Entry8(i: bv8) ensures 0x80 <= i < 0x90 ==> Crc32Entry(i)
  { if 0x80 <= i < 0x88 { assert Crc32Entry(i); } else if 0x88 <= i < 0x90 { assert Crc32Entry(i); } }
  lemma Crc32Entry9(i: bv8) ensures 0x90 <= i < 0xa0 ==> Crc32Entry(i)
  { if 0x90 <= i < 0x98 { assert Crc32Entry(i); } else if 0x98 <= i < 0xa0 { assert Crc32Entry(i); } }
  lemma Crc32EntryA(i: bv8) ensures 0xa0 <= i < 0xb0 ==> Crc32Entry(i)
  { if 0xa0 <= i < 0xa8 { assert Crc32Entry(i); } else if 0xa8 <= i < 0xb0 { assert Crc32Entry(i); } }
  lemma Crc32EntryB(i: bv8) ensures 0xb0 <= i < 0xc0 ==> Crc32Entry(i)
  { if 0xb0 <= i < 0xb8 { assert Crc32Entry(i); } else if 0xb8 <= i < 0xc0 { assert Crc32Entry(i); } }
  lemma Crc32EntryC(i: bv8) ensures 0xc0 <= i < 0xd0 ==> Crc32Entry(i)
  { if 0xc0 <= i < 0xc8 { assert Crc32Entry(i); } else if 0xc8 <= i < 0xd0 { assert Crc32Entry(i); } }
  lemma Crc32EntryD(i: bv8) ensures 0xd0 <= i < 0xe0 ==> Crc32Entry(i)
  { if 0xd0 <= i < 0xd8 { assert Crc32Entry(i); } else if 0xd8 <= i < 0xe0 { assert Crc32Entry(i); } }
  lemma Crc32EntryE(i: bv8) ensures 0xe0 <= i < 0xf0 ==> Crc32Entry(i)
  { if 0xe0 <= i < 0xe8 { assert Crc32Entry(i); } else if 0xe8 <= i < 0xf0 { assert Crc32Entry(i); } }
  lemma Crc32EntryF(i: bv8) ensures 0xf0 <= i ==> Crc32Entry(i)
  { if 0xf0 <= i < 0xf8 { assert Crc32Entry(i); } else if 0xf8 <= i { assert Crc32Entry(i); } }

  lemma Crc32EntryOk(i: bv8)
    ensures Crc32Entry(i)
  {
    if i < 0x10 { Crc32Entry0(i); }
    else if i < 0x20 { Crc32Entry1(i); }
    else if i < 0x30 { Crc32Entry2(i); }
    else if i < 0x40 { Crc32Entry3(i); }
    else if i < 0x50 { Crc32Entry4(i); }
    else if i < 0x60 { Crc32Entry5(i); }
    else if i < 0x70 { Crc32Entry6(i); }
    else if i < 0x80 { Crc32Entry7(i); }
    else if i < 0x90 { Crc32Entry8(i); }
    else if i < 0xa0 { Crc32Entry9(i); }
    else if i < 0xb0 { Crc32EntryA(i); }
    else if i < 0xc0 { Crc32EntryB(i); }
    else if i < 0xd0 { Crc32EntryC(i); }
    else if i < 0xe0 { Crc32EntryD(i); }
    else if i < 0xf0 { Crc32EntryE(i); }
    else { Crc32EntryF(i); }
  }

  lemma Crc16Entry0(i: bv8) ensures i < 0x10 ==> Crc16Entry(i)
  { if i < 0x08 { assert Crc16Entry(i); } else if i < 0x10 { assert Crc16Entry(i); } }
  lemma Crc16Entry1(i: bv8) ensures 0x10 <= i < 0x20 ==> Crc16Entry(i)
  { if 0x10 <= i < 0x18 { assert Crc16Entry(i); } else if 0x18 <= i < 0x20 { assert Crc16Entry(i); } }
  lemma Crc16Entry2(i: bv8) ensures 0x20 <= i < 0x30 ==> Crc16Entry(i)
  { if 0x20 <= i < 0x28 { assert Crc16Entry(i); } else if 0x28 <= i < 0x30 { assert Crc16Entry(i); } }
  lemma Crc16Entry3(i: bv8) ensures 0x30 <= i < 0x40 ==> Crc16Entry(i)
  { if 0x30 <= i < 0x38 { assert Crc16Entry(i); } else if 0x38 <= i < 0x40 { assert Crc16Entry(i); } }
  lemma Crc16Entry4(i: bv8) ensures 0x40 <= i < 0x50 ==> Crc16Entry(i)
  { if 0x40 <= i < 0x48 { assert Crc16Entry(i); } else if 0x48 <= i < 0x50 { assert Crc16Entry(i); } }
  lemma Crc16Entry5(i: bv8) ensures 0x50 <= i < 0x60 ==> Crc16Entry(i)
  { if 0x50 <= i < 0x58 { assert Crc16Entry(i); } else if 0x58 <= i < 0x60 { assert Crc16Entry(i); } }
  lemma Crc16Entry6(i: bv8) ensures 0x60 <= i < 0x70 ==> Crc16Entry(i)
  { if 0x60 <= i < 0x68 { assert Crc16Entry(i); } else if 0x68 <= i < 0x70 { assert Crc16Entry(i); } }
  lemma Crc16Entry7(i: bv8) ensures 0x70 <= i < 0x80 ==> Crc16Entry(i)
  { if 0x70 <= i < 0x78 { assert Crc16Entry(i); } else if 0x78 <= i < 0x80 { assert Crc16Entry(i); } }
  lemma Crc16Entry8(i: bv8) ensures 0x80 <= i < 0x90 ==> Crc16Entry(i)
  { if 0x80 <= i < 0x88 { assert Crc16Entry(i); } else if 0x88 <= i < 0x90 { assert Crc16Entry(i); } }
  lemma Crc16Entry9(i: bv8) ensures 0x90 <= i < 0xa0 ==> Crc16Entry(i)
  { if 0x90 <= i < 0x98 { assert Crc16Entry(i); } else if 0x98 <= i < 0xa0 { assert Crc16Entry(i); } }
  lemma Crc16EntryA(i: bv8) ensures 0xa0 <= i < 0xb0 ==> Crc16Entry(i)
  { if 0xa0 <= i < 0xa8 { assert Crc16Entry(i); } else if 0xa8 <= i < 0xb0 { assert Crc16Entry(i); } }
  lemma Crc16EntryB(i: bv8) ensures 0xb0 <= i < 0xc0 ==> Crc16Entry(i)
  { if 0xb0 <= i < 0xb8 { assert Crc16Entry(i); } else if 0xb8 <= i < 0xc0 { assert Crc16Entry(i); } }
  lemma Crc16EntryC(i: bv8) ensures 0xc0 <= i < 0xd0 ==> Crc16Entry(i)
  { if 0xc0 <= i < 0xc8 { assert Crc16Entry(i); } else if 0xc8 <= i < 0xd0 { assert Crc16Entry(i); } }
  lemma Crc16EntryD(i: bv8) ensures 0xd0 <= i < 0xe0 ==> Crc16Entry(i)
  { if 0xd0 <= i < 0xd8 { assert Crc16Entry(i); } else if 0xd8 <= i < 0xe0 { assert Crc16Entry(i); } }
  lemma Crc16EntryE(i: bv8) ensures 0xe0 <= i < 0xf0 ==> Crc16Entry(i)
  { if 0xe0 <= i < 0xe8 { assert Crc16Entry(i); } else if 0xe8 <= i < 0xf0 { assert Crc16Entry(i); } }
  lemma Crc16EntryF(i: bv8) ensures 0xf0 <= i ==> Crc16Entry(i)
  { if 0xf0 <= i < 0xf8 { assert Crc16Entry(i); } else if 0xf8 <= i { assert Crc16Entry(i); } }

  lemma Crc16EntryOk(i: bv8)
    ensures Crc16Entry(i)
  {
    if i < 0x10 { Crc16Entry0(i); }
    else if i < 0x20 { Crc16Entry1(i); }
    else if i < 0x30 { Crc16Entry2(i); }
    else if i < 0x40 { Crc16Entry3(i); }
    else if i < 0x50 { Crc16Entry4(i); }
    else if i < 0x60 { Crc16Entry5(i); }
    else if i < 0x70 { Crc16Entry6(i); }
    else if i < 0x80 { Crc16Entry7(i); }
    else if i < 0x90 { Crc16Entry8(i); }
    else if i < 0xa0 { Crc16Entry9(i); }
    else if i < 0xb0 { Crc16EntryA(i); }
    else if i < 0xc0 { Crc16EntryB(i); }
    else if i < 0xd0 { Crc16EntryC(i); }
    else if i < 0xe0 { Crc16EntryD(i); }
    else if i < 0xf0 { Crc16EntryE(i); }
    else { Crc16EntryF(i); }
  }

  // ----- The mirrored generators -------------------------------------------------

  /** Bit by bit, the low n bits of y are those of x in reverse. */
  predicate Mirrors(x: bv32, y: bv32, n: nat)
    requires n <= 32
    decreases n
  {
    n == 0 || ((x & 1 == 1) == (y & One(n - 1) != 0) && Mirrors(x >> 1, y, n - 1))
  }

  lemma {:induction false} MirrorsReverses(x: bv32, y: bv32, n: nat)
    requires n <= 32 && Mirrors(x, y, n)
    ensures BitsOf(y, n) == Reverse(BitsOf(x, n))
    decreases n
  {
    if n > 0 {
      var x', b := x >> 1, x & 1 == 1;
      Unfold(x, x', b, n);
      MirrorsReverses(x', y, n - 1);
      OneIsOne(n - 1);
      TopAndRest(y, One(n - 1), b, n);
      MirrorSnoc(BitsOf(x', n - 1), BitsOf(y, n - 1), b, BitsOf(x, n), BitsOf(y, n));
    }
  }

  lemma TopAndRest(y: bv32, m: bv32, b: bool, n: nat)
    requires 1 <= n <= 32 && IsOne(m, n - 1) && b == (y & m != 0)
    ensures BitsOf(y, n) == [b] + BitsOf(y, n - 1)
  {
    TopBit(y, m, n);
    BitsOfLow(y, n, n - 1);
    assert BitsOf(y, n) == [b] + BitsOf(y, n)[1..];
  }

  lemma MirrorSnoc(u: Bits, v: Bits, b: bool, x: Bits, y: Bits)
    requires v == Reverse(u) && x == u + [b] && y == [b] + v
    ensures y == Reverse(x)
  {
  }

  lemma Crc32Mirror()
    ensures BitsOf(0xEDB88320, 32) == Reverse(BitsOf(0x04C11DB7, 32))
    ensures BitsOf(0xFFFFFFFF, 32) == Reverse(BitsOf(0xFFFFFFFF, 32))
  {
    assert Mirrors(0x04C11DB7 >> 24, 0xEDB88320, 8);
    assert Mirrors(0x04C11DB7 >> 16, 0xEDB88320, 16);
    assert Mirrors(0x04C11DB7 >> 8, 0xEDB88320, 24);
    MirrorsReverses(0x04C11DB7, 0xEDB88320, 32);
    assert Mirrors(0xFFFFFFFF >> 24, 0xFFFFFFFF, 8);
    assert Mirrors(0xFFFFFFFF >> 16, 0xFFFFFFFF, 16);
    assert Mirrors(0xFFFFFFFF >> 8, 0xFFFFFFFF, 24);
    MirrorsReverses(0xFFFFFFFF, 0xFFFFFFFF, 32);
  }

  lemma Crc16Mirror()
    ensures BitsOf(0xA001, 16) == Reverse(BitsOf(0x8005, 16)) && Fits(0xA001, 16)
  {
    MirrorsReverses(0x8005, 0xA001, 16);
    OneIsOne(16);
    assert 0xA001 < One(16);
    BelowOneFits(0xA001, One(16), 16);
  }

  // ----- The shipped configurations ----------------------------------------------

  lemma ByteReads(i: bv8, n: nat)
    requires n >= 8
    ensures Reads(i as bv32, BitsOf(i as bv32, n))
  {
    ByteFits(i);
    Padded(i as bv32, 8, n);
  }

  /** The shipped CRC-32 table is the table of the shipped polynomial. */
  lemma Crc32TableRight()
    ensures IsTable(TableOf(Crc32Row), Reverse(Crc32Config().Generator()))
  {
    var h := Reverse(Crc32Config().Generator());
    Crc32Mirror();
    AllFit(0xEDB88320);
    assert Reads(0xEDB88320, h);
    forall i: bv8 ensures EntryOk(TableOf(Crc32Row), h, i) {
      ByteReads(i, 32);
      Crc32EntryOk(i);
      RWord8Reads(i as bv32, 0xEDB88320, BitsOf(i as bv32, 32), h);
    }
  }

  /** The shipped CRC-16 table is the table of the shipped polynomial. */
  lemma Crc16TableRight()
    ensures IsTable(TableOf(Crc16Row), Reverse(Crc16Config().Generator()))
  {
    var h := Reverse(Crc16Config().Generator());
    Crc16Mirror();
    assert Reads(0xA001, h);
    forall i: bv8 ensures EntryOk(TableOf(Crc16Row), h, i) {
      ByteReads(i, 16);
      Crc16EntryOk(i);
      RWord8Reads(i as bv32, 0xA001, BitsOf(i as bv32, 16), h);
    }
  }

  /** For both shipped configurations the table lookup and the computed CRC agree on every
      buffer. */
  lemma ShippedTablesAgree(config: CrcConfig, buf: seq<bv8>)
    requires config == Crc32Config() || config == Crc16Config()
    ensures EnginesAgree(config, buf)
  {
    if config == Crc32Config() {
      Crc32TableRight();
      Crc32Mirror();
      AllFit(0xFFFFFFFF);
    } else {
      Crc16TableRight();
      BitsOfZero(16);
      assert Reverse(Zeros(16)) == Zeros(16);
    }
    assert SelfMirrored(config);
    TableRefinesBits(config);
  }
}

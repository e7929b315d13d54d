/** What the SCSI target sends, byte for byte. */
module ScsiAnswers {
  import opened Prelude
  import opened Bytes
  import opened ScsiSpec
  import opened ScsiProperties

  /** The number in four bytes, the most significant first. */
  function Number4(b: seq<byte>): nat
    requires |b| == 4
  {
    b[0] as int * 0x100_0000 + b[1] as int * 0x1_0000 + b[2] as int * 0x100 + b[3]
  }

  lemma BigEndian4(b: seq<byte>)
    requires |b| == 4
    ensures FromBE(b) == Number4(b)
  {
    var c, d := b[..3], b[..3][..2];
    assert FromBE(b) == 0x100 * FromBE(c) + b[3];
    assert FromBE(c) == 0x100 * FromBE(d) + b[2];
    BigEndian2(d);
  }

  lemma BigEndian2(b: seq<byte>)
    requires |b| == 2
    ensures FromBE(b) == b[0] as int * 0x100 + b[1]
  {
    var c := b[..1];
    assert FromBE(b) == 0x100 * FromBE(c) + b[1];
    assert FromBE(c) == 0x100 * FromBE(c[..0]) + c[0];
  }

  /** Block address and count of a request, from its bytes. */
  lemma RequestFields(cmd: seq<byte>)
    requires |cmd| >= 10
    ensures FirstLba(cmd) == Number4(cmd[2..6])
    ensures BlkCnt(cmd) == cmd[7] as int * 0x100 + cmd[8]
  {
    BigEndian4(cmd[2..6]);
    BigEndian2(cmd[7..9]);
  }

  lemma Stored4(x: nat)
    requires x < 0x1_0000_0000
    ensures |Reverse(ToLE(x, 4))| == 4 && Number4(Reverse(ToLE(x, 4))) == x
  {
    BigEndianField(x);
    BigEndian4(Reverse(ToLE(x, 4)));
  }

  // ----- Answers -----------------------------------------------------------------

  /** READ CAPACITY(10) sends the number of the last block and then the block size, the most
      significant bytes first; a disk of no blocks reports 0xFFFFFFFF. */
  lemma CapacityReply(t: Target, config: Config, cmd: seq<byte>, wire: Wire)
    requires t.Valid() && config.Valid() && CdbOk(cmd) && cmd[0] == 0x25
    ensures var r := Exec(t, config, cmd, wire);
      r.ok ==> |r.sent| == 8 && Number4(r.sent[4..]) == t.disk.blkSize
               && Number4(r.sent[..4]) == if t.disk.blocks == [] then 0xFFFF_FFFF else |t.disk.blocks| - 1
  {
    var last := (|t.disk.blocks| + 0xFFFF_FFFF) % 0x1_0000_0000;
    Stored4(last);
    Stored4(t.disk.blkSize);
    var c := Capacity(t.disk);
    assert c[..4] == Reverse(ToLE(last, 4)) && c[4..] == Reverse(ToLE(t.disk.blkSize, 4));
  }

  /** The number it reports is the last block that can be read: a READ(10) of one block is carried
      out exactly if its address is not beyond it. On a disk of no blocks every such READ(10) is
      refused. */
  lemma CapacityIsLastReadable(t: Target, config: Config, cmd: seq<byte>, wire: Wire, read: seq<byte>, wire': Wire)
    requires t.Valid() && config.Valid() && CdbOk(cmd) && cmd[0] == 0x25
    requires CdbOk(read) && read[0] == 0x28 && BlkCnt(read) == 1
    ensures var r, got := Exec(t, config, cmd, wire), Exec(t, config, read, wire');
      && (r.ok && t.disk.blocks != [] ==> (got.ok <==> FirstLba(read) <= Number4(r.sent[..4])))
      && (t.disk.blocks == [] ==> !got.ok)
  {
    CapacityReply(t, config, cmd, wire);
    Outcomes(t, config, read, wire');
  }

  /** READ FORMAT CAPACITIES with room for an answer sends one descriptor: three bytes that are
      whatever was on the stack, the length 8, the number of blocks, and formatted media with the
      low 16 bits of the block size. */
  lemma FormatCapacitiesReply(t: Target, config: Config, cmd: seq<byte>, wire: Wire)
    requires t.Valid() && config.Valid() && CdbOk(cmd) && cmd[0] == 0x23 && (cmd[7] != 0 || cmd[8] != 0)
    ensures var r := Exec(t, config, cmd, wire);
      r.ok ==> |r.sent| == 12 && (|wire.junk| >= 3 ==> r.sent[..3] == wire.junk[..3]) && r.sent[3] == 8
               && Number4(r.sent[4..8]) == |t.disk.blocks| && r.sent[8] == 2 && r.sent[9] == 0
               && r.sent[10] as int * 0x100 + r.sent[11] == t.disk.blkSize % 0x1_0000
  {
    Stored4(|t.disk.blocks|);
    assert FormatCapacities(t.disk, wire)[4..8] == Reverse(ToLE(|t.disk.blocks|, 4));
  }

  /** INQUIRY sends the serial number page or the standard data, REQUEST SENSE the stored record,
      and MODE SENSE(6) a header without blocks whose third byte has the write-protect bit; the
      commands without an answer send nothing. */
  lemma FixedReplies(t: Target, config: Config, cmd: seq<byte>, wire: Wire)
    requires t.Valid() && config.Valid() && CdbOk(cmd)
    ensures var r, op := Exec(t, config, cmd, wire), cmd[0];
      r.ok ==>
        && (op == 0x12 ==> r.sent == if cmd[1] % 2 == 1 && cmd[2] == 0x80 then config.serial else config.inquiry)
        && (op == 0x03 ==> r.sent == t.sense)
        && (op == 0x1A ==> r.sent == r.target.modeSense == [3, 0, if t.disk.readonly then 128 else 0, 0])
        && (op == 0x00 || op == 0x1E || op == 0x2F || op == 0x2A || (op == 0x23 && cmd[7] == cmd[8] == 0) ==>
            r.sent == [])
        && r.target.sense == [0x70, 0, 0, 0, 0, 0, 0, 8, 0, 0, 0, 0, 0, 0, 0, 0, 0, 0]
  {
  }

  /** An answer that is cut short is the beginning of what a transport that takes everything
      gets. */
  lemma ShortIsPrefix(t: Target, config: Config, cmd: seq<byte>, wire: Wire)
    requires t.Valid() && config.Valid() && CdbOk(cmd) && !IsDataCmd(cmd)
    requires Judge(|t.disk.blocks|, cmd) == Accept
    ensures var r, full := Exec(t, config, cmd, wire), Exec(t, config, cmd, wire.(accept := []));
      full.ok && r.sent <= full.sent && (r.ok ==> r == full)
  {
  }

  // ----- Refusals ----------------------------------------------------------------

  /** Nothing is sent or changed but the record: illegal request, with the given additional code. */
  ghost predicate Refused(t: Target, r: Reply, code: byte)
  {
    && !r.ok && r.sent == []
    && r.target == t.(sense := [0x70, 0, 5, 0, 0, 0, 0, 8, 0, 0, 0, 0, code, 0, 0, 0, 0, 0])
  }

  /** Why a command is refused, if it is: an unknown operation code, a range beyond the last
      block, or a field that is not supported. */
  function Fault(blkNum: nat, cmd: seq<byte>): Option<byte>
    requires |cmd| >= 10
  {
    var op := cmd[0];
    if op !in {0x00, 0x03, 0x12, 0x1A, 0x1E, 0x23, 0x25, 0x28, 0x2A, 0x2F} then Some(0x20)
    else if (op == 0x28 || op == 0x2A) && FirstLba(cmd) + BlkCnt(cmd) > blkNum then Some(0x21)
    else if op == 0x12 && !(cmd[1] % 2 == 1 && cmd[2] == 0x80) && (cmd[1] % 4 != 0 || cmd[2] != 0) then Some(0x24)
    else if op == 0x03 && (cmd[1] % 2 == 1 || cmd[4] != 18) then Some(0x24)
    else None
  }

  /** A command with a fault is refused on every wire, and any other succeeds over a transport
      that takes everything. */
  lemma Refusals(t: Target, config: Config, cmd: seq<byte>, wire: Wire)
    requires t.Valid() && config.Valid() && CdbOk(cmd)
    ensures var r := Exec(t, config, cmd, wire);
      match Fault(|t.disk.blocks|, cmd)
      case Some(code) => Refused(t, r, code)
      case None => wire.accept == [] ==> r.ok
  {
    Outcomes(t, config, cmd, wire);
    if wire.accept == [] && !IsDataCmd(cmd) && Judge(|t.disk.blocks|, cmd) == Accept {
      ShortIsPrefix(t, config, cmd, wire);
      assert wire.(accept := []) == wire;
    }
  }

  /** The operation codes of reads and writes. */
  lemma DataCodes(blkNum: nat, cmd: seq<byte>)
    requires |cmd| >= 10
    ensures IsRead(blkNum, cmd) <==> cmd[0] == 0x28 && FirstLba(cmd) + BlkCnt(cmd) <= blkNum
    ensures IsWrite(blkNum, cmd) <==> cmd[0] == 0x2A && FirstLba(cmd) + BlkCnt(cmd) <= blkNum
  {
  }
}

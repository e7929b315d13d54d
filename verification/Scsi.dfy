/** The SCSI target driver over the RAM disk: the command dispatch, the block transfers through
    the driver's buffer, and the sense record. Every method is proved to do what ScsiSpec says of
    its command, on the blocks that the disk's byte array stands for and under any behaviour of
    the transport. */
module Scsi {
  import opened Prelude
  import opened Bytes
  import opened RamDisk
  import opened ScsiSpec

  /** The transport, driven by what happens on the wire during the current command. */
  class Transport {
    var wire: Wire
    var transmits: nat
    var receives: nat
    var sent: seq<byte>

    constructor ()
    {
      wire, transmits, receives, sent := Wire([], [], []), 0, 0, [];
    }

    method Begin(wire: Wire)
      modifies this
      ensures this.wire == wire && transmits == receives == 0 && sent == []
    {
      this.wire, transmits, receives, sent := wire, 0, 0, [];
    }

    method Transmit(data: seq<byte>) returns (n: nat)
      modifies this
      ensures n == wire.Accepted(old(transmits), |data|) && sent == old(sent) + data[..n]
      ensures wire == old(wire) && transmits == old(transmits) + 1 && receives == old(receives)
    {
      n := wire.Accepted(transmits, |data|);
      sent, transmits := sent + data[..n], transmits + 1;
    }

    method Receive(buffer: array<byte>) returns (n: nat)
      modifies this, buffer
      ensures var got := wire.Received(old(receives), buffer.Length);
        n == |got| && buffer[..] == Overlay(old(buffer[..]), got)
      ensures wire == old(wire) && receives == old(receives) + 1 && transmits == old(transmits) && sent == old(sent)
    {
      var got := wire.Received(receives, buffer.Length);
      ghost var b0 := buffer[..];
      assert Overlay(b0, got[..0]) == b0;
      for i := 0 to |got|
        invariant buffer[..] == Overlay(b0, got[..i])
        invariant wire == old(wire) && receives == old(receives) && transmits == old(transmits) && sent == old(sent)
      {
        OverlayOneMore(b0, got, i);
        buffer[i] := got[i];
      }
      assert got[..|got|] == got;
      n, receives := |got|, receives + 1;
    }
  }

  lemma OverlayOneMore(b: seq<byte>, got: seq<byte>, i: nat)
    requires i < |got| <= |b|
    ensures Overlay(b, got[..i])[i := got[i]] == Overlay(b, got[..i+1])
  {
  }

  /** The blocks of a disk. */
  function MediumOf(d: Disk): (m: Medium)
    requires d.Valid()
    ensures m.Valid() && |m.blocks| == d.blkNum && m.blkSize == d.blkSize && m.readonly == d.readonly
    ensures forall l :: 0 <= l < d.blkNum ==> m.blocks[l] == d.Block(l)
  {
    Medium(d.blkSize, d.readonly, seq(d.blkNum, l requires 0 <= l < d.blkNum => d.Block(l)))
  }

  /** Writing one block of the storage is an update of the map. */
  lemma StoreBlock(d: Disk, l: nat, b: seq<byte>)
    requires d.Valid() && l < d.blkNum && |b| == d.blkSize == Offset(1, d.blkSize)
    ensures MediumOf(d.Store(l, 1, b)) == MediumOf(d).Store(l, b)
  {
    forall k | 0 <= k < d.blkNum ensures MediumOf(d.Store(l, 1, b)).blocks[k] == MediumOf(d).Store(l, b).blocks[k] {
      d.BlockOfStore(l, b, k);
    }
  }

  /** memcpy and byte-swap of a 32-bit or 16-bit field. */
  method LoadBE(b: seq<byte>) returns (x: nat)
    requires |b| == 4 || |b| == 2
    ensures x == FromBE(b)
  {
    SwapIsByteOrder(b);
    var raw := FromLE(b);
    if |b| == 4 {
      x := Bswap32(raw);
    } else {
      x := Bswap16(raw);
    }
  }

  /** The bytes of a 32-bit field after the byte swap. */
  method StoreBE32(x: nat) returns (b: seq<byte>)
    ensures b == Reverse(ToLE(x, 4))
  {
    var swapped := Bswap32(x);
    b := ToLE(swapped, 4);
    LoadStore(Reverse(ToLE(x, 4)));
  }

  method DecodeDataRequest(cmd: seq<byte>) returns (firstLba: nat, blkCnt: nat)
    requires |cmd| >= 10
    ensures firstLba == FirstLba(cmd) && blkCnt == BlkCnt(cmd)
  {
    firstLba := LoadBE(cmd[2..6]);
    blkCnt := LoadBE(cmd[7..9]);
  }

  class ScsiTarget {
    const config: Config
    const disk: RamDisk
    const blkbuf: array<byte>
    const transport: Transport
    var sense: seq<byte>
    var modeSense: seq<byte>
    var residue: nat

    ghost predicate Valid()
      reads this, disk, disk.storage
    {
      && config.Valid() && disk.Valid() && disk.state == Ready
      && blkbuf.Length == disk.blkSize && blkbuf != disk.storage
      && |sense| == 18
    }

    ghost function Abs(): (t: Target)
      requires Valid()
      reads this, disk, disk.storage, blkbuf
      ensures t.Valid()
    {
      Target(sense, modeSense, residue, blkbuf[..], MediumOf(disk.AsDisk()))
    }

    constructor (config: Config, disk: RamDisk, blkbuf: array<byte>, transport: Transport)
      requires config.Valid() && disk.Valid() && disk.state == Ready
      requires blkbuf.Length == disk.blkSize && blkbuf != disk.storage
      ensures Valid() && Abs() == Target(ClearSense(), [0, 0, 0, 0], 0, blkbuf[..], MediumOf(disk.AsDisk()))
      ensures this.config == config && this.disk == disk && this.blkbuf == blkbuf && this.transport == transport
    {
      this.config, this.disk, this.blkbuf, this.transport := config, disk, blkbuf, transport;
      sense, modeSense, residue := ClearSense(), [0, 0, 0, 0], 0;
    }

    method SetSense(key: byte, code: byte, qual: byte)
      modifies `sense
      ensures sense == SenseRecord(key, code, qual)
    {
      var s := ClearSense();
      s := s[0 := 0x70];
      s := s[2 := key];
      s := s[7 := 8];
      s := s[12 := code];
      s := s[13 := qual];
      sense := s;
    }

    method TransmitData(data: seq<byte>) returns (ok: bool)
      requires transport.transmits == 0 && transport.sent == []
      modifies `residue, transport
      ensures var n := old(transport.wire).Accepted(0, |data|);
        && ok == (n == |data|) && transport.sent == data[..n]
        && residue == if ok then old(residue) else |data| - n
    {
      var n := transport.Transmit(data);
      var left := |data| - n;
      if left > 0 {
        residue := left;
        ok := false;
      } else {
        ok := true;
      }
    }

    method Inquiry(cmd: seq<byte>, ghost wire: Wire) returns (ok: bool)
      requires Valid() && CdbOk(cmd) && cmd[0] == SCSI_CMD_INQUIRY
      requires transport.wire == wire && transport.transmits == 0 && transport.sent == []
      modifies this, transport
      ensures Valid() && Reply(Abs(), ok, transport.sent) == Handle(old(Abs()), config, cmd, wire)
    {
      if Bit0(cmd[1]) && cmd[2] == 0x80 {
        ok := TransmitData(config.serial);
      } else if Bits01(cmd[1]) || cmd[2] != 0 {
        SetSense(SCSI_SENSE_KEY_ILLEGAL_REQUEST, SCSI_ASENSE_INVALID_FIELD_IN_CDB, SCSI_ASENSEQ_NO_QUALIFIER);
        ok := false;
      } else {
        ok := TransmitData(config.inquiry);
      }
    }

    method RequestSense(cmd: seq<byte>, ghost wire: Wire) returns (ok: bool)
      requires Valid() && CdbOk(cmd) && cmd[0] == SCSI_CMD_REQUEST_SENSE
      requires transport.wire == wire && transport.transmits == 0 && transport.sent == []
      modifies this, transport
      ensures Valid() && Reply(Abs(), ok, transport.sent) == Handle(old(Abs()), config, cmd, wire)
    {
      if Bit0(cmd[1]) || cmd[4] != 18 {
        SetSense(SCSI_SENSE_KEY_ILLEGAL_REQUEST, SCSI_ASENSE_INVALID_FIELD_IN_CDB, SCSI_ASENSEQ_NO_QUALIFIER);
        ok := false;
      } else {
        ok := TransmitData(sense);
      }
    }

    method ModeSense6(cmd: seq<byte>, ghost wire: Wire) returns (ok: bool)
      requires Valid() && CdbOk(cmd) && cmd[0] == SCSI_CMD_MODE_SENSE_6
      requires transport.wire == wire && transport.transmits == 0 && transport.sent == []
      modifies this, transport
      ensures Valid() && Reply(Abs(), ok, transport.sent) == Handle(old(Abs()), config, cmd, wire)
    {
      var protected := disk.IsProtected();
      modeSense := [3, 0, if protected then 0x80 else 0, 0];
      ok := TransmitData(modeSense);
    }

    method ReadFormatCapacities(cmd: seq<byte>, wire: Wire) returns (ok: bool)
      requires Valid() && CdbOk(cmd) && cmd[0] == SCSI_CMD_READ_FORMAT_CAPACITIES
      requires transport.wire == wire && transport.transmits == 0 && transport.sent == []
      modifies this, transport
      ensures Valid() && Reply(Abs(), ok, transport.sent) == Handle(old(Abs()), config, cmd, wire)
    {
      var high: nat, low: nat := cmd[7], cmd[8];
      if high * 0x100 + low == 0 {
        ok := true;
      } else {
        var ret := FormatResponse(wire);
        ok := TransmitData(ret);
      }
    }

    method FormatResponse(wire: Wire) returns (ret: seq<byte>)
      requires Valid()
      ensures ret == FormatCapacities(MediumOf(disk.AsDisk()), wire)
    {
      var _, num, size := disk.GetInfo();
      var blocknum := StoreBE32(num);
      var blocklen := size % 0x1_0000;
      var junk := if |wire.junk| >= 3 then wire.junk[..3] else [0, 0, 0];
      ret := junk + [8] + blocknum + [2, 0, blocklen / 0x100, blocklen % 0x100];
    }

    method ReadCapacity10(cmd: seq<byte>, ghost wire: Wire) returns (ok: bool)
      requires Valid() && CdbOk(cmd) && cmd[0] == SCSI_CMD_READ_CAPACITY_10
      requires transport.wire == wire && transport.transmits == 0 && transport.sent == []
      modifies this, transport
      ensures Valid() && Reply(Abs(), ok, transport.sent) == Handle(old(Abs()), config, cmd, wire)
    {
      var _, num, size := disk.GetInfo();
      var last := StoreBE32((num + 0xFFFF_FFFF) % 0x1_0000_0000);
      var bs := StoreBE32(size);
      ok := TransmitData(last + bs);
    }

    method DataOverflow(firstLba: nat, blkCnt: nat) returns (overflow: bool)
      requires Valid() && firstLba + blkCnt < 0x1_0000_0000
      modifies `sense
      ensures overflow == (firstLba + blkCnt > disk.blkNum)
      ensures sense == if overflow then IllegalRequest(SCSI_ASENSE_LBA_OUT_OF_RANGE) else old(sense)
    {
      var _, num, _ := disk.GetInfo();
      if firstLba + blkCnt > num {
        SetSense(SCSI_SENSE_KEY_ILLEGAL_REQUEST, SCSI_ASENSE_LBA_OUT_OF_RANGE, SCSI_ASENSEQ_NO_QUALIFIER);
        overflow := true;
      } else {
        overflow := false;
      }
    }

    ghost function Blocks(): Medium
      requires Valid()
      reads this, disk, disk.storage
    {
      MediumOf(disk.AsDisk())
    }

    method ReadBlock(l: nat)
      requires Valid() && l < disk.blkNum
      modifies blkbuf, transport
      ensures Valid() && Blocks() == old(Blocks())
      ensures blkbuf[..] == old(Blocks()).blocks[l]
      ensures var n := old(transport.wire.Accepted(transport.transmits, blkbuf.Length));
        transport.sent == old(transport.sent) + blkbuf[..][..n]
      ensures transport.wire == old(transport.wire) && transport.transmits == old(transport.transmits) + 1
    {
      OneBlock(disk.blkSize);
      var _ := disk.Read(l, blkbuf, 1);
      var _ := transport.Transmit(blkbuf[..]);
    }

    method ReadBlocks(lba: nat, cnt: nat, ghost wire: Wire)
      requires Valid() && lba + cnt <= disk.blkNum
      requires transport.wire == wire && transport.transmits == 0 && transport.sent == []
      modifies blkbuf, transport
      ensures Valid() && Blocks() == old(Blocks())
      ensures (blkbuf[..], transport.sent) == ReadLoop(old(Blocks()), lba, cnt, wire, old(blkbuf[..]))
    {
      ghost var d0, b0 := Blocks(), blkbuf[..];
      for i := 0 to cnt
        invariant BlocksRead(d0, lba, i, wire, b0)
      {
        ReadOneMore(d0, lba, i, wire, b0);
      }
    }

    /** After i turns of the read loop from disk d0 and buffer b0. */
    ghost predicate BlocksRead(d0: Medium, lba: nat, i: nat, wire: Wire, b0: seq<byte>)
      reads this, disk, disk.storage, blkbuf, transport
    {
      && Valid() && Blocks() == d0 && transport.wire == wire && transport.transmits == i
      && lba + i <= disk.blkNum && |b0| == disk.blkSize
      && (blkbuf[..], transport.sent) == ReadLoop(d0, lba, i, wire, b0)
    }

    method ReadOneMore(ghost d0: Medium, lba: nat, i: nat, ghost wire: Wire, ghost b0: seq<byte>)
      requires BlocksRead(d0, lba, i, wire, b0) && lba + i < disk.blkNum
      modifies blkbuf, transport
      ensures BlocksRead(d0, lba, i + 1, wire, b0)
    {
      ReadLoopStep(d0, lba, i, wire, b0, blkbuf[..], transport.sent);
      ReadBlock(lba + i);
    }

    lemma OneBlock(bs: nat)
      ensures Offset(1, bs) == bs
    {
      assert Offset(1, bs) == Offset(0, bs) + bs;
    }

    method WriteBlock(l: nat)
      requires Valid() && l < disk.blkNum
      modifies blkbuf, disk.storage, transport
      ensures Valid() && transport.sent == old(transport.sent)
      ensures blkbuf[..] == Overlay(old(blkbuf[..]), old(transport.wire.Received(transport.receives, blkbuf.Length)))
      ensures Blocks() == old(Blocks()).Store(l, blkbuf[..])
      ensures transport.wire == old(transport.wire) && transport.receives == old(transport.receives) + 1
    {
      OneBlock(disk.blkSize);
      var _ := transport.Receive(blkbuf);
      StoreBlock(disk.AsDisk(), l, blkbuf[..]);
      var _ := disk.Write(l, blkbuf, 1);
    }

    method WriteBlocks(lba: nat, cnt: nat, ghost wire: Wire)
      requires Valid() && lba + cnt <= disk.blkNum
      requires transport.wire == wire && transport.receives == 0 && transport.sent == []
      modifies blkbuf, disk.storage, transport
      ensures Valid() && transport.sent == []
      ensures (blkbuf[..], Blocks()) == WriteLoop(old(Blocks()), lba, cnt, wire, old(blkbuf[..]))
    {
      ghost var d0, b0 := Blocks(), blkbuf[..];
      for i := 0 to cnt
        invariant Valid() && transport.sent == []
        invariant transport.wire == wire && transport.receives == i
        invariant (blkbuf[..], Blocks()) == WriteLoop(d0, lba, i, wire, b0)
      {
        WriteLoopStep(d0, lba, i, wire, b0, blkbuf[..], Blocks());
        WriteBlock(lba + i);
      }
    }

    method DataReadWrite10(cmd: seq<byte>, ghost wire: Wire) returns (ok: bool)
      requires Valid() && CdbOk(cmd) && IsDataCmd(cmd)
      requires transport.wire == wire && transport.transmits == transport.receives == 0 && transport.sent == []
      modifies this, transport, blkbuf, disk.storage
      ensures Valid() && Reply(Abs(), ok, transport.sent) == Handle(old(Abs()), config, cmd, wire)
    {
      var lba, cnt := DecodeDataRequest(cmd);
      var overflow := DataOverflow(lba, cnt);
      if overflow {
        ok := false;
      } else {
        TransferBlocks(cmd, lba, cnt, wire);
        ok := true;
      }
    }

    /** The block loop of an accepted request. */
    method TransferBlocks(cmd: seq<byte>, lba: nat, cnt: nat, ghost wire: Wire)
      requires Valid() && CdbOk(cmd) && IsDataCmd(cmd)
      requires lba == FirstLba(cmd) && cnt == BlkCnt(cmd) && lba + cnt <= disk.blkNum
      requires transport.wire == wire && transport.transmits == transport.receives == 0 && transport.sent == []
      modifies transport, blkbuf, disk.storage
      ensures Valid() && Reply(Abs(), true, transport.sent) == DataCmd(old(Abs()), cmd, wire)
    {
      if cmd[0] == SCSI_CMD_READ_10 {
        ReadBlocks(lba, cnt, wire);
      } else {
        WriteBlocks(lba, cnt, wire);
      }
    }

    method Dispatch(cmd: seq<byte>, wire: Wire) returns (ok: bool)
      requires Valid() && CdbOk(cmd)
      requires transport.wire == wire && transport.transmits == transport.receives == 0 && transport.sent == []
      modifies this, transport, blkbuf, disk.storage
      ensures Valid() && Reply(Abs(), ok, transport.sent) == Handle(old(Abs()), config, cmd, wire)
    {
      var op := cmd[0];
      if op == SCSI_CMD_INQUIRY {
        ok := Inquiry(cmd, wire);
      } else if op == SCSI_CMD_REQUEST_SENSE {
        ok := RequestSense(cmd, wire);
      } else if op == SCSI_CMD_READ_CAPACITY_10 {
        ok := ReadCapacity10(cmd, wire);
      } else if op == SCSI_CMD_READ_10 || op == SCSI_CMD_WRITE_10 {
        ok := DataReadWrite10(cmd, wire);
      } else if op == SCSI_CMD_TEST_UNIT_READY || op == SCSI_CMD_PREVENT_ALLOW_MEDIUM_REMOVAL {
        ok := true;
      } else if op == SCSI_CMD_MODE_SENSE_6 {
        ok := ModeSense6(cmd, wire);
      } else if op == SCSI_CMD_READ_FORMAT_CAPACITIES {
        ok := ReadFormatCapacities(cmd, wire);
      } else if op == SCSI_CMD_VERIFY_10 {
        ok := true;
      } else {
        SetSense(SCSI_SENSE_KEY_ILLEGAL_REQUEST, SCSI_ASENSE_INVALID_COMMAND, SCSI_ASENSEQ_NO_QUALIFIER);
        ok := false;
      }
    }

    /** Executes one command block. */
    method ExecCmd(cmd: seq<byte>, wire: Wire) returns (ok: bool)
      requires Valid() && CdbOk(cmd)
      modifies this, transport, blkbuf, disk.storage
      ensures Valid() && Reply(Abs(), ok, transport.sent) == Exec(old(Abs()), config, cmd, wire)
    {
      transport.Begin(wire);
      ok := Dispatch(cmd, wire);
      if ok {
        SetSense(SCSI_SENSE_KEY_GOOD, SCSI_ASENSE_NO_ADDITIONAL_INFORMATION, SCSI_ASENSEQ_NO_QUALIFIER);
      }
    }
  }
}

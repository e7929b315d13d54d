/** The SCSI target as a state machine: what one command does, as a function of the target's
    state, the command block and what happens on the wire. */
module ScsiSpec {
  import opened Prelude
  import opened Bytes

  const SCSI_CMD_TEST_UNIT_READY := 0x00
  const SCSI_CMD_REQUEST_SENSE := 0x03
  const SCSI_CMD_INQUIRY := 0x12
  const SCSI_CMD_MODE_SENSE_6 := 0x1A
  const SCSI_CMD_PREVENT_ALLOW_MEDIUM_REMOVAL := 0x1E
  const SCSI_CMD_READ_FORMAT_CAPACITIES := 0x23
  const SCSI_CMD_READ_CAPACITY_10 := 0x25
  const SCSI_CMD_READ_10 := 0x28
  const SCSI_CMD_WRITE_10 := 0x2A
  const SCSI_CMD_VERIFY_10 := 0x2F

  const SCSI_SENSE_KEY_GOOD: byte := 0x00
  const SCSI_SENSE_KEY_ILLEGAL_REQUEST: byte := 0x05
  const SCSI_ASENSE_NO_ADDITIONAL_INFORMATION: byte := 0x00
  const SCSI_ASENSE_INVALID_COMMAND: byte := 0x20
  const SCSI_ASENSE_LBA_OUT_OF_RANGE: byte := 0x21
  const SCSI_ASENSE_INVALID_FIELD_IN_CDB: byte := 0x24
  const SCSI_ASENSEQ_NO_QUALIFIER: byte := 0x00

  /** The medium as a map from block number to contents. */
  datatype Medium = Medium(blkSize: nat, readonly: bool, blocks: seq<seq<byte>>)
  {
    ghost predicate Valid()
    {
      && 0 < blkSize < 0x1_0000_0000 && |blocks| < 0x1_0000_0000
      && forall l :: 0 <= l < |blocks| ==> |blocks[l]| == blkSize
    }

    function Store(l: nat, b: seq<byte>): (m: Medium)
      requires l < |blocks|
      ensures Valid() && |b| == blkSize ==> m.Valid()
    {
      this.(blocks := blocks[l := b])
    }

    ghost predicate SameShape(m: Medium)
    {
      |blocks| == |m.blocks| && blkSize == m.blkSize && readonly == m.readonly
    }
  }

  /** The fixed-format sense record. */
  function SenseRecord(key: byte, code: byte, qual: byte): (s: seq<byte>)
    ensures |s| == 18 && s[2] == key && s[12] == code && s[13] == qual
  {
    [0x70, 0, key, 0, 0, 0, 0, 8, 0, 0, 0, 0, code, qual, 0, 0, 0, 0]
  }

  function GoodSense(): seq<byte>
  {
    SenseRecord(SCSI_SENSE_KEY_GOOD, SCSI_ASENSE_NO_ADDITIONAL_INFORMATION, SCSI_ASENSEQ_NO_QUALIFIER)
  }

  function IllegalRequest(code: byte): seq<byte>
  {
    SenseRecord(SCSI_SENSE_KEY_ILLEGAL_REQUEST, code, SCSI_ASENSEQ_NO_QUALIFIER)
  }

  /** The sense record before the first command: all zero. */
  function ClearSense(): (s: seq<byte>)
    ensures |s| == 18
  {
    [0, 0, 0, 0, 0, 0, 0, 0, 0, 0, 0, 0, 0, 0, 0, 0, 0, 0]
  }

  /** What the transport does during one command: transmit call number i accepts at most
      accept[i] bytes (all, if there is no such entry), receive call number i delivers rx[i]
      (nothing, if there is no such entry); junk is what the stack happens to hold. */
  datatype Wire = Wire(accept: seq<nat>, rx: seq<seq<byte>>, junk: seq<byte>)
  {
    function Accepted(i: nat, len: nat): (n: nat)
      ensures n <= len
    {
      if i < |accept| && accept[i] < len then accept[i] else len
    }

    function Received(i: nat, len: nat): (b: seq<byte>)
      ensures |b| <= len
    {
      if i >= |rx| then [] else if |rx[i]| <= len then rx[i] else rx[i][..len]
    }

    /** The data of n blocks of bs bytes come in. */
    predicate Arrives(n: nat, bs: nat)
    {
      |rx| >= n && forall i :: 0 <= i < n ==> |rx[i]| == bs
    }
  }

  datatype Config = Config(inquiry: seq<byte>, serial: seq<byte>)
  {
    predicate Valid()
    {
      |inquiry| == 36 && |serial| == 12
    }
  }

  datatype Target = Target(sense: seq<byte>, modeSense: seq<byte>, residue: nat, buf: seq<byte>, disk: Medium)
  {
    ghost predicate Valid()
    {
      disk.Valid() && |sense| == 18 && |buf| == disk.blkSize
    }
  }

  datatype Reply = Reply(target: Target, ok: bool, sent: seq<byte>)

  // ----- Data requests -----------------------------------------------------------

  /** The request of a read or write command block: big-endian block address and count. */
  function FirstLba(cmd: seq<byte>): nat
    requires |cmd| >= 10
  {
    FromBE(cmd[2..6])
  }

  function BlkCnt(cmd: seq<byte>): nat
    requires |cmd| >= 10
  {
    FromBE(cmd[7..9])
  }

  predicate IsDataCmd(cmd: seq<byte>)
    requires |cmd| >= 10
  {
    cmd[0] == SCSI_CMD_READ_10 || cmd[0] == SCSI_CMD_WRITE_10
  }

  /** A command block whose last requested block number still fits 32 bits. */
  predicate CdbOk(cmd: seq<byte>)
  {
    |cmd| >= 10 && (IsDataCmd(cmd) ==> FirstLba(cmd) + BlkCnt(cmd) < 0x1_0000_0000)
  }

  /** The first n turns of a read loop: each block goes through the buffer to the transport. */
  function ReadLoop(disk: Medium, lba: nat, n: nat, wire: Wire, buf: seq<byte>): (r: (seq<byte>, seq<byte>))
    requires disk.Valid() && lba + n <= |disk.blocks| && |buf| == disk.blkSize
    ensures |r.0| == disk.blkSize
    decreases n
  {
    if n == 0 then (buf, [])
    else
      var (_, sent) := ReadLoop(disk, lba, n - 1, wire, buf);
      var block := disk.blocks[lba + n - 1];
      (block, sent + block[..wire.Accepted(n - 1, disk.blkSize)])
  }

  /** The first n turns of a write loop: what arrives overwrites the front of the buffer, and
      the whole buffer becomes the block. */
  function WriteLoop(disk: Medium, lba: nat, n: nat, wire: Wire, buf: seq<byte>): (r: (seq<byte>, Medium))
    requires disk.Valid() && lba + n <= |disk.blocks| && |buf| == disk.blkSize
    ensures |r.0| == disk.blkSize
    ensures r.1.Valid() && r.1.SameShape(disk)
    decreases n
  {
    if n == 0 then (buf, disk)
    else
      var (b, d) := WriteLoop(disk, lba, n - 1, wire, buf);
      var b' := Overlay(b, wire.Received(n - 1, disk.blkSize));
      (b', d.Store(lba + n - 1, b'))
  }

  lemma ReadLoopStep(disk: Medium, lba: nat, n: nat, wire: Wire, buf: seq<byte>, b: seq<byte>, sent: seq<byte>)
    requires disk.Valid() && lba + n < |disk.blocks| && |buf| == disk.blkSize
    requires ReadLoop(disk, lba, n, wire, buf) == (b, sent)
    ensures ReadLoop(disk, lba, n + 1, wire, buf)
         == (disk.blocks[lba + n], sent + disk.blocks[lba + n][..wire.Accepted(n, disk.blkSize)])
  {
  }

  lemma WriteLoopStep(disk: Medium, lba: nat, n: nat, wire: Wire, buf: seq<byte>, b: seq<byte>, d: Medium)
    requires disk.Valid() && lba + n < |disk.blocks| && |buf| == disk.blkSize
    requires WriteLoop(disk, lba, n, wire, buf) == (b, d)
    ensures |b| == disk.blkSize && d.Valid() && d.SameShape(disk)
    ensures var b' := Overlay(b, wire.Received(n, disk.blkSize));
      WriteLoop(disk, lba, n + 1, wire, buf) == (b', d.Store(lba + n, b'))
  {
  }

  function Overlay(b: seq<byte>, front: seq<byte>): (r: seq<byte>)
    requires |front| <= |b|
    ensures |r| == |b|
  {
    front + b[|front|..]
  }

  // ----- Commands ----------------------------------------------------------------

  function Transmit(t: Target, data: seq<byte>, wire: Wire): Reply
  {
    var n := wire.Accepted(0, |data|);
    if n < |data| then Reply(t.(residue := |data| - n), false, data[..n])
    else Reply(t, true, data)
  }

  function Reject(t: Target, code: byte): Reply
  {
    Reply(t.(sense := IllegalRequest(code)), false, [])
  }

  function ModeSense(disk: Medium): (m: seq<byte>)
    ensures |m| == 4
  {
    [3, 0, if disk.readonly then 0x80 else 0, 0]
  }

  function FormatCapacities(disk: Medium, wire: Wire): seq<byte>
  {
    var junk := if |wire.junk| >= 3 then wire.junk[..3] else [0, 0, 0];
    var blocklen := disk.blkSize % 0x1_0000;
    junk + [8] + Reverse(ToLE(|disk.blocks|, 4)) + [2, 0, blocklen / 0x100, blocklen % 0x100]
  }

  /** Number of the last block, modulo 2^32, and block size, both big-endian. */
  function Capacity(disk: Medium): seq<byte>
  {
    Reverse(ToLE((|disk.blocks| + 0xFFFF_FFFF) % 0x1_0000_0000, 4)) + Reverse(ToLE(disk.blkSize, 4))
  }

  function DataCmd(t: Target, cmd: seq<byte>, wire: Wire): Reply
    requires t.Valid() && CdbOk(cmd)
  {
    var lba, cnt := FirstLba(cmd), BlkCnt(cmd);
    if lba + cnt > |t.disk.blocks| then Reject(t, SCSI_ASENSE_LBA_OUT_OF_RANGE)
    else if cmd[0] == SCSI_CMD_READ_10 then
      var (buf, sent) := ReadLoop(t.disk, lba, cnt, wire, t.buf);
      Reply(t.(buf := buf), true, sent)
    else
      var (buf, disk) := WriteLoop(t.disk, lba, cnt, wire, t.buf);
      Reply(t.(buf := buf, disk := disk), true, [])
  }

  /** b & mask != 0 for the two low bits of a command byte. */
  predicate Bit0(b: byte) { b % 2 == 1 }
  predicate Bits01(b: byte) { b % 4 != 0 }

  /** One command, before the sense data of a successful one is reset. */
  function Handle(t: Target, config: Config, cmd: seq<byte>, wire: Wire): Reply
    requires t.Valid() && config.Valid() && CdbOk(cmd)
  {
    var op := cmd[0];
    if op == SCSI_CMD_INQUIRY then
      if Bit0(cmd[1]) && cmd[2] == 0x80 then Transmit(t, config.serial, wire)
      else if Bits01(cmd[1]) || cmd[2] != 0 then Reject(t, SCSI_ASENSE_INVALID_FIELD_IN_CDB)
      else Transmit(t, config.inquiry, wire)
    else if op == SCSI_CMD_REQUEST_SENSE then
      if Bit0(cmd[1]) || cmd[4] != 18 then Reject(t, SCSI_ASENSE_INVALID_FIELD_IN_CDB)
      else Transmit(t, t.sense, wire)
    else if op == SCSI_CMD_READ_CAPACITY_10 then Transmit(t, Capacity(t.disk), wire)
    else if op == SCSI_CMD_READ_10 || op == SCSI_CMD_WRITE_10 then DataCmd(t, cmd, wire)
    else if op == SCSI_CMD_TEST_UNIT_READY then Reply(t, true, [])
    else if op == SCSI_CMD_PREVENT_ALLOW_MEDIUM_REMOVAL then Reply(t, true, [])
    else if op == SCSI_CMD_MODE_SENSE_6 then
      var m := ModeSense(t.disk);
      Transmit(t.(modeSense := m), m, wire)
    else if op == SCSI_CMD_READ_FORMAT_CAPACITIES then
      if cmd[7] == 0 && cmd[8] == 0 then Reply(t, true, [])
      else Transmit(t, FormatCapacities(t.disk, wire), wire)
    else if op == SCSI_CMD_VERIFY_10 then Reply(t, true, [])
    else Reject(t, SCSI_ASENSE_INVALID_COMMAND)
  }

  function Exec(t: Target, config: Config, cmd: seq<byte>, wire: Wire): (r: Reply)
    requires t.Valid() && config.Valid() && CdbOk(cmd)
    ensures r.target.Valid()
    ensures r.target.disk.SameShape(t.disk)
  {
    var r := Handle(t, config, cmd, wire);
    if r.ok then r.(target := r.target.(sense := GoodSense())) else r
  }
}

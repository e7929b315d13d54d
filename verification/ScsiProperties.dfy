/** Properties of the SCSI target over all sequences of commands. */
module ScsiProperties {
  import opened Prelude
  import opened Bytes
  import opened ScsiSpec

  /** One command of a run: the command block and what happened on the wire. */
  datatype Event = Event(cmd: seq<byte>, wire: Wire)

  ghost predicate EventsOk(evs: seq<Event>)
  {
    forall k :: 0 <= k < |evs| ==> CdbOk(evs[k].cmd)
  }

  /** The target after a run. */
  function After(t: Target, config: Config, evs: seq<Event>): (t': Target)
    requires t.Valid() && config.Valid() && EventsOk(evs)
    ensures t'.Valid() && t'.disk.SameShape(t.disk)
    decreases |evs|, 0
  {
    if evs == [] then t else ReplyTo(t, config, evs[..|evs|-1], evs[|evs|-1]).target
  }

  /** The reply to command e after the run evs. */
  function ReplyTo(t: Target, config: Config, evs: seq<Event>, e: Event): (r: Reply)
    requires t.Valid() && config.Valid() && EventsOk(evs) && CdbOk(e.cmd)
    ensures r.target.Valid() && r.target.disk.SameShape(t.disk)
    decreases |evs|, 1
  {
    Exec(After(t, config, evs), config, e.cmd, e.wire)
  }

  // ----- What becomes of one command ---------------------------------------------

  datatype Verdict = Accept | Refuse(code: byte)

  /** Whether the target takes on a command at all, from the command block and the number of
      blocks of the disk. */
  function Judge(blkNum: nat, cmd: seq<byte>): Verdict
    requires |cmd| >= 10
  {
    match cmd[0]
    case 0x12 =>
      if (Bit0(cmd[1]) && cmd[2] == 0x80) || (!Bits01(cmd[1]) && cmd[2] == 0) then Accept
      else Refuse(SCSI_ASENSE_INVALID_FIELD_IN_CDB)
    case 0x03 =>
      if !Bit0(cmd[1]) && cmd[4] == 18 then Accept else Refuse(SCSI_ASENSE_INVALID_FIELD_IN_CDB)
    case 0x28 => if FirstLba(cmd) + BlkCnt(cmd) <= blkNum then Accept else Refuse(SCSI_ASENSE_LBA_OUT_OF_RANGE)
    case 0x2A => if FirstLba(cmd) + BlkCnt(cmd) <= blkNum then Accept else Refuse(SCSI_ASENSE_LBA_OUT_OF_RANGE)
    case 0x00 => Accept
    case 0x1A => Accept
    case 0x1E => Accept
    case 0x23 => Accept
    case 0x25 => Accept
    case 0x2F => Accept
    case _ => Refuse(SCSI_ASENSE_INVALID_COMMAND)
  }

  /** The length of the answer to an accepted command other than a data transfer. */
  function AnswerLength(cmd: seq<byte>): nat
    requires |cmd| >= 10
  {
    match cmd[0]
    case 0x12 => if Bit0(cmd[1]) && cmd[2] == 0x80 then 12 else 36
    case 0x03 => 18
    case 0x1A => 4
    case 0x23 => if cmd[7] == 0 && cmd[8] == 0 then 0 else 12
    case 0x25 => 8
    case _ => 0
  }

  /** A refused command transfers and changes nothing but the sense record, which says why. An
      accepted READ(10) or WRITE(10) succeeds whatever is transferred (see ReadOutcome and
      WriteOutcome). Any other accepted command either succeeds, answers in full and leaves the
      good record, or its answer is cut short, the residue is what is missing and the record
      stays as it was. */
  lemma Outcomes(t: Target, config: Config, cmd: seq<byte>, wire: Wire)
    requires t.Valid() && config.Valid() && CdbOk(cmd)
    ensures var r := Exec(t, config, cmd, wire);
      match Judge(|t.disk.blocks|, cmd)
      case Refuse(code) =>
        !r.ok && r.sent == [] && r.target == t.(sense := IllegalRequest(code))
      case Accept =>
        if IsDataCmd(cmd) then
          r.ok && r.target.sense == GoodSense() && r.target.residue == t.residue
        else if r.ok then
          && r.target.sense == GoodSense() && r.target.residue == t.residue
          && |r.sent| == AnswerLength(cmd)
        else
          && r.target.sense == t.sense && r.target.disk == t.disk && r.target.buf == t.buf
          && r.target.residue > 0 && |r.sent| + r.target.residue == AnswerLength(cmd)
  {
  }

  // ----- Sense data reflect the command history ----------------------------------

  /** Command e after the run evs failed by a short transmit. */
  predicate FellShort(t: Target, config: Config, evs: seq<Event>, e: Event)
    requires t.Valid() && config.Valid() && EventsOk(evs) && CdbOk(e.cmd)
  {
    Judge(|t.disk.blocks|, e.cmd) == Accept && !ReplyTo(t, config, evs, e).ok
  }

  /** The record a command stands for, unless it fell short. */
  function RecordOf(blkNum: nat, e: Event): seq<byte>
    requires |e.cmd| >= 10
  {
    match Judge(blkNum, e.cmd)
    case Accept => GoodSense()
    case Refuse(code) => IllegalRequest(code)
  }

  /** The stored record is that of the latest command that did not fall short. */
  lemma {:induction false} SenseIsLatestRecord(t: Target, config: Config, evs: seq<Event>, k: nat)
    requires t.Valid() && config.Valid() && EventsOk(evs) && k < |evs|
    requires !FellShort(t, config, evs[..k], evs[k])
    requires forall j :: k < j < |evs| ==> FellShort(t, config, evs[..j], evs[j])
    ensures After(t, config, evs).sense == RecordOf(|t.disk.blocks|, evs[k])
    decreases |evs|
  {
    var n := |evs| - 1;
    LastOutcome(t, config, evs[..n], evs[n]);
    if k < n {
      assert FellShort(t, config, evs[..n], evs[n]);
      PrefixOfPrefix(evs, n);
      SenseIsLatestRecord(t, config, evs[..n], k);
    }
  }

  lemma PrefixOfPrefix(evs: seq<Event>, n: nat)
    requires n <= |evs|
    ensures forall j :: 0 <= j <= n ==> evs[..n][..j] == evs[..j]
  {
  }

  lemma LastOutcome(t: Target, config: Config, evs: seq<Event>, e: Event)
    requires t.Valid() && config.Valid() && EventsOk(evs) && CdbOk(e.cmd)
    ensures ReplyTo(t, config, evs, e).target.sense
         == if FellShort(t, config, evs, e) then After(t, config, evs).sense else RecordOf(|t.disk.blocks|, e)
  {
    Outcomes(After(t, config, evs), config, e.cmd, e.wire);
  }

  /** While every command falls short the record stays as it was. */
  lemma {:induction false} ShortCommandsKeepSense(t: Target, config: Config, evs: seq<Event>)
    requires t.Valid() && config.Valid() && EventsOk(evs)
    requires forall j :: 0 <= j < |evs| ==> FellShort(t, config, evs[..j], evs[j])
    ensures After(t, config, evs).sense == t.sense
    decreases |evs|
  {
    if evs != [] {
      var n := |evs| - 1;
      LastOutcome(t, config, evs[..n], evs[n]);
      assert FellShort(t, config, evs[..n], evs[n]);
      PrefixOfPrefix(evs, n);
      ShortCommandsKeepSense(t, config, evs[..n]);
    }
  }

  predicate IsRequestSense(cmd: seq<byte>)
    requires |cmd| >= 10
  {
    cmd[0] == SCSI_CMD_REQUEST_SENSE && Judge(0, cmd) == Accept
  }

  /** A REQUEST SENSE that succeeds sends the record of the latest earlier command that did not
      fall short, and leaves the good record; one that falls short leaves the record alone. */
  lemma RequestSenseReports(t: Target, config: Config, evs: seq<Event>, e: Event, k: nat)
    requires t.Valid() && config.Valid() && EventsOk(evs) && CdbOk(e.cmd) && IsRequestSense(e.cmd)
    requires k < |evs| && !FellShort(t, config, evs[..k], evs[k])
    requires forall j :: k < j < |evs| ==> FellShort(t, config, evs[..j], evs[j])
    ensures var r, record := ReplyTo(t, config, evs, e), RecordOf(|t.disk.blocks|, evs[k]);
      if r.ok then r.sent == record && r.target.sense == GoodSense()
      else r.sent < record && r.target.sense == record
  {
    SenseIsLatestRecord(t, config, evs, k);
    var before := After(t, config, evs);
    assert |before.sense| == 18;
  }

  /** An error is reported at most once: after a successful REQUEST SENSE, with nothing but
      short failures in between, the next successful one sends the good record. */
  lemma ReportedOnce(t: Target, config: Config, evs: seq<Event>, k: nat, e: Event)
    requires t.Valid() && config.Valid() && EventsOk(evs) && CdbOk(e.cmd) && IsRequestSense(e.cmd)
    requires k < |evs| && IsRequestSense(evs[k].cmd) && ReplyTo(t, config, evs[..k], evs[k]).ok
    requires forall j :: k < j < |evs| ==> FellShort(t, config, evs[..j], evs[j])
    requires ReplyTo(t, config, evs, e).ok
    ensures ReplyTo(t, config, evs, e).sent == GoodSense()
  {
    RequestSenseReports(t, config, evs, e, k);
  }

  // ----- The disk as a map from block number to contents -------------------------

  predicate IsWrite(blkNum: nat, cmd: seq<byte>)
    requires |cmd| >= 10
  {
    cmd[0] == SCSI_CMD_WRITE_10 && Judge(blkNum, cmd) == Accept
  }

  predicate Covers(cmd: seq<byte>, l: nat)
    requires |cmd| >= 10
  {
    FirstLba(cmd) <= l < FirstLba(cmd) + BlkCnt(cmd)
  }

  /** Byte i of the buffer after n receives: the latest that reached it, or what was there. */
  function ByteThrough(buf: seq<byte>, wire: Wire, n: nat, i: nat): byte
    requires i < |buf|
    decreases n
  {
    if n == 0 then buf[i]
    else
      var got := wire.Received(n - 1, |buf|);
      if i < |got| then got[i] else ByteThrough(buf, wire, n - 1, i)
  }

  /** The buffer after n receives. */
  function Through(buf: seq<byte>, wire: Wire, n: nat): (r: seq<byte>)
    ensures |r| == |buf|
  {
    seq(|buf|, i requires 0 <= i < |buf| => ByteThrough(buf, wire, n, i))
  }

  lemma OverlayThrough(buf: seq<byte>, wire: Wire, n: nat)
    ensures Overlay(Through(buf, wire, n), wire.Received(n, |buf|)) == Through(buf, wire, n + 1)
  {
    var got := wire.Received(n, |buf|);
    forall i | 0 <= i < |buf|
      ensures Overlay(Through(buf, wire, n), got)[i] == Through(buf, wire, n + 1)[i]
    {
      assert Through(buf, wire, n)[i] == ByteThrough(buf, wire, n, i);
    }
  }

  lemma {:induction false} WriteLoopStores(disk: Medium, lba: nat, n: nat, wire: Wire, buf: seq<byte>)
    requires disk.Valid() && lba + n <= |disk.blocks| && |buf| == disk.blkSize
    ensures WriteLoop(disk, lba, n, wire, buf).0 == Through(buf, wire, n)
    ensures forall l :: 0 <= l < |disk.blocks| ==>
              WriteLoop(disk, lba, n, wire, buf).1.blocks[l]
              == if lba <= l < lba + n then Through(buf, wire, l - lba + 1) else disk.blocks[l]
    decreases n
  {
    if n > 0 {
      WriteLoopStores(disk, lba, n - 1, wire, buf);
      OverlayThrough(buf, wire, n - 1);
    } else {
      assert Through(buf, wire, 0) == buf;
    }
  }

  lemma {:induction false} ReadLoopLeaves(disk: Medium, lba: nat, n: nat, wire: Wire, buf: seq<byte>)
    requires disk.Valid() && lba + n <= |disk.blocks| && |buf| == disk.blkSize
    ensures ReadLoop(disk, lba, n, wire, buf).0 == if n == 0 then buf else disk.blocks[lba + n - 1]
  {
  }

  /** Only an accepted write changes the disk. */
  lemma OnlyWritesChangeDisk(t: Target, config: Config, cmd: seq<byte>, wire: Wire)
    requires t.Valid() && config.Valid() && CdbOk(cmd)
    ensures !IsWrite(|t.disk.blocks|, cmd) ==> Exec(t, config, cmd, wire).target.disk == t.disk
    ensures IsWrite(|t.disk.blocks|, cmd) ==>
      var r := Exec(t, config, cmd, wire);
      r.ok && r.sent == [] && r.target.disk == WriteLoop(t.disk, FirstLba(cmd), BlkCnt(cmd), wire, t.buf).1
  {
  }

  /** What a block holds after a command, whatever arrives. */
  lemma BlockAfterCommand(t: Target, config: Config, e: Event, l: nat)
    requires t.Valid() && config.Valid() && CdbOk(e.cmd) && l < |t.disk.blocks|
    ensures Exec(t, config, e.cmd, e.wire).target.disk.blocks[l]
         == if IsWrite(|t.disk.blocks|, e.cmd) && Covers(e.cmd, l) then Through(t.buf, e.wire, l - FirstLba(e.cmd) + 1)
            else t.disk.blocks[l]
  {
    OnlyWritesChangeDisk(t, config, e.cmd, e.wire);
    if IsWrite(|t.disk.blocks|, e.cmd) {
      WriteLoopStores(t.disk, FirstLba(e.cmd), BlkCnt(e.cmd), e.wire, t.buf);
    }
  }

  predicate IsRead(blkNum: nat, cmd: seq<byte>)
    requires |cmd| >= 10
  {
    cmd[0] == SCSI_CMD_READ_10 && Judge(blkNum, cmd) == Accept
  }

  /** What the buffer holds after a command: the last block that went through it. */
  lemma BufferAfterCommand(t: Target, config: Config, e: Event)
    requires t.Valid() && config.Valid() && CdbOk(e.cmd)
    ensures Exec(t, config, e.cmd, e.wire).target.buf
         == if IsWrite(|t.disk.blocks|, e.cmd) then Through(t.buf, e.wire, BlkCnt(e.cmd))
            else if IsRead(|t.disk.blocks|, e.cmd) && BlkCnt(e.cmd) > 0
            then t.disk.blocks[FirstLba(e.cmd) + BlkCnt(e.cmd) - 1]
            else t.buf
  {
    if IsWrite(|t.disk.blocks|, e.cmd) {
      WriteLoopStores(t.disk, FirstLba(e.cmd), BlkCnt(e.cmd), e.wire, t.buf);
    } else if IsRead(|t.disk.blocks|, e.cmd) {
      ReadLoopLeaves(t.disk, FirstLba(e.cmd), BlkCnt(e.cmd), e.wire, t.buf);
    }
  }

  /** An accepted WRITE(10) always succeeds. A block of its range then holds exactly what arrived
      for it if and only if that was a whole block; if nothing arrives at all, every block of
      the range holds what the buffer held before. */
  lemma {:induction false} WriteOutcome(t: Target, config: Config, e: Event, l: nat)
    requires t.Valid() && config.Valid() && CdbOk(e.cmd)
    requires IsWrite(|t.disk.blocks|, e.cmd) && Covers(e.cmd, l)
    ensures var r := Exec(t, config, e.cmd, e.wire);
      var got := e.wire.Received(l - FirstLba(e.cmd), t.disk.blkSize);
      && r.ok && r.target.sense == GoodSense() && r.target.residue == t.residue
      && got <= r.target.disk.blocks[l]
      && (r.target.disk.blocks[l] == got <==> |got| == t.disk.blkSize)
      && (e.wire.rx == [] ==> r.target.disk.blocks[l] == t.buf)
  {
    var n := l - FirstLba(e.cmd);
    Outcomes(t, config, e.cmd, e.wire);
    BlockAfterCommand(t, config, e, l);
    ReceivedFirst(t.buf, e.wire, n);
    if e.wire.rx == [] {
      NothingReceived(t.buf, e.wire, n + 1);
    }
  }

  lemma ReceivedFirst(buf: seq<byte>, wire: Wire, n: nat)
    ensures var got := wire.Received(n, |buf|);
      got <= Through(buf, wire, n + 1) && (Through(buf, wire, n + 1) == got <==> |got| == |buf|)
  {
    var got, r := wire.Received(n, |buf|), Through(buf, wire, n + 1);
    forall i | 0 <= i < |got| ensures r[i] == got[i] {
      assert r[i] == ByteThrough(buf, wire, n + 1, i);
    }
    assert r[..|got|] == got;
    if |got| == |buf| {
      assert r[..|got|] == r;
    }
  }

  lemma NothingReceived(buf: seq<byte>, wire: Wire, n: nat)
    requires wire.rx == []
    ensures Through(buf, wire, n) == buf
  {
    if n > 0 {
      NothingReceived(buf, wire, n - 1);
      OverlayThrough(buf, wire, n - 1);
    }
  }

  // ----- Blocks and buffer over a run --------------------------------------------

  /** What block l holds after the run: the buffer as the last write that covers l left it when
      l was stored, or what the block held before. */
  function Held(t: Target, evs: seq<Event>, l: nat): (b: seq<byte>)
    requires t.Valid() && EventsOk(evs) && l < |t.disk.blocks|
    ensures |b| == t.disk.blkSize
    decreases |evs|
  {
    if evs == [] then t.disk.blocks[l]
    else
      var init, e := evs[..|evs|-1], evs[|evs|-1];
      if IsWrite(|t.disk.blocks|, e.cmd) && Covers(e.cmd, l)
      then Through(Passed(t, init), e.wire, l - FirstLba(e.cmd) + 1)
      else Held(t, init, l)
  }

  /** The block that went through the buffer last. */
  function Passed(t: Target, evs: seq<Event>): (b: seq<byte>)
    requires t.Valid() && EventsOk(evs)
    ensures |b| == t.disk.blkSize
    decreases |evs|
  {
    if evs == [] then t.buf
    else
      var init, e := evs[..|evs|-1], evs[|evs|-1];
      if IsWrite(|t.disk.blocks|, e.cmd) then Through(Passed(t, init), e.wire, BlkCnt(e.cmd))
      else if IsRead(|t.disk.blocks|, e.cmd) && BlkCnt(e.cmd) > 0
      then Held(t, init, FirstLba(e.cmd) + BlkCnt(e.cmd) - 1)
      else Passed(t, init)
  }

  /** After any run over any transport, blocks and buffer are those of its history. */
  lemma {:induction false} BlocksHoldHistory(t: Target, config: Config, evs: seq<Event>)
    requires t.Valid() && config.Valid() && EventsOk(evs)
    ensures After(t, config, evs).buf == Passed(t, evs)
    ensures forall l :: 0 <= l < |t.disk.blocks| ==> After(t, config, evs).disk.blocks[l] == Held(t, evs, l)
    decreases |evs|
  {
    if evs != [] {
      var init, e := evs[..|evs|-1], evs[|evs|-1];
      BlocksHoldHistory(t, config, init);
      HistoryStep(t, config, After(t, config, init), init, e);
      assert init + [e] == evs;
    }
  }

  lemma HistoryStep(t: Target, config: Config, now: Target, init: seq<Event>, e: Event)
    requires t.Valid() && config.Valid() && EventsOk(init) && CdbOk(e.cmd)
    requires now.Valid() && now.disk.SameShape(t.disk) && now.buf == Passed(t, init)
    requires forall l :: 0 <= l < |t.disk.blocks| ==> now.disk.blocks[l] == Held(t, init, l)
    ensures EventsOk(init + [e])
    ensures var next := Exec(now, config, e.cmd, e.wire).target;
      && next.buf == Passed(t, init + [e])
      && forall l :: 0 <= l < |t.disk.blocks| ==> next.disk.blocks[l] == Held(t, init + [e], l)
  {
    BufferAfterCommand(now, config, e);
    HistoryOneMore(t, init, e);
    forall l | 0 <= l < |t.disk.blocks|
      ensures Exec(now, config, e.cmd, e.wire).target.disk.blocks[l] == Held(t, init + [e], l)
    {
      BlockAfterCommand(now, config, e, l);
    }
  }

  lemma {:induction false} HistoryOneMore(t: Target, init: seq<Event>, e: Event)
    requires t.Valid() && EventsOk(init) && CdbOk(e.cmd)
    ensures EventsOk(init + [e])
    ensures Passed(t, init + [e])
         == if IsWrite(|t.disk.blocks|, e.cmd) then Through(Passed(t, init), e.wire, BlkCnt(e.cmd))
            else if IsRead(|t.disk.blocks|, e.cmd) && BlkCnt(e.cmd) > 0
            then Held(t, init, FirstLba(e.cmd) + BlkCnt(e.cmd) - 1)
            else Passed(t, init)
    ensures forall l :: 0 <= l < |t.disk.blocks| ==>
              Held(t, init + [e], l)
              == if IsWrite(|t.disk.blocks|, e.cmd) && Covers(e.cmd, l)
                 then Through(Passed(t, init), e.wire, l - FirstLba(e.cmd) + 1)
                 else Held(t, init, l)
  {
    assert (init + [e])[..|init|] == init;
  }

  /** The data of every accepted write arrives in full. */
  ghost predicate WritesComplete(t: Target, evs: seq<Event>)
    requires EventsOk(evs)
  {
    forall k :: 0 <= k < |evs| && IsWrite(|t.disk.blocks|, evs[k].cmd) ==>
      evs[k].wire.Arrives(BlkCnt(evs[k].cmd), t.disk.blkSize)
  }

  /** What was last written to block l in the run, or what it held before. */
  function LastWritten(disk: Medium, evs: seq<Event>, l: nat): seq<byte>
    requires disk.Valid() && l < |disk.blocks| && EventsOk(evs)
    decreases |evs|
  {
    if evs == [] then disk.blocks[l]
    else
      var e := evs[|evs|-1];
      if IsWrite(|disk.blocks|, e.cmd) && Covers(e.cmd, l) && l - FirstLba(e.cmd) < |e.wire.rx|
      then e.wire.rx[l - FirstLba(e.cmd)]
      else LastWritten(disk, evs[..|evs|-1], l)
  }

  /** If the data of all writes arrive, the history of a block is what was last written to it. */
  lemma {:induction false} HeldIsLastWritten(t: Target, evs: seq<Event>, l: nat)
    requires t.Valid() && EventsOk(evs) && WritesComplete(t, evs) && l < |t.disk.blocks|
    ensures Held(t, evs, l) == LastWritten(t.disk, evs, l)
    decreases |evs|
  {
    if evs != [] {
      var init, e := evs[..|evs|-1], evs[|evs|-1];
      assert WritesComplete(t, init);
      HeldIsLastWritten(t, init, l);
      if IsWrite(|t.disk.blocks|, e.cmd) && Covers(e.cmd, l) {
        ReceivedFirst(Passed(t, init), e.wire, l - FirstLba(e.cmd));
      }
    }
  }

  /** After any run of complete writes every block holds what was last written to it. */
  lemma BlocksHoldLastWritten(t: Target, config: Config, evs: seq<Event>, l: nat)
    requires t.Valid() && config.Valid() && EventsOk(evs) && WritesComplete(t, evs) && l < |t.disk.blocks|
    ensures After(t, config, evs).disk.blocks[l] == LastWritten(t.disk, evs, l)
  {
    BlocksHoldHistory(t, config, evs);
    HeldIsLastWritten(t, evs, l);
  }

  // ----- What a read sends -------------------------------------------------------

  function Join(s: seq<seq<byte>>): (r: seq<byte>)
  {
    if s == [] then [] else Join(s[..|s|-1]) + s[|s|-1]
  }

  /** What the transport takes of blocks sent one by one. */
  function Cut(s: seq<seq<byte>>, wire: Wire): (r: seq<seq<byte>>)
    ensures |r| == |s|
  {
    seq(|s|, j requires 0 <= j < |s| => s[j][..wire.Accepted(j, |s[j]|)])
  }

  /** Every block is taken whole. */
  predicate TakenWhole(s: seq<seq<byte>>, wire: Wire)
  {
    forall j :: 0 <= j < |s| ==> wire.Accepted(j, |s[j]|) == |s[j]|
  }

  lemma CutPrefix(s: seq<seq<byte>>, wire: Wire)
    requires s != []
    ensures Cut(s, wire)[..|s|-1] == Cut(s[..|s|-1], wire)
  {
  }

  lemma {:induction false} CutShortens(s: seq<seq<byte>>, wire: Wire)
    ensures |Join(Cut(s, wire))| <= |Join(s)|
    ensures |Join(Cut(s, wire))| == |Join(s)| <==> TakenWhole(s, wire)
    decreases |s|
  {
    if s != [] {
      CutShortens(s[..|s|-1], wire);
      CutPrefix(s, wire);
      assert TakenWhole(s, wire) <==>
        TakenWhole(s[..|s|-1], wire) && wire.Accepted(|s| - 1, |s[|s|-1]|) == |s[|s|-1]|;
    }
  }

  lemma WholeCut(s: seq<seq<byte>>, wire: Wire)
    ensures Join(Cut(s, wire)) == Join(s) <==> TakenWhole(s, wire)
  {
    CutShortens(s, wire);
    if TakenWhole(s, wire) {
      forall j | 0 <= j < |s| ensures Cut(s, wire)[j] == s[j] {
        assert wire.Accepted(j, |s[j]|) == |s[j]|;
      }
      assert Cut(s, wire) == s;
    }
  }

  lemma {:induction false} ReadLoopSends(disk: Medium, lba: nat, n: nat, wire: Wire, buf: seq<byte>)
    requires disk.Valid() && lba + n <= |disk.blocks| && |buf| == disk.blkSize
    ensures ReadLoop(disk, lba, n, wire, buf).1 == Join(Cut(disk.blocks[lba..lba+n], wire))
    decreases n
  {
    if n > 0 {
      var s := disk.blocks[lba..lba+n];
      ReadLoopSends(disk, lba, n - 1, wire, buf);
      CutPrefix(s, wire);
      assert s[..n-1] == disk.blocks[lba..lba+n-1] && s[n-1] == disk.blocks[lba + n - 1];
    }
  }

  /** The history of n blocks from lba. */
  function HeldRange(t: Target, evs: seq<Event>, lba: nat, n: nat): (s: seq<seq<byte>>)
    requires t.Valid() && EventsOk(evs) && lba + n <= |t.disk.blocks|
    ensures |s| == n && forall j :: 0 <= j < n ==> s[j] == Held(t, evs, lba + j)
  {
    seq(n, j requires 0 <= j < n => Held(t, evs, lba + j))
  }

  /** The last written contents of n blocks from lba. */
  function LastRange(disk: Medium, evs: seq<Event>, lba: nat, n: nat): (s: seq<seq<byte>>)
    requires disk.Valid() && EventsOk(evs) && lba + n <= |disk.blocks|
    ensures |s| == n && forall j :: 0 <= j < n ==> s[j] == LastWritten(disk, evs, lba + j)
  {
    seq(n, j requires 0 <= j < n => LastWritten(disk, evs, lba + j))
  }

  /** An accepted READ(10) always succeeds, with the good record and the residue as it was; of
      every block of its range it sends what the transport takes, so all of them in full
      exactly if each is taken whole. */
  lemma ReadOutcome(t: Target, config: Config, evs: seq<Event>, e: Event)
    requires t.Valid() && config.Valid() && EventsOk(evs) && CdbOk(e.cmd) && IsRead(|t.disk.blocks|, e.cmd)
    ensures var r, range := ReplyTo(t, config, evs, e), HeldRange(t, evs, FirstLba(e.cmd), BlkCnt(e.cmd));
      && r.ok && r.target.sense == GoodSense() && r.target.residue == After(t, config, evs).residue
      && r.sent == Join(Cut(range, e.wire))
      && (r.sent == Join(range) <==> TakenWhole(range, e.wire))
  {
    var now, lba, n := After(t, config, evs), FirstLba(e.cmd), BlkCnt(e.cmd);
    var range := HeldRange(t, evs, lba, n);
    BlocksHoldHistory(t, config, evs);
    Outcomes(now, config, e.cmd, e.wire);
    ReadLoopSends(now.disk, lba, n, e.wire, now.buf);
    assert now.disk.blocks[lba..lba+n] == range;
    WholeCut(range, e.wire);
  }

  /** If every write's data arrived and the transport takes every block, READ(10) sends exactly
      what was last written to its range. */
  lemma ReadSendsLastWritten(t: Target, config: Config, evs: seq<Event>, e: Event)
    requires t.Valid() && config.Valid() && EventsOk(evs) && WritesComplete(t, evs)
    requires CdbOk(e.cmd) && IsRead(|t.disk.blocks|, e.cmd)
    requires TakenWhole(HeldRange(t, evs, FirstLba(e.cmd), BlkCnt(e.cmd)), e.wire)
    ensures var r := ReplyTo(t, config, evs, e);
      r.ok && r.sent == Join(LastRange(t.disk, evs, FirstLba(e.cmd), BlkCnt(e.cmd)))
  {
    ReadOutcome(t, config, evs, e);
    RangeIsLastWritten(t, evs, FirstLba(e.cmd), BlkCnt(e.cmd));
  }

  lemma RangeIsLastWritten(t: Target, evs: seq<Event>, lba: nat, n: nat)
    requires t.Valid() && EventsOk(evs) && WritesComplete(t, evs) && lba + n <= |t.disk.blocks|
    ensures HeldRange(t, evs, lba, n) == LastRange(t.disk, evs, lba, n)
  {
    var held, last := HeldRange(t, evs, lba, n), LastRange(t.disk, evs, lba, n);
    forall j | 0 <= j < n ensures held[j] == last[j] {
      HeldIsLastWritten(t, evs, lba + j);
    }
    assert held == last;
  }

  // ----- Capacity and protection -------------------------------------------------

  lemma BigEndianField(x: nat)
    requires x < 0x1_0000_0000
    ensures FromBE(Reverse(ToLE(x, 4))) == x
  {
    Pow256Four();
    ReverseReverse(ToLE(x, 4));
    ReversedIsBE(Reverse(ToLE(x, 4)));
    StoreLoad(x, 4);
  }

  /** The read-only flag is reported by MODE SENSE(6) but protects nothing: a command does to a
      read-only disk exactly what it does to a writable one. */
  lemma ProtectionNotEnforced(t: Target, config: Config, cmd: seq<byte>, wire: Wire)
    requires t.Valid() && config.Valid() && CdbOk(cmd)
    ensures var locked, open := t.(disk := t.disk.(readonly := true)), t.(disk := t.disk.(readonly := false));
      Exec(locked, config, cmd, wire).target.disk.blocks == Exec(open, config, cmd, wire).target.disk.blocks
  {
    var locked, open := t.(disk := t.disk.(readonly := true)), t.(disk := t.disk.(readonly := false));
    OnlyWritesChangeDisk(locked, config, cmd, wire);
    OnlyWritesChangeDisk(open, config, cmd, wire);
    if IsWrite(|t.disk.blocks|, cmd) {
      SameWrites(locked.disk, open.disk, FirstLba(cmd), BlkCnt(cmd), wire, t.buf);
    }
  }

  /** The disk is safe from a command exactly if the command is not an accepted write of at least
      one block, whatever the read-only flag says: for every other command no transfer changes
      it, and for such a write some transfer does. */
  lemma KeepsDiskExactly(t: Target, config: Config, cmd: seq<byte>)
    requires t.Valid() && config.Valid() && CdbOk(cmd)
    ensures (forall wire: Wire :: Exec(t, config, cmd, wire).target.disk == t.disk) <==>
            !(IsWrite(|t.disk.blocks|, cmd) && BlkCnt(cmd) > 0)
  {
    if IsWrite(|t.disk.blocks|, cmd) && BlkCnt(cmd) > 0 {
      WriteChangesDisk(t, config, cmd);
    } else {
      forall wire: Wire ensures Exec(t, config, cmd, wire).target.disk == t.disk {
        OnlyWritesChangeDisk(t, config, cmd, wire);
      }
    }
  }

  /** An accepted write that delivers other bytes than the first block holds. */
  lemma WriteChangesDisk(t: Target, config: Config, cmd: seq<byte>)
    requires t.Valid() && config.Valid() && CdbOk(cmd)
    requires IsWrite(|t.disk.blocks|, cmd) && BlkCnt(cmd) > 0
    ensures exists wire: Wire :: Exec(t, config, cmd, wire).target.disk != t.disk
  {
    var l, bs := FirstLba(cmd), t.disk.blkSize;
    var x: byte := if t.disk.blocks[l][0] == 0 then 1 else 0;
    var other := seq(bs, _ => x);
    var wire := Wire([], seq(BlkCnt(cmd), _ => other), []);
    WriteOutcome(t, config, Event(cmd, wire), l);
    assert Exec(t, config, cmd, wire).target.disk.blocks[l][0] == other[0] != t.disk.blocks[l][0];
  }

  lemma {:induction false} SameWrites(d: Medium, e: Medium, lba: nat, n: nat, wire: Wire, buf: seq<byte>)
    requires d.Valid() && e.Valid() && d.(readonly := e.readonly) == e
    requires lba + n <= |d.blocks| && |buf| == d.blkSize
    ensures var (b, d') := WriteLoop(d, lba, n, wire, buf);
      WriteLoop(e, lba, n, wire, buf) == (b, d'.(readonly := e.readonly))
    decreases n
  {
    if n > 0 {
      SameWrites(d, e, lba, n - 1, wire, buf);
    }
  }
}

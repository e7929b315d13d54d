/** Whole runs of the SCSI target on the driver itself. */
module ScsiRun {
  import opened Bytes
  import opened ScsiSpec
  import opened Scsi
  import opened ScsiProperties

  /** Whether a command succeeded, and what it sent. */
  datatype Answer = Answer(ok: bool, sent: seq<byte>)

  function AnswerTo(r: Reply): Answer
  {
    Answer(r.ok, r.sent)
  }

  /** The answers so far are those of the command semantics. */
  ghost predicate Answered(t0: Target, config: Config, evs: seq<Event>, answers: seq<Answer>)
    requires t0.Valid() && config.Valid() && EventsOk(evs)
  {
    |answers| <= |evs| &&
    forall k :: 0 <= k < |answers| ==> answers[k] == AnswerTo(ReplyTo(t0, config, evs[..k], evs[k]))
  }

  lemma {:induction false} AnswersOneMore(t0: Target, config: Config, evs: seq<Event>, answers: seq<Answer>, r: Reply)
    requires t0.Valid() && config.Valid() && EventsOk(evs) && |answers| < |evs|
    requires Answered(t0, config, evs, answers)
    requires r == ReplyTo(t0, config, evs[..|answers|], evs[|answers|])
    ensures Answered(t0, config, evs, answers + [AnswerTo(r)])
    ensures After(t0, config, evs[..|answers|+1]) == r.target
  {
    var n := |answers|;
    assert evs[..n+1][..n] == evs[..n] && evs[..n+1][n] == evs[n];
    forall k | 0 <= k <= n
      ensures (answers + [AnswerTo(r)])[k] == AnswerTo(ReplyTo(t0, config, evs[..k], evs[k]))
    {
      assert k < n ==> answers[k] == AnswerTo(ReplyTo(t0, config, evs[..k], evs[k]));
    }
  }

  /** Executes commands one after the other, with the right answer to each. */
  method Run(target: ScsiTarget, evs: seq<Event>) returns (answers: seq<Answer>)
    requires target.Valid() && EventsOk(evs)
    modifies target, target.transport, target.blkbuf, target.disk.storage
    ensures target.Valid() && target.Abs() == After(old(target.Abs()), target.config, evs)
    ensures |answers| == |evs|
    ensures forall k :: 0 <= k < |evs| ==> RightRead(old(target.Abs()), evs, k, answers[k])
    ensures forall j, k :: 0 <= j < k < |evs| ==> RightSense(old(target.Abs()), target.config, evs, j, k, answers[k])
  {
    ghost var t0, storage := target.Abs(), target.disk.storage;
    answers := [];
    for n := 0 to |evs|
      invariant target.Valid() && target.disk.storage == storage
      invariant |answers| == n && Answered(t0, target.config, evs, answers)
      invariant target.Abs() == After(t0, target.config, evs[..n])
    {
      var a := RunOne(target, t0, evs[..n], evs[n]);
      AnswersOneMore(t0, target.config, evs, answers, ReplyTo(t0, target.config, evs[..n], evs[n]));
      answers := answers + [a];
    }
    assert evs[..|evs|] == evs;
    AnswersRight(t0, target.config, evs, answers);
  }

  /** Executes one more command of a run. */
  method RunOne(target: ScsiTarget, ghost t0: Target, ghost before: seq<Event>, e: Event) returns (a: Answer)
    requires target.Valid() && t0.Valid() && EventsOk(before) && CdbOk(e.cmd)
    requires target.Abs() == After(t0, target.config, before)
    modifies target, target.transport, target.blkbuf, target.disk.storage
    ensures target.Valid() && target.disk.storage == old(target.disk.storage)
    ensures target.Abs() == ReplyTo(t0, target.config, before, e).target
    ensures a == AnswerTo(ReplyTo(t0, target.config, before, e))
  {
    var ok := target.ExecCmd(e.cmd, e.wire);
    a := Answer(ok, target.transport.sent);
  }

  /** Answer a to command k, if that is an accepted READ(10): success, with what the transport
      takes of the blocks as their history left them, and with what was last written to them if
      the writes before arrived in full and the transport takes every block. */
  ghost predicate RightRead(t0: Target, evs: seq<Event>, k: nat, a: Answer)
    requires t0.Valid() && EventsOk(evs) && k < |evs|
  {
    IsRead(|t0.disk.blocks|, evs[k].cmd) ==>
      var before, lba, n := evs[..k], FirstLba(evs[k].cmd), BlkCnt(evs[k].cmd);
      && a == Answer(true, Join(Cut(HeldRange(t0, before, lba, n), evs[k].wire)))
      && (WritesComplete(t0, before) && TakenWhole(HeldRange(t0, before, lba, n), evs[k].wire) ==>
          a.sent == Join(LastRange(t0.disk, before, lba, n)))
  }

  /** Command j is the latest before k that did not fall short. */
  ghost predicate Latest(t0: Target, config: Config, evs: seq<Event>, j: nat, k: nat)
    requires t0.Valid() && config.Valid() && EventsOk(evs) && j < k < |evs|
  {
    && !FellShort(t0, config, evs[..j], evs[j])
    && forall i :: j < i < k ==> FellShort(t0, config, evs[..i], evs[i])
  }

  /** Answer a to command k, if that is a successful REQUEST SENSE: the record of the latest
      command before it that did not fall short. */
  ghost predicate RightSense(t0: Target, config: Config, evs: seq<Event>, j: nat, k: nat, a: Answer)
    requires t0.Valid() && config.Valid() && EventsOk(evs) && j < k < |evs|
  {
    IsRequestSense(evs[k].cmd) && a.ok && Latest(t0, config, evs, j, k) ==>
      a.sent == RecordOf(|t0.disk.blocks|, evs[j])
  }

  lemma AnswersRight(t0: Target, config: Config, evs: seq<Event>, answers: seq<Answer>)
    requires t0.Valid() && config.Valid() && EventsOk(evs) && |answers| == |evs|
    requires Answered(t0, config, evs, answers)
    ensures forall k :: 0 <= k < |evs| ==> RightRead(t0, evs, k, answers[k])
    ensures forall j, k :: 0 <= j < k < |evs| ==> RightSense(t0, config, evs, j, k, answers[k])
  {
    forall k | 0 <= k < |evs| ensures RightRead(t0, evs, k, answers[k]) {
      ReadRight(t0, config, evs, k, answers[k]);
    }
    forall j, k | 0 <= j < k < |evs| ensures RightSense(t0, config, evs, j, k, answers[k]) {
      SenseRight(t0, config, evs, j, k, answers[k]);
    }
  }

  lemma ReadRight(t0: Target, config: Config, evs: seq<Event>, k: nat, a: Answer)
    requires t0.Valid() && config.Valid() && EventsOk(evs) && k < |evs|
    requires a == AnswerTo(ReplyTo(t0, config, evs[..k], evs[k]))
    ensures RightRead(t0, evs, k, a)
  {
    if IsRead(|t0.disk.blocks|, evs[k].cmd) {
      var before, lba, n := evs[..k], FirstLba(evs[k].cmd), BlkCnt(evs[k].cmd);
      ReadOutcome(t0, config, before, evs[k]);
      if WritesComplete(t0, before) && TakenWhole(HeldRange(t0, before, lba, n), evs[k].wire) {
        ReadSendsLastWritten(t0, config, before, evs[k]);
      }
    }
  }

  lemma SenseRight(t0: Target, config: Config, evs: seq<Event>, j: nat, k: nat, a: Answer)
    requires t0.Valid() && config.Valid() && EventsOk(evs) && j < k < |evs|
    requires a == AnswerTo(ReplyTo(t0, config, evs[..k], evs[k]))
    ensures RightSense(t0, config, evs, j, k, a)
  {
    if IsRequestSense(evs[k].cmd) && a.ok && Latest(t0, config, evs, j, k) {
      PrefixOfPrefix(evs, k);
      forall i | j < i < k ensures FellShort(t0, config, evs[..k][..i], evs[..k][i]) {
        assert FellShort(t0, config, evs[..i], evs[i]);
      }
      RequestSenseReports(t0, config, evs[..k], evs[k], j);
    }
  }
}

/** Whole runs of the CRC driver. */
module CrcRun {
  import opened Prelude
  import opened Gf2
  import opened Words
  import opened Crc
  import opened CrcProperties

  datatype Call = Reset | Calc(buf: seq<bv8>)

  /** The bytes given to the driver since it was created or last reset. */
  function Given(calls: seq<Call>): seq<bv8>
    decreases |calls|
  {
    if calls == [] then []
    else match calls[|calls|-1]
         case Reset => []
         case Calc(buf) => Given(calls[..|calls|-1]) + buf
  }

  /** r is what one calculation over buf reports from the start value. */
  ghost predicate Reports(config: CrcConfig, buf: seq<bv8>, r: bv32)
    requires config.Valid()
  {
    exists crc :: Continues(config, config.initialVal, buf, crc, r)
  }

  /** The register is one that a calculation over buf may leave from the start value. */
  ghost predicate Leaves(config: CrcConfig, buf: seq<bv8>, crc: bv32)
    requires config.Valid()
  {
    match config.table
    case Some(table) => crc == TableRun(table, config.initialVal, buf)
    case None =>
      BitsOf(crc, config.polySize)
      == Run(BitsOf(config.initialVal, config.polySize), config.Generator(), config.Message(buf))
  }

  /** A calculation over buf reports one word only. */
  lemma ReportUnique(config: CrcConfig, crc0: bv32, buf: seq<bv8>, crc: bv32, r: bv32, crc': bv32, r': bv32)
    requires config.Valid() && Continues(config, crc0, buf, crc, r) && Continues(config, crc0, buf, crc', r')
    ensures r == r'
  {
    FitsEqual(r, r', config.polySize);
  }

  lemma NothingGiven(config: CrcConfig)
    requires config.Valid()
    ensures Leaves(config, [], config.initialVal)
  {
    assert config.Message([]) == [];
  }

  /** Continuing from what a leaves over b is calculating over a + b. */
  lemma CalcContinues(config: CrcConfig, a: seq<bv8>, b: seq<bv8>, crc0: bv32, crc: bv32, r: bv32)
    requires config.Valid() && Leaves(config, a, crc0) && Continues(config, crc0, b, crc, r)
    ensures Leaves(config, a + b, crc) && Continues(config, config.initialVal, a + b, crc, r)
  {
    match config.table
    case Some(table) => TableRunConcat(table, config.initialVal, a, b);
    case None =>
      config.MessageConcat(a, b);
      RunConcat(BitsOf(config.initialVal, config.polySize), config.Generator(), config.Message(a), config.Message(b));
  }

  /** Answer k, if call k is a calculation, is that of one calculation over all bytes given since
      the last reset before it. */
  ghost predicate RightAnswers(config: CrcConfig, calls: seq<Call>, answers: seq<Option<bv32>>)
    requires config.Valid()
  {
    |answers| <= |calls| &&
    forall k :: 0 <= k < |answers| ==> RightAnswer(config, calls[..k+1], answers[k])
  }

  ghost predicate RightAnswer(config: CrcConfig, calls: seq<Call>, a: Option<bv32>)
    requires config.Valid()
  {
    calls != [] &&
    match calls[|calls|-1]
    case Reset => a == None
    case Calc(_) => a.Some? && Reports(config, Given(calls), a.value)
  }

  lemma GivenOneMore(before: seq<Call>, call: Call)
    ensures Given(before + [call]) == match call case Reset => [] case Calc(buf) => Given(before) + buf
  {
    assert (before + [call])[..|before|] == before;
  }

  lemma {:induction false} AnswersOneMore(config: CrcConfig, calls: seq<Call>, answers: seq<Option<bv32>>,
                                          a: Option<bv32>)
    requires config.Valid() && |answers| < |calls| && RightAnswers(config, calls, answers)
    requires RightAnswer(config, calls[..|answers|] + [calls[|answers|]], a)
    ensures RightAnswers(config, calls, answers + [a])
  {
    var n := |answers|;
    assert calls[..n] + [calls[n]] == calls[..n+1];
    forall k | 0 <= k <= n ensures RightAnswer(config, calls[..k+1], (answers + [a])[k]) {
      assert k < n ==> RightAnswer(config, calls[..k+1], answers[k]);
    }
  }

  /** Performs calls of both kinds, in any order, on a new driver. */
  method RunDriver(config: CrcConfig, calls: seq<Call>) returns (answers: seq<Option<bv32>>)
    requires config.Valid()
    ensures |answers| == |calls| && RightAnswers(config, calls, answers)
  {
    var driver := new CrcDriver(config);
    answers := [];
    NothingGiven(config);
    for n := 0 to |calls|
      invariant driver.config == config && Leaves(config, Given(calls[..n]), driver.crc)
      invariant |answers| == n && RightAnswers(config, calls, answers)
    {
      var a := PerformCall(driver, calls[..n], calls[n]);
      AnswersOneMore(config, calls, answers, a);
      assert calls[..n] + [calls[n]] == calls[..n+1];
      answers := answers + [a];
    }
  }

  /** One call after others. */
  method PerformCall(driver: CrcDriver, ghost before: seq<Call>, call: Call) returns (a: Option<bv32>)
    requires driver.config.Valid() && Leaves(driver.config, Given(before), driver.crc)
    modifies driver
    ensures driver.config == old(driver.config) && Leaves(driver.config, Given(before + [call]), driver.crc)
    ensures RightAnswer(driver.config, before + [call], a)
  {
    ghost var config, crc0 := driver.config, driver.crc;
    GivenOneMore(before, call);
    match call {
      case Reset =>
        driver.Reset();
        NothingGiven(config);
        a := None;
      case Calc(buf) =>
        var r := driver.Calc(buf);
        CalcAnswers(config, before, buf, crc0, driver.crc, r);
        a := Some(r);
    }
  }

  lemma CalcAnswers(config: CrcConfig, before: seq<Call>, buf: seq<bv8>, crc0: bv32, crc: bv32, r: bv32)
    requires config.Valid() && Leaves(config, Given(before), crc0) && Continues(config, crc0, buf, crc, r)
    ensures Leaves(config, Given(before + [Calc(buf)]), crc)
    ensures RightAnswer(config, before + [Calc(buf)], Some(r))
  {
    GivenOneMore(before, Calc(buf));
    CalcContinues(config, Given(before), buf, crc0, crc, r);
    assert Reports(config, Given(before) + buf, r);
  }
}

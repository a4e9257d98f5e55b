/** DeviceInfoCommand (internal/commands/info.go): one query for thirteen
    collector parameters, then one answer per parameter, each answer filling
    the field its parameter code names. */
module DeviceInfo {
  import opened Base
  import opened Text
  import opened Wire
  import opened Messages
  import opened Link

  /** The parameter codes asked for, in the order they are sent. */
  const InfoPars: seq<byte> := [1, 2, 5, 6, 7, 11, 12, 48, 3, 4, 14, 34, 41]

  /** How many answers the command reads: one per code in InfoPars. */
  const ParCount: nat := 13

  /** A parameter code the command knows: one of InfoPars. */
  predicate Known(par: byte) {
    || par == 1 || par == 2 || par == 5 || par == 6 || par == 7 || par == 11 || par == 12
    || par == 48 || par == 3 || par == 4 || par == 14 || par == 34 || par == 41
  }

  /** The known codes are exactly the codes asked for, one answer each. */
  lemma KnownIsInfoPar(par: byte)
    ensures Known(par) <==> par in InfoPars
    ensures |InfoPars| == ParCount
  {
  }

  /** The one request of the command. */
  const InfoRequest: Request := NewQueryCollectorReq(InfoPars)

  datatype Info = Info(
    deviceType: string, serialNumber: string, firmwareVersion: string,
    hardwareVersion: string, factoryTime: string, devicesOnline: string,
    monitoredDevices: string, connectionStatus: string, manufacturer: string,
    protocolVersion: string, deviceProps: string, serialBaudrate: string,
    ssid: string)

  /** The zero DeviceInfoResult the answers are written into. */
  const EmptyInfo: Info := Info("", "", "", "", "", "", "", "", "", "", "", "", "")

  /** The field a parameter code names; None for a code the command does not
      know. */
  function Field(info: Info, par: byte): (r: Option<string>)
    ensures r.Some? <==> Known(par)
  {
    match par
    case 1 => Some(info.deviceType)
    case 2 => Some(info.serialNumber)
    case 5 => Some(info.firmwareVersion)
    case 6 => Some(info.hardwareVersion)
    case 7 => Some(info.factoryTime)
    case 11 => Some(info.devicesOnline)
    case 12 => Some(info.monitoredDevices)
    case 48 => Some(info.connectionStatus)
    case 3 => Some(info.manufacturer)
    case 4 => Some(info.protocolVersion)
    case 14 => Some(info.deviceProps)
    case 34 => Some(info.serialBaudrate)
    case 41 => Some(info.ssid)
    case _ => None
  }

  /** Two results that agree on every named field are the same result. */
  lemma FieldsDetermineInfo(a: Info, b: Info)
    requires forall p | Known(p) :: Field(a, p) == Field(b, p)
    ensures a == b
  {
    assert Field(a, 1) == Field(b, 1) && Field(a, 2) == Field(b, 2);
    assert Field(a, 5) == Field(b, 5) && Field(a, 6) == Field(b, 6);
    assert Field(a, 7) == Field(b, 7) && Field(a, 11) == Field(b, 11);
    assert Field(a, 12) == Field(b, 12) && Field(a, 48) == Field(b, 48);
    assert Field(a, 3) == Field(b, 3) && Field(a, 4) == Field(b, 4);
    assert Field(a, 14) == Field(b, 14) && Field(a, 34) == Field(b, 34);
    assert Field(a, 41) == Field(b, 41);
  }

  /** One answer applied to the result (the switch in Handle): the field its
      parameter names becomes the answer's data and no other field changes;
      an unknown parameter is a failure. */
  function ApplyPar(info: Info, par: byte, data: string): (r: Option<Info>)
    ensures r.None? <==> !Known(par)
    ensures r.Some? ==> Field(r.value, par) == Some(data)
    ensures r.Some? ==> forall p | p != par :: Field(r.value, p) == Field(info, p)
  {
    match par
    case 1 => Some(info.(deviceType := data))
    case 2 => Some(info.(serialNumber := data))
    case 5 => Some(info.(firmwareVersion := data))
    case 6 => Some(info.(hardwareVersion := data))
    case 7 => Some(info.(factoryTime := data))
    case 11 => Some(info.(devicesOnline := data))
    case 12 => Some(info.(monitoredDevices := data))
    case 48 => Some(info.(connectionStatus := data))
    case 3 => Some(info.(manufacturer := data))
    case 4 => Some(info.(protocolVersion := data))
    case 14 => Some(info.(deviceProps := data))
    case 34 => Some(info.(serialBaudrate := data))
    case 41 => Some(info.(ssid := data))
    case _ => None
  }

  // ------------------------------------------------------- reading answers

  /** The context errors.Join puts in front of a failed read of answer i. */
  function ReadParContext(i: nat): string {
    "failed to read param " + Itoa(i)
  }

  /** A query is answered by query answers. */
  lemma ReadFrameQueryBody(data: seq<byte>, exhausted: Error, req: Request)
    requires req.body.QueryCollectorReq?
    requires ReadFrame(data, exhausted, req).0.Ok?
    ensures ReadFrame(data, exhausted, req).0.value.body.QueryCollectorRsp?
  {
  }

  /** What the loop takes from one read: the answer's parameter and data, or
      the read's error; and the bytes left unread. */
  type AnswerReader = seq<byte> -> (Result<(byte, string)>, seq<byte>)

  /** ReadResponse for the query, keeping Par and Data of the answer. */
  function AnswerOf(data: seq<byte>, exhausted: Error): (Result<(byte, string)>, seq<byte>) {
    var f := ReadFrame(data, exhausted, InfoRequest);
    if f.0.Err? then (Err(f.0.error), f.1)
    else
      ReadFrameQueryBody(data, exhausted, InfoRequest);
      (Ok((f.0.value.body.par, f.0.value.body.data)), f.1)
  }

  function ReaderOf(exhausted: Error): AnswerReader {
    data => AnswerOf(data, exhausted)
  }

  /** The loop of Handle as a function of the bytes waiting on the socket:
      answers i, i+1, ... up to the thirteenth, each applied to the result in
      turn; a failed read stops it with the read's position joined to the
      cause, an unknown parameter stops it too. Also gives what is left
      unread. */
  function ReadInfoFrom(read: AnswerReader, data: seq<byte>, i: nat, info: Info): (out: (Result<Info>, seq<byte>))
    ensures out.0.Err? ==>
      || out.0.error.UnknownPar?
      || (out.0.error.Joined? && exists j | i <= j < ParCount :: out.0.error.context == ReadParContext(j))
    decreases ParCount - i
  {
    if i >= ParCount then (Ok(info), data)
    else
      var f := read(data);
      if f.0.Err? then (Err(Joined(ReadParContext(i), f.0.error)), f.1)
      else
        var next := ApplyPar(info, f.0.value.0, f.0.value.1);
        if next.None? then (Err(UnknownPar(f.0.value.0, f.0.value.1)), f.1)
        else ReadInfoFrom(read, f.1, i + 1, next.value)
  }

  /** Answers i.. of the bytes `data` still give the command's outcome
      `total`. */
  ghost predicate Remaining(read: AnswerReader, data: seq<byte>, i: nat, info: Info, total: (Result<Info>, seq<byte>)) {
    ReadInfoFrom(read, data, i, info) == total
  }

  /** One pass of the loop in Handle: read answer i and apply it. Either the
      command ends here with its outcome, or the rest of the answers still
      lead to it. */
  method ReadAnswer(dev: Device, read: AnswerReader, i: nat, info: Info, ghost total: (Result<Info>, seq<byte>))
    returns (stop: Option<Result<Info>>, info': Info)
    requires read == ReaderOf(dev.rx.exhausted)
    requires i < ParCount
    requires Remaining(read, dev.rx.data, i, info, total)
    modifies dev, dev.rx
    ensures dev.sent == old(dev.sent) && dev.forwarded == old(dev.forwarded)
    ensures stop.Some? ==> stop.value == total.0 && dev.rx.data == total.1
    ensures stop.None? ==> Remaining(read, dev.rx.data, i + 1, info', total)
  {
    ghost var before := dev.rx.data;
    var resp := dev.ReadResponse(InfoRequest);
    assert read(before) == AnswerOf(before, dev.rx.exhausted);
    info' := info;
    if resp.Err? {
      return Some(Err(Joined(ReadParContext(i), resp.error))), info';
    }
    ReadFrameQueryBody(before, dev.rx.exhausted, InfoRequest);
    var next := ApplyPar(info, resp.value.body.par, resp.value.body.data);
    if next.None? {
      return Some(Err(UnknownPar(resp.value.body.par, resp.value.body.data))), info';
    }
    stop, info' := None, next.value;
  }

  /** The loop of Handle: all answers read in turn, as ReadInfoFrom says. */
  method ReadAnswers(dev: Device) returns (r: Result<Info>)
    modifies dev, dev.rx
    ensures dev.sent == old(dev.sent) && dev.forwarded == old(dev.forwarded)
    ensures (r, dev.rx.data) == ReadInfoFrom(ReaderOf(dev.rx.exhausted), old(dev.rx.data), 0, EmptyInfo)
  {
    var read := ReaderOf(dev.rx.exhausted);
    ghost var total := ReadInfoFrom(read, dev.rx.data, 0, EmptyInfo);
    var info := EmptyInfo;
    var i := 0;
    while i < 13  // ParCount
      invariant 0 <= i <= 13
      invariant dev.sent == old(dev.sent) && dev.forwarded == old(dev.forwarded)
      invariant Remaining(read, dev.rx.data, i, info, total)
    {
      var stop;
      stop, info := ReadAnswer(dev, read, i, info, total);
      if stop.Some? {
        return stop.value;
      }
      i := i + 1;
    }
    r := Ok(info);
  }

  /** DeviceInfoCommand.Handle: the query goes out in one frame; a failed
      write is returned before anything is read; otherwise the answers are
      read one by one as ReadInfoFrom says. */
  method Handle(dev: Device) returns (r: Result<Info>)
    modifies dev, dev.rx
    ensures dev.sent == old(dev.sent) + [Frame(InfoRequest)]
    ensures dev.forwarded == old(dev.forwarded)
    ensures dev.writeFailure.Some? ==> r == Err(dev.writeFailure.value) && dev.rx.data == old(dev.rx.data)
    ensures dev.writeFailure.None? ==>
      (r, dev.rx.data) == ReadInfoFrom(ReaderOf(dev.rx.exhausted), old(dev.rx.data), 0, EmptyInfo)
  {
    var err := dev.WriteRequest(InfoRequest);
    if err.Some? {
      return Err(err.value);
    }
    r := ReadAnswers(dev);
  }

  // --------------------------------------------------- answers as sent

  /** One answer as the datalogger frames it: any TID, DevCode and DevAddr,
      the query's function code, then the answer body. */
  datatype Answer = Answer(tid: u16, devCode: u16, devAddr: byte, code: byte, par: byte, data: string)

  predicate WellFormed(a: Answer) {
    IsByteString(a.data) && |a.data| + 2 < 0x1_0000
  }

  function AnswerHeader(a: Answer): Header {
    Header(a.tid, a.devCode, U16(|a.data| + 2), a.devAddr, InfoRequest.header.funcCode)
  }

  function AnswerFrame(a: Answer): seq<byte> {
    HeaderBytes(AnswerHeader(a)) + QueryRspBytes(a.code, a.par, a.data)
  }

  /** The frames of several answers, one after the other. */
  function Frames(frame: Answer -> seq<byte>, answers: seq<Answer>): seq<byte> {
    if answers == [] then [] else frame(answers[0]) + Frames(frame, answers[1..])
  }

  /** The answers applied in order, stopping at the first unknown
      parameter. */
  function Collect(answers: seq<Answer>, info: Info): Result<Info> {
    if answers == [] then Ok(info)
    else match ApplyPar(info, answers[0].par, answers[0].data)
      case None => Err(UnknownPar(answers[0].par, answers[0].data))
      case Some(next) => Collect(answers[1..], next)
  }

  /** One answer frame is read back as the answer it carries. */
  lemma ReadAnswerFrame(a: Answer, rest: seq<byte>, exhausted: Error)
    requires WellFormed(a)
    ensures ReadFrame(AnswerFrame(a) + rest, exhausted, InfoRequest)
         == (Ok(Response(AnswerHeader(a), QueryCollectorRsp(a.code, a.par, a.data))), rest)
  {
    var body := QueryRspBytes(a.code, a.par, a.data);
    DecodeQueryRspBytes(a.code, a.par, a.data);
    ReadFrameOfResponse(AnswerHeader(a), body, rest, exhausted, InfoRequest);
  }

  lemma AnswerOfFrame(a: Answer, rest: seq<byte>, exhausted: Error)
    requires WellFormed(a)
    ensures ReaderOf(exhausted)(AnswerFrame(a) + rest) == (Ok((a.par, a.data)), rest)
  {
    ReadAnswerFrame(a, rest, exhausted);
  }

  /** One successful read in ReadInfoFrom: the answer is applied and the
      rest of the bytes go to the next answer. */
  lemma ReadInfoFromAnswer(read: AnswerReader, data: seq<byte>, i: nat, info: Info, par: byte, d: string, more: seq<byte>)
    requires i < ParCount
    requires read(data) == (Ok((par, d)), more)
    ensures ApplyPar(info, par, d).None? ==> ReadInfoFrom(read, data, i, info) == (Err(UnknownPar(par, d)), more)
    ensures ApplyPar(info, par, d).Some? ==>
      ReadInfoFrom(read, data, i, info) == ReadInfoFrom(read, more, i + 1, ApplyPar(info, par, d).value)
  {
  }

  /** A frame followed by more bytes. */
  function Chunk(frame: Answer -> seq<byte>, a: Answer, more: seq<byte>): seq<byte> {
    frame(a) + more
  }

  /** A reader that takes every frame of a well-formed answer off the front
      of the bytes as the answer it carries. */
  ghost predicate ReadsFrames(read: AnswerReader, frame: Answer -> seq<byte>) {
    forall a: Answer, more: seq<byte> | WellFormed(a) :: read(Chunk(frame, a, more)) == (Ok((a.par, a.data)), more)
  }

  lemma ReaderOfReadsFrames(exhausted: Error)
    ensures ReadsFrames(ReaderOf(exhausted), AnswerFrame)
  {
    forall a: Answer, more: seq<byte> | WellFormed(a)
      ensures ReaderOf(exhausted)(Chunk(AnswerFrame, a, more)) == (Ok((a.par, a.data)), more)
    {
      AnswerOfFrame(a, more, exhausted);
    }
  }

  lemma {:induction false} ReadInfoOfFrames(read: AnswerReader, frame: Answer -> seq<byte>, answers: seq<Answer>,
                                            rest: seq<byte>, i: nat, info: Info)
    requires ReadsFrames(read, frame)
    requires forall k | 0 <= k < |answers| :: WellFormed(answers[k])
    requires i + |answers| == ParCount
    ensures ReadInfoFrom(read, Frames(frame, answers) + rest, i, info).0 == Collect(answers, info)
    ensures Collect(answers, info).Ok? ==> ReadInfoFrom(read, Frames(frame, answers) + rest, i, info).1 == rest
    decreases |answers|
  {
    if answers == [] {
      assert ReadInfoFrom(read, rest, i, info) == (Ok(info), rest);
    } else {
      var a := answers[0];
      var more := Frames(frame, answers[1..]) + rest;
      assert Frames(frame, answers) + rest == Chunk(frame, a, more);
      ReadInfoFromAnswer(read, Chunk(frame, a, more), i, info, a.par, a.data, more);
      var next := ApplyPar(info, a.par, a.data);
      if next.Some? {
        ReadInfoOfFrames(read, frame, answers[1..], rest, i + 1, next.value);
      }
    }
  }

  /** Answers that arrive whole, as many as are still expected, are read one
      frame each and applied in order; the bytes after them stay unread. */
  lemma ReadInfoOfAnswers(answers: seq<Answer>, rest: seq<byte>, exhausted: Error, i: nat, info: Info)
    requires forall k | 0 <= k < |answers| :: WellFormed(answers[k])
    requires i + |answers| == ParCount
    ensures ReadInfoFrom(ReaderOf(exhausted), Frames(AnswerFrame, answers) + rest, i, info).0 == Collect(answers, info)
    ensures Collect(answers, info).Ok? ==>
      ReadInfoFrom(ReaderOf(exhausted), Frames(AnswerFrame, answers) + rest, i, info).1 == rest
  {
    ReaderOfReadsFrames(exhausted);
    ReadInfoOfFrames(ReaderOf(exhausted), AnswerFrame, answers, rest, i, info);
  }

  /** The data of the last answer for `par`, or `otherwise` when no answer
      names it. */
  function LastData(answers: seq<Answer>, par: byte, otherwise: string): string {
    if answers == [] then otherwise
    else if answers[|answers| - 1].par == par then answers[|answers| - 1].data
    else LastData(answers[..|answers| - 1], par, otherwise)
  }

  predicate AllKnown(answers: seq<Answer>) {
    forall k | 0 <= k < |answers| :: Known(answers[k].par)
  }

  lemma {:induction false} LastDataCons(a: Answer, answers: seq<Answer>, par: byte, otherwise: string)
    ensures LastData([a] + answers, par, otherwise)
         == LastData(answers, par, if a.par == par then a.data else otherwise)
    decreases |answers|
  {
    var s := [a] + answers;
    if answers != [] {
      assert s[..|s| - 1] == [a] + answers[..|answers| - 1];
      LastDataCons(a, answers[..|answers| - 1], par, otherwise);
    }
  }

  /** The result the answers make: every field holds the data of the last
      answer naming it (a later duplicate overwrites an earlier one), fields
      no answer names keep their value; and the command fails exactly when
      some answer names an unknown parameter. */
  lemma {:induction false} CollectLastWins(answers: seq<Answer>, info: Info)
    ensures Collect(answers, info).Ok? <==> AllKnown(answers)
    ensures Collect(answers, info).Ok? ==>
      forall p | Known(p) ::
        Field(Collect(answers, info).value, p) == Some(LastData(answers, p, Field(info, p).value))
    decreases |answers|
  {
    if answers != [] {
      var a := answers[0];
      assert answers == [a] + answers[1..];
      var next := ApplyPar(info, a.par, a.data);
      if next.Some? {
        CollectLastWins(answers[1..], next.value);
        forall p | Known(p)
          ensures LastData(answers, p, Field(info, p).value)
               == LastData(answers[1..], p, Field(next.value, p).value)
        {
          LastDataCons(a, answers[1..], p, Field(info, p).value);
        }
        if AllKnown(answers[1..]) {
          assert AllKnown(answers) by {
            forall k | 0 <= k < |answers| ensures Known(answers[k].par) {
              if k > 0 { assert answers[k] == answers[1..][k - 1]; }
            }
          }
        }
      } else {
        assert !AllKnown(answers) by { assert !Known(answers[0].par); }
      }
    }
  }
}

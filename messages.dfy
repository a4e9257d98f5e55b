/** The three message bodies the core exchanges with the datalogger itself
    (internal/protocol/msg_heartbeat.go, msg_query_collector.go,
    msg_set_collector.go) and the request that pairs a header, a body and an
    optional per-request timeout (protocol.go). */
module Messages {
  import opened Base
  import opened Text
  import opened Buffers
  import opened Wire

  /** The UTC wall-clock fields the heartbeat sends (time.Now is an input). */
  datatype Timestamp = Timestamp(year: int, month: int, day: int, hour: int, minute: int, second: int)

  datatype Body =
    | HeartBeatReq(timestamp: Timestamp, interval: u16)
    | QueryCollectorReq(pars: seq<byte>)
    | SetCollectorReq(par: byte, value: string)

  datatype ResponseBody =
    | HeartBeatRsp(pn: string)
    | QueryCollectorRsp(code: byte, par: byte, data: string)
    | SetCollectorRsp(status: byte, par: byte)

  /** A request: header, body and timeout in milliseconds (0 = the link's
      default). */
  datatype Request = Request(header: Header, body: Body, timeout: nat)

  const HeartBeatTimeoutMs: nat := 500
  const HeartBeatInterval: u16 := 300

  function NewHeartBeatReq(now: Timestamp): Request {
    Request(Header(0xbeef, 1, 0, 0xff, 1), HeartBeatReq(now, HeartBeatInterval), HeartBeatTimeoutMs)
  }

  function NewQueryCollectorReq(pars: seq<byte>): Request {
    Request(Header(1, 1, 0, 0xff, 2), QueryCollectorReq(pars), 0)
  }

  function NewSetCollectorReq(par: byte, value: string): Request {
    Request(Header(1, 1, 0, 0xff, 3), SetCollectorReq(par, value), 0)
  }

  // ------------------------------------------------------------- heartbeat

  /** The eight heartbeat bytes: date and time, one byte each, the year
      counted from 2000 and reduced modulo 256, then the interval big-endian. */
  function HeartBeatBytes(t: Timestamp, interval: u16): seq<byte> {
    [Byte(t.year - 2000), Byte(t.month), Byte(t.day), Byte(t.hour), Byte(t.minute), Byte(t.second)]
      + U16Bytes(BigEndian, interval)
  }

  lemma HeartBeatLayout(t: Timestamp, interval: u16)
    ensures |HeartBeatBytes(t, interval)| == 8
    ensures HeartBeatBytes(t, interval)[0] == (t.year - 2000) % 256
    ensures HeartBeatBytes(t, interval)[1..6] == [t.month % 256, t.day % 256, t.hour % 256, t.minute % 256, t.second % 256]
    ensures HeartBeatBytes(t, interval)[6] as int * 256 + HeartBeatBytes(t, interval)[7] as int == interval
  {
  }

  /** HeartBeatReq.EncodeRequest: the bytes are appended to a buffer one at a
      time; it never fails. */
  method EncodeHeartBeat(t: Timestamp, interval: u16) returns (r: Result<seq<byte>>)
    ensures r == Ok(HeartBeatBytes(t, interval))
    ensures |r.value| == 8
  {
    var year := Byte(t.year - 2000);
    var month := Byte(t.month);
    var day := Byte(t.day);
    var hour := Byte(t.hour);
    var minute := Byte(t.minute);
    var sec := Byte(t.second);
    var buf := new Buffer.FromBytes([]);
    buf.WriteByte(year);
    buf.WriteByte(month);
    buf.WriteByte(day);
    buf.WriteByte(hour);
    buf.WriteByte(minute);
    buf.WriteByte(sec);
    buf.WriteU16(BigEndian, interval);
    assert buf.data == [year, month, day, hour, minute, sec] + U16Bytes(BigEndian, interval);
    r := Ok(buf.data);
  }

  /** The default interval goes out as 0x01 0x2C. */
  lemma HeartBeatIntervalBytes(t: Timestamp)
    ensures HeartBeatBytes(t, HeartBeatInterval)[6..] == [0x01, 0x2C]
  {
  }

  /** HeartBeatReq.DecodeResponse: the body as lower-case hex; never fails. */
  function DecodeHeartBeat(data: seq<byte>): (r: ResponseBody)
    ensures r.HeartBeatRsp? && |r.pn| == 2 * |data|
    ensures forall i | 0 <= i < |r.pn| :: IsHexDigit(r.pn[i])
    ensures Unhex(r.pn) == data
  {
    UnhexHex(data);
    HeartBeatRsp(Hex(data))
  }

  // ------------------------------------------------------- query collector

  /** QueryCollectorRsp as the device lays it out: code, par, then the data. */
  function QueryRspBytes(code: byte, par: byte, data: string): seq<byte> {
    [code, par] + StringToBytes(data)
  }

  /** QueryCollectorReq.DecodeResponse: the first two bytes are the code and
      the parameter, the rest is the data as a string. Go indexes data[0] and
      data[1] without a check, so two bytes are required. */
  function DecodeQueryCollector(data: seq<byte>): (r: ResponseBody)
    requires |data| >= 2
    ensures r.QueryCollectorRsp?
    ensures QueryRspBytes(r.code, r.par, r.data) == data
    ensures |r.data| == |data| - 2 && IsByteString(r.data)
  {
    var rsp := QueryCollectorRsp(data[0], data[1], BytesToString(data[2..]));
    BytesStringRoundTrip(data[2..], "");
    assert QueryRspBytes(rsp.code, rsp.par, rsp.data) == [data[0], data[1]] + data[2..];
    rsp
  }

  lemma DecodeQueryRspBytes(code: byte, par: byte, data: string)
    requires IsByteString(data)
    ensures DecodeQueryCollector(QueryRspBytes(code, par, data)) == QueryCollectorRsp(code, par, data)
  {
    var b := QueryRspBytes(code, par, data);
    assert b[2..] == StringToBytes(data);
    BytesStringRoundTrip([], data);
  }

  // --------------------------------------------------------- set collector

  /** SetCollectorReq.EncodeRequest: the parameter byte, then the value. */
  function EncodeSetCollector(par: byte, value: string): (r: seq<byte>)
    ensures |r| == 1 + |value|
    ensures r[0] == par && r[1..] == StringToBytes(value)
  {
    [par] + StringToBytes(value)
  }

  /** SetCollectorReq.DecodeResponse: status and parameter from the first two
      bytes; what follows is ignored. */
  function DecodeSetCollector(data: seq<byte>): (r: ResponseBody)
    requires |data| >= 2
    ensures r.SetCollectorRsp? && r.status == data[0] && r.par == data[1]
  {
    SetCollectorRsp(data[0], data[1])
  }

  /** Trailing bytes of a set-collector response make no difference. */
  lemma DecodeSetIgnoresTail(data: seq<byte>, tail: seq<byte>)
    requires |data| >= 2
    ensures DecodeSetCollector(data + tail) == DecodeSetCollector(data)
  {
  }

  // ------------------------------------------------------------- dispatch

  /** What Body.EncodeRequest produces for each body. */
  function BodyBytes(b: Body): seq<byte> {
    match b
    case HeartBeatReq(t, interval) => HeartBeatBytes(t, interval)
    case QueryCollectorReq(pars) => pars
    case SetCollectorReq(par, value) => EncodeSetCollector(par, value)
  }

  /** Body.EncodeRequest; none of these encoders fails. */
  method EncodeRequest(b: Body) returns (r: Result<seq<byte>>)
    ensures r == Ok(BodyBytes(b))
  {
    match b
    case HeartBeatReq(t, interval) => r := EncodeHeartBeat(t, interval);
    case QueryCollectorReq(pars) => r := Ok(pars);
    case SetCollectorReq(par, value) => r := Ok(EncodeSetCollector(par, value));
  }

  /** Body.DecodeResponse. A body too short for data[0] and data[1] makes Go
      panic; the model reports it as Panic. */
  function DecodeResponse(b: Body, data: seq<byte>): (r: Result<ResponseBody>)
    ensures r.Err? <==> !b.HeartBeatReq? && |data| < 2
    ensures r.Err? ==> r.error.Panic?
    ensures r.Ok? ==> ((r.value.HeartBeatRsp? <==> b.HeartBeatReq?)
                       && (r.value.QueryCollectorRsp? <==> b.QueryCollectorReq?))
  {
    match b
    case HeartBeatReq(_, _) => Ok(DecodeHeartBeat(data))
    case QueryCollectorReq(_) =>
      if |data| < 2 then Err(Panic("index out of range")) else Ok(DecodeQueryCollector(data))
    case SetCollectorReq(_, _) =>
      if |data| < 2 then Err(Panic("index out of range")) else Ok(DecodeSetCollector(data))
  }
}

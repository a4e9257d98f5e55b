/** The link to the datalogger (internal/protocol/device.go): one framed
    request out, one framed response back, over a connection the datalogger
    opens after a text handshake. */
module Link {
  import opened Base
  import opened Text
  import opened Buffers
  import opened Wire
  import opened Messages

  /** A raw register request forwarded to an inverter behind the datalogger
      (NewReadForwardReq / NewWriteForwardReq, whose encoding is not part of
      this model). */
  datatype RawRequest =
    | RawRead(devAddr: byte, funcNumber: byte, start: u16, length: u16)
    | RawWrite(devAddr: byte, funcNumber: byte, start: u16, payload: seq<byte>)

  datatype Response = Response(header: Header, body: ResponseBody)

  /** Device.defaultTimeout, in milliseconds. */
  const DefaultTimeoutMs: nat := 5000

  // ------------------------------------------------------------ frames

  /** The frame WriteRequest sends: the header with Size set to the body
      length (truncated to 16 bits), then the body. */
  function Frame(req: Request): seq<byte> {
    var body := BodyBytes(req.body);
    HeaderBytes(req.header.(size := U16(|body|))) + body
  }

  /** A receiver of the frame finds the request's header with Size = body
      length mod 2^16, and the body right behind it. */
  lemma FrameParses(req: Request, rest: seq<byte>, exhausted: Error)
    ensures |Frame(req)| == HeaderLen + |BodyBytes(req.body)|
    ensures ParseHeader(Frame(req) + rest, exhausted)
         == (Ok(req.header.(size := U16(|BodyBytes(req.body)|))), BodyBytes(req.body) + rest)
  {
    var body := BodyBytes(req.body);
    var h := req.header.(size := U16(|body|));
    HeaderLayout(h);
    assert Frame(req) + rest == HeaderBytes(h) + (body + rest);
    ParseHeaderBytes(h, body + rest, exhausted);
  }

  /** ReadResponse as a function of the bytes waiting on the socket: header,
      then exactly Size body bytes, then the body decoder; the function code
      is compared last. Also gives what is left unread. */
  function ReadFrame(data: seq<byte>, exhausted: Error, req: Request): (out: (Result<Response>, seq<byte>))
  {
    var (h, rest) := ParseHeader(data, exhausted);
    if h.Err? then (Err(h.error), rest) else
    var (raw, rest2) := ReadFullFrom(rest, h.value.size, exhausted);
    if raw.Err? then (Err(raw.error), rest2) else
    var body := DecodeResponse(req.body, raw.value);
    if body.Err? then (Err(body.error), rest2)
    else if h.value.funcCode != req.header.funcCode then
      (Err(FuncCodeMismatch(req.header.funcCode, h.value.funcCode)), rest2)
    else (Ok(Response(h.value, body.value)), rest2)
  }

  /** A successful read consumed one whole frame: eight header bytes that
      re-encode to the returned header, then exactly Size body bytes; the
      function code is the request's. */
  lemma ReadFrameConsumes(data: seq<byte>, exhausted: Error, req: Request)
    requires ReadFrame(data, exhausted, req).0.Ok?
    ensures var (r, rest) := ReadFrame(data, exhausted, req);
      && |data| == HeaderLen + r.value.header.size + |rest|
      && data[..HeaderLen] == HeaderBytes(r.value.header)
      && rest == data[HeaderLen + r.value.header.size..]
      && r.value.header.funcCode == req.header.funcCode
      && DecodeResponse(req.body, data[HeaderLen..HeaderLen + r.value.header.size]) == Ok(r.value.body)
  {
    if |data| < HeaderLen {
      ParseHeaderShort(data, exhausted);
    }
    HeaderBytesOfParse(data, exhausted);
    ParseHeaderFields(data, exhausted);
    var size := ParseHeader(data, exhausted).0.value.size;
    assert data[HeaderLen..][..size] == data[HeaderLen..HeaderLen + size];
    assert data[HeaderLen..][size..] == data[HeaderLen + size..];
  }

  /** The function-code check comes last: a mismatch is reported only when
      the header and all Size body bytes were read and the body decoded.
      (The connection's own error is a transport error, never a mismatch.) */
  lemma ReadFrameMismatchLast(data: seq<byte>, exhausted: Error, req: Request)
    requires !exhausted.FuncCodeMismatch?
    requires ReadFrame(data, exhausted, req).0.Err?
    requires ReadFrame(data, exhausted, req).0.error.FuncCodeMismatch?
    ensures |data| >= HeaderLen
    ensures var h := ParseHeader(data, exhausted).0.value;
      && HeaderLen + h.size <= |data|
      && DecodeResponse(req.body, data[HeaderLen..HeaderLen + h.size]).Ok?
      && h.funcCode != req.header.funcCode
  {
    if |data| < HeaderLen {
      ParseHeaderShort(data, exhausted);
      assert false;
    }
    ParseHeaderFields(data, exhausted);
    var size := ParseHeader(data, exhausted).0.value.size;
    assert data[HeaderLen..][..size] == data[HeaderLen..HeaderLen + size];
  }

  /** Reading back a well-formed response frame: the header as sent, the
      decoded body, and the bytes that followed; with a different function
      code, the mismatch error instead. */
  lemma ReadFrameOfResponse(h: Header, body: seq<byte>, rest: seq<byte>, exhausted: Error, req: Request)
    requires |body| == h.size
    requires DecodeResponse(req.body, body).Ok?
    ensures h.funcCode == req.header.funcCode ==>
      ReadFrame(HeaderBytes(h) + body + rest, exhausted, req) == (Ok(Response(h, DecodeResponse(req.body, body).value)), rest)
    ensures h.funcCode != req.header.funcCode ==>
      ReadFrame(HeaderBytes(h) + body + rest, exhausted, req) == (Err(FuncCodeMismatch(req.header.funcCode, h.funcCode)), rest)
  {
    assert HeaderBytes(h) + body + rest == HeaderBytes(h) + (body + rest);
    ParseHeaderBytes(h, body + rest, exhausted);
    assert (body + rest)[..|body|] == body;
    assert (body + rest)[|body|..] == rest;
  }

  // ------------------------------------------------------------- device

  class Device {
    /** The receive side of the connection. */
    const rx: Buffer
    /** Every socket write, in order. */
    var sent: seq<seq<byte>>
    /** What a socket write reports: None, or the error (a peer that closed
        the connection gives BrokenPipe). */
    const writeFailure: Option<Error>
    const defaultTimeout: nat
    /** The read deadline last set, in milliseconds after the read starts
        (0 before the first read). */
    var readTimeout: nat
    /** The raw register requests forwarded so far. */
    var forwarded: seq<RawRequest>
    /** The answer to the k-th forwarded request: the register bytes the
        inverter returns, or the error the exchange ends with. */
    const forwardAnswer: (nat, RawRequest) -> Result<seq<byte>>

    /** A connected device as Connect returns it. */
    constructor (incoming: seq<byte>, exhausted: Error, writeFailure: Option<Error>,
                 forwardAnswer: (nat, RawRequest) -> Result<seq<byte>>)
      ensures fresh(rx) && rx.data == incoming && rx.exhausted == exhausted
      ensures sent == [] && forwarded == [] && readTimeout == 0
      ensures this.writeFailure == writeFailure && this.forwardAnswer == forwardAnswer
      ensures defaultTimeout == DefaultTimeoutMs
    {
      rx := new Buffer(incoming, exhausted);
      sent := [];
      this.writeFailure := writeFailure;
      defaultTimeout := DefaultTimeoutMs;
      readTimeout := 0;
      forwarded := [];
      this.forwardAnswer := forwardAnswer;
    }

    /** WriteRequest: encode the body, set Size, serialise header and body
        into one buffer and send it with a single socket write. */
    method WriteRequest(req: Request) returns (err: Option<Error>)
      modifies this
      ensures sent == old(sent) + [Frame(req)]
      ensures err == writeFailure
      ensures forwarded == old(forwarded) && readTimeout == old(readTimeout)
    {
      var body := EncodeRequest(req.body);
      var header := req.header.(size := U16(|body.value|));
      var buffer := new Buffer.FromBytes([]);
      Wire.Write(header, buffer);
      buffer.Write(body.value);
      assert buffer.data == Frame(req);
      sent := sent + [buffer.data];
      err := writeFailure;
    }

    /** ReadResponse: set the read deadline (the request's own timeout when
        it has one, the device default otherwise), then read one frame. */
    method ReadResponse(req: Request) returns (r: Result<Response>)
      modifies this, rx
      ensures readTimeout == (if req.timeout != 0 then req.timeout else defaultTimeout)
      ensures (r, rx.data) == ReadFrame(old(rx.data), rx.exhausted, req)
      ensures sent == old(sent) && forwarded == old(forwarded)
    {
      readTimeout := if req.timeout != 0 then req.timeout else defaultTimeout;
      var header := ReadHeader(rx);
      if header.Err? {
        return Err(header.error);
      }
      var raw := rx.ReadFull(header.value.size);
      if raw.Err? {
        return Err(raw.error);
      }
      var body := DecodeResponse(req.body, raw.value);
      if body.Err? {
        return Err(body.error);
      }
      if header.value.funcCode != req.header.funcCode {
        return Err(FuncCodeMismatch(req.header.funcCode, header.value.funcCode));
      }
      r := Ok(Response(header.value, body.value));
    }

    /** A raw register exchange (RegReadRawCommand.Handle and its write
        counterpart): the request goes out and the answer's data or the
        error comes back. */
    method Forward(q: RawRequest) returns (r: Result<seq<byte>>)
      modifies this
      ensures forwarded == old(forwarded) + [q]
      ensures r == forwardAnswer(|old(forwarded)|, q)
      ensures sent == old(sent) && readTimeout == old(readTimeout)
    {
      r := forwardAnswer(|forwarded|, q);
      forwarded := forwarded + [q];
    }
  }

  // ---------------------------------------------------------- handshake

  const RequestPrefix: string := "set>server="
  const ReplyPrefix: string := "rsp>server="

  /** The text Connect sends over UDP: the local host (the connection's local
      address up to its first ':') and the port the datalogger should call
      back on. */
  function HandshakeRequest(localAddr: string, localPort: int): string {
    RequestPrefix + UpToFirst(localAddr, ':') + ":" + Itoa(localPort) + ";"
  }

  /** What the datalogger reads out of a handshake request: host and port. */
  function ParseHandshakeRequest(s: string): Option<(string, int)> {
    if !HasPrefix(s, RequestPrefix) || |s| == |RequestPrefix| || s[|s| - 1] != ';' then None
    else
      var inner := s[|RequestPrefix|..|s| - 1];
      var host := UpToFirst(inner, ':');
      if |host| == |inner| then None
      else
        match Atoi(inner[|host| + 1..])
        case Ok(port) => Some((host, port))
        case Err(_) => None
  }

  /** Slicing a text framed by a prefix and a final character gives back
      what is between them. */
  lemma FramedSlices(prefix: string, inner: string, last: char)
    ensures var s := prefix + inner + [last];
      && |s| == |prefix| + |inner| + 1 && s[..|prefix|] == prefix && s[|s| - 1] == last
      && s[|prefix|..|s| - 1] == inner
  {
    var s := prefix + inner + [last];
    assert s[|prefix|..|s| - 1] == inner;
  }

  /** HandshakeRequest grouped as prefix, host:port and the final ';'. */
  lemma HandshakeRequestParts(localAddr: string, localPort: int)
    ensures HandshakeRequest(localAddr, localPort) == RequestPrefix + (UpToFirst(localAddr, ':') + [':'] + Itoa(localPort)) + [';']
  {
  }

  /** The request is the prefix, then host:port, then ';'. */
  lemma HandshakeRequestFrame(localAddr: string, localPort: int)
    ensures var s := HandshakeRequest(localAddr, localPort);
      && HasPrefix(s, RequestPrefix) && |s| > |RequestPrefix| && s[|s| - 1] == ';'
      && s[|RequestPrefix|..|s| - 1] == UpToFirst(localAddr, ':') + [':'] + Itoa(localPort)
  {
    var inner := UpToFirst(localAddr, ':') + [':'] + Itoa(localPort);
    HandshakeRequestParts(localAddr, localPort);
    FramedSlices(RequestPrefix, inner, ';');
  }

  /** The request carries the local host and the port, and nothing else. */
  lemma HandshakeRequestParses(localAddr: string, localPort: int)
    requires MinInt64 <= localPort <= MaxInt64
    ensures ParseHandshakeRequest(HandshakeRequest(localAddr, localPort)) == Some((UpToFirst(localAddr, ':'), localPort))
  {
    var host := UpToFirst(localAddr, ':');
    var digits := Itoa(localPort);
    var inner := host + [':'] + digits;
    HandshakeRequestFrame(localAddr, localPort);
    UpToFirstConcat(host, ':', digits);
    assert inner[|host| + 1..] == digits;
    AtoiItoa(localPort);
  }

  /** bufio.Reader.ReadString(';') on the reply: the text up to and
      including the first ';'; without one, the error the stream ends with. */
  function ReadToSemicolon(data: string, exhausted: Error): (r: Result<string>)
    ensures r.Ok? <==> ';' in data
    ensures r.Ok? ==> 0 < |r.value| <= |data| && r.value == data[..|r.value|]
    ensures r.Ok? ==> r.value[|r.value| - 1] == ';' && ';' !in r.value[..|r.value| - 1]
    ensures r.Err? ==> r.error == exhausted
  {
    var head := UpToFirst(data, ';');
    if |head| == |data| then Err(exhausted)
    else
      assert data[..|head| + 1] == head + ";";
      Ok(head + ";")
  }

  /** The reply check of Connect: the line read up to ';' must start with
      "rsp>server="; otherwise the answer is rejected. */
  function CheckHandshakeReply(data: string, exhausted: Error): (r: Result<string>)
  {
    var line := ReadToSemicolon(data, exhausted);
    if line.Err? then Err(line.error)
    else if !HasPrefix(line.value, ReplyPrefix) then Err(UnexpectedAnswer(line.value))
    else Ok(line.value)
  }

  /** A reply is accepted exactly when the stream holds a ';' and starts with
      the reply prefix; a reply without ';' fails with the stream's error. */
  lemma CheckHandshakeReplyAccepts(data: string, exhausted: Error)
    ensures CheckHandshakeReply(data, exhausted).Ok? <==> ';' in data && HasPrefix(data, ReplyPrefix)
    ensures ';' !in data ==> CheckHandshakeReply(data, exhausted) == Err(exhausted)
    ensures ';' in data && !HasPrefix(data, ReplyPrefix) ==> CheckHandshakeReply(data, exhausted).error.UnexpectedAnswer?
  {
    var line := ReadToSemicolon(data, exhausted);
    var n := |ReplyPrefix|;
    if line.Ok? && HasPrefix(data, ReplyPrefix) {
      assert forall k | 0 <= k < n :: data[k] == ReplyPrefix[k] && ReplyPrefix[k] != ';';
      assert |line.value| > n;
      assert line.value[..n] == data[..n];
    }
  }
}

/** The 8-byte frame header (internal/protocol/protocol.go): TID, DevCode and
    the size field as big-endian uint16, then DevAddr and FuncCode. On the
    wire the size field counts the payload plus the two bytes of DevAddr and
    FuncCode, as the length field of a Modbus/TCP MBAP header counts the unit
    id and function code; in memory `size` is the payload length. */
module Wire {
  import opened Base
  import opened Buffers

  datatype Header = Header(tid: u16, devCode: u16, size: u16, devAddr: byte, funcCode: byte)

  const HeaderLen: nat := 8

  /** The wire value of the size field for a payload of `size` bytes. */
  function WireSize(size: u16): u16 { U16(size + 2) }

  /** The bytes Header.Write emits, in the order it emits them. */
  function HeaderBytes(h: Header): seq<byte>
  {
    U16Bytes(BigEndian, h.tid) + U16Bytes(BigEndian, h.devCode)
      + U16Bytes(BigEndian, WireSize(h.size)) + [h.devAddr, h.funcCode]
  }

  /** The layout of the header: every field at its offset, big-endian. */
  lemma HeaderLayout(h: Header)
    ensures |HeaderBytes(h)| == HeaderLen
    ensures WordOf(BigEndian, HeaderBytes(h)[0], HeaderBytes(h)[1]) == h.tid
    ensures WordOf(BigEndian, HeaderBytes(h)[2], HeaderBytes(h)[3]) == h.devCode
    ensures WordOf(BigEndian, HeaderBytes(h)[4], HeaderBytes(h)[5]) == (h.size + 2) % 0x1_0000
    ensures HeaderBytes(h)[6] == h.devAddr && HeaderBytes(h)[7] == h.funcCode
  {
  }

  /** Header.Write into a bytes.Buffer, one field at a time. Writes to a
      bytes.Buffer do not fail, so the error result of the Go function is
      always nil and is left out. */
  method Write(h: Header, w: Buffer)
    modifies w
    ensures w.data == old(w.data) + HeaderBytes(h)
  {
    var bodyLen := U16(h.size + 2);
    w.WriteU16(BigEndian, h.tid);
    w.WriteU16(BigEndian, h.devCode);
    w.WriteU16(BigEndian, bodyLen);
    w.WriteByte(h.devAddr);
    w.WriteByte(h.funcCode);
  }

  /** ReadHeader as a function of the bytes a reader holds: the five fields in
      order, each by its own binary.Read, the first failure returned; the size
      field is reduced by two modulo 2^16. Also gives what is left unread. */
  function ParseHeader(data: seq<byte>, exhausted: Error): (out: (Result<Header>, seq<byte>))
  {
    var (tid, r1) := ReadU16From(data, BigEndian, exhausted);
    if tid.Err? then (Err(tid.error), r1) else
    var (dev, r2) := ReadU16From(r1, BigEndian, exhausted);
    if dev.Err? then (Err(dev.error), r2) else
    var (size, r3) := ReadU16From(r2, BigEndian, exhausted);
    if size.Err? then (Err(size.error), r3) else
    var (addr, r4) := ReadByteFrom(r3, exhausted);
    if addr.Err? then (Err(addr.error), r4) else
    var (fc, r5) := ReadByteFrom(r4, exhausted);
    if fc.Err? then (Err(fc.error), r5) else
    (Ok(Header(tid.value, dev.value, U16(size.value as int - 2), addr.value, fc.value)), r5)
  }

  /** ReadHeader reads exactly eight bytes when they are there, and decodes
      each field from its offset; the size is the wire value minus two,
      wrapping below two. */
  lemma ParseHeaderFields(data: seq<byte>, exhausted: Error)
    requires |data| >= HeaderLen
    ensures ParseHeader(data, exhausted).0.Ok?
    ensures ParseHeader(data, exhausted).1 == data[HeaderLen..]
    ensures ParseHeader(data, exhausted).0.value
         == Header(WordOf(BigEndian, data[0], data[1]), WordOf(BigEndian, data[2], data[3]),
                   (WordOf(BigEndian, data[4], data[5]) - 2) % 0x1_0000, data[6], data[7])
  {
    assert data[2..][2..][2..][1..][1..] == data[HeaderLen..];
  }

  /** Fewer than eight bytes: ReadHeader fails and consumes everything. */
  lemma ParseHeaderShort(data: seq<byte>, exhausted: Error)
    requires |data| < HeaderLen
    ensures ParseHeader(data, exhausted).0.Err?
    ensures ParseHeader(data, exhausted).0.error in {exhausted, UnexpectedEof}
    ensures ParseHeader(data, exhausted).1 == []
  {
    if |data| >= 2 {
      var r1 := data[2..];
      if |r1| >= 2 {
        var r2 := r1[2..];
        if |r2| >= 2 {
          var r3 := r2[2..];
          assert |r3| < 2;
          if |r3| == 1 {
            assert ReadByteFrom(r3, exhausted).1 == [];
          }
        }
      }
    }
  }

  /** Round trip: reading back what Write produced gives the same header,
      size included, and leaves whatever followed it. */
  lemma ParseHeaderBytes(h: Header, rest: seq<byte>, exhausted: Error)
    ensures ParseHeader(HeaderBytes(h) + rest, exhausted) == (Ok(h), rest)
  {
    var data := HeaderBytes(h) + rest;
    HeaderLayout(h);
    ParseHeaderFields(data, exhausted);
    assert data[HeaderLen..] == rest;
  }

  /** Nothing is lost in parsing: the eight bytes ReadHeader consumed are
      exactly what Write emits for the header it returns. */
  lemma HeaderBytesOfParse(data: seq<byte>, exhausted: Error)
    requires |data| >= HeaderLen
    ensures ParseHeader(data, exhausted).0.Ok?
    ensures HeaderBytes(ParseHeader(data, exhausted).0.value) == data[..HeaderLen]
  {
    ParseHeaderFields(data, exhausted);
    var h := ParseHeader(data, exhausted).0.value;
    var w := WordOf(BigEndian, data[4], data[5]);
    assert WireSize(h.size) == w by {
      if w >= 2 {
        assert h.size as int == w as int - 2;
      } else {
        assert h.size as int == w as int - 2 + 0x1_0000;
      }
    }
  }

  /** ReadHeader on a reader, field by field, with Size -= 2 at the end. */
  method ReadHeader(r: Buffer) returns (h: Result<Header>)
    modifies r
    ensures (h, r.data) == ParseHeader(old(r.data), r.exhausted)
  {
    var tid := r.ReadU16(BigEndian);
    if tid.Err? { return Err(tid.error); }
    var devCode := r.ReadU16(BigEndian);
    if devCode.Err? { return Err(devCode.error); }
    var size := r.ReadU16(BigEndian);
    if size.Err? { return Err(size.error); }
    var devAddr := r.ReadByte();
    if devAddr.Err? { return Err(devAddr.error); }
    var funcCode := r.ReadByte();
    if funcCode.Err? { return Err(funcCode.error); }
    h := Ok(Header(tid.value, devCode.value, U16(size.value as int - 2), devAddr.value, funcCode.value));
  }
}

/** Register values (internal/commands/reg_read_descr.go): the raw value
    taken from the bytes an inverter returns, its interpretation (enumeration
    name, integer or scaled value), and the command that reads one register
    named by the descriptor. */
module RegReadDescr {
  import opened Base
  import opened Text
  import opened Buffers
  import opened Descriptors
  import opened Link

  /** RegType with the one field of RegValue that goes with it. */
  datatype Value = IntVal(i: int) | EnumVal(name: Option<string>) | FloatVal(f: real)

  datatype RegValue = RegValue(raw: u32, value: Value, units: string)

  function OrderOf(reg: Register): (o: ByteOrder)
    ensures o == LittleEndian <==> reg.byteSort == ByteSortLittleEndian
  {
    if reg.byteSort == ByteSortLittleEndian then LittleEndian else BigEndian
  }

  /** The register's length when set, 1 otherwise. */
  function LengthOf(reg: Register): int {
    reg.length.GetOr(1)
  }

  // -------------------------------------------------------------- raw value

  /** The raw value NewRegValueFromBytes takes from the bytes, and the bytes
      it leaves. The errors of binary.Read are ignored: a failed read leaves
      the Go variable as it was (0, or for the second word of a 32-bit
      register, the first word). The host is little-endian. */
  function RawFrom(data: seq<byte>, reg: Register): (out: (u32, seq<byte>))
  {
    var order := OrderOf(reg);
    if reg.length.None? || reg.length.value == 1 then
      var w := ReadU16From(data, order, Eof);
      (if w.0.Ok? then w.0.value else 0, w.1)
    else if reg.length.value == 2 then
      var w0 := ReadU16From(data, order, Eof);
      var word0: u16 := if w0.0.Ok? then w0.0.value else 0;
      var w1 := ReadU16From(w0.1, order, Eof);
      var word1: u16 := if w1.0.Ok? then w1.0.value else word0;
      (word0 + word1 * 0x1_0000, w1.1)
    else
      (0, data)
  }

  /** A one-word register takes two bytes in its byte order. */
  lemma RawFromOneWord(data: seq<byte>, reg: Register)
    requires LengthOf(reg) == 1 && |data| >= 2
    ensures RawFrom(data, reg) == (WordOf(OrderOf(reg), data[0], data[1]), data[2..])
  {
  }

  /** A two-word register takes four bytes: the first word is the low half,
      the second the high half, each word in the register's byte order. */
  lemma RawFromTwoWords(data: seq<byte>, reg: Register)
    requires reg.length == Some(2) && |data| >= 4
    ensures RawFrom(data, reg).0
         == WordOf(OrderOf(reg), data[0], data[1]) + WordOf(OrderOf(reg), data[2], data[3]) * 0x1_0000
    ensures RawFrom(data, reg).1 == data[4..]
  {
    assert data[2..][2..] == data[4..];
  }

  /** Any other length reads nothing and gives 0. */
  lemma RawFromOtherLength(data: seq<byte>, reg: Register)
    requires reg.length.Some? && reg.length.value != 1 && reg.length.value != 2
    ensures RawFrom(data, reg) == (0, data)
  {
  }

  /** Short input: a one-word register gets 0; a two-word register whose
      second word is cut short repeats the first word in the high half. */
  lemma RawFromShort(data: seq<byte>, reg: Register)
    ensures LengthOf(reg) == 1 && |data| < 2 ==> RawFrom(data, reg) == (0, [])
    ensures reg.length == Some(2) && |data| < 2 ==> RawFrom(data, reg) == (0, [])
    ensures reg.length == Some(2) && 2 <= |data| < 4 ==>
      var w := WordOf(OrderOf(reg), data[0], data[1]);
      RawFrom(data, reg) == (w + w * 0x1_0000, [])
  {
  }

  /** The words of a 32-bit value as the register stores them. */
  function TwoWordBytes(order: ByteOrder, v: u32): seq<byte> {
    U16Bytes(order, v % 0x1_0000) + U16Bytes(order, v / 0x1_0000)
  }

  /** Round trips: a word written in the register's order reads back; so
      does a 32-bit value written low word first. */
  lemma RawFromRoundTrip(reg: Register, w: u16, v: u32, rest: seq<byte>)
    ensures LengthOf(reg) == 1 ==> RawFrom(U16Bytes(OrderOf(reg), w) + rest, reg) == (w, rest)
    ensures reg.length == Some(2) ==> RawFrom(TwoWordBytes(OrderOf(reg), v) + rest, reg) == (v, rest)
  {
    var o := OrderOf(reg);
    if LengthOf(reg) == 1 {
      var d := U16Bytes(o, w) + rest;
      RawFromOneWord(d, reg);
      WordOfU16Bytes(o, w);
      assert d[2..] == rest;
    }
    if reg.length == Some(2) {
      var d := TwoWordBytes(o, v) + rest;
      RawFromTwoWords(d, reg);
      WordOfU16Bytes(o, v % 0x1_0000);
      WordOfU16Bytes(o, v / 0x1_0000);
      assert d[4..] == rest;
    }
  }

  /** The regression vectors of reg_read_descr_test.go. */
  lemma RawFromVectors(reg: Register)
    requires reg.length == Some(2)
    ensures reg.byteSort == ByteSortBigEndian ==> RawFrom([0xde, 0xad, 0xbe, 0xef], reg).0 == 0xbeefdead
    ensures reg.byteSort == ByteSortLittleEndian ==> RawFrom([0xde, 0xad, 0xbe, 0xef], reg).0 == 0xefbeadde
  {
    RawFromTwoWords([0xde, 0xad, 0xbe, 0xef], reg);
  }

  // ----------------------------------------------------------- the value

  /** |scale - 1| < 0.0001: the register is read as a plain integer. */
  predicate ScaleIsOne(scale: real) {
    -0.0001 < scale - 1.0 < 0.0001
  }

  /** The enumeration name of a raw value. An external table is looked up in
      OtherCodes, an inline one in the register; a missing table or a missing
      entry gives the decimal text of the raw value. */
  function EnumName(raw: u32, e: Enumeration, otherCodes: map<string, ExternEnum>): (name: Option<string>)
    ensures e.external.Some? && e.external.value in otherCodes && raw in otherCodes[e.external.value].variants
      ==> name == Some(otherCodes[e.external.value].variants[raw])
    ensures e.external.None? && raw in e.variants ==> name == e.variants[raw]
    ensures (e.external.Some? && (e.external.value !in otherCodes || raw !in otherCodes[e.external.value].variants))
         || (e.external.None? && raw !in e.variants)
      ==> name == Some(Itoa(raw))
  {
    match e.external
    case Some(table) =>
      if table !in otherCodes || raw !in otherCodes[table].variants then Some(Itoa(raw))
      else Some(otherCodes[table].variants[raw])
    case None =>
      if raw !in e.variants then Some(Itoa(raw)) else e.variants[raw]
  }

  /** The fallback name is the raw value in decimal: it reads back as the
      raw value. */
  lemma EnumFallbackReadsBack(raw: u32)
    ensures Atoi(Itoa(raw)) == Ok(raw)
  {
    AtoiItoa(raw);
  }

  /** Tag selection: an enumeration wins; then a scale of one gives the raw
      value as an integer; any other scale gives raw times scale. */
  function Interpret(raw: u32, reg: Register, desc: Descriptor): (v: Value)
    ensures v.EnumVal? <==> reg.enumeration.Some?
    ensures v.IntVal? <==> reg.enumeration.None? && ScaleIsOne(reg.scale)
    ensures v.IntVal? ==> v.i == raw
    ensures v.FloatVal? ==> v.f == raw as real * reg.scale
    ensures v.EnumVal? ==> v.name == EnumName(raw, reg.enumeration.value, desc.otherCodes)
  {
    match reg.enumeration
    case Some(e) => EnumVal(EnumName(raw, e, desc.otherCodes))
    case None =>
      if ScaleIsOne(reg.scale) then IntVal(raw) else FloatVal(raw as real * reg.scale)
  }

  /** NewRegValueFromBytes as a function of the buffer's bytes: the value
      and what is left in the buffer. */
  function DecodeFrom(data: seq<byte>, reg: Register, desc: Descriptor): (out: (RegValue, seq<byte>))
  {
    var r := RawFrom(data, reg);
    (RegValue(r.0, Interpret(r.0, reg, desc), reg.units), r.1)
  }

  /** Decoding never grows the buffer: it consumes at most four bytes from
      the front, and nothing only when the buffer is empty or the register's
      length is not 1 or 2. */
  lemma RawFromConsumes(data: seq<byte>, reg: Register)
    ensures var rest := RawFrom(data, reg).1;
      && |rest| <= |data| && rest == data[|data| - |rest|..]
      && |data| - |rest| <= 4
      && (rest == data <==> data == [] || (LengthOf(reg) != 1 && LengthOf(reg) != 2))
  {
    var rest := RawFrom(data, reg).1;
    if LengthOf(reg) == 1 {
      if |data| >= 2 { RawFromOneWord(data, reg); } else { RawFromShort(data, reg); }
    } else if LengthOf(reg) == 2 {
      if |data| >= 4 {
        RawFromTwoWords(data, reg);
      } else {
        RawFromShort(data, reg);
      }
    }
  }

  /** NewRegValueFromBytes on a bytes.Buffer. */
  method NewRegValueFromBytes(buf: Buffer, reg: Register, desc: Descriptor) returns (v: RegValue)
    modifies buf
    ensures (v, buf.data) == DecodeFrom(old(buf.data), reg, desc)
  {
    var order := OrderOf(reg);
    var raw: u32 := 0;
    if reg.length.None? || reg.length.value == 1 {
      var val: u16 := 0;
      var r := buf.ReadU16(order);
      if r.Ok? {
        val := r.value;
      }
      raw := val;
    } else if reg.length.value == 2 {
      var word: u16 := 0;
      var r := buf.ReadU16(order);
      if r.Ok? {
        word := r.value;
      }
      var val: u32 := word;
      r := buf.ReadU16(order);
      if r.Ok? {
        word := r.value;
      }
      // val |= word << 16, with val below 2^16
      val := val + word * 0x1_0000;
      raw := val;
    }
    v := RegValue(raw, Interpret(raw, reg, desc), reg.units);
  }

  // --------------------------------------------------------------- command

  /** The checks of RegReadDescrCommand.Handle, in order, and the raw read
      they lead to: device address DevAddrs[0] (an empty list makes Go
      panic), the segment's function number, the register's address and
      length (1 when unset, truncated to 16 bits). */
  function ReadDescrRequest(desc: Option<Descriptor>, seg: Option<Segment>, reg: Option<Register>): (r: Result<RawRequest>)
    ensures desc.None? ==> r == Err(DescriptorNotLoaded)
    ensures desc.Some? && (reg.None? || seg.None?) ==> r == Err(InvalidArguments)
    ensures desc.Some? && reg.Some? && seg.Some? && reg.value.valueType != 1
      ==> r == Err(UnsupportedValueType(reg.value.valueType))
    ensures r.Ok? <==> desc.Some? && seg.Some? && reg.Some? && reg.value.valueType == 1
                       && desc.value.configuration.devAddrs != []
    ensures r.Ok? ==> r.value == RawRead(desc.value.configuration.devAddrs[0], seg.value.funNumber,
                                         reg.value.address, U16(LengthOf(reg.value)))
  {
    if desc.None? then Err(DescriptorNotLoaded)
    else if reg.None? || seg.None? then Err(InvalidArguments)
    else if reg.value.valueType != 1 then Err(UnsupportedValueType(reg.value.valueType))
    else if desc.value.configuration.devAddrs == [] then Err(Panic("index out of range"))
    else Ok(RawRead(desc.value.configuration.devAddrs[0], seg.value.funNumber,
                    reg.value.address, U16(LengthOf(reg.value))))
  }

  /** RegReadDescrCommand.Handle: validate, read the register through the
      datalogger, decode its bytes. A failed raw read is returned as is. */
  method ReadDescr(dev: Device, desc: Option<Descriptor>, seg: Option<Segment>, reg: Option<Register>)
    returns (r: Result<RegValue>)
    modifies dev
    ensures var q := ReadDescrRequest(desc, seg, reg);
      && (q.Err? ==> r == Err(q.error) && dev.forwarded == old(dev.forwarded))
      && (q.Ok? ==> dev.forwarded == old(dev.forwarded) + [q.value])
    ensures var q := ReadDescrRequest(desc, seg, reg);
      q.Ok? ==> var answer := dev.forwardAnswer(|old(dev.forwarded)|, q.value);
        && (answer.Err? ==> r == Err(answer.error))
        && (answer.Ok? ==> r == Ok(DecodeFrom(answer.value, reg.value, desc.value).0))
    ensures dev.sent == old(dev.sent)
  {
    var q := ReadDescrRequest(desc, seg, reg);
    if q.Err? {
      return Err(q.error);
    }
    var data := dev.Forward(q.value);
    if data.Err? {
      return Err(data.error);
    }
    var buf := new Buffer.FromBytes(data.value);
    var v := NewRegValueFromBytes(buf, reg.value, desc.value);
    r := Ok(v);
  }
}

/** Writing one register named by the descriptor
    (internal/commands/reg_write_descr.go): the checks, the raw value derived
    from the requested value and the register's scale, and its two-byte
    payload. */
module RegWriteDescr {
  import opened Base
  import opened Descriptors
  import opened Link
  import opened RegReadDescr

  /** Go's int(x) for a float: truncation toward zero. */
  function Trunc(x: real): (n: int)
    ensures x >= 0.0 ==> n as real <= x < n as real + 1.0
    ensures x < 0.0 ==> n as real - 1.0 < x <= n as real
  {
    if x >= 0.0 then x.Floor else -((-x).Floor)
  }

  /** The test the write applies to the scale, as written: (scale - 1) <
      0.0001, without the absolute value the read applies. */
  predicate WriteScaleIsOne(scale: real) {
    scale - 1.0 < 0.0001
  }

  /** rawValue as the code computes it: the value itself for an enumeration
      or when the write test passes, the value divided by the scale
      otherwise; both truncated. */
  function RawValue(reg: Register, value: real): (n: int)
    ensures (reg.enumeration.Some? || WriteScaleIsOne(reg.scale)) ==> n == Trunc(value)
    ensures !(reg.enumeration.Some? || WriteScaleIsOne(reg.scale)) ==> reg.scale > 0.0 && n == Trunc(value / reg.scale)
  {
    if WriteScaleIsOne(reg.scale) || reg.enumeration.Some? then Trunc(value)
    else Trunc(value / reg.scale)
  }

  /** rawValue with the test the read uses, |scale - 1| < 0.0001. A zero
      scale stays on the undivided path, where the test as written also
      puts it. */
  function RawValueCorrected(reg: Register, value: real): (n: int)
    ensures (reg.enumeration.Some? || ScaleIsOne(reg.scale) || reg.scale == 0.0) ==> n == Trunc(value)
    ensures !(reg.enumeration.Some? || ScaleIsOne(reg.scale) || reg.scale == 0.0) ==> n == Trunc(value / reg.scale)
  {
    if ScaleIsOne(reg.scale) || reg.enumeration.Some? || reg.scale == 0.0 then Trunc(value)
    else Trunc(value / reg.scale)
  }

  /** binary.Write(buf, order, uint16(rawValue)): two bytes in the
      register's byte order. */
  function Payload(reg: Register, raw: int): (p: seq<byte>)
    ensures |p| == 2
  {
    U16Bytes(OrderOf(reg), U16(raw))
  }

  /** The checks of RegWriteDescrCommand.Handle, in order, and the raw write
      they lead to: DevAddrs[0] (an empty list makes Go panic, before the
      length check), the configuration's WriteOneFunCode, the register's
      address, and the payload of the raw value as the code computes it.
      Only one-word registers can be written. */
  function WriteDescrRequest(desc: Option<Descriptor>, seg: Option<Segment>, reg: Option<Register>, value: real)
    : (r: Result<RawRequest>)
    ensures desc.None? ==> r == Err(DescriptorNotLoaded)
    ensures desc.Some? && (reg.None? || seg.None?) ==> r == Err(InvalidArguments)
    ensures desc.Some? && reg.Some? && seg.Some? && reg.value.valueType != 1
      ==> r == Err(UnsupportedValueType(reg.value.valueType))
    ensures (desc.Some? && reg.Some? && seg.Some? && reg.value.valueType == 1
             && desc.value.configuration.devAddrs != [] && LengthOf(reg.value) != 1)
      ==> r == Err(UnsupportedLength(LengthOf(reg.value)))
    ensures r.Ok? <==> desc.Some? && seg.Some? && reg.Some? && reg.value.valueType == 1
                       && desc.value.configuration.devAddrs != [] && LengthOf(reg.value) == 1
    ensures r.Ok? ==> r.value == RawWrite(desc.value.configuration.devAddrs[0], desc.value.configuration.writeOneFunCode,
                                          reg.value.address, Payload(reg.value, RawValue(reg.value, value)))
  {
    if desc.None? then Err(DescriptorNotLoaded)
    else if reg.None? || seg.None? then Err(InvalidArguments)
    else if reg.value.valueType != 1 then Err(UnsupportedValueType(reg.value.valueType))
    else if desc.value.configuration.devAddrs == [] then Err(Panic("index out of range"))
    else if LengthOf(reg.value) != 1 then Err(UnsupportedLength(LengthOf(reg.value)))
    else Ok(RawWrite(desc.value.configuration.devAddrs[0], desc.value.configuration.writeOneFunCode,
                     reg.value.address, Payload(reg.value, RawValue(reg.value, value))))
  }

  /** RegWriteDescrCommand.Handle: validate, send the raw write, return the
      data of its answer. Nothing is sent when a check fails. */
  method WriteDescr(dev: Device, desc: Option<Descriptor>, seg: Option<Segment>, reg: Option<Register>, value: real)
    returns (r: Result<seq<byte>>)
    modifies dev
    ensures var q := WriteDescrRequest(desc, seg, reg, value);
      && (q.Err? ==> r == Err(q.error) && dev.forwarded == old(dev.forwarded))
      && (q.Ok? ==> dev.forwarded == old(dev.forwarded) + [q.value]
                    && r == dev.forwardAnswer(|old(dev.forwarded)|, q.value))
    ensures dev.sent == old(dev.sent)
  {
    var q := WriteDescrRequest(desc, seg, reg, value);
    if q.Err? {
      return Err(q.error);
    }
    r := dev.Forward(q.value);
  }

  // ------------------------------------------------------- round trips

  /** What reading back a written payload gives for a one-word register. */
  function ReadBack(reg: Register, desc: Descriptor, raw: int): Value {
    DecodeFrom(Payload(reg, raw), reg, desc).0.value
  }

  lemma ReadBackRaw(reg: Register, desc: Descriptor, raw: int)
    requires LengthOf(reg) == 1
    ensures DecodeFrom(Payload(reg, raw), reg, desc) == (RegValue(U16(raw), Interpret(U16(raw), reg, desc), reg.units), [])
  {
    RawFromRoundTrip(reg, U16(raw), 0, []);
    assert Payload(reg, raw) + [] == Payload(reg, raw);
  }

  /** With a scale of one, a whole value from 0 to 65535 written to a plain
      register reads back unchanged (both tests pass there). */
  lemma WriteReadIntRoundTrip(reg: Register, desc: Descriptor, k: int)
    requires LengthOf(reg) == 1 && reg.enumeration.None? && ScaleIsOne(reg.scale)
    requires 0 <= k < 0x1_0000
    ensures ReadBack(reg, desc, RawValue(reg, k as real)) == IntVal(k)
  {
    assert RawValue(reg, k as real) == k;
    ReadBackRaw(reg, desc, k);
  }

  /** Dividing a multiple of a non-zero scale by that scale gives the
      multiplier back (exact real arithmetic). */
  lemma DivideMultiple(a: real, s: real)
    requires s != 0.0
    ensures (a * s) / s == a
  {
    var q := (a * s) / s;
    assert q * s == a * s;
    assert (q - a) * s == 0.0;
  }

  /** With the corrected test, the raw value of a multiple k * scale of a
      scale away from one is k. */
  lemma RawValueOfMultiple(reg: Register, k: int)
    requires reg.enumeration.None? && reg.scale != 0.0 && !ScaleIsOne(reg.scale)
    ensures RawValueCorrected(reg, k as real * reg.scale) == k
  {
    DivideMultiple(k as real, reg.scale);
    assert Trunc(k as real) == k;
  }

  /** With the corrected test, any multiple k * scale (0 <= k < 65536) of a
      scale away from one reads back unchanged, whatever the scale's side of
      one. */
  lemma WriteReadScaledRoundTrip(reg: Register, desc: Descriptor, k: int)
    requires LengthOf(reg) == 1 && reg.enumeration.None? && reg.scale != 0.0 && !ScaleIsOne(reg.scale)
    requires 0 <= k < 0x1_0000
    ensures ReadBack(reg, desc, RawValueCorrected(reg, k as real * reg.scale)) == FloatVal(k as real * reg.scale)
  {
    RawValueOfMultiple(reg, k);
    assert U16(k) == k;
    ReadBackRaw(reg, desc, k);
    var v := Interpret(k, reg, desc);
    assert v.FloatVal? && v.f == k as real * reg.scale;
  }

  /** Away from the scales below 0.9999, the test as written and the
      corrected test agree: the command sends what the corrected rule
      computes. */
  lemma RawValueAgrees(reg: Register, value: real)
    requires reg.enumeration.Some? || reg.scale > 0.9999
    ensures RawValue(reg, value) == RawValueCorrected(reg, value)
  {
  }

  /** The command itself, on a scale of at least 1.0001: a multiple k * scale
      (0 <= k < 65536) is sent as k and reads back unchanged. */
  lemma WriteCommandScaledRoundTrip(desc: Descriptor, seg: Segment, reg: Register, k: int)
    requires reg.valueType == 1 && LengthOf(reg) == 1 && reg.enumeration.None? && reg.scale >= 1.0001
    requires desc.configuration.devAddrs != []
    requires 0 <= k < 0x1_0000
    ensures var q := WriteDescrRequest(Some(desc), Some(seg), Some(reg), k as real * reg.scale);
      && q.Ok? && q.value.payload == Payload(reg, k)
      && ReadBack(reg, desc, RawValue(reg, k as real * reg.scale)) == FloatVal(k as real * reg.scale)
  {
    RawValueAgrees(reg, k as real * reg.scale);
    RawValueOfMultiple(reg, k);
    WriteReadScaledRoundTrip(reg, desc, k);
  }

  /** As written, a scale below 0.9999 passes the write test: the value is
      sent unscaled, and what reads back is the value times the scale. With
      scale 0.1, writing 5.0 sends 5 and reads back 0.5. */
  lemma WriteScaleBelowOne(reg: Register, desc: Descriptor)
    requires LengthOf(reg) == 1 && reg.enumeration.None? && reg.scale == 0.1
    ensures RawValue(reg, 5.0) == 5
    ensures ReadBack(reg, desc, RawValue(reg, 5.0)) == FloatVal(0.5)
    ensures RawValueCorrected(reg, 5.0) == 50
    ensures ReadBack(reg, desc, RawValueCorrected(reg, 5.0)) == FloatVal(5.0)
  {
    ReadBackRaw(reg, desc, 5);
    ReadBackRaw(reg, desc, 50);
  }

  /** The command as written, on a plain one-word register of scale 0.1:
      asked to write 5.0, it sends the raw value 5, and the register then
      reads back 0.5. */
  lemma WriteCommandScaleBelowOne(desc: Descriptor, seg: Segment, reg: Register)
    requires reg.valueType == 1 && LengthOf(reg) == 1 && reg.enumeration.None? && reg.scale == 0.1
    requires desc.configuration.devAddrs != []
    ensures var q := WriteDescrRequest(Some(desc), Some(seg), Some(reg), 5.0);
      && q.Ok? && q.value.payload == Payload(reg, 5)
      && ReadBack(reg, desc, 5) == FloatVal(0.5)
  {
    WriteScaleBelowOne(reg, desc);
  }
}

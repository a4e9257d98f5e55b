/** A byte stream: the model of Go's bytes.Buffer (written at the back, read
    from the front) and of the receive side of a socket. Reads follow
    io.ReadFull and binary.Read: a read that finds fewer bytes than it needs
    consumes what is there and fails. */
module Buffers {
  import opened Base

  /** io.ReadFull(r, make([]byte, n)) on a reader holding `data` that reports
      `exhausted` once empty: the bytes read and what is left. A partial read
      ended by io.EOF is io.ErrUnexpectedEOF; ended by any other error, it is
      that error. */
  function ReadFullFrom(data: seq<byte>, n: nat, exhausted: Error): (out: (Result<seq<byte>>, seq<byte>))
    ensures out.0.Ok? <==> n <= |data|
    ensures out.0.Ok? ==> out.0.value == data[..n] && out.1 == data[n..]
    ensures out.0.Err? ==> out.1 == []
    ensures out.0.Err? && exhausted == Eof ==> out.0.error == (if data == [] then Eof else UnexpectedEof)
    ensures out.0.Err? && exhausted != Eof ==> out.0.error == exhausted
  {
    if n <= |data| then (Ok(data[..n]), data[n..])
    else if data != [] && exhausted == Eof then (Err(UnexpectedEof), [])
    else (Err(exhausted), [])
  }

  /** binary.Read of a uint16. */
  function ReadU16From(data: seq<byte>, order: ByteOrder, exhausted: Error): (out: (Result<u16>, seq<byte>))
    ensures out.0.Ok? <==> |data| >= 2
    ensures out.0.Ok? ==> out.0.value == WordOf(order, data[0], data[1]) && out.1 == data[2..]
    ensures out.0.Err? ==> out.1 == []
  {
    var f := ReadFullFrom(data, 2, exhausted);
    if f.0.Ok? then (Ok(WordOf(order, f.0.value[0], f.0.value[1])), f.1)
    else (Err(f.0.error), f.1)
  }

  /** binary.Read of a single byte. */
  function ReadByteFrom(data: seq<byte>, exhausted: Error): (out: (Result<byte>, seq<byte>))
    ensures out.0.Ok? <==> |data| >= 1
    ensures out.0.Ok? ==> out.0.value == data[0] && out.1 == data[1..]
    ensures out.0.Err? ==> out.1 == [] && out.0.error == exhausted
  {
    var f := ReadFullFrom(data, 1, exhausted);
    if f.0.Ok? then (Ok(f.0.value[0]), f.1)
    else (Err(f.0.error), f.1)
  }

  class Buffer {
    /** Unread bytes, oldest first. */
    var data: seq<byte>
    /** What a read reports once no byte is left: io.EOF for a bytes.Buffer;
        for a connection, the error its last read ends with. */
    const exhausted: Error

    constructor (init: seq<byte>, exhausted: Error)
      ensures data == init && this.exhausted == exhausted
    {
      data := init;
      this.exhausted := exhausted;
    }

    /** bytes.NewBuffer(init). */
    constructor FromBytes(init: seq<byte>)
      ensures data == init && exhausted == Eof
    {
      data := init;
      exhausted := Eof;
    }

    function Len(): nat
      reads this
    {
      |data|
    }

    method Write(b: seq<byte>)
      modifies this
      ensures data == old(data) + b
    {
      data := data + b;
    }

    method WriteByte(b: byte)
      modifies this
      ensures data == old(data) + [b]
    {
      data := data + [b];
    }

    /** binary.Write of a uint16. */
    method WriteU16(order: ByteOrder, v: u16)
      modifies this
      ensures data == old(data) + U16Bytes(order, v)
    {
      data := data + U16Bytes(order, v);
    }

    method ReadFull(n: nat) returns (r: Result<seq<byte>>)
      modifies this
      ensures (r, data) == ReadFullFrom(old(data), n, exhausted)
    {
      if n <= |data| {
        r := Ok(data[..n]);
        data := data[n..];
      } else {
        r := if data != [] && exhausted == Eof then Err(UnexpectedEof) else Err(exhausted);
        data := [];
      }
    }

    method ReadU16(order: ByteOrder) returns (r: Result<u16>)
      modifies this
      ensures (r, data) == ReadU16From(old(data), order, exhausted)
    {
      var b := ReadFull(2);
      match b
      case Ok(bs) => r := Ok(WordOf(order, bs[0], bs[1]));
      case Err(e) => r := Err(e);
    }

    method ReadByte() returns (r: Result<byte>)
      modifies this
      ensures (r, data) == ReadByteFrom(old(data), exhausted)
    {
      var b := ReadFull(1);
      match b
      case Ok(bs) => r := Ok(bs[0]);
      case Err(e) => r := Err(e);
    }
  }
}

/** Machine integers, Go's truncating conversions, the error values of the
    system and the Option/Result wrappers shared by every other module. */
module Base {

  type byte = x: int | 0 <= x < 0x100
  type u16 = x: int | 0 <= x < 0x1_0000
  type u32 = x: int | 0 <= x < 0x1_0000_0000

  /** Go's uint16(x): keep the low 16 bits (two's complement for negatives). */
  function U16(x: int): (r: u16)
    ensures (x - r) % 0x1_0000 == 0
  {
    x % 0x1_0000
  }

  /** Go's byte(x): keep the low 8 bits. */
  function Byte(x: int): (r: byte)
    ensures (x - r) % 0x100 == 0
  {
    x % 0x100
  }

  datatype Option<+T> = None | Some(value: T) {
    function GetOr(default: T): T {
      match this
      case Some(v) => v
      case None => default
    }
  }

  /** The errors the core can report. Transport errors first, in the shape the
      client's classification needs: `Eof` is io.EOF itself, `Timeout` is a
      net.Error whose Timeout() is true, `BrokenPipe` is a write on a socket
      the peer closed (EPIPE). */
  datatype Error =
    | Eof
    | UnexpectedEof
    | Timeout
    | BrokenPipe
    | Io(reason: string)
    | UnexpectedAnswer(answer: string)
    | FuncCodeMismatch(expected: byte, got: byte)
    | DescriptorNotLoaded
    | InvalidArguments
    | UnsupportedValueType(valueType: int)
    | UnsupportedLength(length: int)
    | UnknownPar(par: byte, data: string)
    | UnsupportedAddressing
    | Syntax(text: string)
    | OutOfRange(text: string)
    | BadEnumKey(key: string)
    | Json(reason: string)
      /** A Go runtime panic (index out of range): the process would stop. */
    | Panic(reason: string)
      /** errors.Join(context, cause) */
    | Joined(context: string, cause: Error)

  datatype Result<+T> = Ok(value: T) | Err(error: Error) {
    predicate IsFailure() { Err? }
    function PropagateFailure<U>(): Result<U>
      requires Err?
    {
      Err(error)
    }
    function Extract(): T
      requires Ok?
    {
      value
    }
  }

  datatype ByteOrder = BigEndian | LittleEndian

  /** The two bytes binary.Write emits for a uint16 in the given order. */
  function U16Bytes(order: ByteOrder, v: u16): (r: seq<byte>)
    ensures |r| == 2
  {
    match order
    case BigEndian => [v / 0x100, v % 0x100]
    case LittleEndian => [v % 0x100, v / 0x100]
  }

  /** The uint16 binary.Read takes from two bytes in the given order. */
  function WordOf(order: ByteOrder, b0: byte, b1: byte): (r: u16)
    ensures r % 0x100 == (if order == BigEndian then b1 else b0)
    ensures r / 0x100 == (if order == BigEndian then b0 else b1)
  {
    match order
    case BigEndian => b0 * 0x100 + b1
    case LittleEndian => b1 * 0x100 + b0
  }

  lemma WordOfU16Bytes(order: ByteOrder, v: u16)
    ensures WordOf(order, U16Bytes(order, v)[0], U16Bytes(order, v)[1]) == v
  {
  }
}

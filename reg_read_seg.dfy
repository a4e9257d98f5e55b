/** Reading a whole segment (internal/commands/reg_read_seg.go). A segment
    that cannot be edited is read with one raw read and cut into registers
    (the continuous walk); an editable one is read register by register (the
    sparse walk). Both walks look each address up in the descriptor; an
    address with no register makes the Go loop spin forever without changing
    anything, which the model reports as Hangs. Other ways for a walk not to
    end (a register length that consumes nothing, raw reads that keep
    failing) are bounded by a fuel count, reported as OutOfFuel. */
module RegReadSeg {
  import opened Base
  import opened Buffers
  import opened Descriptors
  import opened Link
  import opened RegReadDescr

  /** Where a walk finds the register at an address; the commands use the
      descriptor's FindRegisterByAddr. */
  type Lookup = u16 -> Option<Register>

  /** How a walk decodes a register from the front of the bytes left: the
      value and what is left after it. */
  type Decoder = (seq<byte>, Register) -> (RegValue, seq<byte>)

  /** NewRegValueFromBytes under a descriptor, as a Decoder. */
  function DecoderOf(desc: Descriptor): Decoder
  {
    (data, reg) => DecodeFrom(data, reg, desc)
  }

  datatype Walk =
    | Done(values: map<u16, RegValue>)
    | Hangs(at: u16, values: map<u16, RegValue>)
    | OutOfFuel(values: map<u16, RegValue>)

  /** How far the address moves past a register: its length (1 when unset),
      truncated to 16 bits. */
  function Step(reg: Register): u16 {
    U16(LengthOf(reg))
  }

  // ----------------------------------------------------- continuous walk

  /** HandleContinuous's loop from address `addr` with `data` left in the
      buffer: look the register up, decode it, store it, move on; stop once
      a decode leaves the buffer empty. */
  function ContinuousWalk(decode: Decoder, lookup: Lookup, addr: u16, data: seq<byte>, values: map<u16, RegValue>, fuel: nat): Walk
    decreases fuel
  {
    match lookup(addr)
    case None => Hangs(addr, values)
    case Some(reg) =>
      var d := decode(data, reg);
      var values' := values[addr := d.0];
      if d.1 == [] then Done(values')
      else if fuel == 0 then OutOfFuel(values')
      else ContinuousWalk(decode, lookup, U16(addr + Step(reg)), d.1, values', fuel - 1)
  }

  /** One round of the continuous walk, unfolded: the register found at
      `addr` is decoded from the front of the data and stored; the walk goes
      on from the next address with what is left, or ends. */
  lemma ContinuousWalkStep(decode: Decoder, lookup: Lookup, addr: u16, data: seq<byte>, values: map<u16, RegValue>, fuel: nat, reg: Register)
    requires lookup(addr) == Some(reg)
    ensures var d := decode(data, reg);
      ContinuousWalk(decode, lookup, addr, data, values, fuel)
      == if d.1 == [] then Done(values[addr := d.0])
         else if fuel == 0 then OutOfFuel(values[addr := d.0])
         else ContinuousWalk(decode, lookup, U16(addr + Step(reg)), d.1, values[addr := d.0], fuel - 1)
  {
  }

  /** A walk hangs only at an address the descriptor has no register for;
      every address it stored a value at has one; it never drops a value
      and always stores at least one unless it hangs at once. */
  lemma {:induction false} ContinuousWalkShape(decode: Decoder, lookup: Lookup, addr: u16, data: seq<byte>, values: map<u16, RegValue>, fuel: nat)
    ensures var w := ContinuousWalk(decode, lookup, addr, data, values, fuel);
      && (w.Hangs? ==> lookup(w.at).None?)
      && values.Keys <= w.values.Keys
      && (forall a | a in w.values && a !in values :: lookup(a).Some?)
      && (lookup(addr).Some? ==> addr in w.values)
    decreases fuel
  {
    match lookup(addr)
    case None =>
    case Some(reg) =>
      var d := decode(data, reg);
      if d.1 != [] && fuel > 0 {
        ContinuousWalkShape(decode, lookup, U16(addr + Step(reg)), d.1, values[addr := d.0], fuel - 1);
      }
  }

  /** For a register one or two words long, the decoder never grows the
      buffer and takes at least one byte of a non-empty one. */
  ghost predicate Consumes(decode: Decoder) {
    forall data: seq<byte>, reg: Register | LengthOf(reg) == 1 || LengthOf(reg) == 2 ::
      |decode(data, reg).1| <= |data| && (data != [] ==> |decode(data, reg).1| < |data|)
  }

  /** NewRegValueFromBytes reads a uint16 (or two) whenever a byte is
      left. */
  lemma DecoderConsumes(desc: Descriptor)
    ensures Consumes(DecoderOf(desc))
  {
    forall data: seq<byte>, reg: Register | LengthOf(reg) == 1 || LengthOf(reg) == 2
      ensures |DecoderOf(desc)(data, reg).1| <= |data| && (data != [] ==> |DecoderOf(desc)(data, reg).1| < |data|)
    {
      RawFromConsumes(data, reg);
    }
  }

  /** A walk with a consuming decoder takes a byte per round, so fuel as
      large as the data suffices. */
  lemma {:induction false} ConsumingWalkEnds(decode: Decoder, lookup: Lookup, addr: u16, data: seq<byte>, values: map<u16, RegValue>, fuel: nat)
    requires Consumes(decode)
    requires forall a: u16 | lookup(a).Some? :: LengthOf(lookup(a).value) == 1 || LengthOf(lookup(a).value) == 2
    requires fuel >= |data|
    ensures !ContinuousWalk(decode, lookup, addr, data, values, fuel).OutOfFuel?
    decreases fuel
  {
    match lookup(addr)
    case None =>
    case Some(reg) =>
      var d := decode(data, reg);
      if d.1 != [] {
        ConsumingWalkEnds(decode, lookup, U16(addr + Step(reg)), d.1, values[addr := d.0], fuel - 1);
      }
  }

  /** With every register found one or two words long, the walk consumes
      at least a byte per round, so fuel as large as the data suffices. */
  lemma ContinuousWalkEnds(desc: Descriptor, lookup: Lookup, addr: u16, data: seq<byte>, values: map<u16, RegValue>, fuel: nat)
    requires forall a: u16 | lookup(a).Some? :: LengthOf(lookup(a).value) == 1 || LengthOf(lookup(a).value) == 2
    requires fuel >= |data|
    ensures !ContinuousWalk(DecoderOf(desc), lookup, addr, data, values, fuel).OutOfFuel?
  {
    DecoderConsumes(desc);
    ConsumingWalkEnds(DecoderOf(desc), lookup, addr, data, values, fuel);
  }

  /** A register of one or two words is at address a. */
  predicate FitsAt(lookup: Lookup, a: int) {
    && 0 <= a < 0x1_0000 && lookup(a).Some?
    && (LengthOf(lookup(a).value) == 1 || LengthOf(lookup(a).value) == 2)
  }

  /** The number of words of the register at a. */
  function WidthAt(lookup: Lookup, a: int): nat
    requires FitsAt(lookup, a)
  {
    LengthOf(lookup(a).value)
  }

  /** Registers of one or two words tile the n words from addr: one starts
      at addr, the next where it ends, and the last ends at addr + n. */
  predicate Tiles(lookup: Lookup, addr: int, n: nat)
    decreases n
  {
    || n == 0
    || (&& FitsAt(lookup, addr) && WidthAt(lookup, addr) <= n
        && Tiles(lookup, addr + WidthAt(lookup, addr), n - WidthAt(lookup, addr)))
  }

  /** The addresses at which the registers of a tiling start. */
  function Starts(lookup: Lookup, addr: int, n: nat): set<int>
    requires Tiles(lookup, addr, n)
    decreases n
  {
    if n == 0 then {} else {addr} + Starts(lookup, addr + WidthAt(lookup, addr), n - WidthAt(lookup, addr))
  }

  /** Each register of a tiling starts and ends within the run. */
  lemma {:induction false} StartsBounds(lookup: Lookup, addr: int, n: nat)
    requires Tiles(lookup, addr, n)
    ensures forall a | a in Starts(lookup, addr, n) :: FitsAt(lookup, a) && addr <= a && a + WidthAt(lookup, a) <= addr + n
    decreases n
  {
    if n > 0 {
      StartsBounds(lookup, addr + WidthAt(lookup, addr), n - WidthAt(lookup, addr));
    }
  }

  /** A tiling covers its n words without gap or overlap: the first
      register starts at addr, each register ends at the end of the run or
      where another one starts, and a register ends before the next one
      starts. */
  lemma {:induction false} StartsPartition(lookup: Lookup, addr: int, n: nat)
    requires Tiles(lookup, addr, n)
    ensures n > 0 ==> addr in Starts(lookup, addr, n)
    ensures forall a | a in Starts(lookup, addr, n) :: FitsAt(lookup, a) && addr <= a && a + WidthAt(lookup, a) <= addr + n
    ensures forall a | a in Starts(lookup, addr, n) && FitsAt(lookup, a) && a + WidthAt(lookup, a) < addr + n ::
      a + WidthAt(lookup, a) in Starts(lookup, addr, n)
    ensures forall a, b | a in Starts(lookup, addr, n) && b in Starts(lookup, addr, n) && a < b ::
      FitsAt(lookup, a) && a + WidthAt(lookup, a) <= b
    decreases n
  {
    StartsBounds(lookup, addr, n);
    if n > 0 {
      var w := WidthAt(lookup, addr);
      StartsPartition(lookup, addr + w, n - w);
      assert Starts(lookup, addr, n) == {addr} + Starts(lookup, addr + w, n - w);
    }
  }

  /** The decoder takes exactly the words of a register of one or two
      words. */
  ghost predicate TakesItsWords(decode: Decoder) {
    forall data: seq<byte>, reg: Register | (LengthOf(reg) == 1 || LengthOf(reg) == 2) && |data| >= 2 * LengthOf(reg) ::
      decode(data, reg).1 == data[2 * LengthOf(reg)..]
  }

  /** NewRegValueFromBytes reads one uint16 per word of the register. */
  lemma DecoderTakesItsWords(desc: Descriptor)
    ensures TakesItsWords(DecoderOf(desc))
  {
    forall data: seq<byte>, reg: Register | (LengthOf(reg) == 1 || LengthOf(reg) == 2) && |data| >= 2 * LengthOf(reg)
      ensures DecoderOf(desc)(data, reg).1 == data[2 * LengthOf(reg)..]
    {
      if LengthOf(reg) == 1 {
        RawFromOneWord(data, reg);
      } else {
        RawFromTwoWords(data, reg);
      }
    }
  }

  /** The value of a register of one or two words depends on its own words
      only. */
  lemma DecodeOwnWords(desc: Descriptor, data: seq<byte>, reg: Register)
    requires (LengthOf(reg) == 1 || LengthOf(reg) == 2) && |data| >= 2 * LengthOf(reg)
    ensures DecodeFrom(data, reg, desc).0 == DecodeFrom(data[..2 * LengthOf(reg)], reg, desc).0
  {
    var own := data[..2 * LengthOf(reg)];
    if LengthOf(reg) == 1 {
      RawFromOneWord(data, reg);
      RawFromOneWord(own, reg);
    } else {
      RawFromTwoWords(data, reg);
      RawFromTwoWords(own, reg);
    }
  }

  /** What storing the registers of a tiling from addr into `values` gives:
      each register decoded from the data after the words of the registers
      before it, in address order. */
  function Fill(decode: Decoder, lookup: Lookup, values: map<u16, RegValue>, addr: int, data: seq<byte>, n: nat): map<u16, RegValue>
    requires Tiles(lookup, addr, n) && |data| == 2 * n
    decreases n
  {
    if n == 0 then values
    else
      var w := WidthAt(lookup, addr);
      Fill(decode, lookup, values[addr as u16 := decode(data, lookup(addr).value).0], addr + w, data[2 * w..], n - w)
  }

  /** Filling a tiling adds exactly its starts as keys and changes no value
      at any other address. */
  lemma {:induction false} FilledKeys(decode: Decoder, lookup: Lookup, values: map<u16, RegValue>, addr: int, data: seq<byte>, n: nat)
    requires Tiles(lookup, addr, n) && |data| == 2 * n
    ensures var out := Fill(decode, lookup, values, addr, data, n);
      && (forall a: u16 :: a in out <==> a in values || a in Starts(lookup, addr, n))
      && (forall a: u16 | a in values && a !in Starts(lookup, addr, n) :: a in out && out[a] == values[a])
    decreases n
  {
    if n > 0 {
      var w := WidthAt(lookup, addr);
      var values' := values[addr as u16 := decode(data, lookup(addr).value).0];
      assert Fill(decode, lookup, values, addr, data, n) == Fill(decode, lookup, values', addr + w, data[2 * w..], n - w);
      assert Starts(lookup, addr, n) == {addr} + Starts(lookup, addr + w, n - w);
      FilledKeys(decode, lookup, values', addr + w, data[2 * w..], n - w);
    }
  }

  /** Filling a tiling leaves the value at an address outside it alone. */
  lemma {:induction false} FillKeeps(decode: Decoder, lookup: Lookup, values: map<u16, RegValue>, addr: int, data: seq<byte>, n: nat, a: u16)
    requires Tiles(lookup, addr, n) && |data| == 2 * n
    requires a in values && a as int !in Starts(lookup, addr, n)
    ensures var out := Fill(decode, lookup, values, addr, data, n);
      a in out && out[a] == values[a]
    decreases n
  {
    if n > 0 {
      var w := WidthAt(lookup, addr);
      var values' := values[addr as u16 := decode(data, lookup(addr).value).0];
      assert Fill(decode, lookup, values, addr, data, n) == Fill(decode, lookup, values', addr + w, data[2 * w..], n - w);
      assert Starts(lookup, addr, n) == {addr} + Starts(lookup, addr + w, n - w);
      assert values'[a] == values[a];
      FillKeeps(decode, lookup, values', addr + w, data[2 * w..], n - w, a);
    }
  }

  /** A start of a tiling holds a register that lies inside the tiling. */
  lemma {:induction false} StartInside(lookup: Lookup, addr: int, n: nat, a: int)
    requires Tiles(lookup, addr, n) && a in Starts(lookup, addr, n)
    ensures FitsAt(lookup, a) && addr <= a && a + WidthAt(lookup, a) <= addr + n
    decreases n
  {
    var w := WidthAt(lookup, addr);
    if a != addr {
      StartInside(lookup, addr + w, n - w, a);
    }
  }

  /** Filling a tiling stores at its first address the first register,
      decoded from the start of the data. */
  lemma FilledFirst(decode: Decoder, lookup: Lookup, values: map<u16, RegValue>, addr: int, data: seq<byte>, n: nat)
    requires Tiles(lookup, addr, n) && |data| == 2 * n && n > 0
    ensures var out := Fill(decode, lookup, values, addr, data, n);
      addr as u16 in out && out[addr as u16] == decode(data, lookup(addr).value).0
  {
    var w := WidthAt(lookup, addr);
    var values' := values[addr as u16 := decode(data, lookup(addr).value).0];
    assert Fill(decode, lookup, values, addr, data, n) == Fill(decode, lookup, values', addr + w, data[2 * w..], n - w);
    if addr in Starts(lookup, addr + w, n - w) {
      StartInside(lookup, addr + w, n - w, addr);
    }
    FillKeeps(decode, lookup, values', addr + w, data[2 * w..], n - w, addr as u16);
  }

  /** Dropping i elements and then j drops i + j. */
  lemma DropDrop(data: seq<byte>, i: nat, j: nat)
    requires i + j <= |data|
    ensures data[i..][j..] == data[i + j..]
  {
  }

  /** Filling a tiling stores at a start a the register there, decoded from
      the data after the words of the registers before it. */
  lemma {:induction false} FilledAt(decode: Decoder, lookup: Lookup, values: map<u16, RegValue>, addr: int, data: seq<byte>, n: nat, a: u16)
    requires Tiles(lookup, addr, n) && |data| == 2 * n
    requires a as int in Starts(lookup, addr, n) && lookup(a).Some? && addr <= a < addr + n
    ensures var out := Fill(decode, lookup, values, addr, data, n);
      a in out && out[a] == decode(data[2 * (a - addr)..], lookup(a).value).0
    decreases n
  {
    if a as int == addr {
      FilledFirst(decode, lookup, values, addr, data, n);
    } else {
      var w := WidthAt(lookup, addr);
      var values' := values[addr as u16 := decode(data, lookup(addr).value).0];
      StartInside(lookup, addr + w, n - w, a as int);
      FilledAt(decode, lookup, values', addr + w, data[2 * w..], n - w, a);
      DropDrop(data, 2 * w, 2 * (a - (addr + w)));
    }
  }

  /** FilledAt at every start of the tiling. */
  lemma FilledValues(decode: Decoder, lookup: Lookup, values: map<u16, RegValue>, addr: int, data: seq<byte>, n: nat)
    requires Tiles(lookup, addr, n) && |data| == 2 * n
    ensures var out := Fill(decode, lookup, values, addr, data, n);
      forall a: u16 | a in Starts(lookup, addr, n) && FitsAt(lookup, a) && addr <= a < addr + n ::
        a in out && out[a] == decode(data[2 * (a - addr)..], lookup(a).value).0
  {
    forall a: u16 | a in Starts(lookup, addr, n) && FitsAt(lookup, a) && addr <= a < addr + n
      ensures var out := Fill(decode, lookup, values, addr, data, n);
        a in out && out[a] == decode(data[2 * (a - addr)..], lookup(a).value).0
    {
      FilledAt(decode, lookup, values, addr, data, n, a);
    }
  }

  /** The decoder cuts the data at the registers of a tiling: each register
      takes exactly its own words. */
  predicate CutsAt(decode: Decoder, lookup: Lookup, addr: int, data: seq<byte>, n: nat)
    requires Tiles(lookup, addr, n) && |data| == 2 * n
    decreases n
  {
    || n == 0
    || (var w := WidthAt(lookup, addr);
        && decode(data, lookup(addr).value).1 == data[2 * w..]
        && CutsAt(decode, lookup, addr + w, data[2 * w..], n - w))
  }

  /** A decoder that takes each register's own words cuts any tiling. */
  lemma {:induction false} TakesItsWordsCuts(decode: Decoder, lookup: Lookup, addr: int, data: seq<byte>, n: nat)
    requires TakesItsWords(decode) && Tiles(lookup, addr, n) && |data| == 2 * n
    ensures CutsAt(decode, lookup, addr, data, n)
    decreases n
  {
    if n > 0 {
      var w := WidthAt(lookup, addr);
      TakesItsWordsCuts(decode, lookup, addr + w, data[2 * w..], n - w);
    }
  }

  /** At a register of one or two words whose words are all the data left,
      the walk stores it and ends. */
  lemma ContinuousWalkLast(decode: Decoder, lookup: Lookup, addr: u16, data: seq<byte>, values: map<u16, RegValue>, fuel: nat)
    requires FitsAt(lookup, addr) && |data| == 2 * WidthAt(lookup, addr)
    requires decode(data, lookup(addr).value).1 == []
    ensures ContinuousWalk(decode, lookup, addr, data, values, fuel) == Done(values[addr := decode(data, lookup(addr).value).0])
  {
    ContinuousWalkStep(decode, lookup, addr, data, values, fuel, lookup(addr).value);
  }

  /** At a register of one or two words with more data after its words, the
      walk stores it and goes on from the address after it. */
  lemma ContinuousWalkOn(decode: Decoder, lookup: Lookup, addr: u16, data: seq<byte>, values: map<u16, RegValue>, fuel: nat, next: u16)
    requires FitsAt(lookup, addr) && |data| > 2 * WidthAt(lookup, addr) && fuel > 0
    requires next as int == addr as int + WidthAt(lookup, addr)
    requires decode(data, lookup(addr).value).1 == data[2 * WidthAt(lookup, addr)..]
    ensures ContinuousWalk(decode, lookup, addr, data, values, fuel)
         == ContinuousWalk(decode, lookup, next, data[2 * WidthAt(lookup, addr)..], values[addr := decode(data, lookup(addr).value).0], fuel - 1)
  {
    var reg := lookup(addr).value;
    ContinuousWalkStep(decode, lookup, addr, data, values, fuel, reg);
    assert Step(reg) == WidthAt(lookup, addr);
    assert U16(addr + Step(reg)) == next;
  }

  /** The walk over a tiling ends, and fills it. */
  lemma {:induction false} ContinuousWalkTilesRun(decode: Decoder, lookup: Lookup, addr: u16, data: seq<byte>, values: map<u16, RegValue>,
                                                  fuel: nat, n: nat)
    requires 1 <= n && addr + n <= 0x1_0000 && |data| == 2 * n && fuel + 1 >= n
    requires Tiles(lookup, addr, n) && CutsAt(decode, lookup, addr, data, n)
    ensures ContinuousWalk(decode, lookup, addr, data, values, fuel) == Done(Fill(decode, lookup, values, addr, data, n))
    decreases n
  {
    var k := WidthAt(lookup, addr);
    var values' := values[addr := decode(data, lookup(addr).value).0];
    var rest := data[2 * k..];
    assert decode(data, lookup(addr).value).1 == rest;
    assert Fill(decode, lookup, values, addr, data, n) == Fill(decode, lookup, values', addr + k, rest, n - k);
    if k == n {
      ContinuousWalkLast(decode, lookup, addr, data, values, fuel);
    } else {
      var next: u16 := addr + k;
      ContinuousWalkOn(decode, lookup, addr, data, values, fuel, next);
      assert Tiles(lookup, next, n - k) && CutsAt(decode, lookup, next, rest, n - k);
      ContinuousWalkTilesRun(decode, lookup, next, rest, values', fuel - 1, n - k);
    }
  }

  /** Taking j after dropping i is the slice from i to i + j. */
  lemma TakeOfDrop(data: seq<byte>, i: nat, j: nat)
    requires i + j <= |data|
    ensures data[i..][..j] == data[i..i + j]
  {
  }

  /** The tiling walk for any decoder that takes exactly a register's own
      words: each register is decoded from the data that follows the
      registers before it. */
  lemma TiledWalk(decode: Decoder, lookup: Lookup, addr: u16, data: seq<byte>, values: map<u16, RegValue>, fuel: nat, n: nat)
    requires TakesItsWords(decode)
    requires 1 <= n && addr + n <= 0x1_0000 && |data| == 2 * n && fuel + 1 >= n
    requires Tiles(lookup, addr, n)
    ensures var w := ContinuousWalk(decode, lookup, addr, data, values, fuel);
      && w.Done?
      && (forall a: u16 :: a in w.values <==> a in values || a in Starts(lookup, addr, n))
      && (forall a: u16 | a in values && a !in Starts(lookup, addr, n) :: w.values[a] == values[a])
      && (forall a: u16 | a in Starts(lookup, addr, n) ::
            && FitsAt(lookup, a) && addr <= a && a + WidthAt(lookup, a) <= addr + n
            && w.values[a] == decode(data[2 * (a - addr)..], lookup(a).value).0)
  {
    TakesItsWordsCuts(decode, lookup, addr, data, n);
    ContinuousWalkTilesRun(decode, lookup, addr, data, values, fuel, n);
    FilledKeys(decode, lookup, values, addr, data, n);
    FilledValues(decode, lookup, values, addr, data, n);
    StartsBounds(lookup, addr, n);
  }

  /** A segment answer of 2n bytes over registers of one or two words that
      tile its n words is cut at the registers: the walk ends with one value
      per register, each decoded from that register's own words; no other
      key is added and no value at another address changes. */
  lemma ContinuousWalkTiles(desc: Descriptor, lookup: Lookup, addr: u16, data: seq<byte>, values: map<u16, RegValue>, fuel: nat, n: nat)
    requires 1 <= n && addr + n <= 0x1_0000 && |data| == 2 * n && fuel + 1 >= n
    requires Tiles(lookup, addr, n)
    ensures var w := ContinuousWalk(DecoderOf(desc), lookup, addr, data, values, fuel);
      && w.Done?
      && (forall a: u16 :: a in w.values <==> a in values || a in Starts(lookup, addr, n))
      && (forall a: u16 | a in values && a !in Starts(lookup, addr, n) :: w.values[a] == values[a])
      && (forall a: u16 | a in Starts(lookup, addr, n) ::
            && FitsAt(lookup, a) && addr <= a && a + WidthAt(lookup, a) <= addr + n
            && w.values[a] == DecodeFrom(data[2 * (a - addr)..2 * (a - addr + WidthAt(lookup, a))], lookup(a).value, desc).0)
  {
    DecoderTakesItsWords(desc);
    TiledWalk(DecoderOf(desc), lookup, addr, data, values, fuel, n);
    var out := ContinuousWalk(DecoderOf(desc), lookup, addr, data, values, fuel).values;
    forall a: u16 | a in Starts(lookup, addr, n)
      ensures out[a] == DecodeFrom(data[2 * (a - addr)..2 * (a - addr + WidthAt(lookup, a))], lookup(a).value, desc).0
    {
      var rest := data[2 * (a - addr)..];
      DecodeOwnWords(desc, rest, lookup(a).value);
      TakeOfDrop(data, 2 * (a - addr), 2 * WidthAt(lookup, a));
    }
  }

  /** The loop's bookkeeping: the walk from the current state is the whole
      walk `total`. */
  ghost predicate Cutting(decode: Decoder, lookup: Lookup, addr: u16, data: seq<byte>, values: map<u16, RegValue>, steps: nat,
                          total: Walk)
  {
    ContinuousWalk(decode, lookup, addr, data, values, steps) == total
  }

  /** One round of HandleContinuous's loop at an address with a register:
      decode it from the front of the buffer, store it, move on; `stop` is
      the walk's outcome when the loop ends in this round. */
  method CutRound(buf: Buffer, desc: Descriptor, decode: Decoder, lookup: Lookup, addr: u16, values: map<u16, RegValue>,
                  steps: nat, reg: Register, ghost total: Walk)
    returns (stop: Option<Walk>, addr': u16, values': map<u16, RegValue>)
    requires decode == DecoderOf(desc) && lookup(addr) == Some(reg)
    requires Cutting(decode, lookup, addr, buf.data, values, steps, total)
    modifies buf
    ensures stop.Some? ==> stop.value == total
    ensures stop.None? ==> steps > 0 && Cutting(decode, lookup, addr', buf.data, values', steps - 1, total)
  {
    ContinuousWalkStep(decode, lookup, addr, buf.data, values, steps, reg);
    var v := NewRegValueFromBytes(buf, reg, desc);
    values' := values[addr := v];
    addr' := U16(addr + Step(reg));
    if buf.Len() == 0 {
      return Some(Done(values')), addr', values';
    }
    if steps == 0 {
      return Some(OutOfFuel(values')), addr', values';
    }
    stop := None;
  }

  /** The loop of HandleContinuous over a buffer holding the raw answer:
      look the register up, decode it from the buffer, store it, move on;
      stop once the buffer is empty. */
  method CutRegisters(buf: Buffer, desc: Descriptor, decode: Decoder, lookup: Lookup, start: u16, fuel: nat) returns (w: Walk)
    requires decode == DecoderOf(desc)
    modifies buf
    ensures w == ContinuousWalk(decode, lookup, start, old(buf.data), map[], fuel)
  {
    var addr: u16 := start;
    var values: map<u16, RegValue> := map[];
    var steps := fuel;
    ghost var total := ContinuousWalk(decode, lookup, start, buf.data, map[], fuel);
    while true
      invariant Cutting(decode, lookup, addr, buf.data, values, steps, total)
      decreases steps
    {
      var reg := lookup(addr);
      if reg.None? {
        // the Go loop continues with nothing changed
        return Hangs(addr, values);
      }
      var stop, addr', values' := CutRound(buf, desc, decode, lookup, addr, values, steps, reg.value, total);
      if stop.Some? {
        return stop.value;
      }
      addr, values, steps := addr', values', steps - 1;
    }
  }

  /** What reading a segment continuously does, given the oracle and the
      raw requests logged before and after: DevAddrs[0] panics on an empty
      list; otherwise one raw read of the whole segment (DevAddrs[0], the
      segment's function number, start address and length), whose error is
      returned, or whose answer is walked from the start address. */
  ghost predicate ContinuousOutcome(desc: Descriptor, seg: Segment, fuel: nat, answer: (nat, RawRequest) -> Result<seq<byte>>,
                                    before: seq<RawRequest>, after: seq<RawRequest>, r: Result<Walk>)
  {
    if desc.configuration.devAddrs == [] then r == Err(Panic("index out of range")) && after == before
    else
      var q := RawRead(desc.configuration.devAddrs[0], seg.funNumber, seg.startAddress, seg.length);
      var a := answer(|before|, q);
      && after == before + [q]
      && (a.Err? ==> r == Err(a.error))
      && (a.Ok? ==> r == Ok(ContinuousWalk(DecoderOf(desc), desc.FindRegisterByAddr, seg.startAddress, a.value, map[], fuel)))
  }

  /** HandleContinuous: one raw read of the whole segment (DevAddrs[0], the
      segment's function number, start address and length); its error is
      returned; otherwise the answer is cut into registers. */
  method HandleContinuous(dev: Device, desc: Descriptor, seg: Segment, fuel: nat) returns (r: Result<Walk>)
    modifies dev
    ensures ContinuousOutcome(desc, seg, fuel, dev.forwardAnswer, old(dev.forwarded), dev.forwarded, r)
    ensures dev.sent == old(dev.sent)
  {
    if desc.configuration.devAddrs == [] {
      return Err(Panic("index out of range"));
    }
    var q := RawRead(desc.configuration.devAddrs[0], seg.funNumber, seg.startAddress, seg.length);
    var data := dev.Forward(q);
    if data.Err? {
      return Err(data.error);
    }
    var buf := new Buffer.FromBytes(data.value);
    var w := CutRegisters(buf, desc, DecoderOf(desc), desc.FindRegisterByAddr, seg.startAddress, fuel);
    r := Ok(w);
  }

  // --------------------------------------------------------- sparse walk

  /** The address at which the sparse walk stops: the segment's 16-bit end. */
  function SegmentEnd(seg: Segment): u16 {
    U16(seg.startAddress + seg.length)
  }

  /** HandleSparse's loop from address `addr`, the k-th raw exchange next:
      look the register up, read it alone, store it, move on; a failed read
      is retried at the same address; stop once the address reaches the
      segment's end. Also gives the raw requests issued. */
  function SparseWalk(decode: Decoder, lookup: Lookup, seg: Segment, devAddr: byte, addr: u16, values: map<u16, RegValue>,
                      k: nat, answer: (nat, RawRequest) -> Result<seq<byte>>, fuel: nat): (out: (Walk, seq<RawRequest>))
    decreases fuel
  {
    match lookup(addr)
    case None => (Hangs(addr, values), [])
    case Some(reg) =>
      var q := RawRead(devAddr, seg.funNumber, addr, Step(reg));
      var a := answer(k, q);
      if a.Err? then
        if fuel == 0 then (OutOfFuel(values), [q])
        else
          var t := SparseWalk(decode, lookup, seg, devAddr, addr, values, k + 1, answer, fuel - 1);
          (t.0, [q] + t.1)
      else
        var values' := values[addr := decode(a.value, reg).0];
        var next := U16(addr + Step(reg));
        if next >= SegmentEnd(seg) then (Done(values'), [q])
        else if fuel == 0 then (OutOfFuel(values'), [q])
        else
          var t := SparseWalk(decode, lookup, seg, devAddr, next, values', k + 1, answer, fuel - 1);
          (t.0, [q] + t.1)
  }

  /** No register at the address: the walk hangs there, issuing nothing. */
  lemma SparseWalkNoRegister(decode: Decoder, lookup: Lookup, seg: Segment, devAddr: byte, addr: u16, values: map<u16, RegValue>,
                             k: nat, answer: (nat, RawRequest) -> Result<seq<byte>>, fuel: nat)
    requires lookup(addr).None?
    ensures SparseWalk(decode, lookup, seg, devAddr, addr, values, k, answer, fuel) == (Hangs(addr, values), [])
  {
  }

  /** A failed read: with fuel left, the walk is the same request followed
      by the walk from the same address, one exchange later. */
  lemma SparseWalkRetry(decode: Decoder, lookup: Lookup, seg: Segment, devAddr: byte, addr: u16, values: map<u16, RegValue>,
                        k: nat, answer: (nat, RawRequest) -> Result<seq<byte>>, fuel: nat, reg: Register)
    requires lookup(addr) == Some(reg)
    requires answer(k, RawRead(devAddr, seg.funNumber, addr, Step(reg))).Err?
    ensures var q := RawRead(devAddr, seg.funNumber, addr, Step(reg));
      var t := SparseWalk(decode, lookup, seg, devAddr, addr, values, k, answer, fuel);
      && (fuel == 0 ==> t == (OutOfFuel(values), [q]))
      && (fuel > 0 ==>
            var t' := SparseWalk(decode, lookup, seg, devAddr, addr, values, k + 1, answer, fuel - 1);
            t.0 == t'.0 && t.1 == [q] + t'.1)
  {
  }

  /** A successful read: the value is stored and, below the segment's end
      and with fuel left, the walk goes on from the next address. */
  lemma SparseWalkAdvance(decode: Decoder, lookup: Lookup, seg: Segment, devAddr: byte, addr: u16, values: map<u16, RegValue>,
                          k: nat, answer: (nat, RawRequest) -> Result<seq<byte>>, fuel: nat, reg: Register)
    requires lookup(addr) == Some(reg)
    requires answer(k, RawRead(devAddr, seg.funNumber, addr, Step(reg))).Ok?
    ensures var q := RawRead(devAddr, seg.funNumber, addr, Step(reg));
      var values' := values[addr := decode(answer(k, q).value, reg).0];
      var next := U16(addr + Step(reg));
      var t := SparseWalk(decode, lookup, seg, devAddr, addr, values, k, answer, fuel);
      && (next >= SegmentEnd(seg) ==> t == (Done(values'), [q]))
      && (next < SegmentEnd(seg) && fuel == 0 ==> t == (OutOfFuel(values'), [q]))
      && (next < SegmentEnd(seg) && fuel > 0 ==>
            var t' := SparseWalk(decode, lookup, seg, devAddr, next, values', k + 1, answer, fuel - 1);
            t.0 == t'.0 && t.1 == [q] + t'.1)
  {
  }

  /** A raw read of the register at its own address: DevAddrs[0], the
      segment's function number, the register's step as the length. */
  predicate IsRegisterRead(lookup: Lookup, seg: Segment, devAddr: byte, q: RawRequest) {
    && q.RawRead? && q.devAddr == devAddr && q.funcNumber == seg.funNumber
    && lookup(q.start).Some?
    && q.length == Step(lookup(q.start).value)
  }

  /** Every request the sparse walk issues reads one register alone, at
      the register's own address. */
  lemma {:induction false} SparseWalkRequests(decode: Decoder, lookup: Lookup, seg: Segment, devAddr: byte, addr: u16, values: map<u16, RegValue>,
                                              k: nat, answer: (nat, RawRequest) -> Result<seq<byte>>, fuel: nat)
    ensures forall q | q in SparseWalk(decode, lookup, seg, devAddr, addr, values, k, answer, fuel).1 ::
      IsRegisterRead(lookup, seg, devAddr, q)
    decreases fuel
  {
    match lookup(addr)
    case None =>
      SparseWalkNoRegister(decode, lookup, seg, devAddr, addr, values, k, answer, fuel);
    case Some(reg) =>
      var q := RawRead(devAddr, seg.funNumber, addr, Step(reg));
      var a := answer(k, q);
      var tail: seq<RawRequest> := [];
      if a.Err? {
        SparseWalkRetry(decode, lookup, seg, devAddr, addr, values, k, answer, fuel, reg);
        if fuel > 0 {
          SparseWalkRequests(decode, lookup, seg, devAddr, addr, values, k + 1, answer, fuel - 1);
          tail := SparseWalk(decode, lookup, seg, devAddr, addr, values, k + 1, answer, fuel - 1).1;
        }
      } else {
        SparseWalkAdvance(decode, lookup, seg, devAddr, addr, values, k, answer, fuel, reg);
        var values' := values[addr := decode(a.value, reg).0];
        var next := U16(addr + Step(reg));
        if next < SegmentEnd(seg) && fuel > 0 {
          SparseWalkRequests(decode, lookup, seg, devAddr, next, values', k + 1, answer, fuel - 1);
          tail := SparseWalk(decode, lookup, seg, devAddr, next, values', k + 1, answer, fuel - 1).1;
        }
      }
      assert SparseWalk(decode, lookup, seg, devAddr, addr, values, k, answer, fuel).1 == [q] + tail;
  }

  /** The first request of a walk that issues any reads the register at
      the walk's own address. */
  lemma SparseWalkFirst(decode: Decoder, lookup: Lookup, seg: Segment, devAddr: byte, addr: u16, values: map<u16, RegValue>,
                        k: nat, answer: (nat, RawRequest) -> Result<seq<byte>>, fuel: nat)
    ensures var qs := SparseWalk(decode, lookup, seg, devAddr, addr, values, k, answer, fuel).1;
      qs != [] ==> lookup(addr).Some? && qs[0] == RawRead(devAddr, seg.funNumber, addr, Step(lookup(addr).value))
  {
  }

  /** In a run of requests answered from the k-th on, a failed one is
      followed by the very same request. */
  predicate RetriesSame(answer: (nat, RawRequest) -> Result<seq<byte>>, k: nat, qs: seq<RawRequest>) {
    forall i | 0 <= i < |qs| - 1 :: answer(k + i, qs[i]).Err? ==> qs[i + 1] == qs[i]
  }

  /** Putting one request in front of a run that retries: the longer run
      retries when a failure of the new request is followed by itself. */
  lemma RetriesSameCons(answer: (nat, RawRequest) -> Result<seq<byte>>, k: nat, q: RawRequest, tail: seq<RawRequest>)
    requires RetriesSame(answer, k + 1, tail)
    requires answer(k, q).Err? && tail != [] ==> tail[0] == q
    ensures RetriesSame(answer, k, [q] + tail)
  {
    var qs := [q] + tail;
    forall i | 0 <= i < |qs| - 1
      ensures answer(k + i, qs[i]).Err? ==> qs[i + 1] == qs[i]
    {
      if i > 0 {
        assert qs[i] == tail[i - 1] && qs[i + 1] == tail[i];
        assert k + i == (k + 1) + (i - 1);
      }
    }
  }

  /** A failed raw read is followed by the very same request: the walk
      retries at the same address and never gives up with an error. */
  lemma {:induction false} SparseWalkRetries(decode: Decoder, lookup: Lookup, seg: Segment, devAddr: byte, addr: u16, values: map<u16, RegValue>,
                                             k: nat, answer: (nat, RawRequest) -> Result<seq<byte>>, fuel: nat)
    ensures RetriesSame(answer, k, SparseWalk(decode, lookup, seg, devAddr, addr, values, k, answer, fuel).1)
    decreases fuel
  {
    match lookup(addr)
    case None =>
      SparseWalkNoRegister(decode, lookup, seg, devAddr, addr, values, k, answer, fuel);
    case Some(reg) =>
      var q := RawRead(devAddr, seg.funNumber, addr, Step(reg));
      var a := answer(k, q);
      if a.Err? {
        SparseWalkRetry(decode, lookup, seg, devAddr, addr, values, k, answer, fuel, reg);
        if fuel > 0 {
          var tail := SparseWalk(decode, lookup, seg, devAddr, addr, values, k + 1, answer, fuel - 1).1;
          SparseWalkRetries(decode, lookup, seg, devAddr, addr, values, k + 1, answer, fuel - 1);
          SparseWalkFirst(decode, lookup, seg, devAddr, addr, values, k + 1, answer, fuel - 1);
          RetriesSameCons(answer, k, q, tail);
        }
      } else {
        SparseWalkAdvance(decode, lookup, seg, devAddr, addr, values, k, answer, fuel, reg);
        var values' := values[addr := decode(a.value, reg).0];
        var next := U16(addr + Step(reg));
        if next < SegmentEnd(seg) && fuel > 0 {
          var tail := SparseWalk(decode, lookup, seg, devAddr, next, values', k + 1, answer, fuel - 1).1;
          SparseWalkRetries(decode, lookup, seg, devAddr, next, values', k + 1, answer, fuel - 1);
          RetriesSameCons(answer, k, q, tail);
        }
      }
  }

  /** The sparse walk hangs only where no register is; it keeps every value;
      every new key has a register and is the starting address or lies
      below the segment's end. */
  lemma {:induction false} SparseWalkKeys(decode: Decoder, lookup: Lookup, seg: Segment, devAddr: byte, addr: u16, values: map<u16, RegValue>,
                                          k: nat, answer: (nat, RawRequest) -> Result<seq<byte>>, fuel: nat)
    ensures var w := SparseWalk(decode, lookup, seg, devAddr, addr, values, k, answer, fuel).0;
      && (w.Hangs? ==> lookup(w.at).None?)
      && values.Keys <= w.values.Keys
      && (forall a | a in w.values && a !in values ::
            lookup(a).Some? && (a == addr || a < SegmentEnd(seg)))
    decreases fuel
  {
    match lookup(addr)
    case None =>
    case Some(reg) =>
      var q := RawRead(devAddr, seg.funNumber, addr, Step(reg));
      var a := answer(k, q);
      if a.Err? {
        SparseWalkRetry(decode, lookup, seg, devAddr, addr, values, k, answer, fuel, reg);
        if fuel > 0 {
          SparseWalkKeys(decode, lookup, seg, devAddr, addr, values, k + 1, answer, fuel - 1);
        }
      } else {
        SparseWalkAdvance(decode, lookup, seg, devAddr, addr, values, k, answer, fuel, reg);
        var values' := values[addr := decode(a.value, reg).0];
        var next := U16(addr + Step(reg));
        if next < SegmentEnd(seg) && fuel > 0 {
          SparseWalkKeys(decode, lookup, seg, devAddr, next, values', k + 1, answer, fuel - 1);
        }
      }
  }

  /** One raw read through the device, its answer decoded against `reg`
      (NewRegValueFromBytes on a fresh buffer holding the answer, which
      DecodeFrom gives). */
  method ReadOne(dev: Device, decode: Decoder, reg: Register, q: RawRequest) returns (r: Result<RegValue>)
    modifies dev
    ensures dev.forwarded == old(dev.forwarded) + [q] && dev.sent == old(dev.sent)
    ensures var answer := dev.forwardAnswer(|old(dev.forwarded)|, q);
      && (answer.Err? ==> r == Err(answer.error))
      && (answer.Ok? ==> r == Ok(decode(answer.value, reg).0))
  {
    var data := dev.Forward(q);
    if data.Err? {
      return Err(data.error);
    }
    r := Ok(decode(data.value, reg).0);
  }

  /** The loop's bookkeeping: `issued` requests are behind it and the walk
      from the current state finishes the whole walk `total`. */
  ghost predicate Pending(decode: Decoder, lookup: Lookup, seg: Segment, devAddr: byte, addr: u16, values: map<u16, RegValue>,
                          k: nat, answer: (nat, RawRequest) -> Result<seq<byte>>, steps: nat,
                          total: (Walk, seq<RawRequest>), issued: seq<RawRequest>)
  {
    var rest := SparseWalk(decode, lookup, seg, devAddr, addr, values, k, answer, steps);
    rest.0 == total.0 && issued + rest.1 == total.1
  }

  /** A failed read at the current address: the loop either runs out of
      fuel there or starts over at the same address, one request further. */
  lemma PendingRetry(decode: Decoder, lookup: Lookup, seg: Segment, devAddr: byte, addr: u16, values: map<u16, RegValue>,
                     k: nat, answer: (nat, RawRequest) -> Result<seq<byte>>, steps: nat, reg: Register,
                     total: (Walk, seq<RawRequest>), issued: seq<RawRequest>)
    requires lookup(addr) == Some(reg)
    requires answer(k, RawRead(devAddr, seg.funNumber, addr, Step(reg))).Err?
    requires Pending(decode, lookup, seg, devAddr, addr, values, k, answer, steps, total, issued)
    ensures var q := RawRead(devAddr, seg.funNumber, addr, Step(reg));
      && (steps == 0 ==> total.0 == OutOfFuel(values) && issued + [q] == total.1)
      && (steps > 0 ==> Pending(decode, lookup, seg, devAddr, addr, values, k + 1, answer, steps - 1, total, issued + [q]))
  {
    var q := RawRead(devAddr, seg.funNumber, addr, Step(reg));
    SparseWalkRetry(decode, lookup, seg, devAddr, addr, values, k, answer, steps, reg);
    if steps > 0 {
      var t' := SparseWalk(decode, lookup, seg, devAddr, addr, values, k + 1, answer, steps - 1);
      assert issued + ([q] + t'.1) == (issued + [q]) + t'.1;
    }
  }

  /** A successful read at the current address stores the value `v` it
      decodes to; the loop then ends at the segment's end, runs out of fuel,
      or goes on at the next address, one request further. */
  lemma PendingAdvance(decode: Decoder, lookup: Lookup, seg: Segment, devAddr: byte, addr: u16, values: map<u16, RegValue>,
                       k: nat, answer: (nat, RawRequest) -> Result<seq<byte>>, steps: nat, reg: Register,
                       total: (Walk, seq<RawRequest>), issued: seq<RawRequest>, v: RegValue)
    requires lookup(addr) == Some(reg)
    requires answer(k, RawRead(devAddr, seg.funNumber, addr, Step(reg))).Ok?
    requires v == decode(answer(k, RawRead(devAddr, seg.funNumber, addr, Step(reg))).value, reg).0
    requires Pending(decode, lookup, seg, devAddr, addr, values, k, answer, steps, total, issued)
    ensures var q := RawRead(devAddr, seg.funNumber, addr, Step(reg));
      var next := U16(addr + Step(reg));
      && (next >= SegmentEnd(seg) ==> total.0 == Done(values[addr := v]) && issued + [q] == total.1)
      && (next < SegmentEnd(seg) && steps == 0 ==> total.0 == OutOfFuel(values[addr := v]) && issued + [q] == total.1)
      && (next < SegmentEnd(seg) && steps > 0 ==>
            Pending(decode, lookup, seg, devAddr, next, values[addr := v], k + 1, answer, steps - 1, total, issued + [q]))
  {
    var q := RawRead(devAddr, seg.funNumber, addr, Step(reg));
    var next := U16(addr + Step(reg));
    SparseWalkAdvance(decode, lookup, seg, devAddr, addr, values, k, answer, steps, reg);
    if next < SegmentEnd(seg) && steps > 0 {
      var t' := SparseWalk(decode, lookup, seg, devAddr, next, values[addr := v], k + 1, answer, steps - 1);
      assert issued + ([q] + t'.1) == (issued + [q]) + t'.1;
    }
  }

  /** One round of HandleSparse's loop at an address with a register: read
      it alone; on failure stay at the address (the error is only logged);
      on success store the value and move on, stopping at the segment's end.
      `stop` is the walk's outcome when the loop ends in this round. */
  method SparseRound(dev: Device, decode: Decoder, lookup: Lookup, seg: Segment, devAddr: byte,
                     addr: u16, values: map<u16, RegValue>, steps: nat, reg: Register,
                     ghost total: (Walk, seq<RawRequest>), ghost issued: seq<RawRequest>)
    returns (stop: Option<Walk>, addr': u16, values': map<u16, RegValue>)
    requires lookup(addr) == Some(reg)
    requires Pending(decode, lookup, seg, devAddr, addr, values, |dev.forwarded|, dev.forwardAnswer, steps, total, issued)
    modifies dev
    ensures var q := RawRead(devAddr, seg.funNumber, addr, Step(reg));
      dev.forwarded == old(dev.forwarded) + [q] && dev.sent == old(dev.sent)
    ensures var q := RawRead(devAddr, seg.funNumber, addr, Step(reg));
      && (stop.Some? ==> stop.value == total.0 && issued + [q] == total.1)
      && (stop.None? ==>
            && steps > 0
            && Pending(decode, lookup, seg, devAddr, addr', values', |dev.forwarded|, dev.forwardAnswer, steps - 1, total, issued + [q]))
  {
    ghost var k := |dev.forwarded|;
    var q := RawRead(devAddr, seg.funNumber, addr, Step(reg));
    var v := ReadOne(dev, decode, reg, q);
    if v.Err? {
      // logged, then retried at the same address
      PendingRetry(decode, lookup, seg, devAddr, addr, values, k, dev.forwardAnswer, steps, reg, total, issued);
      if steps == 0 {
        return Some(OutOfFuel(values)), addr, values;
      }
      return None, addr, values;
    }
    PendingAdvance(decode, lookup, seg, devAddr, addr, values, k, dev.forwardAnswer, steps, reg, total, issued, v.value);
    values' := values[addr := v.value];
    addr' := U16(addr + Step(reg));
    if addr' >= SegmentEnd(seg) {
      return Some(Done(values')), addr', values';
    }
    if steps == 0 {
      return Some(OutOfFuel(values')), addr', values';
    }
    stop := None;
  }

  /** The loop of HandleSparse: read each register alone through the
      device, retrying a failed read at the same address, until the address
      reaches the segment's end. */
  method ReadRegisters(dev: Device, decode: Decoder, lookup: Lookup, seg: Segment, devAddr: byte, fuel: nat) returns (w: Walk)
    modifies dev
    ensures var t := SparseWalk(decode, lookup, seg, devAddr, seg.startAddress, map[], |old(dev.forwarded)|, dev.forwardAnswer, fuel);
      w == t.0 && dev.forwarded == old(dev.forwarded) + t.1
    ensures dev.sent == old(dev.sent)
  {
    var addr: u16 := seg.startAddress;
    var values: map<u16, RegValue> := map[];
    var steps := fuel;
    ghost var issued: seq<RawRequest> := [];
    ghost var total := SparseWalk(decode, lookup, seg, devAddr, seg.startAddress, map[], |dev.forwarded|, dev.forwardAnswer, fuel);
    while true
      invariant dev.forwarded == old(dev.forwarded) + issued
      invariant dev.sent == old(dev.sent)
      invariant Pending(decode, lookup, seg, devAddr, addr, values, |dev.forwarded|, dev.forwardAnswer, steps, total, issued)
      decreases steps
    {
      var reg := lookup(addr);
      if reg.None? {
        // the Go loop continues with nothing changed
        SparseWalkNoRegister(decode, lookup, seg, devAddr, addr, values, |dev.forwarded|, dev.forwardAnswer, steps);
        return Hangs(addr, values);
      }
      ghost var q := RawRead(devAddr, seg.funNumber, addr, Step(reg.value));
      var stop, addr', values' := SparseRound(dev, decode, lookup, seg, devAddr, addr, values, steps, reg.value, total, issued);
      if stop.Some? {
        return stop.value;
      }
      assert dev.forwarded == old(dev.forwarded) + (issued + [q]);
      issued := issued + [q];
      addr, values, steps := addr', values', steps - 1;
    }
  }

  /** What reading a segment sparsely does, given the oracle and the raw
      requests logged before and after: DevAddrs[0] panics on an empty list;
      otherwise the sparse walk from the start address, whose requests are
      logged and whose values are returned, never an error. */
  ghost predicate SparseOutcome(desc: Descriptor, seg: Segment, fuel: nat, answer: (nat, RawRequest) -> Result<seq<byte>>,
                                before: seq<RawRequest>, after: seq<RawRequest>, r: Result<Walk>)
  {
    if desc.configuration.devAddrs == [] then r == Err(Panic("index out of range")) && after == before
    else
      var t := SparseWalk(DecoderOf(desc), desc.FindRegisterByAddr, seg, desc.configuration.devAddrs[0], seg.startAddress, map[],
                          |before|, answer, fuel);
      r == Ok(t.0) && after == before + t.1
  }

  /** HandleSparse: the loop above from the segment's start address, with
      DevAddrs[0]. A failed raw read is only logged: the walk never returns
      an error once it has begun. */
  method HandleSparse(dev: Device, desc: Descriptor, seg: Segment, fuel: nat) returns (r: Result<Walk>)
    modifies dev
    ensures SparseOutcome(desc, seg, fuel, dev.forwardAnswer, old(dev.forwarded), dev.forwarded, r)
    ensures dev.sent == old(dev.sent)
  {
    if desc.configuration.devAddrs == [] {
      return Err(Panic("index out of range"));
    }
    var w := ReadRegisters(dev, DecoderOf(desc), desc.FindRegisterByAddr, seg, desc.configuration.devAddrs[0], fuel);
    r := Ok(w);
  }

  // ------------------------------------------------------------ command

  /** RegReadSegCommand.Handle: a loaded descriptor and a segment are
      required; an editable segment is read sparsely, any other one
      continuously. */
  method ReadSegment(dev: Device, desc: Option<Descriptor>, seg: Option<Segment>, fuel: nat) returns (r: Result<Walk>)
    modifies dev
    ensures desc.None? ==> r == Err(DescriptorNotLoaded) && dev.forwarded == old(dev.forwarded)
    ensures desc.Some? && seg.None? ==> r == Err(InvalidArguments) && dev.forwarded == old(dev.forwarded)
    ensures desc.Some? && seg.Some? && seg.value.canEdit ==>
      SparseOutcome(desc.value, seg.value, fuel, dev.forwardAnswer, old(dev.forwarded), dev.forwarded, r)
    ensures desc.Some? && seg.Some? && !seg.value.canEdit ==>
      ContinuousOutcome(desc.value, seg.value, fuel, dev.forwardAnswer, old(dev.forwarded), dev.forwarded, r)
    ensures desc.Some? && seg.Some? && seg.value.canEdit && desc.value.configuration.devAddrs != [] ==> r.Ok?
    ensures desc.Some? && seg.Some? && desc.value.configuration.devAddrs != [] && r.Err? ==>
      !seg.value.canEdit
      && var answer := dev.forwardAnswer(|old(dev.forwarded)|,
                                         RawRead(desc.value.configuration.devAddrs[0], seg.value.funNumber,
                                                 seg.value.startAddress, seg.value.length));
         answer.Err? && r == Err(answer.error)
    ensures dev.sent == old(dev.sent)
  {
    if desc.None? {
      return Err(DescriptorNotLoaded);
    }
    if seg.None? {
      return Err(InvalidArguments);
    }
    if seg.value.canEdit {
      r := HandleSparse(dev, desc.value, seg.value, fuel);
    } else {
      r := HandleContinuous(dev, desc.value, seg.value, fuel);
    }
  }
}

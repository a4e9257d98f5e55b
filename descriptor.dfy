/** The protocol descriptor (internal/protocol/descriptor.go): the register
    table, the segment groups of the configuration, the external enumeration
    tables, the searches over them, the check made after loading, and the
    custom JSON decoders of its scalar fields. */
module Descriptors {
  import opened Base
  import opened Text

  datatype Segment = Segment(canEdit: bool, length: u16, funNumber: byte, startAddress: u16)

  datatype Group = Group(title: map<string, string>, segments: seq<Segment>)

  datatype AddressOffset = AddressOffset(offsetType: int, offsetAddress: int, offsetBase: int)

  /** An external enumeration table of OtherCodes. */
  datatype ExternEnum = ExternEnum(variants: map<int, string>)

  /** A register's enumeration: inline variants (a JSON null name is None),
      or the name of an external table. */
  datatype Enumeration = Enumeration(variants: map<int, Option<string>>, external: Option<string>)

  datatype Configuration = Configuration(
    devAddrs: seq<byte>,
    systemSettingVC: seq<Group>,
    systemInfoVC: seq<Group>,
    writeMoreFunCode: byte,
    writeOneFunCode: byte,
    addressOffset: AddressOffset)

  const ByteSortLittleEndian: int := 1
  const ByteSortBigEndian: int := 0

  datatype Register = Register(
    address: u16,
    byteSort: int,
    length: Option<int>,
    title: map<string, string>,
    enumeration: Option<Enumeration>,
    valueType: int,
    units: string,
    scale: real)

  // ---------------------------------------------------------------- search

  /** The index of the first element satisfying p, or |s| when none does. */
  function FirstWhere<T>(s: seq<T>, p: T -> bool): (i: nat)
    ensures i <= |s|
    ensures i < |s| ==> p(s[i])
    ensures forall j | 0 <= j < i :: !p(s[j])
  {
    if s == [] then 0
    else if p(s[0]) then 0
    else 1 + FirstWhere(s[1..], p)
  }

  /** Every segment of the groups, group by group, in order. */
  function AllSegments(groups: seq<Group>): (r: seq<Segment>)
    ensures forall g | g in groups :: forall s | s in g.segments :: s in r
  {
    if groups == [] then [] else groups[0].segments + AllSegments(groups[1..])
  }

  /** The register's "base" title, when it has one, is `name`. */
  predicate HasBaseTitle(title: map<string, string>, name: string) {
    "base" in title && title["base"] == name
  }

  /** g.Title["base"], where a missing key reads as "". */
  function BaseTitle(title: map<string, string>): string {
    if "base" in title then title["base"] else ""
  }

  /** The segment test of FindRegister as written: the segment starts at or
      after the register, and its 16-bit end does too. */
  predicate SegmentMatches(s: Segment, address: u16) {
    s.startAddress >= address && U16(s.startAddress + s.length) >= address
  }

  /** Interval containment: the register lies in [start, start + length). */
  predicate SegmentContains(s: Segment, address: u16) {
    s.startAddress <= address < s.startAddress + s.length
  }

  /** The first register of `regs` at the address. */
  function FirstAtAddr(regs: seq<Register>, addr: u16): (r: Option<Register>)
    ensures r.Some? ==> r.value.address == addr && r.value in regs
  {
    if regs == [] then None
    else if regs[0].address == addr then Some(regs[0])
    else FirstAtAddr(regs[1..], addr)
  }

  /** No register is found exactly when none is at the address. */
  lemma {:induction false} FirstAtAddrNone(regs: seq<Register>, addr: u16)
    ensures FirstAtAddr(regs, addr).None? <==> forall i | 0 <= i < |regs| :: regs[i].address != addr
  {
    if regs != [] && regs[0].address != addr {
      FirstAtAddrNone(regs[1..], addr);
      assert forall i | 1 <= i < |regs| :: regs[i] == regs[1..][i - 1];
    }
  }

  /** The register found is the first one at the address. */
  lemma {:induction false} FirstAtAddrIsFirst(regs: seq<Register>, addr: u16)
    requires FirstAtAddr(regs, addr).Some?
    ensures exists i | 0 <= i < |regs| ::
      && regs[i] == FirstAtAddr(regs, addr).value
      && forall j | 0 <= j < i :: regs[j].address != addr
  {
    if regs[0].address != addr {
      FirstAtAddrIsFirst(regs[1..], addr);
      var i :| 0 <= i < |regs[1..]| && regs[1..][i] == FirstAtAddr(regs, addr).value
               && forall j | 0 <= j < i :: regs[1..][j].address != addr;
      assert regs[i + 1] == FirstAtAddr(regs, addr).value;
      forall j | 0 <= j < i + 1
        ensures regs[j].address != addr
      {
        if j > 0 {
          assert regs[j] == regs[1..][j - 1];
        }
      }
    } else {
      assert regs[0] == FirstAtAddr(regs, addr).value;
    }
  }

  datatype Descriptor = Descriptor(root: seq<Register>, configuration: Configuration, otherCodes: map<string, ExternEnum>)
  {
    /** The segments FindRegister scans: SystemInfoVC first, then
        SystemSettingVC. */
    function ScanOrder(): seq<Segment> {
      AllSegments(configuration.systemInfoVC) + AllSegments(configuration.systemSettingVC)
    }

    /** A Root register at the address, if any: the first one
        (FirstAtAddrIsFirst); none only when no register is there
        (FirstAtAddrNone). */
    function FindRegisterByAddr(addr: u16): (r: Option<Register>)
      ensures r.Some? ==> r.value.address == addr && r.value in root
    {
      FirstAtAddr(root, addr)
    }

    /** The first Root register titled `name`, and the first segment of the
        scan order that passes the segment test of the code as written
        (SegmentMatches); no register means no segment either. */
    function FindRegister(name: string): (r: (Option<Segment>, Option<Register>))
      ensures r.1.None? <==> forall i | 0 <= i < |root| :: !HasBaseTitle(root[i].title, name)
      ensures r.1.None? ==> r.0.None?
      ensures r.1.Some? ==> exists i | 0 <= i < |root| ::
        && root[i] == r.1.value && HasBaseTitle(root[i].title, name)
        && forall j | 0 <= j < i :: !HasBaseTitle(root[j].title, name)
      ensures r.1.Some? && r.0.None? ==> forall s | s in ScanOrder() :: !SegmentMatches(s, r.1.value.address)
      ensures r.0.Some? ==> exists k | 0 <= k < |ScanOrder()| ::
        && ScanOrder()[k] == r.0.value && SegmentMatches(r.0.value, r.1.value.address)
        && forall j | 0 <= j < k :: !SegmentMatches(ScanOrder()[j], r.1.value.address)
    {
      var i := FirstWhere(root, (reg: Register) => HasBaseTitle(reg.title, name));
      if i == |root| then (None, None)
      else
        var reg := root[i];
        var segs := ScanOrder();
        var k := FirstWhere(segs, (s: Segment) => SegmentMatches(s, reg.address));
        (if k < |segs| then Some(segs[k]) else None, Some(reg))
    }

    /** FindRegister with the segment chosen by containment: the first
        segment of the scan order whose range holds the register. */
    function FindRegisterContaining(name: string): (r: (Option<Segment>, Option<Register>))
      ensures r.1 == FindRegister(name).1
      ensures r.0.Some? ==> r.1.Some? && r.0.value in ScanOrder() && SegmentContains(r.0.value, r.1.value.address)
      ensures r.1.Some? && r.0.None? ==> forall s | s in ScanOrder() :: !SegmentContains(s, r.1.value.address)
      ensures r.0.Some? ==> exists k | 0 <= k < |ScanOrder()| ::
        && ScanOrder()[k] == r.0.value && SegmentContains(r.0.value, r.1.value.address)
        && forall j | 0 <= j < k :: !SegmentContains(ScanOrder()[j], r.1.value.address)
    {
      var reg := FindRegister(name).1;
      if reg.None? then (None, None)
      else
        var segs := ScanOrder();
        var k := FirstWhere(segs, (s: Segment) => SegmentContains(s, reg.value.address));
        (if k < |segs| then Some(segs[k]) else None, reg)
    }

    /** The segments of the first group titled `name`, SystemInfoVC first;
        an empty list when no group is. */
    function FindGroup(name: string): (r: seq<Segment>)
      ensures var groups := configuration.systemInfoVC + configuration.systemSettingVC;
        || (exists k | 0 <= k < |groups| ::
              && BaseTitle(groups[k].title) == name && r == groups[k].segments
              && forall j | 0 <= j < k :: BaseTitle(groups[j].title) != name)
        || (r == [] && forall g | g in groups :: BaseTitle(g.title) != name)
    {
      var groups := configuration.systemInfoVC + configuration.systemSettingVC;
      var k := FirstWhere(groups, (g: Group) => BaseTitle(g.title) == name);
      if k < |groups| then groups[k].segments else []
    }
  }

  /** The segment test is not containment: a register below a segment
      matches it, and the segment that holds the register is passed over. */
  lemma SegmentTestIsNotContainment()
    ensures var reg := Register(100, ByteSortBigEndian, None, map["base" := "load"], None, 1, "", 1.0);
      var above := Segment(false, 10, 3, 200);
      var holding := Segment(false, 20, 3, 90);
      var conf := Configuration([1], [], [Group(map[], [above, holding])], 0x10, 0x06, AddressOffset(0, 0, 0));
      var d := Descriptor([reg], conf, map[]);
      && d.FindRegister("load") == (Some(above), Some(reg))
      && !SegmentContains(above, 100)
      && d.FindRegisterContaining("load") == (Some(holding), Some(reg))
  {
    var reg := Register(100, ByteSortBigEndian, None, map["base" := "load"], None, 1, "", 1.0);
    var above := Segment(false, 10, 3, 200);
    var holding := Segment(false, 20, 3, 90);
    var conf := Configuration([1], [], [Group(map[], [above, holding])], 0x10, 0x06, AddressOffset(0, 0, 0));
    var d := Descriptor([reg], conf, map[]);
    assert AllSegments(conf.systemInfoVC) == [above, holding] by {
      assert conf.systemInfoVC[1..] == [];
    }
    assert d.ScanOrder() == [above, holding];
    assert HasBaseTitle(reg.title, "load");
    assert SegmentMatches(above, 100);
    assert !SegmentContains(above, 100) && SegmentContains(holding, 100);
  }

  // ----------------------------------------------------------- post-load

  /** LoadProtocolDescriptor after json.Unmarshal: a descriptor asking for an
      address offset (OffsetType != 0) is rejected; a parse error is passed
      through. */
  function CheckAddressing(parsed: Result<Descriptor>): (r: Result<Descriptor>)
    ensures r.Ok? <==> parsed.Ok? && parsed.value.configuration.addressOffset.offsetType == 0
    ensures r.Ok? ==> r == parsed
    ensures parsed.Err? ==> r == parsed
    ensures parsed.Ok? && r.Err? ==> r.error == UnsupportedAddressing
  {
    if parsed.Err? then parsed
    else if parsed.value.configuration.addressOffset.offsetType != 0 then Err(UnsupportedAddressing)
    else parsed
  }

  // ------------------------------------------------------ scalar decoders

  /** DevAddr.UnmarshalJSON on the raw JSON text: strip every '"' at either
      end, parse as a decimal int, keep the low eight bits. */
  function DecodeDevAddr(raw: string): (r: Result<byte>)
    ensures r.Ok? <==> Atoi(TrimQuotes(raw)).Ok?
    ensures r.Ok? ==> r.value == Atoi(TrimQuotes(raw)).value % 0x100
    ensures r.Err? ==> r.error == Atoi(TrimQuotes(raw)).error
  {
    var v := Atoi(TrimQuotes(raw));
    if v.Err? then Err(v.error) else Ok(Byte(v.value))
  }

  /** EnumVariant.UnmarshalJSON: the same, without truncation. */
  function DecodeEnumVariant(raw: string): (r: Result<int>)
    ensures r == Atoi(TrimQuotes(raw))
  {
    Atoi(TrimQuotes(raw))
  }

  /** Both decoders read a number written bare or quoted: any int64 comes
      back, the device address reduced modulo 256. */
  lemma DecodeScalars(n: int)
    requires MinInt64 <= n <= MaxInt64
    ensures DecodeEnumVariant(Itoa(n)) == Ok(n)
    ensures DecodeEnumVariant("\"" + Itoa(n) + "\"") == Ok(n)
    ensures DecodeDevAddr(Itoa(n)) == Ok(n % 0x100)
    ensures DecodeDevAddr("\"" + Itoa(n) + "\"") == Ok(n % 0x100)
  {
    var s := Itoa(n);
    TrimQuotesUnquoted(s);
    TrimQuotesQuoted(s);
    AtoiItoa(n);
  }

  lemma TrimQuotesUnquoted(s: string)
    requires |s| > 0 && s[0] != '"' && s[|s| - 1] != '"'
    ensures TrimQuotes(s) == s
  {
  }

  lemma TrimQuotesQuoted(s: string)
    requires |s| > 0 && s[0] != '"' && s[|s| - 1] != '"'
    ensures TrimQuotes("\"" + s + "\"") == s
  {
    var q := "\"" + s + "\"";
    assert q[1..] == s + "\"";
    assert LeadingQuotes(q) == 1;
    var t := q[1..];
    assert t[..|t| - 1] == s;
    assert TrailingQuotes(t) == 1;
  }

  /** ExternEnum.UnmarshalJSON's input as encoding/json presents it: an
      object (its "Base" member decoded into a map of strings, or the error
      that decoding reports), or any other JSON value. */
  datatype ExternJson = ExternObject(base: Result<map<string, string>>) | ExternNonObject

  /** Every parsed key of `base` is in `variants` under a name it carries,
      and every entry of `variants` comes from such a key. */
  predicate KeyedBy(variants: map<int, string>, base: map<string, string>, done: set<string>)
    requires done <= base.Keys
  {
    && (forall k | k in done :: Atoi(k).Ok? && Atoi(k).value in variants)
    && (forall n | n in variants :: exists k | k in done :: Atoi(k) == Ok(n) && base[k] == variants[n])
  }

  /** ExternEnum.UnmarshalJSON: for an object, every key of Base must be a
      decimal int, and the table maps it to its name; keys are visited in
      Go's unspecified map order, so which bad key is reported, and which
      name wins when two keys denote the same number ("1", "01"), is left
      open. Any non-object value gives an empty table. */
  method DecodeExternEnum(data: ExternJson) returns (r: Result<ExternEnum>)
    ensures data.ExternNonObject? ==> r == Ok(ExternEnum(map[]))
    ensures data.ExternObject? && data.base.Err? ==> r == Err(data.base.error)
    ensures data.ExternObject? && data.base.Ok? ==>
      (r.Ok? <==> forall k | k in data.base.value :: Atoi(k).Ok?)
    ensures data.ExternObject? && data.base.Ok? && r.Ok? ==>
      KeyedBy(r.value.variants, data.base.value, data.base.value.Keys)
    ensures data.ExternObject? && data.base.Ok? && r.Err? ==>
      r.error.BadEnumKey? && r.error.key in data.base.value && Atoi(r.error.key).Err?
  {
    if data.ExternNonObject? {
      return Ok(ExternEnum(map[]));
    }
    if data.base.Err? {
      return Err(data.base.error);
    }
    var base := data.base.value;
    var variants: map<int, string> := map[];
    var todo := base.Keys;
    while todo != {}
      invariant todo <= base.Keys
      invariant KeyedBy(variants, base, base.Keys - todo)
      decreases todo
    {
      var k :| k in todo;
      var num := Atoi(k);
      if num.Err? {
        return Err(BadEnumKey(k));
      }
      variants := variants[num.value := base[k]];
      todo := todo - {k};
    }
    r := Ok(ExternEnum(variants));
  }

  /** Enumeration.UnmarshalJSON's input: an object (its "Base" members in
      document order, or the error decoding them reports), a JSON string, or
      any other value. */
  datatype EnumJson =
    | EnumObject(base: Result<seq<(string, Option<string>)>>)
    | EnumString(name: string)
    | EnumOther

  /** The Base members with their keys parsed as ints. */
  function ParsedKeys(members: seq<(string, Option<string>)>): (r: seq<(Result<int>, Option<string>)>)
    ensures |r| == |members|
    ensures forall i | 0 <= i < |members| :: r[i] == (Atoi(members[i].0), members[i].1)
  {
    seq(|members|, i requires 0 <= i < |members| => (Atoi(members[i].0), members[i].1))
  }

  /** The map built from parsed members left to right, a later member
      overriding an earlier one; None when a key did not parse. */
  function BuildVariants(parsed: seq<(Result<int>, Option<string>)>): (r: Option<map<int, Option<string>>>)
    ensures r.Some? <==> forall i | 0 <= i < |parsed| :: parsed[i].0.Ok?
  {
    if parsed == [] then Some(map[])
    else
      var prefix := BuildVariants(parsed[..|parsed| - 1]);
      var (n, name) := parsed[|parsed| - 1];
      if prefix.None? || n.Err? then None
      else Some(prefix.value[n.value := name])
  }

  /** Every key is in the map, and each number carries the name of the last
      member whose key denotes it. */
  lemma {:induction false} BuildVariantsLastWins(parsed: seq<(Result<int>, Option<string>)>)
    requires BuildVariants(parsed).Some?
    ensures var m := BuildVariants(parsed).value;
      forall i | 0 <= i < |parsed| :: parsed[i].0.value in m
    ensures var m := BuildVariants(parsed).value;
      forall n | n in m :: exists i | 0 <= i < |parsed| ::
        && parsed[i].0 == Ok(n) && m[n] == parsed[i].1
        && forall j | i < j < |parsed| :: parsed[j].0 != Ok(n)
  {
    if parsed != [] {
      var last := |parsed| - 1;
      var init := parsed[..last];
      BuildVariantsLastWins(init);
      var prefix := BuildVariants(init).value;
      var n := parsed[last].0.value;
      var m := BuildVariants(parsed).value;
      assert m == prefix[n := parsed[last].1];
      forall i | 0 <= i < |parsed|
        ensures parsed[i].0.value in m
      {
        if i < last {
          assert parsed[i] == init[i];
        }
      }
      forall n' | n' in m
        ensures exists i | 0 <= i < |parsed| ::
          && parsed[i].0 == Ok(n') && m[n'] == parsed[i].1
          && forall j | i < j < |parsed| :: parsed[j].0 != Ok(n')
      {
        if n' != n {
          var i :| 0 <= i < |init| && init[i].0 == Ok(n') && prefix[n'] == init[i].1
                   && forall j | i < j < |init| :: init[j].0 != Ok(n');
          assert parsed[i] == init[i];
          forall j | i < j < |parsed|
            ensures parsed[j].0 != Ok(n')
          {
            if j < last {
              assert parsed[j] == init[j];
            }
          }
        }
      }
    }
  }

  /** The variants map encoding/json builds from the Base members. */
  function ParseVariants(members: seq<(string, Option<string>)>): Option<map<int, Option<string>>> {
    BuildVariants(ParsedKeys(members))
  }

  /** The string a failed Enumeration decode reports (json.Unmarshal into a
      string of something that is not one). */
  const NotAString: string := "cannot unmarshal into Go value of type string"

  /** Enumeration.UnmarshalJSON: first as an object with inline variants;
      failing that, as a string naming an external table; failing both, the
      second error. */
  function DecodeEnumeration(data: EnumJson): (r: Result<Enumeration>)
    ensures r.Ok? && r.value.external.Some? <==> data.EnumString?
    ensures data.EnumString? ==> r == Ok(Enumeration(map[], Some(data.name)))
    ensures data.EnumObject? ==> (r.Ok? <==> data.base.Ok? && ParseVariants(data.base.value).Some?)
    ensures data.EnumObject? && r.Ok? ==> r.value == Enumeration(ParseVariants(data.base.value).value, None)
    ensures data.EnumOther? ==> r.Err?
  {
    match data
    case EnumObject(base) =>
      if base.Ok? && ParseVariants(base.value).Some? then Ok(Enumeration(ParseVariants(base.value).value, None))
      else Err(Json(NotAString))
    case EnumString(name) => Ok(Enumeration(map[], Some(name)))
    case EnumOther => Err(Json(NotAString))
  }
}

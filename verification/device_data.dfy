/** The register engine `DeviceData`: whole-dataset and single-field reads
    and writes over the two versioned, checksummed registers. Every call
    resolves both layouts afresh (from storage, or for `Write` from the
    caller's buffer), and returns its result together with the trace of
    storage operations it issued. */
module DeviceData {
  import opened Errors
  import opened Crc
  import opened Layouts
  import opened VectorOperations
  import opened Storage

  /** The outcome of one engine call and the storage operations it issued. */
  datatype Run<T> = Run(result: Result<T>, trace: seq<Op>)

  /** `register_data_fields_`: the layouts in effect for one call. */
  datatype ActiveLayouts = ActiveLayouts(reg0: Layout, reg1: Layout) {
    function Of(reg: RegisterName): Layout {
      match reg
      case Register0 => reg0
      case Register1 => reg1
    }
  }

  /** What holds of the two layouts a valid registry hands out: each fits
      its register, and no field name is in both. */
  ghost predicate Resolved(ls: ActiveLayouts) {
    && Fits(Register0, ls.reg0)
    && Fits(Register1, ls.reg1)
    && (forall name :: HasField(ls.reg0, name) ==> !HasField(ls.reg1, name))
  }

  /** Any register0 layout and register1 layout of a valid registry are
      resolved together. */
  lemma SelectedResolved(registry: Registry, v0: int, v1: int)
    requires ValidRegistry(registry)
    requires v0 in registry.register0 && v1 in registry.register1
    ensures Resolved(ActiveLayouts(registry.register0[v0], registry.register1[v1]))
  {
  }

  /** The two one-byte version reads every storage-resolving call starts with. */
  const VersionReads: seq<Op> := [
    ReadOp(VersionSize, RegVersionOffset(Register0)),
    ReadOp(VersionSize, RegVersionOffset(Register1))
  ]

  /** The version byte stored for a register, as `static_cast<int>` reads it. */
  function StoredVersion(dev: Device, reg: RegisterName): int
    requires Valid(dev)
  {
    dev.mem[RegVersionOffset(reg)] as int
  }

  /** `ReadVersionFromOTP`: read both version bytes, then select register0's
      layout and register1's; an unknown version fails only after both
      bytes have been read. */
  function ReadVersionFromOTP(registry: Registry, dev: Device): (r: Run<ActiveLayouts>)
    requires ValidRegistry(registry) && Valid(dev)
    ensures r.trace == VersionReads && NoWrites(r.trace)
    ensures r.result.Ok? <==>
      StoredVersion(dev, Register0) in registry.register0 && StoredVersion(dev, Register1) in registry.register1
    ensures r.result.Err? ==> r.result.error == NoValidRegVersion
    ensures r.result.Ok? ==> r.result.value == ActiveLayouts(
      registry.register0[StoredVersion(dev, Register0)], registry.register1[StoredVersion(dev, Register1)])
    ensures r.result.Ok? ==> Resolved(r.result.value)
  {
    var v0 := Fetch(dev, VersionSize, RegVersionOffset(Register0))[0] as int;
    var v1 := Fetch(dev, VersionSize, RegVersionOffset(Register1))[0] as int;
    match SelectRegLayout(registry, Register0, v0)
    case Err(e) => Run(Err(e), VersionReads)
    case Ok(l0) =>
      match SelectRegLayout(registry, Register1, v1)
      case Err(e) => Run(Err(e), VersionReads)
      case Ok(l1) =>
        SelectedResolved(registry, v0, v1);
        Run(Ok(ActiveLayouts(l0, l1)), VersionReads)
  }

  /** The payload length of a register: its size without the checksum. */
  function PayloadSize(layout: Layout): int {
    RegisterSize(layout) - CrcSize
  }

  /** `ReadVersionFromData`: register0's version is the buffer's first byte;
      register1's is the first byte after register0's payload, and a buffer
      that ends before it is a size error. An empty buffer is undefined
      behaviour in the source. */
  function ReadVersionFromData(registry: Registry, data: seq<bv8>): (r: Result<ActiveLayouts>)
    requires ValidRegistry(registry) && |data| > 0
    ensures r.Err? ==> r.error == NoValidRegVersion || r.error == DataSizeError
    ensures data[0] as int !in registry.register0 ==> r == Err(NoValidRegVersion)
    ensures data[0] as int in registry.register0 && |data| <= PayloadSize(registry.register0[data[0] as int])
      ==> r == Err(DataSizeError)
    ensures r.Ok? ==> Resolved(r.value)
    ensures r.Ok? ==> 0 < PayloadSize(r.value.reg0) < |data|
    ensures r.Ok? ==> data[0] as int in registry.register0 && r.value.reg0 == registry.register0[data[0] as int]
    ensures r.Ok? ==>
      && data[PayloadSize(r.value.reg0)] as int in registry.register1
      && r.value.reg1 == registry.register1[data[PayloadSize(r.value.reg0)] as int]
  {
    match SelectRegLayout(registry, Register0, data[0] as int)
    case Err(e) => Err(e)
    case Ok(l0) =>
      var reg0DataSize := Extent(Register0, l0) - CrcSize;
      if |data| > reg0DataSize then
        match SelectRegLayout(registry, Register1, data[reg0DataSize] as int)
        case Err(e) => Err(e)
        case Ok(l1) =>
          SelectedResolved(registry, data[0] as int, data[reg0DataSize] as int);
          Ok(ActiveLayouts(l0, l1))
      else
        Err(DataSizeError)
  }

  /** `ParseData`: split the buffer at register0's payload length, demand
      that the rest is exactly register1's payload, and frame each half with
      its checksum. */
  function ParseData(ls: ActiveLayouts, data: seq<bv8>): (r: Result<(seq<bv8>, seq<bv8>)>)
    requires Resolved(ls)
    ensures r.Ok? <==> |data| == PayloadSize(ls.reg0) + PayloadSize(ls.reg1)
    ensures r.Err? ==> r.error == DataSizeError
    ensures r.Ok? ==> |r.value.0| == RegisterSize(ls.reg0) && |r.value.1| == RegisterSize(ls.reg1)
    ensures r.Ok? ==> CheckDataCrc(r.value.0).Ok? && CheckDataCrc(r.value.1).Ok?
    ensures r.Ok? ==> r.value.0[CrcSize..] + r.value.1[CrcSize..] == data
  {
    FieldsTileRegister(Register0, ls.reg0);
    FieldsTileRegister(Register1, ls.reg1);
    var reg0DataSize := PayloadSize(ls.reg0);
    var reg1DataSize := PayloadSize(ls.reg1);
    if |data| != reg0DataSize + reg1DataSize then
      Err(DataSizeError)
    else
      var reg0Data := data[..reg0DataSize];
      var reg1Data := data[reg0DataSize..];
      assert reg0Data + reg1Data == data;
      CheckAfterAdd(reg0Data);
      CheckAfterAdd(reg1Data);
      Ok((AddDataCrc(reg0Data), AddDataCrc(reg1Data)))
  }

  /** `DeviceData::Write`: resolve the layouts from the buffer itself, split
      and frame it, then write register0 and register1 at their bases.
      Nothing is written unless the whole buffer is accepted. */
  function Write(registry: Registry, dev: Device, data: seq<bv8>): (r: Run<()>)
    requires ValidRegistry(registry) && Valid(dev) && |data| > 0
    ensures r.result.Err? ==> r.trace == []
    ensures r.result.Err? ==> r.result.error == NoValidRegVersion || r.result.error == DataSizeError
    ensures r.result.Ok? ==>
      && |r.trace| == 2
      && r.trace[0].WriteOp? && r.trace[0].offset == Base(Register0)
      && r.trace[1].WriteOp? && r.trace[1].offset == Base(Register1)
      && |r.trace[0].bytes| >= CrcSize && |r.trace[1].bytes| >= CrcSize
      && CheckDataCrc(r.trace[0].bytes).Ok? && CheckDataCrc(r.trace[1].bytes).Ok?
      && r.trace[0].bytes[CrcSize..] + r.trace[1].bytes[CrcSize..] == data
    ensures r.result.Ok? ==>
      && ReadVersionFromData(registry, data).Ok?
      && |r.trace[0].bytes| == RegisterSize(ReadVersionFromData(registry, data).value.reg0)
      && |r.trace[1].bytes| == RegisterSize(ReadVersionFromData(registry, data).value.reg1)
    ensures WritesFit(r.trace, |dev.mem|)
  {
    match ReadVersionFromData(registry, data)
    case Err(e) => Run(Err(e), [])
    case Ok(ls) =>
      match ParseData(ls, data)
      case Err(e) => Run(Err(e), [])
      case Ok(regs) =>
        var w0 := WriteOp(regs.0, GetCrcOffset(Register0, ls.reg0));
        var w1 := WriteOp(regs.1, GetCrcOffset(Register1, ls.reg1));
        Run(Ok(()), [w0, w1])
  }

  /** `GetRegisterName`: the first register whose active layout has the
      field, or "Invalid data field: <name>". */
  function GetRegisterName(ls: ActiveLayouts, name: string): (r: Result<RegisterName>)
    ensures r == Ok(Register0) <==> HasField(ls.reg0, name)
    ensures r == Ok(Register1) <==> !HasField(ls.reg0, name) && HasField(ls.reg1, name)
    ensures r.Err? ==> r.error == InvalidDataField(name)
  {
    if GetDataField(ls.reg0, name).Ok? then Ok(Register0)
    else if GetDataField(ls.reg1, name).Ok? then Ok(Register1)
    else Err(InvalidDataField(name))
  }

  /** A located field: the register that holds it and its size and offset. */
  datatype Location = Location(reg: RegisterName, field: DataField)

  function Other(reg: RegisterName): RegisterName {
    match reg
    case Register0 => Register1
    case Register1 => Register0
  }

  /** The field lies inside its register under the active layouts. */
  predicate Inside(ls: ActiveLayouts, loc: Location) {
    && Base(loc.reg) <= loc.field.offset
    && loc.field.offset + loc.field.size <= Base(loc.reg) + RegisterSize(ls.Of(loc.reg))
  }

  /** Where a named field lives: `GetRegisterName` followed by
      `GetDataField`, as both single-field operations do. The register is
      the only one whose layout has the name, and the field lies inside it. */
  function LocateField(ls: ActiveLayouts, name: string): (r: Result<Location>)
    requires Resolved(ls)
    ensures r.Ok? <==> HasField(ls.reg0, name) || HasField(ls.reg1, name)
    ensures r.Err? ==> r.error == InvalidDataField(name)
    ensures r.Ok? ==> HasField(ls.Of(r.value.reg), name) && GetDataField(ls.Of(r.value.reg), name) == Ok(r.value.field)
    ensures r.Ok? ==> !HasField(ls.Of(Other(r.value.reg)), name)
    ensures r.Ok? ==> Inside(ls, r.value)
  {
    var reg :- GetRegisterName(ls, name);
    var field := GetDataField(ls.Of(reg), name).value;
    FieldInsideRegister(reg, ls.Of(reg), name);
    Ok(Location(reg, field))
  }

  /** The medium range a register occupies under its layout. */
  function Extent(reg: RegisterName, layout: Layout): (size: nat)
    requires WellFormed(reg, layout)
    ensures size == RegisterSize(layout) >= CrcSize + VersionSize
  {
    FieldsTileRegister(reg, layout);
    RegisterSize(layout)
  }

  /** Read a whole register and check its checksum: the read-and-verify
      step of `Read` and `ReadField`. */
  function FetchChecked(dev: Device, size: nat, base: nat): (r: Run<seq<bv8>>)
    requires base + size <= |dev.mem| && size >= CrcSize
    ensures r.trace == [ReadOp(size, base)] && NoWrites(r.trace)
    ensures r.result.Ok? <==> CheckDataCrc(dev.mem[base..base + size]).Ok?
    ensures r.result.Err? ==> r.result.error == CrcFailed
    ensures r.result.Ok? ==> r.result.value == dev.mem[base..base + size]
  {
    var buf := Fetch(dev, size, base);
    match CheckDataCrc(buf)
    case Err(e) => Run(Err(e), [ReadOp(size, base)])
    case Ok(_) => Run(Ok(buf), [ReadOp(size, base)])
  }

  /** A field update of a register buffer: same length, valid checksum, the
      bytes `[position, position + |value|)` replaced by `value`, and every
      other byte after the checksum unchanged. */
  predicate FieldUpdate(before: seq<bv8>, after: seq<bv8>, position: int, value: seq<bv8>) {
    && |after| == |before| >= CrcSize
    && CheckDataCrc(after).Ok?
    && forall k :: CrcSize <= k < |before| ==>
         after[k] == if position <= k < position + |value| then value[k - position] else before[k]
  }

  /** `after` is `before` with `value` written at `offset`, inside the
      register `[base, base + size)` behind its checksum: the field holds
      the value, the register's checksum is valid, and no byte outside the
      field and the checksum changed. */
  predicate FieldWritten(before: Device, after: Device, base: nat, size: nat, offset: nat, value: seq<bv8>) {
    && |after.mem| == |before.mem| && after.serial == before.serial
    && base + CrcSize <= offset && offset + |value| <= base + size <= |before.mem|
    && after.mem[offset..offset + |value|] == value
    && CheckDataCrc(after.mem[base..base + size]).Ok?
    && forall k :: 0 <= k < |before.mem| && !(offset <= k < offset + |value|) && !(base <= k < base + CrcSize) ==>
         after.mem[k] == before.mem[k]
  }

  /** The read-modify-write tail of `WriteField`: read the register, splice
      the value in at `position`, recompute the checksum, write it back. */
  function RewriteField(dev: Device, size: nat, base: nat, position: nat, data: seq<bv8>): (r: Run<()>)
    requires base + size <= |dev.mem| && size >= CrcSize
    ensures |r.trace| >= 1 && r.trace[0] == ReadOp(size, base)
    ensures r.result.Ok? <==> position + |data| <= size
    ensures r.result.Err? ==> r == Run(Err(CannotReplace), [ReadOp(size, base)])
    ensures r.result.Ok? ==>
      && |r.trace| == 2
      && r.trace[1].WriteOp?
      && r.trace[1].offset == base
      && FieldUpdate(dev.mem[base..base + size], r.trace[1].bytes, position, data)
    ensures WritesFit(r.trace, |dev.mem|)
  {
    var buf := Fetch(dev, size, base);
    match Replace(buf, data, position)
    case Err(e) => Run(Err(e), [ReadOp(size, base)])
    case Ok(spliced) =>
      var out := ReplaceDataCrc(spliced);
      Run(Ok(()), [ReadOp(size, base), WriteOp(out, base)])
  }

  /** `std::regex_match(name, "(VERSION_REG)(.*)")`: the prefix
      "VERSION_REG" followed by bytes other than `\n` and `\r`, the only
      `char` values ECMAScript's `.` does not match. */
  predicate IsVersionName(name: string) {
    && |name| >= 11
    && name[..11] == "VERSION_REG"
    && forall k :: 11 <= k < |name| ==> name[k] != '\n' && name[k] != '\r'
  }

  /** The part of `WriteField` after the field is located: check the
      value's length before touching storage, then read the register,
      replace the field, recompute the checksum and write it back. */
  function WriteLocated(dev: Device, ls: ActiveLayouts, loc: Location, data: seq<bv8>): (r: Run<()>)
    requires Valid(dev) && Resolved(ls) && Inside(ls, loc)
    ensures r.result.Ok? <==> |data| == loc.field.size
    ensures r.result.Err? ==> r == Run(Err(InvalidFieldSize), [])
    ensures r.result.Ok? ==>
      && |r.trace| == 2
      && r.trace[0] == ReadOp(RegisterSize(ls.Of(loc.reg)), Base(loc.reg))
      && r.trace[1].WriteOp?
      && r.trace[1].offset == Base(loc.reg)
      && FieldUpdate(dev.mem[Base(loc.reg)..Base(loc.reg) + RegisterSize(ls.Of(loc.reg))],
                     r.trace[1].bytes, loc.field.offset - Base(loc.reg), data)
    ensures WritesFit(r.trace, |dev.mem|)
  {
    if |data| != loc.field.size then
      Run(Err(InvalidFieldSize), [])
    else
      var crcOffset := GetCrcOffset(loc.reg, ls.Of(loc.reg));
      RewriteField(dev, Extent(loc.reg, ls.Of(loc.reg)), crcOffset, loc.field.offset - crcOffset, data)
  }

  /** `DeviceData::WriteField`: reject version fields before touching
      storage; resolve the layouts from storage; locate the field; then
      write it. The stored checksum is not checked first. */
  function WriteField(registry: Registry, dev: Device, name: string, data: seq<bv8>): (r: Run<()>)
    requires ValidRegistry(registry) && Valid(dev)
    ensures IsVersionName(name) ==> r == Run(Err(CannotModifyVersion), [])
    ensures !IsVersionName(name) ==> |r.trace| >= 2 && r.trace[..2] == VersionReads
    ensures r.result.Err? ==> NoWrites(r.trace)
    ensures WritesFit(r.trace, |dev.mem|)
  {
    if IsVersionName(name) then
      Run(Err(CannotModifyVersion), [])
    else
      var versions := ReadVersionFromOTP(registry, dev);
      match versions.result
      case Err(e) => Run(Err(e), versions.trace)
      case Ok(ls) =>
        match LocateField(ls, name)
        case Err(e) => Run(Err(e), versions.trace)
        case Ok(loc) =>
          var tail := WriteLocated(dev, ls, loc, data);
          TraceAppend(versions.trace, tail.trace, |dev.mem|);
          Run(tail.result, versions.trace + tail.trace)
  }

  /** The stored bytes of a whole register, checksum first, under a layout. */
  function StoredRegister(dev: Device, reg: RegisterName, layout: Layout): (bytes: seq<bv8>)
    requires Valid(dev) && Fits(reg, layout)
    ensures |bytes| == RegisterSize(layout) >= CrcSize + VersionSize
  {
    FieldsTileRegister(reg, layout);
    dev.mem[Base(reg)..Base(reg) + RegisterSize(layout)]
  }

  /** The stored bytes of a register after its checksum, under a layout. */
  function Payload(dev: Device, reg: RegisterName, layout: Layout): seq<bv8>
    requires Valid(dev) && Fits(reg, layout) && RegisterSize(layout) >= CrcSize
  {
    dev.mem[Base(reg) + CrcSize..Base(reg) + RegisterSize(layout)]
  }

  /** The register loop of `DeviceData::Read`: for register0 and then
      register1, read the whole register, check its checksum and drop the
      two checksum bytes; a failed check ends the loop. */
  function ReadRegisters(dev: Device, ls: ActiveLayouts): (r: Run<seq<bv8>>)
    requires Valid(dev) && Resolved(ls)
    ensures NoWrites(r.trace)
    ensures r.result.Ok? <==>
      && CheckDataCrc(StoredRegister(dev, Register0, ls.reg0)).Ok?
      && CheckDataCrc(StoredRegister(dev, Register1, ls.reg1)).Ok?
    ensures r.result.Err? ==> r.result.error == CrcFailed
    ensures r.result.Ok? ==>
      r.result.value == Payload(dev, Register0, ls.reg0) + Payload(dev, Register1, ls.reg1)
    ensures CheckDataCrc(StoredRegister(dev, Register0, ls.reg0)).Err? ==>
      r.trace == [ReadOp(RegisterSize(ls.reg0), Base(Register0))]
    ensures CheckDataCrc(StoredRegister(dev, Register0, ls.reg0)).Ok? ==>
      r.trace == [ReadOp(RegisterSize(ls.reg0), Base(Register0)), ReadOp(RegisterSize(ls.reg1), Base(Register1))]
  {
    ReadPayloads(dev, GetCrcOffset(Register0, ls.reg0), Extent(Register0, ls.reg0),
                 GetCrcOffset(Register1, ls.reg1), Extent(Register1, ls.reg1))
  }

  /** The register loop once both extents are known: read `[base0, base0 +
      size0)` and check it, then the same for the second register, and
      return both payloads; the first failed check ends the loop. */
  function ReadPayloads(dev: Device, base0: nat, size0: nat, base1: nat, size1: nat): (r: Run<seq<bv8>>)
    requires base0 + size0 <= |dev.mem| && size0 >= CrcSize
    requires base1 + size1 <= |dev.mem| && size1 >= CrcSize
    ensures NoWrites(r.trace)
    ensures r.result.Ok? <==>
      CheckDataCrc(dev.mem[base0..base0 + size0]).Ok? && CheckDataCrc(dev.mem[base1..base1 + size1]).Ok?
    ensures r.result.Err? ==> r.result.error == CrcFailed
    ensures r.result.Ok? ==>
      r.result.value == dev.mem[base0 + CrcSize..base0 + size0] + dev.mem[base1 + CrcSize..base1 + size1]
    ensures CheckDataCrc(dev.mem[base0..base0 + size0]).Err? ==> r.trace == [ReadOp(size0, base0)]
    ensures CheckDataCrc(dev.mem[base0..base0 + size0]).Ok? ==> r.trace == [ReadOp(size0, base0), ReadOp(size1, base1)]
  {
    var first := FetchChecked(dev, size0, base0);
    match first.result
    case Err(e) => Run(Err(e), [ReadOp(size0, base0)])
    case Ok(data0) =>
      var second := FetchChecked(dev, size1, base1);
      match second.result
      case Err(e) => Run(Err(e), [ReadOp(size0, base0), ReadOp(size1, base1)])
      case Ok(data1) =>
        DropCrc(dev.mem, base0, size0);
        DropCrc(dev.mem, base1, size1);
        Run(Ok(data0[CrcSize..] + data1[CrcSize..]), [ReadOp(size0, base0), ReadOp(size1, base1)])
  }

  /** A register's bytes without the checksum are the storage range after
      the checksum. */
  lemma DropCrc(mem: seq<bv8>, base: nat, size: nat)
    requires CrcSize <= size && base + size <= |mem|
    ensures mem[base..base + size][CrcSize..] == mem[base + CrcSize..base + size]
  {
  }

  /** A range of a register's bytes is the matching storage range. */
  lemma SliceOfSlice(mem: seq<bv8>, base: nat, size: nat, position: nat, length: nat)
    requires base + size <= |mem| && position + length <= size
    ensures mem[base..base + size][position..position + length] == mem[base + position..base + position + length]
  {
    var register := mem[base..base + size];
    var inner := register[position..position + length];
    var outer := mem[base + position..base + position + length];
    forall k | 0 <= k < length
      ensures inner[k] == outer[k]
    {
      assert inner[k] == register[position + k];
    }
    assert inner == outer;
  }

  /** `DeviceData::Read`: resolve the layouts from storage, then read both
      registers' payloads. */
  function Read(registry: Registry, dev: Device): (r: Run<seq<bv8>>)
    requires ValidRegistry(registry) && Valid(dev)
    ensures |r.trace| >= 2 && r.trace[..2] == VersionReads
    ensures NoWrites(r.trace)
    ensures r.result.Err? ==> r.result.error == NoValidRegVersion || r.result.error == CrcFailed
    ensures ReadVersionFromOTP(registry, dev).result.Err? ==> r == Run(Err(NoValidRegVersion), VersionReads)
    ensures ReadVersionFromOTP(registry, dev).result.Ok? ==>
      r.trace == VersionReads + ReadRegisters(dev, ReadVersionFromOTP(registry, dev).result.value).trace
  {
    var versions := ReadVersionFromOTP(registry, dev);
    match versions.result
    case Err(e) => Run(Err(e), versions.trace)
    case Ok(ls) =>
      var regs := ReadRegisters(dev, ls);
      TraceAppend(versions.trace, regs.trace, |dev.mem|);
      Run(regs.result, versions.trace + regs.trace)
  }

  /** The part of `ReadField` after the field is located: read the whole
      register, check its checksum, and cut the field out. The bytes are
      the storage range the layout gives the field. */
  function ReadLocated(dev: Device, ls: ActiveLayouts, loc: Location): (r: Run<seq<bv8>>)
    requires Valid(dev) && Resolved(ls) && Inside(ls, loc)
    ensures r.trace == [ReadOp(RegisterSize(ls.Of(loc.reg)), Base(loc.reg))] && NoWrites(r.trace)
    ensures r.result.Ok? <==>
      CheckDataCrc(StoredRegister(dev, loc.reg, ls.Of(loc.reg))).Ok?
    ensures r.result.Err? ==> r.result.error == CrcFailed
    ensures r.result.Ok? ==> r.result.value == dev.mem[loc.field.offset..loc.field.offset + loc.field.size]
  {
    ReadFieldBytes(dev, Extent(loc.reg, ls.Of(loc.reg)), GetCrcOffset(loc.reg, ls.Of(loc.reg)), loc.field)
  }

  /** The tail of `ReadField` once the register's extent is known: read the
      register `[base, base + size)` whole, check its checksum, and cut the
      field out at `field.offset - base`. */
  function ReadFieldBytes(dev: Device, size: nat, base: nat, field: DataField): (r: Run<seq<bv8>>)
    requires base + size <= |dev.mem| && size >= CrcSize
    requires base <= field.offset && field.offset + field.size <= base + size
    ensures r.trace == [ReadOp(size, base)] && NoWrites(r.trace)
    ensures r.result.Ok? <==> CheckDataCrc(dev.mem[base..base + size]).Ok?
    ensures r.result.Err? ==> r.result.error == CrcFailed
    ensures r.result.Ok? ==> r.result.value == dev.mem[field.offset..field.offset + field.size]
  {
    var whole := FetchChecked(dev, size, base);
    match whole.result
    case Err(e) => Run(Err(e), whole.trace)
    case Ok(buf) =>
      var position := field.offset - base;
      SliceOfSlice(dev.mem, base, size, position, field.size);
      Run(Ok(buf[position..position + field.size]), whole.trace)
  }

  /** `DeviceData::ReadField`: the serial number bypasses the registers;
      any other name is resolved like `WriteField`, its register read whole
      and checksum-checked, and the field's bytes returned. */
  function ReadField(registry: Registry, dev: Device, name: string): (r: Run<seq<bv8>>)
    requires ValidRegistry(registry) && Valid(dev)
    ensures name == KeySerial ==> r == Run(Ok(dev.serial), [ReadSerialOp]) && |r.result.value| == SerialSize
    ensures name != KeySerial ==> |r.trace| >= 2 && r.trace[..2] == VersionReads
    ensures NoWrites(r.trace)
    ensures r.result.Err? ==>
      r.result.error == NoValidRegVersion || r.result.error == InvalidDataField(name) || r.result.error == CrcFailed
    ensures name != KeySerial && r.result.Err? && r.result.error != CrcFailed ==> r.trace == VersionReads
    ensures name != KeySerial && r.result.Err? && r.result.error == CrcFailed ==> |r.trace| == 3
  {
    if name == KeySerial then
      Run(Ok(dev.serial), [ReadSerialOp])
    else
      var versions := ReadVersionFromOTP(registry, dev);
      match versions.result
      case Err(e) => Run(Err(e), versions.trace)
      case Ok(ls) =>
        match LocateField(ls, name)
        case Err(e) => Run(Err(e), versions.trace)
        case Ok(loc) =>
          var tail := ReadLocated(dev, ls, loc);
          TraceAppend(versions.trace, tail.trace, |dev.mem|);
          Run(tail.result, versions.trace + tail.trace)
  }
}

/** What the engine's operations promise together: a whole-dataset write is
    read back unchanged, a single-field write is read back unchanged and
    touches only its field and its register's checksum, and the shipped
    registry accepts exactly versions 1 and 0–2 with the expected sizes. */
module DeviceDataProofs {
  import opened Errors
  import opened Crc
  import opened Layouts
  import opened Storage
  import opened DeviceData

  /** Two writes at the register bases, register0's ending before
      register1's base: afterwards each register holds what was written. */
  lemma StoreBoth(dev: Device, b0: seq<bv8>, b1: seq<bv8>)
    requires Valid(dev)
    requires Base(Register0) + |b0| <= Base(Register1) && Base(Register1) + |b1| <= StorageSize
    ensures Apply(dev, [WriteOp(b0, Base(Register0)), WriteOp(b1, Base(Register1))]).mem[Base(Register0)..Base(Register0) + |b0|] == b0
    ensures Apply(dev, [WriteOp(b0, Base(Register0)), WriteOp(b1, Base(Register1))]).mem[Base(Register1)..Base(Register1) + |b1|] == b1
  {
    var w0 := WriteOp(b0, Base(Register0));
    var w1 := WriteOp(b1, Base(Register1));
    assert [w0, w1] == [w0] + [w1];
    ApplyAppend(dev, [w0], [w1]);
    ApplyOne(dev, w0);
    var mid := Store(dev, b0, Base(Register0));
    ApplyOne(mid, w1);
    var after := Store(mid, b1, Base(Register1));
    assert after.mem[Base(Register0)..Base(Register0) + |b0|] == b0 by {
      forall k | 0 <= k < |b0|
        ensures after.mem[Base(Register0) + k] == b0[k]
      {
      }
    }
    assert after.mem[Base(Register1)..Base(Register1) + |b1|] == b1 by {
      forall k | 0 <= k < |b1|
        ensures after.mem[Base(Register1) + k] == b1[k]
      {
      }
    }
  }

  /** After a successful `Write`, storage holds both framed registers, and
      its version bytes select the layouts the written buffer named. */
  lemma WrittenState(registry: Registry, dev: Device, data: seq<bv8>)
    requires ValidRegistry(registry) && Valid(dev) && |data| > 0
    requires Write(registry, dev, data).result.Ok?
    ensures var w := Write(registry, dev, data);
      var after := Apply(dev, w.trace);
      && Valid(after)
      && Framed(after, ReadVersionFromData(registry, data).value, w.trace[0].bytes, w.trace[1].bytes, data)
      && ReadVersionFromOTP(registry, after).result == Ok(ReadVersionFromData(registry, data).value)
  {
    var w := Write(registry, dev, data);
    var ls := ReadVersionFromData(registry, data).value;
    var b0 := w.trace[0].bytes;
    var b1 := w.trace[1].bytes;
    assert w.trace == [WriteOp(b0, Base(Register0)), WriteOp(b1, Base(Register1))];
    StoreBoth(dev, b0, b1);
    FramedVersions(Apply(dev, w.trace), ls, b0, b1, data);
  }

  /** Framed registers carry their version bytes where the buffer does:
      register0's first payload byte and register1's. */
  lemma FramedVersions(dev: Device, ls: ActiveLayouts, b0: seq<bv8>, b1: seq<bv8>, data: seq<bv8>)
    requires Valid(dev) && Resolved(ls) && Framed(dev, ls, b0, b1, data)
    ensures PayloadSize(ls.reg0) < |data|
    ensures StoredVersion(dev, Register0) == data[0] as int
    ensures StoredVersion(dev, Register1) == data[PayloadSize(ls.reg0)] as int
  {
    FieldsTileRegister(Register0, ls.reg0);
    FieldsTileRegister(Register1, ls.reg1);
    assert b0[CrcSize..][0] == data[0];
    assert dev.mem[RegVersionOffset(Register0)] == dev.mem[Base(Register0)..Base(Register0) + |b0|][2];
    assert b1[CrcSize..][0] == data[PayloadSize(ls.reg0)];
    assert dev.mem[RegVersionOffset(Register1)] == dev.mem[Base(Register1)..Base(Register1) + |b1|][2];
  }

  /** Storage holds the checksum-framed buffers `b0` and `b1` at the two
      register bases, sized by `ls`, and their payloads make up `data`. */
  predicate Framed(dev: Device, ls: ActiveLayouts, b0: seq<bv8>, b1: seq<bv8>, data: seq<bv8>) {
    && |b0| == RegisterSize(ls.reg0) && |b1| == RegisterSize(ls.reg1)
    && |b0| >= CrcSize && |b1| >= CrcSize
    && Base(Register0) + |b0| <= |dev.mem| && Base(Register1) + |b1| <= |dev.mem|
    && dev.mem[Base(Register0)..Base(Register0) + |b0|] == b0
    && dev.mem[Base(Register1)..Base(Register1) + |b1|] == b1
    && CheckDataCrc(b0).Ok? && CheckDataCrc(b1).Ok?
    && b0[CrcSize..] + b1[CrcSize..] == data
  }

  /** After a successful `Write`, both stored registers pass their checksum
      check under the layouts the buffer named, and their payloads are the
      buffer. */
  lemma WrittenRegisters(registry: Registry, dev: Device, data: seq<bv8>)
    requires ValidRegistry(registry) && Valid(dev) && |data| > 0
    requires Write(registry, dev, data).result.Ok?
    ensures var after := Apply(dev, Write(registry, dev, data).trace);
      var ls := ReadVersionFromData(registry, data).value;
      && Valid(after)
      && ReadRegisters(after, ls).result == Ok(data)
  {
    WrittenState(registry, dev, data);
    var w := Write(registry, dev, data);
    RegistersHold(Apply(dev, w.trace), ReadVersionFromData(registry, data).value, w.trace[0].bytes, w.trace[1].bytes, data);
  }

  /** Storage whose two registers hold checksum-framed buffers reads back as
      the two payloads. */
  lemma RegistersHold(dev: Device, ls: ActiveLayouts, b0: seq<bv8>, b1: seq<bv8>, data: seq<bv8>)
    requires Valid(dev) && Resolved(ls) && Framed(dev, ls, b0, b1, data)
    ensures ReadRegisters(dev, ls).result == Ok(data)
  {
    assert Payload(dev, Register0, ls.reg0) == b0[CrcSize..];
    assert Payload(dev, Register1, ls.reg1) == b1[CrcSize..];
  }

  /** `Write` then `Read`: the dataset comes back unchanged. The version
      bytes `Read` resolves its layouts from are the ones the written
      buffer carried, so it reads exactly the two ranges that were written,
      and both checksums are the ones `Write` computed. */
  lemma WriteThenRead(registry: Registry, dev: Device, data: seq<bv8>)
    requires ValidRegistry(registry) && Valid(dev) && |data| > 0
    requires Write(registry, dev, data).result.Ok?
    ensures Valid(Apply(dev, Write(registry, dev, data).trace))
    ensures Read(registry, Apply(dev, Write(registry, dev, data).trace)).result == Ok(data)
  {
    WrittenState(registry, dev, data);
    var after := Apply(dev, Write(registry, dev, data).trace);
    var ls := ReadVersionFromData(registry, data).value;
    WrittenRegisters(registry, dev, data);
    ReadResolved(registry, after, ls);
  }

  /** Once the stored versions resolve to `ls`, `Read` is the register loop
      under `ls`. */
  lemma ReadResolved(registry: Registry, dev: Device, ls: ActiveLayouts)
    requires ValidRegistry(registry) && Valid(dev)
    requires ReadVersionFromOTP(registry, dev).result == Ok(ls)
    ensures Resolved(ls)
    ensures Read(registry, dev).result == ReadRegisters(dev, ls).result
  {
  }

  /** With the shipped registry, storage resolves exactly when register0's
      version byte is 1 and register1's is 0, 1 or 2, and the registers
      then have their expected sizes. */
  lemma ProdVersionsFromOTP(dev: Device)
    requires Valid(dev)
    ensures ValidRegistry(ProdRegistry)
    ensures ReadVersionFromOTP(ProdRegistry, dev).result.Ok? <==> dev.mem[2] == 1 && dev.mem[258] <= 2
    ensures ReadVersionFromOTP(ProdRegistry, dev).result.Ok? ==>
      && RegisterSize(ReadVersionFromOTP(ProdRegistry, dev).result.value.reg0) == ExpectedSize(Register0, 1)
      && RegisterSize(ReadVersionFromOTP(ProdRegistry, dev).result.value.reg1)
         == ExpectedSize(Register1, dev.mem[258] as int)
  {
    ProdRegistryValid();
    ProdSelect(Register0, dev.mem[2] as int);
    ProdSelect(Register1, dev.mem[258] as int);
  }

  /** Register0's payload length in its only version: 39 bytes less the
      checksum. */
  const Reg0PayloadSize: nat := ExpectedSize(Register0, 1) - CrcSize

  /** The whole-dataset buffers the shipped registry accepts, from the
      expected register sizes: version 1 first, then register0's 37
      payload bytes ending before register1's version byte, which must be
      0, 1 or 2, and exactly register1's payload after them. */
  predicate WriteAccepted(data: seq<bv8>) {
    && |data| > Reg0PayloadSize
    && data[0] == 1
    && data[Reg0PayloadSize] <= 2
    && |data| == Reg0PayloadSize + ExpectedSize(Register1, data[Reg0PayloadSize] as int) - CrcSize
  }

  /** With the shipped registry, `Write` accepts exactly the buffers
      of `WriteAccepted`, reports a bad version before a bad length, and writes the
      first 37 bytes framed at offset 0 and the rest framed at 256. */
  lemma ProdWrite(dev: Device, data: seq<bv8>)
    requires Valid(dev) && |data| > 0
    ensures ValidRegistry(ProdRegistry)
    ensures Write(ProdRegistry, dev, data).result.Ok? <==> WriteAccepted(data)
    ensures Write(ProdRegistry, dev, data).result.Err? ==>
      Write(ProdRegistry, dev, data).result.error
        == if data[0] != 1 || (|data| > Reg0PayloadSize && data[Reg0PayloadSize] > 2)
           then NoValidRegVersion else DataSizeError
    ensures Write(ProdRegistry, dev, data).result.Ok? ==> Write(ProdRegistry, dev, data).trace == [
      WriteOp(AddDataCrc(data[..Reg0PayloadSize]), Base(Register0)),
      WriteOp(AddDataCrc(data[Reg0PayloadSize..]), Base(Register1))]
  {
    ProdVersionsFromData(data);
    WriteOutcome(ProdRegistry, dev, data);
  }

  /** `Write` succeeds exactly when the buffer's version bytes resolve and
      its length is the two payload lengths together; it then writes the
      buffer's two parts, framed, at the register bases. */
  lemma WriteOutcome(registry: Registry, dev: Device, data: seq<bv8>)
    requires ValidRegistry(registry) && Valid(dev) && |data| > 0
    ensures var r := Write(registry, dev, data);
      var v := ReadVersionFromData(registry, data);
      && (v.Err? ==> r == Run(Err(v.error), []))
      && (v.Ok? ==>
            var n := PayloadSize(v.value.reg0);
            && (r.result.Ok? <==> |data| == n + PayloadSize(v.value.reg1))
            && (r.result.Err? ==> r == Run(Err(DataSizeError), []))
            && (r.result.Ok? ==> r.trace == [
                  WriteOp(AddDataCrc(data[..n]), Base(Register0)),
                  WriteOp(AddDataCrc(data[n..]), Base(Register1))]))
  {
  }

  /** With the shipped registry, a buffer names valid layouts exactly when
      it starts with 1, is longer than register0's 37 payload bytes, and
      has 0, 1 or 2 right after them; register0's payload is then 37 bytes
      and register1 has its expected size. */
  lemma ProdVersionsFromData(data: seq<bv8>)
    requires |data| > 0
    ensures ValidRegistry(ProdRegistry)
    ensures ReadVersionFromData(ProdRegistry, data).Ok? <==>
      data[0] == 1 && |data| > Reg0PayloadSize && data[Reg0PayloadSize] <= 2
    ensures data[0] != 1 ==> ReadVersionFromData(ProdRegistry, data) == Err(NoValidRegVersion)
    ensures data[0] == 1 && |data| <= Reg0PayloadSize ==> ReadVersionFromData(ProdRegistry, data) == Err(DataSizeError)
    ensures data[0] == 1 && |data| > Reg0PayloadSize && data[Reg0PayloadSize] > 2 ==>
      ReadVersionFromData(ProdRegistry, data) == Err(NoValidRegVersion)
    ensures ReadVersionFromData(ProdRegistry, data).Ok? ==>
      && PayloadSize(ReadVersionFromData(ProdRegistry, data).value.reg0) == Reg0PayloadSize
      && RegisterSize(ReadVersionFromData(ProdRegistry, data).value.reg1)
         == ExpectedSize(Register1, data[Reg0PayloadSize] as int)
  {
    ProdRegistryValid();
    VersionsFromDataOutcome(ProdRegistry, data);
    ProdSelect(Register0, data[0] as int);
    if data[0] == 1 {
      assert PayloadSize(ProdRegistry.register0[1]) == Reg0PayloadSize;
      if |data| > Reg0PayloadSize {
        ProdSelect(Register1, data[Reg0PayloadSize] as int);
      }
    }
  }

  /** `ReadVersionFromData` case by case: an unknown register0 version
      fails first, then a buffer that ends within register0's payload, then
      an unknown register1 version; otherwise both layouts are selected. */
  lemma VersionsFromDataOutcome(registry: Registry, data: seq<bv8>)
    requires ValidRegistry(registry) && |data| > 0
    ensures var v := ReadVersionFromData(registry, data);
      var v0 := data[0] as int;
      && (v0 !in registry.register0 ==> v == Err(NoValidRegVersion))
      && (v0 in registry.register0 ==>
            var n := PayloadSize(registry.register0[v0]);
            && (|data| <= n ==> v == Err(DataSizeError))
            && (0 <= n < |data| && data[n] as int !in registry.register1 ==> v == Err(NoValidRegVersion))
            && (0 <= n < |data| && data[n] as int in registry.register1 ==>
                  v == Ok(ActiveLayouts(registry.register0[v0], registry.register1[data[n] as int]))))
  {
  }

  /** `WriteField` on a name that is not a version field fails, after only
      the version reads, on an unknown stored version, then on an unknown
      name, then on a value of the wrong length. */
  lemma WriteFieldErrors(registry: Registry, dev: Device, name: string, data: seq<bv8>)
    requires ValidRegistry(registry) && Valid(dev) && !IsVersionName(name)
    ensures var r := WriteField(registry, dev, name, data);
      var v := ReadVersionFromOTP(registry, dev);
      && (v.result.Err? ==> r == Run(Err(NoValidRegVersion), VersionReads))
      && (v.result.Ok? && LocateField(v.result.value, name).Err? ==>
            r == Run(Err(InvalidDataField(name)), VersionReads))
      && (v.result.Ok? && LocateField(v.result.value, name).Ok?
          && |data| != LocateField(v.result.value, name).value.field.size ==>
            r == Run(Err(InvalidFieldSize), VersionReads))
  {
  }

  /** The case of the unit test `TestWriteFieldInvalidReg0Version`: stored
      versions 0 and 1. Register0 has no version 0, so writing DCXO fails
      with "No valid reg version" after the two version reads. */
  lemma WriteFieldReg0Version0(dev: Device)
    requires Valid(dev) && dev.mem[2] == 0 && dev.mem[258] == 1
    ensures ValidRegistry(ProdRegistry)
    ensures WriteField(ProdRegistry, dev, "DCXO", [0x1A]) == Run(Err(NoValidRegVersion), VersionReads)
  {
    ProdVersionsFromOTP(dev);
    assert !IsVersionName("DCXO");
    WriteFieldErrors(ProdRegistry, dev, "DCXO", [0x1A]);
  }

  /** The case of the unit test `TestWriteFieldInvalidReg1Version`: stored
      versions 1 and 0. Register1 does have a version 0, whose layout holds
      only the checksum and the version, so the stored versions resolve and
      writing DCXO fails on the name, with "Invalid data field: DCXO", not
      with the "No valid reg version" the test expects. */
  lemma WriteFieldReg1Version0(dev: Device)
    requires Valid(dev) && dev.mem[2] == 1 && dev.mem[258] == 0
    ensures ValidRegistry(ProdRegistry)
    ensures ReadVersionFromOTP(ProdRegistry, dev).result == Ok(ActiveLayouts(Register0V1, Register1V0))
    ensures WriteField(ProdRegistry, dev, "DCXO", [0x1A]) == Run(Err(InvalidDataField("DCXO")), VersionReads)
  {
    ProdRegistryValid();
    ProdTables();
    NamesDisjoint("DCXO");
    assert !HasField(Register1V0, "DCXO");
    assert !IsVersionName("DCXO");
    WriteFieldErrors(ProdRegistry, dev, "DCXO", [0x1A]);
  }

  /** Past the version check, `WriteField` is the version reads followed
      by the write of the located field. */
  lemma WriteFieldLocated(registry: Registry, dev: Device, name: string, data: seq<bv8>)
    requires ValidRegistry(registry) && Valid(dev) && !IsVersionName(name)
    requires ReadVersionFromOTP(registry, dev).result.Ok?
    requires LocateField(ReadVersionFromOTP(registry, dev).result.value, name).Ok?
    ensures var ls := ReadVersionFromOTP(registry, dev).result.value;
      var tail := WriteLocated(dev, ls, LocateField(ls, name).value, data);
      WriteField(registry, dev, name, data) == Run(tail.result, VersionReads + tail.trace)
  {
  }

  /** Storing a field update of the register at `base` writes the field. */
  lemma StoreFieldUpdate(dev: Device, out: seq<bv8>, base: nat, size: nat, offset: nat, value: seq<bv8>)
    requires base + CrcSize <= offset && offset + |value| <= base + size <= |dev.mem|
    requires FieldUpdate(dev.mem[base..base + size], out, offset - base, value)
    ensures FieldWritten(dev, Store(dev, out, base), base, size, offset, value)
  {
    var after := Store(dev, out, base);
    var position := offset - base;
    assert after.mem[base..base + size] == out;
    forall k | 0 <= k < |value|
      ensures after.mem[offset + k] == value[k]
    {
      assert after.mem[offset + k] == out[position + k];
      assert out[position + k] == value[k];
    }
    forall k | 0 <= k < |dev.mem| && !(offset <= k < offset + |value|) && !(base <= k < base + CrcSize)
      ensures after.mem[k] == dev.mem[k]
    {
      if base <= k < base + size {
        assert after.mem[k] == out[k - base];
        assert dev.mem[base..base + size][k - base] == dev.mem[k];
      }
    }
  }

  /** The read-modify-write of a field is one read and one write, and it
      leaves the device as storing the rewritten register does. */
  lemma RewriteFieldApply(dev: Device, size: nat, base: nat, position: nat, data: seq<bv8>)
    requires base + size <= |dev.mem| && CrcSize <= size && position + |data| <= size
    ensures var t := RewriteField(dev, size, base, position, data).trace;
      && |t| == 2 && t[1].WriteOp? && t[1].offset == base && base + |t[1].bytes| <= |dev.mem|
      && Apply(dev, t) == Store(dev, t[1].bytes, base)
  {
    var t := RewriteField(dev, size, base, position, data).trace;
    assert t == [t[0], t[1]];
    ApplyReadWrite(dev, t[0], t[1]);
  }

  /** The read-modify-write of a field behind the checksum writes the
      field. */
  lemma RewriteFieldEffect(dev: Device, size: nat, base: nat, offset: nat, data: seq<bv8>)
    requires base + CrcSize <= offset && offset + |data| <= base + size <= |dev.mem|
    ensures WritesFit(RewriteField(dev, size, base, offset - base, data).trace, |dev.mem|)
    ensures FieldWritten(dev, Apply(dev, RewriteField(dev, size, base, offset - base, data).trace),
                         base, size, offset, data)
  {
    var t := RewriteField(dev, size, base, offset - base, data).trace;
    RewriteFieldApply(dev, size, base, offset - base, data);
    StoreFieldUpdate(dev, t[1].bytes, base, size, offset, data);
    assert Apply(dev, t) == Store(dev, t[1].bytes, base);
  }

  /** Writing a located field of the right size is the read-modify-write
      of its register, at the field's position inside it. */
  lemma WriteLocatedRewrites(dev: Device, ls: ActiveLayouts, loc: Location, data: seq<bv8>)
    requires Valid(dev) && Resolved(ls) && Inside(ls, loc) && |data| == loc.field.size
    ensures Base(loc.reg) + RegisterSize(ls.Of(loc.reg)) <= |dev.mem|
    ensures WriteLocated(dev, ls, loc, data)
         == RewriteField(dev, RegisterSize(ls.Of(loc.reg)), Base(loc.reg), loc.field.offset - Base(loc.reg), data)
  {
    var crcOffset := GetCrcOffset(loc.reg, ls.Of(loc.reg));
    var size := Extent(loc.reg, ls.Of(loc.reg));
    assert WriteLocated(dev, ls, loc, data) == RewriteField(dev, size, crcOffset, loc.field.offset - crcOffset, data);
  }

  /** A successful `WriteField` got past every check, and its effect on
      storage is that of writing the located field. */
  lemma WriteFieldApply(registry: Registry, dev: Device, name: string, data: seq<bv8>)
    requires ValidRegistry(registry) && Valid(dev)
    requires WriteField(registry, dev, name, data).result.Ok?
    ensures !IsVersionName(name)
    ensures ReadVersionFromOTP(registry, dev).result.Ok?
    ensures LocateField(ReadVersionFromOTP(registry, dev).result.value, name).Ok?
    ensures var ls := ReadVersionFromOTP(registry, dev).result.value;
      var loc := LocateField(ls, name).value;
      && |data| == loc.field.size
      && Apply(dev, WriteField(registry, dev, name, data).trace) == Apply(dev, WriteLocated(dev, ls, loc, data).trace)
  {
    WriteFieldErrors(registry, dev, name, data);
    WriteFieldLocated(registry, dev, name, data);
    var ls := ReadVersionFromOTP(registry, dev).result.value;
    var tail := WriteLocated(dev, ls, LocateField(ls, name).value, data);
    ApplyAfterReads(dev, VersionReads, tail.trace);
  }

  /** The version field names are the ones `WriteField` refuses. */
  lemma VersionNamesRefused(reg: RegisterName)
    ensures IsVersionName(VersionName(reg))
  {
    assert VersionName(reg)[..11] == "VERSION_REG";
  }

  /** Past the serial-number case and the version check, `ReadField` is
      the version reads followed by the read of the located field. */
  lemma ReadFieldLocated(registry: Registry, dev: Device, name: string)
    requires ValidRegistry(registry) && Valid(dev) && name != KeySerial
    requires ReadVersionFromOTP(registry, dev).result.Ok?
    requires LocateField(ReadVersionFromOTP(registry, dev).result.value, name).Ok?
    ensures var ls := ReadVersionFromOTP(registry, dev).result.value;
      var tail := ReadLocated(dev, ls, LocateField(ls, name).value);
      ReadField(registry, dev, name) == Run(tail.result, VersionReads + tail.trace)
  {
  }

  /** A successful `WriteField` of a field other than a checksum writes
      the located field, which lies behind the register's header. */
  lemma WriteFieldEffect(registry: Registry, dev: Device, name: string, data: seq<bv8>)
    requires ValidRegistry(registry) && Valid(dev)
    requires WriteField(registry, dev, name, data).result.Ok?
    requires name != CrcName(Register0) && name != CrcName(Register1)
    ensures ReadVersionFromOTP(registry, dev).result.Ok?
    ensures LocateField(ReadVersionFromOTP(registry, dev).result.value, name).Ok?
    ensures var ls := ReadVersionFromOTP(registry, dev).result.value;
      var loc := LocateField(ls, name).value;
      && Base(loc.reg) + CrcSize + VersionSize <= loc.field.offset
      && FieldWritten(dev, Apply(dev, WriteField(registry, dev, name, data).trace),
                      Base(loc.reg), RegisterSize(ls.Of(loc.reg)), loc.field.offset, data)
  {
    WriteFieldApply(registry, dev, name, data);
    var ls := ReadVersionFromOTP(registry, dev).result.value;
    var loc := LocateField(ls, name).value;
    VersionNamesRefused(loc.reg);
    FieldAfterHeader(loc.reg, ls.Of(loc.reg), name);
    WriteLocatedEffect(dev, ls, loc, data);
  }

  /** Writing a located field behind the checksum writes the field. */
  lemma WriteLocatedEffect(dev: Device, ls: ActiveLayouts, loc: Location, data: seq<bv8>)
    requires Valid(dev) && Resolved(ls) && Inside(ls, loc) && |data| == loc.field.size
    requires Base(loc.reg) + CrcSize <= loc.field.offset
    ensures FieldWritten(dev, Apply(dev, WriteLocated(dev, ls, loc, data).trace),
                         Base(loc.reg), RegisterSize(ls.Of(loc.reg)), loc.field.offset, data)
  {
    var base, size := Base(loc.reg), RegisterSize(ls.Of(loc.reg));
    WriteLocatedRewrites(dev, ls, loc, data);
    var t := RewriteField(dev, size, base, loc.field.offset - base, data).trace;
    assert WriteLocated(dev, ls, loc, data).trace == t;
    RewriteFieldEffect(dev, size, base, loc.field.offset, data);
    assert FieldWritten(dev, Apply(dev, t), base, size, loc.field.offset, data);
  }

  /** Writing a field keeps both stored version bytes, so the layouts
      resolved from storage stay the same. */
  lemma WriteFieldKeepsVersions(registry: Registry, dev: Device, name: string, data: seq<bv8>)
    requires ValidRegistry(registry) && Valid(dev)
    requires WriteField(registry, dev, name, data).result.Ok?
    requires name != CrcName(Register0) && name != CrcName(Register1)
    ensures var after := Apply(dev, WriteField(registry, dev, name, data).trace);
      && Valid(after)
      && ReadVersionFromOTP(registry, after).result == ReadVersionFromOTP(registry, dev).result
  {
    WriteFieldEffect(registry, dev, name, data);
    var ls := ReadVersionFromOTP(registry, dev).result.value;
    var loc := LocateField(ls, name).value;
    var after := Apply(dev, WriteField(registry, dev, name, data).trace);
    var size := RegisterSize(ls.Of(loc.reg));
    assert FieldWritten(dev, after, Base(loc.reg), size, loc.field.offset, data);
    assert after.mem[RegVersionOffset(Register0)] == dev.mem[RegVersionOffset(Register0)];
    assert after.mem[RegVersionOffset(Register1)] == dev.mem[RegVersionOffset(Register1)];
  }

  /** Reading a field back after writing it gives the value written. A
      checksum field is the exception: its bytes are recomputed by the
      write. */
  lemma WriteFieldThenReadField(registry: Registry, dev: Device, name: string, data: seq<bv8>)
    requires ValidRegistry(registry) && Valid(dev)
    requires WriteField(registry, dev, name, data).result.Ok?
    requires name != CrcName(Register0) && name != CrcName(Register1)
    ensures ReadField(registry, Apply(dev, WriteField(registry, dev, name, data).trace), name).result == Ok(data)
  {
    WriteFieldEffect(registry, dev, name, data);
    WriteFieldKeepsVersions(registry, dev, name, data);
    var ls := ReadVersionFromOTP(registry, dev).result.value;
    var loc := LocateField(ls, name).value;
    var after := Apply(dev, WriteField(registry, dev, name, data).trace);
    assert name != KeySerial;
    assert LocateField(ReadVersionFromOTP(registry, after).result.value, name) == Ok(loc);
    ReadFieldLocated(registry, after, name);
    ReadLocatedWritten(dev, after, ls, loc, data);
  }

  /** A written field reads back as the value written. */
  lemma ReadLocatedWritten(before: Device, after: Device, ls: ActiveLayouts, loc: Location, data: seq<bv8>)
    requires Valid(after) && Resolved(ls) && Inside(ls, loc) && |data| == loc.field.size
    requires FieldWritten(before, after, Base(loc.reg), RegisterSize(ls.Of(loc.reg)), loc.field.offset, data)
    ensures ReadLocated(after, ls, loc).result == Ok(data)
  {
  }
}

/** The layout registry: for each of the two registers, the versions it
    supports and, per version, the named fields with their size and
    absolute storage offset. */
module Layouts {
  import opened Errors
  import opened Crc
  import opened Storage

  /** `DataField`: a field's size and its offset from the start of storage. */
  datatype DataField = DataField(size: nat, offset: nat)

  datatype Entry = Entry(name: string, field: DataField)

  /** A version's field table. The source keeps it in a `std::map` keyed by
      name; here the entries are listed in offset order, and since names are
      distinct (`DistinctNames`), lookups and size sums do not depend on the
      order. */
  type Layout = seq<Entry>

  datatype RegisterName = Register0 | Register1

  /** `key_serial`: the name under which the serial number is read. */
  const KeySerial: string := "SERIAL"

  /** `versionSize`: the version field is one byte. */
  const VersionSize: nat := 1

  /** `regVersionOffset`: where each register's version byte is stored. */
  function RegVersionOffset(reg: RegisterName): nat {
    match reg
    case Register0 => 2
    case Register1 => 258
  }

  function CrcName(reg: RegisterName): string {
    match reg
    case Register0 => "CRC_REG0"
    case Register1 => "CRC_REG1"
  }

  function VersionName(reg: RegisterName): string {
    match reg
    case Register0 => "VERSION_REG0"
    case Register1 => "VERSION_REG1"
  }

  const Register0V1: Layout := [
    Entry("CRC_REG0", DataField(2, 0)),
    Entry("VERSION_REG0", DataField(1, 2)),
    Entry("MAC_0", DataField(6, 3)),
    Entry("MAC_1", DataField(6, 9)),
    Entry("MAC_2", DataField(6, 15)),
    Entry("MAC_3", DataField(6, 21)),
    Entry("MAC_4", DataField(6, 27)),
    Entry("MAC_5", DataField(6, 33))
  ]

  const Register1V0: Layout := [
    Entry("CRC_REG1", DataField(2, 256)),
    Entry("VERSION_REG1", DataField(1, 258))
  ]

  const Register1V1: Layout := [
    Entry("CRC_REG1", DataField(2, 256)),
    Entry("VERSION_REG1", DataField(1, 258)),
    Entry("DCXO", DataField(1, 259))
  ]

  const Register1V2: Layout := [
    Entry("CRC_REG1", DataField(2, 256)),
    Entry("VERSION_REG1", DataField(1, 258)),
    Entry("DCXO", DataField(1, 259)),
    Entry("PD_A1_B24", DataField(1, 260)),
    Entry("PD_A1_B51", DataField(1, 261)),
    Entry("PD_A1_B52", DataField(1, 262)),
    Entry("PD_A1_B53", DataField(1, 263)),
    Entry("PD_A1_B54", DataField(1, 264)),
    Entry("PD_A2_B24", DataField(1, 265)),
    Entry("PD_A2_B51", DataField(1, 266)),
    Entry("PD_A2_B52", DataField(1, 267)),
    Entry("PD_A2_B53", DataField(1, 268)),
    Entry("PD_A2_B54", DataField(1, 269))
  ]

  /** The size each register version is expected to have, CRC and version
      included, written out apart from the field tables: the field sizes of
      `device_data.h`'s tables must sum to it. */
  function ExpectedSize(reg: RegisterName, version: int): nat {
    match reg
    case Register0 => if version == 1 then 39 else 0
    case Register1 =>
      if version == 0 then 3
      else if version == 1 then 4
      else if version == 2 then 14
      else 0
  }

  /** The first storage byte of a register: where its CRC field sits. */
  function Base(reg: RegisterName): nat {
    match reg
    case Register0 => 0
    case Register1 => 256
  }

  /** `GetRegisterSize`: the sum of the field sizes of a layout. */
  function RegisterSize(layout: Layout): (size: nat) {
    if |layout| == 0 then 0 else layout[0].field.size + RegisterSize(layout[1..])
  }

  /** The fields follow each other without gaps from `start` on. */
  predicate Contiguous(layout: Layout, start: nat) {
    |layout| == 0 ||
    (layout[0].field.offset == start && Contiguous(layout[1..], start + layout[0].field.size))
  }

  predicate DistinctNames(layout: Layout) {
    forall i, j :: 0 <= i < j < |layout| ==> layout[i].name != layout[j].name
  }

  /** The shape every layout of `reg` has: the 2-byte CRC field at the
      register base, the 1-byte version field right after it, and fields
      with distinct names tiling the register from the base on. */
  predicate WellFormed(reg: RegisterName, layout: Layout) {
    && |layout| >= 2
    && layout[0] == Entry(CrcName(reg), DataField(CrcSize, Base(reg)))
    && layout[1] == Entry(VersionName(reg), DataField(VersionSize, RegVersionOffset(reg)))
    && Contiguous(layout, Base(reg))
    && DistinctNames(layout)
  }

  /** `register0_` and `register1_`: each register's map from version
      number to layout. */
  datatype Registry = Registry(register0: map<int, Layout>, register1: map<int, Layout>) {
    function Versions(reg: RegisterName): map<int, Layout> {
      match reg
      case Register0 => register0
      case Register1 => register1
    }
  }

  /** The registry the device ships with: register0 has version 1 only,
      register1 has versions 0, 1 and 2. */
  const ProdRegistry: Registry := Registry(
    map[1 := Register0V1],
    map[0 := Register1V0, 1 := Register1V1, 2 := Register1V2])

  /** Where a register's space ends: register0 must end before register1's
      base, register1 before the end of the addressable storage. */
  function Limit(reg: RegisterName): nat {
    match reg
    case Register0 => Base(Register1)
    case Register1 => StorageSize
  }

  /** A layout that can serve as `reg`'s: well-formed, inside the
      register's space, and without a field named "SERIAL". */
  predicate Fits(reg: RegisterName, layout: Layout) {
    && WellFormed(reg, layout)
    && Base(reg) + RegisterSize(layout) <= Limit(reg)
    && !HasField(layout, KeySerial)
  }

  /** What the engine relies on of its registry: every layout fits its
      register, and no register0 layout shares a field name with a
      register1 layout, so that a name determines its register. */
  ghost predicate ValidRegistry(registry: Registry) {
    && (forall v :: v in registry.register0 ==> Fits(Register0, registry.register0[v]))
    && (forall v :: v in registry.register1 ==> Fits(Register1, registry.register1[v]))
    && (forall v0, v1, name ::
          v0 in registry.register0 && v1 in registry.register1 && HasField(registry.register0[v0], name)
          ==> !HasField(registry.register1[v1], name))
  }

  /** `SelectRegLayout`: the layout the register's version map holds for the
      version, or "No valid reg version"; there is no fallback to a default
      layout. */
  function SelectRegLayout(registry: Registry, reg: RegisterName, version: int): (r: Result<Layout>)
    ensures r.Ok? <==> version in registry.Versions(reg)
    ensures r.Ok? ==> r.value == registry.Versions(reg)[version]
    ensures r.Err? ==> r.error == NoValidRegVersion
  {
    var versions := registry.Versions(reg);
    if version in versions then Ok(versions[version]) else Err(NoValidRegVersion)
  }

  /** The shipped registry knows exactly register0 version 1 and register1
      versions 0, 1 and 2, and each of its layouts is well-formed with its
      expected size. */
  lemma ProdSelect(reg: RegisterName, version: int)
    ensures SelectRegLayout(ProdRegistry, reg, version).Ok?
      <==> (reg == Register0 && version == 1) || (reg == Register1 && 0 <= version <= 2)
    ensures SelectRegLayout(ProdRegistry, reg, version).Ok? ==>
      && WellFormed(reg, SelectRegLayout(ProdRegistry, reg, version).value)
      && RegisterSize(SelectRegLayout(ProdRegistry, reg, version).value) == ExpectedSize(reg, version)
  {
    ProdTables();
    match reg
    case Register0 =>
      if version == 1 {
        Register0V1WellFormed();
      }
    case Register1 =>
      if version == 0 {
        Register1V0WellFormed();
      } else if version == 1 {
        Register1V1WellFormed();
      } else if version == 2 {
        Register1V2WellFormed();
      }
  }

  /** The versions the shipped registry holds and the table under each. */
  lemma ProdTables()
    ensures forall v :: v in ProdRegistry.register0 <==> v == 1
    ensures forall v :: v in ProdRegistry.register1 <==> 0 <= v <= 2
    ensures ProdRegistry.register0[1] == Register0V1
    ensures ProdRegistry.register1[0] == Register1V0
    ensures ProdRegistry.register1[1] == Register1V1
    ensures ProdRegistry.register1[2] == Register1V2
  {
  }

  /** The shipped registry satisfies what the engine relies on. */
  lemma ProdRegistryValid()
    ensures ValidRegistry(ProdRegistry)
  {
    ProdRegister0Fits();
    ProdRegister1Fits();
    ProdRegistersApart();
  }

  lemma ProdRegister0Fits()
    ensures forall v :: v in ProdRegistry.register0 ==> Fits(Register0, ProdRegistry.register0[v])
  {
    ProdTables();
    Register0V1Fits();
  }

  lemma ProdRegister1Fits()
    ensures forall v :: v in ProdRegistry.register1 ==> Fits(Register1, ProdRegistry.register1[v])
  {
    forall v | v in ProdRegistry.register1
      ensures Fits(Register1, ProdRegistry.register1[v])
    {
      Register1Fits(v);
    }
  }

  lemma ProdRegistersApart()
    ensures forall v0, v1, name ::
      v0 in ProdRegistry.register0 && v1 in ProdRegistry.register1 && HasField(ProdRegistry.register0[v0], name)
      ==> !HasField(ProdRegistry.register1[v1], name)
  {
    ProdTables();
    forall v0, v1, name |
      v0 in ProdRegistry.register0 && v1 in ProdRegistry.register1 && HasField(ProdRegistry.register0[v0], name)
      ensures !HasField(ProdRegistry.register1[v1], name)
    {
      Register1Apart(v1, name);
    }
  }

  /** No register1 table of the shipped registry shares a name with
      register0's. */
  lemma Register1Apart(v: int, name: string)
    requires v in ProdRegistry.register1 && HasField(Register0V1, name)
    ensures !HasField(ProdRegistry.register1[v], name)
  {
    NamesDisjoint(name);
    Register1Prefix(v);
    if HasField(ProdRegistry.register1[v], name) {
      PrefixHasField(ProdRegistry.register1[v], Register1V2, name);
    }
  }

  lemma Register0V1Fits()
    ensures Fits(Register0, Register0V1)
  {
    Register0V1WellFormed();
    NamesDisjoint("");
  }

  lemma Register1Fits(v: int)
    requires v in ProdRegistry.register1
    ensures Fits(Register1, ProdRegistry.register1[v])
  {
    ProdSelect(Register1, v);
    NamesDisjoint("");
    Register1Prefix(v);
    if HasField(ProdRegistry.register1[v], KeySerial) {
      PrefixHasField(ProdRegistry.register1[v], Register1V2, KeySerial);
    }
  }

  /** Register1's shipped layouts are prefixes of its version-2 layout. */
  lemma Register1Prefix(v: int)
    requires v in ProdRegistry.register1
    ensures ProdRegistry.register1[v] <= Register1V2
  {
  }

  /** A name in a prefix of a table is in the table. */
  lemma PrefixHasField(a: Layout, b: Layout, name: string)
    requires a <= b && HasField(a, name)
    ensures HasField(b, name)
  {
    var i :| 0 <= i < |a| && a[i].name == name;
    assert b[i] == a[i];
  }

  /** Some entry of `layout` is named `name`. */
  predicate HasField(layout: Layout, name: string) {
    exists i :: 0 <= i < |layout| && layout[i].name == name
  }

  /** `GetDataField`: the first entry named `name`, or "Invalid data field". */
  function GetDataField(layout: Layout, name: string): (r: Result<DataField>)
    ensures r.Ok? <==> HasField(layout, name)
    ensures r.Ok? ==> exists i :: 0 <= i < |layout| && layout[i] == Entry(name, r.value)
    ensures r.Err? ==> r.error == InvalidDataField(name)
  {
    if |layout| == 0 then Err(InvalidDataField(name))
    else if layout[0].name == name then Ok(layout[0].field)
    else
      var r := GetDataField(layout[1..], name);
      assert forall i :: 1 <= i < |layout| ==> layout[i] == layout[1..][i - 1];
      r
  }

  /** `GetCRCOffset`: the offset of the register's CRC field, which is the
      register base for every well-formed layout. */
  function GetCrcOffset(reg: RegisterName, layout: Layout): (offset: nat)
    requires WellFormed(reg, layout)
    ensures offset == Base(reg)
  {
    assert layout[0].name == CrcName(reg);
    var f := GetDataField(layout, CrcName(reg));
    LookupDistinct(layout, 0);
    f.value.offset
  }

  /** With distinct names, looking up an entry's name finds that entry. */
  lemma LookupDistinct(layout: Layout, i: nat)
    requires DistinctNames(layout) && i < |layout|
    ensures GetDataField(layout, layout[i].name) == Ok(layout[i].field)
    decreases i
  {
    if i > 0 {
      assert layout[0].name != layout[i].name;
      assert layout[1..][i - 1] == layout[i];
      LookupDistinct(layout[1..], i - 1);
    }
  }

  /** Every entry of a contiguous table lies inside the extent it tiles, and
      earlier entries end before later ones start. */
  lemma {:induction false} ContiguousTiles(layout: Layout, start: nat)
    requires Contiguous(layout, start)
    ensures forall i :: 0 <= i < |layout| ==>
      start <= layout[i].field.offset && layout[i].field.offset + layout[i].field.size <= start + RegisterSize(layout)
    ensures forall i, j :: 0 <= i < j < |layout| ==>
      layout[i].field.offset + layout[i].field.size <= layout[j].field.offset
    decreases |layout|
  {
    if |layout| > 0 {
      var rest := layout[1..];
      ContiguousTiles(rest, start + layout[0].field.size);
      assert forall i :: 1 <= i < |layout| ==> layout[i] == rest[i - 1];
    }
  }

  lemma Register0V1Contiguous()
    ensures Contiguous(Register0V1, 0)
  {
  }

  lemma Register0V1DistinctNames()
    ensures DistinctNames(Register0V1)
  {
  }

  lemma Register0V1WellFormed()
    ensures WellFormed(Register0, Register0V1) && RegisterSize(Register0V1) == 39
  {
    Register0V1Contiguous();
    Register0V1DistinctNames();
  }

  lemma Register1V0WellFormed()
    ensures WellFormed(Register1, Register1V0) && RegisterSize(Register1V0) == 3
  {
  }

  lemma Register1V1WellFormed()
    ensures WellFormed(Register1, Register1V1) && RegisterSize(Register1V1) == 4
  {
  }

  lemma Register1V2Contiguous()
    ensures Contiguous(Register1V2, 256) && RegisterSize(Register1V2) == 14
  {
    var header, bytes := Register1V2[..2], Register1V2[2..];
    HeaderFields(header, 256);
    UnitFields(bytes, 259);
    ContiguousAppend(header, bytes, 256);
    assert header + bytes == Register1V2;
  }

  /** A checksum field and a version field right after it tile three
      bytes. */
  lemma HeaderFields(header: Layout, start: nat)
    requires |header| == 2
    requires header[0].field == DataField(CrcSize, start) && header[1].field == DataField(VersionSize, start + CrcSize)
    ensures Contiguous(header, start) && RegisterSize(header) == CrcSize + VersionSize
  {
    assert header[1..][0] == header[1] && header[1..][1..] == [];
    assert RegisterSize(header[1..]) == VersionSize && Contiguous(header[1..], start + CrcSize);
  }

  /** One-byte fields at consecutive offsets from `start` on are contiguous
      and take one byte each. */
  lemma {:induction false} UnitFields(layout: Layout, start: nat)
    requires forall i :: 0 <= i < |layout| ==> layout[i].field == DataField(1, start + i)
    ensures Contiguous(layout, start) && RegisterSize(layout) == |layout|
    decreases |layout|
  {
    if |layout| > 0 {
      var rest := layout[1..];
      assert forall i :: 0 <= i < |rest| ==> rest[i] == layout[i + 1];
      UnitFields(rest, start + 1);
    }
  }

  /** A table that tiles from `start` followed by one that tiles from where
      the first ends tiles from `start`, and the sizes add up. */
  lemma {:induction false} ContiguousAppend(a: Layout, b: Layout, start: nat)
    requires Contiguous(a, start) && Contiguous(b, start + RegisterSize(a))
    ensures Contiguous(a + b, start) && RegisterSize(a + b) == RegisterSize(a) + RegisterSize(b)
    decreases |a|
  {
    if |a| == 0 {
      assert a + b == b;
    } else {
      ContiguousAppend(a[1..], b, start + a[0].field.size);
      assert (a + b)[1..] == a[1..] + b;
    }
  }

  /** The size of two tables laid end to end is the sum of their sizes. */
  lemma {:induction false} RegisterSizeAppend(a: Layout, b: Layout)
    ensures RegisterSize(a + b) == RegisterSize(a) + RegisterSize(b)
    decreases |a|
  {
    if |a| == 0 {
      assert a + b == b;
    } else {
      RegisterSizeAppend(a[1..], b);
      assert (a + b)[1..] == a[1..] + b;
    }
  }

  /** `GetRegisterSize` sums over a name-ordered map; the sum does not
      depend on the order of the entries, so the offset-ordered table gives
      the same size: any rearrangement of the same entries has the same
      register size. */
  lemma {:induction false} RegisterSizePermutation(a: Layout, b: Layout)
    requires multiset(a) == multiset(b)
    ensures RegisterSize(a) == RegisterSize(b)
    decreases |a|
  {
    if |a| == 0 {
      assert |b| == |multiset(b)| == 0;
    } else {
      assert a[0] in multiset(b);
      var j :| 0 <= j < |b| && b[j] == a[0];
      var rest := b[..j] + b[j + 1..];
      assert b == b[..j] + [b[j]] + b[j + 1..];
      MultisetRemove(a, 0);
      MultisetRemove(b, j);
      assert a[..0] + a[1..] == a[1..];
      RegisterSizePermutation(a[1..], rest);
      RegisterSizeAppend(b[..j] + [b[j]], b[j + 1..]);
      RegisterSizeAppend(b[..j], [b[j]]);
      RegisterSizeAppend(b[..j], b[j + 1..]);
      assert RegisterSize([b[j]]) == b[j].field.size by {
        assert [b[j]][1..] == [];
      }
    }
  }

  /** Dropping one element of a sequence drops one occurrence from its
      multiset. */
  lemma MultisetRemove(s: Layout, j: nat)
    requires j < |s|
    ensures multiset(s[..j] + s[j + 1..]) == multiset(s) - multiset{s[j]}
  {
    assert s == s[..j] + [s[j]] + s[j + 1..];
  }

  lemma Register1V2DistinctNames()
    ensures DistinctNames(Register1V2)
  {
    Register1V2HeaderNames();
    Register1V2SensorNames();
    DistinctSplit(Register1V2, 3);
  }

  /** The checksum, version and DCXO names differ from each other and from
      every later name. */
  lemma Register1V2HeaderNames()
    ensures DistinctNames(Register1V2[..3])
    ensures forall i, j :: 0 <= i < 3 <= j < |Register1V2| ==> Register1V2[i].name != Register1V2[j].name
  {
    forall i, j | 0 <= i < 3 <= j < |Register1V2|
      ensures Register1V2[i].name != Register1V2[j].name
    {
      assert |Register1V2[j].name| == 9;
    }
  }

  /** The ten `PD_A*_B*` names are distinct: read as antenna digit then
      band digits, they increase along the table. */
  lemma Register1V2SensorNames()
    ensures DistinctNames(Register1V2[3..])
  {
    var pd := Register1V2[3..];
    assert forall i :: 0 <= i < |pd| ==> |pd[i].name| == 9;
    assert forall i :: 0 <= i && i + 1 < |pd| ==> SensorKey(pd[i].name) < SensorKey(pd[i + 1].name);
    IncreasingKeys(pd);
  }

  /** A sensor name's antenna digit and band digits, as one number. */
  function SensorKey(name: string): int
    requires |name| == 9
  {
    (name[4] as int * 0x110000 + name[7] as int) * 0x110000 + name[8] as int
  }

  /** Names whose keys increase along the table are distinct. */
  lemma IncreasingKeys(layout: Layout)
    requires forall i :: 0 <= i < |layout| ==> |layout[i].name| == 9
    requires forall i :: 0 <= i && i + 1 < |layout| ==> SensorKey(layout[i].name) < SensorKey(layout[i + 1].name)
    ensures DistinctNames(layout)
  {
    forall i, j | 0 <= i < j < |layout|
      ensures layout[i].name != layout[j].name
    {
      KeysIncrease(layout, i, j);
    }
  }

  lemma {:induction false} KeysIncrease(layout: Layout, i: nat, j: nat)
    requires i < j < |layout|
    requires forall i :: 0 <= i < |layout| ==> |layout[i].name| == 9
    requires forall i :: 0 <= i && i + 1 < |layout| ==> SensorKey(layout[i].name) < SensorKey(layout[i + 1].name)
    ensures SensorKey(layout[i].name) < SensorKey(layout[j].name)
    decreases j - i
  {
    if i + 1 < j {
      KeysIncrease(layout, i, j - 1);
      assert SensorKey(layout[j - 1].name) < SensorKey(layout[j].name);
    }
  }

  /** Names are distinct when they are distinct on both sides of a split
      and no name on the left recurs on the right. */
  lemma DistinctSplit(layout: Layout, k: nat)
    requires k <= |layout|
    requires DistinctNames(layout[..k]) && DistinctNames(layout[k..])
    requires forall i, j :: 0 <= i < k <= j < |layout| ==> layout[i].name != layout[j].name
    ensures DistinctNames(layout)
  {
    forall i, j | 0 <= i < j < |layout|
      ensures layout[i].name != layout[j].name
    {
      if j < k {
        assert layout[..k][i] == layout[i] && layout[..k][j] == layout[j];
      } else if k <= i {
        assert layout[k..][i - k] == layout[i] && layout[k..][j - k] == layout[j];
      }
    }
  }

  lemma Register1V2WellFormed()
    ensures WellFormed(Register1, Register1V2) && RegisterSize(Register1V2) == 14
  {
    Register1V2Contiguous();
    Register1V2DistinctNames();
  }

  /** Every field of a selected layout lies inside its register, and no two
      fields overlap: `offset - crcOffset + size <= registerSize`. */
  lemma FieldsTileRegister(reg: RegisterName, layout: Layout)
    requires WellFormed(reg, layout)
    ensures forall i :: 0 <= i < |layout| ==>
      Base(reg) <= layout[i].field.offset
      && layout[i].field.offset - Base(reg) + layout[i].field.size <= RegisterSize(layout)
    ensures forall i, j :: 0 <= i < j < |layout| ==>
      layout[i].field.offset + layout[i].field.size <= layout[j].field.offset
  {
    ContiguousTiles(layout, Base(reg));
  }

  /** A field found in a well-formed layout lies inside the register. */
  lemma FieldInsideRegister(reg: RegisterName, layout: Layout, name: string)
    requires WellFormed(reg, layout) && GetDataField(layout, name).Ok?
    ensures Base(reg) <= GetDataField(layout, name).value.offset
    ensures GetDataField(layout, name).value.offset - Base(reg) + GetDataField(layout, name).value.size
      <= RegisterSize(layout)
  {
    FieldsTileRegister(reg, layout);
  }

  /** Looking a name up in a prefix of a table with distinct names finds
      what the whole table has under that name. */
  lemma {:induction false} PrefixLookup(a: Layout, b: Layout, name: string)
    requires a <= b && DistinctNames(b) && HasField(a, name)
    ensures GetDataField(b, name) == GetDataField(a, name)
    decreases |a|
  {
    if a[0].name != name {
      assert a[1..] <= b[1..];
      assert forall i, j :: 0 <= i < j < |b[1..]| ==> b[1..][i] == b[i + 1] && b[1..][j] == b[j + 1];
      var k :| 0 <= k < |a| && a[k].name == name;
      assert a[1..][k - 1] == a[k];
      PrefixLookup(a[1..], b[1..], name);
    }
  }

  /** Register1's layouts extend each other: every field of version 0 is in
      version 1 unchanged, and every field of version 1 is in version 2
      unchanged. */
  lemma Register1ForwardExtending(name: string)
    ensures HasField(Register1V0, name) ==> GetDataField(Register1V1, name) == GetDataField(Register1V0, name)
    ensures HasField(Register1V1, name) ==> GetDataField(Register1V2, name) == GetDataField(Register1V1, name)
  {
    Register1V1WellFormed();
    Register1V2WellFormed();
    if HasField(Register1V0, name) {
      assert Register1V0 <= Register1V1;
      PrefixLookup(Register1V0, Register1V1, name);
    }
    if HasField(Register1V1, name) {
      assert Register1V1 <= Register1V2;
      PrefixLookup(Register1V1, Register1V2, name);
    }
  }

  /** No register0 field name is a register1 field name (version 2 has
      every register1 name), and "SERIAL" names no field at all. */
  lemma NamesDisjoint(name: string)
    ensures !(HasField(Register0V1, name) && HasField(Register1V2, name))
    ensures !HasField(Register0V1, KeySerial) && !HasField(Register1V2, KeySerial)
  {
  }

  /** A field other than the checksum and the version lies after both. */
  lemma FieldAfterHeader(reg: RegisterName, layout: Layout, name: string)
    requires WellFormed(reg, layout) && HasField(layout, name)
    requires name != CrcName(reg) && name != VersionName(reg)
    ensures GetDataField(layout, name).value.offset >= Base(reg) + CrcSize + VersionSize
  {
    FieldsTileRegister(reg, layout);
    var i :| 0 <= i < |layout| && layout[i] == Entry(name, GetDataField(layout, name).value);
    assert i != 0 && i != 1;
    assert layout[1].field.offset + layout[1].field.size <= layout[i].field.offset;
  }
}

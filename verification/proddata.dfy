/** The `Proddata` front end: data arrives as a string of hexadecimal
    digits, two per byte, is decoded by `FormatString` and handed to the
    register engine; what the engine reads is handed back unchanged and
    printed as lower-case hexadecimal. A `char` here is one byte of the
    C++ string, so lengths count bytes. */
module Proddata {
  import opened Errors
  import opened Layouts
  import opened Storage
  import DeviceData
  import DeviceDataProofs

  predicate IsHexDigit(c: char) {
    '0' <= c <= '9' || 'a' <= c <= 'f' || 'A' <= c <= 'F'
  }

  predicate IsHexString(s: string) {
    forall i :: 0 <= i < |s| ==> IsHexDigit(s[i])
  }

  /** The value `%hhx` gives a hex digit, in either case. */
  function HexValue(c: char): (v: nat)
    requires IsHexDigit(c)
    ensures v < 16
  {
    if '0' <= c <= '9' then c as nat - '0' as nat
    else if 'a' <= c <= 'f' then c as nat - 'a' as nat + 10
    else c as nat - 'A' as nat + 10
  }

  /** The lower-case digit of a value below 16, as `std::hex` prints it. */
  function HexDigit(v: nat): (c: char)
    requires v < 16
    ensures IsHexDigit(c) && HexValue(c) == v
    ensures !('A' <= c <= 'F')
  {
    if v < 10 then ('0' as nat + v) as char else ('a' as nat + v - 10) as char
  }

  /** A digit value as a byte. */
  function Nibble(v: nat): (b: bv8)
    requires v < 16
    ensures b < 16 && b as int == v
  {
    v as bv8
  }

  /** The byte whose high digit is `high` and low digit is `low`. */
  function ByteOf(high: nat, low: nat): bv8
    requires high < 16 && low < 16
  {
    (Nibble(high) << 4) | Nibble(low)
  }

  /** The byte a pair of hex digits stands for, high digit first. */
  function PairValue(hi: char, lo: char): bv8
    requires IsHexDigit(hi) && IsHexDigit(lo)
  {
    ByteOf(HexValue(hi), HexValue(lo))
  }

  /** The high and the low digit value of a byte. */
  function High(b: bv8): (v: nat)
    ensures v < 16
  {
    (b >> 4) as nat
  }

  function Low(b: bv8): (v: nat)
    ensures v < 16
  {
    (b & 0xF) as nat
  }

  /** Bytes with the same value are the same byte. */
  lemma ByteValueInjective(x: bv8, y: bv8)
    requires x as int == y as int
    ensures x == y
  {
  }

  /** A byte is made of its two digits. */
  lemma ByteOfDigits(b: bv8)
    ensures ByteOf(High(b), Low(b)) == b
  {
    ByteValueInjective(Nibble(High(b)), b >> 4);
    ByteValueInjective(Nibble(Low(b)), b & 0xF);
  }

  /** The digits of a byte made of two digits are those digits. */
  lemma DigitsOfByte(high: nat, low: nat)
    requires high < 16 && low < 16
    ensures High(ByteOf(high, low)) == high && Low(ByteOf(high, low)) == low
  {
    var b := ByteOf(high, low);
    assert b >> 4 == Nibble(high);
    assert b & 0xF == Nibble(low);
  }

  /** `FormatString`: each pair of characters `s[2j] s[2j+1]` scanned with
      `%02hhx` into byte `j`. An odd length would scan one byte past the
      buffer, and the source only ever passes even lengths. */
  function FormatString(s: string): (buf: seq<bv8>)
    requires |s| % 2 == 0 && IsHexString(s)
    ensures |buf| == |s| / 2
    ensures forall j :: 0 <= j < |buf| ==> buf[j] == PairValue(s[2 * j], s[2 * j + 1])
  {
    seq(|s| / 2, j requires 0 <= j < |s| / 2 => PairValue(s[2 * j], s[2 * j + 1]))
  }

  /** `PrintData`: every byte as two lower-case hex digits, zero-padded. */
  function ToHex(bytes: seq<bv8>): (s: string)
    ensures |s| == 2 * |bytes| && IsHexString(s)
    ensures forall j :: 0 <= j < |bytes| ==> s[2 * j] == HexDigit(High(bytes[j])) && s[2 * j + 1] == HexDigit(Low(bytes[j]))
    decreases |bytes|
  {
    if |bytes| == 0 then ""
    else
      var rest := ToHex(bytes[1..]);
      var s := [HexDigit(High(bytes[0])), HexDigit(Low(bytes[0]))] + rest;
      assert forall j :: 1 <= j < |bytes| ==> bytes[1..][j - 1] == bytes[j];
      s
  }

  /** A hex digit in lower case. */
  function LowerHex(c: char): (d: char)
    requires IsHexDigit(c)
    ensures IsHexDigit(d) && HexValue(d) == HexValue(c) && !('A' <= d <= 'F')
  {
    if 'A' <= c <= 'F' then (c as nat - 'A' as nat + 'a' as nat) as char else c
  }

  /** Decoding what was printed gives the bytes back. */
  lemma FormatToHex(bytes: seq<bv8>)
    ensures FormatString(ToHex(bytes)) == bytes
  {
    var s := ToHex(bytes);
    var back := FormatString(s);
    forall j | 0 <= j < |bytes|
      ensures back[j] == bytes[j]
    {
      ByteOfDigits(bytes[j]);
    }
  }

  /** Printing what was decoded gives the input back, in lower case. */
  lemma ToHexFormat(s: string)
    requires |s| % 2 == 0 && IsHexString(s)
    ensures |ToHex(FormatString(s))| == |s|
    ensures forall i :: 0 <= i < |s| ==> ToHex(FormatString(s))[i] == LowerHex(s[i])
  {
    var t := ToHex(FormatString(s));
    forall i | 0 <= i < |s|
      ensures t[i] == LowerHex(s[i])
    {
      ToHexFormatDigit(s, i);
    }
  }

  /** One digit of `ToHexFormat`. */
  lemma ToHexFormatDigit(s: string, i: nat)
    requires |s| % 2 == 0 && IsHexString(s) && i < |s|
    ensures |ToHex(FormatString(s))| == |s| && ToHex(FormatString(s))[i] == LowerHex(s[i])
  {
    var j := i / 2;
    ToHexFormatPair(s, j);
    if i % 2 == 0 {
      assert i == 2 * j;
    } else {
      assert i == 2 * j + 1;
    }
  }

  /** One byte of `ToHexFormat`: the two digits printed for byte `j`. */
  lemma ToHexFormatPair(s: string, j: nat)
    requires |s| % 2 == 0 && IsHexString(s) && j < |s| / 2
    ensures var t := ToHex(FormatString(s));
      && |t| == |s|
      && t[2 * j] == LowerHex(s[2 * j]) && t[2 * j + 1] == LowerHex(s[2 * j + 1])
  {
    var t := ToHex(FormatString(s));
    DigitsOfByte(HexValue(s[2 * j]), HexValue(s[2 * j + 1]));
    HexDigitUnique(t[2 * j], LowerHex(s[2 * j]));
    HexDigitUnique(t[2 * j + 1], LowerHex(s[2 * j + 1]));
  }

  /** Two lower-case hex digits with the same value are the same digit. */
  lemma HexDigitUnique(c: char, d: char)
    requires IsHexDigit(c) && IsHexDigit(d) && !('A' <= c <= 'F') && !('A' <= d <= 'F')
    requires HexValue(c) == HexValue(d)
    ensures c == d
  {
  }

  /** `Proddata::Write`: an odd number of digits is refused before the
      engine is reached; otherwise the decoded bytes go to the engine's
      `Write`. An empty string would make the engine read `data[0]` of an
      empty buffer. */
  function Write(registry: Registry, dev: Device, data: string): (r: DeviceData.Run<()>)
    requires ValidRegistry(registry) && Valid(dev) && |data| > 0
    requires |data| % 2 == 0 ==> IsHexString(data)
    ensures |data| % 2 != 0 <==> r.result == Err(InvalidDataGiven)
    ensures |data| % 2 != 0 ==> r.trace == []
    ensures |data| % 2 == 0 ==> r == DeviceData.Write(registry, dev, FormatString(data))
  {
    if |data| % 2 != 0 then DeviceData.Run(Err(InvalidDataGiven), [])
    else DeviceData.Write(registry, dev, FormatString(data))
  }

  /** `Proddata::WriteField`: the same guard, then the engine's
      `WriteField` with the decoded bytes. */
  function WriteField(registry: Registry, dev: Device, name: string, data: string): (r: DeviceData.Run<()>)
    requires ValidRegistry(registry) && Valid(dev)
    requires |data| % 2 == 0 ==> IsHexString(data)
    ensures |data| % 2 != 0 <==> r.result == Err(InvalidDataGiven)
    ensures |data| % 2 != 0 ==> r.trace == []
    ensures |data| % 2 == 0 ==> r == DeviceData.WriteField(registry, dev, name, FormatString(data))
  {
    if |data| % 2 != 0 then DeviceData.Run(Err(InvalidDataGiven), [])
    else DeviceData.WriteField(registry, dev, name, FormatString(data))
  }

  /** `Proddata::Read`: the engine's `Read`, unchanged. */
  function Read(registry: Registry, dev: Device): (r: DeviceData.Run<seq<bv8>>)
    requires ValidRegistry(registry) && Valid(dev)
    ensures r == DeviceData.Read(registry, dev)
  {
    DeviceData.Read(registry, dev)
  }

  /** `Proddata::ReadField`: the engine's `ReadField`, unchanged. */
  function ReadField(registry: Registry, dev: Device, name: string): (r: DeviceData.Run<seq<bv8>>)
    requires ValidRegistry(registry) && Valid(dev)
    ensures r == DeviceData.ReadField(registry, dev, name)
  {
    DeviceData.ReadField(registry, dev, name)
  }

  /** Writing a hex dataset and reading it back prints the same digits, in
      lower case. */
  lemma WriteThenReadHex(registry: Registry, dev: Device, data: string)
    requires ValidRegistry(registry) && Valid(dev) && |data| > 0
    requires |data| % 2 == 0 ==> IsHexString(data)
    requires Write(registry, dev, data).result.Ok?
    ensures Valid(Apply(dev, Write(registry, dev, data).trace))
    ensures Read(registry, Apply(dev, Write(registry, dev, data).trace)).result.Ok?
    ensures var printed := ToHex(Read(registry, Apply(dev, Write(registry, dev, data).trace)).result.value);
      |printed| == |data| && forall i :: 0 <= i < |data| ==> printed[i] == LowerHex(data[i])
  {
    DeviceDataProofs.WriteThenRead(registry, dev, FormatString(data));
    ToHexFormat(data);
  }

  /** Writing a hex value into a field and reading the field back gives
      the decoded bytes; the checksum fields are excluded because their
      bytes are recomputed after the write. */
  lemma WriteFieldThenReadFieldHex(registry: Registry, dev: Device, name: string, data: string)
    requires ValidRegistry(registry) && Valid(dev)
    requires |data| % 2 == 0 ==> IsHexString(data)
    requires WriteField(registry, dev, name, data).result.Ok?
    requires name != CrcName(Register0) && name != CrcName(Register1)
    ensures |data| % 2 == 0
    ensures Valid(Apply(dev, WriteField(registry, dev, name, data).trace))
    ensures ReadField(registry, Apply(dev, WriteField(registry, dev, name, data).trace), name).result
      == Ok(FormatString(data))
  {
    DeviceDataProofs.WriteFieldThenReadField(registry, dev, name, FormatString(data));
  }
}

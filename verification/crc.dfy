/** Checksum framing of a register: a 16-bit CRC over the payload, stored
    high byte first in the two bytes in front of it. */
module Crc {
  import opened Errors

  /** `kCRCSize`: the number of checksum bytes in front of every register. */
  const CrcSize: nat := 2

  /** One entry of the CRC-16 table: eight shift-and-xor steps with the
      reflected polynomial 0xA001, starting from the low byte `t`. */
  function TableEntry(t: bv16, bits: nat): bv16
    decreases bits
  {
    if bits == 0 then t
    else TableEntry(if t & 1 == 1 then (t >> 1) ^ 0xA001 else t >> 1, bits - 1)
  }

  const ByteBits: nat := 8

  /** The per-byte step `update_crc_16(crc, c)` of the CRC library. */
  function UpdateCrc16(crc: bv16, c: bv8): bv16 {
    (crc >> 8) ^ TableEntry((crc ^ c as bv16) & 0xFF, ByteBits)
  }

  /** `UpdateCrc16` folded over `data` from the left, starting at `acc`. */
  function Crc16From(acc: bv16, data: seq<bv8>): bv16
    decreases |data|
  {
    if |data| == 0 then acc else Crc16From(UpdateCrc16(acc, data[0]), data[1..])
  }

  /** The CRC of a payload: the fold started at 0, as `CalculateDataCRC` does. */
  function Crc16(data: seq<bv8>): bv16 {
    Crc16From(0, data)
  }

  /** The CRC of a concatenation continues from the CRC of its first part. */
  lemma {:induction false} Crc16FromAppend(acc: bv16, a: seq<bv8>, b: seq<bv8>)
    ensures Crc16From(acc, a + b) == Crc16From(Crc16From(acc, a), b)
    decreases |a|
  {
    if |a| == 0 {
      assert a + b == b;
    } else {
      assert (a + b)[1..] == a[1..] + b;
      Crc16FromAppend(UpdateCrc16(acc, a[0]), a[1..], b);
    }
  }

  function HighByte(w: bv16): bv8 {
    (w >> 8) as bv8
  }

  function LowByte(w: bv16): bv8 {
    (w & 0xFF) as bv8
  }

  /** The 16-bit value two bytes stand for, high byte first. */
  function Word(hi: bv8, lo: bv8): bv16 {
    (hi as bv16 << 8) | lo as bv16
  }

  /** The two checksum bytes of a payload, high byte first. */
  function CrcBytes(data: seq<bv8>): seq<bv8> {
    [HighByte(Crc16(data)), LowByte(Crc16(data))]
  }

  lemma WordOfBytes(w: bv16)
    ensures Word(HighByte(w), LowByte(w)) == w
  {
  }

  /** `CalculateDataCRC` (src/device_data.cc:33-52): the CRC loop over the
      payload, returned as two bytes, high byte first. Its contract links
      the loop to the fold `Crc16` and to `CrcBytes`, which the engine
      functions use; the engine itself does not call this method. */
  method CalculateDataCrc(data: seq<bv8>) returns (crc: seq<bv8>)
    ensures |crc| == 2
    ensures Word(crc[0], crc[1]) == Crc16(data)
    ensures crc == CrcBytes(data)
  {
    var crc16: bv16 := 0;
    var i := 0;
    while i < |data|
      invariant 0 <= i <= |data|
      invariant Crc16From(crc16, data[i..]) == Crc16(data)
    {
      assert data[i..][1..] == data[i + 1..];
      crc16 := UpdateCrc16(crc16, data[i]);
      i := i + 1;
    }
    WordOfBytes(crc16);
    crc := [HighByte(crc16), LowByte(crc16)];
  }

  /** `AddDataCRC`: the payload with its checksum prepended. */
  function AddDataCrc(payload: seq<bv8>): (framed: seq<bv8>)
    ensures |framed| == |payload| + CrcSize
    ensures framed[CrcSize..] == payload
    ensures Word(framed[0], framed[1]) == Crc16(payload)
  {
    WordOfBytes(Crc16(payload));
    CrcBytes(payload) + payload
  }

  /** `CheckDataCRC`: accepts a buffer exactly when its first two bytes are
      the checksum of the rest. Shorter buffers are undefined behaviour in
      the source. */
  function CheckDataCrc(buf: seq<bv8>): (r: Result<()>)
    requires |buf| >= CrcSize
    ensures r.Ok? <==> Word(buf[0], buf[1]) == Crc16(buf[CrcSize..])
    ensures r.Err? ==> r.error == CrcFailed
  {
    var crc := CrcBytes(buf[CrcSize..]);
    WordOfBytes(Crc16(buf[CrcSize..]));
    if crc[0] != buf[0] || crc[1] != buf[1] then Err(CrcFailed) else Ok(())
  }

  /** `ReplaceDataCRC`: drop the two stored checksum bytes and prepend the
      checksum of what follows them. */
  function ReplaceDataCrc(buf: seq<bv8>): (r: seq<bv8>)
    requires |buf| >= CrcSize
    ensures |r| == |buf|
    ensures r[CrcSize..] == buf[CrcSize..]
    ensures CheckDataCrc(r).Ok?
  {
    AddDataCrc(buf[CrcSize..])
  }

  /** A framed payload always passes the check. */
  lemma CheckAfterAdd(payload: seq<bv8>)
    ensures CheckDataCrc(AddDataCrc(payload)).Ok?
    ensures AddDataCrc(payload)[CrcSize..] == payload
  {
  }

  /** A buffer passes the check exactly when it is its payload framed. */
  lemma CheckIffFramed(buf: seq<bv8>)
    requires |buf| >= CrcSize
    ensures CheckDataCrc(buf).Ok? <==> buf == AddDataCrc(buf[CrcSize..])
  {
    var a := AddDataCrc(buf[CrcSize..]);
    if CheckDataCrc(buf).Ok? {
      WordInjective(buf[0], buf[1], a[0], a[1]);
      assert buf == buf[..CrcSize] + buf[CrcSize..];
      assert a == a[..CrcSize] + a[CrcSize..];
    }
  }

  /** The checksum bytes determine the word and back. */
  lemma WordInjective(h1: bv8, l1: bv8, h2: bv8, l2: bv8)
    requires Word(h1, l1) == Word(h2, l2)
    ensures h1 == h2 && l1 == l2
  {
    assert HighByte(Word(h1, l1)) == h1;
    assert LowByte(Word(h1, l1)) == l1;
    assert HighByte(Word(h2, l2)) == h2;
    assert LowByte(Word(h2, l2)) == l2;
  }

  /** Recomputing the checksum leaves a buffer alone exactly when it was
      already valid, and doing it twice is doing it once. */
  lemma ReplaceFixpoint(buf: seq<bv8>)
    requires |buf| >= CrcSize
    ensures ReplaceDataCrc(buf) == buf <==> CheckDataCrc(buf).Ok?
    ensures ReplaceDataCrc(ReplaceDataCrc(buf)) == ReplaceDataCrc(buf)
  {
    CheckIffFramed(buf);
    CheckIffFramed(ReplaceDataCrc(buf));
  }
}

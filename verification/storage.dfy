/** The storage collaborator (`FlashAccess`) as the engine sees it: a byte
    array that `Read` slices and `Write` overwrites in place, plus a
    factory serial number. The engine's calls are recorded as a trace of
    operations; applying the trace's writes gives the storage afterwards. */
module Storage {
  import opened VectorOperations

  datatype Op =
    | ReadOp(size: nat, offset: nat)
    | WriteOp(bytes: seq<bv8>, offset: nat)
    | ReadSerialOp

  datatype Device = Device(mem: seq<bv8>, serial: seq<bv8>)

  /** The bytes the engine can address: up to the end of register1 in its
      largest layout (offset 256, 14 bytes). A backend that returned fewer bytes
      than asked for would make the engine index past the buffer. */
  const StorageSize: nat := 270

  /** `FlashAccess::ReadSerial` reads an 8-byte serial number. */
  const SerialSize: nat := 8

  predicate Valid(dev: Device) {
    |dev.mem| >= StorageSize && |dev.serial| == SerialSize
  }

  /** `FlashAccess::Read(size, offset)`: the stored bytes of the range. */
  function Fetch(dev: Device, size: nat, offset: nat): (bytes: seq<bv8>)
    requires offset + size <= |dev.mem|
    ensures |bytes| == size
    ensures forall k :: 0 <= k < size ==> bytes[k] == dev.mem[offset + k]
  {
    dev.mem[offset..offset + size]
  }

  /** `FlashAccess::Write(bytes, offset)`: the range overwritten, the way
      `MTDAccess::Write` splices the buffer into the sector it rewrites. */
  function Store(dev: Device, bytes: seq<bv8>, offset: nat): (after: Device)
    requires offset + |bytes| <= |dev.mem|
    ensures |after.mem| == |dev.mem| && after.serial == dev.serial
    ensures forall k :: offset <= k < offset + |bytes| ==> after.mem[k] == bytes[k - offset]
    ensures forall k :: 0 <= k < |dev.mem| && !(offset <= k < offset + |bytes|) ==> after.mem[k] == dev.mem[k]
  {
    var mem := Splice(dev.mem, bytes, offset);
    assert forall k :: offset <= k < offset + |bytes| ==> mem[k] == mem[offset..offset + |bytes|][k - offset];
    dev.(mem := mem)
  }

  predicate NoWrites(trace: seq<Op>) {
    forall i :: 0 <= i < |trace| ==> !trace[i].WriteOp?
  }

  /** Every write of the trace lies inside a medium of `n` bytes. */
  predicate WritesFit(trace: seq<Op>, n: nat) {
    forall i :: 0 <= i < |trace| && trace[i].WriteOp? ==> trace[i].offset + |trace[i].bytes| <= n
  }

  /** Both trace predicates distribute over concatenation. */
  lemma TraceAppend(a: seq<Op>, b: seq<Op>, n: nat)
    ensures NoWrites(a + b) <==> NoWrites(a) && NoWrites(b)
    ensures WritesFit(a + b, n) <==> WritesFit(a, n) && WritesFit(b, n)
  {
    assert forall i :: 0 <= i < |a| ==> (a + b)[i] == a[i];
    assert forall i :: 0 <= i < |b| ==> (a + b)[|a| + i] == b[i];
    if NoWrites(a) && NoWrites(b) {
      forall i | 0 <= i < |a + b|
        ensures !(a + b)[i].WriteOp?
      {
        if i >= |a| {
          assert (a + b)[i] == b[i - |a|];
        }
      }
    }
    if WritesFit(a, n) && WritesFit(b, n) {
      forall i | 0 <= i < |a + b| && (a + b)[i].WriteOp?
        ensures (a + b)[i].offset + |(a + b)[i].bytes| <= n
      {
        if i >= |a| {
          assert (a + b)[i] == b[i - |a|];
        }
      }
    }
  }

  /** The device after the trace's writes, in order. */
  function Apply(dev: Device, trace: seq<Op>): (after: Device)
    requires WritesFit(trace, |dev.mem|)
    ensures |after.mem| == |dev.mem| && after.serial == dev.serial
    ensures NoWrites(trace) ==> after == dev
  {
    Replay(dev, trace)
  }

  /** `Apply`, one operation at a time. */
  function Replay(dev: Device, trace: seq<Op>): (after: Device)
    requires WritesFit(trace, |dev.mem|)
    ensures |after.mem| == |dev.mem| && after.serial == dev.serial
    ensures NoWrites(trace) ==> after == dev
    decreases |trace|
  {
    if |trace| == 0 then dev
    else
      var next := if trace[0].WriteOp? then Store(dev, trace[0].bytes, trace[0].offset) else dev;
      assert forall i :: 1 <= i < |trace| ==> trace[1..][i - 1] == trace[i];
      Replay(next, trace[1..])
  }

  /** Applying a trace in two parts is applying the whole trace. */
  lemma {:induction false} ApplyAppend(dev: Device, a: seq<Op>, b: seq<Op>)
    requires WritesFit(a + b, |dev.mem|)
    ensures WritesFit(a, |dev.mem|) && WritesFit(b, |dev.mem|)
    ensures Apply(dev, a + b) == Apply(Apply(dev, a), b)
    decreases |a|
  {
    TraceAppend(a, b, |dev.mem|);
    if |a| > 0 {
      var next := if a[0].WriteOp? then Store(dev, a[0].bytes, a[0].offset) else dev;
      assert (a + b)[0] == a[0];
      assert (a + b)[1..] == a[1..] + b;
      TraceAppend([a[0]], a[1..], |dev.mem|);
      assert [a[0]] + a[1..] == a;
      ApplyAppend(next, a[1..], b);
      assert Replay(dev, a + b) == Replay(next, a[1..] + b);
      assert Replay(dev, a) == Replay(next, a[1..]);
    } else {
      assert a + b == b;
    }
  }

  /** A one-operation trace: a write stores its bytes, anything else leaves
      the device alone. */
  lemma ApplyOne(dev: Device, op: Op)
    requires WritesFit([op], |dev.mem|)
    ensures op.WriteOp? ==> op.offset + |op.bytes| <= |dev.mem|
    ensures Apply(dev, [op]) == if op.WriteOp? then Store(dev, op.bytes, op.offset) else dev
  {
    assert [op][0] == op;
    assert [op][1..] == [];
  }

  /** Reads in front of a trace do not change what it does to the device. */
  lemma ApplyAfterReads(dev: Device, pre: seq<Op>, t: seq<Op>)
    requires NoWrites(pre) && WritesFit(pre + t, |dev.mem|)
    ensures WritesFit(t, |dev.mem|)
    ensures Apply(dev, pre + t) == Apply(dev, t)
  {
    ApplyAppend(dev, pre, t);
  }

  /** A read followed by a write: the device after the write. */
  lemma ApplyReadWrite(dev: Device, r: Op, w: Op)
    requires !r.WriteOp? && w.WriteOp? && w.offset + |w.bytes| <= |dev.mem|
    ensures WritesFit([r, w], |dev.mem|)
    ensures Apply(dev, [r, w]) == Store(dev, w.bytes, w.offset)
  {
    assert [r, w][1..] == [w];
    assert Apply(dev, [w]) == Store(dev, w.bytes, w.offset) by {
      ApplyOne(dev, w);
    }
  }
}

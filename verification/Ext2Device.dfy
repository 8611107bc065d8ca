/**
 The device below the ext2 driver: what the uncached paths of `read_block` and `write_block` do
 to its blocks (src/modules/fs/ext2.cpp:1188-1200 and 1246-1259), and the 32-bit byte offsets
 they give to the file layer.
 */
module Ext2Device {
  import opened Bytes
  import opened Ext2Bytes

  /** The device by block number. */
  type Disk = map<int, seq<Byte>>

  datatype Op = ReadOp(blockNo: int) | WriteOp(blockNo: int, data: seq<Byte>)

  /** The device after an operation of the uncached path; block 0 is refused. */
  function Step(disk: Disk, op: Op): Disk {
    if op.WriteOp? && op.blockNo != 0 then disk[op.blockNo := op.data] else disk
  }

  /** What the operation gives to its caller, whose buffer held `before`. */
  function Result(disk: Disk, op: Op, before: seq<Byte>): seq<Byte> {
    if op.ReadOp? && op.blockNo != 0 && op.blockNo in disk then disk[op.blockNo] else before
  }

  function Run(disk: Disk, ops: seq<Op>): Disk
    decreases |ops|
  {
    if ops == [] then disk else Run(Step(disk, ops[0]), ops[1..])
  }

  function Results(disk: Disk, ops: seq<Op>, before: seq<Byte>): seq<seq<Byte>>
    decreases |ops|
  {
    if ops == [] then [] else [Result(disk, ops[0], before)] + Results(Step(disk, ops[0]), ops[1..], before)
  }

  lemma {:induction false} RunOneMore(disk: Disk, ops: seq<Op>, op: Op, before: seq<Byte>)
    ensures Run(disk, ops + [op]) == Step(Run(disk, ops), op)
    ensures Results(disk, ops + [op], before) == Results(disk, ops, before) + [Result(Run(disk, ops), op, before)]
    decreases |ops|
  {
    if ops == [] {
      assert ops + [op] == [op];
      assert Run(Step(disk, op), []) == Step(disk, op);
      assert Results(Step(disk, op), [], before) == [];
    } else {
      assert (ops + [op])[1..] == ops[1..] + [op];
      RunOneMore(Step(disk, ops[0]), ops[1..], op, before);
    }
  }

  // ---------- Byte offsets ----------

  /** The offset at which `fread` and `fwrite` are asked for block `b`: a product of 32 bits. */
  function Offset(size: nat, b: nat): nat {
    b * size % WORD_LIMIT
  }

  /** The first `total` blocks lie below 2^32. */
  predicate Addressable(size: nat, total: nat) {
    total * size <= WORD_LIMIT
  }

  lemma {:induction false} ProductOrder(a: nat, b: nat, size: nat)
    requires a < b
    ensures a * size + size <= b * size
  {
    assert b * size == (b - 1) * size + size;
    if a < b - 1 {
      ProductOrder(a, b - 1, size);
    }
  }

  /** Up to this bound offsets are what they should be, and blocks do not overlap. */
  lemma OffsetIs(size: nat, total: nat, b: nat)
    requires 0 < size && Addressable(size, total) && b < total
    ensures Offset(size, b) == b * size && b * size + size <= total * size
  {
    ProductOrder(b, total, size);
    Unwrapped(b * size);
  }

  lemma Unwrapped(x: nat)
    requires x < WORD_LIMIT
    ensures x % WORD_LIMIT == x
  {
  }

  ghost predicate DistinctOffsets(size: nat, total: nat) {
    forall a: nat, b: nat | a < b < total :: Offset(size, a) != Offset(size, b)
  }

  /** Different blocks have different offsets exactly if all of them lie below 2^32. */
  lemma DistinctIffAddressable(size: nat, total: nat)
    requires 0 < size && WORD_LIMIT % size == 0
    ensures DistinctOffsets(size, total) <==> Addressable(size, total)
  {
    if Addressable(size, total) {
      forall a: nat, b: nat | a < b < total ensures Offset(size, a) != Offset(size, b) {
        OffsetIs(size, total, a);
        OffsetIs(size, total, b);
        ProductOrder(a, b, size);
      }
    } else {
      var first := WORD_LIMIT / size;
      ExactMultiple(size, first);
      FewBlocks(size, total, first);
      assert Offset(size, 0) == Offset(size, first);
    }
  }

  lemma FewBlocks(size: nat, total: nat, first: nat)
    requires first * size == WORD_LIMIT
    ensures total <= first ==> Addressable(size, total)
  {
    if total < first {
      ProductOrder(total, first, size);
    }
  }

  /** The first block whose offset is that of block 0 again. */
  lemma ExactMultiple(size: nat, first: nat)
    requires 0 < size && WORD_LIMIT % size == 0 && first == WORD_LIMIT / size
    ensures first * size == WORD_LIMIT && 0 < first && Offset(size, first) == 0 == Offset(size, 0)
  {
    assert WORD_LIMIT == size * (WORD_LIMIT / size) + WORD_LIMIT % size;
    assert first * size == WORD_LIMIT;
    assert WORD_LIMIT % WORD_LIMIT == 0;
    assert 0 * size == 0;
  }

  // ---------- The bytes of the device ----------

  /** Block `b` among the bytes of the device. */
  function BlockAt(bytes: seq<Byte>, size: nat, b: nat): seq<Byte> {
    var from := Offset(size, b);
    if from + size <= |bytes| then bytes[from..from + size] else []
  }

  /** The device by block number. */
  function Blocks(bytes: seq<Byte>, size: nat, total: nat): Disk {
    map b | 0 <= b < total :: BlockAt(bytes, size, b)
  }

  /** `fwrite` of a block. */
  function WriteAt(bytes: seq<Byte>, size: nat, b: nat, data: seq<Byte>): seq<Byte> {
    var from := Offset(size, b);
    if from + |data| <= |bytes| then bytes[..from] + data + bytes[from + |data|..] else bytes
  }

  /** On an addressable device a store to the bytes of a block is a step of the device by block number. */
  lemma StoreIsStep(bytes: seq<Byte>, size: nat, total: nat, b: nat, data: seq<Byte>)
    requires 0 < size && Addressable(size, total) && total * size <= |bytes| && 0 < b < total && |data| == size
    ensures Blocks(WriteAt(bytes, size, b, data), size, total) == Step(Blocks(bytes, size, total), WriteOp(b, data))
    ensures |WriteAt(bytes, size, b, data)| == |bytes|
  {
    OffsetIs(size, total, b);
    var after := WriteAt(bytes, size, b, data);
    forall a: nat | a < total ensures BlockAt(after, size, a) == if a == b then data else BlockAt(bytes, size, a) {
      OffsetIs(size, total, a);
      if a < b {
        ProductOrder(a, b, size);
      } else if b < a {
        ProductOrder(b, a, size);
      }
    }
  }
}

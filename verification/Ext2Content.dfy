/**
 The bytes of a file, and what a write and a truncation make of them.
 */
module Ext2Content {
  import opened Bytes
  import opened Ext2Bytes
  import opened Ext2Device
  import opened Ext2Disk
  import opened Ext2Map
  import opened Ext2Files
  import opened Ext2Frames
  import opened Ext2Growth
  import opened Ext2Splice
  import opened Ext2Write

  /** Byte `x` of the blocks of a file, whatever its size; zero beyond its blocks. */
  function Raw(g: Geometry, disk: Disk, n: seq<Byte>, x: nat): Byte
    requires GeometryOk(g)
  {
    var c := Content(g, disk, n, Row(x, g.blockSize));
    if Col(x, g.blockSize) < |c| then c[Col(x, g.blockSize)] else 0
  }

  /** Byte `x` of the file, extended with zeros. */
  function FileByte(g: Geometry, disk: Disk, n: seq<Byte>, x: nat): Byte
    requires GeometryOk(g)
  {
    if x < FileSize(n) then Raw(g, disk, n, x) else 0
  }

  /** Nothing but zeros is stored behind the end of the file. */
  ghost predicate CleanTail(g: Geometry, disk: Disk, n: seq<Byte>)
    requires GeometryOk(g)
  {
    forall x: nat | FileSize(n) <= x :: Raw(g, disk, n, x) == 0
  }

  lemma RawOfBlock(g: Geometry, disk: Disk, n: seq<Byte>, i: nat, k: nat)
    requires GeometryOk(g) && k < g.blockSize
    ensures Raw(g, disk, n, Pos(g.blockSize, i, k)) == if k < |Content(g, disk, n, i)| then Content(g, disk, n, i)[k]
      else 0
  {
    DivisionIsUnique(Pos(g.blockSize, i, k), g.blockSize, i, k);
  }

  /** Block `i` after a write. */
  lemma SplicedBlock(g: Geometry, s0: State, s: State, files: set<int>, f: int, n0: seq<Byte>, n: seq<Byte>,
      offset: nat, buffer: seq<Byte>, i: nat)
    requires AllocOk(g, s0) && FileOk(g, s0, f, n0) && Spliced(g, s0, s, files, f, n0, n, offset, buffer)
    ensures GeometryOk(g) && |Content(g, s0.disk, n0, i)| == g.blockSize
    ensures Content(g, s.disk, n, i) == Patched(g.blockSize, Content(g, s0.disk, n0, i), i, offset, buffer)
  {
    hide FileOk, FsOk, Elsewhere, Content, Patched, Pos;
    ContentSize(g, s0, f, n0, i);
  }

  /** Where the buffer went: byte `x` of the file is from the buffer if it is in its range, and else what it was. */
  lemma SplicedBytes(g: Geometry, s0: State, s: State, files: set<int>, f: int, n0: seq<Byte>, n: seq<Byte>,
      offset: nat, buffer: seq<Byte>, x: nat)
    requires AllocOk(g, s0) && FileOk(g, s0, f, n0) && Spliced(g, s0, s, files, f, n0, n, offset, buffer)
    ensures Raw(g, s.disk, n, x) == if offset <= x < offset + |buffer| then buffer[x - offset]
      else Raw(g, s0.disk, n0, x)
  {
    hide AllocOk, FileOk, Spliced, Content, Patched, Pos;
    SplicedBlock(g, s0, s, files, f, n0, n, offset, buffer, 0);
    var i := Row(x, g.blockSize);
    SplicedBlock(g, s0, s, files, f, n0, n, offset, buffer, i);
    PosSplits(g.blockSize, x);
  }

  /** Writes keep the space behind the end clean. */
  lemma CleanTailKept(g: Geometry, s0: State, s: State, files: set<int>, f: int, n0: seq<Byte>, n: seq<Byte>,
      offset: nat, buffer: seq<Byte>)
    requires AllocOk(g, s0) && FileOk(g, s0, f, n0) && Spliced(g, s0, s, files, f, n0, n, offset, buffer) &&
      CleanTail(g, s0.disk, n0)
    ensures CleanTail(g, s.disk, n)
  {
    forall x: nat | FileSize(n) <= x ensures Raw(g, s.disk, n, x) == 0 {
      SplicedBytes(g, s0, s, files, f, n0, n, offset, buffer, x);
    }
  }

  /** The contents of the file after a write that extends it with zeros up to `offset` if need be. */
  ghost predicate ZeroExtended(g: Geometry, disk0: Disk, n0: seq<Byte>, disk: Disk, n: seq<Byte>, offset: nat,
      buffer: seq<Byte>)
    requires GeometryOk(g)
  {
    && FileSize(n) == (if FileSize(n0) < offset + |buffer| then offset + |buffer| else FileSize(n0))
    && forall x: nat :: FileByte(g, disk, n, x) ==
         if offset <= x < offset + |buffer| then buffer[x - offset] else FileByte(g, disk0, n0, x)
  }

  /** Between the old end of the file and the place of the write there are only zeros. */
  ghost predicate GapIsClean(g: Geometry, disk: Disk, n: seq<Byte>, offset: nat, length: nat)
    requires GeometryOk(g)
  {
    forall x: nat | FileSize(n) <= x < offset && FileSize(n) < offset + length :: Raw(g, disk, n, x) == 0
  }

  /** A write splices the buffer into the zero-extended file exactly if the gap it leaves is clean. */
  lemma WriteZeroExtends(g: Geometry, s0: State, s: State, files: set<int>, f: int, n0: seq<Byte>, n: seq<Byte>,
      offset: nat, buffer: seq<Byte>)
    requires AllocOk(g, s0) && FileOk(g, s0, f, n0) && Spliced(g, s0, s, files, f, n0, n, offset, buffer)
    ensures ZeroExtended(g, s0.disk, n0, s.disk, n, offset, buffer) <==> GapIsClean(g, s0.disk, n0, offset, |buffer|)
  {
    forall x: nat ensures FileByte(g, s.disk, n, x) ==
      if offset <= x < offset + |buffer| then buffer[x - offset]
      else if x < FileSize(n) then Raw(g, s0.disk, n0, x) else 0
    {
      SplicedBytes(g, s0, s, files, f, n0, n, offset, buffer, x);
    }
    if ZeroExtended(g, s0.disk, n0, s.disk, n, offset, buffer) {
      forall x: nat | FileSize(n0) <= x < offset && FileSize(n0) < offset + |buffer|
        ensures Raw(g, s0.disk, n0, x) == 0 {
        assert FileByte(g, s.disk, n, x) == FileByte(g, s0.disk, n0, x);
      }
    }
  }

  /** No other file is concerned by a write: neither its inode nor a byte of its blocks. */
  lemma OtherFilesUntouched(g: Geometry, s0: State, s: State, files: set<int>, f: int, n0: seq<Byte>, n: seq<Byte>,
      offset: nat, buffer: seq<Byte>, h: int, x: nat)
    requires FsOk(g, s0, files) && Spliced(g, s0, s, files, f, n0, n, offset, buffer) && h in files && h != f
    ensures Placed(g, s0, h) && Placed(g, s, h) && InodeAt(g, s, h) == InodeAt(g, s0, h)
    ensures Raw(g, s.disk, InodeAt(g, s, h), x) == Raw(g, s0.disk, InodeAt(g, s0, h), x)
  {
    assert OneFileOk(g, s0, h);
    OneFileKept(g, s0, s, files, f, h);
    assert Content(g, s.disk, InodeAt(g, s0, h), Row(x, g.blockSize)) ==
      Content(g, s0.disk, InodeAt(g, s0, h), Row(x, g.blockSize));
  }

  // ---------- Truncation ----------

  /** A file opened with O_TRUNC: the size is zero, the blocks stay. */
  ghost predicate Truncated(g: Geometry, s0: State, s: State, files: set<int>, f: int, n0: seq<Byte>, n: seq<Byte>)
    requires GeometryOk(g)
  {
    && FsOk(g, s, files) && f in files && Placed(g, s, f) && InodeAt(g, s, f) == n && FileOk(g, s, f, n)
    && Count(g, n) == Count(g, n0) && SameContent(g, s0.disk, n0, s.disk, n) && FileSize(n) == 0 &&
      Elsewhere(g, s0, s, files, f)
  }

  /** Truncation leaves the space behind the end clean only if the file had no byte but zeros. */
  lemma TruncationIsDirty(g: Geometry, s0: State, s: State, files: set<int>, f: int, n0: seq<Byte>, n: seq<Byte>)
    requires GeometryOk(g) && Truncated(g, s0, s, files, f, n0, n)
    ensures CleanTail(g, s.disk, n) <==> forall x: nat :: Raw(g, s0.disk, n0, x) == 0
  {
    forall x: nat ensures Raw(g, s.disk, n, x) == Raw(g, s0.disk, n0, x) {
      assert Content(g, s.disk, n, Row(x, g.blockSize)) == Content(g, s0.disk, n0, Row(x, g.blockSize));
    }
  }

  /** Old bytes come back: after truncation, a write of `buffer` at `offset` zero-extends the file exactly if
      the old bytes before `offset` were zeros. */
  lemma OldBytesReturn(g: Geometry, s0: State, s1: State, s2: State, files: set<int>, f: int, n0: seq<Byte>,
      n1: seq<Byte>, n2: seq<Byte>, offset: nat, buffer: seq<Byte>)
    requires GeometryOk(g) && Truncated(g, s0, s1, files, f, n0, n1) &&
      Spliced(g, s1, s2, files, f, n1, n2, offset, buffer)
    ensures ZeroExtended(g, s1.disk, n1, s2.disk, n2, offset, buffer) <==> forall x: nat | x < offset ::
      Raw(g, s0.disk, n0, x) == 0
  {
    WriteZeroExtends(g, s1, s2, files, f, n1, n2, offset, buffer);
    forall x: nat ensures Raw(g, s1.disk, n1, x) == Raw(g, s0.disk, n0, x) {
      assert Content(g, s1.disk, n1, Row(x, g.blockSize)) == Content(g, s0.disk, n0, Row(x, g.blockSize));
    }
  }

  // ---------- Reading ----------

  /** `data` is what the file holds from `offset` on. */
  ghost predicate IsSlice(g: Geometry, disk: Disk, n: seq<Byte>, offset: nat, data: seq<Byte>)
    requires GeometryOk(g)
  {
    forall k | 0 <= k < |data| :: data[k] == Raw(g, disk, n, offset + k)
  }

  /** Bytes of block `i` continue a slice that ends where they begin. */
  lemma SliceGrows(g: Geometry, disk: Disk, n: seq<Byte>, offset: nat, data: seq<Byte>, i: nat, from: nat, to: nat)
    requires GeometryOk(g) && IsSlice(g, disk, n, offset, data) && |Content(g, disk, n, i)| == g.blockSize
    requires from <= to <= g.blockSize && offset + |data| == Pos(g.blockSize, i, from)
    ensures IsSlice(g, disk, n, offset, data + Content(g, disk, n, i)[from..to])
  {
    hide Raw, Content, Pos, GeometryOk;
    var c := Content(g, disk, n, i);
    var r := data + c[from..to];
    forall k | 0 <= k < |r| ensures r[k] == Raw(g, disk, n, offset + k) {
      if k >= |data| {
        PosPlus(g.blockSize, i, from, k - |data|);
        RawOfBlock(g, disk, n, i, from + (k - |data|));
      }
    }
  }

  lemma PosPlus(size: nat, i: nat, k: nat, j: nat)
    ensures Pos(size, i, k) + j == Pos(size, i, k + j)
  {
  }

  /** What has been written is read: the slice at the place of a write is the buffer. */
  lemma WrittenIsRead(g: Geometry, s0: State, s: State, files: set<int>, f: int, n0: seq<Byte>, n: seq<Byte>,
      offset: nat, buffer: seq<Byte>, data: seq<Byte>)
    requires AllocOk(g, s0) && FileOk(g, s0, f, n0) && Spliced(g, s0, s, files, f, n0, n, offset, buffer)
    requires IsSlice(g, s.disk, n, offset, data) && |data| == |buffer|
    ensures data == buffer
  {
    hide AllocOk, FileOk, Spliced, Raw;
    forall k | 0 <= k < |data| ensures data[k] == buffer[k] {
      SplicedBytes(g, s0, s, files, f, n0, n, offset, buffer, offset + k);
    }
  }

  /** The length `ext2_read` works with; its sum and its difference wrap at 32 bits. */
  function ReadLength(fileSize: int, offset: int, size: int): int {
    var sum := (offset + size) % WORD_LIMIT;
    ((if sum > fileSize then fileSize else sum) - offset) % WORD_LIMIT
  }

  /** It is the number of bytes there are to read exactly if the offset is in the file and the sum does not wrap. */
  lemma ReadLengthIsRight(fileSize: int, offset: int, size: int)
    requires 0 < fileSize < WORD_LIMIT && 0 <= offset < WORD_LIMIT && 0 <= size < WORD_LIMIT
    ensures var there := if offset >= fileSize then 0 else if offset + size > fileSize then fileSize - offset else size;
      ReadLength(fileSize, offset, size) == there <==> offset <= fileSize && offset + size < WORD_LIMIT
  {
    if offset + size < WORD_LIMIT {
      assert (offset + size) % WORD_LIMIT == offset + size;
    } else {
      assert (offset + size) % WORD_LIMIT == offset + size - WORD_LIMIT;
    }
  }

  /** One byte from behind the end of a file of one byte, and all bytes from the second one of ten. */
  lemma ReadLengthWraps()
    ensures ReadLength(1, 2, 1) == WORD_LIMIT - 1 == ReadLength(10, 1, WORD_LIMIT - 1)
  {
  }
}

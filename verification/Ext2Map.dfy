/**
 The block map of an inode: twelve direct entries, one table, and one table of tables
 (src/modules/fs/ext2.cpp:809-980).
 */
module Ext2Map {
  import opened Bytes
  import opened Ext2Bytes
  import opened Ext2Device
  import opened Ext2Disk

  const DIRECT_BLOCKS: int := 12

  // Words of an inode.
  const SIZE_WORD: int := 1
  const SECTORS_WORD: int := 7
  const BLOCK_WORD: int := 10

  function Ptr(n: seq<Byte>, j: nat): int {
    Word(n, BLOCK_WORD + j)
  }

  function SetPtr(n: seq<Byte>, j: nat, v: int): (r: seq<Byte>)
    requires j < 15 && 128 <= |n| && 0 <= v < WORD_LIMIT
    ensures |r| == |n|
  {
    SetWord(n, BLOCK_WORD + j, v)
  }

  lemma PtrStored(n: seq<Byte>, j: nat, v: int, k: nat)
    requires j < 15 && k < 15 && 128 <= |n| && 0 <= v < WORD_LIMIT
    ensures Ptr(SetPtr(n, j, v), k) == if k == j then v else Ptr(n, k)
    ensures Word(SetPtr(n, j, v), SIZE_WORD) == Word(n, SIZE_WORD)
    ensures Word(SetPtr(n, j, v), SECTORS_WORD) == Word(n, SECTORS_WORD)
  {
    WordStored(n, BLOCK_WORD + j, v, BLOCK_WORD + k);
    WordStored(n, BLOCK_WORD + j, v, SIZE_WORD);
    WordStored(n, BLOCK_WORD + j, v, SECTORS_WORD);
  }

  /** Pointers per block. */
  function PerBlock(g: Geometry): (p: nat)
    ensures GeometryOk(g) ==> 256 <= p && 4 * p == g.blockSize
  {
    g.blockSize / 4
  }

  /** How many blocks the direct, single and double ranges map. */
  function MaxBlocks(g: Geometry): nat {
    var p := PerBlock(g);
    DIRECT_BLOCKS + p + p * p
  }

  /** Where the number of a block of a file is stored. */
  datatype Slot = Direct(j: nat) | InSingle(j: nat) | InDouble(row: nat, col: nat)

  function SlotOf(g: Geometry, i: nat): Slot
    requires GeometryOk(g)
  {
    var p := PerBlock(g);
    if i < DIRECT_BLOCKS then Direct(i)
    else if i < DIRECT_BLOCKS + p then InSingle(i - DIRECT_BLOCKS)
    else
      InDouble(Row(i - DIRECT_BLOCKS - p, p), Col(i - DIRECT_BLOCKS - p, p))
  }

  function Row(b: nat, p: nat): nat
    requires 0 < p
  {
    b / p
  }

  function Col(b: nat, p: nat): (r: nat)
    requires 0 < p
    ensures r < p && b == Row(b, p) * p + r
  {
    DivisionFits(b, p);
    b - b / p * p
  }

  predicate SlotOk(g: Geometry, t: Slot) {
    match t
    case Direct(j) => j < DIRECT_BLOCKS
    case InSingle(j) => j < PerBlock(g)
    case InDouble(row, col) => row < PerBlock(g) && col < PerBlock(g)
  }

  lemma DivisionFits(b: nat, p: nat)
    requires 0 < p
    ensures 0 <= b - b / p * p < p
  {
    assert b == b / p * p + b % p;
  }

  lemma QuotientBelow(b: nat, p: nat)
    requires 0 < p && b < p * p
    ensures b / p < p
  {
    DivisionFits(b, p);
    FactorBelow(b / p, p, p);
  }

  lemma FactorBelow(a: nat, c: nat, p: nat)
    requires a * p < c * p
    ensures a < c
  {
    assert a >= c ==> (a - c) * p >= 0;
    assert (a - c) * p == a * p - c * p;
  }

  /** The slots of different blocks differ. */
  lemma SlotsDiffer(g: Geometry, i: nat, k: nat)
    requires GeometryOk(g) && i < MaxBlocks(g) && k < MaxBlocks(g)
    ensures SlotOk(g, SlotOf(g, i))
    ensures SlotOf(g, i) == SlotOf(g, k) <==> i == k
  {
    var p := PerBlock(g);
    if i >= DIRECT_BLOCKS + p {
      QuotientBelow(i - DIRECT_BLOCKS - p, p);
      DivisionFits(i - DIRECT_BLOCKS - p, p);
    }
  }

  /** The entry of a slot, zero where no table is. */
  function At(disk: Disk, n: seq<Byte>, t: Slot): int {
    match t
    case Direct(j) => Ptr(n, j)
    case InSingle(j) => if Ptr(n, DIRECT_BLOCKS) == 0 then 0 else Word(Block(disk, Ptr(n, DIRECT_BLOCKS)), j)
    case InDouble(row, col) =>
      var inner := InnerTable(disk, n, row);
      if inner == 0 then 0 else Word(Block(disk, inner), col)
  }

  /** The table of a row of the double range, zero if there is none. */
  function InnerTable(disk: Disk, n: seq<Byte>, row: nat): int {
    if Ptr(n, DIRECT_BLOCKS + 1) == 0 then 0 else Word(Block(disk, Ptr(n, DIRECT_BLOCKS + 1)), row)
  }

  /** The block of the device that holds block `i` of the file, zero if none does. */
  function Lookup(g: Geometry, disk: Disk, n: seq<Byte>, i: nat): int
    requires GeometryOk(g)
  {
    At(disk, n, SlotOf(g, i))
  }

  predicate IsTable(o: Owner, f: int) {
    match o
    case Single(h) => h == f
    case Double(h) => h == f
    case Inner(h, row) => h == f
    case _ => false
  }

  /** The tables of a file are its own, each for one purpose. */
  ghost predicate TablesOk(g: Geometry, s: State, f: int, n: seq<Byte>) {
    && |n| == g.inodeSize
    && (Ptr(n, DIRECT_BLOCKS) != 0 ==> Owned(s.own, Ptr(n, DIRECT_BLOCKS), Single(f)))
    && (Ptr(n, DIRECT_BLOCKS + 1) != 0 ==> Owned(s.own, Ptr(n, DIRECT_BLOCKS + 1), Double(f)))
    && (forall row: nat | row < PerBlock(g) :: InnerOk(s, f, n, row))
  }

  ghost predicate InnerOk(s: State, f: int, n: seq<Byte>, row: nat) {
    InnerTable(s.disk, n, row) != 0 ==> Owned(s.own, InnerTable(s.disk, n, row), Inner(f, row))
  }

  /** Tables of `f` stay in use and as they are. */
  ghost predicate TablesSame(s: State, s': State, f: int) {
    forall x | x in s.own && IsTable(s.own[x], f) :: Block(s'.disk, x) == Block(s.disk, x) && Owned(s'.own, x, s.own[x])
  }

  /** The two states map the same blocks. */
  ghost predicate SameMap(g: Geometry, disk: Disk, n: seq<Byte>, disk': Disk, n': seq<Byte>) {
    forall t | SlotOk(g, t) :: At(disk', n', t) == At(disk, n, t)
  }

  /** Whatever happens elsewhere, the map stays. */
  lemma MapFrame(g: Geometry, s: State, s': State, f: int, n: seq<Byte>)
    requires TablesOk(g, s, f, n) && TablesSame(s, s', f)
    ensures TablesOk(g, s', f, n) && SameMap(g, s.disk, n, s'.disk, n)
    ensures forall row: nat | row < PerBlock(g) :: InnerTable(s'.disk, n, row) == InnerTable(s.disk, n, row)
  {
    forall row: nat | row < PerBlock(g) ensures InnerTable(s'.disk, n, row) == InnerTable(s.disk, n, row) &&
      InnerOk(s', f, n, row) {
      assert InnerOk(s, f, n, row);
    }
    forall t | SlotOk(g, t) ensures At(s'.disk, n, t) == At(s.disk, n, t) {
      if t.InDouble? {
        assert InnerOk(s, f, n, t.row);
      }
    }
  }

  /** A direct entry is set in the inode itself. */
  lemma SetDirect(g: Geometry, s: State, f: int, n: seq<Byte>, j: nat, v: int)
    requires GeometryOk(g) && TablesOk(g, s, f, n) && j < DIRECT_BLOCKS && 0 <= v < WORD_LIMIT
    ensures var n' := SetPtr(n, j, v);
      && TablesOk(g, s, f, n') && At(s.disk, n', Direct(j)) == v
      && forall t | SlotOk(g, t) && t != Direct(j) :: At(s.disk, n', t) == At(s.disk, n, t)
  {
    var n' := SetPtr(n, j, v);
    PtrStored(n, j, v, DIRECT_BLOCKS);
    PtrStored(n, j, v, DIRECT_BLOCKS + 1);
    PtrStored(n, j, v, j);
    forall row: nat | row < PerBlock(g) ensures InnerOk(s, f, n', row) {
      assert InnerOk(s, f, n, row);
    }
    forall t | SlotOk(g, t) && t != Direct(j) ensures At(s.disk, n', t) == At(s.disk, n, t) {
      if t.Direct? {
        PtrStored(n, j, v, t.j);
      }
    }
  }

  /** A fresh, zeroed single table maps nothing. */
  lemma AttachSingle(g: Geometry, s: State, f: int, n: seq<Byte>, b: int)
    requires GeometryOk(g) && TablesOk(g, s, f, n) && Ptr(n, DIRECT_BLOCKS) == 0
    requires 0 < b < WORD_LIMIT && Owned(s.own, b, Single(f)) && Block(s.disk, b) == Zeros(g.blockSize)
    ensures var n' := SetPtr(n, DIRECT_BLOCKS, b);
      TablesOk(g, s, f, n') && SameMap(g, s.disk, n, s.disk, n') && Ptr(n', DIRECT_BLOCKS) == b
  {
    var n' := SetPtr(n, DIRECT_BLOCKS, b);
    PtrStored(n, DIRECT_BLOCKS, b, DIRECT_BLOCKS);
    PtrStored(n, DIRECT_BLOCKS, b, DIRECT_BLOCKS + 1);
    forall row: nat | row < PerBlock(g) ensures InnerOk(s, f, n', row) {
      assert InnerOk(s, f, n, row);
    }
    forall t | SlotOk(g, t) ensures At(s.disk, n', t) == At(s.disk, n, t) {
      match t
      case Direct(j) => PtrStored(n, DIRECT_BLOCKS, b, j);
      case InSingle(j) => ZeroWord(g.blockSize, j);
      case InDouble(row, col) =>
    }
  }

  /** A fresh, zeroed table of tables has no rows. */
  lemma AttachDouble(g: Geometry, s: State, f: int, n: seq<Byte>, b: int)
    requires GeometryOk(g) && TablesOk(g, s, f, n) && Ptr(n, DIRECT_BLOCKS + 1) == 0
    requires 0 < b < WORD_LIMIT && Owned(s.own, b, Double(f)) && Block(s.disk, b) == Zeros(g.blockSize)
    ensures var n' := SetPtr(n, DIRECT_BLOCKS + 1, b);
      && TablesOk(g, s, f, n') && SameMap(g, s.disk, n, s.disk, n') && Ptr(n', DIRECT_BLOCKS + 1) == b
      && forall row: nat | row < PerBlock(g) :: InnerTable(s.disk, n', row) == 0
  {
    var n' := SetPtr(n, DIRECT_BLOCKS + 1, b);
    PtrStored(n, DIRECT_BLOCKS + 1, b, DIRECT_BLOCKS);
    PtrStored(n, DIRECT_BLOCKS + 1, b, DIRECT_BLOCKS + 1);
    forall row: nat | row < PerBlock(g) ensures InnerTable(s.disk, n', row) == 0 && InnerOk(s, f, n', row) {
      ZeroWord(g.blockSize, row);
    }
    forall t | SlotOk(g, t) ensures At(s.disk, n', t) == At(s.disk, n, t) {
      if t.Direct? {
        PtrStored(n, DIRECT_BLOCKS + 1, b, t.j);
      }
    }
  }

  /** The state after one word of a block has been stored. */
  function Stored(s: State, x: int, k: nat, v: int): State
    requires 4 * k + 4 <= |Block(s.disk, x)| && 0 <= v < WORD_LIMIT
  {
    s.(disk := s.disk[x := SetWord(Block(s.disk, x), k, v)])
  }

  lemma StoredWord(s: State, x: int, k: nat, v: int, y: int, l: nat)
    requires 4 * k + 4 <= |Block(s.disk, x)| && 0 <= v < WORD_LIMIT && 4 * l + 4 <= |Block(s.disk, y)|
    ensures Word(Block(Stored(s, x, k, v).disk, y), l) == if y == x && l == k then v else Word(Block(s.disk, y), l)
  {
    if y == x {
      WordStored(Block(s.disk, x), k, v, l);
    }
  }

  /** A fresh, zeroed inner table maps nothing. */
  lemma AttachInner(g: Geometry, s: State, f: int, n: seq<Byte>, row: nat, b: int)
    requires GeometryOk(g) && Sized(g, s) && TablesOk(g, s, f, n) && Ptr(n, DIRECT_BLOCKS + 1) != 0
    requires row < PerBlock(g) && InnerTable(s.disk, n, row) == 0
    requires 0 < b < WORD_LIMIT && Owned(s.own, b, Inner(f, row)) && Block(s.disk, b) == Zeros(g.blockSize)
    ensures var d := Ptr(n, DIRECT_BLOCKS + 1);
      && 4 * row + 4 <= |Block(s.disk, d)|
      && TablesOk(g, Stored(s, d, row, b), f, n) && SameMap(g, s.disk, n, Stored(s, d, row, b).disk, n)
      && forall r: nat | r < PerBlock(g) ::
           InnerTable(Stored(s, d, row, b).disk, n, r) == if r == row then b else InnerTable(s.disk, n, r)
  {
    var d := Ptr(n, DIRECT_BLOCKS + 1);
    var s' := Stored(s, d, row, b);
    forall r: nat | r < PerBlock(g) ensures InnerTable(s'.disk, n, r) ==
      (if r == row then b else InnerTable(s.disk, n, r)) && InnerOk(s', f, n, r) {
      assert InnerOk(s, f, n, r);
      StoredWord(s, d, row, b, d, r);
    }
    forall t | SlotOk(g, t) ensures At(s'.disk, n, t) == At(s.disk, n, t) {
      if t.InDouble? {
        assert InnerOk(s, f, n, t.row);
        ZeroWord(g.blockSize, t.col);
      }
    }
  }

  /** An entry of the single table is set. */
  lemma SetInSingle(g: Geometry, s: State, f: int, n: seq<Byte>, j: nat, v: int)
    requires GeometryOk(g) && Sized(g, s) && TablesOk(g, s, f, n) && Ptr(n, DIRECT_BLOCKS) != 0
    requires j < PerBlock(g) && 0 <= v < WORD_LIMIT
    ensures var x := Ptr(n, DIRECT_BLOCKS);
      && 4 * j + 4 <= |Block(s.disk, x)|
      && TablesOk(g, Stored(s, x, j, v), f, n) && At(Stored(s, x, j, v).disk, n, InSingle(j)) == v
      && (forall t | SlotOk(g, t) && t != InSingle(j) :: At(Stored(s, x, j, v).disk, n, t) == At(s.disk, n, t))
      && forall r: nat | r < PerBlock(g) :: InnerTable(Stored(s, x, j, v).disk, n, r) == InnerTable(s.disk, n, r)
  {
    var x := Ptr(n, DIRECT_BLOCKS);
    var s' := Stored(s, x, j, v);
    StoredWord(s, x, j, v, x, j);
    forall r: nat | r < PerBlock(g) ensures InnerTable(s'.disk, n, r) == InnerTable(s.disk, n, r) &&
      InnerOk(s', f, n, r) {
      assert InnerOk(s, f, n, r);
    }
    forall t | SlotOk(g, t) && t != InSingle(j) ensures At(s'.disk, n, t) == At(s.disk, n, t) {
      match t
      case Direct(k) =>
      case InSingle(k) => StoredWord(s, x, j, v, x, k);
      case InDouble(row, col) => assert InnerOk(s, f, n, row);
    }
  }

  /** An entry of an inner table is set. */
  lemma SetInDouble(g: Geometry, s: State, f: int, n: seq<Byte>, row: nat, col: nat, v: int)
    requires GeometryOk(g) && Sized(g, s) && TablesOk(g, s, f, n) && row < PerBlock(g) &&
      InnerTable(s.disk, n, row) != 0
    requires col < PerBlock(g) && 0 <= v < WORD_LIMIT
    ensures var x := InnerTable(s.disk, n, row);
      && 4 * col + 4 <= |Block(s.disk, x)|
      && TablesOk(g, Stored(s, x, col, v), f, n) && At(Stored(s, x, col, v).disk, n, InDouble(row, col)) == v
      && (forall t | SlotOk(g, t) && t != InDouble(row, col) ::
            At(Stored(s, x, col, v).disk, n, t) == At(s.disk, n, t))
      && forall r: nat | r < PerBlock(g) :: InnerTable(Stored(s, x, col, v).disk, n, r) == InnerTable(s.disk, n, r)
  {
    var x := InnerTable(s.disk, n, row);
    assert InnerOk(s, f, n, row);
    var s' := Stored(s, x, col, v);
    StoredWord(s, x, col, v, x, col);
    forall r: nat | r < PerBlock(g) ensures InnerTable(s'.disk, n, r) == InnerTable(s.disk, n, r) &&
      InnerOk(s', f, n, r) {
      assert InnerOk(s, f, n, r);
    }
    forall t | SlotOk(g, t) && t != InDouble(row, col) ensures At(s'.disk, n, t) == At(s.disk, n, t) {
      if t.InDouble? {
        assert InnerOk(s, f, n, t.row);
        if t.row == row {
          StoredWord(s, x, col, v, x, t.col);
        }
      }
    }
  }
}

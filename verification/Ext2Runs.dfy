/**
 Whole runs of the ext2 driver (src/modules/fs/ext2.cpp:94-102 and 399-448): to its users the
 device is a collection of independent files.
 */
module Ext2Runs {
  import opened Bytes
  import opened Ext2Bytes
  import opened Ext2Disk
  import opened Ext2Map
  import opened Ext2Files
  import opened Ext2Frames
  import opened Ext2Device
  import opened Ext2Space
  import opened Ext2Plan
  import opened Ext2Growth
  import opened Ext2Splice
  import opened Ext2Write
  import opened Ext2Content
  import opened Ext2

  /** A file to its users: its size, and a byte at every place, also behind the end. */
  datatype File = File(size: int, bytes: nat -> Byte)

  datatype Op =
    | WriteOp(f: int, offset: nat, data: seq<Byte>)
    | TruncateOp(f: int)
    | ReadOp(f: int, offset: nat, size: nat)

  function Overlaid(bytes: nat -> Byte, offset: nat, data: seq<Byte>): nat -> Byte {
    (x: nat) => if offset <= x < offset + |data| then data[x - offset] else bytes(x)
  }

  /** What an operation does to the file it names. */
  function After(file: File, op: Op): File {
    match op
    case WriteOp(_, offset, data) =>
      File(if file.size < offset + |data| then offset + |data| else file.size, Overlaid(file.bytes, offset, data))
    case TruncateOp(_) => File(0, file.bytes)
    case ReadOp(_, _, _) => file
  }

  /** What an operation answers. */
  ghost predicate Answers(file: File, op: Op, answer: seq<Byte>) {
    match op
    case ReadOp(_, offset, size) =>
      && |answer| == (if file.size == 0 then 0 else if offset + size > file.size then file.size - offset else size)
      && forall k: nat | k < |answer| :: answer[k] == file.bytes(offset + k)
    case _ => answer == []
  }

  function Step(fs: map<int, File>, op: Op): map<int, File> {
    if op.f in fs then fs[op.f := After(fs[op.f], op)] else fs
  }

  function Run(fs: map<int, File>, ops: seq<Op>): map<int, File>
    decreases |ops|
  {
    if ops == [] then fs else Step(Run(fs, ops[..|ops| - 1]), ops[|ops| - 1])
  }

  /** The operation is one the driver can do: there is space, and a read begins inside the file. */
  predicate Fits(g: Geometry, disk: Disk, table: seq<Byte>, n: seq<Byte>, op: Op)
    requires GeometryOk(g) && 32 * g.groups <= |table|
  {
    match op
    case WriteOp(_, offset, data) =>
      var reach := Reach(g.blockSize, offset, offset + |data|);
      && offset + |data| < WORD_LIMIT && reach <= MaxBlocks(g)
      && SumFree(table, g.groups) >= Space(g, disk, n, Count(g, n), reach)
    case TruncateOp(_) => true
    case ReadOp(_, offset, size) => FileSize(n) == 0 || (offset <= FileSize(n) && offset + size < WORD_LIMIT)
  }

  /** How many blocks the operation reaches. */
  function ReachOf(g: Geometry, op: Op): nat
    requires GeometryOk(g)
  {
    if op.WriteOp? then Reach(g.blockSize, op.offset, op.offset + |op.data|) else 0
  }

  /** The operation keeps to the planned length of its file, and a read begins inside the file. */
  ghost predicate InPlan(g: Geometry, fs: map<int, File>, plan: map<int, nat>, op: Op)
    requires GeometryOk(g)
  {
    && op.f in fs && op.f in plan
    && match op
       case WriteOp(_, offset, data) => offset + |data| < WORD_LIMIT && ReachOf(g, op) <= plan[op.f]
       case TruncateOp(_) => true
       case ReadOp(f, offset, size) => fs[f].size == 0 || (offset <= fs[f].size && offset + size < WORD_LIMIT)
  }

  /** The first `k` operations do so, on the files as they are when it comes to each of them. */
  ghost predicate AllInPlan(g: Geometry, fs: map<int, File>, plan: map<int, nat>, ops: seq<Op>, k: nat)
    requires GeometryOk(g) && k <= |ops|
  {
    forall i | 0 <= i < k :: InPlan(g, Run(fs, ops[..i]), plan, ops[i])
  }

  ghost predicate FileIs(g: Geometry, s: State, f: int, file: File) {
    Placed(g, s, f) && FileSize(InodeAt(g, s, f)) == file.size && forall x: nat ::
      Raw(g, s.disk, InodeAt(g, s, f), x) == file.bytes(x)
  }

  /** The device holds these files. */
  ghost predicate FilesAre(g: Geometry, s: State, files: set<int>, fs: map<int, File>) {
    FsOk(g, s, files) && fs.Keys == files && forall f | f in files :: FileIs(g, s, f, fs[f])
  }

  lemma OtherFileIs(g: Geometry, s0: State, s: State, files: set<int>, f: int, h: int, file: File)
    requires FsOk(g, s0, files) && Elsewhere(g, s0, s, files, f) && h in files && h != f && FileIs(g, s0, h, file)
    ensures FileIs(g, s, h, file)
  {
    assert OneFileOk(g, s0, h);
    OneFileKept(g, s0, s, files, f, h);
    var n := InodeAt(g, s0, h);
    forall x: nat ensures Raw(g, s.disk, n, x) == file.bytes(x) {
      assert Raw(g, s0.disk, n, x) == file.bytes(x);
      assert Content(g, s.disk, n, Row(x, g.blockSize)) == Content(g, s0.disk, n, Row(x, g.blockSize));
    }
  }

  lemma OneFileChanged(g: Geometry, s0: State, s: State, files: set<int>, f: int, fs: map<int, File>, file: File)
    requires FilesAre(g, s0, files, fs) && FsOk(g, s, files) && Elsewhere(g, s0, s, files, f) && f in files &&
      FileIs(g, s, f, file)
    ensures FilesAre(g, s, files, fs[f := file])
  {
    hide FsOk, Elsewhere, FileIs;
    forall h | h in files ensures FileIs(g, s, h, fs[f := file][h]) {
      if h != f {
        OtherFileIs(g, s0, s, files, f, h, fs[h]);
      }
    }
  }

  lemma FileThere(g: Geometry, s: State, files: set<int>, fs: map<int, File>, f: int)
    requires FilesAre(g, s, files, fs) && f in files
    ensures FsOk(g, s, files) && f in fs && Placed(g, s, f) && GeometryOk(g) && OneFileOk(g, s, f) && AllocOk(g, s) &&
      FileIs(g, s, f, fs[f]) && 32 * g.groups <= |s.table|
  {
    assert OneFileOk(g, s, f);
    TableSize(g, s);
  }

  lemma WrittenFile(g: Geometry, s0: State, s: State, files: set<int>, file: File, op: Op)
    requires op.WriteOp? && OneFileOk(g, s0, op.f) && AllocOk(g, s0) && FileIs(g, s0, op.f, file) && Placed(g, s, op.f)
    requires Spliced(g, s0, s, files, op.f, InodeAt(g, s0, op.f), InodeAt(g, s, op.f), op.offset, op.data)
    ensures FsOk(g, s, files) && Elsewhere(g, s0, s, files, op.f) && FileIs(g, s, op.f, After(file, op))
  {
    hide Raw, FsOk, Elsewhere, AllocOk, FileOk, InodeAt, FileSize;
    var n0, n := InodeAt(g, s0, op.f), InodeAt(g, s, op.f);
    forall x: nat ensures Raw(g, s.disk, n, x) == After(file, op).bytes(x) {
      SplicedBytes(g, s0, s, files, op.f, n0, n, op.offset, op.data, x);
      assert Raw(g, s0.disk, n0, x) == file.bytes(x);
    }
  }

  lemma AfterWrite(g: Geometry, s0: State, s: State, files: set<int>, fs: map<int, File>, op: Op)
    requires FilesAre(g, s0, files, fs) && op.f in files && op.WriteOp? && Placed(g, s0, op.f) && Placed(g, s, op.f)
    requires Spliced(g, s0, s, files, op.f, InodeAt(g, s0, op.f), InodeAt(g, s, op.f), op.offset, op.data)
    ensures FilesAre(g, s, files, Step(fs, op))
  {
    hide Raw, AllocOk, OneFileOk, Placed, InodeAt, Spliced, Elsewhere, FileIs, After;
    FileThere(g, s0, files, fs, op.f);
    WrittenFile(g, s0, s, files, fs[op.f], op);
    OneFileChanged(g, s0, s, files, op.f, fs, After(fs[op.f], op));
  }

  lemma TruncatedFile(g: Geometry, s0: State, s: State, files: set<int>, file: File, op: Op)
    requires op.TruncateOp? && FileIs(g, s0, op.f, file) && Placed(g, s, op.f)
    requires Truncated(g, s0, s, files, op.f, InodeAt(g, s0, op.f), InodeAt(g, s, op.f))
    ensures FsOk(g, s, files) && Elsewhere(g, s0, s, files, op.f) && FileIs(g, s, op.f, After(file, op))
  {
    hide FsOk, Elsewhere, FileOk, InodeAt, FileSize, Content;
    var n0, n := InodeAt(g, s0, op.f), InodeAt(g, s, op.f);
    forall x: nat ensures Raw(g, s.disk, n, x) == After(file, op).bytes(x) {
      assert Raw(g, s0.disk, n0, x) == file.bytes(x);
      assert Content(g, s.disk, n, Row(x, g.blockSize)) == Content(g, s0.disk, n0, Row(x, g.blockSize));
    }
  }

  lemma AfterTruncate(g: Geometry, s0: State, s: State, files: set<int>, fs: map<int, File>, op: Op)
    requires FilesAre(g, s0, files, fs) && op.f in files && op.TruncateOp? && Placed(g, s0, op.f) && Placed(g, s, op.f)
    requires Truncated(g, s0, s, files, op.f, InodeAt(g, s0, op.f), InodeAt(g, s, op.f))
    ensures FilesAre(g, s, files, Step(fs, op))
  {
    hide Raw, AllocOk, OneFileOk, Placed, InodeAt, Truncated, Elsewhere, FileIs, After;
    FileThere(g, s0, files, fs, op.f);
    TruncatedFile(g, s0, s, files, fs[op.f], op);
    OneFileChanged(g, s0, s, files, op.f, fs, After(fs[op.f], op));
  }

  lemma AfterRead(g: Geometry, s: State, files: set<int>, fs: map<int, File>, op: Op, data: seq<Byte>)
    requires FilesAre(g, s, files, fs) && op.f in files && op.ReadOp? && Placed(g, s, op.f)
    requires IsSlice(g, s.disk, InodeAt(g, s, op.f), op.offset, data)
    requires |data| == var fileSize := FileSize(InodeAt(g, s, op.f));
      if fileSize == 0 then 0 else if op.offset + op.size > fileSize then fileSize - op.offset else op.size
    ensures Answers(fs[op.f], op, data) && FilesAre(g, s, files, Step(fs, op))
  {
    hide FsOk, Raw;
    assert FileIs(g, s, op.f, fs[op.f]);
    assert Step(fs, op) == fs;
    forall k: nat | k < |data| ensures data[k] == fs[op.f].bytes(op.offset + k) {
      assert data[k] == Raw(g, s.disk, InodeAt(g, s, op.f), op.offset + k);
    }
  }

  lemma WriteSpent(g: Geometry, s0: State, s: State, files: set<int>, op: Op)
    requires GeometryOk(g) && op.WriteOp? && Placed(g, s0, op.f) && Placed(g, s, op.f)
    requires Spliced(g, s0, s, files, op.f, InodeAt(g, s0, op.f), InodeAt(g, s, op.f), op.offset, op.data)
    requires 32 * g.groups <= |s0.table| == |s.table|
    requires SpaceSpent(g, s0, InodeAt(g, s0, op.f), s, InodeAt(g, s, op.f))
    requires Count(g, InodeAt(g, s, op.f)) <=
      Longer(Count(g, InodeAt(g, s0, op.f)), Reach(g.blockSize, op.offset, op.offset + |op.data|))
    ensures Spent(g, s0, s, files, op.f, ReachOf(g, op))
  {
    hide Elsewhere, SpaceSpent, FsOk, FileOk, InodeAt, Placed;
  }

  lemma TruncationSpent(g: Geometry, s0: State, s: State, files: set<int>, op: Op)
    requires GeometryOk(g) && op.TruncateOp? && Placed(g, s0, op.f) && Placed(g, s, op.f)
    requires Truncated(g, s0, s, files, op.f, InodeAt(g, s0, op.f), InodeAt(g, s, op.f))
    requires 32 * g.groups <= |s0.table| && s.table == s0.table
    requires SpaceSpent(g, s0, InodeAt(g, s0, op.f), s, InodeAt(g, s, op.f))
    ensures Spent(g, s0, s, files, op.f, ReachOf(g, op))
  {
    hide Elsewhere, SpaceSpent, FsOk, FileOk, InodeAt, Placed;
  }

  lemma ReadSpent(g: Geometry, s: State, files: set<int>, op: Op)
    requires FsOk(g, s, files) && op.f in files && Placed(g, s, op.f) && 32 * g.groups <= |s.table| && GeometryOk(g)
    ensures Spent(g, s, s, files, op.f, ReachOf(g, op))
  {
    NotGrown(g, s, files, op.f, InodeAt(g, s, op.f));
    NothingSpent(g, s, InodeAt(g, s, op.f), s, InodeAt(g, s, op.f));
  }

  /** An operation within the plan is one the driver can do. */
  lemma PlannedFits(g: Geometry, s: State, files: set<int>, fs: map<int, File>, order: seq<int>, plan: map<int, nat>,
      op: Op)
    requires FilesAre(g, s, files, fs) && op.f in files && Provided(g, s, files, order, plan) && InPlan(g, fs, plan, op)
    ensures Placed(g, s, op.f) && Fits(g, s.disk, s.table, InodeAt(g, s, op.f), op)
  {
    hide FsOk, Space, Provided;
    ProvidedFor(g, s, files, order, plan, op.f, ReachOf(g, op));
    assert FileIs(g, s, op.f, fs[op.f]);
  }

  /** One operation on a device that holds the files `fs`. */
  method Serve(d: Driver, op: Op, ghost files: set<int>, ghost fs: map<int, File>) returns (answer: seq<Byte>)
    requires FilesAre(d.g, d.Now(), files, fs) && op.f in files && Placed(d.g, d.Now(), op.f) && CountsFit(d.g)
    requires GeometryOk(d.g) && 32 * d.g.groups <= |d.table| &&
      Fits(d.g, d.disk, d.table, InodeAt(d.g, d.Now(), op.f), op)
    modifies d
    ensures FilesAre(d.g, d.Now(), files, Step(fs, op)) && op.f in fs && Answers(fs[op.f], op, answer)
    ensures Spent(d.g, old(d.Now()), d.Now(), files, op.f, ReachOf(d.g, op))
  {
    hide FsOk, Spliced, Truncated, IsSlice, InodeAt, Placed, Step, SpaceSpent, Space, Elsewhere, SumFree, Reach;
    ghost var s := d.Now();
    FileThere(d.g, s, files, fs, op.f);
    answer := [];
    match op
    case WriteOp(f, offset, data) =>
      var written := d.Write(f, offset, data, files);
      AfterWrite(d.g, s, d.Now(), files, fs, op);
      WriteSpent(d.g, s, d.Now(), files, op);
    case TruncateOp(f) =>
      d.Open(f, true, files);
      AfterTruncate(d.g, s, d.Now(), files, fs, op);
      TruncationSpent(d.g, s, d.Now(), files, op);
    case ReadOp(f, offset, size) =>
      answer := d.Read(f, offset, size, files);
      AfterRead(d.g, s, files, fs, op, answer);
      ReadSpent(d.g, s, files, op);
  }

  /** The next operation of a run, if the driver can do it. */
  method Attempt(d: Driver, op: Op, ghost files: set<int>, ghost fs: map<int, File>, ghost order: seq<int>,
      ghost plan: map<int, nat>)
      returns (ok: bool, answer: seq<Byte>)
    requires FilesAre(d.g, d.Now(), files, fs) && op.f in files && CountsFit(d.g) && GeometryOk(d.g)
    modifies d
    ensures if ok then FilesAre(d.g, d.Now(), files, Step(fs, op)) && op.f in fs && Answers(fs[op.f], op, answer)
      else FilesAre(d.g, d.Now(), files, fs) && Refused(d.g, d.Now(), op)
    ensures Provided(d.g, old(d.Now()), files, order, plan) && InPlan(d.g, fs, plan, op) ==>
      ok && Provided(d.g, d.Now(), files, order, plan)
  {
    hide FilesAre, FsOk, InodeAt, Fits, Answers, Step, Provided, InPlan, Spent, ReachOf, Placed, FileIs, OneFileOk;
    ghost var s := d.Now();
    FileThere(d.g, s, files, fs, op.f);
    InodeBlockThere(d.g, s, files, op.f);
    if Provided(d.g, s, files, order, plan) && InPlan(d.g, fs, plan, op) {
      PlannedFits(d.g, s, files, fs, order, plan, op);
    }
    var n := d.ReadInode(op.f);
    ok, answer := Fits(d.g, d.disk, d.table, n, op), [];
    if !ok {
      return;
    }
    answer := Serve(d, op, files, fs);
    if Provided(d.g, s, files, order, plan) && InPlan(d.g, fs, plan, op) {
      ReachInPlan(d.g, fs, plan, op);
      StillProvided(d.g, s, d.Now(), files, order, plan, op.f, ReachOf(d.g, op));
    }
  }

  /**
   Any run of operations on files of a consistent device, as far as the driver can do them: every
   read answers what the files hold at its time, and at the end the device holds what the
   operations have made of the files.  If there are enough free blocks for planned lengths of all
   the files together, nothing is refused as long as each file keeps to its length and reads begin
   inside their files.
   */
  method RunAll(d: Driver, ops: seq<Op>, ghost files: set<int>, ghost fs: map<int, File>, ghost order: seq<int>,
      ghost plan: map<int, nat>)
      returns (served: nat, answers: seq<seq<Byte>>)
    requires FilesAre(d.g, d.Now(), files, fs) && CountsFit(d.g)
    requires forall i | 0 <= i < |ops| :: ops[i].f in files
    modifies d
    ensures served <= |ops| && FilesAre(d.g, d.Now(), files, Run(fs, ops[..served]))
    ensures |answers| == served
    ensures forall i | 0 <= i < served :: AnsweredAt(fs, ops, i, answers[i])
    ensures served < |ops| ==> Refused(d.g, d.Now(), ops[served])
    ensures forall k: nat | k <= |ops| && Provided(d.g, old(d.Now()), files, order, plan) ::
      AllInPlan(d.g, fs, plan, ops, k) ==> k <= served
  {
    hide FilesAre, Answers, Step, Provided, InPlan, Refused;
    ghost var s0 := d.Now();
    GeometryThere(d.g, s0, files, fs);
    served, answers := 0, [];
    assert ops[..0] == [];
    while served < |ops|
      invariant served <= |ops| && FilesAre(d.g, d.Now(), files, Run(fs, ops[..served])) && |answers| == served
      invariant forall i | 0 <= i < served :: AnsweredAt(fs, ops, i, answers[i])
      invariant Provided(d.g, s0, files, order, plan) && AllInPlan(d.g, fs, plan, ops, served) ==>
        Provided(d.g, d.Now(), files, order, plan)
    {
      var ok, answer := Attempt(d, ops[served], files, Run(fs, ops[..served]), order, plan);
      if !ok {
        return;
      }
      assert ops[..served + 1][..served] == ops[..served];
      answers := answers + [answer];
      served := served + 1;
    }
  }

  lemma GeometryThere(g: Geometry, s: State, files: set<int>, fs: map<int, File>)
    requires FilesAre(g, s, files, fs)
    ensures GeometryOk(g)
  {
  }

  lemma ReachInPlan(g: Geometry, fs: map<int, File>, plan: map<int, nat>, op: Op)
    requires GeometryOk(g) && InPlan(g, fs, plan, op)
    ensures op.f in plan && ReachOf(g, op) <= plan[op.f]
  {
  }

  /** The answer is right for the files as they were at that point of the run. */
  ghost predicate AnsweredAt(fs: map<int, File>, ops: seq<Op>, i: nat, answer: seq<Byte>)
    requires i < |ops|
  {
    ops[i].f in Run(fs, ops[..i]) && Answers(Run(fs, ops[..i])[ops[i].f], ops[i], answer)
  }

  ghost predicate Refused(g: Geometry, s: State, op: Op) {
    && GeometryOk(g) && 32 * g.groups <= |s.table| && Placed(g, s, op.f)
    && !Fits(g, s.disk, s.table, InodeAt(g, s, op.f), op)
  }
}

/**
 Mounting and finding mount points (src/vfs.cpp:59-141 and 540-581).
 */
module MountTree {
  import opened Bytes
  import opened Paths
  import opened TreeSpec
  import opened ProcessTree
  import opened MountSpec

  class Mounts {
    var tree: Tree
    var entries: Entries
    var fsRoot: int
    var nextId: int
    ghost var rank: map<int, int>
    ghost var bound: int

    ghost predicate Valid()
      reads this
    {
      && MountsOk(tree, entries, rank, bound) && fsRoot == FileOf(entries, tree.root)
      && 0 < nextId && forall n | n in tree.kids :: n < nextId
    }

    /** What is mounted, by path. */
    ghost function Files(path: seq<Name>): int
      reads this
    {
      Mounted(tree, entries, path)
    }

    /** `vfs_install`: nothing is mounted. */
    constructor ()
      ensures Valid() && forall path :: Files(path) == 0
    {
      tree := Tree(1, map[1 := []], map[1 := 0]);
      entries := Entries(map[1 := []], map[1 := 0]);
      fsRoot := 0;
      nextId := 2;
      rank := map[1 := 0];
      bound := 1;
      new;
      forall path: seq<Name> ensures Files(path) == 0 {
        WalkIsNode(tree, entries, rank, bound, path);
      }
    }

    /** The loop over the children that looks for a name. */
    method FindChild(node: int, x: Name) returns (child: int)
      ensures child == ChildNamed(entries, Kids(tree, node), x)
    {
      var l := Kids(tree, node);
      var i := 0;
      while i < |l|
        invariant 0 <= i <= |l| && ChildNamed(entries, l, x) == ChildNamed(entries, l[i..], x)
      {
        if NameOf(entries, l[i]) == x {
          return l[i];
        }
        assert l[i..][1..] == l[i + 1..];
        i := i + 1;
      }
      child := 0;
    }

    /** A directory that is not there yet: `tree_node_insert_child` with an entry that has no file. */
    method MakeDirectory(node: int, x: Name) returns (id: int)
      requires Valid() && node in tree.kids && ChildNamed(entries, Kids(tree, node), x) == 0
      modifies `tree, `entries, `nextId, `rank, `bound
      ensures Valid() && id != 0 && id !in old(tree).kids
      ensures tree == Inserted(old(tree), node, id) && entries == WithEntry(old(entries), id, x)
    {
      hide MountsOk, Inserted, WithEntry;
      id := nextId;
      Facts(tree, entries, rank, bound, node);
      DirectoryOk(tree, entries, rank, rank[id := rank[node] + 1], bound, node, x, id);
      InsertedShape(tree, entries, node, x, id);
      tree := Inserted(tree, node, id);
      entries := WithEntry(entries, id, x);
      nextId := nextId + 1;
      rank := rank[id := rank[node] + 1];
      bound := bound + 1;
    }

    /** One step of the loop of `vfs_mount`: to the child with the name, made if it is missing. */
    method StepInto(node: int, x: Name, ghost done: seq<Name>) returns (child: int)
      requires Valid() && node in tree.kids && node == Walk(tree, entries, tree.root, done)
      modifies `tree, `entries, `nextId, `rank, `bound
      ensures Valid() && child in tree.kids && child == Walk(tree, entries, tree.root, done + [x]) &&
        tree.root == old(tree).root
      ensures forall path :: Files(path) == old(Files(path))
    {
      hide MountsOk, Inserted, WithEntry, Mounted;
      child := FindChild(node, x);
      WalkOn(tree, entries, tree.root, done, x);
      NoZero(tree, entries, rank, bound);
      if child == 0 {
        ghost var t, e, r, b := tree, entries, rank, bound;
        child := MakeDirectory(node, x);
        DirectoryWalk(t, e, r, b, node, x, child, done + [x]);
        assert (done + [x])[..|done|] == done;
        InsertedShape(t, e, node, x, child);
        forall path ensures Files(path) == old(Files(path)) {
          DirectoryMounts(t, e, r, b, node, x, child, path);
        }
      } else {
        StepIs(tree, entries, rank, bound, node, x);
      }
    }

    /**
     `vfs_mount`.  Without a file or an absolute path nothing happens; else the file is mounted
     where the path says, and nothing changes anywhere else.
     */
    method Mount(path: seq<Byte>, localRoot: int)
      requires Valid() && 0 !in path
      modifies this
      ensures Valid()
      ensures localRoot == 0 || path == [] || path[0] != SLASH ==>
        tree == old(tree) && entries == old(entries) && fsRoot == old(fsRoot)
      ensures localRoot != 0 && path != [] && path[0] == SLASH ==> forall q ::
        Files(q) == if q == Target(path) then localRoot else old(Files(q))
    {
      if localRoot == 0 || path == [] || path[0] != SLASH {
        return;
      }
      var p := Duplicate(path);
      var _ := Chop(p, path);
      if p[1] == 0 {
        MountRoot(localRoot);
      } else {
        MountBelow(p, path, localRoot);
      }
    }

    /** The special case of the root. */
    method MountRoot(localRoot: int)
      requires Valid()
      modifies `entries, `fsRoot
      ensures Valid() && forall q :: Files(q) == if q == [] then localRoot else old(Files(q))
    {
      hide MountsOk, Mounted;
      NoZero(tree, entries, rank, bound);
      ghost var e := entries;
      forall q ensures Mounted(tree, e.(file := e.file[tree.root := localRoot]), q) == if q == [] then localRoot
        else Mounted(tree, e, q) {
        FileSet(tree, e, rank, bound, [], localRoot, q);
      }
      FileSet(tree, e, rank, bound, [], localRoot, []);
      entries := entries.(file := entries.file[tree.root := localRoot]);
      fsRoot := localRoot;
    }

    /** The walk down the chopped path, which makes the directories that are missing. */
    method MountBelow(p: array<Byte>, ghost path: seq<Byte>, localRoot: int)
      requires Valid() && IsChopped(path, p[..]) && 2 <= |path| && path[1] != SLASH
      modifies this
      ensures Valid() && forall q :: Files(q) == if q == Pieces(path, 1) then localRoot else old(Files(q))
    {
      hide MountsOk, Mounted, Pieces, SlashFrom, Walk;
      var node := tree.root;
      NoZero(tree, entries, rank, bound);
      RootWalk(tree, entries);
      NoPieces(path);
      var at := 1;
      ghost var comps := [];
      while at < p.Length - 1
        invariant 1 <= at <= p.Length && p[..] == old(p[..])
        invariant Pieces(path, 1) == comps + Pieces(path, at) && (at > 1 ==> comps != [])
        invariant Valid() && node in tree.kids && node == Walk(tree, entries, tree.root, comps)
        invariant forall q :: Files(q) == old(Files(q))
      {
        var end := StringEnd(p[..], at, path);
        node := StepInto(node, p[at..end], comps);
        PieceMoves(path, at, end, comps);
        comps := comps + [path[at..end]];
        at := end + 1;
      }
      assert Pieces(path, at) == [] && comps == Pieces(path, 1);
      SetFile(node, localRoot, comps);
    }

    /** The last store of `vfs_mount`. */
    method SetFile(node: int, localRoot: int, ghost comps: seq<Name>)
      requires Valid() && node in tree.kids && node == Walk(tree, entries, tree.root, comps) && comps != []
      modifies `entries
      ensures Valid() && forall q :: Files(q) == if q == comps then localRoot else old(Files(q))
    {
      hide MountsOk, Mounted;
      NoZero(tree, entries, rank, bound);
      ghost var e := entries;
      WalkIsNode(tree, e, rank, bound, comps);
      forall q ensures Mounted(tree, e.(file := e.file[node := localRoot]), q) == if q == comps then localRoot
        else Mounted(tree, e, q) {
        FileSet(tree, e, rank, bound, comps, localRoot, q);
      }
      FileSet(tree, e, rank, bound, comps, localRoot, comps);
      entries := entries.(file := entries.file[node := localRoot]);
    }

    /**
     `get_mount_point` of a chopped path: the file of the longest mounted prefix, how many
     components it consumes, and where in the buffer the others begin.
     */
    method GetMountPoint(buffer: seq<Byte>, pathDepth: nat, outPath0: nat, ghost path: seq<Byte>,
        ghost comps: seq<Name>)
        returns (last: int, outPath: nat, depth: nat)
      requires Valid() && AllNames(comps) && path == Joined(comps) && IsChopped(path, buffer)
      requires comps != [] && pathDepth == |comps| && outPath0 == 1
      ensures depth <= |comps| && last == Files(comps[..depth])
      ensures depth > 0 ==> last != 0
      ensures forall j | depth < j <= |comps| :: Files(comps[..j]) == 0
      ensures RestAt(path, comps, depth, outPath)
    {
      hide MountsOk, IsChopped, RestAt, SlashFrom, AllNames, Joined, Walk;
      RestStarts(path, comps);
      NoStep(tree, entries);
      var end := PathEnd(buffer, pathDepth, path, comps);
      last, outPath, depth := fsRoot, outPath0, 0;
      var node, at, next := tree.root, outPath0, 1;
      ghost var k: nat := 0;
      NoZero(tree, entries, rank, bound);
      assert comps[..0] == [];
      while at < end
        invariant k <= |comps| && next == k + 1 && depth <= k && RestAt(path, comps, k, at) &&
          RestAt(path, comps, depth, outPath)
        invariant node in tree.kids && node == Walk(tree, entries, tree.root, comps[..k])
        invariant last == Files(comps[..depth]) && (depth > 0 ==> last != 0)
        invariant forall j | depth < j <= k :: Files(comps[..j]) == 0
        decreases |comps| - k
      {
        RestIsLeft(path, comps, k, at);
        NextComponent(path, comps, k, at);
        var stop := StringEnd(buffer, at, path);
        assert buffer[at..stop] == path[at..stop];
        assert comps[..k + 1] == comps[..k] + [comps[k]];
        WalkOn(tree, entries, tree.root, comps[..k], comps[k]);
        var child := FindChild(node, buffer[at..stop]);
        if child == 0 {
          forall j | k < j <= |comps| ensures Files(comps[..j]) == 0 {
            LostForGood(tree, entries, rank, bound, comps, k + 1, j);
          }
          return;
        }
        StepIs(tree, entries, rank, bound, node, comps[k]);
        node := child;
        at := stop + 1;
        k := k + 1;
        if FileOf(entries, node) != 0 {
          depth := next;
          last := FileOf(entries, node);
          outPath := at;
        }
        next := next + 1;
      }
      RestIsLeft(path, comps, k, at);
    }

    /** How `kopen` finds the mount point: a copy of the canonical path is chopped and looked up. */
    method Locate(path: seq<Byte>, ghost comps: seq<Name>) returns (last: int, outPath: nat, depth: nat)
      requires Valid() && AllNames(comps) && comps != [] && path == Path(comps) && 0 !in path
      ensures depth <= |comps| && last == Files(comps[..depth])
      ensures depth > 0 ==> last != 0
      ensures forall j | depth < j <= |comps| :: Files(comps[..j]) == 0
      ensures RestAt(path, comps, depth, outPath)
    {
      var p := Duplicate(path);
      var pathDepth := Chop(p, path);
      SlashesOfJoined(comps);
      last, outPath, depth := GetMountPoint(p[..], pathDepth, 1, path, comps);
    }
  }

  // ---------- Chopped paths ----------

  /** A C string with its separators overwritten by terminators. */
  ghost predicate IsChopped(path: seq<Byte>, b: seq<Byte>) {
    && 0 !in path && |b| == |path| + 1 && b[|path|] == 0
    && forall k | 0 <= k < |path| :: b[k] == if path[k] == SLASH then 0 else path[k]
  }

  /** `strdup`. */
  method Duplicate(path: seq<Byte>) returns (p: array<Byte>)
    ensures fresh(p) && p[..] == path + [0]
  {
    p := new Byte[|path| + 1](i requires 0 <= i <= |path| => if i < |path| then path[i] else 0);
  }

  function Slashes(s: seq<Byte>): nat {
    if s == [] then 0 else Slashes(s[..|s| - 1]) + if s[|s| - 1] == SLASH then 1 else 0
  }

  /** The loop that chops a path up, and counts the pieces. */
  method Chop(p: array<Byte>, ghost path: seq<Byte>) returns (depth: nat)
    requires p[..] == path + [0] && 0 !in path
    modifies p
    ensures IsChopped(path, p[..]) && depth == Slashes(path)
  {
    var i := 0;
    depth := 0;
    assert path[..0] == [];
    while i < p.Length - 1
      invariant i <= |path| && p.Length == |path| + 1 && p[|path|] == 0 && depth == Slashes(path[..i])
      invariant forall k | 0 <= k < i :: p[k] == if path[k] == SLASH then 0 else path[k]
      invariant forall k | i <= k < |path| :: p[k] == path[k]
    {
      assert path[..i + 1][..i] == path[..i];
      if p[i] == SLASH {
        p[i] := 0;
        depth := depth + 1;
      }
      i := i + 1;
    }
    assert path[..i] == path;
  }

  /** `strlen` at a position of a chopped path finds the separator that was there. */
  method StringEnd(b: seq<Byte>, at: nat, ghost path: seq<Byte>) returns (end: nat)
    requires IsChopped(path, b) && at <= |path|
    ensures end == SlashFrom(path, at) && at <= end <= |path| < |b| && b[at..end] == path[at..end]
  {
    end := at;
    while b[end] != 0
      invariant at <= end <= |path| && SlashFrom(path, at) == SlashFrom(path, end)
      invariant forall k | at <= k < end :: b[k] == path[k]
      decreases |path| - end
    {
      end := end + 1;
    }
    assert end < |path| ==> path[end] == SLASH by {
      assert end < |path| ==> path[end] in path;
    }
  }

  /** The pieces of a path from a position on: every separator ends one, and an empty one at the end does not count. */
  function Pieces(path: seq<Byte>, at: nat): seq<Name>
    decreases |path| - at
  {
    if |path| <= at then [] else [path[at..SlashFrom(path, at)]] + Pieces(path, SlashFrom(path, at) + 1)
  }

  lemma PieceMoves(path: seq<Byte>, at: nat, end: nat, comps: seq<Name>)
    requires at < |path| && end == SlashFrom(path, at) && end <= |path|
    ensures comps + Pieces(path, at) == (comps + [path[at..end]]) + Pieces(path, end + 1)
  {
  }

  lemma NoPieces(path: seq<Byte>)
    ensures forall at: nat | |path| <= at :: Pieces(path, at) == []
  {
  }

  /** Where `vfs_mount` mounts: at the root if nothing or another separator follows the first one. */
  function Target(path: seq<Byte>): seq<Name> {
    if |path| <= 1 || path[1] == SLASH then [] else Pieces(path, 1)
  }

  /** A canonical path is mounted at its components. */
  lemma CanonicalTarget(comps: seq<Name>)
    requires AllNames(comps)
    ensures Target(Path(comps)) == comps
  {
    var path := Path(comps);
    if comps != [] {
      assert comps[0..] == comps;
      PiecesOfRest(path, comps, 0, 1);
      assert IsName(comps[0]) && path[1] == comps[0][0] && comps[0][0] in comps[0];
    }
  }

  /**
   Any other absolute path is mounted at the pieces between its separators, empty ones included
   unless the first or the last is empty: a separator at the end does not count.
   */
  lemma TargetOfPieces(pieces: seq<Name>)
    requires pieces != [] && pieces[0] != [] && pieces[|pieces| - 1] != []
    requires forall k | 0 <= k < |pieces| :: SLASH !in pieces[k]
    ensures Target(Joined(pieces)) == pieces && Target(Joined(pieces) + [SLASH]) == pieces
  {
    FromFirstPiece(pieces, []);
    FromFirstPiece(pieces, [SLASH]);
    assert Joined(pieces) + [] == Joined(pieces);
  }

  lemma FromFirstPiece(pieces: seq<Name>, tail: seq<Byte>)
    requires pieces != [] && pieces[0] != [] && pieces[|pieces| - 1] != [] && (tail == [] || tail == [SLASH])
    requires forall k | 0 <= k < |pieces| :: SLASH !in pieces[k]
    ensures Target(Joined(pieces) + tail) == pieces
  {
    var path, rest := Joined(pieces) + tail, Joined(pieces[1..]) + tail;
    assert path == [SLASH] + pieces[0] + rest;
    hide Pieces, Joined;
    PiecesOfJoined(pieces, 0, path, [SLASH], tail);
    TargetIs(path, pieces[0], rest);
    assert pieces[0..] == pieces;
  }

  lemma TargetIs(path: seq<Byte>, first: Name, rest: seq<Byte>)
    requires path == [SLASH] + first + rest && first != [] && SLASH !in first
    ensures Target(path) == Pieces(path, 1)
  {
    assert path[1] == first[0] && first[0] in first;
  }

  /** A piece, and what stands behind it. */
  lemma OnePiece(path: seq<Byte>, before: seq<Byte>, piece: Name, rest: seq<Byte>)
    requires path == before + piece + rest && SLASH !in piece && (rest == [] || rest[0] == SLASH)
    requires piece != [] || rest != []
    ensures Pieces(path, |before|) == [piece] + Pieces(path, |before| + |piece| + 1)
  {
    var end := |before| + |piece|;
    assert path[|before|..end] == piece;
    assert rest != [] ==> path[end] == rest[0];
    SlashFromIs(path, |before|, end);
  }

  /** The pieces from number `k` on, which stand behind `before`; at the end there may be one separator. */
  lemma {:induction false} PiecesOfJoined(pieces: seq<Name>, k: nat, path: seq<Byte>, before: seq<Byte>,
      tail: seq<Byte>)
    requires k < |pieces| && pieces[|pieces| - 1] != [] && (tail == [] || tail == [SLASH])
    requires forall k | 0 <= k < |pieces| :: SLASH !in pieces[k]
    requires path == before + pieces[k] + (Joined(pieces[k + 1..]) + tail)
    ensures Pieces(path, |before|) == pieces[k..]
    decreases |pieces| - k
  {
    hide Pieces;
    var rest := Joined(pieces[k + 1..]) + tail;
    OnePiece(path, before, pieces[k], rest);
    if k + 1 < |pieces| {
      var on := before + pieces[k] + [SLASH];
      var behind := Joined(pieces[k + 2..]) + tail;
      assert pieces[k + 1..][1..] == pieces[k + 2..];
      assert rest == [SLASH] + pieces[k + 1] + behind;
      assert path == on + pieces[k + 1] + behind;
      PiecesOfJoined(pieces, k + 1, path, on, tail);
    } else {
      NoPieces(path);
    }
    assert pieces[k..] == [pieces[k]] + pieces[k + 1..];
  }

  lemma {:induction false} PiecesOfRest(path: seq<Byte>, comps: seq<Name>, k: nat, at: nat)
    requires AllNames(comps) && k <= |comps| && RestAt(path, comps, k, at)
    ensures Pieces(path, at) == comps[k..]
    decreases |comps| - k
  {
    hide RestAt, AllNames, Joined, SlashFrom;
    RestIsLeft(path, comps, k, at);
    if k < |comps| {
      NextComponent(path, comps, k, at);
      var end := SlashFrom(path, at);
      PiecesOfRest(path, comps, k + 1, end + 1);
      assert comps[k..] == [comps[k]] + comps[k + 1..];
    }
  }

  /** The components from number `k` on begin at this position. */
  ghost predicate RestAt(path: seq<Byte>, comps: seq<Name>, k: nat, at: nat) {
    k <= |comps| && 1 <= at <= |path| + 1 && path[at - 1..] == Joined(comps[k..])
  }

  lemma NoStep(t: Tree, e: Entries)
    ensures Walk(t, e, t.root, []) == t.root
  {
  }

  lemma RestStarts(path: seq<Byte>, comps: seq<Name>)
    requires path == Joined(comps)
    ensures RestAt(path, comps, 0, 1)
  {
    assert comps[0..] == comps;
  }

  lemma RestIsLeft(path: seq<Byte>, comps: seq<Name>, k: nat, at: nat)
    requires AllNames(comps) && RestAt(path, comps, k, at)
    ensures at < |path| <==> k < |comps|
    ensures k == |comps| ==> at == |path| + 1
  {
    if k < |comps| {
      assert IsName(comps[k]) && comps[k..][0] == comps[k];
    }
  }

  lemma {:induction false} SlashesAppend(s: seq<Byte>, t: seq<Byte>)
    ensures Slashes(s + t) == Slashes(s) + Slashes(t)
    decreases |t|
  {
    if t == [] {
      assert s + t == s;
    } else {
      assert (s + t)[..|s + t| - 1] == s + t[..|t| - 1];
      SlashesAppend(s, t[..|t| - 1]);
    }
  }

  lemma {:induction false} NoSlashes(s: seq<Byte>)
    requires SLASH !in s
    ensures Slashes(s) == 0
    decreases |s|
  {
    if s != [] {
      NoSlashes(s[..|s| - 1]);
    }
  }

  /** A joined path has as many separators as components. */
  lemma {:induction false} SlashesOfJoined(l: seq<Name>)
    requires AllNames(l)
    ensures Slashes(Joined(l)) == |l|
  {
    if l != [] {
      assert IsName(l[0]) && AllNames(l[1..]);
      SlashesOfJoined(l[1..]);
      NoSlashes(l[0]);
      SlashesAppend([SLASH] + l[0], Joined(l[1..]));
      SlashesAppend([SLASH], l[0]);
      assert [SLASH][..0] == [];
    }
  }

  /** The loop of `get_mount_point` that goes to the end of a chopped path. */
  method PathEnd(buffer: seq<Byte>, pathDepth: nat, ghost path: seq<Byte>, ghost comps: seq<Name>) returns (end: nat)
    requires AllNames(comps) && path == Joined(comps) && IsChopped(path, buffer) && comps != [] && pathDepth == |comps|
    ensures end == |path| + 1
  {
    hide RestAt, Joined, AllNames, IsChopped, SlashFrom;
    BeginsWithSlash(comps);
    RestStarts(path, comps);
    end := StringEnd(buffer, 0, path);
    end := end + 1;
    var depth := 1;
    while depth <= pathDepth
      invariant 1 <= depth <= |comps| + 1 && RestAt(path, comps, depth - 1, end)
    {
      RestIsLeft(path, comps, depth - 1, end);
      NextComponent(path, comps, depth - 1, end);
      end := StringEnd(buffer, end, path);
      end := end + 1;
      depth := depth + 1;
    }
    RestIsLeft(path, comps, depth - 1, end);
  }

  lemma BeginsWithSlash(comps: seq<Name>)
    requires comps != []
    ensures SlashFrom(Joined(comps), 0) == 0
  {
  }

  lemma Facts(t: Tree, e: Entries, rank: map<int, int>, bound: int, n: int)
    requires MountsOk(t, e, rank, bound) && n in t.kids
    ensures n in rank && t.root in t.kids
  {
    NodeFacts(t, rank, bound, n);
  }

  lemma InsertedShape(t: Tree, e: Entries, node: int, x: Name, id: int)
    requires node in t.kids && id !in t.kids
    ensures Inserted(t, node, id).root == t.root && Inserted(t, node, id).kids.Keys == t.kids.Keys + {id}
    ensures t.root != id ==> FileOf(WithEntry(e, id, x), t.root) == FileOf(e, t.root)
  {
  }

  /** The next component of a chopped path. */
  lemma NextComponent(path: seq<Byte>, comps: seq<Name>, k: nat, at: nat)
    requires AllNames(comps) && k < |comps| && RestAt(path, comps, k, at)
    ensures at <= |path| && path[at..SlashFrom(path, at)] == comps[k]
    ensures RestAt(path, comps, k + 1, SlashFrom(path, at) + 1)
  {
    var c, rest := comps[k], Joined(comps[k + 1..]);
    assert comps[k..][1..] == comps[k + 1..];
    var s := path[at..];
    assert s == path[at - 1..][1..] == c + rest;
    assert s[..|c|] == c && s[|c|..] == rest;
    assert IsName(c);
    assert path[at..at + |c|] == c && path[at + |c|..] == rest;
    SlashFromIs(path, at, at + |c|);
  }

  lemma SlashFromIs(s: seq<Byte>, i: nat, k: nat)
    requires i <= k <= |s| && (k < |s| ==> s[k] == SLASH) && SLASH !in s[i..k]
    ensures SlashFrom(s, i) == k
  {
    NoSlash(s, i, k);
    NoSlash(s, i, SlashFrom(s, i));
  }

  /** Once a walk has failed it does not come back. */
  lemma {:induction false} LostForGood(t: Tree, e: Entries, rank: map<int, int>, bound: int, comps: seq<Name>, i: nat,
      j: nat)
    requires MountsOk(t, e, rank, bound) && i <= j <= |comps| && Walk(t, e, t.root, comps[..i]) == 0
    ensures Walk(t, e, t.root, comps[..j]) == 0 && Mounted(t, e, comps[..j]) == 0
    decreases j
  {
    hide MountsOk;
    NoZero(t, e, rank, bound);
    if i < j {
      LostForGood(t, e, rank, bound, comps, i, j - 1);
      assert comps[..j] == comps[..j - 1] + [comps[j - 1]];
      WalkOn(t, e, t.root, comps[..j - 1], comps[j - 1]);
    }
  }
}

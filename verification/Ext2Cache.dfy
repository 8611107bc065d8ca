/**
 The write-back cache of the ext2 driver (src/modules/fs/ext2.cpp:1018-1049 and 1188-1308)
 and the device it stands for.
 */
module Ext2Cache {
  import opened Bytes
  import opened Ext2Bytes
  import opened Ext2Device

  const UINT32_MAX: int := WORD_LIMIT - 1

  datatype Entry = Entry(blockNo: int, lastUse: int, dirty: bool, block: seq<Byte>)

  /** Entry `i` holds block `b`. */
  predicate Holds(entries: seq<Entry>, b: int, i: int) {
    0 <= i < |entries| && entries[i].blockNo == b
  }

  /** Which entry holds block `b`; -1 if none does. */
  ghost function Slot(entries: seq<Entry>, b: int): (r: int)
    ensures r == -1 || Holds(entries, b, r)
    ensures r == -1 ==> forall i :: !Holds(entries, b, i)
  {
    if exists i :: Holds(entries, b, i) then (var i :| Holds(entries, b, i); i) else -1
  }

  /** What a reader is to see in block `b`. */
  ghost function Current(entries: seq<Entry>, disk: Disk, b: int): seq<Byte>
    requires b in disk
  {
    if b != 0 && Slot(entries, b) != -1 then entries[Slot(entries, b)].block else disk[b]
  }

  ghost function Contents(entries: seq<Entry>, disk: Disk): Disk {
    map b | b in disk :: Current(entries, disk, b)
  }

  ghost predicate EntryOk(disk: Disk, e: Entry) {
    && 0 <= e.lastUse <= UINT32_MAX
    && (e.blockNo != 0 ==> e.blockNo in disk)
    && (e.dirty ==> e.blockNo != 0)
    && (e.blockNo != 0 && !e.dirty ==> e.block == disk[e.blockNo])
  }

  /** Block numbers are distinct, and clean entries agree with the device. */
  ghost predicate CacheOk(entries: seq<Entry>, disk: Disk) {
    && (forall i | 0 <= i < |entries| :: EntryOk(disk, entries[i]))
    && (forall i, j | 0 <= i < j < |entries| && entries[i].blockNo != 0 :: entries[i].blockNo != entries[j].blockNo)
  }

  /** The one entry that holds a block is its slot. */
  lemma SlotIsUnique(entries: seq<Entry>, disk: Disk, b: int, i: int)
    requires CacheOk(entries, disk) && b != 0 && Holds(entries, b, i)
    ensures Slot(entries, b) == i
  {
  }

  /** A block that can be brought in: it is there already, or some entry may make room. */
  ghost predicate HasRoom(entries: seq<Entry>, b: int) {
    Slot(entries, b) != -1 || exists i :: 0 <= i < |entries| && entries[i].lastUse < UINT32_MAX
  }

  // ---------- Changes of one entry ----------

  /** An entry is used: only its time changes. */
  lemma EntryUsed(entries: seq<Entry>, disk: Disk, i: int, time: int)
    requires CacheOk(entries, disk) && 0 <= i < |entries| && 0 <= time <= UINT32_MAX
    ensures var e' := entries[i := entries[i].(lastUse := time)];
      CacheOk(e', disk) && Contents(e', disk) == Contents(entries, disk)
  {
    var e' := entries[i := entries[i].(lastUse := time)];
    forall b | b in disk && b != 0 ensures Current(e', disk, b) == Current(entries, disk, b) {
      SameSlot(entries, e', disk, b);
    }
  }

  lemma SameSlot(entries: seq<Entry>, e': seq<Entry>, disk: Disk, b: int)
    requires CacheOk(entries, disk) && b != 0 && |e'| == |entries|
    requires forall i | 0 <= i < |entries| :: e'[i].blockNo == entries[i].blockNo
    ensures Slot(e', b) == Slot(entries, b)
  {
    var r := Slot(entries, b);
    if r == -1 {
      forall i ensures !Holds(e', b, i) {
        assert !Holds(entries, b, i);
      }
    } else {
      assert Holds(e', b, r);
      forall i | Holds(e', b, i) ensures i == r {
        assert Holds(entries, b, i);
      }
    }
  }

  /** A write into the entry of a cached block. */
  lemma Overwritten(entries: seq<Entry>, disk: Disk, i: int, time: int, data: seq<Byte>)
    requires CacheOk(entries, disk) && 0 <= i < |entries| && 0 <= time <= UINT32_MAX && entries[i].blockNo != 0
    ensures var e' := entries[i := entries[i].(lastUse := time, dirty := true, block := data)];
      CacheOk(e', disk) && Contents(e', disk) == Contents(entries, disk)[entries[i].blockNo := data]
  {
    var e' := entries[i := entries[i].(lastUse := time, dirty := true, block := data)];
    SlotIsUnique(entries, disk, entries[i].blockNo, i);
    forall b | b in disk ensures Current(e', disk, b) == if b == entries[i].blockNo then data
      else Current(entries, disk, b) {
      if b != 0 {
        SameSlot(entries, e', disk, b);
        if Slot(entries, b) == i {
          assert Holds(entries, b, i);
        }
      }
    }
  }

  /** Flushing a dirty entry changes the device but not what readers see. */
  lemma Flushed(entries: seq<Entry>, disk: Disk, i: int)
    requires CacheOk(entries, disk) && 0 <= i < |entries| && entries[i].dirty
    ensures var e', d' := entries[i := entries[i].(dirty := false)], disk[entries[i].blockNo := entries[i].block];
      CacheOk(e', d') && Contents(e', d') == Contents(entries, disk) && d'.Keys == disk.Keys
  {
    var x := entries[i].blockNo;
    var e', d' := entries[i := entries[i].(dirty := false)], disk[x := entries[i].block];
    assert EntryOk(disk, entries[i]);
    forall j | 0 <= j < |e'| ensures EntryOk(d', e'[j]) {
      assert EntryOk(disk, entries[j]);
    }
    SlotIsUnique(entries, disk, x, i);
    forall b | b in disk ensures Current(e', d', b) == Current(entries, disk, b) {
      if b != 0 {
        SameSlot(entries, e', disk, b);
      }
    }
  }

  /** A clean entry is given to another block. */
  lemma Replaced(entries: seq<Entry>, disk: Disk, i: int, e: Entry)
    requires CacheOk(entries, disk) && 0 <= i < |entries| && !entries[i].dirty
    requires e.blockNo != 0 && e.blockNo in disk && Slot(entries, e.blockNo) == -1 && 0 <= e.lastUse <= UINT32_MAX
    requires !e.dirty ==> e.block == disk[e.blockNo]
    ensures CacheOk(entries[i := e], disk)
    ensures Contents(entries[i := e], disk) == Contents(entries, disk)[e.blockNo := e.block]
  {
    var e' := entries[i := e];
    forall j | 0 <= j < |e'| ensures EntryOk(disk, e'[j]) && (j != i ==> e'[j].blockNo != e.blockNo) {
      assert EntryOk(disk, entries[j]);
      assert !Holds(entries, e.blockNo, j);
    }
    SlotIsUnique(e', disk, e.blockNo, i);
    forall b | b in disk ensures Current(e', disk, b) == if b == e.blockNo then e.block else Current(entries, disk, b) {
      if b != 0 && b != e.blockNo {
        OtherSlot(entries, disk, i, e, b);
      }
    }
  }

  lemma OtherSlot(entries: seq<Entry>, disk: Disk, i: int, e: Entry, b: int)
    requires CacheOk(entries, disk) && 0 <= i < |entries| && !entries[i].dirty && b != 0 && b != e.blockNo && b in disk
    requires CacheOk(entries[i := e], disk)
    ensures Current(entries[i := e], disk, b) == Current(entries, disk, b)
  {
    var e', r := entries[i := e], Slot(entries, b);
    if r == -1 || r == i {
      forall j ensures !Holds(e', b, j) {
        if r == -1 {
          assert !Holds(entries, b, j);
        } else if Holds(entries, b, j) {
          SlotIsUnique(entries, disk, b, j);
        }
      }
      if r == i {
        assert EntryOk(disk, entries[i]);
      }
    } else {
      SlotIsUnique(e', disk, b, r);
    }
  }

  // ---------- The victim ----------

  /** The entry the search settles on: the first with the smallest time. */
  ghost predicate IsOldest(entries: seq<Entry>, v: int) {
    && 0 <= v < |entries| && entries[v].lastUse < UINT32_MAX
    && (forall j | 0 <= j < |entries| :: entries[v].lastUse <= entries[j].lastUse)
    && (forall j | 0 <= j < v :: entries[v].lastUse < entries[j].lastUse)
  }

  /** `stamps` are the true times of the last uses, of which the entries have the lower 32 bits. */
  ghost predicate StampsOk(entries: seq<Entry>, time: int, stamps: seq<int>, clock: int) {
    && 0 <= clock && time == clock % WORD_LIMIT && |stamps| == |entries|
    && forall i | 0 <= i < |entries| :: 0 <= stamps[i] <= clock && entries[i].lastUse == stamps[i] % WORD_LIMIT
  }

  /**
   Each tick of the clock is given to one entry, and the last one is still there; entries not used
   yet have the stamp zero.
   */
  ghost predicate Ticked(stamps: seq<int>, clock: int) {
    && (forall i | 0 <= i < |stamps| :: stamps[i] == 0 || stamps[i] < clock)
    && (forall i, j | 0 <= i < j < |stamps| && stamps[i] != 0 :: stamps[i] != stamps[j])
    && (clock > 0 ==> exists i :: 0 <= i < |stamps| && stamps[i] == clock - 1)
  }

  /** All that holds of a cache over the device `disk` at every moment. */
  ghost predicate StateOk(entries: seq<Entry>, time: int, disk: Disk, stamps: seq<int>, clock: int) {
    CacheOk(entries, disk) && StampsOk(entries, time, stamps, clock) && Ticked(stamps, clock)
  }

  ghost predicate LeastRecent(stamps: seq<int>, v: int) {
    0 <= v < |stamps| && forall j | 0 <= j < |stamps| :: stamps[v] <= stamps[j]
  }

  /** No entry has been used in an earlier round of the 32-bit clock. */
  ghost predicate EarliestRound(stamps: seq<int>, v: int) {
    0 <= v < |stamps| && forall j | 0 <= j < |stamps| :: stamps[v] / WORD_LIMIT <= stamps[j] / WORD_LIMIT
  }

  lemma RoundAndTime(a: int, b: int)
    requires 0 <= a && 0 <= b && a % WORD_LIMIT <= b % WORD_LIMIT
    ensures a <= b <==> a / WORD_LIMIT <= b / WORD_LIMIT
  {
  }

  /** The victim is a least recently used entry exactly if none was used in an earlier round of the clock. */
  lemma OldestIsLeastRecent(entries: seq<Entry>, time: int, stamps: seq<int>, clock: int, v: int)
    requires StampsOk(entries, time, stamps, clock) && IsOldest(entries, v)
    ensures LeastRecent(stamps, v) <==> EarliestRound(stamps, v)
  {
    forall j | 0 <= j < |stamps| ensures stamps[v] <= stamps[j] <==> stamps[v] / WORD_LIMIT <= stamps[j] / WORD_LIMIT {
      RoundAndTime(stamps[v], stamps[j]);
    }
  }

  ghost predicate VictimsLeastRecent(n: nat, clock: nat) {
    forall entries, time, disk, stamps, v | |entries| == n && StateOk(entries, time, disk, stamps, clock) &&
      IsOldest(entries, v) ::
      LeastRecent(stamps, v)
  }

  /**
   In every state at some time the victim is a least recently used entry: exactly until 2^32 ticks
   have passed, and for two entries also at the end of each round, when the entry used last cannot
   be the victim.
   */
  lemma LeastRecentUntilWrap(n: nat, clock: nat)
    ensures VictimsLeastRecent(n, clock) <==> n < 2 || clock <= WORD_LIMIT || (n == 2 && clock % WORD_LIMIT == 0)
  {
    if n < 2 || clock <= WORD_LIMIT || (n == 2 && clock % WORD_LIMIT == 0) {
      forall entries, time, disk, stamps, v | |entries| == n && StateOk(entries, time, disk, stamps, clock) &&
        IsOldest(entries, v)
        ensures LeastRecent(stamps, v)
      {
        OldestIsLeastRecent(entries, time, stamps, clock, v);
        if clock <= WORD_LIMIT {
          forall j | 0 <= j < |stamps| ensures stamps[j] / WORD_LIMIT == 0 {
          }
        } else if n == 2 {
          LastIsNoVictim(entries, time, stamps, clock, v);
        }
      }
    } else {
      var e, stamps, v := BusyEntry(n, clock);
      assert IsOldest(e, v) && !LeastRecent(stamps, v);
    }
  }

  /** At the end of a round the entry used last has the largest stamp there is. */
  lemma LastIsNoVictim(entries: seq<Entry>, time: int, stamps: seq<int>, clock: int, v: int)
    requires StampsOk(entries, time, stamps, clock) && Ticked(stamps, clock) && IsOldest(entries, v)
    requires |entries| == 2 && 0 < clock && clock % WORD_LIMIT == 0
    ensures LeastRecent(stamps, v)
  {
    var i :| 0 <= i < |stamps| && stamps[i] == clock - 1;
    assert entries[i].lastUse == UINT32_MAX && entries[v].lastUse < UINT32_MAX;
  }

  /**
   The state of a cache in which an entry was in use all the time, while another was not used or
   only before the first wrap.
   */
  lemma BusyEntry(n: nat, clock: nat) returns (entries: seq<Entry>, stamps: seq<int>, v: int)
    requires 2 <= n && WORD_LIMIT < clock && (n == 2 ==> clock % WORD_LIMIT != 0)
    ensures |entries| == n && StateOk(entries, clock % WORD_LIMIT, map[1 := [], 2 := []], stamps, clock)
    ensures IsOldest(entries, v) && !LeastRecent(stamps, v)
  {
    hide StateOk, IsOldest, LeastRecent;
    if n == 2 {
      v, stamps, entries := 1, [UINT32_MAX, clock - 1], Used([UINT32_MAX, clock - 1]);
      BusyPair(clock);
    } else {
      v, stamps, entries := 0, BusyStamps(n, clock - 1), Used(BusyStamps(n, clock - 1));
      BusyMany(n, clock);
    }
  }

  /** Entries used at these times, the first two for blocks. */
  function Used(stamps: seq<int>): seq<Entry> {
    seq(|stamps|, i requires 0 <= i < |stamps| =>
      Entry(if i < 2 then i + 1 else 0, stamps[i] % WORD_LIMIT, false, []))
  }

  function BusyStamps(n: nat, last: int): seq<int> {
    seq(n, i => if i == 0 then WORD_LIMIT else if i == 1 && last != WORD_LIMIT then last else 0)
  }

  lemma UsedOk(stamps: seq<int>)
    ensures CacheOk(Used(stamps), map[1 := [], 2 := []])
  {
  }

  lemma BusyPair(clock: nat)
    requires WORD_LIMIT < clock && clock % WORD_LIMIT != 0
    ensures var stamps := [UINT32_MAX, clock - 1];
      && StateOk(Used(stamps), clock % WORD_LIMIT, map[1 := [], 2 := []], stamps, clock)
      && IsOldest(Used(stamps), 1) && !LeastRecent(stamps, 1)
  {
    var stamps := [UINT32_MAX, clock - 1];
    UsedOk(stamps);
    assert stamps[1] == clock - 1 && stamps[0] < stamps[1];
    hide CacheOk;
  }

  lemma BusyMany(n: nat, clock: nat)
    requires 2 < n && WORD_LIMIT < clock
    ensures var stamps := BusyStamps(n, clock - 1);
      && StateOk(Used(stamps), clock % WORD_LIMIT, map[1 := [], 2 := []], stamps, clock)
      && IsOldest(Used(stamps), 0) && !LeastRecent(stamps, 0)
  {
    var stamps := BusyStamps(n, clock - 1);
    UsedOk(stamps);
    hide CacheOk;
    assert stamps[2] < stamps[0];
    assert stamps[if clock - 1 == WORD_LIMIT then 0 else 1] == clock - 1;
  }

  // ---------- Room ----------

  ghost predicate AlwaysRoom(n: nat, clock: nat) {
    forall entries, time, disk, stamps, b | |entries| == n && StateOk(entries, time, disk, stamps, clock) ::
      HasRoom(entries, b)
  }

  /**
   In every state at some time there is room for every block: exactly until each entry has had a
   round of the clock, and after that in every moment but the end of a round.
   */
  lemma RoomUntilRoundsUp(n: nat, clock: nat)
    requires 0 < n
    ensures AlwaysRoom(n, clock) <==> clock < n * WORD_LIMIT || clock % WORD_LIMIT != 0
  {
    if clock < n * WORD_LIMIT || clock % WORD_LIMIT != 0 {
      forall entries, time, disk, stamps, b | |entries| == n && StateOk(entries, time, disk, stamps, clock)
        ensures HasRoom(entries, b)
      {
        RoomAt(entries, time, disk, stamps, clock, b);
      }
    } else {
      var entries, stamps, disk, b := WornEntries(n, clock);
      assert !HasRoom(entries, b);
    }
  }

  lemma RoomAt(entries: seq<Entry>, time: int, disk: Disk, stamps: seq<int>, clock: int, b: int)
    requires StateOk(entries, time, disk, stamps, clock)
    requires clock < |entries| * WORD_LIMIT || clock % WORD_LIMIT != 0
    ensures HasRoom(entries, b)
  {
    if forall i | 0 <= i < |entries| :: entries[i].lastUse == UINT32_MAX {
      LastOfRounds(entries, stamps, clock);
    } else {
      assert forall i | 0 <= i < |entries| :: EntryOk(disk, entries[i]);
    }
  }

  /** Entries that all were used in the last tick of a round were used in different rounds, and the last just now. */
  lemma LastOfRounds(entries: seq<Entry>, stamps: seq<int>, clock: int)
    requires StampsOk(entries, clock % WORD_LIMIT, stamps, clock) && Ticked(stamps, clock)
    requires forall i | 0 <= i < |entries| :: entries[i].lastUse == UINT32_MAX
    ensures |entries| * WORD_LIMIT <= clock && clock % WORD_LIMIT == 0
  {
    if clock > 0 {
      var i :| 0 <= i < |stamps| && stamps[i] == clock - 1;
      assert entries[i].lastUse == (clock - 1) % WORD_LIMIT;
    }
    var rounds := seq(|stamps|, i requires 0 <= i < |stamps| => stamps[i] / WORD_LIMIT);
    forall i | 0 <= i < |rounds| ensures 0 <= rounds[i] < clock / WORD_LIMIT &&
      stamps[i] == rounds[i] * WORD_LIMIT + UINT32_MAX {
      assert entries[i].lastUse == UINT32_MAX;
    }
    forall i, j | 0 <= i < j < |rounds| ensures rounds[i] != rounds[j] {
      assert stamps[i] == rounds[i] * WORD_LIMIT + UINT32_MAX && stamps[j] == rounds[j] * WORD_LIMIT + UINT32_MAX;
    }
    Pigeonhole(rounds, clock / WORD_LIMIT);
  }

  /** As many different numbers as there are below a limit. */
  lemma Pigeonhole(s: seq<int>, limit: nat)
    requires forall i | 0 <= i < |s| :: 0 <= s[i] < limit
    requires forall i, j | 0 <= i < j < |s| :: s[i] != s[j]
    ensures |s| <= limit
  {
    SizeOfDistinct(s);
    SubsetSize((set x | x in s), Numbers(limit));
  }

  function Numbers(limit: nat): (r: set<int>)
    ensures |r| == limit && forall x :: x in r <==> 0 <= x < limit
  {
    if limit == 0 then {} else Numbers(limit - 1) + {limit - 1}
  }

  lemma {:induction false} SizeOfDistinct(s: seq<int>)
    requires forall i, j | 0 <= i < j < |s| :: s[i] != s[j]
    ensures |set x | x in s| == |s|
  {
    if s != [] {
      var t := s[..|s| - 1];
      SizeOfDistinct(t);
      assert (set x | x in s) == (set x | x in t) + {s[|s| - 1]};
    }
  }

  lemma SubsetSize(a: set<int>, b: set<int>)
    requires a <= b
    ensures |a| <= |b|
  {
    assert b == a + (b - a) && a * (b - a) == {};
  }

  /** Entries used in the last tick of one round each, the last of them just now: no entry can make room. */
  lemma WornEntries(n: nat, clock: nat) returns (entries: seq<Entry>, stamps: seq<int>, disk: Disk, b: int)
    requires 0 < n && n * WORD_LIMIT <= clock && clock % WORD_LIMIT == 0
    ensures |entries| == n && StateOk(entries, clock % WORD_LIMIT, disk, stamps, clock) && !HasRoom(entries, b)
  {
    entries := seq(n, i => Entry(i + 1, UINT32_MAX, false, []));
    stamps := seq(n, i => if i == n - 1 then clock - 1 else i * WORD_LIMIT + UINT32_MAX);
    var numbers := Numbers(n + 2);
    disk := map b | b in numbers :: [];
    b := n + 1;
    forall i | 0 <= i < n
      ensures 0 <= stamps[i] < clock && stamps[i] % WORD_LIMIT == UINT32_MAX && (i < n - 1 ==> stamps[i] < clock - 1)
    {
    }
    assert stamps[n - 1] == clock - 1;
    NotHeld(entries, b);
  }

  class Cache {
    var entries: seq<Entry>
    var time: int
    var disk: Disk
    const blockSize: nat
    ghost var stamps: seq<int>
    ghost var clock: int

    ghost predicate Valid()
      reads this
    {
      StateOk(entries, time, disk, stamps, clock) && OnDevice(disk, blockSize)
    }

    /** What readers are to see. */
    ghost function Logical(): Disk
      reads this
    {
      Contents(entries, disk)
    }

    constructor (device: Disk, size: nat, cacheEntries: nat)
      requires OnDevice(device, size)
      ensures stamps == seq(cacheEntries, _ => 0) && clock == 0 &&
        entries == seq(cacheEntries, _ => Entry(0, 0, false, []))
      ensures Valid() && Logical() == device && disk == device && |entries| == cacheEntries
    {
      entries := seq(cacheEntries, _ => Entry(0, 0, false, []));
      time := 0;
      disk := device;
      blockSize := size;
      stamps := seq(cacheEntries, _ => 0);
      clock := 0;
    }

    /** `get_cache_time`: a 32-bit counter. */
    method Tick(ghost i: int) returns (t: int)
      requires Valid() && 0 <= i < |entries|
      modifies `time, `clock, `stamps
      ensures t == old(time) && 0 <= t <= UINT32_MAX && clock == old(clock) + 1 &&
        stamps == old(stamps)[i := old(clock)]
      ensures StampsOk(entries[i := entries[i].(lastUse := t)], time, stamps, clock) && Ticked(stamps, clock)
    {
      assert stamps[i := clock][i] == clock;
      t := time;
      time := if time == UINT32_MAX then 0 else time + 1;
      stamps := stamps[i := clock];
      clock := clock + 1;
    }

    /** An entry gets its new contents and the time of its use. */
    method Put(i: int, e: Entry)
      requires Valid() && 0 <= i < |entries| && CacheOk(entries[i := e.(lastUse := time)], disk)
      modifies `entries, `time, `clock, `stamps
      ensures Valid() && entries == old(entries)[i := e.(lastUse := old(time))]
      ensures clock == old(clock) + 1 && i < |old(stamps)| && stamps == old(stamps)[i := old(clock)]
    {
      hide CacheOk, OnDevice;
      var t := Tick(i);
      entries := entries[i := e.(lastUse := t)];
    }

    /** The search both operations begin with. */
    method Search(blockNo: int) returns (found: bool, index: int)
      requires Valid() && blockNo != 0
      ensures found ==> index == Slot(entries, blockNo) && Holds(entries, blockNo, index)
      ensures !found ==> Slot(entries, blockNo) == -1
      ensures !found && index != -1 ==> IsOldest(entries, index)
      ensures !found ==> (index == -1 <==> forall j | 0 <= j < |entries| :: entries[j].lastUse == UINT32_MAX)
    {
      found, index := false, -1;
      var age := UINT32_MAX;
      var i := 0;
      while i < |entries|
        invariant 0 <= i <= |entries| && -1 <= index < i
        invariant forall j | 0 <= j < i :: entries[j].blockNo != blockNo
        invariant forall j | 0 <= j < i :: age <= entries[j].lastUse
        invariant if index == -1 then age == UINT32_MAX else age == entries[index].lastUse < UINT32_MAX
        invariant index != -1 ==> forall j | 0 <= j < index :: age < entries[j].lastUse
      {
        assert EntryOk(disk, entries[i]);
        if entries[i].blockNo == blockNo {
          SlotIsUnique(entries, disk, blockNo, i);
          return true, i;
        }
        if entries[i].lastUse < age {
          index, age := i, entries[i].lastUse;
        }
        i := i + 1;
      }
      assert forall j | 0 <= j < |entries| :: EntryOk(disk, entries[j]);
    }

    /** `cache_flush_dirty` */
    method Flush(i: int)
      requires Valid() && 0 <= i < |entries| && entries[i].dirty
      modifies `entries, `disk
      ensures Valid() && Logical() == old(Logical()) && disk.Keys == old(disk).Keys
      ensures entries == old(entries)[i := old(entries)[i].(dirty := false)]
      ensures disk == old(disk)[old(entries)[i].blockNo := old(entries)[i].block]
    {
      Flushed(entries, disk, i);
      disk := disk[entries[i].blockNo := entries[i].block];
      entries := entries[i := entries[i].(dirty := false)];
    }

    /**
     `read_block`.  The caller gets what was last written to the block; on a miss an oldest
     entry makes room.  The source indexes the array with -1 exactly if no entry can.
     */
    method ReadBlock(blockNo: int, buffer: seq<Byte>) returns (result: seq<Byte>, ghost at: int)
      requires Valid() && (blockNo == 0 || (blockNo in disk && HasRoom(entries, blockNo)))
      modifies this
      ensures Valid() && Logical() == old(Logical()) && |entries| == |old(entries)| && disk.Keys == old(disk).Keys
      ensures result == Result(old(Logical()), ReadOp(blockNo), buffer)
      ensures blockNo == 0 ==> clock == old(clock)
      ensures blockNo != 0 ==>
        && UsedAt(old(entries), entries, blockNo, at) && at < |old(stamps)|
        && clock == old(clock) + 1 && stamps == old(stamps)[at := old(clock)]
      ensures blockNo != 0 && Slot(old(entries), blockNo) != -1 ==> disk == old(disk)
    {
      hide CacheOk, StampsOk, Ticked, OnDevice, Contents;
      if blockNo == 0 {
        return buffer, -1;
      }
      TimeIs(entries, time, disk, stamps, clock);
      CurrentIs(entries, disk, blockNo);
      var found, index := Search(blockNo);
      at := index;
      if found {
        EntryUsed(entries, disk, index, time);
        Put(index, entries[index]);
        return entries[index].block, at;
      }
      if entries[index].dirty {
        Flush(index);
      }
      KeepsMissing(old(entries), entries, disk, blockNo);
      result := disk[blockNo];
      Replaced(entries, disk, index, Entry(blockNo, time, false, result));
      CurrentOnMiss(entries, disk, blockNo);
      Put(index, Entry(blockNo, 0, false, result));
    }

    /** `write_block`: later readers see the data; the device gets it at the latest with `Sync`. */
    method WriteBlock(blockNo: int, buffer: seq<Byte>) returns (ghost at: int)
      requires Valid() && (blockNo == 0 || (blockNo in disk && HasRoom(entries, blockNo)))
      modifies this
      ensures Valid() && Logical() == Step(old(Logical()), WriteOp(blockNo, buffer)) && |entries| == |old(entries)| &&
        disk.Keys == old(disk).Keys
      ensures blockNo == 0 ==> clock == old(clock)
      ensures blockNo != 0 ==>
        && UsedAt(old(entries), entries, blockNo, at) && at < |old(stamps)|
        && clock == old(clock) + 1 && stamps == old(stamps)[at := old(clock)]
      ensures blockNo != 0 && Slot(old(entries), blockNo) != -1 ==> disk == old(disk)
    {
      hide CacheOk, StampsOk, Ticked, OnDevice, Contents;
      at := -1;
      if blockNo == 0 {
        return;
      }
      TimeIs(entries, time, disk, stamps, clock);
      CurrentIs(entries, disk, blockNo);
      var found, index := Search(blockNo);
      at := index;
      if found {
        Overwritten(entries, disk, index, time, buffer);
        Put(index, entries[index].(dirty := true, block := buffer));
        return;
      }
      if entries[index].dirty {
        Flush(index);
      }
      KeepsMissing(old(entries), entries, disk, blockNo);
      Replaced(entries, disk, index, Entry(blockNo, time, true, buffer));
      Put(index, Entry(blockNo, 0, true, buffer));
    }

    /** `ext2_sync`: afterwards the device itself holds what readers see. */
    method Sync()
      requires Valid()
      modifies `entries, `disk
      ensures Valid() && Logical() == old(Logical()) && disk == old(Logical()) && |entries| == |old(entries)|
      ensures forall i | 0 <= i < |entries| :: !entries[i].dirty
    {
      var i := 0;
      while i < |entries|
        invariant 0 <= i <= |entries| == |old(entries)| && Valid() && Logical() == old(Logical()) &&
          disk.Keys == old(disk).Keys
        invariant forall j | 0 <= j < i :: !entries[j].dirty
      {
        if entries[i].dirty {
          Flush(i);
        }
        i := i + 1;
      }
      AllClean(entries, disk);
    }

    /**
     A run of reads and writes through the cache gives what the device itself gives, up to the
     first one for which no entry can make room: never before each entry has had a round of the
     clock.
     */
    method RunAll(ops: seq<Op>, buffer: seq<Byte>) returns (served: nat, results: seq<seq<Byte>>)
      requires Valid() && forall k | 0 <= k < |ops| :: ops[k].blockNo == 0 || ops[k].blockNo in disk
      modifies this
      ensures Valid() && served <= |ops| && |entries| == |old(entries)|
      ensures results == Results(old(Logical()), ops[..served], buffer) &&
        Logical() == Run(old(Logical()), ops[..served])
      ensures served < |ops| ==>
        && ops[served].blockNo != 0 && !HasRoom(entries, ops[served].blockNo)
        && |entries| * WORD_LIMIT <= clock && clock % WORD_LIMIT == 0
      ensures old(clock) + |ops| <= |entries| * WORD_LIMIT ==> served == |ops|
    {
      hide StateOk, CacheOk, OnDevice, Run, Results, Step, Result, Contents, HasRoom, Slot;
      results, served := [], 0;
      NothingRun(Logical(), buffer);
      assert ops[..0] == [];
      while served < |ops|
        invariant served <= |ops| && Valid() && |entries| == |old(entries)| && clock <= old(clock) + served &&
          disk.Keys == old(disk).Keys
        invariant results == Results(old(Logical()), ops[..served], buffer) &&
          Logical() == Run(old(Logical()), ops[..served])
      {
        var op := ops[served];
        var ok, r := Serve(op, buffer);
        if !ok {
          return;
        }
        RunOneMore(old(Logical()), ops[..served], op, buffer);
        assert ops[..served + 1] == ops[..served] + [op];
        results := results + [r];
        served := served + 1;
      }
    }

    /** One operation, if there is room for its block. */
    method Serve(op: Op, buffer: seq<Byte>) returns (ok: bool, result: seq<Byte>)
      requires Valid() && (op.blockNo == 0 || op.blockNo in disk)
      modifies this
      ensures Valid() && |entries| == |old(entries)| && disk.Keys == old(disk).Keys && clock <= old(clock) + 1
      ensures ok <==> op.blockNo == 0 || HasRoom(old(entries), op.blockNo)
      ensures ok ==> result == Result(old(Logical()), op, buffer) && Logical() == Step(old(Logical()), op)
      ensures !ok ==>
        && entries == old(entries) && Logical() == old(Logical())
        && |entries| * WORD_LIMIT <= clock == old(clock) && clock % WORD_LIMIT == 0
    {
      hide Contents;
      result := buffer;
      if op.blockNo != 0 {
        var found, index := Search(op.blockNo);
        if !found && index == -1 {
          NoRoomOnlyLate(entries, time, disk, stamps, clock, op.blockNo);
          return false, buffer;
        }
      }
      ghost var at;
      if op.ReadOp? {
        result, at := ReadBlock(op.blockNo, buffer);
      } else {
        at := WriteBlock(op.blockNo, op.data);
      }
      ok := true;
    }

    /** Reads of one block, and nothing else. */
    method Repeat(blockNo: int, times: nat, ghost at: int)
      requires Valid() && blockNo != 0 && blockNo in disk && 0 < times && 0 <= at < |entries|
      requires if Slot(entries, blockNo) == -1 then IsOldest(entries, at) else at == Slot(entries, blockNo)
      modifies this
      ensures Valid() && Logical() == old(Logical()) && |entries| == |old(entries)| && disk.Keys == old(disk).Keys
      ensures UsedAt(old(entries), entries, blockNo, at) && clock == old(clock) + times
      ensures |old(stamps)| == |entries| && stamps == old(stamps)[at := clock - 1]
    {
      hide Ticked, StampsOk, OnDevice, Contents;
      UsesAre(entries, time, disk, stamps, clock);
      var k := 0;
      while k < times
        invariant 0 <= k <= times && Valid() && Logical() == old(Logical()) && |entries| == |old(entries)| &&
          disk.Keys == old(disk).Keys
        invariant clock == old(clock) + k && |old(stamps)| == |entries|
        invariant if k == 0 then entries == old(entries) && stamps == old(stamps) else
          UsedAt(old(entries), entries, blockNo, at) && stamps == old(stamps)[at := clock - 1] &&
            Slot(entries, blockNo) == at
      {
        ghost var before := entries;
        var r, i := ReadBlock(blockNo, []);
        OldestIsUnique(before, at, i);
        SlotIsUnique(entries, disk, blockNo, at);
        k := k + 1;
      }
    }
  }

  /**
   A cache that has come to the point where no entry can make room, at the end of any round from
   the one on whose number is that of the entries: each entry was read last in the last tick of a
   round.
   */
  method RunDry(device: Disk, size: nat, cacheEntries: nat, rounds: nat) returns (c: Cache)
    requires OnDevice(device, size) && forall b: int | 0 < b <= cacheEntries + 1 :: b in device
    requires 0 < cacheEntries <= rounds
    ensures fresh(c) && c.Valid() && |c.entries| == cacheEntries && c.clock == rounds * WORD_LIMIT
    ensures cacheEntries + 1 in c.disk && !HasRoom(c.entries, cacheEntries + 1)
  {
    hide CacheOk, OnDevice, Contents, Ticked, StampsOk, Slot;
    c := new Cache(device, size, cacheEntries);
    var before := rounds - cacheEntries;
    var i := 0;
    while i < cacheEntries
      invariant 0 <= i <= cacheEntries && fresh(c) && c.Valid() && |c.entries| == |c.stamps| == cacheEntries &&
        c.disk.Keys == device.Keys
      invariant c.clock == if i == 0 then 0 else (before + i) * WORD_LIMIT
      invariant forall j | 0 <= j < i :: c.entries[j].blockNo == j + 1 && c.entries[j].lastUse == UINT32_MAX
      invariant forall j | i <= j < cacheEntries :: c.entries[j].blockNo == 0 && c.entries[j].lastUse == 0
    {
      NotHeld(c.entries, i + 1);
      c.Repeat(i + 1, if i == 0 then (before + 1) * WORD_LIMIT else WORD_LIMIT, i);
      LastTick(before + i);
      UsesAre(c.entries, c.time, c.disk, c.stamps, c.clock);
      i := i + 1;
    }
    NotHeld(c.entries, cacheEntries + 1);
  }

  /**
   A cache whose victim is not a least recently used entry, at any time at which there can be one:
   the victim was used in a later round than another entry.
   */
  method RunOver(device: Disk, size: nat, cacheEntries: nat, ticks: nat) returns (c: Cache, ghost v: int)
    requires OnDevice(device, size) && 1 in device && 2 in device
    requires 2 <= cacheEntries && WORD_LIMIT < ticks && (cacheEntries == 2 ==> ticks % WORD_LIMIT != 0)
    ensures fresh(c) && c.Valid() && |c.entries| == |c.stamps| == cacheEntries && c.clock == ticks
    ensures IsOldest(c.entries, v) && !LeastRecent(c.stamps, v)
  {
    if cacheEntries == 2 {
      c := RunOverPair(device, size, ticks);
      v := 1;
    } else {
      c := RunOverMany(device, size, cacheEntries, ticks);
      v := 0;
    }
  }

  /** One block is read for a round, and then another one. */
  method RunOverPair(device: Disk, size: nat, ticks: nat) returns (c: Cache)
    requires OnDevice(device, size) && 1 in device && 2 in device && WORD_LIMIT < ticks && ticks % WORD_LIMIT != 0
    ensures fresh(c) && c.Valid() && |c.entries| == |c.stamps| == 2 && c.clock == ticks
    ensures IsOldest(c.entries, 1) && !LeastRecent(c.stamps, 1)
  {
    hide CacheOk, OnDevice, Contents, Ticked, StampsOk, Slot;
    c := new Cache(device, size, 2);
    NotHeld(c.entries, 1);
    c.Repeat(1, WORD_LIMIT, 0);
    UsesAre(c.entries, c.time, c.disk, c.stamps, c.clock);
    NotHeld(c.entries, 2);
    c.Repeat(2, ticks - WORD_LIMIT, 1);
    UsesAre(c.entries, c.time, c.disk, c.stamps, c.clock);
    assert c.stamps[0] < c.stamps[1];
  }

  /** One block is read up to the first wrap, and then another one. */
  method RunOverMany(device: Disk, size: nat, cacheEntries: nat, ticks: nat) returns (c: Cache)
    requires OnDevice(device, size) && 1 in device && 2 in device && 2 < cacheEntries && WORD_LIMIT < ticks
    ensures fresh(c) && c.Valid() && |c.entries| == |c.stamps| == cacheEntries && c.clock == ticks
    ensures IsOldest(c.entries, 0) && !LeastRecent(c.stamps, 0)
  {
    hide CacheOk, OnDevice, Contents, Ticked, StampsOk, Slot;
    c := new Cache(device, size, cacheEntries);
    NotHeld(c.entries, 1);
    c.Repeat(1, 2, 0);
    UsesAre(c.entries, c.time, c.disk, c.stamps, c.clock);
    NotHeld(c.entries, 2);
    c.Repeat(2, 1, 1);
    SlotIsUnique(c.entries, c.disk, 1, 0);
    c.Repeat(1, WORD_LIMIT - 2, 0);
    if ticks > WORD_LIMIT + 1 {
      SlotIsUnique(c.entries, c.disk, 2, 1);
      c.Repeat(2, ticks - WORD_LIMIT - 1, 1);
    }
    UsesAre(c.entries, c.time, c.disk, c.stamps, c.clock);
    assert c.stamps[2] < c.stamps[0];
  }

  lemma UsesAre(entries: seq<Entry>, time: int, disk: Disk, stamps: seq<int>, clock: int)
    requires StateOk(entries, time, disk, stamps, clock)
    ensures |stamps| == |entries|
    ensures forall i | 0 <= i < |entries| :: 0 <= entries[i].lastUse == stamps[i] % WORD_LIMIT
  {
  }

  lemma NothingRun(disk: Disk, buffer: seq<Byte>)
    ensures Run(disk, []) == disk && Results(disk, [], buffer) == []
  {
  }

  lemma NotHeld(entries: seq<Entry>, b: int)
    requires forall i | 0 <= i < |entries| :: entries[i].blockNo != b
    ensures Slot(entries, b) == -1
  {
    assert forall i :: !Holds(entries, b, i);
  }

  lemma LastTick(i: nat)
    ensures ((i + 1) * WORD_LIMIT - 1) % WORD_LIMIT == UINT32_MAX && i * WORD_LIMIT + WORD_LIMIT == (i + 1) * WORD_LIMIT
  {
  }

  lemma OldestIsUnique(entries: seq<Entry>, v: int, w: int)
    ensures IsOldest(entries, v) && IsOldest(entries, w) ==> v == w
  {
  }

  lemma NoRoomOnlyLate(entries: seq<Entry>, time: int, disk: Disk, stamps: seq<int>, clock: int, b: int)
    requires StateOk(entries, time, disk, stamps, clock)
    requires Slot(entries, b) == -1 && forall i | 0 <= i < |entries| :: entries[i].lastUse == UINT32_MAX
    ensures !HasRoom(entries, b) && |entries| * WORD_LIMIT <= clock && clock % WORD_LIMIT == 0
  {
    LastOfRounds(entries, stamps, clock);
  }

  /**
   Block `b` is in entry `at`, which it had before or where it has replaced an oldest one; no other
   entry has changed.
   */
  ghost predicate UsedAt(before: seq<Entry>, after: seq<Entry>, b: int, at: int) {
    && |after| == |before| && Holds(after, b, at) && (forall j | 0 <= j < |before| && j != at :: after[j] == before[j])
    && if Slot(before, b) == -1 then IsOldest(before, at) else at == Slot(before, b)
  }

  /** Every block of the device has its offset below 2^32. */
  ghost predicate OnDevice(disk: Disk, size: nat) {
    forall b | b in disk :: 0 <= b && Addressable(size, b + 1)
  }

  lemma KeepsMissing(before: seq<Entry>, after: seq<Entry>, disk: Disk, b: int)
    requires CacheOk(before, disk) || CacheOk(after, disk)
    requires |after| == |before| && forall i | 0 <= i < |before| :: after[i].blockNo == before[i].blockNo
    requires Slot(before, b) == -1
    ensures Slot(after, b) == -1
  {
    forall i ensures !Holds(after, b, i) {
      assert !Holds(before, b, i);
    }
  }

  lemma TimeIs(entries: seq<Entry>, time: int, disk: Disk, stamps: seq<int>, clock: int)
    requires StateOk(entries, time, disk, stamps, clock)
    ensures 0 <= time <= UINT32_MAX
  {
  }

  lemma CurrentIs(entries: seq<Entry>, disk: Disk, b: int)
    requires b in disk && b != 0
    ensures b in Contents(entries, disk)
    ensures Contents(entries, disk)[b] == if Slot(entries, b) != -1 then entries[Slot(entries, b)].block else disk[b]
  {
  }

  lemma CurrentOnMiss(entries: seq<Entry>, disk: Disk, b: int)
    requires Slot(entries, b) == -1 && b in disk
    ensures Contents(entries, disk)[b] == disk[b] && Contents(entries, disk)[b := disk[b]] == Contents(entries, disk)
  {
  }

  lemma AllClean(entries: seq<Entry>, disk: Disk)
    requires CacheOk(entries, disk) && forall i | 0 <= i < |entries| :: !entries[i].dirty
    ensures Contents(entries, disk) == disk
  {
    forall b | b in disk ensures Current(entries, disk, b) == disk[b] {
      if b != 0 && Slot(entries, b) != -1 {
        assert EntryOk(disk, entries[Slot(entries, b)]);
      }
    }
  }
}

/**
 Runs in which the pipe does lose or invent bytes.  For every size above one, a reader that
 has wrapped to index 0 while the writer's index still reads `size` copies stale bytes, and a
 torn check of a writer overwrites the whole ring.
 */
module PipeRaces {
  import opened Bytes
  import opened Pipe
  import opened PipeConservation
  import opened PipeChecks

  const ROLES: seq<Role> := [Reader, Writer]
  const R: nat := 0
  const W: nat := 1

  function Steps(t: nat, k: nat): seq<Event> {
    seq(k, _ => Step(t))
  }

  lemma {:induction false} RunConcat(s: State, a: seq<Event>, b: seq<Event>)
    ensures Run(s, a + b) == Run(Run(s, a), b)
  {
    if b == [] {
      assert a + b == a;
    } else {
      var c := b[..|b| - 1];
      RunConcat(s, a, c);
      assert (a + b)[..|a + b| - 1] == a + c;
    }
  }

  /** `k` steps of one thread that nobody interrupts. */
  function Solo(m: Shared, th: Thread, k: nat): (Shared, Thread)
    decreases k
  {
    if k == 0 then (m, th) else Solo(SharedStep(m, th), ThreadStep(m, th), k - 1)
  }

  lemma {:induction false} SoloRun(s: State, t: nat, k: nat)
    requires t < |s.threads|
    decreases k
    ensures var (m, th) := Solo(s.m, s.threads[t], k); Run(s, Steps(t, k)) == State(m, s.threads[t := th])
  {
    if k == 0 {
      assert Steps(t, k) == [];
    } else {
      var s1 := Next(s, Step(t));
      assert Run(s, [Step(t)]) == s1 by {
        assert [Step(t)][..0] == [];
      }
      assert Steps(t, k) == [Step(t)] + Steps(t, k - 1);
      RunConcat(s, [Step(t)], Steps(t, k - 1));
      SoloRun(s1, t, k - 1);
    }
  }

  /** `th` gets from `th` to `th'` alone, in some number of steps. */
  ghost predicate Goes(m: Shared, th: Thread, m': Shared, th': Thread) {
    exists k: nat :: Solo(m, th, k) == (m', th')
  }

  lemma {:induction false} SoloConcat(m: Shared, th: Thread, j: nat, k: nat)
    ensures var (m1, th1) := Solo(m, th, j); Solo(m, th, j + k) == Solo(m1, th1, k)
    decreases j
  {
    if j > 0 {
      SoloConcat(SharedStep(m, th), ThreadStep(m, th), j - 1, k);
    }
  }

  lemma GoesOn(m: Shared, th: Thread, m1: Shared, th1: Thread, m': Shared, th': Thread)
    requires Goes(m, th, m1, th1) && Goes(m1, th1, m', th')
    ensures Goes(m, th, m', th')
  {
    var j: nat :| Solo(m, th, j) == (m1, th1);
    var k: nat :| Solo(m1, th1, k) == (m', th');
    SoloConcat(m, th, j, k);
    assert Solo(m, th, j + k) == (m', th');
  }

  lemma GoesOne(m: Shared, th: Thread)
    ensures Goes(m, th, SharedStep(m, th), ThreadStep(m, th))
  {
    assert Solo(SharedStep(m, th), ThreadStep(m, th), 0) == (SharedStep(m, th), ThreadStep(m, th));
    assert Solo(m, th, 1) == (SharedStep(m, th), ThreadStep(m, th));
  }

  /** One more step of a solo run. */
  lemma Then(m0: Shared, th0: Thread, m: Shared, th: Thread) returns (m': Shared, th': Thread)
    requires Goes(m0, th0, m, th)
    ensures m' == SharedStep(m, th) && th' == ThreadStep(m, th) && Goes(m0, th0, m', th')
  {
    m', th' := SharedStep(m, th), ThreadStep(m, th);
    GoesOne(m, th);
    GoesOn(m0, th0, m, th, m', th');
  }

  /** A check that finds the indices different: equal?, ordered?, arithmetic. */
  lemma CheckAlone(m: Shared, th: Thread) returns (th': Thread)
    requires th.pc.Equal1? && Own(m, th.role) != Other(m, th.role)
    ensures Goes(m, th, m, th')
    ensures th'.pc == AfterCheck(th, Result(m.size, th.role, m.readPtr > m.writePtr, Own(m, th.role),
      Other(m, th.role)))
    ensures th' == th.(pc := th'.pc, own := Own(m, th.role), other := Other(m, th.role))
  {
    var m';
    assert Solo(m, th, 0) == (m, th);
    m', th' := Then(m, th, m, th);
    m', th' := Then(m, th, m', th');
    m', th' := Then(m, th, m', th');
    m', th' := Then(m, th, m', th');
    m', th' := Then(m, th, m', th');
    m', th' := Then(m, th, m', th');
  }

  /** A check that finds the two indices equal. */
  lemma EqualAlone(m: Shared, th: Thread) returns (th': Thread)
    requires th.pc.Equal1? && Own(m, th.role) == Other(m, th.role)
    ensures Goes(m, th, m, th')
    ensures th'.pc == AfterCheck(th, if th.role.Reader? then 0 else Word(m.size - 1))
    ensures th' == th.(pc := th'.pc, own := Own(m, th.role), other := Other(m, th.role))
  {
    var m';
    assert Solo(m, th, 0) == (m, th);
    m', th' := Then(m, th, m, th);
    m', th' := Then(m, th, m', th');
  }

  /** One byte is moved and the index incremented, but not yet wrapped. */
  lemma TransferAlone(m: Shared, th: Thread) returns (m': Shared, th': Thread)
    requires th.pc.Slot? && Own(m, th.role) < |m.buffer| && th.done < th.todo
    requires th.role.Writer? ==> th.todo == |th.data|
    ensures Goes(m, th, m', th')
    ensures th' == th.(pc := if Own(m, th.role) + 1 == m.size then Wrap else Equal1, own := Own(m, th.role), done :=
      th.done + 1)
    ensures if th.role.Reader? then m' == m.(collected := m.collected + [m.buffer[m.readPtr]], readPtr := m.readPtr + 1)
            else m' == m.(buffer := m.buffer[m.writePtr := th.data[th.done]], writePtr := m.writePtr + 1,
                          written := m.written + [th.data[th.done]])
  {
    assert Solo(m, th, 0) == (m, th);
    m', th' := Then(m, th, m, th);
    m', th' := Then(m, th, m', th');
    m', th' := Then(m, th, m', th');
    m', th' := Then(m, th, m', th');
  }

  lemma UnlockAlone(m: Shared, th: Thread) returns (m': Shared, th': Thread)
    requires th.pc.Unlock1? && LockWord(m, th.role) && 0 < th.done == th.todo
    ensures Goes(m, th, m', th')
    ensures m' == SetLock(m, th.role, false) && th' == th.(pc := Idle)
  {
    assert Solo(m, th, 0) == (m, th);
    m', th' := Then(m, th, m, th);
    m', th' := Then(m, th, m', th');
  }

  /** A whole `write_pipe` of one byte into an empty ring, without wrap. */
  lemma WriteAlone(m: Shared, th: Thread) returns (m': Shared, th': Thread)
    requires th.role.Writer? && th.pc.Lock? && th.done == 0 && th.todo == |th.data| == 1
    requires m.readPtr == m.writePtr && m.writePtr + 1 < m.size == |m.buffer| < SIZE_T && !m.lockWrite
    ensures Goes(m, th, m', th') && th'.role.Writer? && th'.pc.Idle?
    ensures m' == m.(buffer := m.buffer[m.writePtr := th.data[0]], writePtr := m.writePtr + 1, written :=
      m.written + [th.data[0]])
  {
    GoesOne(m, th);
    var m1, t1 := SharedStep(m, th), ThreadStep(m, th);
    var t2 := EqualAlone(m1, t1);
    var m3, t3 := TransferAlone(m1, t2);
    var t4 := CheckAlone(m3, t3);
    m', th' := UnlockAlone(m3, t4);
    GoesOn(m, th, m1, t1, m1, t2);
    GoesOn(m, th, m1, t2, m3, t3);
    GoesOn(m, th, m3, t3, m3, t4);
    GoesOn(m, th, m3, t4, m', th');
  }

  /** A whole `read_pipe` of the only byte in the ring, without wrap. */
  lemma ReadAlone(m: Shared, th: Thread) returns (m': Shared, th': Thread)
    requires th.role.Reader? && th.pc.Lock? && th.done == 0 && th.todo == 1
    requires m.readPtr + 1 == m.writePtr < m.size == |m.buffer| < SIZE_T && !m.lockRead
    ensures Goes(m, th, m', th') && th'.role.Reader? && th'.pc.Idle?
    ensures m' == m.(collected := m.collected + [m.buffer[m.readPtr]], readPtr := m.readPtr + 1)
  {
    GoesOne(m, th);
    var m1, t1 := SharedStep(m, th), ThreadStep(m, th);
    var t2 := CheckAlone(m1, t1);
    var m3, t3 := TransferAlone(m1, t2);
    var t4 := EqualAlone(m3, t3);
    m', th' := UnlockAlone(m3, t4);
    GoesOn(m, th, m1, t1, m1, t2);
    GoesOn(m, th, m1, t2, m3, t3);
    GoesOn(m, th, m3, t3, m3, t4);
    GoesOn(m, th, m3, t4, m', th');
  }

  // ---------- The runs ----------

  lemma CallRun(s: State, ev: Event)
    ensures Run(s, [ev]) == Next(s, ev)
  {
    assert [ev][..0] == [];
  }

  lemma GoesRun(s: State, t: nat, m: Shared, th: Thread) returns (evs: seq<Event>)
    requires t < |s.threads| && Goes(s.m, s.threads[t], m, th)
    ensures Run(s, evs) == State(m, s.threads[t := th])
  {
    var k: nat :| Solo(s.m, s.threads[t], k) == (m, th);
    evs := Steps(t, k);
    SoloRun(s, t, k);
  }

  /** A call of thread `t`, run alone for a while. */
  lemma CallAlone(s: State, call: Event, m: Shared, th: Thread) returns (evs: seq<Event>)
    requires call.Call? && call.t < |s.threads| && s.threads[call.t].pc.Idle?
    requires Goes(s.m, StartCall(s.threads[call.t], call.n, call.data), m, th)
    ensures Run(s, evs) == State(m, s.threads[call.t := th])
  {
    var s1 := Next(s, call);
    var more := GoesRun(s1, call.t, m, th);
    CallRun(s, call);
    RunConcat(s, [call], more);
    evs := [call] + more;
    assert s1.threads[call.t := th] == s.threads[call.t := th];
  }

  /** Nobody is inside a call, both indices are `i` and everything written has been collected. */
  predicate Quiet(s: State, size: nat, i: nat) {
    && |s.threads| == 2 && s.threads[R].role.Reader? && s.threads[W].role.Writer?
    && s.threads[R].pc.Idle? && s.threads[W].pc.Idle?
    && s.m.size == size == |s.m.buffer| && s.m.readPtr == s.m.writePtr == i < size
    && !s.m.lockRead && !s.m.lockWrite
    && |s.m.written| == |s.m.collected|
  }

  lemma WriteThenRead(s: State, size: nat, i: nat) returns (evs: seq<Event>)
    requires Quiet(s, size, i) && i + 1 < size < SIZE_T
    ensures Quiet(Run(s, evs), size, i + 1)
  {
    var m1, w := WriteAlone(s.m, StartCall(s.threads[W], 0, [7]));
    var evs1 := CallAlone(s, Call(W, 0, [7]), m1, w);
    var s1 := Run(s, evs1);
    var m2, r := ReadAlone(m1, StartCall(s1.threads[R], 1, []));
    var evs2 := CallAlone(s1, Call(R, 1, []), m2, r);
    RunConcat(s, evs1, evs2);
    evs := evs1 + evs2;
  }

  lemma {:induction false} WarmUp(size: nat, buffer: seq<Byte>, i: nat) returns (evs: seq<Event>)
    requires i < size == |buffer| < SIZE_T
    ensures Quiet(Run(Init(size, buffer, ROLES), evs), size, i)
  {
    if i == 0 {
      evs := [];
    } else {
      var evs1 := WarmUp(size, buffer, i - 1);
      var s1 := Run(Init(size, buffer, ROLES), evs1);
      var evs2 := WriteThenRead(s1, size, i - 1);
      RunConcat(Init(size, buffer, ROLES), evs1, evs2);
      evs := evs1 + evs2;
    }
  }

  /** The writer fills the last slot and is stopped between `++write_ptr` and `write_ptr = 0`. */
  lemma StopBeforeWrap(s: State, size: nat) returns (evs: seq<Event>)
    requires 1 < size < SIZE_T && Quiet(s, size, size - 1)
    ensures var s' := Run(s, evs);
      && |s'.threads| == 2 && s'.threads[R] == s.threads[R] && s'.m.size == size == |s'.m.buffer|
      && s'.m.readPtr + 1 == size == s'.m.writePtr && !s'.m.lockRead && |s'.m.written| == |s'.m.collected| + 1
  {
    var call := Call(W, 0, [7]);
    var th := StartCall(s.threads[W], 0, [7]);
    var m1, t1 := SharedStep(s.m, th), ThreadStep(s.m, th);
    GoesOne(s.m, th);
    var t2 := EqualAlone(m1, t1);
    GoesOn(s.m, th, m1, t1, m1, t2);
    var m3, t3 := TransferAlone(m1, t2);
    GoesOn(s.m, th, m1, t2, m3, t3);
    evs := CallAlone(s, call, m3, t3);
  }

  /** The reader takes the last byte, wraps, still sees `write_ptr == size` and copies a byte nobody wrote. */
  lemma ReadOneTooMany(s: State, size: nat) returns (evs: seq<Event>)
    requires 1 < size < SIZE_T && |s.threads| == 2 && s.threads[R].role.Reader? && s.threads[R].pc.Idle?
    requires s.m.size == size == |s.m.buffer| && s.m.readPtr + 1 == size == s.m.writePtr && !s.m.lockRead
    requires |s.m.written| == |s.m.collected| + 1
    ensures |Run(s, evs).m.collected| > |Run(s, evs).m.written|
  {
    var call := Call(R, 2, []);
    var th := StartCall(s.threads[R], 2, []);
    var m1, t1 := SharedStep(s.m, th), ThreadStep(s.m, th);
    GoesOne(s.m, th);
    var t2 := CheckAlone(m1, t1);
    GoesOn(s.m, th, m1, t1, m1, t2);
    var m3, t3 := TransferAlone(m1, t2);
    GoesOn(s.m, th, m1, t2, m3, t3);
    var m4, t4 := Then(s.m, th, m3, t3);
    var t5 := CheckAlone(m4, t4);
    GoesOn(s.m, th, m4, t4, m4, t5);
    var m6, t6 := TransferAlone(m4, t5);
    GoesOn(s.m, th, m4, t5, m6, t6);
    evs := CallAlone(s, call, m6, t6);
  }

  /** Every pipe that can hold a byte at all has a run that is not conserved. */
  lemma StaleRun(size: nat, buffer: seq<Byte>) returns (evs: seq<Event>)
    requires 1 < size == |buffer| < SIZE_T
    ensures !Conserved(Run(Init(size, buffer, ROLES), evs))
  {
    var s0 := Init(size, buffer, ROLES);
    var evs1 := WarmUp(size, buffer, size - 1);
    var s1 := Run(s0, evs1);
    var evs2 := StopBeforeWrap(s1, size);
    var s2 := Run(s1, evs2);
    RunConcat(s0, evs1, evs2);
    var evs3 := ReadOneTooMany(s2, size);
    RunConcat(s0, evs1 + evs2, evs3);
    evs := evs1 + evs2 + evs3;
  }

  // ---------- The torn check ----------

  /** The writer's byte goes to the last slot, and the call returns. */
  lemma FillLastSlot(s: State, size: nat) returns (evs: seq<Event>)
    requires 1 < size < SIZE_T && Quiet(s, size, size - 1)
    ensures var s' := Run(s, evs);
      && |s'.threads| == 2 && s'.threads[R] == s.threads[R] && s'.threads[W].role.Writer? && s'.threads[W].pc.Idle?
      && s'.m.size == size == |s'.m.buffer| && s'.m.readPtr == size - 1 && s'.m.writePtr == 0
      && !s'.m.lockRead && !s'.m.lockWrite && |s'.m.written| == |s'.m.collected| + 1
  {
    var th := StartCall(s.threads[W], 0, [7]);
    var m1, t1 := SharedStep(s.m, th), ThreadStep(s.m, th);
    GoesOne(s.m, th);
    var t2 := EqualAlone(m1, t1);
    GoesOn(s.m, th, m1, t1, m1, t2);
    var m3, t3 := TransferAlone(m1, t2);
    GoesOn(s.m, th, m1, t2, m3, t3);
    var m4, t4 := Then(s.m, th, m3, t3);
    var t5 := CheckAlone(m4, t4);
    GoesOn(s.m, th, m4, t4, m4, t5);
    var m6, t6 := UnlockAlone(m4, t5);
    GoesOn(s.m, th, m4, t5, m6, t6);
    evs := CallAlone(s, Call(W, 0, [7]), m6, t6);
  }

  /** The reader takes the byte in the last slot and is stopped between `++read_ptr` and `read_ptr = 0`. */
  lemma StopReaderBeforeWrap(s: State, size: nat) returns (evs: seq<Event>)
    requires |s.threads| == 2 && s.threads[R].role.Reader? && s.threads[R].pc.Idle? && 1 < size < SIZE_T
    requires s.m.size == size == |s.m.buffer| && s.m.readPtr == size - 1 && s.m.writePtr == 0 && !s.m.lockRead
    ensures var s' := Run(s, evs);
      && |s'.threads| == 2 && s' == State(s'.m, s.threads[R := s'.threads[R]])
      && s'.threads[R].role.Reader? && s'.threads[R].pc.Wrap?
      && s'.m == s.m.(lockRead := true, readPtr := size, collected := s.m.collected + [s.m.buffer[size - 1]])
  {
    var th := StartCall(s.threads[R], 1, []);
    var m1, t1 := SharedStep(s.m, th), ThreadStep(s.m, th);
    GoesOne(s.m, th);
    var t2 := CheckAlone(m1, t1);
    GoesOn(s.m, th, m1, t1, m1, t2);
    var m3, t3 := TransferAlone(m1, t2);
    GoesOn(s.m, th, m1, t2, m3, t3);
    evs := CallAlone(s, Call(R, 1, []), m3, t3);
  }

  /** A writer at index 0 that sees the reader's index at `size` stores bytes one after the other. */
  lemma {:induction false} StoreAlone(m: Shared, th: Thread, size: nat, k: nat) returns (m': Shared, th': Thread)
    requires th.role.Writer? && th.pc.Equal1? && th.done == 0 && th.todo == |th.data| == size
    requires 1 < size == m.size == |m.buffer| < SIZE_T && m.readPtr == size && m.writePtr == 0 && k < size
    ensures Goes(m, th, m', th')
    ensures th' == th.(own := th'.own, other := th'.other, done := k)
    ensures m' == m.(buffer := m'.buffer, writePtr := k, written := m'.written)
    ensures |m'.buffer| == size && |m'.written| == |m.written| + k
  {
    if k == 0 {
      m', th' := m, th;
      assert Solo(m, th, 0) == (m, th);
    } else {
      var m1, t1 := StoreAlone(m, th, size, k - 1);
      var t2 := CheckAlone(m1, t1);
      GoesOn(m, th, m1, t1, m1, t2);
      m', th' := TransferAlone(m1, t2);
      GoesOn(m, th, m1, t2, m', th');
    }
  }

  /** The writer fills all slots but the last one, and has decided `read_ptr > write_ptr` on the index `size`. */
  lemma StopWriterInCheck(s: State, size: nat) returns (evs: seq<Event>)
    requires |s.threads| == 2 && s.threads[W].role.Writer? && s.threads[W].pc.Idle? && 1 < size < SIZE_T
    requires s.m.size == size == |s.m.buffer| && s.m.readPtr == size && s.m.writePtr == 0 && !s.m.lockWrite
    ensures var s' := Run(s, evs);
      && |s'.threads| == 2 && s' == State(s'.m, s.threads[W := s'.threads[W]])
      && StoppedInCheck(s'.threads[W], size)
      && s'.m == s.m.(lockWrite := true, writePtr := size - 1, buffer := s'.m.buffer, written := s'.m.written)
      && |s'.m.buffer| == size && |s'.m.written| == |s.m.written| + size - 1
  {
    var data: seq<Byte> := seq(size, _ => 8);
    var th := StartCall(s.threads[W], 0, data);
    var m1, t1 := SharedStep(s.m, th), ThreadStep(s.m, th);
    GoesOne(s.m, th);
    var m3, t3 := StoreAlone(m1, t1, size, size - 1);
    GoesOn(s.m, th, m1, t1, m3, t3);
    var m4, t4 := DecideAlone(m3, t3);
    GoesOn(s.m, th, m3, t3, m4, t4);
    evs := CallAlone(s, Call(W, 0, data), m4, t4);
  }

  predicate StoppedInCheck(w: Thread, size: nat) {
    w.role.Writer? && w.pc.Ahead2? && w.own == size - 1 && w.done == size - 1 && w.todo == |w.data| == size
  }

  /** A writer's check up to its last load, in the branch `read_ptr > write_ptr`. */
  lemma DecideAlone(m: Shared, th: Thread) returns (m': Shared, th': Thread)
    requires th.role.Writer? && th.pc.Equal1? && m.readPtr > m.writePtr
    ensures Goes(m, th, m', th') && m' == m
    ensures th' == th.(pc := Ahead2, own := m.writePtr, other := m.readPtr)
  {
    assert Solo(m, th, 0) == (m, th);
    m', th' := Then(m, th, m, th);
    m', th' := Then(m, th, m', th');
    m', th' := Then(m, th, m', th');
    m', th' := Then(m, th, m', th');
    m', th' := Then(m, th, m', th');
  }

  /** The reader wraps; the writer's last load sees 0, computes `-size` and overwrites the ring. */
  lemma OverwriteRing(s: State, size: nat) returns (evs: seq<Event>)
    requires |s.threads| == 2 && s.threads[R].role.Reader? && s.threads[R].pc.Wrap? && 1 < size < SIZE_T
    requires StoppedInCheck(s.threads[W], size)
    requires s.m.size == size == |s.m.buffer| && s.m.readPtr == size && s.m.writePtr == size - 1
    requires |s.m.written| > |s.m.collected|
    ensures |evs| > 1 && evs[0] == Step(R) && evs[1] == Step(W)
    ensures RacyCheck(Run(s, [Step(R)]), Step(W)) && !Conserved(Run(s, evs))
  {
    CallRun(s, Step(R));
    var s1 := Next(s, Step(R));
    CallRun(s1, Step(W));
    var s2 := Next(s1, Step(W));
    var th := s2.threads[W];
    var m3, t3 := TransferAlone(s2.m, th);
    var m4, t4 := Then(s2.m, th, m3, t3);
    var more := GoesRun(s2, W, m4, t4);
    RunConcat(s1, [Step(W)], more);
    RunConcat(s, [Step(R)], [Step(W)] + more);
    evs := [Step(R)] + ([Step(W)] + more);
  }

  /** The second race, too, is in every pipe that can hold a byte: the run goes wrong by a racy check of the writer. */
  lemma TornRun(size: nat, buffer: seq<Byte>) returns (evs: seq<Event>, k: nat)
    requires 1 < size == |buffer| < SIZE_T
    ensures !Conserved(Run(Init(size, buffer, ROLES), evs))
    ensures k < |evs| && evs[k] == Step(W) && RacyCheck(Run(Init(size, buffer, ROLES), evs[..k]), evs[k])
  {
    var s0 := Init(size, buffer, ROLES);
    evs := WarmUp(size, buffer, size - 1);
    var s := Run(s0, evs);
    var more := FillLastSlot(s, size);
    RunConcat(s0, evs, more);
    evs, s := evs + more, Run(s, more);
    more := StopReaderBeforeWrap(s, size);
    RunConcat(s0, evs, more);
    evs, s := evs + more, Run(s, more);
    more := StopWriterInCheck(s, size);
    RunConcat(s0, evs, more);
    evs, s := evs + more, Run(s, more);
    RunConcat(s0, evs, [Step(R)]);
    more := OverwriteRing(s, size);
    RunConcat(s0, evs, more);
    k := |evs| + 1;
    assert (evs + more)[..k] == evs + [Step(R)];
    evs := evs + more;
  }

  // ---------- The pipe of size 1 ----------

  /** A pipe of size 1 never finds room for a byte. */
  predicate Stuck(s: State) {
    && s.m.size == 1 && s.m.readPtr == s.m.writePtr == 0 && s.m.written == s.m.collected == []
    && forall i | 0 <= i < |s.threads| ::
         var th := s.threads[i];
         && (th.pc.Idle? || th.pc.Lock? || th.pc.Spin? || th.pc.Equal1? || th.pc.Equal2? || th.pc.Unlock1? ||
           th.pc.Unlock2?)
         && (th.pc.Equal2? ==> th.own == 0)
  }

  lemma {:induction false} StuckRun(buffer: seq<Byte>, roles: seq<Role>, evs: seq<Event>)
    requires |buffer| == 1
    ensures Stuck(Run(Init(1, buffer, roles), evs))
  {
    if evs != [] {
      StuckRun(buffer, roles, evs[..|evs| - 1]);
    }
  }
}

/**
 The two-lock pipe of src/modules/fs/pipe.cpp on the spin locks of src/task/spin.cpp, as a
 state machine.  Any number of threads run `read_pipe` and `write_pipe`; one step is one
 load or store of a shared variable, and steps interleave arbitrarily over a sequentially
 consistent memory.
 */
module Pipe {
  import opened Bytes

  const SIZE_T: nat := 0x1_0000_0000

  /** Readers own `read_ptr` and look at `write_ptr`; writers the other way round. */
  datatype Role = Reader | Writer

  datatype Pc =
    | Idle
    | Lock        // arch_atomic_swap
    | Spin        // spin_wait: load of the lock word
    | Equal1      // load of the own index          (own == other ?)
    | Equal2      // load of the other index
    | Order1      // load of the own index          (read_ptr > write_ptr ?)
    | Order2      // load of the other index
    | Ahead1      // arithmetic when read_ptr > write_ptr: own index
    | Ahead2      // ... other index
    | Behind1     // arithmetic otherwise: own index
    | Behind2     // ... other index
    | Slot        // load of the own index to address the buffer
    | Copy        // load or store of the buffer byte
    | Inc1        // ++own: load
    | Inc2        // ++own: store
    | Wrap        // own = 0
    | Unlock1     // load of the lock word
    | Unlock2     // store 0

  /** `own` and `other` are registers; `todo` is what the call still has to transfer, `done` what it has. */
  datatype Thread = Thread(role: Role, pc: Pc, own: nat, other: nat, todo: nat, data: seq<Byte>, done: nat)

  /** The shared variables, and two histories. */
  datatype Shared = Shared(
    size: nat, buffer: seq<Byte>, readPtr: nat, writePtr: nat, lockRead: bool, lockWrite: bool,
    written: seq<Byte>,     // bytes whose write index has been published
    collected: seq<Byte>)   // bytes copied into the buffers of readers

  datatype State = State(m: Shared, threads: seq<Thread>)

  /** A new call on an idle thread, or one step of a running one. */
  datatype Event = Call(t: nat, n: nat, data: seq<Byte>) | Step(t: nat)

  function Own(m: Shared, role: Role): nat {
    if role.Reader? then m.readPtr else m.writePtr
  }

  function Other(m: Shared, role: Role): nat {
    if role.Reader? then m.writePtr else m.readPtr
  }

  predicate LockWord(m: Shared, role: Role) {
    if role.Reader? then m.lockRead else m.lockWrite
  }

  function SetLock(m: Shared, role: Role, v: bool): Shared {
    if role.Reader? then m.(lockRead := v) else m.(lockWrite := v)
  }

  function SetOwn(m: Shared, role: Role, v: nat): Shared {
    if role.Reader? then m.(readPtr := v) else m.(writePtr := v)
  }

  /** A `size_t`. */
  function Word(x: int): nat {
    x % SIZE_T
  }

  /** `pipe_unread` or `pipe_available`, once the branch is chosen and both indices are loaded. */
  function Result(size: nat, role: Role, ahead: bool, own: nat, other: nat): nat {
    match role
    case Reader => if ahead then Word(size - own + other) else Word(other - own)
    case Writer => if ahead then Word(other - own - 1) else Word(size - own + other - 1)
  }

  /** Where the loop goes on once the amount that can be transferred is known. */
  function AfterCheck(th: Thread, result: nat): Pc {
    if result > 0 && th.done < th.todo then Slot else Unlock1
  }

  /** `if own == other` returns at once: nothing to read, or everything but one slot to write. */
  function AfterEqual(size: nat, th: Thread, other: nat): Pc {
    if th.own != other then Order1
    else AfterCheck(th, if th.role.Reader? then 0 else Word(size - 1))
  }

  /** Both functions compare `read_ptr > write_ptr`. */
  predicate IsAhead(role: Role, own: nat, other: nat) {
    if role.Reader? then own > other else other > own
  }

  /** The byte goes from the ring to the reader, or from the writer to the ring. */
  function CopyByte(m: Shared, th: Thread): Shared {
    if th.role.Reader? then
      m.(collected := m.collected + [if th.own < |m.buffer| then m.buffer[th.own] else 0])
    else if th.own < |m.buffer| && th.done < |th.data| then
      m.(buffer := m.buffer[th.own := th.data[th.done]])
    else m
  }

  /** Storing the incremented index publishes the byte of a writer. */
  function Advance(m: Shared, th: Thread): Shared {
    if th.role.Writer? && 0 < th.done <= |th.data| then
      m.(writePtr := th.own + 1, written := m.written + [th.data[th.done - 1]])
    else SetOwn(m, th.role, th.own + 1)
  }

  /** `read_pipe` sleeps and retries while nothing was collected, `write_pipe` while bytes are left. */
  function AfterUnlock(th: Thread): Pc {
    if th.role.Reader? then (if th.done == 0 then Lock else Idle)
    else (if th.done < th.todo then Lock else Idle)
  }

  /** The effect of a step on the shared variables ... */
  function SharedStep(m: Shared, th: Thread): Shared {
    match th.pc
    case Lock => SetLock(m, th.role, true)
    case Copy => CopyByte(m, th)
    case Inc2 => Advance(m, th)
    case Wrap => SetOwn(m, th.role, 0)
    case Unlock2 => SetLock(m, th.role, false)
    case _ => m
  }

  /** ... and on the thread that makes it. */
  function ThreadStep(m: Shared, th: Thread): Thread {
    var own, other := Own(m, th.role), Other(m, th.role);
    match th.pc
    case Idle => th
    case Lock => th.(pc := if LockWord(m, th.role) then Spin else Equal1)
    case Spin => th.(pc := if LockWord(m, th.role) then Spin else Lock)
    case Equal1 => th.(pc := Equal2, own := own)
    case Equal2 => th.(pc := AfterEqual(m.size, th, other), other := other)
    case Order1 => th.(pc := Order2, own := own)
    case Order2 => th.(pc := if IsAhead(th.role, th.own, other) then Ahead1 else Behind1, other := other)
    case Ahead1 => th.(pc := Ahead2, own := own)
    case Ahead2 => th.(pc := AfterCheck(th, Result(m.size, th.role, true, th.own, other)), other := other)
    case Behind1 => th.(pc := Behind2, own := own)
    case Behind2 => th.(pc := AfterCheck(th, Result(m.size, th.role, false, th.own, other)), other := other)
    case Slot => th.(pc := Copy, own := own)
    case Copy => th.(pc := Inc1, done := th.done + 1)
    case Inc1 => th.(pc := Inc2, own := own)
    case Inc2 => th.(pc := if th.own + 1 == m.size then Wrap else Equal1)
    case Wrap => th.(pc := Equal1)
    case Unlock1 => th.(pc := if LockWord(m, th.role) then Unlock2 else AfterUnlock(th))
    case Unlock2 => th.(pc := AfterUnlock(th))
  }

  /** `read_pipe(n)` or `write_pipe(data)`; writing nothing returns at once. */
  function StartCall(th: Thread, n: nat, data: seq<Byte>): Thread {
    var todo := if th.role.Reader? then n else |data|;
    th.(pc := if th.role.Writer? && todo == 0 then Idle else Lock, todo := todo, data := data, done := 0)
  }

  function Next(s: State, ev: Event): State {
    if ev.t >= |s.threads| then s
    else
      var th := s.threads[ev.t];
      match ev
      case Call(t, n, data) => if th.pc.Idle? then s.(threads := s.threads[t := StartCall(th, n, data)]) else s
      case Step(t) => State(SharedStep(s.m, th), s.threads[t := ThreadStep(s.m, th)])
  }

  /** `make_pipe_`, with an idle thread for each of the given roles. */
  function Init(size: nat, buffer: seq<Byte>, roles: seq<Role>): State {
    State(Shared(size, buffer, 0, 0, false, false, [], []),
          seq(|roles|, i requires 0 <= i < |roles| => Thread(roles[i], Idle, 0, 0, 0, [], 0)))
  }

  function Run(s: State, evs: seq<Event>): State {
    if evs == [] then s else Next(Run(s, evs[..|evs| - 1]), evs[|evs| - 1])
  }

  // ---------- Mutual exclusion ----------

  predicate InCritical(pc: Pc) {
    !pc.Idle? && !pc.Lock? && !pc.Spin?
  }

  ghost predicate Exclusive(s: State) {
    && (forall i | 0 <= i < |s.threads| && InCritical(s.threads[i].pc) :: LockWord(s.m, s.threads[i].role))
    && (forall i, j | 0 <= i < j < |s.threads| && s.threads[i].role == s.threads[j].role ::
          !(InCritical(s.threads[i].pc) && InCritical(s.threads[j].pc)))
  }

  /** A step touches at most the lock of its own side; only an open lock lets a thread in. */
  lemma StepOnLocks(m: Shared, th: Thread)
    ensures var m', th' := SharedStep(m, th), ThreadStep(m, th);
      && th'.role == th.role
      && (th.role.Reader? ==> m'.lockWrite == m.lockWrite)
      && (th.role.Writer? ==> m'.lockRead == m.lockRead)
      && (InCritical(th'.pc) ==> if InCritical(th.pc) then LockWord(m', th.role) == LockWord(m, th.role)
                                 else !LockWord(m, th.role) && LockWord(m', th.role))
      && (!InCritical(th.pc) && LockWord(m, th.role) ==> LockWord(m', th.role))
  {
  }

  lemma ExclusivePreserved(s: State, ev: Event)
    requires Exclusive(s)
    ensures Exclusive(Next(s, ev))
  {
    if ev.t < |s.threads| && ev.Step? {
      StepOnLocks(s.m, s.threads[ev.t]);
    }
  }

  /** At most one reader and one writer hold the pipe, for any number of threads and any interleaving. */
  lemma {:induction false} MutualExclusion(size: nat, buffer: seq<Byte>, roles: seq<Role>, evs: seq<Event>)
    ensures Exclusive(Run(Init(size, buffer, roles), evs))
  {
    if evs != [] {
      MutualExclusion(size, buffer, roles, evs[..|evs| - 1]);
      ExclusivePreserved(Run(Init(size, buffer, roles), evs[..|evs| - 1]), evs[|evs| - 1]);
    }
  }
}

/**
 What the pipe conserves.  Every byte collected is the next byte written, and the ring holds
 exactly the bytes in between - as long as no reader copies from an empty ring and no writer
 catches up with the reader.  The code does not exclude either, so the run is conserved if
 and only if neither happens.
 */
module PipeConservation {
  import opened Bytes
  import opened Pipe

  /** The bytes that the two indices delimit. */
  function Ring(buffer: seq<Byte>, r: nat, w: nat): seq<Byte>
    requires r <= |buffer| && w <= |buffer|
  {
    if r <= w then buffer[r..w] else buffer[r..] + buffer[..w]
  }

  /** A reader has copied its byte but not yet stored the incremented index. */
  predicate IsInFlight(th: Thread) {
    th.role.Reader? && (th.pc.Inc1? || th.pc.Inc2?)
  }

  predicate InFlight(s: State) {
    exists i :: 0 <= i < |s.threads| && IsInFlight(s.threads[i])
  }

  /** The index of the first byte not yet collected. */
  function NextIndex(m: Shared, inFlight: bool): nat {
    var r := if inFlight then m.readPtr + 1 else m.readPtr;
    if r == m.size then 0 else r
  }

  /** Bytes collected followed by bytes in the ring are the bytes written. */
  predicate Conserved(s: State) {
    && s.m.collected <= s.m.written
    && (s.m.writePtr < s.m.size ==>
          var r := NextIndex(s.m, InFlight(s));
          && r <= |s.m.buffer| && s.m.writePtr <= |s.m.buffer|
          && s.m.written == s.m.collected + Ring(s.m.buffer, r, s.m.writePtr))
  }

  /** A reader copies a byte although everything written has been collected. */
  predicate StaleCopy(m: Shared, th: Thread) {
    th.role.Reader? && th.pc.Copy? && |m.collected| == |m.written|
  }

  /** A writer stores an index that makes the non-empty ring look empty. */
  predicate LappingStore(m: Shared, inFlight: bool, th: Thread) {
    && th.role.Writer?
    && match th.pc
       case Inc2 => th.own + 1 < m.size && th.own + 1 == NextIndex(m, inFlight)
       case Wrap => 0 == NextIndex(m, inFlight) && |m.collected| < |m.written|
       case _ => false
  }

  predicate BadStep(s: State, ev: Event) {
    && ev.Step? && ev.t < |s.threads|
    && (StaleCopy(s.m, s.threads[ev.t]) || LappingStore(s.m, InFlight(s), s.threads[ev.t]))
  }

  // ---------- The invariant, on the reader and the writer that hold the locks ----------

  /** Position `i` of the byte stream lives in this slot; `ws` is where the writer's lap began. */
  function SlotOf(i: nat, ws: int, size: nat): int {
    if i < ws then i - ws + size else i - ws
  }

  /** The registers of a thread inside its critical section. */
  ghost predicate HolderOk(m: Shared, th: Thread) {
    && (th.pc.Wrap? <==> Own(m, th.role) == m.size)
    && (th.pc.Equal2? || th.pc.Order2? || th.pc.Ahead2? || th.pc.Behind2? || th.pc.Copy? || th.pc.Inc2?
        ==> th.own == Own(m, th.role))
    && (th.pc.Slot? || th.pc.Copy? ==> th.done < th.todo)
  }

  ghost predicate WriterData(m: Shared, w: Thread) {
    && |w.data| == w.todo && w.done <= w.todo
    && (w.pc.Inc1? || w.pc.Inc2?
        ==> 0 < w.done && m.writePtr < |m.buffer| && m.buffer[m.writePtr] == w.data[w.done - 1])
  }

  /** The shared variables; `rs` and `ws` are the stream positions where the two laps began. */
  ghost predicate MemoryOk(m: Shared, inFlight: bool, rs: nat, ws: nat) {
    && 0 < m.size == |m.buffer| < SIZE_T && m.readPtr <= m.size && m.writePtr <= m.size
    && (inFlight ==> m.readPtr < m.size)
    && |m.collected| == rs + m.readPtr + (if inFlight then 1 else 0)
    && |m.written| == ws + m.writePtr
    && (ws + m.size == rs || ws == rs || ws == rs + m.size)
    && |m.collected| <= |m.written| <= |m.collected| + m.size
    && (m.writePtr < m.size ==> |m.written| < |m.collected| + m.size)
    && m.collected <= m.written
    && (forall i | |m.collected| <= i < |m.written| :: m.written[i] == m.buffer[SlotOf(i, ws, m.size)])
  }

  ghost predicate Core(m: Shared, r: Thread, w: Thread, rs: nat, ws: nat) {
    && r.role.Reader? && w.role.Writer?
    && MemoryOk(m, IsInFlight(r), rs, ws) && HolderOk(m, r) && HolderOk(m, w) && WriterData(m, w)
  }

  lemma CopyKeepsMemory(m: Shared, rs: nat, ws: nat)
    requires MemoryOk(m, false, rs, ws) && m.readPtr < m.size && |m.collected| < |m.written|
    ensures MemoryOk(m.(collected := m.collected + [m.buffer[m.readPtr]]), true, rs, ws)
  {
  }

  lemma ConsumeKeepsMemory(m: Shared, rs: nat, ws: nat)
    requires MemoryOk(m, true, rs, ws)
    ensures MemoryOk(m.(readPtr := m.readPtr + 1), false, rs, ws)
  {
  }

  lemma FillKeepsMemory(m: Shared, inFlight: bool, rs: nat, ws: nat, b: Byte)
    requires MemoryOk(m, inFlight, rs, ws) && m.writePtr < m.size
    ensures MemoryOk(m.(buffer := m.buffer[m.writePtr := b]), inFlight, rs, ws)
  {
  }

  lemma PublishKeepsMemory(m: Shared, inFlight: bool, rs: nat, ws: nat)
    requires MemoryOk(m, inFlight, rs, ws) && m.writePtr < m.size
    requires m.writePtr + 1 < m.size ==> m.writePtr + 1 != NextIndex(m, inFlight)
    ensures MemoryOk(m.(writePtr := m.writePtr + 1, written := m.written + [m.buffer[m.writePtr]]), inFlight, rs, ws)
  {
  }

  lemma WrapsKeepMemory(m: Shared, inFlight: bool, rs: nat, ws: nat)
    requires MemoryOk(m, inFlight, rs, ws)
    ensures m.readPtr == m.size ==> MemoryOk(m.(readPtr := 0), inFlight, rs + m.size, ws)
    ensures m.writePtr == m.size && (NextIndex(m, inFlight) == 0 ==> |m.collected| == |m.written|) ==>
              MemoryOk(m.(writePtr := 0), inFlight, rs, ws + m.size)
  {
  }

  /** Steps that neither copy nor move an index. */
  predicate IsControl(pc: Pc) {
    InCritical(pc) && !pc.Copy? && !pc.Inc2? && !pc.Wrap?
  }

  lemma ControlStep(m: Shared, th: Thread)
    requires IsControl(th.pc) && HolderOk(m, th)
    ensures var m', th' := SharedStep(m, th), ThreadStep(m, th);
      && m' == m.(lockRead := m'.lockRead, lockWrite := m'.lockWrite)
      && HolderOk(m', th') && IsInFlight(th') == IsInFlight(th)
      && th' == th.(pc := th'.pc, own := th'.own, other := th'.other)
      && (th'.pc.Inc1? || th'.pc.Inc2? ==> th.pc.Inc1?)
  {
  }

  lemma ControlKeepsCore(m: Shared, r: Thread, w: Thread, rs: nat, ws: nat)
    requires Core(m, r, w, rs, ws)
    ensures IsControl(r.pc) ==> Core(SharedStep(m, r), ThreadStep(m, r), w, rs, ws)
    ensures IsControl(w.pc) ==> Core(SharedStep(m, w), r, ThreadStep(m, w), rs, ws)
  {
    if IsControl(r.pc) {
      ControlStep(m, r);
    }
    if IsControl(w.pc) {
      ControlStep(m, w);
    }
  }

  lemma ReaderKeepsCore(m: Shared, r: Thread, w: Thread, rs: nat, ws: nat)
    requires Core(m, r, w, rs, ws) && InCritical(r.pc) && !StaleCopy(m, r)
    ensures Core(SharedStep(m, r), ThreadStep(m, r), w, if r.pc.Wrap? then rs + m.size else rs, ws)
  {
    if r.pc.Copy? {
      CopyKeepsMemory(m, rs, ws);
    } else if r.pc.Inc2? {
      ConsumeKeepsMemory(m, rs, ws);
    } else if r.pc.Wrap? {
      WrapsKeepMemory(m, false, rs, ws);
    } else {
      ControlKeepsCore(m, r, w, rs, ws);
    }
  }

  lemma WriterKeepsCore(m: Shared, r: Thread, w: Thread, rs: nat, ws: nat)
    requires Core(m, r, w, rs, ws) && InCritical(w.pc) && !LappingStore(m, IsInFlight(r), w)
    ensures Core(SharedStep(m, w), r, ThreadStep(m, w), rs, if w.pc.Wrap? then ws + m.size else ws)
  {
    if w.pc.Copy? {
      FillKeepsMemory(m, IsInFlight(r), rs, ws, w.data[w.done]);
    } else if w.pc.Inc2? {
      PublishKeepsMemory(m, IsInFlight(r), rs, ws);
    } else if w.pc.Wrap? {
      WrapsKeepMemory(m, IsInFlight(r), rs, ws);
    } else {
      ControlKeepsCore(m, r, w, rs, ws);
    }
  }

  // ---------- The invariant, on whole states ----------

  /** Thread `k` is the one inside the critical section of its side; -1 if there is none. */
  ghost predicate HeldBy(s: State, role: Role, k: int) {
    && -1 <= k < |s.threads|
    && (0 <= k ==> s.threads[k].role == role && InCritical(s.threads[k].pc))
    && (forall j | 0 <= j < |s.threads| && j != k && s.threads[j].role == role :: !InCritical(s.threads[j].pc))
  }

  function Holder(s: State, role: Role, k: int): Thread
    requires k < |s.threads|
  {
    if k < 0 then Thread(role, Idle, 0, 0, 0, [], 0) else s.threads[k]
  }

  /** A writer transfers the bytes it was given. */
  ghost predicate CallsOk(s: State) {
    forall i | 0 <= i < |s.threads| && s.threads[i].role.Writer? :: |s.threads[i].data| == s.threads[i].todo &&
      s.threads[i].done <= s.threads[i].todo
  }

  ghost predicate GoodAt(s: State, kr: int, kw: int, rs: nat, ws: nat) {
    && HeldBy(s, Reader, kr) && HeldBy(s, Writer, kw)
    && Core(s.m, Holder(s, Reader, kr), Holder(s, Writer, kw), rs, ws)
  }

  ghost predicate Good(s: State) {
    Exclusive(s) && CallsOk(s) && exists kr, kw, rs: nat, ws: nat :: GoodAt(s, kr, kw, rs, ws)
  }

  lemma InFlightIsHolder(s: State, kr: int)
    requires HeldBy(s, Reader, kr)
    ensures InFlight(s) <==> IsInFlight(Holder(s, Reader, kr))
  {
  }

  lemma CallsOkPreserved(s: State, ev: Event)
    requires CallsOk(s)
    requires ev.t < |s.threads| && ev.Step? && s.threads[ev.t].pc.Copy? ==> s.threads[ev.t].done < s.threads[ev.t].todo
    ensures CallsOk(Next(s, ev))
  {
  }

  /** A step outside the critical sections touches locks only, and may enter one of an open lock. */
  lemma OutsideStep(s: State, ev: Event)
    requires ev.t < |s.threads| && !InCritical(s.threads[ev.t].pc)
    ensures var s', th' := Next(s, ev), Next(s, ev).threads[ev.t];
      && s' == State(s.m.(lockRead := s'.m.lockRead, lockWrite := s'.m.lockWrite), s.threads[ev.t := th'])
      && th'.role == s.threads[ev.t].role
      && (InCritical(th'.pc) ==> th'.pc.Equal1? && !LockWord(s.m, th'.role))
  {
  }

  /** Who is inside after a step outside. */
  function HolderAfter(s: State, ev: Event, role: Role, k: int): int
    requires ev.t < |s.threads|
  {
    var th := Next(s, ev).threads[ev.t];
    if th.role == role && InCritical(th.pc) then ev.t else k
  }

  lemma OutsideHeld(s: State, ev: Event, role: Role, k: int)
    requires Exclusive(s) && HeldBy(s, role, k) && ev.t < |s.threads| && !InCritical(s.threads[ev.t].pc)
    ensures HeldBy(Next(s, ev), role, HolderAfter(s, ev, role, k))
    ensures var th' := Holder(Next(s, ev), role, HolderAfter(s, ev, role, k));
      th' == Holder(s, role, k) || (th'.role == role && th'.pc.Equal1? && !InCritical(Holder(s, role, k).pc))
    ensures role.Writer? && CallsOk(Next(s, ev)) ==>
      var th' := Holder(Next(s, ev), role, HolderAfter(s, ev, role, k)); |th'.data| == th'.todo && th'.done <= th'.todo
  {
    OutsideStep(s, ev);
  }

  /** Locks and the thread that enters do not matter to the bytes. */
  lemma EnteringKeepsCore(m: Shared, m': Shared, r: Thread, r': Thread, w: Thread, w': Thread, rs: nat, ws: nat)
    requires Core(m, r, w, rs, ws) && m' == m.(lockRead := m'.lockRead, lockWrite := m'.lockWrite)
    requires r' == r || (r'.role.Reader? && r'.pc.Equal1? && !InCritical(r.pc))
    requires w' == w || (w'.role.Writer? && w'.pc.Equal1? && !InCritical(w.pc))
    requires |w'.data| == w'.todo && w'.done <= w'.todo
    ensures Core(m', r', w', rs, ws)
  {
  }

  /** Steps outside the critical sections. */
  lemma OutsideKeepsGood(s: State, ev: Event, kr: int, kw: int, rs: nat, ws: nat)
    requires Exclusive(s) && CallsOk(s) && GoodAt(s, kr, kw, rs, ws)
    requires ev.t < |s.threads| && !InCritical(s.threads[ev.t].pc)
    ensures exists kr', kw' :: GoodAt(Next(s, ev), kr', kw', rs, ws)
  {
    CallsOkPreserved(s, ev);
    hide Core, HeldBy, Holder, Exclusive, CallsOk, Next;
    var s', kr', kw' := Next(s, ev), HolderAfter(s, ev, Reader, kr), HolderAfter(s, ev, Writer, kw);
    OutsideStep(s, ev);
    OutsideHeld(s, ev, Reader, kr);
    OutsideHeld(s, ev, Writer, kw);
    EnteringKeepsCore(s.m, s'.m, Holder(s, Reader, kr), Holder(s', Reader, kr'), Holder(s, Writer, kw),
      Holder(s', Writer, kw'), rs, ws);
    assert GoodAt(s', kr', kw', rs, ws);
  }

  /** Steps inside a critical section. */
  lemma ReaderInsideKeepsGood(s: State, kr: nat, kw: int, rs: nat, ws: nat)
    requires Exclusive(s) && GoodAt(s, kr, kw, rs, ws) && !BadStep(s, Step(kr))
    ensures exists kr', rs': nat :: GoodAt(Next(s, Step(kr)), kr', kw, rs', ws)
  {
    var s' := Next(s, Step(kr));
    var r, w := s.threads[kr], Holder(s, Writer, kw);
    var rs' := if r.pc.Wrap? then rs + s.m.size else rs;
    ReaderKeepsCore(s.m, r, w, rs, ws);
    LeavingReader(s'.m, s'.threads[kr], w, rs', ws);
    if InCritical(s'.threads[kr].pc) {
      assert GoodAt(s', kr, kw, rs', ws);
    } else {
      assert GoodAt(s', -1, kw, rs', ws);
    }
  }

  lemma WriterInsideKeepsGood(s: State, kr: int, kw: nat, rs: nat, ws: nat)
    requires Exclusive(s) && GoodAt(s, kr, kw, rs, ws) && !BadStep(s, Step(kw))
    ensures exists kw', ws': nat :: GoodAt(Next(s, Step(kw)), kr, kw', rs, ws')
  {
    InFlightIsHolder(s, kr);
    var s' := Next(s, Step(kw));
    var r, w := Holder(s, Reader, kr), s.threads[kw];
    var ws' := if w.pc.Wrap? then ws + s.m.size else ws;
    WriterKeepsCore(s.m, r, w, rs, ws);
    LeavingWriter(s'.m, r, s'.threads[kw], rs, ws');
    if InCritical(s'.threads[kw].pc) {
      assert GoodAt(s', kr, kw, rs, ws');
    } else {
      assert GoodAt(s', kr, -1, rs, ws');
    }
  }

  lemma LeavingReader(m: Shared, r: Thread, w: Thread, rs: nat, ws: nat)
    requires Core(m, r, w, rs, ws)
    ensures !InCritical(r.pc) ==> Core(m, Thread(Reader, Idle, 0, 0, 0, [], 0), w, rs, ws)
  {
  }

  lemma LeavingWriter(m: Shared, r: Thread, w: Thread, rs: nat, ws: nat)
    requires Core(m, r, w, rs, ws)
    ensures !InCritical(w.pc) ==> Core(m, r, Thread(Writer, Idle, 0, 0, 0, [], 0), rs, ws)
  {
  }

  lemma GoodPreserved(s: State, ev: Event)
    requires Good(s) && !BadStep(s, ev)
    ensures Good(Next(s, ev))
  {
    if ev.t < |s.threads| {
      var kr, kw, rs: nat, ws: nat :| GoodAt(s, kr, kw, rs, ws);
      if InCritical(s.threads[ev.t].pc) && ev.Step? {
        ExclusivePreserved(s, ev);
        CallsOkPreserved(s, ev);
        if s.threads[ev.t].role.Reader? {
          ReaderInsideKeepsGood(s, ev.t, kw, rs, ws);
        } else {
          WriterInsideKeepsGood(s, kr, ev.t, rs, ws);
        }
      } else if !InCritical(s.threads[ev.t].pc) {
        ExclusivePreserved(s, ev);
        CallsOkPreserved(s, ev);
        OutsideKeepsGood(s, ev, kr, kw, rs, ws);
      }
    }
  }

  lemma GoodIsConserved(s: State)
    requires Good(s)
    ensures Conserved(s)
  {
    var kr, kw, rs: nat, ws: nat :| GoodAt(s, kr, kw, rs, ws);
    InFlightIsHolder(s, kr);
    if s.m.writePtr < s.m.size {
      MemoryIsConserved(s.m, InFlight(s), rs, ws);
    }
  }

  lemma MemoryIsConserved(m: Shared, inFlight: bool, rs: nat, ws: nat)
    requires MemoryOk(m, inFlight, rs, ws) && m.writePtr < m.size
    ensures var r := NextIndex(m, inFlight);
      r <= m.size && m.written == m.collected + Ring(m.buffer, r, m.writePtr)
  {
    var r, c := NextIndex(m, inFlight), |m.collected|;
    var ring := Ring(m.buffer, r, m.writePtr);
    assert |ring| == |m.written| - c;
    forall i | c <= i < |m.written| ensures m.written[i] == ring[i - c] {
    }
    assert m.written == m.collected + ring;
  }

  /** A bad step is noticed at once. */
  lemma BadStepBreaks(s: State, ev: Event)
    requires Good(s) && BadStep(s, ev)
    ensures !Conserved(Next(s, ev))
  {
    var kr, kw, rs: nat, ws: nat :| GoodAt(s, kr, kw, rs, ws);
    InFlightIsHolder(s, kr);
    var th, s' := s.threads[ev.t], Next(s, ev);
    if StaleCopy(s.m, th) {
      assert |s'.m.collected| > |s'.m.written|;
    } else {
      assert ev.t == kw;
      assert InFlight(s') == InFlight(s) by {
        assert HeldBy(s', Reader, kr);
        InFlightIsHolder(s', kr);
      }
      assert s'.m.writePtr == NextIndex(s'.m, InFlight(s'));
      assert |s'.m.collected| < |s'.m.written|;
    }
  }

  lemma InitIsGood(size: nat, buffer: seq<Byte>, roles: seq<Role>)
    requires 0 < size == |buffer| < SIZE_T
    ensures Good(Init(size, buffer, roles))
  {
    assert GoodAt(Init(size, buffer, roles), -1, -1, 0, 0);
  }

  /** No step of the run is bad. */
  ghost predicate NoBadStep(s: State, evs: seq<Event>) {
    forall k | 0 <= k < |evs| :: !BadStep(Run(s, evs[..k]), evs[k])
  }

  /** Every state of the run is conserved. */
  ghost predicate AlwaysConserved(s: State, evs: seq<Event>) {
    forall k | 0 <= k <= |evs| :: Conserved(Run(s, evs[..k]))
  }

  lemma RunExtends(s: State, evs: seq<Event>, k: nat)
    requires k < |evs|
    ensures Run(s, evs[..k + 1]) == Next(Run(s, evs[..k]), evs[k])
  {
    assert evs[..k + 1][..k] == evs[..k];
  }

  lemma {:induction false} GoodRun(s: State, evs: seq<Event>, k: nat)
    requires Good(s) && k <= |evs|
    requires forall j | 0 <= j < k :: !BadStep(Run(s, evs[..j]), evs[j])
    ensures Good(Run(s, evs[..k]))
  {
    if k > 0 {
      GoodRun(s, evs, k - 1);
      RunExtends(s, evs, k - 1);
      GoodPreserved(Run(s, evs[..k - 1]), evs[k - 1]);
    }
  }

  lemma {:induction false} FirstBadStep(s: State, evs: seq<Event>, k: nat) returns (j: nat)
    requires k < |evs| && BadStep(Run(s, evs[..k]), evs[k])
    ensures j <= k && BadStep(Run(s, evs[..j]), evs[j])
    ensures forall i | 0 <= i < j :: !BadStep(Run(s, evs[..i]), evs[i])
  {
    if i :| 0 <= i < k && BadStep(Run(s, evs[..i]), evs[i]) {
      j := FirstBadStep(s, evs, i);
    } else {
      j := k;
    }
  }

  /**
   The exact condition: bytes are conserved in every state of a run if and only if no reader
   copies from an empty ring and no writer's store laps the reader.
   */
  lemma ConservedIffNoBadStep(size: nat, buffer: seq<Byte>, roles: seq<Role>, evs: seq<Event>)
    requires 0 < size == |buffer| < SIZE_T
    ensures var s := Init(size, buffer, roles); AlwaysConserved(s, evs) <==> NoBadStep(s, evs)
  {
    var s := Init(size, buffer, roles);
    InitIsGood(size, buffer, roles);
    if NoBadStep(s, evs) {
      forall k | 0 <= k <= |evs| ensures Conserved(Run(s, evs[..k])) {
        GoodRun(s, evs, k);
        GoodIsConserved(Run(s, evs[..k]));
      }
    } else {
      var k :| 0 <= k < |evs| && BadStep(Run(s, evs[..k]), evs[k]);
      var j := FirstBadStep(s, evs, k);
      GoodRun(s, evs, j);
      BadStepBreaks(Run(s, evs[..j]), evs[j]);
      RunExtends(s, evs, j);
      assert !Conserved(Run(s, evs[..j + 1]));
    }
  }
}

/**
 Where bad steps of the pipe come from.  `pipe_unread` and `pipe_available` load the other
 side's index several times while it moves, and may see it equal to `size`.  All their
 answers are nevertheless usable, except two: the ones defined here as racy.
 */
module PipeChecks {
  import opened Bytes
  import opened Pipe
  import opened PipeConservation

  /** `pipe_unread` with `read_ptr` 0 sees `write_ptr` between its increment and its wrap. */
  predicate StaleCheck(m: Shared, th: Thread) {
    th.role.Reader? && th.pc.Behind2? && th.done < th.todo && th.own == 0 && m.writePtr == m.size
  }

  /** `pipe_available` has chosen the branch `read_ptr > write_ptr`, but `read_ptr` has wrapped to 0 since. */
  predicate TornCheck(m: Shared, th: Thread) {
    th.role.Writer? && th.pc.Ahead2? && th.done < th.todo && th.own + 1 == m.size && m.readPtr == 0
  }

  predicate RacyCheck(s: State, ev: Event) {
    && ev.Step? && ev.t < |s.threads|
    && (StaleCheck(s.m, s.threads[ev.t]) || TornCheck(s.m, s.threads[ev.t]))
  }

  /** At least one more byte fits, counting up to the stored read index. */
  ghost predicate HasRoom(m: Shared, rs: nat) {
    |m.written| + 2 <= rs + m.readPtr + m.size
  }

  ghost predicate ReaderKnows(m: Shared, r: Thread) {
    r.pc.Ahead1? || r.pc.Ahead2? || r.pc.Slot? || r.pc.Copy? ==> |m.collected| < |m.written|
  }

  ghost predicate WriterKnows(m: Shared, w: Thread, rs: nat, ws: nat) {
    && (w.pc.Slot? || w.pc.Copy? || w.pc.Inc1? || w.pc.Inc2? ==> HasRoom(m, rs))
    && (w.pc.Behind1? || w.pc.Behind2? ==> rs == ws)
  }

  ghost predicate Informed(m: Shared, r: Thread, w: Thread, rs: nat, ws: nat) {
    && Core(m, r, w, rs, ws)
    && |m.written| < rs + m.readPtr + m.size
    && ReaderKnows(m, r) && WriterKnows(m, w, rs, ws)
  }

  lemma InformedStepsAreGood(m: Shared, r: Thread, w: Thread, rs: nat, ws: nat)
    requires Informed(m, r, w, rs, ws)
    ensures !StaleCopy(m, r) && !LappingStore(m, IsInFlight(r), w)
  {
  }

  /** What `pipe_unread` learns: a positive answer means there is a byte, unless the check is racy. */
  lemma UnreadIsSound(m: Shared, r: Thread, w: Thread, rs: nat, ws: nat)
    requires Informed(m, r, w, rs, ws) && !StaleCheck(m, r)
    ensures ReaderKnows(m, ThreadStep(m, r)) || !IsControl(r.pc)
  {
  }

  /** What `pipe_available` learns: a positive answer means there is room, unless the check is racy. */
  lemma AvailableIsSound(m: Shared, r: Thread, w: Thread, rs: nat, ws: nat)
    requires Informed(m, r, w, rs, ws) && !TornCheck(m, w)
    ensures WriterKnows(m, ThreadStep(m, w), rs, ws) || !IsControl(w.pc)
  {
  }

  lemma ReaderKeepsInformed(m: Shared, r: Thread, w: Thread, rs: nat, ws: nat)
    requires Informed(m, r, w, rs, ws) && InCritical(r.pc) && !StaleCheck(m, r)
    ensures Informed(SharedStep(m, r), ThreadStep(m, r), w, if r.pc.Wrap? then rs + m.size else rs, ws)
  {
    InformedStepsAreGood(m, r, w, rs, ws);
    ReaderKeepsCore(m, r, w, rs, ws);
    UnreadIsSound(m, r, w, rs, ws);
  }

  lemma WriterKeepsInformed(m: Shared, r: Thread, w: Thread, rs: nat, ws: nat)
    requires Informed(m, r, w, rs, ws) && InCritical(w.pc) && !TornCheck(m, w)
    ensures Informed(SharedStep(m, w), r, ThreadStep(m, w), rs, if w.pc.Wrap? then ws + m.size else ws)
  {
    InformedStepsAreGood(m, r, w, rs, ws);
    WriterKeepsCore(m, r, w, rs, ws);
    AvailableIsSound(m, r, w, rs, ws);
  }

  ghost predicate InformedAt(s: State, kr: int, kw: int, rs: nat, ws: nat) {
    && HeldBy(s, Reader, kr) && HeldBy(s, Writer, kw)
    && Informed(s.m, Holder(s, Reader, kr), Holder(s, Writer, kw), rs, ws)
  }

  ghost predicate InformedState(s: State) {
    Exclusive(s) && CallsOk(s) && exists kr, kw, rs: nat, ws: nat :: InformedAt(s, kr, kw, rs, ws)
  }

  lemma OutsideKeepsInformed(s: State, ev: Event, kr: int, kw: int, rs: nat, ws: nat)
    requires Exclusive(s) && CallsOk(s) && InformedAt(s, kr, kw, rs, ws)
    requires ev.t < |s.threads| && !InCritical(s.threads[ev.t].pc)
    ensures exists kr', kw' :: InformedAt(Next(s, ev), kr', kw', rs, ws)
  {
    CallsOkPreserved(s, ev);
    hide Core, HeldBy, Holder, Exclusive, CallsOk, Next;
    var s', kr', kw' := Next(s, ev), HolderAfter(s, ev, Reader, kr), HolderAfter(s, ev, Writer, kw);
    OutsideStep(s, ev);
    OutsideHeld(s, ev, Reader, kr);
    OutsideHeld(s, ev, Writer, kw);
    EnteringKeepsCore(s.m, s'.m, Holder(s, Reader, kr), Holder(s', Reader, kr'), Holder(s, Writer, kw),
      Holder(s', Writer, kw'), rs, ws);
    assert InformedAt(s', kr', kw', rs, ws);
  }

  lemma ReaderStepInside(s: State, kr: nat, kw: int, rs: nat, ws: nat)
    requires Exclusive(s) && CallsOk(s) && InformedAt(s, kr, kw, rs, ws) && !RacyCheck(s, Step(kr))
    ensures exists kr', rs': nat :: InformedAt(Next(s, Step(kr)), kr', kw, rs', ws)
  {
    var s' := Next(s, Step(kr));
    var r, w := s.threads[kr], Holder(s, Writer, kw);
    var rs' := if r.pc.Wrap? then rs + s.m.size else rs;
    ReaderKeepsInformed(s.m, r, w, rs, ws);
    LeavingReader(s'.m, s'.threads[kr], w, rs', ws);
    if InCritical(s'.threads[kr].pc) {
      assert InformedAt(s', kr, kw, rs', ws);
    } else {
      assert InformedAt(s', -1, kw, rs', ws);
    }
  }

  lemma WriterStepInside(s: State, kr: int, kw: nat, rs: nat, ws: nat)
    requires Exclusive(s) && CallsOk(s) && InformedAt(s, kr, kw, rs, ws) && !RacyCheck(s, Step(kw))
    ensures exists kw', ws': nat :: InformedAt(Next(s, Step(kw)), kr, kw', rs, ws')
  {
    var s' := Next(s, Step(kw));
    var r, w := Holder(s, Reader, kr), s.threads[kw];
    var ws' := if w.pc.Wrap? then ws + s.m.size else ws;
    WriterKeepsInformed(s.m, r, w, rs, ws);
    LeavingWriter(s'.m, r, s'.threads[kw], rs, ws');
    if InCritical(s'.threads[kw].pc) {
      assert InformedAt(s', kr, kw, rs, ws');
    } else {
      assert InformedAt(s', kr, -1, rs, ws');
    }
  }

  /** Without a racy check, the invariant goes on and the step is not bad. */
  lemma InformedPreserved(s: State, ev: Event)
    requires InformedState(s) && !RacyCheck(s, ev)
    ensures InformedState(Next(s, ev)) && !BadStep(s, ev)
  {
    if ev.t < |s.threads| {
      var kr, kw, rs: nat, ws: nat :| InformedAt(s, kr, kw, rs, ws);
      InFlightIsHolder(s, kr);
      InformedStepsAreGood(s.m, Holder(s, Reader, kr), Holder(s, Writer, kw), rs, ws);
      if InCritical(s.threads[ev.t].pc) && ev.Step? {
        ExclusivePreserved(s, ev);
        CallsOkPreserved(s, ev);
        if s.threads[ev.t].role.Reader? {
          ReaderStepInside(s, ev.t, kw, rs, ws);
        } else {
          WriterStepInside(s, kr, ev.t, rs, ws);
        }
      } else if !InCritical(s.threads[ev.t].pc) {
        ExclusivePreserved(s, ev);
        CallsOkPreserved(s, ev);
        OutsideKeepsInformed(s, ev, kr, kw, rs, ws);
      }
    }
  }

  lemma {:induction false} InformedRun(s: State, evs: seq<Event>, k: nat)
    requires InformedState(s) && k <= |evs|
    requires forall j | 0 <= j < |evs| :: !RacyCheck(Run(s, evs[..j]), evs[j])
    ensures InformedState(Run(s, evs[..k]))
  {
    if k > 0 {
      InformedRun(s, evs, k - 1);
      RunExtends(s, evs, k - 1);
      InformedPreserved(Run(s, evs[..k - 1]), evs[k - 1]);
    }
  }

  /** A run conserves every byte when none of its checks is racy. */
  lemma ConservedWithoutRacyChecks(size: nat, buffer: seq<Byte>, roles: seq<Role>, evs: seq<Event>)
    requires 0 < size == |buffer| < SIZE_T
    requires var s := Init(size, buffer, roles);
      forall j | 0 <= j < |evs| :: !RacyCheck(Run(s, evs[..j]), evs[j])
    ensures AlwaysConserved(Init(size, buffer, roles), evs)
  {
    var s := Init(size, buffer, roles);
    assert InformedAt(s, -1, -1, 0, 0);
    forall k | 0 <= k < |evs| ensures !BadStep(Run(s, evs[..k]), evs[k]) {
      InformedRun(s, evs, k);
      InformedPreserved(Run(s, evs[..k]), evs[k]);
    }
    ConservedIffNoBadStep(size, buffer, roles, evs);
  }
}

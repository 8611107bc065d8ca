/**
 What calls of `read_pipe` and `write_pipe` have done when they return, and which bytes a writer
 publishes (src/modules/fs/pipe.cpp:64-115), over every run.
 */
module PipeCalls {
  import opened Bytes
  import opened Pipe
  import opened PipeConservation
  import opened PipeSafety

  /** The event is a call that an idle thread takes up. */
  predicate TakesCall(s: State, ev: Event) {
    ev.Call? && ev.t < |s.threads| && s.threads[ev.t].pc.Idle?
  }

  /** The call that thread `t` is in, or has come back from. */
  function CallOf(s: State, evs: seq<Event>, t: nat): Option<Event>
    decreases |evs|
  {
    if evs == [] then None
    else
      var before, ev := evs[..|evs| - 1], evs[|evs| - 1];
      if ev.t == t && TakesCall(Run(s, before), ev) then Some(ev) else CallOf(s, before, t)
  }

  /** What has come to a history since it had `n` bytes. */
  function Since(history: seq<Byte>, n: nat): seq<Byte> {
    if n <= |history| then history[n..] else []
  }

  /** The bytes that steps of `t` have published since its call. */
  function Published(s: State, evs: seq<Event>, t: nat): seq<Byte>
    decreases |evs|
  {
    if evs == [] then []
    else
      var before, ev := evs[..|evs| - 1], evs[|evs| - 1];
      if ev.t != t then Published(s, before, t)
      else if TakesCall(Run(s, before), ev) then []
      else Published(s, before, t) + Since(Run(s, evs).m.written, |Run(s, before).m.written|)
  }

  /** The bytes that steps of `t` have collected since its call. */
  function Received(s: State, evs: seq<Event>, t: nat): seq<Byte>
    decreases |evs|
  {
    if evs == [] then []
    else
      var before, ev := evs[..|evs| - 1], evs[|evs| - 1];
      if ev.t != t then Received(s, before, t)
      else if TakesCall(Run(s, before), ev) then []
      else Received(s, before, t) + Since(Run(s, evs).m.collected, |Run(s, before).m.collected|)
  }

  /** How many bytes a writer has published: not the one whose index is not stored yet. */
  function Out(th: Thread): int {
    if th.pc.Inc1? || th.pc.Inc2? then th.done - 1 else th.done
  }

  /** Where a thread is in its call. */
  predicate InCall(th: Thread, n: nat, data: seq<Byte>, published: seq<Byte>, received: seq<Byte>) {
    && th.data == data && th.todo == (if th.role.Reader? then n else |data|)
    && 0 <= Out(th) && th.done <= th.todo
    && (th.pc.Slot? || th.pc.Copy? ==> th.done < th.todo)
    && (th.pc.Idle? ==> if th.role.Reader? then 0 < th.done else th.done == th.todo)
    && (th.role.Writer? ==> published == data[..Out(th)] && received == [])
    && (th.role.Reader? ==> |received| == th.done && published == [])
  }

  /** A call begins. */
  lemma CallStarts(th: Thread, n: nat, data: seq<Byte>)
    requires th.pc.Idle?
    ensures InCall(StartCall(th, n, data), n, data, [], []) && StartCall(th, n, data).role == th.role
  {
  }

  /** A step of a thread inside a call. */
  lemma StepInCall(m: Shared, th: Thread, n: nat, data: seq<Byte>, published: seq<Byte>, received: seq<Byte>)
    requires InCall(th, n, data, published, received)
    ensures InCall(ThreadStep(m, th), n, data, published + Since(SharedStep(m, th).written, |m.written|),
                   received + Since(SharedStep(m, th).collected, |m.collected|))
  {
    hide SharedStep, ThreadStep;
    Histories(m, th);
    Counts(m, th);
    if th.role.Writer? && th.pc.Inc2? {
      assert data[..th.done] == data[..th.done - 1] + [data[th.done - 1]];
    }
  }

  /** Only the store of a writer's index publishes a byte, and only the load of a reader collects one. */
  lemma Histories(m: Shared, th: Thread)
    ensures Since(SharedStep(m, th).written, |m.written|) ==
      if th.role.Writer? && th.pc.Inc2? && 0 < th.done <= |th.data| then [th.data[th.done - 1]] else []
    ensures |Since(SharedStep(m, th).collected, |m.collected|)| == if th.role.Reader? && th.pc.Copy? then 1 else 0
    ensures SharedStep(m, th).written == m.written + Since(SharedStep(m, th).written, |m.written|)
  {
  }

  /** How a step counts. */
  lemma Counts(m: Shared, th: Thread)
    ensures var th' := ThreadStep(m, th);
      && th' == th.(pc := th'.pc, own := th'.own, other := th'.other, done := th'.done)
      && th'.done == th.done + (if th.pc.Copy? then 1 else 0)
      && Out(th') == Out(th) + (if th.pc.Inc2? then 1 else 0)
      && (th'.pc.Slot? ==> th.done < th.todo) && (th'.pc.Copy? ==> th.pc.Slot?)
      && (th'.pc.Idle? && !th.pc.Idle? ==> if th.role.Reader? then th.done != 0 else th.done >= th.todo)
  {
  }

  /** An idle thread that has not been called does nothing. */
  lemma IdleStep(m: Shared, th: Thread)
    requires th.pc.Idle?
    ensures ThreadStep(m, th) == th && SharedStep(m, th) == m && Since(m.written, |m.written|) == []
    ensures Since(m.collected, |m.collected|) == []
  {
  }

  /** What holds of a thread in a run. */
  predicate ThreadOk(s: State, evs: seq<Event>, t: nat) {
    && t < |Run(s, evs).threads|
    && var th := Run(s, evs).threads[t];
       match CallOf(s, evs, t)
       case None => th.pc.Idle? && Published(s, evs, t) == Received(s, evs, t) == []
       case Some(ev) => ev.Call? && InCall(th, ev.n, ev.data, Published(s, evs, t), Received(s, evs, t))
  }

  lemma OneMoreEvent(s: State, evs: seq<Event>, t: nat)
    requires evs != [] && ThreadOk(s, evs[..|evs| - 1], t)
    ensures ThreadOk(s, evs, t) && t < |Run(s, evs).threads|
    ensures Run(s, evs).threads[t].role == Run(s, evs[..|evs| - 1]).threads[t].role
  {
    hide InCall, SharedStep, ThreadStep, StartCall, Since;
    var before, ev := evs[..|evs| - 1], evs[|evs| - 1];
    var s0 := Run(s, before);
    var th := s0.threads[t];
    OneEvent(s0, ev, t);
    if ev.t == t {
      if TakesCall(s0, ev) {
        CallStarts(th, ev.n, ev.data);
      } else if ev.Step? {
        match CallOf(s, before, t)
        case None => IdleStep(s0.m, th);
        case Some(c) => StepInCall(s0.m, th, c.n, c.data, Published(s, before, t), Received(s, before, t));
      } else {
        assert Published(s, before, t) + [] == Published(s, before, t);
        assert Received(s, before, t) + [] == Received(s, before, t);
      }
    }
  }

  /** What an event makes of thread `t`. */
  lemma OneEvent(s: State, ev: Event, t: nat)
    requires t < |s.threads|
    ensures |Next(s, ev).threads| == |s.threads| && Next(s, ev).threads[t].role == s.threads[t].role
    ensures ev.t != t ==> Next(s, ev).threads[t] == s.threads[t]
    ensures ev.t == t && TakesCall(s, ev) ==> Next(s, ev).threads[t] == StartCall(s.threads[t], ev.n, ev.data)
    ensures ev.t == t && ev.Call? && !TakesCall(s, ev) ==>
      Next(s, ev) == s && Since(s.m.written, |s.m.written|) == Since(s.m.collected, |s.m.collected|) == []
    ensures ev.t == t && ev.Step? ==>
      Next(s, ev).threads[t] == ThreadStep(s.m, s.threads[t]) && Next(s, ev).m == SharedStep(s.m, s.threads[t])
  {
    if ev.t == t && ev.Step? {
      Counts(s.m, s.threads[t]);
    }
  }

  lemma {:induction false} ThreadsOk(size: nat, buffer: seq<Byte>, roles: seq<Role>, evs: seq<Event>, t: nat)
    requires t < |roles|
    ensures ThreadOk(Init(size, buffer, roles), evs, t)
    ensures |Run(Init(size, buffer, roles), evs).threads| == |roles|
    ensures Run(Init(size, buffer, roles), evs).threads[t].role == roles[t]
  {
    if evs != [] {
      ThreadsOk(size, buffer, roles, evs[..|evs| - 1], t);
      OneMoreEvent(Init(size, buffer, roles), evs, t);
    }
  }

  /**
   What a call has done when it has returned, in every run of any threads: a writer has published
   exactly the bytes it was given, in their order, and a reader has collected at least one byte and
   at most as many as it asked for.
   */
  lemma CallsReturn(size: nat, buffer: seq<Byte>, roles: seq<Role>, evs: seq<Event>, t: nat)
    requires t < |roles|
    ensures var s0 := Init(size, buffer, roles);
      && t < |Run(s0, evs).threads|
      && var th, call := Run(s0, evs).threads[t], CallOf(s0, evs, t);
        call.Some? && th.pc.Idle? ==>
          && call.value.Call?
          && (roles[t].Writer? ==> th.done == |call.value.data| && Published(s0, evs, t) == call.value.data)
          && (roles[t].Reader? ==> 0 < th.done <= call.value.n && |Received(s0, evs, t)| == th.done)
  {
    ThreadsOk(size, buffer, roles, evs, t);
  }

  /** At every moment of a call, the bytes published are the first ones it was given. */
  lemma PublishedInOrder(size: nat, buffer: seq<Byte>, roles: seq<Role>, evs: seq<Event>, t: nat)
    requires t < |roles| && roles[t].Writer? && CallOf(Init(size, buffer, roles), evs, t).Some?
    ensures var s0 := Init(size, buffer, roles); var call := CallOf(s0, evs, t).value;
      call.Call? && Published(s0, evs, t) <= call.data
  {
    ThreadsOk(size, buffer, roles, evs, t);
  }

  // ---------- Calls that do not overlap ----------

  /** The data of all calls that writers have taken up, one after the other. */
  function AllGiven(s: State, evs: seq<Event>): seq<Byte>
    decreases |evs|
  {
    if evs == [] then []
    else
      var before, ev := evs[..|evs| - 1], evs[|evs| - 1];
      AllGiven(s, before) + if TakesCall(Run(s, before), ev) && Run(s, before).threads[ev.t].role.Writer? then ev.data
        else []
  }

  /** What a call has still to publish. */
  function Rest(th: Thread): seq<Byte> {
    if th.role.Writer? && !th.pc.Idle? && 0 <= Out(th) <= |th.data| then th.data[Out(th)..] else []
  }

  /** What has been written and what the one call in progress has left are what was given. */
  predicate Accounted(s: State, given: seq<Byte>) {
    && (forall i | 0 <= i < |s.threads| && !s.threads[i].pc.Idle? :: s.m.written + Rest(s.threads[i]) == given)
    && ((forall i | 0 <= i < |s.threads| :: s.threads[i].pc.Idle?) ==> s.m.written == given)
  }

  predicate DoneRight(th: Thread) {
    && 0 <= Out(th) && th.done <= th.todo && (th.role.Writer? ==> th.todo == |th.data|)
    && (th.pc.Slot? || th.pc.Copy? ==> th.done < th.todo)
  }

  lemma RestStep(m: Shared, th: Thread)
    requires DoneRight(th) && !th.pc.Idle?
    ensures SharedStep(m, th).written + Rest(ThreadStep(m, th)) == m.written + Rest(th)
  {
    hide SharedStep, ThreadStep, Since;
    Histories(m, th);
    Counts(m, th);
    if th.role.Writer? && th.pc.Inc2? {
      assert th.data[th.done - 1..] == [th.data[th.done - 1]] + th.data[th.done..];
    }
    var more, rest := Since(SharedStep(m, th).written, |m.written|), Rest(ThreadStep(m, th));
    assert (m.written + more) + rest == m.written + (more + rest);
  }

  lemma AccountedStep(s: State, ev: Event, given: seq<Byte>)
    requires OneAtATime(s) && OneAtATime(Next(s, ev)) && Accounted(s, given)
    requires forall i | 0 <= i < |s.threads| && !s.threads[i].pc.Idle? :: DoneRight(s.threads[i])
    ensures Accounted(Next(s, ev), given +
      if TakesCall(s, ev) && s.threads[ev.t].role.Writer? then ev.data else [])
  {
    var s' := Next(s, ev);
    if ev.t >= |s.threads| {
      assert given + [] == given;
    } else if s.threads[ev.t].pc.Idle? {
      FromIdle(s, ev, given);
    } else {
      assert given + [] == given;
      FromBusy(s, ev, given);
    }
  }

  /** A step inside the one call in progress, and calls that nobody takes up. */
  lemma FromBusy(s: State, ev: Event, given: seq<Byte>)
    requires OneAtATime(s) && Accounted(s, given)
    requires ev.t < |s.threads| && !s.threads[ev.t].pc.Idle? && DoneRight(s.threads[ev.t])
    ensures Accounted(Next(s, ev), given)
  {
    hide SharedStep, ThreadStep, Rest, DoneRight;
    var th, s' := s.threads[ev.t], Next(s, ev);
    assert forall i | 0 <= i < |s.threads| && i != ev.t :: s.threads[i].pc.Idle? && s'.threads[i].pc.Idle?;
    RestStep(s.m, th);
    assert s'.m.written + Rest(s'.threads[ev.t]) == given;
    if s'.threads[ev.t].pc.Idle? {
      NoRest(s'.m, s'.threads[ev.t]);
    }
  }

  lemma NoRest(m: Shared, th: Thread)
    requires th.pc.Idle?
    ensures m.written + Rest(th) == m.written
  {
  }

  /** An event of an idle thread: at most a call. */
  lemma FromIdle(s: State, ev: Event, given: seq<Byte>)
    requires OneAtATime(s) && OneAtATime(Next(s, ev)) && Accounted(s, given)
    requires ev.t < |s.threads| && s.threads[ev.t].pc.Idle?
    ensures Accounted(Next(s, ev), given +
      if TakesCall(s, ev) && s.threads[ev.t].role.Writer? then ev.data else [])
  {
    var s', th' := Next(s, ev), Next(s, ev).threads[ev.t];
    assert given + [] == given;
    assert s'.m == s.m && forall i | 0 <= i < |s.threads| && i != ev.t :: s'.threads[i] == s.threads[i];
    if th'.pc.Idle? {
      assert TakesCall(s, ev) ==> th'.role.Writer? && ev.data == [];
      assert forall i | 0 <= i < |s.threads| :: s'.threads[i].pc.Idle? <==> s.threads[i].pc.Idle?;
    } else {
      assert forall i | 0 <= i < |s.threads| && i != ev.t :: s'.threads[i].pc.Idle?;
      assert s.m.written == given;
      assert Rest(th') == if th'.role.Writer? then ev.data else [];
    }
  }

  lemma {:induction false} SerialAccounted(size: nat, buffer: seq<Byte>, roles: seq<Role>, evs: seq<Event>)
    requires Serial(Init(size, buffer, roles), evs)
    ensures Accounted(Run(Init(size, buffer, roles), evs), AllGiven(Init(size, buffer, roles), evs))
  {
    var s0 := Init(size, buffer, roles);
    if evs != [] {
      var before := evs[..|evs| - 1];
      SerialBefore(s0, evs);
      SerialAccounted(size, buffer, roles, before);
      var s := Run(s0, before);
      forall i | 0 <= i < |s.threads| && !s.threads[i].pc.Idle? ensures DoneRight(s.threads[i]) {
        SameThreads(size, buffer, roles, before);
        ThreadsOk(size, buffer, roles, before, i);
      }
      AccountedStep(s, evs[|evs| - 1], AllGiven(s0, before));
    }
  }

  lemma {:induction false} SameThreads(size: nat, buffer: seq<Byte>, roles: seq<Role>, evs: seq<Event>)
    ensures |Run(Init(size, buffer, roles), evs).threads| == |roles|
  {
    if evs != [] {
      SameThreads(size, buffer, roles, evs[..|evs| - 1]);
    }
  }

  lemma SerialBefore(s: State, evs: seq<Event>)
    requires Serial(s, evs) && evs != []
    ensures Serial(s, evs[..|evs| - 1]) && OneAtATime(Run(s, evs[..|evs| - 1])) && OneAtATime(Run(s, evs))
  {
    var before := evs[..|evs| - 1];
    forall k | 0 <= k <= |before| ensures OneAtATime(Run(s, before[..k])) {
      assert before[..k] == evs[..k];
    }
    assert evs[..|evs|] == evs;
  }

  /**
   When all calls of a run in which they do not overlap have returned, the bytes written are the
   data of the calls one after the other, and those collected are the first ones of them.
   */
  lemma SerialWrites(size: nat, buffer: seq<Byte>, roles: seq<Role>, evs: seq<Event>)
    requires 0 < size == |buffer| < SIZE_T && Serial(Init(size, buffer, roles), evs)
    ensures var s0 := Init(size, buffer, roles); var s := Run(s0, evs);
      && s.m.written <= AllGiven(s0, evs) && s.m.collected <= AllGiven(s0, evs)
      && ((forall i | 0 <= i < |s.threads| :: s.threads[i].pc.Idle?) ==> s.m.written == AllGiven(s0, evs))
  {
    var s0 := Init(size, buffer, roles);
    SerialAccounted(size, buffer, roles, evs);
    SerialIsConserved(size, buffer, roles, evs);
    assert evs[..|evs|] == evs;
    assert Conserved(Run(s0, evs[..|evs|]));
  }

  // ---------- The checks, when nobody moves an index ----------

  /** With both indices at rest, the two checks are exact: the bytes in the ring, and the room but for one slot. */
  lemma ChecksAreExact(m: Shared, rs: nat, ws: nat)
    requires MemoryOk(m, false, rs, ws) && m.readPtr < m.size && m.writePtr < m.size
    ensures var bytes := |m.written| - |m.collected|;
      && (if m.readPtr == m.writePtr then 0
          else Result(m.size, Reader, m.readPtr > m.writePtr, m.readPtr, m.writePtr)) == bytes
      && (if m.readPtr == m.writePtr then Word(m.size - 1)
          else Result(m.size, Writer, m.readPtr > m.writePtr, m.writePtr, m.readPtr)) == m.size - 1 - bytes
  {
  }
}

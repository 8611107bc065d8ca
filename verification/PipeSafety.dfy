/**
 When the pipe is safe: with whom (which threads read and which write), and how (calls that do
 not overlap).
 */
module PipeSafety {
  import opened Bytes
  import opened Pipe
  import opened PipeConservation
  import opened PipeChecks
  import opened PipeRaces

  // ---------- Only readers, or only writers ----------

  /** Without readers, the read index stays 0, and no writer ever finds it ahead. */
  predicate NoReaders(s: State) {
    && s.m.readPtr == 0
    && forall i | 0 <= i < |s.threads| ::
      s.threads[i].role.Writer? && !s.threads[i].pc.Ahead1? && !s.threads[i].pc.Ahead2?
  }

  predicate NoWriters(s: State) {
    s.m.writePtr == 0 && forall i | 0 <= i < |s.threads| :: s.threads[i].role.Reader?
  }

  lemma NoReadersPreserved(s: State, ev: Event)
    requires NoReaders(s)
    ensures NoReaders(Next(s, ev))
  {
  }

  lemma {:induction false} OneSided(size: nat, buffer: seq<Byte>, roles: seq<Role>, evs: seq<Event>)
    ensures Reader !in roles ==> NoReaders(Run(Init(size, buffer, roles), evs))
    ensures Writer !in roles ==> NoWriters(Run(Init(size, buffer, roles), evs))
    ensures Run(Init(size, buffer, roles), evs).m.size == size
  {
    if evs == [] {
      assert forall i | 0 <= i < |roles| :: roles[i] in roles;
    } else {
      var s := Run(Init(size, buffer, roles), evs[..|evs| - 1]);
      OneSided(size, buffer, roles, evs[..|evs| - 1]);
      if Reader !in roles {
        NoReadersPreserved(s, evs[|evs| - 1]);
      }
    }
  }

  // ---------- A reader and a writer among other threads ----------

  /** `t` is `s` with more threads, which do nothing: threads `a` and `b` are the reader and the writer of `s`. */
  predicate Embedded(s: State, t: State, a: nat, b: nat) {
    && |s.threads| == 2 && a < |t.threads| && b < |t.threads| && a != b
    && t.m == s.m && t.threads[a] == s.threads[R] && t.threads[b] == s.threads[W]
    && forall i | 0 <= i < |t.threads| && i != a && i != b :: t.threads[i].pc.Idle?
  }

  /** The event of thread `R` or `W` becomes one of `a` or `b`; those of no thread stay without effect. */
  function Renamed(ev: Event, a: nat, b: nat, n: nat): Event {
    var t := if ev.t == R then a else if ev.t == W then b else n;
    match ev
    case Call(_, k, data) => Call(t, k, data)
    case Step(_) => Step(t)
  }

  function AllRenamed(evs: seq<Event>, a: nat, b: nat, n: nat): seq<Event> {
    seq(|evs|, i requires 0 <= i < |evs| => Renamed(evs[i], a, b, n))
  }

  lemma EmbeddedStep(s: State, t: State, a: nat, b: nat, ev: Event)
    requires Embedded(s, t, a, b)
    ensures Embedded(Next(s, ev), Next(t, Renamed(ev, a, b, |t.threads|)), a, b)
    ensures |Next(t, Renamed(ev, a, b, |t.threads|)).threads| == |t.threads|
  {
  }

  lemma {:induction false} EmbeddedRun(s: State, t: State, a: nat, b: nat, evs: seq<Event>)
    requires Embedded(s, t, a, b)
    ensures Embedded(Run(s, evs), Run(t, AllRenamed(evs, a, b, |t.threads|)), a, b)
    ensures |Run(t, AllRenamed(evs, a, b, |t.threads|)).threads| == |t.threads|
  {
    if evs != [] {
      var c, n := evs[..|evs| - 1], |t.threads|;
      EmbeddedRun(s, t, a, b, c);
      assert AllRenamed(evs, a, b, n)[..|evs| - 1] == AllRenamed(c, a, b, n);
      EmbeddedStep(Run(s, c), Run(t, AllRenamed(c, a, b, n)), a, b, evs[|evs| - 1]);
    }
  }

  lemma EmbeddedConserved(s: State, t: State, a: nat, b: nat)
    requires Embedded(s, t, a, b)
    ensures Conserved(s) <==> Conserved(t)
  {
    assert InFlight(s) <==> InFlight(t) by {
      if InFlight(s) {
        assert IsInFlight(s.threads[R]) || IsInFlight(s.threads[W]);
        assert IsInFlight(t.threads[a]) || IsInFlight(t.threads[b]);
      }
    }
  }

  /** Any two threads of the right roles can go wrong. */
  lemma StaleRunAmong(size: nat, buffer: seq<Byte>, roles: seq<Role>) returns (evs: seq<Event>)
    requires 1 < size == |buffer| < SIZE_T && Reader in roles && Writer in roles
    ensures !AlwaysConserved(Init(size, buffer, roles), evs)
  {
    var a :| 0 <= a < |roles| && roles[a] == Reader;
    var b :| 0 <= b < |roles| && roles[b] == Writer;
    var s, t := Init(size, buffer, ROLES), Init(size, buffer, roles);
    var few := StaleRun(size, buffer);
    EmbeddedRun(s, t, a, b, few);
    evs := AllRenamed(few, a, b, |t.threads|);
    EmbeddedConserved(Run(s, few), Run(t, evs), a, b);
    assert evs[..|evs|] == evs;
  }

  /**
   Which pipes conserve bytes in every run of these threads: those of size 1, which never carry
   a byte, and those that only readers or only writers use.
   */
  lemma SafeIffOneSided(size: nat, buffer: seq<Byte>, roles: seq<Role>)
    requires 0 < size == |buffer| < SIZE_T
    ensures (forall evs: seq<Event> :: AlwaysConserved(Init(size, buffer, roles), evs))
      <==> size == 1 || Reader !in roles || Writer !in roles
  {
    if size == 1 || Reader !in roles || Writer !in roles {
      forall evs: seq<Event> ensures AlwaysConserved(Init(size, buffer, roles), evs) {
        forall j | 0 <= j < |evs| ensures !RacyCheck(Run(Init(size, buffer, roles), evs[..j]), evs[j]) {
          OneSided(size, buffer, roles, evs[..j]);
          if size == 1 {
            StuckRun(buffer, roles, evs[..j]);
          }
        }
        ConservedWithoutRacyChecks(size, buffer, roles, evs);
      }
    } else {
      var evs := StaleRunAmong(size, buffer, roles);
    }
  }

  /** Whoever uses it, only a pipe of size 1 is safe. */
  lemma OnlySizeOneIsSafe(size: nat, buffer: seq<Byte>)
    requires 0 < size == |buffer| < SIZE_T
    ensures (forall roles: seq<Role>, evs: seq<Event> :: AlwaysConserved(Init(size, buffer, roles), evs)) <==> size == 1
  {
    SafeIffOneSided(size, buffer, ROLES);
    if size == 1 {
      forall roles: seq<Role>, evs: seq<Event> ensures AlwaysConserved(Init(size, buffer, roles), evs) {
        SafeIffOneSided(size, buffer, roles);
      }
    } else {
      assert ROLES[R] == Reader && ROLES[W] == Writer;
    }
  }

  // ---------- Calls that do not overlap ----------

  /** At most one thread is inside a call. */
  predicate OneAtATime(s: State) {
    forall i, j | 0 <= i < j < |s.threads| :: s.threads[i].pc.Idle? || s.threads[j].pc.Idle?
  }

  ghost predicate Serial(s: State, evs: seq<Event>) {
    forall k | 0 <= k <= |evs| :: OneAtATime(Run(s, evs[..k]))
  }

  /** A writer that has found the read index ahead is still right about it. */
  predicate Settled(s: State) {
    forall i | 0 <= i < |s.threads| && s.threads[i].role.Writer? &&
      (s.threads[i].pc.Ahead1? || s.threads[i].pc.Ahead2?) ::
      s.m.readPtr > s.m.writePtr
  }

  lemma OwnIsLoaded(s: State, i: nat)
    requires InformedState(s) && i < |s.threads| && InCritical(s.threads[i].pc)
    ensures HolderOk(s.m, s.threads[i])
  {
    var kr, kw, rs: nat, ws: nat :| InformedAt(s, kr, kw, rs, ws);
  }

  lemma SettledStep(m: Shared, w: Thread)
    requires w.role.Writer? && HolderOk(m, w) && (w.pc.Ahead1? ==> m.readPtr > m.writePtr)
    ensures ThreadStep(m, w).pc.Ahead1? || ThreadStep(m, w).pc.Ahead2? ==>
      SharedStep(m, w).readPtr > SharedStep(m, w).writePtr
  {
  }

  lemma SettledPreserved(s: State, ev: Event)
    requires InformedState(s) && OneAtATime(s) && OneAtATime(Next(s, ev)) && Settled(s)
    ensures Settled(Next(s, ev))
  {
    hide InformedState, HolderOk;
    var s' := Next(s, ev);
    forall i | 0 <= i < |s'.threads| && s'.threads[i].role.Writer? &&
      (s'.threads[i].pc.Ahead1? || s'.threads[i].pc.Ahead2?)
      ensures s'.m.readPtr > s'.m.writePtr
    {
      if i == ev.t {
        if ev.Step? && InCritical(s.threads[i].pc) {
          OwnIsLoaded(s, i);
          SettledStep(s.m, s.threads[i]);
        }
      } else if ev.t < |s.threads| {
        assert s.threads[ev.t].pc.Idle?;
      }
    }
  }

  lemma SettledIsNotRacy(s: State, ev: Event)
    requires InformedState(s) && OneAtATime(s) && Settled(s)
    ensures !RacyCheck(s, ev)
  {
    if RacyCheck(s, ev) {
      var kr, kw, rs: nat, ws: nat :| InformedAt(s, kr, kw, rs, ws);
      OwnIsLoaded(s, ev.t);
    }
  }

  lemma {:induction false} SerialRun(size: nat, buffer: seq<Byte>, roles: seq<Role>, evs: seq<Event>, k: nat)
    requires 0 < size == |buffer| < SIZE_T && k <= |evs| && Serial(Init(size, buffer, roles), evs)
    ensures var s := Run(Init(size, buffer, roles), evs[..k]); InformedState(s) && Settled(s)
  {
    var s0 := Init(size, buffer, roles);
    if k == 0 {
      assert InformedAt(s0, -1, -1, 0, 0);
    } else {
      SerialRun(size, buffer, roles, evs, k - 1);
      var s := Run(s0, evs[..k - 1]);
      assert OneAtATime(s);
      RunExtends(s0, evs, k - 1);
      assert OneAtATime(Run(s0, evs[..k]));
      SettledIsNotRacy(s, evs[k - 1]);
      InformedPreserved(s, evs[k - 1]);
      SettledPreserved(s, evs[k - 1]);
    }
  }

  /** Calls that do not overlap conserve every byte, whoever makes them. */
  lemma SerialIsConserved(size: nat, buffer: seq<Byte>, roles: seq<Role>, evs: seq<Event>)
    requires 0 < size == |buffer| < SIZE_T && Serial(Init(size, buffer, roles), evs)
    ensures AlwaysConserved(Init(size, buffer, roles), evs)
  {
    forall j | 0 <= j < |evs| ensures !RacyCheck(Run(Init(size, buffer, roles), evs[..j]), evs[j]) {
      SerialRun(size, buffer, roles, evs, j);
      assert OneAtATime(Run(Init(size, buffer, roles), evs[..j]));
      SettledIsNotRacy(Run(Init(size, buffer, roles), evs[..j]), evs[j]);
    }
    ConservedWithoutRacyChecks(size, buffer, roles, evs);
  }
}

/**
 The throttle of the scheduler (src/task/task.cpp:57-76 and 237-248): in PWM mode a task is
 admitted in the last part of each period of `ttl_fscale` decisions.
 */
module Throttle {
  /** The counter after one decision in PWM mode. */
  function NextTtl(ttl: int, start: int, fscale: int): int {
    if ttl < start then ttl + 1 else if ttl + 1 >= fscale then 0 else ttl + 1
  }

  /** The counter after `n` decisions. */
  function TtlAfter(ttl: int, start: int, fscale: int, n: nat): int
    decreases n
  {
    if n == 0 then ttl else TtlAfter(NextTtl(ttl, start, fscale), start, fscale, n - 1)
  }

  /** How many of the next `n` decisions admit the task. */
  function Admissions(ttl: int, start: int, fscale: int, n: nat): nat
    decreases n
  {
    if n == 0 then 0 else (if ttl < start then 0 else 1) + Admissions(NextTtl(ttl, start, fscale), start, fscale, n - 1)
  }

  lemma {:induction false} AdmissionsSplit(ttl: int, start: int, fscale: int, a: nat, b: nat)
    ensures Admissions(ttl, start, fscale, a + b) ==
      Admissions(ttl, start, fscale, a) + Admissions(TtlAfter(ttl, start, fscale, a), start, fscale, b)
    ensures TtlAfter(ttl, start, fscale, a + b) == TtlAfter(TtlAfter(ttl, start, fscale, a), start, fscale, b)
    decreases a
  {
    if a > 0 {
      AdmissionsSplit(NextTtl(ttl, start, fscale), start, fscale, a - 1, b);
    }
  }

  /** Up to the end of the period the counter counts, and admits from `start` on. */
  lemma {:induction false} WithinPeriod(ttl: int, start: int, fscale: int, n: nat)
    requires 0 <= ttl && 0 <= start < fscale && ttl + n <= fscale && ttl < fscale
    ensures TtlAfter(ttl, start, fscale, n) == if ttl + n == fscale then 0 else ttl + n
    ensures Admissions(ttl, start, fscale, n) == if ttl + n <= start then 0 else ttl + n - if ttl < start then start
      else ttl
    decreases n
  {
    if n > 0 {
      if ttl + 1 == fscale {
        assert n == 1;
      } else {
        WithinPeriod(ttl + 1, start, fscale, n - 1);
      }
    }
  }

  /**
   Any `fscale` decisions in a row admit the task exactly as often as its share, wherever in the
   period they begin.
   */
  lemma PeriodShare(ttl: int, start: int, fscale: int)
    requires 0 <= ttl < fscale && 0 <= start < fscale
    ensures Admissions(ttl, start, fscale, fscale) == fscale - start && TtlAfter(ttl, start, fscale, fscale) == ttl
  {
    AdmissionsSplit(ttl, start, fscale, fscale - ttl, ttl);
    WithinPeriod(ttl, start, fscale, fscale - ttl);
    WithinPeriod(0, start, fscale, ttl);
  }

  /** With no share at all the counter runs one further. */
  lemma {:induction false} WithinLongPeriod(ttl: int, fscale: int, n: nat)
    requires 0 <= ttl <= fscale && ttl + n <= fscale + 1
    ensures TtlAfter(ttl, fscale, fscale, n) == if ttl + n == fscale + 1 then 0 else ttl + n
    ensures Admissions(ttl, fscale, fscale, n) == if ttl + n == fscale + 1 then 1 else 0
    decreases n
  {
    if n > 0 {
      if ttl == fscale {
        assert n == 1;
      } else {
        WithinLongPeriod(ttl + 1, fscale, n - 1);
      }
    }
  }

  /** A task with no share is still admitted, once in every `fscale + 1` decisions. */
  lemma NoShare(ttl: int, fscale: int)
    requires 0 <= ttl <= fscale
    ensures Admissions(ttl, fscale, fscale, fscale + 1) == 1 && TtlAfter(ttl, fscale, fscale, fscale + 1) == ttl
  {
    AdmissionsSplit(ttl, fscale, fscale, fscale + 1 - ttl, ttl);
    WithinLongPeriod(ttl, fscale, fscale + 1 - ttl);
    WithinLongPeriod(0, fscale, ttl);
  }

  /** The share of a duty cycle in a period, in whole decisions. */
  function Share(duty: int, fscale: int): int {
    duty * fscale / 100
  }

  lemma ShareBounds(duty: int, fscale: int)
    requires 0 <= duty <= 100 && 0 <= fscale
    ensures 0 <= Share(duty, fscale) <= fscale
  {
    assert 0 <= duty * fscale;
    assert (100 - duty) * fscale >= 0;
  }

  /** The share is `duty` percent, rounded down. */
  lemma ShareIs(duty: int, fscale: int)
    requires 0 <= duty && 0 <= fscale
    ensures 100 * Share(duty, fscale) <= duty * fscale < 100 * Share(duty, fscale) + 100
    ensures Share(duty, fscale) > 0 <==> duty * fscale >= 100
  {
  }

  class Task {
    var pid: int
    var pwmMode: bool
    var ttl: int
    var ttlStart: int
    var ttlFscale: int

    constructor (id: int, pwm: bool, fscale: int)
      ensures pid == id && pwmMode == pwm && ttlFscale == fscale
    {
      pid, pwmMode, ttl, ttlStart, ttlFscale := id, pwm, 0, 0, fscale;
    }

    /** `task_ttl_canlive`: whether the task may not live this time. */
    method CanLive() returns (blocked: bool)
      modifies `ttl
      ensures pid == 0 ==> !blocked && ttl == old(ttl)
      ensures pid != 0 && pwmMode ==> blocked == (old(ttl) < ttlStart) && ttl == NextTtl(old(ttl), ttlStart, ttlFscale)
      ensures pid != 0 && !pwmMode ==>
        blocked == (old(ttl) < ttlFscale) && ttl == if old(ttl) < ttlFscale then old(ttl) + 1 else ttlStart
    {
      if pid != 0 {
        if pwmMode {
          ttl := ttl + 1;
          if ttl - 1 < ttlStart {
            return true;
          } else if ttl >= ttlFscale {
            ttl := 0;
          }
        } else {
          if ttl < ttlFscale {
            ttl := ttl + 1;
            return true;
          } else {
            ttl := ttlStart;
          }
        }
      }
      blocked := false;
    }

    /** `task_set_ttl`: a duty cycle in percent in PWM mode, a preload value otherwise. */
    method SetTtl(duty: int)
      requires 0 <= duty <= 100 && 0 <= ttlFscale && duty * ttlFscale < 0x8000_0000
      modifies `ttl, `ttlStart
      ensures pwmMode ==> ttl == 0 && ttlStart == ttlFscale - Share(duty, ttlFscale)
      ensures !pwmMode ==> ttl == ttlStart == Share(duty, ttlFscale)
    {
      if pwmMode {
        ttlStart := ttlFscale - duty * ttlFscale / 100;
        ttl := 0;
      } else {
        ttlStart := duty * ttlFscale / 100;
        ttl := ttlStart;
      }
    }

    /** `n` decisions in a row. */
    method Decide(n: nat) returns (admitted: nat)
      requires pid != 0 && pwmMode
      modifies `ttl
      ensures admitted == Admissions(old(ttl), ttlStart, ttlFscale, n) &&
        ttl == TtlAfter(old(ttl), ttlStart, ttlFscale, n)
    {
      admitted := 0;
      var i := 0;
      while i < n
        invariant 0 <= i <= n
        invariant admitted == Admissions(old(ttl), ttlStart, ttlFscale, i) &&
          ttl == TtlAfter(old(ttl), ttlStart, ttlFscale, i)
      {
        AdmissionsSplit(old(ttl), ttlStart, ttlFscale, i, 1);
        assert Admissions(ttl, ttlStart, ttlFscale, 1) ==
          (if ttl < ttlStart then 0 else 1) + Admissions(NextTtl(ttl, ttlStart, ttlFscale), ttlStart, ttlFscale, 0);
        assert TtlAfter(ttl, ttlStart, ttlFscale, 1) ==
          TtlAfter(NextTtl(ttl, ttlStart, ttlFscale), ttlStart, ttlFscale, 0);
        var blocked := CanLive();
        if !blocked {
          admitted := admitted + 1;
        }
        i := i + 1;
      }
    }

    /** A duty cycle is set, and after any number of decisions the admissions of one period are counted. */
    method SetAndCount(duty: int, before: nat) returns (admitted: nat)
      requires pid != 0 && pwmMode
      requires 0 <= duty <= 100 && 0 <= ttlFscale && duty * ttlFscale < 0x8000_0000
      modifies `ttl, `ttlStart
      ensures admitted == if Share(duty, ttlFscale) > 0 then Share(duty, ttlFscale) else 1
      ensures if duty * ttlFscale >= 100 then 100 * admitted <= duty * ttlFscale < 100 * admitted + 100
        else admitted == 1
    {
      ShareBounds(duty, ttlFscale);
      ShareIs(duty, ttlFscale);
      DutyCycle(duty, ttlFscale, before);
      SetTtl(duty);
      var _ := Decide(before);
      admitted := Decide(if ttlStart < ttlFscale then ttlFscale else ttlFscale + 1);
    }
  }

  /** Any number of decisions after `task_set_ttl`, the next `fscale` ones admit the task exactly its share of times,
      or, if that is none, one of the next `fscale + 1`. */
  lemma DutyCycle(duty: int, fscale: int, before: nat)
    requires 0 <= duty <= 100 && 0 <= fscale
    ensures var share, start := Share(duty, fscale), fscale - Share(duty, fscale);
      var ttl := TtlAfter(0, start, fscale, before);
      && (share > 0 ==> Admissions(ttl, start, fscale, fscale) == share)
      && (share == 0 ==> Admissions(ttl, start, fscale, fscale + 1) == 1)
  {
    ShareBounds(duty, fscale);
    var start := fscale - Share(duty, fscale);
    TtlStays(0, start, fscale, before);
    var ttl := TtlAfter(0, start, fscale, before);
    if start < fscale {
      PeriodShare(ttl, start, fscale);
    } else {
      NoShare(ttl, fscale);
    }
  }

  /** The counter stays in its range. */
  lemma {:induction false} TtlStays(ttl: int, start: int, fscale: int, n: nat)
    requires 0 <= start <= fscale && 0 <= ttl <= (if start < fscale then fscale - 1 else fscale)
    ensures 0 <= TtlAfter(ttl, start, fscale, n) <= (if start < fscale then fscale - 1 else fscale)
    decreases n
  {
    if n > 0 {
      TtlStays(NextTtl(ttl, start, fscale), start, fscale, n - 1);
    }
  }
}

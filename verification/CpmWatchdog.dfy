/** The watchdog in time: from counted ticks to microseconds of silence. */
module CpmWatchdog {
  import opened Basics
  import opened CpmModel
  import opened CpmRuns
  import opened CpmAccounting

  function Ticks(es: seq<Event>): nat {
    if es == [] then 0 else Ticks(DropLast(es)) + (if Last(es).Tick? then 1 else 0)
  }

  /** Position of the newest accepted frame in the run. */
  function LastAccepted(s: Cpm, es: seq<Event>): (i: int)
    ensures i < |es| && (Accepted(s, es) != [] ==> 0 <= i && es[i].Frame?)
  {
    if es == [] then -1
    else if TakesFrame(After(s, DropLast(es)), Last(es)) then |es| - 1
    else LastAccepted(s, DropLast(es))
  }

  /** While the instance is active its timer is pending. */
  lemma {:induction false} ActiveTimer(s: Cpm, es: seq<Event>)
    requires JustActivated(s) && s.env.timers == 1 && WithinActivation(es) && AlwaysScheduled(es)
    ensures var t := After(s, es);
            t.ciRunning == (t.mode != WStart) && t.env.timers == (if t.mode != WStart then 1 else 0)
    ensures es != [] && After(s, es).mode != WStart ==> After(s, DropLast(es)).mode != WStart
  {
    if es != [] {
      assert AlwaysScheduled(DropLast(es)) && Last(es) == es[|es| - 1];
      ActiveTimer(s, DropLast(es));
      KeepsTimer(After(s, DropLast(es)), Last(es));
    }
  }

  lemma KeepsTimer(s: Cpm, e: Event)
    requires !e.Activate? && !e.Close? && !e.Create? && (e.Tick? ==> e.rearmed)
    requires s.ciRunning == (s.mode != WStart) && s.env.timers == (if s.mode != WStart then 1 else 0)
    ensures var t := Step(s, e);
            && t.ciRunning == (t.mode != WStart) && t.env.timers == (if t.mode != WStart then 1 else 0)
            && (t.mode != WStart ==> s.mode != WStart)
  {
  }

  /** So every tick counts. */
  lemma {:induction false} AgeIsTicksSince(s: Cpm, es: seq<Event>)
    requires JustActivated(s) && s.env.timers == 1 && WithinActivation(es) && AlwaysScheduled(es)
    requires After(s, es).mode != WStart
    ensures var i := LastAccepted(s, es);
            && Age(s, es) == Ticks(es) - (if i < 0 then 0 else Ticks(es[..i]))
            && (i < 0 <==> Accepted(s, es) == [])
  {
    if es != [] {
      var before := DropLast(es);
      assert AlwaysScheduled(before);
      ActiveTimer(s, es);
      ActiveTimer(s, before);
      AgeIsTicksSince(s, before);
      var i := LastAccepted(s, before);
      if i >= 0 {
        assert before[..i] == es[..i];
      }
      assert es[..|es| - 1] == before;
    }
  }

  /** Ideal timing: the n-th tick comes n intervals after activation, and a frame handled
      after n ticks came after the n-th and before the next. */
  predicate OnSchedule(es: seq<Event>, times: seq<int>, interval: int) {
    && |times| == |es|
    && forall i :: 0 <= i < |es| ==>
         && (es[i].Tick? ==> times[i] == (Ticks(es[..i]) + 1) * interval)
         && (es[i].Frame? ==> Ticks(es[..i]) * interval <= times[i] < (Ticks(es[..i]) + 1) * interval)
  }

  /** When the watchdog expires, the provider has been silent for more than
      `dataHoldFactor` and at most `dataHoldFactor + 1` control intervals. */
  lemma {:induction false} SilenceBeforeExpiry(s: Cpm, es: seq<Event>, times: seq<int>)
    requires JustActivated(s) && s.env.timers == 1 && es != [] && WithinActivation(es) && AlwaysScheduled(es)
    requires OnSchedule(es, times, s.cfg.controlInterval)
    requires After(s, DropLast(es)).mode != WStart && After(s, es).mode == WStart
    ensures var ci, i := s.cfg.controlInterval, LastAccepted(s, es);
            && 0 <= i && es[i].Frame? && Last(es).Tick?
            && s.cfg.dataHoldFactor * ci < Last(times) - times[i] <= (s.cfg.dataHoldFactor + 1) * ci
  {
    ExpiryTick(s, es);
    Elapsed(s, es, times, s.cfg.controlInterval, LastAccepted(s, es), s.cfg.dataHoldFactor);
  }

  /** The expiring tick is number hold factor plus one since the newest accepted frame. */
  lemma ExpiryTick(s: Cpm, es: seq<Event>)
    requires JustActivated(s) && s.env.timers == 1 && es != [] && WithinActivation(es) && AlwaysScheduled(es)
    requires After(s, DropLast(es)).mode != WStart && After(s, es).mode == WStart
    ensures var i := LastAccepted(s, es);
            && 0 <= i < |es| - 1 && es[i].Frame? && Last(es).Tick?
            && Ticks(DropLast(es)) == Ticks(DropLast(es)[..i]) + s.cfg.dataHoldFactor
  {
    var before, e := DropLast(es), es[|es| - 1];
    assert es == before + [e];
    assert WithinActivation(before) && AlwaysScheduled(before);
    ExpiresOnTheTick(s, before, e);
    ActivationTracks(s, before);
    AgeIsTicksSince(s, before);
    assert LastAccepted(s, es) == LastAccepted(s, before);
  }

  lemma Elapsed(s: Cpm, es: seq<Event>, times: seq<int>, ci: int, i: nat, h: nat)
    requires OnSchedule(es, times, ci)
    requires i < |es| - 1 && es[i].Frame? && Last(es).Tick?
    requires Ticks(DropLast(es)) == Ticks(DropLast(es)[..i]) + h
    ensures h * ci < Last(times) - times[i] <= (h + 1) * ci
  {
    assert es[..|es| - 1] == DropLast(es) && DropLast(es)[..i] == es[..i];
    Distribute(Ticks(es[..i]), h, ci);
  }

  lemma Distribute(n: int, h: int, c: int)
    ensures (n + h + 1) * c == n * c + (h + 1) * c == (n + 1) * c + h * c
  {
  }

  // ---------------------------------------------------------------- the watchdog in time

  /** The configured interval is 31.25 microseconds times both factors, rounded down, exactly
      as long as the 32 bit product does not wrap, which is up to about 134 seconds. For the
      allowed factors it does not. */
  lemma {:induction false} ControlIntervalExact(p: Params)
    ensures ControlInterval(p) == p.sendClockFactor * p.reductionRatio * 1000 / 32
            <==> p.sendClockFactor * p.reductionRatio * 1000 < TWO_TO_32
    ensures 1 <= p.sendClockFactor <= 128 && 1 <= p.reductionRatio <= 512 ==>
              && p.sendClockFactor * p.reductionRatio * 1000 < TWO_TO_32
              && ControlInterval(p) == (31.25 * (p.sendClockFactor * p.reductionRatio) as real).Floor
  {
    var n := p.sendClockFactor * p.reductionRatio;
    ScaledDivision(n);
    if 1 <= p.sendClockFactor <= 128 && 1 <= p.reductionRatio <= 512 {
      ProductBound(p.sendClockFactor, p.reductionRatio);
      assert 31.25 * n as real == (n * 1000) as real / 32.0;
      FloorOfQuotient(n * 1000);
    }
  }

  lemma {:induction false} ProductBound(a: nat, b: nat)
    requires b <= 512
    ensures 0 <= a * b <= a * 512
  {
    if a > 0 {
      ProductBound(a - 1, b);
      assert a * b == (a - 1) * b + b;
    }
  }

  lemma ScaledDivision(n: nat)
    ensures n * 1000 % TWO_TO_32 / 32 == n * 1000 / 32 <==> n * 1000 < TWO_TO_32
  {
  }

  lemma FloorOfQuotient(n: nat)
    ensures (n as real / 32.0).Floor == n / 32
  {
    var q, r := n / 32, n % 32;
    assert n as real / 32.0 == q as real + r as real / 32.0;
  }
}

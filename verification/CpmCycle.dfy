/** The 16 bit cycle counter: accepted frames never go back and never repeat, and a
    consumer falls into step with its provider after a bounded number of frames. */
module CpmCycle {
  import opened Basics
  import opened CpmModel
  import opened CpmRuns

  // ---------------------------------------------------------------- wrapping counters

  lemma WrappedDifference(a: int, b: int)
    ensures (a % TWO_TO_16 - b % TWO_TO_16) % TWO_TO_16 == (a - b) % TWO_TO_16
  {
    var qa, qb := a / TWO_TO_16, b / TWO_TO_16;
    var d := a % TWO_TO_16 - b % TWO_TO_16;
    assert a - b == d + TWO_TO_16 * (qa - qb);
    WrapsAround(d, qa - qb);
  }

  lemma WrapsAround(d: int, k: int)
    ensures (d + TWO_TO_16 * k) % TWO_TO_16 == d % TWO_TO_16
  {
  }

  /** The check on the wire value decides "strictly newer" for counters in the window. */
  lemma CheckCycleMeansNewer(stored: int, last: int, now: int)
    requires stored % TWO_TO_16 == last % TWO_TO_16
    requires -4095 <= now - last <= 61440
    ensures CheckCycle(stored, now % TWO_TO_16) <==> now > last
  {
    WrappedDifference(now, last);
  }

  // ---------------------------------------------------------------- records

  function Newest(start: int, cs: seq<int>): int {
    if cs == [] then start else Last(cs)
  }

  /** The members of `cs` that exceed `start` and everything before them. */
  function Records(start: int, cs: seq<int>): seq<int> {
    if cs == [] then [] else
    var before := Records(start, DropLast(cs));
    if Last(cs) > Newest(start, before) then before + [Last(cs)] else before
  }

  predicate Increasing(cs: seq<int>) {
    forall i, j :: 0 <= i < j < |cs| ==> cs[i] < cs[j]
  }

  predicate IsMaximum(m: int, start: int, cs: seq<int>) {
    && (m == start || m in cs)
    && start <= m
    && forall c :: c in cs ==> c <= m
  }

  lemma {:induction false} NewestIsMaximum(start: int, cs: seq<int>)
    ensures IsMaximum(Newest(start, Records(start, cs)), start, cs)
  {
    if cs != [] {
      NewestIsMaximum(start, DropLast(cs));
      assert cs == DropLast(cs) + [Last(cs)];
    }
  }

  lemma {:induction false} RecordsIncrease(start: int, cs: seq<int>)
    ensures Increasing([start] + Records(start, cs))
  {
    if cs != [] {
      var before := Records(start, DropLast(cs));
      RecordsIncrease(start, DropLast(cs));
      assert ([start] + before)[|before|] == Newest(start, before);
      assert [start] + (before + [Last(cs)]) == ([start] + before) + [Last(cs)];
    }
  }

  // ---------------------------------------------------------------- runs

  predicate IsValid(cfg: Config, e: Event) { e.Frame? && ValidFrame(cfg, e.a) }

  /** A valid frame reaches an active instance. */
  predicate Arrives(s: Cpm, es: seq<Event>, e: Event) {
    After(s, es).mode != WStart && IsValid(s.cfg, e)
  }

  /** The provider's unwrapped counters of the frames that arrive in a run; `us[i]` belongs to `es[i]`. */
  function Counters(s: Cpm, es: seq<Event>, us: seq<int>): seq<int>
    requires |us| == |es|
  {
    if es == [] then []
    else Counters(s, DropLast(es), DropLast(us)) + (if Arrives(s, DropLast(es), Last(es)) then [Last(us)] else [])
  }

  function AcceptedCounters(s: Cpm, es: seq<Event>, us: seq<int>): seq<int>
    requires |us| == |es|
  {
    if es == [] then []
    else AcceptedCounters(s, DropLast(es), DropLast(us))
         + (if TakesFrame(After(s, DropLast(es)), Last(es)) then [Last(us)] else [])
  }

  /** Frames carry their wrapped counter, and none is further off than the window allows
      from the newest one accepted before it. */
  predicate InWindow(s: Cpm, start: int, es: seq<Event>, us: seq<int>) {
    && |us| == |es|
    && forall k :: 0 <= k < |es| && Arrives(s, es[..k], es[k]) ==>
         && us[k] % TWO_TO_16 == CycleOf(es[k].a.buf)
         && -4095 <= us[k] - Newest(start, AcceptedCounters(s, es[..k], us[..k])) <= 61440
  }

  /** No reordering, no duplicates. The accepted counters are exactly the running records of
      the counters that arrived, and so they strictly increase over the whole run. */
  lemma {:induction false} AcceptedAreRecords(s: Cpm, start: int, es: seq<Event>, us: seq<int>)
    requires s.cycle % TWO_TO_16 == start % TWO_TO_16
    requires WithinActivation(es) && InWindow(s, start, es, us)
    ensures AcceptedCounters(s, es, us) == Records(start, Counters(s, es, us))
    ensures Increasing([start] + AcceptedCounters(s, es, us))
    ensures IsMaximum(Newest(start, AcceptedCounters(s, es, us)), start, Counters(s, es, us))
  {
    AcceptedFollowRecords(s, start, es, us);
    RecordsIncrease(start, Counters(s, es, us));
    NewestIsMaximum(start, Counters(s, es, us));
  }

  lemma {:induction false} AcceptedFollowRecords(s: Cpm, start: int, es: seq<Event>, us: seq<int>)
    requires s.cycle % TWO_TO_16 == start % TWO_TO_16
    requires WithinActivation(es) && InWindow(s, start, es, us)
    ensures AcceptedCounters(s, es, us) == Records(start, Counters(s, es, us))
    ensures After(s, es).cfg == s.cfg
    ensures After(s, es).cycle % TWO_TO_16 == Newest(start, AcceptedCounters(s, es, us)) % TWO_TO_16
  {
    if es != [] {
      var es', us' := DropLast(es), DropLast(us);
      var t := After(s, es');
      PrefixInWindow(s, start, es, us);
      StaysDown(t, Last(es));
      AcceptedFollowRecords(s, start, es', us');
      CycleStored(t, Last(es));
      if Arrives(s, es', Last(es)) {
        TakesNewer(t, Last(es), Newest(start, AcceptedCounters(s, es', us')), Last(us));
        OneMoreRecord(start, Counters(s, es', us'), Last(us));
        assert Counters(s, es, us) == Counters(s, es', us') + [Last(us)];
      } else {
        assert !TakesFrame(t, Last(es));
        assert Counters(s, es, us) == Counters(s, es', us');
      }
    }
  }

  lemma OneMoreRecord(start: int, cs: seq<int>, c: int)
    ensures Records(start, cs + [c])
         == Records(start, cs) + (if c > Newest(start, Records(start, cs)) then [c] else [])
  {
    assert DropLast(cs + [c]) == cs;
  }

  /** One event: a valid frame is taken exactly when its counter is newer than `newest`. */
  lemma TakesNewer(t: Cpm, e: Event, newest: int, u: int)
    requires t.mode != WStart && t.cycle % TWO_TO_16 == newest % TWO_TO_16
    requires !e.Activate?
    requires IsValid(t.cfg, e) ==> u % TWO_TO_16 == CycleOf(e.a.buf) && -4095 <= u - newest <= 61440
    ensures TakesFrame(t, e) <==> IsValid(t.cfg, e) && u > newest
    ensures Step(t, e).cycle % TWO_TO_16 == (if TakesFrame(t, e) then u else newest) % TWO_TO_16
  {
    CycleStored(t, e);
    if IsValid(t.cfg, e) {
      CheckCycleMeansNewer(t.cycle, newest, u);
      assert u % TWO_TO_16 % TWO_TO_16 == u % TWO_TO_16;
    }
  }

  lemma {:induction false} PrefixInWindow(s: Cpm, start: int, es: seq<Event>, us: seq<int>)
    requires WithinActivation(es) && InWindow(s, start, es, us) && es != []
    ensures WithinActivation(DropLast(es)) && InWindow(s, start, DropLast(es), DropLast(us))
    ensures var e := Last(es);
            && !e.Activate? && !e.Close? && !e.Create?
            && (Arrives(s, DropLast(es), e) ==>
                  && Last(us) % TWO_TO_16 == CycleOf(e.a.buf)
                  && -4095 <= Last(us) - Newest(start, AcceptedCounters(s, DropLast(es), DropLast(us))) <= 61440)
  {
    var n := |es| - 1;
    assert DropLast(es) == es[..n] && DropLast(us) == us[..n];
    forall k | 0 <= k < n
      ensures DropLast(es)[..k] == es[..k] && DropLast(us)[..k] == us[..k] && DropLast(es)[k] == es[k]
    {
    }
  }

  /** Without an activation the instance does not come back from W_START, and the
      configuration stays. */
  lemma StaysDown(s: Cpm, e: Event)
    requires !e.Activate? && !e.Close? && !e.Create?
    ensures s.mode == WStart ==> Step(s, e).mode == WStart
    ensures Step(s, e).cfg == s.cfg
  {
  }

  lemma CycleStored(s: Cpm, e: Event)
    requires !e.Activate?
    ensures Step(s, e).cycle == (if TakesFrame(s, e) then CycleOf(e.a.buf) else s.cycle)
  {
  }

  /** A fresh activation counts as having seen 65535: the "never" value -1 is not special. */
  lemma FirstFrame(z: Cpm, p: Params, a: Arrival)
    requires z.mode == WStart
    ensures Accepts(Started(z, p), a) <==> ValidFrame(ConfigFor(p), a) && CycleOf(a.buf) <= 61439
  {
  }

  // ---------------------------------------------------------------- falling into step

  /** The provider's wrapped counter after `k` steps. */
  function Provided(first: int, step: nat, k: nat): uint16 {
    (first + k * step) % TWO_TO_16
  }

  function FrameCount(es: seq<Event>): nat {
    if es == [] then 0 else FrameCount(DropLast(es)) + (if Last(es).Frame? then 1 else 0)
  }

  /** The frames among the events are valid, with counters `step` apart. */
  predicate SteadyProvider(cfg: Config, es: seq<Event>, first: int, step: nat) {
    forall k :: 0 <= k < |es| && es[k].Frame? ==>
      IsValid(cfg, es[k]) && CycleOf(es[k].a.buf) == Provided(first, step, FrameCount(es[..k]))
  }

  /** How far the provider's first counter lags behind what the consumer has stored,
      0 when it is acceptable at once. */
  function Lag(stored: int, first: int): nat {
    var d := (first - stored) % TWO_TO_16;
    if d == 0 then 0 else if d > 61440 then TWO_TO_16 - d else 0
  }

  /** Number of leading frames that are rejected. */
  function Rejected(stored: int, first: int, step: nat): nat
    requires step > 0
  {
    if CheckCycle(stored, first % TWO_TO_16) then 0 else Lag(stored, first) / step + 1
  }

  /** Resynchronisation. Whatever counter was stored, and however ticks and reads come in
      between, a provider that advances by a fixed step has exactly `Rejected` leading frames
      refused, never more than 4095 / step + 1, and every later frame is accepted as long as
      the connection has not expired. */
  lemma {:induction false} Resynchronises(s: Cpm, es: seq<Event>, first: int, step: nat)
    requires WithinActivation(es) && 1 <= step <= 61440 && SteadyProvider(s.cfg, es, first, step)
    ensures var r := Rejected(s.cycle, first, step);
            && r <= 4095 / step + 1
            && forall k :: 0 <= k < |es| && es[k].Frame? && After(s, es[..k]).mode != WStart ==>
                 (TakesFrame(After(s, es[..k]), es[k]) <==> FrameCount(es[..k]) >= r)
  {
    RejectedBound(s.cycle, first, step);
    forall k | 0 <= k < |es| && es[k].Frame? && After(s, es[..k]).mode != WStart
      ensures TakesFrame(After(s, es[..k]), es[k]) <==> FrameCount(es[..k]) >= Rejected(s.cycle, first, step)
    {
      SteadyPrefix(s.cfg, es, k, first, step);
      StoredSoFar(s, es[..k], first, step);
      NextCheck(s.cycle, first, step, FrameCount(es[..k]));
    }
  }

  lemma SteadyPrefix(cfg: Config, es: seq<Event>, k: nat, first: int, step: nat)
    requires WithinActivation(es) && SteadyProvider(cfg, es, first, step) && k <= |es|
    ensures WithinActivation(es[..k]) && SteadyProvider(cfg, es[..k], first, step)
  {
    forall i | 0 <= i < k ensures es[..k][..i] == es[..i] && es[..k][i] == es[i] {}
  }

  /** The counter stored after `k` frames of a steady provider. */
  function StoredAfter(stored: int, first: int, step: nat, k: nat): int
    requires step > 0
  {
    if k <= Rejected(stored, first, step) then stored else Provided(first, step, k - 1)
  }

  lemma {:induction false} StoredSoFar(s: Cpm, es: seq<Event>, first: int, step: nat)
    requires WithinActivation(es) && 1 <= step <= 61440 && SteadyProvider(s.cfg, es, first, step)
    ensures var t := After(s, es);
            && t.cfg == s.cfg
            && (t.mode != WStart ==> t.cycle == StoredAfter(s.cycle, first, step, FrameCount(es)))
  {
    if es != [] {
      var n, e := |es| - 1, es[|es| - 1];
      SteadyPrefix(s.cfg, es, n, first, step);
      StoredSoFar(s, es[..n], first, step);
      assert es[..n] == DropLast(es);
      var t, k := After(s, es[..n]), FrameCount(es[..n]);
      StaysDown(t, e);
      CycleStored(t, e);
      if e.Frame? && t.mode != WStart {
        NextCheck(s.cycle, first, step, k);
        assert TakesFrame(t, e) <==> k >= Rejected(s.cycle, first, step);
      }
    }
  }

  lemma RejectedBound(stored: int, first: int, step: nat)
    requires 1 <= step
    ensures Rejected(stored, first, step) <= 4095 / step + 1
  {
    QuotientMonotone(Lag(stored, first), 4095, step);
  }

  lemma QuotientMonotone(a: nat, b: nat, c: nat)
    requires a <= b && c > 0
    ensures a / c <= b / c
  {
    var qa, qb := a / c, b / c;
    MultipleBelow(a, c);
    MultipleBelow(b, c);
    if qa > qb {
      ProductMonotone(c, qb + 1, qa);
      assert false;
    }
  }

  lemma MultipleBelow(x: nat, c: nat)
    requires c > 0
    ensures c * (x / c) <= x < c * (x / c + 1)
  {
  }

  lemma ProductMonotone(c: nat, x: nat, y: nat)
    requires x <= y
    ensures c * x <= c * y
  {
  }

  /** Frame number `k` passes the check against what is stored exactly from `Rejected` on. */
  lemma NextCheck(stored: int, first: int, step: nat, k: nat)
    requires 1 <= step <= 61440
    ensures CheckCycle(StoredAfter(stored, first, step, k), Provided(first, step, k))
            <==> k >= Rejected(stored, first, step)
  {
    if k > Rejected(stored, first, step) {
      LaterCheck(first, step, k);
    } else {
      FirstChecks(stored, first, step, k);
    }
  }

  /** A provider in step is accepted. */
  lemma LaterCheck(first: int, step: nat, k: nat)
    requires 1 <= step <= 61440 && k > 0
    ensures CheckCycle(Provided(first, step, k - 1), Provided(first, step, k))
  {
    var before := first + (k - 1) * step;
    assert k * step == (k - 1) * step + step;
    CheckCycleMeansNewer(before % TWO_TO_16, before, before + step);
  }

  lemma FirstChecks(stored: int, first: int, step: nat, k: nat)
    requires 1 <= step <= 61440 && k <= Rejected(stored, first, step)
    ensures CheckCycle(stored, Provided(first, step, k)) <==> k == Rejected(stored, first, step)
  {
    if CheckCycle(stored, first % TWO_TO_16) {
      assert k * step == 0;
    } else {
      var lag, advance := Lag(stored, first), k * step;
      StepsToCatchUp(lag, step, k);
      CheckAfter(stored, first, advance);
      assert k == lag / step + 1 <==> advance > lag;
    }
  }

  /** A provider that was refused is accepted once it has advanced by more than its lag. */
  lemma CheckAfter(stored: int, first: int, advance: nat)
    requires !CheckCycle(stored, first % TWO_TO_16)
    requires -4095 <= advance - Lag(stored, first) <= 61440
    ensures CheckCycle(stored, (first + advance) % TWO_TO_16) <==> advance > Lag(stored, first)
  {
    DriftedDifference(stored, first, advance);
    WrappedDifference(first + advance, stored);
    CheckCycleMeansNewer(0, 0, advance - Lag(stored, first));
  }

  /** While the consumer waits, the provider's lag shrinks by what the provider advances. */
  lemma DriftedDifference(stored: int, first: int, advance: nat)
    ensures (first + advance - stored) % TWO_TO_16 == ((first - stored) % TWO_TO_16 + advance) % TWO_TO_16
    ensures !CheckCycle(stored, first % TWO_TO_16) ==>
              (first + advance - stored) % TWO_TO_16 == (advance - Lag(stored, first)) % TWO_TO_16
  {
    var d, q := (first - stored) % TWO_TO_16, (first - stored) / TWO_TO_16;
    WrapsAround(d + advance, q);
    WrappedDifference(first, stored);
    if d > 0 {
      WrapsAround(advance - (TWO_TO_16 - d), 1);
    }
  }

  lemma StepsToCatchUp(lag: nat, step: nat, k: nat)
    requires 1 <= step <= 61440 && lag <= 4095 && k <= lag / step + 1
    ensures k <= lag / step ==> -4095 <= k * step - lag <= 0
    ensures k == lag / step + 1 ==> 1 <= k * step - lag <= 61440
  {
    var q := lag / step;
    assert lag == q * step + lag % step;
    if k <= q {
      assert k * step <= q * step;
    } else {
      assert k * step == q * step + step;
    }
  }
}

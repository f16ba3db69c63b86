/** The counting semaphore of the Linux port: any number of threads waiting and signalling,
    with time-outs and spurious wake-ups. */
module Semaphore {
  import opened Basics

  /** Each set holds the threads at one point of a call; a thread in none is outside. */
  datatype Sem = Sem(
    count: nat,
    entering: set<nat>,   // in a wait, before the first look at the count
    asleep: set<nat>,     // in the condition wait
    woken: set<nat>,      // out of the condition wait, before the next look at the count
    notifying: set<nat>,  // in a signal, count raised, notification still to come
    signals: nat,
    waits: nat,
    timeouts: nat)

  function Initial(count: nat): Sem { Sem(count, {}, {}, {}, {}, 0, 0, 0) }

  datatype Action =
    | Enter(t: nat)
    | Look(t: nat)                 // take the lock and test the count
    | TimeOut(t: nat)
    | WakeUp(t: nat)               // spurious
    | Signal(t: nat)
    | Notify(t: nat, chosen: nat)  // wakes one sleeper if there is any

  function Inside(s: Sem): set<nat> {
    s.entering + s.asleep + s.woken + s.notifying
  }

  predicate Enabled(s: Sem, a: Action) {
    match a
    case Enter(t) => t !in Inside(s)
    case Look(t) => t in s.entering || t in s.woken
    case TimeOut(t) => t in s.asleep
    case WakeUp(t) => t in s.asleep
    case Signal(t) => t !in Inside(s)
    case Notify(t, chosen) => t in s.notifying && (chosen in s.asleep || s.asleep == {})
  }

  function Apply(s: Sem, a: Action): Sem {
    if !Enabled(s, a) then s else
    match a
    case Enter(t) => s.(entering := s.entering + {t})
    case Look(t) =>
      var u := s.(entering := s.entering - {t}, woken := s.woken - {t});
      if s.count == 0 then u.(asleep := s.asleep + {t})
      else u.(count := s.count - 1, waits := s.waits + 1)
    case TimeOut(t) => s.(asleep := s.asleep - {t}, timeouts := s.timeouts + 1)
    case WakeUp(t) => s.(asleep := s.asleep - {t}, woken := s.woken + {t})
    case Signal(t) => s.(count := s.count + 1, signals := s.signals + 1, notifying := s.notifying + {t})
    case Notify(t, chosen) =>
      var u := s.(notifying := s.notifying - {t});
      if chosen in s.asleep then u.(asleep := s.asleep - {chosen}, woken := s.woken + {chosen}) else u
  }

  function Run(s: Sem, actions: seq<Action>): Sem {
    if actions == [] then s else Apply(Run(s, DropLast(actions)), Last(actions))
  }

  /** Every unit of the count is covered by a notification or a woken thread as long as
      anyone sleeps. */
  predicate Covered(s: Sem) {
    && s.asleep !! s.woken
    && (s.asleep != {} ==> s.count <= |s.notifying| + |s.woken|)
  }

  lemma StepCovers(s: Sem, a: Action)
    requires Covered(s)
    ensures Covered(Apply(s, a))
  {
    if Enabled(s, a) {
      match a
      case Look(t) => Removed(s.woken, t);
      case WakeUp(t) => Added(s.woken, t);
      case Signal(t) => Added(s.notifying, t);
      case Notify(t, chosen) =>
        Removed(s.notifying, t);
        Added(s.woken, chosen);
      case _ =>
    }
  }

  lemma Removed(threads: set<nat>, t: nat)
    ensures |threads - {t}| == |threads| - (if t in threads then 1 else 0)
  {
    if t !in threads {
      assert threads - {t} == threads;
    }
  }

  lemma Added(threads: set<nat>, t: nat)
    ensures |threads + {t}| == |threads| + (if t in threads then 0 else 1)
  {
    if t in threads {
      assert threads + {t} == threads;
    }
  }

  /** Over every run: the count is the initial value plus signals minus successful waits,
      whether waits time out or not; and while anyone sleeps, every available unit has a
      notification under way or a woken thread coming for it. */
  lemma {:induction false} CountAndCover(initial: nat, actions: seq<Action>)
    ensures var s := Run(Initial(initial), actions);
            && s.count == initial + s.signals - s.waits
            && Covered(s)
  {
    if actions != [] {
      CountAndCover(initial, DropLast(actions));
      StepCovers(Run(Initial(initial), DropLast(actions)), Last(actions));
    }
  }

  /** How often a wait and a signal have been called. */
  function WaitsCalled(initial: nat, actions: seq<Action>): nat {
    if actions == [] then 0
    else
      var before, a := DropLast(actions), Last(actions);
      WaitsCalled(initial, before) + (if a.Enter? && Enabled(Run(Initial(initial), before), a) then 1 else 0)
  }

  function SignalsCalled(initial: nat, actions: seq<Action>): nat {
    if actions == [] then 0
    else
      var before, a := DropLast(actions), Last(actions);
      SignalsCalled(initial, before) + (if a.Signal? && Enabled(Run(Initial(initial), before), a) then 1 else 0)
  }

  /** Each thread is at one point of one call. */
  predicate Apart(s: Sem) {
    s.entering !! s.asleep !! s.woken !! s.notifying
  }

  /** Every wait called succeeds once, times out once, or is still under way, and every signal
      counts once. */
  lemma {:induction false} CallsAddUp(initial: nat, actions: seq<Action>)
    ensures var s := Run(Initial(initial), actions);
            && Apart(s)
            && WaitsCalled(initial, actions) == s.waits + s.timeouts + UnderWay(s)
            && SignalsCalled(initial, actions) == s.signals
  {
    if actions != [] {
      CallsAddUp(initial, DropLast(actions));
      StepKeepsApart(Run(Initial(initial), DropLast(actions)), Last(actions));
      StepAddsUp(Run(Initial(initial), DropLast(actions)), Last(actions));
    }
  }

  lemma StepKeepsApart(s: Sem, a: Action)
    requires Apart(s)
    ensures Apart(Apply(s, a))
  {
  }

  /** The threads in a wait. */
  function UnderWay(s: Sem): nat {
    |s.entering| + |s.asleep| + |s.woken|
  }

  /** The waits that have been called by now. */
  function WaitsSeen(s: Sem): nat {
    s.waits + s.timeouts + UnderWay(s)
  }

  lemma StepAddsUp(s: Sem, a: Action)
    requires Apart(s)
    ensures WaitsSeen(Apply(s, a)) == WaitsSeen(s) + (if a.Enter? && Enabled(s, a) then 1 else 0)
    ensures Apply(s, a).signals == s.signals + (if a.Signal? && Enabled(s, a) then 1 else 0)
  {
    match a
    case Enter(t) => Added(s.entering, t);
    case Look(t) => LookAddsUp(s, t);
    case TimeOut(t) => Removed(s.asleep, t);
    case WakeUp(t) => WakeUpAddsUp(s, t);
    case Signal(_) =>
    case Notify(t, chosen) => NotifyAddsUp(s, t, chosen);
  }

  lemma LookAddsUp(s: Sem, t: nat)
    requires Apart(s)
    ensures WaitsSeen(Apply(s, Look(t))) == WaitsSeen(s)
    ensures Apply(s, Look(t)).signals == s.signals
  {
    Removed(s.entering, t);
    Removed(s.woken, t);
    Added(s.asleep, t);
  }

  lemma WakeUpAddsUp(s: Sem, t: nat)
    requires Apart(s)
    ensures WaitsSeen(Apply(s, WakeUp(t))) == WaitsSeen(s)
    ensures Apply(s, WakeUp(t)).signals == s.signals
  {
    Removed(s.asleep, t);
    Added(s.woken, t);
  }

  lemma NotifyAddsUp(s: Sem, t: nat, chosen: nat)
    requires Apart(s)
    ensures WaitsSeen(Apply(s, Notify(t, chosen))) == WaitsSeen(s)
    ensures Apply(s, Notify(t, chosen)).signals == s.signals
  {
    Removed(s.asleep, chosen);
    Added(s.woken, chosen);
  }

  /** No lost wake-up: when nobody is on the way, sleepers sleep only on a zero count. */
  lemma SleepersWaitRightly(initial: nat, actions: seq<Action>)
    ensures var s := Run(Initial(initial), actions);
            s.notifying == s.woken == {} && s.asleep != {} ==> s.count == 0 && s.waits == initial + s.signals
  {
    CountAndCover(initial, actions);
  }

  // ---------------------------------------------------------------- the deadline of a wait

  const NSECS_PER_SEC := 1_000_000_000

  datatype Timespec = Timespec(sec: nat, nsec: nat)

  /** What the condition wait accepts; it answers anything else with an error. */
  predicate WellFormed(t: Timespec) { t.nsec < NSECS_PER_SEC }

  function Nanoseconds(t: Timespec): nat { t.sec * NSECS_PER_SEC + t.nsec }

  /** `now` plus `time` milliseconds, as the wait on a semaphore computes it. The moment is
      right, but the strict comparison leaves it malformed when the nanoseconds add up to
      one second sharp, and only then. */
  method SemDeadline(now: Timespec, time: nat) returns (deadline: Timespec)
    requires WellFormed(now)
    ensures deadline == SemDeadlineOf(now, time)
    ensures Nanoseconds(deadline) == Nanoseconds(now) + time * 1000000
    ensures WellFormed(deadline) <==> time * 1000000 + now.nsec != NSECS_PER_SEC
  {
    var nsec := time * 1000 * 1000;
    var sec := now.sec;
    nsec := nsec + now.nsec;
    if nsec > NSECS_PER_SEC {
      sec := sec + nsec / NSECS_PER_SEC;
      nsec := nsec % NSECS_PER_SEC;
    }
    deadline := Timespec(sec, nsec);
    DeadlineExact(now, time);
    SemDeadlineDefect(now, time);
  }

  function SemDeadlineOf(now: Timespec, time: nat): Timespec {
    var nsec := time * 1000000 + now.nsec;
    if nsec > NSECS_PER_SEC then Timespec(now.sec + nsec / NSECS_PER_SEC, nsec % NSECS_PER_SEC)
    else Timespec(now.sec, nsec)
  }

  /** As the waits on events and mailboxes compute it. */
  function DeadlineOf(now: Timespec, time: nat): Timespec {
    var nsec := time * 1000000 + now.nsec;
    Timespec(now.sec + nsec / NSECS_PER_SEC, nsec % NSECS_PER_SEC)
  }

  lemma DeadlineExact(now: Timespec, time: nat)
    ensures WellFormed(DeadlineOf(now, time))
    ensures Nanoseconds(DeadlineOf(now, time)) == Nanoseconds(now) + time * 1000000
  {
    var nsec := time * 1000000 + now.nsec;
    assert nsec == nsec / NSECS_PER_SEC * NSECS_PER_SEC + nsec % NSECS_PER_SEC;
  }

  /** The semaphore's computation agrees with the other one exactly unless the nanoseconds add
      up to one second sharp. */
  lemma SemDeadlineDefect(now: Timespec, time: nat)
    requires WellFormed(now)
    ensures SemDeadlineOf(now, time) == DeadlineOf(now, time) <==> time * 1000000 + now.nsec != NSECS_PER_SEC
  {
  }

  /** A wait of one second started on a full second. */
  lemma SemDeadlineExample()
    ensures !WellFormed(SemDeadlineOf(Timespec(5, 0), 1000))
  {
  }
}

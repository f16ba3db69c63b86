/** Event flags of the Linux port: threads wait until one of their bits is set. Setting and
    clearing bits wakes a single thread, and waiting leaves the bits as they are. */
module EventFlags {
  import opened Basics

  datatype Pc =
    | Entering(mask: set<nat>)  // about to take the lock for the first time
    | Asleep(mask: set<nat>)    // waiting on the condition variable
    | Woken(mask: set<nat>)     // out of the wait, about to take the lock again
    | Notifying                 // flags changed, notification still to come

  /** What the wait of thread `t` for the bits of `mask` has returned. */
  datatype Answer = Answer(t: nat, mask: set<nat>, bits: set<nat>, timedOut: bool)

  /** Bits are numbers; threads that are not in `threads` are outside. */
  datatype System = System(
    flags: set<nat>,
    threads: map<nat, Pc>,
    answers: seq<Answer>)

  const INITIAL := System({}, map[], [])

  datatype Action =
    | Wait(t: nat, mask: set<nat>)
    | Look(t: nat)                 // take the lock and test the flags
    | TimeOut(t: nat)
    | WakeUp(t: nat)               // spurious
    | Set(t: nat, bits: set<nat>)
    | Clear(t: nat, bits: set<nat>)
    | Notify(t: nat, chosen: nat)  // wakes one sleeper if there is any

  predicate Sleeps(s: System, t: nat) { t in s.threads && s.threads[t].Asleep? }

  predicate Notifies(s: System, t: nat) { t in s.threads && s.threads[t].Notifying? }

  /** A sleeper one of whose bits is set. */
  predicate SleepsWrongly(s: System, t: nat) {
    Sleeps(s, t) && s.flags * s.threads[t].mask != {}
  }

  predicate Enabled(s: System, a: Action) {
    match a
    case Wait(t, _) => t !in s.threads
    case Look(t) => t in s.threads && (s.threads[t].Entering? || s.threads[t].Woken?)
    case TimeOut(t) => Sleeps(s, t)
    case WakeUp(t) => Sleeps(s, t)
    case Set(t, _) => t !in s.threads
    case Clear(t, _) => t !in s.threads
    case Notify(t, chosen) =>
      Notifies(s, t) && (Sleeps(s, chosen) || forall u :: u in s.threads ==> !Sleeps(s, u))
  }

  function Apply(s: System, a: Action): System {
    if !Enabled(s, a) then s else
    match a
    case Wait(t, mask) => s.(threads := s.threads[t := Entering(mask)])
    case Look(t) =>
      var mask := s.threads[t].mask;
      if s.flags * mask == {} then s.(threads := s.threads[t := Asleep(mask)])
      else s.(threads := s.threads - {t}, answers := s.answers + [Answer(t, mask, s.flags * mask, false)])
    case TimeOut(t) =>
      var mask := s.threads[t].mask;
      s.(threads := s.threads - {t}, answers := s.answers + [Answer(t, mask, s.flags * mask, true)])
    case WakeUp(t) => s.(threads := s.threads[t := Woken(s.threads[t].mask)])
    case Set(t, bits) => s.(flags := s.flags + bits, threads := s.threads[t := Notifying])
    case Clear(t, bits) => s.(flags := s.flags - bits, threads := s.threads[t := Notifying])
    case Notify(t, chosen) =>
      var others := s.threads - {t};
      s.(threads := if Sleeps(s, chosen) then others[chosen := Woken(s.threads[chosen].mask)] else others)
  }

  function Run(s: System, actions: seq<Action>): System {
    if actions == [] then s else Apply(Run(s, DropLast(actions)), Last(actions))
  }

  // ---------------------------------------------------------------- told from the history

  /** The last call that set or cleared bit `b` set it. */
  predicate IsSet(actions: seq<Action>, b: nat) {
    actions != [] &&
    var before, a := DropLast(actions), Last(actions);
    if !Enabled(Run(INITIAL, before), a) then IsSet(before, b)
    else
      match a
      case Set(_, bits) => b in bits || IsSet(before, b)
      case Clear(_, bits) => b !in bits && IsSet(before, b)
      case _ => IsSet(before, b)
  }

  /** The bits thread `t` was asked to wait for in its last wait. */
  function Asked(actions: seq<Action>, t: nat): set<nat> {
    if actions == [] then {}
    else
      var before, a := DropLast(actions), Last(actions);
      if a.Wait? && a.t == t && Enabled(Run(INITIAL, before), a) then a.mask else Asked(before, t)
  }

  /** Those of them that are set. */
  function Seen(actions: seq<Action>, t: nat): set<nat> {
    set b | b in Asked(actions, t) && IsSet(actions, b)
  }

  /** What the waits have to return: a look that sees a bit returns what it sees, a look that
      sees none goes to sleep, and a time-out returns whatever is set by then. */
  function Expected(actions: seq<Action>): seq<Answer> {
    if actions == [] then []
    else
      var before, a := DropLast(actions), Last(actions);
      if !Enabled(Run(INITIAL, before), a) then Expected(before)
      else
        match a
        case Look(t) =>
          if Seen(before, t) == {} then Expected(before)
          else Expected(before) + [Answer(t, Asked(before, t), Seen(before, t), false)]
        case TimeOut(t) => Expected(before) + [Answer(t, Asked(before, t), Seen(before, t), true)]
        case _ => Expected(before)
  }

  ghost predicate Remembers(s: System, actions: seq<Action>) {
    && (forall b :: b in s.flags <==> IsSet(actions, b))
    && (forall t :: t in s.threads && !s.threads[t].Notifying? ==> s.threads[t].mask == Asked(actions, t))
    && s.answers == Expected(actions)
  }

  /** Over all interleavings, the flags are exactly the bits last set and not cleared since, and
      every wait returns exactly those of its bits that are set at the moment it looks. */
  lemma {:induction false} AnswersAreExact(actions: seq<Action>)
    ensures Remembers(Run(INITIAL, actions), actions)
  {
    if actions != [] {
      AnswersAreExact(DropLast(actions));
      StepRemembers(Run(INITIAL, DropLast(actions)), actions);
    }
  }

  lemma StepRemembers(s: System, actions: seq<Action>)
    requires actions != [] && s == Run(INITIAL, DropLast(actions)) && Remembers(s, DropLast(actions))
    ensures Remembers(Apply(s, Last(actions)), actions)
  {
    var before, a := DropLast(actions), Last(actions);
    if Enabled(s, a) && (a.Look? || a.TimeOut?) {
      assert s.flags * s.threads[a.t].mask == Seen(before, a.t);
    }
  }

  /** Only threads of `waiters` wait; any thread sets and clears. */
  predicate OnlyWait(actions: seq<Action>, waiters: set<nat>) {
    forall i :: 0 <= i < |actions| && actions[i].Wait? ==> actions[i].t in waiters
  }

  /** Lost for good: everyone inside is asleep, and one of them wrongly. */
  ghost predicate Stuck(s: System) {
    && (forall t :: t in s.threads ==> s.threads[t].Asleep?)
    && exists t :: SleepsWrongly(s, t)
  }

  ghost predicate GetsStuck(waiters: set<nat>) {
    exists actions :: OnlyWait(actions, waiters) && Stuck(Run(INITIAL, actions))
  }

  /** Waking a single thread is enough for one waiting thread, whatever bits it waits for and
      whoever sets and clears them, and for no more than one. */
  lemma OneWaiterExactly(waiters: set<nat>)
    ensures GetsStuck(waiters) <==> |waiters| > 1
  {
    if |waiters| > 1 {
      var first :| first in waiters;
      assert |waiters - {first}| == |waiters| - 1;
      var second :| second in waiters - {first};
      TwoWaitersGetStuck(waiters, first, second);
    } else if GetsStuck(waiters) {
      var actions :| OnlyWait(actions, waiters) && Stuck(Run(INITIAL, actions));
      LoneWaiter(actions, waiters);
      assert false;
    }
  }

  /** A single waiting thread that sleeps although its bit is set is about to be notified. */
  ghost predicate Served(s: System, waiters: set<nat>) {
    && (forall t :: t in s.threads && !s.threads[t].Notifying? ==> t in waiters)
    && ((exists t :: SleepsWrongly(s, t)) ==> exists u :: Notifies(s, u))
  }

  lemma {:induction false} LoneWaiter(actions: seq<Action>, waiters: set<nat>)
    requires OnlyWait(actions, waiters) && |waiters| <= 1
    ensures Served(Run(INITIAL, actions), waiters)
  {
    if actions != [] {
      var a := actions[|actions| - 1];
      LoneWaiter(DropLast(actions), waiters);
      StepServes(Run(INITIAL, DropLast(actions)), a, waiters);
    }
  }

  lemma AtMostOne(waiters: set<nat>, t: nat, u: nat)
    requires |waiters| <= 1 && t in waiters && u in waiters
    ensures t == u
  {
    assert |waiters - {t}| == |waiters| - 1;
  }

  lemma StepServes(s: System, a: Action, waiters: set<nat>)
    requires Served(s, waiters) && |waiters| <= 1 && (a.Wait? ==> a.t in waiters)
    ensures Served(Apply(s, a), waiters)
  {
    var s' := Apply(s, a);
    if Enabled(s, a) && exists t :: SleepsWrongly(s', t) {
      var t :| SleepsWrongly(s', t);
      match a
      case Set(u, _) => assert Notifies(s', u);
      case Clear(u, _) => assert Notifies(s', u);
      case Notify(_, chosen) =>
        assert Sleeps(s, t) && Sleeps(s, chosen);
        AtMostOne(waiters, t, chosen);
      case _ =>
        assert SleepsWrongly(s, t);
        var u :| Notifies(s, u);
        assert Notifies(s', u);
    }
  }

  /** Two threads wait for the same bit; setting it wakes one of them, and the other sleeps on
      while the bit stays set. */
  lemma TwoWaitersGetStuck(waiters: set<nat>, first: nat, second: nat)
    requires first in waiters && second in waiters && first != second
    ensures GetsStuck(waiters)
  {
    var a, s := Sleeping([], INITIAL, waiters, first);
    a, s := Sleeping(a, s, waiters, second);
    a, s := OneLeaves(a, s, waiters, first, first + second + 1);
    assert SleepsWrongly(s, second) by { assert 0 in s.flags * {0}; }
    assert Stuck(s);
  }

  /** Thread `t` waits for bit 0 and goes to sleep. */
  lemma Sleeping(actions: seq<Action>, s: System, waiters: set<nat>, t: nat) returns (longer: seq<Action>, s': System)
    requires Run(INITIAL, actions) == s && OnlyWait(actions, waiters) && t in waiters
    requires t !in s.threads && s.flags == {}
    ensures s' == s.(threads := s.threads[t := Asleep({0})])
    ensures Run(INITIAL, longer) == s' && OnlyWait(longer, waiters)
  {
    var u;
    longer, u := Then(actions, s, waiters, Wait(t, {0}));
    longer, s' := Then(longer, u, waiters, Look(t));
    assert u.threads[t := Asleep({0})] == s.threads[t := Asleep({0})];
  }

  /** Thread `setter` sets bit 0, which lets sleeping thread `t` go on. */
  lemma OneLeaves(actions: seq<Action>, s: System, waiters: set<nat>, t: nat, setter: nat)
    returns (longer: seq<Action>, s': System)
    requires Run(INITIAL, actions) == s && OnlyWait(actions, waiters)
    requires setter !in s.threads && t in s.threads && s.threads[t] == Asleep({0}) && s.flags == {}
    ensures s'.flags == {0} && s'.threads == s.threads - {t}
    ensures Run(INITIAL, longer) == s' && OnlyWait(longer, waiters)
  {
    var u, v;
    longer, u := Then(actions, s, waiters, Set(setter, {0}));
    longer, v := Then(longer, u, waiters, Notify(setter, t));
    assert u.flags == {0} && v.threads == s.threads[t := Woken({0})];
    longer, s' := Then(longer, v, waiters, Look(t));
    assert 0 in v.flags * {0};
  }

  lemma Then(actions: seq<Action>, s: System, waiters: set<nat>, a: Action) returns (longer: seq<Action>, t: System)
    requires Run(INITIAL, actions) == s && OnlyWait(actions, waiters) && (a.Wait? ==> a.t in waiters)
    ensures t == Apply(s, a) && Run(INITIAL, longer) == t && OnlyWait(longer, waiters)
  {
    longer, t := actions + [a], Apply(s, a);
    assert DropLast(longer) == actions;
  }
}

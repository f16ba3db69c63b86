/** How profi++ hands events to its worker: any thread signals, one worker receives, and
    each pass of its loop handles one event. */
module SynchronizationEvents {
  import opened Basics

  datatype Event = Cycle | ReadyForData | Alarm | Abort

  /** The event a pass of the loop picks from those received: the order of its tests. */
  function Top(received: set<Event>): Option<Event> {
    if ReadyForData in received then Some(ReadyForData)
    else if Alarm in received then Some(Alarm)
    else if Cycle in received then Some(Cycle)
    else if Abort in received then Some(Abort)
    else None
  }

  function Without(events: set<Event>, e: Option<Event>): set<Event> {
    if e.Some? then events - {e.value} else events
  }

  // ---------------------------------------------------------------- signallers and the worker

  datatype WorkerPc =
    | AtReceive  // about to take the lock and test
    | Asleep
    | Woken      // out of the wait; receives without testing again
    | AtPass     // events received, loop tests to come

  datatype System = System(
    signaled: set<Event>,
    received: set<Event>,
    worker: WorkerPc,
    notifying: nat,            // signallers that still have to notify
    outstanding: set<Event>,   // signalled since their handler last started
    signals: multiset<Event>,
    handled: multiset<Event>)

  const INITIAL := System({}, {}, AtReceive, 0, {}, multiset{}, multiset{})

  datatype Action = Signal(e: Event) | Notify | WakeUp | Receive | Pass

  predicate Enabled(s: System, a: Action) {
    match a
    case Signal(_) => true
    case Notify => s.notifying > 0
    case WakeUp => s.worker.Asleep?
    case Receive => s.worker.AtReceive? || s.worker.Woken?
    case Pass => s.worker.AtPass?
  }

  function Apply(s: System, a: Action): System {
    if !Enabled(s, a) then s else
    match a
    case Signal(e) =>
      s.(signaled := s.signaled + {e}, notifying := s.notifying + 1,
         outstanding := s.outstanding + {e}, signals := s.signals + multiset{e})
    case Notify =>
      s.(notifying := s.notifying - 1, worker := if s.worker.Asleep? then Woken else s.worker)
    case WakeUp => s.(worker := Woken)
    case Receive =>
      if s.worker.AtReceive? && s.signaled == {} then s.(worker := Asleep)
      else s.(received := s.received + s.signaled, signaled := {}, worker := AtPass)
    case Pass =>
      var top := Top(s.received);
      var t := s.(received := Without(s.received, top), worker := AtReceive);
      if top.None? then t
      else t.(outstanding := s.outstanding - {top.value}, handled := s.handled + multiset{top.value})
  }

  function Run(s: System, actions: seq<Action>): System {
    if actions == [] then s else Apply(Run(s, DropLast(actions)), Last(actions))
  }

  // ---------------------------------------------------------------- the queue itself

  /** The shared object. Each method is the step of the transition system that it performs:
      `s` stands for the system around it. */
  class EventQueue {
    var signaledEvents: set<Event>
    var receivedEvents: set<Event>

    ghost predicate Shows(s: System)
      reads this
    {
      signaledEvents == s.signaled && receivedEvents == s.received
    }

    constructor ()
      ensures Shows(INITIAL)
    {
      signaledEvents, receivedEvents := {}, {};
    }

    method Signal(e: Event, ghost s: System)
      requires Shows(s)
      modifies this
      ensures Shows(Apply(s, Action.Signal(e)))
      ensures signaledEvents == old(signaledEvents) + {e} && receivedEvents == old(receivedEvents)
    {
      signaledEvents := signaledEvents + {e};
    }

    /** The part of receiving after the wait, if there was one. */
    method ReceiveEvents(ghost s: System)
      requires Shows(s) && Enabled(s, Receive) && (s.worker.AtReceive? ==> s.signaled != {})
      modifies this
      ensures Shows(Apply(s, Receive)) && Apply(s, Receive).worker.AtPass?
      ensures signaledEvents == {} && receivedEvents == old(receivedEvents + signaledEvents)
    {
      receivedEvents := receivedEvents + signaledEvents;
      signaledEvents := {};
    }

    method Process(e: Event) returns (taken: bool)
      modifies this`receivedEvents
      ensures taken == (e in old(receivedEvents))
      ensures receivedEvents == old(receivedEvents) - {e}
    {
      taken := e in receivedEvents;
      receivedEvents := receivedEvents - {e};
    }

    /** The tests of one pass of the loop. Returns the event whose handler is to run. */
    method Pass(ghost s: System) returns (handled: Option<Event>)
      requires Shows(s) && Enabled(s, Action.Pass)
      modifies this
      ensures Shows(Apply(s, Action.Pass))
      ensures ReadyForData in old(receivedEvents) ==> handled == Some(ReadyForData)
      ensures ReadyForData !in old(receivedEvents) && Alarm in old(receivedEvents) ==> handled == Some(Alarm)
      ensures old(receivedEvents) !! {ReadyForData, Alarm} && Cycle in old(receivedEvents) ==> handled == Some(Cycle)
      ensures old(receivedEvents) == {Abort} ==> handled == Some(Abort)
      ensures handled.None? <==> old(receivedEvents) == {}
      ensures receivedEvents == old(receivedEvents) - (if handled.Some? then {handled.value} else {})
      ensures var more := if handled.Some? then multiset{handled.value} else multiset{};
              Apply(s, Action.Pass).handled == s.handled + more
    {
      SomeTop(receivedEvents);
      handled := None;
      var ready := Process(ReadyForData);
      if ready {
        handled := Some(ReadyForData);
        return;
      }
      var alarm := Process(Alarm);
      if alarm {
        handled := Some(Alarm);
        return;
      }
      var cycle := Process(Cycle);
      if cycle {
        handled := Some(Cycle);
        return;
      }
      var abort := Process(Abort);
      if abort {
        handled := Some(Abort);
      }
    }
  }

  /** Signalled but not yet taken by its Process call. */
  function Pending(s: System): set<Event> { s.signaled + s.received }

  function Tally(b: bool): nat { if b then 1 else 0 }

  // ---------------------------------------------------------------- told from the signals

  /** How often an event has been signalled. */
  function Signalled(actions: seq<Action>, e: Event): nat {
    if actions == [] then 0 else Signalled(DropLast(actions), e) + Tally(Last(actions) == Signal(e))
  }

  /** The event has been signalled since its handler last started. */
  predicate Due(actions: seq<Action>, e: Event) {
    actions != [] &&
    var before, a := DropLast(actions), Last(actions);
    a == Signal(e) || (Due(before, e) && Run(INITIAL, actions).handled[e] == Run(INITIAL, before).handled[e])
  }

  /** What the system counts is what the signallers did. */
  lemma {:induction false} CountsAreTrue(actions: seq<Action>, e: Event)
    ensures Run(INITIAL, actions).signals[e] == Signalled(actions, e)
    ensures e in Run(INITIAL, actions).outstanding <==> Due(actions, e)
  {
    if actions != [] {
      CountsAreTrue(DropLast(actions), e);
      StepIsTrue(Run(INITIAL, DropLast(actions)), Last(actions), e);
    }
  }

  lemma StepIsTrue(s: System, a: Action, e: Event)
    ensures var t := Apply(s, a);
            && t.signals[e] == s.signals[e] + Tally(a == Signal(e))
            && (e in t.outstanding <==> a == Signal(e) || (e in s.outstanding && t.handled[e] == s.handled[e]))
  {
    match a
    case Signal(f) => assert (s.signals + multiset{f})[e] == s.signals[e] + (if e == f then 1 else 0);
    case Pass =>
      var top := Top(s.received);
      if top.Some? {
        assert (s.handled + multiset{top.value})[e] == s.handled[e] + (if e == top.value then 1 else 0);
      }
    case _ =>
  }

  /** A signalled event stays pending until its handler starts, handlers never start more
      often than signals were given, and a worker sleeping on a signal is about to be
      notified. */
  ghost predicate Delivers(s: System) {
    && s.outstanding <= Pending(s)
    && (s.worker.Asleep? && s.signaled != {} ==> s.notifying > 0)
    && forall e :: s.handled[e] + Tally(e in s.received) + Tally(e in s.signaled) <= s.signals[e]
  }

  lemma StepCounts(s: System, a: Action, e: Event)
    requires s.handled[e] + Tally(e in s.received) + Tally(e in s.signaled) <= s.signals[e]
    ensures var t := Apply(s, a);
            t.handled[e] + Tally(e in t.received) + Tally(e in t.signaled) <= t.signals[e]
  {
    match a
    case Signal(f) => assert (s.signals + multiset{f})[e] == s.signals[e] + (if e == f then 1 else 0);
    case Pass => PassCounts(s, e);
    case _ =>
  }

  lemma PassCounts(s: System, e: Event)
    ensures var t := Apply(s, Pass);
            && t.signals == s.signals && t.signaled == s.signaled
            && t.handled[e] + Tally(e in t.received) == s.handled[e] + Tally(e in s.received)
  {
    SomeTop(s.received);
  }

  lemma StepStaysPending(s: System, a: Action)
    requires s.outstanding <= Pending(s)
    requires s.worker.Asleep? && s.signaled != {} ==> s.notifying > 0
    ensures Apply(s, a).outstanding <= Pending(Apply(s, a))
    ensures Apply(s, a).worker.Asleep? && Apply(s, a).signaled != {} ==> Apply(s, a).notifying > 0
  {
  }

  /** Event delivery, for any number of signalling threads. */
  lemma {:induction false} EventDelivery(actions: seq<Action>)
    ensures Delivers(Run(INITIAL, actions))
  {
    if actions != [] {
      var s, a := Run(INITIAL, DropLast(actions)), Last(actions);
      EventDelivery(DropLast(actions));
      StepStaysPending(s, a);
      forall e
        ensures Apply(s, a).handled[e] + Tally(e in Apply(s, a).received) + Tally(e in Apply(s, a).signaled)
             <= Apply(s, a).signals[e]
      {
        StepCounts(s, a, e);
      }
    }
  }

  // ---------------------------------------------------------------- which handler runs

  /** The place of an event in the order in which a pass tests for them. */
  function Place(e: Event): nat {
    match e
    case ReadyForData => 0
    case Alarm => 1
    case Cycle => 2
    case Abort => 3
  }

  predicate IsFirstOf(e: Event, events: set<Event>) {
    e in events && forall f :: f in events ==> Place(e) <= Place(f)
  }

  /** Over all interleavings: at a pass the handler of an event starts, once, exactly if the event
      is received and none before it in the order is; otherwise the event stays as it is. */
  lemma PassTakesFirst(actions: seq<Action>, e: Event)
    requires Run(INITIAL, actions).worker.AtPass?
    ensures var s, t := Run(INITIAL, actions), Run(INITIAL, actions + [Pass]);
            if IsFirstOf(e, s.received) then
              t.handled[e] == s.handled[e] + 1 && e !in t.received
            else
              t.handled[e] == s.handled[e] && (e in t.received <==> e in s.received)
  {
    assert DropLast(actions + [Pass]) == actions;
    FirstIsTop(Run(INITIAL, actions).received, e);
  }

  lemma FirstIsTop(events: set<Event>, e: Event)
    ensures IsFirstOf(e, events) <==> Top(events) == Some(e)
  {
    SomeTop(events);
  }

  // ---------------------------------------------------------------- one run per signal?

  /** The handler about to start has had no signal since its last run started. */
  predicate Unprompted(s: System, a: Action) {
    Enabled(s, a) && a.Pass? && Top(s.received).Some? && Top(s.received).value !in s.outstanding
  }

  /** The handler about to start serves an event that has been signalled again since it was
      received. */
  predicate ServesTwoAtOnce(s: System, a: Action) {
    Enabled(s, a) && a.Pass? && Top(s.received).Some? && Top(s.received).value in s.signaled
  }

  /** The events last handled while signalled again, and not signalled since. */
  function Surplus(actions: seq<Action>): set<Event> {
    if actions == [] then {} else
    var s, a, before := Run(INITIAL, DropLast(actions)), Last(actions), Surplus(DropLast(actions));
    if !Enabled(s, a) then before
    else
      match a
      case Signal(e) => before - {e}
      case Pass =>
        var top := Top(s.received);
        if ServesTwoAtOnce(s, a) then before + {top.value} else Without(before, top)
      case _ => before
  }

  /** A handler run need not have a signal of its own since the run before: a signal that
      comes in between receiving and handling makes the handler run once more later. That
      happens exactly to the surplus events: those are pending without having been signalled
      since their handler last started. */
  lemma {:induction false} UnpromptedExactly(actions: seq<Action>)
    ensures Pending(Run(INITIAL, actions)) - Run(INITIAL, actions).outstanding == Surplus(actions)
    ensures var s := Run(INITIAL, actions);
            Unprompted(s, Pass)
            <==> s.worker.AtPass? && Top(s.received).Some? && Top(s.received).value in Surplus(actions)
  {
    if actions != [] {
      UnpromptedExactly(DropLast(actions));
      EventDelivery(DropLast(actions));
      StepSurplus(Run(INITIAL, DropLast(actions)), actions);
    }
    SomeTop(Run(INITIAL, actions).received);
  }

  lemma StepSurplus(s: System, actions: seq<Action>)
    requires actions != [] && s == Run(INITIAL, DropLast(actions)) && s.outstanding <= Pending(s)
    requires Pending(s) - s.outstanding == Surplus(DropLast(actions))
    ensures var t := Apply(s, Last(actions)); Pending(t) - t.outstanding == Surplus(actions)
  {
    SomeTop(s.received);
  }

  /** How often a handler run of `e` was unprompted, and how often it served two signals. */
  function UnpromptedRuns(actions: seq<Action>, e: Event): nat {
    if actions == [] then 0 else
    var s, a := Run(INITIAL, DropLast(actions)), Last(actions);
    UnpromptedRuns(DropLast(actions), e) + Tally(Unprompted(s, a) && Top(s.received) == Some(e))
  }

  function DoubleServices(actions: seq<Action>, e: Event): nat {
    if actions == [] then 0 else
    var s, a := Run(INITIAL, DropLast(actions)), Last(actions);
    DoubleServices(DropLast(actions), e) + Tally(ServesTwoAtOnce(s, a) && Top(s.received) == Some(e))
  }

  /** Every unprompted run is paid for by an earlier run that served two signals. */
  lemma {:induction false} RunsAreOwed(actions: seq<Action>, e: Event)
    ensures UnpromptedRuns(actions, e) + Tally(e in Surplus(actions)) <= DoubleServices(actions, e)
  {
    if actions != [] {
      RunsAreOwed(DropLast(actions), e);
      UnpromptedExactly(DropLast(actions));
    }
  }

  /** One cycle signal before and one after receiving: the second handler run is unprompted
      by any signal since the first one started. */
  lemma CycleRunsTwice() returns (a: seq<Action>, s: System)
    ensures Run(INITIAL, a) == s && Unprompted(s, Pass) && Top(s.received) == Some(Cycle)
    ensures s.signals == multiset{Cycle, Cycle} && s.handled == multiset{Cycle}
  {
    a, s := ReceivedAndSignalled();
    a, s := Then(a, s, Pass);
    assert s.signaled == {Cycle} && s.received == s.outstanding == {};
    a, s := Then(a, s, Receive);
  }

  lemma ReceivedAndSignalled() returns (a: seq<Action>, s: System)
    ensures Run(INITIAL, a) == s && s.worker.AtPass? && s.handled == multiset{}
    ensures s.received == s.signaled == s.outstanding == {Cycle} && s.signals == multiset{Cycle, Cycle}
  {
    a, s := Then([], INITIAL, Signal(Cycle));
    assert s.signaled == {Cycle};
    a, s := Then(a, s, Receive);
    assert s.received == {Cycle} && s.signaled == {};
    a, s := Then(a, s, Signal(Cycle));
  }

  // ---------------------------------------------------------------- events left behind

  /** Receive, handle, and come back to receive, with no further signal. */
  function OneRound(s: System): System {
    Apply(Apply(Apply(s, Receive), Pass), Receive)
  }

  /** The loop waits for new signals even while received events are unhandled. After a round
      without new signals the worker is asleep with all pending events but one left over,
      so everything has been handled exactly when a single event was pending. */
  lemma RoundLeavesBehind(s: System)
    requires s.worker.AtReceive? && s.signaled != {}
    ensures var t := OneRound(s);
            && t.worker.Asleep? && t.signaled == {}
            && t.received == Without(Pending(s), Top(Pending(s)))
            && (ReadyForData in Pending(s) ==> t.received == Pending(s) - {ReadyForData})
            && (ReadyForData !in Pending(s) && Alarm in Pending(s) ==> t.received == Pending(s) - {Alarm})
            && (Pending(s) == {Cycle, Abort} ==> t.received == {Abort})
            && (|Pending(s)| == 1 ==> t.received == {})
            && (t.received == {} <==> |Pending(s)| == 1)
  {
    var pending, top := Pending(s), Top(Pending(s));
    SomeTop(pending);
    assert OneRound(s).received == pending - {top.value};
    assert |pending - {top.value}| == |pending| - 1;
  }

  lemma SomeTop(events: set<Event>)
    ensures Top(events).Some? <==> events != {}
    ensures Top(events).Some? ==> Top(events).value in events
  {
    if events != {} {
      var e :| e in events;
      assert e == Cycle || e == ReadyForData || e == Alarm || e == Abort;
    }
  }

  /** An abort signalled along with a cycle stays unhandled with nobody about to wake the worker. */
  lemma AbortLeftBehind()
    ensures exists actions: seq<Action> ::
              var s := Run(INITIAL, actions);
              s.worker.Asleep? && s.notifying == 0 && Abort in s.outstanding && s.received == {Abort}
  {
    var a, s := CycleAndAbort();
    RoundLeavesBehind(s);
    a, s := Then(a, s, Receive);
    a, s := Then(a, s, Pass);
    a, s := Then(a, s, Receive);
    assert Without({Cycle, Abort}, Some(Cycle)) == {Abort};
  }

  lemma CycleAndAbort() returns (a: seq<Action>, s: System)
    ensures Run(INITIAL, a) == s && s.worker.AtReceive? && s.notifying == 0
    ensures s.signaled == s.outstanding == Pending(s) == {Cycle, Abort}
  {
    a, s := Then([], INITIAL, Signal(Cycle));
    a, s := Then(a, s, Signal(Abort));
    a, s := Then(a, s, Notify);
    a, s := Then(a, s, Notify);
    assert s.signaled == {Cycle, Abort};
  }

  lemma Then(actions: seq<Action>, s: System, a: Action) returns (longer: seq<Action>, t: System)
    requires Run(INITIAL, actions) == s
    ensures longer == actions + [a] && t == Apply(s, a) && Run(INITIAL, longer) == t
  {
    longer, t := actions + [a], Apply(s, a);
    assert DropLast(longer) == actions;
  }
}

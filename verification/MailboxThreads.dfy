/** Threads posting to and fetching from one mailbox through its mutex and its single
    condition variable. The locked sections are atomic; waking up, timing out and
    notifying happen in between, in any order. */
module MailboxThreads {
  import opened Basics

  datatype Op = Post(m: nat) | Fetch

  datatype Pc =
    | Entering(op: Op)   // about to take the lock for the first time
    | Asleep(op: Op)     // waiting on the condition variable
    | Woken(op: Op)      // out of the wait, about to take the lock again
    | Notifying          // lock released, notification still to come

  /** Threads that are not in `threads` are outside the mailbox. */
  datatype System = System(
    size: nat,
    contents: seq<nat>,
    threads: map<nat, Pc>,
    posted: seq<nat>,
    fetched: seq<nat>)

  datatype Action =
    | Call(t: nat, op: Op)
    | Acquire(t: nat)
    | TimeOut(t: nat)
    | WakeUp(t: nat)                  // a spurious wake-up
    | NotifyAll(t: nat)               // the Windows port
    | NotifyOne(t: nat, chosen: nat)  // the Linux port; the scheduler chooses

  function Initial(size: nat): System { System(size, [], map[], [], []) }

  predicate Sleeps(s: System, t: nat) { t in s.threads && s.threads[t].Asleep? }

  predicate Notifies(s: System, t: nat) { t in s.threads && s.threads[t].Notifying? }

  /** The condition the wait loop tests. */
  predicate Blocked(s: System, op: Op) {
    match op
    case Fetch => s.contents == []
    case Post(_) => |s.contents| == s.size
  }

  predicate Enabled(s: System, a: Action) {
    match a
    case Call(t, _) => t !in s.threads
    case Acquire(t) => t in s.threads && (s.threads[t].Entering? || s.threads[t].Woken?)
    case TimeOut(t) => Sleeps(s, t)
    case WakeUp(t) => Sleeps(s, t)
    case NotifyAll(t) => Notifies(s, t)
    case NotifyOne(t, chosen) =>
      Notifies(s, t) && (Sleeps(s, chosen) || forall u :: u in s.threads ==> !Sleeps(s, u))
  }

  function Transfer(s: System, op: Op): System
    requires !Blocked(s, op)
  {
    match op
    case Fetch => s.(contents := s.contents[1..], fetched := s.fetched + [s.contents[0]])
    case Post(m) => s.(contents := s.contents + [m], posted := s.posted + [m])
  }

  function Apply(s: System, a: Action): System {
    if !Enabled(s, a) then s else
    match a
    case Call(t, op) => s.(threads := s.threads[t := Entering(op)])
    case Acquire(t) =>
      var op := s.threads[t].op;
      if Blocked(s, op) then s.(threads := s.threads[t := Asleep(op)])
      else Transfer(s, op).(threads := s.threads[t := Notifying])
    case TimeOut(t) => s.(threads := s.threads[t := Notifying])
    case WakeUp(t) => s.(threads := s.threads[t := Woken(s.threads[t].op)])
    case NotifyAll(t) =>
      s.(threads := map u | u in s.threads && u != t ::
           if s.threads[u].Asleep? then Woken(s.threads[u].op) else s.threads[u])
    case NotifyOne(t, chosen) =>
      var others := s.threads - {t};
      s.(threads := if Sleeps(s, chosen) then others[chosen := Woken(s.threads[chosen].op)] else others)
  }

  function Run(s: System, actions: seq<Action>): System {
    if actions == [] then s else Apply(Run(s, DropLast(actions)), Last(actions))
  }

  // ---------------------------------------------------------------- first in, first out

  predicate FirstInFirstOut(s: System) {
    s.posted == s.fetched + s.contents && |s.contents| <= s.size
  }

  /** Whatever the threads do and however they are woken, what has been fetched is an
      initial piece of what was posted, in order, and the rest is in the mailbox. */
  lemma {:induction false} MessagesInOrder(size: nat, actions: seq<Action>)
    ensures FirstInFirstOut(Run(Initial(size), actions))
    ensures Run(Initial(size), actions).size == size
  {
    if actions != [] {
      MessagesInOrder(size, DropLast(actions));
      StepInOrder(Run(Initial(size), DropLast(actions)), Last(actions));
    }
  }

  lemma StepInOrder(s: System, a: Action)
    requires FirstInFirstOut(s)
    ensures FirstInFirstOut(Apply(s, a)) && Apply(s, a).size == s.size
  {
    if a.Acquire? && Enabled(s, a) && !Blocked(s, s.threads[a.t].op) {
      var t := Transfer(s, s.threads[a.t].op);
      if s.threads[a.t].op.Fetch? {
        assert s.contents == [s.contents[0]] + s.contents[1..];
        assert t.fetched + t.contents == s.fetched + s.contents;
      } else {
        assert t.posted == s.fetched + (s.contents + [s.threads[a.t].op.m]);
      }
    }
  }

  // ---------------------------------------------------------------- told from the calls

  /** What thread `t` has called last. */
  function LastCall(size: nat, actions: seq<Action>, t: nat): Option<Op> {
    if actions == [] then None
    else
      var before, a := DropLast(actions), Last(actions);
      if a.Call? && a.t == t && Enabled(Run(Initial(size), before), a) then Some(a.op)
      else LastCall(size, before, t)
  }

  lemma {:induction false} ThreadsRemember(size: nat, actions: seq<Action>, t: nat)
    ensures var s := Run(Initial(size), actions);
            && s.size == size
            && (t in s.threads && !s.threads[t].Notifying? ==> LastCall(size, actions, t) == Some(s.threads[t].op))
  {
    if actions != [] {
      ThreadsRemember(size, DropLast(actions), t);
      StepRemembers(Run(Initial(size), DropLast(actions)), Last(actions), t);
    }
  }

  /** A thread keeps to what it has called. */
  lemma StepRemembers(s: System, a: Action, t: nat)
    ensures Apply(s, a).size == s.size
    ensures t in Apply(s, a).threads && !Apply(s, a).threads[t].Notifying? ==>
              if a.Call? && a.t == t && Enabled(s, a) then Apply(s, a).threads[t].op == a.op
              else t in s.threads && !s.threads[t].Notifying? && Apply(s, a).threads[t].op == s.threads[t].op
  {
  }

  /** A thread that has the lock and called a post appends its own message if there is room; one
      that called a fetch takes the oldest message if there is any. Otherwise it goes to sleep
      and nothing else changes. */
  lemma TransferIsAsCalled(size: nat, actions: seq<Action>, t: nat)
    requires Enabled(Run(Initial(size), actions), Acquire(t))
    ensures var s, call := Run(Initial(size), actions), LastCall(size, actions, t);
            var s' := Apply(s, Acquire(t));
            && call.Some?
            && match call.value
               case Post(m) =>
                 if |s.contents| < size then
                   s'.contents == s.contents + [m] && s'.posted == s.posted + [m] && s'.fetched == s.fetched
                 else
                   s' == s.(threads := s.threads[t := Asleep(Post(m))]) && |s.contents| == size
               case Fetch =>
                 if s.contents != [] then
                   s.contents == [s.contents[0]] + s'.contents
                   && s'.fetched == s.fetched + [s.contents[0]] && s'.posted == s.posted
                 else
                   s' == s.(threads := s.threads[t := Asleep(Fetch)])
  {
    ThreadsRemember(size, actions, t);
    MessagesInOrder(size, actions);
  }

  /** Every call, whether it has moved a message or timed out, ends with a notification. */
  lemma CallsEndNotifying(s: System, a: Action, t: nat)
    requires t in s.threads && t !in Apply(s, a).threads
    ensures Notifies(s, t) && (a.NotifyAll? || a.NotifyOne?) && a.t == t
  {
  }

  // ---------------------------------------------------------------- no lost wake-up

  /** If a thread sleeps although it could go on, someone is still about to notify. */
  ghost predicate NoLostWakeUp(s: System) {
    (exists t :: Sleeps(s, t) && !Blocked(s, s.threads[t].op)) ==> exists u :: Notifies(s, u)
  }

  predicate NotifiesAll(actions: seq<Action>) {
    forall i :: 0 <= i < |actions| ==> !actions[i].NotifyOne?
  }

  /** Windows: any number of posting and fetching threads. */
  lemma {:induction false} WakeAllLosesNothing(size: nat, actions: seq<Action>)
    requires NotifiesAll(actions)
    ensures NoLostWakeUp(Run(Initial(size), actions))
  {
    if actions != [] {
      var s, a := Run(Initial(size), DropLast(actions)), actions[|actions| - 1];
      WakeAllLosesNothing(size, DropLast(actions));
      StepLosesNothing(s, a);
    }
  }

  lemma StepLosesNothing(s: System, a: Action)
    requires NoLostWakeUp(s) && !a.NotifyOne?
    ensures NoLostWakeUp(Apply(s, a))
  {
    var s' := Apply(s, a);
    if Enabled(s, a) {
      match a
      case Acquire(t) =>
        if Blocked(s, s.threads[t].op) {
          KeepsNotifiers(s, s', t);
        } else {
          assert Notifies(s', t);
        }
      case TimeOut(t) => assert Notifies(s', t);
      case Call(t, _) => KeepsNotifiers(s, s', t);
      case WakeUp(t) => KeepsNotifiers(s, s', t);
      case NotifyAll(t) => assert forall u :: !Sleeps(s', u);
    }
  }

  /** A step of a thread that neither notifies nor becomes a sleeper that could go on. */
  lemma KeepsNotifiers(s: System, s': System, t: nat)
    requires NoLostWakeUp(s) && !Notifies(s, t)
    requires s'.contents == s.contents && s'.size == s.size
    requires forall u :: u != t ==> (u in s.threads <==> u in s'.threads)
    requires forall u :: u != t && u in s.threads ==> s'.threads[u] == s.threads[u]
    requires Sleeps(s', t) ==> Blocked(s', s'.threads[t].op)
    ensures NoLostWakeUp(s')
  {
    if v :| Sleeps(s', v) && !Blocked(s', s'.threads[v].op) {
      assert Sleeps(s, v) && !Blocked(s, s.threads[v].op);
      var u :| Notifies(s, u);
      assert Notifies(s', u);
    }
  }

  /** Nobody can take a step of their own any more: all that is left is asleep. */
  predicate Quiescent(s: System) {
    forall t :: t in s.threads ==> s.threads[t].Asleep?
  }

  /** So when everything has come to rest, sleepers wait rightly, and never fetchers for
      posters and posters for fetchers at the same time. */
  lemma RestMeansBlocked(size: nat, actions: seq<Action>)
    requires NotifiesAll(actions) && Quiescent(Run(Initial(size), actions))
    ensures var s := Run(Initial(size), actions);
            && (forall t :: t in s.threads ==> Blocked(s, s.threads[t].op))
            && (size > 0 ==> forall t, u :: t in s.threads && u in s.threads ==>
                               s.threads[t].op.Fetch? == s.threads[u].op.Fetch?)
  {
    WakeAllLosesNothing(size, actions);
    MessagesInOrder(size, actions);
    var s := Run(Initial(size), actions);
    assert forall u :: !Notifies(s, u);
    forall t | t in s.threads ensures Blocked(s, s.threads[t].op) {
      assert Sleeps(s, t);
    }
  }

  // ---------------------------------------------------------------- waking one at a time

  predicate OnlyRoles(a: Action, poster: nat, fetcher: nat) {
    a.Call? ==> if a.op.Post? then a.t == poster else a.t == fetcher
  }

  /** One thread that posts, another that fetches. */
  predicate OneOfEach(actions: seq<Action>, poster: nat, fetcher: nat) {
    poster != fetcher && forall i :: 0 <= i < |actions| ==> OnlyRoles(actions[i], poster, fetcher)
  }

  predicate InRoles(s: System, poster: nat, fetcher: nat) {
    forall t :: t in s.threads ==>
      && (t == poster || t == fetcher)
      && (!s.threads[t].Notifying? ==> (t == poster <==> s.threads[t].op.Post?))
  }

  /** Linux: waking a single thread is enough for one poster and one fetcher. */
  lemma {:induction false} WakeOneServesAPair(size: nat, actions: seq<Action>, poster: nat, fetcher: nat)
    requires OneOfEach(actions, poster, fetcher)
    ensures NoLostWakeUp(Run(Initial(size), actions)) && InRoles(Run(Initial(size), actions), poster, fetcher)
  {
    if actions != [] {
      var s, a := Run(Initial(size), DropLast(actions)), actions[|actions| - 1];
      WakeOneServesAPair(size, DropLast(actions), poster, fetcher);
      StepInRoles(s, a, poster, fetcher);
      if a.NotifyOne? {
        StepServesAPair(s, a, poster, fetcher);
      } else {
        StepLosesNothing(s, a);
      }
    }
  }

  lemma StepInRoles(s: System, a: Action, poster: nat, fetcher: nat)
    requires poster != fetcher && InRoles(s, poster, fetcher) && OnlyRoles(a, poster, fetcher)
    ensures InRoles(Apply(s, a), poster, fetcher)
  {
  }

  lemma StepServesAPair(s: System, a: Action, poster: nat, fetcher: nat)
    requires poster != fetcher && InRoles(s, poster, fetcher)
    requires NoLostWakeUp(s) && a.NotifyOne?
    ensures NoLostWakeUp(Apply(s, a))
  {
    var s' := Apply(s, a);
    if Enabled(s, a) {
      assert forall u :: Sleeps(s', u) ==> Sleeps(s, u);
      assert forall u :: !Sleeps(s', u);
    }
  }
}

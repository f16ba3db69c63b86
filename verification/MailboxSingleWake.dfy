/** The Linux port wakes one thread per notification, although posters and fetchers wait on
    the same condition variable. When is that enough? */
module MailboxSingleWake {
  import opened Basics
  import opened MailboxThreads

  /** Which threads fetch and which post; in a calm setting no wait times out and nobody
      wakes up without a reason. */
  datatype Setting = Setting(size: nat, fetchers: set<nat>, posters: set<nat>, calm: bool)
  {
    function Callers(): set<nat> { fetchers + posters }

    /** Wake-ups come one at a time, and each thread calls only what it may. */
    predicate Allows(a: Action) {
      && !a.NotifyAll?
      && (a.Call? ==> a.t in if a.op.Fetch? then fetchers else posters)
      && (calm ==> !a.TimeOut? && !a.WakeUp?)
    }
  }

  predicate AllAllowed(g: Setting, actions: seq<Action>) {
    forall i :: 0 <= i < |actions| ==> g.Allows(actions[i])
  }

  /** `s` is reached by allowed actions from an empty mailbox. */
  ghost predicate Reachable(g: Setting, s: System) {
    exists actions :: AllAllowed(g, actions) && Run(Initial(g.size), actions) == s
  }

  /** Lost for good: everyone inside is asleep, and one of them wrongly. */
  ghost predicate Stuck(s: System) {
    Quiescent(s) && exists t :: Sleeps(s, t) && !Blocked(s, s.threads[t].op)
  }

  ghost predicate GetsStuck(g: Setting) {
    exists s :: Reachable(g, s) && Stuck(s)
  }

  /** Waking one at a time is enough exactly if nobody can be waited for, or if there is at
      most one thread more than the mailbox has places. Time-outs and spurious wake-ups make
      no difference. */
  lemma SingleWakeExactly(g: Setting)
    ensures GetsStuck(g)
            <==> g.size > 0 && g.fetchers != {} && g.posters != {} && |g.Callers()| > g.size + 1
  {
    if g.size > 0 && g.fetchers != {} && g.posters != {} && |g.Callers()| > g.size + 1 {
      ManyThreadsGetStuck(g);
    } else if s :| Reachable(g, s) && Stuck(s) {
      var actions :| AllAllowed(g, actions) && Run(Initial(g.size), actions) == s;
      MessagesInOrder(g.size, actions);
      if g.size > 0 && |g.Callers()| <= g.size + 1 {
        FewThreadsAreSafe(g, actions);
        SafeIsNotStuck(s);
      } else if g.size > 0 {
        OneSideIsSafe(g, g.posters == {}, actions);
      }
      assert false;
    }
  }

  // ---------------------------------------------------------------- enough

  /** What a fetcher, or else a poster, needs one of: a message, or a free place. */
  function Units(s: System, fetch: bool): int {
    if fetch then |s.contents| else s.size - |s.contents|
  }

  predicate SleepsOn(s: System, fetch: bool, t: nat) {
    Sleeps(s, t) && s.threads[t].op.Fetch? == fetch
  }

  ghost predicate SomeoneSleepsOn(s: System, fetch: bool) {
    exists t :: SleepsOn(s, fetch, t)
  }

  predicate Comes(pc: Pc, fetch: bool) {
    pc.Notifying? || (!pc.Asleep? && pc.op.Fetch? == fetch)
  }

  /** Threads that will notify, or look at the mailbox from this side. */
  function OnTheWay(s: System, fetch: bool): set<nat> {
    set t | t in s.threads && Comes(s.threads[t], fetch)
  }

  /** While anyone sleeps on a side, each unit there has a thread on the way. */
  ghost predicate Covered(s: System, fetch: bool) {
    SomeoneSleepsOn(s, fetch) ==> Units(s, fetch) <= |OnTheWay(s, fetch)|
  }

  ghost predicate Safe(s: System) {
    Covered(s, true) && Covered(s, false) && !(SomeoneSleepsOn(s, true) && SomeoneSleepsOn(s, false))
  }

  /** With at most one thread more than places, whatever each of them does, there is always
      a thread on the way for each unit a sleeper could have. */
  lemma {:induction false} FewThreadsAreSafe(g: Setting, actions: seq<Action>)
    requires |g.Callers()| <= g.size + 1 && AllAllowed(g, actions)
    ensures var s := Run(Initial(g.size), actions);
            Safe(s) && s.threads.Keys <= g.Callers() && s.size == g.size
  {
    if actions != [] {
      var s, a := Run(Initial(g.size), DropLast(actions)), actions[|actions| - 1];
      FewThreadsAreSafe(g, DropLast(actions));
      MessagesInOrder(g.size, DropLast(actions));
      if Enabled(s, a) {
        StepIsSafe(s, a, g.Callers());
      }
    }
  }

  lemma StepIsSafe(s: System, a: Action, threads: set<nat>)
    requires Safe(s) && s.threads.Keys <= threads && |threads| <= s.size + 1 && |s.contents| <= s.size
    requires Enabled(s, a) && !a.NotifyAll?
    ensures Safe(Apply(s, a))
  {
    match a
    case Call(t, op) => OneMoves(s, Apply(s, a), t, true); OneMoves(s, Apply(s, a), t, false);
    case Acquire(t) => AcquireIsSafe(s, t, threads);
    case TimeOut(t) => OneMoves(s, Apply(s, a), t, true); OneMoves(s, Apply(s, a), t, false);
    case WakeUp(t) => OneMoves(s, Apply(s, a), t, true); OneMoves(s, Apply(s, a), t, false);
    case NotifyOne(t, chosen) => NotifyIsSafe(s, t, chosen);
  }

  /** Only thread `t` has moved from `s` to `s'`. */
  predicate OnlyMoves(s: System, s': System, t: nat) {
    && s'.size == s.size
    && t in s'.threads && s'.threads.Keys == s.threads.Keys + {t}
    && forall u :: u in s.threads && u != t ==> s'.threads[u] == s.threads[u]
  }

  lemma OneMoves(s: System, s': System, t: nat, fetch: bool)
    requires OnlyMoves(s, s', t)
    ensures var before := t in s.threads && Comes(s.threads[t], fetch);
            var now := Comes(s'.threads[t], fetch);
            |OnTheWay(s', fetch)| == |OnTheWay(s, fetch)| + (if now then 1 else 0) - (if before then 1 else 0)
    ensures SomeoneSleepsOn(s', fetch) ==> SomeoneSleepsOn(s, fetch) || SleepsOn(s', fetch, t)
  {
    WayOfMover(s, s', t, fetch);
    OneDiffers(OnTheWay(s, fetch), OnTheWay(s', fetch), t);
    if SomeoneSleepsOn(s', fetch) && !SleepsOn(s', fetch, t) {
      var u :| SleepsOn(s', fetch, u);
      assert SleepsOn(s, fetch, u);
    }
  }

  lemma WayOfMover(s: System, s': System, t: nat, fetch: bool)
    requires OnlyMoves(s, s', t)
    ensures t in OnTheWay(s, fetch) <==> t in s.threads && Comes(s.threads[t], fetch)
    ensures t in OnTheWay(s', fetch) <==> Comes(s'.threads[t], fetch)
    ensures forall u :: u != t ==> (u in OnTheWay(s', fetch) <==> u in OnTheWay(s, fetch))
  {
    forall u | u != t ensures u in OnTheWay(s', fetch) <==> u in OnTheWay(s, fetch) {
      assert u in s'.threads <==> u in s.threads;
    }
  }

  lemma OneDiffers(a: set<nat>, b: set<nat>, t: nat)
    requires forall u :: u != t ==> (u in b <==> u in a)
    ensures |b| == |a| + (if t in b then 1 else 0) - (if t in a then 1 else 0)
  {
    assert a - {t} == b - {t};
    assert t in a ==> |a - {t}| == |a| - 1;
    assert t in b ==> |b - {t}| == |b| - 1;
    assert t !in a ==> a - {t} == a;
    assert t !in b ==> b - {t} == b;
  }

  lemma AcquireIsSafe(s: System, t: nat, threads: set<nat>)
    requires Safe(s) && s.threads.Keys <= threads && |threads| <= s.size + 1 && |s.contents| <= s.size
    requires Enabled(s, Acquire(t))
    ensures Safe(Apply(s, Acquire(t)))
  {
    var s', fetch := Apply(s, Acquire(t)), s.threads[t].op.Fetch?;
    OneMoves(s, s', t, fetch);
    OneMoves(s, s', t, !fetch);
    if Blocked(s, s.threads[t].op) && SomeoneSleepsOn(s, !fetch) {
      var u :| SleepsOn(s, !fetch, u);
      // all units of the other side are there, each with a thread on the way to it
      var way := OnTheWay(s, !fetch);
      assert way + {t} + {u} <= threads && t !in way && u !in way + {t};
      assert |way + {t} + {u}| == |way| + 2;
      FewerThan(way + {t} + {u}, threads);
      assert false;
    }
  }

  lemma NotifyIsSafe(s: System, t: nat, chosen: nat)
    requires Safe(s) && Enabled(s, NotifyOne(t, chosen))
    ensures Safe(Apply(s, NotifyOne(t, chosen)))
  {
    var s' := Apply(s, NotifyOne(t, chosen));
    if Sleeps(s, chosen) {
      var fetch := s.threads[chosen].op.Fetch?;
      assert SleepsOn(s, fetch, chosen);
      assert OnTheWay(s', fetch) == OnTheWay(s, fetch) - {t} + {chosen};
    }
    forall side, u | SleepsOn(s', side, u) ensures SleepsOn(s, side, u) {}
  }

  lemma FewerThan(a: set<nat>, b: set<nat>)
    requires a <= b
    ensures |a| <= |b|
  {
    assert b == a + (b - a);
  }

  lemma SafeIsNotStuck(s: System)
    requires Safe(s) && |s.contents| <= s.size && Quiescent(s)
    ensures forall t :: Sleeps(s, t) ==> Blocked(s, s.threads[t].op)
  {
    forall t | Sleeps(s, t) ensures Blocked(s, s.threads[t].op) {
      var fetch := s.threads[t].op.Fetch?;
      assert SleepsOn(s, fetch, t);
      assert OnTheWay(s, fetch) == {};
    }
  }

  /** With callers on one side only, nobody ever sleeps wrongly. */
  ghost predicate OneSided(s: System, fetch: bool) {
    && (forall t :: t in s.threads && !s.threads[t].Notifying? ==> s.threads[t].op.Fetch? == fetch)
    && (forall t :: Sleeps(s, t) ==> Blocked(s, s.threads[t].op))
    && (fetch ==> s.contents == [])
  }

  lemma {:induction false} OneSideIsSafe(g: Setting, fetch: bool, actions: seq<Action>)
    requires AllAllowed(g, actions) && (if fetch then g.posters == {} else g.fetchers == {})
    ensures OneSided(Run(Initial(g.size), actions), fetch)
  {
    if actions != [] {
      OneSideIsSafe(g, fetch, DropLast(actions));
      assert g.Allows(actions[|actions| - 1]);
      StepOneSided(Run(Initial(g.size), DropLast(actions)), Last(actions), fetch);
    }
  }

  lemma StepOneSided(s: System, a: Action, fetch: bool)
    requires OneSided(s, fetch) && !a.NotifyAll? && (a.Call? ==> a.op.Fetch? == fetch)
    ensures OneSided(Apply(s, a), fetch)
  {
  }

  // ---------------------------------------------------------------- not enough

  /** How many messages there are, and which threads are where. */
  datatype Scene = Scene(
    messages: nat,
    fetchersAsleep: set<nat>,
    fetchersWoken: set<nat>,
    notifying: set<nat>,
    postersAsleep: set<nat>)
  {
    function Inside(): set<nat> { fetchersAsleep + fetchersWoken + notifying + postersAsleep }

    predicate Distinct() {
      && fetchersAsleep !! fetchersWoken !! notifying !! postersAsleep
    }

    function Threads(): map<nat, Pc> {
      map t | t in Inside() ::
        if t in fetchersAsleep then Asleep(Fetch)
        else if t in fetchersWoken then Woken(Fetch)
        else if t in notifying then Notifying
        else Asleep(Post(0))
    }
  }

  ghost predicate Reaches(g: Setting, c: Scene) {
    && c.Distinct()
    && exists s :: Reachable(g, s) && Shows(g, s, c)
  }

  predicate Shows(g: Setting, s: System, c: Scene) {
    s.size == g.size && |s.contents| == c.messages && s.threads == c.Threads()
  }

  lemma Follow(g: Setting, s: System, a: Action)
    requires Reachable(g, s) && g.Allows(a)
    ensures Reachable(g, Apply(s, a))
  {
    var actions :| AllAllowed(g, actions) && Run(Initial(g.size), actions) == s;
    var longer := actions + [a];
    assert DropLast(longer) == actions && AllAllowed(g, longer);
  }

  /** Two actions in a row lead from one scene to the next. */
  lemma FollowBoth(g: Setting, c: Scene, a: Action, b: Action, next: Scene)
    requires Reaches(g, c) && g.Allows(a) && g.Allows(b) && next.Distinct()
    requires forall s :: Shows(g, s, c) ==> Shows(g, Apply(Apply(s, a), b), next)
    ensures Reaches(g, next)
  {
    var s :| Reachable(g, s) && Shows(g, s, c);
    Follow(g, s, a);
    Follow(g, Apply(s, a), b);
    assert Shows(g, Apply(Apply(s, a), b), next);
  }

  /** A thread comes in, finds itself blocked and goes to sleep. */
  lemma FetcherSleeps(g: Setting, c: Scene, t: nat)
    requires Reaches(g, c) && c.messages == 0 && t in g.fetchers - c.Inside()
    ensures Reaches(g, c.(fetchersAsleep := c.fetchersAsleep + {t}))
  {
    FollowBoth(g, c, Call(t, Fetch), Acquire(t), c.(fetchersAsleep := c.fetchersAsleep + {t}));
  }

  lemma PosterSleeps(g: Setting, c: Scene, t: nat)
    requires Reaches(g, c) && c.messages == g.size && t in g.posters - c.Inside()
    ensures Reaches(g, c.(postersAsleep := c.postersAsleep + {t}))
  {
    FollowBoth(g, c, Call(t, Post(0)), Acquire(t), c.(postersAsleep := c.postersAsleep + {t}));
  }

  /** A poster comes in and posts; its notification is still to come. */
  lemma Posts(g: Setting, c: Scene, t: nat)
    requires Reaches(g, c) && c.messages < g.size && t in g.posters - c.Inside()
    ensures Reaches(g, c.(messages := c.messages + 1, notifying := c.notifying + {t}))
  {
    FollowBoth(g, c, Call(t, Post(0)), Acquire(t), c.(messages := c.messages + 1, notifying := c.notifying + {t}));
  }

  /** Someone notifies a sleeping fetcher, who is not quick to look. */
  lemma Wakes(g: Setting, c: Scene, t: nat, f: nat)
    requires Reaches(g, c) && t in c.notifying && f in c.fetchersAsleep
    ensures Reaches(g, c.(notifying := c.notifying - {t}, fetchersAsleep := c.fetchersAsleep - {f},
                          fetchersWoken := c.fetchersWoken + {f}))
  {
    var next := c.(notifying := c.notifying - {t}, fetchersAsleep := c.fetchersAsleep - {f},
                   fetchersWoken := c.fetchersWoken + {f});
    FollowBoth(g, c, NotifyOne(t, f), NotifyOne(t, f), next);  // the second has no effect
  }

  function OneFetched(c: Scene, f: nat): Scene
    requires c.messages > 0
  {
    c.(messages := c.messages - 1, fetchersWoken := c.fetchersWoken - {f}, notifying := c.notifying + {f})
  }

  /** A woken fetcher takes a message; its notification is still to come. */
  lemma Fetches(g: Setting, c: Scene, f: nat)
    requires Reaches(g, c) && f in c.fetchersWoken && c.messages > 0
    ensures Reaches(g, OneFetched(c, f))
  {
    FollowBoth(g, c, Acquire(f), Acquire(f), OneFetched(c, f));  // the second has no effect
  }

  /** A notification goes to a thread that goes back to sleep. */
  lemma WakesInVain(g: Setting, c: Scene, t: nat, chosen: nat)
    requires Reaches(g, c) && t in c.notifying
    requires if c.messages == 0 then chosen in c.fetchersAsleep
             else c.messages == g.size && chosen in c.postersAsleep
    ensures Reaches(g, c.(notifying := c.notifying - {t}))
  {
    FollowBoth(g, c, NotifyOne(t, chosen), Acquire(chosen), c.(notifying := c.notifying - {t}));
  }

  /** Fetchers come to the empty mailbox and go to sleep. */
  lemma {:induction false} FetchersSleep(g: Setting, c: Scene, fs: set<nat>)
    requires Reaches(g, c) && c.messages == 0 && fs <= g.fetchers - c.Inside()
    ensures Reaches(g, c.(fetchersAsleep := c.fetchersAsleep + fs))
    decreases fs
  {
    if f :| f in fs {
      FetcherSleeps(g, c, f);
      assert c.fetchersAsleep + fs == c.fetchersAsleep + {f} + (fs - {f});
      FetchersSleep(g, c.(fetchersAsleep := c.fetchersAsleep + {f}), fs - {f});
    } else {
      assert c.fetchersAsleep + fs == c.fetchersAsleep;
    }
  }

  function AllWoken(c: Scene, fs: set<nat>): Scene {
    c.(messages := c.messages + |fs|, fetchersAsleep := c.fetchersAsleep - fs, fetchersWoken := c.fetchersWoken + fs)
  }

  function OneWoken(c: Scene, f: nat): Scene {
    c.(messages := c.messages + 1, fetchersAsleep := c.fetchersAsleep - {f}, fetchersWoken := c.fetchersWoken + {f})
  }

  /** One poster wakes sleeping fetchers, who are not quick to look. */
  lemma {:induction false} PosterWakesMany(g: Setting, c: Scene, poster: nat, fs: set<nat>)
    requires Reaches(g, c) && c.notifying == {} && fs <= c.fetchersAsleep
    requires c.messages + |fs| <= g.size && poster in g.posters && poster !in c.Inside()
    ensures Reaches(g, AllWoken(c, fs))
    decreases fs
  {
    if f :| f in fs {
      OneMoreWoken(c, f, fs);
      PostAndWake(g, c, poster, f);
      PosterWakesMany(g, OneWoken(c, f), poster, fs - {f});
    } else {
      assert AllWoken(c, fs) == c;
    }
  }

  lemma OneMoreWoken(c: Scene, f: nat, fs: set<nat>)
    requires f in fs && fs <= c.fetchersAsleep
    ensures |fs| == |fs - {f}| + 1
    ensures var next := OneWoken(c, f);
            && AllWoken(next, fs - {f}) == AllWoken(c, fs) && next.Inside() == c.Inside()
            && fs - {f} <= next.fetchersAsleep
  {
  }

  lemma PostAndWake(g: Setting, c: Scene, poster: nat, f: nat)
    requires Reaches(g, c) && c.notifying == {} && f in c.fetchersAsleep
    requires c.messages < g.size && poster in g.posters && poster !in c.Inside()
    ensures Reaches(g, OneWoken(c, f))
  {
    Posts(g, c, poster);
    Wakes(g, c.(messages := c.messages + 1, notifying := c.notifying + {poster}), poster, f);
    assert c.notifying + {poster} - {poster} == c.notifying;
  }

  function AllPosted(c: Scene, ps: set<nat>): Scene {
    c.(messages := c.messages + |ps|, notifying := c.notifying + ps)
  }

  lemma OneMorePosted(c: Scene, p: nat, ps: set<nat>)
    requires p in ps
    ensures |ps| == |ps - {p}| + 1
    ensures AllPosted(AllPosted(c, {p}), ps - {p}) == AllPosted(c, ps)
    ensures ps !! c.Inside() ==> ps - {p} !! AllPosted(c, {p}).Inside()
  {
  }

  /** Posters fill up the mailbox, and have yet to notify. */
  lemma {:induction false} PostersPost(g: Setting, c: Scene, ps: set<nat>)
    requires Reaches(g, c) && ps <= g.posters && ps !! c.Inside() && c.messages + |ps| <= g.size
    ensures Reaches(g, AllPosted(c, ps))
    decreases ps
  {
    if p :| p in ps {
      OneMorePosted(c, p, ps);
      Posts(g, c, p);
      PostersPost(g, AllPosted(c, {p}), ps - {p});
    } else {
      assert AllPosted(c, ps) == c;
    }
  }

  function AllFetched(c: Scene, fs: set<nat>): Scene
    requires |fs| <= c.messages
  {
    c.(messages := c.messages - |fs|, fetchersWoken := c.fetchersWoken - fs, notifying := c.notifying + fs)
  }

  lemma OneMoreFetched(c: Scene, f: nat, fs: set<nat>)
    requires f in fs && |fs| <= c.messages && fs <= c.fetchersWoken
    ensures |fs| == |fs - {f}| + 1
    ensures var next := OneFetched(c, f);
            && fs - {f} <= next.fetchersWoken && |fs - {f}| <= next.messages
            && AllFetched(next, fs - {f}) == AllFetched(c, fs)
  {
    assert |fs| == |fs - {f}| + 1;
  }

  /** Woken fetchers empty the mailbox, and have yet to notify. */
  lemma {:induction false} FetchersFetch(g: Setting, c: Scene, fs: set<nat>)
    requires Reaches(g, c) && fs <= c.fetchersWoken && |fs| <= c.messages
    ensures Reaches(g, AllFetched(c, fs))
    decreases fs
  {
    if f :| f in fs {
      OneMoreFetched(c, f, fs);
      Fetches(g, c, f);
      FetchersFetch(g, OneFetched(c, f), fs - {f});
    } else {
      assert AllFetched(c, fs) == c;
    }
  }

  /** All notifications under way go to a thread that goes back to sleep. */
  lemma AllWakeInVain(g: Setting, c: Scene, chosen: nat)
    requires Reaches(g, c)
    requires if c.messages == 0 then chosen in c.fetchersAsleep
             else c.messages == g.size && chosen in c.postersAsleep
    ensures Reaches(g, c.(notifying := {}))
  {
    var left := c.notifying;
    while left != {}
      invariant left <= c.notifying && Reaches(g, c.(notifying := left))
      decreases left
    {
      var t :| t in left;
      WakesInVain(g, c.(notifying := left), t, chosen);
      left := left - {t};
    }
  }

  /** The mailbox is full, a fetcher and a poster sleep on the same condition variable, and
      the other fetchers are woken. */
  lemma BothSidesSleep(g: Setting, fetcher: nat, poster: nat)
    requires g.size > 0 && g.fetchers !! g.posters && |g.Callers()| == g.size + 2
    requires fetcher in g.fetchers && poster in g.posters
    ensures Reaches(g, Scene(g.size, {fetcher}, g.fetchers - {fetcher}, {}, {poster}))
  {
    var fs, ps := g.fetchers - {fetcher}, g.posters - {poster};
    assert |fs| + |ps| == g.size by {
      assert |g.Callers()| == |g.fetchers| + |g.posters|;
    }
    OthersReady(g, fetcher, poster);
    var c := Scene(g.size, {fetcher}, fs, ps, {});
    PosterSleeps(g, c, poster);
    assert {} + {poster} == {poster};
    AllWakeInVain(g, c.(postersAsleep := {poster}), poster);
  }

  lemma OthersReady(g: Setting, fetcher: nat, poster: nat)
    requires g.fetchers !! g.posters && fetcher in g.fetchers && poster in g.posters
    requires |g.fetchers - {fetcher}| + |g.posters - {poster}| == g.size
    ensures Reaches(g, Scene(g.size, {fetcher}, g.fetchers - {fetcher}, g.posters - {poster}, {}))
  {
    var fs, ps := g.fetchers - {fetcher}, g.posters - {poster};
    FetchersReady(g, fetcher, poster);
    var c := Scene(|fs|, {fetcher}, fs, {}, {});
    assert ps !! c.Inside();
    PostersPost(g, c, ps);
    assert AllPosted(c, ps) == Scene(g.size, {fetcher}, fs, ps, {});
  }

  lemma FetchersReady(g: Setting, fetcher: nat, poster: nat)
    requires g.fetchers !! g.posters && fetcher in g.fetchers && poster in g.posters
    requires |g.fetchers - {fetcher}| <= g.size
    ensures Reaches(g, Scene(|g.fetchers - {fetcher}|, {fetcher}, g.fetchers - {fetcher}, {}, {}))
  {
    var fs := g.fetchers - {fetcher};
    var none, asleep := Scene(0, {}, {}, {}, {}), Scene(0, g.fetchers, {}, {}, {});
    NobodyInside(g);
    FetchersSleep(g, none, g.fetchers);
    assert none.(fetchersAsleep := {} + g.fetchers) == asleep;
    PosterWakesMany(g, asleep, poster, fs);
    assert AllWoken(asleep, fs) == Scene(|fs|, {fetcher}, fs, {}, {});
  }

  lemma NobodyInside(g: Setting)
    ensures Reaches(g, Scene(0, {}, {}, {}, {}))
  {
    assert AllAllowed(g, []) && Run(Initial(g.size), []) == Initial(g.size);
    assert Shows(g, Initial(g.size), Scene(0, {}, {}, {}, {}));
  }

  /** With a second poster to fill up again, each woken fetcher takes a message and notifies
      in vain. */
  lemma {:induction false} FetchersLeave(g: Setting, c: Scene, poster: nat, second: nat)
    requires Reaches(g, c) && c.messages == g.size > 0 && c.notifying == {}
    requires poster in c.postersAsleep && second in g.posters - c.Inside()
    ensures Reaches(g, c.(fetchersWoken := {}))
    decreases c.fetchersWoken
  {
    if f :| f in c.fetchersWoken {
      Fetches(g, c, f);
      var next := OneFetched(c, f);
      Posts(g, next, second);
      AllWakeInVain(g, next.(messages := g.size, notifying := next.notifying + {second}), poster);
      FetchersLeave(g, c.(fetchersWoken := c.fetchersWoken - {f}), poster, second);
    }
  }

  /** Otherwise the woken fetchers empty the mailbox, and then notify in vain. */
  lemma FetchersEmpty(g: Setting, fetcher: nat, poster: nat, fs: set<nat>)
    requires |fs| == g.size
    requires Reaches(g, Scene(g.size, {fetcher}, fs, {}, {poster}))
    ensures Reaches(g, Scene(0, {fetcher}, {}, {}, {poster}))
  {
    FetchersFetch(g, Scene(g.size, {fetcher}, fs, {}, {poster}), fs);
    assert fs - fs == {} && {} + fs == fs;
    AllWakeInVain(g, Scene(0, {fetcher}, {}, fs, {poster}), fetcher);
  }

  /** One fetcher and one poster are asleep, and one of them could go on. */
  lemma SceneIsStuck(g: Setting, c: Scene)
    requires Reaches(g, c) && c.fetchersWoken == c.notifying == {}
    requires c.fetchersAsleep != {} && c.postersAsleep != {} && g.size > 0
    ensures GetsStuck(g)
  {
    var s :| Reachable(g, s) && Shows(g, s, c);
    var f, p :| f in c.fetchersAsleep && p in c.postersAsleep;
    assert Sleeps(s, f) && Sleeps(s, p);
  }

  lemma TightGetsStuck(g: Setting)
    requires g.size > 0 && g.fetchers != {} && g.posters != {}
    requires g.fetchers !! g.posters && |g.Callers()| == g.size + 2
    ensures GetsStuck(g)
  {
    var fetcher, poster :| fetcher in g.fetchers && poster in g.posters;
    BothSidesSleep(g, fetcher, poster);
    if second :| second in g.posters - {poster} {
      FetchersLeave(g, Scene(g.size, {fetcher}, g.fetchers - {fetcher}, {}, {poster}), poster, second);
      SceneIsStuck(g, Scene(g.size, {fetcher}, {}, {}, {poster}));
    } else {
      OnePoster(g, fetcher, poster);
      FetchersEmpty(g, fetcher, poster, g.fetchers - {fetcher});
      SceneIsStuck(g, Scene(0, {fetcher}, {}, {}, {poster}));
    }
  }

  lemma OnePoster(g: Setting, fetcher: nat, poster: nat)
    requires g.fetchers !! g.posters && |g.Callers()| == g.size + 2
    requires fetcher in g.fetchers && g.posters - {poster} == {} && poster in g.posters
    ensures |g.fetchers - {fetcher}| == g.size
  {
    assert g.posters == {poster};
    assert |g.Callers()| == |g.fetchers| + |g.posters|;
  }

  /** More threads can do what fewer do. */
  lemma MoreCallers(g: Setting, h: Setting)
    requires GetsStuck(h) && h.size == g.size && h.fetchers <= g.fetchers && h.posters <= g.posters
    requires h.calm
    ensures GetsStuck(g)
  {
    var s :| Reachable(h, s) && Stuck(s);
    var actions :| AllAllowed(h, actions) && Run(Initial(h.size), actions) == s;
    forall i | 0 <= i < |actions| ensures g.Allows(actions[i]) {
      assert h.Allows(actions[i]);
    }
    assert AllAllowed(g, actions);
  }

  lemma ManyThreadsGetStuck(g: Setting)
    requires g.size > 0 && g.fetchers != {} && g.posters != {} && |g.Callers()| > g.size + 1
    ensures GetsStuck(g)
  {
    var f, p := OneOfEach(g);
    var fs, ps := Choose(g, f, p);
    var h := Setting(g.size, fs, ps, true);
    TightGetsStuck(h);
    MoreCallers(g, h);
  }

  lemma OneOfEach(g: Setting) returns (f: nat, p: nat)
    requires g.fetchers != {} && g.posters != {} && |g.Callers()| > 1
    ensures f in g.fetchers && p in g.posters && f != p
  {
    f :| f in g.fetchers;
    p :| p in g.posters;
    if f == p {
      var t := Another(g.Callers(), {f});
      if t in g.fetchers { f := t; } else { p := t; }
    }
  }

  lemma Another(a: set<nat>, b: set<nat>) returns (t: nat)
    requires |b| < |a|
    ensures t in a && t !in b
  {
    if a <= b {
      FewerThan(a, b);
    }
    t :| t in a && t !in b;
  }

  /** As many callers as are needed, each on one side, with `f` and `p` among them. */
  lemma Choose(g: Setting, f: nat, p: nat) returns (fs: set<nat>, ps: set<nat>)
    requires f in g.fetchers && p in g.posters && f != p && |g.Callers()| > g.size + 1
    ensures {f} <= fs <= g.fetchers && {p} <= ps <= g.posters && fs !! ps
    ensures |fs + ps| == g.size + 2
  {
    fs, ps := {f}, {p};
    while |fs + ps| < g.size + 2
      invariant {f} <= fs <= g.fetchers && {p} <= ps <= g.posters && fs !! ps
      invariant |fs + ps| <= g.size + 2
    {
      var t := Another(g.Callers(), fs + ps);
      assert fs + {t} + ps == fs + ps + {t} == fs + (ps + {t});
      if t in g.fetchers { fs := fs + {t}; } else { ps := ps + {t}; }
    }
  }
}

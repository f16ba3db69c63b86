/** What never gets lost in a CPM run: buffers, start and stop indications, the timer. */
module CpmAccounting {
  import opened Basics
  import opened CpmModel
  import opened CpmRuns

  // ---------------------------------------------------------------- buffers

  function Held(o: Option<Buffer>): multiset<Buffer> {
    if o.Some? then multiset{o.value} else multiset{}
  }

  function Slots(s: Cpm): multiset<Buffer> {
    Held(s.bufferCpm) + Held(s.bufferApp)
  }

  /** Every buffer received is either in a slot or has been freed. */
  predicate Conserved(s: Cpm) {
    multiset(s.env.received) == multiset(s.env.freed) + Slots(s)
  }

  function FramesOf(es: seq<Event>): seq<Buffer> {
    if es == [] then []
    else FramesOf(DropLast(es)) + (if Last(es).Frame? then [Last(es).a.buf] else [])
  }

  predicate NeverCloses(es: seq<Event>) {
    forall i :: 0 <= i < |es| ==> !es[i].Close?
  }

  lemma {:induction false} RunConserves(z: Cpm, es: seq<Event>)
    requires Conserved(z) && NeverCloses(es)
    ensures Conserved(After(z, es))
    ensures After(z, es).env.received == z.env.received + FramesOf(es)
  {
    if es != [] {
      RunConserves(z, DropLast(es));
      StepConserves(After(z, DropLast(es)), Last(es));
    }
  }

  lemma StepConserves(s: Cpm, e: Event)
    requires Conserved(s) && !e.Close?
    ensures Conserved(Step(s, e))
    ensures Step(s, e).env.received == s.env.received + (if e.Frame? then [e.a.buf] else [])
  {
    if e.Frame? {
      FrameConserves(s, e.a);
    } else {
      OthersMoveNothing(s, e);
    }
  }

  lemma FrameConserves(s: Cpm, a: Arrival)
    requires Conserved(s)
    ensures Conserved(OnFrame(s, a)) && OnFrame(s, a).env.received == s.env.received + [a.buf]
  {
    FrameBuffers(s, a);
    OneMore(s.env, s.bufferCpm, s.bufferApp, a.buf);
    if Accepts(s, a) {
      assert Slots(OnFrame(s, a)) == multiset{a.buf} + Held(s.bufferApp);
    } else {
      assert Slots(OnFrame(s, a)) == Slots(s);
    }
  }

  lemma OthersMoveNothing(s: Cpm, e: Event)
    requires !e.Frame? && !e.Close?
    ensures var t := Step(s, e);
            && t.env.freed == s.env.freed && t.env.received == s.env.received
            && ((t.bufferCpm, t.bufferApp) == (s.bufferCpm, s.bufferApp)
                || (t.bufferCpm, t.bufferApp) == (s.bufferApp, s.bufferCpm))
  {
  }

  lemma FrameBuffers(s: Cpm, a: Arrival)
    ensures var t := OnFrame(s, a);
            && t.env.received == s.env.received + [a.buf]
            && t.bufferApp == s.bufferApp
            && t.bufferCpm == (if Accepts(s, a) then Some(a.buf) else s.bufferCpm)
            && t.env.freed == s.env.Free(if Accepts(s, a) then s.bufferCpm else Some(a.buf)).freed
  {
  }

  lemma OneMore(env: Env, cpm: Option<Buffer>, app: Option<Buffer>, b: Buffer)
    requires multiset(env.received) == multiset(env.freed) + (Held(cpm) + Held(app))
    ensures multiset(env.received + [b]) == multiset(env.Free(cpm).freed) + (multiset{b} + Held(app))
    ensures multiset(env.received + [b]) == multiset(env.Free(Some(b)).freed) + (Held(cpm) + Held(app))
  {
    FreeAdds(env, cpm);
    FreeAdds(env, Some(b));
  }

  lemma FreeAdds(env: Env, o: Option<Buffer>)
    ensures multiset(env.Free(o).freed) == multiset(env.freed) + Held(o)
  {
  }

  predicate NoRepeats(s: seq<Buffer>) {
    forall i, j :: 0 <= i < j < |s| ==> s[i] != s[j]
  }

  lemma {:induction false} NoRepeatsCounts(s: seq<Buffer>, b: Buffer)
    requires NoRepeats(s)
    ensures multiset(s)[b] <= 1
  {
    if s != [] {
      NoRepeatsCounts(DropLast(s), b);
      assert s == DropLast(s) + [Last(s)];
    }
  }

  /** Buffer conservation. Starting from an instance without buffers, at every moment the
      frames received and not yet freed are exactly those in the two slots; when the
      receive path uses a distinct buffer for each frame, the slots never share a buffer,
      never hold a freed one, and nothing is freed twice. */
  lemma {:induction false} BufferConservation(z: Cpm, es: seq<Event>)
    requires z.bufferCpm.None? && z.bufferApp.None? && z.env.received == z.env.freed == []
    requires NeverCloses(es)
    ensures var s := After(z, es);
            && s.env.received == FramesOf(es)
            && multiset(FramesOf(es)) == multiset(s.env.freed) + Slots(s)
            && |FramesOf(es)| - |s.env.freed| == |Slots(s)| <= 2
            && (NoRepeats(FramesOf(es)) ==>
                  && (s.bufferCpm.Some? ==> s.bufferCpm != s.bufferApp && s.bufferCpm.value !in s.env.freed)
                  && (s.bufferApp.Some? ==> s.bufferApp.value !in s.env.freed)
                  && forall b :: multiset(s.env.freed)[b] <= 1)
  {
    RunFromEmpty(z, es);
    var s := After(z, es);
    Ledger(FramesOf(es), s.env.freed, s.bufferCpm, s.bufferApp);
  }

  lemma RunFromEmpty(z: Cpm, es: seq<Event>)
    requires z.bufferCpm.None? && z.bufferApp.None? && z.env.received == z.env.freed == []
    requires NeverCloses(es)
    ensures var s := After(z, es);
            && s.env.received == FramesOf(es)
            && multiset(FramesOf(es)) == multiset(s.env.freed) + (Held(s.bufferCpm) + Held(s.bufferApp))
  {
    RunConserves(z, es);
    assert [] + FramesOf(es) == FramesOf(es);
  }

  lemma Ledger(received: seq<Buffer>, freed: seq<Buffer>, cpm: Option<Buffer>, app: Option<Buffer>)
    requires multiset(received) == multiset(freed) + (Held(cpm) + Held(app))
    ensures |received| - |freed| == |Held(cpm) + Held(app)| <= 2
    ensures NoRepeats(received) ==>
              && (cpm.Some? ==> cpm != app && cpm.value !in freed)
              && (app.Some? ==> app.value !in freed)
              && forall b :: multiset(freed)[b] <= 1
  {
    assert |multiset(received)| == |multiset(freed)| + |Held(cpm) + Held(app)|;
    if NoRepeats(received) {
      forall b ensures multiset(freed)[b] + Held(cpm)[b] + Held(app)[b] <= 1 {
        NoRepeatsCounts(received, b);
        assert multiset(received)[b] == multiset(freed)[b] + Held(cpm)[b] + Held(app)[b];
      }
    }
  }

  /** After the close every frame ever received has been freed exactly as often as it came. */
  lemma CloseFreesEverything(z: Cpm, es: seq<Event>)
    requires z.bufferCpm.None? && z.bufferApp.None? && z.env.received == z.env.freed == []
    requires NeverCloses(es)
    ensures multiset(After(z, es + [Close]).env.freed) == multiset(FramesOf(es))
  {
    RunFromEmpty(z, es);
    CloseAdds(After(z, es));
    AfterAppend(z, es, Close);
  }

  lemma CloseAdds(s: Cpm)
    ensures multiset(OnClose(s).env.freed) == multiset(s.env.freed) + (Held(s.bufferCpm) + Held(s.bufferApp))
  {
    var env := s.env.(timers := 0);
    FreeAdds(env, s.bufferCpm);
    FreeAdds(env.Free(s.bufferCpm), s.bufferApp);
  }

  /** Close leaves the slots as they are, so a second close frees the same buffers again.
      It frees nothing more exactly when the slots were empty to begin with. */
  lemma SecondCloseFreesAgain(s: Cpm)
    ensures OnClose(OnClose(s)).env.freed == OnClose(s).env.freed
            <==> s.bufferCpm.None? && s.bufferApp.None?
  {
    var once, twice := OnClose(s).env.freed, OnClose(OnClose(s)).env.freed;
    assert |once| == |s.env.freed| + |Slots(s)|;
    assert |twice| == |once| + |Slots(s)|;
  }

  // ---------------------------------------------------------------- indications and the timer

  /** How often the instance was closed while it was running. */
  function ClosedRunning(z: Cpm, es: seq<Event>): nat {
    if es == [] then 0
    else ClosedRunning(z, DropLast(es))
         + (if Last(es).Close? && After(z, DropLast(es)).mode == Mode.Run then 1 else 0)
  }

  function Occurrences(inds: seq<Indication>, i: Indication): nat {
    if inds == [] then 0 else Occurrences(DropLast(inds), i) + (if Last(inds) == i then 1 else 0)
  }

  function CountOf(s: Cpm, i: Indication): nat {
    Occurrences(s.env.indications, i)
  }

  predicate Balanced(s: Cpm, closedRunning: nat) {
    && CountOf(s, Start) - CountOf(s, Stop) - closedRunning == (if s.mode == Mode.Run then 1 else 0)
    && s.ciRunning == (s.mode != WStart)
    && s.env.timers <= (if s.ciRunning then 1 else 0)
  }

  /** The scheduler took every timer it was asked to take. */
  predicate AlwaysScheduled(es: seq<Event>) {
    forall i :: 0 <= i < |es| && es[i].Tick? ==> es[i].rearmed
  }

  /** The instance was idle whenever it was created again. */
  predicate RecreatedIdle(z: Cpm, es: seq<Event>) {
    es == [] || (RecreatedIdle(z, DropLast(es)) && (Last(es).Create? ==> After(z, DropLast(es)).mode == WStart))
  }

  /** The account is right throughout. */
  predicate AlwaysBalanced(z: Cpm, es: seq<Event>) {
    Balanced(After(z, es), ClosedRunning(z, es)) && (es != [] ==> AlwaysBalanced(z, DropLast(es)))
  }

  /** Run accounting over every run of activations, frames, ticks, reads, closes and further
      creations: always, starts minus stops minus closes taken while running is one in RUN
      and zero otherwise, the interval runs exactly in FRUN and RUN, and there is never more
      than one pending timer. That holds exactly if the instance is created again only when
      idle, since creating does not stop the timer. Then there is exactly one timer while
      running, if the scheduler never refused to take it again. */
  lemma RunAccounting(es: seq<Event>)
    ensures AlwaysBalanced(OnCreate(ZEROED), es) <==> RecreatedIdle(OnCreate(ZEROED), es)
    ensures RecreatedIdle(OnCreate(ZEROED), es) && AlwaysScheduled(es) ==>
              TimerFollows(After(OnCreate(ZEROED), es))
  {
    RunBalances(OnCreate(ZEROED), es);
  }

  /** There is exactly one timer while running. */
  predicate TimerFollows(s: Cpm) {
    s.env.timers == (if s.ciRunning then 1 else 0)
  }

  lemma {:induction false} RunBalances(z: Cpm, es: seq<Event>)
    requires Balanced(z, 0) && TimerFollows(z)
    ensures AlwaysBalanced(z, es) <==> RecreatedIdle(z, es)
    ensures AlwaysBalanced(z, es) && AlwaysScheduled(es) ==> TimerFollows(After(z, es))
  {
    if es != [] {
      var before, e := DropLast(es), es[|es| - 1];
      RunBalances(z, before);
      assert AlwaysScheduled(es) ==> AlwaysScheduled(before) && (e.Tick? ==> e.rearmed);
      if AlwaysBalanced(z, before) {
        EventBalanced(After(z, before), e, ClosedRunning(z, before));
      }
    }
  }

  /** One event of any kind. */
  lemma EventBalanced(s: Cpm, e: Event, closedRunning: nat)
    requires Balanced(s, closedRunning)
    ensures Balanced(Step(s, e), closedRunning + (if e.Close? && s.mode == Mode.Run then 1 else 0))
            <==> (e.Create? ==> s.mode == WStart)
    ensures TimerFollows(s) && (e.Tick? ==> e.rearmed) && (e.Create? ==> s.mode == WStart) ==> TimerFollows(Step(s, e))
  {
    if e.Create? {
      RecreateNeedsIdle(s, closedRunning);
    } else {
      StepBalanced(s, e, closedRunning);
    }
  }

  lemma StepBalanced(s: Cpm, e: Event, closedRunning: nat)
    requires Balanced(s, closedRunning) && !e.Create?
    ensures Balanced(Step(s, e), closedRunning + (if e.Close? && s.mode == Mode.Run then 1 else 0))
    ensures TimerFollows(s) && (e.Tick? ==> e.rearmed) ==> TimerFollows(Step(s, e))
  {
    match e
    case Frame(a) => FrameBalanced(s, a, closedRunning);
    case Tick(rearmed) => TickBalanced(s, rearmed, closedRunning);
    case _ => CallIndicatesNothing(s, e);
  }

  lemma FrameBalanced(s: Cpm, a: Arrival, closedRunning: nat)
    requires Balanced(s, closedRunning)
    ensures Balanced(OnFrame(s, a), closedRunning)
    ensures TimerFollows(s) ==> TimerFollows(OnFrame(s, a))
  {
    FrameIndicates(s, a);
    AcceptCounts(s.env, s.mode, s.dataStatus, DataStatusOf(a.buf));
  }

  lemma TickBalanced(s: Cpm, rearmed: bool, closedRunning: nat)
    requires Balanced(s, closedRunning)
    ensures Balanced(OnTick(s, rearmed), closedRunning)
    ensures TimerFollows(s) && rearmed ==> TimerFollows(OnTick(s, rearmed))
  {
    OneMoreIndication(s.env, Stop);
  }

  lemma CallIndicatesNothing(s: Cpm, e: Event)
    requires !e.Frame? && !e.Tick?
    ensures Step(s, e).env.indications == s.env.indications
  {
  }

  lemma FrameIndicates(s: Cpm, a: Arrival)
    ensures var t := OnFrame(s, a);
            && t.ciRunning == s.ciRunning && t.env.timers == s.env.timers
            && t.mode == (if Accepts(s, a) then Mode.Run else s.mode)
            && t.env.indications == (if Accepts(s, a) then
                                       IndicateAccept(s.env, s.mode, s.dataStatus, DataStatusOf(a.buf)).indications
                                     else s.env.indications)
  {
  }

  lemma AcceptCounts(env: Env, mode: Mode, before: byte, status: byte)
    ensures var inds := IndicateAccept(env, mode, before, status).indications;
            && Occurrences(inds, Start) == Occurrences(env.indications, Start) + (if mode == FRun then 1 else 0)
            && Occurrences(inds, Stop) == Occurrences(env.indications, Stop)
  {
    var started := if mode == FRun then env.Indicate(Start) else env;
    OneMoreIndication(env, Start);
    OneMoreIndication(started, NewData);
    OneMoreIndication(started.Indicate(NewData), StatusChanged(before, status));
  }

  lemma OneMoreIndication(env: Env, i: Indication)
    ensures var inds := env.Indicate(i).indications;
            && Occurrences(inds, Start) == Occurrences(env.indications, Start) + (if i == Start then 1 else 0)
            && Occurrences(inds, Stop) == Occurrences(env.indications, Stop) + (if i == Stop then 1 else 0)
  {
    OneMoreOccurs(env.indications, i, Start);
    OneMoreOccurs(env.indications, i, Stop);
  }

  /** Creating an instance again does not stop its timer: the account stays right exactly
      when the instance was idle. */
  lemma RecreateNeedsIdle(s: Cpm, closedRunning: nat)
    requires Balanced(s, closedRunning)
    ensures Balanced(OnCreate(s), closedRunning) <==> s.mode == WStart
  {
  }

  // ---------------------------------------------------------------- data status

  /** The data status the application has been told last. */
  function Reported(start: byte, inds: seq<Indication>): byte {
    if inds == [] then start
    else if Last(inds).StatusChanged? then Last(inds).now
    else Reported(start, DropLast(inds))
  }

  /** Each status indication starts from the one reported before, and reports a change. */
  predicate Linked(start: byte, inds: seq<Indication>) {
    inds == []
    || (Linked(start, DropLast(inds))
        && (Last(inds).StatusChanged? ==>
              Last(inds).before == Reported(start, DropLast(inds)) && Last(inds).before != Last(inds).now))
  }

  lemma LinkedAppend(start: byte, inds: seq<Indication>, i: Indication)
    requires Linked(start, inds)
    requires i.StatusChanged? ==> i.before == Reported(start, inds) && i.before != i.now
    ensures Linked(start, inds + [i])
    ensures Reported(start, inds + [i]) == if i.StatusChanged? then i.now else Reported(start, inds)
  {
    assert DropLast(inds + [i]) == inds;
  }

  lemma AcceptLinks(env: Env, mode: Mode, before: byte, status: byte)
    requires Linked(0, env.indications) && Reported(0, env.indications) == before
    ensures var t := IndicateAccept(env, mode, before, status);
            Linked(0, t.indications) && Reported(0, t.indications) == status
  {
    var started := if mode == FRun then env.Indicate(Start) else env;
    LinkedAppend(0, env.indications, Start);
    LinkedAppend(0, started.indications, NewData);
    if before != status {
      LinkedAppend(0, started.indications + [NewData], StatusChanged(before, status));
    }
  }

  /** What was indicated before makes no difference to what is indicated. */
  lemma AcceptAppends(
    earlier: seq<Indication>, since: seq<Indication>, env: Env, mode: Mode, before: byte, status: byte)
    requires env.indications == earlier + since
    ensures IndicateAccept(env, mode, before, status).indications
         == earlier + IndicateAccept(env.(indications := since), mode, before, status).indications
  {
  }

  /** Of the indications given since there were `from` of them, the application knows the data
      status. */
  predicate Told(s: Cpm, from: nat) {
    && from <= |s.env.indications|
    && Linked(0, s.env.indications[from..])
    && Reported(0, s.env.indications[from..]) == s.dataStatus
  }

  lemma StepLinks(s: Cpm, e: Event, from: nat)
    requires !e.Activate? && Told(s, from)
    ensures Told(Step(s, e), from)
    ensures Step(s, e).dataStatus == if TakesFrame(s, e) then DataStatusOf(e.a.buf) else s.dataStatus
  {
    if TakesFrame(s, e) {
      FrameIndicates(s, e.a);
      AcceptTold(s.env, from, s.mode, s.dataStatus, DataStatusOf(e.a.buf));
    } else {
      OthersReportNothing(s, e);
      StopTold(s.env.indications, from);
    }
  }

  lemma AcceptTold(env: Env, from: nat, mode: Mode, before: byte, status: byte)
    requires from <= |env.indications|
    requires Linked(0, env.indications[from..]) && Reported(0, env.indications[from..]) == before
    ensures var inds := IndicateAccept(env, mode, before, status).indications;
            from <= |inds| && Linked(0, inds[from..]) && Reported(0, inds[from..]) == status
  {
    var earlier, since := env.indications[..from], env.indications[from..];
    AcceptAppends(earlier, since, env, mode, before, status);
    var now := IndicateAccept(env.(indications := since), mode, before, status).indications;
    assert (earlier + now)[from..] == now;
    AcceptLinks(env.(indications := since), mode, before, status);
  }

  lemma StopTold(inds: seq<Indication>, from: nat)
    requires from <= |inds| && Linked(0, inds[from..])
    ensures Linked(0, (inds + [Stop])[from..])
    ensures Reported(0, (inds + [Stop])[from..]) == Reported(0, inds[from..])
  {
    LinkedAppend(0, inds[from..], Stop);
    assert (inds + [Stop])[from..] == inds[from..] + [Stop];
  }

  lemma OthersReportNothing(s: Cpm, e: Event)
    requires !e.Activate? && !TakesFrame(s, e)
    ensures var t := Step(s, e);
            && t.dataStatus == s.dataStatus
            && (t.env.indications == s.env.indications || t.env.indications == s.env.indications + [Stop])
  {
  }

  /** Within one activation the application is told of every change of the data status and
      of nothing else: the indications given since link up from 0 to the status of the newest
      accepted frame, whatever was indicated before. */
  lemma {:induction false} StatusIsReported(s: Cpm, es: seq<Event>)
    requires JustActivated(s) && WithinActivation(es)
    ensures var t, accepted := After(s, es), Accepted(s, es);
            && Told(t, |s.env.indications|)
            && t.dataStatus == (if accepted == [] then 0 else DataStatusOf(Last(accepted).buf))
  {
    if es != [] {
      var before, e := DropLast(es), es[|es| - 1];
      StatusIsReported(s, before);
      StepLinks(After(s, before), e, |s.env.indications|);
      LastOfAccepted(s, es);
    }
  }

  /** And of new data exactly once for each accepted frame. */
  lemma {:induction false} NewDataIsReported(s: Cpm, es: seq<Event>)
    requires JustActivated(s) && WithinActivation(es)
    ensures CountOf(After(s, es), NewData) == CountOf(s, NewData) + |Accepted(s, es)|
  {
    if es != [] {
      var before, e := DropLast(es), es[|es| - 1];
      NewDataIsReported(s, before);
      LastOfAccepted(s, es);
      StepReportsData(After(s, before), e);
    }
  }

  lemma StepReportsData(s: Cpm, e: Event)
    requires !e.Activate?
    ensures CountOf(Step(s, e), NewData) == CountOf(s, NewData) + (if TakesFrame(s, e) then 1 else 0)
  {
    if TakesFrame(s, e) {
      FrameIndicates(s, e.a);
      AcceptCountsData(s.env, s.mode, s.dataStatus, DataStatusOf(e.a.buf));
    } else {
      OthersReportNothing(s, e);
      OneMoreOccurs(s.env.indications, Stop, NewData);
    }
  }

  lemma AcceptCountsData(env: Env, mode: Mode, before: byte, status: byte)
    ensures Occurrences(IndicateAccept(env, mode, before, status).indications, NewData)
         == Occurrences(env.indications, NewData) + 1
  {
    var started := if mode == FRun then env.Indicate(Start) else env;
    OneMoreOccurs(env.indications, Start, NewData);
    OneMoreOccurs(started.indications, NewData, NewData);
    OneMoreOccurs(started.indications + [NewData], StatusChanged(before, status), NewData);
  }

  lemma OneMoreOccurs(inds: seq<Indication>, i: Indication, j: Indication)
    ensures Occurrences(inds + [i], j) == Occurrences(inds, j) + (if i == j then 1 else 0)
  {
    assert DropLast(inds + [i]) == inds;
  }

  lemma LastOfAccepted(s: Cpm, es: seq<Event>)
    requires es != []
    ensures var before := Accepted(s, DropLast(es));
            Accepted(s, es) == if TakesFrame(After(s, DropLast(es)), Last(es)) then before + [Last(es).a] else before
  {
  }
}

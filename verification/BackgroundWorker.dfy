/** The p-net background worker: requesters set event bits, one worker waits for them,
    clears them one by one and runs the jobs. */
module BackgroundWorker {
  import opened Basics

  datatype Job = UpdatePortsStatus | SaveAse | SaveIm | SavePdPort

  /** The job behind a job id, if there is one. */
  function JobOf(id: nat): Option<Job> {
    if id == 0 then Some(UpdatePortsStatus)
    else if id == 1 then Some(SaveAse)
    else if id == 2 then Some(SaveIm)
    else if id == 3 then Some(SavePdPort)
    else None
  }

  /** The order in which the worker looks at the bits it has been given. */
  const ORDER: seq<Job> := [SaveAse, SaveIm, SavePdPort, UpdatePortsStatus]

  datatype WorkerPc =
    | Testing                                // in the wait, about to test the flags
    | Asleep
    | Serving(snapshot: set<Job>, next: nat) // about to look at job number `next`
    | Cleared(snapshot: set<Job>, next: nat) // its bit is cleared, its run still to start

  datatype System = System(
    flags: set<Job>,
    worker: WorkerPc,
    notifying: nat,       // requesters that have set a bit and still have to notify
    runs: multiset<Job>)  // runs started so far

  const INITIAL := System({}, Testing, 0, multiset{})

  datatype Action = Request(id: nat) | Notify | WakeUp | Work

  predicate Enabled(s: System, a: Action) {
    match a
    case Request(_) => true
    case Notify => s.notifying > 0
    case WakeUp => s.worker.Asleep?
    case Work => !s.worker.Asleep?
  }

  /** The return value of a request: 0 if the job exists, otherwise -1. */
  function StartJobResult(id: nat): (r: int)
    ensures r == 0 <==> id <= 3
    ensures r == -1 <==> id > 3
  {
    if JobOf(id).Some? then 0 else -1
  }

  function Apply(s: System, a: Action): System {
    if !Enabled(s, a) then s else
    match a
    case Request(id) =>
      if StartJobResult(id) != 0 then s else
      var j := JobOf(id).value;
      s.(flags := s.flags + {j}, notifying := s.notifying + 1)
    case Notify =>
      s.(notifying := s.notifying - 1, worker := if s.worker.Asleep? then Testing else s.worker)
    case WakeUp => s.(worker := Testing)
    case Work => Worked(s)
  }

  function Worked(s: System): System
    requires !s.worker.Asleep?
  {
    match s.worker
    case Testing => s.(worker := if s.flags == {} then Asleep else Serving(s.flags, 0))
    case Serving(snapshot, next) =>
      if next >= |ORDER| then s.(worker := Testing)
      else if ORDER[next] in snapshot then
        s.(flags := s.flags - {ORDER[next]}, worker := Cleared(snapshot, next))
      else s.(worker := Serving(snapshot, next + 1))
    case Cleared(snapshot, next) =>
      if next >= |ORDER| then s.(worker := Testing)
      else
        s.(runs := s.runs + multiset{ORDER[next]}, worker := Serving(snapshot, next + 1))
  }

  function Run(s: System, actions: seq<Action>): System {
    if actions == [] then s else Apply(Run(s, DropLast(actions)), Last(actions))
  }

  // ---------------------------------------------------------------- told from the requests

  /** The number of each job in the enumeration of job ids. */
  function IdOf(j: Job): nat {
    match j
    case UpdatePortsStatus => 0
    case SaveAse => 1
    case SaveIm => 2
    case SavePdPort => 3
  }

  predicate IsRequestFor(a: Action, j: Job) {
    a.Request? && a.id == IdOf(j)
  }

  /** How often a job has been requested. */
  function Requested(actions: seq<Action>, j: Job): nat {
    if actions == [] then 0 else Requested(DropLast(actions), j) + Tally(IsRequestFor(Last(actions), j))
  }

  /** The job has been requested since its last run started. */
  predicate Owed(actions: seq<Action>, j: Job) {
    actions != [] &&
    var before, a := DropLast(actions), Last(actions);
    IsRequestFor(a, j) || (Owed(before, j) && Run(INITIAL, actions).runs[j] == Run(INITIAL, before).runs[j])
  }

  /** A request sets the bit of the job with its number, and a notification will follow; for
      any other number it fails and changes nothing. */
  lemma RequestSetsBit(s: System, id: nat)
    ensures id > 3 ==> StartJobResult(id) == -1 && Apply(s, Request(id)) == s
    ensures forall j :: IdOf(j) == id ==>
              && StartJobResult(id) == 0
              && Apply(s, Request(id)) == s.(flags := s.flags + {j}, notifying := s.notifying + 1)
  {
  }

  /** The worker is between clearing the bit of `j` and starting its run. */
  predicate AboutToRun(s: System, j: Job) {
    s.worker.Cleared? && s.worker.next < |ORDER| && ORDER[s.worker.next] == j
  }

  function Tally(b: bool): nat { if b then 1 else 0 }

  /** No request is forgotten, and no run is invented. */
  ghost predicate Kept(s: System, actions: seq<Action>) {
    && (forall j :: Owed(actions, j) ==> j in s.flags || AboutToRun(s, j))
    && (forall j :: s.runs[j] + Tally(j in s.flags) + Tally(AboutToRun(s, j)) <= Requested(actions, j))
  }

  /** What the worker has been told is still set until the worker itself clears it. */
  predicate SnapshotHolds(s: System) {
    match s.worker
    case Serving(snapshot, next) =>
      forall i :: next <= i < |ORDER| && ORDER[i] in snapshot ==> ORDER[i] in s.flags
    case Cleared(snapshot, next) =>
      forall i :: next < i < |ORDER| && ORDER[i] in snapshot ==> ORDER[i] in s.flags
    case _ => true
  }

  predicate WakeUpPending(s: System) {
    s.worker.Asleep? && s.flags != {} ==> s.notifying > 0
  }

  lemma OrderHasNoRepeats()
    ensures forall i, j :: 0 <= i < j < |ORDER| ==> ORDER[i] != ORDER[j]
  {
  }

  lemma StepKeepsSnapshot(s: System, a: Action)
    requires SnapshotHolds(s)
    ensures SnapshotHolds(Apply(s, a))
  {
    OrderHasNoRepeats();
  }

  lemma StepKeeps(s: System, actions: seq<Action>)
    requires actions != [] && s == Run(INITIAL, DropLast(actions))
    requires Kept(s, DropLast(actions)) && SnapshotHolds(s)
    ensures Kept(Apply(s, Last(actions)), actions)
  {
    var a, before, t := Last(actions), DropLast(actions), Apply(s, Last(actions));
    if a.Request? {
      RequestSetsBit(s, a.id);
    }
    forall j
      ensures t.runs[j] + Tally(j in t.flags) + Tally(AboutToRun(t, j)) <= Requested(actions, j)
      ensures Owed(actions, j) ==> j in t.flags || AboutToRun(t, j)
    {
      assert s.runs[j] + Tally(j in s.flags) + Tally(AboutToRun(s, j)) <= Requested(before, j);
      assert Owed(before, j) ==> j in s.flags || AboutToRun(s, j);
      assert IsRequestFor(a, j) ==> t.flags == s.flags + {j};
      if !IsRequestFor(a, j) {
        StepMovesJob(s, a, j);
      }
    }
  }

  /** A job's bit becomes its being about to run, and that becomes its run. */
  lemma StepMovesJob(s: System, a: Action, j: Job)
    requires SnapshotHolds(s) && !IsRequestFor(a, j)
    ensures var t := Apply(s, a);
            && t.runs[j] + Tally(j in t.flags) + Tally(AboutToRun(t, j))
               <= s.runs[j] + Tally(j in s.flags) + Tally(AboutToRun(s, j))
            && (j in s.flags || AboutToRun(s, j) ==>
                  j in t.flags || AboutToRun(t, j) || t.runs[j] != s.runs[j])
  {
    if a.Work? && s.worker.Serving? && s.worker.next < |ORDER| && ORDER[s.worker.next] in s.worker.snapshot {
      assert ORDER[s.worker.next] in s.flags;
    }
  }

  lemma StepWakes(s: System, a: Action)
    requires WakeUpPending(s)
    ensures WakeUpPending(Apply(s, a))
  {
  }

  /** No lost job. For every interleaving of requesters and worker: a job requested since
      its last run started still has its bit set, or the worker has just cleared it and is
      about to start it; runs never outnumber requests; and the worker never sleeps on a
      set bit unless a notification is on its way. */
  lemma {:induction false} NoLostJob(actions: seq<Action>)
    ensures var s := Run(INITIAL, actions);
            && Kept(s, actions) && SnapshotHolds(s) && WakeUpPending(s)
  {
    if actions != [] {
      NoLostJob(DropLast(actions));
      StepKeepsSnapshot(Run(INITIAL, DropLast(actions)), Last(actions));
      StepKeeps(Run(INITIAL, DropLast(actions)), actions);
      StepWakes(Run(INITIAL, DropLast(actions)), Last(actions));
    }
  }

  /** At rest every request has been served. */
  lemma RestMeansServed(actions: seq<Action>)
    requires var s := Run(INITIAL, actions); s.worker.Asleep? && s.notifying == 0
    ensures var s := Run(INITIAL, actions);
            s.flags == {} && forall j :: !Owed(actions, j) && s.runs[j] <= Requested(actions, j)
  {
    NoLostJob(actions);
    var s := Run(INITIAL, actions);
    assert forall j :: s.runs[j] + Tally(j in s.flags) <= Requested(actions, j);
  }

  /** Whatever comes after a request, the job with its number has its bit set, is about to run,
      or has run since. */
  lemma {:induction false} RequestIsKept(before: seq<Action>, j: Job, later: seq<Action>)
    ensures var s, t := Run(INITIAL, before), Run(INITIAL, before + [Request(IdOf(j))] + later);
            t.runs[j] > s.runs[j] || j in t.flags || AboutToRun(t, j)
    ensures Run(INITIAL, before + [Request(IdOf(j))] + later).runs[j] >= Run(INITIAL, before).runs[j]
  {
    var actions := before + [Request(IdOf(j))] + later;
    if later == [] {
      assert DropLast(actions) == before;
      RequestSetsBit(Run(INITIAL, before), IdOf(j));
    } else {
      RequestIsKept(before, j, DropLast(later));
      assert DropLast(actions) == before + [Request(IdOf(j))] + DropLast(later);
      var t := Run(INITIAL, DropLast(actions));
      RunsGrow(t, Last(actions), j);
      if t.runs[j] == Run(INITIAL, before).runs[j] {
        StepKeepsJob(t, Last(actions), j);
      }
    }
  }

  lemma StepKeepsJob(s: System, a: Action, j: Job)
    requires j in s.flags || AboutToRun(s, j)
    ensures var t := Apply(s, a); t.runs[j] > s.runs[j] || j in t.flags || AboutToRun(t, j)
  {
  }

  // ---------------------------------------------------------------- progress

  function WorkSteps(actions: seq<Action>): nat {
    if actions == [] then 0 else WorkSteps(DropLast(actions)) + (if Last(actions).Work? then 1 else 0)
  }

  /** Job number `i` is still to come in this round. */
  predicate Ahead(s: System, i: nat)
    requires i < |ORDER|
  {
    match s.worker
    case Serving(snapshot, next) => next <= i && ORDER[i] in snapshot
    case Cleared(snapshot, next) => next == i || (next < i && ORDER[i] in snapshot)
    case _ => false
  }

  /** The worker is awake, and job number `i` to come in this round or in the next. */
  predicate Coming(s: System, i: nat)
    requires i < |ORDER|
  {
    !s.worker.Asleep? && (Ahead(s, i) || ORDER[i] in s.flags)
  }

  /** The worker's own steps until it has started job number `i`, at most. */
  function Distance(s: System, i: nat): nat
    requires i < |ORDER|
  {
    var whole := 2 * i + 3;
    match s.worker
    case Serving(_, next) =>
      if Ahead(s, i) then 2 * (i - next) + 2 else 1 + whole + (if next < |ORDER| then 2 * (|ORDER| - next) else 0)
    case Cleared(_, next) =>
      if Ahead(s, i) then 2 * (i - next) + 1 else whole + (if next < |ORDER| then 2 * (|ORDER| - next) else 1)
    case _ => whole
  }

  lemma DistanceBound(s: System, i: nat)
    requires i < |ORDER|
    ensures Distance(s, i) <= 18
    ensures Ahead(s, i) ==> Distance(s, i) <= 8
  {
  }

  /** A step of the worker starts the job or brings it nearer; other steps do not delay it. */
  lemma StepComes(s: System, a: Action, i: nat)
    requires i < |ORDER| && Coming(s, i)
    ensures var t := Apply(s, a);
            || t.runs[ORDER[i]] > s.runs[ORDER[i]]
            || (Coming(t, i) && t.runs[ORDER[i]] == s.runs[ORDER[i]]
                && Distance(t, i) + (if a.Work? then 1 else 0) <= Distance(s, i))
  {
    match s.worker
    case Testing =>
    case Serving(_, _) => OrderHasNoRepeats();
    case Cleared(_, _) => ClearedComes(s, a, i);
  }

  lemma ClearedComes(s: System, a: Action, i: nat)
    requires i < |ORDER| && Coming(s, i) && s.worker.Cleared?
    ensures var t := Apply(s, a);
            || t.runs[ORDER[i]] > s.runs[ORDER[i]]
            || (Coming(t, i) && t.runs[ORDER[i]] == s.runs[ORDER[i]]
                && Distance(t, i) + (if a.Work? then 1 else 0) <= Distance(s, i))
  {
    var next := s.worker.next;
    if a.Work? && next < |ORDER| && next != i {
      OrderHasNoRepeats();
      assert ORDER[next] != ORDER[i];
    }
  }

  lemma RunsGrow(s: System, a: Action, j: Job)
    ensures Apply(s, a).runs[j] >= s.runs[j]
  {
  }

  lemma {:induction false} Approaches(s: System, actions: seq<Action>, i: nat)
    requires i < |ORDER| && Coming(s, i)
    ensures var t := Run(s, actions);
            || t.runs[ORDER[i]] > s.runs[ORDER[i]]
            || (Coming(t, i) && t.runs[ORDER[i]] == s.runs[ORDER[i]]
                && Distance(t, i) + WorkSteps(actions) <= Distance(s, i))
  {
    if actions != [] {
      var t := Run(s, DropLast(actions));
      Approaches(s, DropLast(actions), i);
      RunsGrow(t, Last(actions), ORDER[i]);
      if t.runs[ORDER[i]] == s.runs[ORDER[i]] {
        StepComes(t, Last(actions), i);
      }
    }
  }

  /** From any state in which the worker is awake and the bit of a job is set, it starts that
      job within 18 of its own steps, whatever the requesters do in between; within eight if
      the job is to come in this round. */
  lemma SetBitsRun(s: System, actions: seq<Action>, i: nat)
    requires i < |ORDER| && Coming(s, i)
    requires WorkSteps(actions) >= (if Ahead(s, i) then 8 else 18)
    ensures Run(s, actions).runs[ORDER[i]] > s.runs[ORDER[i]]
  {
    Approaches(s, actions, i);
    DistanceBound(s, i);
    var t := Run(s, actions);
    assert Distance(t, i) >= 1;
  }

  /** Once the worker has seen the bit of a job in its snapshot, it starts that job within two
      of its own steps for each job up to and including that one. */
  lemma SeenJobsRun(s: System, actions: seq<Action>, i: nat)
    requires i < |ORDER| && s.worker.Serving? && s.worker.next <= i && ORDER[i] in s.worker.snapshot
    requires 2 * (i - s.worker.next) + 2 <= WorkSteps(actions)
    ensures Run(s, actions).runs[ORDER[i]] > s.runs[ORDER[i]]
  {
    Approaches(s, actions, i);
    assert Distance(Run(s, actions), i) >= 1;
  }

  /** So every request not yet served is served within 18 steps of an awake worker, and a
      sleeping worker is about to be woken. */
  lemma RequestsAreServed(before: seq<Action>, actions: seq<Action>, j: Job)
    requires Owed(before, j) && WorkSteps(actions) >= 18
    ensures var s := Run(INITIAL, before);
            if s.worker.Asleep? then s.notifying > 0 else Run(s, actions).runs[j] > s.runs[j]
  {
    NoLostJob(before);
    var s := Run(INITIAL, before);
    var i := PlaceOf(j);
    if !s.worker.Asleep? {
      assert Coming(s, i);
      SetBitsRun(s, actions, i);
    }
  }

  function PlaceOf(j: Job): (i: nat)
    ensures i < |ORDER| && ORDER[i] == j
  {
    match j
    case SaveAse => 0
    case SaveIm => 1
    case SavePdPort => 2
    case UpdatePortsStatus => 3
  }

  function Two(s: System): System { Apply(Apply(s, Work), Work) }

  /** Two steps of the worker clear the bit of a job and start it. */
  lemma OneJob(s: System)
    requires s.worker.Serving? && s.worker.next < |ORDER| && ORDER[s.worker.next] in s.worker.snapshot
    ensures var j := ORDER[s.worker.next];
            Two(s) == s.(flags := s.flags - {j}, runs := s.runs + multiset{j},
                         worker := Serving(s.worker.snapshot, s.worker.next + 1))
  {
  }

  /** The order of a round: with all bits set and nobody interfering, the worker starts the jobs
      one by one, the status update last. */
  lemma FullRound(s: System)
    requires s.worker == Testing && s.flags == {UpdatePortsStatus, SaveAse, SaveIm, SavePdPort}
    ensures var t0 := Apply(s, Work);
            var t1 := Two(t0);
            var t2 := Two(t1);
            var t3 := Two(t2);
            var t4 := Two(t3);
            && t1.runs == s.runs + multiset{SaveAse}
            && t2.runs == t1.runs + multiset{SaveIm}
            && t3.runs == t2.runs + multiset{SavePdPort}
            && t4.runs == t3.runs + multiset{UpdatePortsStatus}
            && t4.flags == {}
  {
    var t := Apply(s, Work);
    OneJob(t);
    OneJob(Two(t));
    OneJob(Two(Two(t)));
    OneJob(Two(Two(Two(t))));
  }
}

/** Whole runs of one CPM instance: what a reader gets, when the watchdog expires, where
    the buffers go, and how indications and timers add up. */
module CpmRuns {
  import opened Basics
  import opened CpmModel

  datatype Event =
    | Frame(a: Arrival)
    | Tick(rearmed: bool)
    | GetData(item: IoItem, dataCapacity: nat, iopsCapacity: nat)
    | GetIocs(item: IoItem, capacity: nat)
    | Activate(p: Params, added: bool)
    | Close
    | Create

  function Step(s: Cpm, e: Event): Cpm {
    match e
    case Frame(a) => OnFrame(s, a)
    case Tick(rearmed) => OnTick(s, rearmed)
    case GetData(item, dataCapacity, iopsCapacity) => OnReadData(s, item, dataCapacity, iopsCapacity)
    case GetIocs(item, capacity) => OnReadIocs(s, item, capacity)
    case Activate(p, added) => OnActivate(s, p, added)
    case Close => OnClose(s)
    case Create => OnCreate(s)
  }

  function After(s: Cpm, es: seq<Event>): Cpm {
    if es == [] then s else Step(After(s, DropLast(es)), Last(es))
  }

  lemma AfterAppend(s: Cpm, es: seq<Event>, e: Event)
    ensures After(s, es + [e]) == Step(After(s, es), e)
  {
    assert DropLast(es + [e]) == es;
  }

  /** Frames, ticks and reads only: what happens between an activation and the next
      activation or close. */
  predicate WithinActivation(es: seq<Event>) {
    forall i :: 0 <= i < |es| ==> es[i].Frame? || es[i].Tick? || es[i].GetData? || es[i].GetIocs?
  }

  // ---------------------------------------------------------------- history of a run

  predicate TakesFrame(s: Cpm, e: Event) { e.Frame? && Accepts(s, e.a) }

  /** The control interval timer is pending, so the tick really fires. */
  predicate Fires(s: Cpm, e: Event) { e.Tick? && s.env.timers > 0 }

  /** The read gets as far as asking for the newest buffer. */
  predicate Collects(s: Cpm, e: Event) {
    || (e.GetData? && Reads(s, e.item, e.dataCapacity, e.iopsCapacity))
    || (e.GetIocs? && ReadsIocs(s, e.item, e.capacity))
  }

  /** The frames accepted so far, oldest first. */
  function Accepted(s: Cpm, es: seq<Event>): seq<Arrival> {
    if es == [] then [] else
    var before := Accepted(s, DropLast(es));
    if TakesFrame(After(s, DropLast(es)), Last(es)) then before + [Last(es).a] else before
  }

  /** Timer ticks since the last accepted frame. */
  function Age(s: Cpm, es: seq<Event>): nat {
    if es == [] then 0 else
    var t := After(s, DropLast(es));
    if TakesFrame(t, Last(es)) then 0
    else Age(s, DropLast(es)) + (if Fires(t, Last(es)) then 1 else 0)
  }

  /** A frame was accepted and nobody has collected it yet. */
  predicate Fresh(s: Cpm, es: seq<Event>) {
    es != [] &&
    var t := After(s, DropLast(es));
    TakesFrame(t, Last(es)) || (Fresh(s, DropLast(es)) && !Collects(t, Last(es)))
  }

  // ---------------------------------------------------------------- one activation

  /** Idle and holding no buffer, as a zeroed instance is. */
  predicate Clean(z: Cpm) {
    && z.mode == WStart && !z.ciRunning
    && z.bufferCpm.None? && z.bufferApp.None? && !z.newBuf
  }

  function Started(z: Cpm, p: Params): Cpm { OnActivate(z, p, true) }

  /** The state an activation starts in. */
  predicate JustActivated(s: Cpm) {
    && s.mode == FRun && s.ciRunning && s.dht == 0 && s.cycle == -1 && s.dataStatus == 0
    && s.bufferCpm.None? && s.bufferApp.None? && !s.newBuf
  }

  /** Activating an idle, empty instance starts a fresh activation with the configuration
      asked for; the buffer length is that of a frame without a VLAN tag. */
  lemma ActivationStarts(z: Cpm, p: Params)
    requires Clean(z)
    ensures var s := Started(z, p);
            && JustActivated(s) && s.env == z.env.(timers := z.env.timers + 1)
            && s.cfg.sa == p.initiatorMac && s.cfg.dataHoldFactor == p.dataHoldFactor
            && s.cfg.controlInterval == ControlInterval(p)
            && (p.cSduLength <= 1440 ==> s.cfg.bufferLength == 20 + p.cSduLength)
  {
  }

  /** What ties the state to the history of its activation. */
  predicate Tracks(s: Cpm, cfg: Config, accepted: seq<Arrival>, age: nat, uncollected: bool) {
    && s.cfg == cfg
    && s.newBuf == uncollected
    && s.ciRunning == (s.mode != WStart)
    && (s.mode == FRun <==> accepted == [])
    && Latest(s) == (if accepted == [] then None else Some(Last(accepted).buf))
    && (accepted != [] ==> s.bufferPos == Last(accepted).pos + 2 && ValidFrame(cfg, Last(accepted)))
    && (s.mode == Run ==> s.dht == age <= cfg.dataHoldFactor)
  }

  lemma {:induction false} ActivationTracks(s: Cpm, es: seq<Event>)
    requires JustActivated(s) && WithinActivation(es)
    ensures Tracks(After(s, es), s.cfg, Accepted(s, es), Age(s, es), Fresh(s, es))
  {
    if es != [] {
      var before, e := DropLast(es), es[|es| - 1];
      ActivationTracks(s, before);
      StepTracks(After(s, before), e, s.cfg, Accepted(s, before), Age(s, before), Fresh(s, before));
    }
  }

  lemma StepTracks(s: Cpm, e: Event, cfg: Config, accepted: seq<Arrival>, age: nat, uncollected: bool)
    requires Tracks(s, cfg, accepted, age, uncollected)
    requires e.Frame? || e.Tick? || e.GetData? || e.GetIocs?
    ensures if TakesFrame(s, e) then Tracks(Step(s, e), cfg, accepted + [e.a], 0, true)
            else Tracks(Step(s, e), cfg, accepted, age + (if Fires(s, e) then 1 else 0), uncollected && !Collects(s, e))
  {
    match e
    case Frame(a) => assert Last(accepted + [a]) == a;
    case Tick(_) =>
    case GetData(_, _, _) =>
    case GetIocs(_, _) =>
  }

  /** The user data of a frame: what lies between the frame id and the trailer. */
  function CSdu(a: Arrival): seq<byte> {
    var payload := a.buf.payload;
    if a.pos + 2 <= |payload| - 4 then payload[a.pos + 2..|payload| - 4] else []
  }

  lemma ValidFrameHasCSdu(cfg: Config, a: Arrival)
    requires ValidFrame(cfg, a) && 20 <= cfg.bufferLength
    ensures |CSdu(a)| + 20 == cfg.bufferLength
    ensures a.buf.payload == a.buf.payload[..a.pos + 2] + CSdu(a) + a.buf.payload[|a.buf.payload| - 4..]
  {
  }

  /** What a read should return, told from the history alone. */
  function ExpectedData(
    expired: bool, accepted: seq<Arrival>, uncollected: bool,
    item: IoItem, dataCapacity: nat, iopsCapacity: nat): DataOutcome
  {
    if expired then WrongState
    else if dataCapacity < item.dataLength || iopsCapacity < item.iopsLength then TooSmall
    else if accepted == [] then NoData
    else
      Data(uncollected,
           Bytes(CSdu(Last(accepted)), item.dataOffset, item.dataLength),
           Bytes(CSdu(Last(accepted)), item.iopsOffset, item.iopsLength))
  }

  function ExpectedIocs(expired: bool, accepted: seq<Arrival>, item: IoItem, capacity: nat): Option<seq<byte>> {
    if expired || accepted == [] || item.iocsLength == 0 || capacity < item.iocsLength then None
    else Some(Bytes(CSdu(Last(accepted)), item.iocsOffset, item.iocsLength))
  }

  /** Reads of what `item` describes within the C_SDU stay inside it and return what they should. */
  predicate ReadsAsExpected(
    s: Cpm, expired: bool, accepted: seq<Arrival>, uncollected: bool,
    item: IoItem, dataCapacity: nat, iopsCapacity: nat, iocsCapacity: nat)
    requires 20 <= s.cfg.bufferLength
  {
    && (DataWithin(item, s.cfg.bufferLength - 20) ==>
          && DataReadable(s, item)
          && ReadData(s, item, dataCapacity, iopsCapacity)
             == ExpectedData(expired, accepted, uncollected, item, dataCapacity, iopsCapacity))
    && (IocsWithin(item, s.cfg.bufferLength - 20) ==>
          && IocsReadable(s, item)
          && ReadIocs(s, item, iocsCapacity) == ExpectedIocs(expired, accepted, item, iocsCapacity))
  }

  lemma TrackedRead(
    s: Cpm, accepted: seq<Arrival>, age: nat, uncollected: bool,
    item: IoItem, dataCapacity: nat, iopsCapacity: nat, iocsCapacity: nat)
    requires 20 <= s.cfg.bufferLength
    requires Tracks(s, s.cfg, accepted, age, uncollected)
    ensures ReadsAsExpected(s, s.mode == WStart, accepted, uncollected, item, dataCapacity, iopsCapacity, iocsCapacity)
    ensures accepted != [] ==> |CSdu(Last(accepted))| + 20 == s.cfg.bufferLength
    ensures accepted != [] && s.mode != WStart ==> age <= s.cfg.dataHoldFactor
  {
    if accepted != [] {
      ValidFrameHasCSdu(s.cfg, Last(accepted));
      LatestIsCSdu(s, Last(accepted), item.dataOffset, item.dataLength);
      LatestIsCSdu(s, Last(accepted), item.iopsOffset, item.iopsLength);
      LatestIsCSdu(s, Last(accepted), item.iocsOffset, item.iocsLength);
    }
  }

  /** At some moment more than the allowed number of ticks had passed since a frame was accepted. */
  ghost predicate Expired(s: Cpm, es: seq<Event>) {
    exists k :: 0 <= k <= |es| && Overdue(s, es[..k])
  }

  predicate Overdue(s: Cpm, es: seq<Event>) {
    Accepted(s, es) != [] && Age(s, es) > s.cfg.dataHoldFactor
  }

  lemma ExpiredUnfolds(s: Cpm, es: seq<Event>)
    ensures Expired(s, es) <==> Overdue(s, es) || (es != [] && Expired(s, DropLast(es)))
  {
    assert es[..|es|] == es;
    if es != [] {
      forall k | 0 <= k < |es| ensures es[..k] == DropLast(es)[..k] {}
    }
  }

  /** How a step within an activation can end it. */
  lemma StepToWStart(s: Cpm, e: Event)
    requires !e.Activate? && !e.Close? && !e.Create?
    ensures Step(s, e).mode == WStart
            <==> s.mode == WStart
                 || (s.mode == Mode.Run && Fires(s, e) && s.ciRunning && s.dht >= s.cfg.dataHoldFactor)
  {
  }

  lemma {:induction false} ExpiryIsOverdue(s: Cpm, es: seq<Event>)
    requires JustActivated(s) && WithinActivation(es)
    ensures After(s, es).mode == WStart <==> Expired(s, es)
  {
    ExpiredUnfolds(s, es);
    if es != [] {
      var before, e := DropLast(es), Last(es);
      assert e == es[|es| - 1];
      ActivationTracks(s, before);
      ExpiryIsOverdue(s, before);
      StepToWStart(After(s, before), e);
      if After(s, before).mode != WStart {
        OverdueNow(s, es);
      }
    }
  }

  /** Whether the last event makes the run overdue. */
  lemma OverdueNow(s: Cpm, es: seq<Event>)
    requires es != []
    requires var t := After(s, DropLast(es));
             && t.mode != WStart
             && Tracks(t, s.cfg, Accepted(s, DropLast(es)), Age(s, DropLast(es)), Fresh(s, DropLast(es)))
    ensures var t := After(s, DropLast(es));
            Overdue(s, es) <==> t.mode == Mode.Run && Fires(t, Last(es)) && t.dht >= s.cfg.dataHoldFactor
  {
  }

  /** Bounded staleness. Whatever happened since activation, a read is refused exactly when
      the watchdog has expired, and otherwise returns the bytes of the newest accepted
      frame, all of them from inside its C_SDU, and that frame is at most `dataHoldFactor`
      ticks old. The same holds for the consumer status. */
  lemma {:induction false} BoundedStaleness(
    s: Cpm, es: seq<Event>, item: IoItem, dataCapacity: nat, iopsCapacity: nat, iocsCapacity: nat)
    requires JustActivated(s) && WithinActivation(es)
    requires 20 <= s.cfg.bufferLength
    ensures After(s, es).cfg == s.cfg
    ensures ReadsAsExpected(After(s, es), Expired(s, es), Accepted(s, es), Fresh(s, es),
                            item, dataCapacity, iopsCapacity, iocsCapacity)
    ensures Accepted(s, es) != [] ==> |CSdu(Last(Accepted(s, es)))| + 20 == s.cfg.bufferLength
    ensures ReadsNewestBytes(After(s, es), Accepted(s, es), item, dataCapacity, iopsCapacity, iocsCapacity)
    ensures Accepted(s, es) != [] && !Expired(s, es) ==> Age(s, es) <= s.cfg.dataHoldFactor
  {
    ActivationTracks(s, es);
    ExpiryIsOverdue(s, es);
    TrackedBytes(After(s, es), Accepted(s, es), Age(s, es), Fresh(s, es), item,
                 dataCapacity, iopsCapacity, iocsCapacity);
    TrackedRead(After(s, es), Accepted(s, es), Age(s, es), Fresh(s, es), item,
                dataCapacity, iopsCapacity, iocsCapacity);
  }

  /** What a read returns are the item's bytes of the newest accepted frame, counted from behind
      its frame id. */
  predicate ReadsNewestBytes(
    s: Cpm, accepted: seq<Arrival>, item: IoItem, dataCapacity: nat, iopsCapacity: nat, iocsCapacity: nat)
    requires 20 <= s.cfg.bufferLength
  {
    && NewestData(s, accepted, item, ReadData(s, item, dataCapacity, iopsCapacity))
    && NewestIocs(s, accepted, item, ReadIocs(s, item, iocsCapacity))
  }

  predicate NewestData(s: Cpm, accepted: seq<Arrival>, item: IoItem, r: DataOutcome)
    requires 20 <= s.cfg.bufferLength
  {
    r.Data? ==>
      && accepted != []
      && (DataWithin(item, s.cfg.bufferLength - 20) ==>
            var a := Last(accepted);
            && Copied(r.data, a.buf.payload, a.pos + 2 + item.dataOffset, item.dataLength)
            && Copied(r.iops, a.buf.payload, a.pos + 2 + item.iopsOffset, item.iopsLength))
  }

  predicate NewestIocs(s: Cpm, accepted: seq<Arrival>, item: IoItem, r: Option<seq<byte>>)
    requires 20 <= s.cfg.bufferLength
  {
    r.Some? ==>
      && accepted != []
      && (IocsWithin(item, s.cfg.bufferLength - 20) ==>
            var a := Last(accepted);
            Copied(r.value, a.buf.payload, a.pos + 2 + item.iocsOffset, item.iocsLength))
  }

  lemma TrackedBytes(
    s: Cpm, accepted: seq<Arrival>, age: nat, uncollected: bool,
    item: IoItem, dataCapacity: nat, iopsCapacity: nat, iocsCapacity: nat)
    requires 20 <= s.cfg.bufferLength && Tracks(s, s.cfg, accepted, age, uncollected)
    ensures ReadsNewestBytes(s, accepted, item, dataCapacity, iopsCapacity, iocsCapacity)
  {
    TrackedData(s, accepted, age, uncollected, item, dataCapacity, iopsCapacity);
    TrackedIocs(s, accepted, age, uncollected, item, iocsCapacity);
  }

  lemma TrackedData(
    s: Cpm, accepted: seq<Arrival>, age: nat, uncollected: bool,
    item: IoItem, dataCapacity: nat, iopsCapacity: nat)
    requires 20 <= s.cfg.bufferLength && Tracks(s, s.cfg, accepted, age, uncollected)
    ensures NewestData(s, accepted, item, ReadData(s, item, dataCapacity, iopsCapacity))
  {
    if accepted != [] {
      NewestPart(s, Last(accepted), item.dataOffset, item.dataLength);
      NewestPart(s, Last(accepted), item.iopsOffset, item.iopsLength);
    }
  }

  lemma TrackedIocs(
    s: Cpm, accepted: seq<Arrival>, age: nat, uncollected: bool, item: IoItem, iocsCapacity: nat)
    requires 20 <= s.cfg.bufferLength && Tracks(s, s.cfg, accepted, age, uncollected)
    ensures NewestIocs(s, accepted, item, ReadIocs(s, item, iocsCapacity))
  {
    if accepted != [] {
      NewestPart(s, Last(accepted), item.iocsOffset, item.iocsLength);
    }
  }

  lemma NewestPart(s: Cpm, a: Arrival, offset: nat, length: nat)
    requires ValidFrame(s.cfg, a) && 20 <= s.cfg.bufferLength
    requires s.bufferPos == a.pos + 2 && Latest(s) == Some(a.buf)
    ensures Within(offset, length, s.cfg.bufferLength - 20) ==>
              Copied(Bytes(From(a.buf.payload, s.bufferPos), offset, length), a.buf.payload, a.pos + 2 + offset, length)
  {
    LatestIsCSdu(s, a, offset, length);
    if Within(offset, length, s.cfg.bufferLength - 20) {
      BytesAreCopied(a.buf.payload, s.bufferPos, offset, length);
    }
  }

  /** Reading from the buffer position on gives the C_SDU bytes, never the trailer. */
  lemma LatestIsCSdu(s: Cpm, a: Arrival, offset: nat, length: nat)
    requires ValidFrame(s.cfg, a) && 20 <= s.cfg.bufferLength
    requires s.bufferPos == a.pos + 2 && Latest(s) == Some(a.buf)
    ensures Within(offset, length, s.cfg.bufferLength - 20) ==>
              && Within(offset, length, |From(a.buf.payload, s.bufferPos)|)
              && Bytes(From(a.buf.payload, s.bufferPos), offset, length) == Bytes(CSdu(a), offset, length)
  {
    ValidFrameHasCSdu(s.cfg, a);
    if length > 0 && Within(offset, length, s.cfg.bufferLength - 20) {
      SameBytes(a.buf.payload, a.pos + 2, |a.buf.payload| - 4, offset, length);
    }
  }

  lemma SameBytes(payload: seq<byte>, from: nat, to: nat, offset: nat, length: nat)
    requires from <= to <= |payload| && offset + length <= to - from
    ensures Bytes(payload[from..], offset, length) == Bytes(payload[from..to], offset, length)
  {
    var all, some := payload[from..][offset..offset + length], payload[from..to][offset..offset + length];
    forall k | 0 <= k < length ensures all[k] == some[k] {
      assert all[k] == payload[from + offset + k];
    }
  }

  /** The moment of expiry: it is a tick, exactly the one after `dataHoldFactor` ticks
      without an accepted frame, and it gives the one stop indication. */
  lemma ExpiresOnTheTick(s: Cpm, es: seq<Event>, e: Event)
    requires JustActivated(s) && WithinActivation(es + [e])
    ensures var t, u := After(s, es), After(s, es + [e]);
            && (t.mode != WStart && u.mode == WStart <==>
                t.mode == Mode.Run && Fires(t, e) && Age(s, es) == s.cfg.dataHoldFactor)
            && (t.mode != WStart && u.mode == WStart ==>
                Age(s, es + [e]) == s.cfg.dataHoldFactor + 1
                && u.env.indications == t.env.indications + [Stop]
                && u.error == DhtExpired && !u.ciRunning)
  {
    assert WithinActivation(es) by {
      forall i | 0 <= i < |es| ensures es[i] == (es + [e])[i] {}
    }
    assert (es + [e])[|es|] == e;
    ActivationTracks(s, es);
    assert DropLast(es + [e]) == es && Last(es + [e]) == e;
  }

  // ---------------------------------------------------------------- limits of the promise

  /** The event reads the data of `item`, rather than of another item or a consumer status. */
  predicate ReadsItem(s: Cpm, e: Event, item: IoItem) {
    e.GetData? && e.item == item && Collects(s, e)
  }

  /** What "new data since last call" should mean for one item: a frame was accepted, and the
      item has not been read since. */
  predicate FreshFor(s: Cpm, es: seq<Event>, item: IoItem) {
    es != [] &&
    var t := After(s, DropLast(es));
    TakesFrame(t, Last(es)) || (FreshFor(s, DropLast(es), item) && !ReadsItem(t, Last(es), item))
  }

  /** Someone has read something else since the newest accepted frame. */
  predicate Stolen(s: Cpm, es: seq<Event>, item: IoItem) {
    es != [] &&
    var t, e := After(s, DropLast(es)), Last(es);
    !TakesFrame(t, e) && (Stolen(s, DropLast(es), item) || (Collects(t, e) && !ReadsItem(t, e, item)))
  }

  lemma {:induction false} FreshUnlessStolen(s: Cpm, es: seq<Event>, item: IoItem)
    ensures Fresh(s, es) <==> FreshFor(s, es, item) && !Stolen(s, es, item)
  {
    if es != [] {
      FreshUnlessStolen(s, DropLast(es), item);
    }
  }

  /** There is one freshness flag for all readers. What a read of an item reports is right for
      that item exactly unless it has not seen the newest data and someone else has read
      since; then new data are reported as old. */
  lemma {:induction false} OneFlagForAllReaders(
    s: Cpm, es: seq<Event>, item: IoItem, dataCapacity: nat, iopsCapacity: nat)
    requires JustActivated(s) && WithinActivation(es)
    requires !Expired(s, es) && Accepted(s, es) != []
    requires item.dataLength <= dataCapacity && item.iopsLength <= iopsCapacity
    ensures var r := ReadData(After(s, es), item, dataCapacity, iopsCapacity);
            && r.Data?
            && (r.isNew ==> FreshFor(s, es, item))
            && (r.isNew == FreshFor(s, es, item) <==> !(FreshFor(s, es, item) && Stolen(s, es, item)))
  {
    ActivationTracks(s, es);
    ExpiryIsOverdue(s, es);
    FreshUnlessStolen(s, es, item);
  }

  /** The witness: any collecting read takes the flag away from an item it does not read. */
  lemma OtherReadTakesFlag(s: Cpm, other: Event, item: IoItem, dataCapacity: nat, iopsCapacity: nat)
    requires s.newBuf && Collects(s, other) && Latest(s).Some?
    requires DataReadable(s, item) && Reads(s, item, dataCapacity, iopsCapacity)
    ensures DataReadable(Step(s, other), item)
    ensures var before := ReadData(s, item, dataCapacity, iopsCapacity);
            && before.Data? && before.isNew
            && ReadData(Step(s, other), item, dataCapacity, iopsCapacity) == before.(isNew := false)
  {
  }

  /** Over any history at all, closes, expiries and activations included, the slots hold the
      newest frame accepted ever and whether it has been collected. */
  lemma {:induction false} SlotsSurvive(z: Cpm, es: seq<Event>)
    requires Clean(z)
    ensures var s, accepted := After(z, es), Accepted(z, es);
            && Latest(s) == (if accepted == [] then None else Some(Last(accepted).buf))
            && s.newBuf == Fresh(z, es)
            && (s.newBuf ==> s.bufferCpm.Some?)
  {
    if es != [] {
      SlotsSurvive(z, DropLast(es));
      StepKeepsSlots(After(z, DropLast(es)), Last(es));
    }
  }

  lemma StepKeepsSlots(s: Cpm, e: Event)
    requires s.newBuf ==> s.bufferCpm.Some?
    ensures var t := Step(s, e);
            && (t.newBuf ==> t.bufferCpm.Some?)
            && Latest(t) == (if TakesFrame(s, e) then Some(e.a.buf) else Latest(s))
            && t.newBuf == (TakesFrame(s, e) || (s.newBuf && !Collects(s, e)))
  {
  }

  /** Neither expiry nor close nor activation empties the slots. However an instance has come
      back to W_START, a read right after the next activation finds no data exactly if no
      frame was ever accepted before. Otherwise it returns the newest frame of an earlier
      activation, read from where a frame without a VLAN tag would have its data. */
  lemma ReactivationKeepsOldData(z: Cpm, es: seq<Event>, p: Params, item: IoItem)
    requires Clean(z) && After(z, es).mode == WStart
    ensures var r := ReadData(Started(After(z, es), p), item, item.dataLength, item.iopsLength);
            && (r == NoData <==> Accepted(z, es) == [])
            && (Accepted(z, es) != [] ==>
                  var kept := Last(Accepted(z, es)).buf.payload;
                  && r.Data? && r.isNew == Fresh(z, es)
                  && (16 + item.dataOffset + item.dataLength <= |kept| ==>
                        Copied(r.data, kept, 16 + item.dataOffset, item.dataLength))
                  && (16 + item.iopsOffset + item.iopsLength <= |kept| ==>
                        Copied(r.iops, kept, 16 + item.iopsOffset, item.iopsLength)))
  {
    SlotsSurvive(z, es);
    if Accepted(z, es) != [] {
      ReadFrom(Started(After(z, es), p), Last(Accepted(z, es)).buf, item);
    }
  }

  lemma ReadFrom(s: Cpm, b: Buffer, item: IoItem)
    requires s.mode != WStart && Latest(s) == Some(b)
    ensures var r, pos := ReadData(s, item, item.dataLength, item.iopsLength), s.bufferPos;
            && r.Data? && r.isNew == s.newBuf
            && (pos + item.dataOffset + item.dataLength <= |b.payload| ==>
                  Copied(r.data, b.payload, pos + item.dataOffset, item.dataLength))
            && (pos + item.iopsOffset + item.iopsLength <= |b.payload| ==>
                  Copied(r.iops, b.payload, pos + item.iopsOffset, item.iopsLength))
  {
    PartFrom(b.payload, s.bufferPos, item.dataOffset, item.dataLength);
    PartFrom(b.payload, s.bufferPos, item.iopsOffset, item.iopsLength);
  }

  lemma PartFrom(payload: seq<byte>, pos: nat, offset: nat, length: nat)
    ensures pos + offset + length <= |payload| ==>
              Copied(Bytes(From(payload, pos), offset, length), payload, pos + offset, length)
  {
    if pos + offset + length <= |payload| {
      BytesAreCopied(payload, pos, offset, length);
    }
  }

  /** After a close such a read works on a buffer that has been freed, again exactly if a frame
      was ever accepted. */
  lemma ReadsAfterClose(z: Cpm, es: seq<Event>, p: Params, item: IoItem)
    requires Clean(z)
    ensures var s := Started(OnClose(After(z, es)), p);
            && s.mode == FRun
            && (ReadData(s, item, item.dataLength, item.iopsLength).Data? <==> Accepted(z, es) != [])
            && (Accepted(z, es) != [] ==>
                  Latest(s) == Some(Last(Accepted(z, es)).buf) && Latest(s).value in s.env.freed)
  {
    SlotsSurvive(z, es);
  }
}

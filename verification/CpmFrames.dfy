/** The frames a provider sends, put together from their parts, and what becomes of them. */
module CpmFrames {
  import opened Basics
  import opened CpmModel
  import opened CpmRuns
  import opened CpmCycle
  import CpmAccounting
  import Codec

  /** `tag` is the ethertype, with the VLAN tag before it if there is one; `frameId` has two
      bytes. `counter` is the provider's cycle counter before it is cut to 16 bits. */
  datatype Sent = Sent(
    id: nat, destination: Mac, source: Mac, tag: seq<byte>, frameId: seq<byte>, cSdu: seq<byte>,
    counter: int, status: byte, transfer: byte)
  {
    predicate WellFormed() {
      |tag| >= 2 && |frameId| == 2 && 12 + |tag| + 2 + |cSdu| + 4 < TWO_TO_16
    }

    function Counter(): nat { counter % TWO_TO_16 }

    function Payload(): seq<byte> {
      destination + source + tag + frameId + cSdu + Codec.Wire(Counter(), 2) + [status, transfer]
    }
  }

  type Frame = p: Sent | p.WellFormed()
    witness Sent(0, ZERO_MAC, ZERO_MAC, [0, 0], [0, 0], [], 0, 0, 0)

  lemma PayloadLength(p: Sent)
    requires p.WellFormed()
    ensures |p.Payload()| == 12 + |p.tag| + 2 + |p.cSdu| + 4
  {
  }

  /** The Ethernet layer has found the frame id behind the tag. */
  function Arriving(p: Frame): Arrival {
    PayloadLength(p);
    RawArrival.Arrival(Buffer(p.id, p.Payload()), 12 + |p.tag|)
  }

  /** From the configured provider, of the configured length, without transfer error and with
      valid data. */
  predicate IsGood(cfg: Config, p: Frame) {
    && p.source == cfg.sa
    && |p.cSdu| + 20 == cfg.bufferLength
    && p.transfer == 0
    && (p.status as bv8) & 4 != 0
  }

  // ---------------------------------------------------------------- taking frames apart

  /** The trailer: the counter with its high byte first, and then the two status bytes. */
  lemma TrailerOf(p: Frame)
    ensures var b := Arriving(p).buf;
            CycleOf(b) == p.Counter() && DataStatusOf(b) == p.status && TransferStatusOf(b) == p.transfer
  {
    var payload, n := p.Payload(), |p.Payload()|;
    var front := p.destination + p.source + p.tag + p.frameId + p.cSdu;
    var wire := Codec.Wire(p.Counter(), 2);
    assert payload == front + wire + [p.status, p.transfer];
    PayloadLength(p);
    Codec.WireOfTwo(p.Counter());
    assert payload[n - 4] == wire[0] && payload[n - 3] == wire[1];
    assert payload[n - 2] == p.status && payload[n - 1] == p.transfer;
  }

  lemma SourceOf(p: Frame)
    ensures Arriving(p).buf.payload[6..12] == p.source
  {
    var rest := p.tag + p.frameId + p.cSdu + Codec.Wire(p.Counter(), 2) + [p.status, p.transfer];
    assert p.Payload() == p.destination + p.source + rest;
  }

  lemma DataBit(status: byte)
    ensures (status as bv8) & 4 != 0 <==> DataValid(status)
  {
  }

  lemma GoodIsValid(cfg: Config, p: Frame)
    ensures IsGood(cfg, p) <==> ValidFrame(cfg, Arriving(p))
  {
    TrailerOf(p);
    SourceOf(p);
    DataBit(p.status);
    PayloadLength(p);
    assert |Arriving(p).buf.payload| - Arriving(p).pos + 14 == |p.cSdu| + 20;
  }

  /** Newer than the last counter, as far as 16 bits tell. */
  predicate IsNewer(last: int, now: int) {
    1 <= (now - last) % TWO_TO_16 <= 61440
  }

  lemma NewerIsChecked(stored: int, last: int, now: int)
    requires stored % TWO_TO_16 == last % TWO_TO_16
    ensures CheckCycle(stored, now % TWO_TO_16) <==> IsNewer(last, now)
    ensures -4095 <= now - last <= 61440 ==> (IsNewer(last, now) <==> now > last)
  {
    WrappedDifference(now, last);
  }

  /** What a frame does to an active instance, whose last accepted counter was `last`: a good
      and newer frame is put in the slot and everything is set as it says; any other frame is
      freed and nothing else happens. */
  lemma SentFrameTaken(s: Cpm, p: Frame, last: int)
    requires s.mode != WStart && s.cycle % TWO_TO_16 == last % TWO_TO_16
    ensures var t, b := OnFrame(s, Arriving(p)), Arriving(p).buf;
            if IsGood(s.cfg, p) && IsNewer(last, p.counter) then
              && t.mode == Mode.Run && t.dht == 0
              && t.bufferCpm == Some(b) && t.newBuf && t.bufferApp == s.bufferApp
              && t.bufferPos == 12 + |p.tag| + 2
              && t.cycle == p.counter % TWO_TO_16 && t.dataStatus == p.status
              && t.env.indications
                 == s.env.indications + (if s.mode == FRun then [Start] else []) + [NewData]
                    + (if s.dataStatus != p.status then [StatusChanged(s.dataStatus, p.status)] else [])
            else
              t == s.(env := s.env.(received := s.env.received + [b], freed := s.env.freed + [b]))
  {
    TrailerOf(p);
    GoodIsValid(s.cfg, p);
    NewerIsChecked(s.cycle, last, p.counter);
  }

  /** The C_SDU is where readers look for it. */
  lemma DataBehindFrameId(p: Frame, k: nat)
    requires k < |p.cSdu|
    ensures var a := Arriving(p);
            a.pos + 2 + k < |a.buf.payload| && a.buf.payload[a.pos + 2 + k] == p.cSdu[k]
  {
    PayloadLength(p);
    var front := p.destination + p.source + p.tag + p.frameId;
    assert p.Payload() == front + p.cSdu + (Codec.Wire(p.Counter(), 2) + [p.status, p.transfer]);
  }

  // ---------------------------------------------------------------- whole runs

  /** The frames in a run are what the provider has sent: `ps[i]` belongs to `es[i]`. */
  predicate Delivers(es: seq<Event>, ps: seq<Frame>) {
    |ps| == |es| && forall i :: 0 <= i < |es| && es[i].Frame? ==> es[i].a == Arriving(ps[i])
  }

  /** The application has been told that a frame brought new data. */
  predicate Announced(s: Cpm, es: seq<Event>, e: Event) {
    e.Frame? && After(s, es + [e]).env.indications != After(s, es).env.indications
  }

  predicate Reaches(s: Cpm, es: seq<Event>, e: Event, p: Frame) {
    e.Frame? && After(s, es).mode != WStart && IsGood(s.cfg, p)
  }

  function Counters(ps: seq<Frame>): seq<int> {
    seq(|ps|, i requires 0 <= i < |ps| => ps[i].counter)
  }

  /** The counters of the good frames that reach the active instance. */
  function GoodCounters(s: Cpm, es: seq<Event>, ps: seq<Frame>): seq<int>
    requires |ps| == |es|
  {
    if es == [] then []
    else GoodCounters(s, DropLast(es), DropLast(ps))
         + (if Reaches(s, DropLast(es), Last(es), Last(ps)) then [Last(ps).counter] else [])
  }

  /** The counters of the frames that the application was told of. */
  function AnnouncedCounters(s: Cpm, es: seq<Event>, ps: seq<Frame>): seq<int>
    requires |ps| == |es|
  {
    if es == [] then []
    else AnnouncedCounters(s, DropLast(es), DropLast(ps))
         + (if Announced(s, DropLast(es), Last(es)) then [Last(ps).counter] else [])
  }

  /** No good frame is further off than the window allows from the newest one announced. */
  predicate Nearby(s: Cpm, start: int, es: seq<Event>, ps: seq<Frame>) {
    && Delivers(es, ps)
    && forall k :: 0 <= k < |es| && Reaches(s, es[..k], es[k], ps[k]) ==>
         -4095 <= ps[k].counter - Newest(start, AnnouncedCounters(s, es[..k], ps[..k])) <= 61440
  }

  lemma AnnouncedIsTaken(s: Cpm, es: seq<Event>, e: Event)
    ensures Announced(s, es, e) <==> TakesFrame(After(s, es), e)
  {
    AfterAppend(s, es, e);
    if e.Frame? {
      CpmAccounting.FrameIndicates(After(s, es), e.a);
    }
  }

  lemma {:induction false} SameCounters(s: Cpm, es: seq<Event>, ps: seq<Frame>)
    requires Delivers(es, ps)
    ensures AnnouncedCounters(s, es, ps) == AcceptedCounters(s, es, Counters(ps))
    ensures GoodCounters(s, es, ps) == CpmCycle.Counters(s, es, Counters(ps))
  {
    if es != [] {
      var before, e := DropLast(es), es[|es| - 1];
      SameCounters(s, before, DropLast(ps));
      AnnouncedIsTaken(s, before, e);
      assert DropLast(Counters(ps)) == Counters(DropLast(ps));
      if e.Frame? {
        GoodIsValid(s.cfg, Last(ps));
      }
    }
  }

  /** No reordering, no duplicates, in terms of what was sent: over whole runs of frames, ticks
      and reads, the counters of the frames that the application is told of are exactly the
      running records of the good frames that reach the active instance, and they strictly
      increase. */
  lemma {:induction false} AnnouncedAreRecords(s: Cpm, start: int, es: seq<Event>, ps: seq<Frame>)
    requires s.cycle % TWO_TO_16 == start % TWO_TO_16
    requires WithinActivation(es) && Nearby(s, start, es, ps)
    ensures AnnouncedCounters(s, es, ps) == Records(start, GoodCounters(s, es, ps))
    ensures Increasing([start] + AnnouncedCounters(s, es, ps))
  {
    SameCounters(s, es, ps);
    NearbyIsInWindow(s, start, es, ps);
    AcceptedAreRecords(s, start, es, Counters(ps));
  }

  lemma NearbyIsInWindow(s: Cpm, start: int, es: seq<Event>, ps: seq<Frame>)
    requires Nearby(s, start, es, ps)
    ensures InWindow(s, start, es, Counters(ps))
  {
    var us := Counters(ps);
    forall k | 0 <= k < |es| && Arrives(s, es[..k], es[k])
      ensures us[k] % TWO_TO_16 == CycleOf(es[k].a.buf)
      ensures -4095 <= us[k] - Newest(start, AcceptedCounters(s, es[..k], us[..k])) <= 61440
    {
      TrailerOf(ps[k]);
      GoodIsValid(s.cfg, ps[k]);
      assert Reaches(s, es[..k], es[k], ps[k]);
      SameCounters(s, es[..k], ps[..k]);
      assert Counters(ps[..k]) == us[..k];
    }
  }

  /** Right after activation a good frame is taken exactly if its wrapped counter is at most
      61439. */
  lemma FirstSentFrame(z: Cpm, params: Params, p: Frame)
    requires z.mode == WStart
    ensures var s := Started(z, params);
            TakesFrame(s, Event.Frame(Arriving(p)))
            <==> IsGood(ConfigFor(params), p) && p.counter % TWO_TO_16 <= 61439
  {
    FirstFrame(z, params, Arriving(p));
    GoodIsValid(ConfigFor(params), p);
    TrailerOf(p);
  }

  /** A provider of good frames that advances by a fixed step falls into step with the consumer:
      exactly the first `Rejected` of its frames are not announced. */
  lemma {:induction false} SentResynchronises(s: Cpm, es: seq<Event>, ps: seq<Frame>, first: int, step: nat)
    requires WithinActivation(es) && 1 <= step <= 61440 && Delivers(es, ps)
    requires forall k :: 0 <= k < |es| && es[k].Frame? ==>
               IsGood(s.cfg, ps[k]) && ps[k].counter == first + FrameCount(es[..k]) * step
    ensures var r := Rejected(s.cycle, first, step);
            && r <= 4095 / step + 1
            && forall k :: 0 <= k < |es| && es[k].Frame? && After(s, es[..k]).mode != WStart ==>
                 (Announced(s, es[..k], es[k]) <==> FrameCount(es[..k]) >= r)
  {
    assert SteadyProvider(s.cfg, es, first, step) by {
      forall k | 0 <= k < |es| && es[k].Frame?
        ensures IsValid(s.cfg, es[k]) && CycleOf(es[k].a.buf) == Provided(first, step, FrameCount(es[..k]))
      {
        TrailerOf(ps[k]);
        GoodIsValid(s.cfg, ps[k]);
      }
    }
    Resynchronises(s, es, first, step);
    forall k | 0 <= k < |es| ensures Announced(s, es[..k], es[k]) <==> TakesFrame(After(s, es[..k]), es[k]) {
      AnnouncedIsTaken(s, es[..k], es[k]);
    }
  }
}

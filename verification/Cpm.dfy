/** The cyclic consumer protocol machine (CPM) and its software driver.

    `Cpm` is the value of one CPM instance together with everything the outside world
    has seen of it: indications given, buffers received and buffers freed, timers
    pending. `On...` functions say what each entry point does to that value; the class
    `CpmInstance` at the end of the file does the same work field by field. */
module CpmModel {
  import opened Basics

  /** A received Ethernet frame in its buffer. Two buffers are the same storage
      exactly when their ids are equal. */
  datatype Buffer = Buffer(id: nat, payload: seq<byte>)

  /** A frame as the Ethernet layer hands it over: it has read a frame id at `pos`,
      behind the two addresses and the ethertype, and lengths are 16 bit. */
  datatype RawArrival = Arrival(buf: Buffer, pos: nat)
  {
    predicate Delivered() {
      14 <= pos && pos + 2 <= |buf.payload| < TWO_TO_16
    }
  }
  type Arrival = a: RawArrival | a.Delivered()
    witness Arrival(Buffer(0, [0,0,0,0,0,0, 0,0,0,0,0,0, 0,0, 0,0]), 14)

  datatype Mode = WStart | FRun | Run

  datatype Indication =
    | Start
    | Stop
    | NewData
    | StatusChanged(before: byte, now: byte)

  datatype ArError = NoError | InvalidState | CpmInvalid | DhtExpired

  datatype Params = Params(
    dataHoldFactor: uint16,
    sendClockFactor: uint16,
    reductionRatio: uint16,
    cSduLength: uint16,
    initiatorMac: Mac)

  /** What activation fixes for as long as the instance stays active. */
  datatype Config = Config(
    sa: Mac,
    dataHoldFactor: uint16,
    controlInterval: nat,
    bufferLength: nat)

  datatype Cpm = Cpm(
    mode: Mode,
    cfg: Config,
    cycle: int,
    dht: nat,
    bufferCpm: Option<Buffer>,
    bufferApp: Option<Buffer>,
    newBuf: bool,
    bufferPos: nat,
    dataStatus: byte,
    ciRunning: bool,
    error: ArError,
    env: Env)

  /** What the scheduler, the other state machines and the buffer pool have seen. */
  datatype Env = Env(
    timers: nat,
    indications: seq<Indication>,
    received: seq<Buffer>,
    freed: seq<Buffer>)
  {
    function Free(o: Option<Buffer>): Env {
      if o.Some? then this.(freed := freed + [o.value]) else this
    }

    function Indicate(i: Indication): Env {
      this.(indications := indications + [i])
    }
  }

  const ZERO_MAC: Mac := [0, 0, 0, 0, 0, 0]

  /** A zero-initialised instance. */
  const ZEROED: Cpm :=
    Cpm(WStart, Config(ZERO_MAC, 0, 0, 0), 0, 0, None, None, false, 0, 0, false, NoError,
        Env(0, [], [], []))

  // ---------------------------------------------------------------- frame layout

  function CycleOf(b: Buffer): (c: uint16)
    requires |b.payload| >= 4
  {
    var pos := |b.payload| - 4;
    var high: int, low: int := b.payload[pos], b.payload[pos + 1];
    high * 256 + low
  }

  function DataStatusOf(b: Buffer): byte
    requires |b.payload| >= 4
  {
    b.payload[|b.payload| - 2]
  }

  function TransferStatusOf(b: Buffer): byte
    requires |b.payload| >= 4
  {
    b.payload[|b.payload| - 1]
  }

  /** Bit 2 of the data status. */
  predicate DataValid(status: byte) { status / 4 % 2 == 1 }

  /** The cycle counter check: `(uint16_t)(now - (uint16_t)prev)` lies in 1..61440. */
  predicate CheckCycle(prev: int, now: uint16) {
    1 <= (now - prev % TWO_TO_16) % TWO_TO_16 <= 61440
  }

  /** Right provider address, right length once a VLAN tag is discounted, no transfer error. */
  predicate FrameStructure(cfg: Config, a: Arrival) {
    && TransferStatusOf(a.buf) == 0
    && a.buf.payload[6..12] == cfg.sa
    && (|a.buf.payload| - a.pos + 14) % TWO_TO_16 == cfg.bufferLength
  }

  /** A frame from the right provider, of the right shape, carrying valid data. */
  predicate ValidFrame(cfg: Config, a: Arrival) {
    FrameStructure(cfg, a) && DataValid(DataStatusOf(a.buf))
  }

  /** The frame is taken as new data and restarts the watchdog. */
  predicate Accepts(s: Cpm, a: Arrival) {
    s.mode != WStart && ValidFrame(s.cfg, a) && CheckCycle(s.cycle, CycleOf(a.buf))
  }

  // ---------------------------------------------------------------- buffer slots

  /** What a reader is given: the newest accepted buffer. */
  function Latest(s: Cpm): Option<Buffer> {
    if s.newBuf then s.bufferCpm else s.bufferApp
  }

  // ---------------------------------------------------------------- entry points

  function OnCreate(s: Cpm): Cpm {
    s.(mode := WStart)
  }

  function ControlInterval(p: Params): nat {
    p.sendClockFactor * p.reductionRatio * 1000 % TWO_TO_32 / 32
  }

  function ConfigFor(p: Params): Config {
    Config(p.initiatorMac, p.dataHoldFactor, ControlInterval(p), (16 + p.cSduLength + 4) % TWO_TO_16)
  }

  /** `added` says whether the scheduler accepted the timer. */
  function OnActivate(s: Cpm, p: Params, added: bool): Cpm {
    if s.mode != WStart then
      s.(error := InvalidState)
    else
      var t := s.(cfg := ConfigFor(p), cycle := -1, dht := 0, bufferPos := 16, dataStatus := 0);
      if added then
        t.(ciRunning := true, mode := FRun, env := t.env.(timers := t.env.timers + 1))
      else
        t.(error := CpmInvalid)
  }

  function OnClose(s: Cpm): Cpm {
    s.(mode := WStart, ciRunning := false,
       env := s.env.(timers := 0).Free(s.bufferCpm).Free(s.bufferApp))
  }

  /** The control interval timer fires. `rearmed` says whether the scheduler took the
      timer again. Without a pending timer nothing fires. */
  function OnTick(s: Cpm, rearmed: bool): Cpm {
    if s.env.timers == 0 then
      s
    else if !s.ciRunning then
      s.(env := s.env.(timers := s.env.timers - 1))
    else if s.mode == Run && s.dht >= s.cfg.dataHoldFactor then
      s.(error := DhtExpired, dht := 0, ciRunning := false, mode := WStart,
         env := s.env.(timers := s.env.timers - 1).Indicate(Stop))
    else
      var dht := if s.mode == Run then s.dht + 1 else s.dht;
      if rearmed then
        s.(dht := dht)
      else
        s.(dht := dht, error := CpmInvalid, env := s.env.(timers := s.env.timers - 1))
  }

  /** The indications given when a frame with data status `status` is accepted. */
  function IndicateAccept(env: Env, mode: Mode, before: byte, status: byte): Env {
    var started := if mode == FRun then env.Indicate(Start) else env;
    var informed := started.Indicate(NewData);
    if before != status then informed.Indicate(StatusChanged(before, status)) else informed
  }

  function OnFrame(s: Cpm, a: Arrival): Cpm {
    var env := s.env.(received := s.env.received + [a.buf]);
    if s.mode == WStart then
      s.(error := InvalidState, env := env.Free(Some(a.buf)))
    else if !Accepts(s, a) then
      s.(env := env.Free(Some(a.buf)))
    else
      var status := DataStatusOf(a.buf);
      s.(mode := Run,
         bufferCpm := Some(a.buf),
         newBuf := true,
         bufferPos := a.pos + 2,
         dht := 0,
         cycle := CycleOf(a.buf),
         dataStatus := status,
         env := IndicateAccept(env, s.mode, s.dataStatus, status).Free(s.bufferCpm))
  }

  /** Bring the newest buffer over to the application side. */
  function OnSwap(s: Cpm): Cpm {
    if s.newBuf then
      s.(bufferApp := s.bufferCpm, bufferCpm := s.bufferApp, newBuf := false)
    else
      s
  }

  // ---------------------------------------------------------------- reading

  /** Where one submodule's data and status bytes lie within the C_SDU. */
  datatype IoItem = IoItem(
    dataOffset: nat, dataLength: nat,
    iopsOffset: nat, iopsLength: nat,
    iocsOffset: nat, iocsLength: nat)

  /** An empty part is within anything. */
  predicate Within(offset: nat, length: nat, size: nat) {
    length == 0 || offset + length <= size
  }

  predicate DataWithin(item: IoItem, size: nat) {
    Within(item.dataOffset, item.dataLength, size) && Within(item.iopsOffset, item.iopsLength, size)
  }

  predicate IocsWithin(item: IoItem, size: nat) {
    Within(item.iocsOffset, item.iocsLength, size)
  }

  /** What the item describes lies inside the buffer that a reader would be given. */
  predicate DataReadable(s: Cpm, item: IoItem) {
    Latest(s).Some? ==> DataWithin(item, |From(Latest(s).value.payload, s.bufferPos)|)
  }

  predicate IocsReadable(s: Cpm, item: IoItem) {
    Latest(s).Some? ==> IocsWithin(item, |From(Latest(s).value.payload, s.bufferPos)|)
  }

  datatype DataOutcome =
    | WrongState
    | TooSmall
    | NoData
    | Data(isNew: bool, data: seq<byte>, iops: seq<byte>)

  /** A part of a byte string; empty when it is not all there, which readers rule out by
      reading only what is inside. */
  function Bytes(s: seq<byte>, offset: nat, length: nat): seq<byte> {
    if offset + length <= |s| then s[offset..offset + length] else []
  }

  function From(s: seq<byte>, pos: nat): seq<byte> {
    if pos <= |s| then s[pos..] else []
  }

  /** `data` are the `length` bytes of `payload` from `start` on. */
  predicate Copied(data: seq<byte>, payload: seq<byte>, start: nat, length: nat) {
    |data| == length && forall k :: 0 <= k < length ==> start + k < |payload| && data[k] == payload[start + k]
  }

  lemma BytesAreCopied(payload: seq<byte>, pos: nat, offset: nat, length: nat)
    requires Within(offset, length, |From(payload, pos)|)
    ensures Copied(Bytes(From(payload, pos), offset, length), payload, pos + offset, length)
  {
  }

  predicate Reads(s: Cpm, item: IoItem, dataCapacity: nat, iopsCapacity: nat) {
    s.mode != WStart && item.dataLength <= dataCapacity && item.iopsLength <= iopsCapacity
  }

  function OnReadData(s: Cpm, item: IoItem, dataCapacity: nat, iopsCapacity: nat): Cpm {
    if s.mode == WStart then s.(error := InvalidState)
    else if Reads(s, item, dataCapacity, iopsCapacity) then OnSwap(s)
    else s
  }

  function ReadData(s: Cpm, item: IoItem, dataCapacity: nat, iopsCapacity: nat): DataOutcome {
    if s.mode == WStart then WrongState
    else if !Reads(s, item, dataCapacity, iopsCapacity) then TooSmall
    else
      match Latest(s)
      case None => NoData
      case Some(b) =>
        var cSdu := From(b.payload, s.bufferPos);
        Data(s.newBuf,
             Bytes(cSdu, item.dataOffset, item.dataLength),
             Bytes(cSdu, item.iopsOffset, item.iopsLength))
  }

  predicate ReadsIocs(s: Cpm, item: IoItem, capacity: nat) {
    s.mode != WStart && 0 < item.iocsLength <= capacity
  }

  function OnReadIocs(s: Cpm, item: IoItem, capacity: nat): Cpm {
    if s.mode == WStart then s.(error := InvalidState)
    else if ReadsIocs(s, item, capacity) then OnSwap(s)
    else s
  }

  function ReadIocs(s: Cpm, item: IoItem, capacity: nat): Option<seq<byte>> {
    if !ReadsIocs(s, item, capacity) then None
    else
      match Latest(s)
      case None => None
      case Some(b) => Some(Bytes(From(b.payload, s.bufferPos), item.iocsOffset, item.iocsLength))
  }

  // ---------------------------------------------------------------- the instance itself

  class CpmInstance {
    var mode: Mode
    var cfg: Config
    var cycle: int
    var dht: nat
    var bufferCpm: Option<Buffer>
    var bufferApp: Option<Buffer>
    var newBuf: bool
    var frameIdPos: nat
    var bufferPos: nat
    var dataStatus: byte
    var ciRunning: bool
    var error: ArError

    ghost var env: Env

    ghost function View(): Cpm
      reads this
    {
      Cpm(mode, cfg, cycle, dht, bufferCpm, bufferApp, newBuf, bufferPos, dataStatus, ciRunning, error, env)
    }

    constructor ()
      ensures View() == ZEROED
    {
      mode, cfg := WStart, ZEROED.cfg;
      cycle, dht, bufferCpm, bufferApp, newBuf := 0, 0, None, None, false;
      frameIdPos, bufferPos, dataStatus := 0, 0, 0;
      ciRunning, error := false, NoError;
      env := ZEROED.env;
    }

    method Create()
      modifies this
      ensures View() == OnCreate(old(View()))
    {
      mode := WStart;
    }

    method Activate(p: Params, added: bool) returns (ok: bool)
      modifies this
      ensures View() == OnActivate(old(View()), p, added)
      ensures ok == (old(mode) == WStart && added)
      ensures ok ==>
                && mode == FRun && ciRunning && cycle == -1 && dht == 0 && dataStatus == 0 && bufferPos == 16
                && env.timers == old(env.timers) + 1
      ensures !ok ==> error == (if old(mode) == WStart then CpmInvalid else InvalidState)
    {
      ok := false;
      if mode == WStart {
        var header := 2 * 6 + 2 + 2;
        cfg := Config(p.initiatorMac, p.dataHoldFactor, ControlInterval(p),
                      (header + p.cSduLength + 2 + 1 + 1) % TWO_TO_16);
        cycle := -1;
        dht := 0;
        bufferPos := header;
        dataStatus := 0;
        if added {
          env := env.(timers := env.timers + 1);
          ciRunning := true;
          ok := true;
          mode := FRun;
        } else {
          error := CpmInvalid;
        }
      } else {
        error := InvalidState;
      }
    }

    method Close()
      modifies this
      ensures View() == OnClose(old(View()))
      ensures mode == WStart && !ciRunning && env.timers == 0
      ensures bufferCpm == old(bufferCpm) && bufferApp == old(bufferApp)
    {
      mode := WStart;
      ciRunning := false;
      env := env.(timers := 0);
      if bufferCpm.Some? {
        env := env.Free(bufferCpm);
      }
      if bufferApp.Some? {
        env := env.Free(bufferApp);
      }
    }

    method ControlIntervalExpired(rearmed: bool)
      requires env.timers > 0
      modifies this
      ensures View() == OnTick(old(View()), rearmed)
      ensures ciRunning && !rearmed ==> error == CpmInvalid && env.timers == old(env.timers) - 1
      ensures old(ciRunning) && !ciRunning ==> mode == WStart && dht == 0 && error == DhtExpired
    {
      env := env.(timers := env.timers - 1);
      if ciRunning {
        if mode == Run {
          if dht >= cfg.dataHoldFactor {
            error := DhtExpired;
            dht := 0;
            ciRunning := false;
            env := env.Indicate(Stop);
            mode := WStart;
          } else {
            dht := dht + 1;
          }
        }
        if ciRunning {
          if rearmed {
            env := env.(timers := env.timers + 1);
          } else {
            error := CpmInvalid;
          }
        }
      }
    }

    /** Hands in the new buffer and takes out the one it replaces. */
    method PutBuf(buf: Buffer) returns (previous: Option<Buffer>)
      modifies this`bufferCpm, this`newBuf
      ensures bufferCpm == Some(buf) && newBuf
      ensures previous == old(bufferCpm)
    {
      previous := bufferCpm;
      bufferCpm := Some(buf);
      newBuf := true;
    }

    method GetBuf() returns (isNew: bool, buffer: Option<Buffer>)
      modifies this`bufferCpm, this`bufferApp, this`newBuf
      ensures View() == OnSwap(old(View()))
      ensures isNew == old(newBuf) && buffer == Latest(old(View())) == bufferApp
    {
      if newBuf {
        isNew := true;
        bufferApp, bufferCpm := bufferCpm, bufferApp;
        newBuf := false;
      } else {
        isNew := false;
      }
      buffer := bufferApp;
    }

    /** The frame passed all checks: keep its data and restart the watchdog.
        Returns the buffer that is left over. */
    method Reload(a: Arrival, now: uint16, status: byte, updateData: bool) returns (rest: Option<Buffer>)
      requires mode != WStart && updateData
      requires now == CycleOf(a.buf) && status == DataStatusOf(a.buf)
      modifies this`mode, this`bufferCpm, this`newBuf, this`frameIdPos, this`bufferPos
      modifies this`dht, this`cycle, this`dataStatus, this`env
      ensures mode == Run && dht == 0 && cycle == now && dataStatus == status
      ensures bufferCpm == Some(a.buf) && newBuf && bufferPos == a.pos + 2
      ensures rest == old(bufferCpm)
      ensures env == IndicateAccept(old(env), old(mode), old(dataStatus), status)
    {
      if mode == FRun {
        env := env.Indicate(Start);
      }
      rest := PutBuf(a.buf);
      frameIdPos := a.pos;
      bufferPos := frameIdPos + 2;
      env := env.Indicate(NewData);
      dht := 0;
      cycle := now;
      var before := dataStatus;
      dataStatus := status;
      if before != status {
        env := env.Indicate(StatusChanged(before, status));
      }
      mode := Run;
    }

    /** Takes the trailer apart and runs all the checks on it. */
    method CheckFrame(a: Arrival) returns (now: uint16, status: byte, dhtReload: bool, updateData: bool)
      ensures now == CycleOf(a.buf) && status == DataStatusOf(a.buf)
      ensures updateData == (ValidFrame(cfg, a) && CheckCycle(cycle, now))
      ensures DataValid(status) ==> dhtReload == updateData
    {
      var payload := a.buf.payload;
      var pos := |payload| - 4;
      var high: int, low: int := payload[pos], payload[pos + 1];
      now := high * 256 + low;
      status := payload[pos + 2];
      var transferStatus := payload[pos + 3];

      var dataValid := status / 4 % 2 != 0;
      var backup := status % 2 == 0;
      var primary := status % 2 != 0;
      var len := (|payload| - a.pos + 2 * 6 + 2) % TWO_TO_16;
      var frameStructure := transferStatus == 0 && payload[6..12] == cfg.sa && len == cfg.bufferLength;
      var cSduStructure := CheckCycle(cycle, now);
      dhtReload := frameStructure && cSduStructure && (dataValid || backup);
      updateData := frameStructure && cSduStructure && dataValid && (primary || backup);
    }

    /** A cyclic data frame arrives. The buffer is always consumed here. */
    method CDataInd(a: Arrival)
      modifies this
      ensures View() == OnFrame(old(View()), a)
      ensures old(mode) == WStart ==> mode == WStart && error == InvalidState
    {
      env := env.(received := env.received + [a.buf]);
      var rest: Option<Buffer> := Some(a.buf);
      if mode == WStart {
        error := InvalidState;
      } else {
        var now, status, dhtReload, updateData := CheckFrame(a);
        if DataValid(status) && dhtReload {
          rest := Reload(a, now, status, updateData);
        }
      }
      if rest.Some? {
        env := env.Free(rest);
      }
    }

    method GetDataAndIops(item: IoItem, dataCapacity: nat, iopsCapacity: nat) returns (r: DataOutcome)
      requires Reads(View(), item, dataCapacity, iopsCapacity) ==> DataReadable(View(), item)
      modifies this
      ensures r == ReadData(old(View()), item, dataCapacity, iopsCapacity)
      ensures r.Data? ==>
                var buffer := if old(newBuf) then old(bufferCpm) else old(bufferApp);
                && buffer.Some? && r.isNew == old(newBuf)
                && Copied(r.data, buffer.value.payload, bufferPos + item.dataOffset, item.dataLength)
                && Copied(r.iops, buffer.value.payload, bufferPos + item.iopsOffset, item.iopsLength)
      ensures r == WrongState ==> mode == WStart && error == InvalidState
      ensures View() == OnReadData(old(View()), item, dataCapacity, iopsCapacity)
    {
      if mode == WStart {
        error := InvalidState;
        r := WrongState;
      } else if dataCapacity < item.dataLength || iopsCapacity < item.iopsLength {
        r := TooSmall;
      } else {
        var isNew, buffer := GetBuf();
        if buffer.Some? {
          var data, iops := [], [];
          var cSdu := From(buffer.value.payload, bufferPos);
          if item.dataLength > 0 {
            data := cSdu[item.dataOffset..item.dataOffset + item.dataLength];
          }
          if item.iopsLength > 0 {
            iops := cSdu[item.iopsOffset..item.iopsOffset + item.iopsLength];
          }
          r := Data(isNew, data, iops);
          BytesAreCopied(buffer.value.payload, bufferPos, item.dataOffset, item.dataLength);
          BytesAreCopied(buffer.value.payload, bufferPos, item.iopsOffset, item.iopsLength);
        } else {
          r := NoData;
        }
      }
    }

    method GetIocs(item: IoItem, capacity: nat) returns (r: Option<seq<byte>>)
      requires ReadsIocs(View(), item, capacity) ==> IocsReadable(View(), item)
      modifies this
      ensures r == ReadIocs(old(View()), item, capacity)
      ensures r.Some? ==>
                var buffer := if old(newBuf) then old(bufferCpm) else old(bufferApp);
                && buffer.Some?
                && Copied(r.value, buffer.value.payload, bufferPos + item.iocsOffset, item.iocsLength)
      ensures old(mode) == WStart ==> r.None? && error == InvalidState
      ensures View() == OnReadIocs(old(View()), item, capacity)
    {
      r := None;
      if mode == WStart {
        error := InvalidState;
      } else if 0 < item.iocsLength <= capacity {
        var _, buffer := GetBuf();
        if buffer.Some? {
          BytesAreCopied(buffer.value.payload, bufferPos, item.iocsOffset, item.iocsLength);
          r := Some(From(buffer.value.payload, bufferPos)[item.iocsOffset..item.iocsOffset + item.iocsLength]);
        }
      }
    }
  }
}

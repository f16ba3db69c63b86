/** The two-slot buffer exchange between the receive thread and an application thread, one
    locked section or unlocked access at a time, against a one-place register. */
module CpmExchange {
  import opened Basics

  /** A frame, and where in it the data start: behind the frame id, which a VLAN tag moves. */
  datatype Frame = Frame(payload: seq<byte>, pos: nat)

  /** The receive thread has swapped its buffer in, and still has to store the position of its
      data and to free what came out. */
  datatype ReceiverPc =
    | Idle
    | Positioning(out: Option<nat>, pos: nat)
    | Freeing(out: Option<nat>)

  /** A reader brings the newest buffer over under the lock, then takes a pointer to the data
      without it, then copies under the lock again. */
  datatype ReaderPc = Outside | Swapped(isNew: bool) | Copying(isNew: bool, p: Option<nat>, from: nat)

  /** Data taken from a position of a frame. */
  datatype Read = Read(frame: Frame, from: nat)

  datatype Outcome = Got(isNew: bool, read: Option<Read>) | UsedFreed

  /** `memory` holds the buffers that are allocated, by address. */
  datatype System = System(
    memory: map<nat, Frame>,
    cpm: Option<nat>,
    app: Option<nat>,
    newBuf: bool,
    bufferPos: nat,
    receiver: ReceiverPc,
    readers: map<nat, ReaderPc>,
    results: seq<(nat, Outcome)>)

  /** Activation leaves a buffer position. */
  function Initial(pos: nat): System { System(map[], None, None, false, pos, Idle, map[], []) }

  datatype Action =
    | Put(address: nat, frame: Frame)
    | StorePosition
    | FreeOld
    | Swap(reader: nat)
    | TakePointer(reader: nat)
    | Copy(reader: nat)

  function Pc(s: System, r: nat): ReaderPc {
    if r in s.readers then s.readers[r] else Outside
  }

  predicate Enabled(s: System, a: Action) {
    match a
    case Put(address, _) => s.receiver.Idle? && address !in s.memory
    case StorePosition => s.receiver.Positioning?
    case FreeOld => s.receiver.Freeing?
    case Swap(r) => Pc(s, r).Outside?
    case TakePointer(r) => Pc(s, r).Swapped?
    case Copy(r) => Pc(s, r).Copying?
  }

  function CopyOut(s: System, isNew: bool, p: Option<nat>, from: nat): Outcome {
    if p.None? then Got(false, None)
    else if p.value in s.memory then Got(isNew, Some(Read(s.memory[p.value], from)))
    else UsedFreed
  }

  /** One atomic step; nothing happens if it is not enabled. */
  function Apply(s: System, a: Action): System {
    if !Enabled(s, a) then s else
    match a
    case Put(address, frame) =>
      s.(memory := s.memory[address := frame], cpm := Some(address), newBuf := true,
         receiver := Positioning(s.cpm, frame.pos))
    case StorePosition =>
      s.(bufferPos := s.receiver.pos, receiver := Freeing(s.receiver.out))
    case FreeOld =>
      s.(memory := if s.receiver.out.Some? then s.memory - {s.receiver.out.value} else s.memory,
         receiver := Idle)
    case Swap(r) =>
      if s.newBuf then
        s.(app := s.cpm, cpm := s.app, newBuf := false, readers := s.readers[r := Swapped(true)])
      else
        s.(readers := s.readers[r := Swapped(false)])
    case TakePointer(r) =>
      s.(readers := s.readers[r := Copying(Pc(s, r).isNew, s.app, s.bufferPos)])
    case Copy(r) =>
      var pc := Pc(s, r);
      s.(results := s.results + [(r, CopyOut(s, pc.isNew, pc.p, pc.from))], readers := s.readers[r := Outside])
  }

  function Run(s: System, actions: seq<Action>): System {
    if actions == [] then s else Apply(Run(s, DropLast(actions)), Last(actions))
  }

  // ---------------------------------------------------------------- the register

  /** What the exchange is meant to be: the newest frame and whether anyone has seen it.
      A reader's answer is decided at the moment of its swap. */
  datatype Register = Register(
    latest: Option<Frame>,
    unread: bool,
    answers: map<nat, Outcome>,
    results: seq<(nat, Outcome)>)

  const BLANK := Register(None, false, map[], [])

  /** The data of a frame, from where they start. */
  function DataOf(f: Option<Frame>): Option<Read> {
    if f.Some? then Some(Read(f.value, f.value.pos)) else None
  }

  function Respond(g: Register, a: Action): Register {
    match a
    case Put(_, frame) => g.(latest := Some(frame), unread := true)
    case Swap(r) => g.(unread := false, answers := g.answers[r := Got(g.unread, DataOf(g.latest))])
    case Copy(r) =>
      if r in g.answers then g.(results := g.results + [(r, g.answers[r])], answers := g.answers - {r}) else g
    case _ => g
  }

  /** The register driven by the steps that really happen. */
  function Reference(s: System, actions: seq<Action>): Register {
    if actions == [] then BLANK else
    var before := Reference(s, DropLast(actions));
    if Enabled(Run(s, DropLast(actions)), Last(actions)) then Respond(before, Last(actions)) else before
  }

  // ---------------------------------------------------------------- one reader

  predicate IsReading(a: Action) { a.Swap? || a.TakePointer? || a.Copy? }

  predicate ReadsOnlyBy(a: Action, r: nat) {
    IsReading(a) ==> a.reader == r
  }

  predicate SingleReader(actions: seq<Action>, r: nat) {
    forall i :: 0 <= i < |actions| ==> ReadsOnlyBy(actions[i], r)
  }

  function Out(s: System): Option<nat> {
    if s.receiver.Idle? then None else s.receiver.out
  }

  predicate Distinct(a: Option<nat>, b: Option<nat>) {
    a.Some? ==> a != b
  }

  /** The allocated buffers are exactly those in a slot or on their way out, each in one place. */
  ghost predicate Ownership(s: System) {
    && Distinct(s.cpm, s.app) && Distinct(s.cpm, Out(s)) && Distinct(s.app, Out(s))
    && forall p :: p in s.memory <==> Some(p) == s.cpm || Some(p) == s.app || Some(p) == Out(s)
  }

  function Content(s: System, p: Option<nat>): Option<Frame> {
    if p.Some? && p.value in s.memory then Some(s.memory[p.value]) else None
  }

  /** The same frame, if any, and the same freshness; the positions may differ. */
  predicate SameFrame(a: Outcome, b: Outcome) {
    && a.Got? && b.Got? && a.isNew == b.isNew && a.read.Some? == b.read.Some?
    && (a.read.Some? ==> a.read.value.frame == b.read.value.frame)
  }

  predicate SameFrames(a: seq<(nat, Outcome)>, b: seq<(nat, Outcome)>) {
    |a| == |b| && forall i :: 0 <= i < |a| ==> a[i].0 == b[i].0 && SameFrame(a[i].1, b[i].1)
  }

  /** The slots, the pointer a reader works on and the register agree. */
  predicate Refines(s: System, g: Register, r: nat) {
    && (s.newBuf ==> s.cpm.Some?)
    && g.latest == Content(s, if s.newBuf then s.cpm else s.app)
    && g.unread == s.newBuf
    && SameFrames(g.results, s.results)
    && (r in g.answers <==> !Pc(s, r).Outside?)
    && (r in g.answers ==> g.answers[r] == Got(Pc(s, r).isNew, DataOf(Content(s, s.app)))
                           && (Pc(s, r).isNew ==> s.app.Some?))
    && (Pc(s, r).Copying? ==> Pc(s, r).p == s.app)
  }

  lemma StepRefines(s: System, g: Register, a: Action, r: nat)
    requires Ownership(s) && Refines(s, g, r) && Enabled(s, a) && ReadsOnlyBy(a, r)
    ensures Ownership(Apply(s, a)) && Refines(Apply(s, a), Respond(g, a), r)
  {
    StepOwns(s, a);
    StepAgrees(s, g, a, r);
  }

  lemma StepOwns(s: System, a: Action)
    requires Ownership(s) && Enabled(s, a)
    ensures Ownership(Apply(s, a))
  {
  }

  lemma StepAgrees(s: System, g: Register, a: Action, r: nat)
    requires Ownership(s) && Refines(s, g, r) && Enabled(s, a) && ReadsOnlyBy(a, r)
    ensures Refines(Apply(s, a), Respond(g, a), r)
  {
  }

  /** The exchange is a register of frames. For every interleaving of the receive thread with
      one reader: every read returns the frame that the register held at its swap, and whether
      it was fresh; the buffer under the reader's pointer stays allocated and is never the one
      being freed; and no more than three buffers are ever allocated. */
  lemma {:induction false} ExchangeIsARegister(pos: nat, actions: seq<Action>, r: nat)
    requires SingleReader(actions, r)
    ensures var s := Run(Initial(pos), actions);
            && Ownership(s)
            && Refines(s, Reference(Initial(pos), actions), r)
            && (Pc(s, r).Copying? && Pc(s, r).p.Some? ==>
                  Pc(s, r).p.value in s.memory && Pc(s, r).p != Out(s))
  {
    if actions != [] {
      var before := DropLast(actions);
      ExchangeIsARegister(pos, before, r);
      assert ReadsOnlyBy(actions[|actions| - 1], r);
      if Enabled(Run(Initial(pos), before), Last(actions)) {
        StepRefines(Run(Initial(pos), before), Reference(Initial(pos), before), Last(actions), r);
      }
    }
  }

  // ---------------------------------------------------------------- where the data start

  /** The frames received have their data at positions of `positions`. */
  predicate UsesPositions(actions: seq<Action>, positions: set<nat>) {
    forall i :: 0 <= i < |actions| && actions[i].Put? ==> actions[i].frame.pos in positions
  }

  /** One reader alone can come to read something else than the register held: the right
      frame from a wrong position. */
  ghost predicate CanMisread(pos: nat, positions: set<nat>, r: nat) {
    exists actions ::
      && SingleReader(actions, r) && UsesPositions(actions, positions)
      && Run(Initial(pos), actions).results != Reference(Initial(pos), actions).results
  }

  /** The position is stored outside the lock and after the frame can be fetched. Reads are
      right, whatever the interleaving, exactly if the position never changes: all frames
      have their data where activation supposes them. */
  lemma MisreadExactly(pos: nat, positions: set<nat>, r: nat)
    ensures CanMisread(pos, positions, r) <==> exists p :: p in positions && p != pos
  {
    if p :| p in positions && p != pos {
      FirstFrameMisread(pos, positions, r, Frame([], p));
    } else if CanMisread(pos, positions, r) {
      var actions :| SingleReader(actions, r) && UsesPositions(actions, positions)
                     && Run(Initial(pos), actions).results != Reference(Initial(pos), actions).results;
      ConstantPosition(pos, actions, r);
      assert false;
    }
  }

  predicate From(o: Outcome, pos: nat) {
    o.Got? && (o.read.Some? ==> o.read.value.from == o.read.value.frame.pos == pos)
  }

  /** Everything has position `pos`. */
  predicate Placed(s: System, pos: nat) {
    && s.bufferPos == pos
    && (s.receiver.Positioning? ==> s.receiver.pos == pos)
    && (forall p :: p in s.memory ==> s.memory[p].pos == pos)
    && (forall r :: r in s.readers && s.readers[r].Copying? ==> s.readers[r].from == pos)
    && (forall i :: 0 <= i < |s.results| ==> s.results[i].1.UsedFreed? || From(s.results[i].1, pos))
  }

  predicate RegisterPlaced(g: Register, pos: nat) {
    && (g.latest.Some? ==> g.latest.value.pos == pos)
    && (forall r :: r in g.answers ==> From(g.answers[r], pos))
    && (forall i :: 0 <= i < |g.results| ==> From(g.results[i].1, pos))
  }

  lemma StepPlaced(s: System, g: Register, a: Action, pos: nat)
    requires Placed(s, pos) && RegisterPlaced(g, pos) && (a.Put? ==> a.frame.pos == pos)
    ensures Placed(Apply(s, a), pos) && RegisterPlaced(Respond(g, a), pos)
  {
  }

  lemma {:induction false} RunPlaced(pos: nat, actions: seq<Action>)
    requires UsesPositions(actions, {pos})
    ensures Placed(Run(Initial(pos), actions), pos)
    ensures RegisterPlaced(Reference(Initial(pos), actions), pos)
  {
    if actions != [] {
      RunPlaced(pos, DropLast(actions));
      assert Last(actions) == actions[|actions| - 1];
      StepPlaced(Run(Initial(pos), DropLast(actions)), Reference(Initial(pos), DropLast(actions)), Last(actions), pos);
    }
  }

  /** With one position the exchange is the register in every respect. */
  lemma ConstantPosition(pos: nat, actions: seq<Action>, r: nat)
    requires SingleReader(actions, r) && UsesPositions(actions, {pos})
    ensures Run(Initial(pos), actions).results == Reference(Initial(pos), actions).results
  {
    ExchangeIsARegister(pos, actions, r);
    RunPlaced(pos, actions);
    var a, b := Run(Initial(pos), actions).results, Reference(Initial(pos), actions).results;
    forall i | 0 <= i < |a| ensures a[i] == b[i] {
      assert SameFrame(b[i].1, a[i].1);
    }
  }

  /** The first frame is fetched and read before its position is stored. */
  lemma FirstFrameMisread(pos: nat, positions: set<nat>, r: nat, f: Frame)
    requires f.pos in positions && f.pos != pos
    ensures CanMisread(pos, positions, r)
  {
    var t, s, g := [], Initial(pos), BLANK;
    t, s, g := Both(pos, t, s, g, positions, r, Put(1, f));
    t, s, g := Both(pos, t, s, g, positions, r, Swap(r));
    t, s, g := Both(pos, t, s, g, positions, r, TakePointer(r));
    assert Pc(s, r) == Copying(true, Some(1), pos) && g.answers[r] == Got(true, Some(Read(f, f.pos)));
    t, s, g := Both(pos, t, s, g, positions, r, Copy(r));
    assert s.results[0] != g.results[0];
  }

  /** One step of the exchange and of the register. */
  lemma Both(pos: nat, actions: seq<Action>, s: System, g: Register, positions: set<nat>, r: nat, a: Action)
    returns (longer: seq<Action>, s': System, g': Register)
    requires Run(Initial(pos), actions) == s && Reference(Initial(pos), actions) == g && Enabled(s, a)
    requires SingleReader(actions, r) && UsesPositions(actions, positions)
    requires ReadsOnlyBy(a, r) && (a.Put? ==> a.frame.pos in positions)
    ensures s' == Apply(s, a) && g' == Respond(g, a)
    ensures Run(Initial(pos), longer) == s' && Reference(Initial(pos), longer) == g'
    ensures SingleReader(longer, r) && UsesPositions(longer, positions)
  {
    longer, s', g' := actions + [a], Apply(s, a), Respond(g, a);
    assert DropLast(longer) == actions;
  }

  // ---------------------------------------------------------------- how many readers

  predicate ReadOnlyBy(actions: seq<Action>, readers: set<nat>) {
    forall i :: 0 <= i < |actions| && IsReading(actions[i]) ==> actions[i].reader in readers
  }

  /** Someone can come to copy from a freed buffer. */
  ghost predicate CanUseFreed(pos: nat, readers: set<nat>) {
    exists actions, r :: ReadOnlyBy(actions, readers) && (r, UsedFreed) in Run(Initial(pos), actions).results
  }

  /** The exchange is safe for one reader and for no more: with two, one can still be copying
      a buffer that the other has given back to the receive thread, which then frees it. */
  lemma OneReaderExactly(pos: nat, readers: set<nat>)
    ensures CanUseFreed(pos, readers) <==> |readers| > 1
  {
    if |readers| > 1 {
      var first :| first in readers;
      assert |readers - {first}| == |readers| - 1;
      var second :| second in readers - {first};
      TwoReadersUseFreedMemory(pos, readers, first, second, Frame([], pos));
    } else if CanUseFreed(pos, readers) {
      var actions: seq<Action>, r :|
        ReadOnlyBy(actions, readers) && (r, UsedFreed) in Run(Initial(pos), actions).results;
      var reader := LoneReader(readers);
      assert SingleReader(actions, reader);
      ExchangeIsARegister(pos, actions, reader);
      assert false;
    }
  }

  lemma LoneReader(readers: set<nat>) returns (reader: nat)
    requires |readers| <= 1
    ensures forall r :: r in readers ==> r == reader
  {
    reader := 0;
    if readers != {} {
      reader :| reader in readers;
      assert |readers - {reader}| == |readers| - 1;
    }
  }

  lemma TwoReadersUseFreedMemory(pos: nat, readers: set<nat>, first: nat, second: nat, f: Frame)
    requires first in readers && second in readers && first != second && f.pos == pos
    ensures CanUseFreed(pos, readers)
  {
    var t, s := FirstReaderCopies(pos, readers, first, f);
    t, s := OtherReaderSwaps(pos, readers, t, s, first, second, f);
    t, s := Receives(pos, readers, t, s, 3, f);
    t, s := Then(pos, t, s, readers, Copy(first));
    assert s.results[0] == (first, UsedFreed);
  }

  lemma FirstReaderCopies(pos: nat, readers: set<nat>, first: nat, f: Frame) returns (t: seq<Action>, s: System)
    requires first in readers && f.pos == pos
    ensures Run(Initial(pos), t) == s && ReadOnlyBy(t, readers)
    ensures s == System(map[1 := f], None, Some(1), false, pos, Idle, map[first := Copying(true, Some(1), pos)], [])
  {
    t, s := Receives(pos, readers, [], Initial(pos), 1, f);
    t, s := Then(pos, t, s, readers, Swap(first));
    t, s := Then(pos, t, s, readers, TakePointer(first));
  }

  /** The second reader takes over the newer frame, so the first one's buffer goes back. */
  lemma OtherReaderSwaps(
    pos: nat, readers: set<nat>, actions: seq<Action>, s: System, first: nat, second: nat, f: Frame)
    returns (t: seq<Action>, u: System)
    requires Run(Initial(pos), actions) == s && ReadOnlyBy(actions, readers)
    requires second in readers && first != second && f.pos == pos
    requires s == System(map[1 := f], None, Some(1), false, pos, Idle, map[first := Copying(true, Some(1), pos)], [])
    ensures Run(Initial(pos), t) == u && ReadOnlyBy(t, readers)
    ensures u.memory == map[1 := f, 2 := f] && u.cpm == Some(1) && u.receiver.Idle? && u.bufferPos == pos
    ensures Pc(u, first) == Copying(true, Some(1), pos) && u.results == []
  {
    t, u := Receives(pos, readers, actions, s, 2, f);
    t, u := Then(pos, t, u, readers, Swap(second));
  }

  /** A frame comes in, and the buffer that came out for it is freed. */
  lemma Receives(pos: nat, readers: set<nat>, actions: seq<Action>, s: System, address: nat, f: Frame)
    returns (t: seq<Action>, u: System)
    requires Run(Initial(pos), actions) == s && ReadOnlyBy(actions, readers)
    requires s.receiver.Idle? && address !in s.memory
    ensures Run(Initial(pos), t) == u && ReadOnlyBy(t, readers)
    ensures var memory := s.memory[address := f];
            u == s.(memory := if s.cpm.Some? then memory - {s.cpm.value} else memory,
                    cpm := Some(address), newBuf := true, bufferPos := f.pos)
  {
    t, u := Then(pos, actions, s, readers, Put(address, f));
    t, u := Then(pos, t, u, readers, StorePosition);
    t, u := Then(pos, t, u, readers, FreeOld);
  }

  lemma Then(pos: nat, actions: seq<Action>, s: System, readers: set<nat>, a: Action)
    returns (longer: seq<Action>, t: System)
    requires Run(Initial(pos), actions) == s && ReadOnlyBy(actions, readers)
    requires IsReading(a) ==> a.reader in readers
    ensures t == Apply(s, a) && Run(Initial(pos), longer) == t && ReadOnlyBy(longer, readers)
  {
    longer, t := actions + [a], Apply(s, a);
    assert DropLast(longer) == actions;
  }
}

/** The plug callbacks of profi++: they pull and plug in the stack and keep a map of module
    and submodule instances in step with it. */
module PlugMirror {
  import opened Basics

  // ---------------------------------------------------------------- the stack

  /** What is plugged, by API, slot and subslot. */
  datatype Stack = Stack(modules: set<(nat, uint16)>, submodules: set<(nat, uint16, uint16)>)
  {
    /** Succeeds exactly when a module is plugged; its submodules go with it. */
    function PullModule(api: nat, slot: uint16): (Stack, bool) {
      if (api, slot) !in modules then (this, false)
      else
        (Stack(modules - {(api, slot)}, set s | s in submodules && (s.0, s.1) != (api, slot)), true)
    }

    function PlugModule(api: nat, slot: uint16): Stack {
      this.(modules := modules + {(api, slot)})
    }

    function PullSubmodule(api: nat, slot: uint16, subslot: uint16): (Stack, bool) {
      if (api, slot, subslot) !in submodules then (this, false)
      else (this.(submodules := submodules - {(api, slot, subslot)}), true)
    }

    /** Plugs the module as well if there is none yet. */
    function PlugSubmodule(api: nat, slot: uint16, subslot: uint16): Stack {
      Stack(modules + {(api, slot)}, submodules + {(api, slot, subslot)})
    }
  }

  // ---------------------------------------------------------------- the instances

  /** A submodule instance and how often it has been initialised. */
  datatype SubmoduleInst = SubmoduleInst(unknown: bool, initialisations: nat)

  datatype ModuleInst = ModuleInst(unknown: bool, subslots: map<uint16, SubmoduleInst>)

  const FRESH_MODULE := ModuleInst(false, map[])
  const FRESH_SUBMODULE := SubmoduleInst(true, 0)

  /** Configured module ids with the submodule ids configured for each. */
  type Configuration = map<nat, set<nat>>

  datatype World = World(slots: map<uint16, ModuleInst>, stack: Stack)

  const EMPTY := World(map[], Stack({}, {}))

  /** An indication together with the stack's answer to the plug request it leads to. */
  datatype Event =
    | ExpModule(api: nat, slot: uint16, moduleId: nat, accepted: bool)
    | ExpSubmodule(api: nat, slot: uint16, subslot: uint16, moduleId: nat, submoduleId: nat, accepted: bool)

  function OnExpModule(
    c: Configuration, w: World, api: nat, slot: uint16, moduleId: nat, accepted: bool): (World, int)
  {
    var (pulled, was) := w.stack.PullModule(api, slot);
    var slots := if was then w.slots - {slot} else w.slots;
    if !accepted then (World(slots, pulled), -1)
    else
      var plugged := pulled.PlugModule(api, slot);
      if slot in slots then (World(slots, plugged), -1)
      else (World(slots[slot := FRESH_MODULE.(unknown := moduleId !in c)], plugged), 0)
  }

  function OnExpSubmodule(
    c: Configuration, w: World, api: nat, slot: uint16, subslot: uint16, moduleId: nat, submoduleId: nat,
    accepted: bool): (World, int)
  {
    var m := if slot in w.slots then w.slots[slot] else FRESH_MODULE.(unknown := true);
    var (pulled, was) := w.stack.PullSubmodule(api, slot, subslot);
    var subslots := if was then m.subslots - {subslot} else m.subslots;
    if !accepted then (World(w.slots[slot := m.(subslots := subslots)], pulled), -1)
    else
      var i := if subslot in subslots then subslots[subslot] else FRESH_SUBMODULE;
      var known := moduleId in c && submoduleId in c[moduleId];
      var i' := SubmoduleInst(!known, i.initialisations + 1);
      (World(w.slots[slot := m.(subslots := subslots[subslot := i'])],
             pulled.PlugSubmodule(api, slot, subslot)), 0)
  }

  /** The map of instances and the stack behind it. */
  class ProfinetInternal {
    const configuration: Configuration
    var slots: map<uint16, ModuleInst>
    var stack: Stack

    function View(): World
      reads this
    {
      World(slots, stack)
    }

    constructor (c: Configuration)
      ensures configuration == c && View() == EMPTY
    {
      configuration, slots, stack := c, map[], Stack({}, {});
    }

    method CreateInSlot(slot: uint16) returns (created: bool)
      modifies this`slots
      ensures created == (slot !in old(slots))
      ensures slots == if created then old(slots)[slot := FRESH_MODULE] else old(slots)
    {
      created := slot !in slots;
      if created {
        slots := slots[slot := FRESH_MODULE];
      }
    }

    method RemoveFromSlot(slot: uint16) returns (removed: bool)
      modifies this`slots
      ensures removed == (slot in old(slots)) && slots == old(slots) - {slot}
    {
      removed := slot in slots;
      slots := slots - {slot};
    }

    /** Inserts a fresh instance unless there is one already. */
    method CreateInSubslot(slot: uint16, subslot: uint16)
      requires slot in slots
      modifies this`slots
      ensures var m := old(slots)[slot];
              slots == if subslot in m.subslots then old(slots)
                       else old(slots)[slot := m.(subslots := m.subslots[subslot := FRESH_SUBMODULE])]
    {
      var m := slots[slot];
      if subslot !in m.subslots {
        slots := slots[slot := m.(subslots := m.subslots[subslot := FRESH_SUBMODULE])];
      }
    }

    method RemoveFromSubslot(slot: uint16, subslot: uint16) returns (removed: bool)
      requires slot in slots
      modifies this`slots
      ensures var m := old(slots)[slot];
              && removed == (subslot in m.subslots)
              && slots == old(slots)[slot := m.(subslots := m.subslots - {subslot})]
    {
      var m := slots[slot];
      removed := subslot in m.subslots;
      slots := slots[slot := m.(subslots := m.subslots - {subslot})];
    }

    method CallbackExpModuleInd(api: nat, slot: uint16, moduleId: nat, accepted: bool) returns (ret: int)
      modifies this
      ensures (View(), ret) == OnExpModule(configuration, old(View()), api, slot, moduleId, accepted)
    {
      var (pulled, was) := stack.PullModule(api, slot);
      stack := pulled;
      if was {
        var _ := RemoveFromSlot(slot);
      }
      if !accepted {
        return -1;
      }
      stack := stack.PlugModule(api, slot);
      ghost var kept := slots;
      var created := CreateInSlot(slot);
      if !created {
        return -1;
      }
      slots := slots[slot := slots[slot].(unknown := moduleId !in configuration)];
      assert slots == kept[slot := FRESH_MODULE.(unknown := moduleId !in configuration)];
      ret := 0;
    }

    /** An indication for a submodule needs a module to put it in. */
    method EnsureModule(slot: uint16)
      modifies this`slots
      ensures var m := if slot in old(slots) then old(slots)[slot] else FRESH_MODULE.(unknown := true);
              slots == old(slots)[slot := m]
    {
      if slot !in slots {
        var _ := CreateInSlot(slot);
        slots := slots[slot := slots[slot].(unknown := true)];
      }
      assert old(slots)[slot := slots[slot]] == slots;
    }

    /** Creates the instance unless there is one already, and initialises it. */
    method InitialiseSubmodule(slot: uint16, subslot: uint16, known: bool)
      requires slot in slots
      modifies this`slots
      ensures var m := old(slots)[slot];
              var i := if subslot in m.subslots then m.subslots[subslot] else FRESH_SUBMODULE;
              var initialised := SubmoduleInst(!known, i.initialisations + 1);
              slots == old(slots)[slot := m.(subslots := m.subslots[subslot := initialised])]
    {
      CreateInSubslot(slot, subslot);
      var m := slots[slot];
      var initialised := SubmoduleInst(!known, m.subslots[subslot].initialisations + 1);
      slots := slots[slot := m.(subslots := m.subslots[subslot := initialised])];
      assert slots[slot].subslots == old(slots)[slot].subslots[subslot := initialised];
    }

    method CallbackExpSubmoduleInd(
      api: nat, slot: uint16, subslot: uint16, moduleId: nat, submoduleId: nat, accepted: bool) returns (ret: int)
      modifies this
      ensures (View(), ret)
           == OnExpSubmodule(configuration, old(View()), api, slot, subslot, moduleId, submoduleId, accepted)
    {
      var known := moduleId in configuration && submoduleId in configuration[moduleId];
      EnsureModule(slot);
      ghost var found := slots[slot];
      var (pulled, was) := stack.PullSubmodule(api, slot, subslot);
      stack := pulled;
      if was {
        var _ := RemoveFromSubslot(slot, subslot);
      }
      ghost var left := if was then found.subslots - {subslot} else found.subslots;
      assert slots == old(slots)[slot := found.(subslots := left)];
      if !accepted {
        return -1;
      }
      stack := stack.PlugSubmodule(api, slot, subslot);
      InitialiseSubmodule(slot, subslot, known);
      assert slots == old(slots)[slot := slots[slot]];
      ret := 0;
    }
  }

  // ---------------------------------------------------------------- runs

  function Step(c: Configuration, w: World, e: Event): World {
    match e
    case ExpModule(api, slot, moduleId, accepted) => OnExpModule(c, w, api, slot, moduleId, accepted).0
    case ExpSubmodule(api, slot, subslot, moduleId, submoduleId, accepted) =>
      OnExpSubmodule(c, w, api, slot, subslot, moduleId, submoduleId, accepted).0
  }

  function Run(c: Configuration, w: World, es: seq<Event>): World {
    if es == [] then w else Step(c, Run(c, w, DropLast(es)), Last(es))
  }

  predicate Holds(w: World, slot: uint16, subslot: uint16) {
    slot in w.slots && subslot in w.slots[slot].subslots
  }

  ghost predicate SomePlugged(w: World, slot: uint16, subslot: uint16) {
    exists api :: (api, slot, subslot) in w.stack.submodules
  }

  /** Instances and plugged submodules are the same, every instance has been initialised
      exactly once, and each belongs to a single API. */
  ghost predicate Mirrors(w: World) {
    && (forall slot: uint16, subslot: uint16 :: Holds(w, slot, subslot) <==> SomePlugged(w, slot, subslot))
    && (forall slot: uint16, subslot: uint16 ::
          Holds(w, slot, subslot) ==> w.slots[slot].subslots[subslot].initialisations == 1)
    && (forall p, q :: p in w.stack.submodules && q in w.stack.submodules && (p.1, p.2) == (q.1, q.2) ==> p.0 == q.0)
  }

  /** The stack has no submodule without its module. */
  predicate Orderly(w: World) {
    forall p :: p in w.stack.submodules ==> (p.0, p.1) in w.stack.modules
  }

  /** Another API has a submodule in the slot. */
  predicate SharesSlot(w: World, api: nat, slot: uint16) {
    exists p :: p in w.stack.submodules && p.1 == slot && p.0 != api
  }

  /** What upsets the mirror: pulling a module from a slot where another API has submodules,
      or plugging a submodule where another API has one. */
  predicate Upsets(w: World, e: Event) {
    match e
    case ExpModule(api, slot, _, _) => (api, slot) in w.stack.modules && SharesSlot(w, api, slot)
    case ExpSubmodule(api, slot, subslot, _, _, accepted) =>
      accepted && Holds(w, slot, subslot) && (api, slot, subslot) !in w.stack.submodules
  }

  lemma ModuleStep(c: Configuration, w: World, e: Event)
    requires e.ExpModule? && Mirrors(w) && Orderly(w)
    ensures Mirrors(Step(c, w, e)) <==> !Upsets(w, e)
  {
    var w' := Step(c, w, e);
    var pulled := (e.api, e.slot) in w.stack.modules;
    forall slot: uint16, subslot: uint16
      ensures Holds(w', slot, subslot) <==> Holds(w, slot, subslot) && !(pulled && slot == e.slot)
    {
    }
    if Upsets(w, e) {
      var p :| p in w.stack.submodules && p.1 == e.slot && p.0 != e.api;
      assert SomePlugged(w', e.slot, p.2) && !Holds(w', e.slot, p.2);
    } else {
      forall slot: uint16, subslot: uint16 | SomePlugged(w, slot, subslot) && !(pulled && slot == e.slot)
        ensures SomePlugged(w', slot, subslot)
      {
        var api :| (api, slot, subslot) in w.stack.submodules;
        assert (api, slot, subslot) in w'.stack.submodules;
      }
    }
  }

  lemma SubmoduleStep(c: Configuration, w: World, e: Event)
    requires e.ExpSubmodule? && Mirrors(w)
    ensures Mirrors(Step(c, w, e)) <==> !Upsets(w, e)
  {
    var w' := Step(c, w, e);
    var own := (e.api, e.slot, e.subslot);
    assert own in w.stack.submodules ==> SomePlugged(w, e.slot, e.subslot);
    if Upsets(w, e) {
      assert w'.slots[e.slot].subslots[e.subslot].initialisations == 2;
    } else {
      assert e.accepted ==> own in w'.stack.submodules;
      forall slot: uint16, subslot: uint16
        ensures SomePlugged(w', slot, subslot) <==> Holds(w', slot, subslot)
      {
        if (slot, subslot) != (e.slot, e.subslot) {
          OtherSubslots(c, w, e, slot, subslot);
        } else if e.accepted {
          assert own in w'.stack.submodules;
        } else {
          OwnSubslotRefused(c, w, e);
        }
      }
    }
  }

  /** A refused plug leaves the subslot to whichever other API has it. */
  lemma OwnSubslotRefused(c: Configuration, w: World, e: Event)
    requires e.ExpSubmodule? && !e.accepted && Mirrors(w)
    ensures var w' := Step(c, w, e);
            SomePlugged(w', e.slot, e.subslot) <==> Holds(w', e.slot, e.subslot)
  {
    var w' := Step(c, w, e);
    var own := (e.api, e.slot, e.subslot);
    assert Holds(w, e.slot, e.subslot) <==> SomePlugged(w, e.slot, e.subslot);
    forall api ensures (api, e.slot, e.subslot) in w'.stack.submodules
                       <==> (api, e.slot, e.subslot) in w.stack.submodules && api != e.api
    {
    }
    if own in w.stack.submodules {
      assert !Holds(w', e.slot, e.subslot);
      assert forall api :: (api, e.slot, e.subslot) in w.stack.submodules ==> api == e.api;
    } else if SomePlugged(w, e.slot, e.subslot) {
      var api :| (api, e.slot, e.subslot) in w.stack.submodules;
      assert (api, e.slot, e.subslot) in w'.stack.submodules;
    }
  }

  /** A submodule indication leaves all other subslots alone. */
  lemma OtherSubslots(c: Configuration, w: World, e: Event, slot: uint16, subslot: uint16)
    requires e.ExpSubmodule? && (slot, subslot) != (e.slot, e.subslot)
    ensures var w' := Step(c, w, e);
            && (Holds(w', slot, subslot) <==> Holds(w, slot, subslot))
            && (Holds(w, slot, subslot) ==> w'.slots[slot].subslots[subslot] == w.slots[slot].subslots[subslot])
            && (SomePlugged(w', slot, subslot) <==> SomePlugged(w, slot, subslot))
  {
    var w' := Step(c, w, e);
    forall api ensures (api, slot, subslot) in w'.stack.submodules <==> (api, slot, subslot) in w.stack.submodules {}
  }

  lemma StepIsOrderly(c: Configuration, w: World, e: Event)
    requires Orderly(w)
    ensures Orderly(Step(c, w, e))
  {
  }

  /** The mirror holds throughout. */
  ghost predicate AlwaysMirrors(c: Configuration, es: seq<Event>) {
    Mirrors(Run(c, EMPTY, es)) && (es != [] ==> AlwaysMirrors(c, DropLast(es)))
  }

  predicate NeverUpset(c: Configuration, es: seq<Event>) {
    es == [] || (NeverUpset(c, DropLast(es)) && !Upsets(Run(c, EMPTY, DropLast(es)), Last(es)))
  }

  /** Over any sequence of indications for any APIs, the keys of the instance map are always
      the plugged submodules, each initialised once on a fresh instance, exactly if no
      indication upsets the mirror. */
  lemma {:induction false} PlugMirrorKept(c: Configuration, es: seq<Event>)
    ensures Orderly(Run(c, EMPTY, es))
    ensures AlwaysMirrors(c, es) <==> NeverUpset(c, es)
  {
    if es != [] {
      var w, e := Run(c, EMPTY, DropLast(es)), Last(es);
      PlugMirrorKept(c, DropLast(es));
      StepIsOrderly(c, w, e);
      if Mirrors(w) {
        if e.ExpModule? { ModuleStep(c, w, e); } else { SubmoduleStep(c, w, e); }
      }
    }
  }

  // ---------------------------------------------------------------- which slots may share

  /** Each indication is for a slot that its API uses. */
  predicate Uses(es: seq<Event>, usage: set<(nat, uint16)>) {
    forall i :: 0 <= i < |es| ==> (es[i].api, es[i].slot) in usage
  }

  /** No slot is used by two APIs. */
  predicate OneApiPerSlot(usage: set<(nat, uint16)>) {
    forall u, v :: u in usage && v in usage && u.1 == v.1 ==> u.0 == v.0
  }

  lemma {:induction false} StackIsUsed(c: Configuration, es: seq<Event>, usage: set<(nat, uint16)>)
    requires Uses(es, usage)
    ensures forall p :: p in Run(c, EMPTY, es).stack.submodules ==> (p.0, p.1) in usage
  {
    if es != [] {
      assert Last(es) == es[|es| - 1];
      StackIsUsed(c, DropLast(es), usage);
    }
  }

  lemma {:induction false} OneApiUpsetsNothing(c: Configuration, es: seq<Event>, usage: set<(nat, uint16)>)
    requires Uses(es, usage) && OneApiPerSlot(usage)
    ensures NeverUpset(c, es)
  {
    if es != [] {
      var e, w := es[|es| - 1], Run(c, EMPTY, DropLast(es));
      OneApiUpsetsNothing(c, DropLast(es), usage);
      StackIsUsed(c, DropLast(es), usage);
      PlugMirrorKept(c, DropLast(es));
      assert (e.api, e.slot) in usage && Mirrors(w);
      if e.ExpSubmodule? && Holds(w, e.slot, e.subslot) {
        var api :| (api, e.slot, e.subslot) in w.stack.submodules;
      }
    }
  }

  /** The mirror can be relied on exactly if no slot is used by two APIs. */
  lemma MirrorNeedsOneApiPerSlot(c: Configuration, usage: set<(nat, uint16)>)
    ensures OneApiPerSlot(usage) <==> forall es :: Uses(es, usage) ==> AlwaysMirrors(c, es)
  {
    if OneApiPerSlot(usage) {
      forall es | Uses(es, usage) ensures AlwaysMirrors(c, es) {
        OneApiUpsetsNothing(c, es, usage);
        PlugMirrorKept(c, es);
      }
    } else {
      var u, v :| u in usage && v in usage && u.1 == v.1 && u.0 != v.0;
      TwoApisShareAnInstance(c, u.0, v.0, u.1, 1);
      assert Uses(SamePlug(u.0, v.0, u.1, 1), usage);
    }
  }

  function Plug(api: nat, slot: uint16, subslot: uint16): Event {
    ExpSubmodule(api, slot, subslot, 0, 0, true)
  }

  function SamePlug(a: nat, b: nat, slot: uint16, subslot: uint16): seq<Event> {
    [Plug(a, slot, subslot), Plug(b, slot, subslot)]
  }

  /** Two APIs that plug the same subslot meet in one instance, which is initialised twice. */
  lemma TwoApisShareAnInstance(c: Configuration, a: nat, b: nat, slot: uint16, subslot: uint16)
    requires a != b
    ensures var w := Run(c, EMPTY, SamePlug(a, b, slot, subslot));
            && Holds(w, slot, subslot) && w.slots[slot].subslots[subslot].initialisations == 2
            && !Mirrors(w)
  {
    var w := OnePlugged(c, a, slot, subslot);
    assert DropLast(SamePlug(a, b, slot, subslot)) == [Plug(a, slot, subslot)];
  }

  lemma OnePlugged(c: Configuration, api: nat, slot: uint16, subslot: uint16) returns (w: World)
    ensures w == Run(c, EMPTY, [Plug(api, slot, subslot)])
    ensures w.stack == Stack({(api, slot)}, {(api, slot, subslot)})
    ensures slot in w.slots && w.slots[slot].subslots.Keys == {subslot}
    ensures w.slots[slot].subslots[subslot].initialisations == 1
  {
    w := Run(c, EMPTY, [Plug(api, slot, subslot)]);
    assert DropLast([Plug(api, slot, subslot)]) == [];
  }

  /** Even when they plug different subslots, a module indication for one API removes the
      other's instance, whose submodule stays plugged. */
  lemma ModuleIndicationDropsOther(c: Configuration, a: nat, b: nat, slot: uint16, moduleId: nat, accepted: bool)
    requires a != b
    ensures var es := [Plug(a, slot, 1), Plug(b, slot, 2), ExpModule(b, slot, moduleId, accepted)];
            var w := Run(c, EMPTY, es);
            (a, slot, 1) in w.stack.submodules && !Holds(w, slot, 1) && !Mirrors(w)
  {
    var e := ExpModule(b, slot, moduleId, accepted);
    var w1 := OnePlugged(c, a, slot, 1);
    var es := [Plug(a, slot, 1), Plug(b, slot, 2), e];
    assert DropLast(es) == [Plug(a, slot, 1), Plug(b, slot, 2)];
    assert DropLast(DropLast(es)) == [Plug(a, slot, 1)];
    var w2 := Step(c, w1, Plug(b, slot, 2));
    assert (a, slot, 1) in w2.stack.submodules && (b, slot) in w2.stack.modules;
    var w := Step(c, w2, e);
    assert (a, slot, 1) in w.stack.submodules && !Holds(w, slot, 1);
    assert SomePlugged(w, slot, 1);
  }

  // ---------------------------------------------------------------- instances told from indications

  datatype Plugging = Plugging(api: nat, moduleId: nat, submoduleId: nat)

  /** How a subslot was last plugged, told from the indications alone. */
  function Plugged(es: seq<Event>, slot: uint16, subslot: uint16): Option<Plugging> {
    if es == [] then None
    else
      var e, before := Last(es), Plugged(DropLast(es), slot, subslot);
      var pulled := if before.Some? && before.value.api == e.api then None else before;
      match e
      case ExpModule(_, s, _, _) => if s == slot then pulled else before
      case ExpSubmodule(api, s, sub, moduleId, submoduleId, accepted) =>
        if (s, sub) != (slot, subslot) then before
        else if accepted then Some(Plugging(api, moduleId, submoduleId))
        else pulled
  }

  predicate Known(c: Configuration, p: Plugging) {
    p.moduleId in c && p.submoduleId in c[p.moduleId]
  }

  /** What the instance map and the stack hold for a subslot. */
  ghost predicate Reflects(c: Configuration, w: World, slot: uint16, subslot: uint16, p: Option<Plugging>) {
    && (Holds(w, slot, subslot) <==> p.Some?)
    && (forall api :: (api, slot, subslot) in w.stack.submodules <==> p.Some? && p.value.api == api)
    && (p.Some? ==> w.slots[slot].subslots[subslot].unknown == !Known(c, p.value))
  }

  /** As long as nothing upsets the mirror, the instance map is a function of the indications:
      a subslot has an instance exactly if it was last plugged and not pulled since, and that
      instance is a configured one exactly if its ids are in the configuration. */
  lemma {:induction false} InstancesFollowIndications(c: Configuration, es: seq<Event>, slot: uint16, subslot: uint16)
    requires NeverUpset(c, es)
    ensures Reflects(c, Run(c, EMPTY, es), slot, subslot, Plugged(es, slot, subslot))
  {
    if es != [] {
      InstancesFollowIndications(c, DropLast(es), slot, subslot);
      PlugMirrorKept(c, DropLast(es));
      StepFollows(c, Run(c, EMPTY, DropLast(es)), es, slot, subslot);
    }
  }

  lemma StepFollows(c: Configuration, w: World, es: seq<Event>, slot: uint16, subslot: uint16)
    requires es != [] && Mirrors(w) && Orderly(w) && !Upsets(w, Last(es))
    requires Reflects(c, w, slot, subslot, Plugged(DropLast(es), slot, subslot))
    ensures Reflects(c, Step(c, w, Last(es)), slot, subslot, Plugged(es, slot, subslot))
  {
    var e := Last(es);
    if e.ExpSubmodule? && (e.slot, e.subslot) != (slot, subslot) {
      OtherSubslots(c, w, e, slot, subslot);
    }
  }

  /** Whether an API has a module in the slot, told from the indications alone: the last module
      indication was accepted, or a submodule plug has been since. */
  function ModuleThere(es: seq<Event>, api: nat, slot: uint16): bool {
    if es == [] then false
    else
      var e, before := Last(es), ModuleThere(DropLast(es), api, slot);
      if (e.api, e.slot) != (api, slot) then before
      else if e.ExpModule? then e.accepted
      else before || e.accepted
  }

  /** Whether there is a module instance in the slot, and if so, whether it is an unknown one. */
  function ModuleInstance(c: Configuration, es: seq<Event>, slot: uint16): Option<bool> {
    if es == [] then None
    else
      var e, before := Last(es), ModuleInstance(c, DropLast(es), slot);
      if e.slot != slot then before
      else if e.ExpSubmodule? then (if before.None? then Some(true) else before)
      else
        var left := if ModuleThere(DropLast(es), e.api, slot) then None else before;
        if left.None? && e.accepted then Some(e.moduleId !in c) else left
  }

  /** Over any indications for any APIs, the module instances follow from the indications: an
      accepted module indication makes one that is unknown exactly if its id is not configured,
      and a submodule indication makes an unknown one where there is none. */
  lemma {:induction false} ModulesFollowIndications(c: Configuration, es: seq<Event>, api: nat, slot: uint16)
    ensures var w, m := Run(c, EMPTY, es), ModuleInstance(c, es, slot);
            && (slot in w.slots <==> m.Some?)
            && (m.Some? ==> w.slots[slot].unknown == m.value)
            && ((api, slot) in w.stack.modules <==> ModuleThere(es, api, slot))
  {
    if es != [] {
      ModulesFollowIndications(c, DropLast(es), api, slot);
      ModulesFollowIndications(c, DropLast(es), Last(es).api, slot);
      var w, e := Run(c, EMPTY, DropLast(es)), Last(es);
      StepModules(c, w, e, api, slot);
    }
  }

  /** What an indication does to the module instances and to the plugged modules. */
  lemma StepModules(c: Configuration, w: World, e: Event, api: nat, slot: uint16)
    ensures var w' := Step(c, w, e);
            var pulled := e.ExpModule? && e.slot == slot && (e.api, slot) in w.stack.modules;
            var there := slot in w.slots && !pulled;
            && (there ==> slot in w'.slots && w'.slots[slot].unknown == w.slots[slot].unknown)
            && (!there ==>
                  if e.slot == slot && (e.ExpSubmodule? || e.accepted) then
                    slot in w'.slots && w'.slots[slot].unknown == (e.ExpSubmodule? || e.moduleId !in c)
                  else slot !in w'.slots)
            && ((api, slot) in w'.stack.modules <==>
                  if (e.api, e.slot) != (api, slot) then (api, slot) in w.stack.modules
                  else e.accepted || (e.ExpSubmodule? && (api, slot) in w.stack.modules))
  {
  }

  /** What a callback returns. */
  function Returned(c: Configuration, w: World, e: Event): int {
    match e
    case ExpModule(api, slot, moduleId, accepted) => OnExpModule(c, w, api, slot, moduleId, accepted).1
    case ExpSubmodule(api, slot, subslot, moduleId, submoduleId, accepted) =>
      OnExpSubmodule(c, w, api, slot, subslot, moduleId, submoduleId, accepted).1
  }

  /** A submodule indication succeeds exactly if its plug is accepted, a module indication
      exactly if moreover there was no instance in the slot or its own module was there. */
  lemma ReturnsFollowIndications(c: Configuration, es: seq<Event>, e: Event)
    ensures var ret := Returned(c, Run(c, EMPTY, es), e);
            var free := ModuleInstance(c, es, e.slot).None? || ModuleThere(es, e.api, e.slot);
            && (ret == 0 || ret == -1)
            && (ret == 0 <==> e.accepted && (e.ExpModule? ==> free))
  {
    ModulesFollowIndications(c, es, e.api, e.slot);
  }

  // ---------------------------------------------------------------- where the mirror has cracks

  ghost predicate ModulePlugged(w: World, slot: uint16) {
    exists api :: (api, slot) in w.stack.modules
  }

  /** Module instances and plugged modules are the same. */
  ghost predicate ModulesMirror(w: World) {
    forall slot: uint16 :: slot in w.slots <==> ModulePlugged(w, slot)
  }

  /** What upsets the modules: a refused submodule plug into a slot without an instance, which
      has been created by then and is left behind, and a refused module plug that has taken
      away the instance that another API's module needs. */
  ghost predicate UpsetsModules(w: World, e: Event) {
    && !e.accepted
    && if e.ExpSubmodule? then e.slot !in w.slots
       else (e.api, e.slot) in w.stack.modules && exists api :: api != e.api && (api, e.slot) in w.stack.modules
  }

  lemma ModuleLeftBehind(c: Configuration, w: World, e: Event)
    requires ModulesMirror(w)
    ensures ModulesMirror(Step(c, w, e)) <==> !UpsetsModules(w, e)
  {
    var w' := Step(c, w, e);
    forall slot: uint16 | slot != e.slot
      ensures (ModulePlugged(w', slot) <==> ModulePlugged(w, slot)) && (slot in w'.slots <==> slot in w.slots)
    {
      forall api ensures (api, slot) in w'.stack.modules <==> (api, slot) in w.stack.modules {}
    }
    assert ModulesMirror(w') <==> (e.slot in w'.slots <==> ModulePlugged(w', e.slot));
    if e.accepted {
      assert (e.api, e.slot) in w'.stack.modules;
    } else {
      forall api | api != e.api ensures (api, e.slot) in w'.stack.modules <==> (api, e.slot) in w.stack.modules {}
      assert e.slot in w.slots <==> ModulePlugged(w, e.slot);
      if e.ExpModule? && (e.api, e.slot) in w.stack.modules {
        assert (e.api, e.slot) !in w'.stack.modules && e.slot !in w'.slots;
      } else {
        assert w'.stack.modules == w.stack.modules;
      }
    }
  }

  /** The modules mirror the stack throughout. */
  ghost predicate AlwaysModulesMirror(c: Configuration, es: seq<Event>) {
    ModulesMirror(Run(c, EMPTY, es)) && (es != [] ==> AlwaysModulesMirror(c, DropLast(es)))
  }

  ghost predicate NeverUpsetModules(c: Configuration, es: seq<Event>) {
    es == [] || (NeverUpsetModules(c, DropLast(es)) && !UpsetsModules(Run(c, EMPTY, DropLast(es)), Last(es)))
  }

  /** Over any sequence of indications for any APIs, module instances and plugged modules are
      always the same exactly if no indication upsets them. */
  lemma {:induction false} ModulesMirrorKept(c: Configuration, es: seq<Event>)
    ensures AlwaysModulesMirror(c, es) <==> NeverUpsetModules(c, es)
  {
    if es != [] {
      ModulesMirrorKept(c, DropLast(es));
      if ModulesMirror(Run(c, EMPTY, DropLast(es))) {
        ModuleLeftBehind(c, Run(c, EMPTY, DropLast(es)), Last(es));
      }
    }
  }

  /** An instance in the slot that the indication's own API did not have plugged makes a module
      indication fail although the stack has plugged the module. Such an instance has been left
      behind by a refused submodule plug, or it is another API's: as long as the modules mirror
      the stack, the failure comes exactly if the slot has a module of another API and none of
      this one. */
  lemma RefusedThoughPlugged(c: Configuration, w: World, api: nat, slot: uint16, moduleId: nat)
    ensures var (w', ret) := OnExpModule(c, w, api, slot, moduleId, true);
            && (api, slot) in w'.stack.modules
            && (ret == 0 <==> (slot in w.slots ==> (api, slot) in w.stack.modules))
            && (ModulesMirror(w) ==>
                  (ret == -1 <==> (api, slot) !in w.stack.modules && ModulePlugged(w, slot)))
  {
  }

  /** So a refused submodule plug spoils the module indication after it. */
  lemma RefusalSpoilsModule(c: Configuration, refused: Event, moduleId: nat)
    requires refused.ExpSubmodule? && !refused.accepted
    ensures var w := Run(c, EMPTY, [refused]);
            var (w', ret) := OnExpModule(c, w, refused.api, refused.slot, moduleId, true);
            UpsetsModules(EMPTY, refused) && ret == -1 && (refused.api, refused.slot) in w'.stack.modules
  {
    assert DropLast([refused]) == [];
    RefusedThoughPlugged(c, Run(c, EMPTY, [refused]), refused.api, refused.slot, moduleId);
  }

  /** And so does an accepted module indication the one for another API, while nothing is upset. */
  lemma SecondApiIsRefused(c: Configuration, a: nat, b: nat, slot: uint16, moduleId: nat)
    requires a != b
    ensures var es := [ExpModule(a, slot, moduleId, true)];
            var (w', ret) := OnExpModule(c, Run(c, EMPTY, es), b, slot, moduleId, true);
            && AlwaysMirrors(c, es) && AlwaysModulesMirror(c, es)
            && ret == -1 && (b, slot) in w'.stack.modules
  {
    var es := [ExpModule(a, slot, moduleId, true)];
    assert DropLast(es) == [];
    PlugMirrorKept(c, es);
    ModulesMirrorKept(c, es);
    assert (a, slot) in Run(c, EMPTY, es).stack.modules;
    RefusedThoughPlugged(c, Run(c, EMPTY, es), b, slot, moduleId);
  }
}

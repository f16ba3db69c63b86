/** Finding the application relation, the consumer connection and the data descriptor of a
    submodule. */
module CpmLookup {
  import opened Basics
  import opened CpmModel

  type uint32 = x: int | 0 <= x < TWO_TO_32

  datatype IocrType = InputCr | OutputCr | McProvider | McConsumer

  datatype Descriptor = Descriptor(inUse: bool, api: uint32, slot: uint16, subslot: uint16, item: IoItem)

  datatype Iocr = Iocr(iocrType: IocrType, descriptors: seq<Descriptor>)

  /** APIs, slots and subslots are kept in tables of numbered places. */
  datatype Place<T> = Place(inUse: bool, number: uint32, content: T)

  /** A subslot may belong to an application relation, here its index. */
  type Subslot = Place<Option<nat>>
  type Slot = Place<seq<Subslot>>
  type Api = Place<seq<Slot>>

  /** The plugged hardware, and the connections of each application relation. */
  datatype Device = Device(apis: seq<Api>, ars: seq<seq<Iocr>>)

  // ---------------------------------------------------------------- the subslot and its owner

  predicate IsFirst<T>(places: seq<Place<T>>, number: uint32, i: nat) {
    && i < |places| && places[i].inUse && places[i].number == number
    && forall j :: 0 <= j < i ==> !(places[j].inUse && places[j].number == number)
  }

  method FindPlace<T>(places: seq<Place<T>>, number: uint32) returns (i: nat)
    ensures i < |places| ==> places[i].inUse && places[i].number == number
    ensures forall j :: 0 <= j < i && j < |places| ==> !(places[j].inUse && places[j].number == number)
  {
    i := 0;
    while i < |places| && (!places[i].inUse || number != places[i].number)
      invariant i <= |places|
      invariant forall j :: 0 <= j < i ==> !(places[j].inUse && places[j].number == number)
    {
      i := i + 1;
    }
  }

  /** Where the search for a subslot ends: each level takes its first match and looks no further. */
  predicate Located(apis: seq<Api>, api: uint32, slot: uint16, subslot: uint16, a: nat, b: nat, c: nat) {
    && IsFirst(apis, api, a)
    && IsFirst(apis[a].content, slot, b)
    && IsFirst(apis[a].content[b].content, subslot, c)
  }

  /** The subslot belongs to application relation `ar`. */
  ghost predicate Owned(apis: seq<Api>, api: uint32, slot: uint16, subslot: uint16, ar: nat) {
    exists a: nat, b: nat, c: nat ::
      Located(apis, api, slot, subslot, a, b, c) && apis[a].content[b].content[c].content == Some(ar)
  }

  method FindOwner(apis: seq<Api>, api: uint32, slot: uint16, subslot: uint16) returns (r: Option<nat>)
    ensures forall ar: nat :: Owned(apis, api, slot, subslot, ar) <==> r == Some(ar)
  {
    r := None;
    var a := FindPlace(apis, api);
    if a < |apis| {
      var b := FindPlace(apis[a].content, slot);
      if b < |apis[a].content| {
        var c := FindPlace(apis[a].content[b].content, subslot);
        if c < |apis[a].content[b].content| {
          assert Located(apis, api, slot, subslot, a, b, c);
          r := apis[a].content[b].content[c].content;
        }
      }
    }
  }

  /** The search for the owner takes a 16 bit API. */
  function LookedUp(api: uint32): uint32 { api % TWO_TO_16 }

  /** So it finds the submodule's own application relation, on every device, exactly if the API
      has no more than 16 bits. */
  lemma OwnApiExactly(api: uint32)
    ensures (forall apis, slot, subslot, ar: nat ::
               Owned(apis, LookedUp(api), slot, subslot, ar) <==> Owned(apis, api, slot, subslot, ar))
            <==> api < TWO_TO_16
  {
    if api >= TWO_TO_16 {
      var apis := [Place(true, api, [Place(true, 0, [Place(true, 0, Some(0))])])];
      assert Located(apis, api, 0, 0, 0, 0, 0);
      assert Owned(apis, api, 0, 0, 0) && !Owned(apis, LookedUp(api), 0, 0, 0);
    }
  }

  // ---------------------------------------------------------------- the descriptor

  /** Descriptor `i` of connection `c` is the submodule's, on a connection this device consumes. */
  predicate Describes(iocrs: seq<Iocr>, c: nat, i: nat, api: uint32, slot: uint16, subslot: uint16) {
    && c < |iocrs| && i < |iocrs[c].descriptors|
    && (iocrs[c].iocrType.OutputCr? || iocrs[c].iocrType.McConsumer?)
    && var d := iocrs[c].descriptors[i];
       d.inUse && d.api == api && d.slot == slot && d.subslot == subslot
  }

  /** Returns the first match in order of connections and then descriptors, if there is any. */
  method SearchDescriptors(iocrs: seq<Iocr>, api: uint32, slot: uint16, subslot: uint16) returns (r: Option<(nat, nat)>)
    ensures r.None? ==> forall c: nat, i: nat :: !Describes(iocrs, c, i, api, slot, subslot)
    ensures r.Some? ==>
              && Describes(iocrs, r.value.0, r.value.1, api, slot, subslot)
              && forall c: nat, i: nat :: Describes(iocrs, c, i, api, slot, subslot) ==>
                   r.value.0 < c || (r.value.0 == c && r.value.1 <= i)
  {
    r := None;
    var crep := 0;
    while r.None? && crep < |iocrs|
      invariant crep <= |iocrs|
      invariant r.None? ==> forall c: nat, i: nat :: c < crep ==> !Describes(iocrs, c, i, api, slot, subslot)
      invariant r.Some? ==>
                  && Describes(iocrs, r.value.0, r.value.1, api, slot, subslot)
                  && forall c: nat, i: nat :: Describes(iocrs, c, i, api, slot, subslot) ==>
                       r.value.0 < c || (r.value.0 == c && r.value.1 <= i)
      decreases |iocrs| - crep
    {
      var iocr := iocrs[crep];
      if iocr.iocrType.OutputCr? || iocr.iocrType.McConsumer? {
        var ix := 0;
        while r.None? && ix < |iocr.descriptors|
          invariant ix <= |iocr.descriptors|
          invariant r.None? ==> forall i: nat :: i < ix ==> !Describes(iocrs, crep, i, api, slot, subslot)
          invariant r.Some? ==>
                      && r.value.0 == crep && Describes(iocrs, crep, r.value.1, api, slot, subslot)
                      && forall i: nat :: i < r.value.1 ==> !Describes(iocrs, crep, i, api, slot, subslot)
          decreases |iocr.descriptors| - ix
        {
          var d := iocr.descriptors[ix];
          if d.inUse && d.api == api && d.slot == slot && d.subslot == subslot {
            r := Some((crep, ix));
          }
          ix := ix + 1;
        }
      }
      crep := crep + 1;
    }
  }

  /** The device receives on this connection. */
  predicate Consumes(iocr: Iocr) {
    iocr.iocrType == OutputCr || iocr.iocrType == McConsumer
  }

  predicate IsFor(d: Descriptor, api: uint32, slot: uint16, subslot: uint16) {
    d.inUse && (d.api, d.slot, d.subslot) == (api, slot, subslot)
  }

  /** The descriptor of a submodule: the first on a consumer connection of the application
      relation that owns the subslot. The owner is looked up under the API cut to 16 bits, the
      descriptor under the whole API. */
  method FindDescriptor(d: Device, api: uint32, slot: uint16, subslot: uint16) returns (r: Option<(nat, nat, nat)>)
    requires forall ar: nat :: Owned(d.apis, LookedUp(api), slot, subslot, ar) ==> ar < |d.ars|
    ensures r.None? ==>
              forall ar: nat, c: nat, i: nat :: Owned(d.apis, LookedUp(api), slot, subslot, ar) ==>
                !Describes(d.ars[ar], c, i, api, slot, subslot)
    ensures r.Some? ==>
              var (ar, crep, ix) := r.value;
              && Owned(d.apis, LookedUp(api), slot, subslot, ar)
              && Describes(d.ars[ar], crep, ix, api, slot, subslot)
              && forall c: nat, i: nat :: Describes(d.ars[ar], c, i, api, slot, subslot) ==>
                   crep < c || (crep == c && ix <= i)
    ensures r.Some? ==>
              var (ar, crep, ix) := r.value;
              Consumes(d.ars[ar][crep]) && IsFor(d.ars[ar][crep].descriptors[ix], api, slot, subslot)
    ensures r.None? ==>
              forall ar: nat, c: nat, i: nat ::
                Owned(d.apis, LookedUp(api), slot, subslot, ar) && c < |d.ars[ar]| && i < |d.ars[ar][c].descriptors| ==>
                  !Consumes(d.ars[ar][c]) || !IsFor(d.ars[ar][c].descriptors[i], api, slot, subslot)
  {
    r := None;
    var owner := FindOwner(d.apis, LookedUp(api), slot, subslot);
    if owner.Some? {
      assert Owned(d.apis, LookedUp(api), slot, subslot, owner.value);
      var found := SearchDescriptors(d.ars[owner.value], api, slot, subslot);
      if found.None? {
        forall c: nat, i: nat | c < |d.ars[owner.value]| && i < |d.ars[owner.value][c].descriptors|
          ensures !Consumes(d.ars[owner.value][c])
                  || !IsFor(d.ars[owner.value][c].descriptors[i], api, slot, subslot)
        {
          assert !Describes(d.ars[owner.value], c, i, api, slot, subslot);
        }
      }
      if found.Some? {
        r := Some((owner.value, found.value.0, found.value.1));
      }
    }
  }
}

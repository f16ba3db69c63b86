/** What one submodule puts into its buffer, a mirror with the same types takes out. */
module SubmoduleRoundTrip {
  import opened Basics
  import opened Codec
  import opened Submodule

  predicate AllFit(ks: seq<Kind>, vs: seq<Value>) {
    |ks| == |vs| && forall i :: 0 <= i < |ks| ==> Fits(ks[i], vs[i])
  }

  function OutputsFor(ks: seq<Kind>): seq<Output> {
    seq(|ks|, i requires 0 <= i < |ks| => Output(TypedGet(ks[i]), ks[i].bytes))
  }

  function InputsFor(ks: seq<Kind>): seq<Input> {
    seq(|ks|, i requires 0 <= i < |ks| => Input(TypedSet(ks[i]), ks[i].bytes))
  }

  function AnswersFor(vs: seq<Value>): seq<Answer> {
    seq(|vs|, i requires 0 <= i < |vs| => Answer(vs[i], None))
  }

  function Deliveries(vs: seq<Value>): seq<Delivery> {
    seq(|vs|, i requires 0 <= i < |vs| => Typed(vs[i]))
  }

  /** What arrives of the values: strings come cut to the lengths of their items. */
  function AllCarried(ks: seq<Kind>, vs: seq<Value>): (r: seq<Value>)
    requires AllFit(ks, vs)
    ensures |r| == |vs|
  {
    seq(|vs|, i requires 0 <= i < |vs| => Carried(ks[i], vs[i]))
  }

  function AllPlain(vs: seq<Value>): seq<Value> {
    seq(|vs|, i requires 0 <= i < |vs| => Plain(vs[i]))
  }

  /** All values arrive unchanged exactly if every string fills its item. */
  lemma UnchangedIfExact(ks: seq<Kind>, vs: seq<Value>)
    requires AllFit(ks, vs)
    ensures AllCarried(ks, vs) == AllPlain(vs) <==> forall i :: 0 <= i < |vs| ==> Exact(ks[i], vs[i])
  {
    forall i | 0 <= i < |vs| ensures AllCarried(ks, vs)[i] == AllPlain(vs)[i] <==> Exact(ks[i], vs[i]) {
      DecodeEncode(ks[i], vs[i]);
    }
  }

  /** All values on the wire, one behind the other. */
  function EncodeAll(ks: seq<Kind>, vs: seq<Value>): seq<byte>
    requires AllFit(ks, vs)
  {
    if ks == [] then [] else Encode(ks[0], vs[0]) + EncodeAll(ks[1..], vs[1..])
  }

  /** Where item `i` starts. */
  function Offset(ks: seq<Kind>, i: nat): nat
    requires i <= |ks|
  {
    if i == 0 then 0 else ks[0].bytes + Offset(ks[1..], i - 1)
  }

  lemma OutputsCollect(ks: seq<Kind>, vs: seq<Value>)
    requires AllFit(ks, vs)
    ensures AllAnswer(OutputsFor(ks), AnswersFor(vs))
    ensures Collect(OutputsFor(ks), AnswersFor(vs)) == Some(EncodeAll(ks, vs))
    ensures OutputBytes(OutputsFor(ks)) == InputBytes(InputsFor(ks)) == |EncodeAll(ks, vs)|
  {
    OutputsProduce(ks, vs);
    LengthsAgree(ks, vs);
  }

  lemma {:induction false} OutputsProduce(ks: seq<Kind>, vs: seq<Value>)
    requires AllFit(ks, vs)
    ensures AllAnswer(OutputsFor(ks), AnswersFor(vs))
    ensures Collect(OutputsFor(ks), AnswersFor(vs)) == Some(EncodeAll(ks, vs))
  {
    if ks != [] {
      OutputsProduce(ks[1..], vs[1..]);
      Tails(ks);
      var os, answers := OutputsFor(ks), AnswersFor(vs);
      assert answers[1..] == AnswersFor(vs[1..]);
      assert Produce(os[0], answers[0]) == Some(Encode(ks[0], vs[0]));
    }
  }

  lemma Tails(ks: seq<Kind>)
    requires ks != []
    ensures OutputsFor(ks) == [Output(TypedGet(ks[0]), ks[0].bytes)] + OutputsFor(ks[1..])
    ensures OutputsFor(ks)[1..] == OutputsFor(ks[1..])
    ensures InputsFor(ks) == [Input(TypedSet(ks[0]), ks[0].bytes)] + InputsFor(ks[1..])
    ensures InputsFor(ks)[1..] == InputsFor(ks[1..])
  {
  }

  lemma {:induction false} LengthsAgree(ks: seq<Kind>, vs: seq<Value>)
    requires AllFit(ks, vs)
    ensures OutputBytes(OutputsFor(ks)) == InputBytes(InputsFor(ks)) == |EncodeAll(ks, vs)|
  {
    if ks != [] {
      LengthsAgree(ks[1..], vs[1..]);
      Tails(ks);
      assert |EncodeAll(ks, vs)| == ks[0].bytes + |EncodeAll(ks[1..], vs[1..])|;
      assert OutputBytes(OutputsFor(ks)) == ks[0].bytes + OutputBytes(OutputsFor(ks)[1..]);
      assert InputBytes(InputsFor(ks)) == ks[0].bytes + InputBytes(InputsFor(ks)[1..]);
    }
  }

  lemma AcceptsItsSlice(k: Kind, v: Value, tail: seq<byte>)
    requires Fits(k, v)
    ensures Accept(TypedSet(k), Encode(k, v) + tail) == Fed([Typed(Carried(k, v))], true)
    ensures (Encode(k, v) + tail)[k.bytes..] == tail
  {
    assert (Encode(k, v) + tail)[..k.bytes] == Encode(k, v);
    DecodeEncode(k, v);
  }

  lemma {:induction false} InputsRestore(before: seq<Delivery>, ks: seq<Kind>, vs: seq<Value>, beyond: seq<byte>)
    requires AllFit(ks, vs)
    ensures Feed(before, InputsFor(ks), EncodeAll(ks, vs) + beyond)
         == Fed(before + Deliveries(AllCarried(ks, vs)), true)
    decreases ks
  {
    if ks == [] {
      assert before + Deliveries(AllCarried(ks, vs)) == before;
    } else {
      FirstInput(before, ks, vs, beyond);
      InputsRestore(before + [Typed(Carried(ks[0], vs[0]))], ks[1..], vs[1..], beyond);
      DeliveriesFrom(before, ks, vs);
    }
  }

  lemma FirstInput(before: seq<Delivery>, ks: seq<Kind>, vs: seq<Value>, beyond: seq<byte>)
    requires AllFit(ks, vs) && ks != []
    ensures Feed(before, InputsFor(ks), EncodeAll(ks, vs) + beyond)
         == Feed(before + [Typed(Carried(ks[0], vs[0]))], InputsFor(ks[1..]), EncodeAll(ks[1..], vs[1..]) + beyond)
  {
    var tail := EncodeAll(ks[1..], vs[1..]) + beyond;
    EncodedHead(ks, vs, beyond);
    AcceptsItsSlice(ks[0], vs[0], tail);
    Tails(ks);
    FirstTyped(before, ks[0], InputsFor(ks[1..]), Encode(ks[0], vs[0]) + tail);
  }

  lemma EncodedHead(ks: seq<Kind>, vs: seq<Value>, beyond: seq<byte>)
    requires AllFit(ks, vs) && ks != []
    ensures EncodeAll(ks, vs) + beyond == Encode(ks[0], vs[0]) + (EncodeAll(ks[1..], vs[1..]) + beyond)
  {
  }

  lemma FirstTyped(before: seq<Delivery>, k: Kind, inputs: seq<Input>, bytes: seq<byte>)
    requires k.bytes <= |bytes|
    ensures Feed(before, [Input(TypedSet(k), k.bytes)] + inputs, bytes)
         == Feed(before + Accept(TypedSet(k), bytes).given, inputs, bytes[k.bytes..])
  {
    assert ([Input(TypedSet(k), k.bytes)] + inputs)[1..] == inputs;
  }

  lemma DeliveriesFrom(before: seq<Delivery>, ks: seq<Kind>, vs: seq<Value>)
    requires AllFit(ks, vs) && ks != []
    ensures before + [Typed(Carried(ks[0], vs[0]))] + Deliveries(AllCarried(ks[1..], vs[1..]))
         == before + Deliveries(AllCarried(ks, vs))
  {
    assert Deliveries(AllCarried(ks, vs)) == [Typed(Carried(ks[0], vs[0]))] + Deliveries(AllCarried(ks[1..], vs[1..]));
  }

  function Pieces(ks: seq<Kind>, vs: seq<Value>): seq<seq<byte>>
    requires AllFit(ks, vs)
  {
    seq(|ks|, i requires 0 <= i < |ks| => Encode(ks[i], vs[i]))
  }

  function Flatten(pieces: seq<seq<byte>>): seq<byte> {
    if pieces == [] then [] else pieces[0] + Flatten(pieces[1..])
  }

  lemma {:induction false} EncodeAllIsFlat(ks: seq<Kind>, vs: seq<Value>)
    requires AllFit(ks, vs)
    ensures EncodeAll(ks, vs) == Flatten(Pieces(ks, vs))
  {
    if ks != [] {
      EncodeAllIsFlat(ks[1..], vs[1..]);
      assert Pieces(ks, vs)[1..] == Pieces(ks[1..], vs[1..]);
    }
  }

  lemma {:induction false} FlattenSplits(pieces: seq<seq<byte>>, i: nat)
    requires i < |pieces|
    ensures Flatten(pieces) == Flatten(pieces[..i]) + pieces[i] + Flatten(pieces[i + 1..])
  {
    if i > 0 {
      FlattenSplits(pieces[1..], i - 1);
      assert pieces[1..][..i - 1] == pieces[..i][1..] && pieces[1..][i..] == pieces[i + 1..];
      Associative(pieces[0], Flatten(pieces[..i][1..]), pieces[i], Flatten(pieces[i + 1..]));
    }
  }

  lemma Associative(a: seq<byte>, b: seq<byte>, c: seq<byte>, d: seq<byte>)
    ensures a + (b + c + d) == (a + b) + c + d
  {
  }

  lemma {:induction false} OffsetIsLength(ks: seq<Kind>, vs: seq<Value>, i: nat)
    requires AllFit(ks, vs) && i <= |ks|
    ensures Offset(ks, i) == |Flatten(Pieces(ks, vs)[..i])|
  {
    if i > 0 {
      OffsetIsLength(ks[1..], vs[1..], i - 1);
      assert Pieces(ks, vs)[..i][1..] == Pieces(ks[1..], vs[1..])[..i - 1];
    }
  }

  /** Every item has its own slice: it starts where the items before it end, and the items
      behind it start where it ends. */
  lemma {:induction false} SlicesInPlace(ks: seq<Kind>, vs: seq<Value>, i: nat)
    requires AllFit(ks, vs) && i < |ks|
    ensures var pieces := Pieces(ks, vs);
            && EncodeAll(ks, vs) == Flatten(pieces[..i]) + Encode(ks[i], vs[i]) + Flatten(pieces[i + 1..])
            && |Flatten(pieces[..i])| == Offset(ks, i)
            && |Flatten(pieces[..i + 1])| == Offset(ks, i + 1) == Offset(ks, i) + ks[i].bytes
  {
    EncodeAllIsFlat(ks, vs);
    FlattenSplits(Pieces(ks, vs), i);
    OffsetIsLength(ks, vs, i);
    OffsetIsLength(ks, vs, i + 1);
    OffsetNext(ks, i);
  }

  lemma {:induction false} OffsetNext(ks: seq<Kind>, i: nat)
    requires i < |ks|
    ensures Offset(ks, i + 1) == Offset(ks, i) + ks[i].bytes
  {
    if i > 0 {
      OffsetNext(ks[1..], i - 1);
    }
  }

  /** The whole path: two fresh instances are initialised, one with outputs of some types and
      the other with inputs of the same types, and the outputs of the first go through one
      buffer into the inputs of the second. All values arrive in order, and the mirror is told
      once if it asked for that. */
  method Relay(
    device: SubmoduleInstance, mirror: SubmoduleInstance, sender: Configuration, receiver: Configuration,
    buffer: array<byte>, ks: seq<Kind>, vs: seq<Value>)
    returns (ok: bool)
    requires device != mirror && device.Fresh() && mirror.Fresh()
    requires DistinctParameters(sender.parameters) && DistinctParameters(receiver.parameters)
    requires sender.outputs == OutputsFor(ks) && receiver.inputs == InputsFor(ks) && AllFit(ks, vs)
    requires OutputBytes(sender.outputs) <= buffer.Length
    modifies buffer, device, mirror
    ensures ok && device.initialized && mirror.initialized
    ensures mirror.delivered == old(mirror.delivered) + Deliveries(AllCarried(ks, vs))
    ensures mirror.updates == old(mirror.updates) + (if receiver.hasAllUpdated then 1 else 0)
    ensures buffer[OutputBytes(sender.outputs)..] == old(buffer[OutputBytes(sender.outputs)..])
  {
    var sending := device.Initialize(sender);
    var receiving := mirror.Initialize(receiver);
    ok := Transfer(device, mirror, buffer, ks, vs);
  }

  /** The same for two instances that have been initialised. */
  method Transfer(
    device: SubmoduleInstance, mirror: SubmoduleInstance, buffer: array<byte>, ks: seq<Kind>, vs: seq<Value>)
    returns (ok: bool)
    requires device != mirror && device.Valid() && mirror.Valid() && AllFit(ks, vs)
    requires device.outputs == OutputsFor(ks) && mirror.inputs == InputsFor(ks)
    requires device.outputLength <= buffer.Length
    modifies buffer, mirror`delivered, mirror`updates
    ensures ok && mirror.delivered == old(mirror.delivered) + Deliveries(AllCarried(ks, vs))
    ensures mirror.updates == old(mirror.updates) + (if mirror.hasAllUpdated then 1 else 0)
    ensures buffer[device.outputLength..] == old(buffer[device.outputLength..])
  {
    OutputsCollect(ks, vs);
    var written;
    ok, written := device.GetOutput(buffer, Some(buffer.Length), AnswersFor(vs));
    InputsRestore(mirror.delivered, ks, vs, []);
    assert EncodeAll(ks, vs) + [] == EncodeAll(ks, vs);
    ok := mirror.SetInput(buffer, written.value);
  }
}

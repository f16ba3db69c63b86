/** A profi++ submodule: one flat buffer cut into the slices of its inputs or outputs. */
module Submodule {
  import opened Basics
  import opened Codec

  // ---------------------------------------------------------------- typed items

  /** Data types with a standard conversion. A float travels as its bit pattern. */
  datatype Kind = Unsigned(bytes: nat) | Signed(bytes: nat) | Float(bytes: nat) | OctetString(bytes: nat)

  /** A string comes with what happens to be in memory behind its terminator. */
  datatype Value = Number(n: int) | Text(s: seq<byte>, behind: seq<byte>)

  predicate Fits(k: Kind, v: Value) {
    match k
    case Unsigned(n) => v.Number? && 0 <= v.n < Pow256(n)
    case Signed(n) => v.Number? && FitsSigned(v.n, n)
    case Float(n) => v.Number? && 0 <= v.n < Pow256(n)
    case OctetString(n) => v.Text? && n <= |v.s| + 1 + |v.behind|
  }

  /** The value fills its item exactly. */
  predicate Exact(k: Kind, v: Value) {
    k.OctetString? ==> v.Text? && |v.s| == k.bytes
  }

  /** The `n` bytes that are copied: of the string, its terminator, and then whatever follows. */
  function Cut(s: seq<byte>, behind: seq<byte>, n: nat): (r: seq<byte>)
    requires n <= |s| + 1 + |behind|
    ensures |r| == n
  {
    (s + [0] + behind)[..n]
  }

  /** The copy stays inside the terminated string, and so depends on nothing else, exactly if
      the item is at most one byte longer than the string. */
  lemma StaysInString(s: seq<byte>, n: nat)
    ensures (forall b, b' :: n <= |s| + 1 + |b| && n <= |s| + 1 + |b'| ==> Cut(s, b, n) == Cut(s, b', n))
            <==> n <= |s| + 1
    ensures forall b :: n <= |s| ==> Cut(s, b, n) == s[..n]
    ensures forall b :: n == |s| + 1 ==> Cut(s, b, n) == s + [0]
  {
    if n > |s| + 1 {
      var zeros, ones := seq(n, _ => 0), seq(n, _ => 1);
      assert Cut(s, zeros, n)[|s| + 1] != Cut(s, ones, n)[|s| + 1];
    } else {
      forall b | n <= |s| + 1 + |b| ensures Cut(s, b, n) == (s + [0])[..n] {}
    }
  }

  function Encode(k: Kind, v: Value): (w: seq<byte>)
    requires Fits(k, v)
    ensures |w| == k.bytes
  {
    match k
    case Signed(n) => Wire(ToUnsigned(v.n, n), n)
    case OctetString(n) => Cut(v.s, v.behind, n)
    case _ => Wire(v.n, k.bytes)
  }

  function Decode(k: Kind, w: seq<byte>): Value
    requires |w| == k.bytes
  {
    match k
    case Signed(n) => Number(ToSigned(FromWire(w), n))
    case OctetString(_) => Text(w, [])
    case _ => Number(FromWire(w))
  }

  /** The value without its surroundings. */
  function Plain(v: Value): Value {
    if v.Text? then Text(v.s, []) else v
  }

  /** What arrives of a value: a string comes cut to the length of its item. */
  function Carried(k: Kind, v: Value): Value
    requires Fits(k, v)
  {
    if k.OctetString? then Text(Cut(v.s, v.behind, k.bytes), []) else v
  }

  /** Every value that fits its type arrives; it arrives unchanged exactly if it fills its item. */
  lemma DecodeEncode(k: Kind, v: Value)
    requires Fits(k, v)
    ensures Decode(k, Encode(k, v)) == Carried(k, v)
    ensures Carried(k, v) == Plain(v) <==> Exact(k, v)
  {
    match k
    case Signed(n) => SignedRoundTrip(v.n, n);
    case OctetString(_) =>
    case _ => WireRoundTrip(v.n, k.bytes, Wire(0, k.bytes));
  }

  /** Writes a value through the conversion for its type. */
  method PutTyped(buffer: array<byte>, pos: nat, k: Kind, v: Value) returns (ok: bool)
    requires Fits(k, v) && pos + k.bytes <= buffer.Length
    modifies buffer
    ensures ok && buffer[..] == old(buffer[..pos]) + Encode(k, v) + old(buffer[pos + k.bytes..])
  {
    if k.OctetString? {
      WriteSlice(buffer, pos, Cut(v.s, v.behind, k.bytes));
      ok := true;
    } else {
      ok := PutNumber(buffer, pos, k.bytes, if k.Signed? then ToUnsigned(v.n, k.bytes) else v.n);
    }
  }

  method PutNumber(buffer: array<byte>, pos: nat, n: nat, u: nat) returns (ok: bool)
    requires pos + n <= buffer.Length
    modifies buffer
    ensures ok && buffer[..] == old(buffer[..pos]) + Wire(u, n) + old(buffer[pos + n..])
  {
    ghost var before := buffer[..pos];
    ok := ToProfinet(buffer, pos, n, LittleEndian(u, n), n);
    assert before + Zeros(0) == before;
  }

  /** Reads a value through the conversion for its type. */
  method TakeTyped(buffer: array<byte>, pos: nat, numBytes: nat, k: Kind) returns (ok: bool, v: Value)
    requires pos + numBytes <= buffer.Length
    ensures ok == (k.bytes <= numBytes)
    ensures ok ==> v == Decode(k, buffer[pos..pos + k.bytes])
  {
    ok, v := k.bytes <= numBytes, Number(0);
    if ok && k.OctetString? {
      v := Text(buffer[pos..pos + k.bytes], []);
    } else if ok {
      var variable := new byte[k.bytes](_ => 0);
      ok := FromProfinet(buffer, pos, numBytes, k.bytes, variable);
      var w := buffer[pos..pos + k.bytes];
      assert variable[..] == Reversed(w);
      var n := FromLittleEndian(variable[..]);
      v := Number(if k.Signed? then ToSigned(n, k.bytes) else n);
    }
  }

  // ---------------------------------------------------------------- inputs

  datatype SetCallback = NoSet | TypedSet(kind: Kind) | CustomSet(accepts: seq<byte> -> bool)

  datatype Input = Input(callback: SetCallback, length: nat)

  /** What an application gets to see. A custom callback is given all remaining bytes. */
  datatype Delivery = Typed(v: Value) | Raw(bytes: seq<byte>)

  datatype Fed = Fed(given: seq<Delivery>, ok: bool)

  function Accept(c: SetCallback, bytes: seq<byte>): Fed {
    match c
    case NoSet => Fed([], true)
    case TypedSet(k) =>
      if |bytes| < k.bytes then Fed([], false) else Fed([Typed(Decode(k, bytes[..k.bytes]))], true)
    case CustomSet(accepts) => Fed([Raw(bytes)], accepts(bytes))
  }

  /** Hands out `bytes` slice by slice until an input refuses, after `before` has been given. */
  function Feed(before: seq<Delivery>, inputs: seq<Input>, bytes: seq<byte>): Fed
    decreases inputs
  {
    if inputs == [] then Fed(before, true)
    else if |bytes| < inputs[0].length then Fed(before, false)
    else
      var first := Accept(inputs[0].callback, bytes);
      if !first.ok then Fed(before + first.given, false)
      else Feed(before + first.given, inputs[1..], bytes[inputs[0].length..])
  }

  /** Calls the callback of an input with the rest of the buffer. */
  method Deliver(c: SetCallback, buffer: array<byte>, pos: nat, numBytes: nat) returns (r: Fed)
    requires pos + numBytes <= buffer.Length
    ensures r == Accept(c, buffer[pos..pos + numBytes])
  {
    var bytes := buffer[pos..pos + numBytes];
    match c {
      case NoSet => r := Fed([], true);
      case CustomSet(accepts) => r := Fed([Raw(bytes)], accepts(bytes));
      case TypedSet(k) =>
        assert k.bytes <= numBytes ==> bytes[..k.bytes] == buffer[pos..pos + k.bytes];
        var ok, v := TakeTyped(buffer, pos, numBytes, k);
        r := if ok then Fed([Typed(v)], true) else Fed([], false);
    }
  }

  /** One more input: the rest of the work with what the input made of its slice. */
  lemma FeedOne(before: seq<Delivery>, inputs: seq<Input>, bytes: seq<byte>, i: nat, pos: nat)
    requires i < |inputs| && pos + inputs[i].length <= |bytes|
    ensures var result := Accept(inputs[i].callback, bytes[pos..]);
            Feed(before, inputs[i..], bytes[pos..])
            == if result.ok then Feed(before + result.given, inputs[i + 1..], bytes[pos + inputs[i].length..])
               else Fed(before + result.given, false)
  {
    assert inputs[i..][1..] == inputs[i + 1..];
    assert bytes[pos..][inputs[i].length..] == bytes[pos + inputs[i].length..];
  }

  /** Where the bytes of input `i` start. */
  function InputStart(inputs: seq<Input>, i: nat): nat
    requires i <= |inputs|
  {
    InputBytes(inputs[..i])
  }

  lemma StartsShift(inputs: seq<Input>, bytes: seq<byte>)
    requires inputs != [] && inputs[0].length <= |bytes|
    ensures InputStart(inputs, 0) == 0
    ensures forall i :: 0 < i < |inputs| ==> InputStart(inputs, i) == inputs[0].length + InputStart(inputs[1..], i - 1)
    ensures forall i :: 0 < i < |inputs| && InputStart(inputs, i) <= |bytes| ==>
              bytes[InputStart(inputs, i)..] == bytes[inputs[0].length..][InputStart(inputs[1..], i - 1)..]
  {
    forall i | 0 < i < |inputs| ensures inputs[..i][1..] == inputs[1..][..i - 1] {}
  }

  /** The inputs accept exactly if there are bytes for all of them and every callback that the
      application has supplied accepts what it is given: all bytes from its slice on. An input
      without a callback never refuses. */
  lemma {:induction false} FeedAccepts(before: seq<Delivery>, inputs: seq<Input>, bytes: seq<byte>)
    ensures Feed(before, inputs, bytes).ok
            <==> InputBytes(inputs) <= |bytes|
                 && forall i :: 0 <= i < |inputs| && InputStart(inputs, i) <= |bytes| ==>
                      Accepting(inputs[i].callback, bytes[InputStart(inputs, i)..])
    decreases inputs
  {
    if inputs != [] && inputs[0].length <= |bytes| {
      FeedAccepts(before + Accept(inputs[0].callback, bytes).given, inputs[1..], bytes[inputs[0].length..]);
      StartsShift(inputs, bytes);
      assert bytes[0..] == bytes;
    }
  }

  predicate Accepting(c: SetCallback, bytes: seq<byte>) {
    && (c.TypedSet? ==> c.kind.bytes <= |bytes|)
    && (c.CustomSet? ==> c.accepts(bytes))
  }

  /** When all inputs have callbacks and accept, each has been given its own bytes in order: a
      typed one the value in its slice, the application's own all bytes from its slice on. */
  lemma {:induction false} FeedGives(before: seq<Delivery>, inputs: seq<Input>, bytes: seq<byte>)
    requires Feed(before, inputs, bytes).ok
    requires forall i :: 0 <= i < |inputs| ==> !inputs[i].callback.NoSet?
    ensures var given := Feed(before, inputs, bytes).given;
            && |given| == |before| + |inputs| && given[..|before|] == before
            && forall i :: 0 <= i < |inputs| && InputStart(inputs, i) <= |bytes| ==>
                 IsGiven(given[|before| + i], inputs[i].callback, bytes[InputStart(inputs, i)..])
    decreases inputs
  {
    if inputs == [] {
      assert before[..|before|] == before;
    } else {
      var first := Accept(inputs[0].callback, bytes).given;
      FeedGives(before + first, inputs[1..], bytes[inputs[0].length..]);
      StartsShift(inputs, bytes);
      assert bytes[0..] == bytes;
      OneGiven(before, first[0], Feed(before, inputs, bytes).given);
    }
  }

  lemma OneGiven(before: seq<Delivery>, d: Delivery, given: seq<Delivery>)
    requires |before| < |given| && given[..|before| + 1] == before + [d]
    ensures given[|before|] == d && given[..|before|] == before
  {
    assert given[|before|] == given[..|before| + 1][|before|];
    assert given[..|before|] == given[..|before| + 1][..|before|];
  }

  predicate IsGiven(d: Delivery, c: SetCallback, bytes: seq<byte>) {
    match c
    case NoSet => true
    case TypedSet(k) => k.bytes <= |bytes| && d == Typed(Decode(k, bytes[..k.bytes]))
    case CustomSet(_) => d == Raw(bytes)
  }

  function InputBytes(inputs: seq<Input>): nat {
    if inputs == [] then 0 else inputs[0].length + InputBytes(inputs[1..])
  }

  // ---------------------------------------------------------------- outputs

  datatype GetCallback = NoGet | TypedGet(kind: Kind) | CustomGet

  datatype Output = Output(callback: GetCallback, length: nat)

  /** What the application answers when an output asks for its value. */
  datatype Answer = Answer(value: Value, custom: Option<seq<byte>>)

  /** Typed outputs have the length of their type; a custom callback that succeeds fills its slice. */
  predicate Answers(o: Output, a: Answer) {
    match o.callback
    case NoGet => true
    case TypedGet(k) => o.length == k.bytes && Fits(k, a.value)
    case CustomGet => a.custom.Some? ==> |a.custom.value| == o.length
  }

  function Produce(o: Output, a: Answer): (r: Option<seq<byte>>)
    requires Answers(o, a)
    ensures r.Some? ==> |r.value| == o.length
  {
    match o.callback
    case NoGet => None
    case TypedGet(k) => Some(Encode(k, a.value))
    case CustomGet => a.custom
  }

  predicate AllAnswer(outputs: seq<Output>, answers: seq<Answer>) {
    |answers| == |outputs| && forall i :: 0 <= i < |outputs| ==> Answers(outputs[i], answers[i])
  }

  /** All slices one behind the other, if every output produced one. */
  function Collect(outputs: seq<Output>, answers: seq<Answer>): Option<seq<byte>>
    requires AllAnswer(outputs, answers)
  {
    if outputs == [] then Some([])
    else
      var first := Produce(outputs[0], answers[0]);
      if first.None? then None
      else
        var rest := Collect(outputs[1..], answers[1..]);
        if rest.None? then None else Some(first.value + rest.value)
  }

  /** All outputs produce exactly if each has a callback, and no callback of the application's
      own fails. */
  lemma {:induction false} CollectProduces(outputs: seq<Output>, answers: seq<Answer>)
    requires AllAnswer(outputs, answers)
    ensures Collect(outputs, answers).Some?
            <==> forall i :: 0 <= i < |outputs| ==>
                   && !outputs[i].callback.NoGet?
                   && (outputs[i].callback.CustomGet? ==> answers[i].custom.Some?)
  {
    if outputs != [] {
      CollectProduces(outputs[1..], answers[1..]);
      forall i | 0 < i < |outputs| ensures outputs[i] == outputs[1..][i - 1] && answers[i] == answers[1..][i - 1] {}
    }
  }

  function OutputBytes(outputs: seq<Output>): nat {
    if outputs == [] then 0 else outputs[0].length + OutputBytes(outputs[1..])
  }

  /** Calls the callback of an output with the place of its slice. Without a callback this fails,
      but clears the first byte. */
  method Fill(buffer: array<byte>, pos: nat, o: Output, a: Answer) returns (ok: bool)
    requires Answers(o, a) && pos + o.length <= buffer.Length
    modifies buffer
    ensures ok == Produce(o, a).Some?
    ensures buffer[..] == if ok then old(buffer[..pos]) + Produce(o, a).value + old(buffer[pos + o.length..])
                          else if o.callback.NoGet? && o.length > 0 then old(buffer[..])[pos := 0]
                          else old(buffer[..])
  {
    ok := false;
    match o.callback {
      case NoGet =>
        if o.length > 0 {
          buffer[pos] := 0;
        }
      case TypedGet(k) => ok := PutTyped(buffer, pos, k, a.value);
      case CustomGet =>
        if a.custom.Some? {
          WriteSlice(buffer, pos, a.custom.value);
          ok := true;
        }
    }
  }

  // ---------------------------------------------------------------- the submodule

  datatype Configuration = Configuration(
    parameters: seq<uint16>, inputs: seq<Input>, outputs: seq<Output>, hasAllUpdated: bool)

  predicate DistinctParameters(parameters: seq<uint16>) {
    forall i, j :: 0 <= i < j < |parameters| ==> parameters[i] != parameters[j]
  }

  class SubmoduleInstance {
    var parameters: set<uint16>
    var inputs: seq<Input>
    var outputs: seq<Output>
    var inputLength: nat
    var outputLength: nat
    var hasAllUpdated: bool
    var initialized: bool

    // What the application has been given, and how often it was told that all is updated.
    var delivered: seq<Delivery>
    var updates: nat

    /** The lengths are those of the items. */
    ghost predicate Valid()
      reads this
    {
      inputLength == InputBytes(inputs) && outputLength == OutputBytes(outputs)
    }

    /** Nothing has been configured yet. */
    predicate Fresh()
      reads this
    {
      parameters == {} && inputs == [] && outputs == []
    }

    constructor ()
      ensures Valid() && Fresh() && !initialized
      ensures delivered == [] && updates == 0
    {
      parameters, inputs, outputs := {}, [], [];
      inputLength, outputLength, hasAllUpdated, initialized := 0, 0, false, false;
      delivered, updates := [], 0;
    }

    /** Succeeds exactly when no parameter index occurs twice, among those there are already or
        the new ones. Then the items come behind those there are already, but the lengths are
        those of the new ones alone. */
    method Initialize(c: Configuration) returns (ok: bool)
      modifies this
      ensures ok == (DistinctParameters(c.parameters) && forall p :: p in c.parameters ==> p !in old(parameters))
      ensures initialized == (ok || old(initialized)) && hasAllUpdated == c.hasAllUpdated
      ensures ok ==>
                && parameters == old(parameters) + (set p | p in c.parameters)
                && inputs == old(inputs) + c.inputs && inputLength == InputBytes(c.inputs)
                && outputs == old(outputs) + c.outputs && outputLength == OutputBytes(c.outputs)
                && (Valid() <==> InputBytes(old(inputs)) == 0 && OutputBytes(old(outputs)) == 0)
      ensures ok && old(Fresh()) ==> Valid() && inputs == c.inputs && outputs == c.outputs
      ensures !ok ==>
                && inputs == old(inputs) && inputLength == old(inputLength)
                && outputs == old(outputs) && outputLength == old(outputLength)
      ensures delivered == old(delivered) && updates == old(updates)
    {
      ghost var ins, outs := inputs, outputs;
      hasAllUpdated := c.hasAllUpdated;
      ok := AddParameters(c.parameters);
      if ok {
        AddItems(c);
        RightLengths(ins, c.inputs, outs, c.outputs);
        initialized := true;
      }
    }

    method AddItems(c: Configuration)
      modifies this`inputs, this`inputLength, this`outputs, this`outputLength
      ensures inputs == old(inputs) + c.inputs && inputLength == InputBytes(c.inputs)
      ensures outputs == old(outputs) + c.outputs && outputLength == OutputBytes(c.outputs)
    {
      AddInputs(c.inputs);
      AddOutputs(c.outputs);
    }

    method AddParameters(ps: seq<uint16>) returns (ok: bool)
      modifies this`parameters
      ensures ok == (DistinctParameters(ps) && forall p :: p in ps ==> p !in old(parameters))
      ensures ok ==> parameters == old(parameters) + (set p | p in ps)
    {
      for i := 0 to |ps|
        invariant DistinctParameters(ps[..i]) && forall p :: p in ps[..i] ==> p !in old(parameters)
        invariant parameters == old(parameters) + (set p | p in ps[..i])
      {
        if ps[i] in parameters {
          assert ps[i] in ps[..i] || ps[i] in old(parameters);
          return false;
        }
        parameters := parameters + {ps[i]};
        assert ps[..i + 1] == ps[..i] + [ps[i]];
      }
      assert ps[..|ps|] == ps;
      ok := true;
    }

    method AddInputs(items: seq<Input>)
      modifies this`inputs, this`inputLength
      ensures inputs == old(inputs) + items && inputLength == InputBytes(items)
    {
      inputLength := 0;
      for i := 0 to |items|
        invariant inputs == old(inputs) + items[..i] && inputLength == InputBytes(items[..i])
      {
        InputBytesConcat(items[..i], [items[i]]);
        assert items[..i + 1] == items[..i] + [items[i]];
        inputs := inputs + [items[i]];
        inputLength := inputLength + items[i].length;
      }
      assert items[..|items|] == items;
    }

    method AddOutputs(items: seq<Output>)
      modifies this`outputs, this`outputLength
      ensures outputs == old(outputs) + items && outputLength == OutputBytes(items)
    {
      outputLength := 0;
      for i := 0 to |items|
        invariant outputs == old(outputs) + items[..i] && outputLength == OutputBytes(items[..i])
      {
        OutputBytesConcat(items[..i], [items[i]]);
        assert items[..i + 1] == items[..i] + [items[i]];
        outputs := outputs + [items[i]];
        outputLength := outputLength + items[i].length;
      }
      assert items[..|items|] == items;
    }

    /** Every input gets its slice, in order, as long as there are bytes and all of them accept;
        the all-updated callback comes once, and only if they all did. */
    method SetInput(buffer: array?<byte>, numBytes: nat) returns (ok: bool)
      requires buffer != null ==> numBytes <= buffer.Length
      modifies this`delivered, this`updates
      ensures buffer == null || numBytes < inputLength ==>
                !ok && delivered == old(delivered) && updates == old(updates)
      ensures buffer != null && numBytes >= inputLength ==>
                && Fed(delivered, ok) == Feed(old(delivered), inputs, buffer[..numBytes])
                && updates == old(updates) + (if ok && hasAllUpdated then 1 else 0)
    {
      if buffer == null || numBytes < inputLength {
        return false;
      }
      ok := DeliverAll(buffer, numBytes);
      if ok && hasAllUpdated {
        updates := updates + 1;
      }
    }

    /** The loop over the inputs, until one refuses. */
    method DeliverAll(buffer: array<byte>, end: nat) returns (ok: bool)
      requires end <= buffer.Length
      modifies this`delivered
      ensures Fed(delivered, ok) == Feed(old(delivered), inputs, buffer[..end])
    {
      var pos: nat := 0;
      ghost var all := Feed(delivered, inputs, buffer[..end]);
      assert inputs[0..] == inputs && buffer[0..end] == buffer[..end];
      for i := 0 to |inputs|
        invariant pos <= end && all == Feed(delivered, inputs[i..], buffer[pos..end])
      {
        ok := DeliverTo(i, buffer, pos, end);
        if !ok {
          return;
        }
        pos := pos + inputs[i].length;
      }
      ok := true;
    }

    /** One input gets the bytes from `pos` on, and leaves those behind its length to the rest. */
    method DeliverTo(i: nat, buffer: array<byte>, pos: nat, end: nat) returns (ok: bool)
      requires i < |inputs| && pos <= end <= buffer.Length
      modifies this`delivered
      ensures ok ==> pos + inputs[i].length <= end
      ensures Feed(old(delivered), inputs[i..], buffer[pos..end])
           == if ok then Feed(delivered, inputs[i + 1..], buffer[pos + inputs[i].length..end])
              else Fed(delivered, false)
    {
      if end - pos < inputs[i].length {
        return false;
      }
      ghost var bytes := buffer[pos..end];
      FeedOne(delivered, inputs, bytes, i, 0);
      assert bytes[0..] == bytes && bytes[inputs[i].length..] == buffer[pos + inputs[i].length..end];
      var result := Deliver(inputs[i].callback, buffer, pos, end - pos);
      delivered := delivered + result.given;
      ok := result.ok;
    }

    /** Fills the buffer with the slices of all outputs in order, or fails if one of them does or
        they are longer than they should be. `capacity` and the result length are one in-out
        parameter, possibly absent. */
    method GetOutput(buffer: array?<byte>, capacity: Option<nat>, answers: seq<Answer>)
      returns (ok: bool, written: Option<nat>)
      requires AllAnswer(outputs, answers)
      requires buffer != null && capacity.Some? ==> capacity.value <= buffer.Length
      modifies if buffer == null then {} else {buffer}
      ensures buffer == null || capacity.None? || capacity.value < outputLength ==> !ok && written == capacity
      ensures buffer != null && capacity.Some? && capacity.value >= outputLength ==>
                && ok == (Collect(outputs, answers).Some? && OutputBytes(outputs) <= outputLength)
                && written == (if ok then Some(outputLength) else capacity)
                && (ok ==> buffer[..OutputBytes(outputs)] == Collect(outputs, answers).value)
                && buffer[outputLength..] == old(buffer[outputLength..])
      ensures buffer != null && (capacity.None? || capacity.value < outputLength) ==> buffer[..] == old(buffer[..])
    {
      ok, written := false, capacity;
      if capacity.None? || buffer == null || capacity.value < outputLength {
        return;
      }
      ok := FillAll(buffer, outputLength, answers);
      if ok {
        written := Some(outputLength);
      }
    }

    /** The loop over the outputs, until one fails or does not fit. */
    method FillAll(buffer: array<byte>, end: nat, answers: seq<Answer>) returns (ok: bool)
      requires AllAnswer(outputs, answers) && end <= buffer.Length
      modifies buffer
      ensures ok == (Collect(outputs, answers).Some? && OutputBytes(outputs) <= end)
      ensures ok ==> buffer[..OutputBytes(outputs)] == Collect(outputs, answers).value
      ensures buffer[end..] == old(buffer[end..])
    {
      ok := false;
      var pos: nat := 0;
      ghost var all, total := Collect(outputs, answers), OutputBytes(outputs);
      assert outputs[0..] == outputs && answers[0..] == answers;
      PrependNothing(all);
      assert buffer[..0] == [];
      for i := 0 to |outputs|
        invariant pos <= end && pos + OutputBytes(outputs[i..]) == total
        invariant AllAnswer(outputs[i..], answers[i..])
        invariant buffer[end..] == old(buffer[end..])
        invariant all == Prepend(buffer[..pos], Collect(outputs[i..], answers[i..]))
      {
        CollectOne(outputs, answers, buffer[..pos], i);
        if end - pos < outputs[i].length {
          return;
        }
        var filled := Fill(buffer, pos, outputs[i], answers[i]);
        if !filled {
          return;
        }
        pos := pos + outputs[i].length;
      }
      ok := true;
    }
  }

  /** `before` with the rest behind it, if there is a rest. */
  function Prepend(before: seq<byte>, rest: Option<seq<byte>>): Option<seq<byte>> {
    if rest.None? then None else Some(before + rest.value)
  }

  lemma PrependNothing(rest: Option<seq<byte>>)
    ensures Prepend([], rest) == rest
  {
    if rest.Some? {
      assert [] + rest.value == rest.value;
    }
  }

  /** One more output: the rest of the work with what the output has produced. */
  lemma CollectOne(outputs: seq<Output>, answers: seq<Answer>, before: seq<byte>, i: nat)
    requires i < |outputs| == |answers| && AllAnswer(outputs[i..], answers[i..])
    ensures OutputBytes(outputs[i..]) == outputs[i].length + OutputBytes(outputs[i + 1..])
    ensures Answers(outputs[i], answers[i]) && AllAnswer(outputs[i + 1..], answers[i + 1..])
    ensures var first := Produce(outputs[i], answers[i]);
            Prepend(before, Collect(outputs[i..], answers[i..]))
            == if first.None? then None
               else Prepend(before + first.value, Collect(outputs[i + 1..], answers[i + 1..]))
  {
    assert outputs[i..][0] == outputs[i] && outputs[i..][1..] == outputs[i + 1..];
    assert answers[i..][0] == answers[i] && answers[i..][1..] == answers[i + 1..];
    var os, ans := outputs[i + 1..], answers[i + 1..];
    forall j | 0 <= j < |os| ensures Answers(os[j], ans[j]) {
      assert os[j] == outputs[i..][j + 1] && ans[j] == answers[i..][j + 1];
    }
    var first, rest := Produce(outputs[i], answers[i]), Collect(outputs[i + 1..], answers[i + 1..]);
    if first.Some? && rest.Some? {
      assert before + (first.value + rest.value) == (before + first.value) + rest.value;
    }
  }

  /** A callback writes its slice. */
  method WriteSlice(buffer: array<byte>, pos: nat, slice: seq<byte>)
    requires pos + |slice| <= buffer.Length
    modifies buffer
    ensures buffer[..] == old(buffer[..pos]) + slice + old(buffer[pos + |slice|..])
  {
    ghost var before := buffer[..];
    for i := 0 to |slice|
      invariant buffer[..] == before[..pos] + slice[..i] + before[pos + i..]
    {
      buffer[pos + i] := slice[i];
    }
    assert slice[..|slice|] == slice;
  }

  lemma {:induction false} InputBytesConcat(a: seq<Input>, b: seq<Input>)
    ensures InputBytes(a + b) == InputBytes(a) + InputBytes(b)
  {
    if a == [] {
      assert a + b == b;
    } else {
      InputBytesConcat(a[1..], b);
      assert (a + b)[1..] == a[1..] + b;
    }
  }

  lemma {:induction false} OutputBytesConcat(a: seq<Output>, b: seq<Output>)
    ensures OutputBytes(a + b) == OutputBytes(a) + OutputBytes(b)
  {
    if a == [] {
      assert a + b == b;
    } else {
      OutputBytesConcat(a[1..], b);
      assert (a + b)[1..] == a[1..] + b;
    }
  }

  /** The bytes of the new items are those of all items exactly if the earlier ones have none. */
  lemma RightLengths(ins: seq<Input>, moreIns: seq<Input>, outs: seq<Output>, moreOuts: seq<Output>)
    ensures InputBytes(moreIns) == InputBytes(ins + moreIns) <==> InputBytes(ins) == 0
    ensures OutputBytes(moreOuts) == OutputBytes(outs + moreOuts) <==> OutputBytes(outs) == 0
    ensures ins == [] ==> ins + moreIns == moreIns && InputBytes(ins) == 0
    ensures outs == [] ==> outs + moreOuts == moreOuts && OutputBytes(outs) == 0
  {
    InputBytesConcat(ins, moreIns);
    OutputBytesConcat(outs, moreOuts);
  }

  // ---------------------------------------------------------------- a second initialisation

  predicate AllTyped(inputs: seq<Input>) {
    forall i :: 0 <= i < |inputs| ==> inputs[i].callback.TypedSet? && inputs[i].callback.kind.bytes == inputs[i].length
  }

  /** Typed inputs accept exactly if there are bytes for all of them. */
  lemma {:induction false} TypedNeedTheirBytes(before: seq<Delivery>, inputs: seq<Input>, bytes: seq<byte>)
    requires AllTyped(inputs)
    ensures Feed(before, inputs, bytes).ok <==> InputBytes(inputs) <= |bytes|
    decreases inputs
  {
    if inputs != [] && inputs[0].length <= |bytes| {
      var first := Accept(inputs[0].callback, bytes);
      TypedNeedTheirBytes(before + first.given, inputs[1..], bytes[inputs[0].length..]);
    }
  }

  method ItemsTwice(instance: SubmoduleInstance, c: Configuration)
    requires instance.Fresh() && c.parameters == []
    modifies instance
    ensures instance.inputs == c.inputs + c.inputs && instance.outputs == c.outputs + c.outputs
    ensures instance.inputLength == InputBytes(c.inputs) && instance.outputLength == OutputBytes(c.outputs)
    ensures instance.delivered == old(instance.delivered) && instance.updates == old(instance.updates)
  {
    var once := instance.Initialize(c);
    var twice := instance.Initialize(c);
  }

  /** An instance initialised twice with the same items has them twice but counts them once: with
      the bytes it says it needs, setting the input fails and getting the output fails, unless
      the items are empty. */
  method InitialiseTwice(instance: SubmoduleInstance, c: Configuration, buffer: array<byte>, answers: seq<Answer>)
    returns (input: bool, output: bool)
    requires instance.Fresh() && c.parameters == [] && AllTyped(c.inputs) && AllAnswer(c.outputs + c.outputs, answers)
    requires buffer.Length == InputBytes(c.inputs) + OutputBytes(c.outputs)
    modifies instance, buffer
    ensures instance.inputs == c.inputs + c.inputs && instance.outputs == c.outputs + c.outputs
    ensures instance.inputLength == InputBytes(c.inputs) && instance.outputLength == OutputBytes(c.outputs)
    ensures input <==> InputBytes(c.inputs) == 0
    ensures !input ==> instance.updates == old(instance.updates)
    ensures OutputBytes(c.outputs) > 0 ==> !output
  {
    ItemsTwice(instance, c);
    InputBytesConcat(c.inputs, c.inputs);
    OutputBytesConcat(c.outputs, c.outputs);
    var n := instance.inputLength;
    TypedNeedTheirBytes(instance.delivered, instance.inputs, buffer[..n]);
    input := instance.SetInput(buffer, n);
    var written;
    output, written := instance.GetOutput(buffer, Some(instance.outputLength), answers);
  }
}

/** Profinet's big-endian codecs on a little-endian host: the generic byte loops, the
    shift-based specialisations, and what they mean for numbers. */
module Codec {
  import opened Basics

  // ---------------------------------------------------------------- bytes and numbers

  function Pow256(n: nat): (p: nat)
    ensures p >= 1
  {
    if n == 0 then 1 else 256 * Pow256(n - 1)
  }

  /** The memory of an `n` byte unsigned variable on a little-endian host. */
  function LittleEndian(v: nat, n: nat): (m: seq<byte>)
    ensures |m| == n
  {
    if n == 0 then [] else [v % 256] + LittleEndian(v / 256, n - 1)
  }

  function FromLittleEndian(m: seq<byte>): nat {
    if m == [] then 0
    else
      var low: nat := m[0];
      low + 256 * FromLittleEndian(m[1..])
  }

  function Reversed(m: seq<byte>): seq<byte> {
    seq(|m|, i requires 0 <= i < |m| => m[|m| - 1 - i])
  }

  function Zeros(n: nat): seq<byte> { seq(n, _ => 0) }

  /** The bytes on the wire: most significant first. */
  function Wire(v: nat, n: nat): seq<byte> { Reversed(LittleEndian(v, n)) }

  function FromWire(w: seq<byte>): nat { FromLittleEndian(Reversed(w)) }

  lemma {:induction false} LittleEndianRoundTrip(v: nat, n: nat)
    requires v < Pow256(n)
    ensures FromLittleEndian(LittleEndian(v, n)) == v
  {
    if n > 0 {
      LittleEndianRoundTrip(v / 256, n - 1);
      assert LittleEndian(v, n)[1..] == LittleEndian(v / 256, n - 1);
    }
  }

  lemma {:induction false} LittleEndianBound(m: seq<byte>)
    ensures FromLittleEndian(m) < Pow256(|m|)
    ensures LittleEndian(FromLittleEndian(m), |m|) == m
  {
    if m != [] {
      LittleEndianBound(m[1..]);
      var low: nat, rest := m[0], FromLittleEndian(m[1..]);
      FirstByte(low, rest);
      assert Pow256(|m|) == 256 * Pow256(|m| - 1);
      assert LittleEndian(FromLittleEndian(m), |m|) == [m[0]] + LittleEndian(rest, |m| - 1);
    }
  }

  lemma FirstByte(low: nat, rest: nat)
    requires low < 256
    ensures (low + 256 * rest) % 256 == low && (low + 256 * rest) / 256 == rest
  {
  }

  /** Byte `k` on the wire has weight 256 to the number of bytes behind it. */
  lemma {:induction false} WireByte(v: nat, n: nat, k: nat)
    requires k < n
    ensures Wire(v, n)[k] == v / Pow256(n - 1 - k) % 256
  {
    LittleEndianByte(v, n, n - 1 - k);
  }

  lemma {:induction false} LittleEndianByte(v: nat, n: nat, k: nat)
    requires k < n
    ensures LittleEndian(v, n)[k] == v / Pow256(k) % 256
  {
    if k > 0 {
      LittleEndianByte(v / 256, n - 1, k - 1);
      DivideTwice(v, Pow256(k - 1));
    }
  }

  lemma DivideTwice(v: nat, p: nat)
    requires p > 0
    ensures v / 256 / p == v / (256 * p)
  {
    var a, q := v / 256, v / 256 / p;
    assert a == p * q + a % p;
    var r := 256 * (a % p) + v % 256;
    assert v == (256 * p) * q + r;
    assert r < 256 * p;
    QuotientOf(256 * p, q, r);
  }

  lemma ReversedTwice(m: seq<byte>)
    ensures Reversed(Reversed(m)) == m
  {
  }

  /** Every number that fits survives the wire, and every wire image stands for one number. */
  lemma WireRoundTrip(v: nat, n: nat, w: seq<byte>)
    requires v < Pow256(n) && |w| == n
    ensures FromWire(Wire(v, n)) == v
    ensures FromWire(w) < Pow256(n) && Wire(FromWire(w), n) == w
  {
    ReversedTwice(LittleEndian(v, n));
    LittleEndianRoundTrip(v, n);
    LittleEndianBound(Reversed(w));
    ReversedTwice(w);
  }

  // ---------------------------------------------------------------- two's complement

  predicate FitsSigned(v: int, n: nat) { 0 <= 2 * v + Pow256(n) && 2 * v < Pow256(n) }

  function ToUnsigned(v: int, n: nat): nat
    requires FitsSigned(v, n)
  {
    if v < 0 then v + Pow256(n) else v
  }

  function ToSigned(u: nat, n: nat): int {
    if 2 * u < Pow256(n) then u else u - Pow256(n)
  }

  lemma SignedRoundTrip(v: int, n: nat)
    requires FitsSigned(v, n)
    ensures ToUnsigned(v, n) < Pow256(n) && ToSigned(FromWire(Wire(ToUnsigned(v, n), n)), n) == v
  {
    WireRoundTrip(ToUnsigned(v, n), n, Wire(0, n));
  }

  // ---------------------------------------------------------------- the generic loops

  /** Writes a variable whose memory is `memory` as `length` bytes. */
  method ToProfinet(buffer: array<byte>, offset: nat, numBytes: nat, memory: seq<byte>, length: nat) returns (ok: bool)
    requires offset + numBytes <= buffer.Length && |memory| <= length
    modifies buffer
    ensures ok == (length <= numBytes)
    ensures ok ==> buffer[..] == old(buffer[..offset]) + Zeros(length - |memory|) + Reversed(memory)
                                 + old(buffer[offset + length..])
    ensures !ok ==> buffer[..] == old(buffer[..])
  {
    if numBytes < length {
      return false;
    }
    ghost var before := buffer[..];
    var mid, end := offset + length - |memory|, offset + length;
    WriteReversed(buffer, end, memory);
    ghost var written := buffer[..];
    WriteZeros(buffer, offset, mid);
    assert mid - offset == length - |memory| && |Reversed(memory)| == end - mid;
    Pieces(before, Zeros(mid - offset), Reversed(memory), written, offset, mid, end);
    ok := true;
  }

  lemma Pieces(before: seq<byte>, z: seq<byte>, piece: seq<byte>, written: seq<byte>, offset: nat, mid: nat, end: nat)
    requires offset <= mid <= end <= |before| && |piece| == end - mid
    requires written == before[..mid] + piece + before[end..]
    ensures written[..offset] + z + written[mid..] == before[..offset] + z + piece + before[end..]
  {
    assert written[..offset] == before[..offset] && written[mid..] == piece + before[end..];
  }

  /** The loop over the variable's memory, from the end of the field backwards. */
  method WriteReversed(buffer: array<byte>, end: nat, memory: seq<byte>)
    requires |memory| <= end <= buffer.Length
    modifies buffer
    ensures buffer[..] == old(buffer[..end - |memory|]) + Reversed(memory) + old(buffer[end..])
  {
    for i := 0 to |memory|
      invariant forall k :: 0 <= k < buffer.Length ==>
                  buffer[k] == if end - i <= k < end then memory[end - 1 - k] else old(buffer[k])
    {
      buffer[end - i - 1] := memory[i];
    }
  }

  /** The loop over the bytes of the field that the variable does not fill. */
  method WriteZeros(buffer: array<byte>, from: nat, end: nat)
    requires from <= end <= buffer.Length
    modifies buffer
    ensures buffer[..] == old(buffer[..from]) + Zeros(end - from) + old(buffer[end..])
  {
    for i := 0 to end - from
      invariant forall k :: 0 <= k < buffer.Length ==>
                  buffer[k] == if end - i <= k < end then 0 else old(buffer[k])
    {
      buffer[end - i - 1] := 0;
    }
  }

  /** Reads `length` bytes into a variable, whose memory is `value`. A failure leaves it alone. */
  method FromProfinet(buffer: array<byte>, offset: nat, numBytes: nat, length: nat, value: array<byte>)
    returns (ok: bool)
    requires offset + numBytes <= buffer.Length && length <= value.Length && buffer != value
    modifies value
    ensures ok == (length <= numBytes)
    ensures ok ==> value[..] == Zeros(value.Length - length) + Reversed(buffer[offset..offset + length])
    ensures !ok ==> value[..] == old(value[..])
  {
    if numBytes < length {
      return false;
    }
    var size := value.Length;
    if length < size {
      WriteZeros(value, 0, size);
    }
    for i := 0 to length
      invariant forall k :: 0 <= k < size - length ==> value[k] == 0
      invariant forall k :: size - i <= k < size ==> value[k] == buffer[offset + size - 1 - k]
    {
      value[size - i - 1] := buffer[offset + i];
    }
    ok := true;
  }

  /** Writing fewer bytes than the field has pads with leading zeros and keeps the number. */
  lemma {:induction false} PaddedWire(v: nat, size: nat, length: nat)
    requires v < Pow256(size) && size <= length
    ensures Zeros(length - size) + Wire(v, size) == Wire(v, length)
  {
    if size < length {
      SmallEndsInZero(v, length - 1, size);
      PaddedWire(v, size, length - 1);
      assert Zeros(length - size) == [0] + Zeros(length - 1 - size);
      assert Wire(v, length) == [0] + Wire(v, length - 1);
    }
  }

  lemma {:induction false} SmallEndsInZero(v: nat, n: nat, size: nat)
    requires v < Pow256(size) && size <= n
    ensures LittleEndian(v, n + 1) == LittleEndian(v, n) + [0]
  {
    if n > 0 {
      if size == 0 {
        SmallEndsInZero(v / 256, n - 1, 0);
      } else {
        SmallEndsInZero(v / 256, n - 1, size - 1);
      }
    }
  }

  /** Reading a short field into a wider variable is another matter: the bytes land at the
      high end, so the number comes out multiplied. It is right only if the field is as wide
      as the variable, or zero. */
  lemma ShortRead(w: seq<byte>, size: nat)
    requires |w| <= size
    ensures var read := FromLittleEndian(Zeros(size - |w|) + Reversed(w));
            && read == FromWire(w) * Pow256(size - |w|)
            && (read == FromWire(w) <==> |w| == size || FromWire(w) == 0)
  {
    LeadingZeros(size - |w|, Reversed(w));
    OnlyZeroIsKept(FromWire(w), size - |w|);
  }

  lemma OnlyZeroIsKept(v: nat, n: nat)
    ensures v * Pow256(n) == v <==> n == 0 || v == 0
  {
    if n > 0 {
      var p: nat := Pow256(n - 1);
      assert Pow256(n) == 256 * p;
      if v > 0 {
        AtLeast(v, p);
      }
    }
  }

  lemma AtLeast(v: nat, p: nat)
    requires v > 0 && p > 0
    ensures v * (256 * p) > v
  {
    assert v * p >= v;
    assert v * (256 * p) == 256 * (v * p);
  }

  lemma {:induction false} LeadingZeros(n: nat, m: seq<byte>)
    ensures FromLittleEndian(Zeros(n) + m) == FromLittleEndian(m) * Pow256(n)
  {
    if n == 0 {
      assert Zeros(0) + m == m;
    } else {
      LeadingZeros(n - 1, m);
      assert (Zeros(n) + m)[1..] == Zeros(n - 1) + m;
      assert FromLittleEndian(Zeros(n) + m) == 256 * FromLittleEndian(Zeros(n - 1) + m);
      Regroup(FromLittleEndian(m), Pow256(n - 1));
    }
  }

  lemma Regroup(a: int, b: int)
    ensures 256 * (a * b) == a * (256 * b)
  {
  }

  // ---------------------------------------------------------------- the shift-based codecs

  /** `(value >> 24) & 0xFF` and so on; for negative values the shift is arithmetic. */
  function ShiftEncode32(v: int): seq<byte> {
    [v / 0x100_0000 % 256, v / 0x1_0000 % 256, v / 0x100 % 256, v % 256]
  }

  function ShiftEncode16(v: int): seq<byte> {
    [v / 0x100 % 256, v % 256]
  }

  function ShiftDecode32(w: seq<byte>): nat
    requires |w| == 4
  {
    var b0: nat, b1: nat, b2: nat, b3: nat := w[0], w[1], w[2], w[3];
    b0 * 0x100_0000 + b1 * 0x1_0000 + b2 * 0x100 + b3
  }

  function ShiftDecode16(w: seq<byte>): nat
    requires |w| == 2
  {
    var b0: nat, b1: nat := w[0], w[1];
    b0 * 0x100 + b1
  }

  /** The bitwise or of bytes shifted to different places is their weighted sum. */
  lemma OrOfShiftedBytes(b0: bv32, b1: bv32, b2: bv32, b3: bv32)
    requires b0 <= 255 && b1 <= 255 && b2 <= 255 && b3 <= 255
    ensures (b0 << 24) | (b1 << 16) | (b2 << 8) | b3 == b0 * 0x100_0000 + b1 * 0x1_0000 + b2 * 0x100 + b3
  {
  }

  /** The 32 bit specialisations agree with the generic loop, for unsigned values and for
      negative ones in two's complement. */
  lemma ShiftEncode32IsGeneric(v: int)
    ensures 0 <= v < Pow256(4) ==> ShiftEncode32(v) == Wire(v, 4)
    ensures FitsSigned(v, 4) ==> ShiftEncode32(v) == Wire(ToUnsigned(v, 4), 4)
  {
    Powers();
    if 0 <= v {
      WireOfFour(v);
    } else if FitsSigned(v, 4) {
      WireOfFour(v + 0x1_0000_0000);
      ShiftWraps32(v);
    }
  }

  /** And so do the 16 bit ones. */
  lemma ShiftEncode16IsGeneric(v: int)
    ensures 0 <= v < Pow256(2) ==> ShiftEncode16(v) == Wire(v, 2)
    ensures FitsSigned(v, 2) ==> ShiftEncode16(v) == Wire(ToUnsigned(v, 2), 2)
  {
    Powers();
    if 0 <= v {
      WireOfTwo(v);
    } else if FitsSigned(v, 2) {
      WireOfTwo(v + 0x1_0000);
      ByteAt(v, 0x100, 1);
      ByteAt(v, 1, 0x100);
    }
  }

  lemma Powers()
    ensures Pow256(0) == 1 && Pow256(1) == 256 && Pow256(2) == 0x1_0000
    ensures Pow256(3) == 0x100_0000 && Pow256(4) == 0x1_0000_0000
  {
    assert Pow256(2) == 256 * Pow256(1);
    assert Pow256(3) == 256 * Pow256(2);
    assert Pow256(4) == 256 * Pow256(3);
  }

  lemma WireOfFour(v: nat)
    ensures Wire(v, 4) == ShiftEncode32(v)
  {
    var a, b, c := v / 0x100, v / 0x1_0000, v / 0x100_0000;
    assert a / 256 == b && b / 256 == c;
    assert LittleEndian(c, 1) == [c % 256] + LittleEndian(c / 256, 0) == [c % 256];
    assert LittleEndian(b, 2) == [b % 256] + LittleEndian(c, 1) == [b % 256, c % 256];
    assert LittleEndian(a, 3) == [a % 256] + LittleEndian(b, 2) == [a % 256, b % 256, c % 256];
    assert LittleEndian(v, 4) == [v % 256] + LittleEndian(a, 3) == [v % 256, a % 256, b % 256, c % 256];
  }

  lemma WireOfTwo(v: nat)
    ensures Wire(v, 2) == ShiftEncode16(v)
  {
    assert LittleEndian(v, 2) == [v % 256] + LittleEndian(v / 256, 1);
    assert LittleEndian(v / 256, 1) == [v / 256 % 256] + LittleEndian(v / 256 / 256, 0);
  }

  lemma ShiftWraps32(v: int)
    ensures ShiftEncode32(v + 0x1_0000_0000) == ShiftEncode32(v)
  {
    ByteAt(v, 0x100_0000, 1);
    ByteAt(v, 0x1_0000, 0x100);
    ByteAt(v, 0x100, 0x1_0000);
    ByteAt(v, 1, 0x100_0000);
  }

  /** Adding a multiple of 256 times the weight of a byte does not change that byte. */
  lemma ByteAt(v: int, weight: nat, k: nat)
    requires weight > 0
    ensures (v + weight * 256 * k) / weight % 256 == v / weight % 256
  {
    var q, r := v / weight, v % weight;
    assert v + weight * 256 * k == weight * (q + 256 * k) + r;
    QuotientOf(weight, q + 256 * k, r);
  }

  lemma QuotientOf(d: nat, q: int, r: nat)
    requires r < d
    ensures (d * q + r) / d == q
  {
    var x := d * q + r;
    var e := x / d - q;
    assert d * e == r - x % d;
    assert e >= 1 ==> d * e >= d;
    assert e <= -1 ==> d * e <= d * -1;
  }

  /** Decoding: the specialisations read the same number, and narrowing it to the signed
      type gives back the signed value. */
  lemma ShiftDecodeIsGeneric(w: seq<byte>)
    ensures |w| == 4 ==> ShiftDecode32(w) == FromWire(w) && FitsSigned(ToSigned(ShiftDecode32(w), 4), 4)
    ensures |w| == 2 ==> ShiftDecode16(w) == FromWire(w) && FitsSigned(ToSigned(ShiftDecode16(w), 2), 2)
  {
    Powers();
    if |w| == 4 {
      FourBytes(Reversed(w));
    }
    if |w| == 2 {
      TwoBytes(Reversed(w));
    }
  }

  lemma TwoBytes(m: seq<byte>)
    requires |m| == 2
    ensures FromLittleEndian(m) == m[0] as int + 256 * m[1] as int
  {
    assert m[1..][1..] == [];
    assert FromLittleEndian(m[1..]) == m[1] as int;
  }

  lemma FourBytes(m: seq<byte>)
    requires |m| == 4
    ensures FromLittleEndian(m) == m[0] as int + 0x100 * m[1] as int + 0x1_0000 * m[2] as int + 0x100_0000 * m[3] as int
  {
    assert FromLittleEndian(m) == m[0] as int + 256 * FromLittleEndian(m[1..]);
    assert FromLittleEndian(m[1..]) == m[1] as int + 256 * FromLittleEndian(m[1..][1..]);
    TwoBytes(m[1..][1..]);
  }
}

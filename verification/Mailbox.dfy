/** The mailbox ring buffer: the locked part of a fetch and of a post, once waiting is over. */
module Mailbox {
  import opened Basics

  class Mbox<T(0)> {
    const msg: array<T>
    var r: nat
    var w: nat
    var count: nat

    ghost predicate Valid()
      reads this
    {
      && count <= msg.Length
      && if msg.Length == 0 then r == w == 0 else r < msg.Length && w == Cell(r, count, msg.Length)
    }

    /** The messages waiting to be fetched, oldest first. */
    ghost function Contents(): (q: seq<T>)
      reads this, msg
      requires Valid()
    {
      seq(count, i requires 0 <= i < count reads this, msg requires Valid() => msg[Cell(r, i, msg.Length)])
    }

    constructor (size: nat)
      ensures Valid() && fresh(msg)
      ensures msg.Length == size && Contents() == []
    {
      msg := new T[size];
      r, w, count := 0, 0, 0;
    }

    /** The wait loop has ended: either a message is there or the wait timed out. */
    method Fetch(timedOut: bool) returns (m: Option<T>)
      requires Valid() && (timedOut || count > 0)
      modifies this`r, this`count
      ensures Valid()
      ensures timedOut ==> m.None? && Contents() == old(Contents()) && r == old(r)
      ensures !timedOut ==> m.Some? && old(Contents()) == [m.value] + Contents()
    {
      m := None;
      if !timedOut {
        ghost var before := Contents();
        m := Some(msg[r]);
        assert m.value == before[0] by { Unwrapped(r, 0, msg.Length); }
        ghost var r0, size := r, msg.Length;
        r := r + 1;
        if r == msg.Length {
          r := 0;
        }
        count := count - 1;
        Advance(r0, count, size);
        forall i | 0 <= i < count ensures Contents()[i] == before[i + 1] {
          Advance(r0, i, size);
        }
      }
    }

    /** The wait loop has ended: either there is room or the wait timed out. */
    method Post(m: T, timedOut: bool)
      requires Valid() && (timedOut || count < msg.Length)
      modifies this`w, this`count, msg
      ensures Valid()
      ensures Contents() == if timedOut then old(Contents()) else old(Contents()) + [m]
      ensures timedOut ==> w == old(w) && msg[..] == old(msg[..])
    {
      if !timedOut {
        ghost var before := Contents();
        ghost var size := msg.Length;
        forall i | 0 <= i < count ensures Cell(r, i, size) != w {
          DistinctCells(r, i, count, size);
        }
        ghost var w0 := w;
        msg[w] := m;
        w := w + 1;
        if w == msg.Length {
          w := 0;
        }
        count := count + 1;
        Advance(w0, 0, size);
        Wrap(r, count - 1, size);
        assert Valid();
        assert Contents()[count - 1] == m;
        assert Contents()[..count - 1] == before;
      }
    }
  }

  /** Where the `i`-th message from the read index on is kept. */
  function Cell(r: nat, i: nat, size: nat): nat
    requires size > 0
  {
    (r + i) % size
  }

  /** The cell behind index `r`, with the wrap at the end of the buffer. */
  function Next(r: nat, size: nat): nat {
    if r + 1 == size then 0 else r + 1
  }

  lemma Advance(r: nat, i: nat, size: nat)
    requires r < size
    ensures Cell(Next(r, size), i, size) == Cell(r, i + 1, size)
  {
    if r + 1 == size {
      Shift(i, size);
    }
  }

  lemma Shift(i: nat, size: nat)
    requires size > 0
    ensures (size + i) % size == i % size
  {
    var q := i / size;
    assert size + i == (q + 1) * size + i % size;
    Remainder(size + i, q + 1, i % size, size);
  }

  lemma Remainder(x: nat, q: nat, rest: nat, size: nat)
    requires rest < size && x == q * size + rest
    ensures x % size == rest
  {
    var s: int, d: int := size, x / size - q;
    assert x == (x / size) * s + x % size;
    assert d * s == rest - x % size;
    assert -s < d * s < s;
    assert d >= 1 ==> d * s >= s;
    assert -d >= 1 ==> -d * s >= s;
  }

  lemma Wrap(r: nat, count: nat, size: nat)
    requires size > 0
    ensures Next(Cell(r, count, size), size) == Cell(r, count + 1, size)
  {
    var x := r + count;
    var q, rest := x / size, x % size;
    if rest + 1 == size {
      assert x + 1 == (q + 1) * size + 0;
      Remainder(x + 1, q + 1, 0, size);
    } else {
      Remainder(x + 1, q, rest + 1, size);
    }
  }

  lemma DistinctCells(r: nat, i: nat, count: nat, size: nat)
    requires r < size && i < count < size
    ensures Cell(r, i, size) != Cell(r, count, size)
  {
    Unwrapped(r, i, size);
    Unwrapped(r, count, size);
  }

  lemma Unwrapped(r: nat, i: nat, size: nat)
    requires r < size && i < size
    ensures Cell(r, i, size) == if r + i < size then r + i else r + i - size
  {
    if r + i >= size {
      Remainder(r + i, 1, r + i - size, size);
    } else {
      Remainder(r + i, 0, r + i, size);
    }
  }
}

// The byte ring of kfifo.c: free-running 32-bit counters, masked when they index the buffer.
module Kfifo {
  import opened Bits

  const WORD := 0x1_0000_0000

  // Unsigned 32-bit subtraction and addition.
  function Sub32(a: int, b: int): (r: nat)
    ensures r < WORD
  { (a - b) % WORD }

  function Add32(a: int, b: int): (r: nat)
    ensures r < WORD
  { (a + b) % WORD }

  // The slot of the i-th byte from offset o in a ring of n slots.
  function Slot(o: nat, i: nat, n: nat): (r: nat)
    requires o < n && i <= n
    ensures r < n
  { if o + i < n then o + i else o + i - n }

  // An offset moves with its counter, also across the wrap of the counter.
  lemma SlotAdvance(c: nat, i: nat, k: nat)
    requires c < WORD && i <= Pow2(k) && k <= 31
    ensures Add32(c, i) % Pow2(k) == Slot(c % Pow2(k), i, Pow2(k))
  {
    var n := Pow2(k);
    Pow2Product(k, 32 - k);
    Pow2Is32();
    Wrapped(c, i, n, Pow2(32 - k));
  }

  lemma Wrapped(c: nat, i: nat, n: nat, m: nat)
    requires n > 0 && n * m == WORD && c < WORD && i <= n && n <= WORD
    ensures Add32(c, i) % n == Slot(c % n, i, n)
  {
    var q, o := c / n, c % n;
    WrappedAt(c, i, n, m, q, o);
  }

  lemma WrappedAt(c: nat, i: nat, n: nat, m: int, q: int, o: nat)
    requires n > 0 && n * m == WORD && c < WORD && i <= n && n <= WORD && c == n * q + o && o < n
    ensures Add32(c, i) % n == Slot(o, i, n)
  {
    var carry := if o + i < n then 0 else 1;
    var s := Slot(o, i, n);
    Distribute(n, q, carry);
    var q' := q + carry;
    assert c + i == n * q' + s;
    if c + i < WORD {
      assert Add32(c, i) == c + i;
      ModUnique(c + i, n, q', s);
    } else {
      assert Add32(c, i) == c + i - WORD;
      Distribute(n, q', 0 - m);
      Negate(n, m);
      ModUnique(c + i - WORD, n, q' - m, s);
    }
  }

  lemma Distribute(n: int, a: int, b: int)
    ensures n * (a + b) == n * a + n * b
  {}

  lemma Negate(n: int, a: int)
    ensures n * (0 - a) == -(n * a)
  {}

  lemma {:induction false} Pow2Product(a: nat, b: nat)
    ensures Pow2(a) * Pow2(b) == Pow2(a + b)
  {
    if a > 0 {
      Pow2Product(a - 1, b);
      Associate(Pow2(a - 1), Pow2(b));
    }
  }

  lemma Associate(x: int, y: int)
    ensures (2 * x) * y == 2 * (x * y)
  {}

  lemma Pow2Is32()
    ensures Pow2(32) == WORD
  {
    assert Pow2(8) == 256;
    Pow2Product(8, 8);
    Pow2Product(16, 16);
  }

  // The len bytes that start at offset o of the ring buf.
  ghost function Ring(buf: seq<byte>, o: nat, len: nat): (s: seq<byte>)
    requires o < |buf| && len <= |buf|
    ensures |s| == len && forall i :: 0 <= i < len ==> s[i] == buf[Slot(o, i, |buf|)]
  { seq(len, i requires 0 <= i < len => buf[Slot(o, i, |buf|)]) }

  function Stored(buf: seq<byte>, at: nat, src: seq<byte>): (r: seq<byte>)
    requires at + |src| <= |buf|
    ensures |r| == |buf|
    ensures forall i :: 0 <= i < |buf| ==> r[i] == if at <= i < at + |src| then src[i - at] else buf[i]
  { buf[..at] + src + buf[at + |src|..] }

  // The buffer after two copies, split at its end.
  function Twice(buf: seq<byte>, at: nat, data: seq<byte>): (r: seq<byte>)
    requires at < |buf| && |data| <= |buf|
    ensures |r| == |buf|
  {
    var l := Min(|data|, |buf| - at);
    Stored(Stored(buf, at, data[..l]), 0, data[l..])
  }

  // They append to the ring.
  lemma RingAppend(buf: seq<byte>, o: nat, len: nat, data: seq<byte>)
    requires o < |buf| && len + |data| <= |buf|
    ensures var at := Slot(o, len, |buf|);
      at < |buf| && Ring(Twice(buf, at, data), o, len + |data|) == Ring(buf, o, len) + data
  {
    var at := Slot(o, len, |buf|);
    forall i | 0 <= i < len + |data|
      ensures Twice(buf, at, data)[Slot(o, i, |buf|)] == (Ring(buf, o, len) + data)[i]
    {
      RingAppendAt(buf, o, len, data, at, i);
    }
  }

  lemma RingAppendAt(buf: seq<byte>, o: nat, len: nat, data: seq<byte>, at: nat, i: nat)
    requires o < |buf| && len + |data| <= |buf| && at == Slot(o, len, |buf|) && i < len + |data|
    ensures Twice(buf, at, data)[Slot(o, i, |buf|)] == if i < len then buf[Slot(o, i, |buf|)] else data[i - len]
  {
    var l := Min(|data|, |buf| - at);
    var j := Slot(o, i, |buf|);
    var once := Stored(buf, at, data[..l]);
    assert Twice(buf, at, data)[j] == if j < |data| - l then data[l..][j] else once[j];
  }

  lemma RingDrop(buf: seq<byte>, o: nat, len: nat, r: nat)
    requires o < |buf| && r <= len <= |buf|
    ensures Ring(buf, Slot(o, r, |buf|), len - r) == Ring(buf, o, len)[r..]
  {}

  // The two copies of kfifo_get read the first r bytes of the ring.
  lemma RingRead(buf: seq<byte>, o: nat, len: nat, r: nat)
    requires o < |buf| && r <= len <= |buf|
    ensures var l := Min(r, |buf| - o); buf[o..o + l] + buf[..r - l] == Ring(buf, o, len)[..r]
  {}

  lemma CountersMeet(inn: nat, out: nat)
    requires inn < WORD && out < WORD
    ensures Add32(out, Sub32(inn, out)) == inn
  {}

  class Kfifo {
    const buffer: array<byte>
    const size: nat
    var inn: nat
    var out: nat
    ghost const k: nat

    ghost predicate Valid()
      reads this
    { k <= 31 && size == Pow2(k) && 0 < size < WORD && buffer.Length == size && inn < WORD && out < WORD &&
      Sub32(inn, out) <= size }

    // kfifo_len
    function Len(): (n: nat)
      reads this
    { Sub32(inn, out) }

    // The bytes in the ring, oldest first.
    ghost function Contents(): (s: seq<byte>)
      requires Valid()
      reads this, buffer
      ensures |s| == Len()
    { Ring(buffer[..], out % size, Len()) }

    // kfifo_init
    constructor (size: nat, ghost k: nat)
      requires k <= 31 && size == Pow2(k) && 0 < size < WORD
      ensures Valid() && Contents() == [] && this.size == size && inn == out == 0 && fresh(buffer)
    {
      this.size := size;
      this.k := k;
      buffer := new byte[size];
      inn, out := 0, 0;
    }

    // kfifo_reset
    method Reset()
      requires Valid()
      modifies this
      ensures Valid() && Contents() == []
    {
      inn, out := 0, 0;
    }

    // c & (size - 1)
    function Masked(c: nat): (o: nat)
      requires Valid() && c < WORD
      reads this
      ensures o == c % size && o < size
    {
      AndMask(c, k);
      And(c, size - 1)
    }

    // memcpy into the buffer
    method Store(at: nat, src: seq<byte>)
      requires at + |src| <= buffer.Length
      modifies buffer
      ensures buffer[..] == Stored(old(buffer[..]), at, src)
    {
      forall i | 0 <= i < |src| { buffer[at + i] := src[i]; }
    }

    lemma EndOffset()
      requires Valid()
      ensures inn % size == Slot(out % size, Len(), size)
    {
      CountersMeet(inn, out);
      SlotAdvance(out, Len(), k);
    }

    // The two copies of kfifo_put: from offset at to the end of the buffer, the rest at its beginning.
    method Append(at: nat, data: seq<byte>, ghost o: nat, ghost len: nat)
      requires o < buffer.Length && len + |data| <= buffer.Length && at == Slot(o, len, buffer.Length)
      modifies buffer
      ensures Ring(buffer[..], o, len + |data|) == Ring(old(buffer[..]), o, len) + data
    {
      RingAppend(buffer[..], o, len, data);
      var l := Min(|data|, buffer.Length - at);
      Store(at, data[..l]);
      Store(0, data[l..]);
    }

    // kfifo_put: appends the longest prefix of the first len bytes of data that fits.
    method Put(data: seq<byte>, len: nat) returns (r: nat)
      requires Valid() && len <= |data| && len < WORD
      modifies this`inn, buffer
      ensures Valid() && r == Min(len, size - old(Len())) && Contents() == old(Contents()) + data[..r]
      ensures inn == Add32(old(inn), r)
    {
      FreeSpace(size, inn, out);
      r := Min(len, Add32(Sub32(size, inn), out));
      EndOffset();
      ghost var o := out % size;
      Append(Masked(inn), data[..r], o, Len());
      Advance(inn, out, r);
      inn := Add32(inn, r);
    }

    // The two copies of kfifo_get.
    method Copy(at: nat, r: nat) returns (data: seq<byte>)
      requires at < buffer.Length && r <= buffer.Length
      ensures data == Ring(buffer[..], at, r)
    {
      var l := Min(r, buffer.Length - at);
      RingRead(buffer[..], at, r, r);
      data := buffer[at..at + l] + buffer[..r - l];
    }

    // kfifo_get: removes the longest available prefix of at most len bytes.
    method Get(len: nat) returns (data: seq<byte>, r: nat)
      requires Valid() && len < WORD
      modifies this`out
      ensures Valid() && r == Min(len, old(Len())) && data == old(Contents())[..r] && Contents() == old(Contents())[r..]
      ensures out == Add32(old(out), r)
    {
      r := Min(len, Sub32(inn, out));
      data := Copy(Masked(out), r);
      ghost var o := out % size;
      RingPrefix(buffer[..], o, Len(), r);
      RingDrop(buffer[..], o, Len(), r);
      SlotAdvance(out, r, k);
      Retreat(inn, out, r);
      out := Add32(out, r);
    }

    // kfifo_getahead: the same bytes, without removing them.
    method GetAhead(len: nat) returns (data: seq<byte>, r: nat)
      requires Valid() && len < WORD
      ensures r == Min(len, Len()) && data == Contents()[..r]
    {
      r := Min(len, Sub32(inn, out));
      data := Copy(Masked(out), r);
      RingPrefix(buffer[..], out % size, Len(), r);
    }

    // kfifo_pop compares the raw counters: it drops the oldest byte only while in > out. So a ring that is not empty
    // loses its head exactly while in has not wrapped past out.
    method Pop()
      requires Valid()
      modifies this`out
      ensures Valid() && Contents() == if old(inn) > old(out) then old(Contents())[1..] else old(Contents())
      ensures out == if old(inn) > old(out) then old(out) + 1 else old(out)
      ensures old(Contents()) != [] ==> (Contents() == old(Contents())[1..] <==> old(inn) >= old(out))
    {
      hide Pow2;
      Behind(inn, out);
      hide Ring, Sub32, Add32, Slot;
      if inn > out {
        RingDrop(buffer[..], out % size, Len(), 1);
        SlotAdvance(out, 1, k);
        out := Add32(out, 1);
      }
    }
  }

  // A history that brings in round past out: as many single bytes in and out as the counters go, and then two more in.
  // The byte that is popped now stays.
  method WrappedPop(a: byte, b: byte) returns (fifo: Kfifo, before: seq<byte>)
    ensures fifo.Valid() && fifo.inn < fifo.out && before == [a, b] && fifo.Contents() == before
  {
    fifo := new Kfifo(2, 1);
    var i: nat := 0;
    while i < WORD - 1
      invariant i <= WORD - 1 && fresh(fifo) && fresh(fifo.buffer) && fifo.size == 2
      invariant fifo.Valid() && fifo.inn == fifo.out == i && fifo.Contents() == []
    {
      var n := fifo.Put([a], 1);
      var data, m := fifo.Get(1);
      i := i + 1;
    }
    var n := fifo.Put([a, b], 2);
    var m;
    before, m := fifo.GetAhead(2);
    fifo.Pop();
  }

  lemma RingPrefix(buf: seq<byte>, o: nat, len: nat, r: nat)
    requires o < |buf| && r <= len <= |buf|
    ensures Ring(buf, o, r) == Ring(buf, o, len)[..r]
  {}

  // size - in + out in 32 bits is the free space.
  lemma FreeSpace(size: nat, inn: nat, out: nat)
    requires size < WORD && inn < WORD && out < WORD && Sub32(inn, out) <= size
    ensures Add32(Sub32(size, inn), out) == size - Sub32(inn, out)
  {}

  lemma Advance(inn: nat, out: nat, r: nat)
    requires inn < WORD && out < WORD && Sub32(inn, out) + r < WORD
    ensures Sub32(Add32(inn, r), out) == Sub32(inn, out) + r
  {}

  // The counters when in has not wrapped past out.
  lemma Behind(inn: nat, out: nat)
    requires inn < WORD && out < WORD
    ensures Sub32(inn, out) == 0 <==> inn == out
    ensures inn > out ==> Add32(out, 1) == out + 1 && Sub32(inn, out + 1) == Sub32(inn, out) - 1
  {}

  lemma Retreat(inn: nat, out: nat, r: nat)
    requires inn < WORD && out < WORD && r <= Sub32(inn, out)
    ensures Sub32(inn, Add32(out, r)) == Sub32(inn, out) - r
  {}
}

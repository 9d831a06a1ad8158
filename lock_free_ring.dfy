/** The single-producer/single-consumer ring buffer `LockFreeRing<T, N>`, with
    the concurrency removed: each call is one step of a sequential history.
    Storage is a fixed array of N slots (N a power of two), `head` counts writes
    and `tail` counts reads, both as 32-bit counters that wrap at 2^32; the slot
    of a counter is `counter & (N - 1)` and the occupancy is `head - tail`
    computed modulo 2^32. One slot is kept free, so the capacity is N - 1. */
module SpscRing {
  import opened Bits
  import opened Wrappers

  /** `isPowerOf2`: `number != 0 && (number & (number - 1)) == 0` on `uint32_t`. */
  function IsPowerOf2(number: u32): (r: bool)
    ensures r <==> IsPow2(number)
  {
    PowerOfTwoBitTest(number);
    number != 0 && BitAnd(number, Sub32(number, 1)) == 0
  }

  /** `alignTo`: `(number + (align - 1)) & ~(align - 1)` on `size_t`. */
  function AlignTo(number: u64, align: u64): (r: u64)
    ensures r <= Add64(number, Sub64(align, 1))
  {
    var y := Add64(number, Sub64(align, 1));
    var mask := BitNot64(Sub64(align, 1));
    BitAndBounded(y, mask);
    BitAnd(y, mask)
  }

  /** For a power-of-two alignment and no overflow, `alignTo` rounds up to the
      least multiple of `align` that is at least `number`. */
  lemma AlignToIsLeastMultiple(number: u64, align: u64)
    requires IsPow2(align) && number + align - 1 < WORD64
    ensures AlignTo(number, align) % align == 0
    ensures number <= AlignTo(number, align) < number + align
  {
    var k := Log2Below64(align);
    var y := number + align - 1;
    assert Add64(number, Sub64(align, 1)) == y;
    Pow2Of64();
    assert BitNot64(Sub64(align, 1)) == Pow2(64) - Pow2(k);
    ClearLowBits(y, k, 64);
    RoundDown(y, align);
  }

  /** The exponent of a power of two below 2^64. */
  lemma Log2Below64(n: nat) returns (k: nat)
    requires IsPow2(n) && n < WORD64
    ensures Pow2(k) == n && k < 64 && Pow2(k) <= Pow2(64)
  {
    k :| Pow2(k) == n;
    Pow2Of64();
    if k >= 64 {
      if k > 64 { Pow2Monotone(64, k); }
      assert false;
    }
    Pow2Monotone(k, 64);
  }

  /** `y - y % d` is the greatest multiple of d not above y. */
  lemma RoundDown(y: nat, d: nat)
    requires d > 0
    ensures (y - y % d) % d == 0 && y - d < y - y % d <= y
  {
    ModUnique(y - y % d, d, y / d, 0);
  }

  /** `capacity + tail - head` on `uint32_t` (the two-argument `freeSpace`). */
  function FreeSpaceOf(capacity: u32, head: u32, tail: u32): (r: u32)
    ensures Add32(head, r) == Add32(capacity, tail)
  {
    Sub32(Add32(capacity, tail), head)
  }

  /** `head - tail` on `uint32_t` (the two-argument `size`). */
  function SizeOf(head: u32, tail: u32): (r: u32)
    ensures Add32(tail, r) == head
  {
    Sub32(head, tail)
  }

  /** Whatever the counters, size and free space add up to the capacity modulo
      2^32, and exactly whenever the occupancy does not exceed the capacity:
      this holds across the wrap of either counter. */
  lemma SizePlusFreeSpace(capacity: u32, head: u32, tail: u32)
    ensures Add32(SizeOf(head, tail), FreeSpaceOf(capacity, head, tail)) == capacity
    ensures SizeOf(head, tail) <= capacity ==>
              SizeOf(head, tail) + FreeSpaceOf(capacity, head, tail) == capacity
  {
  }

  /** Subtracting 2^32 from a counter position does not move its slot. */
  lemma UnwrapResidue(x: int, n: nat)
    requires IsPow2(n) && n < WORD32
    ensures (x - WORD32) % n == x % n
  {
    ModUnique(x - WORD32, WORD32, x / WORD32 - 1, x % WORD32);
    WrapKeepsResidue(x, n);
    WrapKeepsResidue(x - WORD32, n);
  }

  /** The slot `counter & (N - 1)` of a counter: for a power of two N it is
      the counter modulo N. */
  function Slot(counter: u32, n: u32): (r: nat)
    requires IsPow2(n)
    ensures r == counter % n
  {
    var k: nat :| Pow2(k) == n;
    MaskIsMod(counter, k);
    BitAnd(counter, n - 1)
  }

  /** If the occupancy is s, then head names the slot s places past tail. */
  lemma HeadSlot(head: u32, tail: u32, s: nat, n: nat)
    requires IsPow2(n) && n < WORD32 && Sub32(head, tail) == s
    ensures head % n == (tail + s) % n
  {
    if head < tail {
      UnwrapResidue(tail + s, n);
    }
  }

  class LockFreeRing<T(0)> {
    /** N, the number of slots. */
    const n: u32
    /** `_ring`, allocated once by the constructor. */
    const ring: array<T>
    /** `_head`: the number of writes so far, modulo 2^32. */
    var head: u32
    /** `_tail`: the number of reads so far, modulo 2^32. */
    var tail: u32

    /** The items in the ring, oldest first. */
    ghost var Contents: seq<T>
    /** Every item ever enqueued, and every item ever dequeued, in order. */
    ghost var Enqueued: seq<T>
    ghost var Dequeued: seq<T>

    ghost predicate Valid()
      reads this, ring
    {
      && IsPow2(n)
      && ring.Length == n
      && |Contents| == Sub32(head, tail)
      && |Contents| <= n - 1
      && (forall i :: 0 <= i < |Contents| ==> Contents[i] == ring[(tail + i) % n])
      && Dequeued + Contents == Enqueued
    }

    /** `capacity`, that is `size_mask == N - 1`. */
    function Capacity(): (r: u32)
      ensures r + 1 == n as int || (n == 0 && r == WORD32 - 1)
    {
      Sub32(n, 1)
    }

    /** A non-power-of-two N is refused (the `static_assert`); the counters
        start at 0 and the ring is empty. */
    constructor (size: u32)
      requires IsPowerOf2(size)
      ensures Valid() && fresh(ring)
      ensures n == size && head == 0 && tail == 0
      ensures Contents == [] && Enqueued == [] && Dequeued == []
    {
      n := size;
      ring := new T[size];
      head, tail := 0, 0;
      Contents, Enqueued, Dequeued := [], [], [];
    }

    /** `size()`: the occupancy `head - tail`. */
    function Size(): (r: u32)
      reads this, ring
      requires Valid()
      ensures r as int == |Contents|
    {
      SizeOf(head, tail)
    }

    /** `freeSpace()`: `capacity + tail - head`. */
    function FreeSpace(): (r: u32)
      reads this, ring
      requires Valid()
      ensures r as int == n - 1 - |Contents|
      ensures r + Size() == n - 1
    {
      SizePlusFreeSpace(Capacity(), head, tail);
      FreeSpaceOf(Capacity(), head, tail)
    }

    /** `enqueue`: when there is no free slot, return false and change nothing;
        otherwise write slot `head & (N - 1)`, advance head by one modulo 2^32
        and return true. */
    method Enqueue(item: T) returns (ok: bool)
      requires Valid()
      modifies this, ring
      ensures Valid()
      ensures ok <==> old(|Contents|) < n - 1
      ensures tail == old(tail) && Dequeued == old(Dequeued)
      ensures ok ==> && head == Add32(old(head), 1)
                     && ring[Slot(old(head), n)] == item
                     && (forall j :: 0 <= j < n && j != Slot(old(head), n) ==> ring[j] == old(ring[j]))
                     && Contents == old(Contents) + [item]
                     && Enqueued == old(Enqueued) + [item]
      ensures !ok ==> && head == old(head) && ring[..] == old(ring[..])
                      && Contents == old(Contents) && Enqueued == old(Enqueued)
    {
      var h := head;
      SizePlusFreeSpace(Capacity(), h, tail);
      if FreeSpaceOf(Capacity(), h, tail) < 1 {
        return false;
      }
      var slot := Slot(h, n);
      HeadSlot(h, tail, |Contents|, n);
      forall i | 0 <= i < |Contents|
        ensures Contents[i] == ring[(tail + i) % n] && (tail + i) % n != slot
      {
        DistinctResidues(tail, i, |Contents|, n);
      }
      ring[slot] := item;
      head := Add32(h, 1);
      Contents := Contents + [item];
      Enqueued := Enqueued + [item];
      ok := true;
    }

    /** `dequeue`: on an empty ring return none and change nothing; otherwise
        read slot `tail & (N - 1)`, advance tail by one modulo 2^32 and return
        the item read. */
    method Dequeue() returns (r: Option<T>)
      requires Valid()
      modifies this
      ensures Valid()
      ensures r.None? <==> old(Contents) == []
      ensures head == old(head) && Enqueued == old(Enqueued)
      ensures r.Some? ==> && r.value == old(Contents)[0]
                          && r.value == ring[Slot(old(tail), n)]
                          && tail == Add32(old(tail), 1)
                          && Contents == old(Contents)[1..]
                          && Dequeued == old(Dequeued) + [r.value]
      ensures r.None? ==> tail == old(tail) && Contents == old(Contents) && Dequeued == old(Dequeued)
    {
      var t := tail;
      if SizeOf(head, t) < 1 {
        return None;
      }
      var item := ring[Slot(t, n)];
      assert item == Contents[0];
      var t' := Add32(t, 1);
      forall i | 0 <= i < |Contents[1..]|
        ensures Contents[1..][i] == ring[(t' + i) % n]
      {
        if t + 1 == WORD32 {
          UnwrapResidue(t + 1 + i, n);
        }
      }
      tail := t';
      Contents := Contents[1..];
      Dequeued := Dequeued + [item];
      r := Some(item);
    }
  }

  /** Starting from an empty ring of any power-of-two size N, enqueuing until the
      ring refuses accepts exactly N - 1 items, and the refused one changed nothing. */
  method FillFromEmpty(size: u32) returns (accepted: nat, lastRefused: bool)
    requires IsPowerOf2(size)
    ensures accepted == size - 1
    ensures lastRefused
  {
    var q := new LockFreeRing<int>(size);
    accepted := 0;
    var ok := q.Enqueue(0);
    while ok
      invariant q.Valid() && q.n == size
      invariant ok ==> |q.Contents| == accepted + 1 <= size - 1
      invariant !ok ==> |q.Contents| == accepted == size - 1
      decreases size - 1 - accepted
    {
      accepted := accepted + 1;
      ok := q.Enqueue(accepted);
    }
    lastRefused := !ok;
  }

  /** The boundary case of a ring with 8 slots: seven enqueues are accepted,
      the eighth is refused, seven dequeues give back 0..6 in order, and the
      next dequeue finds the ring empty. */
  method EightSlotBoundary() returns (accepted: nat, eighth: bool, drained: seq<int>, after: Option<int>)
    ensures accepted == 7 && !eighth
    ensures drained == [0, 1, 2, 3, 4, 5, 6]
    ensures after == None
  {
    SixSlotsRefused();
    var q := new LockFreeRing<int>(8);
    accepted := EnqueueCounting(q, 7);
    eighth := q.Enqueue(7);
    drained := DequeueAll(q);
    after := q.Dequeue();
  }

  /** Enqueuing 0, 1, ..., m - 1 into an empty ring with room for them. */
  method EnqueueCounting(q: LockFreeRing<int>, m: nat) returns (accepted: nat)
    requires q.Valid() && q.Contents == [] && m <= q.n - 1
    modifies q, q.ring
    ensures q.Valid()
    ensures accepted == m
    ensures q.Contents == seq(m, j => j)
  {
    accepted := 0;
    var k := 0;
    while k < m
      invariant q.Valid() && k <= m && accepted == k
      invariant q.Contents == seq(k, j => j)
    {
      var ok := q.Enqueue(k);
      if ok {
        accepted := accepted + 1;
      }
      k := k + 1;
    }
  }

  /** Dequeuing until the ring is empty gives back its contents in order. */
  method DequeueAll<T(0)>(q: LockFreeRing<T>) returns (drained: seq<T>)
    requires q.Valid()
    modifies q
    ensures q.Valid() && q.Contents == []
    ensures drained == old(q.Contents)
  {
    drained := [];
    while q.Size() > 0
      invariant q.Valid()
      invariant drained + q.Contents == old(q.Contents)
      decreases |q.Contents|
    {
      var r := q.Dequeue();
      drained := drained + [r.value];
    }
  }

  /** The FIFO case: after enqueuing 42 and then 11, dequeues return 42, then
      11, then nothing. */
  method FifoOrder() returns (first: Option<int>, second: Option<int>, third: Option<int>)
    ensures first == Some(42) && second == Some(11) && third == None
  {
    assert Pow2(7) == 128;
    var q := new LockFreeRing<int>(128);
    var ok := q.Enqueue(42);
    ok := q.Enqueue(11);
    first := q.Dequeue();
    second := q.Dequeue();
    third := q.Dequeue();
  }

  /** Sizes that are not powers of two, such as 6, are refused at construction. */
  lemma SixSlotsRefused()
    ensures !IsPowerOf2(6) && IsPowerOf2(8)
  {
    assert Pow2(3) == 8;
  }
}

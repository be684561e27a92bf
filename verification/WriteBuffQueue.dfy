/**
 The outgoing buffer queue: a ring allocator with a heap fallback that has to
 behave like a plain first-in first-out queue of byte blocks.

 A pointer into the fixed buffer is `Ring(at)`; a pointer to a block obtained
 with `new[]` is `Heap(block)`, a key of the map `heap`, so that a block that
 has been deleted is a key that is no longer there.
 */
module WriteBuffQueues {
  import opened Common

  datatype Place = Ring(at: nat) | Heap(block: nat)

  datatype BufferState = Allocated | Pending | Writing

  datatype Buffer = Buffer(place: Place, length: nat, capacity: nat, state: BufferState)

  datatype DynBuffer = DynBuffer(block: nat, length: nat)

  // The largest length whose rounded-up size still fits in 32 bits.
  const MAX_LENGTH: nat := 0xFFFF_FF00

  // The value `~0` of an unsigned 32-bit integer.
  const ALL: nat := 0xFFFF_FFFF

  /* Ring geometry. Positions are unrolled over two laps that start at the
     first used byte, so that "behind the wrap" becomes "later". */

  function Unroll(p: nat, used: nat, size: nat): nat {
    if p >= used then p else p + size
  }

  ghost predicate Inside(b: Buffer, used: nat, free: nat, size: nat) {
    b.place.Ring? ==>
      && 0 < b.length
      && b.place.at + b.length <= size
      && Unroll(b.place.at, used, size) + b.length <= Unroll(free, used, size)
  }

  ghost predicate Before(b: Buffer, c: Buffer, used: nat, size: nat) {
    b.place.Ring? && c.place.Ring? ==>
      Unroll(b.place.at, used, size) + b.length <= Unroll(c.place.at, used, size)
  }

  // The live ring regions lie inside the ring, in queue order, as one run or as
  // a tail run followed by a head run.
  ghost predicate Laid(out: seq<Buffer>, used: nat, free: nat, size: nat) {
    && used < size
    && free < size
    && (forall i :: 0 <= i < |out| ==> Inside(out[i], used, free, size))
    && (forall i, j :: 0 <= i < j < |out| ==> Before(out[i], out[j], used, size))
  }

  // No byte of the ring belongs to both buffers.
  ghost predicate Apart(b: Buffer, c: Buffer) {
    b.place.Ring? && c.place.Ring? ==>
      b.place.at + b.length <= c.place.at || c.place.at + c.length <= b.place.at
  }

  lemma LaidApart(out: seq<Buffer>, used: nat, free: nat, size: nat)
    requires Laid(out, used, free, size)
    ensures forall i, j :: 0 <= i < j < |out| ==> Apart(out[i], out[j])
    ensures free == used ==> forall i :: 0 <= i < |out| ==> out[i].place.Heap?
  {
  }

  // GetContinousFreeFIFOLength: the free bytes from the first free byte on, and
  // the free bytes at the start of the ring. One guard byte stays unused, so
  // that a full ring is never mistaken for an empty one.
  function FreeLengths(used: nat, free: nat, size: nat): (r: (nat, nat))
    requires used < size && free < size
    ensures free + r.0 <= size && Unroll(free, used, size) + r.0 < used + size
    ensures r.1 > 0 ==> used <= free && r.1 < used
  {
    if free >= used then
      (if used != 0 then size - free else size - free - 1,
       if used > 0 then used - 1 else 0)
    else
      (used - free - 1, 0)
  }

  // Where the next n bytes go in the ring: behind the last live byte, or at the
  // start of the ring with the tail left unused.
  function RingSpot(used: nat, free: nat, size: nat, n: nat): (r: Option<nat>)
    requires used < size && free < size
    ensures r.Some? ==> r.value + n <= size && (r.value == free || (r.value == 0 && used <= free && n < used))
  {
    if n >= size then None
    else
      var (fromBegin, fromStart) := FreeLengths(used, free, size);
      if n <= fromBegin then Some(free)
      else if n <= fromStart then Some(0)
      else None
  }

  // The first free byte behind a region that ends at `end`.
  function Wrap(end: nat, size: nat): nat
    requires end <= size
  {
    if end == size then 0 else end
  }

  // The byte at p lies between the first used and the first free byte.
  predicate Live(p: nat, used: nat, free: nat, size: nat) {
    Unroll(p, used, size) < Unroll(free, used, size)
  }

  // The ring can take n bytes at `at`: they lie in it, none of them is live, and
  // behind the first of them the first used byte is not reached, so that one
  // byte in front of it stays free.
  predicate Room(at: nat, used: nat, free: nat, size: nat, n: nat) {
    && at + n <= size
    && (forall p :: at <= p < at + n ==> !Live(p, used, free, size))
    && (forall p :: at < p <= at + n ==> Wrap(p, size) != used)
  }

  // The ring is used whenever it can be: behind the last live byte if there is
  // room, or else at its start, and not at all only if there is no room anywhere.
  lemma SpotIsComplete(used: nat, free: nat, size: nat, n: nat)
    requires used < size && free < size && 0 < n
    ensures RingSpot(used, free, size, n) ==
            if Room(free, used, free, size, n) then Some(free)
            else if Room(0, used, free, size, n) then Some(0)
            else None
    ensures RingSpot(used, free, size, n).None? <==> forall at :: !Room(at, used, free, size, n)
  {
    FreeIsRoom(used, free, size, n);
    if !Room(free, used, free, size, n) {
      StartIsRoom(used, free, size, n);
    }
    forall at | Room(at, used, free, size, n)
      ensures Room(free, used, free, size, n) || Room(0, used, free, size, n)
    {
      RoomIsFirst(at, used, free, size, n);
    }
  }

  lemma FreeIsRoom(used: nat, free: nat, size: nat, n: nat)
    requires used < size && free < size && 0 < n
    ensures Room(free, used, free, size, n) <==> n < size && n <= FreeLengths(used, free, size).0
  {
    if free + n <= size && Unroll(free, used, size) + n >= used + size {
      var p := if used <= free then size else used;
      assert Wrap(p, size) == used;
    }
  }

  lemma StartIsRoom(used: nat, free: nat, size: nat, n: nat)
    requires used < size && free < size && 0 < n && !Room(free, used, free, size, n)
    ensures Room(0, used, free, size, n) <==> n < size && n <= FreeLengths(used, free, size).1
  {
    if Room(0, used, free, size, n) {
      assert !Live(0, used, free, size);
      assert n >= used > 0 ==> Wrap(used, size) == used;
    }
  }

  lemma RoomIsFirst(at: nat, used: nat, free: nat, size: nat, n: nat)
    requires used < size && free < size && 0 < n && Room(at, used, free, size, n)
    ensures Room(free, used, free, size, n) || Room(0, used, free, size, n)
  {
    assert !Live(at, used, free, size);
    assert at < used <= at + n ==> Wrap(used, size) == used;
  }

  // With live bytes, only the byte behind the n bytes matters.
  lemma RoomIsGuarded(at: nat, used: nat, free: nat, size: nat, n: nat)
    requires used < size && free < size && 0 < n && used != free
    ensures Room(at, used, free, size, n) <==>
            && at + n <= size
            && (forall p :: at <= p < at + n ==> !Live(p, used, free, size))
            && Wrap(at + n, size) != used
  {
    assert Live(used, used, free, size);
    assert at + n <= size ==> forall p :: at < p < at + n ==> Wrap(p, size) == p;
  }

  // Without live bytes, the ring is still taken as split at its positions: two
  // lengths that do not fit together are not joined.
  lemma EmptyRingIsSplit(p: nat, size: nat, n: nat)
    requires p < size && 0 < n
    ensures RingSpot(p, p, size, n).Some? <==> (if p == 0 then n < size else n <= size - p || n < p)
  {
  }

  lemma SpotKeepsLaid(out: seq<Buffer>, used: nat, free: nat, size: nat, n: nat)
    requires Laid(out, used, free, size)
    requires 0 < n && RingSpot(used, free, size, n).Some?
    ensures var at := RingSpot(used, free, size, n).value;
            var free' := Wrap(at + n, size);
            && Laid(out, used, free', size)
            && (forall b: Buffer :: b.place == Ring(at) && b.length == n ==>
                  && Inside(b, used, free', size)
                  && (forall i :: 0 <= i < |out| ==> Before(out[i], b, used, size)))
            && free' != used
  {
  }

  lemma LaidPush(out: seq<Buffer>, used: nat, free: nat, size: nat, b: Buffer)
    requires Laid(out, used, free, size)
    requires Inside(b, used, free, size)
    requires forall i :: 0 <= i < |out| ==> Before(out[i], b, used, size)
    ensures Laid(out + [b], used, free, size)
  {
  }

  lemma LaidBounds(out: seq<Buffer>, used: nat, free: nat, size: nat)
    requires Laid(out, used, free, size)
    ensures forall i :: 0 <= i < |out| && out[i].place.Ring? ==> 0 < out[i].length && out[i].place.at + out[i].length <= size
  {
  }

  lemma LaidClose(out: seq<Buffer>, used: nat, free: nat, size: nat, b: Buffer)
    requires Laid(out, used, free, size) && |out| > 0
    requires b.place == out[|out| - 1].place && (b.place.Heap? || b.length == out[|out| - 1].length)
    ensures Laid(out[|out| - 1 := b], used, free, size)
  {
  }

  lemma LaidDropBack(out: seq<Buffer>, used: nat, free: nat, size: nat)
    requires Laid(out, used, free, size) && |out| > 0
    ensures Laid(out[..|out| - 1], used, free, size)
  {
  }

  // Growing the last region over the bytes right behind it.
  lemma GrowKeepsLaid(out: seq<Buffer>, used: nat, free: nat, size: nat, n: nat)
    requires Laid(out, used, free, size) && 0 < n
    requires |out| > 0 && out[|out| - 1].place.Ring?
    requires forall b: Buffer :: b.place == Ring(out[|out| - 1].place.at + out[|out| - 1].length) && b.length == n ==>
               && Inside(b, used, free, size)
               && (forall i :: 0 <= i < |out| ==> Before(out[i], b, used, size))
    ensures var last := out[|out| - 1];
            Laid(out[|out| - 1 := last.(length := last.length + n, state := Allocated)], used, free, size)
  {
    var k := |out| - 1;
    var last := out[k];
    var b := Buffer(Ring(last.place.at + last.length), n, n, Allocated);
    assert Inside(b, used, free, size) && Before(last, b, used, size) && Inside(last, used, free, size);
    var out' := out[k := last.(length := last.length + n, state := Allocated)];
    assert Inside(out'[k], used, free, size);
    forall i, j | 0 <= i < j < |out'|
      ensures Before(out'[i], out'[j], used, size)
    {
      assert Before(out[i], out[j], used, size);
    }
  }

  // Releasing the front region moves the start of the used part behind it.
  lemma ReleaseKeepsLaid(out: seq<Buffer>, used: nat, free: nat, size: nat)
    requires Laid(out, used, free, size)
    requires |out| > 0 && out[0].place.Ring?
    ensures var used' := Wrap(out[0].place.at + out[0].length, size);
            && Laid(out[1..], used', free, size)
            && (used' == free ==> Laid(out[1..], 0, 0, size) && forall i :: 1 <= i < |out| ==> out[i].place.Heap?)
  {
    var rest := out[1..];
    var used' := Wrap(out[0].place.at + out[0].length, size);
    assert Inside(out[0], used, free, size);
    forall i | 0 <= i < |rest|
      ensures Inside(rest[i], used', free, size)
      ensures used' == free ==> rest[i].place.Heap?
    {
      assert rest[i] == out[i + 1];
      assert Inside(out[i + 1], used, free, size) && Before(out[0], out[i + 1], used, size);
    }
    forall i, j | 0 <= i < j < |rest|
      ensures Before(rest[i], rest[j], used', size)
    {
      assert rest[i] == out[i + 1] && rest[j] == out[j + 1];
      assert Inside(out[i + 1], used, free, size) && Before(out[0], out[i + 1], used, size);
      assert Inside(out[j + 1], used, free, size) && Before(out[0], out[j + 1], used, size);
      assert Before(out[i + 1], out[j + 1], used, size);
    }
    assert used' == free ==> forall i :: 1 <= i < |out| ==> out[i] == rest[i - 1];
  }

  // Giving back the end of the last region moves the first free byte back,
  // across the wrap point if the region ended there.
  lemma ShrinkKeepsLaid(out: seq<Buffer>, used: nat, free: nat, size: nat, shrink: nat)
    requires Laid(out, used, free, size)
    requires |out| > 0 && out[|out| - 1].place.Ring?
    requires 0 < shrink <= out[|out| - 1].length
    requires free == Wrap(out[|out| - 1].place.at + out[|out| - 1].length, size)
    ensures var last := out[|out| - 1];
            var free' := if free != 0 then free - shrink else size - shrink;
            && free' == last.place.at + last.length - shrink
            && Laid(out[..|out| - 1], used, free', size)
            && (shrink < last.length ==>
                  Laid(out[|out| - 1 := last.(length := last.length - shrink, state := Pending)], used, free', size))
  {
  }

  /* Heap ownership. */

  ghost function Blocks(out: seq<Buffer>): set<nat> {
    set i | 0 <= i < |out| && out[i].place.Heap? :: out[i].place.block
  }

  ghost function FreeBlocks(free: seq<DynBuffer>): set<nat> {
    set k | 0 <= k < |free| :: free[k].block
  }

  ghost predicate QueueBlocks<T>(heap: map<nat, seq<T>>, out: seq<Buffer>) {
    && (forall i :: 0 <= i < |out| && out[i].place.Heap? ==>
          && out[i].place.block in heap
          && 0 < out[i].length <= out[i].capacity == |heap[out[i].place.block]|)
    && (forall i, j :: 0 <= i < j < |out| && out[i].place.Heap? ==> out[i].place != out[j].place)
  }

  ghost predicate SpareBlocks<T>(heap: map<nat, seq<T>>, free: seq<DynBuffer>) {
    && (forall k :: 0 <= k < |free| ==> free[k].block in heap && free[k].length == |heap[free[k].block]|)
    && (forall k, l :: 0 <= k < l < |free| ==> free[k].block != free[l].block)
  }

  // Every block that was created and not deleted is owned exactly once, by one
  // entry of the out queue or by one entry of the free list.
  ghost predicate Owned<T>(heap: map<nat, seq<T>>, next: nat, out: seq<Buffer>, free: seq<DynBuffer>) {
    && QueueBlocks(heap, out)
    && SpareBlocks(heap, free)
    && Blocks(out) !! FreeBlocks(free)
    && heap.Keys == Blocks(out) + FreeBlocks(free)
    && (forall b :: b in heap ==> b < next && |heap[b]| <= MAX_LENGTH)
  }

  lemma OwnedBounds<T>(heap: map<nat, seq<T>>, next: nat, out: seq<Buffer>, free: seq<DynBuffer>)
    requires Owned(heap, next, out, free)
    ensures next !in heap
    ensures forall k :: 0 <= k < |free| ==> free[k].block in heap && free[k].length == |heap[free[k].block]| <= MAX_LENGTH
    ensures forall i :: 0 <= i < |out| && out[i].place.Heap? ==>
              && out[i].place.block in heap
              && 0 < out[i].length <= out[i].capacity == |heap[out[i].place.block]|
  {
  }

  lemma BlocksSnoc(out: seq<Buffer>, b: Buffer)
    ensures Blocks(out + [b]) == Blocks(out) + (if b.place.Heap? then {b.place.block} else {})
  {
    var all := out + [b];
    assert forall i :: 0 <= i < |out| ==> all[i] == out[i];
    assert all[|out|] == b;
  }

  lemma FreeBlocksSnoc(free: seq<DynBuffer>, d: DynBuffer)
    ensures FreeBlocks(free + [d]) == FreeBlocks(free) + {d.block}
  {
    var all := free + [d];
    assert forall k :: 0 <= k < |free| ==> all[k] == free[k];
    assert all[|free|] == d;
  }

  lemma SpareErase<T>(heap: map<nat, seq<T>>, free: seq<DynBuffer>, k: nat)
    requires SpareBlocks(heap, free) && k < |free|
    ensures SpareBlocks(heap, free[..k] + free[k + 1..])
    ensures FreeBlocks(free[..k] + free[k + 1..]) == FreeBlocks(free) - {free[k].block}
  {
    var rest := free[..k] + free[k + 1..];
    forall l | 0 <= l < |rest|
      ensures rest[l] == free[if l < k then l else l + 1]
    {
    }
    forall i | 0 <= i < |free| && i != k
      ensures free[i].block in FreeBlocks(rest) && free[i].block != free[k].block
    {
      assert rest[if i < k then i else i - 1] == free[i];
    }
  }

  lemma SparePush<T>(heap: map<nat, seq<T>>, free: seq<DynBuffer>, block: nat)
    requires SpareBlocks(heap, free) && block in heap && block !in FreeBlocks(free)
    ensures SpareBlocks(heap, free + [DynBuffer(block, |heap[block]|)])
    ensures FreeBlocks(free + [DynBuffer(block, |heap[block]|)]) == FreeBlocks(free) + {block}
  {
    FreeBlocksSnoc(free, DynBuffer(block, |heap[block]|));
    assert forall k :: 0 <= k < |free| ==> free[k].block in FreeBlocks(free);
  }

  lemma QueuePush<T>(heap: map<nat, seq<T>>, out: seq<Buffer>, b: Buffer)
    requires QueueBlocks(heap, out)
    requires b.place.Heap? ==>
               b.place.block in heap && b.place.block !in Blocks(out) && 0 < b.length <= b.capacity == |heap[b.place.block]|
    ensures QueueBlocks(heap, out + [b])
    ensures Blocks(out + [b]) == Blocks(out) + (if b.place.Heap? then {b.place.block} else {})
  {
    BlocksSnoc(out, b);
    assert forall i :: 0 <= i < |out| && out[i].place.Heap? ==> out[i].place.block in Blocks(out);
  }

  lemma QueueTail<T>(heap: map<nat, seq<T>>, out: seq<Buffer>)
    requires QueueBlocks(heap, out) && |out| > 0
    ensures QueueBlocks(heap, out[1..])
    ensures Blocks(out[1..]) == Blocks(out) - (if out[0].place.Heap? then {out[0].place.block} else {})
    ensures out[0].place.Heap? ==> out[0].place.block in Blocks(out)
  {
  }

  lemma QueueFront<T>(heap: map<nat, seq<T>>, out: seq<Buffer>)
    requires QueueBlocks(heap, out) && |out| > 0
    ensures var b := out[|out| - 1];
            && QueueBlocks(heap, out[..|out| - 1])
            && Blocks(out[..|out| - 1]) == Blocks(out) - (if b.place.Heap? then {b.place.block} else {})
            && (b.place.Heap? ==> b.place.block in Blocks(out))
  {
  }

  lemma OwnedPush<T>(heap: map<nat, seq<T>>, next: nat, out: seq<Buffer>, free: seq<DynBuffer>, b: Buffer)
    requires Owned(heap, next, out, free)
    requires b.place.Ring?
    ensures Owned(heap, next, out + [b], free)
  {
    QueuePush(heap, out, b);
  }

  lemma OwnedPushReused<T>(heap: map<nat, seq<T>>, next: nat, out: seq<Buffer>, free: seq<DynBuffer>, b: Buffer, k: nat)
    requires Owned(heap, next, out, free)
    requires k < |free| && b.place == Heap(free[k].block) && 0 < b.length <= b.capacity == free[k].length
    ensures Owned(heap, next, out + [b], free[..k] + free[k + 1..])
  {
    assert free[k].block in FreeBlocks(free);
    QueuePush(heap, out, b);
    SpareErase(heap, free, k);
  }

  lemma OwnedPushNew<T>(heap: map<nat, seq<T>>, next: nat, out: seq<Buffer>, free: seq<DynBuffer>, b: Buffer, mem: seq<T>)
    requires Owned(heap, next, out, free)
    requires b.place == Heap(next) && 0 < b.length <= b.capacity == |mem| <= MAX_LENGTH
    ensures Owned(heap[next := mem], next + 1, out + [b], free)
  {
    assert next !in heap;
    var heap' := heap[next := mem];
    assert QueueBlocks(heap', out);
    QueuePush(heap', out, b);
  }

  lemma OwnedUpdate<T>(heap: map<nat, seq<T>>, next: nat, out: seq<Buffer>, free: seq<DynBuffer>, i: nat, b: Buffer)
    requires Owned(heap, next, out, free)
    requires i < |out| && b.place == out[i].place && b.capacity == out[i].capacity
    requires b.place.Heap? ==> 0 < b.length <= b.capacity
    ensures Owned(heap, next, out[i := b], free)
  {
    var out' := out[i := b];
    assert forall j :: 0 <= j < |out| ==> out'[j].place == out[j].place;
    assert Blocks(out') == Blocks(out) by {
      forall j | 0 <= j < |out| && out[j].place.Heap?
        ensures out[j].place.block in Blocks(out')
      {
        assert out'[j].place == out[j].place;
      }
    }
  }

  // What is left of the free list entry for a buffer that leaves the queue.
  function Retire(free: seq<DynBuffer>, b: Buffer): seq<DynBuffer> {
    if b.place.Ring? then free else free + [DynBuffer(b.place.block, b.capacity)]
  }

  lemma OwnedDropBack<T>(heap: map<nat, seq<T>>, next: nat, out: seq<Buffer>, free: seq<DynBuffer>)
    requires Owned(heap, next, out, free)
    requires |out| > 0
    ensures Owned(heap, next, out[..|out| - 1], Retire(free, out[|out| - 1]))
  {
    var b := out[|out| - 1];
    QueueFront(heap, out);
    if b.place.Heap? {
      SparePush(heap, free, b.place.block);
    }
  }

  lemma OwnedDropFront<T>(heap: map<nat, seq<T>>, next: nat, out: seq<Buffer>, free: seq<DynBuffer>)
    requires Owned(heap, next, out, free)
    requires |out| > 0
    ensures Owned(heap, next, out[1..], Retire(free, out[0]))
  {
    QueueTail(heap, out);
    if out[0].place.Heap? {
      SparePush(heap, free, out[0].place.block);
    }
  }

  // The reuse loop of Allocate: the index of the first smallest free block of
  // at least n bytes, or the length of the list if there is none.
  method BestFit(free: seq<DynBuffer>, n: nat) returns (k: nat)
    requires forall i :: 0 <= i < |free| ==> free[i].length < ALL
    ensures k <= |free|
    ensures k == |free| <==> forall i :: 0 <= i < |free| ==> free[i].length < n
    ensures k < |free| ==> n <= free[k].length
    ensures k < |free| ==> forall i :: 0 <= i < |free| && n <= free[i].length ==> free[k].length <= free[i].length
    ensures k < |free| ==> forall i :: 0 <= i < k && n <= free[i].length ==> free[k].length < free[i].length
  {
    var closeLength := ALL;
    k := |free|;
    for i := 0 to |free|
      invariant k < i || (k == |free| && closeLength == ALL)
      invariant k == |free| ==> forall j :: 0 <= j < i ==> free[j].length < n
      invariant k < |free| ==> n <= free[k].length == closeLength
      invariant k < |free| ==> forall j :: 0 <= j < i && n <= free[j].length ==> closeLength <= free[j].length
      invariant k < |free| ==> forall j :: 0 <= j < k && n <= free[j].length ==> closeLength < free[j].length
    {
      var currLength := free[i].length;
      if currLength >= n && currLength < closeLength {
        k := i;
        closeLength := currLength;
      }
    }
  }

  lemma OwnedDelete<T>(heap: map<nat, seq<T>>, next: nat, out: seq<Buffer>, free: seq<DynBuffer>)
    requires Owned(heap, next, out, free) && |free| > 0
    ensures free[0].block in heap
    ensures Owned(heap - {free[0].block}, next, out, free[1..])
  {
    hide QueueBlocks, SpareBlocks, FreeBlocks, Blocks;
    var block := free[0].block;
    assert free[..0] + free[0 + 1..] == free[1..];
    SpareErase(heap, free, 0);
    FirstSpare(heap, free);
    SpareWithout(heap, free[1..], block);
    QueueWithout(heap, out, block);
  }

  lemma FirstSpare<T>(heap: map<nat, seq<T>>, free: seq<DynBuffer>)
    requires SpareBlocks(heap, free) && |free| > 0
    ensures free[0].block in heap && free[0].block in FreeBlocks(free)
  {
  }

  lemma SpareWithout<T>(heap: map<nat, seq<T>>, free: seq<DynBuffer>, block: nat)
    requires SpareBlocks(heap, free) && block !in FreeBlocks(free)
    ensures SpareBlocks(heap - {block}, free)
  {
    assert forall k :: 0 <= k < |free| ==> free[k].block in FreeBlocks(free);
  }

  lemma QueueWithout<T>(heap: map<nat, seq<T>>, out: seq<Buffer>, block: nat)
    requires QueueBlocks(heap, out) && block !in Blocks(out)
    ensures QueueBlocks(heap - {block}, out)
  {
    assert forall i :: 0 <= i < |out| && out[i].place.Heap? ==> out[i].place.block in Blocks(out);
  }

  lemma OwnedDeleteFront<T>(heap: map<nat, seq<T>>, next: nat, out: seq<Buffer>)
    requires Owned(heap, next, out, []) && |out| > 0
    ensures out[0].place.Heap? ==> out[0].place.block in heap
    ensures Owned(if out[0].place.Heap? then heap - {out[0].place.block} else heap, next, out[1..], [])
  {
    OwnedDropFront(heap, next, out, []);
    if out[0].place.Heap? {
      var d := DynBuffer(out[0].place.block, out[0].capacity);
      assert [] + [d] == [d] && [d][1..] == [];
      OwnedDelete(heap, next, out[1..], [d]);
    }
  }

  lemma OwnedNothing<T>(heap: map<nat, seq<T>>, next: nat)
    requires Owned(heap, next, [], [])
    ensures heap == map[]
  {
  }

  /* Life cycle: first the buffers being written, then those pending, and at the
     very end at most one that waits for Commit. */

  ghost predicate Phased(out: seq<Buffer>, firstPending: nat) {
    && firstPending <= |out|
    && (forall i :: 0 <= i < firstPending ==> out[i].state == Writing)
    && (forall i :: firstPending <= i < |out| ==>
          out[i].state == Pending || (i == |out| - 1 && out[i].state == Allocated))
  }

  lemma PhasedPush(out: seq<Buffer>, firstPending: nat, b: Buffer)
    requires Phased(out, firstPending) && b.state == Allocated
    requires |out| > 0 ==> out[|out| - 1].state != Allocated
    ensures Phased(out + [b], firstPending)
    ensures (out + [b])[..firstPending] == out[..firstPending]
  {
  }

  // The last buffer of the queue is reopened by a merge or closed by a commit.
  lemma PhasedLast(out: seq<Buffer>, firstPending: nat, b: Buffer)
    requires Phased(out, firstPending) && b.state != Writing
    requires |out| > 0 && out[|out| - 1].state != Writing
    ensures firstPending < |out|
    ensures Phased(out[|out| - 1 := b], firstPending)
    ensures out[|out| - 1 := b][..firstPending] == out[..firstPending]
    ensures Phased(out[..|out| - 1], firstPending)
    ensures out[..|out| - 1][..firstPending] == out[..firstPending]
    ensures |out| > 1 ==> out[|out| - 2].state != Allocated
  {
  }

  /* Contents. */

  ghost predicate Backed<T>(mem: seq<T>, heap: map<nat, seq<T>>, b: Buffer) {
    match b.place
    case Ring(at) => at + b.length <= |mem|
    case Heap(block) => block in heap && b.length <= |heap[block]|
  }

  function Bytes<T>(mem: seq<T>, heap: map<nat, seq<T>>, b: Buffer): (r: seq<T>)
    requires Backed(mem, heap, b)
    ensures |r| == b.length
  {
    match b.place
    case Ring(at) => mem[at..at + b.length]
    case Heap(block) => heap[block][..b.length]
  }

  // The number of committed bytes of the i-th buffer, when the last `open`
  // bytes of the queue still wait for Commit.
  function Done(out: seq<Buffer>, i: nat, open: nat): int
    requires i < |out|
  {
    out[i].length - if i == |out| - 1 then open else 0
  }

  // The first `done` bytes of a buffer are the concatenation of the blocks in `group`.
  ghost predicate Holds<T>(mem: seq<T>, heap: map<nat, seq<T>>, b: Buffer, done: int, group: seq<seq<T>>) {
    && Backed(mem, heap, b)
    && 0 <= done <= b.length
    && group != []
    && Flat(group) == Bytes(mem, heap, b)[..done]
  }

  // Each buffer holds exactly the concatenation of the blocks committed to it.
  ghost predicate Stored<T>(mem: seq<T>, heap: map<nat, seq<T>>, out: seq<Buffer>, open: nat, groups: seq<seq<seq<T>>>) {
    && |groups| <= |out|
    && (forall i :: 0 <= i < |out| ==> Backed(mem, heap, out[i]))
    && (forall i :: 0 <= i < |groups| ==> Holds(mem, heap, out[i], Done(out, i, open), groups[i]))
  }

  lemma StoredPush<T>(mem: seq<T>, heap: map<nat, seq<T>>, heap': map<nat, seq<T>>, out: seq<Buffer>,
                      groups: seq<seq<seq<T>>>, b: Buffer)
    requires Stored(mem, heap, out, 0, groups)
    requires forall k :: k in heap ==> k in heap' && heap'[k] == heap[k]
    requires Backed(mem, heap', b)
    ensures Stored(mem, heap', out + [b], b.length, groups)
  {
  }

  lemma StoredGrow<T>(mem: seq<T>, heap: map<nat, seq<T>>, out: seq<Buffer>, groups: seq<seq<seq<T>>>, b: Buffer)
    requires Stored(mem, heap, out, 0, groups)
    requires |out| > 0 && b.place.Ring? && b.place == out[|out| - 1].place
    requires b.length >= out[|out| - 1].length && Backed(mem, heap, b)
    ensures Stored(mem, heap, out[|out| - 1 := b], b.length - out[|out| - 1].length, groups)
  {
    var n := |out| - 1;
    var out', open := out[n := b], b.length - out[n].length;
    forall i | 0 <= i < |groups|
      ensures Holds(mem, heap, out'[i], Done(out', i, open), groups[i])
    {
      assert Holds(mem, heap, out[i], Done(out, i, 0), groups[i]);
      if i == n {
        assert Bytes(mem, heap, b)[..out[n].length] == Bytes(mem, heap, out[n]);
      }
    }
  }

  lemma HoldsFrame<T>(mem: seq<T>, mem': seq<T>, heap: map<nat, seq<T>>, b: Buffer, done: int, group: seq<seq<T>>, lo: int, hi: int)
    requires Holds(mem, heap, b, done, group) && |mem'| == |mem|
    requires forall p :: 0 <= p < |mem| && !(lo <= p < hi) ==> mem'[p] == mem[p]
    requires b.place.Ring? ==> b.place.at + done <= lo || hi <= b.place.at
    ensures Holds(mem', heap, b, done, group)
  {
  }

  // The caller's write into the open block leaves every committed byte alone.
  lemma StoredWriteRing<T>(mem: seq<T>, mem': seq<T>, heap: map<nat, seq<T>>, out: seq<Buffer>, open: nat,
                           groups: seq<seq<seq<T>>>, used: nat, free: nat)
    requires Stored(mem, heap, out, open, groups) && Laid(out, used, free, |mem|)
    requires |mem'| == |mem| && |out| > 0 && out[|out| - 1].place.Ring? && open <= out[|out| - 1].length
    requires var last := out[|out| - 1];
             forall p :: 0 <= p < |mem| && !(last.place.at + last.length - open <= p < last.place.at + last.length) ==>
                           mem'[p] == mem[p]
    ensures Stored(mem', heap, out, open, groups)
  {
    hide Laid, Holds;
    LaidApart(out, used, free, |mem|);
    var last := out[|out| - 1];
    forall i | 0 <= i < |groups|
      ensures Holds(mem', heap, out[i], Done(out, i, open), groups[i])
    {
      assert i < |out| - 1 ==> Apart(out[i], last);
      HoldsFrame(mem, mem', heap, out[i], Done(out, i, open), groups[i],
                 last.place.at + last.length - open, last.place.at + last.length);
    }
  }

  lemma StoredWriteHeap<T>(mem: seq<T>, heap: map<nat, seq<T>>, out: seq<Buffer>, open: nat,
                           groups: seq<seq<seq<T>>>, data: seq<T>)
    requires Stored(mem, heap, out, open, groups) && QueueBlocks(heap, out)
    requires |out| > 0 && out[|out| - 1].place.Heap? && open == out[|out| - 1].length
    requires |data| == |heap[out[|out| - 1].place.block]|
    ensures Stored(mem, heap[out[|out| - 1].place.block := data], out, open, groups)
  {
  }

  lemma OwnedWrite<T>(heap: map<nat, seq<T>>, next: nat, out: seq<Buffer>, free: seq<DynBuffer>, block: nat, data: seq<T>)
    requires Owned(heap, next, out, free) && block in heap && |data| == |heap[block]|
    ensures QueueBlocks(heap, out) && Owned(heap[block := data], next, out, free)
  {
  }

  lemma StoredTail<T>(mem: seq<T>, heap: map<nat, seq<T>>, out: seq<Buffer>, open: nat, groups: seq<seq<seq<T>>>)
    requires Stored(mem, heap, out, open, groups) && |groups| > 0
    ensures Stored(mem, heap, out[1..], open, groups[1..])
  {
  }

  lemma StoredDropBack<T>(mem: seq<T>, heap: map<nat, seq<T>>, out: seq<Buffer>, open: nat, groups: seq<seq<seq<T>>>)
    requires Stored(mem, heap, out, open, groups) && |groups| < |out|
    ensures Stored(mem, heap, out[..|out| - 1], 0, groups)
  {
  }

  // The committed groups after a commit of the bytes b, which form a new group
  // or extend the last one.
  function Enqueue<T>(groups: seq<seq<seq<T>>>, merge: bool, b: seq<T>): seq<seq<seq<T>>>
    requires merge ==> groups != []
  {
    if b == [] then groups
    else if merge then groups[|groups| - 1 := groups[|groups| - 1] + [b]]
    else groups + [[b]]
  }

  lemma EnqueueFlat<T>(groups: seq<seq<seq<T>>>, merge: bool, b: seq<T>)
    requires merge ==> groups != []
    ensures Flat(Enqueue(groups, merge, b)) == Flat(groups) + (if b == [] then [] else [b])
  {
  }

  lemma EnqueueLength<T>(groups: seq<seq<seq<T>>>, merge: bool, b: seq<T>)
    requires merge ==> groups != []
    ensures |Enqueue(groups, merge, b)| == |groups| + (if merge || b == [] then 0 else 1)
  {
  }

  lemma EnqueueNone<T>(groups: seq<seq<seq<T>>>, merge: bool, b: seq<T>)
    requires (merge ==> groups != []) && b == []
    ensures Enqueue(groups, merge, b) == groups
  {
  }

  // The open block is closed at `length` bytes of its buffer.
  lemma HoldsCommit<T>(mem: seq<T>, heap: map<nat, seq<T>>, last: Buffer, open: nat, group: seq<seq<T>>, b: Buffer)
    requires Backed(mem, heap, last) && b.place == last.place
    requires 0 <= last.length - open <= b.length <= last.length && 0 < b.length
    requires if open < last.length then Holds(mem, heap, last, last.length - open, group) else group == []
    ensures Backed(mem, heap, b)
    ensures var kept := Bytes(mem, heap, last)[last.length - open..b.length];
            Holds(mem, heap, b, b.length, if kept == [] then group else group + [kept])
  {
    var bytes := Bytes(mem, heap, last);
    var kept := bytes[last.length - open..b.length];
    assert Bytes(mem, heap, b) == bytes[..b.length];
    assert bytes[..b.length] == bytes[..last.length - open] + kept;
    FlatSnoc(group, kept);
  }

  lemma StoredCommit<T>(mem: seq<T>, heap: map<nat, seq<T>>, out: seq<Buffer>, open: nat, groups: seq<seq<seq<T>>>, b: Buffer)
    requires Stored(mem, heap, out, open, groups) && |out| > 0
    requires var last := out[|out| - 1];
             && b.place == last.place && 0 <= last.length - open <= b.length <= last.length && 0 < b.length
             && |groups| == |out| - (if open == last.length then 1 else 0)
    ensures var last := out[|out| - 1];
            var kept := Bytes(mem, heap, last)[last.length - open..b.length];
            Stored(mem, heap, out[|out| - 1 := b], 0, Enqueue(groups, open < last.length, kept))
  {
    hide Holds, Backed, Bytes;
    var n := |out| - 1;
    var last := out[n];
    var kept := Bytes(mem, heap, last)[last.length - open..b.length];
    assert [] + [kept] == [kept];
    var out', groups' := out[n := b], Enqueue(groups, open < last.length, kept);
    HoldsCommit(mem, heap, last, open, if open < last.length then groups[n] else [], b);
    forall i | 0 <= i < |groups'|
      ensures Holds(mem, heap, out'[i], Done(out', i, 0), groups'[i])
    {
      if i < n {
        assert Holds(mem, heap, out[i], Done(out, i, open), groups[i]);
      }
    }
  }

  /* The whole state as a value. */

  datatype State<T> = State(size: nat, mem: seq<T>, heap: map<nat, seq<T>>, next: nat, used: nat, free: nat,
                            lastAlloc: nat, out: seq<Buffer>, firstPending: nat, freeList: seq<DynBuffer>,
                            groups: seq<seq<seq<T>>>)
  {
    // A block is between Allocate and Commit.
    predicate Open() {
      |out| > 0 && out[|out| - 1].state == Allocated
    }

    function OpenLength(): nat {
      if Open() then lastAlloc else 0
    }

    // The open block was appended to a buffer with committed bytes.
    predicate Merging() {
      Open() && lastAlloc < out[|out| - 1].length
    }

    ghost predicate Good() {
      && |mem| == size
      && Laid(out, used, free, size)
      && Owned(heap, next, out, freeList)
      && Phased(out, firstPending)
      && (Open() ==> OpenBlock())
      && |groups| == |out| - (if Open() && !Merging() then 1 else 0)
      && Stored(mem, heap, out, OpenLength(), groups)
    }

    ghost predicate OpenBlock()
      requires Open()
    {
      var last := out[|out| - 1];
      && 0 < lastAlloc <= last.length
      && (last.place.Ring? ==> last.place.at + last.length <= size && free == Wrap(last.place.at + last.length, size))
      && (last.place.Heap? ==> lastAlloc == last.length)
    }

    // The bytes of the block between Allocate and Commit, if there is one.
    ghost function OpenBytes(): seq<T> {
      if Open() && Backed(mem, heap, out[|out| - 1]) && lastAlloc <= out[|out| - 1].length then
        Bytes(mem, heap, out[|out| - 1])[out[|out| - 1].length - lastAlloc..]
      else
        []
    }
  }

  // What the methods below need to know without looking into the invariant.
  lemma GoodFacts<T>(s: State<T>)
    requires s.Good()
    ensures s.used < s.size && s.free < s.size && |s.mem| == s.size
    ensures s.firstPending <= |s.groups| <= |s.out|
    ensures forall k :: 0 <= k < |s.freeList| ==>
              && s.freeList[k].block in s.heap
              && s.freeList[k].length == |s.heap[s.freeList[k].block]| <= MAX_LENGTH
    ensures s.next !in s.heap
  {
  }

  lemma OpenBacked<T>(s: State<T>)
    requires s.Good() && s.Open()
    ensures Backed(s.mem, s.heap, s.out[|s.out| - 1])
    ensures 0 < s.lastAlloc <= s.out[|s.out| - 1].length
    ensures s.out[|s.out| - 1].place.Heap? ==> !s.Merging()
    ensures |s.OpenBytes()| == s.lastAlloc
    ensures s.Merging() ==> s.groups != []
    ensures s.firstPending < |s.out|
  {
    hide Laid, Owned;
  }

  lemma GoodEmpty<T>(s: State<T>)
    requires |s.mem| == s.size > 0 && s.used == s.free == 0 && s.out == [] && s.groups == [] && s.firstPending == 0
    requires Owned(s.heap, s.next, [], s.freeList)
    ensures s.Good() && FreeBlocks(s.freeList) == s.heap.Keys
  {
  }

  // A merge extends a group that was not popped yet.
  lemma MergeAt<T>(s: State<T>)
    requires s.Good()
    ensures s.Merging() ==> s.firstPending < |s.groups|
  {
  }

  function MergedInto(b: Buffer, n: nat): Buffer {
    b.(length := b.length + n, state := Allocated)
  }

  // The new region can be appended to the last pending buffer.
  predicate CanMerge(out: seq<Buffer>, at: nat) {
    && |out| > 0
    && var last := out[|out| - 1];
    && last.state == Pending
    && last.place.Ring?
    && last.place.at + last.length == at
  }

  // A ring region of n bytes at `at`: the last buffer grows if it is pending and
  // ends there, otherwise there is a new one.
  ghost predicate InRing<T>(s: State<T>, s': State<T>, at: nat, n: nat) {
    && at + n <= s.size
    && var grows := s.out != [] && var b := s.out[|s.out| - 1]; b.state == Pending && b.place.Ring? && b.place.at + b.length == at;
    && s' == s.(lastAlloc := n, free := if at + n == s.size then 0 else at + n,
                out := if grows then var k := |s.out| - 1; s.out[k := s.out[k].(length := s.out[k].length + n, state := Allocated)]
                       else s.out + [Buffer(Ring(at), n, n, Allocated)])
  }

  // The k-th free block is taken, the first of the smallest that are large enough.
  ghost predicate Reuses<T>(s: State<T>, s': State<T>, k: nat, n: nat) {
    && k < |s.freeList| && n <= s.freeList[k].length
    && (forall i :: 0 <= i < |s.freeList| && n <= s.freeList[i].length ==>
          if i < k then s.freeList[k].length < s.freeList[i].length else s.freeList[k].length <= s.freeList[i].length)
    && s' == s.(lastAlloc := n, freeList := s.freeList[..k] + s.freeList[k + 1..],
                out := s.out + [Buffer(Heap(s.freeList[k].block), n, s.freeList[k].length, Allocated)])
  }

  // A heap block of at least n bytes: a free one if one is large enough, and a
  // new one only if none is.
  ghost predicate InHeap<T>(s: State<T>, s': State<T>, n: nat) {
    if forall k :: 0 <= k < |s.freeList| ==> s.freeList[k].length < n then
      && s.next in s'.heap
      && var size := |s'.heap[s.next]|;
      && n <= size < n + 256 && size % 256 == 0
      && s' == s.(lastAlloc := n, next := s.next + 1, heap := s.heap[s.next := s'.heap[s.next]],
                  out := s.out + [Buffer(Heap(s.next), n, size, Allocated)])
    else exists k :: Reuses(s, s', k, n)
  }

  lemma GoodMerge<T>(s: State<T>, at: nat, n: nat)
    requires s.Good() && !s.Open() && 0 < n
    requires s.used < s.size && s.free < s.size && RingSpot(s.used, s.free, s.size, n) == Some(at)
    requires CanMerge(s.out, at)
    ensures var k := |s.out| - 1;
            var s' := s.(lastAlloc := n, free := Wrap(at + n, s.size), out := s.out[k := MergedInto(s.out[k], n)]);
            s'.Good() && s'.Open() && s'.out[..s.firstPending] == s.out[..s.firstPending]
  {
    hide Phased, Laid, Owned, Stored, RingSpot, Inside, Before;
    SpotKeepsLaid(s.out, s.used, s.free, s.size, n);
    LaidBounds(s.out, s.used, s.free, s.size);
    var k, free' := |s.out| - 1, Wrap(at + n, s.size);
    var grown := MergedInto(s.out[k], n);
    PhasedLast(s.out, s.firstPending, grown);
    OwnedUpdate(s.heap, s.next, s.out, s.freeList, k, grown);
    GrowKeepsLaid(s.out, s.used, free', s.size, n);
    StoredGrow(s.mem, s.heap, s.out, s.groups, grown);
  }

  lemma GoodRingPush<T>(s: State<T>, at: nat, n: nat)
    requires s.Good() && !s.Open() && 0 < n
    requires s.used < s.size && s.free < s.size && RingSpot(s.used, s.free, s.size, n) == Some(at)
    ensures var b := Buffer(Ring(at), n, n, Allocated);
            var s' := s.(lastAlloc := n, free := Wrap(at + n, s.size), out := s.out + [b]);
            s'.Good() && s'.Open() && s'.out[..s.firstPending] == s.out[..s.firstPending]
  {
    hide Phased, Laid, Owned, Stored, RingSpot, Inside, Before;
    var b := Buffer(Ring(at), n, n, Allocated);
    SpotKeepsLaid(s.out, s.used, s.free, s.size, n);
    LaidPush(s.out, s.used, Wrap(at + n, s.size), s.size, b);
    PhasedPush(s.out, s.firstPending, b);
    OwnedPush(s.heap, s.next, s.out, s.freeList, b);
    StoredPush(s.mem, s.heap, s.heap, s.out, s.groups, b);
  }

  // The two ways of a ring allocation, as its callers see them.
  lemma MergedGood<T>(s: State<T>, at: nat, n: nat)
    requires s.Good() && !s.Open() && 0 < n && s.firstPending <= |s.out|
    requires s.used < s.size && s.free < s.size && RingSpot(s.used, s.free, s.size, n) == Some(at) && CanMerge(s.out, at)
    ensures var k := |s.out| - 1;
            var out := s.out[k := MergedInto(s.out[k], n)];
            var s' := s.(lastAlloc := n, free := Wrap(at + n, s.size), out := out);
            && s'.Good() && s'.Open() && out[..s.firstPending] == s.out[..s.firstPending]
            && out[k].place.Ring? && out[k].place.at + out[k].length - n == at
            && InRing(s, s', at, n)
  {
    hide State.Good, RingSpot;
    GoodMerge(s, at, n);
  }

  lemma PushedGood<T>(s: State<T>, at: nat, n: nat)
    requires s.Good() && !s.Open() && 0 < n && s.firstPending <= |s.out|
    requires s.used < s.size && s.free < s.size && RingSpot(s.used, s.free, s.size, n) == Some(at)
    ensures var s' := s.(lastAlloc := n, free := Wrap(at + n, s.size), out := s.out + [Buffer(Ring(at), n, n, Allocated)]);
            s'.Good() && s'.Open() && s'.out[..s.firstPending] == s.out[..s.firstPending]
            && (!CanMerge(s.out, at) ==> InRing(s, s', at, n))
  {
    hide State.Good, RingSpot;
    GoodRingPush(s, at, n);
  }

  lemma CanMergeLast(out: seq<Buffer>, at: nat)
    requires CanMerge(out, at)
    ensures out != []
  {
  }

  ghost function RingTaken<T>(s: State<T>, at: nat, n: nat): State<T>
    requires at + n <= s.size
  {
    var k := |s.out| - 1;
    s.(lastAlloc := n, free := Wrap(at + n, s.size),
       out := if CanMerge(s.out, at) then s.out[k := MergedInto(s.out[k], n)] else s.out + [Buffer(Ring(at), n, n, Allocated)])
  }

  lemma GoodRingTaken<T>(s: State<T>, at: nat, n: nat)
    requires s.Good() && !s.Open() && 0 < n && s.firstPending <= |s.out|
    requires s.used < s.size && s.free < s.size && RingSpot(s.used, s.free, s.size, n) == Some(at)
    ensures var s' := RingTaken(s, at, n);
            && s'.Good() && s'.Open() && s.firstPending <= |s'.out| && s'.out[..s.firstPending] == s.out[..s.firstPending]
            && InRing(s, s', at, n)
            && var last := s'.out[|s'.out| - 1]; last.place.Ring? && last.place.at + last.length - n == at
  {
    hide State.Good, RingSpot, Wrap, InRing;
    if CanMerge(s.out, at) {
      MergedGood(s, at, n);
    } else {
      PushedGood(s, at, n);
    }
  }

  lemma GoodHeapReuse<T>(s: State<T>, k: nat, n: nat)
    requires s.Good() && !s.Open() && k < |s.freeList| && 0 < n <= s.freeList[k].length
    ensures var b := Buffer(Heap(s.freeList[k].block), n, s.freeList[k].length, Allocated);
            var s' := s.(lastAlloc := n, freeList := s.freeList[..k] + s.freeList[k + 1..], out := s.out + [b]);
            s'.Good() && s'.Open() && s'.out[..s.firstPending] == s.out[..s.firstPending]
  {
    hide Phased, Laid, Owned, Stored;
    var b := Buffer(Heap(s.freeList[k].block), n, s.freeList[k].length, Allocated);
    OwnedBounds(s.heap, s.next, s.out, s.freeList);
    LaidPush(s.out, s.used, s.free, s.size, b);
    PhasedPush(s.out, s.firstPending, b);
    OwnedPushReused(s.heap, s.next, s.out, s.freeList, b, k);
    StoredPush(s.mem, s.heap, s.heap, s.out, s.groups, b);
  }

  lemma GoodHeapNew<T>(s: State<T>, data: seq<T>, n: nat)
    requires s.Good() && !s.Open() && 0 < n <= |data| <= MAX_LENGTH
    ensures var b := Buffer(Heap(s.next), n, |data|, Allocated);
            var s' := s.(lastAlloc := n, heap := s.heap[s.next := data], next := s.next + 1, out := s.out + [b]);
            s'.Good() && s'.Open() && s'.out[..s.firstPending] == s.out[..s.firstPending]
  {
    hide Phased, Laid, Owned, Stored;
    var b := Buffer(Heap(s.next), n, |data|, Allocated);
    OwnedBounds(s.heap, s.next, s.out, s.freeList);
    LaidPush(s.out, s.used, s.free, s.size, b);
    PhasedPush(s.out, s.firstPending, b);
    OwnedPushNew(s.heap, s.next, s.out, s.freeList, b, data);
    StoredPush(s.mem, s.heap, s.heap[s.next := data], s.out, s.groups, b);
  }

  function Splice<T>(mem: seq<T>, from: nat, data: seq<T>): (r: seq<T>)
    requires from + |data| <= |mem|
    ensures |r| == |mem|
  {
    mem[..from] + data + mem[from + |data|..]
  }

  lemma SpliceWindow<T>(mem: seq<T>, a: nat, b: nat, from: nat, data: seq<T>)
    requires a <= from && from + |data| <= b <= |mem|
    ensures Splice(mem, from, data)[a..b] == Splice(mem[a..b], from - a, data)
  {
  }

  lemma SpliceAll<T>(mem: seq<T>, data: seq<T>)
    requires |mem| == |data|
    ensures Splice(mem, 0, data) == data
  {
  }

  // Memory after data was copied into the open block at the given offset.
  ghost function Written<T>(s: State<T>, offset: nat, data: seq<T>): State<T>
    requires s.Open() && Backed(s.mem, s.heap, s.out[|s.out| - 1])
    requires offset + |data| <= s.lastAlloc <= s.out[|s.out| - 1].length
  {
    var last := s.out[|s.out| - 1];
    var from := last.length - s.lastAlloc + offset;
    match last.place
    case Ring(at) => s.(mem := Splice(s.mem, at + from, data))
    case Heap(block) => s.(heap := s.heap[block := Splice(s.heap[block], from, data)])
  }

  lemma OpenWindow<T>(s: State<T>)
    requires s.Open() && Backed(s.mem, s.heap, s.out[|s.out| - 1]) && s.lastAlloc <= s.out[|s.out| - 1].length
    ensures var last := s.out[|s.out| - 1];
            s.OpenBytes() == match last.place
                             case Ring(at) => s.mem[at + last.length - s.lastAlloc..at + last.length]
                             case Heap(block) => s.heap[block][last.length - s.lastAlloc..last.length]
  {
  }

  lemma OpenPrefix<T>(s: State<T>, n: nat)
    requires s.Open() && Backed(s.mem, s.heap, s.out[|s.out| - 1]) && n <= s.lastAlloc <= s.out[|s.out| - 1].length
    ensures var last := s.out[|s.out| - 1];
            && n <= |s.OpenBytes()|
            && s.OpenBytes()[..n] == Bytes(s.mem, s.heap, last)[last.length - s.lastAlloc..last.length - s.lastAlloc + n]
  {
  }

  lemma GoodWritten<T>(s: State<T>, offset: nat, data: seq<T>)
    requires s.Good() && s.Open() && offset + |data| <= s.lastAlloc
    ensures Backed(s.mem, s.heap, s.out[|s.out| - 1]) && s.lastAlloc <= s.out[|s.out| - 1].length
    ensures var s' := Written(s, offset, data);
            && |s.OpenBytes()| == s.lastAlloc
            && s'.OpenBytes() == Splice(s.OpenBytes(), offset, data)
  {
    hide State.Good, State.OpenBytes, State.Merging, Bytes, Splice, Written;
    OpenBacked(s);
    if s.out[|s.out| - 1].place.Ring? {
      WrittenInRing(s, offset, data);
    } else {
      WrittenInHeap(s, offset, data);
    }
  }

  lemma WrittenInRing<T>(s: State<T>, offset: nat, data: seq<T>)
    requires s.Open() && s.out[|s.out| - 1].place.Ring? && Backed(s.mem, s.heap, s.out[|s.out| - 1])
    requires offset + |data| <= s.lastAlloc <= s.out[|s.out| - 1].length && |s.OpenBytes()| == s.lastAlloc
    ensures Written(s, offset, data).OpenBytes() == Splice(s.OpenBytes(), offset, data)
  {
    hide State.OpenBytes, State.Merging, Bytes, Splice;
    var last := s.out[|s.out| - 1];
    var end := last.place.at + last.length;
    OpenWindow(s);
    OpenWindow(Written(s, offset, data));
    SpliceWindow(s.mem, end - s.lastAlloc, end, end - s.lastAlloc + offset, data);
  }

  lemma WrittenInHeap<T>(s: State<T>, offset: nat, data: seq<T>)
    requires s.Open() && s.out[|s.out| - 1].place.Heap? && Backed(s.mem, s.heap, s.out[|s.out| - 1])
    requires offset + |data| <= s.lastAlloc <= s.out[|s.out| - 1].length && |s.OpenBytes()| == s.lastAlloc
    ensures Written(s, offset, data).OpenBytes() == Splice(s.OpenBytes(), offset, data)
  {
    hide State.OpenBytes, State.Merging, Bytes, Splice;
    var last := s.out[|s.out| - 1];
    var start := last.length - s.lastAlloc;
    OpenWindow(s);
    OpenWindow(Written(s, offset, data));
    SpliceWindow(s.heap[last.place.block], start, last.length, start + offset, data);
  }

  lemma WrittenGood<T>(s: State<T>, offset: nat, data: seq<T>)
    requires s.Good() && s.Open() && Backed(s.mem, s.heap, s.out[|s.out| - 1])
    requires offset + |data| <= s.lastAlloc <= s.out[|s.out| - 1].length
    ensures Written(s, offset, data).Good()
  {
    hide Phased, Laid, Owned, Stored, Bytes;
    var last := s.out[|s.out| - 1];
    var s' := Written(s, offset, data);
    if last.place.Ring? {
      StoredWriteRing(s.mem, s'.mem, s.heap, s.out, s.lastAlloc, s.groups, s.used, s.free);
    } else {
      OwnedBounds(s.heap, s.next, s.out, s.freeList);
      var block := last.place.block;
      OwnedWrite(s.heap, s.next, s.out, s.freeList, block, s'.heap[block]);
      StoredWriteHeap(s.mem, s.heap, s.out, s.lastAlloc, s.groups, s'.heap[block]);
    }
  }

  // The first free byte after the last `shrink` bytes of the open block were given back.
  function FreeAfter(s: State, shrink: nat): int {
    if !s.Open() || s.out[|s.out| - 1].place.Heap? || shrink == 0 then s.free
    else if s.free != 0 then s.free - shrink
    else s.size - shrink
  }

  lemma NoGiveBack(s: State, shrink: nat)
    requires s.Open() && (s.out[|s.out| - 1].place.Heap? || shrink == 0)
    ensures FreeAfter(s, shrink) == s.free
  {
  }

  // The first n bytes of the open block stay: the ring is free again from right
  // behind them on, and a buffer of which nothing stays leaves the queue.
  ghost predicate Closes<T>(s: State<T>, s': State<T>, n: nat) {
    && s.out != [] && n <= s.lastAlloc <= s.out[|s.out| - 1].length
    && var k := |s.out| - 1;
    && var b, kept := s.out[k], s.out[k].length - (s.lastAlloc - n);
    && (b.place.Ring? ==> b.place.at + kept <= s.size)
    && s' == s.(groups := s'.groups,
                free := if b.place.Heap? then s.free else if b.place.at + kept == s.size then 0 else b.place.at + kept,
                out := if kept == 0 then s.out[..k] else s.out[k := b.(length := kept, state := Pending)],
                freeList := if kept == 0 && b.place.Heap? then s.freeList + [DynBuffer(b.place.block, b.capacity)] else s.freeList)
  }

  lemma KeptCloses<T>(s: State<T>, n: nat)
    requires s.Good() && s.Open() && n <= s.lastAlloc && 0 <= FreeAfter(s, s.lastAlloc - n) && n <= |s.OpenBytes()|
    requires s.Merging() ==> s.groups != []
    requires 0 < s.out[|s.out| - 1].length - (s.lastAlloc - n)
    ensures s.lastAlloc <= s.out[|s.out| - 1].length && Closes(s, Kept(s, n), n)
  {
    hide Laid, Owned, Stored, Phased, State.OpenBytes, Enqueue;
  }

  lemma DroppedCloses<T>(s: State<T>)
    requires s.Good() && s.Open() && !s.Merging() && 0 <= FreeAfter(s, s.lastAlloc)
    ensures Closes(s, Dropped(s), 0)
  {
    hide Laid, Owned, Stored, Phased, State.OpenBytes;
  }

  // Commit keeps the buffer and closes it behind the first n bytes of the open block.
  ghost function Kept<T>(s: State<T>, n: nat): State<T>
    requires s.Open() && n <= s.lastAlloc <= s.out[|s.out| - 1].length && 0 <= FreeAfter(s, s.lastAlloc - n)
    requires s.Merging() ==> s.groups != []
    requires n <= |s.OpenBytes()|
  {
    var k := |s.out| - 1;
    var b := s.out[k].(length := s.out[k].length - (s.lastAlloc - n), state := Pending);
    s.(out := s.out[k := b], free := FreeAfter(s, s.lastAlloc - n),
       groups := Enqueue(s.groups, s.Merging(), s.OpenBytes()[..n]))
  }

  lemma FreeAfterBound<T>(s: State<T>, n: nat)
    requires s.Good() && s.Open() && n <= s.lastAlloc
    ensures 0 <= FreeAfter(s, s.lastAlloc - n)
  {
  }

  lemma KeptLaid<T>(s: State<T>, n: nat)
    requires Laid(s.out, s.used, s.free, s.size) && s.Open() && s.OpenBlock()
    requires n <= s.lastAlloc && 0 < s.out[|s.out| - 1].length - (s.lastAlloc - n)
    ensures 0 <= FreeAfter(s, s.lastAlloc - n)
    ensures var k := |s.out| - 1;
            var b := s.out[k].(length := s.out[k].length - (s.lastAlloc - n), state := Pending);
            Laid(s.out[k := b], s.used, FreeAfter(s, s.lastAlloc - n), s.size)
  {
    hide Laid;
    var k, shrink := |s.out| - 1, s.lastAlloc - n;
    if s.out[k].place.Heap? || shrink == 0 {
      LaidClose(s.out, s.used, s.free, s.size, s.out[k].(length := s.out[k].length - shrink, state := Pending));
    } else {
      ShrinkKeepsLaid(s.out, s.used, s.free, s.size, shrink);
    }
  }

  lemma KeptStored<T>(s: State<T>, n: nat)
    requires Stored(s.mem, s.heap, s.out, s.lastAlloc, s.groups) && s.Open() && s.OpenBlock()
    requires n <= s.lastAlloc && 0 < s.out[|s.out| - 1].length - (s.lastAlloc - n)
    requires |s.groups| == |s.out| - (if s.Merging() then 0 else 1)
    ensures n <= |s.OpenBytes()|
    ensures var k := |s.out| - 1;
            var b := s.out[k].(length := s.out[k].length - (s.lastAlloc - n), state := Pending);
            var groups' := Enqueue(s.groups, s.Merging(), s.OpenBytes()[..n]);
            Stored(s.mem, s.heap, s.out[k := b], 0, groups') && |groups'| == |s.out|
  {
    hide Stored, Bytes, State.OpenBytes, Enqueue;
    var k := |s.out| - 1;
    var b := s.out[k].(length := s.out[k].length - (s.lastAlloc - n), state := Pending);
    StoredBacked(s.mem, s.heap, s.out, s.lastAlloc, s.groups, k);
    OpenPrefix(s, n);
    StoredCommit(s.mem, s.heap, s.out, s.lastAlloc, s.groups, b);
    EnqueueLength(s.groups, s.Merging(), s.OpenBytes()[..n]);
  }

  lemma GoodCommitKeep<T>(s: State<T>, n: nat)
    requires s.Good() && s.firstPending < |s.out|
    requires s.Open() && n <= s.lastAlloc <= s.out[|s.out| - 1].length && 0 <= FreeAfter(s, s.lastAlloc - n)
    requires s.Merging() ==> s.groups != []
    requires |s.OpenBytes()| == s.lastAlloc
    requires 0 < s.out[|s.out| - 1].length - (s.lastAlloc - n)
    ensures Kept(s, n).Good() && Kept(s, n).out[..s.firstPending] == s.out[..s.firstPending]
  {
    hide Phased, Laid, Owned, Stored, State.OpenBytes, Enqueue, FreeAfter;
    var k := |s.out| - 1;
    var b := s.out[k].(length := s.out[k].length - (s.lastAlloc - n), state := Pending);
    OwnedBounds(s.heap, s.next, s.out, s.freeList);
    PhasedLast(s.out, s.firstPending, b);
    OwnedUpdate(s.heap, s.next, s.out, s.freeList, k, b);
    KeptStored(s, n);
    KeptLaid(s, n);
  }

  lemma StoredBacked<T>(mem: seq<T>, heap: map<nat, seq<T>>, out: seq<Buffer>, open: nat, groups: seq<seq<seq<T>>>, k: nat)
    requires Stored(mem, heap, out, open, groups) && k < |out|
    ensures Backed(mem, heap, out[k])
  {
  }

  // Commit of no bytes drops a buffer that holds nothing else.
  function Dropped<T>(s: State<T>): State<T>
    requires s.Open() && 0 <= FreeAfter(s, s.lastAlloc)
  {
    var k := |s.out| - 1;
    s.(out := s.out[..k], free := FreeAfter(s, s.lastAlloc), freeList := Retire(s.freeList, s.out[k]))
  }

  lemma GoodCommitDrop<T>(s: State<T>)
    requires s.Good() && s.Open() && !s.Merging() && 0 <= FreeAfter(s, s.lastAlloc) && s.firstPending < |s.out|
    ensures Dropped(s).Good() && !Dropped(s).Open() && Dropped(s).out[..s.firstPending] == s.out[..s.firstPending]
  {
    hide Phased, Laid, Owned, Stored, Inside, Before, Bytes;
    var k := |s.out| - 1;
    PhasedLast(s.out, s.firstPending, s.out[k].(state := Pending));
    OwnedDropBack(s.heap, s.next, s.out, s.freeList);
    StoredDropBack(s.mem, s.heap, s.out, s.lastAlloc, s.groups);
    if s.out[k].place.Heap? {
      LaidDropBack(s.out, s.used, s.free, s.size);
    } else {
      ShrinkKeepsLaid(s.out, s.used, s.free, s.size, s.lastAlloc);
    }
  }

  // Commit as its callers see it.
  lemma CommitDrops<T>(s: State<T>, n: nat)
    requires s.Good() && s.Open() && !s.Merging() && n == 0 <= FreeAfter(s, s.lastAlloc)
    ensures Dropped(s).Good() && !Dropped(s).Open() && s.firstPending <= |s.groups| <= |Dropped(s).out|
    ensures Dropped(s).out[..s.firstPending] == s.out[..s.firstPending]
    ensures n <= |s.OpenBytes()| && Enqueue(s.groups, s.Merging(), s.OpenBytes()[..n]) == s.groups
  {
    hide State.Good, State.OpenBytes, Enqueue, FreeAfter;
    OpenBacked(s);
    GoodCommitDrop(s);
    EnqueueNone(s.groups, s.Merging(), s.OpenBytes()[..n]);
    GoodFacts(Dropped(s));
  }

  lemma CommitKeeps<T>(s: State<T>, n: nat)
    requires s.Good() && s.Open() && n <= s.lastAlloc <= s.out[|s.out| - 1].length && 0 <= FreeAfter(s, s.lastAlloc - n)
    requires s.Merging() ==> s.groups != []
    requires |s.OpenBytes()| == s.lastAlloc
    requires 0 < s.out[|s.out| - 1].length - (s.lastAlloc - n)
    ensures Kept(s, n).Good() && !Kept(s, n).Open() && s.firstPending <= |Kept(s, n).groups| <= |Kept(s, n).out|
    ensures Kept(s, n).out[..s.firstPending] == s.out[..s.firstPending]
  {
    hide State.Good, State.OpenBytes, Enqueue, FreeAfter;
    OpenBacked(s);
    GoodCommitKeep(s, n);
    GoodFacts(Kept(s, n));
  }

  function Popped<T>(s: State<T>): State<T>
    requires s.firstPending < |s.out|
  {
    var k := s.firstPending;
    s.(out := s.out[k := s.out[k].(state := Writing)], firstPending := k + 1)
  }

  lemma GoodPop<T>(s: State<T>)
    requires s.Good() && s.firstPending < |s.out| && s.out[s.firstPending].state == Pending
    ensures Popped(s).Good() && s.firstPending < |s.groups|
    ensures Backed(s.mem, s.heap, s.out[s.firstPending])
    ensures Bytes(s.mem, s.heap, s.out[s.firstPending]) == Flat(s.groups[s.firstPending])
    ensures Popped(s).Open() == s.Open() && Popped(s).OpenBytes() == s.OpenBytes()
  {
    hide Laid, Owned, Stored, Inside, Before, Bytes;
    var k := s.firstPending;
    var b := s.out[k].(state := Writing);
    OwnedBounds(s.heap, s.next, s.out, s.freeList);
    OwnedUpdate(s.heap, s.next, s.out, s.freeList, k, b);
    LaidMark(s.out, s.used, s.free, s.size, k, b);
    assert Popped(s).Open() == s.Open();
    StoredMark(s.mem, s.heap, s.out, s.OpenLength(), s.groups, k, b);
  }

  // Popping the open block breaks the invariant: its bytes were not committed.
  lemma PopOpen<T>(s: State<T>)
    requires s.Good() && s.firstPending < |s.out| && s.out[s.firstPending].state != Pending
    ensures !Popped(s).Good()
    ensures s.Open() && s.firstPending == |s.out| - 1 && Backed(s.mem, s.heap, s.out[s.firstPending])
  {
    hide Laid, Owned, Stored;
    StoredBacked(s.mem, s.heap, s.out, s.OpenLength(), s.groups, s.firstPending);
    if s.Merging() {
      PopMerging(s.mem, s.heap, s.out, s.lastAlloc, s.groups);
    }
  }

  // A buffer does not hold more than was committed to it.
  lemma PopMerging<T>(mem: seq<T>, heap: map<nat, seq<T>>, out: seq<Buffer>, open: nat, groups: seq<seq<seq<T>>>)
    requires Stored(mem, heap, out, open, groups) && |groups| == |out| > 0 && open > 0
    ensures var k := |out| - 1; !Stored(mem, heap, out[k := out[k].(state := Writing)], 0, groups)
  {
    hide Flat, Bytes;
    var k := |out| - 1;
    var out' := out[k := out[k].(state := Writing)];
    assert Holds(mem, heap, out[k], Done(out, k, open), groups[k]);
    assert |Flat(groups[k])| < out[k].length;
    assert !Holds(mem, heap, out'[k], Done(out', k, 0), groups[k]);
  }

  lemma OpenTail<T>(s: State<T>)
    requires s.Open() && Backed(s.mem, s.heap, s.out[|s.out| - 1]) && s.lastAlloc <= s.out[|s.out| - 1].length
    ensures var b := s.out[|s.out| - 1];
            Bytes(s.mem, s.heap, b)[b.length - s.lastAlloc..] == s.OpenBytes()
  {
    hide Backed, Bytes;
  }

  lemma LaidMark(out: seq<Buffer>, used: nat, free: nat, size: nat, k: nat, b: Buffer)
    requires Laid(out, used, free, size) && k < |out|
    requires b.place == out[k].place && b.length == out[k].length
    ensures Laid(out[k := b], used, free, size)
  {
  }

  lemma StoredMark<T>(mem: seq<T>, heap: map<nat, seq<T>>, out: seq<Buffer>, open: nat, groups: seq<seq<seq<T>>>, k: nat, b: Buffer)
    requires Stored(mem, heap, out, open, groups) && k < |groups|
    requires b.place == out[k].place && b.length == out[k].length
    ensures Stored(mem, heap, out[k := b], open, groups)
    ensures Backed(mem, heap, out[k])
    ensures Done(out, k, open) == out[k].length ==> Bytes(mem, heap, out[k]) == Flat(groups[k])
  {
    hide Holds, Backed, Bytes, Flat;
    var out' := out[k := b];
    HoldsMark(mem, heap, out[k], b, Done(out, k, open), groups[k]);
    forall i | 0 <= i < |groups|
      ensures Holds(mem, heap, out'[i], Done(out', i, open), groups[i])
    {
      assert Holds(mem, heap, out[i], Done(out, i, open), groups[i]);
    }
  }

  lemma HoldsMark<T>(mem: seq<T>, heap: map<nat, seq<T>>, b: Buffer, b': Buffer, done: int, group: seq<seq<T>>)
    requires Holds(mem, heap, b, done, group) && b'.place == b.place && b'.length == b.length
    ensures Holds(mem, heap, b', done, group) && Backed(mem, heap, b) && Backed(mem, heap, b')
    ensures done == b.length ==> Bytes(mem, heap, b) == Flat(group)
  {
    hide Flat;
  }

  // The state after the front buffer, which is being written, was released.
  function Released<T>(s: State<T>): State<T>
    requires |s.out| > 0 && |s.groups| > 0 && s.firstPending > 0
    requires s.out[0].place.Ring? ==> s.out[0].place.at + s.out[0].length <= s.size
  {
    var b := s.out[0];
    var used' := if b.place.Ring? then Wrap(b.place.at + b.length, s.size) else s.used;
    s.(out := s.out[1..], firstPending := s.firstPending - 1, groups := s.groups[1..], freeList := Retire(s.freeList, b),
       used := if b.place.Ring? && used' == s.free then 0 else used',
       free := if b.place.Ring? && used' == s.free then 0 else s.free)
  }

  // The ring bytes up to the end of a released region are free, and only these;
  // without live bytes the ring starts over.
  ghost predicate Frees(b: Buffer, used: nat, free: nat, used': nat, free': nat, size: nat) {
    if b.place.Heap? then used' == used && free' == free
    else
      && used' < size && free' < size && (used' == free' ==> used' == 0)
      && (forall p :: 0 <= p < size ==>
            (Live(p, used', free', size) <==>
             Live(p, used, free, size) && Unroll(p, used, size) >= Unroll(b.place.at, used, size) + b.length))
  }

  lemma ReleaseFrees(b: Buffer, used: nat, free: nat, size: nat)
    requires used < size && free < size && b.place.Ring? && Inside(b, used, free, size)
    ensures var end := Wrap(b.place.at + b.length, size);
            if end == free then Frees(b, used, free, 0, 0, size) else Frees(b, used, free, end, free, size)
  {
  }

  lemma ReleasedFrees<T>(s: State<T>)
    requires s.Good() && s.firstPending > 0
    ensures |s.out| > 0 && |s.groups| > 0
    ensures s.out[0].place.Ring? ==> s.out[0].place.at + s.out[0].length <= s.size
    ensures Frees(s.out[0], s.used, s.free, Released(s).used, Released(s).free, s.size)
  {
    hide Owned, Stored, Inside, Before, Frees, Live;
    LaidBounds(s.out, s.used, s.free, s.size);
    if s.out[0].place.Ring? {
      ReleaseFrees(s.out[0], s.used, s.free, s.size);
    } else {
      HeapFreesNothing(s.out[0], s.used, s.free, s.size);
    }
  }

  lemma HeapFreesNothing(b: Buffer, used: nat, free: nat, size: nat)
    requires b.place.Heap?
    ensures Frees(b, used, free, used, free, size)
  {
  }

  lemma ReleaseGuard<T>(s: State<T>)
    requires s.Good()
    ensures s.firstPending > 0 <==> |s.out| > 0 && s.out[0].state == Writing
  {
  }

  lemma GoodRelease<T>(s: State<T>)
    requires s.Good() && s.firstPending > 0
    ensures |s.out| > 0 && |s.groups| > 0
    ensures s.out[0].place.Ring? ==> s.out[0].place.at + s.out[0].length <= s.size
    ensures s.out[0].state == Writing
    ensures var s' := Released(s);
            s'.Good() && s'.Open() == s.Open() && s'.OpenBytes() == s.OpenBytes()
  {
    hide Laid, Owned, Stored, Inside, Before, Phased, State.OpenBytes;
    PhasedTail(s.out, s.firstPending);
    assert |s.groups| > 0;
    LaidBounds(s.out, s.used, s.free, s.size);
    OwnedDropFront(s.heap, s.next, s.out, s.freeList);
    StoredTail(s.mem, s.heap, s.out, s.OpenLength(), s.groups);
    ReleaseKeepsOpen(s);
    if s.out[0].place.Ring? {
      ReleaseKeepsLaid(s.out, s.used, s.free, s.size);
    } else {
      LaidTail(s.out, s.used, s.free, s.size);
    }
  }

  lemma ReleaseKeepsOpen<T>(s: State<T>)
    requires |s.out| > 0 && s.out[0].state == Writing && |s.groups| > 0 && s.firstPending > 0
    requires s.out[0].place.Ring? ==> s.out[0].place.at + s.out[0].length <= s.size
    ensures Released(s).Open() == s.Open() && Released(s).OpenBytes() == s.OpenBytes()
  {
    hide Backed, Bytes;
  }

  lemma PhasedTail(out: seq<Buffer>, firstPending: nat)
    requires Phased(out, firstPending) && firstPending > 0
    ensures |out| > 0 && out[0].state == Writing && Phased(out[1..], firstPending - 1)
  {
  }

  lemma LaidTail(out: seq<Buffer>, used: nat, free: nat, size: nat)
    requires Laid(out, used, free, size) && |out| > 0
    ensures Laid(out[1..], used, free, size)
  {
  }

  class WriteBuffQueue<T(0)> {
    const size: nat
    const ring: array<T>
    var heap: map<nat, seq<T>>
    var nextBlock: nat
    var freeBegin: nat
    var usedBegin: nat
    var lastAlloc: nat
    var out: seq<Buffer>
    var firstPending: nat
    var freeList: seq<DynBuffer>

    // The committed blocks, grouped by the buffer that holds them.
    ghost var groups: seq<seq<seq<T>>>

    ghost function View(): State<T>
      reads this, ring
    {
      State(size, ring[..], heap, nextBlock, usedBegin, freeBegin, lastAlloc, out, firstPending, freeList, groups)
    }

    ghost predicate Valid()
      reads this, ring
    {
      View().Good()
    }

    constructor (staticSize: nat)
      requires staticSize > 0
      ensures Valid() && fresh(ring) && size == staticSize
      ensures out == [] && groups == [] && firstPending == 0 && heap == map[]
    {
      size := staticSize;
      ring := new T[staticSize];
      heap := map[];
      nextBlock := 0;
      freeBegin := 0;
      usedBegin := 0;
      lastAlloc := 0;
      out := [];
      firstPending := 0;
      freeList := [];
      groups := [];
      new;
    }

    // Allocates n bytes on the queue. No block may wait for its Commit.
    method Allocate(n: nat) returns (r: Option<Place>)
      requires Valid() && !View().Open() && n <= MAX_LENGTH
      modifies this
      ensures Valid()
      ensures n == 0 ==> r == None && View() == old(View())
      ensures n > 0 ==> r.Some? && View().Open() && lastAlloc == |View().OpenBytes()| == n
      ensures n > 0 ==> var last := out[|out| - 1];
                        r.value == match last.place
                                   case Ring(at) => Ring(at + last.length - n)
                                   case Heap(block) => Heap(block)
      ensures groups == old(groups) && firstPending == old(firstPending) <= |out|
      ensures out[..firstPending] == old(out[..firstPending])
      ensures old(usedBegin) < size && old(freeBegin) < size
      ensures n > 0 ==>
                var s, s' := old(View()), View();
                if Room(s.free, s.used, s.free, size, n) then InRing(s, s', s.free, n)
                else if Room(0, s.used, s.free, size, n) then InRing(s, s', 0, n)
                else InHeap(s, s', n)
    {
      hide State.Good, RingSpot, State.OpenBytes, Room, InRing, InHeap;
      GoodFacts(View());
      if n == 0 {
        return None;
      }
      SpotIsComplete(usedBegin, freeBegin, size, n);
      var spot := RingSpot(usedBegin, freeBegin, size, n);
      if spot.Some? {
        AllocateInRing(spot.value, n);
        r := Some(Ring(spot.value));
      } else {
        var block := AllocateInHeap(n);
        r := Some(Heap(block));
      }
      GoodFacts(View());
      OpenBacked(View());
    }

    method AllocateInRing(at: nat, n: nat)
      requires Valid() && !View().Open() && 0 < n
      requires usedBegin < size && freeBegin < size && firstPending <= |out| && RingSpot(usedBegin, freeBegin, size, n) == Some(at)
      modifies `lastAlloc, `freeBegin, `out
      ensures Valid() && View().Open() && lastAlloc == n && firstPending <= |out|
      ensures var last := out[|out| - 1]; last.place.Ring? && last.place.at + last.length - n == at
      ensures out[..firstPending] == old(out[..firstPending])
      ensures InRing(old(View()), View(), at, n)
    {
      hide State.Good, RingSpot, Wrap, InRing, CanMerge;
      ghost var s := View();
      GoodRingTaken(s, at, n);
      lastAlloc := n;
      freeBegin := Wrap(at + n, size);
      if CanMerge(out, at) {
        CanMergeLast(out, at);
        var k := |out| - 1;
        out := out[k := MergedInto(out[k], n)];
      } else {
        out := out + [Buffer(Ring(at), n, n, Allocated)];
      }
      assert View() == RingTaken(s, at, n);
    }

    method AllocateInHeap(n: nat) returns (block: nat)
      requires Valid() && !View().Open() && 0 < n <= MAX_LENGTH && firstPending <= |out|
      modifies `lastAlloc, `heap, `nextBlock, `freeList, `out
      ensures Valid() && View().Open() && lastAlloc == n && firstPending <= |out|
      ensures out[|out| - 1].place == Heap(block) && out[|out| - 1].length == n
      ensures out[..firstPending] == old(out[..firstPending])
      ensures InHeap(old(View()), View(), n)
    {
      hide State.Good;
      GoodFacts(View());
      ghost var s := View();
      lastAlloc := n;
      var k := BestFit(freeList, n);
      if k < |freeList| {
        GoodHeapReuse(s, k, n);
        block := freeList[k].block;
        out := out + [Buffer(Heap(block), n, freeList[k].length, Allocated)];
        freeList := freeList[..k] + freeList[k + 1..];
        assert Reuses(s, View(), k, n);
      } else {
        var mem := new T[RoundUp(n, 256)];
        GoodHeapNew(s, mem[..], n);
        block := nextBlock;
        out := out + [Buffer(Heap(block), n, mem.Length, Allocated)];
        heap := heap[block := mem[..]];
        nextBlock := nextBlock + 1;
        assert View() == s.(lastAlloc := n, next := s.next + 1, heap := s.heap[s.next := heap[s.next]],
                            out := s.out + [Buffer(Heap(s.next), n, RoundUp(n, 256), Allocated)]);
      }
    }

    // The caller copies data into the block it got from Allocate.
    method Store(offset: nat, data: seq<T>)
      requires Valid() && View().Open() && offset + |data| <= lastAlloc
      modifies `heap, ring
      ensures Valid()
      ensures |old(View().OpenBytes())| == lastAlloc && View().OpenBytes() == Splice(old(View().OpenBytes()), offset, data)
      ensures heap.Keys == old(heap.Keys)
    {
      hide State.Good, State.OpenBytes, Splice;
      ghost var s := View();
      GoodFacts(s);
      GoodWritten(s, offset, data);
      WrittenGood(s, offset, data);
      var last := out[|out| - 1];
      var from := last.length - lastAlloc + offset;
      match last.place {
        case Ring(at) =>
          WriteRing(at + from, data);
        case Heap(block) =>
          heap := heap[block := Splice(heap[block], from, data)];
      }
      assert View() == Written(s, offset, data);
    }

    method WriteRing(at: nat, data: seq<T>)
      requires at + |data| <= ring.Length
      modifies ring
      ensures ring[..] == Splice(old(ring[..]), at, data)
    {
      forall i | 0 <= i < |data| {
        ring[at + i] := data[i];
      }
    }

    // Moves the end of the used part of the ring back, across the wrap if needed.
    method GiveBack(shrink: nat)
      requires View().Open() && out[|out| - 1].place.Ring? && shrink > 0 && 0 <= FreeAfter(View(), shrink)
      modifies `freeBegin
      ensures freeBegin == old(FreeAfter(View(), shrink))
    {
      if freeBegin != 0 {
        freeBegin := freeBegin - shrink;
      } else {
        freeBegin := size - shrink;
      }
    }

    // Commits the first n bytes of the open block (all of them if n is larger).
    method Commit(n: nat)
      requires Valid()
      modifies this
      ensures Valid() && !View().Open()
      ensures !old(View().Open()) ==> View() == old(View())
      ensures old(View().Open()) ==>
                && |old(View().OpenBytes())| == old(lastAlloc)
                && (old(View().Merging()) ==> old(groups) != [])
                && groups == Enqueue(old(groups), old(View().Merging()),
                                     old(View().OpenBytes())[..if n < old(lastAlloc) then n else old(lastAlloc)])
      ensures firstPending == old(firstPending) <= |groups| <= |out|
      ensures out[..firstPending] == old(out[..firstPending]) && heap == old(heap)
      ensures old(View().Open()) ==> Closes(old(View()), View(), if n < old(lastAlloc) then n else old(lastAlloc))
    {
      hide State.Good, State.OpenBytes, Enqueue, FreeAfter, Closes;
      ghost var s := View();
      GoodFacts(s);
      if |out| == 0 || out[|out| - 1].state != Allocated {
        return;
      }
      OpenBacked(s);
      var k := |out| - 1;
      var last := out[k];
      if n < lastAlloc {
        FreeAfterBound(s, n);
        if last.place.Ring? {
          last := last.(length := last.length - (lastAlloc - n));
          GiveBack(lastAlloc - n);
          if last.length == 0 {
            CommitDrops(s, n);
            DroppedCloses(s);
            out := out[..k];
            assert View() == Dropped(s);
            return;
          }
        } else if n > 0 {
          NoGiveBack(s, lastAlloc - n);
          last := last.(length := n);
        } else {
          NoGiveBack(s, lastAlloc);
          CommitDrops(s, n);
          DroppedCloses(s);
          freeList := freeList + [DynBuffer(last.place.block, last.capacity)];
          out := out[..k];
          assert View() == Dropped(s);
          return;
        }
      } else {
        NoGiveBack(s, 0);
      }
      ghost var n' := if n < lastAlloc then n else lastAlloc;
      CommitKeeps(s, n');
      KeptCloses(s, n');
      groups := Enqueue(groups, s.Merging(), s.OpenBytes()[..n']);
      out := out[k := last.(state := Pending)];
      assert View() == Kept(s, n');
    }

    method Push(src: seq<T>)
      requires Valid() && !View().Open() && |src| <= MAX_LENGTH
      modifies this, ring
      ensures Valid() && !View().Open()
      ensures exists merge :: (merge ==> old(firstPending) < |old(groups)|) && groups == Enqueue(old(groups), merge, src)
      ensures firstPending == old(firstPending) <= |groups| <= |out|
      ensures out[..firstPending] == old(out[..firstPending])
    {
      hide State.Good, State.OpenBytes, RingSpot, Room, InRing, InHeap, Closes, Frees;
      var newBuff := Allocate(|src|);
      if |src| > 0 {
        Store(0, src);
        assert View().OpenBytes() == src && src[..|src|] == src;
      }
      ghost var merge := View().Merging();
      ghost var groups0 := groups;
      MergeAt(View());
      Commit(ALL);
      assert groups == Enqueue(groups0, merge, src);
    }

    // The next buffer to write. If that buffer is still open, its uncommitted
    // bytes are handed out and the invariant is lost.
    method Pop() returns (r: Option<(Place, nat)>)
      requires Valid()
      modifies `out, `firstPending
      ensures old(firstPending) <= |old(out)|
      ensures old(firstPending) == |old(out)| ==> r == None && View() == old(View())
      ensures old(firstPending) < |old(out)| ==>
                && View() == Popped(old(View()))
                && var b := old(out)[old(firstPending)];
                && r == Some((b.place, b.length))
                && Backed(ring[..], heap, b)
                && (Valid() <==> b.state == Pending)
                && (b.state != Pending ==>
                      // The last bytes handed out are those of the open block.
                      && old(View().Open()) && old(firstPending) == |out| - 1
                      && 0 < lastAlloc <= b.length
                      && Bytes(ring[..], heap, b)[b.length - lastAlloc..] == old(View().OpenBytes()))
                && (b.state == Pending ==> old(firstPending) < |groups| && Bytes(ring[..], heap, b) == Flat(groups[old(firstPending)]))
      ensures Valid() ==> View().Open() == old(View().Open()) && View().OpenBytes() == old(View().OpenBytes())
    {
      hide State.Good, State.OpenBytes;
      ghost var s := View();
      GoodFacts(s);
      if firstPending < |out| {
        var retBuff := out[firstPending];
        if retBuff.state == Pending {
          GoodPop(s);
        } else {
          PopOpen(s);
          OpenBacked(s);
          OpenTail(s);
        }
        out := out[firstPending := retBuff.(state := Writing)];
        firstPending := firstPending + 1;
        return Some((retBuff.place, retBuff.length));
      } else {
        return None;
      }
    }

    // Releases the first buffer returned by Pop.
    method Release()
      requires Valid()
      modifies this
      ensures Valid()
      ensures old(firstPending) == 0 ==> View() == old(View())
      ensures old(firstPending) > 0 ==>
                && old(out) != [] && old(groups) != []
                && out == old(out)[1..] && groups == old(groups)[1..] && firstPending == old(firstPending) - 1
      ensures heap == old(heap)
      ensures old(firstPending) > 0 ==>
                && Frees(old(out)[0], old(usedBegin), old(freeBegin), usedBegin, freeBegin, size)
                && var b := old(out)[0];
                freeList == if b.place.Heap? then old(freeList) + [DynBuffer(b.place.block, b.capacity)] else old(freeList)
      ensures View().Open() == old(View().Open()) && lastAlloc == old(lastAlloc)
      ensures View().OpenBytes() == old(View().OpenBytes())
    {
      hide State.Good, State.OpenBytes, Frees;
      ghost var s := View();
      ReleaseGuard(s);
      if |out| == 0 {
        return;
      }
      var currBuff := out[0];
      if currBuff.state != Writing {
        return;
      }
      GoodRelease(s);
      ReleasedFrees(s);
      out := out[1..];
      firstPending := firstPending - 1;
      groups := groups[1..];
      if currBuff.place.Ring? {
        FreeUpTo(currBuff.place.at + currBuff.length);
      } else {
        freeList := freeList + [DynBuffer(currBuff.place.block, currBuff.capacity)];
      }
      assert View() == Released(s);
    }

    // Frees the ring up to a position; an empty ring starts over.
    method FreeUpTo(end: nat)
      requires end <= size
      modifies `usedBegin, `freeBegin
      ensures var used := Wrap(end, size);
              if used == old(freeBegin) then usedBegin == freeBegin == 0
              else usedBegin == used && freeBegin == old(freeBegin)
    {
      usedBegin := end;
      if usedBegin >= size {
        usedBegin := usedBegin - size;
      }
      if usedBegin == freeBegin {
        usedBegin := 0;
        freeBegin := 0;
      }
    }

    // The bytes behind a pointer that Allocate or Pop returned.
    function Read(place: Place, length: nat): (r: seq<T>)
      requires Backed(ring[..], heap, Buffer(place, length, length, Pending))
      reads this, ring
      ensures r == Bytes(ring[..], heap, Buffer(place, length, length, Pending))
    {
      match place
      case Ring(at) => ring[at..at + length]
      case Heap(block) => heap[block][..length]
    }

    // delete[] of a live heap block.
    method Delete(block: nat)
      requires block in heap
      modifies `heap
      ensures heap == old(heap) - {block}
    {
      heap := heap - {block};
    }

    // Empties the queue and deletes every heap block, or keeps them all for reuse.
    method Reset(releaseDynamicBuffers: bool)
      requires Valid()
      modifies this
      ensures Valid() && out == [] && groups == [] && firstPending == 0 && freeBegin == usedBegin == 0
      ensures releaseDynamicBuffers ==> heap == map[]
      ensures !releaseDynamicBuffers ==> heap == old(heap) && FreeBlocks(freeList) == heap.Keys
    {
      hide Laid, Phased, Stored, Owned;
      GoodFacts(View());
      freeBegin := 0;
      usedBegin := 0;
      lastAlloc := 0;
      if releaseDynamicBuffers {
        DeleteBlocks();
      } else {
        RetainBlocks();
      }
      out := [];
      firstPending := 0;
      groups := [];
      GoodEmpty(View());
    }

    method DeleteBlocks()
      requires Owned(heap, nextBlock, out, freeList)
      modifies `heap, `freeList
      ensures Owned(heap, nextBlock, [], freeList) && freeList == [] && heap == map[]
    {
      hide Owned;
      var i := 0;
      assert freeList[0..] == freeList;
      while i < |freeList|
        modifies `heap
        invariant 0 <= i <= |freeList|
        invariant Owned(heap, nextBlock, out, freeList[i..])
      {
        OwnedDelete(heap, nextBlock, out, freeList[i..]);
        assert freeList[i..][1..] == freeList[i + 1..];
        Delete(freeList[i].block);
        i := i + 1;
      }
      assert freeList[i..] == [];
      freeList := [];
      i := 0;
      assert out[0..] == out;
      while i < |out|
        modifies `heap
        invariant 0 <= i <= |out|
        invariant Owned(heap, nextBlock, out[i..], [])
      {
        OwnedDeleteFront(heap, nextBlock, out[i..]);
        assert out[i..][1..] == out[i + 1..];
        if out[i].place.Heap? {
          Delete(out[i].place.block);
        }
        i := i + 1;
      }
      assert out[i..] == [];
      OwnedNothing(heap, nextBlock);
    }

    method RetainBlocks()
      requires Owned(heap, nextBlock, out, freeList)
      modifies `freeList
      ensures Owned(heap, nextBlock, [], freeList)
    {
      hide Owned;
      var i := 0;
      assert out[0..] == out;
      while i < |out|
        modifies `freeList
        invariant 0 <= i <= |out|
        invariant Owned(heap, nextBlock, out[i..], freeList)
      {
        OwnedDropFront(heap, nextBlock, out[i..], freeList);
        assert out[i..][1..] == out[i + 1..];
        if out[i].place.Heap? {
          freeList := freeList + [DynBuffer(out[i].place.block, out[i].capacity)];
        }
        i := i + 1;
      }
      assert out[i..] == [];
    }
  }

  /* Whole runs. */

  datatype Op<T> =
    | AllocateOp(data: seq<T>)
    | StoreOp(offset: nat, data: seq<T>)
    | CommitOp(n: nat)
    | PushOp(data: seq<T>)
    | PopOp
    | ReleaseOp

  // What the calls of a run may do: at most one block is open, it is written
  // only inside its bounds, and a buffer is popped only when it is not open.
  predicate Legal<T(0)>(q: WriteBuffQueue<T>, op: Op<T>)
    reads q
  {
    var open := |q.out| > 0 && q.out[|q.out| - 1].state == Allocated;
    match op
    case AllocateOp(data) => !open && |data| <= MAX_LENGTH
    case StoreOp(offset, data) => open && offset + |data| <= q.lastAlloc
    case PushOp(data) => !open && |data| <= MAX_LENGTH
    case PopOp => q.firstPending < |q.out| ==> q.out[q.firstPending].state == Pending
    case _ => true
  }

  // The caller's own account of a run, which knows nothing about the queue:
  // the bytes of its open block and the blocks it has committed.
  datatype Account<T> = Account(open: Option<seq<T>>, log: seq<seq<T>>)

  function Logged<T>(log: seq<seq<T>>, b: seq<T>): seq<seq<T>> {
    log + if b == [] then [] else [b]
  }

  lemma {:induction false} LoggedBehind<T>(front: seq<seq<T>>, log: seq<seq<T>>, b: seq<T>)
    ensures front + (log + if b == [] then [] else [b]) == Logged(front + log, b)
  {
  }

  function Book<T>(a: Account<T>, op: Op<T>): Account<T> {
    match op
    case AllocateOp(data) =>
      if a.open.None? && 0 < |data| <= MAX_LENGTH then a.(open := Some(data)) else a
    case StoreOp(offset, data) =>
      if a.open.Some? && offset + |data| <= |a.open.value| then a.(open := Some(Splice(a.open.value, offset, data))) else a
    case CommitOp(n) =>
      if a.open.None? then a
      else Account(None, Logged(a.log, a.open.value[..if n < |a.open.value| then n else |a.open.value|]))
    case PushOp(data) =>
      if a.open.None? && |data| <= MAX_LENGTH then a.(log := Logged(a.log, data)) else a
    case PopOp => a
    case ReleaseOp => a
  }

  function Accounts<T>(ops: seq<Op<T>>): Account<T> {
    if ops == [] then Account(None, [])
    else Book(Accounts(ops[..|ops| - 1]), ops[|ops| - 1])
  }

  // The queue's open block is the one in the account.
  ghost predicate Agrees<T>(s: State<T>, a: Account<T>) {
    && (s.Open() <==> a.open.Some?)
    && (s.Open() ==> s.OpenBytes() == a.open.value && |a.open.value| == s.lastAlloc)
  }

  // The pointers in flight still lead to the bytes that were popped.
  lemma InFlight<T>(s: State<T>, i: nat)
    requires s.Good() && i < s.firstPending
    ensures i < |s.groups| && i < |s.out| && Backed(s.mem, s.heap, s.out[i])
    ensures Bytes(s.mem, s.heap, s.out[i]) == Flat(s.groups[i])
  {
  }

  // What a run has seen so far: all groups are `gone`, those of the released
  // buffers, and those still in the queue.
  ghost predicate Tracks<T>(s: State<T>, gone: seq<seq<seq<T>>>, committed: seq<seq<T>>, popped: seq<seq<T>>,
                            pointers: seq<(Place, nat)>, released: seq<seq<T>>)
  {
    && s.firstPending == |pointers| <= |s.groups| <= |s.out|
    && Flat(gone + s.groups) == committed
    && |popped| == |gone| + s.firstPending
    && (forall i :: 0 <= i < |popped| ==> popped[i] == Flat((gone + s.groups)[i]))
    && released == popped[..|gone|]
    && (forall i :: 0 <= i < |pointers| ==> pointers[i] == (s.out[i].place, s.out[i].length))
  }

  lemma TracksNew<T>(s: State<T>)
    requires s.out == [] && s.groups == [] && s.firstPending == 0
    ensures Tracks(s, [], [], [], [], [])
  {
  }

  lemma TracksEnd<T>(s: State<T>, gone: seq<seq<seq<T>>>, committed: seq<seq<T>>, popped: seq<seq<T>>,
                     pointers: seq<(Place, nat)>, released: seq<seq<T>>)
    requires Tracks(s, gone, committed, popped, pointers, released)
    ensures Flat(gone + s.groups) == committed && |gone| <= |popped| <= |gone + s.groups|
    ensures forall i :: 0 <= i < |popped| ==> popped[i] == Flat((gone + s.groups)[i])
    ensures released == popped[..|gone|]
  {
  }

  lemma TracksPointers<T>(s: State<T>, gone: seq<seq<seq<T>>>, committed: seq<seq<T>>, popped: seq<seq<T>>,
                          pointers: seq<(Place, nat)>, released: seq<seq<T>>)
    requires Tracks(s, gone, committed, popped, pointers, released)
    ensures s.firstPending == |pointers| <= |s.groups| <= |s.out|
    ensures forall i :: 0 <= i < |pointers| ==> pointers[i] == (s.out[i].place, s.out[i].length)
  {
  }

  lemma TracksSame<T>(s: State<T>, s': State<T>, gone: seq<seq<seq<T>>>, committed: seq<seq<T>>, popped: seq<seq<T>>,
                      pointers: seq<(Place, nat)>, released: seq<seq<T>>)
    requires Tracks(s, gone, committed, popped, pointers, released)
    requires s'.groups == s.groups && s'.firstPending == s.firstPending <= |s.out| && |s'.groups| <= |s'.out|
    requires s'.out[..s.firstPending] == s.out[..s.firstPending]
    ensures Tracks(s', gone, committed, popped, pointers, released)
  {
  }

  // The groups of the popped buffers stay.
  lemma {:induction false} EnqueueFront<T>(gone: seq<seq<seq<T>>>, groups: seq<seq<seq<T>>>, merge: bool, b: seq<T>, n: nat)
    requires n <= |groups| && (merge ==> n < |groups|)
    ensures |Enqueue(groups, merge, b)| >= n
    ensures forall i :: 0 <= i < |gone| + n ==> (gone + Enqueue(groups, merge, b))[i] == (gone + groups)[i]
  {
  }

  lemma {:induction false} TracksCommit<T>(s: State<T>, s': State<T>, gone: seq<seq<seq<T>>>, committed: seq<seq<T>>, popped: seq<seq<T>>,
                        pointers: seq<(Place, nat)>, released: seq<seq<T>>, merge: bool, b: seq<T>)
    requires Tracks(s, gone, committed, popped, pointers, released)
    requires merge ==> s.firstPending < |s.groups|
    requires s'.groups == Enqueue(s.groups, merge, b) && s'.firstPending == s.firstPending && |s'.groups| <= |s'.out|
    requires s'.out[..s.firstPending] == s.out[..s.firstPending]
    ensures Tracks(s', gone, Logged(committed, b), popped, pointers, released)
  {
    hide Flat, Enqueue;
    EnqueueFlat(s.groups, merge, b);
    EnqueueFront(gone, s.groups, merge, b, s.firstPending);
    FlatConcat(gone, s.groups);
    FlatConcat(gone, s'.groups);
    LoggedBehind(Flat(gone), Flat(s.groups), b);
    forall i | 0 <= i < |pointers|
      ensures pointers[i] == (s'.out[i].place, s'.out[i].length)
    {
      assert s.out[i] == s.out[..s.firstPending][i] == s'.out[..s.firstPending][i];
    }
  }

  lemma TracksPop<T>(s: State<T>, gone: seq<seq<seq<T>>>, committed: seq<seq<T>>, popped: seq<seq<T>>,
                     pointers: seq<(Place, nat)>, released: seq<seq<T>>)
    requires Tracks(s, gone, committed, popped, pointers, released) && s.firstPending < |s.groups|
    ensures var b := s.out[s.firstPending];
            Tracks(Popped(s), gone, committed, popped + [Flat(s.groups[s.firstPending])], pointers + [(b.place, b.length)], released)
  {
  }

  lemma TracksRelease<T>(s: State<T>, s': State<T>, gone: seq<seq<seq<T>>>, committed: seq<seq<T>>, popped: seq<seq<T>>,
                         pointers: seq<(Place, nat)>, released: seq<seq<T>>)
    requires Tracks(s, gone, committed, popped, pointers, released) && s.firstPending > 0
    requires s'.out == s.out[1..] && s'.groups == s.groups[1..] && s'.firstPending == s.firstPending - 1
    ensures Tracks(s', gone + [s.groups[0]], committed, popped, pointers[1..], released + [Flat(s.groups[0])])
  {
    assert gone + [s.groups[0]] + s'.groups == gone + s.groups;
    assert (gone + s.groups)[|gone|] == s.groups[0];
    assert popped[..|gone| + 1] == popped[..|gone|] + [popped[|gone|]];
  }

  // Concatenating the popped buffers gives the concatenation of the committed blocks.
  lemma {:induction false} FlatGroups<T>(groups: seq<seq<seq<T>>>, popped: seq<seq<T>>)
    requires |popped| == |groups| && forall i :: 0 <= i < |popped| ==> popped[i] == Flat(groups[i])
    ensures Flat(popped) == Flat(Flat(groups))
  {
    if groups != [] {
      var n := |groups| - 1;
      FlatGroups(groups[..n], popped[..n]);
      FlatConcat(Flat(groups[..n]), groups[n]);
    }
  }

  // Runs any sequence of calls, skipping those that are not legal when their
  // turn comes, and finally drains the queue. `popped` logs the bytes of each
  // buffer when it was popped; `released` logs the bytes found behind that same
  // pointer when the buffer was about to be released.
  method Run<T(0)>(staticSize: nat, ops: seq<Op<T>>)
    returns (popped: seq<seq<T>>, released: seq<seq<T>>, ghost groups: seq<seq<seq<T>>>)
    requires staticSize > 0
    ensures Flat(groups) == Accounts(ops).log && |popped| == |groups|
    ensures forall i :: 0 <= i < |popped| ==> popped[i] == Flat(groups[i])
    ensures Flat(popped) == Flat(Accounts(ops).log)
    ensures released == popped
  {
    hide State.Good, RingSpot, Room, InRing, InHeap, Closes, Frees, State.OpenBytes, Tracks, Flat, Agrees, Book;
    var q := new WriteBuffQueue<T>(staticSize);
    popped, released := [], [];
    var pointers := [];
    ghost var gone: seq<seq<seq<T>>> := [];
    TracksNew(q.View());
    AgreesNew(q.View());
    for i := 0 to |ops|
      invariant q.Valid() && fresh(q) && fresh(q.ring)
      invariant Agrees(q.View(), Accounts(ops[..i]))
      invariant Tracks(q.View(), gone, Accounts(ops[..i]).log, popped, pointers, released)
    {
      assert ops[..i + 1][..i] == ops[..i];
      if Legal(q, ops[i]) {
        popped, released, pointers, gone := Step(q, ops[i], Accounts(ops[..i]), popped, released, pointers, gone);
      } else {
        IllegalIsNotBooked(q, ops[i], Accounts(ops[..i]));
      }
    }
    assert ops[..|ops|] == ops;
    popped, released, pointers, gone := Drain(q, Accounts(ops), popped, released, pointers, gone);
    groups := gone;
    FlatGroups(groups, popped);
  }

  // Between Allocate and Commit, Pop hands out any block on a queue with nothing
  // else pending.
  method PopUncommitted<T(0)>(staticSize: nat, block: seq<T>) returns (handed: seq<T>, ghost committed: seq<seq<seq<T>>>)
    requires staticSize > 0 && 0 < |block| <= MAX_LENGTH
    ensures handed == block && committed == []
  {
    hide State.Good, RingSpot, Room, InRing, InHeap, Closes, Frees, State.OpenBytes;
    var q := new WriteBuffQueue<T>(staticSize);
    var place := q.Allocate(|block|);
    SpliceAll(q.View().OpenBytes(), block);
    q.Store(0, block);
    GoodFacts(q.View());
    OpenAlone(q.View());
    var r := q.Pop();
    handed, committed := q.Read(r.value.0, r.value.1), q.groups;
  }

  lemma OpenAlone<T>(s: State<T>)
    requires s.Good() && s.Open() && s.groups == []
    ensures |s.out| == 1 && s.firstPending == 0 && s.lastAlloc == s.out[0].length
  {
    hide Laid, Owned, Stored;
  }

  lemma AgreesNew<T>(s: State<T>)
    requires s.out == []
    ensures Agrees(s, Account(None, []))
  {
  }

  lemma IllegalIsNotBooked<T(0)>(q: WriteBuffQueue<T>, op: Op<T>, a: Account<T>)
    requires !Legal(q, op) && Agrees(q.View(), a)
    ensures Book(a, op) == a
  {
  }

  method Step<T(0)>(q: WriteBuffQueue<T>, op: Op<T>, ghost a: Account<T>, popped: seq<seq<T>>, released: seq<seq<T>>,
                    pointers: seq<(Place, nat)>, ghost gone: seq<seq<seq<T>>>)
    returns (popped': seq<seq<T>>, released': seq<seq<T>>, pointers': seq<(Place, nat)>, ghost gone': seq<seq<seq<T>>>)
    requires q.Valid() && Legal(q, op) && Agrees(q.View(), a)
    requires Tracks(q.View(), gone, a.log, popped, pointers, released)
    modifies q, q.ring
    ensures q.Valid() && Agrees(q.View(), Book(a, op))
    ensures Tracks(q.View(), gone', Book(a, op).log, popped', pointers', released')
    ensures op.ReleaseOp? && pointers != [] ==> |pointers'| < |pointers| && |q.groups| < old(|q.groups|)
    ensures op.PopOp? && old(q.firstPending < |q.out|) ==> |pointers'| > |pointers| && q.groups == old(q.groups)
  {
    hide State.Good, RingSpot, Room, InRing, InHeap, Closes, Frees, State.OpenBytes, Tracks, Flat, Enqueue, Splice;
    popped', released', pointers', gone' := popped, released, pointers, gone;
    ghost var s := q.View();
    GoodFacts(s);
    TracksPointers(s, gone, a.log, popped, pointers, released);
    match op
    case PopOp =>
      var r := q.Pop();
      if r.Some? {
        popped' := popped + [q.Read(r.value.0, r.value.1)];
        pointers' := pointers + [r.value];
        TracksPop(s, gone, a.log, popped, pointers, released);
      }
    case ReleaseOp =>
      if pointers != [] {
        InFlight(s, 0);
        released' := released + [q.Read(pointers[0].0, pointers[0].1)];
        pointers' := pointers[1..];
        gone' := gone + [q.groups[0]];
      }
      q.Release();
      if pointers != [] {
        TracksRelease(s, q.View(), gone, a.log, popped, pointers, released);
      }
    case _ =>
      Feed(q, op, a, popped, released, pointers, gone);
  }

  // The calls of the writing side.
  method Feed<T(0)>(q: WriteBuffQueue<T>, op: Op<T>, ghost a: Account<T>, ghost popped: seq<seq<T>>, ghost released: seq<seq<T>>,
                    ghost pointers: seq<(Place, nat)>, ghost gone: seq<seq<seq<T>>>)
    requires q.Valid() && Legal(q, op) && Agrees(q.View(), a) && !op.PopOp? && !op.ReleaseOp?
    requires Tracks(q.View(), gone, a.log, popped, pointers, released)
    modifies q, q.ring
    ensures q.Valid() && Agrees(q.View(), Book(a, op))
    ensures Tracks(q.View(), gone, Book(a, op).log, popped, pointers, released)
  {
    hide State.Good, RingSpot, Room, InRing, InHeap, Closes, Frees, State.OpenBytes, Tracks, Flat, Enqueue, Splice;
    ghost var s := q.View();
    GoodFacts(s);
    match op
    case AllocateOp(data) =>
      var r := q.Allocate(|data|);
      if |data| > 0 {
        SpliceAll(q.View().OpenBytes(), data);
        q.Store(0, data);
      }
      GoodFacts(q.View());
      TracksSame(s, q.View(), gone, a.log, popped, pointers, released);
    case StoreOp(offset, data) =>
      q.Store(offset, data);
      TracksSame(s, q.View(), gone, a.log, popped, pointers, released);
    case CommitOp(n) =>
      q.Commit(n);
      MergeAt(s);
      if s.Open() {
        TracksCommit(s, q.View(), gone, a.log, popped, pointers, released, s.Merging(),
                     a.open.value[..if n < s.lastAlloc then n else s.lastAlloc]);
      }
    case PushOp(data) =>
      q.Push(data);
      ghost var merge :| (merge ==> s.firstPending < |s.groups|) && q.groups == Enqueue(s.groups, merge, data);
      TracksCommit(s, q.View(), gone, a.log, popped, pointers, released, merge, data);
  }

  // Drops the open block, if any, and pops and releases until nothing is left.
  method Drain<T(0)>(q: WriteBuffQueue<T>, ghost a: Account<T>, popped: seq<seq<T>>, released: seq<seq<T>>,
                     pointers: seq<(Place, nat)>, ghost gone: seq<seq<seq<T>>>)
    returns (popped': seq<seq<T>>, released': seq<seq<T>>, pointers': seq<(Place, nat)>, ghost gone': seq<seq<seq<T>>>)
    requires q.Valid() && Agrees(q.View(), a)
    requires Tracks(q.View(), gone, a.log, popped, pointers, released)
    modifies q, q.ring
    ensures q.Valid() && q.out == []
    ensures Flat(gone') == a.log && |popped'| == |gone'| && released' == popped'
    ensures forall i :: 0 <= i < |popped'| ==> popped'[i] == Flat(gone'[i])
  {
    hide State.Good, RingSpot, Room, InRing, InHeap, Closes, Frees, State.OpenBytes, Tracks, Flat, Enqueue, Splice;
    popped', released', pointers', gone' := popped, released, pointers, gone;
    popped', released', pointers', gone' := Step(q, CommitOp(0), a, popped', released', pointers', gone');
    ghost var closed := Book(a, CommitOp(0));
    assert closed.log == a.log;
    while q.out != []
      invariant q.Valid() && Agrees(q.View(), closed)
      invariant Tracks(q.View(), gone', a.log, popped', pointers', released')
      decreases |q.groups|, |q.groups| - |pointers'|
    {
      GoodFacts(q.View());
      TracksPointers(q.View(), gone', a.log, popped', pointers', released');
      if pointers' == [] {
        ClosedIsPending(q.View());
        popped', released', pointers', gone' := Step(q, PopOp, closed, popped', released', pointers', gone');
        GoodFacts(q.View());
        TracksPointers(q.View(), gone', a.log, popped', pointers', released');
      } else {
        popped', released', pointers', gone' := Step(q, ReleaseOp, closed, popped', released', pointers', gone');
      }
    }
    GoodFacts(q.View());
    TracksEnd(q.View(), gone', a.log, popped', pointers', released');
    TracksPointers(q.View(), gone', a.log, popped', pointers', released');
    assert gone' + q.groups == gone';
  }

  lemma ClosedIsPending<T>(s: State<T>)
    requires s.Good() && !s.Open() && s.firstPending < |s.out|
    ensures s.out[s.firstPending].state == Pending
  {
    hide Laid, Owned, Stored;
  }
}

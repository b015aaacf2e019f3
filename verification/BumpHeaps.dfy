/** `malloc`, `calloc` and `realloc` of the C library: a heap that only grows. */
module BumpHeaps {
  import opened Arithmetic
  import opened ByteRoutines
  import opened Words

  datatype Pointer = Null | At(offset: nat)

  datatype Chunk = Chunk(start: nat, size: nat) {
    function End(): nat { start + size }
  }

  /** Bytes in a list of chunks. */
  function Total(cs: seq<Chunk>): nat {
    if cs == [] then 0 else Total(cs[..|cs| - 1]) + cs[|cs| - 1].size
  }

  /** A wrapped product is the true one exactly when the true one fits a word. */
  lemma Mul32Exact(a: Word, b: Word)
    ensures Mul32(a, b) == a * b <==> a * b < MODULUS
  {
  }

  class BumpHeap {
    const heap: array<Byte>
    var heapUsed: Word
    // Every chunk handed out, oldest first. `free` does nothing, so a chunk is never reused.
    ghost var chunks: seq<Chunk>

    /** Chunks are disjoint, in bounds and account for every byte used; every other byte is still zero. */
    ghost predicate Valid()
      reads this, heap
    {
      && heapUsed <= heap.Length < MODULUS
      && heapUsed == Total(chunks)
      && (forall i :: 0 <= i < |chunks| ==> chunks[i].size > 0 && chunks[i].End() <= heapUsed)
      && (forall i, j :: 0 <= i < j < |chunks| ==> chunks[i].End() <= chunks[j].start)
      && (forall x :: heapUsed <= x < heap.Length ==> heap[x] == 0)
    }

    /** The 32-bit sum in `malloc`'s bound check wraps round to something that passes the check. */
    predicate Wraps(size: Word)
      reads this
    {
      heapUsed + size >= MODULUS && heapUsed + size - MODULUS <= heap.Length
    }

    /** There is no room for `size` bytes. */
    predicate Full(size: Word)
      reads this
    {
      heapUsed + size > heap.Length
    }

    constructor (capacity: nat)
      requires capacity < MODULUS
      ensures Valid() && heap.Length == capacity && chunks == [] && fresh(heap)
    {
      heap := new Byte[capacity](_ => 0);
      heapUsed := 0;
      chunks := [];
    }

    /** What every call keeps, even after a wrapped one. */
    predicate Bounded()
      reads this
    {
      heapUsed <= heap.Length < MODULUS
    }

    /** A wrapped sum is the only way to break the heap, and it always does. */
    method Malloc(size: Word) returns (ptr: Pointer)
      requires Bounded()
      modifies this`heapUsed, this`chunks
      ensures Bounded()
      ensures ptr == Null <==> size == 0 || Add32(old(heapUsed), size) > heap.Length
      ensures ptr == Null ==> heapUsed == old(heapUsed) && chunks == old(chunks)
      ensures ptr != Null ==>
        && ptr == At(old(heapUsed)) && chunks == old(chunks) + [Chunk(ptr.offset, size)]
        && heapUsed == Add32(old(heapUsed), size)
      ensures !old(Wraps(size)) ==> (ptr == Null <==> size == 0 || old(Full(size)))
      ensures old(Valid()) ==> (Valid() <==> !old(Wraps(size)))
    {
      if size == 0 { return Null; }
      if Add32(heapUsed, size) > heap.Length { return Null; }
      ptr := At(heapUsed);
      ghost var c := Chunk(heapUsed, size);
      heapUsed := Add32(heapUsed, size);
      chunks := chunks + [c];
      assert chunks[..|chunks| - 1] == old(chunks);
      assert chunks[|chunks| - 1].End() == old(heapUsed) + size;
    }

    /** The block is zero; it has `count * size` bytes exactly when that product fits a word. `overrun` reports that the
        fill reaches the end of the heap before it is done, which happens exactly when the bound check wraps; the model
        stops there. */
    method Calloc(count: Word, size: Word) returns (ptr: Pointer, overrun: bool)
      requires Valid()
      modifies this`heapUsed, this`chunks, heap
      ensures overrun <==> old(Wraps(Mul32(count, size)))
      ensures Valid() <==> !overrun
      ensures heap[..] == old(heap[..])
      ensures ptr == Null <==> !overrun && (Mul32(count, size) == 0 || old(Full(Mul32(count, size))))
      ensures ptr == Null ==> chunks == old(chunks)
      ensures ptr != Null ==>
        && ptr == At(old(heapUsed)) && chunks == old(chunks) + [Chunk(ptr.offset, Mul32(count, size))]
        && (chunks[|chunks| - 1].size == count * size <==> count * size < MODULUS)
      ensures ptr != Null && !overrun ==>
        forall x :: ptr.offset <= x < ptr.offset + Mul32(count, size) ==> heap[x] == 0
    {
      var total := Mul32(count, size);
      Mul32Exact(count, size);
      overrun := false;
      ptr := Malloc(total);
      if ptr != Null {
        var room := heap.Length - ptr.offset;
        overrun := room < total;
        Memset(heap, ptr.offset, 0, Min(total, room));
      }
      assert heap[..] == old(heap[..]);
    }

    /** Keeps the first min(old size, size) bytes and disturbs nothing below the new block, although the copy may
        run on past the old block into the bytes it is writing. `overrun` reports that the copy reaches the end of the
        heap before it is done, which happens exactly when the bound check wraps; the model stops there. */
    method Realloc(ptr: Pointer, size: Word, ghost i: nat) returns (newPtr: Pointer, overrun: bool)
      requires Valid()
      requires ptr != Null ==> i < |chunks| && chunks[i].start == ptr.offset
      modifies this`heapUsed, this`chunks, heap
      ensures overrun <==> ptr != Null && old(Wraps(size))
      ensures Valid() <==> !old(Wraps(size))
      ensures newPtr == Null <==> size == 0 || Add32(old(heapUsed), size) > heap.Length
      ensures newPtr == Null ==> chunks == old(chunks) && heap[..] == old(heap[..])
      ensures newPtr != Null ==>
        && newPtr == At(old(heapUsed)) && chunks == old(chunks) + [Chunk(newPtr.offset, size)]
        && heap[..newPtr.offset] == old(heap[..heapUsed])
      ensures newPtr != Null && ptr != Null && !overrun ==>
        && (forall x :: newPtr.offset <= x < newPtr.offset + Min(size, chunks[i].size) ==>
              heap[x] == old(heap[ptr.offset + (x - newPtr.offset)]))
        && (forall k :: 0 <= k < size ==>
              heap[newPtr.offset + k] == old(heap[Origin(newPtr.offset, ptr.offset, k)]))
    {
      overrun := false;
      if ptr == Null {
        newPtr := Malloc(size);
        return;
      }
      if size == 0 { return Null, false; }
      newPtr := Malloc(size);
      if newPtr != Null {
        assert chunks[i] == old(chunks[i]);
        overrun := CopyToLast(newPtr.offset, ptr.offset, size, i);
      }
    }

    /** `realloc`'s copy from chunk `i` into the newest chunk, up to the end of the heap. */
    method CopyToLast(d: nat, s: nat, size: nat, ghost i: nat) returns (overrun: bool)
      requires |chunks| > 0 && i < |chunks| - 1 && chunks[i].start == s && chunks[i].End() <= d <= heap.Length
      requires chunks[|chunks| - 1] == Chunk(d, size)
      requires if d + size <= heap.Length then Valid() && d + size == heapUsed else !Valid()
      modifies heap
      ensures overrun <==> d + size > heap.Length
      ensures Valid() <==> !overrun
      ensures heap[..d] == old(heap[..d])
      ensures !overrun ==> forall x :: d <= x < d + Min(size, chunks[i].size) ==> heap[x] == old(heap[s + (x - d)])
      ensures !overrun ==> forall k :: 0 <= k < size ==> heap[d + k] == old(heap[Origin(d, s, k)])
    {
      var room := heap.Length - d;
      overrun := room < size;
      Memcpy(heap, d, s, Min(size, room));
      if overrun {
        assert chunks[|chunks| - 1].End() > heap.Length;
      } else {
        forall x | d <= x < d + Min(size, chunks[i].size) ensures heap[x] == old(heap[s + (x - d)]) {
          OriginBeforeOverlap(d, s, x - d);
          assert heap[d + (x - d)] == old(heap[Origin(d, s, x - d)]);
        }
      }
    }

    /** A client stores into a chunk it was given. */
    method ClientWrite(ghost i: nat, x: nat, b: Byte)
      requires Valid() && i < |chunks| && chunks[i].start <= x < chunks[i].End()
      modifies heap
      ensures Valid()
      ensures heap[..] == old(heap[..])[x := b]
      ensures forall j, y :: 0 <= j < |chunks| && j != i && chunks[j].start <= y < chunks[j].End() ==>
                heap[y] == old(heap[y])
    {
      heap[x] := b;
    }
  }

  /** Three requests that break the heap: the second wraps the counter to 0, and the third is given the byte of the
      first again. */
  method WrapHandsOutTwice(capacity: nat) returns (h: BumpHeap, first: Pointer, again: Pointer)
    requires 0 < capacity < MODULUS
    ensures first == again == At(0)
    ensures !h.Valid() && h.chunks == [Chunk(0, 1), Chunk(1, 0xFFFF_FFFF), Chunk(0, 1)]
  {
    h := new BumpHeap(capacity);
    first := h.Malloc(1);
    var wrapped := h.Malloc(0xFFFF_FFFF);
    again := h.Malloc(1);
    assert h.chunks[2].start < h.chunks[0].End();
  }
}

/** `kmalloc` and `kfree` over block headers stored in memory and linked by address. */
module KernelHeaps {
  import opened BlockList

  const NULL: nat := 0

  /** A block header: `struct mem_block`. */
  datatype Header = Header(size: nat, free: bool, next: nat, prev: nat)

  /** Address of block `i`, or NULL past either end of the list. */
  function AddrOf(bs: seq<Block>, i: int): nat {
    if 0 <= i < |bs| then bs[i].addr else NULL
  }

  /** The header block `i` must have: `next` and `prev` are inverse walks over the list. */
  function HeaderOf(bs: seq<Block>, i: nat): Header
    requires i < |bs|
  {
    Header(bs[i].size, bs[i].free, AddrOf(bs, i + 1), AddrOf(bs, i - 1))
  }

  ghost predicate LinkedAt(m: seq<Header>, bs: seq<Block>, i: nat)
    requires i < |bs|
  {
    bs[i].addr < |m| && m[bs[i].addr] == HeaderOf(bs, i)
  }

  ghost predicate Links(m: seq<Header>, bs: seq<Block>) {
    forall i :: 0 <= i < |bs| ==> LinkedAt(m, bs, i)
  }

  /** `m'` differs from `m` at most at the addresses of blocks `i` and `k`. */
  ghost predicate OnlyAt(m: seq<Header>, m': seq<Header>, bs: seq<Block>, i: nat, k: nat) {
    |m'| == |m| && forall a :: 0 <= a < |m| && a != AddrOf(bs, i) && a != AddrOf(bs, k) ==> m'[a] == m[a]
  }

  /** The header stored at address `a` is `h`. */
  ghost predicate Stored(m: seq<Header>, a: nat, h: Header) {
    a < |m| && m[a] == h
  }

  /** The pointer surgery of coalescing: the header of `i` absorbs that of `i + 1`, and `i + 2` points back to `i`. */
  lemma MergeLinks(m: seq<Header>, m': seq<Header>, bs: seq<Block>, lo: nat, hi: nat, i: nat)
    requires NULL < lo && Tiles(bs, lo, hi) && Links(m, bs) && i + 1 < |bs|
    requires OnlyAt(m, m', bs, i, i + 2)
    requires Stored(m', bs[i].addr,
                    Header(bs[i].size + bs[i + 1].size, bs[i].free, AddrOf(bs, i + 2), AddrOf(bs, i - 1)))
    requires i + 2 < |bs| ==> Stored(m', bs[i + 2].addr, HeaderOf(bs, i + 2).(prev := bs[i].addr))
    ensures Links(m', MergeAt(bs, i))
  {
    var r := MergeAt(bs, i);
    forall j | 0 <= j < |r| ensures LinkedAt(m', r, j) {
      var k := if j <= i then j else j + 1;
      assert LinkedAt(m, bs, k);
      Unchanged(m, m', bs, lo, hi, i, i + 2, k);
      MergeLinkedAt(m', bs, i, j);
    }
  }

  lemma MergeLinkedAt(m': seq<Header>, bs: seq<Block>, i: nat, j: nat)
    requires i + 1 < |bs| && j < |bs| - 1
    requires var k := if j <= i then j else j + 1;
             k != i && k != i + 2 ==> LinkedAt(m', bs, k)
    requires Stored(m', bs[i].addr,
                    Header(bs[i].size + bs[i + 1].size, bs[i].free, AddrOf(bs, i + 2), AddrOf(bs, i - 1)))
    requires i + 2 < |bs| ==> Stored(m', bs[i + 2].addr, HeaderOf(bs, i + 2).(prev := bs[i].addr))
    ensures LinkedAt(m', MergeAt(bs, i), j)
  {
    var r := MergeAt(bs, i);
    assert AddrOf(r, j + 1) == if j < i then AddrOf(bs, j + 1) else AddrOf(bs, j + 2);
    assert AddrOf(r, j - 1) == if j <= i + 1 then AddrOf(bs, j - 1) else AddrOf(bs, j);
  }

  /** A header of the list that is neither of the two written keeps its contents. */
  lemma Unchanged(m: seq<Header>, m': seq<Header>, bs: seq<Block>, lo: nat, hi: nat, i: nat, l: nat, k: nat)
    requires NULL < lo && Tiles(bs, lo, hi) && OnlyAt(m, m', bs, i, l)
    requires i < |bs| && k < |bs| && LinkedAt(m, bs, k)
    ensures k != i && k != l ==> LinkedAt(m', bs, k)
  {
    if k != i && k != l {
      AddressesDiffer(bs, lo, hi, k, i);
      if l < |bs| { AddressesDiffer(bs, lo, hi, k, l); }
    }
  }

  lemma Inside(bs: seq<Block>, lo: nat, hi: nat, i: nat)
    requires Tiles(bs, lo, hi) && i < |bs|
    ensures lo <= bs[i].addr && bs[i].End() <= hi
  {
    InOrder(bs, lo, hi);
  }

  lemma AddressesDiffer(bs: seq<Block>, lo: nat, hi: nat, j: nat, k: nat)
    requires NULL < lo && Tiles(bs, lo, hi) && j < |bs| && k < |bs| && j != k
    ensures NULL < bs[j].addr != bs[k].addr
  {
    EarlierEndsBefore(bs, lo, hi, if j < k then j else k, if j < k then k else j);
    if j > 0 { EarlierEndsBefore(bs, lo, hi, 0, j); }
  }

  /** A block and its neighbours are linked, at addresses that differ. */
  lemma Neighbours(m: seq<Header>, bs: seq<Block>, lo: nat, hi: nat, i: nat)
    requires NULL < lo && Tiles(bs, lo, hi) && Links(m, bs) && i < |bs|
    ensures LinkedAt(m, bs, i)
    ensures i > 0 ==> LinkedAt(m, bs, i - 1) && NULL < bs[i - 1].addr != bs[i].addr
    ensures i + 1 < |bs| ==> LinkedAt(m, bs, i + 1) && NULL < bs[i + 1].addr != bs[i].addr
    ensures 0 < i < |bs| - 1 ==> bs[i + 1].addr != bs[i - 1].addr
  {
    if i > 0 { AddressesDiffer(bs, lo, hi, i - 1, i); }
    if i + 1 < |bs| {
      AddressesDiffer(bs, lo, hi, i + 1, i);
      if i > 0 { AddressesDiffer(bs, lo, hi, i + 1, i - 1); }
    }
  }

  /** The pointer surgery of splitting: a new header inside block `i`, linked between `i` and `i + 1`. */
  lemma SplitLinks(m: seq<Header>, m': seq<Header>, bs: seq<Block>, lo: nat, hi: nat, i: nat, need: nat)
    requires NULL < lo && Tiles(bs, lo, hi) && Links(m, bs) && i < |bs| && hi <= |m| == |m'|
    requires need > 0 && bs[i].size >= need + HDR + 16
    requires forall a :: 0 <= a < |m| && a != bs[i].addr && a != bs[i].addr + need && a != AddrOf(bs, i + 1)
               ==> m'[a] == m[a]
    requires Stored(m', bs[i].addr, Header(need, false, bs[i].addr + need, AddrOf(bs, i - 1)))
    requires Stored(m', bs[i].addr + need, Header(bs[i].size - need, true, AddrOf(bs, i + 1), bs[i].addr))
    requires i + 1 < |bs| ==> Stored(m', bs[i + 1].addr, HeaderOf(bs, i + 1).(prev := bs[i].addr + need))
    ensures Links(m', AllocAt(bs, i, need))
  {
    var r := AllocAt(bs, i, need);
    forall j | 0 <= j < |r| ensures LinkedAt(m', r, j) {
      var k := if j <= i then j else j - 1;
      assert LinkedAt(m, bs, k);
      if k != i {
        AddressesDiffer(bs, lo, hi, k, i);
        NotInside(bs, lo, hi, i, k, need);
        if i + 1 < |bs| && k != i + 1 { AddressesDiffer(bs, lo, hi, k, i + 1); }
      }
      SplitLinkedAt(m', bs, i, need, j);
    }
  }

  lemma NotInside(bs: seq<Block>, lo: nat, hi: nat, i: nat, k: nat, d: nat)
    requires Tiles(bs, lo, hi) && i < |bs| && k < |bs| && k != i && d < bs[i].size
    ensures bs[k].addr != bs[i].addr + d
  {
    EarlierEndsBefore(bs, lo, hi, if k < i then k else i, if k < i then i else k);
  }

  lemma SplitLinkedAt(m': seq<Header>, bs: seq<Block>, i: nat, need: nat, j: nat)
    requires i < |bs| && bs[i].size >= need + HDR + 16 && j <= |bs|
    requires var k := if j <= i then j else j - 1;
             k != i && k != i + 1 ==> LinkedAt(m', bs, k)
    requires Stored(m', bs[i].addr, Header(need, false, bs[i].addr + need, AddrOf(bs, i - 1)))
    requires Stored(m', bs[i].addr + need, Header(bs[i].size - need, true, AddrOf(bs, i + 1), bs[i].addr))
    requires i + 1 < |bs| ==> Stored(m', bs[i + 1].addr, HeaderOf(bs, i + 1).(prev := bs[i].addr + need))
    ensures LinkedAt(m', AllocAt(bs, i, need), j)
  {
    SplitAddresses(bs, i, need, j);
  }

  lemma SplitAddresses(bs: seq<Block>, i: nat, need: nat, j: nat)
    requires i < |bs| && bs[i].size >= need + HDR + 16 && j <= |bs|
    ensures var r, middle := AllocAt(bs, i, need), bs[i].addr + need;
            && AddrOf(r, j + 1) == (if j < i then AddrOf(bs, j + 1) else if j == i then middle else AddrOf(bs, j))
            && AddrOf(r, j - 1) == (if j <= i + 1 then AddrOf(bs, j - 1)
                                    else if j == i + 2 then middle else AddrOf(bs, j - 2))
            && (j != i && j != i + 1 ==> r[j] == bs[if j < i then j else j - 1])
  {
  }

  /** Changing the `free` flag of one header changes nothing else. */
  lemma FlagLinks(m: seq<Header>, bs: seq<Block>, lo: nat, hi: nat, i: nat, free: bool)
    requires Tiles(bs, lo, hi) && Links(m, bs) && i < |bs| && bs[i].addr < |m|
    ensures var a := bs[i].addr; Links(m[a := m[a].(free := free)], bs[i := bs[i].(free := free)])
  {
    InOrder(bs, lo, hi);
    var a := bs[i].addr;
    var m', r := m[a := m[a].(free := free)], bs[i := bs[i].(free := free)];
    forall j | 0 <= j < |r| ensures LinkedAt(m', r, j) {
      assert LinkedAt(m, bs, j);
    }
  }

  class KernelHeap {
    const lo: nat  // HEAP_START
    const hi: nat  // HEAP_END
    // Flat physical memory, seen as the header stored at each address.
    const mem: array<Header>
    var heapStart: nat
    ghost var blocks: seq<Block>

    ghost predicate Valid()
      reads this, mem
    {
      && NULL < lo < hi <= mem.Length
      && heapStart == lo
      && Heap(blocks, lo, hi)
      && Links(mem[..], blocks)
    }

    /** `memory_init`: one free block spans the whole range. */
    constructor (lo: nat, hi: nat, mem: array<Header>)
      requires NULL < lo < hi <= mem.Length && (hi - lo) % 16 == 0
      modifies mem
      ensures this.lo == lo && this.hi == hi && this.mem == mem
      ensures Valid() && blocks == Fresh(lo, hi).bs && Used(blocks) == {}
      ensures mem[lo] == Header(hi - lo, true, NULL, NULL)
    {
      this.lo, this.hi, this.mem := lo, hi, mem;
      heapStart := lo;
      blocks := Fresh(lo, hi).bs;
      new;
      mem[lo] := Header(hi - lo, true, NULL, NULL);
    }

    /** Returns NULL exactly when nothing was asked for or no free block is large enough; otherwise gives out the
        lowest-address free block that is, and every other block stays as it was. */
    method Kmalloc(n: nat) returns (ptr: nat)
      requires Valid() && n <= 0xFFFF_FFF0  // the last size that rounds up within a word
      modifies this`blocks, mem
      ensures Valid()
      ensures ptr == NULL <==> n == 0 || forall b :: b in old(blocks) && b.free ==> b.size < AlignUp(n)
      ensures ptr == NULL ==> blocks == old(blocks) && mem[..] == old(mem[..])
      ensures ptr != NULL ==>
        var i := FirstFit(old(blocks), AlignUp(n));
        && i < |old(blocks)| && ptr == old(blocks)[i].addr + 16
        && old(blocks)[i].free && old(blocks)[i].size >= AlignUp(n)
        && (forall j :: 0 <= j < i && old(blocks)[j].free ==> old(blocks)[j].size < AlignUp(n))
        && blocks == AllocAt(old(blocks), i, AlignUp(n))
        && Used(blocks) == Used(old(blocks)) + {blocks[i]}
        && AlignUp(n) <= blocks[i].size < AlignUp(n) + HDR + 16
      ensures MachineOf(blocks) == Step(MachineOf(old(blocks)), Malloc(n))
    {
      MallocStep(blocks, lo, hi, n);
      FirstFitFits(blocks, AlignUp(n));
      if n == 0 { return NULL; }
      var size := AlignUp(n);
      var current := heapStart;
      ghost var i := 0;
      InOrder(blocks, lo, hi);
      while current != NULL
        invariant i <= |blocks| && current == AddrOf(blocks, i)
        invariant forall j :: 0 <= j < i ==> !Fits(blocks[j], size)
        decreases |blocks| - i
      {
        assert LinkedAt(mem[..], blocks, i);
        if mem[current].free && mem[current].size >= size {
          assert i == FirstFit(blocks, size);
          GiveOut(current, size, i);
          return current + HDR;
        }
        i := i + 1;
        current := mem[current].next;
      }
      return NULL;
    }

    /** The body of the search loop once a block fits: split if the rest is worth it, mark in use. */
    method GiveOut(current: nat, size: nat, ghost i: nat)
      requires Valid()
      requires i < |blocks| && current == blocks[i].addr && Fits(blocks[i], size)
      requires size > 0 && size % 16 == 0
      modifies this`blocks, mem
      ensures Valid()
      ensures blocks == AllocAt(old(blocks), i, size)
      ensures Used(blocks) == Used(old(blocks)) + {blocks[i]}
      ensures size <= blocks[i].size < size + HDR + 16
    {
      Inside(blocks, lo, hi, i);
      assert i + 1 < |blocks| ==> Meets(blocks, i);
      AllocKeepsHeap(blocks, lo, hi, i, size);
      AllocUses(blocks, lo, hi, i, size);
      ghost var m := mem[..];
      assert LinkedAt(m, blocks, i);
      assert i + 1 < |blocks| ==> LinkedAt(m, blocks, i + 1);
      if mem[current].size >= size + HDR + 16 {
        var newBlock := current + size;
        mem[newBlock] := Header(mem[current].size - size, true, mem[current].next, current);
        if mem[current].next != NULL {
          mem[mem[current].next] := mem[mem[current].next].(prev := newBlock);
        }
        mem[current] := mem[current].(next := newBlock);
        mem[current] := mem[current].(size := size);
      }
      mem[current] := mem[current].(free := false);
      if blocks[i].size >= size + HDR + 16 {
        SplitLinks(m, mem[..], blocks, lo, hi, i, size);
      } else {
        FlagLinks(m, blocks, lo, hi, i, false);
      }
      blocks := AllocAt(blocks, i, size);
    }

    /** `ptr` is a pointer `Kmalloc` returned and that has not been freed since. */
    ghost predicate Live(ptr: nat)
      reads this
    {
      exists b :: b in Used(blocks) && ptr == b.addr + HDR
    }

    /** Takes exactly the block of `ptr` out of use; by `Canonical` that fixes the whole block list. */
    method Kfree(ptr: nat)
      requires Valid() && (ptr != NULL ==> Live(ptr))
      modifies this`blocks, mem
      ensures Valid()
      ensures ptr == NULL ==> blocks == old(blocks) && mem[..] == old(mem[..])
      ensures ptr != NULL ==>
        var i := BlockOf(old(blocks), ptr);
        && i < |old(blocks)|
        && blocks == FreeAt(old(blocks), i)
        && Used(blocks) == Used(old(blocks)) - {old(blocks)[i]}
      ensures MachineOf(blocks) == Step(MachineOf(old(blocks)), Free(ptr))
    {
      ghost var bs := blocks;
      if ptr == NULL { return; }
      ghost var i := BlockOf(blocks, ptr);
      FreeKeepsHeap(blocks, lo, hi, i);
      ForwardHalf(blocks, lo, hi, i);
      var block := ptr - HDR;
      CoalesceForward(block, i);
      CoalesceBackward(block, i);
      assert blocks == FreeAt(bs, i);
      FreeStep(bs, lo, hi, ptr);
    }

    /** The first half of `kfree`: mark the block free and absorb a free successor. */
    method CoalesceForward(block: nat, ghost i: nat)
      requires Valid() && i < |blocks| && block == blocks[i].addr && !blocks[i].free
      modifies this`blocks, mem
      ensures blocks == ReleaseForward(old(blocks), i)
      ensures Links(mem[..], blocks)
    {
      InOrder(blocks, lo, hi);
      FlagLinks(mem[..], blocks, lo, hi, i, true);
      MarkFree(blocks, lo, hi, i);
      mem[block] := mem[block].(free := true);
      blocks := blocks[i := blocks[i].(free := true)];
      ghost var m := mem[..];
      assert LinkedAt(m, blocks, i);
      assert i + 1 < |blocks| ==> LinkedAt(m, blocks, i + 1);
      assert i + 2 < |blocks| ==> LinkedAt(m, blocks, i + 2);
      if mem[block].next != NULL && mem[mem[block].next].free {
        mem[block] := mem[block].(size := mem[block].size + mem[mem[block].next].size);
        mem[block] := mem[block].(next := mem[mem[block].next].next);
        if mem[block].next != NULL {
          mem[mem[block].next] := mem[mem[block].next].(prev := block);
        }
        MergeLinks(m, mem[..], blocks, lo, hi, i);
        blocks := MergeAt(blocks, i);
      }
    }

    /** The second half of `kfree`: a free predecessor absorbs the block. */
    method CoalesceBackward(block: nat, ghost i: nat)
      requires NULL < lo < hi <= mem.Length && Tiles(blocks, lo, hi) && Links(mem[..], blocks)
      requires i < |blocks| && block == blocks[i].addr
      modifies this`blocks, mem
      ensures Links(mem[..], blocks)
      ensures blocks == if i > 0 && old(blocks)[i - 1].free then MergeAt(old(blocks), i - 1) else old(blocks)
    {
      ghost var m := mem[..];
      Neighbours(m, blocks, lo, hi, i);
      var prev := mem[block].prev;
      if prev != NULL && mem[prev].free {
        mem[prev] := mem[prev].(size := mem[prev].size + mem[block].size);
        mem[prev] := mem[prev].(next := mem[block].next);
        if mem[block].next != NULL {
          mem[mem[block].next] := mem[mem[block].next].(prev := prev);
        }
        MergeLinks(m, mem[..], blocks, lo, hi, i - 1);
        blocks := MergeAt(blocks, i - 1);
      }
    }

    /** A client may store anything in the payload of a live block: no header of the list is there. */
    method ClientWrite(ptr: nat, a: nat, h: Header)
      requires Valid() && Live(ptr)
      requires ptr <= a < blocks[BlockOf(blocks, ptr)].End()
      modifies mem
      ensures Valid()
      ensures a < mem.Length && mem[..] == old(mem[..])[a := h]
    {
      InOrder(blocks, lo, hi);
      mem[a] := h;
      forall j | 0 <= j < |blocks| ensures LinkedAt(mem[..], blocks, j) {
        assert LinkedAt(old(mem[..]), blocks, j);
      }
    }
  }

  /** The first request on a new heap is granted exactly when it is not empty and fits the range. */
  method FirstRequest(lo: nat, hi: nat, mem: array<Header>, n: nat) returns (h: KernelHeap, ptr: nat)
    requires NULL < lo < hi <= mem.Length && (hi - lo) % 16 == 0 && n <= 0xFFFF_FFF0
    modifies mem
    ensures h.Valid() && ptr == if 0 < n <= hi - lo then lo + 16 else NULL
    ensures 0 < n <= hi - lo ==> |h.blocks| > 0 && Used(h.blocks) == {h.blocks[0]} && h.blocks[0].addr == lo
  {
    h := new KernelHeap(lo, hi, mem);
    assert h.blocks[0] == Block(lo, hi - lo, true);
    ptr := h.Kmalloc(n);
  }
}

/** The block list of the kernel heap as a value: what first fit, splitting and coalescing do to it. */
module BlockList {

  /** Bytes of a block header: four 32-bit words. */
  const HDR: nat := 16

  datatype Block = Block(addr: nat, size: nat, free: bool) {
    function End(): nat { addr + size }
  }

  // ---------- The heap invariant ----------

  /** Block `i + 1` starts where block `i` ends. */
  predicate Meets(bs: seq<Block>, i: nat)
    requires i + 1 < |bs|
  {
    bs[i + 1].addr == bs[i].End()
  }

  predicate BothFree(bs: seq<Block>, i: nat)
    requires i + 1 < |bs|
  {
    bs[i].free && bs[i + 1].free
  }

  /** The block list covers `[lo, hi)` without gap or overlap; sizes are positive multiples of 16. */
  ghost predicate Tiles(bs: seq<Block>, lo: nat, hi: nat) {
    && (if |bs| == 0 then lo == hi else bs[0].addr == lo && bs[|bs| - 1].End() == hi)
    && (forall i :: 0 <= i < |bs| ==> bs[i].size > 0 && bs[i].size % 16 == 0)
    && (forall i :: 0 <= i < |bs| - 1 ==> Meets(bs, i))
  }

  /** No two neighbours are both free, except possibly the pair that starts at index `except`. */
  ghost predicate Coalesced(bs: seq<Block>, except: int) {
    forall i :: 0 <= i < |bs| - 1 && i != except ==> !BothFree(bs, i)
  }

  ghost predicate Heap(bs: seq<Block>, lo: nat, hi: nat) {
    Tiles(bs, lo, hi) && Coalesced(bs, -1)
  }

  /** The blocks in use. */
  ghost function Used(bs: seq<Block>): set<Block> {
    set b | b in bs && !b.free
  }

  lemma {:induction false} EarlierEndsBefore(bs: seq<Block>, lo: nat, hi: nat, i: nat, j: nat)
    requires Tiles(bs, lo, hi)
    requires i < j < |bs|
    ensures bs[i].End() <= bs[j].addr
    decreases j
  {
    assert Meets(bs, j - 1);
    if i < j - 1 {
      EarlierEndsBefore(bs, lo, hi, i, j - 1);
    }
  }

  /** Blocks follow each other in address order and stay inside the range. */
  lemma InOrder(bs: seq<Block>, lo: nat, hi: nat)
    requires Tiles(bs, lo, hi)
    ensures forall i, j :: 0 <= i < j < |bs| ==> bs[i].End() <= bs[j].addr
    ensures forall i :: 0 <= i < |bs| ==> lo <= bs[i].addr && bs[i].End() <= hi
  {
    forall i, j | 0 <= i < j < |bs| ensures bs[i].End() <= bs[j].addr {
      EarlierEndsBefore(bs, lo, hi, i, j);
    }
    forall i | 0 <= i < |bs| ensures lo <= bs[i].addr && bs[i].End() <= hi {
      if i > 0 { assert bs[0].End() <= bs[i].addr; }
      if i < |bs| - 1 { assert bs[i].End() <= bs[|bs| - 1].addr; }
    }
  }

  /** The bytes a client may use, from the returned pointer to the end of the block, never meet. */
  lemma PayloadsDisjoint(bs: seq<Block>, lo: nat, hi: nat, b: Block, c: Block, x: nat)
    requires Heap(bs, lo, hi)
    requires b in Used(bs) && c in Used(bs) && b != c
    requires b.addr + HDR <= x < b.End()
    ensures !(c.addr <= x < c.End())
    ensures lo <= x < hi
  {
    InOrder(bs, lo, hi);
    var i :| 0 <= i < |bs| && bs[i] == b;
    var j :| 0 <= j < |bs| && bs[j] == c;
    assert i < j || j < i;
  }

  // ---------- Canonical form ----------

  lemma HeapTail(bs: seq<Block>, lo: nat, hi: nat)
    requires Heap(bs, lo, hi) && |bs| > 0
    ensures Heap(bs[1..], bs[0].End(), hi)
    ensures Used(bs[1..]) == Used(bs) - {bs[0]}
  {
    InOrder(bs, lo, hi);
    var t := bs[1..];
    forall i | 0 <= i < |t| - 1 ensures Meets(t, i) && !BothFree(t, i) {
      assert Meets(bs, i + 1) && !BothFree(bs, i + 1);
    }
    assert |t| > 0 ==> Meets(bs, 0);
    assert bs == [bs[0]] + t;
    assert bs[0] !in t;
  }

  /** A free first block cannot end inside the first block of another list with the same used blocks. */
  lemma FreeHeadsAgree(bs: seq<Block>, cs: seq<Block>, lo: nat, hi: nat)
    requires Heap(bs, lo, hi) && Heap(cs, lo, hi) && Used(bs) == Used(cs)
    requires |bs| > 0 && |cs| > 0 && bs[0].free && cs[0].free
    ensures bs[0].size >= cs[0].size
  {
    InOrder(cs, lo, hi);
    if |bs| > 1 {
      var b := bs[1];
      assert Meets(bs, 0) && !BothFree(bs, 0);
      assert b in Used(bs);
      var j :| 0 <= j < |cs| && cs[j] == b;
      assert cs[0].End() <= cs[j].addr;
    }
  }

  lemma UsedHeadShared(bs: seq<Block>, cs: seq<Block>, lo: nat, hi: nat)
    requires Heap(bs, lo, hi) && Heap(cs, lo, hi) && Used(bs) == Used(cs)
    requires |bs| > 0 && |cs| > 0 && !bs[0].free
    ensures cs[0] == bs[0]
  {
    InOrder(cs, lo, hi);
    assert bs[0] in Used(bs);
    var j :| 0 <= j < |cs| && cs[j] == bs[0];
  }

  /** The block list is a function of the set of used blocks alone. */
  lemma {:induction false} Canonical(bs: seq<Block>, cs: seq<Block>, lo: nat, hi: nat)
    requires Heap(bs, lo, hi) && Heap(cs, lo, hi)
    requires Used(bs) == Used(cs)
    ensures bs == cs
    decreases |bs|
  {
    InOrder(bs, lo, hi);
    InOrder(cs, lo, hi);
    if |bs| == 0 || |cs| == 0 {
    } else {
      if !bs[0].free {
        UsedHeadShared(bs, cs, lo, hi);
      } else if !cs[0].free {
        UsedHeadShared(cs, bs, lo, hi);
      } else {
        FreeHeadsAgree(bs, cs, lo, hi);
        FreeHeadsAgree(cs, bs, lo, hi);
      }
      HeapTail(bs, lo, hi);
      HeapTail(cs, lo, hi);
      Canonical(bs[1..], cs[1..], bs[0].End(), hi);
      assert bs == [bs[0]] + bs[1..] && cs == [cs[0]] + cs[1..];
    }
  }

  /** A free block is a maximal gap: each of its ends is an end of the range or a side of a used block. */
  lemma FreeBlocksAreGaps(bs: seq<Block>, lo: nat, hi: nat, i: nat)
    requires Heap(bs, lo, hi) && i < |bs| && bs[i].free
    ensures bs[i].addr == lo || exists u :: u in Used(bs) && u.End() == bs[i].addr
    ensures bs[i].End() == hi || exists u :: u in Used(bs) && u.addr == bs[i].End()
    ensures forall u :: u in Used(bs) ==> u.End() <= bs[i].addr || bs[i].End() <= u.addr
  {
    InOrder(bs, lo, hi);
    if i > 0 {
      assert Meets(bs, i - 1) && !BothFree(bs, i - 1);
      assert bs[i - 1] in Used(bs);
    }
    if i + 1 < |bs| {
      assert Meets(bs, i) && !BothFree(bs, i);
      assert bs[i + 1] in Used(bs);
    }
    forall u | u in Used(bs) ensures u.End() <= bs[i].addr || bs[i].End() <= u.addr {
      var j :| 0 <= j < |bs| && bs[j] == u;
      assert j < i || i < j;
    }
  }

  // ---------- Allocation ----------

  /** ALIGN_UP(n, 16): the least multiple of 16 that is at least `n`. */
  function AlignUp(n: nat): (r: nat)
    ensures r % 16 == 0 && n <= r < n + 16
  {
    (n + 15) / 16 * 16
  }

  predicate Fits(b: Block, need: nat) {
    b.free && b.size >= need
  }

  /** Index of the lowest-address block that fits, or the length of the list when none does. */
  function FirstFit(bs: seq<Block>, need: nat): (i: nat)
    ensures i <= |bs|
    ensures i < |bs| ==> Fits(bs[i], need)
    ensures forall j :: 0 <= j < i ==> !Fits(bs[j], need)
  {
    if bs == [] then 0
    else if Fits(bs[0], need) then 0
    else 1 + FirstFit(bs[1..], need)
  }

  /** The search, with what fits written out. */
  lemma FirstFitFits(bs: seq<Block>, need: nat)
    ensures var i := FirstFit(bs, need);
            && (i < |bs| ==> bs[i].free && bs[i].size >= need)
            && (forall j :: 0 <= j < i && bs[j].free ==> bs[j].size < need)
            && (i == |bs| <==> forall b :: b in bs && b.free ==> b.size < need)
  {
    var i := FirstFit(bs, need);
    forall j | 0 <= j < i ensures bs[j].free ==> bs[j].size < need {
      assert !Fits(bs[j], need);
    }
    if i < |bs| { assert bs[i] in bs; }
  }

  /** Give out block `i`, splitting off the rest when it can hold a header and 16 bytes. */
  function AllocAt(bs: seq<Block>, i: nat, need: nat): seq<Block>
    requires i < |bs| && bs[i].size >= need
  {
    var b := bs[i];
    if b.size >= need + HDR + 16 then
      bs[..i] + [Block(b.addr, need, false), Block(b.addr + need, b.size - need, true)] + bs[i + 1..]
    else
      bs[i := b.(free := false)]
  }

  lemma AllocKeepsHeap(bs: seq<Block>, lo: nat, hi: nat, i: nat, need: nat)
    requires Heap(bs, lo, hi) && i < |bs| && Fits(bs[i], need) && need > 0 && need % 16 == 0
    ensures Heap(AllocAt(bs, i, need), lo, hi)
  {
    var r := AllocAt(bs, i, need);
    forall k | 0 <= k < |r| - 1 ensures Meets(r, k) && !BothFree(r, k) {
      AllocNeighbours(bs, i, need, k);
    }
  }

  lemma AllocNeighbours(bs: seq<Block>, i: nat, need: nat, k: nat)
    requires i < |bs| && Fits(bs[i], need) && k + 1 < |AllocAt(bs, i, need)|
    requires forall j :: 0 <= j < |bs| - 1 ==> Meets(bs, j) && !BothFree(bs, j)
    ensures Meets(AllocAt(bs, i, need), k) && !BothFree(AllocAt(bs, i, need), k)
  {
    var d := |AllocAt(bs, i, need)| - |bs|;
    if k < i { assert Meets(bs, k) && !BothFree(bs, k); }
    if k >= i + d { assert Meets(bs, k - d) && !BothFree(bs, k - d); }
  }

  /** The used blocks gain exactly the block given out, which exceeds the request by less than HDR + 16; what is
      split off can hold a header and 16 bytes. */
  lemma AllocUses(bs: seq<Block>, lo: nat, hi: nat, i: nat, need: nat)
    requires Heap(bs, lo, hi) && i < |bs| && Fits(bs[i], need) && need > 0 && need % 16 == 0
    ensures var b := AllocAt(bs, i, need)[i];
            && b.addr == bs[i].addr && !b.free
            && need <= b.size < need + HDR + 16
            && (|AllocAt(bs, i, need)| > |bs| ==> AllocAt(bs, i, need)[i + 1].size >= HDR + 16)
            && b !in Used(bs)
            && Used(AllocAt(bs, i, need)) == Used(bs) + {b}
  {
    InOrder(bs, lo, hi);
    var r := AllocAt(bs, i, need);
    var b := r[i];
    assert bs == bs[..i] + [bs[i]] + bs[i + 1..];
    if bs[i].size < need + HDR + 16 {
      assert r == bs[..i] + [b] + bs[i + 1..];
    }
    forall c | c in bs ensures c != b {
      var j :| 0 <= j < |bs| && bs[j] == c;
      assert j == i || j < i || i < j;
    }
  }

  // ---------- Freeing ----------

  /** Blocks `i` and `i + 1` become one. */
  function MergeAt(bs: seq<Block>, i: nat): (r: seq<Block>)
    requires i + 1 < |bs|
    ensures |r| == |bs| - 1
  {
    bs[..i] + [bs[i].(size := bs[i].size + bs[i + 1].size)] + bs[i + 2..]
  }

  /** First half of `kfree`: mark block `i` free and absorb a free successor. */
  function ReleaseForward(bs: seq<Block>, i: nat): (r: seq<Block>)
    requires i < |bs|
    ensures i < |r|
  {
    var a := bs[i := bs[i].(free := true)];
    if i + 1 < |a| && a[i + 1].free then MergeAt(a, i) else a
  }

  /** All of `kfree` on block `i`: then let a free predecessor absorb the result. */
  function FreeAt(bs: seq<Block>, i: nat): seq<Block>
    requires i < |bs|
  {
    var a := ReleaseForward(bs, i);
    if i > 0 && a[i - 1].free then MergeAt(a, i - 1) else a
  }

  lemma MergeKeepsTiles(bs: seq<Block>, lo: nat, hi: nat, i: nat)
    requires Tiles(bs, lo, hi) && i + 1 < |bs|
    ensures Tiles(MergeAt(bs, i), lo, hi)
  {
    var r := MergeAt(bs, i);
    assert Meets(bs, i);
    forall k | 0 <= k < |r| - 1 ensures Meets(r, k) {
      assert if k < i then Meets(bs, k) else Meets(bs, k + 1);
    }
  }

  lemma MergeKeepsUsed(bs: seq<Block>, i: nat)
    requires i + 1 < |bs| && bs[i].free && bs[i + 1].free
    ensures Used(MergeAt(bs, i)) == Used(bs)
  {
    assert bs == bs[..i] + [bs[i]] + [bs[i + 1]] + bs[i + 2..];
  }

  lemma ReplaceUsed(bs: seq<Block>, i: nat, b: Block)
    requires i < |bs| && b.free
    requires forall j :: 0 <= j < |bs| && j != i ==> bs[j] != bs[i]
    ensures Used(bs[i := b]) == Used(bs) - {bs[i]}
  {
    var a := bs[i := b];
    forall c | c in Used(bs) - {bs[i]} ensures c in a {
      var j :| 0 <= j < |bs| && bs[j] == c;
      assert a[j] == c;
    }
  }

  lemma MarkFree(bs: seq<Block>, lo: nat, hi: nat, i: nat)
    requires Heap(bs, lo, hi) && i < |bs| && !bs[i].free
    ensures var a := bs[i := bs[i].(free := true)]; Tiles(a, lo, hi) && Used(a) == Used(bs) - {bs[i]}
  {
    assert forall j :: 0 <= j < |bs| && j != i ==> bs[j] != bs[i] by {
      InOrder(bs, lo, hi);
    }
    ReplaceUsed(bs, i, bs[i].(free := true));
    var a := bs[i := bs[i].(free := true)];
    forall k | 0 <= k < |a| - 1 ensures Meets(a, k) {
      assert Meets(bs, k);
    }
  }

  /** After the forward half only the pair ending in block `i` may still be free twice. */
  lemma ForwardHalf(bs: seq<Block>, lo: nat, hi: nat, i: nat)
    requires Heap(bs, lo, hi) && i < |bs| && !bs[i].free
    ensures var r := ReleaseForward(bs, i);
            && Tiles(r, lo, hi) && Coalesced(r, i - 1)
            && r[..i] == bs[..i] && r[i].addr == bs[i].addr && r[i].free
            && Used(r) == Used(bs) - {bs[i]}
  {
    var a := bs[i := bs[i].(free := true)];
    MarkFree(bs, lo, hi, i);
    if i + 1 < |a| && a[i + 1].free {
      MergeKeepsTiles(a, lo, hi, i);
      MergeKeepsUsed(a, i);
      ForwardCoalesced(bs, i);
    } else {
      forall k | 0 <= k < |a| - 1 && k != i - 1 ensures !BothFree(a, k) {
        assert !BothFree(bs, k);
      }
    }
  }

  lemma ForwardCoalesced(bs: seq<Block>, i: nat)
    requires Coalesced(bs, -1) && i + 1 < |bs| && !bs[i].free && bs[i + 1].free
    ensures Coalesced(ReleaseForward(bs, i), i - 1)
  {
    var r := ReleaseForward(bs, i);
    forall k | 0 <= k < |r| - 1 && k != i - 1 ensures !BothFree(r, k) {
      assert if k < i then !BothFree(bs, k) else !BothFree(bs, k + 1);
    }
  }

  lemma BackwardCoalesced(a: seq<Block>, i: nat)
    requires 0 < i < |a| && Coalesced(a, i - 1) && a[i - 1].free && a[i].free
    ensures Coalesced(MergeAt(a, i - 1), -1)
  {
    var r := MergeAt(a, i - 1);
    forall k | 0 <= k < |r| - 1 ensures !BothFree(r, k) {
      assert if k < i - 1 then !BothFree(a, k) else !BothFree(a, k + 1);
    }
  }

  /** Freeing keeps the heap invariant and takes exactly the freed block out of the used set. */
  lemma FreeKeepsHeap(bs: seq<Block>, lo: nat, hi: nat, i: nat)
    requires Heap(bs, lo, hi) && i < |bs| && !bs[i].free
    ensures Heap(FreeAt(bs, i), lo, hi)
    ensures Used(FreeAt(bs, i)) == Used(bs) - {bs[i]}
  {
    var a := ReleaseForward(bs, i);
    ForwardHalf(bs, lo, hi, i);
    if i > 0 && a[i - 1].free {
      MergeKeepsTiles(a, lo, hi, i - 1);
      MergeKeepsUsed(a, i - 1);
      BackwardCoalesced(a, i);
    } else {
      assert i > 0 ==> !BothFree(a, i - 1);
    }
  }

  /** Freeing the block just given out restores the list exactly. */
  lemma FreeUndoesAlloc(bs: seq<Block>, lo: nat, hi: nat, i: nat, need: nat)
    requires Heap(bs, lo, hi) && i < |bs| && Fits(bs[i], need) && need > 0 && need % 16 == 0
    ensures FreeAt(AllocAt(bs, i, need), i) == bs
  {
    var a := AllocAt(bs, i, need);
    AllocKeepsHeap(bs, lo, hi, i, need);
    AllocUses(bs, lo, hi, i, need);
    FreeKeepsHeap(a, lo, hi, i);
    assert Used(FreeAt(a, i)) == Used(bs);
    Canonical(FreeAt(a, i), bs, lo, hi);
  }

  // ---------- Freeing many blocks in any order ----------

  function IndexOf(bs: seq<Block>, b: Block): (i: nat)
    requires b in bs
    ensures i < |bs| && bs[i] == b
  {
    if bs[0] == b then 0 else 1 + IndexOf(bs[1..], b)
  }

  /** The calls name distinct used blocks. */
  ghost predicate LiveOrder(bs: seq<Block>, order: seq<Block>) {
    && (forall b :: b in order ==> b in Used(bs))
    && (forall i, j :: 0 <= i < j < |order| ==> order[i] != order[j])
  }

  function FreeAll(bs: seq<Block>, order: seq<Block>): seq<Block>
    decreases |order|
  {
    if order == [] || order[0] !in bs then bs
    else FreeAll(FreeAt(bs, IndexOf(bs, order[0])), order[1..])
  }

  lemma LiveOrderTail(bs: seq<Block>, r: seq<Block>, order: seq<Block>)
    requires LiveOrder(bs, order) && order != [] && Used(r) == Used(bs) - {order[0]}
    ensures LiveOrder(r, order[1..])
    ensures (set b | b in order) == (set b | b in order[1..]) + {order[0]}
  {
    var t := order[1..];
    assert order == [order[0]] + t;
    forall b | b in t ensures b in Used(r) {
      var i :| 0 <= i < |t| && t[i] == b;
      assert order[i + 1] == b && b in order;
    }
  }

  lemma {:induction false} FreeAllKeepsHeap(bs: seq<Block>, lo: nat, hi: nat, order: seq<Block>)
    requires Heap(bs, lo, hi) && LiveOrder(bs, order)
    ensures Heap(FreeAll(bs, order), lo, hi)
    ensures Used(FreeAll(bs, order)) == Used(bs) - (set b | b in order)
    decreases |order|
  {
    if order != [] {
      assert order[0] in order;
      var i := IndexOf(bs, order[0]);
      var r := FreeAt(bs, i);
      FreeKeepsHeap(bs, lo, hi, i);
      LiveOrderTail(bs, r, order);
      FreeAllKeepsHeap(r, lo, hi, order[1..]);
    }
  }

  /** Confluence: the heap after freeing a set of live blocks does not depend on the order of the calls. */
  lemma FreeOrderIrrelevant(bs: seq<Block>, lo: nat, hi: nat, order: seq<Block>, order': seq<Block>)
    requires Heap(bs, lo, hi) && LiveOrder(bs, order) && LiveOrder(bs, order')
    requires (set b | b in order) == (set b | b in order')
    ensures FreeAll(bs, order) == FreeAll(bs, order')
  {
    FreeAllKeepsHeap(bs, lo, hi, order);
    FreeAllKeepsHeap(bs, lo, hi, order');
    Canonical(FreeAll(bs, order), FreeAll(bs, order'), lo, hi);
  }

  // ---------- Runs of kmalloc and kfree ----------

  datatype Call = Malloc(n: nat) | Free(ptr: nat)

  /** A heap together with the pointers its clients still hold. */
  datatype Machine = Machine(bs: seq<Block>, held: set<nat>)

  /** The pointers handed out for a set of blocks. */
  ghost function Pointers(used: set<Block>): set<nat> {
    set b | b in used :: b.addr + HDR
  }

  /** A heap all of whose used blocks are held. */
  ghost function MachineOf(bs: seq<Block>): Machine {
    Machine(bs, Pointers(Used(bs)))
  }

  ghost predicate MachineOk(m: Machine, lo: nat, hi: nat) {
    && Heap(m.bs, lo, hi)
    && m.held == Pointers(Used(m.bs))
  }

  /** Clients free only NULL and pointers they hold, and request no more than rounds up within a word. */
  predicate Legal(m: Machine, c: Call) {
    match c
    case Malloc(n) => n <= 0xFFFF_FFF0
    case Free(ptr) => ptr != 0 ==> ptr in m.held
  }

  /** The block a held pointer belongs to. */
  function BlockOf(bs: seq<Block>, ptr: nat): (i: nat)
    ensures i < |bs| ==> !bs[i].free && bs[i].addr + HDR == ptr
    ensures i >= |bs| ==> forall j :: 0 <= j < |bs| ==> bs[j].free || bs[j].addr + HDR != ptr
  {
    if bs == [] then 0
    else if !bs[0].free && bs[0].addr + HDR == ptr then 0
    else 1 + BlockOf(bs[1..], ptr)
  }

  /** One call. A pointer that is not held is outside every legal run; here it changes nothing. */
  function Step(m: Machine, c: Call): Machine {
    match c
    case Malloc(n) =>
      var i := FirstFit(m.bs, AlignUp(n));
      if n == 0 || i == |m.bs| then m
      else Machine(AllocAt(m.bs, i, AlignUp(n)), m.held + {m.bs[i].addr + HDR})
    case Free(ptr) =>
      var i := BlockOf(m.bs, ptr);
      if ptr == 0 || i >= |m.bs| then m
      else Machine(FreeAt(m.bs, i), m.held - {ptr})
  }

  predicate LegalRun(m: Machine, calls: seq<Call>)
    decreases |calls|
  {
    calls == [] || (Legal(m, calls[0]) && LegalRun(Step(m, calls[0]), calls[1..]))
  }

  function Run(m: Machine, calls: seq<Call>): Machine
    decreases |calls|
  {
    if calls == [] then m else Run(Step(m, calls[0]), calls[1..])
  }

  lemma PointersWith(used: set<Block>, b: Block)
    ensures Pointers(used + {b}) == Pointers(used) + {b.addr + HDR}
  {
  }

  lemma PointersWithout(used: set<Block>, b: Block)
    requires b in used && forall c :: c in used && c.addr == b.addr ==> c == b
    ensures Pointers(used - {b}) == Pointers(used) - {b.addr + HDR}
  {
  }

  lemma UsedAddressesDiffer(bs: seq<Block>, lo: nat, hi: nat, b: Block)
    requires Heap(bs, lo, hi) && b in Used(bs)
    ensures forall c :: c in Used(bs) && c.addr == b.addr ==> c == b
  {
    InOrder(bs, lo, hi);
  }

  lemma AllocAtKeepsMachine(m: Machine, lo: nat, hi: nat, i: nat, need: nat)
    requires MachineOk(m, lo, hi) && i < |m.bs| && Fits(m.bs[i], need) && need > 0 && need % 16 == 0
    ensures MachineOk(Machine(AllocAt(m.bs, i, need), m.held + {m.bs[i].addr + HDR}), lo, hi)
  {
    AllocKeepsHeap(m.bs, lo, hi, i, need);
    AllocUses(m.bs, lo, hi, i, need);
    PointersWith(Used(m.bs), AllocAt(m.bs, i, need)[i]);
  }

  lemma MallocKeepsMachine(m: Machine, lo: nat, hi: nat, n: nat)
    requires MachineOk(m, lo, hi)
    ensures MachineOk(Step(m, Malloc(n)), lo, hi)
  {
    var need := AlignUp(n);
    var i := FirstFit(m.bs, need);
    if n != 0 && i < |m.bs| {
      AllocAtKeepsMachine(m, lo, hi, i, need);
      assert Step(m, Malloc(n)) == Machine(AllocAt(m.bs, i, need), m.held + {m.bs[i].addr + HDR});
    }
  }

  /** `Step` on a heap all of whose used blocks are held, by what it does to the block list. */
  lemma MallocStep(bs: seq<Block>, lo: nat, hi: nat, n: nat)
    requires Heap(bs, lo, hi)
    ensures var i := FirstFit(bs, AlignUp(n));
            Step(MachineOf(bs), Malloc(n))
            == MachineOf(if n == 0 || i == |bs| then bs else AllocAt(bs, i, AlignUp(n)))
  {
    MallocKeepsMachine(MachineOf(bs), lo, hi, n);
  }

  lemma FreeStep(bs: seq<Block>, lo: nat, hi: nat, ptr: nat)
    requires Heap(bs, lo, hi)
    ensures var i := BlockOf(bs, ptr);
            Step(MachineOf(bs), Free(ptr)) == MachineOf(if ptr == 0 || i >= |bs| then bs else FreeAt(bs, i))
  {
    FreeKeepsMachine(MachineOf(bs), lo, hi, ptr);
  }

  lemma FreedPointer(bs: seq<Block>, lo: nat, hi: nat, b: Block)
    requires Heap(bs, lo, hi) && b in Used(bs)
    ensures Pointers(Used(bs) - {b}) == Pointers(Used(bs)) - {b.addr + HDR}
  {
    UsedAddressesDiffer(bs, lo, hi, b);
    PointersWithout(Used(bs), b);
  }

  lemma FreeIsStep(m: Machine, ptr: nat)
    requires ptr != 0 && BlockOf(m.bs, ptr) < |m.bs|
    ensures Step(m, Free(ptr)) == Machine(FreeAt(m.bs, BlockOf(m.bs, ptr)), m.held - {ptr})
  {
  }

  lemma HeapFreed(m: Machine, lo: nat, hi: nat, ptr: nat)
    requires Heap(m.bs, lo, hi)
    ensures Heap(Step(m, Free(ptr)).bs, lo, hi)
  {
    if ptr != 0 && BlockOf(m.bs, ptr) < |m.bs| {
      FreeKeepsHeap(m.bs, lo, hi, BlockOf(m.bs, ptr));
      FreeIsStep(m, ptr);
    }
  }

  lemma PointersFreed(bs: seq<Block>, bs': seq<Block>, lo: nat, hi: nat, i: nat)
    requires Heap(bs, lo, hi) && i < |bs| && !bs[i].free && Used(bs') == Used(bs) - {bs[i]}
    ensures Pointers(Used(bs')) == Pointers(Used(bs)) - {bs[i].addr + HDR}
  {
    FreedPointer(bs, lo, hi, bs[i]);
  }

  lemma HeldFreed(m: Machine, lo: nat, hi: nat, ptr: nat)
    requires MachineOk(m, lo, hi)
    ensures Step(m, Free(ptr)).held == Pointers(Used(Step(m, Free(ptr)).bs))
  {
    var i := BlockOf(m.bs, ptr);
    if ptr != 0 && i < |m.bs| {
      FreeIsStep(m, ptr);
      var r := Step(m, Free(ptr)).bs;
      FreeKeepsHeap(m.bs, lo, hi, i);
      PointersFreed(m.bs, r, lo, hi, i);
    }
  }

  lemma FreeKeepsMachine(m: Machine, lo: nat, hi: nat, ptr: nat)
    requires MachineOk(m, lo, hi)
    ensures MachineOk(Step(m, Free(ptr)), lo, hi)
  {
    HeapFreed(m, lo, hi, ptr);
    HeldFreed(m, lo, hi, ptr);
  }

  lemma {:induction false} RunKeepsMachine(m: Machine, lo: nat, hi: nat, calls: seq<Call>)
    requires MachineOk(m, lo, hi) && LegalRun(m, calls)
    ensures MachineOk(Run(m, calls), lo, hi)
    decreases |calls|
  {
    if calls != [] {
      match calls[0] {
        case Malloc(n) => MallocKeepsMachine(m, lo, hi, n);
        case Free(ptr) => FreeKeepsMachine(m, lo, hi, ptr);
      }
      RunKeepsMachine(Step(m, calls[0]), lo, hi, calls[1..]);
    }
  }

  /** What `memory_init` builds. */
  function Fresh(lo: nat, hi: nat): Machine
    requires lo < hi
  {
    Machine([Block(lo, hi - lo, true)], {})
  }

  /** A new heap is well formed, nothing in it is in use or held, and it grants at its first address every request that
      fits: the pointer comes 16 bytes after the start of the range. */
  lemma FreshGrants(lo: nat, hi: nat, n: nat)
    requires lo < hi && (hi - lo) % 16 == 0
    ensures MachineOk(Fresh(lo, hi), lo, hi) && Used(Fresh(lo, hi).bs) == {} && Fresh(lo, hi).held == {}
    ensures Step(Fresh(lo, hi), Malloc(n)).held == if 0 < n <= hi - lo then {lo + 16} else {}
  {
    var bs := Fresh(lo, hi).bs;
    assert FirstFit(bs, AlignUp(n)) == 0 <==> n <= hi - lo;
  }

  /** Any run that gives back every pointer it was given ends with the heap `memory_init` built. */
  lemma FullRecovery(lo: nat, hi: nat, calls: seq<Call>)
    requires lo < hi && (hi - lo) % 16 == 0
    requires LegalRun(Fresh(lo, hi), calls)
    requires Run(Fresh(lo, hi), calls).held == {}
    ensures Run(Fresh(lo, hi), calls) == Fresh(lo, hi)
  {
    var m := Run(Fresh(lo, hi), calls);
    RunKeepsMachine(Fresh(lo, hi), lo, hi, calls);
    assert forall b :: b in Used(m.bs) ==> b.addr + HDR in m.held;
    assert Used(m.bs) == {};
    Canonical(m.bs, Fresh(lo, hi).bs, lo, hi);
  }

  /** Two runs, however different, that leave the same blocks in use leave the same heap. */
  lemma RunsAgree(lo: nat, hi: nat, calls: seq<Call>, calls': seq<Call>)
    requires lo < hi && (hi - lo) % 16 == 0
    requires LegalRun(Fresh(lo, hi), calls) && LegalRun(Fresh(lo, hi), calls')
    requires Used(Run(Fresh(lo, hi), calls).bs) == Used(Run(Fresh(lo, hi), calls').bs)
    ensures Run(Fresh(lo, hi), calls).bs == Run(Fresh(lo, hi), calls').bs
  {
    RunKeepsMachine(Fresh(lo, hi), lo, hi, calls);
    RunKeepsMachine(Fresh(lo, hi), lo, hi, calls');
    Canonical(Run(Fresh(lo, hi), calls).bs, Run(Fresh(lo, hi), calls').bs, lo, hi);
  }
}

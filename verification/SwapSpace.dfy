/** Swap space: a stack of regions that is only ever popped from the top. */
module SwapSpace {
  import opened Words

  datatype Region = Region(start: Word, size: Word) {
    function End(): nat { start + size }
  }

  /** Two regions share no byte. */
  predicate Apart(r: Region, q: Region) {
    r.size == 0 || q.size == 0 || r.End() <= q.start || q.End() <= r.start
  }

  /** Every live region lies below `used`, and no two share a byte. */
  ghost predicate Packed(live: seq<Region>, used: nat) {
    && (forall i :: 0 <= i < |live| && live[i].size > 0 ==> live[i].End() <= used)
    && (forall i, j :: 0 <= i < j < |live| ==> Apart(live[i], live[j]))
  }

  // ---------- The two calls on the counter ----------

  predicate Granted(used: Word, size: Word, capacity: Word) {
    Add32(used, size) <= capacity
  }

  /** The counter after `mm_free_swap_space`: only a region that ends at the top is released. */
  function Release(used: Word, address: Word, size: Word): Word {
    if Add32(address, size) == used then (if size <= used then used - size else used + MODULUS - size) else used
  }

  /** Without the live region `i`. */
  function Drop(live: seq<Region>, i: nat): seq<Region>
    requires i < |live|
  {
    live[..i] + live[i + 1..]
  }

  /** Freeing live regions in any order keeps the others apart and below the counter. */
  lemma ReleaseKeepsPacked(live: seq<Region>, used: Word, i: nat)
    requires Packed(live, used) && i < |live|
    ensures Packed(Drop(live, i), Release(used, live[i].start, live[i].size))
  {
    var r, u := Drop(live, i), Release(used, live[i].start, live[i].size);
    forall k | 0 <= k < |r| && r[k].size > 0 ensures r[k].End() <= u {
      var j := if k < i then k else k + 1;
      assert r[k] == live[j];
      assert if j < i then Apart(live[j], live[i]) else Apart(live[i], live[j]);
    }
    forall k, l | 0 <= k < l < |r| ensures Apart(r[k], r[l]) {
      assert Apart(live[if k < i then k else k + 1], live[if l < i then l else l + 1]);
    }
  }

  // ---------- Nested use ----------

  datatype Call = Push(size: Word) | Pop

  /** The counter and the regions still held, newest last. */
  datatype Stack = Stack(used: Word, held: seq<Region>)

  function Step(s: Stack, c: Call, capacity: Word): Stack {
    match c
    case Push(size) =>
      if Granted(s.used, size, capacity) then Stack(Add32(s.used, size), s.held + [Region(s.used, size)]) else s
    case Pop =>
      if s.held == [] then s
      else
        var r := s.held[|s.held| - 1];
        Stack(Release(s.used, r.start, r.size), s.held[..|s.held| - 1])
  }

  /** The held regions lie end to end from `base` up to the counter, round the end of the word if need be. */
  ghost predicate Chained(s: Stack, base: Word)
    decreases |s.held|
  {
    if s.held == [] then s.used == base
    else
      var r := s.held[|s.held| - 1];
      Add32(r.start, r.size) == s.used && Chained(Stack(r.start, s.held[..|s.held| - 1]), base)
  }

  function Run(s: Stack, calls: seq<Call>, capacity: Word): Stack
    decreases |calls|
  {
    if calls == [] then s else Run(Step(s, calls[0], capacity), calls[1..], capacity)
  }

  lemma StepKeepsChain(s: Stack, c: Call, capacity: Word, base: Word)
    requires Chained(s, base)
    ensures Chained(Step(s, c, capacity), base)
  {
    var r := Step(s, c, capacity);
    if c.Push? && Granted(s.used, c.size, capacity) {
      assert r.held[..|r.held| - 1] == s.held;
    }
  }

  lemma {:induction false} RunKeepsChain(s: Stack, calls: seq<Call>, capacity: Word, base: Word)
    requires Chained(s, base)
    ensures Chained(Run(s, calls, capacity), base)
    decreases |calls|
  {
    if calls != [] {
      StepKeepsChain(s, calls[0], capacity, base);
      RunKeepsChain(Step(s, calls[0], capacity), calls[1..], capacity, base);
    }
  }

  /** Every nested run that gave everything back leaves the counter where it found it, whether or not a bound check in
      it wrapped. */
  lemma NestedRestores(used: Word, calls: seq<Call>, capacity: Word)
    requires Run(Stack(used, []), calls, capacity).held == []
    ensures Run(Stack(used, []), calls, capacity).used == used
  {
    RunKeepsChain(Stack(used, []), calls, capacity, used);
  }

  // ---------- The counter in memory ----------

  class Swap {
    const capacity: Word
    var used: Word
    ghost var live: seq<Region>

    ghost predicate Valid()
      reads this
    {
      used <= capacity && Packed(live, used)
    }

    constructor (capacity: Word)
      ensures Valid() && used == 0 && live == [] && this.capacity == capacity
    {
      this.capacity := capacity;
      used := 0;
      live := [];
    }

    /** Refusal and a region at address 0 both return 0. A granted request breaks the invariant exactly when its
        bound check wrapped. */
    method Allocate(size: Word) returns (address: Word)
      modifies this
      ensures old(used) <= capacity ==> used <= capacity
      ensures |live| == |old(live)| + if (old(used) + size) % 0x1_0000_0000 <= capacity then 1 else 0
      ensures Stack(used, live) == Step(Stack(old(used), old(live)), Push(size), capacity)
      ensures !Granted(old(used), size, capacity) ==> address == 0 && used == old(used) && live == old(live)
      ensures Granted(old(used), size, capacity) ==>
        && address == old(used) && used == Add32(old(used), size) && live == old(live) + [Region(address, size)]
      ensures old(Valid()) ==> (Valid() <==> !Granted(old(used), size, capacity) || old(used) + size < MODULUS)
    {
      if Add32(used, size) > capacity { return 0; }
      live := live + [Region(used, size)];
      assert live[|live| - 1] == Region(used, size);
      used := Add32(used, size);
      address := if size <= used then used - size else used + MODULUS - size;
    }

    /** Live regions may be freed in any order; the newest one is the pop of the nested-run theorem. */
    method Free(address: Word, size: Word, ghost i: nat)
      requires i < |live| && live[i] == Region(address, size)
      modifies this
      ensures live == Drop(old(live), i)
      ensures used == if Add32(address, size) == old(used) then address else old(used)
      ensures i == |old(live)| - 1 ==> Stack(used, live) == Step(Stack(old(used), old(live)), Pop, capacity)
      ensures old(Valid()) ==> Valid()
    {
      if Packed(live, used) { ReleaseKeepsPacked(live, used, i); }
      if Add32(address, size) == used {
        used := if size <= used then used - size else used + MODULUS - size;
      }
      live := Drop(live, i);
    }
  }

  /** Three requests that break the invariant: the second wraps the counter to 0, and the third is given the region of
      the first again. */
  method WrapHandsOutTwice(capacity: Word) returns (s: Swap)
    requires capacity > 0
    ensures !s.Valid() && s.live == [Region(0, 1), Region(1, 0xFFFF_FFFF), Region(0, 1)]
  {
    s := new Swap(capacity);
    var first := s.Allocate(1);
    var wrapped := s.Allocate(0xFFFF_FFFF);
    var again := s.Allocate(1);
    assert !Apart(s.live[0], s.live[2]);
  }
}

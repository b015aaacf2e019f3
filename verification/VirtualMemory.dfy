/** Virtual mappings and their translation. */
module VirtualMemory {
  import opened Words

  datatype Mapping = Mapping(vaddr: Word, paddr: Word, size: Word, permissions: nat)

  /** The bound check of the translation loop, in 32-bit arithmetic. */
  predicate Covers(m: Mapping, v: Word) {
    m.vaddr <= v < Add32(m.vaddr, m.size)
  }

  /** Addresses a mapping really covers: none at all when its end does not fit a word. */
  function Reach(m: Mapping): nat {
    if m.vaddr + m.size < MODULUS then m.size else 0
  }

  function Target(m: Mapping, v: Word): Word
    requires m.vaddr <= v
  {
    Add32(m.paddr, v - m.vaddr)
  }

  lemma CoversReach(m: Mapping, v: Word)
    ensures Covers(m, v) <==> m.vaddr <= v < m.vaddr + Reach(m)
    ensures Covers(m, v) <==> m.vaddr <= v < m.vaddr + m.size < 0x1_0000_0000
  {
  }

  /** The physical address, or 0 when no mapping covers `v`; the earliest mapping wins. */
  function Translate(ms: seq<Mapping>, v: Word): Word {
    if ms == [] then 0
    else if Covers(ms[0], v) then Target(ms[0], v)
    else Translate(ms[1..], v)
  }

  /** The address `k` bytes into a mapping lands `k` bytes after its physical start, round the end of the address space
      if need be, unless an earlier mapping covers it. */
  lemma {:induction false} TranslateInside(ms: seq<Mapping>, i: nat, k: nat)
    requires i < |ms| && k < ms[i].size && ms[i].vaddr + ms[i].size < 0x1_0000_0000
    requires forall j :: 0 <= j < i ==>
               !(ms[j].vaddr <= ms[i].vaddr + k < (ms[j].vaddr + ms[j].size) % 0x1_0000_0000)
    ensures Translate(ms, ms[i].vaddr + k) == (ms[i].paddr + k) % 0x1_0000_0000
    decreases i
  {
    if i > 0 {
      assert !Covers(ms[0], ms[i].vaddr + k);
      assert forall j :: 0 <= j < i - 1 ==> ms[1..][j] == ms[j + 1];
      TranslateInside(ms[1..], i - 1, k);
    }
  }

  /** An address outside every mapping has no translation. */
  lemma {:induction false} TranslateOutside(ms: seq<Mapping>, v: Word)
    requires forall j :: 0 <= j < |ms| ==> !(ms[j].vaddr <= v < (ms[j].vaddr + ms[j].size) % 0x1_0000_0000)
    ensures Translate(ms, v) == 0
  {
    if ms != [] {
      assert !Covers(ms[0], v);
      TranslateOutside(ms[1..], v);
    }
  }

  /** The start of a mapping made where nothing was mapped translates to its physical start. */
  lemma TranslateStart(ms: seq<Mapping>, m: Mapping)
    requires 0 < m.size && m.vaddr + m.size < 0x1_0000_0000
    requires forall j :: 0 <= j < |ms| ==> !(ms[j].vaddr <= m.vaddr < (ms[j].vaddr + ms[j].size) % 0x1_0000_0000)
    ensures Translate(ms + [m], m.vaddr) == m.paddr
  {
    var r := ms + [m];
    assert r[|ms|] == m && forall j :: 0 <= j < |ms| ==> r[j] == ms[j];
    TranslateInside(r, |ms|, 0);
    assert (m.paddr + 0) % 0x1_0000_0000 == m.paddr;
  }

  // ---------- The page map ----------

  /** The part of the address space one mapping defines. */
  function Piece(m: Mapping): map<Word, Word> {
    map v: Word | m.vaddr <= v < m.vaddr + Reach(m) :: Target(m, v)
  }

  /** The whole map: each mapping overrides the ones made after it. */
  function Table(ms: seq<Mapping>): map<Word, Word> {
    if ms == [] then map[] else Table(ms[1..]) + Piece(ms[0])
  }

  lemma {:induction false} TranslateIsTable(ms: seq<Mapping>, v: Word)
    ensures Translate(ms, v) == if v in Table(ms) then Table(ms)[v] else 0
  {
    if ms != [] {
      CoversReach(ms[0], v);
      TranslateIsTable(ms[1..], v);
    }
  }

  // ---------- Order and injectivity ----------

  /** Index of the mapping that translates `v`, or the number of mappings when none does. */
  function Winner(ms: seq<Mapping>, v: Word): (i: nat)
    ensures i <= |ms|
    ensures i < |ms| ==> Covers(ms[i], v) && Translate(ms, v) == Target(ms[i], v)
    ensures forall j :: 0 <= j < i ==> !Covers(ms[j], v)
    ensures i == |ms| ==> Translate(ms, v) == 0
  {
    if ms == [] then 0
    else if Covers(ms[0], v) then 0
    else 1 + Winner(ms[1..], v)
  }

  lemma WinnerCovers(ms: seq<Mapping>, v: Word)
    ensures var i := Winner(ms, v);
            && (i < |ms| ==> ms[i].vaddr <= v < ms[i].vaddr + ms[i].size < 0x1_0000_0000)
            && (forall j :: 0 <= j < i ==> !(ms[j].vaddr <= v < ms[j].vaddr + ms[j].size < 0x1_0000_0000))
  {
    var i := Winner(ms, v);
    forall j | 0 <= j < i ensures !(ms[j].vaddr <= v < ms[j].vaddr + ms[j].size < 0x1_0000_0000) {
      CoversReach(ms[j], v);
    }
  }

  /** The ranges of `n` addresses from `a` on and of `m` from `b` on do not meet. */
  predicate RangesApart(a: nat, n: nat, b: nat, m: nat) {
    n == 0 || m == 0 || a + n <= b || b + m <= a
  }

  predicate VirtuallyDisjoint(ms: seq<Mapping>) {
    forall i, j :: 0 <= i < j < |ms| ==> RangesApart(ms[i].vaddr, Reach(ms[i]), ms[j].vaddr, Reach(ms[j]))
  }

  /** Virtual ranges are disjoint exactly when no address is covered twice. */
  lemma DisjointIsUncontested(ms: seq<Mapping>)
    ensures VirtuallyDisjoint(ms)
        <==> forall i, j, v :: 0 <= i < j < |ms| && Covers(ms[i], v) ==> !Covers(ms[j], v)
  {
    if VirtuallyDisjoint(ms) {
      forall i, j, v | 0 <= i < j < |ms| && Covers(ms[i], v) ensures !Covers(ms[j], v) {
        CoversReach(ms[i], v);
        CoversReach(ms[j], v);
      }
    } else {
      var i, j :| 0 <= i < j < |ms| && !RangesApart(ms[i].vaddr, Reach(ms[i]), ms[j].vaddr, Reach(ms[j]));
      var v: Word := if ms[i].vaddr < ms[j].vaddr then ms[j].vaddr else ms[i].vaddr;
      CoversReach(ms[i], v);
      CoversReach(ms[j], v);
      assert Covers(ms[i], v) && Covers(ms[j], v);
    }
  }

  /** Both translate alike what both cover: they cover nothing in common or move addresses by the same distance. */
  predicate Agree(m: Mapping, n: Mapping) {
    RangesApart(m.vaddr, Reach(m), n.vaddr, Reach(n)) || Add32(m.paddr, n.vaddr) == Add32(n.paddr, m.vaddr)
  }

  lemma AgreeAt(m: Mapping, n: Mapping, v: Word)
    requires Agree(m, n) && Covers(m, v) && Covers(n, v)
    ensures Target(m, v) == Target(n, v)
  {
  }

  lemma DisagreeAt(m: Mapping, n: Mapping) returns (v: Word)
    requires !Agree(m, n)
    ensures Covers(m, v) && Covers(n, v) && Target(m, v) != Target(n, v)
  {
    v := if m.vaddr < n.vaddr then n.vaddr else m.vaddr;
  }

  predicate Agreeing(ms: seq<Mapping>) {
    forall i, j :: 0 <= i < j < |ms| ==> Agree(ms[i], ms[j])
  }

  /** The order in which mappings were made does not matter, for any address, exactly when any two of them agree. */
  lemma OrderIrrelevant(ms: seq<Mapping>)
    ensures (forall ns, v :: multiset(ns) == multiset(ms) ==> Translate(ns, v) == Translate(ms, v)) <==> Agreeing(ms)
  {
    if Agreeing(ms) {
      forall ns, v | multiset(ns) == multiset(ms) ensures Translate(ns, v) == Translate(ms, v) {
        Reordered(ms, ns, v);
      }
    } else {
      var i, j :| 0 <= i < j < |ms| && !Agree(ms[i], ms[j]);
      var v := DisagreeAt(ms[i], ms[j]);
      MoveToFront(ms, i);
      MoveToFront(ms, j);
      assert Translate(ToFront(ms, i), v) != Translate(ToFront(ms, j), v);
    }
  }

  function ToFront(ms: seq<Mapping>, i: nat): seq<Mapping>
    requires i < |ms|
  {
    [ms[i]] + ms[..i] + ms[i + 1..]
  }

  lemma MoveToFront(ms: seq<Mapping>, i: nat)
    requires i < |ms|
    ensures multiset(ToFront(ms, i)) == multiset(ms)
  {
    assert ms == ms[..i] + [ms[i]] + ms[i + 1..];
  }

  lemma Reordered(ms: seq<Mapping>, ns: seq<Mapping>, v: Word)
    requires multiset(ns) == multiset(ms) && Agreeing(ms)
    ensures Translate(ns, v) == Translate(ms, v)
  {
    var i, j := Winner(ms, v), Winner(ns, v);
    SameMembers(ms, ns);
    if i < |ms| {
      assert ms[i] in ns;
      var l :| 0 <= l < |ns| && ns[l] == ms[i];
      assert j <= l;
    }
    if j < |ns| {
      assert ns[j] in ms;
      var k :| 0 <= k < |ms| && ms[k] == ns[j];
      if k < i {
        AgreeAt(ms[k], ms[i], v);
      } else if i < k {
        AgreeAt(ms[i], ms[k], v);
      }
    }
  }

  lemma SameMembers<T>(ms: seq<T>, ns: seq<T>)
    requires multiset(ms) == multiset(ns)
    ensures forall m :: m in ms <==> m in ns
  {
    forall m ensures m in ms <==> m in ns {
      assert m in ms <==> m in multiset(ms);
      assert m in ns <==> m in multiset(ns);
    }
  }

  /** How far `b` lies after `a`, round the end of the address space if need be. */
  function Distance(a: Word, b: Word): Word {
    if a <= b then b - a else b + MODULUS - a
  }

  /** The ranges of `n` addresses from `a` on and of `m` from `b` on, round the end if need be, do not meet. */
  predicate CirclesApart(a: Word, n: Word, b: Word, m: Word) {
    n == 0 || m == 0 || (Distance(a, b) >= n && Distance(b, a) >= m)
  }

  predicate PhysicallyDisjoint(ms: seq<Mapping>) {
    forall i, j :: 0 <= i < j < |ms| ==> CirclesApart(ms[i].paddr, Reach(ms[i]), ms[j].paddr, Reach(ms[j]))
  }

  lemma TargetsDiffer(m: Mapping, n: Mapping, v: Word, w: Word)
    requires Covers(m, v) && Covers(n, w) && CirclesApart(m.paddr, Reach(m), n.paddr, Reach(n))
    ensures Target(m, v) != Target(n, w)
  {
    CoversReach(m, v);
    CoversReach(n, w);
  }

  /** With disjoint physical ranges no two mapped addresses share a physical one. */
  lemma Injective(ms: seq<Mapping>, v: Word, w: Word)
    requires PhysicallyDisjoint(ms) && v in Table(ms) && w in Table(ms)
    requires Translate(ms, v) == Translate(ms, w)
    ensures v == w
  {
    MappedHasWinner(ms, v);
    MappedHasWinner(ms, w);
    var i, j := Winner(ms, v), Winner(ms, w);
    if i < j { TargetsDiffer(ms[i], ms[j], v, w); }
    if j < i { TargetsDiffer(ms[j], ms[i], w, v); }
  }

  /** With disjoint virtual ranges, translation of mapped addresses is injective exactly when the physical ranges are
      disjoint as well. */
  lemma InjectiveExactly(ms: seq<Mapping>)
    requires VirtuallyDisjoint(ms)
    ensures (forall v, w :: v in Table(ms) && w in Table(ms) && Translate(ms, v) == Translate(ms, w) ==> v == w)
        <==> PhysicallyDisjoint(ms)
  {
    if PhysicallyDisjoint(ms) {
      forall v, w | v in Table(ms) && w in Table(ms) && Translate(ms, v) == Translate(ms, w) ensures v == w {
        Injective(ms, v, w);
      }
    } else {
      var i, j :| 0 <= i < j < |ms| && !CirclesApart(ms[i].paddr, Reach(ms[i]), ms[j].paddr, Reach(ms[j]));
      var v, w := Shared(ms[i], ms[j]);
      OnlyWinner(ms, i, v);
      OnlyWinner(ms, j, w);
    }
  }

  /** Two addresses, one of each mapping, that share a physical one. */
  lemma Shared(m: Mapping, n: Mapping) returns (v: Word, w: Word)
    requires !CirclesApart(m.paddr, Reach(m), n.paddr, Reach(n))
    ensures Covers(m, v) && Covers(n, w) && Target(m, v) == Target(n, w)
  {
    if Distance(m.paddr, n.paddr) < Reach(m) {
      v, w := m.vaddr + Distance(m.paddr, n.paddr), n.vaddr;
    } else {
      v, w := m.vaddr, n.vaddr + Distance(n.paddr, m.paddr);
    }
  }

  lemma OnlyWinner(ms: seq<Mapping>, i: nat, v: Word)
    requires VirtuallyDisjoint(ms) && i < |ms| && Covers(ms[i], v)
    ensures Winner(ms, v) == i && v in Table(ms) && Translate(ms, v) == Target(ms[i], v)
  {
    DisjointIsUncontested(ms);
    MappedHasWinner(ms, v);
    var k := Winner(ms, v);
    assert k == i || k < i || i < k;
  }

  lemma {:induction false} MappedHasWinner(ms: seq<Mapping>, v: Word)
    ensures v in Table(ms) <==> Winner(ms, v) < |ms|
  {
    if ms != [] {
      CoversReach(ms[0], v);
      MappedHasWinner(ms[1..], v);
    }
  }

  // ---------- The mapping table in memory ----------

  class MappingTable {
    const mappings: array<Mapping>
    var count: nat
    var usedVirtual: Word

    function Made(): seq<Mapping>
      requires count <= mappings.Length
      reads this, mappings
    {
      mappings[..count]
    }

    constructor (capacity: nat)
      ensures count == 0 && usedVirtual == 0 && mappings.Length == capacity && fresh(mappings)
    {
      mappings := new Mapping[capacity](_ => Mapping(0, 0, 0, 0));
      count, usedVirtual := 0, 0;
    }

    method Create(vaddr: Word, paddr: Word, size: Word, permissions: nat) returns (ok: bool)
      requires count <= mappings.Length
      modifies this, mappings
      ensures count <= mappings.Length
      ensures ok <==> old(count) < mappings.Length
      ensures Made() == old(Made()) + if ok then [Mapping(vaddr, paddr, size, permissions)] else []
      ensures usedVirtual == if ok then Add32(old(usedVirtual), size) else old(usedVirtual)
    {
      if count >= mappings.Length { return false; }
      mappings[count] := Mapping(vaddr, paddr, size, permissions);
      count := count + 1;
      usedVirtual := Add32(usedVirtual, size);
      ok := true;
    }

    method TranslateAddress(v: Word) returns (p: Word)
      requires count <= mappings.Length
      ensures p == if v in Table(Made()) then Table(Made())[v] else 0
      ensures var i, ms := Winner(Made(), v), Made();
              if i < count then
                && ms[i].vaddr <= v < ms[i].vaddr + ms[i].size < 0x1_0000_0000
                && p == (ms[i].paddr + (v - ms[i].vaddr)) % 0x1_0000_0000
                && (forall j :: 0 <= j < i ==> !(ms[j].vaddr <= v < ms[j].vaddr + ms[j].size < 0x1_0000_0000))
              else
                && p == 0
                && (forall j :: 0 <= j < count ==> !(ms[j].vaddr <= v < ms[j].vaddr + ms[j].size < 0x1_0000_0000))
    {
      TranslateIsTable(Made(), v);
      WinnerCovers(Made(), v);
      var i := 0;
      while i < count
        invariant i <= count && Translate(Made(), v) == Translate(Made()[i..], v)
      {
        var m := mappings[i];
        assert Made()[i..][0] == m && Made()[i..][1..] == Made()[i + 1..];
        if v >= m.vaddr && v < Add32(m.vaddr, m.size) {
          return Add32(m.paddr, v - m.vaddr);
        }
        i := i + 1;
      }
      return 0;
    }
  }
}

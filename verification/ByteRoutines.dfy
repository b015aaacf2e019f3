/** The byte loops of the C library. Both operands live in one array, so that they may overlap. */
module ByteRoutines {
  import opened Arithmetic

  type Byte = b: nat | b < 256

  /** Which original byte a forward copy from `s` to `d` leaves at `d + i`: when the source starts below the
      destination, the bytes between the two are repeated. */
  function Origin(d: nat, s: nat, i: nat): (o: nat)
    ensures o <= s + i
  {
    if s < d then ModAtMost(i, d - s); s + i % (d - s) else s + i
  }

  lemma ModAtMost(i: nat, m: nat)
    requires m > 0
    ensures i % m <= i
  {
  }

  lemma ModLessOne(i: nat, m: nat)
    requires 0 < m <= i
    ensures (i - m) % m == i % m
  {
    var q, r := (i - m) / m, (i - m) % m;
    assert i == (q + 1) * m + r;
    QuotientUnique(m, i / m, i % m, q + 1, r);
  }

  /** A forward copy keeps every byte that lies before the destination, and all of them when the two do not
      overlap that way. */
  lemma OriginBeforeOverlap(d: nat, s: nat, i: nat)
    ensures d <= s || s + i < d ==> Origin(d, s, i) == s + i
  {
    if s < d && s + i < d {
      QuotientUnique(d - s, i / (d - s), i % (d - s), 0, i);
    }
  }

  /** From there on the bytes between the source and the destination come round again. */
  lemma OriginRepeats(d: nat, s: nat, i: nat)
    requires s < d <= s + i
    ensures Origin(d, s, i) == Origin(d, s, i - (d - s)) < d
  {
    ModLessOne(i, d - s);
  }

  method Memcpy(a: array<Byte>, d: nat, s: nat, n: nat)
    requires d + n <= a.Length && s + n <= a.Length
    modifies a
    ensures forall i :: 0 <= i < n ==> a[d + i] == old(a[Origin(d, s, i)])
    ensures forall x :: 0 <= x < a.Length && !(d <= x < d + n) ==> a[x] == old(a[x])
  {
    var i := 0;
    while i < n
      invariant i <= n
      invariant forall k :: 0 <= k < i ==> a[d + k] == old(a[Origin(d, s, k)])
      invariant forall x :: 0 <= x < a.Length && !(d <= x < d + i) ==> a[x] == old(a[x])
    {
      OriginBeforeOverlap(d, s, i);
      if s < d <= s + i {
        ModLessOne(i, d - s);
        assert a[d + (s + i - d)] == old(a[Origin(d, s, s + i - d)]);
      }
      assert a[s + i] == old(a[Origin(d, s, i)]);
      a[d + i] := a[s + i];
      i := i + 1;
    }
  }

  method Memset(a: array<Byte>, d: nat, c: Byte, n: nat)
    requires d + n <= a.Length
    modifies a
    ensures forall x :: 0 <= x < a.Length ==> a[x] == if d <= x < d + n then c else old(a[x])
  {
    var i := 0;
    while i < n
      invariant i <= n
      invariant forall x :: 0 <= x < a.Length ==> a[x] == if d <= x < d + i then c else old(a[x])
    {
      a[d + i] := c;
      i := i + 1;
    }
  }

  /** Copies correctly however the two ranges overlap. */
  method Memmove(a: array<Byte>, d: nat, s: nat, n: nat)
    requires d + n <= a.Length && s + n <= a.Length
    modifies a
    ensures a[d..d + n] == old(a[s..s + n])
    ensures a[..d] == old(a[..d]) && a[d + n..] == old(a[d + n..])
  {
    if d < s {
      var i := 0;
      while i < n
        invariant i <= n
        invariant forall x :: d <= x < d + i ==> a[x] == old(a[s + (x - d)])
        invariant forall x :: 0 <= x < a.Length && !(d <= x < d + i) ==> a[x] == old(a[x])
      {
        a[d + i] := a[s + i];
        i := i + 1;
      }
    } else {
      var i := n;
      while i > 0
        invariant 0 <= i <= n
        invariant forall x :: d + i <= x < d + n ==> a[x] == old(a[s + (x - d)])
        invariant forall x :: 0 <= x < a.Length && !(d + i <= x < d + n) ==> a[x] == old(a[x])
      {
        i := i - 1;
        a[d + i] := a[s + i];
      }
    }
  }
}

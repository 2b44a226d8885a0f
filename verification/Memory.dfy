/** The digits a bignum routine works on: one address space, in which an operand
    is a pointer and a length, so that operands may share cells as they do in C. */
module Memory {
  import opened Digits

  class Memory {
    var cells: seq<Digit>
  }

  /** Two runs of cells that do not meet. */
  predicate Apart(p: nat, pn: nat, q: nat, qn: nat) {
    p + pn <= q || q + qn <= p
  }

  /** What a source operand may be to a loop that writes upwards from z:
      elsewhere, or in the very same place. */
  predicate Source(x: nat, xn: nat, z: nat, zn: nat) {
    x == z || Apart(x, xn, z, zn)
  }

  /** The same for a loop that writes downwards: the source may also start lower. */
  predicate SourceDown(x: nat, z: nat, n: nat) {
    x <= z || z + n <= x
  }

  /** Only cells z .. z+zn differ between a and b. */
  ghost predicate SameOutside(a: seq<Digit>, b: seq<Digit>, z: nat, zn: nat) {
    |a| == |b| &&
    forall i {:trigger b[i]} :: 0 <= i < |b| && !(z <= i < z + zn) ==> a[i] == b[i]
  }

  /** ... and so every number held elsewhere is the same. */
  ghost predicate Keeps(a: seq<Digit>, b: seq<Digit>, z: nat, zn: nat) {
    SameOutside(a, b, z, zn) &&
    forall p: nat, k: nat {:trigger V(b, p, k)} ::
      p + k <= |b| && Apart(p, k, z, zn) ==> V(a, p, k) == V(b, p, k)
  }

  lemma KeepsIntro(a: seq<Digit>, b: seq<Digit>, z: nat, zn: nat)
    requires SameOutside(a, b, z, zn)
    ensures Keeps(a, b, z, zn)
  {
    forall p: nat, k: nat | p + k <= |b| && Apart(p, k, z, zn)
      ensures V(a, p, k) == V(b, p, k)
    {
      assert a[p..p + k] == b[p..p + k];
      VSame(a, p, b, p, k);
    }
  }

  /** As Keeps, for a routine with a result area z and a work area w; b may have grown. */
  ghost predicate Keeps2(a: seq<Digit>, b: seq<Digit>, z: nat, zn: nat, w: nat, wn: nat) {
    SameOutside2(a, b, z, zn, w, wn) &&
    forall p: nat, k: nat {:trigger V(b, p, k)} ::
      p + k <= |a| && Apart(p, k, z, zn) && Apart(p, k, w, wn) ==> V(a, p, k) == V(b, p, k)
  }

  ghost predicate SameOutside2(a: seq<Digit>, b: seq<Digit>, z: nat, zn: nat, w: nat, wn: nat) {
    |a| <= |b| &&
    forall i {:trigger b[i]} :: 0 <= i < |a| && !(z <= i < z + zn) && !(w <= i < w + wn) ==> a[i] == b[i]
  }

  lemma Keeps2Intro(a: seq<Digit>, b: seq<Digit>, z: nat, zn: nat, w: nat, wn: nat)
    requires SameOutside2(a, b, z, zn, w, wn)
    ensures Keeps2(a, b, z, zn, w, wn)
  {
    forall p: nat, k: nat | p + k <= |a| && Apart(p, k, z, zn) && Apart(p, k, w, wn)
      ensures V(a, p, k) == V(b, p, k)
    {
      assert a[p..p + k] == b[p..p + k];
      VSame(a, p, b, p, k);
    }
  }

  /** ALLOCV_N: fresh cells with arbitrary contents, above everything in use. */
  method Alloc(mem: Memory, n: nat) returns (p: nat)
    modifies mem
    ensures p == |old(mem.cells)| && |mem.cells| == p + n
    ensures Keeps2(old(mem.cells), mem.cells, p, n, p, n)
  {
    p := |mem.cells|;
    var junk: seq<Digit> := *;
    while |junk| < n {
      var d: Digit := *;
      junk := junk + [d];
    }
    mem.cells := mem.cells + junk[..n];
    Keeps2Intro(old(mem.cells), mem.cells, p, n, p, n);
  }

  /** ALLOCV_END: the cells from p on are given back. */
  method Release(mem: Memory, p: nat)
    requires p <= |mem.cells|
    modifies mem
    ensures mem.cells == old(mem.cells)[..p]
    ensures forall q: nat, k: nat {:trigger V(mem.cells, q, k)} ::
              q + k <= p ==> V(mem.cells, q, k) == V(old(mem.cells), q, k)
  {
    ghost var m0 := mem.cells;
    mem.cells := mem.cells[..p];
    forall q: nat, k: nat | q + k <= p
      ensures V(mem.cells, q, k) == V(m0, q, k)
    {
      assert mem.cells[q..q + k] == m0[q..q + k];
      VSame(mem.cells, q, m0, q, k);
    }
  }

  function Bit(b: bool): (r: int) { if b then 1 else 0 }

  /** The step every loop takes: store the low digit of an accumulator and
      carry the rest (`zds[i] = BIGLO(num); num = BIGDN(num)`). */
  method PutDigit(mem: Memory, z: nat, i: nat, num: int) returns (rest: int)
    requires z + i < |mem.cells|
    modifies mem
    ensures mem.cells == old(mem.cells)[z + i := BigLo(num)]
    ensures rest == BigDn(num)
    ensures V(mem.cells, z, i) == V(old(mem.cells), z, i)
    ensures V(mem.cells, z, i + 1) + Sh(rest, i + 1) == V(old(mem.cells), z, i) + Sh(num, i)
  {
    hide Sh, BigLo, BigDn;
    ghost var m0 := mem.cells;
    mem.cells := mem.cells[z + i := BigLo(num)];
    rest := BigDn(num);
    assert mem.cells[z..z + i] == m0[z..z + i];
    VSame(m0, z, mem.cells, z, i);
    CarryOut(num, i);
  }

  /** BDIGITS_ZERO */
  method Zero(mem: Memory, z: nat, n: nat)
    requires z + n <= |mem.cells|
    modifies mem
    ensures Keeps(old(mem.cells), mem.cells, z, n)
    ensures V(mem.cells, z, n) == 0
  {
    hide Sh;
    ghost var m0 := mem.cells;
    var i := 0;
    while i < n
      invariant i <= n
      invariant SameOutside(m0, mem.cells, z, i)
      invariant forall j :: z <= j < z + i ==> mem.cells[j] == 0
    {
      mem.cells := mem.cells[z + i := 0];
      i := i + 1;
    }
    KeepsIntro(m0, mem.cells, z, n);
    VZero(mem.cells, z, n);
  }

  /** MEMCPY, MEMMOVE to a lower place, and any loop that copies digits upwards */
  method Copy(mem: Memory, z: nat, y: nat, n: nat)
    requires z + n <= |mem.cells| && y + n <= |mem.cells|
    requires z <= y || y + n <= z
    modifies mem
    ensures Keeps(old(mem.cells), mem.cells, z, n)
    ensures mem.cells[z..z + n] == old(mem.cells)[y..y + n]
    ensures V(mem.cells, z, n) == V(old(mem.cells), y, n)
  {
    hide Sh;
    ghost var m0 := mem.cells;
    var i := 0;
    while i < n
      invariant i <= n
      invariant SameOutside(m0, mem.cells, z, i)
      invariant forall j {:trigger mem.cells[j]} :: z <= j < z + i ==> mem.cells[j] == m0[y + (j - z)]
    {
      mem.cells := mem.cells[z + i := mem.cells[y + i]];
      i := i + 1;
    }
    assert mem.cells[z..z + n] == m0[y..y + n];
    KeepsIntro(m0, mem.cells, z, n);
    VSame(mem.cells, z, m0, y, n);
  }

  /** Stores a double-width number and clears the digits above. */
  method PutDouble(mem: Memory, z: nat, zn: nat, num: nat)
    requires z + zn <= |mem.cells| && 2 <= zn && num < P(2)
    modifies mem
    ensures Keeps(old(mem.cells), mem.cells, z, zn)
    ensures V(mem.cells, z, zn) == num
  {
    hide Sh, V, P, BigLo, BigDn;
    ghost var m0 := mem.cells;
    VEmpty(m0, z); ShZero(num);
    TwoDigits(num);
    var rest := PutDigit(mem, z, 0, num);
    BigSmall(rest);
    rest := PutDigit(mem, z, 1, rest);
    ShNone(2);
    Zero(mem, z + 2, zn - 2);
    VSplit(mem.cells, z, 2, zn - 2);
    KeepsIntro(m0, mem.cells, z, zn);
  }

  lemma TwoDigits(num: int)
    requires 0 <= num < P(2)
    ensures 0 <= BigDn(num) < BIGRAD
  {
    assert P(2) == P(1) * BIGRAD == P(0) * BIGRAD * BIGRAD;
    BigDnBounds(num, 0, BIGRAD);
  }
}

/**
  The page size classes of sizeclass.h and the lookup table that sizeclass_boot
  fills, with the two roundings extent.c makes of it.
 */
module PageClasses {
  import opened Powers

  const MAX_PSZ := 196608
  const MAX_PSZ_IDX := 63
  const NPSIZES := 62          // classes that PSIZE_CLASSES lists
  const LARGEST := 98304       // pages of the last of them

  /** Pages of class `i`: four classes a doubling. */
  function ClassPages(i: nat): nat
    requires i < NPSIZES
  {
    if i < 4 then i + 1 else (5 + i % 4) * Pow2(i / 4 - 1)
  }

  /** The table has one entry more than there are classes; static storage leaves it zero. */
  function TableEntry(i: nat): nat
    requires i < MAX_PSZ_IDX
  {
    if i < NPSIZES then ClassPages(i) else 0
  }

  /** The first eight classes have 1 to 8 pages; from there on each has twice the pages of the fourth before it. */
  lemma ClassesDouble(i: nat)
    requires i < NPSIZES
    ensures if i < 8 then ClassPages(i) == i + 1 else ClassPages(i) == 2 * ClassPages(i - 4)
  {
    if i >= 8 {
      Quarters(i);
      Doubled(5 + i % 4, Pow2((i - 4) / 4 - 1));
    } else if i >= 4 {
      assert i / 4 == 1 && i % 4 == i - 4;
      assert Pow2(0) == 1;
    }
  }

  lemma Quarters(i: nat)
    requires i >= 8
    ensures i % 4 == (i - 4) % 4 && i / 4 - 1 == (i - 4) / 4 - 1 + 1 && (i - 4) / 4 >= 1
  {
  }

  lemma Doubled(x: nat, p: nat)
    ensures x * (2 * p) == 2 * (x * p)
  {
  }

  lemma ClassStep(i: nat)
    requires i + 1 < NPSIZES
    ensures 0 < ClassPages(i) < ClassPages(i + 1)
  {
    if i >= 3 {
      if i % 4 == 3 {
        assert (i + 1) / 4 == i / 4 + 1 && (i + 1) % 4 == 0;
      } else {
        assert (i + 1) / 4 == i / 4 && (i + 1) % 4 == i % 4 + 1;
        var p := Pow2(i / 4 - 1);
        assert (6 + i % 4) * p == (5 + i % 4) * p + p;
      }
    }
  }

  lemma {:induction false} ClassesIncrease(i: nat, j: nat)
    requires i < j < NPSIZES
    ensures 0 < ClassPages(i) < ClassPages(j)
  {
    ClassStep(j - 1);
    if i < j - 1 { ClassesIncrease(i, j - 1); }
  }

  lemma LargestClass()
    ensures ClassPages(NPSIZES - 1) == LARGEST
  {
    assert Pow2(4) == 16;
    assert Pow2(8) == 256;
    assert Pow2(12) == 4096;
    assert Pow2(14) == 16384;
    assert ClassPages(61) == 6 * Pow2(14);
  }

  lemma FirstClass()
    ensures ClassPages(0) == 1
  {
  }

  /** Class `i` is the smallest that holds `n` pages. */
  predicate IsCeiling(n: nat, i: nat) {
    i < NPSIZES && n <= ClassPages(i) && (i > 0 ==> ClassPages(i - 1) < n)
  }

  lemma CeilingUnique(n: nat, i: nat, j: nat)
    requires IsCeiling(n, i) && IsCeiling(n, j)
    ensures i == j
  {
    if i < j - 1 { ClassesIncrease(i, j - 1); }
    if j < i - 1 { ClassesIncrease(j, i - 1); }
  }

  function CeilingFrom(n: nat, i: nat): (r: nat)
    requires i < NPSIZES && n <= LARGEST && (i > 0 ==> ClassPages(i - 1) < n)
    ensures IsCeiling(n, r)
    decreases NPSIZES - i
  {
    LargestClass();
    if n <= ClassPages(i) then i else CeilingFrom(n, i + 1)
  }

  /** What psizeclass_lookup holds once it is filled; entries past the largest class keep their zero. */
  function Lookup(n: nat): nat {
    if n <= LARGEST then CeilingFrom(n, 0) else 0
  }

  /** The page half of sizeclass_boot. */
  method BootLookup() returns (lookup: array<nat>)
    ensures fresh(lookup) && lookup.Length == MAX_PSZ + 1
    ensures forall n :: 0 <= n <= MAX_PSZ ==> lookup[n] == Lookup(n)
  {
    lookup := new nat[MAX_PSZ + 1](_ => 0);
    var at := 0;
    LargestClass();
    for psc := 0 to MAX_PSZ_IDX
      invariant at == if psc == 0 then 0 else if psc <= NPSIZES then ClassPages(psc - 1) + 1 else LARGEST + 1
      invariant at <= LARGEST + 1
      invariant forall n :: 0 <= n < at ==> lookup[n] == Lookup(n)
      invariant forall n :: at <= n <= MAX_PSZ ==> lookup[n] == 0
    {
      var npages := TableEntry(psc);
      if 0 < psc < NPSIZES { ClassStep(psc - 1); }
      if psc < NPSIZES - 1 { ClassesIncrease(psc, NPSIZES - 1); }
      while at <= npages
        invariant at <= npages + 1 || psc == NPSIZES
        invariant psc < NPSIZES ==> (if psc == 0 then 0 else ClassPages(psc - 1) + 1) <= at
        invariant psc == NPSIZES ==> at == LARGEST + 1
        invariant forall n :: 0 <= n < at ==> lookup[n] == Lookup(n)
        invariant forall n :: at <= n <= MAX_PSZ ==> lookup[n] == 0
      {
        CeilingUnique(at, psc, CeilingFrom(at, 0));
        lookup[at] := psc;
        at := at + 1;
      }
    }
  }

  /** Rounding a request up to its class, as the large allocation path does. */
  function RoundUp(n: nat): nat {
    TableEntry(Lookup(n))
  }

  /** The rounding covers a request exactly when the request does not pass the largest class. */
  lemma RoundUpCovers(n: nat)
    requires 1 <= n <= MAX_PSZ
    ensures n <= RoundUp(n) <==> n <= LARGEST
    ensures n <= LARGEST ==> forall i: nat :: i < NPSIZES && n <= ClassPages(i) ==> RoundUp(n) <= ClassPages(i)
  {
    if n <= LARGEST {
      forall i: nat | i < NPSIZES && n <= ClassPages(i) ensures RoundUp(n) <= ClassPages(i) {
        if i < Lookup(n) - 1 { ClassesIncrease(i, Lookup(n) - 1); }
        if Lookup(n) < i { ClassesIncrease(Lookup(n), i); }
      }
    }
  }

  /** get_psizeclass_floor: the class a free extent is filed under. */
  function Floor(n: nat): int {
    var p, q := Lookup(n), Lookup(n + 1);
    if p == q then p - 1 else p
  }

  /** An extent has a class to be filed under exactly when it does not pass the largest class; the class is then the largest that is not above it. */
  lemma FloorClass(n: nat)
    requires 1 <= n < MAX_PSZ
    ensures 0 <= Floor(n) <==> n <= LARGEST
    ensures n <= LARGEST ==> Floor(n) < NPSIZES && ClassPages(Floor(n)) <= n
    ensures n <= LARGEST && Floor(n) + 1 < NPSIZES ==> n < ClassPages(Floor(n) + 1)
  {
    hide ClassPages;
    var p := Lookup(n);
    LargestClass();
    FirstClass();
    if n > LARGEST {
    } else if n == LARGEST {
      CeilingUnique(n, p, NPSIZES - 1) by { ClassStep(NPSIZES - 2); }
    } else if n == ClassPages(p) {
      ClassStep(p) by { if p == NPSIZES - 1 { assert false; } }
      CeilingUnique(n + 1, Lookup(n + 1), p + 1);
    } else {
      CeilingUnique(n + 1, Lookup(n + 1), p);
    }
  }

  /** An extent filed under a class at or above the ceiling of a request holds the request, for every such extent exactly when the request does not pass the largest class. */
  lemma FiledExtentFits(npages: nat)
    requires 1 <= npages <= MAX_PSZ
    ensures npages <= LARGEST <==> forall size: nat :: 1 <= size < MAX_PSZ && Lookup(npages) <= Floor(size) ==> npages <= size
  {
    if npages <= LARGEST {
      forall size: nat | 1 <= size < MAX_PSZ && Lookup(npages) <= Floor(size) ensures npages <= size {
        FloorClass(size);
        if Lookup(npages) < Floor(size) { ClassesIncrease(Lookup(npages), Floor(size)); }
      }
    } else {
      FloorClass(1);
      assert Lookup(npages) <= Floor(1);
    }
  }
}

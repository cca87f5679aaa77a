/**
  How a slab is laid out, and how a new size class is laid over a slab that still
  holds blocks of an old one.  Offsets are bytes from the start of the slab.
 */
module SlabLayout {
  import opened Interleave
  import opened Powers

  const SLAB_SIZE := 65536

  /** sizeclass_t: where the metadata, the table of old blocks and the blocks begin. */
  datatype SizeClass = SizeClass(moffset: nat, toffset: nat, roffset: nat, nbits: nat, words: nat, bitsize: nat) {
    /** Where block `b` begins: each begins where the one before it ends. */
    function Addr(b: nat): nat {
      if b == 0 then roffset else Addr(b - 1) + bitsize
    }

    /** The blocks end inside the slab, and there is no room for one more. */
    predicate Tight() {
      Addr(nbits) <= SLAB_SIZE < Addr(nbits + 1)
    }

    /** The bitmap has a bit for the block past the last, or no byte of the slab lies in that block. */
    predicate Roomy() {
      nbits % 64 != 0 || Addr(nbits) == SLAB_SIZE
    }
  }

  lemma {:induction false} AddrIs(sc: SizeClass, b: nat)
    ensures sc.Addr(b) == sc.roffset + b * sc.bitsize
  {
    if b > 0 {
      AddrIs(sc, b - 1);
      assert b * sc.bitsize == (b - 1) * sc.bitsize + sc.bitsize;
    }
  }

  lemma {:induction false} AddrRises(sc: SizeClass, b: nat, c: nat)
    requires b <= c
    ensures sc.Addr(b) <= sc.Addr(c) && (b < c ==> sc.Addr(b) + sc.bitsize <= sc.Addr(c))
    decreases c - b
  {
    if b < c { AddrRises(sc, b, c - 1); }
  }

  /** `n` blocks fit above `overhead`, and one more does not. */
  predicate Packed(n: nat, bitsize: nat, overhead: nat) {
    n * bitsize + overhead <= SLAB_SIZE < (n + 1) * bitsize + overhead
  }

  function WordsFor(nbits: nat): nat {
    (nbits + 63) / 64
  }

  lemma WordsHold(nbits: nat)
    ensures nbits <= 64 * WordsFor(nbits) < nbits + 64 && (nbits % 64 != 0 ==> nbits < 64 * WordsFor(nbits))
  {
  }

  lemma MetaMonotone(m: nat, n: nat)
    requires m <= n
    ensures MetaSize(m) <= MetaSize(n)
  {
    var x, y := (m + 7) / 8, (n + 7) / 8;
    assert (x + 383) / 384 <= (y + 383) / 384;
  }

  /** The slab part of sizeclass_boot: as many blocks as fit above the header and their metadata. */
  method BootClass(bitsize: nat, head: nat) returns (sc: SizeClass)
    requires 0 < bitsize && head <= SLAB_SIZE
    ensures sc.bitsize == bitsize && sc.moffset == head && sc.roffset == head + MetaSize(sc.nbits) && sc.words == WordsFor(sc.nbits)
    ensures sc.Addr(sc.nbits) <= SLAB_SIZE
    ensures (sc.nbits + 1) * bitsize + head + MetaSize(sc.nbits + 1) > SLAB_SIZE
  {
    hide MetaSize;
    var nbits: nat := SLAB_SIZE / bitsize + 1;
    TooMany(bitsize);
    ZeroTimes(bitsize);
    NoMeta();
    while nbits * bitsize + head + MetaSize(nbits) > SLAB_SIZE
      invariant nbits * bitsize + head + MetaSize(nbits) > SLAB_SIZE || (nbits + 1) * bitsize + head + MetaSize(nbits + 1) > SLAB_SIZE
      decreases nbits
    {
      nbits := nbits - 1;
    }
    sc := SizeClass(head, 0, head + MetaSize(nbits), nbits, WordsFor(nbits), bitsize);
    AddrIs(sc, nbits);
  }

  lemma TooMany(bitsize: nat)
    requires bitsize > 0
    ensures (SLAB_SIZE / bitsize + 1) * bitsize > SLAB_SIZE
  {
    assert SLAB_SIZE / bitsize * bitsize + SLAB_SIZE % bitsize == SLAB_SIZE;
  }

  lemma ZeroTimes(x: nat)
    ensures 0 * x == 0
  {
  }

  lemma NoMeta()
    ensures MetaSize(0) == 0
  {
  }

  /** sizeclass_reset: room is left for the largest metadata of any class and for the table. */
  method Reset(sc: SizeClass, metaSize: nat, tableSize: nat) returns (r: SizeClass)
    requires sc.bitsize > 0 && sc.moffset + metaSize + tableSize <= SLAB_SIZE
    ensures r.bitsize == sc.bitsize && r.moffset == sc.moffset && r.toffset == sc.moffset + metaSize
    ensures r.roffset == r.toffset + tableSize && r.words == WordsFor(r.nbits)
    ensures r.Tight()
  {
    var nbits: nat := SLAB_SIZE / sc.bitsize + 1;
    var overhead := sc.moffset + metaSize + tableSize;
    TooMany(sc.bitsize);
    ZeroTimes(sc.bitsize);
    while nbits * sc.bitsize + overhead > SLAB_SIZE
      invariant nbits * sc.bitsize + overhead > SLAB_SIZE || Packed(nbits, sc.bitsize, overhead)
      decreases nbits
    {
      nbits := nbits - 1;
    }
    r := sc.(nbits := nbits, toffset := sc.moffset + metaSize, roffset := overhead, words := WordsFor(nbits));
    AddrIs(r, nbits);
    AddrIs(r, nbits + 1);
  }

  /** The bytes of the table of old blocks: two for each, in whole cache lines. */
  function TableSize(used: nat): (r: nat)
    ensures 2 * used <= r < 2 * used + 64 && r % 64 == 0
  {
    (2 * used + 63) / 64 * 64
  }

  /** Without that room, an old block that ends with the slab is counted past the end of the bitmap. */
  lemma RoomNeeded(prev: SizeClass, sc: SizeClass, j: nat)
    requires sc.bitsize > 0 && sc.Tight() && prev.bitsize > 0 && prev.Addr(j) + prev.bitsize == SLAB_SIZE
    ensures !sc.Roomy() <==> 64 * WordsFor(sc.nbits) <= sc.nbits && Touches(prev, sc, j, sc.nbits)
  {
  }

  function NewBlocks(bitsize: nat, overhead: nat): nat
    requires bitsize > 0 && overhead <= SLAB_SIZE
  {
    (SLAB_SIZE - overhead) / bitsize
  }

  /** The bitmap of as many blocks as fit has room for one more, or the blocks leave no byte over. */
  predicate RoomFor(bitsize: nat, overhead: nat)
    requires bitsize > 0 && overhead <= SLAB_SIZE
  {
    NewBlocks(bitsize, overhead) % 64 != 0 || NewBlocks(bitsize, overhead) * bitsize + overhead == SLAB_SIZE
  }

  lemma RoomIsRoomy(sc: SizeClass)
    requires sc.bitsize > 0 && sc.Tight() && sc.roffset <= SLAB_SIZE && RoomFor(sc.bitsize, sc.roffset)
    ensures sc.Roomy()
  {
    AddrIs(sc, sc.nbits);
    var x := SLAB_SIZE - sc.roffset;
    DivMod(x, sc.nbits, x - sc.nbits * sc.bitsize, sc.bitsize);
  }

  /** SIZE_CLASSES: four classes to a doubling. */
  function ClassSize(i: nat): (s: nat)
    requires i < 39
    ensures s > 0
  {
    if i < 4 then 8 * (i + 1) else
      MulMonotone(1, 5 + i % 4, Pow2(i / 4 + 2));
      (5 + i % 4) * Pow2(i / 4 + 2)
  }

  lemma ClassSizeDoubles(i: nat)
    requires i < 39
    ensures if i < 8 then ClassSize(i) == 8 * (i + 1) else ClassSize(i) == 2 * ClassSize(i - 4)
  {
    if i >= 8 {
      assert i % 4 == (i - 4) % 4 && i / 4 + 2 == (i - 4) / 4 + 2 + 1;
    } else if i >= 4 {
      assert Pow2(3) == 8;
    }
  }

  /**
    With the header of 64 bytes and metadata of at most 1152, every size class has
    room in its bitmap for whatever morphing counts: the two layouts whose blocks
    fill whole words, of 8 and of 40 bytes with a table of 320, leave no byte over.
   */
  lemma ClassesRoomy(i: nat, used: nat)
    requires i < 39 && used <= 204
    ensures RoomFor(ClassSize(i), 64 + 1152 + TableSize(used))
  {
    var size, l := ClassSize(i), TableSize(used) / 64;
    var n := NewBlocks(size, 64 + 1152 + 64 * l);
    DivIs(64 * (1005 - l), size);
    if n % 64 == 0 {
      var m := n / 64;
      assert n * size == 64 * (m * size) by { Regroup(m, size); }
      if i >= 4 {
        Doublings();
        NoneOver(i % 4, Pow2(i / 4 + 2), m, l);
      }
    }
  }

  lemma Regroup(m: nat, size: nat)
    ensures 64 * m * size == 64 * (m * size)
  {
  }

  lemma DivIs(x: nat, d: nat)
    requires d > 0
    ensures x / d * d <= x < x / d * d + d
  {
    assert x / d * d + x % d == x;
  }

  lemma Doublings()
    ensures Pow2(3) == 8 && Pow2(4) == 16 && Pow2(5) == 32 && Pow2(6) == 64 && Pow2(7) == 128
    ensures Pow2(8) == 256 && Pow2(9) == 512 && Pow2(10) == 1024 && Pow2(11) == 2048
  {
    assert Pow2(3) == 8;
    assert Pow2(5) == 32;
    assert Pow2(7) == 128;
    assert Pow2(9) == 512;
  }

  /** No 998 to 1005 cache lines come near a multiple of these sizes. */
  lemma FarFromMultiple(k: nat, p: nat, m: nat, l: nat)
    requires k < 4 && l < 8 && (p == 16 || p == 32 || p == 64 || p == 128) && m * ((5 + k) * p) <= 1005 - l
    ensures 64 * (1005 - l - m * ((5 + k) * p)) >= (5 + k) * p
  {
    var size := (5 + k) * p;
    if p == 16 {
      assert size == 80 || size == 96 || size == 112 || size == 128;
    } else if p == 32 {
      assert size == 160 || size == 192 || size == 224 || size == 256;
    } else if p == 64 {
      assert size == 320 || size == 384 || size == 448 || size == 512;
    } else {
      assert size == 640 || size == 768 || size == 896 || size == 1024;
    }
  }

  /** Counted in cache lines, the room for blocks divided by 64 blocks leaves nothing, or a block of room more. */
  lemma NoneOver(k: nat, p: nat, m: nat, l: nat)
    requires k < 4 && l < 8 && (p == 8 || p == 16 || p == 32 || p == 64 || p == 128 || p == 256 || p == 512 || p == 1024 || p == 2048)
    requires m * ((5 + k) * p) <= 1005 - l && 64 * (1005 - l - m * ((5 + k) * p)) < (5 + k) * p
    ensures m * ((5 + k) * p) == 1005 - l
  {
    var size := (5 + k) * p;
    if 8 < p <= 128 {
      FarFromMultiple(k, p, m, l);
    } else if p > 128 && m > 0 {
      MulMonotone(1, m, size);
    }
  }

  /** The largest metadata of any class is that of 8-byte blocks. */
  lemma MetaBound(sc: SizeClass)
    requires sc.bitsize >= 8 && sc.roffset == 64 + MetaSize(sc.nbits) && sc.Addr(sc.nbits) <= SLAB_SIZE
    ensures MetaSize(sc.nbits + 1) <= 1152
    ensures sc.bitsize == 8 && (sc.nbits + 1) * 8 + 64 + MetaSize(sc.nbits + 1) > SLAB_SIZE ==> MetaSize(sc.nbits + 1) == 1152
  {
    AddrIs(sc, sc.nbits);
    MulMonotone(8, sc.bitsize, sc.nbits);
    Commute(sc.nbits, sc.bitsize);
    MetaMonotone(sc.nbits + 1, 8190);
  }

  /** A class laid over an old one never has more blocks than on a slab of its own, so its metadata bits fit, the one past the end included. */
  lemma ResetShrinks(sc: SizeClass, r: SizeClass, metaSize: nat, b: nat)
    requires sc.bitsize == r.bitsize > 0 && sc.moffset == r.moffset && r.toffset == r.moffset + metaSize && r.toffset <= r.roffset
    requires (sc.nbits + 1) * sc.bitsize + sc.moffset + MetaSize(sc.nbits + 1) > SLAB_SIZE
    requires r.Tight() && MetaSize(sc.nbits + 1) <= metaSize && b <= r.nbits
    ensures r.nbits <= sc.nbits
    ensures Map(b, NBANKS, 512) < 8 * (r.toffset - r.moffset)
  {
    AddrIs(r, r.nbits);
    if r.nbits > sc.nbits {
      MulMonotone(sc.nbits + 1, r.nbits, sc.bitsize);
    }
    MetaMonotone(r.nbits + 1, sc.nbits + 1);
    MetaInside(b, r.nbits + 1);
  }

  // ------------------------------------------------------------------ old blocks under new ones

  /** Old block `j` and new block `b` share a byte. */
  predicate Touches(prev: SizeClass, sc: SizeClass, j: nat, b: nat) {
    sc.Addr(b) < prev.Addr(j) + prev.bitsize && prev.Addr(j) < sc.Addr(b) + sc.bitsize
  }

  /** The new block in which an address falls. */
  function Place(sc: SizeClass, addr: nat): int
    requires sc.bitsize > 0
  {
    (addr - sc.roffset) / sc.bitsize
  }

  lemma PlaceAt(sc: SizeClass, addr: nat)
    requires sc.bitsize > 0 && addr >= sc.roffset
    ensures Place(sc, addr) >= 0 && sc.Addr(Place(sc, addr)) <= addr < sc.Addr(Place(sc, addr)) + sc.bitsize
  {
    var x := addr - sc.roffset;
    assert x / sc.bitsize * sc.bitsize + x % sc.bitsize == x;
    AddrIs(sc, Place(sc, addr));
  }

  /** The walk of slab_morphing, from the first block on while a block begins below the end of the old one, meets exactly the blocks it touches. */
  lemma WalkIsTouches(prev: SizeClass, sc: SizeClass, j: nat, b: nat)
    requires sc.bitsize > 0 && sc.roffset <= prev.Addr(j) && prev.bitsize > 0
    ensures Touches(prev, sc, j, b) <==> Place(sc, prev.Addr(j)) <= b && sc.Addr(b) < prev.Addr(j) + prev.bitsize
  {
    var p := Place(sc, prev.Addr(j));
    PlaceAt(sc, prev.Addr(j));
    if p <= b {
      AddrRises(sc, p, b);
    } else {
      AddrRises(sc, b, p);
    }
  }

  /** No old block reaches past the block just beyond the last. */
  lemma TouchBound(prev: SizeClass, sc: SizeClass, j: nat, b: nat)
    requires sc.Tight() && j < prev.nbits && prev.Addr(prev.nbits) <= SLAB_SIZE && Touches(prev, sc, j, b)
    ensures b <= sc.nbits
  {
    AddrRises(prev, j, prev.nbits);
    if b > sc.nbits { AddrRises(sc, sc.nbits + 1, b); }
  }

  /** When step 3 accepts for the lowest live block, everything the new class writes lies below every live block. */
  lemma AcceptedIsClear(prev: SizeClass, sc: SizeClass, first: nat, j: nat)
    requires sc.roffset <= prev.Addr(first) && first <= j
    ensures sc.roffset <= prev.Addr(j)
  {
    AddrRises(prev, first, j);
  }

  /** A new block begins in itself. */
  lemma PlaceOfNew(sc: SizeClass, b: nat)
    requires sc.bitsize > 0
    ensures Place(sc, sc.Addr(b)) == b
  {
    AddrIs(sc, b);
    DivMod(b * sc.bitsize, b, 0, sc.bitsize);
  }

  lemma PlaceOfOld(prev: SizeClass, addr: nat, j: nat)
    requires prev.bitsize > 0 && addr == prev.Addr(j)
    ensures Place(prev, addr) == j
  {
    PlaceOfNew(prev, j);
  }

  /** Morphing takes slabs at most a fifth full of blocks of 64 bytes or more, so the count of old blocks fits a byte and their ids 14 bits. */
  lemma CountFits(prev: SizeClass, used: nat, j: nat)
    requires prev.bitsize >= 64 && prev.Addr(prev.nbits) <= SLAB_SIZE && 5 * used <= prev.nbits && j < prev.nbits
    ensures used < 256 && j < 16384
  {
    AddrIs(prev, prev.nbits);
    MulMonotone(64, prev.bitsize, prev.nbits);
    Commute(prev.nbits, prev.bitsize);
  }
}

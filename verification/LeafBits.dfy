/**
  The one word of a leaf element of the radix tree: size index, extent pointer and
  slab bit, on a machine with 48 significant address bits.  Shifts and masks of the
  64-bit words are written as the divisions and remainders they are.
 */
module LeafBits {
  const LOW := 0x1_0000_0000_0000   // two to the 48
  const HIGH := 0x1_0000            // two to the 16

  type Word = x: nat | x < HIGH * LOW witness 0

  /** A word with the lowest bit or-ed in. */
  function OrBit(x: nat, b: bool): nat {
    if b && x % 2 == 0 then x + 1 else x
  }

  /** rtree_leaf_elm_write. */
  function Pack(extent: Word, szind: nat, slab: bool): (r: Word)
    ensures r % LOW == OrBit(extent % LOW, slab) && r / LOW == szind % HIGH
  {
    Parts(szind % HIGH, OrBit(extent % LOW, slab));
    szind % HIGH * LOW + OrBit(extent % LOW, slab)
  }

  lemma Parts(q: nat, r: nat)
    requires r < LOW
    ensures (q * LOW + r) / LOW == q && (q * LOW + r) % LOW == r
  {
  }

  /** The arithmetic shift that restores the high bits of an address, and the mask that drops the slab bit. */
  function ExtentOf(bits: Word): Word {
    var x := bits % LOW;
    var wide := if x >= LOW / 2 then x + (HIGH - 1) * LOW else x;
    wide - wide % 2
  }

  function SzindOf(bits: Word): nat {
    bits / LOW
  }

  function SlabOf(bits: Word): bool {
    bits % 2 == 1
  }

  /** rtree_leaf_elm_extent_write. */
  function SetExtent(bits: Word, extent: Word): Word {
    Pack(extent, SzindOf(bits), SlabOf(bits))
  }

  /** rtree_leaf_elm_szind_write. */
  function SetSzind(bits: Word, szind: nat): Word {
    Pack(ExtentOf(bits), szind, SlabOf(bits))
  }

  /** rtree_leaf_elm_slab_write. */
  function SetSlab(bits: Word, slab: bool): Word {
    Pack(ExtentOf(bits), SzindOf(bits), slab)
  }

  /** An address whose 16 high bits repeat bit 47. */
  predicate Canonical(x: Word) {
    x < LOW / 2 || x >= HIGH * LOW - LOW / 2
  }

  lemma LowParity(x: nat)
    ensures x % LOW % 2 == x % 2
  {
    assert x == x / LOW * LOW + x % LOW;
    assert LOW == 2 * (LOW / 2);
  }

  lemma OrBitKeeps(e: nat, slab: bool)
    ensures OrBit(e, slab) - OrBit(e, slab) % 2 == e - e % 2
    ensures OrBit(e, slab) >= LOW / 2 <==> e >= LOW / 2
    ensures OrBit(e, slab) % 2 == 1 <==> slab || e % 2 == 1
  {
    assert LOW / 2 % 2 == 0;
  }

  lemma EvenTop(x: nat)
    ensures (x + (HIGH - 1) * LOW) % 2 == x % 2
  {
    assert x + (HIGH - 1) * LOW == x + 2 * ((HIGH - 1) * (LOW / 2));
  }

  /** What the pointer of a packed word reads, by its low 48 bits. */
  lemma ExtentReads(bits: Word, e: nat, slab: bool)
    requires bits % LOW == OrBit(e, slab) && e < LOW
    ensures ExtentOf(bits) == e - e % 2 + if e < LOW / 2 then 0 else (HIGH - 1) * LOW
  {
    OrBitKeeps(e, slab);
    EvenTop(bits % LOW);
  }

  lemma CanonicalParts(h: nat, e: nat)
    requires h < HIGH && e < LOW
    ensures Canonical(h * LOW + e) <==> h == if e < LOW / 2 then 0 else HIGH - 1
  {
  }

  lemma WordParts(x: Word)
    ensures x / LOW < HIGH && x % LOW < LOW && x == x / LOW * LOW + x % LOW
  {
  }

  /**
    Each field reads back as it was written exactly when it fits: the pointer is
    canonical and even, the index has 16 bits, and an odd pointer does not set the
    slab bit.
   */
  lemma PackReads(extent: Word, szind: nat, slab: bool)
    ensures ExtentOf(Pack(extent, szind, slab)) == extent <==> Canonical(extent) && extent % 2 == 0
    ensures SzindOf(Pack(extent, szind, slab)) == szind <==> szind < HIGH
    ensures SlabOf(Pack(extent, szind, slab)) == slab <==> slab || extent % 2 == 0
  {
    PackExtent(extent, szind, slab);
    PackSzind(extent, szind, slab);
    PackSlab(extent, szind, slab);
  }

  lemma PackExtent(extent: Word, szind: nat, slab: bool)
    ensures ExtentOf(Pack(extent, szind, slab)) == extent <==> Canonical(extent) && extent % 2 == 0
  {
    hide Pack, ExtentOf, Canonical;
    WordParts(extent);
    LowParity(extent);
    ExtentReads(Pack(extent, szind, slab), extent % LOW, slab);
    CanonicalParts(extent / LOW, extent % LOW);
  }

  lemma PackSzind(extent: Word, szind: nat, slab: bool)
    ensures SzindOf(Pack(extent, szind, slab)) == szind <==> szind < HIGH
  {
    hide Pack;
  }

  lemma PackSlab(extent: Word, szind: nat, slab: bool)
    ensures SlabOf(Pack(extent, szind, slab)) == slab <==> slab || extent % 2 == 0
  {
    hide Pack;
    LowParity(Pack(extent, szind, slab));
    LowParity(extent);
    OrBitKeeps(extent % LOW, slab);
  }

  /** Whatever the word holds, its pointer is canonical and even, and its index has 16 bits. */
  lemma FieldsFit(bits: Word)
    ensures Canonical(ExtentOf(bits)) && ExtentOf(bits) % 2 == 0 && SzindOf(bits) < HIGH
  {
    LowParity(bits);
  }

  /** Writing one field leaves the two others. */
  lemma SetsOneField(bits: Word, extent: Word, szind: nat, slab: bool)
    ensures SzindOf(SetExtent(bits, extent)) == SzindOf(bits) && (extent % 2 == 0 ==> SlabOf(SetExtent(bits, extent)) == SlabOf(bits))
    ensures Canonical(extent) && extent % 2 == 0 ==> ExtentOf(SetExtent(bits, extent)) == extent
    ensures ExtentOf(SetSzind(bits, szind)) == ExtentOf(bits) && SlabOf(SetSzind(bits, szind)) == SlabOf(bits)
    ensures szind < HIGH ==> SzindOf(SetSzind(bits, szind)) == szind
    ensures ExtentOf(SetSlab(bits, slab)) == ExtentOf(bits) && SzindOf(SetSlab(bits, slab)) == SzindOf(bits) && SlabOf(SetSlab(bits, slab)) == slab
  {
    hide Pack, ExtentOf, SzindOf, SlabOf, Canonical;
    FieldsFit(bits);
    PackReads(extent, SzindOf(bits), SlabOf(bits));
    PackReads(ExtentOf(bits), szind, SlabOf(bits));
    PackReads(ExtentOf(bits), SzindOf(bits), slab);
  }

  /** Writing the fields one by one, as rtree_leaf_elm_szind_slab_update does with two of them, comes to one write of the word. */
  lemma SetsArePack(bits: Word, extent: Word, szind: nat, slab: bool)
    requires szind < HIGH && extent % 2 == 0
    ensures SetSzind(SetSlab(bits, slab), szind) == Pack(ExtentOf(bits), szind, slab)
    ensures SetExtent(SetSzind(SetSlab(bits, slab), szind), extent) == Pack(extent, szind, slab)
  {
    hide Pack, ExtentOf, SzindOf, SlabOf, Canonical;
    FieldsFit(bits);
    PackReads(ExtentOf(bits), SzindOf(bits), slab);
    PackReads(ExtentOf(bits), szind, slab);
  }
}

/**
  The blocks of one slab, as values: what the volatile bitmap, the overlap counts,
  the metadata bits, the remote bitmap and the table of old blocks say about who
  has each block.
 */
module SlabBlocks {
  import opened Interleave
  import opened SlabLayout

  /** sb_table_t: an old block and how far its free has come. */
  datatype OldEntry = OldEntry(bid: nat, freed: nat)

  /** vslab_t and the metadata on the slab. */
  datatype Slab = Slab(
    sc: SizeClass,
    scB: SizeClass,
    bits: seq<bool>,        // a clear bit is a block in use
    nbits: nat,
    oldLeft: nat,
    overlaps: seq<nat>,         // old blocks over each new block
    meta: seq<bool>,        // the metadata bits, by interleaved place
    rbits: seq<bool>,       // a clear bit is a block freed from another node
    rdirty: bool,
    table: seq<OldEntry>)

  /** Who has which block: old blocks of the previous class, blocks handed out, blocks freed remotely, and in whose thread cache. */
  datatype Holders = Holders(olds: set<nat>, live: set<nat>, remote: set<nat>, place: map<nat, int>)

  function Used(bits: seq<bool>): set<nat> {
    set b: nat | b < |bits| && !bits[b]
  }

  const GROUP := 3072   // the bits of a line in each bank

  /** bid_to_mid: six blocks further the next bit of a line, and after a group of lines the next group. */
  function Mid(b: nat): nat {
    if b >= GROUP then Mid(b - GROUP) + GROUP else if b >= NBANKS then Mid(b - NBANKS) + 1 else 512 * b
  }

  /** Which is the interleaved mapping. */
  lemma {:induction false} MidIsMap(b: nat)
    ensures Mid(b) == Map(b, NBANKS, 512)
  {
    hide Map;
    NextSlot(b, NBANKS, 512);
    if b >= GROUP {
      MidIsMap(b - GROUP);
    } else if b >= NBANKS {
      MidIsMap(b - NBANKS);
    }
  }

  /** A block of the present class that is in use. */
  predicate Has(g: Holders, b: nat) {
    b in g.live || b in g.remote || b in g.place
  }

  predicate Covered(s: Slab, b: nat) {
    b < |s.overlaps| && s.overlaps[b] > 0
  }

  /** A block in use is in one state, belongs to the class and lies under no old block. */
  ghost predicate OneState(s: Slab, g: Holders) {
    && g.live !! g.remote && g.live !! g.place.Keys && g.remote !! g.place.Keys
    && forall b: nat :: Has(g, b) ==> b < s.sc.nbits && b < |s.overlaps| && s.overlaps[b] == 0
  }

  /** A bit is clear exactly when the block is in use or under an old block, and the header counts the clear bits. */
  ghost predicate BitsTell(s: Slab, g: Holders) {
    && (forall b: nat :: b < |s.bits| ==> (!s.bits[b] <==> Has(g, b) || Covered(s, b)))
    && (forall b: nat :: b < |s.overlaps| && s.overlaps[b] > 0 ==> b < |s.bits|)
    && s.nbits == |Used(s.bits)|
  }

  /** A metadata bit is set exactly when the block is handed out, freed from another node, or under an old block. */
  ghost predicate MetaTells(s: Slab, g: Holders) {
    forall b: nat :: b < |s.overlaps| && (b < s.sc.nbits || s.overlaps[b] > 0) ==>
      Mid(b) < |s.meta| && (s.meta[Mid(b)] <==> b in g.live || b in g.remote || s.overlaps[b] > 0)
  }

  ghost predicate RemoteTells(s: Slab, g: Holders) {
    && (forall b: nat :: b < |s.rbits| ==> (!s.rbits[b] <==> b in g.remote))
    && (forall b :: b in g.remote ==> b < |s.rbits|)
  }

  /** The bitmap, the counts, the metadata and the remote bitmap agree on who has each block. */
  ghost predicate Core(s: Slab, g: Holders) {
    && s.sc.bitsize > 0 && |s.overlaps| == s.sc.nbits + 1 && s.sc.nbits <= |s.bits|
    && OneState(s, g) && BitsTell(s, g) && MetaTells(s, g) && RemoteTells(s, g)
  }

  function Over(s: Slab, olds: set<nat>, b: nat): set<nat> {
    set j | j in olds && Touches(s.scB, s.sc, j, b)
  }

  /** Each count is the number of live old blocks over the block. */
  ghost predicate Counted(s: Slab, g: Holders) {
    forall b: nat :: b < |s.overlaps| ==> s.overlaps[b] == |Over(s, g.olds, b)|
  }

  /** The live old blocks lie above what the new class writes and inside the slab. */
  ghost predicate OldFits(s: Slab, g: Holders) {
    && s.oldLeft == |g.olds| && s.sc.Addr(s.sc.nbits) <= SLAB_SIZE
    && (g.olds != {} ==>
        && s.scB.bitsize > 0 && s.scB.Addr(s.scB.nbits) <= SLAB_SIZE
        && s.sc.Tight())
    && (forall j :: j in g.olds ==> j < s.scB.nbits && s.sc.roffset <= s.scB.Addr(j))
  }

  /** The table lists every live old block once, with its free not begun, and freed ones as done. */
  ghost predicate Tabled(s: Slab, g: Holders) {
    && (forall k, l :: 0 <= k < l < |s.table| ==> s.table[k].bid != s.table[l].bid)
    && (forall k :: 0 <= k < |s.table| ==> s.table[k].freed == if s.table[k].bid in g.olds then 0 else 2)
    && (forall j :: j in g.olds ==> exists k :: 0 <= k < |s.table| && s.table[k].bid == j)
  }

  ghost predicate Ok(s: Slab, g: Holders) {
    Core(s, g) && Counted(s, g) && OldFits(s, g) && Tabled(s, g) && (s.rdirty <==> g.remote != {})
  }

  // ------------------------------------------------------------------ what the invariant says

  /** No old block that is live overlaps a block of the new class that is in use. */
  lemma NoOverlap(s: Slab, g: Holders, j: nat, b: nat)
    requires Ok(s, g) && j in g.olds && Has(g, b)
    ensures !Touches(s.scB, s.sc, j, b)
  {
    if Touches(s.scB, s.sc, j, b) { TouchCounts(s, g.olds, j, b); }
  }

  lemma TouchCounts(s: Slab, olds: set<nat>, j: nat, b: nat)
    requires j in olds && Touches(s.scB, s.sc, j, b)
    ensures |Over(s, olds, b)| > 0
  {
    assert j in Over(s, olds, b);
  }

  /** The test of slab_free_small tells an old block from a new one, in both directions. */
  lemma FreeTestRight(s: Slab, g: Holders, addr: nat)
    requires Ok(s, g)
    ensures forall b :: b in g.live && addr == s.sc.Addr(b) ==>
      Place(s.sc, addr) == b < |s.overlaps| && s.overlaps[b] == 0
    ensures forall j :: j in g.olds && addr == s.scB.Addr(j) ==>
      0 <= Place(s.sc, addr) < |s.overlaps| && s.oldLeft > 0 && s.overlaps[Place(s.sc, addr)] > 0
  {
    forall b | b in g.live && addr == s.sc.Addr(b) ensures Place(s.sc, addr) == b < |s.overlaps| && s.overlaps[b] == 0 {
      assert Has(g, b);
      PlaceOfNew(s.sc, b);
    }
    forall j | j in g.olds && addr == s.scB.Addr(j)
      ensures 0 <= Place(s.sc, addr) < |s.overlaps| && s.oldLeft > 0 && s.overlaps[Place(s.sc, addr)] > 0
    {
      PlaceAt(s.sc, addr);
      var p := Place(s.sc, addr);
      assert Touches(s.scB, s.sc, j, p);
      TouchBound(s.scB, s.sc, j, p);
      TouchCounts(s, g.olds, j, p);
    }
  }

  /** The count of the header is the number of blocks that are not free. */
  lemma CountIsUse(s: Slab, g: Holders)
    requires Ok(s, g)
    ensures s.nbits == |set b: nat | b < |s.bits| && (Has(g, b) || Covered(s, b))|
    ensures s.nbits == 0 <==> g.live == {} && g.remote == {} && g.place.Keys == {} && g.olds == {}
  {
    assert Used(s.bits) == set b: nat | b < |s.bits| && (Has(g, b) || Covered(s, b));
    forall b: nat | Has(g, b) ensures s.nbits > 0 { InUse(s, b); }
    forall j | j in g.olds ensures s.nbits > 0 { OldInUse(s, g, j); }
    assert g.live != {} ==> exists b: nat :: b in g.live && Has(g, b);
    assert g.remote != {} ==> exists b: nat :: b in g.remote && Has(g, b);
    assert g.place.Keys != {} ==> exists b: nat :: b in g.place.Keys && Has(g, b);
    if s.nbits > 0 {
      var b :| b in Used(s.bits);
      if !Has(g, b) {
        var j :| j in Over(s, g.olds, b);
      }
    }
  }

  lemma InUse(s: Slab, b: nat)
    requires s.nbits == |Used(s.bits)| && b < |s.bits| && !s.bits[b]
    ensures s.nbits > 0
  {
    assert b in Used(s.bits);
  }

  lemma OldInUse(s: Slab, g: Holders, j: nat)
    requires Ok(s, g) && j in g.olds
    ensures s.nbits > 0
  {
    PlaceAt(s.sc, s.scB.Addr(j));
    var p := Place(s.sc, s.scB.Addr(j));
    assert Touches(s.scB, s.sc, j, p);
    TouchBound(s.scB, s.sc, j, p);
    TouchCounts(s, g.olds, j, p);
    InUse(s, p);
  }

  // ------------------------------------------------------------------ one block changes state

  lemma UsedAdd(bits: seq<bool>, b: nat)
    requires b < |bits| && bits[b]
    ensures |Used(bits[b := false])| == |Used(bits)| + 1
  {
    assert Used(bits[b := false]) == Used(bits) + {b};
  }

  lemma UsedRemove(bits: seq<bool>, b: nat)
    requires b < |bits| && !bits[b]
    ensures |Used(bits)| > 0 && |Used(bits[b := true])| == |Used(bits)| - 1
  {
    assert b in Used(bits);
    assert Used(bits[b := true]) == Used(bits) - {b};
  }

  lemma MidInjective(x: nat, y: nat)
    requires Mid(x) == Mid(y)
    ensures x == y
  {
    MidIsMap(x);
    MidIsMap(y);
    Injective(x, y, NBANKS, 512);
  }

  function Cover(s: Slab, b: nat): Slab
    requires b < |s.overlaps| && b < |s.bits| && Mid(b) < |s.meta|
  {
    var s1 := if s.overlaps[b] == 0 then s.(bits := s.bits[b := !s.bits[b]], meta := s.meta[Mid(b) := true], nbits := s.nbits + 1) else s;
    s1.(overlaps := s1.overlaps[b := s1.overlaps[b] + 1])
  }

  lemma CoverBits(s: Slab, g: Holders, b: nat)
    requires BitsTell(s, g) && b < |s.overlaps| && b < |s.bits| && Mid(b) < |s.meta| && !Has(g, b)
    ensures BitsTell(Cover(s, b), g)
  {
    hide Mid, Has, Used;
    if s.overlaps[b] == 0 { UsedAdd(s.bits, b); }
  }

  lemma CoverMeta(s: Slab, g: Holders, b: nat)
    requires MetaTells(s, g) && b < |s.overlaps| && b < |s.bits| && Mid(b) < |s.meta|
    ensures MetaTells(Cover(s, b), g)
  {
    hide Mid;
    var s' := Cover(s, b);
    forall x: nat | x < |s'.overlaps| && (x < s'.sc.nbits || s'.overlaps[x] > 0)
      ensures Mid(x) < |s'.meta| && (s'.meta[Mid(x)] <==> x in g.live || x in g.remote || s'.overlaps[x] > 0)
    {
      if Mid(x) == Mid(b) { MidInjective(x, b); }
    }
  }

  /** One turn of step 4.2: an old block is counted over a new one. */
  lemma CoverCore(s: Slab, g: Holders, b: nat)
    requires Core(s, g) && b < |s.overlaps| && b < |s.bits| && Mid(b) < |s.meta| && !Has(g, b)
    ensures Core(Cover(s, b), g)
  {
    hide Mid, BitsTell, MetaTells;
    CoverBits(s, g, b);
    CoverMeta(s, g, b);
  }

  function Uncover(s: Slab, b: nat): Slab
    requires b < |s.overlaps| && b < |s.bits| && Mid(b) < |s.meta| && s.overlaps[b] > 0 && s.nbits > 0
  {
    var s1 := s.(overlaps := s.overlaps[b := s.overlaps[b] - 1]);
    if s1.overlaps[b] == 0 then s1.(bits := s1.bits[b := true], meta := s1.meta[Mid(b) := false], nbits := s1.nbits - 1) else s1
  }

  lemma UncoverBits(s: Slab, g: Holders, b: nat)
    requires BitsTell(s, g) && b < |s.overlaps| && s.overlaps[b] > 0 && !Has(g, b) && Mid(b) < |s.meta|
    ensures b < |s.bits| && s.nbits > 0 && BitsTell(Uncover(s, b), g)
  {
    hide Mid, Has, Used;
    UsedRemove(s.bits, b);
  }

  lemma UncoverMeta(s: Slab, g: Holders, b: nat)
    requires MetaTells(s, g) && b < |s.overlaps| && s.overlaps[b] > 0 && b < |s.bits| && s.nbits > 0 && !Has(g, b)
    ensures Mid(b) < |s.meta| && MetaTells(Uncover(s, b), g)
  {
    hide Mid;
    var s' := Uncover(s, b);
    forall x: nat | x < |s'.overlaps| && (x < s'.sc.nbits || s'.overlaps[x] > 0)
      ensures Mid(x) < |s'.meta| && (s'.meta[Mid(x)] <==> x in g.live || x in g.remote || s'.overlaps[x] > 0)
    {
      if Mid(x) == Mid(b) { MidInjective(x, b); }
    }
  }

  lemma MetaAt(s: Slab, g: Holders, b: nat)
    requires MetaTells(s, g) && b < |s.overlaps| && s.overlaps[b] > 0
    ensures Mid(b) < |s.meta|
  {
  }

  /** One turn of the loop that frees an old block. */
  lemma UncoverCore(s: Slab, g: Holders, b: nat)
    requires Core(s, g) && b < |s.overlaps| && s.overlaps[b] > 0
    ensures b < |s.bits| && Mid(b) < |s.meta| && s.nbits > 0 && Core(Uncover(s, b), g)
  {
    hide Mid, BitsTell, MetaTells, Has;
    assert !Has(g, b);
    MetaAt(s, g, b);
    UncoverBits(s, g, b);
    UncoverMeta(s, g, b);
  }

  lemma OverMinus(s: Slab, olds: set<nat>, j: nat, b: nat)
    requires j in olds
    ensures |Over(s, olds, b)| == |Over(s, olds - {j}, b)| + if Touches(s.scB, s.sc, j, b) then 1 else 0
  {
    if Touches(s.scB, s.sc, j, b) {
      assert Over(s, olds, b) == Over(s, olds - {j}, b) + {j};
    } else {
      assert Over(s, olds, b) == Over(s, olds - {j}, b);
    }
  }

  /** `s'` and `g'` differ from `s` and `g` in block `b` of the present class only, and say of it what they should. */
  ghost predicate Local(s: Slab, g: Holders, s': Slab, g': Holders, b: nat) {
    && b < s.sc.nbits && b < |s.overlaps| && s.overlaps[b] == 0 && b < |s.bits| == |s'.bits| && |s.rbits| == |s'.rbits| && Mid(b) < |s.meta| == |s'.meta|
    && s' == s.(bits := s.bits[b := s'.bits[b]], meta := s.meta[Mid(b) := s'.meta[Mid(b)]], rbits := s'.rbits, nbits := s'.nbits, rdirty := s'.rdirty)
    && (forall x: nat :: x < |s.rbits| && x != b ==> s'.rbits[x] == s.rbits[x])
    && s'.nbits == s.nbits + (if s.bits[b] then 1 else 0) - (if s'.bits[b] then 1 else 0)
    && g'.olds == g.olds
    && (forall x :: x != b ==> (x in g'.live <==> x in g.live) && (x in g'.remote <==> x in g.remote) && (x in g'.place <==> x in g.place))
    && !(b in g'.live && b in g'.remote) && !(b in g'.live && b in g'.place) && !(b in g'.remote && b in g'.place)
    && (!s'.bits[b] <==> Has(g', b)) && (s'.meta[Mid(b)] <==> b in g'.live || b in g'.remote)
    && (b in g'.remote ==> b < |s.rbits|) && (b < |s.rbits| ==> (!s'.rbits[b] <==> b in g'.remote))
  }

  lemma LocalBits(s: Slab, g: Holders, s': Slab, g': Holders, b: nat)
    requires BitsTell(s, g) && Local(s, g, s', g', b)
    ensures BitsTell(s', g')
  {
    hide Mid, Used;
    if s.bits[b] && !s'.bits[b] { UsedAdd(s.bits, b); }
    if !s.bits[b] && s'.bits[b] { UsedRemove(s.bits, b); }
    assert s.bits[b] == s'.bits[b] ==> s'.bits == s.bits;
  }

  lemma LocalMeta(s: Slab, g: Holders, s': Slab, g': Holders, b: nat)
    requires MetaTells(s, g) && Local(s, g, s', g', b)
    ensures MetaTells(s', g')
  {
    hide Mid, Has;
    forall x: nat | x < |s'.overlaps| && (x < s'.sc.nbits || s'.overlaps[x] > 0)
      ensures Mid(x) < |s'.meta| && (s'.meta[Mid(x)] <==> x in g'.live || x in g'.remote || s'.overlaps[x] > 0)
    {
      if Mid(x) == Mid(b) { MidInjective(x, b); }
    }
  }

  lemma LocalStates(s: Slab, g: Holders, s': Slab, g': Holders, b: nat)
    requires OneState(s, g) && Local(s, g, s', g', b)
    ensures OneState(s', g')
  {
    hide Mid;
    forall x: nat ensures !(x in g'.live && x in g'.remote) && !(x in g'.live && x in g'.place) && !(x in g'.remote && x in g'.place) {
      if x != b { assert !(x in g.live && x in g.remote) && !(x in g.live && x in g.place.Keys) && !(x in g.remote && x in g.place.Keys); }
    }
    forall x: nat | Has(g', x) ensures x < s'.sc.nbits && x < |s'.overlaps| && s'.overlaps[x] == 0 {
      if x != b { assert Has(g, x); }
    }
  }

  lemma LocalCore(s: Slab, g: Holders, s': Slab, g': Holders, b: nat)
    requires Core(s, g) && Local(s, g, s', g', b)
    ensures Core(s', g')
  {
    hide Mid, OneState, BitsTell, MetaTells;
    LocalStates(s, g, s', g', b);
    LocalBits(s, g, s', g', b);
    LocalMeta(s, g, s', g', b);
  }

  lemma LocalOk(s: Slab, g: Holders, s': Slab, g': Holders, b: nat)
    requires Ok(s, g) && Local(s, g, s', g', b) && (s'.rdirty <==> g'.remote != {})
    ensures Ok(s', g')
  {
    hide Core, Local;
    LocalCore(s, g, s', g', b);
    LocalRest(s, g, s', g', b);
    forall x: nat | x < |s'.overlaps| ensures s'.overlaps[x] == |Over(s', g'.olds, x)| { assert Over(s', g'.olds, x) == Over(s, g.olds, x); }
  }

  lemma LocalRest(s: Slab, g: Holders, s': Slab, g': Holders, b: nat)
    requires Local(s, g, s', g', b)
    ensures s'.overlaps == s.overlaps && s'.sc == s.sc && s'.scB == s.scB && s'.table == s.table && s'.oldLeft == s.oldLeft && |s'.bits| == |s.bits| && g'.olds == g.olds
  {
  }

  /** A block of the present class that is in use is in no two states, so it cannot be given out twice. */
  lemma FreeIsNobodys(s: Slab, g: Holders, b: nat)
    requires Core(s, g) && b < s.sc.nbits
    ensures b < |s.bits| && b < |s.overlaps| && Mid(b) < |s.meta|
    ensures s.bits[b] <==> !Has(g, b) && s.overlaps[b] == 0
    ensures s.bits[b] ==> !s.meta[Mid(b)] && (b < |s.rbits| ==> s.rbits[b])
  {
  }

  /** While fewer than all blocks are in use, the lowest set bit is a block of the class. */
  lemma RoomLeft(s: Slab, g: Holders)
    requires Core(s, g) && s.nbits < s.sc.nbits
    ensures exists b: nat :: b < s.sc.nbits && b < |s.bits| && s.bits[b]
  {
    var all := Below0(s.sc.nbits);
    if forall b: nat :: b < s.sc.nbits ==> !s.bits[b] {
      assert all <= Used(s.bits);
      SubsetSize(all, Used(s.bits));
    }
  }

  function Below0(n: nat): (r: set<nat>)
    ensures |r| == n && forall b: nat :: b in r <==> b < n
  {
    if n == 0 then {} else Below0(n - 1) + {n - 1}
  }

  lemma {:induction false} SubsetSize(a: set<nat>, b: set<nat>)
    requires a <= b
    ensures |a| <= |b|
  {
    if a != {} {
      var x :| x in a;
      SubsetSize(a - {x}, b - {x});
    }
  }

  /** What is known of a cached block. */
  lemma PlacedAt(s: Slab, g: Holders, b: nat)
    requires Core(s, g) && b in g.place
    ensures b < s.sc.nbits && b < |s.overlaps| && s.overlaps[b] == 0 && b < |s.bits| && !s.bits[b] && (b < |s.rbits| ==> s.rbits[b])
    ensures Mid(b) < |s.meta| && !s.meta[Mid(b)] && b !in g.live && b !in g.remote && s.nbits > 0
  {
    assert Has(g, b);
    InUse(s, b);
  }

  /** What is known of a block that is handed out. */
  lemma LiveAt(s: Slab, g: Holders, b: nat)
    requires Core(s, g) && b in g.live
    ensures b < s.sc.nbits && b < |s.overlaps| && s.overlaps[b] == 0 && b < |s.bits| && !s.bits[b] && (b < |s.rbits| ==> s.rbits[b])
    ensures Mid(b) < |s.meta| && s.meta[Mid(b)] && b !in g.place && b !in g.remote && s.nbits > 0
  {
    assert Has(g, b);
    InUse(s, b);
  }

  // ------------------------------------------------------------------ the moves of a block of the present class

  /** Cached to handed out: the metadata bit is set. */
  lemma HandOk(s: Slab, g: Holders, b: nat)
    requires Ok(s, g) && b in g.place
    ensures Mid(b) < |s.meta| && Ok(s.(meta := s.meta[Mid(b) := true]), g.(live := g.live + {b}, place := g.place - {b}))
  {
    hide Ok, Core, Counted, OldFits, Tabled, Mid;
    OkParts(s, g);
    PlacedAt(s, g, b);
    LocalOk(s, g, s.(meta := s.meta[Mid(b) := true]), g.(live := g.live + {b}, place := g.place - {b}), b);
  }

  /** Handed out to a thread's cache: the metadata bit is cleared. */
  lemma StashOk(s: Slab, g: Holders, b: nat, t: int)
    requires Ok(s, g) && b in g.live
    ensures Mid(b) < |s.meta| && Ok(s.(meta := s.meta[Mid(b) := false]), g.(live := g.live - {b}, place := g.place[b := t]))
  {
    hide Ok, Core, Counted, OldFits, Tabled, Mid;
    OkParts(s, g);
    LiveAt(s, g, b);
    LocalOk(s, g, s.(meta := s.meta[Mid(b) := false]), g.(live := g.live - {b}, place := g.place[b := t]), b);
  }

  function Released(s: Slab, b: nat): Slab
    requires b < |s.bits| && Mid(b) < |s.meta| && s.nbits > 0
  {
    s.(meta := s.meta[Mid(b) := false], bits := s.bits[b := true], nbits := s.nbits - 1)
  }

  /** Handed out, or cached, to free. */
  lemma ReleaseOk(s: Slab, g: Holders, b: nat)
    requires Ok(s, g) && (b in g.live || b in g.place)
    ensures b < |s.bits| && Mid(b) < |s.meta| && s.nbits > 0
    ensures Ok(Released(s, b), g.(live := g.live - {b}, place := g.place - {b}))
  {
    hide Ok, Core, Counted, OldFits, Tabled, Mid;
    OkParts(s, g);
    if b in g.live { LiveAt(s, g, b); } else { PlacedAt(s, g, b); }
    LocalOk(s, g, Released(s, b), g.(live := g.live - {b}, place := g.place - {b}), b);
  }

  /** Handed out to freed from another node. */
  lemma RemoteOk(s: Slab, g: Holders, b: nat)
    requires Ok(s, g) && b in g.live && b < |s.rbits|
    ensures Ok(s.(rbits := s.rbits[b := !s.rbits[b]], rdirty := true), g.(live := g.live - {b}, remote := g.remote + {b}))
  {
    hide Ok, Core, Counted, OldFits, Tabled, Local, Mid;
    OkParts(s, g);
    LiveAt(s, g, b);
    RemoteLocal(s, g, b);
    LocalOk(s, g, s.(rbits := s.rbits[b := !s.rbits[b]], rdirty := true), g.(live := g.live - {b}, remote := g.remote + {b}), b);
  }

  lemma RemoteLocal(s: Slab, g: Holders, b: nat)
    requires b in g.live && b !in g.place && b !in g.remote && b < s.sc.nbits && b < |s.overlaps| && s.overlaps[b] == 0
    requires b < |s.bits| && !s.bits[b] && b < |s.rbits| && s.rbits[b] && Mid(b) < |s.meta| && s.meta[Mid(b)]
    ensures Local(s, g, s.(rbits := s.rbits[b := !s.rbits[b]], rdirty := true), g.(live := g.live - {b}, remote := g.remote + {b}), b)
  {
    hide Mid;
    assert s.bits[b := s.bits[b]] == s.bits && s.meta[Mid(b) := s.meta[Mid(b)]] == s.meta;
  }

  /**
    A free from another node marks the block of the present class at the address,
    and the flush gives that block back, whatever it was that was freed.  This
    leaves the slab in order if and only if no old block lies there: if and only
    if the test of a free on the slab's own node would not have found an old one.
   */
  lemma RemoteExact(s: Slab, g: Holders, addr: nat)
    requires Ok(s, g) && ((exists b :: b in g.live && addr == s.sc.Addr(b)) || (exists j :: j in g.olds && addr == s.scB.Addr(j)))
    ensures s.sc.bitsize > 0 && 0 <= Place(s.sc, addr) < |s.overlaps| && Place(s.sc, addr) < |s.bits| && Mid(Place(s.sc, addr)) < |s.meta| && s.nbits > 0
    ensures (exists g' :: Ok(Released(s, Place(s.sc, addr)), g')) <==> s.overlaps[Place(s.sc, addr)] == 0
  {
    hide Mid, Place;
    FreeTestRight(s, g, addr);
    if b :| b in g.live && addr == s.sc.Addr(b) {
      LiveAt(s, g, b);
      ReleaseOk(s, g, b);
    } else {
      var j :| j in g.olds && addr == s.scB.Addr(j);
      var p := Place(s.sc, addr);
      CoveredAt(s, g, p);
      forall g' ensures !Ok(Released(s, p), g') { CoveredNotFree(Released(s, p), g', p); }
    }
  }

  lemma CoveredAt(s: Slab, g: Holders, p: nat)
    requires Core(s, g) && p < |s.overlaps| && s.overlaps[p] > 0
    ensures p < |s.bits| && Mid(p) < |s.meta| && s.nbits > 0
  {
    hide Mid;
    MetaAt(s, g, p);
    InUse(s, p);
  }

  /** A set bit under an old block agrees with no account of who has what. */
  lemma CoveredNotFree(s: Slab, g: Holders, p: nat)
    requires p < |s.overlaps| && s.overlaps[p] > 0 && p < |s.bits| && s.bits[p]
    ensures !Ok(s, g)
  {
  }

  lemma OkParts(s: Slab, g: Holders)
    requires Ok(s, g)
    ensures Core(s, g) && Counted(s, g) && OldFits(s, g) && Tabled(s, g) && (s.rdirty <==> g.remote != {})
  {
  }

  lemma PlaceBound(s: Slab, g: Holders)
    requires Core(s, g)
    ensures |g.place.Keys| <= s.sc.nbits
  {
    forall b | b in g.place.Keys ensures b in Below0(s.sc.nbits) { assert Has(g, b); }
    SubsetSize(g.place.Keys, Below0(s.sc.nbits));
  }

  // ------------------------------------------------------------------ an old block is freed

  /** The counts while old block `j`, which begins in new block `p`, is being taken off blocks up to `at`. */
  ghost predicate Lifting(s0: Slab, s: Slab, olds: set<nat>, j: nat, p: nat, at: nat) {
    && s == s0.(bits := s.bits, meta := s.meta, nbits := s.nbits, overlaps := s.overlaps)
    && |s.bits| == |s0.bits| && |s.overlaps| == |s0.overlaps|
    && forall x: nat :: x < |s.overlaps| ==> s.overlaps[x] == if p <= x < at then |Over(s0, olds - {j}, x)| else |Over(s0, olds, x)|
  }

  /** A block the walk of an old block's free meets lies in the slab, is counted, and is touched. */
  lemma WalkMeets(s: Slab, g: Holders, j: nat, at: nat)
    requires OldFits(s, g) && j in g.olds && s.sc.bitsize > 0 && Place(s.sc, s.scB.Addr(j)) <= at
    requires s.scB.Addr(j) + s.scB.bitsize > s.sc.Addr(at)
    ensures at <= s.sc.nbits && Touches(s.scB, s.sc, j, at) && |Over(s, g.olds, at)| > 0
    ensures |Over(s, g.olds - {j}, at)| == |Over(s, g.olds, at)| - 1
  {
    WalkIsTouches(s.scB, s.sc, j, at);
    TouchBound(s.scB, s.sc, j, at);
    TouchCounts(s, g.olds, j, at);
    OverMinus(s, g.olds, j, at);
  }

  lemma LiftStep(s0: Slab, s: Slab, g: Holders, j: nat, p: nat, at: nat)
    requires OldFits(s0, g) && j in g.olds && s0.sc.bitsize > 0 && p == Place(s0.sc, s0.scB.Addr(j)) <= at
    requires s0.scB.Addr(j) + s0.scB.bitsize > s0.sc.Addr(at) && |s0.overlaps| == s0.sc.nbits + 1
    requires Core(s, g) && Lifting(s0, s, g.olds, j, p, at)
    ensures at < |s.overlaps| && s.overlaps[at] > 0 && at < |s.bits| && Mid(at) < |s.meta| && s.nbits > 0
    ensures Core(Uncover(s, at), g) && Lifting(s0, Uncover(s, at), g.olds, j, p, at + 1)
  {
    WalkMeets(s0, g, j, at);
    UncoverCore(s, g, at);
    hide Core, Over, Mid;
  }

  /** The end of an old block's free: its count, its table entry and the overlaps are gone. */
  lemma LiftedOk(s0: Slab, s: Slab, g: Holders, j: nat, p: nat, at: nat, k: nat)
    requires Ok(s0, g) && Core(s, g) && j in g.olds && p == Place(s0.sc, s0.scB.Addr(j)) <= at
    requires Lifting(s0, s, g.olds, j, p, at) && s0.scB.Addr(j) + s0.scB.bitsize <= s0.sc.Addr(at)
    requires k < |s0.table| && s0.table[k].bid == j && s0.oldLeft > 0
    ensures Ok(s.(oldLeft := s0.oldLeft - 1, table := s0.table[k := s0.table[k].(freed := s0.table[k].freed + 2)]), g.(olds := g.olds - {j}))
  {
    var s' := s.(oldLeft := s0.oldLeft - 1, table := s0.table[k := s0.table[k].(freed := s0.table[k].freed + 2)]);
    var g' := g.(olds := g.olds - {j});
    forall x: nat | x < |s'.overlaps| ensures s'.overlaps[x] == |Over(s', g'.olds, x)| {
      assert Over(s', g'.olds, x) == Over(s0, g.olds - {j}, x);
      OverMinus(s0, g.olds, j, x);
      WalkIsTouches(s0.scB, s0.sc, j, x);
      if x >= at { AddrRises(s0.sc, at, x); }
    }
    hide Over, Mid, Touches, Lifting;
    assert Core(s', g') by { CoreSame(s, g, s', g'); }
    assert OldFits(s', g');
    assert Tabled(s', g') by { TableFreed(s0, g, s', g', j, k); }
  }

  lemma CoreSame(s: Slab, g: Holders, s': Slab, g': Holders)
    requires Core(s, g) && s' == s.(oldLeft := s'.oldLeft, table := s'.table) && g' == g.(olds := g'.olds)
    ensures Core(s', g')
  {
    assert forall b: nat :: Has(g', b) <==> Has(g, b);
    assert forall b: nat :: Covered(s', b) <==> Covered(s, b);
  }

  lemma TableFreed(s: Slab, g: Holders, s': Slab, g': Holders, j: nat, k: nat)
    requires Tabled(s, g) && j in g.olds && k < |s.table| && s.table[k].bid == j
    requires s'.table == s.table[k := s.table[k].(freed := s.table[k].freed + 2)] && g'.olds == g.olds - {j}
    ensures Tabled(s', g')
  {
    forall x | x in g'.olds ensures exists l :: 0 <= l < |s'.table| && s'.table[l].bid == x {
      var l :| 0 <= l < |s.table| && s.table[l].bid == x;
      assert s'.table[l].bid == x;
    }
  }

  // ------------------------------------------------------------------ a new class is laid over old blocks

  const NOBODY := Holders({}, {}, {}, map[])

  /** A slab whose new layout is in place, before the old blocks are counted: whatever touches a block has bits for it. */
  ghost predicate Fitted(s: Slab) {
    && s.sc.bitsize > 0 && s.scB.bitsize > 0 && s.scB.Addr(s.scB.nbits) <= SLAB_SIZE
    && s.sc.Tight() && s.sc.Roomy()
    && |s.bits| == 64 * WordsFor(s.sc.nbits) && |s.overlaps| == s.sc.nbits + 1
    && forall b: nat :: b <= s.sc.nbits ==> Mid(b) < |s.meta|
  }

  /** The counts when the old blocks `done` have been counted, and `j` over the blocks from `p` up to `at`. */
  ghost predicate Laying(s0: Slab, s: Slab, done: set<nat>, j: nat, p: nat, at: nat) {
    && s == s0.(bits := s.bits, meta := s.meta, nbits := s.nbits, overlaps := s.overlaps)
    && |s.bits| == |s0.bits| && |s.overlaps| == |s0.overlaps| && |s.meta| == |s0.meta|
    && forall x: nat :: x < |s.overlaps| ==> s.overlaps[x] == |Over(s0, if p <= x < at then done + {j} else done, x)|
  }

  lemma LayMeets(s: Slab, j: nat, at: nat)
    requires Fitted(s) && j < s.scB.nbits && s.sc.roffset <= s.scB.Addr(j) && Place(s.sc, s.scB.Addr(j)) <= at
    requires s.scB.Addr(j) + s.scB.bitsize > s.sc.Addr(at)
    ensures at <= s.sc.nbits && at < |s.bits| && at < |s.overlaps| && Mid(at) < |s.meta| && Touches(s.scB, s.sc, j, at)
  {
    hide Mid, WordsFor, Place, SizeClass.Addr;
    WordsHold(s.sc.nbits);
    WalkIsTouches(s.scB, s.sc, j, at);
    TouchBound(s.scB, s.sc, j, at);
    if at == s.sc.nbits {
      AddrRises(s.scB, j, s.scB.nbits);
    }
  }

  lemma LayStep(s0: Slab, s: Slab, done: set<nat>, j: nat, p: nat, at: nat)
    requires Fitted(s0) && j < s0.scB.nbits && s0.sc.roffset <= s0.scB.Addr(j) && p == Place(s0.sc, s0.scB.Addr(j)) <= at && j !in done
    requires s0.scB.Addr(j) + s0.scB.bitsize > s0.sc.Addr(at) && Core(s, NOBODY) && Laying(s0, s, done, j, p, at)
    ensures at <= s0.sc.nbits && at < |s.overlaps| && at < |s.bits| && Mid(at) < |s.meta|
    ensures Core(Cover(s, at), NOBODY) && Laying(s0, Cover(s, at), done, j, p, at + 1)
  {
    hide Core, Over, Mid;
    LayMeets(s0, j, at);
    CoverCore(s, NOBODY, at);
    OverMinus(s0, done + {j}, j, at);
    assert done + {j} - {j} == done;
  }

  /** After the walk of an old block it is counted over exactly the blocks it touches. */
  lemma LayDone(s0: Slab, s: Slab, done: set<nat>, j: nat, p: nat, at: nat)
    requires Fitted(s0) && s0.sc.roffset <= s0.scB.Addr(j) && p == Place(s0.sc, s0.scB.Addr(j)) <= at && j !in done
    requires s0.scB.Addr(j) + s0.scB.bitsize <= s0.sc.Addr(at) && Laying(s0, s, done, j, p, at)
    ensures Laying(s0, s, done + {j}, 0, 0, 0)
  {
    forall x: nat | x < |s.overlaps| ensures s.overlaps[x] == |Over(s0, done + {j}, x)| {
      OverMinus(s0, done + {j}, j, x);
      assert done + {j} - {j} == done;
      WalkIsTouches(s0.scB, s0.sc, j, x);
      if x >= at { AddrRises(s0.sc, at, x); }
    }
  }

  lemma LayAgain(s0: Slab, s: Slab, done: set<nat>, p: nat, j: nat)
    requires Laying(s0, s, done, 0, 0, 0)
    ensures Laying(s0, s, done, j, p, p)
  {
  }

  lemma LaidOk(s0: Slab, s: Slab, olds: set<nat>)
    requires Fitted(s0) && Core(s, NOBODY) && Laying(s0, s, olds, 0, 0, 0) && !s0.rdirty && s0.oldLeft == |olds|
    requires forall j :: j in olds ==> j < s0.scB.nbits && s0.sc.roffset <= s0.scB.Addr(j)
    requires Lists(s0.table, olds)
    ensures Ok(s, NOBODY.(olds := olds))
  {
    var g := NOBODY.(olds := olds);
    forall x: nat | x < |s.overlaps| ensures s.overlaps[x] == |Over(s, olds, x)| { assert Over(s, olds, x) == Over(s0, olds, x); }
    hide Over, Mid, Laying;
    assert Core(s, g) by { CoreSame(s, NOBODY, s, g); }
  }

  /** The table has each block once, and no other, with its free not begun. */
  ghost predicate Lists(table: seq<OldEntry>, olds: set<nat>) {
    && (forall k, l :: 0 <= k < l < |table| ==> table[k].bid != table[l].bid)
    && (forall k :: 0 <= k < |table| ==> table[k].bid in olds && table[k].freed == 0)
    && (forall j :: j in olds ==> exists k :: 0 <= k < |table| && table[k].bid == j)
  }
}

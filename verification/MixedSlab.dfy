/**
  The small-block paths of slab.c, tcache.c, pmalloc.c and numa_log.c around one
  slab: handing blocks to thread caches, allocating, freeing from the same thread,
  another thread or another node, migration, and morphing to another size class.
 */
module MixedSlab {
  import opened Interleave
  import opened SlabBlocks
  import opened SlabLayout
  import opened ThreadCache

  datatype Where = OwnArena | SameNode | OtherNode

  /** The slab is of another class, or has no free block of its class and cannot take any back from remote frees. */
  predicate NothingFor(s: Slab, wanted: bool, lockFree: bool) {
    !wanted || s.nbits > s.sc.nbits || (s.nbits == s.sc.nbits && !(s.rdirty && lockFree))
  }

  class VSlab {
    const me: int
    var s: Slab
    var caches: map<int, Cache>   // the thread caches of the slab's size class
    ghost var g: Holders

    ghost predicate Valid()
      reads this
    {
      Ok(s, g) && Placed(me, caches, g.place)
    }

    /** slab_init and vslab_init. */
    constructor (me: int, sc: SizeClass, caches: map<int, Cache>)
      requires sc.bitsize > 0 && sc.words == WordsFor(sc.nbits) && sc.roffset == sc.moffset + MetaSize(sc.nbits)
      requires sc.Addr(sc.nbits) <= SLAB_SIZE && Placed(me, caches, map[])
      ensures Valid() && this.me == me && s.sc == sc && this.caches == caches && s.nbits == 0
      ensures g == Holders({}, {}, {}, map[])
    {
      this.me := me;
      s := Slab(sc, sc, seq(64 * sc.words, _ => true), 0, 0, seq(sc.nbits + 1, _ => 0), seq(8 * MetaSize(sc.nbits), _ => false),
        seq(64 * sc.words, _ => true), false, []);
      this.caches := caches;
      g := Holders({}, {}, {}, map[]);
      new;
      NewSlabOk(s, sc);
    }

    /** A slab of a class as sizeclass_boot lays it out, for threads that have just started. */
    static method Start(me: int, bitsize: nat, head: nat, threads: set<int>) returns (v: VSlab)
      requires bitsize > 0 && head <= SLAB_SIZE
      ensures fresh(v) && v.Valid() && v.s.sc.bitsize == bitsize && v.caches.Keys == threads && v.g == Holders({}, {}, {}, map[])
    {
      var sc := BootClass(bitsize, head);
      NewPlaced(me, threads);
      v := new VSlab(me, sc, map t | t in threads :: NewCache());
    }

    /** Another slab hands a block to a thread's cache, or takes one back there, while this slab stands by. */
    method OtherPush(t: int, cid: nat, e: Entry)
      requires Valid() && t in caches && e.slab != me && cid < NBANKS && |caches[t].avail[cid]| < MAX_CACHED
      modifies `caches
      ensures Valid() && caches == old(caches)[t := Push(old(caches)[t], cid, e)]
    {
      hide Ok, Placed, Push;
      CacheShaped(t);
      PushOther(me, caches, g.place, t, cid, e);
      caches := caches[t := Push(caches[t], cid, e)];
    }

    // ---------------------------------------------------------------- remote frees

    /** One word of the flush: the remotely freed blocks of the bitmap become free. */
    method FlushBlock(b: nat)
      requires Core(s, g) && Counted(s, g) && OldFits(s, g) && Tabled(s, g) && b < |s.rbits| && Placed(me, caches, g.place)
      modifies this
      ensures Core(s, g) && Counted(s, g) && OldFits(s, g) && Tabled(s, g) && Placed(me, caches, g.place)
      ensures g == old(g).(remote := old(g).remote - {b}) && caches == old(caches) && s.sc == old(s).sc
      ensures |s.rbits| == |old(s).rbits| && s.rdirty == old(s).rdirty
      ensures s.nbits == old(s).nbits - if b in old(g).remote then 1 else 0
    {
      hide Core, Counted, OldFits, Tabled, Placed, Mid;
      RemoteAt(s, g, b);
      if !s.rbits[b] {
        ghost var s0, g0 := s, g;
        s := s.(bits := s.bits[b := true], meta := s.meta[Mid(b) := false], rbits := s.rbits[b := true], nbits := s.nbits - 1);
        g := g.(remote := g.remote - {b});
        LocalCore(s0, g0, s, g, b);
        SameOlds(s0, g0, s, g, b);
      } else {
        assert g.remote - {b} == g.remote;
      }
    }

    /** The flush of a slab's remote frees, as the flusher thread and slab_pop_one_cache do it. */
    method FlushRemote()
      requires Valid()
      modifies this
      ensures Valid() && g == old(g).(remote := {}) && caches == old(caches) && s.sc == old(s).sc
      ensures s.nbits == old(s).nbits - |old(g).remote|
    {
      hide Core, Counted, OldFits, Tabled, Placed;
      for b := 0 to |s.rbits|
        invariant Core(s, g) && Counted(s, g) && OldFits(s, g) && Tabled(s, g) && Placed(me, caches, g.place)
        invariant g == old(g).(remote := g.remote) && g.remote <= old(g).remote && caches == old(caches) && s.sc == old(s).sc
        invariant forall x :: x in g.remote ==> x >= b
        invariant |s.rbits| == |old(s).rbits| && s.nbits == old(s).nbits - |old(g).remote| + |g.remote|
      {
        FlushBlock(b);
      }
      RemoteBelow(s, g);
      CleanOk(s, g);
      s := s.(rdirty := false);
    }

    // ---------------------------------------------------------------- free to cached to live

    /** The lowest set bit, as bitmap_sfu finds it. */
    method FirstFree() returns (b: nat)
      requires Core(s, g) && s.nbits < s.sc.nbits
      ensures b < s.sc.nbits && b < |s.bits| && s.bits[b] && forall x :: 0 <= x < b ==> !s.bits[x]
    {
      RoomLeft(s, g);
      b := 0;
      while !s.bits[b]
        invariant b < |s.bits| && forall x :: 0 <= x < b ==> !s.bits[x]
        decreases |s.bits| - b
      {
        b := b + 1;
      }
    }

    /**
      slab_pop_one_cache: -1 when the slab has nothing to give, 0 when the bank's
      stack has become full, 1 otherwise.  A full slab first takes back its remote
      frees, if the list of such slabs can be locked.
     */
    method PopOne(t: int, wanted: bool, lockFree: bool) returns (ret: int, ghost b: nat)
      requires Valid() && t in caches && Roomy(caches[t])
      modifies this
      ensures Valid() && s.sc == old(s).sc && g.live == old(g).live && g.olds == old(g).olds && caches.Keys == old(caches).Keys
      ensures ret == -1 ==> g == old(g) && s == old(s) && caches == old(caches)
      ensures ret == -1 <==> NothingFor(old(s), wanted, lockFree)
      ensures ret != -1 ==> b !in old(g).live && b !in old(g).place
      ensures ret != -1 ==> b < s.sc.nbits && b < |s.bits| && forall x :: 0 <= x < b ==> !s.bits[x]
      ensures ret != -1 ==> g == old(g).(place := old(g).place[b := t], remote := if old(s).nbits == s.sc.nbits then {} else old(g).remote)
      ensures ret != -1 ==> caches == old(caches)[t := Push(old(caches)[t], b % NBANKS, Entry(me, b))]
      ensures ret == 0 ==> Brimmed(caches[t], b % NBANKS)
      ensures ret != 0 ==> Roomy(caches[t])
      ensures ret == -1 || ret == 0 || ret == 1
    {
      hide Core, Counted, OldFits, Tabled, Placed, Mid;
      b := 0;
      if !wanted {
        return -1, 0;
      }
      if s.nbits == s.sc.nbits + 1 {
        return -1, 0;
      }
      CountAtMost();
      assert s.nbits <= s.sc.nbits;
      if s.nbits == s.sc.nbits {
        if s.rdirty {
          if !lockFree {
            return -1, 0;
          }
          DirtyRemote(s, g);
          FlushRemote();
        } else {
          return -1, 0;
        }
      }
      var index := FirstFree();
      FreeIsNobodys(s, g, index);
      ghost var s0, g0 := s, g;
      s := s.(bits := s.bits[index := false], nbits := s.nbits + 1);
      g := g.(place := g.place[index := t]);
      LocalOk(s0, g0, s, g, index);
      PushPlaced(me, caches, g0.place, t, index);
      var cid := index % NBANKS;
      caches := caches[t := Push(caches[t], cid, Entry(me, index))];
      b := index;
      ret := if |caches[t].avail[cid]| == MAX_CACHED then 0 else 1;
    }

    lemma CountAtMost()
      requires Valid()
      ensures s.nbits <= s.sc.nbits + 1
    {
      CountBound(s, g);
    }

    /** tcache_fill_cache's use of one slab: blocks are popped and pushed until the slab has nothing or a stack is full. */
    method Fill(t: int, wanted: bool, lockFree: bool) returns (ret: int, ghost got: seq<nat>)
      requires Valid() && t in caches && Roomy(caches[t])
      modifies this
      ensures Valid() && s.sc == old(s).sc && Gained(old(g), g, t, got)
      ensures caches == old(caches)[t := PushAll(old(caches)[t], me, got)]
      ensures ret == -1 || ret == 0
      ensures ret == -1 ==> NothingFor(s, wanted, lockFree) && Roomy(caches[t])
      ensures ret == 0 ==> got != [] && Brimmed(caches[t], got[|got| - 1] % NBANKS)
    {
      hide Ok, Placed, NothingFor, Roomy, Brimmed, Push, PushAll, Gained;
      ret, got := 1, [];
      FillStart(t);
      while ret == 1
        invariant Valid() && s.sc == old(s).sc && t in caches && Gained(old(g), g, t, got)
        invariant |old(caches)[t].avail| == NBANKS == |old(caches)[t].bm|
        invariant caches == old(caches)[t := PushAll(old(caches)[t], me, got)]
        invariant ret in {-1, 0, 1} && (ret != 0 ==> Roomy(caches[t])) && (ret == -1 ==> NothingFor(s, wanted, lockFree))
        invariant ret == 0 ==> got != [] && Brimmed(caches[t], got[|got| - 1] % NBANKS)
        decreases s.sc.nbits - |g.place.Keys|, ret == 1
      {
        ghost var b, g0 := 0, g;
        ret, b := PopOne(t, wanted, lockFree);
        PlacesAtMost();
        if ret != -1 {
          assert g.place.Keys == g0.place.Keys + {b};
          PushMore(old(caches)[t], me, got, b);
          GainedMore(old(g), g0, g, t, got, b);
          got := got + [b];
        }
      }
    }

    lemma FillStart(t: int)
      requires Valid() && t in caches
      ensures Shaped(caches[t]) && PushAll(caches[t], me, []) == caches[t] && Gained(g, g, t, [])
    {
    }

    /** The small path of pmalloc_malloc_to, once the thread's cache has a block: its metadata bit is set. */
    method Malloc(t: int) returns (e: Entry)
      requires Valid() && t in caches && exists i :: 0 <= i < NBANKS && caches[t].bm[i]
      modifies this
      ensures Valid() && s.sc == old(s).sc && g.olds == old(g).olds && g.remote == old(g).remote
      ensures caches == old(caches)[t := Pop(old(caches)[t]).0] && e == Pop(old(caches)[t]).1
      ensures e.slab == me ==> e.b !in old(g).live && e.b in old(g).place && old(g).place[e.b] == t
      ensures e.slab == me ==> g.live == old(g).live + {e.b} && g.place == old(g).place - {e.b}
      ensures e.slab != me ==> g == old(g) && s == old(s)
    {
      hide Ok, Mid, Pop, Placed;
      CacheShaped(t);
      PopPlaced(me, caches, g.place, t);
      var r := Pop(caches[t]);
      e := r.1;
      caches := caches[t := r.0];
      if e.slab == me {
        HandOk(s, g, e.b);
        CachedNotLive(e.b);
        s := s.(meta := s.meta[Mid(e.b) := true]);
        g := g.(live := g.live + {e.b}, place := g.place - {e.b});
      }
    }

    lemma CachedNotLive(b: nat)
      requires Ok(s, g) && b in g.place
      ensures b !in g.live
    {
      PlacedAt(s, g, b);
    }

    lemma PlacesAtMost()
      requires Valid()
      ensures |g.place.Keys| <= s.sc.nbits
    {
      PlaceBound(s, g);
    }

    lemma CacheShaped(t: int)
      requires Valid() && t in caches
      ensures Shaped(caches[t])
    {
    }

    // ---------------------------------------------------------------- frees

    /** Where the table lists old block `bid`. */
    method FindOld(bid: nat) returns (k: nat)
      requires Tabled(s, g) && bid in g.olds
      ensures k < |s.table| && s.table[k].bid == bid
    {
      k := 0;
      while s.table[k].bid != bid
        invariant k < |s.table| && forall l :: 0 <= l < k ==> s.table[l].bid != bid
        decreases |s.table| - k
      {
        k := k + 1;
      }
    }

    /** The loop of slab_free_small over the blocks an old block lies on. */
    method LiftCounts(addr: nat, index: nat, ghost s0: Slab, ghost j: nat) returns (ghost s1: Slab, ghost at: nat)
      requires OldFits(s0, g) && Counted(s0, g) && Core(s0, g) && j in g.olds && addr == s0.scB.Addr(j) && s0.sc.bitsize > 0 && |s0.overlaps| == s0.sc.nbits + 1
      requires index == Place(s0.sc, addr) && s == s0.(oldLeft := s.oldLeft, table := s.table)
      modifies `s
      ensures s == s1.(oldLeft := old(s).oldLeft, table := old(s).table) && Core(s1, g)
      ensures index <= at && addr + s0.scB.bitsize <= s0.sc.Addr(at) && Lifting(s0, s1, g.olds, j, index, at)
    {
      hide Core, Counted, OldFits, Over, Mid, Lifting, Place, SizeClass.Addr;
      ghost var oldLeft, table := s.oldLeft, s.table;
      s1 := s0;
      LiftStart(s0, g, j, index);
      var bid := index;
      while addr + s.scB.bitsize > s.sc.Addr(bid)
        invariant index <= bid && s == s1.(oldLeft := oldLeft, table := table)
        invariant Core(s1, g) && Lifting(s0, s1, g.olds, j, index, bid) && s1.sc == s0.sc && s1.scB == s0.scB
        decreases s0.sc.nbits + 1 - bid
      {
        WalkMeets(s0, g, j, bid);
        LiftStep(s0, s1, g, j, index, bid);
        var left := s.overlaps[bid] - 1;
        s := s.(overlaps := s.overlaps[bid := left]);
        if left == 0 {
          s := s.(bits := s.bits[bid := true], meta := s.meta[Mid(bid) := false], nbits := s.nbits - 1);
        }
        s1 := Uncover(s1, bid);
        bid := bid + 1;
      }
      at := bid;
    }

    /** slab_free_small for a block of the class the slab had before it was morphed. */
    method FreeOld(addr: nat, ghost j: nat)
      requires Valid() && j in g.olds && addr == s.scB.Addr(j)
      modifies this
      ensures Valid() && g == old(g).(olds := old(g).olds - {j}) && caches == old(caches) && s.sc == old(s).sc && s.scB == old(s).scB
    {
      hide Ok, Core, Counted, OldFits, Tabled, Placed, Over, Mid, Lifting, Place, SizeClass.Addr;
      ghost var s0 := s;
      OkParts(s, g);
      FreeTestRight(s, g, addr);
      OldAbove(j);
      s := s.(oldLeft := s.oldLeft - 1);
      var bidB := Place(s.scB, addr);
      PlaceOfOld(s.scB, addr, j);
      assert Tabled(s, g) by { TableStays(s0); }
      var k := FindOld(bidB);
      s := s.(table := s.table[k := s.table[k].(freed := s.table[k].freed + 1)]);
      ghost var s1, at := LiftCounts(addr, Place(s.sc, addr), s0, j);
      LiftedOk(s0, s1, g, j, Place(s0.sc, addr), at, k);
      LiftingKeeps(s0, s1, g.olds, j, Place(s0.sc, addr), at);
      s := s.(table := s.table[k := s.table[k].(freed := s.table[k].freed + 1)]);
      assert s.table == s0.table[k := s0.table[k].(freed := s0.table[k].freed + 2)];
      g := g.(olds := g.olds - {j});
    }

    lemma OldAddrUnique(addr: nat, j: nat)
      requires Valid() && j in g.olds && addr == s.scB.Addr(j)
      ensures forall i :: i in g.olds && addr == s.scB.Addr(i) ==> i == j
    {
      forall i | i in g.olds && addr == s.scB.Addr(i) ensures i == j {
        PlaceOfOld(s.scB, addr, i);
        PlaceOfOld(s.scB, addr, j);
      }
    }

    lemma OldAbove(j: nat)
      requires Valid() && j in g.olds
      ensures s.scB.bitsize > 0 && s.sc.bitsize > 0 && s.sc.roffset <= s.scB.Addr(j) && |s.overlaps| == s.sc.nbits + 1
    {
    }

    lemma TableStays(s0: Slab)
      requires Tabled(s0, g) && s.table == s0.table
      ensures Tabled(s, g)
    {
    }

    lemma LiftingKeeps(s0: Slab, s1: Slab, olds: set<nat>, j: nat, p: nat, at: nat)
      requires Lifting(s0, s1, olds, j, p, at)
      ensures s1.sc == s0.sc && s1.scB == s0.scB && s1.oldLeft == s0.oldLeft && s1.table == s0.table
    {
    }

    /** slab_free_small for a block freed from a thread of another node. */
    method FreeRemote(index: nat)
      requires Valid() && index in g.live && index < |s.rbits|
      modifies this
      ensures Valid() && g == old(g).(live := old(g).live - {index}, remote := old(g).remote + {index})
      ensures caches == old(caches) && s.sc == old(s).sc && s.scB == old(s).scB
    {
      hide Ok, Placed;
      RemoteOk(s, g, index);
      s := s.(rbits := s.rbits[index := !s.rbits[index]], rdirty := true);
      g := g.(live := g.live - {index}, remote := g.remote + {index});
    }

    /** slab_free_small for a block of the present class freed on its own node. */
    method FreeNew(t: int, index: nat, w: Where)
      requires Valid() && t in caches && index in g.live && w != OtherNode
      modifies this
      ensures Valid() && s.sc == old(s).sc && s.scB == old(s).scB && caches.Keys == old(caches).Keys
      ensures Freed(old(g), g, index, t, w, HasRoom(old(caches), t, index))
      ensures caches == Cached(old(caches), me, index, t, w)
    {
      hide Ok, Placed, Mid;
      CacheShaped(t);
      LiveNotCached(index);
      var cid := index % NBANKS;
      if w == OwnArena && |caches[t].avail[cid]| < MAX_CACHED {
        StashOk(s, g, index, t);
        PushPlaced(me, caches, g.place, t, index);
        s := s.(meta := s.meta[Mid(index) := false]);
        caches := caches[t := Push(caches[t], cid, Entry(me, index))];
        g := g.(live := g.live - {index}, place := g.place[index := t]);
      } else {
        ReleaseOk(s, g, index);
        s := s.(meta := s.meta[Mid(index) := false]);
        s := s.(bits := s.bits[index := true], nbits := s.nbits - 1);
        assert g.place - {index} == g.place;
        g := g.(live := g.live - {index});
      }
    }

    /**
      slab_free_small.  The slab itself goes back to the arena when the count of
      its blocks in use has come to nothing.
     */
    method FreeSmall(t: int, addr: nat, w: Where) returns (gone: bool)
      requires Valid() && t in caches
      requires (exists b :: b in g.live && addr == s.sc.Addr(b)) || (exists j :: j in g.olds && addr == s.scB.Addr(j))
      requires w == OtherNode ==> exists b :: b in g.live && b < |s.rbits| && addr == s.sc.Addr(b)
      modifies this
      ensures Valid() && s.sc == old(s).sc && s.scB == old(s).scB && caches.Keys == old(caches).Keys
      ensures forall j :: j in old(g).olds && addr == old(s).scB.Addr(j) ==> g == old(g).(olds := old(g).olds - {j})
      ensures forall b :: b in old(g).live && addr == old(s).sc.Addr(b) ==>
        Freed(old(g), g, b, t, w, HasRoom(old(caches), t, b)) && caches == Cached(old(caches), me, b, t, w)
      ensures (forall b :: b in old(g).live ==> addr != old(s).sc.Addr(b)) ==> caches == old(caches)
      ensures gone <==> s.nbits == 0 && w != OtherNode
      ensures gone ==> g.live == {} && g.remote == {} && g.place.Keys == {} && g.olds == {}
    {
      hide Ok, Placed, Mid;
      FreeTestRight(s, g, addr);
      CacheShaped(t);
      ClassAndOlds(addr);
      var index := Place(s.sc, addr);
      if w == OtherNode {
        FreeRemote(index);
        return false;
      }
      if s.oldLeft != 0 && s.overlaps[index] != 0 {
        ghost var j :| j in g.olds && addr == s.scB.Addr(j);
        OldAddrUnique(addr, j);
        FreeOld(addr, j);
      } else {
        FreeNew(t, index, w);
      }
      CountIsUse(s, g);
      gone := s.nbits == 0;
    }

    lemma LiveNotCached(b: nat)
      requires Valid() && b in g.live
      ensures b !in g.place
    {
      LiveAt(s, g, b);
    }

    lemma ClassAndOlds(addr: nat)
      requires Valid() && s.sc.bitsize >= 0
      ensures s.sc.bitsize > 0 && (s.oldLeft == 0 ==> g.olds == {})
    {
    }

    // ---------------------------------------------------------------- a thread moves to another arena

    /** migrate_putback of a cached block; it is never taken for an old one. */
    method PutBack(ptr: nat, ghost b: nat) returns (gone: bool)
      requires Ok(s, g) && b in g.place && ptr == s.sc.Addr(b)
      modifies `s, `g
      ensures Ok(s, g) && g == old(g).(place := old(g).place - {b}) && s.sc == old(s).sc && s.scB == old(s).scB
      ensures gone <==> g.live == {} && g.remote == {} && g.place.Keys == {} && g.olds == {}
    {
      hide Core, Counted, OldFits, Tabled, Mid;
      OkParts(s, g);
      PlacedAt(s, g, b);
      ClassSized(s, g);
      PlaceOfNew(s.sc, b);
      var index := Place(s.sc, ptr);
      if s.oldLeft != 0 && s.overlaps[index] != 0 {
        assert false;
      }
      ReleaseOk(s, g, index);
      assert g.live - {b} == g.live;
      s := s.(meta := s.meta[Mid(index) := false]);
      s := s.(bits := s.bits[index := true], nbits := s.nbits - 1);
      g := g.(place := g.place - {b});
      CountIsUse(s, g);
      gone := s.nbits == 0 && !s.rdirty;
      OkParts(s, g);
    }

    /** numa_migrate_check when the thread has moved: its cached blocks go back to their slabs, bank by bank. */
    method Migrate(t: int)
      requires Valid() && t in caches
      modifies this
      ensures Valid() && s.sc == old(s).sc && g == old(g).(place := g.place)
      ensures forall b :: b in g.place <==> b in old(g).place && old(g).place[b] != t
      ensures forall b :: b in g.place ==> g.place[b] == old(g).place[b]
      ensures caches == old(caches)[t := Cache(seq(NBANKS, _ => []), seq(NBANKS, _ => false), old(caches)[t].now)]
    {
      hide Ok, Placed, Left;
      var c := caches[t];
      CacheShaped(t);
      LeftStart(c);
      ghost var held := caches;
      assert held == held[t := c];
      for cid: nat := 0 to NBANKS
        invariant Ok(s, g) && s.sc == old(s).sc && g == old(g).(place := g.place) && caches == old(caches)
        invariant held == old(caches)[t := Left(c, cid, 0)] && Placed(me, held, g.place)
        invariant forall b :: b in g.place ==> b in old(g).place && g.place[b] == old(g).place[b]
        invariant forall b :: b in old(g).place && old(g).place[b] != t ==> b in g.place
      {
        for i: nat := 0 to |c.avail[cid]|
          invariant Ok(s, g) && s.sc == old(s).sc && g == old(g).(place := g.place) && caches == old(caches)
          invariant held == old(caches)[t := Left(c, cid, i)] && Placed(me, held, g.place)
          invariant forall b :: b in g.place ==> b in old(g).place && g.place[b] == old(g).place[b]
          invariant forall b :: b in old(g).place && old(g).place[b] != t ==> b in g.place
        {
          LeftPlaced(me, held, g.place, t, c, cid, i);
          var e := c.avail[cid][i];
          if e.slab == me {
            var gone := PutBack(s.sc.Addr(e.b), e.b);
          }
          held := held[t := Left(c, cid, i + 1)];
        }
        LeftBank(c, cid);
      }
      LeftNone(me, held, g.place, t, c);
      caches := caches[t := Cache(seq(NBANKS, _ => []), seq(NBANKS, _ => false), c.now)];
    }

    // ---------------------------------------------------------------- morphing

    /** Step 4.1: the blocks in use go into the table of old blocks. */
    static method ListOld(bits: seq<bool>) returns (table: seq<OldEntry>)
      ensures |table| == |Used(bits)| && Lists(table, Used(bits))
      ensures forall k, l :: 0 <= k < l < |table| ==> table[k].bid < table[l].bid
    {
      hide Lists, Used, UsedBelow;
      table := [];
      UsedEnds(bits);
      NoneListed();
      for b: nat := 0 to |bits|
        invariant forall k :: 0 <= k < |table| ==> table[k].bid < b
        invariant |table| == |UsedBelow(bits, b)| && Lists(table, UsedBelow(bits, b))
        invariant forall k, l :: 0 <= k < l < |table| ==> table[k].bid < table[l].bid
      {
        UsedNext(bits, b);
        if !bits[b] {
          ListsMore(table, UsedBelow(bits, b), b);
          table := table + [OldEntry(b, 0)];
        }
      }
    }

    /** Step 4.2 for one old block: it is counted over every new block it touches. */
    method CoverOld(addr: nat, ghost s0: Slab, ghost done: set<nat>, ghost j: nat)
      requires Fitted(s0) && Core(s, NOBODY) && Laying(s0, s, done, 0, 0, 0) && s.sc == s0.sc && s.scB == s0.scB
      requires j !in done && j < s0.scB.nbits && addr == s0.scB.Addr(j) && s0.sc.roffset <= addr
      modifies `s
      ensures Core(s, NOBODY) && Laying(s0, s, done + {j}, 0, 0, 0) && s.sc == s0.sc && s.scB == s0.scB
    {
      hide Core, Over, Mid, Laying, Place, SizeClass.Addr;
      FittedSized(s0);
      PlaceAt(s0.sc, addr);
      var bid := Place(s.sc, addr);
      ghost var p := bid;
      LayAgain(s0, s, done, p, j);
      while addr + s.scB.bitsize > s.sc.Addr(bid)
        invariant p <= bid && s.sc == s0.sc && s.scB == s0.scB
        invariant Core(s, NOBODY) && Laying(s0, s, done, j, p, bid)
        decreases s0.sc.nbits + 1 - bid
      {
        LayStep(s0, s, done, j, p, bid);
        ghost var was := s;
        if s.overlaps[bid] == 0 {
          s := s.(bits := s.bits[bid := !s.bits[bid]], meta := s.meta[Mid(bid) := true], nbits := s.nbits + 1);
        }
        s := s.(overlaps := s.overlaps[bid := s.overlaps[bid] + 1]);
        assert s == Cover(was, bid);
        bid := bid + 1;
      }
      LayDone(s0, s, done, j, p, bid);
    }

    /** Step 4.2: every old block is counted. */
    method CoverAll(bits: seq<bool>)
      requires Fitted(s) && Core(s, NOBODY) && Laying(s, s, {}, 0, 0, 0)
      requires forall j :: j in Used(bits) ==> j < s.scB.nbits && s.sc.roffset <= s.scB.Addr(j)
      modifies `s
      ensures Core(s, NOBODY) && Laying(old(s), s, Used(bits), 0, 0, 0) && s.sc == old(s).sc && s.scB == old(s).scB
    {
      hide Core, Over, Mid, Laying, SizeClass.Addr, Fitted, UsedBelow;
      ghost var s0 := s;
      UsedEnds(bits);
      for b: nat := 0 to |bits|
        invariant Core(s, NOBODY) && Laying(s0, s, UsedBelow(bits, b), 0, 0, 0) && s.sc == s0.sc && s.scB == s0.scB
      {
        UsedNext(bits, b);
        if !bits[b] {
          CoverOld(s.scB.Addr(b), s0, UsedBelow(bits, b), b);
        }
      }
    }

    /** Step 3: the lowest block in use. */
    method FirstUsed() returns (b: nat)
      requires Core(s, g) && s.nbits > 0
      ensures b < |s.bits| && !s.bits[b] && forall x :: 0 <= x < b ==> s.bits[x]
    {
      hide Mid;
      assert Used(s.bits) != {};
      b := 0;
      while s.bits[b]
        invariant b < |s.bits| && forall x :: 0 <= x < b ==> s.bits[x]
        invariant exists x: nat :: b <= x < |s.bits| && !s.bits[x]
        decreases |s.bits| - b
      {
        b := b + 1;
      }
    }

    /**
      slab_morphing from step 3 on, of a slab with no cached and no old blocks.  It
      refuses exactly when the header, metadata or table of the new layout would
      reach a block in use; otherwise every block in use becomes an old block.
     */
    method Morph(newSc: SizeClass, metaSize: nat, newCaches: map<int, Cache>) returns (done: bool)
      requires Valid() && g == Holders({}, g.live, {}, map[]) && 0 < s.nbits && 5 * s.nbits <= s.sc.nbits && s.sc.bitsize >= 64
      requires ForNew(newSc, metaSize, s.nbits) && Placed(me, newCaches, map[])
      modifies this
      ensures Valid()
      ensures done <==> forall b :: b in old(g).live ==> newSc.moffset + metaSize + TableSize(old(s).nbits) <= old(s).sc.Addr(b)
      ensures !done ==> s == old(s) && g == old(g) && caches == old(caches)
      ensures done ==> g == Holders(old(g).live, {}, {}, map[]) && s.scB == old(s).sc && caches == newCaches
      ensures done ==> s.sc.bitsize == newSc.bitsize && s.sc.moffset == newSc.moffset && s.sc.toffset == newSc.moffset + metaSize
      ensures done ==> s.sc.roffset == s.sc.toffset + TableSize(old(s).nbits) && s.sc.Tight() && s.sc.nbits <= newSc.nbits
      ensures done ==> s.oldLeft == |s.table| == old(s).nbits < 256 && 2 * |s.table| <= s.sc.roffset - s.sc.toffset
      ensures done ==> forall k :: 0 <= k < |s.table| ==> s.table[k].bid < 16384
      ensures done ==> s.nbits <= s.sc.nbits + 1 && s.sc.words == WordsFor(s.sc.nbits)
    {
      hide Ok, Core, Counted, OldFits, Tabled, Placed, Over, Mid, Laying, Fitted, SizeClass.Addr, SizeClass.Tight, SizeClass.Roomy, RoomFor;
      AllLive();
      CountFits(s.sc, s.nbits, 0);
      var r := Reset(newSc, metaSize, TableSize(s.nbits));
      var first := FirstUsed();
      if r.roffset > s.sc.Addr(first) {
        assert first in g.live;
        return false;
      }
      BelowAll(s, first, r.roffset);
      var bits, used := s.bits, s.nbits;
      ghost var olds := g.live;
      var table := ListOld(bits);
      s := Slab(r, s.sc, seq(64 * r.words, _ => true), 0, s.nbits, seq(r.nbits + 1, _ => 0), seq(8 * metaSize, _ => false), s.rbits, s.rdirty, table);
      FittedNow(s, newSc, metaSize, used);
      ghost var s0 := s;
      CoverAll(bits);
      LayingKeeps(s0, s, olds);
      LaidOk(s0, s, olds);
      CountBound(s, NOBODY);
      forall k | 0 <= k < |table| ensures table[k].bid < 16384 { CountFits(s.scB, used, table[k].bid); }
      caches := newCaches;
      g := Holders(olds, {}, {}, map[]);
      done := true;
    }

    lemma AllLive()
      requires Valid() && g == Holders({}, g.live, {}, map[])
      ensures Core(s, g) && Used(s.bits) == g.live && !s.rdirty && s.sc.Addr(s.sc.nbits) <= SLAB_SIZE && |g.live| == s.nbits
      ensures forall b :: b in g.live ==> b < s.sc.nbits
      ensures forall b: nat :: b < |s.rbits| ==> s.rbits[b]
    {
      forall b: nat | b < |s.bits| ensures !s.bits[b] <==> b in g.live { assert b < |s.overlaps| ==> Over(s, {}, b) == {}; }
      forall b: nat | b in g.live ensures b < s.sc.nbits { assert Has(g, b); }
    }
  }

  lemma NewSlabOk(s: Slab, sc: SizeClass)
    requires s == Slab(sc, sc, s.bits, 0, 0, s.overlaps, s.meta, s.rbits, false, []) && sc.bitsize > 0 && sc.Addr(sc.nbits) <= SLAB_SIZE
    requires |s.bits| == |s.rbits| == 64 * WordsFor(sc.nbits) && |s.overlaps| == sc.nbits + 1 && |s.meta| == 8 * MetaSize(sc.nbits)
    requires (forall b :: 0 <= b < |s.bits| ==> s.bits[b] && s.rbits[b]) && (forall b :: 0 <= b < |s.overlaps| ==> s.overlaps[b] == 0)
    requires forall m :: 0 <= m < |s.meta| ==> !s.meta[m]
    ensures Ok(s, Holders({}, {}, {}, map[]))
  {
    assert Used(s.bits) == {};
    forall b: nat | b < sc.nbits ensures Mid(b) < |s.meta| { MetaInside(b, sc.nbits); MidIsMap(b); }
    forall b: nat | b < |s.overlaps| ensures Over(s, {}, b) == {} { }
  }

  /** What the remote bitmap and the rest say of one block. */
  lemma RemoteAt(s: Slab, g: Holders, b: nat)
    requires Core(s, g) && b < |s.rbits|
    ensures !s.rbits[b] <==> b in g.remote
    ensures b in g.remote ==> b < s.sc.nbits && b < |s.overlaps| && s.overlaps[b] == 0 && Mid(b) < |s.meta| && b < |s.bits| && !s.bits[b] && b !in g.live && b !in g.place && s.nbits > 0
  {
    if b in g.remote {
      assert Has(g, b);
      InUse(s, b);
    }
  }

  lemma SameOlds(s: Slab, g: Holders, s': Slab, g': Holders, b: nat)
    requires Counted(s, g) && OldFits(s, g) && Tabled(s, g) && Local(s, g, s', g', b)
    ensures Counted(s', g') && OldFits(s', g') && Tabled(s', g')
  {
    LocalRest(s, g, s', g', b);
    forall x: nat | x < |s'.overlaps| ensures s'.overlaps[x] == |Over(s', g'.olds, x)| { assert Over(s', g'.olds, x) == Over(s, g.olds, x); }
  }

  lemma RemoteBelow(s: Slab, g: Holders)
    requires Core(s, g) && forall x :: x in g.remote ==> x >= |s.rbits|
    ensures g.remote == {}
  {
    forall x: nat ensures x !in g.remote {
      if x in g.remote { RemoteIn(s, g, x); }
    }
  }

  lemma RemoteIn(s: Slab, g: Holders, x: nat)
    requires Core(s, g) && x in g.remote
    ensures x < |s.rbits|
  {
    assert Has(g, x);
  }

  lemma CleanOk(s: Slab, g: Holders)
    requires Core(s, g) && Counted(s, g) && OldFits(s, g) && Tabled(s, g) && g.remote == {}
    ensures Ok(s.(rdirty := false), g)
  {
    var s' := s.(rdirty := false);
    forall x: nat | x < |s.overlaps| ensures s'.overlaps[x] == |Over(s', g.olds, x)| { assert Over(s', g.olds, x) == Over(s, g.olds, x); }
  }

  /** At most the blocks of the class and the one past the end are in use. */
  lemma CountBound(s: Slab, g: Holders)
    requires Core(s, g)
    ensures s.nbits <= s.sc.nbits + 1
  {
    forall b | b in Used(s.bits) ensures b in Below0(s.sc.nbits + 1) { }
    SubsetSize(Used(s.bits), Below0(s.sc.nbits + 1));
  }

  lemma DirtyRemote(s: Slab, g: Holders)
    requires Ok(s, g) && s.rdirty
    ensures g.remote != {}
  {
  }

  /** Thread `t`'s cache has gained the blocks `got`, each once, which nobody had; remote frees apart nothing else has changed hands. */
  ghost predicate Gained(g0: Holders, g: Holders, t: int, got: seq<nat>) {
    && g.live == g0.live && g.olds == g0.olds && (forall i, j :: 0 <= i < j < |got| ==> got[i] != got[j])
    && (forall b :: b in got ==> b !in g0.place && b !in g0.live)
    && (forall b :: b in g.place <==> b in g0.place || b in got)
    && forall b :: b in g.place ==> g.place[b] == if b in got then t else g0.place[b]
  }

  lemma GainedMore(g0: Holders, g: Holders, g': Holders, t: int, got: seq<nat>, b: nat)
    requires Gained(g0, g, t, got) && b !in g.live && b !in g.place && g' == g.(place := g.place[b := t], remote := g'.remote)
    ensures Gained(g0, g', t, got + [b])
  {
  }

  predicate HasRoom(caches: map<int, Cache>, t: int, b: nat) {
    t in caches && |caches[t].avail| == NBANKS == |caches[t].bm| && |caches[t].avail[b % NBANKS]| < MAX_CACHED
  }

  /** The caches after a free of block `b`: its thread's has gained the block, or nothing has changed. */
  function Cached(caches: map<int, Cache>, slab: int, b: nat, t: int, w: Where): map<int, Cache> {
    if w == OwnArena && HasRoom(caches, t, b) then caches[t := Push(caches[t], b % NBANKS, Entry(slab, b))] else caches
  }

  /** What a free does with a block: remote, cached when the thread's stack has room, or free. */
  ghost predicate Freed(g: Holders, g': Holders, b: nat, t: int, w: Where, room: bool) {
    if w == OtherNode then g' == g.(live := g.live - {b}, remote := g.remote + {b})
    else if w == OwnArena && room then g' == g.(live := g.live - {b}, place := g.place[b := t])
    else g' == g.(live := g.live - {b})
  }

  lemma LiftStart(s: Slab, g: Holders, j: nat, p: nat)
    requires Counted(s, g)
    ensures Lifting(s, s, g.olds, j, p, p)
  {
  }

  function UsedBelow(bits: seq<bool>, n: nat): set<nat>
    requires n <= |bits|
  {
    set b: nat | b < n && !bits[b]
  }

  lemma UsedEnds(bits: seq<bool>)
    ensures UsedBelow(bits, 0) == {} && UsedBelow(bits, |bits|) == Used(bits)
  {
  }

  lemma NoneListed()
    ensures Lists([], {})
  {
  }

  lemma UsedNext(bits: seq<bool>, b: nat)
    requires b < |bits|
    ensures UsedBelow(bits, b + 1) == if bits[b] then UsedBelow(bits, b) else UsedBelow(bits, b) + {b}
    ensures b !in UsedBelow(bits, b) && (!bits[b] ==> b in Used(bits))
  {
  }

  lemma ListsMore(table: seq<OldEntry>, olds: set<nat>, b: nat)
    requires Lists(table, olds) && b !in olds
    ensures Lists(table + [OldEntry(b, 0)], olds + {b})
  {
    var t' := table + [OldEntry(b, 0)];
    assert t'[|table|].bid == b;
    forall j | j in olds ensures exists k :: 0 <= k < |t'| && t'[k].bid == j {
      var k :| 0 <= k < |table| && table[k].bid == j;
      assert t'[k].bid == j;
    }
  }

  lemma LayingKeeps(s0: Slab, s: Slab, done: set<nat>)
    requires Laying(s0, s, done, 0, 0, 0)
    ensures s == s0.(bits := s.bits, meta := s.meta, nbits := s.nbits, overlaps := s.overlaps)
  {
  }

  lemma ClassSized(s: Slab, g: Holders)
    requires Core(s, g)
    ensures s.sc.bitsize > 0
  {
  }

  lemma LeftNone(me: int, caches: map<int, Cache>, place: map<nat, int>, t: int, c: Cache)
    requires |c.avail| == NBANKS && t in caches && caches[t] == Left(c, NBANKS, 0) && Placed(me, caches, place)
    ensures caches[t] == Cache(seq(NBANKS, _ => []), seq(NBANKS, _ => false), c.now)
    ensures forall b :: b in place ==> place[b] != t
  {
  }

  lemma FittedSized(s: Slab)
    requires Fitted(s)
    ensures s.sc.bitsize > 0
  {
  }

  /** What morphing asks of a class and the number of blocks in use; every class there is has it (ClassesRoomy, MetaBound). */
  ghost predicate ForNew(sc: SizeClass, metaSize: nat, used: nat) {
    && sc.bitsize > 0 && sc.moffset + metaSize + TableSize(used) <= SLAB_SIZE && MetaSize(sc.nbits + 1) <= metaSize
    && (sc.nbits + 1) * sc.bitsize + sc.moffset + MetaSize(sc.nbits + 1) > SLAB_SIZE
    && RoomFor(sc.bitsize, sc.moffset + metaSize + TableSize(used))
  }

  lemma BelowAll(s: Slab, first: nat, top: nat)
    requires first < |s.bits| && !s.bits[first] && (forall x :: 0 <= x < first ==> s.bits[x]) && top <= s.sc.Addr(first)
    ensures forall b :: b in Used(s.bits) ==> top <= s.sc.Addr(b)
  {
    forall b | b in Used(s.bits) ensures top <= s.sc.Addr(b) { AddrRises(s.sc, first, b); }
  }

  lemma FittedNow(s: Slab, newSc: SizeClass, metaSize: nat, used: nat)
    requires ForNew(newSc, metaSize, used) && s.sc.bitsize == newSc.bitsize && s.sc.moffset == newSc.moffset && s.sc.toffset == newSc.moffset + metaSize
    requires s.sc.roffset == s.sc.toffset + TableSize(used) && s.sc.Tight() && s.sc.words == WordsFor(s.sc.nbits)
    requires s.scB.bitsize > 0 && s.scB.Addr(s.scB.nbits) <= SLAB_SIZE
    requires s.bits == seq(64 * s.sc.words, _ => true) && s.overlaps == seq(s.sc.nbits + 1, _ => 0) && s.meta == seq(8 * metaSize, _ => false)
    requires s.nbits == 0 && forall b: nat :: b < |s.rbits| ==> s.rbits[b]
    ensures Fitted(s) && Core(s, NOBODY) && Laying(s, s, {}, 0, 0, 0) && s.sc.nbits <= newSc.nbits
  {
    hide Core, Laying, Mid, MetaSize, Map;
    RoomIsRoomy(s.sc);
    forall b: nat | b <= s.sc.nbits ensures Mid(b) < |s.meta| { MidFits(newSc, s.sc, metaSize, b); }
    ResetShrinks(newSc, s.sc, metaSize, 0);
    BlankCore(s);
  }

  lemma MidFits(sc: SizeClass, r: SizeClass, metaSize: nat, b: nat)
    requires sc.bitsize == r.bitsize > 0 && sc.moffset == r.moffset && r.toffset == r.moffset + metaSize && r.toffset <= r.roffset
    requires (sc.nbits + 1) * sc.bitsize + sc.moffset + MetaSize(sc.nbits + 1) > SLAB_SIZE
    requires r.Tight() && MetaSize(sc.nbits + 1) <= metaSize && b <= r.nbits
    ensures Mid(b) < 8 * metaSize
  {
    MidIsMap(b);
    ResetShrinks(sc, r, metaSize, b);
  }

  /** Before any old block is counted every block is free. */
  lemma BlankCore(s: Slab)
    requires s.sc.bitsize > 0 && |s.overlaps| == s.sc.nbits + 1 && s.sc.nbits <= |s.bits| && s.nbits == 0
    requires (forall b: nat :: b < |s.bits| ==> s.bits[b]) && (forall b: nat :: b < |s.overlaps| ==> s.overlaps[b] == 0)
    requires (forall b: nat :: b <= s.sc.nbits ==> Mid(b) < |s.meta|) && (forall m: nat :: m < |s.meta| ==> !s.meta[m])
    requires forall b: nat :: b < |s.rbits| ==> s.rbits[b]
    ensures Core(s, NOBODY) && Laying(s, s, {}, 0, 0, 0)
  {
    hide Mid;
    assert Used(s.bits) == {};
    forall x: nat ensures Over(s, {}, x) == {} { }
  }
}

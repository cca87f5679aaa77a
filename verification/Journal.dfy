/**
  The log of one arena: appends, frees, deferred tombstones and copying collection
  of log.c, over the stores of LogStore.  Runs without fast_GC.
 */
module Journal {
  import opened CrashLog
  import opened Interleave
  import opened LogStore

  const LOG_FILE_SIZE := 10737418240

  // ------------------------------------------------------------------ how far slow_GC's scan has come

  /** The item at `p` lies before bit `i` of the chunk at place `n` of the chain. */
  ghost predicate Passed(chain: seq<int>, p: int, n: nat, i: nat) {
    exists m :: 0 <= m < |chain| && chain[m] == ChunkOf(p) && (m < n || (m == n && IndexOf(p) < i))
  }

  /** The copy names the items of exactly the owners that have been passed, as they were. */
  ghost predicate Scanned(chain: seq<int>, logOf0: map<Key, int>, view0: map<Key, Item>,
          log2: map<Key, int>, view2: map<Key, Item>, logOf: map<Key, int>, n: nat, i: nat) {
    && (forall k :: k in log2 <==> k in logOf0 && Passed(chain, logOf0[k], n, i))
    && (forall k :: k in log2 ==> k in view0 && k in view2 && view2[k] == view0[k])
    && logOf == logOf0 + log2
  }

  lemma PassedStep(chain: seq<int>, p: int, n: nat, i: nat)
    requires n < |chain| && Distinct(chain)
    ensures Passed(chain, p, n, i + 1) <==> Passed(chain, p, n, i) || (ChunkOf(p) == chain[n] && IndexOf(p) == i)
    ensures ChunkOf(p) == chain[n] && IndexOf(p) == i ==> !Passed(chain, p, n, i)
  {
    hide ChunkOf, IndexOf;
  }

  lemma PassedChunk(chain: seq<int>, p: int, n: nat)
    requires n < |chain| && 0 <= IndexOf(p) < ITEMS
    ensures Passed(chain, p, n + 1, 0) <==> Passed(chain, p, n, ITEMS)
  {
    hide ChunkOf, IndexOf;
  }

  lemma PassedEnds(chain: seq<int>, p: int)
    requires 0 <= IndexOf(p)
    ensures !Passed(chain, p, 0, 0) && (Passed(chain, p, |chain|, 0) <==> ChunkOf(p) in chain)
  {
    hide ChunkOf, IndexOf;
  }

  /** A bit that leads to no item of an owner. */
  lemma ScanSkips(chain: seq<int>, logOf0: map<Key, int>, view0: map<Key, Item>, log2: map<Key, int>, view2: map<Key, Item>, logOf: map<Key, int>, n: nat, i: nat)
    requires Scanned(chain, logOf0, view0, log2, view2, logOf, n, i) && n < |chain| && Distinct(chain)
    requires forall k :: k in logOf0 ==> !(ChunkOf(logOf0[k]) == chain[n] && IndexOf(logOf0[k]) == i)
    ensures Scanned(chain, logOf0, view0, log2, view2, logOf, n, i + 1)
  {
    hide ChunkOf, IndexOf, Passed, Distinct;
    forall k | k in logOf0 { PassedStep(chain, logOf0[k], n, i); }
  }

  /** A bit that leads to the item of `key`, which is now in the copy at `r`. */
  lemma ScanTakes(chain: seq<int>, logOf0: map<Key, int>, view0: map<Key, Item>, log2: map<Key, int>, view2: map<Key, Item>, logOf: map<Key, int>, n: nat, i: nat, key: Key, r: int)
    requires Scanned(chain, logOf0, view0, log2, view2, logOf, n, i) && n < |chain| && Distinct(chain) && key in view0
    requires forall k :: k in logOf0 ==> (ChunkOf(logOf0[k]) == chain[n] && IndexOf(logOf0[k]) == i <==> k == key)
    requires key in logOf0
    ensures key !in log2
    ensures Scanned(chain, logOf0, view0, log2[key := r], view2[key := view0[key]], logOf[key := r], n, i + 1)
  {
    hide ChunkOf, IndexOf, Passed, Distinct;
    forall k | k in logOf0 { PassedStep(chain, logOf0[k], n, i); }
    assert key !in log2;
    assert logOf[key := r] == logOf0 + log2[key := r];
  }

  lemma ScanChunk(chain: seq<int>, logOf0: map<Key, int>, view0: map<Key, Item>, log2: map<Key, int>, view2: map<Key, Item>, logOf: map<Key, int>, n: nat)
    requires Scanned(chain, logOf0, view0, log2, view2, logOf, n, ITEMS) && n < |chain|
    requires forall k :: k in logOf0 ==> 0 <= IndexOf(logOf0[k]) < ITEMS
    ensures Scanned(chain, logOf0, view0, log2, view2, logOf, n + 1, 0)
  {
    hide ChunkOf, IndexOf, Passed;
    forall k | k in logOf0 { PassedChunk(chain, logOf0[k], n); }
  }

  lemma ScanStarts(chain: seq<int>, logOf0: map<Key, int>, view0: map<Key, Item>, view2: map<Key, Item>)
    requires forall k :: k in logOf0 ==> 0 <= IndexOf(logOf0[k])
    ensures Scanned(chain, logOf0, view0, map[], view2, logOf0, 0, 0)
  {
    hide ChunkOf, IndexOf, Passed;
    forall k | k in logOf0 { PassedEnds(chain, logOf0[k]); }
    assert logOf0 + map[] == logOf0;
  }

  lemma ScanEnds(chain: seq<int>, logOf0: map<Key, int>, view0: map<Key, Item>, log2: map<Key, int>, view2: map<Key, Item>, logOf: map<Key, int>)
    requires Scanned(chain, logOf0, view0, log2, view2, logOf, |chain|, 0) && view0.Keys == logOf0.Keys && view2.Keys == log2.Keys
    requires forall k :: k in logOf0 ==> 0 <= IndexOf(logOf0[k]) && ChunkOf(logOf0[k]) in chain
    ensures log2 == logOf && logOf.Keys == logOf0.Keys && view2 == view0
  {
    hide ChunkOf, IndexOf, Passed;
    forall k | k in logOf0 { PassedEnds(chain, logOf0[k]); }
    assert forall k :: k in log2 <==> k in logOf0;
    assert forall k :: k in view2 <==> k in view0;
  }

  class Log {
    const base: int              // where the log file is mapped
    var mem: Memory
    var v: Vlog
    var freeList: seq<int>
    var used: nat
    var tombs: seq<Item>         // the shadow tombstones, in the order in which they will be flushed
    var logOf: map<Key, int>     // the log pointers of extents and files
    var alt: nat
    var roots: seq<int>
    ghost var chain: seq<int>
    ghost var pm: Pm               // what a crash could leave now
    ghost var history: seq<Pm>     // what it could have left at each point since the last collection began,
    ghost var images: seq<Image>   // what memory held then,
    ghost var acts: seq<Act>       // and the stores and persists between

    ghost function Current(): Store
      reads `mem, `v, `chain
    {
      Store(mem, v, chain)
    }

    predicate InFile(c: int)
      reads `used
    {
      IsChunk(c) && base + CHUNK_BYTES <= c < base + used
    }

    /** The free chunks `free0` are chunks of the file that the log of root `root` and chain `ch` does not use. */
    ghost predicate SpareOf(ch: seq<int>, root: int, free0: seq<int>)
      reads `used
    {
      && base % CHUNK_BYTES == 0 && base >= 0 && used % CHUNK_BYTES == 0 && used >= CHUNK_BYTES
      && Distinct(free0) && (forall c :: c in free0 ==> InFile(c) && c !in ch && c != root)
      && InFile(root) && (forall c :: c in ch ==> InFile(c))
    }

    ghost predicate Spare()
      reads `chain, `v, `freeList, `used
    {
      SpareOf(chain, v.root, freeList)
    }

    /** Every chunk of the file but those in `out` is free or the log's. */
    ghost predicate WholeBut(out: set<int>)
      reads `chain, `v, `freeList, `used
    {
      forall c :: InFile(c) ==> c in freeList || c in chain || c == v.root || c in out
    }

    ghost predicate Valid()
      reads this
    {
      WholeBut({}) && Spare() && Standing()
    }

    /** The log itself is in order, whichever chunks are free. */
    ghost predicate Standing()
      reads `mem, `v, `chain, `tombs, `logOf, `alt, `roots, `pm, `history, `images, `acts
    {
      && Formed(Current()) && Synced(Current(), tombs) && Named(Current(), logOf)
      && alt < 2 && |roots| == 2 && roots[alt] == v.root && OldStands(pm, Current(), alt) && Logged()
    }

    /** The history is that of the stores and persists since its beginning, and ends now. */
    ghost predicate Logged()
      reads `alt, `roots, `mem, `pm, `history, `images, `acts
    {
      Traced(images, history, acts) && images[|acts|] == Image(alt, roots, mem) && history[|acts|] == pm
    }

    /** A store that has just been made, or a persist. */
    ghost method Note(a: Act)
      requires Traced(images, history, acts) && history[|acts|] == pm && CanAct(images[|acts|], a)
      requires Image(alt, roots, mem) == Seen(images[|acts|], a)
      modifies `pm, `history, `images, `acts
      ensures Logged() && pm == Left(old(images)[|old(acts)|], old(pm), a) && history == old(history) + [pm] && acts == old(acts) + [a]
      ensures images == old(images) + [Image(alt, roots, mem)]
    {
      hide Seen, Left, CanAct;
      TracedMore(images, history, acts, a);
      pm := Left(images[|acts|], pm, a);
      images, history, acts := images + [Image(alt, roots, mem)], history + [pm], acts + [a];
    }

    /** The history starts again from now. */
    ghost method StartHistory()
      modifies `history, `images, `acts
      ensures Logged() && history == [pm] && images == [Image(alt, roots, mem)] && acts == []
    {
      history, images, acts := [pm], [Image(alt, roots, mem)], [];
    }

    /** The store of an item; add_log_for_GC leaves it at that. */
    method PutItem(c: int, i: nat, item: Item)
      requires Logged() && c in mem && i < |mem[c].items|
      modifies `mem, `pm, `history, `images, `acts
      ensures mem == old(mem)[c := old(mem)[c].(items := old(mem)[c].items[i := item])]
      ensures Logged() && pm == PutSlot(old(pm), c, i, item) && history == old(history) + [pm] && acts == old(acts) + [Stored(c, i, item)]
      ensures old(images) <= images
    {
      hide Traced, PutSlot;
      mem := mem[c := mem[c].(items := mem[c].items[i := item])];
      Note(Stored(c, i, item));
    }

    /** vlchunk_alloc's wiping of a chunk, and its persist. */
    method WipeChunk(c: int, chunk: Chunk)
      requires Logged()
      modifies `mem, `pm, `history, `images, `acts
      ensures mem == old(mem)[c := chunk] && Logged() && pm == FlushChunk(Wipe(old(pm), c), c, chunk)
      ensures history == old(history) + [Wipe(old(pm), c), pm] && acts == old(acts) + [Wiped(c, chunk), SavedChunk(c)]
      ensures old(images) <= images
    {
      hide Traced, FlushChunk, Wipe;
      mem := mem[c := chunk];
      Note(Wiped(c, chunk));
      Note(SavedChunk(c));
    }

    /** The store of a link. */
    method Link(c: int, next: int)
      requires Logged() && c in mem
      modifies `mem, `pm, `history, `images, `acts
      ensures mem == old(mem)[c := old(mem)[c].(next := next)]
      ensures Logged() && pm == PutNext(old(pm), c, next) && history == old(history) + [pm] && acts == old(acts) + [Linked(c, next)]
      ensures old(images) <= images
    {
      hide Traced, PutNext;
      mem := mem[c := mem[c].(next := next)];
      Note(Linked(c, next));
    }


    /** log_create. */
    constructor (base: int)
      requires base >= 0 && base % CHUNK_BYTES == 0
      ensures Valid() && Live() == map[] && tombs == [] && alt == 0
    {
      hide Formed, Synced, Named, Zeros, NoBits;
      var root, first := base + CHUNK_BYTES, base + 2 * CHUNK_BYTES;
      CreatedFormed(map[], root, first, 1);
      this.base := base;
      mem := map[root := Chunk(first, 1, Zeros()), first := Chunk(0, 2, Zeros())];
      v := Vlog(map[first := VChunk(0, NoBits(), 2, root)], root, first, 3);
      chain := [first];
      freeList, used, tombs, logOf, alt, roots := [], 3 * CHUNK_BYTES, [], map[], 0, [root, 0];
      pm := Pm({0}, [{root}, {0}], map[root := {first}, first := {0}], map[root := {1}, first := {2}],
        map[root := Only(Zeros()), first := Only(Zeros())]);
      history := [pm];
      images, acts := [Image(0, [root, 0], map[root := Chunk(first, 1, Zeros()), first := Chunk(0, 2, Zeros())])], [];
      new;
      assert Current() == Created(map[], root, first, 1);
    }

    /** The live items, by owner. */
    ghost function Live(): map<Key, Item>
      reads this
    {
      View(Current(), logOf)
    }

    // ---------------------------------------------------------------- chunks

    /** How often vlchunk_alloc can still cut a chunk from the end of a file used that far. */
    static ghost function Ends(used0: nat): nat
      decreases LOG_FILE_SIZE - used0
    {
      if used0 + CHUNK_BYTES >= LOG_FILE_SIZE then 0 else 1 + Ends(used0 + CHUNK_BYTES)
    }

    /** How many chunks can be had before the file is full. */
    ghost function Obtainable(): nat
      reads `freeList, `used
    {
      |freeList| + Ends(used)
    }

    /** The items in the tail, cancelled ones and tombstones included. */
    ghost function Count(): nat
      reads `v
    {
      if v.tail in v.tree then v.tree[v.tail].count else 0
    }

    /** The next item needs a chunk, and there is none. */
    ghost predicate Stuck()
      reads `v, `freeList, `used
    {
      Count() >= CLOSES && Obtainable() == 0
    }

    /** One item more, in a new chunk if the tail was full. */
    static predicate OneMore(count0: nat, room0: nat, count: nat, room: nat) {
      if count0 >= CLOSES then count == 1 && room == room0 - 1 else count == count0 + 1 && room == room0
    }

    /** The chunks that `n` items take beyond a tail with `count`. */
    static function Extra(count: nat, n: nat): nat
      decreases n
    {
      if n == 0 then 0 else if count >= CLOSES then 1 + Extra(1, n - 1) else Extra(count + 1, n - 1)
    }

    static lemma {:induction false} ExtraIs(count: nat, n: nat)
      requires count <= CLOSES
      ensures Extra(count, n) == if n == 0 then 0 else (count + n - 1) / CLOSES
      decreases n
    {
      if n > 0 { ExtraIs(if count == CLOSES then 1 else count + 1, n - 1); }
    }

    /** Where vlchunk_alloc finds a chunk: the free list, or else the end of the file; 0 if the file is full and the program ends. */
    method TakeChunk(ghost out: set<int>) returns (c: int)
      requires Spare() && WholeBut(out)
      modifies `freeList, `used
      ensures Spare() && used == old(used) + if old(freeList) == [] then CHUNK_BYTES else 0
      ensures old(freeList) != [] ==> c == old(freeList)[0] && freeList == old(freeList)[1..]
      ensures old(freeList) == [] ==> freeList == [] && c == if used < LOG_FILE_SIZE then base + old(used) else 0
      ensures c != 0 ==> InFile(c) && c !in freeList && c !in chain && c != v.root && WholeBut(out + {c})
      ensures (forall d :: old(InFile(d)) ==> InFile(d)) && (c != 0 ==> c in old(freeList) || !old(InFile(c)))
      ensures (c != 0 <==> old(Obtainable()) > 0) && (c != 0 ==> Obtainable() == old(Obtainable()) - 1)
    {
      if freeList != [] {
        c := freeList[0];
        assert InFile(c) && forall d :: d in freeList[1..] ==> d in freeList && d != c;
        freeList := freeList[1..];
      } else {
        FileEnds();
        c := base + used;
        assert IsChunk(c) && forall d :: d in chain ==> d < c;
        used := used + CHUNK_BYTES;
        if used >= LOG_FILE_SIZE {
          c := 0;
        }
      }
    }

    /** No chunk begins within the last one. */
    lemma FileEnds()
      requires Spare()
      ensures forall d :: IsChunk(d) && d < base + used + CHUNK_BYTES ==> d <= base + used
    {
      forall d | IsChunk(d) && d < base + used + CHUNK_BYTES ensures d <= base + used {
        if d > base + used { AlignedGap(base + used, d); }
      }
    }

    /** The stores with which add_log opens a new tail. */
    method OpenTail(t: int, c: int, fresh0: Chunk)
      requires Logged() && t in mem && t != c
      modifies `mem, `pm, `history, `images, `acts
      ensures mem == old(mem)[c := fresh0][t := old(mem)[t].(next := c)] && Logged() && pm == Opened(old(pm), t, c, fresh0)
      ensures history == old(history) + OpenPoints(old(pm), t, c, fresh0) && acts == old(acts) + [Wiped(c, fresh0), SavedChunk(c), Linked(t, c), SavedLink(t)]
    {
      hide Traced, FlushChunk, Wipe, PutNext, FlushNext;
      WipeChunk(c, fresh0);
      Link(t, c);
      Note(SavedLink(t));
    }

    /** A chunk that has been taken may join the log. */
    lemma SpareMore(c: int)
      requires Spare() && WholeBut({c}) && InFile(c) && c !in freeList && c !in chain && c != v.root
      ensures SpareOf(chain + [c], v.root, freeList) && IsChunk(c)
      ensures forall d :: InFile(d) ==> d in freeList || d in chain + [c] || d == v.root
    {
    }

    /** The history has grown, and a crash at any of its new points leaves what replays to `live` and at most `extra` beyond. */
    static ghost predicate SafeFrom(h0: seq<Pm>, h: seq<Pm>, live: set<Item>, extra: set<Item>) {
      h0 <= h && AllSafe(h[|h0|..], live, extra)
    }

    static lemma NoPoints(h: seq<Pm>, live: set<Item>, extra: set<Item>)
      ensures SafeFrom(h, h, live, extra)
    {
      assert h[|h|..] == [];
    }

    static lemma MorePoints(h: seq<Pm>, ps: seq<Pm>, live: set<Item>, extra: set<Item>)
      requires AllSafe(ps, live, extra)
      ensures SafeFrom(h, h + ps, live, extra)
    {
      assert (h + ps)[|h|..] == ps;
    }

    /** Two stretches, the first under narrower bounds. */
    static lemma JoinPoints(h0: seq<Pm>, h: seq<Pm>, ps: seq<Pm>, live: set<Item>, extra: set<Item>, l: set<Item>, x: set<Item>)
      requires SafeFrom(h0, h, live, extra) && l <= live && live + extra <= l + x && AllSafe(ps, l, x)
      ensures SafeFrom(h0, h + ps, l, x)
    {
      hide AllSafe;
      AllSafeWithin(h[|h0|..], live, extra, l, x);
      AllSafeJoin(h[|h0|..], ps, l, x);
      assert (h + ps)[|h0|..] == h[|h0|..] + ps;
    }

    /** And two where the second is under narrower ones. */
    static lemma ChainPoints(h0: seq<Pm>, h: seq<Pm>, h': seq<Pm>, live: set<Item>, extra: set<Item>, more: set<Item>)
      requires SafeFrom(h0, h, live, more) && SafeFrom(h, h', live, extra) && extra <= more
      ensures SafeFrom(h0, h', live, more)
    {
      AllSafeWithin(h'[|h|..], live, extra, live, more);
      JoinPoints(h0, h, h'[|h|..], live, more, live, more);
      assert h + h'[|h|..] == h';
    }

    /** The head of add_log and flush_tomb: a new tail when count_to_index runs past the chunk. */
    method Ready() returns (ok: bool)
      requires Valid()
      modifies this
      ensures ok ==> Valid() && v.tree[v.tail].count < CLOSES && Live() == old(Live()) && tombs == old(tombs) && logOf == old(logOf)
      ensures ok ==> v.nextId <= old(v.nextId) + 1 && alt == old(alt) && roots == old(roots) && v.root == old(v.root)
      ensures ok ==> forall d :: d in old(chain) ==> d in chain
      ensures ok ==> chain == old(chain) || (chain == old(chain) + [v.tail] && (old(freeList) != [] ==> v.tail == old(freeList)[0]))
      ensures ok ==> forall d, i :: d in old(chain) && 0 <= i < ITEMS ==>
        At(Current(), d, i) == At(old(Current()), d, i) && Bit(Current(), d, i) == Bit(old(Current()), d, i)
      ensures ok ==> SafeFrom(old(history), history, old(LiveItems(Current(), logOf)), old(PendingItems(Current(), tombs)))
      ensures ok ==> LiveItems(Current(), logOf) == old(LiveItems(Current(), logOf)) && PendingItems(Current(), tombs) == old(PendingItems(Current(), tombs))
      ensures ok ==> Count() == (if old(Count()) >= CLOSES then 0 else old(Count()))
      ensures (ok <==> !old(Stuck())) && (ok ==> Obtainable() == old(Obtainable()) - if old(Count()) >= CLOSES then 1 else 0)
    {
      hide Standing, View, At, Bit, SpareOf, InFile, LogIndex, SafeFrom;
      TailFits();
      NoPoints(history, LiveItems(Current(), logOf), PendingItems(Current(), tombs));
      var index := LogIndex(v.tree[v.tail].count);
      ok := true;
      if index >= ITEMS {
        var c := TakeChunk({});
        if c == 0 {
          return false;
        }
        NewTail(c);
      }
    }

    /** A chunk that has been taken becomes the tail. */
    method NewTail(c: int)
      requires Standing() && Spare() && WholeBut({c}) && Count() >= CLOSES && InFile(c) && c !in freeList && c !in chain && c != v.root
      modifies `mem, `v, `chain, `pm, `history, `images, `acts
      ensures Valid() && chain == old(chain) + [c] && v.tail == c && Count() == 0 && v.tail in v.tree && v.tree[v.tail].count == 0
      ensures Live() == old(Live()) && v.nextId == old(v.nextId) + 1 && v.root == old(v.root)
      ensures forall d, i :: d in old(chain) && 0 <= i < ITEMS ==>
        At(Current(), d, i) == At(old(Current()), d, i) && Bit(Current(), d, i) == Bit(old(Current()), d, i)
      ensures SafeFrom(old(history), history, old(LiveItems(Current(), logOf)), old(PendingItems(Current(), tombs)))
      ensures LiveItems(Current(), logOf) == old(LiveItems(Current(), logOf)) && PendingItems(Current(), tombs) == old(PendingItems(Current(), tombs))
    {
      hide Formed, Synced, Named, View, At, Bit, Zeros, NoBits, DurableLog, Opened, SpareOf, InFile, IsChunk, Traced, SafeFrom;
      TailFits();
      SpareMore(c);
      ghost var s := Current();
      ExtendKeeps(s, c, tombs, logOf);
      ExtendReads(s, c);
      OpenedStands(pm, s, alt, c);
      OpenSafe(pm, s, alt, c, tombs, logOf);
      MorePoints(history, OpenPoints(pm, v.tail, c, Chunk(0, v.nextId, Zeros())), LiveItems(s, logOf), PendingItems(s, tombs));
      OpenTail(v.tail, c, Chunk(0, v.nextId, Zeros()));
      v := v.(tree := v.tree[c := VChunk(0, NoBits(), v.nextId, v.tail)], tail := c, nextId := v.nextId + 1);
      chain := chain + [c];
      assert Current() == Extend(s, c);
    }

    lemma TailFits()
      requires Standing()
      ensures v.tail in v.tree && v.tail in mem && v.tail in chain && v.tree[v.tail].count <= CLOSES
      ensures LogIndex(v.tree[v.tail].count) < ITEMS <==> v.tree[v.tail].count < CLOSES
      ensures forall c :: c in chain ==> IsChunk(c)
    {
      assert Fits(mem[v.tail], v.tree[v.tail]);
      ChunkCloses(v.tree[v.tail].count);
    }

    /** Writing the item where Ready left room, as add_log and flush_tomb do before they count it. */
    method Write(item: Item) returns (r: int, ghost c: int, ghost i: nat)
      requires Formed(Current()) && Spare() && v.tree[v.tail].count < CLOSES && item != Empty && OldStands(pm, Current(), alt) && Logged()
      modifies `mem, `v, `pm, `history, `images, `acts
      ensures OldStands(pm, Current(), alt) && Logged() && pm == Written(old(pm), c, i, item)
      ensures history == old(history) + [PutSlot(old(pm), c, i, item), pm]
      ensures Formed(Current()) && Spare() && v.root == old(v.root) && v.nextId == old(v.nextId)
      ensures Differs(old(Current()), Current(), c, i, item, true) && At(old(Current()), c, i) == Empty && r == SlotPtr(c, i)
      ensures v.tail == old(v.tail) && v.tail in v.tree && v.tail !in Empties(v.tree) && Count() == old(Count()) + 1 && c in chain
      ensures forall d :: d in chain ==> IsChunk(d)
    {
      hide View, At, Bit, Formed, Differs, LogIndex, DurableLog, Written, Fill, Traced;
      ghost var s := Current();
      Room(s);
      FillFormed(s, item);
      FillReads(s, item);
      WrittenDurable(pm, s, item);
      WrittenStays(pm, v.tail, NextIndex(s), item);
      var index := LogIndex(v.tree[v.tail].count);
      var chunk, vchunk := mem[v.tail], v.tree[v.tail];
      WriteItem(v.tail, index, item);
      v := v.(tree := v.tree[v.tail := vchunk.(count := vchunk.count + 1, bits := vchunk.bits[index := true])]);
      FillIs(s, item);
      assert Current() == Fill(s, item);
      r, c, i := SlotPtr(v.tail, index), v.tail, index;
      assert v.tree[v.tail].bits[index];
    }

    /** An item is stored and persisted. */
    method WriteItem(c: int, i: nat, item: Item)
      requires Logged() && c in mem && i < |mem[c].items|
      modifies `mem, `pm, `history, `images, `acts
      ensures mem == old(mem)[c := old(mem)[c].(items := old(mem)[c].items[i := item])]
      ensures Logged() && pm == Written(old(pm), c, i, item) && history == old(history) + [PutSlot(old(pm), c, i, item), pm]
      ensures acts == old(acts) + [Stored(c, i, item), SavedItem(c, i)]
    {
      hide Traced, PutSlot, FlushSlot;
      PutItem(c, i, item);
      Note(SavedItem(c, i));
    }

    /** set_bitmap to false, for the item at `p`. */
    method Unset(p: int)
      requires Formed(Current()) && Spare() && ChunkOf(p) in chain && 0 <= IndexOf(p) < ITEMS && OldStands(pm, Current(), alt)
      modifies `v
      ensures OldStands(pm, Current(), alt)
      ensures Formed(Current()) && Spare() && v.root == old(v.root) && v.nextId == old(v.nextId) && v.tail == old(v.tail)
      ensures v.tail in v.tree && v.tail in old(v).tree && v.tree[v.tail].count == old(v).tree[v.tail].count
      ensures Differs(old(Current()), Current(), ChunkOf(p), IndexOf(p), At(old(Current()), ChunkOf(p), IndexOf(p)), false)
    {
      hide View, At, Bit, ChunkOf, IndexOf;
      ghost var s := Current();
      var c, i := ChunkOf(p), IndexOf(p);
      ClearFormed(s, c, i);
      hide Filled;
      v := v.(tree := v.tree[c := v.tree[c].(bits := v.tree[c].bits[i := false])]);
      assert Current() == Clear(s, c, i);
    }

    lemma LiveStands(key: Key)
      requires Valid() && key in logOf
      ensures ChunkOf(logOf[key]) in chain && 0 <= IndexOf(logOf[key]) < ITEMS
      ensures SlotPtr(ChunkOf(logOf[key]), IndexOf(logOf[key])) == logOf[key]
      ensures Lasting(At(Current(), ChunkOf(logOf[key]), IndexOf(logOf[key]))) && Bit(Current(), ChunkOf(logOf[key]), IndexOf(logOf[key]))
      ensures ChunkOf(logOf[key]) in v.tree && v.tree[ChunkOf(logOf[key])].id == Ver(Current(), ChunkOf(logOf[key]))
      ensures key in Live() && Live()[key] == At(Current(), ChunkOf(logOf[key]), IndexOf(logOf[key]))
      ensures forall c :: c in chain ==> IsChunk(c)
    {
      assert Fits(mem[ChunkOf(logOf[key])], v.tree[ChunkOf(logOf[key])]);
    }

    /** add_log for an allocated extent or a mapped file; the caller keeps the item's address. */
    method Append(kind: Kind, ptr: int, size: nat, slab: bool) returns (r: int)
      requires Valid() && !kind.Freed? && Key(kind, ptr) !in logOf
      modifies this
      ensures r != 0 ==> Valid() && Live() == old(Live())[Key(kind, ptr) := Item(kind, ptr, if slab then size + 1 else size)]
      ensures r != 0 ==> logOf == old(logOf)[Key(kind, ptr) := r] && tombs == old(tombs)
      ensures r != 0 ==> SafeFrom(old(history), history, old(LiveItems(Current(), logOf)),
        old(PendingItems(Current(), tombs)) + {Item(kind, ptr, if slab then size + 1 else size)})
      ensures (r == 0 <==> old(Stuck())) && (r != 0 ==> OneMore(old(Count()), old(Obtainable()), Count(), Obtainable()))
    {
      hide Formed, Synced, Named, View, At, Bit, Logged, SpareOf, InFile, OldStands, SafeFrom, PutSlot, Written;
      var ok := Ready();
      if !ok {
        return 0;
      }
      ghost var s, pm0, h0, h1 := Current(), pm, old(history), history;
      ghost var c, i;
      var item := Item(kind, ptr, if slab then size + 1 else size);
      r, c, i := Write(item);
      FillLasting(s, Current(), c, i, item, tombs);
      FillNamed(s, Current(), c, i, item, logOf);
      AppendSafe(pm0, s, Current(), alt, c, i, item, tombs, logOf, h0, h1);
      logOf := logOf[Key(kind, ptr) := r];
      SlotNotNull(r, c, i);
    }

    /** Whether the item of an append is found or not, the log replays. */
    static lemma AppendSafe(pm: Pm, s: Store, s': Store, alt: nat, c: int, i: nat, item: Item, tombs: seq<Item>, logOf: map<Key, int>, h0: seq<Pm>, h: seq<Pm>)
      requires OldStands(pm, s, alt) && Formed(s) && Synced(s, tombs) && Named(s, logOf) && item.Item? && KeyOf(item) !in logOf
      requires Differs(s, s', c, i, item, true) && At(s, c, i) == Empty
      requires var l := logOf[KeyOf(item) := SlotPtr(c, i)];
        OldStands(Written(pm, c, i, item), s', alt) && Formed(s') && Synced(s', tombs) && Named(s', l) && View(s', l) == View(s, logOf)[KeyOf(item) := item]
      requires SafeFrom(h0, h, LiveItems(s, logOf), PendingItems(s, tombs))
      ensures SafeFrom(h0, h + [PutSlot(pm, c, i, item), Written(pm, c, i, item)], LiveItems(s, logOf), PendingItems(s, tombs) + {item})
    {
      hide OldStands, Formed, Synced, Named, View, At, Bit, AllSafe, PutSlot, Written, LiveItems, PendingItems, SafeFrom, SlotPtr;
      var l := logOf[KeyOf(item) := SlotPtr(c, i)];
      ViewKeys(s, logOf);
      LiveMore(s, s', logOf, l, KeyOf(item), item);
      PendingKept(s, s', tombs);
      WriteSafe(pm, s, s', alt, c, i, item, tombs, tombs, logOf, l, LiveItems(s, logOf), PendingItems(s, tombs) + {item});
      JoinPoints(h0, h, [PutSlot(pm, c, i, item), Written(pm, c, i, item)], LiveItems(s, logOf), PendingItems(s, tombs), LiveItems(s, logOf), PendingItems(s, tombs) + {item});
    }

    /** A FREE record for the item at `p`; the version field keeps the low bits of the chunk's version. */
    function Tomb(p: int): (r: Item)
      requires ChunkOf(p) in v.tree
      reads this
      ensures r.Item? && r.kind == Freed && r.ptr == p
    {
      Item(Freed, p, v.tree[ChunkOf(p)].id % VERSIONS)
    }

    /** Whether the FREE record of a freed item is found or not, the log replays. */
    static lemma FreeSafe(pm: Pm, s: Store, s1: Store, s2: Store, alt: nat, c: int, i: nat, tomb: Item, tombs: seq<Item>, logOf: map<Key, int>, key: Key,
        h0: seq<Pm>, h: seq<Pm>)
      requires key in logOf && Synced(s, tombs) && s1.chain == s.chain && forall d, j :: d in s.chain && 0 <= j < ITEMS ==> At(s1, d, j) == At(s, d, j)
      requires tomb.Item? && tomb.ptr == logOf[key] && IndexOf(tomb.ptr) >= 0
      requires OldStands(pm, s1, alt) && Formed(s1) && Synced(s1, [tomb] + tombs) && Named(s1, logOf - {key}) && View(s1, logOf - {key}) == View(s, logOf) - {key}
      requires Differs(s1, s2, c, i, tomb, true) && At(s1, c, i) == Empty
      requires OldStands(Written(pm, c, i, tomb), s2, alt) && Formed(s2) && Synced(s2, tombs) && Named(s2, logOf - {key})
      requires View(s2, logOf - {key}) == View(s1, logOf - {key}) && SafeFrom(h0, h, LiveItems(s, logOf), PendingItems(s, tombs))
      requires key in View(s, logOf) && View(s, logOf)[key] == At(s1, ChunkOf(tomb.ptr), IndexOf(tomb.ptr))
      ensures SafeFrom(h0, h + [PutSlot(pm, c, i, tomb), Written(pm, c, i, tomb)], LiveItems(s2, logOf - {key}), PendingItems(s, tombs) + {View(s, logOf)[key]})
    {
      hide OldStands, Formed, Synced, Named, View, At, Bit, AllSafe, PutSlot, Written, PendingItems, SafeFrom, SlotPtr, ChunkOf, IndexOf;
      var l, freed := logOf - {key}, View(s, logOf)[key];
      LiveLess(s, s1, logOf, l, key);
      PendingKept(s, s1, tombs);
      PendingFirst(s1, tomb, tombs);
      PendingKept(s1, s2, [tomb] + tombs);
      PendingWithin(s2, tombs, [tomb] + tombs);
      WriteSafe(pm, s1, s2, alt, c, i, tomb, [tomb] + tombs, tombs, l, l, LiveItems(s1, l), PendingItems(s, tombs) + {freed});
      JoinPoints(h0, h, [PutSlot(pm, c, i, tomb), Written(pm, c, i, tomb)], LiveItems(s, logOf), PendingItems(s, tombs), LiveItems(s1, l), PendingItems(s, tombs) + {freed});
    }

    /** Whether the FREE record of a tombstone is found or not, the log replays. */
    static lemma FlushSafe(pm: Pm, s: Store, s2: Store, alt: nat, c: int, i: nat, tombs: seq<Item>, k: nat, logOf: map<Key, int>, h0: seq<Pm>, h: seq<Pm>)
      requires k < |tombs| && OldStands(pm, s, alt) && Formed(s) && Synced(s, tombs) && Named(s, logOf)
      requires Differs(s, s2, c, i, tombs[k], true) && At(s, c, i) == Empty
      requires OldStands(Written(pm, c, i, tombs[k]), s2, alt) && Formed(s2) && Synced(s2, tombs[..k] + tombs[k + 1..]) && Named(s2, logOf)
      requires View(s2, logOf) == View(s, logOf) && SafeFrom(h0, h, LiveItems(s, logOf), PendingItems(s, tombs))
      ensures SafeFrom(h0, h + [PutSlot(pm, c, i, tombs[k]), Written(pm, c, i, tombs[k])], LiveItems(s2, logOf), PendingItems(s, tombs))
      ensures PendingItems(s2, tombs[..k] + tombs[k + 1..]) <= PendingItems(s, tombs)
    {
      hide OldStands, Formed, Synced, Named, View, At, Bit, AllSafe, PutSlot, Written, PendingItems, SafeFrom, SlotPtr;
      PendingKept(s, s2, tombs);
      PendingWithin(s2, tombs[..k] + tombs[k + 1..], tombs);
      WriteSafe(pm, s, s2, alt, c, i, tombs[k], tombs, tombs[..k] + tombs[k + 1..], logOf, logOf, LiveItems(s, logOf), PendingItems(s, tombs));
      JoinPoints(h0, h, [PutSlot(pm, c, i, tombs[k]), Written(pm, c, i, tombs[k])], LiveItems(s, logOf), PendingItems(s, tombs), LiveItems(s, logOf), PendingItems(s, tombs));
    }

    /** add_log for a freed extent or file: its item's bit is cleared and a FREE item is appended. */
    method AppendFree(key: Key) returns (r: int)
      requires Valid() && key in logOf
      modifies this
      ensures r != 0 ==> Valid() && Live() == old(Live()) - {key} && logOf == old(logOf) - {key} && tombs == old(tombs)
      ensures r != 0 ==> v.tail in v.tree && v.tail !in Empties(v.tree)
      ensures r != 0 ==> SafeFrom(old(history), history, LiveItems(Current(), logOf), old(PendingItems(Current(), tombs)) + {old(Live())[key]})
      ensures (r == 0 <==> old(Stuck())) && (r != 0 ==> OneMore(old(Count()), old(Obtainable()), Count(), Obtainable()))
    {
      hide Formed, Synced, Named, View, At, Bit, ChunkOf, IndexOf, SlotPtr, IsChunk, Logged, SpareOf, InFile, OldStands, SafeFrom, PutSlot, Written;
      var ok := Ready();
      if !ok {
        return 0;
      }
      ghost var s, pm0, h0, h1 := Current(), pm, old(history), history;
      LiveStands(key);
      var p := logOf[key];
      var tomb := Tomb(p);
      Unset(p);
      ghost var s1 := Current();
      ClearSynced(s, s1, ChunkOf(p), IndexOf(p), tombs, tomb);
      ClearNamed(s, s1, ChunkOf(p), IndexOf(p), logOf, key);
      ghost var c, i;
      r, c, i := Write(tomb);
      FillFreed(s1, Current(), c, i, [tomb] + tombs);
      assert ([tomb] + tombs)[1..] == tombs;
      FreedNamed(s1, Current(), c, i, tomb, logOf - {key});
      FreeSafe(pm0, s, s1, Current(), alt, c, i, tomb, tombs, logOf, key, h0, h1);
      logOf := logOf - {key};
      SlotNotNull(r, c, i);
    }

    lemma SlotNotNull(r: int, c: int, i: nat)
      requires c in chain && IsChunk(c) && r == SlotPtr(c, i)
      ensures r != 0
    {
    }

    /** add_tomb: a free from another node clears the bit at once and leaves the FREE record for later. */
    method AddTomb(key: Key) returns (tomb: Item)
      requires Valid() && key in logOf
      modifies this
      ensures Valid() && Live() == old(Live()) - {key} && logOf == old(logOf) - {key}
      ensures tombs == old(tombs) + [tomb] && tomb.Item? && tomb.kind == Freed && tomb.ptr == old(logOf)[key]
    {
      hide Formed, Synced, Named, View, At, Bit, ChunkOf, IndexOf, SlotPtr, IsChunk;
      ghost var s := Current();
      LiveStands(key);
      var p := logOf[key];
      tomb := Tomb(p);
      Unset(p);
      ClearSynced(s, Current(), ChunkOf(p), IndexOf(p), tombs, tomb);
      ClearNamed(s, Current(), ChunkOf(p), IndexOf(p), logOf, key);
      tombs := tombs + [tomb];
      logOf := logOf - {key};
    }

    lemma TombIsFree(k: nat)
      requires Valid() && k < |tombs|
      ensures tombs[k].Item? && tombs[k].kind == Freed
    {
      assert Points(Current(), tombs[k]);
    }

    /** flush_tomb: a waiting tombstone becomes a FREE item of the log. */
    method FlushTomb(k: nat) returns (ok: bool)
      requires Valid() && k < |tombs|
      modifies this
      ensures ok ==> Valid() && Live() == old(Live()) && logOf == old(logOf) && tombs == old(tombs[..k] + tombs[k + 1..])
      ensures ok ==> LiveItems(Current(), logOf) == old(LiveItems(Current(), logOf))
      ensures ok ==> v.tail in v.tree && v.tail !in Empties(v.tree)
      ensures ok ==> SafeFrom(old(history), history, LiveItems(Current(), logOf), old(PendingItems(Current(), tombs)))
      ensures ok ==> PendingItems(Current(), tombs) <= old(PendingItems(Current(), tombs))
      ensures (ok <==> !old(Stuck())) && (ok ==> OneMore(old(Count()), old(Obtainable()), Count(), Obtainable()))
    {
      hide Formed, Synced, Named, View, At, Bit, Logged, SpareOf, InFile, OldStands, SafeFrom, PutSlot, Written;
      ok := Ready();
      if !ok {
        return;
      }
      var rest := tombs[..k] + tombs[k + 1..];
      ghost var s, c, i, moved := Current(), 0, 0, [tombs[k]] + tombs[..k] + tombs[k + 1..];
      ghost var pm0, h0, h1 := pm, old(history), history;
      SyncedFirst(s, tombs, k);
      TombIsFree(k);
      assert moved[1..] == rest;
      var r;
      r, c, i := Write(tombs[k]);
      FillFreed(s, Current(), c, i, moved);
      FreedNamed(s, Current(), c, i, tombs[k], logOf);
      FlushSafe(pm0, s, Current(), alt, c, i, tombs, k, logOf, h0, h1);
      tombs := rest;
    }

    /** numa_log_extent_flusher: every waiting tombstone becomes a FREE item, in whatever order the blocks they wait in are taken. */
    method FlushTombs() returns (ok: bool)
      requires Valid()
      modifies this
      ensures ok ==> Valid() && Live() == old(Live()) && logOf == old(logOf) && tombs == []
      ensures ok ==> SafeFrom(old(history), history, LiveItems(Current(), logOf), old(PendingItems(Current(), tombs)))
      ensures ok <==> old(Obtainable()) >= Extra(old(Count()), |old(tombs)|)
    {
      hide Standing, Spare, WholeBut, View, SafeFrom, PendingItems, LiveItems;
      ok := true;
      NoPoints(history, LiveItems(Current(), logOf), PendingItems(Current(), tombs));
      while tombs != []
        invariant Valid() && Live() == old(Live()) && logOf == old(logOf)
        invariant LiveItems(Current(), logOf) == old(LiveItems(Current(), logOf)) && PendingItems(Current(), tombs) <= old(PendingItems(Current(), tombs))
        invariant SafeFrom(old(history), history, LiveItems(Current(), logOf), old(PendingItems(Current(), tombs)))
        invariant Obtainable() >= Extra(Count(), |tombs|) <==> old(Obtainable()) >= Extra(old(Count()), |old(tombs)|)
        decreases |tombs|
      {
        var k :| 0 <= k < |tombs|;
        ghost var h, pending := history, PendingItems(Current(), tombs);
        ok := FlushTomb(k);
        if !ok {
          return;
        }
        ChainPoints(old(history), h, history, LiveItems(Current(), logOf), pending, old(PendingItems(Current(), tombs)));
      }
    }

    // ---------------------------------------------------------------- copying collection

    /** A second log `w` stands in the file beside the current one. */
    ghost predicate Beside(w: Vlog, ch: seq<int>)
      reads `chain, `v, `freeList, `used
    {
      && InFile(w.root) && w.root !in chain && w.root != v.root && w.root !in freeList
      && (forall c :: c in ch ==> InFile(c) && c !in chain && c != v.root && c !in freeList)
      && forall c :: InFile(c) ==> c in freeList || c in chain || c == v.root || c in ch || c == w.root
    }

    /** The copy so far, in chunks that the old log does not use. */
    ghost predicate Copying(w: Vlog, ch: seq<int>, log2: map<Key, int>)
      reads `mem, `chain, `v, `freeList, `used
    {
      Copied(Store(mem, w, ch), log2) && Beside(w, ch)
    }

    /** The old log `s0` stands beside it at every point. */
    ghost predicate CopySafe(s0: Store, w: Vlog, ch: seq<int>)
      reads `mem, `pm, `history, `alt, `chain, `v, `roots, `images, `acts
    {
      Logged() && |images| > 0 && images[0].mem == s0.mem && Holds(s0, mem) && s0.chain == chain && s0.v == v && Guarded(s0, Store(mem, w, ch), pm, history, alt)
    }

    /** The copy stands beside with a chunk that has just been taken for it. */
    lemma BesideTaken(w: Vlog, ch: seq<int>, free0: seq<int>, used0: nat, out: set<int>, c: int)
      requires Spare() && InFile(c) && c !in freeList && c !in chain && c != v.root && used0 <= used
      requires (forall d :: d in freeList ==> d in free0) && (c in free0 || c >= base + used0)
      requires forall d :: d in ch || d == w.root ==> IsChunk(d) && base + CHUNK_BYTES <= d < base + used0 && d !in chain && d != v.root && d !in free0
      requires WholeBut(out + {c}) && forall d :: d in out <==> d in ch || d == w.root
      ensures Beside(w, ch + [c]) && c !in ch && c != w.root && IsChunk(c)
    {
    }

    lemma BesideParts(w: Vlog, ch: seq<int>)
      requires Beside(w, ch)
      ensures forall d :: d in ch || d == w.root ==> IsChunk(d) && base + CHUNK_BYTES <= d < base + used && d !in chain && d != v.root && d !in freeList
      ensures WholeBut((set d | d in ch) + {w.root})
    {
    }

    lemma BesideFilled(w: Vlog, ch: seq<int>, w': Vlog)
      requires Beside(w, ch) && w'.root == w.root
      ensures Beside(w', ch)
    {
    }

    /** The copy has `n` items and no chunk but its tail with room; it and the chunks that can still be had make `room`. */
    ghost predicate Packed(w: Vlog, ch: seq<int>, n: nat, room: nat)
      reads `freeList, `used
    {
      && |ch| >= 1 && w.tail in w.tree && w.tree[w.tail].count <= CLOSES
      && n == CLOSES * (|ch| - 1) + w.tree[w.tail].count && Obtainable() + |ch| == room
    }

    /** Nor does it have a chunk more than its items need. */
    ghost predicate Compact(w: Vlog, ch: seq<int>, n: nat, room: nat)
      reads `freeList, `used
    {
      Packed(w, ch, n, room) && (|ch| > 1 ==> n > CLOSES * (|ch| - 1))
    }

    /** The stores with which add_log_for_GC opens a new tail: the full chunk is persisted whole. */
    method OpenCopyTail(t: int, c: int, fresh0: Chunk)
      requires Logged() && t in mem && t != c
      modifies `mem, `pm, `history, `images, `acts
      ensures mem == old(mem)[c := fresh0][t := old(mem)[t].(next := c)]
      ensures var ps := CopyOpens(old(pm), t, old(mem)[t], c, fresh0); Logged() && pm == ps[3] && history == old(history) + ps
      ensures acts == old(acts) + [Wiped(c, fresh0), SavedChunk(c), Linked(t, c), SavedChunk(t)]
      ensures old(images) <= images
    {
      hide Traced, FlushChunk, Wipe, PutNext;
      WipeChunk(c, fresh0);
      Link(t, c);
      Note(SavedChunk(t));
    }

    /** The head of add_log_for_GC: a new tail for the copy when its chunk is full. */
    method ReadyCopy(w: Vlog, ghost ch: seq<int>, ghost log2: map<Key, int>, ghost s0: Store, ghost room: nat) returns (ok: bool, w': Vlog, ghost ch': seq<int>)
      requires Packed(w, ch, |log2|, room)
      requires Spare() && Copying(w, ch, log2) && CopySafe(s0, w, ch)
      modifies `mem, `freeList, `used, `pm, `history, `images, `acts
      ensures Spare() && if ok then Packed(w', ch', |log2|, room) else |log2| == CLOSES * room
      ensures ok ==> Copying(w', ch', log2) && CopySafe(s0, w', ch') && w'.root == w.root
      ensures ok ==> w'.tail in w'.tree && w'.tree[w'.tail].count < CLOSES
      ensures ok ==> View(Store(mem, w', ch'), log2) == View(Store(old(mem), w, ch), log2)
    {
      hide Copied, Guarded, Holds, Spare, Beside, View, CopyOpens, Zeros, NoBits, IsChunk, InFile, Traced, AllOld, Logged;
      CopyTail(Store(mem, w, ch), log2);
      BesideParts(w, ch);
      ok, w', ch' := true, w, ch;
      var index := LogIndex(w.tree[w.tail].count);
      if index >= ITEMS {
        ghost var s, free0, used0 := Store(mem, w, ch), freeList, used;
        ghost var out := (set d | d in ch) + {w.root};
        var c := TakeChunk(out);
        if c == 0 {
          return false, w, ch;
        }
        BesideTaken(w, ch, free0, used0, out, c);
        CopyOpened(s0, s, log2, pm, history, alt, c);
        ghost var ps := CopyOpens(pm, w.tail, mem[w.tail], c, Chunk(0, w.nextId, Zeros()));
        HoldsPut(s0, mem, c, Chunk(0, w.nextId, Zeros()));
        HoldsPut(s0, mem[c := Chunk(0, w.nextId, Zeros())], w.tail, mem[w.tail].(next := c));
        OpenCopyTail(w.tail, c, Chunk(0, w.nextId, Zeros()));
        w' := w.(tree := w.tree[c := VChunk(0, NoBits(), w.nextId, w.tail)], tail := c, nextId := w.nextId + 1);
        ch' := ch + [c];
        assert Store(mem, w', ch') == Extend(s, c);
        BesideFilled(w, ch + [c], w');
      }
    }

    /** add_log_for_GC: the item is copied to the new log. */
    method Copy(w: Vlog, item: Item, ghost ch: seq<int>, ghost log2: map<Key, int>, ghost s0: Store, ghost room: nat)
        returns (ok: bool, w': Vlog, r: int, ghost ch': seq<int>)
      requires Compact(w, ch, |log2|, room)
      requires Spare() && Copying(w, ch, log2) && CopySafe(s0, w, ch) && Lasting(item) && KeyOf(item) !in log2
      modifies `mem, `freeList, `used, `pm, `history, `images, `acts
      ensures Spare() && if ok then Compact(w', ch', |log2| + 1, room) else |log2| == CLOSES * room
      ensures ok ==> Copying(w', ch', log2[KeyOf(item) := r]) && CopySafe(s0, w', ch') && w'.root == w.root
      ensures ok ==> View(Store(mem, w', ch'), log2[KeyOf(item) := r]) == View(Store(old(mem), w, ch), log2)[KeyOf(item) := item]
    {
      hide Copied, Guarded, Holds, Spare, Beside, View, PutSlot, SlotPtr, Fill, LogIndex, Lasting, KeyOf;
      ok, w', ch' := ReadyCopy(w, ch, log2, s0, room);
      r := 0;
      if !ok {
        return;
      }
      ghost var s := Store(mem, w', ch');
      CopyTail(s, log2);
      BesideParts(w', ch');
      CopyFilled(s0, s, log2, pm, history, alt, item);
      FillIs(s, item);
      BesideFilled(w', ch', Fill(s, item).v);
      var index := LogIndex(w'.tree[w'.tail].count);
      var chunk, vchunk := mem[w'.tail], w'.tree[w'.tail];
      HoldsPut(s0, mem, w'.tail, chunk.(items := chunk.items[index := item]));
      PutItem(w'.tail, index, item);
      r := SlotPtr(w'.tail, index);
      w' := w'.(tree := w'.tree[w'.tail := vchunk.(count := vchunk.count + 1, bits := vchunk.bits[index := true])]);
      assert Store(mem, w', ch') == Fill(s, item);
    }

    /** The copy stands beside the old log, and the scan has come to bit `i` of chunk `n`. */
    ghost predicate CopiedTo(s0: Store, logOf0: map<Key, int>, w: Vlog, ch: seq<int>, log2: map<Key, int>, n: nat, i: nat)
      reads this
    {
      && Copying(w, ch, log2) && CopySafe(s0, w, ch)
      && Scanned(s0.chain, logOf0, View(s0, logOf0), log2, View(Store(mem, w, ch), log2), logOf, n, i)
    }

    /** The owner of `item` has it. */
    static ghost predicate Shown(s0: Store, logOf0: map<Key, int>, item: Item)
      requires item.Item?
    {
      KeyOf(item) in logOf0 && KeyOf(item) in View(s0, logOf0) && View(s0, logOf0)[KeyOf(item)] == item
    }

    /** A bit that is set over a live item leads to the owner of that item, and no other bit leads to any. */
    lemma SlotStands(s0: Store, logOf0: map<Key, int>, tombs0: seq<Item>, c: int, i: nat)
      requires Formed(s0) && Synced(s0, tombs0) && Named(s0, logOf0) && c in s0.chain && i < ITEMS
      ensures c in s0.v.tree && c in s0.mem && |s0.v.tree[c].bits| == ITEMS && |s0.mem[c].items| == ITEMS
      ensures s0.v.tree[c].bits[i] && Lasting(s0.mem[c].items[i]) ==> Shown(s0, logOf0, s0.mem[c].items[i])
      ensures forall k :: k in logOf0 ==> (ChunkOf(logOf0[k]) == c && IndexOf(logOf0[k]) == i <==>
        s0.v.tree[c].bits[i] && Lasting(s0.mem[c].items[i]) && k == KeyOf(s0.mem[c].items[i]))
    {
      assert Fits(s0.mem[c], s0.v.tree[c]);
      assert Bit(s0, c, i) == s0.v.tree[c].bits[i] && At(s0, c, i) == s0.mem[c].items[i];
      SlotRoundTrip(c, i);
    }

    lemma ChainReads(s0: Store)
      requires Formed(s0)
      ensures s0.v.root in s0.mem && |s0.chain| >= 1 && s0.mem[s0.v.root].next == s0.chain[0] && s0.v.root !in s0.chain && 0 !in s0.chain
      ensures forall n :: 0 <= n < |s0.chain| ==>
        s0.chain[n] in s0.mem && s0.mem[s0.chain[n]].next == if n + 1 < |s0.chain| then s0.chain[n + 1] else 0
      ensures Distinct(s0.chain) && Holds(s0, s0.mem) && forall c :: c in s0.chain <==> c in s0.v.tree
    {
    }

    lemma ScannedIn(s0: Store, w: Vlog, ch: seq<int>, logOf0: map<Key, int>, log2: map<Key, int>, n: nat, i: nat)
      requires CopiedTo(s0, logOf0, w, ch, log2, n, i)
      ensures forall k :: k in log2 ==> k in logOf0
    {
      hide Copying, CopySafe, View;
    }

    /** One bit of slow_GC's scan. */
    method CopyBit(w: Vlog, c: int, i: nat, ghost n: nat, ghost ch: seq<int>, ghost log2: map<Key, int>,
            ghost s0: Store, ghost logOf0: map<Key, int>, ghost tombs0: seq<Item>, ghost room: nat)
        returns (ok: bool, w': Vlog, ghost ch': seq<int>, ghost log2': map<Key, int>)
      requires Compact(w, ch, |log2|, room)
      requires Spare() && CopiedTo(s0, logOf0, w, ch, log2, n, i)
      requires Formed(s0) && Synced(s0, tombs0) && Named(s0, logOf0) && n < |chain| && chain[n] == c && i < ITEMS
      modifies `mem, `freeList, `used, `logOf, `pm, `history, `images, `acts
      ensures Spare() && if ok then Compact(w', ch', |log2'|, room) else |logOf0| > CLOSES * room
      ensures ok ==> CopiedTo(s0, logOf0, w', ch', log2', n, i + 1) && w'.root == w.root
    {
      hide Formed, Synced, Named, View, Copying, CopySafe, ChunkOf, IndexOf, SlotPtr, KeyOf, Scanned, Spare, Distinct;
      ok, w', ch', log2' := true, w, ch, log2;
      SafeReads(s0, w, ch);
      ChainReads(s0);
      SlotStands(s0, logOf0, tombs0, c, i);
      if v.tree[c].bits[i] && Lasting(mem[c].items[i]) {
        var item, r := mem[c].items[i], 0;
        var key := KeyOf(item);
        ScanTakes(chain, logOf0, View(s0, logOf0), log2, View(Store(mem, w, ch), log2), logOf, n, i, key, 0);
        ghost var view := View(Store(mem, w, ch), log2);
        ScannedIn(s0, w, ch, logOf0, log2, n, i);
        FewerOwners(log2, logOf0, key);
        ok, w', r, ch' := Copy(w, item, ch, log2, s0, room);
        if !ok {
          return;
        }
        ScanTakes(chain, logOf0, View(s0, logOf0), log2, view, logOf, n, i, key, r);
        log2' := log2[key := r];
        logOf := logOf[key := r];
      } else {
        ScanSkips(chain, logOf0, View(s0, logOf0), log2, View(Store(mem, w, ch), log2), logOf, n, i);
      }
    }

    static lemma FewerOwners(log2: map<Key, int>, logOf0: map<Key, int>, key: Key)
      ensures (forall k :: k in log2 ==> k in logOf0) && key in logOf0 && key !in log2 ==> |log2| < |logOf0|
    {
      if (forall k :: k in log2 ==> k in logOf0) && key in logOf0 && key !in log2 {
        var rest := logOf0.Keys - log2.Keys;
        assert key in rest && logOf0.Keys == log2.Keys + rest;
      }
    }

    /** slow_GC's scan of one chunk. */
    method CopyChunk(w: Vlog, c: int, ghost n: nat, ghost ch: seq<int>, ghost log2: map<Key, int>,
            ghost s0: Store, ghost logOf0: map<Key, int>, ghost tombs0: seq<Item>, ghost room: nat)
        returns (ok: bool, w': Vlog, ghost ch': seq<int>, ghost log2': map<Key, int>)
      requires Compact(w, ch, |log2|, room)
      requires Spare() && CopiedTo(s0, logOf0, w, ch, log2, n, 0)
      requires Formed(s0) && Synced(s0, tombs0) && Named(s0, logOf0) && n < |chain| && chain[n] == c
      modifies `mem, `freeList, `used, `logOf, `pm, `history, `images, `acts
      ensures Spare() && if ok then Compact(w', ch', |log2'|, room) else |logOf0| > CLOSES * room
      ensures ok ==> CopiedTo(s0, logOf0, w', ch', log2', n + 1, 0) && w'.root == w.root
    {
      hide Formed, Synced, Named, CopiedTo, Spare;
      ok, w', ch', log2' := true, w, ch, log2;
      for i := 0 to ITEMS
        invariant ok && Spare() && CopiedTo(s0, logOf0, w', ch', log2', n, i) && w'.root == w.root && Compact(w', ch', |log2'|, room)
      {
        ok, w', ch', log2' := CopyBit(w', c, i, n, ch', log2', s0, logOf0, tombs0, room);
        if !ok {
          return;
        }
      }
      CopiedParts(s0, logOf0, w', ch', log2', n, ITEMS);
      SafeReads(s0, w', ch');
      ChunkDone(s0, logOf0, w', ch', log2', n);
    }

    lemma ChunkDone(s0: Store, logOf0: map<Key, int>, w: Vlog, ch: seq<int>, log2: map<Key, int>, n: nat)
      requires CopiedTo(s0, logOf0, w, ch, log2, n, ITEMS) && Named(s0, logOf0) && n < |s0.chain|
      ensures CopiedTo(s0, logOf0, w, ch, log2, n + 1, 0)
    {
      hide Copying, CopySafe, View, Scanned, Named, ChunkOf, IndexOf;
      OwnersStand(s0, logOf0);
      ScanChunk(s0.chain, logOf0, View(s0, logOf0), log2, View(Store(mem, w, ch), log2), logOf, n);
    }

    /** Every owner's item lies in the chain. */
    lemma OwnersStand(s0: Store, logOf0: map<Key, int>)
      requires Named(s0, logOf0)
      ensures forall k :: k in logOf0 ==> 0 <= IndexOf(logOf0[k]) < ITEMS && ChunkOf(logOf0[k]) in s0.chain
    {
    }

    /** The stores with which log_create_for_GC makes a second log. */
    method OpenCopy(root: int, first: int)
      requires Logged() && root != first && |roots| == 2 && alt < 2
      modifies `mem, `roots, `pm, `history, `images, `acts
      ensures mem == old(mem)[root := Chunk(first, 0, Zeros())][first := Chunk(0, 1, Zeros())] && roots == old(roots)[1 - alt := root]
      ensures var ps := CopyStarts(old(pm), root, first, 1 - alt); Logged() && pm == ps[7] && history == old(history) + ps
      ensures old(images) <= images
    {
      hide Logged, FlushChunk, Wipe, PutNext, FlushNext, PutRoot, FlushRoot, Zeros;
      WipeChunk(root, Chunk(0, 0, Zeros()));
      WipeChunk(first, Chunk(0, 1, Zeros()));
      Link(root, first);
      NameCopy(root);
    }

    /** The link of the root chunk is persisted, and the unused root slot names it. */
    method NameCopy(root: int)
      requires Logged() && root in mem && |roots| == 2 && alt < 2
      modifies `roots, `pm, `history, `images, `acts
      ensures roots == old(roots)[1 - alt := root] && old(images) <= images
      ensures var p1 := FlushNext(old(pm), root, mem[root].next); var p2 := PutRoot(p1, 1 - alt, root);
        Logged() && pm == FlushRoot(p2, 1 - alt, root) && history == old(history) + [p1, p2, pm]
    {
      hide Traced, FlushNext, PutRoot, FlushRoot;
      Note(SavedLink(root));
      roots := roots[1 - alt := root];
      Note(Rooted(1 - alt, root));
      Note(SavedRoot(1 - alt));
    }

    lemma FileChunk(c: int)
      requires Spare() && InFile(c)
      ensures IsChunk(c) && c != 0
    {
    }

    lemma BesideStarted(w: Vlog, root: int, first: int)
      requires WholeBut({root} + {first}) && InFile(root) && InFile(first) && w.root == root
      requires root !in freeList && root !in chain && root != v.root && first !in freeList && first !in chain && first != v.root
      ensures Beside(w, [first])
    {
    }

    /** log_create_for_GC. */
    method CreateCopy(ghost s0: Store) returns (ok: bool, w: Vlog)
      requires Spare() && WholeBut({}) && s0 == Current() && Formed(s0) && |roots| == 2 && alt < 2
      requires OldStands(pm, s0, alt) && AllOld(history, s0, alt) && Logged() && |images| > 0 && images[0].mem == s0.mem
      modifies `mem, `freeList, `used, `roots, `pm, `history, `images, `acts
      ensures Spare() && (ok <==> old(Obtainable()) >= 2) && (ok ==> Compact(w, [w.tail], 0, old(Obtainable()) - 1))
      ensures ok ==> Copying(w, [w.tail], map[]) && CopySafe(s0, w, [w.tail]) && roots == old(roots)[1 - alt := w.root]
    {
      hide Formed, Copied, Guarded, Holds, Spare, Zeros, NoBits, OldStands, AllOld, CopyStarts, Beside, InFile, WholeBut, IsChunk, Logged;
      ChainReads(s0);
      ok := false;
      w := v;
      var root := TakeChunk({});
      if root == 0 {
        return;
      }
      var first := TakeChunk({root});
      if first == 0 {
        return;
      }
      assert root !in freeList && root != first;
      FileChunk(root);
      FileChunk(first);
      CopyStarted(s0, mem, pm, history, alt, root, first);
      HoldsPut(s0, mem, root, Chunk(first, 0, Zeros()));
      HoldsPut(s0, mem[root := Chunk(first, 0, Zeros())], first, Chunk(0, 1, Zeros()));
      OpenCopy(root, first);
      ok, w := true, Vlog(map[first := VChunk(0, NoBits(), 1, root)], root, first, 2);
      assert Store(mem, w, [first]) == Created(old(mem), root, first, 0);
      BesideStarted(w, root, first);
    }

    /** What slow_GC reads of the old log while the copy grows. */
    lemma SafeReads(s0: Store, w: Vlog, ch: seq<int>)
      requires CopySafe(s0, w, ch)
      ensures s0.chain == chain && s0.v == v && v.root in mem && v.root in s0.mem && mem[v.root] == s0.mem[v.root]
      ensures forall c :: c in chain ==> c in mem && c in s0.mem && mem[c] == s0.mem[c]
    {
      hide Guarded;
    }

    lemma FirstReads(s0: Store)
      requires Formed(s0)
      ensures s0.v.root in s0.mem && |s0.chain| >= 1 && s0.mem[s0.v.root].next == s0.chain[0] && 0 !in s0.chain
    {
    }

    lemma NextReads(s0: Store, n: nat)
      requires Formed(s0) && n < |s0.chain|
      ensures s0.chain[n] in s0.mem && s0.mem[s0.chain[n]].next == if n + 1 < |s0.chain| then s0.chain[n + 1] else 0
    {
    }

    /** slow_GC's scan of the chain. */
    method CopyChain(w0: Vlog, ghost s0: Store, ghost tombs0: seq<Item>, ghost room: nat) returns (ok: bool, w: Vlog, ghost ch: seq<int>)
      requires Compact(w0, [w0.tail], 0, room)
      requires Spare() && Copying(w0, [w0.tail], map[]) && CopySafe(s0, w0, [w0.tail])
      requires Formed(s0) && Synced(s0, tombs0) && Named(s0, logOf)
      modifies `mem, `freeList, `used, `logOf, `pm, `history, `images, `acts
      ensures Spare() && if ok then Compact(w, ch, |logOf|, room) else |old(logOf)| > CLOSES * room
      ensures ok ==> CopySafe(s0, w, ch) && Copying(w, ch, logOf) && w.root == w0.root && logOf.Keys == old(logOf.Keys)
      ensures ok ==> View(Store(mem, w, ch), logOf) == View(s0, old(logOf))
    {
      hide Formed, Synced, Named, View, Copying, CopySafe, CopiedTo, Scanned, Spare;
      ghost var log0, log2, n := logOf, map[], 0;
      FirstReads(s0);
      ok, w, ch := true, w0, [w0.tail];
      SafeReads(s0, w, ch);
      OwnersStand(s0, log0);
      ScanStarts(chain, log0, View(s0, log0), View(Store(mem, w, ch), map[]));
      CopyBegun(s0, log0, w, ch);
      var cursor := mem[v.root].next;
      while cursor != 0
        invariant Spare() && s0.chain == chain && n <= |chain| && w.root == w0.root
        invariant cursor == if n < |chain| then chain[n] else 0
        invariant CopiedTo(s0, log0, w, ch, log2, n, 0) && Compact(w, ch, |log2|, room)
        decreases |chain| - n
      {
        ok, w, ch, log2 := CopyChunk(w, cursor, n, ch, log2, s0, log0, tombs0, room);
        if !ok {
          return;
        }
        CopiedParts(s0, log0, w, ch, log2, n + 1, 0);
        SafeReads(s0, w, ch);
        NextReads(s0, n);
        cursor := mem[cursor].next;
        n := n + 1;
      }
      CopiedParts(s0, log0, w, ch, log2, n, 0);
      OwnersStand(s0, log0);
      ViewKeys(s0, log0);
      ViewKeys(Store(mem, w, ch), log2);
      ScanEnds(s0.chain, log0, View(s0, log0), log2, View(Store(mem, w, ch), log2), logOf);
    }

    lemma CopiedParts(s0: Store, logOf0: map<Key, int>, w: Vlog, ch: seq<int>, log2: map<Key, int>, n: nat, i: nat)
      requires CopiedTo(s0, logOf0, w, ch, log2, n, i)
      ensures Copying(w, ch, log2) && CopySafe(s0, w, ch)
      ensures Scanned(s0.chain, logOf0, View(s0, logOf0), log2, View(Store(mem, w, ch), log2), logOf, n, i)
    {
      hide Copying, CopySafe, View, Scanned;
    }

    lemma CopyBegun(s0: Store, logOf0: map<Key, int>, w: Vlog, ch: seq<int>)
      requires Copying(w, ch, map[]) && CopySafe(s0, w, ch) && Scanned(s0.chain, logOf0, View(s0, logOf0), map[], View(Store(mem, w, ch), map[]), logOf, 0, 0)
      ensures CopiedTo(s0, logOf0, w, ch, map[], 0, 0)
    {
      hide Copying, CopySafe, View, Scanned;
    }

    lemma CopyingParts(s0: Store, w: Vlog, ch: seq<int>, log2: map<Key, int>)
      requires Copying(w, ch, log2) && CopySafe(s0, w, ch)
      ensures Copied(Store(mem, w, ch), log2) && Beside(w, ch) && s0.chain == chain && s0.v == v && Guarded(s0, Store(mem, w, ch), pm, history, alt)
      ensures w.tail in mem && w.tail !in s0.chain && w.tail != s0.v.root && Logged() && |images| > 0 && images[0].mem == s0.mem
    {
      hide Copied, InFile, Holds, Guarded;
      CopyTail(Store(mem, w, ch), log2);
    }

    static lemma OldChunks(s0: Store)
      requires Formed(s0)
      ensures s0.v.root !in s0.chain && forall c :: c in s0.chain <==> c in s0.v.tree
    {
    }

    /** What is free once the old log has been given up. */
    lemma GoneSpare(w: Vlog, ch: seq<int>, gone: seq<int>)
      requires Spare() && Beside(w, ch) && Distinct(gone) && Gone(gone, chain, v.root)
      ensures SpareOf(ch, w.root, freeList + gone)
      ensures forall c :: InFile(c) ==> c in freeList + gone || c in ch || c == w.root
      ensures forall c :: c in chain || c == v.root ==> c in freeList + gone && c !in ch && c != w.root
    {
      hide InFile, Falling, Distinct;
      forall c | c in gone ensures c in chain || c == v.root { GoneAre(gone, chain, v.root, c); }
      DistinctJoin(freeList, gone);
      forall c | c in chain || c == v.root ensures c in gone { }
    }

    static lemma GoneAre(gone: seq<int>, ch: seq<int>, root: int, c: int)
      requires Gone(gone, ch, root) && c in gone
      ensures c in ch || c == root
    {
      if c != root {
        var n :| 0 <= n < |gone| && gone[n] == c;
        assert gone[..|gone| - 1][n] == c;
      }
    }

    /**
      One collection by slow_GC: the live items are copied to a new log, the
      tombstones and FREE items are forgotten, and the old chunks become free.
      At every point of it a crash, whatever lines reached memory, leaves a log
      that replays to the live items, and beyond them at most to items that only
      a pending tombstone had given up.
     */
    method SlowGC() returns (ok: bool)
      requires Valid()
      modifies this
      ensures ok ==> Valid() && Live() == old(Live()) && logOf.Keys == old(logOf.Keys)
      ensures ok ==> tombs == [] && Clean(Current()) && alt == 1 - old(alt)
      ensures ok ==> forall c :: c in old(chain) || c == old(v).root ==> c in freeList && c !in chain && c != v.root
      ensures ok ==> GivenBack(freeList, old(chain), old(v).root)
      ensures ok ==> |images| > 0 && images[0].mem == old(mem)
      ensures ok ==> AllSafe(history, old(Live()).Values, old(PendingItems(Current(), tombs)))
      ensures ok <==> old(Obtainable()) >= 2 && |old(logOf)| <= CLOSES * (old(Obtainable()) - 1)
      ensures ok && |chain| > 1 ==> |logOf| > CLOSES * (|chain| - 1)
    {
      hide Formed, Synced, Named, View, Clean, OldStands, AllOld, AllSafe, Copying, CopySafe, GivenBack, Compact, Logged, PendingItems, SpareOf, InFile, IsChunk;
      ChainReads(Current());
      ghost var s0, ch, logOf0, room := Current(), [], logOf, Obtainable();
      StartHistory();
      AllOldOne(pm, s0, alt);
      var w;
      ok, w := CreateCopy(s0);
      if !ok {
        return;
      }
      ok, w, ch := CopyChain(w, s0, tombs, room - 1);
      if !ok {
        return;
      }
      CompactFits(w, ch, |logOf|, room - 1);
      Flip(w, ch, s0, logOf0);
    }

    lemma CompactFits(w: Vlog, ch: seq<int>, n: nat, room: nat)
      requires Compact(w, ch, n, room)
      ensures n <= CLOSES * room && (|ch| > 1 ==> n > CLOSES * (|ch| - 1))
    {
    }

    /** The last persist of the copy, the flip of `alt` and its persist. */
    method Turn(t: int)
      requires Logged() && t in mem && alt < 2
      modifies `alt, `pm, `history, `images, `acts
      ensures alt == 1 - old(alt)
      ensures var ps := Flips(old(pm), t, mem[t], old(alt)); Logged() && pm == ps[2] && history == old(history) + ps
      ensures old(images) <= images
    {
      hide Traced, FlushChunk, PutAlt, FlushAlt;
      Note(SavedChunk(t));
      alt := 1 - alt;
      Note(Turned(alt));
      Note(SavedAlt);
    }

    /** The end of slow_GC: the last flush, the flip of `alt`, and the old log given up. */
    method Flip(w: Vlog, ghost ch: seq<int>, ghost s0: Store, ghost logOf0: map<Key, int>)
      requires Spare() && Copying(w, ch, logOf) && CopySafe(s0, w, ch)
      requires Formed(s0) && Synced(s0, tombs) && Named(s0, logOf0) && |roots| == 2 && alt < 2 && roots[1 - alt] == w.root
      requires View(Store(mem, w, ch), logOf) == View(s0, logOf0)
      modifies this
      ensures Valid() && Live() == View(s0, logOf0) && logOf == old(logOf)
      ensures tombs == [] && Clean(Current()) && alt == 1 - old(alt)
      ensures forall c :: c in s0.chain || c == s0.v.root ==> c in freeList && c !in chain && c != v.root
      ensures GivenBack(freeList, s0.chain, s0.v.root) && chain == ch
      ensures |images| > 0 && images[0].mem == s0.mem
      ensures AllSafe(history, LiveItems(s0, logOf0), PendingItems(s0, old(tombs)))
    {
      hide Formed, Synced, Named, View, Clean, Copied, Copying, CopySafe, Guarded, OldStands, AllSafe, Flips, LiveItems, PendingItems, GivenBack, Gone, Distinct, SpareOf, Beside, IsChunk, Traced;
      OldChunks(s0);
      CopyingParts(s0, w, ch, logOf);
      ghost var s := Store(mem, w, ch);
      CopyFlipped(s0, s, tombs, logOf0, logOf, pm, history, alt);
      ghost var alt0, ps := alt, Flips(pm, w.tail, mem[w.tail], alt);
      Turn(w.tail);
      var gone := Destroy(v.tree, v.root);
      GoneSpare(w, ch, gone);
      GoneBack(freeList, gone, s0.chain, s0.v.root);
      CopiedIs(s, logOf);
      tombs := [];
      freeList := freeList + gone;
      v, chain := w, ch;
      assert Current() == s;
    }

    /** The end of the free list after slow_GC: the old chunks downwards through the file, and then the old root. */
    static ghost predicate GivenBack(list: seq<int>, ch: seq<int>, root: int) {
      exists n :: 0 <= n < |list| && Gone(list[n..], ch, root)
    }

    static ghost predicate Gone(gone: seq<int>, ch: seq<int>, root: int) {
      && |gone| > 0 && gone[|gone| - 1] == root && Falling(gone[..|gone| - 1])
      && forall c :: c in gone[..|gone| - 1] <==> c in ch
    }

    static lemma GoneBack(list: seq<int>, gone: seq<int>, ch: seq<int>, root: int)
      requires Gone(gone, ch, root)
      ensures GivenBack(list + gone, ch, root)
    {
      assert (list + gone)[|list|..] == gone;
    }

    static predicate Aligned(x: int) {
      x % CHUNK_BYTES == 0
    }

    static lemma AlignedGap(x: int, y: int)
      requires Aligned(x) && Aligned(y) && x <= y
      ensures x == y || y >= x + CHUNK_BYTES
    {
    }

    static lemma AlignedDown(x: int)
      requires Aligned(x)
      ensures Aligned(x - CHUNK_BYTES)
    {
    }

    /** The file and the chunks in it begin at multiples of the chunk size. */
    lemma FileAligned()
      requires Spare()
      ensures Aligned(base) && Aligned(base + used) && forall c :: c in chain ==> Aligned(c) && base < c < base + used
    {
    }

    /** log_destroy: the descriptors in the order of the tree, which is downwards through the file, and the root last. */
    method Destroy(tree: map<int, VChunk>, root: int) returns (gone: seq<int>)
      requires Spare() && root !in chain && forall c :: c in tree <==> c in chain
      ensures Distinct(gone) && Gone(gone, chain, root)
    {
      hide Spare, Falling, Distinct, Aligned;
      FileAligned();
      gone := [];
      FallingNone();
      var at := base + used;
      while at > base
        invariant base <= at && Aligned(at) && Falling(gone)
        invariant forall c :: c in gone ==> c in tree && c >= at
        invariant forall c :: c in tree && c >= at ==> c in gone
      {
        AlignedGap(base, at);
        AlignedDown(at);
        at := at - CHUNK_BYTES;
        forall c | c in tree && at <= c ensures c == at || c >= at + CHUNK_BYTES { AlignedGap(at, c); }
        if at in tree {
          FallingPush(gone, at);
          gone := gone + [at];
        }
      }
      FallingDistinct(gone);
      DistinctPush(gone, root);
      gone := gone + [root];
      assert gone[..|gone| - 1] + [root] == gone;
    }
  }
}

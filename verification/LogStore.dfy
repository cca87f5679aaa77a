/**
  The bookkeeping log of log.c as values: chunks of items in persistent memory,
  their volatile descriptors, and what replaying the chain of chunks yields.
 */
module LogStore {
  import opened Interleave

  datatype Kind = Normal | Freed | File

  /** An item of one word; a zeroed word stands for no item. */
  datatype Item = Empty | Item(kind: Kind, ptr: int, arg: nat)

  const CHUNK_BYTES := 1024
  const VERSIONS := 16384     // the version field has 14 bits

  datatype Chunk = Chunk(next: int, id: nat, items: seq<Item>)
  datatype VChunk = VChunk(count: nat, bits: seq<bool>, id: nat, pre: int)

  type Memory = map<int, Chunk>

  /** vlog_t: the descriptors by chunk address, and the ends of the chain. */
  datatype Vlog = Vlog(tree: map<int, VChunk>, root: int, tail: int, nextId: nat)

  datatype Store = Store(mem: Memory, v: Vlog, chain: seq<int>)

  predicate IsChunk(c: int) {
    c > 0 && c % CHUNK_BYTES == 0
  }

  /** The address of an item, and ptr2lchunk and ptr2lindex, which take it apart. */
  function SlotPtr(c: int, i: nat): int {
    c + 16 + 8 * i
  }

  function ChunkOf(p: int): int {
    p / CHUNK_BYTES * CHUNK_BYTES
  }

  function IndexOf(p: int): int {
    (p - ChunkOf(p) - 16) / 8
  }

  lemma SlotRoundTrip(c: int, i: nat)
    requires IsChunk(c) && i < ITEMS
    ensures ChunkOf(SlotPtr(c, i)) == c && IndexOf(SlotPtr(c, i)) == i
  {
    ChunkStart(c, 16 + 8 * i);
    Eighth(i);
  }

  lemma ChunkStart(c: int, r: nat)
    requires IsChunk(c) && r < CHUNK_BYTES
    ensures (c + r) / CHUNK_BYTES * CHUNK_BYTES == c
  {
    DivMod(c + r, c / CHUNK_BYTES, r, CHUNK_BYTES);
  }

  lemma Eighth(i: nat)
    ensures 8 * i / 8 == i
  {
  }

  /** The inverse of count_to_index: a slot is filled once the count passes this. */
  function CountOf(i: nat): nat {
    Unmap(i, NBANKS, 8)
  }

  lemma CountIndex(k: nat)
    requires k < CLOSES
    ensures LogIndex(k) < ITEMS && CountOf(LogIndex(k)) == k
  {
    ChunkCloses(k);
    RoundTrip(k, NBANKS, 8);
  }

  lemma IndexCount(i: nat)
    ensures LogIndex(CountOf(i)) == i
  {
    RoundTripBack(i, NBANKS, 8);
  }

  // ------------------------------------------------------------------ the chain

  function Zeros(): (r: seq<Item>)
    ensures |r| == ITEMS && forall i :: 0 <= i < ITEMS ==> r[i] == Empty
  {
    seq(ITEMS, _ => Empty)
  }

  function NoBits(): (r: seq<bool>)
    ensures |r| == ITEMS && forall i :: 0 <= i < ITEMS ==> !r[i]
  {
    seq(ITEMS, _ => false)
  }

  predicate Unused(bits: seq<bool>) {
    forall i :: 0 <= i < |bits| ==> !bits[i]
  }

  /** The chunks whose bitmaps are empty. */
  function Empties(tree: map<int, VChunk>): set<int> {
    set c | c in tree && Unused(tree[c].bits)
  }

  /** Addresses downwards through the file. */
  ghost predicate Falling(s: seq<int>) {
    forall i, j :: 0 <= i < j < |s| ==> s[i] > s[j]
  }

  ghost predicate Distinct(s: seq<int>) {
    forall i, j :: 0 <= i < j < |s| ==> s[i] != s[j]
  }

  lemma FallingNone()
    ensures Falling([])
  {
  }

  lemma FallingPush(s: seq<int>, c: int)
    requires Falling(s) && forall d :: d in s ==> d > c
    ensures Falling(s + [c])
  {
    assert forall i :: 0 <= i < |s| ==> s[i] in s;
  }

  lemma FallingDistinct(s: seq<int>)
    requires Falling(s)
    ensures Distinct(s)
  {
    assert forall i, j :: 0 <= i < j < |s| ==> s[i] > s[j];
  }

  lemma DistinctPush(s: seq<int>, c: int)
    requires Distinct(s) && c !in s
    ensures Distinct(s + [c])
  {
  }

  lemma DistinctJoin(s: seq<int>, t: seq<int>)
    requires Distinct(s) && Distinct(t) && forall c :: c in s ==> c !in t
    ensures Distinct(s + t)
  {
    var u := s + t;
    forall i, j | 0 <= i < j < |u| ensures u[i] != u[j] {
      if i < |s| <= j { assert u[i] in s && u[j] in t; }
    }
  }

  /** The chunks are linked from the root to the tail, in the order of the chain. */
  ghost predicate Linked(s: Store) {
    && |s.chain| >= 1 && Distinct(s.chain) && s.v.root !in s.chain && s.v.root in s.mem && IsChunk(s.v.root)
    && (forall c :: c in s.chain ==> c in s.mem && IsChunk(c))
    && s.mem[s.v.root].next == s.chain[0]
    && (forall i :: 0 <= i < |s.chain| - 1 ==> s.mem[s.chain[i]].next == s.chain[i + 1])
    && s.v.tail == s.chain[|s.chain| - 1] && s.mem[s.v.tail].next == 0
    && (forall c :: c in s.chain <==> c in s.v.tree)
  }

  /** A chunk and its descriptor fit: slots are filled in the order of count_to_index. */
  ghost predicate Fits(c: Chunk, v: VChunk) {
    && |c.items| == ITEMS && |v.bits| == ITEMS && v.id == c.id && v.count <= CLOSES
    && (forall i :: 0 <= i < ITEMS ==> (c.items[i] != Empty <==> CountOf(i) < v.count))
  }

  ghost predicate Filled(s: Store) {
    && (forall c :: c in s.v.tree ==> c in s.mem && Fits(s.mem[c], s.v.tree[c]) && s.v.tree[c].id < s.v.nextId)
    && (forall c :: c in s.v.tree && c != s.v.tail ==> s.v.tree[c].count == CLOSES)
  }

  ghost predicate Formed(s: Store) {
    Linked(s) && Filled(s)
  }

  // ------------------------------------------------------------------ replay

  function At(s: Store, c: int, i: nat): Item {
    if c in s.mem && i < |s.mem[c].items| then s.mem[c].items[i] else Empty
  }

  function Bit(s: Store, c: int, i: nat): bool {
    c in s.v.tree && i < |s.v.tree[c].bits| && s.v.tree[c].bits[i]
  }

  /** The version a chunk carries now. */
  function Ver(s: Store, c: int): int {
    if c in s.mem then s.mem[c].id else -1
  }

  predicate Lasting(item: Item) {
    item.Item? && !item.kind.Freed?
  }

  /** A FREE item of the chain cancels the item at `p`, whose chunk has a version with the 14 low bits it names. */
  ghost predicate Cancelled(s: Store, p: int) {
    exists c, i :: c in s.chain && 0 <= i < ITEMS && Cancels(s, At(s, c, i), p)
  }

  ghost predicate Cancels(s: Store, item: Item, p: int) {
    item.Item? && item.kind.Freed? && item.ptr == p && Ver(s, ChunkOf(p)) % VERSIONS == item.arg
  }

  /** What recovery keeps, going by the record layout: the NORMAL and FILE items of the chain that no FREE item cancels. */
  ghost predicate Replayed(s: Store, c: int, i: nat) {
    c in s.chain && i < ITEMS && Lasting(At(s, c, i)) && !Cancelled(s, SlotPtr(c, i))
  }

  ghost predicate Pending(tombs: seq<Item>, p: int) {
    exists k :: 0 <= k < |tombs| && tombs[k].Item? && tombs[k].ptr == p
  }

  /** A FREE record that names a NORMAL or FILE item of the chain whose bit is clear. */
  ghost predicate Points(s: Store, item: Item) {
    && item.Item? && item.kind.Freed? && ChunkOf(item.ptr) in s.chain && 0 <= IndexOf(item.ptr) < ITEMS
    && SlotPtr(ChunkOf(item.ptr), IndexOf(item.ptr)) == item.ptr
    && Lasting(At(s, ChunkOf(item.ptr), IndexOf(item.ptr))) && !Bit(s, ChunkOf(item.ptr), IndexOf(item.ptr))
    && item.arg == Ver(s, ChunkOf(item.ptr)) % VERSIONS
  }

  /** The bitmaps agree with replay, but for the tombstones still pending. */
  ghost predicate Synced(s: Store, tombs: seq<Item>) {
    && (forall c, i :: c in s.chain && 0 <= i < ITEMS && Bit(s, c, i) ==> At(s, c, i) != Empty)
    && (forall c, i :: c in s.chain && 0 <= i < ITEMS && At(s, c, i).Item? && At(s, c, i).kind.Freed? ==> Bit(s, c, i) && Points(s, At(s, c, i)))
    && (forall c, i :: c in s.chain && 0 <= i < ITEMS && Lasting(At(s, c, i)) ==>
        (Bit(s, c, i) <==> !Cancelled(s, SlotPtr(c, i)) && !Pending(tombs, SlotPtr(c, i))))
    && (forall k :: 0 <= k < |tombs| ==> Points(s, tombs[k]) && !Cancelled(s, tombs[k].ptr))
    && (forall j, k :: 0 <= j < k < |tombs| ==> tombs[j].ptr != tombs[k].ptr)
  }

  /** The statement of the refinement: a bit on a NORMAL or FILE slot is set exactly when replay keeps the item and no tombstone waits for it. */
  lemma BitsAreReplay(s: Store, tombs: seq<Item>, c: int, i: nat)
    requires Synced(s, tombs) && c in s.chain && i < ITEMS && Lasting(At(s, c, i))
    ensures Bit(s, c, i) <==> Replayed(s, c, i) && !Pending(tombs, SlotPtr(c, i))
  {
  }

  // ------------------------------------------------------------------ whose items they are

  /** What an item stands for: the extent or the file at an address. */
  datatype Key = Key(kind: Kind, ptr: int)

  function KeyOf(item: Item): Key
    requires item.Item?
  {
    Key(item.kind, item.ptr)
  }

  /** Every extent's and file's log pointer names its own item, and every live item is some owner's. */
  ghost predicate Named(s: Store, logOf: map<Key, int>) {
    && (forall k :: k in logOf ==>
        && ChunkOf(logOf[k]) in s.chain && 0 <= IndexOf(logOf[k]) < ITEMS && SlotPtr(ChunkOf(logOf[k]), IndexOf(logOf[k])) == logOf[k]
        && Bit(s, ChunkOf(logOf[k]), IndexOf(logOf[k])) && Lasting(At(s, ChunkOf(logOf[k]), IndexOf(logOf[k])))
        && KeyOf(At(s, ChunkOf(logOf[k]), IndexOf(logOf[k]))) == k)
    && (forall c, i :: c in s.chain && 0 <= i < ITEMS && Bit(s, c, i) && Lasting(At(s, c, i)) ==>
        KeyOf(At(s, c, i)) in logOf && logOf[KeyOf(At(s, c, i))] == SlotPtr(c, i))
  }

  /** The live items by owner. */
  function View(s: Store, logOf: map<Key, int>): map<Key, Item> {
    map k | k in logOf :: At(s, ChunkOf(logOf[k]), if IndexOf(logOf[k]) >= 0 then IndexOf(logOf[k]) else 0)
  }

  lemma ViewKeys(s: Store, logOf: map<Key, int>)
    ensures View(s, logOf).Keys == logOf.Keys
  {
  }

  /**
    The refinement read the other way: what recovery would keep, less what the
    tombstones still name, is exactly the live items of the owners.
   */
  lemma RecoveryIsLive(s: Store, tombs: seq<Item>, logOf: map<Key, int>)
    requires Synced(s, tombs) && Named(s, logOf)
    ensures forall c, i :: 0 <= i < ITEMS && Replayed(s, c, i) && !Pending(tombs, SlotPtr(c, i)) ==>
      KeyOf(At(s, c, i)) in logOf && logOf[KeyOf(At(s, c, i))] == SlotPtr(c, i)
    ensures forall k :: k in logOf ==> Replayed(s, ChunkOf(logOf[k]), IndexOf(logOf[k])) && !Pending(tombs, logOf[k])
    ensures forall k :: k in logOf ==> View(s, logOf)[k] == At(s, ChunkOf(logOf[k]), IndexOf(logOf[k]))
  {
    hide At, Bit, ChunkOf, IndexOf, SlotPtr, Cancelled, Pending;
  }

  // ------------------------------------------------------------------ a new tail chunk

  /** vlchunk_alloc and the linking that add_log does when the tail is full. */
  function Extend(s: Store, c: int): Store
    requires s.v.tail in s.mem
  {
    Store(s.mem[c := Chunk(0, s.v.nextId, Zeros())][s.v.tail := s.mem[s.v.tail].(next := c)],
      s.v.(tree := s.v.tree[c := VChunk(0, NoBits(), s.v.nextId, s.v.tail)], tail := c, nextId := s.v.nextId + 1),
      s.chain + [c])
  }

  lemma ExtendFormed(s: Store, c: int)
    requires Formed(s) && IsChunk(c) && c !in s.chain && c != s.v.root && s.v.tree[s.v.tail].count == CLOSES
    ensures Formed(Extend(s, c))
  {
    var s' := Extend(s, c);
    var n := |s.chain|;
    forall i | 0 <= i < n ensures s'.mem[s'.chain[i]].next == s'.chain[i + 1] {
      assert s'.chain[i] == s.chain[i] && (i < n - 1 ==> s.chain[i] != s.chain[n - 1]);
    }
    forall x | x in s'.chain ensures x in s'.mem && IsChunk(x) { }
  }

  /** Two stores that read the same, slot by slot, but for one slot. */
  ghost predicate Differs(s: Store, s': Store, c: int, i: nat, item: Item, bit: bool) {
    && s'.chain == s.chain && c in s.chain && i < ITEMS
    && (forall d, j :: d in s.chain && 0 <= j < ITEMS && !(d == c && j == i) ==> At(s', d, j) == At(s, d, j) && Bit(s', d, j) == Bit(s, d, j))
    && At(s', c, i) == item && Bit(s', c, i) == bit
    && (forall d :: d in s.chain ==> Ver(s', d) == Ver(s, d))
  }

  lemma ExtendReads(s: Store, c: int)
    requires Formed(s) && IsChunk(c) && c !in s.chain && c != s.v.root && s.v.tree[s.v.tail].count == CLOSES
    ensures var s' := Extend(s, c);
      && (forall d, j :: d in s.chain && 0 <= j < ITEMS ==> At(s', d, j) == At(s, d, j) && Bit(s', d, j) == Bit(s, d, j))
      && (forall j :: 0 <= j < ITEMS ==> At(s', c, j) == Empty && !Bit(s', c, j))
      && (forall d :: d in s.chain ==> Ver(s', d) == Ver(s, d))
  {
  }

  /** More chunks, all empty: what is cancelled stays the same. */
  ghost predicate Longer(s: Store, s': Store, c: int) {
    && (forall d :: d in s'.chain <==> d in s.chain || d == c)
    && (forall d, j :: d in s.chain && 0 <= j < ITEMS ==> At(s', d, j) == At(s, d, j) && Bit(s', d, j) == Bit(s, d, j))
    && (forall j :: 0 <= j < ITEMS ==> At(s', c, j) == Empty && !Bit(s', c, j))
    && (forall d :: d in s.chain ==> Ver(s', d) == Ver(s, d))
  }

  lemma LongerCancels(s: Store, s': Store, c: int, p: int)
    requires Longer(s, s', c) && ChunkOf(p) in s.chain
    ensures Cancelled(s', p) <==> Cancelled(s, p)
  {
    if Cancelled(s, p) {
      var d, j :| d in s.chain && 0 <= j < ITEMS && Cancels(s, At(s, d, j), p);
      assert Cancels(s', At(s', d, j), p);
    }
    if Cancelled(s', p) {
      var d, j :| d in s'.chain && 0 <= j < ITEMS && Cancels(s', At(s', d, j), p);
      assert d in s.chain && Cancels(s, At(s, d, j), p);
    }
  }

  lemma LongerSynced(s: Store, s': Store, c: int, tombs: seq<Item>)
    requires Longer(s, s', c) && Synced(s, tombs) && forall d :: d in s.chain ==> IsChunk(d)
    ensures Synced(s', tombs)
  {
    hide At, Bit, Ver, ChunkOf, IndexOf, Cancelled, SlotPtr, IsChunk;
    forall d, j | d in s.chain && 0 <= j < ITEMS ensures Cancelled(s', SlotPtr(d, j)) <==> Cancelled(s, SlotPtr(d, j)) {
      SlotRoundTrip(d, j);
      LongerCancels(s, s', c, SlotPtr(d, j));
    }
    forall k | 0 <= k < |tombs| ensures Points(s', tombs[k]) && !Cancelled(s', tombs[k].ptr) {
      assert Points(s, tombs[k]);
      LongerCancels(s, s', c, tombs[k].ptr);
    }
    forall d, j | d in s'.chain && 0 <= j < ITEMS && At(s', d, j).Item? && At(s', d, j).kind.Freed?
      ensures Bit(s', d, j) && Points(s', At(s', d, j))
    {
      assert Points(s, At(s, d, j));
    }
  }

  lemma LongerNamed(s: Store, s': Store, c: int, logOf: map<Key, int>)
    requires Longer(s, s', c) && Named(s, logOf)
    ensures Named(s', logOf) && View(s', logOf) == View(s, logOf)
  {
    hide At, Bit, Ver, ChunkOf, IndexOf, SlotPtr;
  }

  lemma ExtendKeeps(s: Store, c: int, tombs: seq<Item>, logOf: map<Key, int>)
    requires Formed(s) && IsChunk(c) && c !in s.chain && c != s.v.root && s.v.tree[s.v.tail].count == CLOSES
    requires Synced(s, tombs) && Named(s, logOf)
    ensures Formed(Extend(s, c)) && Synced(Extend(s, c), tombs) && Named(Extend(s, c), logOf) && View(Extend(s, c), logOf) == View(s, logOf)
  {
    ExtendFormed(s, c);
    ExtendReads(s, c);
    assert Longer(s, Extend(s, c), c) by { ExtendChain(s, c); }
    hide Extend, At, Bit, Ver, Synced, Named, View;
    LongerSynced(s, Extend(s, c), c, tombs);
    LongerNamed(s, Extend(s, c), c, logOf);
  }

  lemma ExtendChain(s: Store, c: int)
    requires s.v.tail in s.mem
    ensures forall d :: d in Extend(s, c).chain <==> d in s.chain || d == c
  {
  }

  // ------------------------------------------------------------------ writing an item, clearing a bit

  /** The next slot of the tail. */
  function NextIndex(s: Store): nat
    requires s.v.tail in s.v.tree
  {
    LogIndex(s.v.tree[s.v.tail].count)
  }

  /** The item goes to the next slot of the tail, and its bit is set. */
  function Fill(s: Store, item: Item): Store
    requires s.v.tail in s.v.tree && s.v.tail in s.mem
    requires NextIndex(s) < |s.mem[s.v.tail].items| && NextIndex(s) < |s.v.tree[s.v.tail].bits|
  {
    var t, i := s.v.tail, NextIndex(s);
    var c, d := s.mem[t], s.v.tree[t];
    s.(mem := s.mem[t := c.(items := c.items[i := item])],
       v := s.v.(tree := s.v.tree[t := d.(count := d.count + 1, bits := d.bits[i := true])]))
  }

  lemma Room(s: Store)
    requires Formed(s) && s.v.tree[s.v.tail].count < CLOSES
    ensures s.v.tail in s.v.tree && NextIndex(s) < ITEMS && |s.mem[s.v.tail].items| == ITEMS && |s.v.tree[s.v.tail].bits| == ITEMS
    ensures At(s, s.v.tail, NextIndex(s)) == Empty && s.v.tail in s.chain && s.v.tail in s.mem
    ensures forall d :: d in s.chain ==> IsChunk(d)
  {
    CountIndex(s.v.tree[s.v.tail].count);
    assert Fits(s.mem[s.v.tail], s.v.tree[s.v.tail]);
  }

  lemma FillIs(s: Store, item: Item)
    requires s.v.tail in s.v.tree && s.v.tail in s.mem && NextIndex(s) < |s.mem[s.v.tail].items| && NextIndex(s) < |s.v.tree[s.v.tail].bits|
    ensures var t, i := s.v.tail, LogIndex(s.v.tree[s.v.tail].count); var c, d := s.mem[t], s.v.tree[t];
      Fill(s, item) == Store(s.mem[t := c.(items := c.items[i := item])],
        s.v.(tree := s.v.tree[t := d.(count := d.count + 1, bits := d.bits[i := true])]), s.chain)
  {
  }

  lemma HoldsPut(s: Store, mem: Memory, c: int, chunk: Chunk)
    requires Holds(s, mem) && c !in s.chain && c != s.v.root
    ensures Holds(s, mem[c := chunk])
  {
  }

  lemma FillFormed(s: Store, item: Item)
    requires Formed(s) && s.v.tree[s.v.tail].count < CLOSES && item != Empty
    ensures s.v.tail in s.v.tree && NextIndex(s) < |s.mem[s.v.tail].items| && NextIndex(s) < |s.v.tree[s.v.tail].bits|
    ensures Formed(Fill(s, item))
  {
    Room(s);
    hide LogIndex, CountOf, Fits;
    var s', t := Fill(s, item), s.v.tail;
    FillFits(s.mem[t], s.v.tree[t], s'.mem[t], s'.v.tree[t], item);
    forall c | c in s'.chain ensures c in s'.mem && s'.mem[c].next == s.mem[c].next { }
    assert Linked(s');
  }

  lemma FillFits(c: Chunk, v: VChunk, c': Chunk, v': VChunk, item: Item)
    requires Fits(c, v) && v.count < CLOSES && item != Empty && LogIndex(v.count) < ITEMS
    requires c' == c.(items := c.items[LogIndex(v.count) := item]) && v' == v.(count := v.count + 1, bits := v.bits[LogIndex(v.count) := true])
    ensures Fits(c', v')
  {
    hide LogIndex, CountOf;
    CountIndex(v.count);
    forall j | 0 <= j < ITEMS ensures c'.items[j] != Empty <==> CountOf(j) < v.count + 1 {
      IndexCount(j);
    }
  }

  lemma FillReads(s: Store, item: Item)
    requires Formed(s) && s.v.tree[s.v.tail].count < CLOSES
    ensures NextIndex(s) < |s.mem[s.v.tail].items| && NextIndex(s) < |s.v.tree[s.v.tail].bits|
    ensures Differs(s, Fill(s, item), s.v.tail, NextIndex(s), item, true)
  {
    Room(s);
  }

  /** A slot changes; no FREE item is lost, and only `item` is gained. */
  lemma DiffersCancels(s: Store, s': Store, c: int, i: nat, item: Item, bit: bool, p: int)
    requires Differs(s, s', c, i, item, bit) && ChunkOf(p) in s.chain
    requires At(s, c, i) == Empty || At(s, c, i) == item
    ensures Cancelled(s', p) <==> Cancelled(s, p) || Cancels(s, item, p)
  {
    if Cancelled(s, p) {
      var d, j :| d in s.chain && 0 <= j < ITEMS && Cancels(s, At(s, d, j), p);
      assert Cancels(s', At(s', d, j), p);
    }
    if Cancels(s, item, p) {
      assert Cancels(s', At(s', c, i), p);
    }
    if Cancelled(s', p) {
      var d, j :| d in s'.chain && 0 <= j < ITEMS && Cancels(s', At(s', d, j), p);
      assert Cancels(s, At(s', d, j), p);
    }
  }

  /** add_log for a NORMAL or FILE item. */
  lemma FillLasting(s: Store, s': Store, c: int, i: nat, item: Item, tombs: seq<Item>)
    requires Synced(s, tombs) && Differs(s, s', c, i, item, true) && At(s, c, i) == Empty && Lasting(item)
    requires forall d :: d in s.chain ==> IsChunk(d)
    ensures Synced(s', tombs)
  {
    hide At, Bit, Ver, ChunkOf, IndexOf, Cancelled, SlotPtr, IsChunk, Pending, Cancels;
    forall d, j | d in s.chain && 0 <= j < ITEMS ensures Cancelled(s', SlotPtr(d, j)) <==> Cancelled(s, SlotPtr(d, j)) {
      SlotRoundTrip(d, j);
      DiffersCancels(s, s', c, i, item, true, SlotPtr(d, j));
      LastingCancelsNone(s, item, SlotPtr(d, j));
    }
    forall k | 0 <= k < |tombs| ensures Points(s', tombs[k]) && !Cancelled(s', tombs[k].ptr) {
      assert Points(s, tombs[k]);
      DiffersCancels(s, s', c, i, item, true, tombs[k].ptr);
      LastingCancelsNone(s, item, tombs[k].ptr);
    }
    forall d, j | d in s'.chain && 0 <= j < ITEMS && At(s', d, j).Item? && At(s', d, j).kind.Freed?
      ensures Bit(s', d, j) && Points(s', At(s', d, j))
    {
      assert Points(s, At(s, d, j));
    }
    SlotRoundTrip(c, i);
    NothingPoints(s, tombs, c, i);
  }

  lemma LastingCancelsNone(s: Store, item: Item, p: int)
    requires Lasting(item)
    ensures !Cancels(s, item, p)
  {
  }

  /** No FREE item and no tombstone names an empty slot. */
  lemma NothingPoints(s: Store, tombs: seq<Item>, c: int, i: nat)
    requires Synced(s, tombs) && c in s.chain && i < ITEMS && At(s, c, i) == Empty && IsChunk(c)
    ensures !Cancelled(s, SlotPtr(c, i)) && !Pending(tombs, SlotPtr(c, i))
  {
    SlotRoundTrip(c, i);
    if Cancelled(s, SlotPtr(c, i)) || Pending(tombs, SlotPtr(c, i)) { PointedLasts(s, tombs, SlotPtr(c, i)); }
  }

  lemma PointedLasts(s: Store, tombs: seq<Item>, p: int)
    requires Synced(s, tombs) && (Cancelled(s, p) || Pending(tombs, p))
    ensures IndexOf(p) >= 0 && Lasting(At(s, ChunkOf(p), IndexOf(p)))
  {
    if Cancelled(s, p) {
      var d, j :| d in s.chain && 0 <= j < ITEMS && Cancels(s, At(s, d, j), p);
      assert Points(s, At(s, d, j));
    } else {
      var k :| 0 <= k < |tombs| && tombs[k].Item? && tombs[k].ptr == p;
      assert Points(s, tombs[k]);
    }
  }

  /** The view is as it was when no owner's item lies in the slot that changed. */
  lemma ViewSame(s: Store, s': Store, c: int, i: nat, item: Item, bit: bool, logOf: map<Key, int>)
    requires Differs(s, s', c, i, item, bit)
    requires forall k :: k in logOf ==> ChunkOf(logOf[k]) in s.chain && 0 <= IndexOf(logOf[k]) < ITEMS && !(ChunkOf(logOf[k]) == c && IndexOf(logOf[k]) == i)
    ensures View(s', logOf) == View(s, logOf)
  {
    hide At, Bit, Ver, ChunkOf, IndexOf;
  }

  lemma FillNamed(s: Store, s': Store, c: int, i: nat, item: Item, logOf: map<Key, int>)
    requires Named(s, logOf) && Differs(s, s', c, i, item, true) && At(s, c, i) == Empty && Lasting(item) && KeyOf(item) !in logOf && IsChunk(c)
    ensures var l := logOf[KeyOf(item) := SlotPtr(c, i)];
      Named(s', l) && View(s', l) == View(s, logOf)[KeyOf(item) := item]
  {
    hide At, Bit, ChunkOf, IndexOf, SlotPtr, IsChunk, View, KeyOf, Differs, Named;
    OthersStay(s, s', c, i, item, true);
    SlotRoundTrip(c, i);
    OwnersElsewhere(s, logOf, c, i);
    NamedPut(s, s', c, i, item, logOf);
    ViewSame(s, s', c, i, item, true, logOf);
    ViewPut(s', logOf, KeyOf(item), SlotPtr(c, i), item);
  }

  /** No owner's item is in an empty slot. */
  lemma OwnersElsewhere(s: Store, logOf: map<Key, int>, c: int, i: nat)
    requires Named(s, logOf) && At(s, c, i) == Empty
    ensures forall k :: k in logOf ==> ChunkOf(logOf[k]) in s.chain && 0 <= IndexOf(logOf[k]) < ITEMS && !(ChunkOf(logOf[k]) == c && IndexOf(logOf[k]) == i)
  {
    hide At, Bit, ChunkOf, IndexOf, SlotPtr, KeyOf;
  }

  lemma OthersStay(s: Store, s': Store, c: int, i: nat, item: Item, bit: bool)
    requires Differs(s, s', c, i, item, bit)
    ensures At(s', c, i) == item && Bit(s', c, i) == bit && s'.chain == s.chain && c in s.chain && i < ITEMS
    ensures forall d, j :: d in s.chain && 0 <= j < ITEMS && !(d == c && j == i) ==> At(s', d, j) == At(s, d, j) && Bit(s', d, j) == Bit(s, d, j)
  {
    hide At, Bit, Ver;
  }

  lemma NamedPut(s: Store, s': Store, c: int, i: nat, item: Item, logOf: map<Key, int>)
    requires Named(s, logOf) && Lasting(item) && KeyOf(item) !in logOf && i < ITEMS && c in s.chain && s'.chain == s.chain
    requires At(s', c, i) == item && Bit(s', c, i) && ChunkOf(SlotPtr(c, i)) == c && IndexOf(SlotPtr(c, i)) == i
    requires forall d, j :: d in s.chain && 0 <= j < ITEMS && !(d == c && j == i) ==> At(s', d, j) == At(s, d, j) && Bit(s', d, j) == Bit(s, d, j)
    requires forall k :: k in logOf ==> !(ChunkOf(logOf[k]) == c && IndexOf(logOf[k]) == i)
    ensures Named(s', logOf[KeyOf(item) := SlotPtr(c, i)])
  {
    hide At, Bit, ChunkOf, IndexOf, SlotPtr, KeyOf;
  }

  lemma ViewPut(s: Store, logOf: map<Key, int>, key: Key, p: int, item: Item)
    requires IndexOf(p) >= 0 && At(s, ChunkOf(p), IndexOf(p)) == item
    ensures View(s, logOf[key := p]) == View(s, logOf)[key := item]
  {
    hide At, ChunkOf, IndexOf;
  }

  /** The order in which tombstones wait does not matter. */
  lemma SyncedFirst(s: Store, tombs: seq<Item>, k: nat)
    requires Synced(s, tombs) && k < |tombs|
    ensures Synced(s, [tombs[k]] + tombs[..k] + tombs[k + 1..])
  {
    hide At, Bit, Cancelled, SlotPtr, Points;
    var moved := [tombs[k]] + tombs[..k] + tombs[k + 1..];
    forall p ensures Pending(moved, p) <==> Pending(tombs, p) {
      if Pending(tombs, p) {
        var j :| 0 <= j < |tombs| && tombs[j].Item? && tombs[j].ptr == p;
        assert moved[if j < k then j + 1 else if j == k then 0 else j] == tombs[j];
      }
      if Pending(moved, p) {
        var j :| 0 <= j < |moved| && moved[j].Item? && moved[j].ptr == p;
        assert tombs[if j == 0 then k else if j <= k then j - 1 else j] == moved[j];
      }
    }
    forall j | 0 <= j < |moved| ensures moved[j] == tombs[if j == 0 then k else if j <= k then j - 1 else j] { }
  }

  /** A FREE record, written for the first of the tombstones: add_log for a FREE item, and flush_tomb. */
  lemma FillFreed(s: Store, s': Store, c: int, i: nat, tombs: seq<Item>)
    requires |tombs| > 0 && Synced(s, tombs) && Differs(s, s', c, i, tombs[0], true) && At(s, c, i) == Empty
    requires forall d :: d in s.chain ==> IsChunk(d)
    ensures Synced(s', tombs[1..])
  {
    hide At, Bit, Ver, ChunkOf, IndexOf, Cancelled, SlotPtr, IsChunk;
    var item := tombs[0];
    assert Points(s, item);
    forall d, j | d in s.chain && 0 <= j < ITEMS ensures Cancelled(s', SlotPtr(d, j)) <==> Cancelled(s, SlotPtr(d, j)) || item.ptr == SlotPtr(d, j) {
      SlotRoundTrip(d, j);
      DiffersCancels(s, s', c, i, item, true, SlotPtr(d, j));
    }
    forall k | 0 <= k < |tombs[1..]| ensures Points(s', tombs[1..][k]) && !Cancelled(s', tombs[1..][k].ptr) {
      assert Points(s, tombs[k + 1]) && tombs[0].ptr != tombs[k + 1].ptr;
      DiffersCancels(s, s', c, i, item, true, tombs[k + 1].ptr);
    }
    forall d, j | d in s'.chain && 0 <= j < ITEMS && At(s', d, j).Item? && At(s', d, j).kind.Freed?
      ensures Bit(s', d, j) && Points(s', At(s', d, j))
    {
      if d == c && j == i { assert Points(s, item); } else { assert Points(s, At(s, d, j)); }
    }
    forall p ensures Pending(tombs, p) <==> Pending(tombs[1..], p) || p == item.ptr { PendingSplit(tombs, p); }
    forall d, j | d in s.chain && 0 <= j < ITEMS && Lasting(At(s', d, j))
      ensures Bit(s', d, j) <==> !Cancelled(s', SlotPtr(d, j)) && !Pending(tombs[1..], SlotPtr(d, j))
    {
      assert !(d == c && j == i);
      assert Lasting(At(s, d, j));
    }
  }

  lemma PendingSplit(tombs: seq<Item>, p: int)
    requires |tombs| > 0 && tombs[0].Item?
    ensures Pending(tombs, p) <==> Pending(tombs[1..], p) || p == tombs[0].ptr
  {
    if Pending(tombs, p) {
      var k :| 0 <= k < |tombs| && tombs[k].Item? && tombs[k].ptr == p;
      if k > 0 { assert tombs[1..][k - 1] == tombs[k]; }
    }
    if Pending(tombs[1..], p) {
      var k :| 0 <= k < |tombs[1..]| && tombs[1..][k].Item? && tombs[1..][k].ptr == p;
      assert tombs[k + 1] == tombs[1..][k];
    }
  }

  lemma FreedNamed(s: Store, s': Store, c: int, i: nat, item: Item, logOf: map<Key, int>)
    requires Named(s, logOf) && Differs(s, s', c, i, item, true) && At(s, c, i) == Empty && !Lasting(item)
    ensures Named(s', logOf) && View(s', logOf) == View(s, logOf)
  {
    hide At, Bit, Ver, ChunkOf, IndexOf, SlotPtr, IsChunk, View;
    forall k | k in logOf ensures !(ChunkOf(logOf[k]) == c && IndexOf(logOf[k]) == i) { }
    ViewSame(s, s', c, i, item, true, logOf);
  }

  /** set_bitmap to false. */
  function Clear(s: Store, c: int, i: nat): Store
    requires c in s.v.tree && i < |s.v.tree[c].bits|
  {
    s.(v := s.v.(tree := s.v.tree[c := s.v.tree[c].(bits := s.v.tree[c].bits[i := false])]))
  }

  lemma ClearFormed(s: Store, c: int, i: nat)
    requires Formed(s) && c in s.chain && i < ITEMS
    ensures c in s.v.tree && i < |s.v.tree[c].bits| && Formed(Clear(s, c, i)) && Differs(s, Clear(s, c, i), c, i, At(s, c, i), false)
  {
    assert Fits(s.mem[c], s.v.tree[c]);
    var s' := Clear(s, c, i);
    assert Fits(s'.mem[c], s'.v.tree[c]);
  }

  /** A live item is given up: its bit is cleared and a tombstone waits for its FREE record. */
  lemma ClearSynced(s: Store, s': Store, c: int, i: nat, tombs: seq<Item>, tomb: Item)
    requires Synced(s, tombs) && Differs(s, s', c, i, At(s, c, i), false) && Bit(s, c, i) && Lasting(At(s, c, i))
    requires tomb.Item? && tomb.kind == Freed && tomb.ptr == SlotPtr(c, i) && tomb.arg == Ver(s, c) % VERSIONS && forall d :: d in s.chain ==> IsChunk(d)
    ensures Synced(s', [tomb] + tombs) && Synced(s', tombs + [tomb])
  {
    SlotRoundTrip(c, i);
    hide At, Bit, Ver, ChunkOf, IndexOf, Cancelled, IsChunk;
    forall d, j | d in s.chain && 0 <= j < ITEMS
      ensures Cancelled(s', SlotPtr(d, j)) <==> Cancelled(s, SlotPtr(d, j))
      ensures SlotPtr(d, j) == SlotPtr(c, i) ==> d == c && j == i
    {
      SlotRoundTrip(d, j);
      DiffersCancels(s, s', c, i, At(s, c, i), false, SlotPtr(d, j));
      LastingCancelsNone(s, At(s, c, i), SlotPtr(d, j));
    }
    forall k | 0 <= k < |tombs| ensures Points(s', tombs[k]) && !Cancelled(s', tombs[k].ptr) && tombs[k].ptr != tomb.ptr {
      assert Points(s, tombs[k]) && Pending(tombs, tombs[k].ptr);
      DiffersCancels(s, s', c, i, At(s, c, i), false, tombs[k].ptr);
      LastingCancelsNone(s, At(s, c, i), tombs[k].ptr);
    }
    forall d, j | d in s'.chain && 0 <= j < ITEMS && At(s', d, j).Item? && At(s', d, j).kind.Freed?
      ensures Bit(s', d, j) && Points(s', At(s', d, j))
    {
      assert Points(s, At(s, d, j));
    }
    forall p ensures Pending([tomb] + tombs, p) <==> Pending(tombs, p) || p == tomb.ptr {
      assert ([tomb] + tombs)[1..] == tombs;
      PendingSplit([tomb] + tombs, p);
    }
    forall p ensures Pending(tombs + [tomb], p) <==> Pending(tombs, p) || p == tomb.ptr { PendingPush(tombs, tomb, p); }
  }

  lemma PendingPush(tombs: seq<Item>, tomb: Item, p: int)
    requires tomb.Item?
    ensures Pending(tombs + [tomb], p) <==> Pending(tombs, p) || p == tomb.ptr
  {
    var all := tombs + [tomb];
    if Pending(tombs, p) {
      var k :| 0 <= k < |tombs| && tombs[k].Item? && tombs[k].ptr == p;
      assert all[k] == tombs[k];
    }
    if p == tomb.ptr { assert all[|tombs|] == tomb; }
  }

  lemma ClearNamed(s: Store, s': Store, c: int, i: nat, logOf: map<Key, int>, key: Key)
    requires Named(s, logOf) && Differs(s, s', c, i, At(s, c, i), false) && key in logOf && logOf[key] == SlotPtr(c, i)
    requires forall d :: d in s.chain ==> IsChunk(d)
    ensures Named(s', logOf - {key}) && View(s', logOf - {key}) == View(s, logOf) - {key}
  {
    SlotRoundTrip(c, i);
    hide At, Bit, Ver, ChunkOf, IndexOf, SlotPtr, IsChunk;
    forall d, j | d in s'.chain && 0 <= j < ITEMS && Bit(s', d, j) && Lasting(At(s', d, j)) ensures KeyOf(At(s', d, j)) != key {
      SlotRoundTrip(d, j);
      assert KeyOf(At(s, d, j)) in logOf && logOf[KeyOf(At(s, d, j))] == SlotPtr(d, j);
    }
  }

  // ------------------------------------------------------------------ a log beside another

  /** Memory that still holds a log's chunks. */
  ghost predicate Holds(s: Store, mem: Memory) {
    && (forall c :: c in s.chain ==> c in mem && c in s.mem && mem[c] == s.mem[c])
    && s.v.root in mem && s.v.root in s.mem && mem[s.v.root] == s.mem[s.v.root]
  }

  lemma HoldsCancels(s: Store, mem: Memory, p: int)
    requires Holds(s, mem) && ChunkOf(p) in s.chain
    ensures Cancelled(s.(mem := mem), p) <==> Cancelled(s, p)
  {
    var s' := s.(mem := mem);
    if Cancelled(s, p) {
      var d, j :| d in s.chain && 0 <= j < ITEMS && Cancels(s, At(s, d, j), p);
      assert Cancels(s', At(s', d, j), p);
    }
    if Cancelled(s', p) {
      var d, j :| d in s'.chain && 0 <= j < ITEMS && Cancels(s', At(s', d, j), p);
      assert Cancels(s, At(s, d, j), p);
    }
  }

  // ------------------------------------------------------------------ an empty log

  /** log_create and log_create_for_GC: a root chunk and a first chunk. */
  function Created(mem: Memory, root: int, first: int, id: nat): Store {
    Store(mem[root := Chunk(first, id, Zeros())][first := Chunk(0, id + 1, Zeros())],
      Vlog(map[first := VChunk(0, NoBits(), id + 1, root)], root, first, id + 2), [first])
  }

  lemma CreatedFormed(mem: Memory, root: int, first: int, id: nat)
    requires IsChunk(root) && IsChunk(first) && root != first
    ensures Formed(Created(mem, root, first, id)) && Synced(Created(mem, root, first, id), []) && Named(Created(mem, root, first, id), map[])
  {
    var s := Created(mem, root, first, id);
    assert Fits(s.mem[first], s.v.tree[first]);
    assert Linked(s);
    forall c, i | c in s.chain && 0 <= i < ITEMS ensures At(s, c, i) == Empty && !Bit(s, c, i) { }
  }

  /** A log that holds live items only. */
  ghost predicate Clean(s: Store) {
    forall c, i :: c in s.chain && 0 <= i < ITEMS && At(s, c, i) != Empty ==> Lasting(At(s, c, i)) && Bit(s, c, i)
  }

  lemma LongerClean(s: Store, s': Store, c: int)
    requires Longer(s, s', c) && Clean(s)
    ensures Clean(s')
  {
  }

  lemma ExtendLonger(s: Store, c: int)
    requires Formed(s) && IsChunk(c) && c !in s.chain && c != s.v.root && s.v.tree[s.v.tail].count == CLOSES
    ensures Longer(s, Extend(s, c), c)
  {
    ExtendReads(s, c);
    ExtendChain(s, c);
  }

  lemma FillClean(s: Store, s': Store, c: int, i: nat, item: Item)
    requires Clean(s) && Differs(s, s', c, i, item, true) && Lasting(item)
    ensures Clean(s')
  {
  }

  lemma CreatedClean(mem: Memory, root: int, first: int, id: nat)
    requires root != first
    ensures Clean(Created(mem, root, first, id))
  {
  }
}

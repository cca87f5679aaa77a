/**
  What a crash leaves of the log.  Every word of persistent memory may be found
  with any value it was given since its line was last flushed, whichever lines
  were evicted on their own; an item, a link, a version, the `alt` byte and a log
  root are one word each.
 */
module CrashLog {
  import opened Interleave
  import opened LogStore

  /** For each word the values a crash may leave; words of chunks that do not appear may hold anything. */
  datatype Pm = Pm(alts: set<nat>, roots: seq<set<int>>, nexts: map<int, set<int>>, ids: map<int, set<nat>>, slots: map<int, seq<set<Item>>>)

  /** Persistent memory as recovery finds it. */
  datatype Image = Image(alt: nat, roots: seq<int>, mem: Memory)

  ghost predicate Allowed(img: Image, pm: Pm) {
    && img.alt in pm.alts && |img.roots| == |pm.roots| && (forall k :: 0 <= k < |img.roots| ==> img.roots[k] in pm.roots[k])
    && (forall c :: c in pm.nexts ==> c in img.mem && img.mem[c].next in pm.nexts[c])
    && (forall c :: c in pm.ids ==> c in img.mem && img.mem[c].id in pm.ids[c])
    && (forall c :: c in pm.slots ==> c in img.mem && |img.mem[c].items| == |pm.slots[c]|)
    && (forall c, i :: c in pm.slots && 0 <= i < |pm.slots[c]| ==> img.mem[c].items[i] in pm.slots[c][i])
  }

  // ------------------------------------------------------------------ stores and flushes

  function Both<T>(m: map<int, set<T>>, c: int, x: T): map<int, set<T>> {
    if c in m then m[c := m[c] + {x}] else m
  }

  function PutNext(pm: Pm, c: int, next: int): Pm {
    pm.(nexts := Both(pm.nexts, c, next))
  }

  function PutSlot(pm: Pm, c: int, i: nat, item: Item): Pm {
    if c in pm.slots && i < |pm.slots[c]| then
      pm.(slots := pm.slots[c := pm.slots[c][i := pm.slots[c][i] + {item}]])
    else pm
  }

  function PutRoot(pm: Pm, k: nat, root: int): Pm {
    if k < |pm.roots| then pm.(roots := pm.roots[k := pm.roots[k] + {root}]) else pm
  }

  function PutAlt(pm: Pm, alt: nat): Pm {
    pm.(alts := pm.alts + {alt})
  }

  function Only<T>(xs: seq<T>): seq<set<T>> {
    seq(|xs|, i requires 0 <= i < |xs| => {xs[i]})
  }

  /** persist over a whole chunk that holds `chunk`. */
  function FlushChunk(pm: Pm, c: int, chunk: Chunk): Pm {
    pm.(nexts := pm.nexts[c := {chunk.next}], ids := pm.ids[c := {chunk.id}], slots := pm.slots[c := Only(chunk.items)])
  }

  function FlushNext(pm: Pm, c: int, next: int): Pm {
    pm.(nexts := pm.nexts[c := {next}])
  }

  function FlushSlot(pm: Pm, c: int, i: nat, item: Item): Pm {
    if c in pm.slots && i < |pm.slots[c]| then pm.(slots := pm.slots[c := pm.slots[c][i := {item}]]) else pm
  }

  function FlushRoot(pm: Pm, k: nat, root: int): Pm {
    if k < |pm.roots| then pm.(roots := pm.roots[k := {root}]) else pm
  }

  function FlushAlt(pm: Pm, alt: nat): Pm {
    pm.(alts := {alt})
  }

  /** memset and the version of vlchunk_alloc: a chunk that is being wiped may hold anything. */
  function Wipe(pm: Pm, c: int): Pm {
    pm.(nexts := pm.nexts - {c}, ids := pm.ids - {c}, slots := pm.slots - {c})
  }

  // ------------------------------------------------------------------ traces

  /** One store to a word of the log's file, the wiping of a chunk, or a persist. */
  datatype Act =
    | Wiped(c: int, chunk: Chunk)
    | Linked(c: int, next: int)
    | Stored(c: int, i: nat, item: Item)
    | Rooted(k: nat, root: int)
    | Turned(alt: nat)
    | SavedChunk(c: int)
    | SavedLink(c: int)
    | SavedItem(c: int, i: nat)
    | SavedRoot(k: nat)
    | SavedAlt

  predicate CanAct(img: Image, a: Act) {
    match a
    case Wiped(_, _) => true
    case Linked(c, _) => c in img.mem
    case Stored(c, i, _) => c in img.mem && i < |img.mem[c].items|
    case Rooted(k, _) => k < |img.roots|
    case Turned(_) => true
    case SavedChunk(c) => c in img.mem
    case SavedLink(c) => c in img.mem
    case SavedItem(c, i) => c in img.mem && i < |img.mem[c].items|
    case SavedRoot(k) => k < |img.roots|
    case SavedAlt => true
  }

  /** Memory after it, as the program sees it. */
  function Seen(img: Image, a: Act): Image
    requires CanAct(img, a)
  {
    match a
    case Wiped(c, chunk) => img.(mem := img.mem[c := chunk])
    case Linked(c, next) => img.(mem := img.mem[c := img.mem[c].(next := next)])
    case Stored(c, i, item) => img.(mem := img.mem[c := img.mem[c].(items := img.mem[c].items[i := item])])
    case Rooted(k, root) => img.(roots := img.roots[k := root])
    case Turned(alt) => img.(alt := alt)
    case _ => img
  }

  /** What a crash after it may leave: a store adds a value, a persist keeps the one that memory has. */
  function Left(img: Image, pm: Pm, a: Act): Pm
    requires CanAct(img, a)
  {
    match a
    case Wiped(c, _) => Wipe(pm, c)
    case Linked(c, next) => PutNext(pm, c, next)
    case Stored(c, i, item) => PutSlot(pm, c, i, item)
    case Rooted(k, root) => PutRoot(pm, k, root)
    case Turned(alt) => PutAlt(pm, alt)
    case SavedChunk(c) => FlushChunk(pm, c, img.mem[c])
    case SavedLink(c) => FlushNext(pm, c, img.mem[c].next)
    case SavedItem(c, i) => FlushSlot(pm, c, i, img.mem[c].items[i])
    case SavedRoot(k) => FlushRoot(pm, k, img.roots[k])
    case SavedAlt => FlushAlt(pm, img.alt)
  }

  /** What memory holds is always among what a crash may leave. */
  lemma NowIsAllowed(img: Image, pm: Pm, a: Act)
    requires Allowed(img, pm) && CanAct(img, a)
    ensures Allowed(Seen(img, a), Left(img, pm, a))
  {
    var img', pm' := Seen(img, a), Left(img, pm, a);
    forall d, j | d in pm'.slots && 0 <= j < |pm'.slots[d]| ensures d in img'.mem && j < |img'.mem[d].items| && img'.mem[d].items[j] in pm'.slots[d][j] {
      assert d in pm.slots && j < |pm.slots[d]| ==> img.mem[d].items[j] in pm.slots[d][j];
    }
  }

  predicate IsStore(a: Act) {
    a.Wiped? || a.Linked? || a.Stored? || a.Rooted? || a.Turned?
  }

  /** Until it is persisted a store may be found made or not made, whatever else a crash leaves. */
  lemma StoresLinger(img: Image, pm: Pm, a: Act, found: Image)
    requires CanAct(img, a) && IsStore(a) && Allowed(found, pm) && CanAct(found, a)
    ensures Allowed(found, Left(img, pm, a)) && Allowed(Seen(found, a), Left(img, pm, a))
  {
    var made, pm' := Seen(found, a), Left(img, pm, a);
    forall d, j | d in pm'.slots && 0 <= j < |pm'.slots[d]| ensures found.mem[d].items[j] in pm'.slots[d][j] && made.mem[d].items[j] in pm'.slots[d][j] {
      assert found.mem[d].items[j] in pm.slots[d][j];
    }
  }

  /** A persist leaves no crash anything new, and of its words only what memory has. */
  lemma PersistsHold(img: Image, pm: Pm, a: Act, found: Image)
    requires CanAct(img, a) && !IsStore(a) && Allowed(img, pm) && Allowed(found, Left(img, pm, a))
    ensures Allowed(found, pm)
    ensures a.SavedChunk? ==> a.c in found.mem && found.mem[a.c] == img.mem[a.c]
    ensures a.SavedLink? ==> a.c in found.mem && found.mem[a.c].next == img.mem[a.c].next
    ensures a.SavedItem? && a.c in pm.slots ==> a.c in found.mem && a.i < |found.mem[a.c].items| && found.mem[a.c].items[a.i] == img.mem[a.c].items[a.i]
    ensures a.SavedRoot? ==> a.k < |found.roots| && found.roots[a.k] == img.roots[a.k]
    ensures a.SavedAlt? ==> found.alt == img.alt
  {
    var pm' := Left(img, pm, a);
    if a.SavedChunk? {
      FlushedReads(img, pm, a.c, found);
    } else {
      forall d, j | d in pm.slots && 0 <= j < |pm.slots[d]| ensures found.mem[d].items[j] in pm.slots[d][j] {
        assert found.mem[d].items[j] in pm'.slots[d][j] && img.mem[d].items[j] in pm.slots[d][j];
      }
    }
  }

  lemma FlushedReads(img: Image, pm: Pm, c: int, found: Image)
    requires c in img.mem && Allowed(img, pm) && Allowed(found, FlushChunk(pm, c, img.mem[c]))
    ensures Allowed(found, pm) && c in found.mem && found.mem[c] == img.mem[c]
  {
    var pm' := FlushChunk(pm, c, img.mem[c]);
    forall i | 0 <= i < |img.mem[c].items| ensures found.mem[c].items[i] == img.mem[c].items[i] { assert found.mem[c].items[i] in pm'.slots[c][i]; }
    assert found.mem[c].items == img.mem[c].items;
    forall d, j | d in pm.slots && 0 <= j < |pm.slots[d]| ensures found.mem[d].items[j] in pm.slots[d][j] {
      assert img.mem[d].items[j] in pm.slots[d][j];
      if d != c { assert found.mem[d].items[j] in pm'.slots[d][j]; }
    }
  }

  /** Memory and what a crash could leave, before the first of the acts and after each. */
  ghost predicate Traced(images: seq<Image>, history: seq<Pm>, acts: seq<Act>) {
    && |images| == |history| == |acts| + 1
    && forall k :: 0 <= k < |acts| ==> CanAct(images[k], acts[k]) && images[k + 1] == Seen(images[k], acts[k]) && history[k + 1] == Left(images[k], history[k], acts[k])
  }

  lemma TracedMore(images: seq<Image>, history: seq<Pm>, acts: seq<Act>, a: Act)
    requires Traced(images, history, acts) && CanAct(images[|acts|], a)
    ensures Traced(images + [Seen(images[|acts|], a)], history + [Left(images[|acts|], history[|acts|], a)], acts + [a])
  {
    hide CanAct, Seen, Left;
  }

  // ------------------------------------------------------------------ what is durable

  ghost predicate Durable(pm: Pm, c: int, chunk: Chunk) {
    && c in pm.nexts && pm.nexts[c] == {chunk.next}
    && c in pm.ids && pm.ids[c] == {chunk.id}
    && c in pm.slots && pm.slots[c] == Only(chunk.items)
  }

  /** Every word of a log's chunks is as memory has it. */
  ghost predicate DurableLog(pm: Pm, s: Store) {
    && (forall c :: c in s.chain ==> c in s.mem && Durable(pm, c, s.mem[c]))
    && s.v.root in s.mem && Durable(pm, s.v.root, s.mem[s.v.root])
  }

  lemma DurableReads(pm: Pm, c: int, chunk: Chunk, img: Image)
    requires Durable(pm, c, chunk) && Allowed(img, pm)
    ensures c in img.mem && img.mem[c] == chunk
  {
    assert |img.mem[c].items| == |chunk.items|;
    forall i | 0 <= i < |chunk.items| ensures img.mem[c].items[i] == chunk.items[i] {
      assert img.mem[c].items[i] in pm.slots[c][i];
    }
    assert img.mem[c].items == chunk.items;
  }

  lemma DurableHolds(pm: Pm, s: Store, img: Image)
    requires DurableLog(pm, s) && Allowed(img, pm)
    ensures Holds(s, img.mem)
  {
    forall c | c in s.chain ensures c in img.mem && img.mem[c] == s.mem[c] { DurableReads(pm, c, s.mem[c], img); }
    DurableReads(pm, s.v.root, s.mem[s.v.root], img);
  }

  // ------------------------------------------------------------------ recovery

  /** The chain of the log that `alt` chooses. */
  ghost predicate ChainOf(img: Image, ch: seq<int>) {
    && img.alt < |img.roots| && img.roots[img.alt] in img.mem && |ch| >= 1 && Distinct(ch) && 0 !in ch
    && (forall c :: c in ch ==> c in img.mem)
    && img.mem[img.roots[img.alt]].next == ch[0]
    && (forall i :: 0 <= i < |ch| - 1 ==> img.mem[ch[i]].next == ch[i + 1])
    && img.mem[ch[|ch| - 1]].next == 0
  }

  /** Following the links leaves no choice. */
  lemma {:induction false} ChainUnique(img: Image, ch: seq<int>, other: seq<int>, i: nat)
    requires ChainOf(img, ch) && ChainOf(img, other) && i < |ch|
    ensures i < |other| && ch[i] == other[i] && (i == |ch| - 1 <==> i == |other| - 1)
  {
    if i > 0 {
      ChainUnique(img, ch, other, i - 1);
    }
    Link(img, ch, i);
    if i < |other| { Link(img, other, i); }
  }

  lemma Link(img: Image, ch: seq<int>, i: nat)
    requires ChainOf(img, ch) && i < |ch|
    ensures ch[i] in img.mem && (img.mem[ch[i]].next == 0 <==> i == |ch| - 1) && (i < |ch| - 1 ==> img.mem[ch[i]].next == ch[i + 1])
  {
    if i < |ch| - 1 { assert ch[i + 1] in ch; }
  }

  function Chosen(mem: Memory, ch: seq<int>): Store {
    Store(mem, Vlog(map[], 0, 0, 0), ch)
  }

  /** The items recovery keeps from a chain. */
  ghost function Kept(s: Store): set<Item> {
    set c, i | c in s.chain && 0 <= i < ITEMS && Replayed(s, c, i) :: At(s, c, i)
  }

  /** Recovery finds every item of `live`, and beyond them only items of `extra`. */
  ghost predicate Recovers(img: Image, live: set<Item>, extra: set<Item>) {
    exists ch :: ChainOf(img, ch) && live <= Kept(Chosen(img.mem, ch)) <= live + extra
  }

  /** Whatever lines reached memory, recovery succeeds. */
  ghost predicate CrashSafe(pm: Pm, live: set<Item>, extra: set<Item>) {
    forall img :: Allowed(img, pm) ==> Recovers(img, live, extra)
  }

  function LiveItems(s: Store, logOf: map<Key, int>): set<Item> {
    View(s, logOf).Values
  }

  /** The items whose FREE record still waits as a tombstone. */
  function PendingItems(s: Store, tombs: seq<Item>): set<Item> {
    set k | 0 <= k < |tombs| && tombs[k].Item? && IndexOf(tombs[k].ptr) >= 0 :: At(s, ChunkOf(tombs[k].ptr), IndexOf(tombs[k].ptr))
  }

  lemma KeptSame(s: Store, mem: Memory)
    requires Formed(s) && Holds(s, mem)
    ensures Kept(Chosen(mem, s.chain)) == Kept(s)
  {
    var s', t := s.(mem := mem), Chosen(mem, s.chain);
    forall c, i | c in s.chain && 0 <= i < ITEMS ensures At(t, c, i) == At(s, c, i) && (Replayed(t, c, i) <==> Replayed(s, c, i)) {
      SlotRoundTrip(c, i);
      HoldsCancels(s, mem, SlotPtr(c, i));
      assert Cancelled(t, SlotPtr(c, i)) <==> Cancelled(s', SlotPtr(c, i)) by { CancelledOnMem(t, s', SlotPtr(c, i)); }
    }
  }

  lemma CancelledOnMem(s: Store, t: Store, p: int)
    requires s.mem == t.mem && s.chain == t.chain
    ensures Cancelled(s, p) <==> Cancelled(t, p)
  {
    if Cancelled(s, p) {
      var d, j :| d in s.chain && 0 <= j < ITEMS && Cancels(s, At(s, d, j), p);
      assert Cancels(t, At(t, d, j), p);
    }
    if Cancelled(t, p) {
      var d, j :| d in t.chain && 0 <= j < ITEMS && Cancels(t, At(t, d, j), p);
      assert Cancels(s, At(s, d, j), p);
    }
  }

  /** Replay keeps the live items and those whose tombstone is pending. */
  lemma KeptIsLive(s: Store, tombs: seq<Item>, logOf: map<Key, int>)
    requires Formed(s) && Synced(s, tombs) && Named(s, logOf)
    ensures LiveItems(s, logOf) <= Kept(s) <= LiveItems(s, logOf) + PendingItems(s, tombs)
  {
    RecoveryIsLive(s, tombs, logOf);
    ViewKeys(s, logOf);
    forall item | item in LiveItems(s, logOf) ensures item in Kept(s) {
      var k :| k in logOf && View(s, logOf)[k] == item;
      assert Replayed(s, ChunkOf(logOf[k]), IndexOf(logOf[k]));
    }
    forall item | item in Kept(s) ensures item in LiveItems(s, logOf) + PendingItems(s, tombs) {
      var c, i :| c in s.chain && 0 <= i < ITEMS && Replayed(s, c, i) && At(s, c, i) == item;
      SlotRoundTrip(c, i);
      if Pending(tombs, SlotPtr(c, i)) {
        var k :| 0 <= k < |tombs| && tombs[k].Item? && tombs[k].ptr == SlotPtr(c, i);
        assert At(s, ChunkOf(tombs[k].ptr), IndexOf(tombs[k].ptr)) == item;
      } else {
        assert KeyOf(item) in logOf && View(s, logOf)[KeyOf(item)] == item;
      }
    }
  }

  /** A durable log that `alt` chooses recovers. */
  lemma LogRecovers(s: Store, tombs: seq<Item>, logOf: map<Key, int>, pm: Pm, img: Image)
    requires Formed(s) && Synced(s, tombs) && Named(s, logOf) && DurableLog(pm, s) && Allowed(img, pm)
    requires img.alt < |pm.roots| && pm.roots[img.alt] == {s.v.root}
    ensures Recovers(img, LiveItems(s, logOf), PendingItems(s, tombs))
  {
    DurableHolds(pm, s, img);
    KeptSame(s, img.mem);
    KeptIsLive(s, tombs, logOf);
    assert ChainOf(img, s.chain);
  }

  // ------------------------------------------------------------------ steps that keep a log durable

  /** The words of chunk `c` may hold the same in both. */
  ghost predicate Same(pm: Pm, pm': Pm, c: int) {
    && (c in pm.nexts ==> c in pm'.nexts && pm'.nexts[c] == pm.nexts[c])
    && (c in pm.ids ==> c in pm'.ids && pm'.ids[c] == pm.ids[c])
    && (c in pm.slots ==> c in pm'.slots && pm'.slots[c] == pm.slots[c])
  }

  lemma AsideKeeps(pm: Pm, pm': Pm, s: Store)
    requires DurableLog(pm, s) && Same(pm, pm', s.v.root) && forall c :: c in s.chain ==> Same(pm, pm', c)
    ensures DurableLog(pm', s)
  {
  }

  lemma FlushedIsDurable(pm: Pm, c: int, chunk: Chunk)
    ensures Durable(FlushChunk(pm, c, chunk), c, chunk)
    ensures forall d :: d != c ==> Same(pm, FlushChunk(pm, c, chunk), d) && Same(pm, Wipe(pm, c), d)
  {
  }

  /** What add_log leaves durable when it opens a new tail. */
  function Opened(pm: Pm, t: int, c: int, fresh0: Chunk): Pm {
    FlushNext(PutNext(FlushChunk(Wipe(pm, c), c, fresh0), t, c), t, c)
  }

  lemma OpenedDurable(pm: Pm, s: Store, c: int)
    requires Formed(s) && DurableLog(pm, s) && c !in s.chain && c != s.v.root
    ensures DurableLog(Opened(pm, s.v.tail, c, Chunk(0, s.v.nextId, Zeros())), Extend(s, c))
  {
    var pm', s', t := Opened(pm, s.v.tail, c, Chunk(0, s.v.nextId, Zeros())), Extend(s, c), s.v.tail;
    forall d | d in s'.chain ensures d in s'.mem && Durable(pm', d, s'.mem[d]) {
      if d != c {
        assert d in s.chain && Durable(pm, d, s.mem[d]);
      }
    }
    assert Durable(pm, s.v.root, s.mem[s.v.root]);
  }

  /** What writing one item and flushing it leaves durable. */
  function Written(pm: Pm, c: int, i: nat, item: Item): Pm {
    FlushSlot(PutSlot(pm, c, i, item), c, i, item)
  }

  lemma WrittenDurable(pm: Pm, s: Store, item: Item)
    requires Formed(s) && DurableLog(pm, s) && s.v.tree[s.v.tail].count < CLOSES
    ensures NextIndex(s) < |s.mem[s.v.tail].items| && NextIndex(s) < |s.v.tree[s.v.tail].bits|
    ensures DurableLog(Written(pm, s.v.tail, NextIndex(s), item), Fill(s, item))
  {
    Room(s);
    var pm', s', t, i := Written(pm, s.v.tail, NextIndex(s), item), Fill(s, item), s.v.tail, NextIndex(s);
    forall d | d in s'.chain ensures d in s'.mem && Durable(pm', d, s'.mem[d]) {
      assert Durable(pm, d, s.mem[d]);
      if d == t {
        assert pm'.slots[t] == Only(s.mem[t].items)[i := {item}] == Only(s'.mem[t].items);
      }
    }
    assert Durable(pm, s.v.root, s.mem[s.v.root]);
  }

  // ------------------------------------------------------------------ steps of a copy beside a log

  /** While `alt` chooses the old log and that log is durable, a crash finds the old log. */
  ghost predicate OldStands(pm: Pm, s: Store, alt: nat) {
    && DurableLog(pm, s) && pm.alts == {alt} && alt < 2 && |pm.roots| == 2 && pm.roots[alt] == {s.v.root}
  }

  ghost predicate AllOld(ps: seq<Pm>, s: Store, alt: nat) {
    forall k :: 0 <= k < |ps| ==> OldStands(ps[k], s, alt)
  }

  lemma OldIsSafe(pm: Pm, s: Store, alt: nat, tombs: seq<Item>, logOf: map<Key, int>)
    requires OldStands(pm, s, alt) && Formed(s) && Synced(s, tombs) && Named(s, logOf)
    ensures CrashSafe(pm, LiveItems(s, logOf), PendingItems(s, tombs))
  {
    forall img | Allowed(img, pm) ensures Recovers(img, LiveItems(s, logOf), PendingItems(s, tombs)) {
      LogRecovers(s, tombs, logOf, pm, img);
    }
  }

  /** Once the copy is durable and named by its root, either choice of `alt` recovers. */
  lemma EitherIsSafe(pm: Pm, s: Store, s': Store, alt: nat, tombs: seq<Item>, logOf: map<Key, int>, logOf': map<Key, int>)
    requires alt < 2 && |pm.roots| == 2 && pm.alts <= {alt, 1 - alt}
    requires alt in pm.alts ==> DurableLog(pm, s) && pm.roots[alt] == {s.v.root}
    requires DurableLog(pm, s') && pm.roots[1 - alt] == {s'.v.root}
    requires Formed(s) && Synced(s, tombs) && Named(s, logOf) && Formed(s') && Synced(s', []) && Named(s', logOf')
    requires View(s', logOf') == View(s, logOf)
    ensures CrashSafe(pm, LiveItems(s, logOf), PendingItems(s, tombs))
  {
    forall img | Allowed(img, pm) ensures Recovers(img, LiveItems(s, logOf), PendingItems(s, tombs)) {
      if img.alt == alt {
        LogRecovers(s, tombs, logOf, pm, img);
      } else {
        LogRecovers(s', [], logOf', pm, img);
        assert PendingItems(s', []) == {};
        var ch :| ChainOf(img, ch) && LiveItems(s', logOf') <= Kept(Chosen(img.mem, ch)) <= LiveItems(s', logOf') + {};
        assert LiveItems(s, logOf) <= Kept(Chosen(img.mem, ch)) <= LiveItems(s, logOf) + PendingItems(s, tombs);
      }
    }
  }

  /** A step on chunks and roots of the copy only. */
  ghost predicate Outside(pm: Pm, pm': Pm, s: Store, alt: nat) {
    && Same(pm, pm', s.v.root) && (forall c :: c in s.chain ==> Same(pm, pm', c))
    && pm'.alts == pm.alts && |pm'.roots| == |pm.roots| && (alt < |pm.roots| ==> pm'.roots[alt] == pm.roots[alt])
  }

  lemma OldStays(pm: Pm, pm': Pm, s: Store, alt: nat)
    requires OldStands(pm, s, alt) && Outside(pm, pm', s, alt)
    ensures OldStands(pm', s, alt)
  {
    AsideKeeps(pm, pm', s);
  }

  /** The copy so far: every full chunk is durable; of the tail the link and version are. */
  ghost predicate CopyDurable(pm: Pm, s: Store) {
    && (forall c :: c in s.chain && c != s.v.tail ==> c in s.mem && Durable(pm, c, s.mem[c]))
    && s.v.root in s.mem && Durable(pm, s.v.root, s.mem[s.v.root])
    && s.v.tail in pm.nexts && s.v.tail in pm.ids && s.v.tail in pm.slots && |pm.slots[s.v.tail]| == ITEMS
  }

  /** The states of the copy when it opens a new tail: the wiped chunk, the flushed chunk, the link, the flushed old tail. */
  function CopyOpens(pm: Pm, t: int, was: Chunk, c: int, fresh0: Chunk): (r: seq<Pm>)
    ensures |r| == 4
  {
    var p1 := Wipe(pm, c);
    var p2 := FlushChunk(p1, c, fresh0);
    var p3 := PutNext(p2, t, c);
    [p1, p2, p3, FlushChunk(p3, t, was.(next := c))]
  }

  lemma CopyOpensOk(pm: Pm, s: Store, s0: Store, alt: nat, c: int)
    requires OldStands(pm, s0, alt) && Formed(s) && CopyDurable(pm, s) && c !in s.chain && c != s.v.root
    requires c !in s0.chain && c != s0.v.root && s.v.tail !in s0.chain && s.v.tail != s0.v.root
    ensures var ps := CopyOpens(pm, s.v.tail, s.mem[s.v.tail], c, Chunk(0, s.v.nextId, Zeros()));
      AllOld(ps, s0, alt) && CopyDurable(ps[3], Extend(s, c))
  {
    hide OldStands, CopyDurable, Wipe, FlushChunk, PutNext;
    var t, fresh0 := s.v.tail, Chunk(0, s.v.nextId, Zeros());
    var ps := CopyOpens(pm, t, s.mem[t], c, fresh0);
    ChunkStays(pm, s0, alt, c, fresh0, 0);
    ChunkStays(ps[0], s0, alt, c, fresh0, 0);
    ChunkStays(ps[1], s0, alt, t, fresh0, c);
    ChunkStays(ps[2], s0, alt, t, s.mem[t].(next := c), 0);
    CopyOpensDurable(pm, s, c);
  }

  lemma CopyOpensDurable(pm: Pm, s: Store, c: int)
    requires Formed(s) && CopyDurable(pm, s) && c !in s.chain && c != s.v.root
    ensures CopyDurable(CopyOpens(pm, s.v.tail, s.mem[s.v.tail], c, Chunk(0, s.v.nextId, Zeros()))[3], Extend(s, c))
  {
    var t := s.v.tail;
    var ps := CopyOpens(pm, t, s.mem[t], c, Chunk(0, s.v.nextId, Zeros()));
    var s' := Extend(s, c);
    forall d | d in s'.chain && d != c ensures d in s'.mem && Durable(ps[3], d, s'.mem[d]) {
      if d != t { assert Durable(pm, d, s.mem[d]); }
    }
  }

  lemma CopyPutOk(pm: Pm, s: Store, s0: Store, alt: nat, item: Item)
    requires OldStands(pm, s0, alt) && Formed(s) && CopyDurable(pm, s) && s.v.tree[s.v.tail].count < CLOSES
    requires s.v.tail !in s0.chain && s.v.tail != s0.v.root
    ensures NextIndex(s) < |s.mem[s.v.tail].items| && NextIndex(s) < |s.v.tree[s.v.tail].bits|
    ensures OldStands(PutSlot(pm, s.v.tail, NextIndex(s), item), s0, alt)
    ensures CopyDurable(PutSlot(pm, s.v.tail, NextIndex(s), item), Fill(s, item))
  {
    Room(s);
    var pm' := PutSlot(pm, s.v.tail, NextIndex(s), item);
    OldStays(pm, pm', s0, alt);
    var s' := Fill(s, item);
    forall d | d in s'.chain && d != s.v.tail ensures d in s'.mem && Durable(pm', d, s'.mem[d]) {
      assert Durable(pm, d, s.mem[d]);
    }
  }

  /** The last flush of the copy makes all of it durable. */
  lemma CopyFlushOk(pm: Pm, s: Store, s0: Store, alt: nat)
    requires OldStands(pm, s0, alt) && Formed(s) && CopyDurable(pm, s) && s.v.tail !in s0.chain && s.v.tail != s0.v.root
    ensures var pm' := FlushChunk(pm, s.v.tail, s.mem[s.v.tail]); OldStands(pm', s0, alt) && DurableLog(pm', s)
  {
    var pm' := FlushChunk(pm, s.v.tail, s.mem[s.v.tail]);
    OldStays(pm, pm', s0, alt);
    FlushedIsDurable(pm, s.v.tail, s.mem[s.v.tail]);
  }

  /** The states of log_create_for_GC: both chunks wiped and flushed, the link, and the root of the other log. */
  function CopyStarts(pm: Pm, root: int, first: int, k: nat): (r: seq<Pm>)
    ensures |r| == 8
  {
    var p1 := Wipe(pm, root);
    var p2 := FlushChunk(p1, root, Chunk(0, 0, Zeros()));
    var p3 := Wipe(p2, first);
    var p4 := FlushChunk(p3, first, Chunk(0, 1, Zeros()));
    var p5 := PutNext(p4, root, first);
    var p6 := FlushNext(p5, root, first);
    var p7 := PutRoot(p6, k, root);
    [p1, p2, p3, p4, p5, p6, p7, FlushRoot(p7, k, root)]
  }

  /** Wiping, flushing or linking a chunk of the copy, or naming its root, leaves the old log standing. */
  lemma ChunkStays(pm: Pm, s: Store, alt: nat, c: int, chunk: Chunk, next: int)
    requires OldStands(pm, s, alt) && c !in s.chain && c != s.v.root
    ensures OldStands(Wipe(pm, c), s, alt) && OldStands(FlushChunk(pm, c, chunk), s, alt)
    ensures OldStands(PutNext(pm, c, next), s, alt) && OldStands(FlushNext(pm, c, next), s, alt)
  {
    OldStays(pm, Wipe(pm, c), s, alt);
    OldStays(pm, FlushChunk(pm, c, chunk), s, alt);
    OldStays(pm, PutNext(pm, c, next), s, alt);
    OldStays(pm, FlushNext(pm, c, next), s, alt);
  }

  lemma RootStays(pm: Pm, s: Store, alt: nat, root: int)
    requires OldStands(pm, s, alt)
    ensures OldStands(PutRoot(pm, 1 - alt, root), s, alt) && OldStands(FlushRoot(pm, 1 - alt, root), s, alt)
  {
    OldStays(pm, PutRoot(pm, 1 - alt, root), s, alt);
    OldStays(pm, FlushRoot(pm, 1 - alt, root), s, alt);
  }

  lemma CopyStartsOk(pm: Pm, mem: Memory, s0: Store, alt: nat, root: int, first: int)
    requires OldStands(pm, s0, alt) && alt < 2 && root != first
    requires root !in s0.chain && root != s0.v.root && first !in s0.chain && first != s0.v.root
    ensures AllOld(CopyStarts(pm, root, first, 1 - alt), s0, alt)
  {
    hide OldStands, Wipe, FlushChunk, PutNext, FlushNext, PutRoot, FlushRoot;
    var ps := CopyStarts(pm, root, first, 1 - alt);
    ChunkStays(pm, s0, alt, root, Chunk(0, 0, Zeros()), 0);
    ChunkStays(ps[0], s0, alt, root, Chunk(0, 0, Zeros()), 0);
    ChunkStays(ps[1], s0, alt, first, Chunk(0, 1, Zeros()), 0);
    ChunkStays(ps[2], s0, alt, first, Chunk(0, 1, Zeros()), 0);
    ChunkStays(ps[3], s0, alt, root, Chunk(0, 0, Zeros()), first);
    ChunkStays(ps[4], s0, alt, root, Chunk(0, 0, Zeros()), first);
    RootStays(ps[5], s0, alt, root);
    RootStays(ps[6], s0, alt, root);
  }

  lemma CopyStartsDurable(pm: Pm, mem: Memory, root: int, first: int, k: nat)
    requires root != first && k < |pm.roots|
    ensures CopyDurable(CopyStarts(pm, root, first, k)[7], Created(mem, root, first, 0)) && CopyStarts(pm, root, first, k)[7].roots[k] == {root}
  {
  }

  lemma OpenedStays(pm: Pm, t: int, c: int, chunk: Chunk)
    ensures Opened(pm, t, c, chunk).alts == pm.alts && Opened(pm, t, c, chunk).roots == pm.roots
  {
  }

  lemma WrittenStays(pm: Pm, c: int, i: nat, item: Item)
    ensures Written(pm, c, i, item).alts == pm.alts && Written(pm, c, i, item).roots == pm.roots
  {
  }

  lemma CopyOpensRoots(pm: Pm, t: int, was: Chunk, c: int, fresh0: Chunk)
    ensures CopyOpens(pm, t, was, c, fresh0)[3].roots == pm.roots
  {
  }

  lemma AllOldJoin(h: seq<Pm>, ps: seq<Pm>, s: Store, alt: nat)
    requires AllOld(h, s, alt) && AllOld(ps, s, alt)
    ensures AllOld(h + ps, s, alt)
  {
  }

  lemma AllOldAt(ps: seq<Pm>, s: Store, alt: nat, k: nat)
    requires AllOld(ps, s, alt) && k < |ps|
    ensures OldStands(ps[k], s, alt)
  {
  }

  /** The end of slow_GC: the flush of the last chunk, the flip of `alt` and its flush. */
  function Flips(pm: Pm, t: int, chunk: Chunk, alt: nat): (r: seq<Pm>)
    requires alt < 2
    ensures |r| == 3
  {
    var p1 := FlushChunk(pm, t, chunk);
    var p2 := PutAlt(p1, 1 - alt);
    [p1, p2, FlushAlt(p2, 1 - alt)]
  }

  lemma FlipsOk(pm: Pm, s: Store, s': Store, alt: nat, tombs: seq<Item>, logOf: map<Key, int>, logOf': map<Key, int>)
    requires OldStands(pm, s, alt) && CopyDurable(pm, s') && pm.roots[1 - alt] == {s'.v.root}
    requires s'.v.tail !in s.chain && s'.v.tail != s.v.root
    requires Formed(s) && Synced(s, tombs) && Named(s, logOf) && Formed(s') && Synced(s', []) && Named(s', logOf')
    requires View(s', logOf') == View(s, logOf)
    ensures s'.v.tail in s'.mem
    ensures var ps := Flips(pm, s'.v.tail, s'.mem[s'.v.tail], alt);
      AllSafe(ps, LiveItems(s, logOf), PendingItems(s, tombs)) && OldStands(ps[2], s', 1 - alt)
  {
    hide Synced, Named, View, CrashSafe;
    CopyFlushOk(pm, s', s, alt);
    var ps := Flips(pm, s'.v.tail, s'.mem[s'.v.tail], alt);
    OldIsSafe(ps[0], s, alt, tombs, logOf);
    AltAside(ps[0], s, s', 1 - alt);
    EitherIsSafe(ps[1], s, s', alt, tombs, logOf, logOf');
    EitherIsSafe(ps[2], s, s', alt, tombs, logOf, logOf');
  }

  lemma AltAside(pm: Pm, s: Store, s': Store, alt: nat)
    requires DurableLog(pm, s) && DurableLog(pm, s')
    ensures DurableLog(PutAlt(pm, alt), s) && DurableLog(PutAlt(pm, alt), s')
    ensures DurableLog(FlushAlt(PutAlt(pm, alt), alt), s) && DurableLog(FlushAlt(PutAlt(pm, alt), alt), s')
  {
  }

  /** Recovery succeeds at every point of a history. */
  ghost predicate AllSafe(ps: seq<Pm>, live: set<Item>, extra: set<Item>) {
    forall k :: 0 <= k < |ps| ==> CrashSafe(ps[k], live, extra)
  }

  lemma AllOldSafe(ps: seq<Pm>, s: Store, alt: nat, tombs: seq<Item>, logOf: map<Key, int>)
    requires AllOld(ps, s, alt) && Formed(s) && Synced(s, tombs) && Named(s, logOf)
    ensures AllSafe(ps, LiveItems(s, logOf), PendingItems(s, tombs))
  {
    forall k | 0 <= k < |ps| ensures CrashSafe(ps[k], LiveItems(s, logOf), PendingItems(s, tombs)) {
      OldIsSafe(ps[k], s, alt, tombs, logOf);
    }
  }

  lemma AllSafeJoin(h: seq<Pm>, ps: seq<Pm>, live: set<Item>, extra: set<Item>)
    requires AllSafe(h, live, extra) && AllSafe(ps, live, extra)
    ensures AllSafe(h + ps, live, extra)
  {
  }

  lemma AllOldOne(pm: Pm, s: Store, alt: nat)
    requires OldStands(pm, s, alt)
    ensures AllOld([pm], s, alt)
  {
  }

  // ------------------------------------------------------------------ the copy, one step at a time

  /** The copy so far: live items only, each named by `log2`. */
  ghost predicate Copied(s: Store, log2: map<Key, int>) {
    Formed(s) && Synced(s, []) && Named(s, log2) && Clean(s)
  }

  /** The old log stands at every point so far, and the copy is durable but for the items of its tail. */
  ghost predicate Guarded(s0: Store, s: Store, pm: Pm, history: seq<Pm>, alt: nat) {
    OldStands(pm, s0, alt) && AllOld(history, s0, alt) && CopyDurable(pm, s) && pm.roots[1 - alt] == {s.v.root}
  }

  lemma GuardedParts(s0: Store, s: Store, pm: Pm, history: seq<Pm>, alt: nat)
    requires Guarded(s0, s, pm, history, alt)
    ensures OldStands(pm, s0, alt) && AllOld(history, s0, alt) && CopyDurable(pm, s) && alt < 2 && |pm.roots| == 2 && pm.roots[1 - alt] == {s.v.root}
  {
  }

  lemma CopiedIs(s: Store, log2: map<Key, int>)
    requires Copied(s, log2)
    ensures Formed(s) && Synced(s, []) && Named(s, log2) && Clean(s)
  {
    hide Formed, Synced, Named, Clean;
  }

  /** What is known of the copy's tail. */
  lemma CopyTail(s: Store, log2: map<Key, int>)
    requires Copied(s, log2)
    ensures s.v.tail in s.v.tree && s.v.tail in s.mem && s.v.tail in s.chain && s.v.tree[s.v.tail].count <= CLOSES
    ensures LogIndex(s.v.tree[s.v.tail].count) < ITEMS <==> s.v.tree[s.v.tail].count < CLOSES
    ensures (forall c :: c in s.chain ==> IsChunk(c)) && s.v.root !in s.chain && IsChunk(s.v.root)
  {
    assert Fits(s.mem[s.v.tail], s.v.tree[s.v.tail]);
    ChunkCloses(s.v.tree[s.v.tail].count);
  }

  /** add_log_for_GC opens a new tail. */
  lemma CopyOpened(s0: Store, s: Store, log2: map<Key, int>, pm: Pm, history: seq<Pm>, alt: nat, c: int)
    requires Copied(s, log2) && Guarded(s0, s, pm, history, alt) && s.v.tree[s.v.tail].count == CLOSES
    requires IsChunk(c) && c !in s.chain && c != s.v.root && c !in s0.chain && c != s0.v.root
    requires s.v.tail in s.mem && s.v.tail !in s0.chain && s.v.tail != s0.v.root
    ensures var ps := CopyOpens(pm, s.v.tail, s.mem[s.v.tail], c, Chunk(0, s.v.nextId, Zeros()));
      Copied(Extend(s, c), log2) && Guarded(s0, Extend(s, c), ps[3], history + ps, alt) && View(Extend(s, c), log2) == View(s, log2)
  {
    hide Formed, Synced, Named, View, Clean, OldStands, AllOld, CopyDurable, CopyOpens, Longer;
    ExtendKeeps(s, c, [], log2);
    ExtendLonger(s, c);
    LongerClean(s, Extend(s, c), c);
    GuardedParts(s0, s, pm, history, alt);
    CopyOpensOk(pm, s, s0, alt, c);
    var ps := CopyOpens(pm, s.v.tail, s.mem[s.v.tail], c, Chunk(0, s.v.nextId, Zeros()));
    CopyOpensRoots(pm, s.v.tail, s.mem[s.v.tail], c, Chunk(0, s.v.nextId, Zeros()));
    AllOldJoin(history, ps, s0, alt);
    AllOldAt(ps, s0, alt, 3);
  }

  /** Copying one live item: what add_log_for_GC keeps. */
  lemma CopyItemOk(pm: Pm, s: Store, s0: Store, alt: nat, item: Item, log2: map<Key, int>)
    requires Formed(s) && Synced(s, []) && Named(s, log2) && Clean(s) && s.v.tree[s.v.tail].count < CLOSES
    requires Lasting(item) && KeyOf(item) !in log2
    requires OldStands(pm, s0, alt) && CopyDurable(pm, s) && s.v.tail !in s0.chain && s.v.tail != s0.v.root
    ensures s.v.tail in s.v.tree && s.v.tail in s.mem
    ensures NextIndex(s) < |s.mem[s.v.tail].items| && NextIndex(s) < |s.v.tree[s.v.tail].bits|
    ensures var s', l, p := Fill(s, item), log2[KeyOf(item) := SlotPtr(s.v.tail, NextIndex(s))], PutSlot(pm, s.v.tail, NextIndex(s), item);
      && Formed(s') && Synced(s', []) && Named(s', l) && Clean(s') && View(s', l) == View(s, log2)[KeyOf(item) := item]
      && OldStands(p, s0, alt) && CopyDurable(p, s') && p.roots == pm.roots
  {
    hide Formed, Synced, Named, View, At, Bit, Clean, Differs, OldStands, CopyDurable, Fill;
    Room(s);
    FillFormed(s, item);
    FillReads(s, item);
    var i := NextIndex(s);
    FillLasting(s, Fill(s, item), s.v.tail, i, item, []);
    FillNamed(s, Fill(s, item), s.v.tail, i, item, log2);
    FillClean(s, Fill(s, item), s.v.tail, i, item);
    CopyPutOk(pm, s, s0, alt, item);
  }

  /** add_log_for_GC copies a live item. */
  lemma CopyFilled(s0: Store, s: Store, log2: map<Key, int>, pm: Pm, history: seq<Pm>, alt: nat, item: Item)
    requires Copied(s, log2) && Guarded(s0, s, pm, history, alt) && s.v.tree[s.v.tail].count < CLOSES
    requires Lasting(item) && KeyOf(item) !in log2 && s.v.tail !in s0.chain && s.v.tail != s0.v.root
    ensures s.v.tail in s.v.tree && s.v.tail in s.mem
    ensures NextIndex(s) < |s.mem[s.v.tail].items| && NextIndex(s) < |s.v.tree[s.v.tail].bits|
    ensures var s', l, p := Fill(s, item), log2[KeyOf(item) := SlotPtr(s.v.tail, NextIndex(s))], PutSlot(pm, s.v.tail, NextIndex(s), item);
      Copied(s', l) && Guarded(s0, s', p, history + [p], alt) && View(s', l) == View(s, log2)[KeyOf(item) := item]
  {
    hide Formed, Synced, Named, View, Clean, OldStands, AllOld, CopyDurable, PutSlot, Fill;
    GuardedParts(s0, s, pm, history, alt);
    CopyItemOk(pm, s, s0, alt, item, log2);
    var p := PutSlot(pm, s.v.tail, NextIndex(s), item);
    AllOldOne(p, s0, alt);
    AllOldJoin(history, [p], s0, alt);
    FillRoot(s, item);
  }

  lemma FillRoot(s: Store, item: Item)
    requires s.v.tail in s.v.tree && s.v.tail in s.mem && NextIndex(s) < |s.mem[s.v.tail].items| && NextIndex(s) < |s.v.tree[s.v.tail].bits|
    ensures Fill(s, item).v.root == s.v.root
  {
  }

  /** log_create_for_GC. */
  lemma CopyStarted(s0: Store, mem: Memory, pm: Pm, history: seq<Pm>, alt: nat, root: int, first: int)
    requires OldStands(pm, s0, alt) && AllOld(history, s0, alt) && alt < 2 && root != first && IsChunk(root) && IsChunk(first)
    requires root !in s0.chain && root != s0.v.root && first !in s0.chain && first != s0.v.root
    ensures var ps := CopyStarts(pm, root, first, 1 - alt);
      Copied(Created(mem, root, first, 0), map[]) && Guarded(s0, Created(mem, root, first, 0), ps[7], history + ps, alt)
  {
    hide Formed, Synced, Named, Clean, OldStands, AllOld, CopyDurable, CopyStarts;
    TwoRoots(pm, s0, alt);
    CopyStartsOk(pm, mem, s0, alt, root, first);
    CopyStartsDurable(pm, mem, root, first, 1 - alt);
    var ps := CopyStarts(pm, root, first, 1 - alt);
    AllOldAt(ps, s0, alt, 7);
    AllOldJoin(history, ps, s0, alt);
    CreatedFormed(mem, root, first, 0);
    CreatedClean(mem, root, first, 0);
  }

  lemma TwoRoots(pm: Pm, s0: Store, alt: nat)
    requires OldStands(pm, s0, alt)
    ensures |pm.roots| == 2 && alt < 2
  {
  }

  /** The last flush, the flip of `alt` and its flush: every point is safe, and the copy stands as the log. */
  lemma CopyFlipped(s0: Store, s: Store, tombs: seq<Item>, logOf0: map<Key, int>, log2: map<Key, int>, pm: Pm, history: seq<Pm>, alt: nat)
    requires Formed(s0) && Synced(s0, tombs) && Named(s0, logOf0) && Copied(s, log2) && Guarded(s0, s, pm, history, alt)
    requires View(s, log2) == View(s0, logOf0) && s.v.tail !in s0.chain && s.v.tail != s0.v.root
    ensures alt < 2 && s.v.tail in s.mem
    ensures var ps := Flips(pm, s.v.tail, s.mem[s.v.tail], alt);
      AllSafe(history + ps, LiveItems(s0, logOf0), PendingItems(s0, tombs)) && OldStands(ps[2], s, 1 - alt)
  {
    hide Formed, Synced, Named, View, Clean, OldStands, AllOld, AllSafe, CopyDurable, Flips, LiveItems, PendingItems;
    GuardedParts(s0, s, pm, history, alt);
    FlipsOk(pm, s0, s, alt, tombs, logOf0, log2);
    AllOldSafe(history, s0, alt, tombs, logOf0);
    AllSafeJoin(history, Flips(pm, s.v.tail, s.mem[s.v.tail], alt), LiveItems(s0, logOf0), PendingItems(s0, tombs));
  }

  // ------------------------------------------------------------------ a crash while the log grows

  lemma SafeWithin(pm: Pm, live: set<Item>, extra: set<Item>, l: set<Item>, x: set<Item>)
    requires CrashSafe(pm, live, extra) && l <= live && live + extra <= l + x
    ensures CrashSafe(pm, l, x)
  {
    forall img | Allowed(img, pm) ensures Recovers(img, l, x) {
      assert Recovers(img, live, extra);
      var ch :| ChainOf(img, ch) && live <= Kept(Chosen(img.mem, ch)) <= live + extra;
      assert l <= Kept(Chosen(img.mem, ch)) <= l + x;
    }
  }

  lemma AllSafeWithin(ps: seq<Pm>, live: set<Item>, extra: set<Item>, l: set<Item>, x: set<Item>)
    requires AllSafe(ps, live, extra) && l <= live && live + extra <= l + x
    ensures AllSafe(ps, l, x)
  {
    forall k | 0 <= k < |ps| ensures CrashSafe(ps[k], l, x) { SafeWithin(ps[k], live, extra, l, x); }
  }

  /** A store that a crash may find made or not: safe when both are. */
  lemma EitherSafe(pm: Pm, put: Pm, saved: Pm, l: set<Item>, x: set<Item>)
    requires CrashSafe(pm, l, x) && CrashSafe(saved, l, x)
    requires forall img :: Allowed(img, put) ==> Allowed(img, pm) || Allowed(img, saved)
    ensures CrashSafe(put, l, x)
  {
    hide Allowed, Recovers;
  }

  lemma ItemEither(pm: Pm, c: int, i: nat, item: Item)
    ensures forall img :: Allowed(img, PutSlot(pm, c, i, item)) ==> Allowed(img, pm) || Allowed(img, Written(pm, c, i, item))
  {
    forall img | Allowed(img, PutSlot(pm, c, i, item)) ensures Allowed(img, pm) || Allowed(img, Written(pm, c, i, item)) {
      ItemMadeOrNot(pm, c, i, item, img);
    }
  }

  lemma ItemMadeOrNot(pm: Pm, c: int, i: nat, item: Item, img: Image)
    requires Allowed(img, PutSlot(pm, c, i, item))
    ensures Allowed(img, pm) || Allowed(img, Written(pm, c, i, item))
  {
    var put := PutSlot(pm, c, i, item);
    if c in pm.slots && i < |pm.slots[c]| {
      assert img.mem[c].items[i] in put.slots[c][i];
      var to := if img.mem[c].items[i] == item then Written(pm, c, i, item) else pm;
      forall d, j | d in to.slots && 0 <= j < |to.slots[d]| ensures img.mem[d].items[j] in to.slots[d][j] { assert img.mem[d].items[j] in put.slots[d][j]; }
      assert Allowed(img, to);
    }
  }

  lemma LinkEither(pm: Pm, c: int, next: int)
    requires c in pm.nexts
    ensures forall img :: Allowed(img, PutNext(pm, c, next)) ==> Allowed(img, pm) || Allowed(img, FlushNext(PutNext(pm, c, next), c, next))
  {
    forall img | Allowed(img, PutNext(pm, c, next)) ensures Allowed(img, pm) || Allowed(img, FlushNext(PutNext(pm, c, next), c, next)) {
      LinkMadeOrNot(pm, c, next, img);
    }
  }

  lemma LinkMadeOrNot(pm: Pm, c: int, next: int, img: Image)
    requires c in pm.nexts && Allowed(img, PutNext(pm, c, next))
    ensures Allowed(img, pm) || Allowed(img, FlushNext(PutNext(pm, c, next), c, next))
  {
    var put := PutNext(pm, c, next);
    var to := if img.mem[c].next == next then FlushNext(put, c, next) else pm;
    forall d, j | d in to.slots && 0 <= j < |to.slots[d]| ensures img.mem[d].items[j] in to.slots[d][j] { assert img.mem[d].items[j] in put.slots[d][j]; }
    assert Allowed(img, to);
  }

  /** Pending items are at slots that stay as they are. */
  lemma PendingKept(s: Store, s': Store, tombs: seq<Item>)
    requires Synced(s, tombs) && forall d, j :: d in s.chain && 0 <= j < ITEMS && At(s, d, j) != Empty ==> At(s', d, j) == At(s, d, j)
    ensures PendingItems(s', tombs) == PendingItems(s, tombs)
  {
    hide At, ChunkOf, IndexOf, SlotPtr;
    forall k | 0 <= k < |tombs| && tombs[k].Item? && IndexOf(tombs[k].ptr) >= 0
      ensures At(s', ChunkOf(tombs[k].ptr), IndexOf(tombs[k].ptr)) == At(s, ChunkOf(tombs[k].ptr), IndexOf(tombs[k].ptr))
    {
      assert Points(s, tombs[k]);
    }
  }

  /** A log stands before and after one item is written: every point between is safe within bounds that hold both. */
  lemma WriteSafe(pm: Pm, s: Store, s': Store, alt: nat, t: int, i: nat, item: Item, tombs: seq<Item>, tombs': seq<Item>,
      logOf: map<Key, int>, logOf': map<Key, int>, l: set<Item>, x: set<Item>)
    requires OldStands(pm, s, alt) && Formed(s) && Synced(s, tombs) && Named(s, logOf)
    requires OldStands(Written(pm, t, i, item), s', alt) && Formed(s') && Synced(s', tombs') && Named(s', logOf')
    requires l <= LiveItems(s, logOf) && LiveItems(s, logOf) + PendingItems(s, tombs) <= l + x
    requires l <= LiveItems(s', logOf') && LiveItems(s', logOf') + PendingItems(s', tombs') <= l + x
    ensures AllSafe([PutSlot(pm, t, i, item), Written(pm, t, i, item)], l, x)
  {
    hide OldStands, Formed, Synced, Named, LiveItems, PendingItems, PutSlot, Written, CrashSafe, Allowed;
    OldIsSafe(pm, s, alt, tombs, logOf);
    SafeWithin(pm, LiveItems(s, logOf), PendingItems(s, tombs), l, x);
    var saved := Written(pm, t, i, item);
    OldIsSafe(saved, s', alt, tombs', logOf');
    SafeWithin(saved, LiveItems(s', logOf'), PendingItems(s', tombs'), l, x);
    ItemEither(pm, t, i, item);
    EitherSafe(pm, PutSlot(pm, t, i, item), saved, l, x);
  }

  /** What a crash could leave at the steps of opening a new tail. */
  function OpenPoints(pm: Pm, t: int, c: int, fresh0: Chunk): (r: seq<Pm>)
    ensures |r| == 4
  {
    var p1 := Wipe(pm, c);
    var p2 := FlushChunk(p1, c, fresh0);
    [p1, p2, PutNext(p2, t, c), Opened(pm, t, c, fresh0)]
  }

  /** Opening a new tail changes nothing that recovery finds. */
  lemma OpenSafe(pm: Pm, s: Store, alt: nat, c: int, tombs: seq<Item>, logOf: map<Key, int>)
    requires OldStands(pm, s, alt) && Formed(s) && Synced(s, tombs) && Named(s, logOf)
    requires IsChunk(c) && c !in s.chain && c != s.v.root && s.v.tree[s.v.tail].count == CLOSES
    ensures AllSafe(OpenPoints(pm, s.v.tail, c, Chunk(0, s.v.nextId, Zeros())), LiveItems(s, logOf), PendingItems(s, tombs))
    ensures PendingItems(Extend(s, c), tombs) == PendingItems(s, tombs)
  {
    hide OldStands, Formed, Synced, Named, View, At, PendingItems, Wipe, FlushChunk, PutNext, FlushNext, CrashSafe, Allowed, IsChunk;
    TailLinked(pm, s, alt);
    var t, fresh0, s' := s.v.tail, Chunk(0, s.v.nextId, Zeros()), Extend(s, c);
    var ps := OpenPoints(pm, t, c, fresh0);
    ChunkStays(pm, s, alt, c, fresh0, 0);
    ChunkStays(ps[0], s, alt, c, fresh0, 0);
    OldIsSafe(ps[0], s, alt, tombs, logOf);
    OldIsSafe(ps[1], s, alt, tombs, logOf);
    ExtendKeeps(s, c, tombs, logOf);
    ExtendReads(s, c);
    PendingKept(s, s', tombs);
    OpenedStands(pm, s, alt, c);
    OldIsSafe(ps[3], s', alt, tombs, logOf);
    TailLinked(ps[1], s, alt);
    LinkEither(ps[1], t, c);
    EitherSafe(ps[1], ps[2], ps[3], LiveItems(s, logOf), PendingItems(s, tombs));
  }

  lemma OpenedStands(pm: Pm, s: Store, alt: nat, c: int)
    requires OldStands(pm, s, alt) && Formed(s) && c !in s.chain && c != s.v.root
    ensures OldStands(Opened(pm, s.v.tail, c, Chunk(0, s.v.nextId, Zeros())), Extend(s, c), alt)
  {
    hide DurableLog, Opened, Formed;
    OpenedDurable(pm, s, c);
    OpenedStays(pm, s.v.tail, c, Chunk(0, s.v.nextId, Zeros()));
  }

  lemma TailLinked(pm: Pm, s: Store, alt: nat)
    requires OldStands(pm, s, alt) && Formed(s)
    ensures s.v.tail in pm.nexts && s.v.tail in s.mem
  {
    assert Durable(pm, s.v.tail, s.mem[s.v.tail]);
  }

  /** The bounds for one item more, one item less, and one tombstone less. */
  lemma LiveMore(s: Store, s': Store, logOf: map<Key, int>, logOf': map<Key, int>, key: Key, item: Item)
    requires key !in View(s, logOf) && View(s', logOf') == View(s, logOf)[key := item]
    ensures LiveItems(s', logOf') == LiveItems(s, logOf) + {item}
  {
    hide View;
    var v, v' := View(s, logOf), View(s', logOf');
    forall x ensures x in v'.Values <==> x in v.Values || x == item {
      if x in v.Values { var k :| k in v && v[k] == x; assert v'[k] == x; }
      assert v'[key] == item;
    }
  }

  lemma LiveLess(s: Store, s': Store, logOf: map<Key, int>, logOf': map<Key, int>, key: Key)
    requires key in View(s, logOf) && View(s', logOf') == View(s, logOf) - {key}
    ensures LiveItems(s', logOf') <= LiveItems(s, logOf) <= LiveItems(s', logOf') + {View(s, logOf)[key]}
  {
    hide View;
    var v, v' := View(s, logOf), View(s', logOf');
    forall x | x in v'.Values ensures x in v.Values { var k :| k in v' && v'[k] == x; assert v[k] == x; }
    forall x | x in v.Values ensures x in v'.Values || x == v[key] { var k :| k in v && v[k] == x; assert k != key ==> v'[k] == x; }
  }

  lemma PendingWithin(s: Store, tombs: seq<Item>, more: seq<Item>)
    requires forall tomb :: tomb in tombs ==> tomb in more
    ensures PendingItems(s, tombs) <= PendingItems(s, more)
  {
    hide At, ChunkOf, IndexOf;
    forall k | 0 <= k < |tombs| ensures exists j :: 0 <= j < |more| && more[j] == tombs[k] { assert tombs[k] in more; }
  }

  lemma PendingFirst(s: Store, tomb: Item, tombs: seq<Item>)
    requires tomb.Item? && IndexOf(tomb.ptr) >= 0
    ensures PendingItems(s, [tomb] + tombs) == PendingItems(s, tombs) + {At(s, ChunkOf(tomb.ptr), IndexOf(tomb.ptr))}
  {
    hide At, ChunkOf, IndexOf;
    var all := [tomb] + tombs;
    assert all[0] == tomb;
    forall k | 0 <= k < |tombs| ensures all[1 + k] == tombs[k] { }
  }
}

/** cache_t of tcache.h: per bank a stack of blocks, and a bitmap of the banks that have any. */
module ThreadCache {
  import opened Interleave

  const MAX_CACHED := 32

  datatype Entry = Entry(slab: int, b: nat)

  datatype Cache = Cache(avail: seq<seq<Entry>>, bm: seq<bool>, now: nat)

  ghost predicate Shaped(c: Cache) {
    && |c.avail| == NBANKS && |c.bm| == NBANKS && c.now < NBANKS
    && (forall i :: 0 <= i < NBANKS ==> (c.bm[i] <==> c.avail[i] != []) && |c.avail[i]| <= MAX_CACHED)
  }

  /** tcache_create. */
  function NewCache(): (c: Cache)
    ensures Shaped(c) && forall i :: 0 <= i < NBANKS ==> c.avail[i] == []
  {
    Cache(seq(NBANKS, _ => []), seq(NBANKS, _ => false), NBANKS - 1)
  }

  /** An entry goes on top of a bank's stack; cache_bitmap_flip marks a bank that was empty. */
  function Push(c: Cache, cid: nat, e: Entry): Cache
    requires |c.avail| == NBANKS == |c.bm| && cid < NBANKS
  {
    c.(bm := if c.avail[cid] == [] then c.bm[cid := !c.bm[cid]] else c.bm, avail := c.avail[cid := c.avail[cid] + [e]])
  }

  lemma PushShaped(c: Cache, cid: nat, e: Entry)
    requires Shaped(c) && cid < NBANKS && |c.avail[cid]| < MAX_CACHED
    ensures Shaped(Push(c, cid, e))
  {
  }

  /** Blocks of slab `me` are pushed one after another, each to the bank of its id. */
  function PushAll(c: Cache, me: int, blocks: seq<nat>): (r: Cache)
    requires |c.avail| == NBANKS == |c.bm|
    ensures |r.avail| == NBANKS == |r.bm| && r.now == c.now
  {
    if blocks == [] then c else
      var b := blocks[|blocks| - 1];
      Push(PushAll(c, me, blocks[..|blocks| - 1]), b % NBANKS, Entry(me, b))
  }

  lemma PushMore(c: Cache, me: int, blocks: seq<nat>, b: nat)
    requires |c.avail| == NBANKS == |c.bm|
    ensures PushAll(c, me, blocks + [b]) == Push(PushAll(c, me, blocks), b % NBANKS, Entry(me, b))
  {
    assert (blocks + [b])[..|blocks|] == blocks;
  }

  /** No stack is full. */
  predicate Roomy(c: Cache) {
    |c.avail| == NBANKS == |c.bm| && forall i :: 0 <= i < NBANKS ==> |c.avail[i]| < MAX_CACHED
  }

  /** Bank `cid` is full, and it alone. */
  predicate Brimmed(c: Cache, cid: nat) {
    |c.avail| == NBANKS == |c.bm| && cid < NBANKS && forall i :: 0 <= i < NBANKS ==> if i == cid then |c.avail[i]| == MAX_CACHED else |c.avail[i]| < MAX_CACHED
  }

  /** cache_bitmap_findnxt: the next bank after `now` that has blocks, going round. */
  function FindNext(bm: seq<bool>, now: nat): (r: nat)
    requires |bm| == NBANKS && now < NBANKS && exists i :: 0 <= i < NBANKS && bm[i]
    ensures r < NBANKS && bm[r]
    ensures if exists i :: now < i < NBANKS && bm[i] then now < r && (forall i :: now < i < r ==> !bm[i])
            else r <= now && (forall i :: 0 <= i < r ==> !bm[i])
  {
    if exists i :: now < i < NBANKS && bm[i] then First(bm, now + 1) else First(bm, 0)
  }

  function First(bm: seq<bool>, from: nat): (r: nat)
    requires exists i :: from <= i < |bm| && bm[i]
    ensures from <= r < |bm| && bm[r] && forall i :: from <= i < r ==> !bm[i]
    decreases |bm| - from
  {
    if bm[from] then from else First(bm, from + 1)
  }

  /** The small path of pmalloc_malloc_to: the top of the next bank's stack. */
  function Pop(c: Cache): (r: (Cache, Entry))
    requires Shaped(c) && exists i :: 0 <= i < NBANKS && c.bm[i]
    ensures Shaped(r.0) && var now := FindNext(c.bm, c.now);
      c.avail[now] == r.0.avail[now] + [r.1] && r.0.now == now && forall i :: 0 <= i < NBANKS && i != now ==> r.0.avail[i] == c.avail[i]
  {
    var now := FindNext(c.bm, c.now);
    var n := |c.avail[now]| - 1;
    var e := c.avail[now][n];
    (Cache(c.avail[now := c.avail[now][..n]], if n == 0 then c.bm[now := !c.bm[now]] else c.bm, now), e)
  }

  // ------------------------------------------------------------------ whose blocks are cached where

  predicate Unique(s: seq<Entry>, slab: int) {
    forall i, j :: 0 <= i < j < |s| && s[i].slab == slab ==> s[i] != s[j]
  }

  /** The blocks of slab `me` that caches hold are those of `place`, each in one thread's cache, once, in the bank of its id. */
  ghost predicate Placed(me: int, caches: map<int, Cache>, place: map<nat, int>) {
    && (forall t :: t in caches ==> Shaped(caches[t]))
    && (forall t, i, e :: t in caches && 0 <= i < NBANKS && e in caches[t].avail[i] && e.slab == me ==>
        e.b % NBANKS == i && e.b in place && place[e.b] == t)
    && (forall t, i :: t in caches && 0 <= i < NBANKS ==> Unique(caches[t].avail[i], me))
    && (forall b :: b in place ==> place[b] in caches && Entry(me, b) in caches[place[b]].avail[b % NBANKS])
  }

  /** Before any block is handed out, the caches of threads that have just started hold none. */
  lemma NewPlaced(me: int, threads: set<int>)
    ensures Placed(me, map t | t in threads :: NewCache(), map[])
  {
  }

  /** A block of another slab goes on a stack. */
  lemma PushOther(me: int, caches: map<int, Cache>, place: map<nat, int>, t: int, cid: nat, e: Entry)
    requires Placed(me, caches, place) && t in caches && e.slab != me && cid < NBANKS && |caches[t].avail[cid]| < MAX_CACHED
    ensures Placed(me, caches[t := Push(caches[t], cid, e)], place)
  {
    PushShaped(caches[t], cid, e);
    var caches' := caches[t := Push(caches[t], cid, e)];
    forall u, i | u in caches' && 0 <= i < NBANKS ensures Unique(caches'[u].avail[i], me) { assert Unique(caches[u].avail[i], me); }
  }

  lemma PushPlaced(me: int, caches: map<int, Cache>, place: map<nat, int>, t: int, b: nat)
    requires Placed(me, caches, place) && t in caches && b !in place && |caches[t].avail[b % NBANKS]| < MAX_CACHED
    ensures |caches[t].avail| == NBANKS == |caches[t].bm|
    ensures Placed(me, caches[t := Push(caches[t], b % NBANKS, Entry(me, b))], place[b := t])
  {
    var cid := b % NBANKS;
    PushShaped(caches[t], cid, Entry(me, b));
    var caches' := caches[t := Push(caches[t], cid, Entry(me, b))];
    forall u, i | u in caches' && 0 <= i < NBANKS ensures Unique(caches'[u].avail[i], me) {
      assert Unique(caches[u].avail[i], me);
      if u == t && i == cid {
        var s := caches[t].avail[cid];
        forall k | 0 <= k < |s| ensures s[k] != Entry(me, b) { assert s[k] in s; }
      }
    }
  }

  /** One entry is gone from a stack of a thread's cache, and nothing else. */
  ghost predicate Taken(c: Cache, r: Cache, cid: nat, e: Entry, me: int)
    requires |c.avail| == NBANKS == |r.avail| && cid < NBANKS
  {
    && (forall k :: 0 <= k < NBANKS && k != cid ==> r.avail[k] == c.avail[k])
    && e in c.avail[cid] && Unique(r.avail[cid], me)
    && (forall x :: x in r.avail[cid] ==> x in c.avail[cid] && (x.slab == me ==> x != e))
    && (forall x :: x in c.avail[cid] && x != e ==> x in r.avail[cid])
  }

  lemma TakenPlaced(me: int, caches: map<int, Cache>, place: map<nat, int>, t: int, r: Cache, cid: nat, e: Entry)
    requires Placed(me, caches, place) && t in caches && Shaped(caches[t]) && Shaped(r) && cid < NBANKS && Taken(caches[t], r, cid, e, me)
    ensures e.slab == me ==> e.b in place && place[e.b] == t && Placed(me, caches[t := r], place - {e.b})
    ensures e.slab != me ==> Placed(me, caches[t := r], place)
  {
    hide Unique, Placed;
    if e.slab == me {
      assert e == Entry(me, e.b);
      TakenMine(me, caches, place, t, r, cid, e.b);
    } else {
      TakenOther(me, caches, place, t, r, cid, e);
    }
  }

  lemma TakenMine(me: int, caches: map<int, Cache>, place: map<nat, int>, t: int, r: Cache, cid: nat, b: nat)
    requires Placed(me, caches, place) && t in caches && Shaped(caches[t]) && Shaped(r) && cid < NBANKS && Taken(caches[t], r, cid, Entry(me, b), me)
    ensures b in place && place[b] == t && Placed(me, caches[t := r], place - {b})
  {
    hide Unique;
  }

  lemma TakenOther(me: int, caches: map<int, Cache>, place: map<nat, int>, t: int, r: Cache, cid: nat, e: Entry)
    requires Placed(me, caches, place) && t in caches && Shaped(caches[t]) && Shaped(r) && cid < NBANKS && Taken(caches[t], r, cid, e, me)
    requires e.slab != me
    ensures Placed(me, caches[t := r], place)
  {
    hide Unique;
  }

  lemma PopPlaced(me: int, caches: map<int, Cache>, place: map<nat, int>, t: int)
    requires Placed(me, caches, place) && t in caches && exists i :: 0 <= i < NBANKS && caches[t].bm[i]
    ensures var (c, e) := Pop(caches[t]);
      && (e.slab == me ==> e.b in place && place[e.b] == t && Placed(me, caches[t := c], place - {e.b}))
      && (e.slab != me ==> Placed(me, caches[t := c], place))
  {
    hide FindNext, Unique, Pop;
    var (c, e) := Pop(caches[t]);
    var now := FindNext(caches[t].bm, caches[t].now);
    StackPop(caches[t].avail[now], c.avail[now], e, me);
    TakenPlaced(me, caches, place, t, c, now, e);
  }

  lemma StackPop(s: seq<Entry>, r: seq<Entry>, e: Entry, me: int)
    requires s == r + [e] && Unique(s, me)
    ensures e in s && Unique(r, me)
    ensures forall x :: x in r ==> x in s && (x.slab == me ==> x != e)
    ensures forall x :: x in s && x != e ==> x in r
  {
    forall x | x in r ensures x in s && (x.slab == me ==> x != e) {
      var k :| 0 <= k < |r| && r[k] == x;
      assert s[k] == x && s[|r|] == e;
    }
    forall i, j | 0 <= i < j < |r| && r[i].slab == me ensures r[i] != r[j] { assert s[i] == r[i] && s[j] == r[j]; }
  }

  // ------------------------------------------------------------------ a cache is emptied from the front of each stack

  /** What a cache still counts for when the banks below `cid` and `i` entries of that bank have been put back. */
  function Left(c: Cache, cid: nat, i: nat): (r: Cache)
    requires |c.avail| == NBANKS && (cid < NBANKS ==> i <= |c.avail[cid]|)
    ensures |r.avail| == |r.bm| == NBANKS && r.now == c.now
  {
    Cache(seq(NBANKS, k requires 0 <= k < NBANKS => Rest(c, cid, i, k)), seq(NBANKS, k requires 0 <= k < NBANKS => Rest(c, cid, i, k) != []), c.now)
  }

  function Rest(c: Cache, cid: nat, i: nat, k: nat): seq<Entry>
    requires |c.avail| == NBANKS && k < NBANKS && (cid < NBANKS ==> i <= |c.avail[cid]|)
  {
    if k < cid then [] else if k == cid then c.avail[k][i..] else c.avail[k]
  }

  lemma LeftStart(c: Cache)
    requires Shaped(c)
    ensures Left(c, 0, 0) == c
  {
  }

  lemma LeftBank(c: Cache, cid: nat)
    requires |c.avail| == NBANKS && cid < NBANKS
    ensures Left(c, cid, |c.avail[cid]|) == Left(c, cid + 1, 0)
  {
    forall k: nat | k < NBANKS ensures Rest(c, cid, |c.avail[cid]|, k) == Rest(c, cid + 1, 0, k) { }
  }

  lemma LeftPlaced(me: int, caches: map<int, Cache>, place: map<nat, int>, t: int, c: Cache, cid: nat, i: nat)
    requires Shaped(c) && cid < NBANKS && i < |c.avail[cid]|
    requires Placed(me, caches, place) && t in caches && caches[t] == Left(c, cid, i)
    ensures var e := c.avail[cid][i];
      && (e.slab == me ==> e.b in place && place[e.b] == t && Placed(me, caches[t := Left(c, cid, i + 1)], place - {e.b}))
      && (e.slab != me ==> Placed(me, caches[t := Left(c, cid, i + 1)], place))
  {
    hide Unique, Placed;
    var e := c.avail[cid][i];
    var l, r := Left(c, cid, i), Left(c, cid, i + 1);
    assert l.avail[cid] == [e] + r.avail[cid];
    assert forall k :: 0 <= k < NBANKS && k != cid ==> r.avail[k] == l.avail[k];
    PlacedUnique(me, caches, place, t, cid);
    FrontPop(l.avail[cid], r.avail[cid], e, me);
    TakenPlaced(me, caches, place, t, r, cid, e);
  }

  lemma PlacedUnique(me: int, caches: map<int, Cache>, place: map<nat, int>, t: int, cid: nat)
    requires Placed(me, caches, place) && t in caches && cid < NBANKS
    ensures Shaped(caches[t]) && Unique(caches[t].avail[cid], me)
  {
  }

  lemma FrontPop(s: seq<Entry>, r: seq<Entry>, e: Entry, me: int)
    requires s == [e] + r && Unique(s, me)
    ensures e in s && Unique(r, me)
    ensures forall x :: x in r ==> x in s && (x.slab == me ==> x != e)
    ensures forall x :: x in s && x != e ==> x in r
  {
    forall x | x in r ensures x in s && (x.slab == me ==> x != e) {
      var k :| 0 <= k < |r| && r[k] == x;
      assert s[k + 1] == x && s[0] == e;
    }
    forall i, j | 0 <= i < j < |r| && r[i].slab == me ensures r[i] != r[j] { assert s[i + 1] == r[i] && s[j + 1] == r[j]; }
  }
}

/**
  The lookup caches in front of the radix tree: a direct-mapped cache of 16 leaves
  and behind it a list of 8 in which a leaf that is found moves up by one.
 */
module LeafCaches {
  const NCACHE := 16
  const NCACHE_L2 := 8
  const LEAF_INVALID := 1

  const LEAF_SPAN := 0x4000_0000    // two to the 30: the addresses under one leaf
  const FANOUT := 0x4_0000          // two to the 18: the elements of the root and of a leaf
  const PAGE := 0x1000

  /** rtree_leafkey. */
  function LeafKey(key: nat): (r: nat)
    ensures r != LEAF_INVALID
  {
    key / LEAF_SPAN * LEAF_SPAN
  }

  /** rtree_cache_direct_map. */
  function Slot(key: nat): (r: nat)
    ensures r < NCACHE
  {
    key / LEAF_SPAN % NCACHE
  }

  /** rtree_subkey, at the root and at a leaf. */
  function Sub0(key: nat): (r: nat)
    ensures r < FANOUT
  {
    key / LEAF_SPAN % FANOUT
  }

  function Sub1(key: nat): (r: nat)
    ensures r < FANOUT
  {
    key / PAGE % FANOUT
  }

  /** The page of an address, among the 48 bits that count. */
  function Page(key: nat): nat {
    key / PAGE % (FANOUT * FANOUT)
  }

  /** Two addresses lead to the same element exactly when they are on the same page. */
  lemma SamePage(x: nat, y: nat)
    ensures Sub0(x) == Sub0(y) && Sub1(x) == Sub1(y) <==> Page(x) == Page(y)
  {
    PageParts(x);
    PageParts(y);
  }

  lemma PageParts(x: nat)
    ensures Page(x) == Sub0(x) * FANOUT + Sub1(x)
  {
    var p := x / PAGE;
    assert x / LEAF_SPAN == p / FANOUT;
    assert p == p / FANOUT * FANOUT + p % FANOUT;
    var q := p / FANOUT;
    assert q == q / FANOUT * FANOUT + q % FANOUT;
  }

  /** A leaf key stands for its addresses: it has their slot and their place in the root. */
  lemma KeyOfLeaf(key: nat)
    ensures LeafKey(LeafKey(key)) == LeafKey(key) && Slot(LeafKey(key)) == Slot(key) && Sub0(LeafKey(key)) == Sub0(key)
  {
    var q := key / LEAF_SPAN;
    assert q * LEAF_SPAN / LEAF_SPAN == q;
  }

  /** `leaf` is the number of the leaf in the tree's list, so that 0 is no leaf. */
  datatype Elm = Elm(leafkey: nat, leaf: nat)

  datatype Caches = Caches(l1: seq<Elm>, l2: seq<Elm>)

  /** rtree_ctx_data_init. */
  function Empty(): Caches {
    Caches(seq(NCACHE, _ => Elm(LEAF_INVALID, 0)), seq(NCACHE_L2, _ => Elm(LEAF_INVALID, 0)))
  }

  predicate Valid(e: Elm) {
    e.leafkey != LEAF_INVALID
  }

  /** The entry holds the leaf at which the walk for its key ends. */
  predicate Names(e: Elm, root: seq<nat>)
    requires |root| == FANOUT
  {
    LeafKey(e.leafkey) == e.leafkey && e.leaf != 0 && root[Sub0(e.leafkey)] == e.leaf
  }

  /** Every entry in use names its true leaf, those of the first cache are in their slots, and no leaf key is there twice. */
  ghost predicate Ok(c: Caches, root: seq<nat>)
    requires |root| == FANOUT
  {
    && |c.l1| == NCACHE && |c.l2| == NCACHE_L2
    && (forall i :: 0 <= i < NCACHE && Valid(c.l1[i]) ==> Names(c.l1[i], root) && Slot(c.l1[i].leafkey) == i)
    && (forall i :: 0 <= i < NCACHE_L2 && Valid(c.l2[i]) ==> Names(c.l2[i], root))
    && (forall i, j :: 0 <= i < j < NCACHE_L2 && Valid(c.l2[i]) ==> c.l2[i].leafkey != c.l2[j].leafkey)
    && (forall i, j :: 0 <= i < NCACHE && 0 <= j < NCACHE_L2 && Valid(c.l1[i]) ==> c.l1[i].leafkey != c.l2[j].leafkey)
  }

  lemma EmptyOk(root: seq<nat>)
    requires |root| == FANOUT
    ensures Ok(Empty(), root)
  {
  }

  /** The uncached walk of two levels. */
  function Walk(root: seq<nat>, key: nat): nat
    requires |root| == FANOUT
  {
    root[Sub0(key)]
  }

  /** A hit, in either cache, is the leaf at which the walk ends. */
  lemma HitIsWalk(c: Caches, root: seq<nat>, key: nat)
    requires |root| == FANOUT && Ok(c, root)
    ensures c.l1[Slot(key)].leafkey == LeafKey(key) ==> c.l1[Slot(key)].leaf == Walk(root, key) != 0
    ensures forall i :: 0 <= i < NCACHE_L2 && c.l2[i].leafkey == LeafKey(key) ==> c.l2[i].leaf == Walk(root, key) != 0
  {
    KeyOfLeaf(key);
  }

  /** Neither cache has the key: what rtree_leaf_elm_lookup_hard asserts. */
  ghost predicate Absent(c: Caches, k: nat) {
    (forall i :: 0 <= i < |c.l1| ==> c.l1[i].leafkey != k) && (forall i :: 0 <= i < |c.l2| ==> c.l2[i].leafkey != k)
  }

  lemma MissIsAbsent(c: Caches, root: seq<nat>, key: nat)
    requires |root| == FANOUT && Ok(c, root) && c.l1[Slot(key)].leafkey != LeafKey(key)
    requires forall i :: 0 <= i < NCACHE_L2 ==> c.l2[i].leafkey != LeafKey(key)
    ensures Absent(c, LeafKey(key))
  {
    KeyOfLeaf(key);
  }

  /** What rtree_leaf_elm_lookup does when entry `i` of the list has the leaf. */
  function Promoted(c: Caches, slot: nat, i: nat): Caches
    requires slot < |c.l1| && i < |c.l2|
  {
    if i > 0 then Caches(c.l1[slot := c.l2[i]], c.l2[i := c.l2[i - 1]][i - 1 := c.l1[slot]])
    else Caches(c.l1[slot := c.l2[0]], c.l2[0 := c.l1[slot]])
  }

  lemma PromotedOk(c: Caches, root: seq<nat>, key: nat, i: nat)
    requires |root| == FANOUT && Ok(c, root) && i < NCACHE_L2 && c.l2[i].leafkey == LeafKey(key)
    ensures Ok(Promoted(c, Slot(key), i), root)
  {
    KeyOfLeaf(key);
    hide LeafKey, Slot, Sub0;
  }

  /** A hit in the list loses no entry: its own goes to the slot, and the slot's to the place before it, nearer the front. */
  lemma PromotedKeeps(c: Caches, slot: nat, i: nat)
    requires slot < |c.l1| && i < |c.l2|
    ensures var r := Promoted(c, slot, i);
      && multiset(r.l1) + multiset(r.l2) == multiset(c.l1) + multiset(c.l2) && r.l1 == c.l1[slot := c.l2[i]] && |r.l2| == |c.l2|
      && r.l2[if i == 0 then 0 else i - 1] == c.l1[slot] && (forall j :: 0 <= j < |c.l2| && j != i && j + 1 != i ==> r.l2[j] == c.l2[j])
  {
  }

  /** What rtree_leaf_elm_lookup_hard does: the list moves down and loses its last, the slot's entry becomes its first. */
  function Replaced(c: Caches, slot: nat, e: Elm): Caches
    requires slot < |c.l1| && |c.l2| == NCACHE_L2
  {
    Caches(c.l1[slot := e], [c.l1[slot]] + c.l2[..NCACHE_L2 - 1])
  }

  lemma ReplacedOk(c: Caches, root: seq<nat>, key: nat)
    requires |root| == FANOUT && Ok(c, root) && Absent(c, LeafKey(key)) && Walk(root, key) != 0
    ensures Ok(Replaced(c, Slot(key), Elm(LeafKey(key), Walk(root, key))), root)
  {
    KeyOfLeaf(key);
    hide LeafKey, Slot, Sub0;
  }

  /** A replacement loses the last entry of the list and no other. */
  lemma ReplacedKeeps(c: Caches, slot: nat, e: Elm)
    requires slot < |c.l1| && |c.l2| == NCACHE_L2
    ensures var r := Replaced(c, slot, e);
      multiset(r.l1) + multiset(r.l2) + multiset{c.l2[NCACHE_L2 - 1]} == multiset(c.l1) + multiset(c.l2) + multiset{e} && r.l2[0] == c.l1[slot]
  {
    assert c.l2 == c.l2[..NCACHE_L2 - 1] + [c.l2[NCACHE_L2 - 1]];
  }

  /** The tree has only gained leaves. */
  predicate Grown(root: seq<nat>, root': seq<nat>) {
    |root| == |root'| && forall i :: 0 <= i < |root| && root[i] != 0 ==> root'[i] == root[i]
  }

  /** Leaves that any thread adds do not disturb another thread's caches. */
  lemma GrownOk(c: Caches, root: seq<nat>, root': seq<nat>)
    requires |root| == FANOUT && Ok(c, root) && Grown(root, root')
    ensures Ok(c, root')
  {
    hide LeafKey, Slot, Sub0;
  }

  // ------------------------------------------------------------------ histories

  /** A lookup by this thread, with or without creating the leaf, or the creation of a leaf by another thread. */
  datatype Event = Lookup(key: nat, init: bool) | Elsewhere(sub: nat, leaf: nat)

  /** Where the list has the key, or its length. */
  function Find(l2: seq<Elm>, k: nat, from: nat): (i: nat)
    requires from <= |l2|
    ensures from <= i <= |l2| && (i < |l2| ==> l2[i].leafkey == k) && forall j :: from <= j < i ==> l2[j].leafkey != k
    decreases |l2| - from
  {
    if from == |l2| || l2[from].leafkey == k then from else Find(l2, k, from + 1)
  }

  /** rtree_leaf_elm_lookup against a tree in which the leaf to be created would be `made`: the caches, the tree, and the leaf. */
  function Looked(c: Caches, root: seq<nat>, key: nat, init: bool, made: nat): (Caches, seq<nat>, nat)
    requires |root| == FANOUT && |c.l1| == NCACHE && |c.l2| == NCACHE_L2
  {
    var k, slot := LeafKey(key), Slot(key);
    if c.l1[slot].leafkey == k then (c, root, c.l1[slot].leaf)
    else
      var i := Find(c.l2, k, 0);
      if i < NCACHE_L2 then (Promoted(c, slot, i), root, c.l2[i].leaf)
      else
        var root' := if init && root[Sub0(key)] == 0 then root[Sub0(key) := made] else root;
        if root'[Sub0(key)] == 0 then (c, root', 0)
        else (Replaced(c, slot, Elm(k, root'[Sub0(key)])), root', root'[Sub0(key)])
  }

  /** One lookup gives what the walk gives, in the tree as it then is, and keeps the caches right. */
  lemma LookedIsWalk(c: Caches, root: seq<nat>, key: nat, init: bool, made: nat)
    requires |root| == FANOUT && Ok(c, root) && made != 0
    ensures var (c', root', leaf) := Looked(c, root, key, init, made);
      Ok(c', root') && Grown(root, root') && leaf == Walk(root', key) && (init ==> leaf != 0) && (!init ==> root' == root)
  {
    hide LeafKey, Slot, Sub0, Names;
    var k, slot := LeafKey(key), Slot(key);
    HitIsWalk(c, root, key);
    if c.l1[slot].leafkey != k {
      var i := Find(c.l2, k, 0);
      if i < NCACHE_L2 {
        PromotedOk(c, root, key, i);
      } else {
        MissIsAbsent(c, root, key);
        var root' := if init && root[Sub0(key)] == 0 then root[Sub0(key) := made] else root;
        GrownOk(c, root, root');
        if root'[Sub0(key)] != 0 { ReplacedOk(c, root', key); }
      }
    }
  }

  /** What a lookup has found, the next one under the same leaf finds at once, and moves nothing. */
  lemma Remembers(c: Caches, root: seq<nat>, key: nat, init: bool, made: nat, again: nat, init': bool, made': nat)
    requires |root| == FANOUT && Ok(c, root) && made != 0 && LeafKey(again) == LeafKey(key)
    ensures var (c', root', leaf) := Looked(c, root, key, init, made);
      && |root'| == FANOUT && |c'.l1| == NCACHE && |c'.l2| == NCACHE_L2
      && (leaf != 0 ==> Looked(c', root', again, init', made') == (c', root', leaf))
  {
    KeyOfLeaf(key);
    KeyOfLeaf(again);
    LookedIsWalk(c, root, key, init, made);
    hide LeafKey, Slot, Sub0, Names;
  }

  /** The answers of a history, from caches `c` and a tree `root`; leaves are numbered as they are created. */
  function Run(c: Caches, root: seq<nat>, h: seq<Event>, next: nat): seq<nat>
    requires |root| == FANOUT && |c.l1| == NCACHE && |c.l2| == NCACHE_L2
    decreases |h|
  {
    if h == [] then []
    else match h[0]
      case Elsewhere(sub, leaf) =>
        Run(c, if sub < FANOUT && root[sub] == 0 then root[sub := leaf] else root, h[1..], next)
      case Lookup(key, init) =>
        var r := Looked(c, root, key, init, next + 1);
        if |r.0.l1| == NCACHE && |r.0.l2| == NCACHE_L2 then [r.2] + Run(r.0, r.1, h[1..], next + 1) else []
  }

  /** The answers of the same history without caches. */
  function PlainRun(root: seq<nat>, h: seq<Event>, next: nat): seq<nat>
    requires |root| == FANOUT
    decreases |h|
  {
    if h == [] then []
    else match h[0]
      case Elsewhere(sub, leaf) =>
        PlainRun(if sub < FANOUT && root[sub] == 0 then root[sub := leaf] else root, h[1..], next)
      case Lookup(key, init) =>
        var root' := if init && root[Sub0(key)] == 0 then root[Sub0(key) := next + 1] else root;
        [root'[Sub0(key)]] + PlainRun(root', h[1..], next + 1)
  }

  /** For every history of lookups and leaf creations, by this thread or others, the caches change no answer. */
  lemma {:induction false} CachesChangeNothing(c: Caches, root: seq<nat>, h: seq<Event>, next: nat)
    requires |root| == FANOUT && Ok(c, root)
    ensures Run(c, root, h, next) == PlainRun(root, h, next)
    decreases |h|
  {
    hide LeafKey, Slot, Sub0, Names;
    if h != [] {
      match h[0]
      case Elsewhere(sub, leaf) =>
        var root' := if sub < FANOUT && root[sub] == 0 then root[sub := leaf] else root;
        GrownOk(c, root, root');
        CachesChangeNothing(c, root', h[1..], next);
      case Lookup(key, init) =>
        LookedIsWalk(c, root, key, init, next + 1);
        HitIsWalk(c, root, key);
        var r := Looked(c, root, key, init, next + 1);
        CachesChangeNothing(r.0, r.1, h[1..], next + 1);
    }
  }
}

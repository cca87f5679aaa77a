/**
  The radix tree of extents: a root, leaves that are made once and never freed, and
  each thread's caches.  Seen through any thread's caches it is a map from pages to
  leaf words.
 */
module RadixTree {
  import opened LeafBits
  import opened LeafCaches

  const MAX_PSZ_IDX := 63

  class Rtree {
    const root: array<nat>            // the number of a leaf, or 0
    var leaves: seq<array<Word>>      // leaf `i + 1`

    ghost predicate Valid()
      reads this, root
    {
      && root.Length == FANOUT
      && (forall s :: 0 <= s < FANOUT ==> root[s] <= |leaves|)
      && (forall s, t :: 0 <= s < t < FANOUT && root[s] != 0 ==> root[s] != root[t])
      && (forall i :: 0 <= i < |leaves| ==> leaves[i].Length == FANOUT)
      && (forall i, j :: 0 <= i < j < |leaves| ==> leaves[i] != leaves[j])
    }

    /** The word of the page of `key`. */
    ghost function Bits(key: nat): Word
      requires Valid()
      reads this, root, leaves
    {
      var l := root[Sub0(key)];
      if l == 0 then 0 else leaves[l - 1][Sub1(key)]
    }

    constructor ()
      ensures Valid() && fresh(root) && leaves == [] && forall k :: Bits(k) == 0
    {
      root := new nat[FANOUT](_ => 0);
      leaves := [];
    }

    /** rtree_leaf_init: the leaf is made unless another thread has made it. */
    method LeafInit(sub: nat) returns (leaf: nat)
      requires Valid() && sub < FANOUT
      modifies this, root
      ensures Valid() && leaf == root[sub] != 0
      ensures root[..] == if old(root[sub]) == 0 then old(root[..])[sub := old(|leaves|) + 1] else old(root[..])
      ensures old(leaves) <= leaves && fresh(leaves[old(|leaves|)..])
      ensures forall k :: Bits(k) == old(Bits(k))
    {
      leaf := root[sub];
      if leaf == 0 {
        var made := new Word[FANOUT](_ => 0);
        assert forall i :: 0 <= i < |leaves| ==> allocated(leaves[i]);
        leaves := leaves + [made];
        leaf := |leaves|;
        root[sub] := leaf;
      }
    }
  }

  class Context {
    const cache: array<Elm>
    const l2: array<Elm>

    ghost function View(): Caches
      reads cache, l2
    {
      Caches(cache[..], l2[..])
    }

    ghost predicate Valid(tree: Rtree)
      reads cache, l2, tree, tree.root
    {
      tree.Valid() && cache != l2 && Ok(View(), tree.root[..])
    }

    constructor (tree: Rtree)
      requires tree.Valid()
      ensures Valid(tree) && fresh(cache) && fresh(l2)
    {
      cache := new Elm[NCACHE](_ => Elm(LEAF_INVALID, 0));
      l2 := new Elm[NCACHE_L2](_ => Elm(LEAF_INVALID, 0));
      new;
      assert View() == Empty();
      EmptyOk(tree.root[..]);
    }

    /** One turn of RTREE_CACHE_CHECK_L2 that hits. */
    method Promote(slot: nat, i: nat)
      requires cache != l2 && slot < cache.Length && i < l2.Length
      modifies cache, l2
      ensures View() == Promoted(old(View()), slot, i)
    {
      var e := l2[i];
      if i > 0 {
        l2[i] := l2[i - 1];
        l2[i - 1] := cache[slot];
      } else {
        l2[0] := cache[slot];
      }
      cache[slot] := e;
    }

    /** The cache replacement of rtree_leaf_elm_lookup_hard. */
    method Replace(slot: nat, e: Elm)
      requires cache != l2 && slot < cache.Length && l2.Length == NCACHE_L2
      modifies cache, l2
      ensures View() == Replaced(old(View()), slot, e)
    {
      forall i | 0 < i < NCACHE_L2 {
        l2[i] := l2[i - 1];
      }
      l2[0] := cache[slot];
      cache[slot] := e;
      assert l2[..] == [old(cache[slot])] + old(l2[..])[..NCACHE_L2 - 1];
    }

    /** rtree_leaf_elm_lookup_hard. */
    method LookupHard(tree: Rtree, key: nat, dependent: bool, init: bool) returns (leaf: nat)
      requires Valid(tree) && Absent(View(), LeafKey(key)) && !(dependent && init) && (dependent ==> Walk(tree.root[..], key) != 0)
      requires cache.Length == NCACHE && l2.Length == NCACHE_L2
      modifies cache, l2, tree, tree.root
      ensures tree.Valid() && Grows(old(tree.leaves), tree.leaves) && fresh(tree.leaves[old(|tree.leaves|)..])
      ensures forall k :: tree.Bits(k) == old(tree.Bits(k))
      ensures tree.root[..] == if init && old(tree.root[Sub0(key)]) == 0 then old(tree.root[..])[Sub0(key) := old(|tree.leaves|) + 1] else old(tree.root[..])
      ensures leaf == tree.root[Sub0(key)]
      ensures View() == if leaf == 0 then old(View()) else Replaced(old(View()), Slot(key), Elm(LeafKey(key), leaf))
    {
      leaf := tree.root[Sub0(key)];
      if init && leaf == 0 {
        leaf := tree.LeafInit(Sub0(key));
      }
      if !dependent && leaf == 0 {
        return;
      }
      Replace(Slot(key), Elm(LeafKey(key), leaf));
    }

    /** rtree_leaf_elm_lookup: the element of the uncached walk, whatever the caches hold. */
    method Lookup(tree: Rtree, key: nat, dependent: bool, init: bool) returns (leaf: nat, sub: nat)
      requires Valid(tree) && !(dependent && init) && (dependent ==> Walk(tree.root[..], key) != 0)
      modifies cache, l2, tree, tree.root
      ensures (View(), tree.root[..], leaf) == Looked(old(View()), old(tree.root[..]), key, init, old(|tree.leaves|) + 1)
      ensures Valid(tree) && leaf == Walk(tree.root[..], key) && sub == Sub1(key) && (init || dependent ==> leaf != 0)
      ensures !init ==> tree.root[..] == old(tree.root[..])
      ensures Grows(old(tree.leaves), tree.leaves) && Grown(old(tree.root[..]), tree.root[..])
      ensures forall i :: 0 <= i < |tree.leaves| ==> tree.leaves[i] in old(tree.leaves) || fresh(tree.leaves[i])
      ensures forall k :: tree.Bits(k) == old(tree.Bits(k))
    {
      hide Ok, Sub0, Slot, Sub1, Promoted, Replaced;
      var slot, k := Slot(key), LeafKey(key);
      ghost var c, root := View(), tree.root[..];
      OkSizes(c, root);
      HitIsWalk(c, root, key);
      LookedIsWalk(c, root, key, init, |tree.leaves| + 1);
      sub := Sub1(key);
      if cache[slot].leafkey == k {
        leaf := cache[slot].leaf;
        return;
      }
      var i: nat := 0;
      while i < NCACHE_L2
        invariant i <= NCACHE_L2 && forall j :: 0 <= j < i ==> l2[j].leafkey != k
        invariant View() == c && tree.root[..] == root && tree.leaves == old(tree.leaves)
        invariant forall x :: tree.Bits(x) == old(tree.Bits(x))
      {
        if l2[i].leafkey == k {
          leaf := l2[i].leaf;
          assert Find(c.l2, k, 0) == i;
          Promote(slot, i);
          return;
        }
        i := i + 1;
      }
      MissIsAbsent(c, root, key);
      leaf := LookupHard(tree, key, dependent, init);
      forall i | 0 <= i < |tree.leaves| ensures tree.leaves[i] in old(tree.leaves) || fresh(tree.leaves[i]) {
        assert if i < |old(tree.leaves)| then tree.leaves[i] == old(tree.leaves)[i] else tree.leaves[i] in tree.leaves[old(|tree.leaves|)..];
      }
    }

    /** rtree_read: the word of the page, or nothing when no leaf has been made for it. */
    method Read(tree: Rtree, key: nat, dependent: bool) returns (found: bool, bits: Word)
      requires Valid(tree) && (dependent ==> Walk(tree.root[..], key) != 0)
      modifies cache, l2, tree, tree.root
      ensures Valid(tree) && bits == old(tree.Bits(key)) && (found <==> Walk(old(tree.root[..]), key) != 0)
      ensures forall k :: tree.Bits(k) == old(tree.Bits(k))
    {
      hide Ok, Sub0, Slot, Sub1, Looked;
      var leaf, sub := Lookup(tree, key, dependent, false);
      found := leaf != 0;
      bits := if found then tree.leaves[leaf - 1][sub] else 0;
      assert bits == tree.Bits(key);
    }

    /** rtree_write: exactly the page of `key` gets the new fields. */
    method Write(tree: Rtree, key: nat, extent: Word, szind: nat, slab: bool)
      requires Valid(tree) && extent != 0 && ExtentOf(tree.Bits(key)) == 0
      modifies cache, l2, tree, tree.root, tree.leaves
      ensures Valid(tree) && forall k :: tree.Bits(k) == if Page(k) == Page(key) then Pack(extent, szind, slab) else old(tree.Bits(k))
      ensures ExtentOf(tree.Bits(key)) == extent <==> Canonical(extent) && extent % 2 == 0
      ensures SzindOf(tree.Bits(key)) == szind <==> szind < HIGH
      ensures SlabOf(tree.Bits(key)) == slab <==> slab || extent % 2 == 0
    {
      hide Ok, Sub0, Slot, Sub1, Looked, Page, Pack, ExtentOf, SzindOf, SlabOf, Canonical;
      PackReads(extent, szind, slab);
      var leaf, sub := Lookup(tree, key, false, true);
      Store(tree, key, leaf, sub, Pack(extent, szind, slab));
    }

    /** rtree_szind_slab_update: the pointer stays. */
    method Update(tree: Rtree, key: nat, szind: nat, slab: bool)
      requires Valid(tree) && Walk(tree.root[..], key) != 0 && szind < HIGH
      modifies cache, l2, tree, tree.root, tree.leaves
      ensures Valid(tree)
      ensures forall k :: tree.Bits(k) == if Page(k) == Page(key) then Pack(ExtentOf(old(tree.Bits(key))), szind, slab) else old(tree.Bits(k))
    {
      hide Ok, Sub0, Slot, Sub1, Looked, Page, Pack, ExtentOf, SetSlab, SetSzind;
      var leaf, sub := Lookup(tree, key, true, false);
      ghost var was := tree.Bits(key);
      SetsArePack(was, 0, szind, slab);
      Store(tree, key, leaf, sub, SetSlab(tree.leaves[leaf - 1][sub], slab));
      assert tree.Bits(key) == SetSlab(was, slab);
      Store(tree, key, leaf, sub, SetSzind(tree.leaves[leaf - 1][sub], szind));
    }

    /** rtree_clear. */
    method Clear(tree: Rtree, key: nat)
      requires Valid(tree) && Walk(tree.root[..], key) != 0 && ExtentOf(tree.Bits(key)) != 0
      modifies cache, l2, tree, tree.root, tree.leaves
      ensures Valid(tree) && forall k :: tree.Bits(k) == if Page(k) == Page(key) then Pack(0, MAX_PSZ_IDX, false) else old(tree.Bits(k))
    {
      hide Ok, Sub0, Slot, Sub1, Looked, Page, Pack, ExtentOf;
      var leaf, sub := Lookup(tree, key, true, false);
      Store(tree, key, leaf, sub, Pack(0, MAX_PSZ_IDX, false));
    }

    /** A store to the element of `key` changes the word of its page only. */
    static method Store(tree: Rtree, key: nat, leaf: nat, sub: nat, bits: Word)
      requires tree.Valid() && leaf == tree.root[Sub0(key)] != 0 && sub == Sub1(key)
      modifies tree.leaves[leaf - 1]
      ensures tree.Valid() && tree.leaves[leaf - 1][sub] == bits
      ensures forall k :: tree.Bits(k) == if Page(k) == Page(key) then bits else old(tree.Bits(k))
    {
      hide Sub0, Sub1, Page;
      tree.leaves[leaf - 1][sub] := bits;
      forall k ensures tree.Bits(k) == if Page(k) == Page(key) then bits else old(tree.Bits(k)) {
        SamePage(k, key);
        assert Sub0(k) != Sub0(key) && tree.root[Sub0(k)] != 0 ==> tree.root[Sub0(k)] != leaf;
      }
    }
  }

  predicate Grows(a: seq<array<Word>>, b: seq<array<Word>>) {
    a <= b
  }

  lemma OkSizes(c: Caches, root: seq<nat>)
    requires |root| == FANOUT && Ok(c, root)
    ensures |c.l1| == NCACHE && |c.l2| == NCACHE_L2
  {
  }
}

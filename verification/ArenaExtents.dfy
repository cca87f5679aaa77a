/**
  extent.c and the bump region of arena.c for one arena, as one object: the page
  map, the dirty and muzzy free extents and the fresh region, with the extents
  other arenas own standing beside them in the same page map.
 */
module ArenaExtents {
  import opened PageClasses
  import opened ExtentPool
  import opened ExtentSpace

  ghost predicate Agreed(e: Extent, s: Span)
    reads e
  {
    && e.arena == s.arena && e.first == s.first && e.npages == s.npages && e.slab == s.slab && e.state == s.state
    && (e.slab ==> e.state == Active)
  }

  class Arena {
    const me: int
    const dirty: Extents
    const muzzy: Extents
    var leaves: Leaves
    var memoryNew: int
    var npageNew: nat
    ghost var g: Ledger

    ghost function Region(): set<int>
      reads this
    {
      Pages(memoryNew, npageNew)
    }

    /** The extent objects hold what the ledger says; only active extents are slabs. */
    ghost predicate Agrees()
      reads this, g.view.Keys
    {
      forall e :: e in g.view ==> Agreed(e, g.view[e])
    }

    ghost predicate Pools()
      reads this, dirty, dirty.lru, muzzy, muzzy.lru
    {
      && dirty != muzzy && dirty.state == Dirty && dirty.delayCoalesce
      && muzzy.state == Muzzy && !muzzy.delayCoalesce
      && dirty.Valid() && Listed(me, g.view, Dirty, dirty.lru)
      && muzzy.Valid() && Listed(me, g.view, Muzzy, muzzy.lru)
    }

    ghost predicate ValidBut(but: set<Extent>)
      reads this, g.view.Keys, dirty, dirty.lru, muzzy, muzzy.lru
    {
      Ok(me, g, leaves, Region(), but) && Agrees() && Pools()
    }

    ghost predicate Valid()
      reads this, g.view.Keys, dirty, dirty.lru, muzzy, muzzy.lru
    {
      ValidBut({})
    }

    /** An active extent of this arena that is no slab and in nobody's hands. */
    ghost predicate InTransit(e: Extent)
      reads this
    {
      e in g.view && g.view[e].arena == me && g.view[e].state == Active && !g.view[e].slab && e !in g.live
    }

    /** The extent part of arena_new: a first chunk is mapped beside what the other arenas hold already. */
    constructor (me: int, chunk: int, leaves: Leaves, ghost g0: Ledger)
      requires Ok(me, g0, leaves, {}, {}) && g0.mine == {}
      requires Pages(chunk, CHUNK) !! g0.space && RunsBounded(g0.space + Pages(chunk, CHUNK))
      requires forall e :: e in g0.view ==> Agreed(e, g0.view[e]) && g0.view[e].arena != me
      ensures Valid() && this.me == me && memoryNew == chunk && npageNew == CHUNK
      ensures g == g0.(space := g0.space + Pages(chunk, CHUNK), mine := g0.mine + Pages(chunk, CHUNK))
    {
      hide Ok, Pages, Listed, Extents.Valid;
      NoneListed(me, g0.view, Dirty);
      NoneListed(me, g0.view, Muzzy);
      this.me := me;
      this.leaves, memoryNew, npageNew := leaves, chunk, CHUNK;
      dirty := new Extents(Dirty, true);
      muzzy := new Extents(Muzzy, false);
      MapOk(me, g0, leaves, Pages(chunk, CHUNK));
      g := g0.(space := g0.space + Pages(chunk, CHUNK), mine := g0.mine + Pages(chunk, CHUNK));
      new;
    }

    // ---------------------------------------------------------------- in and out of the free lists

    /** extent_activate_locked. */
    method TakeOut(ex: Extents, e: Extent)
      requires Valid() && (ex == dirty || ex == muzzy) && e in ex.lru
      modifies this, ex, e
      ensures Valid() && g == Recast(old(g), e, old(g).view[e].(state := Active)) && InTransit(e)
      ensures leaves == old(leaves) && memoryNew == old(memoryNew) && npageNew == old(npageNew)
      ensures ex.lru == Without(old(ex.lru), e) && |ex.lru| < |old(ex.lru)| && ex.npages + old(g.view)[e].npages == old(ex.npages)
    {
      hide Ok, Listed, Pages, Extents.Valid, Without, SumPages;
      TakeOutOk(ex, e);
      PagesAgree(e);
      ex.Remove(e);
      e.state := Active;
      g := Recast(g, e, g.view[e].(state := Active));
    }

    lemma TakeOutOk(ex: Extents, e: Extent)
      requires Valid() && (ex == dirty || ex == muzzy) && e in ex.lru
      ensures e in g.view && g.view[e].arena == me && g.view[e].state == ex.state && !g.view[e].slab && e !in g.live
      ensures ex.state != Active && (e in dirty.lru <==> ex == dirty)
      ensures e in muzzy.lru <==> ex == muzzy
      ensures var s := g.view[e].(state := Active);
        && Ok(me, Recast(g, e, s), leaves, Region(), {})
        && Listed(me, Recast(g, e, s).view, ex.state, Without(ex.lru, e))
        && (ex == dirty ==> Listed(me, Recast(g, e, s).view, Muzzy, muzzy.lru))
        && (ex == muzzy ==> Listed(me, Recast(g, e, s).view, Dirty, dirty.lru))
      ensures |Without(ex.lru, e)| < |ex.lru|
    {
      assert Agreed(e, g.view[e]);
      var s := g.view[e].(state := Active);
      RecastOk(me, g, leaves, Region(), {}, e, s);
      RecastListed(me, g.view, Dirty, dirty.lru, e, s);
      RecastListed(me, g.view, Muzzy, muzzy.lru, e, s);
      WithoutShorter(ex.lru, e);
    }

    /** extent_deactivate_locked. */
    method PutBack(ex: Extents, e: Extent, ghost but: set<Extent>)
      requires ValidBut(but) && (ex == dirty || ex == muzzy) && InTransit(e) && e !in but
      modifies this, ex, e
      ensures ValidBut(but) && g == Recast(old(g), e, old(g).view[e].(state := ex.state))
      ensures leaves == old(leaves) && memoryNew == old(memoryNew) && npageNew == old(npageNew)
      ensures ex.lru == old(ex.lru) + [e] && ex.npages == old(ex.npages) + old(g.view)[e].npages
    {
      hide Ok, Listed, Pages, Extents.Valid, SumPages;
      PutBackOk(ex, e, but);
      e.state := ex.state;
      ex.Insert(e);
      g := Recast(g, e, g.view[e].(state := ex.state));
    }

    lemma PutBackOk(ex: Extents, e: Extent, but: set<Extent>)
      requires ValidBut(but) && (ex == dirty || ex == muzzy) && InTransit(e) && e !in but
      ensures 1 <= e.npages <= LARGEST && e.npages == g.view[e].npages && e !in dirty.lru && e !in muzzy.lru
      ensures var s := g.view[e].(state := ex.state);
        && Ok(me, Recast(g, e, s), leaves, Region(), but)
        && Listed(me, Recast(g, e, s).view, ex.state, ex.lru + [e])
        && (ex == dirty ==> Listed(me, Recast(g, e, s).view, Muzzy, muzzy.lru))
        && (ex == muzzy ==> Listed(me, Recast(g, e, s).view, Dirty, dirty.lru))
    {
      assert Agreed(e, g.view[e]);
      var s := g.view[e].(state := ex.state);
      SpanBounded(g.view, g.owner, g.space, e);
      RecastOk(me, g, leaves, Region(), but, e, s);
      RecastListed(me, g.view, Dirty, dirty.lru, e, s);
      RecastListed(me, g.view, Muzzy, muzzy.lru, e, s);
    }

    // ---------------------------------------------------------------- merging

    /** extent_lock_from_addr run alone. A slab descriptor fails the arena test that follows, so it counts as none. */
    method Neighbour(p: int, inactiveOnly: bool) returns (x: Extent?)
      requires Valid()
      ensures x != null ==> x in g.view && At(leaves, p).Ext? && At(leaves, p).e == x && (inactiveOnly ==> !At(leaves, p).slab)
      ensures x != null ==> p in g.owner && g.owner[p] == x && !g.view[x].slab && (p == g.view[x].first || p == g.view[x].Last())
      ensures x == null ==> forall st :: !Mergeable(g.view, me, st, At(leaves, p), inactiveOnly)
    {
      match At(leaves, p)
      case Ext(e, slab) =>
        NamedAtEnd(g.view, g.owner, leaves, p);
        x := if inactiveOnly && slab then null else e;
      case _ =>
        x := null;
    }

    /** extent_merge_impl, the second extent going out of use. */
    method Merge(a: Extent, b: Extent)
      requires Valid() && InTransit(a) && InTransit(b) && a != b
      requires g.view[b].first == g.view[a].first + g.view[a].npages
      modifies this, a
      ensures Valid() && g == Merged(old(g), a, b)
      ensures leaves == MergeLeaves(old(leaves), a, old(g).view[a], old(g).view[b])
      ensures memoryNew == old(memoryNew) && npageNew == old(npageNew)
    {
      hide Ok, Owned, Listed, Pages, MergeOwner, Extents.Valid, Extents.Filed, SumPages;
      MergedListed(a, b);
      leaves := leaves[a.first + a.npages - 1 := Null][b.first := Null];
      var last := b.first + b.npages - 1;
      a.npages := a.npages + b.npages;
      leaves := leaves[a.first := Ext(a, false)][last := Ext(a, false)];
      g := Merged(g, a, b);
    }

    lemma MergedListed(a: Extent, b: Extent)
      requires Valid() && InTransit(a) && InTransit(b) && a != b
      requires g.view[b].first == g.view[a].first + g.view[a].npages
      ensures Ok(me, Merged(g, a, b), MergeLeaves(leaves, a, g.view[a], g.view[b]), Region(), {})
      ensures Listed(me, MergeView(g.view, a, b), Dirty, dirty.lru) && Listed(me, MergeView(g.view, a, b), Muzzy, muzzy.lru)
      ensures a !in dirty.lru && a !in muzzy.lru
    {
      MergeOk(me, g, leaves, Region(), a, b);
      MergeListed(me, g.view, Dirty, dirty.lru, a, b);
      MergeListed(me, g.view, Muzzy, muzzy.lru, a, b);
    }

    /** extent_coalesce; the source drops the list mutex around the merge. */
    method Coalesce(ex: Extents, inner: Extent, outer: Extent, forward: bool)
      requires Valid() && InTransit(inner) && (ex == dirty || ex == muzzy) && outer in ex.lru && outer in g.view
      requires forward ==> g.view[outer].first == g.view[inner].first + g.view[inner].npages
      requires !forward ==> g.view[inner].first == g.view[outer].first + g.view[outer].npages
      modifies this, ex, inner, outer
      ensures Valid() && inner != outer && inner in old(g.view) && outer in old(g.view)
      ensures g == old(g).(view := Joined(old(g.view), inner, outer, forward), owner := g.owner)
      ensures g.owner.Keys == old(g.owner.Keys) && InTransit(if forward then inner else outer)
      ensures memoryNew == old(memoryNew) && npageNew == old(npageNew)
      ensures ex.lru == Without(old(ex.lru), outer) && |ex.lru| < |old(ex.lru)| && ex.npages + old(g.view)[outer].npages == old(ex.npages)
      ensures var a, b := if forward then inner else outer, if forward then outer else inner;
        leaves == MergeLeaves(old(leaves), a, old(g.view)[a], old(g.view)[b])
    {
      hide Ok, Agrees, Pools, Region, Without;
      TakeOutOk(ex, outer);
      TakeOut(ex, outer);
      if forward {
        Merge(inner, outer);
      } else {
        Merge(outer, inner);
      }
    }

    lemma NeighbourFits(ex: Extents, e: Extent, x: Extent, p: int)
      requires Valid() && (ex == dirty || ex == muzzy) && InTransit(e)
      requires x in g.view && p in g.owner && g.owner[p] == x && (p == g.view[x].first || p == g.view[x].Last())
      ensures e.arena == me && e.first == g.view[e].first && e.npages == g.view[e].npages
      ensures x.arena == g.view[x].arena && x.state == g.view[x].state
      ensures x.arena == me && x.state == ex.state ==> x in ex.lru && x != e
      ensures x != e && p == g.view[e].first + g.view[e].npages ==> g.view[x].first == p
      ensures x != e && p == g.view[e].first - 1 ==> g.view[e].first == g.view[x].first + g.view[x].npages
    {
      assert Agreed(e, g.view[e]) && Agreed(x, g.view[x]);
      if x != e { Borders(g.view, g.owner, e, x, p); }
    }

    lemma TransitAgrees(e: Extent)
      requires Valid() && InTransit(e)
      ensures e.arena == me && e.first == g.view[e].first && e.npages == g.view[e].npages && e.state == Active
    {
      assert Agreed(e, g.view[e]);
    }

    /** Reads the leaf at `p`, which borders `e`, and merges with what it names where extent_can_coalesce agrees. */
    method TryOne(ex: Extents, e: Extent, forward: bool, inactiveOnly: bool, ghost v0: View, ghost o0: Owner, ghost l0: Leaves, ghost e0: Extent,
        ghost pool: seq<Extent>) returns (r: Extent, merged: bool, ghost outer: Extent)
      requires Valid() && InTransit(e) && (ex == dirty || ex == muzzy)
      requires Grown(v0, o0, l0, e0, g.view, leaves, e, pool, inactiveOnly) && Remains(pool, ex.lru)
      modifies this, ex, g.view.Keys
      ensures Valid() && InTransit(r) && Grown(v0, o0, l0, e0, g.view, leaves, r, pool, inactiveOnly) && Remains(pool, ex.lru)
      ensures g == old(g).(view := g.view, owner := g.owner) && g.owner.Keys == old(g.owner.Keys) && g.view.Keys <= old(g.view.Keys)
      ensures memoryNew == old(memoryNew) && npageNew == old(npageNew)
      ensures ex.npages + g.view[r].npages == old(ex.npages) + old(g.view)[e].npages
      ensures merged ==> |ex.lru| < |old(ex.lru)| && outer in old(ex.lru) && ex.lru == Without(old(ex.lru), outer)
      ensures merged ==> outer != e && e in old(g.view) && outer in old(g.view)
      ensures merged ==> g.view == Joined(old(g.view), e, outer, forward) && r == if forward then e else outer
      ensures !merged ==> r == e && g == old(g) && leaves == old(leaves) && ex.lru == old(ex.lru)
      ensures !merged ==> var s := g.view[r];
        !Mergeable(g.view, me, ex.state, At(leaves, if forward then s.first + s.npages else s.first - 1), inactiveOnly)
    {
      hide Ok, Agrees, Pools, Region, Without, Absorbed, Grown, Remains, Joined, MergeLeaves;
      TransitAgrees(e);
      r, merged, outer := e, false, e;
      var p := if forward then e.first + e.npages else e.first - 1;
      var x := Neighbour(p, inactiveOnly);
      if x != null {
        NeighbourFits(ex, e, x, p);
        if x.arena == me && x.state == ex.state {
          SpansSized();
          RemainsIn(pool, ex.lru, x);
          JoinedPages(g.view, e, x, forward);
          GrownStep(v0, o0, l0, e0, g.view, leaves, e, pool, inactiveOnly, x, forward);
          RemainsWithout(pool, ex.lru, x);
          Coalesce(ex, e, x, forward);
          r, merged, outer := if forward then e else x, true, x;
        }
      }
    }

    /** extent_try_coalesce_impl. */
    method TryCoalesce(ex: Extents, e1: Extent, inactiveOnly: bool, ghost v0: View, ghost o0: Owner, ghost l0: Leaves, ghost e0: Extent,
        ghost pool: seq<Extent>) returns (e: Extent, coalesced: bool, ghost outer: Extent)
      requires Valid() && InTransit(e1) && (ex == dirty || ex == muzzy)
      requires Grown(v0, o0, l0, e0, g.view, leaves, e1, pool, inactiveOnly) && Remains(pool, ex.lru)
      modifies this, ex, g.view.Keys
      ensures Valid() && InTransit(e) && Grown(v0, o0, l0, e0, g.view, leaves, e, pool, inactiveOnly) && Remains(pool, ex.lru)
      ensures g == old(g).(view := g.view, owner := g.owner) && g.owner.Keys == old(g.owner.Keys)
      ensures memoryNew == old(memoryNew) && npageNew == old(npageNew)
      ensures ex.npages + g.view[e].npages == old(ex.npages) + old(g.view)[e1].npages
      ensures |ex.lru| <= |old(ex.lru)|
      ensures coalesced ==> ex.delayCoalesce && |ex.lru| < |old(ex.lru)|
      ensures g.view.Keys <= old(g.view.Keys)
      ensures !coalesced ==> Settled(g.view, leaves, me, ex.state, g.view[e], inactiveOnly)
      ensures ex.delayCoalesce && !coalesced ==> e == e1 && g.view == old(g.view) && ex.lru == old(ex.lru)
      ensures coalesced ==> e1 in old(g.view) && outer in old(g.view) && outer != e1 && outer in old(ex.lru) && ex.lru == Without(old(ex.lru), outer)
      ensures coalesced ==> (g.view == Joined(old(g.view), e1, outer, true) && e == e1) || (g.view == Joined(old(g.view), e1, outer, false) && e == outer)
    {
      hide Ok, Agrees, Pools, Region, Without, Joined, Grown, Remains;
      e, coalesced, outer := e1, false, e1;
      var again := true;
      while again
        invariant Valid() && InTransit(e) && Grown(v0, o0, l0, e0, g.view, leaves, e, pool, inactiveOnly) && Remains(pool, ex.lru)
        invariant g == old(g).(view := g.view, owner := g.owner) && g.owner.Keys == old(g.owner.Keys) && g.view.Keys <= old(g.view.Keys)
        invariant memoryNew == old(memoryNew) && npageNew == old(npageNew)
        invariant ex.npages + g.view[e].npages == old(ex.npages) + old(g.view)[e1].npages
        invariant |ex.lru| <= |old(ex.lru)| && !coalesced
        invariant ex.delayCoalesce ==> e == e1 && g.view == old(g.view) && ex.lru == old(ex.lru)
        invariant !again ==> Settled(g.view, leaves, me, ex.state, g.view[e], inactiveOnly)
        decreases |ex.lru|, again
      {
        again := false;
        var merged;
        e, merged, outer := TryOne(ex, e, true, inactiveOnly, v0, o0, l0, e0, pool);
        if merged {
          if ex.delayCoalesce {
            return e, true, outer;
          }
          again := true;
        }
        e, merged, outer := TryOne(ex, e, false, inactiveOnly, v0, o0, l0, e0, pool);
        if merged {
          if ex.delayCoalesce {
            return e, true, outer;
          }
          again := true;
        }
      }
    }

    // ---------------------------------------------------------------- freeing

    lemma SlabReads(e: Extent)
      requires Valid() && e in g.view
      ensures e.first == g.view[e].first && e.npages == g.view[e].npages >= 1 && e.slab == g.view[e].slab
      ensures e.slab ==> forall p :: g.view[e].Has(p) ==> At(leaves, p) == Slab(g.view[e].vslab)
      ensures g.view[e].state == Active ==> e !in dirty.lru && e !in muzzy.lru
    {
      assert Agreed(e, g.view[e]) && (e.slab ==> LeafOf(e, g.view[e], leaves));
    }

    lemma UnslabOk(e: Extent, leaves: Leaves, leaves': Leaves)
      requires Ok(me, g, leaves, Region(), {}) && Pools() && e in g.view && e !in g.live && g.view[e].state == Active
      requires Within(g.view[e], leaves, leaves') && Deregistered(e, g.view[e], leaves')
      ensures var s := g.view[e].(slab := false);
        && Ok(me, Recast(g, e, s), leaves', Region(), {})
        && Listed(me, Recast(g, e, s).view, Dirty, dirty.lru) && Listed(me, Recast(g, e, s).view, Muzzy, muzzy.lru)
    {
      var s := g.view[e].(slab := false);
      DeregisterOk(me, g, leaves, leaves', Region(), e);
      RecastListed(me, g.view, Dirty, dirty.lru, e, s);
      RecastListed(me, g.view, Muzzy, muzzy.lru, e, s);
    }

    /** The loop of extent_interior_deregister; rtree_clear expects every leaf it clears to be set. */
    method ClearInterior(first: int, n: nat)
      requires forall p :: first < p < first + n ==> At(leaves, p) != Null
      modifies `leaves
      ensures forall p :: first < p < first + n - 1 ==> At(leaves, p) == Null
      ensures forall p :: !(first < p < first + n - 1) ==> At(leaves, p) == At(old(leaves), p)
    {
      var i := 1;
      while i < n - 1
        invariant 1 <= i && (i <= n - 1 || i == 1)
        invariant forall p :: first < p < first + i ==> At(leaves, p) == Null
        invariant forall p :: !(first < p < first + i) ==> At(leaves, p) == At(old(leaves), p)
      {
        assert At(leaves, first + i) != Null;
        ghost var before := leaves;
        leaves := leaves[first + i := Null];
        assert forall p :: p != first + i ==> At(leaves, p) == At(before, p);
        i := i + 1;
      }
    }

    /** extent_interior_deregister. The two ends keep a set slab bit. */
    method InteriorDeregister(e: Extent)
      requires forall p :: e.first < p < e.first + e.npages ==> At(leaves, p) != Null
      modifies `leaves
      ensures At(leaves, e.first) == At(leaves, e.first + e.npages - 1) == Ext(e, true)
      ensures forall p :: e.first < p < e.first + e.npages - 1 ==> At(leaves, p) == Null
      ensures forall p :: p != e.first && !(e.first < p < e.first + e.npages) && p != e.first + e.npages - 1 ==>
        At(leaves, p) == At(old(leaves), p)
    {
      hide At, WriteEnds;
      ClearInterior(e.first, e.npages);
      leaves := WriteEnds(leaves, e.first, e.first + e.npages - 1, Ext(e, true));
    }

    /** The slab part of extent_record. */
    method Unslab(e: Extent)
      requires Valid() && e in g.view && g.view[e].arena == me && g.view[e].state == Active && e !in g.live && e.slab
      modifies this, e
      ensures Valid() && InTransit(e) && g == Recast(old(g), e, old(g).view[e].(slab := false))
      ensures Deregistered(e, g.view[e], leaves) && Within(g.view[e], old(leaves), leaves)
      ensures memoryNew == old(memoryNew) && npageNew == old(npageNew)
    {
      hide Ok, Listed, Pages, Extents.Valid, At;
      SlabReads(e);
      ghost var s := g.view[e];
      assert forall p :: s.first < p < s.first + s.npages ==> s.Has(p);
      InteriorDeregister(e);
      UnslabOk(e, old(leaves), leaves);
      e.slab := false;
      g := Recast(g, e, s.(slab := false));
    }

    lemma FiledSettled(ex: Extents, e: Extent, inactiveOnly: bool)
      requires Valid() && e in g.view && Settled(g.view, leaves, me, ex.state, g.view[e], inactiveOnly)
      ensures var s := g.view[e].(state := ex.state); Settled(g.view[e := s], leaves, me, ex.state, s, inactiveOnly)
    {
      StaysSettled(me, g.view, g.owner, leaves, ex.state, e, inactiveOnly);
    }

    /** The first page of an extent that is no slab names it. */
    lemma FirstNames(e: Extent)
      requires Valid() && InTransit(e)
      ensures At(leaves, e.first).Ext? && At(leaves, e.first).e == e
    {
      hide Ok, Pools;
      assert Agreed(e, g.view[e]);
      EndsNamed(me, g, leaves, Region(), e);
    }

    /** The loop of extent_record over a free list that coalesces late. */
    method CoalesceAll(ex: Extents, e: Extent) returns (r: Extent)
      requires Valid() && InTransit(e) && (ex == dirty || ex == muzzy)
      modifies this, ex, g.view.Keys
      ensures Valid() && InTransit(r)
      ensures Grown(old(g.view), old(g.owner), old(leaves), e, g.view, leaves, r, old(ex.lru), true) && Remains(old(ex.lru), ex.lru)
      ensures g == old(g).(view := g.view, owner := g.owner) && g.owner.Keys == old(g.owner.Keys) && g.view.Keys <= old(g.view.Keys)
      ensures memoryNew == old(memoryNew) && npageNew == old(npageNew)
      ensures ex.npages + g.view[r].npages == old(ex.npages) + old(g.view)[e].npages
      ensures Settled(g.view, leaves, me, ex.state, g.view[r], true)
    {
      hide Ok, Agrees, Pools, Region, Grown, Remains, Settled;
      var coalesced;
      ghost var outer;
      PagesOwned();
      GrownSelf(g.view, g.owner, leaves, e, ex.lru, true);
      RemainsSelf(ex.lru);
      r, coalesced, outer := TryCoalesce(ex, e, true, old(g.view), old(g.owner), old(leaves), e, old(ex.lru));
      while coalesced
        invariant Valid() && InTransit(r)
        invariant Grown(old(g.view), old(g.owner), old(leaves), e, g.view, leaves, r, old(ex.lru), true) && Remains(old(ex.lru), ex.lru)
        invariant g == old(g).(view := g.view, owner := g.owner) && g.owner.Keys == old(g.owner.Keys)
        invariant g.view.Keys <= old(g.view.Keys)
        invariant memoryNew == old(memoryNew) && npageNew == old(npageNew)
        invariant ex.npages + g.view[r].npages == old(ex.npages) + old(g.view)[e].npages
        invariant !coalesced ==> Settled(g.view, leaves, me, ex.state, g.view[r], true)
        decreases |ex.lru|, coalesced
      {
        r, coalesced, outer := TryCoalesce(ex, r, true, old(g.view), old(g.owner), old(leaves), e, old(ex.lru));
      }
    }

    /** extent_record: `e` is freed into `ex` after taking in what it can. */
    method Record(ex: Extents, e: Extent) returns (ghost r: Extent)
      requires Valid() && e in g.view && g.view[e].arena == me && g.view[e].state == Active && e !in g.live
      requires ex == dirty || (ex == muzzy && !g.view[e].slab)
      modifies this, ex, g.view.Keys
      ensures Valid() && Released(old(g.view), old(leaves), e, g.view, leaves, r, old(ex.lru), ex.delayCoalesce)
      ensures g.view[r].state == ex.state && g.view[r].arena == me && !g.view[r].slab
      ensures ex.lru != [] && ex.lru[|ex.lru| - 1] == r && Remains(old(ex.lru), ex.lru[..|ex.lru| - 1])
      ensures ex.npages == old(ex.npages) + old(g.view)[e].npages
      ensures Settled(g.view, leaves, me, ex.state, g.view[r], ex.delayCoalesce)
      ensures g == old(g).(view := g.view, owner := g.owner) && g.owner.Keys == old(g.owner.Keys)
      ensures memoryNew == old(memoryNew) && npageNew == old(npageNew)
    {
      hide Ok, Agrees, Pools, Region, Settled, Grown, Released, Remains, Owned;
      SlabReads(e);
      PagesOwned();
      ghost var v0, o0, l0, pool := g.view, g.owner, leaves, ex.lru;
      if e.slab {
        Unslab(e);
      }
      FirstNames(e);
      assert At(leaves, e.first).e == e;
      ghost var v1, l1 := g.view, leaves;
      assert v1 == v0[e := v0[e].(slab := false)];
      var x := e;
      if !ex.delayCoalesce {
        PagesOwned();
        GrownSelf(g.view, g.owner, leaves, e, ex.lru, false);
        RemainsSelf(ex.lru);
        var unused;
        ghost var outer;
        x, unused, outer := TryCoalesce(ex, x, false, v1, o0, l1, e, pool);
      } else {
        x := CoalesceAll(ex, x);
      }
      ReleasedOf(v0, o0, l0, e, l1, g.view, leaves, x, pool, ex.delayCoalesce, ex.state);
      FiledSettled(ex, x, ex.delayCoalesce);
      PutBack(ex, x, {});
      r := x;
    }

    /** arena_dalloc, for an extent in a caller's hands. */
    method Free(e: Extent) returns (ghost r: Extent)
      requires Valid() && e in g.live && g.view[e].arena == me
      modifies this, dirty, g.view.Keys
      ensures Valid() && Released(old(g.view), old(leaves), e, g.view, leaves, r, old(dirty.lru), true)
      ensures dirty.lru != [] && dirty.lru[|dirty.lru| - 1] == r && Remains(old(dirty.lru), dirty.lru[..|dirty.lru| - 1])
      ensures dirty.npages == old(dirty.npages) + old(g.view)[e].npages
      ensures Settled(g.view, leaves, me, Dirty, g.view[r], true)
      ensures g == old(g).(view := g.view, owner := g.owner, live := old(g.live) - {e}) && g.owner.Keys == old(g.owner.Keys)
      ensures memoryNew == old(memoryNew) && npageNew == old(npageNew) && Stays(me, old(g), g)
    {
      hide Ok, Pages, Settled, Released, Absorbed, Remains, Extents.Valid, Listed, Stays;
      ghost var g0, pool := g, dirty.lru;
      LiveIsActive(e);
      ListedAgree(dirty);
      g := g.(live := g.live - {e});
      r := Record(dirty, e);
      ReleasedAbsorbs(g0.view, old(leaves), e, g.view, leaves, r, pool, true);
      AbsorbedStays(me, g0, g, e, r, pool);
    }

    lemma LiveIsActive(e: Extent)
      requires Valid() && e in g.live
      ensures e in g.view && g.view[e].state == Active
      ensures Ok(me, g.(live := g.live - {e}), leaves, Region(), {})
    {
      ReleaseOk(me, g, leaves, Region(), e);
    }

    // ---------------------------------------------------------------- decay

    lemma ListedAgree(ex: Extents)
      requires Valid() && (ex == dirty || ex == muzzy)
      ensures forall x :: x in ex.lru ==> x in g.view && g.view[x].arena == me && g.view[x].state == ex.state && x.state == ex.state
      ensures dirty != muzzy && ex.state == (if ex == dirty then Dirty else Muzzy) && ex.delayCoalesce == (ex == dirty)
    {
      forall x | x in ex.lru ensures x.state == ex.state { assert x in g.view && Agreed(x, g.view[x]); }
    }

    lemma TransitUnlisted(ex: Extents, e: Extent)
      requires Valid() && (ex == dirty || ex == muzzy) && InTransit(e)
      ensures e !in ex.lru
    {
    }

    /** One turn of extents_evict: the oldest dirty extent is taken out, and goes back if it has found a neighbour to join. */
    method JoinOldest(ghost v0: View, ghost out: set<Extent>, ghost l0: seq<Extent>, ghost w0: View, ghost merged0: set<Extent>)
        returns (x: Extent, coalesced: bool, ghost merged: set<Extent>)
      requires Valid() && Thinned(me, Dirty, v0, g.view, out) && dirty.lru != [] && Waiting(l0, dirty.lru, w0, g.view, merged0)
      modifies this, dirty, g.view.Keys
      ensures Valid() && g == old(g).(view := g.view, owner := g.owner) && g.owner.Keys == old(g.owner.Keys)
      ensures g.view.Keys <= old(g.view.Keys) && memoryNew == old(memoryNew) && npageNew == old(npageNew) && |dirty.lru| < |old(dirty.lru)|
      ensures forall y :: y in out ==> y in g.view && y in old(g.view) && g.view[y] == old(g.view)[y]
      ensures coalesced ==> Thinned(me, Dirty, v0, g.view, out) && Waiting(l0, dirty.lru, w0, g.view, merged)
      ensures !coalesced ==> Thinned(me, Dirty, v0, g.view, out + {x}) && Oldest(l0, dirty.lru, x, w0, g.view, merged)
      ensures !coalesced ==> InTransit(x) && x !in out && Settled(g.view, leaves, me, Dirty, g.view[x], false)
      ensures if coalesced then dirty.npages == old(dirty.npages) else dirty.npages + g.view[x].npages == old(dirty.npages)
    {
      hide Ok, Agrees, Pools, Region, Settled, Grown, Remains, Thinned, Without, Waiting, Oldest, Joined, Owned;
      var e := dirty.lru[0];
      ListedAgree(dirty);
      ghost var v1, list := g.view, dirty.lru;
      HeadWithout(list);
      TakeOut(dirty, e);
      TransitUnlisted(dirty, e);
      SpansSized();
      ghost var v2, pool, outer := g.view, dirty.lru, e;
      PagesOwned();
      GrownSelf(g.view, g.owner, leaves, e, pool, false);
      RemainsSelf(pool);
      ghost var o2, leaves2 := g.owner, leaves;
      x, coalesced, outer := TryCoalesce(dirty, e, false, v2, o2, leaves2, e, pool);
      merged := merged0;
      GrownAbsorbs(v2, o2, leaves2, e, g.view, leaves, x, pool, false);
      ThinStep(me, Dirty, v0, v1, out, e, g.view, x, pool);
      if coalesced {
        BothUnlisted(v2, e, outer, x);
        WaitingMerged(l0, list, w0, v1, merged, e, v2[e], outer, x, g.view, g.view[x].(state := Dirty));
        merged := merged + {e, outer};
        PutBack(dirty, x, {});
      } else {
        WaitingOldest(l0, list, w0, v1, merged, v2[e]);
      }
    }

    /**
      extents_evict over the dirty extents, once the list is over the limit.
      `merged` are the extents that have merged on the way and gone to the end of
      the list; of the others `r` is the oldest, and it is one of the merged only
      when no other is left.
     */
    method EvictDirty(npagesMin: nat, ghost v0: View, ghost out: set<Extent>) returns (r: Extent?, ghost merged: set<Extent>)
      requires Valid() && Thinned(me, Dirty, v0, g.view, out)
      modifies this, dirty, g.view.Keys
      ensures Valid() && g == old(g).(view := g.view, owner := g.owner) && g.owner.Keys == old(g.owner.Keys)
      ensures g.view.Keys <= old(g.view.Keys) && memoryNew == old(memoryNew) && npageNew == old(npageNew)
      ensures Thinned(me, Dirty, v0, g.view, if r == null then out else out + {r})
      ensures forall x :: x in out ==> x in g.view && x in old(g.view) && g.view[x] == old(g.view)[x]
      ensures r != null ==> InTransit(r) && r !in out && |dirty.lru| < |old(dirty.lru)|
      ensures r != null ==> Settled(g.view, leaves, me, Dirty, g.view[r], false)
      ensures r != null ==> Oldest(old(dirty.lru), dirty.lru, r, old(g.view), g.view, merged)
      ensures if r == null then dirty.npages == old(dirty.npages) else dirty.npages + g.view[r].npages == old(dirty.npages)
      ensures r == null <==> old(dirty.npages) <= npagesMin
      ensures r == null ==> g == old(g) && leaves == old(leaves) && dirty.lru == old(dirty.lru)
      ensures |dirty.lru| <= |old(dirty.lru)|
    {
      hide Ok, Agrees, Pools, Region, Settled, Thinned, Waiting, Oldest;
      ThinOut(me, Dirty, v0, g.view, out);
      WaitingStart(dirty.lru, g.view);
      merged := {};
      while true
        invariant Valid() && g == old(g).(view := g.view, owner := g.owner) && g.owner.Keys == old(g.owner.Keys)
        invariant g.view.Keys <= old(g.view.Keys) && memoryNew == old(memoryNew) && npageNew == old(npageNew)
        invariant Thinned(me, Dirty, v0, g.view, out)
        invariant forall x :: x in out ==> x in g.view && x in old(g.view) && g.view[x] == old(g.view)[x]
        invariant Waiting(old(dirty.lru), dirty.lru, old(g.view), g.view, merged) && |dirty.lru| <= |old(dirty.lru)|
        invariant dirty.npages == old(dirty.npages)
        invariant dirty.npages <= npagesMin ==> g == old(g) && leaves == old(leaves) && dirty.lru == old(dirty.lru)
        decreases |dirty.lru|
      {
        if dirty.lru == [] {
          NoneCounted();
          return null, merged;
        }
        if dirty.npages <= npagesMin {
          return null, merged;
        }
        var x, coalesced;
        x, coalesced, merged := JoinOldest(v0, out, old(dirty.lru), old(g.view), merged);
        if !coalesced {
          return x, merged;
        }
      }
    }

    lemma NoneCounted()
      requires Valid() && dirty.lru == []
      ensures dirty.npages == 0
    {
      hide Ok, Listed, Pages, Extents.Filed;
      assert SumPages([]) == 0;
    }

    lemma SpansSized()
      requires Valid()
      ensures forall x :: x in g.view ==> g.view[x].npages >= 1
    {
    }

    lemma BothUnlisted(v: View, e: Extent, outer: Extent, x: Extent)
      requires Valid() && InTransit(x) && e in v && outer in v && e != outer
      requires (g.view == Joined(v, e, outer, true) && x == e) || (g.view == Joined(v, e, outer, false) && x == outer)
      ensures e !in dirty.lru && outer !in dirty.lru
    {
      hide Ok;
    }

    lemma SlabsActive()
      requires Valid()
      ensures forall x :: x in g.view && g.view[x].slab ==> g.view[x].state == Active
    {
      forall x | x in g.view && g.view[x].slab ensures g.view[x].state == Active { assert Agreed(x, g.view[x]); }
    }

    /** arena_stash_decayed: extents leave the dirty list, oldest first, until enough pages have gone or few enough are left. */
    method Stash(npagesLimit: nat, npagesMax: nat) returns (stash: seq<Extent>, nstashed: nat, ghost out: set<Extent>, ghost merged: set<Extent>)
      requires Valid()
      modifies this, dirty, g.view.Keys
      ensures Valid() && g == old(g).(view := g.view, owner := g.owner) && g.owner.Keys == old(g.owner.Keys)
      ensures g.view.Keys <= old(g.view.Keys) && memoryNew == old(memoryNew) && npageNew == old(npageNew)
      ensures Thinned(me, Dirty, old(g.view), g.view, out) && NoDup(stash)
      ensures (forall x :: x in stash ==> x in out && InTransit(x)) && (forall x :: x in out ==> x in stash)
      ensures nstashed == SpanSum(g.view, stash) && dirty.npages + nstashed == old(dirty.npages)
      ensures Emptied(old(dirty.lru), stash, dirty.lru, old(g.view), g.view, merged, dirty.npages, npagesLimit, npagesMax)
    {
      hide Ok, Agrees, Pools, Region, Settled, Thinned, Drained, Oldest;
      stash, nstashed, out, merged := [], 0, {}, {};
      ghost var v0, l0 := g.view, dirty.lru;
      SlabsActive();
      ThinNone(me, Dirty, v0);
      DrainedNone(l0, v0);
      var done := false;
      while nstashed < npagesMax && !done
        invariant Valid() && g == old(g).(view := g.view, owner := g.owner) && g.owner.Keys == old(g.owner.Keys)
        invariant g.view.Keys <= old(g.view.Keys) && memoryNew == old(memoryNew) && npageNew == old(npageNew)
        invariant Thinned(me, Dirty, v0, g.view, out) && NoDup(stash)
        invariant (forall x :: x in stash ==> x in out && InTransit(x)) && (forall x :: x in out ==> x in stash)
        invariant nstashed == SpanSum(g.view, stash) && dirty.npages + nstashed == old(dirty.npages)
        invariant Drained(l0, stash, dirty.lru, v0, g.view, merged)
        invariant stash != [] ==> nstashed - LastPages(g.view, stash) < npagesMax && dirty.npages + LastPages(g.view, stash) > npagesLimit
        invariant done ==> dirty.npages <= npagesLimit
        decreases |dirty.lru|, !done
      {
        ghost var v1, l1 := g.view, dirty.lru;
        var e;
        ghost var joined;
        e, joined := EvictDirty(npagesLimit, v0, out);
        SumSame(v1, g.view, stash);
        if e == null {
          done := true;
        } else {
          DrainedStep(l0, stash, l1, dirty.lru, e, v0, v1, g.view, merged, joined);
          merged := merged + joined;
          TransitAgrees(e);
          SumPush(g.view, stash, e);
          out := out + {e};
          stash := stash + [e];
          nstashed := nstashed + e.npages;
        }
      }
    }

    lemma {:induction false} ListSum(s: seq<Extent>)
      requires Agrees() && forall x :: x in s ==> x in g.view
      ensures SumPages(s) == SpanSum(g.view, s)
    {
      if s != [] {
        assert Agreed(s[0], g.view[s[0]]);
        ListSum(s[1..]);
      }
    }

    /** The page counts of the two lists add up to the arena's free pages. */
    lemma FreeCount()
      requires Valid()
      ensures dirty.npages + muzzy.npages == |FreePages(me, g.view, g.owner)|
    {
      ListSum(dirty.lru);
      ListSum(muzzy.lru);
      ListsOwnFree(me, g.view, g.owner, dirty.lru, muzzy.lru);
    }

    /** Conservation: the arena's mapped pages are those in use, the two lists' counts, the fresh region and what was given up. */
    lemma Conservation()
      requires Valid()
      ensures |g.mine| == |UsedPages(me, g.view, g.owner)| + dirty.npages + muzzy.npages + npageNew + |g.dropped|
    {
      FreeCount();
      PagesAddUp(me, g, leaves, Region());
    }

    lemma PagesOwned()
      requires Valid()
      ensures Owned(g.view, g.owner)
    {
    }

    /**
      arena_decay_to_limit for the dirty list: the extents `gone` leave it, oldest
      first, and become muzzy; `v` is the view when they had left and were not yet
      filed again.  The pages they had are the pages that change lists.
     */
    method DecayDirty(npagesLimit: nat, npagesMax: nat) returns (npurged: nat, ghost gone: seq<Extent>, ghost v: View, ghost merged: set<Extent>)
      requires Valid()
      modifies this, dirty, muzzy, g.view.Keys
      ensures Valid() && g == old(g).(view := g.view, owner := g.owner) && g.owner.Keys == old(g.owner.Keys)
      ensures g.view.Keys <= old(g.view.Keys) && memoryNew == old(memoryNew) && npageNew == old(npageNew)
      ensures Decayed(me, old(g.view), g.view, {}) && Stays(me, old(g), g)
      ensures dirty.npages == old(dirty.npages) - npurged && muzzy.npages == old(muzzy.npages) + npurged
      ensures Emptied(old(dirty.lru), gone, dirty.lru, old(g.view), v, merged, dirty.npages, npagesLimit, npagesMax)
      ensures npurged == SpanSum(v, gone) && forall x :: x in dirty.lru ==> x in v && x in g.view && g.view[x] == v[x]
    {
      hide Ok, Agrees, Pools, Region, Settled, Thinned, Absorbed, Released, Remains, Decayed, Owned, Stays, Emptied;
      ghost var g0, v0 := g, g.view;
      var stash, npurge, due, joined := Stash(npagesLimit, npagesMax);
      gone, v, merged := stash, g.view, joined;
      ghost var list, left := dirty.lru, dirty.npages;
      npurged := 0;
      ThinDecays(me, v0, g.view, due);
      ListedAgree(dirty);
      while stash != []
        invariant Valid() && g == old(g).(view := g.view, owner := g.owner) && g.owner.Keys == old(g.owner.Keys)
        invariant g.view.Keys <= old(g.view.Keys) && memoryNew == old(memoryNew) && npageNew == old(npageNew)
        invariant NoDup(stash) && (forall x :: x in stash ==> x in due && InTransit(x)) && (forall x :: x in due ==> x in stash)
        invariant npurged + SpanSum(g.view, stash) == npurge && muzzy.npages == old(muzzy.npages) + npurged
        invariant dirty.lru == list && dirty.npages == left
        invariant forall x :: x in dirty.lru ==> x in v && x in g.view && g.view[x] == v[x] && v[x].state == Dirty
        invariant Decayed(me, v0, g.view, due)
        decreases |stash|
      {
        var e := stash[0];
        TransitAgrees(e);
        npurged := npurged + e.npages;
        ListedAgree(muzzy);
        ghost var v1, l1, pool := g.view, leaves, muzzy.lru;
        stash := stash[1..];
        ghost var r := Record(muzzy, e);
        ReleasedAbsorbs(v1, l1, e, g.view, leaves, r, pool, false);
        DecayStep(me, v0, v1, due, e, g.view, r, pool);
        SumSame(v1, g.view, stash);
        due := due - {e};
      }
      assert due == {};
      DecayedStays(me, g0, g);
    }

    // ---------------------------------------------------------------- allocating

    lemma DividedOk(e: Extent, t: Extent, a: nat, lead: Leaf)
      requires Valid() && InTransit(e) && t !in g.view && 0 < a < g.view[e].npages
      ensures Ok(me, Divided(g, e, t, a), SplitLeaves(leaves, lead, t, g.view[e], a), Region(), {e})
      ensures Listed(me, SplitView(g.view, e, t, a), Dirty, dirty.lru) && Listed(me, SplitView(g.view, e, t, a), Muzzy, muzzy.lru)
      ensures e !in dirty.lru && e !in muzzy.lru && t !in dirty.lru && t !in muzzy.lru
      ensures Led(g.view[e].(npages := a), lead, SplitLeaves(leaves, lead, t, g.view[e], a))
    {
      hide Ok, SplitLeaves, SplitOwner, Led;
      SplitOk(me, g, leaves, Region(), e, t, a, lead);
      SplitListed(me, g.view, Dirty, dirty.lru, e, t, a);
      SplitListed(me, g.view, Muzzy, muzzy.lru, e, t, a);
      SplitReads(me, g, leaves, Region(), e, t, a, lead);
    }

    lemma LiveKnown()
      requires Valid()
      ensures g.live <= g.view.Keys
    {
    }

    /** extent_split_impl for an extent in transit, the second part being no slab. */
    method Split(e: Extent, a: nat, slab: bool, v: int) returns (t: Extent)
      requires Valid() && InTransit(e) && 0 < a < g.view[e].npages
      modifies this, e
      ensures fresh(t) && t !in old(g.view) && e in old(g.view) && ValidBut({e}) && InTransit(e) && InTransit(t)
      ensures g == Divided(old(g), e, t, a) && t !in g.live
      ensures InteriorNull(g.view[e], leaves)
      ensures At(leaves, g.view[e].first) == At(leaves, g.view[e].Last()) == if slab then Slab(v) else Ext(e, false)
      ensures memoryNew == old(memoryNew) && npageNew == old(npageNew)
    {
      hide Ok, Listed, Pages, Extents.Valid, SplitOwner, SumPages, InteriorNull;
      TransitAgrees(e);
      LiveKnown();
      t := new Extent(me, e.first + a, e.npages - a, false, e.state);
      var lead := if slab then Slab(v) else Ext(e, false);
      DividedOk(e, t, a, lead);
      var last := e.first + e.npages - 1;
      e.npages := a;
      leaves := leaves[e.first := lead][e.first + a - 1 := lead][t.first := Ext(t, false)][last := Ext(t, false)];
      g := Divided(g, e, t, a);
    }

    /** The loop of extent_interior_register; rtree_write expects every leaf it sets to be NULL. */
    method FillInterior(first: int, n: nat, v: int)
      requires forall p :: first < p < first + n - 1 ==> At(leaves, p) == Null
      modifies `leaves
      ensures forall p :: first < p < first + n - 1 ==> At(leaves, p) == Slab(v)
      ensures forall p :: !(first < p < first + n - 1) ==> At(leaves, p) == At(old(leaves), p)
    {
      var i := 1;
      while i < n - 1
        invariant 1 <= i && (i <= n - 1 || i == 1)
        invariant forall p :: first < p < first + i ==> At(leaves, p) == Slab(v)
        invariant forall p :: !(first < p < first + i) ==> At(leaves, p) == At(old(leaves), p)
      {
        assert At(leaves, first + i) == Null;
        ghost var before := leaves;
        leaves := leaves[first + i := Slab(v)];
        assert forall p :: p != first + i ==> At(leaves, p) == At(before, p);
        i := i + 1;
      }
    }

    lemma FilledOk(e: Extent, leaves: Leaves, leaves': Leaves, v: int)
      requires Ok(me, g, leaves, Region(), {e}) && Pools() && Agrees() && InTransit(e) && Within(g.view[e], leaves, leaves')
      requires forall p :: g.view[e].Has(p) ==> At(leaves', p) == Slab(v)
      ensures var s := g.view[e].(slab := true, vslab := v);
        && Ok(me, Recast(g, e, s), leaves', Region(), {})
        && Listed(me, Recast(g, e, s).view, Dirty, dirty.lru) && Listed(me, Recast(g, e, s).view, Muzzy, muzzy.lru)
      ensures e !in dirty.lru && e !in muzzy.lru
    {
      var s := g.view[e].(slab := true, vslab := v);
      FillOk(me, g, leaves, leaves', Region(), e, v);
      RecastListed(me, g.view, Dirty, dirty.lru, e, s);
      RecastListed(me, g.view, Muzzy, muzzy.lru, e, s);
    }

    lemma SizeAgrees(e: Extent)
      requires Ok(me, g, leaves, Region(), {}) || Ok(me, g, leaves, Region(), {e})
      requires Agrees() && e in g.view
      ensures e.first == g.view[e].first && e.npages == g.view[e].npages >= 1
    {
      assert Agreed(e, g.view[e]);
    }

    /** The slab half of extent_recycle: the slab mark and extent_interior_register. */
    method Slabify(e: Extent, v: int)
      requires ValidBut({e}) && InTransit(e) && InteriorNull(g.view[e], leaves)
      modifies this, e
      ensures Valid() && g == Recast(old(g), e, old(g).view[e].(slab := true, vslab := v))
      ensures memoryNew == old(memoryNew) && npageNew == old(npageNew)
    {
      hide Ok, Listed, Pages, Extents.Valid, At, WriteEnds;
      ghost var s, l0 := g.view[e], leaves;
      SizeAgrees(e);
      FillInterior(e.first, e.npages, v);
      leaves := WriteEnds(leaves, e.first, e.first + e.npages - 1, Slab(v));
      assert InteriorNull(s, l0);
      forall p | s.Has(p) ensures At(leaves, p) == Slab(v) { }
      assert Within(s, l0, leaves);
      FilledOk(e, l0, leaves, v);
      e.slab := true;
      g := Recast(g, e, s.(slab := true, vslab := v));
    }

    lemma PlainDone(e: Extent)
      requires ValidBut({e}) && InTransit(e) && InteriorNull(g.view[e], leaves)
      requires At(leaves, g.view[e].first) == Ext(e, false)
      requires At(leaves, g.view[e].Last()).Ext? && At(leaves, g.view[e].Last()).e == e
      ensures Valid()
    {
      assert LeafOf(e, g.view[e], leaves);
      Finished(me, g, leaves, Region(), e);
    }

    lemma HandedOk(e: Extent)
      requires Valid() && e in g.view && g.view[e].state == Active
      requires !g.view[e].slab ==> At(leaves, g.view[e].first) == Ext(e, false)
      ensures Ok(me, g.(live := g.live + {e}), leaves, Region(), {})
    {
      HandOk(me, g, leaves, Region(), e);
    }

    /** The extent goes to the caller. */
    ghost method Hand(e: Extent)
      requires Valid() && e in g.view && g.view[e].state == Active
      requires !g.view[e].slab ==> At(leaves, g.view[e].first) == Ext(e, false)
      modifies `g
      ensures Valid() && g == old(g).(live := old(g).live + {e})
    {
      hide Ok, Pages, Listed, Extents.Valid;
      HandedOk(e);
      g := g.(live := g.live + {e});
    }

    lemma ExactOk(e: Extent, leaves: Leaves, leaves': Leaves, slab: bool)
      requires Ok(me, g, leaves, Region(), {}) && InTransit(e) && Within(g.view[e], leaves, leaves')
      requires At(leaves', g.view[e].first) == Ext(e, slab)
      requires forall p :: g.view[e].first < p < g.view[e].Last() ==> At(leaves', p) == At(leaves, p)
      requires At(leaves', g.view[e].Last()) == At(leaves, g.view[e].Last()) || At(leaves', g.view[e].Last()) == Ext(e, slab)
      ensures Ok(me, g, leaves', Region(), {e}) && InteriorNull(g.view[e], leaves')
      ensures At(leaves', g.view[e].Last()).Ext? && At(leaves', g.view[e].Last()).e == e
    {
      assert LeafOf(e, g.view[e], leaves);
      ExemptOk(me, g, leaves, Region(), e);
      WriteOk(me, g, leaves, leaves', Region(), e);
    }

    /** extent_split_interior when nothing is left over: the class and slab fields of the first leaf, and for a slab of the last, are set. */
    method Exact(e: Extent, slab: bool)
      requires Valid() && InTransit(e)
      modifies this
      ensures ValidBut({e}) && g == old(g) && InteriorNull(g.view[e], leaves)
      ensures At(leaves, g.view[e].first) == Ext(e, slab) && At(leaves, g.view[e].Last()).Ext? && At(leaves, g.view[e].Last()).e == e
      ensures memoryNew == old(memoryNew) && npageNew == old(npageNew)
    {
      hide Ok, Pages, Listed, Extents.Valid, InteriorNull;
      SizeAgrees(e);
      FirstNames(e);
      LastNames(e);
      ghost var l0 := leaves;
      leaves := WriteEnds(leaves, e.first, e.first, At(leaves, e.first).(slab := slab));
      if slab && e.npages > 1 {
        leaves := WriteEnds(leaves, e.first + e.npages - 1, e.first + e.npages - 1, At(leaves, e.first + e.npages - 1).(slab := slab));
      }
      assert At(leaves, e.first) == Ext(e, slab);
      ExactOk(e, l0, leaves, slab);
    }

    lemma LastNames(e: Extent)
      requires Valid() && InTransit(e)
      ensures At(leaves, e.first + e.npages - 1).Ext? && At(leaves, e.first + e.npages - 1).e == e
    {
      hide Ok, Pools;
      assert Agreed(e, g.view[e]);
      EndsNamed(me, g, leaves, Region(), e);
    }

    /** extent_recycle_split and the slab part of extent_recycle, for an extent taken out of `ex`. */
    method Carve(ex: Extents, e: Extent, npages: nat, slab: bool, v: int) returns (ghost t: Extent?)
      requires Valid() && InTransit(e) && (ex == dirty || ex == muzzy) && 1 <= npages <= g.view[e].npages
      modifies this, ex, e
      ensures Valid() && e in old(g.view) && e in g.view
      ensures Carved(old(g.view), g.view, e, t, npages, slab, v, ex.state) && (t != null ==> fresh(t))
      ensures g.owner == if t == null then old(g.owner) else SplitOwner(old(g.owner), old(g.view)[e], t, npages)
      ensures g == old(g).(view := g.view, owner := g.owner)
      ensures !slab ==> At(leaves, g.view[e].first) == Ext(e, false)
      ensures ex.lru == old(ex.lru) + (if t == null then [] else [t]) && ex.npages + npages == old(ex.npages) + old(g.view)[e].npages
      ensures memoryNew == old(memoryNew) && npageNew == old(npageNew)
    {
      hide Ok, Agrees, Pools, Region, SplitOwner, InteriorNull, At;
      SizeAgrees(e);
      if e.npages != npages {
        var trail := Split(e, npages, slab, v);
        t := trail;
        PutBack(ex, trail, {e});
      } else {
        t := null;
        Exact(e, slab);
      }
      if slab {
        Slabify(e, v);
      } else {
        PlainDone(e);
      }
    }

    /** extent_recycle_extract: the best fit leaves its list. */
    method Extract(ex: Extents, npages: nat) returns (e: Extent?)
      requires Valid() && (ex == dirty || ex == muzzy) && 1 <= npages <= LARGEST
      modifies this, ex, ex.lru
      ensures Valid()
      ensures e == null ==> unchanged(this) && unchanged(ex) && unchanged(ex.lru) && old(ex.NoFit(npages))
      ensures e != null ==> e in old(ex.lru) && e in old(g.view) && InTransit(e) && npages <= old(g.view)[e].npages
      ensures e != null ==> g == Recast(old(g), e, old(g).view[e].(state := Active)) && leaves == old(leaves)
      ensures e != null ==> BestIn(old(g.view), old(ex.lru), ex.delayCoalesce, npages, e) && ex.lru == Without(old(ex.lru), e) && ex.npages + old(g.view)[e].npages == old(ex.npages)
      ensures memoryNew == old(memoryNew) && npageNew == old(npageNew)
    {
      hide Ok, Agrees, Pools, Region, At, Extents.Valid, Extents.NoFit, Extents.Best, BestIn, Lookup, Floor, ClassPages, Without;
      PoolsParts(ex);
      assert forall x :: x in g.view.Keys || x in dirty.lru || x in muzzy.lru ==> allocated(x);
      e := ex.BestFit(npages);
      if e != null {
        TakeOutOk(ex, e);
        PagesAgree(e);
        BestAgrees(ex, npages, e);
        TakeOut(ex, e);
      }
    }

    lemma BestAgrees(ex: Extents, npages: nat, e: Extent)
      requires Valid() && (ex == dirty || ex == muzzy) && ex.Best(npages, e)
      ensures ListedSizes(ex) && BestIn(g.view, ex.lru, ex.delayCoalesce, npages, e)
    {
      hide Ok, Lookup, Floor, ClassPages;
      forall x | x in ex.lru ensures x in g.view && x.npages == g.view[x].npages && x.first == g.view[x].first && ex.Filed(x) { assert Agreed(x, g.view[x]); }
    }

    ghost predicate ListedSizes(ex: Extents)
      reads this, ex
    {
      forall x :: x in ex.lru ==> x in g.view && 1 <= g.view[x].npages <= LARGEST
    }

    /** extent_recycle: best fit, split, and registration of a slab. */
    method Recycle(ex: Extents, npages: nat, slab: bool, v: int) returns (r: Extent?, ghost t: Extent?)
      requires Valid() && (ex == dirty || ex == muzzy) && 1 <= npages <= LARGEST
      modifies this, ex, ex.lru
      ensures Valid()
      ensures r == null ==> unchanged(this) && unchanged(ex) && unchanged(ex.lru) && old(ex.NoFit(npages))
      ensures r != null ==> r in old(ex.lru) && BestIn(old(g.view), old(ex.lru), ex.delayCoalesce, npages, r)
      ensures r != null ==> HandedOut(old(g), g, r)
      ensures r != null ==> Carved(old(g.view), g.view, r, t, npages, slab, v, ex.state) && (t != null ==> fresh(t))
      ensures r != null ==> ex.lru == Without(old(ex.lru), r) + if t == null then [] else [t]
      ensures r != null ==> ex.npages + npages == old(ex.npages)
      ensures memoryNew == old(memoryNew) && npageNew == old(npageNew)
    {
      hide Ok, Agrees, Pools, Region, At, Extents.NoFit, BestIn;
      var e := Extract(ex, npages);
      if e == null {
        return null, null;
      }
      t := Carve(ex, e, npages, slab, v);
      Hand(e);
      r := e;
    }

    lemma PoolsParts(ex: Extents)
      requires Valid() && (ex == dirty || ex == muzzy)
      ensures ex.Valid() && ex.delayCoalesce == (ex == dirty) && ex.state == (if ex == dirty then Dirty else Muzzy)
    {
    }

    lemma PagesAgree(e: Extent)
      requires Agrees() && e in g.view
      ensures e.npages == g.view[e].npages
    {
      assert Agreed(e, g.view[e]);
    }

    // ---------------------------------------------------------------- fresh memory

    lemma LooseReadsNull(s: Span)
      requires Valid() && Pages(s.first, s.npages) <= g.dropped
      ensures forall p :: s.Has(p) ==> At(leaves, p) == Null
    {
      LooseBlank(me, g, leaves, Region(), s);
    }

    lemma RegisteredOk(e: Extent, s: Span, leaves: Leaves, leaves': Leaves)
      requires Ok(me, g, leaves, Region(), {}) && Pools() && s.arena == me && s.state == Active && s.npages >= 1
      requires e !in g.view && Pages(s.first, s.npages) <= g.dropped
      requires Within(s, leaves, leaves') && LeafOf(e, s, leaves')
      ensures Ok(me, Adopted(g, e, s), leaves', Region(), {})
      ensures Listed(me, Adopted(g, e, s).view, Dirty, dirty.lru) && Listed(me, Adopted(g, e, s).view, Muzzy, muzzy.lru)
    {
      RegisterOk(me, g, leaves, leaves', Region(), e, s);
      RecastListed(me, g.view, Dirty, dirty.lru, e, s);
      RecastListed(me, g.view, Muzzy, muzzy.lru, e, s);
    }

    /** The leaves extent_register writes. */
    method RegisterLeaves(e: Extent, slab: bool, v: int)
      requires e.npages >= 1 && forall p :: e.first <= p < e.first + e.npages ==> At(leaves, p) == Null
      modifies `leaves
      ensures LeafOf(e, Span(me, e.first, e.npages, slab, Active, v), leaves)
      ensures !slab ==> At(leaves, e.first) == Ext(e, false)
      ensures forall p :: !(e.first <= p < e.first + e.npages) ==> At(leaves, p) == At(old(leaves), p)
    {
      hide At, WriteEnds;
      if slab {
        leaves := WriteEnds(leaves, e.first, e.first + e.npages - 1, Slab(v));
        FillInterior(e.first, e.npages, v);
        leaves := WriteEnds(leaves, e.first, e.first + e.npages - 1, Slab(v));
      } else {
        leaves := WriteEnds(leaves, e.first, e.first + e.npages - 1, Ext(e, false));
      }
    }

    /** extent_init and extent_register over pages that belong to no extent. */
    method Register(first: int, npages: nat, slab: bool, v: int) returns (e: Extent)
      requires Valid() && npages >= 1 && Pages(first, npages) <= g.dropped
      modifies this
      ensures Valid() && fresh(e) && e !in old(g.view) && e.first == first
      ensures g == Adopted(old(g), e, Span(me, first, npages, slab, Active, v))
      ensures !slab ==> At(leaves, first) == Ext(e, false)
      ensures memoryNew == old(memoryNew) && npageNew == old(npageNew)
    {
      hide Ok, Pages, Listed, Extents.Valid, At, LeafOf, AddOwner;
      ghost var s, l0 := Span(me, first, npages, slab, Active, v), leaves;
      LooseReadsNull(s);
      e := new Extent(me, first, npages, slab, Active);
      assert forall p :: e.first <= p < e.first + e.npages ==> s.Has(p);
      RegisterLeaves(e, slab, v);
      assert Within(s, l0, leaves);
      RegisteredOk(e, s, l0, leaves);
      g := Adopted(g, e, s);
    }

    lemma BumpedOk(k: nat)
      requires Valid() && k <= npageNew
      ensures Ok(me, g.(dropped := g.dropped + Pages(memoryNew, k)), leaves, Pages(memoryNew + k, npageNew - k), {})
    {
      hide Ok, Pages, Agrees, Pools;
      BumpOk(me, g, leaves, memoryNew, npageNew, k);
    }

    /** The front of the fresh region is cut off; until it is registered it counts as given up. */
    method Bump(npages: nat) returns (first: int)
      requires Valid() && npages <= npageNew
      modifies this
      ensures Valid() && first == old(memoryNew) && memoryNew == first + npages && npageNew == old(npageNew) - npages
      ensures g == old(g).(dropped := old(g).dropped + Pages(first, npages)) && leaves == old(leaves)
    {
      hide Ok, Pages, Listed, Extents.Valid;
      BumpedOk(npages);
      first := memoryNew;
      memoryNew := memoryNew + npages;
      npageNew := npageNew - npages;
      g := g.(dropped := g.dropped + Pages(first, npages));
    }

    lemma NoRegion(first: int)
      requires Valid() && npageNew == 0
      ensures Ok(me, g, leaves, Pages(first, 0), {}) && Pages(first, 0) == {}
    {
      assert Region() == Pages(first, 0);
    }

    /** memory_new becomes NULL. */
    method Reset()
      requires Valid() && npageNew == 0
      modifies `memoryNew
      ensures Valid()
    {
      hide Ok, Pages, Listed, Extents.Valid;
      NoRegion(0);
      memoryNew := 0;
    }

    /**
      arena_evict_new_memory_locked: a remainder that is exactly a class becomes
      a dirty extent, unmerged; any other remainder is given up.
     */
    method EvictNew() returns (ghost e: Extent?)
      requires Valid()
      modifies this, dirty
      ensures Valid() && npageNew == 0
      ensures Evicted(me, old(g), g, e, old(memoryNew), old(npageNew)) && (e != null ==> fresh(e))
      ensures g.space == old(g).space && g.live == old(g).live
      ensures dirty.lru == old(dirty.lru) + if e == null then [] else [e]
    {
      hide Ok, Pages, Agrees, Pools, Lookup, TableEntry, AddOwner;
      var n := npageNew;
      LookupRange(n);
      PoolsParts(dirty);
      if n == 0 || n != TableEntry(Lookup(n)) {
        var unused := Bump(n);
        Reset();
        e := null;
      } else {
        var first := Bump(n);
        var x := Register(first, n, false, 0);
        PutBack(dirty, x, {});
        Reset();
        e := x;
      }
    }

    lemma MappedOk(chunk: int)
      requires Valid() && npageNew == 0
      requires Pages(chunk, CHUNK) !! g.space && RunsBounded(g.space + Pages(chunk, CHUNK))
      ensures Ok(me, g.(space := g.space + Pages(chunk, CHUNK), mine := g.mine + Pages(chunk, CHUNK)), leaves, Pages(chunk, CHUNK), {})
    {
      MapOk(me, g, leaves, Pages(chunk, CHUNK));
    }

    /** arena_get_new_memory_locked, `chunk` being where the new file is mapped. */
    method GetNew(chunk: int)
      requires Valid() && npageNew == 0
      requires Pages(chunk, CHUNK) !! g.space && RunsBounded(g.space + Pages(chunk, CHUNK))
      modifies this
      ensures Valid() && memoryNew == chunk && npageNew == CHUNK && leaves == old(leaves)
      ensures g == old(g).(space := old(g).space + Pages(chunk, CHUNK), mine := old(g).mine + Pages(chunk, CHUNK))
    {
      hide Ok, Pages, Listed, Extents.Valid, RunsBounded;
      MappedOk(chunk);
      memoryNew, npageNew := chunk, CHUNK;
      g := g.(space := g.space + Pages(chunk, CHUNK), mine := g.mine + Pages(chunk, CHUNK));
    }

    lemma LooseApart(n: nat)
      requires Valid()
      ensures Region() !! g.dropped && Region() == Pages(memoryNew, npageNew) && (n <= npageNew ==> Pages(memoryNew, n) !! g.dropped)
    {
      if n <= npageNew { assert Pages(memoryNew, n) <= Region(); }
    }

    /** arena_activate_new_memory followed by extent_register: the path of extent_alloc_wrapper_hard. */
    method AllocFresh(npages: nat, slab: bool, v: int, chunk: int) returns (e: Extent, ghost kept: Extent?)
      requires Valid() && 1 <= npages <= CHUNK
      requires npages > npageNew ==> Pages(chunk, CHUNK) !! g.space && RunsBounded(g.space + Pages(chunk, CHUNK))
      modifies this, dirty
      ensures Valid() && fresh(e) && (kept != null ==> fresh(kept))
      ensures Opened(me, old(g), g, e, kept, npages, slab, v, old(memoryNew), old(npageNew), chunk)
      ensures dirty.lru == old(dirty.lru) + if kept == null then [] else [kept]
      ensures memoryNew == e.first + npages && npageNew == (if npages > old(npageNew) then CHUNK else old(npageNew)) - npages
    {
      hide Ok, Pages, Agrees, Pools, AddOwner, RunsBounded, Evicted, Opened;
      ghost var g0, front, left := g, memoryNew, npageNew;
      LooseApart(npages);
      kept := null;
      ghost var g1 := g;
      if npages > npageNew {
        kept := EvictNew();
        g1 := g;
        GetNew(chunk);
      }
      LooseApart(npages);
      var first := Bump(npages);
      e := Register(first, npages, slab, v);
      if npages <= left {
        OpenedFront(me, g0, e, npages, slab, v, front, left, chunk);
      } else {
        OpenedChunk(me, g0, g1, e, kept, npages, slab, v, front, left, chunk);
      }
      Hand(e);
    }

    /** arena_slab_alloc and arena_extent_alloc_large: the best fit of the dirty extents, then of the muzzy ones, then fresh pages; never pages in use. */
    method Alloc(npages: nat, slab: bool, v: int, chunk: int) returns (r: Extent, ghost t: Extent?)
      requires Valid() && 1 <= npages <= CHUNK
      requires npages > npageNew ==> Pages(chunk, CHUNK) !! g.space && RunsBounded(g.space + Pages(chunk, CHUNK))
      modifies this, dirty, muzzy, g.view.Keys
      ensures Valid() && Provided(me, old(g.view), g.view, r, npages, slab, v)
      ensures g.live == old(g).live + {r} && r !in old(g).live
      ensures r in old(dirty.lru) ==> BestIn(old(g.view), old(dirty.lru), true, npages, r) && Carved(old(g.view), g.view, r, t, npages, slab, v, Dirty)
      ensures r !in old(dirty.lru) ==> old(dirty.NoFit(npages))
      ensures r in old(muzzy.lru) ==> BestIn(old(g.view), old(muzzy.lru), false, npages, r) && Carved(old(g.view), g.view, r, t, npages, slab, v, Muzzy)
      ensures r !in old(dirty.lru) + old(muzzy.lru) ==> old(muzzy.NoFit(npages)) && fresh(r)
      ensures fresh(r) ==> Opened(me, old(g), g, r, t, npages, slab, v, old(memoryNew), old(npageNew), chunk)
      ensures Stays(me, old(g), g)
    {
      hide Ok, Agrees, Pools, Pages, RunsBounded, Without, Extents.NoFit, BestIn, Opened, Carved, Provided, Stays;
      ListedAgree(dirty);
      ListedAgree(muzzy);
      LiveActive();
      var x: Extent?;
      ghost var g0 := g;
      x, t := Recycle(dirty, npages, slab, v);
      if x != null {
        CarvedStays(me, g0, g, x, t, npages, slab, v, Dirty);
        CarvedProvides(me, g0.view, g.view, x, t, npages, slab, v, Dirty);
        return x, t;
      }
      x, t := Recycle(muzzy, npages, slab, v);
      if x != null {
        CarvedStays(me, g0, g, x, t, npages, slab, v, Muzzy);
        CarvedProvides(me, g0.view, g.view, x, t, npages, slab, v, Muzzy);
        return x, t;
      }
      r, t := AllocFresh(npages, slab, v, chunk);
      OpenedStays(me, g0, g, r, t, npages, slab, v, old(memoryNew), old(npageNew), chunk);
    }

    /** An operation of another arena, as this one sees it: the shared books and leaves change, and its own stay valid. */
    method Observe(leaves': Leaves, ghost you: int, ghost h: Ledger, ghost h': Ledger, ghost region': set<int>)
      requires Ok(me, g, leaves, Region(), {}) && Pools() && you != me && Shared(g, h)
      requires Stays(you, h, h') && Ok(you, h', leaves', region', {}) && forall e :: e in h'.view ==> Agreed(e, h'.view[e])
      modifies `g, `leaves
      ensures Valid() && leaves == leaves' && Shared(g, h') && g == h'.(mine := old(g).mine, dropped := old(g).dropped)
    {
      hide Ok, Listed, Stays, Extents.Valid;
      OtherKeeps(me, g, leaves, Region(), you, h, h', leaves', region');
      g := h'.(mine := g.mine, dropped := g.dropped);
      leaves := leaves';
    }

    lemma LiveActive()
      requires Valid()
      ensures g.live <= g.view.Keys && forall x :: x in g.live ==> g.view[x].state == Active
    {
    }
  }

  /**
    arena_activate_new_memory cuts `npages` from what is left of the region, or
    from a new chunk when that is too short.  The cut lies inside what it is cut
    from exactly when the request is no longer than one of the two.
   */
  lemma CutInside(left: nat, npages: nat, base: int)
    ensures Pages(base, npages) <= Pages(base, if npages > left then CHUNK else left) <==> npages <= left || npages <= CHUNK
  {
    var size := if npages > left then CHUNK else left;
    if npages > size { assert base + size in Pages(base, npages); }
  }
}

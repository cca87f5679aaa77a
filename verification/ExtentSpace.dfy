/**
  The address space extent.c manages, as values: which extent owns each mapped
  page, and what the page map (extents_rtree) reads at each page.  Page numbers
  stand for addresses.
 */
module ExtentSpace {
  import opened PageClasses
  import opened ExtentPool

  /** What an extent records of itself, and the slab descriptor its pages name while `slab` holds. */
  datatype Span = Span(arena: int, first: int, npages: nat, slab: bool, state: State, vslab: int) {
    predicate Has(p: int) {
      first <= p < first + npages
    }

    function Last(): int {
      first + npages - 1
    }
  }

  /** One element of the page map: NULL, an extent with its slab bit, or a slab descriptor (bit set). */
  datatype Leaf = Null | Ext(e: Extent, slab: bool) | Slab(v: int)

  type View = map<Extent, Span>
  type Leaves = map<int, Leaf>
  type Owner = map<int, Extent>

  function At(leaves: Leaves, p: int): Leaf {
    if p in leaves then leaves[p] else Null
  }

  /** extent_rtree_write_acquired: the same leaf at both ends. */
  function WriteEnds(leaves: Leaves, first: int, last: int, leaf: Leaf): (r: Leaves)
    ensures At(r, first) == At(r, last) == leaf
    ensures forall q :: q != first && q != last ==> At(r, q) == At(leaves, q)
  {
    leaves[first := leaf][last := leaf]
  }

  /** The pages from `lo` on, `n` of them. */
  function Pages(lo: int, n: nat): (r: set<int>)
    ensures forall p :: p in r <==> lo <= p < lo + n
    ensures |r| == n
  {
    if n == 0 then {} else Pages(lo, n - 1) + {lo + n - 1}
  }

  /** The extents partition the owned pages. */
  ghost predicate Owned(view: View, owner: Owner) {
    && (forall p :: p in owner ==> owner[p] in view && view[owner[p]].Has(p))
    && (forall e :: e in view ==> view[e].npages >= 1)
    && (forall e, p :: e in view && view[e].Has(p) ==> p in owner && owner[p] == e)
  }

  /** The pages of one extent read as extent.c intends: all of a slab's, only the two ends of any other. */
  ghost predicate LeafOf(e: Extent, s: Span, leaves: Leaves) {
    if s.slab then
      forall p :: s.Has(p) ==> At(leaves, p) == Slab(s.vslab)
    else
      && At(leaves, s.first).Ext? && At(leaves, s.first).e == e
      && At(leaves, s.Last()).Ext? && At(leaves, s.Last()).e == e
      && forall p :: s.first < p < s.Last() ==> At(leaves, p) == Null
  }

  ghost predicate Mirrored(view: View, leaves: Leaves, but: set<Extent>) {
    forall e :: e in view && e !in but ==> LeafOf(e, view[e], leaves)
  }

  ghost predicate Blank(owner: Owner, leaves: Leaves) {
    forall p :: p !in owner ==> At(leaves, p) == Null
  }

  /** The page map after a change that touches only pages of `s`. */
  ghost predicate Within(s: Span, before: Leaves, after: Leaves) {
    forall p :: !s.Has(p) ==> At(after, p) == At(before, p)
  }

  /** Writing only pages of `e` leaves every other extent as it read. */
  lemma WriteInside(view: View, owner: Owner, e: Extent, before: Leaves, after: Leaves, but: set<Extent>)
    requires Owned(view, owner) && e in view && Within(view[e], before, after)
    requires Mirrored(view, before, but)
    ensures Mirrored(view, after, but + {e})
  {
    forall x | x in view && x !in but + {e} ensures LeafOf(x, view[x], after) {
      assert LeafOf(x, view[x], before);
      forall p | view[x].Has(p) ensures At(after, p) == At(before, p) {
        assert owner[p] == x;
      }
    }
  }

  /** Rewriting the pages of `s`, all of which belong to `changed` afterwards, leaves every other extent as it read. */
  lemma Rewritten(view: View, view': View, owner': Owner, changed: set<Extent>, s: Span, leaves: Leaves, leaves': Leaves)
    requires Owned(view', owner') && Blank(owner', leaves) && Within(s, leaves, leaves')
    requires forall x :: x in view' && x !in changed ==> x in view && view'[x] == view[x]
    requires Mirrored(view, leaves, changed)
    requires forall p :: s.Has(p) ==> p in owner' && owner'[p] in changed
    ensures Mirrored(view', leaves', changed) && Blank(owner', leaves')
  {
    forall x | x in view' && x !in changed ensures LeafOf(x, view'[x], leaves') {
      assert LeafOf(x, view[x], leaves);
      forall p | view[x].Has(p) ensures At(leaves', p) == At(leaves, p) {
        assert view'[x].Has(p) && owner'[p] == x;
      }
    }
  }

  /** A leaf that names an extent sits at an end of that extent. */
  lemma NamedAtEnd(view: View, owner: Owner, leaves: Leaves, p: int)
    requires Owned(view, owner) && Mirrored(view, leaves, {}) && Blank(owner, leaves) && At(leaves, p).Ext?
    ensures p in owner && owner[p] == At(leaves, p).e && !view[owner[p]].slab
    ensures p == view[owner[p]].first || p == view[owner[p]].Last()
  {
    var o := owner[p];
    assert LeafOf(o, view[o], leaves) && view[o].Has(p);
  }

  /** The page map determines the partition: reading a page's leaf tells its owner, or that it is interior or free. */
  lemma SlabLeafOwner(view: View, owner: Owner, leaves: Leaves, p: int)
    requires Owned(view, owner) && Mirrored(view, leaves, {}) && Blank(owner, leaves) && At(leaves, p).Slab?
    ensures p in owner && view[owner[p]].slab && view[owner[p]].vslab == At(leaves, p).v
  {
    var o := owner[p];
    assert LeafOf(o, view[o], leaves) && view[o].Has(p);
  }

  // ------------------------------------------------------------------ split, merge, add

  function SplitView(view: View, e: Extent, t: Extent, a: nat): View
    requires e in view && a <= view[e].npages
  {
    view[t := view[e].(first := view[e].first + a, npages := view[e].npages - a)][e := view[e].(npages := a)]
  }

  function SplitOwner(owner: Owner, s: Span, t: Extent, a: nat): Owner {
    map p | p in owner :: if s.first + a <= p < s.first + s.npages then t else owner[p]
  }

  lemma SplitOwned(view: View, owner: Owner, e: Extent, t: Extent, a: nat)
    requires Owned(view, owner) && e in view && t !in view && 0 < a < view[e].npages
    ensures Owned(SplitView(view, e, t, a), SplitOwner(owner, view[e], t, a))
    ensures SplitOwner(owner, view[e], t, a).Keys == owner.Keys
  {
    var v, o := SplitView(view, e, t, a), SplitOwner(owner, view[e], t, a);
    forall x, p | x in v && v[x].Has(p) ensures p in o && o[p] == x {
      if x == e || x == t { assert view[e].Has(p); } else { assert view[x].Has(p) && owner[p] == x; }
    }
  }

  function MergeView(view: View, a: Extent, b: Extent): View
    requires a in view && b in view
  {
    (view - {b})[a := view[a].(npages := view[a].npages + view[b].npages)]
  }

  function MergeOwner(owner: Owner, a: Extent, b: Extent): Owner {
    map p | p in owner :: if owner[p] == b then a else owner[p]
  }

  lemma MergeOwned(view: View, owner: Owner, a: Extent, b: Extent)
    requires Owned(view, owner) && a in view && b in view && a != b
    requires view[b].first == view[a].first + view[a].npages
    ensures Owned(MergeView(view, a, b), MergeOwner(owner, a, b))
    ensures MergeOwner(owner, a, b).Keys == owner.Keys
  {
    var v, o := MergeView(view, a, b), MergeOwner(owner, a, b);
    assert forall x :: x in v <==> x in view && x != b;
    forall p | p in o ensures o[p] in v && v[o[p]].Has(p) {
      assert p in owner && owner[p] in view && view[owner[p]].Has(p);
    }
    forall x, p | x in v && v[x].Has(p) ensures p in o && o[p] == x {
      if x == a {
        assert view[a].Has(p) || view[b].Has(p);
      } else {
        assert view[x].Has(p) && owner[p] == x;
      }
    }
  }

  /** The leaves extent_merge_impl writes, in its order; either extent may have one page. */
  function MergeLeaves(leaves: Leaves, a: Extent, sa: Span, sb: Span): Leaves {
    leaves[sa.Last() := Null][sb.first := Null][sa.first := Ext(a, false)][sb.Last() := Ext(a, false)]
  }

  /** After a merge the two outer ends name the merged extent and its interior reads NULL. */
  lemma MergedLeaf(view: View, leaves: Leaves, a: Extent, b: Extent)
    requires a in view && b in view && a != b && !view[a].slab && !view[b].slab
    requires view[a].npages >= 1 && view[b].npages >= 1 && view[b].first == view[a].first + view[a].npages
    requires LeafOf(a, view[a], leaves) && LeafOf(b, view[b], leaves)
    ensures LeafOf(a, MergeView(view, a, b)[a], MergeLeaves(leaves, a, view[a], view[b]))
    ensures Within(MergeView(view, a, b)[a], leaves, MergeLeaves(leaves, a, view[a], view[b]))
    ensures var l := MergeLeaves(leaves, a, view[a], view[b]); At(l, view[a].first) == At(l, view[b].Last()) == Ext(a, false)
  {
    var l := MergeLeaves(leaves, a, view[a], view[b]);
    forall p | view[a].first < p < view[b].Last() ensures At(l, p) == Null {
      if p != view[a].Last() && p != view[b].first {
        assert At(l, p) == At(leaves, p);
      }
    }
  }

  lemma MergeMirrored(view: View, owner: Owner, leaves: Leaves, a: Extent, b: Extent)
    requires Owned(view, owner) && a in view && b in view && a != b && !view[a].slab && !view[b].slab
    requires view[b].first == view[a].first + view[a].npages
    requires Mirrored(view, leaves, {}) && Blank(owner, leaves)
    ensures Mirrored(MergeView(view, a, b), MergeLeaves(leaves, a, view[a], view[b]), {})
    ensures Blank(MergeOwner(owner, a, b), MergeLeaves(leaves, a, view[a], view[b]))
  {
    hide MergeLeaves, MergeOwner, LeafOf;
    MergedLeaf(view, leaves, a, b);
    MergeOwned(view, owner, a, b);
    Rewritten(view, MergeView(view, a, b), MergeOwner(owner, a, b), {a}, MergeView(view, a, b)[a], leaves,
      MergeLeaves(leaves, a, view[a], view[b]));
  }

  lemma PagesAre(lo: int, n: nat)
    ensures forall p :: p in Pages(lo, n) <==> lo <= p < lo + n
  {
  }

  function AddOwner(owner: Owner, s: Span, e: Extent): Owner {
    map p | p in owner.Keys + Pages(s.first, s.npages) :: if s.first <= p < s.first + s.npages then e else owner[p]
  }

  lemma AddOwnerAt(owner: Owner, s: Span, e: Extent)
    requires forall p :: s.Has(p) ==> p !in owner
    ensures AddOwner(owner, s, e).Keys == owner.Keys + Pages(s.first, s.npages)
    ensures forall p :: p in owner ==> AddOwner(owner, s, e)[p] == owner[p]
    ensures forall p :: s.Has(p) ==> AddOwner(owner, s, e)[p] == e
  {
  }

  lemma AddOwned(view: View, owner: Owner, e: Extent, s: Span)
    requires Owned(view, owner) && e !in view && s.npages >= 1
    requires forall p :: s.Has(p) ==> p !in owner
    ensures Owned(view[e := s], AddOwner(owner, s, e))
  {
    hide AddOwner, Pages;
    PagesAre(s.first, s.npages);
    AddOwnerAt(owner, s, e);
    ExtendOwned(view, owner, AddOwner(owner, s, e), e, s);
  }

  lemma ExtendOwned(view: View, owner: Owner, owner': Owner, e: Extent, s: Span)
    requires Owned(view, owner) && e !in view && s.npages >= 1
    requires forall p :: s.Has(p) ==> p !in owner && p in owner' && owner'[p] == e
    requires forall p :: p in owner ==> p in owner' && owner'[p] == owner[p]
    requires forall p :: p in owner' ==> p in owner || s.Has(p)
    ensures Owned(view[e := s], owner')
  {
    var v := view[e := s];
    forall p | p in owner' ensures owner'[p] in v && v[owner'[p]].Has(p) {
      if p !in owner { assert s.Has(p); } else { assert owner[p] in view; }
    }
    forall x, p | x in v && v[x].Has(p) ensures p in owner' && owner'[p] == x {
      if x != e { assert view[x].Has(p) && owner[p] == x; }
    }
  }

  // ------------------------------------------------------------------ what the free lists may hold

  /** The leaf names an extent that extent_can_coalesce accepts for `state`. */
  ghost predicate Mergeable(view: View, me: int, state: State, leaf: Leaf, inactiveOnly: bool) {
    && leaf.Ext? && leaf.e in view
    && view[leaf.e].arena == me && view[leaf.e].state == state
    && (inactiveOnly ==> !leaf.slab)
  }

  /** Neither page facing `s` names a neighbour to merge with. */
  ghost predicate Settled(view: View, leaves: Leaves, me: int, state: State, s: Span, inactiveOnly: bool) {
    && !Mergeable(view, me, state, At(leaves, s.first + s.npages), inactiveOnly)
    && !Mergeable(view, me, state, At(leaves, s.first - 1), inactiveOnly)
  }

  /** `e` became `r` by taking in extents of `pool`; nothing else changed. */
  ghost predicate Absorbed(before: View, after: View, e: Extent, r: Extent, pool: seq<Extent>) {
    && e in before && r in after && after.Keys <= before.Keys
    && (r == e || (r in pool && e !in after))
    && (forall x :: x in after && x != r ==> after[x] == before[x])
    && (forall x :: x in before && x !in after ==> x == e || x in pool)
    && after[r].first <= before[e].first
    && before[e].first + before[e].npages <= after[r].first + after[r].npages
  }

  /** An extent that borders `e` at page `p` and names that page starts, or ends, there. */
  lemma Borders(view: View, owner: Owner, e: Extent, x: Extent, p: int)
    requires Owned(view, owner) && e in view && x in view && x != e && p in owner && owner[p] == x
    requires p == view[x].first || p == view[x].Last()
    ensures p == view[e].first + view[e].npages ==> view[x].first == p
    ensures p == view[e].first - 1 ==> view[x].first + view[x].npages == view[e].first
  {
    NotBoth(view, owner, e, x, p - 1);
    NotBoth(view, owner, e, x, p + 1);
  }

  lemma NotBoth(view: View, owner: Owner, e: Extent, x: Extent, p: int)
    requires Owned(view, owner) && e in view && x in view && x != e
    ensures !(view[e].Has(p) && view[x].Has(p))
  {
    if view[e].Has(p) { assert owner[p] == e; }
  }

  /** What one extent_coalesce does to the view: the outer extent is activated and joined. */
  function Joined(view: View, e: Extent, outer: Extent, forward: bool): View
    requires e in view && outer in view && e != outer
  {
    var v := view[outer := view[outer].(state := Active)];
    if forward then MergeView(v, e, outer) else MergeView(v, outer, e)
  }

  lemma JoinedPages(view: View, e: Extent, outer: Extent, forward: bool)
    requires e in view && outer in view && e != outer
    ensures var r := if forward then e else outer;
      r in Joined(view, e, outer, forward) && Joined(view, e, outer, forward)[r].npages == view[e].npages + view[outer].npages
    ensures Joined(view, e, outer, forward).Keys <= view.Keys
  {
  }

  lemma AbsorbStep(before: View, view: View, e0: Extent, e: Extent, outer: Extent, forward: bool, pool: seq<Extent>)
    requires Absorbed(before, view, e0, e, pool) && outer in view && outer in pool && outer != e
    requires if forward then view[outer].first == view[e].first + view[e].npages
             else view[e].first == view[outer].first + view[outer].npages
    ensures Absorbed(before, Joined(view, e, outer, forward), e0, if forward then e else outer, pool)
  {
  }

  /** The page of `x` next to an extent before or behind it. */
  function Facing(x: Span, behind: bool): int {
    if behind then x.first else x.Last()
  }

  /** Every extent that the pages of `s` took in besides `e` faced it with its slab bit clear. */
  ghost predicate Faced(view: View, leaves: Leaves, e: Extent, s: Span) {
    e in view && forall x :: x in view && x != e && s.Has(view[x].first) ==>
      At(leaves, Facing(view[x], view[x].first > view[e].first)) == Ext(x, false)
  }

  lemma FacedSelf(view: View, owner: Owner, leaves: Leaves, e: Extent)
    requires Owned(view, owner) && e in view
    ensures Faced(view, leaves, e, view[e])
  {
    forall x | x in view && x != e ensures !view[e].Has(view[x].first) { NotBoth(view, owner, e, x, view[x].first); }
  }

  /** One more neighbour is taken in. */
  lemma FacedStep(v0: View, o0: Owner, l0: Leaves, e0: Extent, v: View, l: Leaves, e: Extent, outer: Extent, forward: bool, pool: seq<Extent>)
    requires Owned(v0, o0) && Absorbed(v0, v, e0, e, pool) && Faced(v0, l0, e0, v[e]) && Within(v[e], l0, l)
    requires outer in v && outer != e && At(l, Facing(v[outer], forward)) == Ext(outer, false) && v[outer].npages >= 1
    requires if forward then v[outer].first == v[e].first + v[e].npages else v[e].first == v[outer].first + v[outer].npages
    ensures var r, w := if forward then e else outer, Joined(v, e, outer, forward); r in w && Faced(v0, l0, e0, w[r])
  {
    var r := if forward then e else outer;
    var s := Joined(v, e, outer, forward)[r];
    assert v[outer] == v0[outer];
    forall x | x in v0 && x != e0 && s.Has(v0[x].first)
      ensures At(l0, Facing(v0[x], v0[x].first > v0[e0].first)) == Ext(x, false)
    {
      var p := v0[x].first;
      if !v[e].Has(p) {
        assert v0[outer].Has(p) && v0[x].Has(p);
        assert o0[p] == outer && o0[p] == x;
      }
    }
  }

  /**
    `e0` has become `e` by merging with neighbours out of `pool`: with
    `inactiveOnly` only such as faced it with a clear slab bit.  Only leaves of
    `e` have changed, and if it took in any both its ends name it with a clear bit.
   */
  ghost predicate Grown(v0: View, o0: Owner, l0: Leaves, e0: Extent, v: View, l: Leaves, e: Extent, pool: seq<Extent>, inactiveOnly: bool) {
    && Owned(v0, o0) && Absorbed(v0, v, e0, e, pool) && Within(v[e], l0, l)
    && (inactiveOnly ==> Faced(v0, l0, e0, v[e]))
    && if v[e].npages == v0[e0].npages then e == e0 && v == v0 && l == l0 else Named(e, v[e], l)
  }

  /** Both ends name the extent with a clear slab bit. */
  ghost predicate Named(e: Extent, s: Span, l: Leaves) {
    At(l, s.first) == Ext(e, false) && At(l, s.Last()) == Ext(e, false)
  }

  lemma GrownSelf(v: View, o: Owner, l: Leaves, e: Extent, pool: seq<Extent>, inactiveOnly: bool)
    requires Owned(v, o) && e in v
    ensures Grown(v, o, l, e, v, l, e, pool, inactiveOnly)
  {
    FacedSelf(v, o, l, e);
  }

  /** What a merge writes lies in the merged extent. */
  lemma MergeWrites(v: View, l: Leaves, e: Extent, outer: Extent, forward: bool)
    requires e in v && outer in v && outer != e && v[e].npages >= 1 && v[outer].npages >= 1
    requires if forward then v[outer].first == v[e].first + v[e].npages else v[e].first == v[outer].first + v[outer].npages
    ensures var r, o, w := if forward then e else outer, if forward then outer else e, Joined(v, e, outer, forward);
      && r in w && w[r].npages == v[e].npages + v[outer].npages && w[r].Has(v[e].first) && w[r].Has(v[e].Last())
      && Within(w[r], l, MergeLeaves(l, r, v[r], v[o])) && Named(r, w[r], MergeLeaves(l, r, v[r], v[o]))
  {
  }

  lemma GrownStep(v0: View, o0: Owner, l0: Leaves, e0: Extent, v: View, l: Leaves, e: Extent, pool: seq<Extent>, inactiveOnly: bool,
      outer: Extent, forward: bool)
    requires Grown(v0, o0, l0, e0, v, l, e, pool, inactiveOnly)
    requires outer in v && outer in pool && outer != e && v[outer].npages >= 1 && v[e].npages >= 1
    requires inactiveOnly ==> At(l, Facing(v[outer], forward)) == Ext(outer, false)
    requires if forward then v[outer].first == v[e].first + v[e].npages else v[e].first == v[outer].first + v[outer].npages
    ensures e in v && var r, o := if forward then e else outer, if forward then outer else e;
      Grown(v0, o0, l0, e0, Joined(v, e, outer, forward), MergeLeaves(l, r, v[r], v[o]), r, pool, inactiveOnly)
  {
    hide Joined, MergeLeaves, Owned, Faced, Named, At, Facing;
    MergeWrites(v, l, e, outer, forward);
    AbsorbStep(v0, v, e0, e, outer, forward, pool);
    if inactiveOnly { FacedStep(v0, o0, l0, e0, v, l, e, outer, forward, pool); }
  }

  /** What freeing `e0` leaves: `e` with the neighbours it took in; alone, a slab keeps its slab bit at both ends. */
  ghost predicate Released(v0: View, l0: Leaves, e0: Extent, v: View, l: Leaves, e: Extent, pool: seq<Extent>, inactiveOnly: bool) {
    && Absorbed(v0, v, e0, e, pool) && Within(v[e], l0, l)
    && (inactiveOnly ==> Faced(v0, l0, e0, v[e]))
    && if v[e].npages != v0[e0].npages then Named(e, v[e], l)
       else e == e0 && if v0[e0].slab then Deregistered(e, v[e], l) else l == l0
  }

  lemma ReleasedOf(v0: View, o0: Owner, l0: Leaves, e0: Extent, l1: Leaves, v: View, l: Leaves, e: Extent, pool: seq<Extent>,
      inactiveOnly: bool, state: State)
    requires e0 in v0 && Owned(v0, o0) && Within(v0[e0], l0, l1) && if v0[e0].slab then Deregistered(e0, v0[e0], l1) else l1 == l0
    requires Grown(v0[e0 := v0[e0].(slab := false)], o0, l1, e0, v, l, e, pool, inactiveOnly)
    ensures Released(v0, l0, e0, v[e := v[e].(state := state)], l, e, pool, inactiveOnly)
  {
    hide Faced, At;
    if inactiveOnly { FacedBefore(v0, o0, l0, e0, l1, v[e], state); }
  }

  lemma ReleasedAbsorbs(v0: View, l0: Leaves, e0: Extent, v: View, l: Leaves, e: Extent, pool: seq<Extent>, inactiveOnly: bool)
    requires Released(v0, l0, e0, v, l, e, pool, inactiveOnly)
    ensures Absorbed(v0, v, e0, e, pool)
  {
  }

  lemma GrownAbsorbs(v0: View, o0: Owner, l0: Leaves, e0: Extent, v: View, l: Leaves, e: Extent, pool: seq<Extent>, inactiveOnly: bool)
    requires Grown(v0, o0, l0, e0, v, l, e, pool, inactiveOnly)
    ensures Absorbed(v0, v, e0, e, pool)
  {
  }

  lemma RemainsIn(l0: seq<Extent>, list: seq<Extent>, x: Extent)
    requires Remains(l0, list) && x in list
    ensures x in l0
  {
  }

  /** Writing the extent's own pages does not change how its neighbours face it. */
  lemma FacedBefore(v0: View, o0: Owner, l0: Leaves, e0: Extent, l1: Leaves, s: Span, state: State)
    requires e0 in v0 && Owned(v0, o0) && Within(v0[e0], l0, l1) && Faced(v0[e0 := v0[e0].(slab := false)], l1, e0, s)
    ensures Faced(v0, l0, e0, s.(state := state))
  {
    var v1 := v0[e0 := v0[e0].(slab := false)];
    forall x | x in v0 && x != e0 && s.Has(v0[x].first)
      ensures At(l0, Facing(v0[x], v0[x].first > v0[e0].first)) == Ext(x, false)
    {
      assert v1[x] == v0[x];
      NotBoth(v0, o0, e0, x, Facing(v0[x], v0[x].first > v0[e0].first));
    }
  }

  // ------------------------------------------------------------------ runs of mapped pages

  ghost predicate AllIn(space: set<int>, p: int, n: nat) {
    forall q :: p <= q < p + n ==> q in space
  }

  /** No run of mapped pages is longer than the largest page class. */
  ghost predicate RunsBounded(space: set<int>) {
    forall p, n: nat :: AllIn(space, p, n) ==> n <= LARGEST
  }

  lemma SpanBounded(view: View, owner: Owner, space: set<int>, e: Extent)
    requires Owned(view, owner) && owner.Keys <= space && RunsBounded(space) && e in view
    ensures view[e].npages <= LARGEST
  {
    forall q | view[e].Has(q) ensures q in space { assert q in owner; }
    assert AllIn(space, view[e].first, view[e].npages);
  }

  // ------------------------------------------------------------------ counting pages

  ghost function SpanSum(view: View, s: seq<Extent>): nat
    requires forall x :: x in s ==> x in view
  {
    if s == [] then 0 else view[s[0]].npages + SpanSum(view, s[1..])
  }

  ghost function LastPages(view: View, s: seq<Extent>): nat
    requires forall x :: x in s ==> x in view
  {
    if s == [] then 0 else view[s[|s| - 1]].npages
  }

  lemma {:induction false} SumSame(v: View, w: View, s: seq<Extent>)
    requires forall x :: x in s ==> x in v && x in w && v[x] == w[x]
    ensures SpanSum(v, s) == SpanSum(w, s)
  {
    if s != [] { SumSame(v, w, s[1..]); }
  }

  lemma {:induction false} SumPush(v: View, s: seq<Extent>, e: Extent)
    requires e in v && forall x :: x in s ==> x in v
    ensures SpanSum(v, s + [e]) == SpanSum(v, s) + v[e].npages
  {
    if s != [] {
      assert (s + [e])[1..] == s[1..] + [e];
      SumPush(v, s[1..], e);
    }
  }

  function PagesOf(owner: Owner, s: seq<Extent>): set<int> {
    set p | p in owner && owner[p] in s
  }

  /** The page count of a list of distinct extents is the number of pages they own. */
  lemma {:induction false} SumCountsPages(view: View, owner: Owner, s: seq<Extent>)
    requires Owned(view, owner) && NoDup(s) && forall x :: x in s ==> x in view
    ensures SpanSum(view, s) == |PagesOf(owner, s)|
  {
    if s == [] {
      assert PagesOf(owner, s) == {};
    } else {
      var v := view[s[0]];
      assert NoDup(s[1..]) && s[0] !in s[1..];
      SumCountsPages(view, owner, s[1..]);
      FirstPages(view, owner, s);
    }
  }

  lemma FirstPages(view: View, owner: Owner, s: seq<Extent>)
    requires Owned(view, owner) && s != [] && s[0] in view && s[0] !in s[1..]
    ensures |PagesOf(owner, s)| == view[s[0]].npages + |PagesOf(owner, s[1..])|
  {
    var v := view[s[0]];
    var mine := Pages(v.first, v.npages);
    forall p ensures p in mine <==> p in owner && owner[p] == s[0] {
      if p in mine { assert v.Has(p); }
    }
    assert PagesOf(owner, s) == mine + PagesOf(owner, s[1..]);
    assert mine !! PagesOf(owner, s[1..]);
  }

  // ------------------------------------------------------------------ the books of one arena

  /**
    What is known of the address space beyond the page map: the extents and the
    pages they own; every mapped page, of any arena; the pages this arena mapped;
    the remainders of its fresh region that were given up; and the extents in the
    hands of a caller.
   */
  datatype Ledger = Ledger(view: View, owner: Owner, space: set<int>, mine: set<int>, dropped: set<int>, live: set<Extent>)

  /** The arena's mapped pages are its extents', its fresh region's and the dropped ones; no page counts twice. */
  ghost predicate Accounted(me: int, g: Ledger, region: set<int>)
    requires Owned(g.view, g.owner)
  {
    && (forall p :: p in g.mine <==> (p in g.owner && g.view[g.owner[p]].arena == me) || p in region || p in g.dropped)
    && g.owner.Keys !! region && g.owner.Keys !! g.dropped && region !! g.dropped
  }

  /** A live extent is active, and its first page tells whether it is a slab. */
  ghost predicate Handed(view: View, leaves: Leaves, live: set<Extent>) {
    forall e :: e in live ==>
      && e in view && view[e].state == Active
      && (!view[e].slab ==> At(leaves, view[e].first) == Ext(e, false))
  }

  /** The books hold, save that the pages of the extents in `but` may still be written. */
  ghost predicate Ok(me: int, g: Ledger, leaves: Leaves, region: set<int>, but: set<Extent>) {
    && Owned(g.view, g.owner) && Mirrored(g.view, leaves, but) && Blank(g.owner, leaves)
    && g.owner.Keys <= g.space && g.mine <= g.space && RunsBounded(g.space)
    && Accounted(me, g, region)
    && Handed(g.view, leaves, g.live)
  }

  /** A free list holds exactly the arena's extents of its state. */
  ghost predicate Listed(me: int, view: View, state: State, lru: seq<Extent>) {
    && (forall e :: e in lru ==> e in view && view[e].arena == me && view[e].state == state)
    && (forall e :: e in view && view[e].arena == me && view[e].state == state ==> e in lru)
  }

  lemma NoneListed(me: int, view: View, state: State)
    requires forall e :: e in view ==> view[e].arena != me
    ensures Listed(me, view, state, [])
  {
  }

  lemma MergeListed(me: int, view: View, state: State, lru: seq<Extent>, a: Extent, b: Extent)
    requires Listed(me, view, state, lru) && a in view && b in view && view[a].state != state && view[b].state != state
    ensures Listed(me, MergeView(view, a, b), state, lru)
    ensures a !in lru && b !in lru
  {
  }

  /** Changing what extents are called, not whose pages are whose arena's, keeps the account. */
  lemma SameAccount(me: int, g: Ledger, g': Ledger, region: set<int>)
    requires Owned(g.view, g.owner) && Owned(g'.view, g'.owner) && Accounted(me, g, region)
    requires g'.mine == g.mine && g'.dropped == g.dropped && g'.owner.Keys == g.owner.Keys
    requires forall p :: p in g.owner ==> g'.view[g'.owner[p]].arena == g.view[g.owner[p]].arena
    ensures Accounted(me, g', region)
  {
  }

  /** Writing pages of one extent that is not live leaves the live extents' first pages alone. */
  lemma SameHanded(view: View, owner: Owner, leaves: Leaves, live: set<Extent>, view': View, leaves': Leaves, pages: Span)
    requires Owned(view, owner) && Handed(view, leaves, live) && Within(pages, leaves, leaves')
    requires forall p :: pages.Has(p) && p in owner ==> owner[p] !in live
    requires forall e :: e in live ==> e in view' && view'[e] == view[e]
    ensures Handed(view', leaves', live)
  {
    forall e | e in live && !view'[e].slab ensures At(leaves', view'[e].first) == Ext(e, false) {
      assert view[e].Has(view[e].first) && owner[view[e].first] == e;
    }
  }

  function Merged(g: Ledger, a: Extent, b: Extent): Ledger
    requires a in g.view && b in g.view
  {
    g.(view := MergeView(g.view, a, b), owner := MergeOwner(g.owner, a, b))
  }

  /** extent_merge_impl keeps the books. */
  lemma MergeOk(me: int, g: Ledger, leaves: Leaves, region: set<int>, a: Extent, b: Extent)
    requires Ok(me, g, leaves, region, {}) && a in g.view && b in g.view && a != b && a !in g.live && b !in g.live
    requires !g.view[a].slab && !g.view[b].slab && g.view[a].arena == g.view[b].arena
    requires g.view[b].first == g.view[a].first + g.view[a].npages
    ensures Ok(me, Merged(g, a, b), MergeLeaves(leaves, a, g.view[a], g.view[b]), region, {})
  {
    hide Owned, Mirrored, Blank, Accounted, Handed, RunsBounded, MergeView, MergeOwner, MergeLeaves, Within;
    var g', l' := Merged(g, a, b), MergeLeaves(leaves, a, g.view[a], g.view[b]);
    MergeOwned(g.view, g.owner, a, b);
    MergeMirrored(g.view, g.owner, leaves, a, b);
    MergeRest(g, leaves, a, b);
    SameAccount(me, g, g', region);
    SameHanded(g.view, g.owner, leaves, g.live, g'.view, l', g'.view[a]);
  }

  /** A merge leaves each page in its arena, writes the pages of the two extents only, and touches no live extent. */
  lemma MergeRest(g: Ledger, leaves: Leaves, a: Extent, b: Extent)
    requires Owned(g.view, g.owner) && Mirrored(g.view, leaves, {}) && Handed(g.view, leaves, g.live)
    requires a in g.view && b in g.view && a != b && a !in g.live && b !in g.live
    requires !g.view[a].slab && !g.view[b].slab && g.view[a].arena == g.view[b].arena
    requires g.view[b].first == g.view[a].first + g.view[a].npages
    ensures a in MergeView(g.view, a, b) && Within(MergeView(g.view, a, b)[a], leaves, MergeLeaves(leaves, a, g.view[a], g.view[b]))
    ensures forall p :: p in g.owner ==> p in MergeOwner(g.owner, a, b) && MergeOwner(g.owner, a, b)[p] in MergeView(g.view, a, b)
    ensures forall p :: p in g.owner ==> MergeView(g.view, a, b)[MergeOwner(g.owner, a, b)[p]].arena == g.view[g.owner[p]].arena
    ensures forall p :: MergeView(g.view, a, b)[a].Has(p) && p in g.owner ==> g.owner[p] !in g.live
    ensures forall e :: e in g.live ==> e in g.view && e in MergeView(g.view, a, b) && MergeView(g.view, a, b)[e] == g.view[e]
  {
    hide MergeLeaves;
    MergedLeaf(g.view, leaves, a, b);
    forall p | MergeView(g.view, a, b)[a].Has(p) && p in g.owner ensures g.owner[p] !in g.live {
      assert g.view[a].Has(p) || g.view[b].Has(p);
    }
  }

  /** Rewriting what one extent records of itself, its pages and arena apart. */
  function Recast(g: Ledger, e: Extent, s: Span): Ledger {
    g.(view := g.view[e := s])
  }

  lemma RecastOwned(view: View, owner: Owner, e: Extent, s: Span)
    requires Owned(view, owner) && e in view && s.first == view[e].first && s.npages == view[e].npages
    ensures Owned(view[e := s], owner)
  {
    var v := view[e := s];
    forall x, p | x in v && v[x].Has(p) ensures p in owner && owner[p] == x {
      assert view[x].Has(p);
    }
  }

  lemma RecastOk(me: int, g: Ledger, leaves: Leaves, region: set<int>, but: set<Extent>, e: Extent, s: Span)
    requires Ok(me, g, leaves, region, but) && e in g.view && e !in g.live
    requires s.arena == g.view[e].arena && s.first == g.view[e].first && s.npages == g.view[e].npages
    requires e !in but ==> s.slab == g.view[e].slab && s.vslab == g.view[e].vslab
    ensures Ok(me, Recast(g, e, s), leaves, region, but)
  {
    hide Owned, RunsBounded;
    var g' := Recast(g, e, s);
    RecastOwned(g.view, g.owner, e, s);
    OwnedInView(g.view, g.owner);
    forall x | x in g'.view && x !in but ensures LeafOf(x, g'.view[x], leaves) {
      assert LeafOf(x, g.view[x], leaves);
    }
    SameAccount(me, g, g', region);
  }

  lemma RecastListed(me: int, view: View, state: State, lru: seq<Extent>, e: Extent, s: Span)
    requires Listed(me, view, state, lru) && (e in view ==> view[e].arena == s.arena)
    ensures (e in view ==> view[e].state != state) && s.state != state ==> Listed(me, view[e := s], state, lru) && e !in lru
    ensures s.arena == me && s.state == state ==> Listed(me, view[e := s], state, lru + [e])
    ensures e in lru && NoDup(lru) && s.state != state ==> Listed(me, view[e := s], state, Without(lru, e))
  {
    if e in lru && NoDup(lru) { WithoutSum(lru, e); }
  }

  // ------------------------------------------------------------------ split

  /** The leaves extent_split_impl writes, in its order, `lead` being what the first part is to read as. */
  function SplitLeaves(leaves: Leaves, lead: Leaf, t: Extent, s: Span, a: nat): Leaves {
    leaves[s.first := lead][s.first + a - 1 := lead][s.first + a := Ext(t, false)][s.Last() := Ext(t, false)]
  }

  function Divided(g: Ledger, e: Extent, t: Extent, a: nat): Ledger
    requires e in g.view && a <= g.view[e].npages
  {
    g.(view := SplitView(g.view, e, t, a), owner := SplitOwner(g.owner, g.view[e], t, a))
  }

  /** Both halves read well after a split of an extent that is no slab, the first as `lead` at its ends. */
  lemma SplitLeaf(leaves: Leaves, lead: Leaf, e: Extent, t: Extent, s: Span, a: nat)
    requires LeafOf(e, s, leaves) && !s.slab && 0 < a < s.npages
    ensures var l := SplitLeaves(leaves, lead, t, s, a);
      && Within(s, leaves, l) && At(l, s.first) == lead && At(l, s.first + a - 1) == lead
      && (forall p :: s.first < p < s.first + a - 1 ==> At(l, p) == Null)
      && LeafOf(t, s.(first := s.first + a, npages := s.npages - a), l)
  {
    var l := SplitLeaves(leaves, lead, t, s, a);
    forall p | s.first < p < s.Last() && p != s.first + a - 1 && p != s.first + a ensures At(l, p) == Null {
      assert At(leaves, p) == Null;
    }
  }

  lemma SplitAccount(me: int, g: Ledger, region: set<int>, e: Extent, t: Extent, a: nat)
    requires Owned(g.view, g.owner) && Accounted(me, g, region) && e in g.view && t !in g.view && 0 < a < g.view[e].npages
    ensures var g' := Divided(g, e, t, a); Owned(g'.view, g'.owner) && Accounted(me, g', region)
    ensures forall p :: g.view[e].Has(p) ==> p in Divided(g, e, t, a).owner && Divided(g, e, t, a).owner[p] in {e, t}
  {
    SplitOwned(g.view, g.owner, e, t, a);
    var s, g' := g.view[e], Divided(g, e, t, a);
    forall p | p in g.owner ensures g'.view[g'.owner[p]].arena == g.view[g.owner[p]].arena {
      if s.Has(p) { assert g.owner[p] == e; } else { assert g.owner[p] != t; }
    }
    SameAccount(me, g, g', region);
  }

  lemma SplitOk(me: int, g: Ledger, leaves: Leaves, region: set<int>, e: Extent, t: Extent, a: nat, lead: Leaf)
    requires Ok(me, g, leaves, region, {}) && e in g.view && t !in g.view && e !in g.live
    requires !g.view[e].slab && 0 < a < g.view[e].npages
    ensures Ok(me, Divided(g, e, t, a), SplitLeaves(leaves, lead, t, g.view[e], a), region, {e})
  {
    hide LeafOf, SplitLeaves, SplitOwner, Accounted, RunsBounded, Owned;
    var s, g' := g.view[e], Divided(g, e, t, a);
    var l' := SplitLeaves(leaves, lead, t, s, a);
    SplitLeaf(leaves, lead, e, t, s, a);
    SplitAccount(me, g, region, e, t, a);
    SplitOwned(g.view, g.owner, e, t, a);
    Rewritten(g.view, g'.view, g'.owner, {e, t}, s, leaves, l');
    OwnPages(g.view, g.owner, e);
    SameHanded(g.view, g.owner, leaves, g.live, g'.view, l', s);
  }

  lemma OwnPages(view: View, owner: Owner, e: Extent)
    requires Owned(view, owner) && e in view
    ensures forall p :: view[e].Has(p) ==> p in owner && owner[p] == e
  {
  }

  /** The leaf `lead` at both ends of a span, and nothing inside it. */
  ghost predicate Led(s: Span, lead: Leaf, leaves: Leaves) {
    InteriorNull(s, leaves) && At(leaves, s.first) == lead && At(leaves, s.Last()) == lead
  }

  lemma SplitReads(me: int, g: Ledger, leaves: Leaves, region: set<int>, e: Extent, t: Extent, a: nat, lead: Leaf)
    requires Ok(me, g, leaves, region, {}) && e in g.view && !g.view[e].slab && 0 < a < g.view[e].npages
    ensures Led(g.view[e].(npages := a), lead, SplitLeaves(leaves, lead, t, g.view[e], a))
  {
    hide Ok, LeafOf, SplitLeaves, At;
    LeafStands(me, g, leaves, region, e);
    SplitLeaf(leaves, lead, e, t, g.view[e], a);
  }

  lemma LeafStands(me: int, g: Ledger, leaves: Leaves, region: set<int>, e: Extent)
    requires Ok(me, g, leaves, region, {}) && e in g.view
    ensures LeafOf(e, g.view[e], leaves)
  {
    hide LeafOf;
  }

  lemma SplitListed(me: int, view: View, state: State, lru: seq<Extent>, e: Extent, t: Extent, a: nat)
    requires Listed(me, view, state, lru) && e in view && t !in view && view[e].state != state && a <= view[e].npages
    ensures Listed(me, SplitView(view, e, t, a), state, lru)
    ensures e !in lru && t !in lru
  {
  }

  /** An extent whose pages are in order needs no exemption any more. */
  lemma Finished(me: int, g: Ledger, leaves: Leaves, region: set<int>, e: Extent)
    requires Ok(me, g, leaves, region, {e}) && (e in g.view ==> LeafOf(e, g.view[e], leaves))
    ensures Ok(me, g, leaves, region, {})
  {
  }

  /** Writing pages of an extent that is not live keeps the rest of the books. */
  lemma WriteOk(me: int, g: Ledger, leaves: Leaves, leaves': Leaves, region: set<int>, e: Extent)
    requires Ok(me, g, leaves, region, {e}) && e in g.view && e !in g.live && Within(g.view[e], leaves, leaves')
    ensures Ok(me, g, leaves', region, {e})
  {
    WriteInside(g.view, g.owner, e, leaves, leaves', {e});
    forall p | p !in g.owner ensures At(leaves', p) == Null { assert !g.view[e].Has(p); }
    forall p | g.view[e].Has(p) && p in g.owner ensures g.owner[p] !in g.live { assert g.owner[p] == e; }
    SameHanded(g.view, g.owner, leaves, g.live, g.view, leaves', g.view[e]);
  }

  // ------------------------------------------------------------------ extents over pages that had none

  /** Loose pages become an extent's. */
  function Adopted(g: Ledger, e: Extent, s: Span): Ledger {
    g.(view := g.view[e := s], owner := AddOwner(g.owner, s, e), dropped := g.dropped - Pages(s.first, s.npages))
  }

  lemma LooseUnowned(me: int, g: Ledger, region: set<int>, s: Span)
    requires Owned(g.view, g.owner) && Accounted(me, g, region) && Pages(s.first, s.npages) <= g.dropped
    ensures forall p :: s.Has(p) ==> p !in g.owner
  {
    forall p | s.Has(p) ensures p !in g.owner { assert p in g.dropped; }
  }

  lemma OwnedInView(view: View, owner: Owner)
    requires Owned(view, owner)
    ensures forall p :: p in owner ==> owner[p] in view
  {
  }

  lemma AdoptAccount(me: int, g: Ledger, region: set<int>, e: Extent, s: Span)
    requires Owned(g.view, g.owner) && Accounted(me, g, region) && e !in g.view && s.npages >= 1 && s.arena == me
    requires Pages(s.first, s.npages) <= g.dropped
    ensures var g' := Adopted(g, e, s); Owned(g'.view, g'.owner) && Accounted(me, g', region)
    ensures Adopted(g, e, s).owner.Keys == g.owner.Keys + Pages(s.first, s.npages)
    ensures Pages(s.first, s.npages) <= g.mine
  {
    hide AddOwner, Pages, Owned;
    var g' := Adopted(g, e, s);
    PagesAre(s.first, s.npages);
    LooseUnowned(me, g, region, s);
    AddOwnerAt(g.owner, s, e);
    AddOwned(g.view, g.owner, e, s);
    OwnedInView(g.view, g.owner);
    forall p ensures p in g'.mine <==> (p in g'.owner && g'.view[g'.owner[p]].arena == me) || p in region || p in g'.dropped {
      if s.Has(p) { assert p in g.dropped && p in g'.owner; }
    }
  }

  lemma AdoptOk(me: int, g: Ledger, leaves: Leaves, leaves': Leaves, region: set<int>, e: Extent, s: Span)
    requires Ok(me, g, leaves, region, {}) && e !in g.view && s.npages >= 1 && s.arena == me && e !in g.live
    requires Pages(s.first, s.npages) <= g.dropped && Within(s, leaves, leaves')
    ensures Ok(me, Adopted(g, e, s), leaves', region, {e})
  {
    hide LeafOf, Accounted, RunsBounded, Owned, AddOwner, Pages;
    var g' := Adopted(g, e, s);
    AdoptAccount(me, g, region, e, s);
    OwnPages(g'.view, g'.owner, e);
    Rewritten(g.view, g'.view, g'.owner, {e}, s, leaves, leaves');
    LooseUnowned(me, g, region, s);
    SameHanded(g.view, g.owner, leaves, g.live, g'.view, leaves', s);
  }

  /** Pages leave the fresh region, to be adopted or given up. */
  lemma LoosenOk(me: int, g: Ledger, leaves: Leaves, region: set<int>, region': set<int>)
    requires Ok(me, g, leaves, region, {}) && region' <= region
    ensures Ok(me, g.(dropped := g.dropped + (region - region')), leaves, region', {})
  {
    var g' := g.(dropped := g.dropped + (region - region'));
    forall p ensures p in region' || p in g'.dropped <==> p in region || p in g.dropped { }
    assert Accounted(me, g', region');
  }

  /** The front of the fresh region is cut off. */
  lemma BumpOk(me: int, g: Ledger, leaves: Leaves, first: int, n: nat, k: nat)
    requires Ok(me, g, leaves, Pages(first, n), {}) && k <= n
    ensures Ok(me, g.(dropped := g.dropped + Pages(first, k)), leaves, Pages(first + k, n - k), {})
  {
    LoosenOk(me, g, leaves, Pages(first, n), Pages(first + k, n - k));
    assert Pages(first, n) - Pages(first + k, n - k) == Pages(first, k);
  }

  /** A new chunk becomes the fresh region once the old one is used up. */
  lemma MapOk(me: int, g: Ledger, leaves: Leaves, chunk: set<int>)
    requires Ok(me, g, leaves, {}, {}) && chunk !! g.space && RunsBounded(g.space + chunk)
    ensures Ok(me, g.(space := g.space + chunk, mine := g.mine + chunk), leaves, chunk, {})
  {
    forall p | p in g.dropped ensures p in g.space { assert p in g.mine; }
    assert Accounted(me, g.(space := g.space + chunk, mine := g.mine + chunk), chunk);
  }

  /** Exempting an extent asks less. */
  lemma ExemptOk(me: int, g: Ledger, leaves: Leaves, region: set<int>, e: Extent)
    requires Ok(me, g, leaves, region, {})
    ensures Ok(me, g, leaves, region, {e})
  {
  }

  /** An extent leaves its caller's hands. */
  lemma ReleaseOk(me: int, g: Ledger, leaves: Leaves, region: set<int>, e: Extent)
    requires Ok(me, g, leaves, region, {})
    ensures Ok(me, g.(live := g.live - {e}), leaves, region, {})
  {
  }

  /** An active extent whose first page reads as it should goes to a caller. */
  lemma HandOk(me: int, g: Ledger, leaves: Leaves, region: set<int>, e: Extent)
    requires Ok(me, g, leaves, region, {}) && e in g.view && g.view[e].state == Active
    requires !g.view[e].slab ==> At(leaves, g.view[e].first) == Ext(e, false)
    ensures Ok(me, g.(live := g.live + {e}), leaves, region, {})
  {
  }

  /** The pages of a freed slab: NULL inside, the extent at both ends with the slab bit still set. */
  ghost predicate Deregistered(e: Extent, s: Span, leaves: Leaves) {
    && At(leaves, s.first) == Ext(e, true) && At(leaves, s.Last()) == Ext(e, true)
    && forall p :: s.first < p < s.Last() ==> At(leaves, p) == Null
  }

  lemma DeregisterOk(me: int, g: Ledger, leaves: Leaves, leaves': Leaves, region: set<int>, e: Extent)
    requires Ok(me, g, leaves, region, {}) && e in g.view && e !in g.live
    requires Within(g.view[e], leaves, leaves') && Deregistered(e, g.view[e], leaves')
    ensures Ok(me, Recast(g, e, g.view[e].(slab := false)), leaves', region, {})
  {
    var s := g.view[e].(slab := false);
    ExemptOk(me, g, leaves, region, e);
    WriteOk(me, g, leaves, leaves', region, e);
    RecastOk(me, g, leaves', region, {e}, e, s);
    Finished(me, Recast(g, e, s), leaves', region, e);
  }

  /** Filing an extent that has settled leaves it settled. */
  lemma StaysSettled(me: int, view: View, owner: Owner, leaves: Leaves, state: State, e: Extent, inactiveOnly: bool)
    requires Owned(view, owner) && Mirrored(view, leaves, {}) && Blank(owner, leaves) && e in view
    requires Settled(view, leaves, me, state, view[e], inactiveOnly)
    ensures Settled(view[e := view[e].(state := state)], leaves, me, state, view[e].(state := state), inactiveOnly)
  {
    hide Owned, Mirrored, Blank;
    var past, before := view[e].first + view[e].npages, view[e].first - 1;
    assert !view[e].Has(past) && !view[e].Has(before);
    NotNamed(view, owner, leaves, e, past);
    NotNamed(view, owner, leaves, e, before);
  }

  /** A page outside an extent does not name it. */
  lemma NotNamed(view: View, owner: Owner, leaves: Leaves, e: Extent, p: int)
    requires Owned(view, owner) && Mirrored(view, leaves, {}) && Blank(owner, leaves) && e in view && !view[e].Has(p)
    ensures !(At(leaves, p).Ext? && At(leaves, p).e == e)
  {
    if At(leaves, p).Ext? { NamedAtEnd(view, owner, leaves, p); }
  }

  /** The list `l0` with some extents gone. */
  ghost predicate Remains(l0: seq<Extent>, list: seq<Extent>) {
    (forall x :: x in list ==> x in l0) && forall i, j :: 0 <= i < j < |list| ==> Precedes(l0, list[i], list[j])
  }

  lemma RemainsWithout(l0: seq<Extent>, list: seq<Extent>, e: Extent)
    requires Remains(l0, list)
    ensures Remains(l0, Without(list, e))
  {
    var r := Without(list, e);
    forall i, j | 0 <= i < j < |r| ensures Precedes(l0, r[i], r[j]) {
      var k, l := WithoutOrder(list, e, i, j);
    }
  }

  lemma RemainsSelf(list: seq<Extent>)
    ensures Remains(list, list)
  {
    forall i, j | 0 <= i < j < |list| ensures Precedes(list, list[i], list[j]) { }
  }

  /** A free list in the order of its beginning `l0`, with the extents that have merged since behind. */
  ghost predicate Aged(l0: seq<Extent>, list: seq<Extent>, merged: set<Extent>) {
    forall i, j :: 0 <= i < j < |list| ==>
      if list[i] in merged then list[j] in merged else list[j] in merged || Precedes(l0, list[i], list[j])
  }

  lemma AgedWithout(l0: seq<Extent>, list: seq<Extent>, merged: set<Extent>, e: Extent)
    requires Aged(l0, list, merged)
    ensures Aged(l0, Without(list, e), merged)
  {
    var r := Without(list, e);
    forall i, j | 0 <= i < j < |r| ensures if r[i] in merged then r[j] in merged else r[j] in merged || Precedes(l0, r[i], r[j]) {
      var k, l := WithoutOrder(list, e, i, j);
    }
  }

  /** Two extents that are not listed have merged into one of them, which goes to the end. */
  lemma AgedPush(l0: seq<Extent>, list: seq<Extent>, merged: set<Extent>, a: Extent, b: Extent, r: Extent)
    requires Aged(l0, list, merged) && a !in list && b !in list && r in {a, b}
    ensures Aged(l0, list + [r], merged + {a, b})
  {
  }

  /** Extents in `merged` are gone or have grown; none has shrunk. */
  ghost predicate Outgrown(v0: View, view: View, merged: set<Extent>) {
    && view.Keys <= v0.Keys && (forall x :: x in view ==> v0[x].npages <= view[x].npages)
    && (forall x :: x in merged ==> x in v0 && (x in view ==> v0[x].npages < view[x].npages))
  }

  /** Of the extents of `l0` that have not merged since `r` is the oldest, and it has merged itself only when no other is left. */
  ghost predicate Oldest(l0: seq<Extent>, list: seq<Extent>, r: Extent, v0: View, view: View, merged: set<Extent>) {
    && Aged(l0, [r] + list, merged) && Outgrown(v0, view, merged)
    && (forall x :: x in l0 && x !in merged ==> x == r || x in list)
    && r in l0 && forall x :: x in list ==> x in l0
  }

  lemma OutgrownRecast(v0: View, view: View, merged: set<Extent>, e: Extent, s: Span)
    requires Outgrown(v0, view, merged) && e in view && s.npages == view[e].npages
    ensures Outgrown(v0, view[e := s], merged)
  {
  }

  lemma OutgrownJoined(v0: View, view: View, merged: set<Extent>, e: Extent, outer: Extent, forward: bool)
    requires Outgrown(v0, view, merged) && e in view && outer in view && e != outer && view[e].npages >= 1 && view[outer].npages >= 1
    ensures Outgrown(v0, Joined(view, e, outer, forward), merged + {e, outer})
  {
  }

  /** The free list `l0` some merges later. */
  ghost predicate Waiting(l0: seq<Extent>, list: seq<Extent>, v0: View, view: View, merged: set<Extent>) {
    && Aged(l0, list, merged) && Outgrown(v0, view, merged)
    && (forall x :: x in l0 && x !in merged ==> x in list) && forall x :: x in list ==> x in l0
  }

  lemma WaitingStart(list: seq<Extent>, view: View)
    ensures Waiting(list, list, view, view, {})
  {
  }

  /** The first of the list is the oldest. */
  lemma WaitingOldest(l0: seq<Extent>, list: seq<Extent>, v0: View, view: View, merged: set<Extent>, s: Span)
    requires Waiting(l0, list, v0, view, merged) && list != [] && list[0] in view && s.npages == view[list[0]].npages
    ensures Oldest(l0, list[1..], list[0], v0, view[list[0] := s], merged)
  {
    hide Aged;
    assert [list[0]] + list[1..] == list;
    OutgrownRecast(v0, view, merged, list[0], s);
  }

  /** The first of the list merges with another of it, and what they become goes to the end. */
  lemma WaitingMerged(l0: seq<Extent>, list: seq<Extent>, v0: View, v1: View, merged: set<Extent>, e: Extent, s: Span, outer: Extent,
      x: Extent, v3: View, s': Span)
    requires Waiting(l0, list, v0, v1, merged) && list != [] && list[0] == e && e in v1 && s.npages == v1[e].npages >= 1
    requires outer != e && outer in list && outer in v1 && v1[outer].npages >= 1 && e !in Without(list[1..], outer) && outer !in Without(list[1..], outer)
    requires (v3 == Joined(v1[e := s], e, outer, true) && x == e) || (v3 == Joined(v1[e := s], e, outer, false) && x == outer)
    requires x in v3 && s'.npages == v3[x].npages
    ensures Waiting(l0, Without(list[1..], outer) + [x], v0, v3[x := s'], merged + {e, outer})
  {
    hide Aged, Outgrown, Joined, Without;
    HeadWithout(list);
    AgedWithout(l0, list, merged, e);
    AgedWithout(l0, list[1..], merged, outer);
    AgedPush(l0, Without(list[1..], outer), merged, e, outer, x);
    OutgrownRecast(v0, v1, merged, e, s);
    OutgrownJoined(v0, v1[e := s], merged, e, outer, x == e);
    OutgrownRecast(v0, v3, merged + {e, outer}, x, s');
  }

  /**
    The free list `l0` after the extents `gone` have left it: they, and then what
    is left, stand in its order, but for those that have merged since, which come
    last.
   */
  ghost predicate Drained(l0: seq<Extent>, gone: seq<Extent>, list: seq<Extent>, v0: View, view: View, merged: set<Extent>) {
    && Aged(l0, gone + list, merged) && Outgrown(v0, view, merged)
    && (forall x :: x in l0 && x !in merged ==> x in gone || x in list) && forall x :: x in gone + list ==> x in l0
  }

  lemma DrainedNone(list: seq<Extent>, view: View)
    ensures Drained(list, [], list, view, view, {})
  {
    assert [] + list == list;
  }

  /** `r`, the oldest that could be had, leaves too. */
  lemma DrainedStep(l0: seq<Extent>, gone: seq<Extent>, l1: seq<Extent>, l2: seq<Extent>, r: Extent, v0: View, v1: View, v2: View, m0: set<Extent>, m1: set<Extent>)
    requires Drained(l0, gone, l1, v0, v1, m0) && Oldest(l1, l2, r, v1, v2, m1)
    requires forall x :: x in gone ==> x in v1 && x in v2 && v1[x] == v2[x]
    ensures Drained(l0, gone + [r], l2, v0, v2, m0 + m1)
  {
    hide Aged;
    forall x | x in gone ensures x !in m1 { }
    AgedJoin(l0, gone, l1, [r] + l2, m0, m1);
    assert gone + [r] + l2 == gone + ([r] + l2);
  }

  lemma AgedJoin(l0: seq<Extent>, gone: seq<Extent>, l1: seq<Extent>, l2: seq<Extent>, m0: set<Extent>, m1: set<Extent>)
    requires Aged(l0, gone + l1, m0) && Aged(l1, l2, m1) && (forall x :: x in l2 ==> x in l1) && forall x :: x in gone ==> x !in m1
    ensures Aged(l0, gone + l2, m0 + m1)
  {
    hide Aged;
    var s, m := gone + l2, m0 + m1;
    forall i, j | 0 <= i < j < |s| ensures if s[i] in m then s[j] in m else s[j] in m || Precedes(l0, s[i], s[j]) {
      if i >= |gone| {
        AgedPair(l1, l2, m1, i - |gone|, j - |gone|);
        if Precedes(l1, s[i], s[j]) {
          var k, l :| 0 <= k < l < |l1| && l1[k] == s[i] && l1[l] == s[j];
          AgedPair(l0, gone + l1, m0, |gone| + k, |gone| + l);
        }
      } else if j >= |gone| {
        assert s[j] in l2;
        var l :| 0 <= l < |l1| && l1[l] == s[j];
        AgedPair(l0, gone + l1, m0, i, |gone| + l);
        assert s[i] in gone;
      } else {
        AgedPair(l0, gone + l1, m0, i, j);
        assert s[i] in gone && s[j] in gone;
      }
    }
    AgedAll(l0, s, m);
  }

  lemma AgedPair(l0: seq<Extent>, list: seq<Extent>, merged: set<Extent>, i: nat, j: nat)
    requires Aged(l0, list, merged) && i < j < |list|
    ensures if list[i] in merged then list[j] in merged else list[j] in merged || Precedes(l0, list[i], list[j])
  {
  }

  lemma AgedAll(l0: seq<Extent>, list: seq<Extent>, merged: set<Extent>)
    requires forall i, j :: 0 <= i < j < |list| ==>
      if list[i] in merged then list[j] in merged else list[j] in merged || Precedes(l0, list[i], list[j])
    ensures Aged(l0, list, merged)
  {
  }

  /**
    Pages have left the free list `l0` oldest first while more than `limit` were
    left and fewer than `max` had gone: without the last extent that went there
    would be more to do, and with it there is not.
   */
  ghost predicate Emptied(l0: seq<Extent>, gone: seq<Extent>, list: seq<Extent>, v0: View, v: View, merged: set<Extent>, left: nat, limit: nat, max: nat) {
    && Drained(l0, gone, list, v0, v, merged) && (forall x :: x in gone ==> x in v)
    && (SpanSum(v, gone) >= max || left <= limit)
    && (gone != [] ==> SpanSum(v, gone) - LastPages(v, gone) < max && left + LastPages(v, gone) > limit)
  }

  /** What leaving a free list does: extents of that list merge among themselves and those in `out` are taken; nothing else moves. */
  ghost predicate Thinned(me: int, state: State, before: View, after: View, out: set<Extent>) {
    && after.Keys <= before.Keys && out <= after.Keys
    && (forall x :: x in before && !(before[x].arena == me && before[x].state == state) ==> x in after && after[x] == before[x])
    && (forall x :: x in after && before[x].arena == me && before[x].state == state ==>
        after[x].arena == me && !after[x].slab && after[x].state == if x in out then Active else state)
    && (forall x :: x in out ==> before[x].arena == me && before[x].state == state)
  }

  lemma ThinNone(me: int, state: State, view: View)
    requires forall x :: x in view && view[x].slab ==> view[x].state != state
    ensures Thinned(me, state, view, view, {})
  {
  }

  lemma ThinOut(me: int, state: State, before: View, after: View, out: set<Extent>)
    requires Thinned(me, state, before, after, out)
    ensures out <= after.Keys <= before.Keys
  {
  }

  lemma ThinStep(me: int, state: State, v0: View, v1: View, out: set<Extent>, e: Extent, v2: View, r: Extent, pool: seq<Extent>)
    requires Thinned(me, state, v0, v1, out) && state != Active
    requires e in v1 && v1[e].arena == me && v1[e].state == state
    requires forall x :: x in pool ==> x in v1 && v1[x].arena == me && v1[x].state == state
    requires Absorbed(v1[e := v1[e].(state := Active)], v2, e, r, pool)
    requires v2[r].arena == me && v2[r].state == Active && !v2[r].slab
    ensures Thinned(me, state, v0, v2, out + {r}) && r !in out
    ensures Thinned(me, state, v0, v2[r := v2[r].(state := state)], out)
    ensures forall x :: x in out ==> v2[x] == v1[x]
  {
    var w := v1[e := v1[e].(state := Active)];
    assert w.Keys == v1.Keys;
    forall x | x in v1 && (v1[x].arena != me || v1[x].state != state) ensures x in v2 && v2[x] == v1[x] && x != r {
      assert w[x] == v1[x];
    }
    forall x | x in v2 && x != r ensures x in v1 && v2[x] == w[x] && x != e { }
  }

  /**
    Decay has run from `before` to `after`: extents in use and those of other
    arenas are as they were, muzzy extents stay muzzy and dirty ones are dirty
    or muzzy, or among `due`, which wait to be made muzzy.
   */
  ghost predicate Decayed(me: int, before: View, after: View, due: set<Extent>) {
    && after.Keys <= before.Keys && due <= after.Keys
    && (forall x :: x in before && (before[x].arena != me || before[x].state == Active) ==> x in after && after[x] == before[x] && x !in due)
    && (forall x :: x in after && before[x].arena == me && before[x].state != Active ==>
        after[x].arena == me && (after[x].state == Active <==> x in due))
    && (forall x :: x in after && before[x].arena == me && before[x].state == Muzzy ==> after[x].state == Muzzy)
  }

  lemma ThinDecays(me: int, before: View, after: View, out: set<Extent>)
    requires Thinned(me, Dirty, before, after, out)
    ensures Decayed(me, before, after, out)
  {
  }

  lemma DecayStep(me: int, before: View, v: View, due: set<Extent>, x: Extent, w: View, r: Extent, pool: seq<Extent>)
    requires Decayed(me, before, v, due) && x in due
    requires forall y :: y in pool ==> y in v && v[y].arena == me && v[y].state == Muzzy
    requires Absorbed(v, w, x, r, pool) && w[r].arena == me && w[r].state == Muzzy
    ensures Decayed(me, before, w, due - {x})
    ensures forall y :: y in due && y != x ==> y in w && w[y] == v[y]
  {
    forall y | y in v && y != x && !(v[y].arena == me && v[y].state == Muzzy) ensures y in w && w[y] == v[y] && y != r { }
  }

  function FreePages(me: int, view: View, owner: Owner): set<int>
    requires Owned(view, owner)
  {
    set p | p in owner && view[owner[p]].arena == me && view[owner[p]].state != Active
  }

  /** Decay moves no page between use and freedom. */
  lemma DecayFrees(me: int, v: View, o: Owner, w: View, o': Owner)
    requires Owned(v, o) && Owned(w, o') && o.Keys == o'.Keys && Decayed(me, v, w, {})
    ensures FreePages(me, v, o) == FreePages(me, w, o')
  {
    forall p | p in o ensures p in FreePages(me, v, o) <==> p in FreePages(me, w, o') {
      var x, y := o[p], o'[p];
      assert v[x].Has(p) && w[y].Has(p);
      if v[x].arena != me || v[x].state == Active {
        assert w[x].Has(p) && x == y;
      } else if v[y].arena != me || v[y].state == Active {
        assert v[y].Has(p) && x == y;
      }
    }
  }

  /** The two free lists of an arena own the free pages. */
  lemma ListsOwnFree(me: int, view: View, owner: Owner, dirty: seq<Extent>, muzzy: seq<Extent>)
    requires Owned(view, owner) && NoDup(dirty) && NoDup(muzzy)
    requires Listed(me, view, Dirty, dirty) && Listed(me, view, Muzzy, muzzy)
    ensures SpanSum(view, dirty) + SpanSum(view, muzzy) == |FreePages(me, view, owner)|
  {
    SumCountsPages(view, owner, dirty);
    SumCountsPages(view, owner, muzzy);
    hide SpanSum;
    forall p | p in owner
      ensures p in PagesOf(owner, dirty) ==> p !in PagesOf(owner, muzzy)
      ensures p in FreePages(me, view, owner) <==> p in PagesOf(owner, dirty) || p in PagesOf(owner, muzzy)
    {
      assert owner[p] in view;
    }
    assert PagesOf(owner, dirty) !! PagesOf(owner, muzzy);
    assert FreePages(me, view, owner) == PagesOf(owner, dirty) + PagesOf(owner, muzzy);
  }

  function UsedPages(me: int, view: View, owner: Owner): set<int>
    requires Owned(view, owner)
  {
    set p | p in owner && view[owner[p]].arena == me && view[owner[p]].state == Active
  }

  /** Conservation: every mapped page of the arena is in use, free, fresh or given up, and counts once. */
  lemma PagesAddUp(me: int, g: Ledger, leaves: Leaves, region: set<int>)
    requires Ok(me, g, leaves, region, {})
    ensures |g.mine| == |UsedPages(me, g.view, g.owner)| + |FreePages(me, g.view, g.owner)| + |region| + |g.dropped|
  {
    var used, free := UsedPages(me, g.view, g.owner), FreePages(me, g.view, g.owner);
    hide Mirrored, Blank, RunsBounded, Handed;
    forall p ensures p in g.mine <==> p in used || p in free || p in region || p in g.dropped { }
    assert g.mine == used + free + region + g.dropped;
    assert used !! free && (used + free) !! region && (used + free + region) !! g.dropped;
  }

  /** What a free reads at the first page of a live extent: a descriptor exactly for a slab, and otherwise the extent with its bit clear. */
  lemma FreeReadsRight(me: int, g: Ledger, leaves: Leaves, region: set<int>, e: Extent, p: int)
    requires Ok(me, g, leaves, region, {}) && e in g.live
    ensures !g.view[e].slab ==> At(leaves, g.view[e].first) == Ext(e, false)
    ensures g.view[e].slab && g.view[e].Has(p) ==> At(leaves, p) == Slab(g.view[e].vslab)
  {
    assert LeafOf(e, g.view[e], leaves);
  }

  // ------------------------------------------------------------------ handing pages out

  ghost predicate InteriorNull(s: Span, leaves: Leaves) {
    forall p :: s.first < p < s.Last() ==> At(leaves, p) == Null
  }

  /** The span an allocation of `n` pages leaves with its extent. */
  function Granted(s: Span, n: nat, slab: bool, v: int): Span {
    s.(npages := n, state := Active, slab := slab, vslab := if slab then v else s.vslab)
  }

  /** What an allocation leaves over. */
  function Rest(s: Span, n: nat, state: State): Span
    requires n <= s.npages
  {
    s.(first := s.first + n, npages := s.npages - n, state := state)
  }

  /** An allocation of `n` pages from `e`: the lead stays `e`, what is left over is a fresh free extent `t`. */
  ghost predicate Carved(before: View, after: View, e: Extent, t: Extent?, n: nat, slab: bool, v: int, state: State) {
    && e in before && n <= before[e].npages
    && (t == null ==> n == before[e].npages && after == before[e := Granted(before[e], n, slab, v)])
    && (t != null ==> t !in before && n < before[e].npages)
    && (t != null ==> after == before[t := Rest(before[e], n, state)][e := Granted(before[e], n, slab, v)])
  }

  /**
    The extent of the free list `list` that a request is to be cut from: of the
    lowest class that is large enough, in it of the lowest address, and within 32
    times the request where the list is capped.
   */
  ghost predicate BestIn(view: View, list: seq<Extent>, capped: bool, request: nat, r: Extent)
    requires forall x :: x in list ==> x in view && 1 <= view[x].npages <= LARGEST
  {
    && r in list && Lookup(request) <= Floor(view[r].npages)
    && (capped ==> ClassOf(view[r].npages) <= 32 * request)
    && forall x :: x in list && Lookup(request) <= Floor(view[x].npages) ==>
      Floor(view[r].npages) <= Floor(view[x].npages) && (Floor(view[r].npages) == Floor(view[x].npages) ==> view[r].first <= view[x].first)
  }

  /** The pages of the class under which a free extent is filed. */
  function ClassOf(n: nat): nat
    requires 1 <= n <= LARGEST
  {
    FloorClass(n);
    ClassPages(Floor(n))
  }

  ghost predicate HandedOut(g: Ledger, g': Ledger, r: Extent) {
    g' == g.(view := g'.view, owner := g'.owner, live := g.live + {r})
  }

  /** The two ends of an extent that is no slab name it. */
  lemma EndsNamed(me: int, g: Ledger, leaves: Leaves, region: set<int>, e: Extent)
    requires Ok(me, g, leaves, region, {}) && e in g.view && !g.view[e].slab
    ensures At(leaves, g.view[e].first).Ext? && At(leaves, g.view[e].first).e == e
    ensures At(leaves, g.view[e].Last()).Ext? && At(leaves, g.view[e].Last()).e == e
  {
    assert LeafOf(e, g.view[e], leaves);
  }

  /** Writing the descriptor to every page of an extent makes it a slab. */
  lemma FillOk(me: int, g: Ledger, leaves: Leaves, leaves': Leaves, region: set<int>, e: Extent, v: int)
    requires Ok(me, g, leaves, region, {e}) && e in g.view && e !in g.live && Within(g.view[e], leaves, leaves')
    requires forall p :: g.view[e].Has(p) ==> At(leaves', p) == Slab(v)
    ensures Ok(me, Recast(g, e, g.view[e].(slab := true, vslab := v)), leaves', region, {})
  {
    var s := g.view[e].(slab := true, vslab := v);
    WriteOk(me, g, leaves, leaves', region, e);
    RecastOk(me, g, leaves', region, {e}, e, s);
    Finished(me, Recast(g, e, s), leaves', region, e);
  }

  /** extent_register over loose pages. */
  lemma RegisterOk(me: int, g: Ledger, leaves: Leaves, leaves': Leaves, region: set<int>, e: Extent, s: Span)
    requires Ok(me, g, leaves, region, {}) && e !in g.view && s.npages >= 1 && s.arena == me && e !in g.live
    requires Pages(s.first, s.npages) <= g.dropped && Within(s, leaves, leaves') && LeafOf(e, s, leaves')
    ensures Ok(me, Adopted(g, e, s), leaves', region, {})
  {
    AdoptOk(me, g, leaves, leaves', region, e, s);
    Finished(me, Adopted(g, e, s), leaves', region, e);
  }

  lemma LooseBlank(me: int, g: Ledger, leaves: Leaves, region: set<int>, s: Span)
    requires Ok(me, g, leaves, region, {}) && Pages(s.first, s.npages) <= g.dropped
    ensures forall p :: s.Has(p) ==> At(leaves, p) == Null
  {
    LooseUnowned(me, g, region, s);
  }

  const CHUNK := 512   // pages of one mapped file

  /** A remainder of the fresh region that is kept: exactly a class. */
  predicate Remainder(n: nat) {
    LookupRange(n);
    n != 0 && n == TableEntry(Lookup(n))
  }

  /**
    An extent of `npages` cut from the `left` pages at `front`, or, where they do
    not suffice, from the new `chunk`: then what was left becomes the dirty extent
    `kept` if it is exactly a class, and is given up otherwise.
   */
  ghost predicate Opened(me: int, g: Ledger, g': Ledger, e: Extent, kept: Extent?, npages: nat, slab: bool, v: int, front: int, left: nat, chunk: int) {
    var more := npages > left;
    var view := if kept == null then g.view else g.view[kept := Span(me, front, left, false, Dirty, 0)];
    && (kept != null <==> more && Remainder(left))
    && e !in g.view && kept != e && (kept != null ==> kept !in g.view)
    && g'.view == view[e := Span(me, if more then chunk else front, npages, slab, Active, v)]
    && g'.space == g.space + (if more then Pages(chunk, CHUNK) else {})
    && g'.mine == g.mine + (if more then Pages(chunk, CHUNK) else {})
    && g'.dropped == g.dropped + (if more && kept == null then Pages(front, left) else {})
    && g'.live == g.live + {e}
  }

  /** Pages that are nobody's become an extent's. */
  function Opening(g: Ledger, e: Extent, s: Span): Ledger {
    Adopted(g.(dropped := g.dropped + Pages(s.first, s.npages)), e, s)
  }

  lemma OpeningDrops(g: Ledger, e: Extent, s: Span)
    requires Pages(s.first, s.npages) !! g.dropped
    ensures Opening(g, e, s).dropped == g.dropped
  {
    hide Pages, AddOwner;
  }

  lemma OpeningIs(g: Ledger, e: Extent, s: Span)
    ensures var r := Opening(g, e, s); r.view == g.view[e := s] && r.space == g.space && r.mine == g.mine && r.live == g.live
  {
    hide AddOwner, Pages;
  }

  lemma OpenedFront(me: int, g: Ledger, e: Extent, npages: nat, slab: bool, v: int, front: int, left: nat, chunk: int)
    requires npages <= left && e !in g.view && Pages(front, npages) !! g.dropped
    ensures var g' := Opening(g, e, Span(me, front, npages, slab, Active, v));
      Opened(me, g, g'.(live := g'.live + {e}), e, null, npages, slab, v, front, left, chunk)
  {
    hide Pages, AddOwner, Remainder, Adopted, Opening;
    OpeningDrops(g, e, Span(me, front, npages, slab, Active, v));
    OpeningIs(g, e, Span(me, front, npages, slab, Active, v));
    assert g.space + {} == g.space && g.mine + {} == g.mine && g.dropped + {} == g.dropped;
  }

  /** The ledger after what was left of the region has been kept or given up. */
  ghost predicate Evicted(me: int, g: Ledger, g': Ledger, kept: Extent?, front: int, left: nat) {
    && (kept != null <==> Remainder(left)) && (kept != null ==> kept !in g.view)
    && g' == if kept == null then g.(dropped := g.dropped + Pages(front, left)) else
      Recast(Opening(g, kept, Span(me, front, left, false, Active, 0)), kept, Span(me, front, left, false, Dirty, 0))
  }

  lemma OpenedChunk(me: int, g: Ledger, g1: Ledger, e: Extent, kept: Extent?, npages: nat, slab: bool, v: int, front: int, left: nat, chunk: int)
    requires npages > left && Evicted(me, g, g1, kept, front, left) && e !in g1.view
    requires Pages(front, left) !! g.dropped && Pages(chunk, npages) !! g1.dropped
    ensures var g2 := g1.(space := g1.space + Pages(chunk, CHUNK), mine := g1.mine + Pages(chunk, CHUNK));
      var g' := Opening(g2, e, Span(me, chunk, npages, slab, Active, v));
      Opened(me, g, g'.(live := g'.live + {e}), e, kept, npages, slab, v, front, left, chunk)
  {
    hide Pages, AddOwner, Remainder;
    if kept != null { OpeningDrops(g, kept, Span(me, front, left, false, Active, 0)); }
    OpeningDrops(g1.(space := g1.space + Pages(chunk, CHUNK), mine := g1.mine + Pages(chunk, CHUNK)), e, Span(me, chunk, npages, slab, Active, v));
  }

  lemma OpenedStays(me: int, g: Ledger, g': Ledger, e: Extent, kept: Extent?, npages: nat, slab: bool, v: int, front: int, left: nat, chunk: int)
    requires Opened(me, g, g', e, kept, npages, slab, v, front, left, chunk) && (npages > left ==> Pages(chunk, CHUNK) !! g.space)
    ensures Stays(me, g, g') && Provided(me, g.view, g'.view, e, npages, slab, v) && g'.live == g.live + {e} && e !in g.view
  {
    hide Remainder, Pages;
  }

  // ------------------------------------------------------------------ several arenas over one page map

  /** Extents of other arenas are as they were. */
  ghost predicate Foreign(me: int, before: View, after: View) {
    && (forall x :: x in before && before[x].arena != me ==> x in after && after[x] == before[x])
    && (forall x :: x in after && after[x].arena != me ==> x in before && before[x].arena != me)
  }

  /** What an operation of arena `me` may do to the books: only its own extents change, and what it maps nobody had. */
  ghost predicate Stays(me: int, g: Ledger, g': Ledger) {
    && Foreign(me, g.view, g'.view) && g.space <= g'.space && g.mine <= g'.mine
    && (forall p :: p in g'.mine && p !in g.mine ==> p !in g.space)
  }

  lemma AbsorbedStays(me: int, g: Ledger, g': Ledger, e: Extent, r: Extent, pool: seq<Extent>)
    requires Absorbed(g.view, g'.view, e, r, pool) && g.view[e].arena == me && g'.view[r].arena == me
    requires forall x :: x in pool && x in g.view ==> g.view[x].arena == me
    requires g'.space == g.space && g'.mine == g.mine
    ensures Stays(me, g, g')
  {
    assert r in g.view && g.view[r].arena == me;
  }

  lemma DecayedStays(me: int, g: Ledger, g': Ledger)
    requires Decayed(me, g.view, g'.view, {}) && g'.space == g.space && g'.mine == g.mine
    ensures Stays(me, g, g')
  {
  }

  lemma CarvedStays(me: int, g: Ledger, g': Ledger, e: Extent, t: Extent?, n: nat, slab: bool, v: int, state: State)
    requires Carved(g.view, g'.view, e, t, n, slab, v, state) && g.view[e].arena == me && g'.space == g.space && g'.mine == g.mine
    ensures Stays(me, g, g')
  {
  }

  /** What an allocation promises of the extents: the new one is as asked for, and those in use are as they were. */
  ghost predicate Provided(me: int, before: View, after: View, r: Extent, npages: nat, slab: bool, v: int) {
    && r in after && after[r].npages == npages && after[r].slab == slab && after[r].arena == me && after[r].state == Active
    && (slab ==> after[r].vslab == v)
    && (r in before ==> before[r].state != Active)
    && forall x :: x in before && before[x].state == Active ==> x in after && after[x] == before[x]
  }

  lemma CarvedProvides(me: int, before: View, after: View, e: Extent, t: Extent?, n: nat, slab: bool, v: int, state: State)
    requires Carved(before, after, e, t, n, slab, v, state) && before[e].arena == me && before[e].state != Active
    ensures Provided(me, before, after, e, n, slab, v)
  {
  }

  /** Two arenas see the same extents, pages and holders, and have mapped different pages. */
  ghost predicate Shared(g: Ledger, h: Ledger) {
    g.view == h.view && g.owner == h.owner && g.space == h.space && g.live == h.live && g.mine !! h.mine
  }

  /** After an operation of arena `you` the books of arena `me` hold with what has changed in the shared part. */
  lemma OtherKeeps(me: int, g: Ledger, leaves: Leaves, region: set<int>, you: int, h: Ledger, h': Ledger, leaves': Leaves,
      region': set<int>)
    requires me != you && Ok(me, g, leaves, region, {}) && Shared(g, h)
    requires Stays(you, h, h') && Ok(you, h', leaves', region', {})
    ensures Ok(me, h'.(mine := g.mine, dropped := g.dropped), leaves', region, {}) && Shared(h'.(mine := g.mine, dropped := g.dropped), h')
    ensures forall s, lru :: Listed(me, g.view, s, lru) ==> Listed(me, h'.view, s, lru)
  {
    hide Mirrored, Blank, Handed, RunsBounded;
    OthersPages(me, g, you, h, h');
    forall p ensures p in g.mine ==> p !in h'.mine {
      assert p in g.mine ==> p in h.space;
      assert p in h'.mine ==> p in h.mine || p !in h.space;
    }
    forall p | p in h'.owner ensures p !in region && p !in g.dropped {
      assert p in region || p in g.dropped ==> p in g.mine && p !in g.owner;
      assert h'.view[h'.owner[p]].arena == you ==> p in h'.mine;
    }
    var g' := h'.(mine := g.mine, dropped := g.dropped);
    forall p ensures p in g.mine <==> (p in g'.owner && g'.view[g'.owner[p]].arena == me) || p in region || p in g.dropped {
      assert p in g.owner && g.view[g.owner[p]].arena == me <==> p in h'.owner && h'.view[h'.owner[p]].arena == me;
    }
    assert Accounted(me, g', region);
  }

  /** A page of an extent that is not `you`s has the same owner before and after. */
  lemma OthersPages(me: int, g: Ledger, you: int, h: Ledger, h': Ledger)
    requires Shared(g, h) && Stays(you, h, h') && Owned(g.view, g.owner) && Owned(h'.view, h'.owner)
    ensures forall p :: p in h'.owner && h'.view[h'.owner[p]].arena != you ==> p in g.owner && g.owner[p] == h'.owner[p] && g.view[g.owner[p]] == h'.view[h'.owner[p]]
    ensures forall p :: p in g.owner && g.view[g.owner[p]].arena != you ==> p in h'.owner && h'.owner[p] == g.owner[p] && h'.view[h'.owner[p]] == g.view[g.owner[p]]
  {
    forall p | p in h'.owner && h'.view[h'.owner[p]].arena != you ensures p in g.owner && g.owner[p] == h'.owner[p] {
      assert g.view[h'.owner[p]].Has(p);
    }
    forall p | p in g.owner && g.view[g.owner[p]].arena != you ensures p in h'.owner && h'.owner[p] == g.owner[p] {
      assert h'.view[g.owner[p]].Has(p);
    }
  }

  /** What an arena has of its own: the pages it mapped, those it gave up and its fresh region. */
  datatype Own = Own(mine: set<int>, dropped: set<int>, region: set<int>)

  function LedgerOf(g: Ledger, o: Own): Ledger {
    g.(mine := o.mine, dropped := o.dropped)
  }

  /** The books of every arena hold over one page map, and no page is mapped by two. */
  ghost predicate World(arenas: map<int, Own>, g: Ledger, leaves: Leaves) {
    && (forall a :: a in arenas ==> Ok(a, LedgerOf(g, arenas[a]), leaves, arenas[a].region, {}))
    && (forall a, b :: a in arenas && b in arenas && a != b ==> arenas[a].mine !! arenas[b].mine)
  }

  /** Whatever arena `you` does within its own bounds, the books of all arenas hold after it. */
  lemma WorldStep(arenas: map<int, Own>, g: Ledger, leaves: Leaves, you: int, o: Own, g': Ledger, leaves': Leaves)
    requires World(arenas, g, leaves) && you in arenas
    requires Ok(you, LedgerOf(g', o), leaves', o.region, {}) && Stays(you, LedgerOf(g, arenas[you]), LedgerOf(g', o))
    ensures World(arenas[you := o], g', leaves')
  {
    hide Ok, Stays;
    forall a | a in arenas && a != you
      ensures Ok(a, LedgerOf(g', arenas[a]), leaves', arenas[a].region, {}) && arenas[a].mine !! o.mine
    {
      OtherKeeps(a, LedgerOf(g, arenas[a]), leaves, arenas[a].region, you, LedgerOf(g, arenas[you]), LedgerOf(g', o), leaves', o.region);
    }
  }
}

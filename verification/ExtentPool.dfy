/**
  extents_t of extent.c: the free extents of one state, filed in one heap per
  page class, with an occupancy bitmap, an LRU list and a page count.
 */
module ExtentPool {
  import opened PageClasses

  datatype State = Active | Dirty | Muzzy

  /** extent_t: a run of pages, `first` being the number of its first page. */
  class Extent {
    const arena: int
    const first: int
    var npages: nat
    var slab: bool
    var state: State

    /** extent_init. */
    constructor (arena: int, first: int, npages: nat, slab: bool, state: State)
      ensures this.arena == arena && this.first == first && this.npages == npages
      ensures this.slab == slab && this.state == state
    {
      this.arena, this.first, this.npages := arena, first, npages;
      this.slab, this.state := slab, state;
    }
  }

  ghost function SumPages(s: seq<Extent>): nat
    reads s
  {
    if s == [] then 0 else s[0].npages + SumPages(s[1..])
  }

  lemma {:induction false} SumAppend(s: seq<Extent>, e: Extent)
    ensures SumPages(s + [e]) == SumPages(s) + e.npages
  {
    if s != [] {
      assert (s + [e])[1..] == s[1..] + [e];
      SumAppend(s[1..], e);
    }
  }

  ghost predicate NoDup(s: seq<Extent>) {
    forall i, j :: 0 <= i < j < |s| ==> s[i] != s[j]
  }

  /** ql_remove: the list without one element. */
  function Without(s: seq<Extent>, e: Extent): (r: seq<Extent>)
    ensures e !in s ==> r == s
    ensures forall x :: x in r ==> x in s
    ensures forall x :: x in s && x != e ==> x in r
  {
    if s == [] then [] else if s[0] == e then s[1..] else [s[0]] + Without(s[1..], e)
  }

  lemma {:induction false} WithoutSum(s: seq<Extent>, e: Extent)
    requires e in s && NoDup(s)
    ensures SumPages(s) == SumPages(Without(s, e)) + e.npages
    ensures e !in Without(s, e) && NoDup(Without(s, e))
  {
    if s[0] != e {
      assert NoDup(s[1..]);
      WithoutSum(s[1..], e);
      assert Without(s, e)[1..] == Without(s[1..], e);
      assert s[0] !in s[1..];
    }
  }

  lemma {:induction false} WithoutShorter(s: seq<Extent>, e: Extent)
    requires e in s
    ensures |Without(s, e)| == |s| - 1
  {
    if s[0] != e { WithoutShorter(s[1..], e); }
  }

  lemma PushDistinct(s: seq<Extent>, e: Extent)
    requires NoDup(s) && e !in s
    ensures NoDup(s + [e])
  {
  }

  /** `x` stands before `y`. */
  ghost predicate Precedes(s: seq<Extent>, x: Extent, y: Extent) {
    exists i, j :: 0 <= i < j < |s| && s[i] == x && s[j] == y
  }

  /** Taking an element out keeps the order of the others. */
  lemma {:induction false} WithoutOrder(s: seq<Extent>, e: Extent, i: nat, j: nat) returns (k: nat, l: nat)
    requires i < j < |Without(s, e)|
    ensures k < l < |s| && s[k] == Without(s, e)[i] && s[l] == Without(s, e)[j]
  {
    if s[0] == e {
      k, l := i + 1, j + 1;
    } else if i > 0 {
      k, l := WithoutOrder(s[1..], e, i - 1, j - 1);
      k, l := k + 1, l + 1;
    } else {
      var x := Without(s, e)[j];
      assert Without(s, e)[j] == Without(s[1..], e)[j - 1];
      assert x in s[1..];
      var m :| 0 <= m < |s[1..]| && s[1..][m] == x;
      k, l := 0, m + 1;
    }
  }

  lemma HeadWithout(s: seq<Extent>)
    requires s != []
    ensures Without(s, s[0]) == s[1..] && [s[0]] + s[1..] == s
  {
  }

  /** bitmap_ffu: the first set bit at or above `min`. */
  function FindFrom(bitmap: seq<bool>, min: nat): (r: nat)
    requires exists k :: min <= k < |bitmap| && bitmap[k]
    ensures min <= r < |bitmap| && bitmap[r]
    ensures forall k :: min <= k < r ==> !bitmap[k]
    decreases |bitmap| - min
  {
    if bitmap[min] then min else FindFrom(bitmap, min + 1)
  }

  lemma {:induction false} LeastExists(h: set<Extent>)
    requires h != {}
    ensures exists e :: e in h && forall x :: x in h ==> e.first <= x.first
  {
    var e :| e in h;
    if h != {e} {
      LeastExists(h - {e});
      var m :| m in h - {e} && forall x :: x in h - {e} ==> m.first <= x.first;
      var l := if e.first < m.first then e else m;
      assert l in h && forall x :: x in h ==> l.first <= x.first;
    }
  }

  class Extents {
    const state: State
    const delayCoalesce: bool
    var heaps: seq<set<Extent>>
    var bitmap: seq<bool>
    var lru: seq<Extent>
    var npages: nat

    /** The heaps, the bitmap, the list and the page count describe the same free extents. */
    ghost predicate Valid()
      reads this, lru
    {
      && |heaps| == MAX_PSZ_IDX + 1 && |bitmap| == MAX_PSZ_IDX + 1
      && bitmap[MAX_PSZ_IDX]
      && (forall i :: 0 <= i < MAX_PSZ_IDX ==> (bitmap[i] <==> heaps[i] != {}))
      && (forall e :: e in lru ==> Filed(e) && e in heaps[Floor(e.npages)])
      && (forall i, e :: 0 <= i <= MAX_PSZ_IDX && e in heaps[i] ==> e in lru && Floor(e.npages) == i)
      && NoDup(lru)
      && npages == SumPages(lru)
    }

    ghost predicate Filed(e: Extent)
      reads e
    {
      1 <= e.npages <= LARGEST && 0 <= Floor(e.npages) < NPSIZES && e.state == state && !e.slab
    }

    /** No extent is large enough by its class, or those that are exceed the cap on waste. */
    ghost predicate NoFit(request: nat)
      requires Valid()
      reads this, lru
    {
      forall e :: e in lru && Lookup(request) <= Floor(e.npages) ==> delayCoalesce && ClassPages(Floor(e.npages)) > 32 * request
    }

    /** `r` is the extent a request is to be cut from: of the lowest class that is large enough, in it of the lowest address, and within the cap. */
    ghost predicate Best(request: nat, r: Extent)
      requires Valid()
      reads this, lru
    {
      && r in lru && Lookup(request) <= Floor(r.npages)
      && (delayCoalesce ==> ClassPages(Floor(r.npages)) <= 32 * request)
      && forall e :: e in lru && Lookup(request) <= Floor(e.npages) ==>
        Floor(r.npages) <= Floor(e.npages) && (Floor(r.npages) == Floor(e.npages) ==> r.first <= e.first)
    }

    /** extents_init. */
    constructor (state: State, delayCoalesce: bool)
      ensures Valid() && lru == [] && this.state == state && this.delayCoalesce == delayCoalesce
    {
      this.state, this.delayCoalesce := state, delayCoalesce;
      heaps := seq(MAX_PSZ_IDX + 1, _ => {});
      bitmap := seq(MAX_PSZ_IDX + 1, i => i == MAX_PSZ_IDX);
      lru, npages := [], 0;
    }

    /** extents_insert_locked. */
    method Insert(e: Extent)
      requires Valid() && e !in lru
      requires 1 <= e.npages <= LARGEST && e.state == state && !e.slab
      modifies this
      ensures Valid() && lru == old(lru) + [e] && npages == old(npages) + e.npages
    {
      hide Floor, ClassPages, SumPages, NoDup;
      var pind := Floor(e.npages);
      FloorClass(e.npages);
      PushDistinct(lru, e);
      if heaps[pind] == {} {
        bitmap := bitmap[pind := true];
      }
      heaps := heaps[pind := heaps[pind] + {e}];
      SumAppend(lru, e);
      lru := lru + [e];
      npages := npages + e.npages;
    }

    /** extents_remove_locked; clearing the bit flips it, which is right because it was set. */
    method Remove(e: Extent)
      requires Valid() && e in lru
      modifies this
      ensures Valid() && lru == Without(old(lru), e) && e !in lru && npages == old(npages) - e.npages
    {
      hide Floor, ClassPages, SumPages, Without;
      var pind := Floor(e.npages);
      assert Filed(e) && bitmap[pind];
      heaps := heaps[pind := heaps[pind] - {e}];
      if heaps[pind] == {} {
        bitmap := bitmap[pind := !bitmap[pind]];
      }
      WithoutSum(lru, e);
      lru := Without(lru, e);
      npages := npages - e.npages;
    }

    /** extents_best_fit_locked. The loop of the source ends in its first turn either way. */
    method BestFit(request: nat) returns (r: Extent?)
      requires Valid() && 1 <= request <= MAX_PSZ
      ensures r != null ==> r in lru && Best(request, r) && (request <= LARGEST ==> request <= r.npages)
      ensures r == null <==> NoFit(request)
    {
      hide Floor, ClassPages, SumPages, Lookup, FindFrom;
      LookupRange(request);
      var pind := Lookup(request);
      var i := FindFrom(bitmap, pind);
      r := null;
      if i < MAX_PSZ_IDX {
        assert heaps[i] != {};
        LeastExists(heaps[i]);
        var e :| e in heaps[i] && forall x :: x in heaps[i] ==> e.first <= x.first;
        if delayCoalesce && TableEntry(i) > request * 32 {
          ClassesAbove(i, request * 32);
        } else {
          r := e;
          FiledExtentFits(request);
        }
      }
    }
  }

  lemma LookupRange(n: nat)
    ensures Lookup(n) < NPSIZES
  {
  }

  lemma ClassesAbove(i: nat, bound: nat)
    requires i < NPSIZES && ClassPages(i) > bound
    ensures forall j: nat :: i <= j < NPSIZES ==> ClassPages(j) > bound
  {
    forall j: nat | i <= j < NPSIZES ensures ClassPages(j) > bound {
      if i < j { ClassesIncrease(i, j); }
    }
  }
}

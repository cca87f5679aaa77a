/**
  The intrusive pairing heap generated by ph.h. The links lchild, next and prev
  are those of a binary tree in which `prev` is the parent pointer: the first
  child of a node hangs off `lchild`, its later siblings off `next`.
 */
module PairingHeap {

  /** A heap node; `key` is its rank under the comparison function. */
  class PhNode {
    const key: int
    var prev: PhNode?
    var next: PhNode?
    var lchild: PhNode?

    constructor (key: int)
      ensures this.key == key
    {
      this.key := key;
      prev, next, lchild := null, null, null;
    }
  }

  /** A list of siblings, each above its own list of children. */
  datatype Heap = Empty | Cell(elem: PhNode, child: Heap, next: Heap)

  /** One node above its children, taken out of any list. */
  datatype Root = Root(elem: PhNode, child: Heap)

  // ---- What the links mean

  ghost function Elems(t: Heap): set<PhNode> {
    match t
    case Empty => {}
    case Cell(e, c, n) => {e} + Elems(c) + Elems(n)
  }

  lemma {:induction false} ElemsAllocated(t: Heap)
    ensures forall x :: x in Elems(t) ==> allocated(x)
  {
    if t.Cell? {
      ElemsAllocated(t.child);
      ElemsAllocated(t.next);
    }
  }

  ghost predicate Distinct(t: Heap) {
    match t
    case Empty => true
    case Cell(e, c, n) => Distinct(c) && Distinct(n) && e !in Elems(c) && e !in Elems(n) && Elems(c) !! Elems(n)
  }

  ghost predicate Is(n: PhNode?, prev: PhNode?, t: Heap)
    reads Elems(t)
    decreases t
  {
    match t
    case Empty => n == null
    case Cell(e, c, nx) => n == e && e.prev == prev && Is(e.lchild, e, c) && Is(e.next, e, nx)
  }

  /** Every node below `lo` in the list and above its own children. */
  ghost predicate Ordered(t: Heap, lo: int) {
    match t
    case Empty => true
    case Cell(e, c, n) => lo <= e.key && Ordered(c, e.key) && Ordered(n, lo)
  }

  lemma {:induction false} OrderedMin(t: Heap, lo: int)
    requires Ordered(t, lo)
    ensures forall x :: x in Elems(t) ==> lo <= x.key
  {
    if t.Cell? {
      OrderedMin(t.child, t.elem.key);
      OrderedMin(t.next, lo);
    }
  }

  ghost function RootElems(r: Root): set<PhNode> {
    {r.elem} + Elems(r.child)
  }

  ghost predicate RootDistinct(r: Root) {
    Distinct(r.child) && r.elem !in Elems(r.child)
  }

  ghost predicate RootOrdered(r: Root, lo: int) {
    lo <= r.elem.key && Ordered(r.child, r.elem.key)
  }

  ghost predicate RootIs(r: Root)
    reads RootElems(r)
  {
    Is(r.elem.lchild, r.elem, r.child)
  }

  /** The loser becomes the first child of the winner; a tie goes to the second. */
  ghost function Meld(a: Root, b: Root): Root {
    if a.elem.key < b.elem.key then Root(a.elem, Cell(b.elem, b.child, a.child))
    else Root(b.elem, Cell(a.elem, a.child, b.child))
  }

  lemma MeldKeeps(a: Root, b: Root, lo: int)
    requires RootDistinct(a) && RootDistinct(b) && RootElems(a) !! RootElems(b)
    ensures RootElems(Meld(a, b)) == RootElems(a) + RootElems(b) && RootDistinct(Meld(a, b))
    ensures RootOrdered(a, lo) && RootOrdered(b, lo) ==> RootOrdered(Meld(a, b), lo)
  {
  }

  // ---- Merging

  method SetPrev(n: PhNode?, prev: PhNode?, ghost was: PhNode?, ghost t: Heap)
    requires Is(n, was, t) && Distinct(t)
    modifies if n == null then {} else {n}
    ensures Is(n, prev, t)
    ensures n != null ==> n.next == old(n.next) && n.lchild == old(n.lchild)
  {
    ElemsAllocated(t);
    if n != null {
      ElemsAllocated(t.child);
      ElemsAllocated(t.next);
      n.prev := prev;
    }
  }

  method LinkNext(n: PhNode, next: PhNode?, ghost was: PhNode?, ghost t: Heap)
    requires Is(next, was, t) && Distinct(t) && n !in Elems(t)
    modifies n`next, if next == null then {} else {next}
    ensures n.next == next && Is(next, n, t)
  {
    ElemsAllocated(t);
    n.next := next;
    if next != null {
      SetPrev(next, n, was, t);
    }
  }

  lemma CellIs(n: PhNode, prev: PhNode?, child: Heap, next: Heap)
    requires n.prev == prev && Is(n.lchild, n, child) && Is(n.next, n, next)
    ensures Is(n, prev, Cell(n, child, next))
  {
  }

  /** Puts `b` under `a`. */
  method MergeOrdered(a: PhNode, b: PhNode, ghost ra: Root, ghost rb: Root)
    requires ra.elem == a && rb.elem == b && RootIs(ra) && RootIs(rb)
    requires RootDistinct(ra) && RootDistinct(rb) && RootElems(ra) !! RootElems(rb)
    modifies RootElems(ra) + {b}
    ensures RootIs(Root(a, Cell(b, rb.child, ra.child)))
    ensures a.next == old(a.next) && a.prev == old(a.prev)
  {
    ElemsAllocated(ra.child);
    ElemsAllocated(rb.child);
    b.prev := a;
    var child := a.lchild;
    b.next := child;
    SetPrev(child, b, a, ra.child);
    a.lchild := b;
  }

  method Merge(a: PhNode, b: PhNode, ghost ra: Root, ghost rb: Root) returns (r: PhNode)
    requires ra.elem == a && rb.elem == b && RootIs(ra) && RootIs(rb)
    requires RootDistinct(ra) && RootDistinct(rb) && RootElems(ra) !! RootElems(rb)
    modifies RootElems(ra) + RootElems(rb)
    ensures r == Meld(ra, rb).elem && RootIs(Meld(ra, rb))
    ensures r.next == old(r.next) && r.prev == old(r.prev)
  {
    if a.key < b.key {
      MergeOrdered(a, b, ra, rb);
      r := a;
    } else {
      MergeOrdered(b, a, rb, ra);
      r := b;
    }
  }

  // ---- The FIFO of the multipass merge

  /** A singly linked run of merged nodes from `n` up to but not including `stop`; their prev links are null. */
  ghost predicate Queue(n: PhNode?, stop: PhNode?, t: Heap)
    reads Elems(t)
    decreases t
  {
    match t
    case Empty => n == stop
    case Cell(e, c, nx) => n == e && e.prev == null && Is(e.lchild, e, c) && Queue(e.next, stop, nx)
  }

  ghost function Append(t: Heap, r: Root): Heap {
    match t
    case Empty => Cell(r.elem, r.child, Empty)
    case Cell(e, c, n) => Cell(e, c, Append(n, r))
  }

  ghost function Length(t: Heap): nat {
    if t.Empty? then 0 else 1 + Length(t.next)
  }

  lemma {:induction false} AppendQueue(n: PhNode?, t: Heap, r: Root)
    requires Queue(n, r.elem, t) && r.elem.prev == null && RootIs(r)
    ensures Queue(n, r.elem.next, Append(t, r))
  {
    if t.Cell? { AppendQueue(t.elem.next, t.next, r); }
  }

  lemma {:induction false} AppendKeeps(t: Heap, r: Root, lo: int)
    requires Distinct(t) && RootDistinct(r) && Elems(t) !! RootElems(r)
    ensures Elems(Append(t, r)) == Elems(t) + RootElems(r) && Distinct(Append(t, r))
    ensures Ordered(t, lo) && RootOrdered(r, lo) ==> Ordered(Append(t, r), lo)
    ensures Length(Append(t, r)) == Length(t) + 1
  {
    if t.Cell? { AppendKeeps(t.next, r, lo); }
  }

  /** Detaches the first two siblings of a list and merges them. */
  method TakePair(phn0: PhNode, ghost was: PhNode?, ghost t: Heap) returns (phn: PhNode, rest: PhNode?)
    requires t.Cell? && t.next.Cell? && Is(phn0, was, t) && Distinct(t)
    modifies Elems(t)
    ensures phn == First(t).elem && RootIs(First(t)) && phn.prev == null && phn.next == null
    ensures Is(rest, null, t.next.next)
  {
    var phn1 := phn0.next;
    ghost var a, b, rr := Root(t.elem, t.child), Root(t.next.elem, t.next.child), t.next.next;
    assert Is(phn1, phn0, t.next) && Distinct(t.next);
    ElemsAllocated(t.child);
    ElemsAllocated(t.next.child);
    ElemsAllocated(rr);
    rest := phn1.next;
    assert Is(rest, phn1, rr) && (rest != null ==> rest in Elems(rr));
    SetPrev(rest, null, phn1, rr);
    phn0.prev, phn0.next := null, null;
    phn1.prev, phn1.next := null, null;
    phn := Merge(phn0, phn1, a, b);
  }

  /** The first two siblings of a list, melded. */
  ghost function First(t: Heap): Root
    requires t.Cell? && t.next.Cell?
  {
    Meld(Root(t.elem, t.child), Root(t.next.elem, t.next.child))
  }

  lemma FirstKeeps(t: Heap, lo: int)
    requires t.Cell? && t.next.Cell? && Distinct(t) && Ordered(t, lo)
    ensures RootDistinct(First(t)) && RootOrdered(First(t), lo)
    ensures Distinct(t.next.next) && Ordered(t.next.next, lo)
    ensures RootElems(First(t)) !! Elems(t.next.next)
    ensures RootElems(First(t)) + Elems(t.next.next) == Elems(t)
  {
    MeldKeeps(Root(t.elem, t.child), Root(t.next.elem, t.next.child), lo);
  }

  /** The state of the FIFO: a run of roots, then the tail. */
  ghost predicate Fifo(head: PhNode?, body: Heap, last: Root, lo: int)
    reads Elems(body), RootElems(last)
  {
    && Queue(head, last.elem, body) && RootIs(last) && last.elem.prev == null && last.elem.next == null
    && Distinct(body) && RootDistinct(last) && Elems(body) !! RootElems(last)
    && Ordered(body, lo) && RootOrdered(last, lo)
  }

  ghost function FifoElems(body: Heap, last: Root): set<PhNode> {
    Elems(body) + RootElems(last)
  }

  /** Links a merged root behind the tail. */
  method Push(head: PhNode, tail: PhNode, phn: PhNode, ghost body: Heap, ghost last: Root, ghost r: Root, ghost lo: int)
    requires Fifo(head, body, last, lo) && tail == last.elem && phn == r.elem
    requires RootIs(r) && phn.prev == null && phn.next == null && RootDistinct(r) && RootOrdered(r, lo)
    requires RootElems(r) !! FifoElems(body, last)
    modifies tail
    ensures Fifo(head, Append(body, last), r, lo)
    ensures FifoElems(Append(body, last), r) == FifoElems(body, last) + RootElems(r)
    ensures Length(Append(body, last)) == Length(body) + 1
  {
    ElemsAllocated(body);
    ElemsAllocated(last.child);
    ElemsAllocated(r.child);
    tail.next := phn;
    AppendQueue(head, body, last);
    AppendKeeps(body, last, lo);
  }

  /** The next element of the FIFO: the first two siblings merged, or a last odd one as it is. */
  method TakeFront(phn0: PhNode, ghost t: Heap, ghost lo: int) returns (phn: PhNode, rest: PhNode?, ghost r: Root, ghost t': Heap)
    requires t.Cell? && Is(phn0, null, t) && Distinct(t) && Ordered(t, lo)
    modifies Elems(t)
    ensures phn == r.elem && RootIs(r) && phn.prev == null && phn.next == null && RootDistinct(r) && RootOrdered(r, lo)
    ensures Is(rest, null, t') && Distinct(t') && Ordered(t', lo) && t' < t
    ensures RootElems(r) !! Elems(t') && RootElems(r) + Elems(t') == Elems(t)
  {
    if phn0.next != null {
      FirstKeeps(t, lo);
      r, t' := First(t), t.next.next;
      phn, rest := TakePair(phn0, null, t);
    } else {
      phn, rest, r, t' := phn0, null, Root(phn0, t.child), Empty;
    }
  }

  /** What the pass over the sibling list keeps. */
  ghost predicate Queuing(head: PhNode, body: Heap, last: Root, phn0: PhNode?, todo: Heap, lo: int)
    reads Elems(body), RootElems(last), Elems(todo)
  {
    && Fifo(head, body, last, lo)
    && Is(phn0, null, todo) && Distinct(todo) && Ordered(todo, lo)
    && FifoElems(body, last) !! Elems(todo)
  }

  /** One turn of that pass. */
  method QueueFront(head: PhNode, tail: PhNode, phn0: PhNode, ghost body: Heap, ghost last: Root, ghost todo: Heap, ghost lo: int)
    returns (phn: PhNode, rest: PhNode?, ghost r: Root, ghost todo': Heap)
    requires Queuing(head, body, last, phn0, todo, lo) && tail == last.elem
    modifies Elems(todo), tail
    ensures phn == r.elem && Queuing(head, Append(body, last), r, rest, todo', lo) && todo' < todo
    ensures FifoElems(Append(body, last), r) + Elems(todo') == FifoElems(body, last) + Elems(todo)
  {
    ElemsAllocated(body);
    ElemsAllocated(last.child);
    phn, rest, r, todo' := TakeFront(phn0, todo, lo);
    ElemsAllocated(todo');
    assert tail !in Elems(todo');
    Push(head, tail, phn, body, last, r, lo);
  }

  /** The pass over the sibling list. */
  method QueuePairs(phn: PhNode, ghost was: PhNode?, ghost t: Heap, ghost lo: int)
    returns (head: PhNode, tail: PhNode, ghost body: Heap, ghost last: Root)
    requires t.Cell? && t.next.Cell? && Is(phn, was, t) && Distinct(t) && Ordered(t, lo)
    modifies Elems(t)
    ensures Fifo(head, body, last, lo) && tail == last.elem && FifoElems(body, last) == Elems(t)
  {
    FirstKeeps(t, lo);
    ghost var todo := t.next.next;
    body, last := Empty, First(t);
    var phn0;
    head, phn0 := TakePair(phn, was, t);
    tail := head;
    while phn0 != null
      invariant Queuing(head, body, last, phn0, todo, lo) && tail == last.elem
      invariant FifoElems(body, last) + Elems(todo) == Elems(t)
      decreases todo
    {
      hide Is, Ordered, Distinct, Queue, First, Append, RootIs;
      ghost var r, todo';
      tail, phn0, r, todo' := QueueFront(head, tail, phn0, body, last, todo, lo);
      body, last, todo := Append(body, last), r, todo';
    }
  }

  /** The second element of the FIFO. */
  ghost function Second(body: Heap, last: Root): Root
    requires body.Cell?
  {
    if body.next.Empty? then last else Root(body.next.elem, body.next.child)
  }

  lemma FifoRest(head: PhNode?, body: Heap, last: Root, lo: int)
    requires Fifo(head, body, last, lo) && body.Cell?
    ensures head == body.elem && Fifo(body.elem.next, body.next, last, lo) && body.elem.next == Second(body, last).elem
    ensures RootIs(Root(body.elem, body.child)) && RootDistinct(Root(body.elem, body.child)) && RootOrdered(Root(body.elem, body.child), lo)
    ensures RootElems(Root(body.elem, body.child)) !! FifoElems(body.next, last)
    ensures FifoElems(body, last) == RootElems(Root(body.elem, body.child)) + FifoElems(body.next, last)
  {
  }

  /** Merges the first two elements of the FIFO and detaches the result from it. */
  method MergeFront(phn0: PhNode, phn1: PhNode, ghost head: PhNode?, ghost body: Heap, ghost last: Root, ghost lo: int)
    returns (phn: PhNode, ghost root: Root)
    requires Fifo(phn0, body, last, lo) && body.Cell? && phn1 == phn0.next && head == phn1.next
    modifies RootElems(Root(body.elem, body.child)) + RootElems(Second(body, last))
    ensures phn == root.elem && root == Meld(Root(body.elem, body.child), Second(body, last))
    ensures RootIs(root) && phn.next == null && phn.prev == null && RootDistinct(root) && RootOrdered(root, lo)
    ensures body.next.Empty? ==> head == null && RootElems(root) == FifoElems(body, last)
    ensures body.next.Cell? ==> head != null && Fifo(head, body.next.next, last, lo)
    ensures body.next.Cell? ==> RootElems(root) !! FifoElems(body.next.next, last)
    ensures body.next.Cell? ==> RootElems(root) + FifoElems(body.next.next, last) == FifoElems(body, last)
  {
    ghost var a, b := Root(body.elem, body.child), Second(body, last);
    FifoRest(phn0, body, last, lo);
    if body.next.Cell? {
      FifoRest(phn1, body.next, last, lo);
      ElemsAllocated(body.next.next);
    }
    hide Queue, Is, Distinct, Ordered;
    ElemsAllocated(body.child);
    ElemsAllocated(b.child);
    ElemsAllocated(last.child);
    assert phn0.prev == null && phn1.prev == null;
    phn0.next := null;
    phn1.next := null;
    MeldKeeps(a, b, lo);
    phn := Merge(phn0, phn1, a, b);
    root := Meld(a, b);
  }

  /** One turn of the FIFO loop; `head` is null when the merged node is the only one left. */
  method MergeTurn(phn0: PhNode, tail: PhNode, ghost body: Heap, ghost last: Root, ghost lo: int)
    returns (merged: PhNode, head: PhNode?, ghost root: Root)
    requires Fifo(phn0, body, last, lo) && tail == last.elem && body.Cell?
    modifies FifoElems(body, last)
    ensures merged == root.elem && (head == null <==> body.next.Empty?)
    ensures head == null ==> RootIs(root) && RootDistinct(root) && RootOrdered(root, lo)
    ensures head == null ==> merged.next == null && merged.prev == null && RootElems(root) == FifoElems(body, last)
    ensures head != null ==> Fifo(head, Append(body.next.next, last), root, lo)
    ensures head != null ==> FifoElems(Append(body.next.next, last), root) == FifoElems(body, last)
    ensures head != null ==> Length(Append(body.next.next, last)) < Length(body)
  {
    FifoRest(phn0, body, last, lo);
    var phn1 := phn0.next;
    head := phn1.next;
    hide Queue, Is, Distinct, Ordered, Meld, RootIs, RootDistinct, RootOrdered;
    merged, root := MergeFront(phn0, phn1, head, body, last, lo);
    if head != null {
      Push(head, tail, merged, body.next.next, last, root, lo);
    }
  }

  /** The passes over the FIFO: the first two elements are merged and queued again until one is left. */
  method MergeQueue(head0: PhNode, tail0: PhNode, ghost body0: Heap, ghost last0: Root, ghost lo: int)
    returns (r: PhNode, ghost root: Root)
    requires Fifo(head0, body0, last0, lo) && tail0 == last0.elem
    modifies FifoElems(body0, last0)
    ensures r == root.elem && RootIs(root) && RootDistinct(root) && RootOrdered(root, lo)
    ensures r.next == null && r.prev == null && RootElems(root) == FifoElems(body0, last0)
  {
    var phn0, tail := head0, tail0;
    ghost var body, last := body0, last0;
    assert body.Cell? ==> Queue(phn0.next, tail, body.next);
    if phn0.next == null {
      return phn0, last;
    }
    while true
      invariant Fifo(phn0, body, last, lo) && tail == last.elem && body.Cell?
      invariant FifoElems(body, last) == FifoElems(body0, last0)
      decreases Length(body)
    {
      hide Queue, Is, Distinct, Ordered, RootIs, RootDistinct, RootOrdered;
      var merged, head;
      merged, head, root := MergeTurn(phn0, tail, body, last, lo);
      if head == null {
        return merged, root;
      }
      body, last := Append(body.next.next, last), root;
      tail, phn0 := merged, head;
    }
  }

  /** ph_merge_siblings: a list of siblings becomes one node above all the others. */
  method MergeSiblings(phn: PhNode, ghost was: PhNode?, ghost t: Heap, ghost lo: int) returns (r: PhNode, ghost root: Root)
    requires t.Cell? && Is(phn, was, t) && Distinct(t) && Ordered(t, lo)
    modifies Elems(t)
    ensures r == root.elem && RootIs(root) && RootDistinct(root) && RootOrdered(root, lo)
    ensures r.next == null && RootElems(root) == Elems(t)
    ensures r.prev == if t.next.Empty? then was else null
  {
    if phn.next == null {
      return phn, Root(phn, t.child);
    }
    var head, tail;
    ghost var body, last;
    head, tail, body, last := QueuePairs(phn, was, t, lo);
    r, root := MergeQueue(head, tail, body, last, lo);
  }

  // ---- A place inside the heap

  /** A heap with a hole below one of its links. */
  datatype Place =
    | Whole
    | ChildHole(up: Place, elem: PhNode, next: Heap)
    | NextHole(up: Place, elem: PhNode, child: Heap)

  ghost function Plug(c: Place, t: Heap): Heap {
    match c
    case Whole => t
    case ChildHole(up, e, next) => Plug(up, Cell(e, t, next))
    case NextHole(up, e, child) => Plug(up, Cell(e, child, t))
  }

  ghost function PlaceElems(c: Place): set<PhNode> {
    match c
    case Whole => {}
    case ChildHole(up, e, next) => PlaceElems(up) + {e} + Elems(next)
    case NextHole(up, e, child) => PlaceElems(up) + {e} + Elems(child)
  }

  lemma {:induction false} PlaceAllocated(c: Place)
    ensures forall x :: x in PlaceElems(c) ==> allocated(x)
  {
    match c
    case Whole =>
    case ChildHole(up, e, next) => PlaceAllocated(up); ElemsAllocated(next);
    case NextHole(up, e, child) => PlaceAllocated(up); ElemsAllocated(child);
  }

  ghost predicate PlaceDistinct(c: Place) {
    match c
    case Whole => true
    case ChildHole(up, e, next) =>
      PlaceDistinct(up) && Distinct(next) && e !in Elems(next) && e !in PlaceElems(up) && Elems(next) !! PlaceElems(up)
    case NextHole(up, e, child) =>
      PlaceDistinct(up) && Distinct(child) && e !in Elems(child) && e !in PlaceElems(up) && Elems(child) !! PlaceElems(up)
  }

  /** Following the links from `root` into the place ends at the link `hole`, below the node `prev`. */
  ghost predicate PlaceIs(root: PhNode?, c: Place, hole: PhNode?, prev: PhNode?)
    reads PlaceElems(c)
    decreases c
  {
    match c
    case Whole => hole == root
    case ChildHole(up, e, next) =>
      e.lchild == hole && prev == e && Is(e.next, e, next) && PlaceIs(root, up, e, e.prev)
    case NextHole(up, e, child) =>
      e.next == hole && prev == e && Is(e.lchild, e, child) && PlaceIs(root, up, e, e.prev)
  }

  /** The links of a list, the prev link of its first node left open. */
  ghost predicate Hangs(n: PhNode?, t: Heap)
    reads Elems(t)
  {
    match t
    case Empty => n == null
    case Cell(e, c, nx) => n == e && Is(e.lchild, e, c) && Is(e.next, e, nx)
  }

  lemma {:induction false} PlugIs(root: PhNode?, c: Place, hole: PhNode?, prev: PhNode?, t: Heap)
    requires PlaceIs(root, c, hole, prev) && Hangs(hole, t) && (c != Whole ==> Is(hole, prev, t))
    ensures Hangs(root, Plug(c, t))
  {
    match c
    case Whole =>
    case ChildHole(up, e, next) => PlugIs(root, up, e, e.prev, Cell(e, t, next));
    case NextHole(up, e, child) => PlugIs(root, up, e, e.prev, Cell(e, child, t));
  }

  lemma {:induction false} PlugElems(c: Place, t: Heap)
    ensures Elems(Plug(c, t)) == PlaceElems(c) + Elems(t)
    ensures PlaceDistinct(c) && Distinct(t) && PlaceElems(c) !! Elems(t) ==> Distinct(Plug(c, t))
  {
    match c
    case Whole =>
    case ChildHole(up, e, next) => PlugElems(up, Cell(e, t, next));
    case NextHole(up, e, child) => PlugElems(up, Cell(e, child, t));
  }

  /** A subtree may be replaced by one that keeps every lower bound of its list. */
  lemma {:induction false} PlugOrdered(c: Place, t: Heap, t': Heap, lo: int)
    requires Ordered(Plug(c, t), lo)
    requires forall k :: Ordered(t, k) ==> Ordered(t', k)
    ensures Ordered(Plug(c, t'), lo)
  {
    match c
    case Whole =>
    case ChildHole(up, e, next) => PlugOrdered(up, Cell(e, t, next), Cell(e, t', next), lo);
    case NextHole(up, e, child) => PlugOrdered(up, Cell(e, child, t), Cell(e, child, t'), lo);
  }

  lemma {:induction false} PlugInherits(c: Place, t: Heap, lo: int) returns (k: int)
    requires Ordered(Plug(c, t), lo)
    ensures Ordered(t, k)
  {
    match c
    case Whole => k := lo;
    case ChildHole(up, e, next) => k := PlugInherits(up, Cell(e, t, next), lo); k := e.key;
    case NextHole(up, e, child) => k := PlugInherits(up, Cell(e, child, t), lo);
  }

  /** A list of nodes without children. */
  ghost predicate Flat(t: Heap) {
    t.Cell? ==> t.child.Empty? && Flat(t.next)
  }

  /** The list behind the root, to which insertions go, holds no children. */
  ghost predicate FlatAux(t: Heap) {
    t.Cell? ==> Flat(t.next)
  }

  lemma {:induction false} PlugFlat(c: Place, t: Heap, t': Heap)
    requires t.Cell? && c != Whole && (Flat(t) ==> Flat(t')) && FlatAux(Plug(c, t))
    ensures FlatAux(Plug(c, t')) && Plug(c, t').Cell? && Plug(c, t).Cell? && Plug(c, t').elem == Plug(c, t).elem
  {
    match c
    case ChildHole(up, e, next) =>
      if up == Whole {
        assert Plug(c, t') == Cell(e, t', next) && Plug(c, t) == Cell(e, t, next);
      } else {
        PlugFlat(up, Cell(e, t, next), Cell(e, t', next));
      }
    case NextHole(up, e, child) =>
      if up == Whole {
        assert Plug(c, t') == Cell(e, child, t') && Plug(c, t) == Cell(e, child, t);
      } else {
        PlugFlat(up, Cell(e, child, t), Cell(e, child, t'));
      }
  }

  /** Every node of a heap is somewhere in it. */
  lemma {:induction false} Locate(root: PhNode?, c0: Place, n: PhNode?, t: Heap, phn: PhNode) returns (c: Place, sub: Heap)
    requires phn in Elems(t) && Hangs(n, t) && Distinct(t)
    requires t.Cell? && PlaceIs(root, c0, n, t.elem.prev) && PlaceDistinct(c0) && PlaceElems(c0) !! Elems(t)
    ensures Plug(c, sub) == Plug(c0, t) && sub.Cell? && sub.elem == phn
    ensures PlaceIs(root, c, phn, phn.prev) && Hangs(phn, sub)
    ensures PlaceDistinct(c) && Distinct(sub) && PlaceElems(c) !! Elems(sub)
    decreases t
  {
    if t.elem == phn {
      c, sub := c0, t;
    } else if phn in Elems(t.child) {
      c, sub := Locate(root, ChildHole(c0, t.elem, t.next), n.lchild, t.child, phn);
    } else {
      c, sub := Locate(root, NextHole(c0, t.elem, t.child), n.next, t.next, phn);
    }
  }

  /** The waiting list becomes one node above its children, and that is merged with the root. */
  method MergeWaiting(root: PhNode, phn: PhNode, ghost top: Root, ghost aux: Heap, ghost lo: int) returns (r: PhNode, ghost m: Root)
    requires top.elem == root && RootIs(top) && RootDistinct(top) && RootOrdered(top, lo) && root.prev == null && root.next == null
    requires aux.Cell? && Is(phn, null, aux) && Distinct(aux) && Ordered(aux, lo) && RootElems(top) !! Elems(aux)
    modifies RootElems(top) + Elems(aux)
    ensures r == m.elem && RootIs(m) && RootDistinct(m) && RootOrdered(m, lo) && r.prev == null && r.next == null
    ensures RootElems(m) == RootElems(top) + Elems(aux)
  {
    ElemsAllocated(top.child);
    var merged;
    ghost var q;
    merged, q := MergeSiblings(phn, null, aux, lo);
    hide Is, Distinct, Ordered, Elems;
    MeldKeeps(top, q, lo);
    r := Merge(root, merged, top, q);
    m := Meld(top, q);
  }

  // ---- The heap

  class PairHeap {
    var root: PhNode?
    ghost var shape: Heap
    ghost var floor: int

    ghost predicate Valid()
      reads this, Elems(shape)
    {
      Hangs(root, shape) && Distinct(shape) && Ordered(shape, floor) && FlatAux(shape)
    }

    /** The nodes inserted and not yet removed. */
    ghost function Members(): set<PhNode>
      reads this
    {
      Elems(shape)
    }

    constructor ()
      ensures Valid() && Members() == {}
    {
      root, shape, floor := null, Empty, 0;
    }

    ghost method Reshape(t: Heap, lo: int)
      requires Hangs(root, t) && Distinct(t) && Ordered(t, lo) && FlatAux(t)
      modifies this`shape, this`floor
      ensures Valid() && Members() == Elems(t)
    {
      shape, floor := t, lo;
    }

    method IsEmpty() returns (empty: bool)
      requires Valid()
      ensures empty <==> Members() == {}
    {
      empty := root == null;
      assert shape.Cell? ==> shape.elem in Members();
    }

    /** The new node goes to the head of the list behind the root, whatever its key. */
    method Insert(phn: PhNode)
      requires Valid() && phn !in Members()
      modifies this, Members(), phn
      ensures Valid() && Members() == old(Members()) + {phn}
      ensures if old(root) == null then root == phn else root == old(root) && root.next == phn && phn.next == old(root.next)
    {
      ElemsAllocated(shape);
      phn.prev, phn.next, phn.lchild := null, null, null;
      if root == null {
        root, shape, floor := phn, Cell(phn, Empty, Empty), phn.key;
      } else {
        InsertBehind(phn);
      }
    }

    method InsertBehind(phn: PhNode)
      requires Valid() && phn !in Members() && root != null && phn.lchild == null
      modifies this, Members(), phn
      ensures Valid() && Members() == old(Members()) + {phn}
      ensures root == old(root) && root.next == phn && phn.next == old(root.next)
    {
      ghost var aux, children := shape.next, shape.child;
      ElemsAllocated(children);
      ElemsAllocated(aux);
      LowerFloor(shape, floor, phn.key);
      assert Is(root.next, root, aux) && Is(root.lchild, root, children);
      hide Ordered, FlatAux, Flat;
      phn.next := root.next;
      if root.next != null {
        SetPrev(root.next, phn, root, aux);
      }
      phn.prev := root;
      root.next := phn;
      assert Is(phn, root, Cell(phn, Empty, aux)) && Is(root.lchild, root, children);
      InsertedOrder(root, children, aux, phn, floor);
      Reshape(Cell(root, children, Cell(phn, Empty, aux)), if phn.key < floor then phn.key else floor);
    }

    /** ph_merge_aux: the waiting list is merged into the root. */
    method MergeAux()
      requires Valid() && root != null
      modifies this, Members()
      ensures Valid() && Members() == old(Members()) && shape.Cell? && shape.next.Empty?
    {
      ElemsAllocated(shape.child);
      var phn := root.next;
      if phn != null {
        ghost var aux, top := shape.next, Root(root, shape.child);
        assert Is(phn, root, aux) && Is(root.lchild, root, shape.child);
        root.prev, root.next := null, null;
        SetPrev(phn, null, root, aux);
        ghost var m;
        root, m := MergeWaiting(root, phn, top, aux, floor);
        shape := Cell(root, m.child, Empty);
      }
    }

    /** The least node. */
    method First() returns (phn: PhNode?)
      requires Valid()
      modifies this, Members()
      ensures Valid() && Members() == old(Members())
      ensures Members() == {} ==> phn == null
      ensures Members() != {} ==> phn != null && phn in Members() && forall x :: x in Members() ==> phn.key <= x.key
    {
      if root == null {
        return null;
      }
      MergeAux();
      OrderedMin(shape.child, root.key);
      phn := root;
    }

    /** ph_merge_children at the root: the root leaves, its children become the heap. */
    method PopRoot()
      requires Valid() && shape.Cell? && shape.next.Empty?
      modifies this, Members()
      ensures Valid() && Members() == old(Members()) - {old(root)}
    {
      ghost var children, lo := shape.child, root.key;
      if root.lchild == null {
        root, shape := null, Empty;
      } else {
        assert Is(root.lchild, root, children);
        ghost var r;
        floor := lo;
        root, r := MergeSiblings(root.lchild, root, children, lo);
        shape := Cell(root, r.child, Empty);
      }
    }

    /** Removes the least node. */
    method RemoveFirst() returns (phn: PhNode?)
      requires Valid()
      modifies this, Members()
      ensures Valid()
      ensures old(Members()) == {} ==> phn == null && Members() == {}
      ensures old(Members()) != {} ==> phn != null && phn in old(Members()) && Members() == old(Members()) - {phn}
      ensures old(Members()) != {} ==> forall x :: x in old(Members()) ==> phn.key <= x.key
    {
      if root == null {
        return null;
      }
      MergeAux();
      OrderedMin(shape.child, root.key);
      phn := root;
      PopRoot();
    }

    /** Removes any node of the heap. */
    method Remove(phn: PhNode)
      requires Valid() && phn in Members()
      modifies this, Members()
      ensures Valid() && Members() == old(Members()) - {phn}
    {
      if root == phn {
        if phn.lchild == null {
          ghost var aux := shape.next;
          assert Is(phn.next, phn, aux) && (phn.next != null ==> phn.next in Elems(aux));
          assert shape.child.Empty? && (aux.Cell? ==> Flat(aux) && Flat(aux.next));
          root := phn.next;
          if root != null {
            SetPrev(root, null, phn, aux);
          }
          shape := aux;
          return;
        }
        MergeAux();
        if root == phn {
          PopRoot();
          return;
        }
      }
      RemoveInner(phn);
    }

    /** The removed node is not the root: its merged children take its place, if it has any. */
    method RemoveInner(phn: PhNode)
      requires Valid() && phn in Members() && phn != root
      modifies this, Members()
      ensures Valid() && Members() == old(Members()) - {phn}
    {
      ghost var c, sub := Locate(root, Whole, root, shape, phn);
      assert c != Whole && phn.prev != null;
      PlugElems(c, sub);
      ElemsAllocated(sub.next);
      PlaceAllocated(c);
      var parent := phn.prev;
      if parent.lchild != phn {
        parent := null;
      }
      assert parent != null <==> c.ChildHole?;
      var replace: PhNode? := null;
      ghost var r := Root(phn, Empty);
      ghost var k := PlugInherits(c, sub, floor);
      if phn.lchild != null {
        assert Is(phn.lchild, phn, sub.child);
        replace, r := MergeSiblings(phn.lchild, phn, sub.child, phn.key);
      }
      ReplacedKeeps(c, sub, r, shape, floor);
      hide Ordered, FlatAux, Flat, Distinct, PlaceDistinct, Replaced;
      var next := phn.next;
      if replace != null {
        SubstituteChild(phn, parent, replace, c, sub, r);
        next := replace;
      } else {
        SubstituteSibling(phn, parent, c, sub);
      }
      ReplacedIs(next, phn.prev, sub, r);
      PlugIs(root, c, next, phn.prev, Replaced(sub, r));
      Reshape(Plug(c, Replaced(sub, r)), floor);
    }

    /** Links `replace` from where the node hangs. */
    method TakePlace(phn: PhNode, parent: PhNode?, replace: PhNode, ghost c: Place)
      requires c != Whole && PlaceIs(root, c, phn, phn.prev) && PlaceDistinct(c) && phn != replace
      requires phn !in PlaceElems(c) && replace !in PlaceElems(c) && parent == if c.ChildHole? then phn.prev else null
      modifies c.elem, replace`prev
      ensures PlaceIs(root, c, replace, phn.prev) && replace.prev == phn.prev && phn.prev == old(phn.prev)
    {
      PlaceAllocated(c);
      if parent != null {
        replace.prev := parent;
        parent.lchild := replace;
      } else {
        replace.prev := phn.prev;
        if phn.prev != null {
          phn.prev.next := replace;
        }
      }
    }

    /** Links the merged children into the place of the removed node. */
    method SubstituteChild(phn: PhNode, parent: PhNode?, replace: PhNode, ghost c: Place, ghost sub: Heap, ghost r: Root)
      requires c != Whole && sub.Cell? && sub.elem == phn && PlaceIs(root, c, phn, phn.prev) && Is(phn.next, phn, sub.next)
      requires PlaceDistinct(c) && Distinct(sub) && PlaceElems(c) !! Elems(sub)
      requires parent == if c.ChildHole? then phn.prev else null
      requires replace == r.elem && RootIs(r) && RootDistinct(r) && RootElems(r) == Elems(sub.child)
      modifies {c.elem} + Elems(sub.child) + Elems(sub.next)
      ensures phn.prev == old(phn.prev)
      ensures PlaceIs(root, c, replace, phn.prev) && Is(replace, phn.prev, Cell(replace, r.child, sub.next))
    {
      hide Distinct, Elems, RootElems, RootIs, RootDistinct, PlaceElems, PlaceDistinct, PlaceIs, Is;
      SubstituteApart(phn, replace, c, sub, r);
      PlaceAllocated(c);
      ElemsAllocated(sub.next);
      ElemsAllocated(r.child);
      TakePlace(phn, parent, replace, c);
      LinkNext(replace, phn.next, phn, sub.next);
      CellIs(replace, phn.prev, r.child, sub.next);
    }

    /** Links the next sibling, if there is one, into the place of a removed node without children. */
    method SubstituteSibling(phn: PhNode, parent: PhNode?, ghost c: Place, ghost sub: Heap)
      requires c != Whole && sub.Cell? && sub.elem == phn && PlaceIs(root, c, phn, phn.prev) && Is(phn.next, phn, sub.next)
      requires PlaceDistinct(c) && Distinct(sub) && PlaceElems(c) !! Elems(sub)
      requires parent == if c.ChildHole? then phn.prev else null
      modifies {c.elem} + Elems(sub.next)
      ensures phn.prev == old(phn.prev) && phn.next == old(phn.next)
      ensures PlaceIs(root, c, phn.next, phn.prev) && Is(phn.next, phn.prev, sub.next)
    {
      PlaceAllocated(c);
      ElemsAllocated(sub.next);
      assert phn.next != null ==> phn.next in Elems(sub.next);
      if parent != null {
        var next := phn.next;
        parent.lchild := next;
        if next != null {
          SetPrev(next, parent, phn, sub.next);
        }
      } else {
        assert phn.prev != null;
        phn.prev.next := phn.next;
      }
      if phn.next != null {
        SetPrev(phn.next, phn.prev, if parent != null then parent else phn, sub.next);
      }
    }

    /** Removes the newest waiting node, or the root when none waits. */
    method RemoveAny() returns (phn: PhNode?)
      requires Valid()
      modifies this, Members()
      ensures Valid()
      ensures phn == if old(root) == null then null else if old(root.next) != null then old(root.next) else old(root)
      ensures phn == null ==> old(Members()) == {} && Members() == {}
      ensures phn != null ==> phn in old(Members()) && Members() == old(Members()) - {phn}
    {
      if root == null {
        return null;
      }
      phn := root.next;
      if phn != null {
        ghost var aux := shape.next;
        assert Is(phn, root, aux) && Distinct(aux) && Ordered(aux, floor) && Flat(aux);
        ElemsAllocated(shape.child);
        ElemsAllocated(aux.next);
        var rest := phn.next;
        assert Is(rest, phn, aux.next) && (rest != null ==> rest in Elems(aux.next));
        root.next := rest;
        SetPrev(rest, root, phn, aux.next);
        shape := shape.(next := aux.next);
        return;
      }
      phn := root;
      PopRoot();
    }
  }

  /** The node that takes the place, its children, the later siblings and the nodes around the place are all apart. */
  lemma SubstituteApart(phn: PhNode, replace: PhNode, c: Place, sub: Heap, r: Root)
    requires c != Whole && sub.Cell? && sub.elem == phn && Is(phn.next, phn, sub.next) && Distinct(sub) && PlaceElems(c) !! Elems(sub)
    requires replace == r.elem && RootIs(r) && RootDistinct(r) && RootElems(r) == Elems(sub.child)
    ensures Is(replace.lchild, replace, r.child) && Distinct(sub.next)
    ensures c.elem in PlaceElems(c) && phn !in PlaceElems(c) && phn != replace && phn != c.elem && phn !in Elems(sub.next)
    ensures replace in Elems(sub.child) && replace !in PlaceElems(c) && replace !in Elems(sub.next) && replace !in Elems(r.child)
    ensures c.elem !in Elems(r.child) && c.elem !in Elems(sub.next) && Elems(sub.next) !! Elems(r.child) && PlaceElems(c) !! Elems(sub.next)
    ensures phn.next != null ==> phn.next in Elems(sub.next)
  {
  }

  /** What replaces a removed node: its merged children above its siblings, or its siblings alone. */
  ghost function Replaced(sub: Heap, r: Root): Heap
    requires sub.Cell?
  {
    if sub.child.Empty? then sub.next else Cell(r.elem, r.child, sub.next)
  }

  lemma ReplacedIs(n: PhNode?, prev: PhNode?, sub: Heap, r: Root)
    requires sub.Cell? && Is(n, prev, if sub.child.Empty? then sub.next else Cell(r.elem, r.child, sub.next))
    ensures Is(n, prev, Replaced(sub, r)) && Hangs(n, Replaced(sub, r))
  {
  }

  lemma ReplacedKeeps(c: Place, sub: Heap, r: Root, shape: Heap, floor: int)
    requires sub.Cell? && Plug(c, sub) == shape && c != Whole
    requires PlaceDistinct(c) && Distinct(sub) && PlaceElems(c) !! Elems(sub)
    requires Ordered(shape, floor) && FlatAux(shape)
    requires sub.child.Cell? ==> RootDistinct(r) && RootOrdered(r, sub.elem.key) && RootElems(r) == Elems(sub.child)
    ensures var shape' := Plug(c, Replaced(sub, r));
      && Distinct(shape') && Ordered(shape', floor) && FlatAux(shape')
      && Elems(shape') == Elems(shape) - {sub.elem}
      && shape'.Cell? && shape.Cell? && shape'.elem == shape.elem
  {
    var t := Replaced(sub, r);
    PlugElems(c, sub);
    PlugElems(c, t);
    PlugFlat(c, sub, t);
    forall k | Ordered(sub, k) ensures Ordered(t, k) {}
    PlugOrdered(c, sub, t, floor);
  }

  lemma InsertedOrder(root: PhNode, children: Heap, aux: Heap, phn: PhNode, lo: int)
    requires Ordered(Cell(root, children, aux), lo) && FlatAux(Cell(root, children, aux))
    requires Distinct(Cell(root, children, aux)) && phn !in Elems(Cell(root, children, aux))
    ensures var t := Cell(root, children, Cell(phn, Empty, aux));
      Ordered(t, if phn.key < lo then phn.key else lo) && FlatAux(t) && Distinct(t)
  {
    LowerFloor(Cell(root, children, aux), lo, phn.key);
  }

  lemma {:induction false} LowerFloor(t: Heap, lo: int, k: int)
    requires Ordered(t, lo)
    ensures Ordered(t, if k < lo then k else lo)
  {
    if t.Cell? { LowerFloor(t.next, lo, k); }
  }
}

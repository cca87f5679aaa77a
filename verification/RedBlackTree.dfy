/**
  The intrusive left-leaning red-black tree generated by rb.h: nodes that are
  rewritten in place, a nil sentinel, and a path array instead of parent pointers.
 */
module RedBlackTree {
  import opened LlrbShape

  /** A tree node; `key` is its rank under the comparison function. */
  class RbNode {
    const key: int
    var left: RbNode
    var right: RbNode
    var red: bool

    constructor (key: int)
      ensures this.key == key && !red && left == this && right == this
    {
      this.key := key;
      left := this;
      right := this;
      red := false;
    }
  }

  datatype PathEntry = PathEntry(node: RbNode, cmp: int)

  const PATH_LEN := 128

  function Compare(a: RbNode, b: RbNode): int {
    if a.key < b.key then -1 else if a.key > b.key then 1 else 0
  }

  // ---- What the pointers mean

  ghost function Elems(t: Tree<RbNode>): set<RbNode> {
    match t
    case Nil => {}
    case Node(l, e, _, r) => Elems(l) + {e} + Elems(r)
  }

  lemma {:induction false} ElemsAllocated(t: Tree<RbNode>)
    ensures forall x :: x in Elems(t) ==> allocated(x)
  {
    if t.Node? {
      ElemsAllocated(t.left);
      ElemsAllocated(t.right);
    }
  }

  ghost predicate Distinct(t: Tree<RbNode>) {
    match t
    case Nil => true
    case Node(l, e, _, r) => Distinct(l) && Distinct(r) && e !in Elems(l) && e !in Elems(r) && Elems(l) !! Elems(r)
  }

  /** The pointer `n` is the root of a structure shaped like `t`. */
  ghost predicate Is(nil: RbNode, n: RbNode, t: Tree<RbNode>)
    reads Elems(t)
  {
    match t
    case Nil => n == nil
    case Node(l, e, red, r) =>
      n == e && e != nil && e.red == red && Is(nil, e.left, l) && Is(nil, e.right, r)
  }

  ghost function CtxElems(c: Context<RbNode>): set<RbNode> {
    match c
    case Top => {}
    case Frame(up, e, _, _, other) => CtxElems(up) + {e} + Elems(other)
  }

  lemma {:induction false} CtxAllocated(c: Context<RbNode>)
    ensures forall x :: x in CtxElems(c) ==> allocated(x)
  {
    if c.Frame? {
      CtxAllocated(c.up);
      ElemsAllocated(c.other);
    }
  }

  ghost predicate CtxDistinct(c: Context<RbNode>) {
    match c
    case Top => true
    case Frame(up, e, _, _, other) =>
      && CtxDistinct(up) && Distinct(other)
      && e !in Elems(other) && e !in CtxElems(up) && Elems(other) !! CtxElems(up)
  }

  /** Following the context down from the pointer `root` ends at the pointer `hole`. */
  ghost predicate CtxIs(nil: RbNode, root: RbNode, c: Context<RbNode>, hole: RbNode)
    reads CtxElems(c)
  {
    match c
    case Top => root == hole
    case Frame(up, e, red, goLeft, other) =>
      && CtxIs(nil, root, up, e) && e != nil && e.red == red
      && (if goLeft then e.left == hole && Is(nil, e.right, other) else e.right == hole && Is(nil, e.left, other))
  }

  ghost predicate PathIs(p: seq<PathEntry>, c: Context<RbNode>) {
    match c
    case Top => p == []
    case Frame(up, e, _, goLeft, _) =>
      && p != [] && p[|p| - 1].node == e && (p[|p| - 1].cmp < 0 <==> goLeft)
      && PathIs(p[..|p| - 1], up)
  }

  ghost predicate Sorted(s: seq<RbNode>) {
    forall i, j :: 0 <= i < j < |s| ==> s[i].key < s[j].key
  }

  // ---- Sets, sequences and pointers agree

  lemma {:induction false} ElemsInorder(t: Tree<RbNode>)
    ensures forall x :: x in Elems(t) ==> x in Inorder(t)
    ensures forall x :: x in Inorder(t) ==> x in Elems(t)
  {
    match t
    case Nil =>
    case Node(l, e, _, r) =>
      ElemsInorder(l);
      ElemsInorder(r);
      assert Inorder(t) == Inorder(l) + [e] + Inorder(r);
  }

  lemma SortedPieces(s: seq<RbNode>, a: seq<RbNode>, e: RbNode, b: seq<RbNode>)
    requires s == a + [e] + b && Sorted(s)
    ensures Sorted(a) && Sorted(b)
    ensures AllBelow(a, e.key) && AllAbove(b, e.key)
  {
    assert forall i :: 0 <= i < |a| ==> s[i] == a[i];
    assert s[|a|] == e;
    assert forall i :: 0 <= i < |b| ==> s[|a| + 1 + i] == b[i];
  }

  lemma {:induction false} SortedDistinct(t: Tree<RbNode>)
    requires Sorted(Inorder(t))
    ensures Distinct(t)
  {
    if t.Node? {
      SortedPieces(Inorder(t), Inorder(t.left), t.elem, Inorder(t.right));
      SortedDistinct(t.left);
      SortedDistinct(t.right);
      ElemsInorder(t.left);
      ElemsInorder(t.right);
    }
  }

  lemma {:induction false} PlugElems(c: Context<RbNode>, t: Tree<RbNode>)
    ensures Elems(Plug(c, t)) == CtxElems(c) + Elems(t)
  {
    match c
    case Top =>
    case Frame(up, e, red, goLeft, other) =>
      PlugElems(up, Join(e, red, goLeft, t, other));
  }

  /** A context whose hole pointer leads to a subtree is a whole tree. */
  lemma {:induction false} PlugIs(nil: RbNode, root: RbNode, c: Context<RbNode>, hole: RbNode, t: Tree<RbNode>)
    requires CtxIs(nil, root, c, hole) && Is(nil, hole, t)
    ensures Is(nil, root, Plug(c, t))
  {
    match c
    case Top =>
    case Frame(up, e, red, goLeft, other) =>
      PlugIs(nil, root, up, e, Join(e, red, goLeft, t, other));
  }

  lemma {:induction false} ComposeIs(nil: RbNode, root: RbNode, outer: Context<RbNode>, mid: RbNode,
                                     inner: Context<RbNode>, hole: RbNode)
    requires CtxIs(nil, root, outer, mid) && CtxIs(nil, mid, inner, hole)
    ensures CtxIs(nil, root, Compose(outer, inner), hole)
    ensures CtxElems(Compose(outer, inner)) == CtxElems(outer) + CtxElems(inner)
  {
    match inner
    case Top =>
    case Frame(up, e, red, goLeft, other) =>
      ComposeIs(nil, root, outer, mid, up, e);
  }

  lemma {:induction false} ComposeDistinct(outer: Context<RbNode>, inner: Context<RbNode>)
    requires CtxDistinct(outer) && CtxDistinct(inner) && CtxElems(outer) !! CtxElems(inner)
    ensures CtxDistinct(Compose(outer, inner))
    ensures CtxElems(Compose(outer, inner)) == CtxElems(outer) + CtxElems(inner)
  {
    match inner
    case Top =>
    case Frame(up, e, red, goLeft, other) =>
      ComposeDistinct(outer, up);
  }

  // ---- Rotations

  method RotateLeft(n: RbNode) returns (r: RbNode)
    requires n.right != n
    modifies n, n.right
    ensures r == old(n.right)
    ensures n.right == old(n.right.left) && n.left == old(n.left) && n.red == old(n.red)
    ensures r.left == n && r.right == old(n.right.right) && r.red == old(n.right.red)
  {
    r := n.right;
    n.right := r.left;
    r.left := n;
  }

  method RotateRight(n: RbNode) returns (r: RbNode)
    requires n.left != n
    modifies n, n.left
    ensures r == old(n.left)
    ensures n.left == old(n.left.right) && n.right == old(n.right) && n.red == old(n.red)
    ensures r.right == n && r.left == old(n.left.left) && r.red == old(n.left.red)
  {
    r := n.left;
    n.left := r.right;
    r.right := n;
  }

  /** One turn of the insertion unwind loop, the path having gone left at `e`. */
  method FixInsertLeft(nil: RbNode, e: RbNode, child: RbNode, ghost c: Tree<RbNode>, ghost other: Tree<RbNode>)
    returns (cnode: RbNode, done: bool, ghost t: Tree<RbNode>)
    requires c.Node? && Is(nil, child, c) && Is(nil, e.right, other) && e != nil
    requires Distinct(Join(e, e.red, true, c, other)) && !nil.red
    modifies Elems(Join(e, e.red, true, c, other))
    ensures t == InsertStep(e, old(e.red), true, c, other)
    ensures done <==> !IsRed(c)
    ensures done ==> cnode == e
    ensures Is(nil, cnode, t)
  {
    cnode, done := e, false;
    t := InsertStep(e, e.red, true, c, other);
    ElemsAllocated(Join(e, e.red, true, c, other));
    e.left := child;
    if child.red {
      var leftleft := child.left;
      if leftleft.red {
        assert Distinct(c.left);
        leftleft.red := false;
        assert Is(nil, leftleft, Blacken(c.left));
        cnode := RotateRight(e);
        assert Is(nil, cnode.left, Blacken(c.left));
        assert Is(nil, e, Node(c.right, e, e.red, other));
      }
    } else {
      done := true;
    }
  }

  /** One turn of the insertion unwind loop, the path having gone right at `e`. */
  method FixInsertRight(nil: RbNode, e: RbNode, child: RbNode, ghost c: Tree<RbNode>, ghost other: Tree<RbNode>)
    returns (cnode: RbNode, done: bool, ghost t: Tree<RbNode>)
    requires c.Node? && Is(nil, child, c) && Is(nil, e.left, other) && e != nil
    requires Distinct(Join(e, e.red, false, c, other)) && !nil.red
    modifies Elems(Join(e, e.red, false, c, other))
    ensures t == InsertStep(e, old(e.red), false, c, other)
    ensures done <==> !IsRed(c)
    ensures done ==> cnode == e
    ensures Is(nil, cnode, t)
  {
    cnode, done := e, false;
    t := InsertStep(e, e.red, false, c, other);
    ElemsAllocated(Join(e, e.red, false, c, other));
    e.right := child;
    if child.red {
      var left := e.left;
      if left.red {
        left.red := false;
        child.red := false;
        e.red := true;
        assert Is(nil, left, Blacken(other));
        assert Is(nil, child, Blacken(c));
      } else {
        var tred := e.red;
        cnode := RotateLeft(e);
        cnode.red := tred;
        e.red := true;
        assert Is(nil, e, Node(other, e, true, c.left));
        assert Is(nil, cnode.right, c.right);
      }
    } else {
      done := true;
    }
  }

  /** One turn of the insertion unwind loop, the context above untouched. */
  method FixInsert(nil: RbNode, ghost root: RbNode, entry: PathEntry, child: RbNode, ghost f: Context<RbNode>,
                   ghost hole: RbNode, ghost t: Tree<RbNode>)
    returns (cnode: RbNode, done: bool, ghost t': Tree<RbNode>)
    requires f.Frame? && entry.node == f.elem && (entry.cmp < 0 <==> f.goLeft)
    requires CtxIs(nil, root, f, hole) && Is(nil, child, t) && t.Node? && !nil.red
    requires CtxDistinct(f) && Distinct(t) && CtxElems(f) !! Elems(t)
    modifies Elems(t) + {f.elem} + Elems(f.other)
    ensures t' == InsertStep(f.elem, f.red, f.goLeft, t, f.other)
    ensures done <==> !IsRed(t)
    ensures done ==> cnode == f.elem
    ensures Is(nil, cnode, t') && CtxIs(nil, root, f.up, f.elem)
  {
    CtxAllocated(f.up);
    if entry.cmp < 0 {
      cnode, done, t' := FixInsertLeft(nil, entry.node, child, t, f.other);
    } else {
      cnode, done, t' := FixInsertRight(nil, entry.node, child, t, f.other);
    }
  }

  /** How a turn of the removal unwind loop ends. */
  datatype Verdict =
    | Stop      // balance restored below an unchanged subtree root
    | Relink    // balance restored, the subtree root is another node
    | Ascend    // the subtree is still one black level short

  /** The right child is rotated right, then `e` is rotated left. */
  method RotateRightThenLeft(nil: RbNode, e: RbNode, ghost c: Tree<RbNode>, ghost x: Tree<RbNode>, ghost y: RbNode, ghost d: Tree<RbNode>)
    returns (tnode: RbNode)
    requires e != nil && Is(nil, e.left, c) && Is(nil, e.right, Node(x, y, false, d)) && x.Node?
    requires Distinct(Node(c, e, e.red, Node(x, y, false, d)))
    modifies {e, x.elem, y}
    ensures Is(nil, tnode, Node(Node(c, e, old(e.red), x.left), x.elem, x.red, Node(x.right, y, false, d)))
  {
    ElemsAllocated(c);
    ElemsAllocated(x);
    ElemsAllocated(d);
    assert Distinct(x);
    var right := e.right;
    ghost var a0, b0, c0, d0 := right.left.left, right.left.right, e.left, right.right;
    assert Is(nil, right.left, x);
    tnode := RotateRight(right);
    assert Is(nil, a0, x.left) && Is(nil, b0, x.right) && Is(nil, c0, c) && Is(nil, d0, d);
    e.right := tnode;
    tnode := RotateLeft(e);
    assert Is(nil, a0, x.left) && Is(nil, b0, x.right) && Is(nil, c0, c) && Is(nil, d0, d);
  }

  /** One turn of the removal unwind loop, the path having gone left at `e`. */
  method FixRemoveLeft(nil: RbNode, e: RbNode, child: RbNode, ghost c: Tree<RbNode>, ghost other: Tree<RbNode>)
    returns (tnode: RbNode, verdict: Verdict, ghost t: Tree<RbNode>)
    requires Is(nil, child, c) && Is(nil, e.right, other) && e != nil && !nil.red
    requires Sibling(e.red, true, other) && Distinct(Join(e, e.red, true, c, other))
    modifies Elems(Join(e, e.red, true, c, other))
    ensures (t, verdict != Ascend) == RemoveStepLeft(e, old(e.red), c, other)
    ensures verdict == Stop ==> tnode == e
    ensures Is(nil, tnode, t)
  {
    t := RemoveStepLeft(e, e.red, c, other).0;
    ElemsAllocated(Join(e, e.red, true, c, other));
    e.left := child;
    var right := e.right;
    var rightleft := right.left;
    if e.red {
      if rightleft.red {
        e.red := false;
        tnode := RotateRightThenLeft(nil, e, c, other.left, other.elem, other.right);
      } else {
        tnode := RotateLeft(e);
        assert Is(nil, e, Node(c, e, true, other.left));
      }
      verdict := Relink;
    } else if rightleft.red {
      ghost var x := other.left;
      assert Distinct(x);
      rightleft.red := false;
      assert Is(nil, rightleft, Blacken(x));
      tnode := RotateRightThenLeft(nil, e, c, Blacken(x), other.elem, other.right);
      verdict := Relink;
    } else {
      e.red := true;
      tnode := RotateLeft(e);
      assert Is(nil, e, Node(c, e, true, other.left));
      verdict := Ascend;
    }
  }

  lemma JoinIs(nil: RbNode, n: RbNode, l: Tree<RbNode>, r: Tree<RbNode>)
    requires n != nil && Is(nil, n.left, l) && Is(nil, n.right, r)
    ensures Is(nil, n, Node(l, n, n.red, r))
  {
  }

  lemma IsParts(nil: RbNode, n: RbNode, l: Tree<RbNode>, r: Tree<RbNode>)
    requires Is(nil, n, Node(l, n, n.red, r))
    ensures n != nil && Is(nil, n.left, l) && Is(nil, n.right, r)
  {
  }

  /** A right rotation as a tree operation. */
  method RotateRightTree(nil: RbNode, n: RbNode, ghost t: Tree<RbNode>) returns (r: RbNode)
    requires Is(nil, n, t) && t.Node? && t.left.Node? && Distinct(t)
    modifies n, t.left.elem
    ensures Is(nil, r, Node(t.left.left, t.left.elem, t.left.red, Node(t.left.right, n, t.red, t.right)))
    ensures Distinct(Node(t.left.left, t.left.elem, t.left.red, Node(t.left.right, n, t.red, t.right)))
  {
    ElemsAllocated(t.left.left);
    ElemsAllocated(t.left.right);
    ElemsAllocated(t.right);
    r := RotateRight(n);
  }

  /** A left rotation as a tree operation. */
  method RotateLeftTree(nil: RbNode, n: RbNode, ghost t: Tree<RbNode>) returns (r: RbNode)
    requires Is(nil, n, t) && t.Node? && t.right.Node? && Distinct(t)
    modifies n, t.right.elem
    ensures Is(nil, r, Node(Node(t.left, n, t.red, t.right.left), t.right.elem, t.right.red, t.right.right))
  {
    ElemsAllocated(t.left);
    ElemsAllocated(t.right.left);
    ElemsAllocated(t.right.right);
    r := RotateLeft(n);
  }

  method BlackenInPlace(nil: RbNode, e: RbNode, z: RbNode, ghost x: RbNode, ghost y: RbNode, ghost l: Tree<RbNode>,
                        ghost b: Tree<RbNode>, ghost d: Tree<RbNode>, ghost c: Tree<RbNode>)
    requires IsRed(b) && Is(nil, e, Node(Node(l, x, true, Node(b, y, false, d)), e, e.red, c)) && z == b.elem
    requires Distinct(Node(Node(l, x, true, Node(b, y, false, d)), e, e.red, c))
    modifies z
    ensures Is(nil, e, Node(Node(l, x, true, Node(Blacken(b), y, false, d)), e, old(e.red), c)) && e.red == old(e.red)
  {
    ElemsAllocated(l);
    ElemsAllocated(b);
    ElemsAllocated(d);
    ElemsAllocated(c);
    IsParts(nil, e, Node(l, x, true, Node(b, y, false, d)), c);
    IsParts(nil, x, l, Node(b, y, false, d));
    IsParts(nil, y, b, d);
    assert Distinct(Node(l, x, true, Node(b, y, false, d)));
    assert Distinct(Node(b, y, false, d));
    assert Distinct(b);
    ghost var l0, d0, c0 := x.left, y.right, e.right;
    z.red := false;
    assert Is(nil, z, Blacken(b)) && Is(nil, l0, l) && Is(nil, d0, d) && Is(nil, c0, c);
    JoinIs(nil, y, Blacken(b), d);
    JoinIs(nil, x, l, Node(Blacken(b), y, false, d));
  }

  lemma DistinctBlacken(e: RbNode, x: RbNode, y: RbNode, l: Tree<RbNode>, b: Tree<RbNode>, d: Tree<RbNode>, c: Tree<RbNode>)
    requires b.Node? && Distinct(Node(Node(l, x, true, Node(b, y, false, d)), e, e.red, c))
    ensures Distinct(Node(Node(l, x, true, Node(Blacken(b), y, false, d)), e, e.red, c))
    ensures Distinct(Node(Node(Blacken(b), y, false, d), e, e.red, c))
    ensures Distinct(Node(l, x, true, Node(Blacken(b), y, false, Node(d, e, e.red, c))))
    ensures x !in Elems(Node(Node(Blacken(b), y, false, d), e, e.red, c)) && {x, y, e} !! Elems(l)
  {
    assert Elems(Blacken(b)) == Elems(b);
    assert Distinct(Node(l, x, true, Node(b, y, false, d)));
    assert Distinct(Node(b, y, false, d));
    assert Distinct(b);
    assert Distinct(Blacken(b));
    assert Distinct(Node(Blacken(b), y, false, d));
  }

  method LinkRight(nil: RbNode, unode: RbNode, child: RbNode, ghost l: Tree<RbNode>, ghost top: Tree<RbNode>) returns (tnode: RbNode)
    requires unode != nil && Is(nil, unode.left, l) && Is(nil, child, top) && top.Node?
    requires Distinct(Node(l, unode, unode.red, top))
    modifies unode, child
    ensures Is(nil, tnode, Node(Node(l, unode, old(unode.red), top.left), top.elem, top.red, top.right))
  {
    ElemsAllocated(l);
    ElemsAllocated(top);
    unode.right := child;
    JoinIs(nil, unode, l, top);
    tnode := RotateLeftTree(nil, unode, Node(l, unode, unode.red, top));
  }

  /**
    The path went right at the black node `e`; its left child `x` is red and so
    is the root of `b`, the left child of `y`, which is the right child of `x`.
   */
  method FixRemoveDouble(nil: RbNode, e: RbNode, ghost x: RbNode, ghost y: RbNode, ghost l: Tree<RbNode>,
                         ghost b: Tree<RbNode>, ghost d: Tree<RbNode>, ghost c: Tree<RbNode>)
    returns (tnode: RbNode)
    requires IsRed(b) && Is(nil, e, Node(Node(l, x, true, Node(b, y, false, d)), e, e.red, c))
    requires Distinct(Node(Node(l, x, true, Node(b, y, false, d)), e, e.red, c))
    modifies {e, x, y, b.elem}
    ensures Is(nil, tnode, Node(Node(l, x, true, Blacken(b)), y, false, Node(d, e, old(e.red), c)))
  {
    DistinctBlacken(e, x, y, l, b, d, c);
    ghost var top := Node(Blacken(b), y, false, Node(d, e, e.red, c));
    ElemsAllocated(l);
    ElemsAllocated(top);
    var leftrightleft := e.left.right.left;
    IsParts(nil, e, Node(l, x, true, Node(b, y, false, d)), c);
    IsParts(nil, x, l, Node(b, y, false, d));
    IsParts(nil, y, b, d);
    hide Distinct, Elems, Blacken;
    BlackenInPlace(nil, e, leftrightleft, x, y, l, b, d, c);
    var unode := RotateRightTree(nil, e, Node(Node(l, x, true, Node(Blacken(b), y, false, d)), e, e.red, c));
    IsParts(nil, x, l, Node(Node(Blacken(b), y, false, d), e, e.red, c));
    hide Is;
    tnode := RotateRightTree(nil, e, Node(Node(Blacken(b), y, false, d), e, e.red, c));
    tnode := LinkRight(nil, unode, tnode, l, top);
  }

  /** The path went right at the black node `e` whose left child is red. */
  method FixRemoveRightUnderRed(nil: RbNode, e: RbNode, ghost c: Tree<RbNode>, ghost other: Tree<RbNode>)
    returns (tnode: RbNode, ghost t: Tree<RbNode>)
    requires Is(nil, e, Join(e, e.red, false, c, other)) && !nil.red
    requires Sibling(e.red, false, other) && Distinct(Join(e, e.red, false, c, other)) && IsRed(other)
    modifies Elems(Join(e, e.red, false, c, other))
    ensures (t, true) == RemoveStepRight(e, old(e.red), c, other)
    ensures Is(nil, tnode, t)
  {
    t := RemoveStepRight(e, e.red, c, other).0;
    ElemsAllocated(Join(e, e.red, false, c, other));
    var left := e.left;
    var leftright := left.right;
    var leftrightleft := leftright.left;
    ghost var y := other.right;
    assert Distinct(y);
    assert Is(nil, leftright, y) && Is(nil, leftrightleft, y.left);
    if leftrightleft.red {
      tnode := FixRemoveDouble(nil, e, other.elem, y.elem, other.left, y.left, y.right, c);
    } else {
      leftright.red := true;
      assert Is(nil, leftright, y.(red := true));
      tnode := RotateRight(e);
      tnode.red := false;
      assert Is(nil, e, Node(y.(red := true), e, false, c));
    }
  }

  /** The path went right at `e` whose left child is black with a red left child, which makes up the shortage. */
  method FixRemoveRightLend(nil: RbNode, e: RbNode, ghost c: Tree<RbNode>, ghost other: Tree<RbNode>)
    returns (tnode: RbNode, ghost t: Tree<RbNode>)
    requires Is(nil, e, Join(e, e.red, false, c, other)) && !nil.red
    requires Distinct(Join(e, e.red, false, c, other)) && other.Node? && !other.red && IsRed(other.left)
    modifies Elems(Join(e, e.red, false, c, other))
    ensures (t, true) == RemoveStepRight(e, old(e.red), c, other)
    ensures Is(nil, tnode, t)
  {
    t := RemoveStepRight(e, e.red, c, other).0;
    ElemsAllocated(Join(e, e.red, false, c, other));
    var left := e.left;
    var leftleft := left.left;
    assert Is(nil, left, other) && Is(nil, leftleft, other.left) && Distinct(other.left);
    if e.red {
      e.red := false;
      left.red := true;
    }
    leftleft.red := false;
    assert Is(nil, leftleft, Blacken(other.left));
    tnode := RotateRight(e);
    assert Is(nil, tnode.left, Blacken(other.left));
    assert Is(nil, e, Node(other.right, e, false, c));
  }

  /** One turn of the removal unwind loop, the path having gone right at `e`. */
  method FixRemoveRight(nil: RbNode, e: RbNode, child: RbNode, ghost c: Tree<RbNode>, ghost other: Tree<RbNode>)
    returns (tnode: RbNode, verdict: Verdict, ghost t: Tree<RbNode>)
    requires Is(nil, child, c) && Is(nil, e.left, other) && e != nil && !nil.red
    requires Sibling(e.red, false, other) && Distinct(Join(e, e.red, false, c, other))
    modifies Elems(Join(e, e.red, false, c, other))
    ensures (t, verdict != Ascend) == RemoveStepRight(e, old(e.red), c, other)
    ensures verdict == Stop ==> tnode == e
    ensures Is(nil, tnode, t)
  {
    t := RemoveStepRight(e, e.red, c, other).0;
    ElemsAllocated(Join(e, e.red, false, c, other));
    e.right := child;
    var left := e.left;
    if left.red {
      tnode, t := FixRemoveRightUnderRed(nil, e, c, other);
      verdict := Relink;
    } else if left.left.red {
      tnode, t := FixRemoveRightLend(nil, e, c, other);
      verdict := Relink;
    } else {
      left.red := true;
      assert Is(nil, left, other.(red := true));
      tnode := e;
      if e.red {
        e.red := false;
        verdict := Stop;
      } else {
        verdict := Ascend;
      }
      assert Is(nil, left, other.(red := true));
    }
  }

  /** One turn of the removal unwind loop, the context above untouched. */
  method FixRemove(nil: RbNode, ghost root: RbNode, entry: PathEntry, child: RbNode, ghost f: Context<RbNode>,
                   ghost hole: RbNode, ghost t: Tree<RbNode>)
    returns (tnode: RbNode, verdict: Verdict, ghost t': Tree<RbNode>)
    requires f.Frame? && entry.node == f.elem && (entry.cmp < 0 <==> f.goLeft)
    requires CtxIs(nil, root, f, hole) && Is(nil, child, t) && !nil.red && Sibling(f.red, f.goLeft, f.other)
    requires CtxDistinct(f) && Distinct(t) && CtxElems(f) !! Elems(t)
    modifies Elems(t) + {f.elem} + Elems(f.other)
    ensures (t', verdict != Ascend) == RemoveStep(f.elem, f.red, f.goLeft, t, f.other)
    ensures verdict == Stop ==> tnode == f.elem
    ensures Is(nil, tnode, t') && CtxIs(nil, root, f.up, f.elem)
  {
    CtxAllocated(f.up);
    if entry.cmp < 0 {
      tnode, verdict, t' := FixRemoveLeft(nil, entry.node, child, t, f.other);
    } else {
      tnode, verdict, t' := FixRemoveRight(nil, entry.node, child, t, f.other);
    }
  }

  // ---- The tree

  /** A subtree rebuilt in the same order has the same nodes, each once. */
  lemma SameOrder(lo: seq<RbNode>, t: Tree<RbNode>, t': Tree<RbNode>, hi: seq<RbNode>)
    requires Inorder(t) == Inorder(t') && Sorted(lo + Inorder(t) + hi)
    ensures Elems(t) == Elems(t') && Distinct(t')
  {
    ElemsInorder(t);
    ElemsInorder(t');
    var s := lo + Inorder(t) + hi;
    assert forall i :: 0 <= i < |Inorder(t)| ==> s[|lo| + i] == Inorder(t)[i];
    SortedDistinct(t');
  }

  class RbTree {
    const nil: RbNode
    var root: RbNode
    ghost var shape: Tree<RbNode>

    ghost predicate Valid()
      reads this, nil, Elems(shape)
    {
      && Is(nil, root, shape) && nil !in Elems(shape) && !nil.red
      && Llrb(shape) && !IsRed(shape) && Sorted(Inorder(shape))
    }

    /** The nodes of the tree in increasing key order. */
    ghost function Nodes(): seq<RbNode>
      reads this
    {
      Inorder(shape)
    }

    constructor ()
      ensures Valid() && Nodes() == [] && fresh(nil)
    {
      nil := new RbNode(0);
      root := nil;
      shape := Nil;
    }

    /** The node equal to `key`, if there is one. */
    method Search(key: RbNode) returns (ret: RbNode?)
      requires Valid()
      ensures ret != null ==> ret in Nodes() && ret.key == key.key
      ensures ret == null ==> forall x :: x in Nodes() ==> x.key != key.key
    {
      var n := root;
      ghost var lo, cur, hi := [], shape, [];
      while n != nil && Compare(key, n) != 0
        invariant Is(nil, n, cur) && Straddles(Nodes(), lo, cur, hi, key.key)
        decreases cur
      {
        StepAside(Nodes(), lo, cur, hi, key.key);
        if Compare(key, n) < 0 {
          n, cur, hi := n.left, cur.left, [n] + Inorder(cur.right) + hi;
        } else {
          n, cur, lo := n.right, cur.right, lo + Inorder(cur.left) + [n];
        }
      }
      if n == nil {
        Nearest(Nodes(), lo, hi, key.key);
        return null;
      }
      assert n in Inorder(cur);
      return n;
    }

    /** The least node that is not below `key`. */
    method NSearch(key: RbNode) returns (ret: RbNode?)
      requires Valid()
      ensures ret != null ==> ret in Nodes() && key.key <= ret.key
      ensures ret != null ==> forall x :: x in Nodes() && key.key <= x.key ==> ret.key <= x.key
      ensures ret == null ==> forall x :: x in Nodes() ==> x.key < key.key
    {
      var best, tnode := nil, root;
      ghost var lo, cur, hi := [], shape, [];
      while tnode != nil
        invariant Is(nil, tnode, cur) && Straddles(Nodes(), lo, cur, hi, key.key)
        invariant best == if hi == [] then nil else hi[0]
        decreases cur
      {
        StepAside(Nodes(), lo, cur, hi, key.key);
        var cmp := Compare(key, tnode);
        if cmp < 0 {
          best, tnode, cur, hi := tnode, tnode.left, cur.left, [tnode] + Inorder(cur.right) + hi;
        } else if cmp > 0 {
          tnode, cur, lo := tnode.right, cur.right, lo + Inorder(cur.left) + [tnode];
        } else {
          assert tnode in Inorder(cur);
          return tnode;
        }
      }
      Nearest(Nodes(), lo, hi, key.key);
      ElemsInorder(shape);
      return if best == nil then null else best;
    }

    /** The greatest node that is not above `key`. */
    method PSearch(key: RbNode) returns (ret: RbNode?)
      requires Valid()
      ensures ret != null ==> ret in Nodes() && ret.key <= key.key
      ensures ret != null ==> forall x :: x in Nodes() && x.key <= key.key ==> x.key <= ret.key
      ensures ret == null ==> forall x :: x in Nodes() ==> key.key < x.key
    {
      var best, tnode := nil, root;
      ghost var lo, cur, hi := [], shape, [];
      while tnode != nil
        invariant Is(nil, tnode, cur) && Straddles(Nodes(), lo, cur, hi, key.key)
        invariant best == if lo == [] then nil else lo[|lo| - 1]
        decreases cur
      {
        StepAside(Nodes(), lo, cur, hi, key.key);
        var cmp := Compare(key, tnode);
        if cmp < 0 {
          tnode, cur, hi := tnode.left, cur.left, [tnode] + Inorder(cur.right) + hi;
        } else if cmp > 0 {
          best, tnode, cur, lo := tnode, tnode.right, cur.right, lo + Inorder(cur.left) + [tnode];
        } else {
          assert tnode in Inorder(cur);
          return tnode;
        }
      }
      Nearest(Nodes(), lo, hi, key.key);
      ElemsInorder(shape);
      return if best == nil then null else best;
    }

    /** The least node of a non-empty subtree. */
    method First(root: RbNode, ghost t: Tree<RbNode>) returns (ret: RbNode)
      requires Is(nil, root, t) && t.Node?
      ensures Inorder(t) != [] && ret == Inorder(t)[0]
    {
      ret := root;
      ghost var cur, hi := t, [];
      while ret.left != nil
        invariant Is(nil, ret, cur) && cur.Node? && Inorder(t) == Inorder(cur) + hi
        decreases cur
      {
        hi := [ret] + Inorder(cur.right) + hi;
        ret, cur := ret.left, cur.left;
      }
      assert Inorder(cur) == [ret] + Inorder(cur.right);
    }

    /** The search from the root for `node`, with the last node at which it turned left. */
    method LastAbove(node: RbNode) returns (found: RbNode, ghost lo: seq<RbNode>, ghost cur: Tree<RbNode>, ghost hi: seq<RbNode>)
      requires Valid() && node in Nodes()
      ensures Nodes() == lo + Inorder(cur) + hi && cur.Node? && cur.elem == node && Is(nil, node, cur)
      ensures found == if hi == [] then nil else hi[0]
    {
      hide Is, Inorder, Sorted, Llrb, AllBelow, AllAbove;
      var tnode;
      found, tnode, lo, cur, hi := nil, root, [], shape, [];
      StraddlesAll(shape, node.key);
      while true
        invariant Is(nil, tnode, cur) && Straddles(Nodes(), lo, cur, hi, node.key) && node in Inorder(cur)
        invariant found == if hi == [] then nil else hi[0]
        decreases cur
      {
        InSide(lo, cur, hi, node);
        IsStep(nil, tnode, cur);
        StepAside(Nodes(), lo, cur, hi, node.key);
        var cmp := Compare(node, tnode);
        if cmp < 0 {
          found, tnode, cur, hi := tnode, tnode.left, cur.left, [tnode] + Inorder(cur.right) + hi;
        } else if cmp > 0 {
          tnode, cur, lo := tnode.right, cur.right, lo + Inorder(cur.left) + [tnode];
        } else {
          return;
        }
      }
    }

    /** The node after `node` in key order. */
    method Next(node: RbNode) returns (ret: RbNode?)
      requires Valid() && node in Nodes()
      ensures forall i :: 0 <= i < |Nodes()| && Nodes()[i] == node ==>
        ret == if i + 1 < |Nodes()| then Nodes()[i + 1] else null
    {
      hide Is, Inorder, Sorted, Llrb;
      ghost var lo, cur, hi := Locate(nil, root, shape, node);
      IsStep(nil, node, cur);
      var found: RbNode;
      if node.right != nil {
        RightNode(nil, node, cur);
        found := First(node.right, cur.right);
      } else {
        found, lo, cur, hi := LastAbove(node);
        IsStep(nil, node, cur);
        RightNil(nil, node, cur, hi);
      }
      AfterElem(Nodes(), lo, cur, hi);
      ElemsInorder(shape);
      ret := if found == nil then null else found;
    }

    /** The wind loop of an insertion: down to the nil where `node` belongs. */
    method WindToNil(node: RbNode) returns (path: seq<PathEntry>, k: nat, ghost ctx: Context<RbNode>)
      requires Valid() && |Nodes()| < 0x8000_0000_0000_0000
      requires forall x :: x in Nodes() ==> x.key != node.key
      ensures |path| == PATH_LEN && k <= 126 && Depth(ctx) == k && PathIs(path[..k], ctx)
      ensures At(nil, root, shape, ctx, nil, Nil)
      ensures Splits(ctx, node.key)
    {
      hide At, Is, CtxIs, Plug, Inorder, CtxDistinct, Distinct, PathIs, Sorted, Llrb, Splits;
      path := seq(PATH_LEN, _ => PathEntry(nil, 0));
      k, ctx := 0, Top;
      ghost var cur := shape;
      StartAt(nil, root, shape, node.key);
      path := path[0 := PathEntry(root, 0)];
      while path[k].node != nil
        invariant k <= 126 && Depth(ctx) == k && |path| == PATH_LEN && PathIs(path[..k], ctx)
        invariant At(nil, root, shape, ctx, path[k].node, cur)
        invariant Splits(ctx, node.key)
        decreases cur
      {
        var e := path[k].node;
        var cmp := Compare(node, e);
        Descend(nil, root, shape, ctx, e, cur);
        DescendOrder(shape, ctx, cur, node.key);
        PathFits(ctx, cur);
        NodesOf(shape, ctx, cur);
        if cmp < 0 {
          StepExtends(path, k, ctx, cmp, e.left, cur.red, true, cur.right);
          path := Step(path, k, cmp, e.left);
          ctx, cur := Frame(ctx, e, cur.red, true, cur.right), cur.left;
        } else {
          StepExtends(path, k, ctx, cmp, e.right, cur.red, false, cur.left);
          path := Step(path, k, cmp, e.right);
          ctx, cur := Frame(ctx, e, cur.red, false, cur.left), cur.right;
        }
        k := k + 1;
      }
      EndAt(nil, root, shape, ctx, cur);
    }

    /** Inserts a node with a fresh key; `at` is its rank. */
    method Insert(node: RbNode) returns (ghost at: nat)
      requires Valid() && |Nodes()| < 0x8000_0000_0000_0000
      requires node != nil && forall x :: x in Nodes() ==> x.key != node.key
      modifies this, Elems(shape), node
      ensures Valid() && at <= |old(Nodes())|
      ensures Nodes() == old(Nodes())[..at] + [node] + old(Nodes())[at..]
    {
      ElemsInorder(shape);
      ElemsAllocated(shape);
      node.left := nil;
      node.right := nil;
      node.red := true;
      var path, k, ctx := WindToNil(node);
      InsertTarget(shape, ctx, node);
      at := |Before(ctx)|;
      path := path[k := PathEntry(node, 0)];
      UnwindInsert(path, k, ctx, node);
    }

    /** One turn of the loop below. */
    method UnwindInsertOnce(path: seq<PathEntry>, k: nat, ghost f: Context<RbNode>, ghost hole: RbNode, ghost was: Tree<RbNode>,
                            ghost t: Tree<RbNode>, ghost target: seq<RbNode>)
      returns (cnode: RbNode, done: bool, ghost t': Tree<RbNode>)
      requires 0 < k <= 126 && |path| == PATH_LEN && Depth(f) == k && PathIs(path[..k], f)
      requires CtxIs(nil, root, f, hole) && CtxDistinct(f) && CtxElems(f) !! Elems(t) && nil !in CtxElems(f) + Elems(t) && !nil.red
      requires Is(nil, path[k].node, t) && Distinct(t) && Grown(was, t) && Plug(f, was) == shape && t.Node?
      requires Before(f) + Inorder(t) + After(f) == target && Sorted(target) && Llrb(shape) && !IsRed(shape)
      modifies this`shape, Elems(t) + CtxElems(f)
      ensures !nil.red && f.Frame? && (done ==> Valid() && Nodes() == target)
      ensures !done ==> shape == old(shape) && t'.Node? && CtxDistinct(f.up) && CtxElems(f.up) !! Elems(t') && Distinct(t')
      ensures !done ==> CtxElems(f.up) + Elems(t') == CtxElems(f) + Elems(t)
      ensures !done ==> CtxIs(nil, root, f.up, f.elem) && Is(nil, cnode, t') && PathIs(path[..k][..k - 1], f.up)
      ensures !done ==> Grown(Join(f.elem, f.red, f.goLeft, was, f.other), t') && Plug(f.up, Join(f.elem, f.red, f.goLeft, was, f.other)) == shape
      ensures !done ==> Before(f.up) + Inorder(t') + After(f.up) == target
    {
      hide InsertStep, Llrb, Grown, Inorder, Plug, CtxDistinct, PathIs, Sorted, Distinct, CtxIs, Is;
      PathPop(path[..k], f);
      assert path[..k][k - 1] == path[k - 1];
      cnode, done, t' := FixInsert(nil, root, path[k - 1], path[k].node, f, hole, t);
      GrowStep(f, was, t, shape, target);
      if done {
        GrowDone(f, was, t, shape, target);
        Reshape(f.up, f.elem, t');
      }
    }

    /** The unwind loop of an insertion whose new node stands at the end of the path. */
    method UnwindInsert(path0: seq<PathEntry>, k0: nat, ghost ctx0: Context<RbNode>, node: RbNode)
      requires k0 <= 126 && |path0| == PATH_LEN && Depth(ctx0) == k0 && PathIs(path0[..k0], ctx0) && path0[k0].node == node
      requires CtxIs(nil, root, ctx0, nil) && CtxDistinct(ctx0) && Plug(ctx0, Nil) == shape
      requires CtxElems(ctx0) == Elems(shape) && node !in Elems(shape) && nil !in Elems(shape) && node != nil && !nil.red
      requires node.left == nil && node.right == nil && node.red
      requires Llrb(shape) && !IsRed(shape) && Sorted(Before(ctx0) + [node] + After(ctx0))
      modifies this, Elems(shape), node
      ensures Valid() && Nodes() == Before(ctx0) + [node] + After(ctx0)
    {
      hide InsertStep, Llrb, Grown, Inorder, Plug, CtxDistinct, PathIs, Sorted, Distinct, CtxIs, Is;
      GrowStart(nil, node);
      var path, k := path0, k0;
      ghost var ctx, target := ctx0, Before(ctx0) + [node] + After(ctx0);
      ghost var t, was, hole := Node(Nil, node, true, Nil), Nil, nil;
      while k > 0
        invariant k <= 126 && |path| == PATH_LEN && Depth(ctx) == k && PathIs(path[..k], ctx)
        invariant CtxIs(nil, root, ctx, hole) && CtxDistinct(ctx) && CtxElems(ctx) !! Elems(t)
        invariant Is(nil, path[k].node, t) && Distinct(t) && Grown(was, t) && Plug(ctx, was) == shape
        invariant CtxElems(ctx) + Elems(t) == Elems(shape) + {node}
        invariant Before(ctx) + Inorder(t) + After(ctx) == target
        invariant shape == old(shape) && !nil.red && t.Node?
        decreases k
      {
        ghost var f := ctx;
        var cnode, done;
        ghost var t';
        cnode, done, t' := UnwindInsertOnce(path, k, f, hole, was, t, target);
        if done {
          return;
        }
        ghost var above := path[..k];
        k := k - 1;
        path := path[k := path[k].(node := cnode)];
        assert path[..k] == above[..k];
        ctx, was, t, hole := f.up, Join(f.elem, f.red, f.goLeft, was, f.other), t', f.elem;
      }
      GrowTop(was, t, shape);
      RootIs(nil, path[0].node, t);
      assert ctx == Top && Inorder(t) == target;
      SetBlackRoot(path[0].node, t);
      assert Elems(shape) == Elems(t) && Inorder(shape) == target;
    }

    /** The wind loop of a removal, down to the node itself. */
    method WindToNode(node: RbNode) returns (path: seq<PathEntry>, k: nat, ghost ctx: Context<RbNode>, ghost sub: Tree<RbNode>)
      requires Valid() && |Nodes()| < 0x8000_0000_0000_0000 && node in Nodes()
      ensures |path| == PATH_LEN && k <= 125 && Depth(ctx) == k && PathIs(path[..k], ctx) && path[k] == PathEntry(node, 1)
      ensures At(nil, root, shape, ctx, node, sub) && sub.Node? && sub.elem == node
    {
      hide At, Is, CtxIs, Plug, Inorder, CtxDistinct, Distinct, PathIs, Sorted, Llrb;
      path := seq(PATH_LEN, _ => PathEntry(nil, 0));
      k, ctx, sub := 0, Top, shape;
      StartAt(nil, root, shape, 0);
      path := path[0 := PathEntry(root, 0)];
      while path[k].node != nil
        invariant k <= 126 && Depth(ctx) == k && |path| == PATH_LEN && PathIs(path[..k], ctx)
        invariant At(nil, root, shape, ctx, path[k].node, sub)
        invariant node in Inorder(sub)
        decreases sub
      {
        var e := path[k].node;
        var cmp := Compare(node, e);
        Descend(nil, root, shape, ctx, e, sub);
        DescendToNode(shape, ctx, sub, node);
        PathFits(ctx, sub);
        if cmp < 0 {
          StepExtends(path, k, ctx, cmp, e.left, sub.red, true, sub.right);
          path := Step(path, k, cmp, e.left);
          ctx, sub := Frame(ctx, e, sub.red, true, sub.right), sub.left;
        } else if cmp > 0 {
          StepExtends(path, k, ctx, cmp, e.right, sub.red, false, sub.left);
          path := Step(path, k, cmp, e.right);
          ctx, sub := Frame(ctx, e, sub.red, false, sub.left), sub.right;
        } else {
          path := path[k := PathEntry(e, 1)];
          return;
        }
        k := k + 1;
      }
      EndAt(nil, root, shape, ctx, sub);
      assert false;
    }

    /** The rest of that loop: leftwards below the right child of the node. */
    method WindToSuccessor(path0: seq<PathEntry>, k: nat, node: RbNode, ghost ctx: Context<RbNode>, ghost sub: Tree<RbNode>)
      returns (path: seq<PathEntry>, m: nat, ghost low: Context<RbNode>)
      requires Llrb(shape) && !IsRed(shape) && |Nodes()| < 0x8000_0000_0000_0000
      requires |path0| == PATH_LEN && k <= 125 && Depth(ctx) == k && PathIs(path0[..k], ctx) && path0[k] == PathEntry(node, 1)
      requires At(nil, root, shape, ctx, node, sub) && sub.Node? && sub.elem == node
      ensures |path| == PATH_LEN && k < m <= 126 && m == k + 1 + Depth(low) && path[k].node == node
      ensures PathIs(path[..m], Compose(Frame(ctx, node, sub.red, false, sub.left), low))
      ensures At(nil, node.right, sub.right, low, nil, Nil) && Before(low) == []
    {
      hide At, Is, CtxIs, Plug, Inorder, CtxDistinct, Distinct, Llrb;
      low := Top;
      ghost var cur, outer := sub.right, Frame(ctx, node, sub.red, false, sub.left);
      BelowAt(nil, root, shape, ctx, node, sub);
      StepExtends(path0, k, ctx, 1, node.right, sub.red, false, sub.left);
      path, m := Step(path0, k, 1, node.right), k + 1;
      while path[m].node != nil
        invariant m == k + 1 + Depth(low) <= 126 && |path| == PATH_LEN && path[k].node == node
        invariant PathIs(path[..m], Compose(outer, low))
        invariant At(nil, node.right, sub.right, low, path[m].node, cur) && Before(low) == []
        decreases cur
      {
        hide PathIs;
        var e := path[m].node;
        Descend(nil, node.right, sub.right, low, e, cur);
        SuccessorFits(shape, ctx, sub, low, cur);
        StepExtends(path, m, Compose(outer, low), -1, e.left, cur.red, true, cur.right);
        path := Step(path, m, -1, e.left);
        low, cur := Frame(low, e, cur.red, true, cur.right), cur.left;
        m := m + 1;
      }
      EndAt(nil, node.right, sub.right, low, cur);
    }

    /** The parent entry of the path, or the root, gets a new child. */
    method SetChild(path: seq<PathEntry>, k: nat, child: RbNode, ghost ctx: Context<RbNode>, ghost hole: RbNode)
      requires k <= |path| && PathIs(path[..k], ctx) && CtxIs(nil, root, ctx, hole) && CtxDistinct(ctx)
      modifies this`root, Lowest(ctx)
      ensures CtxIs(nil, root, ctx, child)
    {
      CtxAllocated(ctx);
      if k == 0 {
        root := child;
      } else {
        PathPop(path[..k], ctx);
        if path[k - 1].cmp < 0 {
          path[k - 1].node.left := child;
        } else {
          path[k - 1].node.right := child;
        }
      }
    }

    /** The same for a child whose subtree is known. */
    method ReplaceChild(path: seq<PathEntry>, k: nat, child: RbNode, ghost ctx: Context<RbNode>, ghost hole: RbNode,
                        ghost t: Tree<RbNode>)
      requires k <= |path| && PathIs(path[..k], ctx) && CtxIs(nil, root, ctx, hole) && CtxDistinct(ctx)
      requires Is(nil, child, t) && CtxElems(ctx) !! Elems(t)
      modifies this`root, Lowest(ctx)
      ensures CtxIs(nil, root, ctx, child) && Is(nil, child, t)
    {
      ElemsAllocated(t);
      assert Lowest(ctx) <= CtxElems(ctx);
      SetChild(path, k, child, ctx, hole);
    }

    /** A node with a right child exchanges its place and colour with its successor. */
    method SwapWithSuccessor(path: seq<PathEntry>, k: nat, node: RbNode, succ: RbNode, ghost ctx: Context<RbNode>,
                             ghost sub: Tree<RbNode>, ghost low: Context<RbNode>)
      requires k <= |path| && PathIs(path[..k], ctx)
      requires sub.Node? && sub.elem == node && low.Frame? && low.elem == succ && low.goLeft && low.other.Nil?
      requires CtxIs(nil, root, ctx, node) && Is(nil, node, sub) && CtxIs(nil, node.right, low, nil)
      requires CtxDistinct(ctx) && Distinct(sub) && CtxElems(ctx) !! Elems(sub)
      requires CtxDistinct(low) && CtxElems(low) == Elems(sub.right)
      modifies this`root, Lowest(ctx), node, succ
      ensures node.red == low.red
      ensures CtxIs(nil, root, Swapped(ctx, sub, low), succ)
    {
      assert node.red == sub.red && succ != nil && succ !in CtxElems(low.up) && CtxIs(nil, node.right, low.up, succ);
      CtxAllocated(ctx);
      assert {node, succ} !! Elems(sub.left) + CtxElems(low.up) && {node, succ} !! CtxElems(ctx);
      SwapLinks(nil, node, succ, sub.left, low.up);
      ElemsAllocated(sub.left);
      CtxAllocated(low.up);
      assert Lowest(ctx) <= CtxElems(ctx) && Lowest(ctx) !! Elems(sub.left) && Lowest(ctx) !! CtxElems(low.up);
      SetChild(path, k, succ, ctx, node);
      assert CtxIs(nil, root, Frame(ctx, succ, sub.red, false, sub.left), succ.right);
      ComposeIs(nil, root, Frame(ctx, succ, sub.red, false, sub.left), succ.right, low.up, succ);
    }

    /** Removes a node of the tree; `at` was its rank. */
    method Remove(node: RbNode) returns (ghost at: nat)
      requires Valid() && |Nodes()| < 0x8000_0000_0000_0000 && node in Nodes()
      modifies this, Elems(shape)
      ensures Valid() && at < |old(Nodes())| && old(Nodes())[at] == node
      ensures Nodes() == old(Nodes())[..at] + old(Nodes())[at + 1..]
    {
      hide Llrb, Sorted, Is, CtxIs, PathIs, Plug, Inorder, CtxDistinct, Distinct;
      ElemsAllocated(shape);
      var path, k, ctx, sub := WindToNode(node);
      at := |Before(ctx) + Inorder(sub.left)|;
      RemoveRank(shape, ctx, sub);
      RemoveFound(path, k, node, ctx, sub);
    }

    /** The node has been found: it goes itself, or exchanges its place with its successor first. */
    method RemoveFound(path0: seq<PathEntry>, k: nat, node: RbNode, ghost ctx: Context<RbNode>, ghost sub: Tree<RbNode>)
      requires Valid() && |Nodes()| < 0x8000_0000_0000_0000
      requires |path0| == PATH_LEN && k <= 125 && Depth(ctx) == k && PathIs(path0[..k], ctx) && path0[k] == PathEntry(node, 1)
      requires At(nil, root, shape, ctx, node, sub) && sub.Node? && sub.elem == node
      modifies this, Elems(shape)
      ensures Valid() && Nodes() == Before(ctx) + Inorder(sub.left) + Inorder(sub.right) + After(ctx)
    {
      hide Llrb, Sorted, Is, CtxIs, PathIs, Plug, Inorder, CtxDistinct, Distinct;
      CtxAllocated(ctx);
      ElemsAllocated(sub);
      var path, m;
      ghost var low;
      path, m, low := WindToSuccessor(path0, k, node, ctx, sub);
      if m - 1 != k {
        RemoveInner(path, k, m - 1, node, ctx, sub, low);
      } else {
        NoSuccessor(path, k, ctx, sub, low);
        RemoveOuter(path, k, node, ctx, sub);
        assert Before(ctx) + Inorder(sub.left) + [] + After(ctx) == Before(ctx) + Inorder(sub.left) + After(ctx);
      }
    }

    /** The node has no right child: its red left child takes its place, or it is a leaf itself. */
    method RemoveOuter(path: seq<PathEntry>, k: nat, node: RbNode, ghost ctx: Context<RbNode>, ghost sub: Tree<RbNode>)
      requires Valid() && At(nil, root, shape, ctx, node, sub) && sub.Node? && sub.right.Nil?
      requires k <= 125 && |path| == PATH_LEN && Depth(ctx) == k && PathIs(path[..k], ctx) && path[k].node == node
      modifies this, Elems(shape)
      ensures Valid() && Nodes() == Before(ctx) + Inorder(sub.left) + After(ctx)
    {
      SortedWithout(shape, ctx, sub);
      assert Before(ctx) + Inorder(sub.left) + Inorder(sub.right) + After(ctx) == Before(ctx) + Inorder(sub.left) + After(ctx);
      var left := node.left;
      assert Is(nil, node, sub) && Is(nil, left, sub.left);
      if left != nil {
        SpliceOut(path, k, node, ctx, sub);
      } else if k == 0 {
        assert ctx == Top && Inorder(sub.left) == [];
        SetRoot(nil, Nil);
      } else {
        assert sub == Leaf(node, sub.red) && Inorder(sub.left) == [];
        assert Before(ctx) + Inorder(sub.left) + After(ctx) == Before(ctx) + After(ctx);
        PruneLeaf(path, k, node, ctx, node, sub.red);
      }
    }

    /** A black node without a right child gives its place to its red left child, blackened. */
    method SpliceOut(path: seq<PathEntry>, k: nat, node: RbNode, ghost ctx: Context<RbNode>, ghost sub: Tree<RbNode>)
      requires At(nil, root, shape, ctx, node, sub) && sub.Node? && sub.right.Nil? && sub.left.Node?
      requires k <= |path| && Depth(ctx) == k && PathIs(path[..k], ctx)
      requires Llrb(shape) && !IsRed(shape) && Sorted(Before(ctx) + Inorder(sub.left) + After(ctx))
      requires nil !in Elems(shape) && !nil.red
      modifies this, Elems(shape)
      ensures Valid() && Nodes() == Before(ctx) + Inorder(sub.left) + After(ctx)
    {
      PlugInherits(ctx, sub);
      NoRightChild(sub);
      Spliced(shape, ctx, sub);
      var left := node.left;
      assert Is(nil, node, sub) && Is(nil, left, sub.left) && Distinct(sub.left);
      hide Llrb, Sorted, PathIs, Plug, Inorder, Settled;
      ElemsAllocated(sub.left);
      CtxAllocated(ctx);
      assert !node.red && left.red;
      left.red := false;
      assert Is(nil, left, Blacken(sub.left));
      ReplaceChild(path, k, left, ctx, node, Blacken(sub.left));
      Reshape(ctx, left, Blacken(sub.left));
    }

    /** The node has a successor below it, which takes its place. */
    method RemoveInner(path0: seq<PathEntry>, k: nat, m: nat, node: RbNode, ghost ctx: Context<RbNode>,
                       ghost sub: Tree<RbNode>, ghost low: Context<RbNode>)
      requires Valid() && At(nil, root, shape, ctx, node, sub) && sub.Node? && low.Frame?
      requires k < m <= 125 && |path0| == PATH_LEN && path0[k].node == node && Depth(ctx) == k && m == k + Depth(low)
      requires PathIs(path0[..m + 1], Compose(Frame(ctx, node, sub.red, false, sub.left), low))
      requires At(nil, node.right, sub.right, low, nil, Nil) && Before(low) == []
      modifies this, Elems(shape)
      ensures Valid() && Nodes() == Before(ctx) + Inorder(sub.left) + Inorder(sub.right) + After(ctx)
    {
      hide Llrb, Sorted, PathIs, Plug, Inorder, CtxDistinct, Distinct, At, Is, CtxIs, Elems, CtxElems, Lowest, Before, After, Depth, Swapped;
      AtParts(nil, root, shape, ctx, node, sub);
      AtParts(nil, node.right, sub.right, low, nil, Nil);
      SuccessorIsLeaf(shape, ctx, sub, low);
      PathPop(path0[..m + 1], Compose(Frame(ctx, node, sub.red, false, sub.left), low));
      var succ := path0[m].node;
      var path := path0[k := path0[k].(node := succ)][m := path0[m].(node := node)];
      SwappedPath(path0, path, k, m, ctx, sub, low);
      SwappedElems(ctx, sub, low);
      SwappedWithin(shape, ctx, sub, low);
      SwapWithSuccessor(path, k, node, succ, ctx, sub, low);
      PruneLeaf(path, m, node, Swapped(ctx, sub, low), succ, low.red);
    }

    /** Prunes the leaf `node` at the end of the path, then unwinds until balance is restored. */
    method PruneLeaf(path: seq<PathEntry>, k: nat, node: RbNode, ghost ctx: Context<RbNode>, ghost hole: RbNode, ghost red: bool)
      requires 0 < k <= 126 && |path| == PATH_LEN && Depth(ctx) == k && PathIs(path[..k], ctx) && path[k].node == node
      requires CtxIs(nil, root, ctx, hole) && CtxDistinct(ctx) && node !in CtxElems(ctx) && node.red == red
      requires nil !in CtxElems(ctx) && !nil.red && ctx.Frame?
      requires Llrb(Plug(ctx, Leaf(node, red))) && !IsRed(Plug(ctx, Leaf(node, red))) && Sorted(Before(ctx) + After(ctx))
      modifies this, CtxElems(ctx)
      ensures Valid() && Nodes() == Before(ctx) + After(ctx)
    {
      PathPop(path[..k], ctx);
      if node.red {
        PruneRed(ctx, node);
        assert path[k - 1].cmp < 0;
        CtxAllocated(ctx.up);
        path[k - 1].node.left := nil;
        Reshape(ctx, nil, Nil);
      } else {
        UnwindRemove(path[k := path[k].(node := nil)], k, node, ctx, hole);
      }
    }

    /** One turn of the loop below. */
    method UnwindRemoveOnce(path: seq<PathEntry>, k: nat, ghost f: Context<RbNode>, ghost hole: RbNode, ghost was: Tree<RbNode>,
                            ghost t: Tree<RbNode>, ghost whole: Tree<RbNode>, ghost target: seq<RbNode>)
      returns (tnode: RbNode, done: bool, ghost t': Tree<RbNode>)
      requires 0 < k <= 126 && |path| == PATH_LEN && Depth(f) == k && PathIs(path[..k], f)
      requires CtxIs(nil, root, f, hole) && CtxDistinct(f) && CtxElems(f) !! Elems(t)
      requires Is(nil, path[k].node, t) && Distinct(t) && Lowered(was, t) && Plug(f, was) == whole
      requires Before(f) + Inorder(t) + After(f) == target && Sorted(target)
      requires Llrb(whole) && !IsRed(whole) && nil !in CtxElems(f) + Elems(t) && !nil.red
      modifies this, CtxElems(f) + Elems(t)
      ensures !nil.red && f.Frame? && (done ==> Valid() && Nodes() == target)
      ensures !done ==> CtxDistinct(f.up) && CtxElems(f.up) !! Elems(t') && Distinct(t')
      ensures !done ==> CtxElems(f.up) + Elems(t') == CtxElems(f) + Elems(t)
      ensures !done ==> CtxIs(nil, root, f.up, f.elem) && Is(nil, tnode, t')
      ensures !done ==> Lowered(Join(f.elem, f.red, f.goLeft, was, f.other), t') && PathIs(path[..k][..k - 1], f.up)
      ensures !done ==> Plug(f.up, Join(f.elem, f.red, f.goLeft, was, f.other)) == whole
      ensures !done ==> Before(f.up) + Inorder(t') + After(f.up) == target
    {
      hide Llrb, Inorder, Plug, CtxDistinct, PathIs, Sorted, Distinct, RemoveStep, RemoveStepLeft, RemoveStepRight,
        Lowered, Sibling, Is, CtxIs;
      PathPop(path[..k], f);
      ShrinkStep(f, was, t, whole, target);
      ShrinkSettled(f, was, t, whole, target);
      var verdict;
      tnode, verdict, t' := FixRemove(nil, root, path[k - 1], path[k].node, f, hole, t);
      assert path[..k - 1] == path[..k][..k - 1];
      if verdict == Relink {
        ReplaceChild(path, k - 1, tnode, f.up, f.elem, t');
      }
      done := verdict != Ascend;
      if done {
        Reshape(f.up, tnode, t');
      }
    }

    /** The unwind loop of a removal: the hole is one black level short. */
    method UnwindRemove(path0: seq<PathEntry>, k0: nat, ghost node: RbNode, ghost ctx0: Context<RbNode>, ghost hole0: RbNode)
      requires k0 <= 126 && |path0| == PATH_LEN && Depth(ctx0) == k0 && PathIs(path0[..k0], ctx0) && path0[k0].node == nil
      requires CtxIs(nil, root, ctx0, hole0) && CtxDistinct(ctx0)
      requires nil !in CtxElems(ctx0) && !nil.red
      requires Llrb(Plug(ctx0, Leaf(node, false))) && !IsRed(Plug(ctx0, Leaf(node, false)))
      requires Sorted(Before(ctx0) + After(ctx0))
      modifies this, CtxElems(ctx0)
      ensures Valid() && Nodes() == Before(ctx0) + After(ctx0)
    {
      hide Llrb, Inorder, Plug, CtxDistinct, PathIs, Sorted, Distinct, Lowered, CtxIs, Is;
      LowerStart(nil, node, ctx0);
      var path, k := path0, k0;
      ghost var ctx, target, whole := ctx0, Before(ctx0) + After(ctx0), Plug(ctx0, Leaf(node, false));
      ghost var t, was, hole := Nil, Leaf(node, false), hole0;
      while k > 0
        invariant k <= 126 && |path| == PATH_LEN && Depth(ctx) == k && PathIs(path[..k], ctx)
        invariant CtxIs(nil, root, ctx, hole) && CtxDistinct(ctx) && CtxElems(ctx) !! Elems(t)
        invariant Is(nil, path[k].node, t) && Distinct(t) && Lowered(was, t) && Plug(ctx, was) == whole
        invariant CtxElems(ctx) + Elems(t) == CtxElems(ctx0)
        invariant Before(ctx) + Inorder(t) + After(ctx) == target
        invariant !nil.red
        decreases k
      {
        ghost var f := ctx;
        var tnode, done;
        ghost var t';
        tnode, done, t' := UnwindRemoveOnce(path, k, f, hole, was, t, whole, target);
        if done {
          return;
        }
        ghost var above := path[..k];
        k := k - 1;
        path := path[k := path[k].(node := tnode)];
        assert path[..k] == above[..k];
        ctx, was, t, hole := f.up, Join(f.elem, f.red, f.goLeft, was, f.other), t', f.elem;
      }
      LowerTop(was, t, whole);
      assert ctx == Top && Inorder(t) == target;
      SetRoot(path[0].node, t);
    }

    method SetRoot(n: RbNode, ghost t: Tree<RbNode>)
      requires Is(nil, n, t) && Llrb(t) && !IsRed(t) && Sorted(Inorder(t)) && nil !in Elems(t) && !nil.red
      modifies this
      ensures Valid() && shape == t
    {
      root := n;
      shape := t;
    }

    /** Balance is restored below `hole`: the tree is the context around it. */
    ghost method Reshape(ctx: Context<RbNode>, hole: RbNode, t: Tree<RbNode>)
      requires CtxIs(nil, root, ctx, hole) && Is(nil, hole, t)
      requires nil !in Elems(Plug(ctx, t)) && !nil.red
      requires Llrb(Plug(ctx, t)) && !IsRed(Plug(ctx, t)) && Sorted(Inorder(Plug(ctx, t)))
      modifies this`shape
      ensures Valid() && shape == Plug(ctx, t)
    {
      PlugIs(nil, root, ctx, hole, t);
      shape := Plug(ctx, t);
    }

    method SetBlackRoot(n: RbNode, ghost t: Tree<RbNode>)
      requires Is(nil, n, t) && t.Node? && Distinct(t)
      modifies this, n
      ensures root == n && shape == Blacken(t) && Is(nil, root, shape)
    {
      ElemsAllocated(t);
      root := n;
      root.red := false;
      shape := Blacken(t);
    }
  }

  lemma InsertTarget(shape: Tree<RbNode>, ctx: Context<RbNode>, node: RbNode)
    requires Plug(ctx, Nil) == shape && Sorted(Inorder(shape)) && Splits(ctx, node.key)
    ensures Sorted(Before(ctx) + [node] + After(ctx))
    ensures |Before(ctx)| <= |Inorder(shape)|
    ensures Inorder(shape)[..|Before(ctx)|] == Before(ctx) && Inorder(shape)[|Before(ctx)|..] == After(ctx)
  {
    PlugInorder(ctx, Nil);
    assert Inorder(shape) == Before(ctx) + After(ctx);
    SortedInsert(Before(ctx), node, After(ctx));
  }

  /** The successor takes the links and the colour of the node, the node the successor's colour. */
  method SwapLinks(nil: RbNode, node: RbNode, succ: RbNode, ghost l: Tree<RbNode>, ghost low: Context<RbNode>)
    requires Is(nil, node.left, l) && CtxIs(nil, node.right, low, succ)
    requires node != succ && {node, succ} !! Elems(l) + CtxElems(low)
    modifies node, succ
    ensures succ.red == old(node.red) && node.red == old(succ.red)
    ensures Is(nil, succ.left, l) && CtxIs(nil, succ.right, low, succ)
  {
    ElemsAllocated(l);
    CtxAllocated(low);
    var tred := succ.red;
    succ.red := node.red;
    succ.left := node.left;
    succ.right := node.right;
    node.red := tred;
  }

  /** The context of the pruned leaf once a node and its successor `low.elem` have been exchanged. */
  ghost function Swapped(ctx: Context<RbNode>, sub: Tree<RbNode>, low: Context<RbNode>): Context<RbNode>
    requires sub.Node? && low.Frame?
  {
    Compose(Frame(ctx, low.elem, sub.red, false, sub.left), low.up)
  }

  lemma SwappedElems(ctx: Context<RbNode>, sub: Tree<RbNode>, low: Context<RbNode>)
    requires sub.Node? && low.Frame? && low.other.Nil?
    requires CtxDistinct(ctx) && Distinct(sub) && CtxElems(ctx) !! Elems(sub)
    requires CtxDistinct(low) && CtxElems(low) == Elems(sub.right)
    ensures CtxDistinct(Swapped(ctx, sub, low))
    ensures CtxElems(Swapped(ctx, sub, low)) == CtxElems(ctx) + Elems(sub) - {sub.elem}
  {
    ComposeDistinct(Frame(ctx, low.elem, sub.red, false, sub.left), low.up);
  }

  lemma SwappedWithin(shape: Tree<RbNode>, ctx: Context<RbNode>, sub: Tree<RbNode>, low: Context<RbNode>)
    requires sub.Node? && low.Frame? && CtxElems(ctx) + Elems(sub) == Elems(shape) && CtxElems(low) == Elems(sub.right)
    requires CtxElems(Swapped(ctx, sub, low)) == CtxElems(ctx) + Elems(sub) - {sub.elem}
    ensures CtxElems(Swapped(ctx, sub, low)) <= Elems(shape) && sub.elem !in CtxElems(Swapped(ctx, sub, low))
    ensures Lowest(ctx) <= Elems(shape) && sub.elem in Elems(shape) && low.elem in Elems(shape) && Swapped(ctx, sub, low).Frame?
  {
    hide Swapped;
    SwappedFrame(ctx, sub, low);
  }

  lemma SwappedFrame(ctx: Context<RbNode>, sub: Tree<RbNode>, low: Context<RbNode>)
    requires sub.Node? && low.Frame?
    ensures Swapped(ctx, sub, low).Frame?
  {
  }

  lemma AtParts(nil: RbNode, root: RbNode, shape: Tree<RbNode>, ctx: Context<RbNode>, n: RbNode, cur: Tree<RbNode>)
    requires At(nil, root, shape, ctx, n, cur)
    ensures CtxIs(nil, root, ctx, n) && Is(nil, n, cur) && Plug(ctx, cur) == shape
    ensures CtxDistinct(ctx) && Distinct(cur) && CtxElems(ctx) !! Elems(cur) && CtxElems(ctx) + Elems(cur) == Elems(shape)
    ensures (cur.Node? ==> cur.elem == n) && (cur.Nil? ==> CtxElems(ctx) == Elems(shape))
  {
  }

  lemma {:induction false} PathDepth(p: seq<PathEntry>, c: Context<RbNode>)
    requires PathIs(p, c)
    ensures |p| == Depth(c)
  {
    if c.Frame? { PathDepth(p[..|p| - 1], c.up); }
  }

  /** Exchanging a node on the path. */
  lemma {:induction false} PathSwap(p: seq<PathEntry>, ctx: Context<RbNode>, e: RbNode, red: bool, other: Tree<RbNode>,
                                    low: Context<RbNode>, s: RbNode)
    requires PathIs(p, Compose(Frame(ctx, e, red, false, other), low))
    ensures |p| == Depth(ctx) + 1 + Depth(low) && PathIs(p[..Depth(ctx)], ctx)
    ensures PathIs(p[Depth(ctx) := p[Depth(ctx)].(node := s)], Compose(Frame(ctx, s, red, false, other), low))
  {
    var k := Depth(ctx);
    if low.Frame? {
      PathSwap(p[..|p| - 1], ctx, e, red, other, low.up, s);
      assert p[..|p| - 1][..k] == p[..k];
      assert p[k := p[k].(node := s)][..|p| - 1] == p[..|p| - 1][k := p[k].(node := s)];
    } else {
      PathDepth(p, Frame(ctx, e, red, false, other));
      assert p[k := p[k].(node := s)][..k] == p[..k];
    }
  }

  ghost function Lowest(c: Context<RbNode>): set<RbNode> {
    if c.Frame? then {c.elem} else {}
  }

  lemma PathPop(p: seq<PathEntry>, c: Context<RbNode>)
    requires PathIs(p, c) && c.Frame?
    ensures p != [] && p[|p| - 1].node == c.elem && (p[|p| - 1].cmp < 0 <==> c.goLeft)
    ensures PathIs(p[..|p| - 1], c.up)
  {
  }

  lemma SortedInsert(lo: seq<RbNode>, node: RbNode, hi: seq<RbNode>)
    requires Sorted(lo + hi) && AllBelow(lo, node.key) && AllAbove(hi, node.key)
    ensures Sorted(lo + [node] + hi)
  {
    var s, s' := lo + hi, lo + [node] + hi;
    assert forall i :: 0 <= i < |lo| ==> s'[i] == s[i];
    assert forall i :: |lo| < i < |s'| ==> s'[i] == s[i - 1];
  }

  lemma FrameSets(f: Context<RbNode>, t: Tree<RbNode>)
    requires f.Frame? && CtxDistinct(f) && CtxElems(f) !! Elems(t)
    ensures var j := Join(f.elem, f.red, f.goLeft, t, f.other);
      CtxDistinct(f.up) && CtxElems(f.up) !! Elems(j) && CtxElems(f.up) + Elems(j) == CtxElems(f) + Elems(t)
  {
  }

  lemma FramePlug(f: Context<RbNode>, t: Tree<RbNode>)
    requires f.Frame?
    ensures Plug(f, t) == Plug(f.up, Join(f.elem, f.red, f.goLeft, t, f.other))
  {
  }

  lemma GrownNode(was: Tree<RbNode>, t: Tree<RbNode>)
    requires Grown(was, t)
    ensures t.Node?
  {
  }

  /** An insertion step seen from outside: the order, the node set and the shape of the new subtree. */
  lemma GrowStep(f: Context<RbNode>, was: Tree<RbNode>, t: Tree<RbNode>, shape: Tree<RbNode>, target: seq<RbNode>)
    requires f.Frame? && Plug(f, was) == shape && Llrb(shape) && Grown(was, t)
    requires Before(f) + Inorder(t) + After(f) == target && Sorted(target)
    requires CtxDistinct(f) && CtxElems(f) !! Elems(t)
    ensures var was', t' := Join(f.elem, f.red, f.goLeft, was, f.other), InsertStep(f.elem, f.red, f.goLeft, t, f.other);
      && t'.Node? && Grown(was', t') && Plug(f.up, was') == shape
      && Distinct(t') && CtxDistinct(f.up) && CtxElems(f.up) !! Elems(t')
      && CtxElems(f.up) + Elems(t') == CtxElems(f) + Elems(t)
      && Before(f.up) + Inorder(t') + After(f.up) == target
  {
    hide InsertStep, Grown, Llrb, Sorted, Plug, Inorder, Elems, CtxElems, CtxDistinct, Distinct, Before, After;
    FramePlug(f, was);
    PlugInherits(f.up, Join(f.elem, f.red, f.goLeft, was, f.other));
    InsertStepKeepsShape(f.elem, f.red, f.goLeft, was, t, f.other);
    GrownNode(Join(f.elem, f.red, f.goLeft, was, f.other), InsertStep(f.elem, f.red, f.goLeft, t, f.other));
    var j := Join(f.elem, f.red, f.goLeft, t, f.other);
    FrameSets(f, t);
    FrameOrder(f, t);
    SameOrder(Before(f.up), j, InsertStep(f.elem, f.red, f.goLeft, t, f.other), After(f.up));
  }

  /** A removal step seen from outside: the order, the node set and the shape of the new subtree. */
  lemma ShrinkStep(f: Context<RbNode>, was: Tree<RbNode>, t: Tree<RbNode>, whole: Tree<RbNode>, target: seq<RbNode>)
    requires f.Frame? && Plug(f, was) == whole && Llrb(whole) && !IsRed(whole) && Lowered(was, t)
    requires Before(f) + Inorder(t) + After(f) == target && Sorted(target)
    requires CtxDistinct(f) && CtxElems(f) !! Elems(t)
    ensures Sibling(f.red, f.goLeft, f.other) && CtxDistinct(f.up)
    ensures var was', r := Join(f.elem, f.red, f.goLeft, was, f.other), RemoveStep(f.elem, f.red, f.goLeft, t, f.other);
      && Plug(f.up, was') == whole
      && Distinct(r.0) && CtxElems(f.up) !! Elems(r.0)
      && CtxElems(f.up) + Elems(r.0) == CtxElems(f) + Elems(t)
      && Before(f.up) + Inorder(r.0) + After(f.up) == target
      && (!r.1 ==> Lowered(was', r.0))
  {
    hide RemoveStep, RemoveStepLeft, RemoveStepRight, Lowered, Sibling, Llrb, Sorted, Plug, Inorder, Elems, CtxElems, CtxDistinct,
      Distinct, Before, After;
    FramePlug(f, was);
    FrameSets(f, t);
    var was', j := Join(f.elem, f.red, f.goLeft, was, f.other), Join(f.elem, f.red, f.goLeft, t, f.other);
    PlugInherits(f.up, was');
    RemoveStepKeepsShape(f.elem, f.red, f.goLeft, was, t, f.other);
    var r := RemoveStep(f.elem, f.red, f.goLeft, t, f.other);
    FrameOrder(f, t);
    SameOrder(Before(f.up), j, r.0, After(f.up));
  }

  lemma ShrinkSettled(f: Context<RbNode>, was: Tree<RbNode>, t: Tree<RbNode>, whole: Tree<RbNode>, target: seq<RbNode>)
    requires f.Frame? && Plug(f, was) == whole && Llrb(whole) && !IsRed(whole) && Lowered(was, t)
    requires Before(f) + Inorder(t) + After(f) == target && Sorted(target)
    requires CtxDistinct(f) && CtxElems(f) !! Elems(t)
    ensures Sibling(f.red, f.goLeft, f.other)
    ensures var r := RemoveStep(f.elem, f.red, f.goLeft, t, f.other);
      r.1 ==> var whole' := Plug(f.up, r.0);
        Llrb(whole') && !IsRed(whole') && Inorder(whole') == target && Elems(whole') == CtxElems(f) + Elems(t)
  {
    hide RemoveStep, RemoveStepLeft, RemoveStepRight, Lowered, Sibling, Llrb, Sorted;
    ShrinkStep(f, was, t, whole, target);
    var was' := Join(f.elem, f.red, f.goLeft, was, f.other);
    PlugInherits(f.up, was');
    RemoveStepKeepsShape(f.elem, f.red, f.goLeft, was, t, f.other);
    var r := RemoveStep(f.elem, f.red, f.goLeft, t, f.other);
    if r.1 {
      PlugReplace(f.up, was', r.0);
      PlugInorder(f.up, r.0);
      PlugElems(f.up, r.0);
    }
  }

  lemma RemoveRank(shape: Tree<RbNode>, ctx: Context<RbNode>, sub: Tree<RbNode>)
    requires sub.Node? && Plug(ctx, sub) == shape
    ensures var s, a := Inorder(shape), Before(ctx) + Inorder(sub.left);
      && |a| < |s| && s[|a|] == sub.elem && s[..|a|] + s[|a| + 1..] == Before(ctx) + Inorder(sub.left) + Inorder(sub.right) + After(ctx)
  {
    PlugInorder(ctx, sub);
    SeqAround(Inorder(shape), Before(ctx), Inorder(sub.left), sub.elem, Inorder(sub.right), After(ctx));
    SeqJoins(Before(ctx), Inorder(sub.left), Inorder(sub.right), After(ctx));
  }

  lemma SeqJoins<T>(a: seq<T>, b: seq<T>, c: seq<T>, d: seq<T>)
    ensures (a + b) + (c + d) == a + b + c + d
  {
  }

  lemma SeqAround<T>(s: seq<T>, a: seq<T>, b: seq<T>, e: T, c: seq<T>, d: seq<T>)
    requires s == a + (b + [e] + c) + d
    ensures var n := |a + b|; n < |s| && s[n] == e && s[..n] == a + b && s[n + 1..] == c + d
    ensures s == (a + b) + [e] + (c + d)
  {
    assert s == (a + b) + [e] + (c + d);
  }

  lemma SortedSkip(a: seq<RbNode>, e: RbNode, b: seq<RbNode>)
    requires Sorted(a + [e] + b)
    ensures Sorted(a + b)
  {
    var s, s' := a + [e] + b, a + b;
    assert forall i :: 0 <= i < |a| ==> s'[i] == s[i];
    assert forall i :: |a| <= i < |s'| ==> s'[i] == s[i + 1];
  }

  lemma SortedSkipInside(a: seq<RbNode>, b: seq<RbNode>, e: RbNode, c: seq<RbNode>, d: seq<RbNode>)
    requires Sorted(a + (b + [e] + c) + d)
    ensures Sorted(a + b + c + d)
  {
    assert a + (b + [e] + c) + d == (a + b) + [e] + (c + d);
    SortedSkip(a + b, e, c + d);
    assert a + b + c + d == (a + b) + (c + d);
  }

  lemma SortedWithout(shape: Tree<RbNode>, ctx: Context<RbNode>, sub: Tree<RbNode>)
    requires sub.Node? && Plug(ctx, sub) == shape && Sorted(Inorder(shape))
    ensures Sorted(Before(ctx) + Inorder(sub.left) + Inorder(sub.right) + After(ctx))
  {
    PlugInorder(ctx, sub);
    hide Sorted;
    SortedSkipInside(Before(ctx), Inorder(sub.left), sub.elem, Inorder(sub.right), After(ctx));
  }

  lemma Spliced(shape: Tree<RbNode>, ctx: Context<RbNode>, sub: Tree<RbNode>)
    requires sub.Node? && sub.right.Nil? && Settled(sub, Blacken(sub.left)) && Plug(ctx, sub) == shape
    requires Llrb(shape) && !IsRed(shape)
    ensures var t := Plug(ctx, Blacken(sub.left));
      && Llrb(t) && !IsRed(t) && Inorder(t) == Before(ctx) + Inorder(sub.left) + After(ctx)
      && Elems(t) == CtxElems(ctx) + Elems(sub.left)
  {
    PlugReplace(ctx, sub, Blacken(sub.left));
    PlugInorder(ctx, Blacken(sub.left));
    PlugElems(ctx, Blacken(sub.left));
  }

  /** What the leftward loop found: a leaf, whose removal costs the sequence exactly the removed node. */
  lemma SuccessorIsLeaf(shape: Tree<RbNode>, ctx: Context<RbNode>, sub: Tree<RbNode>, low: Context<RbNode>)
    requires sub.Node? && low.Frame? && Plug(ctx, sub) == shape && Plug(low, Nil) == sub.right && Before(low) == []
    requires Llrb(shape) && !IsRed(shape) && Sorted(Inorder(shape))
    ensures low.goLeft && low.other.Nil?
    ensures var c, whole := Swapped(ctx, sub, low), Plug(Swapped(ctx, sub, low), Leaf(sub.elem, low.red));
      && Llrb(whole) && !IsRed(whole) && Sorted(Before(c) + After(c))
      && Before(c) + After(c) == Before(ctx) + Inorder(sub.left) + Inorder(sub.right) + After(ctx)
      && Depth(c) == Depth(ctx) + Depth(low)
  {
    var j := Join(low.elem, low.red, low.goLeft, Nil, low.other);
    assert low.goLeft;
    PlugInherits(ctx, sub);
    PlugInherits(low.up, j);
    NoLeftChild(j);
    hide Llrb, Inorder, Sorted;
    SuccessorOrder(ctx, sub, low);
    SwapKeepsShape(ctx, sub.left, sub.elem, sub.red, low.up, low.elem, low.red);
    var outer := Frame(ctx, low.elem, sub.red, false, sub.left);
    PlugCompose(outer, low.up, Leaf(sub.elem, low.red));
    SortedWithout(shape, ctx, sub);
  }

  lemma NoSuccessor(path: seq<PathEntry>, k: nat, ctx: Context<RbNode>, sub: Tree<RbNode>, low: Context<RbNode>)
    requires sub.Node? && Depth(low) == 0 && Plug(low, Nil) == sub.right && k < |path|
    requires PathIs(path[..k + 1], Compose(Frame(ctx, sub.elem, sub.red, false, sub.left), low))
    ensures sub.right.Nil? && Inorder(sub.right) == [] && PathIs(path[..k], ctx)
  {
    PathPop(path[..k + 1], Frame(ctx, sub.elem, sub.red, false, sub.left));
    assert path[..k + 1][..k] == path[..k];
  }

  lemma SuccessorOrder(ctx: Context<RbNode>, sub: Tree<RbNode>, low: Context<RbNode>)
    requires sub.Node? && low.Frame? && Plug(low, Nil) == sub.right && Before(low) == [] && low.goLeft && low.other.Nil?
    ensures var c := Swapped(ctx, sub, low);
      Before(c) + After(c) == Before(ctx) + Inorder(sub.left) + Inorder(sub.right) + After(ctx)
  {
    ComposeOrder(Frame(ctx, low.elem, sub.red, false, sub.left), low.up);
    PlugInorder(low, Nil);
    assert After(low) == [low.elem] + After(low.up);
    Regroup(Before(ctx), Inorder(sub.left), low.elem, After(low.up), After(ctx));
  }

  lemma Regroup<T>(a: seq<T>, b: seq<T>, e: T, c: seq<T>, d: seq<T>)
    ensures (a + (b + [e]) + []) + (c + ([] + d)) == a + b + ([] + [] + ([e] + c)) + d
  {
  }

  lemma SwappedPath(path0: seq<PathEntry>, path: seq<PathEntry>, k: nat, m: nat, ctx: Context<RbNode>,
                    sub: Tree<RbNode>, low: Context<RbNode>)
    requires sub.Node? && low.Frame? && k < m < |path0| && Depth(ctx) == k
    requires PathIs(path0[..m + 1], Compose(Frame(ctx, sub.elem, sub.red, false, sub.left), low))
    requires path == path0[k := path0[k].(node := low.elem)][m := path0[m].(node := sub.elem)]
    ensures PathIs(path[..k], ctx) && PathIs(path[..m], Swapped(ctx, sub, low))
  {
    var outer := Frame(ctx, sub.elem, sub.red, false, sub.left);
    PathPop(path0[..m + 1], Compose(outer, low));
    assert path0[..m + 1][..m] == path0[..m];
    PathSwap(path0[..m], ctx, sub.elem, sub.red, sub.left, low.up, low.elem);
    assert path[..m] == path0[..m][k := path[k]];
    assert path[..k] == path0[..m][..k];
  }

  lemma LowerStart(nil: RbNode, node: RbNode, c: Context<RbNode>)
    ensures Lowered(Leaf(node, false), Nil) && Distinct(Nil) && Is(nil, nil, Nil) && Elems(Nil) == {}
    ensures Before(c) + Inorder(Nil) + After(c) == Before(c) + After(c)
  {
  }

  lemma LowerTop(was: Tree<RbNode>, t: Tree<RbNode>, whole: Tree<RbNode>)
    requires Plug(Top, was) == whole && Lowered(was, t)
    ensures Plug(Top, t) == t && Llrb(t) && !IsRed(t)
  {
  }

  /** A red leaf is a left child, and pruning it leaves the invariant in place. */
  lemma PruneRed(c: Context<RbNode>, node: RbNode)
    requires c.Frame? && Llrb(Plug(c, Leaf(node, true))) && !IsRed(Plug(c, Leaf(node, true)))
    ensures c.goLeft && Llrb(Plug(c, Nil)) && !IsRed(Plug(c, Nil))
    ensures Inorder(Plug(c, Nil)) == Before(c) + After(c) && Elems(Plug(c, Nil)) == CtxElems(c)
  {
    PlugInherits(c.up, Join(c.elem, c.red, c.goLeft, Leaf(node, true), c.other));
    PlugReplace(c, Leaf(node, true), Nil);
    PlugInorder(c, Nil);
    PlugElems(c, Nil);
  }

  lemma GrowStart(nil: RbNode, node: RbNode)
    requires node != nil && node.left == nil && node.right == nil && node.red
    ensures Is(nil, node, Node(Nil, node, true, Nil)) && Elems(Node(Nil, node, true, Nil)) == {node}
    ensures Grown(Nil, Node(Nil, node, true, Nil)) && Inorder(Node(Nil, node, true, Nil)) == [node]
    ensures Distinct(Node(Nil, node, true, Nil))
  {
  }

  lemma RootIs(nil: RbNode, n: RbNode, t: Tree<RbNode>)
    requires Is(nil, n, t) && t.Node?
    ensures n == t.elem && n in Elems(t)
  {
  }

  lemma GrowTop(was: Tree<RbNode>, t: Tree<RbNode>, shape: Tree<RbNode>)
    requires Plug(Top, was) == shape && Grown(was, t) && !IsRed(shape)
    ensures Llrb(Blacken(t)) && Inorder(Blacken(t)) == Inorder(t) && Elems(Blacken(t)) == Elems(t)
  {
  }

  lemma GrowDone(f: Context<RbNode>, was: Tree<RbNode>, t: Tree<RbNode>, shape: Tree<RbNode>, target: seq<RbNode>)
    requires CtxDistinct(f) && CtxElems(f) !! Elems(t)
    requires f.Frame? && Plug(f, was) == shape && Llrb(shape) && !IsRed(shape) && Grown(was, t) && !IsRed(t)
    requires Before(f) + Inorder(t) + After(f) == target && Sorted(target)
    ensures var shape' := Plug(f.up, InsertStep(f.elem, f.red, f.goLeft, t, f.other));
      && Llrb(shape') && !IsRed(shape') && Inorder(shape') == target
      && Elems(shape') == CtxElems(f) + Elems(t)
  {
    GrowStep(f, was, t, shape, target);
    PlugInherits(f.up, Join(f.elem, f.red, f.goLeft, was, f.other));
    InsertStepKeepsShape(f.elem, f.red, f.goLeft, was, t, f.other);
    var t' := InsertStep(f.elem, f.red, f.goLeft, t, f.other);
    PlugReplace(f.up, Join(f.elem, f.red, f.goLeft, was, f.other), t');
    PlugInorder(f.up, t');
    PlugElems(f.up, t');
  }

  /** The path after the entry at `k` is compared and its child entered. */
  function Step(path: seq<PathEntry>, k: nat, cmp: int, next: RbNode): seq<PathEntry>
    requires k + 1 < |path|
  {
    path[k := path[k].(cmp := cmp)][k + 1 := PathEntry(next, 0)]
  }

  lemma StepExtends(path: seq<PathEntry>, k: nat, ctx: Context<RbNode>, cmp: int, next: RbNode,
                    red: bool, goLeft: bool, other: Tree<RbNode>)
    requires k + 1 < |path| && PathIs(path[..k], ctx) && (cmp < 0 <==> goLeft)
    ensures PathIs(Step(path, k, cmp, next)[..k + 1], Frame(ctx, path[k].node, red, goLeft, other))
  {
    assert Step(path, k, cmp, next)[..k + 1][..k] == path[..k];
  }

  /** A search for `key` has left `cur` to look at, everything before it below and everything after it above the key. */
  ghost predicate Straddles(s: seq<RbNode>, lo: seq<RbNode>, cur: Tree<RbNode>, hi: seq<RbNode>, key: int) {
    s == lo + Inorder(cur) + hi && Sorted(s) && AllBelow(lo, key) && AllAbove(hi, key)
  }

  lemma StepAside(s: seq<RbNode>, lo: seq<RbNode>, cur: Tree<RbNode>, hi: seq<RbNode>, key: int)
    requires Straddles(s, lo, cur, hi, key) && cur.Node?
    ensures key < cur.elem.key ==> Straddles(s, lo, cur.left, [cur.elem] + Inorder(cur.right) + hi, key)
    ensures key > cur.elem.key ==> Straddles(s, lo + Inorder(cur.left) + [cur.elem], cur.right, hi, key)
  {
    SortedAround(lo, cur, hi);
    assert s == lo + Inorder(cur.left) + ([cur.elem] + Inorder(cur.right) + hi);
    assert s == (lo + Inorder(cur.left) + [cur.elem]) + Inorder(cur.right) + hi;
  }

  lemma StraddlesAll(t: Tree<RbNode>, key: int)
    requires Sorted(Inorder(t))
    ensures Straddles(Inorder(t), [], t, [], key)
  {
    assert [] + Inorder(t) + [] == Inorder(t);
  }

  /** A node of a subtree is on the side of its root that the keys say. */
  lemma InSide(lo: seq<RbNode>, t: Tree<RbNode>, hi: seq<RbNode>, node: RbNode)
    requires Sorted(lo + Inorder(t) + hi) && node in Inorder(t)
    ensures t.Node? && (node.key < t.elem.key ==> node in Inorder(t.left)) && (node.key > t.elem.key ==> node in Inorder(t.right))
    ensures node.key == t.elem.key ==> node == t.elem
  {
    SortedAround(lo, t, hi);
    hide Sorted;
  }

  lemma IsStep(nil: RbNode, n: RbNode, t: Tree<RbNode>)
    requires Is(nil, n, t) && t.Node?
    ensures n == t.elem && n != nil && Is(nil, n.left, t.left) && Is(nil, n.right, t.right)
  {
  }

  lemma RightNode(nil: RbNode, n: RbNode, t: Tree<RbNode>)
    requires Is(nil, n, t) && t.Node? && n.right != nil
    ensures t.right.Node? && Inorder(t.right) != []
  {
  }

  lemma RightNil(nil: RbNode, n: RbNode, t: Tree<RbNode>, hi: seq<RbNode>)
    requires Is(nil, n, t) && t.Node? && n.right == nil
    ensures Inorder(t.right) == [] && Inorder(t.right) + hi == hi
  {
  }

  lemma {:induction false} Locate(nil: RbNode, n: RbNode, t: Tree<RbNode>, node: RbNode)
    returns (lo: seq<RbNode>, sub: Tree<RbNode>, hi: seq<RbNode>)
    requires Is(nil, n, t) && node in Inorder(t)
    ensures Inorder(t) == lo + Inorder(sub) + hi && sub.Node? && sub.elem == node && Is(nil, node, sub)
  {
    if t.elem == node {
      lo, sub, hi := [], t, [];
    } else if node in Inorder(t.left) {
      lo, sub, hi := Locate(nil, n.left, t.left, node);
      hi := hi + [n] + Inorder(t.right);
    } else {
      lo, sub, hi := Locate(nil, n.right, t.right, node);
      lo := Inorder(t.left) + [n] + lo;
    }
  }

  /** The neighbour after the root of a subtree, wherever that root stands in the sequence. */
  lemma AfterElem(s: seq<RbNode>, lo: seq<RbNode>, t: Tree<RbNode>, hi: seq<RbNode>)
    requires s == lo + Inorder(t) + hi && t.Node? && Sorted(s)
    ensures var rest := Inorder(t.right) + hi;
      forall i :: 0 <= i < |s| && s[i] == t.elem ==> |s| - i - 1 == |rest| && (rest != [] ==> s[i + 1] == rest[0])
  {
    var k := |lo + Inorder(t.left)|;
    assert s == (lo + Inorder(t.left)) + [t.elem] + (Inorder(t.right) + hi);
    assert s[k] == t.elem;
  }

  /** When nothing is left to look at, the neighbours of the key are known. */
  lemma Nearest(s: seq<RbNode>, lo: seq<RbNode>, hi: seq<RbNode>, key: int)
    requires Straddles(s, lo, Nil, hi, key)
    ensures forall x :: x in s ==> x.key != key
    ensures hi == [] ==> forall x :: x in s ==> x.key < key
    ensures lo == [] ==> forall x :: x in s ==> key < x.key
    ensures hi != [] ==> hi[0] in s && forall x :: x in s && key <= x.key ==> hi[0].key <= x.key
    ensures lo != [] ==> lo[|lo| - 1] in s && forall x :: x in s && x.key <= key ==> x.key <= lo[|lo| - 1].key
  {
    assert s == lo + hi;
    SortedParts(lo, hi);
    forall x | x in s ensures x in lo || x in hi {}
    hide Sorted;
    if hi != [] { assert hi[0] in hi; }
    if lo != [] { assert lo[|lo| - 1] in lo; }
  }

  lemma SortedParts(lo: seq<RbNode>, hi: seq<RbNode>)
    requires Sorted(lo + hi)
    ensures lo != [] ==> forall x :: x in lo ==> x.key <= lo[|lo| - 1].key
    ensures hi != [] ==> forall x :: x in hi ==> hi[0].key <= x.key
  {
    var s := lo + hi;
    assert forall i :: 0 <= i < |lo| ==> s[i] == lo[i];
    assert forall i :: 0 <= i < |hi| ==> s[|lo| + i] == hi[i];
  }

  /** The pointer `n` reached through the context `ctx` is the root of the subtree `cur`. */
  ghost predicate At(nil: RbNode, root: RbNode, shape: Tree<RbNode>, ctx: Context<RbNode>, n: RbNode, cur: Tree<RbNode>)
    reads CtxElems(ctx), Elems(cur)
  {
    && CtxIs(nil, root, ctx, n) && Is(nil, n, cur) && Plug(ctx, cur) == shape
    && CtxDistinct(ctx) && Distinct(cur) && CtxElems(ctx) !! Elems(cur)
    && CtxElems(ctx) + Elems(cur) == Elems(shape)
  }

  ghost predicate AllBelow(s: seq<RbNode>, key: int) {
    forall i :: 0 <= i < |s| ==> s[i].key < key
  }

  ghost predicate AllAbove(s: seq<RbNode>, key: int) {
    forall i :: 0 <= i < |s| ==> key < s[i].key
  }

  ghost predicate Splits(ctx: Context<RbNode>, key: int) {
    AllBelow(Before(ctx), key) && AllAbove(After(ctx), key)
  }

  lemma NodesOf(shape: Tree<RbNode>, ctx: Context<RbNode>, cur: Tree<RbNode>)
    requires cur.Node? && Plug(ctx, cur) == shape
    ensures cur.elem in Inorder(shape)
  {
    PlugInorder(ctx, cur);
    assert cur.elem in Inorder(cur);
  }

  /** One turn of a wind loop. */
  lemma Descend(nil: RbNode, root: RbNode, shape: Tree<RbNode>, ctx: Context<RbNode>, n: RbNode, cur: Tree<RbNode>)
    requires At(nil, root, shape, ctx, n, cur) && n != nil
    ensures cur.Node? && cur.elem == n && Plug(ctx, cur) == shape
    ensures At(nil, root, shape, Frame(ctx, n, cur.red, true, cur.right), n.left, cur.left)
    ensures At(nil, root, shape, Frame(ctx, n, cur.red, false, cur.left), n.right, cur.right)
  {
  }

  lemma StartAt(nil: RbNode, root: RbNode, shape: Tree<RbNode>, key: int)
    requires Is(nil, root, shape) && Sorted(Inorder(shape))
    ensures At(nil, root, shape, Top, root, shape) && Splits(Top, key) && PathIs([], Top)
  {
    SortedDistinct(shape);
  }

  lemma EndAt(nil: RbNode, root: RbNode, shape: Tree<RbNode>, ctx: Context<RbNode>, cur: Tree<RbNode>)
    requires At(nil, root, shape, ctx, nil, cur)
    ensures cur == Nil && Inorder(cur) == []
  {
  }

  /** The right subtree of a node as a tree of its own. */
  lemma BelowAt(nil: RbNode, root: RbNode, shape: Tree<RbNode>, ctx: Context<RbNode>, node: RbNode, sub: Tree<RbNode>)
    requires At(nil, root, shape, ctx, node, sub) && sub.Node?
    ensures At(nil, node.right, sub.right, Top, node.right, sub.right) && Plug(ctx, sub) == shape
  {
  }

  lemma DescendOrder(shape: Tree<RbNode>, ctx: Context<RbNode>, cur: Tree<RbNode>, key: int)
    requires cur.Node? && Plug(ctx, cur) == shape
    requires Sorted(Inorder(shape)) && Splits(ctx, key)
    ensures key < cur.elem.key ==> Splits(Frame(ctx, cur.elem, cur.red, true, cur.right), key)
    ensures key > cur.elem.key ==> Splits(Frame(ctx, cur.elem, cur.red, false, cur.left), key)
  {
    hide Plug, Inorder, Sorted, AllBelow, AllAbove;
    PlugInorder(ctx, cur);
    SortedAround(Before(ctx), cur, After(ctx));
    if key < cur.elem.key {
      AboveJoin(cur.elem, Inorder(cur.right), After(ctx), key);
      assert Before(ctx) + [] == Before(ctx);
    } else if key > cur.elem.key {
      BelowJoin(Before(ctx), Inorder(cur.left), cur.elem, key);
      assert [] + After(ctx) == After(ctx);
    }
  }

  lemma AboveJoin(e: RbNode, a: seq<RbNode>, b: seq<RbNode>, key: int)
    requires key < e.key && AllAbove(a, e.key) && AllAbove(b, key)
    ensures AllAbove([e] + a + b, key)
  {
  }

  lemma BelowJoin(a: seq<RbNode>, b: seq<RbNode>, e: RbNode, key: int)
    requires e.key < key && AllBelow(a, key) && AllBelow(b, e.key)
    ensures AllBelow(a + (b + [e]), key)
  {
  }

  lemma DescendToNode(shape: Tree<RbNode>, ctx: Context<RbNode>, cur: Tree<RbNode>, node: RbNode)
    requires cur.Node? && Plug(ctx, cur) == shape && Sorted(Inorder(shape)) && node in Inorder(cur)
    ensures node.key < cur.elem.key ==> node in Inorder(cur.left)
    ensures node.key > cur.elem.key ==> node in Inorder(cur.right)
    ensures node.key == cur.elem.key ==> node == cur.elem
  {
    PlugInorder(ctx, cur);
    SortedAround(Before(ctx), cur, After(ctx));
  }

  lemma ComposedWhole(ctx: Context<RbNode>, sub: Tree<RbNode>, low: Context<RbNode>, cur: Tree<RbNode>)
    requires sub.Node? && Plug(low, cur) == sub.right
    ensures var c := Compose(Frame(ctx, sub.elem, sub.red, false, sub.left), low);
      Plug(c, cur) == Plug(ctx, sub) && Depth(c) == Depth(ctx) + 1 + Depth(low)
  {
    PlugCompose(Frame(ctx, sub.elem, sub.red, false, sub.left), low, cur);
  }

  lemma SuccessorFits(shape: Tree<RbNode>, ctx: Context<RbNode>, sub: Tree<RbNode>, low: Context<RbNode>, cur: Tree<RbNode>)
    requires Plug(ctx, sub) == shape && sub.Node? && Plug(low, cur) == sub.right && cur.Node?
    requires Llrb(shape) && !IsRed(shape) && |Inorder(shape)| < 0x8000_0000_0000_0000
    ensures Depth(ctx) + 1 + Depth(low) <= 125
  {
    var c := Frame(ctx, sub.elem, sub.red, false, sub.left);
    ComposedWhole(ctx, sub, low, cur);
    hide Llrb, IsRed, Inorder, Plug, Compose;
    PathFits(Compose(c, low), cur);
  }

  /** The neighbours of the root of a subtree in a sorted sequence. */
  lemma SortedAround(lo: seq<RbNode>, t: Tree<RbNode>, hi: seq<RbNode>)
    requires t.Node? && Sorted(lo + Inorder(t) + hi)
    ensures AllBelow(Inorder(t.left), t.elem.key) && AllAbove(Inorder(t.right), t.elem.key)
  {
    var s := lo + Inorder(t) + hi;
    assert forall i :: 0 <= i < |Inorder(t)| ==> s[|lo| + i] == Inorder(t)[i];
    SortedPieces(Inorder(t), Inorder(t.left), t.elem, Inorder(t.right));
  }
}

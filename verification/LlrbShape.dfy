/**
  Left-leaning red-black trees as values: the shape invariant kept by rb.h, the
  context a path array stands for, and the two unwinding steps with the reason
  each of them restores the invariant.
 */
module LlrbShape {
  import opened Powers

  datatype Tree<T> = Nil | Node(left: Tree<T>, elem: T, red: bool, right: Tree<T>)

  /** A tree with a hole: what the entries of a path array, read upwards, surround. */
  datatype Context<T> = Top | Frame(up: Context<T>, elem: T, red: bool, goLeft: bool, other: Tree<T>)

  function Inorder<T>(t: Tree<T>): seq<T> {
    match t
    case Nil => []
    case Node(l, e, _, r) => Inorder(l) + [e] + Inorder(r)
  }

  predicate IsRed<T>(t: Tree<T>) {
    t.Node? && t.red
  }

  function BlackHeight<T>(t: Tree<T>): nat {
    match t
    case Nil => 0
    case Node(l, _, red, _) => BlackHeight(l) + if red then 0 else 1
  }

  predicate Balanced<T>(t: Tree<T>) {
    match t
    case Nil => true
    case Node(l, _, _, r) => Balanced(l) && Balanced(r) && BlackHeight(l) == BlackHeight(r)
  }

  /** No red right child, and no red node with a red left child. */
  predicate Leaning<T>(t: Tree<T>) {
    match t
    case Nil => true
    case Node(l, _, red, r) => !IsRed(r) && !(red && IsRed(l)) && Leaning(l) && Leaning(r)
  }

  /** The invariant below a root of either colour. */
  predicate Llrb<T>(t: Tree<T>) {
    Balanced(t) && Leaning(t)
  }

  function Blacken<T>(t: Tree<T>): Tree<T> {
    if t.Node? then t.(red := false) else t
  }

  function Join<T>(e: T, red: bool, goLeft: bool, child: Tree<T>, other: Tree<T>): Tree<T> {
    if goLeft then Node(child, e, red, other) else Node(other, e, red, child)
  }

  function Plug<T>(c: Context<T>, t: Tree<T>): Tree<T> {
    match c
    case Top => t
    case Frame(up, e, red, goLeft, other) => Plug(up, Join(e, red, goLeft, t, other))
  }

  function Before<T>(c: Context<T>): seq<T> {
    match c
    case Top => []
    case Frame(up, e, _, goLeft, other) => Before(up) + if goLeft then [] else Inorder(other) + [e]
  }

  function After<T>(c: Context<T>): seq<T> {
    match c
    case Top => []
    case Frame(up, e, _, goLeft, other) => (if goLeft then [e] + Inorder(other) else []) + After(up)
  }

  function Depth<T>(c: Context<T>): nat {
    match c
    case Top => 0
    case Frame(up, _, _, _, _) => Depth(up) + 1
  }

  function Compose<T>(outer: Context<T>, inner: Context<T>): Context<T> {
    match inner
    case Top => outer
    case Frame(up, e, red, goLeft, other) => Frame(Compose(outer, up), e, red, goLeft, other)
  }

  /** A frame read as part of the context, or with the subtree in its hole. */
  lemma FrameOrder<T>(f: Context<T>, t: Tree<T>)
    requires f.Frame?
    ensures Before(f.up) + Inorder(Join(f.elem, f.red, f.goLeft, t, f.other)) + After(f.up) == Before(f) + Inorder(t) + After(f)
  {
    var a, b, c, d := Before(f.up), Inorder(t), Inorder(f.other), After(f.up);
    if f.goLeft {
      assert Inorder(Join(f.elem, f.red, true, t, f.other)) == b + [f.elem] + c;
      assert a + (b + [f.elem] + c) + d == (a + []) + b + ([f.elem] + c + d);
    } else {
      assert Inorder(Join(f.elem, f.red, false, t, f.other)) == c + [f.elem] + b;
      assert a + (c + [f.elem] + b) + d == (a + (c + [f.elem])) + b + ([] + d);
    }
  }

  lemma {:induction false} PlugInorder<T>(c: Context<T>, t: Tree<T>)
    ensures Inorder(Plug(c, t)) == Before(c) + Inorder(t) + After(c)
  {
    hide Inorder;
    if c.Frame? {
      PlugInorder(c.up, Join(c.elem, c.red, c.goLeft, t, c.other));
      FrameOrder(c, t);
    } else {
      assert Before(c) == [] && After(c) == [] && [] + Inorder(t) + [] == Inorder(t);
    }
  }

  lemma {:induction false} PlugCompose<T>(outer: Context<T>, inner: Context<T>, t: Tree<T>)
    ensures Plug(Compose(outer, inner), t) == Plug(outer, Plug(inner, t))
    ensures Depth(Compose(outer, inner)) == Depth(outer) + Depth(inner)
  {
    match inner
    case Top =>
    case Frame(up, e, red, goLeft, other) =>
      PlugCompose(outer, up, Join(e, red, goLeft, t, other));
  }

  lemma {:induction false} ComposeOrder<T>(outer: Context<T>, inner: Context<T>)
    ensures Before(Compose(outer, inner)) == Before(outer) + Before(inner)
    ensures After(Compose(outer, inner)) == After(inner) + After(outer)
  {
    if inner.Frame? { ComposeOrder(outer, inner.up); }
  }

  /** The invariant of a plugged tree is inherited by what fills the hole. */
  lemma {:induction false} PlugInherits<T>(c: Context<T>, t: Tree<T>)
    requires Llrb(Plug(c, t))
    ensures Llrb(t)
  {
    match c
    case Top =>
    case Frame(up, e, red, goLeft, other) =>
      PlugInherits(up, Join(e, red, goLeft, t, other));
  }

  /** A subtree may be exchanged for another of the same black height that is no redder. */
  lemma {:induction false} PlugReplace<T>(c: Context<T>, t: Tree<T>, t': Tree<T>)
    requires Llrb(Plug(c, t)) && !IsRed(Plug(c, t))
    requires Llrb(t') && BlackHeight(t') == BlackHeight(t) && (IsRed(t') ==> IsRed(t))
    ensures Llrb(Plug(c, t')) && !IsRed(Plug(c, t')) && BlackHeight(Plug(c, t')) == BlackHeight(Plug(c, t))
  {
    match c
    case Top =>
    case Frame(up, e, red, goLeft, other) =>
      PlugInherits(up, Join(e, red, goLeft, t, other));
      PlugReplace(up, Join(e, red, goLeft, t, other), Join(e, red, goLeft, t', other));
  }

  // ---- The winding depth

  lemma {:induction false} BlackHeightBoundsSize<T>(t: Tree<T>)
    requires Llrb(t)
    ensures Pow2(BlackHeight(t)) <= |Inorder(t)| + 1
  {
    match t
    case Nil =>
    case Node(l, _, _, r) =>
      BlackHeightBoundsSize(l);
      BlackHeightBoundsSize(r);
  }

  /** Every path spends at most two nodes per black level, one fewer down to a red node. */
  lemma {:induction false} DepthBelowBlackHeight<T>(c: Context<T>, t: Tree<T>)
    requires Llrb(Plug(c, t)) && !IsRed(Plug(c, t))
    ensures Depth(c) + 2 * BlackHeight(t) + (if IsRed(t) then 1 else 0) <= 2 * BlackHeight(Plug(c, t))
  {
    match c
    case Top =>
    case Frame(up, e, red, goLeft, other) =>
      PlugInherits(up, Join(e, red, goLeft, t, other));
      DepthBelowBlackHeight(up, Join(e, red, goLeft, t, other));
  }

  lemma Pow2Of64()
    ensures Pow2(64) == 0x1_0000_0000_0000_0000
  {
    assert Pow2(4) == 16;
    Pow2Sum(4, 4);
    Pow2Sum(8, 8);
    Pow2Sum(16, 16);
    Pow2Sum(32, 32);
  }

  /**
    A path through a tree of fewer than 2^63 nodes, the nil below it included,
    uses at most 127 of the 128 path entries.
   */
  lemma {:induction false} PathFits<T>(c: Context<T>, t: Tree<T>)
    requires Llrb(Plug(c, t)) && !IsRed(Plug(c, t))
    requires |Inorder(Plug(c, t))| < 0x8000_0000_0000_0000
    ensures Depth(c) <= 126
    ensures t.Node? ==> Depth(c) <= 125
  {
    var whole := Plug(c, t);
    BlackHeightBoundsSize(whole);
    if BlackHeight(whole) >= 64 {
      Pow2Monotone(64, BlackHeight(whole));
      Pow2Of64();
      assert false;
    }
    DepthBelowBlackHeight(c, t);
    PlugInherits(c, t);
  }

  // ---- Unwinding an insertion

  predicate RedPair<T>(t: Tree<T>) {
    IsRed(t) && IsRed(t.left) && Leaning(t.left) && Leaning(t.right) && !IsRed(t.right)
  }

  /** What an insertion may have made of a subtree before its parent is repaired. */
  predicate Grown<T>(was: Tree<T>, t: Tree<T>) {
    && t.Node? && Balanced(t) && BlackHeight(t) == BlackHeight(was)
    && (Leaning(t) || (RedPair(t) && IsRed(was)))
  }

  /** One turn of the insertion unwind loop: the parent takes its new child and is repaired. */
  function InsertStep<T>(e: T, red: bool, goLeft: bool, child: Tree<T>, other: Tree<T>): Tree<T> {
    if !IsRed(child) then Join(e, red, goLeft, child, other)
    else if goLeft then
      if IsRed(child.left) then Node(Blacken(child.left), child.elem, child.red, Node(child.right, e, red, other))
      else Node(child, e, red, other)
    else
      if IsRed(other) then Node(Blacken(other), e, true, Blacken(child))
      else Node(Node(other, e, true, child.left), child.elem, red, child.right)
  }

  /** One level of the invariant, unfolded. */
  lemma Unfold<T>(t: Tree<T>)
    requires Llrb(t) && t.Node?
    ensures Llrb(t.left) && Llrb(t.right) && BlackHeight(t.left) == BlackHeight(t.right)
    ensures BlackHeight(t) == BlackHeight(t.left) + if t.red then 0 else 1
    ensures !IsRed(t.right) && !(t.red && IsRed(t.left))
  {
  }

  lemma BlackenShape<T>(t: Tree<T>)
    requires Llrb(t) && IsRed(t)
    ensures Llrb(Blacken(t)) && BlackHeight(Blacken(t)) == BlackHeight(t) + 1
    ensures Inorder(Blacken(t)) == Inorder(t)
  {
  }

  lemma InsertStepOrder<T>(e: T, red: bool, goLeft: bool, child: Tree<T>, other: Tree<T>)
    ensures Inorder(InsertStep(e, red, goLeft, child, other)) == Inorder(Join(e, red, goLeft, child, other))
  {
    if IsRed(child) {
      var a, b, c := Inorder(child.left), Inorder(child.right), Inorder(other);
      if goLeft {
        assert a + [child.elem] + (b + [e] + c) == (a + [child.elem] + b) + [e] + c;
      } else {
        assert (c + [e] + a) + [child.elem] + b == c + [e] + (a + [child.elem] + b);
      }
    }
  }

  lemma InsertStepKeepsShape<T>(e: T, red: bool, goLeft: bool, was: Tree<T>, child: Tree<T>, other: Tree<T>)
    requires Llrb(Join(e, red, goLeft, was, other)) && Grown(was, child)
    ensures Grown(Join(e, red, goLeft, was, other), InsertStep(e, red, goLeft, child, other))
    ensures !IsRed(child) ==> Llrb(InsertStep(e, red, goLeft, child, other))
    ensures Inorder(InsertStep(e, red, goLeft, child, other)) == Inorder(Join(e, red, goLeft, child, other))
  {
    InsertStepOrder(e, red, goLeft, child, other);
    hide Inorder;
    Unfold(Join(e, red, goLeft, was, other));
    if IsRed(child) && goLeft && IsRed(child.left) {
      BlackenShape(child.left);
      assert Llrb(Node(child.right, e, red, other));
    } else if IsRed(child) && !goLeft && IsRed(other) {
      BlackenShape(other);
      BlackenShape(child);
    } else if IsRed(child) && !goLeft {
      Unfold(child);
      assert Llrb(Node(other, e, true, child.left));
    }
  }

  // ---- Unwinding a removal

  /** A subtree that lost one black level. */
  predicate Lowered<T>(was: Tree<T>, t: Tree<T>) {
    Llrb(t) && !IsRed(t) && BlackHeight(was) == BlackHeight(t) + 1
  }

  /** A subtree that may stand where `was` stood. */
  predicate Settled<T>(was: Tree<T>, t: Tree<T>) {
    Llrb(t) && BlackHeight(t) == BlackHeight(was) && (IsRed(t) ==> IsRed(was))
  }

  /** What the sibling of a lowered subtree must look like. */
  predicate Sibling<T>(red: bool, goLeft: bool, other: Tree<T>) {
    && other.Node?
    && (goLeft ==> !other.red)
    && (!goLeft && other.red ==> !red && other.right.Node? && !other.right.red)
  }

  /** The lowered child is on the left; the boolean says that the deficit is gone. */
  function RemoveStepLeft<T>(e: T, red: bool, child: Tree<T>, other: Tree<T>): (Tree<T>, bool)
    requires Sibling(red, true, other)
  {
    if IsRed(other.left) then
      var x := other.left;
      (Node(Node(child, e, false, x.left), x.elem, red, Node(x.right, other.elem, false, other.right)), true)
    else
      (Node(Node(child, e, true, other.left), other.elem, false, other.right), red)
  }

  /** The lowered child is on the right. */
  function RemoveStepRight<T>(e: T, red: bool, child: Tree<T>, other: Tree<T>): (Tree<T>, bool)
    requires Sibling(red, false, other)
  {
    if other.red then
      var y := other.right;
      if IsRed(y.left) then
        (Node(Node(other.left, other.elem, true, Blacken(y.left)), y.elem, false, Node(y.right, e, false, child)), true)
      else
        (Node(other.left, other.elem, false, Node(y.(red := true), e, false, child)), true)
    else if IsRed(other.left) then
      (Node(Blacken(other.left), other.elem, red, Node(other.right, e, false, child)), true)
    else
      (Node(other.(red := true), e, false, child), red)
  }

  function RemoveStep<T>(e: T, red: bool, goLeft: bool, child: Tree<T>, other: Tree<T>): (Tree<T>, bool)
    requires Sibling(red, goLeft, other)
  {
    if goLeft then RemoveStepLeft(e, red, child, other) else RemoveStepRight(e, red, child, other)
  }

  /** A removal step repairs the subtree, or hands the deficit one level up. */
  lemma RemoveStepKeepsShape<T>(e: T, red: bool, goLeft: bool, was: Tree<T>, child: Tree<T>, other: Tree<T>)
    requires Llrb(Join(e, red, goLeft, was, other)) && Lowered(was, child)
    ensures Sibling(red, goLeft, other)
    ensures var was', r := Join(e, red, goLeft, was, other), RemoveStep(e, red, goLeft, child, other);
      && Inorder(r.0) == Inorder(Join(e, red, goLeft, child, other))
      && if r.1 then Settled(was', r.0) else Lowered(was', r.0)
  {
    LoweredHasSibling(e, red, goLeft, was, child, other);
    if goLeft {
      RemoveStepLeftKeepsShape(e, red, was, child, other);
      RemoveStepLeftInorder(e, red, child, other);
    } else {
      RemoveStepRightKeepsShape(e, red, was, child, other);
      RemoveStepRightInorder(e, red, child, other);
    }
  }

  lemma LoweredHasSibling<T>(e: T, red: bool, goLeft: bool, was: Tree<T>, child: Tree<T>, other: Tree<T>)
    requires Llrb(Join(e, red, goLeft, was, other)) && Lowered(was, child)
    ensures Sibling(red, goLeft, other)
  {
    Unfold(Join(e, red, goLeft, was, other));
    Unfold(other);
  }

  lemma RemoveStepLeftKeepsShape<T>(e: T, red: bool, was: Tree<T>, child: Tree<T>, other: Tree<T>)
    requires Llrb(Join(e, red, true, was, other)) && Lowered(was, child) && Sibling(red, true, other)
    ensures var r := RemoveStepLeft(e, red, child, other);
      if r.1 then Settled(Join(e, red, true, was, other), r.0) else Lowered(Join(e, red, true, was, other), r.0)
  {
    Unfold(Join(e, red, true, was, other));
    Unfold(other);
    if IsRed(other.left) {
      var x := other.left;
      Unfold(x);
      assert Llrb(Node(child, e, false, x.left));
      assert Llrb(Node(x.right, other.elem, false, other.right));
    } else {
      assert Llrb(Node(child, e, true, other.left));
    }
  }

  lemma RemoveStepRightKeepsShape<T>(e: T, red: bool, was: Tree<T>, child: Tree<T>, other: Tree<T>)
    requires Llrb(Join(e, red, false, was, other)) && Lowered(was, child) && Sibling(red, false, other)
    ensures var r := RemoveStepRight(e, red, child, other);
      if r.1 then Settled(Join(e, red, false, was, other), r.0) else Lowered(Join(e, red, false, was, other), r.0)
  {
    Unfold(Join(e, red, false, was, other));
    Unfold(other);
    if other.red {
      var y := other.right;
      Unfold(y);
      if IsRed(y.left) {
        BlackenShape(y.left);
        assert Llrb(Node(other.left, other.elem, true, Blacken(y.left)));
        assert Llrb(Node(y.right, e, false, child));
      } else {
        assert Llrb(y.(red := true)) && BlackHeight(y.(red := true)) == BlackHeight(y.left);
      }
    } else if IsRed(other.left) {
      BlackenShape(other.left);
      assert Llrb(Node(other.right, e, false, child));
    } else {
      assert Llrb(other.(red := true));
    }
  }

  /** A rotation, whatever it does to the colours, keeps the in-order sequence. */
  lemma RotationInorder<T>(a: Tree<T>, x: T, rx: bool, b: Tree<T>, y: T, ry: bool, c: Tree<T>, rx': bool, ry': bool)
    ensures Inorder(Node(Node(a, x, rx, b), y, ry, c)) == Inorder(Node(a, x, rx', Node(b, y, ry', c)))
  {
  }

  lemma RemoveStepLeftInorder<T>(e: T, red: bool, child: Tree<T>, other: Tree<T>)
    requires Sibling(red, true, other)
    ensures Inorder(RemoveStepLeft(e, red, child, other).0) == Inorder(Join(e, red, true, child, other))
  {
    if IsRed(other.left) {
      var x := other.left;
      var o := Node(x.right, other.elem, false, other.right);
      RotationInorder(x.left, x.elem, true, x.right, other.elem, false, other.right, true, false);
      RotationInorder(child, e, false, x.left, x.elem, red, o, red, false);
    } else {
      RotationInorder(child, e, true, other.left, other.elem, false, other.right, true, false);
    }
  }

  lemma RemoveStepRightInorder<T>(e: T, red: bool, child: Tree<T>, other: Tree<T>)
    requires Sibling(red, false, other)
    ensures Inorder(RemoveStepRight(e, red, child, other).0) == Inorder(Join(e, red, false, child, other))
  {
    if other.red {
      var y := other.right;
      var p := Node(y.right, e, false, child);
      RotationInorder(other.left, other.elem, true, y, e, red, child, false, false);
      RotationInorder(y.left, y.elem, y.red, y.right, e, false, child, false, false);
      if IsRed(y.left) {
        assert Inorder(Blacken(y.left)) == Inorder(y.left);
        assert Inorder(Node(Blacken(y.left), y.elem, false, p)) == Inorder(Node(y.left, y.elem, false, p));
        RotationInorder(other.left, other.elem, true, Blacken(y.left), y.elem, false, p, false, false);
      } else {
        assert Inorder(y.(red := true)) == Inorder(y);
        assert Inorder(Node(y.(red := true), e, false, child)) == Inorder(Node(y, e, false, child));
      }
    } else if IsRed(other.left) {
      RotationInorder(other.left, other.elem, false, other.right, e, red, child, red, false);
    }
  }

  // ---- Finding what a removal prunes

  /** A node without a right child is a leaf or a black node above one red leaf. */
  lemma NoRightChild<T>(t: Tree<T>)
    requires Llrb(t) && t.Node? && t.right.Nil?
    ensures t.left.Node? ==> !t.red && IsRed(t.left) && Settled(t, Blacken(t.left))
  {
    if t.left.Node? { Unfold(t.left); }
  }

  /** A node without a left child is a leaf. */
  lemma NoLeftChild<T>(t: Tree<T>)
    requires Llrb(t) && t.Node? && t.left.Nil?
    ensures t.right.Nil?
  {
    Unfold(t);
    if t.right.Node? {
      assert !t.right.red;
      Unfold(t.right);
      assert false;
    }
  }

  function Leaf<T>(e: T, red: bool): Tree<T> {
    Node(Nil, e, red, Nil)
  }

  /** The tree shape after a node and the leaf `s` that succeeds it exchange places. */
  lemma SwapKeepsShape<T>(c: Context<T>, l: Tree<T>, e: T, red: bool, low: Context<T>, s: T, sred: bool)
    requires Llrb(Plug(c, Node(l, e, red, Plug(low, Leaf(s, sred))))) && !IsRed(Plug(c, Node(l, e, red, Plug(low, Leaf(s, sred)))))
    ensures var shape := Plug(Compose(Frame(c, s, red, false, l), low), Leaf(e, sred));
      Llrb(shape) && !IsRed(shape)
  {
    var was := Node(l, e, red, Plug(low, Leaf(s, sred)));
    PlugInherits(c, was);
    PlugReplace(low, Leaf(s, sred), Leaf(e, sred));
    var t := Node(l, s, red, Plug(low, Leaf(e, sred)));
    PlugReplace(c, was, t);
    PlugCompose(Frame(c, s, red, false, l), low, Leaf(e, sred));
  }
}

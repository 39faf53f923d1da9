/** The balancing core of the AVL tree: per-side heights, the `i8` balance
    factor, the cached-height update, single rotation and rebalancing.

    A node updated in place through `&mut self` is modelled by a function
    that returns the node that ends up in the same slot; the `mem::swap`
    identity exchange of `rotate` is therefore "return the new subtree root". */
module AvlTree {
  import opened Sides

  /** `Tree<T> = Option<Box<Node<T>>>`: `Empty` is `None`, a `Node` is the boxed
      node with its value, its cached height and its two child slots. */
  datatype Tree<T> = Empty | Node(value: T, height: nat, left: Tree<T>, right: Tree<T>)

  function Max(a: int, b: int): int { if a < b then b else a }

  /** `child(side)`: the slot on the given side. */
  function Child<T>(n: Tree<T>, side: Side): (r: Tree<T>)
    requires n.Node?
    ensures side == Left ==> r == n.left
    ensures side == Right ==> r == n.right
  {
    match side
    case Left => n.left
    case Right => n.right
  }

  /** Assigning through `child_mut(side)`: only that slot changes. */
  function WithChild<T>(n: Tree<T>, side: Side, c: Tree<T>): (r: Tree<T>)
    requires n.Node?
    ensures r.Node? && r.value == n.value && r.height == n.height
    ensures Child(r, side) == c
    ensures Child(r, Opposite(side)) == Child(n, Opposite(side))
  {
    match side
    case Left => n.(left := c)
    case Right => n.(right := c)
  }

  /** The height cached in a slot; an empty slot counts as 0. */
  function CachedHeight<T>(t: Tree<T>): nat
  {
    if t.Empty? then 0 else t.height
  }

  /** `height(side)`. */
  function SideHeight<T>(n: Tree<T>, side: Side): (h: nat)
    requires n.Node?
    ensures Child(n, side).Empty? ==> h == 0
    ensures Child(n, side).Node? ==> h == Child(n, side).height
  {
    CachedHeight(Child(n, side))
  }

  /** `x as i8` for an unsigned `x`: the low 8 bits read as two's complement. */
  function AsI8(x: nat): (r: int)
    ensures -128 <= r < 128
    ensures (r - x) % 256 == 0
  {
    var b := x % 256;
    if b < 128 then b else b - 256
  }

  /** Negation of an `i8` as a release build performs it: `-(-128)` wraps to -128. */
  function NegI8(x: int): (r: int)
    requires -128 <= x < 128
    ensures -128 <= r < 128
    ensures (r + x) % 256 == 0
  {
    if x == -128 then -128 else -x
  }

  /** `balance_factor`: right height minus left height, squeezed into an `i8`.
      The result is the one `i8` congruent to the difference modulo 256, so it
      is the exact difference whenever that fits. */
  function BalanceFactor<T>(n: Tree<T>): (b: int)
    requires n.Node?
    ensures -128 <= b < 128
    ensures (b - (SideHeight(n, Right) - SideHeight(n, Left))) % 256 == 0
    ensures -128 <= SideHeight(n, Right) - SideHeight(n, Left) < 128 ==>
              b == SideHeight(n, Right) - SideHeight(n, Left)
  {
    var left, right := SideHeight(n, Left), SideHeight(n, Right);
    var b := if left < right then AsI8(right - left) else NegI8(AsI8(left - right));
    if left < right then
      SmallMultipleIsZero(b - (right - left));
      b
    else
      var a := AsI8(left - right);
      MultipleDifference(b + a, a - (left - right));
      SmallMultipleIsZero(b - (right - left));
      b
  }

  /** The difference of two multiples of 256 is a multiple of 256. */
  lemma MultipleDifference(u: int, v: int)
    requires u % 256 == 0 && v % 256 == 0
    ensures (u - v) % 256 == 0
  {
    assert u == 256 * (u / 256) && v == 256 * (v / 256);
    assert u - v == 256 * (u / 256 - v / 256);
  }

  /** The only multiple of 256 strictly between -256 and 256 is 0. */
  lemma SmallMultipleIsZero(z: int)
    ensures z % 256 == 0 && -256 < z < 256 ==> z == 0
  {
  }

  /** `update_height`: recompute the cached height from the children's; the
      value and both children are untouched. */
  function UpdateHeight<T>(n: Tree<T>): (r: Tree<T>)
    requires n.Node?
    ensures r.Node? && r.value == n.value && r.left == n.left && r.right == n.right
    ensures r.height == 1 + Max(SideHeight(n, Left), SideHeight(n, Right))
    ensures HeightsCorrect(n.left) && HeightsCorrect(n.right) ==> HeightsCorrect(r)
  {
    n.(height := 1 + Max(SideHeight(n, Left), SideHeight(n, Right)))
  }

  /** `rotate(side)`. Writing S for the node, C for its child on the other side
      and G for C's child on `side`: C becomes the subtree root with S as its
      `side` child, and G moves under S. S's height is recomputed before the
      exchange and C's after it. */
  function Rotate<T>(n: Tree<T>, side: Side): (r: Tree<T>)
    requires n.Node? && Child(n, Opposite(side)).Node?
    ensures r.Node? && r.value == Child(n, Opposite(side)).value
    ensures Child(r, side).Node? && Child(r, side).value == n.value
    ensures Child(Child(r, side), Opposite(side)) == Child(Child(n, Opposite(side)), side)
    ensures Child(Child(r, side), side) == Child(n, side)
    ensures Child(r, Opposite(side)) == Child(Child(n, Opposite(side)), Opposite(side))
    ensures Elements(r) == Elements(n)
    ensures HeightsCorrect(n.left) && HeightsCorrect(n.right) ==> HeightsCorrect(r)
  {
    var subtree := Child(n, Opposite(side));
    var s := UpdateHeight(WithChild(n, Opposite(side), Child(subtree, side)));
    var c := WithChild(subtree, side, Empty);
    UpdateHeight(WithChild(c, side, s))
  }

  /** Rotating back the other way undoes a rotation on a tree whose cached
      heights are correct: the two rotations are inverse. */
  lemma RotateRoundTrip<T>(n: Tree<T>, side: Side)
    requires n.Node? && Child(n, Opposite(side)).Node? && HeightsCorrect(n)
    ensures Child(Rotate(n, side), side).Node?
    ensures Rotate(Rotate(n, side), Opposite(side)) == n
  {
  }

  /** The unwraps of `rebalance` succeed: the heavy child exists, and in the
      zig-zag case so does the grandchild the inner rotation lifts. */
  predicate CanRebalance<T>(n: Tree<T>)
    requires n.Node?
  {
    var b := BalanceFactor(UpdateHeight(n));
    (b == -2 ==> n.left.Node? && (BalanceFactor(n.left) == 1 ==> n.left.right.Node?)) &&
    (b == 2 ==> n.right.Node? && (BalanceFactor(n.right) == -1 ==> n.right.left.Node?))
  }

  /** Whether `rebalance` first rotates the heavy child (the zig-zag case). */
  predicate ZigZag(side: Side, childBalance: int)
  {
    (side == Left && childBalance == 1) || (side == Right && childBalance == -1)
  }

  /** `rebalance`: recompute the height; on a balance factor of -2 or +2 rotate
      away from the heavy side, after straightening a zig-zag child; on any other
      balance factor stop with no structural change. */
  function Rebalance<T>(n: Tree<T>): (r: Tree<T>)
    requires n.Node? && CanRebalance(n)
    ensures r.Node?
    ensures Elements(r) == Elements(n)
    ensures BalanceFactor(UpdateHeight(n)) != -2 && BalanceFactor(UpdateHeight(n)) != 2 ==>
              r == UpdateHeight(n)
    ensures HeightsCorrect(n.left) && HeightsCorrect(n.right) ==> HeightsCorrect(r)
  {
    var s := UpdateHeight(n);
    var b := BalanceFactor(s);
    if b != -2 && b != 2 then s
    else
      var side := if b == -2 then Left else Right;
      var subtree := Child(s, side);
      var s' := if ZigZag(side, BalanceFactor(subtree))
                then WithChild(s, side, Rotate(subtree, side))
                else s;
      Rotate(s', Opposite(side))
  }

  // ---------------------------------------------------------------------
  // Specification: in-order contents, true depth, the two AVL invariants.

  /** The in-order sequence of values. */
  function Elements<T>(t: Tree<T>): seq<T>
  {
    if t.Empty? then [] else Elements(t.left) + [t.value] + Elements(t.right)
  }

  /** The height of a tree computed from its shape (a leaf has depth 1). */
  function Depth<T>(t: Tree<T>): nat
  {
    if t.Empty? then 0 else 1 + Max(Depth(t.left), Depth(t.right))
  }

  /** Every cached height equals 1 + the larger cached child height. */
  ghost predicate HeightsCorrect<T>(t: Tree<T>)
  {
    t.Node? ==>
      t.height == 1 + Max(CachedHeight(t.left), CachedHeight(t.right)) &&
      HeightsCorrect(t.left) && HeightsCorrect(t.right)
  }

  /** Every node's child heights differ by at most one. */
  ghost predicate Balanced<T>(t: Tree<T>)
  {
    t.Node? ==>
      -1 <= CachedHeight(t.right) - CachedHeight(t.left) <= 1 &&
      Balanced(t.left) && Balanced(t.right)
  }

  ghost predicate Avl<T>(t: Tree<T>)
  {
    HeightsCorrect(t) && Balanced(t)
  }

  /** Where heights are correct the cached height is the real depth. */
  lemma {:induction false} CachedHeightIsDepth<T>(t: Tree<T>)
    requires HeightsCorrect(t)
    ensures CachedHeight(t) == Depth(t)
  {
    if t.Node? {
      CachedHeightIsDepth(t.left);
      CachedHeightIsDepth(t.right);
    }
  }

  /** On a height-correct AVL tree the balance factor is the exact height
      difference, so no `i8` truncation happens. */
  lemma {:induction false} AvlBalanceFactorExact<T>(t: Tree<T>)
    requires t.Node? && Avl(t)
    ensures BalanceFactor(t) == SideHeight(t, Right) - SideHeight(t, Left)
    ensures -1 <= BalanceFactor(t) <= 1
  {
  }

  /** Rebalancing a node whose children are AVL trees with heights at most two
      apart yields an AVL tree with correct heights, the same in-order
      sequence, and a height of the taller child's or one more. */
  lemma {:induction false} RebalanceRestoresAvl<T>(n: Tree<T>)
    requires n.Node? && Avl(n.left) && Avl(n.right)
    requires -2 <= CachedHeight(n.right) - CachedHeight(n.left) <= 2
    ensures CanRebalance(n)
    ensures Avl(Rebalance(n))
    ensures Elements(Rebalance(n)) == Elements(n)
    ensures Max(CachedHeight(n.left), CachedHeight(n.right)) <= CachedHeight(Rebalance(n))
              <= 1 + Max(CachedHeight(n.left), CachedHeight(n.right))
  {
    var s := UpdateHeight(n);
    var hl: int, hr: int := CachedHeight(n.left), CachedHeight(n.right);
    assert BalanceFactor(s) == hr - hl;
    if hr - hl == -2 {
      RebalanceLeftHeavy(n);
    } else if hr - hl == 2 {
      RebalanceRightHeavy(n);
    }
  }

  lemma RebalanceLeftHeavy<T>(n: Tree<T>)
    requires n.Node? && Avl(n.left) && Avl(n.right)
    requires CachedHeight(n.right) - CachedHeight(n.left) == -2
    ensures CanRebalance(n)
    ensures Avl(Rebalance(n))
    ensures CachedHeight(Rebalance(n)) - CachedHeight(n.left) in {0, 1}
  {
    var s := UpdateHeight(n);
    assert BalanceFactor(s) == -2;
    var l := n.left;
    var h := l.height;
    AvlBalanceFactorExact(l);
    if BalanceFactor(l) == 1 {
      RebalanceLeftRight(n);
    } else {
      assert Rebalance(n) == Rotate(s, Right);
      var r' := Node(n.value, 1 + Max(CachedHeight(l.right), h - 2), l.right, n.right);
      assert Rotate(s, Right) == Node(l.value, 1 + Max(h - 1, r'.height), l.left, r');
    }
  }

  lemma RebalanceRightHeavy<T>(n: Tree<T>)
    requires n.Node? && Avl(n.left) && Avl(n.right)
    requires CachedHeight(n.right) - CachedHeight(n.left) == 2
    ensures CanRebalance(n)
    ensures Avl(Rebalance(n))
    ensures CachedHeight(Rebalance(n)) - CachedHeight(n.right) in {0, 1}
  {
    var s := UpdateHeight(n);
    assert BalanceFactor(s) == 2;
    var r := n.right;
    var h := r.height;
    AvlBalanceFactorExact(r);
    if BalanceFactor(r) == -1 {
      RebalanceRightLeft(n);
    } else {
      assert Rebalance(n) == Rotate(s, Left);
      var l' := Node(n.value, 1 + Max(h - 2, CachedHeight(r.left)), n.left, r.left);
      assert Rotate(s, Left) == Node(r.value, 1 + Max(l'.height, h - 1), l', r.right);
    }
  }

  /** The left-right case: a left-heavy node whose left child leans right.
      The grandchild G ends up as the root with both old nodes beneath it. */
  lemma LeftRightShape<T>(n: Tree<T>)
    requires n.Node? && Avl(n.left) && Avl(n.right)
    requires CachedHeight(n.right) - CachedHeight(n.left) == -2
    requires n.left.Node? && BalanceFactor(n.left) == 1
    ensures CanRebalance(n)
    ensures n.left.right.Node? &&
            var l, g := n.left, n.left.right;
            Rebalance(n) ==
              Node(g.value, l.height, Node(l.value, l.height - 1, l.left, g.left),
                   Node(n.value, l.height - 1, g.right, n.right))
  {
    var s := UpdateHeight(n);
    assert BalanceFactor(s) == -2;
    var l := n.left;
    var h := l.height;
    AvlBalanceFactorExact(l);
    var g := l.right;
    assert g.Node? && g.height == h - 1;
    var inner := Rotate(l, Left);
    assert inner == Node(g.value, h, Node(l.value, h - 1, l.left, g.left), g.right);
    var s' := WithChild(s, Left, inner);
    assert Rebalance(n) == Rotate(s', Right);
  }

  /** In the left-right case the result is AVL with the left child's height. */
  lemma RebalanceLeftRight<T>(n: Tree<T>)
    requires n.Node? && Avl(n.left) && Avl(n.right)
    requires CachedHeight(n.right) - CachedHeight(n.left) == -2
    requires n.left.Node? && BalanceFactor(n.left) == 1
    ensures CanRebalance(n)
    ensures Avl(Rebalance(n)) && CachedHeight(Rebalance(n)) == CachedHeight(n.left)
  {
    LeftRightShape(n);
    var l := n.left;
    AvlBalanceFactorExact(l);
    var g := l.right;
    assert Avl(g) && Avl(g.left) && Avl(g.right) && Avl(l.left);
  }

  /** The right-left case, the mirror of `LeftRightShape`. */
  lemma RightLeftShape<T>(n: Tree<T>)
    requires n.Node? && Avl(n.left) && Avl(n.right)
    requires CachedHeight(n.right) - CachedHeight(n.left) == 2
    requires n.right.Node? && BalanceFactor(n.right) == -1
    ensures CanRebalance(n)
    ensures n.right.left.Node? &&
            var r, g := n.right, n.right.left;
            Rebalance(n) ==
              Node(g.value, r.height, Node(n.value, r.height - 1, n.left, g.left),
                   Node(r.value, r.height - 1, g.right, r.right))
  {
    var s := UpdateHeight(n);
    assert BalanceFactor(s) == 2;
    var r := n.right;
    var h := r.height;
    AvlBalanceFactorExact(r);
    var g := r.left;
    assert g.Node? && g.height == h - 1;
    var inner := Rotate(r, Right);
    assert inner == Node(g.value, h, g.left, Node(r.value, h - 1, g.right, r.right));
    var s' := WithChild(s, Right, inner);
    assert Rebalance(n) == Rotate(s', Left);
  }

  /** In the right-left case the result is AVL with the right child's height. */
  lemma RebalanceRightLeft<T>(n: Tree<T>)
    requires n.Node? && Avl(n.left) && Avl(n.right)
    requires CachedHeight(n.right) - CachedHeight(n.left) == 2
    requires n.right.Node? && BalanceFactor(n.right) == -1
    ensures CanRebalance(n)
    ensures Avl(Rebalance(n)) && CachedHeight(Rebalance(n)) == CachedHeight(n.right)
  {
    RightLeftShape(n);
    var r := n.right;
    AvlBalanceFactorExact(r);
    var g := r.left;
    assert Avl(g) && Avl(g.left) && Avl(g.right) && Avl(r.right);
  }
}

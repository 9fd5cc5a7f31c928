/** Shapes of the AVL tree of avltree.js: binary trees of node handles.

    The balancing arguments are made here, on values: `RotL`/`RotR` are the shape changes
    of `_rotate_left`/`_rotate_right`, and `RebalanceShape` is the shape change of
    `_rebalance`. The arena module proves that the link updates lay out these shapes. */
module AvlShapes {
  import opened Common

  /** The null handle. */
  const Nil: int := -1

  // ---------------------------------------------------------------------------
  // Shapes: trees of handles
  // ---------------------------------------------------------------------------

  /** The shape of a (sub)tree: which handle sits where. */
  datatype Tree = Leaf | Br(left: Tree, id: nat, right: Tree)

  function Root(t: Tree): int {
    if t.Leaf? then Nil else t.id
  }

  /** Height counted in nodes: a leaf node has height 1, the empty tree 0. */
  function Height(t: Tree): nat {
    match t
    case Leaf => 0
    case Br(l, _, r) => 1 + Max(Height(l), Height(r))
  }

  function Size(t: Tree): nat {
    match t
    case Leaf => 0
    case Br(l, _, r) => Size(l) + 1 + Size(r)
  }

  function InOrder(t: Tree): (s: seq<nat>)
    ensures |s| == Size(t)
  {
    match t
    case Leaf => []
    case Br(l, h, r) => InOrder(l) + [h] + InOrder(r)
  }

  function Ids(t: Tree): set<nat> {
    match t
    case Leaf => {}
    case Br(l, h, r) => Ids(l) + {h} + Ids(r)
  }

  /** No handle occurs twice. */
  predicate Distinct(t: Tree) {
    match t
    case Leaf => true
    case Br(l, h, r) =>
      h !in Ids(l) && h !in Ids(r) && Ids(l) !! Ids(r) && Distinct(l) && Distinct(r)
  }

  /** `_balance_factor` on shapes: height(left) - height(right), 0 for the empty tree. */
  function Bf(t: Tree): int {
    if t.Leaf? then 0 else Height(t.left) - Height(t.right)
  }

  /** The AVL condition: every node's balance factor lies in [-1, 1]. */
  predicate Balanced(t: Tree) {
    match t
    case Leaf => true
    case Br(l, _, r) => Balanced(l) && Balanced(r) && -1 <= Height(l) - Height(r) <= 1
  }

  lemma {:induction false} InOrderIds(t: Tree)
    ensures forall h :: h in InOrder(t) <==> h in Ids(t)
  {
    if t.Br? {
      InOrderIds(t.left);
      InOrderIds(t.right);
    }
  }

  /** In a shape without repeated handles the in-order sequence has no repetitions. */
  lemma {:induction false} DistinctInOrder(t: Tree)
    requires Distinct(t)
    ensures forall i, j :: 0 <= i < j < |InOrder(t)| ==> InOrder(t)[i] != InOrder(t)[j]
  {
    if t.Br? {
      DistinctInOrder(t.left);
      DistinctInOrder(t.right);
      InOrderIds(t.left);
      InOrderIds(t.right);
      var a, b := InOrder(t.left), InOrder(t.right);
      var s := InOrder(t);
      assert s == a + [t.id] + b;
      forall i, j | 0 <= i < j < |s| ensures s[i] != s[j] {
        if j < |a| {
        } else if j == |a| {
          assert s[i] == a[i] && a[i] in Ids(t.left);
        } else if i < |a| {
          assert s[i] in Ids(t.left) && s[j] == b[j - |a| - 1] && s[j] in Ids(t.right);
        } else if i == |a| {
          assert s[j] == b[j - |a| - 1] && s[j] in Ids(t.right);
        } else {
          assert s[i] == b[i - |a| - 1] && s[j] == b[j - |a| - 1];
        }
      }
    }
  }

  /** `_rotate_left` on shapes: the right child becomes the root. */
  function RotL(t: Tree): (r: Tree)
    requires t.Br? && t.right.Br?
    ensures r.Br? && r.left.Br?
  {
    Br(Br(t.left, t.id, t.right.left), t.right.id, t.right.right)
  }

  /** `_rotate_right` on shapes: the left child becomes the root. */
  function RotR(t: Tree): (r: Tree)
    requires t.Br? && t.left.Br?
    ensures r.Br? && r.right.Br?
  {
    Br(t.left.left, t.left.id, Br(t.left.right, t.id, t.right))
  }

  lemma SeqAssoc<X>(a: seq<X>, x: X, b: seq<X>, y: X, c: seq<X>)
    ensures (a + [x] + b) + [y] + c == a + [x] + (b + [y] + c)
  {
  }

  /** The two arrangements a rotation switches between have the same in-order sequence. */
  lemma RotationInOrder(a: Tree, x: nat, b: Tree, y: nat, c: Tree)
    ensures InOrder(Br(Br(a, x, b), y, c)) == InOrder(Br(a, x, Br(b, y, c)))
    ensures Size(Br(Br(a, x, b), y, c)) == Size(Br(a, x, Br(b, y, c)))
  {
    SeqAssoc(InOrder(a), x, InOrder(b), y, InOrder(c));
  }

  /** The two arrangements a rotation switches between have the same handles, and one has
      no repeated handle exactly when the other has none. */
  lemma RotationIds(a: Tree, x: nat, b: Tree, y: nat, c: Tree)
    ensures Ids(Br(Br(a, x, b), y, c)) == Ids(Br(a, x, Br(b, y, c)))
    ensures Distinct(Br(Br(a, x, b), y, c)) == Distinct(Br(a, x, Br(b, y, c)))
  {
    assert Ids(Br(Br(a, x, b), y, c)) == Ids(a) + {x} + Ids(b) + {y} + Ids(c);
    assert Ids(Br(a, x, Br(b, y, c))) == Ids(a) + {x} + (Ids(b) + {y} + Ids(c));
  }

  /** A left rotation preserves the in-order sequence, the set of handles and distinctness,
      and a right rotation undoes it. */
  lemma RotLPreserves(t: Tree)
    requires t.Br? && t.right.Br?
    ensures InOrder(RotL(t)) == InOrder(t) && Ids(RotL(t)) == Ids(t) && Size(RotL(t)) == Size(t)
    ensures Distinct(RotL(t)) == Distinct(t)
    ensures RotR(RotL(t)) == t
  {
    RotationInOrder(t.left, t.id, t.right.left, t.right.id, t.right.right);
    RotationIds(t.left, t.id, t.right.left, t.right.id, t.right.right);
  }

  /** The mirror image of `RotLPreserves`. */
  lemma RotRPreserves(t: Tree)
    requires t.Br? && t.left.Br?
    ensures InOrder(RotR(t)) == InOrder(t) && Ids(RotR(t)) == Ids(t) && Size(RotR(t)) == Size(t)
    ensures Distinct(RotR(t)) == Distinct(t)
    ensures RotL(RotR(t)) == t
  {
    RotationInOrder(t.left.left, t.left.id, t.left.right, t.id, t.right);
    RotationIds(t.left.left, t.left.id, t.left.right, t.id, t.right);
  }

  /** `_rebalance` on shapes: with balance factor 2 rotate right (after rotating a right-heavy
      left child left); with -2 the mirror image; otherwise leave the node alone. */
  function RebalanceShape(t: Tree): Tree
    requires t.Br?
  {
    if Bf(t) > 1 then
      var l := if Bf(t.left) < 0 then RotL(t.left) else t.left;
      RotR(Br(l, t.id, t.right))
    else if Bf(t) < -1 then
      var r := if Bf(t.right) > 0 then RotR(t.right) else t.right;
      RotL(Br(t.left, t.id, r))
    else
      t
  }

  /** The AVL rebalancing step is correct: from two balanced subtrees whose heights differ by
      at most two it produces a balanced tree with the same in-order sequence, whose height
      is that of the unbalanced node or one less, and which is the node itself when it was
      already balanced. The rebalanced handle ends up as the root or a child of the root. */
  lemma {:induction false} RebalanceShapeCorrect(t: Tree)
    requires t.Br? && Balanced(t.left) && Balanced(t.right) && -2 <= Bf(t) <= 2
    ensures var u := RebalanceShape(t);
      && u.Br? && Balanced(u)
      && InOrder(u) == InOrder(t) && Ids(u) == Ids(t) && Size(u) == Size(t)
      && (Distinct(t) ==> Distinct(u))
      && (-1 <= Bf(t) <= 1 ==> u == t)
      && Height(t) - 1 <= Height(u) <= Height(t)
      && (u.id == t.id || (u.left.Br? && u.left.id == t.id) || (u.right.Br? && u.right.id == t.id))
  {
    if Bf(t) > 1 {
      if Bf(t.left) < 0 {
        LeftRightCase(t);
      } else {
        LeftLeftCase(t);
      }
    } else if Bf(t) < -1 {
      if Bf(t.right) > 0 {
        RightLeftCase(t);
      } else {
        RightRightCase(t);
      }
    }
  }

  /** Balance factor 2 with a left child that is not right-heavy: one right rotation. */
  lemma LeftLeftCase(t: Tree)
    requires t.Br? && Balanced(t.left) && Balanced(t.right) && Bf(t) == 2 && Bf(t.left) >= 0
    ensures var u := RebalanceShape(t);
      && u == RotR(t) && Balanced(u) && Height(t) - 1 <= Height(u) <= Height(t)
      && InOrder(u) == InOrder(t) && Ids(u) == Ids(t) && Size(u) == Size(t)
      && (Distinct(t) ==> Distinct(u)) && u.right.Br? && u.right.id == t.id
  {
    RotRPreserves(t);
    var a, b, r := t.left.left, t.left.right, t.right;
    var h := Height(r);
    assert Height(t.left) == h + 2;
    assert Height(a) == h + 1;
    assert h <= Height(b) <= h + 1;
    var inner := Br(b, t.id, r);
    assert Height(inner) == Height(b) + 1;
  }

  /** Balance factor 2 with a right-heavy left child: rotate the child left, then the node right. */
  lemma LeftRightCase(t: Tree)
    requires t.Br? && Balanced(t.left) && Balanced(t.right) && Bf(t) == 2 && Bf(t.left) < 0
    ensures var u := RebalanceShape(t);
      && Balanced(u) && Height(u) == Height(t) - 1
      && InOrder(u) == InOrder(t) && Ids(u) == Ids(t) && Size(u) == Size(t)
      && (Distinct(t) ==> Distinct(u)) && u.right.Br? && u.right.id == t.id
  {
    var l := t.left;
    var a, m, r := l.left, l.right, t.right;
    var c, d := m.left, m.right;
    var h := Height(r);
    assert Height(l) == h + 2 && Height(m) == h + 1 && Height(a) == h;
    assert h - 1 <= Height(c) <= h && h - 1 <= Height(d) <= h;
    var u := RebalanceShape(t);
    assert u == Br(Br(a, l.id, c), m.id, Br(d, t.id, r));
    assert Height(u.left) == h + 1 && Height(u.right) == h + 1;
    DoubleRotationPreserves(t, RotL(l));
  }

  /** A double rotation, as two single ones, preserves the in-order sequence and the handles. */
  lemma DoubleRotationPreserves(t: Tree, l': Tree)
    requires t.Br? && t.left.Br? && t.left.right.Br? && l' == RotL(t.left)
    ensures var u := RotR(Br(l', t.id, t.right));
      && InOrder(u) == InOrder(t) && Ids(u) == Ids(t) && Size(u) == Size(t) && Distinct(u) == Distinct(t)
  {
    RotLPreserves(t.left);
    var t' := Br(l', t.id, t.right);
    RotRPreserves(t');
    assert InOrder(t') == InOrder(t) by {
      assert InOrder(t') == InOrder(l') + [t.id] + InOrder(t.right);
    }
    assert Distinct(t') == Distinct(t);
  }

  /** Balance factor -2 with a right child that is not left-heavy: one left rotation. */
  lemma RightRightCase(t: Tree)
    requires t.Br? && Balanced(t.left) && Balanced(t.right) && Bf(t) == -2 && Bf(t.right) <= 0
    ensures var u := RebalanceShape(t);
      && u == RotL(t) && Balanced(u) && Height(t) - 1 <= Height(u) <= Height(t)
      && InOrder(u) == InOrder(t) && Ids(u) == Ids(t) && Size(u) == Size(t)
      && (Distinct(t) ==> Distinct(u)) && u.left.Br? && u.left.id == t.id
  {
    RotLPreserves(t);
    var l, b, c := t.left, t.right.left, t.right.right;
    var h := Height(l);
    assert Height(t.right) == h + 2;
    assert Height(c) == h + 1;
    assert h <= Height(b) <= h + 1;
    var inner := Br(l, t.id, b);
    assert Height(inner) == Height(b) + 1;
  }

  /** Balance factor -2 with a left-heavy right child: rotate the child right, then the node left. */
  lemma RightLeftCase(t: Tree)
    requires t.Br? && Balanced(t.left) && Balanced(t.right) && Bf(t) == -2 && Bf(t.right) > 0
    ensures var u := RebalanceShape(t);
      && Balanced(u) && Height(u) == Height(t) - 1
      && InOrder(u) == InOrder(t) && Ids(u) == Ids(t) && Size(u) == Size(t)
      && (Distinct(t) ==> Distinct(u)) && u.left.Br? && u.left.id == t.id
  {
    var r := t.right;
    var l, m, c := t.left, r.left, r.right;
    var a, b := m.left, m.right;
    var h := Height(l);
    assert Height(r) == h + 2 && Height(m) == h + 1 && Height(c) == h;
    assert h - 1 <= Height(a) <= h && h - 1 <= Height(b) <= h;
    var u := RebalanceShape(t);
    assert u == Br(Br(l, t.id, a), m.id, Br(b, r.id, c));
    assert Height(u.left) == h + 1 && Height(u.right) == h + 1;
    MirrorDoubleRotationPreserves(t, RotR(r));
  }

  /** The mirror image of `DoubleRotationPreserves`. */
  lemma MirrorDoubleRotationPreserves(t: Tree, r': Tree)
    requires t.Br? && t.right.Br? && t.right.left.Br? && r' == RotR(t.right)
    ensures var u := RotL(Br(t.left, t.id, r'));
      && InOrder(u) == InOrder(t) && Ids(u) == Ids(t) && Size(u) == Size(t) && Distinct(u) == Distinct(t)
  {
    RotRPreserves(t.right);
    var t' := Br(t.left, t.id, r');
    RotLPreserves(t');
    assert InOrder(t') == InOrder(t) by {
      assert InOrder(t') == InOrder(t.left) + [t.id] + InOrder(r');
    }
    assert Distinct(t') == Distinct(t);
  }

  /** The height bookkeeping of `_rebalance_to_root`: if a subtree whose previous height was
      `oh` (balanced against its sibling `s`) was replaced by a balanced `n` whose height is
      within one of `oh`, then rebalancing the parent gives a height within one of the
      parent's previous height. */
  lemma ParentHeightWithinOne(n: Tree, oh: nat, s: Tree, h: nat, leftSide: bool)
    requires Balanced(n) && Balanced(s)
    requires -1 <= Height(n) - oh <= 1 && -1 <= oh - Height(s) <= 1
    ensures var t := if leftSide then Br(n, h, s) else Br(s, h, n);
      -2 <= Bf(t) <= 2 &&
      -1 <= Height(RebalanceShape(t)) - (1 + Max(oh, Height(s))) <= 1
  {
    var t := if leftSide then Br(n, h, s) else Br(s, h, n);
    RebalanceShapeCorrect(t);
  }
}

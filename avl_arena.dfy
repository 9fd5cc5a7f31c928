/** The node arena of the AVL tree and how it lays out a shape.

    A node of avltree.js (`AVLTreeNode`, avltree.js:12-20) is an element of a sequence;
    its `parent`, `left` and `right` fields hold handles (indices) or `Nil`. `Laid(a, t, p)`
    says that the arena `a` links exactly the shape `t` below the parent handle `p`, with
    each node's `height` and `weight` equal to the height and size of its subtree. A `Path`
    is the route from the root down to a position (a zipper): `Plug(path, t)` is the whole
    shape with `t` hung at that position. */
module AvlArena {
  import opened Common
  import opened AvlShapes

  /** `AVLTreeNode` without the user `metadata`. */
  datatype Node<T> = Node(value: T, parent: int, left: int, right: int, height: int, weight: int)

  // ---------------------------------------------------------------------------
  // Paths (zippers)
  // ---------------------------------------------------------------------------

  /** `LeftOf(up, id, sib)`: the position is the left child of node `id`, whose right
      subtree is `sib` and which itself sits at `up`; `RightOf` is the mirror image. */
  datatype Path = Top | LeftOf(up: Path, id: nat, sib: Tree) | RightOf(up: Path, sib: Tree, id: nat)

  function Plug(p: Path, t: Tree): Tree {
    match p
    case Top => t
    case LeftOf(up, id, sib) => Plug(up, Br(t, id, sib))
    case RightOf(up, sib, id) => Plug(up, Br(sib, id, t))
  }

  /** The handle of the node directly above the position, `Nil` at the root. */
  function Parent(p: Path): int {
    match p
    case Top => Nil
    case LeftOf(_, id, _) => id
    case RightOf(_, _, id) => id
  }

  function PathLen(p: Path): nat {
    match p
    case Top => 0
    case LeftOf(up, _, _) => 1 + PathLen(up)
    case RightOf(up, _, _) => 1 + PathLen(up)
  }

  /** The handles that precede the position in in-order. */
  function Before(p: Path): seq<nat> {
    match p
    case Top => []
    case LeftOf(up, _, _) => Before(up)
    case RightOf(up, sib, id) => Before(up) + InOrder(sib) + [id]
  }

  /** The handles that follow the position in in-order. */
  function After(p: Path): seq<nat> {
    match p
    case Top => []
    case LeftOf(up, id, sib) => [id] + InOrder(sib) + After(up)
    case RightOf(up, _, _) => After(up)
  }

  /** Every handle on the path or in one of its side subtrees. */
  function PathIds(p: Path): set<nat> {
    match p
    case Top => {}
    case LeftOf(up, id, sib) => PathIds(up) + {id} + Ids(sib)
    case RightOf(up, sib, id) => PathIds(up) + {id} + Ids(sib)
  }

  /** No handle repeats on the path and its side subtrees. */
  predicate PathDistinct(p: Path) {
    match p
    case Top => true
    case LeftOf(up, id, sib) =>
      id !in Ids(sib) && Distinct(sib) && ({id} + Ids(sib)) !! PathIds(up) && PathDistinct(up)
    case RightOf(up, sib, id) =>
      id !in Ids(sib) && Distinct(sib) && ({id} + Ids(sib)) !! PathIds(up) && PathDistinct(up)
  }

  /** The AVL condition along a path, for a hole of height `h`: every side subtree is
      balanced and every node on the path has balance factor in [-1, 1]. */
  predicate PathBalanced(p: Path, h: nat) {
    match p
    case Top => true
    case LeftOf(up, _, sib) =>
      Balanced(sib) && -1 <= h - Height(sib) <= 1 && PathBalanced(up, 1 + Max(h, Height(sib)))
    case RightOf(up, sib, _) =>
      Balanced(sib) && -1 <= Height(sib) - h <= 1 && PathBalanced(up, 1 + Max(Height(sib), h))
  }

  lemma {:induction false} PlugInOrder(p: Path, t: Tree)
    ensures InOrder(Plug(p, t)) == Before(p) + InOrder(t) + After(p)
  {
    match p
    case Top =>
    case LeftOf(up, id, sib) =>
      PlugInOrder(up, Br(t, id, sib));
      Assoc(Before(up), InOrder(t), [id], InOrder(sib), After(up));
    case RightOf(up, sib, id) =>
      PlugInOrder(up, Br(sib, id, t));
      Assoc(Before(up), InOrder(sib), [id], InOrder(t), After(up));
  }

  /** The in-order handles around an empty position. */
  lemma PlugLeafInOrder(p: Path)
    ensures InOrder(Plug(p, Leaf)) == Before(p) + After(p)
  {
    PlugInOrder(p, Leaf);
    assert Before(p) + InOrder(Leaf) == Before(p);
  }

  /** The in-order handles around a single node at a position. */
  lemma PlugSingleInOrder(p: Path, x: nat)
    ensures InOrder(Plug(p, Br(Leaf, x, Leaf))) == Before(p) + [x] + After(p)
  {
    PlugInOrder(p, Br(Leaf, x, Leaf));
    assert InOrder(Br(Leaf, x, Leaf)) == [x];
  }

  /** Dropping the element between `x` and `y` from `b + (x + [h] + y) + a`. */
  lemma DropAt<X>(s: seq<X>, i: nat, b: seq<X>, x: seq<X>, h: X, y: seq<X>, a: seq<X>)
    requires s == b + (x + [h] + y) + a && i == |b| + |x|
    ensures i < |s| && s[..i] + s[i + 1..] == b + (x + y) + a
  {
    assert s[..i] == b + x;
    assert s[i + 1..] == y + a;
  }

  lemma Assoc<X>(a: seq<X>, b: seq<X>, c: seq<X>, d: seq<X>, e: seq<X>)
    ensures a + (b + c + d) + e == a + b + (c + d + e)
    ensures a + (b + c + d) + e == a + b + c + d + e
  {
  }

  /** Where the root of a plugged subtree, and its in-order neighbours inside that subtree,
      sit in the in-order sequence of the whole shape. */
  lemma PlugIndex(p: Path, t: Tree, s: Tree, i: nat)
    requires t.Br? && Plug(p, t) == s && i == |Before(p)| + Size(t.left)
    ensures |InOrder(s)| == |Before(p)| + Size(t) + |After(p)|
    ensures i < |InOrder(s)| && InOrder(s)[i] == t.id
    ensures t.right.Br? ==> i + 1 < |InOrder(s)| && InOrder(s)[i + 1] == InOrder(t.right)[0]
    ensures t.left.Br? ==> 0 < i && InOrder(s)[i - 1] == InOrder(t.left)[|InOrder(t.left)| - 1]
  {
    PlugInOrder(p, t);
    Assoc(Before(p), InOrder(t.left), [t.id], InOrder(t.right), After(p));
    Around(InOrder(s), i, Before(p), InOrder(t.left), t.id, InOrder(t.right), After(p));
  }

  /** The neighbours of the element between `l` and `r` in `b + l + [x] + r + f`. */
  lemma Around<X>(s: seq<X>, i: nat, b: seq<X>, l: seq<X>, x: X, r: seq<X>, f: seq<X>)
    requires s == b + l + [x] + r + f && i == |b| + |l|
    ensures |s| == |b| + |l| + 1 + |r| + |f| && i < |s| && s[i] == x
    ensures |r| > 0 ==> i + 1 < |s| && s[i + 1] == r[0]
    ensures |l| > 0 ==> 0 < i && s[i - 1] == l[|l| - 1]
  {
  }

  /** Above a right child, the parent comes just before the position in in-order. */
  lemma BeforeLast(p: Path, t: Tree)
    requires p.RightOf?
    ensures 0 < |Before(p)| <= |InOrder(Plug(p, t))| && InOrder(Plug(p, t))[|Before(p)| - 1] == p.id
  {
    PlugInOrder(p, t);
    var b := Before(p);
    assert b[|b| - 1] == p.id;
  }

  /** Above a left child, the parent comes just after the hole in in-order. */
  lemma AfterFirst(p: Path, t: Tree)
    requires p.LeftOf?
    ensures |Before(p)| + Size(t) < |InOrder(Plug(p, t))| && InOrder(Plug(p, t))[|Before(p)| + Size(t)] == p.id
  {
    PlugInOrder(p, t);
    var f := After(p);
    assert f[0] == p.id;
  }

  lemma {:induction false} PlugIds(p: Path, t: Tree)
    ensures Ids(Plug(p, t)) == PathIds(p) + Ids(t)
  {
    match p
    case Top =>
    case LeftOf(up, id, sib) =>
      PlugIds(up, Br(t, id, sib));
    case RightOf(up, sib, id) =>
      PlugIds(up, Br(sib, id, t));
  }

  /** A plugged shape has no repeated handle exactly when the hole, the path, and the two
      together have none. */
  lemma {:induction false} PlugDistinct(p: Path, t: Tree)
    ensures Distinct(Plug(p, t)) <==> Distinct(t) && PathDistinct(p) && PathIds(p) !! Ids(t)
  {
    match p
    case Top =>
    case LeftOf(up, id, sib) =>
      PlugDistinct(up, Br(t, id, sib));
    case RightOf(up, sib, id) =>
      PlugDistinct(up, Br(sib, id, t));
  }

  /** A plugged shape is balanced exactly when the hole is, and the path is for its height. */
  lemma {:induction false} PlugBalanced(p: Path, t: Tree)
    ensures Balanced(Plug(p, t)) <==> Balanced(t) && PathBalanced(p, Height(t))
  {
    match p
    case Top =>
    case LeftOf(up, id, sib) =>
      PlugBalanced(up, Br(t, id, sib));
    case RightOf(up, sib, id) =>
      PlugBalanced(up, Br(sib, id, t));
  }

  lemma PlugRoot(p: Path, t: Tree, u: Tree)
    requires p != Top
    ensures Root(Plug(p, t)) == Root(Plug(p, u))
  {
    match p
    case LeftOf(up, id, sib) =>
      if up != Top { PlugRoot(up, Br(t, id, sib), Br(u, id, sib)); }
    case RightOf(up, sib, id) =>
      if up != Top { PlugRoot(up, Br(sib, id, t), Br(sib, id, u)); }
  }

  /** The position of a handle in a shape: the path to it and the subtree it heads. */
  ghost function Focus(t: Tree, h: nat, p: Path): (r: (Path, Tree))
    requires h in Ids(t)
    ensures r.1.Br? && r.1.id == h && Plug(r.0, r.1) == Plug(p, t)
  {
    if t.id == h then (p, t)
    else if h in Ids(t.left) then Focus(t.left, h, LeftOf(p, t.id, t.right))
    else Focus(t.right, h, RightOf(p, t.left, t.id))
  }

  // ---------------------------------------------------------------------------
  // Arena layout
  // ---------------------------------------------------------------------------

  /** `a` lays out `t` below parent `p`: links both ways, and the `height` (`weight`) of each
      node is the height (number of nodes) of its subtree, as `_update_metadata` computes. */
  ghost predicate Laid<T>(a: seq<Node<T>>, t: Tree, p: int) {
    match t
    case Leaf => true
    case Br(l, h, r) =>
      && h < |a|
      && a[h].parent == p && a[h].left == Root(l) && a[h].right == Root(r)
      && a[h].height == Height(t) && a[h].weight == Size(t)
      && Laid(a, l, h) && Laid(a, r, h)
  }

  /** The nodes on a path point down to `hole` (the handle at the position) and up to their
      parents, and their side subtrees are laid out; their metadata is not constrained. */
  ghost predicate PathLaid<T>(a: seq<Node<T>>, p: Path, hole: int) {
    match p
    case Top => true
    case LeftOf(up, id, sib) =>
      && id < |a| && a[id].left == hole && a[id].right == Root(sib) && a[id].parent == Parent(up)
      && Laid(a, sib, id) && PathLaid(a, up, id)
    case RightOf(up, sib, id) =>
      && id < |a| && a[id].right == hole && a[id].left == Root(sib) && a[id].parent == Parent(up)
      && Laid(a, sib, id) && PathLaid(a, up, id)
  }

  /** Node `x` hangs at `p` with children `l` and `r` laid out below it; only its own
      metadata may be stale. */
  ghost predicate Hung<T>(a: seq<Node<T>>, p: Path, l: Tree, x: nat, r: Tree) {
    && x < |a| && a[x].parent == Parent(p) && a[x].left == Root(l) && a[x].right == Root(r)
    && Laid(a, l, x) && Laid(a, r, x) && PathLaid(a, p, x)
  }

  /** The parent of a laid-out path's hole is `Nil` or in the arena. */
  lemma PathLaidHandle<T>(a: seq<Node<T>>, p: Path, hole: int)
    requires PathLaid(a, p, hole)
    ensures -1 <= Parent(p) < |a|
  {
  }

  /** The height recorded for a handle, 0 for `Nil` (`node.left ? node.left.height : 0`). */
  function HeightOf<T>(a: seq<Node<T>>, h: int): int
    requires -1 <= h < |a|
  {
    if h == Nil then 0 else a[h].height
  }

  /** The weight recorded for a handle, 0 for `Nil`. */
  function WeightOf<T>(a: seq<Node<T>>, h: int): int
    requires -1 <= h < |a|
  {
    if h == Nil then 0 else a[h].weight
  }

  /** A handle is `Nil` or an index into the arena. */
  predicate Handle<T>(a: seq<Node<T>>, h: int) {
    -1 <= h < |a|
  }

  /** `_balance_factor` (avltree.js:497-507): recorded left height minus recorded right height. */
  function BalanceFactor<T>(a: seq<Node<T>>, h: int): int
    requires Handle(a, h) && (h != Nil ==> Handle(a, a[h].left) && Handle(a, a[h].right))
  {
    if h == Nil then 0 else HeightOf(a, a[h].left) - HeightOf(a, a[h].right)
  }

  /** The recorded metadata of a laid-out subtree's root is its height and size. */
  lemma LaidMeta<T>(a: seq<Node<T>>, t: Tree, p: int)
    requires Laid(a, t, p)
    ensures Handle(a, Root(t)) && HeightOf(a, Root(t)) == Height(t) && WeightOf(a, Root(t)) == Size(t)
  {
  }

  /** After `_update_metadata` a hung node's balance factor is that of its shape. */
  lemma {:induction false} BalanceFactorOfShape<T>(a: seq<Node<T>>, l: Tree, x: nat, r: Tree)
    requires x < |a| && a[x].left == Root(l) && a[x].right == Root(r) && Laid(a, l, x) && Laid(a, r, x)
    ensures Handle(a, a[x].left) && Handle(a, a[x].right)
    ensures BalanceFactor(a, x) == Bf(Br(l, x, r))
  {
    LaidMeta(a, l, x);
    LaidMeta(a, r, x);
  }

  lemma {:induction false} LaidBelow<T>(a: seq<Node<T>>, t: Tree, p: int)
    requires Laid(a, t, p)
    ensures forall h :: h in Ids(t) ==> h < |a|
  {
    if t.Br? {
      LaidBelow(a, t.left, t.id);
      LaidBelow(a, t.right, t.id);
    }
  }

  /** A position's shape is laid out when the whole tree is. */
  lemma {:induction false} LaidPlug<T>(a: seq<Node<T>>, p: Path, t: Tree)
    requires Laid(a, Plug(p, t), Nil)
    ensures PathLaid(a, p, Root(t)) && Laid(a, t, Parent(p))
  {
    match p
    case Top =>
    case LeftOf(up, id, sib) =>
      LaidPlug(a, up, Br(t, id, sib));
    case RightOf(up, sib, id) =>
      LaidPlug(a, up, Br(sib, id, t));
  }

  /** Two arenas agree on the links and metadata of the handles in `s`. */
  ghost predicate LinksAgree<T>(a: seq<Node<T>>, b: seq<Node<T>>, s: set<nat>) {
    forall h :: h in s && h < |a| ==>
      h < |b| && a[h].parent == b[h].parent && a[h].left == b[h].left && a[h].right == b[h].right
      && a[h].height == b[h].height && a[h].weight == b[h].weight
  }

  /** Two arenas of equal length agree everywhere except at the handles in `s`. */
  ghost predicate AgreeExcept<T>(a: seq<Node<T>>, b: seq<Node<T>>, s: set<int>) {
    |a| == |b| && forall h :: 0 <= h < |a| && h !in s ==> a[h] == b[h]
  }

  lemma {:induction false} LaidFrame<T>(a: seq<Node<T>>, b: seq<Node<T>>, t: Tree, p: int)
    requires Laid(a, t, p) && LinksAgree(a, b, Ids(t))
    ensures Laid(b, t, p)
  {
    if t.Br? {
      LaidFrame(a, b, t.left, t.id);
      LaidFrame(a, b, t.right, t.id);
    }
  }

  lemma {:induction false} PathLaidFrame<T>(a: seq<Node<T>>, b: seq<Node<T>>, p: Path, hole: int)
    requires PathLaid(a, p, hole) && LinksAgree(a, b, PathIds(p))
    ensures PathLaid(b, p, hole)
  {
    match p
    case Top =>
    case LeftOf(up, id, sib) =>
      LaidFrame(a, b, sib, id);
      PathLaidFrame(a, b, up, id);
    case RightOf(up, sib, id) =>
      LaidFrame(a, b, sib, id);
      PathLaidFrame(a, b, up, id);
  }

  /** Giving a laid-out subtree's root a new parent keeps the subtree laid out below it. */
  lemma LaidReparent<T>(a: seq<Node<T>>, b: seq<Node<T>>, t: Tree, p: int, q: int)
    requires Laid(a, t, p) && Distinct(t) && t.Br?
    requires t.id < |b| && b[t.id] == a[t.id].(parent := q)
    requires LinksAgree(a, b, Ids(t.left) + Ids(t.right))
    ensures Laid(b, t, q)
  {
    LaidFrame(a, b, t.left, t.id);
    LaidFrame(a, b, t.right, t.id);
  }

  /** Pointing the node above a position at a new hole keeps the path laid out, provided
      nothing on the path changed otherwise. */
  lemma PathRetarget<T>(a: seq<Node<T>>, b: seq<Node<T>>, p: Path, hole: int, nh: int)
    requires p != Top && PathLaid(a, p, hole) && PathDistinct(p)
    requires Parent(p) < |b|
    requires p.LeftOf? ==> b[Parent(p)] == a[Parent(p)].(left := nh)
    requires p.RightOf? ==> b[Parent(p)] == a[Parent(p)].(right := nh)
    requires LinksAgree(a, b, PathIds(p) - {Parent(p)})
    ensures PathLaid(b, p, nh)
  {
    match p
    case LeftOf(up, id, sib) =>
      LinksAgreeSub(a, b, PathIds(p) - {id}, Ids(sib));
      LinksAgreeSub(a, b, PathIds(p) - {id}, PathIds(up));
      LaidFrame(a, b, sib, id);
      PathLaidFrame(a, b, up, id);
    case RightOf(up, sib, id) =>
      LinksAgreeSub(a, b, PathIds(p) - {id}, Ids(sib));
      LinksAgreeSub(a, b, PathIds(p) - {id}, PathIds(up));
      LaidFrame(a, b, sib, id);
      PathLaidFrame(a, b, up, id);
  }

  lemma LinksAgreeSub<T>(a: seq<Node<T>>, b: seq<Node<T>>, s: set<nat>, t: set<nat>)
    requires LinksAgree(a, b, s) && t <= s
    ensures LinksAgree(a, b, t)
  {
  }

  // ---------------------------------------------------------------------------
  // Values
  // ---------------------------------------------------------------------------

  /** Two arenas of equal length store the same value at every handle. */
  ghost predicate SameValues<T>(a: seq<Node<T>>, b: seq<Node<T>>) {
    |a| == |b| && forall h :: 0 <= h < |a| ==> a[h].value == b[h].value
  }

  /** All handles of `hs` index into `a`. */
  ghost predicate AllIn<T>(a: seq<Node<T>>, hs: seq<nat>) {
    forall k :: 0 <= k < |hs| ==> hs[k] < |a|
  }

  /** The values stored at the handles `hs`, in order. */
  ghost function Vals<T>(a: seq<Node<T>>, hs: seq<nat>): (s: seq<T>)
    requires AllIn(a, hs)
    ensures |s| == |hs|
  {
    seq(|hs|, k requires 0 <= k < |hs| => a[hs[k]].value)
  }

  lemma ValsConcat<T>(a: seq<Node<T>>, x: seq<nat>, y: seq<nat>)
    requires AllIn(a, x) && AllIn(a, y)
    ensures AllIn(a, x + y) && Vals(a, x + y) == Vals(a, x) + Vals(a, y)
  {
  }

  lemma AllInSplit<T>(a: seq<Node<T>>, x: seq<nat>, y: seq<nat>)
    requires AllIn(a, x + y)
    ensures AllIn(a, x) && AllIn(a, y)
  {
    forall k | 0 <= k < |x| ensures x[k] < |a| {
      assert x[k] == (x + y)[k];
    }
    forall k | 0 <= k < |y| ensures y[k] < |a| {
      assert y[k] == (x + y)[|x| + k];
    }
  }

  /** An arena that keeps the values of `a` at `a`'s handles reads the same values there. */
  lemma ValsAgree<T>(a: seq<Node<T>>, b: seq<Node<T>>, hs: seq<nat>)
    requires AllIn(a, hs) && |a| <= |b| && forall k :: 0 <= k < |a| ==> b[k].value == a[k].value
    ensures AllIn(b, hs) && Vals(b, hs) == Vals(a, hs)
  {
  }

  lemma LaidAllIn<T>(a: seq<Node<T>>, t: Tree, p: int)
    requires Laid(a, t, p)
    ensures AllIn(a, InOrder(t))
  {
    LaidBelow(a, t, p);
    InOrderIds(t);
  }
}

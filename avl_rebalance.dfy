/** The relinking of avltree.js on the node arena: `_update_metadata`, the two
    rotations, `_rebalance` and `_rebalance_to_root`.

    Each operation takes the arena and the root handle and returns the updated pair; the
    ghost parameters name the shape the arena lays out around the node being worked on.
    Every operation is proved to lay out the shape change that `AvlShapes` describes
    (`RotL`, `RotR`, `RebalanceShape`), without touching a stored value. */
module AvlRebalance {
  import opened Common
  import opened AvlShapes
  import opened AvlArena

  // ---------------------------------------------------------------------------
  // _update_metadata
  // ---------------------------------------------------------------------------

  /** `_update_metadata` (avltree.js:382-403): recompute a node's height and weight from
      its children's recorded values; nothing for `Nil`. */
  function UpdateMetadata<T>(a: seq<Node<T>>, h: int): (b: seq<Node<T>>)
    requires Handle(a, h) && (h != Nil ==> Handle(a, a[h].left) && Handle(a, a[h].right))
    ensures |b| == |a|
  {
    if h == Nil then a
    else
      a[h := a[h].(height := 1 + Max(HeightOf(a, a[h].left), HeightOf(a, a[h].right)),
                   weight := WeightOf(a, a[h].left) + WeightOf(a, a[h].right) + 1)]
  }

  /** Over laid-out children, `_update_metadata` records the height and size of the node's shape. */
  lemma UpdateMetadataLays<T>(a: seq<Node<T>>, l: Tree, x: nat, r: Tree)
    requires x < |a| && a[x].left == Root(l) && a[x].right == Root(r) && Laid(a, l, x) && Laid(a, r, x)
    ensures Handle(a, a[x].left) && Handle(a, a[x].right)
    ensures UpdateMetadata(a, x) == a[x := a[x].(height := Height(Br(l, x, r)), weight := Size(Br(l, x, r)))]
  {
    LaidMeta(a, l, x);
    LaidMeta(a, r, x);
  }

  /** On a node that is already laid out, `_update_metadata` changes nothing. */
  lemma UpdateMetadataLaid<T>(a: seq<Node<T>>, t: Tree, p: int)
    requires Laid(a, t, p) && t.Br?
    ensures Handle(a, a[t.id].left) && Handle(a, a[t.id].right)
    ensures UpdateMetadata(a, t.id) == a
  {
    UpdateMetadataLays(a, t.left, t.id, t.right);
    assert a[t.id].(height := Height(t), weight := Size(t)) == a[t.id];
  }

  /** A hung node becomes laid out once its metadata is updated, and the path above stays
      laid out. */
  lemma UpdateMetadataHung<T>(a: seq<Node<T>>, p: Path, l: Tree, x: nat, r: Tree)
    requires Hung(a, p, l, x, r) && Distinct(Plug(p, Br(l, x, r)))
    ensures Handle(a, a[x].left) && Handle(a, a[x].right)
    ensures var b := UpdateMetadata(a, x);
      Laid(b, Br(l, x, r), Parent(p)) && PathLaid(b, p, x) && AgreeExcept(a, b, {x})
  {
    UpdateMetadataLays(a, l, x, r);
    var b := UpdateMetadata(a, x);
    PlugDistinct(p, Br(l, x, r));
    AgreeExceptLinks(a, b, {x}, Ids(l));
    AgreeExceptLinks(a, b, {x}, Ids(r));
    AgreeExceptLinks(a, b, {x}, PathIds(p));
    LaidFrame(a, b, l, x);
    LaidFrame(a, b, r, x);
    PathLaidFrame(a, b, p, x);
  }

  /** Arenas that agree outside `e` agree on the links and metadata of any set avoiding `e`. */
  lemma AgreeExceptLinks<T>(a: seq<Node<T>>, b: seq<Node<T>>, e: set<int>, s: set<nat>)
    requires AgreeExcept(a, b, e) && forall h :: h in s ==> h !in e
    ensures LinksAgree(a, b, s)
  {
  }

  /** Arenas that agree outside `e` lay out the same subtrees that avoid `e`. */
  lemma LaidOutside<T>(a: seq<Node<T>>, b: seq<Node<T>>, e: set<int>, t: Tree, p: int)
    requires Laid(a, t, p) && AgreeExcept(a, b, e) && Outside(e, Ids(t))
    ensures Laid(b, t, p)
  {
    AgreeExceptLinks(a, b, e, Ids(t));
    LaidFrame(a, b, t, p);
  }

  // ---------------------------------------------------------------------------
  // Rotations
  // ---------------------------------------------------------------------------

  /** The first half of both rotations (avltree.js:443-454 and 472-483): the child `c` of
      `x` takes `x`'s place under `x`'s parent `par`, or becomes the root when `x` had no
      parent. Nothing else changes. */
  method Reattach<T>(a: seq<Node<T>>, root: int, x: nat, c: nat, ghost par: int)
    returns (b: seq<Node<T>>, root': int)
    requires x < |a| && c < |a| && par == a[x].parent && Handle(a, par) && c != par
    ensures |b| == |a|
    ensures b[c] == a[c].(parent := par)
    ensures par != Nil && a[par].left == x ==> b[par] == a[par].(left := c)
    ensures par != Nil && a[par].left != x ==> b[par] == a[par].(right := c)
    ensures forall k :: 0 <= k < |a| && k != c && k != par ==> b[k] == a[k]
    ensures root' == if par == Nil then c else root
  {
    b, root' := a, root;
    var parent := b[x].parent;
    if parent == Nil {
      root' := c;
      b := b[c := b[c].(parent := Nil)];
    } else if b[parent].left == x {
      b := b[parent := b[parent].(left := c)];
      b := b[c := b[c].(parent := parent)];
    } else {
      b := b[parent := b[parent].(right := c)];
      b := b[c := b[c].(parent := parent)];
    }
  }

  /** The link updates of `_rotate_left` (avltree.js:441-463): the right child `y` of `x`
      takes `x`'s place (`Reattach`), `x` becomes `y`'s left child and adopts `y`'s old left
      child `rl`. Nothing else changes. */
  method RelinkLeft<T>(a: seq<Node<T>>, root: int, x: nat, ghost y: nat, ghost rl: int, ghost par: int)
    returns (b: seq<Node<T>>, root': int)
    requires x < |a| && y == a[x].right && y < |a| && rl == a[y].left && par == a[x].parent
    requires Handle(a, rl) && Handle(a, par)
    requires x != y && rl != x && rl != y && par != x && par != y && (par != Nil ==> par != rl)
    ensures |b| == |a|
    ensures b[x] == a[x].(right := rl, parent := y)
    ensures b[y] == a[y].(left := x, parent := par)
    ensures rl != Nil ==> b[rl] == a[rl].(parent := x)
    ensures par != Nil && a[par].left == x ==> b[par] == a[par].(left := y)
    ensures par != Nil && a[par].left != x ==> b[par] == a[par].(right := y)
    ensures forall k :: 0 <= k < |a| && k != x && k != y && k != rl && k != par ==> b[k] == a[k]
    ensures root' == if par == Nil then y else root
  {
    var tmp := a[x].right;
    b, root' := Reattach(a, root, x, tmp, par);
    b := b[x := b[x].(right := b[tmp].left)];
    if b[tmp].left != Nil {
      b := b[b[tmp].left := b[b[tmp].left].(parent := x)];
    }
    b := b[tmp := b[tmp].(left := x)];
    b := b[x := b[x].(parent := tmp)];
  }

  /** `_rotate_left` (avltree.js:439-466): the link updates, then `_update_metadata` on
      `x` and on its new parent. The arena then lays out the rotated shape at the same
      position, and the root handle follows when the rotation happened at the top. */
  method RotateLeft<T>(a: seq<Node<T>>, root: int, x: nat, ghost p: Path, ghost t: Tree)
    returns (b: seq<Node<T>>, root': int)
    requires t.Br? && t.id == x && t.right.Br?
    requires Hung(a, p, t.left, x, t.right) && Distinct(Plug(p, t))
    requires p == Top ==> root == x
    ensures Laid(b, RotL(t), Parent(p)) && PathLaid(b, p, t.right.id)
    ensures root' == if p == Top then t.right.id else root
    ensures SameValues(a, b)
    ensures |b| == |a|
    ensures forall k :: 0 <= k < |a| && k != x && k != t.right.id && k != Root(t.right.left) && k != Parent(p) ==> b[k] == a[k]
    ensures 0 <= Root(t.right.left) < |a| ==> b[Root(t.right.left)] == a[Root(t.right.left)].(parent := x)
    ensures 0 <= Parent(p) < |a| && a[Parent(p)].left == x ==> b[Parent(p)] == a[Parent(p)].(left := t.right.id)
    ensures 0 <= Parent(p) < |a| && a[Parent(p)].left != x ==> b[Parent(p)] == a[Parent(p)].(right := t.right.id)
  {
    ghost var l, y, rl, rr := t.left, t.right.id, t.right.left, t.right.right;
    RotLDistinct(p, t);
    RotLHandles(a, p, l, x, y, rl, rr);
    var tmp := a[x].right;
    b, root' := RelinkLeft(a, root, x, y, Root(rl), Parent(p));
    RotLLinks(a, b, p, l, x, y, rl, rr);
    RotLMeta(b, p, l, x, y, rl, rr);
    b := UpdateMetadata(b, x);
    b := UpdateMetadata(b, tmp);
  }

  /** `_update_metadata` on `x` and then on its new parent `y` lays out the rotated shape. */
  lemma RotLMeta<T>(b: seq<Node<T>>, p: Path, l: Tree, x: nat, y: nat, rl: Tree, rr: Tree)
    requires Hung(b, LeftOf(p, y, rr), l, x, rl) && Distinct(Plug(LeftOf(p, y, rr), Br(l, x, rl)))
    ensures x < |b| && Handle(b, b[x].left) && Handle(b, b[x].right)
    ensures var b1 := UpdateMetadata(b, x); y < |b1| && Handle(b1, b1[y].left) && Handle(b1, b1[y].right)
    ensures var b2 := UpdateMetadata(UpdateMetadata(b, x), y);
      Laid(b2, Br(Br(l, x, rl), y, rr), Parent(p)) && PathLaid(b2, p, y) && SameValues(b, b2)
  {
    UpdateMetadataHung(b, LeftOf(p, y, rr), l, x, rl);
    var b1 := UpdateMetadata(b, x);
    UpdateMetadataHung(b1, p, Br(l, x, rl), y, rr);
  }

  /** What the link updates of a left rotation need of the hung node `x`: the handles
      they touch are in the arena and distinct, and `y`'s subtrees are laid out below it. */
  lemma RotLHandles<T>(a: seq<Node<T>>, p: Path, l: Tree, x: nat, y: nat, rl: Tree, rr: Tree)
    requires Hung(a, p, l, x, Br(rl, y, rr)) && Separate(p, l, x, y, rl, rr)
    ensures x < |a| && y == a[x].right && y < |a| && Root(rl) == a[y].left && Parent(p) == a[x].parent
    ensures Handle(a, Root(rl)) && Handle(a, Parent(p)) && a[y].right == Root(rr)
    ensures Laid(a, rl, y) && Laid(a, rr, y)
    ensures x != y && Root(rl) != x && Root(rl) != y && Parent(p) != x && Parent(p) != y
    ensures Parent(p) != Nil ==> Parent(p) != Root(rl)
    ensures Apart(p, l, x, y, rl, rr)
  {
    PathLaidHandle(a, p, x);
    LaidMeta(a, rl, y);
    SeparateRoots(p, l, x, y, rl, rr);
  }

  /** The handles a left rotation touches are distinct from each other and from the rest,
      and so are those of the rotated shape. */
  lemma RotLDistinct(p: Path, t: Tree)
    requires t.Br? && t.right.Br? && Distinct(Plug(p, t))
    ensures Separate(p, t.left, t.id, t.right.id, t.right.left, t.right.right)
    ensures Distinct(Plug(LeftOf(p, t.right.id, t.right.right), Br(t.left, t.id, t.right.left)))
  {
    PlugDistinct(p, t);
    RotLPreserves(t);
    PlugDistinct(p, RotL(t));
  }

  /** The links after the link updates of a left rotation of `x` (at `p`, children `l`
      and `y`) with `y`'s children `rl` and `rr`: `x` hangs as the left child of `y`, with
      its new children laid out below it, and `y` sits at `x`'s old position. */
  lemma RotLLinks<T>(a: seq<Node<T>>, b: seq<Node<T>>, p: Path, l: Tree, x: nat, y: nat, rl: Tree, rr: Tree)
    requires x < |a| && y < |a| && Parent(p) < |a| && Root(rl) < |a|
    requires a[x].left == Root(l) && a[y].right == Root(rr)
    requires Laid(a, l, x) && Laid(a, rl, y) && Laid(a, rr, y) && PathLaid(a, p, x)
    requires Apart(p, l, x, y, rl, rr)
    requires var par := Parent(p);
      && |b| == |a|
      && b[x] == a[x].(right := Root(rl), parent := y)
      && b[y] == a[y].(left := x, parent := par)
      && (rl.Br? ==> b[rl.id] == a[rl.id].(parent := x))
      && (par != Nil && a[par].left == x ==> b[par] == a[par].(left := y))
      && (par != Nil && a[par].left != x ==> b[par] == a[par].(right := y))
      && forall k :: 0 <= k < |a| && k != x && k != y && k != Root(rl) && k != par ==> b[k] == a[k]
    ensures Hung(b, LeftOf(p, y, rr), l, x, rl)
    ensures SameValues(a, b)
  {
    var e: set<int> := {x, y, Root(rl), Parent(p)};
    assert AgreeExcept(a, b, e);
    MovedBelow(a, b, e, l, rl, rr, x, y);
    if p != Top {
      MovedPath(a, b, e, p, x, y);
    }
  }

  /** The link updates of `_rotate_right` (avltree.js:470-492): the left child `y` of
      `x` takes `x`'s place (`Reattach`), `x` becomes `y`'s right child and adopts `y`'s old
      right child `lr`. Nothing else changes. */
  method RelinkRight<T>(a: seq<Node<T>>, root: int, x: nat, ghost y: nat, ghost lr: int, ghost par: int)
    returns (b: seq<Node<T>>, root': int)
    requires x < |a| && y == a[x].left && y < |a| && lr == a[y].right && par == a[x].parent
    requires Handle(a, lr) && Handle(a, par)
    requires x != y && lr != x && lr != y && par != x && par != y && (par != Nil ==> par != lr)
    ensures |b| == |a|
    ensures b[x] == a[x].(left := lr, parent := y)
    ensures b[y] == a[y].(right := x, parent := par)
    ensures lr != Nil ==> b[lr] == a[lr].(parent := x)
    ensures par != Nil && a[par].left == x ==> b[par] == a[par].(left := y)
    ensures par != Nil && a[par].left != x ==> b[par] == a[par].(right := y)
    ensures forall k :: 0 <= k < |a| && k != x && k != y && k != lr && k != par ==> b[k] == a[k]
    ensures root' == if par == Nil then y else root
  {
    var tmp := a[x].left;
    b, root' := Reattach(a, root, x, tmp, par);
    b := b[x := b[x].(left := b[tmp].right)];
    if b[tmp].right != Nil {
      b := b[b[tmp].right := b[b[tmp].right].(parent := x)];
    }
    b := b[tmp := b[tmp].(right := x)];
    b := b[x := b[x].(parent := tmp)];
  }

  /** `_rotate_right` (avltree.js:468-495): the mirror image of `RotateLeft`. */
  method RotateRight<T>(a: seq<Node<T>>, root: int, x: nat, ghost p: Path, ghost t: Tree)
    returns (b: seq<Node<T>>, root': int)
    requires t.Br? && t.id == x && t.left.Br?
    requires Hung(a, p, t.left, x, t.right) && Distinct(Plug(p, t))
    requires p == Top ==> root == x
    ensures Laid(b, RotR(t), Parent(p)) && PathLaid(b, p, t.left.id)
    ensures root' == if p == Top then t.left.id else root
    ensures SameValues(a, b)
    ensures |b| == |a|
    ensures forall k :: 0 <= k < |a| && k != x && k != t.left.id && k != Root(t.left.right) && k != Parent(p) ==> b[k] == a[k]
    ensures 0 <= Root(t.left.right) < |a| ==> b[Root(t.left.right)] == a[Root(t.left.right)].(parent := x)
    ensures 0 <= Parent(p) < |a| && a[Parent(p)].left == x ==> b[Parent(p)] == a[Parent(p)].(left := t.left.id)
    ensures 0 <= Parent(p) < |a| && a[Parent(p)].left != x ==> b[Parent(p)] == a[Parent(p)].(right := t.left.id)
  {
    ghost var ll, y, lr, r := t.left.left, t.left.id, t.left.right, t.right;
    RotRDistinct(p, t);
    RotRHandles(a, p, ll, y, lr, x, r);
    var tmp := a[x].left;
    b, root' := RelinkRight(a, root, x, y, Root(lr), Parent(p));
    RotRLinks(a, b, p, ll, y, lr, x, r);
    RotRMeta(b, p, ll, y, lr, x, r);
    b := UpdateMetadata(b, x);
    b := UpdateMetadata(b, tmp);
  }

  /** `_update_metadata` on `x` and then on its new parent `y` lays out the rotated shape. */
  lemma RotRMeta<T>(b: seq<Node<T>>, p: Path, ll: Tree, y: nat, lr: Tree, x: nat, r: Tree)
    requires Hung(b, RightOf(p, ll, y), lr, x, r) && Distinct(Plug(RightOf(p, ll, y), Br(lr, x, r)))
    ensures x < |b| && Handle(b, b[x].left) && Handle(b, b[x].right)
    ensures var b1 := UpdateMetadata(b, x); y < |b1| && Handle(b1, b1[y].left) && Handle(b1, b1[y].right)
    ensures var b2 := UpdateMetadata(UpdateMetadata(b, x), y);
      Laid(b2, Br(ll, y, Br(lr, x, r)), Parent(p)) && PathLaid(b2, p, y) && SameValues(b, b2)
  {
    UpdateMetadataHung(b, RightOf(p, ll, y), lr, x, r);
    var b1 := UpdateMetadata(b, x);
    UpdateMetadataHung(b1, p, ll, y, Br(lr, x, r));
  }

  /** What the link updates of a right rotation need of the hung node `x`. */
  lemma RotRHandles<T>(a: seq<Node<T>>, p: Path, ll: Tree, y: nat, lr: Tree, x: nat, r: Tree)
    requires Hung(a, p, Br(ll, y, lr), x, r) && Separate(p, r, x, y, lr, ll)
    ensures x < |a| && y == a[x].left && y < |a| && Root(lr) == a[y].right && Parent(p) == a[x].parent
    ensures Handle(a, Root(lr)) && Handle(a, Parent(p)) && a[y].left == Root(ll)
    ensures Laid(a, lr, y) && Laid(a, ll, y)
    ensures x != y && Root(lr) != x && Root(lr) != y && Parent(p) != x && Parent(p) != y
    ensures Parent(p) != Nil ==> Parent(p) != Root(lr)
    ensures Apart(p, r, x, y, lr, ll)
  {
    PathLaidHandle(a, p, x);
    LaidMeta(a, lr, y);
    SeparateRoots(p, r, x, y, lr, ll);
  }

  /** The handles a right rotation touches are distinct from each other and from the rest,
      and so are those of the rotated shape. */
  lemma RotRDistinct(p: Path, t: Tree)
    requires t.Br? && t.left.Br? && Distinct(Plug(p, t))
    ensures Separate(p, t.right, t.id, t.left.id, t.left.right, t.left.left)
    ensures Distinct(Plug(RightOf(p, t.left.left, t.left.id), Br(t.left.right, t.id, t.right)))
  {
    PlugDistinct(p, t);
    RotRPreserves(t);
    PlugDistinct(p, RotR(t));
  }

  /** The links after the link updates of a right rotation of `x` (at `p`, children `y`
      and `r`) with `y`'s children `ll` and `lr`: `x` hangs as the right child of `y`. */
  lemma RotRLinks<T>(a: seq<Node<T>>, b: seq<Node<T>>, p: Path, ll: Tree, y: nat, lr: Tree, x: nat, r: Tree)
    requires x < |a| && y < |a| && Parent(p) < |a| && Root(lr) < |a|
    requires a[x].right == Root(r) && a[y].left == Root(ll)
    requires Laid(a, r, x) && Laid(a, lr, y) && Laid(a, ll, y) && PathLaid(a, p, x)
    requires Apart(p, r, x, y, lr, ll)
    requires var par := Parent(p);
      && |b| == |a|
      && b[x] == a[x].(left := Root(lr), parent := y)
      && b[y] == a[y].(right := x, parent := par)
      && (lr.Br? ==> b[lr.id] == a[lr.id].(parent := x))
      && (par != Nil && a[par].left == x ==> b[par] == a[par].(left := y))
      && (par != Nil && a[par].left != x ==> b[par] == a[par].(right := y))
      && forall k :: 0 <= k < |a| && k != x && k != y && k != Root(lr) && k != par ==> b[k] == a[k]
    ensures Hung(b, RightOf(p, ll, y), lr, x, r)
    ensures SameValues(a, b)
  {
    var e: set<int> := {x, y, Root(lr), Parent(p)};
    assert AgreeExcept(a, b, e);
    MovedBelow(a, b, e, r, lr, ll, x, y);
    if p != Top {
      MovedPath(a, b, e, p, x, y);
    }
  }

  /** The subtrees of a rotation stay laid out, `rl` moved below `x`. */
  lemma MovedBelow<T>(a: seq<Node<T>>, b: seq<Node<T>>, e: set<int>, l: Tree, rl: Tree, rr: Tree, x: nat, y: nat)
    requires AgreeExcept(a, b, e) && Laid(a, l, x) && Laid(a, rl, y) && Laid(a, rr, y)
    requires Outside(e, Ids(l)) && Outside(e, Ids(rr))
    requires rl.Br? ==> Outside(e, Ids(rl.left)) && Outside(e, Ids(rl.right))
    requires rl.Br? ==> rl.id < |b| && b[rl.id] == a[rl.id].(parent := x)
    ensures Laid(b, l, x) && Laid(b, rl, x) && Laid(b, rr, y)
  {
    LaidOutside(a, b, e, l, x);
    LaidOutside(a, b, e, rr, y);
    if rl.Br? {
      ReparentOutside(a, b, e, rl, y, x);
    }
  }

  /** A subtree whose root alone changed parent, from `p` to `q`, stays laid out below `q`. */
  lemma ReparentOutside<T>(a: seq<Node<T>>, b: seq<Node<T>>, e: set<int>, t: Tree, p: int, q: int)
    requires AgreeExcept(a, b, e) && Laid(a, t, p) && t.Br?
    requires Outside(e, Ids(t.left)) && Outside(e, Ids(t.right))
    requires t.id < |b| && b[t.id] == a[t.id].(parent := q)
    ensures Laid(b, t, q)
  {
    LaidOutside(a, b, e, t.left, t.id);
    LaidOutside(a, b, e, t.right, t.id);
  }

  /** The path above a rotation stays laid out, now pointing down to `y`. */
  lemma MovedPath<T>(a: seq<Node<T>>, b: seq<Node<T>>, e: set<int>, p: Path, x: nat, y: nat)
    requires p != Top && AgreeExcept(a, b, e) && PathLaid(a, p, x) && PathDistinct(p)
    requires Outside(e, PathIds(p) - {Parent(p)})
    requires p.RightOf? ==> Root(p.sib) != x
    requires Parent(p) < |a|
    requires a[Parent(p)].left == x ==> b[Parent(p)] == a[Parent(p)].(left := y)
    requires a[Parent(p)].left != x ==> b[Parent(p)] == a[Parent(p)].(right := y)
    ensures PathLaid(b, p, y)
  {
    AgreeExceptLinks(a, b, e, PathIds(p) - {Parent(p)});
    PathRetarget(a, b, p, x, y);
  }

  // ---------------------------------------------------------------------------
  // _rebalance
  // ---------------------------------------------------------------------------

  /** `_rebalance` (avltree.js:516-541) on a hung node `x` whose children differ in height
      by at most two: refresh its metadata, then, when it leans by two, rotate (twice when
      its heavy child leans the other way). The arena then lays out `RebalanceShape` at the
      same position, no value changes, and `x`'s parent is the new subtree root when a
      rotation moved `x` down. */
  method Rebalance<T>(a: seq<Node<T>>, root: int, x: nat, ghost p: Path, ghost l: Tree, ghost r: Tree)
    returns (b: seq<Node<T>>, root': int)
    requires Hung(a, p, l, x, r) && Distinct(Plug(p, Br(l, x, r)))
    requires -2 <= Bf(Br(l, x, r)) <= 2
    requires p == Top ==> root == x
    ensures Laid(b, RebalanceShape(Br(l, x, r)), Parent(p))
    ensures PathLaid(b, p, Root(RebalanceShape(Br(l, x, r))))
    ensures root' == if p == Top then Root(RebalanceShape(Br(l, x, r))) else root
    ensures SameValues(a, b)
    ensures Root(RebalanceShape(Br(l, x, r))) == x <==> -1 <= Bf(Br(l, x, r)) <= 1
    ensures x < |b| && b[x].parent == if Root(RebalanceShape(Br(l, x, r))) == x then Parent(p) else Root(RebalanceShape(Br(l, x, r)))
  {
    ghost var t := Br(l, x, r);
    UpdateMetadataHung(a, p, l, x, r);
    b := UpdateMetadata(a, x);
    root' := root;
    BalanceFactorOfShape(b, l, x, r);
    var bf := BalanceFactor(b, x);
    if bf > 1 {
      b, root' := LeftHeavy(b, root', x, p, l, r);
    } else if bf < -1 {
      b, root' := RightHeavy(b, root', x, p, l, r);
    } else {
      UpdateMetadataLaid(b, t, Parent(p));
    }
    b := UpdateMetadata(b, x);
  }

  /** The left-heavy case of `_rebalance` (avltree.js:521-528): rotate the left child left
      when it leans right, refresh it, and rotate `x` right. */
  method LeftHeavy<T>(a: seq<Node<T>>, root: int, x: nat, ghost p: Path, ghost l: Tree, ghost r: Tree)
    returns (b: seq<Node<T>>, root': int)
    requires Laid(a, Br(l, x, r), Parent(p)) && PathLaid(a, p, x) && Distinct(Plug(p, Br(l, x, r)))
    requires Bf(Br(l, x, r)) > 1
    requires p == Top ==> root == x
    ensures Laid(b, RebalanceShape(Br(l, x, r)), Parent(p))
    ensures PathLaid(b, p, Root(RebalanceShape(Br(l, x, r))))
    ensures Root(RebalanceShape(Br(l, x, r))) != x
    ensures root' == if p == Top then Root(RebalanceShape(Br(l, x, r))) else root
    ensures SameValues(a, b)
    ensures x < |b| && Handle(b, b[x].left) && Handle(b, b[x].right) && UpdateMetadata(b, x) == b
    ensures b[x].parent == Root(RebalanceShape(Br(l, x, r)))
  {
    ghost var l';
    b, root', l' := StraightenLeft(a, root, x, p, l, r);
    UpdateMetadataLaid(b, l', x);
    b := UpdateMetadata(b, b[x].left);
    b, root' := RotateRight(b, root', x, p, Br(l', x, r));
    UpdateMetadataLaid(b, Br(l'.right, x, r), l'.id);
  }

  /** The first step of the left-heavy case (avltree.js:523-526): when the left child leans
      right, rotate it left. `x` then hangs over the straightened child `l'`. */
  method StraightenLeft<T>(a: seq<Node<T>>, root: int, x: nat, ghost p: Path, ghost l: Tree, ghost r: Tree)
    returns (b: seq<Node<T>>, root': int, ghost l': Tree)
    requires Laid(a, Br(l, x, r), Parent(p)) && PathLaid(a, p, x) && Distinct(Plug(p, Br(l, x, r)))
    requires Bf(Br(l, x, r)) > 1
    ensures l.Br? && l' == (if Bf(l) < 0 then RotL(l) else l) && l'.Br?
    ensures Hung(b, p, l', x, r) && Distinct(Plug(p, Br(l', x, r)))
    ensures root' == root && SameValues(a, b)
  {
    assert Laid(a, l, x);
    PlugDistinct(p, Br(l, x, r));
    BalanceFactorOfShape(a, l.left, l.id, l.right);
    b, root' := a, root;
    l' := l;
    var bf := BalanceFactor(b, b[x].left);
    if bf < 0 {
      b, root' := RotateLeft(b, root', b[x].left, LeftOf(p, x, r), l);
      l' := RotL(l);
      RotLPreserves(l);
    }
    HeavyChildSwap(p, l, l', x, r, true);
  }

  /** The right-heavy case of `_rebalance` (avltree.js:529-536), the mirror image. */
  method RightHeavy<T>(a: seq<Node<T>>, root: int, x: nat, ghost p: Path, ghost l: Tree, ghost r: Tree)
    returns (b: seq<Node<T>>, root': int)
    requires Laid(a, Br(l, x, r), Parent(p)) && PathLaid(a, p, x) && Distinct(Plug(p, Br(l, x, r)))
    requires Bf(Br(l, x, r)) < -1
    requires p == Top ==> root == x
    ensures Laid(b, RebalanceShape(Br(l, x, r)), Parent(p))
    ensures PathLaid(b, p, Root(RebalanceShape(Br(l, x, r))))
    ensures Root(RebalanceShape(Br(l, x, r))) != x
    ensures root' == if p == Top then Root(RebalanceShape(Br(l, x, r))) else root
    ensures SameValues(a, b)
    ensures x < |b| && Handle(b, b[x].left) && Handle(b, b[x].right) && UpdateMetadata(b, x) == b
    ensures b[x].parent == Root(RebalanceShape(Br(l, x, r)))
  {
    ghost var r';
    b, root', r' := StraightenRight(a, root, x, p, l, r);
    UpdateMetadataLaid(b, r', x);
    b := UpdateMetadata(b, b[x].right);
    b, root' := RotateLeft(b, root', x, p, Br(l, x, r'));
    UpdateMetadataLaid(b, Br(l, x, r'.left), r'.id);
  }

  /** The first step of the right-heavy case (avltree.js:531-534), the mirror image of
      `StraightenLeft`. */
  method StraightenRight<T>(a: seq<Node<T>>, root: int, x: nat, ghost p: Path, ghost l: Tree, ghost r: Tree)
    returns (b: seq<Node<T>>, root': int, ghost r': Tree)
    requires Laid(a, Br(l, x, r), Parent(p)) && PathLaid(a, p, x) && Distinct(Plug(p, Br(l, x, r)))
    requires Bf(Br(l, x, r)) < -1
    ensures r.Br? && r' == (if Bf(r) > 0 then RotR(r) else r) && r'.Br?
    ensures Hung(b, p, l, x, r') && Distinct(Plug(p, Br(l, x, r')))
    ensures root' == root && SameValues(a, b)
  {
    assert Laid(a, r, x);
    PlugDistinct(p, Br(l, x, r));
    BalanceFactorOfShape(a, r.left, r.id, r.right);
    b, root' := a, root;
    r' := r;
    var bf := BalanceFactor(b, b[x].right);
    if bf > 0 {
      b, root' := RotateRight(b, root', b[x].right, RightOf(p, l, x), r);
      r' := RotR(r);
      RotRPreserves(r);
    }
    HeavyChildSwap(p, r, r', x, l, false);
  }

  /** Replacing the heavy child of `x` by a subtree with the same handles keeps the whole
      shape free of repeats. */
  lemma HeavyChildSwap(p: Path, c: Tree, c': Tree, x: nat, s: Tree, leftSide: bool)
    requires Ids(c') == Ids(c) && Distinct(c')
    requires Distinct(Plug(p, if leftSide then Br(c, x, s) else Br(s, x, c)))
    ensures Distinct(Plug(p, if leftSide then Br(c', x, s) else Br(s, x, c')))
  {
    var t := if leftSide then Br(c, x, s) else Br(s, x, c);
    var t' := if leftSide then Br(c', x, s) else Br(s, x, c');
    PlugDistinct(p, t);
    PlugDistinct(p, t');
    assert Ids(t') == Ids(t);
  }

  // ---------------------------------------------------------------------------
  // _rebalance_to_root
  // ---------------------------------------------------------------------------

  /** The state of the climb of `_rebalance_to_root` at `node`, in the whole shape `w`.
      Below `node` everything is balanced and laid out; `node` hangs at `q` with children
      `l` and `r` whose heights differ by at most two; the path above is balanced for the
      height `oh` the subtree at `node` had before the climb reached it, and rebalancing
      `node` gives a height within one of `oh`. When `node` is `Nil` the climb is over and
      the whole shape is balanced and laid out. */
  ghost predicate Climbing<T>(a: seq<Node<T>>, root: int, node: int, q: Path, l: Tree, r: Tree, oh: nat, w: Tree) {
    && Distinct(w) && root == Root(w)
    && if node == Nil then Laid(a, w, Nil) && Balanced(w)
       else
         && 0 <= node && w == Plug(q, Br(l, node, r)) && Hung(a, q, l, node, r)
         && Balanced(l) && Balanced(r) && -2 <= Bf(Br(l, node, r)) <= 2
         && PathBalanced(q, oh) && -1 <= Height(RebalanceShape(Br(l, node, r))) - oh <= 1
  }

  /** Bounds the steps left in the climb: two per level, one less once the node balances. */
  ghost function ClimbMeasure(node: int, q: Path, l: Tree, r: Tree): nat {
    if node < 0 then 0
    else 2 * PathLen(q) + (if -1 <= Bf(Br(l, node, r)) <= 1 then 1 else 2)
  }

  /** `_rebalance_to_root` (avltree.js:509-514): rebalance each node from `node` up to the
      root. The arena ends up laying out a balanced shape with the same in-order sequence
      of handles, and no value changes. */
  method RebalanceToRoot<T>(a: seq<Node<T>>, root: int, node: int, ghost q: Path, ghost l: Tree, ghost r: Tree, ghost oh: nat, ghost w: Tree)
    returns (b: seq<Node<T>>, root': int, ghost w': Tree)
    requires Climbing(a, root, node, q, l, r, oh, w)
    ensures Laid(b, w', Nil) && Balanced(w') && Distinct(w') && root' == Root(w')
    ensures InOrder(w') == InOrder(w) && Ids(w') == Ids(w)
    ensures SameValues(a, b)
  {
    b, root', w' := a, root, w;
    var n := node;
    ghost var q', l', r', oh' := q, l, r, oh;
    while n != Nil
      invariant Climbing(b, root', n, q', l', r', oh', w')
      invariant InOrder(w') == InOrder(w) && Ids(w') == Ids(w) && SameValues(a, b)
      decreases ClimbMeasure(n, q', l', r')
    {
      ghost var b0, root0 := b, root';
      b, root' := Rebalance(b, root', n, q', l', r');
      var next := b[n].parent;
      q', l', r', oh', w' := ClimbStep(b, root0, root', n, next, q', l', r', oh', w');
      n := next;
    }
  }

  /** One step of the climb: after `_rebalance` at `n`, the climb state holds at `n`'s new
      parent, over a shape with the same handles in the same order, and the measure drops. */
  lemma ClimbStep<T>(b: seq<Node<T>>, root0: int, root: int, n: nat, next: int, q: Path, l: Tree, r: Tree, oh: nat, w: Tree)
    returns (q': Path, l': Tree, r': Tree, oh': nat, w': Tree)
    requires w == Plug(q, Br(l, n, r)) && Distinct(w) && root0 == Root(w)
    requires Balanced(l) && Balanced(r) && -2 <= Bf(Br(l, n, r)) <= 2
    requires PathBalanced(q, oh) && -1 <= Height(RebalanceShape(Br(l, n, r))) - oh <= 1
    requires var u := RebalanceShape(Br(l, n, r));
      && Laid(b, u, Parent(q)) && PathLaid(b, q, Root(u))
      && root == (if q == Top then Root(u) else root0)
      && (Root(u) == n <==> -1 <= Bf(Br(l, n, r)) <= 1)
      && n < |b| && next == b[n].parent
      && b[n].parent == (if Root(u) == n then Parent(q) else Root(u))
    ensures Climbing(b, root, next, q', l', r', oh', w')
    ensures InOrder(w') == InOrder(w) && Ids(w') == Ids(w)
    ensures ClimbMeasure(next, q', l', r') < ClimbMeasure(n, q, l, r)
  {
    var t := Br(l, n, r);
    var u := RebalanceShape(t);
    RebalanceShapeCorrect(t);
    w' := Plug(q, u);
    RebalancePlug(q, t);
    if Root(u) != n {
      q', l', r', oh' := q, u.left, u.right, oh;
      ClimbRotated(b, root, q, u, oh);
    } else if q == Top {
      q', l', r', oh' := q, l, r, oh;
    } else {
      q', l', r', oh' := ClimbUp(b, root, q, u, oh);
    }
  }

  /** After a rotation the climb stays at the same position, now at the balanced new root. */
  lemma ClimbRotated<T>(b: seq<Node<T>>, root: int, q: Path, u: Tree, oh: nat)
    requires u.Br? && Balanced(u) && Distinct(Plug(q, u)) && root == Root(Plug(q, u))
    requires Laid(b, u, Parent(q)) && PathLaid(b, q, u.id)
    requires PathBalanced(q, oh) && -1 <= Height(u) - oh <= 1
    ensures Climbing(b, root, u.id, q, u.left, u.right, oh, Plug(q, u))
    ensures ClimbMeasure(u.id, q, u.left, u.right) == 2 * PathLen(q) + 1
  {
    assert Br(u.left, u.id, u.right) == u;
  }

  /** Rebalancing the subtree at a position keeps the handles of the whole shape, their
      order and their distinctness, and the root handle above a proper position. */
  lemma RebalancePlug(q: Path, t: Tree)
    requires t.Br? && Balanced(t.left) && Balanced(t.right) && -2 <= Bf(t) <= 2 && Distinct(Plug(q, t))
    ensures var u := RebalanceShape(t);
      && InOrder(Plug(q, u)) == InOrder(Plug(q, t)) && Ids(Plug(q, u)) == Ids(Plug(q, t))
      && Distinct(Plug(q, u)) && (q != Top ==> Root(Plug(q, u)) == Root(Plug(q, t)))
  {
    var u := RebalanceShape(t);
    RebalanceShapeCorrect(t);
    PlugInOrder(q, t);
    PlugInOrder(q, u);
    PlugIds(q, t);
    PlugIds(q, u);
    PlugDistinct(q, t);
    PlugDistinct(q, u);
    if q != Top {
      PlugRoot(q, t, u);
    }
  }

  /** Without a rotation the climb moves to the parent, whose old height is `oh'`. */
  lemma ClimbUp<T>(b: seq<Node<T>>, root: int, q: Path, u: Tree, oh: nat)
    returns (q': Path, l': Tree, r': Tree, oh': nat)
    requires q != Top && u.Br? && Balanced(u) && Distinct(Plug(q, u)) && root == Root(Plug(q, u))
    requires Laid(b, u, Parent(q)) && PathLaid(b, q, u.id)
    requires PathBalanced(q, oh) && -1 <= Height(u) - oh <= 1
    ensures Climbing(b, root, Parent(q), q', l', r', oh', Plug(q, u))
    ensures PathLen(q') + 1 == PathLen(q)
  {
    match q
    case LeftOf(up, z, sib) =>
      q', l', r', oh' := up, u, sib, 1 + Max(oh, Height(sib));
      ClimbUpLeft(b, root, up, z, sib, u, oh, oh');
    case RightOf(up, sib, z) =>
      q', l', r', oh' := up, sib, u, 1 + Max(oh, Height(sib));
      ClimbUpRight(b, root, up, sib, z, u, oh, oh');
  }

  lemma ClimbUpLeft<T>(b: seq<Node<T>>, root: int, up: Path, z: nat, sib: Tree, u: Tree, oh: nat, oh': nat)
    requires oh' == 1 + Max(oh, Height(sib))
    requires u.Br? && Balanced(u) && Distinct(Plug(up, Br(u, z, sib))) && root == Root(Plug(up, Br(u, z, sib)))
    requires Laid(b, u, z) && PathLaid(b, LeftOf(up, z, sib), u.id)
    requires PathBalanced(LeftOf(up, z, sib), oh) && -1 <= Height(u) - oh <= 1
    ensures Climbing(b, root, z, up, u, sib, oh', Plug(up, Br(u, z, sib)))
  {
    ParentHeightWithinOne(u, oh, sib, z, true);
    PathBalancedUp(LeftOf(up, z, sib), oh, oh');
  }

  lemma ClimbUpRight<T>(b: seq<Node<T>>, root: int, up: Path, sib: Tree, z: nat, u: Tree, oh: nat, oh': nat)
    requires oh' == 1 + Max(oh, Height(sib))
    requires u.Br? && Balanced(u) && Distinct(Plug(up, Br(sib, z, u))) && root == Root(Plug(up, Br(sib, z, u)))
    requires Laid(b, u, z) && PathLaid(b, RightOf(up, sib, z), u.id)
    requires PathBalanced(RightOf(up, sib, z), oh) && -1 <= Height(u) - oh <= 1
    ensures Climbing(b, root, z, up, sib, u, oh', Plug(up, Br(sib, z, u)))
  {
    ParentHeightWithinOne(u, oh, sib, z, false);
    PathBalancedUp(RightOf(up, sib, z), oh, oh');
  }

  /** One level up a balanced path, for the height the subtree there had. */
  lemma PathBalancedUp(q: Path, h: nat, h': nat)
    requires q != Top && PathBalanced(q, h) && h' == 1 + Max(h, Height(q.sib))
    ensures Balanced(q.sib) && -1 <= h - Height(q.sib) <= 1
    ensures PathBalanced(q.up, h')
  {
  }

  /** The handles of a rotation: `x` and `y` and the three subtrees and the path below
      and around them are pairwise apart, and each part has no repeated handle. */
  ghost predicate Separate(p: Path, l: Tree, x: nat, y: nat, rl: Tree, rr: Tree) {
    && Distinct(l) && Distinct(rl) && Distinct(rr) && PathDistinct(p) && x != y
    && x !in Ids(l) + Ids(rl) + Ids(rr) + PathIds(p) && y !in Ids(l) + Ids(rl) + Ids(rr) + PathIds(p)
    && Ids(l) !! Ids(rl) && Ids(l) !! Ids(rr) && Ids(rl) !! Ids(rr)
    && PathIds(p) !! Ids(l) && PathIds(p) !! Ids(rl) && PathIds(p) !! Ids(rr)
  }

  /** The four handles a rotation touches (`x`, `y`, the moved subtree's root and the
      parent) lie outside the parts whose links it keeps. */
  ghost predicate Apart(p: Path, l: Tree, x: nat, y: nat, rl: Tree, rr: Tree) {
    && PathDistinct(p)
    && Outside({x, y, Root(rl), Parent(p)}, Ids(l))
    && Outside({x, y, Root(rl), Parent(p)}, Ids(rr))
    && (rl.Br? ==> Outside({x, y, Root(rl), Parent(p)}, Ids(rl.left)))
    && (rl.Br? ==> Outside({x, y, Root(rl), Parent(p)}, Ids(rl.right)))
    && Outside({x, y, Root(rl), Parent(p)}, PathIds(p) - {Parent(p)})
    && (p.RightOf? ==> Root(p.sib) != x)
  }

  ghost predicate Outside(e: set<int>, s: set<nat>) {
    forall h :: h in e ==> h !in s
  }

  lemma OutsideOf(x: int, y: int, r: int, q: int, s: set<nat>)
    requires x !in s && y !in s && r !in s && q !in s
    ensures Outside({x, y, r, q}, s)
  {
  }

  lemma SeparateRoots(p: Path, l: Tree, x: nat, y: nat, rl: Tree, rr: Tree)
    requires Separate(p, l, x, y, rl, rr)
    ensures Apart(p, l, x, y, rl, rr)
    ensures x != Root(rl) && y != Root(rl) && x != Parent(p) && y != Parent(p)
    ensures Parent(p) != Nil ==> Parent(p) != Root(rl)
  {
    if p != Top {
      assert Parent(p) in PathIds(p);
    }
    if rl.Br? {
      assert rl.id in Ids(rl);
    }
    if p.RightOf? && p.sib.Br? {
      assert p.sib.id in PathIds(p);
    }
    OutsideOf(x, y, Root(rl), Parent(p), Ids(l));
    OutsideOf(x, y, Root(rl), Parent(p), Ids(rr));
    if rl.Br? {
      OutsideOf(x, y, Root(rl), Parent(p), Ids(rl.left));
      OutsideOf(x, y, Root(rl), Parent(p), Ids(rl.right));
    }
    OutsideOf(x, y, Root(rl), Parent(p), PathIds(p) - {Parent(p)});
  }
}

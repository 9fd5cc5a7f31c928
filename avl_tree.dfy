/** The AVL tree of avltree.js as a class over a node arena.

    `AvlTree.nodes` is the arena and `AvlTree.root` the root handle; the ghost `shape`
    records which shape the links lay out. `Valid()` is the invariant every public
    operation keeps: the links lay out a balanced shape without repeated handles, every
    node's `height` and `weight` are right, and the in-order values are sorted by `lt`.
    `Values()` is the in-order sequence of values, the abstract contents. */
module AvlTrees {
  import opened Common
  import opened AvlShapes
  import opened AvlArena
  import opened AvlRebalance
  import opened SortedSeqs

  // ---------------------------------------------------------------------------
  // Comparators derived from a less-than relation (avltree.js:53-86)
  // ---------------------------------------------------------------------------

  /** `cmp_lt`, the default less-than of the tree: `<` on its values (here integers). */
  function DefaultLt(lhs: int, rhs: int): bool { lhs < rhs }

  /** `cmp_gt_gen`: greater-than derived from less-than. */
  function GtOf<T>(lt: (T, T) -> bool, lhs: T, rhs: T): bool { lt(rhs, lhs) }

  /** `cmp_eq_gen`: equality derived as "neither is less than the other". */
  function EqOf<T>(lt: (T, T) -> bool, lhs: T, rhs: T): bool { !lt(lhs, rhs) && !lt(rhs, lhs) }

  /** `cmp_lt_eq_gen`: less-or-equal derived from less-than and the derived equality. */
  function LtEqOf<T>(lt: (T, T) -> bool, lhs: T, rhs: T): bool { lt(lhs, rhs) || EqOf(lt, rhs, lhs) }

  /** `cmp_gt_eq_gen`: greater-or-equal derived as "not less than". */
  function GtEqOf<T>(lt: (T, T) -> bool, lhs: T, rhs: T): bool { !lt(lhs, rhs) }

  /** Under a strict weak order the derived relations are the expected ones: equality is an
      equivalence, less-or-equal is "not greater", and greater-or-equal is less-or-equal flipped. */
  lemma DerivedComparators<T(!new)>(lt: (T, T) -> bool, a: T, b: T, c: T)
    requires StrictWeakOrder(lt)
    ensures EqOf(lt, a, a)
    ensures EqOf(lt, a, b) == EqOf(lt, b, a)
    ensures EqOf(lt, a, b) && EqOf(lt, b, c) ==> EqOf(lt, a, c)
    ensures LtEqOf(lt, a, b) == !GtOf(lt, a, b)
    ensures GtEqOf(lt, a, b) == LtEqOf(lt, b, a)
    ensures lt(a, b) ==> !GtEqOf(lt, a, b) && !LtEqOf(lt, b, a)
  {
  }

  // ---------------------------------------------------------------------------
  // Specifications on sorted sequences
  // ---------------------------------------------------------------------------

  /** `v` inserted after every element not greater than it (after its equals). */
  function InsertSorted<T>(lt: (T, T) -> bool, s: seq<T>, v: T): seq<T> {
    var k := UpperIdx(lt, s, v);
    s[..k] + [v] + s[k..]
  }

  /** The index of the first element equal to `v` for which `pred` holds. */
  function FirstMatch<T>(lt: (T, T) -> bool, s: seq<T>, v: T, pred: T -> bool): (r: Option<nat>)
    ensures r.Some? ==> r.value < |s| && EqOf(lt, s[r.value], v) && pred(s[r.value])
    ensures r.Some? ==> forall k :: 0 <= k < r.value ==> !(EqOf(lt, s[k], v) && pred(s[k]))
    ensures r.None? ==> forall k :: 0 <= k < |s| ==> !(EqOf(lt, s[k], v) && pred(s[k]))
  {
    if s == [] then None
    else if EqOf(lt, s[0], v) && pred(s[0]) then Some(0)
    else match FirstMatch(lt, s[1..], v, pred)
      case None => None
      case Some(k) => Some(k + 1)
  }

  /** Inserting after the equals keeps a sequence sorted and adds exactly `v`. */
  lemma InsertSortedSorted<T(!new)>(lt: (T, T) -> bool, s: seq<T>, v: T)
    requires StrictWeakOrder(lt) && Sorted(lt, s)
    ensures Sorted(lt, InsertSorted(lt, s, v))
    ensures multiset(InsertSorted(lt, s, v)) == multiset(s) + multiset{v}
    ensures |InsertSorted(lt, s, v)| == |s| + 1
  {
    var k := UpperIdx(lt, s, v);
    UpperIdxSpec(lt, s, v);
    SortedInsertAt(lt, s, k, v);
    assert s == s[..k] + s[k..];
  }

  /** The node `remove` deletes, found on the in-order values as written: from the lower
      bound (when it is equal to `v`), skip equal values that fail `pred`, then delete the
      node reached whenever `pred` holds for it, equal to `v` or not (avltree.js:145-163). */
  function RemoveTargetAsWritten<T>(lt: (T, T) -> bool, s: seq<T>, v: T, pred: T -> bool): Option<nat> {
    var lb := LowerIdx(lt, s, v);
    if lb < |s| && EqOf(lt, s[lb], v) then
      var i := SkipEqualFailing(lt, s, v, pred, lb);
      if i < |s| && pred(s[i]) then Some(i) else None
    else None
  }

  /** The loop of avltree.js:153-155 on in-order positions. */
  function SkipEqualFailing<T>(lt: (T, T) -> bool, s: seq<T>, v: T, pred: T -> bool, i: nat): (j: nat)
    requires i <= |s|
    ensures i <= j <= |s|
    decreases |s| - i
  {
    if i < |s| && EqOf(lt, s[i], v) && !pred(s[i]) then SkipEqualFailing(lt, s, v, pred, i + 1) else i
  }

  /** As written, `remove(1, x => x == 2)` on the tree holding 1 and 2 deletes 2, which is
      not equal to 1. */
  lemma RemoveAsWrittenDeletesUnequal()
    ensures var s := [1, 2]; var pred := (x: int) => x == 2;
      RemoveTargetAsWritten(DefaultLt, s, 1, pred) == Some(1) && !EqOf(DefaultLt, s[1], 1)
  {
    var s := [1, 2];
    var pred := (x: int) => x == 2;
    assert LowerIdx(DefaultLt, s, 1) == 0;
    assert SkipEqualFailing(DefaultLt, s, 1, pred, 1) == 1;
    assert SkipEqualFailing(DefaultLt, s, 1, pred, 0) == 1;
  }

  /** The scan of `remove`, with the equality check the deletion evidently intended, stops at
      the first equal value satisfying `pred` in a sorted sequence. */
  lemma {:induction false} ScanFindsFirstMatch<T(!new)>(lt: (T, T) -> bool, s: seq<T>, v: T, pred: T -> bool, i: nat)
    requires StrictWeakOrder(lt) && Sorted(lt, s)
    requires LowerIdx(lt, s, v) <= i <= |s|
    requires forall k :: LowerIdx(lt, s, v) <= k < i ==> EqOf(lt, s[k], v) && !pred(s[k])
    requires i < |s| ==> !EqOf(lt, s[i], v) || pred(s[i])
    ensures FirstMatch(lt, s, v, pred) == if i < |s| && EqOf(lt, s[i], v) && pred(s[i]) then Some(i) else None
  {
    LowerIdxSpec(lt, s, v);
    if i < |s| && !EqOf(lt, s[i], v) {
      SuffixGt(lt, s, i, v);
    }
  }

  // ---------------------------------------------------------------------------
  // Pure reads of the arena
  // ---------------------------------------------------------------------------

  /** `_forEach` (avltree.js:250-256): the values `proc` is called with, in call order. */
  function Walk<T>(a: seq<Node<T>>, h: int, ghost t: Tree, ghost p: int): (s: seq<T>)
    requires Laid(a, t, p) && h == Root(t)
    ensures AllIn(a, InOrder(t)) && s == Vals(a, InOrder(t))
    decreases t
  {
    LaidAllIn(a, t, p);
    if h == Nil then []
    else
      var s := Walk(a, a[h].left, t.left, h) + [a[h].value] + Walk(a, a[h].right, t.right, h);
      ValsConcat(a, InOrder(t.left) + [h], InOrder(t.right));
      ValsConcat(a, InOrder(t.left), [h]);
      s
  }

  /** `_find_by_rank` (avltree.js:258-274), with the null dereference it performs on an empty
      subtree as an error. */
  function RankFrom<T>(a: seq<Node<T>>, h: int, rank: int, ghost t: Tree, ghost p: int): (r: Result<Option<T>>)
    requires Laid(a, t, p) && h == Root(t)
    ensures t.Leaf? || rank < 1 ==> r.Err?
    ensures t.Br? && rank > Size(t) ==> r == Ok(None)
    ensures t.Br? && 1 <= rank <= Size(t) ==> AllIn(a, InOrder(t)) && r == Ok(Some(Vals(a, InOrder(t))[rank - 1]))
    decreases t
  {
    LaidAllIn(a, t, p);
    if h == Nil then Err("node is null")
    else if rank > a[h].weight then Ok(None)
    else
      LaidMeta(a, t.left, h);
      var lw := if a[h].left != Nil then a[a[h].left].weight else 0;
      if rank <= lw then RankFrom(a, a[h].left, rank, t.left, h)
      else if rank > lw + 1 then RankFrom(a, a[h].right, rank - lw - 1, t.right, h)
      else Ok(Some(a[h].value))
  }

  // ---------------------------------------------------------------------------
  // The tree
  // ---------------------------------------------------------------------------

  /** The node `insert` creates for the first value of an empty tree, as written
      (avltree.js:116): height 0, and no `_update_metadata` runs on it afterwards. */
  function FirstRootAsWritten<T>(v: T): Node<T> {
    Node(v, Nil, Nil, Nil, 0, 1)
  }

  /** As written, the lone root made by the first `insert` records height 0, while
      `_update_metadata` gives the same node height 1: `getHeight` of a one-value tree is 0
      after a single insert and 1 when the value remains after a removal. */
  lemma FirstRootHeightAsWritten<T>(v: T)
    ensures var a := [FirstRootAsWritten(v)];
      a[0].height == 0 && UpdateMetadata(a, 0)[0].height == 1 && !Laid(a, Br(Leaf, 0, Leaf), Nil)
  {
  }

  /** An arena laying out a shape whose handles are distinct and whose values are in order. */
  ghost predicate Ordered<T(!new)>(lt: (T, T) -> bool, a: seq<Node<T>>, s: Tree) {
    && StrictWeakOrder(lt)
    && Distinct(s)
    && Laid(a, s, Nil)
    && AllIn(a, InOrder(s))
    && Sorted(lt, Vals(a, InOrder(s)))
  }

  class AvlTree<T(!new)> {
    /** The less-than the tree orders by (`cmp_lt`). */
    const lt: (T, T) -> bool
    var nodes: seq<Node<T>>
    var root: int
    ghost var shape: Tree

    ghost predicate Valid()
      reads this
    {
      Ordered(lt, nodes, shape) && Balanced(shape) && root == Root(shape)
    }

    /** The in-order sequence of stored values. */
    ghost function Values(): seq<T>
      reads this
      requires Valid()
    {
      Vals(nodes, InOrder(shape))
    }

    /** `new AVLTree(cmp_lt)` (avltree.js:88-98): an empty tree. */
    constructor(lt: (T, T) -> bool)
      requires StrictWeakOrder(lt)
      ensures Valid() && Values() == [] && this.lt == lt
    {
      this.lt := lt;
      nodes := [];
      root := Nil;
      shape := Leaf;
    }

    /** `getHeight` (avltree.js:544-546). */
    function GetHeight(): (h: int)
      reads this
      requires Valid()
      ensures h == Height(shape)
    {
      if root != Nil then nodes[root].height else 0
    }

    /** `getLength` (avltree.js:548-550): the number of stored values. */
    function GetLength(): (n: int)
      reads this
      requires Valid()
      ensures n == |Values()|
    {
      if root != Nil then nodes[root].weight else 0
    }

    /** `find_by_rank` (avltree.js:202-204): the `rank`-th value in order (counting from 1),
        `None` beyond the last value, and an error on an empty tree or a rank below 1. */
    function FindByRank(rank: int): (r: Result<Option<T>>)
      reads this
      requires Valid()
      ensures |Values()| == 0 || rank < 1 ==> r.Err?
      ensures |Values()| > 0 && rank > |Values()| ==> r == Ok(None)
      ensures 1 <= rank <= |Values()| ==> r == Ok(Some(Values()[rank - 1]))
    {
      RankFrom(nodes, root, rank, shape, Nil)
    }

    /** `forEach` (avltree.js:246-248): the values passed to `proc`, in order. */
    function ForEach(): (s: seq<T>)
      reads this
      requires Valid()
      ensures s == Values()
    {
      Walk(nodes, root, shape, Nil)
    }

    /** `clear` (avltree.js:206-208). */
    method Clear()
      requires Valid()
      modifies this
      ensures Valid() && Values() == [] && nodes == old(nodes)
    {
      root := Nil;
      shape := Leaf;
    }

    /** `lower_bound` (avltree.js:170-184): the first node whose value is not less than `v`. */
    method LowerBound(v: T) returns (ret: int)
      requires Valid()
      ensures var k := LowerIdx(lt, Values(), v);
        ret == if k < |Values()| then InOrder(shape)[k] else Nil
    {
      ret := LowerBoundIn(lt, nodes, root, shape, v);
    }

    static method LowerBoundIn(lt: (T, T) -> bool, a: seq<Node<T>>, root: int, ghost sh: Tree, v: T)
      returns (ret: int)
      requires Ordered(lt, a, sh) && root == Root(sh)
      ensures var k := LowerIdx(lt, Vals(a, InOrder(sh)), v);
        ret == if k < |InOrder(sh)| then InOrder(sh)[k] else Nil
    {
      ghost var H, S := InOrder(sh), Vals(a, InOrder(sh));
      var node := root;
      ret := Nil;
      ghost var q, sub := Top, sh;
      ghost var e := |S|;
      while node != Nil
        invariant Plug(q, sub) == sh && node == Root(sub) && Laid(a, sub, Parent(q))
        invariant |Before(q)| + Size(sub) <= |S|
        invariant forall k :: 0 <= k < |Before(q)| ==> lt(S[k], v)
        invariant forall k :: |Before(q)| + Size(sub) <= k < |S| ==> !lt(S[k], v)
        invariant e == |Before(q)| + Size(sub) && ret == if e < |S| then H[e] else Nil
        decreases sub
      {
        var m := DescentStep(lt, a, sh, q, sub);
        if !lt(a[node].value, v) {
          SuffixNotLt(lt, S, m, v);
          ret, e := node, m;
          node := a[node].left;
          q, sub := LeftOf(q, sub.id, sub.right), sub.left;
        } else {
          PrefixLt(lt, S, m, v);
          node := a[node].right;
          q, sub := RightOf(q, sub.left, sub.id), sub.right;
        }
      }
      LowerIdxSplit(lt, S, v, |Before(q)|);
    }

    /** `upper_bound` (avltree.js:186-200): the first node whose value is greater than `v`. */
    method UpperBound(v: T) returns (ret: int)
      requires Valid()
      ensures var k := UpperIdx(lt, Values(), v);
        ret == if k < |Values()| then InOrder(shape)[k] else Nil
    {
      ret := UpperBoundIn(lt, nodes, root, shape, v);
    }

    static method UpperBoundIn(lt: (T, T) -> bool, a: seq<Node<T>>, root: int, ghost sh: Tree, v: T)
      returns (ret: int)
      requires Ordered(lt, a, sh) && root == Root(sh)
      ensures var k := UpperIdx(lt, Vals(a, InOrder(sh)), v);
        ret == if k < |InOrder(sh)| then InOrder(sh)[k] else Nil
    {
      ghost var H, S := InOrder(sh), Vals(a, InOrder(sh));
      var node := root;
      ret := Nil;
      ghost var q, sub := Top, sh;
      ghost var e := |S|;
      while node != Nil
        invariant Plug(q, sub) == sh && node == Root(sub) && Laid(a, sub, Parent(q))
        invariant |Before(q)| + Size(sub) <= |S|
        invariant forall k :: 0 <= k < |Before(q)| ==> !lt(v, S[k])
        invariant forall k :: |Before(q)| + Size(sub) <= k < |S| ==> lt(v, S[k])
        invariant e == |Before(q)| + Size(sub) && ret == if e < |S| then H[e] else Nil
        decreases sub
      {
        var m := DescentStep(lt, a, sh, q, sub);
        if lt(v, a[node].value) {
          SuffixGt(lt, S, m, v);
          ret, e := node, m;
          node := a[node].left;
          q, sub := LeftOf(q, sub.id, sub.right), sub.left;
        } else {
          PrefixNotGt(lt, S, m, v);
          node := a[node].right;
          q, sub := RightOf(q, sub.left, sub.id), sub.right;
        }
      }
      UpperIdxSplit(lt, S, v, |Before(q)|);
    }

    /** The position of a subtree's root in the in-order sequence, and the facts about it a
        descent step needs. */
    static lemma DescentStep(lt: (T, T) -> bool, a: seq<Node<T>>, sh: Tree, q: Path, sub: Tree) returns (m: nat)
      requires Ordered(lt, a, sh) && Plug(q, sub) == sh && sub.Br?
      ensures m == |Before(q)| + Size(sub.left) && m < |InOrder(sh)|
      ensures InOrder(sh)[m] == sub.id && Vals(a, InOrder(sh))[m] == a[sub.id].value
      ensures |Before(LeftOf(q, sub.id, sub.right))| + Size(sub.left) == m
      ensures |Before(RightOf(q, sub.left, sub.id))| == m + 1
      ensures |Before(q)| + Size(sub) == m + 1 + Size(sub.right)
    {
      m := |Before(q)| + Size(sub.left);
      PlugIndex(q, sub, sh, m);
    }

    /** `_find_node` (avltree.js:430-437): the lower bound if it is equal to `v`, else `Nil`. */
    method FindNode(v: T) returns (r: int)
      requires Valid()
      ensures var k := LowerIdx(lt, Values(), v);
        r == if k < |Values()| && EqOf(lt, Values()[k], v) then InOrder(shape)[k] else Nil
      ensures r == Nil <==> forall j :: 0 <= j < |Values()| ==> !EqOf(lt, Values()[j], v)
    {
      var node := LowerBound(v);
      ghost var k := LowerIdx(lt, Values(), v);
      LowerIdxSpec(lt, Values(), v);
      if node != Nil {
        assert InOrder(shape)[k] in Ids(shape) by { InOrderIds(shape); }
        LaidBelow(nodes, shape, Nil);
      }
      if node != Nil && EqOf(lt, nodes[node].value, v) {
        r := node;
        assert r != Nil by { InOrderIds(shape); }
      } else {
        r := Nil;
        if k < |Values()| {
          SuffixGt(lt, Values(), k, v);
        }
      }
    }

    /** `find` (avltree.js:165-168). */
    method Find(v: T) returns (r: int)
      requires Valid()
      ensures r == Nil <==> forall j :: 0 <= j < |Values()| ==> !EqOf(lt, Values()[j], v)
      ensures r != Nil ==> exists j :: 0 <= j < |Values()| && InOrder(shape)[j] == r && EqOf(lt, Values()[j], v)
    {
      r := FindNode(v);
    }
  
    /** Where handle `h` sits: the path to it and the subtree it heads, and the links there. */
    static lemma LocateIn(a: seq<Node<T>>, s: Tree, h: nat, i: nat) returns (p: Path, t: Tree)
      requires Distinct(s) && Laid(a, s, Nil) && i < |InOrder(s)| && InOrder(s)[i] == h
      ensures t.Br? && t.id == h && Plug(p, t) == s && i == |Before(p)| + Size(t.left)
      ensures PathLaid(a, p, h) && Handle(a, Parent(p))
      ensures h < |a| && a[h].parent == Parent(p) && a[h].left == Root(t.left) && a[h].right == Root(t.right)
      ensures Laid(a, t.left, h) && Laid(a, t.right, h)
    {
      InOrderIds(s);
      var r := Focus(s, h, Top);
      p, t := r.0, r.1;
      LaidPlug(a, p, t);
      PathLaidHandle(a, p, h);
      PlugIndex(p, t, s, |Before(p)| + Size(t.left));
      assert i == |Before(p)| + Size(t.left) by { DistinctInOrder(s); }
    }

    /** The first and last handles of a laid-out subtree in in-order, read off its links. */
    static lemma EndsOfInOrder(a: seq<Node<T>>, s: Tree, p: int)
      requires s.Br? && Laid(a, s, p)
      ensures InOrder(s)[0] == if a[s.id].left == Nil then s.id else InOrder(s.left)[0]
      ensures a[s.id].left != Nil ==> s.left.Br? && Laid(a, s.left, s.id) && a[s.id].left == s.left.id
      ensures InOrder(s)[|InOrder(s)| - 1] ==
        if a[s.id].right == Nil then s.id else InOrder(s.right)[|InOrder(s.right)| - 1]
      ensures a[s.id].right != Nil ==> s.right.Br? && Laid(a, s.right, s.id) && a[s.id].right == s.right.id
    {
    }

    /** `successor` (avltree.js:332-347): the node after `h` in in-order, `Nil` after the last. */
    method Successor(h: int, ghost i: nat) returns (r: int)
      requires Valid() && i < |InOrder(shape)| && h == InOrder(shape)[i]
      ensures r == if i + 1 < |InOrder(shape)| then InOrder(shape)[i + 1] else Nil
    {
      r := SuccessorIn(nodes, h, shape, i);
    }

    static method SuccessorIn(a: seq<Node<T>>, h: int, ghost s: Tree, ghost i: nat) returns (r: int)
      requires Distinct(s) && Laid(a, s, Nil) && i < |InOrder(s)| && h == InOrder(s)[i]
      ensures r == if i + 1 < |InOrder(s)| then InOrder(s)[i + 1] else Nil
    {
      ghost var p, t := LocateIn(a, s, h, i);
      if a[h].right != Nil {
        assert t.right.Br?;
        r := Leftmost(a, a[h].right, t.right, h);
        PlugIndex(p, t, s, i);
      } else {
        assert t.right == Leaf && i + 1 == |Before(p)| + Size(t);
        r := ClimbRight(a, h, s, p, t);
      }
    }

    /** The descent of `successor` into a right subtree: its leftmost node. */
    static method Leftmost(a: seq<Node<T>>, h: int, ghost s: Tree, ghost sp: int) returns (r: int)
      requires s.Br? && h == s.id && Laid(a, s, sp)
      ensures r == InOrder(s)[0]
    {
      var node := h;
      ghost var u, up := s, sp;
      while a[node].left != Nil
        invariant u.Br? && node == u.id && Laid(a, u, up) && InOrder(u)[0] == InOrder(s)[0]
        decreases u
      {
        EndsOfInOrder(a, u, up);
        node := a[node].left;
        u, up := u.left, u.id;
      }
      EndsOfInOrder(a, u, up);
      r := node;
    }

    /** The climb of `successor`: up while the node is a right child, then to its parent. */
    static method ClimbRight(a: seq<Node<T>>, h: int, ghost sh: Tree, ghost p: Path, ghost t: Tree)
      returns (r: int)
      requires Distinct(sh) && sh == Plug(p, t) && t.Br? && h == t.id && h < |a|
      requires a[h].parent == Parent(p) && PathLaid(a, p, h) && Handle(a, Parent(p))
      ensures var n := |Before(p)| + Size(t);
        n <= |InOrder(sh)| && r == if n < |InOrder(sh)| then InOrder(sh)[n] else Nil
    {
      var node := h;
      ghost var q, w := p, t;
      while a[node].parent != Nil && a[a[node].parent].right == node
        invariant sh == Plug(q, w) && w.Br? && node == w.id
        invariant node < |a| && a[node].parent == Parent(q) && PathLaid(a, q, node)
        invariant Handle(a, Parent(q))
        invariant |Before(q)| + Size(w) == |Before(p)| + Size(t)
        decreases PathLen(q)
      {
        AscendRight(a, sh, q, w);
        node := a[node].parent;
        q, w := q.up, Br(q.sib, q.id, w);
      }
      AscendRightExit(a, sh, q, w);
      r := a[node].parent;
    }

    /** One step of the climb in `successor`: a right child's parent is above it on the path. */
    static lemma AscendRight(a: seq<Node<T>>, sh: Tree, q: Path, w: Tree)
      requires Distinct(sh) && sh == Plug(q, w) && w.Br? && PathLaid(a, q, w.id)
      requires Parent(q) != Nil && a[Parent(q)].right == w.id
      ensures q.RightOf? && |Before(q)| == |Before(q.up)| + Size(q.sib) + 1
      ensures a[q.id].parent == Parent(q.up) && PathLaid(a, q.up, q.id)
      ensures Handle(a, Parent(q.up))
    {
      PlugDistinct(q, w);
    }

    /** Where the climb in `successor` stops, the parent is the next node in in-order. */
    static lemma AscendRightExit(a: seq<Node<T>>, sh: Tree, q: Path, w: Tree)
      requires Distinct(sh) && sh == Plug(q, w) && w.Br? && PathLaid(a, q, w.id)
      requires !(Parent(q) != Nil && a[Parent(q)].right == w.id)
      ensures var n := |Before(q)| + Size(w);
        n <= |InOrder(sh)| && Parent(q) == if n < |InOrder(sh)| then InOrder(sh)[n] else Nil
    {
      PlugInOrder(q, w);
      if q.RightOf? {
        assert false;
      } else if q.LeftOf? {
        AfterFirst(q, w);
      }
    }

    /** `predecessor` (avltree.js:349-364): the node before `h` in in-order, `Nil` before the first. */
    method Predecessor(h: int, ghost i: nat) returns (r: int)
      requires Valid() && i < |InOrder(shape)| && h == InOrder(shape)[i]
      ensures r == if i > 0 then InOrder(shape)[i - 1] else Nil
    {
      r := PredecessorIn(nodes, h, shape, i);
    }

    static method PredecessorIn(a: seq<Node<T>>, h: int, ghost s: Tree, ghost i: nat) returns (r: int)
      requires Distinct(s) && Laid(a, s, Nil) && i < |InOrder(s)| && h == InOrder(s)[i]
      ensures r == if i > 0 then InOrder(s)[i - 1] else Nil
    {
      ghost var p, t := LocateIn(a, s, h, i);
      if a[h].left != Nil {
        assert t.left.Br?;
        r := Rightmost(a, a[h].left, t.left, h);
        PlugIndex(p, t, s, i);
      } else {
        assert t.left == Leaf && i == |Before(p)|;
        r := ClimbLeft(a, h, s, p, t);
      }
    }

    /** The descent of `predecessor` into a left subtree: its rightmost node. */
    static method Rightmost(a: seq<Node<T>>, h: int, ghost s: Tree, ghost sp: int) returns (r: int)
      requires s.Br? && h == s.id && Laid(a, s, sp)
      ensures r == InOrder(s)[|InOrder(s)| - 1]
    {
      var node := h;
      ghost var u, up := s, sp;
      while a[node].right != Nil
        invariant u.Br? && node == u.id && Laid(a, u, up)
        invariant InOrder(u)[|InOrder(u)| - 1] == InOrder(s)[|InOrder(s)| - 1]
        decreases u
      {
        EndsOfInOrder(a, u, up);
        node := a[node].right;
        u, up := u.right, u.id;
      }
      EndsOfInOrder(a, u, up);
      r := node;
    }

    /** The climb of `predecessor`: up while the node is a left child, then to its parent. */
    static method ClimbLeft(a: seq<Node<T>>, h: int, ghost sh: Tree, ghost p: Path, ghost t: Tree)
      returns (r: int)
      requires Distinct(sh) && sh == Plug(p, t) && t.Br? && h == t.id && h < |a|
      requires a[h].parent == Parent(p) && PathLaid(a, p, h) && Handle(a, Parent(p))
      ensures var n := |Before(p)|;
        n <= |InOrder(sh)| && r == if n > 0 then InOrder(sh)[n - 1] else Nil
    {
      var node := h;
      ghost var q, w := p, t;
      while a[node].parent != Nil && a[a[node].parent].left == node
        invariant sh == Plug(q, w) && w.Br? && node == w.id
        invariant node < |a| && a[node].parent == Parent(q) && PathLaid(a, q, node)
        invariant Handle(a, Parent(q))
        invariant |Before(q)| == |Before(p)|
        decreases PathLen(q)
      {
        AscendLeft(a, sh, q, w);
        node := a[node].parent;
        q, w := q.up, Br(w, q.id, q.sib);
      }
      AscendLeftExit(a, sh, q, w);
      r := a[node].parent;
    }

    /** One step of the climb in `predecessor`: a left child's parent is above it on the path. */
    static lemma AscendLeft(a: seq<Node<T>>, sh: Tree, q: Path, w: Tree)
      requires Distinct(sh) && sh == Plug(q, w) && w.Br? && PathLaid(a, q, w.id)
      requires Parent(q) != Nil && a[Parent(q)].left == w.id
      ensures q.LeftOf? && Before(q) == Before(q.up)
      ensures a[q.id].parent == Parent(q.up) && PathLaid(a, q.up, q.id)
      ensures Handle(a, Parent(q.up))
    {
      PlugDistinct(q, w);
    }

    /** Where the climb in `predecessor` stops, the parent is the previous node in in-order. */
    static lemma AscendLeftExit(a: seq<Node<T>>, sh: Tree, q: Path, w: Tree)
      requires Distinct(sh) && sh == Plug(q, w) && w.Br? && PathLaid(a, q, w.id)
      requires !(Parent(q) != Nil && a[Parent(q)].left == w.id)
      ensures var n := |Before(q)|;
        n <= |InOrder(sh)| && Parent(q) == if n > 0 then InOrder(sh)[n - 1] else Nil
    {
      PlugInOrder(q, w);
      if q.LeftOf? {
        assert false;
      } else if q.RightOf? {
        BeforeLast(q, w);
      }
    }

    /** `insert` (avltree.js:114-143): `v` joins the tree after every value not greater
        than it; the tree stays balanced and ordered. */
    method Insert(v: T)
      requires Valid()
      modifies this
      ensures Valid() && Values() == InsertSorted(lt, old(Values()), v)
    {
      nodes, root, shape := InsertIn(lt, nodes, root, shape, v);
    }

    /** `insert` on an arena. The first value becomes the root with height 1 (the corrected
        form of avltree.js:116, which records 0); any later value hangs as a new leaf below
        the node the descent ends at and the tree is rebalanced from it up to the root. */
    static method InsertIn(lt: (T, T) -> bool, a: seq<Node<T>>, root: int, ghost sh: Tree, v: T)
      returns (b: seq<Node<T>>, root': int, ghost sh': Tree)
      requires Ordered(lt, a, sh) && Balanced(sh) && root == Root(sh)
      ensures Ordered(lt, b, sh') && Balanced(sh') && root' == Root(sh')
      ensures Vals(b, InOrder(sh')) == InsertSorted(lt, Vals(a, InOrder(sh)), v)
    {
      if root == Nil {
        b := a + [Node(v, Nil, Nil, Nil, 1, 1)];
        root', sh' := |a|, Br(Leaf, |a|, Leaf);
        assert Vals(b, InOrder(sh'))[0] == v;
      } else {
        var prev;
        ghost var q;
        prev, q := InsertDescend(lt, a, root, sh, v);
        var b0, nn := AttachLeaf(lt, a, prev, v, q, sh);
        InsertClimbStart(b0, root, nn, q, sh);
        b, root', sh' := RebalanceToRoot(b0, root, nn, q, Leaf, Leaf, 0, Plug(q, Br(Leaf, nn, Leaf)));
        InsertValues(lt, a, b0, b, q, sh, nn, v, sh');
      }
    }

    /** The descent of `insert` (avltree.js:119-129): it ends at the leaf position after
        every value not greater than `v` and before every greater one, below `prev`. */
    static method InsertDescend(lt: (T, T) -> bool, a: seq<Node<T>>, root: int, ghost sh: Tree, v: T)
      returns (prev: int, ghost q: Path)
      requires Ordered(lt, a, sh) && root == Root(sh) && root != Nil
      ensures q != Top && Plug(q, Leaf) == sh && prev == Parent(q) && 0 <= prev < |a|
      ensures PathLaid(a, q, Nil)
      ensures UpperIdx(lt, Vals(a, InOrder(sh)), v) == |Before(q)|
      ensures q.LeftOf? <==> lt(v, a[prev].value)
    {
      ghost var S := Vals(a, InOrder(sh));
      var node := root;
      prev := Nil;
      q := Top;
      ghost var sub := sh;
      while node != Nil
        invariant Plug(q, sub) == sh && node == Root(sub) && Laid(a, sub, Parent(q))
        invariant prev == Parent(q) && (q == Top ==> sub == sh)
        invariant q != Top ==> 0 <= prev < |a| && (q.LeftOf? <==> lt(v, a[prev].value))
        invariant |Before(q)| + Size(sub) <= |S|
        invariant forall k :: 0 <= k < |Before(q)| ==> !lt(v, S[k])
        invariant forall k :: |Before(q)| + Size(sub) <= k < |S| ==> lt(v, S[k])
        decreases sub
      {
        var m := DescentStep(lt, a, sh, q, sub);
        prev := node;
        if lt(v, a[node].value) {
          SuffixGt(lt, S, m, v);
          node := a[node].left;
          q, sub := LeftOf(q, sub.id, sub.right), sub.left;
        } else {
          PrefixNotGt(lt, S, m, v);
          node := a[node].right;
          q, sub := RightOf(q, sub.left, sub.id), sub.right;
        }
      }
      UpperIdxSplit(lt, S, v, |Before(q)|);
      LaidPlug(a, q, sub);
    }

    /** The new node of `insert` (avltree.js:131-139), created with height 0 and weight 1,
        hung at the leaf position `q`: to the left of `prev` when `v` is less than its
        value, else to the right. */
    static method AttachLeaf(lt: (T, T) -> bool, a: seq<Node<T>>, prev: int, v: T, ghost q: Path, ghost sh: Tree)
      returns (b: seq<Node<T>>, nn: nat)
      requires Distinct(sh) && Laid(a, sh, Nil) && q != Top && Plug(q, Leaf) == sh
      requires prev == Parent(q) && 0 <= prev < |a| && PathLaid(a, q, Nil)
      requires q.LeftOf? <==> lt(v, a[prev].value)
      ensures nn == |a| && |b| == |a| + 1 && b[nn].value == v
      ensures forall k :: 0 <= k < |a| ==> b[k].value == a[k].value
      ensures Hung(b, q, Leaf, nn, Leaf) && Distinct(Plug(q, Br(Leaf, nn, Leaf)))
    {
      nn := |a|;
      var a' := a + [Node(v, prev, Nil, Nil, 0, 1)];
      if lt(v, a'[prev].value) {
        b := a'[prev := a'[prev].(left := nn)];
      } else {
        b := a'[prev := a'[prev].(right := nn)];
      }
      PlugDistinct(q, Leaf);
      PathLaidFrame(a, a', q, Nil);
      PathRetarget(a', b, q, Nil, nn);
      LaidBelow(a, sh, Nil);
      PlugIds(q, Leaf);
      PlugDistinct(q, Br(Leaf, nn, Leaf));
    }

    /** A new leaf below a balanced tree starts the climb of `_rebalance_to_root`. */
    static lemma InsertClimbStart(b: seq<Node<T>>, root: int, nn: nat, q: Path, sh: Tree)
      requires Balanced(sh) && Plug(q, Leaf) == sh && q != Top && root == Root(sh)
      requires Hung(b, q, Leaf, nn, Leaf) && Distinct(Plug(q, Br(Leaf, nn, Leaf)))
      ensures Climbing(b, root, nn, q, Leaf, Leaf, 0, Plug(q, Br(Leaf, nn, Leaf)))
    {
      PlugBalanced(q, Leaf);
      PlugRoot(q, Leaf, Br(Leaf, nn, Leaf));
      assert RebalanceShape(Br(Leaf, nn, Leaf)) == Br(Leaf, nn, Leaf);
    }

    /** After the climb the in-order values are the old ones with `v` at its upper bound. */
    static lemma InsertValues(lt: (T, T) -> bool, a: seq<Node<T>>, b0: seq<Node<T>>, b: seq<Node<T>>,
                              q: Path, sh: Tree, nn: nat, v: T, w: Tree)
      requires Ordered(lt, a, sh) && Plug(q, Leaf) == sh
      requires UpperIdx(lt, Vals(a, InOrder(sh)), v) == |Before(q)|
      requires nn == |a| && |b0| == |a| + 1 && b0[nn].value == v
      requires forall k :: 0 <= k < |a| ==> b0[k].value == a[k].value
      requires SameValues(b0, b) && Laid(b, w, Nil) && InOrder(w) == InOrder(Plug(q, Br(Leaf, nn, Leaf)))
      ensures AllIn(b, InOrder(w)) && Vals(b, InOrder(w)) == InsertSorted(lt, Vals(a, InOrder(sh)), v)
      ensures Sorted(lt, Vals(b, InOrder(w)))
    {
      LeafValues(a, b, q, nn, v);
      var S, k := Vals(a, InOrder(sh)), |Before(q)|;
      assert S[..k] == Vals(a, Before(q)) && S[k..] == Vals(a, After(q));
      InsertSortedSorted(lt, S, v);
    }

    /** The values around a new leaf `nn` holding `v`, in an arena that keeps `a`'s values. */
    static lemma LeafValues(a: seq<Node<T>>, b: seq<Node<T>>, q: Path, nn: nat, v: T)
      requires AllIn(a, InOrder(Plug(q, Leaf)))
      requires nn == |a| && |b| == |a| + 1 && b[nn].value == v
      requires forall k :: 0 <= k < |a| ==> b[k].value == a[k].value
      ensures AllIn(b, InOrder(Plug(q, Br(Leaf, nn, Leaf)))) && AllIn(a, Before(q)) && AllIn(a, After(q))
      ensures Vals(a, InOrder(Plug(q, Leaf))) == Vals(a, Before(q)) + Vals(a, After(q))
      ensures Vals(b, InOrder(Plug(q, Br(Leaf, nn, Leaf)))) == Vals(a, Before(q)) + [v] + Vals(a, After(q))
    {
      var B, A := Before(q), After(q);
      PlugLeafInOrder(q);
      PlugSingleInOrder(q, nn);
      AllInSplit(a, B, A);
      ValsConcat(a, B, A);
      ValsAgree(a, b, B);
      ValsAgree(a, b, A);
      ValsConcat(b, B, [nn]);
      ValsConcat(b, B + [nn], A);
    }

    /** `remove` (avltree.js:145-163), with the equality check its deletion evidently
        intends: from the first value equal to `v`, skip the equal values `pred` rejects and
        delete the first equal value it accepts; report whether one was deleted. */
    method Remove(v: T, pred: Option<T -> bool>) returns (removed: bool)
      requires Valid()
      modifies this
      ensures Valid()
      ensures var m := FirstMatch(lt, old(Values()), v, PredicateOrTrue(pred));
        && removed == m.Some?
        && Values() == if m.Some? then old(Values())[..m.value] + old(Values())[m.value + 1..] else old(Values())
    {
      var node := FindNode(v);
      if node == Nil {
        return false;
      }
      var p := PredicateOrTrue(pred);
      ghost var k;
      node, k := SkipRejected(lt, nodes, shape, node, LowerIdx(lt, Values(), v), v, p);
      ScanFindsFirstMatch(lt, Values(), v, p, k);
      if node != Nil && EqOf(lt, nodes[node].value, v) && p(nodes[node].value) {
        RemoveNode(node, k);
        removed := true;
      } else {
        removed := false;
      }
    }

    /** The loop of `remove` (avltree.js:153-155): from in-order position `lb`, step to the
        successor while the value there is equal to `v` and rejected by `p`. */
    static method SkipRejected(lt: (T, T) -> bool, a: seq<Node<T>>, ghost sh: Tree, h: int, ghost lb: nat, v: T, p: T -> bool)
      returns (r: int, ghost k: nat)
      requires Ordered(lt, a, sh) && lb <= |InOrder(sh)|
      requires h == if lb < |InOrder(sh)| then InOrder(sh)[lb] else Nil
      ensures lb <= k <= |InOrder(sh)| && r == if k < |InOrder(sh)| then InOrder(sh)[k] else Nil
      ensures forall j :: lb <= j < k ==> EqOf(lt, Vals(a, InOrder(sh))[j], v) && !p(Vals(a, InOrder(sh))[j])
      ensures k < |InOrder(sh)| ==> !EqOf(lt, Vals(a, InOrder(sh))[k], v) || p(Vals(a, InOrder(sh))[k])
    {
      ghost var H := InOrder(sh);
      r, k := h, lb;
      while r != Nil && EqOf(lt, a[r].value, v) && !p(a[r].value)
        invariant lb <= k <= |H| && r == if k < |H| then H[k] else Nil
        invariant forall j :: lb <= j < k ==> EqOf(lt, a[H[j]].value, v) && !p(a[H[j]].value)
        decreases |H| - k
      {
        r := SuccessorIn(a, r, sh, k);
        k := k + 1;
      }
      if k < |H| {
        assert r != Nil by { InOrderIds(sh); }
      }
    }

    // -------------------------------------------------------------------------
    // _remove
    // -------------------------------------------------------------------------

    /** `_remove` on the tree: the node at in-order position `i` leaves it. */
    method RemoveNode(h: int, ghost i: nat)
      requires Valid() && i < |InOrder(shape)| && InOrder(shape)[i] == h
      modifies this
      ensures Valid() && Values() == old(Values())[..i] + old(Values())[i + 1..]
    {
      nodes, root, shape := RemoveNodeIn(nodes, root, h, shape, i);
      SortedRemove(lt, old(Values()), i);
    }

    /** `_remove` (avltree.js:276-330) on an arena. A node with at most one child is replaced
        by that child; a node with two children takes the value of its successor, which has
        no left child and is removed in its place. The tree stays balanced, its in-order
        values lose exactly the one at position `i`, and when `h` has at most one child no
        stored value changes. */
    static method RemoveNodeIn(a: seq<Node<T>>, root: int, h: int, ghost sh: Tree, ghost i: nat)
      returns (b: seq<Node<T>>, root': int, ghost sh': Tree)
      requires Distinct(sh) && Laid(a, sh, Nil) && Balanced(sh) && root == Root(sh) && AllIn(a, InOrder(sh))
      requires i < |InOrder(sh)| && InOrder(sh)[i] == h
      ensures Laid(b, sh', Nil) && Distinct(sh') && Balanced(sh') && root' == Root(sh') && |b| == |a|
      ensures AllIn(b, InOrder(sh'))
      ensures Vals(b, InOrder(sh')) == Vals(a, InOrder(sh))[..i] + Vals(a, InOrder(sh))[i + 1..]
      ensures a[h].left == Nil || a[h].right == Nil ==>
        SameValues(a, b) && InOrder(sh') == InOrder(sh)[..i] + InOrder(sh)[i + 1..]
      decreases if a[h].left != Nil && a[h].right != Nil then 1 else 0
    {
      if a[h].left == Nil || a[h].right == Nil {
        b, root', sh' := Unlink(a, root, h, sh, i);
        ValsRemoveAt(a, b, InOrder(sh), InOrder(sh'), i);
      } else {
        SuccessorHasNoLeft(a, sh, h, i);
        var replacement := SuccessorIn(a, h, sh, i);
        var b0;
        b0, root', sh' := RemoveNodeIn(a, root, replacement, sh, i + 1);
        b := b0[h := b0[h].(value := b0[replacement].value)];
        ReplaceValue(a, b0, b, sh, sh', h, replacement, i);
      }
    }

    /** The first branch of `_remove` (avltree.js:281-318): the node `h`, which has at most
        one child, is replaced by that child, or by nothing when it is a leaf, and the tree
        is rebalanced from `h`'s parent up to the root (nothing to do when `h` was the
        root). No stored value changes. */
    static method Unlink(a: seq<Node<T>>, root: int, h: int, ghost sh: Tree, ghost i: nat)
      returns (b: seq<Node<T>>, root': int, ghost sh': Tree)
      requires Distinct(sh) && Laid(a, sh, Nil) && Balanced(sh) && root == Root(sh)
      requires i < |InOrder(sh)| && InOrder(sh)[i] == h && 0 <= h < |a|
      requires a[h].left == Nil || a[h].right == Nil
      ensures Laid(b, sh', Nil) && Distinct(sh') && Balanced(sh') && root' == Root(sh')
      ensures InOrder(sh') == InOrder(sh)[..i] + InOrder(sh)[i + 1..] && SameValues(a, b)
    {
      ghost var p, t := LocateIn(a, sh, h, i);
      var c := if a[h].left != Nil then a[h].left else a[h].right;
      ghost var n := if a[h].left != Nil then t.left else t.right;
      UnlinkStart(a, p, t, n);
      var par := a[h].parent;
      var b0;
      b0, root' := Splice(a, root, h, c);
      ghost var q, l, r, oh := UnlinkClimb(a, b0, root, root', p, t, n);
      b, root', sh' := RebalanceToRoot(b0, root', par, q, l, r, oh, Plug(p, n));
      UnlinkOrder(p, t, n, sh, i);
    }

    /** The relinking of `_remove` (avltree.js:281-316) for a node `h` with at most one child
        `c` (`Nil` when `h` is a leaf): the parent's link to `h`, or the root when `h` has no
        parent, now holds `c`, and `c` points up to `h`'s parent. Nothing else changes. */
    static method Splice(a: seq<Node<T>>, root: int, h: nat, c: int) returns (b: seq<Node<T>>, root': int)
      requires h < |a| && Handle(a, c) && Handle(a, a[h].parent) && (c == Nil || c != a[h].parent)
      ensures |b| == |a| && root' == if a[h].parent == Nil then c else root
      ensures var par := a[h].parent;
        par != Nil ==> b[par] == if a[par].left == h then a[par].(left := c) else a[par].(right := c)
      ensures c != Nil ==> b[c] == a[c].(parent := a[h].parent)
      ensures forall k :: 0 <= k < |a| && k != a[h].parent && k != c ==> b[k] == a[k]
    {
      var par := a[h].parent;
      b, root' := a, root;
      if par == Nil {
        root' := c;
      } else if a[par].left == h {
        b := b[par := b[par].(left := c)];
      } else {
        b := b[par := b[par].(right := c)];
      }
      if c != Nil {
        b := b[c := b[c].(parent := par)];
      }
    }

    /** The child that replaces `h` is `Nil` or in the arena, and is not `h`'s parent. */
    static lemma UnlinkStart(a: seq<Node<T>>, p: Path, t: Tree, n: Tree)
      requires Distinct(Plug(p, t)) && t.Br? && t.id < |a|
      requires a[t.id].left == Root(t.left) && a[t.id].right == Root(t.right)
      requires Laid(a, t.left, t.id) && Laid(a, t.right, t.id)
      requires n == if a[t.id].left != Nil then t.left else t.right
      ensures Handle(a, Root(n)) && (Root(n) == Nil || Root(n) != Parent(p))
    {
      LaidMeta(a, n, t.id);
      PlugDistinct(p, t);
      if p != Top && n.Br? {
        assert Parent(p) in PathIds(p) && n.id in Ids(t);
      }
    }

    /** After the relinking the climb of `_rebalance_to_root` starts at `h`'s old parent: the
        subtree `n` that replaced `h` is one lower than `h`'s was, so the parent's balance
        factor is off by at most two. */
    static lemma UnlinkClimb(a: seq<Node<T>>, b: seq<Node<T>>, root: int, root': int, p: Path, t: Tree, n: Tree)
      returns (q: Path, l: Tree, r: Tree, oh: nat)
      requires Distinct(Plug(p, t)) && Balanced(Plug(p, t)) && root == Root(Plug(p, t))
      requires t.Br? && (t.left.Leaf? || t.right.Leaf?) && n == (if t.left.Br? then t.left else t.right)
      requires PathLaid(a, p, t.id) && Laid(a, n, t.id)
      requires |b| == |a| && root' == (if Parent(p) == Nil then Root(n) else root)
      requires Parent(p) != Nil ==> Parent(p) < |a|
      requires Parent(p) != Nil ==>
        b[Parent(p)] == if a[Parent(p)].left == t.id then a[Parent(p)].(left := Root(n)) else a[Parent(p)].(right := Root(n))
      requires Root(n) != Nil ==> b[Root(n)] == a[Root(n)].(parent := Parent(p))
      requires forall k :: 0 <= k < |a| && k != Parent(p) && k != Root(n) ==> b[k] == a[k]
      ensures Climbing(b, root', Parent(p), q, l, r, oh, Plug(p, n))
    {
      var e := {Parent(p), Root(n)};
      assert AgreeExcept(a, b, e);
      PlugDistinct(p, t);
      PlugDistinct(p, n);
      PlugBalanced(p, t);
      if p == Top {
        q, l, r, oh := Top, Leaf, Leaf, 0;
        if n.Br? {
          ReparentOutside(a, b, e, n, t.id, Nil);
        }
      } else {
        PlugRoot(p, t, n);
        match p
        case LeftOf(up, z, sib) =>
          q, l, r, oh := up, n, sib, 1 + Max(Height(t), Height(sib));
          UnlinkHungLeft(a, b, up, z, sib, t, n);
          UnlinkClimbLeft(b, root, up, z, sib, t, n, oh);
        case RightOf(up, sib, z) =>
          q, l, r, oh := up, sib, n, 1 + Max(Height(sib), Height(t));
          UnlinkHungRight(a, b, up, sib, z, t, n);
          UnlinkClimbRight(b, root, up, sib, z, t, n, oh);
      }
    }

    static lemma UnlinkHungLeft(a: seq<Node<T>>, b: seq<Node<T>>, up: Path, z: nat, sib: Tree, t: Tree, n: Tree)
      requires t.Br? && PathLaid(a, LeftOf(up, z, sib), t.id) && Laid(a, n, t.id)
      requires PathDistinct(LeftOf(up, z, sib)) && PathIds(LeftOf(up, z, sib)) !! Ids(t) && Distinct(n)
      requires Ids(n) <= Ids(t) && AgreeExcept(a, b, {z, Root(n)})
      requires b[z] == a[z].(left := Root(n))
      requires n.Br? ==> b[n.id] == a[n.id].(parent := z)
      ensures Hung(b, up, n, z, sib)
    {
      var e := {z, Root(n)};
      assert Outside(e, Ids(sib)) && Outside(e, PathIds(up));
      LaidOutside(a, b, e, sib, z);
      AgreeExceptLinks(a, b, e, PathIds(up));
      PathLaidFrame(a, b, up, z);
      if n.Br? {
        assert Outside(e, Ids(n.left)) && Outside(e, Ids(n.right));
        ReparentOutside(a, b, e, n, t.id, z);
      }
    }

    static lemma UnlinkHungRight(a: seq<Node<T>>, b: seq<Node<T>>, up: Path, sib: Tree, z: nat, t: Tree, n: Tree)
      requires t.Br? && PathLaid(a, RightOf(up, sib, z), t.id) && Laid(a, n, t.id)
      requires PathDistinct(RightOf(up, sib, z)) && PathIds(RightOf(up, sib, z)) !! Ids(t) && Distinct(n)
      requires Ids(n) <= Ids(t) && AgreeExcept(a, b, {z, Root(n)})
      requires b[z] == a[z].(right := Root(n))
      requires n.Br? ==> b[n.id] == a[n.id].(parent := z)
      ensures Hung(b, up, sib, z, n)
    {
      var e := {z, Root(n)};
      assert Outside(e, Ids(sib)) && Outside(e, PathIds(up));
      LaidOutside(a, b, e, sib, z);
      AgreeExceptLinks(a, b, e, PathIds(up));
      PathLaidFrame(a, b, up, z);
      if n.Br? {
        assert Outside(e, Ids(n.left)) && Outside(e, Ids(n.right));
        ReparentOutside(a, b, e, n, t.id, z);
      }
    }

    static lemma UnlinkClimbLeft(b: seq<Node<T>>, root: int, up: Path, z: nat, sib: Tree, t: Tree, n: Tree, oh: nat)
      requires oh == 1 + Max(Height(t), Height(sib)) && t.Br? && Balanced(t)
      requires (t.left.Leaf? || t.right.Leaf?) && n == (if t.left.Br? then t.left else t.right)
      requires Hung(b, up, n, z, sib) && Distinct(Plug(up, Br(n, z, sib))) && root == Root(Plug(up, Br(n, z, sib)))
      requires PathBalanced(LeftOf(up, z, sib), Height(t))
      ensures Climbing(b, root, z, up, n, sib, oh, Plug(up, Br(n, z, sib)))
    {
      ParentHeightWithinOne(n, Height(t), sib, z, true);
      PathBalancedUp(LeftOf(up, z, sib), Height(t), oh);
    }

    static lemma UnlinkClimbRight(b: seq<Node<T>>, root: int, up: Path, sib: Tree, z: nat, t: Tree, n: Tree, oh: nat)
      requires oh == 1 + Max(Height(sib), Height(t)) && t.Br? && Balanced(t)
      requires (t.left.Leaf? || t.right.Leaf?) && n == (if t.left.Br? then t.left else t.right)
      requires Hung(b, up, sib, z, n) && Distinct(Plug(up, Br(sib, z, n))) && root == Root(Plug(up, Br(sib, z, n)))
      requires PathBalanced(RightOf(up, sib, z), Height(t))
      ensures Climbing(b, root, z, up, sib, n, oh, Plug(up, Br(sib, z, n)))
    {
      ParentHeightWithinOne(n, Height(t), sib, z, false);
      PathBalancedUp(RightOf(up, sib, z), Height(t), oh);
    }

    /** Replacing a node with at most one child by that child drops it from the in-order
        sequence. */
    static lemma UnlinkOrder(p: Path, t: Tree, n: Tree, sh: Tree, i: nat)
      requires Plug(p, t) == sh && t.Br? && (t.left.Leaf? || t.right.Leaf?)
      requires n == (if t.left.Br? then t.left else t.right) && i == |Before(p)| + Size(t.left)
      ensures i < |InOrder(sh)| && InOrder(Plug(p, n)) == InOrder(sh)[..i] + InOrder(sh)[i + 1..]
    {
      PlugInOrder(p, t);
      PlugInOrder(p, n);
      var B, A, N, H := Before(p), After(p), InOrder(n), InOrder(sh);
      var E: seq<nat> := [];
      if t.left.Leaf? {
        assert E + [t.id] + N == InOrder(t) && E + N == N;
        DropAt(H, i, B, E, t.id, N, A);
      } else {
        assert N + [t.id] + E == InOrder(t) && N + E == N;
        DropAt(H, i, B, N, t.id, E, A);
      }
    }

    /** The successor of a node with a right child is the leftmost node below it, which has
        no left child. */
    static lemma SuccessorHasNoLeft(a: seq<Node<T>>, sh: Tree, h: int, i: nat)
      requires Distinct(sh) && Laid(a, sh, Nil) && i < |InOrder(sh)| && InOrder(sh)[i] == h
      requires 0 <= h < |a| && a[h].right != Nil
      ensures i + 1 < |InOrder(sh)| && InOrder(sh)[i + 1] < |a| && a[InOrder(sh)[i + 1]].left == Nil
      ensures a[h].left != Nil ==> InOrder(sh)[i + 1] != h
    {
      var p, t := LocateIn(a, sh, h, i);
      PlugIndex(p, t, sh, i);
      FirstHasNoLeft(a, t.right, h);
      DistinctInOrder(sh);
    }

    static lemma {:induction false} FirstHasNoLeft(a: seq<Node<T>>, s: Tree, p: int)
      requires Laid(a, s, p) && s.Br?
      ensures InOrder(s)[0] < |a| && a[InOrder(s)[0]].left == Nil
      decreases s
    {
      if s.left.Br? {
        FirstHasNoLeft(a, s.left, s.id);
        assert InOrder(s)[0] == InOrder(s.left)[0];
      }
    }

    /** Dropping position `i` from the handles drops it from the values, in an arena with the
        same values. */
    static lemma ValsRemoveAt(a: seq<Node<T>>, b: seq<Node<T>>, hs: seq<nat>, hs': seq<nat>, i: nat)
      requires SameValues(a, b) && AllIn(a, hs) && i < |hs| && hs' == hs[..i] + hs[i + 1..]
      ensures AllIn(b, hs') && Vals(b, hs') == Vals(a, hs)[..i] + Vals(a, hs)[i + 1..]
    {
      var v, v' := Vals(a, hs), Vals(b, hs');
      forall k | 0 <= k < |v'| ensures v'[k] == (v[..i] + v[i + 1..])[k] {
        if k < i {
          assert hs'[k] == hs[k];
        } else {
          assert hs'[k] == hs[k + 1];
        }
      }
    }

    /** The last step of `_remove` for a node with two children: once its successor is gone,
        the node takes the successor's value, which puts that value at position `i`. */
    static lemma ReplaceValue(a: seq<Node<T>>, b0: seq<Node<T>>, b: seq<Node<T>>, sh: Tree, sh': Tree,
                              h: int, succ: int, i: nat)
      requires Distinct(sh) && AllIn(a, InOrder(sh)) && i + 1 < |InOrder(sh)|
      requires InOrder(sh)[i] == h && InOrder(sh)[i + 1] == succ && 0 <= h < |a| && 0 <= succ < |a|
      requires SameValues(a, b0) && Laid(b0, sh', Nil)
      requires InOrder(sh') == InOrder(sh)[..i + 1] + InOrder(sh)[i + 2..]
      requires b == b0[h := b0[h].(value := b0[succ].value)]
      ensures Laid(b, sh', Nil) && |b| == |a| && AllIn(b, InOrder(sh'))
      ensures Vals(b, InOrder(sh')) == Vals(a, InOrder(sh))[..i] + Vals(a, InOrder(sh))[i + 1..]
    {
      LaidFrame(b0, b, sh', Nil);
      DistinctInOrder(sh);
      ReplacedVals(a, b, InOrder(sh), InOrder(sh'), h, succ, i);
    }

    /** `ReplaceValue` on the in-order handles alone. */
    static lemma ReplacedVals(a: seq<Node<T>>, b: seq<Node<T>>, H: seq<nat>, H': seq<nat>, h: int, succ: int, i: nat)
      requires AllIn(a, H) && i + 1 < |H| && H[i] == h && H[i + 1] == succ && 0 <= succ < |a|
      requires forall x, y :: 0 <= x < y < |H| ==> H[x] != H[y]
      requires H' == H[..i + 1] + H[i + 2..]
      requires |b| == |a| && b[h].value == a[succ].value
      requires forall x :: 0 <= x < |a| && x != h ==> b[x].value == a[x].value
      ensures AllIn(b, H') && Vals(b, H') == Vals(a, H)[..i] + Vals(a, H)[i + 1..]
    {
      var S, v' := Vals(a, H), Vals(b, H');
      forall k | 0 <= k < |v'| ensures v'[k] == (S[..i] + S[i + 1..])[k] {
        if k < i {
          assert H'[k] == H[k] != h;
        } else if k == i {
          assert H'[k] == h;
        } else {
          assert H'[k] == H[k + 1] != h;
        }
      }
    }
  }
}

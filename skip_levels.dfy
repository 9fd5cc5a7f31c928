/** The link structure of the skip list of SkipList.js, over a node arena.

    A `SkipNode` (SkipList.js:18-31) is an element of a sequence of nodes; its forward
    array `nodes` is `next` here and holds handles (indices) or `Nil`, and its `prev` is a
    `Pos`, the header or a handle. The header's forward array is a separate sequence `head`,
    with one slot per level (an unset slot of the source's growing array is `Nil`). The
    ghost `elems` is the level-0 order of the handles in the list. The link invariant `Wf`
    says, level by level, that each forward link goes to the next element of the level-0
    order whose height reaches that level: every level's chain is the sub-sequence of level
    0 of the nodes tall enough for it. This module also holds the descent shared by every
    operation. */
module SkipLevels {
  import opened Common
  import opened SortedSeqs

  /** `cMaxLevel` (SkipList.js:8): the highest level a node is drawn at. */
  const MaxLevel: nat := 6

  /** An absent forward link (`null` or `undefined` in the source). */
  const Nil: int := -1

  /** Where a link starts or a back link ends: the header or a node. */
  datatype Pos = Header | At(h: nat)

  /** `SkipNode` (SkipList.js:18-31): the forward array has one slot per level of the node. */
  datatype SkipNode<K, V> = SkipNode(key: K, value: V, next: seq<int>, prev: Pos)

  // ---------------------------------------------------------------------------
  // Levels over the heights of the level-0 order
  // ---------------------------------------------------------------------------

  /** The first position at or after `j` whose height exceeds level `i` (`|hts|` if none):
      where a level-`i` link leaving a node before `j` lands. */
  function Link(hts: seq<nat>, i: nat, j: nat): (m: nat)
    requires j <= |hts|
    ensures j <= m <= |hts| && (m < |hts| ==> hts[m] > i)
    decreases |hts| - j
  {
    if j == |hts| || hts[j] > i then j else Link(hts, i, j + 1)
  }

  /** `Link` skips only positions too low for level `i`. */
  lemma {:induction false} LinkSkips(hts: seq<nat>, i: nat, j: nat)
    requires j <= |hts|
    ensures forall x :: j <= x < Link(hts, i, j) ==> hts[x] <= i
    decreases |hts| - j
  {
    if j < |hts| && hts[j] <= i {
      LinkSkips(hts, i, j + 1);
    }
  }

  /** `Link` stops at the first position tall enough: one at `x` bounds it. */
  lemma LinkAtMost(hts: seq<nat>, i: nat, j: nat, x: nat)
    requires j <= x < |hts| && hts[x] > i
    ensures Link(hts, i, j) <= x
  {
    LinkSkips(hts, i, j);
  }

  /** At level 0 every node is linked, so a link lands at the very next position. */
  lemma LinkBottom(hts: seq<nat>, j: nat)
    requires j <= |hts| && forall x :: 0 <= x < |hts| ==> hts[x] >= 1
    ensures Link(hts, 0, j) == j
  {
  }

  /** Above every height, a link finds nothing. */
  lemma {:induction false} LinkAbove(hts: seq<nat>, i: nat, j: nat)
    requires j <= |hts| && forall x :: 0 <= x < |hts| ==> hts[x] <= i
    ensures Link(hts, i, j) == |hts|
    decreases |hts| - j
  {
    if j < |hts| {
      LinkAbove(hts, i, j + 1);
    }
  }

  /** How links move when a node of height `h` joins the level-0 order at position `c`. */
  lemma {:induction false} LinkInsert(hts: seq<nat>, hts': seq<nat>, c: nat, h: nat, i: nat, j: nat)
    requires c <= |hts| && hts' == hts[..c] + [h] + hts[c..] && j <= |hts|
    ensures c <= j ==> Link(hts', i, j + 1) == Link(hts, i, j) + 1
    ensures j <= c && Link(hts, i, j) < c ==> Link(hts', i, j) == Link(hts, i, j)
    ensures j <= c && Link(hts, i, j) >= c && h > i ==> Link(hts', i, j) == c
    ensures j <= c && Link(hts, i, j) >= c && h <= i ==> Link(hts', i, j) == Link(hts, i, j) + 1
    decreases |hts| - j
  {
    assert |hts'| == |hts| + 1;
    if c <= j {
      if j < |hts| {
        assert hts'[j + 1] == hts[j];
        if hts[j] <= i {
          LinkInsert(hts, hts', c, h, i, j + 1);
        }
      }
    }
    if j < c {
      assert hts'[j] == hts[j];
      if hts[j] <= i {
        LinkInsert(hts, hts', c, h, i, j + 1);
      }
    } else if j == c {
      assert hts'[c] == h;
    }
  }

  /** How links move when the node at position `c` leaves the level-0 order. */
  lemma {:induction false} LinkRemove(hts: seq<nat>, hts': seq<nat>, c: nat, i: nat, j: nat)
    requires c < |hts| && hts' == hts[..c] + hts[c + 1..] && j <= |hts|
    ensures c < j ==> Link(hts', i, j - 1) == Link(hts, i, j) - 1
    ensures j <= c && Link(hts, i, j) < c ==> Link(hts', i, j) == Link(hts, i, j)
    ensures j <= c && Link(hts, i, j) == c ==> Link(hts', i, j) == Link(hts, i, c + 1) - 1
    ensures j <= c && Link(hts, i, j) > c ==> Link(hts', i, j) == Link(hts, i, j) - 1
    decreases |hts| - j
  {
    assert |hts'| + 1 == |hts|;
    if c < j {
      if j < |hts| {
        assert hts'[j - 1] == hts[j];
        if hts[j] <= i {
          LinkRemove(hts, hts', c, i, j + 1);
        }
      }
    } else if j < c {
      assert hts'[j] == hts[j];
      if hts[j] <= i {
        LinkRemove(hts, hts', c, i, j + 1);
      }
    } else {
      LinkRemove(hts, hts', c, i, c + 1);
      if hts[c] <= i {
        assert Link(hts, i, c) == Link(hts, i, c + 1);
      }
    }
  }

  // ---------------------------------------------------------------------------
  // The arena
  // ---------------------------------------------------------------------------

  /** Every handle of the level-0 order indexes into the arena. */
  ghost predicate AllIn<K, V>(nodes: seq<SkipNode<K, V>>, elems: seq<nat>) {
    forall j :: 0 <= j < |elems| ==> elems[j] < |nodes|
  }

  /** The heights (lengths of the forward arrays) of the nodes, in level-0 order. */
  ghost function Heights<K, V>(nodes: seq<SkipNode<K, V>>, elems: seq<nat>): (hts: seq<nat>)
    requires AllIn(nodes, elems)
    ensures |hts| == |elems| && forall j :: 0 <= j < |elems| ==> hts[j] == |nodes[elems[j]].next|
  {
    seq(|elems|, j requires 0 <= j < |elems| => |nodes[elems[j]].next|)
  }

  /** The keys of the nodes, in level-0 order. */
  ghost function Keys<K, V>(nodes: seq<SkipNode<K, V>>, elems: seq<nat>): (ks: seq<K>)
    requires AllIn(nodes, elems)
    ensures |ks| == |elems| && forall j :: 0 <= j < |elems| ==> ks[j] == nodes[elems[j]].key
  {
    seq(|elems|, j requires 0 <= j < |elems| => nodes[elems[j]].key)
  }

  /** The (key, value) pairs of the nodes, in level-0 order: the contents of the list. */
  ghost function ItemsOf<K, V>(nodes: seq<SkipNode<K, V>>, elems: seq<nat>): (s: seq<(K, V)>)
    requires AllIn(nodes, elems)
    ensures |s| == |elems| && forall j :: 0 <= j < |elems| ==> s[j] == (nodes[elems[j]].key, nodes[elems[j]].value)
  {
    seq(|elems|, j requires 0 <= j < |elems| => (nodes[elems[j]].key, nodes[elems[j]].value))
  }

  /** The handle at position `m` of the level-0 order, `Nil` past the end. */
  function HandleAt(elems: seq<nat>, m: nat): int
    requires m <= |elems|
  {
    if m < |elems| then elems[m] else Nil
  }

  /** The node at position `p` of the level-0 order, the header before the start. */
  function PosOf(elems: seq<nat>, p: int): Pos
    requires -1 <= p < |elems|
  {
    if p < 0 then Header else At(elems[p])
  }

  /** `update[i].nodes[i]`: the level-`i` link leaving the header or a node. */
  function LinkOf<K, V>(head: seq<int>, nodes: seq<SkipNode<K, V>>, u: Pos, i: nat): int
    requires i < |head| && (u.At? ==> u.h < |nodes| && i < |nodes[u.h].next|)
  {
    match u
    case Header => head[i]
    case At(h) => nodes[h].next[i]
  }

  /** Every level-`i` link, the header's included, goes to the next node of the level-0
      order that reaches level `i`. */
  ghost predicate LevelLinked<K, V>(head: seq<int>, nodes: seq<SkipNode<K, V>>, elems: seq<nat>, i: nat)
    requires AllIn(nodes, elems) && i < |head|
  {
    && head[i] == HandleAt(elems, Link(Heights(nodes, elems), i, 0))
    && forall j {:trigger nodes[elems[j]].next[i]} :: 0 <= j < |elems| && i < |nodes[elems[j]].next| ==>
         nodes[elems[j]].next[i] == HandleAt(elems, Link(Heights(nodes, elems), i, j + 1))
  }

  /** The invariant of a skip list: `Shaped`, and `level` is 0 or a level the header links
      (so, by `Shaped`, the highest one). */
  ghost predicate Wf<K(!new), V>(cmp: (K, K) -> int, head: seq<int>, nodes: seq<SkipNode<K, V>>, elems: seq<nat>, level: int) {
    Shaped(cmp, head, nodes, elems, level) && (level == 0 || head[level] != Nil)
  }

  /** The levels link sub-sequences of level 0 as above, every node has between 1 and
      `level + 1` levels, `prev` is the level-0 predecessor (the header for the first node),
      and the keys are sorted by `cmp`. */
  ghost predicate Shaped<K(!new), V>(cmp: (K, K) -> int, head: seq<int>, nodes: seq<SkipNode<K, V>>, elems: seq<nat>, level: int) {
    && Comparator(cmp)
    && |head| == MaxLevel + 1 && 0 <= level <= MaxLevel
    && AllIn(nodes, elems)
    && (forall a, b :: 0 <= a < b < |elems| ==> elems[a] != elems[b])
    && (forall j :: 0 <= j < |elems| ==> 1 <= |nodes[elems[j]].next| <= level + 1)
    && (forall i :: 0 <= i <= MaxLevel ==> LevelLinked(head, nodes, elems, i))
    && (forall j {:trigger nodes[elems[j]].prev} :: 0 <= j < |elems| ==> nodes[elems[j]].prev == PosOf(elems, j - 1))
    && Sorted(LtOf(cmp), Keys(nodes, elems))
  }

  /** `u`, at position `p`, is the last node before position `c` that reaches level `i`
      (the header if none does): what the descent stores in `update[i]`. */
  ghost predicate PredAt(hts: seq<nat>, elems: seq<nat>, i: nat, p: int, u: Pos, c: nat) {
    && |hts| == |elems| && -1 <= p < c <= |elems|
    && u == PosOf(elems, p) && (p >= 0 ==> hts[p] > i) && c <= Link(hts, i, p + 1)
  }

  /** The keys before position `lb` are exactly those less than `k`. */
  ghost predicate LowerSplit<K, V>(cmp: (K, K) -> int, nodes: seq<SkipNode<K, V>>, elems: seq<nat>, k: K, lb: nat)
    requires AllIn(nodes, elems)
  {
    lb <= |elems| && forall j :: 0 <= j < |elems| ==> (cmp(nodes[elems[j]].key, k) < 0 <==> j < lb)
  }

  /** In a sorted list, `LowerIdx` splits the keys less than `k` from the rest. */
  lemma LowerSplitOf<K(!new), V>(cmp: (K, K) -> int, nodes: seq<SkipNode<K, V>>, elems: seq<nat>, k: K)
    requires Comparator(cmp) && AllIn(nodes, elems) && Sorted(LtOf(cmp), Keys(nodes, elems))
    ensures LowerSplit(cmp, nodes, elems, k, LowerIdx(LtOf(cmp), Keys(nodes, elems), k))
  {
    ComparatorIsStrictWeakOrder(cmp);
    LowerIdxSpec(LtOf(cmp), Keys(nodes, elems), k);
  }

  /** The level-`i` link leaving position `p` (the header at -1), read off `LevelLinked`. */
  lemma LinkFrom<K, V>(head: seq<int>, nodes: seq<SkipNode<K, V>>, elems: seq<nat>, i: nat, p: int)
    requires AllIn(nodes, elems) && i < |head| && LevelLinked(head, nodes, elems, i)
    requires -1 <= p < |elems| && (p >= 0 ==> |nodes[elems[p]].next| > i)
    ensures PosOf(elems, p).At? ==> PosOf(elems, p).h < |nodes| && i < |nodes[PosOf(elems, p).h].next|
    ensures LinkOf(head, nodes, PosOf(elems, p), i) == HandleAt(elems, Link(Heights(nodes, elems), i, p + 1))
  {
    var hts := Heights(nodes, elems);
    if p < 0 {
      assert LinkOf(head, nodes, PosOf(elems, p), i) == head[i];
    } else {
      var h := elems[p];
      assert LinkOf(head, nodes, PosOf(elems, p), i) == nodes[h].next[i];
      assert nodes[elems[p]].next[i] == HandleAt(elems, Link(hts, i, p + 1));
    }
  }

  /** One level of the descent (the inner `while` of SkipList.js:150, 173, 220, 273, 303):
      from `u`, follow level-`i` links while the next key is less than `k`. */
  method WalkLevel<K, V>(cmp: (K, K) -> int, head: seq<int>, nodes: seq<SkipNode<K, V>>, ghost elems: seq<nat>,
                         k: K, i: nat, u: Pos, ghost p: int, ghost lb: nat)
    returns (u': Pos, ghost p': int)
    requires AllIn(nodes, elems) && i < |head| && LevelLinked(head, nodes, elems, i)
    requires LowerSplit(cmp, nodes, elems, k, lb)
    requires -1 <= p < lb && u == PosOf(elems, p) && (p >= 0 ==> |nodes[elems[p]].next| > i)
    ensures PredAt(Heights(nodes, elems), elems, i, p', u', lb)
  {
    ghost var hts := Heights(nodes, elems);
    u', p' := u, p;
    LinkFrom(head, nodes, elems, i, p');
    while LinkOf(head, nodes, u', i) != Nil && cmp(nodes[LinkOf(head, nodes, u', i)].key, k) < 0
      invariant -1 <= p' < lb && u' == PosOf(elems, p') && (p' >= 0 ==> hts[p'] > i)
      invariant LinkOf(head, nodes, u', i) == HandleAt(elems, Link(hts, i, p' + 1))
      decreases |elems| - p'
    {
      p' := Link(hts, i, p' + 1);
      u' := At(LinkOf(head, nodes, u', i));
      LinkFrom(head, nodes, elems, i, p');
    }
  }

  /** The descent shared by `contains`, `add`, `remove`, `getFirst` and `getRange`
      (SkipList.js:149-153, 172-177, 219-224, 272-276, 302-306): from level `level` down to
      0, follow links while the next key is less than `k`; `update[i]` is where level `i`
      stopped, the last node before the first key not less than `k` that reaches level `i`. */
  method FindPreds<K(!new), V>(cmp: (K, K) -> int, head: seq<int>, nodes: seq<SkipNode<K, V>>, ghost elems: seq<nat>, level: int, k: K)
    returns (update: seq<Pos>, ghost ps: seq<int>)
    requires Wf(cmp, head, nodes, elems, level)
    ensures |update| == |ps| == level + 1
    ensures forall i :: 0 <= i <= level ==>
      PredAt(Heights(nodes, elems), elems, i, ps[i], update[i], LowerIdx(LtOf(cmp), Keys(nodes, elems), k))
    ensures ps[0] == LowerIdx(LtOf(cmp), Keys(nodes, elems), k) - 1
  {
    ghost var hts := Heights(nodes, elems);
    ghost var lb := LowerIdx(LtOf(cmp), Keys(nodes, elems), k);
    LowerSplitOf(cmp, nodes, elems, k);
    var node := Header;
    ghost var pos := -1;
    update := seq(level + 1, _ => Header);
    ps := seq(level + 1, _ => -1);
    var i := level;
    while i >= 0
      invariant -1 <= i <= level && |update| == |ps| == level + 1
      invariant -1 <= pos < lb && node == PosOf(elems, pos) && (pos >= 0 ==> hts[pos] > i)
      invariant forall i' :: i < i' <= level ==> PredAt(hts, elems, i', ps[i'], update[i'], lb)
    {
      node, pos := WalkLevel(cmp, head, nodes, elems, k, i, node, pos, lb);
      update, ps := update[i := node], ps[i := pos];
      i := i - 1;
    }
    LinkBottom(hts, ps[0] + 1);
  }

  /** From the header or a node at position `p`, level 0 leads to position `p + 1`. */
  lemma StepBottom<K(!new), V>(cmp: (K, K) -> int, head: seq<int>, nodes: seq<SkipNode<K, V>>, elems: seq<nat>, level: int, p: int)
    requires Wf(cmp, head, nodes, elems, level) && -1 <= p < |elems|
    ensures PosOf(elems, p).At? ==> PosOf(elems, p).h < |nodes| && 0 < |nodes[PosOf(elems, p).h].next|
    ensures LinkOf(head, nodes, PosOf(elems, p), 0) == HandleAt(elems, p + 1)
  {
    assert LevelLinked(head, nodes, elems, 0);
    LinkFrom(head, nodes, elems, 0, p);
    LinkBottom(Heights(nodes, elems), p + 1);
  }

  /** Level 0 alone: the header and every node link to the next position. */
  ghost predicate BottomChain<K, V>(head: seq<int>, nodes: seq<SkipNode<K, V>>, elems: seq<nat>) {
    && AllIn(nodes, elems) && |head| > 0 && head[0] == HandleAt(elems, 0)
    && forall j {:trigger nodes[elems[j]]} :: 0 <= j < |elems| ==>
         0 < |nodes[elems[j]].next| && nodes[elems[j]].next[0] == HandleAt(elems, j + 1)
  }

  lemma WfBottomChain<K(!new), V>(cmp: (K, K) -> int, head: seq<int>, nodes: seq<SkipNode<K, V>>, elems: seq<nat>, level: int)
    requires Wf(cmp, head, nodes, elems, level)
    ensures BottomChain(head, nodes, elems)
  {
    StepBottom(cmp, head, nodes, elems, level, -1);
    forall j | 0 <= j < |elems| ensures 0 < |nodes[elems[j]].next| && nodes[elems[j]].next[0] == HandleAt(elems, j + 1) {
      StepBottom(cmp, head, nodes, elems, level, j);
    }
  }

  /** A header whose links are all absent makes an empty, well-formed list. */
  lemma EmptyWf<K(!new), V>(cmp: (K, K) -> int, head: seq<int>, nodes: seq<SkipNode<K, V>>)
    requires Comparator(cmp) && head == seq(MaxLevel + 1, _ => Nil) && nodes == []
    ensures Wf(cmp, head, nodes, [], 0) && ItemsOf(nodes, []) == []
  {
    forall i | 0 <= i <= MaxLevel ensures LevelLinked(head, nodes, [], i) {
      assert Link(Heights(nodes, []), i, 0) == 0;
    }
  }
}

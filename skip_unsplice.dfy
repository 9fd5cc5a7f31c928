/** How `remove` of SkipList.js walks past rejected nodes and splices a node out of the
    levels. */
module SkipUnsplice {
  import opened Common
  import opened SortedSeqs
  import opened SkipLevels
  import opened SkipSplice

  // ---------------------------------------------------------------------------
  // Positions once the node at `m` leaves the level-0 order
  // ---------------------------------------------------------------------------

  /** Handles of the level-0 order once the node at position `m` leaves it. */
  lemma RemoveHandles(elems: seq<nat>, elems': seq<nat>, m: nat)
    requires m < |elems| && elems' == elems[..m] + elems[m + 1..]
    ensures |elems'| + 1 == |elems|
    ensures forall x {:trigger elems[x]} :: 0 <= x < m ==> elems'[x] == elems[x]
    ensures forall x {:trigger elems[x]} :: m < x < |elems| ==> elems'[x - 1] == elems[x]
    ensures forall x {:trigger HandleAt(elems, x)} :: 0 <= x < m ==> HandleAt(elems', x) == HandleAt(elems, x)
    ensures forall x {:trigger HandleAt(elems, x)} :: m < x <= |elems| ==> HandleAt(elems', x - 1) == HandleAt(elems, x)
  {
  }

  /** The heights once the node at position `m` leaves the level-0 order. */
  lemma RemoveHeights<K, V>(nodes: seq<SkipNode<K, V>>, elems: seq<nat>, elems': seq<nat>, m: nat)
    requires AllIn(nodes, elems) && m < |elems| && elems' == elems[..m] + elems[m + 1..]
    ensures AllIn(nodes, elems')
    ensures Heights(nodes, elems') == Heights(nodes, elems)[..m] + Heights(nodes, elems)[m + 1..]
  {
    assert AllIn(nodes, elems') by {
      forall x | 0 <= x < |elems'| ensures elems'[x] < |nodes| {
        assert elems'[x] == elems[if x < m then x else x + 1];
      }
    }
    var hts, hts' := Heights(nodes, elems), Heights(nodes, elems');
    forall x | 0 <= x < m ensures hts'[x] == hts[x] {
      assert elems'[x] == elems[x];
    }
    forall x | m <= x < |hts'| ensures hts'[x] == hts[x + 1] {
      assert elems'[x] == elems[x + 1];
    }
    RemovedAt(hts, hts', m);
  }

  /** A link starting at or before `m` that does not land on `m` lands on the same node
      once `m` is gone. */
  lemma RemoveMoved(hts: seq<nat>, hts': seq<nat>, elems: seq<nat>, elems': seq<nat>, m: nat, i: nat, s: nat)
    requires m < |elems| == |hts| && elems' == elems[..m] + elems[m + 1..] && hts' == hts[..m] + hts[m + 1..]
    requires s <= m && Link(hts, i, s) != m
    ensures HandleAt(elems', Link(hts', i, s)) == HandleAt(elems, Link(hts, i, s))
  {
    RemoveHandles(elems, elems', m);
    LinkRemove(hts, hts', m, i, s);
  }

  /** A link starting at or before `m` that lands on `m` lands, once `m` is gone, where the
      link leaving `m` landed. */
  lemma RemoveLands(hts: seq<nat>, hts': seq<nat>, elems: seq<nat>, elems': seq<nat>, m: nat, i: nat, s: nat)
    requires m < |elems| == |hts| && elems' == elems[..m] + elems[m + 1..] && hts' == hts[..m] + hts[m + 1..]
    requires s <= m && Link(hts, i, s) == m
    ensures HandleAt(elems', Link(hts', i, s)) == HandleAt(elems, Link(hts, i, m + 1))
  {
    RemoveHandles(elems, elems', m);
    LinkRemove(hts, hts', m, i, s);
  }

  /** A link starting after `m` lands on the same node, from one place earlier. */
  lemma RemoveShifted(hts: seq<nat>, hts': seq<nat>, elems: seq<nat>, elems': seq<nat>, m: nat, i: nat, s: nat)
    requires m < |elems| == |hts| && elems' == elems[..m] + elems[m + 1..] && hts' == hts[..m] + hts[m + 1..]
    requires m < s <= |hts|
    ensures HandleAt(elems', Link(hts', i, s - 1)) == HandleAt(elems, Link(hts, i, s))
  {
    RemoveHandles(elems, elems', m);
    LinkRemove(hts, hts', m, i, s);
  }

  // ---------------------------------------------------------------------------
  // The descent moving past a node
  // ---------------------------------------------------------------------------

  /** The last node before position `c` reaching level `i` links to the node at `c` exactly
      when that node reaches level `i`: the test `update[i].nodes[i] !== node` of
      SkipList.js:231 and 253. */
  lemma PredLinks<K, V>(head: seq<int>, nodes: seq<SkipNode<K, V>>, elems: seq<nat>, i: nat, p: int, u: Pos, c: nat)
    requires AllIn(nodes, elems) && (forall a, b :: 0 <= a < b < |elems| ==> elems[a] != elems[b])
    requires i < |head| && LevelLinked(head, nodes, elems, i)
    requires PredAt(Heights(nodes, elems), elems, i, p, u, c) && c < |elems|
    ensures u.At? ==> u.h < |nodes| && i < |nodes[u.h].next|
    ensures LinkOf(head, nodes, u, i) == elems[c] <==> |nodes[elems[c]].next| > i
  {
    var hts := Heights(nodes, elems);
    LinkFrom(head, nodes, elems, i, p);
    var l := Link(hts, i, p + 1);
    if hts[c] > i {
      LinkAtMost(hts, i, p + 1, c);
    } else if l < |elems| {
      assert elems[l] != elems[c];
    }
  }

  /** Moving past the node at `c` (SkipList.js:252-258): where it reaches level `i` it
      becomes the last node before `c + 1` reaching `i`; elsewhere the old one still is. */
  lemma PredAdvance(hts: seq<nat>, elems: seq<nat>, i: nat, p: int, u: Pos, c: nat)
    requires PredAt(hts, elems, i, p, u, c) && c < |elems|
    ensures hts[c] <= i ==> PredAt(hts, elems, i, p, u, c + 1)
    ensures hts[c] > i ==> PredAt(hts, elems, i, c, At(elems[c]), c + 1)
  {
  }

  /** No stopping point of the descent for `m` is the node at `m` itself. */
  lemma PredsNotAt(hts: seq<nat>, elems: seq<nat>, update: seq<Pos>, ps: seq<int>, m: nat, n: nat)
    requires PredsAt(hts, elems, update, ps, m, n) && m < |elems|
    requires forall a, b :: 0 <= a < b < |elems| ==> elems[a] != elems[b]
    ensures forall i :: 0 <= i < n ==> update[i] != At(elems[m])
  {
    forall i | 0 <= i < n ensures update[i] != At(elems[m]) {
      assert PredAt(hts, elems, i, ps[i], update[i], m);
      if ps[i] >= 0 {
        assert elems[ps[i]] != elems[m];
      }
    }
  }

  // ---------------------------------------------------------------------------
  // Splicing the node out
  // ---------------------------------------------------------------------------

  /** The state of `remove` once the levels below `i` are relinked (SkipList.js:230-235):
      each `update[i']` for `i' < i` now links where the removed node `nn` linked at that
      level, and every other link, key, value and back link is as before. */
  ghost predicate UnsplicedBelow<K, V>(head: seq<int>, nodes: seq<SkipNode<K, V>>, update: seq<Pos>, nn: nat,
                                       hd: seq<int>, nd: seq<SkipNode<K, V>>, i: nat) {
    && nn < |nodes| && i <= |nodes[nn].next| && i <= |update| && |hd| == |head| && |nd| == |nodes|
    && (forall i' :: 0 <= i' < |head| ==> hd[i'] == if i' < i && update[i'] == Header then nodes[nn].next[i'] else head[i'])
    && (forall x :: 0 <= x < |nodes| ==>
          && nd[x].key == nodes[x].key && nd[x].value == nodes[x].value && nd[x].prev == nodes[x].prev
          && |nd[x].next| == |nodes[x].next|)
    && (forall x, i' {:trigger nd[x].next[i']} :: 0 <= x < |nodes| && 0 <= i' < |nodes[x].next| ==>
          nd[x].next[i'] == if i' < i && update[i'] == At(x) then nodes[nn].next[i'] else nodes[x].next[i'])
  }

  /** While `remove` relinks level `i`, that level and the removed node still hold their old
      links. */
  lemma UnsplicedLink<K, V>(head: seq<int>, nodes: seq<SkipNode<K, V>>, update: seq<Pos>, nn: nat,
                            hd: seq<int>, nd: seq<SkipNode<K, V>>, i: nat)
    requires UnsplicedBelow(head, nodes, update, nn, hd, nd, i) && i < |update| && i < |head|
    requires forall i' :: 0 <= i' < |update| ==> update[i'] != At(nn)
    requires update[i].At? ==> update[i].h < |nodes| && i < |nodes[update[i].h].next|
    ensures update[i].At? ==> i < |nd[update[i].h].next|
    ensures LinkOf(hd, nd, update[i], i) == LinkOf(head, nodes, update[i], i)
    ensures nd[nn].next == nodes[nn].next
  {
    if update[i].At? {
      var x := update[i].h;
      assert nd[x].next[i] == nodes[x].next[i];
    }
    assert |nd[nn].next| == |nodes[nn].next|;
    forall i' | 0 <= i' < |nodes[nn].next| ensures nd[nn].next[i'] == nodes[nn].next[i'] {
      if i' < i {
        assert update[i'] != At(nn);
      }
    }
  }

  /** One round of the relinking loop of `remove` (SkipList.js:234): `update[i]` takes the
      removed node's level-`i` link. */
  lemma UnspliceStep<K, V>(head: seq<int>, nodes: seq<SkipNode<K, V>>, update: seq<Pos>, nn: nat,
                           hd: seq<int>, nd: seq<SkipNode<K, V>>, i: nat, hd': seq<int>, nd': seq<SkipNode<K, V>>)
    requires UnsplicedBelow(head, nodes, update, nn, hd, nd, i) && i < |update| && i < |head|
    requires i < |nodes[nn].next| && nd[nn].next == nodes[nn].next
    requires update[i].At? ==> update[i].h < |nodes| && i < |nodes[update[i].h].next|
    requires hd' == (if update[i] == Header then hd[i := nodes[nn].next[i]] else hd)
    requires nd' == (if update[i] == Header then nd
                     else nd[update[i].h := nd[update[i].h].(next := nd[update[i].h].next[i := nodes[nn].next[i]])])
    ensures UnsplicedBelow(head, nodes, update, nn, hd', nd', i + 1)
  {
  }

  /** Where the header's level-`i` link lands once `update[i]` has taken over the removed
      node's link, for a level the removed node reached. */
  lemma RemoveHeadLink(hts: seq<nat>, hts': seq<nat>, elems: seq<nat>, elems': seq<nat>, m: nat, i: nat, p: int, u: Pos)
    requires m < |elems| == |hts| && elems' == elems[..m] + elems[m + 1..] && hts' == hts[..m] + hts[m + 1..]
    requires hts[m] > i && PredAt(hts, elems, i, p, u, m)
    ensures HandleAt(elems', Link(hts', i, 0))
         == if u == Header then HandleAt(elems, Link(hts, i, m + 1)) else HandleAt(elems, Link(hts, i, 0))
  {
    LinkAtMost(hts, i, p + 1, m);
    if p < 0 {
      RemoveLands(hts, hts', elems, elems', m, i, 0);
    } else {
      LinkAtMost(hts, i, 0, p);
      RemoveMoved(hts, hts', elems, elems', m, i, 0);
    }
  }

  /** Where the level-`i` link of a node before the removed one lands once `update[i]` has
      taken over the removed node's link, for a level the removed node reached. */
  lemma RemoveLinkBefore(hts: seq<nat>, hts': seq<nat>, elems: seq<nat>, elems': seq<nat>, m: nat, i: nat, p: int, u: Pos,
                         j: nat)
    requires m < |elems| == |hts| && elems' == elems[..m] + elems[m + 1..] && hts' == hts[..m] + hts[m + 1..]
    requires hts[m] > i && PredAt(hts, elems, i, p, u, m)
    requires j < m && hts[j] > i
    ensures j == p ==> HandleAt(elems', Link(hts', i, j + 1)) == HandleAt(elems, Link(hts, i, m + 1))
    ensures j != p ==> HandleAt(elems', Link(hts', i, j + 1)) == HandleAt(elems, Link(hts, i, j + 1))
  {
    if j == p {
      LinkAtMost(hts, i, p + 1, m);
      RemoveLands(hts, hts', elems, elems', m, i, p + 1);
    } else {
      if p < j {
        LinkAtMost(hts, i, p + 1, j);
      }
      LinkAtMost(hts, i, j + 1, p);
      RemoveMoved(hts, hts', elems, elems', m, i, j + 1);
    }
  }

  /** A level the removed node reached is linked over the new order once `update[i]` has
      taken over the removed node's link. */
  lemma RemoveLevelBelow<K, V>(head: seq<int>, nodes: seq<SkipNode<K, V>>, hd: seq<int>, nd: seq<SkipNode<K, V>>,
                               elems: seq<nat>, elems': seq<nat>, m: nat, i: nat, p: int, u: Pos)
    requires AllIn(nodes, elems) && (forall a, b :: 0 <= a < b < |elems| ==> elems[a] != elems[b])
    requires m < |elems| && elems' == elems[..m] + elems[m + 1..]
    requires i < |head| && LevelLinked(head, nodes, elems, i) && i < |nodes[elems[m]].next|
    requires PredAt(Heights(nodes, elems), elems, i, p, u, m)
    requires |hd| == |head| && hd[i] == if u == Header then nodes[elems[m]].next[i] else head[i]
    requires |nd| == |nodes| && forall j {:trigger nd[elems[j]]} :: 0 <= j < |elems| ==> |nd[elems[j]].next| == |nodes[elems[j]].next|
    requires forall j {:trigger nd[elems[j]].next[i]} :: 0 <= j < |elems| && i < |nodes[elems[j]].next| ==>
      nd[elems[j]].next[i] == if u == At(elems[j]) then nodes[elems[m]].next[i] else nodes[elems[j]].next[i]
    ensures AllIn(nd, elems') && LevelLinked(hd, nd, elems', i)
  {
    var hts := Heights(nodes, elems);
    RemoveHeights(nodes, elems, elems', m);
    assert SameHeights(nodes, nd, elems') by {
      forall j | 0 <= j < |elems'| ensures |nodes[elems'[j]].next| == |nd[elems'[j]].next| {
        assert elems'[j] == elems[if j < m then j else j + 1];
      }
    }
    HeightsAgree(nodes, nd, elems');
    var hts' := Heights(nd, elems');
    assert hts' == hts[..m] + hts[m + 1..];
    assert nodes[elems[m]].next[i] == HandleAt(elems, Link(hts, i, m + 1));
    RemoveHeadLink(hts, hts', elems, elems', m, i, p, u);
    RemoveBefore(head, nodes, nd, elems, elems', m, i, p, u, hts, hts');
    RemoveAfter(head, nodes, nd, elems, elems', m, i, p, u, hts, hts');
    RemoveLinked(hd, nd, elems, elems', m, i, hts');
  }

  /** The nodes before the removed one keep their level-`i` targets in the new order, except
      `update[i]`, which now reaches the removed node's old target. */
  lemma RemoveBefore<K, V>(head: seq<int>, nodes: seq<SkipNode<K, V>>, nd: seq<SkipNode<K, V>>,
                           elems: seq<nat>, elems': seq<nat>, m: nat, i: nat, p: int, u: Pos, hts: seq<nat>, hts': seq<nat>)
    requires AllIn(nodes, elems) && (forall a, b :: 0 <= a < b < |elems| ==> elems[a] != elems[b])
    requires m < |elems| && elems' == elems[..m] + elems[m + 1..]
    requires hts == Heights(nodes, elems) && hts' == hts[..m] + hts[m + 1..]
    requires i < |head| && LevelLinked(head, nodes, elems, i) && hts[m] > i && PredAt(hts, elems, i, p, u, m)
    requires |nd| == |nodes| && forall j {:trigger nd[elems[j]]} :: 0 <= j < |elems| ==> |nd[elems[j]].next| == |nodes[elems[j]].next|
    requires forall j {:trigger nd[elems[j]].next[i]} :: 0 <= j < |elems| && i < |nodes[elems[j]].next| ==>
      nd[elems[j]].next[i] == if u == At(elems[j]) then nodes[elems[m]].next[i] else nodes[elems[j]].next[i]
    ensures forall j {:trigger nd[elems[j]].next[i]} :: 0 <= j < m && i < |nd[elems[j]].next| ==>
      nd[elems[j]].next[i] == HandleAt(elems', Link(hts', i, j + 1))
  {
    assert nodes[elems[m]].next[i] == HandleAt(elems, Link(hts, i, m + 1));
    forall j | 0 <= j < m && i < |nd[elems[j]].next|
      ensures nd[elems[j]].next[i] == HandleAt(elems', Link(hts', i, j + 1))
    {
      RemoveLinkBefore(hts, hts', elems, elems', m, i, p, u, j);
      if j != p {
        if p >= 0 {
          assert elems[p] != elems[j];
        }
        assert u != At(elems[j]);
      }
    }
  }

  /** The nodes after the removed one keep their level-`i` targets, one place earlier. */
  lemma RemoveAfter<K, V>(head: seq<int>, nodes: seq<SkipNode<K, V>>, nd: seq<SkipNode<K, V>>,
                          elems: seq<nat>, elems': seq<nat>, m: nat, i: nat, p: int, u: Pos, hts: seq<nat>, hts': seq<nat>)
    requires AllIn(nodes, elems) && (forall a, b :: 0 <= a < b < |elems| ==> elems[a] != elems[b])
    requires m < |elems| && elems' == elems[..m] + elems[m + 1..]
    requires hts == Heights(nodes, elems) && hts' == hts[..m] + hts[m + 1..]
    requires i < |head| && LevelLinked(head, nodes, elems, i) && hts[m] > i && PredAt(hts, elems, i, p, u, m)
    requires |nd| == |nodes| && forall j {:trigger nd[elems[j]]} :: 0 <= j < |elems| ==> |nd[elems[j]].next| == |nodes[elems[j]].next|
    requires forall j {:trigger nd[elems[j]].next[i]} :: 0 <= j < |elems| && i < |nodes[elems[j]].next| ==>
      nd[elems[j]].next[i] == if u == At(elems[j]) then nodes[elems[m]].next[i] else nodes[elems[j]].next[i]
    ensures forall j {:trigger nd[elems[j]].next[i]} :: m < j < |elems| && i < |nd[elems[j]].next| ==>
      nd[elems[j]].next[i] == HandleAt(elems', Link(hts', i, j))
  {
    forall j | m < j < |elems| && i < |nd[elems[j]].next|
      ensures nd[elems[j]].next[i] == HandleAt(elems', Link(hts', i, j))
    {
      if p >= 0 {
        assert elems[p] != elems[j];
      }
      assert u != At(elems[j]);
      RemoveShifted(hts, hts', elems, elems', m, i, j + 1);
    }
  }

  /** The targets of the header and of the nodes before and after the removed one make a
      level linked over the new order. */
  lemma RemoveLinked<K, V>(head: seq<int>, nodes: seq<SkipNode<K, V>>, elems: seq<nat>, elems': seq<nat>,
                           m: nat, i: nat, hts': seq<nat>)
    requires AllIn(nodes, elems) && m < |elems| && elems' == elems[..m] + elems[m + 1..]
    requires AllIn(nodes, elems') && hts' == Heights(nodes, elems') && i < |head| && head[i] == HandleAt(elems', Link(hts', i, 0))
    requires forall j {:trigger nodes[elems[j]].next[i]} :: 0 <= j < m && i < |nodes[elems[j]].next| ==>
      nodes[elems[j]].next[i] == HandleAt(elems', Link(hts', i, j + 1))
    requires forall j {:trigger nodes[elems[j]].next[i]} :: m < j < |elems| && i < |nodes[elems[j]].next| ==>
      nodes[elems[j]].next[i] == HandleAt(elems', Link(hts', i, j))
    ensures LevelLinked(head, nodes, elems', i)
  {
    forall j | 0 <= j < |elems'| && i < |nodes[elems'[j]].next|
      ensures nodes[elems'[j]].next[i] == HandleAt(elems', Link(hts', i, j + 1))
    {
      if j < m {
        assert elems'[j] == elems[j];
      } else {
        assert elems'[j] == elems[j + 1];
      }
    }
  }

  /** A level the removed node did not reach stays linked over the new order. */
  lemma RemoveLevelAbove<K, V>(head: seq<int>, nodes: seq<SkipNode<K, V>>, elems: seq<nat>, elems': seq<nat>, m: nat, i: nat)
    requires AllIn(nodes, elems) && m < |elems| && elems' == elems[..m] + elems[m + 1..]
    requires i < |head| && LevelLinked(head, nodes, elems, i) && |nodes[elems[m]].next| <= i
    ensures AllIn(nodes, elems') && LevelLinked(head, nodes, elems', i)
  {
    var hts := Heights(nodes, elems);
    RemoveHeights(nodes, elems, elems', m);
    var hts' := Heights(nodes, elems');
    RemoveMoved(hts, hts', elems, elems', m, i, 0);
    forall j | 0 <= j < |elems'| && i < |nodes[elems'[j]].next|
      ensures nodes[elems'[j]].next[i] == HandleAt(elems', Link(hts', i, j + 1))
    {
      if j < m {
        assert elems'[j] == elems[j];
        RemoveMoved(hts, hts', elems, elems', m, i, j + 1);
      } else {
        assert elems'[j] == elems[j + 1];
        RemoveShifted(hts, hts', elems, elems', m, i, j + 2);
      }
    }
  }

  /** A level with an empty header link is above every node's height: why `remove` may
      lower `level` while the header's top link is empty (SkipList.js:242-244). */
  lemma TopEmpty<K, V>(head: seq<int>, nodes: seq<SkipNode<K, V>>, elems: seq<nat>, i: nat)
    requires AllIn(nodes, elems) && i < |head| && LevelLinked(head, nodes, elems, i) && head[i] == Nil
    ensures forall j :: 0 <= j < |elems| ==> |nodes[elems[j]].next| <= i
  {
    var hts := Heights(nodes, elems);
    LinkSkips(hts, i, 0);
    assert Link(hts, i, 0) == |elems|;
  }

  /** Lowering `level` past an empty header link keeps the list shaped. */
  lemma ShrinkLevel<K(!new), V>(cmp: (K, K) -> int, head: seq<int>, nodes: seq<SkipNode<K, V>>, elems: seq<nat>, level: int)
    requires Shaped(cmp, head, nodes, elems, level) && level > 0 && head[level] == Nil
    ensures Shaped(cmp, head, nodes, elems, level - 1)
  {
    assert LevelLinked(head, nodes, elems, level);
    TopEmpty(head, nodes, elems, level);
  }

  /** Every level is linked over the new order after the relinking loop of `remove`. */
  lemma RemoveLinks<K(!new), V>(cmp: (K, K) -> int, head: seq<int>, nodes: seq<SkipNode<K, V>>, elems: seq<nat>, level: int,
                                update: seq<Pos>, ps: seq<int>, m: nat, hd: seq<int>, nd: seq<SkipNode<K, V>>, elems': seq<nat>)
    requires Wf(cmp, head, nodes, elems, level) && m < |elems| && elems' == elems[..m] + elems[m + 1..]
    requires |update| == |ps| == level + 1 && PredsAt(Heights(nodes, elems), elems, update, ps, m, level + 1)
    requires UnsplicedBelow(head, nodes, update, elems[m], hd, nd, |nodes[elems[m]].next|)
    ensures AllIn(nd, elems') && forall i :: 0 <= i <= MaxLevel ==> LevelLinked(hd, nd, elems', i)
  {
    RemoveLinksAt(cmp, head, nodes, elems, level, update, ps, m, hd, nd, elems', 0);
    forall i | 0 <= i <= MaxLevel ensures LevelLinked(hd, nd, elems', i) {
      RemoveLinksAt(cmp, head, nodes, elems, level, update, ps, m, hd, nd, elems', i);
    }
  }

  lemma RemoveLinksAt<K(!new), V>(cmp: (K, K) -> int, head: seq<int>, nodes: seq<SkipNode<K, V>>, elems: seq<nat>, level: int,
                                  update: seq<Pos>, ps: seq<int>, m: nat, hd: seq<int>, nd: seq<SkipNode<K, V>>, elems': seq<nat>,
                                  i: nat)
    requires Wf(cmp, head, nodes, elems, level) && m < |elems| && elems' == elems[..m] + elems[m + 1..]
    requires |update| == |ps| == level + 1 && PredsAt(Heights(nodes, elems), elems, update, ps, m, level + 1)
    requires UnsplicedBelow(head, nodes, update, elems[m], hd, nd, |nodes[elems[m]].next|)
    requires i <= MaxLevel
    ensures AllIn(nd, elems') && LevelLinked(hd, nd, elems', i)
  {
    var nn := elems[m];
    assert LevelLinked(head, nodes, elems, i);
    if i < |nodes[nn].next| {
      assert PredAt(Heights(nodes, elems), elems, i, ps[i], update[i], m);
      RemoveLevelBelow(head, nodes, hd, nd, elems, elems', m, i, ps[i], update[i]);
    } else {
      assert LevelAgrees(head, nodes, hd, nd, elems, i);
      LevelFrame(head, nodes, hd, nd, elems, i);
      HeightsAgree(nodes, nd, elems);
      RemoveLevelAbove(hd, nd, elems, elems', m, i);
    }
  }

  /** The back links after `remove` (SkipList.js:237-239): the removed node's successor gets
      the removed node's predecessor as its `prev`. */
  lemma RemovePrevs<K, V>(nodes: seq<SkipNode<K, V>>, elems: seq<nat>, m: nat, u: Pos, s: int,
                          nd: seq<SkipNode<K, V>>, elems': seq<nat>)
    requires AllIn(nodes, elems) && forall a, b :: 0 <= a < b < |elems| ==> elems[a] != elems[b]
    requires forall j {:trigger nodes[elems[j]].prev} :: 0 <= j < |elems| ==> nodes[elems[j]].prev == PosOf(elems, j - 1)
    requires m < |elems| && elems' == elems[..m] + elems[m + 1..]
    requires u == PosOf(elems, m - 1) && s == HandleAt(elems, m + 1)
    requires |nd| == |nodes| && forall x :: 0 <= x < |nodes| ==> nd[x].prev == if x == s then u else nodes[x].prev
    ensures forall j :: 0 <= j < |elems'| ==> elems'[j] < |nd| && nd[elems'[j]].prev == PosOf(elems', j - 1)
  {
    forall j | 0 <= j < |elems'| ensures elems'[j] < |nd| && nd[elems'[j]].prev == PosOf(elems', j - 1) {
      if j < m {
        assert elems'[j] == elems[j];
        assert elems[j] != s by {
          if m + 1 < |elems| {
            assert elems[j] != elems[m + 1];
          }
        }
        assert nodes[elems[j]].prev == PosOf(elems, j - 1);
      } else if j == m {
        assert elems'[j] == elems[m + 1] == s;
      } else {
        assert elems'[j] == elems[j + 1] && elems[j + 1] != elems[m + 1];
        assert nodes[elems[j + 1]].prev == PosOf(elems, j);
      }
    }
  }

  /** The keys after `remove`: the old keys without position `m`, still sorted. */
  lemma RemoveKeys<K(!new), V>(cmp: (K, K) -> int, nodes: seq<SkipNode<K, V>>, elems: seq<nat>, m: nat,
                               nd: seq<SkipNode<K, V>>, elems': seq<nat>)
    requires AllIn(nodes, elems) && Sorted(LtOf(cmp), Keys(nodes, elems))
    requires m < |elems| && elems' == elems[..m] + elems[m + 1..] && AllIn(nd, elems')
    requires |nd| == |nodes| && forall x :: 0 <= x < |nodes| ==> nd[x].key == nodes[x].key
    ensures Sorted(LtOf(cmp), Keys(nd, elems'))
  {
    var ks, ks' := Keys(nodes, elems), Keys(nd, elems');
    forall x | 0 <= x < m ensures ks'[x] == ks[x] {
      assert elems'[x] == elems[x];
    }
    forall x | m <= x < |ks'| ensures ks'[x] == ks[x + 1] {
      assert elems'[x] == elems[x + 1];
    }
    RemovedAt(ks, ks', m);
    SortedRemove(LtOf(cmp), ks, m);
  }

  /** The contents after `remove`: the old contents without position `m`. */
  lemma RemoveItems<K, V>(nodes: seq<SkipNode<K, V>>, elems: seq<nat>, m: nat, nd: seq<SkipNode<K, V>>, elems': seq<nat>)
    requires AllIn(nodes, elems) && m < |elems| && elems' == elems[..m] + elems[m + 1..] && AllIn(nd, elems')
    requires |nd| == |nodes| && forall x :: 0 <= x < |nodes| ==> nd[x].key == nodes[x].key && nd[x].value == nodes[x].value
    ensures ItemsOf(nd, elems') == ItemsOf(nodes, elems)[..m] + ItemsOf(nodes, elems)[m + 1..]
  {
    var its, its' := ItemsOf(nodes, elems), ItemsOf(nd, elems');
    forall x | 0 <= x < m ensures its'[x] == its[x] {
      assert elems'[x] == elems[x];
    }
    forall x | m <= x < |its'| ensures its'[x] == its[x + 1] {
      assert elems'[x] == elems[x + 1];
    }
    RemovedAt(its, its', m);
  }

  /** Removing one position keeps the handles distinct. */
  lemma RemoveDistinct(elems: seq<nat>, elems': seq<nat>, m: nat)
    requires m < |elems| && elems' == elems[..m] + elems[m + 1..]
    requires forall a, b :: 0 <= a < b < |elems| ==> elems[a] != elems[b]
    ensures forall a, b :: 0 <= a < b < |elems'| ==> elems'[a] != elems'[b]
  {
    forall a, b | 0 <= a < b < |elems'| ensures elems'[a] != elems'[b] {
      var a', b' := if a < m then a else a + 1, if b < m then b else b + 1;
      assert elems'[a] == elems[a'];
      assert elems'[b] == elems[b'];
    }
  }

  /** The back links, heights and distinct handles after `remove`. */
  lemma RemoveBackLinks<K(!new), V>(cmp: (K, K) -> int, head: seq<int>, nodes: seq<SkipNode<K, V>>, elems: seq<nat>,
                                    level: int, update: seq<Pos>, ps: seq<int>, m: nat, nd: seq<SkipNode<K, V>>,
                                    elems': seq<nat>)
    requires Wf(cmp, head, nodes, elems, level) && m < |elems| && elems' == elems[..m] + elems[m + 1..]
    requires |update| == |ps| == level + 1 && PredsAt(Heights(nodes, elems), elems, update, ps, m, level + 1)
    requires |nd| == |nodes| && forall x :: 0 <= x < |nodes| ==> |nd[x].next| == |nodes[x].next|
    requires forall x :: 0 <= x < |nodes| ==>
      nd[x].prev == if x == nodes[elems[m]].next[0] then update[0] else nodes[x].prev
    ensures AllIn(nd, elems') && (forall a, b :: 0 <= a < b < |elems'| ==> elems'[a] != elems'[b])
    ensures forall j :: 0 <= j < |elems'| ==> 1 <= |nd[elems'[j]].next| <= level + 1
    ensures forall j {:trigger nd[elems'[j]].prev} :: 0 <= j < |elems'| ==> nd[elems'[j]].prev == PosOf(elems', j - 1)
  {
    var hts := Heights(nodes, elems);
    assert PredAt(hts, elems, 0, ps[0], update[0], m);
    LinkBottom(hts, ps[0] + 1);
    StepBottom(cmp, head, nodes, elems, level, m);
    RemovePrevs(nodes, elems, m, update[0], nodes[elems[m]].next[0], nd, elems');
    KeptHeights(nodes, elems, m, nd, elems', level);
    RemoveDistinct(elems, elems', m);
  }

  /** Every node left after `remove` keeps its height. */
  lemma KeptHeights<K, V>(nodes: seq<SkipNode<K, V>>, elems: seq<nat>, m: nat, nd: seq<SkipNode<K, V>>,
                          elems': seq<nat>, level: int)
    requires AllIn(nodes, elems) && m < |elems| && elems' == elems[..m] + elems[m + 1..]
    requires forall j :: 0 <= j < |elems| ==> 1 <= |nodes[elems[j]].next| <= level + 1
    requires |nd| == |nodes| && forall x :: 0 <= x < |nodes| ==> |nd[x].next| == |nodes[x].next|
    ensures forall j :: 0 <= j < |elems'| ==> elems'[j] < |nd| && 1 <= |nd[elems'[j]].next| <= level + 1
  {
    forall j | 0 <= j < |elems'| ensures elems'[j] < |nd| && 1 <= |nd[elems'[j]].next| <= level + 1 {
      assert elems'[j] == elems[if j < m then j else j + 1];
    }
  }

  /** The state the relinking of `remove` leaves, with the back link fixed, is shaped at the
      old level and holds the old contents without position `m`. */
  lemma RemoveFinish<K(!new), V>(cmp: (K, K) -> int, head: seq<int>, nodes: seq<SkipNode<K, V>>, elems: seq<nat>, level: int,
                                 update: seq<Pos>, ps: seq<int>, m: nat, hd: seq<int>, nd0: seq<SkipNode<K, V>>,
                                 nd: seq<SkipNode<K, V>>, elems': seq<nat>)
    requires Wf(cmp, head, nodes, elems, level) && m < |elems| && elems' == elems[..m] + elems[m + 1..]
    requires |update| == |ps| == level + 1 && PredsAt(Heights(nodes, elems), elems, update, ps, m, level + 1)
    requires UnsplicedBelow(head, nodes, update, elems[m], hd, nd0, |nodes[elems[m]].next|)
    requires |nd| == |nd0|
    requires forall x :: 0 <= x < |nd| ==> nd[x].key == nd0[x].key && nd[x].value == nd0[x].value && nd[x].next == nd0[x].next
    requires forall x :: 0 <= x < |nodes| ==>
      nd[x].prev == if x == nodes[elems[m]].next[0] then update[0] else nodes[x].prev
    ensures Shaped(cmp, hd, nd, elems', level)
    ensures ItemsOf(nd, elems') == ItemsOf(nodes, elems)[..m] + ItemsOf(nodes, elems)[m + 1..]
  {
    RemoveLinks(cmp, head, nodes, elems, level, update, ps, m, hd, nd0, elems');
    PrevsOnly(hd, nd0, nd, elems');
    RemoveBackLinks(cmp, head, nodes, elems, level, update, ps, m, nd, elems');
    RemoveKeys(cmp, nodes, elems, m, nd, elems');
    RemoveItems(nodes, elems, m, nd, elems');
  }
}

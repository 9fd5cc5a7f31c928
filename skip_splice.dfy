/** How `add` and `remove` of SkipList.js splice a node into and out of the levels. */
module SkipSplice {
  import opened Common
  import opened SortedSeqs
  import opened SkipLevels

  // ---------------------------------------------------------------------------
  // Facts about positions and heights
  // ---------------------------------------------------------------------------

  /** Positions too low for level `i` between `j` and `c` do not change where a link lands. */
  lemma {:induction false} LinkFlat(hts: seq<nat>, i: nat, j: nat, c: nat)
    requires j <= c <= |hts| && forall x :: j <= x < c ==> hts[x] <= i
    ensures Link(hts, i, j) == Link(hts, i, c)
    decreases c - j
  {
    if j < c {
      LinkFlat(hts, i, j + 1, c);
    }
  }

  /** Handles of the level-0 order once `nn` joins it at position `c`. */
  lemma InsertHandles(elems: seq<nat>, elems': seq<nat>, c: nat, nn: nat)
    requires c <= |elems| && elems' == elems[..c] + [nn] + elems[c..]
    ensures |elems'| == |elems| + 1 && elems'[c] == nn && HandleAt(elems', c) == nn
    ensures forall m {:trigger elems[m]} :: 0 <= m < c ==> elems'[m] == elems[m]
    ensures forall m {:trigger elems[m]} :: c <= m < |elems| ==> elems'[m + 1] == elems[m]
    ensures forall m {:trigger HandleAt(elems, m)} :: 0 <= m < c ==> HandleAt(elems', m) == HandleAt(elems, m)
    ensures forall m {:trigger HandleAt(elems, m)} :: c <= m <= |elems| ==> HandleAt(elems', m + 1) == HandleAt(elems, m)
  {
  }

  /** The heights once `nn` joins the level-0 order at position `c`. */
  lemma InsertHeights<K, V>(nodes: seq<SkipNode<K, V>>, elems: seq<nat>, elems': seq<nat>, c: nat, nn: nat)
    requires AllIn(nodes, elems) && nn < |nodes| && c <= |elems| && elems' == elems[..c] + [nn] + elems[c..]
    ensures AllIn(nodes, elems')
    ensures Heights(nodes, elems') == Heights(nodes, elems)[..c] + [|nodes[nn].next|] + Heights(nodes, elems)[c..]
  {
    InsertHandles(elems, elems', c, nn);
    var hts, hts' := Heights(nodes, elems), Heights(nodes, elems');
    var r := hts[..c] + [|nodes[nn].next|] + hts[c..];
    assert |hts'| == |r|;
    forall m | 0 <= m < |r| ensures hts'[m] == r[m] {
      if m < c {
        assert elems'[m] == elems[m];
      } else if m > c {
        assert elems'[m] == elems[m - 1];
      }
    }
  }

  /** Two arenas give the nodes of `elems` the same heights. */
  ghost predicate SameHeights<K, V>(an: seq<SkipNode<K, V>>, bn: seq<SkipNode<K, V>>, elems: seq<nat>) {
    && AllIn(an, elems) && AllIn(bn, elems)
    && forall j {:trigger elems[j]} :: 0 <= j < |elems| ==> |an[elems[j]].next| == |bn[elems[j]].next|
  }

  lemma HeightsAgree<K, V>(an: seq<SkipNode<K, V>>, bn: seq<SkipNode<K, V>>, elems: seq<nat>)
    requires SameHeights(an, bn, elems)
    ensures Heights(an, elems) == Heights(bn, elems)
  {
  }

  /** Heights that agree on the old order and on `nn` agree on the new order. */
  lemma InsertSameHeights<K, V>(an: seq<SkipNode<K, V>>, bn: seq<SkipNode<K, V>>, elems: seq<nat>, elems': seq<nat>,
                                c: nat, nn: nat)
    requires AllIn(an, elems) && nn < |an| == |bn| && c <= |elems| && elems' == elems[..c] + [nn] + elems[c..]
    requires |bn[nn].next| == |an[nn].next|
    requires forall j {:trigger bn[elems[j]]} :: 0 <= j < |elems| ==> |bn[elems[j]].next| == |an[elems[j]].next|
    ensures SameHeights(an, bn, elems')
  {
    InsertHandles(elems, elems', c, nn);
    forall j | 0 <= j < |elems'| ensures elems'[j] < |an| && |an[elems'[j]].next| == |bn[elems'[j]].next| {
      if j < c {
        assert elems'[j] == elems[j];
      } else if j > c {
        assert elems'[j] == elems[j - 1];
      }
    }
  }

  /** The header's and the nodes' level-`i` links are the same in both states. */
  ghost predicate LevelAgrees<K, V>(ah: seq<int>, an: seq<SkipNode<K, V>>, bh: seq<int>, bn: seq<SkipNode<K, V>>,
                                    elems: seq<nat>, i: nat) {
    && SameHeights(an, bn, elems) && i < |ah| && i < |bh| && ah[i] == bh[i]
    && forall j {:trigger elems[j]} :: 0 <= j < |elems| && i < |an[elems[j]].next| ==>
         an[elems[j]].next[i] == bn[elems[j]].next[i]
  }

  /** A level whose links no step touched stays linked. */
  lemma LevelFrame<K, V>(ah: seq<int>, an: seq<SkipNode<K, V>>, bh: seq<int>, bn: seq<SkipNode<K, V>>,
                         elems: seq<nat>, i: nat)
    requires LevelAgrees(ah, an, bh, bn, elems, i) && LevelLinked(ah, an, elems, i)
    ensures LevelLinked(bh, bn, elems, i)
  {
    HeightsAgree(an, bn, elems);
    forall j | 0 <= j < |elems| && i < |bn[elems[j]].next|
      ensures bn[elems[j]].next[i] == HandleAt(elems, Link(Heights(bn, elems), i, j + 1))
    {
      assert an[elems[j]].next[i] == HandleAt(elems, Link(Heights(an, elems), i, j + 1));
    }
  }

  // ---------------------------------------------------------------------------
  // add: one level at a time
  // ---------------------------------------------------------------------------

  /** A link starting at or before the new position `c` that lands before `c`, or passes a
      new node too low for its level, lands on the same node after the insertion. */
  lemma InsertUnmoved(hts: seq<nat>, hts': seq<nat>, elems: seq<nat>, elems': seq<nat>,
                      c: nat, nn: nat, h: nat, i: nat, j: nat)
    requires c <= |elems| == |hts| && elems' == elems[..c] + [nn] + elems[c..] && hts' == hts[..c] + [h] + hts[c..]
    requires j <= c && (Link(hts, i, j) < c || h <= i)
    ensures HandleAt(elems', Link(hts', i, j)) == HandleAt(elems, Link(hts, i, j))
  {
    InsertHandles(elems, elems', c, nn);
    LinkInsert(hts, hts', c, h, i, j);
  }

  /** A link starting at or after the new position lands on the same node, one place on. */
  lemma InsertShifted(hts: seq<nat>, hts': seq<nat>, elems: seq<nat>, elems': seq<nat>,
                      c: nat, nn: nat, h: nat, i: nat, j: nat)
    requires c <= |elems| == |hts| && elems' == elems[..c] + [nn] + elems[c..] && hts' == hts[..c] + [h] + hts[c..]
    requires c <= j <= |hts|
    ensures HandleAt(elems', Link(hts', i, j + 1)) == HandleAt(elems, Link(hts, i, j))
  {
    InsertHandles(elems, elems', c, nn);
    LinkInsert(hts, hts', c, h, i, j);
  }

  /** A level above the new node's height: no link changes, and the level stays linked. */
  lemma InsertAbove<K, V>(head: seq<int>, nodes: seq<SkipNode<K, V>>, elems: seq<nat>, elems': seq<nat>,
                          c: nat, nn: nat, i: nat)
    requires AllIn(nodes, elems) && nn < |nodes| && c <= |elems| && elems' == elems[..c] + [nn] + elems[c..]
    requires i < |head| && |nodes[nn].next| <= i && LevelLinked(head, nodes, elems, i)
    ensures AllIn(nodes, elems') && LevelLinked(head, nodes, elems', i)
  {
    InsertHeights(nodes, elems, elems', c, nn);
    InsertHandles(elems, elems', c, nn);
    var hts, hts', h := Heights(nodes, elems), Heights(nodes, elems'), |nodes[nn].next|;
    InsertUnmoved(hts, hts', elems, elems', c, nn, h, i, 0);
    forall j | 0 <= j < |elems'| && i < |nodes[elems'[j]].next|
      ensures nodes[elems'[j]].next[i] == HandleAt(elems', Link(hts', i, j + 1))
    {
      if j < c {
        assert elems'[j] == elems[j];
        InsertUnmoved(hts, hts', elems, elems', c, nn, h, i, j + 1);
      } else if j == c {
        assert false;
      } else {
        assert elems'[j] == elems[j - 1];
        InsertShifted(hts, hts', elems, elems', c, nn, h, i, j);
      }
    }
  }

  /** A level the new node reaches: after `nn.nodes[i] = update[i].nodes[i]` and
      `update[i].nodes[i] = nn` (SkipList.js:192-195), where `update[i]` is the last node
      before `c` reaching level `i`, the level is linked over the new order. */
  lemma InsertLevel<K, V>(ah: seq<int>, an: seq<SkipNode<K, V>>, bh: seq<int>, bn: seq<SkipNode<K, V>>,
                          elems: seq<nat>, elems': seq<nat>, c: nat, nn: nat, i: nat, p: int, u: Pos)
    requires AllIn(an, elems) && nn < |an| && c <= |elems| && elems' == elems[..c] + [nn] + elems[c..]
    requires forall a, b :: 0 <= a < b < |elems| ==> elems[a] != elems[b]
    requires i < |ah| && i < |an[nn].next| && LevelLinked(ah, an, elems, i)
    requires PredAt(Heights(an, elems), elems, i, p, u, c)
    requires |bn| == |an| && |bn[nn].next| == |an[nn].next| && bn[nn].next[i] == LinkOf(ah, an, u, i)
    requires forall j {:trigger bn[elems[j]]} :: 0 <= j < |elems| ==> |bn[elems[j]].next| == |an[elems[j]].next|
    requires i < |bh| && bh[i] == (if u == Header then nn else ah[i])
    requires forall j {:trigger bn[elems[j]].next[i]} :: 0 <= j < |elems| && i < |an[elems[j]].next| ==>
      bn[elems[j]].next[i] == if u == At(elems[j]) then nn else an[elems[j]].next[i]
    ensures AllIn(bn, elems') && LevelLinked(bh, bn, elems', i)
  {
    InsertHeights(an, elems, elems', c, nn);
    InsertSameHeights(an, bn, elems, elems', c, nn);
    HeightsAgree(an, bn, elems');
    var hts, hts', h := Heights(an, elems), Heights(an, elems'), |an[nn].next|;
    InsertHeadTarget(hts, hts', elems, elems', c, nn, h, i, p);
    InsertBefore(ah, an, bn, elems, elems', c, nn, i, p, u, hts, hts', h);
    InsertNew(ah, an, bn, elems, elems', c, nn, i, p, u, hts, hts', h);
    forall j | c <= j < |elems|
      ensures u != At(elems[j])
    {
      if p >= 0 {
        assert elems[p] != elems[j];
      }
    }
    InsertAfter(ah, an, bn, elems, elems', c, nn, i, p, u, hts, hts', h);
    InsertLinked(bh, bn, elems, elems', c, nn, i, hts');
  }

  /** The nodes before the insertion point keep their level-`i` targets in the new order,
      except `update[i]`, which now reaches the new node. */
  lemma InsertBefore<K, V>(ah: seq<int>, an: seq<SkipNode<K, V>>, bn: seq<SkipNode<K, V>>,
                           elems: seq<nat>, elems': seq<nat>, c: nat, nn: nat, i: nat, p: int, u: Pos,
                           hts: seq<nat>, hts': seq<nat>, h: nat)
    requires AllIn(an, elems) && c <= |elems| && elems' == elems[..c] + [nn] + elems[c..]
    requires forall a, b :: 0 <= a < b < |elems| ==> elems[a] != elems[b]
    requires hts == Heights(an, elems) && hts' == hts[..c] + [h] + hts[c..] && h > i
    requires i < |ah| && LevelLinked(ah, an, elems, i) && PredAt(hts, elems, i, p, u, c)
    requires |bn| == |an| && forall j {:trigger bn[elems[j]]} :: 0 <= j < |elems| ==> |bn[elems[j]].next| == |an[elems[j]].next|
    requires forall j {:trigger bn[elems[j]].next[i]} :: 0 <= j < |elems| && i < |an[elems[j]].next| ==>
      bn[elems[j]].next[i] == if u == At(elems[j]) then nn else an[elems[j]].next[i]
    ensures forall j {:trigger bn[elems[j]].next[i]} :: 0 <= j < c && i < |bn[elems[j]].next| ==>
      bn[elems[j]].next[i] == HandleAt(elems', Link(hts', i, j + 1))
  {
    forall j | 0 <= j < c && i < |bn[elems[j]].next|
      ensures bn[elems[j]].next[i] == HandleAt(elems', Link(hts', i, j + 1))
    {
      InsertTarget(hts, hts', elems, elems', c, nn, h, i, p, j);
      if j != p {
        if p >= 0 {
          assert elems[p] != elems[j];
        }
        assert u != At(elems[j]);
      }
    }
  }

  /** The new node takes over the old level-`i` target of `update[i]`. */
  lemma InsertNew<K, V>(ah: seq<int>, an: seq<SkipNode<K, V>>, bn: seq<SkipNode<K, V>>,
                        elems: seq<nat>, elems': seq<nat>, c: nat, nn: nat, i: nat, p: int, u: Pos,
                        hts: seq<nat>, hts': seq<nat>, h: nat)
    requires AllIn(an, elems) && nn < |an| && c <= |elems| && elems' == elems[..c] + [nn] + elems[c..]
    requires hts == Heights(an, elems) && hts' == hts[..c] + [h] + hts[c..] && h > i
    requires i < |ah| && LevelLinked(ah, an, elems, i) && PredAt(hts, elems, i, p, u, c)
    requires |bn| == |an| && i < |bn[nn].next| && bn[nn].next[i] == LinkOf(ah, an, u, i)
    ensures bn[nn].next[i] == HandleAt(elems', Link(hts', i, c + 1))
  {
    LinkFrom(ah, an, elems, i, p);
    InsertTarget(hts, hts', elems, elems', c, nn, h, i, p, c);
  }

  /** The nodes after the insertion point keep their level-`i` targets, one place on. */
  lemma InsertAfter<K, V>(ah: seq<int>, an: seq<SkipNode<K, V>>, bn: seq<SkipNode<K, V>>,
                          elems: seq<nat>, elems': seq<nat>, c: nat, nn: nat, i: nat, p: int, u: Pos,
                          hts: seq<nat>, hts': seq<nat>, h: nat)
    requires AllIn(an, elems) && c <= |elems| && elems' == elems[..c] + [nn] + elems[c..]
    requires forall j {:trigger elems[j]} :: c <= j < |elems| ==> u != At(elems[j])
    requires hts == Heights(an, elems) && hts' == hts[..c] + [h] + hts[c..] && h > i
    requires i < |ah| && LevelLinked(ah, an, elems, i) && PredAt(hts, elems, i, p, u, c)
    requires |bn| == |an| && forall j {:trigger bn[elems[j]]} :: 0 <= j < |elems| ==> |bn[elems[j]].next| == |an[elems[j]].next|
    requires forall j {:trigger bn[elems[j]].next[i]} :: 0 <= j < |elems| && i < |an[elems[j]].next| ==>
      bn[elems[j]].next[i] == if u == At(elems[j]) then nn else an[elems[j]].next[i]
    ensures forall j {:trigger bn[elems[j]].next[i]} :: c <= j < |elems| && i < |bn[elems[j]].next| ==>
      bn[elems[j]].next[i] == HandleAt(elems', Link(hts', i, j + 2))
  {
    forall j | c <= j < |elems| && i < |bn[elems[j]].next|
      ensures bn[elems[j]].next[i] == HandleAt(elems', Link(hts', i, j + 2))
    {
      InsertTarget(hts, hts', elems, elems', c, nn, h, i, p, j + 1);
      assert u != At(elems[j]) && i < |an[elems[j]].next|;
      assert an[elems[j]].next[i] == HandleAt(elems, Link(hts, i, j + 1));
    }
  }

  /** The level-`i` links of the new order, given for the nodes before `c`, the new node and
      the nodes after it, make the level linked. */
  lemma InsertLinked<K, V>(head: seq<int>, nodes: seq<SkipNode<K, V>>, elems: seq<nat>, elems': seq<nat>,
                           c: nat, nn: nat, i: nat, hts': seq<nat>)
    requires AllIn(nodes, elems) && nn < |nodes| && c <= |elems| && elems' == elems[..c] + [nn] + elems[c..]
    requires AllIn(nodes, elems') && hts' == Heights(nodes, elems') && i < |head| && head[i] == HandleAt(elems', Link(hts', i, 0))
    requires forall j {:trigger nodes[elems[j]].next[i]} :: 0 <= j < c && i < |nodes[elems[j]].next| ==>
      nodes[elems[j]].next[i] == HandleAt(elems', Link(hts', i, j + 1))
    requires i < |nodes[nn].next| ==> nodes[nn].next[i] == HandleAt(elems', Link(hts', i, c + 1))
    requires forall j {:trigger nodes[elems[j]].next[i]} :: c <= j < |elems| && i < |nodes[elems[j]].next| ==>
      nodes[elems[j]].next[i] == HandleAt(elems', Link(hts', i, j + 2))
    ensures LevelLinked(head, nodes, elems', i)
  {
    forall j | 0 <= j < |elems'| && i < |nodes[elems'[j]].next|
      ensures nodes[elems'[j]].next[i] == HandleAt(elems', Link(hts', i, j + 1))
    {
      if j < c {
        assert elems'[j] == elems[j];
      } else if j > c {
        assert elems'[j] == elems[j - 1];
      }
    }
  }

  /** Where the header's level-`i` link lands after the insertion: on the new node when the
      header was `update[i]`, on its old target otherwise. */
  lemma InsertHeadTarget(hts: seq<nat>, hts': seq<nat>, elems: seq<nat>, elems': seq<nat>,
                         c: nat, nn: nat, h: nat, i: nat, p: int)
    requires c <= |elems| == |hts| && elems' == elems[..c] + [nn] + elems[c..] && hts' == hts[..c] + [h] + hts[c..]
    requires -1 <= p < c <= Link(hts, i, p + 1) && (p >= 0 ==> hts[p] > i) && h > i
    ensures HandleAt(elems', Link(hts', i, 0)) == if p < 0 then nn else HandleAt(elems, Link(hts, i, 0))
  {
    if p < 0 {
      InsertLevelLands(hts, hts', elems, elems', c, nn, h, i, 0);
    } else {
      LinkAtMost(hts, i, 0, p);
      InsertUnmoved(hts, hts', elems, elems', c, nn, h, i, 0);
    }
  }

  /** Where the level-`i` link of the node at new position `j` lands after the insertion:
      `update[i]` (at `p`) now reaches the new node, the other nodes before it keep their
      targets, the new node takes over the old target of `p`, and the nodes after it keep
      their targets one place on; no node strictly between `p` and `c` reaches level `i`. */
  lemma InsertTarget(hts: seq<nat>, hts': seq<nat>, elems: seq<nat>, elems': seq<nat>,
                     c: nat, nn: nat, h: nat, i: nat, p: int, j: nat)
    requires c <= |elems| == |hts| && elems' == elems[..c] + [nn] + elems[c..] && hts' == hts[..c] + [h] + hts[c..]
    requires -1 <= p < c <= Link(hts, i, p + 1) && (p >= 0 ==> hts[p] > i) && h > i
    requires j <= |elems| && (j < c ==> hts[j] > i)
    ensures j < c ==> j <= p
    ensures j == p ==> HandleAt(elems', Link(hts', i, j + 1)) == nn
    ensures j < p ==> HandleAt(elems', Link(hts', i, j + 1)) == HandleAt(elems, Link(hts, i, j + 1))
    ensures j == c ==> HandleAt(elems', Link(hts', i, j + 1)) == HandleAt(elems, Link(hts, i, p + 1))
    ensures j > c ==> HandleAt(elems', Link(hts', i, j + 1)) == HandleAt(elems, Link(hts, i, j))
  {
    if j < c {
      if p < j {
        LinkSkips(hts, i, p + 1);
        assert false;
      } else if j == p {
        InsertLevelLands(hts, hts', elems, elems', c, nn, h, i, p + 1);
      } else {
        LinkAtMost(hts, i, j + 1, p);
        InsertUnmoved(hts, hts', elems, elems', c, nn, h, i, j + 1);
      }
    } else if j == c {
      LinkSkips(hts, i, p + 1);
      LinkFlat(hts, i, p + 1, c);
      InsertShifted(hts, hts', elems, elems', c, nn, h, i, c);
    } else {
      InsertShifted(hts, hts', elems, elems', c, nn, h, i, j);
    }
  }

  /** The link from `update[i]`, which passed every node before `c`, now lands on `nn`. */
  lemma InsertLevelLands(hts: seq<nat>, hts': seq<nat>, elems: seq<nat>, elems': seq<nat>,
                         c: nat, nn: nat, h: nat, i: nat, j: nat)
    requires c <= |elems| == |hts| && elems' == elems[..c] + [nn] + elems[c..] && hts' == hts[..c] + [h] + hts[c..]
    requires j <= c <= Link(hts, i, j) && h > i
    ensures HandleAt(elems', Link(hts', i, j)) == nn
  {
    InsertHandles(elems, elems', c, nn);
    LinkInsert(hts, hts', c, h, i, j);
  }

  // ---------------------------------------------------------------------------
  // add: the whole operation
  // ---------------------------------------------------------------------------

  /** The stopping points of the descent for the levels below `n`, all for the insertion
      point `c`. */
  ghost predicate PredsAt(hts: seq<nat>, elems: seq<nat>, update: seq<Pos>, ps: seq<int>, c: nat, n: nat) {
    && n <= |update| && n <= |ps|
    && forall i :: 0 <= i < n ==> PredAt(hts, elems, i, ps[i], update[i], c)
  }

  /** Above every node's height the descent stops at the header, as `add` records for the
      levels it opens (SkipList.js:181-186). */
  lemma PredsAbove(hts: seq<nat>, elems: seq<nat>, update: seq<Pos>, ps: seq<int>, c: nat, n: nat, m: nat)
    requires PredsAt(hts, elems, update, ps, c, n) && |update| == |ps| == n <= m
    requires |hts| == |elems| && c <= |elems| && forall x :: 0 <= x < |hts| ==> hts[x] <= n
    ensures PredsAt(hts, elems, update + seq(m - n, _ => Header), ps + seq(m - n, _ => -1), c, m)
  {
    var update', ps' := update + seq(m - n, _ => Header), ps + seq(m - n, _ => -1);
    forall i | 0 <= i < m ensures PredAt(hts, elems, i, ps'[i], update'[i], c) {
      if i >= n {
        LinkAbove(hts, i, 0);
      }
    }
  }

  /** Each `update[i]` below `n` has a level-`i` link to read. */
  ghost predicate Linkable<K, V>(head: seq<int>, nodes: seq<SkipNode<K, V>>, update: seq<Pos>, n: nat) {
    && n <= |update| && n <= |head|
    && forall i :: 0 <= i < n && update[i].At? ==> update[i].h < |nodes| && i < |nodes[update[i].h].next|
  }

  lemma PredsLinkable<K, V>(head: seq<int>, nodes: seq<SkipNode<K, V>>, elems: seq<nat>,
                            update: seq<Pos>, ps: seq<int>, c: nat, n: nat)
    requires AllIn(nodes, elems) && n <= |head| && PredsAt(Heights(nodes, elems), elems, update, ps, c, n)
    ensures Linkable(head, nodes, update, n)
  {
    forall i | 0 <= i < n && update[i].At? ensures update[i].h < |nodes| && i < |nodes[update[i].h].next| {
      assert PredAt(Heights(nodes, elems), elems, i, ps[i], update[i], c);
    }
  }

  /** What `update[i].nodes[i]` holds before `add` relinks level `i`: the new node's
      level-`i` link. */
  ghost function Targets<K, V>(head: seq<int>, nodes: seq<SkipNode<K, V>>, update: seq<Pos>, n: nat): (t: seq<int>)
    requires Linkable(head, nodes, update, n)
    ensures |t| == n && forall i :: 0 <= i < n ==> t[i] == LinkOf(head, nodes, update[i], i)
  {
    seq(n, i requires 0 <= i < n => LinkOf(head, nodes, update[i], i))
  }

  /** The state of `add` once the levels below `i` are relinked (SkipList.js:191-195): the
      new node `|nodes|` holds the old targets `t` of `update[..i]`, each of those links to
      it now, and every other link, key and value is as before. */
  ghost predicate SplicedBelow<K, V>(head: seq<int>, nodes: seq<SkipNode<K, V>>, update: seq<Pos>, t: seq<int>,
                                     k: K, v: V, hd: seq<int>, nd: seq<SkipNode<K, V>>, i: nat) {
    && i <= |update| && i <= |t| && |hd| == |head| && |nd| == |nodes| + 1
    && (forall i' :: 0 <= i' < |head| ==> hd[i'] == if i' < i && update[i'] == Header then |nodes| else head[i'])
    && (forall x :: 0 <= x < |nodes| ==>
          nd[x].key == nodes[x].key && nd[x].value == nodes[x].value && |nd[x].next| == |nodes[x].next|)
    && (forall x, i' {:trigger nd[x].next[i']} :: 0 <= x < |nodes| && 0 <= i' < |nodes[x].next| ==>
          nd[x].next[i'] == if i' < i && update[i'] == At(x) then |nodes| else nodes[x].next[i'])
    && nd[|nodes|].key == k && nd[|nodes|].value == v && nd[|nodes|].next == t[..i]
  }

  /** The arena with the new node appended at its full height but nothing relinked yet. */
  lemma Appended<K, V>(head: seq<int>, nodes: seq<SkipNode<K, V>>, a: seq<SkipNode<K, V>>, elems: seq<nat>,
                       n: SkipNode<K, V>, i: nat)
    requires AllIn(nodes, elems) && a == nodes + [n] && i < |head| && LevelLinked(head, nodes, elems, i)
    ensures AllIn(a, elems) && Heights(a, elems) == Heights(nodes, elems) && LevelLinked(head, a, elems, i)
  {
    assert LevelAgrees(head, nodes, head, a, elems, i);
    HeightsAgree(nodes, a, elems);
    LevelFrame(head, nodes, head, a, elems, i);
  }

  /** A level the new node reaches is linked over the new order once it is relinked. */
  lemma AddLevel<K(!new), V>(cmp: (K, K) -> int, head: seq<int>, nodes: seq<SkipNode<K, V>>, elems: seq<nat>, level: int,
                             update: seq<Pos>, ps: seq<int>, c: nat, t: seq<int>, k: K, v: V,
                             hd: seq<int>, nd: seq<SkipNode<K, V>>, elems': seq<nat>, i: nat)
    requires Wf(cmp, head, nodes, elems, level) && c <= |elems| && elems' == elems[..c] + [|nodes|] + elems[c..]
    requires i < |t| && PredsAt(Heights(nodes, elems), elems, update, ps, c, |t|)
    requires Linkable(head, nodes, update, |t|) && t == Targets(head, nodes, update, |t|)
    requires SplicedBelow(head, nodes, update, t, k, v, hd, nd, |t|)
    ensures AllIn(nd, elems') && LevelLinked(hd, nd, elems', i)
  {
    var a := nodes + [SkipNode(k, v, t, Header)];
    assert LevelLinked(head, nodes, elems, i);
    Appended(head, nodes, a, elems, SkipNode(k, v, t, Header), i);
    assert PredAt(Heights(nodes, elems), elems, i, ps[i], update[i], c);
    assert nd[|nodes|].next == t;
    InsertLevel(head, a, hd, nd, elems, elems', c, |nodes|, i, ps[i], update[i]);
  }

  /** A level above the new node's height keeps its links and stays linked. */
  lemma AddAboveLevel<K, V>(head: seq<int>, nodes: seq<SkipNode<K, V>>, elems: seq<nat>,
                            update: seq<Pos>, t: seq<int>, k: K, v: V,
                            hd: seq<int>, nd: seq<SkipNode<K, V>>, c: nat, elems': seq<nat>, i: nat)
    requires AllIn(nodes, elems) && c <= |elems| && elems' == elems[..c] + [|nodes|] + elems[c..]
    requires |t| <= i < |head| && LevelLinked(head, nodes, elems, i)
    requires SplicedBelow(head, nodes, update, t, k, v, hd, nd, |t|)
    ensures AllIn(nd, elems') && LevelLinked(hd, nd, elems', i)
  {
    forall j | 0 <= j < |elems| && i < |nodes[elems[j]].next|
      ensures nodes[elems[j]].next[i] == nd[elems[j]].next[i]
    {
      assert elems[j] < |nodes|;
    }
    assert LevelAgrees(head, nodes, hd, nd, elems, i);
    LevelFrame(head, nodes, hd, nd, elems, i);
    InsertAbove(hd, nd, elems, elems', c, |nodes|, i);
  }

  /** The back links after `add` (SkipList.js:198-201): the new node's `prev` is `update[0]`,
      the node before position `c`, and its successor `s`, the node at `c`, gets the new node
      as its `prev`. */
  lemma AddPrevs<K, V>(nodes: seq<SkipNode<K, V>>, elems: seq<nat>, c: nat, u: Pos, s: int,
                       nd: seq<SkipNode<K, V>>, elems': seq<nat>)
    requires AllIn(nodes, elems) && forall a, b :: 0 <= a < b < |elems| ==> elems[a] != elems[b]
    requires forall j {:trigger nodes[elems[j]].prev} :: 0 <= j < |elems| ==> nodes[elems[j]].prev == PosOf(elems, j - 1)
    requires c <= |elems| && elems' == elems[..c] + [|nodes|] + elems[c..]
    requires u == PosOf(elems, c - 1) && s == HandleAt(elems, c)
    requires |nd| == |nodes| + 1 && nd[|nodes|].prev == u
    requires forall x :: 0 <= x < |nodes| ==> nd[x].prev == if x == s then At(|nodes|) else nodes[x].prev
    ensures forall j :: 0 <= j < |elems'| ==> elems'[j] < |nd| && nd[elems'[j]].prev == PosOf(elems', j - 1)
  {
    InsertHandles(elems, elems', c, |nodes|);
    forall j | 0 <= j < |elems'| ensures elems'[j] < |nd| && nd[elems'[j]].prev == PosOf(elems', j - 1) {
      if j < c {
        assert elems'[j] == elems[j];
        assert c < |elems| ==> elems[j] != elems[c];
        assert nodes[elems[j]].prev == PosOf(elems, j - 1);
      } else if j == c {
      } else if j == c + 1 {
        assert elems'[j] == elems[c] == s;
      } else {
        assert elems'[j] == elems[j - 1] && elems[j - 1] != elems[c];
        assert nodes[elems[j - 1]].prev == PosOf(elems, j - 2);
      }
    }
  }

  /** The keys after `add`: the new key sits at position `c`. */
  lemma InsertKeys<K, V>(nodes: seq<SkipNode<K, V>>, elems: seq<nat>, c: nat, k: K,
                         nd: seq<SkipNode<K, V>>, elems': seq<nat>)
    requires AllIn(nodes, elems) && c <= |elems| && elems' == elems[..c] + [|nodes|] + elems[c..] && |nd| == |nodes| + 1
    requires forall x :: 0 <= x < |nodes| ==> nd[x].key == nodes[x].key
    requires nd[|nodes|].key == k
    ensures AllIn(nd, elems') && Keys(nd, elems') == Keys(nodes, elems)[..c] + [k] + Keys(nodes, elems)[c..]
  {
    InsertHandles(elems, elems', c, |nodes|);
    var ks, ks' := Keys(nodes, elems), Keys(nd, elems');
    forall m | 0 <= m < c ensures ks'[m] == ks[m] {
      assert elems'[m] == elems[m];
    }
    forall m | c < m < |ks'| ensures ks'[m] == ks[m - 1] {
      assert elems'[m] == elems[m - 1];
    }
    InsertedAt(ks, ks', c, k);
  }

  /** The contents after `add`: the new pair sits at position `c`. */
  lemma InsertItems<K, V>(nodes: seq<SkipNode<K, V>>, elems: seq<nat>, c: nat, k: K, v: V,
                          nd: seq<SkipNode<K, V>>, elems': seq<nat>)
    requires AllIn(nodes, elems) && c <= |elems| && elems' == elems[..c] + [|nodes|] + elems[c..] && |nd| == |nodes| + 1
    requires forall x :: 0 <= x < |nodes| ==> nd[x].key == nodes[x].key && nd[x].value == nodes[x].value
    requires nd[|nodes|].key == k && nd[|nodes|].value == v
    ensures AllIn(nd, elems')
    ensures ItemsOf(nd, elems') == ItemsOf(nodes, elems)[..c] + [(k, v)] + ItemsOf(nodes, elems)[c..]
  {
    InsertHandles(elems, elems', c, |nodes|);
    var its, its' := ItemsOf(nodes, elems), ItemsOf(nd, elems');
    forall m | 0 <= m < c ensures its'[m] == its[m] {
      assert elems'[m] == elems[m];
    }
    forall m | c < m < |its'| ensures its'[m] == its[m - 1] {
      assert elems'[m] == elems[m - 1];
    }
    InsertedAt(its, its', c, (k, v));
  }

  /** A key placed at its lower bound keeps the keys sorted. */
  lemma InsertSorted<K(!new)>(cmp: (K, K) -> int, ks: seq<K>, c: nat, k: K)
    requires Comparator(cmp) && Sorted(LtOf(cmp), ks) && c == LowerIdx(LtOf(cmp), ks, k)
    ensures Sorted(LtOf(cmp), ks[..c] + [k] + ks[c..])
  {
    ComparatorIsStrictWeakOrder(cmp);
    LowerIdxSpec(LtOf(cmp), ks, k);
    SortedInsert(LtOf(cmp), ks, c, k);
  }

  // ---------------------------------------------------------------------------
  // add: the relinking loop and the final state
  // ---------------------------------------------------------------------------

  /** While `add` relinks level `i`, that level still holds the old links: the link of
      `update[i]` there is its old target `t[i]`. */
  lemma SplicedLink<K, V>(head: seq<int>, nodes: seq<SkipNode<K, V>>, update: seq<Pos>, t: seq<int>,
                          k: K, v: V, hd: seq<int>, nd: seq<SkipNode<K, V>>, i: nat)
    requires Linkable(head, nodes, update, |t|) && t == Targets(head, nodes, update, |t|) && i < |t|
    requires SplicedBelow(head, nodes, update, t, k, v, hd, nd, i)
    ensures update[i].At? ==> update[i].h < |nodes| && i < |nd[update[i].h].next|
    ensures LinkOf(hd, nd, update[i], i) == t[i]
  {
    if update[i].At? {
      var x := update[i].h;
      assert nd[x].next[i] == nodes[x].next[i];
    }
  }

  /** One round of the relinking loop of `add` (SkipList.js:189-192): the new node takes
      `t[i]` as its level-`i` link and `update[i]` links to it at level `i`. */
  lemma SpliceStep<K, V>(head: seq<int>, nodes: seq<SkipNode<K, V>>, update: seq<Pos>, t: seq<int>,
                         k: K, v: V, hd: seq<int>, nd: seq<SkipNode<K, V>>, i: nat,
                         hd': seq<int>, nd': seq<SkipNode<K, V>>)
    requires Linkable(head, nodes, update, |t|) && t == Targets(head, nodes, update, |t|) && i < |t|
    requires SplicedBelow(head, nodes, update, t, k, v, hd, nd, i)
    requires update[i].At? ==> update[i].h < |nodes| && i < |nd[update[i].h].next|
    requires var nd1 := nd[|nodes| := nd[|nodes|].(next := nd[|nodes|].next + [t[i]])];
      && hd' == (if update[i] == Header then hd[i := |nodes|] else hd)
      && nd' == (if update[i] == Header then nd1
                 else nd1[update[i].h := nd1[update[i].h].(next := nd1[update[i].h].next[i := |nodes|])])
    ensures SplicedBelow(head, nodes, update, t, k, v, hd', nd', i + 1)
    ensures forall x :: 0 <= x < |nodes| ==> nd'[x].prev == nd[x].prev
  {
    assert t[..i + 1] == t[..i] + [t[i]];
  }

  /** Every level is linked over the new order once `add` has relinked the levels the new
      node reaches. */
  lemma AddLinks<K(!new), V>(cmp: (K, K) -> int, head: seq<int>, nodes: seq<SkipNode<K, V>>, elems: seq<nat>, level: int,
                             update: seq<Pos>, ps: seq<int>, c: nat, t: seq<int>, k: K, v: V,
                             hd: seq<int>, nd: seq<SkipNode<K, V>>, elems': seq<nat>)
    requires Wf(cmp, head, nodes, elems, level) && c <= |elems| && elems' == elems[..c] + [|nodes|] + elems[c..]
    requires 0 < |t| <= MaxLevel + 1 && PredsAt(Heights(nodes, elems), elems, update, ps, c, |t|)
    requires Linkable(head, nodes, update, |t|) && t == Targets(head, nodes, update, |t|)
    requires SplicedBelow(head, nodes, update, t, k, v, hd, nd, |t|)
    ensures AllIn(nd, elems')
    ensures forall i :: 0 <= i <= MaxLevel ==> LevelLinked(hd, nd, elems', i)
  {
    AddLinksAt(cmp, head, nodes, elems, level, update, ps, c, t, k, v, hd, nd, elems', 0);
    forall i | 0 <= i <= MaxLevel ensures LevelLinked(hd, nd, elems', i) {
      AddLinksAt(cmp, head, nodes, elems, level, update, ps, c, t, k, v, hd, nd, elems', i);
    }
  }

  lemma AddLinksAt<K(!new), V>(cmp: (K, K) -> int, head: seq<int>, nodes: seq<SkipNode<K, V>>, elems: seq<nat>, level: int,
                               update: seq<Pos>, ps: seq<int>, c: nat, t: seq<int>, k: K, v: V,
                               hd: seq<int>, nd: seq<SkipNode<K, V>>, elems': seq<nat>, i: nat)
    requires Wf(cmp, head, nodes, elems, level) && c <= |elems| && elems' == elems[..c] + [|nodes|] + elems[c..]
    requires 0 < |t| <= MaxLevel + 1 && PredsAt(Heights(nodes, elems), elems, update, ps, c, |t|)
    requires Linkable(head, nodes, update, |t|) && t == Targets(head, nodes, update, |t|)
    requires SplicedBelow(head, nodes, update, t, k, v, hd, nd, |t|)
    requires i <= MaxLevel
    ensures AllIn(nd, elems') && LevelLinked(hd, nd, elems', i)
  {
    if i < |t| {
      AddLevel(cmp, head, nodes, elems, level, update, ps, c, t, k, v, hd, nd, elems', i);
    } else {
      assert LevelLinked(head, nodes, elems, i);
      AddAboveLevel(head, nodes, elems, update, t, k, v, hd, nd, c, elems', i);
    }
  }

  /** Changing only back links keeps every level linked. */
  lemma PrevsOnly<K, V>(hd: seq<int>, an: seq<SkipNode<K, V>>, bn: seq<SkipNode<K, V>>, elems: seq<nat>)
    requires AllIn(an, elems) && |an| == |bn| && |hd| == MaxLevel + 1
    requires forall x :: 0 <= x < |an| ==> bn[x].key == an[x].key && bn[x].value == an[x].value && bn[x].next == an[x].next
    requires forall i :: 0 <= i <= MaxLevel ==> LevelLinked(hd, an, elems, i)
    ensures AllIn(bn, elems) && Heights(bn, elems) == Heights(an, elems)
    ensures Keys(bn, elems) == Keys(an, elems) && ItemsOf(bn, elems) == ItemsOf(an, elems)
    ensures forall i :: 0 <= i <= MaxLevel ==> LevelLinked(hd, bn, elems, i)
  {
    forall i | 0 <= i <= MaxLevel ensures LevelLinked(hd, bn, elems, i) {
      assert LevelAgrees(hd, an, hd, bn, elems, i);
      LevelFrame(hd, an, hd, bn, elems, i);
    }
  }

  /** The neighbours of the new node, read off the descent: `update[0]` is the node before
      position `c` and `t[0]` the node at `c`. */
  lemma AddNeighbours<K(!new), V>(cmp: (K, K) -> int, head: seq<int>, nodes: seq<SkipNode<K, V>>, elems: seq<nat>, level: int,
                                  update: seq<Pos>, ps: seq<int>, c: nat, t: seq<int>)
    requires Wf(cmp, head, nodes, elems, level) && c <= |elems|
    requires 0 < |t| && PredsAt(Heights(nodes, elems), elems, update, ps, c, |t|)
    requires Linkable(head, nodes, update, |t|) && t == Targets(head, nodes, update, |t|)
    ensures update[0] == PosOf(elems, c - 1) && t[0] == HandleAt(elems, c)
    ensures t[0] == Nil || 0 <= t[0] < |nodes|
  {
    var hts := Heights(nodes, elems);
    assert PredAt(hts, elems, 0, ps[0], update[0], c);
    LinkBottom(hts, ps[0] + 1);
    StepBottom(cmp, head, nodes, elems, level, ps[0]);
  }

  /** The back links after `add`, read off the descent: `update[0]` is the node before
      position `c` and `t[0]` the node at `c`. */
  lemma AddBackLinks<K(!new), V>(cmp: (K, K) -> int, head: seq<int>, nodes: seq<SkipNode<K, V>>, elems: seq<nat>, level: int,
                                 update: seq<Pos>, ps: seq<int>, c: nat, t: seq<int>,
                                 nd: seq<SkipNode<K, V>>, elems': seq<nat>)
    requires Wf(cmp, head, nodes, elems, level) && c <= |elems| && elems' == elems[..c] + [|nodes|] + elems[c..]
    requires 0 < |t| && PredsAt(Heights(nodes, elems), elems, update, ps, c, |t|)
    requires Linkable(head, nodes, update, |t|) && t == Targets(head, nodes, update, |t|)
    requires |nd| == |nodes| + 1 && nd[|nodes|].prev == update[0]
    requires forall x :: 0 <= x < |nodes| ==> nd[x].prev == if x == t[0] then At(|nodes|) else nodes[x].prev
    ensures forall j :: 0 <= j < |elems'| ==> elems'[j] < |nd| && nd[elems'[j]].prev == PosOf(elems', j - 1)
  {
    AddNeighbours(cmp, head, nodes, elems, level, update, ps, c, t);
    AddPrevs(nodes, elems, c, update[0], t[0], nd, elems');
  }

  /** After `add` the handles stay distinct and every node has between 1 and `level' + 1`
      levels. */
  lemma AddHeights<K(!new), V>(cmp: (K, K) -> int, head: seq<int>, nodes: seq<SkipNode<K, V>>, elems: seq<nat>, level: int,
                               c: nat, lvl: nat, level': int, nd: seq<SkipNode<K, V>>, elems': seq<nat>)
    requires Wf(cmp, head, nodes, elems, level) && level' == Max(level, lvl)
    requires c <= |elems| && elems' == elems[..c] + [|nodes|] + elems[c..]
    requires |nd| == |nodes| + 1 && |nd[|nodes|].next| == lvl + 1
    requires forall x :: 0 <= x < |nodes| ==> |nd[x].next| == |nodes[x].next|
    ensures forall a, b :: 0 <= a < b < |elems'| ==> elems'[a] != elems'[b]
    ensures forall j :: 0 <= j < |elems'| ==> elems'[j] < |nd| && 1 <= |nd[elems'[j]].next| <= level' + 1
  {
    InsertHandles(elems, elems', c, |nodes|);
    forall j | 0 <= j < |elems'| ensures elems'[j] < |nd| && 1 <= |nd[elems'[j]].next| <= level' + 1 {
      if j < c {
        assert elems'[j] == elems[j];
      } else if j > c {
        assert elems'[j] == elems[j - 1];
      }
    }
    forall a, b | 0 <= a < b < |elems'| ensures elems'[a] != elems'[b] {
      if a < c && b > c {
        assert elems'[a] == elems[a] && elems'[b] == elems[b - 1];
      } else if b < c {
        assert elems'[a] == elems[a] && elems'[b] == elems[b];
      } else if a > c {
        assert elems'[a] == elems[a - 1] && elems'[b] == elems[b - 1];
      }
    }
  }

  /** The keys after `add` stay sorted, and the contents gain `(k, v)` at position `c`. */
  lemma AddOrder<K(!new), V>(cmp: (K, K) -> int, nodes: seq<SkipNode<K, V>>, elems: seq<nat>, c: nat, k: K, v: V,
                             nd: seq<SkipNode<K, V>>, elems': seq<nat>)
    requires Comparator(cmp) && AllIn(nodes, elems) && Sorted(LtOf(cmp), Keys(nodes, elems))
    requires c == LowerIdx(LtOf(cmp), Keys(nodes, elems), k) && elems' == elems[..c] + [|nodes|] + elems[c..]
    requires |nd| == |nodes| + 1 && nd[|nodes|].key == k && nd[|nodes|].value == v
    requires forall x :: 0 <= x < |nodes| ==> nd[x].key == nodes[x].key && nd[x].value == nodes[x].value
    ensures AllIn(nd, elems') && Sorted(LtOf(cmp), Keys(nd, elems'))
    ensures ItemsOf(nd, elems') == ItemsOf(nodes, elems)[..c] + [(k, v)] + ItemsOf(nodes, elems)[c..]
  {
    InsertKeys(nodes, elems, c, k, nd, elems');
    InsertSorted(cmp, Keys(nodes, elems), c, k);
    InsertItems(nodes, elems, c, k, v, nd, elems');
  }

  /** The state `add` leaves (SkipList.js:179-200) is a well-formed list whose contents have
      `(k, v)` inserted at the lower bound of `k`, and whose level is the larger of the old
      level and the drawn one. */
  lemma AddFinish<K(!new), V>(cmp: (K, K) -> int, head: seq<int>, nodes: seq<SkipNode<K, V>>, elems: seq<nat>, level: int,
                              update: seq<Pos>, ps: seq<int>, c: nat, t: seq<int>, k: K, v: V, lvl: nat, level': int,
                              hd: seq<int>, nd0: seq<SkipNode<K, V>>, nd: seq<SkipNode<K, V>>, elems': seq<nat>)
    requires Wf(cmp, head, nodes, elems, level) && lvl <= MaxLevel && level' == Max(level, lvl)
    requires c == LowerIdx(LtOf(cmp), Keys(nodes, elems), k) && elems' == elems[..c] + [|nodes|] + elems[c..]
    requires |t| == lvl + 1 && PredsAt(Heights(nodes, elems), elems, update, ps, c, |t|)
    requires Linkable(head, nodes, update, |t|) && t == Targets(head, nodes, update, |t|)
    requires lvl > level ==> update[lvl] == Header
    requires SplicedBelow(head, nodes, update, t, k, v, hd, nd0, |t|)
    requires forall x :: 0 <= x < |nodes| ==> nd0[x].prev == nodes[x].prev
    requires |nd| == |nd0| && nd[|nodes|].prev == update[0]
    requires forall x :: 0 <= x < |nd| ==> nd[x].key == nd0[x].key && nd[x].value == nd0[x].value && nd[x].next == nd0[x].next
    requires forall x :: 0 <= x < |nodes| ==> nd[x].prev == if x == t[0] then At(|nodes|) else nodes[x].prev
    ensures Wf(cmp, hd, nd, elems', level')
    ensures ItemsOf(nd, elems') == ItemsOf(nodes, elems)[..c] + [(k, v)] + ItemsOf(nodes, elems)[c..]
  {
    LowerIdxBound(cmp, nodes, elems, k);
    AddLinks(cmp, head, nodes, elems, level, update, ps, c, t, k, v, hd, nd0, elems');
    PrevsOnly(hd, nd0, nd, elems');
    AddBackLinks(cmp, head, nodes, elems, level, update, ps, c, t, nd, elems');
    AddHeights(cmp, head, nodes, elems, level, c, lvl, level', nd, elems');
    AddOrder(cmp, nodes, elems, c, k, v, nd, elems');
    assert Shaped(cmp, hd, nd, elems', level');
    if level' != 0 {
      if lvl > level {
        assert hd[lvl] == |nodes|;
      } else {
        assert head[level] != Nil;
      }
    }
  }

  lemma LowerIdxBound<K, V>(cmp: (K, K) -> int, nodes: seq<SkipNode<K, V>>, elems: seq<nat>, k: K)
    requires AllIn(nodes, elems)
    ensures LowerIdx(LtOf(cmp), Keys(nodes, elems), k) <= |elems|
  {
  }
}

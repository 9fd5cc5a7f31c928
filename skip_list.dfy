/** The skip list of SkipList.js as a class over a node arena (see `SkipLevels`): the
    queries' specifications and the class whose fields are the header's links, the arena,
    the count and the current level. */
module SkipLists {
  import opened Common
  import opened SortedSeqs
  import opened SkipLevels
  import opened SkipSplice
  import opened SkipUnsplice

  // ---------------------------------------------------------------------------
  // Specifications of the queries
  // ---------------------------------------------------------------------------

  /** The values of a list of (key, value) pairs. */
  function ValuesOf<K, V>(s: seq<(K, V)>): (vs: seq<V>)
    ensures |vs| == |s| && forall j :: 0 <= j < |s| ==> vs[j] == s[j].1
  {
    seq(|s|, j requires 0 <= j < |s| => s[j].1)
  }

  /** The keys of a list of (key, value) pairs. */
  function KeysOf<K, V>(s: seq<(K, V)>): (ks: seq<K>)
    ensures |ks| == |s| && forall j :: 0 <= j < |s| ==> ks[j] == s[j].0
  {
    seq(|s|, j requires 0 <= j < |s| => s[j].0)
  }

  lemma KeysOfItems<K, V>(nodes: seq<SkipNode<K, V>>, elems: seq<nat>)
    requires AllIn(nodes, elems)
    ensures KeysOf(ItemsOf(nodes, elems)) == Keys(nodes, elems)
  {
  }

  /** The values whose keys lie between `a` and `b`, both included, in order. */
  function InRange<K, V>(cmp: (K, K) -> int, s: seq<(K, V)>, a: K, b: K): seq<V>
    decreases |s|
  {
    if s == [] then []
    else
      var last := s[|s| - 1];
      InRange(cmp, s[..|s| - 1], a, b) + (if cmp(last.0, a) >= 0 && cmp(last.0, b) <= 0 then [last.1] else [])
  }

  /** The values whose keys compare equal to `k`, in order. */
  function WithKey<K, V>(cmp: (K, K) -> int, s: seq<(K, V)>, k: K): seq<V>
    decreases |s|
  {
    if s == [] then []
    else
      var last := s[|s| - 1];
      WithKey(cmp, s[..|s| - 1], k) + (if cmp(last.0, k) == 0 then [last.1] else [])
  }

  lemma {:induction false} InRangeConcat<K, V>(cmp: (K, K) -> int, x: seq<(K, V)>, y: seq<(K, V)>, a: K, b: K)
    ensures InRange(cmp, x + y, a, b) == InRange(cmp, x, a, b) + InRange(cmp, y, a, b)
    decreases |y|
  {
    if y == [] {
      assert x + y == x;
    } else {
      var y' := y[..|y| - 1];
      assert (x + y)[..|x + y| - 1] == x + y';
      InRangeConcat(cmp, x, y', a, b);
    }
  }

  /** Pairs whose keys are all out of range contribute nothing. */
  lemma {:induction false} InRangeNone<K, V>(cmp: (K, K) -> int, t: seq<(K, V)>, a: K, b: K)
    requires forall j :: 0 <= j < |t| ==> cmp(t[j].0, a) < 0 || cmp(t[j].0, b) > 0
    ensures InRange(cmp, t, a, b) == []
    decreases |t|
  {
    if t != [] {
      InRangeNone(cmp, t[..|t| - 1], a, b);
    }
  }

  /** Pairs whose keys are all in range contribute all their values. */
  lemma {:induction false} InRangeAll<K, V>(cmp: (K, K) -> int, t: seq<(K, V)>, a: K, b: K)
    requires forall j :: 0 <= j < |t| ==> cmp(t[j].0, a) >= 0 && cmp(t[j].0, b) <= 0
    ensures InRange(cmp, t, a, b) == ValuesOf(t)
    decreases |t|
  {
    if t != [] {
      var t' := t[..|t| - 1];
      InRangeAll(cmp, t', a, b);
      assert ValuesOf(t) == ValuesOf(t') + [t[|t| - 1].1];
    }
  }

  /** The range from `k` to `k` holds exactly the values with key `k` (why `getAll` is
      `getRange(key, key)`). */
  lemma {:induction false} InRangeSame<K(!new), V>(cmp: (K, K) -> int, s: seq<(K, V)>, k: K)
    requires Comparator(cmp)
    ensures InRange(cmp, s, k, k) == WithKey(cmp, s, k)
    decreases |s|
  {
    if s != [] {
      InRangeSame(cmp, s[..|s| - 1], k);
      var x := s[|s| - 1].0;
      assert cmp(x, k) >= 0 && cmp(x, k) <= 0 <==> cmp(x, k) == 0;
    }
  }

  /** In a sorted list, some key equals `k` exactly when the first key not less than `k`
      does, and that is then the first key equal to `k`. */
  lemma EqualAtLower<K(!new), V>(cmp: (K, K) -> int, nodes: seq<SkipNode<K, V>>, elems: seq<nat>, k: K, lb: nat)
    requires Comparator(cmp) && AllIn(nodes, elems) && Sorted(LtOf(cmp), Keys(nodes, elems))
    requires lb == LowerIdx(LtOf(cmp), Keys(nodes, elems), k)
    ensures HasKey(cmp, ItemsOf(nodes, elems), k) <==> lb < |elems| && cmp(nodes[elems[lb]].key, k) == 0
    ensures forall j :: 0 <= j < lb ==> cmp(ItemsOf(nodes, elems)[j].0, k) != 0
  {
    var ks, s := Keys(nodes, elems), ItemsOf(nodes, elems);
    ComparatorIsStrictWeakOrder(cmp);
    LowerIdxSpec(LtOf(cmp), ks, k);
    if lb < |ks| && cmp(ks[lb], k) != 0 {
      assert LtOf(cmp)(k, ks[lb]);
      SuffixGt(LtOf(cmp), ks, lb, k);
      forall j | 0 <= j < |s| ensures cmp(s[j].0, k) != 0 {
        assert s[j].0 == ks[j];
      }
    } else if lb < |ks| {
      assert s[lb].0 == ks[lb];
    }
    forall j | 0 <= j < lb ensures cmp(s[j].0, k) != 0 {
      assert s[j].0 == ks[j];
    }
  }

  /** Some key compares equal to `k`. */
  ghost predicate HasKey<K, V>(cmp: (K, K) -> int, s: seq<(K, V)>, k: K) {
    exists j :: 0 <= j < |s| && cmp(s[j].0, k) == 0
  }

  lemma InRangeSplit<K, V>(cmp: (K, K) -> int, s: seq<(K, V)>, m: nat, a: K, b: K)
    requires m <= |s|
    ensures InRange(cmp, s, a, b) == InRange(cmp, s[..m], a, b) + InRange(cmp, s[m..], a, b)
  {
    assert s == s[..m] + s[m..];
    InRangeConcat(cmp, s[..m], s[m..], a, b);
  }

  /** A range contributed only by the middle slice is that slice's range. */
  lemma InRangeSlices<K, V>(cmp: (K, K) -> int, s: seq<(K, V)>, a: K, b: K, lb: nat, stop: nat)
    requires lb <= stop <= |s|
    requires InRange(cmp, s[..lb], a, b) == [] && InRange(cmp, s[stop..], a, b) == []
    ensures InRange(cmp, s, a, b) == InRange(cmp, s[lb..stop], a, b)
  {
    InRangeSplit(cmp, s, stop, a, b);
    InRangeSplit(cmp, s[..stop], lb, a, b);
    assert s[..stop][..lb] == s[..lb];
    assert s[..stop][lb..] == s[lb..stop];
  }

  /** When the keys below `lb` are less than `a`, those from `stop` on greater than `b` and
      those between in range, the range is the slice between. */
  lemma SliceInRange<K, V>(cmp: (K, K) -> int, s: seq<(K, V)>, a: K, b: K, lb: nat, stop: nat)
    requires lb <= stop <= |s|
    requires forall j :: 0 <= j < lb ==> cmp(s[j].0, a) < 0
    requires forall j :: lb <= j < stop ==> cmp(s[j].0, a) >= 0 && cmp(s[j].0, b) <= 0
    requires forall j :: stop <= j < |s| ==> cmp(s[j].0, b) > 0
    ensures InRange(cmp, s, a, b) == ValuesOf(s[lb..stop])
  {
    InRangeNone(cmp, s[..lb], a, b);
    InRangeAll(cmp, s[lb..stop], a, b);
    InRangeNone(cmp, s[stop..], a, b);
    InRangeSlices(cmp, s, a, b, lb, stop);
  }

  /** Values read off positions `lb` up to `stop` are the values of that slice of the contents. */
  lemma ValuesOfSlice<K, V>(nodes: seq<SkipNode<K, V>>, elems: seq<nat>, lb: nat, stop: nat, elements: seq<V>)
    requires AllIn(nodes, elems) && lb <= stop <= |elems| && |elements| == stop - lb
    requires forall t :: 0 <= t < |elements| ==> elements[t] == nodes[elems[lb + t]].value
    ensures elements == ValuesOf(ItemsOf(nodes, elems)[lb..stop])
  {
    var vs := ValuesOf(ItemsOf(nodes, elems)[lb..stop]);
    forall j | 0 <= j < |elements| ensures elements[j] == vs[j] {
    }
  }

  /** The range `a`..`b` of a sorted list is the slice from the first key not less than `a`
      up to the first key greater than `b`: what `getRange` walks. */
  lemma RangeSlice<K(!new), V>(cmp: (K, K) -> int, nodes: seq<SkipNode<K, V>>, elems: seq<nat>, a: K, b: K,
                               lb: nat, stop: nat, elements: seq<V>)
    requires Comparator(cmp) && AllIn(nodes, elems) && Sorted(LtOf(cmp), Keys(nodes, elems))
    requires lb == LowerIdx(LtOf(cmp), Keys(nodes, elems), a) && lb <= stop <= |elems|
    requires |elements| == stop - lb
    requires forall t :: 0 <= t < |elements| ==> elements[t] == nodes[elems[lb + t]].value
    requires forall j :: lb <= j < stop ==> cmp(nodes[elems[j]].key, b) <= 0
    requires stop < |elems| ==> cmp(nodes[elems[stop]].key, b) > 0
    ensures elements == InRange(cmp, ItemsOf(nodes, elems), a, b)
  {
    var ks, s := Keys(nodes, elems), ItemsOf(nodes, elems);
    LowerSplitOf(cmp, nodes, elems, a);
    if stop < |elems| {
      ComparatorIsStrictWeakOrder(cmp);
      assert LtOf(cmp)(b, ks[stop]);
      SuffixGt(LtOf(cmp), ks, stop, b);
    }
    SliceInRange(cmp, s, a, b, lb, stop);
    ValuesOfSlice(nodes, elems, lb, stop, elements);
  }

  /** Position `j` holds the first key that compares equal to `k`. */
  ghost predicate FirstWithKey<K, V>(cmp: (K, K) -> int, s: seq<(K, V)>, k: K, j: int) {
    0 <= j < |s| && cmp(s[j].0, k) == 0 && forall j' :: 0 <= j' < j ==> cmp(s[j'].0, k) != 0
  }

  /** The position `remove` deletes: the first pair whose key compares equal to `k` and
      whose value `p` accepts, `None` if there is none. */
  function FirstKeyMatch<K, V>(cmp: (K, K) -> int, s: seq<(K, V)>, k: K, p: V -> bool): (r: Option<nat>)
    ensures r.Some? ==> r.value < |s| && cmp(s[r.value].0, k) == 0 && p(s[r.value].1)
    ensures forall j :: 0 <= j < |s| && (r.None? || j < r.value) ==> !(cmp(s[j].0, k) == 0 && p(s[j].1))
    decreases |s|
  {
    if s == [] then None
    else if cmp(s[0].0, k) == 0 && p(s[0].1) then Some(0)
    else
      match FirstKeyMatch(cmp, s[1..], k, p)
      case None => None
      case Some(r) => Some(r + 1)
  }

  /** The scan of `remove` finds what `FirstKeyMatch` specifies: starting at the first key
      not less than `k`, it passes the nodes with key `k` that `p` rejects, and stops at a
      node with key `k` that `p` accepts or at the first key greater than `k`, after which
      no key equals `k`. */
  lemma ScanFindsKeyMatch<K(!new), V>(cmp: (K, K) -> int, nodes: seq<SkipNode<K, V>>, elems: seq<nat>, k: K,
                                      p: V -> bool, lb: nat, j: nat)
    requires Comparator(cmp) && AllIn(nodes, elems) && Sorted(LtOf(cmp), Keys(nodes, elems))
    requires lb == LowerIdx(LtOf(cmp), Keys(nodes, elems), k) && lb <= j <= |elems|
    requires forall x :: lb <= x < j ==> cmp(nodes[elems[x]].key, k) == 0 && !p(nodes[elems[x]].value)
    requires j < |elems| ==> cmp(nodes[elems[j]].key, k) != 0 || p(nodes[elems[j]].value)
    ensures FirstKeyMatch(cmp, ItemsOf(nodes, elems), k, p)
         == if j < |elems| && cmp(nodes[elems[j]].key, k) == 0 then Some(j) else None
  {
    var ks, s := Keys(nodes, elems), ItemsOf(nodes, elems);
    var r := FirstKeyMatch(cmp, s, k, p);
    EqualAtLower(cmp, nodes, elems, k, lb);
    forall x | 0 <= x < j ensures !(cmp(s[x].0, k) == 0 && p(s[x].1)) {
      if x >= lb {
        assert s[x] == (nodes[elems[x]].key, nodes[elems[x]].value);
      }
    }
    if j < |elems| && cmp(nodes[elems[j]].key, k) == 0 {
      assert s[j] == (nodes[elems[j]].key, nodes[elems[j]].value);
    } else if j < |elems| {
      ComparatorIsStrictWeakOrder(cmp);
      LowerIdxSpec(LtOf(cmp), ks, k);
      assert !LtOf(cmp)(ks[j], k);
      SuffixGt(LtOf(cmp), ks, j, k);
      forall x | j <= x < |s| ensures cmp(s[x].0, k) != 0 {
        assert s[x].0 == ks[x] && LtOf(cmp)(k, ks[x]);
      }
    }
  }

  /** `randomLevel` (SkipList.js:127-139) with the coin flips as input: one more level per
      leading flip that came up (`Math.random() < cProb`), at most `cMaxLevel`. The flips
      are finite here, and running out of them ends the draw. */
  method RandomLevel(flips: seq<bool>) returns (level: nat)
    ensures level <= MaxLevel && level <= |flips|
    ensures forall j :: 0 <= j < level ==> flips[j]
    ensures level < MaxLevel && level < |flips| ==> !flips[level]
  {
    level := 0;
    while level < |flips| && flips[level] && level < MaxLevel
      invariant level <= MaxLevel && level <= |flips|
      invariant forall j :: 0 <= j < level ==> flips[j]
    {
      level := level + 1;
    }
  }

  /** The default `compare` (SkipList.js:88-96) on integers: -1, 1 or 0 by `<` and `>`. */
  function DefaultCompare(first: int, second: int): int {
    if first < second then -1 else if first > second then 1 else 0
  }

  lemma DefaultCompareIsComparator()
    ensures Comparator(DefaultCompare)
    ensures forall a, b :: DefaultCompare(a, b) == 0 <==> a == b
  {
  }

  // ---------------------------------------------------------------------------
  // The skip list
  // ---------------------------------------------------------------------------

  class SkipList<K(!new), V> {
    /** `compare`: negative, zero or positive as the first key is less, equal or greater. */
    const cmp: (K, K) -> int
    /** The forward array of the header node. */
    var head: seq<int>
    var nodes: seq<SkipNode<K, V>>
    var count: int
    var level: int
    ghost var elems: seq<nat>

    ghost predicate Valid()
      reads this
    {
      Wf(cmp, head, nodes, elems, level) && count == |elems|
    }

    /** The (key, value) pairs in level-0 order. */
    ghost function Items(): seq<(K, V)>
      reads this
      requires Valid()
    {
      ItemsOf(nodes, elems)
    }

    /** `new SkipList(compare)` with `init` (SkipList.js:72-102, 124-126): an empty list. */
    constructor(cmp: (K, K) -> int)
      requires Comparator(cmp)
      ensures Valid() && Items() == [] && count == 0 && level == 0 && this.cmp == cmp
    {
      this.cmp := cmp;
      head := seq(MaxLevel + 1, _ => Nil);
      nodes := [];
      count := 0;
      level := 0;
      elems := [];
      new;
      EmptyWf(cmp, head, nodes);
    }

    /** `contains` (SkipList.js:140-161): whether some key compares equal to `k`. */
    method Contains(k: K) returns (found: bool)
      requires Valid()
      ensures found <==> HasKey(cmp, Items(), k)
    {
      var update;
      ghost var ps;
      update, ps := FindPreds(cmp, head, nodes, elems, level, k);
      StepBottom(cmp, head, nodes, elems, level, ps[0]);
      var node := LinkOf(head, nodes, update[0], 0);
      found := node != Nil && cmp(nodes[node].key, k) == 0;
      EqualAtLower(cmp, nodes, elems, k, ps[0] + 1);
    }

    /** `getFirst` (SkipList.js:261-288): the value of the first pair whose key compares
        equal to `k`, `None` (`null`) if there is none. */
    method GetFirst(k: K) returns (r: Option<V>)
      requires Valid()
      ensures r.None? <==> forall j :: 0 <= j < |Items()| ==> cmp(Items()[j].0, k) != 0
      ensures r.Some? ==> exists j :: FirstWithKey(cmp, Items(), k, j) && Items()[j].1 == r.value
    {
      var update;
      ghost var ps;
      update, ps := FindPreds(cmp, head, nodes, elems, level, k);
      StepBottom(cmp, head, nodes, elems, level, ps[0]);
      var node := LinkOf(head, nodes, update[0], 0);
      EqualAtLower(cmp, nodes, elems, k, ps[0] + 1);
      if node != Nil && cmp(nodes[node].key, k) == 0 {
        r := Some(nodes[node].value);
        assert FirstWithKey(cmp, Items(), k, ps[0] + 1);
      } else {
        r := None;
      }
    }

    /** `add` (SkipList.js:162-203) with `lvl` the level `randomLevel` drew: the pair joins
        the list just before the first key not less than `k` (so before the keys equal to
        it), `count` grows by one and `level` becomes the larger of the old level and `lvl`.
        Returns the new node's handle. */
    method Add(k: K, v: V, lvl: nat) returns (n: nat)
      requires Valid() && lvl <= MaxLevel
      modifies this
      ensures Valid()
      ensures var s, c := old(Items()), LowerIdx(LtOf(cmp), KeysOf(old(Items())), k);
        && c <= |s|
        && Items() == s[..c] + [(k, v)] + s[c..]
        && (forall j :: 0 <= j < c ==> cmp(s[j].0, k) < 0)
        && (forall j :: c <= j < |s| ==> cmp(s[j].0, k) >= 0)
        && n < |nodes| && elems[c] == n
      ensures count == old(count) + 1 && level == Max(old(level), lvl)
    {
      ghost var c := LowerIdx(LtOf(cmp), Keys(nodes, elems), k);
      KeysOfItems(nodes, elems);
      LowerSplitOf(cmp, nodes, elems, k);
      n := |nodes|;
      head, nodes, level, elems := AddIn(cmp, head, nodes, elems, level, k, v, lvl);
      count := count + 1;
    }

    /** `add` on the fields' values. */
    static method AddIn(cmp: (K, K) -> int, head: seq<int>, nodes: seq<SkipNode<K, V>>, ghost elems: seq<nat>,
                        level: int, k: K, v: V, lvl: nat)
      returns (hd: seq<int>, nd: seq<SkipNode<K, V>>, level': int, ghost elems': seq<nat>)
      requires Wf(cmp, head, nodes, elems, level) && lvl <= MaxLevel
      ensures Wf(cmp, hd, nd, elems', level') && level' == Max(level, lvl)
      ensures var c := LowerIdx(LtOf(cmp), Keys(nodes, elems), k);
        && c <= |elems| && elems' == elems[..c] + [|nodes|] + elems[c..]
        && ItemsOf(nd, elems') == ItemsOf(nodes, elems)[..c] + [(k, v)] + ItemsOf(nodes, elems)[c..]
    {
      var update;
      ghost var ps;
      update, ps := FindPreds(cmp, head, nodes, elems, level, k);
      ghost var hts := Heights(nodes, elems);
      ghost var c := LowerIdx(LtOf(cmp), Keys(nodes, elems), k);
      level' := level;
      if lvl > level {
        PredsAbove(hts, elems, update, ps, c, level + 1, lvl + 1);
        update := update + seq(lvl - level, _ => Header);
        ps := ps + seq(lvl - level, _ => -1);
        level' := lvl;
      }
      assert PredsAt(hts, elems, update, ps, c, lvl + 1);
      hd, nd, elems' := AddAt(cmp, head, nodes, elems, level, update, ps, k, v, lvl, level');
    }

    /** `add` once the descent has recorded `update` (SkipList.js:188-200): the new node is
        spliced in after `update[i]` at each of its levels and becomes the back link of its
        successor. */
    static method AddAt(cmp: (K, K) -> int, head: seq<int>, nodes: seq<SkipNode<K, V>>, ghost elems: seq<nat>,
                        level: int, update: seq<Pos>, ghost ps: seq<int>, k: K, v: V, lvl: nat, level': int)
      returns (hd: seq<int>, nd: seq<SkipNode<K, V>>, ghost elems': seq<nat>)
      requires Wf(cmp, head, nodes, elems, level) && lvl <= MaxLevel && level' == Max(level, lvl)
      requires PredsAt(Heights(nodes, elems), elems, update, ps, LowerIdx(LtOf(cmp), Keys(nodes, elems), k), lvl + 1)
      requires lvl > level ==> update[lvl] == Header
      ensures Wf(cmp, hd, nd, elems', level')
      ensures var c := LowerIdx(LtOf(cmp), Keys(nodes, elems), k);
        && c <= |elems| && elems' == elems[..c] + [|nodes|] + elems[c..]
        && ItemsOf(nd, elems') == ItemsOf(nodes, elems)[..c] + [(k, v)] + ItemsOf(nodes, elems)[c..]
    {
      ghost var c := LowerIdx(LtOf(cmp), Keys(nodes, elems), k);
      LowerIdxBound(cmp, nodes, elems, k);
      PredsLinkable(head, nodes, elems, update, ps, c, lvl + 1);
      ghost var t := Targets(head, nodes, update, lvl + 1);
      var nd1;
      hd, nd1 := Splice(head, nodes, update, t, k, v, lvl);
      AddNeighbours(cmp, head, nodes, elems, level, update, ps, c, t);
      var nn: nat := |nodes|;
      nd := LinkBack(nd1, nn, update[0], t[0]);
      elems' := elems[..c] + [nn] + elems[c..];
      AddFinish(cmp, head, nodes, elems, level, update, ps, c, t, k, v, lvl, level', hd, nd1, nd, elems');
    }

    /** The back links `add` sets (SkipList.js:194-198): the new node `nn` gets `u` as its
        `prev`, and its level-0 successor, if any, gets `nn`. */
    static method LinkBack(nd1: seq<SkipNode<K, V>>, nn: nat, u: Pos, ghost t0: int) returns (nd: seq<SkipNode<K, V>>)
      requires nn < |nd1| && 0 < |nd1[nn].next| && nd1[nn].next[0] == t0
      requires t0 == Nil || 0 <= t0 < nn
      ensures |nd| == |nd1| && nd[nn].prev == u
      ensures forall x :: 0 <= x < |nd| ==> nd[x].key == nd1[x].key && nd[x].value == nd1[x].value && nd[x].next == nd1[x].next
      ensures forall x :: 0 <= x < nn ==> nd[x].prev == if x == t0 then At(nn) else nd1[x].prev
    {
      nd := nd1[nn := nd1[nn].(prev := u)];
      var s := nd[nn].next[0];
      if s != Nil {
        nd := nd[s := nd[s].(prev := At(nn))];
      }
    }

    /** The relinking loop of `add` (SkipList.js:188-192): a new node with key `k` and value
        `v` joins the arena, and at each level `i` up to `lvl` it takes over the link of
        `update[i]`, which then links to it. */
    static method Splice(head: seq<int>, nodes: seq<SkipNode<K, V>>, update: seq<Pos>, ghost t: seq<int>, k: K, v: V, lvl: nat)
      returns (hd: seq<int>, nd: seq<SkipNode<K, V>>)
      requires |t| == lvl + 1 && Linkable(head, nodes, update, |t|) && t == Targets(head, nodes, update, |t|)
      ensures SplicedBelow(head, nodes, update, t, k, v, hd, nd, |t|)
      ensures |nd| == |nodes| + 1 && nd[|nodes|].next == t
      ensures forall x :: 0 <= x < |nodes| ==> nd[x].prev == nodes[x].prev
    {
      var nn := |nodes|;
      hd, nd := head, nodes + [SkipNode(k, v, [], Header)];
      var i := 0;
      while i <= lvl
        invariant 0 <= i <= lvl + 1
        invariant SplicedBelow(head, nodes, update, t, k, v, hd, nd, i)
        invariant forall x :: 0 <= x < |nodes| ==> nd[x].prev == nodes[x].prev
      {
        SplicedLink(head, nodes, update, t, k, v, hd, nd, i);
        var u := update[i];
        ghost var hd0, nd0 := hd, nd;
        nd := nd[nn := nd[nn].(next := nd[nn].next + [LinkOf(hd, nd, u, i)])];
        if u == Header {
          hd := hd[i := nn];
        } else {
          nd := nd[u.h := nd[u.h].(next := nd[u.h].next[i := nn])];
        }
        SpliceStep(head, nodes, update, t, k, v, hd0, nd0, i, hd, nd);
        i := i + 1;
      }
    }

    /** `remove` (SkipList.js:204-260): the first pair whose key compares equal to `k` and
        whose value `pred` accepts (any value when `pred` is absent) leaves the list and
        `count` drops by one; when there is none, nothing changes. `level` then drops to the
        highest level the header still links. */
    method Remove(k: K, pred: Option<V -> bool>)
      requires Valid()
      modifies this
      ensures Valid() && level <= old(level)
      ensures var s, m := old(Items()), FirstKeyMatch(cmp, old(Items()), k, PredicateOrTrue(pred));
        && (m.None? ==> head == old(head) && nodes == old(nodes) && level == old(level) && Items() == s && count == old(count))
        && (m.Some? ==> m.value < |s| && Items() == s[..m.value] + s[m.value + 1..] && count == old(count) - 1)
    {
      var removed;
      head, nodes, level, elems, removed := RemoveIn(cmp, head, nodes, elems, level, k, PredicateOrTrue(pred));
      if removed {
        count := count - 1;
      }
    }

    /** `remove` on the fields' values. */
    static method RemoveIn(cmp: (K, K) -> int, head: seq<int>, nodes: seq<SkipNode<K, V>>, ghost elems: seq<nat>,
                           level: int, k: K, p: V -> bool)
      returns (hd: seq<int>, nd: seq<SkipNode<K, V>>, level': int, ghost elems': seq<nat>, removed: bool)
      requires Wf(cmp, head, nodes, elems, level)
      ensures Wf(cmp, hd, nd, elems', level') && level' <= level
      ensures var m := FirstKeyMatch(cmp, ItemsOf(nodes, elems), k, p);
        && removed == m.Some?
        && (m.None? ==> hd == head && nd == nodes && level' == level && elems' == elems)
        && (m.Some? ==> m.value < |elems| && elems' == elems[..m.value] + elems[m.value + 1..]
                        && ItemsOf(nd, elems') == ItemsOf(nodes, elems)[..m.value] + ItemsOf(nodes, elems)[m.value + 1..])
    {
      var update, node;
      ghost var ps, j;
      update, ps, node, j := Locate(cmp, head, nodes, elems, level, k, p);
      if node != Nil && cmp(nodes[node].key, k) == 0 {
        hd, nd, level', elems' := Unlink(cmp, head, nodes, elems, level, update, ps, node, j);
        removed := true;
      } else {
        hd, nd, level', elems', removed := head, nodes, level, elems, false;
      }
    }

    /** The search of `remove` (SkipList.js:218-258): the descent to the first key not less
        than `k`, then the scan past the rejected nodes. The node it stops at is the one to
        remove exactly when its key compares equal to `k`. */
    static method Locate(cmp: (K, K) -> int, head: seq<int>, nodes: seq<SkipNode<K, V>>, ghost elems: seq<nat>,
                         level: int, k: K, p: V -> bool)
      returns (update: seq<Pos>, ghost ps: seq<int>, node: int, ghost j: nat)
      requires Wf(cmp, head, nodes, elems, level)
      ensures j <= |elems| && node == HandleAt(elems, j) && (node != Nil ==> node < |nodes|)
      ensures |update| == |ps| == level + 1 && PredsAt(Heights(nodes, elems), elems, update, ps, j, level + 1)
      ensures FirstKeyMatch(cmp, ItemsOf(nodes, elems), k, p)
           == if node != Nil && cmp(nodes[node].key, k) == 0 then Some(j) else None
    {
      update, ps := FindPreds(cmp, head, nodes, elems, level, k);
      ghost var lb := ps[0] + 1;
      StepBottom(cmp, head, nodes, elems, level, ps[0]);
      node := LinkOf(head, nodes, update[0], 0);
      update, ps, node, j := SkipRejected(cmp, head, nodes, elems, level, update, ps, node, lb, k, p);
      ScanFindsKeyMatch(cmp, nodes, elems, k, p, lb, j);
    }

    /** The scan of `remove` (SkipList.js:226-258) past the nodes whose key compares equal to
        `k` and whose value `p` rejects, keeping `update` the last node before the current
        one at each level. Returns the node it stopped at, `Nil` at the end. */
    static method SkipRejected(cmp: (K, K) -> int, head: seq<int>, nodes: seq<SkipNode<K, V>>, ghost elems: seq<nat>,
                               level: int, update: seq<Pos>, ghost ps: seq<int>, node: int, ghost lb: nat, k: K, p: V -> bool)
      returns (update': seq<Pos>, ghost ps': seq<int>, node': int, ghost j: nat)
      requires Wf(cmp, head, nodes, elems, level)
      requires lb <= |elems| && |update| == |ps| == level + 1 && PredsAt(Heights(nodes, elems), elems, update, ps, lb, level + 1)
      requires node == HandleAt(elems, lb)
      ensures lb <= j <= |elems| && node' == HandleAt(elems, j)
      ensures |update'| == |ps'| == level + 1 && PredsAt(Heights(nodes, elems), elems, update', ps', j, level + 1)
      ensures forall x :: lb <= x < j ==> cmp(nodes[elems[x]].key, k) == 0 && !p(nodes[elems[x]].value)
      ensures j < |elems| ==> cmp(nodes[elems[j]].key, k) != 0 || p(nodes[elems[j]].value)
    {
      update', ps', node', j := update, ps, node, lb;
      while node' != Nil && cmp(nodes[node'].key, k) == 0 && !p(nodes[node'].value)
        invariant lb <= j <= |elems| && node' == HandleAt(elems, j)
        invariant |update'| == |ps'| == level + 1 && PredsAt(Heights(nodes, elems), elems, update', ps', j, level + 1)
        invariant forall x :: lb <= x < j ==> cmp(nodes[elems[x]].key, k) == 0 && !p(nodes[elems[x]].value)
        decreases |elems| - j
      {
        update', ps' := Advance(cmp, head, nodes, elems, level, update', ps', node', j);
        StepBottom(cmp, head, nodes, elems, level, j);
        node' := nodes[node'].next[0];
        j := j + 1;
      }
    }

    /** Moving past a node `remove` keeps (SkipList.js:251-257): from level 0 up, while
        `update[i]` links to the node, the node becomes `update[i]`. */
    static method Advance(cmp: (K, K) -> int, head: seq<int>, nodes: seq<SkipNode<K, V>>, ghost elems: seq<nat>,
                          level: int, update: seq<Pos>, ghost ps: seq<int>, node: int, ghost j: nat)
      returns (update': seq<Pos>, ghost ps': seq<int>)
      requires Wf(cmp, head, nodes, elems, level) && j < |elems| && node == elems[j]
      requires |update| == |ps| == level + 1 && PredsAt(Heights(nodes, elems), elems, update, ps, j, level + 1)
      ensures |update'| == |ps'| == level + 1 && PredsAt(Heights(nodes, elems), elems, update', ps', j + 1, level + 1)
    {
      ghost var hts := Heights(nodes, elems);
      update', ps' := update, ps;
      var i := 0;
      while i <= level
        invariant 0 <= i <= level + 1 && i <= |nodes[node].next|
        invariant |update'| == |ps'| == level + 1
        invariant forall i' :: 0 <= i' < i ==> update'[i'] == At(node) && ps'[i'] == j
        invariant forall i' :: i <= i' <= level ==> update'[i'] == update[i'] && ps'[i'] == ps[i']
      {
        assert PredAt(hts, elems, i, ps[i], update[i], j);
        assert LevelLinked(head, nodes, elems, i);
        PredLinks(head, nodes, elems, i, ps[i], update[i], j);
        if LinkOf(head, nodes, update'[i], i) != node {
          break;
        }
        update' := update'[i := At(node)];
        ps' := ps'[i := j];
        i := i + 1;
      }
      forall i' | 0 <= i' <= level ensures PredAt(hts, elems, i', ps'[i'], update'[i'], j + 1) {
        assert PredAt(hts, elems, i', ps[i'], update[i'], j);
        PredAdvance(hts, elems, i', ps[i'], update[i'], j);
      }
    }

    /** Taking the node at position `m` out (SkipList.js:230-244): relinking its
        predecessors, fixing its successor's back link and lowering `level` past empty
        header links. */
    static method Unlink(cmp: (K, K) -> int, head: seq<int>, nodes: seq<SkipNode<K, V>>, ghost elems: seq<nat>,
                         level: int, update: seq<Pos>, ghost ps: seq<int>, node: int, ghost m: nat)
      returns (hd: seq<int>, nd: seq<SkipNode<K, V>>, level': int, ghost elems': seq<nat>)
      requires Wf(cmp, head, nodes, elems, level) && m < |elems| && node == elems[m]
      requires |update| == |ps| == level + 1 && PredsAt(Heights(nodes, elems), elems, update, ps, m, level + 1)
      ensures Wf(cmp, hd, nd, elems', level') && level' <= level && elems' == elems[..m] + elems[m + 1..]
      ensures ItemsOf(nd, elems') == ItemsOf(nodes, elems)[..m] + ItemsOf(nodes, elems)[m + 1..]
    {
      var nd0;
      hd, nd0 := Unsplice(cmp, head, nodes, elems, level, update, ps, node, m);
      StepBottom(cmp, head, nodes, elems, level, m);
      nd := nd0;
      var s := nd[node].next[0];
      if s != Nil {
        nd := nd[s := nd[s].(prev := update[0])];
      }
      elems' := elems[..m] + elems[m + 1..];
      RemoveFinish(cmp, head, nodes, elems, level, update, ps, m, hd, nd0, nd, elems');
      level' := level;
      while level' > 0 && hd[level'] == Nil
        invariant 0 <= level' <= level && Shaped(cmp, hd, nd, elems', level')
      {
        ShrinkLevel(cmp, hd, nd, elems', level');
        level' := level' - 1;
      }
    }

    /** The relinking loop of `remove` (SkipList.js:230-235): from level 0 up, while
        `update[i]` links to the node at position `m`, it takes over that node's link. */
    static method Unsplice(cmp: (K, K) -> int, head: seq<int>, nodes: seq<SkipNode<K, V>>, ghost elems: seq<nat>,
                           level: int, update: seq<Pos>, ghost ps: seq<int>, node: int, ghost m: nat)
      returns (hd: seq<int>, nd: seq<SkipNode<K, V>>)
      requires Wf(cmp, head, nodes, elems, level) && m < |elems| && node == elems[m]
      requires |update| == |ps| == level + 1 && PredsAt(Heights(nodes, elems), elems, update, ps, m, level + 1)
      ensures UnsplicedBelow(head, nodes, update, node, hd, nd, |nodes[node].next|)
      ensures nd[node].next == nodes[node].next
    {
      PredsNotAt(Heights(nodes, elems), elems, update, ps, m, level + 1);
      hd, nd := head, nodes;
      var i := 0;
      while i <= level
        invariant 0 <= i <= level + 1 && i <= |nodes[node].next|
        invariant UnsplicedBelow(head, nodes, update, node, hd, nd, i)
        invariant nd[node].next == nodes[node].next
      {
        assert PredAt(Heights(nodes, elems), elems, i, ps[i], update[i], m);
        assert LevelLinked(head, nodes, elems, i);
        PredLinks(head, nodes, elems, i, ps[i], update[i], m);
        UnsplicedLink(head, nodes, update, node, hd, nd, i);
        if LinkOf(hd, nd, update[i], i) != node {
          break;
        }
        var u := update[i];
        ghost var hd0, nd0 := hd, nd;
        if u == Header {
          hd := hd[i := nd[node].next[i]];
        } else {
          nd := nd[u.h := nd[u.h].(next := nd[u.h].next[i := nd[node].next[i]])];
        }
        UnspliceStep(head, nodes, update, node, hd0, nd0, i, hd, nd);
        i := i + 1;
      }
    }

    /** `getRange` (SkipList.js:289-316): the values whose keys lie between `a` and `b`,
        both included, in level-0 order. */
    method GetRange(a: K, b: K) returns (elements: seq<V>)
      requires Valid()
      ensures elements == InRange(cmp, Items(), a, b)
    {
      elements := RangeIn(cmp, head, nodes, elems, level, a, b);
    }

    /** `getRange` over the fields' values. */
    static method RangeIn(cmp: (K, K) -> int, head: seq<int>, nodes: seq<SkipNode<K, V>>, ghost elems: seq<nat>,
                          level: int, a: K, b: K)
      returns (elements: seq<V>)
      requires Wf(cmp, head, nodes, elems, level)
      ensures elements == InRange(cmp, ItemsOf(nodes, elems), a, b)
    {
      var update;
      ghost var ps, stop;
      update, ps := FindPreds(cmp, head, nodes, elems, level, a);
      StepBottom(cmp, head, nodes, elems, level, ps[0]);
      var node := LinkOf(head, nodes, update[0], 0);
      WfBottomChain(cmp, head, nodes, elems, level);
      ghost var lb := ps[0] + 1;
      assert lb == LowerIdx(LtOf(cmp), Keys(nodes, elems), a);
      elements, stop := CollectUpTo(cmp, head, nodes, elems, node, lb, b);
      assert Comparator(cmp) && AllIn(nodes, elems) && Sorted(LtOf(cmp), Keys(nodes, elems));
      assert lb <= stop <= |elems| && |elements| == stop - lb;
      assert forall t :: 0 <= t < |elements| ==> elements[t] == nodes[elems[lb + t]].value;
      assert forall j :: lb <= j < stop ==> cmp(nodes[elems[j]].key, b) <= 0;
      assert stop < |elems| ==> cmp(nodes[elems[stop]].key, b) > 0;
      RangeSlice(cmp, nodes, elems, a, b, lb, stop, elements);
    }

    /** The collecting loop of `getRange` (SkipList.js:310-313): from position `from`, the
        values of the consecutive nodes whose keys are not greater than `b`. */
    static method CollectUpTo(cmp: (K, K) -> int, head: seq<int>, nodes: seq<SkipNode<K, V>>, ghost elems: seq<nat>,
                              node: int, ghost from: nat, b: K)
      returns (elements: seq<V>, ghost stop: nat)
      requires BottomChain(head, nodes, elems) && from <= |elems| && node == HandleAt(elems, from)
      ensures from <= stop <= |elems| && |elements| == stop - from
      ensures forall t :: 0 <= t < |elements| ==> elements[t] == nodes[elems[from + t]].value
      ensures forall j :: from <= j < stop ==> cmp(nodes[elems[j]].key, b) <= 0
      ensures stop < |elems| ==> cmp(nodes[elems[stop]].key, b) > 0
    {
      var n := node;
      stop := from;
      elements := [];
      while n != Nil && cmp(nodes[n].key, b) <= 0
        invariant from <= stop <= |elems| && n == HandleAt(elems, stop) && |elements| == stop - from
        invariant forall t :: 0 <= t < |elements| ==> elements[t] == nodes[elems[from + t]].value
        invariant forall j :: from <= j < stop ==> cmp(nodes[elems[j]].key, b) <= 0
        decreases |elems| - stop
      {
        elements := elements + [nodes[n].value];
        n := nodes[n].next[0];
        stop := stop + 1;
      }
    }

    /** `getAll` (SkipList.js:317-324): the values whose keys compare equal to `k`. */
    method GetAll(k: K) returns (elements: seq<V>)
      requires Valid()
      ensures elements == WithKey(cmp, Items(), k)
    {
      elements := GetRange(k, k);
      InRangeSame(cmp, Items(), k);
    }

    /** `forEach` (SkipList.js:325-335): the values `cb` is called with, in level-0 order. */
    method ForEach() returns (visited: seq<V>)
      requires Valid()
      ensures visited == ValuesOf(Items())
    {
      WfBottomChain(cmp, head, nodes, elems, level);
      visited := WalkAll(head, nodes, elems);
    }

    /** The loop of `forEach` (SkipList.js:331-334) over level 0. */
    static method WalkAll(head: seq<int>, nodes: seq<SkipNode<K, V>>, ghost elems: seq<nat>)
      returns (visited: seq<V>)
      requires BottomChain(head, nodes, elems)
      ensures |visited| == |elems| && forall j :: 0 <= j < |elems| ==> visited[j] == nodes[elems[j]].value
    {
      var n := head[0];
      ghost var pos := 0;
      visited := [];
      while n != Nil
        invariant pos <= |elems| && n == HandleAt(elems, pos) && |visited| == pos
        invariant forall j :: 0 <= j < pos ==> visited[j] == nodes[elems[j]].value
        decreases |elems| - pos
      {
        visited := visited + [nodes[n].value];
        n := nodes[n].next[0];
        pos := pos + 1;
      }
    }
  }
}

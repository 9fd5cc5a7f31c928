/** Facts about sequences sorted by a strict weak order: where the first element not less
    than a value sits (`LowerIdx`) and where the first element greater than it sits
    (`UpperIdx`), and how inserting or removing one element keeps the order. Both the AVL tree
    and the skip list are specified by these. */
module SortedSeqs {
  import opened Common

  /** The number of leading elements less than `v`: where `lower_bound` lands. */
  function LowerIdx<T>(lt: (T, T) -> bool, s: seq<T>, v: T): (k: nat)
    ensures k <= |s|
  {
    if s == [] || !lt(s[0], v) then 0 else 1 + LowerIdx(lt, s[1..], v)
  }

  /** The number of leading elements not greater than `v`: where `upper_bound` lands. */
  function UpperIdx<T>(lt: (T, T) -> bool, s: seq<T>, v: T): (k: nat)
    ensures k <= |s|
  {
    if s == [] || lt(v, s[0]) then 0 else 1 + UpperIdx(lt, s[1..], v)
  }

  /** In a sorted sequence `LowerIdx` separates the elements less than `v` from the rest. */
  lemma {:induction false} LowerIdxSpec<T(!new)>(lt: (T, T) -> bool, s: seq<T>, v: T)
    requires StrictWeakOrder(lt) && Sorted(lt, s)
    ensures forall j :: 0 <= j < LowerIdx(lt, s, v) ==> lt(s[j], v)
    ensures forall j :: LowerIdx(lt, s, v) <= j < |s| ==> !lt(s[j], v)
  {
    if s != [] && lt(s[0], v) {
      assert Sorted(lt, s[1..]);
      LowerIdxSpec(lt, s[1..], v);
    } else if s != [] {
      SuffixNotLt(lt, s, 0, v);
    }
  }

  /** In a sorted sequence `UpperIdx` separates the elements not greater than `v` from the rest. */
  lemma {:induction false} UpperIdxSpec<T(!new)>(lt: (T, T) -> bool, s: seq<T>, v: T)
    requires StrictWeakOrder(lt) && Sorted(lt, s)
    ensures forall j :: 0 <= j < UpperIdx(lt, s, v) ==> !lt(v, s[j])
    ensures forall j :: UpperIdx(lt, s, v) <= j < |s| ==> lt(v, s[j])
  {
    if s != [] && !lt(v, s[0]) {
      assert Sorted(lt, s[1..]);
      UpperIdxSpec(lt, s[1..], v);
    } else if s != [] {
      SuffixGt(lt, s, 0, v);
    }
  }

  lemma {:induction false} LowerIdxSplit<T>(lt: (T, T) -> bool, s: seq<T>, v: T, k: nat)
    requires k <= |s|
    requires forall j :: 0 <= j < k ==> lt(s[j], v)
    requires forall j :: k <= j < |s| ==> !lt(s[j], v)
    ensures LowerIdx(lt, s, v) == k
  {
    if k > 0 {
      LowerIdxSplit(lt, s[1..], v, k - 1);
    }
  }

  lemma {:induction false} UpperIdxSplit<T>(lt: (T, T) -> bool, s: seq<T>, v: T, k: nat)
    requires k <= |s|
    requires forall j :: 0 <= j < k ==> !lt(v, s[j])
    requires forall j :: k <= j < |s| ==> lt(v, s[j])
    ensures UpperIdx(lt, s, v) == k
  {
    if k > 0 {
      UpperIdxSplit(lt, s[1..], v, k - 1);
    }
  }

  lemma PrefixLt<T(!new)>(lt: (T, T) -> bool, s: seq<T>, m: nat, v: T)
    requires StrictWeakOrder(lt) && Sorted(lt, s) && m < |s| && lt(s[m], v)
    ensures forall k :: 0 <= k <= m ==> lt(s[k], v)
  {
    forall k | 0 <= k < m ensures lt(s[k], v) {
      assert !lt(s[m], s[k]);
    }
  }

  lemma SuffixNotLt<T(!new)>(lt: (T, T) -> bool, s: seq<T>, m: nat, v: T)
    requires StrictWeakOrder(lt) && Sorted(lt, s) && m < |s| && !lt(s[m], v)
    ensures forall k :: m <= k < |s| ==> !lt(s[k], v)
  {
    forall k | m < k < |s| ensures !lt(s[k], v) {
      assert !lt(s[k], s[m]);
    }
  }

  lemma PrefixNotGt<T(!new)>(lt: (T, T) -> bool, s: seq<T>, m: nat, v: T)
    requires StrictWeakOrder(lt) && Sorted(lt, s) && m < |s| && !lt(v, s[m])
    ensures forall k :: 0 <= k <= m ==> !lt(v, s[k])
  {
    forall k | 0 <= k < m ensures !lt(v, s[k]) {
      assert !lt(s[m], s[k]);
    }
  }

  lemma SuffixGt<T(!new)>(lt: (T, T) -> bool, s: seq<T>, m: nat, v: T)
    requires StrictWeakOrder(lt) && Sorted(lt, s) && m < |s| && lt(v, s[m])
    ensures forall k :: m <= k < |s| ==> lt(v, s[k])
  {
    forall k | m < k < |s| ensures lt(v, s[k]) {
      assert !lt(s[k], s[m]);
    }
  }

  lemma SortedInsertAt<T(!new)>(lt: (T, T) -> bool, s: seq<T>, k: nat, v: T)
    requires StrictWeakOrder(lt) && Sorted(lt, s) && k <= |s|
    requires forall j :: 0 <= j < k ==> !lt(v, s[j])
    requires forall j :: k <= j < |s| ==> lt(v, s[j])
    ensures Sorted(lt, s[..k] + [v] + s[k..])
  {
    assert forall j :: k <= j < |s| ==> !lt(s[j], v);
    SortedInsert(lt, s, k, v);
  }

  /** Inserting `v` where nothing before is greater and nothing after is smaller keeps a
      sequence sorted. */
  lemma SortedInsert<T>(lt: (T, T) -> bool, s: seq<T>, k: nat, v: T)
    requires Sorted(lt, s) && k <= |s|
    requires forall j :: 0 <= j < k ==> !lt(v, s[j])
    requires forall j :: k <= j < |s| ==> !lt(s[j], v)
    ensures Sorted(lt, s[..k] + [v] + s[k..])
  {
    var r := s[..k] + [v] + s[k..];
    forall i, j | 0 <= i < j < |r| ensures !lt(r[j], r[i]) {
      if j < k {
        assert r[i] == s[i] && r[j] == s[j];
      } else if i > k {
        assert r[i] == s[i - 1] && r[j] == s[j - 1];
      } else if i == k {
        assert r[j] == s[j - 1];
      } else if j == k {
        assert r[i] == s[i];
      } else {
        assert r[i] == s[i] && r[j] == s[j - 1];
      }
    }
  }

  /** A sequence one longer than `s` that agrees with `s` before `c`, holds `v` at `c` and
      agrees with `s` one place on after `c` is `s` with `v` inserted at `c`. */
  lemma InsertedAt<T>(s: seq<T>, r: seq<T>, c: nat, v: T)
    requires c <= |s| && |r| == |s| + 1 && r[c] == v
    requires forall m :: 0 <= m < c ==> r[m] == s[m]
    requires forall m :: c < m < |r| ==> r[m] == s[m - 1]
    ensures r == s[..c] + [v] + s[c..]
  {
    var t := s[..c] + [v] + s[c..];
    forall m | 0 <= m < |r| ensures r[m] == t[m] {
      if m < c {
        assert t[m] == s[m];
      } else if m == c {
        assert t[m] == v;
      } else {
        assert t[m] == s[m - 1];
      }
    }
  }

  /** A sequence one shorter than `s` that agrees with `s` before `c` and with `s` one
      place on from `c` is `s` without the element at `c`. */
  lemma RemovedAt<T>(s: seq<T>, r: seq<T>, c: nat)
    requires c < |s| && |r| + 1 == |s|
    requires forall m :: 0 <= m < c ==> r[m] == s[m]
    requires forall m :: c <= m < |r| ==> r[m] == s[m + 1]
    ensures r == s[..c] + s[c + 1..]
  {
    var t := s[..c] + s[c + 1..];
    forall m | 0 <= m < |r| ensures r[m] == t[m] {
      if m < c {
        assert t[m] == s[m];
      } else {
        assert t[m] == s[m + 1];
      }
    }
  }

  /** Removing one element keeps a sequence sorted. */
  lemma SortedRemove<T>(lt: (T, T) -> bool, s: seq<T>, i: nat)
    requires Sorted(lt, s) && i < |s|
    ensures Sorted(lt, s[..i] + s[i + 1..])
  {
    var r := s[..i] + s[i + 1..];
    forall a, b | 0 <= a < b < |r| ensures !lt(r[b], r[a]) {
      var a', b' := if a < i then a else a + 1, if b < i then b else b + 1;
      assert r[a] == s[a'] && r[b] == s[b'];
    }
  }
}

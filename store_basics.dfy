/** The small helpers of LocalStore.js: `binarySearch`, `isEmpty`, the string order the
    default comparators use, the compound `(key, id)` order `cmpLt`, storage keys and the
    id partition of the free `sync`. */
module StoreBasics {
  import opened Common
  import opened SortedSeqs

  /** A stored object: its own properties and their values. Values are strings here; the
      encoding that turns an object into the text the storage holds is not modelled. */
  type Record = map<string, string>

  // ---------------------------------------------------------------------------
  // binarySearch
  // ---------------------------------------------------------------------------

  /** `binarySearch` (LocalStore.js:4-13): on an array sorted by `cmp`, the least index `h`
      such that every element before it compares below `v`; it narrows the open interval
      `(l, h)` around that index, with `l` starting at -1 and `h` at the length. */
  method BinarySearch<T(!new)>(arr: seq<T>, v: T, cmp: (T, T) -> int) returns (h: nat)
    requires Comparator(cmp) && Sorted(LtOf(cmp), arr)
    ensures h <= |arr|
    ensures forall j :: 0 <= j < h ==> cmp(arr[j], v) < 0
    ensures forall j :: h <= j < |arr| ==> cmp(arr[j], v) >= 0
    ensures h == LowerIdx(LtOf(cmp), arr, v)
  {
    var l: int := -1;
    h := |arr|;
    while h - l > 1
      invariant -1 <= l < h <= |arr|
      invariant forall j :: 0 <= j <= l ==> cmp(arr[j], v) < 0
      invariant forall j :: h <= j < |arr| ==> cmp(arr[j], v) >= 0
    {
      var m := (h + l) / 2;
      if cmp(arr[m], v) < 0 {
        forall j | 0 <= j < m ensures cmp(arr[j], v) < 0 {
          assert !LtOf(cmp)(arr[m], arr[j]);
        }
        l := m;
      } else {
        forall j | m < j < |arr| ensures cmp(arr[j], v) >= 0 {
          assert !LtOf(cmp)(arr[j], arr[m]);
        }
        h := m;
      }
    }
    LowerIdxSplit(LtOf(cmp), arr, v, h);
  }

  // ---------------------------------------------------------------------------
  // isEmpty
  // ---------------------------------------------------------------------------

  /** The characters the pattern `\s` matches: the white space and line terminators of
      ECMAScript (section 22.2.2.9 of ECMA-262 with sections 12.2 and 12.3). */
  predicate IsJsSpace(c: char) {
    || c == '\t' || c == '\n' || c == '\U{B}' || c == '\U{C}' || c == '\r' || c == ' '
    || c == '\U{A0}' || c == '\U{1680}' || ('\U{2000}' <= c <= '\U{200A}')
    || c == '\U{2028}' || c == '\U{2029}' || c == '\U{202F}' || c == '\U{205F}'
    || c == '\U{3000}' || c == '\U{FEFF}'
  }

  /** `isEmpty` (LocalStore.js:15-17): the string is non-empty and all white space. The
      empty string itself is falsy in the source, so it is not "empty" here. */
  predicate IsEmpty(s: string) {
    s != [] && forall j :: 0 <= j < |s| ==> IsJsSpace(s[j])
  }

  // ---------------------------------------------------------------------------
  // The string order
  // ---------------------------------------------------------------------------

  /** `a < b` on strings: lexicographic on the characters, a proper prefix first. */
  predicate StringLt(a: string, b: string)
    decreases |a|
  {
    if a == [] then b != []
    else if b == [] then false
    else if a[0] != b[0] then a[0] < b[0]
    else StringLt(a[1..], b[1..])
  }

  lemma {:induction false} StringLtIrreflexive(a: string)
    ensures !StringLt(a, a)
    decreases |a|
  {
    if a != [] {
      StringLtIrreflexive(a[1..]);
    }
  }

  lemma {:induction false} StringLtTransitive(a: string, b: string, c: string)
    requires StringLt(a, b) && StringLt(b, c)
    ensures StringLt(a, c)
    decreases |a|
  {
    if a != [] && a[0] == b[0] && b[0] == c[0] {
      StringLtTransitive(a[1..], b[1..], c[1..]);
    }
  }

  lemma {:induction false} StringLtTotal(a: string, b: string)
    ensures a == b || StringLt(a, b) || StringLt(b, a)
    decreases |a|
  {
    if a != [] && b != [] && a[0] == b[0] {
      StringLtTotal(a[1..], b[1..]);
      if a[1..] == b[1..] {
        assert a == [a[0]] + a[1..] && b == [b[0]] + b[1..];
      }
    }
  }

  /** `StringLt` is a strict total order. */
  lemma StringLtIsTotalOrder()
    ensures StrictWeakOrder(StringLt)
    ensures forall a, b :: a == b || StringLt(a, b) || StringLt(b, a)
  {
    forall a ensures !StringLt(a, a) {
      StringLtIrreflexive(a);
    }
    forall a, b, c | StringLt(a, b) && StringLt(b, c) ensures StringLt(a, c) {
      StringLtTransitive(a, b, c);
    }
    forall a, b ensures a == b || StringLt(a, b) || StringLt(b, a) {
      StringLtTotal(a, b);
    }
  }

  /** The default `compare` of SkipList.js (lines 88-96) on strings: -1, 1 or 0 by `<`
      and `>`. */
  function StringCompare(a: string, b: string): int {
    if StringLt(a, b) then -1 else if StringLt(b, a) then 1 else 0
  }

  /** The default string comparison is a comparator, and it says "equal" only of equal
      strings. */
  lemma StringCompareIsComparator()
    ensures Comparator(StringCompare)
    ensures forall a, b :: StringCompare(a, b) == 0 <==> a == b
  {
    StringLtIsTotalOrder();
  }

  // ---------------------------------------------------------------------------
  // cmpLt
  // ---------------------------------------------------------------------------

  /** An entry of the tree-backed index: the transformed field value and the storage key. */
  datatype IndexEntry = IndexEntry(key: string, id: string)

  /** `cmpLt` (LocalStore.js:108-117): by key, and by id between equal keys. */
  predicate CmpLt(a: IndexEntry, b: IndexEntry) {
    if StringLt(a.key, b.key) then true
    else if a.key == b.key then StringLt(a.id, b.id)
    else false
  }

  /** `cmpLt` is a strict total order on entries: distinct entries are always ordered, so
      entries with the same key but different ids can share a tree. */
  lemma CmpLtIsTotalOrder()
    ensures StrictWeakOrder(CmpLt)
    ensures forall a, b :: a == b || CmpLt(a, b) || CmpLt(b, a)
  {
    StringLtIsTotalOrder();
    forall a, b, c | CmpLt(a, b) && CmpLt(b, c) ensures CmpLt(a, c) {
      if a.key == b.key && b.key == c.key {
        StringLtTransitive(a.id, b.id, c.id);
      }
    }
  }

  // ---------------------------------------------------------------------------
  // Storage keys
  // ---------------------------------------------------------------------------

  /** `generateKey` (LocalStore.js:331-333). */
  function GenerateKey(prefix: string, id: string): (key: string)
    ensures |key| == |prefix| + 1 + |id| && key[..|prefix|] == prefix && key[|prefix|] == ':'
    ensures key[|prefix| + 1..] == id
  {
    prefix + ":" + id
  }

  /** Storage keys tell their ids apart. */
  lemma GenerateKeyInjective(prefix: string, a: string, b: string)
    ensures GenerateKey(prefix, a) == GenerateKey(prefix, b) <==> a == b
  {
    if GenerateKey(prefix, a) == GenerateKey(prefix, b) {
      assert a == GenerateKey(prefix, a)[|prefix| + 1..];
    }
  }

  /** `item[field]` where it must name a storage key: a missing property reads as
      `undefined`, which the concatenation of `generateKey` spells out. */
  function IdOf(item: Record, field: string): string {
    if field in item then item[field] else "undefined"
  }

  /** The test of `storageEach` (LocalStore.js:571) for a key belonging to the store: it
      starts with the prefix (without the colon). */
  predicate Visible(prefix: string, key: string) {
    |prefix| <= |key| && key[..|prefix|] == prefix
  }

  lemma GeneratedVisible(prefix: string, id: string)
    ensures Visible(prefix, GenerateKey(prefix, id))
  {
  }

  // ---------------------------------------------------------------------------
  // The id partition of sync
  // ---------------------------------------------------------------------------

  /** The three id sets of the free `sync` (LocalStore.js:36-40): `c`, the local ids absent
      from the incoming ones; `d`, the ids in both; `e`, the incoming ids not in `d`. They
      are pairwise disjoint, and `c` and `d` make up the local ids, `d` and `e` the incoming
      ones. */
  function SyncPartition(aIds: set<string>, bIds: set<string>): (r: (set<string>, set<string>, set<string>))
    ensures r.0 !! r.1 && r.1 !! r.2 && r.0 !! r.2
    ensures r.0 + r.1 == aIds && r.1 + r.2 == bIds && r.0 + r.1 + r.2 == aIds + bIds
    ensures forall x :: x in r.0 <==> x in aIds && x !in bIds
    ensures forall x :: x in r.1 <==> x in aIds && x in bIds
    ensures forall x :: x in r.2 <==> x !in aIds && x in bIds
  {
    var c := aIds - bIds;
    var d := aIds * bIds;
    var e := bIds - d;
    (c, d, e)
  }
}

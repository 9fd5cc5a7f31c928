/** What a store's indexes must hold: for each index, one `(transform(value), storage key)`
    entry per stored record of the store that owns the indexed field, and nothing else. The
    lemmas say how that expectation moves when one storage key is written or deleted, and
    what an index in step with the storage answers. */
module StoreSpecs {
  import opened Common
  import opened SkipLists
  import opened StoreBasics

  /** The entries an index on `field` with `tf` should hold for `storage`: one per visible
      storage key whose record owns the field. */
  ghost function Expected(storage: map<string, Record>, prefix: string, field: string, tf: string -> string)
    : set<(string, string)>
  {
    set sk | sk in storage && Visible(prefix, sk) && field in storage[sk] :: (tf(storage[sk][field]), sk)
  }

  /** The visible stored records that own `field` have a non-empty value there (an index
      insert refuses an empty key), and the index entries are exactly those `Expected`,
      each once. */
  ghost predicate SyncedWith(items: seq<(string, string)>, storage: map<string, Record>, prefix: string,
                             field: string, tf: string -> string)
  {
    && (forall sk :: sk in storage && Visible(prefix, sk) && field in storage[sk] ==> storage[sk][field] != "")
    && multiset(items) == multiset(Expected(storage, prefix, field, tf))
  }

  // ---------------------------------------------------------------------------
  // How the expectation moves
  // ---------------------------------------------------------------------------

  /** Writing a record under a new visible key adds its entry, if it owns the field. */
  lemma ExpectedPut(storage: map<string, Record>, prefix: string, field: string, tf: string -> string,
                    sk: string, rec: Record)
    requires sk !in storage && Visible(prefix, sk)
    ensures Expected(storage[sk := rec], prefix, field, tf)
         == Expected(storage, prefix, field, tf) + (if field in rec then {(tf(rec[field]), sk)} else {})
    ensures forall e :: e in Expected(storage, prefix, field, tf) ==> e.1 != sk
  {
    var s' := storage[sk := rec];
    var a, b := Expected(s', prefix, field, tf), Expected(storage, prefix, field, tf);
    var extra := if field in rec then {(tf(rec[field]), sk)} else {};
    forall e | e in a ensures e in b + extra {
      var k :| k in s' && Visible(prefix, k) && field in s'[k] && e == (tf(s'[k][field]), k);
      if k != sk {
        assert s'[k] == storage[k];
      }
    }
    forall e | e in b + extra ensures e in a {
      if e in b {
        var k :| k in storage && Visible(prefix, k) && field in storage[k] && e == (tf(storage[k][field]), k);
        assert s'[k] == storage[k];
      } else {
        assert e == (tf(s'[sk][field]), sk);
      }
    }
  }

  /** Deleting a stored key removes its entry, if it had one. */
  lemma ExpectedDelete(storage: map<string, Record>, prefix: string, field: string, tf: string -> string, sk: string)
    requires sk in storage
    ensures Expected(storage - {sk}, prefix, field, tf)
         == Expected(storage, prefix, field, tf)
            - (if Visible(prefix, sk) && field in storage[sk] then {(tf(storage[sk][field]), sk)} else {})
  {
    var s' := storage - {sk};
    var a, b := Expected(s', prefix, field, tf), Expected(storage, prefix, field, tf);
    var gone := if Visible(prefix, sk) && field in storage[sk] then {(tf(storage[sk][field]), sk)} else {};
    forall e | e in a ensures e in b - gone {
      var k :| k in s' && Visible(prefix, k) && field in s'[k] && e == (tf(s'[k][field]), k);
      assert e in b;
    }
    forall e | e in b - gone ensures e in a {
      var k :| k in storage && Visible(prefix, k) && field in storage[k] && e == (tf(storage[k][field]), k);
      assert k != sk;
    }
  }

  /** A storage without visible keys expects nothing. */
  lemma ExpectedNone(storage: map<string, Record>, prefix: string, field: string, tf: string -> string)
    requires forall sk :: sk in storage ==> !Visible(prefix, sk)
    ensures Expected(storage, prefix, field, tf) == {}
  {
  }

  // ---------------------------------------------------------------------------
  // Index entries in step with the storage
  // ---------------------------------------------------------------------------

  /** An index in step with the storage holds, for each visible stored record that owns the
      field, exactly one entry, the one for its storage key; and every entry is of that kind. */
  lemma SyncedEntries(items: seq<(string, string)>, storage: map<string, Record>, prefix: string,
                      field: string, tf: string -> string)
    requires SyncedWith(items, storage, prefix, field, tf)
    ensures forall j :: 0 <= j < |items| ==>
      items[j].1 in storage && Visible(prefix, items[j].1) && field in storage[items[j].1]
      && items[j].0 == tf(storage[items[j].1][field])
    ensures forall sk :: sk in storage && Visible(prefix, sk) && field in storage[sk] ==>
      (tf(storage[sk][field]), sk) in items
    ensures forall i, j :: 0 <= i < j < |items| ==> items[i].1 != items[j].1
  {
    var e := Expected(storage, prefix, field, tf);
    forall j | 0 <= j < |items|
      ensures items[j].1 in storage && Visible(prefix, items[j].1) && field in storage[items[j].1]
      ensures items[j].0 == tf(storage[items[j].1][field])
    {
      assert items[j] in multiset(items);
      assert items[j] in e;
    }
    forall sk | sk in storage && Visible(prefix, sk) && field in storage[sk]
      ensures (tf(storage[sk][field]), sk) in items
    {
      var x := (tf(storage[sk][field]), sk);
      assert x in e;
      assert x in multiset(e);
    }
    forall i, j | 0 <= i < j < |items| ensures items[i].1 != items[j].1 {
      var x := items[j];
      assert items == items[..j] + [x] + items[j + 1..];
      assert multiset(items)[x] == multiset(items[..j])[x] + 1 + multiset(items[j + 1..])[x];
      assert x in multiset(items);
      assert multiset(items[..j])[x] == 0;
      assert items[..j][i] == items[i] && items[i] != x;
      assert items[i] in multiset(items);
    }
  }

  /** The values of an index in step with the storage are exactly the storage keys of the
      visible records that own the field. */
  lemma SyncedValues(items: seq<(string, string)>, storage: map<string, Record>, prefix: string,
                     field: string, tf: string -> string)
    requires SyncedWith(items, storage, prefix, field, tf)
    ensures forall sk :: sk in ValuesOf(items) <==> sk in storage && Visible(prefix, sk) && field in storage[sk]
  {
    SyncedEntries(items, storage, prefix, field, tf);
    var vs := ValuesOf(items);
    forall sk | sk in vs ensures sk in storage && Visible(prefix, sk) && field in storage[sk] {
      var j :| 0 <= j < |vs| && vs[j] == sk;
      assert items[j].1 == sk;
    }
    forall sk | sk in storage && Visible(prefix, sk) && field in storage[sk] ensures sk in vs {
      var j :| 0 <= j < |items| && items[j] == (tf(storage[sk][field]), sk);
      assert vs[j] == sk;
    }
  }

  /** Inserting a record's entry into an index in step with a storage that lacks the key
      keeps it in step once the record is written there. */
  lemma SyncedPut(items: seq<(string, string)>, items': seq<(string, string)>, storage: map<string, Record>,
                  prefix: string, field: string, tf: string -> string, sk: string, rec: Record)
    requires SyncedWith(items, storage, prefix, field, tf) && sk !in storage && Visible(prefix, sk)
    requires field in rec ==> rec[field] != "" && multiset(items') == multiset(items) + multiset{(tf(rec[field]), sk)}
    requires field !in rec ==> items' == items
    ensures SyncedWith(items', storage[sk := rec], prefix, field, tf)
  {
    ExpectedPut(storage, prefix, field, tf, sk, rec);
    if field in rec {
      MultisetSetAdd(Expected(storage, prefix, field, tf), (tf(rec[field]), sk));
    }
  }

  /** Removing from an index in step with the storage the first entry for the record's
      transformed value whose storage key is `sk` (the predicate `removeByKey` hands over)
      finds that record's entry, and leaves the index in step once `sk` is deleted. */
  lemma SyncedUnlink(cmp: (string, string) -> int, items: seq<(string, string)>, storage: map<string, Record>,
                     prefix: string, field: string, tf: string -> string, sk: string, p: string -> bool)
    requires Comparator(cmp) && SyncedWith(items, storage, prefix, field, tf)
    requires sk in storage && Visible(prefix, sk) && field in storage[sk]
    requires forall v :: p(v) <==> v == sk
    ensures var m := FirstKeyMatch(cmp, items, tf(storage[sk][field]), p);
      && m.Some? && m.value < |items| && items[m.value] == (tf(storage[sk][field]), sk)
      && SyncedWith(items[..m.value] + items[m.value + 1..], storage - {sk}, prefix, field, tf)
  {
    var x := (tf(storage[sk][field]), sk);
    var e := Expected(storage, prefix, field, tf);
    assert x in e;
    assert x in multiset(items);
    var j :| 0 <= j < |items| && items[j] == x;
    assert cmp(x.0, x.0) == 0 && p(x.1);
    var m := FirstKeyMatch(cmp, items, x.0, p);
    assert m.Some?;
    var r := m.value;
    assert items[r] in multiset(items);
    assert items[r] == x;
    var rest := items[..r] + items[r + 1..];
    MultisetRemoveAt(items, r);
    ExpectedDelete(storage, prefix, field, tf, sk);
    assert Expected(storage - {sk}, prefix, field, tf) == e - {x};
    MultisetSetRemove(e, x);
    assert multiset(rest) == multiset(e - {x});
  }

  lemma MultisetRemoveAt<T>(s: seq<T>, r: nat)
    requires r < |s|
    ensures multiset(s[..r] + s[r + 1..]) == multiset(s) - multiset{s[r]}
  {
    assert s == s[..r] + [s[r]] + s[r + 1..];
  }

  lemma MultisetSetAdd<T>(e: set<T>, x: T)
    requires x !in e
    ensures multiset(e + {x}) == multiset(e) + multiset{x}
  {
  }

  lemma MultisetSetRemove<T>(e: set<T>, x: T)
    requires x in e
    ensures multiset(e - {x}) == multiset(e) - multiset{x}
  {
  }

  /** Deleting a key whose record does not own the field leaves an index in step. */
  lemma SyncedDeleteOther(items: seq<(string, string)>, storage: map<string, Record>, prefix: string,
                          field: string, tf: string -> string, sk: string)
    requires SyncedWith(items, storage, prefix, field, tf) && sk in storage
    requires !Visible(prefix, sk) || field !in storage[sk]
    ensures SyncedWith(items, storage - {sk}, prefix, field, tf)
  {
    ExpectedDelete(storage, prefix, field, tf, sk);
  }

  /** Two storages that agree on the store's visible keys expect the same entries. */
  lemma ExpectedVisible(st: map<string, Record>, st': map<string, Record>, prefix: string, field: string,
                        tf: string -> string)
    requires forall sk :: Visible(prefix, sk) ==> (sk in st <==> sk in st') && (sk in st ==> st[sk] == st'[sk])
    ensures Expected(st, prefix, field, tf) == Expected(st', prefix, field, tf)
  {
    forall e | e in Expected(st, prefix, field, tf) ensures e in Expected(st', prefix, field, tf) {
      var k :| k in st && Visible(prefix, k) && field in st[k] && e == (tf(st[k][field]), k);
      assert k in st';
    }
    forall e | e in Expected(st', prefix, field, tf) ensures e in Expected(st, prefix, field, tf) {
      var k :| k in st' && Visible(prefix, k) && field in st'[k] && e == (tf(st'[k][field]), k);
      assert k in st;
    }
  }

  /** The part of `storage` under the keys `keys`. */
  ghost function Among(storage: map<string, Record>, keys: set<string>): (m: map<string, Record>)
    ensures forall sk :: sk in m <==> sk in storage && sk in keys
  {
    map sk | sk in storage && sk in keys :: storage[sk]
  }

  // ---------------------------------------------------------------------------
  // Range positions
  // ---------------------------------------------------------------------------

  /** The positions of `s` whose keys lie between `a` and `b`, increasing. */
  function RangePositions<K, V>(cmp: (K, K) -> int, s: seq<(K, V)>, a: K, b: K): (pos: seq<nat>)
    ensures forall t :: 0 <= t < |pos| ==> pos[t] < |s|
    decreases |s|
  {
    if s == [] then []
    else
      var n := |s| - 1;
      RangePositions(cmp, s[..n], a, b) + (if cmp(s[n].0, a) >= 0 && cmp(s[n].0, b) <= 0 then [n] else [])
  }

  /** `InRange` holds the values at `RangePositions`, whose keys lie in the range. */
  lemma {:induction false} RangePositionsValues<K, V>(cmp: (K, K) -> int, s: seq<(K, V)>, a: K, b: K)
    ensures var pos := RangePositions(cmp, s, a, b); |pos| == |InRange(cmp, s, a, b)|
    ensures var pos := RangePositions(cmp, s, a, b); forall t :: 0 <= t < |pos| ==>
      InRange(cmp, s, a, b)[t] == s[pos[t]].1 && cmp(s[pos[t]].0, a) >= 0 && cmp(s[pos[t]].0, b) <= 0
    decreases |s|
  {
    if s != [] {
      var n := |s| - 1;
      var init := s[..n];
      RangePositionsValues(cmp, init, a, b);
      var pos0, pos, r := RangePositions(cmp, init, a, b), RangePositions(cmp, s, a, b), InRange(cmp, init, a, b);
      forall t | 0 <= t < |pos0| ensures InRange(cmp, s, a, b)[t] == s[pos[t]].1 {
        assert InRange(cmp, s, a, b)[t] == r[t] && pos[t] == pos0[t] && init[pos0[t]] == s[pos0[t]];
      }
    }
  }

  /** `RangePositions` increases. */
  lemma {:induction false} RangePositionsIncrease<K, V>(cmp: (K, K) -> int, s: seq<(K, V)>, a: K, b: K)
    ensures forall t, t' :: 0 <= t < t' < |RangePositions(cmp, s, a, b)| ==>
      RangePositions(cmp, s, a, b)[t] < RangePositions(cmp, s, a, b)[t']
    decreases |s|
  {
    if s != [] {
      var n := |s| - 1;
      RangePositionsIncrease(cmp, s[..n], a, b);
      var pos0, pos := RangePositions(cmp, s[..n], a, b), RangePositions(cmp, s, a, b);
      var inside := cmp(s[n].0, a) >= 0 && cmp(s[n].0, b) <= 0;
      assert pos == pos0 + (if inside then [n] else []);
      forall t, t' | 0 <= t < t' < |pos| ensures pos[t] < pos[t'] {
        assert pos[t] == pos0[t] && pos0[t] < n;
        if t' < |pos0| {
          assert pos[t'] == pos0[t'] && pos0[t] < pos0[t'];
        } else {
          assert pos[t'] == n;
        }
      }
    }
  }

  /** `RangePositions` misses no position whose key lies in the range. */
  lemma {:induction false} RangePositionsComplete<K, V>(cmp: (K, K) -> int, s: seq<(K, V)>, a: K, b: K)
    ensures forall j :: 0 <= j < |s| && cmp(s[j].0, a) >= 0 && cmp(s[j].0, b) <= 0 ==> j in RangePositions(cmp, s, a, b)
    decreases |s|
  {
    if s != [] {
      var n := |s| - 1;
      var init := s[..n];
      RangePositionsComplete(cmp, init, a, b);
      forall j | 0 <= j < n && cmp(s[j].0, a) >= 0 && cmp(s[j].0, b) <= 0 ensures j in RangePositions(cmp, s, a, b) {
        assert init[j] == s[j];
      }
    }
  }

  /** `InRange` picks, in order, the values at the positions whose keys lie between `a`
      and `b`: `pos` lists those positions, increasing, and misses none. */
  lemma InRangePositions<K, V>(cmp: (K, K) -> int, s: seq<(K, V)>, a: K, b: K)
    returns (pos: seq<nat>)
    ensures |pos| == |InRange(cmp, s, a, b)|
    ensures forall t :: 0 <= t < |pos| ==>
      pos[t] < |s| && InRange(cmp, s, a, b)[t] == s[pos[t]].1 && cmp(s[pos[t]].0, a) >= 0 && cmp(s[pos[t]].0, b) <= 0
    ensures forall t, t' :: 0 <= t < t' < |pos| ==> pos[t] < pos[t']
    ensures forall j :: 0 <= j < |s| && cmp(s[j].0, a) >= 0 && cmp(s[j].0, b) <= 0 ==> j in pos
  {
    pos := RangePositions(cmp, s, a, b);
    RangePositionsValues(cmp, s, a, b);
    RangePositionsIncrease(cmp, s, a, b);
    RangePositionsComplete(cmp, s, a, b);
  }

  // ---------------------------------------------------------------------------
  // What an index in step with the storage lists
  // ---------------------------------------------------------------------------

  /** The storage key `sk` holds a record of the store that owns `field`. */
  ghost predicate Indexed(storage: map<string, Record>, prefix: string, field: string, sk: string) {
    sk in storage && Visible(prefix, sk) && field in storage[sk]
  }

  /** `keys` are the storage keys of the records that own `field`, each once, in the order
      of their values under `tf` and `cmp`. */
  ghost predicate Listing(storage: map<string, Record>, prefix: string, field: string, tf: string -> string,
                          cmp: (string, string) -> int, keys: seq<string>)
  {
    && (forall t :: 0 <= t < |keys| ==> Indexed(storage, prefix, field, keys[t]))
    && (forall sk :: Indexed(storage, prefix, field, sk) ==> sk in keys)
    && (forall t, t' :: 0 <= t < t' < |keys| ==>
          && keys[t] != keys[t'] && Indexed(storage, prefix, field, keys[t]) && Indexed(storage, prefix, field, keys[t'])
          && cmp(tf(storage[keys[t']][field]), tf(storage[keys[t]][field])) >= 0)
  }

  /** `keys` are the storage keys of the records that own `field` with a value under `tf`
      between `lo` and `hi`, each once, in the order of those values. */
  ghost predicate RangeListing(storage: map<string, Record>, prefix: string, field: string, tf: string -> string,
                               cmp: (string, string) -> int, lo: string, hi: string, keys: seq<string>)
  {
    && (forall t :: 0 <= t < |keys| ==>
          Indexed(storage, prefix, field, keys[t]) && Between(cmp, tf(storage[keys[t]][field]), lo, hi))
    && (forall sk :: Indexed(storage, prefix, field, sk) && Between(cmp, tf(storage[sk][field]), lo, hi) ==> sk in keys)
    && (forall t, t' :: 0 <= t < t' < |keys| ==>
          && keys[t] != keys[t'] && Indexed(storage, prefix, field, keys[t]) && Indexed(storage, prefix, field, keys[t'])
          && cmp(tf(storage[keys[t']][field]), tf(storage[keys[t]][field])) >= 0)
  }

  /** The values of an index in step with the storage and sorted by `cmp` are the storage
      keys of the records that own the field, each once, in the order of their transformed
      values. */
  lemma SyncedListing(cmp: (string, string) -> int, items: seq<(string, string)>, storage: map<string, Record>,
                      prefix: string, field: string, tf: string -> string, vs: seq<string>)
    requires SyncedWith(items, storage, prefix, field, tf) && vs == ValuesOf(items)
    requires forall i, j :: 0 <= i < j < |items| ==> cmp(items[j].0, items[i].0) >= 0
    ensures Listing(storage, prefix, field, tf, cmp, vs)
  {
    SyncedEntries(items, storage, prefix, field, tf);
    SyncedValues(items, storage, prefix, field, tf);
  }

  /** The values an index in step with the storage and sorted by `cmp` gives for the range
      from `lo` to `hi` are the storage keys of the records that own the field with a
      transformed value in that range, each once, in the order of those values. */
  lemma SyncedRange(cmp: (string, string) -> int, items: seq<(string, string)>, storage: map<string, Record>,
                    prefix: string, field: string, tf: string -> string, lo: string, hi: string, r: seq<string>)
    requires SyncedWith(items, storage, prefix, field, tf) && r == InRange(cmp, items, lo, hi)
    requires forall i, j :: 0 <= i < j < |items| ==> cmp(items[j].0, items[i].0) >= 0
    ensures RangeListing(storage, prefix, field, tf, cmp, lo, hi, r)
  {
    SyncedEntries(items, storage, prefix, field, tf);
    var pos := InRangePositions(cmp, items, lo, hi);
    RangeMembers(cmp, items, storage, prefix, field, tf, lo, hi, r, pos);
    RangeComplete(cmp, items, storage, prefix, field, tf, lo, hi, r, pos);
  }

  /** The half of `SyncedRange` about the values listed. */
  lemma RangeMembers(cmp: (string, string) -> int, items: seq<(string, string)>, storage: map<string, Record>,
                     prefix: string, field: string, tf: string -> string, lo: string, hi: string, r: seq<string>, pos: seq<nat>)
    requires forall j :: 0 <= j < |items| ==>
      Indexed(storage, prefix, field, items[j].1) && items[j].0 == tf(storage[items[j].1][field])
    requires forall i, j :: 0 <= i < j < |items| ==> items[i].1 != items[j].1
    requires forall i, j :: 0 <= i < j < |items| ==> cmp(items[j].0, items[i].0) >= 0
    requires |pos| == |r| && forall t, t' :: 0 <= t < t' < |pos| ==> pos[t] < pos[t']
    requires forall t :: 0 <= t < |pos| ==>
      pos[t] < |items| && r[t] == items[pos[t]].1 && Between(cmp, items[pos[t]].0, lo, hi)
    ensures forall t :: 0 <= t < |r| ==>
      Indexed(storage, prefix, field, r[t]) && Between(cmp, tf(storage[r[t]][field]), lo, hi)
    ensures forall t, t' :: 0 <= t < t' < |r| ==>
      && r[t] != r[t'] && Indexed(storage, prefix, field, r[t]) && Indexed(storage, prefix, field, r[t'])
      && cmp(tf(storage[r[t']][field]), tf(storage[r[t]][field])) >= 0
  {
    forall t | 0 <= t < |r|
      ensures Indexed(storage, prefix, field, r[t]) && items[pos[t]] == (tf(storage[r[t]][field]), r[t])
    {
      assert items[pos[t]].1 == r[t];
    }
    forall t, t' | 0 <= t < t' < |r|
      ensures && r[t] != r[t'] && Indexed(storage, prefix, field, r[t]) && Indexed(storage, prefix, field, r[t'])
              && cmp(tf(storage[r[t']][field]), tf(storage[r[t]][field])) >= 0
    {
      assert pos[t] < pos[t'];
    }
  }

  /** The half of `SyncedRange` about the values not missed. */
  lemma RangeComplete(cmp: (string, string) -> int, items: seq<(string, string)>, storage: map<string, Record>,
                      prefix: string, field: string, tf: string -> string, lo: string, hi: string, r: seq<string>, pos: seq<nat>)
    requires forall sk :: Indexed(storage, prefix, field, sk) ==> (tf(storage[sk][field]), sk) in items
    requires |pos| == |r| && forall t :: 0 <= t < |pos| ==> pos[t] < |items| && r[t] == items[pos[t]].1
    requires forall j :: 0 <= j < |items| && Between(cmp, items[j].0, lo, hi) ==> j in pos
    ensures forall sk :: Indexed(storage, prefix, field, sk) && Between(cmp, tf(storage[sk][field]), lo, hi) ==> sk in r
  {
    forall sk | Indexed(storage, prefix, field, sk) && Between(cmp, tf(storage[sk][field]), lo, hi) ensures sk in r {
      var j :| 0 <= j < |items| && items[j] == (tf(storage[sk][field]), sk);
      assert j in pos;
      var t :| 0 <= t < |pos| && pos[t] == j;
      assert r[t] == sk;
    }
  }

  /** `v` lies between `lo` and `hi`, both included. */
  predicate Between(cmp: (string, string) -> int, v: string, lo: string, hi: string) {
    cmp(v, lo) >= 0 && cmp(v, hi) <= 0
  }

  // ---------------------------------------------------------------------------
  // Records by id
  // ---------------------------------------------------------------------------

  /** The records keyed by their `idField` value, a later record replacing an earlier one
      with the same id: what `_.each` builds into an object in `sync`. */
  function ById(items: seq<Record>, idField: string): map<string, Record>
    decreases |items|
  {
    if items == [] then map[]
    else ById(items[..|items| - 1], idField)[IdOf(items[|items| - 1], idField) := items[|items| - 1]]
  }

  /** Every record's id is a key of `ById`, and each key maps to a record of the list with
      that id. */
  lemma {:induction false} ByIdKeys(items: seq<Record>, idField: string)
    ensures forall j :: 0 <= j < |items| ==> IdOf(items[j], idField) in ById(items, idField)
    ensures forall id :: id in ById(items, idField) ==>
      IdOf(ById(items, idField)[id], idField) == id && ById(items, idField)[id] in items
    decreases |items|
  {
    if items != [] {
      var n := |items| - 1;
      var init := items[..n];
      ByIdKeys(init, idField);
      var m0, m := ById(init, idField), ById(items, idField);
      var last := IdOf(items[n], idField);
      assert m == m0[last := items[n]];
      forall j | 0 <= j < |items| ensures IdOf(items[j], idField) in m {
        if j < n {
          assert init[j] == items[j];
        }
      }
      forall id | id in m ensures IdOf(m[id], idField) == id && m[id] in items {
        if id != last {
          var j :| 0 <= j < n && init[j] == m0[id];
          assert items[j] == m[id];
        }
      }
    }
  }

  /** A record that no later record shares its id with is the one `ById` keeps: the last
      one wins. */
  lemma {:induction false} ByIdLast(items: seq<Record>, idField: string, j: nat)
    requires j < |items| && LastWithId(items, idField, j)
    ensures IdOf(items[j], idField) in ById(items, idField)
    ensures ById(items, idField)[IdOf(items[j], idField)] == items[j]
    decreases |items|
  {
    var n := |items| - 1;
    var init := items[..n];
    var m0, m := ById(init, idField), ById(items, idField);
    assert m == m0[IdOf(items[n], idField) := items[n]];
    if j < n {
      assert init[j] == items[j];
      assert LastWithId(init, idField, j) by {
        forall j' | j < j' < n ensures IdOf(init[j'], idField) != IdOf(init[j], idField) {
          assert init[j'] == items[j'];
        }
      }
      ByIdLast(init, idField, j);
    }
  }

  /** No record after position `j` has the id of the record at `j`. */
  ghost predicate LastWithId(items: seq<Record>, idField: string, j: nat)
    requires j < |items|
  {
    forall j' :: j < j' < |items| ==> IdOf(items[j'], idField) != IdOf(items[j], idField)
  }

  // ---------------------------------------------------------------------------
  // The sync method
  // ---------------------------------------------------------------------------

  /** The summary the `sync` method hands its callback: the records created, updated and
      deleted, by id. */
  datatype SyncState = SyncState(created: map<string, Record>, updated: map<string, Record>, deleted: map<string, Record>)

  /** What the `sync` method records for the local records `local` and the incoming ones
      `incoming`, both by id (LocalStore.js:647-676): a local-only id whose record
      `shouldDelete` accepts is deleted, an id in both whose records `isUpdated` tells apart
      is updated to the incoming record, and an incoming-only id is created. */
  function SyncSummary(local: map<string, Record>, incoming: map<string, Record>,
                       isUpdated: (Record, Record) -> bool, shouldDelete: Record -> bool): (s: SyncState)
    ensures forall id :: id in s.deleted <==> id in local && id !in incoming && shouldDelete(local[id])
    ensures forall id :: id in s.updated <==> id in local && id in incoming && isUpdated(local[id], incoming[id])
    ensures forall id :: id in s.created <==> id !in local && id in incoming
    ensures forall id :: id in s.deleted ==> s.deleted[id] == local[id]
    ensures forall id :: id in s.updated ==> s.updated[id] == incoming[id]
    ensures forall id :: id in s.created ==> s.created[id] == incoming[id]
    ensures s.deleted.Keys !! s.updated.Keys && s.updated.Keys !! s.created.Keys && s.deleted.Keys !! s.created.Keys
  {
    var parts := SyncPartition(local.Keys, incoming.Keys);
    SyncState(
      map id | id in parts.2 :: incoming[id],
      map id | id in parts.1 && isUpdated(local[id], incoming[id]) :: incoming[id],
      map id | id in parts.0 && shouldDelete(local[id]) :: local[id])
  }

  /** The phases of `sync`, each filtering its part of the partition, record what
      `SyncSummary` says. */
  lemma PhasesSummary(local: map<string, Record>, incoming: map<string, Record>, isUpdated: (Record, Record) -> bool,
                      shouldDelete: Record -> bool, keepUpdated: string -> bool, keepCreated: string -> bool,
                      deleted: map<string, Record>, updated: map<string, Record>, created: map<string, Record>)
    requires forall id :: keepUpdated(id) <==> id in local && id in incoming && isUpdated(local[id], incoming[id])
    requires forall id :: keepCreated(id)
    requires var parts := SyncPartition(local.Keys, incoming.Keys);
      && deleted == (map id | id in parts.0 && shouldDelete(local[id]) :: local[id])
      && updated == (map id | id in parts.1 && keepUpdated(id) :: incoming[id])
      && created == (map id | id in parts.2 && keepCreated(id) :: incoming[id])
    ensures SyncState(created, updated, deleted) == SyncSummary(local, incoming, isUpdated, shouldDelete)
  {
    var s := SyncSummary(local, incoming, isUpdated, shouldDelete);
    assert s.deleted == deleted;
    assert s.updated == updated;
    assert s.created == created;
  }

  /** `local` holds, by id, a record of the store for every id the store's records have
      under `idField`, and nothing else. */
  ghost predicate LocalOf(storage: map<string, Record>, prefix: string, idField: string, local: map<string, Record>) {
    && (forall sk :: sk in storage && Visible(prefix, sk) ==> IdOf(storage[sk], idField) in local)
    && (forall id :: id in local ==>
          IdOf(local[id], idField) == id && exists sk :: sk in storage && Visible(prefix, sk) && storage[sk] == local[id])
  }

  /** The records of `storageEach`'s pairs, by id, are a `LocalOf` the storage. */
  lemma CollectedLocal(storage: map<string, Record>, prefix: string, idField: string,
                       entries: seq<(string, Record)>, local: map<string, Record>)
    requires forall t :: 0 <= t < |entries| ==>
      entries[t].0 in storage && Visible(prefix, entries[t].0) && entries[t].1 == storage[entries[t].0]
    requires forall sk :: sk in storage && Visible(prefix, sk) ==> exists t :: 0 <= t < |entries| && entries[t].0 == sk
    requires local == ById(ValuesOf(entries), idField)
    ensures LocalOf(storage, prefix, idField, local)
  {
    var records := ValuesOf(entries);
    ByIdKeys(records, idField);
    forall sk | sk in storage && Visible(prefix, sk) ensures IdOf(storage[sk], idField) in local {
      var t :| 0 <= t < |entries| && entries[t].0 == sk;
      assert records[t] == storage[sk];
    }
    forall id | id in local
      ensures exists sk :: sk in storage && Visible(prefix, sk) && storage[sk] == local[id]
    {
      var t :| 0 <= t < |records| && records[t] == local[id];
      assert entries[t].0 in storage && storage[entries[t].0] == local[id];
    }
  }

  /** The storage keys of the ids `ids`. */
  ghost function KeysFor(prefix: string, ids: set<string>): set<string> {
    set id | id in ids :: GenerateKey(prefix, id)
  }

  /** The storage keys `addOrUpdate` writes the records of `recs` under. */
  ghost function StoredKeys(prefix: string, keyField: string, recs: map<string, Record>): set<string> {
    set id | id in recs :: GenerateKey(prefix, IdOf(recs[id], keyField))
  }

  /** The storages agree on every key outside `keys`. */
  ghost predicate AgreeOutside(st: map<string, Record>, st': map<string, Record>, keys: set<string>) {
    forall sk :: sk !in keys ==> (sk in st <==> sk in st') && (sk in st ==> st[sk] == st'[sk])
  }

  lemma AgreeOutsideTrans(st: map<string, Record>, st': map<string, Record>, st'': map<string, Record>,
                          k: set<string>, k': set<string>)
    requires AgreeOutside(st, st', k) && AgreeOutside(st', st'', k')
    ensures AgreeOutside(st, st'', k + k')
  {
  }

  /** Deleting the key of one more id keeps a storage equal to `base` outside the deleted
      ids' keys, with all those keys gone. */
  lemma DeletedOneMore(base: map<string, Record>, st: map<string, Record>, st': map<string, Record>,
                       prefix: string, ids: set<string>, id: string)
    requires AgreeOutside(base, st, KeysFor(prefix, ids)) && forall i :: i in ids ==> GenerateKey(prefix, i) !in st
    requires st' == st - {GenerateKey(prefix, id)}
    ensures AgreeOutside(base, st', KeysFor(prefix, ids + {id}))
    ensures forall i :: i in ids + {id} ==> GenerateKey(prefix, i) !in st'
  {
    assert KeysFor(prefix, ids + {id}) == KeysFor(prefix, ids) + {GenerateKey(prefix, id)};
  }

  /** Writing one more record keeps a storage equal to `base` outside the written records'
      keys. */
  lemma WrittenOneMore(base: map<string, Record>, st: map<string, Record>, st': map<string, Record>,
                       prefix: string, keyField: string, written: map<string, Record>, id: string, item: Record)
    requires AgreeOutside(base, st, StoredKeys(prefix, keyField, written)) && id !in written
    requires st' == st[GenerateKey(prefix, IdOf(item, keyField)) := item]
    ensures AgreeOutside(base, st', StoredKeys(prefix, keyField, written[id := item]))
  {
    var k := GenerateKey(prefix, IdOf(item, keyField));
    assert StoredKeys(prefix, keyField, written[id := item]) == StoredKeys(prefix, keyField, written) + {k} by {
      assert written[id := item][id] == item;
      forall i | i in written ensures written[id := item][i] == written[i] {
      }
    }
  }

  /** Writing a record under the key of its id keeps every earlier id's record under its
      own key. */
  lemma WrittenKeyed(st: map<string, Record>, st': map<string, Record>, prefix: string,
                     written: map<string, Record>, id: string, item: Record)
    requires forall i :: i in written ==> GenerateKey(prefix, i) in st && st[GenerateKey(prefix, i)] == written[i]
    requires st' == st[GenerateKey(prefix, id) := item]
    ensures forall i :: i in written[id := item] ==>
      GenerateKey(prefix, i) in st' && st'[GenerateKey(prefix, i)] == written[id := item][i]
  {
    forall i | i in written && i != id ensures st'[GenerateKey(prefix, i)] == written[i] {
      GenerateKeyInjective(prefix, i, id);
    }
  }

  /** Records whose `keyField` value is their id are stored under the keys of their ids, so
      no id outside theirs has its key among them. */
  lemma KeysApart(prefix: string, keyField: string, recs: map<string, Record>, ids: set<string>)
    requires forall id :: id in recs ==> IdOf(recs[id], keyField) == id
    requires ids !! recs.Keys
    ensures forall id :: id in ids ==> GenerateKey(prefix, id) !in StoredKeys(prefix, keyField, recs)
  {
    forall id | id in ids ensures GenerateKey(prefix, id) !in StoredKeys(prefix, keyField, recs) {
      forall id' | id' in recs ensures GenerateKey(prefix, IdOf(recs[id'], keyField)) != GenerateKey(prefix, id) {
        GenerateKeyInjective(prefix, id', id);
      }
    }
  }

  /** The three phases of `sync` put together: the delete phase removes the deleted ids'
      keys, the update and create phases store each record under its id's key, and since
      the three id sets are disjoint and ids are the key field, no phase undoes another. */
  lemma PhasesApplied(st1: map<string, Record>, st2: map<string, Record>, st3: map<string, Record>,
                      prefix: string, keyField: string, state: SyncState)
    requires state.deleted.Keys !! state.updated.Keys && state.updated.Keys !! state.created.Keys
    requires state.deleted.Keys !! state.created.Keys
    requires forall id :: id in state.updated ==> IdOf(state.updated[id], keyField) == id
    requires forall id :: id in state.created ==> IdOf(state.created[id], keyField) == id
    requires forall id :: id in state.deleted ==> GenerateKey(prefix, id) !in st1
    requires AgreeOutside(st1, st2, StoredKeys(prefix, keyField, state.updated))
    requires forall id :: id in state.updated ==>
      GenerateKey(prefix, id) in st2 && st2[GenerateKey(prefix, id)] == state.updated[id]
    requires AgreeOutside(st2, st3, StoredKeys(prefix, keyField, state.created))
    requires forall id :: id in state.created ==>
      GenerateKey(prefix, id) in st3 && st3[GenerateKey(prefix, id)] == state.created[id]
    ensures SyncApplied(st3, prefix, state)
  {
    KeysApart(prefix, keyField, state.updated, state.deleted.Keys);
    KeysApart(prefix, keyField, state.created, state.deleted.Keys);
    KeysApart(prefix, keyField, state.created, state.updated.Keys);
  }

  /** The storage shows the summary: every deleted id's key is gone, and every updated or
      created id's key holds the record recorded for it. */
  ghost predicate SyncApplied(storage: map<string, Record>, prefix: string, state: SyncState) {
    && (forall id :: id in state.deleted ==> GenerateKey(prefix, id) !in storage)
    && (forall id :: id in state.updated ==>
          GenerateKey(prefix, id) in storage && storage[GenerateKey(prefix, id)] == state.updated[id])
    && (forall id :: id in state.created ==>
          GenerateKey(prefix, id) in storage && storage[GenerateKey(prefix, id)] == state.created[id])
  }
  /** Every record of the store sits under the key its own id generates, as `addOrUpdate`
      stores it (LocalStore.js:349-355). */
  ghost predicate KeyedById(storage: map<string, Record>, prefix: string, keyField: string) {
    forall sk :: sk in storage && Visible(prefix, sk) ==> sk == GenerateKey(prefix, IdOf(storage[sk], keyField))
  }

  /** The storage keys a summary names: those of the deleted ids and those `addOrUpdate`
      writes the updated and created records under. */
  ghost function SummaryKeys(prefix: string, keyField: string, state: SyncState): set<string> {
    KeysFor(prefix, state.deleted.Keys) + StoredKeys(prefix, keyField, state.updated) + StoredKeys(prefix, keyField, state.created)
  }

  /** The written records of a summary sit under their own ids. */
  ghost predicate WrittenById(keyField: string, state: SyncState) {
    && (forall i :: i in state.updated ==> IdOf(state.updated[i], keyField) == i)
    && (forall i :: i in state.created ==> IdOf(state.created[i], keyField) == i)
  }

  /** A storage key of an id is not among the keys a summary names unless the id is one of
      its deleted, updated or created ids. */
  lemma OutsideSyncKeys(prefix: string, keyField: string, state: SyncState, id: string)
    requires WrittenById(keyField, state)
    requires id !in state.deleted && id !in state.updated && id !in state.created
    ensures GenerateKey(prefix, id) !in SummaryKeys(prefix, keyField, state)
  {
    forall i ensures GenerateKey(prefix, i) == GenerateKey(prefix, id) <==> i == id {
      GenerateKeyInjective(prefix, i, id);
    }
  }

  /** A `sync` with ids as the key field, taking `st0` to `st1` as the `sync` method
      ensures, keeps every record of the store under its own id's key. */
  lemma SyncKeepsKeyed(st0: map<string, Record>, st1: map<string, Record>, prefix: string, keyField: string,
                       state: SyncState)
    requires KeyedById(st0, prefix, keyField) && WrittenById(keyField, state)
    requires AgreeOutside(st0, st1, SummaryKeys(prefix, keyField, state)) && SyncApplied(st1, prefix, state)
    ensures KeyedById(st1, prefix, keyField)
  {
    forall sk | sk in st1 && Visible(prefix, sk) ensures sk == GenerateKey(prefix, IdOf(st1[sk], keyField)) {
      if sk in SummaryKeys(prefix, keyField, state) {
        var id :| sk == GenerateKey(prefix, id) && (id in state.deleted || id in state.updated || id in state.created);
        assert id in state.updated || id in state.created;
      }
    }
  }

  /** After such a `sync`, every incoming id's key holds a record with that id that
      `isUpdated` does not tell from the incoming record. */
  lemma SyncLeavesIncoming(st0: map<string, Record>, st1: map<string, Record>, prefix: string, keyField: string,
                           local: map<string, Record>, incoming: map<string, Record>,
                           isUpdated: (Record, Record) -> bool, shouldDelete: Record -> bool, id: string)
    requires KeyedById(st0, prefix, keyField) && LocalOf(st0, prefix, keyField, local)
    requires forall i :: i in incoming ==> IdOf(incoming[i], keyField) == i
    requires var state := SyncSummary(local, incoming, isUpdated, shouldDelete);
      AgreeOutside(st0, st1, SummaryKeys(prefix, keyField, state)) && SyncApplied(st1, prefix, state)
    requires forall r :: !isUpdated(r, r)
    requires id in incoming
    ensures var k := GenerateKey(prefix, id);
      k in st1 && IdOf(st1[k], keyField) == id && !isUpdated(st1[k], incoming[id])
  {
    var state := SyncSummary(local, incoming, isUpdated, shouldDelete);
    if id !in state.updated && id !in state.created {
      var sk :| sk in st0 && Visible(prefix, sk) && st0[sk] == local[id];
      assert sk == GenerateKey(prefix, id);
      OutsideSyncKeys(prefix, keyField, state, id);
    }
  }

  /** The written records of a summary of incoming records keyed by id sit under their ids. */
  lemma SummaryWrittenById(local: map<string, Record>, incoming: map<string, Record>, keyField: string,
                           isUpdated: (Record, Record) -> bool, shouldDelete: Record -> bool)
    requires forall i :: i in incoming ==> IdOf(incoming[i], keyField) == i
    ensures WrittenById(keyField, SyncSummary(local, incoming, isUpdated, shouldDelete))
  {
  }

  /** On a storage keyed by id, the record `storageEach` finds for an id is the one under
      that id's key. */
  lemma LocalUnderKey(st: map<string, Record>, prefix: string, keyField: string, local: map<string, Record>, id: string)
    requires KeyedById(st, prefix, keyField) && LocalOf(st, prefix, keyField, local)
    requires GenerateKey(prefix, id) in st && IdOf(st[GenerateKey(prefix, id)], keyField) == id
    ensures id in local && local[id] == st[GenerateKey(prefix, id)]
  {
    GeneratedVisible(prefix, id);
    var sk :| sk in st && Visible(prefix, sk) && st[sk] == local[id];
  }

  /** When every incoming id is local and `isUpdated` tells none of them apart, the summary
      creates and updates nothing. */
  lemma NothingToWrite(local: map<string, Record>, incoming: map<string, Record>,
                       isUpdated: (Record, Record) -> bool, shouldDelete: Record -> bool)
    requires forall id :: id in incoming ==> id in local && !isUpdated(local[id], incoming[id])
    ensures var s := SyncSummary(local, incoming, isUpdated, shouldDelete); s.created == map[] && s.updated == map[]
  {
    var s := SyncSummary(local, incoming, isUpdated, shouldDelete);
    assert s.created.Keys == {};
    assert s.updated.Keys == {};
  }

  /** `sync` is idempotent when ids are the key field and every record of the store sits
      under its own id's key: with an `isUpdated` that never tells a record from itself, a
      second `sync` of the same items, on the storage the first one left (`st1`, related to
      `st0` as the `sync` method ensures), creates and updates nothing. */
  lemma SyncIdempotent(st0: map<string, Record>, st1: map<string, Record>, prefix: string, keyField: string,
                       items: seq<Record>, isUpdated: (Record, Record) -> bool, shouldDelete: Record -> bool,
                       local: map<string, Record>, local': map<string, Record>)
    requires KeyedById(st0, prefix, keyField) && LocalOf(st0, prefix, keyField, local)
    requires var state := SyncSummary(local, ById(items, keyField), isUpdated, shouldDelete);
      AgreeOutside(st0, st1, SummaryKeys(prefix, keyField, state)) && SyncApplied(st1, prefix, state)
    requires forall r :: !isUpdated(r, r)
    requires LocalOf(st1, prefix, keyField, local')
    ensures KeyedById(st1, prefix, keyField)
    ensures var again := SyncSummary(local', ById(items, keyField), isUpdated, shouldDelete);
      again.created == map[] && again.updated == map[]
  {
    var incoming := ById(items, keyField);
    var state := SyncSummary(local, incoming, isUpdated, shouldDelete);
    ByIdKeys(items, keyField);
    SummaryWrittenById(local, incoming, keyField, isUpdated, shouldDelete);
    SyncKeepsKeyed(st0, st1, prefix, keyField, state);
    forall id | id in incoming ensures id in local' && !isUpdated(local'[id], incoming[id]) {
      SyncLeavesIncoming(st0, st1, prefix, keyField, local, incoming, isUpdated, shouldDelete, id);
      LocalUnderKey(st1, prefix, keyField, local', id);
    }
    NothingToWrite(local', incoming, isUpdated, shouldDelete);
  }
}

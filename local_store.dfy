/** `LocalStore` (LocalStore.js:257-682): records kept in a key/value storage under
    `prefix + ":" + id`, with named skip-list indexes over their fields. The class invariant
    is that every index holds exactly one entry per stored record of the store that owns the
    indexed field. */
module LocalStores {
  import opened Common
  import opened SkipLists
  import opened StoreBasics
  import opened StoreSpecs
  import opened StoreIndexes

  /** The error messages `init` throws (LocalStore.js:311-323). */
  const PrefixError: string :=
    "storageKeyPrefix must not be empty. "
    + "The storageKeyPrefix parameter will be used to prefix keys in the storage. "
    + "Please provide a unique prefix"
  const KeyFieldError: string :=
    "keyFieldName must not be empty. "
    + "The keyFieldName parameter will be used to store objects. "
    + "Please provide the name of the field that will be used a unique key"
  const StorageError: string := "Please provide a storage engine conforming to HTML5 localStorage interface"

  class LocalStore {
    /** The storage engine: storage key to stored record. */
    var storage: map<string, Record>
    /** `storageKeyPrefix`. */
    const prefix: string
    /** `keyFieldName`: the field whose value is a record's id. */
    const keyField: string
    /** `indexCollection`: index name to index. */
    var indexes: map<string, SkipListIndex>
    ghost var Repr: set<object>

    ghost function Indexes(): set<SkipListIndex>
      reads this
    {
      set n | n in indexes :: indexes[n]
    }

    ghost function Lists(): set<SkipList<string, string>>
      reads this, Indexes()
    {
      set n | n in indexes :: indexes[n].list
    }

    /** The store owns its indexes and their lists, and no two names share an index or a
        list. */
    ghost predicate Layout()
      reads this, Indexes()
    {
      this in Repr && Indexes() <= Repr && Lists() <= Repr && Distinct()
    }

    /** No two names share an index or a list. */
    ghost predicate Distinct()
      reads this, Indexes()
    {
      forall n, n' :: n in indexes && n' in indexes && n != n' ==>
        indexes[n] != indexes[n'] && indexes[n].list != indexes[n'].list
    }

    /** `ind` is a valid index in step with `st`. */
    ghost predicate InStep(ind: SkipListIndex, st: map<string, Record>)
      reads ind, ind.list
    {
      ind.Valid() && SyncedWith(ind.list.Items(), st, prefix, ind.field, ind.transform)
    }

    ghost predicate Valid()
      reads this, Repr
    {
      && Indexes() <= Repr && Layout()
      && forall n {:trigger InStep(indexes[n], storage)} :: n in indexes ==> InStep(indexes[n], storage)
    }

    /** The record owns no indexed field with an empty value (an index `insert` would throw
        on it part-way through `addOrUpdate`). */
    ghost predicate Filled(rec: Record)
      reads this, Indexes()
    {
      forall n :: n in indexes && indexes[n].field in rec ==> rec[indexes[n].field] != ""
    }

    /** The incoming records `sync` may write are `Filled`: an incoming record (the last one
        with its id) that is not filled has a stored record of the store with its id, and
        `isUpdated` rejects it against every such stored record, so `sync` leaves it alone. */
    ghost predicate WritesFilled(items: seq<Record>, idField: string, isUpdated: (Record, Record) -> bool)
      reads this, Indexes()
    {
      forall id :: id in ById(items, idField) && !Filled(ById(items, idField)[id]) ==>
        && (exists sk :: sk in storage && Visible(prefix, sk) && IdOf(storage[sk], idField) == id)
        && (forall sk :: sk in storage && Visible(prefix, sk) && IdOf(storage[sk], idField) == id ==>
              !isUpdated(storage[sk], ById(items, idField)[id]))
    }

    constructor(prefix: string, keyField: string, storage: map<string, Record>)
      ensures Valid() && fresh(Repr)
      ensures this.prefix == prefix && this.keyField == keyField && this.storage == storage && indexes == map[]
    {
      this.prefix := prefix;
      this.keyField := keyField;
      this.storage := storage;
      indexes := map[];
      Repr := {this};
    }

    /** `new LocalStore(...)` with `init` (LocalStore.js:296-338): the prefix and the key
        field must be given and not all white space, and a storage must be given. */
    static method Init(prefix: Option<string>, keyField: Option<string>, storage: Option<map<string, Record>>)
      returns (r: Result<LocalStore>)
      ensures r.Err? <==> prefix.None? || IsEmpty(prefix.value) || keyField.None? || IsEmpty(keyField.value) || storage.None?
      ensures r.Err? && (prefix.None? || IsEmpty(prefix.value)) ==> r.msg == PrefixError
      ensures r.Err? && prefix.Some? && !IsEmpty(prefix.value) && (keyField.None? || IsEmpty(keyField.value)) ==> r.msg == KeyFieldError
      ensures r.Err? && prefix.Some? && !IsEmpty(prefix.value) && keyField.Some? && !IsEmpty(keyField.value) ==> r.msg == StorageError
      ensures r.Ok? ==> fresh(r.value) && fresh(r.value.Repr) && r.value.Valid()
      ensures r.Ok? ==> (r.value.prefix == prefix.value && r.value.keyField == keyField.value
                         && r.value.storage == storage.value && r.value.indexes == map[])
    {
      if prefix.None? || IsEmpty(prefix.value) {
        return Err(PrefixError);
      }
      if keyField.None? || IsEmpty(keyField.value) {
        return Err(KeyFieldError);
      }
      if storage.None? {
        return Err(StorageError);
      }
      var store := new LocalStore(prefix.value, keyField.value, storage.value);
      r := Ok(store);
    }

    /** `storageEach` (LocalStore.js:558-578): every stored (key, record) whose key starts
        with the prefix, each key once; the order is the storage's and is left open. */
    method StorageEach() returns (entries: seq<(string, Record)>)
      ensures forall t :: 0 <= t < |entries| ==>
        entries[t].0 in storage && Visible(prefix, entries[t].0) && entries[t].1 == storage[entries[t].0]
      ensures forall sk :: sk in storage && Visible(prefix, sk) ==> exists t :: 0 <= t < |entries| && entries[t].0 == sk
      ensures forall t, t' :: 0 <= t < t' < |entries| ==> entries[t].0 != entries[t'].0
    {
      entries := [];
      var rest := storage.Keys;
      while rest != {}
        invariant rest <= storage.Keys
        invariant forall t :: 0 <= t < |entries| ==>
          entries[t].0 in storage && entries[t].0 !in rest && Visible(prefix, entries[t].0) && entries[t].1 == storage[entries[t].0]
        invariant forall sk :: sk in storage && Visible(prefix, sk) && sk !in rest ==>
          exists t :: 0 <= t < |entries| && entries[t].0 == sk
        invariant forall t, t' :: 0 <= t < t' < |entries| ==> entries[t].0 != entries[t'].0
        decreases rest
      {
        var sk :| sk in rest;
        ghost var prev := entries;
        if Visible(prefix, sk) {
          entries := entries + [(sk, storage[sk])];
          assert entries[|entries| - 1].0 == sk;
        }
        forall k | k in storage && Visible(prefix, k) && k !in rest - {sk}
          ensures exists t :: 0 <= t < |entries| && entries[t].0 == k
        {
          if k != sk {
            var t :| 0 <= t < |prev| && prev[t].0 == k;
            assert entries[t] == prev[t];
          } else {
            assert entries[|entries| - 1].0 == k;
          }
        }
        rest := rest - {sk};
      }
    }

    /** `removeByKey` (LocalStore.js:365-392): nothing happens when nothing is stored under
        the id's key; otherwise the record leaves the storage and, from every index on a
        field it owns, the one entry whose value is its storage key. */
    method RemoveByKey(id: string)
      requires Valid()
      modifies Repr
      ensures Valid() && Repr == old(Repr) && indexes == old(indexes)
      ensures storage == old(storage) - {GenerateKey(prefix, id)}
    {
      var sk := GenerateKey(prefix, id);
      if sk !in storage {
        return;
      }
      var rec := storage[sk];
      ghost var before := storage;
      storage := storage - {sk};
      GeneratedVisible(prefix, id);
      var names := indexes.Keys;
      while names != {}
        invariant names <= indexes.Keys && storage == before - {sk} && Layout()
        invariant forall n {:trigger InStep(indexes[n], storage)} :: n in indexes && n !in names ==> InStep(indexes[n], storage)
        invariant forall n {:trigger InStep(indexes[n], before)} :: n in names ==> InStep(indexes[n], before)
        modifies Lists()
        decreases names
      {
        var n :| n in names;
        UnlinkAt(n, names, before, sk, rec);
        names := names - {n};
      }
    }

    /** The step of `removeByKey`'s loop for the index named `n`; `todo` are the names whose
        index is still in step with `before`. */
    method UnlinkAt(n: string, todo: set<string>, ghost before: map<string, Record>, sk: string, rec: Record)
      requires n in todo && todo <= indexes.Keys && Layout()
      requires sk in before && before[sk] == rec && Visible(prefix, sk) && storage == before - {sk}
      requires forall m {:trigger InStep(indexes[m], storage)} :: m in indexes && m !in todo ==> InStep(indexes[m], storage)
      requires forall m {:trigger InStep(indexes[m], before)} :: m in todo ==> InStep(indexes[m], before)
      modifies indexes[n].list
      ensures forall m {:trigger InStep(indexes[m], storage)} :: m in indexes && m !in todo - {n} ==> InStep(indexes[m], storage)
      ensures forall m {:trigger InStep(indexes[m], before)} :: m in todo - {n} ==> InStep(indexes[m], before)
    {
      var ind := indexes[n];
      assert InStep(ind, before);
      label step:
      UnlinkFrom(ind, before, sk, rec);
      forall m | m in indexes && m != n
        ensures InStep(indexes[m], storage) == old@step(InStep(indexes[m], storage))
        ensures InStep(indexes[m], before) == old@step(InStep(indexes[m], before))
      {
        assert indexes[m].list != ind.list;
        assert unchanged@step(indexes[m], indexes[m].list);
      }
    }

    /** One index's part of `removeByKey` (LocalStore.js:374-389): if the record under `sk`
        owns the indexed field, the entry with its transformed value whose value is `sk`
        leaves the index; the index is then in step with the storage without `sk`. */
    method UnlinkFrom(ind: SkipListIndex, ghost st: map<string, Record>, sk: string, rec: Record)
      requires InStep(ind, st) && sk in st && st[sk] == rec && Visible(prefix, sk)
      modifies ind.list
      ensures InStep(ind, st - {sk})
    {
      if ind.field in rec {
        var pred: string -> bool := v => v == sk;
        SyncedUnlink(ind.cmp, ind.list.Items(), st, prefix, ind.field, ind.transform, sk, pred);
        var res := ind.Remove(rec[ind.field], Some(pred));
      } else {
        SyncedDeleteOther(ind.list.Items(), st, prefix, ind.field, ind.transform, sk);
      }
    }

    /** `remove` (LocalStore.js:393-399): `removeByKey` with the record's id. */
    method Remove(item: Record)
      requires Valid()
      modifies Repr
      ensures Valid() && Repr == old(Repr) && indexes == old(indexes)
      ensures storage == old(storage) - {GenerateKey(prefix, IdOf(item, keyField))}
    {
      RemoveByKey(IdOf(item, keyField));
    }

    /** `addOrUpdate` (LocalStore.js:339-364): nothing happens for a missing item; otherwise
        its former version leaves the store, the item is stored under its key, and every index
        on a field the item owns gets its entry (`draw` gives the level each insert draws). */
    method AddOrUpdate(item: Option<Record>, draw: (string, string) -> Level)
      requires Valid()
      requires item.Some? ==> Filled(item.value)
      modifies Repr
      ensures Valid() && Repr == old(Repr) && indexes == old(indexes)
      ensures item.None? ==> storage == old(storage)
      ensures item.Some? ==> storage == old(storage)[GenerateKey(prefix, IdOf(item.value, keyField)) := item.value]
    {
      if item.None? {
        return;
      }
      var rec := item.value;
      var id := IdOf(rec, keyField);
      var sk := GenerateKey(prefix, id);
      RemoveByKey(id);
      GeneratedVisible(prefix, id);
      Put(sk, rec, draw);
    }

    /** The second half of `addOrUpdate` (LocalStore.js:350-362): the record is written under
        a key the storage does not hold, and every index on a field it owns gets its entry. */
    method Put(sk: string, rec: Record, draw: (string, string) -> Level)
      requires Valid() && Filled(rec)
      requires sk !in storage && sk != "" && Visible(prefix, sk)
      modifies Repr
      ensures Valid() && Repr == old(Repr) && indexes == old(indexes)
      ensures storage == old(storage)[sk := rec]
    {
      ghost var before := storage;
      storage := storage[sk := rec];
      var names := indexes.Keys;
      while names != {}
        invariant names <= indexes.Keys && storage == before[sk := rec] && Layout() && Filled(rec)
        invariant forall n {:trigger InStep(indexes[n], storage)} :: n in indexes && n !in names ==> InStep(indexes[n], storage)
        invariant forall n {:trigger InStep(indexes[n], before)} :: n in names ==> InStep(indexes[n], before)
        modifies Lists()
        decreases names
      {
        var n :| n in names;
        LinkAt(n, names, before, sk, rec, draw(n, sk));
        names := names - {n};
      }
    }

    /** The step of `addOrUpdate`'s loop for the index named `n`; `todo` are the names whose
        index is still in step with `before`. */
    method LinkAt(n: string, todo: set<string>, ghost before: map<string, Record>, sk: string, rec: Record, lvl: Level)
      requires n in todo && todo <= indexes.Keys && Layout() && Filled(rec)
      requires sk !in before && sk != "" && Visible(prefix, sk) && storage == before[sk := rec]
      requires forall m {:trigger InStep(indexes[m], storage)} :: m in indexes && m !in todo ==> InStep(indexes[m], storage)
      requires forall m {:trigger InStep(indexes[m], before)} :: m in todo ==> InStep(indexes[m], before)
      modifies indexes[n].list
      ensures forall m {:trigger InStep(indexes[m], storage)} :: m in indexes && m !in todo - {n} ==> InStep(indexes[m], storage)
      ensures forall m {:trigger InStep(indexes[m], before)} :: m in todo - {n} ==> InStep(indexes[m], before)
    {
      var ind := indexes[n];
      assert InStep(ind, before);
      label step:
      LinkInto(ind, before, sk, rec, lvl);
      forall m | m in indexes && m != n
        ensures InStep(indexes[m], storage) == old@step(InStep(indexes[m], storage))
        ensures InStep(indexes[m], before) == old@step(InStep(indexes[m], before))
      {
        assert indexes[m].list != ind.list;
        assert unchanged@step(indexes[m], indexes[m].list);
      }
    }

    /** One index's part of `addOrUpdate` (LocalStore.js:355-362): if the record owns the
        indexed field, its transformed value joins the index with `sk` as value; the index is
        then in step with the storage holding the record under `sk`. */
    method LinkInto(ind: SkipListIndex, ghost st: map<string, Record>, sk: string, rec: Record, lvl: Level)
      requires InStep(ind, st) && sk !in st && Visible(prefix, sk)
      requires ind.field in rec ==> sk != "" && rec[ind.field] != ""
      modifies ind.list
      ensures InStep(ind, st[sk := rec])
    {
      if ind.field in rec {
        ghost var s0 := ind.list.Items();
        var res := ind.Insert(rec[ind.field], sk, lvl);
        SyncedPut(s0, ind.list.Items(), st, prefix, ind.field, ind.transform, sk, rec);
      } else {
        SyncedPut(ind.list.Items(), ind.list.Items(), st, prefix, ind.field, ind.transform, sk, rec);
      }
    }

    /** `clear` (LocalStore.js:400-424): every stored key starting with the prefix is
        deleted, other keys stay, and every index is emptied. */
    method Clear()
      requires Valid()
      modifies Repr
      ensures Valid() && indexes == old(indexes)
      ensures storage == map sk | sk in old(storage) && !Visible(prefix, sk) :: old(storage)[sk]
      ensures forall n :: n in indexes ==> indexes[n].Valid() && indexes[n].list.Items() == []
    {
      ghost var before := storage;
      DeleteVisible();
      ClearIndexes(before);
    }

    /** The first half of `clear` (LocalStore.js:405-416): the keys `storageEach` visits are
        deleted from the storage. */
    method DeleteVisible()
      modifies this
      ensures storage == map sk | sk in old(storage) && !Visible(prefix, sk) :: old(storage)[sk]
      ensures indexes == old(indexes) && Repr == old(Repr)
    {
      var entries := StorageEach();
      var i := 0;
      while i < |entries|
        invariant i <= |entries|
        invariant storage == old(storage) - (set t | 0 <= t < i :: entries[t].0)
        invariant indexes == old(indexes) && Repr == old(Repr)
        modifies this
      {
        storage := storage - {entries[i].0};
        i := i + 1;
      }
    }

    /** The second half of `clear` (LocalStore.js:418-422): every index gets a fresh, empty
        list, which is in step with a storage holding none of the store's keys; `before` is
        the storage the indexes were in step with. */
    method ClearIndexes(ghost before: map<string, Record>)
      requires Layout() && forall sk :: sk in storage ==> !Visible(prefix, sk)
      requires forall n {:trigger InStep(indexes[n], before)} :: n in indexes ==> InStep(indexes[n], before)
      modifies this, Indexes()
      ensures Valid() && indexes == old(indexes) && storage == old(storage)
      ensures forall n :: n in indexes ==> indexes[n].Valid() && indexes[n].list.Items() == []
    {
      ResetLists(before);
      Adopt();
    }

    /** The store takes ownership of the fresh lists its indexes now hold. */
    method Adopt()
      requires Distinct()
      requires forall n {:trigger InStep(indexes[n], storage)} :: n in indexes ==>
        InStep(indexes[n], storage) && indexes[n].list.Items() == []
      modifies this
      ensures Valid() && indexes == old(indexes) && storage == old(storage)
      ensures forall n :: n in indexes ==> indexes[n].Valid() && indexes[n].list.Items() == []
    {
      label reset:
      Repr := {this} + Indexes() + Lists();
      forall n | n in indexes ensures InStep(indexes[n], storage) && indexes[n].list.Items() == [] {
        assert old@reset(InStep(indexes[n], storage) && indexes[n].list.Items() == []);
      }
    }

    /** The loop of `clear` over the indexes: each gets a fresh, empty list. */
    method ResetLists(ghost before: map<string, Record>)
      requires Distinct() && forall sk :: sk in storage ==> !Visible(prefix, sk)
      requires forall n {:trigger InStep(indexes[n], before)} :: n in indexes ==> InStep(indexes[n], before)
      modifies Indexes()
      ensures Distinct()
      ensures forall n {:trigger InStep(indexes[n], storage)} :: n in indexes ==>
        InStep(indexes[n], storage) && indexes[n].list.Items() == []
      ensures forall n :: n in indexes ==> fresh(indexes[n].list)
    {
      var names := indexes.Keys;
      while names != {}
        invariant names <= indexes.Keys && Distinct()
        invariant forall n {:trigger InStep(indexes[n], storage)} :: n in indexes && n !in names ==>
          InStep(indexes[n], storage) && indexes[n].list.Items() == []
        invariant forall n {:trigger InStep(indexes[n], before)} :: n in names ==> InStep(indexes[n], before)
        invariant forall n :: n in indexes && n !in names ==> fresh(indexes[n].list)
        modifies Indexes()
        decreases names
      {
        var n :| n in names;
        ResetAt(n, names, before);
        names := names - {n};
      }
    }

    /** The step of `clear`'s loop over the indexes for the index named `n`; `todo` are the
        names whose index is still in step with `before`. */
    method ResetAt(n: string, todo: set<string>, ghost before: map<string, Record>)
      requires n in todo && todo <= indexes.Keys && Distinct()
      requires forall sk :: sk in storage ==> !Visible(prefix, sk)
      requires forall m {:trigger InStep(indexes[m], storage)} :: m in indexes && m !in todo ==>
        InStep(indexes[m], storage) && indexes[m].list.Items() == []
      requires forall m {:trigger InStep(indexes[m], before)} :: m in todo ==> InStep(indexes[m], before)
      modifies indexes[n]
      ensures Distinct()
      ensures forall m {:trigger InStep(indexes[m], storage)} :: m in indexes && m !in todo - {n} ==>
        InStep(indexes[m], storage) && indexes[m].list.Items() == []
      ensures forall m {:trigger InStep(indexes[m], before)} :: m in todo - {n} ==> InStep(indexes[m], before)
      ensures fresh(indexes[n].list)
      ensures forall m :: m in indexes && m != n ==> indexes[m].list == old(indexes[m].list)
    {
      var ind := indexes[n];
      assert InStep(ind, before);
      label step:
      ind.Clear();
      ExpectedNone(storage, prefix, ind.field, ind.transform);
      forall m | m in indexes && m != n
        ensures indexes[m].list == old@step(indexes[m].list)
        ensures InStep(indexes[m], storage) == old@step(InStep(indexes[m], storage))
        ensures InStep(indexes[m], storage) ==> indexes[m].list.Items() == old@step(indexes[m].list.Items())
        ensures InStep(indexes[m], before) == old@step(InStep(indexes[m], before))
      {
        assert indexes[m] != ind;
        assert unchanged@step(indexes[m], indexes[m].list);
      }
    }

    /** `addIndex` (LocalStore.js:446-475): a new index named `name` on `field` replaces any
        index of that name and is filled from the storage (`draw` gives the level each insert
        draws): afterwards it holds the storage key of exactly those visible records that own
        the field. */
    method AddIndex(name: string, field: string, transform: Option<string -> string>,
                    cmp: Option<(string, string) -> int>, draw: (string, string) -> Level)
      requires Valid() && (cmp.Some? ==> Comparator(cmp.value))
      requires forall sk :: sk in storage && Visible(prefix, sk) && field in storage[sk] ==> sk != "" && storage[sk][field] != ""
      modifies this
      ensures Valid() && storage == old(storage) && fresh(Repr - old(Repr))
      ensures indexes.Keys == old(indexes).Keys + {name}
      ensures forall n :: n in old(indexes) && n != name ==> indexes[n] == old(indexes)[n]
      ensures fresh(indexes[name]) && indexes[name].field == field && indexes[name].Valid()
      ensures forall sk :: sk in ValuesOf(indexes[name].list.Items()) <==> sk in storage && Visible(prefix, sk) && field in storage[sk]
    {
      var ind := NewIndex(name, field, transform, cmp, draw);
      Register(name, ind);
      assert InStep(indexes[name], storage);
      SyncedValues(ind.list.Items(), storage, prefix, field, ind.transform);
    }

    /** A new index on `field`, filled from the storage. */
    method NewIndex(name: string, field: string, transform: Option<string -> string>,
                    cmp: Option<(string, string) -> int>, draw: (string, string) -> Level)
      returns (ind: SkipListIndex)
      requires cmp.Some? ==> Comparator(cmp.value)
      requires forall sk :: sk in storage && Visible(prefix, sk) && field in storage[sk] ==> sk != "" && storage[sk][field] != ""
      ensures fresh(ind) && fresh(ind.list) && ind.field == field && InStep(ind, storage)
    {
      ind := new SkipListIndex(field, transform, cmp);
      Fill(ind, name, draw);
    }

    /** `indexCollection[name] = ind` (LocalStore.js:463) for an index in step with the
        storage that the store does not own yet. */
    method Register(name: string, ind: SkipListIndex)
      requires Valid() && InStep(ind, storage) && ind !in Repr && ind.list !in Repr
      modifies this
      ensures Valid() && storage == old(storage) && Repr == old(Repr) + {ind, ind.list}
      ensures indexes == old(indexes)[name := ind]
    {
      label pre:
      indexes := indexes[name := ind];
      Repr := Repr + {ind, ind.list};
      forall m | m in indexes && m != name
        ensures indexes[m] == old@pre(indexes[m]) && indexes[m].list == old@pre(indexes[m].list)
        ensures indexes[m] in old(Repr) && indexes[m].list in old(Repr)
        ensures InStep(indexes[m], storage)
      {
        assert old@pre(indexes[m] in Indexes() && indexes[m].list in Lists());
        assert old@pre(InStep(indexes[m], storage));
      }
      assert Indexes() <= Repr && Lists() <= Repr;
    }

    /** The filling loop of `addIndex` (LocalStore.js:468-474): every visible record that owns
        the field has its transformed value inserted, with its storage key as value. */
    method Fill(ind: SkipListIndex, name: string, draw: (string, string) -> Level)
      requires ind.Valid() && ind.list.Items() == []
      requires forall sk :: sk in storage && Visible(prefix, sk) && ind.field in storage[sk] ==> sk != "" && storage[sk][ind.field] != ""
      modifies ind.list
      ensures InStep(ind, storage)
    {
      var entries := StorageEach();
      ghost var part: map<string, Record> := map[];
      ExpectedNone(part, prefix, ind.field, ind.transform);
      var i := 0;
      while i < |entries|
        invariant i <= |entries| && InStep(ind, part)
        invariant forall k :: k in part ==> k in storage && part[k] == storage[k] && exists t :: 0 <= t < i && entries[t].0 == k
        invariant forall t :: 0 <= t < i ==> entries[t].0 in part
        modifies ind.list
      {
        var sk, rec := entries[i].0, entries[i].1;
        assert sk !in part;
        LinkInto(ind, part, sk, rec, draw(name, sk));
        part := part[sk := rec];
        i := i + 1;
      }
      ExpectedVisible(part, storage, prefix, ind.field, ind.transform);
    }

    /** `getRangeByIndex` (LocalStore.js:504-533): no records when there is no index of that
        name; otherwise the records under `keys`, which are the storage keys of the records
        that own the indexed field with a transformed value between the transformed bounds,
        each once, in the order of those values. */
    method GetRangeByIndex(name: string, a: string, b: string) returns (items: seq<Record>, ghost keys: seq<string>)
      requires Valid()
      ensures name !in indexes ==> items == []
      ensures |items| == |keys| && forall t :: 0 <= t < |keys| ==> keys[t] in storage && items[t] == storage[keys[t]]
      ensures name in indexes ==>
        RangeListing(storage, prefix, indexes[name].field, indexes[name].transform, indexes[name].cmp,
                     indexes[name].transform(a), indexes[name].transform(b), keys)
    {
      if name !in indexes {
        return [], [];
      }
      var ind := indexes[name];
      assert InStep(ind, storage);
      ListSorted(ind.list);
      var ks := ind.GetRange(a, b);
      SyncedRange(ind.cmp, ind.list.Items(), storage, prefix, ind.field, ind.transform, ind.transform(a), ind.transform(b), ks);
      keys := ks;
      items := Lookup(ks);
    }

    /** The loop of `getRangeByIndex` over the index's values: the record of each one that
        is a stored key. */
    method Lookup(keys: seq<string>) returns (items: seq<Record>)
      requires forall t :: 0 <= t < |keys| ==> keys[t] in storage
      ensures |items| == |keys| && forall t :: 0 <= t < |keys| ==> items[t] == storage[keys[t]]
    {
      items := [];
      var i := 0;
      while i < |keys|
        invariant i <= |keys| && |items| == i && forall t :: 0 <= t < i ==> items[t] == storage[keys[t]]
      {
        if keys[i] in storage {
          items := items + [storage[keys[i]]];
        }
        i := i + 1;
      }
    }

    /** `forEachByIndex` (LocalStore.js:619-639): the (storage key, record) pairs the action
        is called with; none when there is no index of that name, otherwise every record
        that owns the indexed field, each once, in the order of its transformed value. */
    method ForEachByIndex(name: string) returns (visited: seq<(string, Record)>)
      requires Valid()
      ensures name !in indexes ==> visited == []
      ensures forall t :: 0 <= t < |visited| ==> visited[t].0 in storage && visited[t].1 == storage[visited[t].0]
      ensures name in indexes ==>
        Listing(storage, prefix, indexes[name].field, indexes[name].transform, indexes[name].cmp, KeysOf(visited))
    {
      if name !in indexes {
        return [];
      }
      var ind := indexes[name];
      assert InStep(ind, storage);
      ListSorted(ind.list);
      var values := ind.ForEach();
      SyncedListing(ind.cmp, ind.list.Items(), storage, prefix, ind.field, ind.transform, values);
      visited := Fetch(values);
    }

    /** The loop of `forEachByIndex` over the index's values: each one that is a stored key,
        with its record. */
    method Fetch(values: seq<string>) returns (visited: seq<(string, Record)>)
      requires forall t :: 0 <= t < |values| ==> values[t] in storage
      ensures KeysOf(visited) == values
      ensures forall t :: 0 <= t < |visited| ==> visited[t].0 in storage && visited[t].1 == storage[visited[t].0]
    {
      visited := [];
      var i := 0;
      while i < |values|
        invariant i <= |values| && |visited| == i
        invariant forall t :: 0 <= t < i ==> visited[t] == (values[t], storage[values[t]])
      {
        if values[i] in storage {
          visited := visited + [(values[i], storage[values[i]])];
        }
        i := i + 1;
      }
      assert KeysOf(visited) == values;
    }

    /** The `sync` method (LocalStore.js:640-681) with the free `sync` it hands its actions
        to (LocalStore.js:34-89): the store's records and the incoming `items` are keyed by
        their `idField` value (`local` being the former), and the delete, update and create
        phases run one after the other. The summary is the one `SyncSummary` gives; the
        storage changes under the summary's keys only and, when ids are the key field, shows
        the summary. */
    method Sync(items: seq<Record>, idField: string, isUpdated: (Record, Record) -> bool,
                shouldDelete: Option<Record -> bool>, draw: (string, string) -> Level)
      returns (state: SyncState, ghost local: map<string, Record>)
      requires Valid() && WritesFilled(items, idField, isUpdated)
      modifies Repr
      ensures Valid() && Repr == old(Repr) && indexes == old(indexes)
      ensures LocalOf(old(storage), prefix, idField, local)
      ensures state == SyncSummary(local, ById(items, idField), isUpdated, PredicateOrTrue(shouldDelete))
      ensures AgreeOutside(old(storage), storage, SyncKeys(state))
      ensures idField == keyField ==> SyncApplied(storage, prefix, state)
    {
      var mine, incoming := Gather(items, idField);
      local := mine;
      forall id | id in incoming && (id !in mine || isUpdated(mine[id], incoming[id]))
        ensures Filled(incoming[id])
      {
        if id in mine {
          var sk :| sk in storage && Visible(prefix, sk) && storage[sk] == mine[id];
          assert isUpdated(storage[sk], incoming[id]);
        }
      }
      state := RunPhases(mine, incoming, idField, isUpdated, PredicateOrTrue(shouldDelete), draw);
    }

    /** The start of `sync` (LocalStore.js:650-654): the store's records and the incoming
        ones, each keyed by its `idField` value. */
    method Gather(items: seq<Record>, idField: string) returns (mine: map<string, Record>, incoming: map<string, Record>)
      ensures LocalOf(storage, prefix, idField, mine) && incoming == ById(items, idField)
      ensures forall id :: id in incoming ==> IdOf(incoming[id], idField) == id
    {
      var entries := StorageEach();
      mine := Collect(ValuesOf(entries), idField);
      CollectedLocal(storage, prefix, idField, entries, mine);
      incoming := Collect(items, idField);
      ByIdKeys(items, idField);
    }

    /** The three phases of `sync`, one after the other, on the partition of the ids. */
    method RunPhases(mine: map<string, Record>, incoming: map<string, Record>, idField: string,
                     isUpdated: (Record, Record) -> bool, shouldDelete: Record -> bool, draw: (string, string) -> Level)
      returns (state: SyncState)
      requires Valid()
      requires forall id :: id in incoming ==> IdOf(incoming[id], idField) == id
      requires forall id :: id in incoming && (id !in mine || isUpdated(mine[id], incoming[id])) ==> Filled(incoming[id])
      modifies Repr
      ensures Valid() && Repr == old(Repr) && indexes == old(indexes)
      ensures state == SyncSummary(mine, incoming, isUpdated, shouldDelete)
      ensures AgreeOutside(old(storage), storage, SyncKeys(state))
      ensures idField == keyField ==> SyncApplied(storage, prefix, state)
    {
      var parts := SyncPartition(mine.Keys, incoming.Keys);
      var deleted := DeletePhase(parts.0, mine, shouldDelete);
      ghost var st1 := storage;
      var keepUpdated: string -> bool := id => id in mine && id in incoming && isUpdated(mine[id], incoming[id]);
      var keepCreated: string -> bool := _ => true;
      var updated := WritePhase(parts.1, incoming, idField, keepUpdated, draw);
      ghost var st2 := storage;
      var created := WritePhase(parts.2, incoming, idField, keepCreated, draw);
      state := SyncState(created, updated, deleted);
      PhasesSummary(mine, incoming, isUpdated, shouldDelete, keepUpdated, keepCreated, deleted, updated, created);
      AgreeOutsideTrans(old(storage), st1, st2, KeysFor(prefix, deleted.Keys), StoredKeys(prefix, keyField, updated));
      AgreeOutsideTrans(old(storage), st2, storage, KeysFor(prefix, deleted.Keys) + StoredKeys(prefix, keyField, updated),
                        StoredKeys(prefix, keyField, created));
      if idField == keyField {
        PhasesApplied(st1, st2, storage, prefix, keyField, state);
      }
    }

    /** The storage keys a summary names: those of the deleted ids and those `addOrUpdate`
        writes the updated and created records under. */
    ghost function SyncKeys(state: SyncState): set<string> {
      SummaryKeys(prefix, keyField, state)
    }

    /** `_.each(items, ...)` building an object by id (LocalStore.js:653-654, likewise the
        `forEach` of LocalStore.js:651): a later record replaces an earlier one with the same
        id. */
    static method Collect(records: seq<Record>, idField: string) returns (m: map<string, Record>)
      ensures m == ById(records, idField)
    {
      m := map[];
      var i := 0;
      while i < |records|
        invariant i <= |records| && m == ById(records[..i], idField)
      {
        m := m[IdOf(records[i], idField) := records[i]];
        assert records[..i + 1][..i] == records[..i];
        i := i + 1;
      }
      assert records[..|records|] == records;
    }

    /** The delete phase (LocalStore.js:43-53 with the delete action of 664-671): each id of
        `ids` whose local record `shouldDelete` accepts is recorded and removed with
        `removeByKey`; the storage loses those ids' keys and nothing else. */
    method DeletePhase(ids: set<string>, local: map<string, Record>, shouldDelete: Record -> bool)
      returns (deleted: map<string, Record>)
      requires Valid() && ids <= local.Keys
      modifies Repr
      ensures Valid() && Repr == old(Repr) && indexes == old(indexes)
      ensures deleted == map id | id in ids && shouldDelete(local[id]) :: local[id]
      ensures AgreeOutside(old(storage), storage, KeysFor(prefix, deleted.Keys))
      ensures forall id :: id in deleted ==> GenerateKey(prefix, id) !in storage
    {
      deleted := map[];
      var rest := ids;
      while rest != {}
        invariant rest <= ids && Valid() && Repr == old(Repr) && indexes == old(indexes)
        invariant forall id :: id in deleted <==> id in ids - rest && shouldDelete(local[id])
        invariant forall id :: id in deleted ==> deleted[id] == local[id]
        invariant AgreeOutside(old(storage), storage, KeysFor(prefix, deleted.Keys))
        invariant forall id :: id in deleted ==> GenerateKey(prefix, id) !in storage
        decreases rest
      {
        var id :| id in rest;
        var item := local[id];
        if shouldDelete(item) {
          ghost var st := storage;
          RemoveByKey(id);
          DeletedOneMore(old(storage), st, storage, prefix, deleted.Keys, id);
          deleted := deleted[id := item];
        }
        rest := rest - {id};
      }
    }

    /** The update and create phases (LocalStore.js:54-85 with the actions of 656-662): each
        id of `ids` that `keep` accepts has its incoming record recorded and stored with
        `addOrUpdate`; the storage changes under those records' keys only and, when ids are
        the key field, holds each of them under its id's key. */
    method WritePhase(ids: set<string>, incoming: map<string, Record>, idField: string, keep: string -> bool,
                      draw: (string, string) -> Level)
      returns (written: map<string, Record>)
      requires Valid() && ids <= incoming.Keys
      requires forall id :: id in incoming ==> IdOf(incoming[id], idField) == id
      requires forall id :: id in ids && keep(id) ==> Filled(incoming[id])
      modifies Repr
      ensures Valid() && Repr == old(Repr) && indexes == old(indexes)
      ensures written == map id | id in ids && keep(id) :: incoming[id]
      ensures AgreeOutside(old(storage), storage, StoredKeys(prefix, keyField, written))
      ensures idField == keyField ==> forall id :: id in written ==>
        GenerateKey(prefix, id) in storage && storage[GenerateKey(prefix, id)] == written[id]
    {
      written := map[];
      var rest := ids;
      while rest != {}
        invariant rest <= ids && Valid() && Repr == old(Repr) && indexes == old(indexes)
        invariant forall id :: id in ids && keep(id) ==> Filled(incoming[id])
        invariant forall id :: id in written <==> id in ids - rest && keep(id)
        invariant forall id :: id in written ==> written[id] == incoming[id]
        invariant AgreeOutside(old(storage), storage, StoredKeys(prefix, keyField, written))
        invariant idField == keyField ==> forall id :: id in written ==>
          GenerateKey(prefix, id) in storage && storage[GenerateKey(prefix, id)] == written[id]
        decreases rest
      {
        var id :| id in rest;
        if keep(id) {
          var item := incoming[id];
          ghost var st := storage;
          AddOrUpdate(Some(item), draw);
          WrittenOneMore(old(storage), st, storage, prefix, keyField, written, id, item);
          if idField == keyField {
            WrittenKeyed(st, storage, prefix, written, id, item);
          }
          written := written[id := item];
        }
        rest := rest - {id};
      }
    }

    /** `removeIndex` (LocalStore.js:476-482). */
    method RemoveIndex(name: string)
      requires Valid()
      modifies this
      ensures Valid() && storage == old(storage) && Repr == old(Repr)
      ensures indexes == old(indexes) - {name}
    {
      indexes := indexes - {name};
    }
  }
}

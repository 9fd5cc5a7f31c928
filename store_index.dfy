/** `SkipListLocalStoreIndex` (LocalStore.js:190-255): an index over one field of the
    stored records, a skip list from the transformed field value to the storage key. */
module StoreIndexes {
  import opened Common
  import opened SortedSeqs
  import opened SkipLevels
  import opened SkipLists
  import opened StoreBasics

  /** A level `randomLevel` can draw. */
  type Level = l: nat | l <= MaxLevel

  /** The transform used when none is given: the value itself. */
  function Identity(s: string): (r: string)
    ensures r == s
  {
    s
  }

  /** A skip list's pairs come out in key order. */
  lemma ListSorted<K(!new), V>(list: SkipList<K, V>)
    requires list.Valid()
    ensures forall i, j :: 0 <= i < j < |list.Items()| ==> list.cmp(list.Items()[j].0, list.Items()[i].0) >= 0
  {
    var s := list.Items();
    KeysOfItems(list.nodes, list.elems);
    assert Sorted(LtOf(list.cmp), KeysOf(s));
    forall i, j | 0 <= i < j < |s| ensures list.cmp(s[j].0, s[i].0) >= 0 {
      assert !LtOf(list.cmp)(KeysOf(s)[j], KeysOf(s)[i]);
    }
  }

  /** No pair has an empty value. */
  ghost predicate NoEmptyValue(s: seq<(string, string)>) {
    forall j :: 0 <= j < |s| ==> s[j].1 != ""
  }

  lemma InsertNoEmptyValue(s: seq<(string, string)>, c: nat, x: (string, string))
    requires c <= |s| && NoEmptyValue(s) && x.1 != ""
    ensures NoEmptyValue(s[..c] + [x] + s[c..])
    ensures multiset(s[..c] + [x] + s[c..]) == multiset(s) + multiset{x}
  {
    assert s == s[..c] + s[c..];
    var r := s[..c] + [x] + s[c..];
    forall j | 0 <= j < |r| ensures r[j].1 != "" {
      if j < c {
        assert r[j] == s[j];
      } else if j > c {
        assert r[j] == s[j - 1];
      }
    }
  }

  lemma RemoveNoEmptyValue(s: seq<(string, string)>, m: nat)
    requires m < |s| && NoEmptyValue(s)
    ensures NoEmptyValue(s[..m] + s[m + 1..])
  {
    var r := s[..m] + s[m + 1..];
    forall j | 0 <= j < |r| ensures r[j].1 != "" {
      if j < m {
        assert r[j] == s[j];
      } else {
        assert r[j] == s[j + 1];
      }
    }
  }

  class SkipListIndex {
    /** `indexedField`: the name of the field the index is on. */
    const field: string
    const transform: string -> string
    /** The comparison the skip list orders the transformed values by. */
    const cmp: (string, string) -> int
    /** `index`: the transformed field value of each entry, with the storage key as value. */
    var list: SkipList<string, string>

    /** The list is a valid skip list over `cmp`, and no entry has an empty storage key
        (`insert` refuses one). */
    ghost predicate Valid()
      reads this, list
    {
      && list.Valid() && list.cmp == cmp && Comparator(cmp)
      && NoEmptyValue(list.Items())
    }

    /** The constructor (LocalStore.js:190-205): the transform defaults to the identity and
        the comparison to the skip list's default one. */
    constructor(field: string, transform: Option<string -> string>, cmp: Option<(string, string) -> int>)
      requires cmp.Some? ==> Comparator(cmp.value)
      ensures Valid() && fresh(list) && list.Items() == []
      ensures this.field == field
      ensures this.transform == if transform.Some? then transform.value else Identity
      ensures this.cmp == if cmp.Some? then cmp.value else StringCompare
    {
      this.field := field;
      var t: string -> string := if transform.Some? then transform.value else Identity;
      this.transform := t;
      StringCompareIsComparator();
      var c: (string, string) -> int := if cmp.Some? then cmp.value else StringCompare;
      this.cmp := c;
      list := new SkipList(c);
    }

    /** `insert` (LocalStore.js:207-214): refuses an empty key or value; otherwise the
        pair (transformed key, value) joins the list before the entries whose keys are not
        less, `lvl` being the level `randomLevel` drew. */
    method Insert(key: string, value: string, lvl: Level) returns (r: Result<()>)
      requires Valid()
      modifies list
      ensures Valid()
      ensures r.Err? <==> key == "" || value == ""
      ensures r.Err? ==> list.Items() == old(list.Items())
      ensures r.Ok? ==>
        var s, c := old(list.Items()), LowerIdx(LtOf(cmp), KeysOf(old(list.Items())), transform(key));
        && c <= |s| && list.Items() == s[..c] + [(transform(key), value)] + s[c..]
        && multiset(list.Items()) == multiset(s) + multiset{(transform(key), value)}
    {
      if key == "" || value == "" {
        return Err("insert expects key and value");
      }
      ghost var s := list.Items();
      var n := list.Add(transform(key), value, lvl);
      InsertNoEmptyValue(s, LowerIdx(LtOf(cmp), KeysOf(s), transform(key)), (transform(key), value));
      r := Ok(());
    }

    /** `remove` (LocalStore.js:216-223): refuses an empty key; otherwise the first entry
        whose key compares equal to the transformed key and whose value `pred` accepts leaves
        the list, and nothing changes if there is none. */
    method Remove(key: string, pred: Option<string -> bool>) returns (r: Result<()>)
      requires Valid()
      modifies list
      ensures Valid()
      ensures r.Err? <==> key == ""
      ensures var s, m := old(list.Items()), FirstKeyMatch(cmp, old(list.Items()), transform(key), PredicateOrTrue(pred));
        && (r.Err? || m.None? ==> list.Items() == s)
        && (r.Ok? && m.Some? ==> m.value < |s| && list.Items() == s[..m.value] + s[m.value + 1..])
    {
      if key == "" {
        return Err("remove expects key");
      }
      ghost var s := list.Items();
      list.Remove(transform(key), pred);
      ghost var m := FirstKeyMatch(cmp, s, transform(key), PredicateOrTrue(pred));
      if m.Some? {
        RemoveNoEmptyValue(s, m.value);
      }
      r := Ok(());
    }

    /** `find` (LocalStore.js:225-228): the value of the first entry whose key compares
        equal to the transformed key, `None` if there is none. */
    method Find(key: string) returns (r: Option<string>)
      requires Valid()
      ensures r.None? <==> forall j :: 0 <= j < |list.Items()| ==> cmp(list.Items()[j].0, transform(key)) != 0
      ensures r.Some? ==> exists j :: FirstWithKey(cmp, list.Items(), transform(key), j) && list.Items()[j].1 == r.value
    {
      r := list.GetFirst(transform(key));
    }

    /** `getRange` (LocalStore.js:230-237): the values of the entries whose keys lie between
        the transformed bounds, both included, in list order. */
    method GetRange(a: string, b: string) returns (keys: seq<string>)
      requires Valid()
      ensures keys == InRange(cmp, list.Items(), transform(a), transform(b))
    {
      keys := list.GetRange(transform(a), transform(b));
    }

    /** `forEach` (LocalStore.js:239-247): the values the action is called with, skipping
        empty ones; since the list holds none, that is every value in list order. */
    method ForEach() returns (visited: seq<string>)
      requires Valid()
      ensures visited == ValuesOf(list.Items())
    {
      var values := list.ForEach();
      visited := [];
      var i := 0;
      while i < |values|
        invariant i <= |values| && visited == values[..i]
      {
        if values[i] != "" {
          visited := visited + [values[i]];
        }
        assert values[..i + 1] == values[..i] + [values[i]];
        i := i + 1;
      }
    }

    /** `clear` (LocalStore.js:249-254): a fresh, empty skip list. */
    method Clear()
      requires Valid()
      modifies this
      ensures Valid() && fresh(list) && list.Items() == []
    {
      list := new SkipList(cmp);
    }
  }
}

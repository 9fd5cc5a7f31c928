/** Small shared vocabulary: optional values, results of operations that may throw,
    and the ordering contracts that the engines are parameterised by. */
module Common {

  /** A value that may be absent (`null`/`undefined` in the modelled program). */
  datatype Option<+T> = None | Some(value: T)

  /** The outcome of an operation that either returns a value or throws an error message. */
  datatype Result<+T> = Ok(value: T) | Err(msg: string)

  /** The contract a less-than relation must meet: irreflexive, transitive, and with
      incomparability transitive (negative transitivity), i.e. a strict weak order. */
  ghost predicate StrictWeakOrder<T(!new)>(lt: (T, T) -> bool) {
    && (forall a :: !lt(a, a))
    && (forall a, b, c :: lt(a, b) && lt(b, c) ==> lt(a, c))
    && (forall a, b, c :: lt(a, c) ==> lt(a, b) || lt(b, c))
  }

  /** `s` is in non-decreasing order under `lt`: no later element is less than an earlier one. */
  ghost predicate Sorted<T>(lt: (T, T) -> bool, s: seq<T>) {
    forall i, j :: 0 <= i < j < |s| ==> !lt(s[j], s[i])
  }

  /** The contract of a three-way comparison returning a negative number, zero or a positive
      number: its sign flips when the arguments are swapped, and "negative" is a strict weak order. */
  ghost predicate Comparator<K(!new)>(cmp: (K, K) -> int) {
    && (forall a, b :: cmp(a, b) < 0 <==> cmp(b, a) > 0)
    && (forall a, b, c :: cmp(a, b) < 0 && cmp(b, c) < 0 ==> cmp(a, c) < 0)
    && (forall a, b, c :: cmp(a, c) < 0 ==> cmp(a, b) < 0 || cmp(b, c) < 0)
  }

  /** The strict less-than relation a three-way comparison stands for. */
  function LtOf<K>(cmp: (K, K) -> int): (K, K) -> bool {
    (a, b) => cmp(a, b) < 0
  }

  lemma ComparatorIsStrictWeakOrder<K(!new)>(cmp: (K, K) -> int)
    requires Comparator(cmp)
    ensures StrictWeakOrder(LtOf(cmp))
    ensures forall a, b :: cmp(a, b) == 0 <==> !LtOf(cmp)(a, b) && !LtOf(cmp)(b, a)
  {
  }

  /** The predicate a `remove` tests: the one given, or `true` for every value when none is
      given (avltree.js:151, SkipList.js:228). */
  function PredicateOrTrue<T>(pred: Option<T -> bool>): T -> bool {
    if pred.Some? then pred.value else (_: T) => true
  }

  function Max(a: int, b: int): int {
    if a < b then b else a
  }
}

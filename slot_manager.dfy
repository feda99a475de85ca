/**
  Shared vocabulary of the ordered slot manager of a B-tree page: the search
  modes and no-exact-match policies a caller passes to the bounded find, the
  two sentinel results, the stand-in for the key comparator, and the order
  predicates that page contents satisfy.

  A page's tuples are seen through their keys: `keys[i]` is the key of the
  tuple at logical slot `i`, which is what the tuple cursor reads after
  being reset to index `i`.
 */
module SlotManager {

  /** How an equal key found during a bounded find is treated. */
  datatype FindTupleMode =
    | Inclusive               // return an equal key as the hit
    | Exclusive               // skip past equal keys, in the direction of the policy
    | ExclusiveErrorIfExists  // an equal key is an error (uniqueness probe)
    | Exact                   // only an equal key is an answer

  /** Which neighbour a bounded find reports when it returns no equal key. */
  datatype FindTupleNoExactMatchPolicy = HigherKey | LowerKey

  /** "The search key sorts after every key on the page." */
  const GREATEST_KEY_INDICATOR: int := -1
  /** "The exact-match semantics of the mode could not be met." */
  const ERROR_INDICATOR: int := -2

  /** The comparator: negative, zero or positive as the search key is below, equal to or above the tuple's key. */
  function Compare(searchKey: int, tupleKey: int): (cmp: int)
    ensures cmp < 0 <==> searchKey < tupleKey
    ensures cmp > 0 <==> searchKey > tupleKey
  {
    if searchKey < tupleKey then -1 else if searchKey > tupleKey then 1 else 0
  }

  /** Keys in non-decreasing order. */
  ghost predicate Sorted(keys: seq<int>) {
    forall i, j :: 0 <= i <= j < |keys| ==> keys[i] <= keys[j]
  }

  /** Keys in strictly ascending order: the page invariant when keys are unique. */
  ghost predicate StrictlySorted(keys: seq<int>) {
    forall i, j :: 0 <= i < j < |keys| ==> keys[i] < keys[j]
  }

  /** `s` with `x` placed at position `k`; what was at `k` and after moves up by one. */
  function InsertAt<T>(s: seq<T>, k: nat, x: T): (r: seq<T>)
    requires k <= |s|
    ensures |r| == |s| + 1 && r[k] == x
    ensures forall i :: 0 <= i < k ==> r[i] == s[i]
    ensures forall i :: k < i < |r| ==> r[i] == s[i - 1]
  {
    s[..k] + [x] + s[k..]
  }

  /** The logical position a find result designates for an insertion among `tupleCount` tuples. */
  function InsertPosition(tupleIndex: int, tupleCount: nat): (r: int) {
    if tupleIndex == GREATEST_KEY_INDICATOR then tupleCount else tupleIndex
  }
}

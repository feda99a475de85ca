/**
  The bounded find of the ordered slot manager: a binary search over all
  tuples of a page, with a fast path for a key above the last tuple, whose
  treatment of an equal key depends on the find mode and whose answer on a
  miss depends on the no-exact-match policy.
 */
module BoundedFind {
  import opened SlotManager

  ghost predicate Present(keys: seq<int>, key: int) {
    exists i :: 0 <= i < |keys| && keys[i] == key
  }

  ghost predicate IsMatch(keys: seq<int>, key: int, r: int) {
    0 <= r < |keys| && keys[r] == key
  }

  /** `r` is the smallest index whose key is strictly greater than `key`. */
  ghost predicate IsFirstGreater(keys: seq<int>, key: int, r: int) {
    0 <= r < |keys| && key < keys[r] && forall i :: 0 <= i < r ==> keys[i] <= key
  }

  ghost predicate NoneGreater(keys: seq<int>, key: int) {
    forall i :: 0 <= i < |keys| ==> keys[i] <= key
  }

  /** `r` is the largest index whose key is strictly less than `key`. */
  ghost predicate IsLastLess(keys: seq<int>, key: int, r: int) {
    0 <= r < |keys| && keys[r] < key && forall i :: r < i < |keys| ==> key <= keys[i]
  }

  ghost predicate NoneLess(keys: seq<int>, key: int) {
    forall i :: 0 <= i < |keys| ==> key <= keys[i]
  }

  /** The answer when no equal key is returned: the strict neighbour the policy asks for, or the greatest-key indicator. */
  ghost predicate NoMatchOutcome(keys: seq<int>, key: int, policy: FindTupleNoExactMatchPolicy, r: int) {
    match policy
    case HigherKey => IsFirstGreater(keys, key, r) || (NoneGreater(keys, key) && r == GREATEST_KEY_INDICATOR)
    case LowerKey => IsLastLess(keys, key, r) || (NoneLess(keys, key) && r == GREATEST_KEY_INDICATOR)
  }

  /** What the bounded find answers on a sorted page, for every mode and policy. */
  ghost predicate BoundedOutcome(keys: seq<int>, key: int, mode: FindTupleMode,
                                 policy: FindTupleNoExactMatchPolicy, r: int) {
    if |keys| == 0 then r == GREATEST_KEY_INDICATOR
    else match mode
      case Exact =>
        if Present(keys, key) then IsMatch(keys, key, r) else r == ERROR_INDICATOR
      case ExclusiveErrorIfExists =>
        if Present(keys, key) then r == ERROR_INDICATOR else NoMatchOutcome(keys, key, policy, r)
      case Exclusive =>
        NoMatchOutcome(keys, key, policy, r)
      case Inclusive =>
        if Present(keys, key) then IsMatch(keys, key, r) else NoMatchOutcome(keys, key, policy, r)
  }

  /** A tuple whose key makes the search continue to its right (it lies left of the answer). */
  ghost predicate GoesLeft(tupleKey: int, key: int, mode: FindTupleMode, policy: FindTupleNoExactMatchPolicy) {
    tupleKey < key || (tupleKey == key && mode == Exclusive && policy == HigherKey)
  }

  /** A tuple whose key makes the search continue to its left (it lies right of the answer). */
  ghost predicate GoesRight(tupleKey: int, key: int, mode: FindTupleMode, policy: FindTupleNoExactMatchPolicy) {
    key < tupleKey || (tupleKey == key && mode == Exclusive && policy == LowerKey)
  }

  /**
    The bounded find. Every probe `keys[...]` is a checked index, so each
    probed tuple lies in [0, tupleCount). The result is a valid index or one
    of the two sentinels on any page, and on a sorted page it is the answer
    `BoundedOutcome` describes, which does not depend on whether the
    last-tuple fast path was taken.
   */
  method FindTupleIndex(keys: seq<int>, searchKey: int, mode: FindTupleMode,
                        matchPolicy: FindTupleNoExactMatchPolicy) returns (r: int)
    ensures r == GREATEST_KEY_INDICATOR || r == ERROR_INDICATOR || 0 <= r < |keys|
    ensures |keys| == 0 ==> r == GREATEST_KEY_INDICATOR
    ensures r == ERROR_INDICATOR ==> mode == Exact || mode == ExclusiveErrorIfExists
    ensures mode == Exact && 0 <= r ==> keys[r] == searchKey
    ensures Sorted(keys) ==> BoundedOutcome(keys, searchKey, mode, matchPolicy, r)
  {
    var tupleCount := |keys|;
    if tupleCount <= 0 {
      return GREATEST_KEY_INDICATOR;
    }

    var begin: int;
    var end := tupleCount - 1;

    var cmp := Compare(searchKey, keys[end]);
    if cmp > 0 {
      // the key is above every key on the page: nothing is left to search
      begin := tupleCount;
    } else {
      begin := 0;
    }

    while begin <= end
      invariant 0 <= begin <= tupleCount && -1 <= end < tupleCount && begin <= end + 1
      invariant Sorted(keys) ==> forall i :: 0 <= i < begin ==> GoesLeft(keys[i], searchKey, mode, matchPolicy)
      invariant Sorted(keys) ==> forall i :: end < i < tupleCount ==> GoesRight(keys[i], searchKey, mode, matchPolicy)
    {
      var mid := (begin + end) / 2;
      cmp := Compare(searchKey, keys[mid]);
      if cmp < 0 {
        end := mid - 1;
      } else if cmp > 0 {
        begin := mid + 1;
      } else {
        if mode == Exclusive {
          if matchPolicy == HigherKey {
            begin := mid + 1;
          } else {
            end := mid - 1;
          }
        } else {
          if mode == ExclusiveErrorIfExists {
            return ERROR_INDICATOR;
          } else {
            return mid;
          }
        }
      }
    }

    if mode == Exact {
      return ERROR_INDICATOR;
    }

    if matchPolicy == HigherKey {
      if begin > tupleCount - 1 {
        return GREATEST_KEY_INDICATOR;
      }
      if Compare(searchKey, keys[begin]) < 0 {
        return begin;
      } else {
        return GREATEST_KEY_INDICATOR;
      }
    } else {
      if end < 0 {
        return GREATEST_KEY_INDICATOR;
      }
      if Compare(searchKey, keys[end]) > 0 {
        return end;
      } else {
        return GREATEST_KEY_INDICATOR;
      }
    }
  }

  /** On a page of unique keys the bounded find has exactly one possible answer. */
  lemma BoundedOutcomeUnique(keys: seq<int>, key: int, mode: FindTupleMode,
                             policy: FindTupleNoExactMatchPolicy, r1: int, r2: int)
    requires StrictlySorted(keys)
    requires BoundedOutcome(keys, key, mode, policy, r1)
    requires BoundedOutcome(keys, key, mode, policy, r2)
    ensures r1 == r2
  {
  }

  /**
    The last-tuple fast path is sound: on a sorted page whose last key is
    below the search key, the answer `BoundedOutcome` allows, which a
    search from index 0 also reaches, is exactly what the search started at
    `begin = tupleCount` returns.
   */
  lemma FastPathAgreesWithFullSearch(keys: seq<int>, key: int, mode: FindTupleMode,
                                     policy: FindTupleNoExactMatchPolicy, r: int)
    requires Sorted(keys) && 0 < |keys| && keys[|keys| - 1] < key
    ensures BoundedOutcome(keys, key, mode, policy, r) <==>
            r == (if mode == Exact then ERROR_INDICATOR
                  else if policy == HigherKey then GREATEST_KEY_INDICATOR
                  else |keys| - 1)
  {
  }

  /** The edge cases of the bounded find on the page 10, 20, 30. */
  method BoundedFindExamples() returns (exactHit: int, exactMiss: int, duplicate: int, aboveAll: int,
                                        belowAll: int, higherMiss: int, lowerMiss: int)
    ensures exactHit == 1 && exactMiss == ERROR_INDICATOR && duplicate == ERROR_INDICATOR
    ensures aboveAll == GREATEST_KEY_INDICATOR && belowAll == GREATEST_KEY_INDICATOR
    ensures higherMiss == 2 && lowerMiss == 1
  {
    var page := [10, 20, 30];
    assert StrictlySorted(page) && Sorted(page);
    exactHit := FindTupleIndex(page, 20, Exact, HigherKey);
    assert page[1] == 20;
    BoundedOutcomeUnique(page, 20, Exact, HigherKey, exactHit, 1);
    exactMiss := FindTupleIndex(page, 25, Exact, HigherKey);
    assert !Present(page, 25);
    duplicate := FindTupleIndex(page, 30, ExclusiveErrorIfExists, HigherKey);
    aboveAll := FindTupleIndex(page, 30, Exclusive, HigherKey);
    belowAll := FindTupleIndex(page, 10, Exclusive, LowerKey);
    higherMiss := FindTupleIndex(page, 25, Inclusive, HigherKey);
    BoundedOutcomeUnique(page, 25, Inclusive, HigherKey, higherMiss, 2);
    lowerMiss := FindTupleIndex(page, 25, Inclusive, LowerKey);
    BoundedOutcomeUnique(page, 25, Inclusive, LowerKey, lowerMiss, 1);
  }
}

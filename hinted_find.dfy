/**
  The hinted find of the ordered slot manager: an exponential search forward
  from a caller's start index, doubling the step while the probed key is
  below the search key, followed by a binary search strictly inside the
  bracket it found. The answer follows the signed insertion-point convention
  of `java.util.Collections.binarySearch`: an index whose key equals the
  search key, or `-(k) - 1` where `k` is the position the key would take.
 */
module HintedFind {
  import opened SlotManager

  /** `r` encodes, as `-(k) - 1`, the insertion point `k` of `key` among the tuples from `start` on. */
  ghost predicate IsInsertionPoint(keys: seq<int>, key: int, start: nat, r: int) {
    r < 0 &&
    var k := -r - 1;
    start <= k <= |keys| &&
    (forall i :: start <= i < k ==> keys[i] < key) &&
    (k < |keys| ==> key < keys[k])
  }

  /** What the hinted find answers on a sorted page when the hint is a valid index. */
  ghost predicate HintedOutcome(keys: seq<int>, key: int, start: nat, r: int) {
    (start <= r < |keys| && keys[r] == key) || IsInsertionPoint(keys, key, start, r)
  }

  /**
    The hinted find. The exponential loop terminates because `index`
    strictly increases and stays below `tupleCount`; every probe is a
    checked index. A non-negative result is always an equal key at or after
    the hint, and on a sorted page the result is the answer `HintedOutcome`
    describes.
   */
  method FindTupleIndex(keys: seq<int>, searchKey: int, startIndex: int) returns (r: int)
    requires |keys| > 0 ==> 0 <= startIndex
    ensures |keys| == 0 ==> r == -1
    ensures startIndex >= |keys| ==> r == -|keys| - 1
    ensures -|keys| - 1 <= r < |keys|
    ensures 0 <= r ==> startIndex <= r && keys[r] == searchKey
    ensures 0 <= startIndex < |keys| && Sorted(keys) ==> HintedOutcome(keys, searchKey, startIndex, r)
  {
    var tupleCount := |keys|;
    if tupleCount == 0 {
      return -1;
    } else if startIndex >= tupleCount {
      return -tupleCount - 1;
    }

    var step := 1;
    var index := startIndex;
    var prevIndex := index;

    while index < tupleCount
      invariant startIndex <= prevIndex <= index < tupleCount && 1 <= step
      invariant index == startIndex || (prevIndex < index && keys[prevIndex] < searchKey)
      decreases tupleCount - index
    {
      var cmp := Compare(searchKey, keys[index]);
      if cmp == 0 {
        return index;
      } else if cmp > 0 {
        prevIndex := index;
        if index + step < tupleCount {
          index := index + step;
          step := step * 2;
        } else {
          if index == tupleCount - 1 {
            // the last tuple is still below the key
            return -tupleCount - 1;
          } else {
            index := tupleCount - 1;
          }
        }
      } else {
        break;
      }
    }
    // here keys[index] is above the search key

    if index == startIndex {
      return -index - 1;
    }

    // binary search strictly between prevIndex and index
    var low := prevIndex + 1;
    var high := index - 1;

    while low <= high
      invariant prevIndex + 1 <= low <= high + 1 <= index
      invariant Sorted(keys) ==> forall i :: startIndex <= i < low ==> keys[i] < searchKey
      invariant Sorted(keys) ==> forall i :: high < i <= index ==> searchKey < keys[i]
    {
      var mid := (low + high) / 2;
      var cmp := Compare(searchKey, keys[mid]);
      if cmp < 0 {
        high := mid - 1;
      } else if cmp > 0 {
        low := mid + 1;
      } else {
        return mid;
      }
    }
    return -low - 1;
  }

  /** On a page of unique keys the hinted find has exactly one possible answer. */
  lemma HintedOutcomeUnique(keys: seq<int>, key: int, start: nat, r1: int, r2: int)
    requires StrictlySorted(keys)
    requires HintedOutcome(keys, key, start, r1)
    requires HintedOutcome(keys, key, start, r2)
    ensures r1 == r2
  {
  }

  /** The page 10, 20, 30, 40, 50 searched from hint 0. */
  method HintedFindExamples() returns (found: int, between: int, aboveAll: int)
    ensures found == 2 && between == -3 && aboveAll == -6
  {
    var page := [10, 20, 30, 40, 50];
    assert StrictlySorted(page) && Sorted(page);
    found := FindTupleIndex(page, 30, 0);
    assert page[2] == 30;
    HintedOutcomeUnique(page, 30, 0, found, 2);
    between := FindTupleIndex(page, 25, 0);
    HintedOutcomeUnique(page, 25, 0, between, -3);
    aboveAll := FindTupleIndex(page, 60, 0);
    HintedOutcomeUnique(page, 60, 0, aboveAll, -6);
  }
}

/**
  How the find operations and slot insertion fit together: a uniqueness
  probe followed by a slot insertion at the position it returns keeps the
  page's keys strictly ascending, and the hinted find from the first slot
  agrees with the bounded find.
 */
module PageOrder {
  import opened SlotManager
  import BoundedFind
  import HintedFind
  import opened SlotDirectory

  /** The keys of a page, read through its slot offsets; `keyOf` stands for decoding the tuple at an offset. */
  function PageKeys(slots: seq<int32>, keyOf: int32 -> int): (keys: seq<int>)
    ensures |keys| == |slots|
    ensures forall i :: 0 <= i < |slots| ==> keys[i] == keyOf(slots[i])
  {
    seq(|slots|, i requires 0 <= i < |slots| => keyOf(slots[i]))
  }

  /** Inserting a slot inserts its tuple's key at the same logical position. */
  lemma PageKeysInsertAt(slots: seq<int32>, keyOf: int32 -> int, k: nat, tupleOff: int32)
    requires k <= |slots|
    ensures PageKeys(InsertAt(slots, k, tupleOff), keyOf) == InsertAt(PageKeys(slots, keyOf), k, keyOf(tupleOff))
  {
  }

  /**
    A uniqueness probe (`ExclusiveErrorIfExists` with `HigherKey`) that does
    not report an error designates a position at which the key can be
    inserted without breaking strict ascending order.
   */
  lemma ProbeThenInsertKeepsOrder(keys: seq<int>, key: int, r: int)
    requires StrictlySorted(keys)
    requires BoundedFind.BoundedOutcome(keys, key, ExclusiveErrorIfExists, HigherKey, r)
    requires r != ERROR_INDICATOR
    ensures 0 <= InsertPosition(r, |keys|) <= |keys|
    ensures key !in keys
    ensures StrictlySorted(InsertAt(keys, InsertPosition(r, |keys|), key))
  {
  }

  /**
    The same, on the page itself: probing for a tuple's key, inserting its
    slot at the returned position and counting one more tuple leaves the
    page's keys strictly ascending.
   */
  lemma ProbeThenInsertSlotKeepsOrder(s: seq<byte>, n: nat, keyOf: int32 -> int, tupleOff: int32, r: int)
    requires n * SLOT_SIZE + SLOT_SIZE <= |s|
    requires StrictlySorted(PageKeys(SlotValues(s, n), keyOf))
    requires BoundedFind.BoundedOutcome(PageKeys(SlotValues(s, n), keyOf), keyOf(tupleOff),
                                        ExclusiveErrorIfExists, HigherKey, r)
    requires r != ERROR_INDICATOR
    ensures 0 <= InsertPosition(r, n) <= n
    ensures StrictlySorted(PageKeys(SlotValues(InsertSlotBytes(s, n, InsertPosition(r, n), tupleOff), n + 1), keyOf))
  {
    var keys := PageKeys(SlotValues(s, n), keyOf);
    ProbeThenInsertKeepsOrder(keys, keyOf(tupleOff), r);
    var k := InsertPosition(r, n);
    InsertSlotBytesSlots(s, n, k, tupleOff);
    PageKeysInsertAt(SlotValues(s, n), keyOf, k, tupleOff);
  }

  /**
    Inserts keys one by one into an empty page as a B-tree leaf does: a
    uniqueness probe, then an insertion at the designated position, skipping
    keys already present. The page ends strictly ascending and holds exactly
    the given keys.
   */
  method InsertKeys(ks: seq<int>) returns (page: seq<int>)
    ensures StrictlySorted(page)
    ensures forall x :: x in page <==> x in ks
  {
    page := [];
    var i := 0;
    while i < |ks|
      invariant 0 <= i <= |ks|
      invariant StrictlySorted(page)
      invariant forall x :: x in page <==> x in ks[..i]
    {
      assert Sorted(page);
      var r := BoundedFind.FindTupleIndex(page, ks[i], ExclusiveErrorIfExists, HigherKey);
      if r != ERROR_INDICATOR {
        ProbeThenInsertKeepsOrder(page, ks[i], r);
        page := InsertAt(page, InsertPosition(r, |page|), ks[i]);
      } else {
        assert ks[i] in page;
      }
      assert ks[..i + 1] == ks[..i] + [ks[i]];
      i := i + 1;
    }
    assert ks[..i] == ks;
  }

  /**
    On a page of unique keys the hinted find from slot 0 gives the answer of
    the inclusive, higher-key bounded find: the same index when the key is
    present, the same insertion point when it is not, where insertion after
    every tuple is the greatest-key indicator.
   */
  lemma HintedFromStartAgreesWithBounded(keys: seq<int>, key: int, rh: int, rb: int)
    requires StrictlySorted(keys)
    requires 0 < |keys|
    requires HintedFind.HintedOutcome(keys, key, 0, rh)
    requires BoundedFind.BoundedOutcome(keys, key, Inclusive, HigherKey, rb)
    ensures rb == (if 0 <= rh then rh else if -rh - 1 < |keys| then -rh - 1 else GREATEST_KEY_INDICATOR)
  {
  }
}

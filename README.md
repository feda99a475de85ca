# Ordered slot manager of a B-tree page

This project models the ordered slot manager of the Hyracks B-tree
(`OrderedSlotManager`). The slot manager keeps a page's tuples in ascending
key order behind a slot directory: a stack of fixed-width cells, growing down
from the top of the page, that map logical positions to tuple offsets. It has
three operations:

- the **bounded find**, a binary search over every tuple of the page. It takes
  a fast path when the key is above the last tuple. An equal key is treated as
  the find mode says (`INCLUSIVE`, `EXCLUSIVE`, `EXCLUSIVE_ERROR_IF_EXISTS`,
  `EXACT`). A miss is answered by the no-exact-match policy (`HIGHER_KEY`, or
  otherwise the lower key). The two non-index answers are the sentinels
  "greatest key" and "error";
- the **hinted find**, an exponential search forward from a start index
  followed by a binary search in the bracket it finds. It answers in the
  signed insertion-point convention of `java.util.Collections.binarySearch`;
- **slot insertion**, which shifts the slot cells from the region edge up to
  the target cell down by one cell, in place, and writes the new tuple offset
  into the gap. When the position is the greatest-key indicator it appends one
  cell below the edge instead.

Model layout:

- `slot_manager.dfy` (module `SlotManager`): find modes, policies, the
  sentinels, the comparator stand-in, the order predicates, and `InsertAt` on
  sequences.
- `bounded_find.dfy` (module `BoundedFind`): the bounded find as a method with
  its loop. `BoundedOutcome` is the specification it is proved against.
- `hinted_find.dfy` (module `HintedFind`): the hinted find as a method with
  its two loops, proved against `HintedOutcome`.
- `slot_directory.dfy` (module `SlotDirectory`): the page as a class `Frame`
  over a byte array, with cell encoding, cell geometry and `InsertSlot`.
  `InsertSlot` is proved against `InsertSlotBytes`, a function of the old
  bytes.
- `page_order.dfy` (module `PageOrder`): how the three operations compose.

Modelling choices:

- A page's tuples are seen through their keys. `keys[i]` is the key of the
  tuple at logical slot `i`: what the tuple cursor reads after
  `resetByTupleIndex(frame, i)`.
- The multi-field comparator is integer comparison (`SlotManager.Compare`).
- The finds have no precondition on order. Their range facts hold on every
  page. Their full answer is stated for a sorted page: non-decreasing keys,
  which covers the `EXCLUSIVE` paths over duplicates.
- The page buffer is bytes. A cell is 4 bytes because `setSlot` stores one
  Java `int`, big-endian as in `ByteBuffer`.
- `AbstractSlotManager` is not part of this model. It defines the sentinels
  and the geometry helpers. The model picks `GREATEST_KEY_INDICATOR = -1` and
  `ERROR_INDICATOR = -2`: distinct, negative, and outside every index range.
  It takes the geometry `getSlotOff(i) = capacity - 4 - 4*i` and
  `getSlotEndOff() = capacity - 4*tupleCount`. This satisfies
  `getSlotOff(i) = getSlotEndOff() + (tupleCount-1-i)*4` (`SlotGeometry`), as
  lines 175 and 180 need.
- Slot 0 is the highest cell of the slot region. `insertSlot` appends below
  the edge (line 175) and copies the cells between the edge and slot
  `tupleIndex` downward (lines 180-182), so higher logical slots sit at lower
  addresses.
- Every mode, `EXACT` included, returns the greatest-key indicator on an
  empty page (lines 36-37), before any tuple is probed.

## Model

| member | source | states |
|---|---|---|
| `BoundedFind.FindTupleIndex` | hyracks-fullstack/hyracks/hyracks-storage-am-btree/src/main/java/org/apache/hyracks/storage/am/btree/frames/OrderedSlotManager.java:33-104 | On any page the result is an index in [0, tupleCount) or one of the two sentinels. Every probe is a checked index in range. An empty page gives the greatest-key indicator for every mode and policy. Only `EXACT` and `EXCLUSIVE_ERROR_IF_EXISTS` can give the error indicator. An index returned in `EXACT` mode holds the key. On a sorted page the result is `BoundedOutcome`: if the key is present, `EXACT` and inclusive return an index holding it and `EXCLUSIVE_ERROR_IF_EXISTS` returns the error indicator; if absent, `EXACT` returns the error indicator. Otherwise (and always in `EXCLUSIVE`) `HIGHER_KEY` gives the first index with a strictly greater key and the lower policy gives the last index with a strictly smaller key, each falling back to the greatest-key indicator when there is no such index. That answer does not mention the last-tuple fast path; `FastPathAgreesWithFullSearch` shows that it is exactly what the fast path returns. |
| `BoundedFind.FastPathAgreesWithFullSearch` | hyracks-fullstack/hyracks/hyracks-storage-am-btree/src/main/java/org/apache/hyracks/storage/am/btree/frames/OrderedSlotManager.java:44-51 | On a sorted page whose last key is below the search key, `BoundedOutcome` holds of exactly one result: the error indicator for `EXACT`, otherwise the greatest-key indicator with `HIGHER_KEY` and the last index with the lower policy. These are the results of the search started at `begin = tupleCount`, so the fast path gives the same answer as a search from 0. |
| `BoundedFind.BoundedOutcomeUnique` | hyracks-fullstack/hyracks/hyracks-storage-am-btree/src/main/java/org/apache/hyracks/storage/am/btree/frames/OrderedSlotManager.java:53-103 | On a page of strictly ascending keys, each mode and policy allows exactly one answer. |
| `BoundedFind.BoundedFindExamples` | hyracks-fullstack/hyracks/hyracks-storage-am-btree/src/main/java/org/apache/hyracks/storage/am/btree/frames/OrderedSlotManager.java:35-103 | On page 10, 20, 30: `EXACT` finds 20 at 1. `EXACT` on 25 gives the error indicator. `EXCLUSIVE_ERROR_IF_EXISTS` on 30 gives the error indicator. `EXCLUSIVE`/`HIGHER_KEY` on the last key 30 gives greatest-key. `EXCLUSIVE`/lower on the first key 10 gives greatest-key. Inclusive 25 gives 2 with `HIGHER_KEY` and 1 with the lower policy. |
| `HintedFind.FindTupleIndex` | hyracks-fullstack/hyracks/hyracks-storage-am-btree/src/main/java/org/apache/hyracks/storage/am/btree/frames/OrderedSlotManager.java:107-169 | An empty page gives -1 for any hint, negative ones included. A hint at or past tupleCount gives `-tupleCount-1`. Every result lies in [-tupleCount-1, tupleCount). A non-negative result is at or after the hint and holds the key, on any page. On a sorted page a negative result `-k-1` has hint <= k <= tupleCount, every key in [hint, k) below the search key, and the key at k above it when k < tupleCount. The exponential loop terminates because `index` strictly increases and stays below tupleCount. |
| `HintedFind.HintedOutcomeUnique` | hyracks-fullstack/hyracks/hyracks-storage-am-btree/src/main/java/org/apache/hyracks/storage/am/btree/frames/OrderedSlotManager.java:146-168 | On strictly ascending keys, the match index or signed insertion point of the hinted find is unique. |
| `HintedFind.HintedFindExamples` | hyracks-fullstack/hyracks/hyracks-storage-am-btree/src/main/java/org/apache/hyracks/storage/am/btree/frames/OrderedSlotManager.java:109-168 | On keys 10, 20, 30, 40, 50 with hint 0: 30 gives 2, 25 gives -3, 60 gives -6. |
| `SlotDirectory.DecodeEncode` | hyracks-fullstack/hyracks/hyracks-storage-am-btree/src/main/java/org/apache/hyracks/storage/am/btree/frames/OrderedSlotManager.java:183 | A tuple offset written into a cell reads back unchanged. This covers every 32-bit value, negative ones included. |
| `SlotDirectory.SlotGeometry` | hyracks-fullstack/hyracks/hyracks-storage-am-btree/src/main/java/org/apache/hyracks/storage/am/btree/frames/OrderedSlotManager.java:173-180 | The cell of logical slot i lies (tupleCount-1-i) cells above the slot-region edge, so higher logical slots sit at lower addresses. |
| `SlotDirectory.CopyDown` | hyracks-fullstack/hyracks/hyracks-storage-am-btree/src/main/java/org/apache/hyracks/storage/am/btree/frames/OrderedSlotManager.java:181-182 | The overlapping `System.arraycopy` to a lower destination: the destination range gets the old bytes of the source range, and every other byte keeps its old value. |
| `SlotDirectory.Frame.SetSlot` | hyracks-fullstack/hyracks/hyracks-storage-am-btree/src/main/java/org/apache/hyracks/storage/am/btree/frames/OrderedSlotManager.java:176 | The cell at the offset holds the encoding of the value, and every other byte is unchanged. |
| `SlotDirectory.Frame.InsertSlot` | hyracks-fullstack/hyracks/hyracks-storage-am-btree/src/main/java/org/apache/hyracks/storage/am/btree/frames/OrderedSlotManager.java:172-186 | The return value is `getSlotEndOff()-4` for the greatest-key indicator, otherwise `getSlotOff(tupleIndex)`. The new bytes equal `InsertSlotBytes` of the old bytes: the bytes from the edge up to the target cell move one cell down, the target cell holds `tupleOff`, and the bytes below the new cell and above the target cell are unchanged. Read with one more slot, the directory is the old directory with `tupleOff` inserted at the position, so slot j becomes slot j+1 for j >= the position. The page stays valid and the tuple count is unchanged. |
| `SlotDirectory.InsertSlotBytesSlots` | hyracks-fullstack/hyracks/hyracks-storage-am-btree/src/main/java/org/apache/hyracks/storage/am/btree/frames/OrderedSlotManager.java:179-184 | After the shift-and-write, the logical directory of n+1 slots is the old n slots with the new offset at position k. |
| `SlotDirectory.AppendSlotBytes` | hyracks-fullstack/hyracks/hyracks-storage-am-btree/src/main/java/org/apache/hyracks/storage/am/btree/frames/OrderedSlotManager.java:174-177 | An append at the greatest-key position leaves every existing byte in place. Only the cell just below the edge changes. |
| `PageOrder.PageKeysInsertAt` | hyracks-fullstack/hyracks/hyracks-storage-am-btree/src/main/java/org/apache/hyracks/storage/am/btree/frames/OrderedSlotManager.java:172-186 | Inserting a slot inserts its tuple's key at the same logical position of the page's key sequence. |
| `PageOrder.ProbeThenInsertKeepsOrder` | hyracks-fullstack/hyracks/hyracks-storage-am-btree/src/main/java/org/apache/hyracks/storage/am/btree/frames/OrderedSlotManager.java:63-92 | On strictly ascending keys, take an `EXCLUSIVE_ERROR_IF_EXISTS`/`HIGHER_KEY` probe that returns no error. Then the key is absent, the designated position lies in [0, tupleCount], and inserting the key there keeps the keys strictly ascending. |
| `PageOrder.ProbeThenInsertSlotKeepsOrder` | hyracks-fullstack/hyracks/hyracks-storage-am-btree/src/main/java/org/apache/hyracks/storage/am/btree/frames/OrderedSlotManager.java:172-186 | The same on page bytes: a probe, then the slot insertion at the returned position, then one more tuple counted, leaves the keys read through the directory strictly ascending. |
| `PageOrder.InsertKeys` | hyracks-fullstack/hyracks/hyracks-storage-am-btree/src/main/java/org/apache/hyracks/storage/am/btree/frames/OrderedSlotManager.java:33-104 | Repeated probe-and-insert, starting from an empty page, yields strictly ascending keys that are exactly the given keys. |
| `PageOrder.HintedFromStartAgreesWithBounded` | hyracks-fullstack/hyracks/hyracks-storage-am-btree/src/main/java/org/apache/hyracks/storage/am/btree/frames/OrderedSlotManager.java:107-169 | On strictly ascending keys, the hinted find from hint 0 agrees with the inclusive `HIGHER_KEY` bounded find. A match gives the same index. An insertion point k < tupleCount gives k. An insertion point at tupleCount corresponds to the greatest-key indicator. |

## Left out

- Multi-field comparison in `MultiComparator` and tuple decoding in `resetByTupleIndex` are left out. Keys are integers and the cursor is an index into the key sequence.
- `ByteBuffer` allocation, `HyracksDataException` propagation, and page latching/concurrency are left out. No model operation fails, and callers must hold the page exclusively.
- `AbstractSlotManager` is not part of this model: sentinel values and geometry are taken as described above.
- HintedFind.FindTupleIndex: requires a non-negative hint on a non-empty page. There a negative hint makes the source probe an out-of-range tuple. An empty page returns -1 for any hint, and the model covers that case.
- SlotDirectory.Frame.InsertSlot: requires the greatest-key indicator or an index in [0, tupleCount], and room for one more cell. For other inputs, `System.arraycopy` or `putInt` throws an index-out-of-bounds exception in the source, and that exception is not modelled.
- SlotDirectory.CopyDown: models `System.arraycopy` only for a destination at or below the source, the only way `insertSlot` uses it.
- Java `int` arithmetic is left out: indices, `step` and byte offsets are unbounded integers. Page sizes below 2^31 keep every sum in range. The source's `(low + high) >>> 1` and `(begin + end) / 2` act on non-negative sums, so both are plain halving.
- The tuple region, free-space accounting and the tuple-count update after `insertSlot` belong to the calling frame and are not modelled. `InsertSlot` states the new directory read with one more slot.

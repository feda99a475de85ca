/**
  The slot directory of a page and the ordered slot manager's slot insertion.

  A page is a byte buffer of `capacity` bytes. Its slot directory grows
  downward from the top: the 4-byte cell of logical slot `i` starts at
  `capacity - 4 - 4 * i`, so slot 0 is the highest cell and the cell of the
  last of `tupleCount` slots starts at the slot-region edge
  `capacity - 4 * tupleCount`. Each cell stores the offset of a tuple as a
  32-bit two's-complement integer, most significant byte first.
 */
module SlotDirectory {
  import opened SlotManager

  newtype byte = x: int | 0 <= x < 0x100
  newtype int32 = x: int | -0x8000_0000 <= x < 0x8000_0000

  /** Width of one slot cell: one stored 32-bit integer. */
  const SLOT_SIZE: int := 4

  /** The four bytes, most significant first, that store `x`. */
  function EncodeInt(x: int32): (b: seq<byte>)
    ensures |b| == SLOT_SIZE
  {
    var u := if x < 0 then x as int + 0x1_0000_0000 else x as int;
    [(u / 0x100_0000) as byte, (u / 0x1_0000 % 0x100) as byte, (u / 0x100 % 0x100) as byte, (u % 0x100) as byte]
  }

  /** The 32-bit integer stored in a cell. */
  function DecodeInt(b: seq<byte>): (r: int32)
    requires |b| == SLOT_SIZE
  {
    var u := b[0] as int * 0x100_0000 + b[1] as int * 0x1_0000 + b[2] as int * 0x100 + b[3] as int;
    if u >= 0x8000_0000 then (u - 0x1_0000_0000) as int32 else u as int32
  }

  lemma DecodeEncode(x: int32)
    ensures DecodeInt(EncodeInt(x)) == x
  {
  }

  /** Byte offset of the cell of logical slot `i` in a page of `capacity` bytes. */
  function SlotOffIn(capacity: int, i: int): (r: int) {
    capacity - SLOT_SIZE - i * SLOT_SIZE
  }

  /** Byte offset of the slot-region edge of a page of `capacity` bytes holding `tupleCount` slots. */
  function SlotEndOffIn(capacity: int, tupleCount: int): (r: int) {
    capacity - tupleCount * SLOT_SIZE
  }

  /**
    The cell geometry is linear: the cell of slot `i` lies `tupleCount - 1 - i`
    cells above the edge. Slot insertion relies on it: the cells from the edge
    up to the cell of slot `i` are exactly the `tupleCount - i` cells that the
    shift moves.
   */
  lemma SlotGeometry(capacity: int, tupleCount: int, i: int)
    ensures SlotOffIn(capacity, i) == SlotEndOffIn(capacity, tupleCount) + (tupleCount - 1 - i) * SLOT_SIZE
  {
  }

  /** The tuple offsets stored in the cells of logical slots 0 .. n-1 of page bytes `s`. */
  function SlotValues(s: seq<byte>, n: nat): (v: seq<int32>)
    requires n * SLOT_SIZE <= |s|
    ensures |v| == n
  {
    seq(n, i requires 0 <= i < n => DecodeInt(s[SlotOffIn(|s|, i)..SlotOffIn(|s|, i) + SLOT_SIZE]))
  }

  /**
    The page bytes after inserting a slot holding `tupleOff` at logical
    position `k` of a directory of `n` slots: every byte from the edge up to
    the cell of slot `k` moves one cell down, the cell of slot `k` receives
    `tupleOff`, and every other byte is kept.
   */
  function InsertSlotBytes(s: seq<byte>, n: nat, k: nat, tupleOff: int32): (t: seq<byte>)
    requires k <= n && (n + 1) * SLOT_SIZE <= |s|
    ensures |t| == |s|
  {
    var edge := SlotEndOffIn(|s|, n);
    var off := SlotOffIn(|s|, k);
    seq(|s|, b requires 0 <= b < |s| =>
      if b < edge - SLOT_SIZE || off + SLOT_SIZE <= b then s[b]
      else if b < off then s[b + SLOT_SIZE]
      else EncodeInt(tupleOff)[b - off])
  }

  /** Reading the directory of `n + 1` slots after the insertion gives the old directory with `tupleOff` at `k`. */
  lemma {:induction false} InsertSlotBytesSlots(s: seq<byte>, n: nat, k: nat, tupleOff: int32)
    requires k <= n && (n + 1) * SLOT_SIZE <= |s|
    ensures SlotValues(InsertSlotBytes(s, n, k, tupleOff), n + 1) == InsertAt(SlotValues(s, n), k, tupleOff)
  {
    var t := InsertSlotBytes(s, n, k, tupleOff);
    var before, after := SlotValues(s, n), SlotValues(t, n + 1);
    var expected := InsertAt(before, k, tupleOff);
    forall i | 0 <= i < n + 1
      ensures after[i] == expected[i]
    {
      var off := SlotOffIn(|s|, i);
      if i < k {
        assert t[off..off + SLOT_SIZE] == s[off..off + SLOT_SIZE];
      } else if i == k {
        assert t[off..off + SLOT_SIZE] == EncodeInt(tupleOff);
        DecodeEncode(tupleOff);
      } else {
        assert SlotOffIn(|s|, i - 1) == off + SLOT_SIZE;
        assert t[off..off + SLOT_SIZE] == s[off + SLOT_SIZE..off + 2 * SLOT_SIZE];
      }
    }
    assert after == expected;
  }

  /** Appending at the greatest-key position moves no byte: only the new cell below the edge changes. */
  lemma AppendSlotBytes(s: seq<byte>, n: nat, tupleOff: int32)
    requires (n + 1) * SLOT_SIZE <= |s|
    ensures var edge := SlotEndOffIn(|s|, n);
            InsertSlotBytes(s, n, n, tupleOff) == s[..edge - SLOT_SIZE] + EncodeInt(tupleOff) + s[edge..]
  {
  }

  /**
    `System.arraycopy` within one array, for a destination at or below the
    source: copying from low to high addresses never overwrites a byte
    before it is read.
   */
  method CopyDown(a: array<byte>, srcPos: int, destPos: int, length: int)
    requires 0 <= destPos <= srcPos && 0 <= length && srcPos + length <= a.Length
    modifies a
    ensures forall b :: 0 <= b < a.Length && (b < destPos || destPos + length <= b) ==> a[b] == old(a[b])
    ensures forall b :: destPos <= b < destPos + length ==> a[b] == old(a[b - destPos + srcPos])
  {
    var i := 0;
    while i < length
      invariant 0 <= i <= length
      invariant forall b :: 0 <= b < a.Length && (b < destPos || destPos + i <= b) ==> a[b] == old(a[b])
      invariant forall b :: destPos <= b < destPos + i ==> a[b] == old(a[b - destPos + srcPos])
    {
      a[destPos + i] := a[srcPos + i];
      i := i + 1;
    }
  }

  /** The page a slot manager works on: its byte buffer and its tuple count. */
  class Frame {
    var buf: array<byte>
    var tupleCount: int

    ghost predicate Valid()
      reads this
    {
      0 <= tupleCount && tupleCount * SLOT_SIZE <= buf.Length < 0x8000_0000
    }

    /** The tuple offsets of the page's slots, in logical order. */
    ghost function Slots(): seq<int32>
      reads this, buf
      requires Valid()
    {
      SlotValues(buf[..], tupleCount)
    }

    /** An empty page of `capacity` bytes. */
    constructor (capacity: nat)
      requires capacity < 0x8000_0000
      ensures Valid() && fresh(buf) && buf.Length == capacity
      ensures tupleCount == 0 && Slots() == []
    {
      buf := new byte[capacity];
      tupleCount := 0;
    }

    function GetSlotOff(tupleIndex: int): (r: int)
      reads this
    {
      SlotOffIn(buf.Length, tupleIndex)
    }

    function GetSlotEndOff(): (r: int)
      reads this
    {
      SlotEndOffIn(buf.Length, tupleCount)
    }

    /** Stores `value` in the cell at byte `offset`. */
    method SetSlot(offset: int, value: int32)
      requires 0 <= offset && offset + SLOT_SIZE <= buf.Length
      modifies buf
      ensures buf[offset..offset + SLOT_SIZE] == EncodeInt(value)
      ensures forall b :: 0 <= b < buf.Length && (b < offset || offset + SLOT_SIZE <= b) ==> buf[b] == old(buf[b])
    {
      var cell := EncodeInt(value);
      buf[offset] := cell[0];
      buf[offset + 1] := cell[1];
      buf[offset + 2] := cell[2];
      buf[offset + 3] := cell[3];
    }

    /**
      Makes room for a new slot at logical position `tupleIndex` (or after
      every slot, for the greatest-key indicator) and stores `tupleOff` in
      it; returns the byte offset of the cell written. The tuple count is
      left to the caller, so the new directory is read with one more slot.
     */
    method InsertSlot(tupleIndex: int, tupleOff: int32) returns (slotOff: int)
      requires Valid()
      requires tupleIndex == GREATEST_KEY_INDICATOR || 0 <= tupleIndex <= tupleCount
      requires (tupleCount + 1) * SLOT_SIZE <= buf.Length
      modifies buf
      ensures Valid() && tupleCount == old(tupleCount)
      ensures tupleIndex == GREATEST_KEY_INDICATOR ==> slotOff == GetSlotEndOff() - SLOT_SIZE
      ensures tupleIndex != GREATEST_KEY_INDICATOR ==> slotOff == GetSlotOff(tupleIndex)
      ensures buf[..] == InsertSlotBytes(old(buf[..]), tupleCount, InsertPosition(tupleIndex, tupleCount), tupleOff)
      ensures SlotValues(buf[..], tupleCount + 1) == InsertAt(old(Slots()), InsertPosition(tupleIndex, tupleCount), tupleOff)
    {
      ghost var before := buf[..];
      ghost var k := InsertPosition(tupleIndex, tupleCount);
      slotOff := GetSlotOff(tupleIndex);
      if tupleIndex == GREATEST_KEY_INDICATOR {
        slotOff := GetSlotEndOff() - SLOT_SIZE;
        SetSlot(slotOff, tupleOff);
      } else {
        var slotEndOff := GetSlotEndOff();
        var length := (slotOff - slotEndOff) + SLOT_SIZE;
        SlotGeometry(buf.Length, tupleCount, tupleIndex);
        assert length == (tupleCount - tupleIndex) * SLOT_SIZE;
        CopyDown(buf, slotEndOff, slotEndOff - SLOT_SIZE, length);
        SetSlot(slotOff, tupleOff);
      }
      ghost var expected := InsertSlotBytes(before, tupleCount, k, tupleOff);
      forall b | 0 <= b < buf.Length
        ensures buf[b] == expected[b]
      {
        if slotOff <= b < slotOff + SLOT_SIZE {
          assert buf[b] == buf[slotOff..slotOff + SLOT_SIZE][b - slotOff];
        }
      }
      assert buf[..] == expected;
      InsertSlotBytesSlots(before, tupleCount, k, tupleOff);
    }
  }
}

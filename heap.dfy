/**
 * The bitmap heap. One contiguous data region of `cap` bytes starting at
 * address `base` is carved into blocks; a second buffer, the bitmap, holds
 * one occupancy bit per data byte. Bit indices are 16-bit, so the heap
 * manages at most 8191 bytes.
 */
module Heap {
  import opened BaseTypes
  import opened MemorySegment
  import opened Bitmap
  import opened Placement

  /** Largest region whose bit count still fits in 16 bits. */
  const MaxSize: nat := 0xFFFF / BitsInByte

  /** Size in bytes of the bitmap for a region of `size` bytes. */
  function BitmapSize(size: nat): (n: nat)
    ensures size <= BitsInByte * n < size + BitsInByte
  {
    (size + BitsInByte - 1) / BitsInByte
  }

  /**
   * The last bit index of a segment, computed in 16 bits as the heap does:
   * `addr + size - 1`, wrapping around when the segment is empty.
   */
  function LastBitIndex(seg: Segment): (last: U16)
    ensures 0 < seg.size && End(seg) <= 0x10000 ==> last == End(seg) - 1
  {
    (seg.addr + seg.size - 1) % 0x10000
  }

  /**
   * The range loops run `offset` from `addr` while `offset <= LastBitIndex`.
   * For the empty segment at address 0 the last index wraps to 0xFFFF, which
   * every 16-bit offset is at most, so the loop that marks a range never
   * stops (and runs past the bitmap); this is why the model demands a
   * non-empty segment there.
   */
  lemma ZeroSizeRangeNeverEnds(offset: U16)
    ensures LastBitIndex(Segment(0, 0)) == 0xFFFF
    ensures offset <= LastBitIndex(Segment(0, 0))
  {
  }

  /** The best run the placement search holds, `0xFFFF` meaning none yet. */
  function Tracked(bestIndex: U16, bestSpan: U16): (best: Option<Run>)
  {
    if bestIndex == 0xFFFF then None else Some(Run(bestIndex, bestSpan))
  }

  /**
   * One pass of the placement search: from run boundary `cursor` with the
   * next set bit at `next`, the search's update of its best run (`newIndex`,
   * `newSpan`) leaves what the scan still returns unchanged.
   */
  lemma ScanPass(bits: seq<bool>, minSize: nat, ideal: U16, cursor: U16, next: U16,
                 bestIndex: U16, bestSpan: U16, bestDelta: U16, newIndex: U16, newSpan: U16)
    requires |bits| <= MaxSize && cursor <= |bits| && (cursor == 0 || cursor < |bits|)
    requires next == NextSet(bits, cursor)
    requires bestIndex != 0xFFFF ==> bestDelta == Delta(bestSpan, ideal)
    requires bestIndex == 0xFFFF ==> bestDelta == 0xFFFF
    requires (var span := next - cursor;
              if 0 < span && minSize <= span && Delta(span, ideal) < bestDelta
              then newIndex == cursor && newSpan == span
              else newIndex == bestIndex && newSpan == bestSpan)
    ensures Remaining(bits, minSize, ideal, cursor, Tracked(bestIndex, bestSpan)) ==
            Remaining(bits, minSize, ideal, next + 1, Tracked(newIndex, newSpan))
  {
    ScanFromStep(bits, minSize, ideal, cursor, next, Tracked(bestIndex, bestSpan));
  }

  /**
   * What the placement search holds once the scan is over: `0xFFFF`
   * exactly when nothing fits, and otherwise the run the block is placed in.
   */
  lemma SearchOutcome(bits: seq<bool>, minSize: nat, ideal: nat, bestIndex: U16, bestSpan: U16)
    requires minSize <= ideal && |bits| <= MaxSize
    requires Tracked(bestIndex, bestSpan) == ScanFrom(bits, minSize, ideal, 0, None)
    ensures bestIndex == 0xFFFF <==> FindPlacement(bits, minSize, ideal).None?
    ensures bestIndex != 0xFFFF ==> (
      bestIndex < |bits| && bestIndex + bestSpan <= |bits| && minSize <= bestSpan &&
      FindPlacement(bits, minSize, ideal) == Some(Place(bestIndex, bestSpan, minSize, ideal)))
  {
    ScanOutcome(bits, minSize, ideal);
  }

  /** All bits of `bits` in `[lo, hi)` equal `v`. */
  ghost predicate AllEqual(bits: seq<bool>, lo: int, hi: int, v: bool)
  {
    forall k :: 0 <= lo <= k < hi && k < |bits| ==> bits[k] == v
  }

  class THeap {
    /** Start address of the data region. */
    var base: U16
    /** Size of the data region in bytes. */
    var cap: U16
    /** The occupancy bitmap: bit `i` set means data byte `i` is in use. */
    var bitmap: array<bv8>
    /** Set by a successful initialisation. */
    var isReadyFlag: bool
    /** Declared by the heap with initial value 0 and never read or written. */
    var lastSegSize: U16

    /**
     * The data region and the bitmap agree: at most 8191 bytes, one bitmap
     * bit per byte rounded up to whole bytes, and the region inside the
     * 16-bit address space.
     */
    ghost predicate Consistent()
      reads this
    {
      cap <= MaxSize && bitmap.Length == BitmapSize(cap) && base + cap <= 0x10000
    }

    /** A ready heap is consistent. */
    ghost predicate Valid()
      reads this
    {
      isReadyFlag ==> Consistent()
    }

    /** The occupancy bits of the data bytes; padding bits are left out. */
    ghost function Bits(): (bits: seq<bool>)
      reads this, bitmap
      requires cap <= BitsInByte * bitmap.Length
      ensures |bits| == cap
    {
      Flatten(bitmap[..])[..cap]
    }

    /** A fresh heap owns no memory and is not ready. */
    constructor ()
      ensures Valid() && Consistent() && !isReadyFlag
      ensures cap == 0 && lastSegSize == 0
    {
      base := 0;
      cap := 0;
      bitmap := new bv8[0];
      isReadyFlag := false;
      lastSegSize := 0;
    }

    /** The destructor: the heap stops being ready. */
    method Destroy()
      requires Valid()
      modifies this`isReadyFlag
      ensures Valid() && !isReadyFlag
      ensures lastSegSize == old(lastSegSize)
    {
      isReadyFlag := false;
    }

    /**
     * Obtain a data region of `size` bytes and its bitmap. The memory
     * facility is a parameter: `dataOk` and `dataBase` are the outcome and
     * the address of resizing the data region, `bitmapOk` the outcome of
     * resizing the bitmap. A freshly obtained bitmap reads all clear.
     */
    method Init(size: U16, dataOk: bool, dataBase: U16, bitmapOk: bool) returns (ok: bool)
      requires Valid()
      requires dataOk ==> dataBase + size <= 0x10000
      modifies this
      ensures Valid() && isReadyFlag == ok
      ensures ok <==> dataOk && size <= MaxSize && bitmapOk
      ensures ok ==> Consistent() && fresh(bitmap) && base == dataBase && cap == size
      ensures ok ==> forall k :: 0 <= k < cap ==> !Bits()[k]
      ensures dataOk ==> base == dataBase && cap == size
      ensures !dataOk ==> base == old(base) && cap == old(cap)
      ensures !ok ==> bitmap == old(bitmap)
      ensures lastSegSize == old(lastSegSize)
    {
      isReadyFlag := false;

      if !dataOk {
        return false;
      }
      base, cap := dataBase, size;

      var numBits := cap * BitsInByte;
      if numBits > 0xFFFF {
        return false;
      }

      var bitmapSize := (cap + BitsInByte - 1) / BitsInByte;
      if !bitmapOk {
        return false;
      }
      bitmap := new bv8[bitmapSize](_ => 0);
      isReadyFlag := true;

      forall k | 0 <= k < cap
        ensures !Bits()[k]
      {
        FlattenAt(bitmap[..], k);
        assert bitmap[..][k / BitsInByte] == 0;
      }
      return true;
    }

    /** Whether the heap is ready; being ready means Init succeeded. */
    function IsReady(): (ready: bool)
      reads this
      requires Valid()
      ensures ready == isReadyFlag
      ensures ready ==> Consistent()
    {
      isReadyFlag
    }

    /** Read bit `index` of the bitmap. */
    function GetBit(index: U16): (b: bool)
      reads this, bitmap
      requires index < BitsInByte * bitmap.Length
      ensures b == Flatten(bitmap[..])[index]
    {
      FlattenAt(bitmap[..], index);
      var byteIndex := index / BitsInByte;
      var byteValue := bitmap[byteIndex];
      var bitOffset := index % BitsInByte;
      MaskReadsBit(byteValue, bitOffset);
      byteValue & Mask(bitOffset) != 0
    }

    /** Write bit `index` of the bitmap; every other bit keeps its value. */
    method SetBit(index: U16, value: bool)
      requires index < BitsInByte * bitmap.Length
      modifies bitmap
      ensures Flatten(bitmap[..]) == old(Flatten(bitmap[..]))[index := value]
    {
      var byteIndex := index / BitsInByte;
      var byteValue := bitmap[byteIndex];
      var bitOffset := index % BitsInByte;
      if !value {
        MaskClearsBit(byteValue, bitOffset);
        byteValue := byteValue & !Mask(bitOffset);
      } else {
        MaskSetsBit(byteValue, bitOffset);
        byteValue := byteValue | Mask(bitOffset);
      }
      ghost var before := bitmap[..];
      bitmap[byteIndex] := byteValue;
      assert bitmap[..] == before[byteIndex := byteValue];
      FlattenSetBit(before, index, byteValue, value);
    }

    /** Set every bit of a non-empty segment of the data region to `value`. */
    method SetRange(seg: Segment, value: bool)
      requires Consistent()
      requires 0 < seg.size && End(seg) <= cap
      modifies bitmap
      ensures Flatten(bitmap[..]) == Fill(old(Flatten(bitmap[..])), seg.addr, seg.size, value)
      ensures Bits() == Fill(old(Bits()), seg.addr, seg.size, value)
    {
      ghost var before := Flatten(bitmap[..]);
      var startBitIdx := seg.addr;
      var endBitIdx := LastBitIndex(seg);
      var offset := startBitIdx;
      FillEmpty(before, startBitIdx, value);
      while offset <= endBitIdx
        invariant startBitIdx <= offset <= endBitIdx + 1
        invariant Flatten(bitmap[..]) == Fill(before, startBitIdx, offset - startBitIdx, value)
      {
        FillGrow(before, startBitIdx, offset - startBitIdx, value);
        SetBit(offset, value);
        offset := offset + 1;
      }
      FillPrefix(before, seg.addr, seg.size, value, cap);
    }

    /** Whether a segment lies inside the data region; never for an empty one. */
    function IsOurs(seg: Segment): (ours: bool)
      reads this
      ensures ours <==> 0 < seg.size && base <= seg.addr && End(seg) <= base + cap
      ensures ours ==> seg.size > 0
    {
      IsInside(seg, Segment(base, cap))
    }

    /**
     * Whether the bits of a non-empty segment all equal `value`. As the heap
     * writes it, the loop stops before the last index, so the segment's last
     * bit is never examined.
     */
    method RangeIsSolid(seg: Segment, value: bool) returns (solid: bool)
      requires Consistent()
      requires 0 < seg.size && End(seg) <= cap
      ensures solid <==> AllEqual(Bits(), seg.addr, End(seg) - 1, value)
    {
      var startBitIdx := seg.addr;
      var endBitIdx := LastBitIndex(seg);
      var offset := startBitIdx;
      while offset < endBitIdx
        invariant startBitIdx <= offset <= endBitIdx
        invariant AllEqual(Bits(), startBitIdx, offset, value)
      {
        if GetBit(offset) != value {
          return false;
        }
        offset := offset + 1;
      }
      return true;
    }

    /**
     * The solidity check with the loop bound the comments describe: every
     * bit of the segment, the last one included, is examined.
     */
    method RangeIsSolidFull(seg: Segment, value: bool) returns (solid: bool)
      requires Consistent()
      requires 0 < seg.size && End(seg) <= cap
      ensures solid <==> AllEqual(Bits(), seg.addr, End(seg), value)
    {
      var startBitIdx := seg.addr;
      var endBitIdx := LastBitIndex(seg);
      var offset := startBitIdx;
      while offset <= endBitIdx
        invariant startBitIdx <= offset <= endBitIdx + 1
        invariant AllEqual(Bits(), startBitIdx, offset, value)
      {
        if GetBit(offset) != value {
          return false;
        }
        offset := offset + 1;
      }
      return true;
    }

    /**
     * The first index at or after `start` whose bit is set, or the region
     * size when there is none. From at or past the end it returns `start`.
     */
    method GetNextBusyIndex(start: U16) returns (next: U16)
      requires Consistent()
      ensures cap <= start ==> next == start
      ensures start <= cap ==> next == NextSet(Bits(), start)
    {
      var limit := cap;
      next := start;
      while next < limit
        invariant start <= next && (start < limit ==> next <= limit)
        invariant limit <= start ==> next == start
        invariant forall k :: start <= k < next ==> k < cap && !Bits()[k]
      {
        if GetBit(next) {
          break;
        }
        next := next + 1;
      }
      if start <= cap {
        NextSetIsFirst(Bits(), start, next);
      }
    }

    /**
     * Scan the maximal free runs from left to right and choose the one whose
     * length is closest to `idealSize` among those of at least `minSize`
     * bytes (the leftmost on ties); then place the block in it. `None` when
     * no run is long enough.
     */
    method FindSpan(minSize: U16, idealSize: U16) returns (index: Option<U16>)
      requires Consistent()
      requires minSize <= idealSize
      ensures index.None? <==> FindPlacement(Bits(), minSize, idealSize).None?
      ensures index.Some? ==> FindPlacement(Bits(), minSize, idealSize) == Some(index.value as nat)
    {
      ghost var bits := Bits();
      var cursor: U16 := 0;
      var limit := cap;
      var bestIndex: U16 := 0xFFFF;
      var bestDelta: U16 := 0xFFFF;
      var bestSpan: U16 := 0xFFFF;

      // The source's do-while loop: `cursor` is 0 only before the first pass.
      while cursor == 0 || cursor < limit
        invariant bits == Bits() && |bits| == limit
        invariant cursor <= limit + 1
        invariant bestIndex != 0xFFFF ==> bestIndex < limit && bestDelta == Delta(bestSpan, idealSize)
        invariant bestIndex == 0xFFFF ==> bestDelta == 0xFFFF
        invariant Remaining(bits, minSize, idealSize, cursor, Tracked(bestIndex, bestSpan)) == ScanFrom(bits, minSize, idealSize, 0, None)
        decreases limit + 1 - cursor
      {
        var nextBusy := GetNextBusyIndex(cursor);
        ghost var oldIndex, oldSpan, oldDelta := bestIndex, bestSpan, bestDelta;
        var spanLength := nextBusy - cursor;
        if spanLength > 0 {
          if spanLength >= minSize {
            var delta;
            if spanLength <= idealSize {
              delta := idealSize - spanLength;
            } else {
              delta := spanLength - idealSize;
            }
            if delta < bestDelta {
              bestIndex := cursor;
              bestDelta := delta;
              bestSpan := spanLength;
            }
          }
        }
        ScanPass(bits, minSize, idealSize, cursor, nextBusy, oldIndex, oldSpan, oldDelta, bestIndex, bestSpan);
        cursor := nextBusy + 1;
      }

      assert Tracked(bestIndex, bestSpan) == ScanFrom(bits, minSize, idealSize, 0, None);
      SearchOutcome(bits, minSize, idealSize, bestIndex, bestSpan);
      if bestIndex < limit {
        // Move the block from the start of the chosen run to its placement.
        if bestSpan < idealSize {
          bestIndex := bestIndex + (bestSpan - minSize);
        } else {
          bestIndex := bestIndex + (idealSize - minSize);
        }
        return Some(bestIndex);
      }
      return None;
    }

    /** Where to put a block of `spanSize` bytes: the golden-ratio placement. */
    method GetInsertIndex(spanSize: U16) returns (index: Option<U16>)
      requires Consistent()
      requires IdealSize(spanSize) <= 0xFFFF
      ensures index.None? <==> !Fits(Bits(), spanSize)
      ensures index.Some? ==> IsPlacement(Bits(), spanSize, IdealSize(spanSize), index.value)
      ensures index.Some? ==> FreeWindow(Bits(), index.value, spanSize)
    {
      var idealSize: U16 := IdealSize(spanSize);
      index := FindSpan(spanSize, idealSize);
      FindPlacementIsBest(Bits(), spanSize, idealSize);
    }

    /**
     * Reserve a block of `size` bytes. On success the caller's segment
     * becomes the block, as an address in the data region, and exactly the
     * block's bits, all clear before, are set. On failure nothing changes.
     */
    method Reserve(seg: SegmentVar, size: U16) returns (ok: bool)
      requires Consistent()
      requires 0 < size && IdealSize(size) <= 0xFFFF
      modifies seg, bitmap
      ensures Consistent()
      ensures ok <==> Fits(old(Bits()), size)
      ensures ok ==> (seg.size == size && base <= seg.addr && seg.addr - base + size <= cap &&
        IsPlacement(old(Bits()), size, IdealSize(size), seg.addr - base) &&
        AllEqual(old(Bits()), seg.addr - base, seg.addr - base + size, false) &&
        Bits() == Fill(old(Bits()), seg.addr - base, size, true))
      ensures !ok ==> seg.Value() == old(seg.Value()) && bitmap[..] == old(bitmap[..])
    {
      var insertIndex := GetInsertIndex(size);
      if insertIndex.None? {
        return false;
      }

      seg.addr := insertIndex.value;
      seg.size := size;

      SetRange(seg.Value(), true);

      seg.addr := seg.addr + base;

      return true;
    }

    /**
     * Release a block. A segment outside the data region is refused
     * untouched. Otherwise its address is first turned into a bitmap index;
     * the block is refused, keeping that index, unless all its bits are set;
     * on success its bits are cleared and the caller's segment becomes empty.
     */
    method Release(seg: SegmentVar) returns (ok: bool)
      requires Consistent()
      modifies seg, bitmap
      ensures Consistent()
      ensures !IsOurs(old(seg.Value())) ==>
        !ok && seg.Value() == old(seg.Value()) && bitmap[..] == old(bitmap[..])
      ensures IsOurs(old(seg.Value())) ==>
        var index := old(seg.addr) - base;
        var size := old(seg.size);
        (ok <==> AllEqual(old(Bits()), index, index + size, true)) &&
        (ok ==> seg.addr == 0 && seg.size == 0 && Bits() == Fill(old(Bits()), index, size, false)) &&
        (!ok ==> seg.addr == index && seg.size == size && bitmap[..] == old(bitmap[..]))
    {
      if !IsOurs(seg.Value()) {
        return false;
      }

      seg.addr := seg.addr - base;

      // The corrected solidity check (see `RangeIsSolid`).
      var solid := RangeIsSolidFull(seg.Value(), true);
      if !solid {
        return false;
      }

      SetRange(seg.Value(), false);

      seg.addr := 0;
      seg.size := 0;

      return true;
    }

    /**
     * Release as the heap writes it: the same steps as `Release`, but with
     * the solidity check that skips the segment's last bit, so a segment
     * whose bits are all set but the last (a one-byte segment in any state)
     * is accepted and cleared.
     */
    method ReleaseAsWritten(seg: SegmentVar) returns (ok: bool)
      requires Consistent()
      modifies seg, bitmap
      ensures Consistent()
      ensures !IsOurs(old(seg.Value())) ==>
        !ok && seg.Value() == old(seg.Value()) && bitmap[..] == old(bitmap[..])
      ensures IsOurs(old(seg.Value())) ==>
        var index := old(seg.addr) - base;
        var size := old(seg.size);
        (ok <==> AllEqual(old(Bits()), index, index + size - 1, true)) &&
        (ok ==> seg.addr == 0 && seg.size == 0 && Bits() == Fill(old(Bits()), index, size, false)) &&
        (!ok ==> seg.addr == index && seg.size == size && bitmap[..] == old(bitmap[..]))
    {
      if !IsOurs(seg.Value()) {
        return false;
      }

      seg.addr := seg.addr - base;

      var solid := RangeIsSolid(seg.Value(), true);
      if !solid {
        return false;
      }

      SetRange(seg.Value(), false);

      seg.addr := 0;
      seg.size := 0;

      return true;
    }
  }
}

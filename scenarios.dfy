/**
 * Whole cycles of a heap client: reserving, releasing, and releasing again.
 */
module Scenarios {
  import opened BaseTypes
  import opened MemorySegment
  import opened Bitmap
  import opened Placement
  import opened Heap

  /**
   * Reserving a block and releasing it gives back the bitmap as it was, and
   * releasing a stale copy of the segment afterwards is refused.
   */
  method ReserveThenRelease(heap: THeap, seg: SegmentVar, size: U16)
    returns (reserved: bool, released: bool, again: bool)
    requires heap.Consistent()
    requires 0 < size && IdealSize(size) <= 0xFFFF
    modifies seg, heap.bitmap
    ensures reserved <==> Fits(old(heap.Bits()), size)
    ensures reserved ==> released && !again && heap.Bits() == old(heap.Bits())
  {
    ghost var before := heap.Bits();
    reserved := heap.Reserve(seg, size);
    if !reserved {
      return false, false, false;
    }
    ghost var index := seg.addr - heap.base;
    ghost var reservedBits := heap.Bits();
    assert AllEqual(reservedBits, index, index + size, true);
    var stale := new SegmentVar(seg.addr, seg.size);
    released := heap.Release(seg);
    assert heap.Bits() == Fill(reservedBits, index, size, false);
    FillRoundTrip(before, index, size);
    assert heap.Bits() == before && !before[index];
    assert heap.IsOurs(stale.Value());
    again := heap.Release(stale);
  }

  /**
   * A one-byte block released twice through a stale copy of its segment:
   * the solidity check as the heap writes it examines no bit of it and lets
   * the second release through, while the full check refuses it.
   */
  method StaleOneByteBlock(heap: THeap, seg: SegmentVar)
    returns (reserved: bool, asWritten: bool, full: bool)
    requires heap.Consistent()
    modifies seg, heap.bitmap
    ensures reserved <==> Fits(old(heap.Bits()), 1)
    ensures reserved ==> asWritten && !full
  {
    reserved := heap.Reserve(seg, 1);
    if !reserved {
      return false, false, false;
    }
    ghost var before := old(heap.Bits());
    var stale := Segment(seg.addr - heap.base, seg.size);
    ghost var reservedBits := heap.Bits();
    assert AllEqual(reservedBits, stale.addr, stale.addr + 1, true);
    var released := heap.Release(seg);
    assert heap.Bits() == Fill(reservedBits, stale.addr, 1, false);
    assert !heap.Bits()[stale.addr];
    asWritten := heap.RangeIsSolid(stale, true);
    full := heap.RangeIsSolidFull(stale, true);
  }

  /**
   * The same one-byte double release through the public operation: the
   * heap's own release accepts the stale copy a second time, the corrected
   * release refuses it.
   */
  method DoubleReleaseOneByte(heap: THeap, seg: SegmentVar)
    returns (reserved: bool, released: bool, againAsWritten: bool)
    requires heap.Consistent()
    modifies seg, heap.bitmap
    ensures reserved <==> Fits(old(heap.Bits()), 1)
    ensures reserved ==> released && againAsWritten
  {
    reserved := heap.Reserve(seg, 1);
    if !reserved {
      return false, false, false;
    }
    var stale := new SegmentVar(seg.addr, seg.size);
    released := heap.ReleaseAsWritten(seg);
    assert heap.IsOurs(stale.Value());
    againAsWritten := heap.ReleaseAsWritten(stale);
  }

  /**
   * The worked example of the placement comment: in a fresh 1000-byte heap
   * a 100-byte block goes 62 bytes into the region.
   */
  method FreshHeapExample(heap: THeap, seg: SegmentVar, dataBase: U16)
    returns (initialised: bool, reserved: bool)
    requires heap.Valid()
    requires dataBase + 1000 <= 0x10000
    modifies heap, seg
    ensures initialised && reserved
    ensures seg.addr == dataBase + 62 && seg.size == 100
  {
    initialised := heap.Init(1000, true, dataBase, true);
    assert heap.Bits() == AllClear(1000);
    DocExample();
    PlacementIsFree(AllClear(1000), 100, 162, 62);
    FitsIffFreeWindow(AllClear(1000), 100);
    reserved := heap.Reserve(seg, 100);
  }
}

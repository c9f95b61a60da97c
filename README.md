# Bitmap heap: a verified model of `THeap`

This project models the core of the `me_Heap` module: a heap for a small
microcontroller that carves one contiguous data region into blocks and keeps
one occupancy bit per data byte in a separate bitmap. It models:

- the data region: its base address and size;
- the bitmap, as an array of bytes, least significant bit first;
- the ready flag and the never-used "last segment size" field;
- every operation of the class `THeap`: initialisation, the ready query,
  reserving and releasing a block, the destructor, and the internal helpers
  (reading and writing a bit, marking and testing a range, finding the next
  busy byte, and the golden-ratio placement search).

Indices and addresses are 16-bit (`U16`). Where the heap's arithmetic can
wrap around, the model writes the wrap out (`LastBitIndex`).

Files:

- `base_types.dfy`: the 16-bit integer type, the bit count of a byte, and an
  option type.
- `memory_segment.dfy`: a segment (start address and size) as a value, and
  the caller's segment object that `Reserve` and `Release` update in place.
- `bitmap.dfy`: the bits of the bitmap bytes (`Flatten`), the single-bit
  masks, and `Fill`, the reference for marking a range.
- `placement.dfy`: the placement policy, stated declaratively and as a
  functional scan. Maximal free runs, the best run (closest to the ideal
  length, leftmost on ties), where the block goes inside it, and the proof
  that the scan finds exactly that.
- `heap.dfy`: the class `THeap` with its fields and operations, each proved
  against the functions above.
- `scenarios.dfy`: client cycles: reserve then release, a stale
  one-byte release, and the worked example of the placement comment.

The heap is the class `Heap.THeap`. Its fields:

- `base`: the data region's address.
- `cap`: the data region's size.
- `bitmap`: an `array<bv8>`.
- `isReadyFlag`.
- `lastSegSize`.

The ghost function `Bits()` reads the first `cap` bits of the bitmap.
`Consistent()` states that the bitmap has exactly the bytes the region needs
and that the region stays inside 16-bit addresses. `SetRange`,
`RangeIsSolid`, `RangeIsSolidFull`, `GetNextBusyIndex`, `FindSpan`,
`GetInsertIndex`, `Reserve`, `Release` and `ReleaseAsWritten` require it.
`GetBit` and `SetBit` require only that the bit index lies inside the
bitmap. `Init`, `Destroy` and `IsReady` require `Valid()`: a ready heap is
consistent.

The placement search is specified by:

- `FindPlacement`: the placement the left-to-right scan reports.
- `IsPlacement`: the placement rule that the code and its comment
  (src/me_Heap.cpp:171-179) describe. The block goes into the
  maximal free run whose length is closest to 1.62 times the block, among
  runs long enough (the leftmost on ties). It ends `ideal` bytes into that
  run, or at the run's end when the run is shorter than that.

`FindPlacementIsBest` proves that the two agree. `FitsIffFreeWindow` proves
that the search fails only when no `n` consecutive bytes are free.

## Model

| member | source | states |
|---|---|---|
| `Bitmap.Mask` | src/me_Heap.cpp:331 | the eight single-bit masks are exactly `1 << offset` |
| `Bitmap.MaskReadsBit` | src/me_Heap.cpp:331-333 | testing a byte against the mask reads the bit at that offset |
| `Bitmap.MasksDisjoint` | src/me_Heap.cpp:331 | masks are non-zero and masks of different offsets share no bit |
| `Bitmap.MaskSetsBitAt` | src/me_Heap.cpp:362-363 | or-ing in a mask sets that bit and keeps every other bit |
| `Bitmap.MaskSetsBit` | src/me_Heap.cpp:362-363 | or-ing in a mask changes exactly one bit, to set |
| `Bitmap.MaskClearsBitAt` | src/me_Heap.cpp:357-358 | and-ing with the complemented mask clears that bit and keeps every other bit |
| `Bitmap.MaskClearsBit` | src/me_Heap.cpp:357-358 | and-ing with the complemented mask changes exactly one bit, to clear |
| `Bitmap.FlattenAt` | src/me_Heap.cpp:326-329 | bit `i` is bit `i % 8` of byte `i / 8` |
| `Bitmap.FlattenUpdate` | src/me_Heap.cpp:366 | writing one byte back changes only the bits of that byte |
| `Bitmap.FlattenSetBit` | src/me_Heap.cpp:343-367 | writing back a byte with one bit changed changes exactly bit `index` of the bitmap |
| `Bitmap.FillGrow` | src/me_Heap.cpp:280-281 | marking one more bit of a range is one single-bit update |
| `Bitmap.FillEmpty` | src/me_Heap.cpp:280 | marking an empty range changes nothing |
| `Bitmap.FillPrefix` | src/me_Heap.cpp:272-282 | marking a range commutes with keeping only the data bits |
| `Bitmap.FillRoundTrip` | src/me_Heap.cpp:106-159 | setting a clear range and then clearing it restores the bits exactly |
| `Heap.BitmapSize` | src/me_Heap.cpp:83 | the bitmap has one bit per data byte, rounded up to whole bytes and never a whole byte more |
| `Heap.LastBitIndex` | src/me_Heap.cpp:278 | the last index of a non-empty segment inside 16 bits is its end minus one (wrapping only when empty) |
| `Heap.ZeroSizeRangeNeverEnds` | src/me_Heap.cpp:278-281 | for the empty segment at 0 the last index wraps to 0xFFFF, and every 16-bit offset is at most that, so the marking loop's guard never fails |
| `Heap.ScanPass` | src/me_Heap.cpp:205-234 | one pass of the search loop, in its own variables, keeps what the scan still returns |
| `Heap.SearchOutcome` | src/me_Heap.cpp:236-249 | after the loop the best index is 0xFFFF exactly when there is no placement, and otherwise its corrected value is the placement |
| `Heap.THeap.constructor` | src/me_Heap.h:95-99 | a new heap owns nothing, is not ready, and its last segment size is 0 |
| `Heap.THeap.Destroy` | src/me_Heap.cpp:36-46 | the destructor only clears the ready flag |
| `Heap.THeap.Init` | src/me_Heap.cpp:53-93 | succeeds exactly when the data region is obtained, has at most 8191 bytes and the bitmap is obtained; ready exactly on success; the region is taken as soon as it is obtained, even when a later step fails; a new bitmap reads all clear |
| `Heap.THeap.IsReady` | src/me_Heap.cpp:98-101 | returns the ready flag; a ready heap is consistent |
| `Heap.THeap.GetBit` | src/me_Heap.cpp:322-336 | returns bit `index` of the bitmap |
| `Heap.THeap.SetBit` | src/me_Heap.cpp:343-367 | bit `index` becomes `value` and every other bit keeps its value |
| `Heap.THeap.SetRange` | src/me_Heap.cpp:272-282 | exactly the segment's bits become `value` |
| `Heap.THeap.IsOurs` | src/me_Heap.cpp:284-295 | a segment is ours exactly when it is non-empty and lies inside the data region |
| `Heap.THeap.RangeIsSolid` | src/me_Heap.cpp:302-315 | as written: true exactly when every bit of the segment but its last equals `value` |
| `Heap.THeap.RangeIsSolidFull` | src/me_Heap.cpp:297-315 | corrected: true exactly when every bit of the segment equals `value` |
| `Heap.THeap.GetNextBusyIndex` | src/me_Heap.cpp:255-267 | the first set bit at or after `start`, or the region size when there is none; `start` itself when it is past the end |
| `Heap.THeap.FindSpan` | src/me_Heap.cpp:191-250 | reports no index exactly when the scan finds no run, and otherwise the scan's placement |
| `Heap.THeap.GetInsertIndex` | src/me_Heap.cpp:166-186 | no index exactly when no maximal free run holds the block; otherwise the golden-ratio placement, which lies in clear bits |
| `Heap.THeap.Reserve` | src/me_Heap.cpp:106-127 | succeeds exactly when the block fits. On success the segment is the placed block as a data address, its bits were all clear and exactly they become set. On failure nothing changes |
| `Heap.THeap.Release` | src/me_Heap.cpp:132-159 | with the corrected solidity check: a segment not ours is refused untouched; otherwise succeeds exactly when all its bits are set, then clears exactly them and empties the segment; on refusal the segment keeps its bitmap index |
| `Heap.THeap.ReleaseAsWritten` | src/me_Heap.cpp:132-159 | as written: a segment not ours is refused untouched; otherwise succeeds exactly when all its bits but the last are set, then clears exactly its bits and empties the segment; on refusal the segment keeps its bitmap index |
| `Placement.IdealSize` | src/me_Heap.cpp:180 | the ideal run length is at least the block size |
| `Placement.Place` | src/me_Heap.cpp:238-242 | the placed block lies inside its run |
| `Placement.FreeRunLength` | src/me_Heap.cpp:205-234 | a maximal free run is determined by its start |
| `Placement.ScanStep` | src/me_Heap.cpp:207-209 | between a run boundary and the next busy byte lies the only maximal free run starting there |
| `Placement.ScanAdvance` | src/me_Heap.cpp:211-229 | one pass keeps the best run so far, or that no run qualified so far |
| `Placement.NextSet` | src/me_Heap.cpp:255-267 | the next set bit lies between the start and the end |
| `Placement.NextSetStopsAtSet` | src/me_Heap.cpp:262-264 | every bit before the next set bit is clear, and it is set unless it is the end |
| `Placement.NextSetIsFirst` | src/me_Heap.cpp:262-264 | any index with only clear bits before it and a set bit or the end at it is the next set bit |
| `Placement.ScanFromStep` | src/me_Heap.cpp:205-234 | one pass of the do-while loop advances the scan just past the next busy byte |
| `Placement.ScanFromIsBest` | src/me_Heap.cpp:205-234 | the scan returns the best run, and none exactly when no maximal free run is long enough |
| `Placement.ScanOutcome` | src/me_Heap.cpp:205-249 | the scan's run is non-empty, long enough, inside the bitmap, and its placement is the golden-ratio placement in clear bits |
| `Placement.FindPlacementIsBest` | src/me_Heap.cpp:191-250 | the reported placement is absent exactly when no run fits, and otherwise the golden-ratio placement in clear bits |
| `Placement.ScanDone` | src/me_Heap.cpp:234 | when the scan has passed the end, the best run so far is the best |
| `Placement.ScanDoneNone` | src/me_Heap.cpp:234 | when the scan has passed the end with no run found, no run fits |
| `Placement.ScanResult` | src/me_Heap.cpp:236-246 | a best run makes the block fit, and placing the block in it gives a free window |
| `Placement.BestFits` | src/me_Heap.cpp:236 | a best run makes the block fit |
| `Placement.BestIsUnique` | src/me_Heap.cpp:222 | the strict comparison makes the best run unique |
| `Placement.PlacementIsUnique` | src/me_Heap.cpp:236-246 | the placement of a block is unique |
| `Placement.PlacementIsFree` | src/me_Heap.cpp:238-242 | a placed block covers only clear bits |
| `Placement.ExtendToRun` | src/me_Heap.cpp:205-234 | every clear window lies inside a maximal free run |
| `Placement.FitsIffFreeWindow` | src/me_Heap.cpp:182-183 | the search fails exactly when no `n` consecutive bytes are free |
| `Placement.EmptyBitmapPlacement` | src/me_Heap.cpp:177-178 | in an empty heap the block ends `ideal` bytes into the region, or at its end |
| `Placement.DocExample` | src/me_Heap.cpp:177-180 | 100 bytes in an empty 1000-byte heap go to indices 62 through 161, and nowhere else |
| `Scenarios.ReserveThenRelease` | src/me_Heap.cpp:106-159 | reserve then release restores the bitmap exactly, and a stale copy of the segment is then refused |
| `Scenarios.StaleOneByteBlock` | src/me_Heap.cpp:302-315 | after a one-byte block is released, the as-written check still accepts its stale segment, and the full check refuses it |
| `Scenarios.DoubleReleaseOneByte` | src/me_Heap.cpp:132-159 | the heap's release, as written, accepts a stale copy of a released one-byte block a second time |
| `Scenarios.FreshHeapExample` | src/me_Heap.cpp:166-186 | in a fresh 1000-byte heap a 100-byte block is reserved 62 bytes into the region |

## Left out

- The memory facility behind the data region and the bitmap is not part of
  this model. That is the managed-memory class with its `ResizeTo` and
  `GetData`. `Init` takes its outcomes as parameters: whether each resize
  succeeded, and the data region's address.
- The model assumes that a newly obtained bitmap reads all clear. The
  heap's code does not clear it; whether it is clear depends on the
  memory facility.
- The data bytes themselves are not modelled; only their occupancy bits are.
- `IsInside` (in the memory-segment module) is not part of this model. It is
  modelled by what `IsOurs` relies on: a non-empty segment lying within the
  region.
- Placement.IdealSize: the heap computes `1.62 * size` in floating point and
  truncates it to 16 bits. The model uses `162 * size / 100`. The two agree
  whenever the result fits in 16 bits, and callers must keep it within 16
  bits.
- Heap.THeap.Reserve: requires a non-empty block. For size 0 the range loops
  compute the last index with a 16-bit wrap (`ZeroSizeRangeNeverEnds`), which
  at address 0 never ends. It also requires `IdealSize(size) <= 0xFFFF`,
  which excludes sizes 40455 to 65535. For those sizes the heap's
  conversion of `1.62 * size` to 16 bits is out of range, and no run could
  hold such a block anyway (a region has at most 8191 bytes).
- Heap.THeap.Release: uses the corrected solidity check, which examines every
  bit of the segment. The heap's code examines all bits but the last, so it
  accepts a segment whose bits are all set except the last, and any one-byte
  segment, and clears its range. That behaviour is modelled by
  `Heap.THeap.ReleaseAsWritten` and shown by `Scenarios.DoubleReleaseOneByte`.
- Heap.THeap.FindSpan: requires `minSize <= idealSize`. The only caller
  guarantees it, and otherwise the index correction would wrap.
- Reserve and Release do not check the ready flag in the heap's code. The
  model requires `Consistent()` instead, which a ready heap has.
- The global `Heap` instance, and switching the managed-memory allocators to
  it, are not modelled.
- The header declares `GetInsertIndex` with its two parameters in the
  opposite order to the definition. The model follows the definition.
- Behaviours the code does not have, and so the model does not either:
  - the code does not zero-fill a reserved block;
  - the code does not use the size of the last segment (`lastSegSize` is
    never read or written after its initial value 0);
  - the code does not give back the data region when the bitmap cannot be
    obtained;
  - `Reserve` does not check that the chosen bits are clear before marking
    them (the model proves they are, from the placement);
  - `Reserve(0)` does not return an empty segment: it searches for a run
    like any other size.

## Findings

| source | as written | input that shows it | evidently intended | confidence | as-written member | corrected member |
|---|---|---|---|---|---|---|
| src/me_Heap.cpp:308-312 | the solidity loop runs `Offset < EndBitIdx`, so the segment's last bit is never examined (a one-byte segment is examined not at all) | reserve one byte, release it, then release a stale copy of the same segment: all bits of the range but the last (none) are set, so the check passes and the double release is accepted | examine every bit through `EndBitIdx`, as the range marking does, so that a block is released only when all its bits are set | not executed | `Heap.THeap.RangeIsSolid` and `Heap.THeap.ReleaseAsWritten`, with `Scenarios.StaleOneByteBlock` and `Scenarios.DoubleReleaseOneByte` | `Heap.THeap.RangeIsSolidFull`, which `Heap.THeap.Release` uses |

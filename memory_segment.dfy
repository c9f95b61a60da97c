/**
 * The segment value exchanged between the heap and its callers: a start
 * address and a length. Only the part of the segment library the heap uses
 * is modelled: the value type, a caller-owned segment variable that the heap
 * updates through a pointer, and the containment test.
 */
module MemorySegment {
  import opened BaseTypes

  /** A segment of memory as a value: start address and size in bytes. */
  datatype Segment = Segment(addr: U16, size: U16)

  /** Addresses occupied by a segment, `[addr, addr + size)`. */
  function End(s: Segment): (e: int)
  {
    s.addr + s.size
  }

  /**
   * Containment of a segment in a region. An empty segment is never inside
   * anything; a non-empty one is inside when its address range is.
   */
  predicate IsInside(s: Segment, region: Segment)
  {
    s.size > 0 && region.addr <= s.addr && End(s) <= End(region)
  }

  /**
   * A segment variable owned by the caller. The heap's public operations
   * receive a pointer to it and overwrite its fields in place.
   */
  class SegmentVar {
    var addr: U16
    var size: U16

    constructor (addr: U16, size: U16)
      ensures this.addr == addr && this.size == size
    {
      this.addr := addr;
      this.size := size;
    }

    /** The segment currently held. */
    function Value(): (s: Segment)
      reads this
    {
      Segment(addr, size)
    }
  }
}

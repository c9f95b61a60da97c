/**
 * The occupancy bitmap as bits. Bit `i` of the bitmap lives in byte `i / 8`
 * at position `i % 8`, least significant bit first; bit set means the data
 * byte with the same index is in use.
 */
module Bitmap {
  import opened BaseTypes

  /** The single-bit mask of a byte, `1 << offset`. */
  function Mask(offset: nat): (m: bv8)
    requires offset < BitsInByte
    ensures m == 1 << offset
  {
    match offset
    case 0 => 0x01
    case 1 => 0x02
    case 2 => 0x04
    case 3 => 0x08
    case 4 => 0x10
    case 5 => 0x20
    case 6 => 0x40
    case _ => 0x80
  }

  /** The eight bits of a byte, least significant first. */
  function ByteBits(b: bv8): (bits: seq<bool>)
    ensures |bits| == BitsInByte
  {
    seq(BitsInByte, k requires 0 <= k < BitsInByte => b & Mask(k) != 0)
  }

  /** Testing a byte against a mask reads the bit at the mask's offset. */
  lemma MaskReadsBit(b: bv8, offset: nat)
    requires offset < BitsInByte
    ensures (b & Mask(offset) != 0) == ByteBits(b)[offset]
  {
  }

  /** Masks are non-zero, and masks of different offsets share no bit. */
  lemma MasksDisjoint(offset: nat, k: nat)
    requires offset < BitsInByte && k < BitsInByte
    ensures Mask(offset) != 0
    ensures offset != k ==> Mask(offset) & Mask(k) == 0
  {
  }

  /** Or-ing in a mask sets the bit at its offset and keeps bit `k` otherwise. */
  lemma MaskSetsBitAt(b: bv8, offset: nat, k: nat)
    requires offset < BitsInByte && k < BitsInByte
    ensures ByteBits(b | Mask(offset))[k] == (k == offset || ByteBits(b)[k])
  {
    MasksDisjoint(offset, k);
  }

  /** Or-ing in a mask sets exactly the bit at the mask's offset. */
  lemma MaskSetsBit(b: bv8, offset: nat)
    requires offset < BitsInByte
    ensures ByteBits(b | Mask(offset)) == ByteBits(b)[offset := true]
  {
    forall k: nat | k < BitsInByte {
      MaskSetsBitAt(b, offset, k);
    }
  }

  /** And-ing with a complemented mask clears the bit at its offset and keeps bit `k` otherwise. */
  lemma MaskClearsBitAt(b: bv8, offset: nat, k: nat)
    requires offset < BitsInByte && k < BitsInByte
    ensures ByteBits(b & !Mask(offset))[k] == (k != offset && ByteBits(b)[k])
  {
    MasksDisjoint(offset, k);
  }

  /** And-ing with a complemented mask clears exactly the bit at its offset. */
  lemma MaskClearsBit(b: bv8, offset: nat)
    requires offset < BitsInByte
    ensures ByteBits(b & !Mask(offset)) == ByteBits(b)[offset := false]
  {
    forall k: nat | k < BitsInByte {
      MaskClearsBitAt(b, offset, k);
    }
  }

  /** All bits of a byte sequence, byte by byte. */
  function Flatten(bytes: seq<bv8>): (bits: seq<bool>)
    ensures |bits| == BitsInByte * |bytes|
  {
    if bytes == [] then [] else ByteBits(bytes[0]) + Flatten(bytes[1..])
  }

  /** Bit `i` of the flattened bytes is bit `i % 8` of byte `i / 8`. */
  lemma {:induction false} FlattenAt(bytes: seq<bv8>, i: nat)
    requires i < BitsInByte * |bytes|
    ensures Flatten(bytes)[i] == ByteBits(bytes[i / BitsInByte])[i % BitsInByte]
  {
    var rest := bytes[1..];
    assert Flatten(bytes) == ByteBits(bytes[0]) + Flatten(rest);
    if i >= BitsInByte {
      FlattenAt(rest, i - BitsInByte);
      assert (i - BitsInByte) / BitsInByte == i / BitsInByte - 1;
      assert (i - BitsInByte) % BitsInByte == i % BitsInByte;
      assert rest[i / BitsInByte - 1] == bytes[i / BitsInByte];
    }
  }

  /**
   * Replacing one byte changes the flattened bits of that byte only: every
   * bit outside byte `j` keeps its value.
   */
  lemma FlattenUpdate(bytes: seq<bv8>, j: nat, b: bv8, i: nat)
    requires j < |bytes| && i < BitsInByte * |bytes|
    ensures Flatten(bytes[j := b])[i] ==
      if i / BitsInByte == j then ByteBits(b)[i % BitsInByte] else Flatten(bytes)[i]
  {
    FlattenAt(bytes, i);
    FlattenAt(bytes[j := b], i);
  }

  /**
   * Writing into the byte that holds bit `index` a value whose bits are the
   * old byte's with that one bit changed changes exactly bit `index`.
   */
  lemma FlattenSetBit(bytes: seq<bv8>, index: nat, b: bv8, v: bool)
    requires index < BitsInByte * |bytes|
    requires ByteBits(b) == ByteBits(bytes[index / BitsInByte])[index % BitsInByte := v]
    ensures Flatten(bytes[index / BitsInByte := b]) == Flatten(bytes)[index := v]
  {
    var after := bytes[index / BitsInByte := b];
    forall i | 0 <= i < BitsInByte * |bytes|
      ensures Flatten(after)[i] == Flatten(bytes)[index := v][i]
    {
      FlattenUpdate(bytes, index / BitsInByte, b, i);
      FlattenAt(bytes, i);
    }
  }

  /** `bits` with the run `[start, start + len)` forced to `v`. */
  function Fill(bits: seq<bool>, start: nat, len: nat, v: bool): (r: seq<bool>)
    ensures |r| == |bits|
  {
    seq(|bits|, k requires 0 <= k < |bits| => if start <= k < start + len then v else bits[k])
  }

  /** Growing a filled run by one bit is one more single-bit update. */
  lemma FillGrow(bits: seq<bool>, start: nat, len: nat, v: bool)
    requires start + len < |bits|
    ensures Fill(bits, start, len + 1, v) == Fill(bits, start, len, v)[start + len := v]
  {
  }

  /** Filling an empty run changes nothing. */
  lemma FillEmpty(bits: seq<bool>, start: nat, v: bool)
    ensures Fill(bits, start, 0, v) == bits
  {
  }

  /** Filling commutes with taking a prefix. */
  lemma FillPrefix(bits: seq<bool>, start: nat, len: nat, v: bool, n: nat)
    requires n <= |bits|
    ensures Fill(bits, start, len, v)[..n] == Fill(bits[..n], start, len, v)
  {
  }

  /**
   * Setting a run that was all clear and then clearing it gives back the
   * original bits, bit for bit.
   */
  lemma FillRoundTrip(bits: seq<bool>, start: nat, len: nat)
    requires start + len <= |bits|
    requires forall k :: start <= k < start + len ==> !bits[k]
    ensures Fill(Fill(bits, start, len, true), start, len, false) == bits
  {
  }
}

/** The byte cursor the reader reads from and stages into: a backing array
    with a read position and a limit (ParsableByteArray). */
module Buffers {
  import opened MhasTypes

  class ParsableByteArray {
    var data: array<byte>
    var position: nat
    var limit: nat

    ghost predicate Valid()
      reads this
    {
      position <= limit <= data.Length
    }

    function BytesLeft(): nat
      reads this
      requires Valid()
    {
      limit - position
    }

    /** A cursor over the whole of `d`. */
    constructor Wrap(d: array<byte>)
      ensures Valid() && data == d && position == 0 && limit == d.Length
    {
      data := d;
      position := 0;
      limit := d.Length;
    }

    /** A cursor over an empty backing array. */
    constructor Empty()
      ensures Valid() && fresh(data) && data.Length == 0 && position == 0 && limit == 0
    {
      data := new byte[0];
      position := 0;
      limit := 0;
    }

    /** ensureCapacity: the backing array is replaced by a larger copy when it
        is shorter than `capacity`; its contents are kept. */
    method EnsureCapacity(capacity: nat)
      requires Valid()
      modifies this
      ensures Valid() && position == old(position) && limit == old(limit)
      ensures data.Length == if capacity > old(data.Length) then capacity else old(data.Length)
      ensures data[..old(data.Length)] == old(data[..])
      ensures data == old(data) || fresh(data)
    {
      if capacity > data.Length {
        var grown := new byte[capacity];
        ArrayCopy(data, 0, grown, 0, data.Length);
        data := grown;
      }
    }
  }

  /** System.arraycopy: `n` bytes of `src` from `srcPos` land in `dst` from
      `dstPos`, read before any is written, so `src` and `dst` may be the same
      array and the ranges may overlap. */
  method ArrayCopy(src: array<byte>, srcPos: nat, dst: array<byte>, dstPos: nat, n: nat)
    requires srcPos + n <= src.Length && dstPos + n <= dst.Length
    modifies dst
    ensures dst[..] == Splice(old(dst[..]), dstPos, old(src[srcPos..srcPos + n]))
  {
    ghost var piece := src[srcPos..srcPos + n];
    ghost var before := dst[..];
    forall i | dstPos <= i < dstPos + n {
      dst[i] := src[srcPos + (i - dstPos)];
    }
    SpliceIndex(before, dstPos, piece);
    assert forall i :: 0 <= i < dst.Length ==> dst[i] == Splice(before, dstPos, piece)[i];
    assert dst[..] == Splice(before, dstPos, piece);
  }
}

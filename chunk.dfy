/** The chunk record of the memory manager: a span of the buffer, free or occupied, that reads
    and writes its own bytes. */
module Chunks {
  import opened Errors
  import opened Bytes
  import opened Layout

  class Chunk {
    var offset: nat
    var size: nat
    var free: bool

    /** A chunk over `offset .. offset + size`; without a `free` argument the chunk is free. */
    constructor (offset: nat, size: nat, free: bool := true)
      ensures this.offset == offset && this.size == size && this.free == free
    {
      this.offset := offset;
      this.size := size;
      this.free := free;
    }

    /** The chunk as a value. */
    function AsRegion(): Region
      reads this
    {
      Region(offset, size, free)
    }

    /** The chunk lies inside `mem`. */
    predicate FitsIn(mem: array<byte>)
      reads this
    {
      offset + size <= mem.Length
    }

    /** The chunk's bytes `mem[offset:offset + size]`, sliced as Python does: a chunk that runs
        past the end of `mem` reads exactly the bytes from `offset` up to the end. */
    function ReadFrom(mem: array<byte>): (r: seq<byte>)
      reads this, mem
      ensures FitsIn(mem) ==> r == mem[offset..offset + size]
      ensures |r| <= size
      ensures |r| == if FitsIn(mem) then size else if offset < mem.Length then mem.Length - offset else 0
      ensures forall i :: 0 <= i < |r| ==> offset + i < mem.Length && r[i] == mem[offset + i]
    {
      Slice(mem[..], offset, offset + size)
    }

    /** Writes `value` over the chunk's span. A value longer than the chunk is refused with
        InvalidWrite. Otherwise the bytes go through a slice assignment on a memoryview, which
        writes only a value exactly as long as the clamped span and raises ValueError for any
        other; for a chunk inside `mem` the clamped span is the whole chunk. */
    method WriteTo(mem: array<byte>, value: seq<byte>) returns (r: Outcome)
      modifies mem
      ensures |value| > size ==> r == Fail(InvalidWrite)
      ensures FitsIn(mem) && |value| == size ==> r == Pass && mem[..] == Splice(old(mem[..]), offset, value)
      ensures FitsIn(mem) && |value| == size ==> ReadFrom(mem) == value
      ensures FitsIn(mem) && |value| < size ==> r == Fail(ValueError)
      ensures |value| <= size ==>
        r == (if |Slice(old(mem[..]), offset, offset + size)| == |value| then Pass else Fail(ValueError))
      ensures r.Pass? && value != [] ==> offset + |value| <= mem.Length && mem[..] == Splice(old(mem[..]), offset, value)
      ensures r.Fail? || value == [] ==> mem[..] == old(mem[..])
      ensures forall i :: 0 <= i < mem.Length && (i < offset || offset + size <= i) ==> mem[i] == old(mem[i])
    {
      if |value| > size {
        return Fail(InvalidWrite);
      }
      r := AssignSlice(mem, offset, offset + size, value);
    }
  }

  /** A chunk of positive size fits in `mem` exactly when it reads all of its bytes. */
  lemma {:induction false} FitsInReadsWhole(c: Chunk, mem: array<byte>)
    requires c.size > 0
    ensures c.FitsIn(mem) <==> |c.ReadFrom(mem)| == c.size
  {
  }
}

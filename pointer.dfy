/** The pointer handle: a span `loc .. loc + size` of a buffer, checked against the buffer's
    length once, when it is made. */
module Pointers {
  import opened Errors
  import opened Bytes

  class Pointer {
    const view: array<byte>
    const loc: nat
    const size: nat

    /** The span lies inside the buffer. */
    predicate Valid()
    {
      loc + size <= view.Length
    }

    constructor (view: array<byte>, loc: nat, size: nat)
      requires loc + size <= view.Length
      ensures this.view == view && this.loc == loc && this.size == size
      ensures Valid()
    {
      this.view := view;
      this.loc := loc;
      this.size := size;
    }

    /** Makes a pointer, or fails with InvalidPointer when the span runs past the buffer. */
    static method Create(view: array<byte>, loc: nat, size: nat) returns (r: Result<Pointer>)
      ensures r.Failure? <==> view.Length < loc + size
      ensures r.Failure? ==> r.error == InvalidPointer
      ensures r.Success? ==> fresh(r.value) && r.value.view == view && r.value.loc == loc && r.value.size == size
      ensures r.Success? ==> r.value.Valid()
    {
      if view.Length < loc + size {
        return Failure(InvalidPointer);
      }
      var p := new Pointer(view, loc, size);
      r := Success(p);
    }

    /** The bytes of the span. */
    function Read(): (r: seq<byte>)
      reads view
      ensures Valid() ==> r == view[loc..loc + size]
    {
      Slice(view[..], loc, loc + size)
    }

    /** Writes `value` over the span: a longer value is refused with InvalidWrite, a shorter one
        raises ValueError from the memoryview, and a value of exactly `size` bytes is written. */
    method Write(value: seq<byte>) returns (r: Outcome)
      modifies view
      ensures |value| > size ==> r == Fail(InvalidWrite)
      ensures Valid() && |value| == size ==> r == Pass && view[..] == Splice(old(view[..]), loc, value)
      ensures Valid() && |value| == size ==> Read() == value
      ensures Valid() && |value| < size ==> r == Fail(ValueError)
      ensures r.Fail? ==> view[..] == old(view[..])
      ensures forall i :: 0 <= i < view.Length && (i < loc || loc + size <= i) ==> view[i] == old(view[i])
    {
      if |value| > size {
        return Fail(InvalidWrite);
      }
      r := AssignSlice(view, loc, loc + size, value);
    }
  }
}

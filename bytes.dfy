/** Byte sequences, and the two Python slice operations the allocators apply to buffers. */
module Bytes {
  import opened Errors

  type byte = bv8

  function Min(a: nat, b: nat): nat { if a <= b then a else b }

  /** Python's `s[lo:hi]` for non-negative bounds: the end is clamped to the length, and the
      slice is empty when the start is not below the clamped end. It never fails. */
  function Slice(s: seq<byte>, lo: nat, hi: nat): (r: seq<byte>)
    ensures lo <= hi <= |s| ==> r == s[lo..hi]
    ensures lo < hi && |s| < hi ==> |r| < hi - lo
    ensures lo < hi && |s| < hi && lo < |s| ==> |r| == |s| - lo
    ensures hi <= lo || |s| <= lo ==> r == []
    ensures forall i :: 0 <= i < |r| ==> lo + i < |s| && r[i] == s[lo + i]
  {
    var end := Min(hi, |s|);
    if lo < end then s[lo..end] else []
  }

  /** The sequence `s` with its bytes `at .. at + |v|` replaced by `v`. */
  function Splice(s: seq<byte>, at: nat, v: seq<byte>): (r: seq<byte>)
    requires at + |v| <= |s|
    ensures |r| == |s|
    ensures r[at..at + |v|] == v
    ensures forall i :: 0 <= i < |s| && (i < at || at + |v| <= i) ==> r[i] == s[i]
  {
    s[..at] + v + s[at + |v|..]
  }

  /** Python's `mem[lo:hi] = v` on a memoryview. A memoryview cannot change its length, so the
      assignment succeeds only when `v` has exactly as many bytes as the clamped slice; otherwise
      it raises ValueError and writes nothing. */
  method AssignSlice(mem: array<byte>, lo: nat, hi: nat, v: seq<byte>) returns (r: Outcome)
    modifies mem
    ensures r == (if |Slice(old(mem[..]), lo, hi)| == |v| then Pass else Fail(ValueError))
    ensures r.Pass? && v != [] ==> lo + |v| <= mem.Length && mem[..] == Splice(old(mem[..]), lo, v)
    ensures r.Fail? || v == [] ==> mem[..] == old(mem[..])
  {
    if |Slice(mem[..], lo, hi)| != |v| {
      return Fail(ValueError);
    }
    forall k | 0 <= k < |v| {
      mem[lo + k] := v[k];
    }
    r := Pass;
  }

  /** Reading back the span just written gives the written value. */
  lemma {:induction false} ReadBackSplice(s: seq<byte>, at: nat, v: seq<byte>)
    requires at + |v| <= |s|
    ensures Slice(Splice(s, at, v), at, at + |v|) == v
  {
  }
}

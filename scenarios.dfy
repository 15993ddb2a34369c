/** The repository's test scenarios, and the allocator's join defect, stated on the
    specification functions that the allocators' methods are proved against. */
module Scenarios {
  import opened Errors
  import opened Layout
  import opened Placement
  import opened Coalescing
  import opened Joining
  import opened Bytes
  import opened Compaction
  import opened Pointers
  import opened MemoryManager
  import opened Allocators

  /** The earlier allocator over ten bytes: five bytes are taken, ten cannot be; once the five
      are freed the join restores the whole buffer, ten bytes are taken, and one more is not. */
  lemma AllocatorFreeing()
    ensures var rs0 := [Region(0, 10, true)];
      && FirstFit(rs0, 5) == Some(0)
      && Place(rs0, 0, 5) == [Region(0, 5, false), Region(5, 5, true)]
      && FirstFit(Place(rs0, 0, 5), 10).None?
      && FirstMatch(Place(rs0, 0, 5), 0, 5) == Some(0)
      && AllocatorJoined(SetFree(Place(rs0, 0, 5), 0)) == rs0
      && FirstFit(Place(rs0, 0, 10), 1).None?
  {
    var rs1 := [Region(0, 5, false), Region(5, 5, true)];
    assert Place([Region(0, 10, true)], 0, 5) == rs1;
    var freed := SetFree(rs1, 0);
    assert freed == [Region(0, 5, true), Region(5, 5, true)];
    assert RunEnd(freed, 0) == 2;
    assert Range(0, 2) == [0, 1];
    assert FreeRuns(freed, 2) == [];
    assert FreeRuns(freed, 0) == [[0, 1]];
    assert AllocatorGroups(freed) == [[0, 1]];
  }

  /** The memory manager over ten bytes: five bytes are taken and ten cannot be; freeing the
      five joins the two free chunks into the whole buffer, so ten bytes are taken and one
      more is not. Over an empty buffer nothing can be allocated. */
  lemma ManagerFreeing()
    ensures FirstFit([Region(0, 0, true)], 1).None?
    ensures var rs1 := Place([Region(0, 10, true)], 0, 5);
      && rs1 == [Region(0, 5, false), Region(5, 5, true)]
      && FirstFit(rs1, 10).None?
      && Coalesce(rs1[0 := rs1[0].(free := true)]) == [Region(0, 10, true)]
      && FirstFit(Place([Region(0, 10, true)], 0, 10), 1).None?
  {
    var rs1 := [Region(0, 5, false), Region(5, 5, true)];
    assert Place([Region(0, 10, true)], 0, 5) == rs1;
    var freed := rs1[0 := rs1[0].(free := true)];
    assert freed == [Region(0, 5, true), Region(5, 5, true)];
    assert RunEnd(freed, 0) == 2;
    assert CoalesceFrom(freed, 2) == [];
    assert freed[0..2] == freed;
    assert freed[1..][1..] == [];
    assert SumSizes(freed[1..]) == 5;
  }

  /** The join defect: with the first five bytes occupied and the last five free, the
      allocator's group list holds one empty group, where the free runs hold region 1; the
      join therefore stops with IndexError. */
  lemma LoneFreeChunk()
    ensures var rs := [Region(0, 5, false), Region(5, 5, true)];
      && FreeRuns(rs, 0) == [[1]]
      && AllocatorGroups(rs) == [[]]
      && FirstEmpty(AllocatorGroups(rs)) < |AllocatorGroups(rs)|
  {
    var rs := [Region(0, 5, false), Region(5, 5, true)];
    assert RunEnd(rs, 1) == 2;
    assert Range(1, 2) == [1];
    assert FreeRuns(rs, 2) == [];
    assert FreeRuns(rs, 1) == [[1]];
    assert Range(1, 2)[1..] == [];
  }

  /** The join defect the other way round: with three bytes, three more and the last four
      allocated as two chunks and a rest, freeing the middle chunk opens a group after an
      occupied chunk, so the two free neighbours stay apart and seven bytes cannot be
      allocated; freeing the middle chunk a second time passes and changes nothing. */
  lemma AllocatorMissedJoin()
    ensures var rs := Place(Place([Region(0, 10, true)], 0, 3), 1, 3);
      && rs == [Region(0, 3, false), Region(3, 3, false), Region(6, 4, true)]
      && FirstMatch(rs, 3, 3) == Some(1)
      && AllocatorGroups(SetFree(rs, 1)) == [[2]]
      && AllocatorJoined(SetFree(rs, 1)) == SetFree(rs, 1)
      && FirstFit(SetFree(rs, 1), 7).None?
      && FirstMatch(SetFree(rs, 1), 3, 3) == Some(1)
      && SetFree(SetFree(rs, 1), 1) == SetFree(rs, 1)
  {
    var rs := [Region(0, 3, false), Region(3, 3, false), Region(6, 4, true)];
    assert Place([Region(0, 10, true)], 0, 3) == [Region(0, 3, false), Region(3, 7, true)];
    assert Place([Region(0, 3, false), Region(3, 7, true)], 1, 3) == rs;
    var freed := SetFree(rs, 1);
    assert freed == [Region(0, 3, false), Region(3, 3, true), Region(6, 4, true)];
    assert RunEnd(freed, 1) == 3;
    assert Range(1, 3) == [1, 2];
    assert FreeRuns(freed, 3) == [];
    assert FreeRuns(freed, 1) == [[1, 2]];
    assert FreeRuns(freed, 0) == [[1, 2]];
    assert AllocatorGroups(freed) == [[2]];
  }

  /** The memory manager over ten bytes takes ten requests of one byte, each at the free chunk
      after the ones taken, and then frees chunks 1, 3, 5, 7 and 9, none of which has a free
      neighbour: the list becomes ten one-byte chunks with every other one free. No two free
      bytes are neighbours, the free chunks cannot be joined, and two bytes cannot be
      allocated. */
  lemma ManagerFragmentation()
    ensures Filled(0) == [Region(0, 10, true)]
    ensures forall k: nat :: k < 10 ==> FirstFit(Filled(k), 1) == Some(k) && Place(Filled(k), k, 1) == Filled(k + 1)
    ensures Filled(10) == Holed(1)
    ensures forall m: nat :: m < 10 && m % 2 == 1 ==>
      !Holed(m)[m].free && Coalesce(Holed(m)[m := Holed(m)[m].(free := true)]) == Holed(m + 2)
    ensures Holed(11) == Alternating()
    ensures Partition(Alternating(), 10)
    ensures FreeBytes(Alternating()) == 5
    ensures Coalesce(Alternating()) == Alternating()
    ensures FirstFit(Alternating(), 2).None?
  {
    FillChain();
    HoleChain();
    AlternatingTiles(0);
    AlternatingFreeBytes(0);
    AlternatingIdle();
    AlternatingNoFit();
  }

  /** The ten requests of one byte, from the single free chunk to ten taken chunks. */
  lemma FillChain()
    ensures Filled(0) == [Region(0, 10, true)]
    ensures forall k: nat :: k < 10 ==> FirstFit(Filled(k), 1) == Some(k) && Place(Filled(k), k, 1) == Filled(k + 1)
    ensures Filled(10) == Holed(1)
  {
    assert Filled(0) == [Region(0, 10, true)];
    forall k: nat | k < 10
      ensures FirstFit(Filled(k), 1) == Some(k) && Place(Filled(k), k, 1) == Filled(k + 1)
    {
      FillStep(k);
    }
  }

  /** The frees of chunks 1, 3, 5, 7 and 9, ending in the alternating list. */
  lemma HoleChain()
    ensures forall m: nat :: m < 10 && m % 2 == 1 ==>
      !Holed(m)[m].free && Coalesce(Holed(m)[m := Holed(m)[m].(free := true)]) == Holed(m + 2)
    ensures Holed(11) == Alternating()
  {
    forall m: nat | m < 10 && m % 2 == 1
      ensures !Holed(m)[m].free && Coalesce(Holed(m)[m := Holed(m)[m].(free := true)]) == Holed(m + 2)
    {
      HoleStep(m);
    }
  }

  /** The list after `k` of the ten requests of one byte: chunks `0 .. k - 1` hold one byte
      each, and the rest of the buffer is one free chunk. */
  function Filled(k: nat): seq<Region>
    requires k <= 10
  {
    seq(k, i requires 0 <= i => Region(i, 1, false)) + if k < 10 then [Region(k, 10 - k, true)] else []
  }

  /** A request of one byte takes the free chunk after the ones already taken. */
  lemma FillStep(k: nat)
    requires k < 10
    ensures FirstFit(Filled(k), 1) == Some(k)
    ensures Place(Filled(k), k, 1) == Filled(k + 1)
  {
    var rs := Filled(k);
    assert |rs| == k + 1 && rs[k] == Region(k, 10 - k, true);
    assert forall j :: 0 <= j < k ==> !Fits(rs[j], 1);
  }

  /** The ten one-byte chunks once the odd chunks below `m` are freed. */
  function Holed(m: nat): seq<Region>
    requires m <= 11
  {
    seq(10, i requires 0 <= i => Region(i, 1, i % 2 == 1 && i < m))
  }

  /** Freeing the odd chunk `m` leaves no two free neighbours, so the join changes nothing. */
  lemma HoleStep(m: nat)
    requires m < 10 && m % 2 == 1
    ensures !Holed(m)[m].free
    ensures Coalesce(Holed(m)[m := Holed(m)[m].(free := true)]) == Holed(m + 2)
  {
    var rs := Holed(m + 2);
    assert Holed(m)[m := Holed(m)[m].(free := true)] == rs;
    assert NoAdjacentFree(rs);
    CoalesceFromIdle(rs, 0);
    assert rs[0..] == rs;
  }

  lemma AlternatingIdle()
    ensures Coalesce(Alternating()) == Alternating()
  {
    var rs := Alternating();
    assert NoAdjacentFree(rs);
    CoalesceFromIdle(rs, 0);
  }

  lemma AlternatingNoFit()
    ensures FirstFit(Alternating(), 2).None?
  {
    var rs := Alternating();
    assert forall j :: 0 <= j < |rs| ==> !Fits(rs[j], 2);
  }

  lemma {:induction false} AlternatingTiles(i: nat)
    requires i <= 10
    ensures Tiles(Alternating()[i..], i, 10)
    decreases 10 - i
  {
    var rs := Alternating();
    if i < 10 {
      AlternatingTiles(i + 1);
      assert rs[i..][1..] == rs[i + 1..];
    }
  }

  lemma {:induction false} AlternatingFreeBytes(i: nat)
    requires i <= 10
    ensures FreeBytes(Alternating()[i..]) == (11 - i) / 2
    decreases 10 - i
  {
    var rs := Alternating();
    if i < 10 {
      AlternatingFreeBytes(i + 1);
      assert rs[i..][1..] == rs[i + 1..];
    }
  }

  /** Compaction of the fragmented list, whose occupied bytes hold "a": the five occupied
      chunks slide to the front, so the buffer starts with "aaaaa", one free chunk holds the
      last five bytes, and five bytes allocated there and written with "value" complete the
      buffer as "aaaaavalue". */
  lemma ManagerDefrag()
    ensures Painted(0) == seq(10, _ => 0)
    ensures forall m: nat :: m < 10 && m % 2 == 0 ==>
      Alternating()[m] == Region(m, 1, false) && Splice(Painted(m), m, [0x61]) == Painted(m + 2)
    ensures Painted(10) == Stripes()
    ensures Compact(Alternating(), 10) == Compacted()
    ensures CompactBytes(Alternating(), Stripes()) == Compressed()
    ensures Compressed()[..5] == [0x61, 0x61, 0x61, 0x61, 0x61]
    ensures FirstFit(Compacted(), 5) == Some(5) && Place(Compacted(), 5, 5)[5] == Region(5, 5, false)
    ensures Splice(Compressed(), 5, [0x76, 0x61, 0x6c, 0x75, 0x65])
      == [0x61, 0x61, 0x61, 0x61, 0x61, 0x76, 0x61, 0x6c, 0x75, 0x65]
  {
    PaintChain();
    AlternatingCompacts();
    StripesCompact();
    CompactedFits();
    ValueWritten();
  }

  /** The ten zero bytes once "a" is written through each even chunk below `m`. */
  function Painted(m: nat): seq<byte>
    requires m <= 10
  {
    seq(10, i => if i % 2 == 0 && i < m then 0x61 else 0)
  }

  /** The writes of "a" through the even chunks, from ten zero bytes to the striped buffer. */
  lemma PaintChain()
    ensures Painted(0) == seq(10, _ => 0)
    ensures forall m: nat :: m < 10 && m % 2 == 0 ==>
      Alternating()[m] == Region(m, 1, false) && Splice(Painted(m), m, [0x61]) == Painted(m + 2)
    ensures Painted(10) == Stripes()
  {
    forall m: nat | m < 10 && m % 2 == 0
      ensures Splice(Painted(m), m, [0x61]) == Painted(m + 2)
    {
      PaintStep(m);
    }
  }

  /** Writing "a" through the even chunk `m`, the one-byte span at offset `m`. */
  lemma PaintStep(m: nat)
    requires m < 10 && m % 2 == 0
    ensures Splice(Painted(m), m, [0x61]) == Painted(m + 2)
  {
    var w := Splice(Painted(m), m, [0x61]);
    assert w[m] == w[m..m + 1][0] == 0x61;
  }

  lemma ValueWritten()
    ensures Compressed()[..5] == [0x61, 0x61, 0x61, 0x61, 0x61]
    ensures Splice(Compressed(), 5, [0x76, 0x61, 0x6c, 0x75, 0x65])
      == [0x61, 0x61, 0x61, 0x61, 0x61, 0x76, 0x61, 0x6c, 0x75, 0x65]
  {
    var c := Compressed();
    assert c[..5] == [0x61, 0x61, 0x61, 0x61, 0x61];
    assert c[..5] + [0x76, 0x61, 0x6c, 0x75, 0x65] + c[10..] == [0x61, 0x61, 0x61, 0x61, 0x61, 0x76, 0x61, 0x6c, 0x75, 0x65];
  }

  /** The buffer after compaction of the fragmented list: the five "a" bytes, then the last
      five bytes as they were. */
  function Compressed(): (mem: seq<byte>)
    ensures |mem| == 10
  {
    [0x61, 0x61, 0x61, 0x61, 0x61] + Stripes()[5..]
  }

  lemma StripesCompact()
    ensures CompactBytes(Alternating(), Stripes()) == Compressed()
  {
    AlternatingLive();
    StripesGather();
    LivePacked();
  }

  /** The chunk list after compaction of the fragmented one. */
  function Compacted(): seq<Region>
  {
    [Region(0, 1, false), Region(1, 1, false), Region(2, 1, false), Region(3, 1, false), Region(4, 1, false), Region(5, 5, true)]
  }

  lemma AlternatingCompacts()
    ensures Compact(Alternating(), 10) == Compacted()
  {
    AlternatingLive();
    LivePacked();
  }

  lemma CompactedFits()
    ensures FirstFit(Compacted(), 5) == Some(5) && Place(Compacted(), 5, 5)[5] == Region(5, 5, false)
  {
    var c := Compacted();
    assert FirstFit(c[5..], 5) == Some(0);
    assert FirstFit(c[4..], 5) == Some(1);
    assert FirstFit(c[3..], 5) == Some(2);
    assert FirstFit(c[2..], 5) == Some(3);
    assert FirstFit(c[1..], 5) == Some(4);
  }

  /** The occupied chunks of the fragmented list: the even bytes. */
  function Live(): seq<Region>
  {
    [Region(0, 1, false), Region(2, 1, false), Region(4, 1, false), Region(6, 1, false), Region(8, 1, false)]
  }

  lemma LivePacked()
    ensures SumSizes(Live()) == 5
    ensures Pack(Live()) == Compacted()[..5]
  {
    var o := Live();
    UnitSizes(o);
    UnitSizes(o[..1]);
    UnitSizes(o[..2]);
    UnitSizes(o[..3]);
    UnitSizes(o[..4]);
    assert Pack(o[..1]) == [Region(0, 1, false)] by { assert o[..1][..0] == []; }
    assert Pack(o[..2]) == [Region(0, 1, false), Region(1, 1, false)] by { assert o[..2][..1] == o[..1]; }
    assert Pack(o[..3]) == [Region(0, 1, false), Region(1, 1, false), Region(2, 1, false)] by { assert o[..3][..2] == o[..2]; }
    assert Pack(o[..4]) == [Region(0, 1, false), Region(1, 1, false), Region(2, 1, false), Region(3, 1, false)]
      by { assert o[..4][..3] == o[..3]; }
    assert o[..4] == o[..|o| - 1];
  }

  /** Regions of one byte each sum to their number. */
  lemma {:induction false} UnitSizes(os: seq<Region>)
    requires forall i :: 0 <= i < |os| ==> os[i].size == 1
    ensures SumSizes(os) == |os|
  {
    if os != [] {
      UnitSizes(os[1..]);
    }
  }

  lemma AlternatingLive()
    ensures Occupied(Alternating()) == Live()
  {
    var rs, o := Alternating(), Live();
    assert Occupied(rs[10..]) == [];
    assert Occupied(rs[8..]) == o[4..];
    assert Occupied(rs[6..]) == o[3..];
    assert Occupied(rs[4..]) == o[2..];
    assert Occupied(rs[2..]) == o[1..];
  }

  lemma StripesGather()
    ensures Gather(Live(), Stripes()) == [0x61, 0x61, 0x61, 0x61, 0x61]
  {
    GatherEven(5);
    assert Live()[..5] == Live();
  }

  /** The first `n` occupied chunks of the fragmented list gather `n` bytes `a`. */
  lemma {:induction false} GatherEven(n: nat)
    requires 1 <= n <= 5
    ensures Gather(Live()[..n], Stripes()) == seq(n, _ => 0x61)
  {
    var o, mem := Live(), Stripes();
    var p := o[..n];
    if n == 1 {
      assert p[..0] == [];
    } else {
      GatherEven(n - 1);
      assert p[..n - 1] == o[..n - 1];
    }
    StripeSlice(n - 1);
    assert p[n - 1] == o[n - 1];
    assert Gather(p, mem) == seq(n - 1, _ => 0x61) + [0x61];
  }

  /** The occupied chunk `k` of the fragmented list reads the single byte `a`. */
  lemma StripeSlice(k: nat)
    requires k < 5
    ensures Live()[k] == Region(2 * k, 1, false)
    ensures Slice(Stripes(), 2 * k, 2 * k + 1) == [0x61]
  {
    LiveAt(k);
    StripeAt(k);
  }

  /** Byte `2k` of the striped buffer is `a`. */
  lemma StripeAt(k: nat)
    requires k < 5
    ensures Stripes()[2 * k] == 0x61
  {
    assert (2 * k) % 2 == 0;
  }

  /** The occupied chunk `k` of the fragmented list is byte `2k`. */
  lemma LiveAt(k: nat)
    requires k < 5
    ensures Live()[k] == Region(2 * k, 1, false)
  {
  }


  /** A buffer of ten bytes, "a" at the even offsets and zero at the odd ones. */
  function Stripes(): (mem: seq<byte>)
    ensures |mem| == 10 && forall i :: 0 <= i < 10 ==> mem[i] == if i % 2 == 0 then 0x61 else 0
  {
    seq(10, i requires 0 <= i => if i % 2 == 0 then 0x61 else 0)
  }

  /** The fragmented chunk list: one-byte chunks, the odd ones free. */
  function Alternating(): (rs: seq<Region>)
    ensures |rs| == 10 && forall i :: 0 <= i < 10 ==> rs[i] == Region(i, 1, i % 2 == 1)
  {
    seq(10, i requires 0 <= i => Region(i, 1, i % 2 == 1))
  }

  /** Pointers over the seven bytes of "bananas": spans that run past the end are refused,
      and the span at 4 of 3 bytes reads "nas". */
  method PointerSpans() {
    var mem := new byte[7][0x62, 0x61, 0x6e, 0x61, 0x6e, 0x61, 0x73];
    var p := Pointer.Create(mem, 10, 0);
    assert p == Failure(InvalidPointer);
    p := Pointer.Create(mem, 0, 10);
    assert p == Failure(InvalidPointer);
    p := Pointer.Create(mem, 5, 3);
    assert p == Failure(InvalidPointer);
    p := Pointer.Create(mem, 4, 3);
    assert p.Success?;
    assert p.value.Read() == [0x6e, 0x61, 0x73];
  }

  /** The earlier allocator over ten zero bytes: five bytes are taken and read as zeros, and
      "hello" written through the pointer reads back. */
  method AllocatorReadWrite() {
    var buffer := new byte[10](_ => 0);
    var a := new BufferAllocator(buffer);
    var p := a.Alloc(5);
    assert FirstFit([Region(0, 10, true)], 5) == Some(0);
    assert p.Success?;
    assert p.value.Read() == [0, 0, 0, 0, 0];
    var hello := [0x68, 0x65, 0x6c, 0x6c, 0x6f];
    var w := p.value.Write(hello);
    assert w == Pass && p.value.Read() == hello;
  }

  /** The memory manager refuses to free a handle twice. */
  method ManagerDoubleFree() {
    var buffer := new byte[10];
    var m := new BufferMemoryManager(buffer);
    assert m.chunks == [m.chunks[0]];
    var p := m.Alloc(5);
    assert FirstFit([Region(0, 10, true)], 5) == Some(0);
    assert p.Success?;
    assert m.chunks[0] == p.value.chunk && !m.chunks[0].free;
    assert m.chunks[0] in m.chunks && m.chunks[1] in m.chunks;
    var first, second := FreeTwice(m, p.value);
    assert first == Pass && second == Fail(InvalidPointer);
  }

  /** A handle on an occupied chunk is freed once, and refused the second time. */
  method FreeTwice(m: BufferMemoryManager, p: ChunkPointer) returns (first: Outcome, second: Outcome)
    requires m.Valid() && p.chunk in m.chunks && !p.chunk.free
    modifies m, m.chunks
    ensures first == Pass && second == Fail(InvalidPointer)
  {
    first := m.Free(p);
    second := m.Free(p);
  }

  /** The earlier allocator raises IndexError when the last of two five-byte chunks is freed:
      its group is opened empty after the occupied first chunk. */
  method AllocatorLoneFree() {
    var buffer := new byte[10];
    var a := new BufferAllocator(buffer);
    assert a.chunks == [a.chunks[0]];
    var p := a.Alloc(5);
    assert FirstFit([Region(0, 10, true)], 5) == Some(0);
    assert p.Success?;
    assert a.regions == [Region(0, 5, false), Region(5, 5, true)];
    assert a.chunks[0] in a.chunks && a.chunks[1] in a.chunks;
    assert FirstFit(a.regions, 5) == Some(1) by {
      assert a.regions[1..] == [Region(5, 5, true)];
    }
    var q := a.Alloc(5);
    assert q.Success? && q.value.loc == 5;
    assert a.regions == [Region(0, 5, false), Region(5, 5, false)];
    assert a.chunks[0] in a.chunks && a.chunks[1] in a.chunks;
    var r := FreeLast(a, q.value);
    assert r == Fail(IndexError);
  }

  /** Freeing the second of two occupied five-byte chunks stops the join with IndexError;
      the second chunk is left free and the list still partitions the buffer. */
  method FreeLast(a: BufferAllocator, q: Pointer) returns (r: Outcome)
    requires a.Valid() && a.regions == [Region(0, 5, false), Region(5, 5, false)]
    requires q.loc == 5 && q.size == 5
    modifies a, a.chunks
    ensures r == Fail(IndexError)
    ensures a.Valid() && a.regions == [Region(0, 5, false), Region(5, 5, true)]
  {
    assert FirstMatch(a.regions, 5, 5) == Some(1) by {
      assert a.regions[1..] == [Region(5, 5, false)];
    }
    LoneFreeChunk();
    assert SetFree(a.regions, 1) == [Region(0, 5, false), Region(5, 5, true)];
    r := a.Free(q);
    AllocatorJoinStops([Region(0, 5, false), Region(5, 5, true)], 10);
  }
}

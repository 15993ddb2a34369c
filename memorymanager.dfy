/** The memory manager: a buffer and the list of chunks that partitions it. */
module MemoryManager {
  import opened Errors
  import opened Bytes
  import opened Layout
  import opened Placement
  import opened Coalescing
  import opened Joining
  import opened Compaction
  import opened Chunks
  import opened ChunkLists

  /** The handle the memory manager hands out: the buffer and the chunk object itself, so that
      the handle follows the chunk when compaction moves it. */
  class ChunkPointer {
    const view: array<byte>
    const chunk: Chunk

    constructor (view: array<byte>, chunk: Chunk)
      ensures this.view == view && this.chunk == chunk
    {
      this.view := view;
      this.chunk := chunk;
    }

    /** The bytes of the chunk, wherever it currently lies. */
    function Read(): (r: seq<byte>)
      reads chunk, view
      ensures chunk.FitsIn(view) ==> r == view[chunk.offset..chunk.offset + chunk.size]
    {
      chunk.ReadFrom(view)
    }

    /** Writes through the chunk: exactly `chunk.size` bytes are written, a longer value is
        refused with InvalidWrite and a shorter one raises ValueError. */
    method Write(value: seq<byte>) returns (r: Outcome)
      modifies view
      ensures |value| > chunk.size ==> r == Fail(InvalidWrite)
      ensures chunk.FitsIn(view) && |value| == chunk.size ==>
        r == Pass && view[..] == Splice(old(view[..]), chunk.offset, value) && Read() == value
      ensures chunk.FitsIn(view) && |value| < chunk.size ==> r == Fail(ValueError)
      ensures |value| <= chunk.size ==>
        r == (if |Slice(old(view[..]), chunk.offset, chunk.offset + chunk.size)| == |value| then Pass else Fail(ValueError))
      ensures r.Fail? || value == [] ==> view[..] == old(view[..])
      ensures forall i :: 0 <= i < view.Length && (i < chunk.offset || chunk.offset + chunk.size <= i) ==> view[i] == old(view[i])
    {
      r := chunk.WriteTo(view, value);
    }
  }

  class BufferMemoryManager {
    const buffer: array<byte>
    var chunks: seq<Chunk>
    /** The chunk list as values. */
    ghost var regions: seq<Region>

    /** `regions` holds the fields of `chunks`, and no chunk occurs twice. */
    ghost predicate Mirrored()
      reads this, chunks
    {
      && |regions| == |chunks|
      && (forall i :: 0 <= i < |chunks| ==> chunks[i].AsRegion() == regions[i])
      && (forall i, j :: 0 <= i < j < |chunks| ==> chunks[i] != chunks[j])
    }

    /** The chunks partition the buffer. */
    ghost predicate Tiled()
      reads this, chunks
    {
      Mirrored() && Partition(regions, buffer.Length)
    }

    /** Between operations the chunks also have no two free neighbours. */
    ghost predicate Valid()
      reads this, chunks
    {
      Tiled() && NoAdjacentFree(regions)
    }

    /** The whole buffer is one free chunk. */
    constructor (buffer: array<byte>)
      ensures Valid()
      ensures this.buffer == buffer
      ensures regions == [Region(0, buffer.Length, true)]
      ensures fresh(chunks[0])
    {
      this.buffer := buffer;
      var c := new Chunk(0, buffer.Length, true);
      chunks := [c];
      regions := [Region(0, buffer.Length, true)];
      new;
      assert regions[1..] == [];
      assert Tiles(regions[1..], buffer.Length, buffer.Length);
    }

    /** First fit: the lowest chunk that is free and large enough is taken, whole on an exact
        fit and split in two otherwise; OutOfMemory when there is none. */
    method FindFreeChunk(size: nat) returns (r: Result<Chunk>)
      requires Valid()
      modifies this, chunks
      ensures Valid()
      ensures forall c :: c in chunks ==> c in old(chunks) || fresh(c)
      ensures FirstFit(old(regions), size).None? ==>
        r == Failure(OutOfMemory) && regions == old(regions) && chunks == old(chunks)
      ensures FirstFit(old(regions), size).Some? ==>
        var i := FirstFit(old(regions), size).value;
        && r == Success(old(chunks)[i])
        && regions == Place(old(regions), i, size)
        && chunks[..i + 1] == old(chunks)[..i + 1]
        && chunks[|chunks| - (|old(chunks)| - i - 1)..] == old(chunks)[i + 1..]
        && (old(regions)[i].size > size ==> fresh(chunks[i + 1]))
    {
      var i := 0;
      while i < |chunks|
        invariant 0 <= i <= |chunks|
        invariant chunks == old(chunks) && regions == old(regions)
        invariant forall j :: 0 <= j < |chunks| ==> chunks[j].AsRegion() == regions[j]
        invariant forall j :: 0 <= j < i ==> !Fits(regions[j], size)
        invariant Valid()
      {
        var chunk := chunks[i];
        if !chunk.free || chunk.size < size {
          i := i + 1;
          continue;
        }
        if chunk.size == size {
          TakeWhole(i, size);
        } else {
          Split(i, size);
        }
        return Success(chunk);
      }
      return Failure(OutOfMemory);
    }

    /** The exact-fit case of first fit: chunk `i` only turns occupied. */
    method TakeWhole(i: nat, size: nat)
      requires Valid() && i < |chunks| && Fits(regions[i], size) && regions[i].size == size
      modifies this, chunks[i]
      ensures Valid()
      ensures regions == Place(old(regions), i, size) && chunks == old(chunks)
    {
      PlaceKeepsPartition(regions, i, size, buffer.Length);
      PlaceKeepsNoAdjacentFree(regions, i, size);
      var chunk := chunks[i];
      chunk.free := false;
      regions := regions[i := regions[i].(free := false)];
      assert forall j :: 0 <= j < |chunks| && j != i ==> chunks[j] != chunk;
    }

    /** The splitting case of first fit: chunk `i` shrinks to `size` bytes and turns occupied,
        and a new free chunk with the rest of its bytes follows it. */
    method Split(i: nat, size: nat)
      requires Valid() && i < |chunks| && Fits(regions[i], size) && regions[i].size > size
      modifies this, chunks[i]
      ensures Valid()
      ensures regions == Place(old(regions), i, size)
      ensures |chunks| == |old(chunks)| + 1 && fresh(chunks[i + 1])
      ensures chunks[..i + 1] == old(chunks)[..i + 1] && chunks[i + 2..] == old(chunks)[i + 1..]
    {
      ghost var cs, rs := chunks, regions;
      PlaceKeepsPartition(rs, i, size, buffer.Length);
      PlaceKeepsNoAdjacentFree(rs, i, size);
      var chunk := chunks[i];
      var rest := new Chunk(chunk.offset + size, chunk.size - size, true);
      chunk.size := size;
      chunk.free := false;
      chunks := chunks[..i + 1] + [rest] + chunks[i + 1..];
      regions := Place(rs, i, size);
      SplitMirror(cs, rs, chunks, regions, i, chunk, rest);
    }

    /** Allocates `size` bytes: a handle on the chunk first fit picks. */
    method Alloc(size: nat) returns (r: Result<ChunkPointer>)
      requires Valid()
      modifies this, chunks
      ensures Valid()
      ensures forall c :: c in chunks ==> c in old(chunks) || fresh(c)
      ensures r.Failure? <==> FirstFit(old(regions), size).None?
      ensures r.Failure? ==> r.error == OutOfMemory && regions == old(regions) && chunks == old(chunks)
      ensures r.Success? ==>
        var i := FirstFit(old(regions), size).value;
        && fresh(r.value) && r.value.view == buffer && r.value.chunk == old(chunks)[i]
        && regions == Place(old(regions), i, size)
        && chunks[..i + 1] == old(chunks)[..i + 1]
        && chunks[|chunks| - (|old(chunks)| - i - 1)..] == old(chunks)[i + 1..]
    {
      var c := FindFreeChunk(size);
      if c.Failure? {
        return Failure(c.error);
      }
      var p := new ChunkPointer(buffer, c.value);
      r := Success(p);
    }

    /** The maximal runs of free chunks, by index, in list order. */
    method FindFreeChunkGroups() returns (gs: seq<seq<nat>>)
      requires Tiled()
      ensures gs == FreeRuns(regions, 0)
    {
      gs := [];
      var group: Option<seq<nat>> := None;
      ghost var h: nat := 0;
      var i := 0;
      while i < |chunks|
        invariant 0 <= i <= |chunks|
        invariant group.None? ==> FreeRuns(regions, 0) == gs + FreeRuns(regions, i) && (i == 0 || !regions[i - 1].free)
        invariant group.Some? ==>
          && h < i && group.value == Range(h, i)
          && (forall k :: h <= k < i ==> regions[k].free)
          && (h == 0 || !regions[h - 1].free)
          && FreeRuns(regions, 0) == gs + FreeRuns(regions, h)
      {
        var cur := chunks[i];
        assert cur.free == regions[i].free;
        if cur.free {
          if group.Some? {
            group := Some(group.value + [i]);
          } else {
            group := Some([i]);
            h := i;
          }
        } else {
          if group.Some? {
            RunEndIs(regions, h, i);
            gs := gs + [group.value];
            group := None;
          }
        }
        i := i + 1;
      }
      if group.Some? {
        RunEndIs(regions, h, i);
        gs := gs + [group.value];
      }
    }
 
    /** The size pass of the join over the groups `gs`: the first chunk of each group of two or
        more takes the sizes of the rest, whose indices are marked. */
    method SizePass(gs: seq<seq<nat>>) returns (marked: seq<nat>)
      requires Mirrored() && Runs(gs, 0, |regions|)
      modifies this, chunks
      ensures Mirrored() && chunks == old(chunks)
      ensures Within(gs, |old(regions)|) && regions == Absorb(old(regions), gs)
      ensures marked == Tails(gs)
      ensures forall c :: c in chunks ==> c.free == old(c.free) && c.offset == old(c.offset)
    {
      ghost var rs0 := regions;
      marked := [];
      var gi := 0;
      while gi < |gs|
        invariant 0 <= gi <= |gs|
        invariant Mirrored() && chunks == old(chunks) && |regions| == |rs0|
        invariant Within(gs[..gi], |rs0|) && regions == Absorb(rs0, gs[..gi])
        invariant marked == Tails(gs[..gi])
        invariant forall c :: c in chunks ==> c.free == old(c.free) && c.offset == old(c.offset)
      {
        var group := gs[gi];
        assert gs[..gi + 1][..gi] == gs[..gi] && gs[..gi + 1][gi] == group;
        if |group| <= 1 {
          assert group[1..] == [];
          gi := gi + 1;
          continue;
        }
        marked := AbsorbGroup(rs0, gs, gi, marked);
        gi := gi + 1;
      }
      assert gs[..gi] == gs;
    }

    /** One group of the size pass. */
    method AbsorbGroup(ghost rs0: seq<Region>, gs: seq<seq<nat>>, gi: nat, marked: seq<nat>) returns (marked': seq<nat>)
      requires Mirrored() && |regions| == |rs0| && Runs(gs, 0, |rs0|) && gi < |gs| && |gs[gi]| > 1
      requires Within(gs[..gi], |rs0|) && regions == Absorb(rs0, gs[..gi]) && marked == Tails(gs[..gi])
      modifies this, chunks[gs[gi][0]]
      ensures Mirrored() && chunks == old(chunks)
      ensures Within(gs[..gi + 1], |rs0|) && regions == Absorb(rs0, gs[..gi + 1])
      ensures marked' == Tails(gs[..gi + 1])
      ensures forall c :: c in chunks ==> c.free == old(c.free) && c.offset == old(c.offset)
    {
      var group := gs[gi];
      AbsorbNext(rs0, gs, gi);
      var added := AbsorbRun(rs0, group);
      marked' := marked + added;
    }

    /** The first chunk of the run `group` takes the sizes of the rest of the run, whose
        indices are returned. */
    method AbsorbRun(ghost rs0: seq<Region>, group: seq<nat>) returns (added: seq<nat>)
      requires Mirrored() && |regions| == |rs0| && IsRun(group) && |group| > 1 && Stop(group) <= |rs0|
      requires forall j :: group[0] <= j < |rs0| ==> regions[j] == rs0[j]
      modifies this, chunks[group[0]]
      ensures Mirrored() && chunks == old(chunks)
      ensures regions == old(regions)[group[0] := Absorbed(rs0, group[0], Stop(group))]
      ensures added == group[1..]
      ensures forall c :: c in chunks ==> c.free == old(c.free) && c.offset == old(c.offset)
    {
      var a := group[0];
      ghost var P := regions;
      var chunk := chunks[a];
      assert forall q :: 0 <= q < |chunks| && q != a ==> chunks[q] != chunk;
      added := GrowChunk(rs0, chunks, group, chunk);
      regions := P[a := Absorbed(rs0, a, Stop(group))];
    }

    /** The deletion pass of the join: the marked indices are deleted from the last to the
        first. */
    method DeletePass(marked: seq<nat>)
      requires Mirrored() && Deletable(marked, |chunks|)
      modifies this
      ensures Mirrored()
      ensures chunks == DeleteFrom(old(chunks), marked, 0) && regions == DeleteFrom(old(regions), marked, 0)
    {
      var j := |marked|;
      while j > 0
        invariant 0 <= j <= |marked|
        invariant chunks == DeleteFrom(old(chunks), marked, j) && regions == DeleteFrom(old(regions), marked, j)
        invariant Mirrored()
      {
        j := j - 1;
        var idx := marked[j];
        DropMirror(chunks, regions, idx);
        chunks := chunks[..idx] + chunks[idx + 1..];
        regions := regions[..idx] + regions[idx + 1..];
      }
    }

    /** Merges every maximal run of free chunks into its first chunk. Only sizes change, the
        merged chunks leave the list, and every occupied chunk stays in it. */
    method JoinFreeChunks()
      requires Tiled()
      modifies this, chunks
      ensures Valid()
      ensures regions == Coalesce(old(regions))
      ensures forall c :: c in chunks ==> c in old(chunks)
      ensures forall c :: c in old(chunks) && !old(c.free) ==> c in chunks
      ensures forall c :: c in old(chunks) ==> c.free == old(c.free) && c.offset == old(c.offset)
    {
      ghost var rs0, cs0 := regions, chunks;
      var gs := FindFreeChunkGroups();
      JoinCoalesces(rs0, buffer.Length);
      var marked := SizePass(gs);
      assert chunks == cs0 && marked == Tails(FreeRuns(rs0, 0));
      DeletePass(marked);
      assert chunks == DeleteFrom(cs0, marked, 0);
      assert regions == Coalesce(rs0);
      DeleteFromSubset(cs0, marked, 0);
      forall c | c in cs0 && !old(c.free)
        ensures c in chunks
      {
        var j :| 0 <= j < |cs0| && cs0[j] == c;
        assert old(cs0[j].AsRegion()) == rs0[j];
        JoinKeeps(cs0, rs0, j);
      }
    }

    /** The index of the chunk object `c` in the list, or the list's length when it is not
        there. */
    method FindChunk(c: Chunk) returns (i: nat)
      ensures i <= |chunks|
      ensures i < |chunks| ==> chunks[i] == c
      ensures forall j :: 0 <= j < i ==> chunks[j] != c
    {
      i := 0;
      while i < |chunks| && chunks[i] != c
        invariant i <= |chunks|
        invariant forall j :: 0 <= j < i ==> chunks[j] != c
      {
        i := i + 1;
      }
    }

    /** Frees the chunk behind a handle and coalesces. A chunk that is not in the list, or is
        already free, is refused with InvalidPointer. */
    method Free(p: ChunkPointer) returns (r: Outcome)
      requires Valid()
      modifies this, chunks
      ensures Valid()
      ensures forall c :: c in chunks ==> c in old(chunks)
      ensures r.Fail? <==> p.chunk !in old(chunks) || old(p.chunk.free)
      ensures r.Fail? ==> r.error == InvalidPointer && regions == old(regions) && chunks == old(chunks)
      ensures r.Pass? ==> p.chunk.free
      ensures r.Pass? ==> forall i :: 0 <= i < |old(chunks)| && old(chunks)[i] == p.chunk ==>
        regions == Coalesce(old(regions)[i := old(regions)[i].(free := true)])
      ensures forall c :: c in old(chunks) && !old(c.free) && c != p.chunk ==> c in chunks && !c.free
    {
      var i := FindChunk(p.chunk);
      if i == |chunks| {
        return Fail(InvalidPointer);
      }
      var chunk := chunks[i];
      if chunk.free {
        return Fail(InvalidPointer);
      }
      TilesSetFree(regions, i, true, 0, buffer.Length);
      chunk.free := true;
      regions := regions[i := regions[i].(free := true)];
      assert forall j :: 0 <= j < |chunks| && j != i ==> chunks[j] != chunk;
      JoinFreeChunks();
      r := Pass;
    }

    /** Compaction: every occupied chunk, in list order, slides down next to the one before it,
        its bytes moving with it; the free chunks leave the list, and one free chunk holds the
        rest of the buffer when there is a rest. The chunk objects of the occupied chunks stay
        the same, so their handles follow them. */
    method Defrag()
      requires Valid()
      modifies this, chunks, buffer
      ensures Valid()
      ensures regions == Compact(old(regions), buffer.Length)
      ensures buffer[..] == CompactBytes(old(regions), old(buffer[..]))
      ensures |LiveIndices(old(regions))| <= |chunks|
      ensures forall q :: 0 <= q < |LiveIndices(old(regions))| ==> chunks[q] == old(chunks[LiveIndices(regions)[q]])
      ensures forall q :: 0 <= q < |LiveIndices(old(regions))| ==>
        chunks[q].ReadFrom(buffer) == old(chunks[LiveIndices(regions)[q]].ReadFrom(buffer))
      ensures |chunks| > |LiveIndices(old(regions))| ==>
        |chunks| == |LiveIndices(old(regions))| + 1 && fresh(chunks[|chunks| - 1])
    {
      ghost var rs0, cs0, mem0 := regions, chunks, buffer[..];
      LiveBytes(rs0, cs0, buffer);
      StartMoving(rs0, cs0, mem0);
      var cur, kept := MoveLive(rs0, cs0, mem0);
      Finish(rs0, cs0, mem0, cur, kept);
    }

    /** The end of compaction: the chunk list is rebuilt from the kept chunks. */
    method Finish(ghost rs0: seq<Region>, ghost cs0: seq<Chunk>, ghost mem0: seq<byte>, cur: nat, kept: seq<Chunk>)
      requires Partition(rs0, buffer.Length) && |mem0| == buffer.Length && |cs0| == |rs0|
      requires cur == SumSizes(Occupied(rs0)) && buffer[..] == CompactBytes(rs0, mem0)
      requires |kept| == |LiveIndices(rs0)| && forall q :: 0 <= q < |kept| ==> kept[q] == cs0[LiveIndices(rs0)[q]]
      requires Holds(kept, Pack(Occupied(rs0)))
      modifies this
      ensures Valid() && regions == Compact(rs0, buffer.Length) && buffer[..] == CompactBytes(rs0, mem0)
      ensures |LiveIndices(rs0)| <= |chunks|
      ensures forall q :: 0 <= q < |LiveIndices(rs0)| ==> chunks[q] == cs0[LiveIndices(rs0)[q]]
      ensures forall q :: 0 <= q < |LiveIndices(rs0)| ==>
        chunks[q].ReadFrom(buffer) == Slice(mem0, Occupied(rs0)[q].offset, Occupied(rs0)[q].End())
      ensures |chunks| > |LiveIndices(rs0)| ==> |chunks| == |LiveIndices(rs0)| + 1 && fresh(chunks[|chunks| - 1])
    {
      CompactTiles(rs0, buffer.Length);
      Rebuild(rs0, cur, kept);
      RebuiltChunks(rs0, cs0, kept, chunks);
      KeptBytes(rs0, mem0, |kept|, chunks, buffer);
    }

    /** The new chunk list of compaction: the kept chunks, then a free chunk for the rest of the
        buffer when there is a rest. */
    method Rebuild(ghost rs0: seq<Region>, cur: nat, kept: seq<Chunk>)
      requires Holds(kept, Pack(Occupied(rs0))) && cur == SumSizes(Occupied(rs0))
      requires Partition(Compact(rs0, buffer.Length), buffer.Length) && NoAdjacentFree(Compact(rs0, buffer.Length))
      modifies this
      ensures Valid() && regions == Compact(rs0, buffer.Length)
      ensures |kept| <= |chunks| && forall q :: 0 <= q < |kept| ==> chunks[q] == kept[q]
      ensures forall q :: 0 <= q < |kept| ==> chunks[q].AsRegion() == Pack(Occupied(rs0))[q]
      ensures |chunks| > |kept| ==> |chunks| == |kept| + 1 && fresh(chunks[|kept|])
    {
      var n := buffer.Length;
      if cur < n {
        var rest := new Chunk(cur, n - cur, true);
        WithRest(rs0, kept, rest, n);
        chunks := kept + [rest];
      } else {
        WithoutRest(rs0, kept, n);
        chunks := kept;
      }
      regions := Compact(rs0, n);
    }

    /** The pass of compaction over the chunk list: each occupied chunk, in order, is moved down
        to the end of the ones moved before it. The list itself is not changed yet. */
    method MoveLive(ghost rs0: seq<Region>, ghost cs0: seq<Chunk>, ghost mem0: seq<byte>) returns (cur: nat, kept: seq<Chunk>)
      requires cs0 == chunks && Packed(rs0, cs0, 0, []) && Moving(rs0, mem0, 0, 0, buffer[..])
      modifies chunks, buffer
      ensures Partition(rs0, buffer.Length) && cur == SumSizes(Occupied(rs0)) && buffer[..] == CompactBytes(rs0, mem0)
      ensures |cs0| == |rs0| && |kept| == |LiveIndices(rs0)| && forall q :: 0 <= q < |kept| ==> kept[q] == cs0[LiveIndices(rs0)[q]]
      ensures Holds(kept, Pack(Occupied(rs0)))
    {
      cur, kept := MovePass(rs0, cs0, mem0);
      Settle(rs0, cs0, mem0, cur, kept, buffer[..]);
    }

    /** The loop of the compaction pass. */
    method MovePass(ghost rs0: seq<Region>, ghost cs0: seq<Chunk>, ghost mem0: seq<byte>) returns (cur: nat, kept: seq<Chunk>)
      requires cs0 == chunks && Packed(rs0, cs0, 0, []) && Moving(rs0, mem0, 0, 0, buffer[..])
      modifies chunks, buffer
      ensures Packed(rs0, cs0, |rs0|, kept) && Moving(rs0, mem0, |rs0|, cur, buffer[..])
    {
      kept := [];
      cur := 0;
      var i := 0;
      while i < |chunks|
        invariant 0 <= i <= |chunks| == |rs0|
        invariant Packed(rs0, cs0, i, kept) && Moving(rs0, mem0, i, cur, buffer[..])
      {
        var chunk := chunks[i];
        cur, kept := MoveOne(rs0, cs0, mem0, i, chunk, cur, kept);
        i := i + 1;
      }
    }

    /** What a finished compaction pass leaves behind. */
    static lemma {:induction false} Settle(rs0: seq<Region>, cs0: seq<Chunk>, mem0: seq<byte>, cur: nat, kept: seq<Chunk>, buf: seq<byte>)
      requires Packed(rs0, cs0, |rs0|, kept) && Moving(rs0, mem0, |rs0|, cur, buf)
      ensures Partition(rs0, |buf|) && cur == SumSizes(Occupied(rs0)) && buf == CompactBytes(rs0, mem0)
      ensures |cs0| == |rs0| && |kept| == |LiveIndices(rs0)| && forall q :: 0 <= q < |kept| ==> kept[q] == cs0[LiveIndices(rs0)[q]]
      ensures Holds(kept, Pack(Occupied(rs0)))
    {
      MovingDone(rs0, mem0, cur, buf);
      Kept(rs0, cs0, kept);
    }

    /** One chunk of the compaction pass: a free chunk is passed over, an occupied one slides
        down to `cur`. */
    method MoveOne(ghost rs0: seq<Region>, ghost cs0: seq<Chunk>, ghost mem0: seq<byte>, i: nat, chunk: Chunk,
                   cur: nat, kept: seq<Chunk>) returns (cur': nat, kept': seq<Chunk>)
      requires Packed(rs0, cs0, i, kept) && Moving(rs0, mem0, i, cur, buffer[..])
      requires i < |rs0| && cs0[i] == chunk
      modifies buffer, chunk
      ensures Packed(rs0, cs0, i + 1, kept') && Moving(rs0, mem0, i + 1, cur', buffer[..])
    {
      assert chunk.AsRegion() == rs0[i];
      if chunk.free {
        MovingSkip(rs0, mem0, i, cur, buffer[..]);
        PassOver(rs0, cs0, i, kept);
        cur', kept' := cur, kept;
      } else {
        cur', kept' := Slide(rs0, cs0, mem0, i, chunk, cur, kept);
      }
    }

    /** Before compaction nothing has been moved yet. */
    static lemma {:induction false} StartMoving(rs0: seq<Region>, cs0: seq<Chunk>, mem0: seq<byte>)
      requires |cs0| == |rs0| && Partition(rs0, |mem0|)
      requires forall j :: 0 <= j < |cs0| ==> cs0[j].AsRegion() == rs0[j]
      requires forall j, k :: 0 <= j < k < |cs0| ==> cs0[j] != cs0[k]
      ensures Packed(rs0, cs0, 0, []) && Moving(rs0, mem0, 0, 0, mem0)
    {
      assert rs0[..0] == [];
    }

    /** The chunks read, before compaction, the bytes of their regions. */
    static lemma {:induction false} LiveBytes(rs0: seq<Region>, cs0: seq<Chunk>, mem: array<byte>)
      requires |cs0| == |rs0|
      requires forall j :: 0 <= j < |cs0| ==> cs0[j].AsRegion() == rs0[j]
      ensures forall q :: 0 <= q < |LiveIndices(rs0)| ==>
        cs0[LiveIndices(rs0)[q]].ReadFrom(mem) == Slice(mem[..], Occupied(rs0)[q].offset, Occupied(rs0)[q].End())
    {
    }

    /** The rebuilt chunk list starts with the kept chunks. */
    static lemma {:induction false} RebuiltChunks(rs0: seq<Region>, cs0: seq<Chunk>, kept: seq<Chunk>, cs: seq<Chunk>)
      requires |cs0| == |rs0| && |kept| == |LiveIndices(rs0)|
      requires forall q :: 0 <= q < |kept| ==> kept[q] == cs0[LiveIndices(rs0)[q]]
      requires |kept| <= |cs| && forall q :: 0 <= q < |kept| ==> cs[q] == kept[q]
      ensures forall q :: 0 <= q < |LiveIndices(rs0)| ==> cs[q] == cs0[LiveIndices(rs0)[q]]
    {
    }

    /** After compaction, the kept chunks read, at their packed places, the bytes their regions
        held before. */
    static lemma {:induction false} KeptBytes(rs0: seq<Region>, mem0: seq<byte>, k: nat, cs: seq<Chunk>, mem: array<byte>)
      requires Partition(rs0, mem.Length) && |mem0| == mem.Length && mem[..] == CompactBytes(rs0, mem0)
      requires k <= |cs| && k == |Occupied(rs0)|
      requires forall q :: 0 <= q < k ==> cs[q].AsRegion() == Pack(Occupied(rs0))[q]
      ensures forall q :: 0 <= q < k ==>
        cs[q].ReadFrom(mem) == Slice(mem0, Occupied(rs0)[q].offset, Occupied(rs0)[q].End())
    {
      forall q | 0 <= q < k
        ensures cs[q].ReadFrom(mem) == Slice(mem0, Occupied(rs0)[q].offset, Occupied(rs0)[q].End())
      {
        CompactMovesBytes(rs0, mem0, q);
        assert Compact(rs0, mem.Length)[q] == Pack(Occupied(rs0))[q];
        KeptChunkBytes(cs[q], Compact(rs0, mem.Length)[q], mem);
      }
    }

    /** A chunk that holds region `c`, inside `mem`, reads the bytes of `c`. */
    static lemma {:induction false} KeptChunkBytes(chunk: Chunk, c: Region, mem: array<byte>)
      requires chunk.AsRegion() == c && c.End() <= mem.Length
      ensures chunk.ReadFrom(mem) == mem[..][c.offset..c.End()]
    {
    }

    /** The chunk objects `cs` are distinct and hold the regions `rs`. */
    static ghost predicate Holds(cs: seq<Chunk>, rs: seq<Region>)
      reads set c | c in cs
    {
      && |cs| == |rs|
      && (forall q :: 0 <= q < |cs| ==> cs[q].AsRegion() == rs[q])
      && (forall j, k :: 0 <= j < k < |cs| ==> cs[j] != cs[k])
    }

    /** The kept chunks are distinct chunks of the list, and hold the packed regions. */
    static lemma {:induction false} Kept(rs0: seq<Region>, cs0: seq<Chunk>, kept: seq<Chunk>)
      requires Packed(rs0, cs0, |rs0|, kept)
      ensures |kept| == |LiveIndices(rs0)|
      ensures forall q :: 0 <= q < |kept| ==> kept[q] == cs0[LiveIndices(rs0)[q]]
      ensures Holds(kept, Pack(Occupied(rs0)))
    {
      assert rs0[..|rs0|] == rs0;
      var L := LiveIndices(rs0);
      forall j, k | 0 <= j < k < |kept|
        ensures kept[j] != kept[k]
      {
        assert L[j] < L[k];
      }
    }

    /** With a rest, compaction keeps the occupied chunks and appends one free chunk for the
        rest. */
    static lemma {:induction false} WithRest(rs0: seq<Region>, kept: seq<Chunk>, rest: Chunk, n: nat)
      requires Holds(kept, Pack(Occupied(rs0))) && rest !in kept
      requires SumSizes(Occupied(rs0)) < n
      requires rest.AsRegion() == Region(SumSizes(Occupied(rs0)), n - SumSizes(Occupied(rs0)), true)
      ensures Holds(kept + [rest], Compact(rs0, n))
    {
      var cs := kept + [rest];
      forall q | 0 <= q < |cs|
        ensures cs[q].AsRegion() == Compact(rs0, n)[q]
      {
        if q < |kept| {
          assert cs[q] == kept[q];
        }
      }
      forall j, k | 0 <= j < k < |cs|
        ensures cs[j] != cs[k]
      {
        assert cs[j] == kept[j];
        if k < |kept| {
          assert cs[k] == kept[k];
        }
      }
    }

    /** Without a rest, compaction keeps only the occupied chunks. */
    static lemma {:induction false} WithoutRest(rs0: seq<Region>, kept: seq<Chunk>, n: nat)
      requires Holds(kept, Pack(Occupied(rs0))) && SumSizes(Occupied(rs0)) >= n
      ensures Holds(kept, Compact(rs0, n))
    {
      assert Compact(rs0, n) == Pack(Occupied(rs0));
    }

    /** After compaction of the first `i` chunks of `cs0`, partitioned as `rs0`: `kept` holds
        the occupied ones among them, in order, at their packed places, and the chunks from `i`
        on are as they were. */
    static ghost predicate Packed(rs0: seq<Region>, cs0: seq<Chunk>, i: nat, kept: seq<Chunk>)
      reads cs0
    {
      && i <= |rs0| == |cs0|
      && (forall j, k :: 0 <= j < k < |cs0| ==> cs0[j] != cs0[k])
      && |kept| == |LiveIndices(rs0[..i])|
      && (forall q :: 0 <= q < |kept| ==> kept[q] == cs0[LiveIndices(rs0[..i])[q]])
      && (forall q :: 0 <= q < |kept| ==> cs0[LiveIndices(rs0[..i])[q]].AsRegion() == Pack(Occupied(rs0[..i]))[q])
      && (forall j :: i <= j < |cs0| ==> cs0[j].AsRegion() == rs0[j])
    }

    /** A free chunk is passed over. */
    static lemma {:induction false} PassOver(rs0: seq<Region>, cs0: seq<Chunk>, i: nat, kept: seq<Chunk>)
      requires Packed(rs0, cs0, i, kept) && i < |rs0| && rs0[i].free
      ensures Packed(rs0, cs0, i + 1, kept)
    {
      CompactSkip(rs0, i);
    }

    /** An occupied chunk is moved down to `cur`, bytes first. */
    method Slide(ghost rs0: seq<Region>, ghost cs0: seq<Chunk>, ghost mem0: seq<byte>, i: nat, chunk: Chunk,
                 cur: nat, kept: seq<Chunk>) returns (cur': nat, kept': seq<Chunk>)
      requires Packed(rs0, cs0, i, kept) && Moving(rs0, mem0, i, cur, buffer[..])
      requires i < |rs0| && cs0[i] == chunk && !rs0[i].free
      modifies buffer, chunk
      ensures Packed(rs0, cs0, i + 1, kept') && Moving(rs0, mem0, i + 1, cur', buffer[..])
    {
      assert chunk.AsRegion() == rs0[i];
      var size := chunk.size;
      CopyDownKeeping(rs0, cs0, mem0, i, chunk, cur, kept);
      kept' := RelocateKeeping(rs0, cs0, mem0, i, chunk, cur, cur + size, kept);
      cur' := cur + size;
    }

    /** The offset move of an occupied chunk, which leaves the buffer as it is. */
    method RelocateKeeping(ghost rs0: seq<Region>, ghost cs0: seq<Chunk>, ghost mem0: seq<byte>, i: nat,
                           chunk: Chunk, cur: nat, ghost next: nat, kept: seq<Chunk>) returns (kept': seq<Chunk>)
      requires Packed(rs0, cs0, i, kept) && i < |rs0| && cs0[i] == chunk && !rs0[i].free
      requires cur == SumSizes(Occupied(rs0[..i])) && Moving(rs0, mem0, i + 1, next, buffer[..])
      modifies chunk
      ensures Packed(rs0, cs0, i + 1, kept') && Moving(rs0, mem0, i + 1, next, buffer[..])
    {
      ghost var moved := buffer[..];
      kept' := Relocate(rs0, cs0, i, chunk, cur, kept);
      assert buffer[..] == moved;
    }

    /** The byte move of an occupied chunk, which leaves the chunk objects as they are. */
    method CopyDownKeeping(ghost rs0: seq<Region>, ghost cs0: seq<Chunk>, ghost mem0: seq<byte>, i: nat,
                           chunk: Chunk, cur: nat, ghost kept: seq<Chunk>)
      requires Moving(rs0, mem0, i, cur, buffer[..]) && i < |rs0| && !rs0[i].free
      requires chunk.AsRegion() == rs0[i] && Packed(rs0, cs0, i, kept)
      modifies buffer
      ensures Moving(rs0, mem0, i + 1, cur + rs0[i].size, buffer[..])
      ensures cur == SumSizes(Occupied(rs0[..i])) && Packed(rs0, cs0, i, kept)
    {
      CopyDown(rs0, mem0, i, chunk, cur);
    }

    /** The bytes of the occupied chunk `chunk`, region `i` of the compaction, are copied down
        to `cur` with a slice assignment, which cannot fail here: both spans have the chunk's
        size. */
    method CopyDown(ghost rs0: seq<Region>, ghost mem0: seq<byte>, i: nat, chunk: Chunk, cur: nat)
      requires Moving(rs0, mem0, i, cur, buffer[..]) && i < |rs0| && !rs0[i].free
      requires chunk.AsRegion() == rs0[i]
      modifies buffer
      ensures Moving(rs0, mem0, i + 1, cur + rs0[i].size, buffer[..])
    {
      ghost var b0 := buffer[..];
      ghost var r := rs0[i];
      MovingTake(rs0, mem0, i, cur, b0);
      ghost var target := Splice(b0, cur, b0[r.offset..r.End()]);
      var data := chunk.ReadFrom(buffer);
      assert data == b0[r.offset..r.End()] && |Slice(b0, cur, cur + r.size)| == |data|;
      var moved := AssignSlice(buffer, cur, cur + chunk.size, data);
      assert moved == Pass;
      if data == [] {
        assert target == b0;
      }
      assert buffer[..] == target;
    }

    /** The chunk object's offset moves to `cur` and it joins the kept chunks. */
    static method Relocate(ghost rs0: seq<Region>, ghost cs0: seq<Chunk>, i: nat, chunk: Chunk, cur: nat,
                           kept: seq<Chunk>) returns (kept': seq<Chunk>)
      requires Packed(rs0, cs0, i, kept) && i < |rs0| && cs0[i] == chunk && !rs0[i].free
      requires cur == SumSizes(Occupied(rs0[..i]))
      modifies chunk
      ensures Packed(rs0, cs0, i + 1, kept')
    {
      Untouched(rs0, cs0, i, kept);
      chunk.offset := cur;
      kept' := kept + [chunk];
      MovedIn(rs0, cs0, i, kept);
    }

    /** Before the move of chunk `i`: the kept chunks and the chunks after `i` are other chunk
        objects. */
    static lemma {:induction false} Untouched(rs0: seq<Region>, cs0: seq<Chunk>, i: nat, kept: seq<Chunk>)
      requires Packed(rs0, cs0, i, kept) && i < |rs0|
      ensures forall q :: 0 <= q < |kept| ==> kept[q] != cs0[i] && kept[q].AsRegion() == Pack(Occupied(rs0[..i]))[q]
      ensures forall j :: i < j < |cs0| ==> cs0[j] != cs0[i] && cs0[j].AsRegion() == rs0[j]
    {
      var L := LiveIndices(rs0[..i]);
      forall q | 0 <= q < |kept|
        ensures kept[q] != cs0[i]
      {
        assert L[q] < i;
      }
    }

    /** After the move of chunk `i` to the packed offset `cur`, it extends the kept chunks. */
    static lemma {:induction false} MovedIn(rs0: seq<Region>, cs0: seq<Chunk>, i: nat, kept: seq<Chunk>)
      requires i < |rs0| == |cs0| && !rs0[i].free
      requires forall j, k :: 0 <= j < k < |cs0| ==> cs0[j] != cs0[k]
      requires |kept| == |LiveIndices(rs0[..i])|
      requires forall q :: 0 <= q < |kept| ==> kept[q] == cs0[LiveIndices(rs0[..i])[q]]
      requires forall q :: 0 <= q < |kept| ==> kept[q].AsRegion() == Pack(Occupied(rs0[..i]))[q]
      requires cs0[i].AsRegion() == rs0[i].(offset := SumSizes(Occupied(rs0[..i])))
      requires forall j :: i < j < |cs0| ==> cs0[j].AsRegion() == rs0[j]
      ensures Packed(rs0, cs0, i + 1, kept + [cs0[i]])
    {
      ghost var os, L := Occupied(rs0[..i]), LiveIndices(rs0[..i]);
      ghost var os', L' := Occupied(rs0[..i + 1]), LiveIndices(rs0[..i + 1]);
      var kept' := kept + [cs0[i]];
      CompactTake(rs0, i);
      ghost var P, P' := Pack(os), Pack(os');
      assert L' == L + [i] && P' == P + [rs0[i].(offset := SumSizes(os))];
      forall q | 0 <= q < |kept'|
        ensures kept'[q] == cs0[L'[q]] && cs0[L'[q]].AsRegion() == P'[q]
      {
        if q < |kept| {
          assert kept'[q] == kept[q] && L'[q] == L[q] && P'[q] == P[q];
        } else {
          assert kept'[q] == cs0[i] && L'[q] == i;
        }
      }
    }
  }
}

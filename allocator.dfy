/** The earlier allocator: the same first-fit list of chunks over a buffer as the memory
    manager, handing out plain pointers (a location and a size) and freeing by location and
    size. Its join step collects the free groups with a defect (see `Joining.AllocatorGroups`),
    which this model keeps. */
module Allocators {
  import opened Errors
  import opened Bytes
  import opened Layout
  import opened Placement
  import opened Coalescing
  import opened Joining
  import opened Chunks
  import opened ChunkLists
  import opened Pointers

  /** The lowest index of a region at location `loc` of `size` bytes, free or not, or None. */
  function FirstMatch(rs: seq<Region>, loc: nat, size: nat): (r: Option<nat>)
    ensures r.Some? ==> r.value < |rs| && rs[r.value].offset == loc && rs[r.value].size == size
    ensures r.Some? ==> forall j :: 0 <= j < r.value ==> !(rs[j].offset == loc && rs[j].size == size)
    ensures r.None? ==> forall j :: 0 <= j < |rs| ==> !(rs[j].offset == loc && rs[j].size == size)
  {
    if rs == [] then None
    else if rs[0].offset == loc && rs[0].size == size then Some(0)
    else match FirstMatch(rs[1..], loc, size)
      case None => None
      case Some(j) => Some(j + 1)
  }

  /** The chunk list after region `i` is marked free. */
  function SetFree(rs: seq<Region>, i: nat): (r: seq<Region>)
    requires i < |rs|
    ensures |r| == |rs| && r[i].free && r[i].offset == rs[i].offset && r[i].size == rs[i].size
    ensures forall j :: 0 <= j < |rs| && j != i ==> r[j] == rs[j]
  {
    rs[i := rs[i].(free := true)]
  }

  /** A pointer the allocator hands out can be freed: the chunk it was placed in is found by
      its location and size. */
  lemma {:induction false} AllocatedIsFound(rs: seq<Region>, i: nat, size: nat)
    requires i < |rs| && Fits(rs[i], size)
    ensures FirstMatch(Place(rs, i, size), rs[i].offset, size).Some?
    ensures FirstMatch(Place(rs, i, size), rs[i].offset, size).value <= i
  {
    var q := Place(rs, i, size);
    assert q[i].offset == rs[i].offset && q[i].size == size;
  }

  class BufferAllocator {
    const buffer: array<byte>
    var chunks: seq<Chunk>
    /** The chunk list as values. */
    ghost var regions: seq<Region>

    /** `regions` holds the fields of `chunks`, and no chunk occurs twice. */
    ghost predicate Mirrored()
      reads this, chunks
    {
      && |regions| == |chunks|
      && (forall i :: 0 <= i < |chunks| ==> chunks[i].AsRegion() == regions[i])
      && (forall i, j :: 0 <= i < j < |chunks| ==> chunks[i] != chunks[j])
    }

    /** The chunks partition the buffer, and the list is never empty. Unlike the memory
        manager's, this list may hold two free neighbours between operations. */
    ghost predicate Valid()
      reads this, chunks
    {
      Mirrored() && regions != [] && Partition(regions, buffer.Length)
    }

    /** The whole buffer is one free chunk. */
    constructor (buffer: array<byte>)
      ensures Valid()
      ensures this.buffer == buffer
      ensures regions == [Region(0, buffer.Length, true)]
      ensures fresh(chunks[0])
    {
      this.buffer := buffer;
      var c := new Chunk(0, buffer.Length, true);
      chunks := [c];
      regions := [Region(0, buffer.Length, true)];
      new;
      assert regions[1..] == [];
      assert Tiles(regions[1..], buffer.Length, buffer.Length);
    }

    /** First fit: the lowest chunk that is free and large enough is taken, whole on an exact
        fit and split in two otherwise; OutOfMemory when there is none. */
    method FindFreeChunk(size: nat) returns (r: Result<Chunk>)
      requires Valid()
      modifies this, chunks
      ensures Valid()
      ensures forall c :: c in chunks ==> c in old(chunks) || fresh(c)
      ensures FirstFit(old(regions), size).None? ==>
        r == Failure(OutOfMemory) && regions == old(regions) && chunks == old(chunks)
      ensures FirstFit(old(regions), size).Some? ==>
        var i := FirstFit(old(regions), size).value;
        && r == Success(old(chunks)[i]) && r.value.offset == old(regions)[i].offset
        && regions == Place(old(regions), i, size)
    {
      var i := 0;
      while i < |chunks|
        invariant 0 <= i <= |chunks|
        invariant chunks == old(chunks) && regions == old(regions)
        invariant forall j :: 0 <= j < |chunks| ==> chunks[j].AsRegion() == regions[j]
        invariant forall j :: 0 <= j < i ==> !Fits(regions[j], size)
        invariant Valid()
      {
        var chunk := chunks[i];
        if !chunk.free || chunk.size < size {
          i := i + 1;
          continue;
        }
        if chunk.size == size {
          TakeWhole(i, size);
        } else {
          Split(i, size);
        }
        return Success(chunk);
      }
      return Failure(OutOfMemory);
    }

    /** The exact-fit case of first fit: chunk `i` only turns occupied. */
    method TakeWhole(i: nat, size: nat)
      requires Valid() && i < |chunks| && Fits(regions[i], size) && regions[i].size == size
      modifies this, chunks[i]
      ensures Valid()
      ensures regions == Place(old(regions), i, size) && chunks == old(chunks)
      ensures chunks[i].offset == old(regions)[i].offset
    {
      PlaceKeepsPartition(regions, i, size, buffer.Length);
      var chunk := chunks[i];
      chunk.free := false;
      regions := regions[i := regions[i].(free := false)];
      assert forall j :: 0 <= j < |chunks| && j != i ==> chunks[j] != chunk;
    }

    /** The splitting case of first fit: chunk `i` shrinks to `size` bytes and turns occupied,
        and a new free chunk with the rest of its bytes follows it. */
    method Split(i: nat, size: nat)
      requires Valid() && i < |chunks| && Fits(regions[i], size) && regions[i].size > size
      modifies this, chunks[i]
      ensures Valid()
      ensures regions == Place(old(regions), i, size)
      ensures |chunks| == |old(chunks)| + 1 && chunks[i] == old(chunks)[i]
      ensures forall c :: c in chunks ==> c in old(chunks) || fresh(c)
      ensures chunks[i].offset == old(regions)[i].offset
    {
      ghost var cs, rs := chunks, regions;
      PlaceKeepsPartition(rs, i, size, buffer.Length);
      var chunk := chunks[i];
      var rest := new Chunk(chunk.offset + size, chunk.size - size, true);
      chunk.size := size;
      chunk.free := false;
      chunks := chunks[..i + 1] + [rest] + chunks[i + 1..];
      regions := Place(rs, i, size);
      SplitMirror(cs, rs, chunks, regions, i, chunk, rest);
    }

    /** Allocates `size` bytes: a pointer to the start of the chunk first fit picks, `size`
        bytes long. */
    method Alloc(size: nat) returns (r: Result<Pointer>)
      requires Valid()
      modifies this, chunks
      ensures Valid()
      ensures forall c :: c in chunks ==> c in old(chunks) || fresh(c)
      ensures r.Failure? <==> FirstFit(old(regions), size).None?
      ensures r.Failure? ==> r.error == OutOfMemory && regions == old(regions) && chunks == old(chunks)
      ensures r.Success? ==>
        var i := FirstFit(old(regions), size).value;
        && fresh(r.value) && r.value.Valid() && r.value.view == buffer
        && r.value.loc == old(regions)[i].offset && r.value.size == size
        && regions == Place(old(regions), i, size)
    {
      ghost var rs := regions;
      var c := FindFreeChunk(size);
      if c.Failure? {
        return Failure(c.error);
      }
      ghost var i := FirstFit(rs, size).value;
      PlaceAllocates(rs, i, size);
      TilesAt(regions, 0, buffer.Length, i);
      var p := new Pointer(buffer, c.value.offset, size);
      r := Success(p);
    }

    /** The free groups as this allocator collects them: a group that starts after an
        occupied chunk is opened empty, so it misses its first index. */
    method FindFreeChunkGroups() returns (gs: seq<seq<nat>>)
      requires Mirrored() && chunks != []
      ensures gs == AllocatorGroups(regions)
    {
      ghost var rs := regions;
      ghost var all := AllocatorGroups(rs);
      assert chunks[0].AsRegion() == rs[0];
      gs := [];
      var group: Option<seq<nat>> := if chunks[0].free then Some([]) else None;
      ScanBegin(rs, all);
      ghost var h: nat := 0;
      var i := 0;
      while i < |chunks|
        invariant 0 <= i <= |chunks| == |rs|
        invariant Scanned(rs, all, gs, group, h, i)
      {
        gs, group, h := ScanOne(all, gs, group, h, i);
        i := i + 1;
      }
      ScanEnd(rs, all, gs, group, h);
      if group.Some? {
        gs := gs + [group.value];
      }
    }

    /** One step of the finder: region `i` extends, opens or closes a group, or is passed over. */
    method ScanOne(ghost all: seq<seq<nat>>, gs: seq<seq<nat>>, group: Option<seq<nat>>, ghost h: nat, i: nat)
        returns (gs': seq<seq<nat>>, group': Option<seq<nat>>, ghost h': nat)
      requires Mirrored() && i < |chunks| && Scanned(regions, all, gs, group, h, i)
      ensures Scanned(regions, all, gs', group', h', i + 1)
    {
      ghost var rs := regions;
      assert chunks[i].free == rs[i].free;
      gs', group', h' := gs, group, h;
      if chunks[i].free {
        if group.Some? {
          ScanGrow(rs, all, gs, group.value, h, i);
          group' := Some(group.value + [i]);
        } else {
          ScanStart(rs, all, gs, h, i);
          group', h' := Some([]), i;
        }
      } else {
        if group.Some? {
          ScanClose(rs, all, gs, group.value, h, i);
          gs', group' := gs + [group.value], None;
        } else {
          ScanSkip(rs, all, gs, h, i);
        }
      }
    }

    /** What the finder knows after the regions before `i`: `all` is the groups it collected
        followed by the groups from the open group's start, or from `i` when none is open. */
    static ghost predicate Scanned(rs: seq<Region>, all: seq<seq<nat>>, gs: seq<seq<nat>>, group: Option<seq<nat>>, h: nat, i: nat)
    {
      && 0 < |rs| && i <= |rs|
      && (i == 0 ==> (group.Some? <==> rs[0].free) && h == 0)
      && (group.None? && 0 < i ==> !rs[i - 1].free)
      && (group.None? ==> all == gs + AllocatorGroupsFrom(rs, i))
      && (group.Some? ==> Opened(rs, h, i, group.value) && all == gs + AllocatorGroupsFrom(rs, h))
    }

    /** Before the first region, the finder has collected nothing, and has a group open
        exactly when the first region is free. */
    static lemma {:induction false} ScanBegin(rs: seq<Region>, all: seq<seq<nat>>)
      requires rs != [] && all == AllocatorGroups(rs)
      ensures Scanned(rs, all, [], if rs[0].free then Some([]) else None, 0, 0)
    {
      assert Range(0, 0) == [];
    }

    static lemma {:induction false} ScanGrow(rs: seq<Region>, all: seq<seq<nat>>, gs: seq<seq<nat>>, group: seq<nat>, h: nat, i: nat)
      requires Scanned(rs, all, gs, Some(group), h, i) && i < |rs| && rs[i].free
      ensures Scanned(rs, all, gs, Some(group + [i]), h, i + 1)
    {
      GrowOpened(rs, h, i, group);
    }

    static lemma {:induction false} ScanStart(rs: seq<Region>, all: seq<seq<nat>>, gs: seq<seq<nat>>, h: nat, i: nat)
      requires Scanned(rs, all, gs, None, h, i) && i < |rs| && rs[i].free
      ensures Scanned(rs, all, gs, Some([]), i, i + 1)
    {
      StartOpened(rs, i);
    }

    static lemma {:induction false} ScanClose(rs: seq<Region>, all: seq<seq<nat>>, gs: seq<seq<nat>>, group: seq<nat>, h: nat, i: nat)
      requires Scanned(rs, all, gs, Some(group), h, i) && i < |rs| && !rs[i].free
      ensures Scanned(rs, all, gs + [group], None, h, i + 1)
    {
      CloseGroup(rs, h, i, gs);
      SkipOccupied(rs, i);
    }

    static lemma {:induction false} ScanSkip(rs: seq<Region>, all: seq<seq<nat>>, gs: seq<seq<nat>>, h: nat, i: nat)
      requires Scanned(rs, all, gs, None, h, i) && i < |rs| && !rs[i].free
      ensures Scanned(rs, all, gs, None, h, i + 1)
    {
      SkipOccupied(rs, i);
    }

    /** At the end of the list the groups are those collected, and the open group, if any,
        is the last one. */
    static lemma {:induction false} ScanEnd(rs: seq<Region>, all: seq<seq<nat>>, gs: seq<seq<nat>>, group: Option<seq<nat>>, h: nat)
      requires Scanned(rs, all, gs, group, h, |rs|)
      ensures group.Some? ==> all == gs + [group.value]
      ensures group.None? ==> all == gs
    {
      assert AllocatorGroupsFrom(rs, |rs|) == [];
      if group.Some? {
        CloseGroup(rs, h, |rs|, gs);
      }
    }

    /** The group the finder has open at index `i`: the free run from `h`, without its first
        index unless it starts at 0. */
    static ghost predicate Opened(rs: seq<Region>, h: nat, i: nat, group: seq<nat>)
    {
      && h <= i <= |rs| && (h == i ==> h == 0) && (h < |rs| ==> rs[h].free)
      && group == (if h == 0 then Range(0, i) else Range(h + 1, i))
      && (forall k :: h <= k < i ==> rs[k].free)
      && (h == 0 || !rs[h - 1].free)
    }

    /** A free region extends the open group. */
    static lemma {:induction false} GrowOpened(rs: seq<Region>, h: nat, i: nat, group: seq<nat>)
      requires Opened(rs, h, i, group) && i < |rs| && rs[i].free
      ensures Opened(rs, h, i + 1, group + [i])
    {
      assert group + [i] == (if h == 0 then Range(0, i + 1) else Range(h + 1, i + 1));
    }

    /** A free region after an occupied one opens an empty group. */
    static lemma {:induction false} StartOpened(rs: seq<Region>, i: nat)
      requires 0 < i < |rs| && rs[i].free && !rs[i - 1].free
      ensures Opened(rs, i, i + 1, [])
    {
    }

    /** An occupied region starts no group. */
    static lemma {:induction false} SkipOccupied(rs: seq<Region>, i: nat)
      requires i < |rs| && !rs[i].free
      ensures AllocatorGroupsFrom(rs, i) == AllocatorGroupsFrom(rs, i + 1)
    {
      assert FreeRuns(rs, i) == FreeRuns(rs, i + 1);
    }

    /** The free run `h .. e` ends the group the finder has open. */
    static lemma {:induction false} CloseGroup(rs: seq<Region>, h: nat, e: nat, gs: seq<seq<nat>>)
      requires h < e <= |rs| && (forall k :: h <= k < e ==> rs[k].free) && (e == |rs| || !rs[e].free)
      ensures gs + AllocatorGroupsFrom(rs, h) ==
        gs + [if h == 0 then Range(0, e) else Range(h + 1, e)] + AllocatorGroupsFrom(rs, e)
    {
      GroupsFromRun(rs, h, e);
    }

    /** The groups from the start of a free run are the run's group and the groups after it. */
    static lemma {:induction false} GroupsFromRun(rs: seq<Region>, h: nat, e: nat)
      requires h < e <= |rs| && (forall k :: h <= k < e ==> rs[k].free) && (e == |rs| || !rs[e].free)
      ensures AllocatorGroupsFrom(rs, h) == [if h == 0 then Range(0, e) else Range(h + 1, e)] + AllocatorGroupsFrom(rs, e)
    {
      RunEndIs(rs, h, e);
      FreeRunsAreFreeRuns(rs, e);
      assert FreeRuns(rs, h) == [Range(h, e)] + FreeRuns(rs, e);
      DropHeadsCons(Range(h, e), FreeRuns(rs, e));
      if h > 0 {
        assert Range(h, e)[1..] == Range(h + 1, e);
      }
    }

    /** Free: the first chunk at the pointer's location and of its size is marked free,
        whether or not it already was, and the free chunks are joined; InvalidPointer when
        there is no such chunk. The join may stop with IndexError, as described there. */
    method Free(p: Pointer) returns (r: Outcome)
      requires Valid()
      modifies this, chunks
      ensures Mirrored()
      ensures forall c :: c in chunks ==> c in old(chunks)
      ensures FirstMatch(old(regions), p.loc, p.size).None? <==> r == Fail(InvalidPointer)
      ensures FirstMatch(old(regions), p.loc, p.size).None? ==> regions == old(regions) && chunks == old(chunks)
      ensures FirstMatch(old(regions), p.loc, p.size).Some? ==>
        var freed := SetFree(old(regions), FirstMatch(old(regions), p.loc, p.size).value);
        && regions == AllocatorJoined(freed)
        && (r.Fail? <==> FirstEmpty(AllocatorGroups(freed)) < |AllocatorGroups(freed)|)
        && (r.Fail? ==> r.error == IndexError)
        && (r.Fail? ==> (Valid() <==> !HeadGrows(freed, PassedGroups(freed))))
      ensures r.Pass? ==> Valid()
    {
      var i := 0;
      while i < |chunks|
        invariant 0 <= i <= |chunks|
        invariant chunks == old(chunks) && regions == old(regions)
        invariant forall j :: 0 <= j < i ==> !(regions[j].offset == p.loc && regions[j].size == p.size)
      {
        var chunk := chunks[i];
        if chunk.offset == p.loc && chunk.size == p.size {
          TilesSetFree(regions, i, true, 0, buffer.Length);
          chunk.free := true;
          regions := SetFree(regions, i);
          assert forall j :: 0 <= j < |chunks| && j != i ==> chunks[j] != chunk;
          r := JoinFreeChunks();
          return;
        }
        i := i + 1;
      }
      return Fail(InvalidPointer);
    }

    /** The size pass of the join: the first chunk of each group of two or more takes the
        sizes of the rest, whose indices are marked. A group of one is passed over; an empty
        group stops the pass with IndexError, when its first index is read. */
    method SizePass(gs: seq<seq<nat>>) returns (marked: seq<nat>, r: Outcome)
      requires Mirrored() && Runs(gs[..FirstEmpty(gs)], 0, |regions|)
      modifies this, chunks
      ensures Mirrored() && chunks == old(chunks)
      ensures r.Pass? <==> FirstEmpty(gs) == |gs|
      ensures r.Fail? ==> r.error == IndexError
      ensures Within(gs[..FirstEmpty(gs)], |old(regions)|) && regions == Absorb(old(regions), gs[..FirstEmpty(gs)])
      ensures r.Pass? ==> marked == Tails(gs)
      ensures forall c :: c in chunks ==> c.free == old(c.free) && c.offset == old(c.offset)
    {
      ghost var rs0 := regions;
      ghost var e := FirstEmpty(gs);
      marked := [];
      var gi := 0;
      while gi < |gs|
        invariant 0 <= gi <= e
        invariant Mirrored() && chunks == old(chunks) && |regions| == |rs0|
        invariant Within(gs[..gi], |rs0|) && regions == Absorb(rs0, gs[..gi])
        invariant marked == Tails(gs[..gi])
        invariant forall c :: c in chunks ==> c.free == old(c.free) && c.offset == old(c.offset)
      {
        if |gs[gi]| == 0 {
          assert gi == e;
          return marked, Fail(IndexError);
        }
        marked := SizeStep(rs0, gs, gi, marked);
        gi := gi + 1;
      }
      assert gs[..gi] == gs;
      r := Pass;
    }

    /** One non-empty group of the size pass. */
    method SizeStep(ghost rs0: seq<Region>, gs: seq<seq<nat>>, gi: nat, marked: seq<nat>) returns (marked': seq<nat>)
      requires Mirrored() && |regions| == |rs0| && gi < FirstEmpty(gs) && Runs(gs[..FirstEmpty(gs)], 0, |rs0|)
      requires Within(gs[..gi], |rs0|) && regions == Absorb(rs0, gs[..gi]) && marked == Tails(gs[..gi])
      modifies this, chunks
      ensures Mirrored() && chunks == old(chunks)
      ensures Within(gs[..gi + 1], |rs0|) && regions == Absorb(rs0, gs[..gi + 1])
      ensures marked' == Tails(gs[..gi + 1])
      ensures forall c :: c in chunks ==> c.free == old(c.free) && c.offset == old(c.offset)
    {
      RunsPrefix(gs, FirstEmpty(gs), gi + 1, |rs0|);
      if |gs[gi]| == 1 {
        SkipSingle(rs0, gs, gi);
        marked' := marked;
      } else {
        marked' := AbsorbGroup(rs0, gs, gi, marked);
      }
    }

    /** A group of one region changes nothing in the size pass. */
    static lemma {:induction false} SkipSingle(rs0: seq<Region>, gs: seq<seq<nat>>, gi: nat)
      requires gi < |gs| && Runs(gs[..gi + 1], 0, |rs0|) && |gs[gi]| == 1
      ensures Within(gs[..gi + 1], |rs0|)
      ensures Absorb(rs0, gs[..gi + 1]) == Absorb(rs0, gs[..gi])
      ensures Tails(gs[..gi + 1]) == Tails(gs[..gi])
    {
      var gs' := gs[..gi + 1];
      assert gs'[..gi] == gs[..gi] && gs'[..gi + 1] == gs';
      AbsorbNext(rs0, gs', gi);
      assert gs[gi][1..] == [];
    }

    /** One group of two or more of the size pass. */
    method AbsorbGroup(ghost rs0: seq<Region>, gs: seq<seq<nat>>, gi: nat, marked: seq<nat>) returns (marked': seq<nat>)
      requires Mirrored() && |regions| == |rs0| && gi < |gs| && Runs(gs[..gi + 1], 0, |rs0|) && |gs[gi]| > 1
      requires Within(gs[..gi], |rs0|) && regions == Absorb(rs0, gs[..gi]) && marked == Tails(gs[..gi])
      modifies this, chunks[gs[gi][0]]
      ensures Mirrored() && chunks == old(chunks)
      ensures Within(gs[..gi + 1], |rs0|) && regions == Absorb(rs0, gs[..gi + 1])
      ensures marked' == Tails(gs[..gi + 1])
      ensures forall c :: c in chunks ==> c.free == old(c.free) && c.offset == old(c.offset)
    {
      var group := gs[gi];
      ghost var gs' := gs[..gi + 1];
      assert gs'[..gi] == gs[..gi] && gs'[..gi + 1] == gs' && gs'[gi] == group;
      AbsorbNext(rs0, gs', gi);
      var added := AbsorbRun(rs0, group);
      marked' := marked + added;
    }

    /** The first chunk of the run `group` takes the sizes of the rest of the run, whose
        indices are returned. */
    method AbsorbRun(ghost rs0: seq<Region>, group: seq<nat>) returns (added: seq<nat>)
      requires Mirrored() && |regions| == |rs0| && IsRun(group) && |group| > 1 && Stop(group) <= |rs0|
      requires forall j :: group[0] <= j < |rs0| ==> regions[j] == rs0[j]
      modifies this, chunks[group[0]]
      ensures Mirrored() && chunks == old(chunks)
      ensures regions == old(regions)[group[0] := Absorbed(rs0, group[0], Stop(group))]
      ensures added == group[1..]
      ensures forall c :: c in chunks ==> c.free == old(c.free) && c.offset == old(c.offset)
    {
      var a := group[0];
      ghost var P := regions;
      var chunk := chunks[a];
      assert forall q :: 0 <= q < |chunks| && q != a ==> chunks[q] != chunk;
      added := GrowChunk(rs0, chunks, group, chunk);
      regions := P[a := Absorbed(rs0, a, Stop(group))];
    }

    /** The deletion pass of the join: the marked indices are deleted from the last to the
        first. */
    method DeletePass(marked: seq<nat>)
      requires Mirrored() && Deletable(marked, |chunks|)
      modifies this
      ensures Mirrored()
      ensures forall c :: c in chunks ==> c in old(chunks)
      ensures chunks == DeleteFrom(old(chunks), marked, 0) && regions == DeleteFrom(old(regions), marked, 0)
    {
      var j := |marked|;
      while j > 0
        invariant 0 <= j <= |marked|
        invariant chunks == DeleteFrom(old(chunks), marked, j) && regions == DeleteFrom(old(regions), marked, j)
        invariant forall c :: c in chunks ==> c in old(chunks)
        invariant Mirrored()
      {
        j := j - 1;
        var idx := marked[j];
        DropMirror(chunks, regions, idx);
        chunks := chunks[..idx] + chunks[idx + 1..];
        regions := regions[..idx] + regions[idx + 1..];
      }
    }

    /** The join: the groups are collected, each merged into its first chunk, and the merged
        chunks deleted. It stops with IndexError exactly when a group is empty, leaving the
        groups before it grown and nothing deleted, and the chunks then partition the buffer
        exactly when no group grew its first chunk; when it runs through, the chunks still
        partition the buffer. */
    method JoinFreeChunks() returns (r: Outcome)
      requires Valid()
      modifies this, chunks
      ensures Mirrored()
      ensures forall c :: c in chunks ==> c in old(chunks)
      ensures regions == AllocatorJoined(old(regions))
      ensures r.Fail? <==> FirstEmpty(AllocatorGroups(old(regions))) < |AllocatorGroups(old(regions))|
      ensures r.Fail? ==> r.error == IndexError && chunks == old(chunks)
      ensures r.Fail? ==> (Valid() <==> !HeadGrows(old(regions), PassedGroups(old(regions))))
      ensures r.Pass? ==> Valid()
    {
      ghost var rs0 := regions;
      var gs := FindFreeChunkGroups();
      AllocatorGroupsRuns(rs0);
      var marked;
      marked, r := SizePass(gs);
      if r.Fail? {
        AllocatorJoinStops(rs0, buffer.Length);
        return;
      }
      assert gs[..FirstEmpty(gs)] == gs;
      AllocatorJoinTiles(rs0, buffer.Length);
      DeletePass(marked);
    }
  }
}

/** Compaction, as values: the chunk list and the buffer contents after every occupied region
    has slid down next to the one before it. */
module Compaction {
  import opened Layout
  import opened Bytes

  /** The regions `os`, in order, moved to lie one after the other from offset 0. */
  function Pack(os: seq<Region>): (r: seq<Region>)
    ensures |r| == |os|
    decreases |os|
  {
    if os == [] then []
    else var init := os[..|os| - 1]; Pack(init) + [os[|os| - 1].(offset := SumSizes(init))]
  }

  /** The bytes of the regions `os` in `mem`, one region after the other, each read the way a
      chunk reads itself from a buffer. */
  function Gather(os: seq<Region>, mem: seq<byte>): seq<byte>
    decreases |os|
  {
    if os == [] then []
    else var last := os[|os| - 1]; Gather(os[..|os| - 1], mem) + Slice(mem, last.offset, last.End())
  }

  /** The chunk list after compaction of the partition `rs` of `n` bytes: the occupied regions
      packed from offset 0, followed by one free region for the rest when there is a rest. */
  function Compact(rs: seq<Region>, n: nat): seq<Region>
  {
    var os := Occupied(rs);
    var total := SumSizes(os);
    Pack(os) + (if total < n then [Region(total, n - total, true)] else [])
  }

  /** The buffer after compaction of the regions `rs` of `mem`: the bytes of the occupied
      regions, one after the other from offset 0, then the bytes of `mem` from where they end. */
  function CompactBytes(rs: seq<Region>, mem: seq<byte>): seq<byte>
  {
    var total := SumSizes(Occupied(rs));
    Gather(Occupied(rs), mem) + (if total <= |mem| then mem[total..] else [])
  }

  /** The indices of the occupied regions of `rs`, in order. */
  function LiveIndices(rs: seq<Region>): (r: seq<nat>)
    ensures |r| == |Occupied(rs)|
    ensures forall q :: 0 <= q < |r| ==> r[q] < |rs| && rs[r[q]] == Occupied(rs)[q]
    ensures forall q, q' :: 0 <= q < q' < |r| ==> r[q] < r[q']
    decreases |rs|
  {
    if rs == [] then []
    else
      var init, last := rs[..|rs| - 1], rs[|rs| - 1];
      assert rs == init + [last];
      OccupiedAppend(init, [last]);
      assert [last][1..] == [];
      LiveIndices(init) + (if last.free then [] else [|rs| - 1])
  }

  /** Each region in `os` within `mem`. */
  predicate InBounds(os: seq<Region>, mem: seq<byte>)
  {
    forall k :: 0 <= k < |os| ==> os[k].End() <= |mem|
  }

  // ---------------------------------------------------------------------------------------
  // Packing

  /** The packed region `i` is region `i` at the offset that is the sum of the sizes before it. */
  lemma {:induction false} PackAt(os: seq<Region>, i: nat)
    requires i < |os|
    ensures Pack(os)[i] == os[i].(offset := SumSizes(os[..i]))
    decreases |os|
  {
    var init := os[..|os| - 1];
    if i < |os| - 1 {
      PackAt(init, i);
      assert init[..i] == os[..i];
    } else {
      assert init == os[..i];
    }
  }

  /** Packed regions tile `0 .. SumSizes(os)`. */
  lemma {:induction false} PackTiles(os: seq<Region>)
    ensures Tiles(Pack(os), 0, SumSizes(os))
    decreases |os|
  {
    if os != [] {
      var init := os[..|os| - 1];
      var last := os[|os| - 1];
      PackTiles(init);
      assert os == init + [last];
      SumSizesAppend(init, [last]);
      assert SumSizes([last]) == last.size by {
        assert [last][1..] == [];
      }
      var r := last.(offset := SumSizes(init));
      assert Tiles([r], SumSizes(init), SumSizes(os)) by {
        assert [r][1..] == [];
      }
      TilesAppend(Pack(init), [r], 0, SumSizes(os));
      SumSizesAppend(Pack(init), []);
      PackSizes(init);
    }
  }

  /** Packing keeps every size. */
  lemma {:induction false} PackSizes(os: seq<Region>)
    ensures SumSizes(Pack(os)) == SumSizes(os)
    decreases |os|
  {
    if os != [] {
      var init := os[..|os| - 1];
      var last := os[|os| - 1];
      PackSizes(init);
      assert os == init + [last];
      SumSizesAppend(init, [last]);
      SumSizesAppend(Pack(init), [last.(offset := SumSizes(init))]);
      assert SumSizes([last]) == last.size by {
        assert [last][1..] == [];
      }
      assert SumSizes([last.(offset := SumSizes(init))]) == last.size by {
        assert [last.(offset := SumSizes(init))][1..] == [];
      }
    }
  }

  /** Packing occupied regions leaves them all occupied. */
  lemma {:induction false} PackOccupied(os: seq<Region>)
    requires forall k :: 0 <= k < |os| ==> !os[k].free
    ensures Occupied(Pack(os)) == Pack(os)
    decreases |os|
  {
    if os != [] {
      var init := os[..|os| - 1];
      var r := os[|os| - 1].(offset := SumSizes(init));
      PackOccupied(init);
      OccupiedAppend(Pack(init), [r]);
      assert Occupied([r]) == [r] by {
        assert [r][1..] == [];
      }
    }
  }

  /** The occupied regions of any list are all occupied. */
  lemma {:induction false} OccupiedAreOccupied(rs: seq<Region>)
    ensures forall k :: 0 <= k < |Occupied(rs)| ==> !Occupied(rs)[k].free
  {
    if rs != [] {
      OccupiedAreOccupied(rs[1..]);
    }
  }

  // ---------------------------------------------------------------------------------------
  // Gathering bytes

  lemma {:induction false} GatherLength(os: seq<Region>, mem: seq<byte>)
    requires InBounds(os, mem)
    ensures |Gather(os, mem)| == SumSizes(os)
    decreases |os|
  {
    if os != [] {
      var init := os[..|os| - 1];
      var last := os[|os| - 1];
      GatherLength(init, mem);
      assert os == init + [last];
      SumSizesAppend(init, [last]);
      assert SumSizes([last]) == last.size by {
        assert [last][1..] == [];
      }
    }
  }

  /** The gathered bytes hold, at the packed offset of each region, that region's bytes. */
  lemma {:induction false} GatherAt(os: seq<Region>, mem: seq<byte>, i: nat)
    requires InBounds(os, mem) && i < |os|
    ensures SumSizes(os[..i]) + os[i].size <= |Gather(os, mem)|
    ensures Gather(os, mem)[SumSizes(os[..i])..SumSizes(os[..i]) + os[i].size] == mem[os[i].offset..os[i].End()]
    decreases |os|
  {
    var init := os[..|os| - 1];
    assert InBounds(init, mem);
    if i < |os| - 1 {
      GatherAt(init, mem, i);
      GatherExtend(os, mem, i);
    } else {
      GatherLast(os, mem, i);
    }
  }

  /** The step of `GatherAt` for a region before the last. */
  lemma {:induction false} GatherExtend(os: seq<Region>, mem: seq<byte>, i: nat)
    requires InBounds(os, mem) && i < |os| - 1
    requires var init := os[..|os| - 1];
      && SumSizes(init[..i]) + init[i].size <= |Gather(init, mem)|
      && Gather(init, mem)[SumSizes(init[..i])..SumSizes(init[..i]) + init[i].size] == mem[init[i].offset..init[i].End()]
    ensures SumSizes(os[..i]) + os[i].size <= |Gather(os, mem)|
    ensures Gather(os, mem)[SumSizes(os[..i])..SumSizes(os[..i]) + os[i].size] == mem[os[i].offset..os[i].End()]
  {
    var init := os[..|os| - 1];
    var last := os[|os| - 1];
    assert init[..i] == os[..i] && init[i] == os[i];
    var X, Y := Gather(init, mem), Slice(mem, last.offset, last.End());
    assert Gather(os, mem) == X + Y;
    var a := SumSizes(os[..i]);
    var b := a + os[i].size;
    assert (X + Y)[a..b] == X[a..b];
  }

  /** The step of `GatherAt` for the last region. */
  lemma {:induction false} GatherLast(os: seq<Region>, mem: seq<byte>, i: nat)
    requires InBounds(os, mem) && i == |os| - 1
    ensures SumSizes(os[..i]) + os[i].size <= |Gather(os, mem)|
    ensures Gather(os, mem)[SumSizes(os[..i])..SumSizes(os[..i]) + os[i].size] == mem[os[i].offset..os[i].End()]
  {
    var init := os[..i];
    var last := os[i];
    assert InBounds(init, mem);
    GatherLength(init, mem);
    var X, Y := Gather(init, mem), Slice(mem, last.offset, last.End());
    assert Y == mem[last.offset..last.End()] && |Y| == last.size;
    assert Gather(os, mem) == X + Y;
    assert |X| == SumSizes(init);
    assert (X + Y)[|X|..|X| + |Y|] == Y;
  }

  /** A prefix's sizes add up to no more than the whole list's. */
  lemma {:induction false} SumSizesPrefix(os: seq<Region>, i: nat)
    requires i <= |os|
    ensures SumSizes(os[..i]) <= SumSizes(os)
  {
    assert os == os[..i] + os[i..];
    SumSizesAppend(os[..i], os[i..]);
  }

  /** One more region of the list, a free one: the occupied regions and their indices stay. */
  lemma {:induction false} CompactSkip(rs: seq<Region>, i: nat)
    requires i < |rs| && rs[i].free
    ensures Occupied(rs[..i + 1]) == Occupied(rs[..i])
    ensures LiveIndices(rs[..i + 1]) == LiveIndices(rs[..i])
  {
    assert rs[..i + 1] == rs[..i] + [rs[i]];
    assert rs[..i + 1][..i] == rs[..i];
    OccupiedAppend(rs[..i], [rs[i]]);
    assert [rs[i]][1..] == [];
  }

  /** One more region of the list, an occupied one: the occupied regions, their indices and
      their packing grow by that region, packed right after the ones before it. */
  lemma {:induction false} CompactTake(rs: seq<Region>, i: nat)
    requires i < |rs| && !rs[i].free
    ensures Occupied(rs[..i + 1]) == Occupied(rs[..i]) + [rs[i]]
    ensures LiveIndices(rs[..i + 1]) == LiveIndices(rs[..i]) + [i]
    ensures Pack(Occupied(rs[..i + 1])) == Pack(Occupied(rs[..i])) + [rs[i].(offset := SumSizes(Occupied(rs[..i])))]
    ensures SumSizes(Occupied(rs[..i + 1])) == SumSizes(Occupied(rs[..i])) + rs[i].size
  {
    assert rs[..i + 1] == rs[..i] + [rs[i]];
    assert rs[..i + 1][..i] == rs[..i];
    OccupiedAppend(rs[..i], [rs[i]]);
    assert [rs[i]][1..] == [];
    var os := Occupied(rs[..i]);
    assert (os + [rs[i]])[..|os|] == os;
    SumSizesAppend(os, [rs[i]]);
  }

  /** One more occupied region: the gathered bytes grow by that region's bytes. */
  lemma {:induction false} GatherTake(rs: seq<Region>, i: nat, mem: seq<byte>)
    requires i < |rs| && !rs[i].free
    ensures Gather(Occupied(rs[..i + 1]), mem) == Gather(Occupied(rs[..i]), mem) + Slice(mem, rs[i].offset, rs[i].End())
  {
    CompactTake(rs, i);
    var os := Occupied(rs[..i]);
    assert (os + [rs[i]])[..|os|] == os;
  }

  /** Moving one occupied region down to `cur`: its bytes are still the original ones, and
      afterwards the buffer holds the moved bytes up to the new cursor and the original bytes
      after it. */
  lemma {:induction false} MoveStep(buf: seq<byte>, mem0: seq<byte>, cur: nat, o: Region, done: seq<byte>)
    requires cur <= o.offset && o.End() <= |buf| == |mem0|
    requires buf[..cur] == done && buf[cur..] == mem0[cur..]
    ensures buf[o.offset..o.End()] == mem0[o.offset..o.End()]
    ensures var b := Splice(buf, cur, mem0[o.offset..o.End()]);
      && b[..cur + o.size] == done + Slice(mem0, o.offset, o.End())
      && b[cur + o.size..] == mem0[cur + o.size..]
  {
    assert buf[o.offset..o.End()] == buf[cur..][o.offset - cur..o.End() - cur];
    assert mem0[o.offset..o.End()] == mem0[cur..][o.offset - cur..o.End() - cur];
    var b := Splice(buf, cur, mem0[o.offset..o.End()]);
    assert b == buf[..cur] + mem0[o.offset..o.End()] + buf[cur + o.size..];
    assert buf[cur + o.size..] == buf[cur..][o.size..];
    assert mem0[cur + o.size..] == mem0[cur..][o.size..];
  }

  /** Compaction of the partition `rs0` of the original bytes `mem0` after its first `i`
      regions: the occupied ones among them fill `buf` from 0 up to `cur` with their bytes, and
      the rest of `buf` still holds the original bytes. */
  ghost predicate Moving(rs0: seq<Region>, mem0: seq<byte>, i: nat, cur: nat, buf: seq<byte>)
  {
    && i <= |rs0| && |mem0| == |buf| && Partition(rs0, |buf|)
    && cur == SumSizes(Occupied(rs0[..i])) && cur <= |buf|
    && buf[..cur] == Gather(Occupied(rs0[..i]), mem0) && buf[cur..] == mem0[cur..]
  }

  /** One more region of compaction, a free one: it is passed over. */
  lemma {:induction false} MovingSkip(rs0: seq<Region>, mem0: seq<byte>, i: nat, cur: nat, buf: seq<byte>)
    requires Moving(rs0, mem0, i, cur, buf) && i < |rs0| && rs0[i].free
    ensures Moving(rs0, mem0, i + 1, cur, buf)
  {
    CompactSkip(rs0, i);
  }

  /** The region `i` still to be compacted lies at or after the cursor. */
  lemma {:induction false} AtOrAfterCursor(rs0: seq<Region>, mem0: seq<byte>, i: nat, cur: nat, buf: seq<byte>)
    requires Moving(rs0, mem0, i, cur, buf) && i < |rs0|
    ensures cur <= rs0[i].offset && rs0[i].End() <= |buf|
  {
    TilesAt(rs0, 0, |buf|, i);
    FreeAndOccupied(rs0[..i]);
  }

  /** One more region of compaction, an occupied one: it lies at or after `cur`, still holds
      its original bytes, and is copied down to `cur`. */
  lemma {:induction false} MovingTake(rs0: seq<Region>, mem0: seq<byte>, i: nat, cur: nat, buf: seq<byte>)
    requires Moving(rs0, mem0, i, cur, buf) && i < |rs0| && !rs0[i].free
    ensures cur <= rs0[i].offset && rs0[i].End() <= |buf|
    ensures buf[rs0[i].offset..rs0[i].End()] == mem0[rs0[i].offset..rs0[i].End()]
    ensures Moving(rs0, mem0, i + 1, cur + rs0[i].size, Splice(buf, cur, buf[rs0[i].offset..rs0[i].End()]))
  {
    var r := rs0[i];
    AtOrAfterCursor(rs0, mem0, i, cur, buf);
    MoveStep(buf, mem0, cur, r, Gather(Occupied(rs0[..i]), mem0));
    var b := Splice(buf, cur, buf[r.offset..r.End()]);
    assert b == Splice(buf, cur, mem0[r.offset..r.End()]);
    CompactTake(rs0, i);
    GatherTake(rs0, i, mem0);
    assert b[..cur + r.size] == Gather(Occupied(rs0[..i + 1]), mem0);
  }

  /** At the end of compaction the buffer holds the gathered bytes of all occupied regions,
      followed by the original bytes. */
  lemma {:induction false} MovingDone(rs0: seq<Region>, mem0: seq<byte>, cur: nat, buf: seq<byte>)
    requires Moving(rs0, mem0, |rs0|, cur, buf)
    ensures cur == SumSizes(Occupied(rs0)) && cur <= |buf|
    ensures Partition(rs0, |buf|) && buf == CompactBytes(rs0, mem0)
  {
    assert rs0[..|rs0|] == rs0;
    var os := Occupied(rs0);
    assert buf[..cur] == Gather(os, mem0) && buf[cur..] == mem0[cur..];
    JoinHalves(buf, cur);
  }

  /** A sequence is its two halves at `k`. */
  lemma {:induction false} JoinHalves(s: seq<byte>, k: nat)
    requires k <= |s|
    ensures s == s[..k] + s[k..]
  {
  }

  // ---------------------------------------------------------------------------------------
  // Compaction of a partition

  /** The occupied regions of a partition of `n` bytes add up to at most `n`. */
  lemma {:induction false} LiveWithin(rs: seq<Region>, n: nat)
    requires Partition(rs, n)
    ensures SumSizes(Occupied(rs)) + FreeBytes(rs) == n
  {
    TilesSum(rs, 0, n);
    FreeAndOccupied(rs);
  }

  /** Compaction yields a partition of the same bytes, with no two adjacent free regions, the
      same number of free bytes, and the occupied regions in their old order, packed from 0. */
  lemma {:induction false} CompactLayout(rs: seq<Region>, n: nat)
    requires Partition(rs, n)
    ensures Partition(Compact(rs, n), n)
    ensures NoAdjacentFree(Compact(rs, n))
    ensures FreeBytes(Compact(rs, n)) == FreeBytes(rs)
    ensures Occupied(Compact(rs, n)) == Pack(Occupied(rs))
  {
    CompactTiles(rs, n);
    CompactKeeps(rs, n);
  }

  /** Compaction yields a partition with no two adjacent free regions. */
  lemma {:induction false} CompactTiles(rs: seq<Region>, n: nat)
    requires Partition(rs, n)
    ensures Partition(Compact(rs, n), n)
    ensures NoAdjacentFree(Compact(rs, n))
  {
    var os := Occupied(rs);
    var total := SumSizes(os);
    var tail := if total < n then [Region(total, n - total, true)] else [];
    LiveWithin(rs, n);
    PackTiles(os);
    PackSizes(os);
    assert Tiles(tail, total, n) by {
      if total < n {
        assert tail[1..] == [];
      }
    }
    TilesAppend(Pack(os), tail, 0, n);
    OccupiedAreOccupied(rs);
    var c := Compact(rs, n);
    forall j | 0 < j < |c|
      ensures !(c[j - 1].free && c[j].free)
    {
      assert c[j - 1] == Pack(os)[j - 1];
      PackAt(os, j - 1);
    }
  }

  /** Compaction keeps the number of free bytes, and the occupied regions in their old order,
      packed from 0. */
  lemma {:induction false} CompactKeeps(rs: seq<Region>, n: nat)
    requires Partition(rs, n)
    ensures FreeBytes(Compact(rs, n)) == FreeBytes(rs)
    ensures Occupied(Compact(rs, n)) == Pack(Occupied(rs))
  {
    var os := Occupied(rs);
    var total := SumSizes(os);
    var tail := if total < n then [Region(total, n - total, true)] else [];
    LiveWithin(rs, n);
    PackSizes(os);
    OccupiedAreOccupied(rs);
    PackOccupied(os);
    OccupiedAppend(Pack(os), tail);
    FreeBytesAppend(Pack(os), tail);
    FreeAndOccupied(Pack(os));
    assert Occupied(tail) == [] && FreeBytes(tail) == n - total by {
      if total < n {
        assert tail[1..] == [];
      }
    }
  }

  /** After compaction each occupied region's bytes sit at its new offset: in the compacted
      buffer, the bytes of region `i` of the compacted list are the bytes that occupied region
      `i` held at its old offset. */
  lemma {:induction false} CompactMovesBytes(rs: seq<Region>, mem: seq<byte>, i: nat)
    requires Partition(rs, |mem|) && i < |Occupied(rs)|
    ensures |CompactBytes(rs, mem)| == |mem|
    ensures i < |Compact(rs, |mem|)| && Compact(rs, |mem|)[i].End() <= |mem| && Occupied(rs)[i].End() <= |mem|
    ensures CompactBytes(rs, mem)[Compact(rs, |mem|)[i].offset..Compact(rs, |mem|)[i].End()]
         == mem[Occupied(rs)[i].offset..Occupied(rs)[i].End()]
  {
    var os := Occupied(rs);
    LiveWithin(rs, |mem|);
    OccupiedInBounds(rs, 0, |mem|);
    GatherLength(os, mem);
    CompactAt(rs, |mem|, i);
    GatherAt(os, mem, i);
    SliceOfFront(Gather(os, mem), mem[SumSizes(os)..], SumSizes(os[..i]), SumSizes(os[..i]) + os[i].size);
  }

  /** Region `i` of the compacted list is occupied region `i` at its packed offset. */
  lemma {:induction false} CompactAt(rs: seq<Region>, n: nat, i: nat)
    requires i < |Occupied(rs)|
    ensures i < |Compact(rs, n)|
    ensures Compact(rs, n)[i] == Occupied(rs)[i].(offset := SumSizes(Occupied(rs)[..i]))
    ensures !Occupied(rs)[i].free
  {
    PackAt(Occupied(rs), i);
    OccupiedAreOccupied(rs);
  }

  /** A slice within the front part of a concatenation is a slice of the front part. */
  lemma {:induction false} SliceOfFront(x: seq<byte>, y: seq<byte>, a: nat, b: nat)
    requires a <= b <= |x|
    ensures (x + y)[a..b] == x[a..b]
  {
  }

  /** The occupied regions of a partition lie inside it. */
  lemma {:induction false} OccupiedInBounds(rs: seq<Region>, start: nat, end: nat)
    requires Tiles(rs, start, end)
    ensures forall k :: 0 <= k < |Occupied(rs)| ==> Occupied(rs)[k].End() <= end
  {
    if rs != [] {
      OccupiedInBounds(rs[1..], rs[0].End(), end);
      TilesSum(rs[1..], rs[0].End(), end);
    }
  }
}

/** Chunk lists as values: the regions of a buffer, in list order, and what it means for them
    to partition the buffer. */
module Layout {
  /** One chunk's span, bytes `offset .. offset + size`, and whether it is free. */
  datatype Region = Region(offset: nat, size: nat, free: bool) {
    function End(): nat { offset + size }
  }

  function SumSizes(rs: seq<Region>): nat
  {
    if rs == [] then 0 else rs[0].size + SumSizes(rs[1..])
  }

  /** The number of bytes in free regions. */
  function FreeBytes(rs: seq<Region>): nat
  {
    if rs == [] then 0 else (if rs[0].free then rs[0].size else 0) + FreeBytes(rs[1..])
  }

  /** The occupied regions, in order. */
  function Occupied(rs: seq<Region>): seq<Region>
  {
    if rs == [] then [] else (if rs[0].free then [] else [rs[0]]) + Occupied(rs[1..])
  }

  /** `rs` covers `start .. end` exactly, with no gap and no overlap: the first region starts at
      `start` and each later one where its predecessor ends. */
  predicate Tiles(rs: seq<Region>, start: nat, end: nat)
    decreases |rs|
  {
    if rs == [] then start == end else rs[0].offset == start && Tiles(rs[1..], rs[0].End(), end)
  }

  /** The chunk list of a buffer of `n` bytes is an exhaustive contiguous partition of it. */
  predicate Partition(rs: seq<Region>, n: nat)
  {
    Tiles(rs, 0, n)
  }

  predicate NoAdjacentFree(rs: seq<Region>)
  {
    forall i :: 0 < i < |rs| ==> !(rs[i - 1].free && rs[i].free)
  }

  lemma {:induction false} SumSizesAppend(a: seq<Region>, b: seq<Region>)
    ensures SumSizes(a + b) == SumSizes(a) + SumSizes(b)
  {
    if a == [] {
      assert a + b == b;
    } else {
      assert (a + b)[1..] == a[1..] + b;
      SumSizesAppend(a[1..], b);
    }
  }

  lemma {:induction false} FreeBytesAppend(a: seq<Region>, b: seq<Region>)
    ensures FreeBytes(a + b) == FreeBytes(a) + FreeBytes(b)
  {
    if a == [] {
      assert a + b == b;
    } else {
      assert (a + b)[1..] == a[1..] + b;
      FreeBytesAppend(a[1..], b);
    }
  }

  lemma {:induction false} OccupiedAppend(a: seq<Region>, b: seq<Region>)
    ensures Occupied(a + b) == Occupied(a) + Occupied(b)
  {
    if a == [] {
      assert a + b == b;
    } else {
      assert (a + b)[1..] == a[1..] + b;
      OccupiedAppend(a[1..], b);
    }
  }

  /** A partition's sizes add up to the length it covers. */
  lemma {:induction false} TilesSum(rs: seq<Region>, start: nat, end: nat)
    requires Tiles(rs, start, end)
    ensures end == start + SumSizes(rs)
  {
    if rs != [] {
      TilesSum(rs[1..], rs[0].End(), end);
    }
  }

  /** Two lists tile consecutive spans exactly when their concatenation tiles the union. */
  lemma {:induction false} TilesAppend(a: seq<Region>, b: seq<Region>, start: nat, end: nat)
    ensures Tiles(a + b, start, end) <==>
            Tiles(a, start, start + SumSizes(a)) && Tiles(b, start + SumSizes(a), end)
  {
    if a == [] {
      assert a + b == b;
    } else {
      assert (a + b)[0] == a[0];
      assert (a + b)[1..] == a[1..] + b;
      TilesAppend(a[1..], b, a[0].End(), end);
    }
  }

  /** In a partition, region `i` starts after the sizes of all regions before it and ends
      within the partitioned span. */
  lemma {:induction false} TilesAt(rs: seq<Region>, start: nat, end: nat, i: nat)
    requires Tiles(rs, start, end) && i < |rs|
    ensures rs[i].offset == start + SumSizes(rs[..i])
    ensures rs[i].End() <= end
  {
    if i == 0 {
      TilesSum(rs[1..], rs[0].End(), end);
    } else {
      TilesAt(rs[1..], rs[0].End(), end, i - 1);
      assert rs[..i][1..] == rs[1..][..i - 1];
    }
  }

  /** In a partition of `start .. end` every region lies inside that span. */
  lemma {:induction false} TilesInside(rs: seq<Region>, start: nat, end: nat)
    requires Tiles(rs, start, end)
    ensures forall i :: 0 <= i < |rs| ==> start <= rs[i].offset && rs[i].End() <= end
  {
    forall i | 0 <= i < |rs|
      ensures start <= rs[i].offset && rs[i].End() <= end
    {
      TilesAt(rs, start, end, i);
    }
  }

  /** Consecutive regions of a partition are adjacent: each starts where the previous ends. */
  lemma {:induction false} TilesAdjacent(rs: seq<Region>, start: nat, end: nat, i: nat)
    requires Tiles(rs, start, end) && 0 < i < |rs|
    ensures rs[i].offset == rs[i - 1].End()
  {
    TilesAt(rs, start, end, i);
    TilesAt(rs, start, end, i - 1);
    assert rs[..i] == rs[..i - 1] + [rs[i - 1]];
    SumSizesAppend(rs[..i - 1], [rs[i - 1]]);
    assert [rs[i - 1]][1..] == [];
  }

  /** Free and occupied bytes together make up the whole size. */
  lemma {:induction false} FreeAndOccupied(rs: seq<Region>)
    ensures FreeBytes(rs) + SumSizes(Occupied(rs)) == SumSizes(rs)
  {
    if rs != [] {
      FreeAndOccupied(rs[1..]);
      if rs[0].free {
        assert Occupied(rs) == Occupied(rs[1..]);
      } else {
        assert Occupied(rs) == [rs[0]] + Occupied(rs[1..]);
        SumSizesAppend([rs[0]], Occupied(rs[1..]));
        assert [rs[0]][1..] == [];
      }
    }
  }

  /** The sizes of a prefix one region longer. */
  lemma {:induction false} SumSizesStep(os: seq<Region>, i: nat)
    requires i < |os|
    ensures SumSizes(os[..i + 1]) == SumSizes(os[..i]) + os[i].size
  {
    assert os[..i + 1] == os[..i] + [os[i]];
    SumSizesAppend(os[..i], [os[i]]);
    assert [os[i]][1..] == [];
  }

  /** Whether a region is free does not matter to the partition. */
  lemma {:induction false} TilesSetFree(rs: seq<Region>, i: nat, b: bool, start: nat, end: nat)
    requires i < |rs|
    ensures Tiles(rs[i := rs[i].(free := b)], start, end) == Tiles(rs, start, end)
    decreases |rs|
  {
    var rs' := rs[i := rs[i].(free := b)];
    if i > 0 {
      assert rs'[1..] == rs[1..][i - 1 := rs[1..][i - 1].(free := b)];
      TilesSetFree(rs[1..], i - 1, b, rs[0].End(), end);
    } else {
      assert rs'[1..] == rs[1..];
    }
  }
}

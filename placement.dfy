/** First-fit placement: which chunk an allocation takes, and how the chunk list changes. */
module Placement {
  import opened Errors
  import opened Layout

  /** Region `r` can serve a request for `size` bytes: it is free and at least that large. */
  predicate Fits(r: Region, size: nat)
  {
    r.free && size <= r.size
  }

  /** The lowest index of a region that can serve the request, or None if there is none. */
  function FirstFit(rs: seq<Region>, size: nat): (r: Option<nat>)
    ensures r.Some? ==> r.value < |rs| && Fits(rs[r.value], size)
    ensures r.Some? ==> forall j :: 0 <= j < r.value ==> !Fits(rs[j], size)
    ensures r.None? ==> forall j :: 0 <= j < |rs| ==> !Fits(rs[j], size)
  {
    if rs == [] then None
    else if Fits(rs[0], size) then Some(0)
    else match FirstFit(rs[1..], size)
      case None => None
      case Some(j) => Some(j + 1)
  }

  /** The chunk list after `size` bytes are taken from the free region `i`. An exact fit only
      turns the region occupied; a larger region shrinks to `size`, turns occupied, and a new
      free region with the remainder is inserted right after it. */
  function Place(rs: seq<Region>, i: nat, size: nat): seq<Region>
    requires i < |rs| && Fits(rs[i], size)
  {
    var r := rs[i];
    if r.size == size then rs[i := r.(free := false)]
    else rs[..i] + [Region(r.offset, size, false), Region(r.offset + size, r.size - size, true)] + rs[i + 1..]
  }

  /** The two pieces that replace region `i` of `rs` in `Place(rs, i, size)`. */
  function PlacedPieces(r: Region, size: nat): seq<Region>
    requires Fits(r, size)
  {
    if r.size == size then [r.(free := false)]
    else [Region(r.offset, size, false), Region(r.offset + size, r.size - size, true)]
  }

  lemma {:induction false} PlaceSplits(rs: seq<Region>, i: nat, size: nat)
    requires i < |rs| && Fits(rs[i], size)
    ensures Place(rs, i, size) == rs[..i] + PlacedPieces(rs[i], size) + rs[i + 1..]
  {
    if rs[i].size == size {
      assert rs[i := rs[i].(free := false)] == rs[..i] + [rs[i].(free := false)] + rs[i + 1..];
    }
  }

  /** Placing touches region `i` only: the regions before it and after it are kept as they are,
      region `i` becomes the occupied span `offset .. offset + size`, and on a split the
      remainder is a free region right after it; the list grows by one exactly on a split. */
  lemma {:induction false} PlaceAllocates(rs: seq<Region>, i: nat, size: nat)
    requires i < |rs| && Fits(rs[i], size)
    ensures var p := Place(rs, i, size);
      |p| == (if rs[i].size == size then |rs| else |rs| + 1) &&
      p[..i] == rs[..i] &&
      p[i] == Region(rs[i].offset, size, false) &&
      (rs[i].size > size ==> p[i + 1] == Region(rs[i].offset + size, rs[i].size - size, true)) &&
      p[|p| - (|rs| - i - 1)..] == rs[i + 1..]
  {
    PlaceSplits(rs, i, size);
  }

  /** The pieces cover exactly the span of the region they replace, and hold `size` bytes
      fewer free bytes. */
  lemma {:induction false} PiecesCover(r: Region, size: nat)
    requires Fits(r, size)
    ensures Tiles(PlacedPieces(r, size), r.offset, r.End())
    ensures SumSizes(PlacedPieces(r, size)) == r.size
    ensures FreeBytes(PlacedPieces(r, size)) == r.size - size
  {
    var mid := PlacedPieces(r, size);
    if r.size != size {
      assert mid[1..][1..] == [];
      assert SumSizes(mid[1..]) == r.size - size;
      assert FreeBytes(mid[1..]) == r.size - size;
    } else {
      assert mid[1..] == [];
    }
  }

  /** Placing keeps the partition of the buffer. */
  lemma {:induction false} PlaceKeepsPartition(rs: seq<Region>, i: nat, size: nat, n: nat)
    requires i < |rs| && Fits(rs[i], size)
    requires Partition(rs, n)
    ensures Partition(Place(rs, i, size), n)
  {
    var a, mid, c := rs[..i], PlacedPieces(rs[i], size), rs[i + 1..];
    PlaceSplits(rs, i, size);
    PiecesCover(rs[i], size);
    assert rs == a + [rs[i]] + c;
    assert SumSizes([rs[i]]) == rs[i].size by {
      assert [rs[i]][1..] == [];
    }
    TilesReplace(a, [rs[i]], mid, c, n);
  }

  /** Replacing a stretch `x` of a partition by a stretch `y` that covers the same span keeps
      the partition. */
  lemma {:induction false} TilesReplace(a: seq<Region>, x: seq<Region>, y: seq<Region>, c: seq<Region>, n: nat)
    requires Tiles(a + x + c, 0, n) && SumSizes(y) == SumSizes(x)
    requires Tiles(x, SumSizes(a), SumSizes(a) + SumSizes(x)) ==> Tiles(y, SumSizes(a), SumSizes(a) + SumSizes(x))
    ensures Tiles(a + y + c, 0, n)
  {
    SumSizesAppend(a, x);
    SumSizesAppend(a, y);
    TilesAppend(a + x, c, 0, n);
    TilesAppend(a, x, 0, SumSizes(a + x));
    TilesAppend(a, y, 0, SumSizes(a + y));
    TilesAppend(a + y, c, 0, n);
  }

  /** Placing takes exactly `size` bytes out of the free bytes. */
  lemma {:induction false} PlaceTakesFreeBytes(rs: seq<Region>, i: nat, size: nat)
    requires i < |rs| && Fits(rs[i], size)
    ensures FreeBytes(Place(rs, i, size)) == FreeBytes(rs) - size
  {
    var a, mid, c := rs[..i], PlacedPieces(rs[i], size), rs[i + 1..];
    PlaceSplits(rs, i, size);
    PiecesCover(rs[i], size);
    assert rs == a + [rs[i]] + c;
    FreeBytesOfThree(a, [rs[i]], c);
    FreeBytesOfThree(a, mid, c);
    assert FreeBytes([rs[i]]) == rs[i].size by {
      assert [rs[i]][1..] == [];
    }
  }

  lemma {:induction false} FreeBytesOfThree(a: seq<Region>, b: seq<Region>, c: seq<Region>)
    ensures FreeBytes(a + b + c) == FreeBytes(a) + FreeBytes(b) + FreeBytes(c)
  {
    FreeBytesAppend(a + b, c);
    FreeBytesAppend(a, b);
  }

  /** Placing never creates two adjacent free regions. */
  lemma {:induction false} PlaceKeepsNoAdjacentFree(rs: seq<Region>, i: nat, size: nat)
    requires i < |rs| && Fits(rs[i], size)
    requires NoAdjacentFree(rs)
    ensures NoAdjacentFree(Place(rs, i, size))
  {
    var p := Place(rs, i, size);
    forall j | 0 < j < |p|
      ensures !(p[j - 1].free && p[j].free)
    {
      if rs[i].size != size && j == i + 2 {
        assert p[j] == rs[i + 1];
      } else if rs[i].size != size && j > i + 2 {
        assert p[j - 1] == rs[j - 2] && p[j] == rs[j - 1];
      }
    }
  }
}

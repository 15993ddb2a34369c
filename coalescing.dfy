/** Coalescing of free chunks, as values: the maximal runs of free regions, the list in which
    every such run is merged into its first region, and merging of given index runs. */
module Coalescing {
  import opened Layout

  /** The end (exclusive) of the maximal run of free regions that starts at the free region `i`. */
  function RunEnd(rs: seq<Region>, i: nat): (e: nat)
    requires i < |rs| && rs[i].free
    ensures i < e <= |rs|
    ensures forall k :: i <= k < e ==> rs[k].free
    ensures e == |rs| || !rs[e].free
    decreases |rs| - i
  {
    if i + 1 < |rs| && rs[i + 1].free then RunEnd(rs, i + 1) else i + 1
  }

  /** A run of free regions from `h` up to an occupied region or the end ends there. */
  lemma {:induction false} RunEndIs(rs: seq<Region>, h: nat, e: nat)
    requires h < e <= |rs| && (forall k :: h <= k < e ==> rs[k].free) && (e == |rs| || !rs[e].free)
    ensures RunEnd(rs, h) == e
    decreases e - h
  {
    if h + 1 < e {
      RunEndIs(rs, h + 1, e);
    }
  }

  /** The indices `lo, lo + 1, .., hi - 1`. */
  function Range(lo: nat, hi: nat): (r: seq<nat>)
    requires lo <= hi
    ensures |r| == hi - lo && forall k :: 0 <= k < |r| ==> r[k] == lo + k
  {
    seq(hi - lo, k => lo + k)
  }

  /** The maximal runs of free regions at index `i` or later, each as its list of indices, in
      list order. */
  function FreeRuns(rs: seq<Region>, i: nat): seq<seq<nat>>
    decreases |rs| - i
  {
    if i >= |rs| then []
    else if !rs[i].free then FreeRuns(rs, i + 1)
    else var e := RunEnd(rs, i); [Range(i, e)] + FreeRuns(rs, e)
  }

  /** The regions from index `i` on, with every maximal run of free regions merged into its first
      region: that region keeps its offset and takes the summed size of the run. */
  function CoalesceFrom(rs: seq<Region>, i: nat): seq<Region>
    decreases |rs| - i
  {
    if i >= |rs| then []
    else if !rs[i].free then [rs[i]] + CoalesceFrom(rs, i + 1)
    else var e := RunEnd(rs, i); [Region(rs[i].offset, SumSizes(rs[i..e]), true)] + CoalesceFrom(rs, e)
  }

  function Coalesce(rs: seq<Region>): seq<Region>
  {
    CoalesceFrom(rs, 0)
  }

  /** A run of indices: non-empty, each one more than the one before. */
  predicate IsRun(g: seq<nat>)
  {
    |g| > 0 && forall k :: 0 <= k < |g| ==> g[k] == g[0] + k
  }

  /** One past the last index of a run. */
  function Stop(g: seq<nat>): nat
    requires |g| > 0
  {
    g[0] + |g|
  }

  /** `gs` lists runs of indices in `pos .. n`, in increasing order and without overlap. */
  predicate Runs(gs: seq<seq<nat>>, pos: nat, n: nat)
  {
    pos <= n &&
    (forall k :: 0 <= k < |gs| ==> IsRun(gs[k]) && pos <= gs[k][0] && Stop(gs[k]) <= n) &&
    (forall k, l :: 0 <= k < l < |gs| ==> Stop(gs[k]) <= gs[l][0])
  }

  /** The region `rs[a]` grown to the summed size of `rs[a .. b]`. */
  function Absorbed(rs: seq<Region>, a: nat, b: nat): Region
    requires a < b <= |rs|
  {
    rs[a].(size := SumSizes(rs[a..b]))
  }

  /** The regions from `pos` on, with the regions of each run of `gs` merged into the run's
      first region. */
  function MergeRuns(rs: seq<Region>, gs: seq<seq<nat>>, pos: nat): seq<Region>
    requires Runs(gs, pos, |rs|)
    decreases |gs|
  {
    if gs == [] then rs[pos..]
    else rs[pos..gs[0][0]] + [Absorbed(rs, gs[0][0], Stop(gs[0]))] + MergeRuns(rs, gs[1..], Stop(gs[0]))
  }

  // ---------------------------------------------------------------------------------------
  // The maximal free runs

  /** The free runs are runs of indices of free regions, in order, and each is maximal: it
      starts at index 0 or after an occupied region, and ends at the end or before an
      occupied region. */
  lemma {:induction false} FreeRunsAreMaximalRuns(rs: seq<Region>, i: nat)
    requires i <= |rs|
    ensures var gs := FreeRuns(rs, i);
      Runs(gs, i, |rs|) &&
      (forall k, j :: 0 <= k < |gs| && 0 <= j < |gs[k]| ==> rs[gs[k][j]].free) &&
      (forall k :: 0 <= k < |gs| && i < gs[k][0] ==> !rs[gs[k][0] - 1].free) &&
      (forall k :: 0 <= k < |gs| && Stop(gs[k]) < |rs| ==> !rs[Stop(gs[k])].free)
  {
    FreeRunsAreFreeRuns(rs, i);
    FreeRunsStartAfterOccupied(rs, i);
    FreeRunsStopAtOccupied(rs, i);
  }

  /** The free runs are runs of indices of free regions, in order. */
  lemma {:induction false} FreeRunsAreFreeRuns(rs: seq<Region>, i: nat)
    requires i <= |rs|
    ensures Runs(FreeRuns(rs, i), i, |rs|)
    ensures forall k, j :: 0 <= k < |FreeRuns(rs, i)| && 0 <= j < |FreeRuns(rs, i)[k]| ==> rs[FreeRuns(rs, i)[k][j]].free
    decreases |rs| - i
  {
    if i < |rs| {
      if !rs[i].free {
        FreeRunsAreFreeRuns(rs, i + 1);
      } else {
        var e := RunEnd(rs, i);
        FreeRunsAreFreeRuns(rs, e);
        var gs := FreeRuns(rs, i);
        assert gs == [Range(i, e)] + FreeRuns(rs, e);
        assert forall k :: 0 < k < |gs| ==> gs[k] == FreeRuns(rs, e)[k - 1];
      }
    }
  }

  /** A free run that does not start at `i` starts right after an occupied region. */
  lemma {:induction false} FreeRunsStartAfterOccupied(rs: seq<Region>, i: nat)
    requires i <= |rs|
    ensures forall k :: 0 <= k < |FreeRuns(rs, i)| && |FreeRuns(rs, i)[k]| > 0 && i < FreeRuns(rs, i)[k][0] < |rs| ==> !rs[FreeRuns(rs, i)[k][0] - 1].free
    decreases |rs| - i
  {
    FreeRunsAreFreeRuns(rs, i);
    if i < |rs| {
      if !rs[i].free {
        FreeRunsStartAfterOccupied(rs, i + 1);
      } else {
        var e := RunEnd(rs, i);
        FreeRunsStartAfterOccupied(rs, e);
        FreeRunsAreFreeRuns(rs, e);
        var gs, tl := FreeRuns(rs, i), FreeRuns(rs, e);
        assert gs == [Range(i, e)] + tl;
        forall k | 0 < k < |gs|
          ensures gs[k] == tl[k - 1] && e < gs[k][0]
        {
          assert rs[tl[k - 1][0]].free;
        }
      }
    }
  }

  /** A free run ends at the end of the list or right before an occupied region. */
  lemma {:induction false} FreeRunsStopAtOccupied(rs: seq<Region>, i: nat)
    requires i <= |rs|
    ensures forall k :: 0 <= k < |FreeRuns(rs, i)| && |FreeRuns(rs, i)[k]| > 0 && Stop(FreeRuns(rs, i)[k]) < |rs| ==> !rs[Stop(FreeRuns(rs, i)[k])].free
    decreases |rs| - i
  {
    FreeRunsAreFreeRuns(rs, i);
    if i < |rs| {
      if !rs[i].free {
        FreeRunsStopAtOccupied(rs, i + 1);
      } else {
        var e := RunEnd(rs, i);
        FreeRunsStopAtOccupied(rs, e);
        var gs := FreeRuns(rs, i);
        assert gs == [Range(i, e)] + FreeRuns(rs, e);
        assert forall k :: 0 < k < |gs| ==> gs[k] == FreeRuns(rs, e)[k - 1];
      }
    }
  }

  /** The index `j` lies in the run `g`. */
  predicate InRun(g: seq<nat>, j: nat)
  {
    |g| > 0 && g[0] <= j < Stop(g)
  }

  /** The index `j` of a run sits at position `j - g[0]`. */
  lemma {:induction false} RunAt(g: seq<nat>, j: nat)
    requires IsRun(g) && g[0] <= j < Stop(g)
    ensures g[j - g[0]] == j
  {
  }

  /** Every free region lies in one of the free runs. */
  lemma {:induction false} FreeRunsCover(rs: seq<Region>, i: nat, j: nat)
    requires i <= j < |rs| && rs[j].free
    ensures exists k :: 0 <= k < |FreeRuns(rs, i)| && InRun(FreeRuns(rs, i)[k], j)
    decreases |rs| - i
  {
    if !rs[i].free {
      FreeRunsCover(rs, i + 1, j);
      assert FreeRuns(rs, i) == FreeRuns(rs, i + 1);
    } else {
      var e := RunEnd(rs, i);
      var gs := FreeRuns(rs, i);
      assert gs == [Range(i, e)] + FreeRuns(rs, e);
      if j < e {
        assert InRun(gs[0], j);
      } else {
        FreeRunsCover(rs, e, j);
        var k :| 0 <= k < |FreeRuns(rs, e)| && InRun(FreeRuns(rs, e)[k], j);
        assert gs[k + 1] == FreeRuns(rs, e)[k];
      }
    }
  }

  /** Merging the maximal free runs is coalescing. */
  lemma {:induction false} MergeFreeRuns(rs: seq<Region>, i: nat)
    requires i <= |rs|
    ensures Runs(FreeRuns(rs, i), i, |rs|)
    ensures MergeRuns(rs, FreeRuns(rs, i), i) == CoalesceFrom(rs, i)
    decreases |rs| - i
  {
    FreeRunsAreFreeRuns(rs, i);
    if i < |rs| {
      if !rs[i].free {
        MergeFreeRuns(rs, i + 1);
        MergeRunsSkip(rs, FreeRuns(rs, i + 1), i);
      } else {
        var e := RunEnd(rs, i);
        MergeFreeRuns(rs, e);
        var gs := FreeRuns(rs, i);
        assert gs[0] == Range(i, e) && gs[1..] == FreeRuns(rs, e);
        var v := Absorbed(rs, i, e);
        assert v == Region(rs[i].offset, SumSizes(rs[i..e]), true);
        assert rs[i..i] == [];
        assert MergeRuns(rs, gs, i) == [v] + MergeRuns(rs, FreeRuns(rs, e), e);
      }
    }
  }

  /** A region before the first run is kept as it is. */
  lemma {:induction false} MergeRunsSkip(rs: seq<Region>, gs: seq<seq<nat>>, pos: nat)
    requires pos < |rs| && Runs(gs, pos + 1, |rs|)
    ensures Runs(gs, pos, |rs|)
    ensures MergeRuns(rs, gs, pos) == [rs[pos]] + MergeRuns(rs, gs, pos + 1)
  {
    if gs != [] {
      assert rs[pos..gs[0][0]] == [rs[pos]] + rs[pos + 1..gs[0][0]];
    }
  }

  // ---------------------------------------------------------------------------------------
  // What coalescing keeps and what it establishes

  /** The first region after coalescing from `i` starts where region `i` starts and is free
      exactly when region `i` is. */
  lemma {:induction false} CoalesceFromHead(rs: seq<Region>, i: nat)
    requires i < |rs|
    ensures |CoalesceFrom(rs, i)| > 0
    ensures CoalesceFrom(rs, i)[0].offset == rs[i].offset
    ensures CoalesceFrom(rs, i)[0].free == rs[i].free
  {
  }

  /** Coalescing keeps the partition of the span the regions cover. */
  lemma {:induction false} CoalesceFromTiles(rs: seq<Region>, i: nat, start: nat, end: nat)
    requires i <= |rs| && Tiles(rs[i..], start, end)
    ensures Tiles(CoalesceFrom(rs, i), start, end)
    decreases |rs| - i
  {
    if i < |rs| {
      if !rs[i].free {
        assert rs[i..][1..] == rs[i + 1..];
        CoalesceFromTiles(rs, i + 1, rs[i].End(), end);
      } else {
        var e := RunEnd(rs, i);
        assert rs[i..] == rs[i..e] + rs[e..];
        TilesAppend(rs[i..e], rs[e..], start, end);
        CoalesceFromTiles(rs, e, start + SumSizes(rs[i..e]), end);
      }
    }
  }

  /** After coalescing no two adjacent regions are free. */
  lemma {:induction false} CoalesceFromNoAdjacentFree(rs: seq<Region>, i: nat)
    ensures NoAdjacentFree(CoalesceFrom(rs, i))
    decreases |rs| - i
  {
    if i < |rs| {
      var next := if rs[i].free then RunEnd(rs, i) else i + 1;
      CoalesceFromNoAdjacentFree(rs, next);
      if next < |rs| {
        CoalesceFromHead(rs, next);
      }
      var c := CoalesceFrom(rs, i);
      assert c[1..] == CoalesceFrom(rs, next);
      forall j | 0 < j < |c|
        ensures !(c[j - 1].free && c[j].free)
      {
        if j > 1 {
          assert c[j - 1] == c[1..][j - 2] && c[j] == c[1..][j - 1];
        }
      }
    }
  }

  /** Coalescing keeps every occupied region, in order, and the total size. */
  lemma {:induction false} CoalesceFromKeepsOccupied(rs: seq<Region>, i: nat)
    requires i <= |rs|
    ensures Occupied(CoalesceFrom(rs, i)) == Occupied(rs[i..])
    ensures SumSizes(CoalesceFrom(rs, i)) == SumSizes(rs[i..])
    decreases |rs| - i
  {
    if i < |rs| {
      var c := CoalesceFrom(rs, i);
      if !rs[i].free {
        CoalesceFromKeepsOccupied(rs, i + 1);
        assert rs[i..] == [rs[i]] + rs[i + 1..];
        assert c[1..] == CoalesceFrom(rs, i + 1);
      } else {
        var e := RunEnd(rs, i);
        CoalesceFromKeepsOccupied(rs, e);
        assert rs[i..] == rs[i..e] + rs[e..];
        OccupiedAppend(rs[i..e], rs[e..]);
        SumSizesAppend(rs[i..e], rs[e..]);
        AllFreeNoneOccupied(rs[i..e]);
        assert c[1..] == CoalesceFrom(rs, e);
      }
    }
  }

  lemma {:induction false} AllFreeNoneOccupied(rs: seq<Region>)
    requires forall k :: 0 <= k < |rs| ==> rs[k].free
    ensures Occupied(rs) == []
  {
    if rs != [] {
      AllFreeNoneOccupied(rs[1..]);
    }
  }

  /** Coalescing keeps the number of free bytes. */
  lemma {:induction false} CoalesceKeepsFreeBytes(rs: seq<Region>)
    ensures FreeBytes(Coalesce(rs)) == FreeBytes(rs)
  {
    CoalesceFromKeepsOccupied(rs, 0);
    assert rs[0..] == rs;
    FreeAndOccupied(rs);
    FreeAndOccupied(Coalesce(rs));
  }

  /** A list with no two adjacent free regions is already coalesced. */
  lemma {:induction false} CoalesceFromIdle(rs: seq<Region>, i: nat)
    requires i <= |rs| && NoAdjacentFree(rs)
    ensures CoalesceFrom(rs, i) == rs[i..]
    decreases |rs| - i
  {
    if i < |rs| {
      if !rs[i].free {
        CoalesceFromIdle(rs, i + 1);
        assert rs[i..] == [rs[i]] + rs[i + 1..];
      } else {
        var e := RunEnd(rs, i);
        assert e == i + 1 by {
          if i + 1 < |rs| {
            assert !(rs[i + 1 - 1].free && rs[i + 1].free);
          }
        }
        CoalesceFromIdle(rs, e);
        assert rs[i..e] == [rs[i]];
        assert SumSizes(rs[i..e]) == rs[i].size by {
          assert rs[i..e][1..] == [];
        }
        assert rs[i..] == [rs[i]] + rs[i + 1..];
      }
    }
  }

  /** Coalescing twice is coalescing once. */
  lemma {:induction false} CoalesceIdempotent(rs: seq<Region>)
    ensures Coalesce(Coalesce(rs)) == Coalesce(rs)
  {
    CoalesceFromNoAdjacentFree(rs, 0);
    CoalesceFromIdle(Coalesce(rs), 0);
  }

  // ---------------------------------------------------------------------------------------
  // Merging arbitrary runs

  /** Merging runs of indices keeps the partition of the span the regions cover. */
  lemma {:induction false} MergeRunsTiles(rs: seq<Region>, gs: seq<seq<nat>>, pos: nat, start: nat, end: nat)
    requires Runs(gs, pos, |rs|) && Tiles(rs[pos..], start, end)
    ensures Tiles(MergeRuns(rs, gs, pos), start, end)
    decreases |gs|
  {
    if gs != [] {
      var a, b := gs[0][0], Stop(gs[0]);
      RunsDropFirst(gs, pos, |rs|);
      var m := AbsorbedTiles(rs, pos, a, b, start, end);
      MergeRunsTiles(rs, gs[1..], b, m + SumSizes(rs[a..b]), end);
      TilesJoin(rs[pos..a], Absorbed(rs, a, b), MergeRuns(rs, gs[1..], b), start, end);
    }
  }

  /** Without its first run, a list of runs starts after the first run stops. */
  lemma {:induction false} RunsDropFirst(gs: seq<seq<nat>>, pos: nat, n: nat)
    requires Runs(gs, pos, n) && gs != []
    ensures pos <= gs[0][0] < Stop(gs[0]) <= n
    ensures Runs(gs[1..], Stop(gs[0]), n)
  {
  }

  /** A tiling, a region where it ends, and a tiling from where that region ends tile together. */
  lemma {:induction false} TilesJoin(x: seq<Region>, v: Region, y: seq<Region>, start: nat, end: nat)
    requires Tiles(x, start, v.offset) && Tiles(y, v.End(), end)
    ensures Tiles(x + [v] + y, start, end)
  {
    TilesSum(x, start, v.offset);
    assert ([v] + y)[1..] == y;
    assert x + [v] + y == x + ([v] + y);
    TilesAppend(x, [v] + y, start, end);
  }

  /** Splitting the tiled regions from `pos` at a run `a .. b`: the regions before the run tile up
      to `m`, where the run starts, and the regions after it tile from the run's end. */
  lemma {:induction false} AbsorbedTiles(rs: seq<Region>, pos: nat, a: nat, b: nat, start: nat, end: nat) returns (m: nat)
    requires pos <= a < b <= |rs| && Tiles(rs[pos..], start, end)
    ensures m == start + SumSizes(rs[pos..a])
    ensures Tiles(rs[pos..a], start, m)
    ensures Absorbed(rs, a, b).offset == m
    ensures Tiles(rs[b..], m + SumSizes(rs[a..b]), end)
  {
    assert rs[pos..] == rs[pos..a] + (rs[a..b] + rs[b..]);
    TilesAppend(rs[pos..a], rs[a..b] + rs[b..], start, end);
    m := start + SumSizes(rs[pos..a]);
    TilesAppend(rs[a..b], rs[b..], m, end);
    assert rs[a..b][0] == rs[a];
  }

  /** Merging runs from a position before the end leaves at least one region. */
  lemma {:induction false} MergeRunsNonEmpty(rs: seq<Region>, gs: seq<seq<nat>>, pos: nat)
    requires Runs(gs, pos, |rs|) && pos < |rs|
    ensures |MergeRuns(rs, gs, pos)| > 0
  {
  }
}

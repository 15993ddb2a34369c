/** The two passes of the join step: the first region of each group absorbs the sizes of the
    rest, then the absorbed indices are deleted from the last to the first. Together they merge
    the groups. Also the group lists that the two allocators compute. */
module Joining {
  import opened Layout
  import opened Coalescing

  /** Every group of `gs` is a run of indices below `n`. */
  predicate Within(gs: seq<seq<nat>>, n: nat)
  {
    forall k :: 0 <= k < |gs| ==> IsRun(gs[k]) && Stop(gs[k]) <= n
  }

  /** The regions after the size pass over the groups `gs`: the first region of each group of two
      or more has grown by the sizes of the rest of its group. */
  function Absorb(rs: seq<Region>, gs: seq<seq<nat>>): (r: seq<Region>)
    requires Within(gs, |rs|)
    ensures |r| == |rs|
    decreases |gs|
  {
    if gs == [] then rs
    else
      var p := Absorb(rs, gs[..|gs| - 1]);
      var g := gs[|gs| - 1];
      if |g| > 1 then p[g[0] := Absorbed(rs, g[0], Stop(g))] else p
  }

  /** The indices the size pass marks for deletion: every index of a group but its first. */
  function Tails(gs: seq<seq<nat>>): seq<nat>
    requires forall k :: 0 <= k < |gs| ==> |gs[k]| > 0
    decreases |gs|
  {
    if gs == [] then [] else Tails(gs[..|gs| - 1]) + gs[|gs| - 1][1..]
  }

  /** Deleting the indices of `M` from the last to the first stays inside a list of length `n`. */
  predicate Deletable(M: seq<nat>, n: nat)
  {
    forall j :: 0 <= j < |M| ==> M[j] + |M| - j <= n
  }

  /** `s` with the indices `M[|M| - 1]`, .., `M[k]` deleted one after the other. */
  function DeleteFrom<T>(s: seq<T>, M: seq<nat>, k: nat): (r: seq<T>)
    requires k <= |M| && Deletable(M, |s|)
    ensures |r| == |s| - (|M| - k)
    decreases |M| - k
  {
    if k == |M| then s
    else var t := DeleteFrom(s, M, k + 1); t[..M[k]] + t[M[k] + 1..]
  }

  // ---------------------------------------------------------------------------------------
  // Deletion

  lemma {:induction false} DeleteFromSuffix<T>(s: seq<T>, M1: seq<nat>, M2: seq<nat>, j: nat)
    requires Deletable(M1 + M2, |s|) && Deletable(M2, |s|) && j <= |M2|
    ensures DeleteFrom(s, M1 + M2, |M1| + j) == DeleteFrom(s, M2, j)
    decreases |M2| - j
  {
    if j < |M2| {
      DeleteFromSuffix(s, M1, M2, j + 1);
      assert (M1 + M2)[|M1| + j] == M2[j];
    }
  }

  /** Deleting `M1 + M2` is deleting `M2`, then `M1`. */
  lemma {:induction false} DeleteFromSplit<T>(s: seq<T>, M1: seq<nat>, M2: seq<nat>, k: nat)
    requires Deletable(M1 + M2, |s|) && k <= |M1|
    ensures Deletable(M2, |s|) && |M2| <= |s| && Deletable(M1, |s| - |M2|)
    ensures DeleteFrom(s, M1 + M2, k) == DeleteFrom(DeleteFrom(s, M2, 0), M1, k)
    decreases |M1| - k
  {
    forall j | 0 <= j < |M2|
      ensures M2[j] + |M2| - j <= |s|
    {
      assert (M1 + M2)[|M1| + j] == M2[j];
    }
    forall j | 0 <= j < |M1|
      ensures M1[j] + |M1| - j <= |s| - |M2|
    {
      assert (M1 + M2)[j] == M1[j];
    }
    if k == |M1| {
      DeleteFromSuffix(s, M1, M2, 0);
    } else {
      DeleteFromSplit(s, M1, M2, k + 1);
      assert (M1 + M2)[k] == M1[k];
    }
  }

  lemma {:induction false} DeleteRangeFrom<T>(s: seq<T>, a: nat, b: nat, k: nat)
    requires a < b <= |s| && k <= b - a - 1
    ensures Deletable(Range(a + 1, b), |s|)
    ensures DeleteFrom(s, Range(a + 1, b), k) == s[..a + 1 + k] + s[b..]
    decreases b - a - 1 - k
  {
    if k < b - a - 1 {
      DeleteRangeFrom(s, a, b, k + 1);
      var t := s[..a + 2 + k] + s[b..];
      assert t[..a + 1 + k] + t[a + 2 + k..] == s[..a + 1 + k] + s[b..];
    } else {
      assert s[..b] + s[b..] == s;
    }
  }

  /** Deleting the indices after `a` of the run `a .. b` leaves the region at `a` followed by
      the regions from `b` on. */
  lemma {:induction false} DeleteRange<T>(s: seq<T>, a: nat, b: nat)
    requires a < b <= |s|
    ensures Deletable(Range(a + 1, b), |s|)
    ensures DeleteFrom(s, Range(a + 1, b), 0) == s[..a + 1] + s[b..]
  {
    DeleteRangeFrom(s, a, b, 0);
  }

  /** The indices of `M` increase strictly. */
  predicate Increasing(M: seq<nat>)
  {
    forall i, j :: 0 <= i < j < |M| ==> M[i] < M[j]
  }

  /** Deleting only indices above `p` keeps everything up to `p`. */
  lemma {:induction false} DeleteFromPrefix<T>(s: seq<T>, M: seq<nat>, k: nat, p: nat)
    requires k <= |M| && Deletable(M, |s|)
    requires forall l :: k <= l < |M| ==> p < M[l]
    requires p < |s| - (|M| - k)
    ensures DeleteFrom(s, M, k)[..p + 1] == s[..p + 1]
    decreases |M| - k
  {
    if k < |M| {
      DeleteFromPrefix(s, M, k + 1, p);
    }
  }

  /** Deletion keeps only elements of the list. */
  lemma {:induction false} DeleteFromSubset<T>(s: seq<T>, M: seq<nat>, k: nat)
    requires k <= |M| && Deletable(M, |s|)
    ensures forall x :: x in DeleteFrom(s, M, k) ==> x in s
    decreases |M| - k
  {
    if k < |M| {
      DeleteFromSubset(s, M, k + 1);
      var t := DeleteFrom(s, M, k + 1);
      var l, r := t[..M[k]], t[M[k] + 1..];
      assert DeleteFrom(s, M, k) == l + r;
      forall x | x in l + r
        ensures x in t
      {
        if x in l { assert x in t; } else { assert x in r; }
      }
    }
  }

  /** Deleting increasing indices keeps every element that sits at none of them. */
  lemma {:induction false} DeleteFromKeeps<T>(s: seq<T>, M: seq<nat>, k: nat, x: T)
    requires k <= |M| && Deletable(M, |s|) && Increasing(M) && x in s
    requires forall l :: k <= l < |M| ==> M[l] < |s| && s[M[l]] != x
    ensures x in DeleteFrom(s, M, k)
    decreases |M| - k
  {
    if k < |M| {
      DeleteFromKeeps(s, M, k + 1, x);
      var t := DeleteFrom(s, M, k + 1);
      DeleteFromPrefix(s, M, k + 1, M[k]);
      assert t[M[k]] == t[..M[k] + 1][M[k]] == s[M[k]];
      var q :| 0 <= q < |t| && t[q] == x;
      if q < M[k] {
        assert (t[..M[k]] + t[M[k] + 1..])[q] == x;
      } else {
        assert (t[..M[k]] + t[M[k] + 1..])[q - 1] == x;
      }
    }
  }

  /** Deletion keeps a list without repetitions free of repetitions. */
  lemma {:induction false} DeleteFromDistinct<T>(s: seq<T>, M: seq<nat>, k: nat)
    requires k <= |M| && Deletable(M, |s|)
    requires forall i, j :: 0 <= i < j < |s| ==> s[i] != s[j]
    ensures forall i, j :: 0 <= i < j < |DeleteFrom(s, M, k)| ==> DeleteFrom(s, M, k)[i] != DeleteFrom(s, M, k)[j]
    decreases |M| - k
  {
    if k < |M| {
      DeleteFromDistinct(s, M, k + 1);
      var t := DeleteFrom(s, M, k + 1);
      var r := t[..M[k]] + t[M[k] + 1..];
      forall i, j | 0 <= i < j < |r|
        ensures r[i] != r[j]
      {
        var i', j' := if i < M[k] then i else i + 1, if j < M[k] then j else j + 1;
        assert r[i] == t[i'] && r[j] == t[j'] && i' < j' < |t|;
      }
    }
  }

  // ---------------------------------------------------------------------------------------
  // The size pass

  /** Runs that end by `a` leave the regions from `a` on untouched. */
  lemma {:induction false} AbsorbPrefix(rs: seq<Region>, gs: seq<seq<nat>>, a: nat)
    requires a <= |rs| && Within(gs, a)
    ensures Within(gs, |rs|)
    ensures Absorb(rs, gs) == Absorb(rs[..a], gs) + rs[a..]
    decreases |gs|
  {
    if gs != [] {
      var gs' := gs[..|gs| - 1];
      AbsorbPrefix(rs, gs', a);
      var g := gs[|gs| - 1];
      if |g| > 1 {
        var q := Absorb(rs[..a], gs');
        assert rs[..a][g[0]..Stop(g)] == rs[g[0]..Stop(g)];
        assert Absorbed(rs[..a], g[0], Stop(g)) == Absorbed(rs, g[0], Stop(g));
        assert (q + rs[a..])[g[0] := Absorbed(rs, g[0], Stop(g))]
            == q[g[0] := Absorbed(rs, g[0], Stop(g))] + rs[a..];
      }
    }
  }

  /** The indices marked by the size pass can be deleted from the last to the first. */
  lemma {:induction false} TailsDeletable(gs: seq<seq<nat>>, n: nat)
    requires Runs(gs, 0, n)
    ensures Deletable(Tails(gs), n)
    decreases |gs|
  {
    if gs != [] {
      var gs' := gs[..|gs| - 1];
      var g := gs[|gs| - 1];
      var a, b := g[0], Stop(g);
      assert Runs(gs', 0, a);
      TailsDeletable(gs', a);
      var T', R := Tails(gs'), g[1..];
      assert R == Range(a + 1, b);
      forall j | 0 <= j < |T' + R|
        ensures (T' + R)[j] + |T' + R| - j <= n
      {
        if j < |T'| {
          assert (T' + R)[j] == T'[j];
        } else {
          assert (T' + R)[j] == R[j - |T'|];
        }
      }
    }
  }

  /** The marked indices increase. */
  lemma {:induction false} TailsIncreasing(gs: seq<seq<nat>>, pos: nat, n: nat)
    requires Runs(gs, pos, n)
    ensures Increasing(Tails(gs))
    decreases |gs|
  {
    if gs != [] {
      var gs' := gs[..|gs| - 1];
      var g := gs[|gs| - 1];
      RunsDropLast(gs, pos, n);
      TailsIncreasing(gs', pos, g[0]);
      TailsBelow(gs', pos, g[0]);
      var T', R := Tails(gs'), g[1..];
      assert Tails(gs) == T' + R;
      assert Increasing(R) by {
        forall i, j | 0 <= i < j < |R|
          ensures R[i] < R[j]
        {
          assert R[i] == g[i + 1] && R[j] == g[j + 1];
        }
      }
      assert |T'| > 0 && |R| > 0 ==> T'[|T'| - 1] < R[0];
      IncreasingAppend(T', R);
    }
  }

  /** The marked indices of runs that stop by `n` lie below `n`. */
  lemma {:induction false} TailsBelow(gs: seq<seq<nat>>, pos: nat, n: nat)
    requires Runs(gs, pos, n)
    ensures forall l :: 0 <= l < |Tails(gs)| ==> Tails(gs)[l] < n
  {
    TailsCover(gs, pos, n);
    forall l | 0 <= l < |Tails(gs)|
      ensures Tails(gs)[l] < n
    {
      var k :| 0 <= k < |gs| && gs[k][0] < Tails(gs)[l] < Stop(gs[k]);
    }
  }

  /** An increasing list followed by one that starts above its end is increasing. */
  lemma {:induction false} IncreasingAppend(A: seq<nat>, B: seq<nat>)
    requires Increasing(A) && Increasing(B)
    requires |A| > 0 && |B| > 0 ==> A[|A| - 1] < B[0]
    ensures Increasing(A + B)
  {
    var C := A + B;
    forall i, j | 0 <= i < j < |C|
      ensures C[i] < C[j]
    {
      if j < |A| {
        assert C[i] == A[i] && C[j] == A[j];
      } else if i < |A| {
        assert C[i] == A[i] <= A[|A| - 1] && C[j] == B[j - |A|] >= B[0];
      } else {
        assert C[i] == B[i - |A|] && C[j] == B[j - |A|];
      }
    }
  }

  /** Each marked index lies inside a group, after the group's first. */
  lemma {:induction false} TailsCover(gs: seq<seq<nat>>, pos: nat, n: nat)
    requires Runs(gs, pos, n)
    ensures forall l :: 0 <= l < |Tails(gs)| ==>
      exists k :: 0 <= k < |gs| && gs[k][0] < Tails(gs)[l] < Stop(gs[k])
    decreases |gs|
  {
    if gs != [] {
      var gs' := gs[..|gs| - 1];
      var g := gs[|gs| - 1];
      RunsDropLast(gs, pos, n);
      TailsCover(gs', pos, g[0]);
      var T', R := Tails(gs'), g[1..];
      var T := T' + R;
      assert Tails(gs) == T;
      forall l | 0 <= l < |T|
        ensures exists k :: 0 <= k < |gs| && gs[k][0] < T[l] < Stop(gs[k])
      {
        if l < |T'| {
          assert T[l] == T'[l];
          var k :| 0 <= k < |gs'| && gs'[k][0] < T'[l] < Stop(gs'[k]);
          assert gs[k] == gs'[k];
        } else {
          assert T[l] == g[l - |T'| + 1];
          assert gs[|gs| - 1] == g;
        }
      }
    } else {
      assert Tails(gs) == [];
    }
  }

  // ---------------------------------------------------------------------------------------
  // The two passes merge the groups

  /** The regions with the run `g` merged into its first region. */
  function MergeOne(rs: seq<Region>, g: seq<nat>): seq<Region>
    requires IsRun(g) && Stop(g) <= |rs|
  {
    rs[..g[0]] + [Absorbed(rs, g[0], Stop(g))] + rs[Stop(g)..]
  }

  /** Without its last run, a list of runs stops before the last run starts. */
  lemma {:induction false} RunsDropLast(gs: seq<seq<nat>>, pos: nat, n: nat)
    requires Runs(gs, pos, n) && gs != []
    ensures pos <= gs[|gs| - 1][0] < Stop(gs[|gs| - 1]) <= n
    ensures Runs(gs[..|gs| - 1], pos, gs[|gs| - 1][0])
  {
  }

  lemma {:induction false} RunsWiden(gs: seq<seq<nat>>, pos: nat, n: nat, m: nat)
    requires Runs(gs, pos, n) && n <= m
    ensures Runs(gs, pos, m)
  {
  }

  /** Merging a list of runs is merging the last run first, then the others. */
  lemma {:induction false} MergeRunsLast(rs: seq<Region>, gs: seq<seq<nat>>, pos: nat)
    requires Runs(gs, pos, |rs|) && gs != []
    ensures Runs(gs[..|gs| - 1], pos, |MergeOne(rs, gs[|gs| - 1])|)
    ensures MergeRuns(rs, gs, pos) == MergeRuns(MergeOne(rs, gs[|gs| - 1]), gs[..|gs| - 1], pos)
    decreases |gs|, 1
  {
    var g := gs[|gs| - 1];
    var rs' := MergeOne(rs, g);
    var gs' := gs[..|gs| - 1];
    RunsDropLast(gs, pos, |rs|);
    RunsWiden(gs', pos, g[0], |rs'|);
    if |gs| == 1 {
      assert gs == [g];
      MergeOnlyRun(rs, g, pos);
    } else {
      MergeManyRuns(rs, gs, pos);
    }
  }

  /** The step of `MergeRunsLast` for two or more runs, from the runs after the first. */
  lemma {:induction false} MergeManyRuns(rs: seq<Region>, gs: seq<seq<nat>>, pos: nat)
    requires Runs(gs, pos, |rs|) && |gs| > 1
    requires Runs(gs[..|gs| - 1], pos, |MergeOne(rs, gs[|gs| - 1])|)
    ensures MergeRuns(rs, gs, pos) == MergeRuns(MergeOne(rs, gs[|gs| - 1]), gs[..|gs| - 1], pos)
    decreases |gs|, 0
  {
    RunsDropFirst(gs, pos, |rs|);
    MergeRunsLast(rs, gs[1..], Stop(gs[0]));
    DropBothEnds(gs);
    MergeFirstOfMany(rs, gs, pos);
  }

  /** Dropping the first and then the last element is dropping the last and then the first. */
  lemma DropBothEnds<T>(s: seq<T>)
    requires |s| > 1
    ensures s[1..][..|s[1..]| - 1] == s[..|s| - 1][1..]
    ensures s[1..][|s[1..]| - 1] == s[|s| - 1]
  {
  }

  lemma {:induction false} MergeOnlyRun(rs: seq<Region>, g: seq<nat>, pos: nat)
    requires IsRun(g) && pos <= g[0] && Stop(g) <= |rs| && Runs([g], pos, |rs|)
    ensures MergeRuns(rs, [g], pos) == MergeOne(rs, g)[pos..]
  {
    var a, b := g[0], Stop(g);
    assert [g][1..] == [];
    assert MergeRuns(rs, [g], pos) == rs[pos..a] + [Absorbed(rs, a, b)] + rs[b..];
  }

  /** The step of `MergeRunsLast` for two or more runs: the first run is merged alike on both
      sides, given that the rest agree. */
  lemma {:induction false} MergeFirstOfMany(rs: seq<Region>, gs: seq<seq<nat>>, pos: nat)
    requires Runs(gs, pos, |rs|) && |gs| > 1
    requires Runs(gs[1..], Stop(gs[0]), |rs|)
    requires Runs(gs[..|gs| - 1], pos, |MergeOne(rs, gs[|gs| - 1])|)
    requires Runs(gs[..|gs| - 1][1..], Stop(gs[0]), |MergeOne(rs, gs[|gs| - 1])|)
    requires MergeRuns(rs, gs[1..], Stop(gs[0]))
          == MergeRuns(MergeOne(rs, gs[|gs| - 1]), gs[..|gs| - 1][1..], Stop(gs[0]))
    ensures MergeRuns(rs, gs, pos) == MergeRuns(MergeOne(rs, gs[|gs| - 1]), gs[..|gs| - 1], pos)
  {
    var g := gs[|gs| - 1];
    var rs' := MergeOne(rs, g);
    var gs' := gs[..|gs| - 1];
    var a0, b0 := gs[0][0], Stop(gs[0]);
    assert gs'[0] == gs[0];
    assert b0 <= g[0];
    MergeOneKeepsBefore(rs, g, b0);
    assert rs'[pos..a0] == rs'[..b0][pos..a0] && rs[pos..a0] == rs[..b0][pos..a0];
    AbsorbedPrefix(rs, rs', a0, b0);
    assert MergeRuns(rs, gs, pos) == rs[pos..a0] + [Absorbed(rs, a0, b0)] + MergeRuns(rs, gs[1..], b0);
    assert MergeRuns(rs', gs', pos) == rs'[pos..a0] + [Absorbed(rs', a0, b0)] + MergeRuns(rs', gs'[1..], b0);
  }

  /** The merged region of `a .. b` depends only on the regions before `b`. */
  lemma {:induction false} AbsorbedPrefix(rs: seq<Region>, rs': seq<Region>, a: nat, b: nat)
    requires a < b <= |rs| && b <= |rs'| && rs'[..b] == rs[..b]
    ensures Absorbed(rs', a, b) == Absorbed(rs, a, b)
  {
    assert rs'[a..b] == rs'[..b][a..] && rs[a..b] == rs[..b][a..];
  }

  /** Merging a run keeps the regions before it. */
  lemma {:induction false} MergeOneKeepsBefore(rs: seq<Region>, g: seq<nat>, e: nat)
    requires IsRun(g) && Stop(g) <= |rs| && e <= g[0]
    ensures e <= |MergeOne(rs, g)| && MergeOne(rs, g)[..e] == rs[..e]
  {
  }

  /** After the size pass, keeping the first region of the last group and the regions after
      that group gives the size pass over the other groups, on the list with the last group
      merged. */
  lemma {:induction false} AbsorbLast(rs: seq<Region>, gs: seq<seq<nat>>)
    requires Runs(gs, 0, |rs|) && gs != []
    ensures var g := gs[|gs| - 1];
      Within(gs, |rs|) && Within(gs[..|gs| - 1], |MergeOne(rs, g)|) &&
      Absorb(rs, gs)[..g[0] + 1] + Absorb(rs, gs)[Stop(g)..] == Absorb(MergeOne(rs, g), gs[..|gs| - 1])
  {
    var gs' := gs[..|gs| - 1];
    var g := gs[|gs| - 1];
    var a, b := g[0], Stop(g);
    RunsDropLast(gs, 0, |rs|);
    assert Within(gs', a);
    assert gs == gs' + [g];
    AbsorbMerged(rs, gs', g);
    AbsorbWhole(rs, gs', g);
    var x, v, p := Absorb(rs[..a], gs'), Absorbed(rs, a, b), Absorb(rs, gs);
    assert |x| == a && p == (x + rs[a..])[a := v];
    CutAfterUpdate(x, rs[a..], v, b - a);
    assert rs[a..][b - a..] == rs[b..];
    assert p[..a + 1] + p[b..] == x + [v] + rs[b..];
  }

  /** On the list with the run `g` merged, the size pass over the groups before `g` leaves the
      merged region and the regions after it untouched. */
  lemma {:induction false} AbsorbMerged(rs: seq<Region>, gs: seq<seq<nat>>, g: seq<nat>)
    requires IsRun(g) && Stop(g) <= |rs| && Within(gs, g[0])
    ensures Within(gs, |MergeOne(rs, g)|)
    ensures Absorb(MergeOne(rs, g), gs) == Absorb(rs[..g[0]], gs) + [Absorbed(rs, g[0], Stop(g))] + rs[Stop(g)..]
  {
    var a, b := g[0], Stop(g);
    var rs' := MergeOne(rs, g);
    AbsorbPrefix(rs', gs, a);
    assert rs'[..a] == rs[..a];
    assert rs'[a..] == [Absorbed(rs, a, b)] + rs[b..];
  }

  /** The size pass over the groups before `g` and then `g`: the regions before `g` as the
      earlier groups leave them, then `g`'s first region absorbing the rest of `g`. */
  lemma {:induction false} AbsorbWhole(rs: seq<Region>, gs: seq<seq<nat>>, g: seq<nat>)
    requires IsRun(g) && Stop(g) <= |rs| && Within(gs, g[0])
    ensures Within(gs + [g], |rs|)
    ensures Absorb(rs, gs + [g]) == (Absorb(rs[..g[0]], gs) + rs[g[0]..])[g[0] := Absorbed(rs, g[0], Stop(g))]
  {
    var a, b := g[0], Stop(g);
    AbsorbPrefix(rs, gs, a);
    AbsorbSnoc(rs, gs, g);
    if |g| == 1 {
      AbsorbedSingle(rs, a);
      UpdateSame(Absorb(rs[..a], gs) + rs[a..], a);
    }
  }

  /** A run of one region absorbs nothing. */
  lemma AbsorbedSingle(rs: seq<Region>, a: nat)
    requires a < |rs|
    ensures Absorbed(rs, a, a + 1) == rs[a]
  {
    assert rs[a..a + 1] == [rs[a]];
    assert SumSizes(rs[a..a + 1]) == rs[a].size by {
      assert rs[a..a + 1][1..] == [];
    }
  }

  /** Writing back the element already at `a` changes nothing. */
  lemma UpdateSame<T>(s: seq<T>, a: nat)
    requires a < |s|
    ensures s[a := s[a]] == s
  {
  }

  /** Updating the element just after `x` and cutting out the next `k - 1` elements. */
  lemma {:induction false} CutAfterUpdate(x: seq<Region>, t: seq<Region>, v: Region, k: nat)
    requires 1 <= k <= |t|
    ensures var q := (x + t)[|x| := v]; q[..|x| + 1] + q[|x| + k..] == x + [v] + t[k..]
  {
    var q := (x + t)[|x| := v];
    assert q[..|x| + 1] == x + [v];
    assert q[|x| + k..] == t[k..];
  }

  /** The size pass followed by the deletion pass merges every group into its first region. */
  lemma {:induction false} JoinCorrect(rs: seq<Region>, gs: seq<seq<nat>>)
    requires Runs(gs, 0, |rs|)
    ensures Within(gs, |rs|) && Deletable(Tails(gs), |rs|)
    ensures DeleteFrom(Absorb(rs, gs), Tails(gs), 0) == MergeRuns(rs, gs, 0)
    decreases |gs|
  {
    TailsDeletable(gs, |rs|);
    if gs == [] {
      assert rs[0..] == rs;
    } else {
      var gs' := gs[..|gs| - 1];
      var g := gs[|gs| - 1];
      JoinLast(rs, gs);
      JoinCorrect(MergeOne(rs, g), gs');
      MergeRunsLast(rs, gs, 0);
    }
  }

  /** The two passes over a list of runs are the two passes over the list without its last
      run, on the regions with the last run merged. */
  lemma {:induction false} JoinLast(rs: seq<Region>, gs: seq<seq<nat>>)
    requires Runs(gs, 0, |rs|) && gs != []
    ensures var g := gs[|gs| - 1];
      && Within(gs, |rs|) && Deletable(Tails(gs), |rs|)
      && Within(gs[..|gs| - 1], |MergeOne(rs, g)|) && Deletable(Tails(gs[..|gs| - 1]), |MergeOne(rs, g)|)
      && DeleteFrom(Absorb(rs, gs), Tails(gs), 0)
      == DeleteFrom(Absorb(MergeOne(rs, g), gs[..|gs| - 1]), Tails(gs[..|gs| - 1]), 0)
  {
    var gs' := gs[..|gs| - 1];
    var g := gs[|gs| - 1];
    TailsDeletable(gs, |rs|);
    AbsorbLast(rs, gs);
    RunTail(g);
    assert Tails(gs) == Tails(gs') + Range(g[0] + 1, Stop(g));
    DeleteLastRun(Absorb(rs, gs), Tails(gs'), g[0], Stop(g));
  }

  /** Deleting the indices after `a` of the run `a .. b` last, then the indices `M` before it. */
  lemma {:induction false} DeleteLastRun<T>(p: seq<T>, M: seq<nat>, a: nat, b: nat)
    requires a < b <= |p| && Deletable(M + Range(a + 1, b), |p|)
    ensures Deletable(M, |p[..a + 1] + p[b..]|)
    ensures DeleteFrom(p, M + Range(a + 1, b), 0) == DeleteFrom(p[..a + 1] + p[b..], M, 0)
  {
    DeleteFromSplit(p, M, Range(a + 1, b), 0);
    DeleteRange(p, a, b);
  }

  /** A run without its first index is the range after that index. */
  lemma {:induction false} RunTail(g: seq<nat>)
    requires IsRun(g)
    ensures g[1..] == Range(g[0] + 1, Stop(g))
  {
  }

  /** For the maximal free runs, the two passes coalesce the partition. */
  lemma {:induction false} JoinCoalesces(rs: seq<Region>, n: nat)
    requires Partition(rs, n)
    ensures Runs(FreeRuns(rs, 0), 0, |rs|) && Within(FreeRuns(rs, 0), |rs|)
    ensures Deletable(Tails(FreeRuns(rs, 0)), |rs|)
    ensures DeleteFrom(Absorb(rs, FreeRuns(rs, 0)), Tails(FreeRuns(rs, 0)), 0) == Coalesce(rs)
    ensures Partition(Coalesce(rs), n) && NoAdjacentFree(Coalesce(rs))
  {
    MergeFreeRuns(rs, 0);
    JoinCorrect(rs, FreeRuns(rs, 0));
    assert rs[0..] == rs;
    CoalesceFromTiles(rs, 0, 0, n);
    CoalesceFromNoAdjacentFree(rs, 0);
  }

  /** Deleting the marked indices of the maximal free runs keeps every element that sits at an
      occupied region. */
  lemma {:induction false} JoinKeeps<T>(s: seq<T>, rs: seq<Region>, j: nat)
    requires |s| == |rs| && j < |rs| && !rs[j].free
    requires forall a, b :: 0 <= a < b < |s| ==> s[a] != s[b]
    ensures Runs(FreeRuns(rs, 0), 0, |rs|) && Deletable(Tails(FreeRuns(rs, 0)), |s|)
    ensures s[j] in DeleteFrom(s, Tails(FreeRuns(rs, 0)), 0)
  {
    var gs := FreeRuns(rs, 0);
    FreeRunsAreFreeRuns(rs, 0);
    TailsIncreasing(gs, 0, |rs|);
    TailsCover(gs, 0, |rs|);
    TailsDeletable(gs, |rs|);
    var M := Tails(gs);
    forall l | 0 <= l < |M|
      ensures M[l] < |s| && s[M[l]] != s[j]
    {
      var k :| 0 <= k < |gs| && gs[k][0] < M[l] < Stop(gs[k]);
      assert gs[k][M[l] - gs[k][0]] == M[l];
    }
    DeleteFromKeeps(s, M, 0, s[j]);
  }

  /** One more group of the size pass: the groups so far stop before it starts, so the regions
      from its first index on are untouched, and a group of two or more updates only its first
      region. */
  lemma {:induction false} AbsorbNext(rs: seq<Region>, gs: seq<seq<nat>>, gi: nat)
    requires Runs(gs, 0, |rs|) && gi < |gs|
    ensures Within(gs[..gi], |rs|) && Within(gs[..gi + 1], |rs|)
    ensures forall j :: gs[gi][0] <= j < |rs| ==> Absorb(rs, gs[..gi])[j] == rs[j]
    ensures Tails(gs[..gi + 1]) == Tails(gs[..gi]) + gs[gi][1..]
    ensures Absorb(rs, gs[..gi + 1]) ==
      if |gs[gi]| > 1 then Absorb(rs, gs[..gi])[gs[gi][0] := Absorbed(rs, gs[gi][0], Stop(gs[gi]))]
      else Absorb(rs, gs[..gi])
  {
    var a := gs[gi][0];
    var P := gs[..gi];
    assert gs[..gi + 1] == P + [gs[gi]];
    assert Within(P, a) by {
      forall k | 0 <= k < gi
        ensures IsRun(P[k]) && Stop(P[k]) <= a
      {
        assert P[k] == gs[k];
        assert Stop(gs[k]) <= gs[gi][0];
      }
    }
    AbsorbUntouched(rs, P, a);
    AbsorbSnoc(rs, P, gs[gi]);
  }

  /** Groups that stop by `a` leave the regions from `a` on untouched. */
  lemma {:induction false} AbsorbUntouched(rs: seq<Region>, gs: seq<seq<nat>>, a: nat)
    requires a <= |rs| && Within(gs, a)
    ensures Within(gs, |rs|)
    ensures forall j :: a <= j < |rs| ==> Absorb(rs, gs)[j] == rs[j]
  {
    AbsorbPrefix(rs, gs, a);
    forall j | a <= j < |rs|
      ensures Absorb(rs, gs)[j] == rs[j]
    {
      assert Absorb(rs, gs)[j] == rs[a..][j - a];
    }
  }

  /** The size pass over one more group. */
  lemma {:induction false} AbsorbSnoc(rs: seq<Region>, gs: seq<seq<nat>>, g: seq<nat>)
    requires Within(gs, |rs|) && IsRun(g) && Stop(g) <= |rs|
    ensures Within(gs + [g], |rs|)
    ensures Tails(gs + [g]) == Tails(gs) + g[1..]
    ensures Absorb(rs, gs + [g]) ==
      if |g| > 1 then Absorb(rs, gs)[g[0] := Absorbed(rs, g[0], Stop(g))] else Absorb(rs, gs)
  {
    var G := gs + [g];
    assert G[..|G| - 1] == gs && G[|G| - 1] == g;
    assert Within(G, |rs|) by {
      forall k | 0 <= k < |G|
        ensures IsRun(G[k]) && Stop(G[k]) <= |rs|
      {
        if k < |gs| { assert G[k] == gs[k]; }
      }
    }
  }

  /** A run's sizes grow by the next region's size. */
  lemma {:induction false} SumSizesRunStep(rs: seq<Region>, a: nat, k: nat)
    requires a + k < |rs|
    ensures SumSizes(rs[a..a + k + 1]) == SumSizes(rs[a..a + k]) + rs[a + k].size
  {
    SumSizesStep(rs[a..], k);
    assert rs[a..][..k] == rs[a..a + k] && rs[a..][..k + 1] == rs[a..a + k + 1];
  }

  // ---------------------------------------------------------------------------------------
  // The groups the earlier allocator computes

  /** A free run as the earlier allocator collects it: a run that does not start at index 0
      loses its first index. */
  function DropHead(g: seq<nat>): seq<nat>
    requires |g| > 0
  {
    if g[0] == 0 then g else g[1..]
  }

  function DropHeads(gs: seq<seq<nat>>): (r: seq<seq<nat>>)
    requires forall k :: 0 <= k < |gs| ==> |gs[k]| > 0
    ensures |r| == |gs| && forall k :: 0 <= k < |gs| ==> r[k] == DropHead(gs[k])
  {
    seq(|gs|, k requires 0 <= k < |gs| => DropHead(gs[k]))
  }

  /** Dropping the heads of a list of groups with one more in front. */
  lemma {:induction false} DropHeadsCons(g: seq<nat>, gs: seq<seq<nat>>)
    requires |g| > 0 && forall k :: 0 <= k < |gs| ==> |gs[k]| > 0
    ensures DropHeads([g] + gs) == [DropHead(g)] + DropHeads(gs)
  {
    var L, R := DropHeads([g] + gs), [DropHead(g)] + DropHeads(gs);
    forall k | 0 <= k < |L|
      ensures L[k] == R[k]
    {
      if k > 0 {
        assert ([g] + gs)[k] == gs[k - 1];
      }
    }
  }

  /** The groups the earlier allocator collects from index `i` on: the maximal free runs,
      each without its first index unless it starts at index 0. */
  function AllocatorGroupsFrom(rs: seq<Region>, i: nat): seq<seq<nat>>
    requires i <= |rs|
  {
    FreeRunsAreFreeRuns(rs, i);
    DropHeads(FreeRuns(rs, i))
  }

  /** The groups the earlier allocator collects over the whole list. */
  function AllocatorGroups(rs: seq<Region>): seq<seq<nat>>
  {
    AllocatorGroupsFrom(rs, 0)
  }

  /** The earlier allocator collects the maximal free runs, each without its first index
      unless it starts at index 0. */
  lemma {:induction false} AllocatorGroupsDropFirst(rs: seq<Region>)
    ensures |AllocatorGroups(rs)| == |FreeRuns(rs, 0)|
    ensures forall k :: 0 <= k < |AllocatorGroups(rs)| ==>
      && FreeRuns(rs, 0)[k] != []
      && (FreeRuns(rs, 0)[k][0] == 0 ==> AllocatorGroups(rs)[k] == FreeRuns(rs, 0)[k])
      && (FreeRuns(rs, 0)[k][0] > 0 ==> AllocatorGroups(rs)[k] == FreeRuns(rs, 0)[k][1..])
  {
    FreeRunsAreFreeRuns(rs, 0);
  }

  /** The groups before the first empty one are runs the join can merge. */
  lemma {:induction false} AllocatorGroupsPrefix(rs: seq<Region>, gi: nat)
    requires gi <= |AllocatorGroups(rs)|
    requires forall k :: 0 <= k < gi ==> AllocatorGroups(rs)[k] != []
    ensures Runs(AllocatorGroups(rs)[..gi], 0, |rs|)
  {
    var F, D := FreeRuns(rs, 0), AllocatorGroups(rs);
    FreeRunsAreFreeRuns(rs, 0);
    AllocatorGroupsDropFirst(rs);
    forall k | 0 <= k < gi
      ensures IsRun(D[k]) && Stop(D[k]) == Stop(F[k]) && F[k][0] <= D[k][0]
    {
      if F[k][0] > 0 {
        assert D[k] == F[k][1..];
        assert D[k][0] == F[k][1];
      }
    }
  }

  /** A free run at index 0 is collected whole, so when the join completes, region 0 holds the
      whole run. */
  lemma {:induction false} AllocatorMergesHeadRun(rs: seq<Region>)
    requires rs != [] && rs[0].free
    requires forall k :: 0 <= k < |AllocatorGroups(rs)| ==> AllocatorGroups(rs)[k] != []
    ensures AllocatorGroups(rs) != [] && AllocatorGroups(rs)[0] == Range(0, RunEnd(rs, 0))
    ensures Runs(AllocatorGroups(rs), 0, |rs|)
    ensures MergeRuns(rs, AllocatorGroups(rs), 0)[0] == Region(rs[0].offset, SumSizes(rs[..RunEnd(rs, 0)]), true)
  {
    var F, D := FreeRuns(rs, 0), AllocatorGroups(rs);
    AllocatorGroupsDropFirst(rs);
    assert F[0] == Range(0, RunEnd(rs, 0));
    AllocatorGroupsPrefix(rs, |D|);
    assert D[..|D|] == D;
    assert rs[0..0] == [];
  }

  /** A free region after an occupied one, with no free region after it. */
  predicate LoneFree(rs: seq<Region>, i: nat)
  {
    0 < i < |rs| && rs[i].free && !rs[i - 1].free && (i + 1 == |rs| || !rs[i + 1].free)
  }

  /** The earlier allocator collects an empty group exactly for a lone free region after an
      occupied one. */
  lemma {:induction false} AllocatorGroupsEmpty(rs: seq<Region>)
    ensures (exists k :: 0 <= k < |AllocatorGroups(rs)| && AllocatorGroups(rs)[k] == []) <==>
      (exists i :: LoneFree(rs, i))
  {
    if k :| 0 <= k < |AllocatorGroups(rs)| && AllocatorGroups(rs)[k] == [] {
      EmptyGroupIsLone(rs, k);
    }
    if i :| LoneFree(rs, i) {
      LoneIsEmptyGroup(rs, i);
    }
  }

  /** An empty group comes from a free run of one region after an occupied one. */
  lemma {:induction false} EmptyGroupIsLone(rs: seq<Region>, k: nat)
    requires k < |AllocatorGroups(rs)| && AllocatorGroups(rs)[k] == []
    ensures k < |FreeRuns(rs, 0)| && FreeRuns(rs, 0)[k] != [] && LoneFree(rs, FreeRuns(rs, 0)[k][0])
  {
    var F := FreeRuns(rs, 0);
    FreeRunsAreMaximalRuns(rs, 0);
    AllocatorGroupsDropFirst(rs);
    assert F[k][0] > 0 && |F[k]| == 1;
  }

  /** A lone free region after an occupied one is a free run of its own, collected empty. */
  lemma {:induction false} LoneIsEmptyGroup(rs: seq<Region>, i: nat)
    requires LoneFree(rs, i)
    ensures exists k :: 0 <= k < |AllocatorGroups(rs)| && AllocatorGroups(rs)[k] == []
  {
    var k := LoneRun(rs, i);
    AllocatorGroupsDropFirst(rs);
    assert AllocatorGroups(rs)[k] == FreeRuns(rs, 0)[k][1..] == [];
  }

  /** A lone free region is a free run of its own. */
  lemma {:induction false} LoneRun(rs: seq<Region>, i: nat) returns (k: nat)
    requires LoneFree(rs, i)
    ensures k < |FreeRuns(rs, 0)| && FreeRuns(rs, 0)[k] == [i]
  {
    var F := FreeRuns(rs, 0);
    FreeRunsAreFreeRuns(rs, 0);
    FreeRunsCover(rs, 0, i);
    k :| 0 <= k < |F| && InRun(F[k], i);
    var g := F[k];
    assert IsRun(g) && Stop(g) <= |rs|;
    FreeRunMembers(rs, g);
    assert !InRun(g, i - 1);
    assert i + 1 < |rs| ==> !InRun(g, i + 1);
    assert g == [i];
  }

  /** Every index a run of free regions spans is a free region. */
  lemma {:induction false} FreeRunMembers(rs: seq<Region>, g: seq<nat>)
    requires IsRun(g) && Stop(g) <= |rs| && forall t :: 0 <= t < |g| ==> rs[g[t]].free
    ensures forall j: nat :: InRun(g, j) ==> j < |rs| && rs[j].free
  {
    forall j: nat | InRun(g, j)
      ensures j < |rs| && rs[j].free
    {
      RunAt(g, j);
    }
  }

  /** The index of the first empty group, or the number of groups when there is none. */
  function FirstEmpty(gs: seq<seq<nat>>): (e: nat)
    ensures e <= |gs|
    ensures e < |gs| ==> gs[e] == []
    ensures forall k :: 0 <= k < e ==> gs[k] != []
    decreases |gs|
  {
    if gs == [] then 0
    else if gs[0] == [] then 0
    else 1 + FirstEmpty(gs[1..])
  }

  /** The groups the earlier allocator collects, up to the first empty one, are runs. */
  lemma {:induction false} AllocatorGroupsRuns(rs: seq<Region>)
    ensures Runs(AllocatorGroups(rs)[..FirstEmpty(AllocatorGroups(rs))], 0, |rs|)
  {
    AllocatorGroupsPrefix(rs, FirstEmpty(AllocatorGroups(rs)));
  }

  /** The prefixes of a list of runs are lists of runs. */
  lemma {:induction false} RunsPrefix(gs: seq<seq<nat>>, e: nat, gi: nat, n: nat)
    requires e <= |gs| && Runs(gs[..e], 0, n) && gi <= e
    ensures Runs(gs[..gi], 0, n) && Within(gs[..gi], n)
  {
    assert gs[..gi] == gs[..e][..gi];
  }

  /** The earlier allocator's join stops with IndexError exactly when some lone free region
      follows an occupied one. */
  lemma {:induction false} AllocatorJoinFails(rs: seq<Region>)
    ensures FirstEmpty(AllocatorGroups(rs)) < |AllocatorGroups(rs)| <==> exists i :: LoneFree(rs, i)
  {
    var D := AllocatorGroups(rs);
    AllocatorGroupsEmpty(rs);
    if FirstEmpty(D) < |D| {
      assert D[FirstEmpty(D)] == [];
    }
  }

  /** The regions the earlier allocator's join leaves: every group merged when no group is
      empty, and otherwise only the size pass over the groups before the first empty one. */
  function AllocatorJoined(rs: seq<Region>): seq<Region>
  {
    var gs := AllocatorGroups(rs);
    AllocatorGroupsRuns(rs);
    RunsPrefix(gs, FirstEmpty(gs), FirstEmpty(gs), |rs|);
    if FirstEmpty(gs) == |gs| then
      assert gs[..|gs|] == gs;
      MergeRuns(rs, gs, 0)
    else Absorb(rs, gs[..FirstEmpty(gs)])
  }

  /** When the earlier allocator's join runs through, it merges every group, and the list it
      leaves still partitions the buffer. */
  lemma {:induction false} AllocatorJoinTiles(rs: seq<Region>, n: nat)
    requires Partition(rs, n) && rs != [] && FirstEmpty(AllocatorGroups(rs)) == |AllocatorGroups(rs)|
    ensures Runs(AllocatorGroups(rs), 0, |rs|)
    ensures Within(AllocatorGroups(rs), |rs|) && Deletable(Tails(AllocatorGroups(rs)), |rs|)
    ensures DeleteFrom(Absorb(rs, AllocatorGroups(rs)), Tails(AllocatorGroups(rs)), 0) == AllocatorJoined(rs)
    ensures Partition(AllocatorJoined(rs), n) && AllocatorJoined(rs) != []
  {
    var D := AllocatorGroups(rs);
    AllocatorGroupsPrefix(rs, |D|);
    assert D[..|D|] == D;
    assert rs[0..] == rs;
    MergeRunsTiles(rs, D, 0, 0, n);
    MergeRunsNonEmpty(rs, D, 0);
    JoinCorrect(rs, D);
  }

  /** The groups the earlier allocator's size pass gets through: those before the first
      empty one. */
  function PassedGroups(rs: seq<Region>): seq<seq<nat>>
  {
    AllocatorGroups(rs)[..FirstEmpty(AllocatorGroups(rs))]
  }

  /** Some group of `gs` of two or more indices grows its first region: the regions after
      the first hold at least one byte. */
  predicate HeadGrows(rs: seq<Region>, gs: seq<seq<nat>>)
  {
    exists k :: 0 <= k < |gs| && |gs[k]| > 1 && Stop(gs[k]) <= |rs|
      && Absorbed(rs, gs[k][0], Stop(gs[k])).size > rs[gs[k][0]].size
  }

  /** When a group is empty, the earlier allocator's join leaves the size pass over the
      groups before it. The list is unchanged exactly when none of those groups grows its
      first region, and a list that partitioned the buffer still does exactly then; a grown
      region overlaps the next one, which is never deleted. When the empty group is the
      first one, nothing changes. */
  lemma {:induction false} AllocatorJoinStops(rs: seq<Region>, n: nat)
    requires FirstEmpty(AllocatorGroups(rs)) < |AllocatorGroups(rs)|
    ensures Within(PassedGroups(rs), |rs|)
    ensures AllocatorJoined(rs) == Absorb(rs, PassedGroups(rs))
    ensures AllocatorJoined(rs) == rs <==> !HeadGrows(rs, PassedGroups(rs))
    ensures Partition(rs, n) ==> (Partition(AllocatorJoined(rs), n) <==> !HeadGrows(rs, PassedGroups(rs)))
    ensures FirstEmpty(AllocatorGroups(rs)) == 0 ==> AllocatorJoined(rs) == rs
  {
    var D := AllocatorGroups(rs);
    var P := PassedGroups(rs);
    AllocatorGroupsRuns(rs);
    RunsPrefix(D, FirstEmpty(D), FirstEmpty(D), |rs|);
    assert P[..|P|] == P;
    if HeadGrows(rs, P) {
      var k :| 0 <= k < |P| && |P[k]| > 1 && Stop(P[k]) <= |rs|
        && Absorbed(rs, P[k][0], Stop(P[k])).size > rs[P[k][0]].size;
      AbsorbGrows(rs, P, k, n);
    } else {
      AbsorbIdle(rs, P, |P|);
    }
  }

  /** Groups none of which grows its first region leave the regions as they are. */
  lemma {:induction false} AbsorbIdle(rs: seq<Region>, gs: seq<seq<nat>>, m: nat)
    requires Runs(gs, 0, |rs|) && m <= |gs| && !HeadGrows(rs, gs)
    ensures Within(gs[..m], |rs|) && Absorb(rs, gs[..m]) == rs
  {
    if m == 0 {
      assert gs[..0] == [];
    } else {
      AbsorbIdle(rs, gs, m - 1);
      AbsorbNext(rs, gs, m - 1);
      var g := gs[m - 1];
      if |g| > 1 {
        var a := g[0];
        assert rs[a..Stop(g)][0] == rs[a];
        assert Absorbed(rs, a, Stop(g)) == rs[a];
        UpdateSame(rs, a);
      }
    }
  }

  /** A group that grows its first region leaves that region overlapping the next one, which
      the later groups do not touch: the regions change, and they no longer tile. */
  lemma {:induction false} AbsorbGrows(rs: seq<Region>, gs: seq<seq<nat>>, k: nat, n: nat)
    requires Runs(gs, 0, |rs|) && k < |gs| && |gs[k]| > 1
    requires Absorbed(rs, gs[k][0], Stop(gs[k])).size > rs[gs[k][0]].size
    ensures Within(gs, |rs|)
    ensures Absorb(rs, gs) != rs
    ensures Partition(rs, n) ==> !Partition(Absorb(rs, gs), n)
  {
    var a := gs[k][0];
    AbsorbNext(rs, gs, k);
    AbsorbLater(rs, gs, k, |gs|);
    assert gs[..|gs|] == gs;
    var R := Absorb(rs, gs);
    assert R[a] == Absorbed(rs, a, Stop(gs[k]));
    assert R[a + 1] == rs[a + 1];
    if Partition(rs, n) {
      TilesAdjacent(rs, 0, n, a + 1);
      TilesBreak(R, n, a + 1);
    }
  }

  /** The groups after group `k` leave the regions before its end as group `k` left them. */
  lemma {:induction false} AbsorbLater(rs: seq<Region>, gs: seq<seq<nat>>, k: nat, m: nat)
    requires Runs(gs, 0, |rs|) && k < m <= |gs|
    ensures Within(gs[..k + 1], |rs|) && Within(gs[..m], |rs|)
    ensures forall j :: 0 <= j < Stop(gs[k]) ==> Absorb(rs, gs[..m])[j] == Absorb(rs, gs[..k + 1])[j]
    decreases m
  {
    if m > k + 1 {
      AbsorbLater(rs, gs, k, m - 1);
      var g := gs[m - 1];
      assert Stop(gs[k]) <= g[0];
      assert gs[..m] == gs[..m - 1] + [g];
      AbsorbSnocBefore(rs, gs[..m - 1], g, Stop(gs[k]));
    } else {
      AbsorbNext(rs, gs, k);
    }
  }

  /** One more group that starts at `b` or later leaves the regions before `b` as they were. */
  lemma {:induction false} AbsorbSnocBefore(rs: seq<Region>, gs: seq<seq<nat>>, g: seq<nat>, b: nat)
    requires Within(gs, |rs|) && IsRun(g) && Stop(g) <= |rs| && b <= g[0]
    ensures Within(gs + [g], |rs|)
    ensures forall j :: 0 <= j < b ==> Absorb(rs, gs + [g])[j] == Absorb(rs, gs)[j]
  {
    AbsorbSnoc(rs, gs, g);
  }

  /** Two neighbours that do not meet cannot be part of a partition. */
  lemma {:induction false} TilesBreak(rs: seq<Region>, n: nat, i: nat)
    requires 0 < i < |rs| && rs[i].offset != rs[i - 1].End()
    ensures !Partition(rs, n)
  {
    if Partition(rs, n) {
      TilesAdjacent(rs, 0, n, i);
    }
  }
}

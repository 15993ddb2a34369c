/** Lists of chunk objects, as both managers keep them: what splitting a chunk, growing a chunk
    over a run and deleting a chunk from the list do to the regions the list holds. */
module ChunkLists {
  import opened Layout
  import opened Coalescing
  import opened Joining
  import opened Chunks

  /** The chunk objects after a split still hold the regions after the split, and none
      occurs twice. */
  lemma {:induction false} SplitMirror(cs: seq<Chunk>, rs: seq<Region>, cs': seq<Chunk>, rs': seq<Region>,
                           i: nat, chunk: Chunk, rest: Chunk)
    requires i < |cs| == |rs| && cs[i] == chunk && rest !in cs
    requires forall j :: 0 <= j < |cs| && j != i ==> cs[j].AsRegion() == rs[j]
    requires forall j, k :: 0 <= j < k < |cs| ==> cs[j] != cs[k]
    requires cs' == cs[..i + 1] + [rest] + cs[i + 1..]
    requires rs' == rs[..i] + [chunk.AsRegion(), rest.AsRegion()] + rs[i + 1..]
    ensures |cs'| == |rs'|
    ensures forall j :: 0 <= j < |cs'| ==> cs'[j].AsRegion() == rs'[j]
    ensures forall j, k :: 0 <= j < k < |cs'| ==> cs'[j] != cs'[k]
  {
    forall j | 0 <= j < |cs'|
      ensures cs'[j].AsRegion() == rs'[j]
    {
      if j < i {
        assert cs'[j] == cs[j] && rs'[j] == rs[j];
      } else if j > i + 1 {
        assert cs'[j] == cs[j - 1] && rs'[j] == rs[j - 1];
      }
    }
    forall j, k | 0 <= j < k < |cs'|
      ensures cs'[j] != cs'[k]
    {
      if j != i + 1 && k != i + 1 {
        var j', k' := if j < i + 1 then j else j - 1, if k < i + 1 then k else k - 1;
        assert cs'[j] == cs[j'] && cs'[k] == cs[k'];
      }
    }
  }

  /** The loop of the size pass over one run: `chunk`, the run's first chunk, takes the size
      of every later chunk of the run, and their indices are collected. */
  method GrowChunk(ghost rs0: seq<Region>, cs: seq<Chunk>, group: seq<nat>, chunk: Chunk) returns (added: seq<nat>)
    requires IsRun(group) && |group| > 1 && Stop(group) <= |rs0| == |cs| && cs[group[0]] == chunk
    requires forall j :: group[0] <= j < |cs| ==> cs[j].AsRegion() == rs0[j]
    requires forall j :: 0 <= j < |cs| && j != group[0] ==> cs[j] != chunk
    modifies chunk
    ensures chunk.AsRegion() == Absorbed(rs0, group[0], Stop(group))
    ensures added == group[1..]
  {
    var a := group[0];
    assert rs0[a..a + 1] == [rs0[a]] && [rs0[a]][1..] == [];
    added := [];
    var k := 1;
    while k < |group|
      invariant 1 <= k <= |group|
      invariant chunk.AsRegion() == rs0[a].(size := SumSizes(rs0[a..a + k]))
      invariant forall j :: group[0] < j < |cs| ==> cs[j].AsRegion() == rs0[j]
      invariant added == group[1..k]
    {
      var idx := group[k];
      assert idx == a + k;
      added := added + [idx];
      chunk.size := chunk.size + cs[idx].size;
      SumSizesRunStep(rs0, a, k);
      assert group[1..k + 1] == group[1..k] + [idx];
      k := k + 1;
    }
    assert group[1..k] == group[1..];
  }

  /** Deleting one index from both lists keeps the chunks holding the regions, and keeps
      them distinct. */
  lemma {:induction false} DropMirror(cs: seq<Chunk>, rs: seq<Region>, idx: nat)
    requires idx < |cs| == |rs|
    requires forall q :: 0 <= q < |cs| ==> cs[q].AsRegion() == rs[q]
    requires forall q, q' :: 0 <= q < q' < |cs| ==> cs[q] != cs[q']
    ensures var cs', rs' := cs[..idx] + cs[idx + 1..], rs[..idx] + rs[idx + 1..];
      && |cs'| == |rs'|
      && (forall q :: 0 <= q < |cs'| ==> cs'[q].AsRegion() == rs'[q])
      && (forall q, q' :: 0 <= q < q' < |cs'| ==> cs'[q] != cs'[q'])
  {
    var cs', rs' := cs[..idx] + cs[idx + 1..], rs[..idx] + rs[idx + 1..];
    forall q | 0 <= q < |cs'|
      ensures cs'[q].AsRegion() == rs'[q]
    {
      var p := if q < idx then q else q + 1;
      assert cs'[q] == cs[p] && rs'[q] == rs[p];
    }
    forall q, q' | 0 <= q < q' < |cs'|
      ensures cs'[q] != cs'[q']
    {
      var p, p' := if q < idx then q else q + 1, if q' < idx then q' else q' + 1;
      assert cs'[q] == cs[p] && cs'[q'] == cs[p'];
    }
  }
}

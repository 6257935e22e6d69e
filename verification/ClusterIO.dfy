/** read_clusters and write_clusters: moving bytes between a buffer and a list of runs. */
module ClusterIO {
  import opened Bytes
  import opened Runlist
  import opened Slices

  /** Byte offset of run x in the logical sequence. */
  function Offset(runs: seq<Run>, x: nat, cs: nat): nat
    requires Positive(runs) && x <= |runs|
  {
    |Cells(runs[..x])| * cs
  }

  lemma OffsetNext(runs: seq<Run>, x: nat, cs: nat)
    requires Positive(runs) && x < |runs|
    ensures Offset(runs, x + 1, cs) == Offset(runs, x, cs) + runs[x].length * cs
  {
    hide Cells;
    assert runs[..x + 1] == runs[..x] + [runs[x]];
    CellsAppend(runs[..x], [runs[x]]);
    CellsOne(runs[x]);
    MulAdd(|Cells(runs[..x])|, runs[x].length, cs);
  }

  lemma OffsetMonotone(runs: seq<Run>, x: nat, y: nat, cs: nat)
    requires Positive(runs) && x <= y <= |runs|
    ensures Offset(runs, x, cs) <= Offset(runs, y, cs)
    decreases y - x
  {
    hide Offset;
    if x < y {
      OffsetNext(runs, x, cs);
      OffsetMonotone(runs, x + 1, y, cs);
    }
  }

  /** An allocated run contributes its slice of the disk at its offset. */
  lemma FlatSlice(disk: seq<byte>, runs: seq<Run>, x: nat, cs: nat)
    requires Positive(runs) && AllOnDisk(|disk|, runs, cs) && x < |runs|
    ensures Offset(runs, x, cs) + runs[x].length * cs <= |Flat(disk, runs, cs)|
    ensures Flat(disk, runs, cs)[Offset(runs, x, cs)..Offset(runs, x, cs) + runs[x].length * cs]
            == RunBytes(disk, runs[x], cs)
  {
    hide RunBytes, OnDisk, Flat, Cells;
    FlatLength(disk, runs[..x], cs);
    FlatAt(disk, runs, x, cs);
  }

  /** ntfs_pwrite with a device that accepts the whole request. */
  method PWrite(disk: array<byte>, pos: nat, data: seq<byte>)
    requires pos + |data| <= disk.Length
    modifies disk
    ensures disk[..] == Patch(old(disk[..]), pos, data)
  {
    forall k | 0 <= k < |data| { disk[pos + k] := data[k]; }
  }

  /** Runs from r on are allocated, and nothing on the list shares a cluster. */
  ghost predicate Writable(size: nat, runs: seq<Run>, r: nat, cs: nat) {
    && r < |runs| && Positive(runs) && AllOnDisk(size, runs, cs) && Disjoint(runs)
    && forall k :: r <= k < |runs| ==> runs[k].lcn >= 0
  }

  /** Store one run's share of the data. */
  method WriteRun(disk: array<byte>, cs: nat, ghost runs: seq<Run>, x: nat, run: Run, o: nat, data: seq<byte>)
    requires Writable(disk.Length, runs, x, cs) && run == runs[x] && o + |data| <= run.length * cs
    modifies disk
    ensures |Flat(old(disk[..]), runs, cs)| >= Offset(runs, x, cs) + o + |data|
    ensures Flat(disk[..], runs, cs) == Patch(Flat(old(disk[..]), runs, cs), Offset(runs, x, cs) + o, data)
  {
    hide Flat, RunBytes, OnDisk, Patch, Apart, Cells;
    ghost var before := disk[..];
    FlatLength(before, runs[..x], cs);
    FlatWrite(before, runs, x, o, data, cs);
    PWrite(disk, run.lcn * cs + o, data);
  }

  lemma RunSpace(runs: seq<Run>, x: nat, cs: nat)
    requires Positive(runs) && x < |runs| && cs > 0
    ensures runs[x].length * cs > 0
  {
  }

  lemma NoPatch(f: seq<byte>, p: nat, data: seq<byte>)
    requires p + |data| <= |f|
    ensures Patch(f, p, data[..0]) == f
  {
  }

  lemma FlatEnd(disk: seq<byte>, runs: seq<Run>, cs: nat)
    requires Positive(runs) && AllOnDisk(|disk|, runs, cs)
    ensures |Flat(disk, runs, cs)| == Offset(runs, |runs|, cs)
  {
    hide Flat, Cells;
    assert runs[..|runs|] == runs;
    FlatLength(disk, runs, cs);
  }

  /** write_clusters: the data land at byte offset offs behind the start of run r. */
  method WriteClusters(disk: array<byte>, cs: nat, rl: array<Run>, ghost n: nat, r: nat, offs: nat, data: seq<byte>)
    returns (put: nat)
    requires r < n <= rl.Length && Writable(disk.Length, rl[..n], r, cs)
    requires offs < rl[r].length * cs && data != []
    requires Offset(rl[..n], r, cs) + offs + |data| <= |Flat(disk[..], rl[..n], cs)|
    modifies disk
    ensures put == |data|
    ensures Flat(disk[..], rl[..n], cs)
            == Patch(Flat(old(disk[..]), rl[..n], cs), Offset(rl[..n], r, cs) + offs, data)
  {
    hide Flat, RunBytes, OnDisk, Offset, Apart, Cells, Patch;
    ghost var runs := rl[..n];
    ghost var flat := Flat(disk[..], runs, cs);
    ghost var start := Offset(runs, r, cs) + offs;
    put := 0;
    var x, first := r, true;
    NoPatch(flat, start, data);
    FlatEnd(disk[..], runs, cs);
    while put < |data|
      invariant r <= x <= n && put <= |data| && rl[..n] == runs
      invariant if first then x == r && put == 0
                else put < |data| ==> x < n && start + put == Offset(runs, x, cs)
      invariant Flat(disk[..], runs, cs) == Patch(flat, start, data[..put])
      decreases |data| - put
    {
      var o := if first then offs else 0;
      var count := rl[x].length * cs - o;
      if |data| - put < count {
        count := |data| - put;
      }
      assert rl[x] == runs[x];
      RunSpace(runs, x, cs);
      WriteRun(disk, cs, runs, x, rl[x], o, data[put..put + count]);
      PatchTwice(flat, start, data[..put], data[put..put + count]);
      assert data[..put + count] == data[..put] + data[put..put + count];
      OffsetNext(runs, x, cs);
      put, x, first := put + count, x + 1, false;
    }
    assert data[..put] == data;
  }
}

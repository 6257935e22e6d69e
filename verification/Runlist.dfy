/** Runlists: the cluster map they denote and the bytes it selects from a disk. */
module Runlist {
  import opened Bytes
  import opened Slices

  const LCN_HOLE := -1
  const LCN_RL_NOT_MAPPED := -2
  const LCN_ENOENT := -3

  datatype Run = Run(vcn: int, lcn: int, length: int)

  /** Logical cluster behind each virtual cluster of one run. */
  function RunCells(r: Run): (c: seq<int>)
    requires r.length >= 0
    ensures |c| == r.length
  {
    seq(r.length, k => if r.lcn < 0 then r.lcn else r.lcn + k)
  }

  predicate Positive(runs: seq<Run>) {
    forall k :: 0 <= k < |runs| ==> runs[k].length > 0
  }

  /** The virtual cluster behind a run. */
  function End(r: Run): int {
    r.vcn + r.length
  }

  /** The virtual-to-logical map of a list of runs, cluster by cluster. */
  function Cells(runs: seq<Run>): seq<int>
    requires Positive(runs)
  {
    if runs == [] then [] else RunCells(runs[0]) + Cells(runs[1..])
  }

  lemma {:induction false} CellsAppend(a: seq<Run>, b: seq<Run>)
    requires Positive(a) && Positive(b)
    ensures Positive(a + b) && Cells(a + b) == Cells(a) + Cells(b)
    decreases |a|
  {
    hide RunCells;
    if a == [] {
      assert a + b == b;
    } else {
      assert (a + b)[1..] == a[1..] + b;
      CellsAppend(a[1..], b);
    }
  }

  lemma CellsOne(r: Run)
    requires r.length > 0
    ensures Cells([r]) == RunCells(r)
  {
    assert Cells([r]) == RunCells(r) + Cells([]);
  }

  /** Each run begins where the one before it ends. */
  predicate Adjacent(runs: seq<Run>) {
    forall k :: 0 < k < |runs| ==> runs[k].vcn == runs[k - 1].vcn + runs[k - 1].length
  }

  /** n runs in rl[..n] and the end mark in rl[n], each element beginning where the one before ends. */
  ghost predicate Terminated(rl: seq<Run>, n: nat) {
    && n < |rl| && Positive(rl[..n]) && rl[n].length == 0
    && forall k :: 0 < k <= n ==> rl[k].vcn == rl[k - 1].vcn + rl[k - 1].length
  }

  lemma {:induction false} VcnOf(runs: seq<Run>, k: nat)
    requires Positive(runs) && Adjacent(runs) && k < |runs|
    ensures runs[k].vcn == runs[0].vcn + |Cells(runs[..k])|
    decreases k
  {
    if k > 0 {
      VcnOf(runs, k - 1);
      assert runs[..k] == runs[..k - 1] + [runs[k - 1]];
      CellsAppend(runs[..k - 1], [runs[k - 1]]);
      assert Cells([runs[k - 1]]) == RunCells(runs[k - 1]) + Cells([]);
    }
  }

  // ---- bytes ----

  predicate OnDisk(size: nat, r: Run, cs: nat) {
    r.length >= 0 && (r.lcn >= 0 ==> (r.lcn + r.length) * cs <= size)
  }

  /** Bytes of one run: a slice of the disk, or zeroes for a hole. */
  function RunBytes(disk: seq<byte>, r: Run, cs: nat): (b: seq<byte>)
    requires OnDisk(|disk|, r, cs)
    ensures |b| == r.length * cs
  {
    if r.lcn < 0 then Zeros(r.length * cs)
    else
      assert (r.lcn + r.length) * cs == r.lcn * cs + r.length * cs;
      disk[r.lcn * cs..(r.lcn + r.length) * cs]
  }

  predicate AllOnDisk(size: nat, runs: seq<Run>, cs: nat) {
    forall k :: 0 <= k < |runs| ==> OnDisk(size, runs[k], cs)
  }

  /** The logical byte sequence a list of runs selects. */
  function Flat(disk: seq<byte>, runs: seq<Run>, cs: nat): seq<byte>
    requires AllOnDisk(|disk|, runs, cs)
  {
    if runs == [] then [] else RunBytes(disk, runs[0], cs) + Flat(disk, runs[1..], cs)
  }

  lemma {:induction false} FlatLength(disk: seq<byte>, runs: seq<Run>, cs: nat)
    requires AllOnDisk(|disk|, runs, cs) && Positive(runs)
    ensures |Flat(disk, runs, cs)| == |Cells(runs)| * cs
    decreases |runs|
  {
    hide RunBytes, RunCells;
    if runs != [] {
      FlatLength(disk, runs[1..], cs);
      var a, b := runs[0].length, |Cells(runs[1..])|;
      assert (a + b) * cs == a * cs + b * cs;
    }
  }

  lemma {:induction false} FlatAppend(disk: seq<byte>, a: seq<Run>, b: seq<Run>, cs: nat)
    requires AllOnDisk(|disk|, a, cs) && AllOnDisk(|disk|, b, cs)
    ensures AllOnDisk(|disk|, a + b, cs)
    ensures Flat(disk, a + b, cs) == Flat(disk, a, cs) + Flat(disk, b, cs)
    decreases |a|
  {
    hide RunBytes, OnDisk;
    if a == [] {
      assert a + b == b;
    } else {
      assert (a + b)[1..] == a[1..] + b;
      FlatAppend(disk, a[1..], b, cs);
    }
  }

  lemma FlatOne(disk: seq<byte>, r: Run, cs: nat)
    requires OnDisk(|disk|, r, cs)
    ensures Flat(disk, [r], cs) == RunBytes(disk, r, cs)
  {
    hide RunBytes, OnDisk;
    assert Flat(disk, [r], cs) == RunBytes(disk, r, cs) + Flat(disk, [], cs);
  }

  /** Run x sits between what comes before and after it. */
  lemma FlatAt(disk: seq<byte>, runs: seq<Run>, x: nat, cs: nat)
    requires AllOnDisk(|disk|, runs, cs) && x < |runs|
    ensures Flat(disk, runs, cs)
            == Flat(disk, runs[..x], cs) + RunBytes(disk, runs[x], cs) + Flat(disk, runs[x + 1..], cs)
  {
    hide RunBytes, OnDisk, Flat;
    assert runs == runs[..x] + ([runs[x]] + runs[x + 1..]);
    FlatAppend(disk, [runs[x]], runs[x + 1..], cs);
    FlatOne(disk, runs[x], cs);
    FlatAppend(disk, runs[..x], [runs[x]] + runs[x + 1..], cs);
  }

  /** Two runs share no cluster. */
  predicate Apart(a: Run, b: Run) {
    a.lcn < 0 || b.lcn < 0 || a.lcn + a.length <= b.lcn || b.lcn + b.length <= a.lcn
  }

  predicate Disjoint(runs: seq<Run>) {
    forall j, k :: 0 <= j < k < |runs| ==> Apart(runs[j], runs[k])
  }

  lemma PatchSlice(disk: seq<byte>, a: nat, data: seq<byte>, lo: nat, hi: nat)
    requires lo <= a && a + |data| <= hi <= |disk|
    ensures Patch(disk, a, data)[lo..hi] == Patch(disk[lo..hi], a - lo, data)
  {
  }

  lemma Bounds(r: Run, cs: nat)
    requires r.lcn >= 0 && r.length >= 0
    ensures r.lcn * cs >= 0 && r.length * cs >= 0
    ensures (r.lcn + r.length) * cs == r.lcn * cs + r.length * cs
  {
  }

  /** Writing inside run x does not show through a run that is apart from it. */
  lemma PatchElsewhere(disk: seq<byte>, x: Run, o: nat, data: seq<byte>, r: Run, cs: nat)
    requires OnDisk(|disk|, x, cs) && OnDisk(|disk|, r, cs) && x.lcn >= 0
    requires o + |data| <= x.length * cs && Apart(x, r)
    ensures x.lcn * cs + o + |data| <= |disk|
    ensures RunBytes(Patch(disk, x.lcn * cs + o, data), r, cs) == RunBytes(disk, r, cs)
  {
    hide Patch;
    Bounds(x, cs);
    if r.lcn >= 0 {
      Bounds(r, cs);
      if x.lcn + x.length <= r.lcn {
        MulMono(x.lcn + x.length, r.lcn, cs);
      } else {
        MulMono(r.lcn + r.length, x.lcn, cs);
      }
      PatchedSlice(disk, x.lcn * cs + o, data, r.lcn * cs, (r.lcn + r.length) * cs);
    }
  }

  lemma PatchInside(disk: seq<byte>, x: Run, o: nat, data: seq<byte>, cs: nat)
    requires OnDisk(|disk|, x, cs) && x.lcn >= 0 && o + |data| <= x.length * cs
    ensures x.lcn * cs + o + |data| <= |disk|
    ensures RunBytes(Patch(disk, x.lcn * cs + o, data), x, cs) == Patch(RunBytes(disk, x, cs), o, data)
  {
    hide Patch;
    assert (x.lcn + x.length) * cs == x.lcn * cs + x.length * cs;
    PatchSlice(disk, x.lcn * cs + o, data, x.lcn * cs, (x.lcn + x.length) * cs);
  }

  lemma HoleOnDisk(size: nat, x: Run, cs: nat)
    requires OnDisk(size, x, cs)
    ensures OnDisk(size, x.(lcn := LCN_HOLE), cs)
  {
  }

  lemma HoleApart(x: Run)
    ensures Apart(x, x.(lcn := LCN_HOLE))
  {
  }

  lemma {:induction false} PatchApart(disk: seq<byte>, x: Run, o: nat, data: seq<byte>, runs: seq<Run>, cs: nat)
    requires OnDisk(|disk|, x, cs) && AllOnDisk(|disk|, runs, cs) && x.lcn >= 0
    requires o + |data| <= x.length * cs
    requires forall k :: 0 <= k < |runs| ==> Apart(x, runs[k])
    ensures x.lcn * cs + o + |data| <= |disk|
    ensures Flat(Patch(disk, x.lcn * cs + o, data), runs, cs) == Flat(disk, runs, cs)
    decreases |runs|
  {
    hide RunBytes, Patch, OnDisk, Apart;
    PatchElsewhere(disk, x, o, data, x.(lcn := LCN_HOLE), cs) by {
      HoleOnDisk(|disk|, x, cs);
      HoleApart(x);
    }
    if runs != [] {
      PatchElsewhere(disk, x, o, data, runs[0], cs);
      PatchApart(disk, x, o, data, runs[1..], cs);
    }
  }

  /** A write inside run x changes exactly the matching slice of the logical bytes. */
  lemma FlatWrite(disk: seq<byte>, runs: seq<Run>, x: nat, o: nat, data: seq<byte>, cs: nat)
    requires AllOnDisk(|disk|, runs, cs) && Disjoint(runs) && x < |runs| && runs[x].lcn >= 0
    requires o + |data| <= runs[x].length * cs
    ensures runs[x].lcn * cs + o + |data| <= |disk|
    ensures |Flat(disk, runs[..x], cs)| + o + |data| <= |Flat(disk, runs, cs)|
    ensures Flat(Patch(disk, runs[x].lcn * cs + o, data), runs, cs)
            == Patch(Flat(disk, runs, cs), |Flat(disk, runs[..x], cs)| + o, data)
  {
    hide RunBytes, OnDisk, Flat;
    PatchInside(disk, runs[x], o, data, cs);
    var disk' := Patch(disk, runs[x].lcn * cs + o, data);
    FlatAt(disk, runs, x, cs);
    FlatAt(disk', runs, x, cs);
    PatchApart(disk, runs[x], o, data, runs[..x], cs);
    PatchApart(disk, runs[x], o, data, runs[x + 1..], cs);
  }
}

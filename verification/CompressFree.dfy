/** ntfs_compress_free on the append path: the clusters a compressed block no longer needs
    become one hole at the end of the runlist. */
module CompressFree {
  import opened Bytes
  import opened Runlist
  import opened Slices

  /** A terminated list of n runs, each a hole or on the disk. */
  ghost predicate Listed(rl: seq<Run>, n: nat) {
    Terminated(rl, n) && forall k :: 0 <= k < n ==> rl[k].lcn >= LCN_HOLE
  }

  /** valid_compressed_run with fullcheck: adjacent runs, holes that end on a block boundary,
      and no two holes in a row. */
  ghost predicate ValidCompressed(rl: seq<Run>, n: nat, cbClusters: nat)
    requires cbClusters > 0
  {
    && Listed(rl, n)
    && (forall k :: 0 <= k < n && rl[k].lcn == LCN_HOLE ==> (rl[k].vcn + rl[k].length) % cbClusters == 0)
    && forall k :: 0 < k < n ==> rl[k].lcn >= 0 || rl[k - 1].lcn >= 0
  }

  /** The nearest run at or before w that begins on a block boundary. */
  ghost function AlignedAt(rl: seq<Run>, w: nat, cbClusters: nat): (y: nat)
    requires w < |rl| && cbClusters > 0
    ensures y <= w
  {
    if w == 0 || rl[w].vcn % cbClusters == 0 then w else AlignedAt(rl, w - 1, cbClusters)
  }

  predicate ValidHere(rl: seq<Run>, k: nat, cbClusters: nat)
    requires k + 1 < |rl| && cbClusters > 0
  {
    && rl[k].vcn + rl[k].length == rl[k + 1].vcn
    && (rl[k].lcn == LCN_HOLE ==> (rl[k].vcn + rl[k].length) % cbClusters == 0 && rl[k + 1].lcn != LCN_HOLE)
  }

  /** What valid_compressed_run with fullcheck looks at, from run y to the end mark at n. */
  ghost predicate ValidFrom(rl: seq<Run>, y: nat, n: nat, cbClusters: nat)
    requires n < |rl| && cbClusters > 0
  {
    forall k :: y <= k < n ==> ValidHere(rl, k, cbClusters)
  }

  /** Back to the nearest block boundary. */
  method Boundary(rl: array<Run>, w: nat, cbClusters: nat) returns (x: nat)
    requires w < rl.Length && cbClusters > 0 && rl[0].vcn == 0
    ensures x == AlignedAt(rl[..], w, cbClusters)
  {
    x := w;
    while rl[x].vcn % cbClusters != 0
      invariant 0 <= x <= w && AlignedAt(rl[..], x, cbClusters) == AlignedAt(rl[..], w, cbClusters)
      decreases x
    {
      assert x != 0;
      x := x - 1;
    }
  }

  /** The tests of one run. */
  method CheckOne(rl: array<Run>, x: nat, cbClusters: nat) returns (err: bool)
    requires x + 1 < rl.Length && cbClusters > 0
    ensures err <==> !ValidHere(rl[..], x, cbClusters)
  {
    err := rl[x].vcn + rl[x].length != rl[x + 1].vcn;
    if rl[x].lcn == LCN_HOLE {
      if (rl[x].vcn + rl[x].length) % cbClusters != 0 {
        err := true;
      }
      if rl[x + 1].lcn == LCN_HOLE {
        err := true;
      }
    }
  }

  /** valid_compressed_run: back to a block boundary, then to the end of the list. */
  method ValidRun(rl: array<Run>, w: nat, cbClusters: nat, ghost n: nat) returns (ok: bool)
    requires w < rl.Length && n < rl.Length && cbClusters > 0 && Positive(rl[..n]) && rl[n].length == 0
    requires rl[0].vcn == 0 && AlignedAt(rl[..], w, cbClusters) <= n
    ensures ok <==> ValidFrom(rl[..], AlignedAt(rl[..], w, cbClusters), n, cbClusters)
  {
    hide ValidHere, AlignedAt;
    var x := Boundary(rl, w, cbClusters);
    ok := true;
    ghost var y := x;
    assert forall k :: 0 <= k < n ==> rl[..n][k] == rl[k];
    while rl[x].length != 0
      invariant y <= x <= n
      invariant ok <==> forall k :: y <= k < x ==> ValidHere(rl[..], k, cbClusters)
      decreases n - x
    {
      var err := CheckOne(rl, x, cbClusters);
      if err {
        ok := false;
      }
      x := x + 1;
    }
  }

  /** A valid compressed list passes the check from anywhere. */
  lemma ValidPasses(rl: seq<Run>, n: nat, y: nat, cbClusters: nat)
    requires cbClusters > 0 && ValidCompressed(rl, n, cbClusters) && rl[n].lcn != LCN_HOLE
    ensures ValidFrom(rl, y, n, cbClusters)
  {
    forall k | y <= k < n ensures ValidHere(rl, k, cbClusters) {
      assert rl[k + 1].vcn == rl[k].vcn + rl[k].length;
      assert k + 1 < n ==> rl[k + 1].lcn >= 0 || rl[k].lcn >= 0;
    }
  }

  /** From the first run on, the check accepts exactly the valid compressed lists. */
  lemma ValidIff(rl: seq<Run>, n: nat, cbClusters: nat)
    requires cbClusters > 0 && n < |rl| && Positive(rl[..n]) && rl[n].length == 0 && rl[n].lcn != LCN_HOLE
    requires forall k :: 0 <= k < n ==> rl[k].lcn >= LCN_HOLE
    ensures ValidFrom(rl, 0, n, cbClusters) <==> ValidCompressed(rl, n, cbClusters)
  {
    if ValidFrom(rl, 0, n, cbClusters) {
      forall k | 0 < k <= n ensures rl[k].vcn == rl[k - 1].vcn + rl[k - 1].length {
        assert ValidHere(rl, k - 1, cbClusters);
      }
      forall k | 0 < k < n ensures rl[k].lcn >= 0 || rl[k - 1].lcn >= 0 {
        assert ValidHere(rl, k - 1, cbClusters);
      }
      forall k | 0 <= k < n && rl[k].lcn == LCN_HOLE ensures (rl[k].vcn + rl[k].length) % cbClusters == 0 {
        assert ValidHere(rl, k, cbClusters);
      }
    } else if ValidCompressed(rl, n, cbClusters) {
      ValidPasses(rl, n, 0, cbClusters);
    }
  }

  function Holes(n: nat): (h: seq<int>)
    ensures |h| == n
  {
    seq(n, _ => LCN_HOLE)
  }

  /** The clusters, as opposed to holes, among some cells. */
  function Clusters(cells: seq<int>): set<int> {
    set c | c in cells && c >= 0
  }

  lemma ClustersAppend(a: seq<int>, b: seq<int>)
    ensures Clusters(a + b) == Clusters(a) + Clusters(b)
  {
  }

  lemma CellsHead(runs: seq<Run>, x: nat)
    requires Positive(runs) && x < |runs|
    ensures Cells(runs[x..]) == RunCells(runs[x]) + Cells(runs[x + 1..])
  {
    assert runs[x..][1..] == runs[x + 1..];
  }

  lemma CellsSplit(runs: seq<Run>, x: nat)
    requires Positive(runs) && x <= |runs|
    ensures Cells(runs) == Cells(runs[..x]) + Cells(runs[x..])
  {
    hide Cells;
    assert runs == runs[..x] + runs[x..];
    CellsAppend(runs[..x], runs[x..]);
  }

  /** Cutting a run splits its cells; the second half keeps its logical clusters. */
  lemma RunCellsCut(r: Run, u: nat)
    requires u <= r.length && r.lcn >= 0
    ensures RunCells(r) == RunCells(r.(length := u)) + RunCells(Run(r.vcn + u, r.lcn + u, r.length - u))
  {
  }

  lemma CellsNone()
    ensures Cells([]) == []
  {
  }

  lemma HoleClusters(r: Run)
    requires r.lcn < 0 && r.length > 0
    ensures Clusters(RunCells(r)) == {}
  {
  }

  class Volume {
    var inUse: set<int>

    constructor ()
      ensures inUse == {}
    {
      inUse := {};
    }

    /** ntfs_cluster_free_from_rl: give back every cluster from run x to the end mark at t. */
    method FreeFromRl(rl: array<Run>, x0: nat, ghost t: nat)
      requires x0 <= t < rl.Length && rl[t].length == 0 && Positive(rl[x0..t])
      modifies this
      ensures inUse == old(inUse) - Clusters(Cells(rl[x0..t]))
    {
      hide Cells, RunCells;
      var x := x0;
      ghost var runs := rl[x0..t];
      CellsNone();
      assert runs[..0] == [];
      assert forall k :: x0 <= k < t ==> rl[k] == runs[k - x0];
      while rl[x].length != 0
        invariant x0 <= x <= t
        invariant inUse == old(inUse) - Clusters(Cells(runs[..x - x0]))
        decreases t - x
      {
        var r := rl[x];
        assert x < t && runs[x - x0] == r;
        assert runs[..x + 1 - x0] == runs[..x - x0] + [r];
        CellsAppend(runs[..x - x0], [r]);
        CellsOne(r);
        ClustersAppend(Cells(runs[..x - x0]), RunCells(r));
        if r.lcn >= 0 {
          inUse := inUse - Clusters(RunCells(r));
        } else {
          HoleClusters(r);
        }
        x := x + 1;
      }
      assert runs[..t - x0] == runs;
    }
  }

  /** Skip the runs that are fully used; u is what remains of the used count in run x. */
  method SkipUsed(rl: array<Run>, ghost n: nat, r: nat, used: nat) returns (x: nat, u: nat)
    requires n < rl.Length && Listed(rl[..], n) && r < n
    ensures r <= x <= n && u + |Cells(rl[..n][r..x])| == used
    ensures x < n ==> u <= rl[x].length
    ensures x == n ==> u > 0
    ensures x > r ==> u > 0
  {
    hide RunCells, Cells;
    x, u := r, used;
    ghost var runs := rl[..n];
    CellsNone();
    assert runs[r..r] == [];
    while rl[x].length != 0 && rl[x].length < u
      invariant r <= x <= n && u + |Cells(runs[r..x])| == used
      invariant x > r ==> u > 0
      decreases n - x
    {
      assert x < n && runs[x] == rl[x];
      assert runs[r..x + 1] == runs[r..x] + [runs[x]];
      CellsAppend(runs[r..x], [runs[x]]);
      CellsOne(runs[x]);
      u := u - rl[x].length;
      x := x + 1;
    }
  }

  /** How the list reads once the clusters behind the first u of run x are a hole. */
  ghost function Freed(runs: seq<Run>, x: nat, u: nat, freecnt: nat): (f: seq<Run>)
    requires x < |runs| && u <= runs[x].length && Positive(runs)
  {
    var hole := Run(runs[x].vcn + u, LCN_HOLE, freecnt);
    if u > 0 then runs[..x] + [runs[x].(length := u), hole]
    else if x > 0 && runs[x - 1].lcn == LCN_HOLE then
      runs[..x - 1] + [runs[x - 1].(length := runs[x - 1].length + freecnt)]
    else runs[..x] + [hole]
  }

  lemma HoleCells(vcn: int, n: nat)
    ensures RunCells(Run(vcn, LCN_HOLE, n)) == Holes(n)
  {
  }

  lemma WideHole(r: Run, more: nat)
    requires r.lcn == LCN_HOLE && r.length > 0
    ensures RunCells(r.(length := r.length + more)) == RunCells(r) + Holes(more)
  {
  }

  /** The freed list maps everything below the used part as before, and the rest to a hole. */
  lemma FreedCells(runs: seq<Run>, x: nat, u: nat, freecnt: nat)
    requires Positive(runs) && x < |runs| && u <= runs[x].length && runs[x].lcn >= 0 && freecnt > 0
    ensures Positive(Freed(runs, x, u, freecnt))
    ensures |Cells(runs[..x])| + u <= |Cells(runs)|
    ensures Cells(Freed(runs, x, u, freecnt)) == Cells(runs)[..|Cells(runs[..x])| + u] + Holes(freecnt)
  {
    hide Cells, RunCells, Holes;
    var vcn := runs[x].vcn + u;
    var hole := Run(vcn, LCN_HOLE, freecnt);
    CellsSplit(runs, x);
    CellsHead(runs, x);
    CellsOne(hole);
    HoleCells(vcn, freecnt);
    var a := Cells(runs[..x]);
    if u > 0 {
      var head := runs[x].(length := u);
      RunCellsCut(runs[x], u);
      CellsOne(head);
      CellsAppend([head], [hole]);
      assert [head] + [hole] == [head, hole];
      CellsAppend(runs[..x], [head, hole]);
      assert Cells(runs)[..|a| + u] == a + RunCells(head);
    } else {
      assert Cells(runs)[..|a|] == a;
      if x > 0 && runs[x - 1].lcn == LCN_HOLE {
        var before := runs[x - 1];
        var wide := before.(length := before.length + freecnt);
        assert runs[..x] == runs[..x - 1] + [before];
        CellsAppend(runs[..x - 1], [before]);
        CellsOne(before);
        CellsOne(wide);
        CellsAppend(runs[..x - 1], [wide]);
        WideHole(before, freecnt);
      } else {
        CellsAppend(runs[..x], [hole]);
      }
    }
  }

  /** The cells dropped from the map: everything behind the first u clusters of run x. */
  ghost function Dropped(runs: seq<Run>, x: nat, u: nat): seq<int>
    requires Positive(runs) && x < |runs| && u <= runs[x].length
  {
    CellsHead(runs, x);
    Cells(runs[x..])[u..]
  }

  lemma DroppedCut(runs: seq<Run>, x: nat, u: nat)
    requires Positive(runs) && x < |runs| && u < runs[x].length && runs[x].lcn >= 0
    ensures Dropped(runs, x, u) == RunCells(Run(runs[x].vcn + u, runs[x].lcn + u, runs[x].length - u))
            + Cells(runs[x + 1..])
  {
    hide Cells, RunCells;
    CellsHead(runs, x);
    RunCellsCut(runs[x], u);
  }

  lemma FreeCount(used: nat, reserved: nat, cs: nat)
    requires cs > 0 && used + cs <= reserved
    ensures 0 < (reserved - used) / cs <= reserved / cs
  {
    var a, b := (reserved - used) / cs, reserved / cs;
    assert reserved - used == a * cs + (reserved - used) % cs;
    assert reserved == b * cs + reserved % cs;
    if a > b {
      MulMono(b + 1, a, cs);
      assert false;
    }
  }

  lemma SkippedCells(runs: seq<Run>, r: nat, x: nat)
    requires Positive(runs) && r <= x <= |runs|
    ensures Cells(runs[r..]) == Cells(runs[r..x]) + Cells(runs[x..])
  {
    hide Cells;
    assert runs[r..] == runs[r..x] + runs[x..];
    CellsAppend(runs[r..x], runs[x..]);
  }

  lemma {:induction false} EndVcn(rl: seq<Run>, n: nat, x: nat)
    requires Listed(rl, n) && x <= n
    ensures rl[n].vcn == rl[x].vcn + |Cells(rl[..n][x..])|
    decreases n - x
  {
    hide RunCells;
    if x < n {
      EndVcn(rl, n, x + 1);
      CellsHead(rl[..n], x);
    }
  }

  lemma DroppedCells(runs: seq<Run>, x: nat, u: nat)
    requires Positive(runs) && x < |runs| && u <= runs[x].length
    ensures |Cells(runs[..x])| + u <= |Cells(runs)|
    ensures Dropped(runs, x, u) == Cells(runs)[|Cells(runs[..x])| + u..]
  {
    hide Cells;
    CellsSplit(runs, x);
    CellsHead(runs, x);
  }

  /** The whole map before and after, and the clusters given back, in terms of what is kept. */
  lemma FreeSummary(runs: seq<Run>, x: nat, u: nat, freecnt: nat)
    requires Positive(runs) && x < |runs| && u <= runs[x].length && runs[x].lcn >= 0 && freecnt > 0
    requires u + freecnt == |Cells(runs[x..])|
    ensures |Cells(runs)| - freecnt >= 0 && Positive(Freed(runs, x, u, freecnt))
    ensures Cells(Freed(runs, x, u, freecnt)) == Cells(runs)[..|Cells(runs)| - freecnt] + Holes(freecnt)
    ensures Dropped(runs, x, u) == Cells(runs)[|Cells(runs)| - freecnt..]
  {
    hide Cells, Freed, Dropped, Holes;
    FreedCells(runs, x, u, freecnt);
    CellsSplit(runs, x);
    DroppedCells(runs, x, u);
  }

  lemma FreedListed(before: seq<Run>, m: nat, x: nat, u: nat, freecnt: nat, after: seq<Run>, n: nat)
    requires Listed(before, m) && before[0].vcn == 0 && x < m && u <= before[x].length && freecnt > 0
    requires n < |after| && after[..n] == Freed(before[..m], x, u, freecnt)
    requires after[n].length == 0 && after[n].vcn == before[x].vcn + u + freecnt
    ensures Listed(after, n) && after[0].vcn == 0
  {
    var runs := before[..m];
    assert before[x] == runs[x];
    var f := Freed(runs, x, u, freecnt);
    assert forall k :: 0 <= k < n ==> after[k] == f[k];
    forall k | 0 < k <= n ensures after[k].vcn == after[k - 1].vcn + after[k - 1].length {
      assert after[k - 1] == f[k - 1] && (k < n ==> after[k] == f[k]);
    }
  }

  /** Every allocated run of a is one of b at the same place, possibly shorter. */
  ghost predicate SubRuns(a: seq<Run>, b: seq<Run>) {
    forall k :: 0 <= k < |a| && a[k].lcn >= 0 ==>
      k < |b| && a[k].lcn == b[k].lcn && a[k].length <= b[k].length
  }

  lemma FreedSub(runs: seq<Run>, x: nat, u: nat, freecnt: nat)
    requires Positive(runs) && x < |runs| && u <= runs[x].length
    ensures SubRuns(Freed(runs, x, u, freecnt), runs)
  {
  }

  lemma SubSelf(runs: seq<Run>)
    ensures SubRuns(runs, runs)
  {
  }

  lemma FreedValid(before: seq<Run>, m: nat, x: nat, u: nat, freecnt: nat, after: seq<Run>, n: nat, cbClusters: nat)
    requires cbClusters > 0 && ValidCompressed(before, m, cbClusters) && before[0].vcn == 0
    requires x < m && u <= before[x].length && freecnt > 0 && before[x].lcn >= 0
    requires n < |after| && after[..n] == Freed(before[..m], x, u, freecnt) && Listed(after, n)
    requires (before[x].vcn + u + freecnt) % cbClusters == 0 && after[n].vcn == before[x].vcn + u + freecnt
    ensures ValidCompressed(after, n, cbClusters)
  {
    var f := Freed(before[..m], x, u, freecnt);
    forall k | 0 <= k < n
      ensures after[k].lcn == LCN_HOLE ==> (after[k].vcn + after[k].length) % cbClusters == 0
      ensures k > 0 ==> after[k].lcn >= 0 || after[k - 1].lcn >= 0
    {
      assert after[k] == f[k] && (k > 0 ==> after[k - 1] == f[k - 1]);
      if k == n - 1 {
        assert after[n].vcn == after[k].vcn + after[k].length;
      }
    }
  }

  lemma CellsTail(runs: seq<Run>, y: nat)
    requires Positive(runs) && y <= |runs|
    ensures y == |runs| ==> Cells(runs[y..]) == []
  {
  }

  /** vcns never go down along the list. */
  lemma {:induction false} VcnOrder(rl: seq<Run>, n: nat, x: nat)
    requires Listed(rl, n) && x <= n
    ensures forall k :: x <= k <= n ==> rl[x].vcn <= rl[k].vcn
    decreases n - x
  {
    if x < n {
      VcnOrder(rl, n, x + 1);
      assert rl[..n][x].length > 0;
    }
  }

  /** In a list that starts at vcn 0, only the first run has vcn 0. */
  lemma {:induction false} VcnZero(rl: seq<Run>, n: nat, x: nat)
    requires Listed(rl, n) && rl[0].vcn == 0 && x < n
    ensures rl[x].vcn >= 0 && (rl[x].vcn == 0 <==> x == 0)
    decreases x
  {
    if x > 0 {
      VcnZero(rl, n, x - 1);
      assert rl[..n][x - 1].length > 0;
    }
  }

  /** Mapping pairs have to be updated from there or from the last run, the hole, on. */
  ghost predicate UpdateAt(upd: int, from: int, rl: seq<Run>, n: nat) {
    0 < n <= |rl| && upd == Min(from, rl[n - 1].vcn)
  }

  lemma UpdateBelow(upd: int, from: int, rl: seq<Run>, n: nat)
    requires UpdateAt(upd, from, rl, n)
    ensures upd <= from
  {
  }

  class Attr {
    const vol: Volume
    const cs: nat
    const cbClusters: nat
    const rl: array<Run>
    ghost var n: nat
    var compressedSize: int

    constructor (vol: Volume, cs: nat, cbClusters: nat, rl: array<Run>, ghost n: nat, compressedSize: int)
      requires cs > 0 && cbClusters > 0 && Listed(rl[..], n) && rl[0].vcn == 0
      ensures Valid() && this.vol == vol && this.rl == rl && this.n == n
      ensures this.cs == cs && this.cbClusters == cbClusters && this.compressedSize == compressedSize
    {
      this.vol, this.cs, this.cbClusters, this.rl := vol, cs, cbClusters, rl;
      this.n, this.compressedSize := n, compressedSize;
    }

    ghost predicate Valid()
      reads this, rl
    {
      cs > 0 && cbClusters > 0 && Listed(rl[..], n) && rl[0].vcn == 0
    }

    ghost function Runs(): seq<Run>
      reads this, rl
      requires n <= rl.Length
    {
      rl[..n]
    }

    /** Append the unused part of run x behind the list, so that all that is to be freed stands
        in one piece from x + 1 on. The vcns are out of order until the hole is set up. */
    method MoveUnused(x: nat, u: nat)
      requires Valid() && n + 2 <= rl.Length && x < n && u < rl[x].length && rl[x].lcn >= 0
      modifies rl
      ensures rl[..x] == old(rl[..x]) && rl[x] == old(rl[x]).(length := u)
      ensures forall k :: x < k < n ==> rl[k] == old(rl[k])
      ensures rl[n + 1].length == 0 && Positive(rl[x + 1..n + 1])
      ensures Clusters(Cells(rl[x + 1..n + 1])) == Clusters(Dropped(old(Runs()), x, u))
    {
      hide Cells, RunCells, Clusters;
      ghost var runs := Runs();
      var freelcn, freevcn, freelength := rl[x].lcn + u, rl[x].vcn + u, rl[x].length - u;
      rl[x] := rl[x].(length := u);
      var t := x + 1;
      while rl[t].length != 0
        invariant x + 1 <= t <= n
        decreases n - t
      {
        assert t < n;
        t := t + 1;
      }
      rl[t + 1] := Run(rl[t].vcn, LCN_ENOENT, 0);
      rl[t] := Run(freevcn, freelcn, freelength);
      assert rl[x + 1..n + 1] == runs[x + 1..] + [rl[n]];
      CellsAppend(runs[x + 1..], [rl[n]]);
      CellsOne(rl[n]);
      DroppedCut(runs, x, u);
      ClustersAppend(Cells(runs[x + 1..]), RunCells(rl[n]));
      ClustersAppend(RunCells(rl[n]), Cells(runs[x + 1..]));
    }

    /** Cut the last run that still has free clusters to what the block holds of it. */
    method Shorten(x: nat, freecnt: nat)
      requires Valid() && x < n && |Cells(Runs()[x..])| == freecnt
      modifies rl
      ensures rl[..] == old(rl[..])
    {
      hide RunCells, Cells;
      ghost var runs := Runs();
      var carry, y := freecnt, x;
      while rl[y].length < carry
        invariant x <= y < n && |Cells(runs[y..])| == carry && rl[..] == old(rl[..])
        decreases n - y
      {
        assert rl[y] == runs[y];
        CellsHead(runs, y);
        CellsTail(runs, y + 1);
        carry, y := carry - rl[y].length, y + 1;
      }
      assert rl[y] == runs[y];
      CellsHead(runs, y);
      rl[y] := rl[y].(length := carry);
    }

    /** Bring the clusters to be freed into one piece starting at the returned index. */
    method Gather(x: nat, u: nat, freecnt: nat) returns (freerl: nat, ghost t: nat)
      requires Valid() && n + 2 <= rl.Length && x < n && u <= rl[x].length && rl[x].lcn >= 0
      requires u + freecnt == |Cells(Runs()[x..])|
      modifies rl
      ensures rl[..x] == old(rl[..x]) && x <= freerl <= t < rl.Length
      ensures forall k :: x < k < n ==> rl[k] == old(rl[k])
      ensures u > 0 ==> freerl == x + 1 && rl[x] == old(rl[x]).(length := u)
      ensures u == 0 ==> freerl == if x == 0 then 1 else x
      ensures rl[t].length == 0 && Positive(rl[freerl..t])
      ensures Clusters(Cells(rl[freerl..t])) == Clusters(Dropped(old(Runs()), x, u))
    {
      hide Cells, RunCells, Clusters;
      ghost var runs := Runs();
      VcnZero(rl[..], n, x);
      var freelength := rl[x].length - u;
      var beginhole := u == 0 && rl[x].vcn == 0;
      var mergeholes := u == 0 && rl[x].vcn != 0 && rl[x - 1].lcn == LCN_HOLE;
      CellsHead(runs, x);
      t := n;
      if mergeholes {
        Shorten(x, freecnt);
        freerl := x;
        assert rl[freerl..t] == runs[x..];
      } else if freelength > 0 && (u > 0 || beginhole) {
        MoveUnused(x, u);
        freerl, t := x + 1, n + 1;
      } else if freelength > 0 {
        rl[x] := rl[x].(length := 0);
        rl[x] := rl[x].(length := freelength);
        freerl := x;
        assert rl[freerl..t] == runs[x..];
      } else {
        rl[x] := rl[x].(length := u);
        freerl := x + 1;
        assert rl[freerl..t] == runs[x + 1..];
      }
    }

    /** Put one hole, or a wider hole, in front of the end mark, where the freed runs began. */
    method PlaceHole(x: nat, u: nat, freerl0: nat, freevcn: int, freecnt: nat, updateFrom: int, ghost runs: seq<Run>)
      returns (upd: int)
      requires x < |runs| && |runs| + 2 <= rl.Length && Positive(runs) && u <= runs[x].length
      requires rl[..x] == runs[..x] && freevcn == runs[x].vcn + u
      requires runs[x].vcn == 0 <==> x == 0
      requires u > 0 ==> freerl0 == x + 1 && rl[x] == runs[x].(length := u)
      requires u == 0 ==> freerl0 == if x == 0 then 1 else x
      modifies `n, rl
      ensures n <= |runs| + 1 && rl[..n] == Freed(runs, x, u, freecnt)
      ensures rl[n] == Run(freevcn + freecnt, LCN_ENOENT, 0)
      ensures x <= n && forall k :: n < k < rl.Length ==> rl[k] == old(rl[k])
      ensures UpdateAt(upd, updateFrom, rl[..], n)
      ensures forall k :: 0 <= k < n && k < |runs| && rl[k] != runs[k] ==> upd <= rl[k].vcn || runs[x].vcn <= rl[k].vcn
    {
      var beginhole := u == 0 && x == 0;
      var mergeholes := u == 0 && x != 0 && rl[x - 1].lcn == LCN_HOLE;
      var freerl := freerl0;
      if mergeholes {
        freerl := freerl - 1;
        rl[freerl] := rl[freerl].(length := rl[freerl].length + freecnt);
      } else {
        if beginhole {
          freerl := freerl - 1;
        }
        rl[freerl] := Run(freevcn, LCN_HOLE, freecnt);
      }
      upd := Min(updateFrom, rl[freerl].vcn);
      rl[freerl + 1] := Run(freevcn + freecnt, LCN_ENOENT, 0);
      n := freerl + 1;
      assert rl[..n] == Freed(runs, x, u, freecnt);
    }

    /** Free the clusters behind the first u of run x and leave a hole in their place. */
    method Release(x: nat, u: nat, freecnt: nat, updateFrom: int) returns (upd: int)
      requires Valid() && n + 2 <= rl.Length && x < n && u <= rl[x].length && rl[x].lcn >= 0
      requires u + freecnt == |Cells(Runs()[x..])| && freecnt > 0
      modifies this, rl, vol
      ensures n <= old(n) + 1 && Runs() == Freed(old(Runs()), x, u, freecnt)
      ensures rl[n] == Run(old(rl[x].vcn) + u + freecnt, LCN_ENOENT, 0)
      ensures x <= n && forall k :: n < k < old(n) ==> rl[k] == old(rl[k])
      ensures vol.inUse == old(vol.inUse) - Clusters(Dropped(old(Runs()), x, u))
      ensures compressedSize == old(compressedSize) - freecnt * cs
      ensures UpdateAt(upd, updateFrom, rl[..], n)
      ensures forall k :: 0 <= k < n && k < old(n) && rl[k] != old(rl[k]) ==>
                            upd <= rl[k].vcn || old(rl[x].vcn) <= rl[k].vcn
    {
      hide Cells, RunCells, Clusters, Dropped, Freed;
      ghost var runs := Runs();
      VcnZero(rl[..], n, x);
      var freevcn := rl[x].vcn + u;
      var freerl, t := Gather(x, u, freecnt);
      vol.FreeFromRl(rl, freerl, t);
      compressedSize := compressedSize - freecnt * cs;
      upd := PlaceHole(x, u, freerl, freevcn, freecnt, updateFrom, runs);
    }

    /** ntfs_compress_free when appending: used of the reserved bytes behind the start of run r
        stay; the clusters behind them, up to the end of the list, become a hole. */
    method Free(r: nat, used: nat, reserved: nat, updateFrom: int) returns (res: int, upd: int)
      requires Valid() && n + 2 <= rl.Length && r < n && used + cs <= reserved
      requires forall k :: r <= k < n ==> rl[k].lcn >= 0
      requires var total := |Cells(Runs()[r..])|;
               total == reserved / cs || total < reserved / cs - (reserved - used) / cs
      modifies this, rl, vol
      ensures Valid() && n <= old(n) + 1
      ensures res == 0 <==> |Cells(old(Runs())[r..])| == reserved / cs && old(rl[n].vcn) % cbClusters == 0
      ensures res != 0 ==> res == -1 && n == old(n) && rl[..] == old(rl[..])
                           && vol.inUse == old(vol.inUse) && compressedSize == old(compressedSize)
      ensures if res == 0 then UpdateAt(upd, Min(updateFrom, old(rl[r].vcn)), rl[..], n)
              else upd == Min(updateFrom, old(rl[r].vcn))
      ensures forall k :: 0 <= k < n && k < old(n) && rl[k] != old(rl[k]) ==> upd <= rl[k].vcn
      ensures res == 0 ==> var freecnt := (reserved - used) / cs;
                           var keep := |Cells(old(Runs()))| - freecnt;
                           && keep >= 0
                           && Cells(Runs()) == Cells(old(Runs()))[..keep] + Holes(freecnt)
                           && rl[n].vcn == old(rl[n].vcn)
                           && vol.inUse == old(vol.inUse) - Clusters(Cells(old(Runs()))[keep..])
                           && compressedSize == old(compressedSize) - freecnt * cs
      ensures SubRuns(Runs(), old(Runs()))
      ensures r <= n && forall k :: n < k < old(n) ==> rl[k] == old(rl[k])
      ensures rl[n].lcn == if res == 0 then LCN_ENOENT else old(rl[n].lcn)
      ensures res == 0 && old(ValidCompressed(rl[..], n, cbClusters)) ==> ValidCompressed(rl[..], n, cbClusters)
    {
      hide Cells, RunCells, Clusters, Dropped, Freed, ValidCompressed, Holes, UpdateAt, SubRuns;
      var freecnt := (reserved - used) / cs;
      FreeCount(used, reserved, cs);
      var usedcnt := reserved / cs - freecnt;
      upd := Min(updateFrom, rl[r].vcn);
      ghost var runs := Runs();
      SubSelf(runs);
      var x, u := SkipUsed(rl, n, r, usedcnt);
      res := -1;
      SkippedCells(runs, r, x);
      CellsTail(runs, x);
      if rl[x].length != 0 {
        assert x < n;
        EndVcn(rl[..], n, x);
        VcnOrder(rl[..], n, r);
        CellsHead(runs, x);
        assert u + freecnt == |Cells(runs[x..])|;
        if (rl[x].vcn + u + freecnt) % cbClusters == 0 {
          var from := upd;
          upd := Release(x, u, freecnt, from);
          UpdateBelow(upd, from, rl[..], n);
          res := 0;
          FreeSummary(runs, x, u, freecnt);
          FreedSub(runs, x, u, freecnt);
          FreedListed(old(rl[..]), old(n), x, u, freecnt, rl[..], n);
          if old(ValidCompressed(rl[..], n, cbClusters)) {
            FreedValid(old(rl[..]), old(n), x, u, freecnt, rl[..], n, cbClusters);
          }
        }
      }
    }
  }
}

/** Closing a compressed file (ntfs_compressed_close): packing the last block and giving its
    spare clusters back never changes what the file reads as. */
module CompressedClose {
  import opened Bytes
  import opened Lznt1Format
  import opened Lznt1RoundTrip
  import opened Runlist
  import opened ClusterIO
  import opened CompressFree
  import opened GatherRead
  import opened CompressionSet
  import opened CompressedRead
  import opened Slices

  // ---- bytes as a function of the cluster map ----

  ghost predicate CellOk(size: nat, c: int, cs: nat) {
    c >= 0 ==> (c + 1) * cs <= size
  }

  ghost predicate CellsOk(size: nat, cells: seq<int>, cs: nat) {
    forall k :: 0 <= k < |cells| ==> CellOk(size, cells[k], cs)
  }

  ghost function CellBytes(disk: seq<byte>, c: int, cs: nat): (s: seq<byte>)
    requires CellOk(|disk|, c, cs)
    ensures |s| == cs
  {
    if c < 0 then Zeros(cs) else MulAdd(c, 1, cs); disk[c * cs..(c + 1) * cs]
  }

  ghost function MapBytes(disk: seq<byte>, cells: seq<int>, cs: nat): seq<byte>
    requires CellsOk(|disk|, cells, cs)
  {
    if cells == [] then [] else CellBytes(disk, cells[0], cs) + MapBytes(disk, cells[1..], cs)
  }

  lemma {:induction false} MapAppend(disk: seq<byte>, a: seq<int>, b: seq<int>, cs: nat)
    requires CellsOk(|disk|, a, cs) && CellsOk(|disk|, b, cs)
    ensures CellsOk(|disk|, a + b, cs)
    ensures MapBytes(disk, a + b, cs) == MapBytes(disk, a, cs) + MapBytes(disk, b, cs)
    decreases |a|
  {
    hide CellBytes, CellOk;
    if a == [] {
      assert a + b == b;
    } else {
      assert (a + b)[1..] == a[1..] + b;
      MapAppend(disk, a[1..], b, cs);
    }
  }

  lemma {:induction false} MapLength(disk: seq<byte>, cells: seq<int>, cs: nat)
    requires CellsOk(|disk|, cells, cs)
    ensures |MapBytes(disk, cells, cs)| == |cells| * cs
    decreases |cells|
  {
    hide CellBytes, CellOk;
    if cells != [] {
      MapLength(disk, cells[1..], cs);
      MulAdd(|cells| - 1, 1, cs);
    }
  }

  lemma NoBytes(disk: seq<byte>, r: Run, cs: nat)
    requires OnDisk(|disk|, r, cs) && r.length == 0
    ensures RunBytes(disk, r, cs) == [] && RunCells(r) == [] && MapBytes(disk, [], cs) == []
  {
  }

  /** A run without its first cluster. */
  function Rest(r: Run): Run {
    Run(r.vcn + 1, if r.lcn < 0 then r.lcn else r.lcn + 1, r.length - 1)
  }

  lemma FirstCell(r: Run)
    requires r.length > 0
    ensures RunCells(r) == [r.lcn] + RunCells(Rest(r))
  {
  }

  lemma MapOne(disk: seq<byte>, c: int, cs: nat)
    requires CellOk(|disk|, c, cs)
    ensures CellsOk(|disk|, [c], cs) && MapBytes(disk, [c], cs) == CellBytes(disk, c, cs)
  {
    assert [c][1..] == [];
  }

  lemma ZerosAdd(a: nat, b: nat)
    ensures Zeros(a) + Zeros(b) == Zeros(a + b)
  {
  }

  lemma FirstStored(disk: seq<byte>, r: Run, cs: nat)
    requires OnDisk(|disk|, r, cs) && r.length > 0 && r.lcn >= 0
    ensures CellOk(|disk|, r.lcn, cs) && OnDisk(|disk|, Rest(r), cs)
    ensures RunBytes(disk, r, cs) == CellBytes(disk, r.lcn, cs) + RunBytes(disk, Rest(r), cs)
  {
    var a, b, c := r.lcn * cs, (r.lcn + 1) * cs, (r.lcn + r.length) * cs;
    MulMono(r.lcn + 1, r.lcn + r.length, cs);
    MulAdd(r.lcn, 1, cs);
    assert RunBytes(disk, r, cs) == disk[a..c] && CellBytes(disk, r.lcn, cs) == disk[a..b];
    assert RunBytes(disk, Rest(r), cs) == disk[b..c];
    hide RunBytes, CellBytes, OnDisk, CellOk;
    Parted(disk, a, b, c);
  }

  lemma FirstCluster(disk: seq<byte>, r: Run, cs: nat)
    requires OnDisk(|disk|, r, cs) && r.length > 0
    ensures CellOk(|disk|, r.lcn, cs) && OnDisk(|disk|, Rest(r), cs)
    ensures RunBytes(disk, r, cs) == CellBytes(disk, r.lcn, cs) + RunBytes(disk, Rest(r), cs)
  {
    if r.lcn < 0 {
      MulAdd(r.length - 1, 1, cs);
      ZerosAdd(cs, (r.length - 1) * cs);
    } else {
      FirstStored(disk, r, cs);
    }
  }

  /** The bytes of a run, one cluster at a time. */
  lemma {:induction false} RunMap(disk: seq<byte>, r: Run, cs: nat)
    requires OnDisk(|disk|, r, cs)
    ensures CellsOk(|disk|, RunCells(r), cs)
    ensures MapBytes(disk, RunCells(r), cs) == RunBytes(disk, r, cs)
    decreases r.length
  {
    assert r.length >= 0;
    hide RunBytes, CellBytes, OnDisk, CellOk, MapBytes, RunCells;
    if r.length == 0 {
      NoBytes(disk, r, cs);
    } else {
      FirstCluster(disk, r, cs);
      RunMap(disk, Rest(r), cs);
      FirstCell(r);
      MapOne(disk, r.lcn, cs);
      MapAppend(disk, [r.lcn], RunCells(Rest(r)), cs);
      calc {
        MapBytes(disk, RunCells(r), cs);
        MapBytes(disk, [r.lcn] + RunCells(Rest(r)), cs);
        CellBytes(disk, r.lcn, cs) + RunBytes(disk, Rest(r), cs);
        RunBytes(disk, r, cs);
      }
    }
  }

  /** The logical bytes depend on the runs only through the cluster map. */
  lemma {:induction false} FlatIsMap(disk: seq<byte>, runs: seq<Run>, cs: nat)
    requires Positive(runs) && AllOnDisk(|disk|, runs, cs)
    ensures CellsOk(|disk|, Cells(runs), cs)
    ensures Flat(disk, runs, cs) == MapBytes(disk, Cells(runs), cs)
    decreases |runs|
  {
    hide RunCells, RunBytes, OnDisk, CellOk;
    if runs != [] {
      RunMap(disk, runs[0], cs);
      FlatIsMap(disk, runs[1..], cs);
      MapAppend(disk, RunCells(runs[0]), Cells(runs[1..]), cs);
    }
  }

  lemma {:induction false} HolesMap(disk: seq<byte>, f: nat, cs: nat)
    ensures CellsOk(|disk|, Holes(f), cs) && MapBytes(disk, Holes(f), cs) == Zeros(f * cs)
  {
    if f > 0 {
      HolesMap(disk, f - 1, cs);
      assert Holes(f)[1..] == Holes(f - 1);
      MulAdd(f - 1, 1, cs);
      ZerosAdd(cs, (f - 1) * cs);
    }
  }

  /** Turning the last f clusters of the map into holes zeroes the last bytes of the text. */
  lemma HoleTail(disk: seq<byte>, runs: seq<Run>, runs': seq<Run>, f: nat, cs: nat)
    requires Positive(runs) && AllOnDisk(|disk|, runs, cs) && Positive(runs') && AllOnDisk(|disk|, runs', cs)
    requires f <= |Cells(runs)| && Cells(runs') == Cells(runs)[..|Cells(runs)| - f] + Holes(f)
    ensures f * cs <= |Flat(disk, runs, cs)|
    ensures Flat(disk, runs', cs) == Flat(disk, runs, cs)[..|Flat(disk, runs, cs)| - f * cs] + Zeros(f * cs)
  {
    hide Flat, Cells, CellOk, MapBytes, Holes;
    FlatIsMap(disk, runs, cs);
    FlatIsMap(disk, runs', cs);
    var cells := Cells(runs);
    var a, b := cells[..|cells| - f], cells[|cells| - f..];
    assert cells == a + b;
    MapAppend(disk, a, b, cs);
    MapLength(disk, b, cs);
    HolesMap(disk, f, cs);
    MapAppend(disk, a, Holes(f), cs);
    assert Flat(disk, runs, cs)[..|Flat(disk, runs, cs)| - f * cs] == MapBytes(disk, a, cs);
  }

  // ---- the text of the file before and after ----

  /** A block's text depends only on its own clusters and bytes. */
  lemma OutcomeLocal(flat: seq<byte>, cells: seq<int>, flat': seq<byte>, cells': seq<int>, j: nat, g: Geometry)
    requires (j + 1) * g.CbSize() <= |flat| && (j + 1) * g.CbSize() <= |flat'|
    requires (j + 1) * g.cbClusters <= |cells| && (j + 1) * g.cbClusters <= |cells'| && g.cbClusters > 0
    requires flat[..(j + 1) * g.CbSize()] == flat'[..(j + 1) * g.CbSize()]
    requires cells[..(j + 1) * g.cbClusters] == cells'[..(j + 1) * g.cbClusters]
    ensures j * g.cbClusters < (j + 1) * g.cbClusters
    ensures CbOutcome(flat, cells, j, g) == CbOutcome(flat', cells', j, g)
  {
    hide Decode;
    MulAdd(j, 1, g.cbClusters);
    MulAdd(j, 1, g.CbSize());
    var a, b := j * g.cbClusters, (j + 1) * g.cbClusters;
    assert forall v :: 0 <= v < b ==> cells[v] == cells[..b][v] == cells'[v];
    assert HasHole(cells, a, b) <==> HasHole(cells', a, b);
    var p, q := j * g.CbSize(), (j + 1) * g.CbSize();
    assert flat[p..q] == flat[..q][p..] == flat'[..q][p..] == flat'[p..q];
  }

  /** The last block of a list that maps whole blocks. */
  lemma LastBlock(blocks: nat, g: Geometry)
    requires blocks > 0
    ensures (blocks - 1) * g.cbClusters + g.cbClusters == blocks * g.cbClusters
    ensures (blocks - 1) * g.CbSize() + g.CbSize() == blocks * g.CbSize()
    ensures (blocks - 1) * g.cbClusters * g.cs == (blocks - 1) * g.CbSize()
  {
    MulAdd(blocks - 1, 1, g.cbClusters);
    MulAdd(blocks - 1, 1, g.CbSize());
  }

  /** No cluster of the last block is a hole. */
  ghost predicate LastSolid(cells: seq<int>, blocks: nat, g: Geometry)
    requires blocks > 0
  {
    forall v :: (blocks - 1) * g.cbClusters <= v < |cells| ==> v >= 0 && cells[v] >= 0
  }

  /** The tail of flat from p on is replaced by stage and z zeroes. */
  ghost predicate Restaged(flat: seq<byte>, flat': seq<byte>, p: nat, stage: seq<byte>, z: nat) {
    p + |stage| + z == |flat| && flat' == Patch(flat, p, stage)[..|flat| - z] + Zeros(z)
  }

  lemma RawStage(flat: seq<byte>, flat': seq<byte>, p: nat, cb: nat, stage: seq<byte>, z: nat)
    requires p + cb == |flat| && |stage| + z == cb && Restaged(flat, flat', p, stage, z)
    ensures |flat'| == |flat| && flat'[p..p + cb] == stage + Zeros(z)
  {
  }

  /** A packed last block with its spare clusters turned into a hole decodes to the data. */
  lemma PackedBlock(flat: seq<byte>, cells: seq<int>, flat': seq<byte>, cells': seq<int>, blocks: nat, g: Geometry,
                    stage: seq<byte>, bs: seq<Block>, data: seq<byte>, f: nat, z: nat)
    requires g.Valid() && blocks > 0 && |cells| == blocks * g.cbClusters && |flat| == blocks * g.CbSize()
    requires LastSolid(cells, blocks, g)
    requires z == f * g.cs && 0 < |stage| && |stage| + z == g.CbSize() && 0 < f < g.cbClusters
             && Encodes(stage, bs, data)
    requires cells' == cells[..|cells| - f] + Holes(f)
    requires Restaged(flat, flat', (blocks - 1) * g.CbSize(), stage, z)
    ensures (blocks - 1) * g.cbClusters < |cells'| && blocks * g.CbSize() <= |flat'|
    ensures CbOutcome(flat', cells', blocks - 1, g) == Decoded(Fit(data, g.CbSize()))
  {
    hide Decode, Encodes, Fit;
    var k, m, cb := blocks - 1, g.cbClusters, g.CbSize();
    LastBlock(blocks, g);
    assert cells'[k * m] >= 0;
    assert cells'[|cells| - 1] == LCN_HOLE && HasHole(cells', k * m, (k + 1) * m);
    RawStage(flat, flat', k * cb, cb, stage, z);
    StageDecodes(stage, Zeros(z), bs, data, cb / SB_SIZE);
  }

  /** A last block of zeroes that became one hole reads as the data, too. */
  lemma ZeroBlock(cells: seq<int>, flat': seq<byte>, cells': seq<int>, blocks: nat, g: Geometry, data: seq<byte>)
    requires g.Valid() && blocks > 0 && |cells| == blocks * g.cbClusters && |flat'| == blocks * g.CbSize()
    requires cells' == cells[..|cells| - g.cbClusters] + Holes(g.cbClusters)
    requires AllZero(data) && |data| <= g.CbSize()
    ensures (blocks - 1) * g.cbClusters < |cells'|
    ensures CbOutcome(flat', cells', blocks - 1, g) == Decoded(Fit(data, g.CbSize()))
  {
    hide Decode;
    LastBlock(blocks, g);
    assert cells'[(blocks - 1) * g.cbClusters] == LCN_HOLE;
    assert Fit(data, g.CbSize()) == Zeros(g.CbSize());
  }

  ghost predicate Same(a: seq<byte>, b: seq<byte>, n: nat) {
    n <= |a| && n <= |b| && a[..n] == b[..n]
  }

  ghost predicate SameCells(a: seq<int>, b: seq<int>, n: nat) {
    n <= |a| && n <= |b| && a[..n] == b[..n]
  }

  /** flat' and cells' differ from flat and cells in the last block only. */
  ghost predicate OnlyLast(flat: seq<byte>, cells: seq<int>, flat': seq<byte>, cells': seq<int>, blocks: nat,
                           g: Geometry)
    requires blocks > 0
  {
    && |flat'| == |flat| && |cells'| == |cells|
    && Same(flat, flat', (blocks - 1) * g.CbSize()) && SameCells(cells, cells', (blocks - 1) * g.cbClusters)
  }

  /** data are the leading bytes of the last block. */
  ghost predicate LastData(flat: seq<byte>, blocks: nat, g: Geometry, data: seq<byte>)
    requires blocks > 0
  {
    |data| <= g.CbSize() && (blocks - 1) * g.CbSize() + g.CbSize() <= |flat|
    && data == flat[(blocks - 1) * g.CbSize()..(blocks - 1) * g.CbSize() + |data|]
  }

  lemma EarlierBlock(flat: seq<byte>, cells: seq<int>, flat': seq<byte>, cells': seq<int>, k: nat, j: nat, g: Geometry)
    requires g.Valid() && j < k && BlockReadable(flat, cells, j, g)
    requires Same(flat, flat', k * g.CbSize()) && SameCells(cells, cells', k * g.cbClusters)
    ensures BlockReadable(flat', cells', j, g) && CbBytes(flat', cells', j, g) == CbBytes(flat, cells, j, g)
  {
    hide CbOutcome;
    MulMono(j + 1, k, g.CbSize());
    MulMono(j + 1, k, g.cbClusters);
    var q, c := (j + 1) * g.CbSize(), (j + 1) * g.cbClusters;
    assert flat[..q] == flat[..k * g.CbSize()][..q] == flat'[..q];
    assert cells[..c] == cells[..k * g.cbClusters][..c] == cells'[..c];
    OutcomeLocal(flat, cells, flat', cells', j, g);
  }

  lemma {:induction false} SameView(flat: seq<byte>, cells: seq<int>, flat': seq<byte>, cells': seq<int>, k: nat,
                                    g: Geometry)
    requires forall j :: 0 <= j < k ==> BlockReadable(flat, cells, j, g)
    requires forall j :: 0 <= j < k ==> && BlockReadable(flat', cells', j, g)
                                        && CbBytes(flat', cells', j, g) == CbBytes(flat, cells, j, g)
    ensures View(flat', cells', k, g) == View(flat, cells, k, g)
  {
    hide BlockReadable, CbBytes;
    if k > 0 {
      SameView(flat, cells, flat', cells', k - 1, g);
    }
  }

  lemma KeptBlocks(flat: seq<byte>, cells: seq<int>, flat': seq<byte>, cells': seq<int>, blocks: nat, g: Geometry)
    requires blocks > 0 && Readable(flat, cells, blocks, g) && OnlyLast(flat, cells, flat', cells', blocks, g)
    ensures forall j :: 0 <= j < blocks - 1 ==> BlockReadable(flat', cells', j, g)
    ensures View(flat', cells', blocks - 1, g) == View(flat, cells, blocks - 1, g)
  {
    hide CbBytes, BlockReadable, Same, SameCells;
    var k := blocks - 1;
    forall j | 0 <= j < k
      ensures BlockReadable(flat', cells', j, g) && CbBytes(flat', cells', j, g) == CbBytes(flat, cells, j, g)
    {
      assert BlockReadable(flat, cells, j, g);
      EarlierBlock(flat, cells, flat', cells', k, j, g);
    }
    SameView(flat, cells, flat', cells', k, g);
  }

  lemma RawPrefix(flat: seq<byte>, blocks: nat, g: Geometry, data: seq<byte>)
    requires blocks > 0 && LastData(flat, blocks, g, data) && blocks * g.CbSize() <= |flat|
    ensures CbRaw(flat, blocks - 1, g.CbSize())[0..0 + |data|] == data
  {
    LastBlock(blocks, g);
    SliceSlice(flat, (blocks - 1) * g.CbSize(), g.CbSize(), 0, |data|);
  }

  /** The text up to the first used bytes of the last block. */
  ghost function Text(flat: seq<byte>, cells: seq<int>, blocks: nat, g: Geometry, used: nat): seq<byte>
    requires blocks > 0 && used <= g.CbSize()
    requires forall k :: 0 <= k < blocks ==> BlockReadable(flat, cells, k, g)
  {
    View(flat, cells, blocks, g)[..|View(flat, cells, blocks - 1, g)| + used]
  }

  lemma TextEnd(pre: seq<byte>, raw: seq<byte>, data: seq<byte>)
    requires |data| <= |raw| && raw[0..0 + |data|] == data
    ensures (pre + Fit(data, |raw|))[..|pre| + |data|] == (pre + raw)[..|pre| + |data|]
  {
    assert Fit(data, |raw|)[..|data|] == data;
  }

  /** A last block without a hole reads as its raw bytes. */
  lemma SolidBlock(flat: seq<byte>, cells: seq<int>, blocks: nat, g: Geometry)
    requires blocks > 0 && Readable(flat, cells, blocks, g) && LastSolid(cells, blocks, g)
    ensures BlockReadable(flat, cells, blocks - 1, g)
    ensures CbBytes(flat, cells, blocks - 1, g) == CbRaw(flat, blocks - 1, g.CbSize())
  {
    hide Decode;
    LastBlock(blocks, g);
    assert BlockReadable(flat, cells, blocks - 1, g);
  }

  /** If only the last block changed, and it still reads as its data, the text is kept. */
  lemma KeptText(flat: seq<byte>, cells: seq<int>, flat': seq<byte>, cells': seq<int>, blocks: nat, g: Geometry,
                 data: seq<byte>)
    requires blocks > 0 && Readable(flat, cells, blocks, g) && LastSolid(cells, blocks, g)
    requires OnlyLast(flat, cells, flat', cells', blocks, g) && LastData(flat, blocks, g, data)
    requires BlockReadable(flat', cells', blocks - 1, g)
             && CbBytes(flat', cells', blocks - 1, g) == Fit(data, g.CbSize())
    ensures Readable(flat', cells', blocks, g)
    ensures Text(flat', cells', blocks, g, |data|) == Text(flat, cells, blocks, g, |data|)
  {
    hide CbBytes, BlockReadable, Fit, LastSolid;
    KeptBlocks(flat, cells, flat', cells', blocks, g);
    assert forall j :: 0 <= j < blocks ==> BlockReadable(flat', cells', j, g);
    SolidBlock(flat, cells, blocks, g);
    RawPrefix(flat, blocks, g, data);
    TextEnd(View(flat, cells, blocks - 1, g), CbBytes(flat, cells, blocks - 1, g), data);
  }

  // ---- the operation ----

  /** An attribute whose last compression block holds plain data in allocated clusters. */
  ghost predicate Open(disk: seq<byte>, rl: seq<Run>, n: nat, blocks: nat, g: Geometry) {
    && g.Valid() && blocks > 0 && n + 2 <= |rl| && Mapped(disk, rl, n, g.cs) && Disjoint(rl[..n])
    && Readable(Flat(disk, rl[..n], g.cs), Cells(rl[..n]), blocks, g)
    && LastSolid(Cells(rl[..n]), blocks, g)
  }

  /** Go back to the run that holds the first cluster of the block. */
  method BlockRun(rl: array<Run>, ghost n: nat, w: nat, start: int) returns (r: nat)
    requires Listed(rl[..], n) && rl[0].vcn == 0 && w < n && 0 <= start <= rl[w].vcn + rl[w].length
    ensures r <= w && rl[r].vcn <= start
    ensures start < rl[w].vcn + rl[w].length ==> start < rl[r].vcn + rl[r].length
  {
    r := w;
    VcnZero(rl[..], n, w);
    while rl[r].vcn != 0 && rl[r].vcn > start
      invariant 0 <= r <= w && start <= rl[r].vcn + rl[r].length
      invariant start < rl[w].vcn + rl[w].length ==> start < rl[r].vcn + rl[r].length
      decreases r
    {
      VcnZero(rl[..], n, r);
      r := r - 1;
    }
  }

  /** From the run that holds the start of the last block on, everything is allocated. */
  lemma SolidRuns(rl: seq<Run>, n: nat, r: nat, blocks: nat, g: Geometry)
    requires blocks > 0 && Listed(rl, n) && rl[0].vcn == 0 && r < n && LastSolid(Cells(rl[..n]), blocks, g)
    requires rl[r].vcn <= (blocks - 1) * g.cbClusters < rl[r].vcn + rl[r].length
    ensures forall k :: r <= k < n ==> rl[k].lcn >= 0
  {
    hide Cells;
    forall k | r <= k < n ensures rl[k].lcn >= 0 {
      VcnOrder(rl, n, r + 1);
      assert rl[..n][k].length > 0;
      var v := if k == r then (blocks - 1) * g.cbClusters else rl[k].vcn;
      CellAt(rl, n, k, v);
    }
  }

  /** Byte positions of the last block, seen from run r. */
  lemma BlockBytePlace(disk: seq<byte>, rl: seq<Run>, n: nat, r: nat, blocks: nat, g: Geometry)
    requires g.Valid() && blocks > 0 && Mapped(disk, rl, n, g.cs) && r < n
    requires |Cells(rl[..n])| == blocks * g.cbClusters
    requires rl[r].vcn <= (blocks - 1) * g.cbClusters < rl[r].vcn + rl[r].length
    ensures rl[n].vcn == blocks * g.cbClusters && rl[n].vcn % g.cbClusters == 0
    ensures var roffs := ((blocks - 1) * g.cbClusters - rl[r].vcn) * g.cs;
            && 0 <= roffs < rl[r].length * g.cs
            && Offset(rl[..n], r, g.cs) + roffs == (blocks - 1) * g.CbSize()
            && (g.CbSize() + roffs) / g.cs == |Cells(rl[..n][r..])|
    ensures (blocks - 1) * g.CbSize() + g.CbSize() == |Flat(disk, rl[..n], g.cs)|
  {
    hide Cells, Flat, Offset;
    var start := (blocks - 1) * g.cbClusters;
    var d := start - rl[r].vcn;
    LastBlock(blocks, g);
    EndVcn(rl, n, 0);
    assert rl[..n][0..] == rl[..n];
    EndVcn(rl, n, r);
    Unpack(blocks, 0, g.cbClusters);
    VcnOffset(rl, n, r, g.cs);
    MulAdd(rl[r].vcn, d, g.cs);
    PackBelow(d, 0, rl[r].length, g.cs);
    MulAdd(g.cbClusters, d, g.cs);
    Unpack(g.cbClusters + d, 0, g.cs);
    FlatLength(disk, rl[..n], g.cs);
    MulAdd(start, g.cbClusters, g.cs);
  }

  /** After the step the attribute still reads, and its text up to the used bytes is the same. */
  ghost predicate Kept(flat: seq<byte>, cells: seq<int>, flat': seq<byte>, cells': seq<int>, blocks: nat, g: Geometry,
                       used: nat)
    requires blocks > 0 && used <= g.CbSize() && Readable(flat, cells, blocks, g)
  {
    Readable(flat', cells', blocks, g)
    && Text(flat', cells', blocks, g, used) == Text(flat, cells, blocks, g, used)
  }

  lemma OutcomeBytes(flat: seq<byte>, cells: seq<int>, k: nat, g: Geometry, text: seq<byte>)
    requires (k + 1) * g.CbSize() <= |flat| && k * g.cbClusters < |cells|
    requires CbOutcome(flat, cells, k, g) == Decoded(text)
    ensures BlockReadable(flat, cells, k, g) && CbBytes(flat, cells, k, g) == text
  {
    hide CbOutcome;
  }

  lemma PrefixPatch(flat: seq<byte>, flat': seq<byte>, p: nat, stage: seq<byte>, z: nat)
    requires Restaged(flat, flat', p, stage, z)
    ensures |flat'| == |flat| && Same(flat, flat', p)
  {
  }

  lemma PackedKept(flat: seq<byte>, cells: seq<int>, flat': seq<byte>, cells': seq<int>, blocks: nat, g: Geometry,
                   stage: seq<byte>, bs: seq<Block>, data: seq<byte>, f: nat, p: nat, z: nat)
    requires f <= |cells| && cells' == cells[..|cells| - f] + Holes(f) && Restaged(flat, flat', p, stage, z)
    requires blocks > 0 && p == (blocks - 1) * g.CbSize() && z == f * g.cs
    requires 0 < |stage| && |stage| + z == g.CbSize() && 0 < f && Encodes(stage, bs, data)
    requires Readable(flat, cells, blocks, g) && LastSolid(cells, blocks, g) && LastData(flat, blocks, g, data)
    ensures Kept(flat, cells, flat', cells', blocks, g, |data|)
  {
    hide CbOutcome, Encodes, Fit, Text, Holes;
    LastBlock(blocks, g);
    if f >= g.cbClusters { MulMono(g.cbClusters, f, g.cs); assert false; }
    PackedBlock(flat, cells, flat', cells', blocks, g, stage, bs, data, f, z);
    OutcomeBytes(flat', cells', blocks - 1, g, Fit(data, g.CbSize()));
    PrefixPatch(flat, flat', (blocks - 1) * g.CbSize(), stage, z);
    assert cells'[..(blocks - 1) * g.cbClusters] == cells[..(blocks - 1) * g.cbClusters];
    KeptText(flat, cells, flat', cells', blocks, g, data);
  }

  lemma ZeroKept(flat: seq<byte>, cells: seq<int>, flat': seq<byte>, cells': seq<int>, blocks: nat, g: Geometry,
                 data: seq<byte>)
    requires blocks > 0 && Readable(flat, cells, blocks, g) && LastSolid(cells, blocks, g)
             && LastData(flat, blocks, g, data)
    requires AllZero(data) && g.cbClusters <= |cells| && cells' == cells[..|cells| - g.cbClusters] + Holes(g.cbClusters)
    requires g.CbSize() <= |flat| && flat' == flat[..|flat| - g.CbSize()] + Zeros(g.CbSize())
    ensures Kept(flat, cells, flat', cells', blocks, g, |data|)
  {
    hide CbOutcome, Fit, Text, Holes;
    LastBlock(blocks, g);
    ZeroBlock(cells, flat', cells', blocks, g, data);
    OutcomeBytes(flat', cells', blocks - 1, g, Fit(data, g.CbSize()));
    assert cells'[..(blocks - 1) * g.cbClusters] == cells[..(blocks - 1) * g.cbClusters];
    KeptText(flat, cells, flat', cells', blocks, g, data);
  }

  /** Runs that only got shorter stay on the disk. */
  lemma SubOnDisk(size: nat, a: seq<Run>, b: seq<Run>, cs: nat)
    requires AllOnDisk(size, b, cs) && SubRuns(a, b) && Positive(a)
    ensures AllOnDisk(size, a, cs)
  {
    forall k | 0 <= k < |a| ensures OnDisk(size, a[k], cs) {
      if a[k].lcn >= 0 {
        assert OnDisk(size, b[k], cs);
        MulMono(a[k].lcn + a[k].length, b[k].lcn + b[k].length, cs);
      }
    }
  }

  /** Spare clusters of a packed block. */
  lemma SpareCount(g: Geometry, written: nat, roffs: nat)
    requires g.Valid() && written % g.cs == 0 && written + g.cs <= g.CbSize()
    ensures var f := (g.CbSize() + roffs - (written + roffs)) / g.cs; f > 0 && written + f * g.cs == g.CbSize()
  {
    var q := written / g.cs;
    assert written == q * g.cs;
    MulAdd(q, g.cbClusters - q, g.cs);
    Unpack(g.cbClusters - q, 0, g.cs) by { if q >= g.cbClusters { MulMono(g.cbClusters, q, g.cs); assert false; } }
    if q >= g.cbClusters { MulMono(g.cbClusters, q, g.cs); assert false; }
  }

  /** A list before and after its last f clusters became a hole. */
  ghost predicate Cut(size: nat, runs: seq<Run>, runs': seq<Run>, f: nat, cs: nat) {
    && Positive(runs) && AllOnDisk(size, runs, cs) && Positive(runs') && AllOnDisk(size, runs', cs)
    && 0 < f <= |Cells(runs)| && Cells(runs') == Cells(runs)[..|Cells(runs)| - f] + Holes(f)
  }

  ghost predicate PlainLast(flat: seq<byte>, cells: seq<int>, blocks: nat, g: Geometry, data: seq<byte>) {
    blocks > 0 && Readable(flat, cells, blocks, g) && LastSolid(cells, blocks, g) && LastData(flat, blocks, g, data)
  }

  /** Storing the packed block and cutting its spare clusters keeps the text. */
  lemma AfterPacked(disk: seq<byte>, disk': seq<byte>, runs: seq<Run>, runs': seq<Run>, blocks: nat, g: Geometry,
                    stage: seq<byte>, bs: seq<Block>, data: seq<byte>, f: nat, p: nat)
    requires |disk'| == |disk| && Cut(|disk|, runs, runs', f, g.cs)
    requires PlainLast(Flat(disk, runs, g.cs), Cells(runs), blocks, g, data)
    requires p == (blocks - 1) * g.CbSize() && p + g.CbSize() == |Flat(disk, runs, g.cs)|
    requires 0 < |stage| && |stage| + f * g.cs == g.CbSize() && Encodes(stage, bs, data)
    requires Flat(disk', runs, g.cs) == Patch(Flat(disk, runs, g.cs), p, stage)
    ensures Kept(Flat(disk, runs, g.cs), Cells(runs), Flat(disk', runs', g.cs), Cells(runs'), blocks, g, |data|)
  {
    hide Flat, Cells, Readable, LastSolid, LastData, Encodes, Kept, Holes;
    HoleTail(disk', runs, runs', f, g.cs);
    PackedKept(Flat(disk, runs, g.cs), Cells(runs), Flat(disk', runs', g.cs), Cells(runs'), blocks, g,
               stage, bs, data, f, p, f * g.cs);
  }

  /** Turning a block of zeroes into a hole keeps the text. */
  lemma AfterZero(disk: seq<byte>, runs: seq<Run>, runs': seq<Run>, blocks: nat, g: Geometry, data: seq<byte>)
    requires Cut(|disk|, runs, runs', g.cbClusters, g.cs)
    requires PlainLast(Flat(disk, runs, g.cs), Cells(runs), blocks, g, data) && AllZero(data)
    ensures Kept(Flat(disk, runs, g.cs), Cells(runs), Flat(disk, runs', g.cs), Cells(runs'), blocks, g, |data|)
  {
    hide Flat, Cells, Readable, LastSolid, Kept, Holes;
    HoleTail(disk, runs, runs', g.cbClusters, g.cs);
    ZeroKept(Flat(disk, runs, g.cs), Cells(runs), Flat(disk, runs', g.cs), Cells(runs'), blocks, g, data);
  }

  lemma KeptSelf(flat: seq<byte>, cells: seq<int>, blocks: nat, g: Geometry, used: nat)
    requires blocks > 0 && used <= g.CbSize() && Readable(flat, cells, blocks, g)
    ensures Kept(flat, cells, flat, cells, blocks, g, used)
  {
  }

  lemma WholeClusters(m: nat, cs: nat)
    requires cs > 0 && m > 0
    ensures m * cs % cs == 0 && m * cs / cs == m && 0 % cs == 0 && cs <= m * cs
  {
    Unpack(m, 0, cs);
    Unpack(0, 0, cs);
    MulMono(1, m, cs);
  }

  /** Place of the last block relative to run r. */
  ghost predicate StartsIn(rl: seq<Run>, r: nat, roffs: nat, blocks: nat, g: Geometry) {
    && r < |rl| && blocks > 0 && rl[r].vcn <= (blocks - 1) * g.cbClusters < rl[r].vcn + rl[r].length
    && roffs == ((blocks - 1) * g.cbClusters - rl[r].vcn) * g.cs
  }

  /** The attribute part of Open: the last block is fully allocated. */
  ghost predicate SolidEnd(disk: seq<byte>, rl: seq<Run>, n: nat, blocks: nat, g: Geometry) {
    && g.Valid() && blocks > 0 && n + 2 <= |rl| && Mapped(disk, rl, n, g.cs)
    && |Cells(rl[..n])| == blocks * g.cbClusters && LastSolid(Cells(rl[..n]), blocks, g)
  }

  /** The last f clusters of the list became a hole, are no longer in use, and no longer count. */
  ghost predicate Released(runs: seq<Run>, runs': seq<Run>, inUse: set<int>, inUse': set<int>, size: int, size': int,
                           f: nat, cs: nat) {
    && Positive(runs) && Positive(runs') && f <= |Cells(runs)|
    && Cells(runs') == Cells(runs)[..|Cells(runs)| - f] + Holes(f)
    && inUse' == inUse - Clusters(Cells(runs)[|Cells(runs)| - f..])
    && size' == size - f * cs
  }

  lemma ReleasedNone(runs: seq<Run>, inUse: set<int>, size: int, cs: nat)
    requires Positive(runs)
    ensures Released(runs, runs, inUse, inUse, size, size, 0, cs)
  {
    hide Cells;
    assert Cells(runs)[..|Cells(runs)|] + Holes(0) == Cells(runs);
    assert Clusters(Cells(runs)[|Cells(runs)|..]) == {};
  }

  lemma {:induction false} RunApart(r: Run, runs: seq<Run>, i: nat, j: nat)
    requires Positive(runs) && r.length > 0 && r.lcn >= 0 && forall k :: 0 <= k < |runs| ==> Apart(r, runs[k])
    requires i < r.length && j < |Cells(runs)|
    ensures r.lcn + i != Cells(runs)[j]
    decreases |runs|
  {
    var head := RunCells(runs[0]);
    if j < |head| {
      assert Apart(r, runs[0]);
    } else {
      assert forall k :: 0 <= k < |runs[1..]| ==> runs[1..][k] == runs[k + 1];
      RunApart(r, runs[1..], i, j - |head|);
    }
  }

  /** In a list of disjoint runs no cluster is mapped twice. */
  lemma {:induction false} CellsDistinct(runs: seq<Run>, i: nat, j: nat)
    requires Positive(runs) && Disjoint(runs) && i < j < |Cells(runs)| && Cells(runs)[i] >= 0
    ensures Cells(runs)[i] != Cells(runs)[j]
    decreases |runs|
  {
    var head, tail := RunCells(runs[0]), Cells(runs[1..]);
    if i < |head| {
      if |head| <= j {
        RunApart(runs[0], runs[1..], i, j - |head|);
      }
    } else {
      assert Disjoint(runs[1..]) by {
        forall a, b | 0 <= a < b < |runs[1..]| ensures Apart(runs[1..][a], runs[1..][b]) {
          assert Apart(runs[a + 1], runs[b + 1]);
        }
      }
      CellsDistinct(runs[1..], i - |head|, j - |head|);
    }
  }

  /** No cluster that is still mapped has been given back. */
  lemma StillInUse(runs: seq<Run>, runs': seq<Run>, inUse: set<int>, inUse': set<int>, size: int, size': int, f: nat,
                   cs: nat)
    requires Released(runs, runs', inUse, inUse', size, size', f, cs) && Disjoint(runs)
    requires Clusters(Cells(runs)) <= inUse
    ensures Clusters(Cells(runs')) <= inUse'
  {
    hide Cells, Disjoint;
    var cells, keep := Cells(runs), |Cells(runs)| - f;
    forall c | c in Clusters(Cells(runs')) ensures c in inUse' {
      var i :| 0 <= i < |Cells(runs')| && Cells(runs')[i] == c;
      assert i < keep && cells[i] == c;
      forall j | keep <= j < |cells| ensures cells[j] != c {
        CellsDistinct(runs, i, j);
      }
    }
  }

  /** Which runs a change of the list reaches: the mapping has to be written from upd on. */
  ghost predicate ChangedFrom(rl: seq<Run>, n: nat, rl': seq<Run>, n': nat, upd: int)
    requires n <= |rl| && n' <= |rl'|
  {
    forall k :: 0 <= k < n' && k < n && rl'[k] != rl[k] ==> upd <= rl'[k].vcn
  }

  /** The bytes written and f clusters are the whole block. */
  ghost predicate Whole(written: nat, f: nat, g: Geometry) {
    written + f * g.cs == g.CbSize()
  }

  /** Give the clusters behind the written bytes of the last block back. */
  method ReleaseSpare(a: Attr, ghost blocks: nat, r: nat, roffs: nat, written: nat, updateFrom: int,
                      ghost disk: seq<byte>)
    returns (done: bool, upd: int, ghost f: nat)
    requires a.Valid() && r < a.n && SolidEnd(disk, a.rl[..], a.n, blocks, Geometry(a.cs, a.cbClusters))
    requires StartsIn(a.rl[..], r, roffs, blocks, Geometry(a.cs, a.cbClusters))
    requires written % a.cs == 0 && written + a.cs <= a.cbClusters * a.cs
    modifies a, a.rl, a.vol
    ensures done && a.Valid() && ChangedFrom(old(a.rl[..]), old(a.n), a.rl[..], a.n, upd)
    ensures UpdateAt(upd, Min(updateFrom, old(a.rl[r].vcn)), a.rl[..], a.n)
    ensures Whole(written, f, Geometry(a.cs, a.cbClusters)) && Cut(|disk|, old(a.Runs()), a.Runs(), f, a.cs)
    ensures Released(old(a.Runs()), a.Runs(), old(a.vol.inUse), a.vol.inUse, old(a.compressedSize), a.compressedSize,
                     f, a.cs)
    ensures r <= a.n && a.rl[a.n].lcn == LCN_ENOENT && forall k :: a.n < k < old(a.n) ==> a.rl[k] == old(a.rl[k])
    ensures old(ValidCompressed(a.rl[..], a.n, a.cbClusters)) ==> ValidCompressed(a.rl[..], a.n, a.cbClusters)
  {
    hide Cells, ValidCompressed, Clusters, OnDisk, Holes, LastSolid, Flat, Offset;
    ghost var g := Geometry(a.cs, a.cbClusters);
    ghost var runs := a.Runs();
    var cbSize := a.cbClusters * a.cs;
    SolidRuns(a.rl[..], a.n, r, blocks, g);
    BlockBytePlace(disk, a.rl[..], a.n, r, blocks, g);
    SpareCount(g, written, roffs);
    var res;
    f := (cbSize - written) / a.cs;
    res, upd := a.Free(r, written + roffs, cbSize + roffs, updateFrom);
    done := res == 0;
    SubOnDisk(|disk|, a.Runs(), runs, a.cs);
  }

  /** How many clusters closing gives back for the data of the last block: what packing it saves. */
  ghost predicate Spare(data: seq<byte>, f: nat, g: Geometry)
    requires g.cs > 0
  {
    if data == [] then f == 0
    else exists w: int :: SetResult(data, w, g.cs, g.CbSize()) && if w < 0 then f == 0 else Whole(w, f, g)
  }

  /** The number is determined by the data. */
  lemma SpareSame(data: seq<byte>, f: nat, f': nat, g: Geometry)
    requires g.cs > 0 && Spare(data, f, g) && Spare(data, f', g)
    ensures f == f'
  {
    hide SetResult, Geometry.CbSize;
    if data != [] {
      var w :| SetResult(data, w, g.cs, g.CbSize()) && if w < 0 then f == 0 else Whole(w, f, g);
      var w' :| SetResult(data, w', g.cs, g.CbSize()) && if w' < 0 then f' == 0 else Whole(w', f', g);
      ResultSame(data, w, w', g.cs, g.CbSize());
      if w >= 0 {
        Unpack(f, 0, g.cs);
        Unpack(f', 0, g.cs);
      }
    }
  }

  /** Clusters are given back whenever literals would leave one spare. */
  lemma SpareSome(data: seq<byte>, f: nat, g: Geometry)
    requires g.cs > 0 && data != [] && Spare(data, f, g) && WorstSize(|data|) + g.cs + 2 <= g.CbSize()
    ensures f > 0
  {
    hide Geometry.CbSize, WorstSize, SetResult;
    var w :| SetResult(data, w, g.cs, g.CbSize()) && if w < 0 then f == 0 else Whole(w, f, g);
    ResultSaves(data, w, g.cs, g.CbSize());
  }

  lemma SpareIs(data: seq<byte>, w: int, f: nat, g: Geometry)
    requires g.cs > 0 && data != [] && SetResult(data, w, g.cs, g.CbSize()) && if w < 0 then f == 0 else Whole(w, f, g)
    ensures Spare(data, f, g)
  {
  }

  /** Compress the data of the last block into its own clusters. */
  method StoreLast(disk: array<byte>, a: Attr, ghost blocks: nat, r: nat, roffs: nat, data: seq<byte>)
    returns (written: int, ghost stage: seq<byte>, ghost bs: seq<Block>, ghost p: nat)
    requires a.Valid() && r < a.n && |data| <= a.cbClusters * a.cs && Disjoint(a.Runs())
    requires SolidEnd(disk[..], a.rl[..], a.n, blocks, Geometry(a.cs, a.cbClusters))
    requires StartsIn(a.rl[..], r, roffs, blocks, Geometry(a.cs, a.cbClusters))
    modifies disk
    ensures written <= 0 ==> disk[..] == old(disk[..])
    ensures written >= 0 ==> written % a.cs == 0 && written + a.cs <= a.cbClusters * a.cs
    ensures written == 0 ==> AllZero(data)
    ensures SetResult(data, written, a.cs, a.cbClusters * a.cs)
    ensures p == (blocks - 1) * (a.cbClusters * a.cs)
            && p + a.cbClusters * a.cs == |Flat(old(disk[..]), a.Runs(), a.cs)|
    ensures written > 0 ==>
              && |stage| == written && Encodes(stage, bs, data)
              && Flat(disk[..], a.Runs(), a.cs) == Patch(Flat(old(disk[..]), a.Runs(), a.cs), p, stage)
  {
    hide Cells, OnDisk, LastSolid, Flat, Offset, Encodes, Patch, SetResult, ComesToNothing, Made, WorstSize;
    ghost var g := Geometry(a.cs, a.cbClusters);
    SolidRuns(a.rl[..], a.n, r, blocks, g);
    BlockBytePlace(disk[..], a.rl[..], a.n, r, blocks, g);
    WholeClusters(a.cbClusters, a.cs);
    p := Offset(a.Runs(), r, a.cs) + roffs;
    written, stage, bs := CompSet(disk, a.cs, a.cbClusters * a.cs, a.rl, a.n, r, roffs, data);
  }

  /** The list behind its end mark is as it was, and the end mark is one. */
  ghost predicate Trailing(rl: seq<Run>, n: nat, rl': seq<Run>, n': nat, r: nat) {
    && n < |rl| == |rl'| && r <= n' < |rl| && (forall k :: n' < k < n ==> rl'[k] == rl[k])
    && (rl[n].lcn == LCN_ENOENT ==> rl'[n'].lcn == LCN_ENOENT)
  }

  lemma CutOnDisk(size: nat, runs: seq<Run>, runs': seq<Run>, f: nat, cs: nat)
    requires Cut(size, runs, runs', f, cs)
    ensures AllOnDisk(size, runs', cs) && f > 0
  {
  }

  /** Both outcomes of a successful packing keep the text. */
  lemma AfterClose(disk: seq<byte>, disk': seq<byte>, runs: seq<Run>, runs': seq<Run>, blocks: nat, g: Geometry,
                   data: seq<byte>, written: nat, stage: seq<byte>, bs: seq<Block>, p: nat, f: nat)
    requires |disk'| == |disk| && g.Valid() && Whole(written, f, g) && Cut(|disk|, runs, runs', f, g.cs)
    requires PlainLast(Flat(disk, runs, g.cs), Cells(runs), blocks, g, data)
    requires p == (blocks - 1) * g.CbSize() && p + g.CbSize() == |Flat(disk, runs, g.cs)|
    requires written == 0 ==> disk' == disk && AllZero(data)
    requires written > 0 ==> && |stage| == written <= g.CbSize() && Encodes(stage, bs, data)
                             && Flat(disk', runs, g.cs) == Patch(Flat(disk, runs, g.cs), p, stage)
    ensures Kept(Flat(disk, runs, g.cs), Cells(runs), Flat(disk', runs', g.cs), Cells(runs'), blocks, g, |data|)
  {
    hide Flat, Cells, PlainLast, Encodes, Kept, Patch;
    if written > 0 {
      AfterPacked(disk, disk', runs, runs', blocks, g, stage, bs, data, f, p);
    } else {
      Unpack(f, 0, g.cs);
      Unpack(g.cbClusters, 0, g.cs);
      AfterZero(disk, runs, runs', blocks, g, data);
    }
  }

  /** Release the spare clusters once the block has been stored, or found to be zero. */
  method FinishLast(a: Attr, ghost blocks: nat, r: nat, roffs: nat, written: nat, updateFrom: int,
                    ghost before: seq<byte>,
                    ghost after: seq<byte>, ghost data: seq<byte>, ghost stage: seq<byte>, ghost bs: seq<Block>,
                    ghost p: nat)
    returns (done: bool, upd: int, ghost f: nat)
    requires a.Valid() && r < a.n && |after| == |before|
    requires SolidEnd(after, a.rl[..], a.n, blocks, Geometry(a.cs, a.cbClusters))
    requires StartsIn(a.rl[..], r, roffs, blocks, Geometry(a.cs, a.cbClusters))
    requires PlainLast(Flat(before, a.Runs(), a.cs), Cells(a.Runs()), blocks, Geometry(a.cs, a.cbClusters), data)
    requires written % a.cs == 0 && written + a.cs <= a.cbClusters * a.cs
    requires p == (blocks - 1) * (a.cbClusters * a.cs) && p + a.cbClusters * a.cs == |Flat(before, a.Runs(), a.cs)|
    requires written == 0 ==> after == before && AllZero(data)
    requires written > 0 ==> |stage| == written && Encodes(stage, bs, data)
                             && Flat(after, a.Runs(), a.cs) == Patch(Flat(before, a.Runs(), a.cs), p, stage)
    modifies a, a.rl, a.vol
    ensures done && a.Valid() && AllOnDisk(|after|, a.Runs(), a.cs) && Whole(written, f, Geometry(a.cs, a.cbClusters))
    ensures Kept(Flat(before, old(a.Runs()), a.cs), Cells(old(a.Runs())),
                 Flat(after, a.Runs(), a.cs), Cells(a.Runs()), blocks, Geometry(a.cs, a.cbClusters), |data|)
    ensures old(ValidCompressed(a.rl[..], a.n, a.cbClusters)) ==> ValidCompressed(a.rl[..], a.n, a.cbClusters)
    ensures ChangedFrom(old(a.rl[..]), old(a.n), a.rl[..], a.n, upd)
    ensures f > 0 && UpdateAt(upd, Min(updateFrom, old(a.rl[r].vcn)), a.rl[..], a.n)
    ensures Released(old(a.Runs()), a.Runs(), old(a.vol.inUse), a.vol.inUse, old(a.compressedSize), a.compressedSize,
                     f, a.cs)
    ensures Trailing(old(a.rl[..]), old(a.n), a.rl[..], a.n, r)
  {
    ghost var g := Geometry(a.cs, a.cbClusters);
    ghost var runs := a.Runs();
    assert g.Valid();
    hide Flat, Cells, Encodes, ValidCompressed, OnDisk, Kept, Patch, Released, ChangedFrom, SolidEnd, StartsIn, Cut,
         PlainLast, AllOnDisk, Geometry.Valid, Whole, UpdateAt;
    done, upd, f := ReleaseSpare(a, blocks, r, roffs, written, updateFrom, after);
    CutOnDisk(|after|, runs, a.Runs(), f, a.cs);
    AfterClose(before, after, runs, a.Runs(), blocks, g, data, written, stage, bs, p, f);
  }

  /** What the disk holds does not matter to the shape of the list. */
  lemma SolidAnyway(disk: seq<byte>, disk': seq<byte>, rl: seq<Run>, n: nat, blocks: nat, g: Geometry)
    requires SolidEnd(disk, rl, n, blocks, g) && |disk'| == |disk|
    ensures SolidEnd(disk', rl, n, blocks, g)
  {
  }

  lemma UnchangedList(rl: seq<Run>, n: nat, upd: int, r: nat)
    requires r <= n < |rl|
    ensures ChangedFrom(rl, n, rl, n, upd) && Trailing(rl, n, rl, n, r)
  {
  }

  /** Compress the data of the last block and release what it no longer needs. */
  method PackLast(disk: array<byte>, a: Attr, ghost blocks: nat, r: nat, roffs: nat, data: seq<byte>, updateFrom: int)
    returns (done: bool, upd: int, ghost f: nat)
    requires a.Valid() && r < a.n
    requires Open(disk[..], a.rl[..], a.n, blocks, Geometry(a.cs, a.cbClusters))
    requires StartsIn(a.rl[..], r, roffs, blocks, Geometry(a.cs, a.cbClusters))
    requires LastData(Flat(disk[..], a.rl[..a.n], a.cs), blocks, Geometry(a.cs, a.cbClusters), data)
    modifies disk, a, a.rl, a.vol
    ensures done && a.Valid() && AllOnDisk(disk.Length, a.Runs(), a.cs)
    ensures data != [] ==> Spare(data, f, Geometry(a.cs, a.cbClusters))
    ensures Kept(old(Flat(disk[..], a.rl[..a.n], a.cs)), old(Cells(a.rl[..a.n])),
                 Flat(disk[..], a.rl[..a.n], a.cs), Cells(a.rl[..a.n]), blocks, Geometry(a.cs, a.cbClusters), |data|)
    ensures old(ValidCompressed(a.rl[..], a.n, a.cbClusters)) ==> ValidCompressed(a.rl[..], a.n, a.cbClusters)
    ensures ChangedFrom(old(a.rl[..]), old(a.n), a.rl[..], a.n, upd) && (f == 0 ==> upd == updateFrom)
    ensures f > 0 ==> UpdateAt(upd, Min(updateFrom, old(a.rl[r].vcn)), a.rl[..], a.n)
    ensures Released(old(a.Runs()), a.Runs(), old(a.vol.inUse), a.vol.inUse, old(a.compressedSize), a.compressedSize,
                     f, a.cs)
    ensures Trailing(old(a.rl[..]), old(a.n), a.rl[..], a.n, r)
  {
    ghost var g := Geometry(a.cs, a.cbClusters);
    ghost var runs, before := a.Runs(), disk[..];
    assert SolidEnd(disk[..], a.rl[..], a.n, blocks, g) && |data| <= a.cbClusters * a.cs;
    assert PlainLast(Flat(disk[..], runs, a.cs), Cells(runs), blocks, g, data) && Disjoint(runs);
    hide Flat, Cells, Readable, Encodes, ValidCompressed, OnDisk, Kept, Patch, LastSolid, Released, ChangedFrom,
         SolidEnd, StartsIn, LastData, PlainLast, Trailing, SetResult, Spare, Whole, UpdateAt;
    UnchangedList(a.rl[..], a.n, updateFrom, r);
    var written, stage, bs, p := StoreLast(disk, a, blocks, r, roffs, data);
    if written < 0 {
      KeptSelf(Flat(before, runs, a.cs), Cells(runs), blocks, g, |data|);
      ReleasedNone(runs, a.vol.inUse, a.compressedSize, a.cs);
      if data != [] { SpareIs(data, written, 0, g); }
      return true, updateFrom, 0;
    }
    SolidAnyway(before, disk[..], a.rl[..], a.n, blocks, g);
    done, upd, f := FinishLast(a, blocks, r, roffs, written, updateFrom, before, disk[..], data, stage, bs, p);
    if data != [] { SpareIs(data, written, f, g); }
  }

  /** The write position behind byte offs of run w lies in the last block; used counts the
      bytes of that block in front of it. */
  ghost predicate EndsIn(rl: seq<Run>, w: nat, offs: nat, blocks: nat, g: Geometry, used: nat) {
    && w < |rl| && blocks > 0 && g.Valid() && 0 <= rl[w].vcn
    && (blocks - 1) * g.cbClusters <= rl[w].vcn + offs / g.cs < blocks * g.cbClusters
    && offs < rl[w].length * g.cs && rl[w].vcn * g.cs + offs == (blocks - 1) * g.CbSize() + used
  }

  /** Rounding the write position down to a block gives the start of the last block. */
  lemma CloseStart(rl: seq<Run>, w: nat, offs: nat, blocks: nat, g: Geometry, used: nat)
    requires EndsIn(rl, w, offs, blocks, g, used)
    ensures var v := rl[w].vcn + offs / g.cs;
            && v - v % g.cbClusters == (blocks - 1) * g.cbClusters
            && 0 <= (blocks - 1) * g.cbClusters < rl[w].vcn + rl[w].length
            && offs + (rl[w].vcn - (blocks - 1) * g.cbClusters) * g.cs == used < g.CbSize()
  {
    var q := offs / g.cs;
    var v := rl[w].vcn + q;
    var k, m := blocks - 1, g.cbClusters;
    LastBlock(blocks, g);
    MulMono(0, k, m);
    assert v == k * m + (v - k * m);
    Unpack(k, v - k * m, m);
    assert offs == q * g.cs + offs % g.cs;
    if q >= rl[w].length { MulMono(rl[w].length, q, g.cs); assert false; }
    MulAdd(rl[w].vcn, -(k * m), g.cs);
    MulAdd(rl[w].vcn, q, g.cs);
    MulMono(v + 1, blocks * m, g.cs);
    MulAdd(v, 1, g.cs);
  }

  lemma InsideBlock(v: int, blocks: nat, cb: nat)
    requires cb > 0 && blocks > 0 && (blocks - 1) * cb < v < blocks * cb
    ensures v % cb != 0
  {
    MulAdd(blocks - 1, 1, cb);
    Unpack(blocks - 1, v - (blocks - 1) * cb, cb);
  }

  lemma {:induction false} BackTo(rl: seq<Run>, n: nat, w: nat, cb: nat)
    requires cb > 0 && n <= w < |rl| && forall k :: n < k <= w ==> rl[k].vcn % cb != 0
    ensures AlignedAt(rl, w, cb) <= n
    decreases w
  {
    if n < w { BackTo(rl, n, w - 1, cb); }
  }

  /** From the write position, stepping back to a block boundary never ends behind the end mark. */
  lemma StepsBack(rl: seq<Run>, n: nat, rl': seq<Run>, n': nat, r: nat, w: nat, blocks: nat, cb: nat)
    requires cb > 0 && blocks > 0 && Listed(rl, n) && r <= w < n && Trailing(rl, n, rl', n', r)
    requires rl[r].vcn <= (blocks - 1) * cb < rl[r].vcn + rl[r].length && rl[w].vcn < blocks * cb
    ensures AlignedAt(rl', w, cb) <= n'
  {
    if n' < w {
      forall k | n' < k <= w ensures rl'[k].vcn % cb != 0 {
        VcnOrder(rl, n, r + 1);
        VcnOrder(rl, n, k);
        InsideBlock(rl[k].vcn, blocks, cb);
      }
      BackTo(rl', n', w, cb);
    }
  }

  lemma TrailingBounds(rl: seq<Run>, n: nat, rl': seq<Run>, n': nat, r: nat)
    requires Trailing(rl, n, rl', n', r)
    ensures n < |rl| == |rl'| && n' < |rl'| && (rl[n].lcn == LCN_ENOENT ==> rl'[n'].lcn == LCN_ENOENT)
  {
  }

  lemma EndsBelow(rl: seq<Run>, w: nat, offs: nat, blocks: nat, g: Geometry, used: nat)
    requires EndsIn(rl, w, offs, blocks, g, used)
    ensures w < |rl| && rl[w].vcn < blocks * g.cbClusters
  {
    assert offs / g.cs >= 0;
  }

  /** What the closing check needs, and when it must succeed. */
  lemma FinalCheck(rl: seq<Run>, n: nat, rl': seq<Run>, n': nat, r: nat, roffs: nat, w: nat, offs: nat, blocks: nat,
                   g: Geometry, used: nat)
    requires Listed(rl, n) && r <= w < n && Trailing(rl, n, rl', n', r) && g.cbClusters > 0
    requires StartsIn(rl, r, roffs, blocks, g) && EndsIn(rl, w, offs, blocks, g, used)
    ensures w < |rl'| && n' < |rl'| && AlignedAt(rl', w, g.cbClusters) <= n'
    ensures ValidCompressed(rl', n', g.cbClusters) && rl[n].lcn == LCN_ENOENT
            ==> ValidFrom(rl', AlignedAt(rl', w, g.cbClusters), n', g.cbClusters)
  {
    hide ValidCompressed, ValidFrom, AlignedAt, EndsIn, Listed, Trailing;
    TrailingBounds(rl, n, rl', n', r);
    EndsBelow(rl, w, offs, blocks, g, used);
    StepsBack(rl, n, rl', n', r, w, blocks, g.cbClusters);
    if ValidCompressed(rl', n', g.cbClusters) && rl[n].lcn == LCN_ENOENT {
      ValidPasses(rl', n', AlignedAt(rl', w, g.cbClusters), g.cbClusters);
    }
  }

  lemma VcnOrderTo(rl: seq<Run>, n: nat, w: nat)
    requires Listed(rl, n) && w <= n
    ensures forall k :: 0 <= k <= w ==> rl[k].vcn <= rl[w].vcn
  {
    forall k | 0 <= k <= w ensures rl[k].vcn <= rl[w].vcn {
      VcnOrder(rl, n, k);
    }
  }

  /** Find the block's first byte: the run that holds it and the offset in that run. */
  method Locate(a: Attr, ghost blocks: nat, w: nat, offs: nat, updateFrom: int, ghost used: nat)
    returns (upd: int, toRead: nat, r: nat, roffs: nat)
    requires a.Valid() && w < a.n && EndsIn(a.rl[..], w, offs, blocks, Geometry(a.cs, a.cbClusters), used)
    ensures toRead == used < a.cbClusters * a.cs && r < a.n
    ensures StartsIn(a.rl[..], r, roffs, blocks, Geometry(a.cs, a.cbClusters)) && r <= w
    ensures upd == Min(Min(updateFrom, a.rl[w].vcn), (blocks - 1) * a.cbClusters)
    ensures a.rl[r].vcn <= (blocks - 1) * a.cbClusters < End(a.rl[r]) && a.rl[r].vcn <= a.rl[w].vcn
  {
    hide EndsIn;
    CloseStart(a.rl[..], w, offs, blocks, Geometry(a.cs, a.cbClusters), used);
    VcnOrderTo(a.rl[..], a.n, w);
    var v := a.rl[w].vcn + offs / a.cs;
    var start := v - v % a.cbClusters;
    upd := Min(Min(updateFrom, a.rl[w].vcn), start);
    toRead := offs + (a.rl[w].vcn - start) * a.cs;
    r := BlockRun(a.rl, a.n, w, start);
    MulMono(0, start - a.rl[r].vcn, a.cs);
    roffs := (start - a.rl[r].vcn) * a.cs;
  }

  /** Read the data of the last block back from its clusters. */
  method ReadLast(disk: array<byte>, a: Attr, ghost blocks: nat, r: nat, roffs: nat,
                  toRead: nat) returns (data: seq<byte>)
    requires a.Valid() && r < a.n && 0 < toRead <= a.cbClusters * a.cs && Disjoint(a.Runs())
    requires SolidEnd(disk[..], a.rl[..], a.n, blocks, Geometry(a.cs, a.cbClusters))
    requires StartsIn(a.rl[..], r, roffs, blocks, Geometry(a.cs, a.cbClusters))
    ensures |data| == toRead && LastData(Flat(disk[..], a.Runs(), a.cs), blocks, Geometry(a.cs, a.cbClusters), data)
  {
    hide Flat, Cells, OnDisk, LastSolid, Offset;
    ghost var g := Geometry(a.cs, a.cbClusters);
    SolidRuns(a.rl[..], a.n, r, blocks, g);
    BlockBytePlace(disk[..], a.rl[..], a.n, r, blocks, g);
    var inbuf := new byte[a.cbClusters * a.cs];
    var got := ReadClusters(disk, a.cs, a.rl, a.n, r, roffs, toRead, inbuf);
    data := inbuf[..got];
  }

  /** The data of the last block: its first used bytes. */
  ghost function LastUsed(flat: seq<byte>, blocks: nat, g: Geometry, used: nat): (data: seq<byte>)
    requires blocks > 0 && (blocks - 1) * g.CbSize() + used <= |flat|
    ensures |data| == used
  {
    flat[(blocks - 1) * g.CbSize()..(blocks - 1) * g.CbSize() + used]
  }

  lemma UsedIs(flat: seq<byte>, blocks: nat, g: Geometry, data: seq<byte>)
    requires blocks > 0 && LastData(flat, blocks, g, data)
    ensures (blocks - 1) * g.CbSize() + |data| <= |flat| && data == LastUsed(flat, blocks, g, |data|)
  {
  }

  lemma NothingSpare(flat: seq<byte>, cells: seq<int>, blocks: nat, g: Geometry)
    requires blocks > 0 && Readable(flat, cells, blocks, g)
    ensures (blocks - 1) * g.CbSize() <= |flat| && g.cs > 0 && Spare(LastUsed(flat, blocks, g, 0), 0, g)
  {
    hide BlockReadable;
    MulMono(blocks - 1, blocks, g.CbSize());
  }

  /**
   * ntfs_compressed_close: whatever becomes of the last block, the file reads the same. f clusters are
   * released. The result is that of the check of the list from the write position on.
   */
  method Close(disk: array<byte>, a: Attr, ghost blocks: nat, w: nat, offs: nat, updateFrom: int, ghost used: nat)
    returns (done: bool, upd: int, ghost f: nat, ghost r: nat)
    requires a.Valid() && w < a.n && used <= a.cbClusters * a.cs
    requires Open(disk[..], a.rl[..], a.n, blocks, Geometry(a.cs, a.cbClusters))
    requires EndsIn(a.rl[..], w, offs, blocks, Geometry(a.cs, a.cbClusters), used)
    modifies disk, a, a.rl, a.vol
    ensures a.Valid() && AllOnDisk(disk.Length, a.Runs(), a.cs)
    ensures done <==> ValidFrom(a.rl[..], AlignedAt(a.rl[..], w, a.cbClusters), a.n, a.cbClusters)
    ensures Kept(old(Flat(disk[..], a.rl[..a.n], a.cs)), old(Cells(a.rl[..a.n])),
                 Flat(disk[..], a.rl[..a.n], a.cs), Cells(a.rl[..a.n]), blocks, Geometry(a.cs, a.cbClusters), used)
    ensures old(ValidCompressed(a.rl[..], a.n, a.cbClusters)) ==> ValidCompressed(a.rl[..], a.n, a.cbClusters)
    ensures old(ValidCompressed(a.rl[..], a.n, a.cbClusters) && a.rl[a.n].lcn == LCN_ENOENT) ==> done
    ensures ChangedFrom(old(a.rl[..]), old(a.n), a.rl[..], a.n, upd)
    ensures var start := (blocks - 1) * a.cbClusters;
            && (f == 0 ==> upd == Min(Min(updateFrom, old(a.rl[w].vcn)), start))
            && (f > 0 ==> && r <= w && old(a.rl[r]).vcn <= start < End(old(a.rl[r]))
                          && UpdateAt(upd, Min(updateFrom, old(a.rl[r].vcn)), a.rl[..], a.n))
    ensures Released(old(a.Runs()), a.Runs(), old(a.vol.inUse), a.vol.inUse, old(a.compressedSize), a.compressedSize,
                     f, a.cs)
    ensures old(Clusters(Cells(a.Runs())) <= a.vol.inUse) ==> Clusters(Cells(a.Runs())) <= a.vol.inUse
    ensures blocks > 0 && var flat, g := old(Flat(disk[..], a.rl[..a.n], a.cs)), Geometry(a.cs, a.cbClusters);
            (blocks - 1) * g.CbSize() + used <= |flat| && Spare(LastUsed(flat, blocks, g, used), f, g)
  {
    ghost var g := Geometry(a.cs, a.cbClusters);
    ghost var runs, list, n, inUse, size := a.Runs(), a.rl[..], a.n, a.vol.inUse, a.compressedSize;
    assert SolidEnd(disk[..], a.rl[..], a.n, blocks, g) && Disjoint(runs);
    hide Flat, Cells, ValidCompressed, OnDisk, Kept, LastSolid, EndsIn, Readable, Offset, SolidEnd, LastData, StartsIn,
         Released, ChangedFrom, ValidFrom, AlignedAt, Trailing, Clusters, Spare, LastUsed, UpdateAt;
    var toRead, brl, roffs;
    upd, toRead, brl, roffs := Locate(a, blocks, w, offs, updateFrom, used);
    r := brl;
    if toRead == 0 {
      KeptSelf(Flat(disk[..], runs, a.cs), Cells(runs), blocks, g, used);
      ReleasedNone(runs, inUse, size, a.cs);
      UnchangedList(list, n, upd, r);
      f := 0;
      NothingSpare(Flat(disk[..], runs, a.cs), Cells(runs), blocks, g);
    } else {
      var data := ReadLast(disk, a, blocks, brl, roffs, toRead);
      UsedIs(Flat(disk[..], runs, a.cs), blocks, g, data);
      var _, u, freed := PackLast(disk, a, blocks, brl, roffs, data, upd);
      upd, f := u, freed;
    }
    FinalCheck(list, n, a.rl[..], a.n, r, roffs, w, offs, blocks, g, used);
    done := ValidRun(a.rl, w, a.cbClusters, a.n);
    if Clusters(Cells(runs)) <= inUse {
      StillInUse(runs, a.Runs(), inUse, a.vol.inUse, size, a.compressedSize, f, a.cs);
    }
  }
}

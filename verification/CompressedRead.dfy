/** ntfs_is_cb_compressed and ntfs_compressed_attr_pread: reading through the runlist. */
module CompressedRead {
  import opened Bytes
  import opened Lznt1Format
  import opened Lznt1RoundTrip
  import opened Runlist
  import opened ClusterIO
  import opened CompressFree
  import opened GatherRead
  import Lznt1Decoder
  import opened Slices

  /** Cell v of a list that starts at vcn 0, read off the run that holds it. */
  lemma CellAt(rl: seq<Run>, n: nat, y: nat, v: int)
    requires Listed(rl, n) && rl[0].vcn == 0 && y < n && rl[y].vcn <= v < rl[y].vcn + rl[y].length
    ensures 0 <= v < |Cells(rl[..n])|
    ensures Cells(rl[..n])[v] == if rl[y].lcn < 0 then rl[y].lcn else rl[y].lcn + (v - rl[y].vcn)
  {
    hide Cells;
    var runs := rl[..n];
    CellsSplit(runs, y);
    CellsHead(runs, y);
    EndVcn(rl, n, y);
    EndVcn(rl, n, 0);
    assert runs[0..] == runs;
    assert |Cells(runs[..y])| == rl[y].vcn;
  }

  ghost predicate HasHole(cells: seq<int>, a: int, b: int) {
    exists v :: a <= v < b && 0 <= v < |cells| && cells[v] == LCN_HOLE
  }

  lemma HoleRun(rl: seq<Run>, n: nat, y: nat, a: int, b: int)
    requires Listed(rl, n) && rl[0].vcn == 0 && y < n && rl[y].lcn == LCN_HOLE && a <= rl[y].vcn < b
    ensures HasHole(Cells(rl[..n]), a, b)
  {
    hide Cells;
    assert rl[..n][y].length > 0;
    CellAt(rl, n, y, rl[y].vcn);
  }

  /** A range covered by an allocated run and a range without a hole have no hole together. */
  lemma NoHoleMore(rl: seq<Run>, n: nat, y: nat, a: int, b: int)
    requires Listed(rl, n) && rl[0].vcn == 0 && y < n && rl[y].lcn >= 0
    requires !HasHole(Cells(rl[..n]), a, rl[y].vcn) || rl[y].vcn <= a
    requires b <= rl[y].vcn + rl[y].length
    ensures !HasHole(Cells(rl[..n]), a, b)
  {
    hide Cells;
    var cells := Cells(rl[..n]);
    forall v | a <= v < b && 0 <= v < |cells| ensures cells[v] != LCN_HOLE {
      if rl[y].vcn <= v { CellAt(rl, n, y, v); }
    }
  }

  /** ntfs_is_cb_compressed for a block whose first cluster is allocated, on a list that is mapped to its end. */
  method IsCbCompressed(rl: array<Run>, ghost n: nat, x0: nat, start: int, cbClusters: nat) returns (compressed: bool)
    requires Listed(rl[..], n) && rl[0].vcn == 0 && x0 < n && cbClusters > 0
    requires rl[x0].vcn <= start < rl[x0].vcn + rl[x0].length && rl[x0].lcn >= 0
    ensures compressed <==> HasHole(Cells(rl[..n]), start, start + cbClusters) || start + cbClusters > rl[n].vcn
  {
    hide Cells, HasHole;
    VcnOrder(rl[..], n, 0);
    VcnOrder(rl[..], n, x0 + 1);
    var x, left: int := x0, cbClusters - (rl[x0].length - (start - rl[x0].vcn));
    ghost var stop := start + cbClusters;
    NoHoleMore(rl[..], n, x, start, Min(stop, rl[x].vcn + rl[x].length));
    while left > 0
      invariant x0 <= x < n && left == stop - (rl[x].vcn + rl[x].length) && rl[x].vcn + rl[x].length <= rl[n].vcn
      invariant !HasHole(Cells(rl[..n]), start, Min(stop, rl[x].vcn + rl[x].length))
      decreases n - x
    {
      x := x + 1;
      if rl[x].lcn < LCN_HOLE || rl[x].length == 0 {
        assert x == n;
        var found, _ := FindVcn(rl, n, rl[x].vcn);
        if !found {
          return true;
        }
      }
      VcnOrder(rl[..], n, x + 1);
      if rl[x].lcn == LCN_HOLE {
        HoleRun(rl[..], n, x, start, stop);
        return true;
      }
      NoHoleMore(rl[..], n, x, start, Min(stop, rl[x].vcn + rl[x].length));
      if rl[x].length >= left {
        return false;
      }
      left := left - rl[x].length;
    }
    compressed := false;
  }

  // ---- what a compressed attribute reads as ----

  datatype Geometry = Geometry(cs: nat, cbClusters: nat) {
    ghost predicate Valid() {
      cs > 0 && cbClusters > 0 && cbClusters * cs % SB_SIZE == 0
    }
    function CbSize(): nat {
      cbClusters * cs
    }
  }

  /** The raw bytes under compression block k. */
  ghost function CbRaw(flat: seq<byte>, k: nat, cbSize: nat): (s: seq<byte>)
    requires (k + 1) * cbSize <= |flat|
    ensures |s| == cbSize
  {
    MulAdd(k, 1, cbSize);
    flat[k * cbSize..(k + 1) * cbSize]
  }

  /** Compression block k as the runlist alone classifies it: a hole at its start makes it
      zeroes, no hole at all makes it plain data, anything else is a compressed stream. */
  ghost function CbOutcome(flat: seq<byte>, cells: seq<int>, k: nat, g: Geometry): Outcome
    requires (k + 1) * g.CbSize() <= |flat| && k * g.cbClusters < |cells|
  {
    if cells[k * g.cbClusters] == LCN_HOLE then Decoded(Zeros(g.CbSize()))
    else if !HasHole(cells, k * g.cbClusters, (k + 1) * g.cbClusters) then Decoded(CbRaw(flat, k, g.CbSize()))
    else Decode(CbRaw(flat, k, g.CbSize()), g.CbSize())
  }

  lemma CbOutcomeSize(flat: seq<byte>, cells: seq<int>, k: nat, g: Geometry)
    requires (k + 1) * g.CbSize() <= |flat| && k * g.cbClusters < |cells|
    ensures CbOutcome(flat, cells, k, g).Decoded? ==> |CbOutcome(flat, cells, k, g).bytes| == g.CbSize()
  {
    hide Decode;
  }

  ghost predicate BlockReadable(flat: seq<byte>, cells: seq<int>, k: nat, g: Geometry) {
    (k + 1) * g.CbSize() <= |flat| && k * g.cbClusters < |cells| && CbOutcome(flat, cells, k, g).Decoded?
  }

  /** The list maps whole blocks, and each of them can be read. */
  ghost predicate Readable(flat: seq<byte>, cells: seq<int>, blocks: nat, g: Geometry) {
    && g.Valid() && |cells| == blocks * g.cbClusters && |flat| == blocks * g.CbSize()
    && forall k :: 0 <= k < blocks ==> BlockReadable(flat, cells, k, g)
  }

  ghost function CbBytes(flat: seq<byte>, cells: seq<int>, k: nat, g: Geometry): (s: seq<byte>)
    requires BlockReadable(flat, cells, k, g)
    ensures |s| == g.CbSize()
  {
    CbOutcomeSize(flat, cells, k, g);
    CbOutcome(flat, cells, k, g).bytes
  }

  /** The uncompressed text of the first count blocks. */
  ghost function View(flat: seq<byte>, cells: seq<int>, count: nat, g: Geometry): seq<byte>
    requires forall k :: 0 <= k < count ==> BlockReadable(flat, cells, k, g)
  {
    if count == 0 then [] else View(flat, cells, count - 1, g) + CbBytes(flat, cells, count - 1, g)
  }

  lemma {:induction false} ViewLength(flat: seq<byte>, cells: seq<int>, count: nat, g: Geometry)
    requires forall k :: 0 <= k < count ==> BlockReadable(flat, cells, k, g)
    ensures |View(flat, cells, count, g)| == count * g.CbSize()
  {
    hide BlockReadable, CbBytes;
    if count > 0 {
      ViewLength(flat, cells, count - 1, g);
      MulAdd(count - 1, 1, g.CbSize());
    }
  }

  lemma ViewSnoc(flat: seq<byte>, cells: seq<int>, count: nat, g: Geometry)
    requires count > 0 && forall j :: 0 <= j < count ==> BlockReadable(flat, cells, j, g)
    ensures View(flat, cells, count, g) == View(flat, cells, count - 1, g) + CbBytes(flat, cells, count - 1, g)
  {
  }

  /** Block k sits at its own place in the text. */
  lemma {:induction false} ViewSlice(flat: seq<byte>, cells: seq<int>, count: nat, k: nat, g: Geometry)
    requires forall j :: 0 <= j < count ==> BlockReadable(flat, cells, j, g)
    requires k < count
    ensures k * g.CbSize() + g.CbSize() <= |View(flat, cells, count, g)|
    ensures View(flat, cells, count, g)[k * g.CbSize()..k * g.CbSize() + g.CbSize()] == CbBytes(flat, cells, k, g)
    decreases count
  {
    hide BlockReadable, CbBytes, Geometry.CbSize, View;
    ViewLength(flat, cells, count - 1, g);
    ViewSnoc(flat, cells, count, g);
    var front, last, at, cb := View(flat, cells, count - 1, g), CbBytes(flat, cells, count - 1, g), k * g.CbSize(),
        g.CbSize();
    if k < count - 1 {
      ViewSlice(flat, cells, count - 1, k, g);
      FrontSlice(front, last, at, at + cb);
    } else {
      Halves(front, last);
    }
  }

  // ---- what a request gets ----

  /** Whole sub-blocks needed to cover toRead bytes from ofs on, in bytes. */
  function Need(ofs: nat, toRead: nat): (r: nat)
    requires toRead > 0
    ensures r % SB_SIZE == 0 && ofs + toRead <= r
  {
    ((ofs + toRead - 1) / SB_SIZE + 1) * SB_SIZE
  }

  ghost predicate BlockHere(flat: seq<byte>, cells: seq<int>, k: nat, g: Geometry) {
    (k + 1) * g.CbSize() <= |flat| && k * g.cbClusters < |cells|
  }

  /** The first need bytes of block k; only a compressed block can fail. */
  ghost function Partial(flat: seq<byte>, cells: seq<int>, k: nat, need: nat, g: Geometry): (o: Outcome)
    requires BlockHere(flat, cells, k, g) && need <= g.CbSize()
    ensures o.Decoded? ==> |o.bytes| == need
  {
    if cells[k * g.cbClusters] == LCN_HOLE then Decoded(Zeros(need))
    else if !HasHole(cells, k * g.cbClusters, (k + 1) * g.cbClusters) then Decoded(CbRaw(flat, k, g.CbSize())[..need])
    else Decode(CbRaw(flat, k, g.CbSize()), need)
  }

  datatype Delivery = Delivery(bytes: seq<byte>, ok: bool)

  /** What a request for count bytes from byte ofs of block k on gets: everything up to the first block that fails. */
  ghost function Delivered(flat: seq<byte>, cells: seq<int>, g: Geometry, k: nat, ofs: nat, count: nat): (d: Delivery)
    ensures |d.bytes| <= count && (d.ok ==> |d.bytes| == count)
    decreases count
  {
    if count == 0 then Delivery([], true)
    else if !BlockHere(flat, cells, k, g) || ofs >= g.CbSize() then Delivery([], false)
    else
      var toRead := Min(count, g.CbSize() - ofs);
      if Need(ofs, toRead) > g.CbSize() then Delivery([], false)
      else
        var o := Partial(flat, cells, k, Need(ofs, toRead), g);
        if !o.Decoded? then Delivery([], false)
        else
          var rest := Delivered(flat, cells, g, k + 1, 0, count - toRead);
          Delivery(o.bytes[ofs..ofs + toRead] + rest.bytes, rest.ok)
  }

  ghost predicate PartSound(flat: seq<byte>, cells: seq<int>, k: nat, need: nat, g: Geometry) {
    need <= g.CbSize() && need % SB_SIZE == 0 && BlockHere(flat, cells, k, g)
    ==> !Partial(flat, cells, k, need, g).Undefined?
  }

  /** The list maps whole blocks, and decoding any part of them stays inside its buffers. */
  ghost predicate Sound(flat: seq<byte>, cells: seq<int>, blocks: nat, g: Geometry) {
    && g.Valid() && |cells| == blocks * g.cbClusters && |flat| == blocks * g.CbSize()
    && forall k, need :: 0 <= k < blocks && 0 < need <= g.CbSize() ==> PartSound(flat, cells, k, need, g)
  }

  lemma NeedFits(ofs: nat, toRead: nat, cbSize: nat)
    requires toRead > 0 && ofs + toRead <= cbSize && cbSize % SB_SIZE == 0
    ensures Need(ofs, toRead) <= cbSize
  {
  }

  /** The part of a readable block is the beginning of its text. */
  lemma PartOfBlock(flat: seq<byte>, cells: seq<int>, k: nat, need: nat, g: Geometry)
    requires BlockReadable(flat, cells, k, g) && need <= g.CbSize() && need % SB_SIZE == 0
    ensures Partial(flat, cells, k, need, g) == Decoded(CbBytes(flat, cells, k, g)[..need])
  {
    hide HasHole, CbRaw, DecodeStream;
    var raw := CbRaw(flat, k, g.CbSize());
    if cells[k * g.cbClusters] != LCN_HOLE && HasHole(cells, k * g.cbClusters, (k + 1) * g.cbClusters) {
      PrefixDecode(raw, 0, need / SB_SIZE, g.CbSize(), []);
    }
  }

  lemma ReadableHere(flat: seq<byte>, cells: seq<int>, k: nat, g: Geometry)
    requires BlockReadable(flat, cells, k, g)
    ensures BlockHere(flat, cells, k, g)
  {
  }

  lemma TakeSlice(s: seq<byte>, need: nat, ofs: nat, n: nat)
    requires ofs + n <= need <= |s|
    ensures s[..need][ofs..ofs + n] == s[ofs..ofs + n]
  {
  }

  /** A block's share of a request is a slice of the whole text. */
  lemma BlockShare(flat: seq<byte>, cells: seq<int>, blocks: nat, g: Geometry, k: nat, ofs: nat, toRead: nat, p: nat)
    requires Readable(flat, cells, blocks, g) && k < blocks && p == k * g.CbSize() + ofs
    requires toRead > 0 && ofs + toRead <= g.CbSize()
    ensures BlockHere(flat, cells, k, g) && Need(ofs, toRead) <= g.CbSize()
    ensures p + toRead <= |View(flat, cells, blocks, g)|
    ensures var o := Partial(flat, cells, k, Need(ofs, toRead), g);
            o.Decoded? && o.bytes[ofs..ofs + toRead] == View(flat, cells, blocks, g)[p..p + toRead]
  {
    hide View, BlockReadable, Partial, CbBytes, BlockHere, Need;
    assert BlockReadable(flat, cells, k, g);
    ReadableHere(flat, cells, k, g);
    NeedFits(ofs, toRead, g.CbSize());
    PartOfBlock(flat, cells, k, Need(ofs, toRead), g);
    ViewSlice(flat, cells, blocks, k, g);
    SliceSlice(View(flat, cells, blocks, g), k * g.CbSize(), g.CbSize(), ofs, toRead);
    TakeSlice(CbBytes(flat, cells, k, g), Need(ofs, toRead), ofs, toRead);
  }

  lemma NextPlace(k: nat, cb: nat, ofs: nat, count: nat, blocks: nat)
    requires ofs < cb && count > 0 && k * cb + ofs + count <= blocks * cb
    ensures k < blocks && (k + 1) * cb == k * cb + cb
  {
    MulStep(k, blocks, cb);
    MulAdd(k, 1, cb);
    MulStep(blocks, k, cb);
  }

  lemma DeliveredAll(flat: seq<byte>, cells: seq<int>, g: Geometry, k: nat, ofs: nat)
    ensures Delivered(flat, cells, g, k, ofs, 0) == Delivery([], true)
  {
  }

  lemma DeliveredNext(flat: seq<byte>, cells: seq<int>, g: Geometry, k: nat, ofs: nat, count: nat, bytes: seq<byte>)
    requires count > 0 && BlockHere(flat, cells, k, g) && ofs < g.CbSize()
    requires var toRead := Min(count, g.CbSize() - ofs);
             Need(ofs, toRead) <= g.CbSize() && Partial(flat, cells, k, Need(ofs, toRead), g) == Decoded(bytes)
    ensures var toRead := Min(count, g.CbSize() - ofs);
            var rest := Delivered(flat, cells, g, k + 1, 0, count - toRead);
            |bytes| == Need(ofs, toRead)
            && Delivered(flat, cells, g, k, ofs, count) == Delivery(bytes[ofs..ofs + toRead] + rest.bytes, rest.ok)
  {
    hide Partial;
  }

  /** When every block is readable, a request gets its slice of the whole text. */
  lemma {:induction false} DeliveredText(flat: seq<byte>, cells: seq<int>, blocks: nat, g: Geometry, k: nat, ofs: nat,
                                         count: nat, p: nat)
    requires Readable(flat, cells, blocks, g) && ofs < g.CbSize() && p == k * g.CbSize() + ofs
    requires p + count <= blocks * g.CbSize()
    ensures p + count <= |View(flat, cells, blocks, g)|
    ensures Delivered(flat, cells, g, k, ofs, count) == Delivery(View(flat, cells, blocks, g)[p..p + count], true)
    decreases count
  {
    hide View, Partial, BlockReadable, BlockHere, Delivered, Need, Geometry.CbSize, Geometry.Valid;
    ViewLength(flat, cells, blocks, g);
    if count == 0 {
      DeliveredAll(flat, cells, g, k, ofs);
    } else {
      var toRead := Min(count, g.CbSize() - ofs);
      NextPlace(k, g.CbSize(), ofs, count, blocks);
      BlockShare(flat, cells, blocks, g, k, ofs, toRead, p);
      DeliveredNext(flat, cells, g, k, ofs, count, Partial(flat, cells, k, Need(ofs, toRead), g).bytes);
      RestText(flat, cells, blocks, g, k, ofs, count, p);
      Parted(View(flat, cells, blocks, g), p, p + toRead, p + count);
    }
  }

  /** What the later blocks deliver. */
  lemma {:induction false} RestText(flat: seq<byte>, cells: seq<int>, blocks: nat, g: Geometry, k: nat, ofs: nat,
                                    count: nat, p: nat)
    requires Readable(flat, cells, blocks, g) && ofs < g.CbSize() && p == k * g.CbSize() + ofs && count > 0
    requires p + count <= blocks * g.CbSize()
    ensures p + count <= |View(flat, cells, blocks, g)|
    ensures var toRead := Min(count, g.CbSize() - ofs);
            Delivered(flat, cells, g, k + 1, 0, count - toRead)
            == Delivery(View(flat, cells, blocks, g)[p + toRead..p + count], true)
    decreases count, 0
  {
    hide View, BlockReadable, Delivered, Geometry.CbSize, Geometry.Valid;
    ViewLength(flat, cells, blocks, g);
    var toRead := Min(count, g.CbSize() - ofs);
    NextPlace(k, g.CbSize(), ofs, count, blocks);
    if count == toRead {
      DeliveredAll(flat, cells, g, k + 1, 0);
    } else {
      DeliveredText(flat, cells, blocks, g, k + 1, 0, count - toRead, p + toRead);
    }
  }

  lemma DeliveredStop(flat: seq<byte>, cells: seq<int>, g: Geometry, k: nat, ofs: nat, count: nat)
    requires count > 0 && ofs < g.CbSize()
    requires var toRead := Min(count, g.CbSize() - ofs);
             BlockHere(flat, cells, k, g) ==>
               Need(ofs, toRead) <= g.CbSize() && !Partial(flat, cells, k, Need(ofs, toRead), g).Decoded?
    ensures Delivered(flat, cells, g, k, ofs, count) == Delivery([], false)
  {
    hide Partial;
  }

  // ---- the reader ----

  /** Decode only as many sub-blocks as the request needs, and copy its part out. */
  method ReadPacked(cb: seq<byte>, ofs: nat, toRead: nat, dst: array<byte>, at: nat) returns (ok: bool)
    requires toRead > 0 && Need(ofs, toRead) <= |cb| && at + toRead <= dst.Length
    requires !Decode(cb, Need(ofs, toRead)).Undefined?
    modifies dst
    ensures ok <==> Decode(cb, Need(ofs, toRead)).Decoded?
    ensures ok ==> dst[..] == Patch(old(dst[..]), at, Decode(cb, Need(ofs, toRead)).bytes[ofs..ofs + toRead])
    ensures !ok ==> dst[..] == old(dst[..])
  {
    hide Decode;
    var decompsz := Need(ofs, toRead);
    var dest := new byte[|cb|];
    ok := Lznt1Decoder.Decompress(dest, decompsz, cb);
    if !ok {
      return;
    }
    TakeSlice(dest[..], decompsz, ofs, toRead);
    assert dest[..][..decompsz] == dest[..decompsz] && dest[..][ofs..ofs + toRead] == dest[ofs..ofs + toRead];
    DevRead(dest, ofs, toRead, dst, at);
  }

  /** The part of a list and its bytes that the reader of block k relies on. */
  ghost predicate InBlock(flat: seq<byte>, rl: seq<Run>, n: nat, blocks: nat, k: nat, g: Geometry) {
    && g.Valid() && Listed(rl, n) && rl[0].vcn == 0 && k < blocks
    && |Cells(rl[..n])| == blocks * g.cbClusters && |flat| == blocks * g.CbSize() && (k + 1) * g.CbSize() <= |flat|
  }

  /** Where block k lies: in clusters, in bytes, and inside the list. */
  lemma BlockPlace(rl: seq<Run>, n: nat, blocks: nat, k: nat, g: Geometry)
    requires g.Valid() && Listed(rl, n) && rl[0].vcn == 0 && k < blocks && |Cells(rl[..n])| == blocks * g.cbClusters
    ensures k * g.cbClusters * g.cs == k * g.CbSize()
    ensures k * g.cbClusters + g.cbClusters == (k + 1) * g.cbClusters <= rl[n].vcn
    ensures k * g.CbSize() + g.CbSize() == (k + 1) * g.CbSize()
  {
    hide Cells;
    MulAdd(k, 1, g.cbClusters);
    MulAdd(k, 1, g.CbSize());
    MulMono(k + 1, blocks, g.cbClusters);
    EndVcn(rl, n, 0);
    assert rl[..n][0..] == rl[..n];
  }

  /** An uncompressed block is read straight into the destination. */
  method ReadPlain(disk: array<byte>, g: Geometry, rl: array<Run>, ghost n: nat, ghost blocks: nat,
                   k: nat, ofs: nat, toRead: nat, dst: array<byte>, at: nat)
    requires g.Valid() && Mapped(disk[..], rl[..], n, g.cs) && disk != dst
    requires InBlock(Flat(disk[..], rl[..n], g.cs), rl[..], n, blocks, k, g)
    requires toRead > 0 && ofs + toRead <= g.CbSize() && at + toRead <= dst.Length
    modifies dst
    ensures dst[..] == Patch(old(dst[..]), at, CbRaw(Flat(disk[..], rl[..n], g.cs), k, g.CbSize())[ofs..ofs + toRead])
  {
    hide Flat, Cells, Patch, RunBytes, OnDisk, Offset;
    ghost var data := disk[..];
    ghost var flat := Flat(data, rl[..n], g.cs);
    BlockPlace(rl[..], n, blocks, k, g);
    SliceSlice(flat, k * g.CbSize(), g.CbSize(), ofs, toRead);
    GatherLoop(disk, g.cs, rl, n, k * g.cbClusters * g.cs + ofs, toRead, dst, at);
    assert disk[..] == data;
  }

  lemma WholePatch(before: seq<byte>, raw: seq<byte>)
    requires |before| == |raw|
    ensures Patch(before, 0, raw) == raw
  {
  }

  /** A compressed block is gathered as a whole and decoded as far as needed. */
  method ReadCompressed(disk: array<byte>, g: Geometry, rl: array<Run>, ghost n: nat, ghost blocks: nat,
                        k: nat, ofs: nat, toRead: nat, dst: array<byte>, at: nat) returns (ok: bool)
    requires g.Valid() && Mapped(disk[..], rl[..], n, g.cs) && disk != dst
    requires InBlock(Flat(disk[..], rl[..n], g.cs), rl[..], n, blocks, k, g)
    requires toRead > 0 && Need(ofs, toRead) <= g.CbSize() && at + toRead <= dst.Length
    requires !Decode(CbRaw(Flat(disk[..], rl[..n], g.cs), k, g.CbSize()), Need(ofs, toRead)).Undefined?
    modifies dst
    ensures var o := Decode(CbRaw(Flat(disk[..], rl[..n], g.cs), k, g.CbSize()), Need(ofs, toRead));
            && (ok <==> o.Decoded?)
            && dst[..] == if ok then Patch(old(dst[..]), at, o.bytes[ofs..ofs + toRead]) else old(dst[..])
  {
    hide Flat, Cells, Patch, RunBytes, OnDisk, Offset, Decode, Need;
    ghost var data := disk[..];
    ghost var flat := Flat(data, rl[..n], g.cs);
    var cbSize := g.CbSize();
    BlockPlace(rl[..], n, blocks, k, g);
    var cb := new byte[cbSize];
    ghost var blank := cb[..];
    GatherLoop(disk, g.cs, rl, n, k * g.cbClusters * g.cs, cbSize, cb, 0);
    WholePatch(blank, CbRaw(flat, k, cbSize));
    assert cb[..] == CbRaw(flat, k, cbSize);
    ok := ReadPacked(cb[..], ofs, toRead, dst, at);
    assert disk[..] == data;
  }

  /** A block is there exactly when the list reaches its first cluster. */
  lemma Reached(flat: seq<byte>, rl: seq<Run>, n: nat, blocks: nat, k: nat, g: Geometry)
    requires g.Valid() && Listed(rl, n) && rl[0].vcn == 0
    requires |Cells(rl[..n])| == blocks * g.cbClusters && |flat| == blocks * g.CbSize()
    ensures BlockHere(flat, Cells(rl[..n]), k, g) <==> k < blocks
    ensures k * g.cbClusters < rl[n].vcn <==> k < blocks
    ensures k < blocks ==> InBlock(flat, rl, n, blocks, k, g)
  {
    hide Cells;
    EndVcn(rl, n, 0);
    assert rl[..n][0..] == rl[..n];
    MulStep(k, blocks, g.cbClusters);
    MulStep(k, blocks, g.CbSize());
    MulAdd(k, 1, g.CbSize());
    if blocks <= k {
      MulMono(blocks, k, g.cbClusters);
    }
  }

  lemma SoundPart(flat: seq<byte>, cells: seq<int>, blocks: nat, k: nat, ofs: nat, toRead: nat, g: Geometry)
    requires Sound(flat, cells, blocks, g) && k < blocks && BlockHere(flat, cells, k, g)
    requires toRead > 0 && Need(ofs, toRead) <= g.CbSize()
    ensures !Partial(flat, cells, k, Need(ofs, toRead), g).Undefined?
  {
    hide Partial;
    assert PartSound(flat, cells, k, Need(ofs, toRead), g);
  }

  method ClearRange(dst: array<byte>, at: nat, count: nat)
    requires at + count <= dst.Length
    modifies dst
    ensures dst[..] == Patch(old(dst[..]), at, Zeros(count))
  {
    forall i | at <= i < at + count { dst[i] := 0; }
    ZeroPatch(old(dst[..]), dst[..], at, count);
  }

  /** Read toRead bytes of block k from its byte ofs on, by the three-way choice. */
  method ReadCb(disk: array<byte>, g: Geometry, rl: array<Run>, ghost n: nat, ghost blocks: nat,
                k: nat, ofs: nat, toRead: nat, dst: array<byte>, at: nat) returns (ok: bool)
    requires g.Valid() && Mapped(disk[..], rl[..], n, g.cs) && disk != dst
    requires Sound(Flat(disk[..], rl[..n], g.cs), Cells(rl[..n]), blocks, g)
    requires toRead > 0 && ofs + toRead <= g.CbSize() && at + toRead <= dst.Length
    modifies dst
    ensures ok ==> BlockHere(Flat(disk[..], rl[..n], g.cs), Cells(rl[..n]), k, g)
    ensures Need(ofs, toRead) <= g.CbSize()
    ensures BlockHere(Flat(disk[..], rl[..n], g.cs), Cells(rl[..n]), k, g) ==>
              var o := Partial(Flat(disk[..], rl[..n], g.cs), Cells(rl[..n]), k, Need(ofs, toRead), g);
              && (ok <==> o.Decoded?)
              && (ok ==> dst[..] == Patch(old(dst[..]), at, o.bytes[ofs..ofs + toRead]))
    ensures !ok ==> dst[..] == old(dst[..])
  {
    hide Flat, Cells, HasHole, Decode, Patch, RunBytes, OnDisk, CbRaw, PartSound, Need;
    ghost var data := disk[..];
    ghost var flat, cells := Flat(data, rl[..n], g.cs), Cells(rl[..n]);
    var vcn := k * g.cbClusters;
    NeedFits(ofs, toRead, g.CbSize());
    var found, x := FindVcn(rl, n, vcn);
    Reached(flat, rl[..], n, blocks, k, g);
    if !found {
      return false;
    }
    BlockPlace(rl[..], n, blocks, k, g);
    CellAt(rl[..], n, x, vcn);
    SoundPart(flat, cells, blocks, k, ofs, toRead, g);
    if rl[x].lcn == LCN_HOLE {
      ClearRange(dst, at, toRead);
      assert Zeros(Need(ofs, toRead))[ofs..ofs + toRead] == Zeros(toRead);
      ok := true;
    } else {
      var compressed := IsCbCompressed(rl, n, x, vcn, g.cbClusters);
      if !compressed {
        ReadPlain(disk, g, rl, n, blocks, k, ofs, toRead, dst, at);
        TakeSlice(CbRaw(flat, k, g.CbSize()), Need(ofs, toRead), ofs, toRead);
        ok := true;
      } else {
        ok := ReadCompressed(disk, g, rl, n, blocks, k, ofs, toRead, dst, at);
      }
    }
    assert disk[..] == data;
  }

  lemma PatchNothing(s: seq<byte>)
    ensures Patch(s, 0, []) == s
  {
  }

  /** Blocks touched by a request. */
  lemma BlockRange(pos: nat, count: nat, cb: nat)
    requires cb > 0 && count > 0
    ensures pos == pos / cb * cb + pos % cb
    ensures pos / cb < (pos + count + cb - 1) / cb
  {
    var k, e := pos / cb, (pos + count + cb - 1) / cb;
    assert pos + count + cb - 1 == e * cb + (pos + count + cb - 1) % cb;
    if e <= k { MulMono(e, k, cb); assert false; }
  }

  /** After block k either the request is complete or block k + 1 is needed in full from its start. */
  lemma NextBlock(pos: nat, count: nat, cb: nat, k: nat, e: nat)
    requires cb > 0 && count > 0 && e == (pos + count + cb - 1) / cb
    ensures (k + 1) * cb == k * cb + cb
    ensures pos + count <= k * cb + cb <==> k + 1 >= e
  {
    assert pos + count + cb - 1 == e * cb + (pos + count + cb - 1) % cb;
    MulAdd(k, 1, cb);
    if k + 1 >= e { MulMono(e, k + 1, cb); }
    if e > k + 1 { MulMono(k + 2, e, cb); MulAdd(k + 1, 1, cb); }
  }

  /** The loop of ntfs_compressed_attr_pread over the blocks that a request touches. */
  method ReadBlocks(disk: array<byte>, g: Geometry, rl: array<Run>, ghost n: nat, ghost blocks: nat,
                    pos: nat, count0: nat, dst: array<byte>) returns (total: nat, ok: bool)
    requires g.Valid() && Mapped(disk[..], rl[..], n, g.cs) && disk != dst
    requires Sound(Flat(disk[..], rl[..n], g.cs), Cells(rl[..n]), blocks, g)
    requires 0 < count0 <= dst.Length
    modifies dst
    ensures var d := Delivered(Flat(disk[..], rl[..n], g.cs), Cells(rl[..n]), g, pos / g.CbSize(), pos % g.CbSize(),
                               count0);
            ok == d.ok && total == |d.bytes| && dst[..] == Patch(old(dst[..]), 0, d.bytes)
  {
    hide Flat, Cells, Patch, Delivered, Partial, Sound, Need;
    ghost var data := disk[..];
    ghost var flat, cells := Flat(data, rl[..n], g.cs), Cells(rl[..n]);
    var cbSize := g.CbSize();
    var k: nat, ofs: nat := pos / cbSize, pos % cbSize;
    var end := (pos + count0 + cbSize - 1) / cbSize;
    BlockRange(pos, count0, cbSize);
    ghost var all := Delivered(flat, cells, g, k, ofs, count0);
    ghost var done: seq<byte> := [];
    var count: nat := count0;
    total := 0;
    PatchNothing(dst[..]);
    while k < end
      invariant disk[..] == data && total + count == count0 && ofs < cbSize
      invariant k < end ==> count > 0 && pos + total == k * cbSize + ofs
      invariant k >= end ==> count == 0
      invariant |done| == total && dst[..] == Patch(old(dst[..]), 0, done)
      invariant var rest := Delivered(flat, cells, g, k, ofs, count); all == Delivery(done + rest.bytes, rest.ok)
      decreases end - k
    {
      var toRead := Min(count, cbSize - ofs);
      ok := ReadCb(disk, g, rl, n, blocks, k, ofs, toRead, dst, total);
      if !ok {
        DeliveredStop(flat, cells, g, k, ofs, count);
        assert done + [] == done;
        return;
      }
      ghost var o := Partial(flat, cells, k, Need(ofs, toRead), g);
      DeliveredNext(flat, cells, g, k, ofs, count, o.bytes);
      ghost var more := o.bytes[ofs..ofs + toRead];
      PatchTwice(old(dst[..]), 0, done, more);
      ghost var rest := Delivered(flat, cells, g, k + 1, 0, count - toRead);
      assert done + (more + rest.bytes) == (done + more) + rest.bytes;
      NextBlock(pos, count0, cbSize, k, end);
      done := done + more;
      total, count := total + toRead, count - toRead;
      k, ofs := k + 1, 0;
    }
    DeliveredAll(flat, cells, g, k, ofs);
    assert done + [] == done;
    ok := true;
  }

  /** The length of a request once it is cut at the data size. */
  function Cut(dataSize: nat, pos: nat, count: nat): nat {
    if pos >= dataSize then 0 else Min(count, dataSize - pos)
  }

  /** What the reader owes for a request. */
  ghost function Asked(flat: seq<byte>, cells: seq<int>, g: Geometry, initSize: nat, dataSize: nat, pos: nat,
                       count: nat): Delivery
    requires g.CbSize() > 0
  {
    var whole := Cut(dataSize, pos, count);
    if whole == 0 || pos >= initSize then Delivery(Zeros(whole), true)
    else
      var stored := Min(whole, initSize - pos);
      var d := Delivered(flat, cells, g, pos / g.CbSize(), pos % g.CbSize(), stored);
      if d.ok then Delivery(d.bytes + Zeros(whole - stored), true) else d
  }

  /**
   * ntfs_compressed_attr_pread on a non-resident attribute. The request is cut at the data size, and
   * reads as zeroes from the initialized size on. A block that is not mapped or does not decode ends
   * it with what was read before, or with an error if that is nothing.
   */
  method CompressedPRead(disk: array<byte>, g: Geometry, rl: array<Run>, ghost n: nat, ghost blocks: nat,
                         initSize: nat, dataSize: nat, pos: nat, count0: nat, dst: array<byte>)
    returns (br: int)
    requires g.Valid() && Mapped(disk[..], rl[..], n, g.cs) && disk != dst && count0 <= dst.Length
    requires Sound(Flat(disk[..], rl[..n], g.cs), Cells(rl[..n]), blocks, g)
    modifies dst
    ensures var d := Asked(Flat(disk[..], rl[..n], g.cs), Cells(rl[..n]), g, initSize, dataSize, pos, count0);
            var cut := if pos >= dataSize then 0 else Min(count0, dataSize - pos);
            && |d.bytes| <= cut <= dst.Length && dst[cut..] == old(dst[cut..])
            && dst[..|d.bytes|] == d.bytes
            && br == if d.ok || d.bytes != [] then |d.bytes| else -1
  {
    hide Flat, Cells, Patch, Delivered, Sound;
    ghost var data := disk[..];
    ghost var flat, cells := Flat(data, rl[..n], g.cs), Cells(rl[..n]);
    if count0 == 0 || pos >= dataSize {
      assert dst[..0] == [];
      return 0;
    }
    var whole := Min(count0, dataSize - pos);
    var count: nat := whole;
    if pos + count > initSize {
      if pos >= initSize {
        ClearTail(dst, 0, whole);
        assert dst[..whole] == dst[..0] + Zeros(whole) == Zeros(whole);
        assert disk[..] == data;
        return whole;
      }
      count := initSize - pos;
      ClearTail(dst, count, whole);
    }
    ghost var before := dst[..];
    assert before[count..whole] == Zeros(whole - count) by {
      if count < whole { assert before[count..whole] == dst[..whole][count..]; }
    }
    var total, ok := ReadBlocks(disk, g, rl, n, blocks, pos, count, dst);
    ghost var d := Delivered(flat, cells, g, pos / g.CbSize(), pos % g.CbSize(), count);
    PatchFront(before, d.bytes, whole);
    assert dst[..total] == dst[..whole][..total] == d.bytes;
    if !ok {
      return if total > 0 then total else -1;
    }
    br := total + (whole - count);
    assert disk[..] == data;
  }

  lemma DeliveredFrom(flat: seq<byte>, cells: seq<int>, blocks: nat, g: Geometry, pos: nat, count: nat)
    requires Readable(flat, cells, blocks, g) && pos + count <= blocks * g.CbSize()
    ensures g.CbSize() > 0 && |View(flat, cells, blocks, g)| == blocks * g.CbSize()
    ensures Delivered(flat, cells, g, pos / g.CbSize(), pos % g.CbSize(), count)
            == Delivery(View(flat, cells, blocks, g)[pos..pos + count], true)
  {
    var cb := g.CbSize();
    assert cb > 0;
    hide View, BlockReadable, Delivered, Geometry.CbSize;
    ViewLength(flat, cells, blocks, g);
    assert pos == pos / cb * cb + pos % cb;
    DeliveredText(flat, cells, blocks, g, pos / cb, pos % cb, count, pos);
  }

  /** In a readable attribute every request gets its slice of the text, zeroes behind the initialized size. */
  lemma AskedText(flat: seq<byte>, cells: seq<int>, blocks: nat, g: Geometry, initSize: nat, dataSize: nat, pos: nat,
                  count: nat)
    requires Readable(flat, cells, blocks, g) && Min(initSize, dataSize) <= blocks * g.CbSize()
    ensures |View(flat, cells, blocks, g)| == blocks * g.CbSize()
    ensures Asked(flat, cells, g, initSize, dataSize, pos, count)
            == Delivery(if pos >= dataSize then []
                        else Logical(View(flat, cells, blocks, g), initSize, dataSize)[pos..Min(pos + count, dataSize)],
                        true)
  {
    hide View, BlockReadable, Delivered, Logical, Geometry.CbSize;
    ViewLength(flat, cells, blocks, g);
    var cut, text := Cut(dataSize, pos, count), View(flat, cells, blocks, g);
    if cut > 0 {
      if pos >= initSize {
        LogicalTail(text, initSize, dataSize, pos, cut);
      } else {
        var stored := Min(cut, initSize - pos);
        DeliveredFrom(flat, cells, blocks, g, pos, stored);
        LogicalHead(text, initSize, dataSize, pos, stored, cut);
      }
    }
  }
}

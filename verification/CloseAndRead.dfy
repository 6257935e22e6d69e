/** The whole way round: what is packed when a compressed file is closed reads back as it was. */
module CloseAndRead {
  import opened Bytes
  import opened Lznt1Format
  import opened Runlist
  import opened CompressFree
  import opened GatherRead
  import opened CompressedRead
  import opened CompressedClose
  import opened Slices

  /** Blocks that can be read never lead the decoder out of its buffers. */
  lemma ReadableSound(flat: seq<byte>, cells: seq<int>, blocks: nat, g: Geometry)
    requires Readable(flat, cells, blocks, g)
    ensures Sound(flat, cells, blocks, g)
  {
    hide Partial, BlockReadable, CbBytes;
    forall k, need | 0 <= k < blocks && 0 < need <= g.CbSize() ensures PartSound(flat, cells, k, need, g) {
      if need % SB_SIZE == 0 {
        assert BlockReadable(flat, cells, k, g);
        PartOfBlock(flat, cells, k, need, g);
      }
    }
  }

  /** Where the data of the file ends. */
  function DataEnd(blocks: nat, g: Geometry, used: nat): nat
    requires blocks > 0
  {
    (blocks - 1) * g.CbSize() + used
  }

  lemma SameLogical(a: seq<byte>, b: seq<byte>, m: nat, initSize: nat, dataSize: nat)
    requires m <= |a| && m <= |b| && a[..m] == b[..m] && Min(initSize, dataSize) <= m
    ensures Logical(a, initSize, dataSize) == Logical(b, initSize, dataSize)
  {
    var k := Min(initSize, dataSize);
    assert a[..k] == a[..m][..k] && b[..k] == b[..m][..k];
  }

  lemma PositiveSize(g: Geometry)
    requires g.Valid()
    ensures g.CbSize() > 0
  {
    MulMono(1, g.cbClusters, g.cs);
  }

  lemma EndFits(blocks: nat, g: Geometry, used: nat)
    requires blocks > 0 && used <= g.CbSize()
    ensures DataEnd(blocks, g, used) <= blocks * g.CbSize()
  {
    MulAdd(blocks - 1, 1, g.CbSize());
  }

  /** Two attributes with the same text up to the end of the data answer every request alike. */
  lemma SameAnswers(flat: seq<byte>, cells: seq<int>, flat': seq<byte>, cells': seq<int>, blocks: nat, g: Geometry,
                    used: nat, initSize: nat, dataSize: nat, pos: nat, count: nat)
    requires blocks > 0 && used <= g.CbSize() && Readable(flat, cells, blocks, g)
    requires Kept(flat, cells, flat', cells', blocks, g, used)
    requires Min(initSize, dataSize) <= DataEnd(blocks, g, used)
    ensures g.CbSize() > 0 && Asked(flat', cells', g, initSize, dataSize, pos, count).ok
    ensures Asked(flat', cells', g, initSize, dataSize, pos, count)
            == Asked(flat, cells, g, initSize, dataSize, pos, count)
  {
    hide View, BlockReadable, Asked, Logical;
    PositiveSize(g);
    EndFits(blocks, g, used);
    ViewLength(flat, cells, blocks - 1, g);
    ViewLength(flat', cells', blocks - 1, g);
    AskedText(flat, cells, blocks, g, initSize, dataSize, pos, count);
    AskedText(flat', cells', blocks, g, initSize, dataSize, pos, count);
    SameLogical(View(flat, cells, blocks, g), View(flat', cells', blocks, g), DataEnd(blocks, g, used), initSize,
                dataSize);
  }

  lemma KeptReadable(flat: seq<byte>, cells: seq<int>, flat': seq<byte>, cells': seq<int>, blocks: nat, g: Geometry,
                     used: nat)
    requires blocks > 0 && used <= g.CbSize() && Readable(flat, cells, blocks, g)
    requires Kept(flat, cells, flat', cells', blocks, g, used)
    ensures Readable(flat', cells', blocks, g)
  {
  }

  /**
   * Closing a file and reading it: any request gets, without an error, exactly the bytes it would
   * have got before the file was closed.
   */
  method CloseThenRead(disk: array<byte>, a: Attr, ghost blocks: nat, w: nat, offs: nat, updateFrom: int,
                       ghost used: nat, initSize: nat, dataSize: nat, pos: nat, count: nat, dst: array<byte>)
    returns (br: int)
    requires a.Valid() && w < a.n && used <= a.cbClusters * a.cs && disk != dst && count <= dst.Length
    requires Open(disk[..], a.rl[..], a.n, blocks, Geometry(a.cs, a.cbClusters))
    requires EndsIn(a.rl[..], w, offs, blocks, Geometry(a.cs, a.cbClusters), used)
    requires Min(initSize, dataSize) <= DataEnd(blocks, Geometry(a.cs, a.cbClusters), used)
    modifies disk, a, a.rl, a.vol, dst
    ensures Geometry(a.cs, a.cbClusters).CbSize() > 0
    ensures var before := Asked(old(Flat(disk[..], a.rl[..a.n], a.cs)), old(Cells(a.rl[..a.n])),
                                Geometry(a.cs, a.cbClusters), initSize, dataSize, pos, count);
            before.ok && br == |before.bytes| <= dst.Length && dst[..br] == before.bytes
  {
    ghost var g := Geometry(a.cs, a.cbClusters);
    ghost var flat, cells := Flat(disk[..], a.rl[..a.n], a.cs), Cells(a.rl[..a.n]);
    assert Readable(flat, cells, blocks, g) && g.Valid();
    hide Flat, Cells, Readable, Kept, Open, EndsIn, Asked, Sound, Released, ValidCompressed, Geometry.Valid, Clusters;
    var _, _, _, _ := Close(disk, a, blocks, w, offs, updateFrom, used);
    ghost var flat', cells' := Flat(disk[..], a.rl[..a.n], a.cs), Cells(a.rl[..a.n]);
    KeptReadable(flat, cells, flat', cells', blocks, g, used);
    ReadableSound(flat', cells', blocks, g);
    SameAnswers(flat, cells, flat', cells', blocks, g, used, initSize, dataSize, pos, count);
    br := CompressedPRead(disk, Geometry(a.cs, a.cbClusters), a.rl, a.n, blocks, initSize, dataSize, pos, count, dst);
  }
}

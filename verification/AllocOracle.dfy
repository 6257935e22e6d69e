/** The occupancy oracle the allocator consults: a set-only cluster bitmap (libntfs/fsck.c). */
module AllocOracle {
  import opened Bits
  import opened ShadowBlock
  import opened ShadowBitmap

  ghost predicate CleanFrom(b: Block, live: nat)
    requires Sized(b)
  {
    forall i :: live <= i < BLOCK_BITS ==> !Holds(b, i)
  }

  /** No bit past the end of the volume is set. */
  ghost predicate Clean(nr: nat, blocks: seq<Block>)
    requires nr > 0 && |blocks| == (nr - 1) / BLOCK_BITS + 1
    requires forall k :: 0 <= k < |blocks| ==> Sized(blocks[k])
  {
    forall k :: 0 <= k < |blocks| ==> CleanFrom(blocks[k], Live(nr, k))
  }

  lemma RangedClean(b: Block, r: Block, rel: nat, n: nat, live: nat)
    requires Sized(b) && Sized(r) && rel + n <= live && CleanFrom(b, live) && Ranged(b, r, rel, n, true)
    ensures CleanFrom(r, live)
  {
    hide Holds;
  }

  lemma OnesStay(b: Block, rel: nat, n: nat)
    requires b.Ones?
    ensures Ranged(b, b, rel, n, true)
  {
  }

  /** Byte number pos of the bitmap with the bits of s added to was. */
  ghost predicate Covered(was: bv8, now: bv8, pos: int, s: set<int>) {
    forall b :: 0 <= b < 8 ==> (ByteBit(now, b) <==> ByteBit(was, b) || 8 * pos + b in s)
  }

  lemma OrByte(was: bv8, src: seq<bv8>, off: nat, k: nat, pos: nat, s: set<int>)
    requires |src| == BUF_SIZE && off < BUF_SIZE && pos == k * BUF_SIZE + off
    requires forall i :: 0 <= i < BLOCK_BITS ==> (Bit(src, i) <==> k * BLOCK_BITS + i in s)
    ensures Covered(was, was | src[off], pos, s)
  {
    hide ByteBit;
    forall b | 0 <= b < 8 ensures ByteBit(was | src[off], b) <==> ByteBit(was, b) || 8 * pos + b in s {
      ByteOr(was, src[off], b);
      assert Bit(src, 8 * off + b) <==> k * BLOCK_BITS + (8 * off + b) in s;
      assert (8 * off + b) / 8 == off && (8 * off + b) % 8 == b;
    }
  }

  class Oracle {
    const nrClusters: nat
    var blocks: seq<Block>
    var setcnt: seq<int>
    ghost var taken: set<int>

    ghost predicate Valid()
      reads this
    {
      Laws(nrClusters, blocks, setcnt, taken) && Clean(nrClusters, blocks)
    }

    constructor (nr: nat)
      requires nr > 0
      ensures Valid() && nrClusters == nr && taken == {}
    {
      nrClusters := nr;
      blocks := seq((nr - 1) / BLOCK_BITS + 1, k => Free);
      setcnt := seq((nr - 1) / BLOCK_BITS + 1, k => 0);
      taken := {};
    }

    method Store(idx: nat, b: Block, cnt: int, ghost rel: nat, ghost n: nat)
      requires Valid() && idx < |blocks| && rel + n <= Live(nrClusters, idx)
      requires Sized(b) && Counted(b, cnt, Live(nrClusters, idx)) && Ranged(blocks[idx], b, rel, n, true)
      modifies this
      ensures Valid() && taken == Updated(old(taken), idx * BLOCK_BITS + rel, n, true)
    {
      StoreKeeps(nrClusters, blocks, setcnt, taken, idx, b, cnt, rel, n, true);
      hide Counted, Ranged, Shows, CleanFrom, Holds;
      assert CleanFrom(blocks[idx], Live(nrClusters, idx));
      RangedClean(blocks[idx], b, rel, n, Live(nrClusters, idx));
      blocks, setcnt := blocks[idx := b], setcnt[idx := cnt];
      taken := Updated(taken, idx * BLOCK_BITS + rel, n, true);
    }

    /** The part of a range that lies in one block. */
    method SetPiece(idx: nat, rel: nat, n: nat)
      requires Valid() && idx < |blocks| && 0 < n && rel + n <= Live(nrClusters, idx)
      modifies this
      ensures Valid() && taken == Updated(old(taken), idx * BLOCK_BITS + rel, n, true)
    {
      hide Bit, Holds, Clean, Updated;
      ghost var live := Live(nrClusters, idx);
      var cur := blocks[idx];
      assert Shows(cur, taken, idx * BLOCK_BITS, live);
      if cur.Ones? {
        OnesStay(cur, rel, n);
        Store(idx, cur, setcnt[idx], rel, n);
      } else if cur.Free? && rel == 0 && n == BLOCK_BITS {
        OnesRanged(cur, taken, idx * BLOCK_BITS);
        Store(idx, Ones, setcnt[idx], rel, n);
      } else {
        var bits, c := Materialize(cur, setcnt[idx], live);
        MaterializedShows(cur, bits, taken, idx * BLOCK_BITS, live);
        var r, c', _ := SetBits(bits, c, rel, n, live, taken, idx * BLOCK_BITS);
        var b := TryCollapse(r, c', live);
        RangedThrough(cur, bits, r, b, rel, n, true);
        Store(idx, b, c', rel, n);
      }
    }

    /** ntfs_fsck_set_alloc_lcnbmp_range */
    method SetRange(lcn: nat, length: int) returns (ok: bool)
      requires Valid() && lcn + length <= nrClusters
      modifies this
      ensures Valid() && (ok <==> length > 0)
      ensures taken == if ok then Updated(old(taken), lcn, length, true) else old(taken)
    {
      hide Laws, Clean, Updated;
      if length <= 0 {
        return false;
      }
      var idx, e := lcn / BLOCK_BITS, (lcn + length - 1) / BLOCK_BITS;
      var rel, remain := lcn, length;
      UpdatedNone(taken, lcn, true);
      while idx <= e
        invariant 0 <= remain <= length && Valid()
        invariant remain > 0 ==> AtPiece(lcn, length, remain, idx, rel)
        invariant taken == Updated(old(taken), lcn, length - remain, true)
        decreases e - idx
      {
        var n: nat;
        rel, n := NextPiece(lcn, length, remain, idx, rel, nrClusters);
        ShapeOf();
        UpdatedMore(old(taken), lcn, length - remain, n, true);
        SetPiece(idx, rel, n);
        remain := remain - n;
        if remain <= 0 { break; }
        rel := 0;
        idx := idx + 1;
      }
      ok := true;
    }

    lemma ShapeOf()
      requires Valid()
      ensures nrClusters > 0 && |blocks| == (nrClusters - 1) / BLOCK_BITS + 1
    {
    }

    /** ntfs_fsck_find_alloc_lcnbmp_block */
    method FindBlock(pos: nat) returns (buf: seq<bv8>)
      requires Valid()
      ensures |buf| == BUF_SIZE
      ensures forall i :: 0 <= i < BLOCK_BITS ==> (Bit(buf, i) <==> pos / BUF_SIZE * BLOCK_BITS + i in taken)
    {
      hide Bit;
      var k := pos / BUF_SIZE;
      if k >= |blocks| || blocks[k].Free? {
        buf := Materialized(Free);
      } else {
        buf := Materialized(blocks[k]);
      }
      if k < |blocks| {
        ghost var live := Live(nrClusters, k);
        assert Shows(blocks[k], taken, k * BLOCK_BITS, live) && CleanFrom(blocks[k], live);
        forall i | 0 <= i < BLOCK_BITS ensures Bit(buf, i) <==> k * BLOCK_BITS + i in taken {
          assert i < live ==> (Holds(blocks[k], i) <==> k * BLOCK_BITS + i in taken);
          assert i >= live ==> k * BLOCK_BITS + i >= nrClusters;
        }
      }
    }

    /**
     * ntfs_fsck_or_alloc_lcnbmp: bit b of byte j of the window becomes set exactly when it was
     * set or cluster 8 * (bytePos + j) + b is occupied, wherever block boundaries fall.
     */
    method OrInto(bytePos: nat, nbytes: int, dst: array<bv8>)
      requires Valid() && nbytes <= dst.Length
      modifies dst
      ensures forall j, b :: 0 <= j < nbytes && 0 <= b < 8 ==>
                (ByteBit(dst[j], b) <==> ByteBit(old(dst[j]), b) || 8 * (bytePos + j) + b in taken)
      ensures forall j :: 0 <= j < dst.Length && j >= nbytes ==> dst[j] == old(dst[j])
    {
      hide ByteBit, Laws, Clean, Bit;
      var done := 0;
      ghost var was := dst[..];
      while done < nbytes
        invariant 0 <= done && (done <= nbytes || done == 0) && |was| == dst.Length
        invariant forall j :: 0 <= j < done ==> Covered(was[j], dst[j], bytePos + j, taken)
        invariant forall j :: done <= j < dst.Length ==> dst[j] == was[j]
      {
        var cur := bytePos + done;
        var start := cur / BUF_SIZE * BUF_SIZE;
        var off := cur - start;
        var chunk := BUF_SIZE - off;
        if chunk > nbytes - done {
          chunk := nbytes - done;
        }
        var src := FindBlock(cur);
        for i := 0 to chunk
          invariant forall j :: 0 <= j < done + i ==> Covered(was[j], dst[j], bytePos + j, taken)
          invariant forall j :: done + i <= j < dst.Length ==> dst[j] == was[j]
        {
          OrByte(was[done + i], src, off + i, cur / BUF_SIZE, bytePos + done + i, taken);
          dst[done + i] := dst[done + i] | src[off + i];
        }
        done := done + chunk;
      }
      forall j, b | 0 <= j < nbytes && 0 <= b < 8
        ensures ByteBit(dst[j], b) <==> ByteBit(was[j], b) || 8 * (bytePos + j) + b in taken
      {
        assert Covered(was[j], dst[j], bytePos + j, taken);
      }
    }
  }

  datatype Marking = Marking(lcn: nat, length: int)

  predicate Covers(m: Marking, c: int) {
    m.lcn <= c < m.lcn + m.length
  }

  /** Over any history a cluster is occupied exactly when it was before or some marking covered it. */
  method MarkAll(o: Oracle, marks: seq<Marking>)
    requires o.Valid() && forall k :: 0 <= k < |marks| ==> marks[k].lcn + marks[k].length <= o.nrClusters
    modifies o
    ensures o.Valid()
    ensures forall c :: c in o.taken <==> c in old(o.taken) || exists k :: 0 <= k < |marks| && Covers(marks[k], c)
  {
    hide Laws, Clean, Range;
    for i := 0 to |marks|
      invariant o.Valid()
      invariant forall c :: c in o.taken <==> c in old(o.taken) || exists k :: 0 <= k < i && Covers(marks[k], c)
    {
      ghost var before := o.taken;
      var _ := o.SetRange(marks[i].lcn, marks[i].length);
      assert forall c :: c in o.taken <==> c in before || Covers(marks[i], c);
    }
  }
}

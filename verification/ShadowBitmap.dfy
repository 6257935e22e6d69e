/** The fsck cluster bitmap of a volume: set, clear and check ranges of clusters (libntfs/fsck.c). */
module ShadowBitmap {
  import opened Bits
  import opened ShadowBlock
  import opened Runlist
  import opened DupRunlist

  /** Number of clusters of the volume that block k covers. */
  function Live(nr: nat, k: nat): (r: nat)
    requires k * BLOCK_BITS <= nr
    ensures r <= BLOCK_BITS && k * BLOCK_BITS + r <= nr
  {
    if (k + 1) * BLOCK_BITS <= nr then BLOCK_BITS else nr - k * BLOCK_BITS
  }

  function LastBlock(nr: nat): nat
    requires nr > 0
  {
    (nr - 1) / BLOCK_BITS
  }

  /** Byte of the last block at which ntfs_fsck_fill_unused_lcnbmp begins to set bits. */
  function FillIndex(nr: nat): nat
    requires nr > 0
  {
    (nr - LastBlock(nr) * BLOCK_BITS) / 8
  }

  /** The fill stays inside the block unless the clusters of the volume fill it: then it begins right behind it. */
  lemma FillIndexFits(nr: nat)
    requires nr > 0
    ensures FillIndex(nr) == BUF_SIZE <==> nr % BLOCK_BITS == 0
    ensures FillIndex(nr) < BUF_SIZE <==> nr % BLOCK_BITS != 0
  {
  }

  ghost predicate Shape(nr: nat, blocks: seq<Block>, setcnt: seq<int>) {
    && nr > 0
    && |blocks| == |setcnt| == (nr - 1) / BLOCK_BITS + 1
    && forall k :: 0 <= k < |blocks| ==> Sized(blocks[k]) && Counted(blocks[k], setcnt[k], Live(nr, k))
  }

  /** The blocks represent exactly the set of taken clusters. */
  ghost predicate Laws(nr: nat, blocks: seq<Block>, setcnt: seq<int>, taken: set<int>) {
    && Shape(nr, blocks, setcnt)
    && (forall c :: c in taken ==> 0 <= c < nr)
    && forall k :: 0 <= k < |blocks| ==> Shows(blocks[k], taken, k * BLOCK_BITS, Live(nr, k))
  }

  ghost function Updated(taken: set<int>, a: int, n: nat, v: bool): set<int> {
    if v then taken + Range(a, n) else taken - Range(a, n)
  }

  lemma StoreKeeps(nr: nat, blocks: seq<Block>, setcnt: seq<int>, taken: set<int>,
                   idx: nat, b: Block, cnt: int, rel: nat, n: nat, v: bool)
    requires Laws(nr, blocks, setcnt, taken) && idx < |blocks| && rel + n <= Live(nr, idx)
    requires Sized(b) && Counted(b, cnt, Live(nr, idx)) && Ranged(blocks[idx], b, rel, n, v)
    ensures Laws(nr, blocks[idx := b], setcnt[idx := cnt], Updated(taken, idx * BLOCK_BITS + rel, n, v))
  {
    hide Holds, Counted, Sized;
    var t := Updated(taken, idx * BLOCK_BITS + rel, n, v);
    var bs := blocks[idx := b];
    forall k | 0 <= k < |bs| ensures Shows(bs[k], t, k * BLOCK_BITS, Live(nr, k)) {
      assert Shows(blocks[k], taken, k * BLOCK_BITS, Live(nr, k));
      forall i | 0 <= i < Live(nr, k) ensures Holds(bs[k], i) <==> k * BLOCK_BITS + i in t {
        assert Holds(blocks[k], i) <==> k * BLOCK_BITS + i in taken;
      }
    }
  }

  lemma MaterializedShows(b: Block, bits: seq<bv8>, s: set<int>, base: int, live: nat)
    requires Sized(b) && live <= BLOCK_BITS && |bits| == BUF_SIZE && Shows(b, s, base, live)
    requires forall i :: 0 <= i < BLOCK_BITS ==> (Bit(bits, i) <==> Holds(b, i))
    ensures Shows(Literal(bits), s, base, live)
  {
    hide Bit;
  }

  lemma RangedThrough(before: Block, bits: seq<bv8>, r: seq<bv8>, after: Block, rel: nat, n: nat, v: bool)
    requires Sized(before) && Sized(after) && |bits| == |r| == BUF_SIZE
    requires forall i :: 0 <= i < BLOCK_BITS ==> (Bit(bits, i) <==> Holds(before, i))
    requires Ranged(Literal(bits), Literal(r), rel, n, v)
    requires forall i :: 0 <= i < BLOCK_BITS ==> (Holds(after, i) <==> Bit(r, i))
    ensures Ranged(before, after, rel, n, v)
  {
    hide Bit;
    forall i | 0 <= i < BLOCK_BITS ensures Holds(after, i) <==> if rel <= i < rel + n then v else Holds(before, i) {
      assert Holds(Literal(r), i) <==> if rel <= i < rel + n then v else Holds(Literal(bits), i);
    }
  }

  /** Where the piece of a range that lies in block idx begins and how long it is. */
  ghost predicate AtPiece(lcn: nat, length: int, remain: int, idx: nat, rel: nat) {
    && 0 < remain <= length
    && (remain == length ==> rel == lcn && idx == lcn / BLOCK_BITS)
    && (remain < length ==> rel == 0 && lcn + (length - remain) == idx * BLOCK_BITS)
  }

  /** The piece of the range in block idx; start is the range's start in the first block and 0 in later ones. */
  method NextPiece(lcn: nat, length: int, remain: int, idx: nat, start: nat, ghost nr: nat) returns (rel: nat, n: nat)
    requires AtPiece(lcn, length, remain, idx, start) && lcn + length <= nr
    ensures idx <= (lcn + length - 1) / BLOCK_BITS <= (nr - 1) / BLOCK_BITS
    ensures idx * BLOCK_BITS + rel == lcn + (length - remain)
    ensures 0 < n <= remain && rel + n <= Live(nr, idx)
    ensures n < remain ==> AtPiece(lcn, length, remain - n, idx + 1, 0)
    ensures rel == 0 && n == BLOCK_BITS ==> Live(nr, idx) == BLOCK_BITS
  {
    rel := start;
    if rel != 0 {
      rel := rel - idx * BLOCK_BITS;
    }
    n := BLOCK_BITS - rel;
    if remain < n {
      n := remain;
    }
  }

  lemma UpdatedMore(taken: set<int>, a: int, m: nat, n: nat, v: bool)
    ensures Updated(Updated(taken, a, m, v), a + m, n, v) == Updated(taken, a, m + n, v)
  {
    hide Range;
  }

  /** Marking one part of a range does not change what its later parts overlap. */
  lemma {:induction false} OverlapLater(taken: set<int>, a: int, m: nat, b: int, n: nat)
    requires a + m <= b
    ensures Overlap(taken + Range(a, m), b, n) == Overlap(taken, b, n)
  {
    hide Range;
    if n > 0 { OverlapLater(taken, a, m, b, n - 1); }
  }

  lemma Conserved(taken: set<int>, lcn: int, n: nat)
    ensures |Updated(taken, lcn, n, true)| + Overlap(taken, lcn, n) == |taken| + n
  {
    hide Range, Overlap;
    OverlapCard(taken, lcn, n);
    assert |taken + Range(lcn, n)| == |taken| + |Range(lcn, n)| - |taken * Range(lcn, n)|;
  }

  lemma FreeBits(bits: seq<bv8>)
    requires |bits| == BUF_SIZE && forall i :: 0 <= i < BLOCK_BITS ==> (Bit(bits, i) <==> Holds(Free, i))
    ensures forall i :: 0 <= i < BLOCK_BITS ==> !Bit(bits, i)
  {
    hide Bit;
  }

  lemma OnesLive(b: Block, cnt: int, live: nat)
    requires Sized(b) && live <= BLOCK_BITS && Counted(b, cnt, live)
    ensures b.Ones? ==> live == BLOCK_BITS
  {
  }

  /** Setting the bits past the end of the volume changes neither the clusters nor the count. */
  lemma PadKeeps(nr: nat, blocks: seq<Block>, setcnt: seq<int>, taken: set<int>, bits: seq<bv8>)
    requires Laws(nr, blocks, setcnt, taken) && blocks[|blocks| - 1].Literal? && |bits| == BUF_SIZE
    requires var k := |blocks| - 1;
             forall i :: 0 <= i < Live(nr, k) ==> (Bit(bits, i) <==> Bit(blocks[k].bits, i))
    ensures Laws(nr, blocks[|blocks| - 1 := Literal(bits)], setcnt, taken)
  {
    hide Bit;
    var k := |blocks| - 1;
    CountSame(blocks[k].bits, bits, Live(nr, k));
    assert Shows(blocks[k], taken, k * BLOCK_BITS, Live(nr, k));
    assert Shows(Literal(bits), taken, k * BLOCK_BITS, Live(nr, k)) by {
      forall i | 0 <= i < Live(nr, k) ensures Holds(Literal(bits), i) <==> k * BLOCK_BITS + i in taken {
        assert Holds(blocks[k], i) <==> k * BLOCK_BITS + i in taken;
      }
    }
  }

  lemma ClosedNone()
    ensures Closed([]) && Tight(Body([]))
  {
  }

  lemma HitsStart(s: set<int>, vcn: int, lcn: int)
    ensures Hits(s, vcn, lcn, 0) == []
  {
  }

  lemma OnesHits(b: Block, s: set<int>, vcn: int, base: int)
    requires b.Free? && Shows(b, s, base, BLOCK_BITS)
    ensures Hits(s, vcn, base, BLOCK_BITS) == []
  {
    forall c | base <= c < base + BLOCK_BITS ensures c !in s {
      assert Holds(b, c - base) <==> base + (c - base) in s;
    }
    HitsNone(s, vcn, base, BLOCK_BITS);
  }

  lemma {:induction false} HitsLater(taken: set<int>, a: int, m: nat, vcn: int, b: int, n: nat)
    requires a + m <= b
    ensures Hits(taken + Range(a, m), vcn, b, n) == Hits(taken, vcn, b, n)
  {
    hide Range;
    if n > 0 { HitsLater(taken, a, m, vcn, b, n - 1); }
  }

  lemma MoreHits(taken: set<int>, vcn: int, a: int, m: nat, n: nat, v: bool, before: seq<(int, int)>)
    ensures v ==> before + Hits(taken, vcn, a, m) + Hits(Updated(taken, a, m, v), vcn + m, a + m, n)
                  == before + Hits(taken, vcn, a, m + n)
  {
    hide Range, Hits;
    if v {
      HitsLater(taken, a, m, vcn + m, a + m, n);
      HitsAdd(taken, vcn, a, m, n);
    }
  }

  lemma RangedNone(bits: seq<bv8>, rel: nat, v: bool)
    requires |bits| == BUF_SIZE
    ensures Ranged(Literal(bits), Literal(bits), rel, 0, v)
  {
  }

  /** The duplicates noted by the time i clusters of the range are done. */
  ghost function Noted(before: seq<(int, int)>, s: set<int>, vcn: int, lcn: int, i: nat, bit: bool): seq<(int, int)> {
    if bit then before + Hits(s, vcn, lcn, i) else before
  }

  lemma NotedNext(before: seq<(int, int)>, s: set<int>, vcn: int, lcn: int, i: nat, bit: bool)
    ensures Noted(before, s, vcn, lcn, 0, bit) == before
    ensures Noted(before, s, vcn, lcn, i + 1, bit)
            == if bit && lcn + i in s then Noted(before, s, vcn, lcn, i, bit) + [(vcn + i, lcn + i)]
               else Noted(before, s, vcn, lcn, i, bit)
  {
  }

  /** The check after i of its clusters in this block. */
  ghost predicate Checked(bits: seq<bv8>, r: seq<bv8>, c: int, rel: nat, i: nat, bit: bool, live: nat) {
    && |bits| == |r| == BUF_SIZE && rel + i <= live <= BLOCK_BITS && c == Count(r, live)
    && Ranged(Literal(bits), Literal(r), rel, i, bit)
  }

  ghost predicate Listing(rl: seq<Run>, rl': seq<Run>, tmp': Run, shift: int, found: seq<(int, int)>)
    requires Closed(rl)
  {
    && Closed(rl') && Collecting(tmp', shift) && Pending(rl', tmp') == found
    && (Tight(Body(rl)) ==> Tight(Body(rl')))
    && (rl' == rl || |Pairs(rl')| > |Pairs(rl)|)
  }

  /** The next bit of the range has not been touched yet. */
  lemma StillShown(bits: seq<bv8>, r: seq<bv8>, rel: nat, i: nat, v: bool, live: nat, s: set<int>, base: nat)
    requires |bits| == |r| == BUF_SIZE && rel + i < live <= BLOCK_BITS
    requires Ranged(Literal(bits), Literal(r), rel, i, v) && Shows(Literal(bits), s, base, live)
    ensures Bit(r, rel + i) <==> base + rel + i in s
  {
    hide Bit;
    assert Holds(Literal(r), rel + i) <==> Holds(Literal(bits), rel + i);
    assert Holds(Literal(bits), rel + i) <==> base + (rel + i) in s;
  }

  /** One bit of the check: set or clear it, noting a duplicate. */
  method CheckBit(r: seq<bv8>, c: int, at: nat, bit: bool, vcn: int, lcn: nat, rl: seq<Run>, tmp: Run, ghost live: nat,
                  ghost seen: seq<(int, int)>)
    returns (r': seq<bv8>, c': int, rl': seq<Run>, tmp': Run)
    requires |r| == BUF_SIZE && at < live <= BLOCK_BITS && c == Count(r, live)
    requires Closed(rl) && Collecting(tmp, vcn - lcn) && Pending(rl, tmp) == seen
    ensures r' == SetBit(r, at, bit) && c' == Count(r', live)
    ensures Closed(rl') && Collecting(tmp', vcn - lcn) && (Tight(Body(rl)) ==> Tight(Body(rl')))
    ensures Pending(rl', tmp') == if bit && Bit(r, at) then seen + [(vcn, lcn)] else seen
    ensures rl' == rl || |Pairs(rl')| > |Pairs(rl)|
  {
    hide Bit, SetBit, Closed, Tight, Body, Pending, Pairs;
    var (was, next) := GetAndSet(r, at, bit);
    CountSet(r, at, bit, live);
    r', c', rl', tmp' := next, c, rl, tmp;
    if !was {
      if bit { c' := c + 1; }
    } else if !bit {
      c' := c - 1;
    } else {
      rl', tmp' := NoteDup(rl, tmp, vcn, lcn);
    }
  }

  method CheckNext(bits: seq<bv8>, r: seq<bv8>, c: int, rel: nat, i: nat, bit: bool, vcn: int, base: nat,
                   ghost rl0: seq<Run>,
                   rl: seq<Run>, tmp: Run, ghost live: nat, ghost s: set<int>, ghost seen: seq<(int, int)>)
    returns (r': seq<bv8>, c': int, rl': seq<Run>, tmp': Run)
    requires Checked(bits, r, c, rel, i, bit, live) && rel + i < live && Shows(Literal(bits), s, base, live)
    requires Closed(rl0) && Listing(rl0, rl, tmp, vcn - (base + rel), Noted(seen, s, vcn, base + rel, i, bit))
    ensures Checked(bits, r', c', rel, i + 1, bit, live)
    ensures Listing(rl0, rl', tmp', vcn - (base + rel), Noted(seen, s, vcn, base + rel, i + 1, bit))
  {
    hide Bit, SetBit, Closed, Tight, Body, Pending, Noted, Ranged, Shows, Pairs, Count, Holds;
    StillShown(bits, r, rel, i, bit, live, s, base);
    NotedNext(seen, s, vcn, base + rel, i, bit);
    SetRanged(bits, r, rel, i, bit);
    r', c', rl', tmp' := CheckBit(r, c, rel + i, bit, vcn + i, base + rel + i, rl, tmp, live,
                                  Noted(seen, s, vcn, base + rel, i, bit));
  }

  /** The inner loop of the check: set or clear n bits, noting those that were set twice. */
  method CheckBits(bits: seq<bv8>, cnt: int, rel: nat, n: nat, bit: bool, vcn: int, base: nat,
                   rl: seq<Run>, tmp: Run, ghost live: nat, ghost s: set<int>)
    returns (r: seq<bv8>, c: int, rl': seq<Run>, tmp': Run)
    requires |bits| == BUF_SIZE && rel + n <= live <= BLOCK_BITS && cnt == Count(bits, live)
    requires Shows(Literal(bits), s, base, live) && Closed(rl) && Collecting(tmp, vcn - (base + rel))
    ensures Checked(bits, r, c, rel, n, bit, live)
    ensures Listing(rl, rl', tmp', vcn - (base + rel), Noted(Pending(rl, tmp), s, vcn, base + rel, n, bit))
  {
    ghost var seen := Pending(rl, tmp);
    NotedNext(seen, s, vcn, base + rel, 0, bit);
    RangedNone(bits, rel, bit);
    r, c, rl', tmp' := bits, cnt, rl, tmp;
    assert Checked(bits, r, c, rel, 0, bit, live);
    hide Checked, Listing, Closed, Noted, Shows;
    for i := 0 to n
      invariant Checked(bits, r, c, rel, i, bit, live)
      invariant Listing(rl, rl', tmp', vcn - (base + rel), Noted(seen, s, vcn, base + rel, i, bit))
    {
      r, c, rl', tmp' := CheckNext(bits, r, c, rel, i, bit, vcn, base, rl, rl', tmp', live, s, seen);
    }
  }

  lemma UpdatedNone(taken: set<int>, a: int, v: bool)
    ensures Updated(taken, a, 0, v) == taken && Overlap(taken, a, 0) == 0
  {
  }

  lemma MorePiece(taken: set<int>, a: int, m: nat, n: nat, v: bool)
    ensures Updated(Updated(taken, a, m, v), a + m, n, v) == Updated(taken, a, m + n, v)
    ensures v ==> Overlap(taken, a, m) + Overlap(Updated(taken, a, m, v), a + m, n) == Overlap(taken, a, m + n)
  {
    hide Range, Overlap;
    UpdatedMore(taken, a, m, n, v);
    if v {
      OverlapLater(taken, a, m, a + m, n);
      OverlapAdd(taken, a, m, n);
    }
  }

  lemma OnesRanged(b: Block, s: set<int>, base: int)
    requires b.Free? && Shows(b, s, base, BLOCK_BITS)
    ensures Ranged(b, Ones, 0, BLOCK_BITS, true) && Overlap(s, base, BLOCK_BITS) == 0
  {
    forall c | base <= c < base + BLOCK_BITS ensures c !in s {
      assert Holds(b, c - base) <==> base + (c - base) in s;
    }
    OverlapNone(s, base, BLOCK_BITS);
  }

  lemma LiteralBits(bits: seq<bv8>)
    requires |bits| == BUF_SIZE
    ensures forall i :: 0 <= i < BLOCK_BITS ==> (Holds(Literal(bits), i) <==> Bit(bits, i))
  {
  }

  lemma FreeRanged(b: Block, rel: nat, n: nat)
    requires b.Free?
    ensures Ranged(b, b, rel, n, false)
  {
  }

  class ClusterBitmap {
    const nrClusters: nat
    var blocks: seq<Block>
    var setcnt: seq<int>
    var dupCount: nat
    ghost var taken: set<int>

    ghost predicate Valid()
      reads this
    {
      Laws(nrClusters, blocks, setcnt, taken)
    }

    constructor (nr: nat)
      requires nr > 0
      ensures Valid() && nrClusters == nr && taken == {} && dupCount == 0
    {
      nrClusters := nr;
      blocks := seq((nr - 1) / BLOCK_BITS + 1, k => Free);
      setcnt := seq((nr - 1) / BLOCK_BITS + 1, k => 0);
      dupCount := 0;
      taken := {};
    }

    /** The part of a range that lies in one block. */
    method SetPiece(idx: nat, rel: nat, n: nat, bit: bool)
      requires Valid() && idx < |blocks| && 0 < n && rel + n <= Live(nrClusters, idx)
      modifies this
      ensures Valid() && |blocks| == old(|blocks|)
      ensures taken == Updated(old(taken), idx * BLOCK_BITS + rel, n, bit)
      ensures dupCount == old(dupCount) + if bit then Overlap(old(taken), idx * BLOCK_BITS + rel, n) else 0
    {
      hide Bit, Holds, Overlap, Updated;
      ghost var live := Live(nrClusters, idx);
      ghost var base := idx * BLOCK_BITS;
      var cur := blocks[idx];
      assert Shows(cur, taken, base, live);
      var fullCover := rel == 0 && n == BLOCK_BITS;
      if bit && cur.Free? && fullCover {
        OnesRanged(cur, taken, base);
        Store(idx, Ones, setcnt[idx], rel, n, bit);
      } else if bit || !cur.Free? {
        var bits, c := Materialize(cur, setcnt[idx], live);
        MaterializedShows(cur, bits, taken, base, live);
        if bit {
          var r, c', dup := SetBits(bits, c, rel, n, live, taken, base);
          var b := TryCollapse(r, c', live);
          RangedThrough(cur, bits, r, b, rel, n, bit);
          dupCount := dupCount + dup;
          Store(idx, b, c', rel, n, bit);
        } else {
          var r, c' := ClearBits(bits, c, rel, n, live);
          LiteralBits(r);
          RangedThrough(cur, bits, r, Literal(r), rel, n, bit);
          Store(idx, Literal(r), c', rel, n, bit);
        }
      } else {
        FreeRanged(cur, rel, n);
        Store(idx, cur, setcnt[idx], rel, n, bit);
      }
    }

    method Store(idx: nat, b: Block, cnt: int, ghost rel: nat, ghost n: nat, ghost v: bool)
      requires Valid() && idx < |blocks| && rel + n <= Live(nrClusters, idx)
      requires Sized(b) && Counted(b, cnt, Live(nrClusters, idx)) && Ranged(blocks[idx], b, rel, n, v)
      modifies this`blocks, this`setcnt, this`taken
      ensures Valid() && |blocks| == old(|blocks|)
      ensures taken == Updated(old(taken), idx * BLOCK_BITS + rel, n, v)
    {
      hide Counted, Ranged, Updated;
      StoreKeeps(nrClusters, blocks, setcnt, taken, idx, b, cnt, rel, n, v);
      blocks, setcnt := blocks[idx := b], setcnt[idx := cnt];
      taken := Updated(taken, idx * BLOCK_BITS + rel, n, v);
    }
  
    /** ntfs_fsck_set_lcnbmp_range; an empty or negative length is refused. */
    method SetRange(lcn: nat, length: int, bit: bool) returns (ok: bool)
      requires Valid() && lcn + length <= nrClusters
      modifies this
      ensures Valid()
      ensures ok <==> length > 0
      ensures ok ==> taken == Updated(old(taken), lcn, length, bit)
      ensures ok && bit ==> dupCount == old(dupCount) + |old(taken) * Range(lcn, length)|
      ensures ok && bit ==> |taken| + dupCount == |old(taken)| + old(dupCount) + length
      ensures !bit || !ok ==> dupCount == old(dupCount)
      ensures !ok ==> taken == old(taken)
    {
      hide Laws, Range, Overlap, Updated;
      var last := lcn + length - 1;
      if length <= 0 {
        return false;
      }
      var idx, e := lcn / BLOCK_BITS, last / BLOCK_BITS;
      var rel, remain := lcn, length;
      UpdatedNone(taken, lcn, bit);
      while idx <= e
        invariant 0 <= remain <= length && Valid()
        invariant remain > 0 ==> AtPiece(lcn, length, remain, idx, rel)
        invariant taken == Updated(old(taken), lcn, length - remain, bit)
        invariant dupCount == old(dupCount) + if bit then Overlap(old(taken), lcn, length - remain) else 0
        decreases e - idx
      {
        var n: nat;
        rel, n := NextPiece(lcn, length, remain, idx, rel, nrClusters);
        ShapeOf();
        MorePiece(old(taken), lcn, length - remain, n, bit);
        SetPiece(idx, rel, n, bit);
        remain := remain - n;
        if remain <= 0 { break; }
        rel := 0;
        idx := idx + 1;
      }
      if bit {
        Conserved(old(taken), lcn, length);
        OverlapCard(old(taken), lcn, length);
      }
      ok := true;
    }

    /** The part of a checked run that lies in one block. */
    method CheckPiece(idx: nat, rel: nat, n: nat, bit: bool, vcn: int, rl: seq<Run>, tmp: Run)
      returns (rl': seq<Run>, tmp': Run)
      requires Valid() && idx < |blocks| && 0 < n && rel + n <= Live(nrClusters, idx)
      requires Closed(rl) && Collecting(tmp, vcn - (idx * BLOCK_BITS + rel))
      modifies this`blocks, this`setcnt, this`taken
      ensures Valid()
      ensures taken == Updated(old(taken), idx * BLOCK_BITS + rel, n, bit)
      ensures Closed(rl') && Collecting(tmp', vcn - (idx * BLOCK_BITS + rel))
      ensures Pending(rl', tmp') == Pending(rl, tmp)
                                    + if bit then Hits(old(taken), vcn, idx * BLOCK_BITS + rel, n) else []
      ensures Tight(Body(rl)) ==> Tight(Body(rl'))
      ensures rl' == rl || |Pairs(rl')| > |Pairs(rl)|
    {
      hide Bit, Holds, Hits, Updated, Pending, Tight, Body, Closed, Collecting;
      ghost var live := Live(nrClusters, idx);
      var base := idx * BLOCK_BITS;
      var cur := blocks[idx];
      assert Shows(cur, taken, base, live);
      rl', tmp' := rl, tmp;
      var fullCover := rel == 0 && n == BLOCK_BITS;
      if bit && cur.Free? && fullCover {
        OnesRanged(cur, taken, base);
        OnesHits(cur, taken, vcn, base);
        Store(idx, Ones, setcnt[idx], rel, n, bit);
      } else if !bit && cur.Free? {
        FreeRanged(cur, rel, n);
        Store(idx, cur, setcnt[idx], rel, n, bit);
      } else {
        var bits, c := Materialize(cur, setcnt[idx], live);
        MaterializedShows(cur, bits, taken, base, live);
        var r, c';
        r, c', rl', tmp' := CheckBits(bits, c, rel, n, bit, vcn, base, rl, tmp, live, taken);
        var b := TryCollapse(r, c', live);
        RangedThrough(cur, bits, r, b, rel, n, bit);
        Store(idx, b, c', rel, n, bit);
      }
    }

    /**
     * ntfs_fsck_check_and_set_lcnbmp for one run: a cluster that was already taken is
     * reported with its vcn; a run without length gives the null list.
     */
    method CheckAndSet(run: Run, bit: bool, rl: seq<Run>) returns (dup: seq<Run>)
      requires Valid() && 0 <= run.lcn && run.lcn + run.length <= nrClusters && Closed(rl)
      modifies this`blocks, this`setcnt, this`taken
      ensures Valid() && Closed(dup)
      ensures run.length <= 0 ==> dup == [] && taken == old(taken)
      ensures run.length > 0 ==> taken == Updated(old(taken), run.lcn, run.length, bit)
      ensures run.length > 0 ==> Pairs(dup) == Pairs(rl)
                                               + if bit then Hits(old(taken), run.vcn, run.lcn, run.length) else []
      ensures Tight(Body(rl)) ==> Tight(Body(dup))
      ensures run.length > 0 && |Pairs(dup)| == |Pairs(rl)| ==> dup == rl
      ensures run.length > 0 && bit ==> |taken| + |Pairs(dup)| == |old(taken)| + |Pairs(rl)| + run.length
    {
      hide Laws, Range, Hits, Updated, Tight, Body, Closed, Pairs;
      var lcn: nat, length := run.lcn, run.length;
      if length <= 0 {
        ClosedNone();
        return [];
      }
      var last := lcn + length - 1;
      var idx, e := lcn / BLOCK_BITS, last / BLOCK_BITS;
      var rel, remain := lcn, length;
      var tmp := Run(0, -1, 0);
      var checkedVcn := 0;
      dup := rl;
      UpdatedNone(taken, lcn, bit);
      HitsStart(taken, run.vcn, lcn);
      while idx <= e
        invariant 0 <= remain <= length && Valid() && checkedVcn == length - remain
        invariant remain > 0 ==> AtPiece(lcn, length, remain, idx, rel)
        invariant taken == Updated(old(taken), lcn, length - remain, bit)
        invariant Closed(dup) && Collecting(tmp, run.vcn - lcn) && (Tight(Body(rl)) ==> Tight(Body(dup)))
        invariant dup == rl || |Pairs(dup)| > |Pairs(rl)|
        invariant Pending(dup, tmp) == Pairs(rl) + if bit then Hits(old(taken), run.vcn, lcn, length - remain) else []
        decreases e - idx
      {
        var n: nat;
        rel, n := NextPiece(lcn, length, remain, idx, rel, nrClusters);
        ShapeOf();
        MorePiece(old(taken), lcn, length - remain, n, bit);
        MoreHits(old(taken), run.vcn, lcn, length - remain, n, bit, Pairs(rl));
        dup, tmp := CheckPiece(idx, rel, n, bit, run.vcn + checkedVcn, dup, tmp);
        remain := remain - n;
        checkedVcn := checkedVcn + n;
        if remain <= 0 { break; }
        rel := 0;
        idx := idx + 1;
      }
      if tmp.lcn >= 0 {
        dup := MakeDup(dup, tmp);
      } else {
        assert Pairs(dup) + [] == Pairs(dup);
      }
      if bit {
        Conserved(old(taken), lcn, length);
        HitsExact(old(taken), run.vcn, lcn, length);
      }
    }

    /**
     * ntfs_fsck_find_lcnbmp_block: the block of the on-disk bitmap at byte pos. Bits past
     * the end of the volume read as set in the last block, and are set in its storage.
     */
    method FindBlock(pos: nat) returns (buf: seq<bv8>)
      requires Valid()
      requires pos / BUF_SIZE == LastBlock(nrClusters)
               ==> blocks[pos / BUF_SIZE].Ones? || FillIndex(nrClusters) < BUF_SIZE
      modifies this`blocks
      ensures Valid() && |buf| == BUF_SIZE
      ensures var k := pos / BUF_SIZE;
              forall i :: 0 <= i < BLOCK_BITS ==>
                (Bit(buf, i) <==> k < |blocks| && (k * BLOCK_BITS + i in taken || k * BLOCK_BITS + i >= nrClusters))
    {
      hide Bit, Holds;
      var k := pos / BUF_SIZE;
      var lastIdx := LastBlock(nrClusters);
      FillIndexFits(nrClusters);
      if k >= |blocks| {
        buf := Materialized(Free);
        FreeBits(buf);
        return;
      }
      assert Shows(blocks[k], taken, k * BLOCK_BITS, Live(nrClusters, k));
      OnesLive(blocks[k], setcnt[k], Live(nrClusters, k));
      buf := Materialized(blocks[k]);
      if !blocks[k].Ones? && k == lastIdx {
        var was := buf;
        buf := FillUnused(buf, nrClusters - lastIdx * BLOCK_BITS);
        if blocks[k].Literal? {
          PadKeeps(nrClusters, blocks, setcnt, taken, buf);
          blocks := blocks[k := Literal(buf)];
        }
      }
    }

    lemma ShapeOf()
      requires Valid()
      ensures nrClusters > 0 && |blocks| == (nrClusters - 1) / BLOCK_BITS + 1
    {
    }
  }
}

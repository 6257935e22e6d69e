/** ntfs_attr_find_vcn and the run-by-run gather read of ntfs_attr_pread_i. */
module GatherRead {
  import opened Bytes
  import opened Runlist
  import opened ClusterIO
  import opened CompressFree
  import opened Slices

  /** A fully mapped, non-resident attribute on a disk. */
  ghost predicate Mapped(disk: seq<byte>, rl: seq<Run>, n: nat, cs: nat) {
    && cs > 0 && Listed(rl, n) && rl[0].vcn == 0 && AllOnDisk(|disk|, rl[..n], cs)
  }

  /** ntfs_attr_find_vcn: the run that holds vcn, if the list reaches that far. */
  method FindVcn(rl: array<Run>, ghost n: nat, vcn: int) returns (found: bool, x: nat)
    requires Listed(rl[..], n) && rl[0].vcn == 0 && vcn >= 0
    ensures found <==> vcn < rl[n].vcn
    ensures found ==> x < n && rl[x].vcn <= vcn < rl[x].vcn + rl[x].length
  {
    x := 0;
    VcnOrder(rl[..], n, 0);
    while rl[x].length != 0
      invariant 0 <= x <= n && rl[x].vcn <= vcn
      decreases n - x
    {
      assert x < n;
      VcnOrder(rl[..], n, x + 1);
      if vcn < rl[x + 1].vcn {
        return true, x;
      }
      x := x + 1;
    }
    found := false;
  }

  /** vcn and byte offset of a run correspond. */
  lemma VcnOffset(rl: seq<Run>, n: nat, x: nat, cs: nat)
    requires Listed(rl, n) && rl[0].vcn == 0 && x <= n
    ensures Offset(rl[..n], x, cs) == rl[x].vcn * cs
  {
    hide Cells;
    EndVcn(rl, n, x);
    EndVcn(rl, n, 0);
    CellsSplit(rl[..n], x);
    assert rl[..n][0..] == rl[..n];
  }

  /** What a read sees: the mapped bytes up to the initialized size, zeroes from there on. */
  ghost function Logical(flat: seq<byte>, initSize: nat, dataSize: nat): (s: seq<byte>)
    requires Min(initSize, dataSize) <= |flat|
    ensures |s| == dataSize
  {
    if initSize < dataSize then flat[..initSize] + Zeros(dataSize - initSize) else flat[..dataSize]
  }

  /** Byte by byte: what is mapped below the initialized size, zero from there on. */
  lemma LogicalAt(flat: seq<byte>, initSize: nat, dataSize: nat, k: nat)
    requires Min(initSize, dataSize) <= |flat| && k < dataSize
    ensures Logical(flat, initSize, dataSize)[k] == if k < initSize then flat[k] else 0
  {
  }

  /** ntfs_pread of count bytes at pos into dst at offset to. */
  method DevRead(disk: array<byte>, pos: nat, count: nat, dst: array<byte>, to: nat)
    requires pos + count <= disk.Length && to + count <= dst.Length && disk != dst
    modifies dst
    ensures dst[..] == Patch(old(dst[..]), to, disk[pos..pos + count])
  {
    forall k | 0 <= k < count { dst[to + k] := disk[pos + k]; }
  }

  lemma ZeroPatch(before: seq<byte>, after: seq<byte>, to: nat, count: nat)
    requires |before| == |after| && to + count <= |before|
    requires forall k :: 0 <= k < |before| ==> after[k] == if to <= k < to + count then 0 else before[k]
    ensures after == Patch(before, to, Zeros(count))
  {
  }

  /** One chunk of the gather loop: count bytes of run x from its byte o on. */
  method ReadRun(disk: array<byte>, cs: nat, ghost runs: seq<Run>, x: nat, run: Run, o: nat, count: nat,
                 dst: array<byte>, to: nat)
    requires Positive(runs) && AllOnDisk(disk.Length, runs, cs) && x < |runs| && run == runs[x]
    requires o + count <= run.length * cs && to + count <= dst.Length && disk != dst
    modifies dst
    ensures Offset(runs, x, cs) + o + count <= |Flat(disk[..], runs, cs)|
    ensures dst[..] == Patch(old(dst[..]), to,
                             Flat(disk[..], runs, cs)[Offset(runs, x, cs) + o..Offset(runs, x, cs) + o + count])
  {
    hide Flat, Offset, Patch;
    ghost var data := disk[..];
    ghost var flat := Flat(data, runs, cs);
    ghost var at := Offset(runs, x, cs);
    FlatSlice(disk[..], runs, x, cs);
    ghost var bytes := RunBytes(disk[..], run, cs);
    SliceSlice(flat, at, run.length * cs, o, count);
    if run.lcn < 0 {
      forall k | 0 <= k < count { dst[to + k] := 0; }
      assert bytes[o..o + count] == Zeros(count);
      ZeroPatch(old(dst[..]), dst[..], to, count);
    } else {
      Bounds(run, cs);
      SliceSlice(disk[..], run.lcn * cs, run.length * cs, o, count);
      DevRead(disk, run.lcn * cs + o, count, dst, to);
    }
    assert disk[..] == data;
  }

  lemma PatchFront(before: seq<byte>, chunk: seq<byte>, br: nat)
    requires |chunk| <= br <= |before|
    ensures Patch(before, 0, chunk)[..br] == chunk + before[|chunk|..br]
    ensures Patch(before, 0, chunk)[br..] == before[br..]
  {
  }

  method ClearTail(dst: array<byte>, a: nat, b: nat)
    requires a <= b <= dst.Length
    modifies dst
    ensures dst[..b] == old(dst[..a]) + Zeros(b - a) && dst[b..] == old(dst[b..])
  {
    forall k | a <= k < b { dst[k] := 0; }
  }

  lemma LogicalTail(flat: seq<byte>, initSize: nat, dataSize: nat, pos: nat, br: nat)
    requires Min(initSize, dataSize) <= |flat| && initSize <= pos && pos + br <= dataSize
    ensures Logical(flat, initSize, dataSize)[pos..pos + br] == Zeros(br)
  {
  }

  lemma LogicalHead(flat: seq<byte>, initSize: nat, dataSize: nat, pos: nat, count: nat, br: nat)
    requires Min(initSize, dataSize) <= |flat| && count <= br && pos + br <= dataSize
    requires if pos + br > initSize then pos + count == initSize else count == br
    ensures Logical(flat, initSize, dataSize)[pos..pos + br] == flat[pos..pos + count] + Zeros(br - count)
  {
  }

  lemma PatchNone(s: seq<byte>, to: nat, flat: seq<byte>, pos: nat)
    requires pos <= |flat| && to <= |s|
    ensures s == Patch(s, to, flat[pos..pos])
  {
  }

  /** The run found for pos / cs holds byte pos. */
  lemma StartRun(disk: seq<byte>, rl: seq<Run>, n: nat, cs: nat, pos: nat)
    requires Mapped(disk, rl, n, cs) && pos < |Flat(disk, rl[..n], cs)|
    ensures pos / cs < rl[n].vcn
    ensures forall x :: 0 <= x < n && rl[x].vcn <= pos / cs < rl[x].vcn + rl[x].length ==>
              0 <= pos - rl[x].vcn * cs < rl[x].length * cs
  {
    hide Flat, Cells;
    var q := pos / cs;
    FlatEnd(disk, rl[..n], cs);
    VcnOffset(rl, n, n, cs);
    assert pos == q * cs + pos % cs;
    if rl[n].vcn <= q { MulMono(rl[n].vcn, q, cs); assert false; }
    forall x | 0 <= x < n && rl[x].vcn <= q < rl[x].vcn + rl[x].length
      ensures 0 <= pos - rl[x].vcn * cs < rl[x].length * cs
    {
      VcnZero(rl, n, x);
      MulMono(rl[x].vcn, q, cs);
      MulMono(q + 1, rl[x].vcn + rl[x].length, cs);
      assert (rl[x].vcn + rl[x].length) * cs == rl[x].vcn * cs + rl[x].length * cs;
      assert (q + 1) * cs == q * cs + cs;
    }
  }

  /** The gather loop proper: count bytes from pos, all of them mapped. */
  method GatherLoop(disk: array<byte>, cs: nat, rl: array<Run>, ghost n: nat, pos: nat, count0: nat, dst: array<byte>,
                    to: nat)
    requires Mapped(disk[..], rl[..], n, cs) && disk != dst && 0 < count0 && to + count0 <= dst.Length
    requires pos + count0 <= |Flat(disk[..], rl[..n], cs)|
    modifies dst
    ensures dst[..] == Patch(old(dst[..]), to, Flat(disk[..], rl[..n], cs)[pos..pos + count0])
  {
    hide Flat, Cells, Patch, Offset, RunBytes, OnDisk;
    ghost var runs, data := rl[..n], disk[..];
    ghost var flat := Flat(data, runs, cs);
    var found, x := FindVcn(rl, n, pos / cs);
    StartRun(data, rl[..], n, cs, pos);
    var ofs: nat := pos - rl[x].vcn * cs;
    VcnOffset(rl[..], n, x, cs);
    var total: nat, count: nat := 0, count0;
    PatchNone(dst[..], to, flat, pos);
    while count != 0
      invariant x <= n && total + count == count0 && disk[..] == data && rl[..n] == runs
      invariant count > 0 ==> x < n && pos + total == Offset(runs, x, cs) + ofs && ofs < rl[x].length * cs
      invariant dst[..] == Patch(old(dst[..]), to, flat[pos..pos + total])
      decreases count
    {
      var toRead := rl[x].length * cs - ofs;
      if count < toRead { toRead := count; }
      assert runs[x] == rl[x];
      ReadRun(disk, cs, runs, x, rl[x], ofs, toRead, dst, to + total);
      PatchTwice(old(dst[..]), to, flat[pos..pos + total], flat[pos + total..pos + total + toRead]);
      assert flat[pos..pos + total] + flat[pos + total..pos + total + toRead] == flat[pos..pos + total + toRead];
      OffsetNext(runs, x, cs);
      total, count := total + toRead, count - toRead;
      x, ofs := x + 1, 0;
      if count > 0 {
        FlatEnd(data, runs, cs);
        RunSpace(runs, x, cs);
      }
    }
  }

  /** ntfs_attr_pread_i on a plain non-resident attribute: exactly the requested slice of the
      logical bytes, cut at the data size, whatever the fragmentation. */
  method PRead(disk: array<byte>, cs: nat, rl: array<Run>, ghost n: nat, initSize: nat, dataSize: nat,
               pos: nat, count0: nat, dst: array<byte>)
    returns (br: nat)
    requires Mapped(disk[..], rl[..], n, cs) && disk != dst && count0 <= dst.Length
    requires Min(initSize, dataSize) <= |Flat(disk[..], rl[..n], cs)|
    modifies dst
    ensures br == if pos >= dataSize then 0 else Min(count0, dataSize - pos)
    ensures dst[..br] == if br == 0 then [] else Logical(Flat(disk[..], rl[..n], cs), initSize, dataSize)[pos..pos + br]
    ensures dst[br..] == old(dst[br..])
  {
    hide Flat, Cells, Logical, Patch;
    ghost var flat := Flat(disk[..], rl[..n], cs);
    ghost var data := disk[..];
    if count0 == 0 || pos >= dataSize {
      assert dst[..0] == [];
      return 0;
    }
    br := Min(count0, dataSize - pos);
    var count: nat := br;
    if pos + count > initSize {
      if pos >= initSize {
        ClearTail(dst, 0, br);
        LogicalTail(flat, initSize, dataSize, pos, br);
        assert dst[..br] == dst[..0] + Zeros(br) == Zeros(br);
        assert disk[..] == data;
        return;
      }
      count := initSize - pos;
      ClearTail(dst, count, br);
    }
    ghost var before := dst[..];
    assert before[count..br] == Zeros(br - count) by {
      if count < br { assert before[count..br] == dst[..br][count..]; }
    }
    GatherLoop(disk, cs, rl, n, pos, count, dst, 0);
    PatchFront(before, flat[pos..pos + count], br);
    LogicalHead(flat, initSize, dataSize, pos, count, br);
    assert disk[..] == data;
  }

  /** read_clusters: toRead bytes from byte offs behind the start of run r. */
  method ReadClusters(disk: array<byte>, cs: nat, rl: array<Run>, ghost n: nat, r: nat, offs: nat, toRead: nat,
                      inbuf: array<byte>)
    returns (got: nat)
    requires r < n <= rl.Length && Writable(disk.Length, rl[..n], r, cs) && disk != inbuf
    requires offs < rl[r].length * cs && 0 < toRead <= inbuf.Length
    requires Offset(rl[..n], r, cs) + offs + toRead <= |Flat(disk[..], rl[..n], cs)|
    modifies inbuf
    ensures got == toRead
    ensures inbuf[..toRead]
            == Flat(disk[..], rl[..n], cs)[Offset(rl[..n], r, cs) + offs..Offset(rl[..n], r, cs) + offs + toRead]
  {
    hide Flat, RunBytes, OnDisk, Offset, Apart, Cells, Patch;
    ghost var runs, data := rl[..n], disk[..];
    ghost var flat := Flat(data, runs, cs);
    ghost var start := Offset(runs, r, cs) + offs;
    got := 0;
    var x, first := r, true;
    PatchNone(inbuf[..], 0, flat, start);
    FlatEnd(data, runs, cs);
    while got < toRead
      invariant r <= x <= n && got <= toRead && rl[..n] == runs && disk[..] == data
      invariant if first then x == r && got == 0
                else got < toRead ==> x < n && start + got == Offset(runs, x, cs)
      invariant inbuf[..] == Patch(old(inbuf[..]), 0, flat[start..start + got])
      decreases toRead - got
    {
      var o := if first then offs else 0;
      var count := rl[x].length * cs - o;
      if toRead - got < count {
        count := toRead - got;
      }
      assert rl[x] == runs[x];
      RunSpace(runs, x, cs);
      ReadRun(disk, cs, runs, x, rl[x], o, count, inbuf, got);
      PatchTwice(old(inbuf[..]), 0, flat[start..start + got], flat[start + got..start + got + count]);
      assert flat[start..start + got] + flat[start + got..start + got + count] == flat[start..start + got + count];
      OffsetNext(runs, x, cs);
      got, x, first := got + count, x + 1, false;
    }
    PatchFront(old(inbuf[..]), flat[start..start + toRead], toRead);
    assert disk[..] == data;
  }
}

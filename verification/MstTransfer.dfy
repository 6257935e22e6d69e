/** Reading and writing protected blocks: ntfs_mst_pread and ntfs_mst_pwrite (libntfs/device.c). */
module MstTransfer {
  import opened Bytes
  import opened MstFixup
  import opened MstDevice
  import opened Slices

  /** Words in k blocks. */
  function Span(k: int, bk: nat): int {
    k * bk
  }

  ghost function Concat(bs: seq<Record>): seq<word> {
    if bs == [] then [] else Concat(bs[..|bs| - 1]) + bs[|bs| - 1]
  }

  ghost predicate Uniform(bs: seq<Record>, bk: nat) {
    forall i :: 0 <= i < |bs| ==> |bs[i]| == bk
  }

  lemma ConcatSnoc(bs: seq<Record>, x: Record)
    ensures Concat(bs + [x]) == Concat(bs) + x
  {
    assert (bs + [x])[..|bs|] == bs;
  }

  lemma {:induction false} ConcatLength(bs: seq<Record>, bk: nat)
    requires Uniform(bs, bk)
    ensures |Concat(bs)| == |bs| * bk
    decreases |bs|
  {
    if bs != [] {
      ConcatLength(bs[..|bs| - 1], bk);
      MulAdd(|bs| - 1, 1, bk);
    }
  }

  lemma PatchLeft(a: seq<word>, y: seq<word>, at: nat, x: Record)
    requires at + |x| <= |a|
    ensures Patch(a + y, at, x) == Patch(a, at, x) + y
    ensures (a + y)[at..at + |x|] == a[at..at + |x|]
  {
  }

  lemma PatchBack(a: seq<word>, y: seq<word>, x: Record)
    requires |x| == |y|
    ensures Patch(a + y, |a|, x) == a + x
    ensures (a + y)[|a|..|a| + |x|] == y
  {
  }

  /** Block i of the concatenation, and what replacing it does. */
  lemma {:induction false} ConcatAt(bs: seq<Record>, bk: nat, i: nat, at: nat, x: Record)
    requires Uniform(bs, bk) && i < |bs| && at == Span(i, bk) && |x| == bk
    ensures at + bk <= |Concat(bs)| && Concat(bs)[at..at + bk] == bs[i]
    ensures Concat(bs[i := x]) == Patch(Concat(bs), at, x)
    decreases |bs|
  {
    var n := |bs| - 1;
    var front := bs[..n];
    ConcatLength(front, bk);
    assert bs == front + [bs[n]];
    ConcatSnoc(front, bs[n]);
    hide Concat, Patch;
    if i == n {
      assert bs[i := x] == front + [x];
      ConcatSnoc(front, x);
      PatchBack(Concat(front), bs[n], x);
    } else {
      ConcatAt(front, bk, i, at, x);
      PatchLeft(Concat(front), bs[n], at, x);
      assert bs[i := x] == front[i := x] + [bs[n]];
      ConcatSnoc(front[i := x], bs[n]);
    }
  }

  lemma {:induction false} ConcatUnique(a: seq<Record>, b: seq<Record>, bk: nat)
    requires Uniform(a, bk) && Uniform(b, bk) && |a| == |b| && Concat(a) == Concat(b)
    ensures a == b
    decreases |a|
  {
    if a != [] {
      var n := |a| - 1;
      ConcatLength(a[..n], bk);
      ConcatLength(b[..n], bk);
      var m := |Concat(a[..n])|;
      assert Concat(a)[..m] == Concat(a[..n]) && Concat(b)[..m] == Concat(b[..n]);
      assert Concat(a)[m..] == a[n] && Concat(b)[m..] == b[n];
      ConcatUnique(a[..n], b[..n], bk);
      assert a == a[..n] + [a[n]] && b == b[..n] + [b[n]];
    }
  }

  /** Any run of n blocks of words is the concatenation of n blocks. */
  lemma {:induction false} Split(s: seq<word>, bk: nat, n: nat) returns (bs: seq<Record>)
    requires |s| == n * bk
    ensures Uniform(bs, bk) && |bs| == n && Concat(bs) == s
    decreases n
  {
    if n == 0 {
      bs := [];
    } else {
      MulAdd(n - 1, 1, bk);
      var m := (n - 1) * bk;
      var front := Split(s[..m], bk, n - 1);
      bs := front + [s[m..]];
      ConcatSnoc(front, s[m..]);
      assert s == s[..m] + s[m..];
    }
  }

  // ---- blocks protected and deprotected ----

  lemma SpanNext(k: int, bk: nat)
    ensures Span(k + 1, bk) == Span(k, bk) + bk && Span(0, bk) == 0
  {
    MulAdd(k, 1, bk);
  }

  ghost predicate Blocks(bs: seq<Record>, bk: nat) {
    bk >= SECTOR && Uniform(bs, bk)
  }

  /** The update sequence array of every block that has one lies behind its header. */
  ghost predicate HeadersApart(bs: seq<Record>, bk: nat)
    requires Blocks(bs, bk)
  {
    forall i :: 0 <= i < |bs| ==> (Protectable(bs[i], 2 * bk) ==> bs[i][2] >= 8)
  }

  /** The first k blocks as they go to disk. */
  ghost function Stamped(bs: seq<Record>, bk: nat, k: nat): (r: seq<Record>)
    requires Blocks(bs, bk) && k <= |bs|
    ensures |r| == |bs| && Blocks(r, bk)
  {
    seq(|bs|, i requires 0 <= i < |bs| => if i < k then Protected(bs[i], 2 * bk) else bs[i])
  }

  /** The first k blocks deprotected again after they were written. */
  ghost function Written(bs: seq<Record>, bk: nat, k: nat, d: nat): (r: seq<Record>)
    requires Blocks(bs, bk) && d <= k <= |bs|
    ensures |r| == |bs| && Blocks(r, bk)
  {
    seq(|bs|, i requires 0 <= i < |bs| =>
      if i < d then Deprotected(Protected(bs[i], 2 * bk), 2 * bk)
      else if i < k then Protected(bs[i], 2 * bk)
      else bs[i])
  }

  /** The first r blocks as they come back from disk. */
  ghost function Loaded(bs: seq<Record>, bk: nat, r: nat): (l: seq<Record>)
    requires Blocks(bs, bk) && r <= |bs|
    ensures |l| == |bs| && Blocks(l, bk)
  {
    seq(|bs|, i requires 0 <= i < |bs| => if i < r then Deprotected(bs[i], 2 * bk) else bs[i])
  }

  /** The first k blocks can be protected, and block k, if there is one, cannot. */
  ghost predicate Cut(bs: seq<Record>, bk: nat, k: nat)
    requires Blocks(bs, bk)
  {
    && k <= |bs|
    && (forall i :: 0 <= i < k ==> Protectable(bs[i], 2 * bk))
    && (k < |bs| ==> !Protectable(bs[k], 2 * bk))
  }

  lemma RefusedStays(w: Record, size: nat)
    requires Fits(|w|, size) && !Protectable(w, size)
    ensures Protected(w, size) == w
  {
  }

  /** Protect blocks from the first on, up to one that cannot be. */
  method ProtectBlocks(b: array<word>, count: nat, bk: nat, ghost bs: seq<Record>) returns (k: nat)
    requires Blocks(bs, bk) && |bs| == count && b[..] == Concat(bs)
    modifies b
    ensures Cut(bs, bk, k) && b[..] == Concat(Stamped(bs, bk, k))
  {
    hide Concat, Protected, Patch, Protectable;
    var bk := bk;
    k := 0;
    var at := 0;
    assert Stamped(bs, bk, 0) == bs;
    while k < count
      invariant 0 <= k <= count && at == Span(k, bk)
      invariant forall i :: 0 <= i < k ==> Protectable(bs[i], 2 * bk)
      invariant b[..] == Concat(Stamped(bs, bk, k))
    {
      ghost var cur, p := Stamped(bs, bk, k), Protected(bs[k], 2 * bk);
      ConcatAt(cur, bk, k, at, p);
      assert b[at..at + bk] == b[..][at..at + bk] == bs[k];
      var ok := PreWrite(b, at, bk, 2 * bk);
      if !ok {
        RefusedStays(bs[k], 2 * bk);
        assert cur[k := p] == cur;
        return;
      }
      assert Stamped(bs, bk, k + 1) == cur[k := p];
      SpanNext(k, bk);
      k := k + 1;
      at := at + bk;
    }
  }

  lemma WriteNext(bs: seq<Record>, bk: nat, k: nat, i: nat)
    requires Blocks(bs, bk) && i < k <= |bs|
    ensures Fits(|bs[i]|, 2 * bk) && |bs[i]| == bk >= SECTOR
    ensures Written(bs, bk, k, i)[i] == Protected(bs[i], 2 * bk)
    ensures Written(bs, bk, k, i + 1)
            == Written(bs, bk, k, i)[i := Deprotected(Protected(bs[i], 2 * bk), 2 * bk)]
  {
    hide Protected, Deprotected;
  }

  lemma ProtectedHeader(w: Record, size: nat)
    requires Fits(|w|, size) && Protectable(w, size) && w[2] >= 8
    ensures var p := Protected(w, size);
            ValidRecord(size, p[2], p[3]) && Deprotected(p, size) == Restore(p, size / 512, p[2] / 2)
  {
    hide Stamp, Restore;
    ProtectedReads(w, size);
  }

  method DeprotectOne(b: array<word>, at: nat, bk: nat, ghost bs: seq<Record>, ghost k: nat, ghost i: nat)
    requires Blocks(bs, bk) && i < k <= |bs| && at == Span(i, bk)
    requires Fits(|bs[i]|, 2 * bk) && Protectable(bs[i], 2 * bk) && bs[i][2] >= 8
    requires b[..] == Concat(Written(bs, bk, k, i))
    modifies b
    ensures b[..] == Concat(Written(bs, bk, k, i + 1))
  {
    hide Concat, Protected, Deprotected, Patch, Restore, Written, Fits, ValidRecord, Protectable, Uniform, Span;
    WriteNext(bs, bk, k, i);
    ghost var len, p := |bs[i]|, Protected(bs[i], 2 * bk);
    ConcatAt(Written(bs, bk, k, i), len, i, at, Deprotected(p, 2 * bk));
    assert b[at..at + len] == b[..][at..at + len] == p;
    ProtectedHeader(bs[i], 2 * bk);
    assert b[at + 2] == p[2] && b[at + 3] == p[3];
    PostWrite(b, at, len, 2 * bk);
  }

  lemma CutAt(bs: seq<Record>, bk: nat, k: nat, i: nat)
    requires Blocks(bs, bk) && Cut(bs, bk, k) && HeadersApart(bs, bk) && i < k
    ensures k <= |bs| && Fits(|bs[i]|, 2 * bk) && Protectable(bs[i], 2 * bk) && bs[i][2] >= 8
  {
    hide Protectable;
  }

  lemma NoneWritten(bs: seq<Record>, bk: nat, k: nat)
    requires Blocks(bs, bk) && k <= |bs|
    ensures Written(bs, bk, k, 0) == Stamped(bs, bk, k)
  {
    hide Protected, Deprotected;
  }

  /** Deprotect the k protected blocks again. */
  method DeprotectBlocks(b: array<word>, k: nat, bk: nat, ghost bs: seq<Record>)
    requires Blocks(bs, bk) && Cut(bs, bk, k) && HeadersApart(bs, bk)
    requires b[..] == Concat(Stamped(bs, bk, k))
    modifies b
    ensures b[..] == Concat(Written(bs, bk, k, k))
  {
    NoneWritten(bs, bk, k);
    hide Concat, Written, Stamped, Protectable, Span, Cut, HeadersApart, Uniform;
    var i, at: nat := 0, 0;
    SpanNext(0, bk);
    while i < k
      invariant 0 <= i <= k && at == Span(i, bk)
      invariant b[..] == Concat(Written(bs, bk, k, i))
    {
      CutAt(bs, bk, k, i);
      DeprotectOne(b, at, bk, bs, k, i);
      SpanNext(i, bk);
      i := i + 1;
      at := at + bk;
    }
  }

  lemma StampedLength(bs: seq<Record>, bk: nat, k: nat)
    requires Blocks(bs, bk) && k <= |bs|
    ensures |Concat(Stamped(bs, bk, k))| == Span(|bs|, bk)
    ensures Span(k, bk) <= Span(|bs|, bk)
    ensures k > 0 ==> Span(k, bk) > 0
  {
    ConcatLength(Stamped(bs, bk, k), bk);
    MulMono(k, |bs|, bk);
    if k > 0 { MulMono(1, k, bk); }
  }

  lemma NoneStamped(bs: seq<Record>, bk: nat)
    requires Blocks(bs, bk)
    ensures Stamped(bs, bk, 0) == bs
  {
  }

  /** ntfs_mst_pwrite; k is the number of blocks protected, n the number of words that reached the device. */
  method MstPWrite(dev: Device, pos: int, count: int, bksize: nat, b: array<word>, ghost bs: seq<Record>)
    returns (r: int, ghost k: nat, ghost n: nat)
    requires bksize > 0
    requires count >= 0 && bksize % 512 == 0
             ==> Blocks(bs, bksize / 2) && |bs| == count && b[..] == Concat(bs) && HeadersApart(bs, bksize / 2)
    modifies dev, b
    ensures count < 0 || bksize % 512 != 0 ==> r == -1 && k == 0
    ensures count >= 0 && bksize % 512 == 0 ==>
              && Cut(bs, bksize / 2, k)
              && (k == 0 ==> r == if count == 0 then 0 else -1)
              && (k > 0 ==> b[..] == Concat(Written(bs, bksize / 2, k, k)))
              && n <= Span(k, bksize / 2) <= |Concat(Stamped(bs, bksize / 2, k))|
              && (n > 0 ==> 0 <= pos && pos + n <= |old(dev.words)| && r == n / (bksize / 2)
                            && dev.words == Patch(old(dev.words), pos, Concat(Stamped(bs, bksize / 2, k))[..n]))
              && (old(dev.script) == [] && 0 <= pos && pos + Span(k, bksize / 2) <= |old(dev.words)|
                  ==> n == Span(k, bksize / 2))
    ensures k == 0 ==> n == 0 && b[..] == old(b[..])
    ensures n == 0 ==> r <= 0 && dev.words == old(dev.words)
    ensures old(dev.script) == [] ==> dev.script == []
  {
    k, n := 0, 0;
    if count < 0 || bksize % 512 != 0 {
      return -1, 0, 0;
    }
    ConcatLength(bs, bksize / 2);
    if count == 0 {
      return 0, 0, 0;
    }
    var i := ProtectBlocks(b, count, bksize / 2, bs);
    k := i;
    StampedLength(bs, bksize / 2, k);
    if i == 0 {
      NoneStamped(bs, bksize / 2);
      return -1, 0, 0;
    }
    hide Concat, Stamped, Written, Patch, Cut, HeadersApart, Uniform, Span;
    r := PWrite(dev, pos, Span(i, bksize / 2), b);
    ghost var w := r;
    if r > 0 {
      n := r;
      assert b[..n] == b[..][..n];
    }
    DeprotectBlocks(b, i, bksize / 2, bs);
    if r <= 0 {
      return;
    }
    r := r / (bksize / 2);
  }

  lemma NoneLoaded(bs: seq<Record>, bk: nat)
    requires Blocks(bs, bk)
    ensures Loaded(bs, bk, 0) == bs
  {
  }

  lemma LoadNext(bs: seq<Record>, bk: nat, i: nat)
    requires Blocks(bs, bk) && i < |bs|
    ensures |bs[i]| == bk && Fits(|bs[i]|, 2 * bk) && Loaded(bs, bk, i)[i] == bs[i]
    ensures Loaded(bs, bk, i + 1) == Loaded(bs, bk, i)[i := Deprotected(bs[i], 2 * bk)]
  {
    hide Deprotected;
  }

  method LoadOne(b: array<word>, at: nat, bk: nat, ghost bs: seq<Record>, ghost i: nat, ghost rest: seq<word>)
    requires Blocks(bs, bk) && i < |bs| && at == Span(i, bk)
    requires b[..] == Concat(Loaded(bs, bk, i)) + rest
    modifies b
    ensures b[..] == Concat(Loaded(bs, bk, i + 1)) + rest
  {
    hide Concat, Deprotected, Patch, Loaded, Fits, Uniform, Span;
    LoadNext(bs, bk, i);
    ghost var len := |bs[i]|;
    ghost var cur, d := Loaded(bs, bk, i), Deprotected(bs[i], 2 * bk);
    ConcatAt(cur, len, i, at, d);
    PatchLeft(Concat(cur), rest, at, d);
    assert b[at..at + len] == b[..][at..at + len] == bs[i];
    var _ := PostRead(b, at, len, 2 * bk);
  }

  /** Fix up every block that was read. */
  method LoadBlocks(b: array<word>, bk: nat, r: nat, ghost bs: seq<Record>, ghost rest: seq<word>)
    requires Blocks(bs, bk) && |bs| == r && b[..] == Concat(bs) + rest
    modifies b
    ensures b[..] == Concat(Loaded(bs, bk, r)) + rest
  {
    NoneLoaded(bs, bk);
    hide Concat, Loaded, Span;
    var i, at: nat := 0, 0;
    SpanNext(0, bk);
    while i < r
      invariant 0 <= i <= r && at == Span(i, bk)
      invariant b[..] == Concat(Loaded(bs, bk, i)) + rest
    {
      LoadOne(b, at, bk, bs, i, rest);
      SpanNext(i, bk);
      i := i + 1;
      at := at + bk;
    }
  }

  predicate PowerOfTwo(n: nat) {
    n == 1 || (n > 1 && n % 2 == 0 && PowerOfTwo(n / 2))
  }

  lemma PatchedPrefix(b: seq<word>, s: seq<word>, m: nat)
    requires m <= |s| <= |b|
    ensures Patch(b, 0, s) == s[..m] + Patch(b, 0, s)[m..]
  {
  }

  lemma LoadedLength(bs: seq<Record>, bk: nat, r: nat)
    requires Blocks(bs, bk) && r <= |bs|
    ensures |Concat(Loaded(bs, bk, r))| == Span(|bs|, bk)
  {
    ConcatLength(Loaded(bs, bk, r), bk);
  }

  /** The block sizes accepted are the powers of two. */
  lemma {:induction false} PowersOfTwo(n: nat, k: nat)
    ensures PowerOfTwo(Pow2(k))
    ensures PowerOfTwo(n) ==> exists j: nat :: n == Pow2(j)
    decreases n + k
  {
    if k > 0 { PowersOfTwo(0, k - 1); }
    if n == 1 {
      assert n == Pow2(0);
    } else if PowerOfTwo(n) {
      PowersOfTwo(n / 2, 0);
      var j: nat :| n / 2 == Pow2(j);
      assert n == Pow2(j + 1);
    }
  }

  /** Fix up the r complete blocks, m words, among the words just read. */
  method FixupBlocks(b: array<word>, bk: nat, r: nat, ghost m: nat, ghost was: seq<word>, ghost src: seq<word>)
    returns (ghost bs: seq<Record>)
    requires bk >= SECTOR && m == Span(r, bk)
    requires m <= |src| <= |was| && b[..] == Patch(was, 0, src)
    modifies b
    ensures Blocks(bs, bk) && |bs| == r && m <= b.Length
    ensures Concat(bs) == src[..m] && b[..m] == Concat(Loaded(bs, bk, r))
  {
    hide Concat, Loaded, Patch;
    bs := Split(src[..m], bk, r);
    PatchedPrefix(was, src, m);
    ghost var rest := b[..][m..];
    LoadBlocks(b, bk, r, bs, rest);
    LoadedLength(bs, bk, r);
    assert b[..m] == b[..][..m];
  }

  lemma SpanSign(count: int, bk: nat)
    requires bk >= SECTOR
    ensures Span(count, bk) < 0 <==> count < 0
    ensures Span(count, bk) == 0 <==> count == 0
  {
    var bk := bk;
    if count > 0 { MulMono(1, count, bk); }
    if count < 0 {
      MulMono(1, -count, bk);
      MulAdd(count, -count, bk);
    }
  }

  lemma Quotient(r: nat, rem: nat, bk: nat, count: nat)
    requires rem < bk && r * bk + rem <= count * bk
    ensures r <= count && (r * bk + rem == count * bk ==> r == count)
  {
    MulStep(count, r, bk);
    MulStep(r, count, bk);
  }

  lemma BlockCount(read: nat, bk: nat, count: nat)
    requires bk >= SECTOR && read <= Span(count, bk)
    ensures var r := read / bk;
            r <= count && Span(r, bk) <= read && (read == Span(count, bk) ==> r == count)
  {
    var bk := bk;
    assert read == read / bk * bk + read % bk;
    Quotient(read / bk, read % bk, bk, count);
  }

  /** ntfs_mst_pread; bs are the complete blocks read, as they are on the device. */
  method MstPRead(dev: Device, pos: int, count: int, bksize: nat, b: array<word>)
    returns (r: int, ghost bs: seq<Record>)
    requires bksize > 0 && Span(count, bksize / 2) <= b.Length
    modifies dev`script, b
    ensures !PowerOfTwo(bksize) || bksize % 512 != 0 || count < 0 || pos < 0 ==> r < 0
    ensures r < 0 ==> b[..] == old(b[..])
    ensures r > 0 ==> && Blocks(bs, bksize / 2) && |bs| == r <= count
                      && 0 <= pos && pos + Span(r, bksize / 2) <= |dev.words| && Span(r, bksize / 2) <= b.Length
                      && Concat(bs) == dev.words[pos..pos + Span(r, bksize / 2)]
                      && b[..Span(r, bksize / 2)] == Concat(Loaded(bs, bksize / 2, r))
    ensures (old(dev.script) == [] && PowerOfTwo(bksize) && bksize % 512 == 0 && 0 <= count && 0 <= pos
             && pos + Span(count, bksize / 2) <= |dev.words|) ==> r == count
  {
    hide Concat, Loaded, Patch, PowerOfTwo, Blocks, Span;
    bs := [];
    if !PowerOfTwo(bksize) || bksize % 512 != 0 {
      return -1, [];
    }
    SpanSign(count, bksize / 2);
    r := PRead(dev, pos, Span(count, bksize / 2), b);
    if r < 0 {
      return;
    }
    ghost var words, read := dev.words, r;
    BlockCount(read, bksize / 2, count);
    r := r / (bksize / 2);
    if r > 0 {
      ghost var m := Span(r, bksize / 2);
      SpanSign(r, bksize / 2);
      ghost var src := words[pos..pos + read];
      bs := FixupBlocks(b, bksize / 2, r, m, old(b[..]), src);
      assert src[..m] == words[pos..pos + m];
    }
  }

  lemma {:induction false} ConcatPrefix(bs: seq<Record>, bk: nat, k: nat, m: nat)
    requires Uniform(bs, bk) && k <= |bs| && m == k * bk
    ensures m <= |Concat(bs)| && Concat(bs)[..m] == Concat(bs[..k])
    decreases |bs|
  {
    ConcatLength(bs[..k], bk);
    if k < |bs| {
      var front := bs[..|bs| - 1];
      ConcatPrefix(front, bk, k, m);
      assert front[..k] == bs[..k];
      assert Concat(bs) == Concat(front) + bs[|bs| - 1];
    } else {
      assert bs[..k] == bs;
    }
  }

  ghost predicate Passes(w: Record, size: nat) {
    Fits(|w|, size) && Verdict(w, size) == Fine
  }

  lemma PassesOne(w: Record, size: nat)
    requires Fits(|w|, size) && Protectable(w, size) && w[2] >= 8
    ensures Passes(Protected(w, size), size)
  {
    hide Stamp, Restore;
    ProtectedReads(w, size);
  }

  lemma StampedBack(bs: seq<Record>, bk: nat, k: nat, back: seq<Record>)
    requires Blocks(bs, bk) && Cut(bs, bk, k) && HeadersApart(bs, bk)
    requires back == Stamped(bs, bk, k)[..k]
    ensures Blocks(back, bk) && Loaded(back, bk, k) == Written(bs, bk, k, k)[..k]
    ensures forall i :: 0 <= i < k ==> Passes(back[i], 2 * bk)
  {
    hide Deprotected, Protected, Passes, Protectable;
    forall i | 0 <= i < k ensures Passes(back[i], 2 * bk) {
      PassesOne(bs[i], 2 * bk);
    }
  }

  /** Reading back the k blocks a write got to disk gives the writer's own buffer. */
  lemma ReadBack(bs: seq<Record>, bk: nat, k: nat, back: seq<Record>, n: nat)
    requires Blocks(bs, bk) && Cut(bs, bk, k) && HeadersApart(bs, bk) && n == Span(k, bk)
    requires Blocks(back, bk) && |back| == k
    requires n <= |Concat(Stamped(bs, bk, k))| && Concat(back) == Concat(Stamped(bs, bk, k))[..n]
    ensures Loaded(back, bk, k) == Written(bs, bk, k, k)[..k]
    ensures forall i :: 0 <= i < k ==> Passes(back[i], 2 * bk)
  {
    hide Concat, Passes, Deprotected, Protected, Protectable, Stamped, Loaded, Written;
    var st := Stamped(bs, bk, k);
    ConcatPrefix(st, bk, k, n);
    ConcatUnique(back, st[..k], bk);
    StampedBack(bs, bk, k, back);
  }

  lemma CutBound(bs: seq<Record>, bk: nat, k: nat)
    requires Blocks(bs, bk) && Cut(bs, bk, k)
    ensures k <= |bs|
  {
  }

  lemma SpanOf(bs: seq<Record>, bk: nat, count: nat)
    requires Blocks(bs, bk) && |bs| == count
    ensures |Concat(bs)| == Span(count, bk)
  {
    ConcatLength(bs, bk);
  }

  lemma SpanPart(k: nat, count: nat, bk: nat)
    requires k <= count && bk > 0
    ensures Span(k, bk) <= Span(count, bk) && Span(k, bk) / bk == k && (k > 0 ==> Span(k, bk) > 0)
  {
    MulMono(k, count, bk);
    Unpack(k, 0, bk);
    if k > 0 { MulMono(1, k, bk); }
  }

  lemma WrittenPrefix(bs: seq<Record>, bk: nat, k: nat, n: nat)
    requires Blocks(bs, bk) && k <= |bs| && n == Span(k, bk)
    ensures n <= |Concat(Written(bs, bk, k, k))|
            && Concat(Written(bs, bk, k, k))[..n] == Concat(Written(bs, bk, k, k)[..k])
  {
    ConcatPrefix(Written(bs, bk, k, k), bk, k, n);
  }

  /**
   * Write blocks and read as many back into another buffer, on a device that transfers all it is asked:
   * the blocks before the first unacceptable one come back as they are left in the writer's buffer.
   */
  method WriteThenRead(dev: Device, pos: nat, count: nat, bksize: nat, b: array<word>, back: array<word>,
                       ghost bs: seq<Record>)
    returns (r: int, ghost k: nat)
    requires bksize % 512 == 0 && PowerOfTwo(bksize) && b != back && dev.script == []
    requires Blocks(bs, bksize / 2) && |bs| == count && b[..] == Concat(bs) && HeadersApart(bs, bksize / 2)
    requires pos + Span(count, bksize / 2) <= |dev.words| && back.Length == b.Length
    modifies dev, b, back
    ensures Cut(bs, bksize / 2, k)
    ensures k > 0 ==> && r == k && 0 <= Span(k, bksize / 2) <= b.Length
                      && back[..Span(k, bksize / 2)] == b[..Span(k, bksize / 2)]
                      && b[..] == Concat(Written(bs, bksize / 2, k, k))
  {
    var bk := bksize / 2;
    ghost var before := dev.words;
    assert bksize > 0 && bk > 0;
    hide Concat, Stamped, Loaded, Written, Patch, Span, Cut, HeadersApart, Uniform, PowerOfTwo;
    SpanOf(bs, bk, count);
    var w, blocks, n := MstPWrite(dev, pos, count, bksize, b, bs);
    k := blocks;
    r := w;
    CutBound(bs, bk, k);
    SpanPart(k, count, bk);
    if w > 0 {
      PatchedSlice(before, pos, Concat(Stamped(bs, bk, k))[..n], pos, pos + n);
      ghost var got;
      r, got := MstPRead(dev, pos, w, bksize, back);
      ReadBack(bs, bk, k, got, n);
      WrittenPrefix(bs, bk, k, n);
      assert b[..n] == b[..][..n];
    }
  }
}

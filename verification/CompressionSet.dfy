/** ntfs_comp_set: compress one compression block and store it in fewer clusters. */
module CompressionSet {
  import opened Bytes
  import opened Lznt1Format
  import opened Lznt1Lazy
  import opened Lznt1RoundTrip
  import opened Lznt1Compressor
  import opened Lznt1Zeros
  import opened Runlist
  import opened ClusterIO
  import opened Slices

  // ---- recognising blocks of zeroes by their compressed form ----

  lemma OneZero(cb: seq<byte>)
    requires |cb| >= 6 && cb[..4] == [0x01, 0xb0, 0x00, 0x00]
    ensures DecodeBlock(cb, 0) == Decoded(Zeros(SB_SIZE))
  {
    assert cb[..4][0] == cb[0] && cb[..4][1] == cb[1] && cb[..4][2] == cb[2] && cb[..4][3] == cb[3];
    assert DecodeGroup(cb, 3, 4, 0, 8, []) == DecodeGroup(cb, 4, 4, 0, 7, [0]) == Group(4, [0]);
    assert DecodeTags(cb, 4, 4, [0]) == Decoded(Pad([0]));
    assert Pad([0]) == Zeros(SB_SIZE);
  }

  lemma TwoZeroes(cb: seq<byte>)
    requires |cb| >= 6 && cb[..5] == [0x02, 0xb0, 0x00, 0x00, 0x00]
    ensures DecodeBlock(cb, 0) == Decoded(Zeros(SB_SIZE))
  {
    assert forall k :: 0 <= k < 5 ==> cb[..5][k] == cb[k];
    assert DecodeGroup(cb, 4, 5, 0, 7, [0]) == DecodeGroup(cb, 5, 5, 0, 6, [0, 0]) == Group(5, [0, 0]) by {
      assert [0] + [cb[4]] == [0, 0];
    }
    assert DecodeGroup(cb, 3, 5, 0, 8, []) == DecodeGroup(cb, 4, 5, 0, 7, [0]) by { assert [] + [cb[3]] == [0]; }
    assert DecodeTags(cb, 5, 5, [0, 0]) == Decoded(Pad([0, 0]));
    assert Pad([0, 0]) == Zeros(SB_SIZE);
  }

  lemma {:induction false} CopyZeroes(out: seq<byte>, dist: nat, len: nat)
    requires 1 <= dist <= |out| && out == Zeros(|out|)
    ensures CopyBack(out, dist, len) == Zeros(|out| + len)
    decreases len
  {
    if len > 0 {
      CopyZeroes(out, dist, len - 1);
    }
  }

  /** A literal zero and one phrase can only spell zeroes, whatever the phrase. */
  lemma MoreZeroes(cb: seq<byte>)
    requires |cb| >= 6 && cb[..4] == [0x03, 0xb0, 0x02, 0x00]
    requires DecodeBlock(cb, 0).Decoded?
    ensures DecodeBlock(cb, 0) == Decoded(Zeros(SB_SIZE))
  {
    hide PhraseDistance, PhraseLength, CopyBack;
    assert forall k :: 0 <= k < 4 ==> cb[..4][k] == cb[k];
    var t := Phrase(Word(cb[4], cb[5]));
    assert DecodeGroup(cb, 3, 6, 2, 8, []) == DecodeGroup(cb, 4, 6, 1, 7, [0]) by { assert [] + [cb[3]] == [0]; }
    var r := Apply([0], t);
    assert r.Some?;
    assert DecodeGroup(cb, 4, 6, 1, 7, [0]) == DecodeGroup(cb, 6, 6, 0, 6, r.value) == Group(6, r.value);
    CopyZeroes([0], PhraseDistance(t.pt, 1), PhraseLength(t.pt, 1)) by { assert [0] == Zeros(1); }
    assert DecodeTags(cb, 6, 6, r.value) == Decoded(Pad(r.value));
    assert Pad(r.value) == Zeros(SB_SIZE);
  }

  lemma ZeroContent(blk: Block, bytes: seq<byte>)
    requires ValidBlock(blk) && bytes == BlockBytes(blk)
    requires LooksLikeZeroes(bytes)
    ensures Content(blk) == Zeros(SB_SIZE)
  {
    hide BlockBytes, Content, ValidBlock, DecodeBlock, At;
    var cb := bytes + [0, 0];
    assert cb[0..0 + |bytes|] == bytes;
    AtSlice(cb, 0, bytes);
    BlockRoundTrip(cb, 0, blk);
    if |bytes| == 4 {
      OneZero(cb);
    } else if |bytes| == 5 {
      TwoZeroes(cb);
    } else {
      assert cb[..4] == bytes[..4];
      MoreZeroes(cb);
    }
  }

  /** The comparison against the compressed forms of one, two and more zeroes. */
  method LooksZero(buf: array<byte>, base: nat, sz: nat, ghost blk: Block) returns (zero: bool)
    requires ValidBlock(blk) && sz == |BlockBytes(blk)| && base + sz <= buf.Length
    requires buf[base..base + sz] == BlockBytes(blk)
    ensures zero <==> LooksLikeZeroes(BlockBytes(blk))
    ensures zero ==> Content(blk) == Zeros(SB_SIZE)
  {
    hide BlockBytes, Content, ValidBlock;
    if sz == 4 {
      zero := buf[base..base + 4] == [0x01, 0xb0, 0x00, 0x00];
    } else if sz == 5 {
      zero := buf[base..base + 5] == [0x02, 0xb0, 0x00, 0x00, 0x00];
    } else if sz == 6 {
      zero := buf[base..base + 4] == [0x03, 0xb0, 0x02, 0x00];
      assert buf[base..base + sz][..4] == buf[base..base + 4];
    } else {
      zero := false;
    }
    if zero {
      ZeroContent(blk, buf[base..base + sz]);
    }
  }

  // ---- packing ----

  /** The part of the input that sub-block k covers. */
  function SubBlock(input: seq<byte>, k: nat): (s: seq<byte>)
    requires SB_SIZE * k < |input|
    ensures 1 <= |s| <= SB_SIZE
  {
    if SB_SIZE * k + SB_SIZE < |input| then input[SB_SIZE * k..SB_SIZE * k + SB_SIZE] else input[SB_SIZE * k..]
  }

  /** bs are blocks for the first |bs| sub-blocks of the input, zero-padded. */
  ghost predicate Covers(bs: seq<Block>, input: seq<byte>) {
    && ValidBlocks(bs) && SB_SIZE * (|bs| - 1) < |input|
    && Contents(bs) == Fit(input, SB_SIZE * |bs|)
  }

  /** stage holds a stream whose blocks spell the whole input, with its end mark. */
  ghost predicate Encodes(stage: seq<byte>, bs: seq<Block>, input: seq<byte>) {
    Covers(bs, input) && |input| <= SB_SIZE * |bs| && At(stage, 0, StreamBytes(bs) + [0, 0])
  }

  /** What is read back: the stage, followed by anything, decodes to the padded input at
      every whole number of sub-blocks. */
  lemma StageDecodes(stage: seq<byte>, tail: seq<byte>, bs: seq<Block>, input: seq<byte>, n: nat)
    requires Encodes(stage, bs, input)
    ensures Decode(stage + tail, 4096 * n) == Decoded(Fit(input, 4096 * n))
  {
    hide Decode, StreamBytes, Contents, At;
    var s := StreamBytes(bs) + [0, 0];
    AtSlice(stage, 0, s);
    assert (stage + tail)[0..0 + |s|] == stage[0..0 + |s|];
    AtSlice(stage + tail, 0, s);
    StreamRoundTrip(stage + tail, bs, n);
    assert Fit(Contents(bs), 4096 * n) == Fit(input, 4096 * n);
  }

  lemma FitMore(input: seq<byte>, k: nat)
    requires SB_SIZE * k < |input|
    ensures Fit(input, SB_SIZE * (k + 1)) == Fit(input, SB_SIZE * k) + Pad(SubBlock(input, k))
  {
  }

  lemma CoversMore(bs: seq<Block>, blk: Block, input: seq<byte>)
    requires Covers(bs, input) && SB_SIZE * |bs| < |input|
    requires ValidBlock(blk) && Content(blk) == Pad(SubBlock(input, |bs|))
    ensures Covers(bs + [blk], input)
    ensures StreamBytes(bs + [blk]) == StreamBytes(bs) + BlockBytes(blk)
  {
    hide ValidBlock, Content, BlockBytes, Fit, SubBlock, Pad, Contents, StreamBytes;
    BlocksMore(bs, blk);
    FitMore(input, |bs|);
    calc {
      Contents(bs + [blk]);
      Contents(bs) + Content(blk);
      Fit(input, SB_SIZE * |bs|) + Pad(SubBlock(input, |bs|));
      Fit(input, SB_SIZE * (|bs| + 1));
    }
  }

  // ---- the packer ----

  /** Geometry of a compressed attribute: cluster size and compression block size in bytes. */
  ghost predicate BlockGeometry(cs: nat, cbSize: nat) {
    cs > 0 && cbSize >= SB_SIZE && cbSize % SB_SIZE == 0 && cbSize % cs == 0
  }

  function StagingSize(cbSize: nat): nat {
    cbSize + 2 * (cbSize / SB_SIZE) + 2
  }

  /** State of the packing loop over the staging buffer. */
  ghost predicate Packing(out: seq<byte>, compsz: nat, bs: seq<Block>, input: seq<byte>) {
    && Covers(bs, input) && compsz == |StreamBytes(bs)| && compsz <= |out| && out[..compsz] == StreamBytes(bs)
  }

  /** A length of zeroes that packs into one of the known patterns. */
  predicate Recognised(n: nat) {
    n != 3 && n != 4
  }

  /** Most bytes a sub-block of n bytes can take. */
  function WorstBlock(n: nat): nat {
    if LiteralSize(n) < SB_SIZE - 1 then 2 + LiteralSize(n) else SB_SIZE + 2
  }

  /** The block is the one the rule of the encoder makes of sub. */
  ghost predicate MadeOf(blk: Block, sub: seq<byte>) {
    |sub| <= SB_SIZE && exists toks, i: nat :: MadeBy(blk, sub, toks, i)
  }

  lemma MadeOfSame(x: Block, y: Block, sub: seq<byte>)
    requires MadeOf(x, sub) && MadeOf(y, sub)
    ensures x == y
  {
    hide MadeBy;
    var a, i: nat :| MadeBy(x, sub, a, i);
    var b, j: nat :| MadeBy(y, sub, b, j);
    OneBlock(x, y, sub, a, b, i, j);
  }

  lemma PadZero(sub: seq<byte>)
    requires |sub| <= SB_SIZE && Pad(sub) == Zeros(SB_SIZE)
    ensures AllZero(sub)
  {
    assert forall k :: 0 <= k < |sub| ==> Pad(sub)[k] == sub[k];
  }

  /** Compress sub-block |bs| behind the compsz bytes already staged. */
  method PackNext(outbuf: array<byte>, compsz: nat, input: seq<byte>, p: nat, ghost bs: seq<Block>)
    returns (sz: nat, zero: bool, ghost blk: Block)
    requires Packing(outbuf[..], compsz, bs, input) && p == SB_SIZE * |bs| < |input|
    requires compsz + 4100 <= outbuf.Length
    modifies outbuf
    ensures ValidBlock(blk) && sz == |BlockBytes(blk)|
    ensures Packing(outbuf[..], compsz + sz, bs + [blk], input)
    ensures MadeOf(blk, SubBlock(input, |bs|)) && sz <= WorstBlock(|SubBlock(input, |bs|)|)
    ensures zero <==> AllZero(SubBlock(input, |bs|)) && Recognised(|SubBlock(input, |bs|)|)
    ensures AllZero(SubBlock(input, |bs|)) ==> sz == ZeroSize(|SubBlock(input, |bs|)|)
  {
    hide StreamBytes, Contents, ValidBlock, Content, BlockBytes, Fit, Pad, ZeroTokens, LooksLikeZeroes, MadeBy;
    var bsz := if p + SB_SIZE < |input| then SB_SIZE else |input| - p;
    var sub := input[p..p + bsz];
    assert sub == SubBlock(input, |bs|);
    ghost var before := outbuf[..compsz];
    ghost var toks, done;
    sz, blk, toks, done := CompressBlock(sub, outbuf, compsz);
    zero := LooksZero(outbuf, compsz, sz, blk);
    if AllZero(sub) {
      ZeroMade(blk, sub, toks, done);
      ZeroBytes(blk, |sub|);
      FormRecognised(BlockBytes(blk), |sub|);
    } else if zero {
      PadZero(sub);
    }
    CoversMore(bs, blk, input);
    assert outbuf[..][..compsz + sz] == before + outbuf[compsz..compsz + sz];
  }

  /** Round a byte count up to whole clusters. */
  function RoundUp(x: nat, cs: nat): (r: nat)
    requires x > 0 && cs > 0
    ensures x <= r < x + cs && r % cs == 0
  {
    Unpack((x - 1) / cs + 1, 0, cs);
    assert x - 1 == (x - 1) / cs * cs + (x - 1) % cs;
    assert ((x - 1) / cs + 1) * cs == (x - 1) / cs * cs + cs;
    ((x - 1) / cs + 1) * cs
  }

  /** The rounded size stays within any larger multiple of the cluster size. */
  lemma RoundUpFits(x: nat, cs: nat, m: nat)
    requires 0 < x <= m && cs > 0 && m % cs == 0
    ensures RoundUp(x, cs) <= m && RoundUp(x, cs) % cs == 0
  {
    var q := (x - 1) / cs;
    var k := m / cs;
    assert m == k * cs;
    assert x - 1 >= q * cs;
    if q >= k {
      MulMono(k, q, cs);
      assert false;
    }
    MulMono(q + 1, k, cs);
    Unpack(q + 1, 0, cs);
  }

  // ---- how much a set takes ----

  /** Most bytes the sub-blocks of n bytes can take. */
  function WorstSize(n: nat): nat {
    (SB_SIZE + 2) * (n / SB_SIZE) + if n % SB_SIZE == 0 then 0 else WorstBlock(n % SB_SIZE)
  }

  /** Bytes that the sub-blocks of n zeroes take. */
  function ZeroTotal(n: nat): nat {
    6 * (n / SB_SIZE) + if n % SB_SIZE == 0 then 0 else ZeroSize(n % SB_SIZE)
  }

  /** The inputs that come to nothing: zeroes whose last sub-block is recognised and whose packed form would fit. */
  predicate ComesToNothing(input: seq<byte>, cs: nat, cbSize: nat) {
    && AllZero(input) && Recognised(|input| % SB_SIZE)
    && (input == [] || ZeroTotal(|input|) + cs + 2 <= cbSize)
  }

  /** Three zeroes are all zeroes and yet are stored. */
  lemma ThreeZeroesStored(cs: nat, cbSize: nat)
    ensures AllZero([0, 0, 0]) && !ComesToNothing([0, 0, 0], cs, cbSize)
  {
  }

  /** How much of the input the first k sub-blocks cover. */
  function Seen(n: nat, k: nat): nat {
    if SB_SIZE * k < n then SB_SIZE * k else n
  }

  /** What is known of the first k sub-blocks, total bytes once packed; zeroes says that they all looked like zeroes. */
  ghost predicate Tally(input: seq<byte>, k: nat, total: nat, zeroes: bool) {
    var n := Seen(|input|, k);
    && total <= WorstSize(n)
    && (AllZero(input[..n]) ==> total == ZeroTotal(n))
    && (zeroes <==> AllZero(input[..n]) && Recognised(n % SB_SIZE))
  }

  lemma ZeroJoin(a: seq<byte>, b: seq<byte>)
    ensures AllZero(a + b) <==> AllZero(a) && AllZero(b)
  {
    if AllZero(a + b) {
      assert forall i :: 0 <= i < |a| ==> a[i] == (a + b)[i];
      assert forall i :: 0 <= i < |b| ==> b[i] == (a + b)[|a| + i];
    }
  }

  lemma SizeNext(k: nat, n: nat)
    requires 0 < n <= SB_SIZE
    ensures WorstSize(SB_SIZE * k + n) == WorstSize(SB_SIZE * k) + WorstBlock(n)
    ensures ZeroTotal(SB_SIZE * k + n) == ZeroTotal(SB_SIZE * k) + ZeroSize(n)
    ensures (SB_SIZE * k + n) % SB_SIZE == n % SB_SIZE && Recognised(n) == Recognised(n % SB_SIZE)
  {
    if n == SB_SIZE {
      assert SB_SIZE * k + n == SB_SIZE * (k + 1);
    } else {
      assert (SB_SIZE * k + n) / SB_SIZE == k;
    }
  }

  lemma TallyNext(input: seq<byte>, k: nat, total: nat, zeroes: bool, sz: nat, zero: bool)
    requires Tally(input, k, total, zeroes) && SB_SIZE * k < |input|
    requires var sub := SubBlock(input, k);
             && sz <= WorstBlock(|sub|) && (AllZero(sub) ==> sz == ZeroSize(|sub|))
             && (zero <==> AllZero(sub) && Recognised(|sub|))
    ensures Tally(input, k + 1, total + sz, zeroes && zero)
  {
    hide WorstSize, ZeroTotal, WorstBlock, ZeroSize, AllZero;
    var sub, n, m := SubBlock(input, k), Seen(|input|, k), Seen(|input|, k + 1);
    assert m == n + |sub| && input[..m] == input[..n] + sub;
    ZeroJoin(input[..n], sub);
    SizeNext(k, |sub|);
  }

  /** More input never takes less room. */
  lemma SizeMonotone(n: nat, m: nat)
    requires n <= m && (n % SB_SIZE == 0 || n == m)
    ensures WorstSize(n) <= WorstSize(m) && ZeroTotal(n) <= ZeroTotal(m)
  {
  }

  lemma TallyAll(input: seq<byte>, k: nat, total: nat, zeroes: bool, cs: nat, cbSize: nat)
    requires Tally(input, k, total, zeroes) && |input| <= SB_SIZE * k && (input == [] || total + cs + 2 <= cbSize)
    ensures zeroes <==> ComesToNothing(input, cs, cbSize)
  {
    assert input[..|input|] == input;
  }

  lemma TallyOver(input: seq<byte>, k: nat, total: nat, zeroes: bool, cs: nat, cbSize: nat)
    requires Tally(input, k, total, zeroes) && total + cs + 2 > cbSize && input != []
    ensures WorstSize(|input|) + cs + 2 > cbSize && !ComesToNothing(input, cs, cbSize)
  {
    var n := Seen(|input|, k);
    SizeMonotone(n, |input|);
    assert AllZero(input) ==> AllZero(input[..n]);
  }

  /** The blocks are those the encoder makes of the sub-blocks. */
  ghost predicate Made(bs: seq<Block>, input: seq<byte>) {
    forall k :: 0 <= k < |bs| ==> SB_SIZE * k < |input| && MadeOf(bs[k], SubBlock(input, k))
  }

  /** What the encoder makes of an input is determined by it. */
  lemma MadeSame(a: seq<Block>, b: seq<Block>, input: seq<byte>)
    requires Made(a, input) && Made(b, input) && |a| <= |b|
    ensures a == b[..|a|]
  {
    hide MadeOf, SubBlock;
    forall k | 0 <= k < |a| ensures a[k] == b[k] {
      MadeOfSame(a[k], b[k], SubBlock(input, k));
    }
  }

  lemma MadeMore(bs: seq<Block>, blk: Block, input: seq<byte>)
    requires Made(bs, input) && SB_SIZE * |bs| < |input| && MadeOf(blk, SubBlock(input, |bs|))
    ensures Made(bs + [blk], input)
  {
    hide MadeOf, SubBlock;
  }

  lemma StartPacking(out: seq<byte>, input: seq<byte>)
    ensures Packing(out, 0, [], input) && Made([], input) && Tally(input, 0, |StreamBytes([])|, true)
  {
  }

  /** After k sub-blocks at most 4098 * k bytes are staged, so the next one always fits. */
  lemma StagingRoom(cbSize: nat, k: nat)
    requires cbSize % SB_SIZE == 0 && SB_SIZE * k < cbSize
    ensures 4098 * k + 4100 <= StagingSize(cbSize)
  {
  }

  /** The packing loop: either everything is staged with room for the end mark and one spare
      cluster, or it stopped because all the clusters would be needed. */
  method PackAll(outbuf: array<byte>, cs: nat, cbSize: nat, input: seq<byte>)
    returns (compsz: nat, fail: bool, allZeroes: bool, ghost bs: seq<Block>)
    requires BlockGeometry(cs, cbSize) && |input| <= cbSize && outbuf.Length == StagingSize(cbSize)
    modifies outbuf
    ensures Covers(bs, input) && Made(bs, input)
    ensures fail ==> |StreamBytes(bs)| + cs + 2 > cbSize && WorstSize(|input|) + cs + 2 > cbSize
    ensures !fail ==> |input| <= SB_SIZE * |bs| && Packing(outbuf[..], compsz, bs, input)
    ensures !fail && !allZeroes ==> compsz + cs + 2 <= cbSize
    ensures !fail && allZeroes <==> ComesToNothing(input, cs, cbSize)
  {
    hide StreamBytes, Contents, ValidBlock, Content, BlockBytes, Fit, Pad, SubBlock, Tally, Made, AllZero,
         ComesToNothing, WorstSize;
    compsz, fail, allZeroes, bs := 0, false, true, [];
    var p := 0;
    StartPacking(outbuf[..], input);
    ghost var zeroes := true;
    while p < |input| && !fail
      invariant p == SB_SIZE * |bs| && Covers(bs, input) && Made(bs, input)
                && Tally(input, |bs|, |StreamBytes(bs)|, zeroes)
      invariant if fail then |StreamBytes(bs)| + cs + 2 > cbSize && input != []
                else && Packing(outbuf[..], compsz, bs, input) && (bs == [] || compsz + cs + 2 <= cbSize)
                     && allZeroes == zeroes
      invariant bs == [] ==> allZeroes
      decreases |input| - p
    {
      StagingRoom(cbSize, |bs|);
      var sz, zero, blk := PackNext(outbuf, compsz, input, p, bs);
      TallyNext(input, |bs|, compsz, zeroes, sz, zero);
      MadeMore(bs, blk, input);
      zeroes := zeroes && zero;
      if compsz + sz + cs + 2 > cbSize {
        fail := true;
      } else {
        if allZeroes {
          allZeroes := zero;
        }
        compsz := compsz + sz;
      }
      bs := bs + [blk];
      p := p + SB_SIZE;
    }
    if fail {
      TallyOver(input, |bs|, |StreamBytes(bs)|, zeroes, cs, cbSize);
    } else {
      TallyAll(input, |bs|, |StreamBytes(bs)|, zeroes, cs, cbSize);
    }
  }

  lemma NothingZero(input: seq<byte>, cs: nat, cbSize: nat)
    requires ComesToNothing(input, cs, cbSize)
    ensures AllZero(input)
  {
  }

  lemma SpareCluster(x: nat, cs: nat, cbSize: nat)
    requires BlockGeometry(cs, cbSize) && 0 < x && x + cs <= cbSize
    ensures RoundUp(x, cs) + cs <= cbSize && RoundUp(x, cs) % cs == 0
  {
    hide RoundUp;
    var k := cbSize / cs;
    assert cbSize == k * cs;
    assert cbSize - cs == (k - 1) * cs;
    Unpack(k - 1, 0, cs);
    RoundUpFits(x, cs, cbSize - cs);
  }

  /** Add the end mark and clear the rest of the last cluster. */
  method Terminate(outbuf: array<byte>, compsz: nat, rounded: nat, ghost bs: seq<Block>)
    requires ValidBlocks(bs) && compsz + 2 <= rounded <= outbuf.Length
    requires compsz == |StreamBytes(bs)| && outbuf[..compsz] == StreamBytes(bs)
    modifies outbuf
    ensures At(outbuf[..rounded], 0, StreamBytes(bs) + [0, 0])
  {
    hide StreamBytes, At, ValidBlock;
    ghost var before := outbuf[..compsz];
    outbuf[compsz], outbuf[compsz + 1] := 0, 0;
    forall k | compsz + 2 <= k < rounded { outbuf[k] := 0; }
    AtSlice(outbuf[..rounded], 0, StreamBytes(bs) + [0, 0]);
    assert outbuf[..rounded][0..compsz + 2] == before + [0, 0];
  }

  /** The sub-blocks, all or enough of them to know that no cluster is saved, and what comes of them. */
  ghost predicate ResultOf(bs: seq<Block>, input: seq<byte>, written: int, cs: nat, cbSize: nat)
    requires cs > 0
  {
    && Covers(bs, input) && Made(bs, input)
    && if |StreamBytes(bs)| + cs + 2 > cbSize then written == -1 && WorstSize(|input|) + cs + 2 > cbSize
       else |input| <= SB_SIZE * |bs| && written == RoundUp(|StreamBytes(bs)| + 2, cs)
  }

  /** The result of ntfs_comp_set. */
  ghost predicate SetResult(input: seq<byte>, written: int, cs: nat, cbSize: nat)
    requires cs > 0
  {
    if ComesToNothing(input, cs, cbSize) then written == 0 else exists bs :: ResultOf(bs, input, written, cs, cbSize)
  }

  lemma {:induction false} StreamGrows(bs: seq<Block>, k: nat)
    requires ValidBlocks(bs) && k <= |bs|
    ensures |StreamBytes(bs[..k])| <= |StreamBytes(bs)|
    decreases |bs|
  {
    if k < |bs| {
      var front := bs[..|bs| - 1];
      StreamGrows(front, k);
      assert front[..k] == bs[..k];
    } else {
      assert bs[..k] == bs;
    }
  }

  lemma ResultOrdered(a: seq<Block>, b: seq<Block>, input: seq<byte>, x: int, y: int, cs: nat, cbSize: nat)
    requires cs > 0 && |a| <= |b| && ResultOf(a, input, x, cs, cbSize) && ResultOf(b, input, y, cs, cbSize)
    ensures x == y
  {
    hide StreamBytes, Contents, Made, Fit, WorstSize, RoundUp;
    MadeSame(a, b, input);
    StreamGrows(b, |a|);
    if |a| == |b| {
      assert b[..|a|] == b;
    }
  }

  /** Where literals would leave a cluster spare, one is left. */
  lemma ResultSaves(input: seq<byte>, w: int, cs: nat, cbSize: nat)
    requires cs > 0 && SetResult(input, w, cs, cbSize) && WorstSize(|input|) + cs + 2 <= cbSize
    ensures 0 <= w < cbSize
  {
    hide StreamBytes, Made, Covers, WorstSize, RoundUp, ComesToNothing;
    if !ComesToNothing(input, cs, cbSize) {
      var bs :| ResultOf(bs, input, w, cs, cbSize);
    }
  }

  /** The result is determined by the input. */
  lemma ResultSame(input: seq<byte>, x: int, y: int, cs: nat, cbSize: nat)
    requires cs > 0 && SetResult(input, x, cs, cbSize) && SetResult(input, y, cs, cbSize)
    ensures x == y
  {
    hide ResultOf, ComesToNothing;
    if !ComesToNothing(input, cs, cbSize) {
      var a :| ResultOf(a, input, x, cs, cbSize);
      var b :| ResultOf(b, input, y, cs, cbSize);
      if |a| <= |b| {
        ResultOrdered(a, b, input, x, y, cs, cbSize);
      } else {
        ResultOrdered(b, a, input, y, x, cs, cbSize);
      }
    }
  }

  /** ntfs_comp_set. A positive result is the size stored; 0 means zeroes of which nothing was
      stored; -1 means that what the encoder made does not save a cluster. */
  method CompSet(disk: array<byte>, cs: nat, cbSize: nat, rl: array<Run>, ghost n: nat, r: nat, offs: nat,
                 input: seq<byte>)
    returns (written: int, ghost stage: seq<byte>, ghost bs: seq<Block>)
    requires BlockGeometry(cs, cbSize) && |input| <= cbSize
    requires r < n <= rl.Length && Writable(disk.Length, rl[..n], r, cs) && offs < rl[r].length * cs
    requires Offset(rl[..n], r, cs) + offs + cbSize <= |Flat(disk[..], rl[..n], cs)|
    modifies disk
    ensures written <= 0 ==> disk[..] == old(disk[..])
    ensures written == 0 <==> ComesToNothing(input, cs, cbSize)
    ensures written == 0 ==> AllZero(input)
    ensures written < 0 ==> written == -1 && Covers(bs, input) && Made(bs, input) && |StreamBytes(bs)| + cs + 2 > cbSize
    ensures written < 0 ==> WorstSize(|input|) + cs + 2 > cbSize
    ensures SetResult(input, written, cs, cbSize)
    ensures written > 0 ==>
              && Covers(bs, input) && Made(bs, input) && |input| <= SB_SIZE * |bs|
              && |StreamBytes(bs)| + cs + 2 <= cbSize
              && |stage| == written == RoundUp(|StreamBytes(bs)| + 2, cs) && written % cs == 0 && written + cs <= cbSize
              && Encodes(stage, bs, input)
              && Flat(disk[..], rl[..n], cs)
                 == Patch(Flat(old(disk[..]), rl[..n], cs), Offset(rl[..n], r, cs) + offs, stage)
  {
    hide StreamBytes, Contents, ValidBlock, Flat, OnDisk, Apart, Cells, Patch, Fit, ComesToNothing, WorstSize, Made,
         AllZero;
    var outbuf := new byte[StagingSize(cbSize)];
    var compsz, fail, allZeroes;
    stage := [];
    compsz, fail, allZeroes, bs := PackAll(outbuf, cs, cbSize, input);
    written := -1;
    if !fail && !allZeroes {
      var rounded := RoundUp(compsz + 2, cs);
      SpareCluster(compsz + 2, cs, cbSize);
      Terminate(outbuf, compsz, rounded, bs);
      stage := outbuf[..rounded];
      written := WriteClusters(disk, cs, rl, n, r, offs, outbuf[..rounded]);
      assert ResultOf(bs, input, written, cs, cbSize);
    } else if fail {
      assert ResultOf(bs, input, written, cs, cbSize);
    } else {
      written := 0;
      NothingZero(input, cs, cbSize);
    }
  }
}

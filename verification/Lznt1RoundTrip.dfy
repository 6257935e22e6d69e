/** Decoding undoes the LZNT1 layout, and decoding a shorter buffer gives a prefix. */
module Lznt1RoundTrip {
  import opened Bytes
  import opened Lznt1Format

  /** s occurs in cb at position at. */
  predicate At(cb: seq<byte>, at: nat, s: seq<byte>)
    decreases |s|
  {
    s == [] || (at < |cb| && cb[at] == s[0] && At(cb, at + 1, s[1..]))
  }

  lemma {:induction false} AtSplit(cb: seq<byte>, at: nat, a: seq<byte>, b: seq<byte>)
    requires At(cb, at, a + b)
    ensures At(cb, at, a) && At(cb, at + |a|, b)
    decreases |a|
  {
    if a == [] {
      assert a + b == b;
    } else {
      assert (a + b)[1..] == a[1..] + b;
      AtSplit(cb, at + 1, a[1..], b);
    }
  }

  lemma {:induction false} AtSlice(cb: seq<byte>, at: nat, s: seq<byte>)
    requires at <= |cb|
    ensures At(cb, at, s) <==> at + |s| <= |cb| && cb[at..at + |s|] == s
    decreases |s|
  {
    if s != [] && at < |cb| {
      AtSlice(cb, at + 1, s[1..]);
      if at + |s| <= |cb| {
        var w := cb[at..at + |s|];
        assert w[0] == cb[at] && w[1..] == cb[at + 1..at + |s|];
        assert w == s <==> w[0] == s[0] && w[1..] == s[1..] by {
          assert w == [w[0]] + w[1..];
          assert s == [s[0]] + s[1..];
        }
      }
    }
  }

  lemma AtToken(cb: seq<byte>, at: nat, t: Token, rest: seq<byte>)
    requires At(cb, at, TokenBytes(t) + rest)
    ensures at < |cb|
    ensures t.Symbol? ==> cb[at] == t.b
    ensures t.Phrase? ==> at + 1 < |cb| && Word(cb[at], cb[at + 1]) == t.pt
    ensures At(cb, at + |TokenBytes(t)|, rest)
  {
    AtSplit(cb, at, TokenBytes(t), rest);
  }

  /** One token of a group: the decoder takes exactly the step that Apply describes. */
  lemma GroupStep(cb: seq<byte>, at: nat, end: nat, t: Token, tag: nat, left: nat, out: seq<byte>)
    requires at < end <= |cb| && |out| <= SB_SIZE && left > 0
    requires t.Symbol? ==> cb[at] == t.b
    requires t.Phrase? ==> at + 1 < |cb| && Word(cb[at], cb[at + 1]) == t.pt
    requires Apply(out, t).Some?
    ensures DecodeGroup(cb, at, end, (if t.Phrase? then 1 else 0) + 2 * tag, left, out)
            == DecodeGroup(cb, at + |TokenBytes(t)|, end, tag, left - 1, Apply(out, t).value)
  {
    hide PhraseDistance, PhraseLength, CopyBack, Word;
  }

  lemma {:induction false} GroupRoundTrip(cb: seq<byte>, at: nat, end: nat, g: seq<Token>, left: nat, out: seq<byte>)
    requires end <= |cb| && |out| <= SB_SIZE
    requires At(cb, at, Body(g)) && at + |Body(g)| <= end
    requires |g| <= left && (|g| == left || at + |Body(g)| == end)
    requires Run(out, g).Some?
    ensures |Run(out, g).value| <= SB_SIZE
    ensures DecodeGroup(cb, at, end, TagOf(g), left, out) == Group(at + |Body(g)|, Run(out, g).value)
    decreases |g|
  {
    hide Apply, At, TokenBytes, Word;
    RunBound(out, g);
    if g != [] {
      AtToken(cb, at, g[0], Body(g[1..]));
      GroupStep(cb, at, end, g[0], TagOf(g[1..]), left, out);
      GroupRoundTrip(cb, at + |TokenBytes(g[0])|, end, g[1..], left - 1, Apply(out, g[0]).value);
    }
  }

  lemma RunNone(out: seq<byte>)
    ensures Run(out, []) == Some(out)
  {
  }

  lemma {:induction false} TagsRoundTrip(cb: seq<byte>, at: nat, end: nat, toks: seq<Token>, out: seq<byte>)
    requires end <= |cb| && |out| <= SB_SIZE
    requires At(cb, at, Serialize(toks)) && at + |Serialize(toks)| == end
    requires Run(out, toks).Some?
    ensures |Run(out, toks).value| <= SB_SIZE
    ensures DecodeTags(cb, at, end, out) == Decoded(Pad(Run(out, toks).value))
    decreases |toks|
  {
    hide Apply, Body, DecodeGroup, Pad, Run;
    RunBound(out, toks);
    if toks == [] {
      RunNone(out);
    } else {
      var n := GroupLen(toks);
      var g, rest := toks[..n], toks[n..];
      assert Run(out, g + rest) == Run(out, toks) by { assert toks == g + rest; }
      RunAppend(out, g, rest);
      AtSplit(cb, at, [TagByte(g)] + Body(g), Serialize(rest));
      AtSplit(cb, at, [TagByte(g)], Body(g));
      GroupRoundTrip(cb, at + 1, end, g, 8, out);
      TagsRoundTrip(cb, at + 1 + |Body(g)|, end, rest, Run(out, g).value);
    }
  }

  /** A block found at at decodes to its content, and its header is never the end mark. */
  lemma BlockRoundTrip(cb: seq<byte>, at: nat, b: Block)
    requires ValidBlock(b) && At(cb, at, BlockBytes(b)) && at + 6 <= |cb|
    ensures Header(cb, at) != 0
    ensures BlockEnd(cb, at) == at + |BlockBytes(b)|
    ensures DecodeBlock(cb, at) == Decoded(Content(b))
  {
    hide Run, Serialize, DecodeTags;
    var bytes := BlockBytes(b);
    AtSlice(cb, at, bytes);
    assert cb[at] == cb[at..at + |bytes|][0] && cb[at + 1] == cb[at..at + |bytes|][1];
    match b
    case Packed(toks) =>
      SerializeLong(toks);
      assert BlockEnd(cb, at) == at + |bytes|;
      AtSplit(cb, at, bytes[..2], Serialize(toks)) by { assert bytes == bytes[..2] + Serialize(toks); }
      TagsRoundTrip(cb, at + 2, at + |bytes|, toks, []);
    case Stored(data) =>
      assert cb[at + 2..at + |bytes|] == bytes[2..] == data;
  }

  ghost predicate ValidBlocks(bs: seq<Block>) {
    forall k :: 0 <= k < |bs| ==> ValidBlock(bs[k])
  }

  ghost function StreamBytes(bs: seq<Block>): (s: seq<byte>)
    requires ValidBlocks(bs)
    ensures |s| <= 4098 * |bs|
  {
    if bs == [] then [] else StreamBytes(bs[..|bs| - 1]) + BlockBytes(bs[|bs| - 1])
  }

  ghost function Contents(bs: seq<Block>): (s: seq<byte>)
    requires ValidBlocks(bs)
    ensures |s| == 4096 * |bs|
  {
    if bs == [] then [] else Contents(bs[..|bs| - 1]) + Content(bs[|bs| - 1])
  }

  lemma BlocksMore(bs: seq<Block>, blk: Block)
    requires ValidBlocks(bs) && ValidBlock(blk)
    ensures ValidBlocks(bs + [blk])
    ensures StreamBytes(bs + [blk]) == StreamBytes(bs) + BlockBytes(blk)
    ensures Contents(bs + [blk]) == Contents(bs) + Content(blk)
  {
    hide ValidBlock, BlockBytes, Content;
    assert (bs + [blk])[..|bs|] == bs;
  }

  function Fit(s: seq<byte>, n: nat): (r: seq<byte>)
    ensures |r| == n
  {
    if |s| >= n then s[..n] else s + Zeros(n - |s|)
  }

  lemma {:induction false} ContentsPrefix(bs: seq<Block>, k: nat)
    requires ValidBlocks(bs) && k <= |bs|
    ensures Contents(bs[..k]) == Contents(bs)[..4096 * k]
    decreases |bs|
  {
    if k < |bs| {
      ContentsPrefix(bs[..|bs| - 1], k);
      assert bs[..|bs| - 1][..k] == bs[..k];
    } else {
      assert bs[..k] == bs;
    }
  }

  lemma FitContents(bs: seq<Block>, n: nat, k: nat)
    requires ValidBlocks(bs) && k == (if n < |bs| then n else |bs|)
    ensures |Contents(bs[..k])| <= 4096 * n
    ensures Contents(bs[..k]) + Zeros(4096 * n - |Contents(bs[..k])|) == Fit(Contents(bs), 4096 * n)
  {
    ContentsPrefix(bs, k);
  }

  lemma StreamStop(cb: seq<byte>, at: nat, size: nat, out: seq<byte>)
    requires at + 1 < |cb| && |out| <= size
    requires Header(cb, at) == 0 || |out| == size
    ensures DecodeStream(cb, at, size, out) == Decoded(out + Zeros(size - |out|))
  {
  }

  /** Block k of the stream sits behind the first k blocks, with two more bytes after it. */
  lemma {:induction false} BlockInside(cb: seq<byte>, bs: seq<Block>, k: nat)
    requires ValidBlocks(bs) && k < |bs|
    requires At(cb, 0, StreamBytes(bs)) && |StreamBytes(bs)| + 2 <= |cb|
    ensures At(cb, |StreamBytes(bs[..k])|, BlockBytes(bs[k]))
    ensures |StreamBytes(bs[..k])| + 6 <= |cb|
    decreases |bs|
  {
    hide At, BlockBytes;
    var m := |bs| - 1;
    AtSplit(cb, 0, StreamBytes(bs[..m]), BlockBytes(bs[m]));
    if k < m {
      BlockInside(cb, bs[..m], k);
      assert bs[..m][..k] == bs[..k];
    }
  }

  lemma {:induction false} StreamPrefix(cb: seq<byte>, bs: seq<Block>, n: nat, k: nat) returns (at: nat)
    requires ValidBlocks(bs) && k <= |bs| && k <= n
    requires At(cb, 0, StreamBytes(bs)) && |StreamBytes(bs)| + 2 <= |cb|
    ensures at == |StreamBytes(bs[..k])| && at <= |cb|
    ensures |Contents(bs[..k])| <= 4096 * n
    ensures Decode(cb, 4096 * n) == DecodeStream(cb, at, 4096 * n, Contents(bs[..k]))
    decreases k
  {
    hide At, DecodeBlock, BlockBytes, Content;
    if k == 0 {
      at := 0;
    } else {
      var prev := StreamPrefix(cb, bs, n, k - 1);
      BlockInside(cb, bs, k - 1);
      BlockRoundTrip(cb, prev, bs[k - 1]);
      assert bs[..k][..k - 1] == bs[..k - 1];
      at := prev + |BlockBytes(bs[k - 1])|;
    }
  }

  /** A stream of blocks behind which the end mark stands decodes, into any whole number of
      sub-blocks, to the blocks' contents cut or zero-filled to that size. */
  lemma {:induction false} StreamRoundTrip(cb: seq<byte>, bs: seq<Block>, n: nat)
    requires ValidBlocks(bs) && At(cb, 0, StreamBytes(bs) + [0, 0])
    ensures Decode(cb, 4096 * n) == Decoded(Fit(Contents(bs), 4096 * n))
  {
    hide DecodeStream, BlockBytes, Content, At, Contents, StreamBytes, Fit, Zeros;
    AtSplit(cb, 0, StreamBytes(bs), [0, 0]);
    AtSlice(cb, |StreamBytes(bs)|, [0, 0]);
    var k := if n < |bs| then n else |bs|;
    var at := StreamPrefix(cb, bs, n, k);
    if k < |bs| {
      BlockInside(cb, bs, k);
    } else {
      assert bs[..|bs|] == bs;
      assert cb[at..at + 2][0] == cb[at] && cb[at..at + 2][1] == cb[at + 1];
    }
    FitContents(bs, n, k);
    StreamStop(cb, at, 4096 * n, Contents(bs[..k]));
    calc {
      Decode(cb, 4096 * n);
      DecodeStream(cb, at, 4096 * n, Contents(bs[..k]));
      Decoded(Contents(bs[..k]) + Zeros(4096 * n - |Contents(bs[..k])|));
      Decoded(Fit(Contents(bs), 4096 * n));
    }
  }

  /** Stopping the decoder at a smaller whole number of sub-blocks yields a prefix. */
  lemma {:induction false} PrefixDecode(cb: seq<byte>, at: nat, small: nat, size: nat, out: seq<byte>)
    requires at <= |cb| && |out| <= 4096 * small && 4096 * small <= size
    requires |out| % SB_SIZE == 0
    requires DecodeStream(cb, at, size, out).Decoded?
    ensures DecodeStream(cb, at, 4096 * small, out)
            == Decoded(DecodeStream(cb, at, size, out).bytes[..4096 * small])
    decreases |cb| - at
  {
    hide DecodeBlock, BlockEnd;
    var full := DecodeStream(cb, at, size, out);
    if at == |cb| || Header(cb, at) == 0 || |out| == size {
      assert out + Zeros(4096 * small - |out|) == full.bytes[..4096 * small];
    } else if |out| == 4096 * small {
      assert out + Zeros(0) == out;
      assert full.bytes[..|out|] == out;
    } else {
      var b := DecodeBlock(cb, at).bytes;
      assert |out| + SB_SIZE <= 4096 * small;
      PrefixDecode(cb, BlockEnd(cb, at), small, size, out + b);
    }
  }
}

/** The main loop of ntfs_compress_block: lazy parsing over one sub-block. */
module Lznt1Compressor {
  import opened Bytes
  import opened Lznt1Format
  import opened Lznt1Matcher
  import opened Lznt1Encoder
  import opened Lznt1Lazy
  import opened Lznt1Zeros

  /** The encoder's length limit is the format's. */
  lemma LimitIs(bp: nat, i: nat)
    requires BitsFor(bp, i) && i <= SB_SIZE
    ensures Limit(i) == Pow2(16 - bp) + 2
  {
    if i > 0 {
      BitsAgree(bp, i);
    } else {
      Pow2Table();
    }
  }

  lemma LiteralRule(s: seq<byte>, i: nat)
    requires i < |s| <= SB_SIZE && LiteralHere(s, i)
    ensures Rule(s, i, Symbol(s[i]))
  {
  }

  lemma PhraseRule(s: seq<byte>, i: nat, dist: nat, len: nat, q: word)
    requires i < |s| <= SB_SIZE && PhraseHere(s, i, dist, len)
    requires PhraseDistance(q, i) == dist && PhraseLength(q, i) == len
    ensures Rule(s, i, Phrase(q))
  {
    hide PhraseHere;
  }

  /** What a phrase taken by the rule is in itself. */
  lemma PhraseParts(s: seq<byte>, i: nat, dist: nat, len: nat)
    requires i <= SB_SIZE && PhraseHere(s, i, dist, len)
    ensures 1 <= dist <= i && 3 <= len <= Limit(i) && i + len <= |s| && Agree(s, i - dist, i, len)
  {
  }

  /** The three ways the search lets a token follow the rule. */
  lemma NothingFound(s: seq<byte>, i: nat, len: nat, rel: int, limit: nat)
    requires Found(s, i, 2, len, rel, limit) && len < 3
    ensures LiteralHere(s, i)
  {
  }

  lemma LongFound(s: seq<byte>, i: nat, len: nat, rel: int)
    requires i <= SB_SIZE && Found(s, i, 2, len, rel, Limit(i)) && len >= NICE_MATCH_LEN
    ensures 0 < -rel <= i && PhraseHere(s, i, -rel, len)
  {
  }

  lemma FoundFits(s: seq<byte>, i: nat, len: nat, rel: int, limit: nat)
    requires Found(s, i, 2, len, rel, limit) && len >= 3
    ensures i + len <= |s|
  {
  }

  lemma FoundMore(s: seq<byte>, i: nat, from: nat, len: nat, rel: int, limit: nat)
    requires Found(s, i, from, len, rel, limit)
    ensures len >= from && (len > from ==> i + len <= |s|)
  {
  }

  /** A match of middling length, and what the search for a longer one at the next position found. */
  lemma LazyFound(s: seq<byte>, i: nat, len: nat, rel: int, len': nat, rel': int, limit': nat)
    requires i <= SB_SIZE && Found(s, i, 2, len, rel, Limit(i)) && 3 <= len < NICE_MATCH_LEN
    requires Found(s, i + 1, len, len', rel', limit')
    ensures len' == len ==> 0 < -rel <= i && PhraseHere(s, i, -rel, len)
    ensures len' > len ==> LiteralHere(s, i) && Found(s, i + 1, 2, len', rel', limit')
  {
    hide Real, Best;
    if len' > len {
      RealBeats(s, i + 1 + rel', i + 1, len', limit', len);
      assert Outdone(s, i, len);
    }
  }

  class Compressor {
    const mf: MatchFinder
    const w: TokenWriter
    var i: nat
    var bp: nat
    var mxoff: nat
    var haveMatch: bool

    constructor (input: seq<byte>, buf: array<byte>, base: nat)
      requires |input| <= SB_SIZE && base + OUT_SIZE <= buf.Length
      ensures Valid() && mf.input == input && w.buf == buf && w.base == base
      ensures i == 0 && w.xout == 3 && w.cur == [] && w.full == [] && !haveMatch
      ensures fresh(mf) && fresh(mf.head) && fresh(mf.prev) && fresh(w)
    {
      mf := new MatchFinder(input);
      w := new TokenWriter(buf, base);
      i, bp, mxoff, haveMatch := 0, 4, 16, false;
      new;
      mf.mxsz := 4098;
      Pow2Table();
      assert input[..0] == [];
    }

    ghost predicate Apart()
      reads this
    {
      && mf.head != mf.prev
      && (mf.head as object) != w.buf && (mf.prev as object) != w.buf
    }

    /** Offset bits never overshoot what the current position needs. */
    ghost predicate Bits()
      reads this, mf
    {
      && 4 <= bp <= 12 && mxoff == Pow2(bp) && mf.mxsz == Pow2(16 - bp) + 2
      && (bp == 4 || Pow2(bp - 1) < i)
    }

    ghost predicate Searching()
      reads this, mf, mf.head, mf.prev
    {
      && mf.Valid() && i <= |mf.input| && Bits()
      && if haveMatch
         then && i < |mf.input| && mf.next == i + 1 && i <= Pow2(bp) && mf.size >= 3
              && Found(mf.input, i, 2, mf.size, mf.rel, mf.mxsz)
         else mf.next == i
    }

    ghost function Tokens(): seq<Token>
      reads w
    {
      w.full + w.cur
    }

    /** The tokens written so far follow the rule and stand for exactly the first i bytes of the input. */
    ghost predicate Parsed()
      reads this, w
    {
      i <= |mf.input| && Run([], Tokens()) == Some(mf.input[..i]) && Lazy(mf.input, Tokens())
    }

    ghost predicate Valid()
      reads this, mf, mf.head, mf.prev, w, w.buf
    {
      Apart() && Searching() && w.Valid() && Parsed()
    }

    /** Widen the offset field until it reaches back over the whole output. */
    method AdjustBits()
      requires mf.Valid() && Bits() && i <= |mf.input|
      modifies `bp, `mxoff, mf`mxsz
      ensures mf.Valid() && Bits() && BitsFor(bp, i)
    {
      while mxoff < i
        invariant mf.Valid() && Bits()
        decreases 12 - bp
      {
        assert bp < 12 by { Pow2Table(); }
        bp := bp + 1;
        mxoff := mxoff * 2;
        mf.mxsz := (mf.mxsz + 2) / 2;
      }
    }

    /** The single widening step that suffices for the next position. */
    method AdjustForNext()
      requires mf.Valid() && Bits() && BitsFor(bp, i) && i + 1 <= |mf.input|
      modifies `bp, `mxoff, mf`mxsz
      ensures mf.Valid() && 4 <= bp <= 12 && mxoff == Pow2(bp) && mf.mxsz == Pow2(16 - bp) + 2
      ensures BitsFor(bp, i + 1)
    {
      Pow2Table();
      if mxoff < i + 1 {
        assert bp < 12 by { Pow2Table(); }
        bp := bp + 1;
        mxoff := mxoff * 2;
        mf.mxsz := (mf.mxsz + 2) / 2;
      }
    }

    /** Offer the positions from a up to j to the match finder without searching. */
    method SkipTo(a: nat, j: nat)
      requires mf.Valid() && mf.next == a && a < j <= |mf.input|
      modifies mf`next, mf.head, mf.prev
      ensures mf.Valid() && mf.next == j
    {
      mf.SkipPosition(a);
      var k := a + 1;
      while k != j
        invariant a < k <= j && mf.Valid() && mf.next == k
        decreases j - k
      {
        mf.SkipPosition(k);
        k := k + 1;
      }
    }

    lemma WideEnough()
      requires 4 <= bp <= 12 && mf.mxsz == Pow2(16 - bp) + 2
      ensures mf.mxsz >= NICE_MATCH_LEN
    {
      Pow2Table();
      Pow2Monotone(4, 16 - bp);
    }

    /** Find the best match at the current position, unless the lazy search already has it. */
    method FindMatch()
      requires Apart() && Searching() && i < |mf.input|
      modifies this, mf, mf.head, mf.prev
      ensures mf.Valid() && Bits() && BitsFor(bp, i) && i == old(i) && mf.next == i + 1
      ensures mf.mxsz == Limit(i) && Found(mf.input, i, 2, mf.size, mf.rel, mf.mxsz)
    {
      hide Found, Limit, Pow2;
      if !haveMatch {
        AdjustBits();
        WideEnough();
        mf.BestMatch(i, 2);
      }
      LimitIs(bp, i);
    }

    method EmitLiteral()
      requires Apart() && w.Valid() && Parsed() && i < |mf.input| <= SB_SIZE && |w.cur| < 8 && w.xout < OUT_SIZE
      requires LiteralHere(mf.input, i)
      modifies `i, w, w.buf
      ensures w.Valid() && Parsed() && i == old(i) + 1 && w.xout == old(w.xout) + 1
      ensures w.buf[..w.base] == old(w.buf[..w.base])
    {
      hide Run, Serialize, Body, TagOf, Lazy, LiteralHere, Rule;
      LiteralRule(mf.input, i);
      LazyMore(mf.input, Tokens(), i, Symbol(mf.input[i]));
      ghost var toks := w.full + w.cur;
      var b := mf.input[i];
      w.PutSymbol(b);
      i := i + 1;
      assert mf.input[..i] == mf.input[..i - 1] + [b];
      RunMore(toks, Symbol(b), mf.input, i - 1, i);
      assert w.full + w.cur == toks + [Symbol(b)];
    }

    /** Write the match found with offset offs and length len under bit count bits. */
    method EmitMatch(offs: int, len: nat, bits: nat)
      requires Apart() && w.Valid() && Parsed() && |w.cur| < 8 && w.xout + 1 < OUT_SIZE
      requires BitsFor(bits, i) && i < |mf.input| <= SB_SIZE && offs < 0 && PhraseHere(mf.input, i, -offs, len)
      modifies `i, w, w.buf
      ensures w.Valid() && Parsed() && i == old(i) + len && i <= |mf.input| && len >= 3 && w.xout == old(w.xout) + 2
      ensures w.buf[..w.base] == old(w.buf[..w.base])
    {
      hide Run, Serialize, Body, TagOf, Apply, Agree, Pow2, Lazy, Rule, PhraseHere, Limit, PhraseDistance, PhraseLength;
      ghost var toks := w.full + w.cur;
      PhraseParts(mf.input, i, -offs, len);
      LimitIs(bits, i);
      PhraseEncodes(mf.input, i, -offs, len, bits);
      var q := PhraseWord(-offs, len, bits);
      PhraseRule(mf.input, i, -offs, len, q);
      LazyMore(mf.input, toks, i, Phrase(q));
      w.PutPhrase(q);
      RunMore(toks, Phrase(q), mf.input, i, i + len);
      i := i + len;
      assert w.full + w.cur == toks + [Phrase(q)];
    }

    /** One round of the lazy parser: a literal, or a match with the positions it covers. */
    method Step() returns (atEnd: bool)
      requires Valid() && i < |mf.input| && |w.cur| < 8 && w.xout < SB_SIZE + 2
      modifies this, mf, mf.head, mf.prev, w, w.buf
      ensures w.Valid() && Parsed() && i > old(i) && w.xout <= old(w.xout) + 2
      ensures if atEnd then i == |mf.input| else Valid()
      ensures w.buf[..w.base] == old(w.buf[..w.base])
    {
      hide Run, Agree, Pow2, Serialize, Body, TagOf, Found, Lazy, LiteralHere, PhraseHere, Limit, MatchFinder.Valid,
           TokenWriter.Valid;
      FindMatch();
      mf.SizeBound();
      atEnd := false;
      if mf.size < 3 {
        NothingFound(mf.input, i, mf.size, mf.rel, mf.mxsz);
        EmitLiteral();
        haveMatch := false;
      } else if mf.size >= NICE_MATCH_LEN {
        atEnd := TakeLong();
      } else {
        TakeLazy();
      }
    }

    method TakeLong() returns (atEnd: bool)
      requires Apart() && w.Valid() && Parsed() && i < |mf.input| && |w.cur| < 8 && w.xout < SB_SIZE + 2
      requires mf.Valid() && Bits() && BitsFor(bp, i) && mf.next == i + 1 && mf.mxsz == Limit(i)
      requires mf.size >= NICE_MATCH_LEN && Found(mf.input, i, 2, mf.size, mf.rel, mf.mxsz)
      modifies this, mf, mf.head, mf.prev, w, w.buf
      ensures w.Valid() && Parsed() && i > old(i) && w.xout <= old(w.xout) + 2
      ensures if atEnd then i == |mf.input| else Valid()
      ensures w.buf[..w.base] == old(w.buf[..w.base])
    {
      hide Run, Agree, Pow2, Serialize, Body, TagOf, Found, Lazy, PhraseHere, Limit;
      var first := i + 1;
      LongFound(mf.input, i, mf.size, mf.rel);
      EmitMatch(mf.rel, mf.size, bp);
      haveMatch, atEnd := false, false;
      if i == |mf.input| {
        return true;
      }
      SkipTo(first, i);
    }

    /** Search the next position for a match longer than the current one. */
    method LookAhead() returns (longer: bool)
      requires Apart() && mf.Valid() && Bits() && BitsFor(bp, i) && mf.next == i + 1 && i + 1 < |mf.input|
      requires 3 <= mf.size < NICE_MATCH_LEN
      modifies this, mf, mf.head, mf.prev
      ensures i == old(i) && mf.Valid() && mf.next == i + 2
      ensures 4 <= bp <= 12 && mxoff == Pow2(bp) && mf.mxsz == Pow2(16 - bp) + 2 && BitsFor(bp, i + 1)
      ensures Found(mf.input, i + 1, old(mf.size), mf.size, mf.rel, mf.mxsz)
      ensures longer <==> mf.size > old(mf.size)
    {
      hide Agree, Pow2, Found;
      var size := mf.size;
      AdjustForNext();
      WideEnough();
      mf.BestMatch(i + 1, size);
      longer := i + 1 + mf.size > i + size + 1;
    }

    method TakeLazy()
      requires Apart() && w.Valid() && Parsed() && i < |mf.input| && |w.cur| < 8 && w.xout < SB_SIZE + 2
      requires mf.Valid() && Bits() && BitsFor(bp, i) && mf.next == i + 1 && mf.mxsz == Limit(i)
      requires 3 <= mf.size < NICE_MATCH_LEN && Found(mf.input, i, 2, mf.size, mf.rel, mf.mxsz)
      modifies this, mf, mf.head, mf.prev, w, w.buf
      ensures Valid() && i > old(i) && w.xout <= old(w.xout) + 2
      ensures w.buf[..w.base] == old(w.buf[..w.base])
    {
      hide Run, Agree, Pow2, Serialize, Body, TagOf, Found, Lazy, PhraseHere, LiteralHere, Limit, MatchFinder.Valid,
           TokenWriter.Valid;
      mf.SizeBound();
      var len, bpCur, offs := mf.size, bp, mf.rel;
      FoundFits(mf.input, i, len, offs, mf.mxsz);
      var longer := LookAhead();
      LazyFound(mf.input, i, len, offs, mf.size, mf.rel, mf.mxsz);
      FoundMore(mf.input, i + 1, len, mf.size, mf.rel, mf.mxsz);
      if longer {
        EmitLiteral();
        haveMatch := true;
      } else {
        var second := i + 2;
        EmitMatch(offs, len, bpCur);
        SkipTo(second, i);
        haveMatch := false;
      }
    }
  }

  /** Tokenize the input into buf until it is used up or the block would not get smaller. */
  method Tokenize(c: Compressor)
    requires c.Valid() && c.i == 0 && |c.mf.input| > 0 && c.w.cur == [] && c.w.full == [] && c.w.xout == 3
    modifies c, c.mf, c.mf.head, c.mf.prev, c.w, c.w.buf
    ensures c.w.Valid() && c.Parsed() && c.i > 0
    ensures c.i < |c.mf.input| ==> c.w.xout >= SB_SIZE + 2
    ensures c.w.buf[..c.w.base] == old(c.w.buf[..c.w.base])
  {
    hide Run, Agree, Pow2, Serialize, Body, TagOf, Found, Lazy;
    while c.i < |c.mf.input| && c.w.xout < SB_SIZE + 2
      invariant c.Valid() && |c.w.cur| < 8 && c.w.xout <= OUT_SIZE
      invariant c.i == 0 ==> c.w.xout == 3
      invariant c.w.buf[..c.w.base] == old(c.w.buf[..c.w.base])
      decreases |c.mf.input| - c.i
    {
      var atEnd := c.Step();
      if atEnd { break; }
      c.w.FlushTag();
    }
  }

  /** Header of a compressed sub-block, in front of the tokens already in place. */
  method WritePackedHeader(buf: array<byte>, base: nat, sz: nat, ghost toks: seq<Token>)
    requires 4 <= sz < SB_SIZE + 2 && base + sz <= buf.Length
    requires ValidBlock(Packed(toks)) && buf[base + 2..base + sz] == Serialize(toks)
    modifies buf
    ensures buf[base..base + sz] == BlockBytes(Packed(toks))
    ensures buf[..base] == old(buf[..base])
  {
    hide Run, Serialize;
    buf[base] := (sz - 3) % 256;
    buf[base + 1] := 0xb0 + (sz - 3) / 256 % 16;
    assert buf[base..base + sz] == [buf[base], buf[base + 1]] + buf[base + 2..base + sz];
  }

  /** Uncompressed sub-block: header, the input, and zeroes up to the full size. */
  method WriteStored(buf: array<byte>, base: nat, input: seq<byte>)
    requires |input| <= SB_SIZE && base + SB_SIZE + 2 <= buf.Length
    modifies buf
    ensures buf[base..base + SB_SIZE + 2] == BlockBytes(Stored(Pad(input)))
    ensures buf[..base] == old(buf[..base])
  {
    forall k | 0 <= k < |input| { buf[base + 2 + k] := input[k]; }
    forall k | |input| <= k < SB_SIZE { buf[base + 2 + k] := 0; }
    buf[base], buf[base + 1] := 0xff, 0x3f;
    assert buf[base..base + SB_SIZE + 2] == [0xff, 0x3f] + Pad(input);
  }

  lemma SomeToken(toks: seq<Token>, out: seq<byte>)
    requires Run([], toks) == Some(out) && out != []
    ensures toks != [] && |Serialize(toks)| >= 2
  {
    SerializeLong(toks);
  }

  /** Run the compressor over the input: the first i bytes end up as the tokens of blk. */
  method Squeeze(input: seq<byte>, buf: array<byte>, base: nat) returns (sz: nat, i: nat, ghost toks: seq<Token>)
    requires 1 <= |input| <= SB_SIZE && base + OUT_SIZE <= buf.Length
    modifies buf
    ensures toks != [] && 0 < i <= |input| && 4 <= sz <= OUT_SIZE
    ensures Run([], toks) == Some(input[..i]) && Lazy(input, toks)
    ensures buf[base + 2..base + sz] == Serialize(toks)
    ensures i < |input| ==> sz >= SB_SIZE + 1
    ensures buf[..base] == old(buf[..base])
  {
    hide Run, Serialize, Body, TagOf, Pow2, Agree, Lazy;
    var c := new Compressor(input, buf, base);
    Tokenize(c);
    toks := c.w.full + c.w.cur;
    SomeToken(toks, input[..c.i]);
    c.w.Finish();
    sz, i := c.w.xout, c.i;
  }

  /** Bytes taken by n literals with their tags. */
  function LiteralSize(n: nat): nat {
    n + (n + 7) / 8
  }

  lemma {:induction false} BodyBound(out: seq<byte>, toks: seq<Token>)
    requires Run(out, toks).Some?
    ensures |out| + |Body(toks)| <= |Run(out, toks).value|
    decreases |toks|
  {
    if toks != [] {
      var out' := Apply(out, toks[0]).value;
      assert |out'| >= |out| + |TokenBytes(toks[0])|;
      BodyBound(out', toks[1..]);
    }
  }

  /** No token sequence takes more room than spelling its text out as literals. */
  lemma SerializeBound(toks: seq<Token>, text: seq<byte>)
    requires Run([], toks) == Some(text)
    ensures |Serialize(toks)| <= LiteralSize(|text|)
  {
    RunBound([], toks);
    BodyBound([], toks);
    TagCount(toks);
  }

  lemma BodyOf(toks: seq<Token>)
    requires 2 <= |toks| <= 3 && toks[0].Symbol? && toks[1].Phrase? && (|toks| == 3 ==> toks[2].Symbol?)
    ensures |Body(toks)| == |toks| + 1
  {
    var rest := toks[2..];
    assert toks == [toks[0]] + ([toks[1]] + rest);
    assert Body(toks) == TokenBytes(toks[0]) + Body([toks[1]] + rest);
    assert ([toks[1]] + rest)[1..] == rest;
    if |toks| == 3 {
      assert rest == [toks[2]] && rest[1..] == [];
    }
  }

  /** Few tokens never take as much room as storing the input. */
  lemma FewTokens(blk: Block, input: seq<byte>, toks: seq<Token>, i: nat)
    requires |input| <= SB_SIZE && MadeBy(blk, input, toks, i) && |toks| <= 8
    ensures i == |input| && blk == Packed(toks)
  {
    hide Run, Lazy, Serialize;
    TagCount(toks);
  }

  /** n bytes that are equal, followed by nothing or one other byte. */
  lemma EqualMade(blk: Block, input: seq<byte>, toks: seq<Token>, i: nat, n: nat)
    requires |input| <= SB_SIZE && MadeBy(blk, input, toks, i) && EqualRun(input, n) && n > 4
    ensures blk == Packed(toks) && |toks| == |input| - n + 2 && toks[0] == Symbol(input[0]) && toks[1].Phrase?
    ensures |toks| == 3 ==> toks[2] == Symbol(input[n])
    ensures |Serialize(toks)| == |toks| + 2
  {
    hide Run, Lazy, Serialize;
    EqualTokens(input, n, toks);
    FewTokens(blk, input, toks, i);
    assert input[..i] == input;
    TagCount(toks);
    BodyOf(toks);
  }

  /** Zeroes are packed into their own tokens. */
  lemma ZeroMade(blk: Block, sub: seq<byte>, toks: seq<Token>, i: nat)
    requires AllZero(sub) && 0 < |sub| <= SB_SIZE && MadeBy(blk, sub, toks, i)
    ensures blk.Packed? && ZeroTokens(blk.toks, |sub|)
  {
    hide Run, Lazy, Serialize, ZeroTokens;
    FewZeroes(sub, toks);
    FewTokens(blk, sub, toks, i);
    assert sub[..i] == sub;
    ZeroLazy(sub, toks);
  }

  /** ntfs_compress_block: the bytes written are the block that the rule makes of the input. */
  method CompressBlock(input: seq<byte>, buf: array<byte>, base: nat)
    returns (sz: nat, ghost blk: Block, ghost toks: seq<Token>, ghost done: nat)
    requires 1 <= |input| <= SB_SIZE && base + OUT_SIZE <= buf.Length
    modifies buf
    ensures ValidBlock(blk) && Content(blk) == Pad(input) && MadeBy(blk, input, toks, done)
    ensures blk.Packed? ==> sz <= 2 + LiteralSize(|input|)
    ensures LiteralSize(|input|) < SB_SIZE - 1 ==> blk.Packed?
    ensures sz == |BlockBytes(blk)| && buf[base..base + sz] == BlockBytes(blk)
    ensures buf[..base] == old(buf[..base])
  {
    hide Run, Serialize, Lazy;
    var i;
    sz, i, toks := Squeeze(input, buf, base);
    done := i;
    SerializeBound(toks, input[..i]);
    if i >= |input| && sz < SB_SIZE + 2 {
      assert input[..i] == input;
      blk := Packed(toks);
      WritePackedHeader(buf, base, sz, toks);
    } else {
      WriteStored(buf, base, input);
      sz := SB_SIZE + 2;
      blk := Stored(Pad(input));
    }
  }
}

/** ntfs_compress_block: lazy parsing into tagged tokens, with the stored fallback. */
module Lznt1Encoder {
  import opened Bytes
  import opened Lznt1Format
  import opened Lznt1Matcher
  import Lznt1Decoder

  /** Space a caller has to reserve behind the start of a block. */
  const OUT_SIZE: nat := 4100

  lemma TokenAppended(g: seq<Token>, t: Token)
    ensures Body(g + [t]) == Body(g) + TokenBytes(t)
    ensures TagOf(g + [t]) == TagOf(g) + (if t.Phrase? then Pow2(|g|) else 0)
  {
    BodyAppend(g, [t]);
    TagAppend(g, t);
    assert Body([t]) == TokenBytes(t);
  }

  lemma EmptyGroup()
    ensures Body([]) == [] && TagOf([]) == 0
  {
  }

  lemma CompleteGroup(full: seq<Token>, cur: seq<Token>)
    requires |full| % 8 == 0 && 0 < |cur| <= 8
    ensures Serialize(full + cur) == Serialize(full) + [TagByte(cur)] + Body(cur)
  {
    hide Body;
    SerializeAppend(full, cur);
    assert cur[..GroupLen(cur)] == cur && cur[GroupLen(cur)..] == [];
    assert Serialize(cur) == [TagByte(cur)] + Body(cur);
  }

  /** The output cursor of the compressor: tokens go out at once, the tag byte of the current
      group is filled in when the group is complete. */
  class TokenWriter {
    const buf: array<byte>
    const base: nat
    var xout: nat
    var ptag: nat
    var tag: nat
    var ntag: nat
    ghost var full: seq<Token>
    ghost var cur: seq<Token>

    constructor (buf: array<byte>, base: nat)
      requires base + OUT_SIZE <= buf.Length
      ensures Valid() && this.buf == buf && this.base == base
      ensures full == [] && cur == [] && xout == 3
    {
      this.buf, this.base := buf, base;
      ptag, xout, tag, ntag, full, cur := 2, 3, 0, 8, [], [];
    }

    ghost predicate Valid()
      reads this, buf
    {
      && base + OUT_SIZE <= buf.Length
      && |full| % 8 == 0 && |cur| <= 8 && ntag == 8 - |cur| && tag == TagOf(cur)
      && ptag == 2 + |Serialize(full)| && xout == ptag + 1 + |Body(cur)| && xout <= OUT_SIZE
      && buf[base + 2..base + ptag] == Serialize(full)
      && buf[base + ptag + 1..base + xout] == Body(cur)
    }

    method PutByte(b: byte)
      requires base + OUT_SIZE <= buf.Length && 2 <= ptag < xout < OUT_SIZE
      modifies `xout, buf
      ensures xout == old(xout) + 1
      ensures buf[..base] == old(buf[..base])
      ensures buf[base + 2..base + ptag] == old(buf[base + 2..base + ptag])
      ensures buf[base + ptag + 1..base + xout] == old(buf[base + ptag + 1..base + xout]) + [b]
    {
      buf[base + xout] := b;
      xout := xout + 1;
    }

    method PutSymbol(b: byte)
      requires Valid() && |cur| < 8 && xout < OUT_SIZE
      modifies `xout, `ntag, `cur, buf
      ensures Valid() && full == old(full) && cur == old(cur) + [Symbol(b)]
      ensures xout == old(xout) + 1
      ensures buf[..base] == old(buf[..base])
    {
      hide Serialize, Body, TagOf, Pow2;
      PutByte(b);
      ntag := ntag - 1;
      TokenAppended(cur, Symbol(b));
      cur := cur + [Symbol(b)];
    }

    method PutPhrase(q: word)
      requires Valid() && |cur| < 8 && xout + 1 < OUT_SIZE
      modifies `xout, `ntag, `tag, `cur, buf
      ensures Valid() && full == old(full) && cur == old(cur) + [Phrase(q)]
      ensures xout == old(xout) + 2
      ensures buf[..base] == old(buf[..base])
    {
      hide Serialize, Body, TagOf, Pow2;
      PutByte(q % 256);
      PutByte(q / 256 % 256);
      tag := tag + Pow2(8 - ntag);
      ntag := ntag - 1;
      TokenAppended(cur, Phrase(q));
      assert TokenBytes(Phrase(q)) == [q % 256] + [q / 256 % 256];
      cur := cur + [Phrase(q)];
    }

    /** Store the tag of a complete group and reserve the byte of the next one. */
    method FlushTag()
      requires Valid() && xout < OUT_SIZE
      modifies this, buf
      ensures Valid() && |cur| < 8 && full + cur == old(full + cur)
      ensures old(|cur|) < 8 ==> xout == old(xout)
      ensures old(|cur|) == 8 ==> cur == [] && xout == old(xout) + 1
      ensures buf[..base] == old(buf[..base])
    {
      hide Body, TagOf, Serialize;
      if ntag == 0 {
        StoreTag();
        CompleteGroup(full, cur);
        ntag, tag, ptag, xout := 8, 0, xout, xout + 1;
        full, cur := full + cur, [];
        EmptyGroup();
      }
    }

    method StoreTag()
      requires Valid() && |cur| > 0
      modifies buf
      ensures buf[..base] == old(buf[..base])
      ensures buf[base + 2..base + xout] == Serialize(full) + [TagByte(cur)] + Body(cur)
    {
      hide Serialize, Body, TagOf;
      ghost var before := buf[base + 2..base + ptag];
      ghost var after := buf[base + ptag + 1..base + xout];
      TagFits();
      buf[base + ptag] := tag;
      assert buf[base + 2..base + xout] == before + [tag] + after;
    }

    lemma TagFits()
      requires Valid()
      ensures tag < 256 && tag == TagByte(cur)
    {
      Pow2Table();
      Pow2Monotone(|cur|, 8);
    }

    /** Store the last tag, or give its reserved byte back when no token follows it. */
    method Finish()
      requires Valid() && full + cur != []
      modifies `xout, buf
      ensures 2 <= xout <= old(xout) && base + xout <= buf.Length
      ensures buf[base + 2..base + xout] == Serialize(full + cur)
      ensures cur != [] ==> xout == old(xout)
      ensures cur == [] ==> xout == old(xout) - 1
      ensures buf[..base] == old(buf[..base])
    {
      hide Body, TagOf;
      if ntag == 8 {
        xout := xout - 1;
        EmptyGroup();
        assert full + cur == full;
      } else {
        StoreTag();
        CompleteGroup(full, cur);
      }
    }
  }

  // ---- offset bits ----

  /** bp is the least number of offset bits, at least four, that can reach back i bytes. */
  ghost predicate BitsFor(bp: nat, i: nat) {
    4 <= bp <= 12 && i <= Pow2(bp) && (bp == 4 || Pow2(bp - 1) < i)
  }

  lemma {:induction false} HalvingsIs(m: nat, k: nat)
    requires m < 16 * Pow2(k) && (k == 0 || 16 * Pow2(k - 1) <= m)
    ensures Halvings(m) == k
  {
    if k > 0 {
      assert m >= 16;
      HalvingsIs(m / 2, k - 1);
    }
  }

  /** The encoder's bit count is the one the decoder derives from its output position. */
  lemma BitsAgree(bp: nat, i: nat)
    requires BitsFor(bp, i) && 0 < i <= SB_SIZE
    ensures Lg(i) == bp - 4 && PhraseSplit(i) == Pow2(16 - bp)
  {
    Pow2Add(4, bp - 4);
    if bp > 4 { Pow2Add(4, bp - 5); }
    assert Pow2(4) == 16;
    HalvingsIs(i - 1, bp - 4);
  }

  /** The word written for a match of len bytes, dist bytes back. */
  function PhraseWord(dist: nat, len: nat, bp: nat): int
    requires bp <= 16
  {
    (dist - 1) * Pow2(16 - bp) + (len - 3)
  }

  lemma PhraseWordFits(dist: nat, len: nat, bp: nat)
    requires bp <= 16 && 1 <= dist <= Pow2(bp) && 3 <= len < Pow2(16 - bp) + 3
    ensures 0 <= PhraseWord(dist, len, bp) < 65536
  {
    var a, p := Pow2(bp), Pow2(16 - bp);
    assert a * p == 65536 by {
      Pow2Add(bp, 16 - bp);
      Pow2Table();
    }
    hide Pow2;
    PackBelow(dist - 1, len - 3, a, p);
  }

  /** A real match, written with the right bit count, extends the decoded text by the match. */
  lemma PhraseEncodes(input: seq<byte>, i: nat, dist: nat, len: nat, bp: nat)
    requires BitsFor(bp, i) && 1 <= dist <= i <= i + len <= |input| <= SB_SIZE
    requires 3 <= len < Pow2(16 - bp) + 3
    requires Agree(input, i - dist, i, len)
    ensures 0 <= PhraseWord(dist, len, bp) < 65536
    ensures var q: word := PhraseWord(dist, len, bp);
            && Apply(input[..i], Phrase(q)) == Some(input[..i + len])
            && PhraseDistance(q, i) == dist && PhraseLength(q, i) == len
  {
    hide CopyBack, Pow2, Lg;
    BitsAgree(bp, i);
    PhraseWordFits(dist, len, bp);
    Unpack(dist - 1, len - 3, Pow2(16 - bp));
    var r := input[..i + len];
    assert r[..i] == input[..i];
    Lznt1Decoder.PhraseCopied(input[..i], r, dist, len);
  }

  lemma RunMore(toks: seq<Token>, t: Token, input: seq<byte>, i: nat, j: nat)
    requires i <= j <= |input|
    requires Run([], toks) == Some(input[..i]) && Apply(input[..i], t) == Some(input[..j])
    ensures Run([], toks + [t]) == Some(input[..j])
  {
    hide Apply;
    RunAppend([], toks, [t]);
    assert [t][1..] == [];
    assert Run(input[..i], [t]) == Run(input[..j], []);
  }
}

/** The converse of the round trip: whatever the decoder accepts is spelled by tokens. */
module Lznt1Accepts {
  import opened Bytes
  import opened Lznt1Format
  import opened Slices

  lemma HalfMod(tag: nat, p: nat)
    requires p > 0
    ensures tag % (2 * p) == tag % 2 + 2 * (tag / 2 % p)
  {
    var h := tag / 2;
    var q, r := h / p, h % p;
    var qp := q * p;
    assert h == qp + r;
    assert q * (2 * p) == 2 * qp;
    Unpack(q, tag % 2 + 2 * r, 2 * p);
  }

  lemma TagBits(t: Token, toks: seq<Token>, tag: nat)
    requires (t.Phrase? <==> tag % 2 == 1) && TagOf(toks) == tag / 2 % Pow2(|toks|)
    ensures TagOf([t] + toks) == tag % Pow2(|toks| + 1)
  {
    assert ([t] + toks)[1..] == toks;
    HalfMod(tag, Pow2(|toks|));
  }

  lemma ConsBody(t: Token, toks: seq<Token>)
    ensures Body([t] + toks) == TokenBytes(t) + Body(toks)
  {
    assert ([t] + toks)[1..] == toks;
  }

  lemma ConsRun(out: seq<byte>, t: Token, toks: seq<Token>)
    requires Apply(out, t).Some?
    ensures Run(out, [t] + toks) == Run(Apply(out, t).value, toks)
  {
    assert ([t] + toks)[1..] == toks;
  }

  lemma LiteralApplies(out: seq<byte>, b: byte)
    requires |out| < SB_SIZE
    ensures Apply(out, Symbol(b)) == Some(out + [b])
  {
  }

  lemma WordBytes(lo: byte, hi: byte)
    ensures TokenBytes(Phrase(Word(lo, hi))) == [lo, hi]
  {
  }

  lemma NoTokens(out: seq<byte>, tag: nat)
    ensures Run(out, []) == Some(out) && Body([]) == [] && TagOf([]) == 0 == tag % Pow2(0)
  {
  }

  lemma LiteralByte(b: byte)
    ensures TokenBytes(Symbol(b)) == [b]
  {
  }

  /** One tag group: the bytes read are those of up to eight tokens, whose kinds are the bits of the tag. */
  lemma {:induction false} GroupOnly(cb: seq<byte>, at: nat, end: nat, tag: nat, left: nat, out: seq<byte>)
    returns (toks: seq<Token>)
    requires at <= |cb| && end <= |cb| && |out| <= SB_SIZE && DecodeGroup(cb, at, end, tag, left, out).Group?
    ensures var g := DecodeGroup(cb, at, end, tag, left, out);
            && |toks| <= left && (|toks| < left ==> g.at >= end) && Run(out, toks) == Some(g.out)
            && g.at == at + |Body(toks)| <= |cb| && cb[at..g.at] == Body(toks)
            && TagOf(toks) == tag % Pow2(|toks|)
    decreases left
  {
    hide Apply, Run, Body, TagOf, Pow2, Word, TokenBytes;
    toks := [];
    NoTokens(out, tag);
    if left > 0 && at < end {
      var t := if tag % 2 == 0 then Symbol(cb[at]) else Phrase(Word(cb[at], cb[at + 1]));
      var n := if tag % 2 == 0 then at + 1 else at + 2;
      if tag % 2 == 0 {
        LiteralApplies(out, cb[at]);
        LiteralByte(cb[at]);
      } else {
        WordBytes(cb[at], cb[at + 1]);
      }
      var more := Apply(out, t).value;
      var rest := GroupOnly(cb, n, end, tag / 2, left - 1, more);
      toks := [t] + rest;
      assert cb[at..n] == TokenBytes(t);
      Parted(cb, at, n, n + |Body(rest)|);
      ConsBody(t, rest);
      ConsRun(out, t, rest);
      TagBits(t, rest, tag);
    }
  }

  /** All tag groups of a sub-block: what it decodes to is what some tokens spell, filled up with zeroes. */
  lemma {:induction false} TagsOnly(cb: seq<byte>, at: nat, end: nat, out: seq<byte>) returns (toks: seq<Token>)
    requires at <= end <= |cb| && |out| <= SB_SIZE && DecodeTags(cb, at, end, out).Decoded?
    ensures Run(out, toks).Some? && |Run(out, toks).value| <= SB_SIZE
    ensures DecodeTags(cb, at, end, out) == Decoded(Pad(Run(out, toks).value))
    decreases end - at
  {
    hide DecodeGroup;
    toks := [];
    if at < end {
      var g := DecodeGroup(cb, at + 1, end, cb[at], 8, out);
      var first := GroupOnly(cb, at + 1, end, cb[at], 8, out);
      var rest := TagsOnly(cb, g.at, end, g.out);
      toks := first + rest;
      RunAppend(out, first, rest);
    }
  }

  /** A sub-block that decodes is a stored one of full size, or a packed one whose tokens spell its content. */
  lemma BlockOnly(cb: seq<byte>, at: nat) returns (blk: Block)
    requires at + 1 < |cb| && DecodeBlock(cb, at).Decoded?
    ensures if IsPacked(cb, at)
            then && blk.Packed? && Run([], blk.toks).Some? && |Run([], blk.toks).value| <= SB_SIZE
                 && DecodeBlock(cb, at) == Decoded(Pad(Run([], blk.toks).value))
            else && BlockEnd(cb, at) == at + 2 + SB_SIZE <= |cb|
                 && DecodeBlock(cb, at) == Decoded(cb[at + 2..at + 2 + SB_SIZE])
  {
    blk := Stored([]);
    if IsPacked(cb, at) {
      var toks := TagsOnly(cb, at + 2, BlockEnd(cb, at), []);
      blk := Packed(toks);
    }
  }
}

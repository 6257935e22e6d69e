/** What the compressor makes of zeroes: the patterns ntfs_comp_set looks for. */
module Lznt1Zeros {
  import opened Bytes
  import opened Lznt1Format
  import opened Lznt1Lazy

  function ZeroSymbols(n: nat): seq<Token> {
    seq(n, _ => Symbol(0))
  }

  /** The tokens for n zeroes: up to four symbols, or a symbol and one phrase for all the rest. */
  predicate ZeroTokens(toks: seq<Token>, n: nat) {
    if n <= 4 then toks == ZeroSymbols(n) else |toks| == 2 && toks[0] == Symbol(0) && toks[1].Phrase?
  }

  lemma ShortText(toks: seq<Token>)
    requires Stands(toks, |toks|, |toks|)
    ensures Run([], toks).Some? && |Run([], toks).value| == |toks|
  {
    StandsLast(toks, |toks|);
  }

  /** The rule makes these tokens of zeroes. */
  lemma ZeroLazy(s: seq<byte>, toks: seq<Token>)
    requires AllZero(s) && 0 < |s| <= SB_SIZE && Lazy(s, toks) && Run([], toks) == Some(s)
    ensures ZeroTokens(toks, |s|)
  {
    hide Run, Lazy;
    if |s| <= 4 {
      ShortTokens(s, toks, |toks|);
      ShortText(toks);
    } else {
      EqualTokens(s, |s|, toks);
    }
  }

  lemma FewZeroes(s: seq<byte>, toks: seq<Token>)
    requires AllZero(s) && 0 < |s| <= SB_SIZE && Lazy(s, toks)
    ensures |toks| <= 4
  {
    hide Lazy;
    if |s| <= 4 {
      ShortTokens(s, toks, |toks|);
    } else {
      EqualTokens(s, |s|, toks);
    }
  }

  /** Bytes taken by n zeroes once compressed. */
  function ZeroSize(n: nat): nat {
    if n <= 4 then n + 3 else 6
  }

  /** The compressed form of n zeroes. */
  predicate ZeroForm(bytes: seq<byte>, n: nat) {
    && n > 0 && |bytes| == ZeroSize(n)
    && bytes[..4] == [ZeroSize(n) - 3, 0xb0, if n <= 4 then 0 else 2, 0]
    && (n <= 4 ==> AllZero(bytes[2..]))
  }

  lemma {:induction false} SymbolsBody(n: nat)
    ensures |Body(ZeroSymbols(n))| == n && AllZero(Body(ZeroSymbols(n))) && TagOf(ZeroSymbols(n)) == 0
  {
    if n > 0 {
      SymbolsBody(n - 1);
      assert ZeroSymbols(n)[1..] == ZeroSymbols(n - 1);
    }
  }

  lemma ZeroSerialized(toks: seq<Token>, n: nat)
    requires ZeroTokens(toks, n) && n > 0
    ensures var s := Serialize(toks);
            && |s| == ZeroSize(n) - 2 && s[0] == (if n <= 4 then 0 else 2) && s[1] == 0
            && (n <= 4 ==> AllZero(s))
  {
    assert GroupLen(toks) == |toks| && toks[..|toks|] == toks && toks[|toks|..] == [];
    if n <= 4 {
      SymbolsBody(n);
    } else {
      assert toks == [toks[0], toks[1]] && toks[1..] == [toks[1]];
      assert TagOf([toks[1]]) == 1 + 2 * TagOf([toks[1]][1..]) == 1;
      assert TagOf(toks) == 2;
      assert Body([toks[1]]) == TokenBytes(toks[1]) + Body([toks[1]][1..]);
      assert Body(toks) == [0] + Body([toks[1]]);
    }
  }

  /** Every block made of zeroes has its own form. */
  lemma ZeroBytes(blk: Block, n: nat)
    requires ValidBlock(blk) && blk.Packed? && ZeroTokens(blk.toks, n) && n > 0
    ensures ZeroForm(BlockBytes(blk), n)
  {
    hide Serialize, Run;
    ZeroSerialized(blk.toks, n);
  }

  /** The three patterns for compressed zeroes. */
  predicate LooksLikeZeroes(bytes: seq<byte>) {
    || bytes == [0x01, 0xb0, 0x00, 0x00]
    || bytes == [0x02, 0xb0, 0x00, 0x00, 0x00]
    || (|bytes| == 6 && bytes[..4] == [0x03, 0xb0, 0x02, 0x00])
  }

  /** The patterns recognise every number of zeroes but three and four. */
  lemma FormRecognised(bytes: seq<byte>, n: nat)
    requires ZeroForm(bytes, n)
    ensures LooksLikeZeroes(bytes) <==> n != 3 && n != 4
  {
    if n <= 2 {
      assert bytes[..4][0] == bytes[0] && bytes[..4][1] == bytes[1];
      assert forall k :: 2 <= k < |bytes| ==> bytes[k] == bytes[2..][k - 2];
    } else if n == 3 {
      assert bytes[..4][2] == 0;
    }
  }
}

/**
 * The rule of ntfs_compress_block on the input alone: take the longest match unless the next position has a
 * longer one. It leaves one token sequence, and one block, for every input.
 */
module Lznt1Lazy {
  import opened Bytes
  import opened Lznt1Format
  import opened Lznt1Matcher

  /** Longest phrase the format can hold at position i of a sub-block. */
  function Limit(i: nat): (r: nat)
    requires i <= SB_SIZE
    ensures r >= 3
  {
    PhraseSplit(i) + 2
  }

  /** At i no candidate has more than m bytes, at the next position one has. */
  ghost predicate Outdone(s: seq<byte>, i: nat, m: nat) {
    3 <= m < NICE_MATCH_LEN && Best(s, i, m) && !Best(s, i + 1, m)
  }

  /** A byte stands for itself: it begins no match, or the next byte begins a longer one. */
  ghost predicate LiteralHere(s: seq<byte>, i: nat) {
    Best(s, i, 2) || exists m: nat :: Outdone(s, i, m)
  }

  /** The match taken at i, len bytes from dist bytes back: the search's, and not outdone by the next position. */
  ghost predicate PhraseHere(s: seq<byte>, i: nat, dist: nat, len: nat)
    requires i <= SB_SIZE
  {
    && 1 <= dist <= i && len >= 3 && Real(s, i - dist, i, len, Limit(i))
    && (len < NICE_MATCH_LEN ==> Best(s, i, len) && Best(s, i + 1, len))
  }

  ghost predicate Rule(s: seq<byte>, i: nat, t: Token) {
    i < |s| <= SB_SIZE &&
    match t
    case Symbol(b) => b == s[i] && LiteralHere(s, i)
    case Phrase(pt) => PhraseHere(s, i, PhraseDistance(pt, i), PhraseLength(pt, i))
  }

  /** Token k follows the rule where it stands, behind tokens that spell the input up to there. */
  ghost predicate LazyAt(s: seq<byte>, toks: seq<Token>, k: nat)
    requires k < |toks|
  {
    var r := Run([], toks[..k]);
    r.Some? && |r.value| < |s| && r.value == s[..|r.value|] && Rule(s, |r.value|, toks[k])
  }

  ghost predicate Lazy(s: seq<byte>, toks: seq<Token>) {
    forall k :: 0 <= k < |toks| ==> LazyAt(s, toks, k)
  }

  lemma LazyMore(s: seq<byte>, toks: seq<Token>, i: nat, t: Token)
    requires Lazy(s, toks) && i < |s| && Run([], toks) == Some(s[..i]) && Rule(s, i, t)
    ensures Lazy(s, toks + [t])
  {
    hide Rule, Run;
    var more := toks + [t];
    forall k | 0 <= k < |more| ensures LazyAt(s, more, k) {
      assert more[..k] == toks[..k];
      if k == |toks| {
        assert toks[..k] == toks;
      } else {
        assert LazyAt(s, toks, k);
      }
    }
  }

  lemma LazyFront(s: seq<byte>, toks: seq<Token>, n: nat)
    requires Lazy(s, toks) && n <= |toks|
    ensures Lazy(s, toks[..n])
  {
    hide Rule, Run;
    forall k | 0 <= k < n ensures LazyAt(s, toks[..n], k) {
      assert toks[..n][..k] == toks[..k] && LazyAt(s, toks, k);
    }
  }

  // ---- the rule leaves no choice ----

  lemma BestUp(s: seq<byte>, i: nat, a: nat, b: nat)
    requires Best(s, i, a) && a <= b
    ensures Best(s, i, b)
  {
    hide Candidate;
    forall p: nat | Candidate(s, p, i) ensures !Beats(s, p, i, b) {
      assert !Beats(s, p, i, a);
    }
  }

  /** A real match shows that fewer bytes are not the best. */
  lemma RealBeats(s: seq<byte>, p: nat, i: nat, len: nat, limit: nat, m: nat)
    requires Real(s, p, i, len, limit) && m < len
    ensures Beats(s, p, i, m) && !Best(s, i, m)
  {
    hide Newer, Hash;
    assert Candidate(s, p, i);
    assert Beats(s, p, i, m);
  }

  /** Where a phrase is taken, a literal is not. */
  lemma Exclusive(s: seq<byte>, i: nat, dist: nat, len: nat)
    requires i <= SB_SIZE && PhraseHere(s, i, dist, len)
    ensures !LiteralHere(s, i)
  {
    hide Best, Real;
    RealBeats(s, i - dist, i, len, Limit(i), 2);
    if exists m: nat :: Outdone(s, i, m) {
      var m: nat :| Outdone(s, i, m);
      if m < len {
        RealBeats(s, i - dist, i, len, Limit(i), m);
      } else {
        BestUp(s, i + 1, len, m);
      }
      assert false;
    }
  }

  lemma SameLength(s: seq<byte>, i: nat, d: nat, len: nat, d': nat, len': nat)
    requires i <= SB_SIZE && PhraseHere(s, i, d, len) && PhraseHere(s, i, d', len') && len < len'
    ensures len >= NICE_MATCH_LEN
  {
    hide Best, Real;
    RealBeats(s, i - d', i, len', Limit(i), len);
  }

  lemma SameDistance(s: seq<byte>, i: nat, d: nat, len: nat, d': nat, len': nat)
    requires i <= SB_SIZE && PhraseHere(s, i, d, len) && PhraseHere(s, i, d', len')
    requires len == len' || (len >= NICE_MATCH_LEN && len' >= NICE_MATCH_LEN)
    ensures d <= d'
  {
    hide Best, Candidate, Agree;
    if d' < d {
      var cap := if len < NICE_MATCH_LEN then len - 1 else NICE_MATCH_LEN - 1;
      RealBeats(s, i - d', i, len', Limit(i), cap);
      assert false;
    }
  }

  lemma AgreeAt(s: seq<byte>, p: nat, i: nat, len: nat, k: nat)
    requires p <= i && i + len <= |s| && Agree(s, p, i, len) && k < len
    ensures s[i + k] == s[p + k]
  {
    assert s[i + k] == s[i + k - (i - p)];
  }

  /** The extension of a long match is determined too. */
  lemma SameExtension(s: seq<byte>, p: nat, i: nat, len: nat, len': nat, limit: nat)
    requires Real(s, p, i, len, limit) && Real(s, p, i, len', limit) && len >= NICE_MATCH_LEN
    ensures len' <= len
  {
    hide Newer, NoneLater, Agree;
    if len < len' {
      AgreeAt(s, p, i, len', len);
    }
  }

  lemma PhraseUnique(s: seq<byte>, i: nat, d: nat, len: nat, d': nat, len': nat)
    requires i <= SB_SIZE && PhraseHere(s, i, d, len) && PhraseHere(s, i, d', len')
    ensures d == d' && len == len'
  {
    hide Best, Real;
    if len < len' { SameLength(s, i, d, len, d', len'); }
    if len' < len { SameLength(s, i, d', len', d, len); }
    SameDistance(s, i, d, len, d', len');
    SameDistance(s, i, d', len', d, len);
    if len != len' {
      SameExtension(s, i - d, i, len, len', Limit(i));
      SameExtension(s, i - d, i, len', len, Limit(i));
    }
  }

  lemma SameWord(x: word, y: word, n: nat)
    requires n <= SB_SIZE && PhraseDistance(x, n) == PhraseDistance(y, n) && PhraseLength(x, n) == PhraseLength(y, n)
    ensures x == y
  {
    var p := PhraseSplit(n);
    assert x == x / p * p + x % p && y == y / p * p + y % p;
  }

  lemma RuleUnique(s: seq<byte>, i: nat, t: Token, u: Token)
    requires Rule(s, i, t) && Rule(s, i, u)
    ensures t == u
  {
    hide LiteralHere, PhraseHere, PhraseDistance, PhraseLength;
    if t.Phrase? {
      Exclusive(s, i, PhraseDistance(t.pt, i), PhraseLength(t.pt, i));
    }
    if u.Phrase? {
      Exclusive(s, i, PhraseDistance(u.pt, i), PhraseLength(u.pt, i));
    }
    if t.Phrase? && u.Phrase? {
      PhraseUnique(s, i, PhraseDistance(t.pt, i), PhraseLength(t.pt, i), PhraseDistance(u.pt, i),
                   PhraseLength(u.pt, i));
      SameWord(t.pt, u.pt, i);
    }
  }

  /** Of two token sequences under the rule, the shorter is a prefix of the longer. */
  lemma {:induction false} LazyPrefix(s: seq<byte>, a: seq<Token>, b: seq<Token>)
    requires Lazy(s, a) && Lazy(s, b) && |a| <= |b|
    ensures a == b[..|a|]
    decreases |a|
  {
    hide Rule, Run;
    if a != [] {
      var n := |a| - 1;
      LazyFront(s, a, n);
      LazyPrefix(s, a[..n], b);
      assert LazyAt(s, a, n) && LazyAt(s, b, n);
      RuleUnique(s, |Run([], a[..n]).value|, a[n], b[n]);
      assert a == a[..n] + [a[n]] && b[..|a|] == b[..n] + [b[n]];
    }
  }

  /** A phrase is a real match; short of 18 bytes no candidate has a longer one, neither here nor a byte later. */
  lemma PhraseBest(s: seq<byte>, toks: seq<Token>, k: nat, q: nat)
    requires Lazy(s, toks) && k < |toks| && toks[k].Phrase?
    ensures Run([], toks[..k]).Some? && |Run([], toks[..k]).value| <= |s| <= SB_SIZE
    ensures var i := |Run([], toks[..k]).value|;
            && Run([], toks[..k]) == Some(s[..i])
            && var dist, len := PhraseDistance(toks[k].pt, i), PhraseLength(toks[k].pt, i);
            && dist <= i && i + len <= |s| && Candidate(s, i - dist, i) && Agree(s, i - dist, i, len)
            && (len < NICE_MATCH_LEN && Candidate(s, q, i) && i + len < |s| ==> !Agree(s, q, i, len + 1))
            && (len < NICE_MATCH_LEN && Candidate(s, q, i + 1) && i + 1 + len < |s| ==> !Agree(s, q, i + 1, len + 1))
            && (len >= NICE_MATCH_LEN && i + len < |s| && s[i + len] == s[i + len - dist] ==> len == Limit(i))
  {
    hide PhraseLength, PhraseDistance, Newer, Hash, Agree;
    assert LazyAt(s, toks, k);
    var i := |Run([], toks[..k]).value|;
    var len := PhraseLength(toks[k].pt, i);
    assert Beats(s, q, i, len) || !Beats(s, q, i, len);
    assert Beats(s, q, i + 1, len) || !Beats(s, q, i + 1, len);
  }

  /** A byte that begins a match and is spelled out gives way to a longer match a byte later. */
  lemma LiteralGivesWay(s: seq<byte>, toks: seq<Token>, k: nat, p: nat) returns (q: nat, m: nat)
    requires Lazy(s, toks) && k < |toks| && toks[k].Symbol?
    requires Run([], toks[..k]).Some?
    requires var i := |Run([], toks[..k]).value|; i + 3 <= |s| && Candidate(s, p, i) && Agree(s, p, i, 3)
    ensures var i := |Run([], toks[..k]).value|;
            && m >= 3 && i + 1 + m < |s| && Candidate(s, q, i + 1) && Agree(s, q, i + 1, m + 1)
            && forall c: nat :: Candidate(s, c, i) ==> !Beats(s, c, i, m)
  {
    hide Newer, Hash, Agree;
    assert LazyAt(s, toks, k);
    var i := |Run([], toks[..k]).value|;
    assert Beats(s, p, i, 2);
    m :| Outdone(s, i, m);
    q :| Candidate(s, q, i + 1) && Beats(s, q, i + 1, m);
  }

  // ---- the block made of an input ----

  /**
   * The block for an input: the tokens of the rule, up to its end or until they take as much room as storing it;
   * packed if they reach the end and take less.
   */
  ghost predicate MadeBy(blk: Block, input: seq<byte>, toks: seq<Token>, i: nat)
    requires |input| <= SB_SIZE
  {
    && i <= |input| && Lazy(input, toks) && Run([], toks) == Some(input[..i])
    && (i < |input| ==> |Serialize(toks)| >= SB_SIZE - 1)
    && blk == if i == |input| && |Serialize(toks)| < SB_SIZE then Packed(toks) else Stored(Pad(input))
  }

  lemma {:induction false} TagCount(toks: seq<Token>)
    ensures |Serialize(toks)| == |Body(toks)| + (|toks| + 7) / 8
    decreases |toks|
  {
    if toks != [] {
      var n := GroupLen(toks);
      TagCount(toks[n..]);
      assert toks == toks[..n] + toks[n..];
      BodyAppend(toks[..n], toks[n..]);
    }
  }

  /** More tokens take more room. */
  lemma MoreRoom(toks: seq<Token>, n: nat)
    requires n < |toks|
    ensures |Serialize(toks[..n])| < |Serialize(toks)|
  {
    hide Serialize;
    TagCount(toks);
    TagCount(toks[..n]);
    assert toks == toks[..n] + toks[n..];
    BodyAppend(toks[..n], toks[n..]);
  }

  /** The front of a token sequence spells less. */
  lemma ShorterText(toks: seq<Token>, n: nat)
    requires n < |toks| && Run([], toks).Some?
    ensures Run([], toks[..n]).Some? && |Run([], toks[..n]).value| < |Run([], toks).value|
  {
    assert toks == toks[..n] + toks[n..];
    RunAppend([], toks[..n], toks[n..]);
    hide Apply;
    RunBound([], toks[..n]);
    RunBound(Run([], toks[..n]).value, toks[n..]);
  }

  lemma OneBlockOrdered(x: Block, y: Block, input: seq<byte>, a: seq<Token>, b: seq<Token>, i: nat, j: nat)
    requires |input| <= SB_SIZE && MadeBy(x, input, a, i) && MadeBy(y, input, b, j) && |a| <= |b|
    ensures x == y
  {
    hide Run, Serialize;
    LazyPrefix(input, a, b);
    if |a| < |b| {
      MoreRoom(b, |a|);
      ShorterText(b, |a|);
    } else {
      assert b[..|a|] == b;
    }
  }

  /** The block is determined by the input. */
  lemma OneBlock(x: Block, y: Block, input: seq<byte>, a: seq<Token>, b: seq<Token>, i: nat, j: nat)
    requires |input| <= SB_SIZE && MadeBy(x, input, a, i) && MadeBy(y, input, b, j)
    ensures x == y
  {
    if |a| <= |b| {
      OneBlockOrdered(x, y, input, a, b, i, j);
    } else {
      OneBlockOrdered(y, x, input, b, a, j, i);
    }
  }

  // ---- equal bytes ----

  /** n equal bytes, and after them nothing or one other byte. */
  predicate EqualRun(s: seq<byte>, n: nat) {
    && 0 < n <= |s| <= n + 1 && |s| <= SB_SIZE
    && (forall k :: 0 <= k < n ==> s[k] == s[0])
    && (|s| == n + 1 ==> s[n] != s[0])
  }

  lemma FirstByte(s: seq<byte>, t: Token)
    requires Rule(s, 0, t)
    ensures t == Symbol(s[0])
  {
  }

  /** Near the end of the input every byte stands for itself. */
  lemma NearEnd(s: seq<byte>, i: nat, t: Token)
    requires Rule(s, i, t) && i + 4 > |s|
    ensures t == Symbol(s[i])
  {
  }

  lemma EqualAgree(s: seq<byte>, n: nat, p: nat, i: nat, len: nat)
    requires EqualRun(s, n) && p < i && i + len <= |s|
    ensures Agree(s, p, i, len) <==> i + len <= n || len == 0 || i > n
  {
    if len > 0 && i <= n < i + len {
      assert s[n] != s[n - (i - p)];
    }
  }

  lemma NewestCandidate(s: seq<byte>, i: nat)
    requires 1 <= i && i + 4 <= |s|
    ensures Candidate(s, i - 1, i)
  {
  }

  lemma EqualBest(s: seq<byte>, n: nat, i: nat, m: nat)
    requires EqualRun(s, n) && 1 <= i < n && i + 4 <= |s|
    ensures Best(s, i, m) <==> i + m >= n
  {
    hide Newer, Agree;
    if i + m < n {
      EqualAgree(s, n, i - 1, i, m + 1);
      NewestCandidate(s, i);
      assert Beats(s, i - 1, i, m);
    } else {
      forall p: nat | Candidate(s, p, i) ensures !Beats(s, p, i, m) {
        if i + m < |s| { EqualAgree(s, n, p, i, m + 1); }
      }
    }
  }

  lemma LimitAtOne()
    ensures Limit(1) == SB_SIZE + 2
  {
    Pow2Table();
  }

  lemma NotAtSecond(s: seq<byte>, n: nat, m: nat)
    requires EqualRun(s, n) && n > 4 && 1 + m >= n
    ensures Best(s, 2, m)
  {
    hide Candidate, Agree;
  }

  /** At the second of more than four equal bytes all the rest of them become one phrase. */
  lemma SecondByte(s: seq<byte>, n: nat, t: Token)
    requires EqualRun(s, n) && n > 4 && Rule(s, 1, t)
    ensures t.Phrase? && PhraseLength(t.pt, 1) == n - 1
  {
    hide Best, Agree, PhraseLength, PhraseDistance, Candidate, NoneLater;
    EqualBest(s, n, 1, 2);
    if t.Symbol? {
      var m: nat :| Outdone(s, 1, m);
      EqualBest(s, n, 1, m);
      NotAtSecond(s, n, m);
    } else {
      var len := PhraseLength(t.pt, 1);
      EqualAgree(s, n, 0, 1, len);
      EqualBest(s, n, 1, len);
      LimitAtOne();
    }
  }

  /** Token k stands at position i. */
  ghost predicate Stands(toks: seq<Token>, k: nat, i: nat) {
    k <= |toks| && Run([], toks[..k]).Some? && |Run([], toks[..k]).value| == i
  }

  /** Where the token after token k stands. */
  lemma NextStands(s: seq<byte>, toks: seq<Token>, k: nat, i: nat)
    requires k < |toks| && Lazy(s, toks) && Stands(toks, k, i)
    ensures Rule(s, i, toks[k])
    ensures Stands(toks, k + 1, i + if toks[k].Phrase? then PhraseLength(toks[k].pt, i) else 1)
  {
    hide PhraseLength, PhraseDistance, Candidate, NoneLater, Best;
    assert LazyAt(s, toks, k);
    var out := Run([], toks[..k]).value;
    assert toks[..k + 1] == toks[..k] + [toks[k]];
    RunAppend([], toks[..k], [toks[k]]);
    assert [toks[k]][1..] == [];
    assert Run(out, [toks[k]]) == Apply(out, toks[k]);
  }

  lemma StandsFirst(toks: seq<Token>)
    ensures Stands(toks, 0, 0)
  {
    assert toks[..0] == [];
  }

  lemma StandsLast(toks: seq<Token>, i: nat)
    requires Stands(toks, |toks|, i)
    ensures Run([], toks).Some? && |Run([], toks).value| == i
  {
    assert toks[..|toks|] == toks;
  }

  /** Where the tokens for equal bytes stand. */
  lemma EqualPlaces(s: seq<byte>, n: nat, toks: seq<Token>)
    requires EqualRun(s, n) && n > 4 && Lazy(s, toks)
    ensures |toks| <= 3 && (|toks| == 3 ==> |s| == n + 1 && toks[2] == Symbol(s[n]))
    ensures |toks| >= 1 ==> toks[0] == Symbol(s[0])
    ensures |toks| >= 2 ==> toks[1].Phrase?
    ensures Stands(toks, |toks|, if |toks| <= 1 then |toks| else n + |toks| - 2)
  {
    hide Lazy, Stands, LiteralHere, PhraseHere, PhraseLength;
    StandsFirst(toks);
    if |toks| >= 1 {
      NextStands(s, toks, 0, 0);
      FirstByte(s, toks[0]);
    }
    if |toks| >= 2 {
      NextStands(s, toks, 1, 1);
      SecondByte(s, n, toks[1]);
    }
    if |toks| >= 3 {
      NextStands(s, toks, 2, n);
      NearEnd(s, n, toks[2]);
    }
    if |toks| > 3 {
      NextStands(s, toks, 3, n + 1);
    }
  }

  /** More than four equal bytes: a literal, one phrase for the others, and a literal for what follows them. */
  lemma EqualTokens(s: seq<byte>, n: nat, toks: seq<Token>)
    requires EqualRun(s, n) && n > 4 && Lazy(s, toks)
    ensures |toks| <= 3 && (|toks| == 3 ==> |s| == n + 1 && toks[2] == Symbol(s[n]))
    ensures |toks| >= 1 ==> toks[0] == Symbol(s[0])
    ensures |toks| >= 2 ==> toks[1].Phrase?
    ensures Run([], toks) == Some(s) ==> |toks| == |s| - n + 2
  {
    hide Run, Lazy, Stands;
    EqualPlaces(s, n, toks);
    StandsLast(toks, if |toks| <= 1 then |toks| else n + |toks| - 2);
  }

  /** Up to four bytes stand for themselves. */
  lemma {:induction false} ShortTokens(s: seq<byte>, toks: seq<Token>, n: nat)
    requires |s| <= 4 && Lazy(s, toks) && n <= |toks|
    ensures n <= |s| && Stands(toks, n, n) && forall k :: 0 <= k < n ==> toks[k] == Symbol(s[k])
    decreases n
  {
    hide Lazy, Stands, LiteralHere, PhraseHere, PhraseLength;
    StandsFirst(toks);
    if n > 0 {
      ShortTokens(s, toks, n - 1);
      NextStands(s, toks, n - 1, n - 1);
      if n == 1 {
        FirstByte(s, toks[0]);
      } else {
        NearEnd(s, n - 1, toks[n - 1]);
      }
    }
  }
}

/** The hash-chain match finder (ntfs_best_match, ntfs_skip_position). */
module Lznt1Matcher {
  import opened Bytes
  import opened Lznt1Format
  import opened Slices

  const NICE_MATCH_LEN: nat := 18
  const MAX_SEARCH_DEPTH: nat := 24
  const HASH_SIZE: nat := 16384
  const NO_MATCH := -1

  /** ntfs_hash: the top 14 bits of a 32-bit multiplicative hash of three bytes. */
  function Hash(b0: byte, b1: byte, b2: byte): (h: nat)
    ensures h < HASH_SIZE
  {
    ((b0 + 256 * b1 + 65536 * b2) * 0x1E35A7BD) % 0x1_0000_0000 / 0x4_0000
  }

  /** The len bytes at m and at i agree. */
  predicate Agree(s: seq<byte>, m: nat, i: nat, len: nat)
    requires m <= i && i + len <= |s|
  {
    forall k :: i <= k < i + len ==> s[k] == s[k - (i - m)]
  }

  /** Position p has four bytes from it on, and the first three hash to h. */
  predicate Entry(s: seq<byte>, p: nat, h: nat) {
    p + 4 <= |s| && Hash(s[p], s[p + 1], s[p + 2]) == h
  }

  /** The latest position below q whose hash is h. */
  ghost function Latest(s: seq<byte>, h: nat, q: nat): (p: int)
    ensures -1 <= p < q && (p >= 0 ==> Entry(s, p, h))
    ensures forall r :: p < r < q ==> !Entry(s, r, h)
  {
    if q == 0 then -1 else if Entry(s, q - 1, h) then q - 1 else Latest(s, h, q - 1)
  }

  /** How many positions between p and q have the hash h. */
  ghost function Newer(s: seq<byte>, h: nat, p: int, q: nat): nat
    requires -1 <= p
  {
    if q <= p + 1 then 0 else Newer(s, h, p, q - 1) + (if Entry(s, q - 1, h) then 1 else 0)
  }

  lemma {:induction false} NewerNone(s: seq<byte>, h: nat, p: int, q: nat)
    requires -1 <= p && forall r :: p < r < q ==> !Entry(s, r, h)
    ensures Newer(s, h, p, q) == 0
    decreases q
  {
    hide Entry;
    if q > p + 1 { NewerNone(s, h, p, q - 1); }
  }

  /** One more entry is newer than the next older one. */
  lemma {:induction false} NewerStep(s: seq<byte>, h: nat, p: nat, q: nat)
    requires p < q && Entry(s, p, h)
    ensures Newer(s, h, Latest(s, h, p), q) == Newer(s, h, p, q) + 1
    decreases q
  {
    hide Entry;
    if q == p + 1 {
      NewerNone(s, h, Latest(s, h, p), p);
    } else {
      NewerStep(s, h, p, q - 1);
    }
  }

  /** The further back, the more entries are newer. */
  lemma {:induction false} NewerMore(s: seq<byte>, h: nat, p: int, r: int, q: nat)
    requires -1 <= p <= r
    ensures Newer(s, h, p, q) >= Newer(s, h, r, q)
    decreases q
  {
    hide Entry;
    if q > p + 1 { NewerMore(s, h, p, r, q - 1); }
  }

  lemma AgreeHash(s: seq<byte>, m: nat, i: nat, len: nat)
    requires m < i && i + len <= |s| && len >= 3 && i + 4 <= |s| && Agree(s, m, i, len)
    ensures Entry(s, m, Hash(s[i], s[i + 1], s[i + 2]))
  {
    assert s[i] == s[i - (i - m)] && s[i + 1] == s[i + 1 - (i - m)] && s[i + 2] == s[i + 2 - (i - m)];
  }

  /** The hash under which position p is entered. */
  function HashAt(s: seq<byte>, p: nat): nat
    requires p + 4 <= |s|
  {
    Hash(s[p], s[p + 1], s[p + 2])
  }

  /** The bytes at p and i agree beyond len. */
  predicate Beats(s: seq<byte>, p: nat, i: nat, len: nat) {
    p < i && i + len < |s| && Agree(s, p, i, len + 1)
  }

  /** Position p is looked at for position i: fewer than MAX_SEARCH_DEPTH later ones have i's hash. */
  ghost predicate Candidate(s: seq<byte>, p: nat, i: nat) {
    p < i && i + 4 <= |s| && Newer(s, HashAt(s, i), p, i) < MAX_SEARCH_DEPTH
  }

  /** No candidate has more than len bytes in common with i. */
  ghost predicate Best(s: seq<byte>, i: nat, len: nat) {
    forall p: nat :: Candidate(s, p, i) ==> !Beats(s, p, i, len)
  }

  /** No position after p has more than len bytes in common with i. */
  ghost predicate NoneLater(s: seq<byte>, p: int, i: nat, len: nat) {
    forall q: nat :: p < q < i ==> !Beats(s, q, i, len)
  }

  /** The match of len bytes at p cannot be made longer within the limit. */
  predicate Maximal(s: seq<byte>, p: nat, i: nat, len: nat, limit: nat)
    requires p <= i
  {
    len == limit || i + len >= |s| || s[i + len] != s[p + len]
  }

  /**
   * A candidate p that really has the len bytes at i, found as the search finds it: the latest to have that many,
   * or 18, and from 18 bytes on as long as can be.
   */
  ghost predicate Real(s: seq<byte>, p: nat, i: nat, len: nat, limit: nat) {
    && Candidate(s, p, i) && 0 < len <= limit && i + len <= |s| && Agree(s, p, i, len)
    && NoneLater(s, p, i, Min(len, NICE_MATCH_LEN) - 1)
    && (len >= NICE_MATCH_LEN ==> Maximal(s, p, i, len, limit))
  }

  /**
   * A search at i for more than from bytes that found len bytes at distance -rel, under the length limit: what is
   * found is real, and it is the best up to 18 bytes.
   */
  ghost predicate Found(s: seq<byte>, i: nat, from: nat, len: nat, rel: int, limit: nat) {
    && len >= from
    && (len > from ==> 0 < -rel <= i && Real(s, i + rel, i, len, limit))
    && (len < NICE_MATCH_LEN ==> Best(s, i, len))
  }

  class MatchFinder {
    const input: seq<byte>
    const head: array<int>
    const prev: array<int>
    var size: nat
    var rel: int
    var mxsz: nat
    /** Every position below next has been offered to the finder exactly once. */
    ghost var next: nat

    constructor (input: seq<byte>)
      requires |input| <= SB_SIZE
      ensures Valid() && this.input == input && next == 0
      ensures fresh(head) && fresh(prev)
    {
      this.input := input;
      head := new int[HASH_SIZE](_ => NO_MATCH);
      prev := new int[SB_SIZE](_ => NO_MATCH);
      size, rel, mxsz, next := 0, 0, 0, 0;
    }

    /** Each chain leads through every earlier position of its hash, latest first. */
    ghost predicate Valid()
      reads `next, head, prev
    {
      && |input| <= SB_SIZE && head.Length == HASH_SIZE && prev.Length == SB_SIZE && head != prev
      && (forall h :: 0 <= h < HASH_SIZE ==> head[h] == Latest(input, h, next))
      && (forall p :: 0 <= p < next && p + 4 <= |input| ==> prev[p] == Latest(input, HashAt(input, p), p))
    }

    lemma SizeBound()
      requires Valid()
      ensures |input| <= SB_SIZE
    {
    }

    /** size and rel describe a real earlier occurrence of the bytes at i. */
    ghost predicate GoodMatch(i: nat)
      reads this
    {
      0 < -rel <= i && Real(input, i + rel, i, size, mxsz)
    }

    /** Put position i in front of its chain; the former front is returned. */
    method Insert(i: nat) returns (first: int)
      requires Valid() && next == i && i + 4 <= |input|
      modifies head, prev, `next
      ensures Valid() && next == i + 1
      ensures first == Latest(input, HashAt(input, i), i)
    {
      hide Hash;
      var h := Hash(input[i], input[i + 1], input[i + 2]);
      first := head[h];
      prev[i] := first;
      head[h] := i;
      next := i + 1;
    }

    /** ntfs_skip_position */
    method SkipPosition(i: nat)
      requires Valid() && next == i && i < |input|
      modifies head, prev, `next
      ensures Valid() && next == i + 1
    {
      if |input| - i < 4 {
        Offer(i);
        return;
      }
      var _ := Insert(i);
    }

    /** Are the bytes at m and i equal through index bestLen? The likeliest mismatches go first. */
    method Longer(m: nat, i: nat, bestLen: nat) returns (yes: bool)
      requires m < i && i + bestLen < |input| && bestLen >= 2
      ensures yes <==> Agree(input, m, i, bestLen + 1)
    {
      if input[m + bestLen] != input[i + bestLen]
         || input[m + bestLen - 1] != input[i + bestLen - 1]
         || input[m] != input[i] {
        return false;
      }
      var len := 1;
      while len < bestLen - 1
        invariant 1 <= len <= bestLen - 1
        invariant Agree(input, m, i, len)
      {
        if input[m + len] != input[i + len] {
          return false;
        }
        len := len + 1;
      }
      yes := true;
    }

    /** Lengthen a match known to exceed bestLen; done once it is nice enough to stop searching. */
    method Extend(m: nat, i: nat, bestLen: nat, niceLen: nat, maxLen: nat) returns (len: nat, done: bool)
      requires m < i && i + maxLen <= |input| && bestLen < niceLen <= maxLen
      requires Agree(input, m, i, bestLen + 1)
      ensures bestLen < len <= maxLen && Agree(input, m, i, len)
      ensures !done ==> len < niceLen && input[m + len] != input[i + len]
      ensures done ==> len == maxLen || (niceLen <= len && input[m + len] != input[i + len])
    {
      len, done := bestLen + 1, false;
      while len < niceLen && input[m + len] == input[i + len]
        invariant bestLen < len <= niceLen
        invariant Agree(input, m, i, len)
      {
        len := len + 1;
      }
      if len >= niceLen {
        done := true;
        while len < maxLen && input[m + len] == input[i + len]
          invariant niceLen <= len <= maxLen
          invariant Agree(input, m, i, len)
        {
          len := len + 1;
        }
      }
    }

    /** Positions from cur + 1 on, of which there are seen on the chain, do not beat len. */
    ghost predicate Beaten(i: nat, cur: int, len: nat, seen: nat)
      requires i + 4 <= |input|
    {
      && -1 <= cur < i && seen == Newer(input, HashAt(input, i), cur, i)
      && (cur >= 0 ==> Entry(input, cur, HashAt(input, i)))
      && NoneLater(input, cur, i, len)
    }

    lemma BeatenStart(i: nat, len: nat)
      requires i + 4 <= |input| && len >= 2
      ensures Beaten(i, Latest(input, HashAt(input, i), i), len, 0)
    {
      var h := HashAt(input, i);
      var cur := Latest(input, h, i);
      NewerNone(input, h, cur, i);
      hide Entry, Hash;
      forall p: nat | cur < p < i ensures !Beats(input, p, i, len) {
        OtherHash(p, i, len);
      }
    }

    /** A position of another hash does not have three bytes in common with i. */
    lemma OtherHash(p: nat, i: nat, len: nat)
      requires p < i && i + 4 <= |input| && 2 <= len && !Entry(input, p, HashAt(input, i))
      ensures !Beats(input, p, i, len)
    {
      if Beats(input, p, i, len) {
        AgreeHash(input, p, i, len + 1);
      }
    }

    lemma BeatenStep(i: nat, cur: nat, len: nat, longer: nat, seen: nat)
      requires i + 4 <= |input| && Beaten(i, cur, len, seen) && 2 <= len <= longer && !Beats(input, cur, i, longer)
      ensures Beaten(i, Latest(input, HashAt(input, i), cur), longer, seen + 1)
    {
      hide Entry, Hash;
      var h := HashAt(input, i);
      NewerStep(input, h, cur, i);
      forall p: nat | Latest(input, h, cur) < p < i ensures !Beats(input, p, i, longer) {
        if p < cur {
          OtherHash(p, i, longer);
        } else if p > cur {
          Shorter(p, i, len, longer);
        }
      }
    }

    lemma Shorter(p: nat, i: nat, len: nat, longer: nat)
      requires len <= longer && !Beats(input, p, i, len)
      ensures !Beats(input, p, i, longer)
    {
    }

    lemma BeatenAll(i: nat, cur: int, len: nat, seen: nat)
      requires i + 4 <= |input| && Beaten(i, cur, len, seen) && (cur < 0 || seen >= MAX_SEARCH_DEPTH)
      ensures Best(input, i, len)
    {
      hide Entry, Hash, Beats;
      var h := HashAt(input, i);
      forall p: nat | Candidate(input, p, i) ensures !Beats(input, p, i, len) {
        if p <= cur { NewerMore(input, h, p, cur, i); }
      }
    }

    lemma Differs(p: nat, i: nat, len: nat)
      requires p < i && i + len < |input| && input[p + len] != input[i + len]
      ensures !Beats(input, p, i, len)
    {
      assert input[i + len] != input[i + len - (i - p)];
    }

    lemma NotLonger(p: nat, i: nat, len: nat)
      requires p < i && i + len < |input| && !Agree(input, p, i, len + 1)
      ensures !Beats(input, p, i, len)
    {
    }

    lemma NextLink(i: nat, cur: nat)
      requires Valid() && cur < i < next && i + 4 <= |input| && Entry(input, cur, HashAt(input, i))
      ensures cur < prev.Length && prev[cur] == Latest(input, HashAt(input, i), cur)
    {
    }

    /** The position cur, longer than all seen before it, is a match as the search finds it. */
    lemma NowReal(i: nat, cur: nat, before: nat, len: nat, seen: nat, maxLen: nat)
      requires i + 4 <= |input| && Beaten(i, cur, before, seen) && seen < MAX_SEARCH_DEPTH
      requires before < NICE_MATCH_LEN && before < len <= maxLen == Min(|input| - i, mxsz) && Agree(input, cur, i, len)
      requires len >= NICE_MATCH_LEN && len < maxLen ==> input[cur + len] != input[i + len]
      ensures Real(input, cur, i, len, mxsz)
    {
      hide Entry, Hash, Agree;
      var cap := Min(len, NICE_MATCH_LEN) - 1;
      forall q: nat | cur < q < i ensures !Beats(input, q, i, cap) {
        Shorter(q, i, before, cap);
      }
    }

    /** The search of one chain from cur on, which ends early at a match of niceLen bytes. */
    method Search(i: nat, first: int, bestLen0: nat, niceLen: nat, maxLen: nat)
      requires Valid() && next == i + 1 && i + 4 <= |input| && 2 <= bestLen0 < niceLen == Min(NICE_MATCH_LEN, maxLen)
      requires maxLen == Min(|input| - i, mxsz) && -1 <= first < i && Beaten(i, first, bestLen0, 0) && size == bestLen0
      modifies `size, `rel
      ensures size >= bestLen0 && (size > bestLen0 ==> GoodMatch(i))
      ensures size < niceLen ==> Best(input, i, size)
    {
      hide Beaten, Best, Valid, Entry, Hash, Agree, Beats, Real;
      var cur, depth := first, MAX_SEARCH_DEPTH;
      while cur >= 0 && depth > 0
        invariant 0 <= depth <= MAX_SEARCH_DEPTH && bestLen0 <= size < niceLen && -1 <= cur < i
        invariant size > bestLen0 ==> GoodMatch(i)
        invariant Beaten(i, cur, size, MAX_SEARCH_DEPTH - depth)
        decreases cur + 1
      {
        depth := depth - 1;
        ghost var before := size;
        InChain(i, cur, size, MAX_SEARCH_DEPTH - depth - 1);
        NextLink(i, cur);
        var yes := Longer(cur, i, size);
        if yes {
          var done;
          size, done := Extend(cur, i, size, niceLen, maxLen);
          rel := cur - i;
          NowReal(i, cur, before, size, MAX_SEARCH_DEPTH - depth - 1, maxLen);
          if done {
            return;
          }
          Differs(cur, i, size);
        } else {
          NotLonger(cur, i, size);
        }
        BeatenStep(i, cur, before, size, MAX_SEARCH_DEPTH - depth - 1);
        cur := prev[cur];
      }
      BeatenAll(i, cur, size, MAX_SEARCH_DEPTH - depth);
    }

    /** ntfs_best_match: offers position i and searches its chain for a match longer than bestLen0. */
    method BestMatch(i: nat, bestLen0: nat)
      requires Valid() && next == i && i < |input| && 2 <= bestLen0 < NICE_MATCH_LEN
      requires mxsz >= NICE_MATCH_LEN
      modifies head, prev, `next, `size, `rel
      ensures Valid() && next == i + 1
      ensures size > bestLen0 ==> GoodMatch(i)
      ensures Found(input, i, bestLen0, size, rel, mxsz)
    {
      hide Valid, Best, Beaten, Agree, Hash, Entry, Latest, Real;
      var maxLen := Min(|input| - i, mxsz);
      var niceLen := Min(NICE_MATCH_LEN, maxLen);
      size, rel := bestLen0, 0;
      NoRoom(i, bestLen0);
      if maxLen < 4 {
        Offer(i);
        return;
      }
      var cur := Insert(i);
      if bestLen0 >= maxLen {
        return;
      }
      BeatenStart(i, bestLen0);
      Search(i, cur, bestLen0, niceLen, maxLen);
      NoRoom(i, size);
      FitsIn(i);
    }

    /** A position too near the end to be entered in a chain. */
    method Offer(i: nat)
      requires Valid() && next == i && i + 4 > |input|
      modifies `next
      ensures Valid() && next == i + 1
    {
      hide Hash;
      next := i + 1;
    }

    lemma InChain(i: nat, cur: nat, len: nat, seen: nat)
      requires i + 4 <= |input| && Beaten(i, cur, len, seen)
      ensures cur < i && Entry(input, cur, HashAt(input, i)) && cur + 4 <= |input|
      ensures -1 <= Latest(input, HashAt(input, i), cur) < cur
    {
    }

    lemma FitsIn(i: nat)
      ensures GoodMatch(i) ==> i + size <= |input|
    {
    }

    lemma NoRoom(i: nat, len: nat)
      ensures i + len >= |input| || i + 4 > |input| ==> Best(input, i, len)
    {
    }
  }
}

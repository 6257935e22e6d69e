/** ntfs_decompress: the in-place decoder, proved against Lznt1Format.Decode. */
module Lznt1Decoder {
  import opened Bytes
  import opened Lznt1Format

  /** The overlapping copy is the only way to extend out by len bytes at distance dist. */
  lemma {:induction false} CopyBackUnique(out: seq<byte>, dist: nat, len: nat, r: seq<byte>)
    requires 1 <= dist <= |out|
    requires |r| == |out| + len && r[..|out|] == out
    requires forall k :: |out| <= k < |r| ==> r[k] == r[k - dist]
    ensures r == CopyBack(out, dist, len)
    decreases len
  {
    if len > 0 {
      var s := r[..|r| - 1];
      assert s[..|out|] == r[..|out|];
      CopyBackUnique(out, dist, len - 1, s);
      assert r == s + [r[|r| - 1]];
      assert r[|r| - 1] == r[|r| - 1 - dist] == s[|s| - dist];
    } else {
      assert r == r[..|out|];
    }
  }

  lemma PhraseCopied(out: seq<byte>, r: seq<byte>, dist: nat, len: nat)
    requires 1 <= dist <= |out| && |r| == |out| + len
    requires forall k :: 0 <= k < |out| ==> r[k] == out[k]
    requires forall k :: |out| <= k < |r| ==> r[k] == r[k - dist]
    ensures r == CopyBack(out, dist, len)
  {
    assert r[..|out|] == out;
    CopyBackUnique(out, dist, len, r);
  }

  /** Copy length bytes from back to d: one block copy when the ranges are apart, otherwise a
      block copy of the part that is already there followed by a byte-by-byte copy. */
  method CopyPhrase(dest: array<byte>, ghost start: nat, d: nat, back: nat, length: nat)
    requires start <= back < d && d + length <= dest.Length
    modifies dest
    ensures dest[..start] == old(dest[..start])
    ensures dest[start..d + length] == CopyBack(old(dest[start..d]), d - back, length)
  {
    var maxNonOverlap := d - back;
    if length <= maxNonOverlap {
      forall k | 0 <= k < length { dest[d + k] := dest[back + k]; }
    } else {
      forall k | 0 <= k < maxNonOverlap { dest[d + k] := dest[back + k]; }
      var to, from, left := d + maxNonOverlap, back + maxNonOverlap, length - maxNonOverlap;
      while left > 0
        invariant 0 <= left && to + left == d + length && from == to - maxNonOverlap
        invariant to >= d + maxNonOverlap
        invariant forall k :: 0 <= k < d ==> dest[k] == old(dest[k])
        invariant forall k :: d <= k < to ==> dest[k] == dest[k - maxNonOverlap]
      {
        dest[to] := dest[from];
        to, from, left := to + 1, from + 1, left - 1;
      }
    }
    PhraseCopied(old(dest[start..d]), dest[start..d + length], maxNonOverlap, length);
  }

  /** Position-dependent split of a phrase word, computed by repeated halving. */
  method OffsetBits(n: nat) returns (lg: nat)
    requires 0 < n <= SB_SIZE
    ensures lg == Lg(n) && lg <= 8
  {
    lg := 0;
    var i: nat := n - 1;
    while i >= 0x10
      invariant lg + Halvings(i) == Halvings(n - 1)
    {
      i, lg := i / 2, lg + 1;
    }
    LgRange(n);
  }

  method DecodePhrase(dest: array<byte>, start: nat, d: nat, pt: word) returns (ok: bool, d': nat)
    requires start < d <= start + SB_SIZE <= dest.Length
    modifies dest
    ensures ok <==> Apply(old(dest[start..d]), Phrase(pt)).Some?
    ensures ok ==> d <= d' <= start + SB_SIZE
    ensures ok ==> dest[start..d'] == Apply(old(dest[start..d]), Phrase(pt)).value
    ensures dest[..start] == old(dest[..start])
  {
    hide CopyBack;
    d' := d;
    ghost var out := dest[start..d];
    var lg := OffsetBits(d - start);
    var split := Pow2(12 - lg);
    assert split == PhraseSplit(|out|);
    var distance := pt / split + 1;
    if d - start < distance {
      return false, d';
    }
    var length := pt % split + 3;
    if d + length > start + SB_SIZE {
      return false, d';
    }
    CopyPhrase(dest, start, d, d - distance, length);
    d' := d + length;
    ok := true;
  }

  method DecodeGroupInto(dest: array<byte>, start: nat, d0: nat, cb: seq<byte>, at0: nat, end: nat, tag0: byte)
    returns (ok: bool, at: nat, d: nat)
    requires start <= d0 <= start + SB_SIZE <= dest.Length && end <= |cb|
    requires !DecodeGroup(cb, at0, end, tag0, 8, dest[start..d0]).GroupUndefined?
    modifies dest
    ensures ok <==> DecodeGroup(cb, at0, end, tag0, 8, old(dest[start..d0])).Group?
    ensures ok ==> start <= d <= start + SB_SIZE && at >= at0
    ensures ok ==> DecodeGroup(cb, at0, end, tag0, 8, old(dest[start..d0])) == Group(at, dest[start..d])
    ensures dest[..start] == old(dest[..start])
  {
    hide Apply, Word;
    at, d := at0, d0;
    var tag: nat, token := tag0, 0;
    ghost var goal := DecodeGroup(cb, at0, end, tag0, 8, dest[start..d0]);
    while token < 8 && at < end
      invariant 0 <= token <= 8 && at0 <= at && start <= d <= start + SB_SIZE
      invariant goal == DecodeGroup(cb, at, end, tag, 8 - token, dest[start..d])
      invariant dest[..start] == old(dest[..start])
      decreases 8 - token
    {
      if tag % 2 == 0 {
        ghost var out := dest[start..d];
        dest[d] := cb[at];
        at, d := at + 1, d + 1;
        assert dest[start..d] == out + [cb[at - 1]];
      } else if d == start {
        return false, at, d;
      } else {
        var pt := Word(cb[at], cb[at + 1]);
        ok, d := DecodePhrase(dest, start, d, pt);
        if !ok { return; }
        at := at + 2;
      }
      token, tag := token + 1, tag / 2;
    }
    ok := true;
  }

  /** All tags of one compressed sub-block, then the zero fill up to its full size. */
  method DecodeTagsInto(dest: array<byte>, start: nat, cb: seq<byte>, at0: nat, end: nat) returns (ok: bool)
    requires start + SB_SIZE <= dest.Length && at0 <= end <= |cb|
    requires !DecodeTags(cb, at0, end, []).Undefined?
    modifies dest
    ensures ok <==> DecodeTags(cb, at0, end, []).Decoded?
    ensures ok ==> dest[start..start + SB_SIZE] == DecodeTags(cb, at0, end, []).bytes
    ensures dest[..start] == old(dest[..start])
  {
    hide DecodeGroup;
    var at, d := at0, start;
    assert dest[start..d] == [];
    ghost var goal := DecodeTags(cb, at0, end, []);
    while at != end
      invariant at0 <= at && start <= d <= start + SB_SIZE
      invariant goal == DecodeTags(cb, at, end, dest[start..d])
      invariant dest[..start] == old(dest[..start])
      decreases end - at
    {
      if at > end {
        return false;
      }
      var tag := cb[at];
      ok, at, d := DecodeGroupInto(dest, start, d, cb, at + 1, end, tag);
      if !ok { return; }
    }
    ghost var out := dest[start..d];
    forall k | d <= k < start + SB_SIZE { dest[k] := 0; }
    assert dest[start..start + SB_SIZE] == Pad(out);
    ok := true;
  }

  /** One sub-block, stored or compressed, whose header is at at. */
  method DecodeBlockInto(dest: array<byte>, d: nat, cb: seq<byte>, at: nat) returns (ok: bool, end: nat)
    requires d + SB_SIZE <= dest.Length && at + 1 < |cb|
    requires !DecodeBlock(cb, at).Undefined?
    modifies dest
    ensures ok <==> DecodeBlock(cb, at).Decoded?
    ensures ok ==> end == BlockEnd(cb, at) && dest[d..d + SB_SIZE] == DecodeBlock(cb, at).bytes
    ensures dest[..d] == old(dest[..d])
  {
    hide DecodeTags;
    end := at + Word(cb[at], cb[at + 1]) % 4096 + 3;
    if at + 6 > |cb| || end > |cb| {
      return false, end;
    }
    if Word(cb[at], cb[at + 1]) < 0x8000 {
      if end - (at + 2) != SB_SIZE {
        return false, end;
      }
      forall k | 0 <= k < SB_SIZE { dest[d + k] := cb[at + 2 + k]; }
      assert dest[d..d + SB_SIZE] == cb[at + 2..end];
      ok := true;
    } else {
      ok := DecodeTagsInto(dest, d, cb, at + 2, end);
    }
  }

  /** ntfs_decompress over the whole compression block. */
  method Decompress(dest: array<byte>, size: nat, cb: seq<byte>) returns (ok: bool)
    requires size <= dest.Length
    requires !Decode(cb, size).Undefined?
    modifies dest
    ensures ok <==> Decode(cb, size).Decoded?
    ensures ok ==> dest[..size] == Decode(cb, size).bytes
  {
    hide DecodeBlock, BlockEnd;
    var at: nat, d: nat := 0, 0;
    assert dest[..d] == [];
    ghost var goal := Decode(cb, size);
    while !(at == |cb| || Word(cb[at], cb[at + 1]) == 0 || d == size)
      invariant at <= |cb| && d <= size
      invariant goal == DecodeStream(cb, at, size, dest[..d])
      decreases |cb| - at
    {
      if d + SB_SIZE > size {
        return false;
      }
      ghost var out := dest[..d];
      ok, at := DecodeBlockInto(dest, d, cb, at);
      if !ok { return; }
      assert dest[..d + SB_SIZE] == out + dest[d..d + SB_SIZE];
      d := d + SB_SIZE;
    }
    ghost var out := dest[..d];
    forall k | d <= k < size { dest[k] := 0; }
    assert dest[..size] == out + Zeros(size - d);
    ok := true;
  }
}

/** The LZNT1 stream format (section 2.5 of [MS-XCA]): tokens, their meaning, their
    byte layout, and the decoder as a function on byte strings. */
module Lznt1Format {
  import opened Bytes

  const SB_SIZE: nat := 4096

  /** One token of a compressed sub-block: a literal byte, or a back reference held as
      the raw 16-bit word whose offset/length split depends on the output position. */
  datatype Token = Symbol(b: byte) | Phrase(pt: word)

  datatype Option<T> = None | Some(value: T)

  function Halvings(m: nat): nat {
    if m < 16 then 0 else 1 + Halvings(m / 2)
  }

  /** Number of extra offset bits at output position n of a sub-block (n > 0). */
  function Lg(n: nat): nat {
    if n == 0 then 0 else Halvings(n - 1)
  }

  lemma {:induction false} HalvingsRange(m: nat, k: nat)
    requires m < 16 * Pow2(k)
    ensures Halvings(m) <= k
  {
    if m >= 16 {
      assert k > 0;
      HalvingsRange(m / 2, k - 1);
    }
  }

  lemma LgRange(n: nat)
    requires n <= SB_SIZE
    ensures Lg(n) <= 8
  {
    if n > 0 { HalvingsRange(n - 1, 8); }
  }

  function PhraseSplit(n: nat): (p: nat)
    requires n <= SB_SIZE
    ensures p >= 1
  {
    LgRange(n);
    Pow2(12 - Lg(n))
  }

  function PhraseDistance(pt: word, n: nat): (d: nat)
    requires n <= SB_SIZE
    ensures d >= 1
  {
    pt / PhraseSplit(n) + 1
  }

  function PhraseLength(pt: word, n: nat): (l: nat)
    requires n <= SB_SIZE
    ensures l >= 3
  {
    pt % PhraseSplit(n) + 3
  }

  /** Byte-by-byte copy of len bytes from dist bytes back; the source may overlap the target. */
  function CopyBack(out: seq<byte>, dist: nat, len: nat): (r: seq<byte>)
    requires 1 <= dist <= |out|
    ensures |r| == |out| + len
    ensures r[..|out|] == out
    ensures forall k :: |out| <= k < |r| ==> r[k] == r[k - dist]
    decreases len
  {
    if len == 0 then out
    else
      var s := CopyBack(out, dist, len - 1);
      s + [s[|s| - dist]]
  }

  /** Effect of one token on the bytes already produced for the sub-block. */
  function Apply(out: seq<byte>, t: Token): (r: Option<seq<byte>>)
    ensures r.Some? ==> |out| < |r.value| <= SB_SIZE
  {
    match t
    case Symbol(b) => if |out| < SB_SIZE then Some(out + [b]) else None
    case Phrase(pt) =>
      if !(0 < |out| <= SB_SIZE) then None
      else
        var dist := PhraseDistance(pt, |out|);
        var len := PhraseLength(pt, |out|);
        if dist <= |out| && |out| + len <= SB_SIZE then Some(CopyBack(out, dist, len)) else None
  }

  /** Meaning of a token sequence, continuing from out. */
  function Run(out: seq<byte>, toks: seq<Token>): Option<seq<byte>>
    decreases |toks|
  {
    if toks == [] then Some(out)
    else
      var r := Apply(out, toks[0]);
      if r.None? then None else Run(r.value, toks[1..])
  }

  lemma {:induction false} RunAppend(out: seq<byte>, a: seq<Token>, b: seq<Token>)
    ensures Run(out, a + b) == (if Run(out, a).None? then None else Run(Run(out, a).value, b))
    decreases |a|
  {
    if a == [] {
      assert a + b == b;
    } else {
      assert (a + b)[1..] == a[1..] + b;
      var r := Apply(out, a[0]);
      if r.Some? {
        RunAppend(r.value, a[1..], b);
      }
    }
  }

  /** Bytes of one token. */
  function TokenBytes(t: Token): (s: seq<byte>)
    ensures 1 <= |s| <= 2
  {
    match t
    case Symbol(b) => [b]
    case Phrase(pt) => [pt % 256, pt / 256]
  }

  function Body(g: seq<Token>): (s: seq<byte>)
    ensures |g| <= |s| <= 2 * |g|
  {
    if g == [] then [] else TokenBytes(g[0]) + Body(g[1..])
  }

  /** Tag byte of a group: bit k tells whether token k is a phrase. */
  function TagOf(g: seq<Token>): (t: nat)
    ensures t < Pow2(|g|)
  {
    if g == [] then 0
    else (if g[0].Phrase? then 1 else 0) + 2 * TagOf(g[1..])
  }

  lemma {:induction false} BodyAppend(a: seq<Token>, b: seq<Token>)
    ensures Body(a + b) == Body(a) + Body(b)
    decreases |a|
  {
    if a == [] {
      assert a + b == b;
    } else {
      assert (a + b)[1..] == a[1..] + b;
      BodyAppend(a[1..], b);
    }
  }

  lemma {:induction false} TagAppend(a: seq<Token>, t: Token)
    ensures TagOf(a + [t]) == TagOf(a) + (if t.Phrase? then Pow2(|a|) else 0)
    decreases |a|
  {
    if a == [] {
      assert a + [t] == [t];
      assert [t][1..] == [];
    } else {
      assert (a + [t])[1..] == a[1..] + [t];
      TagAppend(a[1..], t);
    }
  }

  function GroupLen(toks: seq<Token>): (n: nat)
    ensures n <= |toks| && n <= 8
    ensures toks != [] ==> n > 0
  {
    if |toks| < 8 then |toks| else 8
  }

  function TagByte(g: seq<Token>): (b: byte)
    requires |g| <= 8
  {
    Pow2Table();
    Pow2Monotone(|g|, 8);
    TagOf(g)
  }

  /** Layout of a sub-block body: groups of up to eight tokens, each behind its tag byte. */
  function Serialize(toks: seq<Token>): seq<byte> {
    if toks == [] then []
    else
      var n := GroupLen(toks);
      [TagByte(toks[..n])] + Body(toks[..n]) + Serialize(toks[n..])
  }

  lemma {:induction false} SerializeAppend(full: seq<Token>, rest: seq<Token>)
    requires |full| % 8 == 0
    ensures Serialize(full + rest) == Serialize(full) + Serialize(rest)
    decreases |full|
  {
    hide Body, TagByte;
    if full == [] {
      assert full + rest == rest;
    } else {
      assert (full + rest)[..8] == full[..8];
      assert (full + rest)[8..] == full[8..] + rest;
      SerializeAppend(full[8..], rest);
      var h := [TagByte(full[..8])] + Body(full[..8]);
      assert Serialize(full + rest) == h + Serialize(full[8..] + rest);
      assert Serialize(full) == h + Serialize(full[8..]);
    }
  }

  /** A sub-block: compressed tokens, or SB_SIZE bytes stored as they are. */
  datatype Block = Packed(toks: seq<Token>) | Stored(data: seq<byte>)

  ghost predicate ValidBlock(b: Block) {
    match b
    case Packed(toks) => toks != [] && Run([], toks).Some? && |Serialize(toks)| <= SB_SIZE
    case Stored(data) => |data| == SB_SIZE
  }

  function Pad(s: seq<byte>): (r: seq<byte>)
    requires |s| <= SB_SIZE
    ensures |r| == SB_SIZE
  {
    s + Zeros(SB_SIZE - |s|)
  }

  lemma {:induction false} RunBound(out: seq<byte>, toks: seq<Token>)
    requires |out| <= SB_SIZE && Run(out, toks).Some?
    ensures |out| + |toks| <= |Run(out, toks).value| <= SB_SIZE
    decreases |toks|
  {
    if toks != [] {
      RunBound(Apply(out, toks[0]).value, toks[1..]);
    }
  }

  /** The SB_SIZE bytes a block stands for. */
  ghost function Content(b: Block): (r: seq<byte>)
    requires ValidBlock(b)
    ensures |r| == SB_SIZE
  {
    match b
    case Packed(toks) => RunBound([], toks); Pad(Run([], toks).value)
    case Stored(data) => data
  }

  lemma SerializeLong(toks: seq<Token>)
    requires toks != []
    ensures |Serialize(toks)| >= 2
  {
  }

  /** Bytes of a block on disk: two header bytes, then tokens or raw data. */
  ghost function BlockBytes(b: Block): (s: seq<byte>)
    requires ValidBlock(b)
    ensures 4 <= |s| <= SB_SIZE + 2
  {
    match b
    case Packed(toks) =>
      var body := Serialize(toks);
      SerializeLong(toks);
      assert (|body| - 1) / 256 <= 15;
      [(|body| - 1) % 256, 0xb0 + (|body| - 1) / 256] + body
    case Stored(data) => [0xff, 0x3f] + data
  }

  // ---- the decoder as a function ----

  /** Result of decoding. Undefined marks streams on which the decoder leaves its buffers:
      a header or phrase cut by the end of the input, or a literal beyond a full sub-block. */
  datatype Outcome = Decoded(bytes: seq<byte>) | Overflow | Undefined

  datatype GroupOutcome = Group(at: nat, out: seq<byte>) | GroupOverflow | GroupUndefined

  /** Tokens of one tag: left tokens remain, tag holds their type bits, at is the input cursor. */
  function DecodeGroup(cb: seq<byte>, at: nat, end: nat, tag: nat, left: nat, out: seq<byte>): (g: GroupOutcome)
    requires end <= |cb|
    requires |out| <= SB_SIZE
    ensures g.Group? ==> g.at >= at && |g.out| <= SB_SIZE
    decreases left
  {
    if left == 0 || at >= end then Group(at, out)
    else if tag % 2 == 0 then
      if |out| >= SB_SIZE then GroupUndefined
      else DecodeGroup(cb, at + 1, end, tag / 2, left - 1, out + [cb[at]])
    else if |out| == 0 then GroupOverflow
    else if at + 1 >= |cb| then GroupUndefined
    else
      var r := Apply(out, Phrase(Word(cb[at], cb[at + 1])));
      if r.None? then GroupOverflow
      else DecodeGroup(cb, at + 2, end, tag / 2, left - 1, r.value)
  }

  /** Tagged groups of one compressed sub-block, from at to end. */
  function DecodeTags(cb: seq<byte>, at: nat, end: nat, out: seq<byte>): (r: Outcome)
    requires end <= |cb|
    requires |out| <= SB_SIZE
    ensures r.Decoded? ==> |r.bytes| == SB_SIZE
    decreases end - at
  {
    if at == end then Decoded(Pad(out))
    else if at > end then Overflow
    else
      match DecodeGroup(cb, at + 1, end, cb[at], 8, out)
      case Group(at', out') => DecodeTags(cb, at', end, out')
      case GroupOverflow => Overflow
      case GroupUndefined => Undefined
  }

  function Header(cb: seq<byte>, at: nat): word
    requires at + 1 < |cb|
  {
    Word(cb[at], cb[at + 1])
  }

  function BlockEnd(cb: seq<byte>, at: nat): (e: nat)
    requires at + 1 < |cb|
    ensures e >= at + 3
  {
    at + Header(cb, at) % 4096 + 3
  }

  predicate IsPacked(cb: seq<byte>, at: nat)
    requires at + 1 < |cb|
  {
    Header(cb, at) >= 0x8000
  }

  /** One sub-block whose header starts at at. */
  function DecodeBlock(cb: seq<byte>, at: nat): (r: Outcome)
    requires at + 1 < |cb|
    ensures r.Decoded? ==> |r.bytes| == SB_SIZE && BlockEnd(cb, at) <= |cb|
  {
    var end := BlockEnd(cb, at);
    if at + 6 > |cb| || end > |cb| then Overflow
    else if IsPacked(cb, at) then DecodeTags(cb, at + 2, end, [])
    else if end - (at + 2) != SB_SIZE then Overflow
    else Decoded(cb[at + 2..end])
  }

  /** The whole stream: sub-blocks until the input ends, a zero header, or size bytes are out. */
  function DecodeStream(cb: seq<byte>, at: nat, size: nat, out: seq<byte>): (r: Outcome)
    requires at <= |cb| && |out| <= size
    ensures r.Decoded? ==> |r.bytes| == size && r.bytes[..|out|] == out
    decreases |cb| - at
  {
    if at == |cb| then Decoded(out + Zeros(size - |out|))
    else if at + 1 == |cb| then Undefined
    else if Header(cb, at) == 0 || |out| == size then Decoded(out + Zeros(size - |out|))
    else if |out| + SB_SIZE > size then Overflow
    else
      match DecodeBlock(cb, at)
      case Decoded(bytes) =>
        var r := DecodeStream(cb, BlockEnd(cb, at), size, out + bytes);
        assert r.Decoded? ==> r.bytes[..|out|] == r.bytes[..|out + bytes|][..|out|];
        r
      case Overflow => Overflow
      case Undefined => Undefined
  }

  function Decode(cb: seq<byte>, size: nat): (r: Outcome)
    ensures r.Decoded? ==> |r.bytes| == size
  {
    DecodeStream(cb, 0, size, [])
  }
}

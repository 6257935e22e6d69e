/**
 * One block of the fsck cluster bitmap: all free, all allocated, or 8192 literal bytes.
 * The inner loops of ntfs_fsck_set_lcnbmp_range and ntfs_fsck_check_and_set_lcnbmp work on it.
 */
module ShadowBlock {
  import opened Bits

  const BUF_SIZE: nat := 8192
  const BLOCK_BITS: nat := 65536

  datatype Block = Free | Ones | Literal(bits: seq<bv8>)

  predicate Sized(b: Block) {
    b.Literal? ==> |b.bits| == BUF_SIZE
  }

  /** Whether bit i of the block is set. */
  predicate Holds(b: Block, i: nat)
    requires Sized(b) && i < BLOCK_BITS
  {
    match b
    case Free => false
    case Ones => true
    case Literal(bits) => Bit(bits, i)
  }

  function Filled(v: bv8): (r: seq<bv8>)
    ensures |r| == BUF_SIZE && forall k :: 0 <= k < BUF_SIZE ==> r[k] == v
  {
    seq(BUF_SIZE, k => v)
  }

  /** The literal bytes a block stands for. */
  function Materialized(b: Block): (r: seq<bv8>)
    requires Sized(b)
    ensures |r| == BUF_SIZE
    ensures forall i :: 0 <= i < BLOCK_BITS ==> (Bit(r, i) <==> Holds(b, i))
  {
    match b
    case Free => Filled(0)
    case Ones => Filled(0xff)
    case Literal(bits) => bits
  }

  /** The count kept beside a literal block is the number of its bits below live. */
  ghost predicate Counted(b: Block, cnt: int, live: nat)
    requires Sized(b) && live <= BLOCK_BITS
  {
    match b
    case Free => true
    case Ones => live == BLOCK_BITS
    case Literal(bits) => cnt == Count(bits, live)
  }

  /** Bits [rel, rel + n) given the value v, the others kept. */
  ghost predicate Ranged(before: Block, after: Block, rel: nat, n: nat, v: bool)
    requires Sized(before) && Sized(after)
  {
    forall i :: 0 <= i < BLOCK_BITS ==> (Holds(after, i) <==> if rel <= i < rel + n then v else Holds(before, i))
  }

  lemma {:induction false} CountNone(bits: seq<bv8>, n: nat)
    requires n <= 8 * |bits| && forall i :: 0 <= i < n ==> !Bit(bits, i)
    ensures Count(bits, n) == 0
  {
    hide Bit;
    if n > 0 { CountNone(bits, n - 1); }
  }

  method Materialize(b: Block, cnt: int, ghost live: nat) returns (bits: seq<bv8>, c: int)
    requires Sized(b) && live <= BLOCK_BITS && Counted(b, cnt, live)
    ensures |bits| == BUF_SIZE && c == Count(bits, live)
    ensures forall i :: 0 <= i < BLOCK_BITS ==> (Bit(bits, i) <==> Holds(b, i))
  {
    bits := Materialized(b);
    c := cnt;
    if b.Ones? {
      c := BLOCK_BITS;
      CountFull(bits, live);
    } else if b.Free? {
      c := 0;
      CountNone(bits, live);
    }
  }

  /** A literal block whose count says it is full becomes the all-ones sentinel. */
  method TryCollapse(bits: seq<bv8>, cnt: int, ghost live: nat) returns (b: Block)
    requires |bits| == BUF_SIZE && live <= BLOCK_BITS && cnt == Count(bits, live)
    ensures Sized(b) && Counted(b, cnt, live) && !b.Free?
    ensures b.Ones? <==> live == BLOCK_BITS && forall i :: 0 <= i < BLOCK_BITS ==> Bit(bits, i)
    ensures forall i :: 0 <= i < BLOCK_BITS ==> (Holds(b, i) <==> Bit(bits, i))
  {
    hide Bit;
    CountFull(bits, live);
    b := Literal(bits);
    if cnt == BLOCK_BITS {
      b := Ones;
    }
  }

  // ---- clusters ----

  ghost function Range(a: int, n: nat): (r: set<int>)
    ensures |r| == n && forall c :: c in r <==> a <= c < a + n
  {
    if n == 0 then {} else Range(a, n - 1) + {a + n - 1}
  }

  /** How many of the clusters a .. a + n - 1 are in s. */
  ghost function Overlap(s: set<int>, a: int, n: nat): nat {
    if n == 0 then 0 else Overlap(s, a, n - 1) + (if a + n - 1 in s then 1 else 0)
  }

  lemma {:induction false} OverlapCard(s: set<int>, a: int, n: nat)
    ensures Overlap(s, a, n) == |s * Range(a, n)|
  {
    hide Range;
    if n == 0 {
      assert s * Range(a, n) == {};
    } else {
      OverlapCard(s, a, n - 1);
      var rest := s * Range(a, n - 1);
      assert s * Range(a, n) == if a + n - 1 in s then rest + {a + n - 1} else rest;
    }
  }

  lemma {:induction false} OverlapAdd(s: set<int>, a: int, m: nat, n: nat)
    ensures Overlap(s, a, m + n) == Overlap(s, a, m) + Overlap(s, a + m, n)
  {
    if n > 0 {
      OverlapAdd(s, a, m, n - 1);
      assert Overlap(s, a, m + n) == Overlap(s, a, m + n - 1) + (if a + m + n - 1 in s then 1 else 0);
    }
  }

  lemma {:induction false} OverlapNone(s: set<int>, a: int, n: nat)
    requires forall c :: c in s ==> !(a <= c < a + n)
    ensures Overlap(s, a, n) == 0
  {
    if n > 0 { OverlapNone(s, a, n - 1); }
  }

  /** The block shows the clusters of s from base on, below live. */
  ghost predicate Shows(b: Block, s: set<int>, base: int, live: nat)
    requires Sized(b) && live <= BLOCK_BITS
  {
    forall i :: 0 <= i < live ==> (Holds(b, i) <==> base + i in s)
  }

  lemma SetRanged(bits: seq<bv8>, r: seq<bv8>, rel: nat, i: nat, v: bool)
    requires |bits| == |r| == BUF_SIZE && rel + i < BLOCK_BITS && Ranged(Literal(bits), Literal(r), rel, i, v)
    ensures Ranged(Literal(bits), Literal(SetBit(r, rel + i, v)), rel, i + 1, v)
  {
    hide Bit, SetBit;
    var b := Literal(SetBit(r, rel + i, v));
    forall j | 0 <= j < BLOCK_BITS
      ensures Holds(b, j) <==> if rel <= j < rel + i + 1 then v else Holds(Literal(bits), j)
    {
      SetBitGet(r, rel + i, v, j);
      assert Holds(Literal(r), j) <==> Bit(r, j);
    }
  }

  /** Set n bits from rel on, counting the newly set and those that were set already. */
  method SetBits(bits: seq<bv8>, cnt: int, rel: nat, n: nat, ghost live: nat, ghost s: set<int>, ghost base: int)
    returns (r: seq<bv8>, c: int, dup: nat)
    requires |bits| == BUF_SIZE && rel + n <= live <= BLOCK_BITS && cnt == Count(bits, live)
    requires Shows(Literal(bits), s, base, live)
    ensures |r| == BUF_SIZE && c == Count(r, live)
    ensures Ranged(Literal(bits), Literal(r), rel, n, true)
    ensures dup == Overlap(s, base + rel, n)
  {
    hide Bit, SetBit;
    r, c, dup := bits, cnt, 0;
    for i := 0 to n
      invariant |r| == BUF_SIZE && c == Count(r, live)
      invariant Ranged(Literal(bits), Literal(r), rel, i, true)
      invariant dup == Overlap(s, base + rel, i)
    {
      var (was, next) := GetAndSet(r, rel + i, true);
      CountSet(r, rel + i, true, live);
      assert was == Holds(Literal(bits), rel + i);
      SetRanged(bits, r, rel, i, true);
      r := next;
      if !was {
        c := c + 1;
      } else {
        dup := dup + 1;
      }
    }
  }

  /** Clear n bits from rel on. */
  method ClearBits(bits: seq<bv8>, cnt: int, rel: nat, n: nat, ghost live: nat) returns (r: seq<bv8>, c: int)
    requires |bits| == BUF_SIZE && rel + n <= live <= BLOCK_BITS && cnt == Count(bits, live)
    ensures |r| == BUF_SIZE && c == Count(r, live)
    ensures Ranged(Literal(bits), Literal(r), rel, n, false)
  {
    hide Bit, SetBit;
    r, c := bits, cnt;
    for i := 0 to n
      invariant |r| == BUF_SIZE && c == Count(r, live)
      invariant Ranged(Literal(bits), Literal(r), rel, i, false)
    {
      var (was, next) := GetAndSet(r, rel + i, false);
      CountSet(r, rel + i, false, live);
      SetRanged(bits, r, rel, i, false);
      r := next;
      if was {
        c := c - 1;
      }
    }
  }

  lemma FilledBit(bits: seq<bv8>, r: seq<bv8>, used: nat, i: nat)
    requires |bits| == |r| == BUF_SIZE && used < BLOCK_BITS && i < BLOCK_BITS
    requires forall k :: 0 <= k < used / 8 ==> r[k] == bits[k]
    requires r[used / 8] == bits[used / 8] | HighMask(used % 8)
    requires forall k :: used / 8 < k < BUF_SIZE ==> r[k] == 0xff
    ensures Bit(r, i) <==> i >= used || Bit(bits, i)
  {
    if i / 8 == used / 8 {
      hide ByteBit, HighMask;
      HighBits(bits[used / 8], used % 8, i % 8);
    }
  }

  /** ntfs_fsck_fill_unused_lcnbmp: every bit from used on is set, the others kept. */
  method FillUnused(bits: seq<bv8>, used: nat) returns (r: seq<bv8>)
    requires |bits| == BUF_SIZE && used < BLOCK_BITS
    ensures |r| == BUF_SIZE
    ensures forall i :: 0 <= i < BLOCK_BITS ==> (Bit(r, i) <==> i >= used || Bit(bits, i))
  {
    var byteOffset := used / 8;
    r := bits;
    if byteOffset + 1 < BUF_SIZE {
      r := bits[..byteOffset + 1] + Filled(0xff)[byteOffset + 1..];
    }
    var last := used - byteOffset * 8;
    r := r[byteOffset := r[byteOffset] | HighMask(last)];
    forall i | 0 <= i < BLOCK_BITS ensures Bit(r, i) <==> i >= used || Bit(bits, i) {
      FilledBit(bits, r, used, i);
    }
  }
}

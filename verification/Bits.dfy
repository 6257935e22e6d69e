/** Bit fields in bytes: ntfs_bit_get, ntfs_bit_set, ntfs_bit_get_and_set. */
module Bits {

  /** 1 << k */
  function Mask(k: nat): bv8
    requires k < 8
  {
    if k == 0 then 0x01 else if k == 1 then 0x02 else if k == 2 then 0x04 else if k == 3 then 0x08
    else if k == 4 then 0x10 else if k == 5 then 0x20 else if k == 6 then 0x40 else 0x80
  }

  predicate ByteBit(b: bv8, k: nat)
    requires k < 8
  {
    b & Mask(k) != 0
  }

  /** ntfs_bit_get shifts the byte down to the bit. */
  lemma BitIsShift(b: bv8, k: nat)
    requires k < 8
    ensures ByteBit(b, k) <==> (b >> k) & 1 == 1
    ensures Mask(k) == 1 << k
  {
    if k == 0 {
    } else if k == 1 {
    } else if k == 2 {
    } else if k == 3 {
    } else if k == 4 {
    } else if k == 5 {
    } else if k == 6 {
    } else {
      assert k == 7;
    }
  }

  /** Bit k of a byte counts for the k-th power of two. */
  lemma ByteIs(b: bv8)
    ensures b as int == (if ByteBit(b, 0) then 1 else 0) + (if ByteBit(b, 1) then 2 else 0)
                        + (if ByteBit(b, 2) then 4 else 0) + (if ByteBit(b, 3) then 8 else 0)
                        + (if ByteBit(b, 4) then 16 else 0) + (if ByteBit(b, 5) then 32 else 0)
                        + (if ByteBit(b, 6) then 64 else 0) + (if ByteBit(b, 7) then 128 else 0)
  {
  }

  function ByteSet(b: bv8, k: nat, v: bool): bv8
    requires k < 8
  {
    if v then b | Mask(k) else b & !Mask(k)
  }

  lemma ByteSetBit(b: bv8, k: nat, v: bool, j: nat)
    requires k < 8 && j < 8
    ensures ByteBit(ByteSet(b, k, v), j) <==> if j == k then v else ByteBit(b, j)
  {
  }

  /** Flipping a bit that differs from v sets it to v. */
  lemma ByteFlip(b: bv8, k: nat, v: bool)
    requires k < 8
    ensures (if v != ByteBit(b, k) then b ^ Mask(k) else b) == ByteSet(b, k, v)
  {
  }

  /** 0xff << k, in a byte */
  function HighMask(k: nat): bv8
    requires k < 8
  {
    if k == 0 then 0xff else if k == 1 then 0xfe else if k == 2 then 0xfc else if k == 3 then 0xf8
    else if k == 4 then 0xf0 else if k == 5 then 0xe0 else if k == 6 then 0xc0 else 0x80
  }

  lemma HighBits(b: bv8, k: nat, j: nat)
    requires k < 8 && j < 8
    ensures ByteBit(b | HighMask(k), j) <==> j >= k || ByteBit(b, j)
  {
  }

  lemma ByteOr(a: bv8, b: bv8, j: nat)
    requires j < 8
    ensures ByteBit(a | b, j) <==> ByteBit(a, j) || ByteBit(b, j)
  {
  }

  /** ntfs_bit_get: bit i of the field. */
  predicate Bit(bits: seq<bv8>, i: nat)
    requires i / 8 < |bits|
  {
    ByteBit(bits[i / 8], i % 8)
  }

  function SetBit(bits: seq<bv8>, i: nat, v: bool): (r: seq<bv8>)
    requires i / 8 < |bits|
    ensures |r| == |bits|
  {
    bits[i / 8 := ByteSet(bits[i / 8], i % 8, v)]
  }

  /** Setting bit i gives it the new value and touches no other bit. */
  lemma SetBitGet(bits: seq<bv8>, i: nat, v: bool, j: nat)
    requires i / 8 < |bits| && j / 8 < |bits|
    ensures Bit(SetBit(bits, i, v), j) <==> if j == i then v else Bit(bits, j)
  {
    hide ByteBit, ByteSet;
    if i / 8 == j / 8 {
      ByteSetBit(bits[i / 8], i % 8, v, j % 8);
    }
  }

  /** ntfs_bit_get_and_set on a field held by value: the former bit and the new field. */
  function GetAndSet(bits: seq<bv8>, i: nat, v: bool): (r: (bool, seq<bv8>))
    requires i / 8 < |bits|
    ensures r.0 == Bit(bits, i) && r.1 == SetBit(bits, i, v)
  {
    var was := ByteBit(bits[i / 8], i % 8);
    ByteFlip(bits[i / 8], i % 8, v);
    (was, if v != was then bits[i / 8 := bits[i / 8] ^ Mask(i % 8)] else bits)
  }

  /** Number of set bits among the first n. */
  ghost function Count(bits: seq<bv8>, n: nat): (c: nat)
    requires n <= 8 * |bits|
    ensures c <= n
  {
    if n == 0 then 0 else Count(bits, n - 1) + (if Bit(bits, n - 1) then 1 else 0)
  }

  lemma {:induction false} CountSet(bits: seq<bv8>, i: nat, v: bool, n: nat)
    requires i / 8 < |bits| && n <= 8 * |bits|
    ensures Count(SetBit(bits, i, v), n)
            == Count(bits, n) + (if i < n && v && !Bit(bits, i) then 1 else if i < n && !v
                                 && Bit(bits, i) then -1 else 0)
  {
    hide Bit, SetBit;
    if n > 0 {
      CountSet(bits, i, v, n - 1);
      SetBitGet(bits, i, v, n - 1);
    }
  }

  lemma {:induction false} CountFull(bits: seq<bv8>, n: nat)
    requires n <= 8 * |bits|
    ensures Count(bits, n) == n <==> forall i :: 0 <= i < n ==> Bit(bits, i)
  {
    hide Bit;
    if n > 0 {
      CountFull(bits, n - 1);
    }
  }

  lemma {:induction false} CountSame(a: seq<bv8>, b: seq<bv8>, n: nat)
    requires n <= 8 * |a| && n <= 8 * |b| && forall i :: 0 <= i < n ==> (Bit(a, i) <==> Bit(b, i))
    ensures Count(a, n) == Count(b, n)
  {
    hide Bit;
    if n > 0 { CountSame(a, b, n - 1); }
  }
}

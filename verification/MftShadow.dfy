/** The fsck MFT bitmap (libntfs/fsck.c) and the bitmap updates mirrored into it (libntfs/bitmap.c). */
module MftShadow {
  import opened Bits
  import opened ShadowBlock
  import opened BitmapRun

  class MftBitmap {
    var blocks: seq<Block>

    ghost predicate Valid()
      reads this
    {
      forall k :: 0 <= k < |blocks| ==> Sized(blocks[k])
    }

    /** The records the bitmap can hold. */
    function Capacity(): nat
      reads this
    {
      |blocks| * BLOCK_BITS
    }

    constructor (max: nat)
      ensures Valid() && Capacity() == max * BLOCK_BITS
      ensures forall m :: 0 <= m ==> !Marked(m)
    {
      blocks := seq(max, k => Free);
    }

    /** ntfs_fsck_mftbmp_get: a record outside the bitmap reads as unused. */
    predicate Marked(m: nat)
      requires Valid()
      reads this
    {
      m / BLOCK_BITS < |blocks| && Holds(blocks[m / BLOCK_BITS], m % BLOCK_BITS)
    }

    /** ntfs_fsck_set_mftbmp_value: refused exactly outside the bitmap, and no other record changes. */
    method SetValue(m: nat, v: bool) returns (ok: bool)
      requires Valid()
      modifies this
      ensures Valid() && |blocks| == old(|blocks|) && (ok <==> m < Capacity())
      ensures forall j :: 0 <= j ==> (Marked(j) <==> if j == m && ok then v else old(Marked(j)))
    {
      hide Bit, SetBit;
      var k := m / BLOCK_BITS;
      if k >= |blocks| {
        return false;
      }
      var bits := Materialized(blocks[k]);
      var diff := m - k * BLOCK_BITS;
      ghost var before := blocks;
      blocks := blocks[k := Literal(SetBit(bits, diff, v))];
      forall j | 0 <= j ensures Marked(j) <==> if j == m then v else old(Marked(j)) {
        if j / BLOCK_BITS == k {
          SetBitGet(bits, diff, v, j % BLOCK_BITS);
          assert Bit(bits, j % BLOCK_BITS) <==> Holds(before[k], j % BLOCK_BITS);
        }
      }
      ok := true;
    }

    /** ntfs_bitmap_mirror_fsck_mftbmp */
    method Mirror(s: nat, n: nat, v: bool)
      requires Valid()
      modifies this
      ensures Valid() && |blocks| == old(|blocks|)
      ensures forall j :: 0 <= j < Capacity() ==> (Marked(j) <==> Want(old(Marked(j)), j, s, n, v))
    {
      hide Holds;
      for i := 0 to n
        invariant Valid() && |blocks| == old(|blocks|)
        invariant forall j :: 0 <= j < Capacity() ==> (Marked(j) <==> Want(old(Marked(j)), j, s, i, v))
      {
        var _ := SetValue(s + i, v);
      }
    }
  }

  /** The on-disk bitmap and its shadow show the same records, as far as both reach. */
  ghost predicate Agree(data: seq<bv8>, shadow: MftBitmap)
    requires shadow.Valid()
    reads shadow
  {
    forall j :: 0 <= j < 8 * |data| && j < shadow.Capacity() ==> (Bit(data, j) <==> shadow.Marked(j))
  }

  /**
   * ntfs_bitmap_set_run and ntfs_bitmap_clear_run. The shadow is null unless the attribute is the
   * MFT bitmap of a volume under check; then both show the same records after every update.
   */
  method SetRun(na: array<bv8>, shadow: MftBitmap?, s: int, n: int, v: bool) returns (ok: bool)
    requires s + n <= 8 * na.Length && (shadow != null ==> shadow.Valid())
    modifies na, shadow
    ensures ok <==> 0 <= s && 0 <= n
    ensures ok ==> BitsSet(old(na[..]), na[..], s, n, v)
    ensures !ok ==> na[..] == old(na[..])
    ensures shadow != null ==> shadow.Valid() && shadow.Capacity() == old(shadow.Capacity())
    ensures shadow != null ==> forall j :: 0 <= j < shadow.Capacity() ==>
              (shadow.Marked(j) <==> if ok then Want(old(shadow.Marked(j)), j, s, n, v) else old(shadow.Marked(j)))
    ensures shadow != null && old(Agree(na[..], shadow)) ==> Agree(na[..], shadow)
  {
    hide Bit, Holds;
    ghost var was := na[..];
    ok := SetBitsInRun(na, s, n, v);
    if ok && shadow != null {
      shadow.Mirror(s, n, v);
      if old(Agree(na[..], shadow)) {
        forall j | 0 <= j < 8 * na.Length && j < shadow.Capacity() ensures Bit(na[..], j) <==> shadow.Marked(j) {
          assert Bit(was, j) <==> old(shadow.Marked(j));
          assert Bit(na[..], j) <==> Want(Bit(was, j), j, s, n, v);
        }
      }
    }
  }
}

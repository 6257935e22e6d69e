/**
 * Multi sector transfer protection (libntfs/mst.c). A record is a sequence of 16-bit words:
 * words 0 and 1 are its magic, word 2 the offset of the update sequence array in bytes,
 * word 3 the number of its entries. A sector is 256 words.
 */
module MstFixup {
  import opened Bytes
  import opened Slices

  const SECTOR: nat := 256

  type Record = seq<word>

  predicate ValidRecord(size: nat, ofs: word, count: word) {
    && size % 512 == 0
    && ofs % 2 == 0
    && count == 1 + size / 512
    && ofs + count * 2 <= 510
  }

  predicate Baad(w: Record)
    requires |w| >= 2
  {
    w[0] == 0x4142 && w[1] == 0x4441
  }

  predicate Hole(w: Record)
    requires |w| >= 2
  {
    w[0] == 0x4f48 && w[1] == 0x454c
  }

  function MarkBaad(w: Record): (r: Record)
    requires |w| >= 2
    ensures |r| == |w| && Baad(r)
  {
    w[0 := 0x4142][1 := 0x4441]
  }

  /** What ntfs_mst_pre_write_fixup accepts. */
  predicate Protectable(w: Record, size: nat)
    requires |w| >= SECTOR
  {
    !Baad(w) && !Hole(w) && ValidRecord(size, w[2], w[3])
  }

  /** The update sequence number after usn: cyclic, without 0 and 0xffff. */
  function NextUsn(usn: word): (r: word)
    ensures 1 <= r < 0xffff
  {
    var v := (usn + 1) % 65536;
    if v == 0xffff || v == 0 then 1 else v
  }

  /** Whether word j is the last word of one of the first n sectors. */
  predicate Tail(j: nat, n: nat) {
    j % SECTOR == SECTOR - 1 && j / SECTOR < n
  }

  /** The record with its first n sectors protected: their last words saved after word u and replaced by usn. */
  function Stamp(w: Record, n: nat, u: nat, usn: word): (r: Record)
    requires n * SECTOR <= |w| && u + n < SECTOR - 1 && SECTOR <= |w|
    ensures |r| == |w|
  {
    seq(|w|, j requires 0 <= j < |w| =>
      if Tail(j, n) || j == u then usn
      else if u < j <= u + n then w[SECTOR * (j - u - 1) + SECTOR - 1]
      else w[j])
  }

  /** The record with the saved words put back at the end of its first n sectors. */
  function Restore(w: Record, n: nat, u: nat): (r: Record)
    requires n * SECTOR <= |w| && u + n < SECTOR - 1 && SECTOR <= |w|
    ensures |r| == |w|
  {
    seq(|w|, j requires 0 <= j < |w| => if Tail(j, n) then w[u + 1 + j / SECTOR] else w[j])
  }

  /** Every sector ends with the update sequence number. */
  ghost predicate Whole(w: Record, n: nat, u: nat)
    requires n * SECTOR <= |w| && u + n < SECTOR - 1 && SECTOR <= |w|
  {
    forall i :: 0 <= i < n ==> w[SECTOR * i + SECTOR - 1] == w[u]
  }

  lemma StampNext(w: Record, i: nat, u: nat, usn: word)
    requires (i + 1) * SECTOR <= |w| && u + i + 1 < SECTOR - 1
    ensures var s := Stamp(w, i, u, usn); var d := SECTOR * i + SECTOR - 1;
            Stamp(w, i + 1, u, usn) == s[u + 1 + i := s[d]][d := usn]
  {
    var s := Stamp(w, i, u, usn);
    var d := SECTOR * i + SECTOR - 1;
    assert s[d] == w[d];
    var t := s[u + 1 + i := s[d]][d := usn];
    forall j | 0 <= j < |w| ensures Stamp(w, i + 1, u, usn)[j] == t[j] {
    }
  }

  lemma RestoreNext(w: Record, i: nat, u: nat)
    requires (i + 1) * SECTOR <= |w| && u + i + 1 < SECTOR - 1
    ensures var s := Restore(w, i, u);
            Restore(w, i + 1, u) == s[SECTOR * i + SECTOR - 1 := s[u + 1 + i]]
  {
    var s := Restore(w, i, u);
    assert s[u + 1 + i] == w[u + 1 + i];
    var t := s[SECTOR * i + SECTOR - 1 := s[u + 1 + i]];
    forall j | 0 <= j < |w| ensures Restore(w, i + 1, u)[j] == t[j] {
    }
  }

  lemma StampAt(w: Record, n: nat, u: nat, usn: word, j: nat)
    requires n * SECTOR <= |w| && u + n < SECTOR - 1 && SECTOR <= |w| && j < |w|
    ensures Tail(j, n) || j == u ==> Stamp(w, n, u, usn)[j] == usn
    ensures !Tail(j, n) && !(u <= j <= u + n) ==> Stamp(w, n, u, usn)[j] == w[j]
  {
  }

  lemma StampSaved(w: Record, n: nat, u: nat, usn: word, i: nat)
    requires n * SECTOR <= |w| && u + n < SECTOR - 1 && SECTOR <= |w| && i < n
    ensures Stamp(w, n, u, usn)[u + 1 + i] == w[SECTOR * i + SECTOR - 1]
    ensures Tail(SECTOR * i + SECTOR - 1, n) && !Tail(u + 1 + i, n) && !Tail(u, n)
  {
  }

  lemma RestoreAt(w: Record, n: nat, u: nat, j: nat)
    requires n * SECTOR <= |w| && u + n < SECTOR - 1 && SECTOR <= |w| && j < |w|
    ensures Restore(w, n, u)[j] == if Tail(j, n) then w[u + 1 + j / SECTOR] else w[j]
  {
  }

  lemma RestoredWord(w: Record, n: nat, u: nat, usn: word, j: nat)
    requires n * SECTOR <= |w| && u + n < SECTOR - 1 && SECTOR <= |w| && j < |w| && !(u <= j <= u + n)
    ensures Restore(Stamp(w, n, u, usn), n, u)[j] == w[j]
  {
    hide Stamp, Restore;
    RestoreAt(Stamp(w, n, u, usn), n, u, j);
    if Tail(j, n) {
      StampSaved(w, n, u, usn, j / SECTOR);
    } else {
      StampAt(w, n, u, usn, j);
    }
  }

  /** Deprotecting a protected record gives every word back, the update sequence array apart. */
  lemma StampRestore(w: Record, n: nat, u: nat, usn: word)
    requires n * SECTOR <= |w| && u + n < SECTOR - 1 && SECTOR <= |w|
    ensures var r := Restore(Stamp(w, n, u, usn), n, u);
            && (forall j :: 0 <= j < |w| && !(u <= j <= u + n) ==> r[j] == w[j])
            && r[u] == usn
            && (forall i :: 0 <= i < n ==> r[u + 1 + i] == w[SECTOR * i + SECTOR - 1])
    ensures Whole(Stamp(w, n, u, usn), n, u)
  {
    var s := Stamp(w, n, u, usn);
    var r := Restore(s, n, u);
    forall j | 0 <= j < |w| && !(u <= j <= u + n) ensures r[j] == w[j] {
      RestoredWord(w, n, u, usn, j);
    }
    hide Stamp, Restore;
    StampAt(w, n, u, usn, u);
    RestoreAt(s, n, u, u);
    forall i | 0 <= i < n
      ensures s[SECTOR * i + SECTOR - 1] == s[u] && r[u + 1 + i] == w[SECTOR * i + SECTOR - 1]
    {
      StampSaved(w, n, u, usn, i);
      StampAt(w, n, u, usn, SECTOR * i + SECTOR - 1);
      RestoreAt(s, n, u, u + 1 + i);
    }
  }

  // ---- the fixups in place, on the record of len words at position at of a buffer ----

  lemma PatchAt(b: seq<word>, at: nat, w: Record, k: nat, v: word)
    requires at + |w| <= |b| && k < |w|
    ensures Patch(b, at, w)[at + k] == w[k]
    ensures Patch(b, at, w)[at + k := v] == Patch(b, at, w[k := v])
  {
  }

  lemma PatchSelf(b: seq<word>, at: nat, len: nat)
    requires at + len <= |b|
    ensures Patch(b, at, b[at..at + len]) == b
  {
  }

  lemma RestoreNone(w: Record, u: nat)
    requires u < SECTOR - 1 && SECTOR <= |w|
    ensures Restore(w, 0, u) == w
  {
  }

  /** Put the saved words back at the end of the sectors; also ntfs_mst_post_write_fixup, which does no more. */
  method Deprotect(b: array<word>, at: nat, ghost len: nat, ofs: word, count: word, ghost n: nat)
    requires at + len <= b.Length && count == n + 1 && ofs / 2 + n < SECTOR - 1
    requires n * SECTOR <= len && SECTOR <= len
    modifies b
    ensures b[..] == Patch(old(b[..]), at, Restore(old(b[at..at + len]), n, ofs / 2))
  {
    hide Restore, Patch;
    ghost var was, w, u := b[..], b[at..at + len], ofs / 2;
    var usaPos, dataPos := at + ofs / 2, at + SECTOR - 1;
    var c := count - 1;
    ghost var i: nat := 0;
    RestoreNone(w, u);
    PatchSelf(was, at, len);
    assert was[at..at + len] == w;
    while c != 0
      invariant 0 <= c && i + c == n && usaPos == at + u + i && dataPos == at + SECTOR * i + SECTOR - 1
      invariant b[..] == Patch(was, at, Restore(w, i, u))
    {
      RestoreNext(w, i, u);
      ghost var r := Restore(w, i, u);
      PatchAt(was, at, r, u + 1 + i, 0);
      PatchAt(was, at, r, SECTOR * i + SECTOR - 1, r[u + 1 + i]);
      usaPos := usaPos + 1;
      b[dataPos] := b[usaPos];
      dataPos := dataPos + SECTOR;
      i := i + 1;
      c := c - 1;
    }
  }

  lemma StampNone(w: Record, u: nat, usn: word)
    requires u < SECTOR - 1 && SECTOR <= |w|
    ensures Stamp(w, 0, u, usn) == w[u := usn]
  {
  }

  /** Save the last word of each sector and replace it by usn. */
  method Protect(b: array<word>, at: nat, ghost len: nat, ofs: word, count: word, usn: word, ghost n: nat)
    requires at + len <= b.Length && count == n + 1 && ofs / 2 + n < SECTOR - 1
    requires n * SECTOR <= len && SECTOR <= len
    modifies b
    ensures b[..] == Patch(old(b[..]), at, Stamp(old(b[at..at + len]), n, ofs / 2, usn))
  {
    hide Stamp, Patch;
    ghost var was, w, u := b[..], b[at..at + len], ofs / 2;
    var usaPos, dataPos := at + ofs / 2, at + SECTOR - 1;
    PatchSelf(was, at, len);
    assert was[at..at + len] == w;
    PatchAt(was, at, w, u, usn);
    StampNone(w, u, usn);
    b[usaPos] := usn;
    var c := count - 1;
    ghost var i: nat := 0;
    while c != 0
      invariant 0 <= c && i + c == n && usaPos == at + u + i && dataPos == at + SECTOR * i + SECTOR - 1
      invariant b[..] == Patch(was, at, Stamp(w, i, u, usn))
    {
      StampNext(w, i, u, usn);
      ghost var r, d := Stamp(w, i, u, usn), SECTOR * i + SECTOR - 1;
      PatchAt(was, at, r, d, 0);
      PatchAt(was, at, r, u + 1 + i, r[d]);
      PatchAt(was, at, r[u + 1 + i := r[d]], d, usn);
      usaPos := usaPos + 1;
      b[usaPos] := b[dataPos];
      b[dataPos] := usn;
      dataPos := dataPos + SECTOR;
      i := i + 1;
      c := c - 1;
    }
  }

  /** A buffer large enough for a record of size bytes and its first sector. */
  predicate Fits(len: nat, size: nat) {
    SECTOR <= len && size <= 2 * len
  }

  /** The record as ntfs_mst_pre_write_fixup leaves it. */
  ghost function Protected(w: Record, size: nat): (r: Record)
    requires Fits(|w|, size)
    ensures |r| == |w|
  {
    if Protectable(w, size) then Stamp(w, size / 512, w[2] / 2, NextUsn(w[w[2] / 2])) else w
  }

  datatype Fixup = Fine | Invalid | Torn

  /** Outcome of ntfs_mst_post_read_fixup. */
  ghost function Verdict(w: Record, size: nat): Fixup
    requires Fits(|w|, size)
  {
    if !ValidRecord(size, w[2], w[3]) then Invalid
    else if Whole(w, size / 512, w[2] / 2) then Fine
    else Torn
  }

  /** The record as ntfs_mst_post_read_fixup leaves it. */
  ghost function Deprotected(w: Record, size: nat): (r: Record)
    requires Fits(|w|, size)
    ensures |r| == |w|
  {
    if Verdict(w, size).Fine? then Restore(w, size / 512, w[2] / 2) else MarkBaad(w)
  }

  /** ntfs_mst_pre_write_fixup */
  method PreWrite(b: array<word>, at: nat, ghost len: nat, size: nat) returns (ok: bool)
    requires at + len <= b.Length && Fits(len, size)
    modifies b
    ensures ok <==> Protectable(old(b[at..at + len]), size)
    ensures b[..] == Patch(old(b[..]), at, Protected(old(b[at..at + len]), size))
  {
    hide Stamp, Patch;
    ghost var w := b[at..at + len];
    PatchSelf(b[..], at, len);
    assert b[..][at..at + len] == w && w[0] == b[at] && w[1] == b[at + 1];
    if (b[at] == 0x4142 && b[at + 1] == 0x4441) || (b[at] == 0x4f48 && b[at + 1] == 0x454c) {
      return false;
    }
    var ofs, count := b[at + 2], b[at + 3];
    assert w[2] == ofs && w[3] == count;
    if !ValidRecord(size, ofs, count) {
      return false;
    }
    assert w[ofs / 2] == b[at + ofs / 2];
    var usn: int := b[at + ofs / 2];
    usn := (usn + 1) % 65536;
    if usn == 0xffff || usn == 0 {
      usn := 1;
    }
    Protect(b, at, len, ofs, count, usn, size / 512);
    ok := true;
  }

  /** ntfs_mst_post_write_fixup on a record whose header describes its update sequence array. */
  method PostWrite(b: array<word>, at: nat, ghost len: nat, ghost size: nat)
    requires at + len <= b.Length && Fits(len, size)
    requires ValidRecord(size, b[at + 2], b[at + 3])
    modifies b
    ensures b[..] == Patch(old(b[..]), at, Restore(old(b[at..at + len]), size / 512, old(b[at + 2]) / 2))
  {
    Deprotect(b, at, len, b[at + 2], b[at + 3], size / 512);
  }

  /** The check for an incomplete transfer. */
  method IsWhole(b: array<word>, at: nat, ghost len: nat, ofs: word, count: word, ghost n: nat) returns (ok: bool)
    requires at + len <= b.Length && count == n + 1 && ofs / 2 + n < SECTOR - 1
    requires n * SECTOR <= len && SECTOR <= len
    ensures ok <==> Whole(b[at..at + len], n, ofs / 2)
  {
    ghost var w := b[at..at + len];
    var usn := b[at + ofs / 2];
    var dataPos := at + SECTOR - 1;
    var c := count - 1;
    ghost var i: nat := 0;
    while c != 0
      invariant 0 <= c && i + c == n && dataPos == at + SECTOR * i + SECTOR - 1
      invariant forall k :: 0 <= k < i ==> w[SECTOR * k + SECTOR - 1] == usn
    {
      if b[dataPos] != usn {
        assert w[SECTOR * i + SECTOR - 1] != w[ofs / 2];
        return false;
      }
      assert w[SECTOR * i + SECTOR - 1] == usn;
      dataPos := dataPos + SECTOR;
      i := i + 1;
      c := c - 1;
    }
    ok := true;
  }

  /** ntfs_mst_post_read_fixup */
  method PostRead(b: array<word>, at: nat, ghost len: nat, size: nat) returns (f: Fixup)
    requires at + len <= b.Length && Fits(len, size)
    modifies b
    ensures f == Verdict(old(b[at..at + len]), size)
    ensures b[..] == Patch(old(b[..]), at, Deprotected(old(b[at..at + len]), size))
  {
    hide Restore, Patch, Whole;
    ghost var was, w := b[..], b[at..at + len];
    PatchSelf(b[..], at, len);
    assert b[..][at..at + len] == w;
    var ofs, count := b[at + 2], b[at + 3];
    assert w[2] == ofs && w[3] == count;
    PatchAt(was, at, w, 0, 0x4142);
    PatchAt(was, at, w[0 := 0x4142], 1, 0x4441);
    if !ValidRecord(size, ofs, count) {
      b[at], b[at + 1] := 0x4142, 0x4441;
      return Invalid;
    }
    var whole := IsWhole(b, at, len, ofs, count, size / 512);
    if !whole {
      b[at], b[at + 1] := 0x4142, 0x4441;
      return Torn;
    }
    Deprotect(b, at, len, ofs, count, size / 512);
    f := Fine;
  }

  /** A record whose update sequence array lies behind its header can be written, read back and deprotected. */
  lemma ProtectedReads(w: Record, size: nat)
    requires Fits(|w|, size) && Protectable(w, size) && w[2] >= 8
    ensures var p := Protected(w, size);
            && p[2] == w[2] && p[3] == w[3]
            && Verdict(p, size) == Fine
            && Deprotected(p, size) == Restore(p, size / 512, w[2] / 2)
    ensures var r, u, n := Deprotected(Protected(w, size), size), w[2] / 2, size / 512;
            && (forall j :: 0 <= j < |w| && !(u <= j <= u + n) ==> r[j] == w[j])
            && r[u] == NextUsn(w[u])
            && (forall i :: 0 <= i < n ==> r[u + 1 + i] == w[SECTOR * i + SECTOR - 1])
  {
    StampRestore(w, size / 512, w[2] / 2, NextUsn(w[w[2] / 2]));
    var p := Protected(w, size);
    assert p[2] == w[2] && p[3] == w[3];
    hide Stamp, Restore;
  }
}

/** Slices of sequences, and sequences with a part replaced. */
module Slices {

  function Min(a: int, b: int): int {
    if a < b then a else b
  }

  /** s with d stored at position a. */
  function Patch<T>(s: seq<T>, a: nat, d: seq<T>): (r: seq<T>)
    requires a + |d| <= |s|
    ensures |r| == |s|
  {
    s[..a] + d + s[a + |d|..]
  }

  lemma PatchTwice<T>(s: seq<T>, a: nat, x: seq<T>, y: seq<T>)
    requires a + |x| + |y| <= |s|
    ensures Patch(Patch(s, a, x), a + |x|, y) == Patch(s, a, x + y)
  {
  }

  /** Slices of a patched sequence: off the patch, and the patch itself. */
  lemma PatchedSlice<T>(s: seq<T>, a: nat, d: seq<T>, i: nat, j: nat)
    requires a + |d| <= |s| && i <= j <= |s|
    ensures j <= a || a + |d| <= i ==> Patch(s, a, d)[i..j] == s[i..j]
    ensures i == a && j == a + |d| ==> Patch(s, a, d)[i..j] == d
  {
  }

  /** Two neighbouring slices are one. */
  lemma Parted<T>(s: seq<T>, i: nat, j: nat, k: nat)
    requires i <= j <= k <= |s|
    ensures s[i..k] == s[i..j] + s[j..k]
  {
  }

  /** A slice of a slice. */
  lemma SliceSlice<T>(s: seq<T>, a: nat, len: nat, o: nat, count: nat)
    requires a + len <= |s| && o + count <= len
    ensures s[a..a + len][o..o + count] == s[a + o..a + o + count]
  {
    var l, r := s[a..a + len][o..o + count], s[a + o..a + o + count];
    forall i | 0 <= i < count ensures l[i] == r[i] {
      assert l[i] == s[a + o + i] == r[i];
    }
  }

  lemma Halves<T>(x: seq<T>, y: seq<T>)
    ensures (x + y)[0..|x|] == x && (x + y)[|x|..|x| + |y|] == y
  {
  }

  lemma FrontSlice<T>(x: seq<T>, y: seq<T>, i: nat, j: nat)
    requires i <= j <= |x|
    ensures (x + y)[i..j] == x[i..j]
  {
  }
}

/** Setting runs of bits in an on-disk bitmap through a bounded buffer (libntfs/bitmap.c). */
module BitmapRun {
  import opened Bits

  const WINDOW: nat := 8192

  /** The value bit j should have: v inside the run [s, s + n), unchanged outside. */
  predicate Want(was: bool, j: int, s: int, n: int, v: bool) {
    if s <= j < s + n then v else was
  }

  /** Byte k of the bitmap as the run leaves it. */
  ghost predicate Done(now: bv8, was: bv8, k: int, s: int, n: int, v: bool) {
    forall t :: 0 <= t < 8 ==> (ByteBit(now, t) <==> Want(ByteBit(was, t), 8 * k + t, s, n, v))
  }

  lemma DoneOutside(x: bv8, k: int, s: int, n: int, v: bool)
    requires 8 * k + 8 <= s || s + n <= 8 * k
    ensures Done(x, x, k, s, n, v)
  {
    hide ByteBit;
  }

  function Fill(v: bool): bv8 {
    if v then 0xff else 0
  }

  lemma DoneInside(was: bv8, k: int, s: int, n: int, v: bool)
    requires s <= 8 * k && 8 * k + 8 <= s + n
    ensures Done(Fill(v), was, k, s, n, v)
  {
  }

  /** Set the bits from bit b on, n at most; the count runs to -1 when it is used up inside the byte. */
  method FillHigh(x: bv8, b: nat, n: nat, v: bool) returns (y: bv8, left: int)
    requires 0 < b < 8
    ensures left == if n >= 8 - b then n - (8 - b) else -1
    ensures forall t :: 0 <= t < 8 ==> (ByteBit(y, t) <==> Want(ByteBit(x, t), t, b, n, v))
  {
    hide ByteBit, ByteSet;
    y, left := x, n;
    var bit := b;
    while bit % 8 != 0
      invariant b <= bit <= 8 && left == n - (bit - b) >= 0
      invariant forall t :: 0 <= t < 8 ==> (ByteBit(y, t) <==> Want(ByteBit(x, t), t, b, bit - b, v))
      decreases 8 - bit
    {
      var more := left != 0;
      left := left - 1;
      if !more {
        return;
      }
      forall t | 0 <= t < 8 ensures ByteBit(ByteSet(y, bit, v), t) <==> if t == bit then v else ByteBit(y, t) {
        ByteSetBit(y, bit, v, t);
      }
      y := ByteSet(y, bit, v);
      bit := bit + 1;
    }
  }

  /** Set the low bits below bit b. */
  method FillLow(x: bv8, b: nat, n: nat, v: bool) returns (y: bv8, left: nat)
    requires b < 8 && b <= n
    ensures left == n - b
    ensures forall t :: 0 <= t < 8 ==> (ByteBit(y, t) <==> Want(ByteBit(x, t), t, 0, b, v))
  {
    hide ByteBit, ByteSet;
    y, left := x, n;
    var bit := b;
    while bit != 0
      invariant 0 <= bit <= b && left == n - (b - bit)
      invariant forall t :: 0 <= t < 8 ==> (ByteBit(y, t) <==> Want(ByteBit(x, t), t, bit, b - bit, v))
      decreases bit
    {
      left := left - 1;
      bit := bit - 1;
      forall t | 0 <= t < 8 ensures ByteBit(ByteSet(y, bit, v), t) <==> if t == bit then v else ByteBit(y, t) {
        ByteSetBit(y, bit, v, t);
      }
      y := ByteSet(y, bit, v);
    }
  }

  /** The bytes below p are as the run leaves them, the others untouched. */
  ghost predicate Upto(data: seq<bv8>, was: seq<bv8>, p: int, s: int, n: int, v: bool) {
    && |data| == |was|
    && (forall k :: 0 <= k < |data| && k < p ==> Done(data[k], was[k], k, s, n, v))
    && (forall k :: 0 <= k < |data| && k >= p ==> data[k] == was[k])
  }

  /** The first size bytes of the buffer are bytes p .. p + size - 1 as the run leaves them. */
  ghost predicate Ready(buf: seq<bv8>, size: int, was: seq<bv8>, p: int, s: int, n: int, v: bool) {
    && 0 <= size <= |buf| && 0 <= p && p + size <= |was|
    && forall i :: 0 <= i < size ==> Done(buf[i], was[p + i], p + i, s, n, v)
  }

  method WriteWindow(na: array<bv8>, buf: array<bv8>, size: nat, p: nat, ghost was: seq<bv8>,
                     ghost s: int, ghost n: int, ghost v: bool)
    requires na != buf && Upto(na[..], was, p, s, n, v) && Ready(buf[..], size, was, p, s, n, v)
    modifies na
    ensures Upto(na[..], was, p + size, s, n, v)
  {
    hide Done;
    for i := 0 to size
      invariant Upto(na[..], was, p + i, s, n, v)
      invariant buf[..] == old(buf[..])
    {
      na[p + i] := buf[i];
      assert Done(buf[..][i], was[p + i], p + i, s, n, v);
    }
  }

  /**
   * The first size bytes of the buffer between windows: fill bytes, behind the partial first
   * byte while that is still to be written.
   */
  ghost predicate Prepared(buf: seq<bv8>, size: nat, first: nat, was: seq<bv8>, p: int, s: int, n: int, v: bool) {
    && 0 <= p <= |was| && size <= |buf|
    && (forall i :: first <= i < size ==> buf[i] == Fill(v))
    && (first > 0 ==> 0 < size && p < |was| && Done(buf[0], was[p], p, s, n, v))
  }

  lemma PreparedReady(buf: seq<bv8>, first: nat, size: nat, last: nat, was: seq<bv8>, p: int, s: int, n: int, v: bool)
    requires first <= 1 && last <= 1 && first + last <= size <= |buf| && 0 <= p && p + size <= |was|
    requires Prepared(buf, size - last, first, was, p, s, n, v)
    requires first + last < size ==> s <= 8 * (p + first) && 8 * (p + size - last) <= s + n
    requires last == 1 ==> Done(buf[size - 1], was[p + size - 1], p + size - 1, s, n, v)
    ensures Ready(buf, size, was, p, s, n, v)
  {
    hide Done, Fill;
    forall i | 0 <= i < size ensures Done(buf[i], was[p + i], p + i, s, n, v) {
      if first <= i < size - last {
        DoneInside(was[p + i], p + i, s, n, v);
      }
    }
  }

  lemma UptoStart(data: seq<bv8>, p: nat, s: int, n: int, v: bool)
    requires 8 * p <= s
    ensures Upto(data, data, p, s, n, v)
  {
    hide Done;
    forall k | 0 <= k < |data| && k < p ensures Done(data[k], data[k], k, s, n, v) {
      DoneOutside(data[k], k, s, n, v);
    }
  }

  /** Every bit has the value the run wants. */
  ghost predicate BitsSet(was: seq<bv8>, now: seq<bv8>, s: int, n: int, v: bool) {
    && |now| == |was|
    && forall j :: 0 <= j < 8 * |was| ==> (Bit(now, j) <==> Want(Bit(was, j), j, s, n, v))
  }

  lemma UptoEnd(data: seq<bv8>, was: seq<bv8>, p: int, s: int, n: int, v: bool)
    requires Upto(data, was, p, s, n, v) && s + n <= 8 * p
    ensures BitsSet(was, data, s, n, v)
  {
    hide ByteBit;
    forall j | 0 <= j < 8 * |was| ensures Bit(data, j) <==> Want(Bit(was, j), j, s, n, v) {
      var k := j / 8;
      if k >= p {
        DoneOutside(was[k], k, s, n, v);
      }
      assert Done(data[k], was[k], k, s, n, v);
      assert 8 * k + j % 8 == j;
    }
  }

  /** The partial first byte of the run, as the run leaves it. */
  method FirstByte(na: array<bv8>, buf: array<bv8>, s: nat, n: nat, v: bool) returns (left: int)
    requires na != buf && s % 8 != 0 && s + n <= 8 * na.Length && buf.Length > 0
    modifies buf
    ensures buf[1..] == old(buf[1..]) && Done(buf[0], na[s / 8], s / 8, s, n, v)
    ensures left == if n >= 8 - s % 8 then n - (8 - s % 8) else -1
  {
    hide ByteBit;
    buf[0] := na[s / 8];
    var y: bv8;
    y, left := FillHigh(buf[0], s % 8, n, v);
    buf[0] := y;
    forall t | 0 <= t < 8 ensures ByteBit(y, t) <==> Want(ByteBit(na[s / 8], t), 8 * (s / 8) + t, s, n, v) {
      assert 8 * (s / 8) + s % 8 == s;
    }
  }

  /** The partial last byte of the run, stored at position at of the buffer. */
  method LastByte(na: array<bv8>, buf: array<bv8>, at: nat, start: nat, count: nat, v: bool, ghost s: nat, ghost n: nat)
    returns (left: nat)
    requires na != buf && at < buf.Length && start % 8 == 0 && s <= start && start + count == s + n
    requires count % 8 != 0 && (start + count) / 8 < na.Length
    modifies buf
    ensures left == count - count % 8
    ensures buf[..] == old(buf[..])[at := buf[at]]
    ensures Done(buf[at], na[(start + count) / 8], (start + count) / 8, s, n, v)
  {
    hide ByteBit;
    var k := (start + count) / 8;
    buf[at] := na[k];
    var y: bv8;
    y, left := FillLow(buf[at], count % 8, count, v);
    buf[at] := y;
    assert 8 * k + count % 8 == s + n && s <= 8 * k;
  }

  /** Position, count left, buffer size and bits of the last byte before a window is written. */
  ghost predicate AtWindow(start: int, count: int, size: int, first: int, bit: int, s: int, n: int, len: nat) {
    && 0 <= first <= 1 && start % 8 == 0 && 0 <= s && 0 <= n && s + n <= 8 * len && 0 <= size
    && (first == 1 ==> start - 8 < s < start <= 8 * len) && (first == 0 ==> s <= start)
    && (count < 0 ==> count == -1 && first == 1 && size == 1 && s + n <= start)
    && (count >= 0 ==>
          && count == s + n - start && (count > 0 ==> bit == count % 8)
          && size == (if (count + 7) / 8 + first > WINDOW then WINDOW else (count + 7) / 8 + first))
  }

  /** What of the window is full bytes, given whether the partial last byte is in it. */
  lemma WindowShape(start: int, count: int, size: int, first: nat, bit: int, last: nat, s: int, n: int, len: nat)
    requires AtWindow(start, count, size, first, bit, s, n, len)
    requires last == if count > 0 && bit != 0 && (count + 7) / 8 + first <= size then 1 else 0
    ensures first <= 1 && first + last <= size && 0 <= start / 8 - first && start / 8 - first + size <= len
    ensures var p := start / 8 - first;
            first + last < size ==> s <= 8 * (p + first) && 8 * (p + size - last) <= s + n
    ensures var left := (if last == 1 then count - count % 8 else count) - 8 * (size - first - last);
            && (last == 1 ==> left == 0 && 0 < size && start / 8 - first + size - 1 == (start + count) / 8)
            && (left > 0 ==> left < count && AtWindow(start + 8 * (size - first - last), left,
                               if size > (left + 7) / 8 then (left + 7) / 8 else size, 0, bit, s, n, len))
            && (left > 0 ==> last == 0 && (start + 8 * (size - first - last)) / 8 == start / 8 - first + size
                             && (left + 7) / 8 >= 0)
            && (left <= 0 ==> s + n <= 8 * (start / 8 - first + size))
  {
  }

  /** The partial last byte goes behind the prepared ones. */
  lemma LastStored(buf: seq<bv8>, b: bv8, size: nat, first: nat, was: seq<bv8>, p: int, s: int, n: int, v: bool)
    requires Prepared(buf, size, first, was, p, s, n, v) && first < size
    ensures Prepared(buf[size - 1 := b], size - 1, first, was, p, s, n, v)
  {
    hide Done;
  }

  /** The buffer made ready for the next window. */
  lemma Refilled(before: seq<bv8>, after: seq<bv8>, size: nat, less: nat, first: nat,
                 was: seq<bv8>, p: int, q: int, s: int, n: int, v: bool)
    requires Prepared(before, size, first, was, p, s, n, v) && less <= size && first <= 1 && 0 <= q <= |was|
    requires first > 0 ==> |before| > 0 && after == before[0 := Fill(v)]
    requires first == 0 ==> after == before
    ensures Prepared(after, less, 0, was, q, s, n, v)
  {
  }

  lemma UptoSame(data: seq<bv8>, was: seq<bv8>, p: int, s: int, n: int, v: bool, k: nat)
    requires Upto(data, was, p, s, n, v) && p <= k < |was|
    ensures |data| == |was| && data[k] == was[k]
  {
  }

  method StoreLast(na: array<bv8>, buf: array<bv8>, start: int, count: int, size: nat, first: nat, v: bool,
                   ghost bit: nat, ghost was: seq<bv8>, ghost s: int, ghost n: int)
    returns (left: nat)
    requires na != buf && |was| == na.Length && AtWindow(start, count, size, first, bit, s, n, na.Length)
    requires count > 0 && bit != 0 && (count + 7) / 8 + first <= size <= buf.Length
    requires start / 8 - first + size - 1 == (start + count) / 8 < na.Length
    requires Upto(na[..], was, start / 8 - first, s, n, v) && 0 <= start / 8 - first
    requires Prepared(buf[..], size, first, was, start / 8 - first, s, n, v)
    modifies buf
    ensures left == count - count % 8
    ensures Prepared(buf[..], size - 1, first, was, start / 8 - first, s, n, v)
    ensures var k := (start + count) / 8; Done(buf[size - 1], was[k], k, s, n, v)
  {
    hide Done, Upto, Prepared, Fill;
    ghost var before, p := buf[..], start / 8 - first;
    UptoSame(na[..], was, p, s, n, v, (start + count) / 8);
    left := LastByte(na, buf, size - 1, start, count, v, s, n);
    LastStored(before, buf[size - 1], size, first, was, p, s, n, v);
  }

  method OneWindow(na: array<bv8>, buf: array<bv8>, start: int, count: int, size: nat, first: nat, bit: nat, v: bool,
                   ghost was: seq<bv8>, ghost s: int, ghost n: int)
    returns (start': int, count': int, size': int)
    requires na != buf && |was| == na.Length && AtWindow(start, count, size, first, bit, s, n, na.Length)
    requires Upto(na[..], was, start / 8 - first, s, n, v)
    requires size <= buf.Length && Prepared(buf[..], size, first, was, start / 8 - first, s, n, v)
    modifies na, buf
    ensures count' > 0 ==> && count' < count && 0 <= size' <= buf.Length
                           && AtWindow(start', count', size', 0, bit, s, n, na.Length)
                           && Upto(na[..], was, start' / 8, s, n, v)
                           && Prepared(buf[..], size', 0, was, start' / 8, s, n, v)
    ensures count' <= 0 ==> BitsSet(was, na[..], s, n, v)
  {
    hide Done, Upto, Ready, Prepared, BitsSet, AtWindow, Fill;
    var last, c, p := 0, count, start / 8 - first;
    if count > 0 && bit != 0 {
      var pos := (count + 7) / 8 + first;
      assert pos != 0;
      if pos <= size {
        last := 1;
      }
    }
    WindowShape(start, count, size, first, bit, last, s, n, na.Length);
    if last == 1 {
      c := StoreLast(na, buf, start, count, size, first, v, bit, was, s, n);
    }
    PreparedReady(buf[..], first, size, last, was, p, s, n, v);
    WriteWindow(na, buf, size, p, was, s, n, v);
    var tmp := (size - first - last) * 8;
    ghost var before := buf[..];
    if first > 0 {
      buf[0] := Fill(v);
    }
    start', count' := start + tmp, c - tmp;
    size' := size;
    if size' > (count' + 7) / 8 {
      size' := (count' + 7) / 8;
    }
    assert last == 1 ==> count' == 0;
    if count' <= 0 {
      UptoEnd(na[..], was, p + size, s, n, v);
    } else {
      Refilled(before, buf[..], size, size', first, was, p, start' / 8, s, n, v);
    }
  }

  lemma StartWindows(was: seq<bv8>, buf: seq<bv8>, size: nat, first: nat, start: int, count: int, bit: int,
                     s: nat, n: nat, v: bool)
    requires s + n <= 8 * |was| && first == (if s % 8 != 0 then 1 else 0) && start == (s + 7) / 8 * 8
    requires count == if n >= 8 * first - s % 8 then n - (8 * first - s % 8) else -1
    requires bit == count % 8 && size == |buf|
    requires var full := (n - (8 * first - s % 8) + 7) / 8 + first; size == if full > WINDOW then WINDOW else full
    requires forall i :: first <= i < size ==> buf[i] == Fill(v)
    requires first == 1 ==> 0 < size && Done(buf[0], was[s / 8], s / 8, s, n, v)
    ensures AtWindow(start, count, size, first, bit, s, n, |was|)
    ensures start / 8 - first == s / 8 && Upto(was, was, start / 8 - first, s, n, v)
    ensures Prepared(buf, size, first, was, start / 8 - first, s, n, v)
  {
    hide Done, Fill, Upto;
    UptoStart(was, s / 8, s, n, v);
  }

  /** ntfs_bitmap_set_bits_in_run */
  method SetBitsInRun(na: array<bv8>, s: int, n: int, v: bool) returns (ok: bool)
    requires s + n <= 8 * na.Length
    modifies na
    ensures ok <==> 0 <= s && 0 <= n
    ensures ok ==> BitsSet(old(na[..]), na[..], s, n, v)
    ensures !ok ==> na[..] == old(na[..])
  {
    hide Done, Upto, Ready, Prepared, BitsSet, AtWindow, Fill;
    if s < 0 || n < 0 {
      return false;
    }
    ghost var was := na[..];
    var bit := s % 8;
    var first := if bit != 0 then 1 else 0;
    var size := (n - (if bit != 0 then 8 - bit else 0) + 7) / 8 + first;
    if size > WINDOW {
      size := WINDOW;
    }
    var buf := new bv8[size](_ => Fill(v));
    var start, count := s, n;
    if bit != 0 {
      count := FirstByte(na, buf, s, n, v);
      start := (start + 7) / 8 * 8;
      assert forall i :: 1 <= i < size ==> buf[i] == buf[1..][i - 1];
    }
    bit := count % 8;
    StartWindows(was, buf[..], size, first, start, count, bit, s, n, v);
    start, count, size := OneWindow(na, buf, start, count, size, first, bit, v, was, s, n);
    while count > 0
      invariant fresh(buf)
      invariant count > 0 ==> && 0 <= size <= buf.Length && AtWindow(start, count, size, 0, bit, s, n, na.Length)
                              && Upto(na[..], was, start / 8, s, n, v)
                              && Prepared(buf[..], size, 0, was, start / 8, s, n, v)
      invariant count <= 0 ==> BitsSet(was, na[..], s, n, v)
      decreases count
    {
      start, count, size := OneWindow(na, buf, start, count, size, 0, bit, v, was, s, n);
    }
    ok := true;
  }
}

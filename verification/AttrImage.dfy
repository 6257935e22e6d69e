/** Resident attribute records as bytes: little endian header fields, name, value. */
module AttrImage {
  import opened Bytes
  import opened AttrOrder

  const AT_UNUSED: nat := 0
  const AT_FILE_NAME: nat := 0x30
  const AT_INDEX_ROOT: nat := 0x90
  const AT_END: nat := 0xffff_ffff
  const RESIDENT_END: nat := 24

  function Le16(s: seq<byte>, i: nat): (r: nat)
    requires i + 2 <= |s|
    ensures r < 65536
  {
    Word(s[i], s[i + 1])
  }

  function Le32(s: seq<byte>, i: nat): nat
    requires i + 4 <= |s|
  {
    Le16(s, i) + 65536 * Le16(s, i + 2)
  }

  function Enc16(x: nat): (r: seq<byte>)
    requires x < 65536
    ensures |r| == 2
  {
    [x % 256, x / 256]
  }

  function Enc32(x: nat): (r: seq<byte>)
    requires x < 0x1_0000_0000
    ensures |r| == 4
  {
    Enc16(x % 65536) + Enc16(x / 65536)
  }

  /** Encoded numbers read back. */
  lemma Enc16Back(x: nat)
    requires x < 65536
    ensures Le16(Enc16(x), 0) == x
  {
  }

  lemma LeSlice(s: seq<byte>, a: nat, n: nat, i: nat)
    requires a + n <= |s|
    ensures i + 2 <= n ==> Le16(s, a + i) == Le16(s[a..a + n], i)
    ensures i + 4 <= n ==> Le32(s, a + i) == Le32(s[a..a + n], i)
  {
  }

  lemma Enc32Back(x: nat)
    requires x < 0x1_0000_0000
    ensures Le32(Enc32(x), 0) == x
  {
    Enc16Back(x % 65536);
    Enc16Back(x / 65536);
    var r := Enc32(x);
    assert r[0..2] == Enc16(x % 65536) && r[2..4] == Enc16(x / 65536);
    LeSlice(r, 0, 2, 0);
    LeSlice(r, 2, 2, 0);
  }

  function Align8(n: nat): (r: nat)
    ensures n <= r < n + 8 && r % 8 == 0
  {
    (n + 7) / 8 * 8
  }

  function NameBytes(name: Name): (r: seq<byte>)
    ensures |r| == 2 * |name|
  {
    seq(2 * |name|, i requires 0 <= i < 2 * |name| => if i % 2 == 0 then name[i / 2] % 256 else name[i / 2] / 256)
  }

  function ReadName(s: seq<byte>, o: nat, n: nat): (r: Name)
    requires o + 2 * n <= |s|
    ensures |r| == n
  {
    seq(n, k requires 0 <= k < n => Le16(s, o + 2 * k))
  }

  /** A name written at o reads back. */
  lemma NameBack(s: seq<byte>, o: nat, name: Name)
    requires o + 2 * |name| <= |s| && s[o..o + 2 * |name|] == NameBytes(name)
    ensures ReadName(s, o, |name|) == name
  {
    forall k | 0 <= k < |name| ensures ReadName(s, o, |name|)[k] == name[k] {
      assert s[o + 2 * k] == NameBytes(name)[2 * k] == name[k] % 256;
      assert s[o + 2 * k + 1] == NameBytes(name)[2 * k + 1] == name[k] / 256;
    }
  }

  /** A resident attribute: its key, and the bytes it occupies in the record. */
  datatype Attr = Attr(kind: nat, name: Name, value: seq<byte>, image: seq<byte>)

  predicate HasName(image: seq<byte>, o: nat, name: Name) {
    o + 2 * |name| <= |image| && ReadName(image, o, |name|) == name
  }

  predicate HasValue(image: seq<byte>, o: nat, value: seq<byte>) {
    o + |value| <= |image| && image[o..o + |value|] == value
  }

  predicate WellFormed(a: Attr) {
    && RESIDENT_END <= |a.image| && |a.image| % 8 == 0
    && AT_UNUSED != a.kind < AT_END && Le32(a.image, 0) == a.kind && Le32(a.image, 4) == |a.image|
    && a.image[9] == |a.name| && HasName(a.image, Le16(a.image, 10), a.name)
    && Le32(a.image, 16) == |a.value| && HasValue(a.image, Le16(a.image, 20), a.value)
  }

  function HeaderFront(kind: nat, length: nat, nameLen: nat): (h: seq<byte>)
    requires kind < AT_END && length < 65536 && nameLen < 256
    ensures |h| == 12
  {
    Enc32(kind) + Enc32(length) + ([0, nameLen] + Enc16(if nameLen > 0 then RESIDENT_END else 0))
  }

  function HeaderBack(kind: nat, flags: word, instance: word, size: nat, valueOfs: nat): (h: seq<byte>)
    requires size < 65536 && valueOfs < 65536
    ensures |h| == 11
  {
    (Enc16(flags) + Enc16(instance)) + Enc32(size) + (Enc16(valueOfs) + [if kind == AT_FILE_NAME then 1 else 0])
  }

  /** The header of a new resident attribute, up to its resident flags. */
  function Header(kind: nat, length: nat, nameLen: nat, flags: word, instance: word, size: nat,
                  valueOfs: nat): (h: seq<byte>)
    requires kind < AT_END && length < 65536 && nameLen < 256 && size < 65536 && valueOfs < 65536
    ensures |h| == 23
  {
    HeaderFront(kind, length, nameLen) + HeaderBack(kind, flags, instance, size, valueOfs)
  }

  /** Resident, with its flags and its instance number, and indexed exactly if it is a file name. */
  predicate Labelled(image: seq<byte>, kind: nat, flags: word, instance: word) {
    && |image| >= 23 && image[8] == 0 && Le16(image, 12) == flags && Le16(image, 14) == instance
    && image[22] == if kind == AT_FILE_NAME then 1 else 0
  }

  lemma FrontFields(kind: nat, length: nat, nameLen: nat)
    requires kind < AT_END && length < 65536 && nameLen < 256
    ensures var h := HeaderFront(kind, length, nameLen);
            && h[8] == 0 && Le32(h, 0) == kind && Le32(h, 4) == length && h[9] == nameLen
            && Le16(h, 10) == if nameLen > 0 then RESIDENT_END else 0
  {
    var no := if nameLen > 0 then RESIDENT_END else 0;
    var h := HeaderFront(kind, length, nameLen);
    hide Enc16, Enc32, Le16, Le32;
    assert h[0..4] == Enc32(kind) && h[4..8] == Enc32(length) && h[10..12] == Enc16(no);
    LeSlice(h, 0, 4, 0);
    LeSlice(h, 4, 4, 0);
    LeSlice(h, 10, 2, 0);
    Enc32Back(kind);
    Enc32Back(length);
    Enc16Back(no);
  }

  lemma BackFields(kind: nat, flags: word, instance: word, size: nat, valueOfs: nat)
    requires size < 65536 && valueOfs < 65536
    ensures var h := HeaderBack(kind, flags, instance, size, valueOfs);
            && Le16(h, 0) == flags && Le16(h, 2) == instance && Le32(h, 4) == size && Le16(h, 8) == valueOfs
            && h[10] == if kind == AT_FILE_NAME then 1 else 0
  {
    var h := HeaderBack(kind, flags, instance, size, valueOfs);
    hide Enc16, Enc32, Le16, Le32;
    assert h[0..2] == Enc16(flags) && h[2..4] == Enc16(instance);
    assert h[4..8] == Enc32(size) && h[8..10] == Enc16(valueOfs);
    LeSlice(h, 0, 2, 0);
    LeSlice(h, 2, 2, 0);
    LeSlice(h, 4, 4, 0);
    LeSlice(h, 8, 2, 0);
    Enc16Back(flags);
    Enc16Back(instance);
    Enc32Back(size);
    Enc16Back(valueOfs);
  }

  lemma HeaderFields(h: seq<byte>, kind: nat, length: nat, nameLen: nat, flags: word, instance: word, size: nat,
                     valueOfs: nat)
    requires kind < AT_END && length < 65536 && nameLen < 256 && size < 65536 && valueOfs < 65536
    requires h == Header(kind, length, nameLen, flags, instance, size, valueOfs)
    ensures Le32(h, 0) == kind && Le32(h, 4) == length && h[9] == nameLen
    ensures Le16(h, 10) == (if nameLen > 0 then RESIDENT_END else 0) && Le32(h, 16) == size && Le16(h, 20) == valueOfs
    ensures Labelled(h, kind, flags, instance)
  {
    hide HeaderFront, HeaderBack, Le16, Le32;
    FrontFields(kind, length, nameLen);
    BackFields(kind, flags, instance, size, valueOfs);
    assert h[0..12] == HeaderFront(kind, length, nameLen);
    assert h[12..23] == HeaderBack(kind, flags, instance, size, valueOfs);
    LeSlice(h, 0, 12, 0);
    LeSlice(h, 0, 12, 4);
    LeSlice(h, 0, 12, 10);
    LeSlice(h, 12, 11, 0);
    LeSlice(h, 12, 11, 2);
    LeSlice(h, 12, 11, 4);
    LeSlice(h, 12, 11, 8);
    assert h[8] == h[0..12][8] && h[22] == h[12..23][10];
  }

  lemma NameHeld(image: seq<byte>, name: Name)
    requires RESIDENT_END + 2 * |name| <= |image|
    requires image[RESIDENT_END..RESIDENT_END + 2 * |name|] == NameBytes(name)
    ensures HasName(image, if |name| > 0 then RESIDENT_END else 0, name)
  {
    hide NameBytes, Le16;
    if |name| > 0 {
      NameBack(image, RESIDENT_END, name);
    } else {
      assert ReadName(image, 0, 0) == [];
    }
  }

  lemma FirstFields(s: seq<byte>, n: nat)
    requires 22 <= n <= |s|
    ensures Le32(s, 0) == Le32(s[..n], 0) && Le32(s, 4) == Le32(s[..n], 4) && s[9] == s[..n][9]
    ensures Le16(s, 10) == Le16(s[..n], 10) && Le32(s, 16) == Le32(s[..n], 16) && Le16(s, 20) == Le16(s[..n], 20)
    ensures Le16(s, 12) == Le16(s[..n], 12) && Le16(s, 14) == Le16(s[..n], 14) && s[8] == s[..n][8]
    ensures n > 22 ==> s[22] == s[..n][22]
  {
  }

  /** Bytes that begin with such a header and hold the name and the value where it says are that attribute. */
  lemma HeaderMakes(image: seq<byte>, kind: nat, name: Name, value: seq<byte>, flags: word, instance: word, vo: nat)
    requires AT_UNUSED != kind < AT_END && |name| < 256 && |value| < 65536
    requires vo == RESIDENT_END + Align8(2 * |name|) && |image| == vo + Align8(|value|) < 65536
    requires image[..23] == Header(kind, |image|, |name|, flags, instance, |value|, vo)
    requires HasValue(image, vo, value)
    requires image[RESIDENT_END..RESIDENT_END + 2 * |name|] == NameBytes(name)
    ensures WellFormed(Attr(kind, name, value, image)) && Labelled(image, kind, flags, instance)
  {
    hide Header, NameBytes, Le16, Le32, HasName, HasValue;
    assert |image| >= 24;
    HeaderFields(image[..23], kind, |image|, |name|, flags, instance, |value|, vo);
    FirstFields(image, 23);
    NameHeld(image, name);
  }

  // ---- the order of attributes ----

  predicate Before(upcase: seq<word>, a: Attr, b: Attr) {
    || a.kind < b.kind
    || (a.kind == b.kind && NameOrder(upcase, a.name, b.name) < 0)
    || (a.kind == b.kind && a.name == b.name && Compare(a.value, b.value) < 0)
  }

  ghost predicate Sorted(upcase: seq<word>, attrs: seq<Attr>) {
    forall k :: 0 < k < |attrs| ==> Before(upcase, attrs[k - 1], attrs[k])
  }

  lemma BeforeTrans(upcase: seq<word>, a: Attr, b: Attr, c: Attr)
    requires Before(upcase, a, b) && Before(upcase, b, c)
    ensures Before(upcase, a, c)
  {
    hide NameOrder, Compare;
    NameOrderFlip(upcase, a.name, b.name);
    NameOrderFlip(upcase, b.name, c.name);
    if a.kind == b.kind == c.kind {
      if NameOrder(upcase, a.name, b.name) < 0 && NameOrder(upcase, b.name, c.name) < 0 {
        NameOrderTrans(upcase, a.name, b.name, c.name);
      } else if a.name == b.name == c.name {
        CompareTrans(a.value, b.value, c.value);
      }
    }
  }

  /** Sorted neighbours are sorted throughout. */
  lemma {:induction false} SortedAll(upcase: seq<word>, attrs: seq<Attr>, i: nat, j: nat)
    requires Sorted(upcase, attrs) && i < j < |attrs|
    ensures Before(upcase, attrs[i], attrs[j])
    decreases j
  {
    hide Before;
    if i < j - 1 {
      SortedAll(upcase, attrs, i, j - 1);
      BeforeTrans(upcase, attrs[i], attrs[j - 1], attrs[j]);
    }
  }
}

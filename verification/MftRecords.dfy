/** Attributes of an MFT record: search, insertion and resizing in place (libntfs/attrib.c). */
module MftRecords {
  import opened Bytes
  import opened AttrOrder
  import opened AttrImage
  import opened AttrSearch
  import opened Slices

  // ---- where attributes are ----

  ghost function Images(attrs: seq<Attr>): seq<byte> {
    if attrs == [] then [] else attrs[0].image + Images(attrs[1..])
  }

  lemma {:induction false} ImagesAppend(a: seq<Attr>, b: seq<Attr>)
    ensures Images(a + b) == Images(a) + Images(b)
    decreases |a|
  {
    if a == [] {
      assert a + b == b;
    } else {
      assert (a + b)[1..] == a[1..] + b;
      ImagesAppend(a[1..], b);
    }
  }

  lemma ImagesOne(a: Attr)
    ensures Images([a]) == a.image
  {
    assert Images([a]) == a.image + Images([]);
  }

  lemma ImagesCut(attrs: seq<Attr>, k: nat)
    requires k <= |attrs|
    ensures Images(attrs) == Images(attrs[..k]) + Images(attrs[k..])
  {
    assert attrs == attrs[..k] + attrs[k..];
    ImagesAppend(attrs[..k], attrs[k..]);
  }

  lemma ImagesSnoc(attrs: seq<Attr>, k: nat)
    requires k < |attrs|
    ensures Images(attrs[..k + 1]) == Images(attrs[..k]) + attrs[k].image
  {
    ImagesOne(attrs[k]);
    assert attrs[..k + 1] == attrs[..k] + [attrs[k]];
    ImagesAppend(attrs[..k], [attrs[k]]);
  }

  /** The images in three parts: those before attribute k, its own, those behind it. */
  lemma ImagesAt(attrs: seq<Attr>, k: nat)
    requires k < |attrs|
    ensures Images(attrs) == Images(attrs[..k]) + attrs[k].image + Images(attrs[k + 1..])
    ensures Images(attrs[..k + 1]) == Images(attrs[..k]) + attrs[k].image
  {
    hide Images;
    ImagesSnoc(attrs, k);
    ImagesCut(attrs, k + 1);
  }

  ghost predicate AllWell(attrs: seq<Attr>) {
    forall k :: 0 <= k < |attrs| ==> WellFormed(attrs[k])
  }

  /** The used part of the record: a header of start bytes, the attributes, an end mark of 8 bytes. */
  ghost predicate Laid(bytes: seq<byte>, start: nat, inUse: nat, attrs: seq<Attr>) {
    && AllWell(attrs) && start + |Images(attrs)| + 8 == inUse <= |bytes|
    && bytes[start..inUse - 8] == Images(attrs)
    && Le32(bytes, inUse - 8) == AT_END
  }

  /** Offset of attribute k, of the end mark when k is their number. */
  ghost function Place(start: nat, attrs: seq<Attr>, k: nat): nat
    requires k <= |attrs|
  {
    start + |Images(attrs[..k])|
  }

  lemma WellLength(a: Attr)
    requires WellFormed(a)
    ensures |a.image| >= RESIDENT_END && |a.image| % 8 == 0
  {
  }

  lemma LaidAt(bytes: seq<byte>, start: nat, inUse: nat, attrs: seq<Attr>, k: nat)
    requires Laid(bytes, start, inUse, attrs) && k < |attrs|
    ensures var a := Place(start, attrs, k); var n := |attrs[k].image|;
            && start <= a && a + n <= inUse - 8 && bytes[a..a + n] == attrs[k].image && WellFormed(attrs[k])
            && n >= RESIDENT_END && Place(start, attrs, k + 1) == a + n
  {
    hide WellFormed, Images;
    ImagesAt(attrs, k);
    WellLength(attrs[k]);
    var a, n := Place(start, attrs, k), |attrs[k].image|;
    var o := a - start;
    assert Images(attrs)[o..o + n] == attrs[k].image;
    SliceSlice(bytes, start, inUse - 8 - start, o, n);
  }

  lemma LaidEnd(bytes: seq<byte>, start: nat, inUse: nat, attrs: seq<Attr>)
    requires Laid(bytes, start, inUse, attrs)
    ensures Place(start, attrs, |attrs|) == inUse - 8
  {
    assert attrs[..|attrs|] == attrs;
  }

  // ---- changing the record ----

  lemma ImagesInsert(attrs: seq<Attr>, k: nat, n: Attr)
    requires k <= |attrs|
    ensures Images(attrs[..k] + [n] + attrs[k..]) == Images(attrs[..k]) + n.image + Images(attrs[k..])
  {
    ImagesAppend(attrs[..k] + [n], attrs[k..]);
    ImagesAppend(attrs[..k], [n]);
    assert Images([n]) == n.image + Images([]);
  }

  lemma EndMoves(old': seq<byte>, inUse: nat, new': seq<byte>, used: nat, pos: nat, len: nat)
    requires used == inUse + len <= |new'| && pos + 8 <= inUse <= |old'|
    requires new'[pos + len..used] == old'[pos..inUse]
    ensures Le32(new', used - 8) == Le32(old', inUse - 8)
  {
    LeSlice(new', pos + len, inUse - pos, inUse - 8 - pos);
    LeSlice(old', pos, inUse - pos, inUse - 8 - pos);
  }

  lemma Thirds(old': seq<byte>, new': seq<byte>, start: nat, pos: nat, inUse: nat, len: nat,
               front: seq<byte>, image: seq<byte>, rest: seq<byte>)
    requires start + |front| == pos && pos + |rest| + 8 == inUse <= |old'| && inUse + len <= |new'| && |image| == len
    requires old'[start..inUse - 8] == front + rest
    requires new'[start..pos] == old'[start..pos] && new'[pos..pos + len] == image
    requires new'[pos + len..inUse + len] == old'[pos..inUse]
    ensures new'[start..inUse + len - 8] == front + image + rest
  {
    Halves(front, rest);
    SliceSlice(old', start, inUse - 8 - start, 0, |front|);
    SliceSlice(old', start, inUse - 8 - start, |front|, |rest|);
    SliceSlice(old', pos, inUse - pos, 0, |rest|);
    SliceSlice(new', pos + len, inUse - pos, 0, |rest|);
    Parted(new', start, pos, pos + len);
    Parted(new', start, pos + len, inUse + len - 8);
  }

  /** A record that differs by one attribute, n at place k: the attributes before and behind keep their bytes. */
  lemma InsertLaid(old': seq<byte>, new': seq<byte>, start: nat, inUse: nat, attrs: seq<Attr>, k: nat, n: Attr,
                   pos: nat)
    requires Laid(old', start, inUse, attrs) && k <= |attrs| && pos == Place(start, attrs, k) && WellFormed(n)
    requires inUse + |n.image| <= |new'| && pos + 8 <= inUse
    requires new'[start..pos] == old'[start..pos] && new'[pos..pos + |n.image|] == n.image
    requires new'[pos + |n.image|..inUse + |n.image|] == old'[pos..inUse]
    ensures Laid(new', start, inUse + |n.image|, attrs[..k] + [n] + attrs[k..])
  {
    hide WellFormed, Images, Le32;
    var len, more := |n.image|, attrs[..k] + [n] + attrs[k..];
    ImagesCut(attrs, k);
    ImagesInsert(attrs, k, n);
    EndMoves(old', inUse, new', inUse + len, pos, len);
    Thirds(old', new', start, pos, inUse, len, Images(attrs[..k]), n.image, Images(attrs[k..]));
  }

  /** The first and the last of three parts, as slices of the whole. */
  lemma OuterParts(s: seq<byte>, from: nat, front: seq<byte>, mid: seq<byte>, rest: seq<byte>)
    requires from + |front| + |mid| + |rest| <= |s|
    requires s[from..from + |front| + |mid| + |rest|] == front + mid + rest
    ensures s[from..from + |front|] == front
    ensures var at := from + |front| + |mid|; s[at..at + |rest|] == rest
  {
    var n := |front| + |mid| + |rest|;
    SliceSlice(s, from, n, 0, |front|);
    SliceSlice(s, from, n, |front| + |mid|, |rest|);
  }

  lemma Joined(old': seq<byte>, new': seq<byte>, start: nat, pos: nat, inUse: nat, len: nat,
               front: seq<byte>, image: seq<byte>, rest: seq<byte>)
    requires start + |front| == pos && pos + len + |rest| + 8 == inUse <= |old'| == |new'| && |image| == len
    requires old'[start..inUse - 8] == front + image + rest
    requires new'[start..pos] == old'[start..pos] && new'[pos..inUse - len] == old'[pos + len..inUse]
    ensures new'[start..inUse - len - 8] == front + rest
  {
    OuterParts(old', start, front, image, rest);
    SliceSlice(old', pos + len, inUse - pos - len, 0, |rest|);
    SliceSlice(new', pos, inUse - len - pos, 0, |rest|);
    Parted(new', start, pos, inUse - len - 8);
  }

  /** Taking attribute k out closes the gap it leaves. */
  lemma RemoveLaid(old': seq<byte>, new': seq<byte>, start: nat, inUse: nat, attrs: seq<Attr>, k: nat, pos: nat)
    requires Laid(old', start, inUse, attrs) && k < |attrs| && pos == Place(start, attrs, k)
    requires var len := |attrs[k].image|; len <= inUse - pos - 8 && |new'| == |old'|
                                          && new'[start..pos] == old'[start..pos]
                                          && new'[pos..inUse - len] == old'[pos + len..inUse]
    ensures Laid(new', start, inUse - |attrs[k].image|, attrs[..k] + attrs[k + 1..])
  {
    hide WellFormed, Images, Le32;
    var len := |attrs[k].image|;
    ImagesAt(attrs, k);
    ImagesAppend(attrs[..k], attrs[k + 1..]);
    EndMoves(new', inUse - len, old', inUse, pos, len);
    Joined(old', new', start, pos, inUse, len, Images(attrs[..k]), attrs[k].image, Images(attrs[k + 1..]));
  }

  lemma PlaceStart(start: nat, attrs: seq<Attr>)
    ensures Place(start, attrs, 0) == start
  {
    assert attrs[..0] == [];
  }

  lemma LengthField(bytes: seq<byte>, a: nat, attr: Attr)
    requires WellFormed(attr) && a + |attr.image| <= |bytes| && bytes[a..a + |attr.image|] == attr.image
    ensures |attr.image| >= RESIDENT_END
    ensures Le32(bytes, a) == attr.kind < AT_END && Le32(bytes, a + 4) == |attr.image|
  {
    LeSlice(bytes, a, |attr.image|, 0);
    LeSlice(bytes, a, |attr.image|, 4);
  }

  /** What the search finds at attribute k, and at the end mark. */
  lemma Met(bytes: seq<byte>, start: nat, inUse: nat, attrs: seq<Attr>, k: nat)
    requires Laid(bytes, start, inUse, attrs) && k <= |attrs|
    ensures var a := Place(start, attrs, k);
            if k == |attrs| then a + 8 == inUse <= |bytes| && Le32(bytes, a) == AT_END
            else
              var n := |attrs[k].image|;
              && RESIDENT_END <= n && a + n + 8 <= inUse <= |bytes| && bytes[a..a + n] == attrs[k].image
              && WellFormed(attrs[k]) && Le32(bytes, a) != AT_END && Le32(bytes, a + 4) == n
              && Place(start, attrs, k + 1) == a + n
  {
    hide Images, WellFormed, Le32;
    if k < |attrs| {
      LaidAt(bytes, start, inUse, attrs, k);
      LengthField(bytes, Place(start, attrs, k), attrs[k]);
    } else {
      LaidEnd(bytes, start, inUse, attrs);
    }
  }

  /** The bytes behind an attribute moved to its new end, and its length field set if it still has one. */
  function Moved(bytes: seq<byte>, a: nat, len: nat, n: nat, used: nat): (r: seq<byte>)
    requires a + len <= used <= |bytes| && used - len + n <= |bytes| && n < 0x1_0000_0000
    ensures |r| == |bytes|
  {
    var moved := Patch(bytes, a + n, bytes[a + len..used]);
    if n >= 8 then Patch(moved, a + 4, Enc32(n)) else moved
  }

  lemma MovedParts(bytes: seq<byte>, a: nat, len: nat, n: nat, used: nat)
    requires a + len <= used <= |bytes| && used - len + n <= |bytes| && n < 0x1_0000_0000
    ensures var r := Moved(bytes, a, len, n, used);
            && r[..a] == bytes[..a] && r[a + n..used - len + n] == bytes[a + len..used]
            && (n >= 8 ==> r[a + 4..a + 8] == Enc32(n))
  {
    var tail, r, end := bytes[a + len..used], Moved(bytes, a, len, n, used), used - len + n;
    var moved := Patch(bytes, a + n, tail);
    PatchedSlice(bytes, a + n, tail, 0, a);
    PatchedSlice(bytes, a + n, tail, a + n, end);
    if n >= 8 {
      PatchedSlice(moved, a + 4, Enc32(n), 0, a);
      PatchedSlice(moved, a + 4, Enc32(n), a + n, end);
      PatchedSlice(moved, a + 4, Enc32(n), a + 4, a + 8);
    }
    hide Patch, Enc32;
    assert r[..a] == r[0..a] && bytes[..a] == bytes[0..a];
  }

  datatype Room = Made | BadPlace | NoRoom
  datatype Resized = Done | TooLarge | RootTooLarge | Overflows
  datatype Added = At(offset: nat) | Exists | NoSpace | NotResident | Failed

  /** Bytes of a new resident attribute: header, name and value, each aligned to 8. */
  function AttrLength(name: Name, size: nat): (r: nat)
    ensures r % 8 == 0 && r >= RESIDENT_END && Align8(r) == r
    ensures RESIDENT_END + 2 * |name| + size <= r < RESIDENT_END + 2 * |name| + size + 15
  {
    RESIDENT_END + Align8(2 * |name|) + Align8(size)
  }

  /** The room for an attribute with its header, value and name written into it. */
  function NewImage(room: seq<byte>, header: seq<byte>, name: Name, value: seq<byte>, valueOfs: nat): (r: seq<byte>)
    requires |header| == 23 && RESIDENT_END + 2 * |name| <= valueOfs && valueOfs + |value| <= |room|
    ensures |r| == |room|
  {
    Patch(Patch(Patch(room, 0, header), valueOfs, value), RESIDENT_END, NameBytes(name))
  }

  lemma ImageParts(room: seq<byte>, header: seq<byte>, name: Name, value: seq<byte>, valueOfs: nat)
    requires |header| == 23 && RESIDENT_END + 2 * |name| <= valueOfs && valueOfs + |value| <= |room|
    ensures var r := NewImage(room, header, name, value, valueOfs);
            && r[..23] == header && HasValue(r, valueOfs, value)
            && r[RESIDENT_END..RESIDENT_END + 2 * |name|] == NameBytes(name)
  {
    hide Patch, NameBytes;
    var a := Patch(room, 0, header);
    var b := Patch(a, valueOfs, value);
    var r := Patch(b, RESIDENT_END, NameBytes(name));
    PatchedSlice(room, 0, header, 0, 23);
    PatchedSlice(a, valueOfs, value, 0, 23);
    PatchedSlice(b, RESIDENT_END, NameBytes(name), 0, 23);
    PatchedSlice(a, valueOfs, value, valueOfs, valueOfs + |value|);
    PatchedSlice(b, RESIDENT_END, NameBytes(name), valueOfs, valueOfs + |value|);
    PatchedSlice(b, RESIDENT_END, NameBytes(name), RESIDENT_END, RESIDENT_END + 2 * |name|);
    assert r[..23] == r[0..23];
  }

  lemma SamePlace(start: nat, a: seq<Attr>, b: seq<Attr>, k: nat)
    requires k <= |a| && k <= |b| && a[..k] == b[..k]
    ensures Place(start, a, k) == Place(start, b, k)
  {
  }

  lemma SearchedBound(upcase: seq<word>, attrs: seq<Attr>, kind: nat, name: WantedName, val: Wanted, f: Lookup, k: nat)
    requires Searched(upcase, attrs, 0, kind, name, val, f, k)
    ensures k <= |attrs| && f != Corrupt
  {
  }

  lemma LaidPlace(bytes: seq<byte>, start: nat, inUse: nat, attrs: seq<Attr>, k: nat)
    requires Laid(bytes, start, inUse, attrs) && k <= |attrs|
    ensures start <= Place(start, attrs, k) <= inUse - 8
  {
    hide Images, WellFormed;
    ImagesCut(attrs, k);
  }

  lemma InsertedAt(attrs: seq<Attr>, k: nat, n: Attr)
    requires k <= |attrs|
    ensures var more := attrs[..k] + [n] + attrs[k..];
            && more[..k] == attrs[..k] && more[k] == n && more[k + 1..] == attrs[k..]
               && attrs[..k] + attrs[k..] == attrs
  {
  }

  lemma Restored(was: seq<byte>, now: seq<byte>, a: nat, used: nat)
    requires a <= used <= |was| && used <= |now| && now[..a] == was[..a] && now[a..used] == was[a..used]
    ensures now[..used] == was[..used]
  {
    assert now[..used] == now[..a] + now[a..used] && was[..used] == was[..a] + was[a..used];
  }

  lemma SamePrefix(x: seq<byte>, y: seq<byte>, i: nat, j: nat)
    requires i <= j <= |x| && j <= |y| && x[..j] == y[..j]
    ensures x[i..j] == y[i..j]
  {
    assert x[i..j] == x[..j][i..] && y[i..j] == y[..j][i..];
  }

  /** Where a search begins whose context is at attribute j: there if it is fresh, behind it otherwise. */
  function From(isFirst: bool, j: nat): nat {
    if isFirst then j else j + 1
  }

  class MftRecord {
    const upcase: seq<word>
    const start: nat
    const capacity: nat
    var bytes: seq<byte>
    var inUse: nat
    var nextInstance: word
    ghost var attrs: seq<Attr>

    ghost predicate Valid()
      reads this
    {
      Laid(bytes, start, inUse, attrs) && inUse <= capacity <= |bytes| && capacity < 65536
    }

    constructor (upcase: seq<word>, start: nat, capacity: nat, bytes: seq<byte>, inUse: nat, nextInstance: word,
                 ghost attrs: seq<Attr>)
      requires Laid(bytes, start, inUse, attrs) && inUse <= capacity <= |bytes| && capacity < 65536
      ensures Valid() && this.upcase == upcase && this.start == start && this.capacity == capacity
      ensures this.bytes == bytes && this.inUse == inUse && this.nextInstance == nextInstance && this.attrs == attrs
    {
      this.upcase, this.start, this.capacity := upcase, start, capacity;
      this.bytes, this.inUse, this.nextInstance, this.attrs := bytes, inUse, nextInstance, attrs;
    }

    /**
     * ntfs_attr_find with the search context at attribute j: it begins there if the context is fresh and behind
     * it otherwise. a is where it stopped, attribute k or the end mark.
     */
    method Find(at: nat, isFirst: bool, kind: nat, name: WantedName, val: Wanted, ghost j: nat)
      returns (f: Lookup, a: nat, ghost k: nat)
      requires Valid() && j <= |attrs| && at == Place(start, attrs, j) && (isFirst || j < |attrs|)
      ensures Searched(upcase, attrs, From(isFirst, j), kind, name, val, f, k) && a == Place(start, attrs, k)
      ensures f == Hit ==>
                && k < |attrs|
                && (kind == AT_UNUSED || (&& attrs[k].kind == kind && (name.AnyName? || attrs[k].name == name.n)
                                          && (val.AnyValue? || attrs[k].value == val.v)))
      ensures forall i :: From(isFirst, j) <= i < k ==> !Wants(attrs[i], kind, name, val)
      ensures Sorted(upcase, attrs) && Ordered(name, val)
              ==> (f == Hit <==> Present(attrs, From(isFirst, j), kind, name, val))
      ensures kind == AT_UNUSED ==> k == From(isFirst, j) && (f == Hit <==> From(isFirst, j) < |attrs|)
      ensures kind != AT_UNUSED && !Ordered(name, val)
              ==> (f == Hit <==> Climbs(attrs, From(isFirst, j), kind, val.v))
    {
      hide Step, Images, WellFormed, Le32, Le16, Sorted, Present, Climbs, Ordered, Place, Laid;
      ghost var from := From(isFirst, j);
      k, a := from, at;
      if !isFirst {
        Met(bytes, start, inUse, attrs, j);
        a := at + Le32(bytes, at + 4);
      }
      f := Missing;
      while true
        invariant from <= k <= |attrs| && a == Place(start, attrs, k) && f == Missing
        invariant forall i :: from <= i < k ==> Step(upcase, attrs[i], kind, name, val) == Past
        decreases |attrs| - k
      {
        Met(bytes, start, inUse, attrs, k);
        var space := inUse - a;
        if (space < RESIDENT_END || space < Le32(bytes, a + 4)) && (space < 4 || Le32(bytes, a) != AT_END) {
          f := Corrupt;
          break;
        }
        if Le32(bytes, a) == AT_END {
          break;
        }
        if Le32(bytes, a + 4) == 0 {
          f := Corrupt;
          break;
        }
        var t := Examine(upcase, bytes, a, kind, name, val, attrs[k]);
        if t == Here {
          f := Hit;
          break;
        }
        if t == Gone {
          break;
        }
        a := a + Le32(bytes, a + 4);
        k := k + 1;
      }
      FoundMeans(upcase, attrs, from, kind, name, val, f, k);
    }

    /**
     * Calling ntfs_attr_find until it fails: the offsets of the attributes found, attributes hits of the record. They
     * are the wanted ones among the first to, and all there are in an enumeration and in a sorted record.
     */
    method FindAll(kind: nat, name: WantedName, val: Wanted)
      returns (places: seq<nat>, ghost hits: seq<nat>, ghost to: nat)
      requires Valid()
      ensures Hits(attrs, kind, name, val, hits, to)
      ensures |places| == |hits| && forall i :: 0 <= i < |hits| ==>
                                                  hits[i] < |attrs| && places[i] == Place(start, attrs, hits[i])
      ensures kind == AT_UNUSED || (Sorted(upcase, attrs) && Ordered(name, val))
              ==> Hits(attrs, kind, name, val, hits, |attrs|)
      ensures kind == AT_UNUSED ==> |places| == |attrs|
    {
      hide Step, Images, WellFormed, Le32, Le16, Sorted, Present, Climbs, Ordered, Laid, Place, Hits;
      places, hits := [], [];
      ghost var from: nat := 0;
      PlaceStart(start, attrs);
      HitsNone(attrs, kind, name, val);
      var f, a; ghost var k;
      f, a, k := Find(start, true, kind, name, val, 0);
      while f == Hit
        invariant from <= k <= |attrs| && Searched(upcase, attrs, from, kind, name, val, f, k)
        invariant a == Place(start, attrs, k) && Hits(attrs, kind, name, val, hits, from)
        invariant |places| == |hits| && forall i :: 0 <= i < |hits| ==>
                                                      hits[i] < |attrs| && places[i] == Place(start, attrs, hits[i])
        invariant kind == AT_UNUSED ==> |places| == from == k && (f == Hit <==> from < |attrs|)
        decreases |attrs| - k, f == Hit
      {
        HitsNext(upcase, attrs, kind, name, val, hits, from, k);
        places, hits, from := places + [a], hits + [k], k + 1;
        f, a, k := Find(a, false, kind, name, val, k);
      }
      HitsLast(upcase, attrs, kind, name, val, hits, from, k);
      to := k;
    }

    /** ntfs_make_room_for_attr: everything from pos on moves up by the aligned size. */
    method MakeRoom(pos: nat, size: nat) returns (r: Room)
      requires 8 <= inUse <= capacity <= |bytes|
      modifies this`bytes, this`inUse
      ensures r == if pos > old(inUse) - 8 then BadPlace
                   else if Align8(size) > 0 && old(inUse) + Align8(size) > capacity then NoRoom
                   else Made
      ensures r != Made ==> bytes == old(bytes) && inUse == old(inUse)
      ensures r == Made ==>
                && inUse == old(inUse) + Align8(size) <= capacity && |bytes| == |old(bytes)|
                && bytes[..pos] == old(bytes)[..pos]
                && bytes[pos + Align8(size)..inUse] == old(bytes)[pos..old(inUse)]
                && bytes[inUse..] == old(bytes)[inUse..]
    {
      var n := Align8(size);
      if pos > inUse - 8 {
        return BadPlace;
      }
      if n == 0 {
        return Made;
      }
      if inUse + n > capacity || pos + n > capacity {
        return NoRoom;
      }
      bytes := Patch(bytes, pos + n, bytes[pos..inUse]);
      inUse := inUse + n;
      r := Made;
    }

    /** ntfs_attr_record_resize: what lies behind the attribute at a moves to its new end. */
    method Resize(a: nat, size: nat) returns (r: Resized)
      requires a + 8 <= inUse <= capacity <= |bytes| && size < 65536
      requires Le32(bytes, a + 4) <= inUse
      modifies this`bytes, this`inUse
      ensures r != Done ==> bytes == old(bytes) && inUse == old(inUse)
      ensures var n, len := Align8(size), Le32(old(bytes), a + 4);
              r == if n == len then Done
                   else if old(inUse) - len + n > capacity then TooLarge
                   else if Le32(old(bytes), a) == AT_INDEX_ROOT && n > len && old(inUse) - len + n + 120 > capacity
                           && old(inUse) + 120 <= capacity then RootTooLarge
                   else if old(inUse) < a + len then Overflows
                   else Done
      ensures var n, len := Align8(size), Le32(old(bytes), a + 4);
              r == Done && n != len ==>
                && inUse == old(inUse) - len + n && |bytes| == |old(bytes)| && a + n <= inUse
                && bytes[..a] == old(bytes)[..a]
                && bytes[a + n..inUse] == old(bytes)[a + len..old(inUse)]
                && (n >= 8 ==> bytes[a + 4..a + 8] == Enc32(n))
      ensures r == Done && Align8(size) == Le32(old(bytes), a + 4) ==> bytes == old(bytes) && inUse == old(inUse)
    {
      hide Le32, Enc32, Moved;
      var used, len, n := inUse, Le32(bytes, a + 4), Align8(size);
      if n != len {
        var muse := used - len + n;
        if muse > capacity {
          return TooLarge;
        }
        if Le32(bytes, a) == AT_INDEX_ROOT && n > len && muse + 120 > capacity && used + 120 <= capacity {
          return RootTooLarge;
        }
        if used < a + len {
          return Overflows;
        }
        bytes := Moved(bytes, a, len, n, used);
        inUse := muse;
        MovedParts(old(bytes), a, len, n, used);
      }
      r := Done;
    }

    /** Resizing attribute k to nothing takes it out of the record. */
    method Remove(a: nat, ghost k: nat)
      requires Valid() && k < |attrs| && a == Place(start, attrs, k)
      modifies this`bytes, this`inUse, this`attrs
      ensures Valid() && attrs == old(attrs[..k] + attrs[k + 1..])
      ensures inUse == old(inUse - |attrs[k].image|) && |bytes| == old(|bytes|)
      ensures a <= inUse <= |bytes| && bytes[..a] == old(bytes)[..a]
      ensures var len := old(|attrs[k].image|);
              a + len <= old(inUse) && bytes[a..inUse] == old(bytes)[a + len..old(inUse)]
    {
      hide Images, WellFormed, Le32;
      LaidAt(bytes, start, inUse, attrs, k);
      LengthField(bytes, a, attrs[k]);
      var r := Resize(a, 0);
      SamePrefix(old(bytes), bytes, start, a);
      RemoveLaid(old(bytes), bytes, start, old(inUse), attrs, k, a);
      attrs := attrs[..k] + attrs[k + 1..];
    }

    /** Write the attribute into the room made at pos. */
    method WriteAttr(pos: nat, length: nat, kind: nat, name: Name, value: seq<byte>, flags: word, ghost was: seq<byte>,
                     ghost used: nat, ghost k: nat) returns (ghost n: Attr)
      requires Laid(was, start, used, attrs) && k <= |attrs| && pos == Place(start, attrs, k) && pos + 8 <= used
      requires AT_UNUSED != kind < AT_END && |name| < 256 && length == AttrLength(name, |value|)
      requires inUse == used + length <= capacity <= |bytes| && capacity < 65536 && used <= |was|
      requires bytes[..pos] == was[..pos] && bytes[pos + length..inUse] == was[pos..used]
      modifies this`bytes, this`nextInstance, this`attrs
      ensures Valid() && |bytes| == old(|bytes|) && attrs == old(attrs[..k]) + [n] + old(attrs[k..])
      ensures n.kind == kind && n.name == name && n.value == value && |n.image| == length
      ensures Labelled(n.image, kind, flags, old(nextInstance))
      ensures bytes[..pos] == was[..pos] && bytes[pos + length..inUse] == was[pos..used]
      ensures nextInstance == (old(nextInstance) as int + 1) % 65536
    {
      hide Images, WellFormed, Le32, Header, NameBytes, Patch, Labelled;
      var valueOfs := RESIDENT_END + Align8(2 * |name|);
      var header := Header(kind, length, |name|, flags, nextInstance, |value|, valueOfs);
      var room := bytes[pos..pos + length];
      var image := NewImage(room, header, name, value, valueOfs);
      ImageParts(room, header, name, value, valueOfs);
      HeaderMakes(image, kind, name, value, flags, nextInstance, valueOfs);
      n := Attr(kind, name, value, image);
      PatchedSlice(bytes, pos, image, 0, pos);
      PatchedSlice(bytes, pos, image, pos, pos + length);
      PatchedSlice(bytes, pos, image, pos + length, inUse);
      ghost var before := bytes;
      bytes := Patch(bytes, pos, image);
      var instance: int := nextInstance;
      nextInstance := (instance + 1) % 65536;
      assert bytes[..pos] == bytes[0..pos] && before[..pos] == before[0..pos];
      SamePrefix(was, bytes, start, pos);
      InsertLaid(was, bytes, start, used, attrs, k, n, pos);
      attrs := attrs[..k] + [n] + attrs[k..];
    }

    /** Insert the attribute at attribute k, and take it out again when the attribute list refuses it. */
    method Insert(a: nat, kind: nat, name: WantedName, val: Wanted, size: nat, flags: word, refused: bool,
                  ghost k: nat) returns (r: Added, ghost n: Attr)
      requires Valid() && k <= |attrs| && a == Place(start, attrs, k) <= inUse - 8
      requires AT_UNUSED != kind < AT_END && |NameOf(name)| < 256 && (val.Value? ==> |val.v| == size)
      modifies this
      ensures Valid() && |bytes| == old(|bytes|)
      ensures r == if old(inUse) + AttrLength(NameOf(name), size) > capacity then NoSpace
                   else if refused then Failed else At(a)
      ensures !r.At? ==> attrs == old(attrs) && inUse == old(inUse) && bytes[..inUse] == old(bytes[..inUse])
      ensures r.At? ==> && attrs == old(attrs)[..k] + [n] + old(attrs)[k..]
                        && Carries(n, kind, name, val) && |n.value| == size
                           && (val.AnyValue? ==> n.value == Zeros(size))
                        && |n.image| == AttrLength(NameOf(name), size) && inUse == old(inUse) + |n.image|
                        && bytes[..a] == old(bytes)[..a] && Labelled(n.image, kind, flags, old(nextInstance))
      ensures nextInstance == if r == NoSpace then old(nextInstance) else (old(nextInstance) as int + 1) % 65536
    {
      hide Images, WellFormed, Le32, Laid, Place, Align8, Labelled;
      n := Attr(0, [], [], []);
      var length := AttrLength(NameOf(name), size);
      ghost var was, used := bytes, inUse;
      var room := MakeRoom(a, length);
      if room == NoRoom {
        return NoSpace, n;
      }
      var value := if val.Value? then val.v else Zeros(size);
      n := WriteAttr(a, length, kind, NameOf(name), value, flags, was, used, k);
      InsertedAt(old(attrs), k, n);
      if refused {
        SamePlace(start, old(attrs), attrs, k);
        Remove(a, k);
        Restored(was, bytes, a, used);
        return Failed, n;
      }
      r := At(a);
    }

    /**
     * ntfs_resident_attr_record_add. canBeResident is the verdict on the type; hasList says that the
     * attribute needs an entry in an attribute list, listOk whether that entry could be added.
     */
    method Add(kind: nat, name: WantedName, val: Wanted, size: nat, flags: word, canBeResident: bool, hasList: bool,
               listOk: bool) returns (r: Added, ghost k: nat, ghost n: Attr)
      requires Valid() && |NameOf(name)| < 256 && (val.Value? ==> |val.v| == size)
      requires canBeResident ==> AT_UNUSED != kind < AT_END
      modifies this
      ensures Valid() && |bytes| == old(|bytes|)
      ensures !canBeResident <==> r == NotResident
      ensures canBeResident ==>
                Searched(upcase, old(attrs), 0, kind, name, val, if r == Exists then Hit else Missing, k)
      ensures r == NoSpace ==> old(inUse) + AttrLength(NameOf(name), size) > capacity
      ensures !r.At? ==> attrs == old(attrs) && inUse == old(inUse) && bytes[..inUse] == old(bytes[..inUse])
      ensures r.At? ==>
                && k <= |old(attrs)| && attrs == old(attrs)[..k] + [n] + old(attrs)[k..]
                && Carries(n, kind, name, val) && |n.value| == size && (val.AnyValue? ==> n.value == Zeros(size))
                && |n.image| == AttrLength(NameOf(name), size) && inUse == old(inUse) + |n.image|
                && r.offset == Place(start, old(attrs), k) <= |bytes| && bytes[..r.offset] == old(bytes)[..r.offset]
                && Labelled(n.image, kind, flags, old(nextInstance))
      ensures r == Exists ==> k < |attrs| && Wants(attrs[k], kind, name, val)
      ensures canBeResident && old(Sorted(upcase, attrs)) && Ordered(name, val)
              ==> (r == Exists <==> Present(old(attrs), 0, kind, name, val))
      ensures r.At? || r == Failed ==> nextInstance == (old(nextInstance) as int + 1) % 65536
      ensures r == Failed ==> hasList && !listOk
      ensures old(Sorted(upcase, attrs)) ==>
                (Sorted(upcase, attrs) <==> (r.At? ==> KeepsOrder(old(attrs), kind, name, val)))
    {
      hide Images, WellFormed, Le32, Laid, Searched, Sorted, AttrLength, Climbs, Present, KeepsOrder, Carries, Place,
           Labelled;
      hide Ordered, Zeros, NameOf;
      k, n := 0, Attr(0, [], [], []);
      if !canBeResident {
        return NotResident, k, n;
      }
      PlaceStart(start, attrs);
      var f, a;
      f, a, k := Find(start, true, kind, name, val, 0);
      SearchedBound(upcase, attrs, kind, name, val, f, k);
      if f == Hit {
        return Exists, k, n;
      }
      LaidPlace(bytes, start, inUse, attrs, k);
      r, n := Insert(a, kind, name, val, size, flags, hasList && !listOk, k);
      if r.At? && old(Sorted(upcase, attrs)) {
        InsertOrder(upcase, old(attrs), kind, name, val, k, n);
      }
    }
  }
}

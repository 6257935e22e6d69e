/** The hash index of an LRU cache: chains of links, and the links not in use. */
module CacheIndex {
  import opened LinkedLists

  /** The links of a cache header: next pointers and entries of all links, the first link of
      each chain, and the first free link. */
  datatype Links = Links(next: seq<int>, entry: seq<int>, first: seq<int>, free: int)

  /** What they stand for: the links of each chain, the free links, and for each link the chain
      it is in (NIL when free). */
  datatype Shape = Shape(chains: seq<seq<int>>, freeLinks: seq<int>, tag: seq<int>)

  ghost predicate Sized(x: Links, s: Shape) {
    |x.entry| == |x.next| == |s.tag| && |s.chains| == |x.first|
  }

  ghost predicate ChainOk(x: Links, s: Shape, h: int)
    requires Sized(x, s) && 0 <= h < |s.chains|
  {
    && IsList(x.next, x.first[h], s.chains[h]) && NoDup(s.chains[h])
    && forall k :: 0 <= k < |s.chains[h]| ==> 0 <= s.chains[h][k] < |s.tag| && s.tag[s.chains[h][k]] == h
  }

  ghost predicate FreeOk(x: Links, s: Shape)
    requires Sized(x, s)
  {
    && IsList(x.next, x.free, s.freeLinks) && NoDup(s.freeLinks)
    && forall k :: 0 <= k < |s.freeLinks| ==> 0 <= s.freeLinks[k] < |s.tag| && s.tag[s.freeLinks[k]] == NIL
  }

  /** Every chain and the free list are proper lists, and no link is in two of them. */
  ghost predicate WellLinked(x: Links, s: Shape) {
    && Sized(x, s) && FreeOk(x, s)
    && forall h :: 0 <= h < |s.chains| ==> ChainOk(x, s, h)
  }

  /** The entries chain h leads to, first link first. */
  ghost function Bucket(x: Links, s: Shape, h: int): (b: seq<int>)
    requires WellLinked(x, s) && 0 <= h < |s.chains|
    ensures |b| == |s.chains[h]|
    ensures forall k :: 0 <= k < |b| ==> 0 <= s.chains[h][k] < |x.entry| && b[k] == x.entry[s.chains[h][k]]
  {
    assert ChainOk(x, s, h);
    seq(|s.chains[h]|, k requires 0 <= k < |s.chains[h]| => x.entry[s.chains[h][k]])
  }

  ghost function Buckets(x: Links, s: Shape): (b: seq<seq<int>>)
    requires WellLinked(x, s)
    ensures |b| == |s.chains|
  {
    seq(|s.chains|, h requires 0 <= h < |s.chains| => Bucket(x, s, h))
  }

  // ---- a free link goes to the front of chain h ----

  function Inserted(x: Links, e: int, h: nat): Links
    requires 0 <= x.free < |x.next| && x.free < |x.entry| && h < |x.first|
  {
    Links(x.next[x.free := x.first[h]], x.entry[x.free := e], x.first[h := x.free], x.next[x.free])
  }

  ghost function InsertedShape(s: Shape, h: nat): Shape
    requires s.freeLinks != [] && h < |s.chains| && 0 <= s.freeLinks[0] < |s.tag|
  {
    var l := s.freeLinks[0];
    Shape(s.chains[h := [l] + s.chains[h]], s.freeLinks[1..], s.tag[l := h])
  }

  lemma FreeFront(x: Links, s: Shape)
    requires WellLinked(x, s) && s.freeLinks != []
    ensures x.free == s.freeLinks[0] && 0 <= x.free < |x.next|
    ensures IsList(x.next, x.next[x.free], s.freeLinks[1..]) && NoDup(s.freeLinks[1..]) && x.free !in s.freeLinks[1..]
  {
    hide At;
    FirstLink(x.next, x.free, s.freeLinks, 0);
    AtNil(s.freeLinks);
    UnlinkNextList(x.next, x.free, s.freeLinks, 0);
    WithoutNoDup(s.freeLinks, 0);
    assert Without(s.freeLinks, 0) == s.freeLinks[1..];
  }

  /** A free link is in no chain. */
  lemma FreeNotChained(x: Links, s: Shape, h: int)
    requires WellLinked(x, s) && s.freeLinks != [] && 0 <= h < |s.chains|
    ensures s.freeLinks[0] !in s.chains[h]
  {
    hide IsList, NoDup;
    assert ChainOk(x, s, h) && FreeOk(x, s);
  }

  lemma InsertedChain(x: Links, s: Shape, e: int, h: nat, g: int)
    requires WellLinked(x, s) && s.freeLinks != [] && h < |s.chains| && 0 <= g < |s.chains|
    requires x.free == s.freeLinks[0] && 0 <= x.free < |x.next|
    ensures Sized(Inserted(x, e, h), InsertedShape(s, h))
    ensures ChainOk(Inserted(x, e, h), InsertedShape(s, h), g)
  {
    hide IsList, NoDup;
    var l := x.free;
    assert ChainOk(x, s, g) && ChainOk(x, s, h);
    FreeNotChained(x, s, g);
    if g == h {
      PushNextList(x.next, x.first[h], s.chains[h], l);
      PushNoDup(s.chains[h], l);
    } else {
      ListElsewhere(x.next, x.first[g], s.chains[g], l, x.first[h]);
    }
  }

  lemma InsertedFree(x: Links, s: Shape, e: int, h: nat)
    requires WellLinked(x, s) && s.freeLinks != [] && h < |s.chains|
    requires x.free == s.freeLinks[0] && 0 <= x.free < |x.next|
    ensures Sized(Inserted(x, e, h), InsertedShape(s, h))
    ensures FreeOk(Inserted(x, e, h), InsertedShape(s, h))
  {
    hide IsList, NoDup;
    FreeFront(x, s);
    ListElsewhere(x.next, x.next[x.free], s.freeLinks[1..], x.free, x.first[h]);
    var f := s.freeLinks[1..];
    assert forall k :: 0 <= k < |f| ==> f[k] == s.freeLinks[k + 1] && f[k] != x.free;
  }

  lemma ShapeSize(s: Shape, h: nat)
    requires s.freeLinks != [] && h < |s.chains| && 0 <= s.freeLinks[0] < |s.tag|
    ensures |InsertedShape(s, h).chains| == |s.chains|
  {
  }

  lemma InsertedBucket(x: Links, s: Shape, e: int, h: nat, g: int)
    requires WellLinked(x, s) && s.freeLinks != [] && h < |s.chains| && 0 <= g < |s.chains|
    requires x.free == s.freeLinks[0] && 0 <= x.free < |x.next|
    requires WellLinked(Inserted(x, e, h), InsertedShape(s, h))
    ensures Bucket(Inserted(x, e, h), InsertedShape(s, h), g) == if g == h then [e] + Bucket(x, s, h)
            else Bucket(x, s, g)
  {
    hide IsList, NoDup;
    FreeNotChained(x, s, g);
    var b, b' := Bucket(x, s, g), Bucket(Inserted(x, e, h), InsertedShape(s, h), g);
    var c := s.chains[g];
    assert forall k :: 0 <= k < |c| ==> c[k] != x.free;
    if g == h {
      var c' := [x.free] + c;
      forall k | 0 < k < |c'| ensures b'[k] == b[k - 1] {
        assert c'[k] == c[k - 1];
      }
      assert b' == [e] + b;
    } else {
      assert b' == b;
    }
  }

  lemma InsertKeeps(x: Links, s: Shape, e: int, h: nat)
    requires WellLinked(x, s) && s.freeLinks != [] && h < |s.chains|
    ensures x.free == s.freeLinks[0] && 0 <= x.free < |x.next|
    ensures WellLinked(Inserted(x, e, h), InsertedShape(s, h))
    ensures Buckets(Inserted(x, e, h), InsertedShape(s, h)) == Buckets(x, s)[h := [e] + Buckets(x, s)[h]]
  {
    hide IsList, NoDup, Inserted, InsertedShape;
    FreeFront(x, s);
    InsertedFree(x, s, e, h);
    var x', s' := Inserted(x, e, h), InsertedShape(s, h);
    ShapeSize(s, h);
    forall g | 0 <= g < |s'.chains| ensures ChainOk(x', s', g) {
      InsertedChain(x, s, e, h, g);
    }
    forall g | 0 <= g < |s.chains|
      ensures Bucket(x', s', g) == if g == h then [e] + Bucket(x, s, h) else Bucket(x, s, g)
    {
      InsertedBucket(x, s, e, h, g);
    }
  }

  // ---- link number k of chain h goes back to the free list ----

  /** previous is the link before it in the chain, or NIL. */
  function Dropped(x: Links, h: nat, previous: int, link: int): Links
    requires 0 <= link < |x.next| && (previous == NIL || 0 <= previous < |x.next|) && h < |x.first|
  {
    var next := if previous == NIL then x.next else x.next[previous := x.next[link]];
    var first := if previous == NIL then x.first[h := x.next[link]] else x.first;
    Links(next[link := x.free], x.entry, first, link)
  }

  ghost function DroppedShape(s: Shape, h: nat, k: nat): Shape
    requires h < |s.chains| && k < |s.chains[h]| && 0 <= s.chains[h][k] < |s.tag|
  {
    var l := s.chains[h][k];
    Shape(s.chains[h := Without(s.chains[h], k)], [l] + s.freeLinks, s.tag[l := NIL])
  }

  /** Dropping link number k of chain h. */
  ghost function DroppedAt(x: Links, s: Shape, h: nat, k: nat): Links
    requires WellLinked(x, s) && h < |s.chains| && k < |s.chains[h]|
  {
    assert ChainOk(x, s, h);
    Dropped(x, h, At(s.chains[h], k - 1), s.chains[h][k])
  }

  /** A link of chain h is in no other chain and not free. */
  lemma ChainedOnce(x: Links, s: Shape, h: nat, k: nat)
    requires WellLinked(x, s) && h < |s.chains| && k < |s.chains[h]|
    ensures 0 <= s.chains[h][k] < |x.next|
    ensures s.chains[h][k] !in s.freeLinks
    ensures forall g :: 0 <= g < |s.chains| && g != h ==> s.chains[h][k] !in s.chains[g]
  {
    hide IsList, NoDup;
    assert ChainOk(x, s, h);
    forall g | 0 <= g < |s.chains| && g != h ensures s.chains[h][k] !in s.chains[g] {
      assert ChainOk(x, s, g);
    }
  }

  lemma DroppedOwnChain(x: Links, s: Shape, h: nat, k: nat)
    requires WellLinked(x, s) && h < |s.chains| && k < |s.chains[h]|
    ensures 0 <= s.chains[h][k] < |x.next|
    ensures var x', s' := DroppedAt(x, s, h, k), DroppedShape(s, h, k);
            Sized(x', s') && ChainOk(x', s', h)
  {
    hide IsList, NoDup;
    assert ChainOk(x, s, h);
    var c := s.chains[h];
    UnlinkNextList(x.next, x.first[h], c, k);
    WithoutNoDup(c, k);
    ListElsewhere(UnlinkNext(x.next, c, k), if k == 0 then x.next[c[0]] else x.first[h], Without(c, k), c[k], x.free);
    var r := Without(c, k);
    assert forall i :: 0 <= i < |r| ==> r[i] == c[if i < k then i else i + 1] && r[i] != c[k];
  }

  lemma DroppedOtherChain(x: Links, s: Shape, h: nat, k: nat, g: nat)
    requires WellLinked(x, s) && h < |s.chains| && k < |s.chains[h]| && g < |s.chains| && g != h
    ensures 0 <= s.chains[h][k] < |x.next|
    ensures var x', s' := DroppedAt(x, s, h, k), DroppedShape(s, h, k);
            Sized(x', s') && ChainOk(x', s', g)
  {
    hide IsList, NoDup;
    assert ChainOk(x, s, h) && ChainOk(x, s, g);
    var c := s.chains[h];
    ChainedOnce(x, s, h, k);
    var n := if k == 0 then x.next else x.next[c[k - 1] := x.next[c[k]]];
    if k > 0 {
      ChainedOnce(x, s, h, k - 1);
      ListElsewhere(x.next, x.first[g], s.chains[g], c[k - 1], x.next[c[k]]);
    }
    ListElsewhere(n, x.first[g], s.chains[g], c[k], x.free);
  }

  lemma DroppedFree(x: Links, s: Shape, h: nat, k: nat)
    requires WellLinked(x, s) && h < |s.chains| && k < |s.chains[h]|
    ensures 0 <= s.chains[h][k] < |x.next|
    ensures var x', s' := DroppedAt(x, s, h, k), DroppedShape(s, h, k);
            Sized(x', s') && FreeOk(x', s')
  {
    hide IsList, NoDup;
    assert ChainOk(x, s, h) && FreeOk(x, s);
    var c := s.chains[h];
    ChainedOnce(x, s, h, k);
    var n := if k == 0 then x.next else x.next[c[k - 1] := x.next[c[k]]];
    if k > 0 {
      ChainedOnce(x, s, h, k - 1);
      ListElsewhere(x.next, x.free, s.freeLinks, c[k - 1], x.next[c[k]]);
    }
    PushNextList(n, x.free, s.freeLinks, c[k]);
    PushNoDup(s.freeLinks, c[k]);
    var f := [c[k]] + s.freeLinks;
    assert forall i :: 0 < i < |f| ==> f[i] == s.freeLinks[i - 1] && f[i] != c[k];
  }

  lemma DroppedBucket(x: Links, s: Shape, h: nat, k: nat, g: nat)
    requires WellLinked(x, s) && h < |s.chains| && k < |s.chains[h]| && g < |s.chains|
    requires 0 <= s.chains[h][k] < |x.next|
    requires WellLinked(DroppedAt(x, s, h, k), DroppedShape(s, h, k))
    ensures Bucket(DroppedAt(x, s, h, k), DroppedShape(s, h, k), g)
            == if g == h then Without(Bucket(x, s, h), k) else Bucket(x, s, g)
  {
    hide IsList, NoDup;
    var b := Bucket(x, s, g);
    var b' := Bucket(DroppedAt(x, s, h, k), DroppedShape(s, h, k), g);
    if g == h {
      var c, r := s.chains[h], Without(s.chains[h], k);
      forall i | 0 <= i < |r| ensures b'[i] == Without(b, k)[i] {
        assert r[i] == c[if i < k then i else i + 1];
      }
      assert b' == Without(b, k);
    } else {
      assert b' == b;
    }
  }

  lemma DroppedSize(s: Shape, h: nat, k: nat)
    requires h < |s.chains| && k < |s.chains[h]| && 0 <= s.chains[h][k] < |s.tag|
    ensures |DroppedShape(s, h, k).chains| == |s.chains|
  {
  }

  lemma DropKeeps(x: Links, s: Shape, h: nat, k: nat)
    requires WellLinked(x, s) && h < |s.chains| && k < |s.chains[h]|
    ensures 0 <= s.chains[h][k] < |x.next|
    ensures var x', s' := DroppedAt(x, s, h, k), DroppedShape(s, h, k);
            && WellLinked(x', s')
            && Buckets(x', s') == Buckets(x, s)[h := Without(Buckets(x, s)[h], k)]
  {
    hide IsList, NoDup, DroppedAt, DroppedShape;
    DroppedFree(x, s, h, k);
    var x', s' := DroppedAt(x, s, h, k), DroppedShape(s, h, k);
    DroppedOwnChain(x, s, h, k);
    DroppedSize(s, h, k);
    forall g | 0 <= g < |s'.chains| ensures ChainOk(x', s', g) {
      if g != h { DroppedOtherChain(x, s, h, k, g); }
    }
    forall g | 0 <= g < |s.chains|
      ensures Bucket(x', s', g) == if g == h then Without(Bucket(x, s, h), k) else Bucket(x, s, g)
    {
      DroppedBucket(x, s, h, k, g);
    }
  }
}

/** cache.c: an LRU cache with an optional hash index. */
module LruCache {
  import opened LinkedLists
  import opened CacheIndex
  import opened CacheEntries
  import opened LruSpec

  /** The payloads of some entries, in order. */
  ghost function Items<T>(live: seq<int>, payload: seq<T>): (c: seq<T>)
    requires forall k :: 0 <= k < |live| ==> 0 <= live[k] < |payload|
    ensures |c| == |live|
    ensures forall k :: 0 <= k < |live| ==> c[k] == payload[live[k]]
  {
    seq(|live|, k requires 0 <= k < |live| => payload[live[k]])
  }

  lemma WithoutItems<T>(live: seq<int>, payload: seq<T>, k: nat)
    requires k < |live| && forall i :: 0 <= i < |live| ==> 0 <= live[i] < |payload|
    ensures forall i :: 0 <= i < |Without(live, k)| ==> 0 <= Without(live, k)[i] < |payload|
    ensures Items(Without(live, k), payload) == Without(Items(live, payload), k)
  {
  }

  /** What is found is in the cache, and fetching it brings it to the front. */
  lemma FetchedItem<T(!new)>(live: seq<int>, payload: seq<T>, c: seq<T>, cur: int, w: T, eq: (T, T) -> bool)
    requires (forall i :: 0 <= i < |live| ==> 0 <= live[i] < |payload|) && c == Items(live, payload)
    requires cur != NIL ==> cur in live && eq(payload[cur], w)
    requires cur == NIL ==> forall e :: e in live ==> !eq(payload[e], w)
    ensures cur == NIL ==> AfterRemove(c, w, eq) == c
    ensures cur != NIL ==> AfterFetch(c, w, eq) != [] && AfterRemove(c, w, eq) == Without(AfterFetch(c, w, eq), 0)
  {
    hide Position;
    if cur != NIL {
      var i :| 0 <= i < |live| && live[i] == cur;
      assert eq(c[i], w);
    } else {
      assert forall i :: 0 <= i < |c| ==> live[i] in live;
    }
  }

  /** First position holding e. */
  ghost function IndexOf(s: seq<int>, e: int): (k: nat)
    requires e in s
    ensures k < |s| && s[k] == e
  {
    if s[0] == e then 0 else 1 + IndexOf(s[1..], e)
  }

  lemma FirstIndex(x: int, rest: seq<int>)
    ensures IndexOf([x] + rest, x) == 0 && Without([x] + rest, 0) == rest
  {
  }

  lemma ItemsTail<T>(live: seq<int>, payload: seq<T>)
    requires live != [] && forall k :: 0 <= k < |live| ==> 0 <= live[k] < |payload|
    ensures Items(live, payload)[0] == payload[live[0]] && Items(live, payload)[1..] == Items(live[1..], payload)
  {
  }

  lemma ItemsCons<T>(x: int, s: seq<int>, payload: seq<T>)
    requires 0 <= x < |payload| && forall k :: 0 <= k < |s| ==> 0 <= s[k] < |payload|
    ensures forall k :: 0 <= k < |[x] + s| ==> 0 <= ([x] + s)[k] < |payload|
    ensures Items([x] + s, payload) == [payload[x]] + Items(s, payload)
  {
  }

  /** The elements of s outside dead. */
  ghost function Keep(s: seq<int>, dead: set<int>): (r: seq<int>)
    ensures |r| <= |s|
    ensures forall e :: e in r <==> e in s && e !in dead
  {
    if s == [] then []
    else
      var rest := Keep(s[1..], dead);
      if s[0] in dead then rest else [s[0]] + rest
  }

  lemma KeepEmpty(dead: set<int>)
    ensures Keep([], dead) == []
  {
  }

  lemma KeepCons(s: seq<int>, dead: set<int>)
    requires s != []
    ensures Keep(s, dead) == if s[0] in dead then Keep(s[1..], dead) else [s[0]] + Keep(s[1..], dead)
  {
  }

  lemma FilteredCons<T(!new)>(c: seq<T>, gone: T -> bool)
    ensures Filtered(c, gone) == if c == [] then []
                                 else if gone(c[0]) then Filtered(c[1..], gone) else [c[0]] + Filtered(c[1..], gone)
  {
  }

  lemma {:induction false} KeepNone(s: seq<int>)
    ensures Keep(s, {}) == s
  {
    if s != [] { KeepNone(s[1..]); }
  }

  lemma {:induction false} ItemsKeep<T(!new)>(live: seq<int>, payload: seq<T>, hit: T -> bool, dead: set<int>)
    requires forall k :: 0 <= k < |live| ==> 0 <= live[k] < |payload|
    requires forall e :: e in live ==> (e in dead <==> hit(payload[e]))
    ensures forall k :: 0 <= k < |Keep(live, dead)| ==> 0 <= Keep(live, dead)[k] < |payload|
    ensures Items(Keep(live, dead), payload) == Filtered(Items(live, payload), hit)
    decreases |live|
  {
    hide Items, Keep, Filtered;
    if live == [] {
      KeepNone(live);
      KeepEmpty(dead);
      FilteredCons(Items(live, payload), hit);
    } else {
      var x, t := live[0], live[1..];
      assert x in live && forall e :: e in t ==> e in live;
      ItemsKeep(t, payload, hit, dead);
      KeepCons(live, dead);
      ItemsTail(live, payload);
      FilteredCons(Items(live, payload), hit);
      if x !in dead {
        ItemsCons(x, Keep(t, dead), payload);
      }
    }
  }

  /** The live entries whose item does not hit. */
  ghost function Kept<T>(live: seq<int>, payload: seq<T>, hit: T -> bool): seq<int> {
    Keep(live, set e | e in live && 0 <= e < |payload| && hit(payload[e]))
  }

  /** Keeping the unmatched entries keeps the unmatched items. */
  lemma {:induction false} ItemsKept<T(!new)>(live: seq<int>, payload: seq<T>, hit: T -> bool)
    requires forall k :: 0 <= k < |live| ==> 0 <= live[k] < |payload|
    ensures forall k :: 0 <= k < |Kept(live, payload, hit)| ==> 0 <= Kept(live, payload, hit)[k] < |payload|
    ensures Items(Kept(live, payload, hit), payload) == Filtered(Items(live, payload), hit)
  {
    var dead := set e | e in live && 0 <= e < |payload| && hit(payload[e]);
    ItemsKeep(live, payload, hit, dead);
  }

  lemma KeepMembers(s: seq<int>, dead: set<int>)
    ensures forall e :: e in Keep(s, dead) <==> e in s && e !in dead
  {
  }

  lemma UniquePlace(s: seq<int>, i: nat, j: nat)
    requires NoDup(s) && i < |s| && j < |s| && s[i] == s[j]
    ensures i == j
  {
  }

  lemma IndexCons(x: int, s: seq<int>, e: int)
    requires e == x || e in s
    ensures IndexOf([x] + s, e) == if e == x then 0 else 1 + IndexOf(s, e)
  {
    assert ([x] + s)[1..] == s;
  }

  lemma WithoutCons(x: int, s: seq<int>, k: nat)
    requires k < |s|
    ensures Without([x] + s, 1 + k) == [x] + Without(s, k)
  {
  }

  lemma {:induction false} KeepSame(s: seq<int>, dead: set<int>, e: int)
    requires e !in s
    ensures Keep(s, dead + {e}) == Keep(s, dead)
  {
    if s != [] { KeepSame(s[1..], dead, e); }
  }

  /** Dropping one more element takes it out at its place. */
  lemma {:induction false} KeepDrop(s: seq<int>, dead: set<int>, e: int)
    requires NoDup(s) && e in s && e !in dead
    ensures e in Keep(s, dead)
    ensures Keep(s, dead + {e}) == Without(Keep(s, dead), IndexOf(Keep(s, dead), e))
    decreases |s|
  {
    hide Keep, IndexOf;
    KeepCons(s, dead);
    KeepCons(s, dead + {e});
    var t := s[1..];
    if s[0] == e {
      assert e !in t;
      KeepSame(t, dead, e);
      IndexCons(e, Keep(t, dead), e);
      assert Without([e] + Keep(t, dead), 0) == Keep(t, dead);
    } else {
      assert e in t && NoDup(t);
      KeepDrop(t, dead, e);
      if s[0] !in dead {
        IndexCons(s[0], Keep(t, dead), e);
        WithoutCons(s[0], Keep(t, dead), IndexOf(Keep(t, dead), e));
      }
    }
  }

  lemma FreeKnown(x: Entries, live: seq<int>, free: seq<int>)
    requires Listed(x, live, free)
    ensures free == [] <==> x.free == NIL
  {
    Ends(x, live, free);
  }

  lemma NewItems<T>(rest: seq<int>, data: seq<T>, cur: int, item: T)
    requires forall k :: 0 <= k < |rest| ==> 0 <= rest[k] < |data|
    requires 0 <= cur < |data| && cur !in rest
    ensures forall k :: 0 <= k < |[cur] + rest| ==> 0 <= ([cur] + rest)[k] < |data|
    ensures Items([cur] + rest, data[cur := item]) == [item] + Items(rest, data)
  {
  }

  /** Without the head in front again, a list is itself; otherwise it has the same members. */
  lemma SameMembers(s: seq<int>, k: nat)
    requires k < |s|
    ensures forall e :: e in s <==> e in [s[k]] + Without(s, k)
    ensures |[s[k]] + Without(s, k)| == |s|
  {
    var r := [s[k]] + Without(s, k);
    forall e | e in s ensures e in r {
      var i :| 0 <= i < |s| && s[i] == e;
      assert e == if i == k then r[0] else r[if i < k then i + 1 else i];
    }
  }

  lemma IndexAt(s: seq<int>, e: int)
    requires e in s
    ensures IndexOf(s, e) == 0 <==> s[0] == e
    ensures s[0] == e ==> [e] + Without(s, 0) == s
  {
  }

  lemma LiveNoDup(x: Entries, live: seq<int>, free: seq<int>)
    requires Listed(x, live, free)
    ensures NoDup(live)
  {
  }

  lemma LiveEnds(x: Entries, live: seq<int>, free: seq<int>, k: nat)
    requires Listed(x, live, free) && k < |live|
    ensures 0 <= live[k] < |x.prev| == |x.next| && (x.prev[live[k]] == NIL <==> k == 0)
  {
    Neighbours(x, live, free, k);
  }

  lemma Sizes(x: Links, s: Shape)
    requires WellLinked(x, s)
    ensures |x.first| == |s.chains| && |x.next| == |x.entry|
    ensures forall h :: 0 <= h < |s.chains| ==> |Buckets(x, s)[h]| == |s.chains[h]|
  {
    hide IsList, NoDup;
  }

  lemma FreeLink(x: Links, s: Shape)
    requires WellLinked(x, s)
    ensures x.free == NIL <==> s.freeLinks == []
  {
    hide NoDup;
    if s.freeLinks != [] { FirstLink(x.next, x.free, s.freeLinks, 0); }
  }

  lemma InsertShape(x: Links, s: Shape, h: nat)
    requires WellLinked(x, s) && s.freeLinks != [] && h < |s.chains|
    ensures 0 <= s.freeLinks[0] < |s.tag| && h < |x.first| && |x.next| == |x.entry|
    ensures |InsertedShape(s, h).chains| == |s.chains| && |InsertedShape(s, h).freeLinks| == |s.freeLinks| - 1
  {
    hide IsList, NoDup;
  }

  lemma DropShape(x: Links, s: Shape, h: nat, k: nat)
    requires WellLinked(x, s) && h < |s.chains| && k < |s.chains[h]|
    ensures h < |x.first| && 0 <= s.chains[h][k] < |s.tag| && s.chains[h][k] < |x.next|
    ensures At(s.chains[h], k - 1) == NIL || 0 <= At(s.chains[h], k - 1) < |x.next|
    ensures DroppedAt(x, s, h, k) == Dropped(x, h, At(s.chains[h], k - 1), s.chains[h][k])
    ensures var d := DroppedShape(s, h, k);
            && |d.chains| == |s.chains| && |d.freeLinks| == |s.freeLinks| + 1 && d.chains[h] == Without(s.chains[h], k)
  {
    hide NoDup;
    assert ChainOk(x, s, h);
  }

  lemma ListStep(x: Entries, live: seq<int>, free: seq<int>, k: nat)
    requires Listed(x, live, free) && k <= |live|
    ensures x.first == At(live, 0)
    ensures k < |live| ==> 0 <= live[k] < |x.next| && At(live, k) == live[k] && x.next[live[k]] == At(live, k + 1)
    ensures k == |live| <==> At(live, k) == NIL
  {
    if k < |live| { FirstLink(x.next, x.first, live, k); }
  }

  lemma ChainStep(x: Links, s: Shape, h: int, k: nat)
    requires WellLinked(x, s) && 0 <= h < |s.chains| && k <= |s.chains[h]|
    ensures x.first[h] == At(s.chains[h], 0)
    ensures k < |s.chains[h]| ==>
              && 0 <= s.chains[h][k] < |x.next| && At(s.chains[h], k) == s.chains[h][k]
              && x.next[s.chains[h][k]] == At(s.chains[h], k + 1) && x.entry[s.chains[h][k]] == Buckets(x, s)[h][k]
    ensures k == |s.chains[h]| <==> At(s.chains[h], k) == NIL
  {
    hide NoDup;
    assert ChainOk(x, s, h);
    if k < |s.chains[h]| { FirstLink(x.next, x.first[h], s.chains[h], k); }
  }

  class Cache<T(!new, 0)> {
    const count: nat
    const maxHash: nat
    const eq: (T, T) -> bool
    const hash: T -> int
    var entries: Entries
    var links: Links
    var payload: seq<T>
    var dohash: bool
    var readCount: nat
    var writeCount: nat
    var hitCount: nat
    /** The live entries, most recent first, the free entries, and the shape of the index. */
    ghost var live: seq<int>
    ghost var free: seq<int>
    ghost var shape: Shape

    /** What callers promise: compare is an equivalence that the hash respects, and the hash is in range. */
    ghost predicate Laws() {
      && (forall a :: eq(a, a))
      && (forall a, b :: eq(a, b) ==> eq(b, a) && hash(a) == hash(b))
      && (forall a, b, c :: eq(a, b) && eq(b, c) ==> eq(a, c))
      && (forall a :: 0 <= hash(a) < maxHash)
    }

    ghost predicate Lists()
      reads `entries, `links, `payload, `dohash, `live, `free, `shape
    {
      |entries.next| == |payload| == count && Listed(entries, live, free) && InRange(live, free)
    }

    ghost predicate InRange(live: seq<int>, free: seq<int>) {
      && (forall k :: 0 <= k < |live| ==> 0 <= live[k] < count)
      && (forall k :: 0 <= k < |free| ==> 0 <= free[k] < count)
    }

    /** No two live entries hold equal items. */
    ghost predicate Distinct(live: seq<int>, payload: seq<T>) {
      forall e, f :: e in live && f in live && e != f && 0 <= e < |payload| && 0 <= f < |payload| ==>
        !eq(payload[e], payload[f])
    }

    /** Chain h leads to exactly the given entries whose hash is h, each once. */
    ghost predicate BucketOk(b: seq<int>, members: seq<int>, payload: seq<T>, h: int) {
      NoDup(b) && forall e :: e in b <==> e in members && 0 <= e < |payload| && hash(payload[e]) == h
    }

    ghost predicate Indexes(links: Links, shape: Shape, members: seq<int>, payload: seq<T>) {
      && WellLinked(links, shape) && |shape.chains| == maxHash
      && forall h :: 0 <= h < maxHash ==> BucketOk(Buckets(links, shape)[h], members, payload, h)
    }

    ghost predicate Valid()
      reads `entries, `links, `payload, `dohash, `live, `free, `shape
    {
      && count >= 2 && Laws() && Lists() && |live| + |free| == count && Distinct(live, payload)
      && (dohash ==> Indexes(links, shape, live, payload) && |shape.freeLinks| == |free|)
    }

    /** The cached items, most recently used first. */
    ghost function Contents(): (c: seq<T>)
      reads `entries, `links, `payload, `dohash, `live, `free, `shape
      requires InRange(live, free) && |payload| == count
    {
      Items(live, payload)
    }

    /** Look an item up through its hash chain. */
    method SearchChain(wanted: T) returns (cur: int)
      requires Valid() && dohash
      ensures cur != NIL ==> cur in live && eq(payload[cur], wanted)
      ensures cur == NIL ==> forall e :: e in live ==> !eq(payload[e], wanted)
    {
      hide NoDup, IsBack, IsList, WellLinked, Buckets, Distinct;
      var h := hash(wanted);
      Sizes(links, shape);
      var link := links.first[h];
      ghost var chain, bucket := shape.chains[h], Buckets(links, shape)[h];
      ghost var k := 0;
      assert BucketOk(bucket, live, payload, h);
      ChainStep(links, shape, h, k);
      while link != NIL && !eq(payload[links.entry[link]], wanted)
        invariant 0 <= k <= |chain| && link == At(chain, k)
        invariant k < |chain| ==> 0 <= link < |links.entry| && links.entry[link] == bucket[k] && bucket[k] in live
        invariant forall i :: 0 <= i < k ==> bucket[i] in live && !eq(payload[bucket[i]], wanted)
        decreases |chain| - k
      {
        ChainStep(links, shape, h, k);
        ChainStep(links, shape, h, k + 1);
        link := links.next[link];
        k := k + 1;
      }
      if link != NIL {
        cur := links.entry[link];
      } else {
        cur := NIL;
        forall e | e in live ensures !eq(payload[e], wanted) {
          if hash(payload[e]) == h {
            assert e in bucket;
          }
        }
      }
    }

    /** Look an item up in the LRU list. */
    method SearchList(wanted: T) returns (cur: int)
      requires Valid()
      ensures cur != NIL ==> cur in live && eq(payload[cur], wanted)
      ensures cur == NIL ==> forall e :: e in live ==> !eq(payload[e], wanted)
    {
      hide Laws, Distinct, Indexes, IsBack, NoDup;
      cur := entries.first;
      ghost var k := 0;
      ListStep(entries, live, free, k);
      while cur != NIL && !eq(payload[cur], wanted)
        invariant 0 <= k <= |live| && cur == At(live, k) && (k < |live| <==> cur != NIL)
        invariant forall i :: 0 <= i < k ==> !eq(payload[live[i]], wanted)
        decreases |live| - k
      {
        ListStep(entries, live, free, k);
        ListStep(entries, live, free, k + 1);
        cur := entries.next[cur];
        k := k + 1;
      }
    }

    /** The search shared by fetching and entering: by hash when there is one, else in LRU order. */
    method Find(wanted: T) returns (cur: int)
      requires Valid()
      ensures cur != NIL ==> cur in live && eq(payload[cur], wanted)
      ensures cur == NIL ==> forall e :: e in live ==> !eq(payload[e], wanted)
    {
      hide Laws, Distinct, Indexes, Lists;
      if dohash {
        cur := SearchChain(wanted);
      } else {
        cur := SearchList(wanted);
      }
    }

    ghost predicate Linked()
      reads `entries, `links, `payload, `dohash, `live, `free, `shape
    {
      WellLinked(links, shape) && |shape.chains| == maxHash
    }

    /** inserthashindex: hashing is dropped if the hash is out of range or no link is free. */
    method InsertHashIndex(e: int)
      requires 0 <= e < |payload| && (dohash ==> Linked())
      modifies `links, `shape, `dohash
      ensures dohash <==> old(dohash) && 0 <= hash(payload[e]) < maxHash && old(shape.freeLinks) != []
      ensures dohash ==> Linked() && |shape.freeLinks| == old(|shape.freeLinks|) - 1
      ensures dohash ==> var h := hash(payload[e]);
                         var b := old(Buckets(links, shape));
                         Buckets(links, shape) == b[h := [e] + b[h]]
    {
      hide WellLinked, Buckets;
      if dohash {
        var h := hash(payload[e]);
        if 0 <= h < maxHash {
          FreeLink(links, shape);
          var link := links.free;
          if link != NIL {
            InsertKeeps(links, shape, e, h);
            InsertShape(links, shape, h);
            links := Inserted(links, e, h);
            shape := InsertedShape(shape, h);
          } else {
            dohash := false;
          }
        } else {
          dohash := false;
        }
      }
    }

    /** Walk chain h to the link of e; j is its place in the chain. */
    method FindLink(e: int, h: nat) returns (link: int, previous: int, ghost j: nat)
      requires Linked() && h < maxHash
      ensures link != NIL <==> e in Buckets(links, shape)[h]
      ensures link != NIL ==>
                && j < |shape.chains[h]| && link == shape.chains[h][j] && previous == At(shape.chains[h], j - 1)
                && Buckets(links, shape)[h][j] == e
    {
      hide WellLinked, Buckets;
      Sizes(links, shape);
      link, previous, j := links.first[h], NIL, 0;
      ghost var chain, bucket := shape.chains[h], Buckets(links, shape)[h];
      ChainStep(links, shape, h, 0);
      while link != NIL && links.entry[link] != e
        invariant 0 <= j <= |chain| && link == At(chain, j) && previous == At(chain, j - 1)
        invariant link != NIL ==> j < |chain| && 0 <= link < |links.next| && links.entry[link] == bucket[j]
        invariant forall i :: 0 <= i < j ==> bucket[i] != e
        invariant link == NIL ==> j == |chain|
        decreases |chain| - j
      {
        ChainStep(links, shape, h, j);
        ChainStep(links, shape, h, j + 1);
        previous := link;
        link := links.next[link];
        j := j + 1;
      }
    }

    /** drophashindex: hashing is dropped if the hash is out of range or its chain lacks the entry. */
    method DropHashIndex(e: int, h: int) returns (ghost j: nat)
      requires dohash ==> Linked()
      modifies `links, `shape, `dohash
      ensures dohash <==> old(dohash) && 0 <= h < maxHash && e in old(Buckets(links, shape))[h]
      ensures dohash ==> Linked() && |shape.freeLinks| == old(|shape.freeLinks|) + 1
      ensures dohash ==> var b := old(Buckets(links, shape));
                         && j < |b[h]| && b[h][j] == e && Buckets(links, shape) == b[h := Without(b[h], j)]
                         && j < |old(shape).chains[h]| && shape.chains[h] == Without(old(shape).chains[h], j)
    {
      hide WellLinked, Buckets, DroppedAt;
      j := 0;
      if dohash {
        if 0 <= h < maxHash {
          var link, previous;
          Sizes(links, shape);
          link, previous, j := FindLink(e, h);
          if link != NIL {
            DropKeeps(links, shape, h, j);
            DropShape(links, shape, h, j);
            links := Dropped(links, h, previous, link);
            shape := DroppedShape(shape, h, j);
          } else {
            dohash := false;
          }
        } else {
          dohash := false;
        }
      }
    }

    // ---- how the index follows the entries ----

    lemma IndexesMembers(members: seq<int>, members': seq<int>)
      requires Indexes(links, shape, members, payload)
      requires forall e :: e in members <==> e in members'
      ensures Indexes(links, shape, members', payload)
    {
      hide WellLinked, NoDup;
    }

    lemma DistinctMembers(members: seq<int>, members': seq<int>)
      requires Distinct(members, payload) && forall e :: e in members <==> e in members'
      ensures Distinct(members', payload)
    {
    }

    /** Chains without entry e index the members without e. */
    lemma DropIndexes(data: seq<T>, b: seq<seq<int>>, members: seq<int>, k: nat, h: int, j: nat, b': seq<seq<int>>)
      requires |b| == maxHash && forall g :: 0 <= g < maxHash ==> BucketOk(b[g], members, data, g)
      requires NoDup(members) && k < |members| && 0 <= members[k] < |data| && h == hash(data[members[k]])
               && 0 <= h < maxHash
      requires j < |b[h]| && b[h][j] == members[k] && b' == b[h := Without(b[h], j)]
      ensures forall g :: 0 <= g < maxHash ==> BucketOk(b'[g], Without(members, k), data, g)
    {
      hide NoDup;
      assert BucketOk(b[h], members, data, h);
      WithoutNoDup(members, k);
      WithoutNoDup(b[h], j);
      forall g | 0 <= g < maxHash ensures BucketOk(b'[g], Without(members, k), data, g) {
        assert BucketOk(b[g], members, data, g);
      }
    }

    /** Chains with e in front of its own index the members with e, once e holds item. */
    lemma InsertIndexes(data: seq<T>, b: seq<seq<int>>, members: seq<int>, e: int, item: T, h: int, b': seq<seq<int>>)
      requires |b| == maxHash && forall g :: 0 <= g < maxHash ==> BucketOk(b[g], members, data, g)
      requires e !in members && 0 <= e < |data| && h == hash(item) && 0 <= h < maxHash && b' == b[h := [e] + b[h]]
      ensures forall g :: 0 <= g < maxHash ==> BucketOk(b'[g], [e] + members, data[e := item], g)
    {
      hide NoDup;
      forall g | 0 <= g < maxHash ensures BucketOk(b'[g], [e] + members, data[e := item], g) {
        assert BucketOk(b[g], members, data, g);
        if g == h { PushNoDup(b[g], e); }
        forall f ensures f in b'[g] <==> f in [e] + members && 0 <= f < |data| && hash(data[e := item][f]) == g {
          assert f in [e] + members <==> f == e || f in members;
          assert g == h ==> (f in b'[g] <==> f == e || f in b[g]);
        }
      }
    }


    // ---- operations ----

    /** Relink a live entry that is not at the head as the head of the list. */
    method MoveToFront(cur: int)
      requires Lists() && cur in live && cur != live[0]
      modifies `entries, `live
      ensures Lists() && live == [cur] + Without(old(live), IndexOf(old(live), cur))
    {
      hide Listed, IndexOf;
      ghost var k := IndexOf(live, cur);
      ghost var x := entries;
      Neighbours(x, live, free, k);
      UnlinkKeeps(x, live, free, k);
      ghost var y := Unlinked(x, cur);
      PushKeeps(y, Without(live, k), free, cur);
      Ends(y, Without(live, k), free);
      var previous, next := entries.prev[cur], entries.next[cur];
      entries := entries.(next := entries.next[previous := next]);
      if next != NIL {
        entries := entries.(prev := entries.prev[next := previous]);
      } else {
        entries := entries.(last := previous);
      }
      entries := entries.(next := entries.next[cur := entries.first], prev := entries.prev[cur := NIL]);
      entries := entries.(prev := entries.prev[entries.first := cur], first := cur);
      assert entries == Pushed(y, cur);
      live := [cur] + Without(live, k);
    }

    /** ntfs_fetch_cache: a hit becomes the most recent entry. */
    method Fetch(wanted: T) returns (cur: int)
      requires Valid()
      modifies this
      ensures Valid() && dohash == old(dohash) && payload == old(payload) && free == old(free)
      ensures cur != NIL ==> cur in old(live) && eq(payload[cur], wanted)
      ensures cur == NIL ==> forall e :: e in old(live) ==> !eq(payload[e], wanted)
      ensures live == if cur == NIL then old(live) else [cur] + Without(old(live), IndexOf(old(live), cur))
      ensures Contents() == AfterFetch(old(Contents()), wanted, eq)
    {
      hide Valid, Laws, Listed, IndexOf, AfterFetch, Position, Items;
      cur := Find(wanted);
      HitPosition(cur, wanted);
      FetchItems(cur, wanted);
      if cur != NIL {
        hitCount := hitCount + 1;
        Touch(cur);
      }
      readCount := readCount + 1;
    }

    /** Make a live entry the most recent one. */
    method Touch(cur: int)
      requires Valid() && cur in live
      modifies `entries, `live
      ensures Valid() && live == [cur] + Without(old(live), IndexOf(old(live), cur))
    {
      hide Laws, Indexes, Listed, IndexOf, Distinct;
      IndexAt(live, cur);
      LiveEnds(entries, live, free, IndexOf(live, cur));
      var previous := entries.prev[cur];
      if previous != NIL {
        ghost var before := live;
        MoveToFront(cur);
        SameMembers(before, IndexOf(before, cur));
        DistinctMembers(before, live);
        if dohash { IndexesMembers(before, live); }
      }
    }

    /** do_invalidate: a live entry goes to the free list. */
    method DoInvalidate(cur: int)
      requires Lists() && cur in live
      modifies `entries, `live, `free
      ensures Lists() && live == Without(old(live), IndexOf(old(live), cur)) && free == [cur] + old(free)
    {
      hide Listed, IndexOf;
      ghost var k := IndexOf(live, cur);
      ghost var x := entries;
      Neighbours(x, live, free, k);
      UnlinkKeeps(x, live, free, k);
      ghost var y := Unlinked(x, cur);
      FreeKeeps(y, Without(live, k), free, cur);
      var previous, next := entries.prev[cur], entries.next[cur];
      if next != NIL {
        entries := entries.(prev := entries.prev[next := previous]);
      } else {
        entries := entries.(last := previous);
      }
      if previous != NIL {
        entries := entries.(next := entries.next[previous := next]);
      } else {
        entries := entries.(first := next);
      }
      assert entries == y;
      entries := entries.(next := entries.next[cur := entries.free], free := cur);
      live, free := Without(live, k), [cur] + free;
    }

    /** ntfs_remove_cache, and the step shared by all invalidations: one entry leaves both the
        LRU list and its chain. j is its former place in the chain. */
    method Remove(cur: int) returns (ghost j: nat)
      requires Valid() && cur in live
      modifies this
      ensures Valid() && dohash == old(dohash) && payload == old(payload)
      ensures live == Without(old(live), IndexOf(old(live), cur)) && free == [cur] + old(free)
      ensures dohash ==> var h := hash(payload[cur]);
                         && j < |old(shape).chains[h]| && shape.chains[h] == Without(old(shape).chains[h], j)
                         && old(Buckets(links, shape))[h][j] == cur
                         && Buckets(links, shape)[h] == Without(old(Buckets(links, shape))[h], j)
    {
      hide Listed, IndexOf, WellLinked, Buckets;
      j := 0;
      ghost var k, before := IndexOf(live, cur), live;
      LiveNoDup(entries, live, free);
      WithoutNoDup(live, k);
      if dohash {
        ghost var h, b := hash(payload[cur]), Buckets(links, shape);
        assert BucketOk(b[h], live, payload, h);
        j := DropHashIndex(cur, hash(payload[cur]));
        DropIndexes(payload, b, live, k, h, j, Buckets(links, shape));
      }
      DoInvalidate(cur);
    }

    /** Removing an item the way callers do: look its entry up, then remove that entry. */
    method FetchAndRemove(wanted: T)
      requires Valid()
      modifies this
      ensures Valid() && dohash == old(dohash)
      ensures Contents() == AfterRemove(old(Contents()), wanted, eq)
    {
      hide Laws, Listed, IndexOf, Position, Indexes, Distinct, Items, AfterFetch, AfterRemove, Buckets, WellLinked,
           InRange, Lists;
      LiveRange();
      ghost var before, was, c := live, payload, Contents();
      var cur := Fetch(wanted);
      ghost var mid := live;
      FetchedItem(before, was, c, cur, wanted, eq);
      if cur != NIL {
        FirstIndex(cur, Without(before, IndexOf(before, cur)));
        LiveRange();
        WithoutItems(mid, was, 0);
        var _ := Remove(cur);
      }
    }

    lemma LiveRange()
      requires Valid()
      ensures |payload| == count && forall k :: 0 <= k < |live| ==> 0 <= live[k] < |payload|
      ensures InRange(live, free)
    {
    }

    /** One entry is in neither list, and one link more than needed is free. */
    ghost predicate Spare(cur: int)
      reads `entries, `links, `payload, `dohash, `live, `free, `shape
    {
      && count >= 2 && Laws() && Lists() && |live| + |free| == count - 1 && Distinct(live, payload)
      && 0 <= cur < count && cur !in live && cur !in free
      && (dohash ==> Indexes(links, shape, live, payload) && |shape.freeLinks| == |free| + 1)
    }

    /** Take the first entry off the free list. */
    method TakeFree() returns (cur: int)
      requires Valid() && free != []
      modifies `entries, `free
      ensures cur == old(free)[0] && free == old(free)[1..] && Spare(cur)
    {
      hide Listed, Laws, Indexes, Distinct;
      PopKeeps(entries, live, free);
      cur := entries.free;
      entries := entries.(free := entries.next[entries.free]);
      free := free[1..];
    }

    /** Reuse the oldest entry: it leaves the end of the list and its chain. */
    method EvictOldest() returns (cur: int)
      requires Valid() && free == []
      modifies `entries, `live, `links, `shape, `dohash
      ensures dohash == old(dohash)
      ensures cur == old(live)[count - 1] && live == old(live)[..count - 1] && Spare(cur)
    {
      hide Listed, WellLinked, Buckets, NoDup;
      ghost var k, x := count - 1, entries;
      Ends(entries, live, free);
      Neighbours(entries, live, free, k);
      UnlinkKeeps(entries, live, free, k);
      LiveNoDup(entries, live, free);
      assert Without(live, k) == live[..k];
      cur := entries.last;
      var before := entries.prev[cur];
      entries := entries.(next := entries.next[before := NIL]);
      if dohash {
        ghost var h, b := hash(payload[cur]), Buckets(links, shape);
        assert BucketOk(b[h], live, payload, h);
        ghost var j := DropHashIndex(cur, hash(payload[cur]));
        DropIndexes(payload, b, live, k, h, j, Buckets(links, shape));
      }
      entries := entries.(last := entries.prev[cur]);
      assert entries == Unlinked(x, cur);
      live := live[..k];
    }

    /** Make cur the most recent entry, holding item. */
    method Install(cur: int, item: T)
      requires Spare(cur) && forall e :: e in live ==> !eq(payload[e], item)
      modifies `entries, `live, `payload, `links, `shape, `dohash
      ensures Valid() && dohash == old(dohash)
      ensures live == [cur] + old(live) && payload == old(payload)[cur := item] && eq(payload[cur], item)
    {
      hide Listed, WellLinked, Buckets;
      ghost var before, data := live, payload;
      PushKeeps(entries, live, free, cur);
      Ends(entries, live, free);
      entries := Pushed(entries, cur);
      payload := payload[cur := item];
      live := [cur] + live;
      if dohash {
        ghost var b, h := Buckets(links, shape), hash(item);
        InsertHashIndex(cur);
        InsertIndexes(data, b, before, cur, item, h, Buckets(links, shape));
      }
    }

    /** A hit is where the LRU scan finds it, whichever way it was found; a miss is a miss. */
    lemma HitPosition(cur: int, wanted: T)
      requires Valid()
      requires cur != NIL ==> cur in live && eq(payload[cur], wanted)
      requires cur == NIL ==> forall e :: e in live ==> !eq(payload[e], wanted)
      ensures Position(Contents(), wanted, eq) == if cur == NIL then |live| else IndexOf(live, cur)
    {
      hide Indexes, Listed, IndexOf, Position;
      var c, k := Contents(), Position(Contents(), wanted, eq);
      LiveNoDup(entries, live, free);
      assert forall i :: 0 <= i < |live| ==> live[i] in live && c[i] == payload[live[i]];
      if cur != NIL {
        assert c[IndexOf(live, cur)] == payload[cur];
        assert live[k] == cur by { assert eq(payload[live[k]], payload[cur]); }
      }
    }

    lemma FetchItems(cur: int, wanted: T)
      requires Valid() && (cur != NIL ==> cur in live)
      requires Position(Contents(), wanted, eq) == if cur == NIL then |live| else IndexOf(live, cur)
      ensures InRange(if cur == NIL then live else [cur] + Without(live, IndexOf(live, cur)), free)
      ensures Items(if cur == NIL then live else [cur] + Without(live, IndexOf(live, cur)), payload)
              == AfterFetch(Contents(), wanted, eq)
    {
      hide Indexes, Listed, IndexOf, Position, Laws, Distinct;
      if cur != NIL {
        var i := IndexOf(live, cur);
        var r := [cur] + Without(live, i);
        assert forall j :: 0 < j < |r| ==> r[j] == live[if j - 1 < i then j - 1 else j];
        assert Items(r, payload) == ToFront(Contents(), i);
      }
    }

    /** ntfs_enter_cache: a present item is left where it is; a new one takes a free entry or,
        when there is none, the least recently used one. */
    method Enter(item: T) returns (cur: int)
      requires Valid()
      modifies this
      ensures Valid() && dohash == old(dohash)
      ensures cur in live && eq(payload[cur], item)
      ensures Contents() == AfterEnter(old(Contents()), item, count, eq)
    {
      hide Indexes, Listed, Position, Laws, Distinct;
      cur := Find(item);
      ghost var before, data := live, payload;
      HitPosition(cur, item);
      if cur == NIL {
        if entries.free != NIL {
          FreeKnown(entries, live, free);
          cur := TakeFree();
        } else {
          FreeKnown(entries, live, free);
          cur := EvictOldest();
        }
        ghost var rest := live;
        Install(cur, item);
        NewItems(rest, data, cur, item);
        assert live[0] in live;
        assert Items(rest, data) == Items(before, data)[..|rest|];
      }
      writeCount := writeCount + 1;
    }

    /** Entries of s whose item matches. */
    ghost predicate Gone(hit: T -> bool, e: int)
      reads `payload
    {
      0 <= e < |payload| && hit(payload[e])
    }

    /** Invalidation under way: the entries dropped so far are dead, all of them matching. */
    ghost predicate Purging(live0: seq<int>, dead: set<int>, hit: T -> bool)
      reads `payload, `live
    {
      live == Keep(live0, dead) && forall e :: e in dead ==> e in live0 && Gone(hit, e)
    }

    lemma Purged(live0: seq<int>, dead: set<int>, hit: T -> bool)
      requires Purging(live0, dead, hit) && forall e :: e in live ==> !Gone(hit, e)
      ensures live == Kept(live0, payload, hit)
    {
      var all := set e | e in live0 && 0 <= e < |payload| && hit(payload[e]);
      forall e ensures e in all <==> e in dead {
        assert e in live <==> e in live0 && e !in dead;
        if e in dead { assert Gone(hit, e); }
        if e in all { assert Gone(hit, e); }
      }
      assert all == dead;
    }

    /** One more matching entry goes. */
    method Purge(current: int, ghost live0: seq<int>, ghost dead: set<int>, hit: T -> bool) returns (ghost j: nat)
      requires Valid() && Purging(live0, dead, hit) && NoDup(live0) && current in live && Gone(hit, current)
      modifies this
      ensures Valid() && dohash == old(dohash) && payload == old(payload)
      ensures Purging(live0, dead + {current}, hit) && |live| == old(|live|) - 1
      ensures live == Without(old(live), IndexOf(old(live), current))
      ensures dohash ==> var h := hash(payload[current]);
                         && j < |old(shape).chains[h]| && shape.chains[h] == Without(old(shape).chains[h], j)
                         && old(Buckets(links, shape))[h][j] == current
                         && Buckets(links, shape)[h] == Without(old(Buckets(links, shape))[h], j)
    {
      hide Valid, Laws, WellLinked, Buckets, NoDup, IndexOf, Keep;
      KeepMembers(live0, dead);
      KeepDrop(live0, dead, current);
      j := Remove(current);
    }

    /** Chain h holds the unmatched entries kept, then rest, whose first link is link. */
    ghost predicate AtLink(h: int, kept: seq<int>, rest: seq<int>, link: int, hit: T -> bool)
      reads `payload, `links, `shape, `dohash
      requires WellLinked(links, shape) && 0 <= h < |shape.chains|
    {
      && Buckets(links, shape)[h] == kept + rest && link == At(shape.chains[h], |kept|)
      && |shape.chains[h]| == |kept| + |rest|
      && forall e :: e in kept ==> !Gone(hit, e)
    }

    /** One link of the chain walk: pass an unmatched entry, or take a matching one out. */
    method WalkLink(h: int, link: int, hit: T -> bool, ghost kept: seq<int>, ghost rest: seq<int>,
                    ghost live0: seq<int>, ghost dead: set<int>)
      returns (next: int, taken: bool, ghost kept': seq<int>, ghost dead': set<int>)
      requires Valid() && dohash && 0 <= h < maxHash && NoDup(live0) && link != NIL
      requires AtLink(h, kept, rest, link, hit) && Purging(live0, dead, hit)
      modifies this
      ensures Valid() && dohash && payload == old(payload) && rest != []
      ensures AtLink(h, kept', rest[1..], next, hit) && Purging(live0, dead', hit)
      ensures |live| == old(|live|) - (if taken then 1 else 0)
    {
      hide Laws, Listed, WellLinked, Buckets, Distinct, NoDup, IndexOf, Keep, Purging;
      ghost var bucket, chain := Buckets(links, shape)[h], shape.chains[h];
      ChainStep(links, shape, h, |kept|);
      Sizes(links, shape);
      assert BucketOk(bucket, live, payload, h);
      assert rest != [] && bucket[|kept|] == rest[0] && bucket[|kept|] in bucket;
      var current := links.entry[link];
      next, taken, kept', dead' := links.next[link], false, kept, dead;
      if hit(payload[current]) {
        taken := true;
        ghost var j := Purge(current, live0, dead, hit);
        UniquePlace(bucket, j, |kept|);
        AtWithout(chain, |kept|, |kept|);
        assert Without(kept + rest, |kept|) == kept + rest[1..];
        dead' := dead + {current};
      } else {
        assert kept + rest == (kept + [rest[0]]) + rest[1..];
        kept' := kept + [rest[0]];
      }
    }

    /** Remove the matching entries of the chain of h, which holds all that can match. */
    method InvalidateChain(hit: T -> bool, h: int) returns (n: nat)
      requires Valid() && dohash && 0 <= h < maxHash
      requires forall a :: hit(a) ==> hash(a) == h
      modifies this
      ensures Valid() && dohash && payload == old(payload)
      ensures live == Kept(old(live), payload, hit) && n == old(|live|) - |live|
    {
      hide Laws, Listed, WellLinked, Buckets, Distinct, NoDup, Keep, Purging, Kept;
      n := 0;
      ghost var live0 := live;
      ghost var kept: seq<int>, rest, dead: set<int> := [], Buckets(links, shape)[h], {};
      Sizes(links, shape);
      ChainStep(links, shape, h, 0);
      LiveNoDup(entries, live, free);
      var link := links.first[h];
      StartPurge(hit);
      assert kept + rest == rest;
      while link != NIL
        invariant Valid() && dohash && payload == old(payload)
        invariant AtLink(h, kept, rest, link, hit) && Purging(live0, dead, hit)
        invariant n == |live0| - |live|
        decreases |rest|
      {
        var taken;
        link, taken, kept, dead := WalkLink(h, link, hit, kept, rest, live0, dead);
        rest := rest[1..];
        n := if taken then n + 1 else n;
      }
      ChainStep(links, shape, h, |kept|);
      assert BucketOk(Buckets(links, shape)[h], live, payload, h);
      Purged(live0, dead, hit);
    }

    lemma StartPurge(hit: T -> bool)
      ensures Purging(live, {}, hit)
    {
      KeepNone(live);
    }

    /** The LRU list holds the unmatched entries kept, then rest, which starts at cur. */
    ghost predicate AtEntry(kept: seq<int>, rest: seq<int>, cur: int, hit: T -> bool)
      reads `payload, `live
    {
      live == kept + rest && cur == At(live, |kept|) && forall e :: e in kept ==> !Gone(hit, e)
    }

    /** One entry of the list walk. */
    method WalkEntry(cur: int, hit: T -> bool, ghost kept: seq<int>, ghost rest: seq<int>, ghost live0: seq<int>,
                     ghost dead: set<int>)
      returns (next: int, taken: bool, ghost kept': seq<int>, ghost dead': set<int>)
      requires Valid() && NoDup(live0) && cur != NIL
      requires AtEntry(kept, rest, cur, hit) && Purging(live0, dead, hit)
      modifies this
      ensures Valid() && dohash == old(dohash) && payload == old(payload) && rest != []
      ensures AtEntry(kept', rest[1..], next, hit) && Purging(live0, dead', hit)
      ensures |live| == old(|live|) - (if taken then 1 else 0)
    {
      hide Laws, Listed, WellLinked, Buckets, Distinct, NoDup, IndexOf, Keep, Purging, Indexes;
      ghost var before := live;
      ListStep(entries, live, free, |kept|);
      LiveNoDup(entries, live, free);
      assert rest != [] && live[|kept|] == rest[0] && live[|kept|] in live;
      next, taken, kept', dead' := entries.next[cur], false, kept, dead;
      if hit(payload[cur]) {
        taken := true;
        ghost var j := Purge(cur, live0, dead, hit);
        UniquePlace(before, IndexOf(before, cur), |kept|);
        AtWithout(before, |kept|, |kept|);
        assert Without(kept + rest, |kept|) == kept + rest[1..];
        dead' := dead + {cur};
      } else {
        assert kept + rest == (kept + [rest[0]]) + rest[1..];
        kept' := kept + [rest[0]];
      }
    }

    /** Remove the matching entries by scanning the whole LRU list. */
    method InvalidateList(hit: T -> bool) returns (n: nat)
      requires Valid()
      modifies this
      ensures Valid() && dohash == old(dohash) && payload == old(payload)
      ensures live == Kept(old(live), payload, hit) && n == old(|live|) - |live|
    {
      hide Laws, Listed, WellLinked, Buckets, Distinct, NoDup, Keep, Purging, Kept, Indexes;
      n := 0;
      ghost var live0 := live;
      ghost var kept: seq<int>, rest, dead: set<int> := [], live, {};
      ListStep(entries, live, free, 0);
      LiveNoDup(entries, live, free);
      var cur := entries.first;
      StartPurge(hit);
      assert kept + rest == rest;
      while cur != NIL
        invariant Valid() && dohash == old(dohash) && payload == old(payload)
        invariant AtEntry(kept, rest, cur, hit) && Purging(live0, dead, hit)
        invariant n == |live0| - |live|
        decreases |rest|
      {
        var taken;
        cur, taken, kept, dead := WalkEntry(cur, hit, kept, rest, live0, dead);
        rest := rest[1..];
        n := if taken then n + 1 else n;
      }
      ListStep(entries, live, free, |kept|);
      assert live == kept;
      Purged(live0, dead, hit);
    }

    /** ntfs_invalidate_cache: on the hash path and on the scanning path alike, exactly the
        matching entries go, and their number is returned. */
    method Invalidate(item: T, compare: (T, T) -> bool, noHash: bool) returns (n: nat)
      requires Valid()
      requires noHash || forall a :: compare(a, item) ==> hash(a) == hash(item)
      modifies this
      ensures Valid() && dohash == old(dohash) && payload == old(payload)
      ensures n == old(|live|) - |live|
      ensures live == Kept(old(live), payload, a => compare(a, item))
      ensures Contents() == Filtered(old(Contents()), a => compare(a, item))
    {
      hide Listed, WellLinked, Buckets, Distinct, NoDup, Keep, Purging, Kept, Indexes;
      var hit := a => compare(a, item);
      ItemsKept(live, payload, hit);
      if !noHash && dohash {
        n := InvalidateChain(hit, hash(item));
      } else {
        n := InvalidateList(hit);
      }
    }

    /** ntfs_create_cache: every entry and every link is free. */
    constructor (count: nat, maxHash: nat, hashing: bool, eq: (T, T) -> bool, hash: T -> int, blank: T)
      requires count >= 2
      requires (forall a :: eq(a, a)) && (forall a, b :: eq(a, b) ==> eq(b, a) && hash(a) == hash(b))
      requires forall a, b, c :: eq(a, b) && eq(b, c) ==> eq(a, c)
      requires forall a :: 0 <= hash(a) < maxHash
      ensures Valid() && Contents() == [] && dohash == hashing
      ensures this.count == count && this.eq == eq && this.hash == hash
    {
      this.count, this.maxHash, this.eq, this.hash, dohash := count, maxHash, eq, hash, hashing;
      var order := seq(count, i => i);
      var next := seq(count, i => if i + 1 < count then i + 1 else NIL);
      entries := Entries(next, seq(count, _ => NIL), NIL, NIL, 0);
      links := Links(next, seq(count, _ => NIL), seq(maxHash, _ => NIL), 0);
      payload := seq(count, _ => blank);
      readCount, writeCount, hitCount := 0, 0, 0;
      live, free := [], order;
      shape := Shape(seq(maxHash, _ => []), order, seq(count, _ => NIL));
    }
  }

  /** An operation as callers may issue it: a comparison used with the hash agrees with it. */
  ghost predicate OpOk<T(!new)>(op: Op<T>, hash: T -> int) {
    op.Invalidate? ==> op.noHash || forall a :: op.compare(a, op.key) ==> hash(a) == hash(op.key)
  }

  /** Any run on a new cache: the linked structure stays sound, hashing is never dropped, and the
      contents are those of the abstract machine. */
  method Execute<T(!new, 0)>(ops: seq<Op<T>>, count: nat, maxHash: nat, hashing: bool,
                             eq: (T, T) -> bool, hash: T -> int, blank: T)
    returns (c: Cache<T>)
    requires count >= 2 && forall k :: 0 <= k < |ops| ==> OpOk(ops[k], hash)
    requires (forall a :: eq(a, a)) && (forall a, b :: eq(a, b) ==> eq(b, a) && hash(a) == hash(b))
    requires forall a, b, c :: eq(a, b) && eq(b, c) ==> eq(a, c)
    requires forall a :: 0 <= hash(a) < maxHash
    ensures c.Valid() && c.dohash == hashing && c.Contents() == Run(ops, count, eq)
  {
    hide Cache.Laws, Cache.Indexes, Cache.Distinct, Listed, AfterFetch, AfterEnter, Filtered, Kept, IndexOf;
    c := new Cache<T>(count, maxHash, hashing, eq, hash, blank);
    var k := 0;
    while k < |ops|
      invariant 0 <= k <= |ops| && fresh(c) && c.Valid() && c.dohash == hashing
      invariant c.count == count && c.eq == eq && c.hash == hash
      invariant c.Contents() == Run(ops[..k], count, eq)
    {
      assert ops[..k + 1][..k] == ops[..k] && OpOk(ops[k], hash);
      match ops[k] {
        case Fetch(w) => var _ := c.Fetch(w);
        case Enter(item) => var _ := c.Enter(item);
        case Invalidate(key, compare, noHash) => var _ := c.Invalidate(key, compare, noHash);
        case Remove(w) => c.FetchAndRemove(w);
      }
      k := k + 1;
    }
    assert ops[..k] == ops;
  }
}

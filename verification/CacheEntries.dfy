/** The entries of an LRU cache: the doubly linked list of live entries, most recent first,
    and the list of free ones. */
module CacheEntries {
  import opened LinkedLists

  datatype Entries = Entries(next: seq<int>, prev: seq<int>, first: int, last: int, free: int)

  ghost predicate Apart(a: seq<int>, b: seq<int>) {
    forall k :: 0 <= k < |a| ==> a[k] !in b
  }

  ghost predicate Listed(x: Entries, live: seq<int>, free: seq<int>) {
    && |x.next| == |x.prev|
    && IsList(x.next, x.first, live) && IsBack(x.prev, x.last, live) && NoDup(live)
    && IsList(x.next, x.free, free) && NoDup(free)
    && Apart(live, free)
  }

  /** Take cur out of the live list. */
  function Unlinked(x: Entries, cur: int): Entries
    requires |x.next| == |x.prev| && 0 <= cur < |x.next|
    requires -1 <= x.next[cur] < |x.next| && -1 <= x.prev[cur] < |x.next|
  {
    var n, p := x.next[cur], x.prev[cur];
    Entries(if p == NIL then x.next else x.next[p := n],
            if n == NIL then x.prev else x.prev[n := p],
            if p == NIL then n else x.first,
            if n == NIL then p else x.last,
            x.free)
  }

  lemma Neighbours(x: Entries, live: seq<int>, free: seq<int>, k: nat)
    requires Listed(x, live, free) && k < |live|
    ensures 0 <= live[k] < |x.next| == |x.prev|
    ensures x.next[live[k]] == At(live, k + 1) && x.prev[live[k]] == At(live, k - 1)
    ensures -1 <= At(live, k + 1) < |x.next| && -1 <= At(live, k - 1) < |x.next|
    ensures At(live, k - 1) == NIL <==> k == 0
    ensures At(live, k + 1) == NIL <==> k + 1 == |live|
  {
    hide NoDup, Apart;
    FirstLink(x.next, x.first, live, k);
    LastLink(x.prev, x.last, live, k);
    if k > 0 { FirstLink(x.next, x.first, live, k - 1); }
    if k + 1 < |live| { FirstLink(x.next, x.first, live, k + 1); }
  }

  lemma AtValue(s: seq<int>, k: int)
    ensures 0 <= k < |s| ==> At(s, k) == s[k]
  {
  }

  lemma NodesInRange(x: Entries, live: seq<int>, free: seq<int>)
    requires Listed(x, live, free)
    ensures forall i :: 0 <= i < |live| ==> 0 <= live[i] < |x.next|
    ensures forall i :: 0 <= i < |free| ==> 0 <= free[i] < |x.next|
  {
    hide At, NoDup;
  }

  lemma WithoutApart(a: seq<int>, b: seq<int>, k: nat)
    requires Apart(a, b) && k < |a|
    ensures Apart(Without(a, k), b)
  {
    var r := Without(a, k);
    assert forall i :: 0 <= i < |r| ==> r[i] == a[if i < k then i else i + 1];
  }

  lemma UnlinkKeeps(x: Entries, live: seq<int>, free: seq<int>, k: nat)
    requires Listed(x, live, free) && k < |live|
    ensures 0 <= live[k] < |x.next| && -1 <= x.next[live[k]] < |x.next| && -1 <= x.prev[live[k]] < |x.next|
    ensures Listed(Unlinked(x, live[k]), Without(live, k), free)
    ensures live[k] !in Without(live, k) && live[k] !in free
  {
    hide IsList, IsBack, NoDup, At;
    Neighbours(x, live, free, k);
    NodesInRange(x, live, free);
    UnlinkNextList(x.next, x.first, live, k);
    UnlinkPrevList(x.prev, x.last, live, k);
    WithoutNoDup(live, k);
    WithoutApart(live, free, k);
    AtValue(live, k - 1);
    AtValue(live, k + 1);
    if k > 0 {
      ListElsewhere(x.next, x.free, free, live[k - 1], x.next[live[k]]);
    }
  }

  /** Put e in front of the live list. */
  function Pushed(x: Entries, e: int): Entries
    requires |x.next| == |x.prev| && 0 <= e < |x.next| && -1 <= x.first < |x.next|
  {
    var p := x.prev[e := NIL];
    Entries(x.next[e := x.first], if x.first == NIL then p else p[x.first := e], e,
            if x.last == NIL then e else x.last, x.free)
  }

  lemma Ends(x: Entries, live: seq<int>, free: seq<int>)
    requires Listed(x, live, free)
    ensures -1 <= x.first < |x.next| && -1 <= x.last < |x.next| == |x.prev|
    ensures live == [] <==> x.first == NIL
    ensures live == [] <==> x.last == NIL
    ensures live != [] ==> x.first == live[0] && x.last == live[|live| - 1]
    ensures free == [] <==> x.free == NIL
    ensures free != [] ==> x.free == free[0] && 0 <= x.free < |x.next|
  {
    hide NoDup, Apart;
    if live != [] {
      FirstLink(x.next, x.first, live, 0);
      LastLink(x.prev, x.last, live, |live| - 1);
    }
    if free != [] { FirstLink(x.next, x.free, free, 0); }
  }

  lemma PushKeeps(x: Entries, live: seq<int>, free: seq<int>, e: int)
    requires Listed(x, live, free) && 0 <= e < |x.next| && e !in live && e !in free
    ensures -1 <= x.first < |x.next|
    ensures Listed(Pushed(x, e), [e] + live, free)
  {
    hide IsList, IsBack, NoDup, At;
    Ends(x, live, free);
    PushNextList(x.next, x.first, live, e);
    PushPrevList(x.prev, x.last, live, e);
    PushNoDup(live, e);
    ListElsewhere(x.next, x.free, free, e, x.first);
  }

  function FreePopped(x: Entries): Entries
    requires 0 <= x.free < |x.next|
  {
    x.(free := x.next[x.free])
  }

  lemma PopKeeps(x: Entries, live: seq<int>, free: seq<int>)
    requires Listed(x, live, free) && free != []
    ensures 0 <= x.free < |x.next| && x.free == free[0]
    ensures Listed(FreePopped(x), live, free[1..])
    ensures free[0] !in live && free[0] !in free[1..]
  {
    hide IsList, IsBack, NoDup, At;
    Ends(x, live, free);
    UnlinkNextList(x.next, x.free, free, 0);
    WithoutNoDup(free, 0);
    assert Without(free, 0) == free[1..];
  }

  function FreePushed(x: Entries, e: int): Entries
    requires 0 <= e < |x.next|
  {
    x.(next := x.next[e := x.free], free := e)
  }

  lemma FreeKeeps(x: Entries, live: seq<int>, free: seq<int>, e: int)
    requires Listed(x, live, free) && 0 <= e < |x.next| && e !in live && e !in free
    ensures Listed(FreePushed(x, e), live, [e] + free)
  {
    hide IsList, IsBack, NoDup, At;
    ListElsewhere(x.next, x.first, live, e, x.free);
    PushNextList(x.next, x.free, free, e);
    PushNoDup(free, e);
  }
}

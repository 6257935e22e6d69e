/** Singly and doubly linked lists held in index arrays; -1 stands for a null link. */
module LinkedLists {
  const NIL := -1

  /** Element k of s, or NIL outside s. */
  function At(s: seq<int>, k: int): int {
    if 0 <= k < |s| then s[k] else NIL
  }

  /** Following next from first visits exactly the indices of s, in order. */
  ghost predicate IsList(next: seq<int>, first: int, s: seq<int>) {
    && first == At(s, 0)
    && (forall k :: 0 <= k < |s| ==> 0 <= s[k] < |next|)
    && forall k {:trigger next[s[k]]} :: 0 <= k < |s| ==> next[s[k]] == At(s, k + 1)
  }

  /** Following prev from last visits s backwards. */
  ghost predicate IsBack(prev: seq<int>, last: int, s: seq<int>) {
    && last == At(s, |s| - 1)
    && (forall k :: 0 <= k < |s| ==> 0 <= s[k] < |prev|)
    && forall k {:trigger prev[s[k]]} :: 0 <= k < |s| ==> prev[s[k]] == At(s, k - 1)
  }

  ghost predicate NoDup(s: seq<int>) {
    forall i, j :: 0 <= i < j < |s| ==> s[i] != s[j]
  }

  function Without<T>(s: seq<T>, k: nat): (r: seq<T>)
    requires k < |s|
    ensures |r| == |s| - 1
  {
    s[..k] + s[k + 1..]
  }

  lemma AtWithout(s: seq<int>, k: nat, i: int)
    requires k < |s|
    ensures At(Without(s, k), i) == if i < k then At(s, i) else At(s, i + 1)
  {
  }

  lemma AtPush(s: seq<int>, e: int, i: int)
    ensures At([e] + s, i) == if i == 0 then e else At(s, i - 1)
  {
  }

  lemma WithoutNoDup(s: seq<int>, k: nat)
    requires NoDup(s) && k < |s|
    ensures NoDup(Without(s, k)) && s[k] !in Without(s, k)
    ensures forall x :: x in s && x != s[k] ==> x in Without(s, k)
    ensures forall x :: x in Without(s, k) ==> x in s
  {
    var r := Without(s, k);
    forall x | x in s && x != s[k] ensures x in r {
      var i :| 0 <= i < |s| && s[i] == x;
      assert r[if i < k then i else i - 1] == x;
    }
  }

  /** Take index k out of a forward list by redirecting its predecessor. */
  function UnlinkNext(next: seq<int>, s: seq<int>, k: nat): (r: seq<int>)
    requires k < |s| && forall i :: 0 <= i < |s| ==> 0 <= s[i] < |next|
    ensures |r| == |next|
  {
    if k == 0 then next else next[s[k - 1] := next[s[k]]]
  }

  lemma FirstLink(next: seq<int>, first: int, s: seq<int>, k: nat)
    requires IsList(next, first, s) && k < |s|
    ensures next[s[k]] == At(s, k + 1) && first == At(s, 0)
  {
  }

  lemma UnlinkNextList(next: seq<int>, first: int, s: seq<int>, k: nat)
    requires IsList(next, first, s) && NoDup(s) && k < |s|
    ensures IsList(UnlinkNext(next, s, k), if k == 0 then next[s[0]] else first, Without(s, k))
  {
    hide At;
    var r, n := Without(s, k), UnlinkNext(next, s, k);
    AtWithout(s, k, 0);
    FirstLink(next, first, s, k);
    forall i | 0 <= i < |r|
      ensures 0 <= r[i] < |n| && n[r[i]] == At(r, i + 1)
    {
      var j := if i < k then i else i + 1;
      assert r[i] == s[j] && next[s[j]] == At(s, j + 1);
      AtWithout(s, k, i + 1);
    }
  }

  lemma LastLink(prev: seq<int>, last: int, s: seq<int>, k: nat)
    requires IsBack(prev, last, s) && k < |s|
    ensures prev[s[k]] == At(s, k - 1) && last == At(s, |s| - 1)
  {
  }

  function UnlinkPrev(prev: seq<int>, s: seq<int>, k: nat): (r: seq<int>)
    requires k < |s| && forall i :: 0 <= i < |s| ==> 0 <= s[i] < |prev|
    ensures |r| == |prev|
  {
    if k + 1 == |s| then prev else prev[s[k + 1] := prev[s[k]]]
  }

  lemma UnlinkPrevList(prev: seq<int>, last: int, s: seq<int>, k: nat)
    requires IsBack(prev, last, s) && NoDup(s) && k < |s|
    ensures IsBack(UnlinkPrev(prev, s, k), if k + 1 == |s| then prev[s[k]] else last, Without(s, k))
  {
    hide At;
    var r, p := Without(s, k), UnlinkPrev(prev, s, k);
    AtWithout(s, k, |s| - 2);
    LastLink(prev, last, s, k);
    forall i | 0 <= i < |r|
      ensures 0 <= r[i] < |p| && p[r[i]] == At(r, i - 1)
    {
      var j := if i < k then i else i + 1;
      assert r[i] == s[j] && prev[s[j]] == At(s, j - 1);
      AtWithout(s, k, i - 1);
    }
  }

  lemma PushNextList(next: seq<int>, first: int, s: seq<int>, e: int)
    requires IsList(next, first, s) && 0 <= e < |next| && e !in s
    ensures IsList(next[e := first], e, [e] + s)
  {
    var r, n := [e] + s, next[e := first];
    forall i | 0 <= i < |r|
      ensures 0 <= r[i] < |n| && n[r[i]] == At(r, i + 1)
    {
      if i > 0 { assert r[i] == s[i - 1] && next[s[i - 1]] == At(s, i); }
    }
  }

  lemma AtNil(s: seq<int>)
    ensures At(s, -1) == NIL && At(s, |s|) == NIL
    ensures s != [] ==> At(s, 0) == s[0] && At(s, |s| - 1) == s[|s| - 1]
  {
  }

  lemma PushPrevList(prev: seq<int>, last: int, s: seq<int>, e: int)
    requires IsBack(prev, last, s) && NoDup(s) && 0 <= e < |prev| && e !in s
    ensures var p := prev[e := NIL];
            IsBack(if s == [] then p else p[s[0] := e], if s == [] then e else last, [e] + s)
  {
    hide At;
    var r := [e] + s;
    AtPush(s, e, 0);
    AtPush(s, e, |s|);
    AtNil(s);
    var p := if s == [] then prev[e := NIL] else prev[e := NIL][s[0] := e];
    forall i | 0 <= i < |r|
      ensures 0 <= r[i] < |p| && p[r[i]] == At(r, i - 1)
    {
      AtPush(s, e, i - 1);
      AtNil(r);
      if i > 0 { assert r[i] == s[i - 1] && prev[s[i - 1]] == At(s, i - 2); }
    }
  }

  /** Writing a cell that the list does not visit leaves the list alone. */
  lemma ListElsewhere(next: seq<int>, first: int, s: seq<int>, e: int, v: int)
    requires IsList(next, first, s) && 0 <= e < |next| && e !in s
    ensures IsList(next[e := v], first, s)
  {
  }

  lemma PushNoDup(s: seq<int>, e: int)
    requires NoDup(s) && e !in s
    ensures NoDup([e] + s)
  {
  }
}

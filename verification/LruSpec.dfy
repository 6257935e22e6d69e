/** The LRU cache as a machine on sequences of items, most recently used first, and what
    "least recently used" means over whole runs. */
module LruSpec {
  import opened LinkedLists

  /** First position of an item equal to w, or |c|. */
  ghost function Position<T(!new)>(c: seq<T>, w: T, eq: (T, T) -> bool): (k: nat)
    ensures k <= |c|
    ensures k < |c| ==> eq(c[k], w)
    ensures forall i :: 0 <= i < k ==> !eq(c[i], w)
  {
    if c == [] || eq(c[0], w) then 0
    else
      var k := 1 + Position(c[1..], w, eq);
      assert forall i :: 0 < i < k ==> c[i] == c[1..][i - 1];
      k
  }

  ghost function ToFront<T>(c: seq<T>, k: nat): (r: seq<T>)
    requires k < |c|
    ensures |r| == |c|
  {
    [c[k]] + Without(c, k)
  }

  ghost function AfterFetch<T(!new)>(c: seq<T>, w: T, eq: (T, T) -> bool): seq<T> {
    var k := Position(c, w, eq);
    if k < |c| then ToFront(c, k) else c
  }

  /** Entering a present item changes nothing; a full cache gives up its last item. */
  ghost function AfterEnter<T(!new)>(c: seq<T>, item: T, cap: nat, eq: (T, T) -> bool): seq<T> {
    if Position(c, item, eq) < |c| then c
    else if |c| < cap || c == [] then [item] + c
    else [item] + c[..|c| - 1]
  }

  /** An item equal to w leaves. */
  ghost function AfterRemove<T(!new)>(c: seq<T>, w: T, eq: (T, T) -> bool): seq<T> {
    var k := Position(c, w, eq);
    if k < |c| then Without(c, k) else c
  }

  /** The items that do not match. */
  ghost function Filtered<T(!new)>(c: seq<T>, gone: T -> bool): (r: seq<T>)
    ensures forall x :: x in r <==> x in c && !gone(x)
    ensures |r| <= |c|
  {
    if c == [] then []
    else
      var rest := Filtered(c[1..], gone);
      if gone(c[0]) then rest else [c[0]] + rest
  }

  // ---- whole runs ----

  datatype Op<!T> =
    | Fetch(wanted: T)
    | Enter(item: T)
    | Invalidate(key: T, compare: (T, T) -> bool, noHash: bool)
    | Remove(wanted: T)

  ghost function Step<T(!new)>(c: seq<T>, op: Op<T>, cap: nat, eq: (T, T) -> bool): seq<T> {
    match op
    case Fetch(w) => AfterFetch(c, w, eq)
    case Enter(item) => AfterEnter(c, item, cap, eq)
    case Invalidate(key, compare, _) => Filtered(c, a => compare(a, key))
    case Remove(w) => AfterRemove(c, w, eq)
  }

  /** The cache after a run that starts empty. */
  ghost function Run<T(!new)>(ops: seq<Op<T>>, cap: nat, eq: (T, T) -> bool): seq<T>
    decreases |ops|
  {
    if ops == [] then [] else Step(Run(ops[..|ops| - 1], cap, eq), ops[|ops| - 1], cap, eq)
  }

  /** Does this operation on cache c use x? A fetch that hits it does, and so does the entering
      that brings it in; entering it while it is present does not. */
  ghost predicate Uses<T(!new)>(c: seq<T>, op: Op<T>, x: T, eq: (T, T) -> bool) {
    match op
    case Fetch(w) => eq(x, w) && Position(c, w, eq) < |c|
    case Enter(item) => eq(x, item) && Position(c, item, eq) == |c|
    case Invalidate(_, _, _) => false
    case Remove(_) => false
  }

  /** The number of the last operation of the run that used x, or -1. */
  ghost function LastUse<T(!new)>(ops: seq<Op<T>>, x: T, cap: nat, eq: (T, T) -> bool): (t: int)
    ensures -1 <= t < |ops|
    decreases |ops|
  {
    if ops == [] then -1
    else
      var before := ops[..|ops| - 1];
      if Uses(Run(before, cap, eq), ops[|ops| - 1], x, eq) then |ops| - 1 else LastUse(before, x, cap, eq)
  }

  ghost predicate Equivalence<T(!new)>(eq: (T, T) -> bool) {
    && (forall a :: eq(a, a)) && (forall a, b :: eq(a, b) ==> eq(b, a))
    && forall a, b, c :: eq(a, b) && eq(b, c) ==> eq(a, c)
  }

  ghost predicate Distinct<T(!new)>(c: seq<T>, eq: (T, T) -> bool) {
    forall i, j :: 0 <= i < j < |c| ==> !eq(c[i], c[j])
  }

  /** Later in the list means used longer ago. */
  ghost predicate Ordered<T(!new)>(c: seq<T>, use: T -> int) {
    forall i, j :: 0 <= i < j < |c| ==> use(c[i]) > use(c[j])
  }

  lemma TailOrdered<T(!new)>(c: seq<T>, use: T -> int, eq: (T, T) -> bool)
    requires Ordered(c, use) && Distinct(c, eq) && c != []
    ensures Ordered(c[1..], use) && Distinct(c[1..], eq)
    ensures forall x :: x in c[1..] ==> use(c[0]) > use(x) && !eq(c[0], x)
  {
    forall x | x in c[1..] ensures use(c[0]) > use(x) && !eq(c[0], x) {
      var i :| 0 <= i < |c[1..]| && c[1..][i] == x;
      assert c[i + 1] == x;
    }
  }

  lemma ConsOrdered<T(!new)>(x: T, c: seq<T>, use: T -> int, eq: (T, T) -> bool)
    requires Ordered(c, use) && Distinct(c, eq) && forall y :: y in c ==> use(x) > use(y) && !eq(x, y)
    ensures Ordered([x] + c, use) && Distinct([x] + c, eq)
  {
  }

  lemma {:induction false} FilteredOrdered<T(!new)>(c: seq<T>, gone: T -> bool, use: T -> int, eq: (T, T) -> bool)
    requires Ordered(c, use) && Distinct(c, eq)
    ensures Ordered(Filtered(c, gone), use) && Distinct(Filtered(c, gone), eq)
    decreases |c|
  {
    if c != [] {
      hide Ordered, Distinct;
      TailOrdered(c, use, eq);
      FilteredOrdered(c[1..], gone, use, eq);
      if !gone(c[0]) {
        ConsOrdered(c[0], Filtered(c[1..], gone), use, eq);
      }
    }
  }

  /** Putting a newly used item first keeps the order. */
  lemma FrontOrdered<T(!new)>(x: T, c: seq<T>, use: T -> int, use': T -> int, eq: (T, T) -> bool)
    requires Ordered(c, use) && Distinct(c, eq)
    requires forall i :: 0 <= i < |c| ==> use'(c[i]) == use(c[i]) && use'(x) > use(c[i]) && !eq(x, c[i])
    ensures Ordered([x] + c, use') && Distinct([x] + c, eq)
  {
  }

  lemma WithoutOrdered<T(!new)>(c: seq<T>, k: nat, use: T -> int, eq: (T, T) -> bool)
    requires Ordered(c, use) && Distinct(c, eq) && k < |c|
    ensures Ordered(Without(c, k), use) && Distinct(Without(c, k), eq)
    ensures forall i :: 0 <= i < |c| - 1 ==> Without(c, k)[i] == c[if i < k then i else i + 1]
  {
    var r := Without(c, k);
    assert forall i :: 0 <= i < |r| ==> r[i] == c[if i < k then i else i + 1];
  }

  /** One step keeps the order, given that the new use times follow Uses. */
  lemma StepOrdered<T(!new)>(c: seq<T>, op: Op<T>, cap: nat, eq: (T, T) -> bool, use: T -> int, use': T -> int,
                             now: int)
    requires Equivalence(eq) && Ordered(c, use) && Distinct(c, eq)
    requires forall x :: use(x) < now
    requires forall x :: use'(x) == if Uses(c, op, x, eq) then now else use(x)
    ensures Ordered(Step(c, op, cap, eq), use') && Distinct(Step(c, op, cap, eq), eq)
  {
    hide Position, Filtered;
    match op
    case Fetch(w) =>
      var k := Position(c, w, eq);
      if k < |c| {
        WithoutOrdered(c, k, use, eq);
        FrontOrdered(c[k], Without(c, k), use, use', eq);
      }
    case Enter(item) =>
      if Position(c, item, eq) == |c| {
        var rest := if |c| < cap || c == [] then c else c[..|c| - 1];
        assert forall i :: 0 <= i < |c| ==> !eq(item, c[i]);
        FrontOrdered(item, rest, use, use', eq);
      }
    case Invalidate(key, compare, _) =>
      FilteredOrdered(c, a => compare(a, key), use, eq);
    case Remove(w) =>
      var k := Position(c, w, eq);
      if k < |c| {
        WithoutOrdered(c, k, use, eq);
      }
  }

  /** In every run the cache is ordered by last use, most recent first, without duplicates. */
  lemma {:induction false} RunOrdered<T(!new)>(ops: seq<Op<T>>, cap: nat, eq: (T, T) -> bool)
    requires Equivalence(eq)
    ensures Ordered(Run(ops, cap, eq), x => LastUse(ops, x, cap, eq)) && Distinct(Run(ops, cap, eq), eq)
    decreases |ops|
  {
    hide Step, Uses;
    if ops != [] {
      var before, op := ops[..|ops| - 1], ops[|ops| - 1];
      RunOrdered(before, cap, eq);
      StepOrdered(Run(before, cap, eq), op, cap, eq, x => LastUse(before, x, cap, eq), x => LastUse(ops, x, cap, eq),
                  |ops| - 1);
    }
  }

  /** What a full cache gives up on entering a new item is its least recently used one. */
  lemma EvictsOldest<T(!new)>(ops: seq<Op<T>>, item: T, cap: nat, eq: (T, T) -> bool)
    requires Equivalence(eq) && cap > 0 && |Run(ops, cap, eq)| == cap
    requires Position(Run(ops, cap, eq), item, eq) == cap
    ensures var c := Run(ops, cap, eq);
            && Run(ops + [Enter(item)], cap, eq) == [item] + c[..cap - 1]
            && forall i :: 0 <= i < cap - 1 ==> LastUse(ops, c[i], cap, eq) > LastUse(ops, c[cap - 1], cap, eq)
  {
    hide Position;
    RunOrdered(ops, cap, eq);
    var after := ops + [Enter(item)];
    assert after[..|after| - 1] == ops;
    var use := x => LastUse(ops, x, cap, eq);
    var c := Run(ops, cap, eq);
    forall i | 0 <= i < cap - 1 ensures LastUse(ops, c[i], cap, eq) > LastUse(ops, c[cap - 1], cap, eq) {
      assert use(c[i]) > use(c[cap - 1]);
    }
  }
}

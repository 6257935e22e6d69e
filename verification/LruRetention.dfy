/** Which items a run keeps: those among the most recently used, as many as the cache has room for. */
module LruRetention {
  import opened LinkedLists
  import opened LruSpec

  /** y is equal to one of the items of reps. */
  ghost predicate Among<T(!new)>(y: T, reps: seq<T>, eq: (T, T) -> bool) {
    exists i :: 0 <= i < |reps| && eq(y, reps[i])
  }

  /** There are no more different items than there are items to which each is equal. */
  lemma {:induction false} Pigeons<T(!new)>(d: seq<T>, reps: seq<T>, eq: (T, T) -> bool)
    requires Equivalence(eq) && Distinct(d, eq) && forall i :: 0 <= i < |d| ==> Among(d[i], reps, eq)
    ensures |d| <= |reps|
    decreases |d|
  {
    if d != [] {
      assert Among(d[0], reps, eq);
      var p :| 0 <= p < |reps| && eq(d[0], reps[p]);
      var rest, fewer := d[1..], Without(reps, p);
      forall i | 0 <= i < |rest| ensures Among(rest[i], fewer, eq) {
        assert rest[i] == d[i + 1] && Among(d[i + 1], reps, eq);
        var q :| 0 <= q < |reps| && eq(rest[i], reps[q]);
        assert q != p;
        assert fewer[if q < p then q else q - 1] == reps[q];
      }
      Pigeons(rest, fewer, eq);
    }
  }

  /** An item equal to x is at k, and those in front of it are among reps. */
  ghost predicate Held<T(!new)>(c: seq<T>, x: T, k: nat, reps: seq<T>, eq: (T, T) -> bool) {
    k < |c| && eq(c[k], x) && forall i :: 0 <= i < k ==> Among(c[i], reps, eq)
  }

  /** The operation does not take x away. */
  ghost predicate Spares<T(!new)>(op: Op<T>, x: T, eq: (T, T) -> bool) {
    match op
    case Fetch(_) => true
    case Enter(_) => true
    case Invalidate(key, compare, _) => forall y :: eq(y, x) ==> !compare(y, key)
    case Remove(w) => !eq(x, w)
  }

  /** What the operation uses is x or among reps. */
  ghost predicate UsesOnly<T(!new)>(c: seq<T>, op: Op<T>, x: T, reps: seq<T>, eq: (T, T) -> bool) {
    forall y :: Uses(c, op, y, eq) ==> eq(y, x) || Among(y, reps, eq)
  }

  lemma {:induction false} FilteredSplit<T(!new)>(a: seq<T>, b: seq<T>, gone: T -> bool)
    ensures Filtered(a + b, gone) == Filtered(a, gone) + Filtered(b, gone)
    decreases |a|
  {
    if a == [] {
      assert a + b == b;
    } else {
      assert (a + b)[1..] == a[1..] + b;
      FilteredSplit(a[1..], b, gone);
    }
  }

  lemma HeldFiltered<T(!new)>(c: seq<T>, x: T, k: nat, reps: seq<T>, eq: (T, T) -> bool, gone: T -> bool)
    requires Held(c, x, k, reps, eq) && !gone(c[k])
    ensures Held(Filtered(c, gone), x, |Filtered(c[..k], gone)|, reps, eq)
  {
    var a, b := c[..k], c[k..];
    assert c == a + b;
    FilteredSplit(a, b, gone);
    var f := Filtered(a, gone);
    assert Filtered(b, gone) == [c[k]] + Filtered(b[1..], gone);
    forall i | 0 <= i < |f| ensures Among(f[i], reps, eq) {
      assert f[i] in f;
      assert f[i] in a;
    }
  }

  lemma HeldFetch<T(!new)>(c: seq<T>, x: T, k: nat, p: nat, reps: seq<T>, eq: (T, T) -> bool) returns (k': nat)
    requires Held(c, x, k, reps, eq) && p < |c| && (p == k || Among(c[p], reps, eq))
    ensures Held(ToFront(c, p), x, k', reps, eq)
  {
    var r := ToFront(c, p);
    assert forall i :: 0 < i < |r| ==> r[i] == c[if i - 1 < p then i - 1 else i];
    k' := if p == k then 0 else if p < k then k else k + 1;
  }

  /** The new item and those in front of x are different and among reps, so there are fewer than cap of them. */
  lemma FrontFits<T(!new)>(c: seq<T>, k: nat, item: T, cap: nat, reps: seq<T>, eq: (T, T) -> bool)
    requires Equivalence(eq) && Distinct(c, eq) && k < |c| && Among(item, reps, eq) && |reps| < cap
    requires forall i :: 0 <= i < k ==> Among(c[i], reps, eq) && !eq(c[i], item)
    ensures k + 1 < cap
  {
    hide Among;
    var d := [item] + c[..k];
    assert Distinct(d, eq) by {
      forall i, j | 0 <= i < j < |d| ensures !eq(d[i], d[j]) {
        assert d[j] == c[j - 1] && (i > 0 ==> d[i] == c[i - 1]);
      }
    }
    Pigeons(d, reps, eq);
  }

  /** Entering one more item does not push x out while fewer than cap others are in front. */
  lemma HeldEnter<T(!new)>(c: seq<T>, x: T, k: nat, item: T, cap: nat, reps: seq<T>, eq: (T, T) -> bool)
    requires Equivalence(eq) && Distinct(c, eq) && |c| <= cap && Held(c, x, k, reps, eq)
    requires Among(item, reps, eq) && |reps| < cap && forall i :: 0 <= i < |c| ==> !eq(c[i], item)
    ensures Position(c, item, eq) == |c| && Held(AfterEnter(c, item, cap, eq), x, k + 1, reps, eq)
  {
    hide Among, Equivalence, Distinct, Position;
    FrontFits(c, k, item, cap, reps, eq);
    assert Position(c, item, eq) == |c|;
    var r := AfterEnter(c, item, cap, eq);
    assert r[0] == item && forall i :: 0 < i < |r| ==> r[i] == c[i - 1];
  }

  lemma HeldRemove<T(!new)>(c: seq<T>, x: T, k: nat, p: nat, reps: seq<T>, eq: (T, T) -> bool) returns (k': nat)
    requires Held(c, x, k, reps, eq) && p < |c| && p != k
    ensures Held(Without(c, p), x, k', reps, eq)
  {
    hide Among;
    var r := Without(c, p);
    assert forall i :: 0 <= i < |r| ==> r[i] == c[if i < p then i else i + 1];
    k' := if p < k then k - 1 else k;
  }

  /** Only one item is equal to x. */
  lemma OnlyOne<T(!new)>(c: seq<T>, x: T, k: nat, p: nat, reps: seq<T>, eq: (T, T) -> bool)
    requires Equivalence(eq) && Distinct(c, eq) && Held(c, x, k, reps, eq) && p < |c| && eq(c[p], x)
    ensures p == k
  {
    hide Among;
    assert eq(c[p], c[k]) && eq(c[k], c[p]);
  }

  lemma NotHere<T(!new)>(c: seq<T>, x: T, k: nat, item: T, reps: seq<T>, eq: (T, T) -> bool)
    requires Equivalence(eq) && Held(c, x, k, reps, eq) && Position(c, item, eq) == |c|
    ensures !eq(item, x)
  {
    hide Among, Position;
    assert !eq(c[k], item) && eq(x, c[k]);
  }

  lemma RemovesOther<T(!new)>(c: seq<T>, x: T, k: nat, w: T, eq: (T, T) -> bool)
    requires Equivalence(eq) && k < |c| && eq(c[k], x) && !eq(x, w)
    ensures Position(c, w, eq) != k
  {
    hide Position;
    assert eq(x, c[k]);
  }

  lemma StepHolds<T(!new)>(c: seq<T>, op: Op<T>, x: T, k: nat, cap: nat, reps: seq<T>, eq: (T, T) -> bool)
    returns (k': nat)
    requires Equivalence(eq) && Distinct(c, eq) && |c| <= cap && Held(c, x, k, reps, eq)
    requires Spares(op, x, eq) && UsesOnly(c, op, x, reps, eq) && |reps| < cap
    ensures Held(LruSpec.Step(c, op, cap, eq), x, k', reps, eq)
  {
    assert k < |c| && eq(c[k], x) && forall y :: eq(y, y);
    hide Filtered, Among, Held, Position, Equivalence, Distinct;
    k' := k;
    match op
    case Fetch(w) =>
      var p := Position(c, w, eq);
      if p < |c| {
        assert Uses(c, op, c[p], eq);
        if eq(c[p], x) { OnlyOne(c, x, k, p, reps, eq); }
        k' := HeldFetch(c, x, k, p, reps, eq);
      }
    case Enter(item) =>
      if Position(c, item, eq) == |c| {
        assert Uses(c, op, item, eq);
        assert !eq(item, x) by { NotHere(c, x, k, item, reps, eq); }
        HeldEnter(c, x, k, item, cap, reps, eq);
        k' := k + 1;
      }
    case Invalidate(key, compare, _) =>
      HeldFiltered(c, x, k, reps, eq, a => compare(a, key));
      k' := |Filtered(c[..k], a => compare(a, key))|;
    case Remove(w) =>
      var p := Position(c, w, eq);
      if p < |c| {
        assert p != k by { RemovesOther(c, x, k, w, eq); }
        k' := HeldRemove(c, x, k, p, reps, eq);
      }
  }

  lemma StepBounded<T(!new)>(c: seq<T>, op: Op<T>, cap: nat, eq: (T, T) -> bool)
    requires |c| <= cap && cap > 0
    ensures |LruSpec.Step(c, op, cap, eq)| <= cap
  {
  }

  /** No run holds more items than the cache has room for. */
  lemma {:induction false} RunBounded<T(!new)>(ops: seq<Op<T>>, cap: nat, eq: (T, T) -> bool)
    requires cap > 0
    ensures |Run(ops, cap, eq)| <= cap
    decreases |ops|
  {
    hide LruSpec.Step;
    if ops != [] {
      RunBounded(ops[..|ops| - 1], cap, eq);
      StepBounded(Run(ops[..|ops| - 1], cap, eq), ops[|ops| - 1], cap, eq);
    }
  }

  /** A lookup that finds y uses it, and so does the insertion that brings it in. */
  ghost predicate Touches<T(!new)>(c: seq<T>, op: Op<T>, y: T, eq: (T, T) -> bool) {
    match op
    case Fetch(w) => eq(y, w) && Among(y, c, eq)
    case Enter(item) => eq(y, item) && !Among(y, c, eq)
    case Invalidate(_, _, _) => false
    case Remove(_) => false
  }

  lemma SameAmong<T(!new)>(c: seq<T>, y: T, w: T, eq: (T, T) -> bool)
    requires Equivalence(eq) && eq(y, w)
    ensures Among(y, c, eq) <==> Position(c, w, eq) < |c|
  {
    if Among(y, c, eq) {
      var i :| 0 <= i < |c| && eq(y, c[i]);
      assert eq(c[i], w);
    }
    if Position(c, w, eq) < |c| {
      assert eq(y, c[Position(c, w, eq)]);
    }
  }

  lemma TouchesIs<T(!new)>(c: seq<T>, op: Op<T>, y: T, eq: (T, T) -> bool)
    requires Equivalence(eq)
    ensures Touches(c, op, y, eq) <==> Uses(c, op, y, eq)
  {
    if op.Fetch? && eq(y, op.wanted) { SameAmong(c, y, op.wanted, eq); }
    if op.Enter? && eq(y, op.item) { SameAmong(c, y, op.item, eq); }
  }

  /** Operation j uses y. */
  ghost predicate UsedAt<T(!new)>(ops: seq<Op<T>>, j: nat, y: T, cap: nat, eq: (T, T) -> bool)
    requires j < |ops|
  {
    Touches(Run(ops[..j], cap, eq), ops[j], y, eq)
  }

  lemma UsedAtIs<T(!new)>(ops: seq<Op<T>>, j: nat, cap: nat, eq: (T, T) -> bool)
    requires j < |ops| && Equivalence(eq)
    ensures forall y :: UsedAt(ops, j, y, cap, eq) <==> Uses(Run(ops[..j], cap, eq), ops[j], y, eq)
  {
    hide Touches, Uses, Run;
    forall y ensures UsedAt(ops, j, y, cap, eq) <==> Uses(Run(ops[..j], cap, eq), ops[j], y, eq) {
      TouchesIs(Run(ops[..j], cap, eq), ops[j], y, eq);
    }
  }

  /** Operation j does not take x away, and uses x or an item of reps if any. */
  ghost predicate QuietAt<T(!new)>(ops: seq<Op<T>>, j: nat, x: T, reps: seq<T>, cap: nat, eq: (T, T) -> bool)
    requires j < |ops|
  {
    Spares(ops[j], x, eq) && forall y :: UsedAt(ops, j, y, cap, eq) ==> eq(y, x) || Among(y, reps, eq)
  }

  /** Since operation t nothing took x away and only x and the items of reps were used. */
  ghost predicate Quiet<T(!new)>(ops: seq<Op<T>>, t: nat, x: T, reps: seq<T>, cap: nat, eq: (T, T) -> bool) {
    forall j :: t < j < |ops| ==> QuietAt(ops, j, x, reps, cap, eq)
  }

  lemma QuietFront<T(!new)>(ops: seq<Op<T>>, t: nat, x: T, reps: seq<T>, cap: nat, eq: (T, T) -> bool)
    requires Equivalence(eq) && Quiet(ops, t, x, reps, cap, eq) && t + 1 < |ops|
    ensures var n := |ops| - 1;
            && Quiet(ops[..n], t, x, reps, cap, eq)
            && Spares(ops[n], x, eq) && UsesOnly(Run(ops[..n], cap, eq), ops[n], x, reps, eq)
  {
    hide Uses, Run, Spares, Among, Touches, Equivalence;
    var n := |ops| - 1;
    var front := ops[..n];
    UsedAtIs(ops, n, cap, eq);
    forall j | t < j < n ensures QuietAt(front, j, x, reps, cap, eq) {
      assert front[..j] == ops[..j] && QuietAt(ops, j, x, reps, cap, eq);
      assert forall y :: UsedAt(front, j, y, cap, eq) ==> UsedAt(ops, j, y, cap, eq);
    }
    assert QuietAt(ops, n, x, reps, cap, eq);
  }

  /** A used item is at the front. */
  lemma UsedFirst<T(!new)>(c: seq<T>, op: Op<T>, x: T, cap: nat, eq: (T, T) -> bool)
    requires Equivalence(eq) && Uses(c, op, x, eq)
    ensures var c' := LruSpec.Step(c, op, cap, eq); c' != [] && eq(c'[0], x)
  {
    hide Position;
  }

  lemma {:induction false} HeldOn<T(!new)>(ops: seq<Op<T>>, t: nat, x: T, reps: seq<T>, cap: nat, eq: (T, T) -> bool)
    returns (k: nat)
    requires Equivalence(eq) && t < |ops| && UsedAt(ops, t, x, cap, eq)
    requires Quiet(ops, t, x, reps, cap, eq) && |reps| < cap
    ensures Held(Run(ops, cap, eq), x, k, reps, eq)
    decreases |ops|
  {
    hide LruSpec.Step, Spares, Uses, Quiet, Among, Touches;
    var n := |ops| - 1;
    var c := Run(ops[..n], cap, eq);
    UsedAtIs(ops, n, cap, eq);
    if t == n {
      UsedFirst(c, ops[n], x, cap, eq);
      k := 0;
    } else {
      QuietFront(ops, t, x, reps, cap, eq);
      assert ops[..n][..t] == ops[..t];
      k := HeldOn(ops[..n], t, x, reps, cap, eq);
      RunOrdered(ops[..n], cap, eq);
      RunBounded(ops[..n], cap, eq);
      k := StepHolds(c, ops[n], x, k, cap, reps, eq);
    }
  }

  /** A used item comes first. */
  lemma UsedComesFirst<T(!new)>(ops: seq<Op<T>>, x: T, cap: nat, eq: (T, T) -> bool)
    requires Equivalence(eq) && ops != [] && UsedAt(ops, |ops| - 1, x, cap, eq)
    ensures var c := Run(ops, cap, eq); c != [] && eq(c[0], x)
  {
    UsedAtIs(ops, |ops| - 1, cap, eq);
    UsedFirst(Run(ops[..|ops| - 1], cap, eq), ops[|ops| - 1], x, cap, eq);
  }

  /**
   * An item stays while nothing takes it away and fewer than cap different other items are used: what was used at
   * time t is in the cache after the run.
   */
  lemma Retained<T(!new)>(ops: seq<Op<T>>, t: nat, x: T, reps: seq<T>, cap: nat, eq: (T, T) -> bool)
    requires Equivalence(eq) && t < |ops| && UsedAt(ops, t, x, cap, eq)
    requires Quiet(ops, t, x, reps, cap, eq) && |reps| < cap
    ensures Among(x, Run(ops, cap, eq), eq)
  {
    hide Quiet, UsedAt, Run;
    var k := HeldOn(ops, t, x, reps, cap, eq);
  }

  lemma FrontMembers<T(!new)>(c: seq<T>, p: nat, y: T)
    requires p < |c|
    ensures y in ToFront(c, p) <==> y in c
  {
    var r := ToFront(c, p);
    if y in c {
      var i :| 0 <= i < |c| && c[i] == y;
      assert r[if i == p then 0 else if i < p then i + 1 else i] == y;
    }
    if y in r {
      var i :| 0 <= i < |r| && r[i] == y;
      assert y == c[if i == 0 then p else if i - 1 < p then i - 1 else i];
    }
  }

  lemma WithoutMembers<T(!new)>(c: seq<T>, p: nat, y: T, w: T, eq: (T, T) -> bool)
    requires Equivalence(eq) && Distinct(c, eq) && p < |c| && eq(c[p], w)
    ensures y in Without(c, p) <==> y in c && !eq(y, w)
  {
    var r := Without(c, p);
    if y in c && !eq(y, w) {
      var i :| 0 <= i < |c| && c[i] == y;
      assert r[if i < p then i else i - 1] == y;
    }
    if y in r {
      var i :| 0 <= i < |r| && r[i] == y;
      var h := if i < p then i else i + 1;
      assert y == c[h] && h != p;
      assert if h < p then !eq(c[h], c[p]) else !eq(c[p], c[h]);
    }
  }

  ghost predicate StaysOrComes<T(!new)>(c: seq<T>, op: Op<T>, y: T, eq: (T, T) -> bool) {
    match op
    case Fetch(_) => y in c
    case Enter(item) => y in c || (y == item && !Among(item, c, eq))
    case Invalidate(key, compare, _) => y in c && !compare(y, key)
    case Remove(w) => y in c && !eq(y, w)
  }

  /**
   * What one more operation does to the items of a run: a lookup keeps them, an insertion into a cache that is not
   * full adds the item if no equal one is there, the other two take out exactly what they match.
   */
  lemma Members<T(!new)>(ops: seq<Op<T>>, op: Op<T>, y: T, cap: nat, eq: (T, T) -> bool)
    requires Equivalence(eq) && (op.Enter? ==> |Run(ops, cap, eq)| < cap)
    ensures y in Run(ops + [op], cap, eq) <==> StaysOrComes(Run(ops, cap, eq), op, y, eq)
  {
    var more, c := ops + [op], Run(ops, cap, eq);
    assert more[..|more| - 1] == ops;
    RunOrdered(ops, cap, eq);
    hide Run, Filtered;
    match op
    case Fetch(w) =>
      if Position(c, w, eq) < |c| { FrontMembers(c, Position(c, w, eq), y); }
    case Enter(item) =>
      assert Among(item, c, eq) <==> Position(c, item, eq) < |c|;
    case Invalidate(_, _, _) =>
    case Remove(w) =>
      if Position(c, w, eq) < |c| { WithoutMembers(c, Position(c, w, eq), y, w, eq); }
  }

  // ---- what is forgotten ----

  /** An item equal to x, if there is one, has all of used in front of it. */
  ghost predicate Behind<T(!new)>(c: seq<T>, x: T, used: seq<T>, eq: (T, T) -> bool) {
    forall k :: 0 <= k < |c| && eq(c[k], x) ==> forall i :: 0 <= i < |used| ==> Among(used[i], c[..k], eq)
  }

  lemma BehindFetch<T(!new)>(c: seq<T>, x: T, p: nat, used: seq<T>, eq: (T, T) -> bool)
    requires p < |c| && eq(c[p], c[p]) && Behind(c, x, used, eq) && !eq(c[p], x)
    ensures Behind(ToFront(c, p), x, used, eq)
    ensures forall k :: 0 <= k < |c| && eq(ToFront(c, p)[k], x) ==> Among(c[p], ToFront(c, p)[..k], eq)
  {
    var r := ToFront(c, p);
    assert forall i :: 0 < i < |r| ==> r[i] == c[if i - 1 < p then i - 1 else i];
    forall k | 0 <= k < |r| && eq(r[k], x)
      ensures Among(c[p], r[..k], eq) && forall i :: 0 <= i < |used| ==> Among(used[i], r[..k], eq)
    {
      assert k > 0 && r[..k][0] == c[p];
      var h := if k - 1 < p then k - 1 else k;
      assert eq(c[h], x);
      forall i | 0 <= i < |used| ensures Among(used[i], r[..k], eq) {
        assert Among(used[i], c[..h], eq);
        var q :| 0 <= q < h && eq(used[i], c[..h][q]);
        var q' := if q == p then 0 else if q < p then q + 1 else q;
        assert r[..k][q'] == c[q];
      }
    }
  }

  lemma AmongBehind<T(!new)>(y: T, item: T, c: seq<T>, m: nat, k: nat, eq: (T, T) -> bool)
    requires 0 < k <= m + 1 && m <= |c| && Among(y, c[..k - 1], eq)
    ensures Among(y, ([item] + c[..m])[..k], eq)
  {
    var q :| 0 <= q < k - 1 && eq(y, c[..k - 1][q]);
    assert ([item] + c[..m])[..k][q + 1] == c[q];
  }

  lemma FirstAmong<T(!new)>(y: T, c: seq<T>, eq: (T, T) -> bool)
    requires c != [] && eq(y, c[0])
    ensures Among(y, c, eq)
  {
  }

  lemma BehindCons<T(!new)>(c: seq<T>, x: T, item: T, m: nat, used: seq<T>, eq: (T, T) -> bool)
    requires eq(item, item) && m <= |c| && Behind(c, x, used, eq) && !eq(item, x)
    ensures Behind([item] + c[..m], x, used, eq) && Behind([item] + c[..m], x, [item], eq)
  {
    hide Among;
    var r := [item] + c[..m];
    forall k | 0 <= k < |r| && eq(r[k], x)
      ensures Among(item, r[..k], eq) && forall i :: 0 <= i < |used| ==> Among(used[i], r[..k], eq)
    {
      assert k > 0 && r[k] == c[k - 1];
      FirstAmong(item, r[..k], eq);
      forall i | 0 <= i < |used| ensures Among(used[i], r[..k], eq) {
        assert Among(used[i], c[..k - 1], eq);
        AmongBehind(used[i], item, c, m, k, eq);
      }
    }
  }

  lemma BehindEnter<T(!new)>(c: seq<T>, x: T, item: T, cap: nat, used: seq<T>, eq: (T, T) -> bool)
    requires eq(item, item) && Behind(c, x, used, eq) && !eq(item, x)
    ensures Behind(AfterEnter(c, item, cap, eq), x, used, eq)
    ensures Position(c, item, eq) == |c| ==> Behind(AfterEnter(c, item, cap, eq), x, [item], eq)
  {
    hide Position, Behind;
    BehindCons(c, x, item, |c|, used, eq);
    assert c[..|c|] == c;
    if c != [] {
      BehindCons(c, x, item, |c| - 1, used, eq);
    }
  }

  lemma BehindSame<T(!new)>(c: seq<T>, x: T, y: T, z: T, eq: (T, T) -> bool)
    requires Equivalence(eq) && Behind(c, x, [y], eq) && eq(y, z)
    ensures Behind(c, x, [z], eq)
  {
    forall k | 0 <= k < |c| && eq(c[k], x) ensures Among(z, c[..k], eq) {
      assert Among([y][0], c[..k], eq);
      var q :| 0 <= q < k && eq(y, c[..k][q]);
      assert eq(z, c[..k][q]);
    }
  }

  lemma FrontBehind<T(!new)>(c: seq<T>, x: T, y: T, eq: (T, T) -> bool)
    requires forall k :: 0 <= k < |c| && eq(c[k], x) ==> Among(y, c[..k], eq)
    ensures Behind(c, x, [y], eq)
  {
  }

  /** A lookup or an insertion that does not use x leaves it behind the others, and behind what it uses. */
  lemma StepBehind<T(!new)>(c: seq<T>, op: Op<T>, x: T, y: T, cap: nat, used: seq<T>, eq: (T, T) -> bool)
    requires Equivalence(eq) && Behind(c, x, used, eq) && (op.Fetch? || op.Enter?)
    requires forall z :: Uses(c, op, z, eq) ==> !eq(z, x)
    ensures Behind(LruSpec.Step(c, op, cap, eq), x, used, eq)
    ensures Uses(c, op, y, eq) ==> Behind(LruSpec.Step(c, op, cap, eq), x, [y], eq)
  {
    hide Behind, Among;
    match op
    case Fetch(w) =>
      var p := Position(c, w, eq);
      if p < |c| {
        assert Uses(c, op, c[p], eq);
        BehindFetch(c, x, p, used, eq);
        FrontBehind(ToFront(c, p), x, c[p], eq);
        if eq(y, w) {
          BehindSame(ToFront(c, p), x, c[p], y, eq);
        }
      }
    case Enter(item) =>
      if Position(c, item, eq) == |c| {
        assert Uses(c, op, item, eq);
        BehindEnter(c, x, item, cap, used, eq);
        if eq(y, item) {
          BehindSame(LruSpec.Step(c, op, cap, eq), x, item, y, eq);
        }
      }
  }

  /** Operation j is a lookup or an insertion that does not use x. */
  ghost predicate OtherAt<T(!new)>(ops: seq<Op<T>>, j: nat, x: T, cap: nat, eq: (T, T) -> bool)
    requires j < |ops|
  {
    (ops[j].Fetch? || ops[j].Enter?) && forall z :: UsedAt(ops, j, z, cap, eq) ==> !eq(z, x)
  }

  /** Since operation t there were only lookups and insertions, and none used x. */
  ghost predicate Others<T(!new)>(ops: seq<Op<T>>, t: nat, x: T, cap: nat, eq: (T, T) -> bool) {
    forall j :: t < j < |ops| ==> OtherAt(ops, j, x, cap, eq)
  }

  lemma OthersFront<T(!new)>(ops: seq<Op<T>>, t: nat, x: T, cap: nat, eq: (T, T) -> bool)
    requires Others(ops, t, x, cap, eq) && t + 1 < |ops|
    ensures Others(ops[..|ops| - 1], t, x, cap, eq)
  {
    hide Touches, Run;
    var front := ops[..|ops| - 1];
    forall j | t < j < |front| ensures OtherAt(front, j, x, cap, eq) {
      assert front[..j] == ops[..j] && OtherAt(ops, j, x, cap, eq);
      assert forall z :: UsedAt(front, j, z, cap, eq) ==> UsedAt(ops, j, z, cap, eq);
    }
  }

  /** y was used since operation t. */
  ghost predicate UsedSince<T(!new)>(ops: seq<Op<T>>, t: nat, y: T, cap: nat, eq: (T, T) -> bool) {
    exists j: nat :: t < j < |ops| && UsedAt(ops, j, y, cap, eq)
  }

  lemma NothingBehind<T(!new)>(c: seq<T>, x: T, eq: (T, T) -> bool)
    ensures Behind(c, x, [], eq)
  {
  }

  lemma {:induction false} BehindOn<T(!new)>(ops: seq<Op<T>>, t: nat, x: T, y: T, cap: nat, eq: (T, T) -> bool)
    requires Equivalence(eq) && t < |ops| && Others(ops, t, x, cap, eq) && UsedSince(ops, t, y, cap, eq)
    ensures Behind(Run(ops, cap, eq), x, [y], eq)
    decreases |ops|
  {
    hide LruSpec.Step, Behind, Uses, Touches;
    var n := |ops| - 1;
    var j: nat :| t < j <= n && UsedAt(ops, j, y, cap, eq);
    var c, front := Run(ops[..n], cap, eq), ops[..n];
    NothingBehind(c, x, eq);
    assert OtherAt(ops, n, x, cap, eq);
    UsedAtIs(ops, n, cap, eq);
    if j == n {
      StepBehind(c, ops[n], x, y, cap, [], eq);
    } else {
      OthersFront(ops, t, x, cap, eq);
      assert front[..j] == ops[..j] && UsedAt(front, j, y, cap, eq);
      BehindOn(front, t, x, y, cap, eq);
      StepBehind(c, ops[n], x, y, cap, [y], eq);
    }
  }

  /**
   * An item goes once cap different other items have been used since it was: with lookups and insertions only, it is
   * no longer there after the run.
   */
  lemma Forgotten<T(!new)>(ops: seq<Op<T>>, t: nat, x: T, reps: seq<T>, cap: nat, eq: (T, T) -> bool)
    requires Equivalence(eq) && cap > 0 && t < |ops| && Others(ops, t, x, cap, eq)
    requires Distinct(reps, eq) && |reps| >= cap && forall i :: 0 <= i < |reps| ==> UsedSince(ops, t, reps[i], cap, eq)
    ensures !Among(x, Run(ops, cap, eq), eq)
  {
    hide Run, Others, UsedSince;
    var c := Run(ops, cap, eq);
    RunBounded(ops, cap, eq);
    forall k | 0 <= k < |c| ensures !eq(x, c[k]) {
      if eq(x, c[k]) {
        forall i | 0 <= i < |reps| ensures Among(reps[i], c[..k], eq) {
          BehindOn(ops, t, x, reps[i], cap, eq);
          assert Among([reps[i]][0], c[..k], eq);
        }
        Pigeons(reps, c[..k], eq);
      }
    }
  }
}

/** Claiming the clusters of an attribute's runlist: ntfsck_check_runlist (src/ntfsck.c). */
module RunlistCheck {
  import opened Runlist
  import opened ShadowBlock
  import opened DupRunlist
  import opened ShadowBitmap

  predicate Mapped(r: Run) {
    r.lcn >= 0
  }

  /** A run the check goes on from: a hole, or a run starting inside the volume. */
  predicate Usable(r: Run, nr: nat) {
    r.lcn == LCN_HOLE || 0 <= r.lcn < nr
  }

  /** The run cut off at the end of the volume. */
  function Clamp(r: Run, nr: nat): (c: Run)
    requires Usable(r, nr) && r.length > 0
    ensures c.length > 0 && c.lcn == r.lcn && c.vcn == r.vcn
    ensures !Mapped(r) || r.lcn + r.length <= nr ==> c == r
    ensures Mapped(r) && r.lcn + r.length > nr ==> c.lcn + c.length == nr
  {
    if Mapped(r) && r.lcn + r.length >= nr then r.(length := nr - r.lcn) else r
  }

  /** The clusters taken once the runs have been marked or cleared in turn. */
  ghost function After(s: set<int>, runs: seq<Run>, v: bool): set<int>
    requires Positive(runs)
  {
    if runs == [] then s
    else
      var front, r := After(s, runs[..|runs| - 1], v), runs[|runs| - 1];
      if Mapped(r) then Updated(front, r.lcn, r.length, v) else front
  }

  /** What the runs claim of clusters that s or an earlier run already has. */
  ghost function Claims(s: set<int>, runs: seq<Run>): seq<(int, int)>
    requires Positive(runs)
  {
    if runs == [] then []
    else
      var front, r := runs[..|runs| - 1], runs[|runs| - 1];
      Claims(s, front) + if Mapped(r) then Hits(After(s, front, true), r.vcn, r.lcn, r.length) else []
  }

  ghost function Size(runs: seq<Run>, holes: bool): nat
    requires Positive(runs)
  {
    if runs == [] then 0
    else Size(runs[..|runs| - 1], holes) + if holes || Mapped(runs[|runs| - 1]) then runs[|runs| - 1].length else 0
  }

  predicate Within(r: Run, c: int) {
    Mapped(r) && r.lcn <= c < r.lcn + r.length
  }

  /** No cluster of the runs is in s, and none is in two of them. */
  ghost predicate NoDouble(s: set<int>, runs: seq<Run>) {
    && (forall k, c :: 0 <= k < |runs| && Within(runs[k], c) ==> c !in s)
    && (forall j, k, c :: 0 <= j < k < |runs| && Within(runs[j], c) ==> !Within(runs[k], c))
  }

  lemma {:induction false} AfterIs(s: set<int>, runs: seq<Run>)
    requires Positive(runs)
    ensures forall c :: c in After(s, runs, true) <==> c in s || exists k :: 0 <= k < |runs| && Within(runs[k], c)
    decreases |runs|
  {
    hide Range;
    if runs != [] {
      var n := |runs| - 1;
      AfterIs(s, runs[..n]);
      forall c ensures c in After(s, runs, true) <==> c in s || exists k :: 0 <= k < |runs| && Within(runs[k], c) {
        assert (exists k :: 0 <= k < n && Within(runs[..n][k], c)) <==> (exists k :: 0 <= k < n && Within(runs[k], c));
      }
    }
  }

  lemma {:induction false} ClearedIs(s: set<int>, runs: seq<Run>)
    requires Positive(runs)
    ensures forall c :: c in After(s, runs, false) <==> c in s && forall k :: 0 <= k < |runs| ==> !Within(runs[k], c)
    decreases |runs|
  {
    hide Range;
    if runs != [] {
      var n := |runs| - 1;
      ClearedIs(s, runs[..n]);
      forall c ensures c in After(s, runs, false) <==> c in s && forall k :: 0 <= k < |runs| ==> !Within(runs[k], c) {
        assert (forall k :: 0 <= k < n ==> !Within(runs[..n][k], c))
               <==> (forall k :: 0 <= k < n ==> !Within(runs[k], c));
      }
    }
  }

  /** The sizes are the clusters of the map, without its holes or with them. */
  lemma {:induction false} SizeIs(runs: seq<Run>)
    requires Positive(runs)
    ensures Size(runs, true) == |Cells(runs)|
    decreases |runs|
  {
    if runs != [] {
      var n := |runs| - 1;
      SizeIs(runs[..n]);
      CellsAppend(runs[..n], [runs[n]]);
      CellsOne(runs[n]);
      assert runs == runs[..n] + [runs[n]];
    }
  }

  /** Cluster c, at virtual cluster v of run k, was taken before or by an earlier run. */
  ghost predicate ClaimedTwice(s: set<int>, runs: seq<Run>, k: nat, v: int, c: int)
    requires k < |runs|
  {
    Within(runs[k], c) && v - c == runs[k].vcn - runs[k].lcn
    && (c in s || exists j :: 0 <= j < k && Within(runs[j], c))
  }

  lemma LastClaimed(s: set<int>, front: seq<Run>, r: Run, v: int, c: int)
    requires Positive(front) && r.length > 0
    ensures ClaimedTwice(s, front + [r], |front|, v, c)
            <==> Mapped(r) && (v, c) in Hits(After(s, front, true), r.vcn, r.lcn, r.length)
  {
    AfterIs(s, front);
    hide After, Hits;
    var runs := front + [r];
    assert runs[|front|] == r && forall k :: 0 <= k < |front| ==> runs[k] == front[k];
    assert (exists j :: 0 <= j < |front| && Within(runs[j], c))
           <==> (exists j :: 0 <= j < |front| && Within(front[j], c));
    if Mapped(r) {
      HitsExact(After(s, front, true), r.vcn, r.lcn, r.length);
    }
  }

  lemma FrontClaimed(s: set<int>, front: seq<Run>, r: Run, k: nat, v: int, c: int)
    requires k < |front|
    ensures ClaimedTwice(s, front + [r], k, v, c) <==> ClaimedTwice(s, front, k, v, c)
  {
    var runs := front + [r];
    assert forall j :: 0 <= j <= k ==> runs[j] == front[j];
    assert (exists j :: 0 <= j < k && Within(runs[j], c)) <==> (exists j :: 0 <= j < k && Within(front[j], c));
  }

  /** What is reported is exactly what is claimed twice. */
  lemma {:induction false} ClaimsExact(s: set<int>, runs: seq<Run>, v: int, c: int)
    requires Positive(runs)
    ensures (v, c) in Claims(s, runs) <==> exists k: nat :: k < |runs| && ClaimedTwice(s, runs, k, v, c)
    decreases |runs|
  {
    hide After, Hits, ClaimedTwice;
    if runs != [] {
      var n := |runs| - 1;
      var front, r := runs[..n], runs[n];
      assert runs == front + [r];
      ClaimsExact(s, front, v, c);
      LastClaimed(s, front, r, v, c);
      forall k: nat | k < n ensures ClaimedTwice(s, runs, k, v, c) <==> ClaimedTwice(s, front, k, v, c) {
        FrontClaimed(s, front, r, k, v, c);
      }
    }
  }

  lemma DoubleFront(s: set<int>, front: seq<Run>, r: Run)
    ensures NoDouble(s, front + [r])
            <==> NoDouble(s, front)
                 && forall c :: Within(r, c) ==> c !in s && forall k :: 0 <= k < |front| ==> !Within(front[k], c)
  {
    var runs := front + [r];
    assert runs[|front|] == r && forall k :: 0 <= k < |front| ==> runs[k] == front[k];
    if NoDouble(s, runs) {
      forall j, k, c | 0 <= j < k < |front| && Within(front[j], c) ensures !Within(front[k], c) {
        assert Within(runs[j], c) ==> !Within(runs[k], c);
      }
      forall k, c | 0 <= k < |front| && Within(front[k], c) ensures c !in s {
        assert Within(runs[k], c);
      }
      forall c | Within(r, c) ensures c !in s && forall k :: 0 <= k < |front| ==> !Within(front[k], c) {
        assert Within(runs[|front|], c);
        assert forall k :: 0 <= k < |front| ==> !Within(runs[k], c);
      }
    }
  }

  lemma LastClaims(s: set<int>, front: seq<Run>, r: Run)
    requires Positive(front) && r.length > 0
    ensures NoDouble(s, front + [r])
            <==> NoDouble(s, front) && (!Mapped(r) || Hits(After(s, front, true), r.vcn, r.lcn, r.length) == [])
  {
    AfterIs(s, front);
    var t := After(s, front, true);
    hide After, Hits;
    var runs := front + [r];
    if Mapped(r) {
      HitsExact(t, r.vcn, r.lcn, r.length);
      if Hits(t, r.vcn, r.lcn, r.length) == [] {
        forall c | Within(r, c) ensures c !in t {
          assert (c + r.vcn - r.lcn, c) !in Hits(t, r.vcn, r.lcn, r.length);
        }
      } else {
        var p := Hits(t, r.vcn, r.lcn, r.length)[0];
        assert p in Hits(t, r.vcn, r.lcn, r.length);
        assert Within(runs[|front|], p.1);
        if p.1 !in s {
          var k :| 0 <= k < |front| && Within(front[k], p.1);
          assert Within(runs[k], p.1);
        }
        assert !NoDouble(s, runs);
      }
    }
    DoubleFront(s, front, r);
  }

  /** Nothing is reported exactly when no cluster is claimed twice. */
  lemma {:induction false} ClaimsNone(s: set<int>, runs: seq<Run>)
    requires Positive(runs)
    ensures Claims(s, runs) == [] <==> NoDouble(s, runs)
    decreases |runs|
  {
    hide After, Hits, Within;
    if runs != [] {
      var n := |runs| - 1;
      var front, r := runs[..n], runs[n];
      ClaimsNone(s, front);
      AfterIs(s, front);
      LastClaims(s, front, r);
      assert runs == front + [r];
    }
  }

  /** Runs with length up to an end mark at n. */
  ghost predicate EndsAt(rl: seq<Run>, n: nat) {
    n < |rl| && rl[n].length == 0 && Positive(rl[..n])
  }

  /** What the check leaves of a runlist: the usable runs up to the first unusable one, cut to the volume. */
  ghost predicate Trimmed(before: seq<Run>, after: seq<Run>, n: nat, kept: nat, nr: nat)
    requires EndsAt(before, n) && |after| == |before|
  {
    && kept <= n && EndsAt(after, kept)
    && (forall k :: 0 <= k < kept ==> Usable(before[k], nr) && before[k].length > 0 && after[k] == Clamp(before[k], nr))
    && (kept < n ==> !Usable(before[kept], nr) && after[kept] == Run(before[kept].vcn, LCN_ENOENT, 0))
    && (forall k :: kept < k < |before| ==> after[k] == before[k])
    && (kept == n ==> after[n] == before[n])
  }

  /** State of the check once the runs in done have been claimed, starting from the clusters in s. */
  ghost predicate Claimed(taken: set<int>, dup: seq<Run>, s: set<int>, done: seq<Run>, bit: bool) {
    && Positive(done) && Closed(dup) && Tight(Body(dup))
    && taken == After(s, done, bit)
    && Pairs(dup) == (if bit then Claims(s, done) else [])
    && (dup == [] <==> Pairs(dup) == [])
    && (bit ==> |taken| + |Pairs(dup)| == |s| + Size(done, false))
  }

  lemma SnocClaims(s: set<int>, done: seq<Run>, r: Run, bit: bool)
    requires Positive(done) && r.length > 0
    ensures Positive(done + [r])
    ensures After(s, done + [r], bit)
            == if Mapped(r) then Updated(After(s, done, bit), r.lcn, r.length, bit) else After(s, done, bit)
    ensures Claims(s, done + [r])
            == Claims(s, done) + if Mapped(r) then Hits(After(s, done, true), r.vcn, r.lcn, r.length) else []
    ensures Size(done + [r], false) == Size(done, false) + if Mapped(r) then r.length else 0
    ensures Size(done + [r], true) == Size(done, true) + r.length
  {
    hide Updated, Hits;
    assert (done + [r])[..|done|] == done;
  }

  lemma StartClaims(s: set<int>, bit: bool)
    ensures Claimed(s, [], s, [], bit) && Pairs([]) == []
  {
  }

  /** One run: its clusters are marked or cleared, its duplicates listed. */
  method ClaimRun(bm: ClusterBitmap, r: Run, bit: bool, dup: seq<Run>, ghost s: set<int>, ghost done: seq<Run>)
    returns (dup': seq<Run>)
    requires bm.Valid() && Mapped(r) && r.length > 0 && r.lcn + r.length <= bm.nrClusters
    requires Claimed(bm.taken, dup, s, done, bit)
    modifies bm
    ensures bm.Valid() && Claimed(bm.taken, dup', s, done + [r], bit)
  {
    hide ShadowBitmap.Laws, Tight, Closed, Body, Pairs, Hits, Updated, After, Claims, Size;
    SnocClaims(s, done, r, bit);
    StartClaims(s, bit);
    dup' := bm.CheckAndSet(r, bit, dup);
    assert Pairs(dup) + [] == Pairs(dup);
  }

  lemma SkipHole(taken: set<int>, dup: seq<Run>, s: set<int>, done: seq<Run>, r: Run, bit: bool)
    requires Claimed(taken, dup, s, done, bit) && !Mapped(r) && r.length > 0
    ensures Claimed(taken, dup, s, done + [r], bit)
  {
    hide Closed, Tight, Body, Pairs, After, Size, Claims;
    SnocClaims(s, done, r, bit);
    assert Claims(s, done) + [] == Claims(s, done);
  }

  /** The runs already passed: usable, and cut to the volume. */
  ghost predicate Passed(before: seq<Run>, after: seq<Run>, i: nat, nr: nat) {
    && i <= |before| == |after|
    && (forall k :: 0 <= k < i ==> Usable(before[k], nr) && before[k].length > 0 && after[k] == Clamp(before[k], nr))
    && (forall k :: i <= k < |before| ==> after[k] == before[k])
  }

  lemma PassedAll(before: seq<Run>, after: seq<Run>, n: nat, i: nat, nr: nat)
    requires EndsAt(before, n) && i <= n && Passed(before, after, i, nr) && after[i].length == 0
    ensures Trimmed(before, after, n, i, nr)
  {
    assert forall k :: 0 <= k < n ==> before[k].length > 0;
  }

  lemma PassedCut(before: seq<Run>, after: seq<Run>, n: nat, i: nat, nr: nat)
    requires EndsAt(before, n) && i < n && Passed(before, after, i, nr) && !Usable(before[i], nr)
    ensures Trimmed(before, after[i := Run(before[i].vcn, LCN_ENOENT, 0)], n, i, nr)
  {
  }

  lemma TrimmedEnds(before: seq<Run>, after: seq<Run>, n: nat, kept: nat, nr: nat)
    requires EndsAt(before, n) && |after| == |before| && Trimmed(before, after, n, kept, nr)
    ensures kept < |after| && Positive(after[..kept])
  {
  }

  lemma TrimmedRuns(before: seq<Run>, after: seq<Run>, n: nat, kept: nat, nr: nat)
    requires EndsAt(before, n) && |after| == |before| && Trimmed(before, after, n, kept, nr)
    ensures kept <= n < |before|
    ensures forall k :: 0 <= k < kept ==>
              var r := before[k];
              && (r.lcn == LCN_HOLE || 0 <= r.lcn < nr)
              && after[k] == if 0 <= r.lcn && r.lcn + r.length > nr then Run(r.vcn, r.lcn, nr - r.lcn) else r
    ensures kept < n ==> before[kept].lcn >= nr || before[kept].lcn < LCN_HOLE
  {
  }

  /** The run at i cut to the volume, as it is claimed. */
  method CutRun(rl: array<Run>, i: nat, nr: nat)
    requires i < rl.Length && Usable(rl[i], nr) && Mapped(rl[i]) && rl[i].length > 0
    modifies rl
    ensures rl[..] == old(rl[..])[i := Clamp(old(rl[i]), nr)]
  {
    if rl[i].lcn + rl[i].length >= nr {
      rl[i] := rl[i].(length := nr - rl[i].lcn);
    }
  }

  lemma PassOne(before: seq<Run>, after: seq<Run>, n: nat, i: nat, nr: nat)
    requires EndsAt(before, n) && i < n && Passed(before, after, i, nr) && Usable(before[i], nr)
    ensures before[i].length > 0
    ensures var r := Clamp(before[i], nr); var a := after[i := r];
            Passed(before, a, i + 1, nr) && a[..i + 1] == after[..i] + [r] && (!Mapped(r) ==> a == after)
  {
    assert before[..n][i].length > 0;
  }

  lemma ClaimedMeans(taken: set<int>, dup: seq<Run>, s: set<int>, done: seq<Run>, bit: bool)
    requires Claimed(taken, dup, s, done, bit)
    ensures Closed(dup) && Tight(Body(dup)) && Positive(done) && taken == After(s, done, bit)
    ensures Pairs(dup) == if bit then Claims(s, done) else []
    ensures dup == [] <==> if bit then NoDouble(s, done) else true
    ensures bit ==> |taken| + |Pairs(dup)| == |s| + Size(done, false)
  {
    hide Closed, Tight, Body, Pairs, After, Size, Claims, NoDouble;
    ClaimsNone(s, done);
  }

  lemma StartSizes()
    ensures Size([], true) == 0 && Size([], false) == 0
  {
  }

  method ClaimLoop(bm: ClusterBitmap, rl: array<Run>, bit: bool, ghost n: nat)
    returns (dup: seq<Run>, allocSize: nat, dataSize: nat, ghost kept: nat)
    requires bm.Valid() && EndsAt(rl[..], n)
    modifies bm, rl
    ensures bm.Valid() && Trimmed(old(rl[..]), rl[..], n, kept, bm.nrClusters)
    ensures kept <= rl.Length && Claimed(bm.taken, dup, old(bm.taken), rl[..kept], bit)
    ensures allocSize == Size(rl[..kept], true) && dataSize == Size(rl[..kept], false)
  {
    hide ShadowBitmap.Laws, Claimed, Size, Clamp, Trimmed;
    var i := 0;
    dup, allocSize, dataSize := [], 0, 0;
    ghost var was := rl[..];
    StartClaims(bm.taken, bit);
    StartSizes();
    while rl[i].length != 0
      invariant 0 <= i <= n < rl.Length && bm.Valid() && Passed(was, rl[..], i, bm.nrClusters)
      invariant Positive(rl[..i]) && Claimed(bm.taken, dup, old(bm.taken), rl[..i], bit)
      invariant allocSize == Size(rl[..i], true) && dataSize == Size(rl[..i], false)
      decreases n - i
    {
      assert i < n;
      ghost var done, whole := rl[..i], rl[..];
      assert rl[i] == was[i];
      if rl[i].lcn > LCN_HOLE {
        if rl[i].lcn >= bm.nrClusters {
          PassedCut(was, rl[..], n, i, bm.nrClusters);
          rl[i] := Run(rl[i].vcn, LCN_ENOENT, 0);
          assert rl[..] == whole[i := Run(was[i].vcn, LCN_ENOENT, 0)] && rl[..i] == done;
          return dup, allocSize, dataSize, i;
        }
        PassOne(was, rl[..], n, i, bm.nrClusters);
        CutRun(rl, i, bm.nrClusters);
        SnocClaims(old(bm.taken), done, rl[i], bit);
        dup := ClaimRun(bm, rl[i], bit, dup, old(bm.taken), done);
        dataSize := dataSize + rl[i].length;
        allocSize := allocSize + rl[i].length;
      } else if rl[i].lcn == LCN_HOLE {
        PassOne(was, rl[..], n, i, bm.nrClusters);
        SnocClaims(old(bm.taken), done, rl[i], bit);
        SkipHole(bm.taken, dup, old(bm.taken), done, rl[i], bit);
        allocSize := allocSize + rl[i].length;
      } else {
        PassedCut(was, rl[..], n, i, bm.nrClusters);
        rl[i] := Run(rl[i].vcn, LCN_ENOENT, 0);
        assert rl[..] == whole[i := Run(was[i].vcn, LCN_ENOENT, 0)] && rl[..i] == done;
        return dup, allocSize, dataSize, i;
      }
      i := i + 1;
      assert rl[..i] == rl[..][..i];
    }
    PassedAll(was, rl[..], n, i, bm.nrClusters);
    kept := i;
  }

  /** Cluster c of the volume belongs to the run as it was found. */
  predicate Covers(r: Run, c: int, nr: nat) {
    0 <= r.lcn <= c < r.lcn + r.length && c < nr
  }

  /** The clusters of a kept run are those it had in the volume. */
  lemma ClampCovers(r: Run, c: int, nr: nat)
    requires Usable(r, nr) && r.length > 0
    ensures Within(Clamp(r, nr), c) <==> Covers(r, c, nr)
  {
  }

  /** The clusters taken afterwards, told from the list as it was found. */
  lemma TrimmedTaken(before: seq<Run>, after: seq<Run>, n: nat, kept: nat, nr: nat, s: set<int>, c: int)
    requires EndsAt(before, n) && |after| == |before| && Trimmed(before, after, n, kept, nr)
    ensures kept <= n && Positive(after[..kept])
    ensures c in After(s, after[..kept], true) <==> c in s || exists k :: 0 <= k < kept && Covers(before[k], c, nr)
    ensures c in After(s, after[..kept], false) <==> c in s && forall k :: 0 <= k < kept ==> !Covers(before[k], c, nr)
  {
    AfterIs(s, after[..kept]);
    ClearedIs(s, after[..kept]);
    hide After, Clamp, Within, Covers;
    forall k | 0 <= k < kept ensures Within(after[..kept][k], c) <==> Covers(before[k], c, nr) {
      ClampCovers(before[k], c, nr);
    }
  }

  /**
   * ntfsck_check_runlist up to the report. Told from the list as it was found: the first kept runs are holes or begin
   * in the volume, the next one, if any, does not; a run keeps its length unless it leaves the volume, and ends
   * with it otherwise; exactly the clusters of these runs are marked, or cleared.
   */
  method CheckRunlist(bm: ClusterBitmap, rl: array<Run>, bit: bool, ghost n: nat)
    returns (dup: seq<Run>, allocSize: nat, dataSize: nat, ghost kept: nat)
    requires bm.Valid() && EndsAt(rl[..], n)
    modifies bm, rl
    ensures bm.Valid() && Trimmed(old(rl[..]), rl[..], n, kept, bm.nrClusters)
    ensures forall k :: 0 <= k < kept ==>
              var r, nr := old(rl[k]), bm.nrClusters;
              && (r.lcn == LCN_HOLE || 0 <= r.lcn < nr)
              && rl[k] == if 0 <= r.lcn && r.lcn + r.length > nr then Run(r.vcn, r.lcn, nr - r.lcn) else r
    ensures kept < n ==> old(rl[kept]).lcn >= bm.nrClusters || old(rl[kept]).lcn < LCN_HOLE
    ensures forall c :: c in bm.taken <==>
              var covered := exists k :: 0 <= k < kept && Covers(old(rl[k]), c, bm.nrClusters);
              if bit then c in old(bm.taken) || covered else c in old(bm.taken) && !covered
    ensures Closed(dup) && Tight(Body(dup))
    ensures bm.taken == After(old(bm.taken), rl[..kept], bit)
    ensures Pairs(dup) == if bit then Claims(old(bm.taken), rl[..kept]) else []
    ensures dup == [] <==> if bit then NoDouble(old(bm.taken), rl[..kept]) else true
    ensures bit ==> |bm.taken| + |Pairs(dup)| == |old(bm.taken)| + dataSize
    ensures allocSize == |Cells(rl[..kept])| && dataSize == Size(rl[..kept], false)
  {
    hide ShadowBitmap.Laws, Claimed, Passed, Size, EndsAt, Usable, Clamp, Positive, Trimmed, After, Covers, Claims;
    hide NoDouble, Cells;
    dup, allocSize, dataSize, kept := ClaimLoop(bm, rl, bit, n);
    ghost var was, now, nr := old(rl[..]), rl[..], bm.nrClusters;
    TrimmedEnds(was, now, n, kept, nr);
    TrimmedRuns(was, now, n, kept, nr);
    assert now[..kept] == rl[..kept];
    ClaimedMeans(bm.taken, dup, old(bm.taken), rl[..kept], bit);
    SizeIs(rl[..kept]);
    forall c ensures c in bm.taken <==>
              var covered := exists k :: 0 <= k < kept && Covers(was[k], c, nr);
              if bit then c in old(bm.taken) || covered else c in old(bm.taken) && !covered
    {
      TrimmedTaken(was, now, n, kept, nr, old(bm.taken), c);
    }
  }
}

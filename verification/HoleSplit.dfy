/** Splitting the hole a compressed write goes into: split_compressed_hole (libntfs/attrib.c). */
module HoleSplit {
  import opened Bytes
  import opened Runlist
  import opened Slices

  /** Where the compression block of cluster v begins. */
  function BlockStart(v: int, b: nat): int
    requires b > 0
  {
    v - v % b
  }

  /** Holes side by side that together are the hole r. */
  ghost predicate HolePieces(r: Run, ps: seq<Run>) {
    && ps != [] && Positive(ps) && Adjacent(ps) && ps[0].vcn == r.vcn
    && ps[|ps| - 1].vcn + ps[|ps| - 1].length == r.vcn + r.length
    && forall k :: 0 <= k < |ps| ==> ps[k].lcn == LCN_HOLE
  }

  lemma {:induction false} LaterEnd(ps: seq<Run>, k: nat)
    requires Positive(ps) && Adjacent(ps) && k < |ps|
    ensures ps[k].vcn < ps[|ps| - 1].vcn + ps[|ps| - 1].length
    decreases |ps| - k
  {
    if k < |ps| - 1 { LaterEnd(ps, k + 1); }
  }

  lemma {:induction false} PieceCells(r: Run, ps: seq<Run>)
    requires HolePieces(r, ps) && r.lcn == LCN_HOLE && r.length > 0
    ensures Cells(ps) == RunCells(r)
    decreases |ps|
  {
    if |ps| == 1 {
      assert ps == [ps[0]];
      CellsOne(ps[0]);
      assert ps[0] == r;
    } else {
      var rest := Run(ps[1].vcn, LCN_HOLE, r.vcn + r.length - ps[1].vcn);
      LaterEnd(ps, 1);
      assert HolePieces(rest, ps[1..]) by {
        assert forall k :: 0 < k < |ps[1..]| ==> ps[1..][k] == ps[k + 1] && ps[1..][k - 1] == ps[k];
      }
      PieceCells(rest, ps[1..]);
    }
  }

  /** The list with run j replaced by the pieces. */
  ghost function Replaced(rl: seq<Run>, n: nat, j: nat, ps: seq<Run>): seq<Run>
    requires j < n < |rl|
  {
    rl[..j] + ps + rl[j + 1..n + 1]
  }

  lemma ReplacedCells(rl: seq<Run>, n: nat, j: nat, ps: seq<Run>)
    requires n < |rl| && Positive(rl[..n]) && j < n && rl[j].lcn == LCN_HOLE && HolePieces(rl[j], ps)
    ensures Positive(rl[..j] + ps + rl[j + 1..n])
    ensures Cells(rl[..j] + ps + rl[j + 1..n]) == Cells(rl[..n])
  {
    hide RunCells, Cells;
    assert rl[..n][j].length > 0;
    PieceCells(rl[j], ps);
    CellsOne(rl[j]);
    var a, b := rl[..j], rl[j + 1..n];
    assert forall k :: 0 <= k < |a| ==> a[k] == rl[..n][k];
    assert forall k :: 0 <= k < |b| ==> b[k] == rl[..n][j + 1 + k];
    CellsAppend(a, ps);
    CellsAppend(a + ps, b);
    CellsAppend(a, [rl[j]]);
    CellsAppend(a + [rl[j]], b);
    assert rl[..n] == a + [rl[j]] + b;
  }

  lemma ReplacedAdjacent(rl: seq<Run>, n: nat, j: nat, ps: seq<Run>)
    requires n < |rl| && Adjacent(rl[..n + 1]) && j < n && HolePieces(rl[j], ps)
    ensures Adjacent(Replaced(rl, n, j, ps))
  {
    var r, all := Replaced(rl, n, j, ps), rl[..n + 1];
    forall k | 0 < k < |r| ensures r[k].vcn == r[k - 1].vcn + r[k - 1].length {
      if k < j {
        assert r[k] == all[k] && r[k - 1] == all[k - 1];
      } else if k == j {
        assert r[k] == ps[0] && r[k - 1] == all[j - 1] && all[j].vcn == all[j - 1].vcn + all[j - 1].length;
      } else if k < j + |ps| {
        assert r[k] == ps[k - j] && r[k - 1] == ps[k - 1 - j];
      } else if k == j + |ps| {
        assert r[k] == all[j + 1] && r[k - 1] == ps[|ps| - 1];
      } else {
        var i := k - |ps| + 1;
        assert r[k] == all[i] && r[k - 1] == all[i - 1];
      }
    }
  }

  /** Replacing a hole by its pieces keeps the cluster map, the adjacency and the end mark. */
  lemma ReplacedKeeps(rl: seq<Run>, n: nat, j: nat, ps: seq<Run>)
    requires Terminated(rl, n) && j < n && rl[j].lcn == LCN_HOLE && HolePieces(rl[j], ps)
    ensures var m := n - 1 + |ps|; var r := Replaced(rl, n, j, ps);
            && |r| == m + 1 && Terminated(r, m) && r[m] == rl[n] && r[0].vcn == rl[0].vcn
            && Cells(r[..m]) == Cells(rl[..n])
  {
    var m, r := n - 1 + |ps|, Replaced(rl, n, j, ps);
    assert rl[..n][j].length > 0;
    assert r[..m] == rl[..j] + ps + rl[j + 1..n];
    ReplacedCells(rl, n, j, ps);
    ReplacedAdjacent(rl, n, j, ps);
  }

  /** The end mark, searched from run j on. */
  method FindEnd(rl: array<Run>, j: nat, ghost n: nat) returns (x: nat)
    requires Terminated(rl[..], n) && j < n
    ensures x == n
  {
    x := j;
    assert rl[..][n] == rl[n];
    while rl[x].length != 0
      invariant j <= x <= n < rl.Length
      decreases n - x
    {
      x := x + 1;
    }
    assert forall k :: 0 <= k < n ==> rl[..][..n][k] == rl[k];
  }

  /** Move everything behind run j up by one or two places. */
  method ShiftUp(rl: array<Run>, j: nat, d: nat, ghost n: nat)
    requires Terminated(rl[..], n) && j < n && 1 <= d <= 2 && n + d < rl.Length
    modifies rl
    ensures rl[..j + 2] == old(rl[..j + 2])
    ensures rl[j + 1 + d..n + 1 + d] == old(rl[j + 1..n + 1])
  {
    hide Terminated;
    var x := FindEnd(rl, j, n);
    ghost var was := rl[..];
    assert rl[..j + 2] == was[..j + 2] && rl[j + 1..n + 1] == was[j + 1..n + 1];
    while true
      invariant j < x <= n && |was| == rl.Length
      invariant rl[..x + 1] == was[..x + 1] && rl[x + 1 + d..n + 1 + d] == was[x + 1..n + 1]
      invariant rl[..j + 2] == was[..j + 2]
      decreases x
    {
      assert rl[x] == rl[..x + 1][x] == was[x];
      ghost var above := rl[x + 1 + d..n + 1 + d];
      rl[x + d] := rl[x];
      assert rl[x + d..n + 1 + d] == [was[x]] + above;
      assert was[x..n + 1] == [was[x]] + was[x + 1..n + 1];
      x := x - 1;
      if x == j {
        break;
      }
    }
  }

  function Three(r: Run, b: int, e: int): seq<Run> {
    [r.(length := e - b), Run(r.vcn + e - b, LCN_HOLE, b), Run(r.vcn + e, LCN_HOLE, r.length - e)]
  }

  function Two(r: Run, e: int): seq<Run> {
    [r.(length := e), Run(r.vcn + e, LCN_HOLE, r.length - e)]
  }

  lemma SplitShape(was: seq<Run>, now: seq<Run>, n: nat, j: nat, ps: seq<Run>)
    requires j < n < |was| == |now| && 1 <= |ps| && n + |ps| <= |now|
    requires now[..j] == was[..j] && now[j..j + |ps|] == ps && now[j + |ps|..n + |ps|] == was[j + 1..n + 1]
    ensures now[..n + |ps|] == Replaced(was, n, j, ps)
  {
    assert now[..n + |ps|] == now[..j] + now[j..j + |ps|] + now[j + |ps|..n + |ps|];
  }

  /** The pieces written over what ShiftUp left. */
  lemma SplitMoved(was: seq<Run>, moved: seq<Run>, now: seq<Run>, n: nat, j: nat, ps: seq<Run>)
    requires j < n < |was| == |moved| && |ps| == 3 && n + 3 <= |moved|
    requires moved[..j + 2] == was[..j + 2] && moved[j + 3..n + 3] == was[j + 1..n + 1]
    requires now == moved[j := ps[0]][j + 1 := ps[1]][j + 2 := ps[2]]
    ensures now[..n + 3] == Replaced(was, n, j, ps)
  {
    assert was[..j] == was[..j + 2][..j] == moved[..j];
    assert now[j..j + 3] == ps && now[j + 3..n + 3] == moved[j + 3..n + 3];
    SplitShape(was, now, n, j, ps);
  }

  method SplitThree(rl: array<Run>, j: nat, b: nat, e: int, ghost n: nat)
    requires Terminated(rl[..], n) && j < n && n + 2 < rl.Length
    modifies rl
    ensures rl[..n + 3] == Replaced(old(rl[..]), n, j, Three(old(rl[j]), b, e))
  {
    hide Terminated, Replaced;
    ghost var was := rl[..];
    ShiftUp(rl, j, 2, n);
    assert rl[j] == rl[..j + 2][j] == was[j];
    ghost var moved := rl[..];
    rl[j + 1], rl[j + 2] := rl[j + 1].(length := b), rl[j + 2].(length := rl[j].length - e);
    rl[j] := rl[j].(length := e - b);
    rl[j + 1], rl[j + 2] := rl[j + 1].(lcn := LCN_HOLE), rl[j + 2].(lcn := LCN_HOLE);
    rl[j + 1] := rl[j + 1].(vcn := rl[j].vcn + rl[j].length);
    rl[j + 2] := rl[j + 2].(vcn := rl[j + 1].vcn + b);
    ghost var ps := Three(was[j], b, e);
    assert rl[..] == moved[j := ps[0]][j + 1 := ps[1]][j + 2 := ps[2]];
    SplitMoved(was, moved, rl[..], n, j, ps);
  }

  method SplitTwo(rl: array<Run>, j: nat, e: int, ghost n: nat)
    requires Terminated(rl[..], n) && j < n && n + 1 < rl.Length
    modifies rl
    ensures rl[..n + 2] == Replaced(old(rl[..]), n, j, Two(old(rl[j]), e))
  {
    hide Terminated, Replaced;
    ghost var was := rl[..];
    ShiftUp(rl, j, 1, n);
    assert rl[j] == rl[..j + 2][j] == was[j];
    rl[j + 1] := rl[j + 1].(length := rl[j].length - e);
    rl[j] := rl[j].(length := e);
    rl[j + 1] := rl[j + 1].(vcn := rl[j].vcn + rl[j].length, lcn := LCN_HOLE);
    SplitShape(was, rl[..], n, j, Two(was[j], e));
  }

  lemma NextVcn(rl: seq<Run>, n: nat, j: nat)
    requires Terminated(rl, n) && j < n
    ensures rl[j + 1].vcn == rl[j].vcn + rl[j].length && rl[j].length > 0
    ensures rl[j + 1].length != 0 <==> j + 1 != n
  {
    assert rl[..n + 1][j + 1] == rl[j + 1] && rl[..n + 1][j] == rl[j] && rl[..n][j] == rl[j];
    if j + 1 < n {
      assert rl[..n][j + 1] == rl[j + 1];
    }
  }

  /** Cut the last b clusters off the hole. */
  method SplitTail(rl: array<Run>, j: nat, b: nat, unused: int, ghost n: nat) returns (left: int)
    requires Terminated(rl[..], n) && j < n && n + 1 < rl.Length
    modifies rl
    ensures rl[..n + 2] == Replaced(old(rl[..]), n, j, Two(old(rl[j]), old(rl[j]).length - b))
    ensures left == if j + 1 == n then unused else unused - 1
  {
    hide Terminated, Replaced;
    ghost var was := rl[..];
    left := unused;
    NextVcn(was, n, j);
    if rl[j + 1].length != 0 {
      left := left - 1;
      ShiftUp(rl, j, 1, n);
      assert rl[j] == rl[..j + 2][j] == was[j] && rl[j + 1] == rl[..j + 2][j + 1] == was[j + 1];
    } else {
      rl[j + 2] := Run(rl[j + 1].vcn, rl[j + 1].lcn, rl[j + 1].length);
      assert rl[j + 2..n + 2] == was[j + 1..n + 1];
    }
    rl[j + 1] := Run(rl[j + 1].vcn - b, LCN_HOLE, b);
    rl[j] := rl[j].(length := rl[j].length - b);
    SplitShape(was, rl[..], n, j, Two(was[j], was[j].length - b));
  }

  lemma ThreePieces(r: Run, b: nat, e: int)
    requires r.lcn == LCN_HOLE && 0 < b < e < r.length
    ensures HolePieces(r, Three(r, b, e))
  {
  }

  lemma TwoPieces(r: Run, e: int)
    requires r.lcn == LCN_HOLE && 0 < e < r.length
    ensures HolePieces(r, Two(r, e))
  {
  }

  /** Run r holds cluster v and stays inside v's compression block. */
  predicate Inside(r: Run, v: int, b: nat)
    requires b > 0
  {
    BlockStart(v, b) <= r.vcn <= v < r.vcn + r.length <= BlockStart(v, b) + b
  }

  /**
   * Whether the hole can be cut down to the block of v: a hole longer than a block if it reaches the
   * end of v's block, a shorter one, which is never cut, if it lies inside that block itself.
   */
  predicate CanBeInside(r: Run, v: int, b: nat)
    requires b > 0
  {
    if r.length > b then BlockStart(v, b) + b <= r.vcn + r.length
    else BlockStart(v, b) <= r.vcn && r.vcn + r.length <= BlockStart(v, b) + b
  }

  /** Two holes whose part handed out crosses a block boundary: one exactly a block long, one longer. */
  lemma CrossingHoles()
    ensures !CanBeInside(Run(10, LCN_HOLE, 16), 12, 16)
    ensures !CanBeInside(Run(10, LCN_HOLE, 18), 20, 16)
  {
  }

  /** A cluster's block begins at the largest multiple of b up to it. */
  lemma BlockFloor(v: nat, b: nat, q: nat, x: nat)
    requires b > 0 && x == q * b
    ensures x <= v ==> x <= BlockStart(v, b)
    ensures v < x ==> BlockStart(v, b) + b <= x
    ensures x <= v < x + b ==> BlockStart(v, b) == x
  {
    var k := v / b;
    assert v == k * b + v % b;
    MulStep(k, q, b);
    MulStep(q, k, b);
  }

  /** A hole exactly one block long is inside a block if and only if it is that block. */
  lemma OneBlockHole(r: Run, v: nat, b: nat)
    requires b > 0 && r.length == b && 0 <= r.vcn <= v < r.vcn + b
    ensures CanBeInside(r, v, b) <==> r.vcn % b == 0
  {
    if r.vcn % b == 0 {
      var q := r.vcn / b;
      assert r.vcn == q * b;
      BlockFloor(v, b, q, r.vcn);
    } else if CanBeInside(r, v, b) {
      var q := v / b;
      assert BlockStart(v, b) == q * b == r.vcn;
      Unpack(q, 0, b);
    }
  }

  /** What of the write's compression block lies before the hole, the whole block when nothing does. */
  function DataPart(r: Run, v: int, b: nat): int
    requires b > 0
  {
    if BlockStart(v, b) < r.vcn then r.vcn - BlockStart(v, b) else b
  }

  lemma TailMod(q: nat, d: nat, m: nat, b: nat, length: nat)
    requires d < b && length > 0 && q * b + d + length == m * b
    ensures length % b == if d == 0 then 0 else b - d
  {
    MulStep(m, q, b);
    MulStep(q, m, b);
    MulAdd(q, m - q, b);
    if d == 0 {
      Unpack(m - q, 0, b);
    } else {
      MulAdd(m - q - 1, 1, b);
      Unpack(m - q - 1, b - d, b);
    }
  }

  /** The part computed from the length of the hole is right for a hole that ends with a block. */
  lemma PartRight(r: Run, v: nat, b: nat, part: int)
    requires b > 0 && 0 <= r.vcn <= v < r.vcn + r.length && (r.vcn + r.length) % b == 0
    requires var p := b - r.length % b; part == if v - r.vcn + p >= b then b else p
    ensures part == DataPart(r, v, b)
  {
    var q, d, m := r.vcn / b, r.vcn % b, (r.vcn + r.length) / b;
    assert r.vcn == q * b + d && r.vcn + r.length == m * b;
    TailMod(q, d, m, b, r.length);
    var x := q * b;
    BlockFloor(v, b, q, x);
    MulAdd(q, 1, b);
    BlockFloor(v, b, q + 1, x + b);
    hide BlockStart;
  }

  /** The list kept its meaning: same clusters, same start, same end mark, the runs around j untouched. */
  ghost predicate Kept(was: seq<Run>, n: nat, now: seq<Run>, m: nat, j: nat)
    requires Terminated(was, n)
  {
    && Terminated(now, m) && n <= m <= n + 2 && now[m] == was[n]
    && Cells(now[..m]) == Cells(was[..n]) && now[0].vcn == was[0].vcn
    && j <= n && now[..j] == was[..j] && now[j + 1 + (m - n)..m + 1] == was[j + 1..n + 1]
  }

  lemma KeptBy(was: seq<Run>, n: nat, now: seq<Run>, j: nat, ps: seq<Run>)
    requires Terminated(was, n) && j < n && was[j].lcn == LCN_HOLE && HolePieces(was[j], ps) && |ps| <= 3
    requires n + |ps| <= |now| && now[..n + |ps|] == Replaced(was, n, j, ps)
    ensures Kept(was, n, now, n - 1 + |ps|, j)
    ensures now[j..j + |ps|] == ps
  {
    var m, r := n - 1 + |ps|, Replaced(was, n, j, ps);
    ReplacedKeeps(was, n, j, ps);
    assert now[..m] == r[..m] && now[..m + 1] == r[..m + 1] && now[m] == r[m] && now[0] == r[0];
    assert now[..j] == now[..n + |ps|][..j] == was[..j];
    assert now[j..j + |ps|] == now[..n + |ps|][j..j + |ps|];
    assert now[j + |ps|..m + 1] == now[..n + |ps|][j + |ps|..m + 1];
  }

  /** Where the write begins and its block ends, relative to the hole. */
  lemma Placed(r: Run, v: nat, w: nat, b: nat)
    requires b > 0 && 0 <= r.vcn <= v <= w && v < r.vcn + r.length && BlockStart(v, b) == BlockStart(w, b)
    ensures var e := BlockStart(w, b) + b - r.vcn;
            v - r.vcn < e && e > 0 && r.vcn + e - b <= v
            && (e <= r.length <==> BlockStart(v, b) + b <= r.vcn + r.length)
            && ((r.vcn + r.length) % b == 0 ==> e <= r.length)
  {
    if (r.vcn + r.length) % b == 0 {
      var q := (r.vcn + r.length) / b;
      assert r.vcn + r.length == q * b;
      BlockFloor(v, b, q, r.vcn + r.length);
    }
  }

  /** The clusters of the block before the hole, computed from the length of the hole. */
  function LengthPart(r: Run, v: int, b: nat): int
    requires b > 0
  {
    var p := b - r.length % b;
    if v - r.vcn + p >= b then b else p
  }

  /** The pieces are holes that end at the block's start, at its end x, or with the hole. */
  ghost predicate EndsAt(ps: seq<Run>, x: int, b: nat, r: Run) {
    forall k :: 0 <= k < |ps| ==> && ps[k].lcn == LCN_HOLE
                                  && (End(ps[k]) == x - b || End(ps[k]) == x || End(ps[k]) == End(r))
  }

  lemma PieceEnds(r: Run, b: nat, e: int)
    requires r.lcn == LCN_HOLE
    ensures EndsAt(Three(r, b, e), r.vcn + e, b, r) && EndsAt(Two(r, e), r.vcn + e, b, r)
    ensures e == r.length ==> EndsAt(Two(r, r.length - b), r.vcn + e, b, r)
  {
  }

  /** Splitting a hole longer than a block; e is where the write's block ends, relative to the hole. */
  method SplitLong(rl: array<Run>, j: nat, b: nat, v: nat, e: int, ghost n: nat)
    returns (at: nat, left: int, ghost m: nat)
    requires Terminated(rl[..], n) && j < n < rl.Length && 0 < b < rl[j].length && rl[j].lcn == LCN_HOLE
    requires rl[j].vcn <= v < rl[j].vcn + rl[j].length && n + 3 <= rl.Length
    requires e > 0 && rl[j].vcn + e - b <= v < rl[j].vcn + e
    modifies rl
    ensures Kept(old(rl[..]), n, rl[..], m, j) && j <= at <= j + (m - n) && m < rl.Length
    ensures rl[at].lcn == LCN_HOLE && rl[at].vcn <= v < End(rl[at])
    ensures e <= old(rl[j]).length ==>
              && rl[at].vcn == old(rl[j].vcn) + (if e > b then e - b else 0) && End(rl[at]) == old(rl[j].vcn) + e
              && m == n + (if e > b then 1 else 0) + (if e < old(rl[j]).length then 1 else 0)
              && EndsAt(rl[j..j + 1 + (m - n)], old(rl[j].vcn) + e, b, old(rl[j]))
    ensures e > old(rl[j]).length ==>
              var r := old(rl[j]);
              && m == n + 1
              && rl[at] == if v >= End(r) - b then Run(End(r) - b, LCN_HOLE, b) else r.(length := r.length - b)
    ensures left == 2 - (m - n) + if j + 1 == n && old(rl[j]).length <= e then 1 else 0
  {
    hide Terminated, HolePieces, Replaced, Kept, EndsAt;
    PieceEnds(rl[j], b, e);
    ghost var was, r, ps := rl[..], rl[j], [];
    left := 2;
    at := j;
    var begin := v - rl[j].vcn;
    if e < rl[j].length {
      if e > b {
        left := left - 2;
        ThreePieces(r, b, e);
        SplitThree(rl, j, b, e, n);
        ps := Three(r, b, e);
        m := n + 2;
        at := j + 1;
      } else {
        left := left - 1;
        TwoPieces(r, e);
        SplitTwo(rl, j, e, n);
        ps := Two(r, e);
        m := n + 1;
        at := j + (if begin < e then 0 else 1);
      }
      KeptBy(was, n, rl[..], j, ps);
    } else {
      left := SplitTail(rl, j, b, left, n);
      ps := Two(r, r.length - b);
      TwoPieces(r, r.length - b);
      KeptBy(was, n, rl[..], j, ps);
      m := n + 1;
      assert rl[j + 1] == rl[..][j..j + 2][1] == ps[1];
      if v >= rl[j + 1].vcn {
        at := j + 1;
      }
    }
    assert rl[j..j + 1 + (m - n)] == rl[..][j..j + |ps|] == ps;
    assert rl[at] == ps[at - j];
  }

  lemma WholeBlock(r: Run, v: nat, b: nat)
    requires b > 0 && 0 <= r.vcn <= v < r.vcn + b && r.length == b && (r.vcn + b) % b == 0
    ensures BlockStart(v, b) == r.vcn
  {
    var q := (r.vcn + b) / b;
    assert r.vcn + b == q * b;
    MulAdd(q - 1, 1, b);
    assert q >= 1;
    BlockFloor(v, b, q - 1, r.vcn);
  }

  lemma AlignedPart(r: Run, v: nat, b: nat)
    requires b > 0 && 0 <= r.vcn <= v < r.vcn + r.length
    ensures (r.vcn + r.length) % b == 0 ==> LengthPart(r, v, b) == DataPart(r, v, b)
    ensures (r.vcn + r.length) % b == 0 && r.length == b ==> DataPart(r, v, b) == b && Inside(r, v, b)
  {
    if (r.vcn + r.length) % b == 0 {
      PartRight(r, v, b, LengthPart(r, v, b));
      if r.length == b {
        WholeBlock(r, v, b);
      }
    }
  }

  /** Holes that end with a compression block. */
  ghost predicate BlockEnd(r: Run, b: nat)
    requires b > 0
  {
    r.lcn == LCN_HOLE && End(r) % b == 0
  }

  lemma BlockEndIs(r: Run, b: nat)
    requires b > 0
    ensures BlockEnd(r, b) <==> r.lcn == LCN_HOLE && (r.vcn + r.length) % b == 0
  {
  }

  lemma PiecesEnd(rl: seq<Run>, j: nat, d: nat, x: int, v: nat, b: nat, r: Run)
    requires b > 0 && j + 1 + d <= |rl| && x == BlockStart(v, b) + b && EndsAt(rl[j..j + 1 + d], x, b, r)
    requires r.lcn == LCN_HOLE
    ensures forall k :: j <= k <= j + d ==> BlockEnd(rl[k], b) || End(rl[k]) == End(r)
    ensures BlockEnd(r, b) ==> forall k :: j <= k <= j + d ==> BlockEnd(rl[k], b)
  {
    var q := v / b;
    assert BlockStart(v, b) == q * b;
    MulAdd(q, 1, b);
    Unpack(q, 0, b);
    Unpack(q + 1, 0, b);
    forall k | j <= k <= j + d
      ensures BlockEnd(rl[k], b) || End(rl[k]) == End(r)
      ensures BlockEnd(r, b) ==> BlockEnd(rl[k], b)
    {
      assert rl[k] == rl[j..j + 1 + d][k - j];
    }
  }

  lemma Unsplit(rl: seq<Run>, n: nat, j: nat)
    requires Terminated(rl, n) && j < n
    ensures Kept(rl, n, rl, n, j)
  {
  }

  /**
   * split_compressed_hole for a write from cluster v to cluster w of one compression block of b
   * clusters, in the hole at position j. Two elements are spare when the hole is longer than a block.
   */
  method SplitHole(rl: array<Run>, j: nat, b: nat, v: nat, w: nat, updateFrom: int, unused: int, ghost n: nat)
    returns (at: nat, part: int, update: int, left: int, ghost m: nat)
    requires Terminated(rl[..], n) && j < n < rl.Length && b > 0 && rl[j].lcn == LCN_HOLE
    requires 0 <= rl[j].vcn <= v <= w && v < rl[j].vcn + rl[j].length && BlockStart(v, b) == BlockStart(w, b)
    requires rl[j].length > b ==> n + 3 <= rl.Length
    modifies rl
    ensures Kept(old(rl[..]), n, rl[..], m, j) && j <= at <= j + (m - n) && m < rl.Length
    ensures rl[at].lcn == LCN_HOLE && rl[at].vcn <= v < End(rl[at])
    ensures Inside(rl[at], v, b) <==> CanBeInside(old(rl[j]), v, b)
    ensures CanBeInside(old(rl[j]), v, b) ==>
              var r, x := old(rl[j]), BlockStart(v, b);
              && rl[at].vcn == (if r.vcn < x then x else r.vcn) && End(rl[at]) == Min(End(r), x + b)
              && m == n + (if r.vcn < x then 1 else 0) + (if x + b < End(r) then 1 else 0)
    ensures !CanBeInside(old(rl[j]), v, b) && old(rl[j]).length > b ==>
              var r := old(rl[j]);
              && m == n + 1
              && rl[at] == if v >= End(r) - b then Run(End(r) - b, LCN_HOLE, b) else r.(length := r.length - b)
    ensures CanBeInside(old(rl[j]), v, b)
            ==> forall k :: j <= k <= j + (m - n) ==> BlockEnd(rl[k], b) || End(rl[k]) == End(old(rl[j]))
    ensures BlockEnd(old(rl[j]), b) ==> forall k :: j <= k <= j + (m - n) ==> BlockEnd(rl[k], b)
    ensures old(rl[j].vcn + rl[j].length) % b == 0 && old(rl[j]).length >= b
            ==> Inside(rl[at], v, b) && part == DataPart(old(rl[j]), v, b)
    ensures old(rl[j]).length <= b
            ==> rl[..] == old(rl[..]) && at == j && part == b && left == unused && update == updateFrom
    ensures old(rl[j]).length > b ==> part == LengthPart(old(rl[j]), v, b)
    ensures old(rl[j]).length > b
            ==> update == if updateFrom == -1 || rl[at].vcn < updateFrom then rl[at].vcn else updateFrom
    ensures old(rl[j]).length > b
            ==> var merged := j + 1 == n && old(rl[j].vcn + rl[j].length) <= BlockStart(v, b) + b;
                left == 2 - (m - n) + if merged then 1 else 0
  {
    hide Terminated, DataPart, BlockStart, Kept, LengthPart, EndsAt, BlockEnd;
    ghost var was, r := rl[..], rl[j];
    at, part, update, left, m := j, b, updateFrom, unused, n;
    Placed(r, v, w, b);
    AlignedPart(r, v, b);
    BlockEndIs(r, b);
    if rl[j].length > b {
      part := LengthPart(rl[j], v, b);
      at, left, m := SplitLong(rl, j, b, v, BlockStart(w, b) + b - rl[j].vcn, n);
      if BlockStart(v, b) + b <= End(r) {
        PiecesEnd(rl[..], j, m - n, BlockStart(v, b) + b, v, b, r);
      }
      if update == -1 || rl[at].vcn < update {
        update := rl[at].vcn;
      }
    } else {
      Unsplit(was, n, j);
    }
  }
}

/** Whole histories of the fsck cluster bitmap: marking, clearing and reading blocks in any order. */
module BitmapHistory {
  import opened ShadowBlock
  import opened ShadowBitmap

  datatype Op = Range(lcn: nat, length: int, bit: bool) | ReadBlock(pos: nat)

  /** Ranges lie in the volume; the last block is read only where filling it stays inside it. */
  predicate Fits(op: Op, nr: nat)
    requires nr > 0
  {
    match op
    case Range(lcn, length, _) => lcn + length <= nr
    case ReadBlock(pos) => pos / BUF_SIZE == LastBlock(nr) ==> FillIndex(nr) < BUF_SIZE
  }

  predicate Touches(op: Op, c: int) {
    op.Range? && op.lcn <= c < op.lcn + op.length
  }

  /** Whether cluster c is taken after the operations: what the last one that covers it says. */
  ghost predicate Final(was: bool, ops: seq<Op>, c: int) {
    if ops == [] then was
    else if Touches(ops[|ops| - 1], c) then ops[|ops| - 1].bit
    else Final(was, ops[..|ops| - 1], c)
  }

  function MarkedBy(op: Op): nat {
    if op.Range? && op.bit && op.length > 0 then op.length else 0
  }

  /** Clusters marked by the operations, counted once for every time they are marked. */
  ghost function Marked(ops: seq<Op>): nat {
    if ops == [] then 0
    else Marked(ops[..|ops| - 1]) + MarkedBy(ops[|ops| - 1])
  }

  predicate OnlyMarks(ops: seq<Op>) {
    forall k :: 0 <= k < |ops| && ops[k].Range? ==> ops[k].bit
  }

  method Step(bm: ClusterBitmap, op: Op)
    requires bm.Valid() && Fits(op, bm.nrClusters)
    modifies bm
    ensures bm.Valid()
    ensures forall c :: c in bm.taken <==> if Touches(op, c) then op.bit else c in old(bm.taken)
    ensures op.Range? ==> op.bit ==> |bm.taken| + bm.dupCount == |old(bm.taken)| + old(bm.dupCount) + MarkedBy(op)
    ensures op.ReadBlock? ==> bm.taken == old(bm.taken) && bm.dupCount == old(bm.dupCount)
  {
    hide Laws;
    match op {
      case Range(lcn, length, bit) =>
        var ok := bm.SetRange(lcn, length, bit);
      case ReadBlock(pos) =>
        var _ := bm.FindBlock(pos);
    }
  }

  lemma FinalSnoc(ops: seq<Op>, op: Op, was: bool, c: int)
    ensures Final(was, ops + [op], c) <==> if Touches(op, c) then op.bit else Final(was, ops, c)
  {
    assert (ops + [op])[..|ops|] == ops;
  }

  lemma MarkedSnoc(ops: seq<Op>, op: Op)
    ensures Marked(ops + [op]) == Marked(ops) + MarkedBy(op)
  {
    assert (ops + [op])[..|ops|] == ops;
  }

  lemma EmptyHistory(s: set<int>)
    ensures Marked([]) == 0 && forall c :: Final(c in s, [], c) <==> c in s
  {
  }

  /**
   * Over any history every cluster ends as the last operation on it left it; while clusters are
   * only marked, the clusters taken and the duplicates counted account for every mark made.
   */
  method Replay(bm: ClusterBitmap, ops: seq<Op>)
    requires bm.Valid()
    requires forall k :: 0 <= k < |ops| ==> Fits(ops[k], bm.nrClusters)
    modifies bm
    ensures bm.Valid()
    ensures forall c :: c in bm.taken <==> Final(c in old(bm.taken), ops, c)
    ensures OnlyMarks(ops) ==> |bm.taken| + bm.dupCount == |old(bm.taken)| + old(bm.dupCount) + Marked(ops)
  {
    hide Laws, Touches, Final, Marked;
    assert ops[..0] == [];
    EmptyHistory(bm.taken);
    for i := 0 to |ops|
      invariant bm.Valid()
      invariant forall c :: c in bm.taken <==> Final(c in old(bm.taken), ops[..i], c)
      invariant OnlyMarks(ops) ==> |bm.taken| + bm.dupCount == |old(bm.taken)| + old(bm.dupCount) + Marked(ops[..i])
    {
      assert ops[..i + 1] == ops[..i] + [ops[i]];
      MarkedSnoc(ops[..i], ops[i]);
      Step(bm, ops[i]);
      forall c ensures c in bm.taken <==> Final(c in old(bm.taken), ops[..i + 1], c) {
        FinalSnoc(ops[..i], ops[i], c in old(bm.taken), c);
      }
    }
    assert ops[..|ops|] == ops;
  }
}

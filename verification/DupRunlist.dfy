/** The list of clusters found claimed twice: ntfs_fsck_make_dup_runlist. */
module DupRunlist {
  import opened Runlist
  import opened ShadowBlock

  /** The (vcn, lcn) pairs of one run. */
  ghost function RunPairs(r: Run): (p: seq<(int, int)>)
    requires r.length >= 0
    ensures |p| == r.length
  {
    seq(r.length, k => (r.vcn + k, r.lcn + k))
  }

  ghost function Expand(runs: seq<Run>): seq<(int, int)>
    requires Positive(runs)
  {
    if runs == [] then [] else Expand(runs[..|runs| - 1]) + RunPairs(runs[|runs| - 1])
  }

  /** Nothing allocated yet, or runs followed by their end mark. */
  predicate Closed(rl: seq<Run>) {
    rl != [] ==> rl[|rl| - 1].length == 0 && rl[|rl| - 1].lcn == LCN_ENOENT && Positive(rl[..|rl| - 1])
  }

  function Body(rl: seq<Run>): seq<Run> {
    if rl == [] then [] else rl[..|rl| - 1]
  }

  ghost function Pairs(rl: seq<Run>): seq<(int, int)>
    requires Closed(rl)
  {
    Expand(Body(rl))
  }

  predicate Mergeable(a: Run, b: Run) {
    a.vcn + a.length == b.vcn && a.lcn + a.length == b.lcn
  }

  /** No two neighbouring runs could be one. */
  ghost predicate Tight(runs: seq<Run>) {
    forall k :: 0 < k < |runs| ==> !Mergeable(runs[k - 1], runs[k])
  }

  lemma ExpandSnoc(runs: seq<Run>, r: Run)
    requires Positive(runs) && r.length > 0
    ensures Positive(runs + [r]) && Expand(runs + [r]) == Expand(runs) + RunPairs(r)
  {
    assert (runs + [r])[..|runs|] == runs;
  }

  lemma RunPairsJoin(a: Run, b: Run)
    requires a.length >= 0 && b.length >= 0 && Mergeable(a, b)
    ensures RunPairs(a.(length := a.length + b.length)) == RunPairs(a) + RunPairs(b)
  {
  }

  function EndMark(vcn: int): Run {
    Run(vcn, LCN_ENOENT, 0)
  }

  lemma CloseBody(body: seq<Run>, vcn: int)
    requires Positive(body)
    ensures Closed(body + [EndMark(vcn)]) && Body(body + [EndMark(vcn)]) == body
  {
    assert (body + [EndMark(vcn)])[..|body|] == body;
  }

  lemma Appended(body: seq<Run>, added: Run)
    requires Positive(body) && added.length > 0
    requires body == [] || !Mergeable(body[|body| - 1], added)
    ensures Positive(body + [added]) && Expand(body + [added]) == Expand(body) + RunPairs(added)
    ensures Tight(body) ==> Tight(body + [added])
  {
    ExpandSnoc(body, added);
  }

  lemma Grown(body: seq<Run>, added: Run)
    requires Positive(body) && added.length > 0 && body != [] && Mergeable(body[|body| - 1], added)
    ensures var k := |body| - 1; var b := body[k := body[k].(length := body[k].length + added.length)];
            Positive(b) && Expand(b) == Expand(body) + RunPairs(added) && (Tight(body) ==> Tight(b))
  {
    var k := |body| - 1;
    var grown := body[k].(length := body[k].length + added.length);
    var b := body[k := grown];
    assert body == body[..k] + [body[k]] && b == body[..k] + [grown];
    ExpandSnoc(body[..k], body[k]);
    ExpandSnoc(body[..k], grown);
    RunPairsJoin(body[k], added);
    forall j | 0 < j < |b| && Tight(body) ensures !Mergeable(b[j - 1], b[j]) {
      assert !Mergeable(body[j - 1], body[j]);
    }
  }

  method FindEnd(rl: seq<Run>) returns (i: nat)
    requires Closed(rl) && rl != []
    ensures i == |rl| - 1
  {
    i := 0;
    while rl[i].length != 0
      invariant 0 <= i < |rl|
      decreases |rl| - i
    {
      assert i != |rl| - 1;
      i := i + 1;
    }
  }

  /** ntfs_fsck_make_dup_runlist; the empty list is the null pointer. */
  method MakeDup(orig: seq<Run>, added: Run) returns (rl: seq<Run>)
    requires Closed(orig) && added.length > 0
    ensures Closed(rl) && rl != [] && rl[|rl| - 1].vcn == added.vcn + added.length
    ensures Pairs(rl) == Pairs(orig) + RunPairs(added)
    ensures |Pairs(rl)| > |Pairs(orig)|
    ensures Tight(Body(orig)) ==> Tight(Body(rl))
  {
    hide Expand, RunPairs, Tight, Positive;
    ghost var body := Body(orig);
    if orig == [] {
      rl := [added, EndMark(added.vcn + added.length)];
      Appended(body, added);
      assert rl == (body + [added]) + [EndMark(added.vcn + added.length)];
      CloseBody(body + [added], added.vcn + added.length);
      return;
    }
    var i := FindEnd(orig);
    var size := i + 1;
    if size > 1 && Mergeable(orig[size - 2], added) {
      var grown := orig[size - 2].(length := orig[size - 2].length + added.length);
      rl := orig[size - 2 := grown][size - 1 := orig[size - 1].(vcn := grown.vcn + grown.length)];
      Grown(body, added);
      assert rl == body[size - 2 := grown] + [EndMark(added.vcn + added.length)];
      CloseBody(body[size - 2 := grown], added.vcn + added.length);
    } else {
      rl := orig[..size - 1] + [added, EndMark(added.vcn + added.length)];
      Appended(body, added);
      assert rl == (body + [added]) + [EndMark(added.vcn + added.length)];
      CloseBody(body + [added], added.vcn + added.length);
    }
  }

  /** The duplicate run being collected; a negative lcn means there is none yet. */
  ghost predicate Collecting(tmp: Run, shift: int) {
    tmp.lcn == -1 || (tmp.lcn >= 0 && tmp.length > 0 && tmp.vcn - tmp.lcn == shift)
  }

  /** Everything found so far: the list and the run being collected. */
  ghost function Pending(rl: seq<Run>, tmp: Run): seq<(int, int)>
    requires Closed(rl) && (tmp.lcn != -1 ==> tmp.length > 0)
  {
    Pairs(rl) + if tmp.lcn == -1 then [] else RunPairs(tmp)
  }

  /** One more duplicated cluster. */
  method NoteDup(rl: seq<Run>, tmp: Run, vcn: int, lcn: int) returns (rl': seq<Run>, tmp': Run)
    requires Closed(rl) && Collecting(tmp, vcn - lcn) && lcn >= 0
    ensures Closed(rl') && Collecting(tmp', vcn - lcn)
    ensures Pending(rl', tmp') == Pending(rl, tmp) + [(vcn, lcn)]
    ensures Tight(Body(rl)) ==> Tight(Body(rl'))
    ensures rl' == rl || |Pairs(rl')| > |Pairs(rl)|
  {
    hide Closed, Body, Tight, Pairs;
    rl' := rl;
    if tmp.lcn == -1 {
      tmp' := Run(vcn, lcn, 1);
    } else if tmp.lcn + tmp.length == lcn {
      tmp' := tmp.(length := tmp.length + 1);
      RunPairsJoin(tmp, Run(vcn, lcn, 1));
    } else {
      rl' := MakeDup(rl, tmp);
      tmp' := Run(vcn, lcn, 1);
    }
    assert RunPairs(Run(vcn, lcn, 1)) == [(vcn, lcn)];
  }

  /** The clusters of s among lcn .. lcn + n - 1, each with its vcn, in order. */
  ghost function Hits(s: set<int>, vcn: int, lcn: int, n: nat): seq<(int, int)> {
    if n == 0 then []
    else Hits(s, vcn, lcn, n - 1) + if lcn + n - 1 in s then [(vcn + n - 1, lcn + n - 1)] else []
  }

  lemma {:induction false} HitsAdd(s: set<int>, vcn: int, lcn: int, m: nat, n: nat)
    ensures Hits(s, vcn, lcn, m + n) == Hits(s, vcn, lcn, m) + Hits(s, vcn + m, lcn + m, n)
  {
    if n > 0 {
      HitsAdd(s, vcn, lcn, m, n - 1);
      assert Hits(s, vcn, lcn, m + n)
          == Hits(s, vcn, lcn, m + n - 1)
             + if lcn + m + n - 1 in s then [(vcn + m + n - 1, lcn + m + n - 1)] else [];
    }
  }

  lemma {:induction false} HitsNone(s: set<int>, vcn: int, lcn: int, n: nat)
    requires forall c :: c in s ==> !(lcn <= c < lcn + n)
    ensures Hits(s, vcn, lcn, n) == []
  {
    if n > 0 { HitsNone(s, vcn, lcn, n - 1); }
  }

  /** Hits lists exactly the clusters of the run that are in s. */
  lemma {:induction false} HitsExact(s: set<int>, vcn: int, lcn: int, n: nat)
    ensures forall p :: p in Hits(s, vcn, lcn, n) <==> (p.1 in s && lcn <= p.1 < lcn + n && p.0 - p.1 == vcn - lcn)
    ensures |Hits(s, vcn, lcn, n)| == Overlap(s, lcn, n)
  {
    if n > 0 {
      HitsExact(s, vcn, lcn, n - 1);
    }
  }
}

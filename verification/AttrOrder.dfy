/** The order of attributes in an MFT record: type, then name as ntfs_names_full_collate has it, then value. */
module AttrOrder {
  import opened Bytes

  type Name = seq<word>

  /** A character in upper case; characters past the table stand for themselves. */
  function Up(upcase: seq<word>, c: word): word {
    if c < |upcase| then upcase[c] else c
  }

  function Upper(upcase: seq<word>, n: Name): (u: Name)
    ensures |u| == |n|
  {
    seq(|n|, i requires 0 <= i < |n| => Up(upcase, n[i]))
  }

  function Sign(x: int, y: int): int {
    if x < y then -1 else if x > y then 1 else 0
  }

  /** Lexicographic comparison of the common part of two sequences. */
  function Lex(a: seq<int>, b: seq<int>): int
    decreases |a|
  {
    if a == [] || b == [] then 0
    else if a[0] != b[0] then Sign(a[0], b[0])
    else Lex(a[1..], b[1..])
  }

  /** Lexicographic comparison in which a proper prefix comes first. */
  function Compare(a: seq<int>, b: seq<int>): int {
    var c := Lex(a, b);
    if c != 0 then c else Sign(|a|, |b|)
  }

  /** Names compare without case, then by length, then with case. */
  function NameOrder(upcase: seq<word>, a: Name, b: Name): int {
    var c := Compare(Upper(upcase, a), Upper(upcase, b));
    if c != 0 then c else Compare(a, b)
  }

  lemma {:induction false} LexSplit(a: seq<int>, b: seq<int>, k: nat)
    requires k <= |a| && k <= |b| && a[..k] == b[..k]
    ensures Lex(a, b) == Lex(a[k..], b[k..])
    decreases k
  {
    if k > 0 {
      assert a[0] == a[..k][0] == b[..k][0] == b[0];
      assert a[1..][..k - 1] == a[..k][1..] == b[..k][1..] == b[1..][..k - 1];
      LexSplit(a[1..], b[1..], k - 1);
      assert a[1..][k - 1..] == a[k..] && b[1..][k - 1..] == b[k..];
    } else {
      assert a[0..] == a && b[0..] == b;
    }
  }

  /** The comparison is decided at the first place where the two differ. */
  lemma LexAt(a: seq<int>, b: seq<int>, k: nat)
    requires k <= |a| && k <= |b| && a[..k] == b[..k]
    ensures k == |a| || k == |b| ==> Lex(a, b) == 0
    ensures k < |a| && k < |b| && a[k] != b[k] ==> Lex(a, b) == Sign(a[k], b[k])
  {
    LexSplit(a, b, k);
  }

  lemma {:induction false} LexFlip(a: seq<int>, b: seq<int>)
    ensures Lex(b, a) == -Lex(a, b)
    decreases |a|
  {
    if a != [] && b != [] && a[0] == b[0] { LexFlip(a[1..], b[1..]); }
  }

  lemma {:induction false} LexEqual(a: seq<int>, b: seq<int>)
    requires Lex(a, b) == 0 && |a| == |b|
    ensures a == b
    decreases |a|
  {
    if a != [] {
      LexEqual(a[1..], b[1..]);
      assert a == [a[0]] + a[1..] && b == [b[0]] + b[1..];
    }
  }

  lemma {:induction false} LexSame(a: seq<int>)
    ensures Lex(a, a) == 0
    decreases |a|
  {
    if a != [] { LexSame(a[1..]); }
  }

  /** Compare is a total order: antisymmetric, zero on equal sequences only, transitive. */
  lemma CompareFlip(a: seq<int>, b: seq<int>)
    ensures Compare(b, a) == -Compare(a, b)
    ensures Compare(a, b) == 0 <==> a == b
  {
    LexFlip(a, b);
    if Compare(a, b) == 0 {
      LexEqual(a, b);
    }
    LexSame(a);
  }

  lemma {:induction false} CompareTrans(a: seq<int>, b: seq<int>, c: seq<int>)
    requires Compare(a, b) < 0 && Compare(b, c) < 0
    ensures Compare(a, c) < 0
    decreases |a|
  {
    if a != [] && b != [] && c != [] && a[0] == b[0] == c[0] {
      assert Compare(a[1..], b[1..]) == Compare(a, b) && Compare(b[1..], c[1..]) == Compare(b, c);
      CompareTrans(a[1..], b[1..], c[1..]);
      assert Compare(a[1..], c[1..]) == Compare(a, c);
    }
  }

  lemma NameOrderFlip(upcase: seq<word>, a: Name, b: Name)
    ensures NameOrder(upcase, b, a) == -NameOrder(upcase, a, b)
    ensures NameOrder(upcase, a, b) == 0 <==> a == b
  {
    CompareFlip(Upper(upcase, a), Upper(upcase, b));
    CompareFlip(a, b);
  }

  lemma NameOrderTrans(upcase: seq<word>, a: Name, b: Name, c: Name)
    requires NameOrder(upcase, a, b) < 0 && NameOrder(upcase, b, c) < 0
    ensures NameOrder(upcase, a, c) < 0
  {
    var x, y, z := Upper(upcase, a), Upper(upcase, b), Upper(upcase, c);
    CompareFlip(x, y);
    CompareFlip(y, z);
    if Compare(x, y) < 0 && Compare(y, z) < 0 {
      CompareTrans(x, y, z);
    } else if Compare(x, y) == 0 && Compare(y, z) == 0 {
      CompareTrans(a, b, c);
    }
  }

  lemma UpperPrefix(upcase: seq<word>, a: Name, b: Name, p: nat)
    requires p < |a| && p < |b| && a[..p] == b[..p]
    ensures var x, y := Upper(upcase, a), Upper(upcase, b);
            x[..p] == y[..p] && (Up(upcase, a[p]) == Up(upcase, b[p]) ==> x[..p + 1] == y[..p + 1])
  {
    var x, y := Upper(upcase, a), Upper(upcase, b);
    forall i | 0 <= i < p ensures x[i] == y[i] {
      assert a[i] == a[..p][i] == b[..p][i] == b[i];
    }
  }

  /** The raw names first differ at p, or are equal up to the last common place; the upper case ones at q. */
  lemma Decided(upcase: seq<word>, a: Name, b: Name, p: nat, q: nat, n: nat)
    requires n == (if |a| < |b| then |a| else |b|) && p <= q < n && a[..p] == b[..p]
    requires a[p] != b[p] || p == n - 1
    requires var x, y := Upper(upcase, a), Upper(upcase, b);
             x[..q] == y[..q] && (x[q] != y[q] || q == n - 1)
    ensures NameOrder(upcase, a, b)
            == if Up(upcase, a[q]) != Up(upcase, b[q]) then Sign(Up(upcase, a[q]), Up(upcase, b[q]))
               else if |a| != |b| then Sign(|a|, |b|)
               else Sign(a[p], b[p])
  {
    var x, y := Upper(upcase, a), Upper(upcase, b);
    if x[q] == y[q] {
      assert x[..q + 1] == x[..q] + [x[q]] && y[..q + 1] == y[..q] + [y[q]];
      LexAt(x, y, q + 1);
    } else {
      LexAt(x, y, q);
    }
    if a[p] == b[p] {
      assert a[..p + 1] == a[..p] + [a[p]] && b[..p + 1] == b[..p] + [b[p]];
      LexAt(a, b, p + 1);
    } else {
      LexAt(a, b, p);
    }
  }

  /** Case decides only between names that are otherwise the same. */
  lemma CaseLast(upcase: seq<word>, a: Name, b: Name, a': Name, b': Name)
    requires Upper(upcase, a) == Upper(upcase, a') && Upper(upcase, b) == Upper(upcase, b')
    requires Upper(upcase, a) != Upper(upcase, b)
    ensures NameOrder(upcase, a, b) == NameOrder(upcase, a', b') != 0
  {
    hide Compare, Upper;
    CompareFlip(Upper(upcase, a), Upper(upcase, b));
  }

  /** ntfs_names_full_collate, case sensitive. */
  method FullCollate(upcase: seq<word>, a: Name, b: Name) returns (rc: int)
    ensures rc == NameOrder(upcase, a, b)
  {
    var cnt := if |a| < |b| then |a| else |b|;
    ghost var x, y := Upper(upcase, a), Upper(upcase, b);
    if cnt > 0 {
      ghost var n := cnt;
      var p := 0;
      cnt := cnt - 1;
      while cnt != 0 && a[p] == b[p]
        invariant 0 <= cnt && p + cnt == n - 1 && a[..p] == b[..p]
      {
        assert a[..p + 1] == a[..p] + [a[p]] && b[..p + 1] == b[..p] + [b[p]];
        p := p + 1;
        cnt := cnt - 1;
      }
      var c1, c2 := a[p], b[p];
      var u1, u2 := Up(upcase, c1), Up(upcase, c2);
      ghost var q := p;
      UpperPrefix(upcase, a, b, p);
      if u1 == u2 && cnt != 0 {
        var i := p;
        while true
          invariant p <= i < n - 1 && cnt == n - 1 - i && x[..i + 1] == y[..i + 1]
          decreases cnt
        {
          i := i + 1;
          u1, u2 := Up(upcase, a[i]), Up(upcase, b[i]);
          if u1 != u2 {
            break;
          }
          assert x[..i + 1] == x[..i] + [x[i]] && y[..i + 1] == y[..i] + [y[i]];
          cnt := cnt - 1;
          if cnt == 0 {
            break;
          }
        }
        q := i;
      }
      Decided(upcase, a, b, p, q, n);
      if u1 < u2 { return -1; }
      if u1 > u2 { return 1; }
      if |a| < |b| { return -1; }
      if |a| > |b| { return 1; }
      if c1 < c2 { return -1; }
      if c1 > c2 { return 1; }
    } else {
      if |a| < |b| { return -1; }
      if |a| > |b| { return 1; }
    }
    rc := 0;
  }
}

/** What the fixups detect: records put together from sectors of different writes. */
module TornWrites {
  import opened Bytes
  import opened MstFixup

  const CYCLE: nat := 65534

  /** One record of size bytes written again and again, its update sequence number carried over from write to write. */
  ghost predicate History(ws: seq<Record>, size: nat, u: nat) {
    && size > 0 && 4 <= u < SECTOR - 1
    && (forall k :: 0 <= k < |ws| ==> && 2 * |ws[k]| == size && |ws[k]| >= SECTOR
                                      && Protectable(ws[k], size) && ws[k][2] == 2 * u)
    && (forall k :: 0 < k < |ws| ==> ws[k][u] == Protected(ws[k - 1], size)[u])
  }

  /** The number write k leaves on disk. */
  ghost function Usn(ws: seq<Record>, size: nat, u: nat, k: nat): word
    requires History(ws, size, u) && k < |ws|
  {
    Protected(ws[k], size)[u]
  }

  lemma UsnStep(ws: seq<Record>, size: nat, u: nat, k: nat)
    requires History(ws, size, u) && k < |ws|
    ensures Usn(ws, size, u, k) == NextUsn(ws[k][u])
    ensures k > 0 ==> Usn(ws, size, u, k) == NextUsn(Usn(ws, size, u, k - 1))
  {
    StampRestore(ws[k], size / 512, u, NextUsn(ws[k][u]));
    assert Stamp(ws[k], size / 512, u, NextUsn(ws[k][u]))[u] == NextUsn(ws[k][u]);
  }

  lemma Successor(x: nat, usn: word)
    requires usn == x % CYCLE + 1
    ensures NextUsn(usn) == (x + 1) % CYCLE + 1
  {
  }

  /** The numbers of a history step through 1 .. 0xfffe and come round after 65534 writes. */
  lemma {:induction false} UsnAt(ws: seq<Record>, size: nat, u: nat, k: nat)
    requires History(ws, size, u) && k < |ws|
    ensures 1 <= Usn(ws, size, u, 0) < 0xffff
    ensures Usn(ws, size, u, k) == (Usn(ws, size, u, 0) - 1 + k) % CYCLE + 1
  {
    hide History, Protected, Usn, NextUsn;
    UsnStep(ws, size, u, 0);
    if k > 0 {
      UsnAt(ws, size, u, k - 1);
      UsnStep(ws, size, u, k);
      Successor(Usn(ws, size, u, 0) - 1 + (k - 1), Usn(ws, size, u, k - 1));
    }
  }

  /** The record read when sector i is the one write pick[i] left. */
  ghost function Mixed(ws: seq<Record>, size: nat, u: nat, pick: seq<nat>): (r: Record)
    requires History(ws, size, u) && |pick| * 512 == size
    requires forall i :: 0 <= i < |pick| ==> pick[i] < |ws|
    ensures 2 * |r| == size
  {
    seq(size / 2, j requires 0 <= j < size / 2 => Protected(ws[pick[j / SECTOR]], size)[j])
  }

  ghost predicate Picks(ws: seq<Record>, size: nat, pick: seq<nat>) {
    |pick| * 512 == size && forall i :: 0 <= i < |pick| ==> pick[i] < |ws|
  }

  /** What the check looks at in one written record. */
  lemma Image(ws: seq<Record>, size: nat, u: nat, k: nat)
    requires History(ws, size, u) && k < |ws|
    ensures var p := Protected(ws[k], size);
            && 2 * |p| == size && size % 512 == 0 && u + size / 512 < SECTOR - 1
            && p[2] == 2 * u && p[3] == size / 512 + 1 && p[u] == Usn(ws, size, u, k)
            && forall i :: 0 <= i < size / 512 ==> p[SECTOR * i + SECTOR - 1] == p[u]
  {
    var w := ws[k];
    hide Stamp, Restore;
    ProtectedReads(w, size);
    StampRestore(w, size / 512, u, NextUsn(w[u]));
  }

  lemma MixedWord(ws: seq<Record>, size: nat, u: nat, pick: seq<nat>, i: nat, j: nat)
    requires History(ws, size, u) && Picks(ws, size, pick) && i < |pick| && j < SECTOR
    ensures 2 * |Protected(ws[pick[i]], size)| == size
    ensures Mixed(ws, size, u, pick)[SECTOR * i + j] == Protected(ws[pick[i]], size)[SECTOR * i + j]
  {
    hide Protected;
    assert (SECTOR * i + j) / SECTOR == i;
  }

  lemma Start(ws: seq<Record>, size: nat, u: nat)
    requires History(ws, size, u)
    ensures size > 0 && 4 <= u < SECTOR - 1
  {
  }

  lemma MixedHeader(ws: seq<Record>, size: nat, u: nat, pick: seq<nat>)
    requires History(ws, size, u) && Picks(ws, size, pick) && 0 < |pick|
    ensures size % 512 == 0 && u + size / 512 < SECTOR - 1
    ensures var m := Mixed(ws, size, u, pick);
            m[2] == 2 * u && m[3] == size / 512 + 1 && m[u] == Usn(ws, size, u, pick[0])
  {
    hide Protected, Mixed, History, Usn;
    Start(ws, size, u);
    Image(ws, size, u, pick[0]);
    MixedWord(ws, size, u, pick, 0, 2);
    MixedWord(ws, size, u, pick, 0, 3);
    MixedWord(ws, size, u, pick, 0, u);
  }

  lemma MixedTail(ws: seq<Record>, size: nat, u: nat, pick: seq<nat>, i: nat)
    requires History(ws, size, u) && Picks(ws, size, pick) && i < |pick|
    ensures Mixed(ws, size, u, pick)[SECTOR * i + SECTOR - 1] == Usn(ws, size, u, pick[i])
  {
    hide Protected, Mixed, History;
    Image(ws, size, u, pick[i]);
    MixedWord(ws, size, u, pick, i, SECTOR - 1);
  }

  /** Two writes a whole number of cycles apart. */
  predicate SameCycle(a: nat, b: nat) {
    a % CYCLE == b % CYCLE
  }

  lemma SameUsn(s: nat, a: nat, b: nat)
    ensures (s + a) % CYCLE == (s + b) % CYCLE <==> a % CYCLE == b % CYCLE
  {
  }

  lemma TailMatches(ws: seq<Record>, size: nat, u: nat, pick: seq<nat>, i: nat)
    requires History(ws, size, u) && Picks(ws, size, pick) && i < |pick| && u < SECTOR
    ensures var m := Mixed(ws, size, u, pick);
            m[SECTOR * i + SECTOR - 1] == m[u] <==> SameCycle(pick[i], pick[0])
  {
    hide Protected, Mixed, History, Usn;
    MixedHeader(ws, size, u, pick);
    MixedTail(ws, size, u, pick, i);
    UsnAt(ws, size, u, pick[i]);
    UsnAt(ws, size, u, pick[0]);
    SameUsn(Usn(ws, size, u, 0) - 1, pick[i], pick[0]);
  }

  lemma WholeMeans(m: Record, size: nat, u: nat, pick: seq<nat>)
    requires 2 * |m| == size && |pick| * 512 == size && size > 0 && u + |pick| < SECTOR - 1
    requires m[2] == 2 * u && m[3] == |pick| + 1
    requires forall i :: 0 <= i < |pick| ==> (m[SECTOR * i + SECTOR - 1] == m[u] <==> SameCycle(pick[i], pick[0]))
    ensures Verdict(m, size) == Fine <==> forall i :: 0 <= i < |pick| ==> SameCycle(pick[i], pick[0])
  {
    hide SameCycle;
    assert ValidRecord(size, m[2], m[3]);
    if Whole(m, size / 512, u) {
      forall i | 0 <= i < |pick| ensures SameCycle(pick[i], pick[0]) {
        assert m[SECTOR * i + SECTOR - 1] == m[u];
      }
    } else {
      var i :| 0 <= i < size / 512 && m[SECTOR * i + SECTOR - 1] != m[u];
      assert !SameCycle(pick[i], pick[0]);
    }
  }

  /** A mixture passes the check exactly when its sectors come from writes whole cycles of 65534 apart. */
  lemma MixtureDetected(ws: seq<Record>, size: nat, u: nat, pick: seq<nat>)
    requires History(ws, size, u) && Picks(ws, size, pick)
    ensures Verdict(Mixed(ws, size, u, pick), size) == Fine
            <==> forall i :: 0 <= i < |pick| ==> SameCycle(pick[i], pick[0])
    ensures Verdict(Mixed(ws, size, u, pick), size) != Fine ==> Baad(Deprotected(Mixed(ws, size, u, pick), size))
  {
    Start(ws, size, u);
    hide Protected, Mixed, History, Usn, Verdict, Restore, ValidRecord, SameCycle;
    MixedHeader(ws, size, u, pick);
    var m := Mixed(ws, size, u, pick);
    forall i | 0 <= i < |pick| ensures m[SECTOR * i + SECTOR - 1] == m[u] <==> SameCycle(pick[i], pick[0]) {
      TailMatches(ws, size, u, pick, i);
    }
    WholeMeans(m, size, u, pick);
  }

  lemma Close(a: nat, b: nat, first: nat)
    requires first <= a < first + CYCLE && first <= b < first + CYCLE && a % CYCLE == b % CYCLE
    ensures a == b
  {
  }

  /** Among fewer than 65535 consecutive writes, what passes the check is one whole write. */
  lemma RecentMixture(ws: seq<Record>, size: nat, u: nat, pick: seq<nat>, first: nat)
    requires History(ws, size, u) && Picks(ws, size, pick)
    requires forall i :: 0 <= i < |pick| ==> first <= pick[i] < first + CYCLE
    ensures Verdict(Mixed(ws, size, u, pick), size) == Fine
            <==> forall i :: 0 <= i < |pick| ==> pick[i] == pick[0]
    ensures Verdict(Mixed(ws, size, u, pick), size) == Fine
            ==> Mixed(ws, size, u, pick) == Protected(ws[pick[0]], size)
  {
    MixtureDetected(ws, size, u, pick);
    forall i | 0 <= i < |pick| && SameCycle(pick[i], pick[0]) ensures pick[i] == pick[0] {
      Close(pick[i], pick[0], first);
    }
    if forall i :: 0 <= i < |pick| ==> pick[i] == pick[0] {
      var m, p := Mixed(ws, size, u, pick), Protected(ws[pick[0]], size);
      forall j | 0 <= j < |m| ensures m[j] == p[j] {
        assert j / SECTOR < |pick|;
      }
    }
  }
}

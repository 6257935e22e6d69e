/** What one attribute after the other says about a search of an MFT record (ntfs_attr_find, libntfs/attrib.c). */
module AttrSearch {
  import opened Bytes
  import opened AttrOrder
  import opened AttrImage
  import opened Slices

  datatype WantedName = AnyName | Called(n: Name)
  datatype Wanted = AnyValue | Value(v: seq<byte>)
  datatype Turn = Past | Here | Gone
  datatype Lookup = Hit | Missing | Corrupt

  /** What attribute a says about a search: go past it, it is the one, or there is none. Type 0 takes any attribute. */
  function Step(upcase: seq<word>, a: Attr, kind: nat, name: WantedName, val: Wanted): Turn {
    if kind == AT_UNUSED then Here
    else if a.kind > kind then Gone
    else if a.kind < kind then Past
    else
      var c := if name.AnyName? then 0 else NameOrder(upcase, name.n, a.name);
      if c < 0 then Gone
      else if c > 0 then Past
      else if val.AnyValue? then Here
      else
        var d := Compare(val.v, a.value);
        if d < 0 then Gone else if d > 0 then Past else Here
  }

  /** What a search asks for: the type, the name unless any will do, and the value if there is one. Type 0 asks for
      any attribute. */
  predicate Wants(a: Attr, kind: nat, name: WantedName, val: Wanted) {
    || kind == AT_UNUSED
    || (a.kind == kind && (name.AnyName? || a.name == name.n) && (val.AnyValue? || a.value == val.v))
  }

  /** The search stops at an attribute exactly when it is what it asks for. */
  lemma HereMeans(upcase: seq<word>, a: Attr, kind: nat, name: WantedName, val: Wanted)
    ensures Step(upcase, a, kind, name, val) == Here <==> Wants(a, kind, name, val)
  {
    hide NameOrder, Compare;
    if name.Called? { NameOrderFlip(upcase, name.n, a.name); }
    if val.Value? { CompareFlip(val.v, a.value); }
  }

  /** The name of an attribute that is to be added: none where the search takes any. */
  function NameOf(name: WantedName): Name {
    if name.AnyName? then [] else name.n
  }

  /** The key of the search as an attribute. */
  predicate Carries(n: Attr, kind: nat, name: WantedName, val: Wanted) {
    n.kind == kind && n.name == NameOf(name) && (val.Value? ==> n.value == val.v)
  }

  /** A search that can rely on the order of the record: not one for a value under any name. */
  predicate Ordered(name: WantedName, val: Wanted) {
    name.Called? || val.AnyValue?
  }

  lemma UnnamedFirst(upcase: seq<word>, b: Name)
    ensures b != [] ==> NameOrder(upcase, [], b) < 0
  {
    var x: Name := [];
    assert Lex(Upper(upcase, x), Upper(upcase, b)) == 0;
  }

  lemma StepBefore(upcase: seq<word>, a: Attr, n: Attr, kind: nat, name: WantedName, val: Wanted)
    requires Carries(n, kind, name, val) && Ordered(name, val)
    ensures Step(upcase, a, kind, name, val) == Past ==> Before(upcase, a, n)
    ensures Step(upcase, a, kind, name, val) == Gone ==> Before(upcase, n, a)
  {
    hide NameOrder, Compare;
    NameOrderFlip(upcase, NameOf(name), a.name);
    CompareFlip(n.value, a.value);
  }

  /** Behind an attribute that ends the search, every attribute would. */
  lemma GoneOn(upcase: seq<word>, a: Attr, b: Attr, kind: nat, name: WantedName, val: Wanted)
    requires Step(upcase, a, kind, name, val) == Gone && Before(upcase, a, b) && Ordered(name, val)
    ensures Step(upcase, b, kind, name, val) == Gone
  {
    hide NameOrder, Compare;
    var n := NameOf(name);
    NameOrderFlip(upcase, n, a.name);
    NameOrderFlip(upcase, a.name, b.name);
    NameOrderFlip(upcase, n, b.name);
    if kind == a.kind == b.kind && name.Called? {
      if NameOrder(upcase, n, a.name) < 0 && NameOrder(upcase, a.name, b.name) < 0 {
        NameOrderTrans(upcase, n, a.name, b.name);
      } else if n == a.name == b.name {
        CompareTrans(val.v, a.value, b.value);
      }
    }
  }

  /** Result of a search that began with attribute from and stopped at attribute k. */
  ghost predicate Searched(upcase: seq<word>, attrs: seq<Attr>, from: nat, kind: nat, name: WantedName, val: Wanted,
                           f: Lookup, k: nat) {
    && from <= k <= |attrs| && f != Corrupt
    && (forall i :: from <= i < k ==> Step(upcase, attrs[i], kind, name, val) == Past)
    && (f == Hit ==> k < |attrs| && Step(upcase, attrs[k], kind, name, val) == Here)
    && (f == Missing && k < |attrs| ==> Step(upcase, attrs[k], kind, name, val) == Gone)
  }

  /** In a sorted record a failed search means that the attribute is not there. */
  lemma MissingAbsent(upcase: seq<word>, attrs: seq<Attr>, from: nat, kind: nat, name: WantedName, val: Wanted, k: nat)
    requires Sorted(upcase, attrs) && Searched(upcase, attrs, from, kind, name, val, Missing, k) && Ordered(name, val)
    ensures forall j :: from <= j < |attrs| ==> !Wants(attrs[j], kind, name, val)
  {
    hide Step, Before, Wants;
    forall j | from <= j < |attrs| ensures !Wants(attrs[j], kind, name, val) {
      HereMeans(upcase, attrs[j], kind, name, val);
      if j > k {
        SortedAll(upcase, attrs, k, j);
        GoneOn(upcase, attrs[k], attrs[j], kind, name, val);
      }
    }
  }

  ghost predicate Present(attrs: seq<Attr>, from: nat, kind: nat, name: WantedName, val: Wanted) {
    exists j :: from <= j < |attrs| && Wants(attrs[j], kind, name, val)
  }

  /** Some attribute of the type has the value v, and every earlier one of the type a smaller value. */
  ghost predicate Climbs(attrs: seq<Attr>, from: nat, kind: nat, v: seq<byte>) {
    exists j :: && from <= j < |attrs| && attrs[j].kind == kind && attrs[j].value == v
                && forall i :: from <= i < j ==> attrs[i].kind < kind
                                                 || (attrs[i].kind == kind && Compare(v, attrs[i].value) > 0)
  }

  /** A value looked for under any name is found exactly when the values climb up to it. */
  lemma AnyNameFound(upcase: seq<word>, attrs: seq<Attr>, from: nat, kind: nat, v: seq<byte>, f: Lookup, k: nat)
    requires Searched(upcase, attrs, from, kind, AnyName, Value(v), f, k) && kind != AT_UNUSED
    ensures f == Hit <==> Climbs(attrs, from, kind, v)
  {
    hide Compare;
    forall i | from <= i < |attrs| ensures Compare(v, attrs[i].value) == 0 <==> v == attrs[i].value {
      CompareFlip(v, attrs[i].value);
    }
    if Climbs(attrs, from, kind, v) {
      var j :| && from <= j < |attrs| && attrs[j].kind == kind && attrs[j].value == v
               && forall i :: from <= i < j ==> attrs[i].kind < kind
                                                || (attrs[i].kind == kind && Compare(v, attrs[i].value) > 0);
      assert Step(upcase, attrs[j], kind, AnyName, Value(v)) == Here;
      assert forall i :: from <= i < j ==> Step(upcase, attrs[i], kind, AnyName, Value(v)) == Past;
    }
  }

  /** A sorted record need not have climbing values: the second attribute is there and is not found. */
  lemma AnyNameMissed(upcase: seq<word>, a: Attr, b: Attr, kind: nat)
    requires kind != AT_UNUSED && a.kind == b.kind == kind && a.value == [2] && b.value == [1]
    requires NameOrder(upcase, a.name, b.name) < 0
    ensures Sorted(upcase, [a, b]) && Searched(upcase, [a, b], 0, kind, AnyName, Value([1]), Missing, 0)
    ensures Present([a, b], 0, kind, AnyName, Value([1]))
  {
    hide NameOrder;
    assert Wants([a, b][1], kind, AnyName, Value([1]));
  }

  lemma HitPresent(upcase: seq<word>, attrs: seq<Attr>, from: nat, kind: nat, name: WantedName, val: Wanted,
                   f: Lookup, k: nat)
    requires Searched(upcase, attrs, from, kind, name, val, f, k) && Sorted(upcase, attrs) && Ordered(name, val)
    ensures f == Hit <==> Present(attrs, from, kind, name, val)
  {
    hide Step, Wants;
    if f == Hit {
      HereMeans(upcase, attrs[k], kind, name, val);
    }
    if f == Missing {
      MissingAbsent(upcase, attrs, from, kind, name, val, k);
    }
  }

  lemma FoundMeans(upcase: seq<word>, attrs: seq<Attr>, from: nat, kind: nat, name: WantedName, val: Wanted,
                   f: Lookup, k: nat)
    requires Searched(upcase, attrs, from, kind, name, val, f, k)
    ensures Sorted(upcase, attrs) && Ordered(name, val)
            ==> (f == Hit <==> Present(attrs, from, kind, name, val))
    ensures kind == AT_UNUSED ==> k == from && (f == Hit <==> from < |attrs|)
    ensures kind != AT_UNUSED && !Ordered(name, val) ==> (f == Hit <==> Climbs(attrs, from, kind, val.v))
    ensures f == Hit ==> k < |attrs| && Wants(attrs[k], kind, name, val)
    ensures forall i :: from <= i < k ==> !Wants(attrs[i], kind, name, val)
  {
    hide Sorted, Present, Climbs;
    forall i | from <= i <= k < |attrs| || from <= i < k
      ensures Step(upcase, attrs[i], kind, name, val) == Here <==> Wants(attrs[i], kind, name, val)
    {
      HereMeans(upcase, attrs[i], kind, name, val);
    }
    if kind == AT_UNUSED && from < |attrs| {
      assert Step(upcase, attrs[from], kind, name, val) == Here;
    }
    if Sorted(upcase, attrs) && Ordered(name, val) {
      HitPresent(upcase, attrs, from, kind, name, val, f, k);
    }
    if kind != AT_UNUSED && !Ordered(name, val) {
      AnyNameFound(upcase, attrs, from, kind, val.v, f, k);
    }
  }

  /** hits are, in order, the wanted attributes among the first to. */
  ghost predicate Hits(attrs: seq<Attr>, kind: nat, name: WantedName, val: Wanted, hits: seq<nat>, to: nat) {
    && to <= |attrs|
    && (forall i :: 0 <= i < |hits| ==> hits[i] < to && Wants(attrs[hits[i]], kind, name, val))
    && (forall i :: 0 < i < |hits| ==> hits[i - 1] < hits[i])
    && forall j :: 0 <= j < to && Wants(attrs[j], kind, name, val) ==> j in hits
  }

  lemma HitsNone(attrs: seq<Attr>, kind: nat, name: WantedName, val: Wanted)
    ensures Hits(attrs, kind, name, val, [], 0)
  {
  }

  /** One more successful search. */
  lemma HitsNext(upcase: seq<word>, attrs: seq<Attr>, kind: nat, name: WantedName, val: Wanted, hits: seq<nat>,
                 from: nat, k: nat)
    requires Hits(attrs, kind, name, val, hits, from)
    requires Searched(upcase, attrs, from, kind, name, val, Hit, k)
    ensures Hits(attrs, kind, name, val, hits + [k], k + 1)
  {
    FoundMeans(upcase, attrs, from, kind, name, val, Hit, k);
    hide Wants, Searched;
  }

  /** The search that fails, in a record where that means that there is no more. */
  lemma HitsLast(upcase: seq<word>, attrs: seq<Attr>, kind: nat, name: WantedName, val: Wanted, hits: seq<nat>,
                 from: nat, k: nat)
    requires Hits(attrs, kind, name, val, hits, from)
    requires Searched(upcase, attrs, from, kind, name, val, Missing, k)
    ensures Hits(attrs, kind, name, val, hits, k)
    ensures kind == AT_UNUSED || (Sorted(upcase, attrs) && Ordered(name, val))
            ==> Hits(attrs, kind, name, val, hits, |attrs|)
  {
    hide Sorted, Present, Ordered, Step, Wants;
    FoundMeans(upcase, attrs, from, kind, name, val, Missing, k);
    if Sorted(upcase, attrs) && Ordered(name, val) {
      MissingAbsent(upcase, attrs, from, kind, name, val, k);
    }
  }

  /** Where a failed search stops, the attribute can be inserted. */
  lemma InsertSorted(upcase: seq<word>, attrs: seq<Attr>, kind: nat, name: WantedName, val: Wanted, k: nat, n: Attr)
    requires Sorted(upcase, attrs) && Searched(upcase, attrs, 0, kind, name, val, Missing, k) && Ordered(name, val)
    requires Carries(n, kind, name, val)
    ensures Sorted(upcase, attrs[..k] + [n] + attrs[k..])
  {
    hide Step, Before, Carries;
    var r := attrs[..k] + [n] + attrs[k..];
    forall j | 0 < j < |r| ensures Before(upcase, r[j - 1], r[j]) {
      if j < k {
        assert r[j - 1] == attrs[j - 1] && r[j] == attrs[j];
      } else if j == k {
        StepBefore(upcase, attrs[k - 1], n, kind, name, val);
      } else if j == k + 1 {
        StepBefore(upcase, attrs[k], n, kind, name, val);
      } else {
        assert r[j - 1] == attrs[j - 2] && r[j] == attrs[j - 1];
      }
    }
  }

  /** Attribute j has a name and the wanted type, and v is greater than every value of that type up to it. */
  ghost predicate NamedBelow(attrs: seq<Attr>, kind: nat, v: seq<byte>, j: nat) {
    && j < |attrs| && attrs[j].kind == kind && attrs[j].name != []
    && forall i :: 0 <= i <= j && attrs[i].kind == kind ==> Compare(v, attrs[i].value) > 0
  }

  /** Without a name, the new attribute would come to stand behind a named one. */
  ghost predicate Overtakes(attrs: seq<Attr>, kind: nat, v: seq<byte>) {
    exists j: nat :: NamedBelow(attrs, kind, v, j)
  }

  lemma NotBefore(upcase: seq<word>, a: Attr, n: Attr)
    requires a.kind == n.kind && NameOrder(upcase, n.name, a.name) < 0
    ensures !Before(upcase, a, n)
  {
    hide NameOrder, Compare;
    NameOrderFlip(upcase, a.name, n.name);
  }

  lemma PassesNamed(upcase: seq<word>, attrs: seq<Attr>, kind: nat, v: seq<byte>, k: nat, j: nat)
    requires Sorted(upcase, attrs) && Searched(upcase, attrs, 0, kind, AnyName, Value(v), Missing, k)
    requires kind != AT_UNUSED && NamedBelow(attrs, kind, v, j)
    ensures j < k
  {
    hide Compare, NameOrder, Sorted;
    if k < j {
      SortedAll(upcase, attrs, k, j);
    }
  }

  lemma Witnessed(attrs: seq<Attr>, kind: nat, v: seq<byte>, j: nat)
    requires NamedBelow(attrs, kind, v, j)
    ensures Overtakes(attrs, kind, v)
  {
  }

  /** A search under any name that passed no named attribute is the search for the unnamed one. */
  lemma UnnamedSearch(upcase: seq<word>, attrs: seq<Attr>, kind: nat, v: seq<byte>, k: nat)
    requires Searched(upcase, attrs, 0, kind, AnyName, Value(v), Missing, k)
    requires kind != AT_UNUSED && !Overtakes(attrs, kind, v)
    ensures Searched(upcase, attrs, 0, kind, Called([]), Value(v), Missing, k)
  {
    hide Compare, NameOrder, Overtakes;
    forall i | 0 <= i < k ensures Step(upcase, attrs[i], kind, Called([]), Value(v)) == Past {
      if attrs[i].kind == kind {
        if attrs[i].name != [] {
          assert NamedBelow(attrs, kind, v, i);
          Witnessed(attrs, kind, v, i);
        }
        NameOrderFlip(upcase, [], attrs[i].name);
      }
    }
    if k < |attrs| && attrs[k].kind == kind {
      UnnamedFirst(upcase, attrs[k].name);
      NameOrderFlip(upcase, [], attrs[k].name);
    }
  }

  /** Adding a value without a name keeps the order exactly when the search passes no named attribute. */
  lemma InsertUnnamed(upcase: seq<word>, attrs: seq<Attr>, kind: nat, v: seq<byte>, k: nat, n: Attr)
    requires Sorted(upcase, attrs) && Searched(upcase, attrs, 0, kind, AnyName, Value(v), Missing, k)
    requires kind != AT_UNUSED && Carries(n, kind, AnyName, Value(v))
    ensures Sorted(upcase, attrs[..k] + [n] + attrs[k..]) <==> !Overtakes(attrs, kind, v)
  {
    hide Sorted, Before, Compare, NameOrder;
    var r := attrs[..k] + [n] + attrs[k..];
    if Overtakes(attrs, kind, v) {
      var j: nat :| NamedBelow(attrs, kind, v, j);
      PassesNamed(upcase, attrs, kind, v, k, j);
      if Sorted(upcase, r) {
        SortedAll(upcase, r, j, k);
        UnnamedFirst(upcase, attrs[j].name);
        NotBefore(upcase, attrs[j], n);
      }
    } else {
      UnnamedSearch(upcase, attrs, kind, v, k);
      InsertSorted(upcase, attrs, kind, Called([]), Value(v), k, n);
    }
  }

  /** The order is lost when an unnamed attribute is added to a record with a named one of a smaller value. */
  lemma OrderLost(upcase: seq<word>, a: Attr, n: Attr, kind: nat)
    requires kind != AT_UNUSED && a.kind == kind && a.name != [] && a.value == [0]
    requires Carries(n, kind, AnyName, Value([1]))
    ensures Sorted(upcase, [a]) && Searched(upcase, [a], 0, kind, AnyName, Value([1]), Missing, 1)
    ensures !Sorted(upcase, [a] + [n])
  {
    hide NameOrder;
    assert NamedBelow([a], kind, [1], 0);
    assert [a][..1] + [n] + [a][1..] == [a] + [n];
    InsertUnnamed(upcase, [a], kind, [1], 1, n);
  }

  /** Whether an insertion where the search stopped keeps a sorted record sorted. */
  ghost predicate KeepsOrder(attrs: seq<Attr>, kind: nat, name: WantedName, val: Wanted) {
    Ordered(name, val) || !Overtakes(attrs, kind, val.v)
  }

  lemma InsertOrder(upcase: seq<word>, attrs: seq<Attr>, kind: nat, name: WantedName, val: Wanted, k: nat, n: Attr)
    requires Sorted(upcase, attrs) && Searched(upcase, attrs, 0, kind, name, val, Missing, k)
    requires kind != AT_UNUSED && Carries(n, kind, name, val)
    ensures Sorted(upcase, attrs[..k] + [n] + attrs[k..]) <==> KeepsOrder(attrs, kind, name, val)
  {
    hide Sorted, Searched, Overtakes, Carries;
    if Ordered(name, val) {
      InsertSorted(upcase, attrs, kind, name, val, k, n);
    } else {
      InsertUnnamed(upcase, attrs, kind, val.v, k, n);
    }
  }

  /** The comparison of values: common part first, then lengths. */
  method CompareValue(v: seq<byte>, w: seq<byte>) returns (t: Turn)
    ensures var d := Compare(v, w); t == if d < 0 then Gone else if d > 0 then Past else Here
  {
    var rc := Lex(v, w);
    if rc == 0 {
      if |v| == |w| {
        return Here;
      }
      if |v| < |w| {
        return Gone;
      }
    } else if rc < 0 {
      return Gone;
    }
    t := Past;
  }

  lemma NameSlice(bytes: seq<byte>, a: nat, n: nat, o: nat, len: nat)
    requires a + n <= |bytes| && o + 2 * len <= n
    ensures ReadName(bytes, a + o, len) == ReadName(bytes[a..a + n], o, len)
  {
  }

  /** One attribute of the search, read from the record. */
  method Examine(upcase: seq<word>, bytes: seq<byte>, a: nat, kind: nat, name: WantedName, val: Wanted,
                 ghost attr: Attr) returns (t: Turn)
    requires WellFormed(attr) && a + |attr.image| <= |bytes| && bytes[a..a + |attr.image|] == attr.image
    ensures t == Step(upcase, attr, kind, name, val)
  {
    hide NameOrder, Compare, ReadName, Le16, Le32;
    ghost var n := |attr.image|;
    LeSlice(bytes, a, n, 0);
    if kind != AT_UNUSED && Le32(bytes, a) > kind {
      return Gone;
    }
    if kind == AT_UNUSED {
      return Here;
    }
    if Le32(bytes, a) != kind {
      return Past;
    }
    var nameLen := bytes[a + 9];
    assert bytes[a + 9] == bytes[a..a + n][9];
    if name == Called([]) {
      UnnamedFirst(upcase, attr.name);
      if nameLen != 0 {
        return Gone;
      }
      NameOrderFlip(upcase, [], attr.name);
    } else if name.Called? {
      LeSlice(bytes, a, n, 10);
      NameSlice(bytes, a, n, Le16(bytes, a + 10), nameLen);
      var rc := FullCollate(upcase, name.n, ReadName(bytes, a + Le16(bytes, a + 10), nameLen));
      if rc != 0 {
        return if rc < 0 then Gone else Past;
      }
    }
    if val.AnyValue? {
      return Here;
    }
    LeSlice(bytes, a, n, 16);
    LeSlice(bytes, a, n, 20);
    var from, len := a + Le16(bytes, a + 20), Le32(bytes, a + 16);
    SliceSlice(bytes, a, n, Le16(bytes, a + 20), len);
    t := CompareValue(val.v, bytes[from..from + len]);
  }


}

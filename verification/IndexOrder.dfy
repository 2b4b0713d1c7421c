/** Values that carry an index, and the order a client restores from the indices. */
module IndexOrder {
  import opened Text

  datatype SortableValue = SortableValue(index: int, value: string)

  ghost predicate ByIndex(vs: seq<SortableValue>) {
    forall i, j :: 0 <= i < j < |vs| ==> vs[i].index <= vs[j].index
  }

  function Values(vs: seq<SortableValue>): seq<string> {
    seq(|vs|, i requires 0 <= i < |vs| => vs[i].value)
  }

  /** out lists the values of a key in index order; values with equal indices may come in any order. */
  ghost predicate InIndexOrder(vs: seq<SortableValue>, out: seq<string>) {
    exists q :: multiset(q) == multiset(vs) && ByIndex(q) && out == Values(q)
  }

  function InsertByIndex(x: SortableValue, q: seq<SortableValue>): seq<SortableValue> {
    if q == [] || x.index <= q[0].index then [x] + q else [q[0]] + InsertByIndex(x, q[1..])
  }

  lemma {:induction false} InsertKeepsCounts(x: SortableValue, q: seq<SortableValue>)
    ensures multiset(InsertByIndex(x, q)) == multiset(q) + multiset{x}
  {
    if q != [] {
      assert q == [q[0]] + q[1..];
      InsertKeepsCounts(x, q[1..]);
    }
  }

  lemma {:induction false} ByIndexCons(x: SortableValue, q: seq<SortableValue>)
    requires ByIndex(q) && forall y :: y in q ==> x.index <= y.index
    ensures ByIndex([x] + q)
  {
  }

  lemma {:induction false} InsertKeepsOrder(x: SortableValue, q: seq<SortableValue>)
    requires ByIndex(q)
    ensures multiset(InsertByIndex(x, q)) == multiset(q) + multiset{x}
    ensures ByIndex(InsertByIndex(x, q))
  {
    InsertKeepsCounts(x, q);
    if q != [] {
      assert q == [q[0]] + q[1..];
      assert ByIndex(q[1..]) && forall y :: y in q ==> q[0].index <= y.index;
      if x.index <= q[0].index {
        ByIndexCons(x, q);
      } else {
        InsertKeepsOrder(x, q[1..]);
        forall y | y in InsertByIndex(x, q[1..]) ensures q[0].index <= y.index {
          assert y in multiset(InsertByIndex(x, q[1..]));
        }
        ByIndexCons(q[0], InsertByIndex(x, q[1..]));
      }
    }
  }

  /** sort.Slice on the index field. */
  method SortByIndex(vs: seq<SortableValue>) returns (q: seq<SortableValue>)
    ensures multiset(q) == multiset(vs) && ByIndex(q)
  {
    q := [];
    for i := 0 to |vs|
      invariant multiset(q) == multiset(vs[..i]) && ByIndex(q)
    {
      InsertKeepsOrder(vs[i], q);
      assert vs[..i + 1] == vs[..i] + [vs[i]];
      q := InsertByIndex(vs[i], q);
    }
    assert vs[..|vs|] == vs;
  }

  /** Distinct entries in index order, one for each index below n: the i-th has index i. */
  lemma {:induction false} IndexIsPosition(q: seq<SortableValue>, v: seq<string>, i: nat)
    requires ByIndex(q) && Distinct(q) && i < |q|
    requires forall e :: e in q ==> 0 <= e.index < |v| && e.value == v[e.index]
    requires forall j :: 0 <= j < |v| ==> SortableValue(j, v[j]) in q
    ensures i < |v| && q[i] == SortableValue(i, v[i])
    decreases i
  {
    DistinctPositions(q);
    assert q[i] in q;
    if i > 0 {
      IndexIsPosition(q, v, i - 1);
      assert q[i - 1] != q[i];
    }
    assert i <= q[i].index < |v|;
    var at :| 0 <= at < |q| && q[at] == SortableValue(i, v[i]);
    if at < i {
      IndexIsPosition(q, v, at);
    }
  }

  lemma {:induction false} OrderedIsOriginal(q: seq<SortableValue>, v: seq<string>)
    requires ByIndex(q) && Distinct(q)
    requires forall e :: e in q ==> 0 <= e.index < |v| && e.value == v[e.index]
    requires forall j :: 0 <= j < |v| ==> SortableValue(j, v[j]) in q
    ensures Values(q) == v
  {
    forall i | 0 <= i < |q| ensures i < |v| && q[i] == SortableValue(i, v[i]) {
      IndexIsPosition(q, v, i);
    }
    if |v| > 0 {
      var at :| 0 <= at < |q| && q[at] == SortableValue(|v| - 1, v[|v| - 1]);
    }
    if |q| > 0 {
      assert q[|q| - 1] in q;
    }
  }

  ghost function SortedEntries(vs: seq<SortableValue>): (q: seq<SortableValue>)
    ensures multiset(q) == multiset(vs) && ByIndex(q)
  {
    if vs == [] then []
    else
      assert vs == [vs[0]] + vs[1..];
      InsertKeepsOrder(vs[0], SortedEntries(vs[1..]));
      InsertByIndex(vs[0], SortedEntries(vs[1..]))
  }

  /** Of entries that hold each value of v once, under its position, sorting by index restores v - whatever
      order they are stored in and however the sort treats ties. */
  lemma {:induction false} RestoresOrder(vs: seq<SortableValue>, v: seq<string>, out: seq<string>)
    requires Distinct(vs)
    requires forall e :: e in vs ==> 0 <= e.index < |v| && e.value == v[e.index]
    requires forall j :: 0 <= j < |v| ==> SortableValue(j, v[j]) in vs
    ensures InIndexOrder(vs, out) <==> out == v
  {
    forall q | multiset(q) == multiset(vs) && ByIndex(q) ensures Values(q) == v {
      SameElements(q, vs);
      forall e ensures e in q <==> e in vs {
        assert e in q <==> e in Elements(q);
        assert e in vs <==> e in Elements(vs);
      }
      OrderedIsOriginal(q, v);
    }
    if out == v {
      var q := SortedEntries(vs);
      assert Values(q) == out;
    }
  }

  // ----- what comes first -----

  function Unindexed(): SortableValue -> bool {
    (e: SortableValue) => e.index < 0
  }

  lemma {:induction false} ValuesSame(a: seq<SortableValue>, b: seq<SortableValue>)
    requires multiset(a) == multiset(b)
    ensures multiset(Values(a)) == multiset(Values(b))
    decreases |a|
  {
    assert |a| == |multiset(a)| == |multiset(b)| == |b|;
    if a != [] {
      assert a[0] in multiset(a) && a[0] in multiset(b);
      var i :| 0 <= i < |b| && b[i] == a[0];
      PermutationOfRest(a, b, i);
      ValuesSame(a[1..], b[..i] + b[i + 1..]);
      var front, back := Values(b)[..i], Values(b)[i + 1..];
      assert Values(a) == [a[0].value] + Values(a[1..]);
      assert Values(b) == front + [b[i].value] + back;
      assert Values(b[..i] + b[i + 1..]) == front + back;
    }
  }

  lemma {:induction false} AllUnindexed(q: seq<SortableValue>)
    requires forall e :: e in q ==> e.index < 0
    ensures Select(q, Unindexed(), true) == q && Select(q, Unindexed(), false) == []
  {
    if q != [] {
      var init, last := q[..|q| - 1], q[|q| - 1];
      assert q == init + [last];
      AllUnindexed(init);
    }
  }

  /** In index order the values without an index stand at the front. */
  lemma {:induction false} OrderedSplits(q: seq<SortableValue>)
    requires ByIndex(q)
    ensures q == Select(q, Unindexed(), true) + Select(q, Unindexed(), false)
  {
    if q != [] {
      var init, last := q[..|q| - 1], q[|q| - 1];
      assert q == init + [last];
      if last.index < 0 {
        forall e | e in q ensures e.index < 0 {
          var i :| 0 <= i < |q| && q[i] == e;
          assert q[i].index <= q[|q| - 1].index;
        }
        AllUnindexed(q);
      } else {
        OrderedSplits(init);
        SelectPast(q, Unindexed());
        AppendJoined(init, last, Select(init, Unindexed(), true), Select(init, Unindexed(), false));
      }
    }
  }

  lemma {:induction false} SelectPast<T>(q: seq<T>, p: T -> bool)
    requires q != [] && !p(q[|q| - 1])
    ensures Select(q, p, true) == Select(q[..|q| - 1], p, true)
    ensures Select(q, p, false) == Select(q[..|q| - 1], p, false) + [q[|q| - 1]]
  {
    var rest := Select(q[..|q| - 1], p, true);
    assert rest + [] == rest;
  }

  lemma {:induction false} AppendJoined<T>(init: seq<T>, last: T, low: seq<T>, high: seq<T>)
    requires init == low + high
    ensures init + [last] == low + (high + [last])
  {
  }

  lemma {:induction false} UnindexedFirst(vs: seq<SortableValue>, out: seq<string>)
    requires InIndexOrder(vs, out)
    ensures var plain := Values(Select(vs, Unindexed(), true));
            |plain| <= |out| && multiset(out[..|plain|]) == multiset(plain)
  {
    var q :| multiset(q) == multiset(vs) && ByIndex(q) && out == Values(q);
    OrderedSplits(q);
    SelectSame(q, vs, Unindexed(), true);
    var low, low' := Select(q, Unindexed(), true), Select(vs, Unindexed(), true);
    ValuesSame(low, low');
    SameLength(low, low');
    FrontValues(low, Select(q, Unindexed(), false));
  }

  lemma {:induction false} SameLength<T>(a: seq<T>, b: seq<T>)
    requires multiset(a) == multiset(b)
    ensures |a| == |b|
  {
    assert |a| == |multiset(a)| == |multiset(b)| == |b|;
  }

  lemma {:induction false} FrontValues(a: seq<SortableValue>, b: seq<SortableValue>)
    ensures |Values(a)| == |a| && |Values(a + b)| >= |a| && Values(a + b)[..|a|] == Values(a)
  {
  }
}

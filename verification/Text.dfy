/** Strings as the repository uses them: cut at the first colon, searched for a substring, ordered and
    sorted. */
module Text {

  // ----- key:value -----

  /** What stands before the first colon, or the whole string when there is none. */
  function BeforeColon(s: string): (k: string)
    ensures ':' !in k && |k| <= |s| && s[..|k|] == k
    ensures ':' in s ==> |k| < |s| && s[|k|] == ':'
    ensures ':' !in s ==> k == s
  {
    if s == "" || s[0] == ':' then "" else
      var k := BeforeColon(s[1..]);
      assert s[..|k| + 1] == [s[0]] + s[1..][..|k|];
      [s[0]] + k
  }

  function AfterColon(s: string): string
    requires ':' in s
  {
    s[|BeforeColon(s)| + 1..]
  }

  function WithColon(k: string, v: string): string {
    k + ":" + v
  }

  lemma {:induction false} CutWithColon(k: string, v: string)
    requires ':' !in k
    ensures BeforeColon(WithColon(k, v)) == k && AfterColon(WithColon(k, v)) == v
  {
    var s := WithColon(k, v);
    if k == "" {
      assert s == ":" + v;
    } else {
      assert s[1..] == WithColon(k[1..], v);
      CutWithColon(k[1..], v);
    }
    assert s[|k| + 1..] == v;
  }

  lemma {:induction false} ColonJoins(s: string)
    requires ':' in s
    ensures WithColon(BeforeColon(s), AfterColon(s)) == s
  {
  }

  // ----- substrings -----

  predicate OccursAt(s: string, sub: string, i: nat) {
    i + |sub| <= |s| && s[i..i + |sub|] == sub
  }

  predicate Contains(s: string, sub: string) {
    exists i: nat | i <= |s| :: OccursAt(s, sub, i)
  }

  // ----- order -----

  /** The order of strings by code point. */
  predicate Le(a: string, b: string) {
    a == "" || (b != "" && (a[0] < b[0] || (a[0] == b[0] && Le(a[1..], b[1..]))))
  }

  /** A string comes before another exactly when it begins it, or has the lesser character where they first
      differ. */
  lemma {:induction false} LeFirstDifference(a: string, b: string)
    ensures Le(a, b)
       <==> (|a| <= |b| && b[..|a|] == a)
            || exists i: nat :: LessAt(a, b, i)
  {
    if a != "" && b != "" {
      forall i: nat | LessAt(a, b, i) ensures a[0] <= b[0] {
        assert i > 0 ==> a[..i][0] == b[..i][0];
      }
      if a[0] == b[0] {
        LeFirstDifference(a[1..], b[1..]);
        assert a == [a[0]] + a[1..] && b == [b[0]] + b[1..];
        if |a| <= |b| {
          assert b[..|a|] == [b[0]] + b[1..][..|a[1..]|];
        }
        DifferenceShifts(a, b);
      } else if a[0] < b[0] {
        assert LessAt(a, b, 0);
      }
    }
  }

  ghost predicate LessAt(a: string, b: string, i: nat) {
    i < |a| && i < |b| && a[..i] == b[..i] && a[i] < b[i]
  }

  lemma {:induction false} DifferenceShifts(a: string, b: string)
    requires a != "" && b != "" && a[0] == b[0]
    ensures (exists i: nat :: LessAt(a, b, i)) <==> exists i: nat :: LessAt(a[1..], b[1..], i)
  {
    if i: nat :| LessAt(a, b, i) {
      assert a[..i][1..] == a[1..][..i - 1] && b[..i][1..] == b[1..][..i - 1];
      assert LessAt(a[1..], b[1..], i - 1);
    }
    if i: nat :| LessAt(a[1..], b[1..], i) {
      assert a[..i + 1] == [a[0]] + a[1..][..i] && b[..i + 1] == [b[0]] + b[1..][..i];
      assert LessAt(a, b, i + 1);
    }
  }

  lemma {:induction false} LeTotal(a: string, b: string)
    ensures Le(a, b) || Le(b, a)
  {
    if a != "" && b != "" {
      LeTotal(a[1..], b[1..]);
    }
  }

  lemma {:induction false} LeAntisymmetric(a: string, b: string)
    requires Le(a, b) && Le(b, a)
    ensures a == b
  {
    if a != "" {
      LeAntisymmetric(a[1..], b[1..]);
      assert a == [a[0]] + a[1..] && b == [b[0]] + b[1..];
    }
  }

  lemma {:induction false} LeTransitive(a: string, b: string, c: string)
    requires Le(a, b) && Le(b, c)
    ensures Le(a, c)
  {
    if a != "" && a[0] == b[0] == c[0] {
      LeTransitive(a[1..], b[1..], c[1..]);
    }
  }

  // ----- sorting -----

  ghost predicate Sorted(q: seq<string>) {
    forall i, j :: 0 <= i < j < |q| ==> Le(q[i], q[j])
  }

  ghost predicate Distinct<T(!new)>(q: seq<T>) {
    forall x :: x in q ==> multiset(q)[x] == 1
  }

  /** No two positions hold the same element. */
  lemma {:induction false} DistinctPositions<T(!new)>(q: seq<T>)
    requires Distinct(q)
    ensures forall i, j :: 0 <= i < j < |q| ==> q[i] != q[j]
  {
    forall i, j | 0 <= i < j < |q| ensures q[i] != q[j] {
      var front, back := q[..j], q[j..];
      assert q == front + back;
      assert multiset(q)[q[j]] == multiset(front)[q[j]] + multiset(back)[q[j]];
      assert q[j] in q && back[0] in multiset(back);
      assert q[j] !in multiset(front);
      assert q[i] == front[i];
    }
  }

  function Insert(x: string, q: seq<string>): seq<string> {
    if q == [] || Le(x, q[0]) then [x] + q else [q[0]] + Insert(x, q[1..])
  }

  lemma {:induction false} SortedCons(h: string, q: seq<string>)
    requires Sorted(q) && forall y :: y in q ==> Le(h, y)
    ensures Sorted([h] + q)
  {
  }

  lemma {:induction false} HeadIsLeast(q: seq<string>)
    requires Sorted(q) && q != []
    ensures Sorted(q[1..]) && forall y :: y in q ==> Le(q[0], y)
  {
    LeTotal(q[0], q[0]);
  }

  lemma {:induction false} InsertCounts(x: string, q: seq<string>)
    ensures multiset(Insert(x, q)) == multiset(q) + multiset{x}
  {
    if q != [] {
      assert q == [q[0]] + q[1..];
      InsertCounts(x, q[1..]);
    }
  }

  lemma {:induction false} InsertSorts(x: string, q: seq<string>)
    requires Sorted(q)
    ensures Sorted(Insert(x, q)) && multiset(Insert(x, q)) == multiset(q) + multiset{x}
  {
    InsertCounts(x, q);
    if q == [] {
      assert Insert(x, q) == [x];
    } else {
      LeTotal(x, q[0]);
      HeadIsLeast(q);
      if Le(x, q[0]) {
        forall y | y in q ensures Le(x, y) {
          LeTransitive(x, q[0], y);
        }
        SortedCons(x, q);
      } else {
        InsertSorts(x, q[1..]);
        forall y | y in Insert(x, q[1..]) ensures Le(q[0], y) {
          assert y in multiset(Insert(x, q[1..]));
        }
        SortedCons(q[0], Insert(x, q[1..]));
      }
    }
  }

  /** sort.Strings. */
  method SortStrings(q: seq<string>) returns (r: seq<string>)
    ensures Sorted(r) && multiset(r) == multiset(q)
  {
    r := [];
    for i := 0 to |q|
      invariant Sorted(r) && multiset(r) == multiset(q[..i])
    {
      InsertSorts(q[i], r);
      r := Insert(q[i], r);
      assert q[..i + 1] == q[..i] + [q[i]];
    }
    assert q[..|q|] == q;
  }

  lemma {:induction false} FirstIsLeast(a: seq<string>, x: string)
    requires Sorted(a) && x in multiset(a)
    ensures a != [] && Le(a[0], x)
  {
    var i :| 0 <= i < |a| && a[i] == x;
    LeTotal(x, x);
  }

  lemma {:induction false} TailCounts<T>(a: seq<T>)
    requires a != []
    ensures multiset(a[1..]) == multiset(a) - multiset{a[0]}
  {
    assert a == [a[0]] + a[1..];
  }

  /** A multiset of strings has one sorted listing. */
  lemma {:induction false} SortedUnique(a: seq<string>, b: seq<string>)
    requires Sorted(a) && Sorted(b) && multiset(a) == multiset(b)
    ensures a == b
  {
    assert |a| == |multiset(a)| == |multiset(b)| == |b|;
    if a != [] {
      HeadsEqual(a, b);
      TailCounts(a);
      TailCounts(b);
      SortedUnique(a[1..], b[1..]);
      assert a == [a[0]] + a[1..] && b == [b[0]] + b[1..];
    }
  }

  lemma {:induction false} HeadsEqual(a: seq<string>, b: seq<string>)
    requires Sorted(a) && Sorted(b) && multiset(a) == multiset(b) && a != [] && b != []
    ensures a[0] == b[0]
  {
    assert a[0] in multiset(a) && b[0] in multiset(b);
    FirstIsLeast(a, b[0]);
    FirstIsLeast(b, a[0]);
    LeAntisymmetric(a[0], b[0]);
  }

  ghost function Elements<T>(q: seq<T>): set<T> {
    set x | x in q
  }

  /** The elements of a set of strings in order, each once. */
  ghost function SortSet(s: set<string>): (q: seq<string>)
    ensures Sorted(q) && Distinct(q) && Elements(q) == s
  {
    if s == {} then []
    else
      var x :| x in s;
      var q := SortSet(s - {x});
      InsertSorts(x, q);
      InsertDistinct(x, q);
      Insert(x, q)
  }

  lemma {:induction false} SameElements<T(!new)>(q: seq<T>, r: seq<T>)
    requires multiset(q) == multiset(r)
    ensures Distinct(q) <==> Distinct(r)
    ensures Elements(q) == Elements(r)
  {
    forall x ensures x in q <==> x in r {
      assert x in q <==> x in multiset(q);
      assert x in r <==> x in multiset(r);
    }
  }

  lemma {:induction false} DistinctIsSet<T(!new)>(q: seq<T>)
    requires Distinct(q)
    ensures multiset(q) == multiset(Elements(q))
  {
    forall x ensures multiset(q)[x] == multiset(Elements(q))[x] {
      assert x in q <==> x in multiset(q);
      assert x in q <==> x in Elements(q);
    }
  }

  lemma {:induction false} InsertDistinct(x: string, q: seq<string>)
    requires Sorted(q) && Distinct(q) && x !in q
    ensures Distinct(Insert(x, q)) && Elements(Insert(x, q)) == Elements(q) + {x}
  {
    InsertSorts(x, q);
    assert multiset(q + [x]) == multiset(q) + multiset{x};
    SameElements(q + [x], Insert(x, q));
  }

  /** A set of strings has one sorted listing without repetition. */
  lemma {:induction false} SortSetUnique(q: seq<string>, s: set<string>)
    requires Sorted(q) && Distinct(q) && Elements(q) == s
    ensures q == SortSet(s)
  {
    DistinctIsSet(q);
    DistinctIsSet(SortSet(s));
    SortedUnique(q, SortSet(s));
  }

  // ----- selection -----

  lemma {:induction false} AppendDistinct<T(!new)>(q: seq<T>, x: T)
    requires Distinct(q) && x !in q
    ensures Distinct(q + [x]) && Elements(q + [x]) == Elements(q) + {x}
  {
    forall y | y in q + [x] ensures multiset(q + [x])[y] == 1 {
      assert x !in multiset(q);
    }
  }

  lemma {:induction false} HeadIn<T>(q: seq<T>)
    ensures q != [] ==> q[0] in q
  {
  }

  lemma {:induction false} PermutationOfRest<T>(a: seq<T>, b: seq<T>, i: nat)
    requires a != [] && i < |b| && b[i] == a[0] && multiset(a) == multiset(b)
    ensures multiset(a[1..]) == multiset(b[..i] + b[i + 1..])
  {
    assert a == [a[0]] + a[1..];
    assert b == b[..i] + [b[i]] + b[i + 1..];
    assert multiset(a) == multiset{a[0]} + multiset(a[1..]);
    assert multiset(b) == multiset(b[..i]) + multiset{b[i]} + multiset(b[i + 1..]);
    assert multiset(a[1..]) == multiset(a) - multiset{a[0]};
  }

  lemma {:induction false} ElementsBound<T>(q: seq<T>)
    ensures |Elements(q)| <= |q|
  {
    if q != [] {
      var init, last := q[..|q| - 1], q[|q| - 1];
      assert q == init + [last];
      ElementsBound(init);
      ElementsAppend(init, last);
    }
  }

  ghost function FirstOf<T>(f: nat -> T, n: nat): set<T> {
    if n == 0 then {} else FirstOf(f, n - 1) + {f(n - 1)}
  }

  lemma {:induction false} FirstOfIn<T>(f: nat -> T, n: nat, x: T)
    requires x in FirstOf(f, n)
    ensures exists j: nat :: j < n && f(j) == x
  {
    if x in FirstOf(f, n - 1) {
      FirstOfIn(f, n - 1, x);
    }
  }

  lemma {:induction false} FirstOfSize<T>(f: nat -> T, n: nat)
    requires forall i: nat, j: nat :: i < j < n ==> f(i) != f(j)
    ensures |FirstOf(f, n)| == n
  {
    if n > 0 {
      FirstOfSize(f, n - 1);
      if f(n - 1) in FirstOf(f, n - 1) {
        FirstOfIn(f, n - 1, f(n - 1));
      }
    }
  }

  /** A sequence that has n different elements and one more is longer than n. */
  lemma {:induction false} OneMoreThan<T(!new)>(q: seq<T>, f: nat -> T, n: nat, more: T)
    requires forall i: nat, j: nat :: i < j < n ==> f(i) != f(j)
    requires forall j: nat :: j < n ==> f(j) in q && f(j) != more
    requires more in q
    ensures |q| > n
  {
    FirstOfSize(f, n);
    ElementsBound(q);
    var some := FirstOf(f, n) + {more};
    forall x | x in FirstOf(f, n) ensures x in q && x != more {
      FirstOfIn(f, n, x);
    }
    assert some <= Elements(q);
    assert Elements(q) == some + (Elements(q) - some);
  }

  lemma {:induction false} ElementsAppend<T>(q: seq<T>, x: T)
    ensures Elements(q + [x]) == Elements(q) + {x}
  {
  }

  /** The elements for which p has the value `keep`, in order. */
  function Select<T>(q: seq<T>, p: T -> bool, keep: bool): seq<T> {
    if q == [] then []
    else Select(q[..|q| - 1], p, keep) + if p(q[|q| - 1]) == keep then [q[|q| - 1]] else []
  }

  lemma {:induction false} SelectNext<T>(q: seq<T>, p: T -> bool, keep: bool, i: nat)
    requires i < |q|
    ensures Select(q[..i + 1], p, keep) == Select(q[..i], p, keep) + if p(q[i]) == keep then [q[i]] else []
  {
    assert q[..i + 1][..i] == q[..i];
  }

  lemma {:induction false} SelectElements<T(!new)>(q: seq<T>, p: T -> bool, keep: bool)
    ensures forall x :: x in Select(q, p, keep) <==> x in q && p(x) == keep
  {
    if q != [] {
      SelectElements(q[..|q| - 1], p, keep);
      assert q == q[..|q| - 1] + [q[|q| - 1]];
    }
  }

  lemma {:induction false} SelectSplits<T(!new)>(q: seq<T>, p: T -> bool)
    ensures multiset(Select(q, p, true)) + multiset(Select(q, p, false)) == multiset(q)
  {
    if q != [] {
      var init, last := q[..|q| - 1], q[|q| - 1];
      SelectSplits(init, p);
      assert q == init + [last];
      assert multiset(q) == multiset(init) + multiset([last]);
      SelectCounts(q, p, true);
      SelectCounts(q, p, false);
    }
  }

  /** A selection has every element that qualifies as often as the whole. */
  lemma {:induction false} SelectKeepsCount<T>(q: seq<T>, p: T -> bool, keep: bool, x: T)
    ensures multiset(Select(q, p, keep))[x] == if p(x) == keep then multiset(q)[x] else 0
  {
    if q != [] {
      var init, last := q[..|q| - 1], q[|q| - 1];
      SelectKeepsCount(init, p, keep, x);
      SelectCounts(q, p, keep);
      assert q == init + [last];
      assert multiset(q)[x] == multiset(init)[x] + multiset([last])[x];
    }
  }

  lemma {:induction false} SelectSame<T(!new)>(q: seq<T>, r: seq<T>, p: T -> bool, keep: bool)
    requires multiset(q) == multiset(r)
    ensures multiset(Select(q, p, keep)) == multiset(Select(r, p, keep))
  {
    forall x ensures multiset(Select(q, p, keep))[x] == multiset(Select(r, p, keep))[x] {
      SelectKeepsCount(q, p, keep, x);
      SelectKeepsCount(r, p, keep, x);
    }
  }

  lemma {:induction false} SelectCounts<T>(q: seq<T>, p: T -> bool, keep: bool)
    requires q != []
    ensures multiset(Select(q, p, keep))
         == multiset(Select(q[..|q| - 1], p, keep))
            + if p(q[|q| - 1]) == keep then multiset([q[|q| - 1]]) else multiset{}
  {
  }

  /** q with e in place of every element for which p holds. */
  function Replace<T>(q: seq<T>, p: T -> bool, e: T): seq<T> {
    if q == [] then []
    else Replace(q[..|q| - 1], p, e) + [if p(q[|q| - 1]) then e else q[|q| - 1]]
  }

  lemma {:induction false} ReplaceNext<T>(q: seq<T>, p: T -> bool, e: T, i: nat)
    requires i < |q|
    ensures Replace(q[..i + 1], p, e) == Replace(q[..i], p, e) + [if p(q[i]) then e else q[i]]
  {
    assert q[..i + 1][..i] == q[..i];
  }

  lemma {:induction false} ReplaceElements<T(!new)>(q: seq<T>, p: T -> bool, e: T)
    ensures Elements(Replace(q, p, e)) + {e} == Elements(Select(q, p, false)) + {e}
    ensures Select(q, p, true) != [] ==> e in Replace(q, p, e)
  {
    if q != [] {
      var init, last := q[..|q| - 1], q[|q| - 1];
      ReplaceElements(init, p, e);
      ElementsAppend(Replace(init, p, e), if p(last) then e else last);
      ElementsAppend(Select(init, p, false), last);
    }
  }
}

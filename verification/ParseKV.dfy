/** The client's reading of key:value metadata: values of indexed keys come back in index order. */
module ParseKV {
  import opened Text
  import opened StringSlices
  import opened IndexOrder

  // ----- decimal numbers -----

  function Itoa(n: nat): (s: string)
    ensures s != "" && forall i :: 0 <= i < |s| ==> IsDigit(s[i])
  {
    var d := ['0' + (n % 10) as char];
    if n < 10 then d else Itoa(n / 10) + d
  }

  function Number(s: string): nat
    requires forall i :: 0 <= i < |s| ==> IsDigit(s[i])
  {
    if s == "" then 0
    else
      assert IsDigit(s[|s| - 1]);
      10 * Number(s[..|s| - 1]) + (s[|s| - 1] as int - '0' as int)
  }

  const MAX_INT: nat := 0x7fff_ffff_ffff_ffff

  /** strconv.Atoi with its error thrown away: a number out of range becomes the largest integer. */
  function Atoi(s: string): nat
    requires forall i :: 0 <= i < |s| ==> IsDigit(s[i])
  {
    if Number(s) <= MAX_INT then Number(s) else MAX_INT
  }

  lemma {:induction false} NumberItoa(n: nat)
    ensures Number(Itoa(n)) == n
  {
    if n >= 10 {
      NumberItoa(n / 10);
      assert Itoa(n)[..|Itoa(n)| - 1] == Itoa(n / 10);
    }
  }

  /** Numbers are decimal, and as strings they do not sort as numbers do: k{10} comes before k{2}. */
  lemma {:induction false} TenBeforeTwo(k: string)
    ensures Itoa(10) == "10" && Number("10") == 10
    ensures Le(k + "{10}", k + "{2}") && !Le(k + "{2}", k + "{10}")
  {
    assert Itoa(1) == "1";
    assert "10"[..1] == "1" && "1"[..0] == "";
    assert Number("1") == 1;
    if k == "" {
      assert "{10}"[1..] == "10}" && "{2}"[1..] == "2}";
      assert k + "{10}" == "{10}" && k + "{2}" == "{2}";
    } else {
      TenBeforeTwo(k[1..]);
      assert (k + "{10}")[1..] == k[1..] + "{10}" && (k + "{2}")[1..] == k[1..] + "{2}";
    }
  }

  // ----- indexed keys -----

  /** The length of the run of digits at the end of s. */
  function DigitTail(s: string): (n: nat)
    ensures n <= |s| && forall i :: |s| - n <= i < |s| ==> IsDigit(s[i])
    ensures n < |s| ==> !IsDigit(s[|s| - n - 1])
  {
    if s == "" || !IsDigit(s[|s| - 1]) then 0 else 1 + DigitTail(s[..|s| - 1])
  }

  /** The number of digits in an index `{digits}` that ends s, or 0 when s does not end in one. */
  function FinalIndex(s: string): (d: nat)
    ensures d > 0 ==> d + 2 <= |s| && forall i :: |s| - 1 - d <= i < |s| - 1 ==> IsDigit(s[i])
  {
    if s == "" || s[|s| - 1] != '}' then 0
    else
      var body := s[..|s| - 1];
      var d := DigitTail(body);
      if d > 0 && d < |body| && body[|body| - d - 1] == '{' then d else 0
  }

  function StripFinal(key: string): string {
    var d := FinalIndex(key);
    if d == 0 then key else key[..|key| - d - 2]
  }

  function IndexOf(key: string): int {
    var d := FinalIndex(key);
    if d == 0 then -1 else Atoi(key[|key| - 1 - d..|key| - 1])
  }

  function Entry(p: string): SortableValue
    requires ':' in p
  {
    SortableValue(IndexOf(BeforeColon(p)), AfterColon(p))
  }

  function KeyOf(p: string): string {
    StripFinal(BeforeColon(p))
  }

  ghost predicate AllKeyed(list: seq<string>) {
    forall p :: p in list ==> ':' in p
  }

  /** The values of one key, in the order they arrive. */
  function Entries(list: seq<string>, k: string): seq<SortableValue>
    requires AllKeyed(list)
  {
    if list == [] then []
    else
      var last := list[|list| - 1];
      Entries(list[..|list| - 1], k) + if KeyOf(last) == k then [Entry(last)] else []
  }

  lemma {:induction false} EntriesNext(list: seq<string>, n: nat, k: string)
    requires AllKeyed(list) && n < |list|
    ensures AllKeyed(list[..n]) && AllKeyed(list[..n + 1])
    ensures Entries(list[..n + 1], k)
         == Entries(list[..n], k) + if KeyOf(list[n]) == k then [Entry(list[n])] else []
  {
    assert list[..n + 1][..n] == list[..n];
  }

  // ----- what a list says, by its spelling -----

  ghost predicate Digits(d: string) {
    d != "" && forall i :: 0 <= i < |d| ==> '0' <= d[i] <= '9'
  }

  ghost predicate EndsInIndex(k: string) {
    exists a, d :: Digits(d) && k == Braced(a, d)
  }

  function Braced(a: string, d: string): string {
    a + "{" + d + "}"
  }

  /** What an entry gives: a value of a key, with or without an index. */
  datatype Given = Plain(key: string, value: string) | At(key: string, digits: string, value: string)

  ghost predicate Proper(g: Given) {
    ':' !in g.key && if g.Plain? then !EndsInIndex(g.key) else Digits(g.digits)
  }

  function Spell(g: Given): string {
    match g
    case Plain(k, v) => WithColon(k, v)
    case At(k, d, v) => WithColon(Braced(k, d), v)
  }

  ghost function GivenIndex(g: Given): int
    requires Proper(g)
  {
    match g
    case Plain(_, _) => -1
    case At(_, d, _) => if Number(d) <= 0x7fff_ffff_ffff_ffff then Number(d) else 0x7fff_ffff_ffff_ffff
  }

  ghost predicate AllProper(givens: seq<Given>) {
    forall i :: 0 <= i < |givens| ==> Proper(givens[i])
  }

  function Spelled(givens: seq<Given>): seq<string> {
    if givens == [] then [] else Spelled(givens[..|givens| - 1]) + [Spell(givens[|givens| - 1])]
  }

  /** The values given for one key, with their indices, in the order they are given. */
  ghost function GivenFor(givens: seq<Given>, k: string): seq<SortableValue>
    requires AllProper(givens)
  {
    if givens == [] then []
    else
      var last := givens[|givens| - 1];
      GivenFor(givens[..|givens| - 1], k) + if last.key == k then [SortableValue(GivenIndex(last), last.value)] else []
  }

  lemma {:induction false} BracedFinal(a: string, d: string)
    requires Digits(d)
    ensures FinalIndex(Braced(a, d)) == |d| && StripFinal(Braced(a, d)) == a
    ensures IndexOf(Braced(a, d)) == Atoi(d)
  {
    var s := Braced(a, d);
    assert s[..|s| - 1] == (a + "{") + d;
    DigitTailAll(a + "{", d);
    assert s[..|a|] == a && s[|s| - 1 - |d|..|s| - 1] == d;
  }

  lemma {:induction false} FinalIsIndex(k: string)
    ensures FinalIndex(k) == 0 <==> !EndsInIndex(k)
  {
    if EndsInIndex(k) {
      var a, d :| Digits(d) && k == Braced(a, d);
      BracedFinal(a, d);
    }
    var n := FinalIndex(k);
    if n > 0 {
      var a, d := k[..|k| - n - 2], k[|k| - 1 - n..|k| - 1];
      assert k == Braced(a, d) && Digits(d);
    }
  }

  lemma {:induction false} SpelledEntry(g: Given)
    requires Proper(g)
    ensures ':' in Spell(g) && KeyOf(Spell(g)) == g.key
    ensures Entry(Spell(g)) == SortableValue(GivenIndex(g), g.value)
  {
    match g
    case Plain(k, v) =>
      CutWithColon(k, v);
      FinalIsIndex(k);
    case At(k, d, v) =>
      CutWithColon(Braced(k, d), v);
      BracedFinal(k, d);
  }

  /** Every entry with a colon spells something. */
  lemma {:induction false} EveryEntrySpelled(p: string) returns (g: Given)
    requires ':' in p
    ensures Proper(g) && Spell(g) == p
  {
    var k, v := BeforeColon(p), AfterColon(p);
    ColonJoins(p);
    if EndsInIndex(k) {
      var a, d :| Digits(d) && k == Braced(a, d);
      assert forall c :: c in a ==> c in k;
      g := At(a, d, v);
    } else {
      g := Plain(k, v);
    }
  }

  lemma {:induction false} EntriesAppend(list: seq<string>, p: string, k: string)
    requires AllKeyed(list) && ':' in p
    ensures AllKeyed(list + [p])
    ensures Entries(list + [p], k) == Entries(list, k) + if KeyOf(p) == k then [Entry(p)] else []
  {
    assert (list + [p])[..|list|] == list;
  }

  lemma {:induction false} SpelledEntries(givens: seq<Given>, k: string)
    requires AllProper(givens)
    ensures AllKeyed(Spelled(givens)) && Entries(Spelled(givens), k) == GivenFor(givens, k)
  {
    if givens != [] {
      var init, last := givens[..|givens| - 1], givens[|givens| - 1];
      SpelledEntries(init, k);
      SpelledEntry(last);
      EntriesAppend(Spelled(init), Spell(last), k);
    }
  }

  lemma {:induction false} GivenForSome(givens: seq<Given>, k: string)
    requires AllProper(givens)
    ensures GivenFor(givens, k) != [] <==> exists i :: 0 <= i < |givens| && givens[i].key == k
  {
    if givens != [] {
      var init, last := givens[..|givens| - 1], givens[|givens| - 1];
      GivenForSome(init, k);
      if i :| 0 <= i < |init| && init[i].key == k {
        assert givens[i].key == k;
      }
      if i :| 0 <= i < |givens| && givens[i].key == k && i < |init| {
        assert init[i].key == k;
      }
    }
  }

  /** The values that are given without an index come before all others of the key. */
  lemma {:induction false} PlainFirst(givens: seq<Given>, k: string, out: seq<string>)
    requires AllProper(givens) && InIndexOrder(GivenFor(givens, k), out)
    ensures var plain := PlainFor(givens, k);
            |plain| <= |out| && multiset(out[..|plain|]) == multiset(plain)
  {
    UnindexedFirst(GivenFor(givens, k), out);
    PlainSelected(givens, k);
  }

  ghost function PlainFor(givens: seq<Given>, k: string): seq<string> {
    if givens == [] then []
    else
      var last := givens[|givens| - 1];
      PlainFor(givens[..|givens| - 1], k) + if last == Plain(k, last.value) then [last.value] else []
  }

  lemma {:induction false} PlainSelected(givens: seq<Given>, k: string)
    requires AllProper(givens)
    ensures Values(Select(GivenFor(givens, k), Unindexed(), true)) == PlainFor(givens, k)
  {
    if givens != [] {
      var init, last := givens[..|givens| - 1], givens[|givens| - 1];
      PlainSelected(init, k);
      var before := GivenFor(init, k);
      if last.key == k {
        var e := SortableValue(GivenIndex(last), last.value);
        UnindexedAppend(before, e);
      }
      assert PlainFor(init, k) + [] == PlainFor(init, k) && before + [] == before;
    }
  }

  lemma {:induction false} UnindexedAppend(vs: seq<SortableValue>, e: SortableValue)
    ensures Values(Select(vs + [e], Unindexed(), true))
         == Values(Select(vs, Unindexed(), true)) + if e.index < 0 then [e.value] else []
  {
    assert (vs + [e])[..|vs|] == vs;
    var low := Select(vs, Unindexed(), true);
    assert low + [] == low && Values(low) + [] == Values(low);
    assert Values(low + [e]) == Values(low) + [e.value];
  }

  /** Groups the entries by key, sorts the values of each key by index and drops the indices. Told by the spelling
      of the entries: a key is reported exactly when a value is given for it, with or without an index, and its
      values come in the order of their indices. */
  method ParseKV(list: seq<string>) returns (out: map<string, seq<string>>)
    requires AllKeyed(list)
    ensures forall k :: k in out <==> Entries(list, k) != []
    ensures forall k :: k in out ==> InIndexOrder(Entries(list, k), out[k])
    ensures forall givens :: AllProper(givens) && Spelled(givens) == list ==> ParsedAs(givens, out)
  {
    out := ParseEntries(list);
    forall givens: seq<Given> | AllProper(givens) && Spelled(givens) == list ensures ParsedAs(givens, out) {
      forall k
        ensures k in out <==> exists i :: 0 <= i < |givens| && givens[i].key == k
        ensures k in out ==> InIndexOrder(GivenFor(givens, k), out[k])
      {
        SpelledEntries(givens, k);
        GivenForSome(givens, k);
      }
    }
  }

  ghost predicate ParsedAs(givens: seq<Given>, out: map<string, seq<string>>)
    requires AllProper(givens)
  {
    forall k ::
      && (k in out <==> exists i :: 0 <= i < |givens| && givens[i].key == k)
      && (k in out ==> InIndexOrder(GivenFor(givens, k), out[k]))
  }

  method ParseEntries(list: seq<string>) returns (out: map<string, seq<string>>)
    requires AllKeyed(list)
    ensures forall k :: k in out <==> Entries(list, k) != []
    ensures forall k :: k in out ==> InIndexOrder(Entries(list, k), out[k])
  {
    var typedKV := TypedKV(list);
    assert forall k :: EntriesAt(typedKV, k) == Entries(list, k);
    out := map[];
    var todo := typedKV.Keys;
    while todo != {}
      invariant todo <= typedKV.Keys && out.Keys == typedKV.Keys - todo
      invariant forall k :: k in out ==> InIndexOrder(typedKV[k], out[k])
      decreases todo
    {
      var k :| k in todo;
      var sorted := SortByIndex(typedKV[k]);
      assert InIndexOrder(typedKV[k], Values(sorted));
      out := out[k := Values(sorted)];
      todo := todo - {k};
    }
  }

  function EntriesAt(typedKV: map<string, seq<SortableValue>>, k: string): seq<SortableValue> {
    if k in typedKV then typedKV[k] else []
  }

  ghost predicate Typed(list: seq<string>, typedKV: map<string, seq<SortableValue>>) {
    && AllKeyed(list)
    && (forall k :: EntriesAt(typedKV, k) == Entries(list, k))
    && (forall k :: k in typedKV ==> typedKV[k] != [])
  }

  lemma {:induction false} AppendAt(typedKV: map<string, seq<SortableValue>>, key: string, e: SortableValue, k: string)
    ensures EntriesAt(typedKV[key := EntriesAt(typedKV, key) + [e]], k)
         == EntriesAt(typedKV, k) + if key == k then [e] else []
  {
  }

  lemma {:induction false} TypedPut(init: seq<string>, list: seq<string>, typedKV: map<string, seq<SortableValue>>,
                                    key: string, e: SortableValue)
    requires Typed(init, typedKV) && AllKeyed(list)
    requires forall k :: Entries(list, k) == Entries(init, k) + if key == k then [e] else []
    ensures Typed(list, typedKV[key := EntriesAt(typedKV, key) + [e]])
  {
    var typedKV' := typedKV[key := EntriesAt(typedKV, key) + [e]];
    forall k ensures EntriesAt(typedKV', k) == Entries(list, k) {
      AppendAt(typedKV, key, e, k);
      assert EntriesAt(typedKV, k) == Entries(init, k);
    }
  }

  lemma {:induction false} TypedNext(list: seq<string>, n: nat, typedKV: map<string, seq<SortableValue>>)
    requires AllKeyed(list) && n < |list| && Typed(list[..n], typedKV)
    ensures var k := KeyOf(list[n]);
            Typed(list[..n + 1], typedKV[k := EntriesAt(typedKV, k) + [Entry(list[n])]])
  {
    var key, e := KeyOf(list[n]), Entry(list[n]);
    forall k ensures AllKeyed(list[..n + 1])
             ensures Entries(list[..n + 1], k) == Entries(list[..n], k) + if key == k then [e] else []
    {
      EntriesNext(list, n, k);
    }
    TypedPut(list[..n], list[..n + 1], typedKV, key, e);
  }

  /** The entries of each key, in the order they arrive. */
  method TypedKV(list: seq<string>) returns (typedKV: map<string, seq<SortableValue>>)
    requires AllKeyed(list)
    ensures Typed(list, typedKV)
  {
    typedKV := map[];
    for n := 0 to |list|
      invariant Typed(list[..n], typedKV)
    {
      var p := list[n];
      var strippedK := KeyOf(p);
      TypedNext(list, n, typedKV);
      typedKV := typedKV[strippedK := EntriesAt(typedKV, strippedK) + [Entry(p)]];
    }
    assert list[..|list|] == list;
  }

  // ----- from upsert through read to parse -----

  function Indexed(k: string, j: nat): string {
    k + "{" + Itoa(j) + "}"
  }

  predicate PlainKey(k: string) {
    ':' !in k && '{' !in k && '}' !in k && k != "*"
  }

  /** The entry under which the j-th value of a key is stored. */
  function Stored(k: string, j: nat, v: string): string {
    WithColon(Indexed(k, j), v)
  }

  ghost predicate InRange(order: seq<nat>, n: nat) {
    forall a :: 0 <= a < |order| ==> order[a] < n
  }

  /** The metadata after upserting the values of the given indices one after the other. */
  ghost function UpsertAll(slice: seq<string>, k: string, order: seq<nat>, v: seq<string>): seq<string>
    requires InRange(order, |v|)
  {
    if order == [] then slice
    else
      var j := order[|order| - 1];
      UpsertSpec(UpsertAll(slice, k, order[..|order| - 1], v), Indexed(k, j), v[j])
  }

  lemma {:induction false} DigitTailAll(front: string, digits: string)
    requires forall i :: 0 <= i < |digits| ==> IsDigit(digits[i])
    requires front != "" && !IsDigit(front[|front| - 1])
    ensures DigitTail(front + digits) == |digits|
  {
    if digits == "" {
      assert front + digits == front;
    } else {
      assert (front + digits)[..|front + digits| - 1] == front + digits[..|digits| - 1];
      DigitTailAll(front, digits[..|digits| - 1]);
    }
  }

  /** The server's stripping of an indexed key gives the key. */
  lemma {:induction false} StripIndexed(k: string, j: nat)
    requires '{' !in k
    ensures StripIndex(Indexed(k, j)) == k
  {
    var s := Indexed(k, j);
    if k == "" {
      assert s[1..] == Itoa(j) + "}";
      DigitRunAll(Itoa(j), "}");
      assert s[IndexLength(s)..] == "";
    } else {
      assert s[1..] == Indexed(k[1..], j);
      StripIndexed(k[1..], j);
    }
  }

  /** The client's stripping gives the key, and the index up to the largest integer. */
  lemma {:induction false} FinalIndexed(k: string, j: nat)
    ensures StripFinal(Indexed(k, j)) == k
    ensures IndexOf(Indexed(k, j)) == if j <= MAX_INT then j else MAX_INT
  {
    var s := Indexed(k, j);
    assert s[..|s| - 1] == (k + "{") + Itoa(j);
    DigitTailAll(k + "{", Itoa(j));
    assert FinalIndex(s) == |Itoa(j)|;
    assert s[..|k|] == k;
    assert s[|s| - 1 - |Itoa(j)|..|s| - 1] == Itoa(j);
    NumberItoa(j);
  }

  /** An index is read back exactly when it is in range. One that is not never becomes the -1 of a key without
      an index: it becomes the largest integer, so that all indices from there on tie. */
  lemma {:induction false} IndexReadBack(k: string, i: nat, j: nat)
    ensures IndexOf(Indexed(k, j)) == j <==> j <= MAX_INT
    ensures IndexOf(Indexed(k, j)) != -1
    ensures i != j ==> (IndexOf(Indexed(k, i)) == IndexOf(Indexed(k, j)) <==> i >= MAX_INT && j >= MAX_INT)
  {
    FinalIndexed(k, i);
    FinalIndexed(k, j);
  }

  lemma {:induction false} StoredParses(k: string, j: nat, v: string)
    requires PlainKey(k)
    ensures var p := Stored(k, j, v);
            ':' in p && FuzzyKeyed(k)(p) && KeyOf(p) == k && BeforeColon(p) == Indexed(k, j)
            && (j <= MAX_INT ==> Entry(p) == SortableValue(j, v))
  {
    forall i | 0 <= i < |Itoa(j)| ensures Itoa(j)[i] != ':' {
      assert IsDigit(Itoa(j)[i]);
    }
    CutWithColon(Indexed(k, j), v);
    StripIndexed(k, j);
    StripPlain(k);
    FinalIndexed(k, j);
  }

  lemma {:induction false} IndexedInjective(k: string, i: nat, j: nat)
    requires Indexed(k, i) == Indexed(k, j)
    ensures i == j
  {
    var s := Indexed(k, i);
    assert s[|k| + 1..|s| - 1] == Itoa(i);
    assert s[|k| + 1..|s| - 1] == Itoa(j);
    NumberItoa(i);
    NumberItoa(j);
  }

  ghost predicate StoredBy(p: string, k: string, order: seq<nat>, v: seq<string>)
    requires InRange(order, |v|)
  {
    exists a :: 0 <= a < |order| && p == Stored(k, order[a], v[order[a]])
  }

  lemma {:induction false} StoredByNext(p: string, k: string, init: seq<nat>, j: nat, v: seq<string>)
    requires InRange(init + [j], |v|)
    ensures InRange(init, |v|) && j < |v|
    ensures StoredBy(p, k, init + [j], v) <==> StoredBy(p, k, init, v) || p == Stored(k, j, v[j])
  {
    var order := init + [j];
    assert order[|init|] == j && forall a :: 0 <= a < |init| ==> order[a] == init[a];
    if StoredBy(p, k, init, v) {
      var a :| 0 <= a < |init| && p == Stored(k, init[a], v[init[a]]);
      assert p == Stored(k, order[a], v[order[a]]);
    }
    if p == Stored(k, j, v[j]) {
      assert p == Stored(k, order[|init|], v[order[|init|]]);
    }
  }

  /** An entry stored under the key for j is the entry stored for j. */
  lemma {:induction false} StoredKeyDecides(p: string, k: string, init: seq<nat>, j: nat, v: seq<string>)
    requires PlainKey(k) && InRange(init, |v|) && j < |v|
    requires StoredBy(p, k, init, v) && BeforeColon(p) == Indexed(k, j)
    ensures p == Stored(k, j, v[j])
  {
    var a :| 0 <= a < |init| && p == Stored(k, init[a], v[init[a]]);
    StoredParses(k, init[a], v[init[a]]);
    IndexedInjective(k, init[a], j);
  }

  ghost predicate KeyedBy(p: string, k: string, order: seq<nat>) {
    exists a :: 0 <= a < |order| && BeforeColon(p) == Indexed(k, order[a])
  }

  lemma {:induction false} KeyedByNext(p: string, k: string, init: seq<nat>, j: nat)
    ensures KeyedBy(p, k, init + [j]) <==> KeyedBy(p, k, init) || BeforeColon(p) == Indexed(k, j)
  {
    var order := init + [j];
    assert order[|init|] == j && forall a :: 0 <= a < |init| ==> order[a] == init[a];
    if a :| 0 <= a < |init| && BeforeColon(p) == Indexed(k, init[a]) {
      assert BeforeColon(p) == Indexed(k, order[a]);
    }
    if BeforeColon(p) == Indexed(k, j) {
      assert BeforeColon(p) == Indexed(k, order[|init|]);
    }
  }

  lemma {:induction false} UpsertNextEntry(slice: seq<string>, k: string, j: nat, value: string, p: string)
    requires PlainKey(k)
    ensures p in UpsertSpec(slice, Indexed(k, j), value) && FuzzyKeyed(k)(p)
       <==> p == Stored(k, j, value)
            || (p in slice && FuzzyKeyed(k)(p) && p != "" && BeforeColon(p) != Indexed(k, j))
  {
    UpsertEntries(slice, Indexed(k, j), value, p);
    StoredParses(k, j, value);
  }

  lemma {:induction false} StoredNotEmpty(p: string, k: string, order: seq<nat>, v: seq<string>)
    requires PlainKey(k) && InRange(order, |v|) && StoredBy(p, k, order, v)
    ensures p != "" && FuzzyKeyed(k)(p)
  {
    var a :| 0 <= a < |order| && p == Stored(k, order[a], v[order[a]]);
    StoredParses(k, order[a], v[order[a]]);
  }

  /** After the upserts a read of k selects the entries stored for the indices, and of those that were there
      before the ones under another key; an empty string does not survive an upsert. */
  lemma {:induction false} UpsertAllEntries(slice: seq<string>, k: string, order: seq<nat>, v: seq<string>, p: string)
    requires PlainKey(k) && InRange(order, |v|)
    ensures p in UpsertAll(slice, k, order, v) && FuzzyKeyed(k)(p)
       <==> StoredBy(p, k, order, v)
            || (p in slice && FuzzyKeyed(k)(p) && (order != [] ==> p != "") && !KeyedBy(p, k, order))
  {
    if order != [] {
      var init, j := order[..|order| - 1], order[|order| - 1];
      assert order == init + [j];
      StoredByNext(p, k, init, j, v);
      KeyedByNext(p, k, init, j);
      UpsertAllEntries(slice, k, init, v, p);
      UpsertNextEntry(UpsertAll(slice, k, init, v), k, j, v[j], p);
      if StoredBy(p, k, init, v) {
        StoredNotEmpty(p, k, init, v);
        if BeforeColon(p) == Indexed(k, j) {
          StoredKeyDecides(p, k, init, j, v);
        }
      }
    }
  }

  lemma {:induction false} SelectDistinct(q: seq<string>, p: string -> bool, keep: bool)
    requires Distinct(q)
    ensures Distinct(Select(q, p, keep))
  {
    SelectSplits(q, p);
    forall x | x in Select(q, p, keep) ensures multiset(Select(q, p, keep))[x] == 1 {
      SelectElements(q, p, keep);
      assert multiset(q)[x] == multiset(Select(q, p, true))[x] + multiset(Select(q, p, false))[x];
      assert x in multiset(Select(q, p, keep));
    }
  }

  ghost predicate IsStored(p: string, k: string, v: seq<string>) {
    exists j :: 0 <= j < |v| && p == Stored(k, j, v[j])
  }

  ghost predicate Occurs(order: seq<nat>, j: nat) {
    exists a :: 0 <= a < |order| && order[a] == j
  }

  /** Every index below n, and no other, occurs in the order. */
  ghost predicate Covers(order: seq<nat>, n: nat) {
    InRange(order, n) && forall j: nat :: j < n ==> Occurs(order, j)
  }

  ghost predicate Overwritten(p: string, k: string, n: nat) {
    exists j: nat :: j < n && BeforeColon(p) == Indexed(k, j)
  }

  /** An entry that a read of k selects, and that upserting n values under k neither replaces nor drops. */
  ghost predicate Leftover(slice: seq<string>, k: string, n: nat, p: string) {
    p in slice && FuzzyKeyed(k)(p) && (n > 0 ==> p != "") && !Overwritten(p, k, n)
  }

  lemma {:induction false} CoveredKeys(p: string, k: string, order: seq<nat>, n: nat)
    requires Covers(order, n)
    ensures KeyedBy(p, k, order) <==> Overwritten(p, k, n)
    ensures order == [] <==> n == 0
  {
    if j: nat :| j < n && BeforeColon(p) == Indexed(k, j) {
      assert Occurs(order, j);
    }
    if order != [] {
      assert order[0] < n;
    }
    if n > 0 {
      assert Occurs(order, 0);
    }
  }

  lemma {:induction false} CoveredStored(p: string, k: string, order: seq<nat>, v: seq<string>)
    requires Covers(order, |v|)
    ensures StoredBy(p, k, order, v) <==> IsStored(p, k, v)
  {
    if IsStored(p, k, v) {
      var j :| 0 <= j < |v| && p == Stored(k, j, v[j]);
      assert Occurs(order, j);
      var a :| 0 <= a < |order| && order[a] == j;
      assert p == Stored(k, order[a], v[order[a]]);
    }
  }

  lemma {:induction false} UpsertedIsStored(slice: seq<string>, k: string, order: seq<nat>, v: seq<string>, p: string)
    requires PlainKey(k) && Covers(order, |v|)
    ensures p in UpsertAll(slice, k, order, v) && FuzzyKeyed(k)(p)
       <==> IsStored(p, k, v) || Leftover(slice, k, |v|, p)
  {
    UpsertAllEntries(slice, k, order, v, p);
    CoveredKeys(p, k, order, |v|);
    CoveredStored(p, k, order, v);
  }

  /** A read after the upserts returns what is stored for the values, and the leftovers. */
  lemma {:induction false} ReadOfUpserts(slice: seq<string>, k: string, order: seq<nat>, v: seq<string>, read: seq<string>)
    requires PlainKey(k) && Covers(order, |v|)
    requires multiset(read) == multiset(ReadSelection(UpsertAll(slice, k, order, v), k))
    ensures forall p :: p in read <==> IsStored(p, k, v) || Leftover(slice, k, |v|, p)
    ensures v != [] ==> Distinct(read)
  {
    var s := UpsertAll(slice, k, order, v);
    var picked := Select(s, FuzzyKeyed(k), true);
    SelectElements(s, FuzzyKeyed(k), true);
    SameElements(read, picked);
    if v != [] {
      assert Occurs(order, 0);
      SelectDistinct(s, FuzzyKeyed(k), true);
    }
    forall p ensures p in read <==> IsStored(p, k, v) || Leftover(slice, k, |v|, p) {
      UpsertedIsStored(slice, k, order, v, p);
      assert p in read <==> p in Elements(read);
      assert p in picked <==> p in Elements(picked);
    }
  }

  lemma {:induction false} StoredFacts(p: string, k: string, v: seq<string>)
    requires PlainKey(k) && |v| <= MAX_INT + 1 && IsStored(p, k, v)
    ensures ':' in p && KeyOf(p) == k
    ensures 0 <= Entry(p).index < |v| && p == Stored(k, Entry(p).index, v[Entry(p).index])
    ensures Entry(p).value == v[Entry(p).index]
  {
    var j :| 0 <= j < |v| && p == Stored(k, j, v[j]);
    StoredParses(k, j, v[j]);
  }

  ghost predicate ComesFrom(e: SortableValue, list: seq<string>, k: string) {
    exists p :: p in list && ':' in p && KeyOf(p) == k && Entry(p) == e
  }

  lemma {:induction false} EntriesElements(list: seq<string>, k: string)
    requires AllKeyed(list)
    ensures forall e :: e in Entries(list, k) <==> ComesFrom(e, list, k)
  {
    if list != [] {
      var init, last := list[..|list| - 1], list[|list| - 1];
      assert list == init + [last];
      EntriesElements(init, k);
      forall e ensures ComesFrom(e, list, k) <==> ComesFrom(e, init, k) || (KeyOf(last) == k && Entry(last) == e) {
      }
    }
  }

  /** Under the key k, as the client sees it, the list holds the entries stored for the values and no other. */
  ghost predicate HoldsOnlyStored(list: seq<string>, k: string, v: seq<string>) {
    forall p :: p in list && KeyOf(p) == k <==> IsStored(p, k, v)
  }

  lemma {:induction false} EntriesDistinct(list: seq<string>, k: string, v: seq<string>)
    requires PlainKey(k) && |v| <= MAX_INT + 1 && AllKeyed(list)
    requires Distinct(list) && forall p :: p in list && KeyOf(p) == k ==> IsStored(p, k, v)
    ensures Distinct(Entries(list, k))
  {
    if list != [] {
      var init, last := list[..|list| - 1], list[|list| - 1];
      assert list == init + [last];
      InitDistinct(init, last);
      EntriesDistinct(init, k, v);
      if KeyOf(last) == k {
        StoredFacts(last, k, v);
        EntriesElements(init, k);
        forall p | p in init && KeyOf(p) == k ensures Entry(p) != Entry(last) {
          StoredFacts(p, k, v);
        }
        AppendDistinct(Entries(init, k), Entry(last));
      }
    }
  }

  lemma {:induction false} StoredEntry(list: seq<string>, k: string, v: seq<string>, e: SortableValue)
    requires PlainKey(k) && |v| <= MAX_INT + 1 && HoldsOnlyStored(list, k, v)
    ensures ComesFrom(e, list, k) <==> 0 <= e.index < |v| && e.value == v[e.index]
  {
    if ComesFrom(e, list, k) {
      var p :| p in list && ':' in p && KeyOf(p) == k && Entry(p) == e;
      StoredFacts(p, k, v);
    }
    if 0 <= e.index < |v| && e.value == v[e.index] {
      StoredParses(k, e.index, v[e.index]);
      assert IsStored(Stored(k, e.index, v[e.index]), k, v);
    }
  }

  lemma {:induction false} StoredEntries(list: seq<string>, k: string, v: seq<string>)
    requires PlainKey(k) && |v| <= MAX_INT + 1 && AllKeyed(list)
    requires HoldsOnlyStored(list, k, v) && (v != [] ==> Distinct(list))
    ensures Distinct(Entries(list, k))
    ensures forall e :: e in Entries(list, k) <==> 0 <= e.index < |v| && e.value == v[e.index]
  {
    EntriesElements(list, k);
    forall e ensures e in Entries(list, k) <==> 0 <= e.index < |v| && e.value == v[e.index] {
      StoredEntry(list, k, v, e);
    }
    if v == [] {
      HeadIn(Entries(list, k));
    } else {
      EntriesDistinct(list, k, v);
    }
  }

  lemma {:induction false} InitDistinct<T(!new)>(init: seq<T>, last: T)
    requires Distinct(init + [last])
    ensures Distinct(init) && last !in init
  {
    forall x ensures multiset(init + [last])[x] == multiset(init)[x] + if x == last then 1 else 0 {
    }
    assert last in init + [last];
    assert last in init <==> last in multiset(init);
    forall x | x in init ensures multiset(init)[x] == 1 {
      assert x in init + [last] && x in multiset(init);
    }
  }

  // ----- too many entries -----

  function Under(k: string): string -> bool {
    p => KeyOf(p) == k
  }

  lemma {:induction false} EntriesLength(list: seq<string>, k: string)
    requires AllKeyed(list)
    ensures |Entries(list, k)| == |Select(list, Under(k), true)|
  {
    if list != [] {
      EntriesLength(list[..|list| - 1], k);
    }
  }

  /** The entry stored for the j-th value, or some string beyond the last. */
  function StoredAt(k: string, v: seq<string>): nat -> string {
    (j: nat) => if j < |v| then Stored(k, j, v[j]) else ""
  }

  lemma {:induction false} StoredAtDiffer(k: string, v: seq<string>, i: nat, j: nat)
    requires PlainKey(k) && i < j < |v|
    ensures StoredAt(k, v)(i) != StoredAt(k, v)(j)
  {
    StoredParses(k, i, v[i]);
    StoredParses(k, j, v[j]);
    if Indexed(k, i) == Indexed(k, j) {
      IndexedInjective(k, i, j);
    }
  }

  lemma {:induction false} StoredUnder(k: string, v: seq<string>, j: nat)
    requires PlainKey(k) && j < |v|
    ensures IsStored(StoredAt(k, v)(j), k, v) && KeyOf(StoredAt(k, v)(j)) == k
  {
    StoredParses(k, j, v[j]);
  }

  /** With an entry under the key that is not stored for a value, there are more entries than values. */
  lemma {:induction false} OneTooMany(list: seq<string>, k: string, v: seq<string>, p: string)
    requires PlainKey(k) && AllKeyed(list) && forall s :: IsStored(s, k, v) ==> s in list
    requires p in list && KeyOf(p) == k && !IsStored(p, k, v)
    ensures |Entries(list, k)| > |v|
  {
    var picked, f := Select(list, Under(k), true), StoredAt(k, v);
    EntriesLength(list, k);
    SelectElements(list, Under(k), true);
    forall j: nat | j < |v| ensures f(j) in picked && f(j) != p {
      StoredUnder(k, v, j);
    }
    forall i: nat, j: nat | i < j < |v| ensures f(i) != f(j) {
      StoredAtDiffer(k, v, i, j);
    }
    OneMoreThan(picked, f, |v|, p);
  }

  lemma {:induction false} WrongLengthNotRestored(vs: seq<SortableValue>, v: seq<string>)
    requires |vs| != |v|
    ensures exists out :: InIndexOrder(vs, out) && out != v
  {
    var q := SortedEntries(vs);
    assert |q| == |multiset(q)| == |multiset(vs)| == |vs|;
    assert InIndexOrder(vs, Values(q));
  }

  // ----- the values come back -----

  /** Whatever the client's sort does with ties, it reads v under k. */
  ghost predicate ComesBack(read: seq<string>, k: string, v: seq<string>)
    requires AllKeyed(read)
  {
    forall out :: InIndexOrder(Entries(read, k), out) <==> out == v
  }

  lemma {:induction false} LeftoverNotStored(slice: seq<string>, k: string, v: seq<string>, p: string)
    requires PlainKey(k)
    ensures IsStored(p, k, v) ==> ':' in p && KeyOf(p) == k && !Leftover(slice, k, |v|, p)
  {
    if IsStored(p, k, v) {
      var j :| 0 <= j < |v| && p == Stored(k, j, v[j]);
      StoredParses(k, j, v[j]);
    }
  }

  /** Values upserted under the indices of a key, in any order and over whatever was there, come back from a
      read and a parse in index order, although the read sorts its strings, exactly when nothing is left over
      that the client takes for an entry of the key. The client can parse what it reads exactly when no
      leftover lacks a colon. */
  lemma {:induction false} IndexedValuesSurvive(slice: seq<string>, k: string, order: seq<nat>, v: seq<string>,
                                                read: seq<string>)
    requires PlainKey(k) && Covers(order, |v|) && |v| <= MAX_INT + 1
    requires multiset(read) == multiset(ReadSelection(UpsertAll(slice, k, order, v), k))
    ensures AllKeyed(read) <==> forall p :: Leftover(slice, k, |v|, p) ==> ':' in p
    ensures AllKeyed(read) ==>
              (ComesBack(read, k, v) <==> forall p :: Leftover(slice, k, |v|, p) ==> KeyOf(p) != k)
  {
    ReadOfUpserts(slice, k, order, v, read);
    forall p ensures IsStored(p, k, v) ==> ':' in p && KeyOf(p) == k && !Leftover(slice, k, |v|, p) {
      LeftoverNotStored(slice, k, v, p);
    }
    if AllKeyed(read) {
      if p :| Leftover(slice, k, |v|, p) && KeyOf(p) == k {
        OneTooMany(read, k, v, p);
        WrongLengthNotRestored(Entries(read, k), v);
      } else {
        StoredComeBack(read, k, v);
      }
    }
  }

  lemma {:induction false} StoredComeBack(list: seq<string>, k: string, v: seq<string>)
    requires PlainKey(k) && |v| <= MAX_INT + 1 && AllKeyed(list)
    requires HoldsOnlyStored(list, k, v) && (v != [] ==> Distinct(list))
    ensures ComesBack(list, k, v)
  {
    StoredEntries(list, k, v);
    forall out ensures InIndexOrder(Entries(list, k), out) <==> out == v {
      RestoresOrder(Entries(list, k), v, out);
    }
  }

  /** The values come back under their key and no other exactly when what the client reads under other keys
      is not left over either. */
  lemma {:induction false} NothingElseRead(slice: seq<string>, k: string, order: seq<nat>, v: seq<string>,
                                           read: seq<string>)
    requires PlainKey(k) && Covers(order, |v|)
    requires multiset(read) == multiset(ReadSelection(UpsertAll(slice, k, order, v), k)) && AllKeyed(read)
    ensures (forall k' :: k' != k ==> Entries(read, k') == [])
       <==> forall p :: Leftover(slice, k, |v|, p) ==> KeyOf(p) == k
  {
    ReadOfUpserts(slice, k, order, v, read);
    OnlyUnder(read, k);
    forall p ensures IsStored(p, k, v) ==> KeyOf(p) == k {
      LeftoverNotStored(slice, k, v, p);
    }
  }

  lemma {:induction false} OnlyUnder(list: seq<string>, k: string)
    requires AllKeyed(list)
    ensures (forall k' :: k' != k ==> Entries(list, k') == []) <==> forall p :: p in list ==> KeyOf(p) == k
  {
    if forall p :: p in list ==> KeyOf(p) == k {
      forall k' | k' != k ensures Entries(list, k') == [] {
        EntriesThere(list, k');
      }
    } else {
      var p :| p in list && KeyOf(p) != k;
      EntriesThere(list, KeyOf(p));
    }
  }

  lemma {:induction false} EntriesThere(list: seq<string>, k: string)
    requires AllKeyed(list)
    ensures Entries(list, k) != [] <==> exists p :: p in list && KeyOf(p) == k
  {
    EntriesElements(list, k);
    if p :| p in list && KeyOf(p) == k {
      assert ComesFrom(Entry(p), list, k);
    }
    HeadIn(Entries(list, k));
  }

  /** Writing fewer values than before leaves the rest of the old ones: they do not come back as written. */
  lemma {:induction false} FewerValuesLeaveTail(slice: seq<string>, k: string, order: seq<nat>, v: seq<string>,
                                                j: nat, before: string, read: seq<string>)
    requires PlainKey(k) && Covers(order, |v|) && |v| <= MAX_INT + 1
    requires j >= |v| && Stored(k, j, before) in slice
    requires multiset(read) == multiset(ReadSelection(UpsertAll(slice, k, order, v), k)) && AllKeyed(read)
    ensures Stored(k, j, before) in read && !ComesBack(read, k, v)
  {
    var p := Stored(k, j, before);
    StoredParses(k, j, before);
    if i: nat :| i < |v| && BeforeColon(p) == Indexed(k, i) {
      IndexedInjective(k, i, j);
    }
    assert Leftover(slice, k, |v|, p);
    ReadOfUpserts(slice, k, order, v, read);
    IndexedValuesSurvive(slice, k, order, v, read);
  }
}

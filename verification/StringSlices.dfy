/** Patching of string slices: group and rule lists, and the untyped key:value metadata. */
module StringSlices {
  import opened Text

  // ----- plain slices -----

  predicate StringMatcher(test: string, match_: string, exact: bool) {
    if exact then test == match_ else Contains(test, match_)
  }

  /** What a patch leaves of a slice, as a set: duplicates and empty strings never survive. */
  ghost function PatchedSet(s: set<string>, patch: string, insert: bool, exact: bool): set<string> {
    (if insert then
       if exists t :: t in s && StringMatcher(t, patch, exact) then s else s + {patch}
     else
       set t | t in s && !StringMatcher(t, patch, exact)) - {""}
  }

  /** Patching in adds the string unless one that matches is there, and patching out removes all that match; to
      match is to be equal, or to contain the string. */
  lemma {:induction false} PatchedSetExactly(s: set<string>, patch: string, x: string)
    ensures x in PatchedSet(s, patch, true, true) <==> x != "" && (x in s || x == patch)
    ensures x in PatchedSet(s, patch, false, true) <==> x != "" && x in s && x != patch
    ensures x in PatchedSet(s, patch, false, false) <==> x != "" && x in s && !Contains(x, patch)
  {
  }

  method DedupStringSlice(list: seq<string>) returns (out: seq<string>)
    ensures Distinct(out) && Elements(out) == Elements(list) - {""}
  {
    var tmp: map<string, int> := map[];
    for i := 0 to |list|
      invariant tmp.Keys == Elements(list[..i]) - {""}
    {
      if list[i] != "" {
        tmp := tmp[list[i] := (if list[i] in tmp then tmp[list[i]] else 0) + 1];
      }
    }
    assert list[..|list|] == list;
    out := [];
    var todo := tmp.Keys;
    while todo != {}
      invariant todo <= tmp.Keys
      invariant Distinct(out) && Elements(out) == tmp.Keys - todo
      decreases todo
    {
      var k :| k in todo;
      AppendDistinct(out, k);
      out, todo := out + [k], todo - {k};
    }
  }

  function Matching(patch: string, exact: bool): string -> bool {
    t => StringMatcher(t, patch, exact)
  }

  method PatchStringSlice(list: seq<string>, patch: string, insert: bool, exact: bool) returns (out: seq<string>)
    ensures Distinct(out) && Elements(out) == PatchedSet(Elements(list), patch, insert, exact)
  {
    var retSlice := Patch(list, Matching(patch, exact), patch, insert);
    PatchedElements(list, patch, insert, exact);
    out := DedupStringSlice(retSlice);
  }

  function Patched(list: seq<string>, p: string -> bool, patch: string, insert: bool): seq<string> {
    if !insert then Select(list, p, false)
    else if Select(list, p, true) != [] then list
    else list + [patch]
  }

  function PatchedSoFar(list: seq<string>, p: string -> bool, insert: bool, i: nat): seq<string>
    requires i <= |list|
  {
    if insert then list[..i] else Select(list[..i], p, false)
  }

  lemma {:induction false} PatchedNext(list: seq<string>, p: string -> bool, insert: bool, i: nat)
    requires i < |list|
    ensures PatchedSoFar(list, p, insert, i + 1)
         == PatchedSoFar(list, p, insert, i) + if p(list[i]) && !insert then [] else [list[i]]
    ensures Select(list[..i + 1], p, true) == [] <==> Select(list[..i], p, true) == [] && !p(list[i])
  {
    SelectNext(list, p, false, i);
    SelectNext(list, p, true, i);
    assert list[..i + 1] == list[..i] + [list[i]];
  }

  /** The loop of a patch, for any test p of which entries match. */
  method Patch(list: seq<string>, p: string -> bool, patch: string, insert: bool) returns (retSlice: seq<string>)
    ensures retSlice == Patched(list, p, patch, insert)
  {
    retSlice := [];
    var inserted := false;
    for i := 0 to |list|
      invariant inserted <==> insert && Select(list[..i], p, true) != []
      invariant retSlice == PatchedSoFar(list, p, insert, i)
    {
      var s := list[i];
      PatchedNext(list, p, insert, i);
      var matched := p(s);
      if matched && !insert {
        continue;
      } else if matched && insert {
        inserted := true;
      }
      retSlice := retSlice + [s];
    }
    assert list[..|list|] == list;
    if !inserted && insert {
      retSlice := retSlice + [patch];
    }
  }

  lemma {:induction false} PatchedElements(list: seq<string>, patch: string, insert: bool, exact: bool)
    ensures PatchedSet(Elements(list), patch, insert, exact)
         == Elements(Patched(list, Matching(patch, exact), patch, insert)) - {""}
  {
    var p := Matching(patch, exact);
    SelectElements(list, p, false);
    SelectElements(list, p, true);
    HeadIn(Select(list, p, true));
    ElementsAppend(list, patch);
    assert (exists t :: t in Elements(list) && StringMatcher(t, patch, exact)) <==> Select(list, p, true) != [];
  }

  // ----- key:value slices -----

  datatype Mode = Upsert | ClearFuzzy | ClearExact | Read | Unknown

  predicate IsDigit(c: char) {
    '0' <= c <= '9'
  }

  function DigitRun(s: string): (n: nat)
    ensures n <= |s| && forall i :: 0 <= i < n ==> IsDigit(s[i])
    ensures n < |s| ==> !IsDigit(s[n])
  {
    if s == "" || !IsDigit(s[0]) then 0 else 1 + DigitRun(s[1..])
  }

  /** The length of the index `{digits}` at the front of s, or 0. */
  function IndexLength(s: string): (n: nat)
    ensures n <= |s|
  {
    if s == "" || s[0] != '{' then 0
    else
      var d := DigitRun(s[1..]);
      if d > 0 && d + 1 < |s| && s[d + 1] == '}' then d + 2 else 0
  }

  /** s without its indices: leftmost first, not overlapping. */
  function StripIndex(s: string): string
    decreases |s|
  {
    if s == "" then ""
    else if IndexLength(s) > 0 then StripIndex(s[IndexLength(s)..])
    else [s[0]] + StripIndex(s[1..])
  }

  lemma {:induction false} StripPlain(k: string)
    requires '{' !in k
    ensures StripIndex(k) == k
  {
    if k != "" {
      StripPlain(k[1..]);
    }
  }

  lemma {:induction false} DigitRunAll(digits: string, rest: string)
    requires forall i :: 0 <= i < |digits| ==> IsDigit(digits[i])
    requires rest != "" && !IsDigit(rest[0])
    ensures DigitRun(digits + rest) == |digits|
  {
    if digits == "" {
      assert digits + rest == rest;
    } else {
      assert (digits + rest)[1..] == digits[1..] + rest;
      DigitRunAll(digits[1..], rest);
    }
  }

  /** The first index is taken out, and the rest stripped in turn. */
  lemma {:induction false} StripFirst(a: string, d: string, b: string)
    requires '{' !in a && d != "" && forall i :: 0 <= i < |d| ==> IsDigit(d[i])
    ensures StripIndex(a + "{" + d + "}" + b) == a + StripIndex(b)
  {
    var s := a + "{" + d + "}" + b;
    if a == "" {
      assert s[1..] == d + ("}" + b);
      DigitRunAll(d, "}" + b);
      assert s[|d| + 1] == '}' && s[IndexLength(s)..] == b;
    } else {
      assert s[1..] == a[1..] + "{" + d + "}" + b;
      StripFirst(a[1..], d, b);
    }
  }

  /** A brace that begins no index stays. */
  lemma {:induction false} StripOther(a: string, b: string)
    requires '{' !in a
    requires forall n: nat :: 0 < n < |b| && (forall i :: 0 <= i < n ==> IsDigit(b[i])) ==> b[n] != '}'
    ensures StripIndex(a + "{" + b) == a + "{" + StripIndex(b)
  {
    var s := a + "{" + b;
    if a == "" {
      assert s == "{" + b && s[1..] == b;
      NoIndexLength(b);
    } else {
      assert s[1..] == a[1..] + "{" + b;
      StripOther(a[1..], b);
      assert s[0] == a[0] && a == [a[0]] + a[1..];
    }
  }

  lemma {:induction false} NoIndexLength(b: string)
    requires forall n: nat :: 0 < n < |b| && (forall i :: 0 <= i < n ==> IsDigit(b[i])) ==> b[n] != '}'
    ensures IndexLength("{" + b) == 0
  {
    var s, n := "{" + b, DigitRun(b);
    assert s[1..] == b;
    assert n + 1 < |s| ==> s[n + 1] == b[n];
  }

  /** The entries whose key, up to the first colon, is `key`. */
  function Keyed(key: string): string -> bool {
    kv => BeforeColon(kv) == key
  }

  /** The entries whose key is `key` when indices are disregarded in both. */
  function FuzzyKeyed(key: string): string -> bool {
    var stripped := StripIndex(key);
    kv => StripIndex(BeforeColon(kv)) == stripped
  }

  ghost function UpsertSpec(slice: seq<string>, key: string, value: string): seq<string> {
    SortSet(Elements(Select(slice, Keyed(key), false)) - {""} + {WithColon(key, value)})
  }

  ghost function ClearExactSpec(slice: seq<string>, key: string): seq<string> {
    SortSet(Elements(Select(slice, Keyed(key), false)) - {""})
  }

  ghost function ClearFuzzySpec(slice: seq<string>, key: string): seq<string> {
    SortSet(Elements(Select(slice, FuzzyKeyed(key), false)) - {""})
  }

  /** The listing a read returns, before it is sorted. */
  function ReadSelection(slice: seq<string>, key: string): seq<string> {
    if key == "*" then slice else Select(slice, FuzzyKeyed(key), true)
  }

  method PatchKeyValueSlice(slice: seq<string>, mode: Mode, key: string, value: string) returns (out: seq<string>)
    ensures mode.Upsert? ==> out == UpsertSpec(slice, key, value)
    ensures mode.ClearFuzzy? ==> out == ClearFuzzySpec(slice, key)
    ensures mode.ClearExact? ==> out == ClearExactSpec(slice, key)
    ensures mode.Read? ==> Sorted(out) && multiset(out) == multiset(ReadSelection(slice, key))
    ensures mode.Unknown? ==> out == slice
  {
    match mode
    case Upsert => out := UpsertMode(slice, key, value);
    case ClearFuzzy => out := ClearFuzzyMode(slice, key);
    case ClearExact => out := ClearExactMode(slice, key);
    case Read => out := ReadMode(slice, key);
    case Unknown => out := slice;
  }

  method DedupAndSort(list: seq<string>) returns (out: seq<string>)
    ensures out == SortSet(Elements(list) - {""})
  {
    var newSlice := DedupStringSlice(list);
    out := SortStrings(newSlice);
    SameElements(newSlice, out);
    SortSetUnique(out, Elements(list) - {""});
  }

  method UpsertMode(slice: seq<string>, key: string, value: string) returns (out: seq<string>)
    ensures out == UpsertSpec(slice, key, value)
  {
    var newSlice := [];
    var inserted := false;
    ghost var p, entry := Keyed(key), WithColon(key, value);
    for i := 0 to |slice|
      invariant inserted <==> Select(slice[..i], p, true) != []
      invariant newSlice == Replace(slice[..i], p, entry)
    {
      SelectNext(slice, p, true, i);
      ReplaceNext(slice, p, entry, i);
      if BeforeColon(slice[i]) == key {
        newSlice := newSlice + [WithColon(key, value)];
        inserted := true;
      } else {
        newSlice := newSlice + [slice[i]];
      }
    }
    assert slice[..|slice|] == slice;
    ReplaceElements(slice, p, entry);
    ElementsAppend(newSlice, entry);
    if !inserted {
      newSlice := newSlice + [WithColon(key, value)];
    }
    assert Elements(newSlice) == Elements(Select(slice, p, false)) + {entry};
    assert Elements(newSlice) - {""} == Elements(Select(slice, p, false)) - {""} + {entry};
    out := DedupAndSort(newSlice);
  }

  method ClearFuzzyMode(slice: seq<string>, key: string) returns (out: seq<string>)
    ensures out == ClearFuzzySpec(slice, key)
  {
    var newSlice := [];
    var strippedK := StripIndex(key);
    for i := 0 to |slice|
      invariant newSlice == Select(slice[..i], FuzzyKeyed(key), false)
    {
      SelectNext(slice, FuzzyKeyed(key), false, i);
      if StripIndex(BeforeColon(slice[i])) != strippedK {
        newSlice := newSlice + [slice[i]];
      }
    }
    assert slice[..|slice|] == slice;
    out := DedupAndSort(newSlice);
  }

  method ClearExactMode(slice: seq<string>, key: string) returns (out: seq<string>)
    ensures out == ClearExactSpec(slice, key)
  {
    var newSlice := [];
    for i := 0 to |slice|
      invariant newSlice == Select(slice[..i], Keyed(key), false)
    {
      SelectNext(slice, Keyed(key), false, i);
      if BeforeColon(slice[i]) != key {
        newSlice := newSlice + [slice[i]];
      }
    }
    assert slice[..|slice|] == slice;
    out := DedupAndSort(newSlice);
  }

  method ReadMode(slice: seq<string>, key: string) returns (out: seq<string>)
    ensures Sorted(out) && multiset(out) == multiset(ReadSelection(slice, key))
  {
    if key == "*" {
      out := SortStrings(slice);
      return;
    }
    var strippedK := StripIndex(key);
    out := [];
    for i := 0 to |slice|
      invariant out == Select(slice[..i], FuzzyKeyed(key), true)
    {
      SelectNext(slice, FuzzyKeyed(key), true, i);
      if StripIndex(BeforeColon(slice[i])) == strippedK {
        out := out + [slice[i]];
      }
    }
    assert slice[..|slice|] == slice;
    out := SortStrings(out);
  }

  // ----- the algebra of upserts -----

  /** What an upsert leaves: every non-empty entry under another key, and the new entry. */
  lemma {:induction false} UpsertEntries(slice: seq<string>, key: string, value: string, kv: string)
    ensures kv in UpsertSpec(slice, key, value) <==>
            kv == WithColon(key, value) || (kv in slice && kv != "" && BeforeColon(kv) != key)
  {
    SelectElements(slice, Keyed(key), false);
    assert kv in UpsertSpec(slice, key, value) <==> kv in Elements(UpsertSpec(slice, key, value));
  }

  /** An exact clear keeps the non-empty entries under other keys, each once and in order. */
  lemma {:induction false} ClearExactEntries(slice: seq<string>, key: string, kv: string)
    ensures kv in ClearExactSpec(slice, key) <==> kv in slice && kv != "" && BeforeColon(kv) != key
    ensures Sorted(ClearExactSpec(slice, key)) && Distinct(ClearExactSpec(slice, key))
  {
    SelectElements(slice, Keyed(key), false);
    assert kv in ClearExactSpec(slice, key) <==> kv in Elements(ClearExactSpec(slice, key));
  }

  /** A fuzzy clear keeps those whose key differs also with the indices taken out. */
  lemma {:induction false} ClearFuzzyEntries(slice: seq<string>, key: string, kv: string)
    ensures kv in ClearFuzzySpec(slice, key)
       <==> kv in slice && kv != "" && StripIndex(BeforeColon(kv)) != StripIndex(key)
    ensures Sorted(ClearFuzzySpec(slice, key)) && Distinct(ClearFuzzySpec(slice, key))
  {
    SelectElements(slice, FuzzyKeyed(key), false);
    assert kv in ClearFuzzySpec(slice, key) <==> kv in Elements(ClearFuzzySpec(slice, key));
  }

  /** A read returns the others, as often as they are there; a star reads everything. */
  lemma {:induction false} ReadEntries(slice: seq<string>, key: string, kv: string)
    ensures multiset(ReadSelection(slice, key))[kv]
         == if key == "*" || StripIndex(BeforeColon(kv)) == StripIndex(key) then multiset(slice)[kv] else 0
  {
    SelectKeepsCount(slice, FuzzyKeyed(key), true, kv);
  }

  /** The result is sorted and without duplicates, and has exactly one entry under the key - provided the key
      has no colon; a key with one leaves no entry under itself at all. */
  lemma {:induction false} UpsertUnique(slice: seq<string>, key: string, value: string)
    ensures Sorted(UpsertSpec(slice, key, value)) && Distinct(UpsertSpec(slice, key, value))
    ensures (exists kv :: kv in UpsertSpec(slice, key, value) && BeforeColon(kv) == key) <==> ':' !in key
    ensures forall kv :: kv in UpsertSpec(slice, key, value) && BeforeColon(kv) == key ==> kv == WithColon(key, value)
  {
    forall kv ensures kv in UpsertSpec(slice, key, value) <==>
                      kv == WithColon(key, value) || (kv in slice && kv != "" && BeforeColon(kv) != key)
    {
      UpsertEntries(slice, key, value, kv);
    }
    if ':' !in key {
      CutWithColon(key, value);
    }
  }

  /** Upserts under different keys commute. */
  lemma {:induction false} UpsertsCommute(slice: seq<string>, k: string, v: string, k': string, v': string)
    requires ':' !in k && ':' !in k' && k != k'
    ensures UpsertSpec(UpsertSpec(slice, k, v), k', v') == UpsertSpec(UpsertSpec(slice, k', v'), k, v)
  {
    var a, b := UpsertSpec(UpsertSpec(slice, k, v), k', v'), UpsertSpec(UpsertSpec(slice, k', v'), k, v);
    CutWithColon(k, v);
    CutWithColon(k', v');
    forall kv ensures kv in a <==> kv in b {
      UpsertEntries(slice, k, v, kv);
      UpsertEntries(slice, k', v', kv);
      UpsertEntries(UpsertSpec(slice, k, v), k', v', kv);
      UpsertEntries(UpsertSpec(slice, k', v'), k, v, kv);
    }
    assert Elements(a) == Elements(b);
    SortSetUnique(a, Elements(a));
    SortSetUnique(b, Elements(b));
  }

  /** The last upsert to a key wins. */
  lemma {:induction false} LastUpsertWins(slice: seq<string>, k: string, v: string, v': string)
    requires ':' !in k
    ensures UpsertSpec(UpsertSpec(slice, k, v), k, v') == UpsertSpec(slice, k, v')
  {
    var a, b := UpsertSpec(UpsertSpec(slice, k, v), k, v'), UpsertSpec(slice, k, v');
    CutWithColon(k, v);
    forall kv ensures kv in a <==> kv in b {
      UpsertEntries(slice, k, v, kv);
      UpsertEntries(slice, k, v', kv);
      UpsertEntries(UpsertSpec(slice, k, v), k, v', kv);
    }
    assert Elements(a) == Elements(b);
    SortSetUnique(a, Elements(a));
    SortSetUnique(b, Elements(b));
  }

  // ----- reading and clearing split the slice -----

  /** What a fuzzy clear keeps and what a read of the same key returns make up the slice again, exactly when
      the entries under other keys are distinct and none of them is empty. */
  lemma {:induction false} ReadAndClearSplit(slice: seq<string>, key: string)
    requires key != "*"
    ensures multiset(ReadSelection(slice, key)) + multiset(ClearFuzzySpec(slice, key)) == multiset(slice)
       <==> Distinct(Select(slice, FuzzyKeyed(key), false)) && "" !in Select(slice, FuzzyKeyed(key), false)
  {
    SelectSplits(slice, FuzzyKeyed(key));
    SplitExact(Select(slice, FuzzyKeyed(key), true), Select(slice, FuzzyKeyed(key), false), slice);
  }

  /** Sorting and deduplicating a part of a split keeps the split exactly when nothing was dropped. */
  lemma {:induction false} SplitExact(read: seq<string>, kept: seq<string>, whole: seq<string>)
    requires multiset(read) + multiset(kept) == multiset(whole)
    ensures multiset(read) + multiset(SortSet(Elements(kept) - {""})) == multiset(whole)
       <==> Distinct(kept) && "" !in kept
  {
    var cleared := SortSet(Elements(kept) - {""});
    DistinctIsSet(cleared);
    if Distinct(kept) && "" !in kept {
      DistinctIsSet(kept);
      assert Elements(kept) - {""} == Elements(kept);
    }
    if multiset(read) + multiset(cleared) == multiset(whole) {
      CancelLeft(multiset(read), multiset(cleared), multiset(kept));
      SameElements(kept, cleared);
      assert "" in kept <==> "" in Elements(kept);
    }
  }

  lemma {:induction false} CancelLeft<T>(r: multiset<T>, a: multiset<T>, b: multiset<T>)
    requires r + a == r + b
    ensures a == b
  {
    assert a == (r + a) - r && b == (r + b) - r;
  }

  /** For instance when an entry under another key is there twice: clearing keeps it once only. */
  lemma {:induction false} DuplicateBreaksSplit(slice: seq<string>, key: string, e: string)
    requires key != "*" && !FuzzyKeyed(key)(e) && multiset(slice)[e] >= 2
    ensures multiset(ReadSelection(slice, key)) + multiset(ClearFuzzySpec(slice, key)) != multiset(slice)
  {
    ReadAndClearSplit(slice, key);
    var kept, read := Select(slice, FuzzyKeyed(key), false), Select(slice, FuzzyKeyed(key), true);
    SelectSplits(slice, FuzzyKeyed(key));
    SelectElements(slice, FuzzyKeyed(key), true);
    assert e !in read && multiset(read)[e] == 0;
    assert multiset(slice)[e] == multiset(read)[e] + multiset(kept)[e];
    assert e in multiset(kept) && e in kept;
  }

  /** Nothing is left to read after a fuzzy clear. */
  lemma {:induction false} ReadAfterClear(slice: seq<string>, key: string)
    requires key != "*"
    ensures ReadSelection(ClearFuzzySpec(slice, key), key) == []
  {
    var cleared := ClearFuzzySpec(slice, key);
    SelectElements(slice, FuzzyKeyed(key), false);
    SelectElements(cleared, FuzzyKeyed(key), true);
    var read := Select(cleared, FuzzyKeyed(key), true);
    forall kv ensures kv !in read {
      assert kv in cleared <==> kv in Elements(cleared);
      assert kv in Elements(cleared) ==> kv in Select(slice, FuzzyKeyed(key), false);
    }
    HeadIn(read);
  }
}

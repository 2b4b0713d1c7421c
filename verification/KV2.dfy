/** The typed key/value list on entities and groups: a list that acts as a finite map. */
module KV2 {
  import opened Outcomes
  import opened Text
  import opened IndexOrder

  /** A key with its values, each carrying the index the client numbered it with. */
  datatype KVData = KVData(key: string, values: seq<SortableValue>)

  datatype Error = FailedPrecondition | KeyExists | NoSuchKey

  type Table = map<string, seq<SortableValue>>

  ghost predicate UniqueKeys(kv: seq<KVData>) {
    forall i, j :: 0 <= i < j < |kv| ==> kv[i].key != kv[j].key
  }

  /** The map a list stands for. */
  function AsMap(kv: seq<KVData>): Table {
    if kv == [] then map[]
    else AsMap(kv[..|kv| - 1])[kv[|kv| - 1].key := kv[|kv| - 1].values]
  }

  function OtherKey(key: string): KVData -> bool {
    (d: KVData) => d.key != key
  }

  lemma {:induction false} AsMapKeys(kv: seq<KVData>, key: string)
    ensures key in AsMap(kv) <==> exists i :: 0 <= i < |kv| && kv[i].key == key
  {
    if kv != [] {
      AsMapKeys(kv[..|kv| - 1], key);
      if i :| 0 <= i < |kv| && kv[i].key == key {
        assert i < |kv| - 1 ==> kv[..|kv| - 1][i].key == key;
      }
    }
  }

  lemma {:induction false} LastKeyNew(kv: seq<KVData>)
    requires UniqueKeys(kv) && kv != []
    ensures UniqueKeys(kv[..|kv| - 1]) && kv[|kv| - 1].key !in AsMap(kv[..|kv| - 1])
  {
    AsMapKeys(kv[..|kv| - 1], kv[|kv| - 1].key);
  }

  lemma {:induction false} DropPast(m: Table, k: string, v: seq<SortableValue>, key: string)
    ensures m[k := v] - {key} == if k == key then m - {key} else (m - {key})[k := v]
  {
  }

  lemma {:induction false} AsMapAppend(kv: seq<KVData>, d: KVData)
    ensures AsMap(kv + [d]) == AsMap(kv)[d.key := d.values]
  {
    assert (kv + [d])[..|kv|] == kv;
  }

  /** Dropping the entries of a key drops it from the map. */
  lemma {:induction false} AsMapWithout(kv: seq<KVData>, key: string)
    ensures AsMap(Select(kv, OtherKey(key), true)) == AsMap(kv) - {key}
  {
    if kv != [] {
      var init, last := kv[..|kv| - 1], kv[|kv| - 1];
      AsMapWithout(init, key);
      DropPast(AsMap(init), last.key, last.values, key);
      var rest := Select(init, OtherKey(key), true);
      AsMapAppend(rest, last);
      assert rest + [] == rest;
      assert Select(kv, OtherKey(key), true) == if last.key != key then rest + [last] else rest;
    }
  }

  lemma {:induction false} SelectKeepsUnique(kv: seq<KVData>, key: string)
    requires UniqueKeys(kv)
    ensures UniqueKeys(Select(kv, OtherKey(key), true))
    ensures |Select(kv, OtherKey(key), true)| <= |kv|
    ensures |Select(kv, OtherKey(key), true)| == |kv| <==> key !in AsMap(kv)
  {
    if kv != [] {
      var init, last := kv[..|kv| - 1], kv[|kv| - 1];
      LastKeyNew(kv);
      SelectKeepsUnique(init, key);
      SelectElements(init, OtherKey(key), true);
      AsMapKeys(init, last.key);
      forall d | d in init ensures d.key != last.key {
        var i :| 0 <= i < |init| && init[i] == d;
      }
    }
  }

  /** With unique keys the map has at each key the values listed under it. */
  lemma {:induction false} AsMapAt(kv: seq<KVData>, i: nat)
    requires UniqueKeys(kv) && i < |kv|
    ensures kv[i].key in AsMap(kv) && AsMap(kv)[kv[i].key] == kv[i].values
  {
    if i < |kv| - 1 {
      LastKeyNew(kv);
      AsMapAt(kv[..|kv| - 1], i);
    }
  }

  // ----- the operations -----

  /** The metadata of one entity or group. */
  class Meta {
    var kv: seq<KVData>

    ghost predicate Valid()
      reads this
    {
      UniqueKeys(kv)
    }

    constructor ()
      ensures Valid() && kv == []
    {
      kv := [];
    }

    method AddKey(data: seq<KVData>) returns (err: Option<Error>)
      requires Valid()
      modifies this
      ensures Valid()
      ensures err == if |data| != 1 then Some(FailedPrecondition)
                     else if data[0].key in AsMap(old(kv)) then Some(KeyExists) else None
      ensures err.Some? ==> kv == old(kv)
      ensures err.None? ==> kv == old(kv) + data && AsMap(kv) == AsMap(old(kv))[data[0].key := data[0].values]
    {
      if |data| != 1 {
        return Some(FailedPrecondition);
      }
      var compare := data[0].key;
      AsMapKeys(kv, compare);
      for i := 0 to |kv|
        invariant forall j :: 0 <= j < i ==> kv[j].key != compare
      {
        if kv[i].key == compare {
          return Some(KeyExists);
        }
      }
      kv := kv + [data[0]];
      assert kv[..|kv| - 1] == old(kv);
      assert data == [data[0]];
      return None;
    }

    method DelKey(data: seq<KVData>) returns (err: Option<Error>)
      requires Valid()
      modifies this
      ensures Valid()
      ensures err == if |data| != 1 then Some(FailedPrecondition)
                     else if data[0].key in AsMap(old(kv)) then None else Some(NoSuchKey)
      ensures err.Some? ==> kv == old(kv)
      ensures err.None? ==> kv == Select(old(kv), OtherKey(data[0].key), true) && AsMap(kv) == AsMap(old(kv)) - {data[0].key}
    {
      if |data| != 1 {
        return Some(FailedPrecondition);
      }
      var compare := data[0].key;
      AsMapWithout(kv, compare);
      SelectKeepsUnique(kv, compare);
      var out := [];
      for i := 0 to |kv|
        invariant kv == old(kv) && out == Select(kv[..i], OtherKey(compare), true)
      {
        SelectNext(kv, OtherKey(compare), true, i);
        if kv[i].key == compare {
          continue;
        }
        out := out + [kv[i]];
      }
      assert kv[..|kv|] == kv;
      if |out| == |kv| {
        return Some(NoSuchKey);
      }
      kv := out;
      return None;
    }

    /** The add half never fails once the delete half has succeeded. */
    method ReplaceKey(data: seq<KVData>) returns (err: Option<Error>)
      requires Valid()
      modifies this
      ensures Valid()
      ensures err == if |data| != 1 then Some(FailedPrecondition)
                     else if data[0].key in AsMap(old(kv)) then None else Some(NoSuchKey)
      ensures err.Some? ==> kv == old(kv)
      ensures err.None? ==>
                && kv == Select(old(kv), OtherKey(data[0].key), true) + data
                && AsMap(kv) == AsMap(old(kv))[data[0].key := data[0].values]
    {
      err := DelKey(data);
      if err.Some? {
        return;
      }
      assert AsMap(kv)[data[0].key := data[0].values] == AsMap(old(kv))[data[0].key := data[0].values];
      err := AddKey(data);
    }

    /** The entries asked for: everything for a single star, otherwise each entry once per matching request. */
    method Get(keys: seq<string>) returns (r: Result<seq<KVData>, Error>)
      requires Valid()
      ensures keys == ["*"] ==> r == Ok(kv)
      ensures keys != ["*"] ==>
                match r
                case Ok(out) => out != [] && AsMap(out) == Picked(kv, keys) && OncePerRequest(kv, keys, out)
                case Err(e) => e == NoSuchKey && forall k :: k in keys ==> k !in AsMap(kv)
    {
      if |keys| == 1 && keys[0] == "*" {
        return Ok(kv);
      }
      var out := [];
      for i := 0 to |kv|
        invariant AsMap(out) == Picked(kv[..i], keys) && OncePerRequest(kv[..i], keys, out)
      {
        PickedNext(kv, keys, i);
        var copies := Copies(kv[i], keys);
        AppendCopies(out, copies, kv[i]);
        RequestsNext(kv, keys, i, out, copies);
        out := out + copies;
      }
      assert kv[..|kv|] == kv;
      assert forall k :: k in AsMap(kv) && k in keys ==> k in Picked(kv, keys);
      if |out| == 0 {
        return Err(NoSuchKey);
      }
      return Ok(out);
    }
  }

  /** The part of the map that is asked for. */
  function Picked(kv: seq<KVData>, keys: seq<string>): Table {
    map k | k in AsMap(kv) && k in keys :: AsMap(kv)[k]
  }

  /** Each entry of the list is there once for every request that names its key, and nothing else is. */
  ghost predicate OncePerRequest(kv: seq<KVData>, keys: seq<string>, out: seq<KVData>) {
    forall d :: multiset(out)[d] == if d in kv then multiset(keys)[d.key] else 0
  }

  lemma {:induction false} AllCopies(copies: seq<KVData>, d: KVData, x: KVData)
    requires forall i :: 0 <= i < |copies| ==> copies[i] == d
    ensures multiset(copies)[x] == if x == d then |copies| else 0
  {
    if copies != [] {
      var init := copies[..|copies| - 1];
      AllCopies(init, d, x);
      assert copies == init + [d];
    }
  }

  lemma {:induction false} RequestsNext(kv: seq<KVData>, keys: seq<string>, i: nat, out: seq<KVData>, copies: seq<KVData>)
    requires UniqueKeys(kv) && i < |kv| && OncePerRequest(kv[..i], keys, out)
    requires |copies| == multiset(keys)[kv[i].key] && forall j :: 0 <= j < |copies| ==> copies[j] == kv[i]
    ensures OncePerRequest(kv[..i + 1], keys, out + copies)
  {
    assert kv[..i + 1] == kv[..i] + [kv[i]];
    forall d | d in kv[..i] ensures d.key != kv[i].key {
      var j :| 0 <= j < i && kv[j] == d;
    }
    forall x ensures multiset(out + copies)[x] == if x in kv[..i + 1] then multiset(keys)[x.key] else 0 {
      AllCopies(copies, kv[i], x);
      assert multiset(out + copies)[x] == multiset(out)[x] + multiset(copies)[x];
    }
  }

  lemma {:induction false} PickedNext(kv: seq<KVData>, keys: seq<string>, i: nat)
    requires i < |kv|
    ensures var d := kv[i];
            Picked(kv[..i + 1], keys)
            == if d.key in keys then Picked(kv[..i], keys)[d.key := d.values] else Picked(kv[..i], keys)
  {
    assert kv[..i + 1][..i] == kv[..i];
  }

  /** One copy of an entry for every request that names its key. */
  method Copies(d: KVData, keys: seq<string>) returns (copies: seq<KVData>)
    ensures copies == [] <==> d.key !in keys
    ensures |copies| == multiset(keys)[d.key]
    ensures forall i :: 0 <= i < |copies| ==> copies[i] == d
  {
    copies := [];
    for j := 0 to |keys|
      invariant copies == [] <==> d.key !in keys[..j]
      invariant |copies| == multiset(keys[..j])[d.key]
      invariant forall i :: 0 <= i < |copies| ==> copies[i] == d
    {
      assert keys[..j + 1] == keys[..j] + [keys[j]];
      if d.key != keys[j] {
        continue;
      }
      copies := copies + [d];
    }
    assert keys[..|keys|] == keys;
  }

  lemma {:induction false} AppendCopies(out: seq<KVData>, copies: seq<KVData>, d: KVData)
    requires forall i :: 0 <= i < |copies| ==> copies[i] == d
    ensures AsMap(out + copies) == if copies == [] then AsMap(out) else AsMap(out)[d.key := d.values]
  {
    if copies == [] {
      assert out + copies == out;
    } else {
      var init := copies[..|copies| - 1];
      assert (out + copies)[..|out + copies| - 1] == out + init;
      AppendCopies(out, init, d);
    }
  }

  // ----- the client's numbering of values -----

  /** int32(i): wraps around outside the 32-bit range. */
  function Int32(i: int): int {
    (i + 0x8000_0000) % 0x1_0000_0000 - 0x8000_0000
  }

  function Numbered(values: seq<string>): seq<SortableValue> {
    seq(|values|, i requires 0 <= i < |values| => SortableValue(Int32(i), values[i]))
  }

  lemma {:induction false} Int32Small(i: int)
    requires 0 <= i < 0x8000_0000
    ensures Int32(i) == i
  {
  }

  lemma {:induction false} NumberedAt(values: seq<string>)
    requires |values| <= 0x8000_0000
    ensures forall j :: 0 <= j < |values| ==> Numbered(values)[j] == SortableValue(j, values[j])
  {
    forall j | 0 <= j < |values| ensures Numbered(values)[j] == SortableValue(j, values[j]) {
      Int32Small(j);
    }
  }

  /** The numbers ascend exactly when there are at most 2^31 values. */
  lemma {:induction false} NumberingAscends(values: seq<string>)
    ensures ByIndex(Numbered(values)) <==> |values| <= 0x8000_0000
  {
    var n := Numbered(values);
    if |values| <= 0x8000_0000 {
      NumberedAt(values);
    } else {
      assert n[0].index == 0 && n[0x8000_0000].index == -0x8000_0000;
    }
  }

  /** However the stored values are permuted, sorting them by index gives the caller's values in order. */
  lemma {:induction false} ValuesKeepTheirOrder(values: seq<string>, stored: seq<SortableValue>, out: seq<string>)
    requires |values| <= 0x8000_0000 && multiset(stored) == multiset(Numbered(values))
    ensures InIndexOrder(stored, out) <==> out == values
  {
    NumberedDistinct(values, |values|);
    var n := Numbered(values);
    assert n[..|n|] == n;
    SameElements(stored, n);
    forall e ensures e in stored <==> e in n {
      assert e in stored <==> e in Elements(stored);
      assert e in n <==> e in Elements(n);
    }
    NumberedElements(values);
    RestoresOrder(stored, values, out);
  }

  lemma {:induction false} NumberedElements(values: seq<string>)
    requires |values| <= 0x8000_0000
    ensures forall j :: 0 <= j < |values| ==> SortableValue(j, values[j]) in Numbered(values)
    ensures forall e :: e in Numbered(values) ==> 0 <= e.index < |values| && e.value == values[e.index]
  {
    NumberedAt(values);
    forall j | 0 <= j < |values| ensures SortableValue(j, values[j]) in Numbered(values) {
      assert Numbered(values)[j] == SortableValue(j, values[j]);
    }
  }

  lemma {:induction false} NumberedDistinct(values: seq<string>, k: nat)
    requires k <= |values| <= 0x8000_0000
    ensures Distinct(Numbered(values)[..k])
  {
    if k > 0 {
      NumberedDistinct(values, k - 1);
      NumberedAt(values);
      var n := Numbered(values);
      assert n[..k] == n[..k - 1] + [n[k - 1]];
      forall e | e in n[..k - 1] ensures e.index < k - 1 {
        var i :| 0 <= i < k - 1 && n[i] == e;
      }
      AppendDistinct(n[..k - 1], n[k - 1]);
    }
  }
}

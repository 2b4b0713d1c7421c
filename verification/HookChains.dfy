/** Chains of hooks ordered by priority. The sort that orders them is not stable, so hooks of equal priority
    may run in any order. */
module HookChains {
  import opened Outcomes
  import opened Text

  /** Runs the hooks one after the other; the first that fails stops the chain. */
  ghost function RunAll<H, S>(run: (H, S) -> Option<S>, hooks: seq<H>, s: S): Option<S> {
    if hooks == [] then Some(s)
    else
      match run(hooks[0], s)
      case None => None
      case Some(t) => RunAll(run, hooks[1..], t)
  }

  ghost predicate ByPriority<H>(priority: H -> int, hooks: seq<H>) {
    forall i, j :: 0 <= i < j < |hooks| ==> priority(hooks[i]) <= priority(hooks[j])
  }

  /** The same hooks, in some order that respects the priorities. */
  ghost predicate Orders<H>(priority: H -> int, chain: seq<H>, hooks: seq<H>) {
    multiset(chain) == multiset(hooks) && ByPriority(priority, chain)
  }

  /** Running h and then k is the same as running k and then h, successes and results alike. */
  ghost predicate Commute<H, S(!new)>(run: (H, S) -> Option<S>, h: H, k: H) {
    forall s :: RunAll(run, [h, k], s) == RunAll(run, [k, h], s)
  }

  ghost predicate TiesCommute<H(!new), S(!new)>(run: (H, S) -> Option<S>, priority: H -> int, hooks: seq<H>) {
    forall h, k :: h in hooks && k in hooks && priority(h) == priority(k) ==> Commute(run, h, k)
  }

  lemma {:induction false} AdjacentByPriority<H>(priority: H -> int, q: seq<H>)
    requires forall i :: 0 <= i < |q| - 1 ==> priority(q[i]) <= priority(q[i + 1])
    ensures ByPriority(priority, q)
    decreases |q|
  {
    if |q| > 1 {
      var init := q[..|q| - 1];
      AdjacentByPriority(priority, init);
      assert forall i :: 0 <= i < |init| ==> init[i] == q[i];
      assert priority(q[|q| - 2]) <= priority(q[|q| - 2 + 1]);
    }
  }

  lemma {:induction false} RunCons<H, S>(run: (H, S) -> Option<S>, h: H, rest: seq<H>, s: S)
    ensures RunAll(run, [h] + rest, s)
         == match run(h, s) case None => None case Some(t) => RunAll(run, rest, t)
  {
    assert ([h] + rest)[1..] == rest;
  }

  lemma {:induction false} RunTwo<H, S>(run: (H, S) -> Option<S>, h: H, k: H, rest: seq<H>, s: S)
    ensures RunAll(run, [h] + ([k] + rest), s)
         == match RunAll(run, [h, k], s) case None => None case Some(t) => RunAll(run, rest, t)
  {
    RunCons(run, h, [k] + rest, s);
    assert [h, k] == [h] + [k];
    RunCons(run, h, [k], s);
    match run(h, s)
    case None =>
    case Some(t) =>
      RunCons(run, k, rest, t);
      assert [k] == [k] + [];
      RunCons(run, k, [], t);
  }

  /** A hook that commutes with everything before it may run first. */
  lemma {:induction false} MoveToFront<H(!new), S(!new)>(run: (H, S) -> Option<S>, before: seq<H>, h: H, rest: seq<H>, s: S)
    requires forall k :: k in before ==> Commute(run, k, h)
    ensures RunAll(run, before + ([h] + rest), s) == RunAll(run, [h] + (before + rest), s)
    decreases |before|
  {
    if before == [] {
      assert before + ([h] + rest) == [h] + (before + rest);
    } else {
      var k, tail := before[0], before[1..];
      assert before + ([h] + rest) == [k] + (tail + ([h] + rest));
      assert before + rest == [k] + (tail + rest);
      RunCons(run, k, tail + ([h] + rest), s);
      RunCons(run, k, [h] + (tail + rest), s);
      if run(k, s).Some? {
        MoveToFront(run, tail, h, rest, run(k, s).value);
      }
      RunTwo(run, k, h, tail + rest, s);
      RunTwo(run, h, k, tail + rest, s);
      assert k in before && Commute(run, k, h);
      assert RunAll(run, [k, h], s) == RunAll(run, [h, k], s);
    }
  }

  /** In two orders of the same hooks, whatever stands before the first hook of the one in the other has the
      same priority as that hook. */
  lemma {:induction false} TiesBeforeFirst<H(!new)>(priority: H -> int, a: seq<H>, b: seq<H>, i: nat)
    requires multiset(a) == multiset(b) && ByPriority(priority, a) && ByPriority(priority, b)
    requires a != [] && i < |b| && b[i] == a[0]
    ensures forall k :: k in b[..i] ==> k in a && priority(k) == priority(a[0])
  {
    forall k | k in b[..i] ensures k in a && priority(k) == priority(a[0]) {
      var j :| 0 <= j < i && b[j] == k;
      assert k in multiset(b) && k in multiset(a);
      var m :| 0 <= m < |a| && a[m] == k;
      assert priority(a[0]) <= priority(a[m]);
    }
  }

  lemma {:induction false} RestByPriority<H>(priority: H -> int, b: seq<H>, i: nat)
    requires ByPriority(priority, b) && i < |b|
    ensures ByPriority(priority, b[..i] + b[i + 1..])
  {
  }

  /** The other order may run the first hook of this one first. */
  lemma {:induction false} FirstRunsFirst<H(!new), S(!new)>(run: (H, S) -> Option<S>, priority: H -> int,
                                                          a: seq<H>, b: seq<H>, i: nat, s: S)
    requires multiset(a) == multiset(b) && ByPriority(priority, a) && ByPriority(priority, b)
    requires TiesCommute(run, priority, a)
    requires a != [] && i < |b| && b[i] == a[0]
    ensures RunAll(run, b, s) == RunAll(run, [a[0]] + (b[..i] + b[i + 1..]), s)
  {
    TiesBeforeFirst(priority, a, b, i);
    assert b == b[..i] + ([a[0]] + b[i + 1..]);
    forall k | k in b[..i] ensures Commute(run, k, a[0]) {
      assert k in a && a[0] in a;
    }
    MoveToFront(run, b[..i], a[0], b[i + 1..], s);
  }

  lemma {:induction false} TiesCommuteInRest<H(!new), S(!new)>(run: (H, S) -> Option<S>, priority: H -> int, a: seq<H>)
    requires a != [] && TiesCommute(run, priority, a)
    ensures TiesCommute(run, priority, a[1..])
  {
    assert forall h :: h in a[1..] ==> h in a;
  }

  /** When hooks of equal priority commute, every order the sort may produce has the same outcome. */
  lemma {:induction false} OrdersAgree<H(!new), S(!new)>(run: (H, S) -> Option<S>, priority: H -> int,
                                                       a: seq<H>, b: seq<H>, s: S)
    requires multiset(a) == multiset(b) && ByPriority(priority, a) && ByPriority(priority, b)
    requires TiesCommute(run, priority, a)
    ensures RunAll(run, a, s) == RunAll(run, b, s)
    decreases |a|
  {
    if a == [] {
      assert |b| == |multiset(b)| == 0;
    } else {
      var h := a[0];
      assert h in multiset(b);
      var i :| 0 <= i < |b| && b[i] == h;
      FirstRunsFirst(run, priority, a, b, i, s);
      var rest := b[..i] + b[i + 1..];
      RunCons(run, h, rest, s);
      RunCons(run, h, a[1..], s);
      assert a == [h] + a[1..];
      PermutationOfRest(a, b, i);
      RestByPriority(priority, b, i);
      assert ByPriority(priority, a[1..]);
      TiesCommuteInRest(run, priority, a);
      if run(h, s).Some? {
        OrdersAgree(run, priority, a[1..], rest, run(h, s).value);
      }
    }
  }

  /** So the outcome of a chain is settled by which hooks are in it. */
  lemma {:induction false} OutcomeSettled<H(!new), S(!new)>(run: (H, S) -> Option<S>, priority: H -> int,
                                                          chain: seq<H>, a: seq<H>, b: seq<H>, s: S)
    requires Orders(priority, a, chain) && Orders(priority, b, chain) && TiesCommute(run, priority, chain)
    ensures RunAll(run, a, s) == RunAll(run, b, s)
  {
    forall h ensures h in a <==> h in chain {
      assert h in a <==> h in multiset(a);
      assert h in chain <==> h in multiset(chain);
    }
    OrdersAgree(run, priority, a, b, s);
  }

  lemma {:induction false} MoveEarlier<H>(q: seq<H>, i: nat, j: nat, r: seq<H>)
    requires i <= j < |q| && |r| == |q| && r[i] == q[j]
    requires forall k :: 0 <= k < i || j < k < |q| ==> r[k] == q[k]
    requires forall k :: i <= k < j ==> r[k + 1] == q[k]
    ensures multiset(r) == multiset(q)
  {
    var a, b, c, d := q[..i], q[i..j], [q[j]], q[j + 1..];
    assert q == a + b + c + d;
    assert r == a + c + b + d;
    assert multiset(a + b + c + d) == multiset(a) + multiset(b) + multiset(c) + multiset(d);
    assert multiset(a + c + b + d) == multiset(a) + multiset(c) + multiset(b) + multiset(d);
  }

  lemma {:induction false} LeastFirst<H>(priority: H -> int, order: seq<H>, h: H)
    requires ByPriority(priority, order) && h in order
    ensures order != [] && order[0] in order && priority(order[0]) <= priority(h)
  {
    var i :| 0 <= i < |order| && order[i] == h;
  }

  // ----- which error is reported -----

  /** Both succeed with the same, or both fail. */
  predicate SameOutcome<S(==), E>(a: Result<S, E>, b: Result<S, E>) {
    if a.Ok? then b.Ok? && a.value == b.value else b.Err?
  }


  /** Runs the hooks one after the other and reports the first error. */
  ghost function RunFirst<H, S, E>(run: (H, S) -> Result<S, E>, hooks: seq<H>, s: S): Result<S, E> {
    if hooks == [] then Ok(s)
    else
      match run(hooks[0], s)
      case Err(e) => Err(e)
      case Ok(t) => RunFirst(run, hooks[1..], t)
  }

  lemma {:induction false} RunFirstCons<H, S, E>(run: (H, S) -> Result<S, E>, h: H, rest: seq<H>, s: S)
    ensures RunFirst(run, [h] + rest, s)
         == if run(h, s).Err? then Err(run(h, s).error) else RunFirst(run, rest, run(h, s).value)
  {
    assert ([h] + rest)[1..] == rest;
  }

  /** A run with its errors not told apart. */
  function Silent<H, S, E>(run: (H, S) -> Result<S, E>): (H, S) -> Option<S> {
    (h: H, s: S) => match run(h, s) case Err(_) => None case Ok(t) => Some(t)
  }

  lemma {:induction false} RunAllIsSilent<H, S, E>(run: (H, S) -> Result<S, E>, hooks: seq<H>, s: S)
    ensures RunAll(Silent(run), hooks, s)
         == match RunFirst(run, hooks, s) case Err(_) => None case Ok(t) => Some(t)
  {
    if hooks != [] && run(hooks[0], s).Ok? {
      RunAllIsSilent(run, hooks[1..], run(hooks[0], s).value);
    }
  }

  /** A run whose state may be an error, which every hook then passes on. */
  function Carried<H, S, E>(run: (H, S) -> Result<S, E>): (H, Result<S, E>) -> Option<Result<S, E>> {
    (h: H, r: Result<S, E>) => Some(match r case Err(e) => Err(e) case Ok(s) => run(h, s))
  }

  lemma {:induction false} RunAllCarries<H, S, E>(run: (H, S) -> Result<S, E>, hooks: seq<H>, r: Result<S, E>)
    ensures RunAll(Carried(run), hooks, r)
         == Some(match r case Err(e) => Err(e) case Ok(s) => RunFirst(run, hooks, s))
  {
    if hooks != [] {
      RunAllCarries(run, hooks[1..], Carried(run)(hooks[0], r).value);
    }
  }

  /** When hooks of equal priority commute in their errors too, every order reports the same. */
  lemma {:induction false} ReportSettled<H(!new), S(!new), E(!new)>(run: (H, S) -> Result<S, E>, priority: H -> int,
                                                                  chain: seq<H>, a: seq<H>, b: seq<H>, s: S)
    requires Orders(priority, a, chain) && Orders(priority, b, chain) && TiesCommute(Carried(run), priority, chain)
    ensures RunFirst(run, a, s) == RunFirst(run, b, s)
  {
    OutcomeSettled(Carried(run), priority, chain, a, b, Ok(s));
    RunAllCarries(run, a, Ok(s));
    RunAllCarries(run, b, Ok(s));
  }

  lemma {:induction false} CarriedPair<H, S, E>(run: (H, S) -> Result<S, E>, h: H, k: H, r: Result<S, E>)
    ensures RunAll(Carried(run), [h, k], r)
         == Some(match r
                 case Err(e) => Err(e)
                 case Ok(s) => (match run(h, s) case Err(e) => Err(e) case Ok(t) => run(k, t)))
  {
    RunAllCarries(run, [h, k], r);
    if r.Ok? {
      assert [h, k] == [h] + ([k] + []);
      RunFirstCons(run, h, [k] + [], r.value);
      if run(h, r.value).Ok? {
        RunFirstCons(run, k, [], run(h, r.value).value);
      }
    }
  }

  lemma {:induction false} CarriedCommute<H, S(!new), E(!new)>(run: (H, S) -> Result<S, E>, h: H, k: H)
    requires forall s :: (match run(h, s) case Err(e) => Err(e) case Ok(t) => run(k, t))
                      == (match run(k, s) case Err(e) => Err(e) case Ok(t) => run(h, t))
    ensures Commute(Carried(run), h, k)
  {
    forall r ensures RunAll(Carried(run), [h, k], r) == RunAll(Carried(run), [k, h], r) {
      CarriedPair(run, h, k, r);
      CarriedPair(run, k, h, r);
    }
  }

  // ----- chains with one kind of hook at the end -----

  /** No hook but the last has the property. */
  ghost predicate OnlyLast<H>(late: H -> bool, chain: seq<H>) {
    forall i :: 0 <= i < |chain| - 1 ==> !late(chain[i])
  }

  lemma {:induction false} SameHooks<H>(priority: H -> int, chain: seq<H>, order: seq<H>, h: H)
    requires Orders(priority, order, chain)
    ensures h in order <==> h in chain
  {
    assert h in order <==> h in multiset(order);
    assert h in chain <==> h in multiset(chain);
  }

  lemma {:induction false} LastOnce<H>(late: H -> bool, chain: seq<H>, h: H)
    requires chain != [] && OnlyLast(late, chain) && late(h)
    ensures h in chain ==> h == chain[|chain| - 1]
    ensures multiset(chain)[h] <= 1
  {
    var init, last := chain[..|chain| - 1], chain[|chain| - 1];
    assert chain == init + [last];
    assert h !in init;
    assert multiset(chain)[h] == multiset(init)[h] + multiset([last])[h];
  }

  lemma {:induction false} TwoOccurrences<H>(q: seq<H>, i: nat, j: nat)
    requires i < j < |q| && q[i] == q[j]
    ensures multiset(q)[q[i]] >= 2
  {
    var front, back := q[..j], q[j..];
    assert q == front + back;
    assert multiset(q)[q[i]] == multiset(front)[q[i]] + multiset(back)[q[i]];
    assert front[i] in multiset(front) && back[0] in multiset(back);
  }

  /** When the hooks of a kind have the highest priorities, and only the last of a chain is of that kind, the
      same is so of every order the sort may produce. */
  lemma {:induction false} OrdersKeepLast<H(!new)>(late: H -> bool, priority: H -> int, chain: seq<H>, order: seq<H>)
    requires Orders(priority, order, chain) && OnlyLast(late, chain)
    requires forall h, k :: late(h) && priority(h) <= priority(k) ==> late(k)
    ensures OnlyLast(late, order)
  {
    forall i | 0 <= i < |order| - 1 ensures !late(order[i]) {
      var h, last := order[i], order[|order| - 1];
      assert priority(h) <= priority(last);
      assert h in multiset(order) && last in multiset(order);
      assert h in multiset(chain) && last in multiset(chain);
      if late(h) {
        LastOnce(late, chain, h);
        LastOnce(late, chain, last);
        TwoOccurrences(order, i, |order| - 1);
      }
    }
  }

  // ----- registration -----

  function InsertByPriority<H>(priority: H -> int, x: H, q: seq<H>): seq<H> {
    if q == [] || priority(x) <= priority(q[0]) then [x] + q
    else [q[0]] + InsertByPriority(priority, x, q[1..])
  }

  lemma {:induction false} InsertKeepsCounts<H>(priority: H -> int, x: H, q: seq<H>)
    ensures multiset(InsertByPriority(priority, x, q)) == multiset(q) + multiset{x}
  {
    if q != [] {
      assert q == [q[0]] + q[1..];
      InsertKeepsCounts(priority, x, q[1..]);
    }
  }

  lemma {:induction false} ByPriorityCons<H(!new)>(priority: H -> int, x: H, q: seq<H>)
    requires ByPriority(priority, q) && forall y :: y in q ==> priority(x) <= priority(y)
    ensures ByPriority(priority, [x] + q)
  {
  }

  lemma {:induction false} InsertKeepsOrder<H(!new)>(priority: H -> int, x: H, q: seq<H>)
    requires ByPriority(priority, q)
    ensures Orders(priority, InsertByPriority(priority, x, q), q + [x])
  {
    InsertKeepsCounts(priority, x, q);
    if q != [] {
      assert q == [q[0]] + q[1..];
      assert ByPriority(priority, q[1..]) && forall y :: y in q ==> priority(q[0]) <= priority(y);
      if priority(x) <= priority(q[0]) {
        ByPriorityCons(priority, x, q);
      } else {
        InsertKeepsOrder(priority, x, q[1..]);
        forall y | y in InsertByPriority(priority, x, q[1..]) ensures priority(q[0]) <= priority(y) {
          assert y in multiset(InsertByPriority(priority, x, q[1..]));
          InsertKeepsCounts(priority, x, q[1..]);
        }
        ByPriorityCons(priority, q[0], InsertByPriority(priority, x, q[1..]));
      }
    }
  }

  /** The hooks registered to a chain; none, if nobody has. */
  function Registered<H>(processes: map<string, seq<H>>, c: string): seq<H> {
    if c in processes then processes[c] else []
  }

  /** No chain but c differs. */
  ghost predicate OnlyChanged<H(!new)>(c: string, p: map<string, seq<H>>, p': map<string, seq<H>>) {
    forall d :: d != c ==> Registered(p, d) == Registered(p', d)
  }

  /** The table of known hooks and of the chains built from them. */
  class HookTable<H(!new)> {
    const priority: H -> int
    const hooks: map<string, H>
    var processes: map<string, seq<H>>

    ghost predicate Valid()
      reads this
    {
      forall c :: c in processes ==> ByPriority(priority, processes[c])
    }

    constructor (priority: H -> int, hooks: map<string, H>)
      ensures Valid() && this.priority == priority && this.hooks == hooks && processes == map[]
    {
      this.priority, this.hooks, processes := priority, hooks, map[];
    }

    /** sort.Slice by priority; the order of equal priorities is left open. */
    method SortByPriority(q: seq<H>) returns (r: seq<H>)
      ensures Orders(priority, r, q)
    {
      r := [];
      for i := 0 to |q|
        invariant Orders(priority, r, q[..i])
      {
        assert q[..i + 1] == q[..i] + [q[i]];
        InsertKeepsOrder(priority, q[i], r);
        r := InsertByPriority(priority, q[i], r);
      }
      assert q[..|q|] == q;
    }

    method RegisterHookToChain(hook: string, chain: string) returns (ok: bool)
      requires Valid()
      modifies this
      ensures Valid()
      ensures ok <==> hook in hooks
      ensures !ok ==> processes == old(processes)
      ensures ok ==>
                multiset(Registered(processes, chain)) == multiset(Registered(old(processes), chain)) + multiset{hooks[hook]}
      ensures OnlyChanged(chain, old(processes), processes)
    {
      if hook !in hooks {
        return false;
      }
      var q := SortByPriority(Registered(processes, chain) + [hooks[hook]]);
      processes := processes[chain := q];
      return true;
    }

    ghost predicate AllKnown(names: seq<string>) {
      forall k :: 0 <= k < |names| ==> names[k] in hooks
    }

    ghost function Named(names: seq<string>): seq<H>
      requires AllKnown(names)
    {
      if names == [] then [] else Named(names[..|names| - 1]) + [hooks[names[|names| - 1]]]
    }

    lemma {:induction false} NamedNext(names: seq<string>, i: nat)
      requires i < |names| && AllKnown(names[..i]) && names[i] in hooks
      ensures AllKnown(names[..i + 1])
      ensures multiset(Named(names[..i + 1])) == multiset(Named(names[..i])) + multiset{hooks[names[i]]}
    {
      assert names[..i + 1][..i] == names[..i];
    }

    /** Registers the hooks of one chain; what comes out is some priority order of them. */
    method InitializeChain(names: seq<string>, chain: string) returns (ok: bool)
      requires Valid() && Registered(processes, chain) == []
      modifies this
      ensures Valid()
      ensures ok <==> AllKnown(names)
      ensures ok ==> Orders(priority, Registered(processes, chain), Named(names))
      ensures OnlyChanged(chain, old(processes), processes)
    {
      for i := 0 to |names|
        invariant Valid()
        invariant AllKnown(names[..i])
        invariant multiset(Registered(processes, chain)) == multiset(Named(names[..i]))
        invariant OnlyChanged(chain, old(processes), processes)
      {
        ok := RegisterHookToChain(names[i], chain);
        if !ok {
          return;
        }
        NamedNext(names, i);
      }
      assert names[..|names|] == names;
      ok := true;
    }

    /** The chain is made of the named hooks in some priority order. */
    ghost predicate Made(names: seq<string>, chain: seq<H>) {
      AllKnown(names) && Orders(priority, chain, Named(names))
    }

    /** All chains of the table are made except those still to do, and those are empty. */
    ghost predicate MadeBut(table: map<string, seq<string>>, todo: set<string>, p: map<string, seq<H>>) {
      forall c :: c in table ==> if c in todo then Registered(p, c) == [] else Made(table[c], Registered(p, c))
    }

    lemma {:induction false} OneMore(table: map<string, seq<string>>, todo: set<string>, c: string,
                                     p: map<string, seq<H>>, p': map<string, seq<H>>)
      requires MadeBut(table, todo, p) && c in table && OnlyChanged(c, p, p')
      requires AllKnown(table[c]) && Orders(priority, Registered(p', c), Named(table[c]))
      ensures MadeBut(table, todo - {c}, p')
    {
      forall d | d in table && d != c ensures Registered(p, d) == Registered(p', d) {
      }
    }

    /** Builds every chain of a table, taking the chains in whatever order the table yields them. */
    method InitializeChains(table: map<string, seq<string>>) returns (ok: bool)
      requires Valid() && processes == map[]
      modifies this
      ensures Valid()
      ensures ok <==> forall c :: c in table ==> AllKnown(table[c])
      ensures ok ==> MadeBut(table, {}, processes)
    {
      var todo := table.Keys;
      while todo != {}
        invariant todo <= table.Keys
        invariant Valid() && MadeBut(table, todo, processes)
        decreases todo
      {
        var c :| c in todo;
        ghost var before := processes;
        ok := InitializeChain(table[c], c);
        if !ok {
          return;
        }
        OneMore(table, todo, c, before, processes);
        todo := todo - {c};
      }
      ok := true;
    }
  }
}

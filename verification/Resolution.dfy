/** The token cache of the resolver as a value: what one resolution does to it, which entries are up to
    date, and how updates and removals of rules disturb it. */
module Resolution {
  import opened Digraph
  import opened BoolFilter
  import opened Membership

  /** The outcome of resolving a group: whether it could be done, and the cache afterwards. */
  datatype Attempt = Attempt(ok: bool, gt: TokenCache)

  ghost predicate CacheGrows(gt: TokenCache, gt': TokenCache) {
    forall k :: k in gt ==> k in gt' && gt'[k] == gt[k]
  }

  ghost predicate CacheGrowsBut(g: Name, gt: TokenCache, gt': TokenCache) {
    forall k :: k in gt && k != g ==> k in gt' && gt'[k] == gt[k]
  }

  /** Each group points to the groups its rules name that are not cached. */
  function Misses(gc: Rules, gt: TokenCache): Graph {
    map g | g in gc :: Targets(gc[g]) - gt.Keys
  }

  /** Resolutions come to an end: the rules are acyclic, or at least those that lead to uncached groups. */
  ghost predicate Settles(gc: Rules, gt: TokenCache) {
    Acyclic(Deps(gc)) || Acyclic(Misses(gc, gt))
  }

  lemma {:induction false} MissesShrink(gc: Rules, gt: TokenCache, gt': TokenCache)
    requires Settles(gc, gt) && CacheGrows(gt, gt')
    ensures Acyclic(Misses(gc, gt)) && Settles(gc, gt')
    ensures forall g :: Rank(Misses(gc, gt'), g) <= Rank(Misses(gc, gt), g)
  {
    if Acyclic(Deps(gc)) {
      assert Subgraph(Misses(gc, gt), Deps(gc));
      SubgraphAcyclic(Misses(gc, gt), Deps(gc));
    }
    assert Subgraph(Misses(gc, gt'), Misses(gc, gt));
    SubgraphAcyclic(Misses(gc, gt'), Misses(gc, gt));
    forall g ensures Rank(Misses(gc, gt'), g) <= Rank(Misses(gc, gt), g) {
      RankOfSubgraph(Misses(gc, gt'), Misses(gc, gt), g);
    }
  }

  lemma {:induction false} MissFalls(gc: Rules, gt: TokenCache, g: Name, t: Name)
    requires Settles(gc, gt) && g in gc && t in Targets(gc[g]) && t !in gt
    ensures Rank(Misses(gc, gt), t) < Rank(Misses(gc, gt), g)
  {
    MissesShrink(gc, gt, gt);
    assert Edge(Misses(gc, gt), g, t);
    RankFalls(Misses(gc, gt), g, t);
  }

  /** Resolving g: the groups named by its rules are resolved first where the cache misses them, in order and
      up to the first failure; then the entry of g is overwritten. */
  ghost function ResolveSpec(gc: Rules, gt: TokenCache, g: Name): (r: Attempt)
    requires Settles(gc, gt)
    ensures CacheGrowsBut(g, gt, r.gt)
    ensures if r.ok then g in r.gt else CacheGrows(gt, r.gt)
    decreases Rank(Misses(gc, gt), g), 1, 0
  {
    if g !in gc then Attempt(false, gt)
    else
      var w := Warm(gc, gt, g, gc[g].included + gc[g].excluded);
      if w.ok then Attempt(true, w.gt[g := Emit(g, gc[g], w.gt)]) else w
  }

  ghost function Warm(gc: Rules, gt: TokenCache, g: Name, todo: seq<Name>): (r: Attempt)
    requires Settles(gc, gt) && g in gc && forall t :: t in todo ==> t in Targets(gc[g])
    ensures CacheGrows(gt, r.gt)
    ensures r.ok ==> forall t :: t in todo ==> t in r.gt
    decreases Rank(Misses(gc, gt), g), 0, |todo|
  {
    if todo == [] then Attempt(true, gt)
    else
      var a := Lookup(gc, gt, g, todo[0]);
      MissesShrink(gc, gt, a.gt);
      if a.ok then Warm(gc, a.gt, g, todo[1..]) else a
  }

  /** A target of g that is cached is left alone, any other is resolved. */
  ghost function Lookup(gc: Rules, gt: TokenCache, g: Name, t: Name): (r: Attempt)
    requires Settles(gc, gt) && g in gc && t in Targets(gc[g])
    ensures CacheGrows(gt, r.gt)
    ensures r.ok ==> t in r.gt
    decreases Rank(Misses(gc, gt), g), 0, 0
  {
    if t in gt then Attempt(true, gt)
    else
      MissFalls(gc, gt, g, t);
      ResolveSpec(gc, gt, t)
  }

  lemma {:induction false} WarmNext(gc: Rules, gt: TokenCache, g: Name, todo: seq<Name>, i: nat)
    requires Settles(gc, gt) && g in gc && forall t :: t in todo ==> t in Targets(gc[g])
    requires i < |todo|
    ensures var a := Lookup(gc, gt, g, todo[i]);
            Settles(gc, a.gt)
            && Warm(gc, gt, g, todo[i..]) == if a.ok then Warm(gc, a.gt, g, todo[i + 1..]) else a
  {
    assert todo[i..][0] == todo[i] && todo[i..][1..] == todo[i + 1..];
    MissesShrink(gc, gt, Lookup(gc, gt, g, todo[i]).gt);
  }

  lemma {:induction false} WarmAppend(gc: Rules, gt: TokenCache, g: Name, s: seq<Name>, t: seq<Name>)
    requires Settles(gc, gt) && g in gc && forall n :: n in s + t ==> n in Targets(gc[g])
    ensures var a := Warm(gc, gt, g, s);
            Settles(gc, a.gt) && Warm(gc, gt, g, s + t) == if a.ok then Warm(gc, a.gt, g, t) else a
    decreases |s|
  {
    MissesShrink(gc, gt, Warm(gc, gt, g, s).gt);
    if s == [] {
      assert s + t == t;
    } else {
      assert s[0] in s + t;
      assert (s + t)[1..] == s[1..] + t;
      var a := Lookup(gc, gt, g, s[0]);
      MissesShrink(gc, gt, a.gt);
      if a.ok {
        WarmAppend(gc, a.gt, g, s[1..], t);
      }
    }
  }

  /** The entry of g is what its rules and the current entries of their targets give. */
  ghost predicate Fresh(gc: Rules, gt: TokenCache, g: Name) {
    g in gc && g in gt && Targets(gc[g]) <= gt.Keys && gt[g] == Emit(g, gc[g], gt)
  }

  /** The known groups whose entry is missing or out of date. */
  ghost function Unfresh(gc: Rules, gt: TokenCache): set<Name> {
    set k | k in gc && Known(gc, k) && !Fresh(gc, gt, k)
  }

  /** The groups with a rule that names g. */
  ghost function Dependants(gc: Rules, g: Name): set<Name> {
    set k | k in gc && g in Targets(gc[k])
  }

  lemma {:induction false} FreshGrows(gc: Rules, gt: TokenCache, gt': TokenCache, k: Name)
    requires Fresh(gc, gt, k)
    requires forall t :: t in Targets(gc[k]) + {k} ==> t in gt' && gt'[t] == gt[t]
    ensures Fresh(gc, gt', k)
  {
    EmitAgree(k, gc[k], gt, gt');
  }

  // ----- what one resolution changes -----

  /** Everything a resolution caches on the way to g lies below g and is up to date. */
  lemma {:induction false} ResolveEffect(gc: Rules, gt: TokenCache, g: Name)
    requires Acyclic(Deps(gc))
    ensures var r := ResolveSpec(gc, gt, g);
            && (r.ok ==> Fresh(gc, r.gt, g))
            && (!r.ok ==> (g in r.gt ==> g in gt))
            && forall k :: k in r.gt && k !in gt && k != g ==> Reaches(Deps(gc), g, k) && Fresh(gc, r.gt, k)
    decreases Rank(Deps(gc), g), 1, 0
  {
    if g in gc {
      var todo := gc[g].included + gc[g].excluded;
      var w := Warm(gc, gt, g, todo);
      WarmEffect(gc, gt, g, todo);
      if w.ok {
        StoreOwn(gc, w.gt, g);
        forall k | k in w.gt && k !in gt ensures Fresh(gc, w.gt[g := Emit(g, gc[g], w.gt)], k) {
          StoreBelow(gc, w.gt, g, Emit(g, gc[g], w.gt), k);
        }
      }
      forall k | k in w.gt && k !in gt ensures k != g {
      }
    }
  }

  lemma {:induction false} StoreOwn(gc: Rules, gt: TokenCache, g: Name)
    requires Acyclic(Deps(gc)) && g in gc && Targets(gc[g]) <= gt.Keys
    ensures Fresh(gc, gt[g := Emit(g, gc[g], gt)], g)
  {
    forall t | t in Targets(gc[g]) ensures t != g {
      EdgeReaches(Deps(gc), g, t);
    }
    EmitAgree(g, gc[g], gt, gt[g := Emit(g, gc[g], gt)]);
  }

  lemma {:induction false} StoreBelow(gc: Rules, gt: TokenCache, g: Name, toks: seq<Symbol>, k: Name)
    requires Acyclic(Deps(gc)) && Reaches(Deps(gc), g, k) && Fresh(gc, gt, k)
    ensures Fresh(gc, gt[g := toks], k)
  {
    forall t | t in Targets(gc[k]) ensures t != g {
      EdgeReaches(Deps(gc), k, t);
      ReachesTransitive(Deps(gc), g, k, t);
    }
    FreshGrows(gc, gt, gt[g := toks], k);
  }

  lemma {:induction false} ResolveEffectFromAbove(gc: Rules, gt: TokenCache, g: Name, c: Name)
    requires Acyclic(Deps(gc)) && Edge(Deps(gc), g, c)
    ensures var r := ResolveSpec(gc, gt, c);
            forall k :: k in r.gt && k !in gt ==> Reaches(Deps(gc), g, k) && Fresh(gc, r.gt, k)
    decreases Rank(Deps(gc), g), 0, 0
  {
    EdgeReaches(Deps(gc), g, c);
    RanksFall(Deps(gc), g);
    ResolveEffect(gc, gt, c);
    forall k | Reaches(Deps(gc), c, k) ensures Reaches(Deps(gc), g, k) {
      ReachesTransitive(Deps(gc), g, c, k);
    }
  }

  lemma {:induction false} FreshStays(gc: Rules, gt: TokenCache, gt': TokenCache)
    requires CacheGrows(gt, gt')
    ensures forall k :: Fresh(gc, gt, k) ==> Fresh(gc, gt', k)
  {
    forall k | Fresh(gc, gt, k) ensures Fresh(gc, gt', k) {
      FreshGrows(gc, gt, gt', k);
    }
  }

  lemma {:induction false} WarmEffect(gc: Rules, gt: TokenCache, g: Name, todo: seq<Name>)
    requires Acyclic(Deps(gc)) && g in gc && forall t :: t in todo ==> t in Targets(gc[g])
    ensures var r := Warm(gc, gt, g, todo);
            forall k :: k in r.gt && k !in gt ==> Reaches(Deps(gc), g, k) && Fresh(gc, r.gt, k)
    decreases Rank(Deps(gc), g), 0, |todo|
  {
    if todo == [] {
    } else if todo[0] in gt {
      WarmEffect(gc, gt, g, todo[1..]);
    } else {
      var c := todo[0];
      assert Edge(Deps(gc), g, c);
      RanksFall(Deps(gc), g);
      var a := ResolveSpec(gc, gt, c);
      ResolveEffectFromAbove(gc, gt, g, c);
      if a.ok {
        var r := Warm(gc, a.gt, g, todo[1..]);
        WarmEffect(gc, a.gt, g, todo[1..]);
        FreshStays(gc, a.gt, r.gt);
      }
    }
  }

  // ----- when a resolution succeeds -----

  /** Every branch below g ends in a cached or rule-free group before it meets an undescribed one. */
  ghost predicate Resolvable(gc: Rules, gt: TokenCache, g: Name)
    requires Acyclic(Deps(gc))
    decreases Rank(Deps(gc), g)
  {
    RanksFall(Deps(gc), g);
    g in gc && forall t :: t in Targets(gc[g]) ==> t in gt || Resolvable(gc, gt, t)
  }

  /** Caching groups that were resolvable anyway makes nothing else resolvable. */
  lemma {:induction false} ResolvableStable(gc: Rules, gt: TokenCache, gt': TokenCache, g: Name)
    requires Acyclic(Deps(gc)) && CacheGrows(gt, gt')
    requires forall k :: k in gt' && k !in gt ==> Resolvable(gc, gt, k)
    ensures Resolvable(gc, gt', g) <==> Resolvable(gc, gt, g)
    decreases Rank(Deps(gc), g)
  {
    RanksFall(Deps(gc), g);
    if g in gc {
      forall t | t in Targets(gc[g]) ensures Resolvable(gc, gt', t) <==> Resolvable(gc, gt, t) {
        assert Edge(Deps(gc), g, t);
        ResolvableStable(gc, gt, gt', t);
      }
    }
  }

  /** A resolution succeeds exactly for resolvable groups, and caches no others. */
  lemma {:induction false} ResolveSucceeds(gc: Rules, gt: TokenCache, g: Name)
    requires Acyclic(Deps(gc))
    ensures ResolveSpec(gc, gt, g).ok <==> Resolvable(gc, gt, g)
    ensures forall k :: k in ResolveSpec(gc, gt, g).gt && k !in gt ==> Resolvable(gc, gt, k)
    decreases Rank(Deps(gc), g), 1, 0
  {
    if g in gc {
      WarmSucceeds(gc, gt, g, gc[g].included + gc[g].excluded);
    }
  }

  lemma {:induction false} WarmSucceeds(gc: Rules, gt: TokenCache, g: Name, todo: seq<Name>)
    requires Acyclic(Deps(gc)) && g in gc && forall t :: t in todo ==> t in Targets(gc[g])
    ensures Warm(gc, gt, g, todo).ok <==> forall t :: t in todo ==> t in gt || Resolvable(gc, gt, t)
    ensures forall k :: k in Warm(gc, gt, g, todo).gt && k !in gt ==> Resolvable(gc, gt, k)
    decreases Rank(Deps(gc), g), 0, |todo|
  {
    if todo == [] {
    } else if todo[0] in gt {
      WarmSucceeds(gc, gt, g, todo[1..]);
    } else {
      assert Edge(Deps(gc), g, todo[0]);
      RanksFall(Deps(gc), g);
      ResolveSucceeds(gc, gt, todo[0]);
      var a := ResolveSpec(gc, gt, todo[0]);
      if a.ok {
        WarmSucceeds(gc, a.gt, g, todo[1..]);
        forall k ensures Resolvable(gc, a.gt, k) <==> Resolvable(gc, gt, k) {
          ResolvableStable(gc, gt, a.gt, k);
        }
      }
    }
  }

  lemma {:induction false} KnownResolvable(gc: Rules, gt: TokenCache, g: Name)
    requires Acyclic(Deps(gc)) && Known(gc, g)
    ensures Resolvable(gc, gt, g)
    decreases Rank(Deps(gc), g)
  {
    KnownTargets(gc, g);
    RanksFall(Deps(gc), g);
    forall t | t in Targets(gc[g]) ensures Resolvable(gc, gt, t) {
      assert Edge(Deps(gc), g, t);
      KnownResolvable(gc, gt, t);
    }
  }

  // ----- repair -----

  /** A resolution of g can disturb only the groups that name g, and leaves g itself up to date. */
  lemma {:induction false} ResolveRepairs(gc: Rules, gt: TokenCache, g: Name)
    requires Acyclic(Deps(gc))
    ensures Unfresh(gc, ResolveSpec(gc, gt, g).gt) <= Unfresh(gc, gt) + Dependants(gc, g) - {g}
  {
    var r := ResolveSpec(gc, gt, g);
    ResolveEffect(gc, gt, g);
    if Known(gc, g) {
      KnownResolvable(gc, gt, g);
      ResolveSucceeds(gc, gt, g);
    }
    FreshClearOf(gc, gt, r.gt, g);
    forall k | k in Unfresh(gc, r.gt) ensures k in Unfresh(gc, gt) + Dependants(gc, g) - {g} {
      assert Known(gc, k) && !Fresh(gc, r.gt, k);
    }
  }

  lemma {:induction false} FreshClearOf(gc: Rules, gt: TokenCache, gt': TokenCache, g: Name)
    requires CacheGrowsBut(g, gt, gt')
    ensures forall k :: Fresh(gc, gt, k) && k != g && k !in Dependants(gc, g) ==> Fresh(gc, gt', k)
  {
    forall k | Fresh(gc, gt, k) && k != g && k !in Dependants(gc, g) ensures Fresh(gc, gt', k) {
      FreshGrows(gc, gt, gt', k);
    }
  }

  /** When every known group is up to date, each entry is what the rules alone give: whatever order the
      entries were computed in, nothing of it is left in them. */
  lemma {:induction false} FreshIsFlat(gc: Rules, gt: TokenCache, g: Name)
    requires Acyclic(Deps(gc)) && Unfresh(gc, gt) == {} && Known(gc, g)
    ensures g in gt && gt[g] == Flat(gc, g)
    decreases Rank(Deps(gc), g)
  {
    assert g !in Unfresh(gc, gt);
    var sub := FlatTargets(gc, g);
    forall t | t in sub ensures t in gt && gt[t] == sub[t] {
      assert Edge(Deps(gc), g, t);
      RanksFall(Deps(gc), g);
      FreshIsFlat(gc, gt, t);
    }
    EmitAgree(g, gc[g], gt, sub);
  }

  /** With every known group up to date, the cached expression of a known group decides membership. */
  lemma {:induction false} CacheDecidesMembership(tight: Op, gc: Rules, gt: TokenCache, g: Name, direct: set<Name>)
    requires Acyclic(Deps(gc)) && Unfresh(gc, gt) == {} && Known(gc, g)
    ensures g in gt && NewFromTokens(tight, gt[g]).Some?
    ensures Eval(NewFromTokens(tight, gt[g]).value, direct) <==> Member(gc, direct, g)
  {
    FreshIsFlat(gc, gt, g);
    FlatValue(gc, g, direct);
    ExpressionsParse(tight, gt[g]);
  }

  lemma {:induction false} ResolveKeepsExpressions(gc: Rules, gt: TokenCache, g: Name)
    requires Acyclic(Deps(gc)) && AllExpressions(gt)
    ensures AllExpressions(ResolveSpec(gc, gt, g).gt)
    decreases Rank(Deps(gc), g), 1, 0
  {
    if g in gc {
      var todo := gc[g].included + gc[g].excluded;
      WarmKeepsExpressions(gc, gt, g, todo);
      var w := Warm(gc, gt, g, todo);
      if w.ok {
        EmitIsExpression(g, gc[g], w.gt);
      }
    }
  }

  lemma {:induction false} WarmKeepsExpressions(gc: Rules, gt: TokenCache, g: Name, todo: seq<Name>)
    requires Acyclic(Deps(gc)) && AllExpressions(gt)
    requires g in gc && forall t :: t in todo ==> t in Targets(gc[g])
    ensures AllExpressions(Warm(gc, gt, g, todo).gt)
    decreases Rank(Deps(gc), g), 0, |todo|
  {
    if todo == [] {
    } else if todo[0] in gt {
      WarmKeepsExpressions(gc, gt, g, todo[1..]);
    } else {
      assert Edge(Deps(gc), g, todo[0]);
      RanksFall(Deps(gc), g);
      ResolveKeepsExpressions(gc, gt, todo[0]);
      var a := ResolveSpec(gc, gt, todo[0]);
      if a.ok {
        WarmKeepsExpressions(gc, a.gt, g, todo[1..]);
      }
    }
  }

  lemma {:induction false} ResolveKeepsKeys(gc: Rules, gt: TokenCache, g: Name)
    requires Acyclic(Deps(gc)) && gt.Keys <= gc.Keys
    ensures ResolveSpec(gc, gt, g).gt.Keys <= gc.Keys
  {
    ResolveEffect(gc, gt, g);
  }

  // ----- reverse edges -----

  function AffectedBy(ga: Graph, g: Name): set<Name> {
    if g in ga then ga[g] else {}
  }

  /** ga with `group` recorded as affected by each target. */
  function WithAffected(ga: Graph, targets: set<Name>, group: Name): Graph {
    map a | a in ga.Keys + targets :: AffectedBy(ga, a) + if a in targets then {group} else {}
  }

  lemma {:induction false} AffectedByNone(ga: Graph, group: Name)
    ensures WithAffected(ga, {}, group) == ga
  {
    forall a | a in ga ensures WithAffected(ga, {}, group)[a] == ga[a] {
      assert ga[a] + {} == ga[a];
    }
  }

  lemma {:induction false} AffectedTwiceAt(ga: Graph, s: set<Name>, t: set<Name>, group: Name, a: Name)
    requires a in ga.Keys + s + t
    ensures WithAffected(WithAffected(ga, s, group), t, group)[a] == WithAffected(ga, s + t, group)[a]
  {
    var base, one, two := AffectedBy(ga, a), if a in s then {group} else {}, if a in t then {group} else {};
    assert AffectedBy(WithAffected(ga, s, group), a) == base + one;
    assert base + one + two == base + if a in s + t then {group} else {};
  }

  lemma {:induction false} AffectedTwice(ga: Graph, s: set<Name>, t: set<Name>, group: Name)
    ensures WithAffected(WithAffected(ga, s, group), t, group) == WithAffected(ga, s + t, group)
  {
    var m, n := WithAffected(WithAffected(ga, s, group), t, group), WithAffected(ga, s + t, group);
    assert m.Keys == n.Keys;
    forall a | a in m ensures m[a] == n[a] {
      AffectedTwiceAt(ga, s, t, group, a);
    }
  }

  lemma {:induction false} AffectedOne(ga: Graph, a: Name, group: Name)
    ensures ga[a := AffectedBy(ga, a) + {group}] == WithAffected(ga, {a}, group)
  {
    var n := WithAffected(ga, {a}, group);
    forall b | b in ga && b != a ensures n[b] == ga[b] {
      assert ga[b] + {} == ga[b];
    }
  }

  /** A caller can tell whether taking in the rules of a group leaves the reverse edges acyclic: when the
      group names neither itself nor any group that it affects, now or through a rule since dropped. */
  lemma {:induction false} SyncKeepsAcyclic(ga: Graph, targets: set<Name>, group: Name)
    requires Acyclic(ga)
    ensures Acyclic(WithAffected(ga, targets, group)) <==> targets !! Closure(ga, group)
  {
    var ga' := WithAffected(ga, targets, group);
    GrowIntoAcyclic(ga, ga', group);
    forall t ensures Edge(ga', t, group) <==> Edge(ga, t, group) || t in targets {
    }
    forall t | Edge(ga, t, group) ensures t !in Closure(ga, group) {
      EdgeReaches(ga, t, group);
      if t in Closure(ga, group) {
        ReachedIsBelow(ga, group, t);
        if t != group {
          ReachesTransitive(ga, group, t, group);
        }
      }
    }
  }

  /** Exactly then the cascade that follows comes to an end: a cycle that the new rules close in the reverse
      edges leads through the group itself, and the cascade starts there. */
  lemma {:induction false} CascadeEnds(ga: Graph, targets: set<Name>, group: Name)
    requires Acyclic(ga)
    ensures DescentTerminates(WithAffected(ga, targets, group), group) <==> targets !! Closure(ga, group)
  {
    var ga' := WithAffected(ga, targets, group);
    SyncKeepsAcyclic(ga, targets, group);
    DescentEndsIffNoCycle(ga', group);
    if t :| t in targets && t in Closure(ga, group) {
      assert Edge(ga', t, group);
      EdgeReaches(ga', t, group);
      if t != group {
        assert Subgraph(ga, ga');
        ReachedIsBelow(ga, group, t);
        SubgraphReaches(ga, ga', group, t);
        ReachesTransitive(ga', group, t, group);
      }
      assert group in Closure(ga', group);
    }
  }

  lemma {:induction false} TwoCycleNeverEnds(ga: Graph, a: Name, b: Name)
    requires Edge(ga, a, b) && Edge(ga, b, a)
    ensures !DescentTerminates(ga, a)
  {
    assert IsPath(ga, [a, b, a]);
    assert Reaches(ga, a, a);
    DescentEndsIffNoCycle(ga, a);
    assert a in Closure(ga, a);
  }

  lemma {:induction false} OneRuleAcyclic(gc: Rules, a: Name, b: Name)
    requires a != b && gc == map[a := ResolvableGroup([], []), b := ResolvableGroup([a], [])]
    ensures Acyclic(Deps(gc)) && Known(gc, a) && Known(gc, b)
  {
    var g := Deps(gc);
    assert forall x, y :: Edge(g, x, y) ==> x == b && y == a;
    forall n, m | Reaches(g, n, m) ensures n == b && m == a {
      var x := FirstEdge(g, n, m);
      if x != m {
        var y := FirstEdge(g, x, m);
      }
    }
  }

  /** Rules that once pointed one way and now point the other: the rules are acyclic, the reverse edges are
      not, and repairing either group would never come to an end. */
  lemma {:induction false} OppositeRulesNeverEnd(a: Name, b: Name) returns (gc: Rules, ga: Graph)
    requires a != b
    ensures ga == WithAffected(WithAffected(WithAffected(map[], {b}, a), {}, a), {a}, b)
    ensures gc == map[a := ResolvableGroup([], []), b := ResolvableGroup([a], [])]
    ensures Acyclic(Deps(gc)) && Reversed(Deps(gc), ga) && Known(gc, a) && Known(gc, b)
    ensures !DescentTerminates(ga, a) && !DescentTerminates(ga, b)
  {
    var first: Graph := WithAffected(map[], {b}, a);
    assert Edge(first, b, a);
    ga := WithAffected(WithAffected(first, {}, a), {a}, b);
    gc := map[a := ResolvableGroup([], []), b := ResolvableGroup([a], [])];
    assert Edge(ga, b, a) && Edge(ga, a, b);
    TwoCycleNeverEnds(ga, a, b);
    TwoCycleNeverEnds(ga, b, a);
    OneRuleAcyclic(gc, a, b);
  }

  function Forget(ga: Graph, group: Name): Graph {
    map a | a in ga && a != group :: ga[a] - {group}
  }

  lemma {:induction false} DependantsAffected(gc: Rules, ga: Graph, g: Name)
    requires Reversed(Deps(gc), ga)
    ensures Dependants(gc, g) <= AffectedBy(ga, g)
  {
    forall k | k in Dependants(gc, g) ensures k in AffectedBy(ga, g) {
      assert Edge(Deps(gc), k, g);
    }
  }

  lemma {:induction false} SyncReverses(gc: Rules, ga: Graph, group: Name, r: ResolvableGroup)
    requires Reversed(Deps(gc), ga)
    ensures Reversed(Deps(gc[group := r]), WithAffected(ga, Targets(r), group))
  {
    var gc' := gc[group := r];
    forall a, b | Edge(Deps(gc'), a, b) ensures Edge(WithAffected(ga, Targets(r), group), b, a) {
      if a != group {
        assert Edge(Deps(gc), a, b);
      }
    }
  }

  /** No rule names the group. */
  ghost predicate NamedByNone(gc: Rules, group: Name) {
    forall p :: p in gc ==> group !in Targets(gc[p])
  }

  /** Forgetting what a group affects leaves every remaining rule reversed exactly when none names it. */
  lemma {:induction false} RemovalReverses(gc: Rules, ga: Graph, group: Name)
    requires Reversed(Deps(gc), ga) && Acyclic(ga)
    ensures Acyclic(Forget(ga, group)) && Acyclic(Deps(gc - {group}))
    ensures Reversed(Deps(gc - {group}), Forget(ga, group))
       <==> NamedByNone(gc - {group}, group)
  {
    assert Subgraph(Forget(ga, group), ga);
    SubgraphAcyclic(Forget(ga, group), ga);
    var gc' := gc - {group};
    ReversedAcyclic(Deps(gc), ga);
    assert Subgraph(Deps(gc'), Deps(gc));
    SubgraphAcyclic(Deps(gc'), Deps(gc));
    if p :| p in gc' && group in Targets(gc[p]) {
      assert Edge(Deps(gc'), p, group) && !Edge(Forget(ga, group), group, p);
    } else {
      forall a, b | Edge(Deps(gc'), a, b) ensures Edge(Forget(ga, group), b, a) {
        assert Edge(Deps(gc), a, b);
      }
    }
  }

  // ----- changing the rules of one group -----

  ghost predicate SameBut(g: Name, gc: Rules, gc': Rules) {
    forall k :: k != g ==> (k in gc <==> k in gc') && (k in gc ==> gc[k] == gc'[k])
  }

  /** A group known under the new rules that does not lead to g was known before. */
  lemma {:induction false} KnownClearOf(gc: Rules, gc': Rules, g: Name, k: Name)
    requires SameBut(g, gc, gc') && k != g
    requires Known(gc', k) && !Reaches(Deps(gc'), k, g)
    ensures Known(gc, k)
  {
    assert GrowsAt(Deps(gc'), Deps(gc), g);
    forall n | Reaches(Deps(gc), k, n) ensures n in gc {
      ReachesClearOf(Deps(gc'), Deps(gc), g, k, n);
    }
  }

  /** New rules for g can leave out of date only g and the groups that lead to it, and those are the ones
      the reverse edges reach from g. */
  lemma {:induction false} SyncDisturbs(gc: Rules, gc': Rules, gt: TokenCache, ga: Graph, g: Name)
    requires SameBut(g, gc, gc') && Unfresh(gc, gt) == {} && Reversed(Deps(gc'), ga)
    ensures Unfresh(gc', gt) <= Closure(ga, g)
  {
    forall k | k in Unfresh(gc', gt) ensures k in Closure(ga, g) {
      if k != g {
        if Reaches(Deps(gc'), k, g) {
          ReversedReaches(Deps(gc'), ga, k, g);
          ReachedIsBelow(ga, g, k);
        } else {
          KnownClearOf(gc, gc', g, k);
          assert k !in Unfresh(gc, gt);
        }
      }
    }
  }

  lemma {:induction false} RemovalKeepsFresh(gc: Rules, gt: TokenCache, g: Name, k: Name)
    requires Unfresh(gc, gt) == {} && Known(gc - {g}, k)
    ensures Fresh(gc - {g}, gt - {g}, k)
  {
    KnownClearOf(gc, gc - {g}, g, k);
    assert k !in Unfresh(gc, gt);
    KnownTargets(gc - {g}, k);
    FreshGrows(gc, gt, gt - {g}, k);
  }

  /** Forgetting g together with its entry leaves no known group out of date. */
  lemma {:induction false} RemovalDisturbsNothing(gc: Rules, gt: TokenCache, g: Name)
    requires Unfresh(gc, gt) == {}
    ensures Unfresh(gc - {g}, gt - {g}) == {}
  {
    forall k | Known(gc - {g}, k) ensures Fresh(gc - {g}, gt - {g}, k) {
      RemovalKeepsFresh(gc, gt, g, k);
    }
  }

  // ----- a group removed while rules name it -----

  /** After any number of resolutions of b the entry of a group that names b is out of date exactly when the
      entry of b is not the one that was spliced into it. */
  lemma {:induction false} StaleExactly(gc: Rules, gt: TokenCache, b: Name, gc': Rules, gt': TokenCache, p: Name)
    requires p != b && p in gc && b in Targets(gc[p]) && Fresh(gc, gt, p)
    requires SameBut(b, gc, gc') && Known(gc', p)
    requires CacheGrowsBut(b, gt, gt') && b in gt'
    ensures p in Unfresh(gc', gt') <==> gt'[b] != gt[b]
  {
    EmitTells(p, gc[p], gt, gt', b);
  }

  /** Removing b while p still names it, and describing b again: as soon as p is known again it is out of date,
      exactly when the tokens of b are not the old ones. Nothing tells the cascade from b about p any more. */
  lemma {:induction false} RecreatedGroupMissed(gc: Rules, gt: TokenCache, ga: Graph, b: Name, r: ResolvableGroup, p: Name)
    requires p != b && p in gc && b in Targets(gc[p]) && Fresh(gc, gt, p)
    requires Acyclic(Deps(gc[b := r])) && Known(gc[b := r], p)
    ensures var gc' := gc[b := r];
            var gt' := ResolveSpec(gc', ResolveSpec(gc', gt - {b}, b).gt, b).gt;
            && Fresh(gc', gt', b)
            && (p in Unfresh(gc', gt') <==> gt'[b] != gt[b])
    ensures AffectedBy(WithAffected(Forget(ga, b), Targets(r), b), b) == {}
  {
    var gc' := gc[b := r];
    var gt1 := ResolveSpec(gc', gt - {b}, b).gt;
    var gt2 := ResolveSpec(gc', gt1, b).gt;
    KnownTargets(gc', p);
    KnownResolvable(gc', gt1, b);
    ResolveSucceeds(gc', gt1, b);
    ResolveEffect(gc', gt1, b);
    assert CacheGrowsBut(b, gt, gt2);
    StaleExactly(gc, gt, b, gc', gt2, p);
    if b in Targets(r) {
      EdgeReaches(Deps(gc'), b, b);
    }
  }

  /** For instance when a includes b, and b is described again as excluding c. */
  lemma {:induction false} RecreatedGroupExample(a: Name, b: Name, c: Name, gt: TokenCache, ga: Graph)
    requires a != b && b != c && a != c
    requires var gc := map[a := ResolvableGroup([b], []), b := ResolvableGroup([], []), c := ResolvableGroup([], [])];
             Fresh(gc, gt, a) && Fresh(gc, gt, b) && Fresh(gc, gt, c)
    ensures var gc' := map[a := ResolvableGroup([b], []), b := ResolvableGroup([], [c]), c := ResolvableGroup([], [])];
            var ga' := WithAffected(Forget(ga, b), {c}, b);
            && Acyclic(Deps(gc')) && Known(gc', a)
            && AffectedBy(ga', b) == {}
            && a in Unfresh(gc', ResolveSpec(gc', gt - {b}, b).gt)
  {
    var gc := map[a := ResolvableGroup([b], []), b := ResolvableGroup([], []), c := ResolvableGroup([], [])];
    var gc' := map[a := ResolvableGroup([b], []), b := ResolvableGroup([], [c]), c := ResolvableGroup([], [])];
    ChainAcyclic(a, b, c);
    OneInclude(a, b, gt);
    assert gt[b] == [LParen, Ident(b), RParen];
    assert |gt[a]| == 9;
    var gt' := ResolveSpec(gc', gt - {b}, b).gt;
    ResolveEffect(gc', gt - {b}, b);
    KnownResolvable(gc', gt - {b}, b);
    ResolveSucceeds(gc', gt - {b}, b);
    assert Fresh(gc', gt', b) && gt'[a] == gt[a];
    assert |Excludes([c], gt')| > 0;
    assert |gt'[b]| > 3;
    OneInclude(a, b, gt');
  }

  lemma {:induction false} OneInclude(a: Name, b: Name, gt: TokenCache)
    requires b in gt
    ensures Emit(a, ResolvableGroup([b], []), gt)
         == [LParen, Ident(a), Binary(Or), LParen] + gt[b] + [RParen, RParen]
  {
    IncludesNext([b], 0, gt);
    assert [b][..1] == [b] && [b][..0] == [];
  }

  lemma {:induction false} ChainAcyclic(a: Name, b: Name, c: Name)
    requires a != b && b != c && a != c
    ensures var gc := map[a := ResolvableGroup([b], []), b := ResolvableGroup([], [c]), c := ResolvableGroup([], [])];
            Acyclic(Deps(gc)) && Known(gc, a) && Known(gc, b)
  {
    var gc := map[a := ResolvableGroup([b], []), b := ResolvableGroup([], [c]), c := ResolvableGroup([], [])];
    var g := Deps(gc);
    assert forall x, y :: Edge(g, x, y) ==> (x == a && y == b) || (x == b && y == c);
    forall n, m | Reaches(g, n, m) ensures (n == a && m in {b, c}) || (n == b && m == c) {
      var x := FirstEdge(g, n, m);
      if x != m {
        var y := FirstEdge(g, x, m);
        if y != m {
          var z := FirstEdge(g, y, m);
        }
      }
    }
  }
}

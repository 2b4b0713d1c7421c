/** The resolver: mutable maps that answer membership questions quickly, repaired in place as entities and
    groups change. */
module Resolver {
  import opened Outcomes
  import opened Digraph
  import opened BoolFilter
  import opened Membership
  import opened Resolution
  import opened Text

  /** What the filter library makes of a token list. */
  type Expression = Option<Tree>

  predicate Matches(e: Expression, vs: set<string>) {
    e.Some? && Eval(e.value, vs)
  }

  function Expressions(tight: Op, gt: TokenCache): map<Name, Expression> {
    map g | g in gt :: NewFromTokens(tight, gt[g])
  }

  lemma {:induction false} ExpressionsWithout(tight: Op, gt: TokenCache, g: Name)
    ensures Expressions(tight, gt - {g}) == Expressions(tight, gt) - {g}
  {
  }

  /** The invariant of the resolver on the values of its maps: whatever is cached is a well-formed expression of a
      described group; every rule has its reverse edge; rules and reverse edges are acyclic; and every known group
      is up to date. */
  ghost predicate InOrder(gc: Rules, gt: TokenCache, ga: Graph) {
    && AllExpressions(gt)
    && gt.Keys <= gc.Keys
    && Reversed(Deps(gc), ga)
    && Acyclic(ga) && Acyclic(Deps(gc))
    && Unfresh(gc, gt) == {}
  }

  lemma {:induction false} NothingInOrder()
    ensures InOrder(map[], map[], map[])
  {
    var gc: Rules, ga: Graph := map[], map[];
    forall n, m | Reaches(ga, n, m) ensures exists k :: Edge(ga, n, k) {
      var k := FirstEdge(ga, n, m);
    }
    ReversedAcyclic(Deps(gc), ga);
  }

  /** Removing a group leaves the rest in order exactly when no other group has a rule that names it. */
  lemma {:induction false} RemovalInOrder(gc: Rules, gt: TokenCache, ga: Graph, group: Name)
    requires InOrder(gc, gt, ga)
    ensures InOrder(gc - {group}, gt - {group}, Forget(ga, group))
       <==> NamedByNone(gc - {group}, group)
  {
    RemovalDisturbsNothing(gc, gt, group);
    RemovalReverses(gc, ga, group);
  }

  /** The elements of a set, each once, in no particular order. */
  method ListOf<T(==,!new)>(s: set<T>) returns (q: seq<T>)
    ensures Distinct(q) && forall x :: x in q <==> x in s
  {
    q := [];
    var todo := s;
    while todo != {}
      invariant todo <= s
      invariant Distinct(q) && forall x :: x in q <==> x in s && x !in todo
      decreases todo
    {
      var x :| x in todo;
      AppendDistinct(q, x);
      q, todo := q + [x], todo - {x};
    }
  }

  class MResolver {
    const tight: Op                  // the operator that the filter library binds tighter

    var dm: map<Name, set<Name>>     // direct memberships of each entity
    var gc: Rules                    // rules of each group
    var gr: map<Name, Expression>    // resolved expressions
    var gt: TokenCache               // their token lists, spliced into other groups' lists
    var ga: Graph                    // groups to resolve again when the key group changes
    var gs: map<Name, Expression>    // the expression set, by group name

    /** The three caches describe the same token lists. */
    ghost predicate InStep()
      reads this
    {
      gr == gs == Expressions(tight, gt)
    }

    ghost predicate Valid()
      reads this
    {
      InStep() && InOrder(gc, gt, ga)
    }

    constructor (tight: Op)
      ensures Valid()
      ensures this.tight == tight && dm == map[] && gc == map[] && ga == map[] && gt == map[]
    {
      this.tight := tight;
      dm, gc, gr, gt, ga, gs := map[], map[], map[], map[], map[], map[];
      new;
      NothingInOrder();
    }

    method SyncDirectGroups(entity: Name, groups: seq<Name>)
      modifies this`dm
      ensures dm == old(dm)[entity := set g | g in groups]
    {
      var list := {};
      for i := 0 to |groups|
        invariant list == set g | g in groups[..i]
      {
        list := list + {groups[i]};
      }
      assert groups[..|groups|] == groups;
      dm := dm[entity := list];
    }

    method RemoveEntity(entity: Name)
      modifies this`dm
      ensures dm == old(dm) - {entity}
    {
      dm := dm - {entity};
    }

    /** Makes sure that gn, a target of a rule of group, is cached. */
    method Fetch(ghost group: Name, gn: Name) returns (ok: bool)
      requires Settles(gc, gt) && InStep() && group in gc && gn in Targets(gc[group])
      modifies this`gt, this`gr, this`gs
      ensures Attempt(ok, gt) == Lookup(gc, old(gt), group, gn)
      ensures InStep()
      decreases Rank(Misses(gc, gt), group), 0
    {
      ok := gn in gt;
      if !ok {
        MissFalls(gc, gt, group, gn);
        ok := Resolve(gn);
      }
    }

    /** The first loop of a resolution: the tokens for the included groups. */
    method SpliceIncluded(group: Name) returns (ok: bool, toks: seq<Symbol>)
      requires Settles(gc, gt) && InStep() && group in gc
      modifies this`gt, this`gr, this`gs
      ensures Attempt(ok, gt) == Warm(gc, old(gt), group, gc[group].included)
      ensures ok ==> toks == Includes(gc[group].included, gt)
      ensures InStep()
      decreases Rank(Misses(gc, gt), group), 1
    {
      var inc := gc[group].included;
      toks := [];
      for i := 0 to |inc|
        invariant InStep() && CacheGrows(old(gt), gt) && Settles(gc, gt)
        invariant Warm(gc, old(gt), group, inc) == Warm(gc, gt, group, inc[i..])
        invariant forall n :: n in inc[..i] ==> n in gt
        invariant toks == Includes(inc[..i], gt)
      {
        ghost var before := gt;
        WarmNext(gc, gt, group, inc, i);
        MissesShrink(gc, old(gt), gt);
        var found := Fetch(group, inc[i]);
        if !found {
          return false, [];
        }
        IncludesAgree(inc[..i], before, gt);
        IncludesNext(inc, i, gt);
        toks := toks + ([Binary(Or), LParen] + gt[inc[i]] + [RParen]);
      }
      assert inc[..|inc|] == inc;
      ok := true;
    }

    /** The second loop: the tokens for the excluded groups. */
    method SpliceExcluded(group: Name) returns (ok: bool, toks: seq<Symbol>)
      requires Settles(gc, gt) && InStep() && group in gc
      modifies this`gt, this`gr, this`gs
      ensures Attempt(ok, gt) == Warm(gc, old(gt), group, gc[group].excluded)
      ensures ok ==> toks == Excludes(gc[group].excluded, gt)
      ensures InStep()
      decreases Rank(Misses(gc, gt), group), 1
    {
      var exc := gc[group].excluded;
      toks := [];
      for i := 0 to |exc|
        invariant InStep() && CacheGrows(old(gt), gt) && Settles(gc, gt)
        invariant Warm(gc, old(gt), group, exc) == Warm(gc, gt, group, exc[i..])
        invariant forall n :: n in exc[..i] ==> n in gt
        invariant toks == Excludes(exc[..i], gt)
      {
        ghost var before := gt;
        WarmNext(gc, gt, group, exc, i);
        MissesShrink(gc, old(gt), gt);
        var found := Fetch(group, exc[i]);
        if !found {
          return false, [];
        }
        ExcludesAgree(exc[..i], before, gt);
        ExcludesNext(exc, i, gt);
        toks := toks + ([Binary(And), UnaryNot, LParen] + gt[exc[i]] + [RParen]);
      }
      assert exc[..|exc|] == exc;
      ok := true;
    }

    /** Splices the expression of a group together, resolving uncached targets on the way. */
    method Resolve(group: Name) returns (ok: bool)
      requires Settles(gc, gt) && InStep()
      modifies this`gt, this`gr, this`gs
      ensures Attempt(ok, gt) == ResolveSpec(gc, old(gt), group)
      ensures InStep()
      decreases Rank(Misses(gc, gt), group), 2
    {
      if group !in gc {
        return false;
      }
      WarmAppend(gc, gt, group, gc[group].included, gc[group].excluded);
      var inc, exc;
      ok, inc := SpliceIncluded(group);
      if !ok {
        return;
      }
      ghost var before := gt;
      MissesShrink(gc, old(gt), gt);
      ok, exc := SpliceExcluded(group);
      if !ok {
        return;
      }
      IncludesAgree(gc[group].included, before, gt);
      Store(group, ([LParen, Ident(group)] + inc + [RParen]) + exc);
    }

    /** Puts the tokens of a group, and the expression they spell, in all three caches. */
    method Store(group: Name, res: seq<Symbol>)
      requires InStep()
      modifies this`gt, this`gr, this`gs
      ensures gt == old(gt)[group := res] && InStep()
    {
      var expr := NewFromTokens(tight, res);
      gt := gt[group := res];
      gr := gr[group := expr];
      gs := gs[group := expr];
    }

    /** Resolves a group again and then, depth first and in no particular order, everything it affects. */
    method ResolveChanges(group: Name)
      requires InStep() && AllExpressions(gt) && gt.Keys <= gc.Keys
      requires Acyclic(ga) && Reversed(Deps(gc), ga)
      modifies this`gt, this`gr, this`gs
      ensures InStep() && AllExpressions(gt) && gt.Keys <= gc.Keys
      ensures Unfresh(gc, gt) <= Unfresh(gc, old(gt)) - Closure(ga, group)
      decreases Rank(ga, group)
    {
      ReversedAcyclic(Deps(gc), ga);
      ResolveRepairs(gc, gt, group);
      ResolveKeepsExpressions(gc, gt, group);
      ResolveKeepsKeys(gc, gt, group);
      ghost var start := Unfresh(gc, gt);
      var _ := Resolve(group);
      var todo := AffectedBy(ga, group);
      DependantsAffected(gc, ga, group);
      assert Unfresh(gc, gt) <= start + todo - {group};
      while todo != {}
        invariant todo <= AffectedBy(ga, group)
        invariant InStep() && AllExpressions(gt) && gt.Keys <= gc.Keys
        invariant Unfresh(gc, gt) <= start + todo - {group}
        invariant forall p :: p in AffectedBy(ga, group) - todo ==> Unfresh(gc, gt) !! Closure(ga, p)
        decreases todo
      {
        var p :| p in todo;
        assert Edge(ga, group, p);
        RanksFall(ga, group);
        ResolveChanges(p);
        todo := todo - {p};
      }
      assert forall p :: Edge(ga, group, p) ==> p in AffectedBy(ga, group) - todo;
      ClosureAvoided(ga, group, Unfresh(gc, gt));
    }

    method AddAffector(affectee: Name, affector: Name)
      modifies this`ga
      ensures ga == WithAffected(old(ga), {affectee}, affector)
    {
      AffectedOne(ga, affectee, affector);
      if affectee !in ga {
        ga := ga[affectee := {}];
      }
      ga := ga[affectee := ga[affectee] + {affector}];
    }

    /** Records group as affected by every group its rules name. */
    method AddAffectors(group: Name, included: seq<Name>, excluded: seq<Name>)
      modifies this`ga
      ensures ga == WithAffected(old(ga), Targets(ResolvableGroup(included, excluded)), group)
    {
      AffectedByNone(ga, group);
      ghost var done := {};
      for i := 0 to |included|
        invariant forall t :: t in done <==> t in included[..i]
        invariant ga == WithAffected(old(ga), done, group)
      {
        AffectedTwice(old(ga), done, {included[i]}, group);
        AddAffector(included[i], group);
        done := done + {included[i]};
      }
      ghost var first := done;
      for i := 0 to |excluded|
        invariant forall t :: t in done <==> t in first || t in excluded[..i]
        invariant ga == WithAffected(old(ga), done, group)
      {
        AffectedTwice(old(ga), done, {excluded[i]}, group);
        AddAffector(excluded[i], group);
        done := done + {excluded[i]};
      }
      assert included[..|included|] == included && excluded[..|excluded|] == excluded;
      assert done == Targets(ResolvableGroup(included, excluded));
    }

    /** Takes in the rules of a group, and repairs every cached expression that depends on them. The caller
        keeps rules from ever having pointed both ways: the edges of ga are not taken back. */
    method SyncGroup(group: Name, included: seq<Name>, excluded: seq<Name>)
      requires Valid()
      requires Acyclic(WithAffected(ga, Targets(ResolvableGroup(included, excluded)), group))
      modifies this`gc, this`gt, this`gr, this`gs, this`ga
      ensures Valid()
      ensures gc == old(gc)[group := ResolvableGroup(included, excluded)]
      ensures ga == WithAffected(old(ga), Targets(ResolvableGroup(included, excluded)), group)
    {
      var g := ResolvableGroup(included, excluded);
      ghost var ga' := WithAffected(ga, Targets(g), group);
      ghost var gc' := gc[group := g];
      SyncReverses(gc, ga, group, g);
      ReversedAcyclic(Deps(gc'), ga');
      SyncDisturbs(gc, gc', gt, ga', group);
      gc := gc[group := g];
      ResolveRepairs(gc, gt, group);
      ResolveKeepsExpressions(gc, gt, group);
      ResolveKeepsKeys(gc, gt, group);
      DependantsAffected(gc, ga', group);
      var _ := Resolve(group);
      ClosureStep(ga', group);
      assert Unfresh(gc, gt) <= Closure(ga', group) by {
        forall k | k in Dependants(gc, group) ensures k in Closure(ga', group) {
          assert Edge(ga', group, k) && k in Closure(ga', k);
        }
      }
      AddAffectors(group, included, excluded);
      ResolveChanges(group);
    }

    /** Forgets a group, its expression and the groups it affects. The resolver stays in order exactly when
        no other group has a rule naming the one removed. */
    method RemoveGroup(group: Name)
      requires Valid()
      modifies this`gc, this`gt, this`gr, this`gs, this`ga
      ensures gc == old(gc) - {group}
      ensures gt == old(gt) - {group} && InStep()
      ensures ga == Forget(old(ga), group)
      ensures Valid() <==> NamedByNone(gc, group)
    {
      RemovalInOrder(gc, gt, ga, group);
      DropEntries(group);
      gc := gc - {group};
      ga := Forget(ga, group);
    }

    /** Drops the entries of a group from all three caches. */
    method DropEntries(group: Name)
      requires InStep()
      modifies this`gt, this`gr, this`gs
      ensures gt == old(gt) - {group} && InStep()
    {
      ExpressionsWithout(tight, gt, group);
      gr := gr - {group};
      gt := gt - {group};
      gs := gs - {group};
    }

    /** What both queries report: the direct groups of the entity satisfy the expression of the group. */
    ghost predicate Holds(e: Name, g: Name)
      reads this
    {
      e in dm && g in gr && Matches(gr[g], dm[e])
    }

    /** The entities that satisfy the expression of the group. For a group whose rules are known all the way
        down, those are its members. */
    method MembersOfGroup(group: Name) returns (es: seq<Name>)
      ensures Distinct(es) && forall e :: e in es <==> Holds(e, group)
      ensures Valid() && Known(gc, group) ==> forall e :: e in es <==> e in dm && Member(gc, dm[e], group)
    {
      es := [];
      if group in gr {
        es := ListOf(set e | e in dm && Matches(gr[group], dm[e]));
      }
      forall e | Valid() && Known(gc, group) && e in dm ensures e in es <==> Member(gc, dm[e], group) {
        ExpressionIsMembership(group, dm[e]);
      }
    }

    /** The groups whose expression the entity satisfies. As the expression set is in step with the
        expressions, a group is listed for an entity exactly when the entity is listed for the group. */
    method GroupsForEntity(entity: Name) returns (groups: seq<Name>)
      ensures Distinct(groups)
      ensures InStep() ==> forall g :: g in groups <==> Holds(entity, g)
      ensures Valid() ==> forall g :: g in groups ==> g in gc
      ensures Valid() ==> forall g :: Known(gc, g) ==> (g in groups <==> entity in dm && Member(gc, dm[entity], g))
    {
      groups := [];
      if entity in dm {
        groups := ListOf(set g | g in gs && Matches(gs[g], dm[entity]));
      }
      forall g | Valid() && Known(gc, g) && entity in dm ensures g in groups <==> Member(gc, dm[entity], g) {
        ExpressionIsMembership(g, dm[entity]);
      }
    }

    lemma {:induction false} ExpressionIsMembership(g: Name, direct: set<Name>)
      requires Valid() && Known(gc, g)
      ensures g in gr
      ensures Matches(gr[g], direct) <==> Member(gc, direct, g)
    {
      CacheDecidesMembership(tight, gc, gt, g, direct);
    }
  }
}

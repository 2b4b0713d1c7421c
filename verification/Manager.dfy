/** The manager: the stored entities and groups, the events that carry every change of the store to the
    resolver, and the questions answered through it. */
module Manager {
  import opened Outcomes
  import opened Digraph
  import opened BoolFilter
  import opened Text
  import opened StringSlices
  import opened Membership
  import opened Resolution
  import opened Resolver
  import opened Expansions
  import opened HookChains
  import opened GroupHooks
  import opened RuleRuns
  import EntityHooks

  type Entity = EntityHooks.Entity
  type Entities = EntityHooks.Entities

  // ----- what the resolver should know of the store -----

  /** The targets of the rules of one kind, in order. */
  function TargetsOf(exps: seq<string>, mode: string): seq<Name>
    requires AllColon(exps)
  {
    if exps == [] then []
    else
      var last := exps[|exps| - 1];
      TargetsOf(exps[..|exps| - 1], mode) + if BeforeColon(last) == mode then [AfterColon(last)] else []
  }

  ghost predicate AllColon(exps: seq<string>) {
    forall i :: 0 <= i < |exps| ==> ':' in exps[i]
  }

  ghost predicate AllRules(exps: seq<string>) {
    forall e :: e in exps ==> IsRule(e)
  }

  lemma {:induction false} RulesHaveColons(exps: seq<string>)
    requires AllRules(exps)
    ensures AllColon(exps)
  {
    forall i | 0 <= i < |exps| ensures ':' in exps[i] {
      assert exps[i] in exps;
    }
  }

  function TargetsAt(byMode: map<string, seq<Name>>, mode: string): seq<Name> {
    if mode in byMode then byMode[mode] else []
  }

  lemma {:induction false} TargetsNext(exps: seq<string>, i: nat, mode: string)
    requires AllColon(exps) && i < |exps|
    ensures AllColon(exps[..i]) && AllColon(exps[..i + 1])
    ensures TargetsOf(exps[..i + 1], mode)
         == TargetsOf(exps[..i], mode) + if BeforeColon(exps[i]) == mode then [AfterColon(exps[i])] else []
  {
    assert exps[..i + 1][..i] == exps[..i];
  }

  ghost predicate Collected(exps: seq<string>, byMode: map<string, seq<Name>>) {
    AllColon(exps) && forall mode :: TargetsAt(byMode, mode) == TargetsOf(exps, mode)
  }

  lemma {:induction false} CollectNext(exps: seq<string>, i: nat, byMode: map<string, seq<Name>>)
    requires AllColon(exps) && i < |exps| && Collected(exps[..i], byMode)
    ensures var mode := BeforeColon(exps[i]);
            Collected(exps[..i + 1], byMode[mode := TargetsAt(byMode, mode) + [AfterColon(exps[i])]])
  {
    var key, t := BeforeColon(exps[i]), AfterColon(exps[i]);
    var byMode' := byMode[key := TargetsAt(byMode, key) + [t]];
    TargetsNext(exps, i, key);
    forall mode ensures TargetsAt(byMode', mode) == TargetsOf(exps[..i + 1], mode) {
      TargetsNext(exps, i, mode);
      AppendAt(byMode, key, t, mode);
      assert TargetsAt(byMode, mode) == TargetsOf(exps[..i], mode);
    }
  }

  lemma {:induction false} AppendAt(byMode: map<string, seq<Name>>, key: string, t: Name, mode: string)
    ensures TargetsAt(byMode[key := TargetsAt(byMode, key) + [t]], mode)
         == TargetsAt(byMode, mode) + if key == mode then [t] else []
  {
  }

  ghost function ParseRules(exps: seq<string>): ResolvableGroup
    requires AllRules(exps)
  {
    RulesHaveColons(exps);
    ResolvableGroup(TargetsOf(exps, "INCLUDE"), TargetsOf(exps, "EXCLUDE"))
  }

  /** The rules of the stored groups. */
  ghost function RulesOf(groups: Groups): Rules
    requires WellFormed(groups)
  {
    map n | n in groups :: ParseRules(groups[n].expansions)
  }

  /** The direct memberships of the stored entities. */
  ghost function DirectOf(entities: Entities): map<Name, set<Name>> {
    map id | id in entities :: Elements(entities[id].groups)
  }

  predicate Names(e: string, mode: string, t: Name) {
    ':' in e && BeforeColon(e) == mode && AfterColon(e) == t
  }

  lemma {:induction false} TargetsOfElements(exps: seq<string>, mode: string, t: Name)
    requires AllColon(exps)
    ensures t in TargetsOf(exps, mode) <==> exists e :: e in exps && Names(e, mode, t)
  {
    if exps != [] {
      var init, last := exps[..|exps| - 1], exps[|exps| - 1];
      assert exps == init + [last];
      TargetsOfElements(init, mode, t);
      assert t in TargetsOf(exps, mode) <==> t in TargetsOf(init, mode) || Names(last, mode, t);
    }
  }

  /** Parsing one more stored rule adds its target at the end of the list of its kind, and only there. */
  lemma {:induction false} TargetsAppend(exps: seq<string>, kind: string, t: Name, mode: string)
    requires AllColon(exps) && ':' !in kind
    ensures AllColon(exps + [WithColon(kind, t)])
    ensures TargetsOf(exps + [WithColon(kind, t)], mode)
         == TargetsOf(exps, mode) + if kind == mode then [t] else []
  {
    CutWithColon(kind, t);
    assert (exps + [WithColon(kind, t)])[..|exps|] == exps;
  }

  lemma {:induction false} NamesSpelled(e: string, mode: string, t: Name)
    requires ':' !in mode
    ensures Names(e, mode, t) <==> e == WithColon(mode, t)
  {
    CutWithColon(mode, t);
    if Names(e, mode, t) {
      ColonJoins(e);
    }
  }

  lemma {:induction false} TargetsSpelled(exps: seq<string>, mode: string, t: Name)
    requires AllColon(exps) && ':' !in mode
    ensures t in TargetsOf(exps, mode) <==> WithColon(mode, t) in exps
  {
    TargetsOfElements(exps, mode, t);
    NamesSpelled(WithColon(mode, t), mode, t);
    forall e | Names(e, mode, t) ensures e == WithColon(mode, t) {
      NamesSpelled(e, mode, t);
    }
  }

  /** A group is parsed as including exactly the groups that its stored rules include, and as excluding exactly
      those that they exclude. */
  lemma {:induction false} ParsedKinds(exps: seq<string>, t: Name)
    requires AllRules(exps)
    ensures t in ParseRules(exps).included <==> WithColon("INCLUDE", t) in exps
    ensures t in ParseRules(exps).excluded <==> WithColon("EXCLUDE", t) in exps
  {
    RulesHaveColons(exps);
    TargetsSpelled(exps, "INCLUDE", t);
    TargetsSpelled(exps, "EXCLUDE", t);
  }

  /** The parsed rules name exactly the targets of the stored ones. */
  lemma {:induction false} ParsedTargets(exps: seq<string>)
    requires AllRules(exps)
    ensures Targets(ParseRules(exps)) == RuleTargets(exps)
  {
    RulesHaveColons(exps);
    forall t ensures t in Targets(ParseRules(exps)) <==> t in RuleTargets(exps) {
      TargetsOfElements(exps, "INCLUDE", t);
      TargetsOfElements(exps, "EXCLUDE", t);
      if t in RuleTargets(exps) {
        var e :| e in exps && ':' in e && AfterColon(e) == t;
        assert IsRule(e);
        assert Names(e, BeforeColon(e), t);
      }
    }
  }

  lemma {:induction false} RulesGraph(groups: Groups)
    requires WellFormed(groups)
    ensures Deps(RulesOf(groups)) == RuleGraph(groups)
  {
    forall n | n in groups ensures Deps(RulesOf(groups))[n] == RuleGraph(groups)[n] {
      ParsedTargets(groups[n].expansions);
    }
  }

  /** Every stored rule names a stored group. */
  ghost predicate Closed(groups: Groups) {
    forall n, t :: Edge(RuleGraph(groups), n, t) ==> t in groups
  }

  lemma {:induction false} ClosedKnown(groups: Groups, n: Name)
    requires WellFormed(groups) && Closed(groups) && n in groups
    ensures Known(RulesOf(groups), n)
  {
    RulesGraph(groups);
    forall m | Reaches(RuleGraph(groups), n, m) ensures m in groups {
      var p :| IsPath(RuleGraph(groups), p) && |p| >= 2 && p[0] == n && p[|p| - 1] == m;
      assert Edge(RuleGraph(groups), p[|p| - 2], p[|p| - 2 + 1]);
    }
  }

  /** Membership, worked out on the stored records alone. */
  ghost predicate StoredMember(entities: Entities, groups: Groups, id: Name, g: Name)
    requires Good(groups)
  {
    RulesGraph(groups);
    id in entities && Member(RulesOf(groups), Elements(entities[id].groups), g)
  }

  /** The expression that the stored rules give a group, resolved from scratch. */
  ghost function FlatRule(groups: Groups, n: Name): seq<Symbol>
    requires Good(groups) && Closed(groups) && n in groups
  {
    RulesGraph(groups);
    ClosedKnown(groups, n);
    Flat(RulesOf(groups), n)
  }

  ghost function FlatRules(groups: Groups): TokenCache
    requires Good(groups) && Closed(groups)
  {
    map n | n in groups :: FlatRule(groups, n)
  }

  lemma {:induction false} FreshRule(groups: Groups, gt: TokenCache, n: Name)
    requires Good(groups) && Closed(groups) && n in groups
    requires Unfresh(RulesOf(groups), gt) == {}
    ensures n in gt && gt[n] == FlatRule(groups, n)
  {
    RulesGraph(groups);
    ClosedKnown(groups, n);
    FreshIsFlat(RulesOf(groups), gt, n);
  }

  lemma {:induction false} FreshCache(groups: Groups, gt: TokenCache)
    requires Good(groups) && Closed(groups)
    requires Unfresh(RulesOf(groups), gt) == {} && gt.Keys <= groups.Keys
    ensures gt == FlatRules(groups)
  {
    forall n | n in groups ensures n in gt && gt[n] == FlatRules(groups)[n] {
      FreshRule(groups, gt, n);
    }
  }

  /** Reverse edges that come from stored rules stay so, and acyclic, when a stored group is taken in. */
  lemma {:induction false} AffectedWithinRules(groups: Groups, ga: Graph, n: Name)
    requires Good(groups) && n in groups && Subgraph(ga, Turned(RuleGraph(groups)))
    ensures Subgraph(WithAffected(ga, RuleTargets(groups[n].expansions), n), Turned(RuleGraph(groups)))
    ensures Acyclic(WithAffected(ga, RuleTargets(groups[n].expansions), n))
  {
    var turned := Turned(RuleGraph(groups));
    var ga' := WithAffected(ga, RuleTargets(groups[n].expansions), n);
    TurnedEdges(RuleGraph(groups));
    forall a, b | Edge(ga', a, b) ensures Edge(turned, a, b) {
      if Edge(ga, a, b) {
        assert Edge(turned, a, b);
      } else {
        assert Edge(RuleGraph(groups), b, a);
      }
    }
    ReversedAcyclic(turned, RuleGraph(groups));
    SubgraphAcyclic(ga', turned);
  }

  /** Membership on the stored records, by the stored strings: an entity is a member of a group when it is listed
      in it or is a member of a group that a stored rule includes, and is a member of none that one excludes. */
  lemma {:induction false} StoredMemberUnfolds(entities: Entities, groups: Groups, id: Name, g: Name)
    requires Good(groups) && g in groups
    ensures StoredMember(entities, groups, id, g)
       <==> id in entities
            && (g in entities[id].groups
                || exists t :: WithColon("INCLUDE", t) in groups[g].expansions && StoredMember(entities, groups, id, t))
            && !exists x :: WithColon("EXCLUDE", x) in groups[g].expansions && StoredMember(entities, groups, id, x)
  {
    RulesGraph(groups);
    if id in entities {
      MemberUnfolds(RulesOf(groups), g, Elements(entities[id].groups));
      forall t ensures t in RulesOf(groups)[g].included <==> WithColon("INCLUDE", t) in groups[g].expansions
               ensures t in RulesOf(groups)[g].excluded <==> WithColon("EXCLUDE", t) in groups[g].expansions
      {
        ParsedKinds(groups[g].expansions, t);
      }
    }
  }

  lemma {:induction false} RulesOfPut(groups: Groups, g: Group)
    requires WellFormed(groups) && AllRules(g.expansions)
    ensures WellFormed(groups[g.name := g])
    ensures RulesOf(groups[g.name := g]) == RulesOf(groups)[g.name := ParseRules(g.expansions)]
  {
  }

  lemma {:induction false} RulesOfDel(groups: Groups, name: Name)
    requires WellFormed(groups)
    ensures WellFormed(groups - {name}) && RulesOf(groups - {name}) == RulesOf(groups) - {name}
  {
  }

  // ----- reverse edges and deletion -----

  /** Every reverse edge is an old one or comes from a stored rule. */
  ghost predicate OnlyFrom(ga: Graph, ga': Graph, groups: Groups) {
    forall a, b :: Edge(ga', a, b) ==> Edge(ga, a, b) || Edge(RuleGraph(groups), b, a)
  }

  /** No stored rule names the group. */
  ghost predicate Unnamed(groups: Groups, name: Name) {
    forall n :: n in groups ==> name !in RuleTargets(groups[n].expansions)
  }

  lemma {:induction false} SavedOnlyFrom(ga: Graph, groups: Groups, g: Group)
    ensures OnlyFrom(ga, WithAffected(ga, RuleTargets(g.expansions), g.name), groups[g.name := g])
  {
  }

  lemma {:induction false} ForgetOnlyFrom(ga: Graph, name: Name, groups: Groups)
    ensures OnlyFrom(ga, Forget(ga, name), groups)
  {
  }

  lemma {:induction false} UnnamedInRules(groups: Groups, name: Name)
    requires WellFormed(groups)
    ensures Unnamed(groups, name) <==> NamedByNone(RulesOf(groups), name)
  {
    forall p | p in groups ensures Targets(RulesOf(groups)[p]) == RuleTargets(groups[p].expansions) {
      ParsedTargets(groups[p].expansions);
    }
  }

  /** The rules of an accepted request are fit for the store: their targets exist. */
  lemma {:induction false} AcceptedTargets(groups: Groups, rq: Request)
    requires Good(groups) && Closed(groups) && AllRequests(rq.expansions) && Accepted(groups, rq)
    ensures AllRules(SavedExpansions(groups, rq))
    ensures RuleTargets(SavedExpansions(groups, rq)) <= groups.Keys
    ensures forall t :: t in RuleTargets(SavedExpansions(groups, rq)) ==>
              Edge(RuleGraph(groups), rq.name, t)
              || exists i :: 0 <= i < |rq.expansions| && !IsDrop(rq.expansions[i])
                   && ':' in rq.expansions[i] && AfterColon(rq.expansions[i]) == t
  {
    ModifiedWellFormed(groups, rq);
    CyclesPass(groups, rq.name, rq.expansions);
    forall e | e in SavedExpansions(groups, rq) && ':' in e
      ensures AfterColon(e) in groups
      ensures Edge(RuleGraph(groups), rq.name, AfterColon(e))
              || exists i :: 0 <= i < |rq.expansions| && !IsDrop(rq.expansions[i])
                   && ':' in rq.expansions[i] && AfterColon(rq.expansions[i]) == AfterColon(e)
    {
      PatchSpecFrom(groups[rq.name].expansions, rq.expansions, e);
      if e in groups[rq.name].expansions {
        RuleEdge(groups, rq.name, e);
      } else {
        var i :| 0 <= i < |rq.expansions| && rq.expansions[i] == e && !IsDrop(e);
        assert SafeTarget(groups, rq.name, rq.expansions[i]);
      }
    }
    assert Modified(groups, rq)[rq.name].expansions == SavedExpansions(groups, rq);
  }

  // ----- the manager -----

  datatype EventType = EntityCreate | EntityUpdate | EntityDestroy | GroupCreate | GroupUpdate | GroupDestroy

  /** What the store tells its listeners: what happened, and to which primary key. */
  datatype Event = Event(kind: EventType, pk: Name)

  class Manager {
    var groups: Groups
    var entities: Entities
    const resolver: MResolver
    const edits: GroupEdits
    const processes: map<string, seq<GroupHook>>
    const entityEdits: EntityHooks.EntityEdits
    const entityProcesses: map<string, seq<EntityHooks.EntityHook>>

    /** The resolver's direct memberships and rules are those of the stored records. */
    ghost predicate Agrees()
      reads this, resolver
    {
      && WellFormed(groups)
      && resolver.gc == RulesOf(groups)
      && resolver.dm == DirectOf(entities)
    }

    ghost predicate Valid()
      reads this, resolver
    {
      && Good(groups) && Closed(groups)
      && (forall id :: id in entities ==> entities[id].id == id)
      && Agrees()
      && resolver.Valid()
    }

    /** A manager over a store that may already hold records; its resolver has not heard of them yet. */
    constructor (tight: BoolFilter.Op, edits: GroupEdits, processes: map<string, seq<GroupHook>>,
                 entityEdits: EntityHooks.EntityEdits, entityProcesses: map<string, seq<EntityHooks.EntityHook>>,
                 groups: Groups, entities: Entities)
      ensures this.edits == edits && this.processes == processes
      ensures this.entityEdits == entityEdits && this.entityProcesses == entityProcesses
      ensures this.groups == groups && this.entities == entities
      ensures fresh(resolver) && resolver.Valid()
      ensures resolver.gc == map[] && resolver.dm == map[] && resolver.ga == map[]
    {
      this.edits, this.processes := edits, processes;
      this.entityEdits, this.entityProcesses := entityEdits, entityProcesses;
      this.groups, this.entities := groups, entities;
      resolver := new MResolver(tight);
    }

    /** The default chains are registered. */
    ghost predicate Ready()
    {
      ChainsReady(edits, processes) && EntityHooks.ChainsReady(entityEdits, entityProcesses)
    }

    // ----- events -----

    method EntityResolverCallback(e: Event)
      requires e.pk in entities ==> entities[e.pk].id == e.pk
      modifies resolver`dm
      ensures e.kind in {EntityCreate, EntityUpdate} ==>
                resolver.dm == if e.pk in entities
                               then old(resolver.dm)[e.pk := Elements(entities[e.pk].groups)]
                               else old(resolver.dm)
      ensures e.kind.EntityDestroy? ==> resolver.dm == old(resolver.dm) - {e.pk}
      ensures e.kind in {GroupCreate, GroupUpdate, GroupDestroy} ==> resolver.dm == old(resolver.dm)
    {
      match e.kind
      case EntityCreate | EntityUpdate =>
        if e.pk in entities {
          resolver.SyncDirectGroups(entities[e.pk].id, entities[e.pk].groups);
        }
      case EntityDestroy =>
        resolver.RemoveEntity(e.pk);
      case _ =>
    }

    /** Collects the targets of the stored rules by kind. */
    method TargetsByMode(exps: seq<string>) returns (byMode: map<string, seq<Name>>)
      requires AllColon(exps)
      ensures Collected(exps, byMode)
    {
      byMode := map[];
      for i := 0 to |exps|
        invariant Collected(exps[..i], byMode)
      {
        CollectNext(exps, i, byMode);
        var mode := BeforeColon(exps[i]);
        byMode := byMode[mode := TargetsAt(byMode, mode) + [AfterColon(exps[i])]];
      }
      assert exps[..|exps|] == exps;
    }

    method ParseExpansions(exps: seq<string>) returns (r: ResolvableGroup)
      requires AllRules(exps)
      ensures r == ParseRules(exps)
    {
      RulesHaveColons(exps);
      var byMode := TargetsByMode(exps);
      r := ResolvableGroup(TargetsAt(byMode, "INCLUDE"), TargetsAt(byMode, "EXCLUDE"));
    }

    /** Passes a stored group on to the resolver. */
    method SyncStoredGroup(pk: Name)
      requires pk in groups && groups[pk].name == pk && AllRules(groups[pk].expansions)
      requires resolver.Valid() && Acyclic(WithAffected(resolver.ga, RuleTargets(groups[pk].expansions), pk))
      modifies resolver`gc, resolver`gt, resolver`gr, resolver`gs, resolver`ga
      ensures resolver.Valid()
      ensures resolver.gc == old(resolver.gc)[pk := ParseRules(groups[pk].expansions)]
      ensures resolver.ga == WithAffected(old(resolver.ga), RuleTargets(groups[pk].expansions), pk)
    {
      var r := ParseExpansions(groups[pk].expansions);
      ParsedTargets(groups[pk].expansions);
      assert r == ResolvableGroup(r.included, r.excluded);
      resolver.SyncGroup(groups[pk].name, r.included, r.excluded);
    }

    /** Tells the resolver, which has heard of nothing yet, about every stored record, in whatever order the
        store lists them: a group may come before the groups its rules name. */
    method EventUpdateAll()
      requires Good(groups) && Closed(groups) && forall id :: id in entities ==> entities[id].id == id
      requires resolver.Valid() && resolver.gc == map[] && resolver.dm == map[] && resolver.ga == map[]
      modifies resolver`dm, resolver`gc, resolver`gt, resolver`gr, resolver`gs, resolver`ga
      ensures Valid()
      ensures resolver.gt == FlatRules(groups)
      ensures Subgraph(resolver.ga, Turned(RuleGraph(groups)))
    {
      UpdateAllEntities();
      UpdateAllGroups();
      CacheFollowsStore();
    }

    method UpdateAllEntities()
      requires forall id :: id in entities ==> entities[id].id == id
      requires resolver.dm == map[]
      modifies resolver`dm
      ensures resolver.dm == DirectOf(entities)
    {
      var ids := ListOf(entities.Keys);
      for i := 0 to |ids|
        invariant forall id :: id in resolver.dm <==> id in ids[..i]
        invariant forall id :: id in resolver.dm ==>
                    id in entities && resolver.dm[id] == Elements(entities[id].groups)
      {
        assert ids[i] in ids && ids[..i + 1] == ids[..i] + [ids[i]];
        EntityResolverCallback(Event(EntityUpdate, ids[i]));
      }
      assert ids[..|ids|] == ids;
    }

    /** The resolver has heard of these groups and no others, and of no reverse edge that does not come from a
        stored rule. */
    ghost predicate Heard(done: set<Name>)
      reads this, resolver
      requires Good(groups)
    {
      && resolver.Valid()
      && resolver.gc.Keys == done <= groups.Keys
      && (forall n :: n in done ==> resolver.gc[n] == ParseRules(groups[n].expansions))
      && Subgraph(resolver.ga, Turned(RuleGraph(groups)))
    }

    method UpdateGroup(ghost done: set<Name>, n: Name)
      requires Good(groups) && Heard(done) && n in groups
      modifies resolver`gc, resolver`gt, resolver`gr, resolver`gs, resolver`ga
      ensures Heard(done + {n})
    {
      AffectedWithinRules(groups, resolver.ga, n);
      SyncStoredGroup(n);
    }

    lemma {:induction false} HeardNothing()
      requires Good(groups) && resolver.Valid() && resolver.gc == map[] && resolver.ga == map[]
      ensures Heard({})
    {
    }

    lemma {:induction false} HeardAll()
      requires Good(groups) && Heard(groups.Keys)
      ensures resolver.gc == RulesOf(groups)
    {
    }

    method UpdateAllGroups()
      requires Good(groups)
      requires resolver.Valid() && resolver.gc == map[] && resolver.ga == map[]
      modifies resolver`gc, resolver`gt, resolver`gr, resolver`gs, resolver`ga
      ensures resolver.Valid()
      ensures resolver.gc == RulesOf(groups)
      ensures Subgraph(resolver.ga, Turned(RuleGraph(groups)))
    {
      var todo := groups.Keys;
      ghost var done := {};
      HeardNothing();
      while todo != {}
        invariant done + todo == groups.Keys
        invariant Heard(done)
        decreases todo
      {
        var n :| n in todo;
        UpdateGroup(done, n);
        todo, done := todo - {n}, done + {n};
      }
      HeardAll();
    }

    /** Whatever happened before, the cached expressions of a manager in order are those that its stored rules
        alone give. */
    lemma {:induction false} CacheFollowsStore()
      requires Valid()
      ensures resolver.gt == FlatRules(groups)
    {
      FreshCache(groups, resolver.gt);
    }

    // ----- the store -----

    /** Saves an entity and fires the event. */
    method SaveEntity(e: Entity)
      requires Valid()
      modifies this`entities, resolver`dm
      ensures Valid()
      ensures entities == old(entities)[e.id := e]
    {
      entities := entities[e.id := e];
      EntityResolverCallback(Event(EntityUpdate, e.id));
    }

    /** Deletes an entity and fires the event. */
    method DeleteEntity(id: Name)
      requires Valid()
      modifies this`entities, resolver`dm
      ensures Valid()
      ensures entities == old(entities) - {id}
    {
      entities := entities - {id};
      EntityResolverCallback(Event(EntityDestroy, id));
    }

    /** The rules of g may be stored: their targets exist, and none of them is g or a group that a change of g
        spreads to. */
    ghost predicate MaySave(g: Group)
      reads this, resolver
    {
      && AllRules(g.expansions)
      && RuleTargets(g.expansions) <= groups.Keys
      && RuleTargets(g.expansions) !! Closure(resolver.ga, g.name)
    }

    /** Saves a group and fires the event. */
    method SaveGroup(g: Group)
      requires Valid() && MaySave(g)
      modifies this`groups, resolver`gc, resolver`gt, resolver`gr, resolver`gs, resolver`ga
      ensures Valid()
      ensures groups == old(groups)[g.name := g]
      ensures OnlyFrom(old(resolver.ga), resolver.ga, groups)
    {
      SavedOnlyFrom(resolver.ga, groups, g);
      RulesOfPut(groups, g);
      ClosedWith(groups, g);
      SyncKeepsAcyclic(resolver.ga, RuleTargets(g.expansions), g.name);
      groups := groups[g.name := g];
      SyncStoredGroup(g.name);
      RulesGraph(groups);
      assert Agrees();
    }

    /** Deletes a group and fires the event. Store and resolver agree, but all is in order exactly when no
        remaining rule names the group. */
    method DeleteGroup(name: Name)
      requires Valid()
      modifies this`groups, resolver`gc, resolver`gt, resolver`gr, resolver`gs, resolver`ga
      ensures Good(groups) && Agrees()
      ensures Valid() <==> Unnamed(groups, name)
      ensures groups == old(groups) - {name}
      ensures OnlyFrom(old(resolver.ga), resolver.ga, groups)
    {
      DeletionInOrder(groups, name);
      groups := groups - {name};
      ForgetStored(name);
      ValidIffUnnamed(name);
    }

    /** Tells the resolver that a group is no longer stored. */
    method ForgetStored(name: Name)
      requires WellFormed(groups) && resolver.Valid() && RulesOf(groups) == resolver.gc - {name}
      modifies resolver`gc, resolver`gt, resolver`gr, resolver`gs, resolver`ga
      ensures resolver.gc == RulesOf(groups)
      ensures resolver.Valid() <==> NamedByNone(RulesOf(groups), name)
      ensures OnlyFrom(old(resolver.ga), resolver.ga, groups)
    {
      ForgetOnlyFrom(resolver.ga, name, groups);
      resolver.RemoveGroup(name);
    }

    lemma {:induction false} ValidIffUnnamed(name: Name)
      requires Good(groups) && Agrees() && forall id :: id in entities ==> entities[id].id == id
      requires resolver.Valid() <==> NamedByNone(RulesOf(groups), name)
      requires Unnamed(groups, name) <==> NamedByNone(RulesOf(groups), name)
      requires Unnamed(groups, name) ==> Closed(groups)
      ensures Valid() <==> Unnamed(groups, name)
    {
    }

    // ----- chains -----

    /** One hook that leaves the store alone. */
    method RunReadingHook(h: GroupHook, rq: Request, g: Group) returns (r: Result<Group, Error>)
      requires Good(groups) && AllRequests(rq.expansions) && !Writes(h)
      ensures RunHook(h, rq, State(groups, g))
           == match r case Ok(g') => Ok(State(groups, g')) case Err(e) => Err(e)
    {
      match h
      case LoadGroup =>
        r := if rq.name in groups then Ok(groups[rq.name]) else Err(UnknownGroup);
      case FailOnExistingGroup =>
        r := if rq.name in groups then Err(DuplicateGroupName) else Ok(g);
      case SetManagingGroup =>
        if rq.managedBy == "" {
          return Ok(g);
        }
        if rq.name != rq.managedBy && rq.managedBy !in groups {
          return Err(UnknownGroup);
        }
        r := Ok(g.(managedBy := rq.managedBy));
      case SetGroupName =>
        r := Ok(g.(name := rq.name));
      case SetGroupDisplayName =>
        r := Ok(g.(displayName := rq.displayName));
      case SetGroupNumber =>
        r := Ok(g.(number := if rq.number == -1 then rq.nextNumber else rq.number));
      case CheckImmediateExpansions =>
        r := if ImmediateConflict(g.expansions, rq.expansions) then Err(ExistingExpansion) else Ok(g);
      case CheckExpansionCycles =>
        var e := Expansions.CheckExpansionCycles(groups, g.name, rq.expansions);
        r := if e.Some? then Err(e.value) else Ok(g);
      case CheckExpansionTargets =>
        var e := Expansions.CheckExpansionTargets(groups, rq.expansions);
        r := if e.Some? then Err(e.value) else Ok(g);
      case PatchGroupExpansions =>
        var patched := Expansions.PatchGroupExpansions(g.expansions, rq.expansions);
        r := Ok(g.(expansions := patched));
      case Amend(edit) =>
        r := AmendRecord(edit, rq, g);
      case MergeGroupMeta(merge) =>
        r := Ok(MergeRecord(merge, rq, g));
    }

    method RunDestroyGroup(rq: Request, g: Group) returns (g': Group)
      requires Valid() && AllRequests(rq.expansions)
      modifies this`groups, resolver`gc, resolver`gt, resolver`gr, resolver`gs, resolver`ga
      ensures RunHook(GroupHook.DestroyGroup, rq, State(old(groups), g)) == Ok(State(groups, g'))
      ensures Valid() <==> Unnamed(groups, g'.name)
      ensures OnlyFrom(old(resolver.ga), resolver.ga, groups)
    {
      g' := if g.name == "" then g.(name := rq.name) else g;
      DestroyOutcome(rq, State(groups, g));
      DeleteGroup(g'.name);
    }

    /** One hook that changes the store. */
    method RunWritingHook(h: GroupHook, rq: Request, g: Group) returns (g': Group)
      requires Valid() && AllRequests(rq.expansions) && Writes(h)
      requires h.SaveGroup? ==> MaySave(g)
      modifies this`groups, resolver`gc, resolver`gt, resolver`gr, resolver`gs, resolver`ga
      ensures h.SaveGroup? ==> Valid()
      ensures h.DestroyGroup? ==> (Valid() <==> Unnamed(groups, g'.name))
      ensures OnlyFrom(old(resolver.ga), resolver.ga, groups)
      ensures RunHook(h, rq, State(old(groups), g)) == Ok(State(groups, g'))
    {
      if h.SaveGroup? {
        SaveOutcome(rq, State(groups, g));
        SaveGroup(g);
        g' := g;
      } else {
        g' := RunDestroyGroup(rq, g);
      }
    }

    /** What the chain would save is fit for the store and the resolver. */
    ghost predicate MayRun(chain: seq<GroupHook>, rq: Request)
      reads this, resolver
    {
      match RunChain(chain, rq, groups)
      case Err(_) => true
      case Ok(s) => GroupHook.SaveGroup in chain ==> MaySave(s.g)
    }

    /** The hooks of a chain up to the first that writes, or to the first that fails. */
    method RunReadingHooks(chain: seq<GroupHook>, rq: Request) returns (r: Result<Group, Error>, i: nat)
      requires Good(groups) && AllRequests(rq.expansions)
      ensures i <= |chain| && (i < |chain| ==> Writes(chain[i]) || r.Err?)
      ensures forall j :: 0 <= j < i ==> !Writes(chain[j])
      ensures match r
              case Ok(g) => RunChain(chain, rq, groups) == RunFirst(Report(rq), chain[i..], State(groups, g))
              case Err(e) => RunChain(chain, rq, groups) == Err(e)
    {
      var g := EMPTY_GROUP;
      i := 0;
      while i < |chain| && !Writes(chain[i])
        invariant i <= |chain| && forall j :: 0 <= j < i ==> !Writes(chain[j])
        invariant RunChain(chain, rq, groups) == RunFirst(Report(rq), chain[i..], State(groups, g))
      {
        NextHook(rq, chain, i, State(groups, g));
        r := RunReadingHook(chain[i], rq, g);
        if r.Err? {
          return;
        }
        g := r.value;
        i := i + 1;
      }
      r := Ok(g);
    }

    /** The outcome of a chain that is down to its writing hook, and why that hook may run. */
    lemma {:induction false} WritingHookMayRun(chain: seq<GroupHook>, rq: Request, i: nat, g: Group)
      requires Good(groups) && AllRequests(rq.expansions) && OnlyLast(Writes, chain) && MayRun(chain, rq)
      requires i < |chain| && Writes(chain[i])
      requires RunChain(chain, rq, groups) == RunFirst(Report(rq), chain[i..], State(groups, g))
      ensures chain[i].SaveGroup? ==> MaySave(g)
      ensures RunChain(chain, rq, groups) == RunHook(chain[i], rq, State(groups, g))
      ensures GroupHook.DestroyGroup in chain <==> chain[i].DestroyGroup?
    {
      var s := State(groups, g);
      LastHook(rq, chain, i, s);
      WriteOutcome(chain[i], rq, s);
      LastOnce(Writes, chain, GroupHook.DestroyGroup);
    }

    /** Runs a chain: it has the effect of all of its hooks, or reports the first error and leaves the store
        alone. All stays in order unless the chain deleted a group that some rule names. */
    method RunGroupChain(chain: seq<GroupHook>, rq: Request) returns (res: Result<Group, Error>)
      requires Valid() && AllRequests(rq.expansions) && OnlyLast(Writes, chain) && MayRun(chain, rq)
      modifies this`groups, resolver`gc, resolver`gt, resolver`gr, resolver`gs, resolver`ga
      ensures res.Err? || GroupHook.DestroyGroup !in chain ==> Valid()
      ensures res.Ok? && GroupHook.DestroyGroup in chain ==> (Valid() <==> Unnamed(groups, res.value.name))
      ensures OnlyFrom(old(resolver.ga), resolver.ga, groups)
      ensures match RunChain(chain, rq, old(groups))
              case Ok(s) => res == Ok(s.g) && groups == s.groups
              case Err(e) => res == Err(e) && groups == old(groups)
    {
      var i: nat;
      res, i := RunReadingHooks(chain, rq);
      if res.Ok? && i < |chain| {
        WritingHookMayRun(chain, rq, i, res.value);
        var g := RunWritingHook(chain[i], rq, res.value);
        res := Ok(g);
      } else if res.Ok? {
        NoneWrites(chain);
      }
    }

    // ----- operations on groups -----

    /** Creates a group unless one of that name exists or the managing group is missing. */
    method CreateGroup(rq: Request) returns (res: Result<Group, Error>)
      requires Valid() && Ready() && AllRequests(rq.expansions)
      modifies this`groups, resolver`gc, resolver`gt, resolver`gr, resolver`gs, resolver`ga
      ensures Valid()
      ensures OnlyFrom(old(resolver.ga), resolver.ga, groups)
      ensures groups == Apply(old(groups), Create(rq))
      ensures if rq.name in old(groups) then res == Err(DuplicateGroupName)
              else if rq.managedBy !in {"", rq.name} && rq.managedBy !in old(groups) then res == Err(UnknownGroup)
              else
                && res == Ok(Group(rq.name, rq.displayName, rq.managedBy,
                                   if rq.number == -1 then rq.nextNumber else rq.number, [], []))
                && groups == old(groups)[rq.name := res.value]
      ensures res.Err? ==> groups == old(groups)
    {
      CreateInOrder();
      RegisteredChain(edits, processes, "CREATE", CREATE, CREATE_IN_ORDER, rq, groups);
      CreateEffect(groups, rq);
      OnlySaves(CREATE, Registered(processes, "CREATE"));
      res := RunGroupChain(Registered(processes, "CREATE"), rq);
    }

    lemma {:induction false} DestroyMayRun(rq: Request)
      requires Valid() && Ready() && AllRequests(rq.expansions)
      ensures OnlyLast(Writes, Registered(processes, "DESTROY")) && MayRun(Registered(processes, "DESTROY"), rq)
      ensures GroupHook.DestroyGroup in Registered(processes, "DESTROY")
      ensures RunChain(Registered(processes, "DESTROY"), rq, groups)
           == if rq.name in groups then Ok(State(groups - {rq.name}, groups[rq.name])) else Err(UnknownGroup)
    {
      OthersInOrder();
      RegisteredChain(edits, processes, "DESTROY", DESTROY, DESTROY, rq, groups);
      DestroyEffect(groups, rq);
      SameHooks(Priority, DESTROY, Registered(processes, "DESTROY"), GroupHook.SaveGroup);
      SameHooks(Priority, DESTROY, Registered(processes, "DESTROY"), GroupHook.DestroyGroup);
      DestroysOnly();
    }

    /** Deletes a group that exists. All stays in order exactly when no remaining rule names the group. */
    method DestroyGroup(name: Name) returns (res: Result<Group, Error>)
      requires Valid() && Ready()
      modifies this`groups, resolver`gc, resolver`gt, resolver`gr, resolver`gs, resolver`ga
      ensures Good(groups)
      ensures Valid() <==> Unnamed(groups, name)
      ensures OnlyFrom(old(resolver.ga), resolver.ga, groups)
      ensures groups == old(groups) - {name}
      ensures res == if name in old(groups) then Ok(old(groups)[name]) else Err(UnknownGroup)
    {
      var rq := Request(name, "", "", 0, [], 0, "");
      DestroyMayRun(rq);
      NothingToRemove(groups, name);
      StillGood(groups, name);
      MissingUnnamed(groups, name);
      res := RunGroupChain(Registered(processes, "DESTROY"), rq);
    }

    /** An accepted request may be stored when the repair after it comes to an end. */
    lemma {:induction false} AcceptedMaySave(rq: Request)
      requires Valid() && AllRequests(rq.expansions) && Accepted(groups, rq) && RepairEnds(rq)
      ensures MaySave(groups[rq.name].(expansions := SavedExpansions(groups, rq)))
    {
      AcceptedTargets(groups, rq);
    }

    /** What the rules of a group name now is never affected by the group. */
    lemma {:induction false} OldTargetsClear(name: Name)
      requires Valid()
      ensures forall t :: Edge(RuleGraph(groups), name, t) ==> t !in Closure(resolver.ga, name)
    {
      RulesGraph(groups);
      forall t | Edge(RuleGraph(groups), name, t) ensures t !in Closure(resolver.ga, name) {
        assert Edge(resolver.ga, t, name);
        AboveNotBelow(resolver.ga, t, name);
      }
    }

    /** The repair after the request, if it is accepted, comes to an end. */
    ghost predicate RepairEnds(rq: Request)
      requires Good(groups) && AllRequests(rq.expansions)
      reads this, resolver
    {
      Accepted(groups, rq) ==> RuleTargets(SavedExpansions(groups, rq)) !! Closure(resolver.ga, rq.name)
    }

    lemma {:induction false} ClearRepairEnds(rq: Request)
      requires Valid() && AllRequests(rq.expansions)
      requires Accepted(groups, rq) ==> NewTargetsClear(resolver.ga, rq)
      ensures RepairEnds(rq)
    {
      if Accepted(groups, rq) {
        AcceptedTargets(groups, rq);
        OldTargetsClear(rq.name);
      }
    }

    lemma {:induction false} ModifyMayRun(rq: Request)
      requires Valid() && Ready() && AllRequests(rq.expansions) && RepairEnds(rq)
      ensures OnlyLast(Writes, Registered(processes, "MODIFY-EXPANSIONS"))
      ensures MayRun(Registered(processes, "MODIFY-EXPANSIONS"), rq)
      ensures GroupHook.DestroyGroup !in Registered(processes, "MODIFY-EXPANSIONS")
      ensures var r := RunChain(Registered(processes, "MODIFY-EXPANSIONS"), rq, groups);
              if Accepted(groups, rq) then r == Ok(State(Modified(groups, rq), Modified(groups, rq)[rq.name]))
              else r.Err? && MayReport(groups, rq, r.error)
    {
      ModifyReports(rq, Registered(processes, "MODIFY-EXPANSIONS"), groups) by {
        OthersInOrder();
        RegisteredChain(edits, processes, "MODIFY-EXPANSIONS", MODIFY_EXPANSIONS, MODIFY_EXPANSIONS, rq, groups);
      }
      OthersInOrder();
      RegisteredChain(edits, processes, "MODIFY-EXPANSIONS", MODIFY_EXPANSIONS, MODIFY_EXPANSIONS, rq, groups);
      ModifyEffect(groups, rq);
      OnlySaves(MODIFY_EXPANSIONS, Registered(processes, "MODIFY-EXPANSIONS"));
      if Accepted(groups, rq) {
        AcceptedMaySave(rq);
      }
    }

    /** Runs the chain that changes rules. */
    method RunModifyExpansions(rq: Request) returns (res: Result<Group, Error>)
      requires Valid() && Ready() && AllRequests(rq.expansions) && RepairEnds(rq)
      modifies this`groups, resolver`gc, resolver`gt, resolver`gr, resolver`gs, resolver`ga
      ensures Valid()
      ensures OnlyFrom(old(resolver.ga), resolver.ga, groups)
      ensures if Accepted(old(groups), rq)
              then groups == Modified(old(groups), rq) && res == Ok(Modified(old(groups), rq)[rq.name])
              else groups == old(groups) && res.Err? && MayReport(groups, rq, res.error)
    {
      ModifyMayRun(rq);
      res := RunGroupChain(Registered(processes, "MODIFY-EXPANSIONS"), rq);
    }

    /** Changes the rules of a group as requested, all of the request or none of it. The request is accepted exactly
        when every rule that it proposes may be added; the group then keeps the rules that nothing in the request
        drops and gets those proposed that nothing later drops. */
    method ModifyRules(rq: Request) returns (res: Result<Group, Error>)
      requires Valid() && Ready() && AllRequests(rq.expansions) && RepairEnds(rq)
      modifies this`groups, resolver`gc, resolver`gt, resolver`gr, resolver`gs, resolver`ga
      ensures Valid()
      ensures OnlyFrom(old(resolver.ga), resolver.ga, groups)
      ensures groups == Apply(old(groups), Modify(rq))
      ensures res.Ok? <==> rq.name in old(groups)
                           && forall i :: 0 <= i < |rq.expansions| ==> Addable(old(groups), rq.name, rq.expansions[i])
      ensures res.Ok? ==>
                && groups == old(groups)[rq.name := res.value]
                && res.value == old(groups)[rq.name].(expansions := res.value.expansions)
                && forall e :: e in res.value.expansions <==>
                     (e in old(groups)[rq.name].expansions && Undropped(rq.expansions, e)) || Asked(rq.expansions, e)
      ensures res.Err? ==> groups == old(groups)
    {
      AcceptedExactly(groups, rq);
      ModifyEffect(groups, rq);
      SavedSpelled(groups, rq);
      res := RunModifyExpansions(rq);
    }

    /** Adds one rule to a group or drops rules from it. A drop succeeds for every stored group, and takes out
        exactly the rules with the child's name in them. A rule is added exactly when both groups are stored, no rule
        of the parent has the child's name in it, and the child does not lead to the parent nor to a missing group;
        it is then the one new rule. A new target must not be a group that the parent affects, now or through a rule
        since dropped: otherwise the repair would not come to an end. */
    method ModifyGroupExpansions(parent: Name, child: Name, mode: string) returns (res: Result<Group, Error>)
      requires Valid() && Ready() && mode in {"INCLUDE", "EXCLUDE", "DROP"}
      requires mode != "DROP" ==> child !in Closure(resolver.ga, parent)
      modifies this`groups, resolver`gc, resolver`gt, resolver`gr, resolver`gs, resolver`ga
      ensures Valid()
      ensures OnlyFrom(old(resolver.ga), resolver.ga, groups)
      ensures mode == "DROP" ==> (res.Ok? <==> parent in old(groups))
      ensures mode != "DROP" ==>
                (res.Ok? <==>
                 && parent in old(groups) && child in old(groups)
                 && (forall e :: e in old(groups)[parent].expansions ==> !Contains(e, child))
                 && !Reaches(RuleGraph(old(groups)), child, parent)
                 && (forall u :: Reaches(RuleGraph(old(groups)), child, u) ==> u in old(groups)))
      ensures res.Ok? ==>
                && groups == old(groups)[parent := res.value]
                && res.value == old(groups)[parent].(expansions := res.value.expansions)
                && Sorted(res.value.expansions) && Distinct(res.value.expansions)
                && forall e :: e in res.value.expansions <==>
                     if mode == "DROP" then e in old(groups)[parent].expansions && !Contains(e, child)
                     else e in old(groups)[parent].expansions || e == WithColon(mode, child)
      ensures res.Err? ==>
                && groups == old(groups)
                && (parent !in groups ==> res.error == UnknownGroup)
                && (parent in groups && child in groups ==> res.error == ExistingExpansion)
                && (parent in groups && child !in groups ==>
                      res.error == UnknownGroup
                      || (res.error == ExistingExpansion
                          && exists e :: e in groups[parent].expansions && Contains(e, child)))
    {
      var rq := RuleRequest(parent, child, mode);
      RuleRequestFits(parent, child, mode);
      RuleRequestClear(resolver.ga, parent, child, mode);
      ClearRepairEnds(rq);
      RuleRequestOutcome(groups, parent, child, mode);
      res := RunModifyExpansions(rq);
    }

    lemma {:induction false} EditMayRun(chain: string, rq: Request)
      requires Valid() && Ready() && AllRequests(rq.expansions) && chain in EDITS
      ensures OnlyLast(Writes, Registered(processes, chain)) && MayRun(Registered(processes, chain), rq)
      ensures GroupHook.DestroyGroup !in Registered(processes, chain)
      ensures RunChain(Registered(processes, chain), rq, groups)
           == RunChain(Editing(edits.edit(EDITS[chain])), rq, groups)
    {
      var edit := edits.edit(EDITS[chain]);
      ShortInOrder(edit, edits.merge);
      RegisteredChain(edits, processes, chain, Editing(edit), Editing(edit), rq, groups);
      EditEffect(groups, rq, edit);
      EditingSaves(edit, Registered(processes, chain));
      OldTargetsClear(rq.name);
      if rq.name in groups {
        StoredTargets(groups, rq.name);
      }
    }

    /** Runs one of the chains that edit a group: the record keeps its name and its rules, and gets the other fields
        that the edit gives it. */
    method EditGroup(chain: string, rq: Request) returns (res: Result<Group, Error>)
      requires Valid() && Ready() && AllRequests(rq.expansions) && chain in EDITS
      modifies this`groups, resolver`gc, resolver`gt, resolver`gr, resolver`gs, resolver`ga
      ensures Valid()
      ensures OnlyFrom(old(resolver.ga), resolver.ga, groups)
      ensures groups == Apply(old(groups), Edit(rq, edits.edit(EDITS[chain])))
      ensures if rq.name !in old(groups) then res == Err(UnknownGroup) && groups == old(groups)
              else
                match edits.edit(EDITS[chain])(rq, old(groups)[rq.name])
                case Err(e) => res == Err(e) && groups == old(groups)
                case Ok(h) =>
                  && res == Ok(Group(rq.name, h.displayName, h.managedBy, h.number,
                                     old(groups)[rq.name].expansions, h.capabilities))
                  && groups == old(groups)[rq.name := res.value]
    {
      EditMayRun(chain, rq);
      EditEffect(groups, rq, edits.edit(EDITS[chain]));
      res := RunGroupChain(Registered(processes, chain), rq);
    }

    /** Every rule that a merge carries is one, and names a stored group that the merged group does not affect. */
    ghost predicate MayMerge(rq: Request)
      reads this, resolver
    {
      forall e :: e in rq.expansions ==>
        IsRule(e) && ':' in e && AfterColon(e) in groups && AfterColon(e) !in Closure(resolver.ga, rq.name)
    }

    lemma {:induction false} MergeMayRun(rq: Request)
      requires Valid() && Ready() && AllRequests(rq.expansions) && MayMerge(rq)
      ensures OnlyLast(Writes, Registered(processes, "MERGE-METADATA"))
      ensures MayRun(Registered(processes, "MERGE-METADATA"), rq)
      ensures GroupHook.DestroyGroup !in Registered(processes, "MERGE-METADATA")
      ensures RunChain(Registered(processes, "MERGE-METADATA"), rq, groups)
           == RunChain(Merging(edits.merge), rq, groups)
    {
      ShortInOrder((rq, g) => Ok(g), edits.merge);
      RegisteredChain(edits, processes, "MERGE-METADATA", Merging(edits.merge), Merging(edits.merge), rq, groups);
      MergeEffect(groups, rq, edits.merge);
      MergingSaves(edits.merge, Registered(processes, "MERGE-METADATA"));
      OldTargetsClear(rq.name);
      if rq.name in groups {
        StoredTargets(groups, rq.name);
      }
    }

    /** Merges an update into a group: the record keeps its name and its number, the rules that the update carries
        are appended unchecked, and the other fields are merged. */
    method UpdateGroupMeta(rq: Request) returns (res: Result<Group, Error>)
      requires Valid() && Ready() && AllRequests(rq.expansions) && MayMerge(rq)
      modifies this`groups, resolver`gc, resolver`gt, resolver`gr, resolver`gs, resolver`ga
      ensures Valid()
      ensures OnlyFrom(old(resolver.ga), resolver.ga, groups)
      ensures groups == Apply(old(groups), Merge(rq, edits.merge))
      ensures if rq.name !in old(groups) then res == Err(UnknownGroup) && groups == old(groups)
              else
                var before, h := old(groups)[rq.name], edits.merge(rq, old(groups)[rq.name]);
                && res == Ok(Group(rq.name, h.displayName, h.managedBy, before.number,
                                   before.expansions + rq.expansions, h.capabilities))
                && groups == old(groups)[rq.name := res.value]
    {
      MergeMayRun(rq);
      MergeEffect(groups, rq, edits.merge);
      res := RunGroupChain(Registered(processes, "MERGE-METADATA"), rq);
    }

    // ----- operations on entities -----

    /** The hooks of an entity chain up to the first that writes, or to the first that fails. */
    method RunReadingEntityHooks(chain: seq<EntityHooks.EntityHook>, rq: EntityHooks.EntityRequest)
      returns (r: Result<Entity, EntityHooks.EntityError>, i: nat)
      ensures i <= |chain| && (i < |chain| ==> EntityHooks.Writes(chain[i]) || r.Err?)
      ensures match r
              case Ok(e) =>
                EntityHooks.RunChain(chain, rq, entities)
                == RunFirst(EntityHooks.Report(rq), chain[i..], EntityHooks.EntityState(entities, e))
              case Err(x) => EntityHooks.RunChain(chain, rq, entities) == Err(x)
    {
      var e := EntityHooks.EMPTY_ENTITY;
      i := 0;
      while i < |chain| && !EntityHooks.Writes(chain[i])
        invariant i <= |chain|
        invariant EntityHooks.RunChain(chain, rq, entities)
               == RunFirst(EntityHooks.Report(rq), chain[i..], EntityHooks.EntityState(entities, e))
      {
        EntityHooks.NextHook(rq, chain, i, EntityHooks.EntityState(entities, e));
        r := EntityHooks.Step(chain[i], rq, entities, e);
        if r.Err? {
          return;
        }
        e := r.value;
        i := i + 1;
      }
      r := Ok(e);
    }

    /** One hook that changes the stored entities. */
    method RunWritingEntityHook(h: EntityHooks.EntityHook, rq: EntityHooks.EntityRequest, e: Entity)
      returns (e': Entity)
      requires Valid() && EntityHooks.Writes(h)
      modifies this`entities, resolver`dm
      ensures Valid()
      ensures EntityHooks.RunEntityHook(rq, h, EntityHooks.EntityState(old(entities), e))
           == Ok(EntityHooks.EntityState(entities, e'))
    {
      e' := e;
      if h.SaveEntity? {
        SaveEntity(e);
      } else {
        if e.id == "" {
          e' := e.(id := rq.id);
        }
        DeleteEntity(e'.id);
      }
    }

    /** Runs a chain: it has the effect of all of its hooks, or reports the first error and leaves the store
        alone. */
    method RunEntityChain(chain: seq<EntityHooks.EntityHook>, rq: EntityHooks.EntityRequest)
      returns (res: Result<Entity, EntityHooks.EntityError>)
      requires Valid() && OnlyLast(EntityHooks.Writes, chain)
      modifies this`entities, resolver`dm
      ensures Valid()
      ensures match EntityHooks.RunChain(chain, rq, old(entities))
              case Ok(s) => res == Ok(s.e) && entities == s.entities
              case Err(x) => res == Err(x) && entities == old(entities)
    {
      var i: nat;
      res, i := RunReadingEntityHooks(chain, rq);
      if res.Ok? && i < |chain| {
        EntityHooks.NextHook(rq, chain, i, EntityHooks.EntityState(entities, res.value));
        assert chain[i + 1..] == [];
        var e := RunWritingEntityHook(chain[i], rq, res.value);
        res := Ok(e);
      }
    }

    /** Creates an entity under an id that is free; it starts in no group. */
    method CreateEntity(rq: EntityHooks.EntityRequest) returns (res: Result<Entity, EntityHooks.EntityError>)
      requires Valid() && Ready()
      modifies this`entities, resolver`dm
      ensures Valid()
      ensures res.Ok? <==> rq.id !in old(entities) && (rq.number != -1 || rq.nextNumber.Some?) && rq.secured.Some?
      ensures rq.id in old(entities) ==> res == Err(EntityHooks.DuplicateEntityID)
      ensures res.Ok? ==>
                res.value == EntityHooks.Entity(rq.id, if rq.number != -1 then rq.number else rq.nextNumber.value,
                                                rq.secured.value, false, [], [])
      ensures entities == if res.Ok? then old(entities)[rq.id := res.value] else old(entities)
    {
      EntityHooks.RegisteredChain(entityEdits, entityProcesses, "CREATE", EntityHooks.CREATE);
      var chain := Registered(entityProcesses, "CREATE");
      EntityHooks.CreateSettled(rq, chain, entities);
      res := RunEntityChain(chain, rq);
    }

    /** Deletes an entity that exists. */
    method DestroyEntity(rq: EntityHooks.EntityRequest) returns (res: Result<Entity, EntityHooks.EntityError>)
      requires Valid() && Ready()
      modifies this`entities, resolver`dm
      ensures Valid()
      ensures res == if rq.id in old(entities) then Ok(old(entities)[rq.id]) else Err(EntityHooks.UnknownEntity)
      ensures entities == old(entities) - {rq.id}
    {
      EntityHooks.RegisteredChain(entityEdits, entityProcesses, "DESTROY", EntityHooks.DESTROY);
      var chain := Registered(entityProcesses, "DESTROY");
      EntityHooks.DestroySettled(rq, chain, entities);
      NothingToRemove(entities, rq.id);
      res := RunEntityChain(chain, rq);
    }

    /** Runs one of the chains that edit an entity. */
    method EditEntity(chain: string, rq: EntityHooks.EntityRequest)
      returns (res: Result<Entity, EntityHooks.EntityError>)
      requires Valid() && Ready() && chain in EntityHooks.EDITS
      modifies this`entities, resolver`dm
      ensures Valid()
      ensures res == EditedEntity(entityEdits(EntityHooks.EDITS[chain]), rq, old(entities))
      ensures entities == if res.Ok? then old(entities)[rq.id := res.value] else old(entities)
    {
      EntityHooks.EditSettled(entityEdits, entityProcesses, chain, rq, entities);
      res := RunEntityChain(Registered(entityProcesses, chain), rq);
    }

    /** Sets the secret of an entity that exists to one that could be secured, and nothing else. */
    method SetSecret(rq: EntityHooks.EntityRequest) returns (res: Result<Entity, EntityHooks.EntityError>)
      requires Valid() && Ready()
      modifies this`entities, resolver`dm
      ensures Valid()
      ensures res == if rq.id !in old(entities) then Err(EntityHooks.UnknownEntity)
                     else if rq.secured.None? then Err(EntityHooks.BadSecret)
                     else Ok(old(entities)[rq.id].(secret := rq.secured.value))
      ensures entities == if res.Ok? then old(entities)[rq.id := res.value] else old(entities)
    {
      EntityHooks.OwnInOrder();
      EntityHooks.RegisteredRuns(entityEdits, entityProcesses, "SET-SECRET", EntityHooks.SET_SECRET, rq, entities);
      EntityHooks.SetSecretEffect(rq, entities);
      res := RunEntityChain(Registered(entityProcesses, "SET-SECRET"), rq);
    }

    /** Checks an identity: the entity has to be stored, not locked, and the secret to match. */
    method ValidateSecret(rq: EntityHooks.EntityRequest) returns (res: Result<Entity, EntityHooks.EntityError>)
      requires Valid() && Ready()
      modifies this`entities, resolver`dm
      ensures Valid()
      ensures res == if rq.id !in entities then Err(EntityHooks.UnknownEntity)
                     else if entities[rq.id].locked then Err(EntityHooks.EntityLocked)
                     else if !rq.verifies(entities[rq.id].secret) then Err(EntityHooks.BadSecret)
                     else Ok(entities[rq.id])
      ensures entities == old(entities)
    {
      EntityHooks.OwnInOrder();
      EntityHooks.RegisteredRuns(entityEdits, entityProcesses, "VALIDATE-IDENTITY", EntityHooks.VALIDATE_IDENTITY,
                                 rq, entities);
      EntityHooks.ValidateEffect(rq, entities);
      res := RunEntityChain(Registered(entityProcesses, "VALIDATE-IDENTITY"), rq);
    }

    /** Puts an entity directly into a group, which need not exist, or takes it out. */
    method PatchDirectGroups(id: Name, group: Name, add: bool) returns (res: Result<Entity, EntityHooks.EntityError>)
      requires Valid() && Ready()
      requires PatchesGroups(entityEdits("add-direct-group"), true) && PatchesGroups(entityEdits("del-direct-group"), false)
      modifies this`entities, resolver`dm
      ensures Valid()
      ensures res.Ok? <==> id in old(entities)
      ensures res.Err? ==> entities == old(entities)
      ensures res.Ok? ==>
                && entities == old(entities)[id := res.value]
                && res.value == old(entities)[id].(groups := res.value.groups)
                && forall x :: x in res.value.groups <==>
                     x != "" && if add then x in old(entities)[id].groups || x == group
                                else x in old(entities)[id].groups && x != group
    {
      if id in entities {
        DirectGroupsPatched(entities[id].groups, group, add);
      }
      var rq := EntityHooks.EntityRequest(id, 0, None, None, s => false, group);
      res := EditEntity(if add then "GROUP-ADD" else "GROUP-DEL", rq);
    }

    // ----- questions -----

    /** The groups an entity is a member of, by the recursive definition on the stored records. */
    method GetMemberships(id: Name) returns (gs: seq<Name>)
      requires Valid()
      ensures Distinct(gs) && forall g :: g in gs <==> g in groups && StoredMember(entities, groups, id, g)
    {
      gs := resolver.GroupsForEntity(id);
      RulesGraph(groups);
      forall g ensures g in gs <==> g in groups && StoredMember(entities, groups, id, g) {
        if g in groups {
          ClosedKnown(groups, g);
        }
      }
    }

    /** The records of the members of a group, without their secrets; loading them never fails. */
    method ListMembers(g: Name) returns (res: Result<seq<Entity>, Error>)
      requires Valid()
      ensures res.Ok?
      ensures forall i :: 0 <= i < |res.value| ==>
                res.value[i].id in entities && res.value[i] == entities[res.value[i].id].(secret := "<REDACTED>")
      ensures forall id :: ListsId(res.value, id) <==> g in groups && StoredMember(entities, groups, id, g)
      ensures forall i, j :: 0 <= i < j < |res.value| ==> res.value[i].id != res.value[j].id
    {
      var ids := resolver.MembersOfGroup(g);
      MemberIds(g, ids);
      forall i | 0 <= i < |ids| ensures ids[i] in entities {
        assert ids[i] in ids;
      }
      res := LoadRedacted(ids);
      ListedById(ids, res.value);
    }

    method LoadRedacted(ids: seq<Name>) returns (res: Result<seq<Entity>, Error>)
      requires forall id :: id in entities ==> entities[id].id == id
      ensures res.Ok? <==> forall i :: 0 <= i < |ids| ==> ids[i] in entities
      ensures res.Ok? ==> |res.value| == |ids|
      ensures res.Ok? ==> forall i :: 0 <= i < |ids| ==>
                res.value[i].id == ids[i] && res.value[i] == Redacted(entities[ids[i]])
    {
      res := LoadEntities(ids);
      if res.Ok? {
        var safe := Redact(res.value);
        res := Ok(safe);
      }
    }

    /** Loads the records one after the other; the first that is missing ends it. */
    method LoadEntities(ids: seq<Name>) returns (res: Result<seq<Entity>, Error>)
      ensures res.Ok? <==> forall i :: 0 <= i < |ids| ==> ids[i] in entities
      ensures res.Ok? ==> |res.value| == |ids| && forall i :: 0 <= i < |ids| ==> res.value[i] == entities[ids[i]]
    {
      var out := [];
      for i := 0 to |ids|
        invariant |out| == i
        invariant forall j :: 0 <= j < i ==> ids[j] in entities && out[j] == entities[ids[j]]
      {
        if ids[i] !in entities {
          return Err(UnknownGroup);
        }
        out := out + [entities[ids[i]]];
      }
      res := Ok(out);
    }

    lemma {:induction false} MemberIds(g: Name, ids: seq<Name>)
      requires Valid()
      requires forall e :: e in ids <==> resolver.Holds(e, g)
      requires Known(resolver.gc, g) ==>
                 forall e :: e in ids <==> e in resolver.dm && Member(resolver.gc, resolver.dm[e], g)
      ensures forall id :: id in ids <==> g in groups && StoredMember(entities, groups, id, g)
    {
      RulesGraph(groups);
      if g in groups {
        ClosedKnown(groups, g);
      }
    }

    /** The capabilities an entity is issued: its own and those of every group it is a member of, each once.
        An unknown entity is treated as one with an empty id. */
    method GetCapabilities(id: Name) returns (caps: seq<Capability>)
      requires Valid()
      ensures Distinct(caps)
      ensures forall c :: c in caps <==>
                (id in entities && c in entities[id].capabilities)
                || exists g :: g in groups && c in groups[g].capabilities
                               && StoredMember(entities, groups, if id in entities then id else "", g)
    {
      var seen := AddAll({}, if id in entities then entities[id].capabilities else []);
      var names := GetMemberships(if id in entities then id else "");
      var granted := GroupCapabilities(names);
      caps := ListOf(seen + granted);
      GrantedByMembers(names, if id in entities then id else "");
    }

    method AddAll(seen: set<Capability>, caps: seq<Capability>) returns (out: set<Capability>)
      ensures out == seen + Elements(caps)
    {
      out := seen;
      for i := 0 to |caps|
        invariant out == seen + Elements(caps[..i])
      {
        assert caps[..i + 1] == caps[..i] + [caps[i]];
        out := out + {caps[i]};
      }
      assert caps[..|caps|] == caps;
    }

    /** The capabilities of the named groups; a name without a group grants none. */
    method GroupCapabilities(names: seq<Name>) returns (seen: set<Capability>)
      ensures forall c :: c in seen <==> GrantedBy(names, c)
    {
      seen := {};
      for i := 0 to |names|
        invariant forall c :: c in seen <==> GrantedBy(names[..i], c)
      {
        GrantedNext(names, i);
        seen := AddAll(seen, if names[i] in groups then groups[names[i]].capabilities else []);
      }
      assert names[..|names|] == names;
    }

    lemma {:induction false} GrantedByMembers(names: seq<Name>, id: Name)
      requires Valid()
      requires forall g :: g in names <==> g in groups && StoredMember(entities, groups, id, g)
      ensures forall c :: GrantedBy(names, c) <==>
                exists g :: g in groups && c in groups[g].capabilities && StoredMember(entities, groups, id, g)
    {
    }

    ghost predicate GrantedBy(names: seq<Name>, c: Capability)
      reads this
    {
      exists g :: g in names && g in groups && c in groups[g].capabilities
    }

    lemma {:induction false} GrantedNext(names: seq<Name>, i: nat)
      requires i < |names|
      ensures forall c :: GrantedBy(names[..i + 1], c) <==>
                GrantedBy(names[..i], c) || (names[i] in groups && c in groups[names[i]].capabilities)
    {
      assert names[..i + 1] == names[..i] + [names[i]];
    }

    /** Whether an entity manages a group: the group has a managing group, and the entity is a member of it. */
    method ManageByMembership(id: Name, g: Name) returns (ok: bool)
      requires Valid()
      ensures ok <==> g in groups && groups[g].managedBy != "" && id in entities
                      && groups[g].managedBy in groups && StoredMember(entities, groups, id, groups[g].managedBy)
    {
      if g !in groups || groups[g].managedBy == "" || id !in entities {
        return false;
      }
      var names := GetMemberships(id);
      ok := Lists(names, groups[g].managedBy);
    }
  }

  method Lists(names: seq<Name>, name: Name) returns (ok: bool)
    ensures ok <==> name in names
  {
    for i := 0 to |names|
      invariant name !in names[..i]
    {
      if names[i] == name {
        return true;
      }
    }
    assert names[..|names|] == names;
    return false;
  }

  /** No new rule of a request names a group that a change of the requested group spreads to. */
  ghost predicate NewTargetsClear(ga: Graph, rq: Request) {
    forall i :: 0 <= i < |rq.expansions| && ':' in rq.expansions[i] && !IsDrop(rq.expansions[i])
      ==> AfterColon(rq.expansions[i]) !in Closure(ga, rq.name)
  }

  lemma {:induction false} NothingToRemove<V>(m: map<Name, V>, k: Name)
    ensures k !in m ==> m - {k} == m
  {
  }

  lemma {:induction false} MissingUnnamed(groups: Groups, name: Name)
    requires Closed(groups)
    ensures name !in groups ==> Unnamed(groups, name)
  {
    forall n | n in groups && name in RuleTargets(groups[n].expansions) ensures name in groups {
      assert Edge(RuleGraph(groups), n, name);
    }
  }

  lemma {:induction false} StoredTargets(groups: Groups, name: Name)
    requires Good(groups) && Closed(groups) && name in groups
    ensures AllRules(groups[name].expansions) && RuleTargets(groups[name].expansions) <= groups.Keys
    ensures forall t :: t in RuleTargets(groups[name].expansions) <==> Edge(RuleGraph(groups), name, t)
  {
    forall t | t in RuleTargets(groups[name].expansions) ensures t in groups {
      assert Edge(RuleGraph(groups), name, t);
    }
  }

  lemma {:induction false} NoneWrites(chain: seq<GroupHook>)
    requires forall j :: 0 <= j < |chain| ==> !Writes(chain[j])
    ensures GroupHook.DestroyGroup !in chain
  {
  }

  lemma {:induction false} DestroysOnly()
    ensures GroupHook.DestroyGroup in DESTROY && GroupHook.SaveGroup !in DESTROY
  {
    assert DESTROY[1] == GroupHook.DestroyGroup;
  }

  lemma {:induction false} NoDestroy()
    ensures GroupHook.DestroyGroup !in CREATE && GroupHook.DestroyGroup !in MODIFY_EXPANSIONS
  {
  }

  lemma {:induction false} OnlySaves(chain: seq<GroupHook>, order: seq<GroupHook>)
    requires (chain == CREATE || chain == MODIFY_EXPANSIONS) && Orders(Priority, order, chain)
    ensures GroupHook.DestroyGroup !in order
  {
    NoDestroy();
    SameHooks(Priority, chain, order, GroupHook.DestroyGroup);
  }

  lemma {:induction false} EditingSaves(edit: GroupEdit, order: seq<GroupHook>)
    requires Orders(Priority, order, Editing(edit))
    ensures GroupHook.DestroyGroup !in order
  {
    SameHooks(Priority, Editing(edit), order, GroupHook.DestroyGroup);
  }

  lemma {:induction false} MergingSaves(merge: (Request, Group) -> Group, order: seq<GroupHook>)
    requires Orders(Priority, order, Merging(merge))
    ensures GroupHook.DestroyGroup !in order
  {
    SameHooks(Priority, Merging(merge), order, GroupHook.DestroyGroup);
  }

  function EditedEntity(edit: EntityHooks.EntityEdit, rq: EntityHooks.EntityRequest, entities: Entities)
    : Result<Entity, EntityHooks.EntityError>
  {
    if rq.id !in entities then Err(EntityHooks.UnknownEntity)
    else
      match edit(rq, entities[rq.id])
      case Err(x) => Err(x)
      case Ok(d) => Ok(d.(id := rq.id))
  }

  lemma {:induction false} DirectGroupsPatched(gs: seq<Name>, group: Name, add: bool)
    ensures forall gs': seq<Name> :: Elements(gs') == PatchedSet(Elements(gs), group, add, true) ==>
              forall x :: x in gs' <==> x != "" && if add then x in gs || x == group else x in gs && x != group
  {
    forall gs': seq<Name>, x | Elements(gs') == PatchedSet(Elements(gs), group, add, true)
      ensures x in gs' <==> x != "" && if add then x in gs || x == group else x in gs && x != group
    {
      PatchedSetExactly(Elements(gs), group, x);
      assert x in gs' <==> x in Elements(gs');
    }
  }

  /** The hook patches the group that the request names into the direct groups, or out of them; the order of the
      patched groups is left open. */
  ghost predicate PatchesGroups(edit: EntityHooks.EntityEdit, add: bool) {
    forall rq, e ::
      && edit(rq, e).Ok?
      && edit(rq, e).value == e.(groups := edit(rq, e).value.groups)
      && Elements(edit(rq, e).value.groups) == PatchedSet(Elements(e.groups), rq.update, add, true)
  }

  /** A copy that may leave the server. */
  function Redacted(e: Entity): Entity {
    e.(secret := "<REDACTED>")
  }

  ghost predicate ListsId(es: seq<Entity>, id: Name) {
    exists i :: 0 <= i < |es| && es[i].id == id
  }

  lemma {:induction false} ListedById(ids: seq<Name>, es: seq<Entity>)
    requires Distinct(ids) && |es| == |ids| && forall i :: 0 <= i < |ids| ==> es[i].id == ids[i]
    ensures forall id :: ListsId(es, id) <==> id in ids
    ensures forall i, j :: 0 <= i < j < |es| ==> es[i].id != es[j].id
  {
    DistinctPositions(ids);
    forall id | id in ids ensures ListsId(es, id) {
      var i :| 0 <= i < |ids| && ids[i] == id;
      assert es[i].id == id;
    }
  }

  method Redact(es: seq<Entity>) returns (safe: seq<Entity>)
    ensures |safe| == |es| && forall i :: 0 <= i < |es| ==> safe[i] == Redacted(es[i])
  {
    safe := [];
    for i := 0 to |es|
      invariant |safe| == i && forall j :: 0 <= j < i ==> safe[j] == Redacted(es[j])
    {
      safe := safe + [Redacted(es[i])];
    }
  }

  /** What a refused request for rules may report: that the group is missing, or what a check objects to. */
  ghost predicate MayReport(groups: Groups, rq: Request, e: Error)
    requires Good(groups) && AllRequests(rq.expansions)
  {
    if rq.name in groups then exists h :: OnlyChecks(h) && CheckError(h, rq, groups) == Some(e)
    else e == UnknownGroup
  }

  lemma {:induction false} SavedSpelled(groups: Groups, rq: Request)
    requires Good(groups) && AllRequests(rq.expansions)
    ensures rq.name in groups ==>
              forall e :: e in SavedExpansions(groups, rq) <==>
                (e in groups[rq.name].expansions && Undropped(rq.expansions, e)) || Asked(rq.expansions, e)
  {
    if rq.name in groups {
      forall e ensures e in SavedExpansions(groups, rq) <==>
                         (e in groups[rq.name].expansions && Undropped(rq.expansions, e)) || Asked(rq.expansions, e) {
        SavedExactly(groups, rq, e);
      }
    }
  }

  /** When a request for one rule or one drop is accepted, what it leaves, and what a refusal may report. */
  lemma {:induction false} RuleRequestOutcome(groups: Groups, parent: Name, child: Name, mode: string)
    requires Good(groups) && mode in {"INCLUDE", "EXCLUDE", "DROP"}
    requires AllRequests(RuleRequest(parent, child, mode).expansions)
    ensures var rq := RuleRequest(parent, child, mode);
            Accepted(groups, rq) <==>
              parent in groups
              && (mode != "DROP" ==>
                    && child in groups
                    && (forall e :: e in groups[parent].expansions ==> !Contains(e, child))
                    && !Reaches(RuleGraph(groups), child, parent)
                    && (forall u :: Reaches(RuleGraph(groups), child, u) ==> u in groups))
    ensures var rq := RuleRequest(parent, child, mode);
            parent in groups ==>
              && Sorted(SavedExpansions(groups, rq)) && Distinct(SavedExpansions(groups, rq))
              && forall e :: e in SavedExpansions(groups, rq) <==>
                   if mode == "DROP" then e in groups[parent].expansions && !Contains(e, child)
                   else e in groups[parent].expansions || e == WithColon(mode, child)
    ensures var rq := RuleRequest(parent, child, mode);
            forall x :: MayReport(groups, rq, x) && !Accepted(groups, rq) ==>
              && (parent !in groups ==> x == UnknownGroup)
              && (parent in groups && child in groups ==> x == ExistingExpansion)
              && (parent in groups && child !in groups ==>
                    x == UnknownGroup
                    || (x == ExistingExpansion && exists e :: e in groups[parent].expansions && Contains(e, child)))
  {
    var rq := RuleRequest(parent, child, mode);
    if mode == "DROP" {
      DropExactly(groups, rq, child);
    } else {
      AddExactly(groups, rq, mode, child);
      if parent in groups {
        forall h | OnlyChecks(h)
          ensures child in groups ==> CheckError(h, rq, groups) in {None, Some(ExistingExpansion)}
          ensures CheckError(h, rq, groups) in {None, Some(ExistingExpansion), Some(UnknownGroup)}
          ensures child !in groups && (forall e :: e in groups[parent].expansions ==> !Contains(e, child)) ==>
                    CheckError(h, rq, groups) in {None, Some(UnknownGroup)}
        {
          AddErrors(groups, rq, mode, child, h);
          CheckRuns(rq, h, groups);
        }
      }
    }
  }

  function RuleRequest(parent: Name, child: Name, mode: string): Request {
    Request(parent, "", "", 0, [WithColon(mode, child)], 0, "")
  }

  lemma {:induction false} RuleRequestFits(parent: Name, child: Name, mode: string)
    requires mode in {"INCLUDE", "EXCLUDE", "DROP"}
    ensures AllRequests(RuleRequest(parent, child, mode).expansions)
    ensures var e := RuleRequest(parent, child, mode).expansions[0];
            AfterColon(e) == child && (IsDrop(e) <==> mode == "DROP")
  {
    if mode == "DROP" {
      DropString(child);
    } else {
      RuleString(mode, child);
    }
  }

  lemma {:induction false} RuleRequestClear(ga: Graph, parent: Name, child: Name, mode: string)
    requires mode in {"INCLUDE", "EXCLUDE", "DROP"}
    requires mode != "DROP" ==> child !in Closure(ga, parent)
    ensures NewTargetsClear(ga, RuleRequest(parent, child, mode))
  {
    RuleRequestFits(parent, child, mode);
  }

  lemma {:induction false} AboveNotBelow(g: Graph, t: Name, s: Name)
    requires Acyclic(g) && Edge(g, t, s)
    ensures t !in Closure(g, s)
  {
    EdgeReaches(g, t, s);
    if t in Closure(g, s) {
      ReachedIsBelow(g, s, t);
      if t != s {
        ReachesTransitive(g, s, t, s);
      }
    }
  }

  /** A hook that writes is the last; what it makes of the state is the outcome of the chain. */
  lemma {:induction false} LastHook(rq: Request, chain: seq<GroupHook>, i: nat, s: State)
    requires Runnable(rq, s) && i < |chain| && OnlyLast(Writes, chain) && Writes(chain[i])
    ensures i == |chain| - 1 && chain[i] in chain
    ensures RunFirst(Report(rq), chain[i..], s) == RunHook(chain[i], rq, s)
  {
    WriteOutcome(chain[i], rq, s);
    NextHook(rq, chain, i, s);
    assert chain[i + 1..] == [];
  }

  lemma {:induction false} SaveOutcome(rq: Request, s: State)
    requires Runnable(rq, s)
    ensures RunHook(GroupHook.SaveGroup, rq, s) == Ok(State(s.groups[s.g.name := s.g], s.g))
  {
  }

  lemma {:induction false} DestroyOutcome(rq: Request, s: State)
    requires Runnable(rq, s)
    ensures var g := if s.g.name == "" then s.g.(name := rq.name) else s.g;
            RunHook(GroupHook.DestroyGroup, rq, s) == Ok(State(s.groups - {g.name}, g))
  {
  }

  lemma {:induction false} WriteOutcome(h: GroupHook, rq: Request, s: State)
    requires Runnable(rq, s) && Writes(h)
    ensures RunHook(h, rq, s).Ok?
    ensures h.SaveGroup? ==> RunHook(h, rq, s).value.g == s.g
  {
  }

  /** Running the rest of a chain: its first hook, and then the rest after that. */
  lemma {:induction false} NextHook(rq: Request, chain: seq<GroupHook>, i: nat, s: State)
    requires Runnable(rq, s) && i < |chain|
    ensures RunFirst(Report(rq), chain[i..], s)
         == match RunHook(chain[i], rq, s)
            case Err(e) => Err(e)
            case Ok(t) => RunFirst(Report(rq), chain[i + 1..], t)
  {
    assert chain[i..] == [chain[i]] + chain[i + 1..];
    RunStep(rq, chain[i], chain[i + 1..], s);
  }

  lemma {:induction false} ClosedWith(groups: Groups, g: Group)
    requires Closed(groups) && RuleTargets(g.expansions) <= groups.Keys
    ensures Closed(groups[g.name := g])
  {
    var groups' := groups[g.name := g];
    forall n, t | Edge(RuleGraph(groups'), n, t) ensures t in groups' {
      if n != g.name {
        assert Edge(RuleGraph(groups), n, t);
      }
    }
  }

  lemma {:induction false} ClosedWithout(groups: Groups, name: Name)
    requires Closed(groups)
    ensures Unnamed(groups - {name}, name) ==> Closed(groups - {name})
  {
    var groups' := groups - {name};
    forall n, t | Edge(RuleGraph(groups'), n, t) ensures t in groups {
      assert Edge(RuleGraph(groups), n, t);
    }
  }

  /** What deleting a group leaves: a good store, whose rules are the old ones less those of the group; they are
      closed when none of them names the group. */
  lemma {:induction false} DeletionInOrder(groups: Groups, name: Name)
    requires Good(groups) && Closed(groups)
    ensures Good(groups - {name}) && RulesOf(groups - {name}) == RulesOf(groups) - {name}
    ensures Unnamed(groups - {name}, name) <==> NamedByNone(RulesOf(groups) - {name}, name)
    ensures Unnamed(groups - {name}, name) ==> Closed(groups - {name})
  {
    RulesOfDel(groups, name);
    StillGood(groups, name);
    UnnamedInRules(groups - {name}, name);
    ClosedWithout(groups, name);
  }

  lemma {:induction false} StillGood(groups: Groups, name: Name)
    requires Good(groups)
    ensures Good(groups - {name})
  {
    SubgraphGood(groups, groups - {name});
  }
}

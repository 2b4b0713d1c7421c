/** Whole runs of the manager: when all the rules that a run ever makes respect one ranking of the groups, every
    repair comes to an end, and store and resolver stay in order throughout. */
module ManagerRuns {
  import opened Outcomes
  import opened Digraph
  import opened BoolFilter
  import opened Text
  import opened StringSlices
  import opened Membership
  import opened Resolution
  import opened Resolver
  import opened Expansions
  import opened HookChains
  import opened GroupHooks
  import opened RuleRuns
  import EntityHooks
  import opened Manager
  import opened Startup

  /** What callers ask of the manager. */
  datatype Call =
    | CreateGroup(rq: Request)
    | DestroyGroup(name: Name)
    | ModifyRules(rq: Request)
    | EditGroup(chain: string, rq: Request)
    | UpdateGroupMeta(rq: Request)
    | CreateEntity(erq: EntityHooks.EntityRequest)
    | DestroyEntity(erq: EntityHooks.EntityRequest)
    | EditEntity(chain: string, erq: EntityHooks.EntityRequest)

  /** The stored groups after a call. */
  ghost function After(edits: GroupEdits, groups: Groups, c: Call): Groups {
    match c
    case CreateGroup(rq) => Apply(groups, Create(rq))
    case DestroyGroup(name) => groups - {name}
    case ModifyRules(rq) => Apply(groups, Modify(rq))
    case EditGroup(chain, rq) => if chain in EDITS then Apply(groups, Edit(rq, edits.edit(EDITS[chain]))) else groups
    case UpdateGroupMeta(rq) => Apply(groups, Merge(rq, edits.merge))
    case _ => groups
  }

  ghost function AfterAll(edits: GroupEdits, groups: Groups, calls: seq<Call>): Groups {
    if calls == [] then groups
    else After(edits, AfterAll(edits, groups, calls[..|calls| - 1]), calls[|calls| - 1])
  }

  /** The target of each stored rule ranks below the group that has the rule. */
  ghost predicate RulesRanked(groups: Groups, rank: Name -> int) {
    forall n, t :: Edge(RuleGraph(groups), n, t) ==> rank(t) < rank(n)
  }

  /** What a caller has to see to: requests are well-formed, rules that are added or merged have targets that rank
      below the group, merged rules name stored groups, and no stored rule names a group that is destroyed. */
  ghost predicate Respects(groups: Groups, rank: Name -> int, c: Call) {
    match c
    case CreateGroup(rq) => AllRequests(rq.expansions)
    case DestroyGroup(name) => Unnamed(groups - {name}, name)
    case ModifyRules(rq) => AllRequests(rq.expansions) && RequestRanked(rq, rank)
    case EditGroup(chain, rq) => chain in EDITS && AllRequests(rq.expansions)
    case UpdateGroupMeta(rq) => MergeRanked(groups, rq, rank)
    case EditEntity(chain, _) => chain in EntityHooks.EDITS
    case _ => true
  }

  ghost predicate RequestRanked(rq: Request, rank: Name -> int) {
    forall i :: 0 <= i < |rq.expansions| && ':' in rq.expansions[i] && !IsDrop(rq.expansions[i])
      ==> rank(AfterColon(rq.expansions[i])) < rank(rq.name)
  }

  ghost predicate MergeRanked(groups: Groups, rq: Request, rank: Name -> int) {
    forall e :: e in rq.expansions ==>
      IsRule(e) && ':' in e && AfterColon(e) in groups && rank(AfterColon(e)) < rank(rq.name)
  }

  ghost predicate AllRespect(edits: GroupEdits, groups: Groups, rank: Name -> int, calls: seq<Call>) {
    calls != [] ==>
      var init, last := calls[..|calls| - 1], calls[|calls| - 1];
      AllRespect(edits, groups, rank, init) && Respects(AfterAll(edits, groups, init), rank, last)
  }

  /** Store and resolver are in order, and every reverse edge, also of a rule since dropped, respects the ranking. */
  ghost predicate Ordered(m: Manager, rank: Name -> int)
    reads m, m.resolver
  {
    m.Valid() && m.Ready() && Ranked(m.resolver.ga, rank)
  }

  // ----- the ranking is kept -----

  lemma {:induction false} StepKeepsRank(ga: Graph, ga': Graph, groups: Groups, rank: Name -> int)
    requires Ranked(ga, rank) && OnlyFrom(ga, ga', groups) && RulesRanked(groups, rank)
    ensures Ranked(ga', rank)
  {
  }

  lemma {:induction false} StoredRanked(m: Manager, rank: Name -> int)
    requires Ordered(m, rank)
    ensures RulesRanked(m.groups, rank)
  {
    RulesGraph(m.groups);
    forall n, t | Edge(RuleGraph(m.groups), n, t) ensures rank(t) < rank(n) {
      assert Edge(Deps(m.resolver.gc), n, t);
      assert Edge(m.resolver.ga, t, n);
    }
  }

  lemma {:induction false} FewerRulesRanked(groups: Groups, groups': Groups, rank: Name -> int)
    requires RulesRanked(groups, rank)
    requires forall n :: n in groups' ==>
               groups'[n].expansions == [] || (n in groups && groups'[n].expansions == groups[n].expansions)
    ensures RulesRanked(groups', rank)
  {
    forall n, t | Edge(RuleGraph(groups'), n, t) ensures rank(t) < rank(n) {
      assert Edge(RuleGraph(groups), n, t);
    }
  }

  lemma {:induction false} ModifiedRanked(groups: Groups, rq: Request, rank: Name -> int)
    requires Good(groups) && Closed(groups) && RulesRanked(groups, rank)
    requires AllRequests(rq.expansions) && RequestRanked(rq, rank)
    ensures RulesRanked(Apply(groups, Modify(rq)), rank)
  {
    ModifyEffect(groups, rq);
    if Accepted(groups, rq) {
      SavedRanked(groups, rq, rank);
      OneGroupRanked(groups, Modified(groups, rq)[rq.name], rank);
    }
  }

  lemma {:induction false} SavedRanked(groups: Groups, rq: Request, rank: Name -> int)
    requires Good(groups) && Closed(groups) && RulesRanked(groups, rank)
    requires AllRequests(rq.expansions) && RequestRanked(rq, rank) && Accepted(groups, rq)
    ensures forall t :: t in RuleTargets(SavedExpansions(groups, rq)) ==> rank(t) < rank(rq.name)
  {
    AcceptedTargets(groups, rq);
  }

  lemma {:induction false} OneGroupRanked(groups: Groups, g: Group, rank: Name -> int)
    requires RulesRanked(groups, rank)
    requires forall t :: t in RuleTargets(g.expansions) ==> rank(t) < rank(g.name)
    ensures RulesRanked(groups[g.name := g], rank)
  {
    var groups' := groups[g.name := g];
    forall n, t | Edge(RuleGraph(groups'), n, t) ensures rank(t) < rank(n) {
      if n != g.name {
        assert Edge(RuleGraph(groups), n, t);
      }
    }
  }

  lemma {:induction false} MergedRanked(groups: Groups, rq: Request, merge: (Request, Group) -> Group, rank: Name -> int)
    requires Good(groups) && RulesRanked(groups, rank)
    requires AllRequests(rq.expansions) && MergeRanked(groups, rq, rank)
    ensures RulesRanked(Apply(groups, Merge(rq, merge)), rank)
  {
    MergeEffect(groups, rq, merge);
    if rq.name in groups {
      var g := MergeRecord(merge, rq, groups[rq.name]);
      forall e | e in g.expansions && ':' in e ensures rank(AfterColon(e)) < rank(g.name) {
        if e in groups[rq.name].expansions {
          RuleEdge(groups, rq.name, e);
        }
      }
      OneGroupRanked(groups, g, rank);
    }
  }

  lemma {:induction false} RulesAreRequests(groups: Groups, rq: Request, rank: Name -> int)
    requires MergeRanked(groups, rq, rank)
    ensures AllRequests(rq.expansions)
  {
  }

  /** After a call that respects the ranking, the stored rules still do. */
  lemma {:induction false} AfterRanked(edits: GroupEdits, groups: Groups, rank: Name -> int, c: Call)
    requires Good(groups) && Closed(groups) && RulesRanked(groups, rank) && Respects(groups, rank, c)
    ensures RulesRanked(After(edits, groups, c), rank)
  {
    match c
    case CreateGroup(rq) =>
      CreateEffect(groups, rq);
      FewerRulesRanked(groups, After(edits, groups, c), rank);
    case DestroyGroup(name) =>
      FewerRulesRanked(groups, groups - {name}, rank);
    case ModifyRules(rq) =>
      ModifiedRanked(groups, rq, rank);
    case EditGroup(chain, rq) =>
      EditEffect(groups, rq, edits.edit(EDITS[chain]));
      FewerRulesRanked(groups, After(edits, groups, c), rank);
    case UpdateGroupMeta(rq) =>
      RulesAreRequests(groups, rq, rank);
      MergedRanked(groups, rq, edits.merge, rank);
    case _ =>
  }

  // ----- a ranked call may be made -----

  lemma {:induction false} RankedIsClear(ga: Graph, rq: Request, rank: Name -> int)
    requires Ranked(ga, rank) && RequestRanked(rq, rank)
    ensures NewTargetsClear(ga, rq)
  {
    forall i | 0 <= i < |rq.expansions| && ':' in rq.expansions[i] && !IsDrop(rq.expansions[i])
      ensures AfterColon(rq.expansions[i]) !in Closure(ga, rq.name)
    {
      LowerIsClear(ga, rank, rq.name, AfterColon(rq.expansions[i]));
    }
  }

  lemma {:induction false} RankedMayMerge(m: Manager, rq: Request, rank: Name -> int)
    requires Ordered(m, rank) && MergeRanked(m.groups, rq, rank)
    ensures m.MayMerge(rq)
  {
    forall e | e in rq.expansions ensures AfterColon(e) !in Closure(m.resolver.ga, rq.name) {
      LowerIsClear(m.resolver.ga, rank, rq.name, AfterColon(e));
    }
  }

  method PerformModify(m: Manager, rq: Request, ghost rank: Name -> int)
    requires m.Valid() && m.Ready() && Ranked(m.resolver.ga, rank)
    requires AllRequests(rq.expansions) && RequestRanked(rq, rank)
    modifies m`groups, m.resolver`gc, m.resolver`gt, m.resolver`gr, m.resolver`gs, m.resolver`ga
    ensures m.Valid()
    ensures OnlyFrom(old(m.resolver.ga), m.resolver.ga, m.groups)
    ensures m.groups == Apply(old(m.groups), Modify(rq))
  {
    RankedIsClear(m.resolver.ga, rq, rank);
    m.ClearRepairEnds(rq);
    var _ := m.ModifyRules(rq);
  }

  method PerformMerge(m: Manager, rq: Request, ghost rank: Name -> int)
    requires Ordered(m, rank) && MergeRanked(m.groups, rq, rank)
    modifies m`groups, m.resolver`gc, m.resolver`gt, m.resolver`gr, m.resolver`gs, m.resolver`ga
    ensures m.Valid()
    ensures OnlyFrom(old(m.resolver.ga), m.resolver.ga, m.groups)
    ensures m.groups == Apply(old(m.groups), Merge(rq, m.edits.merge))
  {
    RulesAreRequests(m.groups, rq, rank);
    RankedMayMerge(m, rq, rank);
    var _ := m.UpdateGroupMeta(rq);
  }

  /** A call that touches groups. */
  method PerformOnGroups(m: Manager, c: Call, ghost rank: Name -> int)
    requires m.Valid() && m.Ready() && Ranked(m.resolver.ga, rank)
    requires Respects(m.groups, rank, c)
    requires c.CreateGroup? || c.DestroyGroup? || c.ModifyRules? || c.EditGroup? || c.UpdateGroupMeta?
    modifies m`groups, m.resolver`gc, m.resolver`gt, m.resolver`gr, m.resolver`gs, m.resolver`ga
    ensures m.Valid()
    ensures OnlyFrom(old(m.resolver.ga), m.resolver.ga, m.groups)
    ensures m.groups == After(m.edits, old(m.groups), c)
  {
    match c
    case CreateGroup(rq) =>
      var _ := m.CreateGroup(rq);
    case DestroyGroup(name) =>
      var _ := m.DestroyGroup(name);
    case ModifyRules(rq) =>
      PerformModify(m, rq, rank);
    case EditGroup(chain, rq) =>
      var _ := m.EditGroup(chain, rq);
    case UpdateGroupMeta(rq) =>
      PerformMerge(m, rq, rank);
  }

  method PerformOnEntities(m: Manager, c: Call)
    requires m.Valid() && m.Ready()
    requires c.CreateEntity? || c.DestroyEntity? || (c.EditEntity? && c.chain in EntityHooks.EDITS)
    modifies m`entities, m.resolver`dm
    ensures m.Valid()
  {
    match c
    case CreateEntity(erq) =>
      var _ := m.CreateEntity(erq);
    case DestroyEntity(erq) =>
      var _ := m.DestroyEntity(erq);
    case EditEntity(chain, erq) =>
      var _ := m.EditEntity(chain, erq);
  }

  /** One call that respects the ranking: the manager stays in order and its reverse edges ranked. */
  method Perform(m: Manager, c: Call, ghost rank: Name -> int)
    requires Ordered(m, rank) && Respects(m.groups, rank, c)
    modifies m`groups, m`entities, m.resolver`dm,
             m.resolver`gc, m.resolver`gt, m.resolver`gr, m.resolver`gs, m.resolver`ga
    ensures Ordered(m, rank)
    ensures m.groups == After(m.edits, old(m.groups), c)
  {
    if c.CreateGroup? || c.DestroyGroup? || c.ModifyRules? || c.EditGroup? || c.UpdateGroupMeta? {
      StoredRanked(m, rank);
      AfterRanked(m.edits, m.groups, rank, c);
      ghost var before := m.resolver.ga;
      PerformOnGroups(m, c, rank);
      StepKeepsRank(before, m.resolver.ga, m.groups, rank);
    } else {
      PerformOnEntities(m, c);
    }
  }

  /** A whole run of calls that respect one ranking: each of them comes to an end, the stored groups are those that
      the calls make one after the other, and at the end - as after every call - store and resolver are in order. */
  method Run(m: Manager, calls: seq<Call>, ghost rank: Name -> int)
    requires Ordered(m, rank) && AllRespect(m.edits, m.groups, rank, calls)
    modifies m`groups, m`entities, m.resolver`dm,
             m.resolver`gc, m.resolver`gt, m.resolver`gr, m.resolver`gs, m.resolver`ga
    ensures Ordered(m, rank)
    ensures m.groups == AfterAll(m.edits, old(m.groups), calls)
    decreases |calls|
  {
    if calls != [] {
      var last := calls[|calls| - 1];
      Run(m, calls[..|calls| - 1], rank);
      Perform(m, last, rank);
    }
  }

  /** A run on a manager just started over a store whose rules respect the ranking. For every acyclic store there
      is such a ranking. */
  method StartAndRun(tight: BoolFilter.Op, edits: GroupEdits, entityEdits: EntityHooks.EntityEdits,
                     groups: Groups, entities: Entities, calls: seq<Call>, ghost rank: Name -> int)
    returns (m: Manager)
    requires Good(groups) && Closed(groups) && forall id :: id in entities ==> entities[id].id == id
    requires RulesRanked(groups, rank) && AllRespect(edits, groups, rank, calls)
    ensures fresh(m) && fresh(m.resolver) && Ordered(m, rank)
    ensures m.groups == AfterAll(edits, groups, calls)
  {
    m := Start(tight, edits, entityEdits, groups, entities);
    TurnedRanked(groups, m.resolver.ga, rank);
    Run(m, calls, rank);
  }

  lemma {:induction false} TurnedRanked(groups: Groups, ga: Graph, rank: Name -> int)
    requires RulesRanked(groups, rank) && Subgraph(ga, Turned(RuleGraph(groups)))
    ensures Ranked(ga, rank)
  {
    TurnedEdges(RuleGraph(groups));
  }

  /** Every acyclic store has a ranking that its rules respect, and only those have one. */
  lemma {:induction false} RankingExists(groups: Groups)
    requires WellFormed(groups)
    ensures Good(groups) <==> exists rank :: RulesRanked(groups, rank)
  {
    var turned := Turned(RuleGraph(groups));
    TurnedEdges(RuleGraph(groups));
    if Good(groups) {
      ReversedAcyclic(turned, RuleGraph(groups));
      var rank := Ranking(turned);
      forall n, t | Edge(RuleGraph(groups), n, t) ensures rank(t) < rank(n) {
        assert Edge(turned, t, n);
      }
      assert RulesRanked(groups, rank);
    }
    if rank :| RulesRanked(groups, rank) {
      TurnedRanked(groups, turned, rank);
      RankedReaches(turned, rank);
      ReversedAcyclic(RuleGraph(groups), turned);
    }
  }
}

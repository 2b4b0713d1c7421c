# NetAuth: group membership, rules and their neighbours, verified

NetAuth answers "who is in this group?" and "which groups is this entity in?" for groups that include and
exclude one another. This project models the parts of the server that decide those answers, and proves what
they keep.

* **The membership resolver** (`MResolver.dfy`, with `Resolution.dfy`, `Membership.dfy` and `BoolFilter.dfy`).
  A class with the source's mutable maps. `Resolve` compiles nested include and exclude rules into a flat list
  of boolean tokens, splicing in cached lists and recursing on a cache miss. `SyncGroup` and `ResolveChanges`
  repair the caches in place, depth first over reverse dependencies and not in topological order. The main
  results: a flattened list means what the recursive definition says, however a boolean parser reads it; and
  after every call every cached list of a group whose rules are known is the one a resolution from scratch
  would give.
* **The stored rules** (`Expansions.dfy`, `GroupHooks.dfy`, `RuleRuns.dfy`). The cycle check searches without a
  visited set, so that it terminates because of the invariant it protects. Over every run of group operations the
  stored graph of rules stays acyclic exactly when no step asks for a self rule or merges rules that close a cycle.
* **Chains of hooks** (`HookChains.dfy`, `GroupHooks.dfy`, `EntityHooks.dfy`, `Startup.dfy`). Chains are sorted by
  priority with an unstable sort. The outcome of a default chain does not depend on what the sort does with ties;
  which error a failing chain reports does, in two cases that are characterised exactly.
* **The manager** (`Manager.dfy`, `ManagerRuns.dfy`). Store, events, chains and resolver as one state machine. In every state that
  its operations reach, the resolver holds what the stored records say, so listings of members, of memberships
  and of capabilities are those of the recursive definition worked out on the stored records. Every run whose rules
  respect one ranking of the groups stays in such states from start-up on.
* **Metadata** (`StringSlices.dfy`, `ParseKV.dfy`, `KV2.dfy`, `IndexOrder.dfy`). The algebra of key/value string
  slices, indexed keys from the server's slice to the client's parser, and the typed list that acts as a map.
* **The rate limiter** (`Fail2Lock.dfy`). No window of the configured length lets more attempts through than allowed.

`Digraph.dfy` holds the graph theory behind all termination arguments, `Text.dfy` strings and string order, and
`Outcomes.dfy` the result types. `dafny verify dfyconfig.toml` checks everything.

## What the code does not do

Some laws that the code or its comments suggest do not hold of the code. The model follows the code; the members
named say where a law fails and under which exact condition it holds.

* The cycle check compares only what lies below a proposed target with the group. A rule from a group to itself
  is accepted (`RuleRuns.SelfRuleAccepted`, `RuleRuns.SingleRuleKeepsAcyclic`).
* Reverse dependencies are never withdrawn when a rule is dropped. Once A has named B, dropping that rule and
  letting B name A leaves two groups that repair each other for ever, although the rules are acyclic
  (`Resolution.OppositeRulesNeverEnd`). `Resolution.CascadeEnds` says exactly when the repair ends. That condition
  speaks of the history of the rules; a caller who makes rules only from groups that rank higher to groups that rank
  lower, by any one ranking, never violates it (`ManagerRuns.Run`).
* Removing a group that others still name forgets which groups depend on it. When it is created again, a dependant
  is out of date exactly when the tokens of the group are not the old ones (`Resolution.RecreatedGroupMissed`,
  `Resolution.RecreatedGroupExample`).
* Merging metadata appends any rules that the update carries, unchecked (`RuleRuns.MergeKeepsAcyclic`,
  `RuleRuns.MergeClosesCycle`).
* The READ and CLEARFUZZY modes split a slice exactly when the kept entries are distinct and non-empty, as clearing
  also removes duplicates (`StringSlices.ReadAndClearSplit`, `StringSlices.DuplicateBreaksSplit`).
* Values upserted under the indices of a key come back as written exactly when nothing is left over that the client
  takes for an entry of the key; writing fewer values than before leaves such entries
  (`ParseKV.IndexedValuesSurvive`, `ParseKV.FewerValuesLeaveTail`).
* An upsert under a key that has a colon leaves no entry that reads back under the key (`StringSlices.UpsertUnique`).
* The comment in `parseKV` says that an index which does not parse leaves -1. The code uses the value that the
  failed conversion returns, which for an index out of range is the largest integer, so that such indices tie
  (`ParseKV.IndexReadBack`).
* Which error a chain reports can depend on the order of hooks of equal priority; whether it fails cannot
  (`GroupHooks.ErrorsSettledExactly`, `GroupHooks.ErrorDependsOnOrder`, `EntityHooks.ErrorsSettledExactly`,
  `EntityHooks.ErrorDependsOnOrder`).

## Model

| member | source | states |
|---|---|---|
| `Membership.FlatteningPreservesMeaning` | internal/mresolver/memberships.go:115-183 | for any nesting depth and any direct groups, every parse tree of the flattened list has the truth value of the recursive definition: direct or some include holds, and no exclude holds |
| `Membership.EmitIsExpression` | internal/mresolver/memberships.go:115-177 | splicing lists that are balanced expressions without a level that mixes AND and OR gives another such list |
| `Membership.ReadingsAgree` | internal/mresolver/memberships.go:178-183 | whichever of AND and OR binds tighter, and however equal operators associate, all readings of an emitted list agree |
| `Membership.EmitValue` | internal/mresolver/memberships.go:115-177 | the value of an emitted list, from the values of the lists spliced into it |
| `Membership.ExpressionsParse` | internal/mresolver/memberships_test.go:84-91 | the filter parser accepts every emitted list under either precedence and yields a tree with that value |
| `BoolFilter.NewFromTokensParses` | internal/mresolver/memberships.go:178 | the parser accepts exactly the token lists that spell some parse tree, and returns a tree that spells the list |
| `BoolFilter.ChainUnique` | internal/mresolver/memberships.go:178 | a token list has one tree up to the grouping of operators inside a parenthesis level |
| `BoolFilter.GroupingIrrelevant` | internal/mresolver/memberships_test.go:112-116 | where no level mixes operators, all groupings have the same value |
| `Resolver.MResolver.constructor` | internal/mresolver/resolver.go:10-22 | an empty resolver satisfies the invariant |
| `Resolver.MResolver.Resolve` | internal/mresolver/memberships.go:104-186 | what a resolution leaves in the token cache, on success and on failure, and that the three caches stay in step; it ends when the rules that lead to uncached groups are acyclic |
| `Resolver.MResolver.SpliceIncluded` | internal/mresolver/memberships.go:122-148 | the include loop resolves what the cache misses, stops at the first failure and appends the tokens of every include |
| `Resolver.MResolver.SpliceExcluded` | internal/mresolver/memberships.go:150-177 | the same of the exclude loop |
| `Resolver.MResolver.Store` | internal/mresolver/memberships.go:178-183 | expression, tokens and filter set are overwritten together |
| `Resolver.MResolver.ResolveChanges` | internal/mresolver/memberships.go:71-79 | terminates on acyclic reverse dependencies, and leaves out of date only groups that were and that the group does not affect |
| `Resolver.MResolver.AddAffectors` | internal/mresolver/memberships.go:43-64 | exactly the reverse edges of the rules are added |
| `Resolver.MResolver.SyncGroup` | internal/mresolver/memberships.go:32-68 | incremental repair is exact: afterwards every group whose rules are known is again up to date, the order of repairs notwithstanding |
| `Resolver.MResolver.RemoveGroup` | internal/mresolver/memberships.go:85-98 | the new state of all maps, and that the invariant survives if and only if no remaining rule names the group |
| `Resolver.MResolver.SyncDirectGroups` | internal/mresolver/memberships.go:9-18 | the direct groups of the entity become exactly those listed |
| `Resolver.MResolver.RemoveEntity` | internal/mresolver/memberships.go:22-26 | only the entity's direct groups are forgotten |
| `Resolver.MResolver.MembersOfGroup` | internal/mresolver/memberships.go:190-198 | lists each entity for which the group's expression holds, once; for a known group these are its members by definition |
| `Resolver.MResolver.GroupsForEntity` | internal/mresolver/memberships.go:202-210 | lists a group for an entity exactly when the entity is listed for the group, and by definition for known groups |
| `Resolver.MResolver.ExpressionIsMembership` | internal/mresolver/type.go:23-30 | under the invariant the cached expression of a known group decides membership |
| `Resolution.ResolveEffect` | internal/mresolver/memberships.go:104-186 | whatever a resolution caches on the way lies below the group and is up to date |
| `Resolution.ResolveSucceeds` | internal/mresolver/memberships.go:104-111 | a resolution succeeds exactly when every branch meets a cached or a rule-free group before an undescribed one |
| `Resolution.ResolveRepairs` | internal/mresolver/memberships.go:71-79 | a resolution can put out of date only groups that name the resolved one, and leaves that one up to date |
| `Resolution.FreshIsFlat` | internal/mresolver/memberships.go:32-68 | when every known group is built from its targets' current lists, each list is the one a resolution from scratch gives, whatever came before |
| `Resolution.CacheDecidesMembership` | internal/mresolver/memberships.go:202-210 | and the expression parsed from it decides membership |
| `Resolution.SyncDisturbs` | internal/mresolver/memberships.go:32-68 | new rules put out of date only the group and what its reverse edges reach |
| `Resolution.SyncKeepsAcyclic` | internal/mresolver/memberships.go:51-64 | taking in rules keeps the reverse edges acyclic if and only if no target is the group or affected by it, now or through a rule since dropped |
| `Resolution.CascadeEnds` | internal/mresolver/memberships.go:32-79 | the cascade that repairs the caches after new rules comes to an end if and only if no target is the group or affected by it |
| `Resolution.OppositeRulesNeverEnd` | internal/mresolver/memberships.go:51-79 | a rule dropped and then added the other way round makes the cascade endless, though the rules are acyclic |
| `Resolution.RemovalReverses` | internal/mresolver/memberships.go:85-98 | after a removal every remaining rule has its reverse edge if and only if none names the removed group |
| `Resolution.RecreatedGroupMissed` | internal/mresolver/memberships.go:85-98 | any group that named a removed one is, once known again, out of date if and only if the tokens of the group described anew differ from the old ones; the cascade no longer leads to it |
| `Resolution.StaleExactly` | internal/mresolver/memberships.go:71-79 | after any number of resolutions of one group, a group that names it is out of date exactly when its tokens changed |
| `Resolution.RecreatedGroupExample` | internal/mresolver/memberships.go:85-98 | three groups and rules on which that happens |
| `Membership.EmitTells` | internal/mresolver/memberships.go:115-177 | an emitted list determines the list of each group spliced into it, the others being the same |
| `Digraph.DescentEndsIffNoCycle` | internal/mresolver/memberships.go:71-79 | a depth-first cascade that remembers nothing ends if and only if no cycle can be reached |
| `Digraph.GrowAcyclic` | internal/tree/hooks/check-expansion-cycle.go:24-42 | adding edges out of one node keeps a graph acyclic if and only if no new target is that node or led to it before |
| `Expansions.CycleCheckExact` | internal/tree/hooks/check-expansion-cycle.go:48-67 | on acyclic rules the recursive search ends and answers yes exactly when the candidate is reachable or a reachable target is missing |
| `Expansions.CyclesPass` | internal/tree/hooks/check-expansion-cycle.go:24-42 | a request passes exactly when each new target exists, does not lead to the group and leads to existing groups only |
| `Expansions.PatchGroupExpansions` | internal/tree/hooks/patch-group-expansions.go:24-41 | the new rules as a sorted listing without duplicates of the set that the requests make, one after the other |
| `Expansions.PatchSpecFrom` | internal/tree/hooks/patch-group-expansions.go:24-41 | a patch invents no rules |
| `RuleRuns.AcceptedKeepsAcyclic` | internal/tree/defaults.go:168-175 | an accepted request of any number of rules keeps the store acyclic if and only if no resulting rule of the group names the group |
| `RuleRuns.RequestKeepsAcyclic` | internal/tree/defaults.go:168-175 | the same told from the request alone: if and only if it does not propose a self rule that no later drop of the request takes out |
| `RuleRuns.PatchedExactly` | internal/tree/hooks/patch-group-expansions.go:24-41 | which rules a patch leaves: the old ones that nothing in the request drops, and the proposed ones that nothing later drops, drops matching substrings |
| `RuleRuns.AcceptedExactly` | internal/tree/defaults.go:168-175 | a request is accepted exactly when its group is stored and every proposed rule has a stored target that occurs in no rule of the group, does not lead to it and leads to stored groups only; drops are not looked at |
| `RuleRuns.SavedExactly` | internal/tree/hooks/patch-group-expansions.go:24-41 | which strings are stored afterwards |
| `RuleRuns.SavedInOrder` | internal/tree/hooks/patch-group-expansions.go:24-41 | sorted, each once after any change, and as often as before after none |
| `RuleRuns.DropExactly` | internal/tree/hooks/check-immediate-expansions.go:24-39 | a drop is accepted for every stored group, and takes out the rules that contain the target |
| `RuleRuns.AddExactly` | internal/tree/hooks/check-expansion-cycle.go:24-42 | the same of one rule that is added |
| `RuleRuns.RuleGraphSpelled` | internal/tree/hooks/check-expansion-cycle.go:48-67 | the edges of the rule graph are the stored INCLUDE and EXCLUDE strings |
| `Expansions.FirstUnsafeDecides` | internal/tree/hooks/check-expansion-cycle.go:24-42 | the first unsafe rule of a request decides the error: a missing target, or a cycle |
| `RuleRuns.SingleRuleKeepsAcyclic` | internal/tree/membership.go:73-80 | for one rule a caller can tell beforehand: if and only if it is a drop or names another group |
| `RuleRuns.SelfRuleAccepted` | internal/tree/hooks/check-expansion-cycle.go:33-52 | a rule that names its own group is refused only if an existing rule of the group contains the name or leads to a missing group; accepted, it breaks acyclicity |
| `RuleRuns.SelfRuleSlipsThrough` | internal/tree/hooks/check-expansion-cycle.go:33-52 | a concrete store and request on which that breaks acyclicity |
| `RuleRuns.MergeKeepsAcyclic` | internal/tree/hooks/merge-group-meta.go:21-31 | the store stays well-formed and acyclic if and only if each carried rule is one whose target neither is the group nor leads to it |
| `RuleRuns.MergeClosesCycle` | internal/tree/hooks/merge-group-meta.go:21-31 | a merge that breaks it, on any group |
| `RuleRuns.DropUndoes` | internal/tree/hooks/check-immediate-expansions.go:24-39 | dropping the target of a rule just accepted restores the rules, although drops match substrings |
| `RuleRuns.ApplyKeepsGood` | internal/tree/group-chains.go:115-127 | every group operation, merges with rules included, accepted or refused, keeps the store well-formed and acyclic if and only if it is safe |
| `RuleRuns.RunsStayAcyclic` | internal/tree/defaults.go:122-191 | over every run the store is acyclic after each step if and only if each step is safe where it is made |
| `RuleRuns.ProperRunsStayAcyclic` | internal/tree/defaults.go:122-191 | so runs of requests that never name their own group and merge no rules keep it acyclic |
| `RuleRuns.CreateEffect` | internal/tree/group.go:17-27 | when a group is created and what is stored, and otherwise which error is reported |
| `GroupHooks.ModifyEffect` | internal/tree/defaults.go:168-175 | a request to change rules is taken as a whole or refused as a whole, and touches one group's rules |
| `GroupHooks.DefaultTiesCommute` | internal/tree/defaults.go:122-191 | in a default group chain hooks of equal priority commute, failures included |
| `GroupHooks.ChainsDeterministic` | internal/tree/group-chains.go:81-93 | any two priority orders of a default group chain fail together, or succeed with the same record and the same store |
| `GroupHooks.ErrorsSettledExactly` | internal/tree/defaults.go:122-191 | all priority orders of a default group chain report the same, error included, if and only if it is not the case that the chain changes rules of a stored group and one check finds an existing rule or a cycle and another a missing group |
| `GroupHooks.ErrorDependsOnOrder` | internal/tree/hooks/check-immediate-expansions.go:24-39 | a single rule on which two orders of the chain report different errors |
| `GroupHooks.RegisteredChain` | internal/tree/defaults.go:122-191 | a registered chain does what any priority order of the default table does, writes only at its end, and but for the chain that changes rules reports the same error |
| `GroupHooks.CreateInOrder` | internal/tree/defaults.go:123-130 | the creation chain in priority order is a reordering of the default table |
| `HookChains.OutcomeSettled` | internal/tree/group-chains.go:115-127 | where ties commute, the outcome of a chain depends only on which hooks are in it |
| `HookChains.ReportSettled` | internal/tree/group-chains.go:115-127 | where ties commute in their errors too, so does the error reported |
| `HookChains.MoveToFront` | internal/tree/group-chains.go:115-127 | a hook that commutes with all before it may run first |
| `HookChains.OrdersKeepLast` | internal/tree/group-chains.go:81-93 | a chain that writes only at its end still does so in every order the sort may give |
| `HookChains.HookTable.SortByPriority` | internal/tree/group-chains.go:88-90 | a priority-sorted permutation, ties left open |
| `HookChains.HookTable.RegisterHookToChain` | internal/tree/group-chains.go:81-93 | adds exactly the named hook to exactly the named chain, kept sorted; unknown names change nothing |
| `HookChains.HookTable.InitializeChains` | internal/tree/group-chains.go:68-78 | builds every chain of a table, in any order of the table, each as some priority order of its hooks |
| `EntityHooks.EntityChainsDeterministic` | internal/tree/entity-chains.go:81-96 | any two priority orders of a default entity chain fail together, or succeed with the same record and the same store |
| `EntityHooks.ErrorsSettledExactly` | internal/tree/defaults.go:4-115 | all priority orders of a default entity chain report the same if and only if it is not the creation of an entity with a free id, no number to be had and a secret that cannot be secured |
| `EntityHooks.ErrorDependsOnOrder` | internal/tree/defaults.go:5-11 | then two orders report different errors |
| `EntityHooks.DefaultTiesCommute` | internal/tree/defaults.go:4-115 | in a default entity chain hooks of equal priority commute, although setters may fail |
| `EntityHooks.CreateSettled` | internal/tree/entity.go:22-31 | when an entity is created and what is stored, whatever order the chain was registered in |
| `EntityHooks.EditEffect` | internal/tree/defaults.go:23-28 | an editing chain changes the one record it loaded, or nothing |
| `EntityHooks.EditSettled` | internal/tree/entity-chains.go:81-127 | whatever order it was registered in |
| `EntityHooks.ValidateEffect` | internal/tree/hooks/validate-entity-unlocked.go:18-25 | what the chain that checks an identity does and reports |
| `EntityHooks.SetSecretEffect` | internal/tree/hooks/set-entity-secret.go:20-27 | what the chain that sets a secret does and reports |
| `Startup.InitializeGroupChains` | internal/tree/defaults.go:122-191 | the thirteen default group chains are built, each in some priority order of its hooks |
| `Startup.InitializeEntityChains` | internal/tree/defaults.go:4-121 | the same of the twenty default entity chains |
| `Startup.Start` | internal/tree/manager.go:18-58 | over any store whose rules are acyclic and closed, start-up and preload lead to a manager in order, with all default chains registered |
| `Manager.Manager.EventUpdateAll` | internal/db/callback.go:33-50 | load-order independence: in whatever order records are announced, the whole token cache ends as that of the stored rules, and the reverse edges come from stored rules |
| `Manager.Manager.CacheFollowsStore` | internal/mresolver/memberships.go:32-79 | in every state in order, after any history, the token cache is a function of the stored rules alone |
| `Manager.FreshCache` | internal/mresolver/memberships.go:32-79 | an up-to-date cache over stored groups is exactly their from-scratch flattening |
| `Manager.AffectedWithinRules` | internal/db/callback.go:43-48 | while stored groups are announced the reverse edges stay within the turned rule graph, so acyclic |
| `Manager.Manager.EntityResolverCallback` | internal/tree/entity.go:309-325 | which event makes the resolver learn or forget which direct groups |
| `Manager.Manager.TargetsByMode` | internal/tree/group.go:203-207 | the parsed targets, per kind and in order |
| `Manager.ParsedTargets` | internal/tree/group.go:203-208 | parsing loses and invents no target |
| `Manager.ParsedKinds` | internal/tree/group.go:202-207 | a group is parsed as including exactly the targets of its stored INCLUDE strings, and as excluding exactly those of its EXCLUDE strings |
| `Manager.TargetsAppend` | internal/tree/group.go:202-206 | each stored rule adds its target at the end of the list of its kind and to no other |
| `Manager.StoredMemberUnfolds` | internal/tree/group.go:192-213 | membership on the stored strings: listed directly or a member of a group that a stored rule includes, and a member of none that one excludes |
| `Manager.Manager.SyncStoredGroup` | internal/tree/group.go:195-208 | a stored group reaches the resolver with its rules as parsed |
| `Manager.Manager.SaveEntity` | internal/db/memory/memory.go:56-75 | saving an entity leaves store and resolver in agreement |
| `Manager.Manager.DeleteEntity` | internal/db/memory/memory.go:91-110 | so does deleting one |
| `Manager.Manager.SaveGroup` | internal/db/memory/memory.go:56-75 | saving a group whose rules fit leaves store and resolver in agreement and every cache exact |
| `Manager.Manager.DeleteGroup` | internal/db/memory/memory.go:91-110 | deleting a group leaves store and resolver in agreement, and all in order if and only if no remaining rule names the group |
| `Manager.Manager.RunGroupChain` | internal/tree/group-chains.go:115-127 | a chain has the effect of all its hooks, or reports the first error and leaves the store untouched |
| `Manager.Manager.RunEntityChain` | internal/tree/entity-chains.go:115-127 | the same of entity chains |
| `Manager.Manager.CreateGroup` | internal/tree/group.go:17-27 | succeeds exactly for a new name with a usable managing group, with that record and no rules, and otherwise says which is wrong; store and resolver stay in agreement |
| `Manager.Manager.DestroyGroup` | internal/tree/group.go:43-50 | removes the group, succeeds exactly if it was there, and leaves all in order if and only if no remaining rule names it |
| `Manager.AcceptedTargets` | internal/tree/hooks/check-expansion-targets.go:24-36 | every rule of an accepted request names a stored group, and is new or was there |
| `Manager.Manager.AcceptedMaySave` | internal/tree/hooks/check-expansion-cycle.go:24-42 | an accepted request may be saved when the repair after it comes to an end |
| `Manager.Manager.ModifyRules` | internal/tree/defaults.go:168-175 | a request is taken as a whole exactly when each rule it proposes may be added; then the group keeps the rules that nothing in it drops and gets those proposed that nothing later drops, and no other record changes |
| `Manager.Manager.ModifyGroupExpansions` | internal/tree/membership.go:73-103 | a drop succeeds for every stored group and takes out exactly the rules that contain the child's name; a rule is added exactly when both groups are stored, no rule of the parent contains the child's name, and the child leads neither to the parent nor to a missing group; and which error is reported otherwise |
| `Manager.Manager.EditGroup` | internal/tree/group-chains.go:115-127 | the record keeps its name and its rules and gets the other fields of the edit, or nothing changes and the error is reported |
| `Manager.Manager.UpdateGroupMeta` | internal/tree/group.go:55-59 | a merge keeps name and number, appends the carried rules and merges the other fields of one record; store and resolver stay in agreement when the rules name stored groups that the merged one does not affect |
| `ManagerRuns.Perform` | internal/tree/group-chains.go:115-127 | a call whose rules respect a ranking of the groups may be made, and leaves manager and reverse edges in order |
| `ManagerRuns.Run` | internal/tree/defaults.go:122-191 | so may every run of such calls, and the stored groups are those that the calls make one after the other |
| `ManagerRuns.StartAndRun` | internal/tree/manager.go:18-58 | in particular from start-up on |
| `ManagerRuns.RankingExists` | internal/tree/hooks/check-expansion-cycle.go:24-67 | a well-formed store is acyclic if and only if its rules respect some ranking |
| `Manager.Manager.CreateEntity` | internal/tree/entity.go:22-31 | succeeds exactly for a free id with a number and a secret that can be secured, with exactly that record, in no group |
| `Manager.Manager.DestroyEntity` | internal/tree/entity.go:38-45 | removes the entity, and otherwise reports that there is none |
| `Manager.Manager.EditEntity` | internal/tree/entity-chains.go:115-127 | the chains that edit an entity change that record only, or report why not |
| `Manager.Manager.SetSecret` | internal/tree/entity.go:85-93 | stores the secured secret of a stored entity and changes nothing else, or says why not |
| `Manager.Manager.ValidateSecret` | internal/tree/entity.go:97-105 | succeeds exactly for a stored entity that is not locked and whose secret matches, the lock looked at first; the store does not change |
| `Manager.Manager.PatchDirectGroups` | internal/tree/membership.go:13-37 | runs the chain that patches the direct groups: exactly the one group is added or taken out |
| `Manager.Manager.GetMemberships` | internal/tree/membership.go:42-44 | each group of which the stored records make the entity a member, once |
| `Manager.Manager.ListMembers` | internal/tree/membership.go:48-68 | the record, with its secret redacted, of each member of the group by the recursive definition on the store, once; loading never fails |
| `Manager.Manager.GetCapabilities` | internal/rpc2/util.go:16-57 | exactly the entity's own capabilities and those of every group the recursive definition puts it in, each once |
| `Manager.Manager.ManageByMembership` | internal/rpc2/util.go:166-190 | true exactly when the group has a managing group of which the entity is a member on the stored records |
| `StringSlices.DedupStringSlice` | internal/tree/util/util.go:146-165 | the same strings, each once and none empty |
| `StringSlices.PatchStringSlice` | internal/tree/util/util.go:20-44 | the set of strings after patching in or out, exactly or by substring, each once |
| `StringSlices.PatchedSetExactly` | internal/tree/util/util.go:20-44 | which strings a patch leaves, for each kind of patch |
| `StringSlices.PatchKeyValueSlice` | internal/tree/util/util.go:49-130 | every mode computes its specification; unknown modes change nothing |
| `StringSlices.ReadEntries` | internal/tree/util/util.go:101-124 | how often a read returns each entry |
| `StringSlices.ClearFuzzyEntries` | internal/tree/util/util.go:72-87 | which entries a fuzzy clear keeps |
| `StringSlices.ClearExactEntries` | internal/tree/util/util.go:88-100 | which entries an exact clear keeps |
| `StringSlices.StripFirst` | internal/tree/util/util.go:13 | the first index of a key is taken out and the rest stripped in turn |
| `StringSlices.StripOther` | internal/tree/util/util.go:13 | a brace that begins no index stays |
| `Text.LeFirstDifference` | internal/tree/util/util.go:70 | the order of strings: a beginning comes first, otherwise the first difference decides |
| `StringSlices.UpsertEntries` | internal/tree/util/util.go:53-71 | exactly the new entry and the non-empty entries of other keys remain |
| `StringSlices.UpsertUnique` | internal/tree/util/util.go:53-71 | sorted, without duplicates, and with an entry under the key if and only if the key has no colon |
| `StringSlices.UpsertsCommute` | internal/tree/util/util.go:53-71 | upserts to different colon-free keys commute as whole slices |
| `StringSlices.LastUpsertWins` | internal/tree/util/util.go:53-71 | the last upsert to a key wins, as whole slices |
| `StringSlices.ReadAndClearSplit` | internal/tree/util/util.go:72-124 | what is read and what a fuzzy clear keeps make up the slice, if and only if the kept entries are distinct and non-empty |
| `StringSlices.DuplicateBreaksSplit` | internal/tree/util/util.go:72-124 | a duplicate under another key is such a case |
| `StringSlices.ReadAfterClear` | internal/tree/util/util.go:72-124 | nothing is read after a fuzzy clear |
| `ParseKV.ParseKV` | pkg/netauth/util.go:25-64 | told by the spelling of the entries, for any mix of keys with and without indices: a key is reported exactly when a value is given for it, and its values come in the order of their indices |
| `ParseKV.SpelledEntries` | pkg/netauth/util.go:33-46 | an entry is sorted under its key less a final index, with that index, or with none when the key does not end in one |
| `ParseKV.EveryEntrySpelled` | pkg/netauth/util.go:34-46 | every entry with a colon is one of the two |
| `ParseKV.PlainFirst` | pkg/netauth/util.go:49-53 | the values without an index come before all others of their key |
| `ParseKV.TenBeforeTwo` | internal/tree/util/util.go:121-122 | numbers are decimal, and k{10} sorts before k{2} as a string |
| `ParseKV.IndexedValuesSurvive` | internal/tree/util/util.go:113-124 | over any slice, values upserted under the indices of a key in any order come back from a read and a parse in numeric order, though the read sorts strings, if and only if no entry is left over that the client takes for one of the key; the parse is possible if and only if no leftover lacks a colon |
| `ParseKV.NothingElseRead` | pkg/netauth/util.go:25-64 | and nothing comes back under another key if and only if nothing is left over there |
| `ParseKV.FewerValuesLeaveTail` | internal/tree/util/util.go:53-71 | writing fewer values than are stored leaves the old tail, and the values do not come back as written |
| `ParseKV.ReadOfUpserts` | internal/tree/util/util.go:53-124 | after the upserts a read returns exactly the entries stored for the values and the leftovers |
| `ParseKV.IndexReadBack` | pkg/netauth/util.go:33-46 | an index is read back if and only if it is in range, never becomes -1, and two indices tie if and only if both are the largest integer or more |
| `ParseKV.StoredParses` | pkg/netauth/util.go:33-46 | the client's parse of an indexed entry gives back its key, index and value |
| `ParseKV.UpsertAllEntries` | internal/tree/util/util.go:53-71 | over any slice, a read of the key then selects exactly the entries stored for the indices and the old ones whose key was not written |
| `IndexOrder.RestoresOrder` | pkg/netauth/util.go:49-53 | sorting entries by index restores the values, whatever the sort does and however they are stored |
| `IndexOrder.UnindexedFirst` | pkg/netauth/util.go:49-53 | values without an index are sorted to the front |
| `IndexOrder.SortByIndex` | pkg/netauth/util.go:49-53 | a permutation in index order |
| `KV2.Meta.AddKey` | internal/tree/hooks/entity-kv.go:32-45 | the list acts as a map: adds a key that is new, else an error and no change |
| `KV2.Meta.DelKey` | internal/tree/hooks/entity-kv.go:49-68 | deletes a key that is there, else an error and no change |
| `KV2.Meta.ReplaceKey` | internal/tree/hooks/entity-kv.go:72-77 | replaces the values of a key that is there; the add half never fails |
| `KV2.Meta.Get` | internal/tree/entity.go:260-285 | the part of the map asked for, each entry once per request that names it, or everything |
| `KV2.AsMapAt` | internal/tree/entity.go:260-285 | the map has at each key the values listed under it |
| `KV2.AsMapWithout` | internal/tree/hooks/entity-kv.go:49-68 | dropping a key's entries drops it from the map and touches no other key |
| `KV2.NumberingAscends` | pkg/netauth/entity.go:174-181 | the client's 32-bit numbering ascends if and only if there are at most 2^31 values |
| `KV2.ValuesKeepTheirOrder` | pkg/netauth/entity.go:132-157 | however the stored values are permuted, sorting by index returns the caller's order |
| `Fail2Lock.SlidingWindow` | plugins/tree/fail2lock/main.go:69-106 | between resets, over any sequence of attempts with a clock that does not go back, no window of the interval's length has more attempts let through than allowed |
| `Fail2Lock.LetThroughExactly` | plugins/tree/fail2lock/main.go:69-106 | over any run, an attempt without a reset is let through exactly when fewer than the allowed number of those let through since the last reset or success lie within the interval |
| `Fail2Lock.VerdictExact` | plugins/tree/fail2lock/main.go:78-97 | the same of the recorded attempts |
| `Fail2Lock.ResetAsked` | plugins/tree/fail2lock/main.go:70-76 | a reset is asked for exactly when one entry only is the plugin's and its second field is the word |
| `Fail2Lock.RecordingKeepsBound` | plugins/tree/fail2lock/main.go:78-97 | recording an attempt that passed keeps every window bounded, past or to come |
| `Fail2Lock.AfterIsWindow` | plugins/tree/fail2lock/main.go:78-84 | on past attempts the plugin's count is that of the window ending now |
| `Fail2Lock.Fail2Lock.PreAuthCheck` | plugins/tree/fail2lock/main.go:69-98 | a reset forgets the recorded attempts; otherwise the entity is locked exactly when at least the allowed number of them are recent, and if not the attempt is recorded; other entities are untouched |
| `Fail2Lock.Fail2Lock.PostAuthCheck` | plugins/tree/fail2lock/main.go:103-106 | a success forgets all attempts of the entity and no others |

## Left out

- Concurrency of the resolver: its locks are released in the middle of a resolution and some reads are unlocked. One call at a time is modelled.
- gRPC servers, command line, logging, configuration and token handling: plumbing around the modelled operations.
- Full-text search, file and bitcask storage, protobuf encoding: libraries that are not part of this model. Records are typed values in a map, and saving never fails, as in the memory store.
- Storage that reports events later or not at all, such as a watched directory: the memory store calls its listeners before it returns.
- Secrets: what the crypto library answers is a parameter (`secured`, `verifies`).
- Number allocation: the next free number is a parameter of a request.
- Names that are empty or contain "/": keys are joined and split with the path functions, and events carry only the last part. Names are identifiers here.
- The filter library: it is not in the repository. It is modelled as a parser and evaluator in which NOT binds tightest; everything is proved for both precedences of AND and OR, and for every grouping of equal operators.
- The order of lists that the source builds from maps: left open, contracts speak of contents and of each element once.
- Field `self` of a resolvable group: always the key under which the group is kept.
- The start-up check that no required chain is missing or empty: it cannot fail on the default tables.
- Hooks that edit other fields (capabilities, locks, keys, untyped metadata and the KV2 operations on groups, which repeat those on entities): arbitrary edits of one record in the chain proofs, since each alone only sets a field. Entity merges that carry typed key/value data, which would append without a check for duplicate keys, are not tied to the KV2 list.
- Plugins adding hooks to chains: any registration order of the default hooks is covered, other hooks are not.
- Resolver.MResolver.Resolve: asks that the rules leading to uncached groups are acyclic; on a cycle of uncached groups the source may still return, when an earlier target fails first. `Resolver.MResolver.SpliceIncluded` and `Resolver.MResolver.SpliceExcluded` ask the same.
- Manager.Manager.SaveGroup: asks that the rules name stored groups that the saved group does not affect; the store itself accepts any record. The operations that save groups see to it.
- Manager.Manager.ModifyRules: asks that the rules saved by an accepted request do not name the group or one that it affects, now or through a rule since dropped; `Resolution.CascadeEnds` shows that otherwise the source does not return.
- Manager.Manager.ModifyGroupExpansions: asks the same of the child, of refused requests too.
- Manager.Manager.PatchDirectGroups: the order of the patched groups is left open.
- StringSlices.PatchKeyValueSlice: modes are a datatype, without the folding of case, and the listing of all entries does not sort the caller's slice in place.
- Health checks and the maintenance tools.

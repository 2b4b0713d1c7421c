/** Starting the manager: the default chains are built from the registered hooks, and the resolver is told
    about everything the store already holds. */
module Startup {
  import opened Digraph
  import opened HookChains
  import opened GroupHooks
  import Expansions
  import EntityHooks
  import BoolFilter
  import opened Manager

  const BASE_GROUP_HOOKS: map<string, GroupHook> := map[
    "load-group" := GroupHook.LoadGroup,
    "fail-on-existing-group" := FailOnExistingGroup,
    "set-managing-group" := SetManagingGroup,
    "set-group-name" := SetGroupName,
    "set-group-displayname" := SetGroupDisplayName,
    "set-group-number" := SetGroupNumber,
    "check-immediate-expansions" := CheckImmediateExpansions,
    "check-expansion-cycles" := GroupHook.CheckExpansionCycles,
    "check-expansion-targets" := GroupHook.CheckExpansionTargets,
    "patch-group-expansions" := GroupHook.PatchGroupExpansions,
    "save-group" := GroupHook.SaveGroup,
    "destroy-group" := GroupHook.DestroyGroup]

  const BASE_ENTITY_HOOKS: map<string, EntityHooks.EntityHook> := map[
    "load-entity" := EntityHooks.LoadEntity,
    "fail-on-existing-entity" := EntityHooks.FailOnExistingEntity,
    "ensure-entity-meta" := EntityHooks.EnsureEntityMeta,
    "set-entity-id" := EntityHooks.SetEntityID,
    "set-entity-number" := EntityHooks.SetEntityNumber,
    "set-entity-secret" := EntityHooks.SetEntitySecret,
    "validate-entity-unlocked" := EntityHooks.ValidateEntityUnlocked,
    "validate-entity-secret" := EntityHooks.ValidateEntitySecret,
    "save-entity" := EntityHooks.EntityHook.SaveEntity,
    "destroy-entity" := EntityHooks.EntityHook.DestroyEntity]

  /** The registered hooks by name. */
  function GroupHooksByName(edits: GroupEdits): map<string, GroupHook> {
    (map n | n in GroupHooks.EDITS.Values :: GroupHook.Amend(edits.edit(n)))
    + map["merge-group-meta" := MergeGroupMeta(edits.merge)]
    + BASE_GROUP_HOOKS
  }

  function EntityHooksByName(edits: EntityHooks.EntityEdits): map<string, EntityHooks.EntityHook> {
    (map n | n in EntityHooks.EDITS.Values :: EntityHooks.Amend(edits(n))) + BASE_ENTITY_HOOKS
  }

  const CREATE_NAMES: seq<string> := ["fail-on-existing-group", "set-group-name", "set-managing-group",
                                      "set-group-displayname", "set-group-number", "save-group"]
  const DESTROY_NAMES: seq<string> := ["load-group", "destroy-group"]
  const MODIFY_EXPANSIONS_NAMES: seq<string> := ["load-group", "check-immediate-expansions", "check-expansion-cycles",
                                                 "check-expansion-targets", "patch-group-expansions", "save-group"]

  const GROUP_EDIT_ROWS: map<string, seq<string>> := map[
    "SET-CAPABILITY" := ["load-group", "set-group-capability", "save-group"],
    "DROP-CAPABILITY" := ["load-group", "remove-group-capability", "save-group"],
    "UGM-UPSERT" := ["load-group", "add-untyped-metadata", "save-group"],
    "UGM-CLEARFUZZY" := ["load-group", "del-untyped-metadata-fuzzy", "save-group"],
    "UGM-CLEAREXACT" := ["load-group", "del-untyped-metadata-exact", "save-group"],
    "KV-ADD" := ["load-group", "kv-add", "save-group"],
    "KV-DEL" := ["load-group", "kv-del", "save-group"],
    "KV-REPLACE" := ["load-group", "kv-replace", "save-group"]]

  /** The default chains by the names of their hooks. */
  const GROUP_TABLE: map<string, seq<string>> :=
    GROUP_EDIT_ROWS
    + map["CREATE" := CREATE_NAMES, "DESTROY" := DESTROY_NAMES, "FETCH" := ["load-group"],
          "MERGE-METADATA" := ["load-group", "merge-group-meta", "save-group"],
          "MODIFY-EXPANSIONS" := MODIFY_EXPANSIONS_NAMES]

  const CREATE_ENTITY_NAMES: seq<string> := ["fail-on-existing-entity", "set-entity-id", "set-entity-number",
                                             "set-entity-secret", "save-entity"]
  const VALIDATE_NAMES: seq<string> := ["load-entity", "validate-entity-unlocked", "validate-entity-secret",
                                        "save-entity"]

  const ENTITY_EDIT_ROWS: map<string, seq<string>> := map[
    "SET-CAPABILITY" := ["load-entity", "ensure-entity-meta", "set-entity-capability", "save-entity"],
    "DROP-CAPABILITY" := ["load-entity", "ensure-entity-meta", "remove-entity-capability", "save-entity"],
    "ADD-KEY" := ["load-entity", "ensure-entity-meta", "add-entity-key", "save-entity"],
    "DEL-KEY" := ["load-entity", "ensure-entity-meta", "del-entity-key", "save-entity"],
    "MERGE-METADATA" := ["load-entity", "ensure-entity-meta", "merge-entity-meta", "save-entity"],
    "LOCK" := ["load-entity", "ensure-entity-meta", "lock-entity", "save-entity"],
    "UNLOCK" := ["load-entity", "ensure-entity-meta", "unlock-entity", "save-entity"],
    "UEM-UPSERT" := ["load-entity", "ensure-entity-meta", "add-untyped-metadata", "save-entity"],
    "UEM-CLEARFUZZY" := ["load-entity", "ensure-entity-meta", "del-untyped-metadata-fuzzy", "save-entity"],
    "UEM-CLEAREXACT" := ["load-entity", "ensure-entity-meta", "del-untyped-metadata-exact", "save-entity"],
    "KV-ADD" := ["load-entity", "ensure-entity-meta", "kv-add", "save-entity"],
    "KV-DEL" := ["load-entity", "ensure-entity-meta", "kv-del", "save-entity"],
    "KV-REPLACE" := ["load-entity", "ensure-entity-meta", "kv-replace", "save-entity"],
    "GROUP-ADD" := ["load-entity", "ensure-entity-meta", "add-direct-group", "save-entity"],
    "GROUP-DEL" := ["load-entity", "ensure-entity-meta", "del-direct-group", "save-entity"]]

  const ENTITY_TABLE: map<string, seq<string>> :=
    ENTITY_EDIT_ROWS
    + map["CREATE" := CREATE_ENTITY_NAMES, "DESTROY" := ["load-entity", "destroy-entity"], "FETCH" := ["load-entity"],
          "SET-SECRET" := ["load-entity", "set-entity-secret", "save-entity"],
          "VALIDATE-IDENTITY" := VALIDATE_NAMES]

  /** Each name stands for the hook at the same place. */
  ghost predicate Spells<H(!new)>(hooks: map<string, H>, names: seq<string>, chain: seq<H>) {
    |names| == |chain| && forall i :: 0 <= i < |names| ==> names[i] in hooks && hooks[names[i]] == chain[i]
  }

  ghost predicate TableSpells<H(!new)>(hooks: map<string, H>, table: map<string, seq<string>>,
                                       chains: map<string, seq<H>>) {
    table.Keys == chains.Keys && forall c :: c in table ==> Spells(hooks, table[c], chains[c])
  }

  ghost predicate Built<H(!new)>(priority: H -> int, processes: map<string, seq<H>>, chains: map<string, seq<H>>) {
    forall c :: c in chains ==> Orders(priority, Registered(processes, c), chains[c])
  }

  ghost function GroupChain(edits: GroupEdits, name: string): seq<GroupHook>
    requires name in GROUP_TABLE
  {
    if name == "CREATE" then GroupHooks.CREATE
    else if name == "DESTROY" then GroupHooks.DESTROY
    else if name == "FETCH" then GroupHooks.FETCH
    else if name == "MODIFY-EXPANSIONS" then GroupHooks.MODIFY_EXPANSIONS
    else if name == "MERGE-METADATA" then Merging(edits.merge)
    else if name in GroupHooks.EDITS then GroupHooks.Editing(edits.edit(GroupHooks.EDITS[name]))
    else []
  }

  ghost function EntityChain(edits: EntityHooks.EntityEdits, name: string): seq<EntityHooks.EntityHook>
    requires name in ENTITY_TABLE
  {
    if name == "CREATE" then EntityHooks.CREATE
    else if name == "DESTROY" then EntityHooks.DESTROY
    else if name == "FETCH" then EntityHooks.FETCH
    else if name == "SET-SECRET" then EntityHooks.SET_SECRET
    else if name == "VALIDATE-IDENTITY" then EntityHooks.VALIDATE_IDENTITY
    else if name in EntityHooks.EDITS then EntityHooks.Editing(edits(EntityHooks.EDITS[name]))
    else []
  }

  lemma {:induction false} GroupEditsApart()
    ensures forall n :: n in GroupHooks.EDITS.Values ==> n !in BASE_GROUP_HOOKS && n != "merge-group-meta"
  {
  }

  lemma {:induction false} EntityEditsApart()
    ensures forall n :: n in EntityHooks.EDITS.Values ==> n !in BASE_ENTITY_HOOKS
  {
  }

  lemma {:induction false} BaseGroupHook(edits: GroupEdits, n: string)
    requires n in BASE_GROUP_HOOKS
    ensures n in GroupHooksByName(edits) && GroupHooksByName(edits)[n] == BASE_GROUP_HOOKS[n]
  {
  }

  lemma {:induction false} CreateSpelled()
    ensures Spells(BASE_GROUP_HOOKS, CREATE_NAMES, GroupHooks.CREATE)
  {
  }

  lemma {:induction false} ModifySpelled()
    ensures Spells(BASE_GROUP_HOOKS, MODIFY_EXPANSIONS_NAMES, GroupHooks.MODIFY_EXPANSIONS)
  {
  }

  lemma {:induction false} ShortSpelled()
    ensures Spells(BASE_GROUP_HOOKS, DESTROY_NAMES, GroupHooks.DESTROY)
    ensures Spells(BASE_GROUP_HOOKS, ["load-group"], GroupHooks.FETCH)
    ensures "load-group" in BASE_GROUP_HOOKS && BASE_GROUP_HOOKS["load-group"] == GroupHook.LoadGroup
    ensures "save-group" in BASE_GROUP_HOOKS && BASE_GROUP_HOOKS["save-group"] == GroupHook.SaveGroup
  {
  }

  lemma {:induction false} SpelledInAll(edits: GroupEdits, names: seq<string>, chain: seq<GroupHook>)
    requires Spells(BASE_GROUP_HOOKS, names, chain)
    ensures Spells(GroupHooksByName(edits), names, chain)
  {
    forall i | 0 <= i < |names|
      ensures names[i] in GroupHooksByName(edits) && GroupHooksByName(edits)[names[i]] == chain[i]
    {
      BaseGroupHook(edits, names[i]);
    }
  }

  lemma {:induction false} GroupEditSpelled(edits: GroupEdits, n: string)
    requires n in GroupHooks.EDITS.Values
    ensures Spells(GroupHooksByName(edits), ["load-group", n, "save-group"], GroupHooks.Editing(edits.edit(n)))
  {
    ShortSpelled();
    GroupEditsApart();
    BaseGroupHook(edits, "load-group");
    BaseGroupHook(edits, "save-group");
  }

  lemma {:induction false} MergeApart()
    ensures "merge-group-meta" !in BASE_GROUP_HOOKS
  {
  }

  lemma {:induction false} MergeSpelled(edits: GroupEdits)
    ensures Spells(GroupHooksByName(edits), ["load-group", "merge-group-meta", "save-group"], Merging(edits.merge))
  {
    ShortSpelled();
    MergeApart();
    BaseGroupHook(edits, "load-group");
    BaseGroupHook(edits, "save-group");
  }

  lemma {:induction false} GroupTableRows()
    ensures "CREATE" in GROUP_TABLE && GROUP_TABLE["CREATE"] == CREATE_NAMES
    ensures "DESTROY" in GROUP_TABLE && GROUP_TABLE["DESTROY"] == DESTROY_NAMES
    ensures "FETCH" in GROUP_TABLE && GROUP_TABLE["FETCH"] == ["load-group"]
    ensures "MODIFY-EXPANSIONS" in GROUP_TABLE && GROUP_TABLE["MODIFY-EXPANSIONS"] == MODIFY_EXPANSIONS_NAMES
    ensures "MERGE-METADATA" in GROUP_TABLE
            && GROUP_TABLE["MERGE-METADATA"] == ["load-group", "merge-group-meta", "save-group"]
  {
  }

  predicate OwnGroupChain(c: string) {
    c in {"CREATE", "DESTROY", "FETCH", "MODIFY-EXPANSIONS", "MERGE-METADATA"}
  }

  lemma {:induction false} GroupEditRows(c: string)
    ensures c in GROUP_EDIT_ROWS <==> c in GroupHooks.EDITS
    ensures c in GROUP_EDIT_ROWS ==> GROUP_EDIT_ROWS[c] == ["load-group", GroupHooks.EDITS[c], "save-group"]
  {
  }

  lemma {:induction false} GroupTableEdits(c: string)
    requires !OwnGroupChain(c)
    ensures c in GROUP_TABLE <==> c in GroupHooks.EDITS
    ensures c in GROUP_TABLE ==> GROUP_TABLE[c] == ["load-group", GroupHooks.EDITS[c], "save-group"]
  {
    GroupEditRows(c);
  }

  lemma {:induction false} GroupEditChainsApart(c: string)
    requires c in GroupHooks.EDITS
    ensures !OwnGroupChain(c)
  {
  }

  lemma {:induction false} GroupTableSpells(edits: GroupEdits, c: string)
    requires c in GROUP_TABLE
    ensures Spells(GroupHooksByName(edits), GROUP_TABLE[c], GroupChain(edits, c))
  {
    if OwnGroupChain(c) {
      GroupTableRows();
      CreateSpelled();
      ModifySpelled();
      ShortSpelled();
      if c == "MERGE-METADATA" {
        MergeSpelled(edits);
      } else {
        SpelledInAll(edits, GROUP_TABLE[c], GroupChain(edits, c));
      }
    } else {
      GroupTableEdits(c);
      GroupEditSpelled(edits, GroupHooks.EDITS[c]);
    }
  }

  lemma {:induction false} GroupDefaults(edits: GroupEdits, name: string, chain: seq<GroupHook>)
    requires GroupHooks.IsDefault(edits, name, chain)
    ensures name in GROUP_TABLE && GroupChain(edits, name) == chain
  {
    GroupTableRows();
    if name in GroupHooks.EDITS {
      GroupEditChainsApart(name);
      GroupTableEdits(name);
    }
  }

  // ----- the same for entities -----

  lemma {:induction false} BaseEntityHook(edits: EntityHooks.EntityEdits, n: string)
    requires n in BASE_ENTITY_HOOKS
    ensures n in EntityHooksByName(edits) && EntityHooksByName(edits)[n] == BASE_ENTITY_HOOKS[n]
  {
  }

  lemma {:induction false} CreateEntitySpelled()
    ensures Spells(BASE_ENTITY_HOOKS, CREATE_ENTITY_NAMES, EntityHooks.CREATE)
  {
  }

  lemma {:induction false} ValidateSpelled()
    ensures Spells(BASE_ENTITY_HOOKS, VALIDATE_NAMES, EntityHooks.VALIDATE_IDENTITY)
  {
  }

  lemma {:induction false} ShortEntitySpelled()
    ensures Spells(BASE_ENTITY_HOOKS, ["load-entity", "destroy-entity"], EntityHooks.DESTROY)
    ensures Spells(BASE_ENTITY_HOOKS, ["load-entity"], EntityHooks.FETCH)
    ensures Spells(BASE_ENTITY_HOOKS, ["load-entity", "set-entity-secret", "save-entity"], EntityHooks.SET_SECRET)
  {
  }

  lemma {:induction false} EntityEditNames()
    ensures Spells(BASE_ENTITY_HOOKS, ["load-entity", "ensure-entity-meta", "save-entity"],
                   [EntityHooks.LoadEntity, EntityHooks.EnsureEntityMeta, EntityHooks.EntityHook.SaveEntity])
  {
  }

  lemma {:induction false} EntitySpelledInAll(edits: EntityHooks.EntityEdits, names: seq<string>,
                                              chain: seq<EntityHooks.EntityHook>)
    requires Spells(BASE_ENTITY_HOOKS, names, chain)
    ensures Spells(EntityHooksByName(edits), names, chain)
  {
    forall i | 0 <= i < |names|
      ensures names[i] in EntityHooksByName(edits) && EntityHooksByName(edits)[names[i]] == chain[i]
    {
      BaseEntityHook(edits, names[i]);
    }
  }

  lemma {:induction false} EntityEditSpelled(edits: EntityHooks.EntityEdits, n: string)
    requires n in EntityHooks.EDITS.Values
    ensures Spells(EntityHooksByName(edits), ["load-entity", "ensure-entity-meta", n, "save-entity"],
                   EntityHooks.Editing(edits(n)))
  {
    var names := ["load-entity", "ensure-entity-meta", "save-entity"];
    var hooks := [EntityHooks.LoadEntity, EntityHooks.EnsureEntityMeta, EntityHooks.EntityHook.SaveEntity];
    EntityEditNames();
    EntitySpelledInAll(edits, names, hooks);
    EntityEditsApart();
    SplicedSpells(EntityHooksByName(edits), names, hooks, n);
  }

  lemma {:induction false} SplicedSpells<H(!new)>(hooks: map<string, H>, names: seq<string>, chain: seq<H>, n: string)
    requires |names| == 3 && Spells(hooks, names, chain) && n in hooks
    ensures Spells(hooks, [names[0], names[1], n, names[2]], [chain[0], chain[1], hooks[n], chain[2]])
  {
  }

  lemma {:induction false} EntityTableRows()
    ensures "CREATE" in ENTITY_TABLE && ENTITY_TABLE["CREATE"] == CREATE_ENTITY_NAMES
    ensures "DESTROY" in ENTITY_TABLE && ENTITY_TABLE["DESTROY"] == ["load-entity", "destroy-entity"]
    ensures "FETCH" in ENTITY_TABLE && ENTITY_TABLE["FETCH"] == ["load-entity"]
    ensures "SET-SECRET" in ENTITY_TABLE && ENTITY_TABLE["SET-SECRET"] == ["load-entity", "set-entity-secret", "save-entity"]
    ensures "VALIDATE-IDENTITY" in ENTITY_TABLE && ENTITY_TABLE["VALIDATE-IDENTITY"] == VALIDATE_NAMES
  {
  }

  predicate OwnEntityChain(c: string) {
    c in {"CREATE", "DESTROY", "FETCH", "SET-SECRET", "VALIDATE-IDENTITY"}
  }

  lemma {:induction false} EntityTableEdits(c: string)
    requires !OwnEntityChain(c)
    ensures c in ENTITY_TABLE <==> c in EntityHooks.EDITS
    ensures c in ENTITY_TABLE ==>
              ENTITY_TABLE[c] == ["load-entity", "ensure-entity-meta", EntityHooks.EDITS[c], "save-entity"]
  {
    EntityEditRows(c);
  }

  lemma {:induction false} EntityEditRows(c: string)
    ensures c in ENTITY_EDIT_ROWS <==> c in EntityHooks.EDITS
    ensures c in ENTITY_EDIT_ROWS ==>
              ENTITY_EDIT_ROWS[c] == ["load-entity", "ensure-entity-meta", EntityHooks.EDITS[c], "save-entity"]
  {
  }

  lemma {:induction false} EntityEditChainsApart(c: string)
    requires c in EntityHooks.EDITS
    ensures !OwnEntityChain(c)
  {
  }

  lemma {:induction false} EntityTableSpells(edits: EntityHooks.EntityEdits, c: string)
    requires c in ENTITY_TABLE
    ensures Spells(EntityHooksByName(edits), ENTITY_TABLE[c], EntityChain(edits, c))
  {
    if OwnEntityChain(c) {
      EntityTableRows();
      CreateEntitySpelled();
      ValidateSpelled();
      ShortEntitySpelled();
      EntitySpelledInAll(edits, ENTITY_TABLE[c], EntityChain(edits, c));
    } else {
      EntityTableEdits(c);
      EntityEditSpelled(edits, EntityHooks.EDITS[c]);
    }
  }

  lemma {:induction false} EntityDefaults(edits: EntityHooks.EntityEdits, name: string, chain: seq<EntityHooks.EntityHook>)
    requires EntityHooks.IsDefault(edits, name, chain)
    ensures name in ENTITY_TABLE && EntityChain(edits, name) == chain
  {
    EntityTableRows();
    if name in EntityHooks.EDITS {
      EntityEditChainsApart(name);
      EntityTableEdits(name);
    }
  }

  // ----- building the chains -----

  lemma {:induction false} SpelledIsNamed<H(!new)>(t: HookTable<H>, names: seq<string>, chain: seq<H>)
    requires Spells(t.hooks, names, chain)
    ensures t.AllKnown(names) && t.Named(names) == chain
  {
    if names != [] {
      var n := |names| - 1;
      assert chain == chain[..n] + [chain[n]];
      SpelledIsNamed(t, names[..n], chain[..n]);
    }
  }

  /** Builds the chains of a table from the registered hooks. */
  method InitializeChains<H(!new)>(priority: H -> int, hooks: map<string, H>, table: map<string, seq<string>>,
                                   ghost chains: map<string, seq<H>>)
    returns (processes: map<string, seq<H>>)
    requires TableSpells(hooks, table, chains)
    ensures Built(priority, processes, chains)
  {
    var t := new HookTable(priority, hooks);
    forall c | c in table ensures t.AllKnown(table[c]) && t.Named(table[c]) == chains[c] {
      SpelledIsNamed(t, table[c], chains[c]);
    }
    var ok := t.InitializeChains(table);
    assert ok;
    processes := t.processes;
    forall c | c in chains ensures Orders(priority, Registered(processes, c), chains[c]) {
      assert c in table;
    }
  }

  method InitializeGroupChains(edits: GroupEdits) returns (processes: map<string, seq<GroupHook>>)
    ensures GroupHooks.ChainsReady(edits, processes)
  {
    ghost var chains := map c | c in GROUP_TABLE :: GroupChain(edits, c);
    forall c | c in GROUP_TABLE ensures Spells(GroupHooksByName(edits), GROUP_TABLE[c], chains[c]) {
      GroupTableSpells(edits, c);
    }
    processes := InitializeChains(GroupHooks.Priority, GroupHooksByName(edits), GROUP_TABLE, chains);
    forall name, chain | GroupHooks.IsDefault(edits, name, chain)
      ensures Orders(GroupHooks.Priority, Registered(processes, name), chain)
    {
      GroupDefaults(edits, name, chain);
      assert name in chains;
    }
  }

  method InitializeEntityChains(edits: EntityHooks.EntityEdits)
    returns (processes: map<string, seq<EntityHooks.EntityHook>>)
    ensures EntityHooks.ChainsReady(edits, processes)
  {
    ghost var chains := map c | c in ENTITY_TABLE :: EntityChain(edits, c);
    forall c | c in ENTITY_TABLE ensures Spells(EntityHooksByName(edits), ENTITY_TABLE[c], chains[c]) {
      EntityTableSpells(edits, c);
    }
    processes := InitializeChains(EntityHooks.Priority, EntityHooksByName(edits), ENTITY_TABLE, chains);
    forall name, chain | EntityHooks.IsDefault(edits, name, chain)
      ensures Orders(EntityHooks.Priority, Registered(processes, name), chain)
    {
      EntityDefaults(edits, name, chain);
      assert name in chains;
    }
  }

  /** A manager over a store whose rules are acyclic and name stored groups only is ready for every operation. Only
      the stored rules are known to the resolver. */
  method Start(tight: BoolFilter.Op, edits: GroupEdits, entityEdits: EntityHooks.EntityEdits,
               groups: Expansions.Groups, entities: Entities) returns (m: Manager)
    requires Expansions.Good(groups) && Closed(groups)
    requires forall id :: id in entities ==> entities[id].id == id
    ensures fresh(m) && fresh(m.resolver) && m.Valid() && m.Ready()
    ensures m.groups == groups && m.entities == entities
    ensures m.edits == edits && m.entityEdits == entityEdits
    ensures Subgraph(m.resolver.ga, Turned(Expansions.RuleGraph(groups)))
  {
    var processes := InitializeGroupChains(edits);
    var entityProcesses := InitializeEntityChains(entityEdits);
    m := new Manager(tight, edits, processes, entityEdits, entityProcesses, groups, entities);
    m.EventUpdateAll();
  }
}

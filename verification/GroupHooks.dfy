/** The hooks that act on groups and the default chains made of them: what a chain does, that the order of
    hooks of equal priority does not change it, and when it changes which error is reported. */
module GroupHooks {
  import opened Outcomes
  import opened Digraph
  import opened Text
  import opened StringSlices
  import opened Expansions
  import opened HookChains

  /** What a caller asks for. `nextNumber` is what the store would allocate for a requested number of -1;
      `update` stands for whatever else a request carries, which only edits look at. */
  datatype Request = Request(name: Name, displayName: string, managedBy: Name, number: int,
                             expansions: seq<string>, nextNumber: int, update: string)

  /** The stored groups and the record that a chain works on. */
  datatype State = State(groups: Groups, g: Group)

  const EMPTY_GROUP := Group("", "", "", 0, [], [])

  type GroupEdit = (Request, Group) -> Result<Group, Error>

  /** Amend stands for the hooks that edit other fields of a loaded record; it may fail. MergeGroupMeta sets
      other fields too, and appends the rules that the request carries. */
  datatype GroupHook =
    | LoadGroup | FailOnExistingGroup
    | SetManagingGroup | SetGroupName | SetGroupDisplayName | SetGroupNumber
    | CheckImmediateExpansions | CheckExpansionCycles | CheckExpansionTargets | PatchGroupExpansions
    | Amend(edit: GroupEdit) | MergeGroupMeta(merge: (Request, Group) -> Group)
    | SaveGroup | DestroyGroup

  function Priority(h: GroupHook): int {
    match h
    case LoadGroup => 0
    case FailOnExistingGroup => 0
    case SetManagingGroup => 10
    case SetGroupName => 50
    case SetGroupDisplayName => 50
    case SetGroupNumber => 50
    case CheckImmediateExpansions => 40
    case CheckExpansionCycles => 40
    case CheckExpansionTargets => 40
    case PatchGroupExpansions => 50
    case Amend(_) => 50
    case MergeGroupMeta(_) => 50
    case SaveGroup => 99
    case DestroyGroup => 99
  }

  const CREATE: seq<GroupHook> :=
    [FailOnExistingGroup, SetGroupName, SetManagingGroup, SetGroupDisplayName, SetGroupNumber, SaveGroup]
  const DESTROY: seq<GroupHook> := [LoadGroup, DestroyGroup]
  const FETCH: seq<GroupHook> := [LoadGroup]
  const MODIFY_EXPANSIONS: seq<GroupHook> :=
    [LoadGroup, CheckImmediateExpansions, CheckExpansionCycles, CheckExpansionTargets, PatchGroupExpansions, SaveGroup]

  /** The creation chain as one of its possible priority orders; the default table lists it differently. */
  const CREATE_IN_ORDER: seq<GroupHook> :=
    [FailOnExistingGroup, SetManagingGroup, SetGroupName, SetGroupDisplayName, SetGroupNumber, SaveGroup]

  /** The chains that load a record, edit one part of it and save it. */
  function Editing(edit: GroupEdit): seq<GroupHook> {
    [LoadGroup, Amend(edit), SaveGroup]
  }

  function Merging(merge: (Request, Group) -> Group): seq<GroupHook> {
    [LoadGroup, MergeGroupMeta(merge), SaveGroup]
  }

  ghost predicate IsDefaultChain(chain: seq<GroupHook>) {
    || chain == CREATE || chain == DESTROY || chain == FETCH || chain == MODIFY_EXPANSIONS
    || (exists edit :: chain == Editing(edit))
    || (exists merge :: chain == Merging(merge))
  }

  function AmendRecord(edit: GroupEdit, rq: Request, g: Group): Result<Group, Error> {
    match edit(rq, g)
    case Err(e) => Err(e)
    case Ok(h) => Ok(h.(name := g.name, expansions := g.expansions))
  }

  function MergeRecord(merge: (Request, Group) -> Group, rq: Request, g: Group): Group {
    merge(rq, g).(name := g.name, number := g.number, expansions := g.expansions + rq.expansions)
  }

  function FirstError(e: Option<Error>, s: State): Result<State, Error> {
    if e.Some? then Err(e.value) else Ok(s)
  }

  /** What one hook does. */
  ghost function RunHook(h: GroupHook, rq: Request, s: State): Result<State, Error>
    requires Runnable(rq, s)
  {
    match h
    case LoadGroup =>
      if rq.name in s.groups then Ok(s.(g := s.groups[rq.name])) else Err(UnknownGroup)
    case FailOnExistingGroup =>
      if rq.name in s.groups then Err(DuplicateGroupName) else Ok(s)
    case SetManagingGroup =>
      if rq.managedBy == "" then Ok(s)
      else if rq.name == rq.managedBy || rq.managedBy in s.groups then Ok(s.(g := s.g.(managedBy := rq.managedBy)))
      else Err(UnknownGroup)
    case SetGroupName => Ok(s.(g := s.g.(name := rq.name)))
    case SetGroupDisplayName => Ok(s.(g := s.g.(displayName := rq.displayName)))
    case SetGroupNumber => Ok(s.(g := s.g.(number := if rq.number == -1 then rq.nextNumber else rq.number)))
    case CheckImmediateExpansions =>
      if ImmediateConflict(s.g.expansions, rq.expansions) then Err(ExistingExpansion) else Ok(s)
    case CheckExpansionCycles => FirstError(Expansions.CheckExpansionCycles(s.groups, s.g.name, rq.expansions), s)
    case CheckExpansionTargets => FirstError(Expansions.CheckExpansionTargets(s.groups, rq.expansions), s)
    case PatchGroupExpansions => Ok(s.(g := s.g.(expansions := PatchSpec(s.g.expansions, rq.expansions))))
    case Amend(edit) =>
      (match AmendRecord(edit, rq, s.g)
       case Err(e) => Err(e)
       case Ok(g) => Ok(s.(g := g)))
    case MergeGroupMeta(merge) => Ok(s.(g := MergeRecord(merge, rq, s.g)))
    case SaveGroup => Ok(s.(groups := s.groups[s.g.name := s.g]))
    case DestroyGroup =>
      var g := if s.g.name == "" then s.g.(name := rq.name) else s.g;
      Ok(State(s.groups - {g.name}, g))
  }

  /** The stored rules are in order and the request is well-formed. */
  ghost predicate Runnable(rq: Request, s: State) {
    Good(s.groups) && AllRequests(rq.expansions)
  }

  /** One hook of a chain; nothing is run on a store that is not in order. */
  ghost function Report(rq: Request): (GroupHook, State) -> Result<State, Error> {
    (h: GroupHook, s: State) => if Runnable(rq, s) then RunHook(h, rq, s) else Err(FailedPrecondition)
  }

  /** What a chain makes of the store, or the first error in it. */
  ghost function RunChain(chain: seq<GroupHook>, rq: Request, groups: Groups): Result<State, Error> {
    RunFirst(Report(rq), chain, State(groups, EMPTY_GROUP))
  }

  lemma {:induction false} RunStep(rq: Request, h: GroupHook, rest: seq<GroupHook>, s: State)
    requires Runnable(rq, s)
    ensures var r := RunHook(h, rq, s);
            RunFirst(Report(rq), [h] + rest, s) == if r.Err? then Err(r.error) else RunFirst(Report(rq), rest, r.value)
  {
    RunFirstCons(Report(rq), h, rest, s);
  }

  lemma {:induction false} RunPair(rq: Request, h: GroupHook, k: GroupHook, s: State)
    ensures RunAll(Silent(Report(rq)), [h, k], s)
         == match Report(rq)(h, s)
            case Err(_) => None
            case Ok(t) => (match Report(rq)(k, t) case Err(_) => None case Ok(u) => Some(u))
  {
    RunAllIsSilent(Report(rq), [h, k], s);
    assert [h, k] == [h] + ([k] + []);
    RunFirstCons(Report(rq), h, [k] + [], s);
    match Report(rq)(h, s)
    case Err(_) =>
    case Ok(t) => RunFirstCons(Report(rq), k, [], t);
  }

  // ----- the order of equal priorities does not matter -----

  predicate OnlyChecks(h: GroupHook) {
    h.CheckImmediateExpansions? || h.CheckExpansionCycles? || h.CheckExpansionTargets?
  }

  predicate OnlySets(h: GroupHook) {
    h.SetGroupName? || h.SetGroupDisplayName? || h.SetGroupNumber?
  }

  lemma {:induction false} CheckLeaves(rq: Request, h: GroupHook, s: State)
    requires OnlyChecks(h)
    ensures Report(rq)(h, s).Ok? ==> Report(rq)(h, s).value == s
  {
  }

  lemma {:induction false} ChecksCommute(rq: Request, h: GroupHook, k: GroupHook)
    requires OnlyChecks(h) && OnlyChecks(k)
    ensures Commute(Silent(Report(rq)), h, k)
  {
    forall s ensures RunAll(Silent(Report(rq)), [h, k], s) == RunAll(Silent(Report(rq)), [k, h], s) {
      RunPair(rq, h, k, s);
      RunPair(rq, k, h, s);
      CheckLeaves(rq, h, s);
      CheckLeaves(rq, k, s);
    }
  }

  function SetField(h: GroupHook, rq: Request, g: Group): Group
    requires OnlySets(h)
  {
    match h
    case SetGroupName => g.(name := rq.name)
    case SetGroupDisplayName => g.(displayName := rq.displayName)
    case SetGroupNumber => g.(number := if rq.number == -1 then rq.nextNumber else rq.number)
  }

  lemma {:induction false} SetRuns(rq: Request, h: GroupHook, s: State)
    requires OnlySets(h)
    ensures Report(rq)(h, s) == if Runnable(rq, s) then Ok(s.(g := SetField(h, rq, s.g))) else Err(FailedPrecondition)
  {
  }

  /** Setters of different fields give the same record in either order. */
  lemma {:induction false} SetsCommute(rq: Request, h: GroupHook, k: GroupHook)
    requires OnlySets(h) && OnlySets(k)
    ensures Commute(Silent(Report(rq)), h, k) && Commute(Carried(Report(rq)), h, k)
  {
    forall s
      ensures (match Report(rq)(h, s) case Err(e) => Err(e) case Ok(t) => Report(rq)(k, t))
           == (match Report(rq)(k, s) case Err(e) => Err(e) case Ok(t) => Report(rq)(h, t))
    {
      SetRuns(rq, h, s);
      SetRuns(rq, k, s);
      SetRuns(rq, k, s.(g := SetField(h, rq, s.g)));
      SetRuns(rq, h, s.(g := SetField(k, rq, s.g)));
    }
    CarriedCommute(Report(rq), h, k);
    forall s ensures RunAll(Silent(Report(rq)), [h, k], s) == RunAll(Silent(Report(rq)), [k, h], s) {
      RunPair(rq, h, k, s);
      RunPair(rq, k, h, s);
    }
  }

  /** Hooks of equal priority in a default chain: the same hook, two checks or two setters. */
  ghost predicate TiesPlain(chain: seq<GroupHook>) {
    forall h, k :: h in chain && k in chain && Priority(h) == Priority(k) ==>
      h == k || (OnlyChecks(h) && OnlyChecks(k)) || (OnlySets(h) && OnlySets(k))
  }

  ghost predicate ModifyHooks(q: seq<GroupHook>) {
    forall h :: h in q ==> OnlyChecks(h) || h.LoadGroup? || h.PatchGroupExpansions? || h.SaveGroup?
  }

  lemma {:induction false} ModifyHooksIn()
    ensures ModifyHooks(MODIFY_EXPANSIONS) && GroupHook.LoadGroup in MODIFY_EXPANSIONS
  {
    assert MODIFY_EXPANSIONS[0] == GroupHook.LoadGroup;
  }

  ghost predicate CreateHooks(q: seq<GroupHook>) {
    forall h :: h in q ==> OnlySets(h) || h.FailOnExistingGroup? || h.SetManagingGroup? || h.SaveGroup?
  }

  lemma {:induction false} CreateHooksIn()
    ensures CreateHooks(CREATE)
  {
  }

  lemma {:induction false} HooksTiesPlain(q: seq<GroupHook>)
    ensures ModifyHooks(q) || CreateHooks(q) ==> TiesPlain(q)
    ensures CreateHooks(q) ==> forall h :: h in q ==> !OnlyChecks(h)
  {
  }

  lemma {:induction false} ShortTiesPlain()
    ensures TiesPlain(DESTROY) && forall h :: h in DESTROY ==> !OnlyChecks(h)
    ensures TiesPlain(FETCH) && forall h :: h in FETCH ==> !OnlyChecks(h)
  {
  }

  lemma {:induction false} EditingTiesPlain(edit: GroupEdit)
    ensures TiesPlain(Editing(edit)) && forall h :: h in Editing(edit) ==> !OnlyChecks(h)
  {
  }

  lemma {:induction false} MergingTiesPlain(merge: (Request, Group) -> Group)
    ensures TiesPlain(Merging(merge)) && forall h :: h in Merging(merge) ==> !OnlyChecks(h)
  {
  }

  lemma {:induction false} DefaultTiesPlain(chain: seq<GroupHook>)
    requires IsDefaultChain(chain)
    ensures TiesPlain(chain)
    ensures chain != MODIFY_EXPANSIONS ==> forall h :: h in chain ==> !OnlyChecks(h)
  {
    if edit :| chain == Editing(edit) {
      EditingTiesPlain(edit);
    } else if merge :| chain == Merging(merge) {
      MergingTiesPlain(merge);
    } else {
      ModifyHooksIn();
      CreateHooksIn();
      HooksTiesPlain(chain);
      ShortTiesPlain();
    }
  }

  /** In a default chain, hooks of equal priority commute, failures included. */
  lemma {:induction false} DefaultTiesCommute(rq: Request, chain: seq<GroupHook>)
    requires TiesPlain(chain)
    ensures TiesCommute(Silent(Report(rq)), Priority, chain)
  {
    forall h, k | h in chain && k in chain && Priority(h) == Priority(k) ensures Commute(Silent(Report(rq)), h, k) {
      PlainTieCommutes(rq, h, k);
    }
  }

  lemma {:induction false} PlainTieCommutes(rq: Request, h: GroupHook, k: GroupHook)
    requires h == k || (OnlyChecks(h) && OnlyChecks(k)) || (OnlySets(h) && OnlySets(k))
    ensures Commute(Silent(Report(rq)), h, k)
    ensures !OnlyChecks(h) ==> Commute(Carried(Report(rq)), h, k)
  {
    if OnlyChecks(h) && OnlyChecks(k) {
      ChecksCommute(rq, h, k);
    } else if OnlySets(h) && OnlySets(k) {
      SetsCommute(rq, h, k);
    }
  }

  /** Whatever the registration order and the sort did with ties, a default chain succeeds on the same
      requests and leaves the same record and the same store. */
  lemma {:induction false} ChainsDeterministic(chain: seq<GroupHook>, order: seq<GroupHook>, order': seq<GroupHook>,
                                               rq: Request, groups: Groups)
    requires IsDefaultChain(chain) && Orders(Priority, order, chain) && Orders(Priority, order', chain)
    ensures SameOutcome(RunChain(order, rq, groups), RunChain(order', rq, groups))
  {
    DefaultTiesPlain(chain);
    DefaultTiesCommute(rq, chain);
    var s := State(groups, EMPTY_GROUP);
    OutcomeSettled(Silent(Report(rq)), Priority, chain, order, order', s);
    RunAllIsSilent(Report(rq), order, s);
    RunAllIsSilent(Report(rq), order', s);
  }

  // ----- the order of equal priorities and the error -----

  /** All priority orders of a chain report the same. */
  ghost predicate ReportsSettled(chain: seq<GroupHook>, rq: Request, groups: Groups) {
    forall a, b :: Orders(Priority, a, chain) && Orders(Priority, b, chain) ==>
      RunChain(a, rq, groups) == RunChain(b, rq, groups)
  }

  lemma {:induction false} ReportsSettledWithoutChecks(chain: seq<GroupHook>, rq: Request, groups: Groups)
    requires TiesPlain(chain) && forall h :: h in chain ==> !OnlyChecks(h)
    ensures ReportsSettled(chain, rq, groups)
  {
    var run := Carried(Report(rq));
    forall h, k | h in chain && k in chain && Priority(h) == Priority(k) ensures Commute(run, h, k) {
      PlainTieCommutes(rq, h, k);
    }
    forall a, b | Orders(Priority, a, chain) && Orders(Priority, b, chain)
      ensures RunChain(a, rq, groups) == RunChain(b, rq, groups)
    {
      ReportSettled(Report(rq), Priority, chain, a, b, State(groups, EMPTY_GROUP));
    }
  }

  /** The error of a check on the loaded record, if any. */
  ghost function CheckError(h: GroupHook, rq: Request, groups: Groups): Option<Error>
    requires OnlyChecks(h) && Good(groups) && AllRequests(rq.expansions) && rq.name in groups
  {
    match h
    case CheckImmediateExpansions =>
      if ImmediateConflict(groups[rq.name].expansions, rq.expansions) then Some(ExistingExpansion) else None
    case CheckExpansionCycles => Expansions.CheckExpansionCycles(groups, rq.name, rq.expansions)
    case CheckExpansionTargets => Expansions.CheckExpansionTargets(groups, rq.expansions)
  }

  /** One check finds that a rule is there already or closes a cycle, and another that a group is missing. */
  ghost predicate ChecksDisagree(rq: Request, groups: Groups)
    requires Good(groups) && AllRequests(rq.expansions) && rq.name in groups
  {
    exists h, k :: OnlyChecks(h) && OnlyChecks(k) && CheckError(h, rq, groups) == Some(ExistingExpansion)
                   && CheckError(k, rq, groups) == Some(UnknownGroup)
  }

  lemma {:induction false} CheckRuns(rq: Request, h: GroupHook, groups: Groups)
    requires Good(groups) && AllRequests(rq.expansions) && rq.name in groups && OnlyChecks(h)
    ensures var s := State(groups, groups[rq.name]);
            RunHook(h, rq, s) == match CheckError(h, rq, groups) case None => Ok(s) case Some(e) => Err(e)
    ensures CheckError(h, rq, groups) in {None, Some(ExistingExpansion), Some(UnknownGroup)}
  {
    CheckErrorKinds(groups, rq.name, rq.expansions);
  }

  lemma {:induction false} LateNeverFails(rq: Request, q: seq<GroupHook>, s: State)
    requires Runnable(rq, s) && OnlyLast(Writes, q)
    requires forall h :: h in q ==> h.PatchGroupExpansions? || h.SaveGroup?
    ensures RunFirst(Report(rq), q, s).Ok?
    decreases |q|
  {
    if q != [] {
      assert q[0] in q;
      var t := RunHook(q[0], rq, s).value;
      if q[0].PatchGroupExpansions? {
        LateNeverFails(rq, q[1..], t);
      } else {
        assert q[1..] == [];
      }
    }
  }

  /** On a loaded record the chain that changes rules can report only what one of the checks finds. */
  lemma {:induction false} ErrorIsOfCheck(rq: Request, q: seq<GroupHook>, groups: Groups)
    requires Good(groups) && AllRequests(rq.expansions) && rq.name in groups
    requires ModifyHooks(q) && OnlyLast(Writes, q) && ByPriority(Priority, q)
    ensures var r := RunFirst(Report(rq), q, State(groups, groups[rq.name]));
            r.Err? ==> exists h :: OnlyChecks(h) && CheckError(h, rq, groups) == Some(r.error)
    decreases |q|
  {
    if q != [] {
      var h, s := q[0], State(groups, groups[rq.name]);
      assert h in q && q == [h] + q[1..];
      RunStep(rq, h, q[1..], s);
      if OnlyChecks(h) {
        CheckRuns(rq, h, groups);
        ErrorIsOfCheck(rq, q[1..], groups);
      } else if h.LoadGroup? {
        ErrorIsOfCheck(rq, q[1..], groups);
      } else {
        LateStaysLate(q);
        LateNeverFails(rq, q, s);
      }
    }
  }

  lemma {:induction false} LateStaysLate(q: seq<GroupHook>)
    requires ModifyHooks(q) && ByPriority(Priority, q) && q != []
    requires q[0].PatchGroupExpansions? || q[0].SaveGroup?
    ensures forall k :: k in q ==> k.PatchGroupExpansions? || k.SaveGroup?
  {
    forall k | k in q ensures k.PatchGroupExpansions? || k.SaveGroup? {
      assert Priority(q[0]) <= Priority(k);
    }
  }

  lemma {:induction false} HooksOfOrder(chain: seq<GroupHook>, order: seq<GroupHook>)
    requires Orders(Priority, order, chain) && ModifyHooks(chain) && GroupHook.LoadGroup in chain
    ensures ModifyHooks(order) && order != [] && order[0].LoadGroup?
  {
    forall h | h in order ensures h in chain {
      SameHooks(Priority, chain, order, h);
    }
    SameHooks(Priority, chain, order, GroupHook.LoadGroup);
    LeastFirst(Priority, order, GroupHook.LoadGroup);
  }

  lemma {:induction false} ModifyOrderHooks(order: seq<GroupHook>)
    requires Orders(Priority, order, MODIFY_EXPANSIONS)
    ensures ModifyHooks(order) && order != [] && order[0].LoadGroup? && OnlyLast(Writes, order)
  {
    ModifyHooksIn();
    HooksOfOrder(MODIFY_EXPANSIONS, order);
    ModifyWritesLast();
    OrdersWriteLast(MODIFY_EXPANSIONS, order);
  }

  lemma {:induction false} ModifyWritesLast()
    ensures OnlyLast(Writes, MODIFY_EXPANSIONS)
  {
  }

  lemma {:induction false} ModifyReports(rq: Request, order: seq<GroupHook>, groups: Groups)
    requires Good(groups) && AllRequests(rq.expansions) && Orders(Priority, order, MODIFY_EXPANSIONS)
    ensures var r := RunChain(order, rq, groups);
            r.Err? ==> if rq.name in groups
                       then exists h :: OnlyChecks(h) && CheckError(h, rq, groups) == Some(r.error)
                       else r.error == UnknownGroup
  {
    ModifyOrderHooks(order);
    LoadedReports(rq, order, groups);
  }

  lemma {:induction false} LoadedReports(rq: Request, order: seq<GroupHook>, groups: Groups)
    requires Good(groups) && AllRequests(rq.expansions) && order != [] && order[0].LoadGroup?
    requires ModifyHooks(order) && OnlyLast(Writes, order) && ByPriority(Priority, order)
    ensures var r := RunChain(order, rq, groups);
            r.Err? ==> if rq.name in groups
                       then exists h :: OnlyChecks(h) && CheckError(h, rq, groups) == Some(r.error)
                       else r.error == UnknownGroup
  {
    assert order == [GroupHook.LoadGroup] + order[1..];
    RunStep(rq, GroupHook.LoadGroup, order[1..], State(groups, EMPTY_GROUP));
    if rq.name in groups {
      ErrorIsOfCheck(rq, order[1..], groups);
    }
  }

  /** The chain that changes rules, with a given check as the first. */
  function CheckingFirst(h: GroupHook): seq<GroupHook>
    requires OnlyChecks(h)
  {
    match h
    case CheckImmediateExpansions => MODIFY_EXPANSIONS
    case CheckExpansionCycles =>
      [LoadGroup, CheckExpansionCycles, CheckImmediateExpansions, CheckExpansionTargets, PatchGroupExpansions, SaveGroup]
    case CheckExpansionTargets =>
      [LoadGroup, CheckExpansionTargets, CheckImmediateExpansions, CheckExpansionCycles, PatchGroupExpansions, SaveGroup]
  }

  lemma {:induction false} CheckingFirstInOrder(h: GroupHook)
    requires OnlyChecks(h)
    ensures Orders(Priority, CheckingFirst(h), MODIFY_EXPANSIONS)
  {
    AdjacentByPriority(Priority, CheckingFirst(h));
    match h
    case CheckImmediateExpansions =>
    case CheckExpansionCycles =>
      MoveEarlier(MODIFY_EXPANSIONS, 1, 2, CheckingFirst(h));
    case CheckExpansionTargets =>
      MoveEarlier(MODIFY_EXPANSIONS, 1, 3, CheckingFirst(h));
  }

  /** An error of the first check is the one reported. */
  lemma {:induction false} FirstCheckReports(rq: Request, groups: Groups, h: GroupHook)
    requires Good(groups) && AllRequests(rq.expansions) && rq.name in groups && OnlyChecks(h)
    ensures CheckError(h, rq, groups).Some? ==>
              RunChain(CheckingFirst(h), rq, groups) == Err(CheckError(h, rq, groups).value)
  {
    var rest := CheckingFirst(h)[2..];
    assert CheckingFirst(h) == [GroupHook.LoadGroup] + ([h] + rest);
    RunStep(rq, GroupHook.LoadGroup, [h] + rest, State(groups, EMPTY_GROUP));
    RunStep(rq, h, rest, State(groups, groups[rq.name]));
    CheckRuns(rq, h, groups);
  }

  lemma {:induction false} DisagreementShows(rq: Request, groups: Groups)
    requires Good(groups) && AllRequests(rq.expansions) && rq.name in groups && ChecksDisagree(rq, groups)
    ensures !ReportsSettled(MODIFY_EXPANSIONS, rq, groups)
  {
    var h, k :| OnlyChecks(h) && OnlyChecks(k) && CheckError(h, rq, groups) == Some(ExistingExpansion)
                && CheckError(k, rq, groups) == Some(UnknownGroup);
    CheckingFirstInOrder(h);
    CheckingFirstInOrder(k);
    FirstCheckReports(rq, groups, h);
    FirstCheckReports(rq, groups, k);
    assert RunChain(CheckingFirst(h), rq, groups) != RunChain(CheckingFirst(k), rq, groups);
  }

  lemma {:induction false} AgreementSettles(rq: Request, groups: Groups, a: seq<GroupHook>, b: seq<GroupHook>)
    requires Good(groups) && AllRequests(rq.expansions) && (rq.name in groups ==> !ChecksDisagree(rq, groups))
    requires Orders(Priority, a, MODIFY_EXPANSIONS) && Orders(Priority, b, MODIFY_EXPANSIONS)
    ensures RunChain(a, rq, groups) == RunChain(b, rq, groups)
  {
    ChainsDeterministic(MODIFY_EXPANSIONS, a, b, rq, groups);
    ModifyReports(rq, a, groups);
    ModifyReports(rq, b, groups);
    if rq.name in groups && RunChain(a, rq, groups).Err? {
      var h :| OnlyChecks(h) && CheckError(h, rq, groups) == Some(RunChain(a, rq, groups).error);
      var k :| OnlyChecks(k) && CheckError(k, rq, groups) == Some(RunChain(b, rq, groups).error);
      CheckRuns(rq, h, groups);
      CheckRuns(rq, k, groups);
    }
  }

  /** Which error a default chain reports depends on the order of hooks of equal priority in one case only: a
      request for rules of a stored group on which two checks disagree. */
  lemma {:induction false} ErrorsSettledExactly(chain: seq<GroupHook>, rq: Request, groups: Groups)
    requires IsDefaultChain(chain) && Good(groups) && AllRequests(rq.expansions)
    ensures ReportsSettled(chain, rq, groups)
       <==> !(chain == MODIFY_EXPANSIONS && rq.name in groups && ChecksDisagree(rq, groups))
  {
    if chain != MODIFY_EXPANSIONS {
      DefaultTiesPlain(chain);
      ReportsSettledWithoutChecks(chain, rq, groups);
    } else if rq.name in groups && ChecksDisagree(rq, groups) {
      DisagreementShows(rq, groups);
    } else {
      forall a, b | Orders(Priority, a, chain) && Orders(Priority, b, chain)
        ensures RunChain(a, rq, groups) == RunChain(b, rq, groups)
      {
        AgreementSettles(rq, groups, a, b);
      }
    }
  }

  /** For instance a single rule whose target is missing, but whose name occurs in a rule of the group. */
  lemma {:induction false} ErrorDependsOnOrder(rq: Request, groups: Groups, mode: string, t: Name, e: string)
    requires Good(groups) && rq.name in groups && mode in {"INCLUDE", "EXCLUDE"}
    requires rq.expansions == [WithColon(mode, t)] && t !in groups
    requires e in groups[rq.name].expansions && Contains(e, t)
    ensures AllRequests(rq.expansions)
    ensures RunChain(CheckingFirst(CheckImmediateExpansions), rq, groups) == Err(ExistingExpansion)
    ensures RunChain(CheckingFirst(CheckExpansionTargets), rq, groups) == Err(UnknownGroup)
  {
    CutWithColon(mode, t);
    assert IsRequest(rq.expansions[0]) && !IsDrop(rq.expansions[0]);
    var k :| 0 <= k < |groups[rq.name].expansions| && groups[rq.name].expansions[k] == e;
    assert ProposesAgain(rq.expansions[0], groups[rq.name].expansions[k]);
    FirstCheckReports(rq, groups, CheckImmediateExpansions);
    FirstCheckReports(rq, groups, CheckExpansionTargets);
  }

  // ----- chains that write to the store last -----

  predicate Writes(h: GroupHook) {
    h.SaveGroup? || h.DestroyGroup?
  }

  lemma {:induction false} DefaultWritesLast(chain: seq<GroupHook>)
    requires IsDefaultChain(chain)
    ensures chain != [] && OnlyLast(Writes, chain)
  {
    if edit :| chain == Editing(edit) {
    } else if merge :| chain == Merging(merge) {
    }
  }

  lemma {:induction false} WritersRankHighest(h: GroupHook, k: GroupHook)
    requires Writes(h) && Priority(h) <= Priority(k)
    ensures Writes(k)
  {
  }

  /** Whatever order a chain got, it still touches the store in its last hook only. */
  lemma {:induction false} OrdersWriteLast(chain: seq<GroupHook>, order: seq<GroupHook>)
    requires OnlyLast(Writes, chain) && Orders(Priority, order, chain)
    ensures OnlyLast(Writes, order)
  {
    forall h, k | Writes(h) && Priority(h) <= Priority(k) ensures Writes(k) {
      WritersRankHighest(h, k);
    }
    OrdersKeepLast(Writes, Priority, chain, order);
  }

  // ----- what the chains do to the stored rules -----

  ghost function SavedExpansions(groups: Groups, rq: Request): seq<string>
    requires rq.name in groups && AllRequests(rq.expansions)
  {
    PatchSpec(groups[rq.name].expansions, rq.expansions)
  }

  /** When a request to change rules is accepted. */
  ghost predicate Accepted(groups: Groups, rq: Request)
    requires Good(groups) && AllRequests(rq.expansions)
  {
    && rq.name in groups
    && !ImmediateConflict(groups[rq.name].expansions, rq.expansions)
    && Expansions.CheckExpansionCycles(groups, rq.name, rq.expansions).None?
    && Expansions.CheckExpansionTargets(groups, rq.expansions).None?
  }

  /** The effect of the rule chain: a request is accepted or refused as a whole, and an accepted one changes
      only the rules of the group it names. */
  lemma {:induction false} ModifyEffect(groups: Groups, rq: Request)
    requires Good(groups) && AllRequests(rq.expansions)
    ensures var r := RunChain(MODIFY_EXPANSIONS, rq, groups);
            if Accepted(groups, rq) then
              var g := groups[rq.name].(expansions := SavedExpansions(groups, rq));
              r == Ok(State(groups[rq.name := g], g))
            else r.Err?
  {
    var s := State(groups, EMPTY_GROUP);
    assert MODIFY_EXPANSIONS == [LoadGroup] + MODIFY_LOADED;
    RunStep(rq, LoadGroup, MODIFY_LOADED, s);
    if rq.name in groups {
      ChecksEffect(rq, groups);
      PatchAndSave(rq, State(groups, groups[rq.name]));
    }
  }

  const MODIFY_LOADED: seq<GroupHook> :=
    [CheckImmediateExpansions, CheckExpansionCycles, CheckExpansionTargets, PatchGroupExpansions, SaveGroup]

  lemma {:induction false} PatchAndSave(rq: Request, t: State)
    requires Runnable(rq, t)
    ensures var g := t.g.(expansions := PatchSpec(t.g.expansions, rq.expansions));
            RunFirst(Report(rq), [PatchGroupExpansions, SaveGroup], t) == Ok(State(t.groups[g.name := g], g))
  {
    var u := t.(g := t.g.(expansions := PatchSpec(t.g.expansions, rq.expansions)));
    assert [PatchGroupExpansions, SaveGroup] == [PatchGroupExpansions] + ([SaveGroup] + []);
    RunStep(rq, PatchGroupExpansions, [SaveGroup] + [], t);
    RunStep(rq, SaveGroup, [], u);
  }

  lemma {:induction false} CheckStep(rq: Request, h: GroupHook, rest: seq<GroupHook>, groups: Groups)
    requires Good(groups) && AllRequests(rq.expansions) && rq.name in groups && OnlyChecks(h)
    ensures var s := State(groups, groups[rq.name]);
            RunFirst(Report(rq), [h] + rest, s)
            == match CheckError(h, rq, groups) case None => RunFirst(Report(rq), rest, s) case Some(e) => Err(e)
  {
    RunStep(rq, h, rest, State(groups, groups[rq.name]));
    CheckRuns(rq, h, groups);
  }

  lemma {:induction false} ChecksEffect(rq: Request, groups: Groups)
    requires Good(groups) && AllRequests(rq.expansions) && rq.name in groups
    ensures var s := State(groups, groups[rq.name]);
            var r := RunFirst(Report(rq), MODIFY_LOADED, s);
            if Accepted(groups, rq) then r == RunFirst(Report(rq), [PatchGroupExpansions, SaveGroup], s) else r.Err?
  {
    var two := [PatchGroupExpansions, SaveGroup];
    var three, four := [CheckExpansionTargets] + two, [CheckExpansionCycles] + ([CheckExpansionTargets] + two);
    assert MODIFY_LOADED == [CheckImmediateExpansions] + four;
    CheckStep(rq, CheckImmediateExpansions, four, groups);
    CheckStep(rq, CheckExpansionCycles, three, groups);
    CheckStep(rq, CheckExpansionTargets, two, groups);
  }

  lemma {:induction false} CreatePermuted()
    ensures multiset(CREATE_IN_ORDER) == multiset(CREATE)
  {
    MoveEarlier(CREATE, 1, 2, CREATE_IN_ORDER);
  }

  lemma {:induction false} CreateSorted()
    ensures ByPriority(Priority, CREATE_IN_ORDER)
  {
    AdjacentByPriority(Priority, CREATE_IN_ORDER);
  }

  lemma {:induction false} CreateInOrder()
    ensures Orders(Priority, CREATE_IN_ORDER, CREATE)
  {
    CreatePermuted();
    CreateSorted();
  }

  lemma {:induction false} OthersInOrder()
    ensures Orders(Priority, DESTROY, DESTROY) && Orders(Priority, MODIFY_EXPANSIONS, MODIFY_EXPANSIONS)
  {
    AdjacentByPriority(Priority, DESTROY);
    AdjacentByPriority(Priority, MODIFY_EXPANSIONS);
  }

  // ----- the default table -----

  /** The chains that edit a loaded record, with the hook that each of them runs. */
  const EDITS: map<string, string> := map[
    "SET-CAPABILITY" := "set-group-capability", "DROP-CAPABILITY" := "remove-group-capability",
    "UGM-UPSERT" := "add-untyped-metadata", "UGM-CLEARFUZZY" := "del-untyped-metadata-fuzzy",
    "UGM-CLEAREXACT" := "del-untyped-metadata-exact",
    "KV-ADD" := "kv-add", "KV-DEL" := "kv-del", "KV-REPLACE" := "kv-replace"]

  /** What the editing hooks do, by name, and what a merge does to the other fields. */
  datatype GroupEdits = GroupEdits(edit: string -> GroupEdit, merge: (Request, Group) -> Group)

  ghost predicate IsDefault(edits: GroupEdits, name: string, chain: seq<GroupHook>) {
    || (name == "CREATE" && chain == CREATE)
    || (name == "DESTROY" && chain == DESTROY)
    || (name == "FETCH" && chain == FETCH)
    || (name == "MODIFY-EXPANSIONS" && chain == MODIFY_EXPANSIONS)
    || (name == "MERGE-METADATA" && chain == Merging(edits.merge))
    || (name in EDITS && chain == Editing(edits.edit(EDITS[name])))
  }

  /** The default chains are there, each in some order that respects the priorities. */
  ghost predicate ChainsReady(edits: GroupEdits, processes: map<string, seq<GroupHook>>) {
    forall name, chain :: IsDefault(edits, name, chain) ==> Orders(Priority, Registered(processes, name), chain)
  }

  /** What a registered chain does, whatever order it was registered in: what its hooks do in any order that
      respects the priorities, writing last; and but for the chain that changes rules it reports the same. */
  lemma {:induction false} RegisteredChain(edits: GroupEdits, processes: map<string, seq<GroupHook>>, name: string,
                                           chain: seq<GroupHook>, order: seq<GroupHook>, rq: Request, groups: Groups)
    requires ChainsReady(edits, processes) && IsDefault(edits, name, chain) && Orders(Priority, order, chain)
    ensures OnlyLast(Writes, Registered(processes, name))
    ensures Orders(Priority, Registered(processes, name), chain)
    ensures SameOutcome(RunChain(Registered(processes, name), rq, groups), RunChain(order, rq, groups))
    ensures chain != MODIFY_EXPANSIONS ==>
              RunChain(Registered(processes, name), rq, groups) == RunChain(order, rq, groups)
  {
    DefaultIsDefault(edits, name, chain);
    DefaultWritesLast(chain);
    OrdersWriteLast(chain, Registered(processes, name));
    ChainsDeterministic(chain, Registered(processes, name), order, rq, groups);
    if chain != MODIFY_EXPANSIONS {
      DefaultTiesPlain(chain);
      ReportsSettledWithoutChecks(chain, rq, groups);
    }
  }

  lemma {:induction false} DefaultIsDefault(edits: GroupEdits, name: string, chain: seq<GroupHook>)
    requires IsDefault(edits, name, chain)
    ensures IsDefaultChain(chain)
  {
  }

  lemma {:induction false} ShortInOrder(edit: GroupEdit, merge: (Request, Group) -> Group)
    ensures Orders(Priority, Editing(edit), Editing(edit)) && Orders(Priority, Merging(merge), Merging(merge))
  {
    AdjacentByPriority(Priority, Editing(edit));
    AdjacentByPriority(Priority, Merging(merge));
  }
}

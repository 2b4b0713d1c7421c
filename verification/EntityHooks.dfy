/** The hooks that act on entities and the default chains made of them. */
module EntityHooks {
  import opened Outcomes
  import opened Digraph
  import opened HookChains
  import Expansions

  datatype Entity = Entity(id: Name, number: int, secret: string, locked: bool,
                           groups: seq<Name>, capabilities: seq<Expansions.Capability>)

  type Entities = map<Name, Entity>

  datatype EntityError =
    | UnknownEntity | DuplicateEntityID | EntityLocked | BadSecret | NoNumber
    | UnknownCapability | KeyExists | NoSuchKey | FailedPrecondition

  /** What a caller asks for, together with what the store and the crypto library answer: the number the store
      would allocate for a requested -1, what the secret looks like when secured, and which secured secrets it
      matches. `update` stands for whatever else a request carries, which only edits look at. */
  datatype EntityRequest = EntityRequest(id: Name, number: int, nextNumber: Option<int>, secured: Option<string>,
                                         verifies: string -> bool, update: string)

  type EntityEdit = (EntityRequest, Entity) -> Result<Entity, EntityError>

  /** The stored entities and the record that a chain works on. */
  datatype EntityState = EntityState(entities: Entities, e: Entity)

  const EMPTY_ENTITY := Entity("", 0, "", false, [], [])

  /** Amend stands for the hooks that edit the metadata of a loaded record; it may fail. */
  datatype EntityHook =
    | LoadEntity | FailOnExistingEntity | EnsureEntityMeta
    | SetEntityID | SetEntityNumber | SetEntitySecret
    | ValidateEntityUnlocked | ValidateEntitySecret
    | Amend(edit: EntityEdit)
    | SaveEntity | DestroyEntity

  function Priority(h: EntityHook): int {
    match h
    case LoadEntity => 0
    case FailOnExistingEntity => 0
    case EnsureEntityMeta => 20
    case ValidateEntityUnlocked => 20
    case SetEntityID => 50
    case SetEntityNumber => 50
    case SetEntitySecret => 50
    case ValidateEntitySecret => 50
    case Amend(_) => 50
    case SaveEntity => 99
    case DestroyEntity => 99
  }

  const CREATE: seq<EntityHook> := [FailOnExistingEntity, SetEntityID, SetEntityNumber, SetEntitySecret, SaveEntity]
  const DESTROY: seq<EntityHook> := [LoadEntity, DestroyEntity]
  const FETCH: seq<EntityHook> := [LoadEntity]
  const SET_SECRET: seq<EntityHook> := [LoadEntity, SetEntitySecret, SaveEntity]
  const VALIDATE_IDENTITY: seq<EntityHook> := [LoadEntity, ValidateEntityUnlocked, ValidateEntitySecret, SaveEntity]

  /** The chains that load a record, edit its metadata and save it. */
  function Editing(edit: EntityEdit): seq<EntityHook> {
    [LoadEntity, EnsureEntityMeta, Amend(edit), SaveEntity]
  }

  ghost predicate IsDefaultChain(chain: seq<EntityHook>) {
    || chain == CREATE || chain == DESTROY || chain == FETCH || chain == SET_SECRET || chain == VALIDATE_IDENTITY
    || exists edit :: chain == Editing(edit)
  }

  /** A hook that leaves the store alone: the record it makes of e, or the error that ends the chain. */
  function Step(h: EntityHook, rq: EntityRequest, entities: Entities, e: Entity): Result<Entity, EntityError>
    requires !Writes(h)
  {
    match h
    case LoadEntity => if rq.id in entities then Ok(entities[rq.id]) else Err(UnknownEntity)
    case FailOnExistingEntity => if rq.id in entities then Err(DuplicateEntityID) else Ok(e)
    case EnsureEntityMeta => Ok(e)
    case SetEntityID => Ok(e.(id := rq.id))
    case SetEntityNumber =>
      if rq.number != -1 then Ok(e.(number := rq.number))
      else if rq.nextNumber.Some? then Ok(e.(number := rq.nextNumber.value))
      else Err(NoNumber)
    case SetEntitySecret => if rq.secured.Some? then Ok(e.(secret := rq.secured.value)) else Err(BadSecret)
    case ValidateEntityUnlocked => if e.locked then Err(EntityLocked) else Ok(e)
    case ValidateEntitySecret => if rq.verifies(e.secret) then Ok(e) else Err(BadSecret)
    case Amend(edit) =>
      match edit(rq, e)
      case Ok(d) => Ok(d.(id := e.id))
      case Err(x) => Err(x)
  }

  predicate Writes(h: EntityHook) {
    h.SaveEntity? || h.DestroyEntity?
  }

  /** One hook of a chain. */
  function RunEntityHook(rq: EntityRequest, h: EntityHook, s: EntityState): Result<EntityState, EntityError> {
    match h
    case SaveEntity => Ok(s.(entities := s.entities[s.e.id := s.e]))
    case DestroyEntity =>
      var e := if s.e.id == "" then s.e.(id := rq.id) else s.e;
      Ok(EntityState(s.entities - {e.id}, e))
    case _ =>
      match Step(h, rq, s.entities, s.e)
      case Ok(e) => Ok(s.(e := e))
      case Err(x) => Err(x)
  }

  function Report(rq: EntityRequest): (EntityHook, EntityState) -> Result<EntityState, EntityError> {
    (h: EntityHook, s: EntityState) => RunEntityHook(rq, h, s)
  }

  /** What a chain makes of the store, or the first error in it. */
  ghost function RunChain(chain: seq<EntityHook>, rq: EntityRequest, entities: Entities)
    : Result<EntityState, EntityError>
  {
    RunFirst(Report(rq), chain, EntityState(entities, EMPTY_ENTITY))
  }

  lemma {:induction false} RunStep(rq: EntityRequest, h: EntityHook, rest: seq<EntityHook>, s: EntityState)
    ensures var r := RunEntityHook(rq, h, s);
            RunFirst(Report(rq), [h] + rest, s) == if r.Err? then Err(r.error) else RunFirst(Report(rq), rest, r.value)
  {
    RunFirstCons(Report(rq), h, rest, s);
  }

  lemma {:induction false} RunTwoHooks(rq: EntityRequest, h: EntityHook, k: EntityHook, s: EntityState)
    ensures RunFirst(Report(rq), [h, k], s)
         == match RunEntityHook(rq, h, s) case Err(e) => Err(e) case Ok(t) => RunEntityHook(rq, k, t)
  {
    assert [h, k] == [h] + ([k] + []);
    RunStep(rq, h, [k] + [], s);
    match RunEntityHook(rq, h, s)
    case Err(_) =>
    case Ok(t) => RunStep(rq, k, [], t);
  }

  // ----- the order of equal priorities does not matter -----

  predicate Sets(h: EntityHook) {
    h.SetEntityID? || h.SetEntityNumber? || h.SetEntitySecret?
  }

  function NumberFor(rq: EntityRequest): Option<int> {
    if rq.number != -1 then Some(rq.number) else rq.nextNumber
  }

  /** Why a setter fails, if it does: that depends on the request alone. */
  function SetError(h: EntityHook, rq: EntityRequest): Option<EntityError>
    requires Sets(h)
  {
    match h
    case SetEntityID => None
    case SetEntityNumber => if NumberFor(rq).Some? then None else Some(NoNumber)
    case SetEntitySecret => if rq.secured.Some? then None else Some(BadSecret)
  }

  function SetField(h: EntityHook, rq: EntityRequest, e: Entity): Entity
    requires Sets(h) && SetError(h, rq).None?
  {
    match h
    case SetEntityID => e.(id := rq.id)
    case SetEntityNumber => e.(number := NumberFor(rq).value)
    case SetEntitySecret => e.(secret := rq.secured.value)
  }

  lemma {:induction false} SetRuns(rq: EntityRequest, h: EntityHook, s: EntityState)
    requires Sets(h)
    ensures RunEntityHook(rq, h, s)
         == match SetError(h, rq) case Some(x) => Err(x) case None => Ok(s.(e := SetField(h, rq, s.e)))
  {
  }

  lemma {:induction false} SettersIndependent(h: EntityHook, k: EntityHook, rq: EntityRequest, e: Entity)
    requires Sets(h) && Sets(k) && SetError(h, rq).None? && SetError(k, rq).None?
    ensures SetField(k, rq, SetField(h, rq, e)) == SetField(h, rq, SetField(k, rq, e))
  {
  }

  ghost function SetBoth(h: EntityHook, k: EntityHook, rq: EntityRequest, s: EntityState)
    : Result<EntityState, EntityError>
    requires Sets(h) && Sets(k)
  {
    if SetError(h, rq).Some? then Err(SetError(h, rq).value)
    else if SetError(k, rq).Some? then Err(SetError(k, rq).value)
    else Ok(s.(e := SetField(k, rq, SetField(h, rq, s.e))))
  }

  lemma {:induction false} SetPair(rq: EntityRequest, h: EntityHook, k: EntityHook, s: EntityState)
    requires Sets(h) && Sets(k)
    ensures SetBoth(h, k, rq, s)
         == match RunEntityHook(rq, h, s) case Err(e) => Err(e) case Ok(t) => RunEntityHook(rq, k, t)
  {
    SetRuns(rq, h, s);
    if SetError(h, rq).None? {
      SetRuns(rq, k, s.(e := SetField(h, rq, s.e)));
    }
  }

  /** Two setters give the same record in either order, and fail together. */
  lemma {:induction false} SetsCommute(rq: EntityRequest, h: EntityHook, k: EntityHook)
    requires Sets(h) && Sets(k)
    ensures Commute(Silent(Report(rq)), h, k)
  {
    forall s ensures RunAll(Silent(Report(rq)), [h, k], s) == RunAll(Silent(Report(rq)), [k, h], s) {
      SilentPair(rq, h, k, s);
      SilentPair(rq, k, h, s);
      if SetError(h, rq).None? && SetError(k, rq).None? {
        SettersIndependent(h, k, rq, s.e);
      }
    }
  }

  lemma {:induction false} SilentPair(rq: EntityRequest, h: EntityHook, k: EntityHook, s: EntityState)
    requires Sets(h) && Sets(k)
    ensures RunAll(Silent(Report(rq)), [h, k], s)
         == match SetBoth(h, k, rq, s) case Err(_) => None case Ok(t) => Some(t)
  {
    RunAllIsSilent(Report(rq), [h, k], s);
    RunTwoHooks(rq, h, k, s);
    SetPair(rq, h, k, s);
  }

  /** They also fail alike, unless both of them fail. */
  lemma {:induction false} SetsFailAlike(rq: EntityRequest, h: EntityHook, k: EntityHook)
    requires Sets(h) && Sets(k) && (NumberFor(rq).Some? || rq.secured.Some?)
    ensures Commute(Carried(Report(rq)), h, k)
  {
    forall s
      ensures (match Report(rq)(h, s) case Err(e) => Err(e) case Ok(t) => Report(rq)(k, t))
           == (match Report(rq)(k, s) case Err(e) => Err(e) case Ok(t) => Report(rq)(h, t))
    {
      SetPair(rq, h, k, s);
      SetPair(rq, k, h, s);
      if SetError(h, rq).None? && SetError(k, rq).None? {
        SettersIndependent(h, k, rq, s.e);
      }
    }
    CarriedCommute(Report(rq), h, k);
  }

  /** Hooks of equal priority in a default chain: the same hook or two setters. */
  ghost predicate TiesPlain(chain: seq<EntityHook>) {
    forall h, k :: h in chain && k in chain && Priority(h) == Priority(k) ==> h == k || (Sets(h) && Sets(k))
  }

  ghost predicate CreateHooks(q: seq<EntityHook>) {
    forall h :: h in q ==> Sets(h) || h.FailOnExistingEntity? || h.SaveEntity?
  }

  lemma {:induction false} CreateHooksIn()
    ensures CreateHooks(CREATE) && FailOnExistingEntity in CREATE
  {
    assert CREATE[0] == FailOnExistingEntity;
  }

  lemma {:induction false} HooksTiesPlain(q: seq<EntityHook>)
    ensures CreateHooks(q) ==> TiesPlain(q)
  {
  }

  lemma {:induction false} ShortTiesPlain()
    ensures TiesPlain(DESTROY) && TiesPlain(FETCH)
    ensures forall h :: h in DESTROY || h in FETCH ==> !Sets(h)
  {
  }

  lemma {:induction false} SecretTiesPlain()
    ensures TiesPlain(SET_SECRET)
    ensures forall h, k :: h in SET_SECRET && k in SET_SECRET && Sets(h) && Sets(k) ==> h == k
  {
  }

  lemma {:induction false} ValidateTiesPlain()
    ensures TiesPlain(VALIDATE_IDENTITY) && forall h :: h in VALIDATE_IDENTITY ==> !Sets(h)
  {
    forall h | h in VALIDATE_IDENTITY
      ensures h.LoadEntity? || h.ValidateEntityUnlocked? || h.ValidateEntitySecret? || h.SaveEntity?
    {
    }
  }

  lemma {:induction false} EditingTiesPlain(edit: EntityEdit)
    ensures TiesPlain(Editing(edit)) && forall h :: h in Editing(edit) ==> !Sets(h)
  {
  }

  /** Only the creation chain has hooks of equal priority that differ. */
  lemma {:induction false} DefaultTiesPlain(chain: seq<EntityHook>)
    requires IsDefaultChain(chain)
    ensures TiesPlain(chain)
    ensures chain != CREATE ==>
              forall h, k :: h in chain && k in chain && Priority(h) == Priority(k) ==> h == k
  {
    if edit :| chain == Editing(edit) {
      EditingTiesPlain(edit);
    } else {
      CreateHooksIn();
      HooksTiesPlain(chain);
      ShortTiesPlain();
      SecretTiesPlain();
      ValidateTiesPlain();
    }
  }

  /** In a default chain, hooks of equal priority commute, failures included. */
  lemma {:induction false} DefaultTiesCommute(rq: EntityRequest, chain: seq<EntityHook>)
    requires TiesPlain(chain)
    ensures TiesCommute(Silent(Report(rq)), Priority, chain)
  {
    forall h, k | h in chain && k in chain && Priority(h) == Priority(k) ensures Commute(Silent(Report(rq)), h, k) {
      PlainTieCommutes(rq, h, k);
    }
  }

  lemma {:induction false} PlainTieCommutes(rq: EntityRequest, h: EntityHook, k: EntityHook)
    requires h == k || (Sets(h) && Sets(k))
    ensures Commute(Silent(Report(rq)), h, k)
  {
    if Sets(h) && Sets(k) {
      SetsCommute(rq, h, k);
    }
  }

  /** Whatever the registration order and the sort did with ties, a default chain succeeds on the same
      requests and leaves the same record and the same store. */
  lemma {:induction false} EntityChainsDeterministic(chain: seq<EntityHook>, order: seq<EntityHook>,
                                                     order': seq<EntityHook>, rq: EntityRequest, entities: Entities)
    requires IsDefaultChain(chain) && Orders(Priority, order, chain) && Orders(Priority, order', chain)
    ensures SameOutcome(RunChain(order, rq, entities), RunChain(order', rq, entities))
  {
    DefaultTiesPlain(chain);
    DefaultTiesCommute(rq, chain);
    var s := EntityState(entities, EMPTY_ENTITY);
    OutcomeSettled(Silent(Report(rq)), Priority, chain, order, order', s);
    RunAllIsSilent(Report(rq), order, s);
    RunAllIsSilent(Report(rq), order', s);
  }

  // ----- the order of equal priorities and the error -----

  /** All priority orders of a chain report the same. */
  ghost predicate ReportsSettled(chain: seq<EntityHook>, rq: EntityRequest, entities: Entities) {
    forall a, b :: Orders(Priority, a, chain) && Orders(Priority, b, chain) ==>
      RunChain(a, rq, entities) == RunChain(b, rq, entities)
  }

  lemma {:induction false} ReportsSettledByTies(chain: seq<EntityHook>, rq: EntityRequest, entities: Entities)
    requires TiesCommute(Carried(Report(rq)), Priority, chain)
    ensures ReportsSettled(chain, rq, entities)
  {
    forall a, b | Orders(Priority, a, chain) && Orders(Priority, b, chain)
      ensures RunChain(a, rq, entities) == RunChain(b, rq, entities)
    {
      ReportSettled(Report(rq), Priority, chain, a, b, EntityState(entities, EMPTY_ENTITY));
    }
  }

  lemma {:induction false} NoTiesCommute(chain: seq<EntityHook>, rq: EntityRequest)
    requires forall h, k :: h in chain && k in chain && Priority(h) == Priority(k) ==> h == k
    ensures TiesCommute(Carried(Report(rq)), Priority, chain)
  {
  }

  lemma {:induction false} CreateTiesCommute(chain: seq<EntityHook>, rq: EntityRequest)
    requires TiesPlain(chain) && (NumberFor(rq).Some? || rq.secured.Some?)
    ensures TiesCommute(Carried(Report(rq)), Priority, chain)
  {
    forall h, k | h in chain && k in chain && Priority(h) == Priority(k) ensures Commute(Carried(Report(rq)), h, k) {
      if Sets(h) && Sets(k) {
        SetsFailAlike(rq, h, k);
      }
    }
  }

  /** Where the id is taken, that is what every order of the creation chain reports. */
  lemma {:induction false} TakenReported(order: seq<EntityHook>, rq: EntityRequest, entities: Entities)
    requires Orders(Priority, order, CREATE) && rq.id in entities
    ensures RunChain(order, rq, entities) == Err(DuplicateEntityID)
  {
    FailsFirst(order);
    assert order == [order[0]] + order[1..];
    RunStep(rq, order[0], order[1..], EntityState(entities, EMPTY_ENTITY));
  }

  lemma {:induction false} FailsFirst(order: seq<EntityHook>)
    requires Orders(Priority, order, CREATE)
    ensures order != [] && order[0] == FailOnExistingEntity
  {
    CreateHooksIn();
    SameHooks(Priority, CREATE, order, FailOnExistingEntity);
    LeastFirst(Priority, order, FailOnExistingEntity);
    SameHooks(Priority, CREATE, order, order[0]);
  }

  /** The creation chain with the secret set before the number. */
  const SECRET_FIRST: seq<EntityHook> :=
    [FailOnExistingEntity, SetEntityID, SetEntitySecret, SetEntityNumber, SaveEntity]

  lemma {:induction false} SecretFirstInOrder()
    ensures Orders(Priority, SECRET_FIRST, CREATE)
  {
    AdjacentByPriority(Priority, SECRET_FIRST);
    MoveEarlier(CREATE, 2, 3, SECRET_FIRST);
  }

  /** A request with neither a number nor a secret that can be secured: the error depends on the order. */
  lemma {:induction false} ErrorDependsOnOrder(rq: EntityRequest, entities: Entities)
    requires rq.id !in entities && NumberFor(rq).None? && rq.secured.None?
    ensures RunChain(CREATE, rq, entities) == Err(NoNumber)
    ensures RunChain(SECRET_FIRST, rq, entities) == Err(BadSecret)
  {
    var s := EntityState(entities, EMPTY_ENTITY);
    CreateEffect(rq, entities);
    SecretFails(rq, s);
  }

  lemma {:induction false} SecretFails(rq: EntityRequest, s: EntityState)
    requires rq.id !in s.entities && rq.secured.None?
    ensures RunFirst(Report(rq), SECRET_FIRST, s) == Err(BadSecret)
  {
    assert SECRET_FIRST
        == [FailOnExistingEntity] + ([SetEntityID] + ([SetEntitySecret] + [SetEntityNumber, SaveEntity]));
    RunStep(rq, FailOnExistingEntity, [SetEntityID] + ([SetEntitySecret] + [SetEntityNumber, SaveEntity]), s);
    RunStep(rq, SetEntityID, [SetEntitySecret] + [SetEntityNumber, SaveEntity], s);
    RunStep(rq, SetEntitySecret, [SetEntityNumber, SaveEntity], s.(e := s.e.(id := rq.id)));
  }

  /** Which error a default chain reports depends on the order of hooks of equal priority in that case only. */
  lemma {:induction false} ErrorsSettledExactly(chain: seq<EntityHook>, rq: EntityRequest, entities: Entities)
    requires IsDefaultChain(chain)
    ensures ReportsSettled(chain, rq, entities)
       <==> !(chain == CREATE && rq.id !in entities && NumberFor(rq).None? && rq.secured.None?)
  {
    DefaultTiesPlain(chain);
    if chain != CREATE {
      NoTiesCommute(chain, rq);
      ReportsSettledByTies(chain, rq, entities);
    } else if rq.id in entities {
      forall a, b | Orders(Priority, a, chain) && Orders(Priority, b, chain)
        ensures RunChain(a, rq, entities) == RunChain(b, rq, entities)
      {
        TakenReported(a, rq, entities);
        TakenReported(b, rq, entities);
      }
    } else if NumberFor(rq).Some? || rq.secured.Some? {
      CreateTiesCommute(chain, rq);
      ReportsSettledByTies(chain, rq, entities);
    } else {
      ErrorDependsOnOrder(rq, entities);
      SecretFirstInOrder();
      DefaultsInOrder();
    }
  }

  // ----- what the chains do -----

  lemma {:induction false} DefaultWritesLast(chain: seq<EntityHook>)
    requires IsDefaultChain(chain)
    ensures OnlyLast(Writes, chain)
  {
    if edit :| chain == Editing(edit) {
    }
  }

  lemma {:induction false} WritersRankHighest(h: EntityHook, k: EntityHook)
    requires Writes(h) && Priority(h) <= Priority(k)
    ensures Writes(k)
  {
  }

  /** Whatever order a chain got, it still touches the store in its last hook only. */
  lemma {:induction false} OrdersWriteLast(chain: seq<EntityHook>, order: seq<EntityHook>)
    requires OnlyLast(Writes, chain) && Orders(Priority, order, chain)
    ensures OnlyLast(Writes, order)
  {
    forall h, k | Writes(h) && Priority(h) <= Priority(k) ensures Writes(k) {
      WritersRankHighest(h, k);
    }
    OrdersKeepLast(Writes, Priority, chain, order);
  }

  /** The creation chain stores a record of its own making, and only under a free id. */
  lemma {:induction false} CreateEffect(rq: EntityRequest, entities: Entities)
    ensures RunChain(CREATE, rq, entities)
         == if rq.id in entities then Err(DuplicateEntityID)
            else if NumberFor(rq).None? then Err(NoNumber)
            else if rq.secured.None? then Err(BadSecret)
            else
              var e := Entity(rq.id, NumberFor(rq).value, rq.secured.value, false, [], []);
              Ok(EntityState(entities[rq.id := e], e))
  {
    var s0 := EntityState(entities, EMPTY_ENTITY);
    assert CREATE == [FailOnExistingEntity] + ([SetEntityID] + ([SetEntityNumber] + [SetEntitySecret, SaveEntity]));
    RunStep(rq, FailOnExistingEntity, [SetEntityID] + ([SetEntityNumber] + [SetEntitySecret, SaveEntity]), s0);
    RunStep(rq, SetEntityID, [SetEntityNumber] + [SetEntitySecret, SaveEntity], s0);
    NumberAndSecret(rq, s0.(e := s0.e.(id := rq.id)));
  }

  lemma {:induction false} NumberAndSecret(rq: EntityRequest, s: EntityState)
    ensures RunFirst(Report(rq), [SetEntityNumber] + [SetEntitySecret, SaveEntity], s)
         == if NumberFor(rq).None? then Err(NoNumber)
            else if rq.secured.None? then Err(BadSecret)
            else
              var e := s.e.(number := NumberFor(rq).value, secret := rq.secured.value);
              Ok(EntityState(s.entities[e.id := e], e))
  {
    RunStep(rq, SetEntityNumber, [SetEntitySecret, SaveEntity], s);
    if NumberFor(rq).Some? {
      RunTwoHooks(rq, SetEntitySecret, SaveEntity, s.(e := s.e.(number := NumberFor(rq).value)));
    }
  }

  lemma {:induction false} DefaultsInOrder()
    ensures Orders(Priority, CREATE, CREATE) && Orders(Priority, DESTROY, DESTROY)
  {
    AdjacentByPriority(Priority, CREATE);
    AdjacentByPriority(Priority, DESTROY);
  }

  /** What the creation chain does, whatever order it was registered in. */
  lemma {:induction false} CreateSettled(rq: EntityRequest, order: seq<EntityHook>, entities: Entities)
    requires Orders(Priority, order, CREATE)
    ensures OnlyLast(Writes, order)
    ensures var r := RunChain(order, rq, entities);
            if rq.id !in entities && NumberFor(rq).Some? && rq.secured.Some? then
              var e := Entity(rq.id, NumberFor(rq).value, rq.secured.value, false, [], []);
              r == Ok(EntityState(entities[rq.id := e], e))
            else r.Err? && (rq.id in entities ==> r.error == DuplicateEntityID)
  {
    DefaultWritesLast(CREATE);
    OrdersWriteLast(CREATE, order);
    DefaultsInOrder();
    EntityChainsDeterministic(CREATE, order, CREATE, rq, entities);
    CreateEffect(rq, entities);
    if rq.id in entities {
      TakenReported(order, rq, entities);
    }
  }

  lemma {:induction false} DestroySettled(rq: EntityRequest, order: seq<EntityHook>, entities: Entities)
    requires Orders(Priority, order, DESTROY)
    requires forall id :: id in entities ==> entities[id].id == id
    ensures OnlyLast(Writes, order)
    ensures RunChain(order, rq, entities)
         == if rq.id in entities then Ok(EntityState(entities - {rq.id}, entities[rq.id])) else Err(UnknownEntity)
  {
    DefaultWritesLast(DESTROY);
    OrdersWriteLast(DESTROY, order);
    DefaultsInOrder();
    ErrorsSettledExactly(DESTROY, rq, entities);
    DestroyEffect(rq, entities);
  }

  lemma {:induction false} DestroyEffect(rq: EntityRequest, entities: Entities)
    requires forall id :: id in entities ==> entities[id].id == id
    ensures RunChain(DESTROY, rq, entities)
         == if rq.id in entities then Ok(EntityState(entities - {rq.id}, entities[rq.id])) else Err(UnknownEntity)
  {
    RunTwoHooks(rq, LoadEntity, DestroyEntity, EntityState(entities, EMPTY_ENTITY));
  }

  /** An editing chain changes the one record it loaded, or nothing. */
  lemma {:induction false} EditEffect(edit: EntityEdit, rq: EntityRequest, entities: Entities)
    requires forall id :: id in entities ==> entities[id].id == id
    ensures RunChain(Editing(edit), rq, entities)
         == if rq.id !in entities then Err(UnknownEntity)
            else
              match edit(rq, entities[rq.id])
              case Err(x) => Err(x)
              case Ok(d) => var e := d.(id := rq.id); Ok(EntityState(entities[rq.id := e], e))
  {
    var s := EntityState(entities, EMPTY_ENTITY);
    assert Editing(edit) == [LoadEntity] + ([EnsureEntityMeta] + [Amend(edit), SaveEntity]);
    RunStep(rq, LoadEntity, [EnsureEntityMeta] + [Amend(edit), SaveEntity], s);
    if rq.id in entities {
      RunStep(rq, EnsureEntityMeta, [Amend(edit), SaveEntity], s.(e := entities[rq.id]));
      RunTwoHooks(rq, Amend(edit), SaveEntity, s.(e := entities[rq.id]));
    }
  }

  /** Running the rest of a chain: its first hook, and then the rest after that. */
  lemma {:induction false} NextHook(rq: EntityRequest, chain: seq<EntityHook>, i: nat, s: EntityState)
    requires i < |chain|
    ensures RunFirst(Report(rq), chain[i..], s)
         == match RunEntityHook(rq, chain[i], s)
            case Err(e) => Err(e)
            case Ok(t) => RunFirst(Report(rq), chain[i + 1..], t)
  {
    assert chain[i..] == [chain[i]] + chain[i + 1..];
    RunStep(rq, chain[i], chain[i + 1..], s);
  }

  // ----- the default table -----

  /** The chains that edit a loaded record, with the hook that each of them runs. */
  const EDITS: map<string, string> := map[
    "SET-CAPABILITY" := "set-entity-capability", "DROP-CAPABILITY" := "remove-entity-capability",
    "ADD-KEY" := "add-entity-key", "DEL-KEY" := "del-entity-key",
    "MERGE-METADATA" := "merge-entity-meta",
    "LOCK" := "lock-entity", "UNLOCK" := "unlock-entity",
    "UEM-UPSERT" := "add-untyped-metadata", "UEM-CLEARFUZZY" := "del-untyped-metadata-fuzzy",
    "UEM-CLEAREXACT" := "del-untyped-metadata-exact",
    "KV-ADD" := "kv-add", "KV-DEL" := "kv-del", "KV-REPLACE" := "kv-replace",
    "GROUP-ADD" := "add-direct-group", "GROUP-DEL" := "del-direct-group"]

  /** What each editing hook does, by the name of the hook. */
  type EntityEdits = string -> EntityEdit

  ghost predicate IsDefault(edits: EntityEdits, name: string, chain: seq<EntityHook>) {
    || (name == "CREATE" && chain == CREATE)
    || (name == "DESTROY" && chain == DESTROY)
    || (name == "FETCH" && chain == FETCH)
    || (name == "SET-SECRET" && chain == SET_SECRET)
    || (name == "VALIDATE-IDENTITY" && chain == VALIDATE_IDENTITY)
    || (name in EDITS && chain == Editing(edits(EDITS[name])))
  }

  /** The default chains are there, each in some order that respects the priorities. */
  ghost predicate ChainsReady(edits: EntityEdits, processes: map<string, seq<EntityHook>>) {
    forall name, chain :: IsDefault(edits, name, chain) ==> Orders(Priority, Registered(processes, name), chain)
  }

  /** What a registered chain does, whatever order it was registered in: what its hooks do in any order that
      respects the priorities, writing last. */
  lemma {:induction false} RegisteredChain(edits: EntityEdits, processes: map<string, seq<EntityHook>>, name: string,
                                           chain: seq<EntityHook>)
    requires ChainsReady(edits, processes) && IsDefault(edits, name, chain)
    ensures IsDefaultChain(chain) && Orders(Priority, Registered(processes, name), chain)
    ensures OnlyLast(Writes, Registered(processes, name))
  {
    DefaultWritesLast(chain);
    OrdersWriteLast(chain, Registered(processes, name));
  }

  /** A request for a new secret stores it, secured, and changes nothing else. */
  lemma {:induction false} SetSecretEffect(rq: EntityRequest, entities: Entities)
    requires forall id :: id in entities ==> entities[id].id == id
    ensures RunChain(SET_SECRET, rq, entities)
         == if rq.id !in entities then Err(UnknownEntity)
            else if rq.secured.None? then Err(BadSecret)
            else
              var e := entities[rq.id].(secret := rq.secured.value);
              Ok(EntityState(entities[rq.id := e], e))
  {
    var s := EntityState(entities, EMPTY_ENTITY);
    assert SET_SECRET == [LoadEntity] + [SetEntitySecret, SaveEntity];
    RunStep(rq, LoadEntity, [SetEntitySecret, SaveEntity], s);
    if rq.id in entities {
      RunTwoHooks(rq, SetEntitySecret, SaveEntity, s.(e := entities[rq.id]));
    }
  }

  /** An identity is valid exactly when the entity is stored and not locked and the secret matches; the lock is
      looked at before the secret, and the store stays as it was. */
  lemma {:induction false} ValidateEffect(rq: EntityRequest, entities: Entities)
    requires forall id :: id in entities ==> entities[id].id == id
    ensures RunChain(VALIDATE_IDENTITY, rq, entities)
         == if rq.id !in entities then Err(UnknownEntity)
            else if entities[rq.id].locked then Err(EntityLocked)
            else if !rq.verifies(entities[rq.id].secret) then Err(BadSecret)
            else Ok(EntityState(entities, entities[rq.id]))
  {
    var s := EntityState(entities, EMPTY_ENTITY);
    assert VALIDATE_IDENTITY == [LoadEntity] + ([ValidateEntityUnlocked] + [ValidateEntitySecret, SaveEntity]);
    RunStep(rq, LoadEntity, [ValidateEntityUnlocked] + [ValidateEntitySecret, SaveEntity], s);
    if rq.id in entities {
      var t := s.(e := entities[rq.id]);
      RunStep(rq, ValidateEntityUnlocked, [ValidateEntitySecret, SaveEntity], t);
      RunTwoHooks(rq, ValidateEntitySecret, SaveEntity, t);
      assert entities[rq.id := entities[rq.id]] == entities;
    }
  }

  lemma {:induction false} FetchEffect(rq: EntityRequest, entities: Entities)
    ensures RunChain(FETCH, rq, entities)
         == if rq.id in entities then Ok(EntityState(entities, entities[rq.id])) else Err(UnknownEntity)
  {
    assert FETCH == [LoadEntity] + [];
    RunStep(rq, LoadEntity, [], EntityState(entities, EMPTY_ENTITY));
  }

  lemma {:induction false} OwnInOrder()
    ensures Orders(Priority, FETCH, FETCH) && Orders(Priority, SET_SECRET, SET_SECRET)
    ensures Orders(Priority, VALIDATE_IDENTITY, VALIDATE_IDENTITY)
  {
    AdjacentByPriority(Priority, FETCH);
    AdjacentByPriority(Priority, SET_SECRET);
    AdjacentByPriority(Priority, VALIDATE_IDENTITY);
  }

  /** Whatever order it was registered in, a chain other than that of creation does and reports the same. */
  lemma {:induction false} RegisteredRuns(edits: EntityEdits, processes: map<string, seq<EntityHook>>, name: string,
                                          chain: seq<EntityHook>, rq: EntityRequest, entities: Entities)
    requires ChainsReady(edits, processes) && IsDefault(edits, name, chain) && chain != CREATE
    requires Orders(Priority, chain, chain)
    ensures OnlyLast(Writes, Registered(processes, name))
    ensures RunChain(Registered(processes, name), rq, entities) == RunChain(chain, rq, entities)
  {
    RegisteredChain(edits, processes, name, chain);
    ErrorsSettledExactly(chain, rq, entities);
  }

  lemma {:induction false} EditSettled(edits: EntityEdits, processes: map<string, seq<EntityHook>>, name: string,
                                       rq: EntityRequest, entities: Entities)
    requires ChainsReady(edits, processes) && name in EDITS
    requires forall id :: id in entities ==> entities[id].id == id
    ensures OnlyLast(Writes, Registered(processes, name))
    ensures RunChain(Registered(processes, name), rq, entities)
         == if rq.id !in entities then Err(UnknownEntity)
            else
              match edits(EDITS[name])(rq, entities[rq.id])
              case Err(x) => Err(x)
              case Ok(d) => var e := d.(id := rq.id); Ok(EntityState(entities[rq.id := e], e))
  {
    var edit := edits(EDITS[name]);
    RegisteredChain(edits, processes, name, Editing(edit));
    EditingInOrder(edit, rq, entities);
    EditEffect(edit, rq, entities);
    assert RunChain(Registered(processes, name), rq, entities) == RunChain(Editing(edit), rq, entities);
  }

  lemma {:induction false} EditingInOrder(edit: EntityEdit, rq: EntityRequest, entities: Entities)
    ensures Orders(Priority, Editing(edit), Editing(edit)) && ReportsSettled(Editing(edit), rq, entities)
  {
    AdjacentByPriority(Priority, Editing(edit));
    EditingTiesPlain(edit);
    NoTiesCommute(Editing(edit), rq);
    ReportsSettledByTies(Editing(edit), rq, entities);
  }
}

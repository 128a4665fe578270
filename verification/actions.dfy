/** The deferred-action classes: `ActionPriority`, `EntityAction` and its persist, merge and
    remove variants. */
module Actions {
  import opened Wrappers
  import opened Model
  import opened Identity

  /** The three priorities; a lower number runs earlier. */
  datatype ActionPriority = PERSIST | MERGE | REMOVE
  {
    /** `getPriority`. */
    function Priority(): (p: int)
      ensures this == PERSIST ==> p == 1
      ensures this == MERGE ==> p == 2
      ensures this == REMOVE ==> p == 3
    {
      match this
      case PERSIST => 1
      case MERGE => 2
      case REMOVE => 3
    }
  }

  /** Persist before merge before remove. */
  lemma PrioritiesIncrease()
    ensures PERSIST.Priority() < MERGE.Priority() < REMOVE.Priority()
  {
  }

  /** Which subclass an action is; a persist action carries its `instantPersist` flag. */
  datatype ActionKind = PersistKind(instantPersist: bool) | MergeKind | RemoveKind

  /** `EntityAction`: a mutable entry and a priority, `None` while unset (`null`). */
  class EntityAction {
    const kind: ActionKind
    var entityEntry: EntityEntry
    var priority: Option<ActionPriority>

    /** `EntityAction(EntityEntry)`: stores the entry, leaves the priority unset. */
    constructor (kind: ActionKind, entityEntry: EntityEntry)
      ensures this.kind == kind && this.entityEntry == entityEntry && priority == None
    {
      this.kind := kind;
      this.entityEntry := entityEntry;
      priority := None;
    }

    /** `updateEntityEntry`: replaces the entry only. */
    method UpdateEntityEntry(entry: EntityEntry)
      modifies this
      ensures entityEntry == entry && priority == old(priority)
    {
      entityEntry := entry;
    }

    /** `setPriority`: a later `getActionPriority` returns `p`. */
    method SetPriority(p: ActionPriority)
      modifies this
      ensures priority == Some(p) && entityEntry == old(entityEntry)
    {
      priority := Some(p);
    }

    /** `PersistAction.isInstantPersist`. */
    function IsInstantPersist(): bool
      requires kind.PersistKind?
    {
      kind.instantPersist
    }

    /** `PersistAction.entity`: the entity of the current entry. */
    function EntityOf(): Entity
      reads this
    {
      entityEntry.entity
    }
  }

  /** `new PersistAction(entity, instant)`: the entry is `EntityEntry.valueOf(entity)` and the
      priority `PERSIST`. */
  method NewPersistAction(e: Entity, instant: bool) returns (r: Result<EntityAction, Failure>)
    ensures r.Failure? <==> old(EntryFor(e)).Failure?
    ensures r.Failure? ==> r.error == old(EntryFor(e)).error
    ensures r.Success? ==> fresh(r.value) && r.value.kind == PersistKind(instant)
                           && r.value.entityEntry == old(EntryFor(e)).value && r.value.priority == Some(PERSIST)
  {
    match EntryFor(e)
    case Failure(err) =>
      r := Failure(err);
    case Success(entry) =>
      var a := new EntityAction(PersistKind(instant), entry);
      a.SetPriority(PERSIST);
      r := Success(a);
  }

  /** `new MergeAction(entry)` as written: no priority is assigned. */
  method NewMergeAction(entry: EntityEntry) returns (a: EntityAction)
    ensures fresh(a) && a.kind == MergeKind && a.entityEntry == entry && a.priority == None
  {
    a := new EntityAction(MergeKind, entry);
  }

  /** A merge action with the `MERGE` priority set, which the priority queue needs. */
  method NewMergeActionCorrected(entry: EntityEntry) returns (a: EntityAction)
    ensures fresh(a) && a.kind == MergeKind && a.entityEntry == entry && a.priority == Some(MERGE)
  {
    a := new EntityAction(MergeKind, entry);
    a.SetPriority(MERGE);
  }

  /** `new RemoveAction(entry)`: no priority is assigned. */
  method NewRemoveAction(entry: EntityEntry) returns (a: EntityAction)
    ensures fresh(a) && a.kind == RemoveKind && a.entityEntry == entry && a.priority == None
  {
    a := new EntityAction(RemoveKind, entry);
  }
}

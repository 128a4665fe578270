/** `EntityKey` and `EntityEntry`: the identity of a managed entity (its class and id) and
    the pair of that key with the entity object. */
module Identity {
  import opened Wrappers
  import opened Model
  import opened EntityReflection

  /** A record: two keys are equal exactly when both components are. `entityType` is `None`
      for the empty key. */
  datatype EntityKey = EntityKey(entityType: Option<ClassDesc>, id: Value)

  /** `EntityKey.of`: the runtime class of the entity and its id value. */
  function KeyOf(e: Entity): (r: Result<EntityKey, Failure>)
    reads e, Targets(e)
    ensures r.Success? <==> GetEntityIdValue(e).Success?
    ensures r.Failure? ==> r.error == GetEntityIdValue(e).error
    ensures r.Success? ==> r.value.entityType == Some(e.cls) && r.value.id == GetEntityIdValue(e).value
  {
    match GetEntityIdValue(e)
    case Failure(err) => Failure(err)
    case Success(id) => Success(EntityKey(Some(e.cls), id))
  }

  /** `EntityKey.valueOf`: the runtime class of the entity with exactly the given id. */
  function ValueOf(e: Entity, id: Value): (k: EntityKey)
    ensures k.entityType == Some(e.cls) && k.id == id
  {
    EntityKey(Some(e.cls), id)
  }

  /** `EntityKey.empty`: both components null. */
  function Empty(): (k: EntityKey)
    ensures k.entityType.None? && k.id.Null?
  {
    EntityKey(None, Null)
  }

  /** The empty key differs from every key with a type. */
  lemma EmptyIsDistinct(k: EntityKey)
    requires k.entityType.Some?
    ensures k != Empty()
  {
  }

  /** `of(e)` is `valueOf(e, getEntityIdValue(e))`. */
  lemma KeyOfIsValueOf(e: Entity)
    requires GetEntityIdValue(e).Success?
    ensures KeyOf(e) == Success(ValueOf(e, GetEntityIdValue(e).value))
  {
  }

  /** A record of a key and the entity object it identifies. */
  datatype EntityEntry = EntityEntry(entityKey: EntityKey, entity: Entity)

  /** `EntityEntry.valueOf(key, entity)`. */
  function EntryOf(k: EntityKey, e: Entity): (r: EntityEntry)
    ensures r.entityKey == k && r.entity == e
  {
    EntityEntry(k, e)
  }

  /** `EntityEntry.valueOf(entity)`: a null id gives the empty key, any other id the key of
      the entity's class and that id. */
  function EntryFor(e: Entity): (r: Result<EntityEntry, Failure>)
    reads e, Targets(e)
    ensures r.Success? <==> GetEntityIdValue(e).Success?
    ensures r.Failure? ==> r.error == GetEntityIdValue(e).error
    ensures r.Success? ==> r.value.entity == e
    ensures r.Success? && GetEntityIdValue(e).value.Null? ==> r.value.entityKey == Empty()
    ensures r.Success? && !GetEntityIdValue(e).value.Null? ==> r.value.entityKey == ValueOf(e, GetEntityIdValue(e).value)
  {
    match GetEntityIdValue(e)
    case Failure(err) => Failure(err)
    case Success(id) => if id.Null? then Success(EntryOf(Empty(), e)) else Success(EntryOf(ValueOf(e, id), e))
  }

  /** An entity whose id is set gets the same key from `valueOf(entity)` as from
      `EntityKey.of`. */
  lemma EntryForAgreesWithKeyOf(e: Entity)
    requires GetEntityIdValue(e).Success? && !GetEntityIdValue(e).value.Null?
    ensures EntryFor(e).Success? && KeyOf(e).Success? && EntryFor(e).value.entityKey == KeyOf(e).value
  {
  }
}

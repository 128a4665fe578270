/** `Session`: the persistence context. An identity map from entity key to the managed
    instance, a snapshot of each managed entity's field values taken when it entered the
    map, a queue of deferred actions and a closed flag. */
module Sessions {
  import opened Wrappers
  import opened Model
  import opened EntityReflection
  import opened Identity
  import opened Actions
  import opened Dao
  import opened Executors
  import opened Jql
  import opened Snapshots
  import opened Text

  class Session {
    const dao: JdbcDao
    const actionQueue: ActionQueue
    var entitiesCache: map<EntityKey, Entity>
    var entitiesSnapshots: map<EntityKey, seq<Value>>
    var closed: bool

    /** The queue is ordered and holds only merge actions with their priority set, the only
        kind of action the session queues. */
    ghost predicate Valid()
      reads actionQueue, actionQueue.entityActions
    {
      actionQueue.Valid() && AllAtMost(actionQueue.entityActions, MERGE.Priority())
    }

    constructor (dao: JdbcDao)
      ensures Valid() && this.dao == dao && fresh(actionQueue)
      ensures entitiesCache == map[] && entitiesSnapshots == map[] && !closed
      ensures actionQueue.entityActions == []
    {
      this.dao := dao;
      actionQueue := new ActionQueue();
      entitiesCache := map[];
      entitiesSnapshots := map[];
      closed := false;
    }

    /** `checkIfOpenSession`. */
    function CheckIfOpenSession(): (o: Outcome<Failure>)
      reads this
      ensures o.Fail? <==> closed
      ensures o.Fail? ==> o.error == SessionClosed
    {
      if closed then Fail(SessionClosed) else Pass
    }

    /** `saveEntitySnapshots`: stores the snapshot under the key, replacing an older one. */
    method SaveEntitySnapshots(key: EntityKey, entity: Entity?) returns (o: Outcome<Failure>)
      modifies this
      ensures entitiesCache == old(entitiesCache) && closed == old(closed)
      ensures var snapshot := SnapshotIn(key, ViewOf(entity));
              && (snapshot.Success? ==> o == Pass && entitiesSnapshots == old(entitiesSnapshots)[key := snapshot.value])
              && (snapshot.Failure? ==> o == Fail(snapshot.error) && entitiesSnapshots == old(entitiesSnapshots))
    {
      ghost var view := ViewOf(entity);
      var snapshot := ComputeSnapshot(key, entity);
      o := StoreSnapshot(key, snapshot);
      assert ViewOf(entity) == view;
    }

    /** Stores a computed snapshot, or passes its failure on. */
    method StoreSnapshot(key: EntityKey, snapshot: Result<seq<Value>, Failure>) returns (o: Outcome<Failure>)
      modifies this
      ensures entitiesCache == old(entitiesCache) && closed == old(closed)
      ensures snapshot.Success? ==> o == Pass && entitiesSnapshots == old(entitiesSnapshots)[key := snapshot.value]
      ensures snapshot.Failure? ==> o == Fail(snapshot.error) && entitiesSnapshots == old(entitiesSnapshots)
    {
      match snapshot
      case Failure(err) =>
        o := Fail(err);
      case Success(values) =>
        entitiesSnapshots := entitiesSnapshots[key := values];
        o := Pass;
    }

    /** `hasChanged`. */
    method HasChanged(key: EntityKey, entity: Entity) returns (r: Result<bool, Failure>)
      ensures r == ChangedIn(key, View(entity), entitiesSnapshots)
    {
      match key.entityType
      case None =>
        r := Failure(NullPointer);
      case Some(cls) =>
        match GetEntityFieldsSortedByName(cls)
        case Failure(err) =>
          r := Failure(err);
        case Success(fields) =>
          if key !in entitiesSnapshots {
            r := Failure(NullPointer);
          } else {
            r := CompareWithSnapshot(entity, fields, entitiesSnapshots[key]);
          }
    }

    /** `computeIfAbsent(entity)`: the instance the identity map holds under the entity's
        key, or the entity itself, cached with a fresh snapshot. */
    method ComputeIfAbsent(entity: Entity) returns (r: Result<Entity, Failure>)
      modifies this
      ensures closed == old(closed)
      ensures (Managed(entitiesCache, entitiesSnapshots), r) ==
              ComputeIn(old(Managed(entitiesCache, entitiesSnapshots)), entity, old(View(entity)))
    {
      KeyOfView(entity);
      match KeyOf(entity)
      case Failure(err) =>
        r := Failure(err);
      case Success(key) =>
        if key in entitiesCache {
          r := Success(entitiesCache[key]);
        } else {
          r := Admit(key, entity);
        }
    }

    /** The second half of `computeIfAbsent`: a key not yet managed gets the entity and its
        snapshot. */
    method Admit(key: EntityKey, entity: Entity) returns (r: Result<Entity, Failure>)
      requires key !in entitiesCache
      modifies this
      ensures closed == old(closed)
      ensures (Managed(entitiesCache, entitiesSnapshots), r) ==
              Reconcile(old(Managed(entitiesCache, entitiesSnapshots)), entity, key, old(View(entity)))
    {
      ghost var v := View(entity);
      entitiesCache := entitiesCache[key := entity];
      var o := SaveEntitySnapshots(key, entity);
      assert View(entity) == v;
      r := if o.Pass? then Success(entity) else Failure(o.error);
    }

    /** `entityType.cast(computeIfAbsent(row))`. */
    method FetchRow(cls: ClassDesc, row: Entity) returns (r: Result<Entity, Failure>)
      modifies this
      ensures closed == old(closed)
      ensures (Managed(entitiesCache, entitiesSnapshots), r) ==
              FetchIn(old(Managed(entitiesCache, entitiesSnapshots)), cls, row, old(View(row)))
    {
      var x := ComputeIfAbsent(row);
      r := if x.Success? && x.value.cls != cls then Failure(ClassCast) else x;
    }

    /** The single-row queries after the session check: the only row the DAO returns, through
        `computeIfAbsent` and `entityType.cast`. */
    method FetchOne(q: DaoQuery, cls: ClassDesc) returns (r: Result<Entity, Failure>)
      modifies this, dao
      ensures closed == old(closed)
      ensures dao.log == old(dao.log) + [Queried(q)]
      ensures dao.inserts == old(dao.inserts) && dao.rows == old(dao.rows) && dao.answers == old(dao.answers)
      ensures |Rows(old(dao.answers), q)| == 0 ==>
                r == Failure(IndexOutOfBounds) && entitiesCache == old(entitiesCache) && entitiesSnapshots == old(entitiesSnapshots)
      ensures |Rows(old(dao.answers), q)| > 1 ==>
                r == Failure(DaoOperation) && entitiesCache == old(entitiesCache) && entitiesSnapshots == old(entitiesSnapshots)
      ensures |Rows(old(dao.answers), q)| == 1 ==>
                (Managed(entitiesCache, entitiesSnapshots), r) ==
                FetchIn(old(Managed(entitiesCache, entitiesSnapshots)), cls, Rows(old(dao.answers), q)[0], old(View(Rows(dao.answers, q)[0])))
    {
      var row := dao.QueryOne(q);
      match row
      case Failure(err) =>
        r := Failure(err);
      case Success(e) =>
        assert View(e) == old(View(e));
        r := FetchRow(cls, e);
    }

    /** The list queries after the session check: each row in turn through `computeIfAbsent`
        and `entityType.cast`, stopping at the first failure. */
    method FetchAll(cls: ClassDesc, es: seq<Entity>) returns (r: Result<seq<Entity>, Failure>)
      modifies this
      ensures closed == old(closed)
      ensures (Managed(entitiesCache, entitiesSnapshots), r) ==
              FetchAllIn(old(Managed(entitiesCache, entitiesSnapshots)), cls, es, old(ViewsOf(es)))
    {
      ghost var m0 := Managed(entitiesCache, entitiesSnapshots);
      ghost var vs := ViewsOf(es);
      var found: seq<Entity> := [];
      for i := 0 to |es|
        invariant closed == old(closed)
        invariant (Managed(entitiesCache, entitiesSnapshots), Success(found)) == FetchAllIn(m0, cls, es[..i], vs[..i])
      {
        var x := FetchNext(cls, es, i, found, m0, vs);
        if x.Failure? {
          return Failure(x.error);
        }
        found := found + [x.value];
      }
      assert es[..|es|] == es && vs[..|vs|] == vs;
      r := Success(found);
    }

    /** One row of `FetchAll`: reconciles the row at position `i`. */
    method FetchNext(cls: ClassDesc, es: seq<Entity>, i: nat, found: seq<Entity>, ghost m0: Managed, ghost vs: seq<EntityView>)
      returns (x: Result<Entity, Failure>)
      requires i < |es| == |vs|
      requires View(es[i]) == vs[i]
      requires (Managed(entitiesCache, entitiesSnapshots), Success(found)) == FetchAllIn(m0, cls, es[..i], vs[..i])
      modifies this
      ensures closed == old(closed)
      ensures x.Success? ==> (Managed(entitiesCache, entitiesSnapshots), Success(found + [x.value])) == FetchAllIn(m0, cls, es[..i + 1], vs[..i + 1])
      ensures x.Failure? ==> (Managed(entitiesCache, entitiesSnapshots), Failure(x.error)) == FetchAllIn(m0, cls, es, vs)
    {
      ghost var before := Managed(entitiesCache, entitiesSnapshots);
      FetchAllSnoc(m0, cls, es, vs, i);
      x := FetchRow(cls, es[i]);
      ghost var step := FetchIn(before, cls, es[i], vs[i]);
      assert step == (Managed(entitiesCache, entitiesSnapshots), x);
      if x.Failure? {
        FetchAllStops(m0, cls, es, vs, i + 1);
      }
    }

    /** The list queries: the rows the DAO returns, then `FetchAll`. */
    method FetchAllRows(q: DaoQuery, cls: ClassDesc) returns (r: Result<seq<Entity>, Failure>)
      modifies this, dao
      ensures closed == old(closed)
      ensures dao.log == old(dao.log) + [Queried(q)]
      ensures dao.inserts == old(dao.inserts) && dao.rows == old(dao.rows) && dao.answers == old(dao.answers)
      ensures (Managed(entitiesCache, entitiesSnapshots), r) ==
              FetchAllIn(old(Managed(entitiesCache, entitiesSnapshots)), cls, Rows(old(dao.answers), q), old(ViewsOf(Rows(dao.answers, q))))
    {
      var rows := dao.QueryAll(q);
      assert ViewsOf(rows) == old(ViewsOf(rows)) by {
        forall j | 0 <= j < |rows|
          ensures View(rows[j]) == old(View(rows[j]))
        {
        }
      }
      r := FetchAll(cls, rows);
    }

    /** `findById`: the identity map first, then `loadFromDB`; a `null` row is not cached.
        The snapshot is taken in both cases, so a row found in the cache gets a new snapshot
        of its current values, and a missing row with any field to read fails. */
    method FindById(cls: ClassDesc, id: Value) returns (r: Result<Entity?, Failure>)
      modifies this, dao
      ensures closed == old(closed)
      ensures dao.inserts == old(dao.inserts) && dao.rows == old(dao.rows) && dao.answers == old(dao.answers)
      ensures old(closed) ==>
                r == Failure(SessionClosed) && dao.log == old(dao.log)
                && entitiesCache == old(entitiesCache) && entitiesSnapshots == old(entitiesSnapshots)
      ensures !old(closed) ==>
                var key := EntityKey(Some(cls), id);
                var hit := key in old(entitiesCache);
                var found: Entity? := if hit then old(entitiesCache)[key] else if key in dao.rows then dao.rows[key] else null;
                && dao.log == (if hit then old(dao.log) else old(dao.log) + [Loaded(key)])
                && entitiesCache == (if found == null then old(entitiesCache) else old(entitiesCache)[key := found])
                && (SnapshotIn(key, ViewOf(found)).Failure? ==>
                      r == Failure(SnapshotIn(key, ViewOf(found)).error) && entitiesSnapshots == old(entitiesSnapshots))
                && (SnapshotIn(key, ViewOf(found)).Success? ==>
                      r == Cast(cls, found) && entitiesSnapshots == old(entitiesSnapshots)[key := SnapshotIn(key, ViewOf(found)).value])
    {
      if closed {
        return Failure(SessionClosed);
      }
      var key := EntityKey(Some(cls), id);
      var entity: Entity?;
      if key in entitiesCache {
        entity := entitiesCache[key];
      } else {
        entity := dao.LoadFromDB(key);
        if entity != null {
          entitiesCache := entitiesCache[key := entity];
        }
      }
      var o := SaveEntitySnapshots(key, entity);
      r := if o.Fail? then Failure(o.error) else Cast(cls, entity);
    }

    /** `findBy`: the only row whose field holds the value. */
    method FindBy(cls: ClassDesc, field: FieldDesc, value: Value) returns (r: Result<Entity, Failure>)
      modifies this, dao
      ensures closed == old(closed)
      ensures dao.inserts == old(dao.inserts) && dao.rows == old(dao.rows) && dao.answers == old(dao.answers)
      ensures old(closed) ==>
                r == Failure(SessionClosed) && dao.log == old(dao.log)
                && entitiesCache == old(entitiesCache) && entitiesSnapshots == old(entitiesSnapshots)
      ensures !old(closed) ==> dao.log == old(dao.log) + [Queried(FieldQuery(cls, field, value))]
      ensures !old(closed) && |Rows(old(dao.answers), FieldQuery(cls, field, value))| == 0 ==>
                r == Failure(IndexOutOfBounds) && entitiesCache == old(entitiesCache) && entitiesSnapshots == old(entitiesSnapshots)
      ensures !old(closed) && |Rows(old(dao.answers), FieldQuery(cls, field, value))| > 1 ==>
                r == Failure(DaoOperation) && entitiesCache == old(entitiesCache) && entitiesSnapshots == old(entitiesSnapshots)
      ensures !old(closed) && |Rows(old(dao.answers), FieldQuery(cls, field, value))| == 1 ==>
                var row := Rows(old(dao.answers), FieldQuery(cls, field, value))[0];
                (Managed(entitiesCache, entitiesSnapshots), r) ==
                FetchIn(old(Managed(entitiesCache, entitiesSnapshots)), cls, row, old(View(row)))
    {
      if closed {
        return Failure(SessionClosed);
      }
      r := FetchOne(FieldQuery(cls, field, value), cls);
    }

    /** `findAllBy`: every row whose field holds the value. */
    method FindAllBy(cls: ClassDesc, field: FieldDesc, value: Value) returns (r: Result<seq<Entity>, Failure>)
      modifies this, dao
      ensures closed == old(closed)
      ensures dao.inserts == old(dao.inserts) && dao.rows == old(dao.rows) && dao.answers == old(dao.answers)
      ensures old(closed) ==>
                r == Failure(SessionClosed) && dao.log == old(dao.log)
                && entitiesCache == old(entitiesCache) && entitiesSnapshots == old(entitiesSnapshots)
      ensures !old(closed) ==>
                var rows := Rows(old(dao.answers), FieldQuery(cls, field, value));
                && dao.log == old(dao.log) + [Queried(FieldQuery(cls, field, value))]
                && (Managed(entitiesCache, entitiesSnapshots), r) ==
                   FetchAllIn(old(Managed(entitiesCache, entitiesSnapshots)), cls, rows, old(ViewsOf(rows)))
    {
      if closed {
        return Failure(SessionClosed);
      }
      r := FetchAllRows(FieldQuery(cls, field, value), cls);
    }

    /** `nativeQueryBy`: the only row of a native SQL query. */
    method NativeQueryBy(sql: string, cls: ClassDesc, params: seq<Value>) returns (r: Result<Entity, Failure>)
      modifies this, dao
      ensures closed == old(closed)
      ensures dao.inserts == old(dao.inserts) && dao.rows == old(dao.rows) && dao.answers == old(dao.answers)
      ensures old(closed) ==>
                r == Failure(SessionClosed) && dao.log == old(dao.log)
                && entitiesCache == old(entitiesCache) && entitiesSnapshots == old(entitiesSnapshots)
      ensures !old(closed) ==> dao.log == old(dao.log) + [Queried(NativeQuery(sql, cls, params))]
      ensures !old(closed) && |Rows(old(dao.answers), NativeQuery(sql, cls, params))| == 0 ==>
                r == Failure(IndexOutOfBounds) && entitiesCache == old(entitiesCache) && entitiesSnapshots == old(entitiesSnapshots)
      ensures !old(closed) && |Rows(old(dao.answers), NativeQuery(sql, cls, params))| > 1 ==>
                r == Failure(DaoOperation) && entitiesCache == old(entitiesCache) && entitiesSnapshots == old(entitiesSnapshots)
      ensures !old(closed) && |Rows(old(dao.answers), NativeQuery(sql, cls, params))| == 1 ==>
                var row := Rows(old(dao.answers), NativeQuery(sql, cls, params))[0];
                (Managed(entitiesCache, entitiesSnapshots), r) ==
                FetchIn(old(Managed(entitiesCache, entitiesSnapshots)), cls, row, old(View(row)))
    {
      if closed {
        return Failure(SessionClosed);
      }
      r := FetchOne(NativeQuery(sql, cls, params), cls);
    }

    /** `nativeQueryAllBy`: every row of a native SQL query. */
    method NativeQueryAllBy(sql: string, cls: ClassDesc, params: seq<Value>) returns (r: Result<seq<Entity>, Failure>)
      modifies this, dao
      ensures closed == old(closed)
      ensures dao.inserts == old(dao.inserts) && dao.rows == old(dao.rows) && dao.answers == old(dao.answers)
      ensures old(closed) ==>
                r == Failure(SessionClosed) && dao.log == old(dao.log)
                && entitiesCache == old(entitiesCache) && entitiesSnapshots == old(entitiesSnapshots)
      ensures !old(closed) ==>
                var rows := Rows(old(dao.answers), NativeQuery(sql, cls, params));
                && dao.log == old(dao.log) + [Queried(NativeQuery(sql, cls, params))]
                && (Managed(entitiesCache, entitiesSnapshots), r) ==
                   FetchAllIn(old(Managed(entitiesCache, entitiesSnapshots)), cls, rows, old(ViewsOf(rows)))
    {
      if closed {
        return Failure(SessionClosed);
      }
      r := FetchAllRows(NativeQuery(sql, cls, params), cls);
    }

    /** `jqlQueryBy`: the query manager's SQL and parameters, evaluated in that order, as a
        native query for the manager's entity type. `columns` is the field-to-column map of
        that type, in the map's iteration order. */
    method JqlQueryBy(qm: QueryManager, columns: seq<(string, string)>) returns (r: Result<Entity, Failure>)
      modifies this, dao
      ensures closed == old(closed)
      ensures dao.inserts == old(dao.inserts) && dao.rows == old(dao.rows) && dao.answers == old(dao.answers)
      ensures old(closed) || qm.ToSqlString(columns).Failure? ==>
                r == (if old(closed) then Failure(SessionClosed) else Failure(qm.ToSqlString(columns).error))
                && dao.log == old(dao.log) && entitiesCache == old(entitiesCache) && entitiesSnapshots == old(entitiesSnapshots)
      ensures !old(closed) && qm.ToSqlString(columns).Success? ==>
                var q := NativeQuery(qm.ToSqlString(columns).value, qm.entityType, qm.GetParameters().value);
                && dao.log == old(dao.log) + [Queried(q)]
                && (|Rows(old(dao.answers), q)| == 0 ==>
                      r == Failure(IndexOutOfBounds) && entitiesCache == old(entitiesCache) && entitiesSnapshots == old(entitiesSnapshots))
                && (|Rows(old(dao.answers), q)| > 1 ==>
                      r == Failure(DaoOperation) && entitiesCache == old(entitiesCache) && entitiesSnapshots == old(entitiesSnapshots))
                && (|Rows(old(dao.answers), q)| == 1 ==>
                      (Managed(entitiesCache, entitiesSnapshots), r) ==
                      FetchIn(old(Managed(entitiesCache, entitiesSnapshots)), qm.entityType, Rows(old(dao.answers), q)[0], old(View(Rows(dao.answers, q)[0]))))
    {
      if closed {
        return Failure(SessionClosed);
      }
      match qm.ToSqlString(columns)
      case Failure(err) =>
        r := Failure(err);
      case Success(sql) =>
        match qm.GetParameters()
        case Failure(err) =>
          r := Failure(err);
        case Success(params) =>
          r := FetchOne(NativeQuery(sql, qm.entityType, params), qm.entityType);
    }

    /** `jqlQueryAllBy`: as `jqlQueryBy`, for every row. */
    method JqlQueryAllBy(qm: QueryManager, columns: seq<(string, string)>) returns (r: Result<seq<Entity>, Failure>)
      modifies this, dao
      ensures closed == old(closed)
      ensures dao.inserts == old(dao.inserts) && dao.rows == old(dao.rows) && dao.answers == old(dao.answers)
      ensures old(closed) || qm.ToSqlString(columns).Failure? ==>
                r == (if old(closed) then Failure(SessionClosed) else Failure(qm.ToSqlString(columns).error))
                && dao.log == old(dao.log) && entitiesCache == old(entitiesCache) && entitiesSnapshots == old(entitiesSnapshots)
      ensures !old(closed) && qm.ToSqlString(columns).Success? ==>
                var q := NativeQuery(qm.ToSqlString(columns).value, qm.entityType, qm.GetParameters().value);
                var rows := Rows(old(dao.answers), q);
                && dao.log == old(dao.log) + [Queried(q)]
                && (Managed(entitiesCache, entitiesSnapshots), r) ==
                   FetchAllIn(old(Managed(entitiesCache, entitiesSnapshots)), qm.entityType, rows, old(ViewsOf(rows)))
    {
      if closed {
        return Failure(SessionClosed);
      }
      match qm.ToSqlString(columns)
      case Failure(err) =>
        r := Failure(err);
      case Success(sql) =>
        match qm.GetParameters()
        case Failure(err) =>
          r := Failure(err);
        case Success(params) =>
          r := FetchAllRows(NativeQuery(sql, qm.entityType, params), qm.entityType);
    }

    /** `persist`: an instant persist action saves the entity at once and writes the generated
        id into it; the entity is then cached under the action's re-keyed entry and
        snapshotted. The closed flag is not checked, and the queue is left alone. */
    method Persist(entity: Entity) returns (o: Outcome<Failure>)
      modifies this, dao, entity
      ensures closed == old(closed)
      ensures dao.rows == old(dao.rows) && dao.answers == old(dao.answers)
      ensures old(EntryFor(entity)).Failure? ==>
                o == Fail(old(EntryFor(entity)).error) && entity.state == old(entity.state)
                && dao.log == old(dao.log) && dao.inserts == old(dao.inserts)
                && entitiesCache == old(entitiesCache) && entitiesSnapshots == old(entitiesSnapshots)
      ensures old(EntryFor(entity)).Success? ==>
                dao.log == old(dao.log) + [Saved(entity)] && dao.inserts == old(dao.inserts) + 1
      ensures old(EntryFor(entity)).Success? && !Assignable(GetIdField(entity.cls).value.fieldType, dao.generatedIds(old(dao.inserts))) ==>
                o == Fail(IllegalArgument) && entity.state == old(entity.state)
                && entitiesCache == old(entitiesCache) && entitiesSnapshots == old(entitiesSnapshots)
      ensures old(EntryFor(entity)).Success? && Assignable(GetIdField(entity.cls).value.fieldType, dao.generatedIds(old(dao.inserts))) ==>
                var key := ValueOf(entity, dao.generatedIds(old(dao.inserts)));
                && entity.state == old(entity.state)[GetIdField(entity.cls).value.name := Stored(GetIdField(entity.cls).value.fieldType, dao.generatedIds(old(dao.inserts)))]
                && entitiesCache == old(entitiesCache)[key := entity]
                && (SnapshotIn(key, Some(View(entity))).Success? ==>
                      o == Pass && entitiesSnapshots == old(entitiesSnapshots)[key := SnapshotIn(key, Some(View(entity))).value])
                && (SnapshotIn(key, Some(View(entity))).Failure? ==>
                      o == Fail(SnapshotIn(key, Some(View(entity))).error) && entitiesSnapshots == old(entitiesSnapshots))
    {
      var created := NewPersistAction(entity, true);
      match created
      case Failure(err) =>
        o := Fail(err);
      case Success(action) =>
        o := actionQueue.AddPersistAction(dao, action);
        if o.Pass? {
          var key := action.entityEntry.entityKey;
          entitiesCache := entitiesCache[key := entity];
          o := SaveEntitySnapshots(key, entity);
        }
    }

    /** `merge`: an entity whose key is managed yields the managed instance; otherwise the row
        is loaded, and a missing row yields `null` without caching anything. A loaded row is
        snapshotted, and a copy of the given entity replaces it in the identity map. The
        closed flag is not checked. */
    method Merge(entity: Entity) returns (r: Result<Entity?, Failure>)
      modifies this, dao
      ensures closed == old(closed)
      ensures dao.inserts == old(dao.inserts) && dao.rows == old(dao.rows) && dao.answers == old(dao.answers)
      ensures old(KeyOf(entity)).Failure? ==>
                r == Failure(old(KeyOf(entity)).error) && dao.log == old(dao.log)
                && entitiesCache == old(entitiesCache) && entitiesSnapshots == old(entitiesSnapshots)
      ensures old(KeyOf(entity)).Success? && old(KeyOf(entity)).value in old(entitiesCache) ==>
                r == Cast(entity.cls, old(entitiesCache)[old(KeyOf(entity)).value]) && dao.log == old(dao.log)
                && entitiesCache == old(entitiesCache) && entitiesSnapshots == old(entitiesSnapshots)
      ensures old(KeyOf(entity)).Success? && old(KeyOf(entity)).value !in old(entitiesCache) ==>
                dao.log == old(dao.log) + [Loaded(old(KeyOf(entity)).value)]
      ensures old(KeyOf(entity)).Success? && old(KeyOf(entity)).value !in old(entitiesCache) && old(KeyOf(entity)).value !in dao.rows ==>
                r == Success(null) && entitiesCache == old(entitiesCache) && entitiesSnapshots == old(entitiesSnapshots)
      ensures old(KeyOf(entity)).Success? && old(KeyOf(entity)).value !in old(entitiesCache) && old(KeyOf(entity)).value in dao.rows ==>
                var key := old(KeyOf(entity)).value;
                var snap := SnapshotIn(key, Some(old(View(dao.rows[key]))));
                var copy := CopyFields(ReadingsOf(old(View(entity)), entity.cls.fields), entity.cls.fields);
                && (snap.Failure? ==>
                      r == Failure(snap.error) && entitiesCache == old(entitiesCache) && entitiesSnapshots == old(entitiesSnapshots))
                && (snap.Success? ==> entitiesSnapshots == old(entitiesSnapshots)[key := snap.value])
                && (snap.Success? && copy.Failure? ==> r == Failure(copy.error) && entitiesCache == old(entitiesCache))
                && (snap.Success? && copy.Success? ==>
                      r.Success? && r.value != null && fresh(r.value) && r.value.cls == entity.cls && r.value.state == copy.value
                      && entitiesCache == old(entitiesCache)[key := r.value])
    {
      KeyOfView(entity);
      match KeyOf(entity)
      case Failure(err) =>
        r := Failure(err);
      case Success(key) =>
        if key in entitiesCache {
          r := Cast(entity.cls, entitiesCache[key]);
        } else {
          var loaded := dao.LoadFromDB(key);
          if loaded == null {
            r := Success(null);
          } else {
            assert View(entity) == old(View(entity)) && View(loaded) == old(View(loaded));
            r := MergeLoaded(key, entity, loaded);
          }
        }
    }

    /** The part of `merge` after a row was loaded. */
    method MergeLoaded(key: EntityKey, entity: Entity, loaded: Entity) returns (r: Result<Entity?, Failure>)
      modifies this
      ensures closed == old(closed)
      ensures var snap := SnapshotIn(key, Some(old(View(loaded))));
              var copy := CopyFields(ReadingsOf(old(View(entity)), entity.cls.fields), entity.cls.fields);
              && (snap.Failure? ==>
                    r == Failure(snap.error) && entitiesCache == old(entitiesCache) && entitiesSnapshots == old(entitiesSnapshots))
              && (snap.Success? ==> entitiesSnapshots == old(entitiesSnapshots)[key := snap.value])
              && (snap.Success? && copy.Failure? ==> r == Failure(copy.error) && entitiesCache == old(entitiesCache))
              && (snap.Success? && copy.Success? ==>
                    r.Success? && r.value != null && fresh(r.value) && r.value.cls == entity.cls && r.value.state == copy.value
                    && entitiesCache == old(entitiesCache)[key := r.value])
    {
      ghost var ev := View(entity);
      ghost var lv := View(loaded);
      var o := SaveEntitySnapshots(key, loaded);
      assert View(loaded) == lv;
      if o.Fail? {
        return Failure(o.error);
      }
      assert View(entity) == ev;
      r := CacheMerged(key, entity);
    }

    /** `mergeEntity(entity)` followed by `entitiesCache.put(key, mergedEntity)` and the cast,
        which cannot fail: the copy is of the entity's own class. */
    method CacheMerged(key: EntityKey, entity: Entity) returns (r: Result<Entity?, Failure>)
      modifies this
      ensures closed == old(closed) && entitiesSnapshots == old(entitiesSnapshots)
      ensures var copy := CopyFields(ReadingsOf(old(View(entity)), entity.cls.fields), entity.cls.fields);
              && (copy.Failure? ==> r == Failure(copy.error) && entitiesCache == old(entitiesCache))
              && (copy.Success? ==>
                    r.Success? && r.value != null && fresh(r.value) && r.value.cls == entity.cls && r.value.state == copy.value
                    && entitiesCache == old(entitiesCache)[key := r.value])
    {
      var merged := MergeEntity(entity);
      match merged
      case Failure(err) =>
        r := Failure(err);
      case Success(copy) =>
        entitiesCache := entitiesCache[key := copy];
        r := Cast(entity.cls, copy);
    }

    /** `remove`: only a managed entity can be removed; the remove action it builds is handed
        to the queue's `addRemoveAction`, which is not part of this model, so the action is
        returned instead. */
    method Remove(entity: Entity) returns (r: Result<EntityAction, Failure>)
      ensures KeyOf(entity).Failure? ==> r == Failure(KeyOf(entity).error)
      ensures KeyOf(entity).Success? && KeyOf(entity).value !in entitiesCache ==>
                r == Failure(DetachedEntity(entity.cls.name))
      ensures KeyOf(entity).Success? && KeyOf(entity).value in entitiesCache ==>
                r.Success? && fresh(r.value) && r.value.kind == RemoveKind
                && r.value.entityEntry == EntryOf(KeyOf(entity).value, entity)
    {
      match KeyOf(entity)
      case Failure(err) =>
        r := Failure(err);
      case Success(key) =>
        if key !in entitiesCache {
          r := Failure(DetachedEntity(entity.cls.name));
        } else {
          var action := NewRemoveAction(EntryOf(key, entity));
          r := Success(action);
        }
    }

    /** `performDirtyCheck`: the cache entries in the map's iteration order `keys`; for each
        one `hasChanged` answers, and a dirty entry gets a merge action (with the `MERGE`
        priority; see `MergeActionsCorrected`). The stream runs entry by entry, so a failing
        `hasChanged` leaves the actions queued before it in place. */
    method PerformDirtyCheck(keys: seq<EntityKey>) returns (o: Outcome<Failure>)
      requires Valid()
      requires forall k :: k in keys <==> k in entitiesCache
      modifies actionQueue
      ensures Valid()
      ensures var scan := DirtyScan(keys, old(CacheViews(entitiesCache)), entitiesSnapshots);
              && o == scan.1
              && QueueEntries(actionQueue.entityActions) == old(QueueEntries(actionQueue.entityActions)) + EntriesFor(scan.0, entitiesCache)
    {
      ghost var views := CacheViews(entitiesCache);
      ghost var before := QueueEntries(actionQueue.entityActions);
      var dirty: seq<EntityKey> := [];
      for i := 0 to |keys|
        invariant Valid()
        invariant DirtyScan(keys[..i], views, entitiesSnapshots) == (dirty, Pass)
        invariant QueueEntries(actionQueue.entityActions) == before + EntriesFor(dirty, entitiesCache)
      {
        o, dirty := CheckNext(keys, i, dirty, views, before);
        if o.Fail? {
          return;
        }
      }
      assert keys[..|keys|] == keys;
      o := Pass;
    }

    /** One entry of `performDirtyCheck`: `hasChanged` on the entry at position `i`, and its
        merge action when it is dirty. */
    method CheckNext(keys: seq<EntityKey>, i: nat, dirty: seq<EntityKey>, ghost views: map<EntityKey, EntityView>, ghost before: seq<EntityEntry>)
      returns (o: Outcome<Failure>, next: seq<EntityKey>)
      requires Valid()
      requires i < |keys| && forall k :: k in keys ==> k in entitiesCache && k in views
      requires View(entitiesCache[keys[i]]) == views[keys[i]]
      requires DirtyScan(keys[..i], views, entitiesSnapshots) == (dirty, Pass)
      requires QueueEntries(actionQueue.entityActions) == before + EntriesFor(dirty, entitiesCache)
      modifies actionQueue
      ensures Valid()
      ensures o.Pass? ==>
                DirtyScan(keys[..i + 1], views, entitiesSnapshots) == (next, Pass)
                && QueueEntries(actionQueue.entityActions) == before + EntriesFor(next, entitiesCache)
      ensures o.Fail? ==>
                DirtyScan(keys, views, entitiesSnapshots) == (dirty, o)
                && QueueEntries(actionQueue.entityActions) == before + EntriesFor(dirty, entitiesCache)
    {
      var changed := HasChanged(keys[i], entitiesCache[keys[i]]);
      o, next := RecordChange(keys, i, dirty, changed, views, before);
    }

    /** What `performDirtyCheck` does with the answer of `hasChanged` for the entry at
        position `i`. */
    method RecordChange(keys: seq<EntityKey>, i: nat, dirty: seq<EntityKey>, changed: Result<bool, Failure>, ghost views: map<EntityKey, EntityView>, ghost before: seq<EntityEntry>)
      returns (o: Outcome<Failure>, next: seq<EntityKey>)
      requires Valid()
      requires i < |keys| && forall k :: k in keys ==> k in entitiesCache && k in views
      requires changed == ChangedIn(keys[i], views[keys[i]], entitiesSnapshots)
      requires DirtyScan(keys[..i], views, entitiesSnapshots) == (dirty, Pass)
      requires QueueEntries(actionQueue.entityActions) == before + EntriesFor(dirty, entitiesCache)
      modifies actionQueue
      ensures Valid()
      ensures o.Pass? ==>
                DirtyScan(keys[..i + 1], views, entitiesSnapshots) == (next, Pass)
                && QueueEntries(actionQueue.entityActions) == before + EntriesFor(next, entitiesCache)
      ensures o.Fail? ==>
                DirtyScan(keys, views, entitiesSnapshots) == (dirty, o)
                && QueueEntries(actionQueue.entityActions) == before + EntriesFor(dirty, entitiesCache)
    {
      DirtyScanStep(keys, i, dirty, views, entitiesSnapshots);
      next := dirty;
      match changed
      case Failure(err) =>
        o := Fail(err);
      case Success(c) =>
        o := Pass;
        if c {
          QueueMerge(keys[i], dirty, before);
          next := dirty + [keys[i]];
        }
    }

    /** The merge action `performDirtyCheck` queues for a dirty entry. */
    method QueueMerge(key: EntityKey, dirty: seq<EntityKey>, ghost before: seq<EntityEntry>)
      requires Valid()
      requires key in entitiesCache && forall k :: k in dirty ==> k in entitiesCache
      requires QueueEntries(actionQueue.entityActions) == before + EntriesFor(dirty, entitiesCache)
      modifies actionQueue
      ensures Valid()
      ensures QueueEntries(actionQueue.entityActions) == before + EntriesFor(dirty + [key], entitiesCache)
    {
      ghost var queued := EntriesFor(dirty, entitiesCache);
      var added := AddCorrectedMerge(actionQueue, EntryOf(key, entitiesCache[key]));
      EntriesForSnoc(dirty, key, entitiesCache);
      Assoc(before, queued, [EntryOf(key, entitiesCache[key])]);
    }

    /** `flush`: the queue's `performAccumulatedActions`, whose body is empty. */
    method Flush()
      ensures actionQueue.entityActions == old(actionQueue.entityActions)
    {
      actionQueue.PerformAccumulatedActions();
    }

    /** `close`: the dirty check, the flush, then both maps are cleared and the session is
        closed. A failing dirty check leaves the session open with its maps. */
    method Close(keys: seq<EntityKey>) returns (o: Outcome<Failure>)
      requires Valid()
      requires forall k :: k in keys <==> k in entitiesCache
      modifies this, actionQueue
      ensures Valid()
      ensures var scan := DirtyScan(keys, old(CacheViews(entitiesCache)), old(entitiesSnapshots));
              && o == scan.1
              && QueueEntries(actionQueue.entityActions) == old(QueueEntries(actionQueue.entityActions)) + EntriesFor(scan.0, old(entitiesCache))
      ensures o.Fail? ==>
                entitiesCache == old(entitiesCache) && entitiesSnapshots == old(entitiesSnapshots) && closed == old(closed)
      ensures o.Pass? ==> entitiesCache == map[] && entitiesSnapshots == map[] && closed
    {
      ghost var queued := EntriesFor(DirtyScan(keys, CacheViews(entitiesCache), entitiesSnapshots).0, entitiesCache);
      o := PerformDirtyCheck(keys);
      ghost var after := QueueEntries(actionQueue.entityActions);
      assert after == old(QueueEntries(actionQueue.entityActions)) + queued;
      if o.Pass? {
        Flush();
        Clear();
        assert QueueEntries(actionQueue.entityActions) == after;
      }
    }

    /** Empties both maps and marks the session closed. */
    method Clear()
      requires Valid()
      modifies this
      ensures Valid()
      ensures entitiesCache == map[] && entitiesSnapshots == map[] && closed
    {
      entitiesCache := map[];
      entitiesSnapshots := map[];
      closed := true;
    }
  }

  /** The values `saveEntitySnapshots` computes before storing them. */
  method ComputeSnapshot(key: EntityKey, entity: Entity?) returns (r: Result<seq<Value>, Failure>)
    ensures r == SnapshotIn(key, ViewOf(entity))
  {
    match key.entityType
    case None =>
      r := Failure(NullPointer);
    case Some(cls) =>
      match GetEntityFieldsSortedByName(cls)
      case Failure(err) =>
        r := Failure(err);
      case Success(fields) =>
        if entity == null {
          r := if |fields| == 0 then Success([]) else Failure(NullPointer);
        } else {
          r := TakeSnapshot(entity, fields);
        }
  }

  /** The loop of `saveEntitySnapshots`. The source reads each field a second time when it
      is a column or entity field, which every field of the sorted list is; the second read
      gives the same value. */
  method TakeSnapshot(entity: Entity, fields: seq<FieldDesc>) returns (r: Result<seq<Value>, Failure>)
    ensures r == Collect(ReadingsOf(View(entity), fields))
  {
    ghost var rs := ReadingsOf(View(entity), fields);
    var snapshots: seq<Value> := [];
    for i := 0 to |fields|
      invariant |snapshots| == i
      invariant forall j :: 0 <= j < i ==> rs[j] == Success(snapshots[j])
    {
      var v := GetFieldValue(entity, fields[i]);
      if v.Failure? {
        CollectFirstFailure(rs, i);
        return Failure(v.error);
      }
      snapshots := snapshots + [v.value];
    }
    CollectAll(rs, snapshots);
    return Success(snapshots);
  }

  /** The loop of `hasChanged`, returning at the first difference. */
  method CompareWithSnapshot(entity: Entity, fields: seq<FieldDesc>, snapshots: seq<Value>) returns (r: Result<bool, Failure>)
    ensures r == ChangedFrom(ReadingsOf(View(entity), fields), snapshots, 0)
  {
    ghost var rs := ReadingsOf(View(entity), fields);
    for i := 0 to |snapshots|
      invariant ChangedFrom(rs, snapshots, 0) == ChangedFrom(rs, snapshots, i)
    {
      if i >= |fields| {
        return Failure(IndexOutOfBounds);
      }
      var v := GetFieldValue(entity, fields[i]);
      if v.Failure? {
        return Failure(v.error);
      }
      if snapshots[i] != v.value {
        return Success(true);
      }
    }
    return Success(false);
  }

  /** What a query returns according to the DAO's answers: nothing when none is listed. */
  function Rows(answers: map<DaoQuery, seq<Entity>>, q: DaoQuery): seq<Entity>
  {
    if q in answers then answers[q] else []
  }

  /** What each of the entities shows, in order. */
  ghost function ViewsOf(es: seq<Entity>): (r: seq<EntityView>)
    reads *
    ensures |r| == |es| && forall i :: 0 <= i < |es| ==> r[i] == View(es[i])
  {
    if |es| == 0 then [] else ViewsOf(es[..|es| - 1]) + [View(es[|es| - 1])]
  }

  /** What each cached entity shows, by key. */
  ghost function CacheViews(cache: map<EntityKey, Entity>): (r: map<EntityKey, EntityView>)
    reads *
    ensures r.Keys == cache.Keys
    ensures forall k :: k in cache ==> r[k] == View(cache[k])
  {
    map k | k in cache :: View(cache[k])
  }

  /** `mergeEntity`: a new instance of the entity's class receiving, field by declared field,
      the value `getFieldValue` reads from the entity; a failed read or a value the field
      rejects aborts. */
  method MergeEntity(entity: Entity) returns (r: Result<Entity, Failure>)
    ensures var copy := CopyFields(ReadingsOf(old(View(entity)), entity.cls.fields), entity.cls.fields);
            && (copy.Failure? ==> r == Failure(copy.error))
            && (copy.Success? ==> r.Success? && fresh(r.value) && r.value.cls == entity.cls && r.value.state == copy.value)
  {
    var fields := entity.cls.fields;
    ghost var ev := View(entity);
    ghost var rs := ReadingsOf(ev, fields);
    var merged := NewInstanceOf(entity.cls);
    for i := 0 to |fields|
      invariant fresh(merged) && merged.cls == entity.cls
      invariant View(entity) == ev
      invariant CopyFields(rs[..i], fields[..i]) == Success(merged.state)
    {
      CopyFieldsSnoc(rs, fields, i);
      var v := GetFieldValue(entity, fields[i]);
      assert v == rs[i];
      if v.Failure? {
        CopyFieldsStops(rs, fields, i + 1);
        return Failure(v.error);
      }
      var o := SetFieldValue(merged, fields[i], v.value);
      if o.Fail? {
        CopyFieldsStops(rs, fields, i + 1);
        return Failure(o.error);
      }
    }
    assert rs[..|fields|] == rs && fields[..|fields|] == fields;
    r := Success(merged);
  }
}

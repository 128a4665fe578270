/** What the `Session` computes from the entities it manages, as functions of what each entity
    shows (`EntityView`): the snapshot `saveEntitySnapshots` stores, the answer of
    `hasChanged`, the keys the dirty check visits, the copy `mergeEntity` builds, and how
    `computeIfAbsent` reconciles a loaded entity with the identity map. */
module Snapshots {
  import opened Wrappers
  import opened Model
  import opened EntityReflection
  import opened Identity

  // ---------------------------------------------------------------------------------------
  // Readings

  /** `getFieldValue` of each field, in order, on what the entity shows. */
  function ReadingsOf(v: EntityView, fields: seq<FieldDesc>): (r: seq<Result<Value, Failure>>)
    ensures |r| == |fields| && forall i :: 0 <= i < |fields| ==> r[i] == FieldValue(v, fields[i])
  {
    if |fields| == 0 then [] else [FieldValue(v, fields[0])] + ReadingsOf(v, fields[1..])
  }

  /** `getFieldValue(entity, field)` of each field, in order. */
  function Readings(e: Entity, fields: seq<FieldDesc>): (r: seq<Result<Value, Failure>>)
    reads e, Targets(e)
    ensures |r| == |fields| && forall i :: 0 <= i < |fields| ==> r[i] == GetFieldValue(e, fields[i])
  {
    ReadingsOf(View(e), fields)
  }

  /** The readings in turn: all their values, or the error of the first that failed. */
  function Collect(rs: seq<Result<Value, Failure>>): (r: Result<seq<Value>, Failure>)
    ensures r.Success? <==> forall i :: 0 <= i < |rs| ==> rs[i].Success?
    ensures r.Success? ==> |r.value| == |rs| && forall i :: 0 <= i < |rs| ==> rs[i] == Success(r.value[i])
  {
    if |rs| == 0 then Success([])
    else
      match rs[0]
      case Failure(err) => Failure(err)
      case Success(v) =>
        assert forall i :: 1 <= i < |rs| ==> rs[1..][i - 1] == rs[i];
        match Collect(rs[1..])
        case Failure(err) => Failure(err)
        case Success(vs) => Success([v] + vs)
  }

  /** Readings that all succeed are collected value for value. */
  lemma CollectAll(rs: seq<Result<Value, Failure>>, vs: seq<Value>)
    requires |vs| == |rs| && forall i :: 0 <= i < |rs| ==> rs[i] == Success(vs[i])
    ensures Collect(rs) == Success(vs)
  {
    assert Collect(rs).Success?;
    assert Collect(rs).value == vs;
  }

  /** The collected readings fail with the error of the first failing one. */
  lemma {:induction false} CollectFirstFailure(rs: seq<Result<Value, Failure>>, i: nat)
    requires i < |rs| && rs[i].Failure?
    requires forall j :: 0 <= j < i ==> rs[j].Success?
    ensures Collect(rs) == Failure(rs[i].error)
    decreases i
  {
    if i > 0 {
      CollectFirstFailure(rs[1..], i - 1);
    }
  }

  // ---------------------------------------------------------------------------------------
  // Snapshots

  /** What reading the fields of a possibly `null` entity can observe. */
  function ViewOf(e: Entity?): (r: Option<EntityView>)
    reads e, if e == null then {} else Targets(e)
    ensures e == null <==> r.None?
  {
    if e == null then None else Some(View(e))
  }

  /** What `saveEntitySnapshots(key, entity)` stores, from what the entity shows (`None` for
      `null`): `getFieldValue` of each field of the key's class sorted by name. A key without
      a class, or a `null` entity with any field to read, fails with a
      `NullPointerException`; the first field that cannot be read aborts. */
  function SnapshotIn(key: EntityKey, v: Option<EntityView>): (r: Result<seq<Value>, Failure>)
    ensures key.entityType.None? ==> r == Failure(NullPointer)
    ensures key.entityType.Some? && GetEntityFieldsSortedByName(key.entityType.value).Failure? ==>
              r == Failure(GetEntityFieldsSortedByName(key.entityType.value).error)
  {
    match key.entityType
    case None => Failure(NullPointer)
    case Some(cls) =>
      match GetEntityFieldsSortedByName(cls)
      case Failure(err) => Failure(err)
      case Success(fields) =>
        match v
        case None => if |fields| == 0 then Success([]) else Failure(NullPointer)
        case Some(view) => Collect(ReadingsOf(view, fields))
  }

  /** A `null` entity has a snapshot only when its class has no field to read. */
  lemma SnapshotOfNull(key: EntityKey)
    requires key.entityType.Some? && GetEntityFieldsSortedByName(key.entityType.value).Success?
    ensures SnapshotIn(key, None) ==
              if |GetEntityFieldsSortedByName(key.entityType.value).value| == 0 then Success([]) else Failure(NullPointer)
  {
  }

  /** The snapshot of an entity holds, position by position, what `getFieldValue` reads from
      the fields sorted by name, and exists exactly when every one of them can be read. */
  lemma SnapshotValues(key: EntityKey, v: EntityView)
    requires key.entityType.Some? && GetEntityFieldsSortedByName(key.entityType.value).Success?
    ensures var fields := GetEntityFieldsSortedByName(key.entityType.value).value;
            && (SnapshotIn(key, Some(v)).Success? <==> forall i :: 0 <= i < |fields| ==> FieldValue(v, fields[i]).Success?)
            && (SnapshotIn(key, Some(v)).Success? ==>
                  |SnapshotIn(key, Some(v)).value| == |fields| &&
                  forall i :: 0 <= i < |fields| ==> FieldValue(v, fields[i]) == Success(SnapshotIn(key, Some(v)).value[i]))
  {
  }

  /** The snapshot fails with the error of the first field, in name order, that cannot be
      read. */
  lemma SnapshotFirstFailure(key: EntityKey, v: EntityView, i: nat)
    requires key.entityType.Some? && GetEntityFieldsSortedByName(key.entityType.value).Success?
    requires var fields := GetEntityFieldsSortedByName(key.entityType.value).value;
             i < |fields| && FieldValue(v, fields[i]).Failure? &&
             forall j :: 0 <= j < i ==> FieldValue(v, fields[j]).Success?
    ensures SnapshotIn(key, Some(v)) ==
              Failure(FieldValue(v, GetEntityFieldsSortedByName(key.entityType.value).value[i]).error)
  {
    var fields := GetEntityFieldsSortedByName(key.entityType.value).value;
    CollectFirstFailure(ReadingsOf(v, fields), i);
  }

  // ---------------------------------------------------------------------------------------
  // Dirty checking

  /** The loop of `hasChanged` from position `i` over the snapshot and the current readings:
      the first position whose current value differs makes the entity dirty; a failed
      reading, or a missing field, ends the loop first. */
  function ChangedFrom(rs: seq<Result<Value, Failure>>, snap: seq<Value>, i: nat): Result<bool, Failure>
    requires i <= |snap|
    decreases |snap| - i
  {
    if i == |snap| then Success(false)
    else if i >= |rs| then Failure(IndexOutOfBounds)
    else
      match rs[i]
      case Failure(err) => Failure(err)
      case Success(v) => if snap[i] != v then Success(true) else ChangedFrom(rs, snap, i + 1)
  }

  lemma {:induction false} ChangedFromIff(rs: seq<Result<Value, Failure>>, snap: seq<Value>, i: nat)
    requires i <= |snap| <= |rs|
    requires forall j :: 0 <= j < |snap| ==> rs[j].Success?
    ensures ChangedFrom(rs, snap, i) == Success(exists j :: i <= j < |snap| && snap[j] != rs[j].value)
    decreases |snap| - i
  {
    if i < |snap| {
      ChangedFromIff(rs, snap, i + 1);
    }
  }

  /** With every field readable, an entity is dirty exactly when some position of the
      snapshot differs from the current value (`Objects.equals` on each pair). */
  lemma ChangedIff(rs: seq<Result<Value, Failure>>, snap: seq<Value>)
    requires |snap| <= |rs|
    requires forall j :: 0 <= j < |snap| ==> rs[j].Success?
    ensures ChangedFrom(rs, snap, 0) == Success(exists j :: 0 <= j < |snap| && snap[j] != rs[j].value)
  {
    ChangedFromIff(rs, snap, 0);
  }

  /** Once one position differs from the snapshot the entity is dirty, whatever the others
      hold. */
  lemma ChangedPositionIsDirty(rs: seq<Result<Value, Failure>>, snap: seq<Value>, k: nat)
    requires |snap| <= |rs| && k < |snap|
    requires forall j :: 0 <= j < |snap| ==> rs[j].Success?
    requires snap[k] != rs[k].value
    ensures ChangedFrom(rs, snap, 0) == Success(true)
  {
    ChangedIff(rs, snap);
  }

  /** What `hasChanged(key, entity)` answers from what the entity shows and the stored
      snapshots: the fields of the key's class, then the stored snapshot (`null`, so a
      `NullPointerException`, when there is none), then the loop. */
  function ChangedIn(key: EntityKey, v: EntityView, snapshots: map<EntityKey, seq<Value>>): Result<bool, Failure>
  {
    match key.entityType
    case None => Failure(NullPointer)
    case Some(cls) =>
      match GetEntityFieldsSortedByName(cls)
      case Failure(err) => Failure(err)
      case Success(fields) =>
        if key !in snapshots then Failure(NullPointer) else ChangedFrom(ReadingsOf(v, fields), snapshots[key], 0)
  }

  /** An entity compared with the snapshot just stored for it is not dirty. */
  lemma SavedIsClean(key: EntityKey, v: EntityView, snapshots: map<EntityKey, seq<Value>>)
    requires SnapshotIn(key, Some(v)).Success?
    ensures ChangedIn(key, v, snapshots[key := SnapshotIn(key, Some(v)).value]) == Success(false)
  {
    var fields := GetEntityFieldsSortedByName(key.entityType.value).value;
    ChangedIff(ReadingsOf(v, fields), SnapshotIn(key, Some(v)).value);
  }

  /** With every field readable, `hasChanged` is true exactly when some field now reads a value
      other than the one at its position in the stored snapshot. */
  lemma DirtyIff(key: EntityKey, v: EntityView, snapshots: map<EntityKey, seq<Value>>)
    requires key.entityType.Some? && GetEntityFieldsSortedByName(key.entityType.value).Success?
    requires key in snapshots && |snapshots[key]| <= |GetEntityFieldsSortedByName(key.entityType.value).value|
    requires forall j :: 0 <= j < |snapshots[key]| ==>
               FieldValue(v, GetEntityFieldsSortedByName(key.entityType.value).value[j]).Success?
    ensures ChangedIn(key, v, snapshots) ==
              Success(exists j :: 0 <= j < |snapshots[key]| &&
                        snapshots[key][j] != FieldValue(v, GetEntityFieldsSortedByName(key.entityType.value).value[j]).value)
  {
    var fields := GetEntityFieldsSortedByName(key.entityType.value).value;
    ChangedIff(ReadingsOf(v, fields), snapshots[key]);
  }

  /** An entity without a stored snapshot cannot be checked: `snapshots.length` on `null`. */
  lemma UnsavedFails(key: EntityKey, v: EntityView, snapshots: map<EntityKey, seq<Value>>)
    requires key !in snapshots
    ensures ChangedIn(key, v, snapshots).Failure?
  {
  }

  /** The dirty check over the cache entries in the map's iteration order `keys`: `filter`,
      `map` and `forEach` run entry by entry, so the merge actions of the dirty entries met
      before a failing `hasChanged` stay queued. The result is those keys, in order, and
      whether the whole stream ran. */
  function DirtyScan(keys: seq<EntityKey>, views: map<EntityKey, EntityView>, snapshots: map<EntityKey, seq<Value>>)
    : (r: (seq<EntityKey>, Outcome<Failure>))
    requires forall k :: k in keys ==> k in views
    ensures forall k :: k in r.0 ==> k in keys
  {
    if |keys| == 0 then ([], Pass)
    else
      var init := keys[..|keys| - 1];
      var last := keys[|keys| - 1];
      assert keys == init + [last];
      var prefix := DirtyScan(init, views, snapshots);
      if prefix.1.Fail? then prefix
      else
        match ChangedIn(last, views[last], snapshots)
        case Failure(err) => (prefix.0, Fail(err))
        case Success(changed) => (if changed then prefix.0 + [last] else prefix.0, Pass)
  }

  /** A scan that ran to the end picked exactly the entries `hasChanged` calls dirty; a scan
      that failed failed with the error of one of the entries. */
  lemma {:induction false} DirtyScanPicksChanged(keys: seq<EntityKey>, views: map<EntityKey, EntityView>, snapshots: map<EntityKey, seq<Value>>)
    requires forall k :: k in keys ==> k in views
    ensures var r := DirtyScan(keys, views, snapshots);
            && (r.1.Pass? ==> forall k :: k in keys ==> (k in r.0 <==> ChangedIn(k, views[k], snapshots) == Success(true)))
            && (r.1.Fail? ==> exists k :: k in keys && ChangedIn(k, views[k], snapshots) == Failure(r.1.error))
  {
    if |keys| > 0 {
      var init := keys[..|keys| - 1];
      var last := keys[|keys| - 1];
      assert keys == init + [last];
      DirtyScanPicksChanged(init, views, snapshots);
    }
  }

  /** One more entry of the scan: nothing after a failure, otherwise that entry's answer. */
  lemma DirtyScanSnoc(keys: seq<EntityKey>, i: nat, views: map<EntityKey, EntityView>, snapshots: map<EntityKey, seq<Value>>)
    requires i < |keys| && forall k :: k in keys ==> k in views
    ensures var p := DirtyScan(keys[..i], views, snapshots);
            DirtyScan(keys[..i + 1], views, snapshots) ==
              if p.1.Fail? then p
              else match ChangedIn(keys[i], views[keys[i]], snapshots)
                case Failure(err) => (p.0, Fail(err))
                case Success(changed) => (if changed then p.0 + [keys[i]] else p.0, Pass)
  {
    assert keys[..i + 1][..i] == keys[..i];
  }

  /** The scan after the entry at `i`, given the scan before it: a failure of that entry is
      the failure of the whole scan, a dirty entry is picked and a clean one skipped. */
  lemma DirtyScanStep(keys: seq<EntityKey>, i: nat, dirty: seq<EntityKey>, views: map<EntityKey, EntityView>, snapshots: map<EntityKey, seq<Value>>)
    requires i < |keys| && forall k :: k in keys ==> k in views
    requires DirtyScan(keys[..i], views, snapshots) == (dirty, Pass)
    ensures var changed := ChangedIn(keys[i], views[keys[i]], snapshots);
            && (changed.Failure? ==> DirtyScan(keys, views, snapshots) == (dirty, Fail(changed.error)))
            && (changed == Success(true) ==> DirtyScan(keys[..i + 1], views, snapshots) == (dirty + [keys[i]], Pass))
            && (changed == Success(false) ==> DirtyScan(keys[..i + 1], views, snapshots) == (dirty, Pass))
  {
    DirtyScanSnoc(keys, i, views, snapshots);
    if ChangedIn(keys[i], views[keys[i]], snapshots).Failure? {
      DirtyScanStops(keys, i + 1, views, snapshots);
    }
  }

  /** Once the scan has failed, the entries after the failing one are never visited. */
  lemma {:induction false} DirtyScanStops(keys: seq<EntityKey>, i: nat, views: map<EntityKey, EntityView>, snapshots: map<EntityKey, seq<Value>>)
    requires i <= |keys| && forall k :: k in keys ==> k in views
    requires DirtyScan(keys[..i], views, snapshots).1.Fail?
    ensures DirtyScan(keys, views, snapshots) == DirtyScan(keys[..i], views, snapshots)
    decreases |keys| - i
  {
    if i < |keys| {
      assert keys[..i + 1][..i] == keys[..i];
      DirtyScanStops(keys, i + 1, views, snapshots);
    } else {
      assert keys[..i] == keys;
    }
  }

  /** The entries the dirty check queues merge actions for. */
  function EntriesFor(keys: seq<EntityKey>, cache: map<EntityKey, Entity>): (r: seq<EntityEntry>)
    requires forall k :: k in keys ==> k in cache
    ensures |r| == |keys| && forall i :: 0 <= i < |keys| ==> r[i] == EntryOf(keys[i], cache[keys[i]])
  {
    if |keys| == 0 then [] else EntriesFor(keys[..|keys| - 1], cache) + [EntryOf(keys[|keys| - 1], cache[keys[|keys| - 1]])]
  }

  /** Adding a key at the end adds its entry at the end. */
  lemma EntriesForSnoc(keys: seq<EntityKey>, k: EntityKey, cache: map<EntityKey, Entity>)
    requires forall x :: x in keys ==> x in cache
    requires k in cache
    ensures EntriesFor(keys + [k], cache) == EntriesFor(keys, cache) + [EntryOf(k, cache[k])]
  {
    assert (keys + [k])[..|keys|] == keys;
  }

  // ---------------------------------------------------------------------------------------
  // Copying an entity for merge

  /** The field map `mergeEntity` builds from the readings of the declared fields: for each
      field in order its value is stored with `setFieldValue`; a failed reading or a value the
      field's type rejects aborts. */
  function CopyFields(rs: seq<Result<Value, Failure>>, fs: seq<FieldDesc>): (r: Result<map<string, Value>, Failure>)
    requires |rs| == |fs|
    ensures r.Success? ==> forall n :: n in r.value ==> exists f :: f in fs && f.name == n
  {
    if |fs| == 0 then Success(map[])
    else
      var f := fs[|fs| - 1];
      match CopyFields(rs[..|rs| - 1], fs[..|fs| - 1])
      case Failure(err) => Failure(err)
      case Success(m) =>
        match rs[|rs| - 1]
        case Failure(err) => Failure(err)
        case Success(v) => if Assignable(f.fieldType, v) then Success(m[f.name := Stored(f.fieldType, v)]) else Failure(IllegalArgument)
  }

  /** Readable fields with distinct names and values their types accept are copied value for
      value. */
  lemma {:induction false} CopyFieldsExact(rs: seq<Result<Value, Failure>>, fs: seq<FieldDesc>)
    requires |rs| == |fs|
    requires forall i :: 0 <= i < |fs| ==> rs[i].Success? && Assignable(fs[i].fieldType, rs[i].value)
    requires forall i, j :: 0 <= i < j < |fs| ==> fs[i].name != fs[j].name
    ensures CopyFields(rs, fs).Success?
    ensures forall i :: 0 <= i < |fs| ==> fs[i].name in CopyFields(rs, fs).value && CopyFields(rs, fs).value[fs[i].name] == Stored(fs[i].fieldType, rs[i].value)
  {
    CopyFieldsExactUpTo(rs, fs, |fs|);
    assert rs[..|fs|] == rs && fs[..|fs|] == fs;
  }

  lemma {:induction false} CopyFieldsExactUpTo(rs: seq<Result<Value, Failure>>, fs: seq<FieldDesc>, i: nat)
    requires |rs| == |fs| && i <= |fs|
    requires forall j :: 0 <= j < |fs| ==> rs[j].Success? && Assignable(fs[j].fieldType, rs[j].value)
    requires forall j, k :: 0 <= j < k < |fs| ==> fs[j].name != fs[k].name
    ensures CopyFields(rs[..i], fs[..i]).Success?
    ensures forall j :: 0 <= j < i ==> fs[j].name in CopyFields(rs[..i], fs[..i]).value && CopyFields(rs[..i], fs[..i]).value[fs[j].name] == Stored(fs[j].fieldType, rs[j].value)
  {
    if i > 0 {
      CopyFieldsExactUpTo(rs, fs, i - 1);
      CopyFieldsSnoc(rs, fs, i - 1);
      var m := CopyFields(rs[..i - 1], fs[..i - 1]).value;
      assert CopyFields(rs[..i], fs[..i]) == Success(m[fs[i - 1].name := Stored(fs[i - 1].fieldType, rs[i - 1].value)]);
      forall j | 0 <= j < i - 1
        ensures fs[j].name != fs[i - 1].name
      {
      }
    }
  }

  /** A plain column field reads back its raw value, so an entity of such fields is copied
      value for value: the copy reads back what the original holds. */
  lemma CopyFieldsColumns(e: Entity, fs: seq<FieldDesc>)
    requires forall i :: 0 <= i < |fs| ==> WellFormed(fs[i]) && !HasRelation(fs[i]) && !IsEntityCollectionField(fs[i])
    requires forall i :: 0 <= i < |fs| ==> Assignable(fs[i].fieldType, Read(e, fs[i]))
    requires forall i, j :: 0 <= i < j < |fs| ==> fs[i].name != fs[j].name
    ensures CopyFields(Readings(e, fs), fs).Success?
    ensures forall i :: 0 <= i < |fs| ==>
              fs[i].name in CopyFields(Readings(e, fs), fs).value && CopyFields(Readings(e, fs), fs).value[fs[i].name] == Stored(fs[i].fieldType, Read(e, fs[i]))
  {
    CopyFieldsExact(Readings(e, fs), fs);
  }

  /** A `@OneToMany` collection field cannot be read by `getFieldValue`, so copying an entity
      fails at the first such field. */
  lemma CopyFieldsFailsOnCollection(e: Entity, fs: seq<FieldDesc>, k: nat)
    requires k < |fs| && WellFormed(fs[k]) && !HasRelation(fs[k]) && IsEntityCollectionField(fs[k])
    ensures CopyFields(Readings(e, fs), fs).Failure?
  {
    var rs := Readings(e, fs);
    assert rs[k] == Failure(InvalidRelation(fs[k].name));
    CopyFieldsFailsAt(rs, fs, k);
  }

  lemma {:induction false} CopyFieldsFailsAt(rs: seq<Result<Value, Failure>>, fs: seq<FieldDesc>, k: nat)
    requires |rs| == |fs| && k < |fs| && rs[k].Failure?
    ensures CopyFields(rs, fs).Failure?
    decreases |fs|
  {
    if k < |fs| - 1 {
      CopyFieldsFailsAt(rs[..|rs| - 1], fs[..|fs| - 1], k);
    }
  }

  /** One more field: the copy of the fields before it, then this one. */
  lemma CopyFieldsSnoc(rs: seq<Result<Value, Failure>>, fs: seq<FieldDesc>, i: nat)
    requires |rs| == |fs| && i < |fs|
    ensures CopyFields(rs[..i + 1], fs[..i + 1]) ==
              match CopyFields(rs[..i], fs[..i])
              case Failure(err) => Failure(err)
              case Success(m) =>
                match rs[i]
                case Failure(err) => Failure(err)
                case Success(v) => if Assignable(fs[i].fieldType, v) then Success(m[fs[i].name := Stored(fs[i].fieldType, v)]) else Failure(IllegalArgument)
  {
    assert rs[..i + 1][..i] == rs[..i] && fs[..i + 1][..i] == fs[..i];
  }

  /** A copy that failed on a prefix of the fields fails with the same error on all of
      them: the loop stops at the first failure. */
  lemma {:induction false} CopyFieldsStops(rs: seq<Result<Value, Failure>>, fs: seq<FieldDesc>, i: nat)
    requires |rs| == |fs| && i <= |fs|
    requires CopyFields(rs[..i], fs[..i]).Failure?
    ensures CopyFields(rs, fs) == CopyFields(rs[..i], fs[..i])
    decreases |fs| - i
  {
    if i < |fs| {
      assert rs[..i + 1][..i] == rs[..i] && fs[..i + 1][..i] == fs[..i];
      CopyFieldsStops(rs, fs, i + 1);
    } else {
      assert rs[..i] == rs && fs[..i] == fs;
    }
  }

  // ---------------------------------------------------------------------------------------
  // The identity map

  /** `entityType.cast(x)`: a `null` passes, an instance of another class does not. */
  function Cast(cls: ClassDesc, x: Entity?): (r: Result<Entity?, Failure>)
    ensures x == null ==> r == Success(null)
    ensures x != null ==> (r.Success? <==> x.cls == cls)
    ensures r.Success? ==> r.value == x
    ensures r.Failure? ==> r.error == ClassCast
  {
    if x == null || x.cls == cls then Success(x) else Failure(ClassCast)
  }

  /** `EntityKey.of(entity)` on what the entity shows. */
  function KeyIn(v: EntityView): (r: Result<EntityKey, Failure>)
    ensures r.Success? ==> r.value.entityType == Some(v.cls)
  {
    match GetIdField(v.cls)
    case Failure(err) => Failure(err)
    case Success(idField) =>
      match FieldValue(v, idField)
      case Failure(err) => Failure(err)
      case Success(id) => Success(EntityKey(Some(v.cls), id))
  }

  /** `EntityKey.of` reads nothing beyond what the entity shows. */
  lemma KeyOfView(e: Entity)
    ensures KeyOf(e) == KeyIn(View(e))
  {
  }

  /** The two maps of the session: the identity map and the snapshots. */
  datatype Managed = Managed(cache: map<EntityKey, Entity>, snapshots: map<EntityKey, seq<Value>>)

  /** `computeIfAbsent(entity)` once the entity's key is known: a key already in the
      identity map yields the instance cached under it and changes nothing; otherwise the
      new entity is cached and its snapshot stored. A failing snapshot leaves the cache
      entry in place. */
  function Reconcile(m: Managed, e: Entity, key: EntityKey, v: EntityView): (r: (Managed, Result<Entity, Failure>))
    ensures forall k :: k in m.cache ==> k in r.0.cache && r.0.cache[k] == m.cache[k]
    ensures key in r.0.cache
    ensures key in m.cache ==> r == (m, Success(m.cache[key]))
    ensures key !in m.cache ==> r.0.cache == m.cache[key := e]
    ensures key !in m.cache && SnapshotIn(key, Some(v)).Success? ==>
              r == (Managed(m.cache[key := e], m.snapshots[key := SnapshotIn(key, Some(v)).value]), Success(e))
    ensures key !in m.cache && SnapshotIn(key, Some(v)).Failure? ==>
              r.0.snapshots == m.snapshots && r.1 == Failure(SnapshotIn(key, Some(v)).error)
    ensures r.1.Success? ==> r.0.cache[key] == r.1.value
  {
    if key in m.cache then (m, Success(m.cache[key]))
    else
      var cache := m.cache[key := e];
      match SnapshotIn(key, Some(v))
      case Failure(err) => (Managed(cache, m.snapshots), Failure(err))
      case Success(snap) => (Managed(cache, m.snapshots[key := snap]), Success(e))
  }

  /** `computeIfAbsent(entity)`, starting from `EntityKey.of(entity)`, which may fail. */
  function ComputeIn(m: Managed, e: Entity, v: EntityView): (r: (Managed, Result<Entity, Failure>))
    ensures KeyIn(v).Failure? ==> r == (m, Failure(KeyIn(v).error))
    ensures KeyIn(v).Success? ==> r == Reconcile(m, e, KeyIn(v).value, v)
  {
    match KeyIn(v)
    case Failure(err) => (m, Failure(err))
    case Success(key) => Reconcile(m, e, key, v)
  }

  /** `entityType.cast(computeIfAbsent(entity))`: the cast fails after the maps were
      updated. */
  function FetchIn(m: Managed, cls: ClassDesc, e: Entity, v: EntityView): (r: (Managed, Result<Entity, Failure>))
    ensures KeyIn(v).Failure? ==> r == (m, Failure(KeyIn(v).error))
    ensures forall k :: k in m.cache ==> k in r.0.cache && r.0.cache[k] == m.cache[k]
    ensures r.1.Success? ==> KeyIn(v).Success? && KeyIn(v).value in r.0.cache && r.0.cache[KeyIn(v).value] == r.1.value
                             && r.1.value.cls == cls
  {
    var (m1, x) := ComputeIn(m, e, v);
    (m1, if x.Success? && x.value.cls != cls then Failure(ClassCast) else x)
  }

  /** Each fetched instance is the one the identity map holds under the key of the row at
      the same position, and is of the requested class. */
  ghost predicate Tracked(cache: map<EntityKey, Entity>, cls: ClassDesc, vs: seq<EntityView>, found: seq<Entity>)
  {
    |found| == |vs| &&
    forall i :: 0 <= i < |vs| ==>
      KeyIn(vs[i]).Success? && KeyIn(vs[i]).value in cache && cache[KeyIn(vs[i]).value] == found[i] && found[i].cls == cls
  }

  lemma TrackedGrows(c1: map<EntityKey, Entity>, c2: map<EntityKey, Entity>, cls: ClassDesc, vs: seq<EntityView>, found: seq<Entity>)
    requires Tracked(c1, cls, vs, found)
    requires forall k :: k in c1 ==> k in c2 && c2[k] == c1[k]
    ensures Tracked(c2, cls, vs, found)
  {
  }

  lemma TrackedSnoc(cache: map<EntityKey, Entity>, cls: ClassDesc, vs: seq<EntityView>, found: seq<Entity>, v: EntityView, x: Entity)
    requires Tracked(cache, cls, vs, found)
    requires KeyIn(v).Success? && KeyIn(v).value in cache && cache[KeyIn(v).value] == x && x.cls == cls
    ensures Tracked(cache, cls, vs + [v], found + [x])
  {
    assert forall i :: 0 <= i < |vs| ==> (vs + [v])[i] == vs[i] && (found + [x])[i] == found[i];
  }

  /** The list variants: each row in turn through `computeIfAbsent` and `cast`; the stream
      stops at the first failure, after the rows before it were reconciled. */
  function FetchAllIn(m: Managed, cls: ClassDesc, es: seq<Entity>, vs: seq<EntityView>): (r: (Managed, Result<seq<Entity>, Failure>))
    requires |es| == |vs|
  {
    if |es| == 0 then (m, Success([]))
    else
      var n := |es| - 1;
      var prefix := FetchAllIn(m, cls, es[..n], vs[..n]);
      match prefix.1
      case Failure(err) => prefix
      case Success(found) =>
        var step := FetchIn(prefix.0, cls, es[n], vs[n]);
        match step.1
        case Failure(err) => (step.0, Failure(err))
        case Success(x) => (step.0, Success(found + [x]))
  }

  /** The list variants keep every entry already managed, and return the rows in order, each
      as the managed instance of its key, of the requested class. */
  lemma {:induction false} FetchAllTracked(m: Managed, cls: ClassDesc, es: seq<Entity>, vs: seq<EntityView>)
    requires |es| == |vs|
    ensures var r := FetchAllIn(m, cls, es, vs);
            && (forall k :: k in m.cache ==> k in r.0.cache && r.0.cache[k] == m.cache[k])
            && (r.1.Success? ==> Tracked(r.0.cache, cls, vs, r.1.value))
  {
    if |es| > 0 {
      var n := |es| - 1;
      FetchAllTracked(m, cls, es[..n], vs[..n]);
      var prefix := FetchAllIn(m, cls, es[..n], vs[..n]);
      if prefix.1.Success? {
        var step := FetchIn(prefix.0, cls, es[n], vs[n]);
        if step.1.Success? {
          TrackedGrows(prefix.0.cache, step.0.cache, cls, vs[..n], prefix.1.value);
          TrackedSnoc(step.0.cache, cls, vs[..n], prefix.1.value, vs[n], step.1.value);
          assert vs[..n] + [vs[n]] == vs;
        }
      }
    }
  }

  /** One more row: the rows before it, then this one. */
  lemma FetchAllSnoc(m: Managed, cls: ClassDesc, es: seq<Entity>, vs: seq<EntityView>, i: nat)
    requires |es| == |vs| && i < |es|
    requires FetchAllIn(m, cls, es[..i], vs[..i]).1.Success?
    ensures var prefix := FetchAllIn(m, cls, es[..i], vs[..i]);
            var step := FetchIn(prefix.0, cls, es[i], vs[i]);
            FetchAllIn(m, cls, es[..i + 1], vs[..i + 1]) ==
              (step.0, if step.1.Failure? then Failure(step.1.error) else Success(prefix.1.value + [step.1.value]))
  {
    assert es[..i + 1][..i] == es[..i] && vs[..i + 1][..i] == vs[..i];
  }

  /** Once a prefix of the rows failed, the rows after it are never reconciled. */
  lemma {:induction false} FetchAllStops(m: Managed, cls: ClassDesc, es: seq<Entity>, vs: seq<EntityView>, i: nat)
    requires |es| == |vs| && i <= |es|
    requires FetchAllIn(m, cls, es[..i], vs[..i]).1.Failure?
    ensures FetchAllIn(m, cls, es, vs) == FetchAllIn(m, cls, es[..i], vs[..i])
    decreases |es| - i
  {
    if i < |es| {
      assert es[..i + 1][..i] == es[..i] && vs[..i + 1][..i] == vs[..i];
      FetchAllStops(m, cls, es, vs, i + 1);
    } else {
      assert es[..i] == es && vs[..i] == vs;
    }
  }

  /** A row whose key is already managed comes back as the managed instance, not as the row
      the query returned. */
  lemma FetchKeepsManagedInstance(m: Managed, cls: ClassDesc, e: Entity, v: EntityView)
    requires KeyIn(v).Success? && KeyIn(v).value in m.cache && m.cache[KeyIn(v).value].cls == cls
    ensures FetchIn(m, cls, e, v) == (m, Success(m.cache[KeyIn(v).value]))
  {
  }

  /** Fetching the same row twice gives the same instance, and the second time changes
      nothing. */
  lemma FetchIdempotent(m: Managed, cls: ClassDesc, e: Entity, v: EntityView)
    requires FetchIn(m, cls, e, v).1.Success?
    ensures FetchIn(FetchIn(m, cls, e, v).0, cls, e, v) == FetchIn(m, cls, e, v)
  {
  }
}

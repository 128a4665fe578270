/** `EntityReflectionUtils`: how a field is classified (plain column, reference to another
    entity, collection of entities), which fields take part in which statement, the id and
    version fields, and reading and writing field values. */
module EntityReflection {
  import opened Wrappers
  import opened Model
  import opened FieldOrder

  /** The field carries `@ManyToOne` or `@OneToOne`. */
  predicate HasRelation(f: FieldDesc)
  {
    f.annotations.manyToOne || f.annotations.oneToOne
  }

  /** A relation annotation comes with `@JoinColumn`, and `@JoinColumn` with a relation. */
  predicate WellFormed(f: FieldDesc)
  {
    HasRelation(f) == f.annotations.joinColumn
  }

  /** `isEntityField`: whether the field references another entity; a relation without
      `@JoinColumn`, or `@JoinColumn` without a relation, is a mapping error. */
  function IsEntityField(f: FieldDesc): (r: Result<bool, Failure>)
    ensures r.Success? <==> WellFormed(f)
    ensures r.Success? ==> (r.value <==> HasRelation(f))
    ensures r.Failure? ==> r.error == (if HasRelation(f) then MissingJoinColumn(f.name) else MissingRelation(f.name))
  {
    if HasRelation(f) then
      if !f.annotations.joinColumn then Failure(MissingJoinColumn(f.name)) else Success(true)
    else
      if f.annotations.joinColumn then Failure(MissingRelation(f.name)) else Success(false)
  }

  /** `isEntityCollectionField`: the field carries `@OneToMany`. */
  predicate IsEntityCollectionField(f: FieldDesc)
  {
    f.annotations.oneToMany
  }

  /** `isColumnField`: neither a collection nor an entity field. The collection test comes
      first and short-circuits, so a collection field is never checked for well-formedness
      here. */
  function IsColumnField(f: FieldDesc): (r: Result<bool, Failure>)
    ensures IsEntityCollectionField(f) ==> r == Success(false)
    ensures !IsEntityCollectionField(f) ==> (r.Success? <==> WellFormed(f))
    ensures r.Success? ==> (r.value <==> !IsEntityCollectionField(f) && !HasRelation(f))
  {
    if IsEntityCollectionField(f) then Success(false)
    else
      match IsEntityField(f)
      case Failure(e) => Failure(e)
      case Success(isEntity) => Success(!isEntity)
  }

  /** On well-formed fields, a field is a plain column exactly when it is neither an entity
      reference nor a collection: every well-formed field has at least one kind, and a plain
      column has no other. A field annotated both `@OneToMany` and `@ManyToOne` is the one
      case with two kinds. */
  lemma ClassificationPartition(f: FieldDesc)
    requires WellFormed(f)
    ensures IsColumnField(f).value <==> !IsEntityField(f).value && !IsEntityCollectionField(f)
    ensures IsEntityField(f).value && IsEntityCollectionField(f) <==> f.annotations.oneToMany && HasRelation(f)
  {
  }

  /** The filter test of `getEntityFieldsSortedByName`: `isColumnField(f) || isEntityField(f)`. */
  function KeepAsEntityField(f: FieldDesc): (r: Result<bool, Failure>)
    ensures r.Success? <==> WellFormed(f)
    ensures r.Success? ==> (r.value <==> !IsEntityCollectionField(f) || HasRelation(f))
  {
    match IsColumnField(f)
    case Failure(e) => Failure(e)
    case Success(isColumn) => if isColumn then Success(true) else IsEntityField(f)
  }

  /** `fs[i]` is the first field whose test throws, and it throws `e`. */
  predicate FirstFailing(fs: seq<FieldDesc>, i: int, keep: FieldDesc -> Result<bool, Failure>, e: Failure)
  {
    0 <= i < |fs| && keep(fs[i]) == Failure(e) && forall j :: 0 <= j < i ==> keep(fs[j]).Success?
  }

  /** A stream filter whose test may throw: the first failing test, in declaration order,
      aborts the whole stream. */
  function FilterChecked(fs: seq<FieldDesc>, keep: FieldDesc -> Result<bool, Failure>): (r: Result<seq<FieldDesc>, Failure>)
    ensures r.Success? <==> forall f :: f in fs ==> keep(f).Success?
    ensures r.Success? ==> forall f :: f in r.value <==> f in fs && keep(f) == Success(true)
    ensures r.Success? ==> multiset(r.value) <= multiset(fs)
    ensures r.Failure? ==> exists i :: FirstFailing(fs, i, keep, r.error)
  {
    if |fs| == 0 then Success([])
    else
      assert fs == [fs[0]] + fs[1..];
      match keep(fs[0])
      case Failure(e) =>
        assert FirstFailing(fs, 0, keep, e);
        Failure(e)
      case Success(b) =>
        var rest := FilterChecked(fs[1..], keep);
        match rest
        case Success(kept) => Success((if b then [fs[0]] else []) + kept)
        case Failure(e) =>
          assert exists i :: FirstFailing(fs, i, keep, e) by {
            var k :| FirstFailing(fs[1..], k, keep, e);
            assert FirstFailing(fs, k + 1, keep, e) by {
              assert fs[k + 1] == fs[1..][k];
              forall j | 0 <= j < k + 1 ensures keep(fs[j]).Success? {
                if j > 0 { assert fs[j] == fs[1..][j - 1]; }
              }
            }
          }
          Failure(e)
  }

  /** `getEntityFieldsSortedByName`: the plain-column and entity-reference fields, sorted by
      name; the first malformed declared field makes it throw. */
  function GetEntityFieldsSortedByName(c: ClassDesc): (r: Result<seq<FieldDesc>, Failure>)
    ensures r.Success? <==> forall f :: f in c.fields ==> WellFormed(f)
    ensures r.Success? ==> SortedByName(r.value)
    ensures r.Success? ==> forall f :: f in r.value <==> f in c.fields && (!IsEntityCollectionField(f) || HasRelation(f))
    ensures r.Success? ==> multiset(r.value) <= multiset(c.fields)
    ensures r.Failure? ==> exists i :: 0 <= i < |c.fields| && !WellFormed(c.fields[i])
                                       && r.error == IsEntityField(c.fields[i]).error
                                       && forall j :: 0 <= j < i ==> WellFormed(c.fields[j])
  {
    match FilterChecked(c.fields, KeepAsEntityField)
    case Failure(e) => Failure(e)
    case Success(kept) =>
      SortByNameMembers(kept);
      Success(SortByName(kept))
  }

  /** The filter test of `getUpdatableFields`. */
  predicate Updatable(f: FieldDesc)
  {
    !f.annotations.id && !IsEntityCollectionField(f)
  }

  /** `getUpdatableFields`: every declared field except the `@Id` and `@OneToMany` ones,
      sorted by name. */
  function GetUpdatableFields(c: ClassDesc): (r: seq<FieldDesc>)
    ensures SortedByName(r)
    ensures forall f :: f in r <==> f in c.fields && !f.annotations.id && !IsEntityCollectionField(f)
    ensures multiset(r) <= multiset(c.fields)
    ensures |r| == Count(c.fields, Updatable)
  {
    var kept := Filter(c.fields, Updatable);
    FilterCount(c.fields, Updatable);
    SortByNameMembers(kept);
    SortByName(kept)
  }

  /** `getInsertableFieldsForIdentityGenerationType`: with database-generated ids, the
      inserted columns are the updatable ones, so the id is never inserted. */
  function GetInsertableFieldsForIdentityGenerationType(c: ClassDesc): (r: seq<FieldDesc>)
    ensures r == GetUpdatableFields(c)
    ensures SortedByName(r)
    ensures forall f :: f in r <==> f in c.fields && !f.annotations.id && !IsEntityCollectionField(f)
  {
    GetUpdatableFields(c)
  }

  /** `getIdField`: the first `@Id` field of an `@Entity` class. */
  function GetIdField(c: ClassDesc): (r: Result<FieldDesc, Failure>)
    ensures !c.isEntity ==> r == Failure(NotManagedType(c.name))
    ensures c.isEntity && (forall f :: f in c.fields ==> !f.annotations.id) ==> r == Failure(IdentifierNotSpecified(c.name))
    ensures r.Success? <==> c.isEntity && exists f :: f in c.fields && f.annotations.id
    ensures r.Success? ==> exists i :: 0 <= i < |c.fields| && c.fields[i] == r.value && r.value.annotations.id
                                       && forall j :: 0 <= j < i ==> !c.fields[j].annotations.id
  {
    if !c.isEntity then Failure(NotManagedType(c.name))
    else
      match FindFirst(c.fields, (f: FieldDesc) => f.annotations.id)
      case None => Failure(IdentifierNotSpecified(c.name))
      case Some(f) => Success(f)
  }

  /** `isVesionOptLockField`: the field carries `@Version`. */
  predicate IsVersionOptLockField(f: FieldDesc)
  {
    f.annotations.version
  }

  /** The fields' names, in order. */
  function Names(fs: seq<FieldDesc>): (names: seq<string>)
    ensures |names| == |fs|
    ensures forall i :: 0 <= i < |fs| ==> names[i] == fs[i].name
  {
    if |fs| == 0 then [] else [fs[0].name] + Names(fs[1..])
  }

  /** `getVersionField`: no `@Version` field gives `null`, one gives that field, more than
      one is a mapping error listing them. */
  function GetVersionField(c: ClassDesc): (r: Result<Option<FieldDesc>, Failure>)
    ensures r == Success(None) <==> c.isEntity && Count(c.fields, IsVersionOptLockField) == 0
    ensures r.Success? && r.value.Some? ==>
      && Count(c.fields, IsVersionOptLockField) == 1
      && r.value.value in c.fields
      && IsVersionOptLockField(r.value.value)
    ensures r.Failure? <==> !c.isEntity || Count(c.fields, IsVersionOptLockField) > 1
    ensures !c.isEntity ==> r == Failure(NotManagedType(c.name))
    ensures c.isEntity && Count(c.fields, IsVersionOptLockField) > 1 ==> r.Failure? && r.error.TooManyVersionFields?
  {
    if !c.isEntity then Failure(NotManagedType(c.name))
    else
      var versions := Filter(c.fields, IsVersionOptLockField);
      FilterCount(c.fields, IsVersionOptLockField);
      if |versions| > 1 then Failure(TooManyVersionFields(c.name, Names(versions)))
      else if |versions| < 1 then Success(None)
      else Success(Some(versions[0]))
  }

  /** With a single `@Version` field, that field is the one `getVersionField` returns:
      every version field of the class is it. */
  lemma VersionFieldUnique(c: ClassDesc, g: FieldDesc)
    requires GetVersionField(c).Success? && GetVersionField(c).value.Some?
    requires g in c.fields && IsVersionOptLockField(g)
    ensures g == GetVersionField(c).value.value
  {
    var versions := Filter(c.fields, IsVersionOptLockField);
    FilterCount(c.fields, IsVersionOptLockField);
    assert g in versions;
  }

  const Int32Min: int := -0x8000_0000
  const Int32Max: int := 0x7FFF_FFFF
  const Int64Min: int := -0x8000_0000_0000_0000
  const Int64Max: int := 0x7FFF_FFFF_FFFF_FFFF

  /** Java `int` arithmetic: the result reduced into the 32-bit two's-complement range. */
  function Wrap32(x: int): (r: int)
    ensures Int32Min <= r <= Int32Max
    ensures Int32Min <= x <= Int32Max ==> r == x
    ensures (r - x) % 0x1_0000_0000 == 0
  {
    (x - Int32Min) % 0x1_0000_0000 + Int32Min
  }

  /** Java `long` arithmetic: the result reduced into the 64-bit two's-complement range. */
  function Wrap64(x: int): (r: int)
    ensures Int64Min <= r <= Int64Max
    ensures Int64Min <= x <= Int64Max ==> r == x
    ensures (r - x) % 0x1_0000_0000_0000_0000 == 0
  {
    (x - Int64Min) % 0x1_0000_0000_0000_0000 + Int64Min
  }

  /** Whether `f`'s type `isAssignableFrom(Integer.class)`: `Integer` itself or one of its
      supertypes. */
  predicate HoldsInteger(f: FieldDesc) {
    f.fieldType.IntegerType? || DeclaredAsSupertype(f.fieldType, NumberSupertypes)
  }

  /** `incrementVersionField`: the current value plus one, for fields declared `Integer` (or a
      supertype of it), `Long`, `int` and `long`, computed in the field's width (the largest
      value wraps to the smallest). A field declared as a supertype of `Integer` is cast to
      `Integer`, so a `Long` in it fails the cast. A `null` boxed value throws on unboxing;
      any other type is a mapping error. */
  function IncrementVersionField(f: FieldDesc, e: Entity): (r: Result<Value, Failure>)
    reads e
    ensures (HoldsInteger(f) || f.fieldType.IntType?) && Read(e, f).Int? && Int32Min <= Read(e, f).i < Int32Max
            ==> r == Success(Int(Read(e, f).i + 1))
    ensures (HoldsInteger(f) || f.fieldType.IntType?) && Read(e, f) == Int(Int32Max) ==> r == Success(Int(Int32Min))
    ensures (HoldsInteger(f) || f.fieldType.IntType?) && !Read(e, f).Int? && !Read(e, f).Null? ==> r == Failure(ClassCast)
    ensures (f.fieldType.LongType? || f.fieldType.LongPrimType?) && Read(e, f).Long? && Int64Min <= Read(e, f).l < Int64Max
            ==> r == Success(Long(Read(e, f).l + 1))
    ensures (f.fieldType.LongType? || f.fieldType.LongPrimType?) && Read(e, f) == Long(Int64Max) ==> r == Success(Long(Int64Min))
    ensures HoldsInteger(f) && Read(e, f).Null? ==> r == Failure(NullPointer)
    ensures f.fieldType.LongType? && Read(e, f).Null? ==> r == Failure(NullPointer)
    ensures !(HoldsInteger(f) || f.fieldType.IntType? || f.fieldType.LongType? || f.fieldType.LongPrimType?)
            ==> r == Failure(UnsupportedVersionType(e.cls.name))
    ensures r.Success? ==> r.value.Int? || r.value.Long?
  {
    var v := Read(e, f);
    if HoldsInteger(f) || f.fieldType.IntType? then
      match v
      case Null => Failure(NullPointer)
      case Int(n) => Success(Int(Wrap32(n + 1)))
      case _ => Failure(ClassCast)
    else if f.fieldType.LongType? || f.fieldType.LongPrimType? then
      match v
      case Null => Failure(NullPointer)
      case Long(n) => Success(Long(Wrap64(n + 1)))
      case _ => Failure(ClassCast)
    else Failure(UnsupportedVersionType(e.cls.name))
  }

  /** `getFieldValue` on what it can observe: a plain column's own value; for an entity
      reference, the id of the referenced entity (a `null` reference throws); a collection
      field has no column value. */
  function FieldValue(v: EntityView, f: FieldDesc): Result<Value, Failure>
  {
    match IsEntityField(f)
    case Failure(err) => Failure(err)
    case Success(isEntity) =>
      if isEntity then
        match ReadIn(v.state, f)
        case Null => Failure(NullPointer)
        case Ref(x) =>
          if f.fieldType != EntityType(x.cls.name) then Failure(ClassCast)
          else (
            match GetIdField(x.cls)
            case Failure(err) => Failure(err)
            case Success(idField) =>
              Success(if x in v.targets then ReadIn(v.targets[x], idField) else DefaultValue(idField.fieldType)))
        case _ => Failure(ClassCast)
      else if IsColumnField(f) == Success(true) then Success(ReadIn(v.state, f))
      else Failure(InvalidRelation(f.name))
  }

  /** `getFieldValue(entity, field)`. */
  function GetFieldValue(e: Entity, f: FieldDesc): (r: Result<Value, Failure>)
    reads e, Targets(e)
    ensures !WellFormed(f) ==> r == Failure(IsEntityField(f).error)
    ensures WellFormed(f) && !HasRelation(f) && !IsEntityCollectionField(f) ==> r == Success(Read(e, f))
    ensures WellFormed(f) && !HasRelation(f) && IsEntityCollectionField(f) ==> r == Failure(InvalidRelation(f.name))
    ensures WellFormed(f) && HasRelation(f) && Read(e, f).Null? ==> r == Failure(NullPointer)
    ensures r.Success? && HasRelation(f) ==>
      && Read(e, f).Ref?
      && GetIdField(Read(e, f).target.cls).Success?
      && r.value == Read(Read(e, f).target, GetIdField(Read(e, f).target.cls).value)
    ensures WellFormed(f) && HasRelation(f) && Read(e, f).Ref? && f.fieldType == EntityType(Read(e, f).target.cls.name) ==>
      r == (if GetIdField(Read(e, f).target.cls).Success?
            then Success(Read(Read(e, f).target, GetIdField(Read(e, f).target.cls).value))
            else Failure(GetIdField(Read(e, f).target.cls).error))
    ensures WellFormed(f) && HasRelation(f) && !Read(e, f).Null? && !(Read(e, f).Ref? && f.fieldType == EntityType(Read(e, f).target.cls.name)) ==>
      r == Failure(ClassCast)
  {
    if Read(e, f).Ref? then ViewTarget(e, f); FieldValue(View(e), f) else FieldValue(View(e), f)
  }

  /** `getEntityIdValue`: the value of the entity's id field. */
  function GetEntityIdValue(e: Entity): (r: Result<Value, Failure>)
    reads e, Targets(e)
    ensures GetIdField(e.cls).Failure? ==> r == Failure(GetIdField(e.cls).error)
    ensures GetIdField(e.cls).Success? && WellFormed(GetIdField(e.cls).value)
            && !HasRelation(GetIdField(e.cls).value) && !IsEntityCollectionField(GetIdField(e.cls).value)
            ==> r == Success(Read(e, GetIdField(e.cls).value))
  {
    match GetIdField(e.cls)
    case Failure(err) => Failure(err)
    case Success(idField) => GetFieldValue(e, idField)
  }

  /** `setFieldValue`: stores `v` in the field, widened when the field is a `long`;
      `Field.set` rejects a field of another class and a value of the wrong type (including
      `null` for a primitive). */
  method SetFieldValue(e: Entity, f: FieldDesc, v: Value) returns (o: Outcome<Failure>)
    modifies e
    ensures f in e.cls.fields && Assignable(f.fieldType, v) ==> o == Pass && e.state == old(e.state)[f.name := Stored(f.fieldType, v)]
    ensures !(f in e.cls.fields && Assignable(f.fieldType, v)) ==> o == Fail(IllegalArgument) && e.state == old(e.state)
  {
    if f in e.cls.fields && Assignable(f.fieldType, v) {
      e.state := e.state[f.name := Stored(f.fieldType, v)];
      o := Pass;
    } else {
      o := Fail(IllegalArgument);
    }
  }

  /** `newInstanceOf`: a new object of the class, all of whose fields hold their defaults. */
  method NewInstanceOf(c: ClassDesc) returns (e: Entity)
    ensures fresh(e) && e.cls == c && e.state == map[]
    ensures forall f :: Read(e, f) == DefaultValue(f.fieldType)
  {
    e := new Entity(c, map[]);
  }

  /** `getJoinClazzField`: the first field of `joinClazz` whose declared type is `clazz`. */
  function GetJoinClazzField(clazz: ClassDesc, joinClazz: ClassDesc): (r: Result<FieldDesc, Failure>)
    ensures r.Success? <==> exists f :: f in joinClazz.fields && f.fieldType == EntityType(clazz.name)
    ensures r.Success? ==> exists i :: 0 <= i < |joinClazz.fields| && joinClazz.fields[i] == r.value
                                       && r.value.fieldType == EntityType(clazz.name)
                                       && forall j :: 0 <= j < i ==> joinClazz.fields[j].fieldType != EntityType(clazz.name)
    ensures r.Failure? ==> r.error == RelatedFieldNotFound(joinClazz.name)
  {
    match FindFirst(joinClazz.fields, (f: FieldDesc) => f.fieldType == EntityType(clazz.name))
    case None => Failure(RelatedFieldNotFound(joinClazz.name))
    case Some(f) => Success(f)
  }
}

/** The description of entity classes that the Java code obtains by reflection, the values
    held in entity fields, the entity objects themselves, and the exceptions the core throws. */
module Model {
  import opened Wrappers

  /** The mapping annotations present on one declared field. `column` is `None` without
      `@Column`, and `Some("")` for `@Column` without a name. */
  datatype Annotations = Annotations(
    id: bool,
    column: Option<string>,
    version: bool,
    manyToOne: bool,
    oneToOne: bool,
    oneToMany: bool,
    joinColumn: bool)

  /** The declared Java type of a field, as far as the core distinguishes types. */
  datatype TypeTag =
    | IntegerType           // java.lang.Integer
    | LongType              // java.lang.Long
    | IntType               // int
    | LongPrimType          // long
    | StringType
    | EntityType(className: string)
    | ListType(elementClass: string)
    | OtherType(typeName: string)

  datatype FieldDesc = FieldDesc(name: string, annotations: Annotations, fieldType: TypeTag)

  /** A class: its qualified and simple name, whether it carries `@Entity`, its `@Table`
      annotation (`None` when absent, `Some("")` without a name) and its declared fields in
      declaration order. */
  datatype ClassDesc = ClassDesc(
    name: string,
    simpleName: string,
    isEntity: bool,
    table: Option<string>,
    fields: seq<FieldDesc>)

  /** A field value. `Ref` is a reference to another entity object; two `Ref`s are equal
      only when they name the same object, whatever the entities' `equals` says. */
  datatype Value =
    | Null
    | Int(i: int)
    | Long(l: int)
    | Text(s: string)
    | Ref(target: Entity)
    | Items(elements: seq<Value>)

  /** An entity instance: its runtime class and the current values of its fields. */
  class Entity {
    const cls: ClassDesc
    var state: map<string, Value>

    constructor (cls: ClassDesc, state: map<string, Value>)
      ensures this.cls == cls && this.state == state
    {
      this.cls := cls;
      this.state := state;
    }
  }

  /** The value a field has before anything is assigned to it. */
  function DefaultValue(t: TypeTag): Value {
    match t
    case IntType => Int(0)
    case LongPrimType => Long(0)
    case _ => Null
  }

  /** `field.get` on a field map: the stored value, or the field's default when nothing was
      stored. */
  function ReadIn(state: map<string, Value>, f: FieldDesc): Value
  {
    if f.name in state then state[f.name] else DefaultValue(f.fieldType)
  }

  /** `field.get(entity)`. */
  function Read(e: Entity, f: FieldDesc): Value
    reads e
  {
    ReadIn(e.state, f)
  }

  /** The entities `e` refers to directly. */
  function Targets(e: Entity): set<Entity>
    reads e
  {
    set n | n in e.state && e.state[n].Ref? :: e.state[n].target
  }

  /** Everything reading the fields of an entity can observe: its class, its field values and
      the field values of the entities it refers to. */
  datatype EntityView = EntityView(cls: ClassDesc, state: map<string, Value>, targets: map<Entity, map<string, Value>>)

  function View(e: Entity): EntityView
    reads e, Targets(e)
  {
    EntityView(e.cls, e.state, map t | t in Targets(e) :: t.state)
  }

  /** A referenced entity's fields are part of the view. */
  lemma ViewTarget(e: Entity, f: FieldDesc)
    requires Read(e, f).Ref?
    ensures Read(e, f).target in View(e).targets && View(e).targets[Read(e, f).target] == Read(e, f).target.state
  {
    assert f.name in e.state && e.state[f.name].Ref?;
  }

  /** The supertypes of `Integer` and `Long` a field can be declared with: every one of them
      accepts a boxed number. */
  const NumberSupertypes: set<string> := {"java.lang.Object", "java.lang.Number", "java.io.Serializable",
    "java.lang.Comparable", "java.lang.constant.Constable", "java.lang.constant.ConstantDesc"}

  /** The supertypes of `String`. */
  const StringSupertypes: set<string> := {"java.lang.Object", "java.io.Serializable", "java.lang.CharSequence",
    "java.lang.Comparable", "java.lang.constant.Constable", "java.lang.constant.ConstantDesc"}

  /** The supertypes of `List`. */
  const ListSupertypes: set<string> := {"java.lang.Object", "java.util.Collection", "java.lang.Iterable"}

  /** Whether a field's declared type `t` is one of the named supertypes. */
  predicate DeclaredAsSupertype(t: TypeTag, supertypes: set<string>) {
    t.OtherType? && t.typeName in supertypes
  }

  /** Whether `Field.set` accepts `v` for a field of type `t`: the reference types accept a
      value of their own type or of a subtype, a primitive field accepts its boxed value after
      unboxing and, for `long`, an `Integer` by widening. */
  predicate Assignable(t: TypeTag, v: Value) {
    match v
    case Null => !(t.IntType? || t.LongPrimType?)
    case Int(_) => t.IntegerType? || t.IntType? || t.LongPrimType? || DeclaredAsSupertype(t, NumberSupertypes)
    case Long(_) => t.LongType? || t.LongPrimType? || DeclaredAsSupertype(t, NumberSupertypes)
    case Text(_) => t.StringType? || DeclaredAsSupertype(t, StringSupertypes)
    case Ref(x) => t == EntityType(x.cls.name) || t == OtherType("java.lang.Object")
    case Items(_) => t.ListType? || DeclaredAsSupertype(t, ListSupertypes)
  }

  /** What a field of type `t` holds after `Field.set(v)`: an `Integer` stored into a `long`
      field is widened, every other accepted value is stored as it is. */
  function Stored(t: TypeTag, v: Value): (r: Value)
    requires Assignable(t, v)
    ensures Assignable(t, r)
    ensures t.LongPrimType? ==> r.Long? && r.l == (if v.Int? then v.i else v.l)
    ensures !t.LongPrimType? ==> r == v
  {
    if t.LongPrimType? && v.Int? then Long(v.i) else v
  }

  /** The exceptions thrown by the core. */
  datatype Failure =
    | NotManagedType(typeName: string)              // AnnotationMappingException
    | IdentifierNotSpecified(typeName: string)      // AnnotationMappingException
    | MissingJoinColumn(fieldName: string)          // AnnotationMappingException
    | MissingRelation(fieldName: string)            // AnnotationMappingException
    | TooManyVersionFields(typeName: string, fieldNames: seq<string>)
    | UnsupportedVersionType(typeName: string)      // AnnotationMappingException
    | RelatedFieldNotFound(typeName: string)        // AnnotationMappingException
    | InvalidRelation(fieldName: string)            // BibernateException
    | NullPointer                                   // NullPointerException
    | ClassCast                                     // ClassCastException
    | IllegalArgument                               // IllegalArgumentException
    | NoSuchElement                                 // NoSuchElementException
    | IndexOutOfBounds                              // IndexOutOfBoundsException
    | SessionClosed                                 // SessionOperationException
    | DetachedEntity(typeName: string)              // IllegalArgumentException in remove
    | TransactionStarted                            // TransactionException "Transaction was started"
    | TransactionNotStarted                         // TransactionException "Transaction is not started"
    | TransactionSql                                // TransactionException wrapping an SQLException
    | DaoOperation                                  // DaoOperationException "contains more than one line"
}

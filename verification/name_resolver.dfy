/** `ParameterNameResolver`: the table name of an entity class and the column name of a
    field, each taken from its annotation when the annotation names one, and otherwise
    from the Java name. */
module NameResolver {
  import opened Wrappers
  import opened Model

  /** The table name: `@Table(name)` when present and non-empty, the class's simple name
      otherwise. */
  function ResolveTableName(c: ClassDesc): (name: string)
    ensures c.table.None? ==> name == c.simpleName
    ensures c.table == Some("") ==> name == c.simpleName
    ensures c.table.Some? && c.table.value != "" ==> name == c.table.value
    ensures name == "" <==> c.simpleName == "" && (c.table.None? || c.table.value == "")
  {
    match c.table
    case None => c.simpleName
    case Some(t) => if t == "" then c.simpleName else t
  }

  /** The column name: `@Column(name)` when present and non-empty, the field name
      otherwise. */
  function ResolveColumnName(f: FieldDesc): (name: string)
    ensures f.annotations.column.None? ==> name == f.name
    ensures f.annotations.column == Some("") ==> name == f.name
    ensures f.annotations.column.Some? && f.annotations.column.value != "" ==> name == f.annotations.column.value
    ensures name == "" <==> f.name == "" && (f.annotations.column.None? || f.annotations.column.value == "")
  {
    match f.annotations.column
    case None => f.name
    case Some(n) => if n == "" then f.name else n
  }

  /** The column names of a list of fields, in the same order. */
  function ColumnNames(fs: seq<FieldDesc>): (names: seq<string>)
    ensures |names| == |fs|
    ensures forall i :: 0 <= i < |fs| ==> names[i] == ResolveColumnName(fs[i])
  {
    if |fs| == 0 then [] else [ResolveColumnName(fs[0])] + ColumnNames(fs[1..])
  }
}

/** `SqlQueryBuilder`: SELECT and UPDATE statements by id, filled into `String.format`
    templates. */
module SqlBuilder {
  import opened Wrappers
  import opened Model
  import opened Text
  import opened NameResolver
  import opened FieldOrder

  const SelectByIdSql: string := "select * from %s where %s = ?"
  const UpdateByIdSql: string := "update %s set %s where %s = ?"

  /** The number of `%s` holes in a template. */
  function Holes(t: string): nat
  {
    if |t| < 2 then 0
    else if t[0] == '%' && t[1] == 's' then 1 + Holes(t[2..])
    else Holes(t[1..])
  }

  /** `String.format` for templates whose only conversions are `%s`: each hole, from the
      left, takes the next argument. */
  function Format(t: string, args: seq<string>): string
    requires Holes(t) <= |args|
  {
    if |t| < 2 then t
    else if t[0] == '%' && t[1] == 's' then args[0] + Format(t[2..], args[1..])
    else [t[0]] + Format(t[1..], args)
  }

  lemma {:induction false} FormatText(lit: string, t: string, args: seq<string>)
    requires '%' !in lit
    ensures Holes(lit + t) == Holes(t)
    ensures Holes(t) <= |args| ==> Format(lit + t, args) == lit + Format(t, args)
    decreases |lit|
  {
    if |lit| > 0 {
      var s := lit + t;
      assert s[0] == lit[0] && lit[0] in lit;
      assert s[1..] == lit[1..] + t;
      assert lit == [lit[0]] + lit[1..];
      FormatText(lit[1..], t, args);
      if |s| < 2 {
        assert t == "" && s == lit;
      }
    } else {
      assert lit + t == t;
    }
  }

  lemma FormatHole(t: string, args: seq<string>)
    ensures Holes("%s" + t) == Holes(t) + 1
    ensures |args| > 0 && Holes(t) <= |args| - 1 ==> Format("%s" + t, args) == args[0] + Format(t, args[1..])
  {
    assert ("%s" + t)[2..] == t;
  }

  /** A template with two holes between `%`-free text. */
  lemma FormatTwo(a: string, b: string, c: string, x: string, y: string)
    requires '%' !in a && '%' !in b && '%' !in c
    ensures Holes(a + ("%s" + (b + ("%s" + c)))) == 2
    ensures Format(a + ("%s" + (b + ("%s" + c))), [x, y]) == a + (x + (b + (y + c)))
  {
    var args := [x, y];
    FormatText(c, "", args[2..]);
    assert c + "" == c;
    FormatHole(c, args[1..]);
    FormatText(b, "%s" + c, args[1..]);
    FormatHole(b + ("%s" + c), args);
    FormatText(a, "%s" + (b + ("%s" + c)), args);
  }

  /** A template with three holes between `%`-free text. */
  lemma FormatThree(a: string, b: string, c: string, d: string, x: string, y: string, z: string)
    requires '%' !in a && '%' !in b && '%' !in c && '%' !in d
    ensures Holes(a + ("%s" + (b + ("%s" + (c + ("%s" + d)))))) == 3
    ensures Format(a + ("%s" + (b + ("%s" + (c + ("%s" + d))))), [x, y, z]) == a + (x + (b + (y + (c + (z + d)))))
  {
    var args := [x, y, z];
    var rest := b + ("%s" + (c + ("%s" + d)));
    FormatTwo(b, c, d, y, z);
    assert args[1..] == [y, z];
    FormatHole(rest, args);
    FormatText(a, "%s" + rest, args);
  }

  /** The select template fills to the statement it reads as. */
  lemma SelectTemplate(table: string, idColumn: string)
    ensures Holes(SelectByIdSql) == 2
    ensures Format(SelectByIdSql, [table, idColumn]) == "select * from " + table + " where " + idColumn + " = ?"
  {
    assert SelectByIdSql == "select * from " + ("%s" + (" where " + ("%s" + " = ?")));
    FormatTwo("select * from ", " where ", " = ?", table, idColumn);
    Assoc("select * from " + table + " where ", idColumn, " = ?");
    Assoc("select * from " + table, " where ", idColumn + " = ?");
    Assoc("select * from ", table, " where " + (idColumn + " = ?"));
  }

  /** The update template fills to the statement it reads as. */
  lemma UpdateTemplate(table: string, columns: string, idColumn: string)
    ensures Holes(UpdateByIdSql) == 3
    ensures Format(UpdateByIdSql, [table, columns, idColumn])
            == "update " + table + " set " + columns + " where " + idColumn + " = ?"
  {
    assert UpdateByIdSql == "update " + ("%s" + (" set " + ("%s" + (" where " + ("%s" + " = ?")))));
    FormatThree("update ", " set ", " where ", " = ?", table, columns, idColumn);
    Assoc("update " + table + " set " + columns + " where ", idColumn, " = ?");
    Assoc("update " + table + " set " + columns, " where ", idColumn + " = ?");
    Assoc("update " + table + " set ", columns, " where " + (idColumn + " = ?"));
    Assoc("update " + table, " set ", columns + (" where " + (idColumn + " = ?")));
    Assoc("update ", table, " set " + (columns + (" where " + (idColumn + " = ?"))));
  }

  /** The private `getIdField` of the builder: the first `@Id` field; unlike the reflection
      helper it does not look for `@Entity`, and a class without `@Id` fails with
      `NoSuchElementException`. */
  function GetIdField(c: ClassDesc): (r: Result<FieldDesc, Failure>)
    ensures r.Success? <==> exists f :: f in c.fields && f.annotations.id
    ensures r.Success? ==> r.value in c.fields && r.value.annotations.id
    ensures r.Failure? ==> r.error == NoSuchElement
  {
    match FindFirst(c.fields, (f: FieldDesc) => f.annotations.id)
    case None => Failure(NoSuchElement)
    case Some(f) => Success(f)
  }

  /** `buildSelectByIdQuery`. */
  function BuildSelectByIdQuery(c: ClassDesc): (r: Result<string, Failure>)
    ensures r.Failure? <==> GetIdField(c).Failure?
    ensures r.Failure? ==> r.error == NoSuchElement
    ensures r.Success? ==>
      r.value == "select * from " + ResolveTableName(c) + " where " + ResolveColumnName(GetIdField(c).value) + " = ?"
  {
    match GetIdField(c)
    case Failure(e) => Failure(e)
    case Success(idField) =>
      SelectTemplate(ResolveTableName(c), ResolveColumnName(idField));
      Success(Format(SelectByIdSql, [ResolveTableName(c), ResolveColumnName(idField)]))
  }

  // ---------------------------------------------------------------------------------------
  // The SET list of the update statement

  /** What one declared field contributes to the SET list as `resolveColumnsForUpdate` is
      written: nothing for the id column, otherwise `col=?` followed by `", "` unless it is the
      last declared field (`fs` is the field with the ones after it). */
  function SetPiece(fs: seq<FieldDesc>, idColumn: string): string
    requires |fs| > 0
  {
    var col := ResolveColumnName(fs[0]);
    if col == idColumn then "" else col + "=?" + (if |fs| > 1 then ", " else "")
  }

  /** The SET list as written: the contributions of all declared fields in order. */
  function SetListAsWritten(fs: seq<FieldDesc>, idColumn: string): string
  {
    if |fs| == 0 then "" else SetPiece(fs, idColumn) + SetListAsWritten(fs[1..], idColumn)
  }

  /** `resolveColumnsForUpdate`, as written: the `StringBuilder` loop over the declared
      fields. */
  method ResolveColumnsForUpdate(c: ClassDesc, idColumn: string) returns (s: string)
    ensures s == SetListAsWritten(c.fields, idColumn)
  {
    var fields := c.fields;
    var builder := "";
    assert fields[0..] == fields;
    for i := 0 to |fields|
      invariant builder + SetListAsWritten(fields[i..], idColumn) == SetListAsWritten(fields, idColumn)
    {
      ghost var before := builder;
      builder := AppendSetPiece(builder, fields, i, idColumn);
      SetListStep(fields, i, idColumn);
      Assoc(before, SetPiece(fields[i..], idColumn), SetListAsWritten(fields[i + 1..], idColumn));
    }
    s := builder;
  }

  /** One iteration of `resolveColumnsForUpdate`: the `i`-th field's `col=?`, and the
      separator unless it is the last declared field; nothing for the id column. */
  method AppendSetPiece(builder: string, fields: seq<FieldDesc>, i: nat, idColumn: string) returns (b: string)
    requires i < |fields|
    ensures b == builder + SetPiece(fields[i..], idColumn)
  {
    var columnName := ResolveColumnName(fields[i]);
    SetListStep(fields, i, idColumn);
    b := builder;
    if columnName != idColumn {
      b := b + columnName + "=" + "?";
      assert b == builder + (columnName + "=?");
      if i < |fields| - 1 {
        b := b + ", ";
        Assoc(builder, columnName + "=?", ", ");
      }
    }
  }

  /** One field of the SET list: the piece the `i`-th field contributes, then the rest. */
  lemma SetListStep(fields: seq<FieldDesc>, i: nat, idColumn: string)
    requires i < |fields|
    ensures SetListAsWritten(fields[i..], idColumn) == SetPiece(fields[i..], idColumn) + SetListAsWritten(fields[i + 1..], idColumn)
    ensures var col := ResolveColumnName(fields[i]);
      SetPiece(fields[i..], idColumn) == if col == idColumn then "" else col + "=?" + (if i < |fields| - 1 then ", " else "")
  {
    assert fields[i..][0] == fields[i] && fields[i..][1..] == fields[i + 1..];
  }

  /** The non-id columns in declaration order. */
  function NonIdColumns(fs: seq<FieldDesc>, idColumn: string): (cols: seq<string>)
    ensures forall i :: 0 <= i < |cols| ==> cols[i] != idColumn
  {
    if |fs| == 0 then []
    else
      var col := ResolveColumnName(fs[0]);
      (if col == idColumn then [] else [col]) + NonIdColumns(fs[1..], idColumn)
  }

  /** Every column other than the id column is kept. */
  lemma {:induction false} NonIdColumnsComplete(fs: seq<FieldDesc>, idColumn: string)
    ensures forall f :: f in fs && ResolveColumnName(f) != idColumn ==> ResolveColumnName(f) in NonIdColumns(fs, idColumn)
    decreases |fs|
  {
    if |fs| > 0 {
      NonIdColumnsComplete(fs[1..], idColumn);
      assert fs == [fs[0]] + fs[1..];
    }
  }

  function SetEntries(cols: seq<string>): (entries: seq<string>)
    ensures |entries| == |cols| && forall i :: 0 <= i < |cols| ==> entries[i] == cols[i] + "=?"
  {
    if |cols| == 0 then [] else [cols[0] + "=?"] + SetEntries(cols[1..])
  }

  /** What the SET list evidently should be: `col=?` for every non-id column, separated by
      `", "`, with no separator before the first entry or after the last. */
  function ColumnsForUpdate(fs: seq<FieldDesc>, idColumn: string): (s: string)
    ensures |NonIdColumns(fs, idColumn)| == 0 <==> s == ""
    ensures s != "" ==> s[|s| - 1] == '?'
  {
    var entries := SetEntries(NonIdColumns(fs, idColumn));
    assert |entries| > 0 ==> |Join(entries, ", ")| > 0 && Join(entries, ", ")[|Join(entries, ", ")| - 1] == '?' by {
      if |entries| > 0 {
        JoinLastCharOf(entries, ", ");
      }
    }
    Join(entries, ", ")
  }

  /** No entry of the SET list is the id column's, and every other column has one. */
  lemma IdColumnNotInSetList(fs: seq<FieldDesc>, idColumn: string)
    ensures forall e :: e in SetEntries(NonIdColumns(fs, idColumn)) ==> e != idColumn + "=?"
    ensures forall f :: f in fs && ResolveColumnName(f) != idColumn ==> ResolveColumnName(f) + "=?" in SetEntries(NonIdColumns(fs, idColumn))
  {
    var cols := NonIdColumns(fs, idColumn);
    var entries := SetEntries(cols);
    NonIdColumnsComplete(fs, idColumn);
    forall e | e in entries ensures e != idColumn + "=?" {
      var k :| 0 <= k < |entries| && entries[k] == e;
      assert (cols[k] + "=?")[..|cols[k]|] == cols[k];
      assert (idColumn + "=?")[..|idColumn|] == idColumn;
    }
    forall f | f in fs && ResolveColumnName(f) != idColumn
      ensures ResolveColumnName(f) + "=?" in entries
    {
      var k :| 0 <= k < |cols| && cols[k] == ResolveColumnName(f);
      assert entries[k] == ResolveColumnName(f) + "=?";
    }
  }

  lemma {:induction false} JoinLastCharOf(parts: seq<string>, sep: string)
    requires |parts| > 0 && |parts[|parts| - 1]| > 0
    ensures |Join(parts, sep)| > 0
    ensures Join(parts, sep)[|Join(parts, sep)| - 1] == parts[|parts| - 1][|parts[|parts| - 1]| - 1]
    decreases |parts|
  {
    if |parts| > 1 {
      JoinLastCharOf(parts[1..], sep);
    }
  }

  /** The trailing separator the as-written loop leaves: present exactly when some column
      was emitted and the last declared field is an id column. */
  function Dangling(fs: seq<FieldDesc>, idColumn: string): string
  {
    if |NonIdColumns(fs, idColumn)| > 0 && ResolveColumnName(fs[|fs| - 1]) == idColumn then ", " else ""
  }

  /** The SET list as written is the intended list followed by the dangling separator. */
  lemma {:induction false} SetListAsWrittenCharacterised(fs: seq<FieldDesc>, idColumn: string)
    ensures SetListAsWritten(fs, idColumn) == ColumnsForUpdate(fs, idColumn) + Dangling(fs, idColumn)
    decreases |fs|
  {
    if |fs| == 1 {
      SetListAsWrittenSingle(fs, idColumn);
    } else if |fs| > 1 {
      SetListAsWrittenCharacterised(fs[1..], idColumn);
      if ResolveColumnName(fs[0]) == idColumn {
        SetListAsWrittenSkip(fs, idColumn);
      } else {
        SetListAsWrittenStep(fs, idColumn);
      }
    }
  }

  /** A single declared field: its entry, or nothing when it is the id. */
  lemma SetListAsWrittenSingle(fs: seq<FieldDesc>, idColumn: string)
    requires |fs| == 1
    ensures SetListAsWritten(fs, idColumn) == ColumnsForUpdate(fs, idColumn) + Dangling(fs, idColumn)
  {
    var col := ResolveColumnName(fs[0]);
    assert fs[1..] == [];
    assert SetListAsWritten(fs, idColumn) == SetPiece(fs, idColumn);
    if col != idColumn {
      assert NonIdColumns(fs, idColumn) == [col];
      assert SetEntries([col]) == [col + "=?"];
    } else {
      assert NonIdColumns(fs, idColumn) == [];
    }
  }

  /** An id column followed by more fields contributes nothing. */
  lemma SetListAsWrittenSkip(fs: seq<FieldDesc>, idColumn: string)
    requires |fs| > 1 && ResolveColumnName(fs[0]) == idColumn
    requires SetListAsWritten(fs[1..], idColumn) == ColumnsForUpdate(fs[1..], idColumn) + Dangling(fs[1..], idColumn)
    ensures SetListAsWritten(fs, idColumn) == ColumnsForUpdate(fs, idColumn) + Dangling(fs, idColumn)
  {
    var rest := fs[1..];
    assert SetListAsWritten(fs, idColumn) == SetPiece(fs, idColumn) + SetListAsWritten(rest, idColumn);
    assert SetPiece(fs, idColumn) == "";
    assert fs[|fs| - 1] == rest[|rest| - 1];
    assert NonIdColumns(fs, idColumn) == NonIdColumns(rest, idColumn);
  }

  /** The inductive step of `SetListAsWrittenCharacterised` for a non-id column followed by
      more fields. */
  lemma SetListAsWrittenStep(fs: seq<FieldDesc>, idColumn: string)
    requires |fs| > 1 && ResolveColumnName(fs[0]) != idColumn
    requires SetListAsWritten(fs[1..], idColumn) == ColumnsForUpdate(fs[1..], idColumn) + Dangling(fs[1..], idColumn)
    ensures SetListAsWritten(fs, idColumn) == ColumnsForUpdate(fs, idColumn) + Dangling(fs, idColumn)
  {
    var rest := fs[1..];
    var col := ResolveColumnName(fs[0]);
    var restCols := NonIdColumns(rest, idColumn);
    assert SetListAsWritten(fs, idColumn) == SetPiece(fs, idColumn) + SetListAsWritten(rest, idColumn);
    assert fs[|fs| - 1] == rest[|rest| - 1];
    var e := col + "=?";
    assert SetPiece(fs, idColumn) == e + ", ";
    assert NonIdColumns(fs, idColumn) == [col] + restCols;
    assert SetEntries([col] + restCols) == [e] + SetEntries(restCols);
    if |restCols| == 0 {
      assert SetEntries([col]) == [e];
      NoNonIdMeansLastIsId(rest, idColumn);
      assert ColumnsForUpdate(fs, idColumn) == e;
      assert Dangling(fs, idColumn) == ", ";
      assert SetListAsWritten(rest, idColumn) == "";
    } else {
      assert ([e] + SetEntries(restCols))[1..] == SetEntries(restCols);
      assert ColumnsForUpdate(fs, idColumn) == e + ", " + ColumnsForUpdate(rest, idColumn);
      assert Dangling(fs, idColumn) == Dangling(rest, idColumn);
      Assoc(e + ", ", ColumnsForUpdate(rest, idColumn), Dangling(rest, idColumn));
    }
  }

  lemma {:induction false} NoNonIdMeansLastIsId(fs: seq<FieldDesc>, idColumn: string)
    requires |fs| > 0 && |NonIdColumns(fs, idColumn)| == 0
    ensures ResolveColumnName(fs[|fs| - 1]) == idColumn
  {
    NonIdColumnsComplete(fs, idColumn);
    assert fs[|fs| - 1] in fs;
  }

  /** With the id field declared last, the as-written SET list ends in a dangling separator:
      fields `name` then `id` give `"name=?, "`, so the update statement becomes
      `update t set name=?,  where id = ?`. */
  lemma TrailingSeparatorWhenIdLast()
    ensures var name := FieldDesc("name", Annotations(false, None, false, false, false, false, false), StringType);
            var id := FieldDesc("id", Annotations(true, None, false, false, false, false, false), LongType);
            SetListAsWritten([name, id], "id") == "name=?, "
  {
    var name := FieldDesc("name", Annotations(false, None, false, false, false, false, false), StringType);
    var id := FieldDesc("id", Annotations(true, None, false, false, false, false, false), LongType);
    assert [name, id][1..] == [id];
    assert [id][1..] == [];
    assert SetListAsWritten([id], "id") == "";
    assert SetPiece([name, id], "id") == "name=?, ";
  }

  /** `buildUpdateByIdQuery`, as written: the SET list is `resolveColumnsForUpdate`'s, which
      is the intended list plus the separator an id field declared last leaves behind. */
  function BuildUpdateByIdQuery(c: ClassDesc): (r: Result<string, Failure>)
    ensures r.Failure? <==> GetIdField(c).Failure?
    ensures r.Failure? ==> r.error == NoSuchElement
    ensures r.Success? ==>
      var idColumn := ResolveColumnName(GetIdField(c).value);
      r.value == "update " + ResolveTableName(c) + " set " + ColumnsForUpdate(c.fields, idColumn)
                 + Dangling(c.fields, idColumn) + " where " + idColumn + " = ?"
  {
    match GetIdField(c)
    case Failure(e) => Failure(e)
    case Success(idField) =>
      var idColumn := ResolveColumnName(idField);
      var columns := SetListAsWritten(c.fields, idColumn);
      SetListAsWrittenCharacterised(c.fields, idColumn);
      UpdateTemplate(ResolveTableName(c), columns, idColumn);
      Assoc("update " + ResolveTableName(c) + " set ", ColumnsForUpdate(c.fields, idColumn), Dangling(c.fields, idColumn));
      Success(Format(UpdateByIdSql, [ResolveTableName(c), columns, idColumn]))
  }

  /** `buildUpdateByIdQuery` with the intended SET list. */
  function BuildUpdateByIdQueryCorrected(c: ClassDesc): (r: Result<string, Failure>)
    ensures r.Failure? <==> GetIdField(c).Failure?
    ensures r.Failure? ==> r.error == NoSuchElement
    ensures r.Success? ==>
      var idColumn := ResolveColumnName(GetIdField(c).value);
      r.value == "update " + ResolveTableName(c) + " set " + ColumnsForUpdate(c.fields, idColumn)
                 + " where " + idColumn + " = ?"
  {
    match GetIdField(c)
    case Failure(e) => Failure(e)
    case Success(idField) =>
      var idColumn := ResolveColumnName(idField);
      var columns := ColumnsForUpdate(c.fields, idColumn);
      UpdateTemplate(ResolveTableName(c), columns, idColumn);
      Success(Format(UpdateByIdSql, [ResolveTableName(c), columns, idColumn]))
  }

  /** The statement as written and the intended one agree exactly when no separator is left
      dangling, that is unless the id field is declared last after some other column. */
  lemma UpdateQueryAgreesUnlessIdLast(c: ClassDesc)
    requires GetIdField(c).Success?
    ensures BuildUpdateByIdQuery(c) == BuildUpdateByIdQueryCorrected(c)
            <==> Dangling(c.fields, ResolveColumnName(GetIdField(c).value)) == ""
  {
    var idColumn := ResolveColumnName(GetIdField(c).value);
    var p := "update " + ResolveTableName(c) + " set " + ColumnsForUpdate(c.fields, idColumn);
    var d := Dangling(c.fields, idColumn);
    var asWritten := BuildUpdateByIdQuery(c).value;
    var corrected := BuildUpdateByIdQueryCorrected(c).value;
    if d == "" {
      assert p + d == p;
    } else {
      assert |asWritten| == |corrected| + |d|;
    }
  }
}

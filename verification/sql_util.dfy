/** `SqlQueryUtil`: the column list and the placeholder list of an INSERT, and the
    `col = ?` list of an UPDATE, each joined with `", "`. */
module SqlUtil {
  import opened Model
  import opened Text
  import opened NameResolver
  import opened EntityReflection

  /** `resolveColumnNamesForInsert`: the insertable columns, in field-name order. Every
      non-id column of the class is named; with nothing insertable the list is empty. When no
      column name holds a comma, cutting the list at ", " gives back exactly the insertable
      fields' columns, in order. */
  function ResolveColumnNamesForInsert(c: ClassDesc): (r: string)
    ensures |GetInsertableFieldsForIdentityGenerationType(c)| == 0 ==> r == ""
    ensures forall f :: f in c.fields && !f.annotations.id && !IsEntityCollectionField(f) ==> Contains(r, ResolveColumnName(f))
    ensures |GetInsertableFieldsForIdentityGenerationType(c)| > 0 && (forall f :: f in c.fields ==> ',' !in ResolveColumnName(f)) ==>
              SplitOn(r, ", ") == ColumnNames(GetInsertableFieldsForIdentityGenerationType(c))
  {
    var fs := GetInsertableFieldsForIdentityGenerationType(c);
    var names := ColumnNames(fs);
    assert forall f :: f in c.fields && !f.annotations.id && !IsEntityCollectionField(f) ==> Contains(Join(names, ", "), ResolveColumnName(f)) by {
      forall f | f in c.fields && !f.annotations.id && !IsEntityCollectionField(f)
        ensures Contains(Join(names, ", "), ResolveColumnName(f))
      {
        var i :| 0 <= i < |fs| && fs[i] == f;
        JoinContains(names, ", ", i);
      }
    }
    if |fs| > 0 && (forall f :: f in c.fields ==> ',' !in ResolveColumnName(f)) then
      ColumnListSplits(fs, c.fields);
      Join(names, ", ")
    else
      Join(names, ", ")
  }

  /** Cutting a comma-free column list at ", " gives the columns back. */
  lemma ColumnListSplits(fs: seq<FieldDesc>, fields: seq<FieldDesc>)
    requires |fs| > 0 && forall f :: f in fs ==> f in fields
    requires forall f :: f in fields ==> ',' !in ResolveColumnName(f)
    ensures SplitOn(Join(ColumnNames(fs), ", "), ", ") == ColumnNames(fs)
  {
    var names := ColumnNames(fs);
    assert forall i :: 0 <= i < |names| ==> ", "[0] !in names[i] by {
      forall i | 0 <= i < |names|
        ensures ", "[0] !in names[i]
      {
        assert fs[i] in fields;
      }
    }
    SplitOnJoin(names, ", ");
  }

  function Placeholders(n: nat): (r: seq<string>)
    ensures |r| == n && forall i :: 0 <= i < n ==> r[i] == "?"
  {
    if n == 0 then [] else ["?"] + Placeholders(n - 1)
  }

  /** `resolveColumnValuesForInsert`: one `?` per insertable field, joined by ", ". */
  function ResolveColumnValuesForInsert(c: ClassDesc): (r: string)
    ensures CountChar(r, '?') == |GetInsertableFieldsForIdentityGenerationType(c)|
    ensures r == "" <==> |GetInsertableFieldsForIdentityGenerationType(c)| == 0
    ensures |GetInsertableFieldsForIdentityGenerationType(c)| > 0 ==>
              SplitOn(r, ", ") == Placeholders(|GetInsertableFieldsForIdentityGenerationType(c)|)
  {
    var n := |GetInsertableFieldsForIdentityGenerationType(c)|;
    PlaceholderCount(n);
    if n > 0 then
      PlaceholderListSplits(n);
      Join(Placeholders(n), ", ")
    else
      Join(Placeholders(n), ", ")
  }

  /** Cutting the joined placeholders at ", " gives one `?` per entry back. */
  lemma PlaceholderListSplits(n: nat)
    requires n > 0
    ensures SplitOn(Join(Placeholders(n), ", "), ", ") == Placeholders(n)
  {
    var ps := Placeholders(n);
    assert forall i :: 0 <= i < |ps| ==> ", "[0] !in ps[i] by {
      forall i | 0 <= i < |ps|
        ensures ", "[0] !in ps[i]
      {
        assert ps[i] == "?";
      }
    }
    SplitOnJoin(ps, ", ");
  }

  lemma {:induction false} CountCharAllPlaceholders(n: nat)
    ensures CountCharAll(Placeholders(n), '?') == n
    ensures CountCharAll(Placeholders(n), ',') == 0
  {
    if n > 0 {
      CountCharAllPlaceholders(n - 1);
    }
  }

  /** `n` placeholders joined by `", "` hold `n` question marks. */
  lemma PlaceholderCount(n: nat)
    ensures CountChar(Join(Placeholders(n), ", "), '?') == n
  {
    CountCharAllPlaceholders(n);
    if n > 0 {
      CountCharJoin(Placeholders(n), ", ", '?');
      assert CountChar(", ", '?') == 0;
    }
  }

  /** Names without commas joined by `", "` hold one comma fewer than there are names. */
  lemma SeparatorCount(names: seq<string>)
    requires |names| > 0
    requires forall i :: 0 <= i < |names| ==> ',' !in names[i]
    ensures CountChar(Join(names, ", "), ',') + 1 == |names|
  {
    CountCharAllNone(names, ',');
    CountCharJoin(names, ", ", ',');
    assert ", "[1..] == " " && " "[1..] == "";
    assert CountChar(", ", ',') == 1;
    assert (|names| - 1) * 1 == |names| - 1;
  }

  /** The VALUES list has one `?` per insertable field, and, when no column name contains a
      comma, the column list names exactly as many columns (one more than its commas): the
      two lists line up. With no insertable field both are empty. */
  lemma InsertPlaceholdersMatchColumns(c: ClassDesc)
    requires forall f :: f in c.fields ==> ',' !in ResolveColumnName(f)
    ensures CountChar(ResolveColumnValuesForInsert(c), '?') == |GetInsertableFieldsForIdentityGenerationType(c)|
    ensures |GetInsertableFieldsForIdentityGenerationType(c)| > 0 ==>
              CountChar(ResolveColumnNamesForInsert(c), ',') + 1 == CountChar(ResolveColumnValuesForInsert(c), '?')
    ensures |GetInsertableFieldsForIdentityGenerationType(c)| == 0 ==>
              ResolveColumnNamesForInsert(c) == "" && ResolveColumnValuesForInsert(c) == ""
  {
    var fs := GetInsertableFieldsForIdentityGenerationType(c);
    PlaceholderCount(|fs|);
    if |fs| > 0 {
      var names := ColumnNames(fs);
      assert forall i :: 0 <= i < |names| ==> ',' !in names[i] by {
        forall i | 0 <= i < |names| ensures ',' !in names[i] {
          assert fs[i] in fs;
        }
      }
      SeparatorCount(names);
    }
  }

  /** One entry of the UPDATE list. */
  function UpdateEntry(f: FieldDesc): string
  {
    ResolveColumnName(f) + " = ?"
  }

  function UpdateEntries(fs: seq<FieldDesc>): (r: seq<string>)
    ensures |r| == |fs| && forall i :: 0 <= i < |fs| ==> r[i] == UpdateEntry(fs[i])
  {
    if |fs| == 0 then [] else [UpdateEntry(fs[0])] + UpdateEntries(fs[1..])
  }

  /** `resolveUpdatableColumnsWithValues`: `col = ?` for every updatable field, in
      field-name order, separated by `", "` and with no separator after the last entry. */
  method ResolveUpdatableColumnsWithValues(c: ClassDesc) returns (s: string)
    ensures s == Join(UpdateEntries(GetUpdatableFields(c)), ", ")
    ensures |GetUpdatableFields(c)| == 0 <==> s == ""
    ensures s != "" ==> s[|s| - 1] == '?'
  {
    var fields := GetUpdatableFields(c);
    s := BuildUpdateList(fields);
  }

  /** The `StringBuilder` loop of `resolveUpdatableColumnsWithValues`: the separator is
      appended after entry `i` when `i < fields.length - 1`. */
  method BuildUpdateList(fields: seq<FieldDesc>) returns (s: string)
    ensures s == Join(UpdateEntries(fields), ", ")
    ensures |fields| == 0 <==> s == ""
    ensures s != "" ==> s[|s| - 1] == '?'
  {
    ghost var entries := UpdateEntries(fields);
    var builder := "";
    for i := 0 to |fields|
      invariant builder == Join(entries[..i], ", ") + (if 0 < i < |fields| then ", " else "")
    {
      ghost var before := builder;
      builder := AppendUpdateEntry(builder, fields, i);
      JoinStep(entries, i, ", ");
      Assoc(before, entries[i], if i < |fields| - 1 then ", " else "");
    }
    assert entries[..|fields|] == entries;
    s := builder;
    if |fields| > 0 {
      JoinLastChar(entries, ", ");
    }
  }

  /** One iteration of the loop: the `i`-th entry, then the separator unless it is the last. */
  method AppendUpdateEntry(builder: string, fields: seq<FieldDesc>, i: nat) returns (b: string)
    requires i < |fields|
    ensures b == builder + UpdateEntries(fields)[i] + (if i < |fields| - 1 then ", " else "")
  {
    var columnName := ResolveColumnName(fields[i]);
    b := builder + columnName + " = " + "?";
    assert b == builder + UpdateEntries(fields)[i];
    if i < |fields| - 1 {
      b := b + ", ";
    }
  }

  /** A join whose last part is not empty ends with the last character of that part. */
  lemma {:induction false} JoinLastChar(parts: seq<string>, sep: string)
    requires |parts| > 0 && |parts[|parts| - 1]| > 0
    ensures |Join(parts, sep)| > 0
    ensures Join(parts, sep)[|Join(parts, sep)| - 1] == parts[|parts| - 1][|parts[|parts| - 1]| - 1]
    decreases |parts|
  {
    if |parts| > 1 {
      JoinLastChar(parts[1..], sep);
    }
  }
}

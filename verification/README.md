# Bibernate core in Dafny

Bibernate is a small Java object-relational mapper. Entity classes carry annotations:
`@Entity`, `@Table`, `@Column`, `@Id`, `@JoinColumn`, `@OneToOne`, `@ManyToOne`, `@OneToMany`.
A `Session` turns entity operations into SQL through a DAO.

The session keeps two maps:

- an identity map from `EntityKey` (class and id) to the managed instance;
- a snapshot map from the same key to the field values the entity had when it was loaded.

On `close`, a dirty check compares every managed entity with its snapshot and queues a merge action for each one that changed. The actions sit in an `ActionQueue` ordered by priority: persist, then merge, then remove.

Around the session there are five smaller pieces:

- `TransactionManagerImpl`: a begin/commit/rollback flag on the JDBC connection.
- `LazyList`: a `List` that loads its contents on first use.
- `QueryManager`: rewrites a JQL query into SQL.
- `SqlQueryBuilder` and `SqlQueryUtil`: build SELECT-by-id and UPDATE-by-id statements and the column lists of INSERT and UPDATE.
- `ParameterNameResolver`, `ReflectionUtils` and `EntityReflectionUtils`: read the annotations.

Most modules model one source file, and are named after it:

- `NameResolver` models `ParameterNameResolver`, `Reflection` models `ReflectionUtils` and `EntityReflection` models `EntityReflectionUtils`.
- `SqlUtil` models `SqlQueryUtil`, `SqlBuilder` models `SqlQueryBuilder` and `Jql` models `QueryManager`.
- `Lazy` models `LazyList` and `Transactions` models `TransactionManagerImpl`.
- `Identity` models the two records `EntityKey` and `EntityEntry`.
- `Actions` models `ActionPriority` and the `EntityAction` classes.
- `Executors` models `PersisActionExecutor` and `ActionQueue`.
- `Session` is split in two. `Sessions` holds the class and its methods. `Snapshots` holds the functions of entity views that those methods are proved against.

The other modules have no single source file:

- `Model` holds:
  - class and field metadata as datatypes, with annotations as a record on each field;
  - field values;
  - the `Failure` variants that stand for the exceptions;
  - an `Entity` class whose field values are updated in place.
- `Text` holds the string operations the source relies on: `String.join`, `split(" ")`, `replace`, `toUpperCase` and `indexOf`.
- `FieldOrder` holds the stable sort by field name and the filters.
- `Dao` is the database. It answers from maps given to it, takes the id each insert generates from a function given to it, and logs every call.
- `Wrappers` holds `Option`, `Result` and `Outcome`.

Each method that changes state is proved against a function of the old state. The properties (round trips, orderings, iff-characterisations) are proved about those functions as lemmas.

## Model

Every source path is relative to the repository root.

| member | source | states |
|---|---|---|
| NameResolver.ResolveTableName | src/main/java/org/svydovets/query/ParameterNameResolver.java:11-19 | the `@Table` name when present and non-empty, otherwise the class's simple name; empty exactly when both are empty |
| NameResolver.ResolveColumnName | src/main/java/org/svydovets/query/ParameterNameResolver.java:21-29 | the `@Column` name when present and non-empty, otherwise the field name; empty exactly when both are empty |
| NameResolver.ColumnNames | src/main/java/org/svydovets/util/SqlQueryUtil.java:11-16 | one resolved column name per field, position by position |
| FieldOrder.SortByName | src/main/java/org/svydovets/util/ReflectionUtils.java:11-15 | the result is sorted by field name and is a permutation of its input |
| FieldOrder.InsertByName | src/main/java/org/svydovets/util/ReflectionUtils.java:11-15 | inserting into a name-sorted list keeps it sorted and adds exactly that one field |
| FieldOrder.SortByNameMembers | src/main/java/org/svydovets/util/ReflectionUtils.java:11-15 | sorting neither loses nor invents fields |
| FieldOrder.Filter | src/main/java/org/svydovets/util/ReflectionUtils.java:17-22 | keeps exactly the fields the predicate accepts, a sub-multiset of the input |
| FieldOrder.FilterConcat | src/main/java/org/svydovets/util/ReflectionUtils.java:17-22 | filtering keeps declaration order: the kept fields of a first part precede those of a second part |
| FieldOrder.FilterCount | src/main/java/org/svydovets/util/ReflectionUtils.java:17-22 | the filtered length is the number of accepted fields |
| FieldOrder.CountComplement | src/main/java/org/svydovets/util/ReflectionUtils.java:17-22 | the fields a predicate accepts plus those its negation accepts make up the whole list |
| FieldOrder.FindFirst | src/main/java/org/svydovets/util/EntityReflectionUtils.java:31-45 | none exactly when no field matches; otherwise the first matching field in declaration order |
| Reflection.GetSortedEntityFields | src/main/java/org/svydovets/util/ReflectionUtils.java:11-15 | the declared fields sorted by name, as a permutation |
| Reflection.GetSortedEntityFieldsWithoutIdField | src/main/java/org/svydovets/util/ReflectionUtils.java:17-22 | sorted by name; a field is in the result iff it is declared and not `@Id`; length is the declared count minus the id fields |
| EntityReflection.IsEntityField | src/main/java/org/svydovets/util/EntityReflectionUtils.java:151-168 | true iff the field has a relation annotation with `@JoinColumn`; a relation without `@JoinColumn`, or `@JoinColumn` without a relation, fails with the source's mapping error |
| EntityReflection.IsColumnField | src/main/java/org/svydovets/util/EntityReflectionUtils.java:147-149 | a `@OneToMany` field is never a column; otherwise a column iff it is not an entity field, with the same mapping errors |
| EntityReflection.ClassificationPartition | src/main/java/org/svydovets/util/EntityReflectionUtils.java:147-172 | for a well-formed field: column iff neither entity field nor collection; entity field and collection together iff `@OneToMany` with a relation |
| EntityReflection.KeepAsEntityField | src/main/java/org/svydovets/util/EntityReflectionUtils.java:19 | the filter of `getEntityFieldsSortedByName` keeps a field iff it is not a collection or it is an entity field |
| EntityReflection.FilterChecked | src/main/java/org/svydovets/util/EntityReflectionUtils.java:17-22 | a stream filter whose predicate may throw succeeds iff no test throws; then it keeps exactly the accepted fields; otherwise it reports the first failing field's error |
| EntityReflection.GetEntityFieldsSortedByName | src/main/java/org/svydovets/util/EntityReflectionUtils.java:17-22 | succeeds iff every field is well formed; the result is name-sorted and holds exactly the non-collection and entity fields; otherwise the first malformed field's error |
| EntityReflection.GetUpdatableFields | src/main/java/org/svydovets/util/EntityReflectionUtils.java:24-29 | name-sorted; exactly the declared fields that are neither `@Id` nor `@OneToMany` |
| EntityReflection.GetInsertableFieldsForIdentityGenerationType | src/main/java/org/svydovets/util/EntityReflectionUtils.java:90-92 | exactly the updatable fields: name-sorted, and a field is included iff it is declared, not `@Id` and not a collection |
| EntityReflection.GetIdField | src/main/java/org/svydovets/util/EntityReflectionUtils.java:31-45 | a class without `@Entity` fails with not-managed; an entity without an `@Id` field fails with identifier-not-specified; otherwise the first `@Id` field |
| EntityReflection.GetVersionField | src/main/java/org/svydovets/util/EntityReflectionUtils.java:47-66 | not-managed for a non-entity; no version field when none is annotated; the unique one when there is one; failure iff there are two or more, and for an entity with two or more it is the too-many-version-fields error |
| EntityReflection.VersionFieldUnique | src/main/java/org/svydovets/util/EntityReflectionUtils.java:47-66 | any version field of the class is the one returned |
| EntityReflection.Wrap32 | src/main/java/org/svydovets/util/EntityReflectionUtils.java:68-84 | Java `int` wrap-around: in range, identity within range, congruent modulo 2^32 |
| EntityReflection.Wrap64 | src/main/java/org/svydovets/util/EntityReflectionUtils.java:68-84 | Java `long` wrap-around: in range, identity within range, congruent modulo 2^64 |
| EntityReflection.IncrementVersionField | src/main/java/org/svydovets/util/EntityReflectionUtils.java:68-84 | a version field declared `Integer`, a supertype of `Integer` (`Object`, `Number`, ...) or `int` goes up by one as a 32-bit value, wrapping at the maximum; one declared `Long` or `long` does so as a 64-bit value; a `Long` in a field declared as a supertype of `Integer` fails the cast; a null boxed value throws; any other declared type is a mapping error |
| EntityReflection.GetFieldValue | src/main/java/org/svydovets/util/EntityReflectionUtils.java:107-128 | a column reads the field; an entity field holding a reference of its declared entity class gives that entity's id, or the error of `getIdField` on the referenced class; a null reference is null-pointer and any other value is class-cast; a collection without a relation is invalid; a malformed field fails as `isEntityField` does |
| EntityReflection.GetEntityIdValue | src/main/java/org/svydovets/util/EntityReflectionUtils.java:130-132 | the id field's value, or the error locating the id field |
| EntityReflection.SetFieldValue | src/main/java/org/svydovets/util/EntityReflectionUtils.java:94-105 | a declared field receiving a value its type accepts (its own type, a subtype, an unboxed primitive, an `Integer` widened into a `long`) is updated with the stored form of the value and nothing else changes; otherwise illegal-argument with the entity unchanged |
| EntityReflection.Names | src/main/java/org/svydovets/util/EntityReflectionUtils.java:58-60 | the names of the fields, position by position |
| EntityReflection.NewInstanceOf | src/main/java/org/svydovets/util/EntityReflectionUtils.java:134-145 | a fresh instance of the class whose every field reads its type's default (field initialisers are left out) |
| EntityReflection.GetJoinClazzField | src/main/java/org/svydovets/util/EntityReflectionUtils.java:182-188 | the first field of the join class typed as the class; fails with related-field-not-found iff there is none |
| SqlUtil.InsertPlaceholdersMatchColumns | src/main/java/org/svydovets/util/SqlQueryUtil.java:11-24 | the INSERT placeholder list has one `?` per insertable field, and one more `?` than the column list has separators; both are empty when nothing is insertable |
| SqlUtil.PlaceholderCount | src/main/java/org/svydovets/util/SqlQueryUtil.java:18-24 | n joined placeholders hold exactly n question marks |
| SqlUtil.SeparatorCount | src/main/java/org/svydovets/util/SqlQueryUtil.java:11-16 | joining n comma-free names with `", "` yields n - 1 commas |
| SqlUtil.Placeholders | src/main/java/org/svydovets/util/SqlQueryUtil.java:18-24 | n entries, each `?` |
| SqlUtil.UpdateEntries | src/main/java/org/svydovets/util/SqlQueryUtil.java:26-38 | one `column = ?` entry per field, in order |
| SqlUtil.ResolveColumnNamesForInsert | src/main/java/org/svydovets/util/SqlQueryUtil.java:11-16 | names the column of every non-id, non-collection field; empty when nothing is insertable; when no column name holds a comma, cutting it at ", " gives exactly the insertable fields' columns in field-name order |
| SqlUtil.ColumnListSplits | src/main/java/org/svydovets/util/SqlQueryUtil.java:13-15 | a comma-free list of columns joined with ", " cuts back into the same columns |
| SqlUtil.ResolveColumnValuesForInsert | src/main/java/org/svydovets/util/SqlQueryUtil.java:18-24 | exactly one `?` per insertable field; empty iff nothing is insertable; otherwise cutting it at ", " gives one `?` entry per insertable field |
| SqlUtil.PlaceholderListSplits | src/main/java/org/svydovets/util/SqlQueryUtil.java:18-24 | n placeholders joined by ", " cut back into the n `?` entries |
| Text.JoinContains | src/main/java/org/svydovets/util/SqlQueryUtil.java:13-15 | every part of a join occurs in it |
| Text.SplitOnJoin | src/main/java/org/svydovets/util/SqlQueryUtil.java:13-15 | cutting a join at its separator gives the parts back, when no part holds the separator's first character |
| SqlUtil.ResolveUpdatableColumnsWithValues | src/main/java/org/svydovets/util/SqlQueryUtil.java:26-38 | the `column = ?` entries of the updatable fields joined by `", "`: empty iff there are none, and never ending in a separator |
| SqlUtil.BuildUpdateList | src/main/java/org/svydovets/util/SqlQueryUtil.java:29-35 | the builder loop produces the `", "`-join of the entries, so it ends with the last `?` and never with a separator |
| SqlBuilder.SelectTemplate | src/main/java/org/svydovets/query/SqlQueryBuilder.java:12 | the SELECT template has two holes and formats to `select * from T where C = ?` |
| SqlBuilder.UpdateTemplate | src/main/java/org/svydovets/query/SqlQueryBuilder.java:13 | the UPDATE template has three holes and formats to `update T set S where C = ?` |
| SqlBuilder.GetIdField | src/main/java/org/svydovets/query/SqlQueryBuilder.java:51-56 | an `@Id` field of the class, failing with no-such-element iff there is none |
| SqlBuilder.BuildSelectByIdQuery | src/main/java/org/svydovets/query/SqlQueryBuilder.java:15-22 | fails iff there is no id field; otherwise selects from the resolved table by the resolved id column |
| SqlBuilder.ResolveColumnsForUpdate | src/main/java/org/svydovets/query/SqlQueryBuilder.java:36-49 | the builder loop, as written, yields `SetListAsWritten`: `col=?` per non-id field, with the separator decided by declaration position |
| SqlBuilder.SetListAsWrittenCharacterised | src/main/java/org/svydovets/query/SqlQueryBuilder.java:36-49 | the as-written list is the intended list plus a dangling `", "` exactly when the id field is declared last after other columns |
| SqlBuilder.TrailingSeparatorWhenIdLast | src/main/java/org/svydovets/query/SqlQueryBuilder.java:43-45 | fields `name` then `id` give `name=?, `, which leaves `set name=?,  where` in the statement |
| SqlBuilder.ColumnsForUpdate | src/main/java/org/svydovets/query/SqlQueryBuilder.java:36-49 | the intended SET list: empty iff there is no non-id column, otherwise ending with `?` |
| SqlBuilder.IdColumnNotInSetList | src/main/java/org/svydovets/query/SqlQueryBuilder.java:36-49 | the id column never appears in the SET list, and every other column does |
| SqlBuilder.BuildUpdateByIdQuery | src/main/java/org/svydovets/query/SqlQueryBuilder.java:25-34 | as written: fails with no-such-element iff no field is `@Id`; otherwise `update T set <SET list> where <id> = ?`, where the SET list is the intended one plus the separator left dangling when the id field is declared last |
| SqlBuilder.BuildUpdateByIdQueryCorrected | src/main/java/org/svydovets/query/SqlQueryBuilder.java:25-34 | the same statement with the intended SET list: every non-id column once, joined by `", "` |
| SqlBuilder.UpdateQueryAgreesUnlessIdLast | src/main/java/org/svydovets/query/SqlQueryBuilder.java:36-49 | the statement as written equals the intended one iff no separator is left dangling |
| Text.SplitAll | src/main/java/org/svydovets/queryLanguage/QueryManager.java:85-87 | cutting at each space gives one piece more than there are spaces, none containing a space |
| Text.SplitAllJoin | src/main/java/org/svydovets/queryLanguage/QueryManager.java:85-87 | re-joining the pieces with spaces gives back the string |
| Text.JavaSplit | src/main/java/org/svydovets/queryLanguage/QueryManager.java:85-87 | `split(" ")`: no token contains a space, and a string without spaces is its own single token |
| Text.SplitJoinRoundTrip | src/main/java/org/svydovets/queryLanguage/QueryManager.java:85-87 | a query not ending in a space is recovered by joining its tokens with single spaces |
| Text.Strip | src/main/java/org/svydovets/queryLanguage/QueryManager.java:167-169 | removes `,`, `(` and `)` and keeps every other character |
| Text.ReplaceAbsent | src/main/java/org/svydovets/queryLanguage/QueryManager.java:175-177 | replacing a target that does not occur changes nothing |
| Text.CountCharReplace | src/main/java/org/svydovets/queryLanguage/QueryManager.java:175-177 | after a replacement, a character absent from the text and the target occurs once per copy of the replacement |
| Text.ToUpper | src/main/java/org/svydovets/queryLanguage/QueryManager.java:183-191 | keeps the length; each lower-case ASCII letter becomes its upper-case letter and every other character is kept |
| Text.IndexOf | src/main/java/org/svydovets/queryLanguage/QueryManager.java:179-181 | -1 iff absent, otherwise the first position holding the value |
| Jql.ParamKey | src/main/java/org/svydovets/queryLanguage/QueryManager.java:95-97 | a parameter is stored under `:` followed by its name |
| Jql.StripPunctuation | src/main/java/org/svydovets/queryLanguage/QueryManager.java:167-169 | punctuation alone strips to the empty string |
| Jql.StripConcat | src/main/java/org/svydovets/queryLanguage/QueryManager.java:167-169 | stripping distributes over concatenation |
| Jql.StripNoPunctuation | src/main/java/org/svydovets/queryLanguage/QueryManager.java:167-169 | a token without punctuation is unchanged |
| Jql.StripSurrounded | src/main/java/org/svydovets/queryLanguage/QueryManager.java:167-169 | a key wrapped in punctuation strips back to the key |
| Jql.ReplaceSurrounded | src/main/java/org/svydovets/queryLanguage/QueryManager.java:175-177 | replacing a key wrapped in punctuation replaces only the key |
| Jql.ValueToken | src/main/java/org/svydovets/queryLanguage/QueryManager.java:152-156 | an unbound token is kept; in a bound one without `?`, every occurrence of the stripped key becomes one `?` |
| Jql.ColumnToken | src/main/java/org/svydovets/queryLanguage/QueryManager.java:134-144 | a token that matches no mapped field is kept |
| Jql.ColumnTokenQualified | src/main/java/org/svydovets/queryLanguage/QueryManager.java:134-144 | `alias.field`, found for that field, becomes `alias.column` |
| Jql.ColumnTokenBare | src/main/java/org/svydovets/queryLanguage/QueryManager.java:134-144 | a bare field name, found for that field, becomes its column name |
| Jql.RewriteToken | src/main/java/org/svydovets/queryLanguage/QueryManager.java:132-144 | a token that is neither a bound parameter nor matches a mapped field passes through unchanged |
| Jql.ValueTokenKeepsPunctuation | src/main/java/org/svydovets/queryLanguage/QueryManager.java:152-156 | a bound `:param` token becomes `?` with its surrounding punctuation kept |
| Jql.MatchesIff | src/main/java/org/svydovets/queryLanguage/QueryManager.java:158-165 | a token names a field iff it contains `.field` or equals the field name |
| Jql.FindField | src/main/java/org/svydovets/queryLanguage/QueryManager.java:158-165 | none iff no field name matches the token; otherwise a matching entry of the column map |
| Jql.RewriteAll | src/main/java/org/svydovets/queryLanguage/QueryManager.java:127-150 | each token is rewritten on its own, in place |
| Jql.QueryType | src/main/java/org/svydovets/queryLanguage/QueryManager.java:183-191 | SELECT and DELETE look for `from`, INSERT for `into`, UPDATE for `update`, anything else for the empty string, case-insensitively |
| Jql.TableIndex | src/main/java/org/svydovets/queryLanguage/QueryManager.java:179-181 | fails iff there are no tokens; otherwise one past the keyword's first position, which is 0 when the keyword is absent |
| Jql.UpperUpdate | src/main/java/org/svydovets/queryLanguage/QueryManager.java:183-191 | `update` in either case looks for the token `update` |
| Jql.UpdateSlot | src/main/java/org/svydovets/queryLanguage/QueryManager.java:147 | in a lower-case `update` query the table name goes right after `update` |
| Jql.UpperCaseUpdateSlot | src/main/java/org/svydovets/queryLanguage/QueryManager.java:147 | in an `UPDATE` query with no lower-case `update` token, the table name overwrites the first token |
| Jql.Translate | src/main/java/org/svydovets/queryLanguage/QueryManager.java:127-150 | fails with index-out-of-bounds iff the table slot is outside the query; otherwise the same number of tokens, the table name in the slot and every other token rewritten |
| Jql.BoundValues | src/main/java/org/svydovets/queryLanguage/QueryManager.java:104-111 | the values of the tokens that are bound parameters, all from the parameter map; a single token contributes its bound value or nothing, and by BoundValuesConcat the list follows token order |
| Jql.BoundValuesConcat | src/main/java/org/svydovets/queryLanguage/QueryManager.java:104-111 | the parameter list of a concatenation is the concatenation of the lists |
| Jql.BoundValuesLength | src/main/java/org/svydovets/queryLanguage/QueryManager.java:104-111 | one value per bound token |
| Jql.TokenPlaceholders | src/main/java/org/svydovets/queryLanguage/QueryManager.java:127-156 | a rewritten token holds one `?` iff it is a bound parameter, and none otherwise |
| Jql.RewriteAllPlaceholders | src/main/java/org/svydovets/queryLanguage/QueryManager.java:127-156 | the rewritten tokens hold as many `?` as there are bound tokens |
| Jql.SlotPlaceholders | src/main/java/org/svydovets/queryLanguage/QueryManager.java:147-149 | writing the table name into a slot without `?` keeps the placeholder count |
| Jql.PlaceholdersMatchParameters | src/main/java/org/svydovets/queryLanguage/QueryManager.java:104-150 | the translated SQL has exactly as many `?` as `getParameters` returns values |
| Jql.QueryManager.constructor | src/main/java/org/svydovets/queryLanguage/QueryManager.java:65-67 | a new manager has no query and no parameters |
| Jql.QueryManager.Query | src/main/java/org/svydovets/queryLanguage/QueryManager.java:85-87 | stores the query split at spaces and keeps the parameters |
| Jql.QueryManager.SetParameters | src/main/java/org/svydovets/queryLanguage/QueryManager.java:95-97 | binds `:name` to the value, overriding an earlier binding, and keeps the query |
| Jql.QueryManager.GetParameters | src/main/java/org/svydovets/queryLanguage/QueryManager.java:104-111 | null-pointer iff no query was set; otherwise one value per bound token |
| Jql.QueryManager.ToSqlString | src/main/java/org/svydovets/queryLanguage/QueryManager.java:127-150 | null-pointer without a query; otherwise succeeds iff the translation does, and is the translated tokens joined by spaces |
| Identity.KeyOf | src/main/java/org/svydovets/session/EntityKey.java:26-29 | the key of an entity is its class and its id value, failing iff reading the id fails |
| Identity.ValueOf | src/main/java/org/svydovets/session/EntityKey.java:40-42 | the key with the entity's class and the given id |
| Identity.Empty | src/main/java/org/svydovets/session/EntityKey.java:50-52 | the key with no class and a null id |
| Identity.EmptyIsDistinct | src/main/java/org/svydovets/session/EntityKey.java:50-52 | no key of a class equals the empty key |
| Identity.KeyOfIsValueOf | src/main/java/org/svydovets/session/EntityKey.java:26-42 | `of(entity)` is `valueOf(entity, id)` with the entity's own id |
| Identity.EntryOf | src/main/java/org/svydovets/session/EntityEntry.java:22-24 | an entry pairs exactly the given key and entity |
| Identity.EntryFor | src/main/java/org/svydovets/session/EntityEntry.java:36-41 | a null id gives the empty key, any other id the entity's key; the entry holds the entity |
| Identity.EntryForAgreesWithKeyOf | src/main/java/org/svydovets/session/EntityEntry.java:36-41 | for a non-null id, the entry's key is `EntityKey.of(entity)` |
| Actions.Priority | src/main/java/org/svydovets/session/actionQueue/action/ActionPriority.java:17-38 | PERSIST is 1, MERGE is 2, REMOVE is 3 |
| Actions.PrioritiesIncrease | src/main/java/org/svydovets/session/actionQueue/action/ActionPriority.java:17-28 | persist comes before merge, and merge before remove |
| Actions.EntityAction.constructor | src/main/java/org/svydovets/session/actionQueue/action/EntityAction.java:15-21 | a new action holds its entry and has no priority |
| Actions.EntityAction.UpdateEntityEntry | src/main/java/org/svydovets/session/actionQueue/action/EntityAction.java:23-25 | replaces the entry and keeps the priority |
| Actions.EntityAction.SetPriority | src/main/java/org/svydovets/session/actionQueue/action/EntityAction.java:35-37 | sets the priority and keeps the entry |
| Actions.NewPersistAction | src/main/java/org/svydovets/session/actionQueue/action/PersistAction.java:22-26 | fails iff the entry cannot be built; otherwise a fresh persist action with priority PERSIST and the entity's entry |
| Actions.NewMergeAction | src/main/java/org/svydovets/session/actionQueue/action/MergeAction.java:20-22 | as written: a fresh merge action with no priority |
| Actions.NewMergeActionCorrected | src/main/java/org/svydovets/session/actionQueue/action/MergeAction.java:20-22 | corrected: a fresh merge action with priority MERGE |
| Actions.NewRemoveAction | src/main/java/org/svydovets/session/actionQueue/action/RemoveAction.java:19-21 | a fresh remove action holding the entry |
| Executors.PersistExecute | src/main/java/org/svydovets/session/actionQueue/executor/PersisActionExecutor.java:37-46 | saves once, writes the generated id into the id field, and re-keys the action's entry under that id; a missing id field or an unassignable id fails before anything is written |
| Executors.ActionQueue.constructor | src/main/java/org/svydovets/session/actionQueue/executor/ActionQueue.java:19-26 | a new queue is empty and ordered |
| Executors.ActionQueue.AddPersistAction | src/main/java/org/svydovets/session/actionQueue/executor/ActionQueue.java:28-32 | an instant persist is executed at once; other persists change nothing; the queue itself is unchanged |
| Executors.ActionQueue.AddMergeAction | src/main/java/org/svydovets/session/actionQueue/executor/ActionQueue.java:34-36 | the comparator throws null-pointer unless the queue is empty or every priority is set; otherwise the action joins the queue, which is kept as a sequence sorted by priority (in place of the heap), after all actions of lower or equal priority |
| Executors.ActionQueue.InsertOrdered | src/main/java/org/svydovets/session/actionQueue/executor/ActionQueue.java:22-25 | insertion at the position the comparator picks keeps the queue ordered |
| Executors.ActionQueue.PerformAccumulatedActions | src/main/java/org/svydovets/session/actionQueue/executor/ActionQueue.java:38-40 | the body is empty: the queue stays as it was |
| Executors.InsertKeepsOrder | src/main/java/org/svydovets/session/actionQueue/executor/ActionQueue.java:22-25 | inserting between the lower-or-equal and the higher priorities keeps the order; with no higher priority it lands at the end |
| Executors.InsertPosition | src/main/java/org/svydovets/session/actionQueue/executor/ActionQueue.java:22-25 | the position that splits the queue into priorities at most the key and those above it |
| Executors.TwoMergeActionsAsWritten | src/main/java/org/svydovets/session/actionQueue/executor/ActionQueue.java:34-36 | as written, the first merge action is queued and the second throws null-pointer |
| Executors.AddCorrectedMerge | src/main/java/org/svydovets/session/actionQueue/executor/ActionQueue.java:34-36 | with the MERGE priority set, a merge joins the end of a queue of persists and merges |
| Executors.MergeActionsCorrected | src/main/java/org/svydovets/session/actionQueue/executor/ActionQueue.java:34-36 | with the MERGE priority set, any number of merges are all queued, in the order added |
| Snapshots.Collect | src/main/java/org/svydovets/session/Session.java:264-276 | succeeds iff every reading did, with the values in order |
| Snapshots.CollectAll | src/main/java/org/svydovets/session/Session.java:264-276 | readings that all succeed collect to exactly their values |
| Snapshots.CollectFirstFailure | src/main/java/org/svydovets/session/Session.java:264-276 | the first failing reading decides the error |
| Snapshots.SnapshotIn | src/main/java/org/svydovets/session/Session.java:264-276 | a key without a class is null-pointer; a class with a malformed field reports that field's error |
| Snapshots.SnapshotOfNull | src/main/java/org/svydovets/session/Session.java:264-276 | a null entity snapshots to the empty list when there is no field, and is null-pointer otherwise |
| Snapshots.SnapshotValues | src/main/java/org/svydovets/session/Session.java:264-276 | a successful snapshot holds each sorted field's value, in order |
| Snapshots.SnapshotFirstFailure | src/main/java/org/svydovets/session/Session.java:264-276 | a snapshot fails with the first field that cannot be read |
| Snapshots.ChangedFromIff | src/main/java/org/svydovets/session/Session.java:286-299 | the comparison from a position reports a change iff some later snapshot value differs from the current one |
| Snapshots.ChangedIff | src/main/java/org/svydovets/session/Session.java:286-299 | an entity has changed iff some snapshot value differs from its current value |
| Snapshots.ChangedPositionIsDirty | src/main/java/org/svydovets/session/Session.java:286-299 | one differing position is enough to report a change |
| Snapshots.SavedIsClean | src/main/java/org/svydovets/session/Session.java:264-299 | right after its snapshot is saved, an entity is not dirty |
| Snapshots.DirtyIff | src/main/java/org/svydovets/session/Session.java:286-299 | dirty iff the current readings differ from the stored snapshot |
| Snapshots.UnsavedFails | src/main/java/org/svydovets/session/Session.java:286-299 | comparing an entity without a snapshot fails |
| Snapshots.DirtyScan | src/main/java/org/svydovets/session/Session.java:278-284 | only keys from the cache are reported dirty |
| Snapshots.DirtyScanPicksChanged | src/main/java/org/svydovets/session/Session.java:278-284 | when the scan passes, a key is reported iff its entity has changed, in cache order |
| Snapshots.DirtyScanStops | src/main/java/org/svydovets/session/Session.java:278-284 | once an entity fails to compare, no later entity is examined |
| Snapshots.CopyFields | src/main/java/org/svydovets/session/Session.java:301-311 | a successful copy only writes declared field names |
| Snapshots.CopyFieldsExact | src/main/java/org/svydovets/session/Session.java:301-311 | when every reading succeeds, the copy holds each field's reading |
| Snapshots.CopyFieldsColumns | src/main/java/org/svydovets/session/Session.java:301-311 | an entity of plain columns is copied field for field |
| Snapshots.CopyFieldsFailsOnCollection | src/main/java/org/svydovets/session/Session.java:301-311 | a `@OneToMany` field without a relation makes the copy fail |
| Snapshots.CopyFieldsFailsAt | src/main/java/org/svydovets/session/Session.java:301-311 | one failing reading makes the copy fail |
| Snapshots.CopyFieldsStops | src/main/java/org/svydovets/session/Session.java:301-311 | the copy stops at the first failing field |
| Snapshots.Cast | src/main/java/org/svydovets/session/Session.java:89-96 | `Class.cast`: null passes, an instance of the class passes unchanged, anything else is class-cast |
| Snapshots.KeyIn | src/main/java/org/svydovets/session/EntityKey.java:26-29 | the key read from a view names the view's class |
| Snapshots.KeyOfView | src/main/java/org/svydovets/session/EntityKey.java:26-29 | the key of an entity is the key of its view |
| Snapshots.Reconcile | src/main/java/org/svydovets/session/Session.java:319-329 | a managed key yields the managed instance and changes nothing; a new key caches the entity and stores its snapshot, or reports the snapshot's error; entries already cached are kept |
| Snapshots.ComputeIn | src/main/java/org/svydovets/session/Session.java:319-329 | the key's error, or the reconciliation under the key |
| Snapshots.FetchIn | src/main/java/org/svydovets/session/Session.java:107-113 | a row fetched for a class keeps every cached entry, and its result is the instance cached under its key |
| Snapshots.FetchAllTracked | src/main/java/org/svydovets/session/Session.java:125-130 | the list variants keep every cached entry and return, in row order, the managed instance of each row's key, of the requested class |
| Snapshots.FetchAllStops | src/main/java/org/svydovets/session/Session.java:125-130 | after the first failing row, no later row is reconciled |
| Snapshots.FetchKeepsManagedInstance | src/main/java/org/svydovets/session/Session.java:319-329 | a row whose key is managed returns the managed instance, not the row, and changes nothing |
| Snapshots.FetchIdempotent | src/main/java/org/svydovets/session/Session.java:319-329 | fetching the same row twice is the same as fetching it once |
| Sessions.Session.constructor | src/main/java/org/svydovets/session/Session.java:49-56 | an open session with empty maps and an empty fresh queue |
| Sessions.Session.CheckIfOpenSession | src/main/java/org/svydovets/session/Session.java:313-317 | fails with session-closed iff the session is closed |
| Sessions.Session.SaveEntitySnapshots | src/main/java/org/svydovets/session/Session.java:264-276 | stores the entity's snapshot under the key, or reports the snapshot's error and stores nothing |
| Sessions.Session.HasChanged | src/main/java/org/svydovets/session/Session.java:286-299 | the comparison loop answers exactly the dirty predicate over the stored snapshot |
| Sessions.Session.ComputeIfAbsent | src/main/java/org/svydovets/session/Session.java:319-329 | the new maps and the result are those of the reconciliation function |
| Sessions.Session.FindById | src/main/java/org/svydovets/session/Session.java:89-96 | closed: session-closed with nothing touched; open: the cached instance or the loaded row, cached unless null, snapshotted in both cases, then cast to the class |
| Dao.JdbcDao.QueryOne | src/main/java/org/svydovets/dao/GenericJdbcDAO.java:144-154 | no row is index-out-of-bounds (`get(0)`), more than one row is a DAO error, exactly one row is returned; only the call is logged |
| Dao.JdbcDao.SaveToDB | src/main/java/org/svydovets/dao/GenericJdbcDAO.java:231-240 | returns the value the database generates for this insert and counts the insert |
| Sessions.Session.FindBy | src/main/java/org/svydovets/session/Session.java:107-113 | one DAO query; no row is index-out-of-bounds and more than one row is a DAO error, both with the session maps untouched; exactly one row is reconciled with the identity map |
| Sessions.Session.FindAllBy | src/main/java/org/svydovets/session/Session.java:125-130 | one DAO query; every row reconciled in order, as the list function says |
| Sessions.Session.NativeQueryBy | src/main/java/org/svydovets/session/Session.java:141-146 | as `findBy`, with the native SQL query |
| Sessions.Session.NativeQueryAllBy | src/main/java/org/svydovets/session/Session.java:157-162 | as `findAllBy`, with the native SQL query |
| Sessions.Session.JqlQueryBy | src/main/java/org/svydovets/session/Session.java:172-179 | a closed session or an untranslatable query fails before the DAO; otherwise the translated SQL with the manager's parameters, as `nativeQueryBy` |
| Sessions.Session.JqlQueryAllBy | src/main/java/org/svydovets/session/Session.java:189-197 | as `jqlQueryBy`, for the list variant |
| Sessions.Session.Persist | src/main/java/org/svydovets/session/Session.java:72-79 | an entity whose entry cannot be built fails with nothing saved; otherwise one save, the generated id written into the entity, the entity cached under the new key and snapshotted |
| Sessions.Session.Merge | src/main/java/org/svydovets/session/Session.java:206-223 | a managed key returns the managed instance; otherwise one load: a missing row gives null, and a loaded row is snapshotted and replaced in the identity map by a fresh copy of the given entity |
| Sessions.Session.Remove | src/main/java/org/svydovets/session/Session.java:230-238 | an entity that is not managed is detached; a managed one yields a fresh remove action for its entry |
| Sessions.Session.PerformDirtyCheck | src/main/java/org/svydovets/session/Session.java:278-284 | the loop queues a merge entry for exactly the keys the dirty scan reports, in order, and reports the scan's outcome |
| Sessions.Session.Flush | src/main/java/org/svydovets/session/Session.java:260-262 | the queue is unchanged, because `performAccumulatedActions` does nothing |
| Sessions.Session.Close | src/main/java/org/svydovets/session/Session.java:246-255 | dirty check then flush; on success both maps are empty and the session is closed; a failing dirty check leaves the maps and the flag |
| Sessions.ComputeSnapshot | src/main/java/org/svydovets/session/Session.java:264-276 | the snapshot of the entity under the key, as the snapshot function says |
| Sessions.TakeSnapshot | src/main/java/org/svydovets/session/Session.java:267-273 | the loop collects every field's value, or the first failing field's error |
| Sessions.CompareWithSnapshot | src/main/java/org/svydovets/session/Session.java:292-296 | the loop answers the change predicate from position 0 |
| Sessions.MergeEntity | src/main/java/org/svydovets/session/Session.java:301-311 | a fresh instance of the class holding the copied field values, or the first read or assignment error |
| Lazy.RemoveFirst | src/main/java/org/svydovets/collection/LazyList.java:75-77 | one element shorter iff the value was present |
| Lazy.RemoveFirstCut | src/main/java/org/svydovets/collection/LazyList.java:75-77 | an absent value leaves the list alone; otherwise exactly the position `indexOf` reports is cut out |
| Lazy.RemoveFirstMultiset | src/main/java/org/svydovets/collection/LazyList.java:75-77 | removing a present value takes out exactly one copy of it |
| Lazy.LastIndexIn | src/main/java/org/svydovets/collection/LazyList.java:155-157 | -1 iff absent, otherwise the last position holding the value |
| Lazy.LazyList.constructor | src/main/java/org/svydovets/collection/LazyList.java:25-27 | stores the supplier without calling it |
| Lazy.LazyList.GetNestedList | src/main/java/org/svydovets/collection/LazyList.java:29-37 | the first call runs the supplier and caches its list; later calls return the cache; the supplier runs once |
| Lazy.LazyList.Size | src/main/java/org/svydovets/collection/LazyList.java:40-42 | the length of the loaded list |
| Lazy.LazyList.IsEmpty | src/main/java/org/svydovets/collection/LazyList.java:45-47 | true iff the loaded list is empty |
| Lazy.LazyList.Contains | src/main/java/org/svydovets/collection/LazyList.java:50-52 | true iff the value is in the loaded list |
| Lazy.LazyList.Add | src/main/java/org/svydovets/collection/LazyList.java:70-72 | appends the value and answers true |
| Lazy.LazyList.RemoveValue | src/main/java/org/svydovets/collection/LazyList.java:75-77 | removes the first equal element and answers whether there was one |
| Lazy.LazyList.AddAll | src/main/java/org/svydovets/collection/LazyList.java:85-87 | appends the collection and answers whether it was non-empty |
| Lazy.LazyList.Clear | src/main/java/org/svydovets/collection/LazyList.java:115-117 | the list becomes empty, after loading |
| Lazy.LazyList.Get | src/main/java/org/svydovets/collection/LazyList.java:130-132 | the element at the index, or index-out-of-bounds |
| Lazy.LazyList.Set | src/main/java/org/svydovets/collection/LazyList.java:135-137 | replaces the element at the index and returns the old one, or index-out-of-bounds with the list unchanged |
| Lazy.LazyList.AddAt | src/main/java/org/svydovets/collection/LazyList.java:140-142 | inserts before the index, which may equal the size, or index-out-of-bounds with the list unchanged |
| Lazy.LazyList.RemoveAt | src/main/java/org/svydovets/collection/LazyList.java:145-147 | removes and returns the element at the index, or index-out-of-bounds with the list unchanged |
| Lazy.LazyList.IndexOf | src/main/java/org/svydovets/collection/LazyList.java:150-152 | the first position of the value, or -1 iff absent |
| Lazy.LazyList.LastIndexOf | src/main/java/org/svydovets/collection/LazyList.java:155-157 | the last position of the value, or -1 iff absent |
| Lazy.LoadOnceThenObserve | src/main/java/org/svydovets/collection/LazyList.java:29-37 | add, size and get after construction see the supplier's list with the addition, and the supplier ran once |
| Transactions.Step | src/main/java/org/svydovets/transaction/TransactionManagerImpl.java:37-101 | `begin` is refused iff active, `commit` and `callback` iff inactive, and a refused call keeps the flag; a call passes iff it is allowed and its JDBC call returns, moving the flag; `begin` always leaves the flag set; a failing `commit` or `callback` leaves it set |
| Transactions.RunPassesIff | src/main/java/org/svydovets/transaction/TransactionManagerImpl.java:37-101 | without JDBC failures, a sequence of calls all pass iff `begin` alternates with `commit`/`callback`; such a run with an even number of calls ends in its starting state |
| Transactions.ConnectionAttributes.constructor | src/main/java/org/svydovets/connectionPool/datasource/ConnectionAttributes.java:7-9 | a connection starts with no transaction activated |
| Transactions.TransactionManager.constructor | src/main/java/org/svydovets/transaction/TransactionManagerImpl.java:27-30 | a new manager is inactive, over the given connection and queue |
| Transactions.TransactionManager.Begin | src/main/java/org/svydovets/transaction/TransactionManagerImpl.java:37-53 | follows `Step`; when allowed, the flag and the connection attribute are set before auto-commit is switched off |
| Transactions.TransactionManager.Commit | src/main/java/org/svydovets/transaction/TransactionManagerImpl.java:60-78 | follows `Step`; when allowed, flushes before committing, and only a returning commit closes the connection and clears the flag and the attribute |
| Transactions.TransactionManager.Callback | src/main/java/org/svydovets/transaction/TransactionManagerImpl.java:85-101 | follows `Step`; when allowed, rolls back without flushing, and only a returning rollback clears the flag and the attribute |
| Transactions.TransactionManager.IsActive | src/main/java/org/svydovets/transaction/TransactionManagerImpl.java:108-111 | reports the flag |
| Transactions.BeginThenCommit | src/main/java/org/svydovets/transaction/TransactionManagerImpl.java:37-78 | begin then commit both pass; the manager is active in between and inactive after; the flush precedes the commit |
| Transactions.BeginTwiceThenCallback | src/main/java/org/svydovets/transaction/TransactionManagerImpl.java:37-101 | a second `begin` is refused and keeps the manager active; `callback` then rolls back without a flush |

## Left out

- `GenericJdbcDAO` is not part of this model. The `Dao` module stands in for it: a map of stored rows, a map of query answers and a function giving the id generated by each insert, with every call logged.
  - Its checks in `findBy` and `nativeQueryBy` are modelled by `Dao.JdbcDao.QueryOne`: more than one row is a DAO error, and the empty-list `get(0)` is an index-out-of-bounds failure.
  - Its binding of only `length - 1` native parameters is not modelled.
  - Its failure when an insert returns no generated key is not modelled: every insert yields the oracle's value.
  - SQL errors, which it wraps in `DaoOperationException`, are not modelled.
- Dao.JdbcDao.LoadFromDB: returns the object stored in the oracle's row map, not a fresh instance built from a result set, so two loads of one key give the same object. `Session.findById` consults its identity map before it loads.
- Dao.JdbcDao.QueryAll: returns the objects listed for the query, not fresh instances, for the same reason.
- EntityReflection.SetFieldValue: entity classes have no superclasses or interfaces in the model, so an entity is accepted only by a field declared with its own class or `Object`. The number, string and list types do have their supertypes. Widening is modelled only from `Integer` to `long`, the one case the model's values can reach.
- EntityReflection.GetFieldValue: a `null` in an entity field gives the null-pointer failure whatever the field's declared type. For a declared type that is not a managed entity, Java raises the mapping error of `getIdField` first. The cast test compares class names, since there is no subclassing.
- `Ref` values are equal only when they name the same object. The entities `Note` and `Person` carry Lombok `@Data`, whose generated `equals` compares field values, so `Objects.equals` in `hasChanged` and `contains`, `indexOf` and `remove` in `LazyList` treat an equal but distinct entity as equal. The model treats it as different: an entity field reassigned to such a copy is dirty in the model and clean in Java.
- EntityReflection.NewInstanceOf: field initialisers that the no-argument constructor runs are not modelled. Every field of a new instance holds its type's default.
- `ResultSetParser`, the executor delegations to the DAO, the connection plumbing and the exception classes are not modelled.
  - Exceptions are `Failure` variants.
  - The connection is only the `isTransactionActivated` flag.
- Every JDBC call in `TransactionManagerImpl` is one input, `sqlFails`.
  - That input says whether the operation's connection call throws `SQLException`.
  - `closeConnectionByThreadName` is assumed not to throw.
  - Thread-name affinity of connections is not modelled.
- Logging is not modelled.
- `Session.transactionManager()` (`Session.java:63-65`) is not modelled as a session member. It only builds a `TransactionManagerImpl` over the session's queue, which is `Transactions.TransactionManager.constructor`.
- `Session.remove` hands its action to `addRemoveAction`, which `ActionQueue` does not define. `Sessions.Session.Remove` returns the action it would hand over.
- `ActionQueue.performAccumulatedActions` has an empty body and is modelled as doing nothing. Actions are therefore never drained or executed, except an instant persist.
- The iteration order of the identity map, in `performDirtyCheck`, is an input: the `keys` sequence holding every cached key.
- `getColumnNameByFieldNameMap` is an input of the JQL translation: a sequence of (field name, column name) pairs, searched in order.
- The JQL rewriting does not model `select *` widening or join synthesis, because the code does not do them.
- `SqlQueryUtil` calls `ReflectionUtils.getInsertableFieldsForIdentityGenerationType` and `ReflectionUtils.getUpdatableFields`. Only `EntityReflectionUtils` defines them, so the model uses those definitions.
- `getIdField` in `EntityReflectionUtils`, `SqlQueryBuilder` and `getJoinClazzField` uses `findAny` on a sequential stream. It is modelled as the first match in declaration order.
- `getJoinCollectionEntityType` (`EntityReflectionUtils.java:174-180`) is not modelled: it reads Java generic type arguments, which field metadata here does not carry.
- Reflection mechanics are not modelled: `setAccessible`, constructor lookup and `newInstance` failures. Declared fields are a sequence in declaration order.
- Text.ToUpper: upper-cases ASCII letters only, where Java's `toUpperCase` follows Unicode case mapping. Strings are sequences of characters.
- Lazy.LazyList: the supplier is a function from the number of earlier calls to the list it returns. It never returns null.
- Lazy.LazyList: the remaining `List` operations of `LazyList` are not modelled. They delegate in the same way to the loaded list and take collections, predicates, comparators, iterators or streams. They are:
  - `containsAll`, `removeAll`, `retainAll`, `replaceAll`, `sort`, `removeIf`;
  - `iterator`, `listIterator`, `subList`, `spliterator`, `stream`, `forEach`;
  - `toArray`, `addAll(int, Collection)`, `equals`, `hashCode`.
- Lazy.LazyList.GetNestedList: when a list is already cached, it states only that the cache is returned and kept, not which supplier call produced it.
- Sessions.Session.Persist does not check whether the session is closed, because the source does not.
- Sessions.Session.Merge does not check whether the session is closed, because the source does not.
- Sessions.Session uses the corrected merge action, with priority MERGE, for the dirty check. The action as written is modelled at queue level (see Findings).

## Findings

| source | as written | input that shows it | evidently intended | confidence | as-written member | corrected member |
|---|---|---|---|---|---|---|
| src/main/java/org/svydovets/query/SqlQueryBuilder.java:43-45 | the `", "` separator after each non-id column depends on whether that column is the last declared field, so an id field declared last leaves a dangling separator | an entity whose fields are `name` then `id` yields `update t set name=?,  where id = ?` | a SET list of the non-id columns joined by `", "` | not executed | SqlBuilder.TrailingSeparatorWhenIdLast, SqlBuilder.BuildUpdateByIdQuery | SqlBuilder.BuildUpdateByIdQueryCorrected |
| src/main/java/org/svydovets/session/actionQueue/action/MergeAction.java:20-22 | a merge action is created without a priority, and the queue's comparator dereferences the priority | two merge actions added to an empty queue: the second comparison throws `NullPointerException` | merge actions carry priority MERGE, like persist actions carry PERSIST | not executed | Executors.TwoMergeActionsAsWritten | Executors.MergeActionsCorrected |

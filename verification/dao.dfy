/** The database seen through `GenericJdbcDAO`, as an oracle: what a load or a query returns
    is given by the oracle's tables, the id generated by the n-th insert by the oracle's
    `generatedIds`, and every call is recorded in a log. */
module Dao {
  import opened Wrappers
  import opened Model
  import opened Identity

  /** A query the DAO answers with a list of rows: `findAllBy(type, field, value)` or a native
      SQL query with its bound parameters. */
  datatype DaoQuery =
    | FieldQuery(entityType: ClassDesc, field: FieldDesc, value: Value)
    | NativeQuery(sql: string, entityType: ClassDesc, params: seq<Value>)

  datatype DaoCall = Saved(entity: Entity) | Loaded(key: EntityKey) | Queried(query: DaoQuery)

  class JdbcDao {
    /** The calls made so far, oldest first. */
    var log: seq<DaoCall>
    /** The number of inserts so far. */
    var inserts: nat
    /** The value `getGeneratedKeys().getObject(1)` gives after each insert, by its number. */
    const generatedIds: nat -> Value
    /** What `loadFromDB` finds, by key. */
    var rows: map<EntityKey, Entity>
    /** What each query returns; a query not listed returns no row. */
    var answers: map<DaoQuery, seq<Entity>>

    constructor (rows: map<EntityKey, Entity>, answers: map<DaoQuery, seq<Entity>>, generatedIds: nat -> Value)
      ensures this.rows == rows && this.answers == answers && this.generatedIds == generatedIds
      ensures inserts == 0 && log == []
    {
      this.rows := rows;
      this.answers := answers;
      this.generatedIds := generatedIds;
      inserts := 0;
      log := [];
    }

    /** `saveToDB`: inserts the entity and returns the generated id. */
    method SaveToDB(e: Entity) returns (id: Value)
      modifies this
      ensures id == generatedIds(old(inserts)) && inserts == old(inserts) + 1
      ensures log == old(log) + [Saved(e)] && rows == old(rows) && answers == old(answers)
    {
      id := generatedIds(inserts);
      inserts := inserts + 1;
      log := log + [Saved(e)];
    }

    /** `loadFromDB`: the row with that key, or `null`. */
    method LoadFromDB(key: EntityKey) returns (e: Entity?)
      modifies this
      ensures key in rows ==> e == rows[key]
      ensures key !in rows ==> e == null
      ensures log == old(log) + [Loaded(key)] && inserts == old(inserts) && rows == old(rows) && answers == old(answers)
    {
      e := if key in rows then rows[key] else null;
      log := log + [Loaded(key)];
    }

    /** `findAllBy` and `nativeQueryAllBy`: the rows the query returns, in order. */
    method QueryAll(q: DaoQuery) returns (r: seq<Entity>)
      modifies this
      ensures r == (if q in answers then answers[q] else [])
      ensures log == old(log) + [Queried(q)] && inserts == old(inserts) && rows == old(rows) && answers == old(answers)
    {
      r := if q in answers then answers[q] else [];
      log := log + [Queried(q)];
    }

    /** `findBy` and `nativeQueryBy`: the only row; more than one row is a DAO error and
        `get(0)` fails on an empty result. */
    method QueryOne(q: DaoQuery) returns (r: Result<Entity, Failure>)
      modifies this
      ensures var rs := if q in answers then answers[q] else [];
              && (|rs| == 0 <==> r == Failure(IndexOutOfBounds))
              && (|rs| > 1 <==> r == Failure(DaoOperation))
              && (|rs| == 1 ==> r == Success(rs[0]))
      ensures log == old(log) + [Queried(q)] && inserts == old(inserts) && rows == old(rows) && answers == old(answers)
    {
      var rs := QueryAll(q);
      if |rs| > 1 {
        r := Failure(DaoOperation);
      } else if |rs| == 0 {
        r := Failure(IndexOutOfBounds);
      } else {
        r := Success(rs[0]);
      }
    }
  }
}

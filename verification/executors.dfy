/** `PersisActionExecutor` and `ActionQueue`: running a persist action, and the priority queue
    of deferred actions. */
module Executors {
  import opened Wrappers
  import opened Model
  import opened EntityReflection
  import opened Identity
  import opened Actions
  import opened Dao
  import opened Text

  /** `PersisActionExecutor.execute`: saves the entity, writes the generated id into its
      `@Id` field and re-keys the action's entry with that id. Only the id field of the entity
      is written. */
  method PersistExecute(dao: JdbcDao, action: EntityAction) returns (o: Outcome<Failure>)
    modifies dao, action, action.entityEntry.entity
    ensures var e := old(action.entityEntry.entity);
      && dao.log == old(dao.log) + [Saved(e)]
      && dao.inserts == old(dao.inserts) + 1 && dao.rows == old(dao.rows) && dao.answers == old(dao.answers)
      && action.priority == old(action.priority)
      && (GetIdField(e.cls).Failure? ==>
            o == Fail(GetIdField(e.cls).error) && e.state == old(e.state) && action.entityEntry == old(action.entityEntry))
      && (GetIdField(e.cls).Success? && !Assignable(GetIdField(e.cls).value.fieldType, dao.generatedIds(old(dao.inserts))) ==>
            o == Fail(IllegalArgument) && e.state == old(e.state) && action.entityEntry == old(action.entityEntry))
      && (GetIdField(e.cls).Success? && Assignable(GetIdField(e.cls).value.fieldType, dao.generatedIds(old(dao.inserts))) ==>
            && o == Pass
            && e.state == old(e.state)[GetIdField(e.cls).value.name := Stored(GetIdField(e.cls).value.fieldType, dao.generatedIds(old(dao.inserts)))]
            && action.entityEntry == EntryOf(ValueOf(e, dao.generatedIds(old(dao.inserts))), e))
  {
    var entity := action.EntityOf();
    var generatedId := dao.SaveToDB(entity);
    match GetIdField(entity.cls)
    case Failure(err) =>
      o := Fail(err);
    case Success(idField) =>
      assert idField in entity.cls.fields;
      o := SetFieldValue(entity, idField, generatedId);
      if o.Pass? {
        action.UpdateEntityEntry(EntryOf(ValueOf(entity, generatedId), entity));
      }
  }

  /** Ascending by priority; an action without a priority can only stand alone. */
  ghost predicate Ordered(q: seq<EntityAction>)
    reads q
  {
    forall i, j :: 0 <= i < j < |q| ==>
      q[i].priority.Some? && q[j].priority.Some? && q[i].priority.value.Priority() <= q[j].priority.value.Priority()
  }

  /** `ActionQueue`. The `PriorityQueue` is kept as a sequence in priority order; a new action
      goes after those of lower or equal priority. */
  class ActionQueue {
    var entityActions: seq<EntityAction>

    ghost predicate Valid()
      reads this, entityActions
    {
      Ordered(entityActions)
    }

    constructor ()
      ensures Valid() && entityActions == []
    {
      entityActions := [];
    }

    /** `addPersistAction`: an instant persist runs at once; any other persist action is
        neither run nor queued. */
    method AddPersistAction(dao: JdbcDao, action: EntityAction) returns (o: Outcome<Failure>)
      requires action.kind.PersistKind?
      modifies dao, action, action.entityEntry.entity
      ensures entityActions == old(entityActions)
      ensures !action.IsInstantPersist() ==> o == Pass && unchanged(dao, action) && action.entityEntry.entity.state == old(action.entityEntry.entity.state)
      ensures action.IsInstantPersist() ==> var e := old(action.entityEntry.entity);
        && dao.log == old(dao.log) + [Saved(e)]
        && dao.inserts == old(dao.inserts) + 1 && dao.rows == old(dao.rows) && dao.answers == old(dao.answers)
        && (GetIdField(e.cls).Failure? ==> o == Fail(GetIdField(e.cls).error) && e.state == old(e.state))
        && (GetIdField(e.cls).Success? && !Assignable(GetIdField(e.cls).value.fieldType, dao.generatedIds(old(dao.inserts))) ==>
              o == Fail(IllegalArgument) && e.state == old(e.state))
        && (GetIdField(e.cls).Success? && Assignable(GetIdField(e.cls).value.fieldType, dao.generatedIds(old(dao.inserts))) ==>
              && o == Pass
              && e.state == old(e.state)[GetIdField(e.cls).value.name := Stored(GetIdField(e.cls).value.fieldType, dao.generatedIds(old(dao.inserts)))]
              && action.entityEntry == EntryOf(ValueOf(e, dao.generatedIds(old(dao.inserts))), e))
    {
      if action.IsInstantPersist() {
        o := PersistExecute(dao, action);
      } else {
        o := Pass;
      }
    }

    /** `addMergeAction`: `PriorityQueue.add`. The comparator reads `getActionPriority()` of
        the new action and of queued ones, and the first insertion compares nothing; so adding
        to a non-empty queue fails with a `NullPointerException` when a priority involved is
        `null`. Otherwise the queue grows by exactly this action and stays ordered. */
    method AddMergeAction(action: EntityAction) returns (o: Outcome<Failure>)
      requires Valid()
      modifies this
      ensures Valid()
      ensures o == (if |old(entityActions)| == 0 || (action.priority.Some? && AllSet(old(entityActions))) then Pass else Fail(NullPointer))
      ensures o.Fail? ==> entityActions == old(entityActions)
      ensures o.Pass? ==> exists p :: 0 <= p <= |old(entityActions)| && entityActions == old(entityActions)[..p] + [action] + old(entityActions)[p..]
      ensures o.Pass? && action.priority.Some? && AllAtMost(old(entityActions), action.priority.value.Priority())
              ==> entityActions == old(entityActions) + [action]
      ensures |old(entityActions)| == 0 ==> entityActions == [action]
    {
      ghost var before := entityActions;
      if |entityActions| == 0 {
        entityActions := [action];
        assert entityActions == before[..0] + [action] + before[0..] == before + [action];
        return Pass;
      }
      if action.priority.None? || !AllSet(entityActions) {
        return Fail(NullPointer);
      }
      o := Pass;
      InsertOrdered(action);
    }

    /** The insertion itself, once every priority involved is set. */
    method InsertOrdered(action: EntityAction)
      requires Valid() && action.priority.Some? && AllSet(entityActions)
      modifies this
      ensures Valid()
      ensures exists p :: 0 <= p <= |old(entityActions)| && entityActions == old(entityActions)[..p] + [action] + old(entityActions)[p..]
      ensures AllAtMost(old(entityActions), action.priority.value.Priority()) ==> entityActions == old(entityActions) + [action]
    {
      ghost var before := entityActions;
      var p := InsertPosition(entityActions, action.priority.value.Priority());
      InsertKeepsOrder(entityActions, p, action);
      assert before == before[..p] + before[p..];
      entityActions := entityActions[..p] + [action] + entityActions[p..];
      assert entityActions == before[..p] + [action] + before[p..];
      assert p == |before| ==> entityActions == before + [action];
    }

    /** `performAccumulatedActions`: its body is empty; nothing runs and the queue stays. */
    method PerformAccumulatedActions()
      ensures entityActions == old(entityActions)
    {
    }
  }

  /** Every queued action has a priority. */
  predicate AllSet(q: seq<EntityAction>)
    reads q
  {
    forall i :: 0 <= i < |q| ==> q[i].priority.Some?
  }

  /** Every queued action has a priority of at most `key`. */
  ghost predicate AllAtMost(q: seq<EntityAction>, key: int)
    reads q
  {
    forall i :: 0 <= i < |q| ==> q[i].priority.Some? && q[i].priority.value.Priority() <= key
  }

  /** Inserting at the position `InsertPosition` finds keeps the queue ordered. */
  lemma InsertKeepsOrder(q: seq<EntityAction>, p: nat, a: EntityAction)
    requires p <= |q| && a.priority.Some?
    requires Ordered(q) && forall i :: 0 <= i < |q| ==> q[i].priority.Some?
    requires forall i :: 0 <= i < p ==> q[i].priority.value.Priority() <= a.priority.value.Priority()
    requires forall i :: p <= i < |q| ==> a.priority.value.Priority() < q[i].priority.value.Priority()
    ensures Ordered(q[..p] + [a] + q[p..])
    ensures AllAtMost(q, a.priority.value.Priority()) ==> p == |q|
  {
    var r := q[..p] + [a] + q[p..];
    forall i, j | 0 <= i < j < |r|
      ensures r[i].priority.Some? && r[j].priority.Some? && r[i].priority.value.Priority() <= r[j].priority.value.Priority()
    {
      if j < p {
        assert r[i] == q[i] && r[j] == q[j];
      } else if j == p {
        assert r[i] == q[i];
      } else if i < p {
        assert r[i] == q[i] && r[j] == q[j - 1];
      } else if i == p {
        assert r[j] == q[j - 1];
      } else {
        assert r[i] == q[i - 1] && r[j] == q[j - 1];
      }
    }
    if p < |q| {
      assert a.priority.value.Priority() < q[p].priority.value.Priority();
    }
  }

  /** The position after every queued action whose priority is at most `key`. */
  method InsertPosition(q: seq<EntityAction>, key: int) returns (p: nat)
    requires Ordered(q) && forall i :: 0 <= i < |q| ==> q[i].priority.Some?
    ensures p <= |q|
    ensures forall i :: 0 <= i < p ==> q[i].priority.value.Priority() <= key
    ensures forall i :: p <= i < |q| ==> key < q[i].priority.value.Priority()
  {
    p := 0;
    while p < |q| && q[p].priority.value.Priority() <= key
      invariant p <= |q|
      invariant forall i :: 0 <= i < p ==> q[i].priority.value.Priority() <= key
    {
      p := p + 1;
    }
  }

  /** The entries of the queued actions, in queue order. */
  ghost function QueueEntries(q: seq<EntityAction>): (r: seq<EntityEntry>)
    reads q
    ensures |r| == |q| && forall i :: 0 <= i < |q| ==> r[i] == q[i].entityEntry
  {
    if |q| == 0 then [] else [q[0].entityEntry] + QueueEntries(q[1..])
  }

  lemma AllAtMostSnoc(q: seq<EntityAction>, a: EntityAction, key: int)
    requires AllAtMost(q, key) && a.priority.Some? && a.priority.value.Priority() <= key
    ensures AllAtMost(q + [a], key)
  {
  }

  lemma QueueEntriesSnoc(q: seq<EntityAction>, a: EntityAction)
    ensures QueueEntries(q + [a]) == QueueEntries(q) + [a.entityEntry]
  {
  }

  /** Two merge actions as `MergeAction` builds them: the first is queued, the second makes the
      comparator read a `null` priority. */
  method TwoMergeActionsAsWritten(first: EntityEntry, second: EntityEntry) returns (o1: Outcome<Failure>, o2: Outcome<Failure>)
    ensures o1 == Pass && o2 == Fail(NullPointer)
  {
    var queue := new ActionQueue();
    var a := NewMergeAction(first);
    o1 := queue.AddMergeAction(a);
    assert queue.entityActions == [a] && a.priority.None?;
    var b := NewMergeAction(second);
    assert queue.entityActions[0] == a && a.priority.None?;
    assert !AllSet(queue.entityActions);
    o2 := queue.AddMergeAction(b);
  }

  /** One corrected merge action added to a queue of merge actions: it is appended. */
  method AddCorrectedMerge(queue: ActionQueue, entry: EntityEntry) returns (o: Outcome<Failure>)
    requires queue.Valid() && AllAtMost(queue.entityActions, MERGE.Priority())
    modifies queue
    ensures o == Pass && queue.Valid() && AllAtMost(queue.entityActions, MERGE.Priority())
    ensures QueueEntries(queue.entityActions) == old(QueueEntries(queue.entityActions)) + [entry]
  {
    ghost var before := queue.entityActions;
    ghost var entries := QueueEntries(before);
    var a := NewMergeActionCorrected(entry);
    assert AllAtMost(before, MERGE.Priority()) && QueueEntries(before) == entries;
    assert AllSet(before);
    o := queue.AddMergeAction(a);
    assert o == Pass && queue.entityActions == before + [a];
    assert AllAtMost(before, MERGE.Priority()) && QueueEntries(before) == entries;
    AllAtMostSnoc(before, a, MERGE.Priority());
    QueueEntriesSnoc(before, a);
  }

  /** With the `MERGE` priority set, any number of merge actions are queued, in the order
      they are added. */
  method MergeActionsCorrected(entries: seq<EntityEntry>) returns (queue: ActionQueue, allPassed: bool)
    ensures queue.Valid() && allPassed
    ensures QueueEntries(queue.entityActions) == entries
  {
    queue := new ActionQueue();
    allPassed := true;
    for i := 0 to |entries|
      invariant fresh(queue) && queue.Valid() && allPassed
      invariant AllAtMost(queue.entityActions, MERGE.Priority())
      invariant QueueEntries(queue.entityActions) == entries[..i]
    {
      var o := AddCorrectedMerge(queue, entries[i]);
      allPassed := allPassed && o.Pass?;
      PrefixSnoc(entries, i);
    }
    assert entries[..|entries|] == entries;
  }
}

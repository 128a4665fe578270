/** `TransactionManagerImpl`: an active/inactive flag that `begin`, `commit` and `callback`
    toggle around calls on the JDBC connection. Whether a JDBC call throws `SQLException` is
    an input of each operation (`sqlFails`). */
module Transactions {
  import opened Wrappers
  import opened Model
  import opened Executors

  /** What the manager makes happen outside itself, in order. */
  datatype Event =
    | Flushed           // actionQueue.performAccumulatedActions()
    | AutoCommitOff     // connection.setAutoCommit(false) returned
    | Committed         // connection.commit() returned
    | RolledBack        // connection.rollback() returned
    | ConnectionClosed  // connectionHandler.closeConnectionByThreadName()

  /** The three operations of the manager. */
  datatype Op = BeginOp | CommitOp | CallbackOp

  /** The flag after one operation and what the operation reports, from the flag before it
      and whether its JDBC call throws. The guards: an operation started in the wrong state
      reports it and leaves the flag as it was; one that passes moved the flag from inactive to
      active (`begin`) or back; `begin` leaves the manager active whatever happened, because
      the flag is set before the connection is touched, and a failing `commit` or `callback`
      leaves it active too. */
  function Step(active: bool, op: Op, sqlFails: bool): (r: (bool, Outcome<Failure>))
    ensures r.1 == Fail(TransactionStarted) <==> op.BeginOp? && active
    ensures r.1 == Fail(TransactionNotStarted) <==> !op.BeginOp? && !active
    ensures r.1.Fail? && r.1.error != TransactionSql ==> r.0 == active
    ensures r.1 == Pass <==> !sqlFails && (op.BeginOp? <==> !active)
    ensures r.1 == Pass ==> r.0 == op.BeginOp?
    ensures op.BeginOp? ==> r.0
    ensures !op.BeginOp? && active && sqlFails ==> r.0 && r.1 == Fail(TransactionSql)
  {
    match op
    case BeginOp =>
      if active then (true, Fail(TransactionStarted))
      else (true, if sqlFails then Fail(TransactionSql) else Pass)
    case _ =>
      if !active then (false, Fail(TransactionNotStarted))
      else if sqlFails then (true, Fail(TransactionSql))
      else (false, Pass)
  }

  /** Runs operations from flag `active` with no JDBC failure: the final flag and whether
      every operation passed. */
  function Run(active: bool, ops: seq<Op>): (bool, bool)
    decreases |ops|
  {
    if |ops| == 0 then (active, true)
    else
      var (next, o) := Step(active, ops[0], false);
      var (last, rest) := Run(next, ops[1..]);
      (last, o == Pass && rest)
  }

  /** `begin` exactly where the flag is off: operations alternate, starting with `begin` from
      an inactive manager and with `commit` or `callback` from an active one. */
  predicate Alternating(active: bool, ops: seq<Op>)
  {
    forall i :: 0 <= i < |ops| ==> (ops[i].BeginOp? <==> (active == (i % 2 == 1)))
  }

  /** A run without JDBC failures passes exactly when its operations alternate, and then it
      ends in the state it started in when it had an even number of operations. */
  lemma {:induction false} RunPassesIff(active: bool, ops: seq<Op>)
    ensures Run(active, ops).1 <==> Alternating(active, ops)
    ensures Run(active, ops).1 ==> Run(active, ops).0 == (if |ops| % 2 == 0 then active else !active)
    decreases |ops|
  {
    if |ops| > 0 {
      var (next, o) := Step(active, ops[0], false);
      RunPassesIff(next, ops[1..]);
      if Alternating(active, ops) {
        assert ops[0].BeginOp? <==> !active;
        forall i | 0 <= i < |ops[1..]|
          ensures ops[1..][i].BeginOp? <==> (next == (i % 2 == 1))
        {
          assert ops[1..][i] == ops[i + 1];
        }
      }
      if o == Pass && Alternating(next, ops[1..]) {
        forall i | 0 <= i < |ops|
          ensures ops[i].BeginOp? <==> (active == (i % 2 == 1))
        {
          if i > 0 {
            assert ops[i] == ops[1..][i - 1];
          }
        }
      }
    }
  }

  /** `ConnectionAttributes`: whether a transaction is activated on the connection. */
  class ConnectionAttributes {
    var isTransactionActivated: bool

    constructor ()
      ensures !isTransactionActivated
    {
      isTransactionActivated := false;
    }
  }

  class TransactionManager {
    var isActive: bool
    const attributes: ConnectionAttributes
    const actionQueue: ActionQueue
    /** The events the manager caused, oldest first. */
    ghost var events: seq<Event>

    /** A new manager is inactive and has done nothing. */
    constructor (attributes: ConnectionAttributes, actionQueue: ActionQueue)
      ensures !isActive && events == []
      ensures this.attributes == attributes && this.actionQueue == actionQueue
    {
      isActive := false;
      this.attributes := attributes;
      this.actionQueue := actionQueue;
      events := [];
    }

    /** `begin`: refused while active. Otherwise the flag and the connection's attribute are
        set first and auto-commit is switched off last, so a failing JDBC call leaves both set. */
    method Begin(sqlFails: bool) returns (o: Outcome<Failure>)
      modifies this, attributes
      ensures (isActive, o) == Step(old(isActive), BeginOp, sqlFails)
      ensures old(isActive) ==> attributes.isTransactionActivated == old(attributes.isTransactionActivated) && events == old(events)
      ensures !old(isActive) ==> attributes.isTransactionActivated && events == old(events) + (if sqlFails then [] else [AutoCommitOff])
    {
      if isActive {
        return Fail(TransactionStarted);
      }
      isActive := true;
      attributes.isTransactionActivated := true;
      if sqlFails {
        return Fail(TransactionSql);
      }
      events := events + [AutoCommitOff];
      o := Pass;
    }

    /** `commit`: refused while inactive. Otherwise the queued actions are flushed before the
        connection commits; only a commit that returns closes the connection and clears the
        flag and the attribute. */
    method Commit(sqlFails: bool) returns (o: Outcome<Failure>)
      modifies this, attributes
      ensures (isActive, o) == Step(old(isActive), CommitOp, sqlFails)
      ensures actionQueue.entityActions == old(actionQueue.entityActions)
      ensures !old(isActive) ==> attributes.isTransactionActivated == old(attributes.isTransactionActivated) && events == old(events)
      ensures old(isActive) && sqlFails ==>
                attributes.isTransactionActivated == old(attributes.isTransactionActivated) && events == old(events) + [Flushed]
      ensures old(isActive) && !sqlFails ==>
                !attributes.isTransactionActivated && events == old(events) + [Flushed, Committed, ConnectionClosed]
    {
      if !isActive {
        return Fail(TransactionNotStarted);
      }
      actionQueue.PerformAccumulatedActions();
      events := events + [Flushed];
      if sqlFails {
        return Fail(TransactionSql);
      }
      events := events + [Committed, ConnectionClosed];
      isActive := false;
      attributes.isTransactionActivated := false;
      o := Pass;
    }

    /** `callback`: refused while inactive. Otherwise the connection rolls back without the
        queued actions being flushed, and only a rollback that returns clears the flag and the
        attribute. */
    method Callback(sqlFails: bool) returns (o: Outcome<Failure>)
      modifies this, attributes
      ensures (isActive, o) == Step(old(isActive), CallbackOp, sqlFails)
      ensures !old(isActive) || sqlFails ==> attributes.isTransactionActivated == old(attributes.isTransactionActivated) && events == old(events)
      ensures old(isActive) && !sqlFails ==> !attributes.isTransactionActivated && events == old(events) + [RolledBack]
    {
      if !isActive {
        return Fail(TransactionNotStarted);
      }
      if sqlFails {
        return Fail(TransactionSql);
      }
      events := events + [RolledBack];
      isActive := false;
      attributes.isTransactionActivated := false;
      o := Pass;
    }

    /** `isActive`: whether a transaction was begun and not yet committed or rolled back. */
    function IsActive(): (b: bool)
      reads this
      ensures b <==> isActive
    {
      isActive
    }
  }

  /** A fresh manager that begins and commits: it is active in between, inactive afterwards,
      and the flush came before the commit. */
  method BeginThenCommit(attributes: ConnectionAttributes, actionQueue: ActionQueue)
      returns (manager: TransactionManager, activeBetween: bool, begun: Outcome<Failure>, committed: Outcome<Failure>)
    modifies attributes
    ensures begun == Pass && committed == Pass
    ensures activeBetween && !manager.IsActive()
    ensures manager.events == [AutoCommitOff, Flushed, Committed, ConnectionClosed]
    ensures !attributes.isTransactionActivated
  {
    manager := new TransactionManager(attributes, actionQueue);
    begun := manager.Begin(false);
    activeBetween := manager.IsActive();
    committed := manager.Commit(false);
  }

  /** A second `begin` is refused and the manager stays active; a `callback` then ends the
      transaction without flushing. */
  method BeginTwiceThenCallback(attributes: ConnectionAttributes, actionQueue: ActionQueue)
      returns (manager: TransactionManager, second: Outcome<Failure>, rolledBack: Outcome<Failure>)
    modifies attributes
    ensures second == Fail(TransactionStarted) && rolledBack == Pass
    ensures !manager.IsActive() && manager.events == [AutoCommitOff, RolledBack]
  {
    manager := new TransactionManager(attributes, actionQueue);
    var first := manager.Begin(false);
    second := manager.Begin(false);
    rolledBack := manager.Callback(false);
  }
}

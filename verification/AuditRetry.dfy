/** The `WithAudit` retry loop as code: one caller, with other callers committing around it. */
module AuditRetry {
  import opened Databases
  import opened JsonValues
  import opened Store
  import opened AuditProtocol

  /** What goes wrong, if anything, in one attempt, and which calls other callers commit: before it
      begins, and while its transaction is open (SQLite's writer lock keeps that list empty). A
      fault is `Some(retryable)`. */
  datatype Attempt = Attempt(
    before: seq<Entry>, during: seq<Entry>, begin: Option<bool>, callback: Option<bool>,
    audit: Option<bool>, commit: Option<bool>, canceled: bool)

  /** The tables after other callers' atomic steps; a call that cannot be applied does not commit. */
  function AfterOthers(db: Db, others: seq<Entry>): Db {
    if others == [] then db
    else
      var front, e := AfterOthers(db, others[..|others| - 1]), others[|others| - 1];
      var next := Atomic(front, e.caller, e.op);
      if next.Some? then next.value else front
  }

  lemma {:induction false} OthersConcat(db: Db, a: seq<Entry>, b: seq<Entry>)
    ensures AfterOthers(db, a + b) == AfterOthers(AfterOthers(db, a), b)
    decreases |b|
  {
    if b == [] {
      assert a + b == a;
    } else {
      OthersConcat(db, a, b[..|b| - 1]);
      assert (a + b)[..|a + b| - 1] == a + b[..|b| - 1];
    }
  }

  lemma {:induction false} OthersGrow(db: Db, others: seq<Entry>)
    ensures FlagsGrow(db, AfterOthers(db, others))
  {
    if others != [] {
      var front, e := AfterOthers(db, others[..|others| - 1]), others[|others| - 1];
      OthersGrow(db, others[..|others| - 1]);
      if RowFor(front, e.op).Some? { InsertGrows(front, RowFor(front, e.op).value, AuditRow(e.caller, e.op), db); }
    }
  }

  class Database {
    const backend: Backend
    var tables: Db

    constructor (backend: Backend, tables: Db)
      ensures this.backend == backend && this.tables == tables
    {
      this.backend := backend;
      this.tables := tables;
    }

    /** Other callers commit. */
    method Interfere(others: seq<Entry>)
      modifies this`tables
      ensures tables == AfterOthers(old(tables), others)
    {
      for i := 0 to |others|
        invariant tables == AfterOthers(old(tables), others[..i])
      {
        assert others[..i + 1][..i] == others[..i];
        var next := Atomic(tables, others[i].caller, others[i].op);
        if next.Some? { tables := next.value; }
      }
      assert others[..|others|] == others;
    }

    /** One transaction. Nothing of it reaches the tables unless the commit succeeds. `seen` are the
        other callers' commits that happened meanwhile; `captured` is the handler's variable. */
    method WithAuditOnce(caller: Id, op: Op, a: Attempt, captured: Option<Row>)
      returns (err: Option<bool>, row: Option<Row>, ghost seen: seq<Entry>)
      requires backend == Sqlite ==> a.during == []
      modifies this`tables
      ensures seen <= a.during
      ensures err.None? ==>
                var base := AfterOthers(old(tables), seen);
                RowFor(base, op).Some? && row == RowFor(base, op) && Atomic(base, caller, op) == Some(tables)
      ensures err.Some? ==> tables == AfterOthers(old(tables), seen)
    {
      row, seen := captured, [];
      if a.begin.Some? { return a.begin, row, seen; }
      var view := tables;
      if a.callback.Some? { return a.callback, row, seen; }
      var inserted := RowFor(view, op);
      if inserted.None? { return Some(false), row, seen; }
      row := inserted;
      if a.audit.Some? { return a.audit, row, seen; }
      Interfere(a.during);
      seen := a.during;
      if a.commit.Some? { return a.commit, row, seen; }
      if backend == Postgres && !Validates(view, tables, op) { return Some(true), row, seen; }
      OthersGrow(view, a.during);
      if backend == Postgres { ValidatedIsAtomic(view, tables, op); }
      tables := Insert(tables, inserted.value, AuditRow(caller, op));
      return None, row, seen;
    }

    /** The retry loop. Whatever faults occur and whatever the others do, the call's whole effect is
        theirs plus, on success only, its own atomic step; on success the handler's variable holds the
        row of the attempt that committed. It makes at most nine attempts, each after one that failed
        retryably, and gives up on a retryable error only after nine or when canceled. */
    method WithAudit(caller: Id, op: Op, plan: nat -> Attempt)
      returns (err: Option<bool>, captured: Option<Row>, attempts: nat, ghost seen: seq<Entry>,
               ghost errs: seq<Option<bool>>)
      requires backend == Sqlite ==> forall i: nat :: plan(i).during == []
      modifies this`tables
      ensures 1 <= attempts <= 9
      ensures |errs| == attempts && errs[attempts - 1] == err && forall i | 0 <= i < attempts - 1 :: errs[i] == Some(true)
      ensures err == Some(true) ==> attempts == 9 || plan(attempts - 1).canceled
      ensures err.Some? ==> tables == AfterOthers(old(tables), seen)
      ensures err.None? ==>
                var base := AfterOthers(old(tables), seen);
                && captured.Some? && captured == RowFor(base, op)
                && Atomic(base, caller, op) == Some(tables)
    {
      captured, seen, errs := None, [], [];
      var attempt := 0;
      while true
        invariant attempt <= MAX_RETRIES
        invariant tables == AfterOthers(old(tables), seen)
        invariant |errs| == attempt && forall i | 0 <= i < attempt :: errs[i] == Some(true)
        decreases MAX_RETRIES - attempt
      {
        var a := plan(attempt);
        Interfere(a.before);
        OthersConcat(old(tables), seen, a.before);
        seen := seen + a.before;
        ghost var during;
        err, captured, during := WithAuditOnce(caller, op, a, captured);
        OthersConcat(old(tables), seen, during);
        seen := seen + during;
        attempts, errs := attempt + 1, errs + [err];
        if err.None? { return; }
        if attempt < MAX_RETRIES && err == Some(true) {
          if a.canceled { return; }
          attempt := attempt + 1;
          continue;
        }
        return;
      }
    }
  }
}

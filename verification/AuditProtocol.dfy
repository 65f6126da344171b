/** `WithAudit` under any interleaving of concurrent callers, on both backends: every run is a
    sequence of atomic audited appends. */
module AuditProtocol {
  import opened Databases
  import opened JsonValues
  import opened Store

  const MAX_RETRIES := 8

  /** Where one call stands. `Requested` precedes the bundle read of a snapshot compile. */
  datatype Phase =
    | Requested
    | Ready
    | Open(view: Db)
    | Ran(view: Db, row: Row)
    | Logged(view: Db, row: Row, audit: AuditRow)
    | Faulted(retryable: bool)
    | Backoff
    | Succeeded
    | Failed

  /** One `WithAudit` call. `captured` is the handler's variable that the callback assigns. `runs`
      counts callback runs; `arrived` and `readAt` index the history. */
  datatype Call = Call(
    op: Op, phase: Phase, attempt: nat, runs: nat, captured: Option<Row>, arrived: nat, readAt: nat)

  datatype Entry = Entry(caller: Id, op: Op)

  /** The database, SQLite's writer lock, and two records of the run that no step reads: the
      committed calls in order, and the database before each of them and now. */
  datatype Shared = Shared(backend: Backend, db: Db, lock: Option<Id>, log: seq<Entry>, history: seq<Db>)

  datatype Sys = Sys(shared: Shared, calls: map<Id, Call>)

  datatype Event =
    | ReadBundle
    | Begin
    | RunCallback
    | AppendAudit
    | Commit
    | Fault(retryable: bool)  // a statement, the begin or the commit returns an error
    | Settle                  // the loop looks at the error
    | Wake                    // the backoff timer fires
    | Cancel                  // the context ends during backoff

  predicate InTransaction(p: Phase) {
    p.Open? || p.Ran? || p.Logged?
  }

  /** Rollback gives the writer lock back. */
  function Release(s: Shared, c: Id): Shared {
    if s.lock == Some(c) then s.(lock := None) else s
  }

  /** One step of caller `c`; `None` when the event is not possible now. */
  function Step(s: Shared, c: Id, call: Call, ev: Event): Option<(Shared, Call)> {
    match (ev, call.phase)
    case (ReadBundle, Requested) =>
      if call.op.CompileSnapshot? then
        var op := call.op.(bundle := Bundle(s.db, call.op.project));
        Some((s, call.(op := op, phase := Ready, readAt := |s.log|)))
      else Some((s, call.(phase := Ready)))
    case (Begin, Ready) =>
      if s.backend == Postgres then Some((s, call.(phase := Open(s.db))))
      else if s.lock.None? then Some((s.(lock := Some(c)), call.(phase := Open(s.db))))
      else None
    case (RunCallback, Open(view)) =>
      var row := RowFor(view, call.op);
      if row.Some? then Some((s, call.(phase := Ran(view, row.value), runs := call.runs + 1, captured := row)))
      else Some((Release(s, c), call.(phase := Faulted(false), runs := call.runs + 1)))
    case (AppendAudit, Ran(view, row)) => Some((s, call.(phase := Logged(view, row, AuditRow(c, call.op)))))
    case (Commit, Logged(view, row, audit)) =>
      if s.backend == Postgres && !Validates(view, s.db, call.op) then None
      else
        var db := Insert(s.db, row, audit);
        Some((Release(s, c).(db := db, log := s.log + [Entry(c, call.op)], history := s.history + [db]),
              call.(phase := Succeeded)))
    case (Fault(retryable), Ready) => Some((s, call.(phase := Faulted(retryable))))
    case (Fault(retryable), Open(_)) =>
      Some((Release(s, c), call.(phase := Faulted(retryable), runs := call.runs + 1)))
    case (Fault(retryable), Ran(_, _)) => Some((Release(s, c), call.(phase := Faulted(retryable))))
    case (Fault(retryable), Logged(_, _, _)) => Some((Release(s, c), call.(phase := Faulted(retryable))))
    case (Settle, Faulted(retryable)) =>
      Some((s, call.(phase := if call.attempt < MAX_RETRIES && retryable then Backoff else Failed)))
    case (Wake, Backoff) => Some((s, call.(phase := Ready, attempt := call.attempt + 1)))
    case (Cancel, Backoff) => Some((s, call.(phase := Failed)))
    case _ => None
  }

  /** A new call, or a step of a running one. */
  datatype Move = Arrive(c: Id, op: Op) | Advance(c: Id, ev: Event)

  function Moved(s: Sys, m: Move): Option<Sys> {
    match m
    case Arrive(c, op) =>
      if c in s.calls then None
      else Some(s.(calls := s.calls[c := Call(op, Requested, 0, 0, None, |s.shared.log|, |s.shared.log|)]))
    case Advance(c, ev) =>
      if c !in s.calls then None
      else
        var r := Step(s.shared, c, s.calls[c], ev);
        if r.None? then None else Some(Sys(r.value.0, s.calls[c := r.value.1]))
  }

  function Start(backend: Backend, db: Db): Sys {
    Sys(Shared(backend, db, None, [], [db]), map[])
  }

  function Run(s: Sys, moves: seq<Move>): Option<Sys> {
    if moves == [] then Some(s)
    else
      var front := Run(s, moves[..|moves| - 1]);
      if front.None? then None else Moved(front.value, moves[|moves| - 1])
  }

  // The invariant

  /** The history is the run of atomic steps that the log lists. */
  ghost predicate Linear(s: Shared) {
    && |s.history| == |s.log| + 1
    && s.history[|s.log|] == s.db
    && (forall i | 0 <= i < |s.log| ::
          Atomic(s.history[i], s.log[i].caller, s.log[i].op) == Some(s.history[i + 1]))
    && (forall i | 0 <= i <= |s.log| :: FlagsGrow(s.history[i], s.db))
    && (forall i, j | 0 <= i < j < |s.log| :: s.log[i].caller != s.log[j].caller)
  }

  /** How often the callback may have run by now. */
  function RunBound(call: Call): nat {
    if call.phase in {Requested, Ready} || call.phase.Open? then call.attempt else call.attempt + 1
  }

  predicate InLog(s: Shared, c: Id) {
    exists e | e in s.log :: e.caller == c
  }

  /** The committed entry of a successful call carries its operation, and the handler's variable
      holds the row that this very commit inserted. */
  ghost predicate Committed(s: Shared, c: Id, call: Call, i: nat)
    requires Linear(s)
  {
    i < |s.log| && s.log[i] == Entry(c, call.op) && call.captured == RowFor(s.history[i], call.op)
    && call.arrived <= i && (call.op.CompileSnapshot? ==> call.readAt <= i)
  }

  /** A snapshot compile carries the bundle of a state between its arrival and now. */
  ghost predicate BundleRead(s: Shared, call: Call)
    requires Linear(s)
  {
    call.op.CompileSnapshot? && call.phase != Requested ==>
      && call.arrived <= call.readAt <= |s.log|
      && call.op.bundle == Bundle(s.history[call.readAt], call.op.project)
  }

  ghost predicate CallOk(s: Shared, c: Id, call: Call)
    requires Linear(s)
  {
    && call.attempt <= MAX_RETRIES
    && (call.phase == Backoff ==> call.attempt < MAX_RETRIES)
    && call.runs <= RunBound(call)
    && call.arrived <= |s.log|
    && BundleRead(s, call)
    && (InTransaction(call.phase) ==> FlagsGrow(call.phase.view, s.db))
    && (call.phase.Ran? || call.phase.Logged? ==>
          RowFor(call.phase.view, call.op) == Some(call.phase.row) == call.captured)
    && (call.phase.Logged? ==> call.phase.audit == AuditRow(c, call.op))
    && (InLog(s, c) <==> call.phase == Succeeded)
    && (call.phase == Succeeded ==> exists i :: Committed(s, c, call, i))
    && (s.backend == Sqlite ==> (s.lock == Some(c) <==> InTransaction(call.phase)))
    && (s.backend == Sqlite && InTransaction(call.phase) ==> call.phase.view == s.db)
  }

  ghost predicate Inv(s: Sys) {
    && Linear(s.shared)
    && (forall c | c in s.calls :: CallOk(s.shared, c, s.calls[c]))
    && (forall e | e in s.shared.log :: e.caller in s.calls)
    && (s.shared.lock.Some? ==> s.shared.lock.value in s.calls)
  }

  /** A step that neither commits nor moves another caller's lock leaves the other callers alone. */
  lemma OtherCallKept(s: Shared, s': Shared, d: Id, call: Call)
    requires Linear(s) && CallOk(s, d, call)
    requires s' == s.(lock := s'.lock) && (s'.lock == Some(d) <==> s.lock == Some(d))
    ensures Linear(s') && CallOk(s', d, call)
  {
    if call.phase == Succeeded {
      var i :| Committed(s, d, call, i);
      assert Committed(s', d, call, i);
    }
  }

  lemma InsertGrows(db: Db, row: Row, audit: AuditRow, view: Db)
    requires FlagsGrow(view, db)
    requires row.FlagRow? ==> (row.project, row.key) !in db.flags
    ensures FlagsGrow(view, Insert(db, row, audit))
  {
  }

  /** On both backends the commit is the atomic step on the database of that moment. */
  lemma CommitIsAtomic(s: Shared, c: Id, call: Call)
    requires Linear(s) && CallOk(s, c, call) && Step(s, c, call, Commit).Some?
    ensures RowFor(s.db, call.op) == Some(call.phase.row) == call.captured
    ensures Atomic(s.db, c, call.op) == Some(Step(s, c, call, Commit).value.0.db)
  {
    if s.backend == Postgres { ValidatedIsAtomic(call.phase.view, s.db, call.op); }
  }

  lemma CommitLinear(s: Shared, c: Id, call: Call)
    requires Linear(s) && CallOk(s, c, call) && Step(s, c, call, Commit).Some?
    ensures var s' := Step(s, c, call, Commit).value.0;
            && Linear(s')
            && s'.history == s.history + [s'.db] && s'.log == s.log + [Entry(c, call.op)]
            && (forall view: Db :: FlagsGrow(view, s.db) ==> FlagsGrow(view, s'.db))
  {
    CommitIsAtomic(s, c, call);
    var s' := Step(s, c, call, Commit).value.0;
    forall view: Db | FlagsGrow(view, s.db) ensures FlagsGrow(view, s'.db) {
      InsertGrows(s.db, call.phase.row, AuditRow(c, call.op), view);
    }
    assert !InLog(s, c);
    forall i | 0 <= i <= |s'.log| ensures FlagsGrow(s'.history[i], s'.db) { }
    forall i | 0 <= i < |s'.log| ensures Atomic(s'.history[i], s'.log[i].caller, s'.log[i].op) == Some(s'.history[i + 1]) { }
  }

  lemma OtherCallKeptByCommit(s: Shared, c: Id, mine: Call, d: Id, call: Call)
    requires Linear(s) && CallOk(s, c, mine) && Step(s, c, mine, Commit).Some?
    requires c != d && CallOk(s, d, call)
    ensures var s' := Step(s, c, mine, Commit).value.0; Linear(s') && CallOk(s', d, call)
  {
    CommitLinear(s, c, mine);
    var s' := Step(s, c, mine, Commit).value.0;
    if call.phase == Succeeded {
      var i :| Committed(s, d, call, i);
      assert Committed(s', d, call, i);
    }
    assert InLog(s', d) <==> InLog(s, d) by {
      if InLog(s, d) { var e :| e in s.log && e.caller == d; assert e in s'.log; }
    }
  }

  lemma OwnCallKept(s: Shared, c: Id, call: Call, ev: Event)
    requires Linear(s) && CallOk(s, c, call) && Step(s, c, call, ev).Some? && ev != Commit
    ensures var (s', call') := Step(s, c, call, ev).value;
            && s' == s.(lock := s'.lock)
            && (forall d | d != c :: s'.lock == Some(d) <==> s.lock == Some(d))
            && (s'.lock == s.lock || s'.lock == None || s'.lock == Some(c))
            && Linear(s') && CallOk(s', c, call')
  {
    var (s', call') := Step(s, c, call, ev).value;
    assert InLog(s', c) <==> InLog(s, c);
  }

  lemma OwnCommitKept(s: Shared, c: Id, call: Call)
    requires Linear(s) && CallOk(s, c, call) && Step(s, c, call, Commit).Some?
    ensures var (s', call') := Step(s, c, call, Commit).value; Linear(s') && CallOk(s', c, call')
  {
    CommitLinear(s, c, call);
    CommitIsAtomic(s, c, call);
    var (s', call') := Step(s, c, call, Commit).value;
    assert Committed(s', c, call', |s.log|);
    assert s'.log[|s.log|] in s'.log;
  }

  lemma MoveKeepsInv(s: Sys, m: Move)
    requires Inv(s) && Moved(s, m).Some?
    ensures Inv(Moved(s, m).value)
  {
    var s' := Moved(s, m).value;
    match m {
      case Arrive(c, op) =>
        assert !InLog(s.shared, c);
      case Advance(c, ev) =>
        var mine := s.calls[c];
        if ev == Commit {
          CommitLinear(s.shared, c, mine);
          OwnCommitKept(s.shared, c, mine);
          forall d | d in s'.calls ensures CallOk(s'.shared, d, s'.calls[d]) {
            if d != c { OtherCallKeptByCommit(s.shared, c, mine, d, s.calls[d]); }
          }
        } else {
          OwnCallKept(s.shared, c, mine, ev);
          forall d | d in s'.calls ensures CallOk(s'.shared, d, s'.calls[d]) {
            if d != c { OtherCallKept(s.shared, s'.shared, d, s.calls[d]); }
          }
        }
    }
  }

  lemma {:induction false} RunKeepsInv(s: Sys, moves: seq<Move>)
    requires Inv(s) && Run(s, moves).Some?
    ensures Inv(Run(s, moves).value)
  {
    if moves != [] {
      RunKeepsInv(s, moves[..|moves| - 1]);
      MoveKeepsInv(Run(s, moves[..|moves| - 1]).value, moves[|moves| - 1]);
    }
  }

  lemma ReachableInv(backend: Backend, db: Db, moves: seq<Move>)
    requires Run(Start(backend, db), moves).Some?
    ensures Inv(Run(Start(backend, db), moves).value)
  {
    RunKeepsInv(Start(backend, db), moves);
  }

  // Theorems about whole runs

  /** Every step of every run either leaves the tables alone or is one atomic audited append: both
      backends refine the same specification. */
  lemma StepRefinesAtomic(s: Sys, m: Move)
    requires Inv(s) && Moved(s, m).Some?
    ensures var s' := Moved(s, m).value;
            || s'.shared.db == s.shared.db
            || (m.Advance? && m.ev == Commit && Atomic(s.shared.db, m.c, s.calls[m.c].op) == Some(s'.shared.db))
  {
    if m.Advance? {
      if m.ev == Commit { CommitIsAtomic(s.shared, m.c, s.calls[m.c]); }
      else { OwnCallKept(s.shared, m.c, s.calls[m.c], m.ev); }
    }
  }

  lemma {:induction false} HistoryStart(s: Sys, moves: seq<Move>)
    requires Inv(s) && Run(s, moves).Some?
    ensures var h := Run(s, moves).value.shared.history; |h| > 0 && h[0] == s.shared.history[0]
  {
    RunKeepsInv(s, moves);
    if moves != [] {
      var front := moves[..|moves| - 1];
      HistoryStart(s, front);
      RunKeepsInv(s, front);
      var mid, m := Run(s, front).value, moves[|moves| - 1];
      if m.Advance? {
        if m.ev == Commit { CommitLinear(mid.shared, m.c, mid.calls[m.c]); }
        else { OwnCallKept(mid.shared, m.c, mid.calls[m.c], m.ev); }
      }
    }
  }

  lemma {:induction false} HistoryGood(s: Shared, i: nat)
    requires Linear(s) && Good(s.history[0]) && i <= |s.log|
    ensures Good(s.history[i])
  {
    if i > 0 {
      HistoryGood(s, i - 1);
      AtomicKeepsGood(s.history[i - 1], s.log[i - 1].caller, s.log[i - 1].op);
    }
  }

  /** In every interleaving, with any aborts and retries, each flag's committed versions are exactly
      1..n, and likewise each project's snapshots, in every state the database goes through. */
  lemma VersionsStayDense(backend: Backend, db: Db, moves: seq<Move>, i: nat)
    requires Good(db) && Run(Start(backend, db), moves).Some?
    requires i < |Run(Start(backend, db), moves).value.shared.history|
    ensures Good(Run(Start(backend, db), moves).value.shared.history[i])
    ensures Good(Run(Start(backend, db), moves).value.shared.db)
  {
    ReachableInv(backend, db, moves);
    HistoryStart(Start(backend, db), moves);
    var s := Run(Start(backend, db), moves).value.shared;
    HistoryGood(s, i);
    HistoryGood(s, |s.log|);
  }

  lemma {:induction false} HistoryReferential(s: Shared, i: nat)
    requires Linear(s) && Referential(s.history[0]) && i <= |s.log|
    ensures Referential(s.history[i])
  {
    if i > 0 {
      HistoryReferential(s, i - 1);
      AtomicKeepsReferential(s.history[i - 1], s.log[i - 1].caller, s.log[i - 1].op);
    }
  }

  /** In every interleaving and every state, versions belong to flags and flag ids are unique. */
  lemma ReferencesStayValid(backend: Backend, db: Db, moves: seq<Move>, i: nat)
    requires Referential(db) && Run(Start(backend, db), moves).Some?
    requires i < |Run(Start(backend, db), moves).value.shared.history|
    ensures Referential(Run(Start(backend, db), moves).value.shared.history[i])
  {
    ReachableInv(backend, db, moves);
    HistoryStart(Start(backend, db), moves);
    HistoryReferential(Run(Start(backend, db), moves).value.shared, i);
  }

  function AuditRows(log: seq<Entry>): seq<AuditRow> {
    seq(|log|, i requires 0 <= i < |log| => AuditRow(log[i].caller, log[i].op))
  }

  lemma {:induction false} AuditOfHistory(s: Shared, i: nat)
    requires Linear(s) && i <= |s.log|
    ensures s.history[i].audit == s.history[0].audit + AuditRows(s.log[..i])
  {
    if i > 0 {
      AuditOfHistory(s, i - 1);
      var before, after := AuditRows(s.log[..i - 1]), AuditRows(s.log[..i]);
      assert after == before + [AuditRow(s.log[i - 1].caller, s.log[i - 1].op)];
      assert s.history[0].audit + before + [AuditRow(s.log[i - 1].caller, s.log[i - 1].op)] == s.history[0].audit + after;
    } else {
      assert AuditRows(s.log[..0]) == [];
    }
  }

  /** The audit table grows by exactly the committed calls, in commit order, one row each. */
  lemma OneAuditRowPerCommit(backend: Backend, db: Db, moves: seq<Move>)
    requires Run(Start(backend, db), moves).Some?
    ensures var s := Run(Start(backend, db), moves).value.shared;
            && s.db.audit == db.audit + AuditRows(s.log)
            && forall i, j | 0 <= i < j < |s.log| :: s.log[i].caller != s.log[j].caller
  {
    ReachableInv(backend, db, moves);
    HistoryStart(Start(backend, db), moves);
    var s := Run(Start(backend, db), moves).value.shared;
    AuditOfHistory(s, |s.log|);
    assert s.log[..|s.log|] == s.log;
  }

  /** Call `c` is the `i`-th commit: its row and its audit row went in together, and the handler's
      variable holds that row. */
  ghost predicate CommittedAt(s: Shared, c: Id, call: Call, i: nat) {
    && i < |s.log| && i + 1 < |s.history| && s.log[i] == Entry(c, call.op)
    && call.captured.Some? && call.captured == RowFor(s.history[i], call.op)
    && s.history[i + 1] == Insert(s.history[i], call.captured.value, AuditRow(c, call.op))
  }

  lemma SucceededCommitted(s: Sys, c: Id) returns (i: nat)
    requires Inv(s) && c in s.calls && s.calls[c].phase == Succeeded
    ensures CommittedAt(s.shared, c, s.calls[c], i) && Committed(s.shared, c, s.calls[c], i)
  {
    var call := s.calls[c];
    assert CallOk(s.shared, c, call);
    i :| Committed(s.shared, c, call, i);
    assert Atomic(s.shared.history[i], s.shared.log[i].caller, s.shared.log[i].op) == Some(s.shared.history[i + 1]);
  }

  /** A call that returned success committed once, on the state of that moment, and its handler
      holds the row of the attempt that committed. A call that returned an error, or has not
      returned, left no row in any table. No callback ran more than nine times. */
  lemma CallsAreAtomic(backend: Backend, db: Db, moves: seq<Move>, c: Id)
    requires Run(Start(backend, db), moves).Some? && c in Run(Start(backend, db), moves).value.calls
    ensures var s := Run(Start(backend, db), moves).value;
            var call := s.calls[c];
            && call.runs <= 9
            && (call.phase == Succeeded ==> exists i :: CommittedAt(s.shared, c, call, i))
            && (call.phase != Succeeded ==> forall e | e in s.shared.log :: e.caller != c)
  {
    ReachableInv(backend, db, moves);
    var s := Run(Start(backend, db), moves).value;
    assert CallOk(s.shared, c, s.calls[c]);
    if s.calls[c].phase == Succeeded { var i := SucceededCommitted(s, c); }
  }

  /** The `i`-th commit stored a snapshot of the state before the `k`-th commit. */
  ghost predicate SnapshotOf(s: Shared, call: Call, i: nat, k: nat) {
    && k <= i && i + 1 < |s.history| && call.captured.Some? && call.captured.value.NewSnapshot?
    && var row := call.captured.value.s;
    && row.bundle == Bundle(s.history[k], row.project)
    && s.history[i + 1].snapshots == s.history[i].snapshots + [row]
  }

  /** Each committed snapshot holds the flag-to-highest-version map of a state that the database was
      in between the arrival of its request and its commit. */
  lemma SnapshotsAreConsistent(backend: Backend, db: Db, moves: seq<Move>, c: Id)
    requires Run(Start(backend, db), moves).Some? && c in Run(Start(backend, db), moves).value.calls
    requires var call := Run(Start(backend, db), moves).value.calls[c];
             call.phase == Succeeded && call.op.CompileSnapshot?
    ensures var s := Run(Start(backend, db), moves).value;
            var call := s.calls[c];
            exists i, k ::
              CommittedAt(s.shared, c, call, i) && call.arrived <= k && SnapshotOf(s.shared, call, i, k)
  {
    ReachableInv(backend, db, moves);
    var s := Run(Start(backend, db), moves).value;
    var call := s.calls[c];
    var i := SucceededCommitted(s, c);
    assert CallOk(s.shared, c, call);
    assert SnapshotOf(s.shared, call, i, call.readAt);
  }

  /** Along the history no version and no flag is ever lost. */
  lemma {:induction false} HistoryGrows(s: Shared, i: nat, j: nat)
    requires Linear(s) && i <= j <= |s.log|
    ensures forall v | v in s.history[i].versions :: v in s.history[j].versions
    ensures FlagsGrow(s.history[i], s.history[j])
    decreases j
  {
    if i < j {
      var k := j - 1;
      HistoryGrows(s, i, k);
      assert Atomic(s.history[k], s.log[k].caller, s.log[k].op) == Some(s.history[k + 1]);
    }
  }

  /** The bundle holds, under the key, the highest version of the flag at `db`, numbered `version` or more. */
  ghost predicate ShowsAtLeast(db: Db, row: SnapshotRow, key: string, flag: Id, version: nat) {
    var latest := LatestOf(db.versions, flag);
    && latest.Some? && latest.value.version >= version
    && key in row.bundle && row.bundle[key] == latest.value.compiled
  }

  /** The `j`-th commit published a version of the flag with that key, and the state before the `k`-th
      commit is not earlier. */
  lemma PublishIsShown(s: Shared, j: nat, k: nat, row: SnapshotRow, key: string)
    requires Linear(s) && j < k <= |s.log| && s.log[j].op.PublishVersion?
    requires (row.project, key) in s.history[j].flags && s.history[j].flags[(row.project, key)] == s.log[j].op.flag
    requires row.bundle == Bundle(s.history[k], row.project)
    ensures var op := s.log[j].op;
            ShowsAtLeast(s.history[k], row, key, op.flag, NextVersion(FlagVersions(s.history[j].versions, op.flag)))
  {
    var op := s.log[j].op;
    assert Atomic(s.history[j], s.log[j].caller, op) == Some(s.history[j + 1]);
    var v := RowFor(s.history[j], op).value.v;
    assert s.history[j + 1].versions == s.history[j].versions + [v];
    assert v in s.history[j + 1].versions;
    HistoryGrows(s, j + 1, k);
    HistoryGrows(s, j, k);
  }

  /** A publish that committed before a snapshot was requested is in that snapshot, or a newer version of
      its flag is. */
  lemma SnapshotsSeePublishes(backend: Backend, db: Db, moves: seq<Move>, c: Id, j: nat, key: string)
    requires Run(Start(backend, db), moves).Some? && c in Run(Start(backend, db), moves).value.calls
    requires var s := Run(Start(backend, db), moves).value;
             var call := s.calls[c];
             && call.phase == Succeeded && call.op.CompileSnapshot?
             && j < call.arrived && j < |s.shared.log| && j < |s.shared.history| && s.shared.log[j].op.PublishVersion?
             && var flags := s.shared.history[j].flags;
                (call.op.project, key) in flags && flags[(call.op.project, key)] == s.shared.log[j].op.flag
    ensures var s := Run(Start(backend, db), moves).value;
            var call, op := s.calls[c], s.shared.log[j].op;
            exists i, k ::
              && CommittedAt(s.shared, c, call, i) && call.arrived <= k && SnapshotOf(s.shared, call, i, k)
              && ShowsAtLeast(s.shared.history[k], call.captured.value.s, key, op.flag,
                              NextVersion(FlagVersions(s.shared.history[j].versions, op.flag)))
  {
    ReachableInv(backend, db, moves);
    SnapshotsAreConsistent(backend, db, moves, c);
    var s := Run(Start(backend, db), moves).value;
    var call := s.calls[c];
    var i, k :| CommittedAt(s.shared, c, call, i) && call.arrived <= k && SnapshotOf(s.shared, call, i, k);
    PublishIsShown(s.shared, j, k, call.captured.value.s, key);
  }
}

/** The tables, the statements a transaction runs against them, and the atomic step that one
    audited mutation amounts to. */
module Store {
  import opened JsonValues
  import opened Ir
  import opened Codec

  type Id = nat

  datatype VersionRow = VersionRow(flag: Id, version: nat, strategy: Strategy, compiled: TreeDoc)

  datatype SnapshotRow = SnapshotRow(project: Id, version: nat, bundle: map<string, TreeDoc>)

  /** A mutation as its handler hands it to `WithAudit`. */
  datatype Op =
    | CreateFlag(project: Id, key: string, id: Id)
    | PublishVersion(flag: Id, strategy: Strategy, compiled: TreeDoc)
    | CompileSnapshot(project: Id, bundle: map<string, TreeDoc>)

  datatype AuditRow = AuditRow(caller: Id, op: Op)

  /** `flags` is the unique index of the flags table: (project, key) to flag id. */
  datatype Db = Db(
    flags: map<(Id, string), Id>, versions: seq<VersionRow>, snapshots: seq<SnapshotRow>, audit: seq<AuditRow>)

  datatype Row =
    | FlagRow(project: Id, key: string, id: Id)
    | NewVersion(v: VersionRow)
    | NewSnapshot(s: SnapshotRow)

  // Reads

  /** The version numbers of one flag, in insertion order. */
  function FlagVersions(rows: seq<VersionRow>, flag: Id): seq<nat> {
    if rows == [] then []
    else
      var front := FlagVersions(rows[..|rows| - 1], flag);
      var last := rows[|rows| - 1];
      if last.flag == flag then front + [last.version] else front
  }

  function SnapshotVersions(rows: seq<SnapshotRow>, project: Id): seq<nat> {
    if rows == [] then []
    else
      var front := SnapshotVersions(rows[..|rows| - 1], project);
      var last := rows[|rows| - 1];
      if last.project == project then front + [last.version] else front
  }

  /** `COALESCE(MAX(version), 0) + 1` */
  function NextVersion(versions: seq<nat>): (n: nat)
    ensures forall v | v in versions :: v < n
    ensures n == 1 || n - 1 in versions
  {
    if versions == [] then 1
    else
      var front := NextVersion(versions[..|versions| - 1]);
      var last := versions[|versions| - 1];
      assert versions == versions[..|versions| - 1] + [last];
      if last < front then front else last + 1
  }

  /** Exactly 1..n, in order. */
  predicate Dense(versions: seq<nat>) {
    forall i | 0 <= i < |versions| :: versions[i] == i + 1
  }

  lemma NextOfDense(versions: seq<nat>)
    requires Dense(versions)
    ensures NextVersion(versions) == |versions| + 1
  {
    if versions != [] { assert versions[|versions| - 1] in versions; }
  }

  /** Every flag and every project numbers its rows without a gap or a repeat. */
  ghost predicate Good(db: Db) {
    && (forall f: Id :: Dense(FlagVersions(db.versions, f)))
    && (forall p: Id :: Dense(SnapshotVersions(db.snapshots, p)))
  }

  // Writes

  /** The row the operation inserts when it runs against `view`; `None` is a constraint violation. */
  function RowFor(view: Db, op: Op): Option<Row> {
    match op
    case CreateFlag(project, key, id) =>
      if (project, key) in view.flags || id in view.flags.Values then None
      else Some(FlagRow(project, key, id))
    case PublishVersion(flag, strategy, compiled) =>
      if flag !in view.flags.Values then None
      else Some(NewVersion(VersionRow(flag, NextVersion(FlagVersions(view.versions, flag)), strategy, compiled)))
    case CompileSnapshot(project, bundle) =>
      Some(NewSnapshot(SnapshotRow(project, NextVersion(SnapshotVersions(view.snapshots, project)), bundle)))
  }

  function Insert(db: Db, row: Row, audit: AuditRow): Db {
    var logged := db.(audit := db.audit + [audit]);
    match row
    case FlagRow(project, key, id) => logged.(flags := db.flags[(project, key) := id])
    case NewVersion(v) => logged.(versions := db.versions + [v])
    case NewSnapshot(s) => logged.(snapshots := db.snapshots + [s])
  }

  /** The specification: one indivisible append of the mutation's row and its audit row. */
  function Atomic(db: Db, caller: Id, op: Op): Option<Db> {
    var row := RowFor(db, op);
    if row.None? then None else Some(Insert(db, row.value, AuditRow(caller, op)))
  }

  lemma AtomicKeepsGood(db: Db, caller: Id, op: Op)
    requires Good(db) && Atomic(db, caller, op).Some?
    ensures Good(Atomic(db, caller, op).value)
  {
    var after := Atomic(db, caller, op).value;
    match op {
      case CreateFlag(_, _, _) =>
      case PublishVersion(flag, _, _) =>
        NextOfDense(FlagVersions(db.versions, flag));
        assert after.versions[..|after.versions| - 1] == db.versions;
      case CompileSnapshot(project, _) =>
        NextOfDense(SnapshotVersions(db.snapshots, project));
        assert after.snapshots[..|after.snapshots| - 1] == db.snapshots;
    }
  }

  /** Every version belongs to a flag, and no flag id stands for two keys. */
  predicate Referential(db: Db) {
    && (forall v | v in db.versions :: v.flag in db.flags.Values)
    && (forall j, k | j in db.flags && k in db.flags && db.flags[j] == db.flags[k] :: j == k)
  }

  lemma AtomicKeepsReferential(db: Db, caller: Id, op: Op)
    requires Referential(db) && Atomic(db, caller, op).Some?
    ensures Referential(Atomic(db, caller, op).value)
  {
    var after := Atomic(db, caller, op).value;
    if op.CreateFlag? {
      forall v | v in after.versions ensures v.flag in after.flags.Values {
        var k :| k in db.flags && db.flags[k] == v.flag;
        assert k in after.flags && after.flags[k] == v.flag;
      }
    }
  }

  // What the database promises

  /** Postgres lets a serializable transaction commit only if the rows it read are unchanged and
      no unique index is violated. */
  predicate Validates(view: Db, db: Db, op: Op) {
    match op
    case CreateFlag(project, key, id) => (project, key) !in db.flags && id !in db.flags.Values
    case PublishVersion(flag, _, _) => FlagVersions(db.versions, flag) == FlagVersions(view.versions, flag)
    case CompileSnapshot(project, _) => SnapshotVersions(db.snapshots, project) == SnapshotVersions(view.snapshots, project)
  }

  /** Flags are only ever added. */
  predicate FlagsGrow(view: Db, db: Db) {
    forall k | k in view.flags :: k in db.flags && db.flags[k] == view.flags[k]
  }

  lemma FlagsGrowValues(view: Db, db: Db, id: Id)
    requires FlagsGrow(view, db) && id in view.flags.Values
    ensures id in db.flags.Values
  {
    var k :| k in view.flags && view.flags[k] == id;
    assert k in db.flags;
  }

  /** A validated commit inserts the row that an atomic step on the current state would. */
  lemma ValidatedIsAtomic(view: Db, db: Db, op: Op)
    requires FlagsGrow(view, db) && Validates(view, db, op) && RowFor(view, op).Some?
    ensures RowFor(db, op) == RowFor(view, op)
  {
    if op.PublishVersion? { FlagsGrowValues(view, db, op.flag); }
  }

  /** The validation is what keeps the numbering: a publish computed on a good view may be inserted
      into a good database exactly when the flag has no version the view lacks. */
  lemma StalePublishBreaksNumbering(view: Db, db: Db, flag: Id, op: Op, audit: AuditRow)
    requires Good(view) && Good(db) && op.PublishVersion? && op.flag == flag && RowFor(view, op).Some?
    ensures Good(Insert(db, RowFor(view, op).value, audit)) <==> Validates(view, db, op)
  {
    var row := RowFor(view, op).value;
    var after := Insert(db, row, audit);
    var seen, there := FlagVersions(view.versions, flag), FlagVersions(db.versions, flag);
    NextOfDense(seen);
    assert after.versions[..|after.versions| - 1] == db.versions;
    assert FlagVersions(after.versions, flag) == there + [|seen| + 1];
    assert FlagVersions(after.versions, flag)[|there|] == |seen| + 1;
    if Validates(view, db, op) {
      forall f: Id ensures Dense(FlagVersions(after.versions, f)) {
        if f != flag { assert FlagVersions(after.versions, f) == FlagVersions(db.versions, f); }
      }
    }
  }

  // The snapshot bundle

  function LatestOf(rows: seq<VersionRow>, flag: Id): (r: Option<VersionRow>)
    ensures r.Some? ==> r.value in rows && r.value.flag == flag
    ensures r.None? ==> forall v | v in rows :: v.flag != flag
    ensures r.Some? ==> forall v | v in rows && v.flag == flag :: v.version <= r.value.version
  {
    if rows == [] then None
    else
      var front, last := LatestOf(rows[..|rows| - 1], flag), rows[|rows| - 1];
      assert rows == rows[..|rows| - 1] + [last];
      if last.flag == flag && (front.None? || front.value.version < last.version) then Some(last) else front
  }

  /** Flag key to compiled form of its highest version, for the flags of one project that have one. */
  function Bundle(db: Db, project: Id): map<string, TreeDoc> {
    map pk | pk in db.flags && pk.0 == project && LatestOf(db.versions, db.flags[pk]).Some? ::
      pk.1 := LatestOf(db.versions, db.flags[pk]).value.compiled
  }
}

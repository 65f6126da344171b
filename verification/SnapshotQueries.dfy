/** The two latest-version queries and the bundle built from their rows. */
module SnapshotQueries {
  import opened JsonValues
  import opened Ir
  import opened Codec
  import opened Store

  // The join and its filter

  /** A row of `flag_versions` joined with its flag. */
  datatype LatestRow = LatestRow(key: string, flag: Id, version: nat, strategy: Strategy, compiled: TreeDoc)

  /** INNER JOIN flags ON f.id = fv.flag_id WHERE f.project_id = project */
  function Joined(db: Db, project: Id): set<LatestRow> {
    set pk, v | pk in db.flags && v in db.versions && pk.0 == project && db.flags[pk] == v.flag ::
      LatestRow(pk.1, v.flag, v.version, v.strategy, v.compiled)
  }

  /** The rows of a set in some order, each once. */
  ghost predicate Arranges(rows: seq<LatestRow>, s: set<LatestRow>) {
    && (forall r :: r in rows <==> r in s)
    && NoRepeats(rows)
  }

  predicate NoRepeats(rows: seq<LatestRow>) {
    forall i, j | 0 <= i < j < |rows| :: rows[i] != rows[j]
  }

  // Meaning of the queries

  /** UNIQUE (flag_id, version) */
  predicate UniqueVersions(rows: seq<LatestRow>) {
    forall i, j | 0 <= i < j < |rows| :: rows[i].flag != rows[j].flag || rows[i].version != rows[j].version
  }

  predicate IsLatest(rows: seq<LatestRow>, r: LatestRow) {
    r in rows && forall v | v in rows && v.flag == r.flag :: v.version <= r.version
  }

  predicate OnePerFlag(rows: seq<LatestRow>) {
    forall i, j | 0 <= i < j < |rows| :: rows[i].flag != rows[j].flag
  }

  lemma PrependFlag(x: LatestRow, rows: seq<LatestRow>)
    requires OnePerFlag(rows) && forall r | r in rows :: r.flag != x.flag
    ensures OnePerFlag([x] + rows)
  {
  }

  /** Rows with no repetition that are exactly the latest ones. */
  ghost predicate LatestRows(rows: seq<LatestRow>, result: seq<LatestRow>) {
    && (forall r :: r in result <==> IsLatest(rows, r))
    && OnePerFlag(result)
  }

  // Postgres: DISTINCT ON (flag_id) ... ORDER BY flag_id, version DESC

  predicate Sorted(s: seq<LatestRow>) {
    forall i, j | 0 <= i < j < |s| ::
      s[i].flag < s[j].flag || (s[i].flag == s[j].flag && s[i].version >= s[j].version)
  }

  /** The first row of each run of equal flags. */
  function DistinctOn(s: seq<LatestRow>): seq<LatestRow> {
    var n := |s|;
    if n == 0 then []
    else
      var front := DistinctOn(s[..n - 1]);
      if n == 1 || s[n - 2].flag != s[n - 1].flag then front + [s[n - 1]] else front
  }

  lemma LatestWithNewFlag(front: seq<LatestRow>, d: seq<LatestRow>, x: LatestRow)
    requires LatestRows(front, d) && forall v | v in front :: v.flag != x.flag
    ensures LatestRows(front + [x], d + [x])
  {
    forall r ensures r in d + [x] <==> IsLatest(front + [x], r) {
      assert r in d <==> IsLatest(front, r);
    }
    forall i | 0 <= i < |d| ensures d[i].flag != x.flag { assert d[i] in d && IsLatest(front, d[i]); }
  }

  lemma LatestWithOlder(front: seq<LatestRow>, d: seq<LatestRow>, x: LatestRow, v: LatestRow)
    requires LatestRows(front, d) && v in front && v.flag == x.flag && v.version > x.version
    ensures LatestRows(front + [x], d)
  {
    forall r ensures r in d <==> IsLatest(front + [x], r) {
      assert r in d <==> IsLatest(front, r);
      if IsLatest(front, r) && r.flag == x.flag { assert v.version <= r.version; }
    }
  }

  lemma NewFlagIsLast(s: seq<LatestRow>)
    requires Sorted(s) && s != [] && (|s| > 1 ==> s[|s| - 2].flag != s[|s| - 1].flag)
    ensures forall v | v in s[..|s| - 1] :: v.flag != s[|s| - 1].flag
  {
    var n := |s|;
    forall i | 0 <= i < n - 1 ensures s[i].flag < s[n - 1].flag {
      if i < n - 2 { assert s[i].flag <= s[n - 2].flag; }
    }
  }

  lemma SortedFront(s: seq<LatestRow>)
    requires Sorted(s) && UniqueVersions(s) && s != []
    ensures Sorted(s[..|s| - 1]) && UniqueVersions(s[..|s| - 1])
    ensures |s| > 1 && s[|s| - 2].flag == s[|s| - 1].flag ==> s[|s| - 2].version > s[|s| - 1].version
  {
  }

  lemma DistinctOnStep(s: seq<LatestRow>)
    requires Sorted(s) && UniqueVersions(s) && s != []
    requires LatestRows(s[..|s| - 1], DistinctOn(s[..|s| - 1]))
    ensures LatestRows(s[..|s| - 1] + [s[|s| - 1]], DistinctOn(s))
  {
    var n := |s|;
    var front, x := s[..n - 1], s[n - 1];
    if n > 1 && s[n - 2].flag == x.flag {
      SortedFront(s);
      assert front[n - 2] == s[n - 2];
      LatestWithOlder(front, DistinctOn(front), x, s[n - 2]);
    } else {
      NewFlagIsLast(s);
      LatestWithNewFlag(front, DistinctOn(front), x);
    }
  }

  lemma {:induction false} DistinctOnSorted(s: seq<LatestRow>)
    requires Sorted(s) && UniqueVersions(s)
    ensures LatestRows(s, DistinctOn(s))
  {
    if s != [] {
      SortedFront(s);
      DistinctOnSorted(s[..|s| - 1]);
      DistinctOnStep(s);
      assert s == s[..|s| - 1] + [s[|s| - 1]];
    }
  }

  // SQLite: ROW_NUMBER() OVER (PARTITION BY flag_id ORDER BY version DESC) = 1

  /** How many rows of the partition come before `r`. */
  function Above(rows: seq<LatestRow>, r: LatestRow): nat {
    if rows == [] then 0
    else Above(rows[1..], r) + if rows[0].flag == r.flag && rows[0].version > r.version then 1 else 0
  }

  function RowNumber(rows: seq<LatestRow>, r: LatestRow): nat {
    1 + Above(rows, r)
  }

  function RowNumberOne(rows: seq<LatestRow>, from: seq<LatestRow>): seq<LatestRow> {
    if from == [] then []
    else (if RowNumber(rows, from[0]) == 1 then [from[0]] else []) + RowNumberOne(rows, from[1..])
  }

  lemma {:induction false} AboveZero(rows: seq<LatestRow>, r: LatestRow)
    ensures Above(rows, r) == 0 <==> forall v | v in rows && v.flag == r.flag :: v.version <= r.version
  {
    if rows != [] {
      AboveZero(rows[1..], r);
      assert forall v :: v in rows <==> v == rows[0] || v in rows[1..];
    }
  }

  lemma {:induction false} RowNumberOneRows(rows: seq<LatestRow>, from: seq<LatestRow>)
    requires UniqueVersions(from) && forall v | v in from :: v in rows
    ensures forall r :: r in RowNumberOne(rows, from) <==> r in from && IsLatest(rows, r)
    ensures OnePerFlag(RowNumberOne(rows, from))
    decreases |from|
  {
    if from != [] {
      var rest := from[1..];
      RowNumberOneRows(rows, rest);
      AboveZero(rows, from[0]);
      assert forall v :: v in from <==> v == from[0] || v in rest;
      if RowNumber(rows, from[0]) == 1 {
        forall r | r in RowNumberOne(rows, rest) ensures r.flag != from[0].flag {
          var j :| 0 <= j < |rest| && rest[j] == r;
          assert from[j + 1] == r;
        }
        PrependFlag(from[0], RowNumberOne(rows, rest));
      } else {
        assert RowNumberOne(rows, from) == RowNumberOne(rows, rest);
      }
    }
  }

  /** The ROW_NUMBER query returns the same rows. */
  lemma RowNumberIsLatest(rows: seq<LatestRow>)
    requires UniqueVersions(rows)
    ensures LatestRows(rows, RowNumberOne(rows, rows))
  {
    RowNumberOneRows(rows, rows);
  }

  // Dense numbering makes the rows of the join distinct

  predicate DistinctVersions(rows: seq<VersionRow>) {
    forall i, j | 0 <= i < j < |rows| :: rows[i].flag != rows[j].flag || rows[i].version != rows[j].version
  }

  /** The numbering that the publish protocol keeps makes (flag, version) unique. */
  lemma GoodIsUnique(db: Db)
    requires Good(db)
    ensures DistinctVersions(db.versions)
  {
    var rows := db.versions;
    forall i, j | 0 <= i < j < |rows| && rows[i].flag == rows[j].flag ensures rows[i].version != rows[j].version {
      PrefixVersions(rows, j + 1, rows[j].flag);
      assert rows[..j + 1][..j] == rows[..j];
      var before := FlagVersions(rows[..j], rows[j].flag);
      assert FlagVersions(rows[..j + 1], rows[j].flag) == before + [rows[j].version];
      VersionListed(rows[..j], i);
      var k :| 0 <= k < |before| && before[k] == rows[i].version;
      assert (before + [rows[j].version])[k] == k + 1;
      assert (before + [rows[j].version])[|before|] == |before| + 1;
    }
  }

  lemma {:induction false} VersionListed(rows: seq<VersionRow>, i: nat)
    requires i < |rows|
    ensures exists k | 0 <= k < |FlagVersions(rows, rows[i].flag)| :: FlagVersions(rows, rows[i].flag)[k] == rows[i].version
    decreases |rows|
  {
    var n := |rows|;
    if i < n - 1 {
      VersionListed(rows[..n - 1], i);
      var front := FlagVersions(rows[..n - 1], rows[i].flag);
      var k :| 0 <= k < |front| && front[k] == rows[i].version;
      assert FlagVersions(rows, rows[i].flag)[k] == rows[i].version;
    } else {
      var all := FlagVersions(rows, rows[i].flag);
      assert all[|all| - 1] == rows[i].version;
    }
  }

  lemma {:induction false} PrefixVersions(rows: seq<VersionRow>, n: nat, flag: Id)
    requires n <= |rows| && Dense(FlagVersions(rows, flag))
    ensures Dense(FlagVersions(rows[..n], flag))
    decreases |rows|
  {
    if n < |rows| {
      var front := rows[..|rows| - 1];
      assert forall i | 0 <= i < |FlagVersions(front, flag)| :: FlagVersions(rows, flag)[i] == FlagVersions(front, flag)[i];
      PrefixVersions(front, n, flag);
      assert front[..n] == rows[..n];
    } else {
      assert rows[..n] == rows;
    }
  }

  /** No two rows of the join share flag and version. */
  lemma JoinedUnique(db: Db, project: Id, rows: seq<LatestRow>)
    requires Good(db) && Referential(db) && Arranges(rows, Joined(db, project))
    ensures UniqueVersions(rows)
  {
    GoodIsUnique(db);
    forall i, j | 0 <= i < j < |rows| && rows[i].flag == rows[j].flag ensures rows[i].version != rows[j].version {
      assert rows[i] in Joined(db, project) && rows[j] in Joined(db, project);
      if rows[i].version == rows[j].version {
        var v := JoinedVersion(db, project, rows[i]);
        var w := JoinedVersion(db, project, rows[j]);
        SameVersion(db, v, w);
      }
    }
  }

  /** The flag and the version that a row of the join comes from. */
  lemma JoinedVersion(db: Db, project: Id, r: LatestRow) returns (v: VersionRow)
    requires r in Joined(db, project)
    ensures v in db.versions && v == VersionRow(r.flag, r.version, r.strategy, r.compiled)
    ensures (project, r.key) in db.flags && db.flags[(project, r.key)] == r.flag
  {
    var pk, w :| pk in db.flags && w in db.versions && pk.0 == project && db.flags[pk] == w.flag
              && r == LatestRow(pk.1, w.flag, w.version, w.strategy, w.compiled);
    assert pk == (project, r.key);
    v := w;
  }

  lemma SameVersion(db: Db, v: VersionRow, w: VersionRow)
    requires DistinctVersions(db.versions) && v in db.versions && w in db.versions
    requires v.flag == w.flag && v.version == w.version
    ensures v == w
  {
    var a :| 0 <= a < |db.versions| && db.versions[a] == v;
    var b :| 0 <= b < |db.versions| && db.versions[b] == w;
    assert a == b;
  }

  // The bundle

  /** What decoding and re-marshalling does to a stored document; the identity on the documents that
      publishing stores. */
  function Remarshalled(d: TreeDoc): Option<TreeDoc> {
    var t := DecodeTree(d);
    if t.Ok? then Some(EncodeTree(t.value)) else None
  }

  /** Every entry re-marshalled; `None` when one does not decode. */
  function RemarshalledAll(m: map<string, TreeDoc>): Option<map<string, TreeDoc>> {
    if forall k | k in m :: Remarshalled(m[k]).Some? then Some(map k | k in m :: Remarshalled(m[k]).value) else None
  }

  /** What the loop over the query's rows builds. */
  function BundleOf(rows: seq<LatestRow>): Option<map<string, TreeDoc>> {
    if rows == [] then Some(map[])
    else
      var front, last := BundleOf(rows[..|rows| - 1]), rows[|rows| - 1];
      var doc := Remarshalled(last.compiled);
      if front.None? || doc.None? then None else Some(front.value[last.key := doc.value])
  }

  lemma {:induction false} BundleOfPrefix(rows: seq<LatestRow>, n: nat)
    requires n <= |rows| && BundleOf(rows[..n]).None?
    ensures BundleOf(rows).None?
    decreases |rows|
  {
    if n < |rows| {
      var front := rows[..|rows| - 1];
      assert front[..n] == rows[..n];
      BundleOfPrefix(front, n);
    } else {
      assert rows[..n] == rows;
    }
  }

  /** The loop that fills `bundle.Flags`. */
  method CompileBundle(rows: seq<LatestRow>) returns (bundle: Option<map<string, TreeDoc>>)
    ensures bundle == BundleOf(rows)
  {
    var flags: map<string, TreeDoc> := map[];
    for i := 0 to |rows|
      invariant BundleOf(rows[..i]) == Some(flags)
    {
      assert rows[..i + 1][..i] == rows[..i];
      var tree := DecodeTree(rows[i].compiled);
      if tree.Err? {
        BundleOfPrefix(rows, i + 1);
        return None;
      }
      flags := flags[rows[i].key := EncodeTree(tree.value)];
    }
    assert rows[..|rows|] == rows;
    return Some(flags);
  }

  predicate DistinctKeys(rows: seq<LatestRow>) {
    forall i, j | 0 <= i < j < |rows| :: rows[i].key != rows[j].key
  }

  /** The map from key to document that rows with distinct keys stand for. */
  function DocsOf(rows: seq<LatestRow>): map<string, TreeDoc> {
    if rows == [] then map[]
    else DocsOf(rows[..|rows| - 1])[rows[|rows| - 1].key := rows[|rows| - 1].compiled]
  }

  function KeysOf(rows: seq<LatestRow>): set<string> {
    set r | r in rows :: r.key
  }

  lemma LastKeyIsNew(rows: seq<LatestRow>)
    requires rows != [] && DistinctKeys(rows)
    ensures rows[|rows| - 1].key !in KeysOf(rows[..|rows| - 1]) && DistinctKeys(rows[..|rows| - 1])
    ensures KeysOf(rows) == KeysOf(rows[..|rows| - 1]) + {rows[|rows| - 1].key}
  {
    var n := |rows| - 1;
    var front, last := rows[..n], rows[n];
    assert rows == front + [last];
    forall k ensures k in KeysOf(rows) <==> k in KeysOf(front) || k == last.key {
      assert last in rows;
      if k in KeysOf(front) { var r :| r in front && r.key == k; assert r in rows; }
    }
  }

  lemma {:induction false} DocsFacts(rows: seq<LatestRow>)
    requires DistinctKeys(rows)
    ensures DocsOf(rows).Keys == KeysOf(rows)
    ensures forall r | r in rows :: DocsOf(rows)[r.key] == r.compiled
  {
    if rows != [] {
      var n := |rows| - 1;
      var front, last := rows[..n], rows[n];
      LastKeyIsNew(rows);
      DocsFacts(front);
      assert rows == front + [last];
      forall r | r in rows ensures DocsOf(rows)[r.key] == r.compiled {
        if r in front { assert r.key in KeysOf(front); }
      }
    }
  }

  /** Visiting such rows builds the re-marshalled map, or fails if an entry does not decode. */
  lemma {:induction false} LoopBuilds(rows: seq<LatestRow>)
    requires DistinctKeys(rows)
    ensures BundleOf(rows) == RemarshalledAll(DocsOf(rows))
  {
    if rows == [] {
      assert RemarshalledAll(map[]) == Some(map[]);
    } else {
      var n := |rows| - 1;
      LastKeyIsNew(rows);
      LoopBuilds(rows[..n]);
      DocsFacts(rows[..n]);
      ExtendRemarshalled(DocsOf(rows[..n]), rows[n].key, rows[n].compiled);
    }
  }

  lemma ExtendRemarshalled(rest: map<string, TreeDoc>, key: string, doc: TreeDoc)
    requires key !in rest
    ensures var m, r, d := rest[key := doc], RemarshalledAll(rest), Remarshalled(doc);
            RemarshalledAll(m) == if r.None? || d.None? then None else Some(r.value[key := d.value])
  {
    var m := rest[key := doc];
    assert m[key] == doc && forall k | k in rest :: k in m && m[k] == rest[k];
    if RemarshalledAll(rest).Some? && Remarshalled(doc).Some? {
      assert (map k | k in m :: Remarshalled(m[k]).value)
          == (map k | k in rest :: Remarshalled(rest[k]).value)[key := Remarshalled(doc).value];
    }
  }

  /** The latest rows of the join, one per flag, stand for the bundle of the project. */
  lemma LatestIsBundle(db: Db, project: Id, rows: seq<LatestRow>, result: seq<LatestRow>)
    requires Good(db) && Referential(db) && Arranges(rows, Joined(db, project)) && LatestRows(rows, result)
    ensures DistinctKeys(result) && DocsOf(result) == Bundle(db, project)
  {
    forall r | r in result ensures IsEntry(db, project, r) {
      assert IsLatest(rows, r);
      LatestIsEntry(db, project, rows, r);
    }
    EntriesHaveDistinctKeys(db, project, result);
    DocsFacts(result);
    forall k | k in Bundle(db, project) ensures k in KeysOf(result) {
      var r := EntryIsLatest(db, project, rows, k);
      assert r in result;
    }
    forall k | k in KeysOf(result) ensures k in Bundle(db, project) && DocsOf(result)[k] == Bundle(db, project)[k] {
      var r :| r in result && r.key == k;
    }
  }

  lemma EntriesHaveDistinctKeys(db: Db, project: Id, rows: seq<LatestRow>)
    requires OnePerFlag(rows) && forall r | r in rows :: IsEntry(db, project, r)
    ensures DistinctKeys(rows)
  {
    forall i, j | 0 <= i < j < |rows| ensures rows[i].key != rows[j].key {
      assert rows[i] in rows && rows[j] in rows;
      assert IsEntry(db, project, rows[i]) && IsEntry(db, project, rows[j]);
    }
  }

  /** The row is what the bundle holds for its key. */
  ghost predicate IsEntry(db: Db, project: Id, r: LatestRow) {
    && (project, r.key) in db.flags && db.flags[(project, r.key)] == r.flag
    && r.key in Bundle(db, project) && Bundle(db, project)[r.key] == r.compiled
  }

  lemma LatestIsEntry(db: Db, project: Id, rows: seq<LatestRow>, r: LatestRow)
    requires Good(db) && Referential(db) && Arranges(rows, Joined(db, project)) && IsLatest(rows, r)
    ensures IsEntry(db, project, r)
  {
    assert r in Joined(db, project);
    var v := JoinedVersion(db, project, r);
    var l := LatestOf(db.versions, r.flag).value;
    var lr := LatestRow(r.key, l.flag, l.version, l.strategy, l.compiled);
    assert lr in Joined(db, project) by { assert (project, r.key) in db.flags && l in db.versions; }
    assert lr in rows && l.version <= r.version;
    GoodIsUnique(db);
    SameVersion(db, v, l);
  }

  lemma EntryIsLatest(db: Db, project: Id, rows: seq<LatestRow>, k: string) returns (r: LatestRow)
    requires Referential(db) && Arranges(rows, Joined(db, project)) && k in Bundle(db, project)
    ensures r.key == k && IsLatest(rows, r)
  {
    var l := LatestOf(db.versions, db.flags[(project, k)]).value;
    r := LatestRow(k, l.flag, l.version, l.strategy, l.compiled);
    assert r in Joined(db, project) by { assert (project, k) in db.flags && l in db.versions; }
    forall w | w in rows && w.flag == r.flag ensures w.version <= r.version {
      assert w in Joined(db, project);
      var v := JoinedVersion(db, project, w);
    }
  }

  /** Both queries, on any arrangement of the join, followed by the loop, give the re-marshalled bundle. */
  lemma QueriesBuildBundle(db: Db, project: Id, sorted: seq<LatestRow>, rows: seq<LatestRow>)
    requires Good(db) && Referential(db)
    requires Arranges(sorted, Joined(db, project)) && Sorted(sorted) && Arranges(rows, Joined(db, project))
    ensures BundleOf(DistinctOn(sorted)) == RemarshalledAll(Bundle(db, project))
    ensures BundleOf(RowNumberOne(rows, rows)) == RemarshalledAll(Bundle(db, project))
  {
    JoinedUnique(db, project, sorted);
    JoinedUnique(db, project, rows);
    DistinctOnSorted(sorted);
    RowNumberIsLatest(rows);
    LatestIsBundle(db, project, sorted, DistinctOn(sorted));
    LatestIsBundle(db, project, rows, RowNumberOne(rows, rows));
    LoopBuilds(DistinctOn(sorted));
    LoopBuilds(RowNumberOne(rows, rows));
  }

  // Such arrangements exist

  predicate Before(a: LatestRow, b: LatestRow) {
    a.flag < b.flag || (a.flag == b.flag && a.version >= b.version)
  }

  lemma AppendLast(s: seq<LatestRow>, x: LatestRow)
    requires Sorted(s) && NoRepeats(s) && forall r | r in s :: Before(r, x) && r != x
    ensures Sorted(s + [x]) && NoRepeats(s + [x])
  {
    forall i | 0 <= i < |s| ensures Before(s[i], x) && s[i] != x { assert s[i] in s; }
  }

  /** Inserting a row into a sorted sequence at its place. */
  lemma {:induction false} InsertSorted(s: seq<LatestRow>, x: LatestRow) returns (t: seq<LatestRow>)
    requires Sorted(s) && x !in s && NoRepeats(s)
    ensures Sorted(t) && NoRepeats(t) && forall r :: r in t <==> r == x || r in s
    decreases |s|
  {
    var n := |s|;
    if n == 0 {
      t := [x];
    } else if Before(s[n - 1], x) {
      forall r | r in s ensures Before(r, x) {
        var i :| 0 <= i < n && s[i] == r;
        if i < n - 1 { assert Before(s[i], s[n - 1]); }
      }
      AppendLast(s, x);
      t := s + [x];
    } else {
      var front := InsertSorted(s[..n - 1], x);
      assert s == s[..n - 1] + [s[n - 1]];
      forall r | r in front ensures Before(r, s[n - 1]) && r != s[n - 1] {
        if r != x {
          var i :| 0 <= i < n - 1 && s[i] == r;
          assert Before(s[i], s[n - 1]);
        }
      }
      AppendLast(front, s[n - 1]);
      t := front + [s[n - 1]];
    }
  }

  lemma {:induction false} SortedArrangement(rows: set<LatestRow>) returns (s: seq<LatestRow>)
    ensures Arranges(s, rows) && Sorted(s)
    decreases |rows|
  {
    s := [];
    if rows != {} {
      var x :| x in rows;
      var rest := SortedArrangement(rows - {x});
      s := InsertSorted(rest, x);
    }
  }
}

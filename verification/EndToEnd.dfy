/** From publish to decision: what clients decide from a committed snapshot is what the server
    decides from the versions it was compiled from. */
module EndToEnd {
  import opened Databases
  import opened JsonValues
  import opened Ir
  import opened Codec
  import opened Segments
  import opened Compile
  import Publish
  import opened Store
  import opened AuditProtocol
  import Queries = SnapshotQueries
  import Sdk = SdkGo
  import Go = GoEval
  import Js = JsEval
  import JsCompile
  import Poll = JsPolling

  // Stored versions come from the publish handler

  ghost predicate PublishedAs(
    env: Env, stored: Stored, fuel: nat, source: Source, s: Strategy, doc: TreeDoc)
  {
    var out := Publish.PublishSource(env, stored, fuel, s, source);
    out.Published? && out.persisted == doc
  }

  /** Some publish, against whatever segments existed then, persisted this document. */
  ghost predicate FromPublish(env: Env, s: Strategy, doc: TreeDoc) {
    exists stored: Stored, fuel: nat, source: Source :: PublishedAs(env, stored, fuel, source, s, doc)
  }

  ghost predicate AllPublished(env: Env, db: Db) {
    forall v | v in db.versions :: FromPublish(env, v.strategy, v.compiled)
  }

  ghost predicate HonestOp(env: Env, op: Op) {
    op.PublishVersion? ==> FromPublish(env, op.strategy, op.compiled)
  }

  /** Every publish request that arrives carries what the handler compiled. */
  ghost predicate Honest(env: Env, moves: seq<Move>) {
    forall m | m in moves && m.Arrive? :: HonestOp(env, m.op)
  }

  ghost predicate HonestSys(env: Env, s: Sys) {
    && (forall c | c in s.calls :: HonestOp(env, s.calls[c].op))
    && (forall e | e in s.shared.log :: HonestOp(env, e.op))
  }

  lemma MoveKeepsHonest(env: Env, s: Sys, m: Move)
    requires HonestSys(env, s) && Moved(s, m).Some? && (m.Arrive? ==> HonestOp(env, m.op))
    ensures HonestSys(env, Moved(s, m).value)
  {
    if m.Advance? {
      var (shared, call) := Step(s.shared, m.c, s.calls[m.c], m.ev).value;
      assert HonestOp(env, call.op);
      assert shared.log == s.shared.log || shared.log == s.shared.log + [Entry(m.c, s.calls[m.c].op)];
    }
  }

  lemma {:induction false} RunKeepsHonest(env: Env, s: Sys, moves: seq<Move>)
    requires HonestSys(env, s) && Honest(env, moves) && Run(s, moves).Some?
    ensures HonestSys(env, Run(s, moves).value)
  {
    if moves != [] {
      var front, last := moves[..|moves| - 1], moves[|moves| - 1];
      assert last in moves && forall m | m in front :: m in moves;
      RunKeepsHonest(env, s, front);
      MoveKeepsHonest(env, Run(s, front).value, last);
    }
  }

  lemma AtomicKeepsPublished(env: Env, db: Db, e: Entry)
    requires AllPublished(env, db) && HonestOp(env, e.op) && Atomic(db, e.caller, e.op).Some?
    ensures AllPublished(env, Atomic(db, e.caller, e.op).value)
  {
  }

  lemma {:induction false} HistoryPublished(env: Env, s: Shared, i: nat)
    requires Linear(s) && i <= |s.log| && AllPublished(env, s.history[0])
    requires forall e | e in s.log :: HonestOp(env, e.op)
    ensures AllPublished(env, s.history[i])
  {
    if i > 0 {
      var j := i - 1;
      HistoryPublished(env, s, j);
      assert s.log[j] in s.log && Atomic(s.history[j], s.log[j].caller, s.log[j].op) == Some(s.history[j + 1]);
      AtomicKeepsPublished(env, s.history[j], s.log[j]);
    }
  }

  // What a persisted document is good for

  lemma PublishedDocument(env: Env, s: Strategy, doc: TreeDoc) returns (c: Compiled)
    requires FromPublish(env, s, doc)
    ensures CompileSource(env, s, Document(doc)) == Ok(c) && Accepted(env, c) && c.strategy == s
    ensures CompileSource(env, StrategyCel, Document(doc)) == Ok(c.(strategy := StrategyCel))
    ensures doc == EncodeTree(c.ir) && DecodeTree(doc) == Ok(c.ir) && Queries.Remarshalled(doc) == Some(doc)
  {
    var stored: Stored, fuel: nat, source: Source :| PublishedAs(env, stored, fuel, source, s, doc);
    Publish.PublishedIsStable(env, stored, fuel, s, source);
    c := Publish.PublishSource(env, stored, fuel, s, source).compiled;
    CompileAccepts(env, s, Document(doc));
    RuleErrorsMeaning(env, c.ir.RuleSeq(), AllowsCel(s));
    TreeRoundTripIff(c.ir);
  }

  /** The server's answer for a flag: its latest version, recompiled and evaluated. */
  function ServerAnswer(env: Env, db: Db, flag: Id, ctx: Ctx): Option<Decision> {
    var v := LatestOf(db.versions, flag);
    if v.None? then None else Sdk.ServerDecision(env, v.value.strategy, v.value.compiled, ctx, v.value.version)
  }

  function SdkAnswer(env: Env, id: string, row: SnapshotRow, key: string, ctx: Ctx): Decision {
    Sdk.SdkDecision(env, Some(Sdk.Snapshot(id, row.version, Sdk.Loaded(env, row.bundle))), key, ctx)
  }

  /** The Go client's decision is the server's, with the snapshot's version in place of the flag's. */
  ghost predicate EntryDecides(env: Env, db: Db, row: SnapshotRow, key: string, id: string, ctx: Ctx) {
    (row.project, key) in db.flags &&
    var server := ServerAnswer(env, db, db.flags[(row.project, key)], ctx);
    server.Some? && SdkAnswer(env, id, row, key, ctx) == server.value.(version := row.version)
  }

  /** Reading the snapshot, the Go client keeps every flag, and decides each one on every context as
      the server does from state `db`. */
  ghost predicate DecidesAs(env: Env, db: Db, row: SnapshotRow) {
    && Sdk.Loaded(env, row.bundle).Keys == row.bundle.Keys
    && forall key, id: string, ctx: Ctx | key in row.bundle :: EntryDecides(env, db, row, key, id, ctx)
  }

  lemma OneDecides(env: Env, db: Db, row: SnapshotRow, key: string, id: string, ctx: Ctx)
    requires AllPublished(env, db) && row.bundle == Bundle(db, row.project) && key in row.bundle
    ensures key in Sdk.Loaded(env, row.bundle) && EntryDecides(env, db, row, key, id, ctx)
  {
    var v := LatestOf(db.versions, db.flags[(row.project, key)]).value;
    var c := PublishedDocument(env, v.strategy, v.compiled);
    Sdk.EvaluatedIgnoresStrategy(env, c, StrategyCel, ctx, v.version, row.version);
  }

  lemma BundleDecides(env: Env, db: Db, row: SnapshotRow)
    requires AllPublished(env, db) && row.bundle == Bundle(db, row.project)
    ensures DecidesAs(env, db, row)
  {
    forall key | key in row.bundle ensures key in Sdk.Loaded(env, row.bundle) {
      OneDecides(env, db, row, key, "", map[]);
    }
    forall key, id: string, ctx: Ctx | key in row.bundle ensures EntryDecides(env, db, row, key, id, ctx) {
      OneDecides(env, db, row, key, id, ctx);
    }
  }

  /** Decoding and re-marshalling its documents leaves a bundle of published versions as it is. */
  lemma BundleIsFixed(env: Env, db: Db, project: Id)
    requires AllPublished(env, db)
    ensures Queries.RemarshalledAll(Bundle(db, project)) == Some(Bundle(db, project))
  {
    var m := Bundle(db, project);
    forall key | key in m ensures Queries.Remarshalled(m[key]) == Some(m[key]) {
      var v := LatestOf(db.versions, db.flags[(project, key)]).value;
      var c := PublishedDocument(env, v.strategy, v.compiled);
    }
    assert (map k | k in m :: Queries.Remarshalled(m[k]).value) == m;
  }

  /** The `i`-th commit stored the bundle that the loop builds from the state before the `k`-th, and
      clients decide from it as the server did then. */
  ghost predicate ServesState(env: Env, s: Shared, call: Call, i: nat, k: nat) {
    && SnapshotOf(s, call, i, k)
    && DecidesAs(env, s.history[k], call.captured.value.s)
    && Queries.RemarshalledAll(Bundle(s.history[k], call.captured.value.s.project))
    == Some(call.captured.value.s.bundle)
  }

  lemma SnapshotServes(env: Env, s: Shared, call: Call, i: nat, k: nat)
    requires SnapshotOf(s, call, i, k) && AllPublished(env, s.history[k])
    ensures ServesState(env, s, call, i, k)
  {
    BundleDecides(env, s.history[k], call.captured.value.s);
    BundleIsFixed(env, s.history[k], call.captured.value.s.project);
  }

  lemma RunPublished(env: Env, backend: Backend, db: Db, moves: seq<Move>, k: nat)
    requires Run(Start(backend, db), moves).Some? && Honest(env, moves) && AllPublished(env, db)
    requires k < |Run(Start(backend, db), moves).value.shared.history|
    ensures AllPublished(env, Run(Start(backend, db), moves).value.shared.history[k])
  {
    ReachableInv(backend, db, moves);
    HistoryStart(Start(backend, db), moves);
    RunKeepsHonest(env, Start(backend, db), moves);
    HistoryPublished(env, Run(Start(backend, db), moves).value.shared, k);
  }

  /** In every interleaving of publishes and snapshot compiles, each committed snapshot makes the Go
      client decide as the server did at one state between the snapshot's request and its commit. */
  lemma SnapshotsDecideAsServer(env: Env, backend: Backend, db: Db, moves: seq<Move>, c: Id)
    requires Run(Start(backend, db), moves).Some? && Honest(env, moves) && AllPublished(env, db)
    requires c in Run(Start(backend, db), moves).value.calls
    requires var call := Run(Start(backend, db), moves).value.calls[c];
             call.phase == Succeeded && call.op.CompileSnapshot?
    ensures var s := Run(Start(backend, db), moves).value;
            var call := s.calls[c];
            exists i, k ::
              CommittedAt(s.shared, c, call, i) && call.arrived <= k && ServesState(env, s.shared, call, i, k)
  {
    SnapshotsAreConsistent(backend, db, moves, c);
    var s := Run(Start(backend, db), moves).value;
    var call := s.calls[c];
    var i, k :| CommittedAt(s.shared, c, call, i) && call.arrived <= k && SnapshotOf(s.shared, call, i, k);
    RunPublished(env, backend, db, moves, k);
    SnapshotServes(env, s.shared, call, i, k);
  }

  /** In every state of every run both latest-version queries, on any arrangement of the joined rows and
      followed by the bundle loop, build the re-marshalled flag-to-highest-version map of the project. */
  lemma QueriesInEveryRun(
    backend: Backend, db: Db, moves: seq<Move>, k: nat, project: Id,
    sorted: seq<Queries.LatestRow>, rows: seq<Queries.LatestRow>)
    requires Good(db) && Referential(db) && Run(Start(backend, db), moves).Some?
    requires k < |Run(Start(backend, db), moves).value.shared.history|
    requires var h := Run(Start(backend, db), moves).value.shared.history[k];
             && Queries.Arranges(sorted, Queries.Joined(h, project)) && Queries.Sorted(sorted)
             && Queries.Arranges(rows, Queries.Joined(h, project))
    ensures var h := Run(Start(backend, db), moves).value.shared.history[k];
            && Queries.BundleOf(Queries.DistinctOn(sorted)) == Queries.RemarshalledAll(Bundle(h, project))
            && Queries.BundleOf(Queries.RowNumberOne(rows, rows)) == Queries.RemarshalledAll(Bundle(h, project))
  {
    VersionsStayDense(backend, db, moves, k);
    ReferencesStayValid(backend, db, moves, k);
    Queries.QueriesBuildBundle(Run(Start(backend, db), moves).value.shared.history[k], project, sorted, rows);
  }

  /** And where every version was published, that is the map itself, as the snapshot step reads it. */
  lemma PublishedQueriesInEveryRun(
    env: Env, backend: Backend, db: Db, moves: seq<Move>, k: nat, project: Id,
    sorted: seq<Queries.LatestRow>, rows: seq<Queries.LatestRow>)
    requires Good(db) && Referential(db) && Run(Start(backend, db), moves).Some?
    requires Honest(env, moves) && AllPublished(env, db)
    requires k < |Run(Start(backend, db), moves).value.shared.history|
    requires var h := Run(Start(backend, db), moves).value.shared.history[k];
             && Queries.Arranges(sorted, Queries.Joined(h, project)) && Queries.Sorted(sorted)
             && Queries.Arranges(rows, Queries.Joined(h, project))
    ensures var h := Run(Start(backend, db), moves).value.shared.history[k];
            && Queries.BundleOf(Queries.DistinctOn(sorted)) == Some(Bundle(h, project))
            && Queries.BundleOf(Queries.RowNumberOne(rows, rows)) == Some(Bundle(h, project))
  {
    QueriesInEveryRun(backend, db, moves, k, project, sorted, rows);
    RunPublished(env, backend, db, moves, k);
    BundleIsFixed(env, Run(Start(backend, db), moves).value.shared.history[k], project);
  }

  // The browser

  /** A version published from a document holds no reference, whatever the strategy. */
  lemma DocumentVersionIsSegmentFree(env: Env, stored: Stored, fuel: nat, d: TreeDoc, s: Strategy, doc: TreeDoc)
    requires PublishedAs(env, stored, fuel, Document(d), s, doc)
    ensures DecodeTree(doc).Ok? && SegmentFreeTree(DecodeTree(doc).value)
  {
    assert DecodeTree(d).Ok?;
    Publish.PublishedTree(env, stored, fuel, s, d);
    var c := PublishedDocument(env, s, doc);
    Publish.PublishedIsStable(env, stored, fuel, s, Document(d));
  }

  /** The JavaScript client that compiled a published version without CEL and references decides it as
      the server does, whatever its strategy, on the trees and contexts that the cross-runtime law covers. */
  lemma BrowserDecidesAsServer(
    env: Env, v: VersionRow, snapVersion: int, ctx: Ctx, compiled: JsCompile.JsCompiled)
    requires FromPublish(env, v.strategy, v.compiled)
    requires DecodeTree(v.compiled) == Ok(compiled.ir) && JsCompile.CompileTree(compiled.ir) == Some(compiled)
    requires RuleSources(compiled.ir.RuleSeq()) == {} && SegmentFreeTree(compiled.ir)
    requires forall r | r in compiled.ir.RuleSeq() :: PortableLeaves(env, r.when)
    requires Js.TreeReadsNoArray(compiled.ir, ctx)
    ensures var server := Sdk.ServerDecision(env, v.strategy, v.compiled, ctx, v.version);
            && server.Some?
            && Js.EvaluateFrom(env, compiled.ir, ctx, compiled.programs, snapVersion, 0)
            == server.value.(version := snapVersion)
  {
    var c := PublishedDocument(env, v.strategy, v.compiled);
    ServerAndBrowserAgree(env, c, ctx, compiled.programs, snapVersion);
    Sdk.EvaluatedIgnoresStrategy(env, c, c.strategy, ctx, v.version, snapVersion);
  }

  /** A reference emitted by TypeScript is published and loaded by the JavaScript client, and then the
      runtimes differ on every context: Go answers an error, JavaScript the default. */
  lemma SurvivingReferenceDiffers(
    env: Env, stored: Stored, fuel: nat, key: string, ctx: Ctx, js: Js.CelLite, version: int)
    requires key != ""
    ensures var source := TypeScript(Some(EncodeTree(OneRule(Ref(key)).ir)));
            var out := Publish.PublishSource(env, stored, fuel, StrategyTypeScript, source);
            && out.Published? && JsCompile.CompileTree(out.compiled.ir).Some?
            && Go.Evaluated(env, out.compiled, ctx, version).reason == ByError
            && Js.EvaluateFrom(env, out.compiled.ir, ctx, js, version, 0).reason == ByDefault
  {
    var c := OneRule(Ref(key));
    SurvivingSegment(env, StrategyTypeScript, key, ctx);
    OneRuleDecides(env, Ref(key), ctx, js, version);
    Sdk.EvaluatedIgnoresStrategy(env, c, StrategyTypeScript, ctx, version, version);
    assert JsCompile.SourcesOfAll([]) == {} && JsCompile.Sources(Ref(key)) == {};
    assert c.ir.RuleSeq()[1..] == [] && JsCompile.RuleSources([]) == {};
    assert JsCompile.RuleSources(c.ir.RuleSeq()) == {};
  }

  /** A document without rules is published, persisted with `null` rules and kept by the Go client;
      a response that holds it is lost to the JavaScript client, with all its other flags. */
  lemma MissingRulesLoseResponse(
    env: Env, stored: Stored, fuel: nat, s: Strategy, id: string, version: int, key: string,
    docs: map<string, TreeDoc>, flags: map<string, RulesTree>)
    requires key in flags && key in docs && DecodeTree(docs[key]) == Ok(flags[key])
    requires PublishedAs(env, stored, fuel, Document(TreeDoc(Some(TBoolean), Some(Bool(false)), None)), s, docs[key])
    ensures key in Sdk.Loaded(env, docs)
    ensures Poll.Loaded(JsCompile.Received(id, version, flags)) == None
  {
    var c := PublishedDocument(env, s, docs[key]);
    JsCompile.ResponseLoadsIff(id, version, flags);
    Publish.PublishAccepts(env, stored, fuel, s, TreeDoc(Some(TBoolean), Some(Bool(false)), None));
    assert c.ir.rules.None?;
  }

  /** And such a document always is published. */
  lemma MissingRulesArePublished(env: Env, stored: Stored, fuel: nat, s: Strategy)
    ensures Publish.PublishSource(
              env, stored, fuel, s, Document(TreeDoc(Some(TBoolean), Some(Bool(false)), None))).Published?
  {
    Publish.PublishAccepts(env, stored, fuel, s, TreeDoc(Some(TBoolean), Some(Bool(false)), None));
  }
}

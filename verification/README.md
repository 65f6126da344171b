# FalseFlag in Dafny

A model of FalseFlag's core, with proofs. FalseFlag compiles flag rules to a predicate tree, inlines
stored segments into it, evaluates the tree in a Go and in a JavaScript runtime, stores versions and
snapshots in audited transactions, and ships snapshots to polling clients.

`dafny verify dfyconfig.toml` checks every file. Nothing was executed: all results are statements about
the model, for all inputs, all interleavings or all reachable states.

## Files

| file | what it models |
|---|---|
| `JsonValues`, `Ir`, `Codec` | JSON values and dotted paths, the rules tree, its omitempty document form |
| `Rollout` | FNV-1a 64 (section 2 of draft-eastlake-fnv), buckets and the percent gate, in both runtimes |
| `GoEval`, `Trace`, `TraceFaithful` | the Go evaluator, its explained form, and when the two agree |
| `JsEval` | the JavaScript evaluator and its agreement with the Go one |
| `Monotone` | raising rollout percents |
| `Compile`, `LiveLeaves`, `Segments`, `SegmentsInPlace`, `Publish` | validation and compilers, segment inlining as a function and in place on the heap, the publish handler |
| `CelSyntax`, `CelLexer`, `CelParser`, `CelGrammar`, `CelEval`, `CelPredicates` | cel-lite: lexer, parser object, grammar, evaluator, and the predicate trees that say the same |
| `Databases`, `Store`, `AuditProtocol`, `AuditRetry`, `SnapshotQueries` | tables, `WithAudit` under all interleavings and as a retry loop, the latest-version queries and the bundle |
| `AuditPaging` | the audit log's keyset pagination |
| `SdkGo`, `JsCompile`, `JsPolling` | the two polling clients |
| `EndToEnd` | publish, store, snapshot and client decision joined |

Loops, in-place updates and objects of the source are methods and classes, each proved against a function;
the laws are lemmas about those functions. `WithAudit` under concurrency is a state machine whose moves are
the steps of any number of callers.

## Assumptions

- A Postgres commit succeeds only if the rows the transaction read are unchanged and no unique index is
  violated; a SQLite transaction holds the writer lock; a commit that fails changes nothing.
- cel-go and the two regular-expression engines are functions of their text and input that may report an
  error (`Ir.Env`). No law assumes anything else about them; the cross-runtime law asks for the same answers
  on the patterns of the tree.
- JSON numbers are exact reals and objects are finite maps without key order.
- Segment laws that promise an end ask that the tree reaches no cycle of references, which the code does not
  enforce. `fuel` cuts off after so many nested expansions and is not part of any answer (`Segments.FuelMonotone`,
  `Segments.MeaningIsStable`). The code has no cut-off: where every fuel runs out it recurses until the request
  context is cancelled or the stack overflows.
- The page walk asks for keys that only grow between pages. `WalkIsComplete` says for every limit of at least 1
  exactly when it is complete; `PanicsIff` covers the limits below 1.
- `EndToEnd` asks that publish calls carry what the publish handler compiled, as the handler's closure does.
- `Good(db)` and `Referential(db)` are asked of the database a run starts from; the empty one has both.

## Where the code departs from its comments or documentation

The model follows the code. Each point has a lemma.

- `internal/eval/trace.go:45` promises the decision of `Evaluate`. An accepted tree breaks it (`TraceDiffers`). It
  is kept if and only if the rule that decides `Evaluate` records no error in the trace, or the rule traced
  instead is a twin of it (`TraceSameDecisionIff`); `TraceIsFaithful` gives a class of trees on which it is kept.
- `internal/config/json.go:123-126` says a surviving segment reference fails in the compiler. No compiler tells one
  from `always` (`ReferencesAreInvisible`, `SurvivingSegment`). So `internal/config/ir.go:60-62`, that the kind never
  appears in persisted form, holds of a published source exactly if it is a document or TypeScript emitted none
  (`PublishedSegmentFreeIff`, `TypeScriptSegmentSurvives`).
- `internal/config/predicate.go:27-29` says stored segments cannot reference segments. The write handler looks
  only at the root; a self-reference below it is stored, and a publish that uses it
  recurses until its request context is cancelled or its stack overflows (`SelfReferenceIsStored`).
- The compilers reject a missing default or rule value. The publish handler re-marshals first, which turns the
  missing value into `null`, so it is accepted (`PublishAccepts`, `MissingDefaultIsPublished`).
- A tree without rules is persisted with `null` rules. The Go client keeps it; the JavaScript client loses every
  response that contains it (`MissingRulesLoseResponse`). The same happens with a CEL text that cel-lite does
  not compile, while the Go client drops only a flag it cannot compile (`ResponseLoadsIff`, `LoadFlags`).
- `internal/eval/rollout.go:1-4` asks for identical behaviour in both runtimes. Apart from CEL, pattern
  dialects and operands with objects, accepted trees break it in three ways. A `null`
  prefix of `starts_with` matches in Go and throws in JavaScript (`NullPrefixDiffers`). Array elements are reachable
  only in JavaScript (`ArrayPathDiffers`). A published reference is an error in Go and the default in JavaScript
  (`SurvivingReferenceDiffers`). `LeafAgreesIff` says for every leaf exactly when the runtimes agree, and
  `LookupAgreesIff` for every path.
- `Decision.version` is the flag version on the server and the snapshot version in the Go client, so agreement
  is stated up to that field (`SnapshotsDecideAsServer`).
- The audit handler indexes `rows[limit-1]` unguarded (`PanicsIff`), and at limit 2^31-1 its look-ahead wraps around
  (`LargestLimit`).
- Validation does not look at the kind of an operand: `gt` with a string is valid and never matches
  (`DecidesIffFits`).
- cel-lite parses `!` looser than the relational operators, unlike the Syntax section of the CEL language
  definition (`BangNegatesRelation`).
- A second `start()` of the JavaScript client leaks a timer past `stop()` (`StartNeedsIdle`,
  `SecondStartLeaksTimer`).

## Model

| member | source | states |
|---|---|---|
| `EndToEnd.SnapshotsDecideAsServer` | internal/server/handlers/snapshots.go:111-170 | In every interleaving of publishes, flag creations and snapshot compiles, each committed snapshot holds what the bundle loop builds from one state between its request and its commit, and the Go client reading it keeps every flag and decides each one on every context as the server does from that state, with the snapshot version in place of the flag version |
| `EndToEnd.BrowserDecidesAsServer` | js/packages/sdk-js/src/client.ts:109-136 | The JavaScript client that compiled a published version of any strategy, without CEL and references, decides it exactly as the server does, version number apart, on portable trees and contexts whose arrays the tree's paths do not enter |
| `EndToEnd.RunPublished` | internal/server/handlers/flags.go:158-200 | In every state of every run in which publish requests carry what the handler compiled, every stored version is the persisted form of some publish |
| `EndToEnd.HistoryPublished` | internal/server/handlers/flags.go:158-200 | The same over the linear history of a reachable state |
| `EndToEnd.RunKeepsHonest` | internal/server/handlers/flags.go:180-200 | Through any sequence of moves, no step turns an operation into one that no publish produced |
| `EndToEnd.MoveKeepsHonest` | internal/server/handlers/flags.go:180-200 | One move of the protocol keeps that |
| `EndToEnd.AtomicKeepsPublished` | internal/store/pg_flags.go:63-81 | The atomic append of a published document keeps all stored versions published ones |
| `EndToEnd.PublishedDocument` | internal/server/handlers/evaluate.go:75 | A persisted document recompiles under its own strategy and under CEL to the same tree and programs, and re-marshalling it changes nothing |
| `EndToEnd.OneDecides` | internal/sdkgo/sdkgo.go:231-245 | For one flag of a bundle, the Go client loads it and its decision is the server decision with the snapshot version |
| `EndToEnd.BundleDecides` | internal/sdkgo/sdkgo.go:195-245 | The Go client drops no flag of a bundle of published versions and agrees with the server on all of them, for every context |
| `EndToEnd.BundleIsFixed` | internal/server/handlers/snapshots.go:162-168 | Decoding and re-marshalling every document of a bundle of published versions gives the same bundle |
| `EndToEnd.SnapshotServes` | internal/server/handlers/snapshots.go:156-170 | Both facts hold of the snapshot row that a commit stored |
| `EndToEnd.QueriesInEveryRun` | internal/server/handlers/snapshots.go:156-170 | In every state of every run both latest-version queries, followed by the bundle loop, build the re-marshalled flag-to-highest-version map |
| `EndToEnd.PublishedQueriesInEveryRun` | internal/server/handlers/snapshots.go:156-170 | Where every version was published, that is the map itself, as stored in the snapshot |
| `EndToEnd.DocumentVersionIsSegmentFree` | internal/server/handlers/flags.go:150-171 | A version published from a document holds no segment reference, whatever the strategy |
| `EndToEnd.MissingRulesArePublished` | internal/server/handlers/flags.go:150-171 | A document without a rules member passes publish under every strategy and against any segments |
| `EndToEnd.MissingRulesLoseResponse` | js/packages/sdk-js/src/evaluator.ts:13-20 | That document is persisted with null rules: the Go client keeps it, and a response that holds it never replaces the JavaScript cache |
| `AuditProtocol.VersionsStayDense` | internal/store/pg_flags.go:63-81 | In every interleaving on either backend, with any aborts and retries, and in every state the database goes through, each flag numbers its versions exactly 1..n and each project its snapshots exactly 1..n |
| `AuditProtocol.StepRefinesAtomic` | internal/store/pg_audit.go:105-146 | Every step of every run, on Postgres and on SQLite, either leaves the tables alone or is one atomic append of the mutation row and its audit row |
| `AuditProtocol.CallsAreAtomic` | internal/store/pg_audit.go:105-146 | A call that returned success committed once and its handler variable holds the row of the attempt that committed; a call that failed or has not returned left no row; no callback ran more than nine times |
| `AuditProtocol.OneAuditRowPerCommit` | internal/store/pg_audit.go:139-141 | The audit table grows by exactly the committed calls, in commit order, one row each, no caller twice |
| `AuditProtocol.SnapshotsAreConsistent` | internal/server/handlers/snapshots.go:111-146 | Each committed snapshot stores the flag-to-highest-version map of a state between the arrival of its request and its commit |
| `AuditProtocol.SnapshotsSeePublishes` | internal/server/handlers/snapshots.go:111-146 | A publish that committed before a snapshot was requested is in that snapshot, or a newer version of its flag is |
| `AuditProtocol.PublishIsShown` | internal/server/handlers/snapshots.go:156-170 | From the commit of a publish on, every bundle shows that version of the flag or a newer one |
| `AuditProtocol.HistoryGrows` | internal/store/pg_audit.go:105-146 | Along the history no version and no flag is lost |
| `AuditProtocol.ReferencesStayValid` | internal/db/flags.sql.go:220-231 | In every state of every run each version belongs to an existing flag and no flag id stands for two keys |
| `AuditProtocol.ReachableInv` | internal/store/pg_audit.go:105-146 | The protocol invariant holds in every reachable state |
| `AuditProtocol.RunKeepsInv` | internal/store/pg_audit.go:105-146 | Any sequence of moves keeps the invariant |
| `AuditProtocol.MoveKeepsInv` | internal/store/pg_audit.go:105-146 | One move keeps the invariant: linear history, callback bound, captured row, bundle moment, writer lock |
| `AuditProtocol.CommitIsAtomic` | internal/store/pg_audit.go:142-144 | At commit the row computed earlier, on a possibly older view, is the row an atomic step would insert now, and it is the captured one |
| `AuditProtocol.CommitLinear` | internal/store/pg_audit.go:142-144 | A commit extends the linear history by one atomic step and loses no flag |
| `AuditProtocol.OwnCallKept` | internal/store/sqlite_audit.go:95-129 | A step that is not a commit changes nothing shared but the caller's own writer lock and keeps the caller's part of the invariant |
| `AuditProtocol.OwnCommitKept` | internal/store/pg_audit.go:142-144 | A commit keeps the committing caller's part of the invariant |
| `AuditProtocol.OtherCallKept` | internal/store/sqlite_audit.go:95-129 | Steps that do not commit leave every other caller's part of the invariant alone |
| `AuditProtocol.OtherCallKeptByCommit` | internal/store/pg_audit.go:142-144 | So do commits |
| `AuditProtocol.InsertGrows` | internal/store/pg_flags.go:63-81 | Inserting a row loses no flag |
| `AuditProtocol.HistoryStart` | internal/store/pg_audit.go:105-146 | The recorded history always begins with the state the run started in |
| `AuditProtocol.HistoryGood` | internal/store/pg_flags.go:63-81 | Dense numbering holds at every point of a linear history that starts densely numbered |
| `AuditProtocol.HistoryReferential` | internal/db/flags.sql.go:220-231 | Referential integrity holds at every point of a linear history that starts with it |
| `AuditProtocol.AuditOfHistory` | internal/store/pg_audit.go:139-141 | At every point of the history the audit table is the initial one plus the rows of the commits so far |
| `AuditProtocol.SucceededCommitted` | internal/store/pg_audit.go:142-146 | Of a successful call, the commit that inserted its row and audit row together |
| `Store.NextVersion` | internal/db/flags.sql.go:220-231 | The next number is above every listed one and is 1 or one more than a listed one |
| `Store.NextOfDense` | internal/db/flags.sql.go:220-231 | On numbers 1..n the next one is n+1 |
| `Store.AtomicKeepsGood` | internal/store/pg_tx.go:94-110 | The atomic step keeps both numberings dense |
| `Store.AtomicKeepsReferential` | internal/store/pg_flags.go:63-81 | The atomic step keeps referential integrity |
| `Store.ValidatedIsAtomic` | internal/store/pg_audit.go:128-146 | If validation passes, the row computed on the transaction's view is the row computed on the current state |
| `Store.FlagsGrowValues` | internal/store/pg_flags.go:63-81 | A flag id seen by an earlier view still exists |
| `Store.StalePublishBreaksNumbering` | internal/store/pg_flags.go:63-81 | Inserting a version computed on another dense view keeps the numbering dense if and only if the commit validation would pass |
| `Store.LatestOf` | internal/db/flags.sql.go:123-129 | The latest version of a flag is a row of that flag with the highest number, and is absent only if the flag has no row |
| `AuditRetry.Database.constructor` | internal/store/pg_audit.go:105-126 | A database starts with the given tables |
| `AuditRetry.Database.Interfere` | internal/store/pg_audit.go:105-126 | Other callers' commits apply their atomic steps in order |
| `AuditRetry.Database.WithAuditOnce` | internal/store/pg_audit.go:128-146 | One transaction: on success the tables are the others' steps followed by this call's atomic step, and the captured row is the one inserted; on any fault the tables are the others' steps alone |
| `AuditRetry.Database.WithAudit` | internal/store/pg_audit.go:105-126 | The retry loop: whatever faults occur and others commit, the whole effect is theirs plus, on success only, one atomic step whose row the handler holds; at most nine attempts, each after one that failed retryably, and a retryable error is returned only after nine or on cancellation |
| `AuditRetry.OthersConcat` | internal/store/pg_audit.go:105-126 | Applying two lists of other callers' steps in turn is applying their concatenation |
| `AuditRetry.OthersGrow` | internal/store/pg_audit.go:128-146 | Other callers' steps lose no flag |
| `SnapshotQueries.DistinctOnSorted` | internal/db/snapshots.sql.go:95-107 | On rows sorted by flag and descending version, with (flag, version) unique, DISTINCT ON returns exactly the highest-version row of each flag, each once |
| `SnapshotQueries.DistinctOnStep` | internal/db/snapshots.sql.go:95-107 | Adding the next sorted row keeps the selection exact |
| `SnapshotQueries.RowNumberIsLatest` | internal/db/sqlite/snapshots.sql.go:93-115 | On rows in any order, with (flag, version) unique, ROW_NUMBER = 1 returns exactly the same rows |
| `SnapshotQueries.RowNumberOneRows` | internal/db/sqlite/snapshots.sql.go:93-115 | Of any part of the table, ROW_NUMBER = 1 keeps exactly the latest rows, one per flag |
| `SnapshotQueries.AboveZero` | internal/db/sqlite/snapshots.sql.go:109 | A row has number 1 if and only if no row of its partition has a higher version |
| `SnapshotQueries.GoodIsUnique` | internal/db/flags.sql.go:220-231 | Dense numbering makes (flag, version) unique, which the queries rely on |
| `SnapshotQueries.CompileBundle` | internal/server/handlers/snapshots.go:156-170 | The loop builds the map from key to re-marshalled document of its rows, or fails if one does not decode |
| `SnapshotQueries.EntryIsLatest` | internal/db/snapshots.sql.go:95-107 | Every bundle entry is a latest row of the join |
| `SnapshotQueries.LatestIsEntry` | internal/db/snapshots.sql.go:95-107 | Every latest row of the join is the bundle entry of its key |
| `SnapshotQueries.JoinedVersion` | internal/db/snapshots.sql.go:103-105 | Every joined row comes from one version and from the flag of the project with its key |
| `SnapshotQueries.JoinedUnique` | internal/db/snapshots.sql.go:103-105 | Dense numbering and referential integrity make (flag, version) unique in the join |
| `SnapshotQueries.LatestIsBundle` | internal/db/snapshots.sql.go:95-107 | The latest rows of the join have distinct keys and stand for the flag-to-highest-version map |
| `SnapshotQueries.LoopBuilds` | internal/server/handlers/snapshots.go:161-169 | On rows with distinct keys the loop builds their re-marshalled map, whatever the order |
| `SnapshotQueries.QueriesBuildBundle` | internal/db/sqlite/snapshots.sql.go:93-115 | Either query, join and filter included, followed by the loop, gives the re-marshalled flag-to-highest-version map of the project |
| `SnapshotQueries.SortedArrangement` | internal/db/snapshots.sql.go:106 | Every set of joined rows has the sorted arrangement the query asks for |
| `CelGrammar.ParsesIffDerives` | js/packages/sdk-js/src/cel-lite.ts:122-252 | An eof-terminated token list parses to an expression if and only if the five-level grammar, with left-associative or and and, derives that expression from it |
| `CelGrammar.Unambiguous` | js/packages/sdk-js/src/cel-lite.ts:122-252 | No token list derives two expressions |
| `CelGrammar.NeverPastEnd` | js/packages/sdk-js/src/cel-lite.ts:126-135 | On every eof-terminated list the past-end errors are unreachable |
| `CelGrammar.BangNegatesRelation` | js/packages/sdk-js/src/cel-lite.ts:178-203 | ! in front of a comparison negates the whole comparison |
| `CelGrammar.OrSound` | js/packages/sdk-js/src/cel-lite.ts:160-167 | What parseOr consumed derives what it returned |
| `CelGrammar.AndSound` | js/packages/sdk-js/src/cel-lite.ts:169-176 | The same for parseAnd |
| `CelGrammar.NotSound` | js/packages/sdk-js/src/cel-lite.ts:178-183 | The same for parseNot |
| `CelGrammar.RelSound` | js/packages/sdk-js/src/cel-lite.ts:185-203 | The same for parseRel |
| `CelGrammar.PrimSound` | js/packages/sdk-js/src/cel-lite.ts:205-251 | The same for parsePrimary |
| `CelGrammar.ListSound` | js/packages/sdk-js/src/cel-lite.ts:213-222 | The same for list literals |
| `CelGrammar.OrFound` | js/packages/sdk-js/src/cel-lite.ts:160-167 | parseOr finds every Or derivation that the next token cannot extend, at its exact end |
| `CelGrammar.AndFound` | js/packages/sdk-js/src/cel-lite.ts:169-176 | parseAnd finds every And derivation that the next token cannot extend |
| `CelGrammar.NotComplete` | js/packages/sdk-js/src/cel-lite.ts:178-183 | parseNot finds every Not derivation that the next token cannot extend |
| `CelGrammar.RelComplete` | js/packages/sdk-js/src/cel-lite.ts:185-203 | parseRel finds every Rel derivation that the next token cannot extend |
| `CelGrammar.PrimComplete` | js/packages/sdk-js/src/cel-lite.ts:205-251 | parsePrimary finds every Primary derivation not followed by a dot |
| `CelGrammar.ItemsComplete` | js/packages/sdk-js/src/cel-lite.ts:216-220 | The item loop collects every derivable item list, in order |
| `CelGrammar.PathComplete` | js/packages/sdk-js/src/cel-lite.ts:239-249 | The dot loop collects every path, in order |
| `CelGrammar.OrInside` | js/packages/sdk-js/src/cel-lite.ts:126-135 | From any position inside an eof-terminated list, parseOr neither fails past the end nor steps over the eof |
| `CelGrammar.AndInside` | js/packages/sdk-js/src/cel-lite.ts:169-176 | The same for parseAnd |
| `CelGrammar.NotInside` | js/packages/sdk-js/src/cel-lite.ts:178-183 | The same for parseNot |
| `CelGrammar.RelInside` | js/packages/sdk-js/src/cel-lite.ts:185-203 | The same for parseRel |
| `CelGrammar.PrimaryInside` | js/packages/sdk-js/src/cel-lite.ts:205-251 | The same for parsePrimary |
| `CelParser.Parser.constructor` | js/packages/sdk-js/src/cel-lite.ts:122-124 | The parser starts at the first token |
| `CelParser.Parser.AcceptPunct` | js/packages/sdk-js/src/cel-lite.ts:136-143 | Advances by one exactly if the current token is that punctuation |
| `CelParser.Parser.ExpectPunct` | js/packages/sdk-js/src/cel-lite.ts:144-150 | Advances over the punctuation or fails |
| `CelParser.Parser.Run` | js/packages/sdk-js/src/cel-lite.ts:152-158 | The parser object computes the grammar-characterised parse of its tokens |
| `CelParser.Parser.POr` | js/packages/sdk-js/src/cel-lite.ts:160-167 | Result and position are those of the characterised parse of an Or at the old position |
| `CelParser.Parser.PAnd` | js/packages/sdk-js/src/cel-lite.ts:169-176 | Likewise for And |
| `CelParser.Parser.PNot` | js/packages/sdk-js/src/cel-lite.ts:178-183 | Likewise for Not |
| `CelParser.Parser.PRel` | js/packages/sdk-js/src/cel-lite.ts:185-203 | Likewise for Rel |
| `CelParser.Parser.PPrimary` | js/packages/sdk-js/src/cel-lite.ts:205-251 | Likewise for Primary |
| `CelParser.Parser.PList` | js/packages/sdk-js/src/cel-lite.ts:213-222 | Likewise for list literals |
| `CelParser.Parser.PPath` | js/packages/sdk-js/src/cel-lite.ts:239-249 | Likewise for paths |
| `CelLexer.Tokenize` | js/packages/sdk-js/src/cel-lite.ts:24-107 | The lexer loop returns the token list of the text, or its first error |
| `CelLexer.ScanStep` | js/packages/sdk-js/src/cel-lite.ts:28-103 | One turn classifies the front of the remaining text and its length |
| `CelLexer.ScanQuoted` | js/packages/sdk-js/src/cel-lite.ts:36-53 | The string loop finds the closing quote and the unescaped contents, or that there is none |
| `CelLexer.ScanNumber` | js/packages/sdk-js/src/cel-lite.ts:55-61 | The number loop ends at the first character that is neither digit nor dot |
| `CelLexer.ScanWord` | js/packages/sdk-js/src/cel-lite.ts:63-66 | The word loop ends at the first character that is not a word character |
| `CelLexer.LexEndsInEof` | js/packages/sdk-js/src/cel-lite.ts:105-106 | Every token list ends in its only eof |
| `CelLexer.LexText` | js/packages/sdk-js/src/cel-lite.ts:24-107 | Lexing the written form of any list of writable tokens returns the list |
| `CelLexer.StepReadsToken` | js/packages/sdk-js/src/cel-lite.ts:28-100 | A written token is read back and the scan stops right after it |
| `CelLexer.QuotedEscape` | js/packages/sdk-js/src/cel-lite.ts:36-53 | Reading an escaped string gives the string back, whatever follows |
| `CelLexer.DecimalDigits` | js/packages/sdk-js/src/cel-lite.ts:55-61 | Reading a decimal numeral gives the number back |
| `CelEval.Compile` | js/packages/sdk-js/src/cel-lite.ts:261-265 | Lexer and parser object together compute the compiled expression or the error |
| `CelEval.CompilesIffDerives` | js/packages/sdk-js/src/cel-lite.ts:261-265 | A text compiles to an expression if and only if its tokens derive it |
| `CelEval.CompileNeverPastEnd` | js/packages/sdk-js/src/cel-lite.ts:126-135 | No text makes the parser run past the end |
| `CelEval.PrintCompiles` | js/packages/sdk-js/src/cel-lite.ts:24-265 | Compiling the fully parenthesised, escaped text of any printable expression returns that expression |
| `CelEval.PrintedMeaning` | js/packages/sdk-js/src/cel-lite.ts:261-273 | Evaluating the printed text decides as the expression does, on every context |
| `CelEval.TokensDerive` | js/packages/sdk-js/src/cel-lite.ts:122-252 | The printed tokens of an expression derive it as a Primary |
| `CelEval.TokensWritable` | js/packages/sdk-js/src/cel-lite.ts:24-107 | The printed tokens of an expression are all writable |
| `CelEval.Lookup` | js/packages/sdk-js/src/cel-lite.ts:319-327 | The path loop computes the walk |
| `CelEval.InIsDisjunction` | js/packages/sdk-js/src/cel-lite.ts:312-313 | Membership in a list literal is the disjunction of equalities with its items |
| `CelEval.AnyEqualValue` | js/packages/sdk-js/src/cel-lite.ts:312-313 | That disjunction is true exactly if some item value equals the operand |
| `CelEval.BooleanLaws` | js/packages/sdk-js/src/cel-lite.ts:283-296 | Short-circuiting is not observable: and and or commute and obey De Morgan, on every kind of operand |
| `CelEval.EqualityLaws` | js/packages/sdk-js/src/cel-lite.ts:300-303 | != negates == and == is symmetric |
| `CelEval.EqualityIsJson` | js/packages/sdk-js/src/cel-lite.ts:339-347 | Against a value without objects at any depth, equality on context values is equality of JSON values |
| `CelEval.FromJsonInjective` | js/packages/sdk-js/src/cel-lite.ts:339-347 | Different JSON values are different run-time values |
| `CelEval.OrderingFlips` | js/packages/sdk-js/src/cel-lite.ts:304-311 | The four orderings are one order read both ways, for all operand values |
| `CelEval.NegatedOrdering` | js/packages/sdk-js/src/cel-lite.ts:304-311 | !(a < b) is a >= b if and only if both sides are numbers |
| `CelPredicates.LoweredMeans` | js/packages/sdk-js/src/cel-lite.ts:267-317 | For comparisons of context paths with literals, membership in literal lists, and their combinations by !, && and or, the plain predicate tree that says the same matches exactly where the expression holds and never throws |
| `CelPredicates.CelLeafMeans` | js/packages/sdk-js/src/evaluator.ts:112-119 | A cel leaf in the JavaScript client, the lowered tree there, and, where its paths do not enter arrays, the lowered tree on the Go server give one answer |
| `CelPredicates.LoweredIsPortable` | js/packages/sdk-js/src/evaluator.ts:78-121 | Lowered trees are inside the cross-runtime law |
| `CelPredicates.ComparisonMeans` | js/packages/sdk-js/src/cel-lite.ts:297-311 | One comparison decides as the eq, neq, gt, gte, lt or lte predicate on the dotted attribute, missing attributes included |
| `CelPredicates.MembershipMeans` | js/packages/sdk-js/src/cel-lite.ts:312-313 | Membership in a literal list decides as the in predicate |
| `CelPredicates.PathAgrees` | js/packages/sdk-js/src/cel-lite.ts:319-327 | The cel-lite path walk is the evaluator's attribute walk |
| `CelPredicates.ContextPathValue` | js/packages/sdk-js/src/cel-lite.ts:319-327 | ctx.a.b evaluates to what the evaluator looks up under "a.b" |
| `JsEval.RuntimesAgree` | js/packages/sdk-js/src/evaluator.ts:36-71 | The JavaScript and the Go evaluator return the same decision on every portable tree and every context whose arrays the tree's attribute paths do not enter |
| `JsEval.MatchAgrees` | js/packages/sdk-js/src/evaluator.ts:78-121 | Predicate by predicate the JavaScript outcome is the Go pair with errors as throws |
| `JsEval.ListAgrees` | js/packages/sdk-js/src/evaluator.ts:106-109 | every and some agree with the Go loops, stopping and failing at the same child |
| `JsEval.EvaluateFromAgrees` | js/packages/sdk-js/src/evaluator.ts:36-71 | From any rule not after the deciding one, the JavaScript walk ends in the Go decision |
| `JsEval.DeciderAgrees` | js/packages/sdk-js/src/evaluator.ts:36-71 | At the deciding rule, or past the last one, the JavaScript walk ends in the Go decision |
| `JsEval.RuleAgrees` | js/packages/sdk-js/src/evaluator.ts:42-54 | Rule by rule the outcomes agree |
| `JsEval.WalkAgreesIff` | js/packages/sdk-js/src/evaluator.ts:177-186 | The two path walks give the same answer if and only if the path does not go through an array |
| `JsEval.LookupAgreesIff` | js/packages/sdk-js/src/evaluator.ts:177-186 | The two lookups give the same answer if and only if the path does not enter an array, and otherwise Go misses |
| `JsEval.EqualAgrees` | js/packages/sdk-js/src/evaluator.ts:201-209 | The two equality tests agree on every value against an operand without objects at any depth |
| `JsEval.InAgrees` | js/packages/sdk-js/src/evaluator.ts:129-133 | The two membership tests agree on every value against such operands |
| `JsEval.EqAgrees` | js/packages/sdk-js/src/evaluator.ts:123-127 | The two eq tests agree if the path does not enter an array |
| `JsEval.StartsWithAgreesIff` | js/packages/sdk-js/src/evaluator.ts:168-175 | On every starts_with node and context the runtimes agree if and only if JavaScript finds no string, or the prefix is not null (on a path that enters an array: is a string the found one does not start with) |
| `JsEval.LeafAgreesIff` | js/packages/sdk-js/src/evaluator.ts:78-121 | On every leaf with its operands present and without objects, and a pattern both engines read alike, the runtimes agree if and only if it is no reference and no unknown kind, a value found only below an array does not satisfy it, and a null prefix finds no string |
| `JsEval.EqLeafAgreesIff` | js/packages/sdk-js/src/evaluator.ts:123-127 | For eq and neq: unless the operand is found below an array |
| `JsEval.InLeafAgreesIff` | js/packages/sdk-js/src/evaluator.ts:129-133 | For in: unless one of the values is found below an array |
| `JsEval.OrderingLeafAgreesIff` | js/packages/sdk-js/src/evaluator.ts:135-152 | For the orderings: unless a number found below an array satisfies them |
| `JsEval.OtherLeafAgreesIff` | js/packages/sdk-js/src/evaluator.ts:78-121 | For the other leaf kinds |
| `Compile.ArrayPathDiffers` | js/packages/sdk-js/src/evaluator.ts:177-186 | Every path that enters an array has an accepted tree that matches in JavaScript and serves the default in Go |
| `Compile.NullPrefixDiffers` | js/packages/sdk-js/src/evaluator.ts:168-175 | A null prefix is accepted, and on every context with a string at its attribute Go serves the rule and JavaScript an error |
| `Compile.OneRuleDecides` | js/packages/sdk-js/src/evaluator.ts:36-71 | What the two runtimes answer on a one-rule tree, by the outcome of its predicate |
| `EndToEnd.SurvivingReferenceDiffers` | js/packages/sdk-js/src/evaluator.ts:82-120 | A reference emitted by TypeScript is published and loaded, and on every context Go answers an error and JavaScript the default |
| `JsEval.ArrayContextDiffers` | js/packages/sdk-js/src/evaluator.ts:177-186 | An instance: "tags.0" on an array is found by JavaScript and missed by Go |
| `JsEval.Lookup` | js/packages/sdk-js/src/evaluator.ts:177-186 | The lookup loop computes the walk |
| `JsEval.Evaluate` | js/packages/sdk-js/src/evaluator.ts:36-71 | The rule loop computes the decision that the cross-runtime law is about, and throws on null rules |
| `GoEval.Evaluate` | internal/eval/eval.go:38-89 | The early-exit loop serves the deciding rule: its value, or the default on a type mismatch or an error, or the default if no rule decides |
| `GoEval.Decider` | internal/eval/eval.go:46-59 | The deciding rule is the first one that fires or errors: all before it neither match nor fail |
| `GoEval.DeciderUnique` | internal/eval/eval.go:46-59 | Only one index has that property |
| `GoEval.Lookup` | internal/eval/predicates.go:167-184 | The lookup loop computes the walk through nested objects |
| `JsonValues.SplitJoin` | internal/eval/predicates.go:171 | Joining the parts with dots gives the path back and no part holds a dot |
| `JsonValues.JoinSplit` | internal/eval/predicates.go:171 | Splitting a join of dot-free parts gives the parts back |
| `Trace.TraceAgrees` | internal/eval/trace.go:111-216 | A trace without an error carries, at the root and at every recorded node, the result of the short-circuiting match of that node, and each leaf's recorded inputs decide its recorded result |
| `Trace.TraceSameBoolean` | internal/eval/trace.go:111-216 | If the trace reports no error then match reports none and the same boolean |
| `Trace.ListMatchAgrees` | internal/eval/trace.go:174-203 | For all and any nodes, although every child is traced |
| `Trace.ListNodeAgrees` | internal/eval/trace.go:174-203 | And the recorded children stand for the children of the predicate, in order |
| `Trace.LeafIsExplained` | internal/eval/trace.go:117-173 | A leaf records the value at its attribute, and value, expectation, pattern or bucket recorded decide the result |
| `Trace.EachAgrees` | internal/eval/trace.go:177-186 | Child by child for a list without an error |
| `Trace.AllAnyAgree` | internal/eval/predicates.go:41-62 | The short-circuiting loops compute conjunction and disjunction of clean children |
| `Trace.RunTraceMatch` | internal/eval/trace.go:111-216 | The recursive walk computes the trace |
| `Trace.RunTraceAll` | internal/eval/trace.go:174-188 | The accumulating all loop: children in order, conjunction, first error |
| `Trace.RunTraceAny` | internal/eval/trace.go:189-203 | The accumulating any loop: children in order, disjunction, first error |
| `Trace.EvaluateWithTrace` | internal/eval/trace.go:49-106 | Every rule is recorded in order; the first rule recorded as matched, and no other, is served; otherwise the default is marked used |
| `Trace.TracedWinner` | internal/eval/trace.go:74-77 | The served rule is the first one recorded as matched |
| `Trace.TracedWinnerUnique` | internal/eval/trace.go:74-77 | Only one index has that property |
| `Trace.TraceSkipsToDecider` | internal/eval/trace.go:61-78 | A rule that Evaluate steps over is never served by the trace |
| `Trace.TraceSameDecision` | internal/eval/trace.go:45-49 | If the rule that decides Evaluate traces without an error, both return the same decision, whatever other rules record |
| `Trace.TraceSameDecisionIff` | internal/eval/trace.go:45-49 | They return the same decision if and only if the deciding rule traces without an error, or it fires and the rule traced as matched instead is its twin: the same id, and the same fitting value and reason or both values of the wrong type |
| `Trace.TwinsServeTheSame` | internal/eval/eval.go:60-82 | Two rules serve the same value, reason and id if and only if they are twins |
| `TraceFaithful.TraceIsFaithful` | internal/eval/trace.go:45-49 | On accepted trees of any strategy without CEL and references and with string prefixes they return the same decision on every context |
| `Trace.DistinctIdsTraceIff` | internal/eval/trace.go:45-49 | With pairwise distinct rule ids: if and only if the deciding rule traces without an error |
| `TraceFaithful.TraceDiffers` | internal/eval/trace.go:45-49 | An accepted tree without CEL and references on which the two differ for every context with a string at its attribute |
| `TraceFaithful.ValidTracesClean` | internal/eval/trace.go:111-216 | No context makes a predicate of such a tree record an error |
| `TraceFaithful.ValidListTracesClean` | internal/eval/trace.go:174-203 | Nor a list of them |
| `Monotone.WinnerNeverLater` | internal/eval/eval.go:46-83 | Raising rollout percents (lowering them under an odd number of nots) never moves the deciding rule later, if the narrower tree decides without an error |
| `Monotone.WidenedMatch` | internal/eval/predicates.go:35-65 | Between clean evaluations, widening never turns a match into a miss |
| `Monotone.WidenedLists` | internal/eval/predicates.go:41-62 | The same through the all and any loops |
| `Monotone.SameLeaf` | internal/eval/predicates.go:15-75 | Percents and children do not matter to a leaf that does not read them |
| `Monotone.ErrorMayHideWinner` | internal/eval/predicates.go:41-62 | Two trees that pass validation, the second the first with a rollout opened, where opening it turns the deciding rule into one that does not match, because an error hid behind the closed rollout |
| `Monotone.GuardedIsValid` | internal/config/json.go:62-134 | Those trees are valid, for every percent from 0 to 100 |
| `Rollout.GoRolloutBucket` | internal/eval/rollout.go:17-23 | Three writes of salt, colon and value into one hash object give the bucket of the concatenation |
| `Rollout.JsRolloutBucket` | js/packages/sdk-js/src/rollout.ts:19-29 | Hashing the buffer assembled in place gives the same bucket, for all byte strings |
| `Rollout.JsFnv1a64` | js/packages/sdk-js/src/rollout.ts:8-15 | The hash loop computes FNV-1a 64 of the buffer |
| `Rollout.Fnv64a.constructor` | internal/eval/rollout.go:18 | A hash object starts at the offset basis of section 2 of draft-eastlake-fnv |
| `Rollout.Fnv64a.Write` | internal/eval/rollout.go:19-21 | Writing bytes continues the hash from where it stood |
| `Rollout.FnvConcat` | internal/eval/rollout.go:17-23 | Hashing a concatenation is hashing the second part from where the first stopped |
| `Rollout.FnvTestVectors` | js/packages/sdk-js/src/rollout.ts:4-6 | The digests of the empty string and of "a" are the published FNV-1a 64 ones |
| `Rollout.Bucket` | internal/eval/rollout.go:22 | A bucket is below 10000 |
| `Rollout.InBucket` | internal/eval/rollout.go:28-36 | The guarded gate is the plain threshold bucket < 100 * percent, for every percent |
| `Compile.ValidRolloutShare` | internal/config/json.go:90-96 | The percents validation accepts are exactly those that admit that many hundredths of the 10000 buckets |
| `LiveLeaves.DecidesIffFits` | internal/config/json.go:67-82 | A comparison matches on some context and misses on some context if and only if it is valid and its operand is of the kind it compares, which validation does not look at |
| `LiveLeaves.WitnessDecides` | internal/eval/predicates.go:77-163 | Such a context, built from the attribute path and the operand; the empty context decides the other way |
| `LiveLeaves.ValidTypeServes` | internal/config/json.go:36-40 | A value type is valid if and only if some value can be served under it |
| `Compile.Rehydrates` | internal/server/handlers/evaluate.go:75 | What any compiler accepted, once marshalled, is accepted again under its own strategy and under CEL with the same tree and programs |
| `Compile.AcceptedErrors` | internal/eval/predicates.go:15-163 | In an accepted tree without references the only errors match can return are a CEL runtime error and a starts_with prefix that is neither string nor null |
| `Compile.ProgramsComplete` | internal/config/cel.go:91-133 | Every CEL node that match can reach in an accepted tree has its program |
| `Compile.CompilePredicates` | internal/config/cel.go:91-98 | The loop returns one program per reachable source, or fails if and only if some reachable source does not compile |
| `Compile.WalkAndCompile` | internal/config/cel.go:100-133 | Succeeds if and only if every reachable source compiles, and then adds exactly those programs |
| `Compile.WalkEach` | internal/config/cel.go:121-126 | The same over a list of children |
| `Compile.CompileAccepts` | internal/config/cel.go:28-51 | Whatever a compiler returns passed its validation and carries exactly its programs |
| `Compile.RuleErrorsMeaning` | internal/config/json.go:44-58 | Validation reports no error if and only if every rule is valid |
| `Compile.MatchErrors` | internal/eval/predicates.go:15-75 | The error bound for one valid reference-free predicate whose programs are present |
| `Compile.MatchErrorsAll` | internal/eval/predicates.go:41-62 | And through the all and any loops |
| `Compile.CelSuperset` | internal/sdkgo/sdkgo.go:197-201 | What is valid without CEL is valid with CEL |
| `Compile.CelFreeValid` | internal/config/json.go:113-119 | And what is valid with CEL and holds no reachable CEL is valid without |
| `Compile.AcceptedUnderCel` | internal/sdkgo/sdkgo.go:197-202 | An accepted tree passes CEL-strategy validation and collects the same programs there |
| `Compile.NoCelNoSources` | internal/config/json.go:113-116 | A predicate valid without CEL holds no reachable CEL source |
| `Compile.SurvivingSegment` | internal/config/json.go:122-129 | An instance: a one-rule tree with a reference is accepted by every compiler and errors on every context |
| `Compile.ReferencesAreInvisible` | internal/config/json.go:122-129 | On every tree, replacing every reference that has a key by always changes neither the verdict of validation nor the collected CEL sources |
| `Compile.MaskedValid` | internal/config/json.go:62-134 | The same for one predicate's validity |
| `Compile.MaskedSources` | internal/config/cel.go:100-133 | And for its sources |
| `Compile.MaskedRuleErrors` | internal/config/json.go:44-58 | And for a list of rules |
| `Compile.ValidIsPortable` | internal/config/json.go:62-134 | Validity, with or without CEL allowed, gives what the cross-runtime law asks of a CEL-free and reference-free predicate, up to the four named exclusions |
| `Compile.ServerAndBrowserAgree` | js/packages/sdk-js/src/evaluator.ts:36-71 | On accepted trees of any strategy with rules, without CEL and references and within those exclusions, server and JavaScript client return the same decision on every context whose arrays the paths do not enter |
| `Codec.TreeRoundTripIff` | internal/config/ir.go:27-98 | Marshalling and unmarshalling returns the same tree if and only if no default or rule value is missing |
| `Codec.PredicateRoundTrip` | internal/config/ir.go:70-98 | The omitempty form of every predicate decodes to that predicate |
| `Codec.AllRoundTrip` | internal/config/ir.go:88 | And of every list of children |
| `Codec.RulesRoundTrip` | internal/config/ir.go:27-38 | And of every list of rules whose values are present |
| `Codec.DecodedValues` | internal/config/ir.go:27-38 | Marshalled rules always decode, and then every value is present |
| `SegmentsInPlace.ResolveAcyclic` | internal/config/predicate.go:33-45 | When the tree's references reach no cycle, the in-place rewrite ends within as many nested expansions as there are segments; it succeeds if and only if they are grounded in stored segments, and then no rule holds a reference anywhere and every rule matches as before on every context |
| `SegmentsInPlace.ResolveSegments` | internal/config/predicate.go:33-45 | For every cut-off, cyclic segments included, the in-place loop over the rules leaves ids and values alone and each When pointing to the inlined predicate, or fails exactly if inlining up to the cut-off does |
| `SegmentsInPlace.ResolveOne` | internal/config/predicate.go:47-79 | For every cut-off the returned pointer denotes the inlined predicate, built from the old nodes and fresh ones only, or inlining up to the cut-off fails |
| `SegmentsInPlace.ResolveChildren` | internal/config/predicate.go:64-78 | Rewriting both child fields in place makes the node denote its inlining |
| `SegmentsInPlace.ResolveOf` | internal/config/predicate.go:64-70 | The loop over Of replaces each child by its inlining and nothing else |
| `SegmentsInPlace.ResolveOfTurn` | internal/config/predicate.go:64-70 | One turn of that loop |
| `SegmentsInPlace.ResolveOfAt` | internal/config/predicate.go:69 | Assigning Of[i] changes that child only |
| `SegmentsInPlace.ResolveOfOne` | internal/config/predicate.go:71-77 | The same for OfOne, after which the node is whole |
| `SegmentsInPlace.Attach` | internal/config/predicate.go:76 | Assigning OfOne changes that child only |
| `SegmentsInPlace.ResolveKid` | internal/config/predicate.go:64-77 | Resolving one child leaves its siblings as they were |
| `SegmentsInPlace.ResolveRuleAt` | internal/config/predicate.go:38-42 | Assigning Rules[i].When changes that rule only |
| `SegmentsInPlace.Decode` | internal/server/handlers/segment_resolver.go:33-37 | Decoding a stored segment builds a fresh tree that denotes it |
| `SegmentsInPlace.DecodeEach` | internal/server/handlers/segment_resolver.go:33-37 | And a fresh, disjoint forest for a list of children |
| `SegmentsInPlace.Cell.constructor` | internal/config/ir.go:70-98 | A node over a disjoint forest denotes the predicate with those children |
| `SegmentsInPlace.ListStep` | internal/config/predicate.go:64-70 | With the first elements resolved, the next one alone decides how the list goes on |
| `Segments.AllResolveIff` | internal/config/predicate.go:23-32 | Every stored segment inlines to an answer if and only if references stay inside the stored segments and form no cycle |
| `Segments.ResolvesIff` | internal/config/predicate.go:47-79 | One predicate inlines to an answer if and only if its references lead into stored segments that are closed under references and free of cycles, whatever the other segments hold |
| `Segments.ListResolvesIff` | internal/config/predicate.go:33-45 | The same for the rules of a tree |
| `Segments.ResolvableRanked` | internal/config/predicate.go:23-32 | The keys that inline to an answer are closed under references and go down in rank |
| `Segments.RankedResolves` | internal/config/predicate.go:47-79 | Over stored keys that are closed under references and ranked, inlining gives an answer |
| `Segments.RankedEnds` | internal/config/predicate.go:47-79 | Where references reach no cycle, inlining any predicate ends within as many nested expansions as there are keys ranked below it |
| `Segments.AcyclicEnds` | internal/config/predicate.go:33-45 | Where a list of predicates reaches no cycle, inlining it ends within as many nested expansions as there are stored segments |
| `Segments.AcyclicAnswersIff` | internal/config/predicate.go:33-45 | And then it ends in an answer if and only if the references are so grounded |
| `Segments.AcyclicFromAnywhere` | internal/config/predicate.go:23-32 | If no stored segments form a cycle, no tree reaches one |
| `Segments.DoneReaches` | internal/config/predicate.go:51-62 | A successful inlining inlined every key it refers to |
| `Segments.LeastFuel` | internal/config/predicate.go:59-62 | Each inlined key has a least number of nested expansions |
| `Segments.FuelMonotone` | internal/config/predicate.go:47-79 | A higher cut-off never changes an answer, so the cut-off is not part of the result |
| `Segments.FuelMonotoneAll` | internal/config/predicate.go:64-70 | The same over a list of children |
| `Segments.MeaningIsStable` | internal/config/predicate.go:47-79 | Nor of the meaning of a reference |
| `Segments.NoSegmentLeft` | internal/config/predicate.go:23-27 | No reference is left anywhere in the result, in children of any kind |
| `Segments.NoSegmentLeftAll` | internal/config/predicate.go:64-70 | The same over a list of children |
| `Segments.ResolvePreservesMatch` | internal/config/predicate.go:47-79 | The inlined predicate gives the same pair of boolean and error as the original with a reference meaning its stored predicate |
| `Segments.ResolvePreservesList` | internal/config/predicate.go:64-70 | The same for the all and any loops |
| `Segments.ListInlined` | internal/config/predicate.go:33-45 | Element by element: no reference left, same meaning on every context |
| `Segments.LeafIgnoresChildren` | internal/eval/predicates.go:15-75 | Rewriting children that a kind does not read changes nothing |
| `Segments.SelfReferenceLoops` | internal/config/predicate.go:27-29 | Inlining a segment defined through its own key recurses past every depth |
| `Publish.PublishedMeaning` | internal/server/handlers/flags.go:150-178 | Every rule of a version published from a document is reference-free, matches as the submitted rule with references meaning their stored predicates, and can only fail by a CEL runtime error or a bad prefix |
| `Publish.PublishedTree` | internal/server/handlers/flags.go:150-178 | A published document is accepted, reference-free, and its predicates are the inlined submitted ones |
| `Publish.PublishAccepts` | internal/server/handlers/flags.go:152-171 | A document is published if and only if its inlined tree, with missing values filled by null, passes validation and its CEL compiles; that filled tree is what is stored |
| `Publish.PublishedIsStable` | internal/server/handlers/evaluate.go:75 | Recompiling what publish persisted gives the published version back, under its own strategy and under CEL |
| `Publish.ReencodingFills` | internal/server/handlers/segment_resolver.go:46-60 | Decoding and re-marshalling fills every missing default or value with null |
| `Publish.RulesResolved` | internal/server/handlers/segment_resolver.go:53 | Inlining the rules keeps their number, ids and values |
| `Publish.RulesResolveAsList` | internal/config/predicate.go:33-45 | Inlining rules is inlining the list of their predicates, the form rewritten in place |
| `Publish.MissingDefaultIsPublished` | internal/server/handlers/flags.go:152-171 | A document without a default is rejected by every compiler and accepted by the publish handler |
| `Publish.SelfReferenceIsStored` | internal/server/handlers/segments.go:158-169 | The segment write handler stores a nested reference to the segment itself, and then a publish that uses it recurses past every depth, until its request context or its stack ends |
| `Publish.TypeScriptSegmentSurvives` | internal/server/handlers/flags.go:150-171 | An instance: a reference emitted by TypeScript source is published and errors on every context |
| `Publish.PublishedSegmentFreeIff` | internal/server/handlers/flags.go:150-171 | Of every source that publishes: the published tree is reference-free if and only if the source is a document or the tree TypeScript emitted is reference-free |
| `AuditPaging.WalkIsComplete` | internal/server/handlers/audit.go:24-70 | For every filter and every 32-bit limit of at least 1, while newer events are appended between pages, following next_cursor ends and yields exactly the filtered events of the first page's table, newest first, each once, if and only if no page but the last ends on an event at the zero time (below 2^31-1), or the backend is SQLite with at most 2^31-1 events (at 2^31-1) |
| `AuditPaging.DatedWalkIsComplete` | internal/server/handlers/audit.go:24-70 | So it does on both backends for every limit from 1 to 2^31-2 if no event is at the zero time |
| `AuditPaging.UndatedWalk` | internal/server/handlers/audit.go:29-39 | If a page ends at the zero time the walk does not end or repeats events |
| `AuditPaging.StartsOver` | internal/server/handlers/audit.go:29-39 | A cursor at the zero time starts over at the newest event |
| `AuditPaging.LargestLimit` | internal/server/handlers/audit.go:50 | At limit 2^31-1 the look-ahead wraps: Postgres refuses every query, SQLite answers with the first 2^31-1 events and no cursor |
| `AuditPaging.LargestWalk` | internal/server/handlers/audit.go:50 | So the walk there is that one page or nothing |
| `AuditPaging.WalkRest` | internal/server/handlers/audit.go:24-70 | From any cursor on, the walk yields the rest if no page but the last ends at the zero time |
| `AuditPaging.WalkStep` | internal/server/handlers/audit.go:57-70 | A page followed by the rest is the whole |
| `AuditPaging.NextPage` | internal/server/handlers/audit.go:66-69 | The next page continues where this one stopped, on the table of its own moment |
| `AuditPaging.PageOfRest` | internal/server/handlers/audit.go:57-70 | A page is the front of what is left to show |
| `AuditPaging.AfterCursor` | internal/db/sqlite/audit.sql.go:59-74 | The row comparison and the spelled-out disjunction select the same rows: those with a smaller (time, id) key |
| `AuditPaging.PageContents` | internal/server/handlers/audit.go:41-70 | Below the largest limit a page is the first limit rows after the cursor, with a cursor at its last row exactly if there are more |
| `AuditPaging.HandlerServes` | internal/server/handlers/audit.go:41-70 | That holds of every page of the handler over time |
| `AuditPaging.BuildPage` | internal/server/handlers/audit.go:57-70 | The page loop, with its 32-bit counts, keeps the first limit rows and sets the cursor from the last of them |
| `AuditPaging.RestAfterCursor` | internal/db/audit.sql.go:61-75 | A cursor at a row selects exactly the rows ordered after it |
| `AuditPaging.BelowCursor` | internal/db/audit.sql.go:69-72 | A cursor narrows a selection to the smaller keys |
| `AuditPaging.LaterTablesAgree` | internal/db/audit.sql.go:61-75 | Events appended later never appear after a cursor taken earlier |
| `AuditPaging.OrderedFacts` | internal/db/audit.sql.go:73 | The ordering loses and adds nothing and is strictly descending |
| `AuditPaging.DescendingUnique` | internal/db/audit.sql.go:73 | Two strictly descending arrangements of the same events are equal |
| `AuditPaging.PanicsIff` | internal/server/handlers/audit.go:66-67 | The handler panics if and only if the limit is -1, or 0 with a row to show, or below -1 on SQLite |
| `AuditPaging.ZeroTimeLoops` | internal/server/handlers/audit.go:29-39 | On a table that does not change, a first page that ends at the zero time makes the walk endless |
| `SdkGo.Client.constructor` | internal/sdkgo/sdkgo.go:158-220 | A client starts without a snapshot |
| `SdkGo.Client.PollOnce` | internal/sdkgo/sdkgo.go:158-220 | Only a decodable body replaces the snapshot, and then whole; the error result is absent exactly on a body or a 404 |
| `SdkGo.Client.Evaluate` | internal/sdkgo/sdkgo.go:231-245 | The decision is the evaluator's on the cached flag, with error before the first snapshot and default for an unknown flag |
| `SdkGo.LoadFlags` | internal/sdkgo/sdkgo.go:195-211 | In whatever order the bundle is visited, exactly the flags that compile under CEL are kept |
| `SdkGo.LastBody` | internal/sdkgo/sdkgo.go:171-193 | The last decodable body of a run of polls |
| `SdkGo.CacheIsLastBody` | internal/sdkgo/sdkgo.go:158-220 | After any run of polls the cache is the last decodable body, or what it was before if there was none |
| `SdkGo.EvaluatedIgnoresStrategy` | internal/sdkgo/sdkgo.go:240 | Strategy and version number do not influence value, reason and rule id |
| `JsCompile.CompileIr` | js/packages/sdk-js/src/evaluator.ts:13-20 | Compiling succeeds exactly if the tree has rules and every CEL text in it compiles (a cel node without a source has none), and its programs decide as the expressions of those texts |
| `JsCompile.WalkAndCompile` | js/packages/sdk-js/src/evaluator.ts:22-34 | The loop succeeds if and only if every CEL text in children of any kind compiles, and adds exactly those |
| `JsCompile.CompileOne` | js/packages/sdk-js/src/evaluator.ts:26-33 | The same for one predicate |
| `JsCompile.CompileOwn` | js/packages/sdk-js/src/evaluator.ts:28-30 | The same for its own text: a node without a source and a text already compiled are skipped |
| `JsCompile.CompiledNeverThrows` | js/packages/sdk-js/src/evaluator.ts:78-121 | With its texts compiled, its prefixes strings and its reachable cel nodes not empty, a complete predicate never throws |
| `JsCompile.CompiledListNeverThrows` | js/packages/sdk-js/src/evaluator.ts:106-109 | Nor do every and some over such predicates |
| `JsCompile.ResponseLoadsIff` | js/packages/sdk-js/src/client.ts:126-135 | A poll response is cached if and only if every flag has rules and only CEL texts that cel-lite compiles, and then with every flag and program |
| `JsPolling.Client.constructor` | js/packages/sdk-js/src/client.ts:104-107 | A client starts idle without a snapshot |
| `JsPolling.Client.ScheduleNextPoll` | js/packages/sdk-js/src/client.ts:138-152 | Arms one fresh timer unless stopped or the interval is not positive |
| `JsPolling.Client.PollSettled` | js/packages/sdk-js/src/client.ts:109-136 | Replaces the snapshot whole or not at all, and rejects on every outcome that is neither a 404 nor a loadable body |
| `JsPolling.Client.OnStart` | js/packages/sdk-js/src/client.ts:218-220 | start clears the stopped flag and polls |
| `JsPolling.Client.OnFirstPoll` | js/packages/sdk-js/src/client.ts:220-222 | After the first poll a timer is scheduled unless the poll rejected |
| `JsPolling.Client.OnTimer` | js/packages/sdk-js/src/client.ts:142-145 | A timer that fires starts one poll |
| `JsPolling.Client.OnTimerPoll` | js/packages/sdk-js/src/client.ts:142-145 | After a timer poll the next timer is scheduled, rejected or not |
| `JsPolling.Client.OnStop` | js/packages/sdk-js/src/client.ts:223-229 | stop clears the timer whose handle is held |
| `JsPolling.SingleStart` | js/packages/sdk-js/src/client.ts:138-152 | In every run with a single start, at most one poll or armed timer is outstanding and none is armed while stopped |
| `JsPolling.PollingIsSingle` | js/packages/sdk-js/src/client.ts:138-152 | The same in every run that starts only while idle |
| `JsPolling.RunKeepsOneChain` | js/packages/sdk-js/src/client.ts:138-152 | From any single-chain state |
| `JsPolling.StepKeepsOneChain` | js/packages/sdk-js/src/client.ts:138-152 | Every event keeps the chain single, except a start on top of a running chain |
| `JsPolling.StartNeedsIdle` | js/packages/sdk-js/src/client.ts:218-222 | A start keeps the chain single if and only if nothing is outstanding |
| `JsPolling.OnceStarted` | js/packages/sdk-js/src/client.ts:218-222 | Before the first start nothing is outstanding |
| `JsPolling.StopIsFinal` | js/packages/sdk-js/src/client.ts:223-229 | After a stop and until the next start the client stays stopped and no timer is armed or fires |
| `JsPolling.StepKeepsPolling` | js/packages/sdk-js/src/client.ts:138-152 | A running chain goes on through an event if and only if it is not a start, a stop or a rejected first poll |
| `JsPolling.PollingGoesOn` | js/packages/sdk-js/src/client.ts:138-152 | And through any run of such events |
| `JsPolling.NoIntervalNoTimer` | js/packages/sdk-js/src/client.ts:140-141 | Without a positive interval no run ever arms a timer |
| `JsPolling.SecondStartLeaksTimer` | js/packages/sdk-js/src/client.ts:218-229 | After two starts one stop leaves a timer armed |
| `JsPolling.SnapshotIsLastLoaded` | js/packages/sdk-js/src/client.ts:109-136 | In every run, with any starts and stops, the snapshot is the last one loaded: never lost, never mixed |

## Left out

- HTTP, Connect, MCP, Kubernetes and proxy plumbing, request decoding, status codes, logging, configuration, the dashboard and the command line: one-branch claims only.
- internal/server/rpc: it repeats the handlers modelled here.
- esbuild and goja: a TypeScript source is the document it emitted, or a failure.
- cel-go and regular-expression internals, and agreement between cel-go and cel-lite, which differ by design on missing keys and string ordering; `CelPredicates` relates cel-lite to the predicate language instead.
- JSON text: documents are records by member, so field names, whitespace, duplicate keys, number formatting and key order are not modelled; Go compares objects by sorted text and JavaScript by insertion order, so no cross-runtime law compares objects.
- Floating point: NaN enters only as cel-lite's malformed number; overflow, rounding and negative zero do not.
- JavaScript prototype properties and lone surrogates.
- The text form of the audit cursor and its decoding errors; UUIDs are numbers and times are natural numbers.
- Other audited writes (projects, environments, segments, flag updates): they insert or update a row without a numbering.
- The environment column and the audit payload of a snapshot row.
- The Go client's poll loop, logger and typed getters; the JavaScript client's per-flag cache, default context and typed getters.
- The nil checks at the entry of the Go evaluators, and the undecodable raw value, which a decoded document cannot hold.
- SegmentsInPlace.ResolveOne: has a cut-off that the code does not have; it fails there where the code would go on recursing.
- SegmentsInPlace.ResolveSegments: has the same cut-off, and on failure says nothing of the half-rewritten tree, which the handler discards.
- AuditRetry.Database.WithAudit: other callers act before an attempt and while it is open, in lists given by a plan; `AuditProtocol` has the unrestricted interleaving.
- CelEval.PrintCompiles: covers natural-number literals; cel-lite has no negative literal and the printed form has no fraction.

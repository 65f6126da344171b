/** The publish pipeline: decode, inline segments, re-marshal, compile, persist. */
module Publish {
  import opened JsonValues
  import opened Ir
  import opened Codec
  import opened Segments
  import opened Compile
  import Go = GoEval

  function ResolveRules(stored: Stored, fuel: nat, rules: seq<Rule>): Resolution<seq<Rule>> {
    if rules == [] then Done([])
    else
      var when :- Resolve(stored, fuel, rules[0].when);
      var rest :- ResolveRules(stored, fuel, rules[1..]);
      Done([rules[0].(when := when)] + rest)
  }

  function ResolveTree(stored: Stored, fuel: nat, t: RulesTree): Resolution<RulesTree> {
    if t.rules.None? then Done(t)
    else
      var rules :- ResolveRules(stored, fuel, t.rules.value);
      Done(t.(rules := Some(rules)))
  }

  /** `RecursesUnbounded` is a publish that expands references without an end of its own: it stops when
      the request context is cancelled or the stack overflows. */
  datatype Outcome =
    | Published(compiled: Compiled, persisted: TreeDoc)
    | Rejected(error: CompileError)
    | RecursesUnbounded

  function CompileAndPersist(env: Env, s: Strategy, source: Source): Outcome {
    var c := CompileSource(env, s, source);
    if c.Ok? then Published(c.value, EncodeTree(c.value.ir)) else Rejected(c.error)
  }

  /** The publish handler. A source that is not an IR document passes the inliner unchanged. */
  function PublishSource(env: Env, stored: Stored, fuel: nat, s: Strategy, source: Source): Outcome {
    if source.TypeScript? || DecodeTree(source.d).Err? then CompileAndPersist(env, s, source)
    else
      match ResolveTree(stored, fuel, DecodeTree(source.d).value)
      case Unresolvable(_) => Rejected(InvalidPredicate)
      case OutOfFuel => RecursesUnbounded
      case Done(t) => CompileAndPersist(env, s, Document(EncodeTree(t)))
  }

  // Rule by rule

  /** Inlining the rules is inlining the list of their predicates, the form in which the tree is
      rewritten in place. */
  lemma {:induction false} RulesResolveAsList(stored: Stored, fuel: nat, rules: seq<Rule>)
    ensures var rs, ps := ResolveRules(stored, fuel, rules), ResolveAll(stored, fuel, WhensOf(rules));
            && (rs.Done? <==> ps.Done?) && (rs.OutOfFuel? <==> ps.OutOfFuel?)
            && (rs.Done? ==> WhensOf(rs.value) == ps.value)
  {
    if rules != [] {
      RulesResolveAsList(stored, fuel, rules[1..]);
      assert WhensOf(rules)[1..] == WhensOf(rules[1..]);
    }
  }

  lemma {:induction false} RulesResolved(stored: Stored, fuel: nat, rules: seq<Rule>)
    requires ResolveRules(stored, fuel, rules).Done?
    ensures var rs := ResolveRules(stored, fuel, rules).value;
            && |rs| == |rules|
            && forall i | 0 <= i < |rules| ::
                 && Resolve(stored, fuel, rules[i].when).Done?
                 && rs[i] == rules[i].(when := Resolve(stored, fuel, rules[i].when).value)
  {
    if rules != [] { RulesResolved(stored, fuel, rules[1..]); }
  }

  /** Missing raw values are written out as `null` by re-marshalling. */
  function FilledRules(rules: seq<Rule>): seq<Rule> {
    seq(|rules|, i requires 0 <= i < |rules| => rules[i].(value := RawOrNull(rules[i].value)))
  }

  function FilledTree(t: RulesTree): RulesTree {
    t.(default := RawOrNull(t.default), rules := if t.rules.None? then None else Some(FilledRules(t.rules.value)))
  }

  lemma {:induction false} EncodeFilledRules(rules: seq<Rule>)
    ensures EncodeRules(FilledRules(rules)) == EncodeRules(rules)
  {
    if rules != [] {
      EncodeFilledRules(rules[1..]);
      assert FilledRules(rules)[1..] == FilledRules(rules[1..]);
    }
  }

  /** Re-marshalling a tree and decoding it again fills in every missing value with `null`. */
  lemma ReencodingFills(t: RulesTree)
    ensures DecodeTree(EncodeTree(t)) == Ok(FilledTree(t))
  {
    if t.rules.Some? { EncodeFilledRules(t.rules.value); }
    assert EncodeTree(FilledTree(t)) == EncodeTree(t);
    TreeRoundTripIff(FilledTree(t));
  }

  /** Publishing an IR document accepts exactly the inlined tree with its missing values filled:
      the compilers' checks for a missing default or rule value never fire on this path. */
  lemma PublishAccepts(env: Env, stored: Stored, fuel: nat, s: Strategy, d: TreeDoc)
    requires DecodeTree(d).Ok? && ResolveTree(stored, fuel, DecodeTree(d).value).Done?
    ensures var t := FilledTree(ResolveTree(stored, fuel, DecodeTree(d).value).value);
            PublishSource(env, stored, fuel, s, Document(d)).Published?
            <==> TreeErrors(env, t, AllowsCel(s)).None? && (AllowsCel(s) ==> AllCompile(env, RuleSources(t.RuleSeq())))
    ensures var out := PublishSource(env, stored, fuel, s, Document(d));
            out.Published? ==> out.compiled.ir == FilledTree(ResolveTree(stored, fuel, DecodeTree(d).value).value)
  {
    ReencodingFills(ResolveTree(stored, fuel, DecodeTree(d).value).value);
  }

  /** A document without a default: every compiler rejects it, the publish handler accepts it. */
  lemma MissingDefaultIsPublished(env: Env, stored: Stored, fuel: nat, s: Strategy)
    ensures var d := TreeDoc(Some(TBoolean), None, None);
            && CompileSource(env, s, Document(d)).Err?
            && PublishSource(env, stored, fuel, s, Document(d)).Published?
            && PublishSource(env, stored, fuel, s, Document(d)).compiled.ir.default == Some(Null)
  {
    PublishAccepts(env, stored, fuel, s, TreeDoc(Some(TBoolean), None, None));
  }

  // What a published tree is

  /** Publishing an IR document leaves no reference, and every rule of the stored version matches
      as the submitted rule does with a reference meaning its stored predicate. */
  lemma PublishedMeaning(env: Env, stored: Stored, fuel: nat, s: Strategy, d: TreeDoc, ctx: Ctx, i: nat)
    requires DecodeTree(d).Ok? && PublishSource(env, stored, fuel, s, Document(d)).Published?
    requires i < |DecodeTree(d).value.RuleSeq()|
    ensures var c := PublishSource(env, stored, fuel, s, Document(d)).compiled;
            && |c.ir.RuleSeq()| == |DecodeTree(d).value.RuleSeq()|
            && SegmentFree(c.ir.RuleSeq()[i].when)
            && Go.MatchRule(env, c, ctx, i)
            == MatchRefs(env, stored, fuel, DecodeTree(d).value.RuleSeq()[i].when, ctx, c.celPrograms)
            && OnlyRuntimeErrors(Go.MatchRule(env, c, ctx, i))
  {
    PublishedTree(env, stored, fuel, s, d);
    var rules := DecodeTree(d).value.RuleSeq();
    var c := PublishSource(env, stored, fuel, s, Document(d)).compiled;
    ResolvePreservesMatch(env, stored, fuel, rules[i].when, ctx, c.celPrograms);
    AcceptedErrors(env, c, ctx, i);
  }

  lemma PublishedTree(env: Env, stored: Stored, fuel: nat, s: Strategy, d: TreeDoc)
    requires DecodeTree(d).Ok? && PublishSource(env, stored, fuel, s, Document(d)).Published?
    ensures var c := PublishSource(env, stored, fuel, s, Document(d)).compiled;
            var rules := DecodeTree(d).value.RuleSeq();
            && Accepted(env, c) && SegmentFreeTree(c.ir)
            && |c.ir.RuleSeq()| == |rules|
            && forall i | 0 <= i < |rules| ::
                 && Resolve(stored, fuel, rules[i].when).Done?
                 && c.ir.RuleSeq()[i].when == Resolve(stored, fuel, rules[i].when).value
                 && SegmentFree(c.ir.RuleSeq()[i].when)
  {
    PublishAccepts(env, stored, fuel, s, d);
    var t := DecodeTree(d).value;
    var resolved := ResolveTree(stored, fuel, t).value;
    CompileAccepts(env, s, Document(EncodeTree(resolved)));
    if t.rules.Some? { RulesResolved(stored, fuel, t.rules.value); }
    forall i | 0 <= i < |t.RuleSeq()| ensures SegmentFree(Resolve(stored, fuel, t.RuleSeq()[i].when).value) {
      NoSegmentLeft(stored, fuel, t.RuleSeq()[i].when);
    }
  }

  /** Compiling the persisted document gives the published version back, under its own strategy and
      under CEL, whatever segments exist by then. */
  lemma PublishedIsStable(env: Env, stored: Stored, fuel: nat, s: Strategy, source: Source)
    requires PublishSource(env, stored, fuel, s, source).Published?
    ensures var out := PublishSource(env, stored, fuel, s, source);
            && CompileAndPersist(env, s, Document(out.persisted)) == out
            && CompileSource(env, StrategyCel, Document(out.persisted)) == Ok(out.compiled.(strategy := StrategyCel))
  {
    if source.TypeScript? || DecodeTree(source.d).Err? {
      Rehydrates(env, s, source);
    } else {
      var t := ResolveTree(stored, fuel, DecodeTree(source.d).value).value;
      Rehydrates(env, s, Document(EncodeTree(t)));
    }
  }

  // Where the pipeline lets a reference through

  /** Whether publishing leaves a reference is decided by the source alone: a document never does, and
      TypeScript does exactly if the tree it emitted holds one. */
  lemma PublishedSegmentFreeIff(env: Env, stored: Stored, fuel: nat, s: Strategy, source: Source)
    requires PublishSource(env, stored, fuel, s, source).Published?
    ensures source.TypeScript? ==> source.emitted.Some? && DecodeTree(source.emitted.value).Ok?
    ensures SegmentFreeTree(PublishSource(env, stored, fuel, s, source).compiled.ir)
            <==> source.Document? || SegmentFreeTree(DecodeTree(source.emitted.value).value)
  {
    if source.Document? {
      assert DecodeTree(source.d).Ok?;
      PublishedTree(env, stored, fuel, s, source.d);
    }
  }

  /** The segment write handler: it looks for a reference only at the root. */
  predicate WriteAccepts(env: Env, p: Predicate) {
    p.Node? && p.kind != Segment && ValidPredicate(env, p, true)
  }

  /** The handler stores `not` over the segment's own key, and then a publish that uses the segment
      recurses past every depth. */
  lemma SelfReferenceIsStored(env: Env, key: string, s: Strategy, fuel: nat)
    requires key != ""
    ensures WriteAccepts(env, NotSelf(key))
    ensures var t := RulesTree(TBoolean, Some(Bool(false)), Some([Rule("r", Ref(key), Some(Bool(true)))]));
            PublishSource(env, map[key := NotSelf(key)], fuel, s, Document(EncodeTree(t))).RecursesUnbounded?
  {
    var stored := map[key := NotSelf(key)];
    var r := Rule("r", Ref(key), Some(Bool(true)));
    var t := RulesTree(TBoolean, Some(Bool(false)), Some([r]));
    TreeRoundTripIff(t);
    SelfReferenceLoops(key, fuel);
    assert ResolveRules(stored, fuel, [r]).OutOfFuel?;
    assert NotSelf(key).ofOne == Ref(key);
    assert ValidPredicate(env, Ref(key), true);
  }

  /** A reference emitted by TypeScript is not an IR document when the inliner runs, so it is
      published as it stands and errors on every context. */
  lemma TypeScriptSegmentSurvives(env: Env, stored: Stored, fuel: nat, key: string, ctx: Ctx)
    requires key != ""
    ensures var t := RulesTree(TBoolean, Some(Bool(false)), Some([Rule("r", Ref(key), Some(Bool(true)))]));
            var out := PublishSource(env, stored, fuel, StrategyTypeScript, TypeScript(Some(EncodeTree(t))));
            out.Published? && Go.MatchRule(env, out.compiled, ctx, 0) == Go.Fail(Go.UnknownKind)
  {
    SurvivingSegment(env, StrategyTypeScript, key, ctx);
  }
}

/** Validation, CEL program collection and the strategy compilers. */
module Compile {
  import opened JsonValues
  import opened Ir
  import opened Codec
  import Go = GoEval
  import Js = JsEval

  datatype CompileError =
    | InvalidIr
    | InvalidValueType
    | InvalidPredicate
    | CelCompileFailure
    | TypeScriptFailure

  // Validation

  predicate ValidPredicate(env: Env, p: Predicate, allowCel: bool)
    decreases p
  {
    p.Node? && match p.kind
      case Eq => p.attr != "" && p.value.Some?
      case Neq => p.attr != "" && p.value.Some?
      case Gt => p.attr != "" && p.value.Some?
      case Gte => p.attr != "" && p.value.Some?
      case Lt => p.attr != "" && p.value.Some?
      case Lte => p.attr != "" && p.value.Some?
      case StartsWith => p.attr != "" && p.value.Some?
      case In => p.attr != "" && p.values != []
      case Matches => p.attr != "" && p.pattern != "" && env.goRegex(p.pattern).Some?
      case Rollout => p.attr != "" && p.salt != "" && 0 <= p.percent <= 100
      case All => p.of != [] && forall q | q in p.of :: ValidPredicate(env, q, allowCel)
      case Any => p.of != [] && forall q | q in p.of :: ValidPredicate(env, q, allowCel)
      case Not => ValidPredicate(env, p.ofOne, allowCel)
      case Cel => allowCel && p.source != ""
      case Always => true
      case Segment => p.key != ""
      case Unknown(_) => false
  }

  /** The first rule that validation rejects, and why. */
  function RuleErrors(env: Env, rules: seq<Rule>, allowCel: bool): Option<CompileError> {
    if rules == [] then None
    else if rules[0].id == "" || rules[0].value.None? || rules[0].when.Nil? then Some(InvalidIr)
    else if !ValidPredicate(env, rules[0].when, allowCel) then Some(InvalidPredicate)
    else RuleErrors(env, rules[1..], allowCel)
  }

  function TreeErrors(env: Env, t: RulesTree, allowCel: bool): Option<CompileError> {
    if t.valueType.TOther? then Some(InvalidValueType)
    else if t.default.None? then Some(InvalidIr)
    else RuleErrors(env, t.RuleSeq(), allowCel)
  }

  predicate ValidRule(env: Env, r: Rule, allowCel: bool) {
    r.id != "" && r.value.Some? && ValidPredicate(env, r.when, allowCel)
  }

  lemma {:induction false} RuleErrorsMeaning(env: Env, rules: seq<Rule>, allowCel: bool)
    ensures RuleErrors(env, rules, allowCel).None? <==> forall r | r in rules :: ValidRule(env, r, allowCel)
  {
    if rules != [] {
      RuleErrorsMeaning(env, rules[1..], allowCel);
      assert forall r :: r in rules <==> r == rules[0] || r in rules[1..];
      if ValidRule(env, rules[0], allowCel) {
        assert RuleErrors(env, rules, allowCel) == RuleErrors(env, rules[1..], allowCel);
      } else {
        assert RuleErrors(env, rules, allowCel).Some?;
      }
    }
  }

  // What a valid percent means

  /** How many of the first `n` buckets a percent admits. */
  function Admitted(percent: int, n: nat): nat {
    if n == 0 then 0 else Admitted(percent, n - 1) + if n - 1 < 100 * percent then 1 else 0
  }

  lemma {:induction false} AdmittedCount(percent: int, n: nat)
    ensures Admitted(percent, n) == if percent <= 0 then 0 else if 100 * percent <= n then 100 * percent else n
  {
    if n > 0 { AdmittedCount(percent, n - 1); }
  }

  /** The percents that validation lets through are exactly those that admit that many hundredths of
      the 10000 buckets. */
  lemma ValidRolloutShare(env: Env, p: Predicate, allowCel: bool)
    requires p.Node? && p.kind == Rollout && p.attr != "" && p.salt != ""
    ensures ValidPredicate(env, p, allowCel) <==> Admitted(p.percent, 10000) == 100 * p.percent
  {
    AdmittedCount(p.percent, 10000);
  }

  // CEL program collection

  /** The CEL sources in the positions that `match` can reach. */
  function Sources(p: Predicate): set<string>
    decreases p, 1
  {
    if p.Nil? then {}
    else match p.kind
      case Cel => {p.source}
      case All => SourcesOfAll(p.of)
      case Any => SourcesOfAll(p.of)
      case Not => Sources(p.ofOne)
      case _ => {}
  }

  function SourcesOfAll(ps: seq<Predicate>): set<string>
    decreases ps, 0
  {
    if ps == [] then {} else Sources(ps[0]) + SourcesOfAll(ps[1..])
  }

  function RuleSources(rules: seq<Rule>): set<string> {
    if rules == [] then {} else Sources(rules[0].when) + RuleSources(rules[1..])
  }

  predicate AllCompile(env: Env, sources: set<string>) {
    forall s | s in sources :: env.celCompiles(s)
  }

  function ProgramsFor(sources: set<string>): Go.Programs {
    map s | s in sources :: CelProgram(s)
  }

  lemma {:induction false} SourcesOfPrefix(ps: seq<Predicate>, i: nat)
    requires i < |ps|
    ensures SourcesOfAll(ps[..i + 1]) == SourcesOfAll(ps[..i]) + Sources(ps[i])
    decreases i
  {
    if i > 0 {
      SourcesOfPrefix(ps[1..], i - 1);
      assert ps[..i + 1][1..] == ps[1..][..i] && ps[..i][1..] == ps[1..][..i - 1];
    } else {
      assert ps[..1] == [ps[0]] && ps[..1][1..] == [] && ps[..0] == [];
      assert SourcesOfAll(ps[..1]) == Sources(ps[0]) + SourcesOfAll([]);
    }
  }

  lemma {:induction false} SourcesOfMember(ps: seq<Predicate>, i: nat)
    requires i < |ps|
    ensures Sources(ps[i]) <= SourcesOfAll(ps)
  {
    if i > 0 { SourcesOfMember(ps[1..], i - 1); }
  }

  /** Fills the program map; on failure some reachable source does not compile. */
  method WalkAndCompile(env: Env, p: Predicate, already: Go.Programs) returns (ok: bool, out: Go.Programs)
    requires already == ProgramsFor(already.Keys)
    requires AllCompile(env, already.Keys)
    ensures ok <==> AllCompile(env, Sources(p))
    ensures ok ==> out == ProgramsFor(already.Keys + Sources(p))
    decreases p
  {
    out := already;
    if p.Nil? {
      return true, out;
    }
    match p.kind {
      case Cel =>
        if p.source in out {
          assert out.Keys + {p.source} == out.Keys;
          return true, out;
        }
        if !env.celCompiles(p.source) {
          return false, out;
        }
        out := out[p.source := CelProgram(p.source)];
        assert out == ProgramsFor(already.Keys + {p.source});
        return true, out;
      case All =>
        ok, out := WalkEach(env, p.of, out);
      case Any =>
        ok, out := WalkEach(env, p.of, out);
      case Not =>
        ok, out := WalkAndCompile(env, p.ofOne, out);
      case _ =>
        assert already.Keys + Sources(p) == already.Keys;
        ok := true;
    }
  }

  method WalkEach(env: Env, ps: seq<Predicate>, already: Go.Programs) returns (ok: bool, out: Go.Programs)
    requires already == ProgramsFor(already.Keys)
    requires AllCompile(env, already.Keys)
    ensures ok <==> AllCompile(env, SourcesOfAll(ps))
    ensures ok ==> out == ProgramsFor(already.Keys + SourcesOfAll(ps))
    decreases ps
  {
    out := already;
    for i := 0 to |ps|
      invariant AllCompile(env, SourcesOfAll(ps[..i]))
      invariant out == ProgramsFor(already.Keys + SourcesOfAll(ps[..i]))
    {
      SourcesOfPrefix(ps, i);
      ok, out := WalkAndCompile(env, ps[i], out);
      if !ok {
        SourcesOfMember(ps, i);
        return false, out;
      }
      assert already.Keys + SourcesOfAll(ps[..i + 1]) == already.Keys + SourcesOfAll(ps[..i]) + Sources(ps[i]);
    }
    assert ps[..|ps|] == ps;
    ok := true;
  }

  // The compilers

  function CompilePrograms(env: Env, t: RulesTree): Result<Go.Programs, CompileError> {
    var sources := RuleSources(t.RuleSeq());
    if AllCompile(env, sources) then Ok(ProgramsFor(sources)) else Err(CelCompileFailure)
  }

  lemma {:induction false} RuleSourcesPrefix(rules: seq<Rule>, i: nat)
    requires i < |rules|
    ensures RuleSources(rules[..i + 1]) == RuleSources(rules[..i]) + Sources(rules[i].when)
    decreases i
  {
    if i > 0 {
      RuleSourcesPrefix(rules[1..], i - 1);
      assert rules[..i + 1][1..] == rules[1..][..i] && rules[..i][1..] == rules[1..][..i - 1];
    } else {
      assert rules[..1] == [rules[0]] && rules[..1][1..] == [] && rules[..0] == [];
      assert RuleSources(rules[..1]) == Sources(rules[0].when) + RuleSources([]);
    }
  }

  /** `compilePredicates`: the loop over the rules fills one shared map. */
  method CompilePredicates(env: Env, t: RulesTree) returns (r: Result<Go.Programs, CompileError>)
    ensures r == CompilePrograms(env, t)
  {
    var rules := t.RuleSeq();
    var out: Go.Programs := map[];
    for i := 0 to |rules|
      invariant AllCompile(env, RuleSources(rules[..i])) && out == ProgramsFor(RuleSources(rules[..i]))
    {
      RuleSourcesPrefix(rules, i);
      var ok;
      ok, out := WalkAndCompile(env, rules[i].when, out);
      if !ok {
        RuleSourcesMember(rules, i);
        return Err(CelCompileFailure);
      }
      assert out.Keys == RuleSources(rules[..i + 1]);
    }
    assert rules[..|rules|] == rules;
    return Ok(out);
  }

  function CompileJson(env: Env, d: TreeDoc): Result<Compiled, CompileError> {
    var decoded := DecodeTree(d);
    if decoded.Err? then Err(InvalidIr)
    else
      var err := TreeErrors(env, decoded.value, false);
      if err.Some? then Err(err.value) else Ok(Compiled(StrategyJson, decoded.value, map[]))
  }

  function CompileWithCel(env: Env, s: Strategy, d: TreeDoc): Result<Compiled, CompileError> {
    var decoded := DecodeTree(d);
    if decoded.Err? then Err(InvalidIr)
    else
      var err := TreeErrors(env, decoded.value, true);
      if err.Some? then Err(err.value)
      else
        var programs :- CompilePrograms(env, decoded.value);
        Ok(Compiled(s, decoded.value, programs))
  }

  /** A source is an IR document, or TypeScript text whose run emitted a document or failed. */
  datatype Source = Document(d: TreeDoc) | TypeScript(emitted: Option<TreeDoc>)

  function CompileSource(env: Env, s: Strategy, source: Source): Result<Compiled, CompileError> {
    match source
    case Document(d) =>
      (match s
       case StrategyJson => CompileJson(env, d)
       case StrategyCel => CompileWithCel(env, s, d)
       case StrategyTypeScript =>
         // The rehydration fast path; anything it rejects is not TypeScript either.
         var c := CompileWithCel(env, s, d);
         if c.Ok? then c else Err(TypeScriptFailure))
    case TypeScript(emitted) =>
      if s != StrategyTypeScript then Err(InvalidIr)
      else if emitted.None? then Err(TypeScriptFailure)
      else CompileWithCel(env, s, emitted.value)
  }

  predicate AllowsCel(s: Strategy) {
    s != StrategyJson
  }

  /** What acceptance guarantees about the compiled form. */
  ghost predicate Accepted(env: Env, c: Compiled) {
    && TreeErrors(env, c.ir, AllowsCel(c.strategy)).None?
    && (AllowsCel(c.strategy) ==>
          AllCompile(env, RuleSources(c.ir.RuleSeq())) && c.celPrograms == ProgramsFor(RuleSources(c.ir.RuleSeq())))
    && (!AllowsCel(c.strategy) ==> c.celPrograms == map[])
  }

  lemma CompileAccepts(env: Env, s: Strategy, source: Source)
    requires CompileSource(env, s, source).Ok?
    ensures CompileSource(env, s, source).value.strategy == s
    ensures Accepted(env, CompileSource(env, s, source).value)
  {
  }

  // Which errors an accepted tree can still raise

  lemma {:induction false} NoCelNoSources(env: Env, p: Predicate)
    requires ValidPredicate(env, p, false)
    ensures Sources(p) == {}
    decreases p, 1
  {
    match p.kind {
      case All => NoCelNoSourcesAll(env, p.of);
      case Any => NoCelNoSourcesAll(env, p.of);
      case Not => NoCelNoSources(env, p.ofOne);
      case _ =>
    }
  }

  lemma {:induction false} NoCelNoSourcesAll(env: Env, ps: seq<Predicate>)
    requires forall q | q in ps :: ValidPredicate(env, q, false)
    ensures SourcesOfAll(ps) == {}
    decreases ps, 0
  {
    if ps != [] {
      NoCelNoSources(env, ps[0]);
      NoCelNoSourcesAll(env, ps[1..]);
    }
  }

  lemma {:induction false} RuleSourcesMember(rules: seq<Rule>, i: nat)
    requires i < |rules|
    ensures Sources(rules[i].when) <= RuleSources(rules)
  {
    if i > 0 { RuleSourcesMember(rules[1..], i - 1); }
  }

  /** Every CEL node that `match` can reach in an accepted tree has its program. */
  lemma ProgramsComplete(env: Env, c: Compiled, i: nat)
    requires Accepted(env, c) && i < |c.ir.RuleSeq()|
    ensures Sources(c.ir.RuleSeq()[i].when) <= c.celPrograms.Keys
  {
    var rules := c.ir.RuleSeq();
    RuleSourcesMember(rules, i);
    RuleErrorsMeaning(env, rules, AllowsCel(c.strategy));
    assert rules[i] in rules;
    if !AllowsCel(c.strategy) { NoCelNoSources(env, rules[i].when); }
  }

  predicate OnlyRuntimeErrors(r: Go.Res) {
    r.err in {None, Some(Go.CelRuntimeError), Some(Go.PrefixNotString)}
  }

  lemma {:induction false} MatchErrors(env: Env, p: Predicate, allowCel: bool, ctx: Ctx, programs: Go.Programs)
    requires ValidPredicate(env, p, allowCel) && SegmentFree(p) && Sources(p) <= programs.Keys
    ensures OnlyRuntimeErrors(Go.Match(env, p, ctx, programs))
    decreases p, 1
  {
    match p.kind {
      case All => MatchErrorsAll(env, p.of, allowCel, ctx, programs);
      case Any => MatchErrorsAll(env, p.of, allowCel, ctx, programs);
      case Not => MatchErrors(env, p.ofOne, allowCel, ctx, programs);
      case _ =>
    }
  }

  lemma {:induction false} MatchErrorsAll(
    env: Env, ps: seq<Predicate>, allowCel: bool, ctx: Ctx, programs: Go.Programs)
    requires forall q | q in ps :: ValidPredicate(env, q, allowCel)
    requires SegmentFreeAll(ps) && SourcesOfAll(ps) <= programs.Keys
    ensures OnlyRuntimeErrors(Go.MatchAll(env, ps, ctx, programs))
    ensures OnlyRuntimeErrors(Go.MatchAny(env, ps, ctx, programs))
    decreases ps, 0
  {
    if ps != [] {
      MatchErrors(env, ps[0], allowCel, ctx, programs);
      MatchErrorsAll(env, ps[1..], allowCel, ctx, programs);
    }
  }

  ghost predicate SegmentFreeTree(t: RulesTree) {
    forall r | r in t.RuleSeq() :: SegmentFree(r.when)
  }

  /** In an accepted segment-free tree the only errors left are a CEL runtime failure and a
      `starts_with` prefix that is neither a string nor `null`. */
  lemma AcceptedErrors(env: Env, c: Compiled, ctx: Ctx, i: nat)
    requires Accepted(env, c) && SegmentFreeTree(c.ir) && i < |c.ir.RuleSeq()|
    ensures OnlyRuntimeErrors(Go.MatchRule(env, c, ctx, i))
  {
    var rules := c.ir.RuleSeq();
    assert rules[i] in rules;
    RuleErrorsMeaning(env, rules, AllowsCel(c.strategy));
    ProgramsComplete(env, c, i);
    MatchErrors(env, rules[i].when, AllowsCel(c.strategy), ctx, c.celPrograms);
  }

  // The compilers do not see references

  /** Every reference with a key replaced by `always`. */
  function Masked(p: Predicate): Predicate
    decreases p, 1
  {
    if p.Nil? then Nil
    else if p.kind == Segment && p.key != "" then p.(kind := Always)
    else p.(of := MaskedAll(p.of), ofOne := Masked(p.ofOne))
  }

  function MaskedAll(ps: seq<Predicate>): (qs: seq<Predicate>)
    ensures |qs| == |ps| && forall i | 0 <= i < |ps| :: qs[i] == Masked(ps[i])
    decreases ps, 0
  {
    if ps == [] then [] else [Masked(ps[0])] + MaskedAll(ps[1..])
  }

  function MaskedRules(rules: seq<Rule>): seq<Rule> {
    if rules == [] then [] else [rules[0].(when := Masked(rules[0].when))] + MaskedRules(rules[1..])
  }

  function MaskedTree(t: RulesTree): RulesTree {
    t.(rules := if t.rules.None? then None else Some(MaskedRules(t.rules.value)))
  }

  lemma {:induction false} MaskedValid(env: Env, p: Predicate, allowCel: bool)
    ensures ValidPredicate(env, Masked(p), allowCel) <==> ValidPredicate(env, p, allowCel)
    decreases p, 1
  {
    if p.Node? {
      if p.kind in {All, Any} { MaskedListValid(env, p.of, allowCel); }
      if p.kind == Not { MaskedValid(env, p.ofOne, allowCel); }
    }
  }

  lemma MaskedListValid(env: Env, ps: seq<Predicate>, allowCel: bool)
    ensures (forall q | q in MaskedAll(ps) :: ValidPredicate(env, q, allowCel))
            <==> (forall q | q in ps :: ValidPredicate(env, q, allowCel))
    decreases ps, 0
  {
    var qs := MaskedAll(ps);
    forall i | 0 <= i < |ps| ensures ValidPredicate(env, qs[i], allowCel) <==> ValidPredicate(env, ps[i], allowCel) {
      MaskedValid(env, ps[i], allowCel);
    }
    if forall q | q in qs :: ValidPredicate(env, q, allowCel) {
      forall i | 0 <= i < |ps| ensures ValidPredicate(env, ps[i], allowCel) { assert qs[i] in qs; }
    }
    if forall q | q in ps :: ValidPredicate(env, q, allowCel) {
      forall i | 0 <= i < |qs| ensures ValidPredicate(env, qs[i], allowCel) { assert ps[i] in ps; }
    }
  }

  lemma {:induction false} MaskedSources(p: Predicate)
    ensures Sources(Masked(p)) == Sources(p)
    decreases p, 1
  {
    if p.Node? {
      MaskedListSources(p.of);
      MaskedSources(p.ofOne);
    }
  }

  lemma {:induction false} MaskedListSources(ps: seq<Predicate>)
    ensures SourcesOfAll(MaskedAll(ps)) == SourcesOfAll(ps)
    decreases ps, 0
  {
    if ps != [] {
      MaskedSources(ps[0]);
      MaskedListSources(ps[1..]);
      assert MaskedAll(ps)[1..] == MaskedAll(ps[1..]);
    }
  }

  lemma {:induction false} MaskedRuleErrors(env: Env, rules: seq<Rule>, allowCel: bool)
    ensures RuleErrors(env, MaskedRules(rules), allowCel) == RuleErrors(env, rules, allowCel)
    ensures RuleSources(MaskedRules(rules)) == RuleSources(rules)
  {
    if rules != [] {
      MaskedValid(env, rules[0].when, allowCel);
      MaskedSources(rules[0].when);
      MaskedRuleErrors(env, rules[1..], allowCel);
      assert MaskedRules(rules)[1..] == MaskedRules(rules[1..]);
    }
  }

  /** No compiler tells a reference with a key from `always`: on every tree, validation gives the same
      verdict and collection the same sources as on the tree with all such references replaced. */
  lemma ReferencesAreInvisible(env: Env, t: RulesTree, allowCel: bool)
    ensures TreeErrors(env, MaskedTree(t), allowCel) == TreeErrors(env, t, allowCel)
    ensures RuleSources(MaskedTree(t).RuleSeq()) == RuleSources(t.RuleSeq())
  {
    if t.rules.Some? { MaskedRuleErrors(env, t.rules.value, allowCel); }
  }

  /** A segment reference that survives to a compiler is accepted, whatever the strategy, and
      then errors on every context; the compilers do not reject it. */
  lemma SurvivingSegment(env: Env, s: Strategy, key: string, ctx: Ctx)
    requires key != ""
    ensures var p := Ref(key);
            var t := RulesTree(TBoolean, Some(Bool(false)), Some([Rule("r", p, Some(Bool(true)))]));
            && CompileSource(env, s, Document(EncodeTree(t))) == Ok(Compiled(s, t, map[]))
            && Go.Match(env, p, ctx, map[]) == Go.Fail(Go.UnknownKind)
  {
    var p := Ref(key);
    var r := Rule("r", p, Some(Bool(true)));
    var t := RulesTree(TBoolean, Some(Bool(false)), Some([r]));
    TreeRoundTripIff(t);
    RuleErrorsMeaning(env, [r], true);
    RuleErrorsMeaning(env, [r], false);
    assert [r][1..] == [];
    assert RuleSources([r]) == {};
    assert ProgramsFor({}) == map[];
  }

  // Rehydration

  lemma {:induction false} CelSuperset(env: Env, p: Predicate)
    requires ValidPredicate(env, p, false)
    ensures ValidPredicate(env, p, true)
    decreases p
  {
    match p.kind {
      case All => forall q | q in p.of ensures ValidPredicate(env, q, true) { CelSuperset(env, q); }
      case Any => forall q | q in p.of ensures ValidPredicate(env, q, true) { CelSuperset(env, q); }
      case Not => CelSuperset(env, p.ofOne);
      case _ =>
    }
  }

  /** And what holds no reachable CEL is valid without it. */
  lemma {:induction false} CelFreeValid(env: Env, p: Predicate)
    requires ValidPredicate(env, p, true) && Sources(p) == {}
    ensures ValidPredicate(env, p, false)
    decreases p
  {
    if p.kind in {All, Any} {
      forall i | 0 <= i < |p.of| ensures ValidPredicate(env, p.of[i], false) {
        SourcesOfMember(p.of, i);
        CelFreeValid(env, p.of[i]);
      }
    } else if p.kind == Not {
      CelFreeValid(env, p.ofOne);
    }
  }

  lemma AcceptedUnderCel(env: Env, c: Compiled)
    requires Accepted(env, c)
    ensures TreeErrors(env, c.ir, true).None?
    ensures AllCompile(env, RuleSources(c.ir.RuleSeq()))
    ensures ProgramsFor(RuleSources(c.ir.RuleSeq())) == c.celPrograms
  {
    var rules := c.ir.RuleSeq();
    RuleErrorsMeaning(env, rules, false);
    RuleErrorsMeaning(env, rules, true);
    if !AllowsCel(c.strategy) {
      forall r | r in rules ensures ValidRule(env, r, true) && Sources(r.when) == {} {
        CelSuperset(env, r.when);
        NoCelNoSources(env, r.when);
      }
      NoRuleSources(rules);
    }
  }

  lemma {:induction false} NoRuleSources(rules: seq<Rule>)
    requires forall r | r in rules :: Sources(r.when) == {}
    ensures RuleSources(rules) == {}
  {
    if rules != [] { NoRuleSources(rules[1..]); }
  }

  /** What was accepted at publish and persisted is accepted again, under its own strategy and
      under CEL, with the same tree and the same programs. */
  lemma Rehydrates(env: Env, s: Strategy, source: Source)
    requires CompileSource(env, s, source).Ok?
    ensures var c := CompileSource(env, s, source).value;
            && CompileSource(env, s, Document(EncodeTree(c.ir))) == Ok(c)
            && CompileSource(env, StrategyCel, Document(EncodeTree(c.ir))) == Ok(c.(strategy := StrategyCel))
  {
    CompileAccepts(env, s, source);
    var c := CompileSource(env, s, source).value;
    RuleErrorsMeaning(env, c.ir.RuleSeq(), AllowsCel(s));
    TreeRoundTripIff(c.ir);
    AcceptedUnderCel(env, c);
  }

  // Validated trees and the cross-runtime law

  /** What the cross-runtime law asks of a node beyond validity. */
  ghost predicate PortableLeaf(env: Env, p: Predicate)
    requires p.Node?
  {
    && (p.kind in {Eq, Neq} && p.value.Some? ==> ObjectFree(p.value.value))
    && (p.kind == In ==> forall v | v in p.values :: ObjectFree(v))
    && (p.kind == StartsWith ==> p.value != Some(Null))
    && (p.kind == Matches ==> Js.SameRegex(env, p.pattern))
  }

  ghost predicate PortableLeaves(env: Env, p: Predicate)
    decreases p
  {
    p.Node? ==>
      && PortableLeaf(env, p)
      && (forall q | q in p.of :: PortableLeaves(env, q))
      && PortableLeaves(env, p.ofOne)
  }

  lemma {:induction false} ValidIsPortable(env: Env, p: Predicate, allowCel: bool)
    requires ValidPredicate(env, p, allowCel) && Sources(p) == {} && SegmentFree(p) && PortableLeaves(env, p)
    ensures Js.Portable(env, p)
    decreases p
  {
    match p.kind {
      case All => ValidChildrenPortable(env, p, allowCel);
      case Any => ValidChildrenPortable(env, p, allowCel);
      case Not => ValidIsPortable(env, p.ofOne, allowCel);
      case _ =>
    }
  }

  lemma ValidChildrenPortable(env: Env, p: Predicate, allowCel: bool)
    requires p.Node? && p.kind in {All, Any} && SourcesOfAll(p.of) == {}
    requires ValidPredicate(env, p, allowCel) && SegmentFree(p) && PortableLeaves(env, p)
    ensures forall q | q in p.of :: Js.Portable(env, q)
    decreases p, 0
  {
    forall i | 0 <= i < |p.of| ensures Js.Portable(env, p.of[i]) {
      SegmentFreeMember(p.of, i);
      SourcesOfMember(p.of, i);
      ValidIsPortable(env, p.of[i], allowCel);
    }
  }

  lemma {:induction false} SegmentFreeMember(ps: seq<Predicate>, i: nat)
    requires SegmentFreeAll(ps) && i < |ps|
    ensures SegmentFree(ps[i])
  {
    if i > 0 { SegmentFreeMember(ps[1..], i - 1); }
  }

  /** An accepted tree of any strategy, without CEL and without references, evaluated by the Go server and
      by the JavaScript client on a context whose arrays its paths do not enter, gives one decision. */
  lemma ServerAndBrowserAgree(env: Env, c: Compiled, ctx: Ctx, js: Js.CelLite, version: int)
    requires Accepted(env, c) && RuleSources(c.ir.RuleSeq()) == {} && SegmentFreeTree(c.ir) && c.ir.rules.Some?
    requires forall r | r in c.ir.RuleSeq() :: PortableLeaves(env, r.when)
    requires Js.TreeReadsNoArray(c.ir, ctx)
    ensures Js.EvaluateFrom(env, c.ir, ctx, js, version, 0) == Go.Evaluated(env, c, ctx, version)
  {
    var rules := c.ir.RuleSeq();
    RuleErrorsMeaning(env, rules, AllowsCel(c.strategy));
    forall i | 0 <= i < |rules| ensures rules[i].value.Some? && Js.Portable(env, rules[i].when) {
      assert rules[i] in rules;
      RuleSourcesMember(rules, i);
      ValidIsPortable(env, rules[i].when, AllowsCel(c.strategy));
    }
    Js.RuntimesAgree(env, c, ctx, js, version);
  }

  // Where the law stops, on accepted trees

  function OneRule(p: Predicate): Compiled {
    Compiled(StrategyJson, RulesTree(TBoolean, Some(Bool(false)), Some([Rule("r", p, Some(Bool(true)))])), map[])
  }

  lemma OneRuleAccepted(env: Env, p: Predicate)
    requires ValidPredicate(env, p, false)
    ensures Accepted(env, OneRule(p))
  {
    var rules := OneRule(p).ir.RuleSeq();
    assert ValidRule(env, rules[0], false);
    RuleErrorsMeaning(env, rules, false);
  }

  /** What both runtimes decide on such a tree. */
  lemma OneRuleDecides(env: Env, p: Predicate, ctx: Ctx, js: Js.CelLite, version: int)
    ensures var d := Go.Evaluated(env, OneRule(p), ctx, version);
            var m := Go.Match(env, p, ctx, map[]);
            d.reason == if m.err.Some? then ByError
                        else if m.ok then Go.ReasonForRule(OneRule(p).ir.RuleSeq()[0])
                        else ByDefault
    ensures var d := Js.EvaluateFrom(env, OneRule(p).ir, ctx, js, version, 0);
            var m := Js.Match(env, p, ctx, js);
            d.reason == if m.Throws? then ByError else if m.b then Js.ReasonFor(p) else ByDefault
  {
    var c := OneRule(p);
    var m := Go.Match(env, p, ctx, map[]);
    assert Go.MatchRule(env, c, ctx, 0) == m;
    Go.DeciderUnique(env, c, ctx, if m == Go.Hit(false) then 1 else 0);
    assert Js.EvaluateFrom(env, c.ir, ctx, js, version, 1).reason == ByDefault;
  }

  function EqLeaf(attr: string, v: Json): Predicate {
    Node(Eq, attr, Some(v), [], "", "", 0, [], Nil, "", "")
  }

  /** Every path that enters an array splits the runtimes: the tree that asks for the value found there is
      accepted, matches in JavaScript and serves the default in Go. */
  lemma ArrayPathDiffers(env: Env, attr: string, ctx: Ctx, js: Js.CelLite, version: int)
    requires attr != "" && Js.EntersArray(ctx, attr)
    requires Js.LookupPath(ctx, attr).Some? && ObjectFree(Js.LookupPath(ctx, attr).value)
    ensures var c := OneRule(EqLeaf(attr, Js.LookupPath(ctx, attr).value));
            && Accepted(env, c)
            && Go.Evaluated(env, c, ctx, version).reason == ByDefault
            && Js.EvaluateFrom(env, c.ir, ctx, js, version, 0).reason == RuleMatched
  {
    var v := Js.LookupPath(ctx, attr).value;
    var p := EqLeaf(attr, v);
    Js.LookupAgreesIff(ctx, attr);
    Js.EqualIsSame(v, v);
    assert Go.Match(env, p, ctx, map[]) == Go.Hit(false) && Js.Match(env, p, ctx, js) == Js.Returns(true);
    OneRuleAccepted(env, p);
    OneRuleDecides(env, p, ctx, js, version);
  }

  /** And so does a `null` prefix on every context with a string at its attribute. */
  lemma NullPrefixDiffers(env: Env, attr: string, ctx: Ctx, js: Js.CelLite, version: int)
    requires attr != "" && Go.LookupString(ctx, attr).Some?
    ensures var c := OneRule(Node(StartsWith, attr, Some(Null), [], "", "", 0, [], Nil, "", ""));
            && Accepted(env, c)
            && Go.Evaluated(env, c, ctx, version).reason == RuleMatched
            && Js.EvaluateFrom(env, c.ir, ctx, js, version, 0).reason == ByError
  {
    var p := Node(StartsWith, attr, Some(Null), [], "", "", 0, [], Nil, "", "");
    Js.LookupAgreesIff(ctx, attr);
    assert Go.Match(env, p, ctx, map[]) == Go.Hit(true) && Js.Match(env, p, ctx, js) == Js.Throws;
    OneRuleAccepted(env, p);
    OneRuleDecides(env, p, ctx, js, version);
  }
}

/** What the JavaScript client compiles, and when a whole response is lost. */
module JsCompile {
  import opened JsonValues
  import opened Ir
  import Js = JsEval
  import CelSyntax
  import Cel = CelEval
  import Poll = JsPolling

  // Compiling a tree: every CEL source in it, in children of any kind

  /** An empty source is omitted from the persisted form, and the client skips a node without one. */
  function OwnSource(p: Predicate): set<string>
    requires p.Node?
  {
    if p.kind == Kind.Cel && p.source != "" then {p.source} else {}
  }

  function Sources(p: Predicate): set<string>
    decreases p, 1
  {
    if p.Nil? then {}
    else OwnSource(p) + SourcesOfAll(p.of) + Sources(p.ofOne)
  }

  function SourcesOfAll(ps: seq<Predicate>): set<string>
    decreases ps, 0
  {
    if ps == [] then {} else Sources(ps[0]) + SourcesOfAll(ps[1..])
  }

  function RuleSources(rules: seq<Rule>): set<string> {
    if rules == [] then {} else Sources(rules[0].when) + RuleSources(rules[1..])
  }

  /** `None` when cel-lite throws on some source. */
  function CompilePrograms(sources: set<string>): Option<Js.CelLite> {
    if AllCompile(sources) then
      Some(map s | s in sources :: (ctx: Ctx) => var c := Cel.CompileCel(s); c.Ok? && Cel.Holds(c.value, ctx))
    else None
  }

  type Programs = map<string, CelSyntax.Expr>

  predicate Correct(out: Programs) {
    forall s | s in out :: Cel.CompileCel(s) == Ok(out[s])
  }

  predicate AllCompile(sources: set<string>) {
    forall s | s in sources :: Cel.CompileCel(s).Ok?
  }

  /** The programs of `already` and of the given sources, and no others. */
  predicate Extends(out: Programs, already: Programs, sources: set<string>) {
    Correct(out) && out.Keys == already.Keys + sources
  }

  lemma ExtendsMore(out: Programs, mid: Programs, already: Programs, a: set<string>, b: set<string>)
    requires Extends(mid, already, a) && Extends(out, mid, b)
    ensures Extends(out, already, a + b)
  {
  }

  lemma ExtendsCompiles(out: Programs, already: Programs, sources: set<string>)
    requires Extends(out, already, sources)
    ensures AllCompile(sources)
  {
  }

  /** `walkAndCompileCEL`: fills the program table, or throws on the first source that does not
      compile. */
  method WalkAndCompile(preds: seq<Predicate>, already: Programs) returns (ok: bool, out: Programs)
    requires Correct(already)
    ensures ok <==> AllCompile(SourcesOfAll(preds))
    ensures ok ==> Extends(out, already, SourcesOfAll(preds))
    decreases preds, 0
  {
    out := already;
    for i := 0 to |preds|
      invariant Extends(out, already, SourcesOfAll(preds[..i]))
    {
      ghost var mid := out;
      ok, out := CompileOne(preds[i], out);
      if !ok {
        SourcesOfMember(preds, i);
        return;
      }
      SourcesOfPrefix(preds, i);
      ExtendsMore(out, mid, already, SourcesOfAll(preds[..i]), Sources(preds[i]));
    }
    assert preds[..|preds|] == preds;
    ExtendsCompiles(out, already, SourcesOfAll(preds));
    ok := true;
  }

  /** The loop body. */
  method CompileOne(p: Predicate, already: Programs) returns (ok: bool, out: Programs)
    requires Correct(already)
    ensures ok <==> AllCompile(Sources(p))
    ensures ok ==> Extends(out, already, Sources(p))
    decreases p, 1
  {
    out := already;
    if p.Nil? { return true, out; }
    ok, out := CompileOwn(p, out);
    if !ok { return; }
    ok, out := WalkAndCompile(p.of, out);
    if !ok { return; }
    ok, out := CompileOne(p.ofOne, out);
  }

  method CompileOwn(p: Predicate, already: Programs) returns (ok: bool, out: Programs)
    requires p.Node? && Correct(already)
    ensures ok <==> AllCompile(OwnSource(p))
    ensures ok ==> Extends(out, already, OwnSource(p))
  {
    out := already;
    if p.kind == Kind.Cel && p.source != "" && p.source !in out {
      var c := Cel.Compile(p.source);
      if c.Err? { return false, out; }
      out := out[p.source := c.value];
    }
    ok := true;
  }

  lemma OneSource(p: Predicate)
    ensures SourcesOfAll([p]) == Sources(p)
  {
    assert [p][1..] == [];
    assert SourcesOfAll([p]) == Sources(p) + SourcesOfAll([]);
  }

  lemma {:induction false} SourcesOfPrefix(ps: seq<Predicate>, i: nat)
    requires i < |ps|
    ensures SourcesOfAll(ps[..i + 1]) == SourcesOfAll(ps[..i]) + Sources(ps[i])
    decreases i
  {
    if i > 0 {
      SourcesOfPrefix(ps[1..], i - 1);
      assert ps[..i + 1][1..] == ps[1..][..i] && ps[..i][1..] == ps[1..][..i - 1];
    } else {
      assert ps[..1] == [ps[0]] && ps[..0] == [];
      OneSource(ps[0]);
    }
  }

  lemma {:induction false} SourcesOfMember(ps: seq<Predicate>, i: nat)
    requires i < |ps|
    ensures Sources(ps[i]) <= SourcesOfAll(ps)
  {
    if i > 0 { SourcesOfMember(ps[1..], i - 1); }
  }

  datatype JsCompiled = JsCompiled(ir: RulesTree, programs: Js.CelLite)

  /** A `null` rules member has no `map`: the compiler throws on it too. */
  function CompileTree(t: RulesTree): Option<JsCompiled> {
    var programs := CompilePrograms(RuleSources(t.RuleSeq()));
    if t.rules.None? || programs.None? then None else Some(JsCompiled(t, programs.value))
  }

  lemma {:induction false} WhenSources(rules: seq<Rule>)
    ensures SourcesOfAll(WhensOf(rules)) == RuleSources(rules)
  {
    if rules != [] {
      WhenSources(rules[1..]);
      assert WhensOf(rules)[1..] == WhensOf(rules[1..]);
    }
  }

  /** `compile`: the programs decide as cel-lite does on the texts they were compiled from. */
  method CompileIr(t: RulesTree) returns (ok: bool, programs: Programs)
    ensures ok <==> CompileTree(t).Some?
    ensures ok ==> programs.Keys == CompileTree(t).value.programs.Keys
    ensures ok ==> forall s, ctx | s in programs :: CompileTree(t).value.programs[s](ctx) == Cel.Holds(programs[s], ctx)
  {
    if t.rules.None? { return false, map[]; }
    WhenSources(t.RuleSeq());
    ok, programs := WalkAndCompile(WhensOf(t.RuleSeq()), map[]);
  }

  predicate Complete(p: Predicate)
    decreases p
  {
    p.Node? && match p.kind
      case All => forall q | q in p.of :: Complete(q)
      case Any => forall q | q in p.of :: Complete(q)
      case Not => Complete(p.ofOne)
      case StartsWith => p.value.Some? && p.value.value.Str?
      case Cel => p.source != ""
      case _ => true
  }

  /** With its sources compiled and its prefixes strings, a complete predicate never throws. */
  lemma {:induction false} CompiledNeverThrows(env: Env, p: Predicate, ctx: Ctx, programs: Js.CelLite)
    requires Complete(p) && Sources(p) <= programs.Keys
    ensures Js.Match(env, p, ctx, programs).Returns?
    decreases p, 1
  {
    if p.kind in {All, Any} { CompiledListNeverThrows(env, p.of, ctx, programs); }
    else if p.kind == Kind.Not { CompiledNeverThrows(env, p.ofOne, ctx, programs); }
  }

  lemma {:induction false} CompiledListNeverThrows(env: Env, ps: seq<Predicate>, ctx: Ctx, programs: Js.CelLite)
    requires (forall q | q in ps :: Complete(q)) && SourcesOfAll(ps) <= programs.Keys
    ensures Js.Every(env, ps, ctx, programs).Returns? && Js.SomeOf(env, ps, ctx, programs).Returns?
    decreases ps, 0
  {
    if ps != [] {
      assert ps[0] in ps;
      CompiledNeverThrows(env, ps[0], ctx, programs);
      CompiledListNeverThrows(env, ps[1..], ctx, programs);
    }
  }

  /** The body of a poll response, each flag compiled or not. */
  function Received(id: string, version: int, flags: map<string, RulesTree>): Poll.Outcome<JsCompiled> {
    Poll.Body(id, version, map k | k in flags :: CompileTree(flags[k]))
  }

  predicate Compiles(t: RulesTree) {
    t.rules.Some? && AllCompile(RuleSources(t.RuleSeq()))
  }

  /** One flag whose CEL text cel-lite rejects, or whose rules are `null`, loses the whole response:
      the cache does not move. Any other response is cached, with every flag and every program. */
  lemma ResponseLoadsIff(id: string, version: int, flags: map<string, RulesTree>)
    ensures var loaded := Poll.Loaded(Received(id, version, flags));
            && (loaded.Some? <==> forall k | k in flags :: Compiles(flags[k]))
            && (loaded.Some? ==>
                  && loaded.value.flags.Keys == flags.Keys
                  && forall k | k in flags ::
                       && loaded.value.flags[k].ir == flags[k]
                       && loaded.value.flags[k].programs.Keys == RuleSources(flags[k].RuleSeq()))
  {
    var r := Received(id, version, flags);
    assert forall k | k in flags :: r.flags[k].Some? <==> Compiles(flags[k]);
  }
}

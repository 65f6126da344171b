/** Which published trees the explained evaluation is exact on, told from the tree alone. */
module TraceFaithful {
  import opened JsonValues
  import opened Ir
  import opened Compile
  import Go = GoEval
  import opened Trace

  /** Every `starts_with` that evaluation can reach has a string prefix, or `null`. */
  predicate TextPrefixes(p: Predicate)
    decreases p, 1
  {
    if p.Nil? then true
    else match p.kind
      case All => TextPrefixesAll(p.of)
      case Any => TextPrefixesAll(p.of)
      case Not => TextPrefixes(p.ofOne)
      case StartsWith => p.value.Some? ==> p.value.value.Str? || p.value.value.Null?
      case _ => true
  }

  predicate TextPrefixesAll(ps: seq<Predicate>)
    decreases ps, 0
  {
    ps == [] || (TextPrefixes(ps[0]) && TextPrefixesAll(ps[1..]))
  }

  /** No context makes such a predicate record an error, although the trace evaluates every node. */
  lemma {:induction false} ValidTracesClean(env: Env, p: Predicate, ctx: Ctx, programs: Go.Programs)
    requires ValidPredicate(env, p, false) && SegmentFree(p) && TextPrefixes(p)
    ensures TraceMatch(env, p, ctx, programs).err.None?
    decreases p, 1
  {
    if p.kind in {All, Any} {
      ValidListTracesClean(env, p.of, ctx, programs);
    } else if p.kind == Not {
      ValidTracesClean(env, p.ofOne, ctx, programs);
      var t := TraceMatch(env, p.ofOne, ctx, programs);
      assert FirstErr([t]) == t.err;
    }
  }

  lemma {:induction false} ValidListTracesClean(env: Env, ps: seq<Predicate>, ctx: Ctx, programs: Go.Programs)
    requires (forall q | q in ps :: ValidPredicate(env, q, false)) && SegmentFreeAll(ps) && TextPrefixesAll(ps)
    ensures FirstErr(TraceEach(env, ps, ctx, programs)).None?
    decreases ps, 0
  {
    if ps != [] {
      assert ps[0] in ps;
      ValidTracesClean(env, ps[0], ctx, programs);
      ValidListTracesClean(env, ps[1..], ctx, programs);
      assert TraceEach(env, ps, ctx, programs)[1..] == TraceEach(env, ps[1..], ctx, programs);
    }
  }

  /** On an accepted tree of any strategy, without CEL and references and with string prefixes, the
      explained evaluation returns the plain decision on every context, as its comment promises for all
      trees. */
  lemma TraceIsFaithful(env: Env, c: Compiled, ctx: Ctx, version: int)
    requires Accepted(env, c) && RuleSources(c.ir.RuleSeq()) == {} && SegmentFreeTree(c.ir)
    requires forall r | r in c.ir.RuleSeq() :: TextPrefixes(r.when)
    ensures TracedDecision(env, c, ctx, version) == Go.Evaluated(env, c, ctx, version)
  {
    var rules, k := c.ir.RuleSeq(), Go.Decider(env, c, ctx, 0);
    if k < |rules| {
      RuleErrorsMeaning(env, rules, AllowsCel(c.strategy));
      assert rules[k] in rules;
      RuleSourcesMember(rules, k);
      if AllowsCel(c.strategy) { CelFreeValid(env, rules[k].when); }
      ValidTracesClean(env, rules[k].when, ctx, c.celPrograms);
    }
    TraceSameDecision(env, c, ctx, version);
  }

  /** `any(always, starts_with(attr, 5))` */
  function ErrorBehindMatch(attr: string): Predicate {
    Branch(Any, [Branch(Always, [], Nil), BadPrefix(attr)], Nil)
  }

  function DifferingTree(attr: string): Compiled {
    var rule := Rule("r", ErrorBehindMatch(attr), Some(Bool(true)));
    Compiled(StrategyJson, RulesTree(TBoolean, Some(Bool(false)), Some([rule])), map[])
  }

  lemma DifferingMatch(env: Env, attr: string, ctx: Ctx)
    requires Go.LookupString(ctx, attr).Some?
    ensures Go.Match(env, ErrorBehindMatch(attr), ctx, map[]) == Go.Hit(true)
    ensures TraceMatch(env, ErrorBehindMatch(attr), ctx, map[]).err.Some?
  {
    var always, bad := Branch(Always, [], Nil), BadPrefix(attr);
    var ts := TraceEach(env, [always, bad], ctx, map[]);
    assert Go.Match(env, always, ctx, map[]) == Go.Hit(true);
    assert Go.Match(env, bad, ctx, map[]) == Go.Fail(Go.PrefixNotString);
    assert ts[0].err == None && ts[1].err == Some(Go.PrefixNotString);
    assert ts[1..] == [ts[1]];
    assert FirstErr(ts) == FirstErr([ts[1]]) == ts[1].err;
  }

  lemma DifferingIsAccepted(env: Env, attr: string)
    requires attr != ""
    ensures Accepted(env, DifferingTree(attr)) && SegmentFreeTree(DifferingTree(attr).ir)
  {
    var c := DifferingTree(attr);
    var p := c.ir.RuleSeq()[0].when;
    assert p.of[1..] == [BadPrefix(attr)] && p.of[1..][1..] == [];
    assert SegmentFreeAll([]) && SegmentFree(p.of[0]) && SegmentFree(BadPrefix(attr)) && SegmentFreeAll(p.of[1..]);
    assert SegmentFreeAll(p.of) && SegmentFree(p);
    forall q | q in p.of ensures ValidPredicate(env, q, false) { }
    assert ValidRule(env, c.ir.RuleSeq()[0], false);
    RuleErrorsMeaning(env, c.ir.RuleSeq(), false);
  }

  /** An accepted tree, without CEL and references, on which the promise fails: every context with a string
      at the attribute gets the rule's value from the plain evaluation and the default from the explained. */
  lemma TraceDiffers(env: Env, attr: string, ctx: Ctx, version: int)
    requires attr != "" && Go.LookupString(ctx, attr).Some?
    ensures var c := DifferingTree(attr);
            && Accepted(env, c) && SegmentFreeTree(c.ir)
            && Go.Evaluated(env, c, ctx, version) == Decision(Bool(true), RuleMatched, "r", version)
            && TracedDecision(env, c, ctx, version) == Decision(Bool(false), ByDefault, "", version)
  {
    var c := DifferingTree(attr);
    DifferingIsAccepted(env, attr);
    DifferingMatch(env, attr, ctx);
    assert Go.MatchRule(env, c, ctx, 0) == Go.Hit(true);
    Go.DeciderUnique(env, c, ctx, 0);
    assert TraceOfRule(env, c, ctx, 0).err.Some?;
    TracedWinnerUnique(env, c, ctx, 1);
  }
}

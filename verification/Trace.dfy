/** The exhaustive, trace-recording evaluator and how it relates to `Evaluate`. */
module Trace {
  import opened JsonValues
  import opened Ir
  import opened Rollout
  import opened GoEval

  /** `kind` is `None` for the placeholder node of a nil predicate. A missing attribute or value is
      recorded as `null`, like a present `null`. */
  datatype TraceNode = TraceNode(
    kind: Option<Kind>, attr: string, attrValue: Json, expected: Json,
    expectedValues: seq<Json>, pattern: string, salt: string, percent: int, bucket: nat,
    source: string, result: bool, children: seq<TraceNode>)

  datatype Traced = Traced(node: TraceNode, ok: bool, err: Option<MatchError>)

  datatype TraceRule = TraceRule(id: string, matched: bool, node: TraceNode, err: Option<MatchError>)

  datatype RunTrace = RunTrace(evaluatedRules: seq<TraceRule>, defaultUsed: bool, matchedRuleId: string)

  function Blank(kind: Option<Kind>): TraceNode {
    TraceNode(kind, "", Null, Null, [], "", "", 0, 0, "", false, [])
  }

  /** What `lookupString` leaves in an `any`: the empty string on a miss. */
  function StringOrEmpty(s: Option<string>): Json {
    Str(if s.Some? then s.value else "")
  }

  /** The fields a leaf node records about its inputs, before the result. */
  function LeafNode(p: Predicate, ctx: Ctx): TraceNode
    requires p.Node?
  {
    var node := Blank(Some(p.kind));
    match p.kind
    case Eq => Compared(node, p, ctx)
    case Neq => Compared(node, p, ctx)
    case StartsWith => Compared(node, p, ctx)
    case Gt => Compared(node, p, ctx)
    case Gte => Compared(node, p, ctx)
    case Lt => Compared(node, p, ctx)
    case Lte => Compared(node, p, ctx)
    case In => node.(attr := p.attr, attrValue := DecodeValue(LookupPath(ctx, p.attr)), expectedValues := p.values)
    case Matches =>
      node.(attr := p.attr, attrValue := StringOrEmpty(LookupString(ctx, p.attr)), pattern := p.pattern)
    case Rollout =>
      var actual := LookupString(ctx, p.attr);
      node.(attr := p.attr, salt := p.salt, percent := p.percent, attrValue := StringOrEmpty(actual),
            bucket := if actual.Some? then Bucket(Utf8(p.salt), Utf8(actual.value)) else 0)
    case Cel => node.(source := p.source)
    case _ => node
  }

  function Compared(node: TraceNode, p: Predicate, ctx: Ctx): TraceNode
    requires p.Node?
  {
    node.(attr := p.attr, attrValue := DecodeValue(LookupPath(ctx, p.attr)), expected := DecodeValue(p.value))
  }

  predicate AllOk(ts: seq<Traced>) {
    forall t | t in ts :: t.ok
  }

  predicate AnyOk(ts: seq<Traced>) {
    exists t | t in ts :: t.ok
  }

  function FirstErr(ts: seq<Traced>): Option<MatchError> {
    if ts == [] then None else if ts[0].err.Some? then ts[0].err else FirstErr(ts[1..])
  }

  function Nodes(ts: seq<Traced>): seq<TraceNode> {
    seq(|ts|, i requires 0 <= i < |ts| => ts[i].node)
  }

  /** The outcome of a composite node: its result is true only without an error. */
  function Composite(kind: Kind, ts: seq<Traced>, holds: bool): Traced {
    var err := FirstErr(ts);
    var result := holds && err.None?;
    Traced(Blank(Some(kind)).(result := result, children := Nodes(ts)), result, err)
  }

  function TraceMatch(env: Env, p: Predicate, ctx: Ctx, programs: Programs): Traced
    decreases p, 1
  {
    if p.Nil? then Traced(Blank(None), false, None)
    else match p.kind
      case All => var ts := TraceEach(env, p.of, ctx, programs); Composite(All, ts, AllOk(ts))
      case Any => var ts := TraceEach(env, p.of, ctx, programs); Composite(Any, ts, AnyOk(ts))
      case Not =>
        var t := TraceMatch(env, p.ofOne, ctx, programs);
        Composite(Not, [t], !t.ok)
      case Segment => Traced(Blank(Some(p.kind)), false, Some(UnknownKind))
      case Unknown(_) => Traced(Blank(Some(p.kind)), false, Some(UnknownKind))
      case _ =>
        var r := Match(env, p, ctx, programs);
        Traced(LeafNode(p, ctx).(result := r.ok), r.ok, r.err)
  }

  function TraceEach(env: Env, ps: seq<Predicate>, ctx: Ctx, programs: Programs): (ts: seq<Traced>)
    ensures |ts| == |ps|
    ensures forall i | 0 <= i < |ps| :: ts[i] == TraceMatch(env, ps[i], ctx, programs)
    decreases ps, 0
  {
    if ps == [] then []
    else [TraceMatch(env, ps[0], ctx, programs)] + TraceEach(env, ps[1..], ctx, programs)
  }

  lemma {:induction false} FirstErrSnoc(ts: seq<Traced>, t: Traced)
    ensures FirstErr(ts + [t]) == if FirstErr(ts).Some? then FirstErr(ts) else t.err
  {
    if ts == [] {
      assert (ts + [t])[1..] == [];
    } else {
      assert (ts + [t])[1..] == ts[1..] + [t];
      FirstErrSnoc(ts[1..], t);
    }
  }

  lemma Snoc(ts: seq<Traced>, t: Traced)
    ensures Nodes(ts + [t]) == Nodes(ts) + [t.node]
    ensures AllOk(ts + [t]) <==> AllOk(ts) && t.ok
    ensures AnyOk(ts + [t]) <==> AnyOk(ts) || t.ok
  {
    var all := ts + [t];
    assert all[|ts|] == t && forall x :: x in all <==> x in ts || x == t;
  }

  /** The recursive walk with its accumulating loops. */
  method RunTraceMatch(env: Env, p: Predicate, ctx: Ctx, programs: Programs)
    returns (node: TraceNode, ok: bool, err: Option<MatchError>)
    ensures Traced(node, ok, err) == TraceMatch(env, p, ctx, programs)
    decreases p, 1
  {
    if p.Nil? {
      return Blank(None), false, None;
    }
    match p.kind {
      case All =>
        node, ok, err := RunTraceAll(env, p.of, ctx, programs);
      case Any =>
        node, ok, err := RunTraceAny(env, p.of, ctx, programs);
      case Not =>
        var child, cok, cerr := RunTraceMatch(env, p.ofOne, ctx, programs);
        node := Blank(Some(Not)).(children := [child], result := !cok && cerr.None?);
        ok, err := node.result, cerr;
        assert FirstErr([Traced(child, cok, cerr)]) == cerr;
        assert Nodes([Traced(child, cok, cerr)]) == [child];
      case Segment =>
        node, ok, err := Blank(Some(p.kind)), false, Some(UnknownKind);
      case Unknown(_) =>
        node, ok, err := Blank(Some(p.kind)), false, Some(UnknownKind);
      case _ =>
        var r := Match(env, p, ctx, programs);
        node := LeafNode(p, ctx).(result := r.ok);
        ok, err := r.ok, r.err;
    }
  }

  method RunTraceAll(env: Env, ps: seq<Predicate>, ctx: Ctx, programs: Programs)
    returns (node: TraceNode, ok: bool, err: Option<MatchError>)
    ensures var ts := TraceEach(env, ps, ctx, programs); Traced(node, ok, err) == Composite(All, ts, AllOk(ts))
    decreases ps, 0
  {
    node := Blank(Some(All));
    var all := true;
    err := None;
    ghost var ts: seq<Traced> := [];
    for i := 0 to |ps|
      invariant |ts| == i && forall j | 0 <= j < i :: ts[j] == TraceMatch(env, ps[j], ctx, programs)
      invariant node == Blank(Some(All)).(children := Nodes(ts))
      invariant all == AllOk(ts) && err == FirstErr(ts)
    {
      var child, cok, cerr := RunTraceMatch(env, ps[i], ctx, programs);
      node := node.(children := node.children + [child]);
      if cerr.Some? && err.None? { err := cerr; }
      if !cok { all := false; }
      FirstErrSnoc(ts, Traced(child, cok, cerr));
      Snoc(ts, Traced(child, cok, cerr));
      ts := ts + [Traced(child, cok, cerr)];
    }
    node := node.(result := all && err.None?);
    ok := node.result;
    assert ts == TraceEach(env, ps, ctx, programs);
  }

  method RunTraceAny(env: Env, ps: seq<Predicate>, ctx: Ctx, programs: Programs)
    returns (node: TraceNode, ok: bool, err: Option<MatchError>)
    ensures var ts := TraceEach(env, ps, ctx, programs); Traced(node, ok, err) == Composite(Any, ts, AnyOk(ts))
    decreases ps, 0
  {
    node := Blank(Some(Any));
    var any := false;
    err := None;
    ghost var ts: seq<Traced> := [];
    for i := 0 to |ps|
      invariant |ts| == i && forall j | 0 <= j < i :: ts[j] == TraceMatch(env, ps[j], ctx, programs)
      invariant node == Blank(Some(Any)).(children := Nodes(ts))
      invariant any == AnyOk(ts) && err == FirstErr(ts)
    {
      var child, cok, cerr := RunTraceMatch(env, ps[i], ctx, programs);
      node := node.(children := node.children + [child]);
      if cerr.Some? && err.None? { err := cerr; }
      if cok { any := true; }
      FirstErrSnoc(ts, Traced(child, cok, cerr));
      Snoc(ts, Traced(child, cok, cerr));
      ts := ts + [Traced(child, cok, cerr)];
    }
    node := node.(result := any && err.None?);
    ok := node.result;
    assert ts == TraceEach(env, ps, ctx, programs);
  }

  // The trace agrees with the short-circuiting evaluator

  /** A leaf records the value at its attribute, and the recorded inputs alone decide the recorded
      result: a reader of the trace can redo the comparison. */
  predicate LeafExplained(node: TraceNode, env: Env, ctx: Ctx) {
    if node.kind.None? then !node.result
    else
      var found, text := LookupPath(ctx, node.attr), LookupString(ctx, node.attr);
      match node.kind.value
      case Eq => Recalls(node, found) && (node.result <==> found.Some? && JsonEqual(node.attrValue, node.expected))
      case Neq => Recalls(node, found) && (node.result <==> !(found.Some? && JsonEqual(node.attrValue, node.expected)))
      case In => Recalls(node, found) && (node.result <==> found.Some? && EqualsSome(node.attrValue, node.expectedValues))
      case Gt => Recalls(node, found) && (node.result <==> BothNumbers(node) && node.attrValue.n > node.expected.n)
      case Gte => Recalls(node, found) && (node.result <==> BothNumbers(node) && node.attrValue.n >= node.expected.n)
      case Lt => Recalls(node, found) && (node.result <==> BothNumbers(node) && node.attrValue.n < node.expected.n)
      case Lte => Recalls(node, found) && (node.result <==> BothNumbers(node) && node.attrValue.n <= node.expected.n)
      case StartsWith =>
        Recalls(node, found) &&
        (node.result <==> node.attrValue.Str? && (node.expected.Str? ==> node.expected.s <= node.attrValue.s))
      case Matches =>
        var re := env.goRegex(node.pattern);
        && (text.Some? ==> node.attrValue == Str(text.value))
        && (node.result <==> text.Some? && re.Some? && re.value(text.value))
      case Rollout =>
        && (text.Some? ==> node.attrValue == Str(text.value) && node.bucket == Bucket(Utf8(node.salt), Utf8(text.value)))
        && (node.result <==> text.Some? && node.bucket < 100 * node.percent)
      case _ => true
  }

  predicate Recalls(node: TraceNode, found: Option<Json>) {
    node.attrValue == DecodeValue(found)
  }

  predicate BothNumbers(node: TraceNode) {
    node.attrValue.Num? && node.expected.Num?
  }

  /** Every recorded node carries the match result of the predicate it stands for. */
  ghost predicate Explains(env: Env, node: TraceNode, p: Predicate, ctx: Ctx, programs: Programs)
    decreases p
  {
    && Match(env, p, ctx, programs) == Hit(node.result)
    && node.kind == (if p.Nil? then None else Some(p.kind))
    && LeafExplained(node, env, ctx)
    && (p.Node? && p.kind == Cel ==> node.source == p.source)
    && (p.Node? && p.kind in {All, Any} ==>
          && |node.children| == |p.of|
          && forall i | 0 <= i < |p.of| :: Explains(env, node.children[i], p.of[i], ctx, programs))
    && (p.Node? && p.kind == Not ==>
          |node.children| == 1 && Explains(env, node.children[0], p.ofOne, ctx, programs))
  }

  /** An error-free trace gives the boolean of `match`, at the root and at every recorded node,
      although `match` stops early and the trace does not. */
  lemma {:induction false} TraceAgrees(env: Env, p: Predicate, ctx: Ctx, programs: Programs)
    requires TraceMatch(env, p, ctx, programs).err.None?
    ensures Match(env, p, ctx, programs) == Hit(TraceMatch(env, p, ctx, programs).ok)
    ensures Explains(env, TraceMatch(env, p, ctx, programs).node, p, ctx, programs)
    decreases p, 1
  {
    if p.Node? && p.kind in {All, Any} {
      EachAgrees(env, p.of, ctx, programs);
      ListMatchAgrees(env, p, ctx, programs);
      ListNodeAgrees(env, p, ctx, programs);
    } else if p.Node? && p.kind == Not {
      TraceAgrees(env, p.ofOne, ctx, programs);
    } else if p.Node? {
      LeafIsExplained(env, p, ctx, programs);
    }
  }

  lemma TraceSameBoolean(env: Env, p: Predicate, ctx: Ctx, programs: Programs)
    requires TraceMatch(env, p, ctx, programs).err.None?
    ensures Match(env, p, ctx, programs) == Hit(TraceMatch(env, p, ctx, programs).ok)
  {
    TraceAgrees(env, p, ctx, programs);
  }

  ghost predicate ChildrenAgree(env: Env, ps: seq<Predicate>, ctx: Ctx, programs: Programs) {
    forall i | 0 <= i < |ps| ::
      && Match(env, ps[i], ctx, programs) == Hit(TraceMatch(env, ps[i], ctx, programs).ok)
      && Explains(env, TraceMatch(env, ps[i], ctx, programs).node, ps[i], ctx, programs)
  }

  lemma ListMatchAgrees(env: Env, p: Predicate, ctx: Ctx, programs: Programs)
    requires p.Node? && p.kind in {All, Any} && TraceMatch(env, p, ctx, programs).err.None?
    requires ChildrenAgree(env, p.of, ctx, programs)
    ensures Match(env, p, ctx, programs) == Hit(TraceMatch(env, p, ctx, programs).ok)
  {
    AllAnyAgree(env, p.of, ctx, programs);
    assert Match(env, p, ctx, programs)
        == if p.kind == All then MatchAll(env, p.of, ctx, programs) else MatchAny(env, p.of, ctx, programs);
  }

  lemma ListNodeAgrees(env: Env, p: Predicate, ctx: Ctx, programs: Programs)
    requires p.Node? && p.kind in {All, Any} && ChildrenAgree(env, p.of, ctx, programs)
    requires Match(env, p, ctx, programs) == Hit(TraceMatch(env, p, ctx, programs).ok)
    ensures Explains(env, TraceMatch(env, p, ctx, programs).node, p, ctx, programs)
  {
    var node, ts := TraceMatch(env, p, ctx, programs).node, TraceEach(env, p.of, ctx, programs);
    assert node.children == Nodes(ts);
    assert node.kind == Some(p.kind);
  }

  lemma LeafIsExplained(env: Env, p: Predicate, ctx: Ctx, programs: Programs)
    requires p.Node? && p.kind !in {All, Any, Not, Segment} && !p.kind.Unknown?
    requires Match(env, p, ctx, programs).Clean()
    ensures LeafExplained(LeafNode(p, ctx).(result := Match(env, p, ctx, programs).ok), env, ctx)
  {
    if p.kind in {Gt, Gte, Lt, Lte} {
      OrderingIsExplained(env, p, ctx, programs);
    } else {
      OtherLeafIsExplained(env, p, ctx, programs);
    }
  }

  lemma OrderingIsExplained(env: Env, p: Predicate, ctx: Ctx, programs: Programs)
    requires p.Node? && p.kind in {Gt, Gte, Lt, Lte} && Match(env, p, ctx, programs).Clean()
    ensures LeafExplained(LeafNode(p, ctx).(result := Match(env, p, ctx, programs).ok), env, ctx)
  {
  }

  lemma OtherLeafIsExplained(env: Env, p: Predicate, ctx: Ctx, programs: Programs)
    requires p.Node? && p.kind !in {All, Any, Not, Segment, Gt, Gte, Lt, Lte} && !p.kind.Unknown?
    requires Match(env, p, ctx, programs).Clean()
    ensures LeafExplained(LeafNode(p, ctx).(result := Match(env, p, ctx, programs).ok), env, ctx)
  {
  }

  lemma {:induction false} EachAgrees(env: Env, ps: seq<Predicate>, ctx: Ctx, programs: Programs)
    requires FirstErr(TraceEach(env, ps, ctx, programs)).None?
    ensures ChildrenAgree(env, ps, ctx, programs)
    decreases ps, 0
  {
    if ps != [] {
      var ts := TraceEach(env, ps, ctx, programs);
      assert ts[1..] == TraceEach(env, ps[1..], ctx, programs);
      TraceAgrees(env, ps[0], ctx, programs);
      EachAgrees(env, ps[1..], ctx, programs);
      assert forall i | 1 <= i < |ps| :: ps[i] == ps[1..][i - 1];
    }
  }

  lemma {:induction false} AllAnyAgree(env: Env, ps: seq<Predicate>, ctx: Ctx, programs: Programs)
    requires forall i | 0 <= i < |ps| ::
               Match(env, ps[i], ctx, programs) == Hit(TraceMatch(env, ps[i], ctx, programs).ok)
    ensures MatchAll(env, ps, ctx, programs) == Hit(AllOk(TraceEach(env, ps, ctx, programs)))
    ensures MatchAny(env, ps, ctx, programs) == Hit(AnyOk(TraceEach(env, ps, ctx, programs)))
    decreases |ps|
  {
    if ps != [] {
      var ts := TraceEach(env, ps, ctx, programs);
      assert ts[1..] == TraceEach(env, ps[1..], ctx, programs);
      assert ts == [ts[0]] + ts[1..];
      AllAnyAgree(env, ps[1..], ctx, programs);
    }
  }

  // Whole runs

  function TraceOfRule(env: Env, c: Compiled, ctx: Ctx, i: nat): Traced
    requires i < |c.ir.RuleSeq()|
  {
    TraceMatch(env, c.ir.RuleSeq()[i].when, ctx, c.celPrograms)
  }

  function Recorded(env: Env, c: Compiled, ctx: Ctx, i: nat): TraceRule
    requires i < |c.ir.RuleSeq()|
  {
    var t := TraceOfRule(env, c, ctx, i);
    TraceRule(c.ir.RuleSeq()[i].id, t.ok && t.err.None?, t.node, t.err)
  }

  /** `EvaluateWithTrace`: `w` is the index of the rule it served, or the number of rules. */
  method EvaluateWithTrace(env: Env, c: Compiled, ctx: Ctx, version: int)
    returns (d: Decision, trace: RunTrace, w: nat)
    ensures w <= |c.ir.RuleSeq()|
    ensures |trace.evaluatedRules| == |c.ir.RuleSeq()|
    ensures forall i | 0 <= i < |c.ir.RuleSeq()| :: trace.evaluatedRules[i] == Recorded(env, c, ctx, i)
    ensures forall i | 0 <= i < w :: !Recorded(env, c, ctx, i).matched
    ensures w < |c.ir.RuleSeq()| ==>
              && Recorded(env, c, ctx, w).matched
              && trace.matchedRuleId == c.ir.RuleSeq()[w].id && !trace.defaultUsed
              && d == Serve(c, c.ir.RuleSeq()[w], version)
    ensures w == |c.ir.RuleSeq()| ==>
              trace.defaultUsed && trace.matchedRuleId == "" && d == DefaultDecision(c, version)
    ensures d == TracedDecision(env, c, ctx, version)
  {
    var defValue := DecodeValue(c.ir.default);
    var rules := c.ir.RuleSeq();
    var evaluated: seq<TraceRule> := [];
    w := |rules|;
    for i := 0 to |rules|
      invariant |evaluated| == i
      invariant forall j | 0 <= j < i :: evaluated[j] == Recorded(env, c, ctx, j)
      invariant w < i || w == |rules|
      invariant w < i ==> Recorded(env, c, ctx, w).matched
      invariant forall j | 0 <= j < i && j < w :: !Recorded(env, c, ctx, j).matched
    {
      var node, ok, err := RunTraceMatch(env, rules[i].when, ctx, c.celPrograms);
      assert TraceOfRule(env, c, ctx, i) == Traced(node, ok, err);
      var tr := TraceRule(rules[i].id, ok && err.None?, node, err);
      evaluated := evaluated + [tr];
      if w == |rules| && tr.matched {
        w := i;
      }
    }
    TracedWinnerUnique(env, c, ctx, w);
    trace := RunTrace(evaluated, w == |rules|, if w == |rules| then "" else rules[w].id);
    if w == |rules| {
      return Decision(defValue, ByDefault, "", version), trace, w;
    }
    var v := DecodeValue(rules[w].value);
    if !ValueMatchesType(v, c.ir.valueType) {
      return Decision(defValue, TypeMismatch, rules[w].id, version), trace, w;
    }
    return Decision(v, ReasonForRule(rules[w]), rules[w].id, version), trace, w;
  }

  function TracedWinner(env: Env, c: Compiled, ctx: Ctx, i: nat): (w: nat)
    requires i <= |c.ir.RuleSeq()|
    ensures i <= w <= |c.ir.RuleSeq()|
    ensures forall j | i <= j < w :: !Recorded(env, c, ctx, j).matched
    ensures w < |c.ir.RuleSeq()| ==> Recorded(env, c, ctx, w).matched
    decreases |c.ir.RuleSeq()| - i
  {
    if i == |c.ir.RuleSeq()| || Recorded(env, c, ctx, i).matched then i
    else TracedWinner(env, c, ctx, i + 1)
  }

  lemma TracedWinnerUnique(env: Env, c: Compiled, ctx: Ctx, w: nat)
    requires w <= |c.ir.RuleSeq()|
    requires forall j | 0 <= j < w :: !Recorded(env, c, ctx, j).matched
    requires w < |c.ir.RuleSeq()| ==> Recorded(env, c, ctx, w).matched
    ensures TracedWinner(env, c, ctx, 0) == w
  {
  }

  function TracedDecision(env: Env, c: Compiled, ctx: Ctx, version: int): Decision {
    var w := TracedWinner(env, c, ctx, 0);
    if w == |c.ir.RuleSeq()| then DefaultDecision(c, version)
    else Serve(c, c.ir.RuleSeq()[w], version)
  }

  /** Rules that `Evaluate` steps over are never served by the trace either. */
  lemma TraceSkipsToDecider(env: Env, c: Compiled, ctx: Ctx)
    ensures Decider(env, c, ctx, 0) <= TracedWinner(env, c, ctx, 0)
  {
    var k := Decider(env, c, ctx, 0);
    forall j | 0 <= j < k ensures !Recorded(env, c, ctx, j).matched {
      if TraceOfRule(env, c, ctx, j).err.None? {
        TraceSameBoolean(env, c.ir.RuleSeq()[j].when, ctx, c.celPrograms);
        assert MatchRule(env, c, ctx, j) == Hit(false);
      }
    }
  }

  /** Clean means that the rule deciding `Evaluate`, if there is one, traces without an error. */
  predicate DeciderTracesClean(env: Env, c: Compiled, ctx: Ctx) {
    var k := Decider(env, c, ctx, 0);
    k < |c.ir.RuleSeq()| ==> TraceOfRule(env, c, ctx, k).err.None?
  }

  /** Errors recorded on any other rule, before or after, do not change the decision. */
  lemma TraceSameDecision(env: Env, c: Compiled, ctx: Ctx, version: int)
    requires DeciderTracesClean(env, c, ctx)
    ensures TracedDecision(env, c, ctx, version) == Evaluated(env, c, ctx, version)
  {
    TraceSkipsToDecider(env, c, ctx);
    var k := Decider(env, c, ctx, 0);
    if k < |c.ir.RuleSeq()| {
      TraceSameBoolean(env, c.ir.RuleSeq()[k].when, ctx, c.celPrograms);
      assert MatchRule(env, c, ctx, k).Fires();
      assert Recorded(env, c, ctx, k).matched;
    }
  }

  /** Two rules under one id: both hold the same value, of the flag's type, and the same reason, or both
      hold values of the wrong type. */
  predicate Twins(c: Compiled, a: Rule, b: Rule) {
    var v, w := DecodeValue(a.value), DecodeValue(b.value);
    && a.id == b.id
    && (if ValueMatchesType(v, c.ir.valueType) then v == w && ReasonForRule(a) == ReasonForRule(b)
        else !ValueMatchesType(w, c.ir.valueType))
  }

  /** The deciding rule fires but traces with an error, and the later rule that traces as matched is its
      twin. */
  predicate LaterTwin(env: Env, c: Compiled, ctx: Ctx) {
    var rules, k, w := c.ir.RuleSeq(), Decider(env, c, ctx, 0), TracedWinner(env, c, ctx, 0);
    k < w < |rules| && MatchRule(env, c, ctx, k).Fires() && Twins(c, rules[k], rules[w])
  }

  lemma TwinsServeTheSame(c: Compiled, a: Rule, b: Rule, version: int)
    ensures Serve(c, a, version) == Serve(c, b, version) <==> Twins(c, a, b)
  {
  }

  /** The two entry points return the same decision exactly when the deciding rule traces cleanly, or the
      rule traced instead is a twin of it: the documented agreement fails on every other input. */
  lemma TraceSameDecisionIff(env: Env, c: Compiled, ctx: Ctx, version: int)
    ensures TracedDecision(env, c, ctx, version) == Evaluated(env, c, ctx, version)
            <==> DeciderTracesClean(env, c, ctx) || LaterTwin(env, c, ctx)
  {
    TraceSkipsToDecider(env, c, ctx);
    if DeciderTracesClean(env, c, ctx) {
      TraceSameDecision(env, c, ctx, version);
    } else {
      var rules, k, w := c.ir.RuleSeq(), Decider(env, c, ctx, 0), TracedWinner(env, c, ctx, 0);
      assert !Recorded(env, c, ctx, k).matched;
      if w < |rules| { TwinsServeTheSame(c, rules[k], rules[w], version); }
    }
  }

  predicate DistinctRuleIds(c: Compiled) {
    var rules := c.ir.RuleSeq();
    forall i, j | 0 <= i < j < |rules| :: rules[i].id != rules[j].id
  }

  /** With distinct rule ids, which nothing checks, the second case is empty. */
  lemma DistinctIdsTraceIff(env: Env, c: Compiled, ctx: Ctx, version: int)
    requires DistinctRuleIds(c)
    ensures TracedDecision(env, c, ctx, version) == Evaluated(env, c, ctx, version)
            <==> DeciderTracesClean(env, c, ctx)
  {
    TraceSameDecisionIff(env, c, ctx, version);
  }
}

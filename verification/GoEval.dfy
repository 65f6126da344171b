/** The Go evaluator: short-circuiting `match` and first-match-wins `Evaluate`. */
module GoEval {
  import opened JsonValues
  import opened Ir
  import opened Rollout

  type Programs = map<string, CelProgram>

  datatype MatchError =
    | ValueUndecodable
    | PatternInvalid
    | PrefixNotString
    | CelProgramMissing
    | CelRuntimeError
    | UnknownKind

  /** Go's `(bool, error)` pair. The boolean may be true beside an error, as `not` produces. */
  datatype Res = Res(ok: bool, err: Option<MatchError>)
  {
    predicate Clean() { err.None? }

    predicate Fires() { err.None? && ok }
  }

  function Hit(ok: bool): Res { Res(ok, None) }

  function Fail(e: MatchError): Res { Res(false, Some(e)) }

  // Attribute lookup

  function Walk(cur: Json, parts: seq<string>): Option<Json> {
    if parts == [] then Some(cur)
    else if cur.Obj? && parts[0] in cur.fields then Walk(cur.fields[parts[0]], parts[1..])
    else None
  }

  function LookupPath(ctx: Ctx, path: string): Option<Json> {
    if path == "" then None else Walk(Obj(ctx), Split(path))
  }

  method Lookup(ctx: Ctx, path: string) returns (r: Option<Json>)
    ensures r == LookupPath(ctx, path)
  {
    if path == "" {
      return None;
    }
    var parts := Split(path);
    var cur := Obj(ctx);
    for i := 0 to |parts|
      invariant LookupPath(ctx, path) == Walk(cur, parts[i..])
    {
      assert parts[i..][1..] == parts[i + 1..];
      if !(cur.Obj? && parts[i] in cur.fields) {
        return None;
      }
      cur := cur.fields[parts[i]];
    }
    return Some(cur);
  }

  function LookupString(ctx: Ctx, path: string): Option<string> {
    var v := LookupPath(ctx, path);
    if v.Some? && v.value.Str? then Some(v.value.s) else None
  }

  // Comparisons

  /** Scalars compare by kind and value; the rest compares canonical JSON text. */
  predicate JsonEqual(a: Json, b: Json) {
    match a
    case Str(s) => b.Str? && s == b.s
    case Bool(x) => b.Bool? && x == b.b
    case Null => b.Null?
    case _ => a == b
  }

  function CmpEq(p: Predicate, ctx: Ctx): Res
    requires p.Node?
  {
    var actual := LookupPath(ctx, p.attr);
    if actual.None? then Hit(false)
    else if p.value.None? then Fail(ValueUndecodable)
    else Hit(JsonEqual(actual.value, p.value.value))
  }

  predicate EqualsSome(actual: Json, values: seq<Json>) {
    values != [] && (JsonEqual(actual, values[0]) || EqualsSome(actual, values[1..]))
  }

  function CmpIn(p: Predicate, ctx: Ctx): Res
    requires p.Node?
  {
    var actual := LookupPath(ctx, p.attr);
    Hit(actual.Some? && EqualsSome(actual.value, p.values))
  }

  function CmpOrd(p: Predicate, ctx: Ctx): Res
    requires p.Node?
  {
    var actual := LookupPath(ctx, p.attr);
    if actual.None? || !actual.value.Num? then Hit(false)
    else if p.value.None? then Fail(ValueUndecodable)
    else if !p.value.value.Num? then Hit(false)
    else
      var a, b := actual.value.n, p.value.value.n;
      match p.kind
      case Gt => Hit(a > b)
      case Gte => Hit(a >= b)
      case Lt => Hit(a < b)
      case Lte => Hit(a <= b)
      case _ => Hit(false)
  }

  function CmpMatches(env: Env, p: Predicate, ctx: Ctx): Res
    requires p.Node?
  {
    var actual := LookupString(ctx, p.attr);
    if actual.None? then Hit(false)
    else
      var re := env.goRegex(p.pattern);
      if re.None? then Fail(PatternInvalid) else Hit(re.value(actual.value))
  }

  /** Decoding a JSON `null` into a Go string leaves it empty, so a `null` prefix matches. */
  function CmpStartsWith(p: Predicate, ctx: Ctx): Res
    requires p.Node?
  {
    var actual := LookupString(ctx, p.attr);
    if actual.None? then Hit(false)
    else if p.value.None? then Fail(ValueUndecodable)
    else match p.value.value
      case Str(prefix) => Hit(prefix <= actual.value)
      case Null => Hit(true)
      case _ => Fail(PrefixNotString)
  }

  function MatchRollout(p: Predicate, ctx: Ctx): Res
    requires p.Node?
  {
    var v := LookupString(ctx, p.attr);
    Hit(v.Some? && InBucket(Utf8(p.salt), Utf8(v.value), p.percent))
  }

  function MatchCel(env: Env, p: Predicate, ctx: Ctx, programs: Programs): Res
    requires p.Node?
  {
    if p.source !in programs then Fail(CelProgramMissing)
    else
      var out := env.celRun(programs[p.source], ctx);
      if out.None? then Fail(CelRuntimeError) else Hit(out.value)
  }

  // The predicate walk

  function Match(env: Env, p: Predicate, ctx: Ctx, programs: Programs): Res
    decreases p, 1
  {
    if p.Nil? then Hit(false)
    else match p.kind
      case Always => Hit(true)
      case Eq => CmpEq(p, ctx)
      case Neq => var r := CmpEq(p, ctx); Res(!r.ok, r.err)
      case In => CmpIn(p, ctx)
      case Gt => CmpOrd(p, ctx)
      case Gte => CmpOrd(p, ctx)
      case Lt => CmpOrd(p, ctx)
      case Lte => CmpOrd(p, ctx)
      case Matches => CmpMatches(env, p, ctx)
      case StartsWith => CmpStartsWith(p, ctx)
      case Rollout => MatchRollout(p, ctx)
      case All => MatchAll(env, p.of, ctx, programs)
      case Any => MatchAny(env, p.of, ctx, programs)
      case Not => var r := Match(env, p.ofOne, ctx, programs); Res(!r.ok, r.err)
      case Cel => MatchCel(env, p, ctx, programs)
      case Segment => Fail(UnknownKind)
      case Unknown(_) => Fail(UnknownKind)
  }

  function MatchAll(env: Env, ps: seq<Predicate>, ctx: Ctx, programs: Programs): Res
    decreases ps, 0
  {
    if ps == [] then Hit(true)
    else
      var r := Match(env, ps[0], ctx, programs);
      if r.err.Some? then Res(false, r.err)
      else if !r.ok then Hit(false)
      else MatchAll(env, ps[1..], ctx, programs)
  }

  function MatchAny(env: Env, ps: seq<Predicate>, ctx: Ctx, programs: Programs): Res
    decreases ps, 0
  {
    if ps == [] then Hit(false)
    else
      var r := Match(env, ps[0], ctx, programs);
      if r.err.Some? then Res(false, r.err)
      else if r.ok then Hit(true)
      else MatchAny(env, ps[1..], ctx, programs)
  }

  // The rule walk

  predicate ValueMatchesType(v: Json, t: ValueType) {
    match t
    case TBoolean => v.Bool?
    case TString => v.Str?
    case TNumber => v.Num?
    case TObject => v.Obj?
    case TOther(_) => false
  }

  function ReasonForRule(r: Rule): Reason {
    if r.when.Node? && r.when.kind == Rollout then RolloutInBucket else RuleMatched
  }

  function DecodeValue(raw: Option<Json>): Json {
    if raw.None? then Null else raw.value
  }

  function MatchRule(env: Env, c: Compiled, ctx: Ctx, i: nat): Res
    requires i < |c.ir.RuleSeq()|
  {
    Match(env, c.ir.RuleSeq()[i].when, ctx, c.celPrograms)
  }

  /** The first rule that `Evaluate` does not step over: it fires or it errors. */
  function Decider(env: Env, c: Compiled, ctx: Ctx, i: nat): (k: nat)
    requires i <= |c.ir.RuleSeq()|
    ensures i <= k <= |c.ir.RuleSeq()|
    ensures forall j | i <= j < k :: MatchRule(env, c, ctx, j) == Hit(false)
    ensures k < |c.ir.RuleSeq()| ==> MatchRule(env, c, ctx, k) != Hit(false)
    decreases |c.ir.RuleSeq()| - i
  {
    if i == |c.ir.RuleSeq()| || MatchRule(env, c, ctx, i) != Hit(false) then i
    else Decider(env, c, ctx, i + 1)
  }

  function DefaultDecision(c: Compiled, version: int): Decision {
    Decision(DecodeValue(c.ir.default), ByDefault, "", version)
  }

  /** The decision once rule `r` has fired. */
  function Serve(c: Compiled, r: Rule, version: int): Decision {
    var v := DecodeValue(r.value);
    if ValueMatchesType(v, c.ir.valueType) then Decision(v, ReasonForRule(r), r.id, version)
    else Decision(DecodeValue(c.ir.default), TypeMismatch, r.id, version)
  }

  /** First-match-wins: no decider serves the default, an error serves it with `error`. */
  function Evaluated(env: Env, c: Compiled, ctx: Ctx, version: int): Decision {
    var k := Decider(env, c, ctx, 0);
    if k == |c.ir.RuleSeq()| then DefaultDecision(c, version)
    else
      var r := c.ir.RuleSeq()[k];
      if MatchRule(env, c, ctx, k).err.Some?
      then Decision(DecodeValue(c.ir.default), ByError, r.id, version)
      else Serve(c, r, version)
  }

  lemma DeciderUnique(env: Env, c: Compiled, ctx: Ctx, k: nat)
    requires k <= |c.ir.RuleSeq()|
    requires forall j | 0 <= j < k :: MatchRule(env, c, ctx, j) == Hit(false)
    requires k < |c.ir.RuleSeq()| ==> MatchRule(env, c, ctx, k) != Hit(false)
    ensures Decider(env, c, ctx, 0) == k
  {
  }

  /** The early-exit loop over the rules. */
  method Evaluate(env: Env, c: Compiled, ctx: Ctx, version: int) returns (d: Decision)
    ensures d == Evaluated(env, c, ctx, version)
  {
    var defValue := DecodeValue(c.ir.default);
    var rules := c.ir.RuleSeq();
    for i := 0 to |rules|
      invariant forall j | 0 <= j < i :: MatchRule(env, c, ctx, j) == Hit(false)
    {
      var m := Match(env, rules[i].when, ctx, c.celPrograms);
      if m.err.Some? {
        DeciderUnique(env, c, ctx, i);
        return Decision(defValue, ByError, rules[i].id, version);
      }
      if !m.ok {
        assert MatchRule(env, c, ctx, i) == Hit(false);
        continue;
      }
      DeciderUnique(env, c, ctx, i);
      var v := DecodeValue(rules[i].value);
      if !ValueMatchesType(v, c.ir.valueType) {
        return Decision(defValue, TypeMismatch, rules[i].id, version);
      }
      return Decision(v, ReasonForRule(rules[i]), rules[i].id, version);
    }
    DeciderUnique(env, c, ctx, |rules|);
    return Decision(defValue, ByDefault, "", version);
  }
}

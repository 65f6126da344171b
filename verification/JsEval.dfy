/** The JavaScript evaluator, written separately from the Go one, and their agreement. */
module JsEval {
  import opened JsonValues
  import opened Ir
  import opened Rollout
  import Go = GoEval

  /** A JavaScript call either returns a boolean or throws. */
  datatype Outcome = Returns(b: bool) | Throws

  /** cel-lite is not part of the cross-runtime law; its programs enter as a function. */
  type CelLite = map<string, Ctx -> bool>

  // Attribute lookup: `None` is `undefined`

  function DigitsValue(s: string): Option<nat> {
    if s == "" then Some(0)
    else
      var d := s[|s| - 1];
      var front := DigitsValue(s[..|s| - 1]);
      if '0' <= d <= '9' && front.Some? then Some(10 * front.value + (d as int - '0' as int)) else None
  }

  /** A canonical array index has no leading zero. */
  predicate IsIndex(s: string) {
    s != "" && DigitsValue(s).Some? && (s[0] == '0' ==> |s| == 1)
  }

  /** `cur[part]`: arrays are objects too, with index properties and a `length`. */
  function Get(cur: Json, part: string): Option<Json> {
    match cur
    case Obj(fields) => if part in fields then Some(fields[part]) else None
    case Arr(items) =>
      if part == "length" then Some(Num(|items| as real))
      else if IsIndex(part) && DigitsValue(part).value < |items| then Some(items[DigitsValue(part).value])
      else None
    case _ => None
  }

  function Walk(cur: Option<Json>, parts: seq<string>): Option<Json>
    decreases |parts|
  {
    if parts == [] then cur
    else if cur.Some? && (cur.value.Obj? || cur.value.Arr?) then Walk(Get(cur.value, parts[0]), parts[1..])
    else None
  }

  function LookupPath(ctx: Ctx, path: string): Option<Json> {
    if path == "" then None else Walk(Some(Obj(ctx)), Split(path))
  }

  method Lookup(ctx: Ctx, path: string) returns (cur: Option<Json>)
    ensures cur == LookupPath(ctx, path)
  {
    if path == "" {
      return None;
    }
    var parts := Split(path);
    cur := Some(Obj(ctx));
    for i := 0 to |parts|
      invariant LookupPath(ctx, path) == Walk(cur, parts[i..])
    {
      assert parts[i..][1..] == parts[i + 1..];
      if !(cur.Some? && (cur.value.Obj? || cur.value.Arr?)) {
        return None;
      }
      cur := Get(cur.value, parts[i]);
    }
  }

  function LookupString(ctx: Ctx, path: string): Option<string> {
    var v := LookupPath(ctx, path);
    if v.Some? && v.value.Str? then Some(v.value.s) else None
  }

  // Comparisons

  datatype JsType = JsObject | JsBoolean | JsNumber | JsString

  function TypeOf(v: Json): JsType {
    match v
    case Null => JsObject
    case Bool(_) => JsBoolean
    case Num(_) => JsNumber
    case Str(_) => JsString
    case Arr(_) => JsObject
    case Obj(_) => JsObject
  }

  /** `a === b`, which never holds between a context value and a decoded object or array. */
  predicate Identical(a: Json, b: Json) {
    a == b && !a.Obj? && !a.Arr?
  }

  /** Identity, then kinds, then JSON text. `b` is `None` for `undefined`. The text of an object
      depends on key order, which a map does not keep: no law below compares objects. */
  predicate JsonEqual(a: Json, b: Option<Json>) {
    if b.None? then false
    else if Identical(a, b.value) then true
    else if a.Null? || b.value.Null? then false
    else if TypeOf(a) != TypeOf(b.value) then false
    else if TypeOf(a) == JsObject then a == b.value
    else false
  }

  predicate CmpEq(p: Predicate, ctx: Ctx)
    requires p.Node?
  {
    var actual := LookupPath(ctx, p.attr);
    actual.Some? && JsonEqual(actual.value, p.value)
  }

  predicate CmpIn(p: Predicate, ctx: Ctx)
    requires p.Node?
  {
    var actual := LookupPath(ctx, p.attr);
    actual.Some? && exists v | v in p.values :: JsonEqual(actual.value, Some(v))
  }

  function ToNumber(v: Option<Json>): Option<real> {
    if v.Some? && v.value.Num? then Some(v.value.n) else None
  }

  predicate CmpOrd(p: Predicate, ctx: Ctx)
    requires p.Node?
  {
    var a := ToNumber(LookupPath(ctx, p.attr));
    var b := ToNumber(p.value);
    if a.None? || b.None? then false
    else match p.kind
      case Gt => a.value > b.value
      case Gte => a.value >= b.value
      case Lt => a.value < b.value
      case Lte => a.value <= b.value
      case _ => false
  }

  /** A malformed pattern is swallowed here, where Go reports it. */
  predicate CmpMatches(env: Env, p: Predicate, ctx: Ctx)
    requires p.Node?
  {
    var actual := LookupString(ctx, p.attr);
    var re := env.jsRegex(p.pattern);
    actual.Some? && re.Some? && re.value(actual.value)
  }

  function CmpStartsWith(p: Predicate, ctx: Ctx): Outcome
    requires p.Node?
  {
    var actual := LookupString(ctx, p.attr);
    if actual.None? then Returns(false)
    else if p.value.None? || !p.value.value.Str? then Throws
    else Returns(p.value.value.s <= actual.value)
  }

  predicate MatchRollout(p: Predicate, ctx: Ctx)
    requires p.Node?
  {
    var v := LookupString(ctx, p.attr);
    v.Some? && InBucket(Utf8(p.salt), Utf8(v.value), p.percent)
  }

  // The predicate walk. A kind without a case falls out of the switch as a falsy `undefined`.

  function Match(env: Env, p: Predicate, ctx: Ctx, programs: CelLite): Outcome
    decreases p, 1
  {
    if p.Nil? then Throws
    else match p.kind
      case Always => Returns(true)
      case Eq => Returns(CmpEq(p, ctx))
      case Neq => Returns(!CmpEq(p, ctx))
      case In => Returns(CmpIn(p, ctx))
      case Gt => Returns(CmpOrd(p, ctx))
      case Gte => Returns(CmpOrd(p, ctx))
      case Lt => Returns(CmpOrd(p, ctx))
      case Lte => Returns(CmpOrd(p, ctx))
      case Matches => Returns(CmpMatches(env, p, ctx))
      case StartsWith => CmpStartsWith(p, ctx)
      case Rollout => Returns(MatchRollout(p, ctx))
      case All => Every(env, p.of, ctx, programs)
      case Any => SomeOf(env, p.of, ctx, programs)
      case Not =>
        var r := Match(env, p.ofOne, ctx, programs);
        if r.Throws? then Throws else Returns(!r.b)
      case Cel => if p.source in programs then Returns(programs[p.source](ctx)) else Throws
      case Segment => Returns(false)
      case Unknown(_) => Returns(false)
  }

  /** `of.every(...)` */
  function Every(env: Env, ps: seq<Predicate>, ctx: Ctx, programs: CelLite): Outcome
    decreases ps, 0
  {
    if ps == [] then Returns(true)
    else
      var r := Match(env, ps[0], ctx, programs);
      if r.Returns? && r.b then Every(env, ps[1..], ctx, programs) else r
  }

  /** `of.some(...)` */
  function SomeOf(env: Env, ps: seq<Predicate>, ctx: Ctx, programs: CelLite): Outcome
    decreases ps, 0
  {
    if ps == [] then Returns(false)
    else
      var r := Match(env, ps[0], ctx, programs);
      if r.Returns? && !r.b then SomeOf(env, ps[1..], ctx, programs) else r
  }

  // The rule walk

  /** `typeof` tests; an unknown value type falls out of the switch. */
  predicate HasType(v: Json, t: ValueType) {
    match t
    case TBoolean => TypeOf(v) == JsBoolean
    case TString => TypeOf(v) == JsString
    case TNumber => TypeOf(v) == JsNumber
    case TObject => TypeOf(v) == JsObject && !v.Null? && !v.Arr?
    case TOther(_) => false
  }

  function ReasonFor(p: Predicate): Reason {
    if p.Node? && p.kind == Rollout then RolloutInBucket else RuleMatched
  }

  function EvaluateFrom(env: Env, tree: RulesTree, ctx: Ctx, programs: CelLite, version: int, i: nat): Decision
    requires i <= |tree.RuleSeq()|
    decreases |tree.RuleSeq()| - i
  {
    var def := if tree.default.Some? then tree.default.value else Null;
    if i == |tree.RuleSeq()| then Decision(def, ByDefault, "", version)
    else
      var rule := tree.RuleSeq()[i];
      var m := Match(env, rule.when, ctx, programs);
      if m.Throws? then Decision(def, ByError, rule.id, version)
      else if !m.b then EvaluateFrom(env, tree, ctx, programs, version, i + 1)
      else if rule.value.None? || !HasType(rule.value.value, tree.valueType)
      then Decision(def, TypeMismatch, rule.id, version)
      else Decision(rule.value.value, ReasonFor(rule.when), rule.id, version)
  }

  /** `None` is the exception that iterating over `null` rules throws. */
  method Evaluate(env: Env, tree: RulesTree, ctx: Ctx, programs: CelLite, version: int) returns (d: Option<Decision>)
    ensures d == if tree.rules.None? then None else Some(EvaluateFrom(env, tree, ctx, programs, version, 0))
  {
    var def := if tree.default.Some? then tree.default.value else Null;
    if tree.rules.None? { return None; }
    var rules := tree.rules.value;
    for i := 0 to |rules|
      invariant EvaluateFrom(env, tree, ctx, programs, version, 0)
             == EvaluateFrom(env, tree, ctx, programs, version, i)
    {
      var m := Match(env, rules[i].when, ctx, programs);
      if m.Throws? {
        return Some(Decision(def, ByError, rules[i].id, version));
      }
      if !m.b { continue; }
      if rules[i].value.None? || !HasType(rules[i].value.value, tree.valueType) {
        return Some(Decision(def, TypeMismatch, rules[i].id, version));
      }
      return Some(Decision(rules[i].value.value, ReasonFor(rules[i].when), rules[i].id, version));
    }
    return Some(Decision(def, ByDefault, "", version));
  }

  // Agreement

  /** The path meets an array with parts left, and JavaScript finds something below it. */
  predicate ThroughArray(cur: Json, parts: seq<string>) {
    parts != [] && match cur
      case Obj(fields) => parts[0] in fields && ThroughArray(fields[parts[0]], parts[1..])
      case Arr(_) => Walk(Some(cur), parts).Some?
      case _ => false
  }

  predicate EntersArray(ctx: Ctx, path: string) {
    path != "" && ThroughArray(Obj(ctx), Split(path))
  }

  /** No attribute path that evaluating `p` can look up enters an array. */
  predicate ReadsNoArray(p: Predicate, ctx: Ctx)
    decreases p
  {
    if p.Nil? then true
    else match p.kind
      case All => forall q | q in p.of :: ReadsNoArray(q, ctx)
      case Any => forall q | q in p.of :: ReadsNoArray(q, ctx)
      case Not => ReadsNoArray(p.ofOne, ctx)
      case Always => true
      case Cel => true
      case Segment => true
      case Unknown(_) => true
      case _ => !EntersArray(ctx, p.attr)
  }

  predicate TreeReadsNoArray(tree: RulesTree, ctx: Ctx) {
    forall r | r in tree.RuleSeq() :: ReadsNoArray(r.when, ctx)
  }

  /** The predicates the law covers: valid without CEL or segments, patterns on which the two
      regular-expression engines agree, no object in an operand at any depth, and no `null` prefix. */
  ghost predicate Portable(env: Env, p: Predicate)
    decreases p
  {
    p.Node? && match p.kind
      case Always => true
      case Eq => p.value.Some? && ObjectFree(p.value.value)
      case Neq => p.value.Some? && ObjectFree(p.value.value)
      case In => forall v | v in p.values :: ObjectFree(v)
      case Gt => p.value.Some?
      case Gte => p.value.Some?
      case Lt => p.value.Some?
      case Lte => p.value.Some?
      case Matches => env.goRegex(p.pattern).Some? && SameRegex(env, p.pattern)
      case StartsWith => p.value.Some? && !p.value.value.Null?
      case Rollout => true
      case All => forall q | q in p.of :: Portable(env, q)
      case Any => forall q | q in p.of :: Portable(env, q)
      case Not => Portable(env, p.ofOne)
      case Cel => false
      case Segment => false
      case Unknown(_) => false
  }

  ghost predicate SameRegex(env: Env, pattern: string) {
    var g, j := env.goRegex(pattern), env.jsRegex(pattern);
    g.Some? == j.Some? && (g.Some? ==> forall s :: g.value(s) == j.value(s))
  }

  /** Rules that are `null` are outside the law: the JavaScript client throws on them. */
  ghost predicate PortableTree(env: Env, tree: RulesTree) {
    tree.rules.Some? && forall r | r in tree.RuleSeq() :: r.value.Some? && Portable(env, r.when)
  }

  /** What a Go pair looks like across the runtimes: an error is a throw. */
  function AsOutcome(r: Go.Res): Outcome {
    if r.err.Some? then Throws else Returns(r.ok)
  }

  /** The two walks give the same answer exactly on the paths that do not go through an array. */
  lemma {:induction false} WalkAgreesIff(cur: Json, parts: seq<string>)
    ensures Walk(Some(cur), parts) == Go.Walk(cur, parts) <==> !ThroughArray(cur, parts)
    decreases |parts|
  {
    if parts != [] {
      if cur.Obj? && parts[0] in cur.fields {
        WalkAgreesIff(cur.fields[parts[0]], parts[1..]);
      } else if cur.Obj? {
        assert Walk(None, parts[1..]) == None;
      }
    }
  }

  lemma LookupAgreesIff(ctx: Ctx, path: string)
    ensures LookupPath(ctx, path) == Go.LookupPath(ctx, path) <==> !EntersArray(ctx, path)
    ensures EntersArray(ctx, path) ==> Go.LookupPath(ctx, path) == None
  {
    if path != "" {
      WalkAgreesIff(Obj(ctx), Split(path));
      if EntersArray(ctx, path) { ThroughArrayMisses(Obj(ctx), Split(path)); }
    }
  }

  /** And on the others Go misses. */
  lemma {:induction false} ThroughArrayMisses(cur: Json, parts: seq<string>)
    requires ThroughArray(cur, parts)
    ensures Go.Walk(cur, parts) == None
    decreases |parts|
  {
    if cur.Obj? { ThroughArrayMisses(cur.fields[parts[0]], parts[1..]); }
  }

  lemma EqualAgrees(a: Json, b: Json)
    requires ObjectFree(b)
    ensures JsonEqual(a, Some(b)) <==> Go.JsonEqual(a, b)
  {
  }

  lemma {:induction false} InAgrees(actual: Json, values: seq<Json>)
    requires forall v | v in values :: ObjectFree(v)
    ensures Go.EqualsSome(actual, values) <==> exists v | v in values :: JsonEqual(actual, Some(v))
  {
    if values != [] {
      assert values[0] in values;
      EqualAgrees(actual, values[0]);
      InAgrees(actual, values[1..]);
      assert forall v :: v in values <==> v == values[0] || v in values[1..];
    }
  }

  lemma EqAgrees(p: Predicate, ctx: Ctx)
    requires p.Node? && p.value.Some? && ObjectFree(p.value.value) && !EntersArray(ctx, p.attr)
    ensures Go.CmpEq(p, ctx) == Go.Hit(CmpEq(p, ctx))
  {
    LookupAgreesIff(ctx, p.attr);
    var actual := LookupPath(ctx, p.attr);
    if actual.Some? { EqualAgrees(actual.value, p.value.value); }
  }

  /** Predicate by predicate, the JavaScript outcome is the Go pair with errors as throws. */
  lemma {:induction false} MatchAgrees(
    env: Env, p: Predicate, ctx: Ctx, programs: Go.Programs, js: CelLite)
    requires Portable(env, p) && ReadsNoArray(p, ctx)
    ensures Match(env, p, ctx, js) == AsOutcome(Go.Match(env, p, ctx, programs))
    decreases p, 1
  {
    LookupAgreesIff(ctx, p.attr);
    match p.kind {
      case Eq => EqAgrees(p, ctx);
      case Neq => EqAgrees(p, ctx);
      case In =>
        var actual := LookupPath(ctx, p.attr);
        if actual.Some? { InAgrees(actual.value, p.values); }
      case All => ListAgrees(env, p.of, ctx, programs, js);
      case Any => ListAgrees(env, p.of, ctx, programs, js);
      case Not => MatchAgrees(env, p.ofOne, ctx, programs, js);
      case _ =>
    }
  }

  lemma {:induction false} ListAgrees(
    env: Env, ps: seq<Predicate>, ctx: Ctx, programs: Go.Programs, js: CelLite)
    requires forall q | q in ps :: Portable(env, q) && ReadsNoArray(q, ctx)
    ensures Every(env, ps, ctx, js) == AsOutcome(Go.MatchAll(env, ps, ctx, programs))
    ensures SomeOf(env, ps, ctx, js) == AsOutcome(Go.MatchAny(env, ps, ctx, programs))
    decreases ps, 0
  {
    if ps != [] {
      assert ps[0] in ps;
      MatchAgrees(env, ps[0], ctx, programs, js);
      ListAgrees(env, ps[1..], ctx, programs, js);
    }
  }

  lemma RuleAgrees(env: Env, c: Compiled, ctx: Ctx, js: CelLite, i: nat)
    requires i < |c.ir.RuleSeq()|
    requires PortableTree(env, c.ir) && TreeReadsNoArray(c.ir, ctx)
    ensures c.ir.RuleSeq()[i].value.Some?
    ensures Match(env, c.ir.RuleSeq()[i].when, ctx, js) == AsOutcome(Go.MatchRule(env, c, ctx, i))
  {
    var rules := c.ir.RuleSeq();
    assert rules[i] in rules;
    MatchAgrees(env, rules[i].when, ctx, c.celPrograms, js);
  }

  /** At the deciding rule, and past the last one, the walk ends in the Go decision. */
  lemma DeciderAgrees(env: Env, c: Compiled, ctx: Ctx, js: CelLite, version: int)
    requires PortableTree(env, c.ir) && TreeReadsNoArray(c.ir, ctx)
    ensures EvaluateFrom(env, c.ir, ctx, js, version, Go.Decider(env, c, ctx, 0)) == Go.Evaluated(env, c, ctx, version)
  {
    var k := Go.Decider(env, c, ctx, 0);
    if k < |c.ir.RuleSeq()| { RuleAgrees(env, c, ctx, js, k); }
  }

  lemma {:induction false} EvaluateFromAgrees(
    env: Env, c: Compiled, ctx: Ctx, js: CelLite, version: int, i: nat)
    requires i <= Go.Decider(env, c, ctx, 0)
    requires PortableTree(env, c.ir) && TreeReadsNoArray(c.ir, ctx)
    ensures EvaluateFrom(env, c.ir, ctx, js, version, i) == Go.Evaluated(env, c, ctx, version)
    decreases |c.ir.RuleSeq()| - i
  {
    if i == Go.Decider(env, c, ctx, 0) {
      DeciderAgrees(env, c, ctx, js, version);
    } else {
      RuleAgrees(env, c, ctx, js, i);
      assert Match(env, c.ir.RuleSeq()[i].when, ctx, js) == Returns(false);
      EvaluateFromAgrees(env, c, ctx, js, version, i + 1);
    }
  }

  /** The two runtimes return the same decision on every portable tree and every context whose arrays
      the tree's attribute paths do not enter. */
  lemma RuntimesAgree(env: Env, c: Compiled, ctx: Ctx, js: CelLite, version: int)
    requires PortableTree(env, c.ir) && TreeReadsNoArray(c.ir, ctx)
    ensures EvaluateFrom(env, c.ir, ctx, js, version, 0) == Go.Evaluated(env, c, ctx, version)
  {
    EvaluateFromAgrees(env, c, ctx, js, version, 0);
  }

  // Where the law stops

  predicate IsLeaf(p: Predicate) {
    p.Node? && p.kind !in {All, Any, Not, Cel}
  }

  /** What validation and the two engines give: operands present and without objects, and a pattern that
      both engines read alike. */
  ghost predicate LeafOperands(env: Env, p: Predicate)
    requires p.Node?
  {
    && (p.kind in {Eq, Neq} ==> p.value.Some? && ObjectFree(p.value.value))
    && (p.kind == In ==> forall v | v in p.values :: ObjectFree(v))
    && (p.kind in {Gt, Gte, Lt, Lte, StartsWith} ==> p.value.Some?)
    && (p.kind == Matches ==> env.goRegex(p.pattern).Some? && SameRegex(env, p.pattern))
  }

  /** The value satisfies the comparison of the node, before `neq` negates it; a prefix that is not a
      string counts as met by every string, because JavaScript throws there. */
  predicate Satisfies(env: Env, p: Predicate, v: Json)
    requires p.Node?
  {
    match p.kind
    case Eq => p.value == Some(v)
    case Neq => p.value == Some(v)
    case In => v in p.values
    case Gt => v.Num? && p.value.Some? && p.value.value.Num? && v.n > p.value.value.n
    case Gte => v.Num? && p.value.Some? && p.value.value.Num? && v.n >= p.value.value.n
    case Lt => v.Num? && p.value.Some? && p.value.value.Num? && v.n < p.value.value.n
    case Lte => v.Num? && p.value.Some? && p.value.value.Num? && v.n <= p.value.value.n
    case Matches => var re := env.jsRegex(p.pattern); v.Str? && re.Some? && re.value(v.s)
    case StartsWith => v.Str? && (p.value.Some? && p.value.value.Str? ==> p.value.value.s <= v.s)
    case Rollout => v.Str? && InBucket(Utf8(p.salt), Utf8(v.s), p.percent)
    case _ => false
  }

  /** What a caller can look at to tell whether the runtimes agree on a leaf: it is no reference and no
      unknown kind; a value that only JavaScript finds, below an array, does not satisfy it; and a `null`
      prefix finds no string. */
  predicate LeafAgreement(env: Env, p: Predicate, ctx: Ctx)
    requires p.Node?
  {
    var found := LookupPath(ctx, p.attr);
    && p.kind != Segment && !p.kind.Unknown?
    && (p.kind != Always && EntersArray(ctx, p.attr) ==> found.None? || !Satisfies(env, p, found.value))
    && (p.kind == StartsWith && p.value == Some(Null) ==> found.None? || !found.value.Str?)
  }

  /** Exactly then they do. */
  lemma LeafAgreesIff(env: Env, p: Predicate, ctx: Ctx, programs: Go.Programs, js: CelLite)
    requires IsLeaf(p) && LeafOperands(env, p)
    ensures Match(env, p, ctx, js) == AsOutcome(Go.Match(env, p, ctx, programs)) <==> LeafAgreement(env, p, ctx)
  {
    LookupAgreesIff(ctx, p.attr);
    if p.kind in {Eq, Neq} {
      EqLeafAgreesIff(p, ctx);
    } else if p.kind == In {
      InLeafAgreesIff(p, ctx);
    } else if p.kind in {Gt, Gte, Lt, Lte} {
      OrderingLeafAgreesIff(env, p, ctx);
    } else {
      OtherLeafAgreesIff(env, p, ctx, programs, js);
    }
  }

  lemma EqualIsSame(a: Json, b: Json)
    ensures JsonEqual(a, Some(b)) <==> a == b
  {
  }

  lemma EqLeafAgreesIff(p: Predicate, ctx: Ctx)
    requires p.Node? && p.value.Some? && ObjectFree(p.value.value)
    ensures Go.CmpEq(p, ctx) == Go.Hit(CmpEq(p, ctx))
            <==> !(EntersArray(ctx, p.attr) && LookupPath(ctx, p.attr) == p.value)
    ensures Go.CmpEq(p, ctx).err.None?
  {
    LookupAgreesIff(ctx, p.attr);
    var found := LookupPath(ctx, p.attr);
    if found.Some? {
      EqualAgrees(found.value, p.value.value);
      EqualIsSame(found.value, p.value.value);
    }
  }

  lemma InLeafAgreesIff(p: Predicate, ctx: Ctx)
    requires p.Node? && forall v | v in p.values :: ObjectFree(v)
    ensures var found := LookupPath(ctx, p.attr);
            Go.CmpIn(p, ctx) == Go.Hit(CmpIn(p, ctx))
            <==> !(EntersArray(ctx, p.attr) && found.Some? && found.value in p.values)
  {
    LookupAgreesIff(ctx, p.attr);
    var found := LookupPath(ctx, p.attr);
    if found.Some? {
      InAgrees(found.value, p.values);
      forall v | v in p.values ensures JsonEqual(found.value, Some(v)) <==> found.value == v {
        EqualIsSame(found.value, v);
      }
    }
  }

  lemma OrderingLeafAgreesIff(env: Env, p: Predicate, ctx: Ctx)
    requires p.Node? && p.kind in {Gt, Gte, Lt, Lte} && p.value.Some?
    ensures var found := LookupPath(ctx, p.attr);
            Go.CmpOrd(p, ctx) == Go.Hit(CmpOrd(p, ctx))
            <==> !(EntersArray(ctx, p.attr) && found.Some? && Satisfies(env, p, found.value))
    ensures Go.CmpOrd(p, ctx).err.None?
  {
    LookupAgreesIff(ctx, p.attr);
  }

  lemma OtherLeafAgreesIff(env: Env, p: Predicate, ctx: Ctx, programs: Go.Programs, js: CelLite)
    requires IsLeaf(p) && LeafOperands(env, p) && p.kind !in {Eq, Neq, In, Gt, Gte, Lt, Lte}
    ensures Match(env, p, ctx, js) == AsOutcome(Go.Match(env, p, ctx, programs)) <==> LeafAgreement(env, p, ctx)
  {
    LookupAgreesIff(ctx, p.attr);
  }

  /** On a `starts_with` node that finds a string, the runtimes agree exactly if the prefix is not `null`,
      which Go reads as empty and JavaScript throws on; and, if the string lies below an array, where only
      JavaScript sees it, exactly if the prefix is a string that it does not start with. */
  lemma StartsWithAgreesIff(p: Predicate, ctx: Ctx)
    requires p.Node?
    ensures CmpStartsWith(p, ctx) == AsOutcome(Go.CmpStartsWith(p, ctx))
            <==> var found := LookupString(ctx, p.attr);
                 || found.None?
                 || if EntersArray(ctx, p.attr)
                    then p.value.Some? && p.value.value.Str? && !(p.value.value.s <= found.value)
                    else p.value != Some(Null)
  {
    LookupAgreesIff(ctx, p.attr);
  }

  /** One such path: "tags.0" on an array `tags`. */
  lemma ArrayContextDiffers(ctx: Ctx, path: string, name: string)
    requires path != "" && Split(path) == [name, "0"]
    requires name in ctx && ctx[name].Arr? && ctx[name].items != []
    ensures LookupPath(ctx, path) == Some(ctx[name].items[0])
    ensures Go.LookupPath(ctx, path) == None
  {
    assert [name, "0"][1..] == ["0"] && ["0"][1..] == [];
    assert DigitsValue("0") == Some(0) by { assert "0"[..0] == ""; }
    assert Walk(Some(ctx[name]), ["0"]) == Some(ctx[name].items[0]);
    assert Go.Walk(ctx[name], ["0"]) == None;
  }
}

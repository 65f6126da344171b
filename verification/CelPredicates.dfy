/** A `cel` leaf against plain predicates: on comparisons of context paths with literals, joined by
    `!`, `&&` and `||`, cel-lite decides as the predicate tree that says the same. */
module CelPredicates {
  import opened JsonValues
  import opened Ir
  import opened CelSyntax
  import L = CelLexer
  import Cel = CelEval
  import Go = GoEval
  import Js = JsEval
  import Programs = JsCompile

  // The predicate that says what an expression says

  function Leaf(kind: Kind, attr: string, value: Option<Json>, values: seq<Json>): Predicate {
    Node(kind, attr, value, values, "", "", 0, [], Nil, "", "")
  }

  function LiteralJson(v: Literal): Option<Json> {
    match v
    case LStr(s) => Some(Str(s))
    case LNum(n) => if n.Some? then Some(Num(n.value)) else None
    case LBool(b) => Some(Bool(b))
    case LNull => Some(Null)
  }

  function LiteralsJson(items: seq<Expr>): Option<seq<Json>> {
    if items == [] then Some([])
    else
      var first := if items[0].Lit? then LiteralJson(items[0].v) else None;
      var rest := LiteralsJson(items[1..]);
      if first.None? || rest.None? then None else Some([first.value] + rest.value)
  }

  /** `ctx.a.b` */
  predicate ContextPath(e: Expr) {
    e.Path? && |e.parts| >= 2 && e.parts[0] == "ctx" && forall w | w in e.parts :: L.IsIdentifier(w)
  }

  function ComparisonKind(op: Punct): Option<Kind> {
    match op
    case EqEq => Some(Kind.Eq)
    case BangEq => Some(Kind.Neq)
    case Less => Some(Kind.Lt)
    case LessEq => Some(Kind.Lte)
    case Greater => Some(Kind.Gt)
    case GreaterEq => Some(Kind.Gte)
    case _ => None
  }

  function LoweredComparison(op: Punct, path: Expr, right: Expr): Option<Predicate> {
    if !ContextPath(path) then None
    else
      var attr := Join(path.parts[1..]);
      if op == Punct.In && right.List? then
        var values := LiteralsJson(right.items);
        if values.None? then None else Some(Leaf(Kind.In, attr, None, values.value))
      else if ComparisonKind(op).Some? && right.Lit? && LiteralJson(right.v).Some? then
        Some(Leaf(ComparisonKind(op).value, attr, LiteralJson(right.v), []))
      else None
  }

  function Lowered(e: Expr): Option<Predicate>
    decreases e
  {
    match e
    case Not(x) =>
      var p := Lowered(x);
      if p.None? then None else Some(Branch(Kind.Not, [], p.value))
    case Bin(op, l, r) =>
      if op == AndAnd || op == OrOr then
        var p, q := Lowered(l), Lowered(r);
        if p.None? || q.None? then None
        else Some(Branch(if op == AndAnd then Kind.All else Kind.Any, [p.value, q.value], Nil))
      else LoweredComparison(op, l, r)
    case _ => None
  }

  // Paths

  lemma {:induction false} NotDigits(s: string)
    requires s != "" && !('0' <= s[0] <= '9')
    ensures Js.DigitsValue(s).None?
    decreases |s|
  {
    if |s| > 1 { NotDigits(s[..|s| - 1]); }
  }

  function ToValue(v: Option<Json>): Cel.Value {
    if v.None? then Cel.VUndefined else Cel.FromJson(v.value)
  }

  lemma {:induction false} SameLength(items: seq<Json>)
    ensures |Cel.FromJsonAll(items)| == |items|
  {
    if items != [] { SameLength(items[1..]); }
  }

  lemma MemberAgrees(cur: Json, w: string)
    requires L.IsIdentifier(w)
    ensures Cel.Member(Cel.FromJson(cur), w) == ToValue(Js.Get(cur, w))
  {
    NotDigits(w);
    if cur.Arr? { SameLength(cur.items); }
  }

  /** cel-lite's path walk is the evaluator's attribute walk. */
  lemma {:induction false} PathAgrees(cur: Json, parts: seq<string>)
    requires forall w | w in parts :: L.IsIdentifier(w)
    ensures Cel.LookupPath(Cel.FromJson(cur), parts) == ToValue(Js.Walk(Some(cur), parts))
    decreases |parts|
  {
    if parts != [] && (cur.Obj? || cur.Arr?) {
      MemberAgrees(cur, parts[0]);
      var next := Js.Get(cur, parts[0]);
      if next.Some? { PathAgrees(next.value, parts[1..]); }
    }
  }

  function Root(ctx: Ctx): Cel.Value {
    Cel.VObj(map["ctx" := Cel.FromJson(Obj(ctx))])
  }

  lemma {:induction false} JoinNonEmpty(parts: seq<string>)
    requires |parts| >= 1 && parts[0] != ""
    ensures Join(parts) != ""
  {
  }

  lemma DottedLookup(ctx: Ctx, parts: seq<string>)
    requires |parts| >= 1 && forall w | w in parts :: L.IsIdentifier(w)
    ensures Js.LookupPath(ctx, Join(parts)) == Js.Walk(Some(Obj(ctx)), parts)
  {
    assert parts[0] in parts;
    forall w | w in parts ensures '.' !in w { }
    JoinSplit(parts);
    JoinNonEmpty(parts);
  }

  lemma ContextPathValue(e: Expr, ctx: Ctx)
    requires ContextPath(e)
    ensures Cel.Eval(e, Root(ctx)) == ToValue(Js.LookupPath(ctx, Join(e.parts[1..])))
  {
    var parts := e.parts[1..];
    assert forall w | w in parts :: w in e.parts;
    PathAgrees(Obj(ctx), parts);
    DottedLookup(ctx, parts);
    assert Cel.LookupPath(Root(ctx), e.parts) == Cel.LookupPath(Cel.Member(Root(ctx), "ctx"), parts);
  }

  // Comparisons

  lemma EqualAgrees(a: Option<Json>, b: Json)
    requires !b.Obj? && !b.Arr?
    ensures Cel.JsonEqual(ToValue(a), Cel.FromJson(b)) <==> a.Some? && Js.JsonEqual(a.value, Some(b))
  {
    if a.Some? { Cel.EqualityIsJson(a.value, b); }
  }

  lemma LiteralAgrees(v: Literal)
    requires LiteralJson(v).Some?
    ensures Cel.LiteralValue(v) == Cel.FromJson(LiteralJson(v).value)
    ensures !LiteralJson(v).value.Obj? && !LiteralJson(v).value.Arr?
  {
  }

  /** What the relational operators do with the values of their operands. */
  predicate Related(op: Punct, a: Cel.Value, b: Cel.Value) {
    match op
    case EqEq => Cel.JsonEqual(a, b)
    case BangEq => !Cel.JsonEqual(a, b)
    case In => b.VArr? && Cel.Contains(b.items, a)
    case _ => Cel.Ordered(op, a, b)
  }

  lemma HoldsRelation(op: Punct, l: Expr, r: Expr, ctx: Ctx)
    requires op != AndAnd && op != OrOr
    ensures Cel.Holds(Bin(op, l, r), ctx) <==> Related(op, Cel.Eval(l, Root(ctx)), Cel.Eval(r, Root(ctx)))
  {
    assert Cel.Eval(Bin(op, l, r), Root(ctx)) == Cel.VBool(Related(op, Cel.Eval(l, Root(ctx)), Cel.Eval(r, Root(ctx))));
  }

  lemma MatchRelation(env: Env, op: Punct, attr: string, b: Json, ctx: Ctx, js: Js.CelLite)
    requires ComparisonKind(op).Some? && !b.Obj? && !b.Arr?
    ensures Js.Match(env, Leaf(ComparisonKind(op).value, attr, Some(b), []), ctx, js)
         == Js.Returns(Related(op, ToValue(Js.LookupPath(ctx, attr)), Cel.FromJson(b)))
  {
    EqualAgrees(Js.LookupPath(ctx, attr), b);
  }

  lemma ComparisonMeans(env: Env, op: Punct, l: Expr, r: Expr, ctx: Ctx, js: Js.CelLite)
    requires ComparisonKind(op).Some? && r.Lit? && LoweredComparison(op, l, r).Some?
    ensures Js.Match(env, LoweredComparison(op, l, r).value, ctx, js) == Js.Returns(Cel.Holds(Bin(op, l, r), ctx))
  {
    HoldsRelation(op, l, r, ctx);
    ContextPathValue(l, ctx);
    LiteralAgrees(r.v);
    MatchRelation(env, op, Join(l.parts[1..]), LiteralJson(r.v).value, ctx, js);
  }

  /** The items are literals, and the list decides membership as the values do. */
  lemma {:induction false} MembershipAgrees(items: seq<Expr>, a: Option<Json>, root: Cel.Value)
    requires LiteralsJson(items).Some?
    ensures Cel.Contains(Cel.EvalAll(items, root), ToValue(a))
            <==> a.Some? && exists v | v in LiteralsJson(items).value :: Js.JsonEqual(a.value, Some(v))
  {
    if items != [] {
      var first, rest := LiteralJson(items[0].v).value, LiteralsJson(items[1..]).value;
      MembershipAgrees(items[1..], a, root);
      LiteralAgrees(items[0].v);
      EqualAgrees(a, first);
      Cel.ContainsCons(Cel.FromJson(first), Cel.EvalAll(items[1..], root), ToValue(a));
      assert forall v :: v in [first] + rest <==> v == first || v in rest;
    }
  }

  lemma MatchMembership(env: Env, attr: string, items: seq<Expr>, ctx: Ctx, js: Js.CelLite)
    requires LiteralsJson(items).Some?
    ensures Js.Match(env, Leaf(Kind.In, attr, None, LiteralsJson(items).value), ctx, js)
         == Js.Returns(Cel.Contains(Cel.EvalAll(items, Root(ctx)), ToValue(Js.LookupPath(ctx, attr))))
  {
    MembershipAgrees(items, Js.LookupPath(ctx, attr), Root(ctx));
  }

  lemma MembershipMeans(env: Env, l: Expr, r: Expr, ctx: Ctx, js: Js.CelLite)
    requires r.List? && LoweredComparison(Punct.In, l, r).Some?
    ensures Js.Match(env, LoweredComparison(Punct.In, l, r).value, ctx, js)
         == Js.Returns(Cel.Holds(Bin(Punct.In, l, r), ctx))
  {
    HoldsRelation(Punct.In, l, r, ctx);
    ContextPathValue(l, ctx);
    MatchMembership(env, Join(l.parts[1..]), r.items, ctx, js);
    assert Cel.Eval(r, Root(ctx)) == Cel.VArr(Cel.EvalAll(r.items, Root(ctx)));
  }

  // Whole expressions

  lemma PairMeans(env: Env, p: Predicate, q: Predicate, ctx: Ctx, js: Js.CelLite)
    requires Js.Match(env, p, ctx, js).Returns? && Js.Match(env, q, ctx, js).Returns?
    ensures Js.Every(env, [p, q], ctx, js) == Js.Returns(Js.Match(env, p, ctx, js).b && Js.Match(env, q, ctx, js).b)
    ensures Js.SomeOf(env, [p, q], ctx, js) == Js.Returns(Js.Match(env, p, ctx, js).b || Js.Match(env, q, ctx, js).b)
  {
    assert [p, q][1..] == [q] && [q][1..] == [];
    assert Js.Every(env, [], ctx, js) == Js.Returns(true) && Js.SomeOf(env, [], ctx, js) == Js.Returns(false);
  }

  lemma HoldsBoth(l: Expr, r: Expr, ctx: Ctx)
    ensures Cel.Holds(Bin(AndAnd, l, r), ctx) <==> Cel.Holds(l, ctx) && Cel.Holds(r, ctx)
    ensures Cel.Holds(Bin(OrOr, l, r), ctx) <==> Cel.Holds(l, ctx) || Cel.Holds(r, ctx)
  {
    Cel.EvalAnd(l, r, Root(ctx));
    Cel.EvalOr(l, r, Root(ctx));
  }

  /** What is to be shown of an expression and its lowered tree. */
  predicate Means(env: Env, p: Predicate, e: Expr, ctx: Ctx, js: Js.CelLite) {
    Js.Match(env, p, ctx, js) == Js.Returns(Cel.Holds(e, ctx))
  }

  lemma NotMeans(env: Env, p: Predicate, e: Expr, ctx: Ctx, js: Js.CelLite)
    requires Means(env, p, e, ctx, js)
    ensures Means(env, Branch(Kind.Not, [], p), Expr.Not(e), ctx, js)
  {
    assert Cel.Eval(Expr.Not(e), Root(ctx)) == Cel.VBool(!Cel.Holds(e, ctx));
  }

  lemma JunctionMeans(env: Env, p: Predicate, l: Expr, q: Predicate, r: Expr, ctx: Ctx, js: Js.CelLite)
    requires Means(env, p, l, ctx, js) && Means(env, q, r, ctx, js)
    ensures Means(env, Branch(Kind.All, [p, q], Nil), Bin(AndAnd, l, r), ctx, js)
    ensures Means(env, Branch(Kind.Any, [p, q], Nil), Bin(OrOr, l, r), ctx, js)
  {
    PairMeans(env, p, q, ctx, js);
    HoldsBoth(l, r, ctx);
  }

  /** The lowered tree matches exactly where the expression holds, and never throws. */
  lemma {:induction false} LoweredMeans(env: Env, e: Expr, ctx: Ctx, js: Js.CelLite)
    requires Lowered(e).Some?
    ensures Means(env, Lowered(e).value, e, ctx, js)
    decreases e
  {
    match e {
      case Not(x) =>
        LoweredMeans(env, x, ctx, js);
        NotMeans(env, Lowered(x).value, x, ctx, js);
      case Bin(op, l, r) =>
        if op == AndAnd || op == OrOr {
          LoweredMeans(env, l, ctx, js);
          LoweredMeans(env, r, ctx, js);
          JunctionMeans(env, Lowered(l).value, l, Lowered(r).value, r, ctx, js);
        } else if op == Punct.In {
          MembershipMeans(env, l, r, ctx, js);
        } else {
          ComparisonMeans(env, op, l, r, ctx, js);
        }
    }
  }

  lemma {:induction false} LiteralsAreScalars(items: seq<Expr>)
    requires LiteralsJson(items).Some?
    ensures forall v | v in LiteralsJson(items).value :: ObjectFree(v)
  {
    if items != [] {
      LiteralsAreScalars(items[1..]);
      LiteralAgrees(items[0].v);
    }
  }

  lemma {:induction false} LoweredIsPortable(env: Env, e: Expr)
    requires Lowered(e).Some?
    ensures Js.Portable(env, Lowered(e).value)
    decreases e
  {
    match e {
      case Not(x) => LoweredIsPortable(env, x);
      case Bin(op, l, r) =>
        if op == AndAnd || op == OrOr {
          LoweredIsPortable(env, l);
          LoweredIsPortable(env, r);
        } else if r.List? {
          LiteralsAreScalars(r.items);
        } else {
          LiteralAgrees(r.v);
        }
    }
  }

  /** A `cel` leaf compiled by the JavaScript client, the lowered tree in the same client, and the
      lowered tree on the Go server give one answer. */
  lemma CelLeafMeans(env: Env, leaf: Predicate, e: Expr, sources: set<string>, ctx: Ctx, programs: Go.Programs)
    requires leaf.Node? && leaf.kind == Kind.Cel && leaf.source in sources
    requires Programs.CompilePrograms(sources).Some? && Cel.CompileCel(leaf.source) == Ok(e) && Lowered(e).Some?
    ensures var js := Programs.CompilePrograms(sources).value;
            && Js.Match(env, leaf, ctx, js) == Js.Match(env, Lowered(e).value, ctx, js)
            && (Js.ReadsNoArray(Lowered(e).value, ctx) ==>
                  Js.Match(env, leaf, ctx, js) == Js.AsOutcome(Go.Match(env, Lowered(e).value, ctx, programs)))
  {
    var js := Programs.CompilePrograms(sources).value;
    LoweredMeans(env, e, ctx, js);
    assert Js.Match(env, leaf, ctx, js) == Js.Returns(Cel.Holds(e, ctx));
    if Js.ReadsNoArray(Lowered(e).value, ctx) {
      LoweredIsPortable(env, e);
      Js.MatchAgrees(env, Lowered(e).value, ctx, programs, js);
    }
  }
}

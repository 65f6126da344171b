/** Compiling and evaluating cel-lite, and the print/parse round trip. */
module CelEval {
  import opened JsonValues
  import opened CelSyntax
  import L = CelLexer
  import P = CelParser
  import G = CelGrammar

  datatype CelError = LexFailed(l: L.LexError) | ParseFailed(p: P.ParseError)

  function CompileCel(src: string): Result<Expr, CelError> {
    var ts := L.Lex(src);
    if ts.Err? then Err(LexFailed(ts.error))
    else
      var e := P.ParseAll(ts.value);
      if e.Err? then Err(ParseFailed(e.error)) else Ok(e.value)
  }

  method Compile(src: string) returns (r: Result<Expr, CelError>)
    ensures r == CompileCel(src)
  {
    var ts := L.Tokenize(src);
    if ts.Err? { return Err(LexFailed(ts.error)); }
    var parser := new P.Parser(ts.value);
    var e := parser.Run();
    return if e.Err? then Err(ParseFailed(e.error)) else Ok(e.value);
  }

  ghost predicate Derives(src: string, e: Expr) {
    exists ts :: L.Lex(src) == Ok(ts + [Eof]) && Eof !in ts && G.OrD(ts, e)
  }

  /** A text compiles to an expression exactly when its tokens derive it. */
  lemma CompilesIffDerives(src: string, e: Expr)
    ensures CompileCel(src) == Ok(e) <==> Derives(src, e)
  {
    if CompileCel(src) == Ok(e) {
      var ts := LexBody(src);
      G.ParsesIffDerives(ts, e);
    }
    if Derives(src, e) {
      var ts :| L.Lex(src) == Ok(ts + [Eof]) && Eof !in ts && G.OrD(ts, e);
      G.ParsesIffDerives(ts, e);
    }
  }

  lemma LexBody(src: string) returns (ts: seq<Token>)
    requires L.Lex(src).Ok?
    ensures L.Lex(src) == Ok(ts + [Eof]) && Eof !in ts
  {
    L.LexEndsInEof(src);
    var all := L.Lex(src).value;
    ts := all[..|all| - 1];
    assert all == ts + [Eof];
  }

  /** No text makes the parser run past the end of its tokens. */
  lemma CompileNeverPastEnd(src: string)
    ensures CompileCel(src) != Err(ParseFailed(P.PastEnd))
  {
    if L.Lex(src).Ok? {
      L.LexEndsInEof(src);
      G.NeverPastEnd(L.Lex(src).value);
    }
  }

  // Round trip

  /** The expressions with a text: natural-number literals and paths of plain identifiers. */
  predicate Printable(e: Expr)
    decreases e
  {
    match e
    case Lit(v) => L.Writable(LiteralToken(v))
    case Path(parts) => parts != [] && forall w | w in parts :: L.IsIdentifier(w)
    case List(items) => forall x | x in items :: Printable(x)
    case Not(x) => Printable(x)
    case Bin(op, l, r) => (RelOp(op) || op == AndAnd || op == OrOr) && Printable(l) && Printable(r)
  }

  function LiteralToken(v: Literal): Token {
    match v
    case LStr(s) => TStr(s)
    case LNum(n) => TNum(n)
    case LBool(b) => TBool(b)
    case LNull => TNull
  }

  /** Fully parenthesised tokens. */
  function Tokens(e: Expr): seq<Token>
    requires Printable(e)
    decreases e, 1
  {
    match e
    case Lit(v) => [LiteralToken(v)]
    case Path(parts) => PathTokens(parts)
    case List(items) =>
      [TPunct(LBracket)] + (if items == [] then [] else ItemTokens(items)) + [TPunct(RBracket)]
    case Not(x) => [TPunct(LParen)] + ([TPunct(Bang)] + Tokens(x)) + [TPunct(RParen)]
    case Bin(op, l, r) => [TPunct(LParen)] + (Tokens(l) + [TPunct(op)] + Tokens(r)) + [TPunct(RParen)]
  }

  function PathTokens(parts: seq<string>): seq<Token>
    requires parts != []
  {
    var n := |parts|;
    if n == 1 then [TIdent(parts[0])]
    else PathTokens(parts[..n - 1]) + [TPunct(Dot), TIdent(parts[n - 1])]
  }

  function ItemTokens(items: seq<Expr>): seq<Token>
    requires items != [] && forall x | x in items :: Printable(x)
    decreases items, 0
  {
    var n := |items|;
    if n == 1 then Tokens(items[0])
    else ItemTokens(items[..n - 1]) + [TPunct(Comma)] + Tokens(items[n - 1])
  }

  function Print(e: Expr): string
    requires Printable(e)
  {
    TokensWritable(e);
    L.Text(Tokens(e))
  }

  lemma {:induction false} PathWritable(parts: seq<string>)
    requires parts != [] && forall w | w in parts :: L.IsIdentifier(w)
    ensures forall t | t in PathTokens(parts) :: L.Writable(t)
    decreases |parts|
  {
    assert parts[|parts| - 1] in parts;
    if |parts| > 1 { PathWritable(parts[..|parts| - 1]); }
  }

  lemma {:induction false} TokensWritable(e: Expr)
    requires Printable(e)
    ensures forall t | t in Tokens(e) :: L.Writable(t)
    decreases e, 1
  {
    match e {
      case Lit(_) =>
      case Path(parts) => PathWritable(parts);
      case List(items) => if items != [] { ItemsWritable(items); }
      case Not(x) => TokensWritable(x);
      case Bin(_, l, r) => TokensWritable(l); TokensWritable(r);
    }
  }

  lemma {:induction false} ItemsWritable(items: seq<Expr>)
    requires items != [] && forall x | x in items :: Printable(x)
    ensures forall t | t in ItemTokens(items) :: L.Writable(t)
    decreases items, 0
  {
    var n := |items|;
    TokensWritable(items[n - 1]);
    if n > 1 { ItemsWritable(items[..n - 1]); }
  }

  lemma {:induction false} PathDerives(parts: seq<string>)
    requires parts != []
    ensures G.PathD(PathTokens(parts), parts)
    decreases |parts|
  {
    var n := |parts|;
    if n > 1 {
      PathDerives(parts[..n - 1]);
      var ts := PathTokens(parts);
      assert ts[..|ts| - 2] == PathTokens(parts[..n - 1]);
    }
  }

  lemma {:induction false} TokensDerive(e: Expr)
    requires Printable(e)
    ensures G.PrimD(Tokens(e), e)
    decreases e, 1
  {
    var ts := Tokens(e);
    match e {
      case Lit(_) =>
      case Path(parts) => PathDerives(parts);
      case List(items) =>
        if items != [] {
          ItemsDerive(items);
          assert ts[1..|ts| - 1] == ItemTokens(items);
        }
      case Not(x) =>
        TokensDerive(x);
        var inner := [TPunct(Bang)] + Tokens(x);
        assert inner[1..] == Tokens(x);
        G.PrimLifts(Tokens(x), x);
        assert G.NotD(inner, e);
        assert G.AndD(inner, e);
        assert ts[1..|ts| - 1] == inner;
      case Bin(op, l, r) =>
        TokensDerive(l);
        TokensDerive(r);
        var inner := Tokens(l) + [TPunct(op)] + Tokens(r);
        BinDerives(e, inner);
        assert ts[1..|ts| - 1] == inner;
    }
  }

  lemma BinDerives(e: Expr, inner: seq<Token>)
    requires Printable(e) && e.Bin? && inner == Tokens(e.left) + [TPunct(e.op)] + Tokens(e.right)
    requires G.PrimD(Tokens(e.left), e.left) && G.PrimD(Tokens(e.right), e.right)
    ensures G.OrD(inner, e)
  {
    var i := |Tokens(e.left)|;
    assert inner[..i] == Tokens(e.left) && inner[i + 1..] == Tokens(e.right);
    G.PrimLifts(Tokens(e.left), e.left);
    G.PrimLifts(Tokens(e.right), e.right);
    if RelOp(e.op) {
      assert G.RelSplit(inner, e, i);
      assert G.NotD(inner, e);
      assert G.AndD(inner, e);
    } else if e.op == AndAnd {
      assert G.AndSplit(inner, e, i);
    } else {
      assert G.OrSplit(inner, e, i);
    }
  }

  lemma {:induction false} ItemsDerive(items: seq<Expr>)
    requires items != [] && forall x | x in items :: Printable(x)
    ensures G.ItemsD(ItemTokens(items), items)
    decreases items, 0
  {
    var n := |items|;
    var last := items[n - 1];
    TokensDerive(last);
    G.PrimLifts(Tokens(last), last);
    if n > 1 {
      var front := items[..n - 1];
      ItemsDerive(front);
      var ts, i := ItemTokens(items), |ItemTokens(front)|;
      assert ts[..i] == ItemTokens(front) && ts[i + 1..] == Tokens(last);
      assert G.ItemsSplit(ts, items, i);
    }
  }

  /** Compiling the printed form of an expression returns the expression. */
  lemma PrintCompiles(e: Expr)
    requires Printable(e)
    ensures CompileCel(Print(e)) == Ok(e)
  {
    TokensWritable(e);
    TokensDerive(e);
    L.LexText(Tokens(e));
    G.PrimLifts(Tokens(e), e);
    G.ParsesIffDerives(Tokens(e), e);
  }

  // Evaluation

  /** JavaScript values that an expression can produce. A number is `None` for NaN. */
  datatype Value =
    | VUndefined | VNull | VBool(b: bool) | VNum(n: Option<real>) | VStr(s: string)
    | VArr(items: seq<Value>) | VObj(fields: map<string, Value>)

  function FromJson(j: Json): Value
    decreases j, 1
  {
    match j
    case Null => VNull
    case Bool(b) => VBool(b)
    case Num(n) => VNum(Some(n))
    case Str(s) => VStr(s)
    case Arr(items) => VArr(FromJsonAll(items))
    case Obj(fields) => VObj(map k | k in fields :: FromJson(fields[k]))
  }

  function FromJsonAll(js: seq<Json>): seq<Value>
    decreases js, 0
  {
    if js == [] then [] else [FromJson(js[0])] + FromJsonAll(js[1..])
  }

  function LiteralValue(v: Literal): Value {
    match v
    case LStr(s) => VStr(s)
    case LNum(n) => VNum(n)
    case LBool(b) => VBool(b)
    case LNull => VNull
  }

  /** `cur[p]` on objects; an array has a `length` and its elements. */
  function Member(cur: Value, p: string): Value {
    match cur
    case VObj(fields) => if p in fields then fields[p] else VUndefined
    case VArr(items) =>
      if p == "length" then VNum(Some(|items| as real))
      else VUndefined  // an identifier is never an index
    case _ => VUndefined
  }

  function LookupPath(cur: Value, parts: seq<string>): Value
    decreases |parts|
  {
    if parts == [] then cur
    else if !cur.VObj? && !cur.VArr? then VUndefined
    else LookupPath(Member(cur, parts[0]), parts[1..])
  }

  method Lookup(root: Value, parts: seq<string>) returns (cur: Value)
    ensures cur == LookupPath(root, parts)
  {
    cur := root;
    for i := 0 to |parts|
      invariant LookupPath(root, parts) == LookupPath(cur, parts[i..])
    {
      assert parts[i..][1..] == parts[i + 1..];
      if !cur.VObj? && !cur.VArr? { return VUndefined; }
      cur := Member(cur, parts[i]);
    }
  }

  /** What JSON text keeps of an array element. */
  function Written(v: Value): Value
    decreases v, 1
  {
    match v
    case VUndefined => VNull
    case VNum(None) => VNull
    case VArr(items) => VArr(WrittenAll(items))
    case _ => v
  }

  function WrittenAll(vs: seq<Value>): seq<Value>
    decreases vs, 0
  {
    if vs == [] then [] else [Written(vs[0])] + WrittenAll(vs[1..])
  }

  /** Identity on primitives, JSON text on arrays and objects. The text of an object depends on key
      order, which a map does not keep. */
  predicate JsonEqual(a: Value, b: Value) {
    if a.VObj? || a.VArr? then (b.VObj? || b.VArr?) && Written(a) == Written(b)
    else a == b && a != VNum(None)
  }

  predicate Contains(vs: seq<Value>, a: Value) {
    exists v | v in vs :: JsonEqual(v, a)
  }

  /** Ordering goes through numbers; anything else is NaN and compares false. */
  predicate Ordered(op: Punct, a: Value, b: Value) {
    a.VNum? && a.n.Some? && b.VNum? && b.n.Some? &&
    match op
    case Less => a.n.value < b.n.value
    case LessEq => a.n.value <= b.n.value
    case Greater => a.n.value > b.n.value
    case GreaterEq => a.n.value >= b.n.value
    case _ => false
  }

  function Eval(e: Expr, env: Value): Value
    decreases e, 1
  {
    match e
    case Lit(v) => LiteralValue(v)
    case Path(parts) => LookupPath(env, parts)
    case List(items) => VArr(EvalAll(items, env))
    case Not(x) => VBool(Eval(x, env) != VBool(true))
    case Bin(op, l, r) =>
      if op == AndAnd then
        if Eval(l, env) != VBool(true) then VBool(false) else VBool(Eval(r, env) == VBool(true))
      else if op == OrOr then
        if Eval(l, env) == VBool(true) then VBool(true) else VBool(Eval(r, env) == VBool(true))
      else
        var a, b := Eval(l, env), Eval(r, env);
        if op == EqEq then VBool(JsonEqual(a, b))
        else if op == BangEq then VBool(!JsonEqual(a, b))
        else if op == In then VBool(b.VArr? && Contains(b.items, a))
        else VBool(Ordered(op, a, b))
  }

  function EvalAll(es: seq<Expr>, env: Value): seq<Value>
    decreases es, 0
  {
    if es == [] then [] else [Eval(es[0], env)] + EvalAll(es[1..], env)
  }

  /** `evalCEL`: anything but `true` is false; `ctx` is the only root name. */
  predicate Holds(e: Expr, ctx: Ctx) {
    Eval(e, VObj(map["ctx" := FromJson(Obj(ctx))])) == VBool(true)
  }

  /** Evaluating the printed text decides as the expression does, on every context. */
  lemma PrintedMeaning(e: Expr, ctx: Ctx)
    requires Printable(e)
    ensures var c := CompileCel(Print(e)); c.Ok? && (Holds(c.value, ctx) <==> Holds(e, ctx))
  {
    PrintCompiles(e);
  }

  // Laws of the operators

  lemma EvalOr(a: Expr, b: Expr, env: Value)
    ensures Eval(Bin(OrOr, a, b), env) == VBool(Eval(a, env) == VBool(true) || Eval(b, env) == VBool(true))
  {
  }

  lemma EvalAnd(a: Expr, b: Expr, env: Value)
    ensures Eval(Bin(AndAnd, a, b), env) == VBool(Eval(a, env) == VBool(true) && Eval(b, env) == VBool(true))
  {
  }

  /** The chain `x == item || ... || false`. */
  function AnyEqual(x: Expr, items: seq<Expr>): Expr {
    if items == [] then Lit(LBool(false)) else Bin(OrOr, Bin(EqEq, x, items[0]), AnyEqual(x, items[1..]))
  }

  lemma ContainsCons(v: Value, vs: seq<Value>, a: Value)
    ensures Contains([v] + vs, a) <==> JsonEqual(a, v) || Contains(vs, a)
  {
    var all := [v] + vs;
    if JsonEqual(a, v) { assert all[0] in all && JsonEqual(all[0], a); }
    if Contains(vs, a) { var x :| x in vs && JsonEqual(x, a); assert x in all; }
  }

  lemma {:induction false} AnyEqualValue(x: Expr, items: seq<Expr>, env: Value)
    ensures Eval(AnyEqual(x, items), env) == VBool(Contains(EvalAll(items, env), Eval(x, env)))
  {
    if items != [] {
      AnyEqualValue(x, items[1..], env);
      EvalOr(Bin(EqEq, x, items[0]), AnyEqual(x, items[1..]), env);
      ContainsCons(Eval(items[0], env), EvalAll(items[1..], env), Eval(x, env));
    }
  }

  /** Membership in a list literal is the disjunction of equalities with its items. */
  lemma InIsDisjunction(x: Expr, items: seq<Expr>, env: Value)
    ensures Eval(Bin(In, x, List(items)), env) == Eval(AnyEqual(x, items), env)
  {
    AnyEqualValue(x, items, env);
  }

  /** Short-circuiting is not observable: both boolean operators commute and obey De Morgan. */
  lemma BooleanLaws(a: Expr, b: Expr, env: Value)
    ensures Eval(Bin(AndAnd, a, b), env) == Eval(Bin(AndAnd, b, a), env)
    ensures Eval(Bin(OrOr, a, b), env) == Eval(Bin(OrOr, b, a), env)
    ensures Eval(Not(Bin(AndAnd, a, b)), env) == Eval(Bin(OrOr, Not(a), Not(b)), env)
    ensures Eval(Not(Bin(OrOr, a, b)), env) == Eval(Bin(AndAnd, Not(a), Not(b)), env)
  {
    EvalAnd(a, b, env);
    EvalAnd(b, a, env);
    EvalOr(a, b, env);
    EvalOr(b, a, env);
    EvalAnd(Not(a), Not(b), env);
    EvalOr(Not(a), Not(b), env);
  }

  /** `!=` is the negation of `==`, which does not depend on the side. */
  lemma EqualityLaws(a: Expr, b: Expr, env: Value)
    ensures Eval(Bin(BangEq, a, b), env) == Eval(Not(Bin(EqEq, a, b)), env)
    ensures Eval(Bin(EqEq, a, b), env) == Eval(Bin(EqEq, b, a), env)
  {
    assert Eval(Bin(EqEq, a, b), env) == VBool(JsonEqual(Eval(a, env), Eval(b, env)));
    assert Eval(Bin(EqEq, b, a), env) == VBool(JsonEqual(Eval(b, env), Eval(a, env)));
    assert Eval(Bin(BangEq, a, b), env) == VBool(!JsonEqual(Eval(a, env), Eval(b, env)));
  }

  lemma {:induction false} JsonIsWritten(x: Json)
    ensures Written(FromJson(x)) == FromJson(x)
    decreases x, 1
  {
    if x.Arr? { JsonAllWritten(x.items); }
  }

  lemma {:induction false} JsonAllWritten(xs: seq<Json>)
    ensures WrittenAll(FromJsonAll(xs)) == FromJsonAll(xs)
    decreases xs, 0
  {
    if xs != [] {
      JsonIsWritten(xs[0]);
      JsonAllWritten(xs[1..]);
      assert FromJsonAll(xs)[1..] == FromJsonAll(xs[1..]);
    }
  }

  lemma {:induction false} FromJsonInjective(x: Json, y: Json)
    requires FromJson(x) == FromJson(y)
    ensures x == y
    decreases x, 1
  {
    if x.Arr? {
      FromJsonAllInjective(x.items, y.items);
    } else if x.Obj? {
      var fx, fy := FromJson(x).fields, FromJson(y).fields;
      assert fx.Keys == x.fields.Keys && fy.Keys == y.fields.Keys;
      forall k | k in x.fields ensures k in y.fields && x.fields[k] == y.fields[k] {
        assert k in fx && fx[k] == fy[k];
        FromJsonInjective(x.fields[k], y.fields[k]);
      }
    }
  }

  lemma {:induction false} FromJsonAllInjective(xs: seq<Json>, ys: seq<Json>)
    requires FromJsonAll(xs) == FromJsonAll(ys)
    ensures xs == ys
    decreases xs, 0
  {
    if xs == [] {
      assert ys == [];
    } else {
      assert ys != [];
      var vs := FromJsonAll(xs);
      assert vs[0] == FromJson(xs[0]) == FromJson(ys[0]);
      assert vs[1..] == FromJsonAll(xs[1..]) && vs[1..] == FromJsonAll(ys[1..]);
      FromJsonInjective(xs[0], ys[0]);
      FromJsonAllInjective(xs[1..], ys[1..]);
      assert xs == [xs[0]] + xs[1..] && ys == [ys[0]] + ys[1..];
    }
  }

  /** Against a value without objects, cel-lite's equality on context values is equality of JSON values. */
  lemma EqualityIsJson(x: Json, y: Json)
    requires ObjectFree(y)
    ensures JsonEqual(FromJson(x), FromJson(y)) <==> x == y
  {
    JsonIsWritten(x);
    JsonIsWritten(y);
    if FromJson(x) == FromJson(y) { FromJsonInjective(x, y); }
  }

  /** The orderings are one order read four ways, for every pair of values. */
  lemma OrderingFlips(a: Expr, b: Expr, env: Value)
    ensures Eval(Bin(Less, a, b), env) == Eval(Bin(Greater, b, a), env)
    ensures Eval(Bin(LessEq, a, b), env) == Eval(Bin(GreaterEq, b, a), env)
  {
    assert Eval(Bin(Less, a, b), env) == VBool(Ordered(Less, Eval(a, env), Eval(b, env)));
    assert Eval(Bin(Greater, b, a), env) == VBool(Ordered(Greater, Eval(b, env), Eval(a, env)));
  }

  predicate IsNumber(v: Value) { v.VNum? && v.n.Some? }

  /** `!(a < b)` is `a >= b` exactly when both sides are numbers; on anything else no ordering holds. */
  lemma NegatedOrdering(a: Value, b: Value)
    ensures (!Ordered(Less, a, b) <==> Ordered(GreaterEq, a, b)) <==> IsNumber(a) && IsNumber(b)
    ensures Ordered(LessEq, a, b) <==> Ordered(Less, a, b) || (IsNumber(a) && JsonEqual(a, b))
  {
  }
}

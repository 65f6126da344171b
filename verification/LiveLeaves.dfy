/** Which leaves can decide something, against which leaves validation accepts. */
module LiveLeaves {
  import opened JsonValues
  import opened Ir
  import opened Compile
  import Go = GoEval

  /** A context in which the path leads to `v`. */
  function Nested(parts: seq<string>, v: Json): Json {
    if parts == [] then v else Obj(map[parts[0] := Nested(parts[1..], v)])
  }

  lemma {:induction false} NestedWalk(parts: seq<string>, v: Json)
    ensures Go.Walk(Nested(parts, v), parts) == Some(v)
  {
    if parts != [] { NestedWalk(parts[1..], v); }
  }

  function Holding(path: string, v: Json): Ctx {
    Nested(Split(path), v).fields
  }

  lemma HoldingLookup(path: string, v: Json)
    requires path != ""
    ensures Go.LookupPath(Holding(path, v), path) == Some(v)
    ensures Go.LookupPath(map[], path) == None
  {
    NestedWalk(Split(path), v);
    assert Obj(Holding(path, v)) == Nested(Split(path), v);
  }

  predicate Comparison(p: Predicate) {
    p.Node? && p.kind in {Eq, Neq, In, Gt, Gte, Lt, Lte, StartsWith}
  }

  /** The operand is of the kind the comparison compares; `null` is read as an empty prefix. */
  predicate OperandFits(p: Predicate)
    requires Comparison(p)
  {
    && (p.kind in {Gt, Gte, Lt, Lte} ==> p.value.Some? && p.value.value.Num?)
    && (p.kind == StartsWith ==> p.value.Some? && (p.value.value.Str? || p.value.value.Null?))
  }

  ghost predicate Decides(env: Env, p: Predicate) {
    && (exists ctx: Ctx :: Go.Match(env, p, ctx, map[]) == Go.Hit(true))
    && (exists ctx: Ctx :: Go.Match(env, p, ctx, map[]) == Go.Hit(false))
  }

  /** A value the comparison relates to its operand. */
  function Witness(p: Predicate): Json
    requires Comparison(p) && OperandFits(p) && (p.kind in {Eq, Neq} ==> p.value.Some?) && (p.kind == In ==> p.values != [])
  {
    if p.kind == In then p.values[0]
    else if p.kind == Gt then Num(p.value.value.n + 1.0)
    else if p.kind == Lt then Num(p.value.value.n - 1.0)
    else if p.kind == StartsWith && p.value.value.Null? then Str("")
    else p.value.value
  }

  lemma WitnessDecides(env: Env, p: Predicate)
    requires Comparison(p) && OperandFits(p) && p.attr != ""
    requires (p.kind in {Eq, Neq} ==> p.value.Some?) && (p.kind == In ==> p.values != [])
    ensures Go.Match(env, p, Holding(p.attr, Witness(p)), map[]) == Go.Hit(p.kind != Neq)
    ensures Go.Match(env, p, map[], map[]) == Go.Hit(p.kind == Neq)
  {
    HoldingLookup(p.attr, Witness(p));
  }

  /** A comparison matches on some context and misses on some context if and only if validation accepts
      it and its operand is of the kind it compares, which validation does not look at. */
  lemma DecidesIffFits(env: Env, p: Predicate, allowCel: bool)
    requires Comparison(p)
    ensures Decides(env, p) <==> ValidPredicate(env, p, allowCel) && OperandFits(p)
  {
    if ValidPredicate(env, p, allowCel) && OperandFits(p) {
      WitnessDecides(env, p);
    } else {
      forall ctx: Ctx ensures Go.Match(env, p, ctx, map[]) != Go.Hit(p.kind != Neq) { }
    }
  }

  /** A value type is valid if and only if some rule value can be served under it. */
  lemma ValidTypeServes(t: ValueType)
    ensures !t.TOther? <==> exists v: Json :: Go.ValueMatchesType(v, t)
  {
    assert Go.ValueMatchesType(Bool(true), TBoolean) && Go.ValueMatchesType(Str(""), TString);
    assert Go.ValueMatchesType(Num(0.0), TNumber) && Go.ValueMatchesType(Obj(map[]), TObject);
  }
}

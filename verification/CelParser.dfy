/** The cel-lite recursive-descent parser: the class with its mutable position, and the
    functions of the position that it is proved against. */
module CelParser {
  import opened JsonValues
  import opened CelSyntax

  datatype ParseError = PastEnd | Expected(p: Punct) | ExpectedIdent | Unexpected | TrailingTokens

  datatype Parse<+T> = Parsed(value: T, pos: nat) | Failed(error: ParseError)

  predicate At(ts: seq<Token>, p: nat, x: Punct) {
    p < |ts| && ts[p] == TPunct(x)
  }

  function Expect<T>(ts: seq<Token>, p: nat, x: Punct, v: T): (r: Parse<T>)
    ensures r.Parsed? ==> p < r.pos <= |ts|
  {
    if p >= |ts| then Failed(PastEnd)
    else if ts[p] == TPunct(x) then Parsed(v, p + 1)
    else Failed(Expected(x))
  }

  function ParseOr(ts: seq<Token>, p: nat): (r: Parse<Expr>)
    ensures r.Parsed? ==> p < r.pos <= |ts|
    decreases |ts| - p, 6
  {
    var left := ParseAnd(ts, p);
    if left.Failed? then left else OrLoop(ts, left.value, left.pos)
  }

  function OrLoop(ts: seq<Token>, left: Expr, p: nat): (r: Parse<Expr>)
    ensures r.Parsed? ==> p <= r.pos <= |ts|
    decreases |ts| - p, 0
  {
    if p >= |ts| then Failed(PastEnd)
    else if ts[p] != TPunct(OrOr) then Parsed(left, p)
    else
      var right := ParseAnd(ts, p + 1);
      if right.Failed? then right else OrLoop(ts, Bin(OrOr, left, right.value), right.pos)
  }

  function ParseAnd(ts: seq<Token>, p: nat): (r: Parse<Expr>)
    ensures r.Parsed? ==> p < r.pos <= |ts|
    decreases |ts| - p, 5
  {
    var left := ParseNot(ts, p);
    if left.Failed? then left else AndLoop(ts, left.value, left.pos)
  }

  function AndLoop(ts: seq<Token>, left: Expr, p: nat): (r: Parse<Expr>)
    ensures r.Parsed? ==> p <= r.pos <= |ts|
    decreases |ts| - p, 0
  {
    if p >= |ts| then Failed(PastEnd)
    else if ts[p] != TPunct(AndAnd) then Parsed(left, p)
    else
      var right := ParseNot(ts, p + 1);
      if right.Failed? then right else AndLoop(ts, Bin(AndAnd, left, right.value), right.pos)
  }

  function ParseNot(ts: seq<Token>, p: nat): (r: Parse<Expr>)
    ensures r.Parsed? ==> p < r.pos <= |ts|
    decreases |ts| - p, 4
  {
    if p >= |ts| then Failed(PastEnd)
    else if ts[p] == TPunct(Bang) then
      var operand := ParseNot(ts, p + 1);
      if operand.Failed? then operand else Parsed(Not(operand.value), operand.pos)
    else ParseRel(ts, p)
  }

  function ParseRel(ts: seq<Token>, p: nat): (r: Parse<Expr>)
    ensures r.Parsed? ==> p < r.pos <= |ts|
    decreases |ts| - p, 3
  {
    var left := ParsePrimary(ts, p);
    if left.Failed? then left
    else if left.pos >= |ts| then Failed(PastEnd)
    else
      var op := ts[left.pos];
      if op.TPunct? && RelOp(op.p) then
        var right := ParsePrimary(ts, left.pos + 1);
        if right.Failed? then right else Parsed(Bin(op.p, left.value, right.value), right.pos)
      else left
  }

  function ParsePrimary(ts: seq<Token>, p: nat): (r: Parse<Expr>)
    ensures r.Parsed? ==> p < r.pos <= |ts|
    decreases |ts| - p, 2
  {
    if p >= |ts| then Failed(PastEnd)
    else match ts[p]
      case TPunct(x) =>
        if x == LParen then
          var inner := ParseOr(ts, p + 1);
          if inner.Failed? then inner else Expect(ts, inner.pos, RParen, inner.value)
        else if x == LBracket then ParseList(ts, p + 1)
        else Failed(Unexpected)
      case TIdent(name) => PathLoop(ts, [name], p + 1)
      case Eof => Failed(Unexpected)
      case _ => Parsed(Lit(LiteralOf(ts[p]).value), p + 1)
  }

  /** After the opening bracket. */
  function ParseList(ts: seq<Token>, p: nat): (r: Parse<Expr>)
    ensures r.Parsed? ==> p < r.pos <= |ts|
    decreases |ts| - p, 7
  {
    if p >= |ts| then Failed(PastEnd)
    else if ts[p] == TPunct(RBracket) then Parsed(List([]), p + 1)
    else
      var first := ParseOr(ts, p);
      if first.Failed? then first else ItemsLoop(ts, [first.value], first.pos)
  }

  function ItemsLoop(ts: seq<Token>, items: seq<Expr>, p: nat): (r: Parse<Expr>)
    ensures r.Parsed? ==> p < r.pos <= |ts|
    decreases |ts| - p, 0
  {
    if p >= |ts| then Failed(PastEnd)
    else if ts[p] != TPunct(Comma) then Expect(ts, p, RBracket, List(items))
    else
      var item := ParseOr(ts, p + 1);
      if item.Failed? then item else ItemsLoop(ts, items + [item.value], item.pos)
  }

  function PathLoop(ts: seq<Token>, parts: seq<string>, p: nat): (r: Parse<Expr>)
    ensures r.Parsed? ==> p <= r.pos <= |ts|
    decreases |ts| - p
  {
    if p >= |ts| then Failed(PastEnd)
    else if ts[p] != TPunct(Dot) then Parsed(Path(parts), p)
    else if p + 1 >= |ts| then Failed(PastEnd)
    else if !ts[p + 1].TIdent? then Failed(ExpectedIdent)
    else PathLoop(ts, parts + [ts[p + 1].name], p + 2)
  }

  function ParseAll(ts: seq<Token>): Result<Expr, ParseError> {
    var r := ParseOr(ts, 0);
    if r.Failed? then Err(r.error)
    else if r.pos >= |ts| then Err(PastEnd)
    else if ts[r.pos] != Eof then Err(TrailingTokens)
    else Ok(r.value)
  }

  /** The parser object. A throw leaves `pos` unspecified, as nothing reads it afterwards. */
  class Parser {
    const tokens: seq<Token>
    var pos: nat

    constructor (tokens: seq<Token>)
      ensures this.tokens == tokens && pos == 0
    {
      this.tokens := tokens;
      pos := 0;
    }

    method AcceptPunct(x: Punct) returns (past: bool, yes: bool)
      modifies this`pos
      ensures past <==> old(pos) >= |tokens|
      ensures yes <==> At(tokens, old(pos), x)
      ensures pos == if yes then old(pos) + 1 else old(pos)
    {
      if pos >= |tokens| {
        return true, false;
      }
      yes := tokens[pos] == TPunct(x);
      if yes { pos := pos + 1; }
      past := false;
    }

    method ExpectPunct(x: Punct, e: Expr) returns (r: Parse<Expr>)
      modifies this`pos
      ensures r == Expect(tokens, old(pos), x, e)
      ensures r.Parsed? ==> pos == r.pos
    {
      var past, yes := AcceptPunct(x);
      r := if past then Failed(PastEnd) else if yes then Parsed(e, pos) else Failed(Expected(x));
    }

    method Run() returns (r: Result<Expr, ParseError>)
      requires pos == 0
      modifies this`pos
      ensures r == ParseAll(tokens)
    {
      var e := POr();
      r := if e.Failed? then Err(e.error)
           else if pos >= |tokens| then Err(PastEnd)
           else if tokens[pos] != Eof then Err(TrailingTokens)
           else Ok(e.value);
    }

    method POr() returns (r: Parse<Expr>)
      modifies this`pos
      ensures r == ParseOr(tokens, old(pos))
      ensures r.Parsed? ==> pos == r.pos
      decreases |tokens| - pos, 6
    {
      r := PAnd();
      if r.Failed? { return; }
      var left := r.value;
      var past, more := AcceptPunct(OrOr);
      while more
        invariant old(pos) < pos <= |tokens| + 1
        invariant past ==> !more && pos >= |tokens|
        invariant more ==> At(tokens, pos - 1, OrOr) && old(pos) < pos - 1
        invariant ParseOr(tokens, old(pos)) == OrLoop(tokens, left, if more then pos - 1 else pos)
        invariant !more && !past ==> pos < |tokens| && tokens[pos] != TPunct(OrOr)
        decreases |tokens| + 1 - pos, more
      {
        var right := PAnd();
        if right.Failed? { return right; }
        left := Bin(OrOr, left, right.value);
        past, more := AcceptPunct(OrOr);
      }
      r := if past then Failed(PastEnd) else Parsed(left, pos);
    }

    method PAnd() returns (r: Parse<Expr>)
      modifies this`pos
      ensures r == ParseAnd(tokens, old(pos))
      ensures r.Parsed? ==> pos == r.pos
      decreases |tokens| - pos, 5
    {
      r := PNot();
      if r.Failed? { return; }
      var left := r.value;
      var past, more := AcceptPunct(AndAnd);
      while more
        invariant old(pos) < pos <= |tokens| + 1
        invariant past ==> !more && pos >= |tokens|
        invariant more ==> At(tokens, pos - 1, AndAnd) && old(pos) < pos - 1
        invariant ParseAnd(tokens, old(pos)) == AndLoop(tokens, left, if more then pos - 1 else pos)
        invariant !more && !past ==> pos < |tokens| && tokens[pos] != TPunct(AndAnd)
        decreases |tokens| + 1 - pos, more
      {
        var right := PNot();
        if right.Failed? { return right; }
        left := Bin(AndAnd, left, right.value);
        past, more := AcceptPunct(AndAnd);
      }
      r := if past then Failed(PastEnd) else Parsed(left, pos);
    }

    method PNot() returns (r: Parse<Expr>)
      modifies this`pos
      ensures r == ParseNot(tokens, old(pos))
      ensures r.Parsed? ==> pos == r.pos
      decreases |tokens| - pos, 4
    {
      var past, bang := AcceptPunct(Bang);
      if past { return Failed(PastEnd); }
      if bang {
        r := PNot();
        if r.Parsed? { r := Parsed(Not(r.value), r.pos); }
        return;
      }
      r := PRel();
    }

    method PRel() returns (r: Parse<Expr>)
      modifies this`pos
      ensures r == ParseRel(tokens, old(pos))
      ensures r.Parsed? ==> pos == r.pos
      decreases |tokens| - pos, 3
    {
      r := PPrimary();
      if r.Failed? { return; }
      if pos >= |tokens| { return Failed(PastEnd); }
      var op := tokens[pos];
      if op.TPunct? && RelOp(op.p) {
        pos := pos + 1;
        var right := PPrimary();
        r := if right.Failed? then right else Parsed(Bin(op.p, r.value, right.value), pos);
      }
    }

    method PPrimary() returns (r: Parse<Expr>)
      modifies this`pos
      ensures r == ParsePrimary(tokens, old(pos))
      ensures r.Parsed? ==> pos == r.pos
      decreases |tokens| - pos, 2
    {
      if pos >= |tokens| { return Failed(PastEnd); }
      match tokens[pos] {
        case TPunct(x) =>
          if x == LParen {
            pos := pos + 1;
            r := POr();
            if r.Parsed? { r := ExpectPunct(RParen, r.value); }
          } else if x == LBracket {
            pos := pos + 1;
            r := PList();
          } else {
            r := Failed(Unexpected);
          }
        case TIdent(name) =>
          pos := pos + 1;
          r := PPath(name);
        case Eof =>
          r := Failed(Unexpected);
        case _ =>
          r := Parsed(Lit(LiteralOf(tokens[pos]).value), pos + 1);
          pos := pos + 1;
      }
    }

    method PList() returns (r: Parse<Expr>)
      modifies this`pos
      ensures r == ParseList(tokens, old(pos))
      ensures r.Parsed? ==> pos == r.pos
      decreases |tokens| - pos, 7
    {
      var past, empty := AcceptPunct(RBracket);
      if past { return Failed(PastEnd); }
      if empty { return Parsed(List([]), pos); }
      r := POr();
      if r.Failed? { return; }
      var items := [r.value];
      var more;
      past, more := AcceptPunct(Comma);
      while more
        invariant old(pos) < pos <= |tokens| + 1
        invariant past ==> !more && pos >= |tokens|
        invariant more ==> At(tokens, pos - 1, Comma) && old(pos) < pos - 1
        invariant ParseList(tokens, old(pos)) == ItemsLoop(tokens, items, if more then pos - 1 else pos)
        invariant !more && !past ==> pos < |tokens| && tokens[pos] != TPunct(Comma)
        decreases |tokens| + 1 - pos, more
      {
        var item := POr();
        if item.Failed? { return item; }
        items := items + [item.value];
        past, more := AcceptPunct(Comma);
      }
      if past { return Failed(PastEnd); }
      r := ExpectPunct(RBracket, List(items));
    }

    /** After the first identifier. */
    method PPath(first: string) returns (r: Parse<Expr>)
      modifies this`pos
      ensures r == PathLoop(tokens, [first], old(pos))
      ensures r.Parsed? ==> pos == r.pos
    {
      var parts := [first];
      var past, more := AcceptPunct(Dot);
      while more
        invariant old(pos) <= pos
        invariant past ==> !more && pos >= |tokens|
        invariant more ==> pos > 0 && At(tokens, pos - 1, Dot)
        invariant PathLoop(tokens, [first], old(pos)) == PathLoop(tokens, parts, if more then pos - 1 else pos)
        invariant !more && !past ==> pos < |tokens| && tokens[pos] != TPunct(Dot)
        decreases |tokens| + 1 - pos, more
      {
        if pos >= |tokens| { return Failed(PastEnd); }
        var seg := tokens[pos];
        pos := pos + 1;
        if !seg.TIdent? { return Failed(ExpectedIdent); }
        parts := parts + [seg.name];
        past, more := AcceptPunct(Dot);
      }
      r := if past then Failed(PastEnd) else Parsed(Path(parts), pos);
    }
  }
}

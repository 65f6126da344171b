/** Tokens and syntax trees of cel-lite. */
module CelSyntax {
  import opened JsonValues

  datatype Punct =
    | LParen | RParen | LBracket | RBracket | Comma | Dot | Bang
    | EqEq | BangEq | Less | LessEq | Greater | GreaterEq | AndAnd | OrOr | In

  /** A number is `None` when its text is not a JavaScript number, such as "1.2.3". */
  datatype Token =
    | TStr(s: string)
    | TNum(n: Option<real>)
    | TBool(b: bool)
    | TNull
    | TIdent(name: string)
    | TPunct(p: Punct)
    | Eof

  datatype Literal = LStr(s: string) | LNum(n: Option<real>) | LBool(b: bool) | LNull

  datatype Expr =
    | Lit(v: Literal)
    | Path(parts: seq<string>)
    | List(items: seq<Expr>)
    | Not(operand: Expr)
    | Bin(op: Punct, left: Expr, right: Expr)

  predicate RelOp(p: Punct) {
    p in {EqEq, BangEq, Less, LessEq, Greater, GreaterEq, In}
  }

  /** The literal a token stands for. */
  function LiteralOf(t: Token): Option<Literal> {
    match t
    case TStr(s) => Some(LStr(s))
    case TNum(n) => Some(LNum(n))
    case TBool(b) => Some(LBool(b))
    case TNull => Some(LNull)
    case _ => None
  }
}

/** The five-level cel-lite grammar as a derivation relation, and the parser's exact agreement. */
module CelGrammar {
  import opened JsonValues
  import opened CelSyntax
  import opened CelParser

  type Tokens = seq<Token>

  /** Or ::= And | Or "||" And */
  ghost predicate OrD(ts: Tokens, e: Expr)
    decreases |ts|, 5
  {
    AndD(ts, e) || (e.Bin? && e.op == OrOr && exists i | 0 <= i < |ts| :: OrSplit(ts, e, i))
  }

  ghost predicate OrSplit(ts: Tokens, e: Expr, i: nat)
    requires i < |ts| && e.Bin?
    decreases |ts|, 0
  {
    ts[i] == TPunct(OrOr) && OrD(ts[..i], e.left) && AndD(ts[i + 1..], e.right)
  }

  /** And ::= Not | And "&&" Not */
  ghost predicate AndD(ts: Tokens, e: Expr)
    decreases |ts|, 4
  {
    NotD(ts, e) || (e.Bin? && e.op == AndAnd && exists i | 0 <= i < |ts| :: AndSplit(ts, e, i))
  }

  ghost predicate AndSplit(ts: Tokens, e: Expr, i: nat)
    requires i < |ts| && e.Bin?
    decreases |ts|, 0
  {
    ts[i] == TPunct(AndAnd) && AndD(ts[..i], e.left) && NotD(ts[i + 1..], e.right)
  }

  /** Not ::= Rel | "!" Not */
  ghost predicate NotD(ts: Tokens, e: Expr)
    decreases |ts|, 3
  {
    RelD(ts, e) || (e.Not? && |ts| > 0 && ts[0] == TPunct(Bang) && NotD(ts[1..], e.operand))
  }

  /** Rel ::= Primary | Primary relop Primary */
  ghost predicate RelD(ts: Tokens, e: Expr)
    decreases |ts|, 2
  {
    PrimD(ts, e) || (e.Bin? && RelOp(e.op) && exists i | 0 <= i < |ts| :: RelSplit(ts, e, i))
  }

  ghost predicate RelSplit(ts: Tokens, e: Expr, i: nat)
    requires i < |ts| && e.Bin?
    decreases |ts|, 0
  {
    ts[i] == TPunct(e.op) && PrimD(ts[..i], e.left) && PrimD(ts[i + 1..], e.right)
  }

  /** Primary ::= literal | Path | "(" Or ")" | "[" "]" | "[" Items "]" */
  ghost predicate PrimD(ts: Tokens, e: Expr)
    decreases |ts|, 1
  {
    || (|ts| == 1 && e.Lit? && LiteralOf(ts[0]) == Some(e.v))
    || (e.Path? && PathD(ts, e.parts))
    || (|ts| >= 2 && ts[0] == TPunct(LParen) && ts[|ts| - 1] == TPunct(RParen) && OrD(ts[1..|ts| - 1], e))
    || (|ts| >= 2 && ts[0] == TPunct(LBracket) && ts[|ts| - 1] == TPunct(RBracket) && e.List?
        && (if e.items == [] then |ts| == 2 else ItemsD(ts[1..|ts| - 1], e.items)))
  }

  /** Path ::= ident | Path "." ident */
  ghost predicate PathD(ts: Tokens, parts: seq<string>) {
    var n := |parts|;
    if n == 0 then false
    else if n == 1 then ts == [TIdent(parts[0])]
    else
      && |ts| >= 2 && ts[|ts| - 2] == TPunct(Dot) && ts[|ts| - 1] == TIdent(parts[n - 1])
      && PathD(ts[..|ts| - 2], parts[..n - 1])
  }

  /** Items ::= Or | Items "," Or */
  ghost predicate ItemsD(ts: Tokens, items: seq<Expr>)
    decreases |ts|, 6
  {
    if items == [] then false
    else if |items| == 1 then OrD(ts, items[0])
    else exists i | 0 <= i < |ts| :: ItemsSplit(ts, items, i)
  }

  ghost predicate ItemsSplit(ts: Tokens, items: seq<Expr>, i: nat)
    requires i < |ts| && items != []
    decreases |ts|, 0
  {
    ts[i] == TPunct(Comma) && ItemsD(ts[..i], items[..|items| - 1]) && OrD(ts[i + 1..], items[|items| - 1])
  }

  /** Each level includes the tighter ones. */
  lemma PrimLifts(ts: Tokens, e: Expr)
    requires PrimD(ts, e)
    ensures RelD(ts, e) && NotD(ts, e) && AndD(ts, e) && OrD(ts, e)
  {
    assert RelD(ts, e);
    assert NotD(ts, e);
    assert AndD(ts, e);
  }

  // Slices of slices

  lemma Cut(ts: Tokens, p: nat, m: nat, q: nat)
    requires p <= m < q <= |ts|
    ensures ts[p..q][..m - p] == ts[p..m] && ts[p..q][m - p + 1..] == ts[m + 1..q] && ts[p..q][m - p] == ts[m]
  {
  }

  lemma Front(ts: Tokens, p: nat, m: nat, q: nat)
    requires p <= m <= q <= |ts|
    ensures ts[p..q][..m - p] == ts[p..m]
  {
  }

  lemma Inner(ts: Tokens, p: nat, q: nat)
    requires p + 2 <= q <= |ts|
    ensures ts[p..q][1..q - p - 1] == ts[p + 1..q - 1]
    ensures ts[p..q][0] == ts[p] && ts[p..q][q - p - 1] == ts[q - 1]
  {
    var a, b := ts[p..q][1..q - p - 1], ts[p + 1..q - 1];
    assert |a| == |b| && forall k | 0 <= k < |a| :: a[k] == ts[p..q][k + 1] == b[k];
  }

  // Soundness: what the parser consumed derives what it returned.

  lemma {:induction false} OrSound(ts: Tokens, p: nat)
    requires ParseOr(ts, p).Parsed?
    ensures var r := ParseOr(ts, p); OrD(ts[p..r.pos], r.value)
    decreases |ts| - p, 6
  {
    AndSound(ts, p);
    var left := ParseAnd(ts, p);
    OrLoopSound(ts, p, left.value, left.pos);
  }

  lemma {:induction false} OrLoopSound(ts: Tokens, s: nat, left: Expr, p: nat)
    requires s < p <= |ts| && OrD(ts[s..p], left) && OrLoop(ts, left, p).Parsed?
    ensures var r := OrLoop(ts, left, p); OrD(ts[s..r.pos], r.value)
    decreases |ts| - p, 0
  {
    if p < |ts| && ts[p] == TPunct(OrOr) {
      AndSound(ts, p + 1);
      var right := ParseAnd(ts, p + 1);
      var e := Bin(OrOr, left, right.value);
      var all := ts[s..right.pos];
      Cut(ts, s, p, right.pos);
      assert OrSplit(all, e, p - s);
      OrLoopSound(ts, s, e, right.pos);
    }
  }

  lemma {:induction false} AndSound(ts: Tokens, p: nat)
    requires ParseAnd(ts, p).Parsed?
    ensures var r := ParseAnd(ts, p); AndD(ts[p..r.pos], r.value)
    decreases |ts| - p, 5
  {
    NotSound(ts, p);
    var left := ParseNot(ts, p);
    AndLoopSound(ts, p, left.value, left.pos);
  }

  lemma {:induction false} AndLoopSound(ts: Tokens, s: nat, left: Expr, p: nat)
    requires s < p <= |ts| && AndD(ts[s..p], left) && AndLoop(ts, left, p).Parsed?
    ensures var r := AndLoop(ts, left, p); AndD(ts[s..r.pos], r.value)
    decreases |ts| - p, 0
  {
    if p < |ts| && ts[p] == TPunct(AndAnd) {
      NotSound(ts, p + 1);
      var right := ParseNot(ts, p + 1);
      var e := Bin(AndAnd, left, right.value);
      var all := ts[s..right.pos];
      Cut(ts, s, p, right.pos);
      assert AndSplit(all, e, p - s);
      AndLoopSound(ts, s, e, right.pos);
    }
  }

  lemma {:induction false} NotSound(ts: Tokens, p: nat)
    requires ParseNot(ts, p).Parsed?
    ensures var r := ParseNot(ts, p); NotD(ts[p..r.pos], r.value)
    decreases |ts| - p, 4
  {
    if ts[p] == TPunct(Bang) {
      NotSound(ts, p + 1);
      var r := ParseNot(ts, p);
      assert ts[p..r.pos][1..] == ts[p + 1..r.pos];
    } else {
      RelSound(ts, p);
    }
  }

  lemma {:induction false} RelSound(ts: Tokens, p: nat)
    requires ParseRel(ts, p).Parsed?
    ensures var r := ParseRel(ts, p); RelD(ts[p..r.pos], r.value)
    decreases |ts| - p, 3
  {
    PrimSound(ts, p);
    var left := ParsePrimary(ts, p);
    var op := ts[left.pos];
    if op.TPunct? && RelOp(op.p) {
      PrimSound(ts, left.pos + 1);
      var r := ParseRel(ts, p);
      var all, i := ts[p..r.pos], left.pos - p;
      Cut(ts, p, left.pos, r.pos);
      assert RelSplit(all, r.value, i);
    }
  }

  lemma {:induction false} PrimSound(ts: Tokens, p: nat)
    requires ParsePrimary(ts, p).Parsed?
    ensures var r := ParsePrimary(ts, p); PrimD(ts[p..r.pos], r.value)
    decreases |ts| - p, 2
  {
    var r := ParsePrimary(ts, p);
    var all := ts[p..r.pos];
    match ts[p] {
      case TPunct(x) =>
        if x == LParen {
          OrSound(ts, p + 1);
          Inner(ts, p, r.pos);
        } else {
          ListSound(ts, p + 1);
          Inner(ts, p, r.pos);
        }
      case TIdent(name) =>
        assert ts[p..p + 1] == [TIdent(name)];
        PathLoopSound(ts, p, [name], p + 1);
      case Eof => assert false;
      case _ =>
    }
  }

  lemma {:induction false} ListSound(ts: Tokens, p: nat)
    requires ParseList(ts, p).Parsed?
    ensures var r := ParseList(ts, p);
            && r.value.List? && ts[r.pos - 1] == TPunct(RBracket)
            && if r.value.items == [] then r.pos == p + 1 else ItemsD(ts[p..r.pos - 1], r.value.items)
    decreases |ts| - p, 7
  {
    if ts[p] != TPunct(RBracket) {
      OrSound(ts, p);
      var first := ParseOr(ts, p);
      ItemsLoopSound(ts, p, [first.value], first.pos);
    }
  }

  lemma {:induction false} ItemsLoopSound(ts: Tokens, s: nat, items: seq<Expr>, p: nat)
    requires s < p <= |ts| && items != [] && ItemsD(ts[s..p], items) && ItemsLoop(ts, items, p).Parsed?
    ensures var r := ItemsLoop(ts, items, p);
            && r.value.List? && r.value.items != [] && ts[r.pos - 1] == TPunct(RBracket)
            && ItemsD(ts[s..r.pos - 1], r.value.items)
    decreases |ts| - p, 0
  {
    if ts[p] == TPunct(Comma) {
      OrSound(ts, p + 1);
      var item := ParseOr(ts, p + 1);
      var more := items + [item.value];
      var all := ts[s..item.pos];
      Cut(ts, s, p, item.pos);
      assert more[..|more| - 1] == items;
      assert ItemsSplit(all, more, p - s);
      ItemsLoopSound(ts, s, more, item.pos);
    }
  }

  lemma {:induction false} PathLoopSound(ts: Tokens, s: nat, parts: seq<string>, p: nat)
    requires s < p <= |ts| && parts != [] && PathD(ts[s..p], parts) && PathLoop(ts, parts, p).Parsed?
    ensures var r := PathLoop(ts, parts, p); r.value.Path? && PathD(ts[s..r.pos], r.value.parts)
    decreases |ts| - p
  {
    if ts[p] == TPunct(Dot) {
      var more := parts + [ts[p + 1].name];
      var all := ts[s..p + 2];
      Front(ts, s, p, p + 2);
      assert more[..|more| - 1] == parts;
      assert PathD(all, more);
      PathLoopSound(ts, s, more, p + 2);
    }
  }

  // Completeness: the parser finds every derivation, when the next token cannot extend it.

  /** Tokens that end a primary, a relation, a conjunction. */
  predicate EndsPrim(t: Token) { t != TPunct(Dot) }

  predicate EndsRel(t: Token) { EndsPrim(t) && !(t.TPunct? && RelOp(t.p)) }

  predicate EndsAnd(t: Token) { EndsRel(t) && t != TPunct(AndAnd) }

  predicate EndsOr(t: Token) { EndsAnd(t) && t != TPunct(OrOr) }

  /** No derivation is empty, and none starts like a closing bracket. */
  predicate Starts(ts: Tokens) {
    |ts| > 0 && (ts[0].TPunct? ==> ts[0].p in {LParen, LBracket, Bang})
  }

  lemma {:induction false} PathStarts(ts: Tokens, parts: seq<string>)
    requires PathD(ts, parts)
    ensures |ts| > 0 && ts[0].TIdent?
    decreases |parts|
  {
    if |parts| > 1 { PathStarts(ts[..|ts| - 2], parts[..|parts| - 1]); }
  }

  lemma PrimStarts(ts: Tokens, e: Expr)
    requires PrimD(ts, e)
    ensures Starts(ts) && ts[0] != TPunct(Bang)
  {
    if e.Path? && PathD(ts, e.parts) { PathStarts(ts, e.parts); }
  }

  lemma RelStarts(ts: Tokens, e: Expr)
    requires RelD(ts, e)
    ensures Starts(ts) && ts[0] != TPunct(Bang)
  {
    if PrimD(ts, e) {
      PrimStarts(ts, e);
    } else {
      var i :| 0 <= i < |ts| && RelSplit(ts, e, i);
      PrimStarts(ts[..i], e.left);
    }
  }

  lemma {:induction false} AndStarts(ts: Tokens, e: Expr)
    requires AndD(ts, e)
    ensures Starts(ts)
    decreases |ts|
  {
    if NotD(ts, e) {
      if RelD(ts, e) { RelStarts(ts, e); }
    } else {
      var i :| 0 <= i < |ts| && AndSplit(ts, e, i);
      AndStarts(ts[..i], e.left);
    }
  }

  lemma {:induction false} OrStarts(ts: Tokens, e: Expr)
    requires OrD(ts, e)
    ensures Starts(ts)
    decreases |ts|
  {
    if AndD(ts, e) {
      AndStarts(ts, e);
    } else {
      var i :| 0 <= i < |ts| && OrSplit(ts, e, i);
      OrStarts(ts[..i], e.left);
    }
  }

  lemma {:induction false} ItemsStart(ts: Tokens, items: seq<Expr>)
    requires ItemsD(ts, items)
    ensures Starts(ts)
    decreases |ts|
  {
    if |items| == 1 {
      OrStarts(ts, items[0]);
    } else {
      var i :| 0 <= i < |ts| && ItemsSplit(ts, items, i);
      ItemsStart(ts[..i], items[..|items| - 1]);
    }
  }

  lemma {:induction false} OrComplete(ts: Tokens, p: nat, q: nat, e: Expr)
    requires p <= q < |ts| && OrD(ts[p..q], e) && EndsAnd(ts[q])
    ensures ParseOr(ts, p) == OrLoop(ts, e, q)
    decreases q - p, 5
  {
    var all := ts[p..q];
    if AndD(all, e) {
      AndFound(ts, p, q, e);
    } else {
      var i :| 0 <= i < |all| && OrSplit(all, e, i);
      Cut(ts, p, p + i, q);
      OrComplete(ts, p, p + i, e.left);
      AndFound(ts, p + i + 1, q, e.right);
    }
  }

  lemma OrFound(ts: Tokens, p: nat, q: nat, e: Expr)
    requires p <= q < |ts| && OrD(ts[p..q], e) && EndsOr(ts[q])
    ensures ParseOr(ts, p) == Parsed(e, q)
    decreases q - p, 6
  {
    OrComplete(ts, p, q, e);
  }

  lemma {:induction false} AndComplete(ts: Tokens, p: nat, q: nat, e: Expr)
    requires p <= q < |ts| && AndD(ts[p..q], e) && EndsRel(ts[q])
    ensures ParseAnd(ts, p) == AndLoop(ts, e, q)
    decreases q - p, 3
  {
    var all := ts[p..q];
    if NotD(all, e) {
      NotComplete(ts, p, q, e);
    } else {
      var i :| 0 <= i < |all| && AndSplit(all, e, i);
      Cut(ts, p, p + i, q);
      AndComplete(ts, p, p + i, e.left);
      NotComplete(ts, p + i + 1, q, e.right);
    }
  }

  lemma AndFound(ts: Tokens, p: nat, q: nat, e: Expr)
    requires p <= q < |ts| && AndD(ts[p..q], e) && EndsAnd(ts[q])
    ensures ParseAnd(ts, p) == Parsed(e, q)
    decreases q - p, 4
  {
    AndComplete(ts, p, q, e);
  }

  lemma {:induction false} NotComplete(ts: Tokens, p: nat, q: nat, e: Expr)
    requires p <= q < |ts| && NotD(ts[p..q], e) && EndsRel(ts[q])
    ensures ParseNot(ts, p) == Parsed(e, q)
    decreases q - p, 2
  {
    var all := ts[p..q];
    if RelD(all, e) {
      RelStarts(all, e);
      RelComplete(ts, p, q, e);
    } else {
      assert all[1..] == ts[p + 1..q];
      NotComplete(ts, p + 1, q, e.operand);
    }
  }

  lemma {:induction false} RelComplete(ts: Tokens, p: nat, q: nat, e: Expr)
    requires p <= q < |ts| && RelD(ts[p..q], e) && EndsRel(ts[q])
    ensures ParseRel(ts, p) == Parsed(e, q)
    decreases q - p, 1
  {
    var all := ts[p..q];
    if PrimD(all, e) {
      PrimComplete(ts, p, q, e);
    } else {
      var i :| 0 <= i < |all| && RelSplit(all, e, i);
      Cut(ts, p, p + i, q);
      PrimComplete(ts, p, p + i, e.left);
      PrimComplete(ts, p + i + 1, q, e.right);
    }
  }

  lemma {:induction false} PrimComplete(ts: Tokens, p: nat, q: nat, e: Expr)
    requires p <= q < |ts| && PrimD(ts[p..q], e) && EndsPrim(ts[q])
    ensures ParsePrimary(ts, p) == Parsed(e, q)
    decreases q - p, 0
  {
    var all := ts[p..q];
    PrimStarts(all, e);
    if e.Path? && PathD(all, e.parts) {
      PathStarts(all, e.parts);
      PathComplete(ts, p, q, e.parts);
    } else if |all| >= 2 && ts[p] == TPunct(LParen) {
      Inner(ts, p, q);
      OrFound(ts, p + 1, q - 1, e);
    } else if |all| >= 2 {
      Inner(ts, p, q);
      if e.items != [] {
        ItemsStart(ts[p + 1..q - 1], e.items);
        ItemsComplete(ts, p + 1, q - 1, e.items);
      }
    }
  }

  lemma {:induction false} ItemsComplete(ts: Tokens, p: nat, q: nat, items: seq<Expr>)
    requires p < q < |ts| && ts[p] != TPunct(RBracket) && ItemsD(ts[p..q], items) && EndsOr(ts[q])
    ensures ParseList(ts, p) == ItemsLoop(ts, items, q)
    decreases q - p, 7
  {
    var all := ts[p..q];
    if |items| == 1 {
      OrFound(ts, p, q, items[0]);
      assert items == [items[0]];
    } else {
      var i :| 0 <= i < |all| && ItemsSplit(all, items, i);
      var front := items[..|items| - 1];
      Cut(ts, p, p + i, q);
      ItemsStart(all[..i], front);
      ItemsComplete(ts, p, p + i, front);
      OrFound(ts, p + i + 1, q, items[|items| - 1]);
      assert front + [items[|items| - 1]] == items;
    }
  }

  lemma {:induction false} PathComplete(ts: Tokens, p: nat, q: nat, parts: seq<string>)
    requires p < q < |ts| && PathD(ts[p..q], parts)
    ensures ts[p].TIdent? && PathLoop(ts, [ts[p].name], p + 1) == PathLoop(ts, parts, q)
    decreases |parts|
  {
    var all := ts[p..q];
    if |parts| == 1 {
      assert parts == [parts[0]] && all == [TIdent(parts[0])];
      assert all[0] == ts[p];
    } else {
      var front := parts[..|parts| - 1];
      Front(ts, p, q - 2, q);
      PathStarts(all[..|all| - 2], front);
      PathComplete(ts, p, q - 2, front);
      assert all[|all| - 2] == ts[q - 2] && all[|all| - 1] == ts[q - 1];
      assert front + [ts[q - 1].name] == parts;
    }
  }

  // The theorem

  /** An eof-terminated token list parses to an expression exactly when the grammar derives it. */
  lemma ParsesIffDerives(ts: Tokens, e: Expr)
    requires Eof !in ts
    ensures ParseAll(ts + [Eof]) == Ok(e) <==> OrD(ts, e)
  {
    var all := ts + [Eof];
    if OrD(ts, e) {
      assert all[0..|ts|] == ts;
      OrFound(all, 0, |ts|, e);
    }
    if ParseAll(all) == Ok(e) {
      OrSound(all, 0);
      var r := ParseOr(all, 0);
      assert r.pos == |ts|;
      assert all[0..r.pos] == ts;
    }
  }

  /** So no token list has two readings. */
  lemma Unambiguous(ts: Tokens, e: Expr, f: Expr)
    requires Eof !in ts && OrD(ts, e) && OrD(ts, f)
    ensures e == f
  {
    ParsesIffDerives(ts, e);
    ParsesIffDerives(ts, f);
  }

  /** `!` binds looser than a relation: it negates the whole comparison. */
  lemma BangNegatesRelation(x: Tokens, a: Expr, op: Punct, y: Tokens, b: Expr)
    requires Eof !in x && Eof !in y && PrimD(x, a) && PrimD(y, b) && RelOp(op)
    ensures ParseAll([TPunct(Bang)] + (x + [TPunct(op)] + y) + [Eof]) == Ok(Not(Bin(op, a, b)))
  {
    var rel := x + [TPunct(op)] + y;
    assert rel[..|x|] == x && rel[|x| + 1..] == y;
    assert RelSplit(rel, Bin(op, a, b), |x|);
    var ts := [TPunct(Bang)] + rel;
    assert ts[1..] == rel;
    assert NotD(ts, Not(Bin(op, a, b)));
    assert AndD(ts, Not(Bin(op, a, b)));
    ParsesIffDerives(ts, Not(Bin(op, a, b)));
  }

  // Running past the end

  /** Past-end errors need a token list without its eof: they are unreachable otherwise. */
  predicate EndsInEof(ts: Tokens) {
    |ts| > 0 && ts[|ts| - 1] == Eof
  }

  /** From an index inside the list, no result is `PastEnd` and no success runs over the eof. */
  predicate Inside(ts: Tokens, r: Parse<Expr>) {
    if r.Parsed? then r.pos < |ts| else r.error != PastEnd
  }

  lemma {:induction false} OrInside(ts: Tokens, p: nat)
    requires EndsInEof(ts) && p < |ts|
    ensures Inside(ts, ParseOr(ts, p))
    decreases |ts| - p, 6
  {
    AndInside(ts, p);
    var left := ParseAnd(ts, p);
    if left.Parsed? { OrLoopInside(ts, left.value, left.pos); }
  }

  lemma {:induction false} OrLoopInside(ts: Tokens, left: Expr, p: nat)
    requires EndsInEof(ts) && p < |ts|
    ensures Inside(ts, OrLoop(ts, left, p))
    decreases |ts| - p, 0
  {
    if ts[p] == TPunct(OrOr) {
      AndInside(ts, p + 1);
      var right := ParseAnd(ts, p + 1);
      if right.Parsed? { OrLoopInside(ts, Bin(OrOr, left, right.value), right.pos); }
    }
  }

  lemma {:induction false} AndInside(ts: Tokens, p: nat)
    requires EndsInEof(ts) && p < |ts|
    ensures Inside(ts, ParseAnd(ts, p))
    decreases |ts| - p, 5
  {
    NotInside(ts, p);
    var left := ParseNot(ts, p);
    if left.Parsed? { AndLoopInside(ts, left.value, left.pos); }
  }

  lemma {:induction false} AndLoopInside(ts: Tokens, left: Expr, p: nat)
    requires EndsInEof(ts) && p < |ts|
    ensures Inside(ts, AndLoop(ts, left, p))
    decreases |ts| - p, 0
  {
    if ts[p] == TPunct(AndAnd) {
      NotInside(ts, p + 1);
      var right := ParseNot(ts, p + 1);
      if right.Parsed? { AndLoopInside(ts, Bin(AndAnd, left, right.value), right.pos); }
    }
  }

  lemma {:induction false} NotInside(ts: Tokens, p: nat)
    requires EndsInEof(ts) && p < |ts|
    ensures Inside(ts, ParseNot(ts, p))
    decreases |ts| - p, 4
  {
    if ts[p] == TPunct(Bang) { NotInside(ts, p + 1); } else { RelInside(ts, p); }
  }

  lemma {:induction false} RelInside(ts: Tokens, p: nat)
    requires EndsInEof(ts) && p < |ts|
    ensures Inside(ts, ParseRel(ts, p))
    decreases |ts| - p, 3
  {
    PrimaryInside(ts, p);
    var left := ParsePrimary(ts, p);
    if left.Parsed? {
      var op := ts[left.pos];
      if op.TPunct? && RelOp(op.p) { PrimaryInside(ts, left.pos + 1); }
    }
  }

  lemma {:induction false} PrimaryInside(ts: Tokens, p: nat)
    requires EndsInEof(ts) && p < |ts|
    ensures Inside(ts, ParsePrimary(ts, p))
    decreases |ts| - p, 2
  {
    if ts[p] == TPunct(LParen) {
      OrInside(ts, p + 1);
    } else if ts[p] == TPunct(LBracket) {
      if ts[p + 1] != TPunct(RBracket) {
        OrInside(ts, p + 1);
        var first := ParseOr(ts, p + 1);
        if first.Parsed? { ItemsInside(ts, [first.value], first.pos); }
      }
    } else if ts[p].TIdent? {
      PathInside(ts, [ts[p].name], p + 1);
    }
  }

  lemma {:induction false} ItemsInside(ts: Tokens, items: seq<Expr>, p: nat)
    requires EndsInEof(ts) && p < |ts|
    ensures Inside(ts, ItemsLoop(ts, items, p))
    decreases |ts| - p, 0
  {
    if ts[p] == TPunct(Comma) {
      OrInside(ts, p + 1);
      var item := ParseOr(ts, p + 1);
      if item.Parsed? { ItemsInside(ts, items + [item.value], item.pos); }
    }
  }

  lemma {:induction false} PathInside(ts: Tokens, parts: seq<string>, p: nat)
    requires EndsInEof(ts) && p < |ts|
    ensures Inside(ts, PathLoop(ts, parts, p))
    decreases |ts| - p
  {
    if ts[p] == TPunct(Dot) && ts[p + 1].TIdent? {
      PathInside(ts, parts + [ts[p + 1].name], p + 2);
    }
  }

  /** On every eof-terminated list the parser answers, and never by running past the end. */
  lemma NeverPastEnd(ts: Tokens)
    requires EndsInEof(ts)
    ensures ParseAll(ts) != Err(PastEnd)
  {
    OrInside(ts, 0);
  }
}

/** Raising rollout percents only ever widens a rollout. */
module Monotone {
  import opened JsonValues
  import opened Ir
  import opened Rollout
  import opened GoEval
  import opened Compile

  /** `q` is `p` with rollout percents moved: up where `up` holds, down otherwise, `not` flipping
      the direction. A tree whose rollouts all sit under an even number of `not` nodes and whose
      percents are raised is the special case in which no percent moves down. */
  ghost predicate Widened(up: bool, p: Predicate, q: Predicate)
    decreases p, 1
  {
    if p.Nil? || q.Nil? then p == q
    else
      && p.(percent := 0, of := [], ofOne := Nil) == q.(percent := 0, of := [], ofOne := Nil)
      && (p.kind == Rollout ==> if up then p.percent <= q.percent else q.percent <= p.percent)
      && (p.kind in {All, Any} ==> WidenedAll(up, p.of, q.of))
      && (p.kind == Not ==> Widened(!up, p.ofOne, q.ofOne))
  }

  ghost predicate WidenedAll(up: bool, ps: seq<Predicate>, qs: seq<Predicate>)
    decreases ps, 0
  {
    && |ps| == |qs|
    && (ps != [] ==> Widened(up, ps[0], qs[0]) && WidenedAll(up, ps[1..], qs[1..]))
  }

  /** Both evaluations clean: widening up keeps a match, widening down keeps a miss. */
  ghost predicate Kept(up: bool, a: Res, b: Res) {
    a.Clean() && b.Clean() ==> if up then a.ok ==> b.ok else b.ok ==> a.ok
  }

  lemma {:induction false} WidenedMatch(
    env: Env, up: bool, p: Predicate, q: Predicate, ctx: Ctx, programs: Programs)
    requires Widened(up, p, q)
    ensures Kept(up, Match(env, p, ctx, programs), Match(env, q, ctx, programs))
    decreases p, 1
  {
    if p.Node? && q.Node? {
      if p.kind in {All, Any} {
        WidenedLists(env, up, p.of, q.of, ctx, programs);
      } else if p.kind == Not {
        WidenedMatch(env, !up, p.ofOne, q.ofOne, ctx, programs);
      } else if p.kind == Rollout {
        assert p.attr == q.attr && p.salt == q.salt;
      } else {
        SameLeaf(env, p, q, ctx, programs);
      }
    }
  }

  lemma SameLeaf(env: Env, p: Predicate, q: Predicate, ctx: Ctx, programs: Programs)
    requires p.Node? && q.Node? && p.kind !in {All, Any, Not, Rollout}
    requires p.(percent := 0, of := [], ofOne := Nil) == q.(percent := 0, of := [], ofOne := Nil)
    ensures Match(env, p, ctx, programs) == Match(env, q, ctx, programs)
  {
    assert p.kind == q.kind && p.attr == q.attr && p.value == q.value && p.values == q.values;
    assert p.pattern == q.pattern && p.source == q.source;
  }

  lemma {:induction false} WidenedLists(
    env: Env, up: bool, ps: seq<Predicate>, qs: seq<Predicate>, ctx: Ctx, programs: Programs)
    requires WidenedAll(up, ps, qs)
    ensures Kept(up, MatchAll(env, ps, ctx, programs), MatchAll(env, qs, ctx, programs))
    ensures Kept(up, MatchAny(env, ps, ctx, programs), MatchAny(env, qs, ctx, programs))
    decreases ps, 0
  {
    if ps != [] {
      WidenedMatch(env, up, ps[0], qs[0], ctx, programs);
      WidenedLists(env, up, ps[1..], qs[1..], ctx, programs);
    }
  }

  /** The same rules and programs, with every predicate widened. */
  ghost predicate WidenedRules(c: Compiled, w: Compiled) {
    var rs, ws := c.ir.RuleSeq(), w.ir.RuleSeq();
    && c.celPrograms == w.celPrograms
    && |rs| == |ws|
    && forall i | 0 <= i < |rs| :: Widened(true, rs[i].when, ws[i].when)
  }

  /** Widening never moves the deciding rule later, as long as the narrower tree decides without
      an error. Nothing is asked of the wider tree. */
  lemma WinnerNeverLater(env: Env, c: Compiled, w: Compiled, ctx: Ctx)
    requires WidenedRules(c, w)
    requires var k := Decider(env, c, ctx, 0); k < |c.ir.RuleSeq()| ==> MatchRule(env, c, ctx, k).Clean()
    ensures Decider(env, w, ctx, 0) <= Decider(env, c, ctx, 0)
  {
    var k := Decider(env, c, ctx, 0);
    if k < |c.ir.RuleSeq()| {
      WidenedMatch(env, true, c.ir.RuleSeq()[k].when, w.ir.RuleSeq()[k].when, ctx, c.celPrograms);
      assert MatchRule(env, c, ctx, k).Fires();
      assert MatchRule(env, w, ctx, k) != Hit(false);
    }
  }

  function RolloutNode(attr: string, salt: string, percent: int): Predicate {
    Node(Rollout, attr, None, [], "", salt, percent, [], Nil, "", "")
  }

  /** `not(always)` */
  function Never(): Predicate {
    Branch(Not, [], Branch(Always, [], Nil))
  }

  function Gate(attr: string, salt: string, percent: int): Predicate {
    Branch(Any, [RolloutNode(attr, salt, percent), BadPrefix(attr)], Nil)
  }

  /** `all(any(rollout, starts_with(attr, 5)), not(always))` */
  function Guarded(attr: string, salt: string, percent: int): Predicate {
    Branch(All, [Gate(attr, salt, percent), Never()], Nil)
  }

  lemma GuardedWidens(attr: string, salt: string)
    ensures Widened(true, Guarded(attr, salt, 0), Guarded(attr, salt, 100))
  {
    var bad, never := BadPrefix(attr), Never();
    var p, q := Gate(attr, salt, 0), Gate(attr, salt, 100);
    assert p.of[1..] == [bad] == q.of[1..] && [bad][1..] == [] && WidenedAll(true, [], []);
    assert Widened(true, bad, bad) && WidenedAll(true, [bad], [bad]);
    assert WidenedAll(true, p.of, q.of) && Widened(true, p, q);
    assert [p, never][1..] == [never] == [q, never][1..] && [never][1..] == [];
    assert Widened(false, never.ofOne, never.ofOne) && Widened(true, never, never) && WidenedAll(true, [never], [never]);
    assert WidenedAll(true, [p, never], [q, never]);
  }

  lemma GuardedIsValid(env: Env, attr: string, salt: string, percent: int)
    requires attr != "" && salt != "" && 0 <= percent <= 100
    ensures ValidPredicate(env, Guarded(attr, salt, percent), false)
  {
    forall q | q in Gate(attr, salt, percent).of ensures ValidPredicate(env, q, false) { }
    assert ValidPredicate(env, Branch(Always, [], Nil), false);
    forall q | q in Guarded(attr, salt, percent).of ensures ValidPredicate(env, q, false) { }
  }

  lemma GateMatch(env: Env, attr: string, salt: string, percent: int, ctx: Ctx)
    requires LookupString(ctx, attr).Some? && percent in {0, 100}
    ensures Match(env, Gate(attr, salt, percent), ctx, map[]) == if percent == 0 then Fail(PrefixNotString) else Hit(true)
  {
    var roll, bad := RolloutNode(attr, salt, percent), BadPrefix(attr);
    assert Match(env, roll, ctx, map[]) == Hit(percent == 100);
    assert Match(env, bad, ctx, map[]) == Fail(PrefixNotString);
    assert [roll, bad][1..] == [bad] && MatchAny(env, [bad], ctx, map[]) == Fail(PrefixNotString);
  }

  lemma GuardedMatch(env: Env, attr: string, salt: string, percent: int, ctx: Ctx)
    requires LookupString(ctx, attr).Some? && percent in {0, 100}
    ensures Match(env, Guarded(attr, salt, percent), ctx, map[]) == if percent == 0 then Fail(PrefixNotString) else Hit(false)
  {
    var gate, never := Gate(attr, salt, percent), Never();
    GateMatch(env, attr, salt, percent, ctx);
    assert Match(env, never.ofOne, ctx, map[]) == Hit(true) && Match(env, never, ctx, map[]) == Hit(false);
    assert [gate, never][1..] == [never] && MatchAll(env, [never], ctx, map[]) == Hit(false);
    assert Match(env, Guarded(attr, salt, percent), ctx, map[]) == MatchAll(env, [gate, never], ctx, map[]);
  }

  /** The hypothesis is needed, on valid trees too: an error can hide behind a closed rollout, and opening
      the rollout then turns the deciding rule into one that does not match. */
  lemma ErrorMayHideWinner(env: Env, attr: string, salt: string, ctx: Ctx)
    requires attr != "" && salt != "" && LookupString(ctx, attr).Some?
    ensures var p, q := Guarded(attr, salt, 0), Guarded(attr, salt, 100);
            && ValidPredicate(env, p, false) && ValidPredicate(env, q, false)
            && Widened(true, p, q)
            && Match(env, p, ctx, map[]) != Hit(false)
            && Match(env, q, ctx, map[]) == Hit(false)
  {
    GuardedIsValid(env, attr, salt, 0);
    GuardedIsValid(env, attr, salt, 100);
    GuardedWidens(attr, salt);
    GuardedMatch(env, attr, salt, 0, ctx);
    GuardedMatch(env, attr, salt, 100, ctx);
  }
}

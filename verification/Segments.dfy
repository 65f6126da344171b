/** Segment inlining: what it produces, when it terminates, and that it keeps the meaning. */
module Segments {
  import opened JsonValues
  import opened Ir
  import Go = GoEval

  /** A project's stored segments that can be looked up and decoded, by key. */
  type Stored = map<string, Predicate>

  datatype Resolution<+T> = Done(value: T) | Unresolvable(key: string) | OutOfFuel
  {
    predicate IsFailure() { !Done? }

    function PropagateFailure<U>(): Resolution<U>
      requires !Done?
    {
      match this
      case Unresolvable(key) => Unresolvable(key)
      case OutOfFuel => OutOfFuel
    }

    function Extract(): T
      requires Done?
    {
      value
    }
  }

  /** Inlining, cut off after `fuel` nested expansions. The code has no cut-off: where every fuel runs
      out it recurses until its request context is cancelled or its stack overflows. */
  function Resolve(stored: Stored, fuel: nat, p: Predicate): Resolution<Predicate>
    decreases fuel, p, 1
  {
    if p.Nil? then Done(Nil)
    else if p.kind == Segment then
      if p.key !in stored || stored[p.key].Nil? then Unresolvable(p.key)
      else if fuel == 0 then OutOfFuel
      else Resolve(stored, fuel - 1, stored[p.key])
    else
      var of :- ResolveAll(stored, fuel, p.of);
      var ofOne :- Resolve(stored, fuel, p.ofOne);
      Done(p.(of := of, ofOne := ofOne))
  }

  function ResolveAll(stored: Stored, fuel: nat, ps: seq<Predicate>): Resolution<seq<Predicate>>
    decreases fuel, ps, 0
  {
    if ps == [] then Done([])
    else
      var first :- Resolve(stored, fuel, ps[0]);
      var rest :- ResolveAll(stored, fuel, ps[1..]);
      Done([first] + rest)
  }

  /** More fuel never changes an answer, so there is at most one. */
  lemma {:induction false} FuelMonotone(stored: Stored, fuel: nat, more: nat, p: Predicate)
    requires fuel <= more && !Resolve(stored, fuel, p).OutOfFuel?
    ensures Resolve(stored, more, p) == Resolve(stored, fuel, p)
    decreases fuel, p, 1
  {
    if p.Node? {
      if p.kind == Segment {
        if p.key in stored && !stored[p.key].Nil? {
          FuelMonotone(stored, fuel - 1, more - 1, stored[p.key]);
        }
      } else {
        FuelMonotoneAll(stored, fuel, more, p.of);
        if ResolveAll(stored, fuel, p.of).Done? { FuelMonotone(stored, fuel, more, p.ofOne); }
      }
    }
  }

  lemma {:induction false} FuelMonotoneAll(stored: Stored, fuel: nat, more: nat, ps: seq<Predicate>)
    requires fuel <= more && !ResolveAll(stored, fuel, ps).OutOfFuel?
    ensures ResolveAll(stored, more, ps) == ResolveAll(stored, fuel, ps)
    decreases fuel, ps, 0
  {
    if ps != [] {
      FuelMonotone(stored, fuel, more, ps[0]);
      if Resolve(stored, fuel, ps[0]).Done? { FuelMonotoneAll(stored, fuel, more, ps[1..]); }
    }
  }

  // Inlining leaves no reference

  lemma {:induction false} NoSegmentLeft(stored: Stored, fuel: nat, p: Predicate)
    requires Resolve(stored, fuel, p).Done?
    ensures SegmentFree(Resolve(stored, fuel, p).value)
    decreases fuel, p, 1
  {
    if p.Node? {
      if p.kind == Segment {
        NoSegmentLeft(stored, fuel - 1, stored[p.key]);
      } else {
        NoSegmentLeftAll(stored, fuel, p.of);
        NoSegmentLeft(stored, fuel, p.ofOne);
      }
    }
  }

  lemma {:induction false} NoSegmentLeftAll(stored: Stored, fuel: nat, ps: seq<Predicate>)
    requires ResolveAll(stored, fuel, ps).Done?
    ensures SegmentFreeAll(ResolveAll(stored, fuel, ps).value)
    decreases fuel, ps, 0
  {
    if ps != [] {
      NoSegmentLeft(stored, fuel, ps[0]);
      NoSegmentLeftAll(stored, fuel, ps[1..]);
      var rs := ResolveAll(stored, fuel, ps).value;
      assert rs[1..] == ResolveAll(stored, fuel, ps[1..]).value;
    }
  }

  // Inlining keeps the meaning

  /** `match` on trees with references, a reference meaning its stored predicate. Written without
      inlining: only the composite kinds and references recurse. */
  function MatchRefs(
    env: Env, stored: Stored, fuel: nat, p: Predicate, ctx: Ctx, programs: Go.Programs): Go.Res
    decreases fuel, p, 1
  {
    if p.Nil? then Go.Hit(false)
    else match p.kind
      case Segment =>
        if fuel == 0 || p.key !in stored then Go.Fail(Go.UnknownKind)
        else MatchRefs(env, stored, fuel - 1, stored[p.key], ctx, programs)
      case All => MatchRefsAll(env, stored, fuel, p.of, ctx, programs)
      case Any => MatchRefsAny(env, stored, fuel, p.of, ctx, programs)
      case Not =>
        var r := MatchRefs(env, stored, fuel, p.ofOne, ctx, programs);
        Go.Res(!r.ok, r.err)
      case _ => Go.Match(env, p, ctx, programs)
  }

  function MatchRefsAll(
    env: Env, stored: Stored, fuel: nat, ps: seq<Predicate>, ctx: Ctx, programs: Go.Programs): Go.Res
    decreases fuel, ps, 0
  {
    if ps == [] then Go.Hit(true)
    else
      var r := MatchRefs(env, stored, fuel, ps[0], ctx, programs);
      if r.err.Some? then Go.Res(false, r.err)
      else if !r.ok then Go.Hit(false)
      else MatchRefsAll(env, stored, fuel, ps[1..], ctx, programs)
  }

  function MatchRefsAny(
    env: Env, stored: Stored, fuel: nat, ps: seq<Predicate>, ctx: Ctx, programs: Go.Programs): Go.Res
    decreases fuel, ps, 0
  {
    if ps == [] then Go.Hit(false)
    else
      var r := MatchRefs(env, stored, fuel, ps[0], ctx, programs);
      if r.err.Some? then Go.Res(false, r.err)
      else if r.ok then Go.Hit(true)
      else MatchRefsAny(env, stored, fuel, ps[1..], ctx, programs)
  }

  /** Rewriting children that a leaf kind does not read leaves its match alone. */
  lemma LeafIgnoresChildren(env: Env, p: Predicate, of: seq<Predicate>, ofOne: Predicate, ctx: Ctx, programs: Go.Programs)
    requires p.Node? && p.kind !in {All, Any, Not}
    ensures Go.Match(env, p.(of := of, ofOne := ofOne), ctx, programs) == Go.Match(env, p, ctx, programs)
  {
  }

  /** The inlined predicate matches exactly when the original does, errors included. */
  lemma {:induction false} ResolvePreservesMatch(
    env: Env, stored: Stored, fuel: nat, p: Predicate, ctx: Ctx, programs: Go.Programs)
    requires Resolve(stored, fuel, p).Done?
    ensures Go.Match(env, Resolve(stored, fuel, p).value, ctx, programs)
         == MatchRefs(env, stored, fuel, p, ctx, programs)
    decreases fuel, p, 1
  {
    if p.Node? {
      if p.kind == Segment {
        ResolvePreservesMatch(env, stored, fuel - 1, stored[p.key], ctx, programs);
      } else {
        var q := Resolve(stored, fuel, p).value;
        if p.kind in {All, Any} {
          ResolvePreservesList(env, stored, fuel, p.of, ctx, programs);
        } else if p.kind == Not {
          ResolvePreservesMatch(env, stored, fuel, p.ofOne, ctx, programs);
        } else {
          LeafIgnoresChildren(env, p, q.of, q.ofOne, ctx, programs);
        }
      }
    }
  }

  lemma {:induction false} ResolvePreservesList(
    env: Env, stored: Stored, fuel: nat, ps: seq<Predicate>, ctx: Ctx, programs: Go.Programs)
    requires ResolveAll(stored, fuel, ps).Done?
    ensures var qs := ResolveAll(stored, fuel, ps).value;
            && Go.MatchAll(env, qs, ctx, programs) == MatchRefsAll(env, stored, fuel, ps, ctx, programs)
            && Go.MatchAny(env, qs, ctx, programs) == MatchRefsAny(env, stored, fuel, ps, ctx, programs)
    decreases fuel, ps, 0
  {
    if ps != [] {
      ResolvePreservesMatch(env, stored, fuel, ps[0], ctx, programs);
      ResolvePreservesList(env, stored, fuel, ps[1..], ctx, programs);
      var qs := ResolveAll(stored, fuel, ps).value;
      assert qs[1..] == ResolveAll(stored, fuel, ps[1..]).value;
    }
  }

  /** `q` matches everywhere as `p` does, a reference in `p` meaning its stored predicate. */
  ghost predicate SameMeaning(stored: Stored, fuel: nat, p: Predicate, q: Predicate) {
    forall env: Env, ctx: Ctx, programs: Go.Programs ::
      Go.Match(env, q, ctx, programs) == MatchRefs(env, stored, fuel, p, ctx, programs)
  }

  /** The meaning of a reference does not depend on the cut-off, once it is high enough. */
  lemma MeaningIsStable(stored: Stored, fuel: nat, more: nat, p: Predicate)
    requires fuel <= more && Resolve(stored, fuel, p).Done?
    ensures forall env: Env, ctx: Ctx, programs: Go.Programs ::
              MatchRefs(env, stored, more, p, ctx, programs) == MatchRefs(env, stored, fuel, p, ctx, programs)
  {
    FuelMonotone(stored, fuel, more, p);
    forall env: Env, ctx: Ctx, programs: Go.Programs
      ensures MatchRefs(env, stored, more, p, ctx, programs) == MatchRefs(env, stored, fuel, p, ctx, programs)
    {
      ResolvePreservesMatch(env, stored, fuel, p, ctx, programs);
      ResolvePreservesMatch(env, stored, more, p, ctx, programs);
    }
  }

  /** Inlining a list, element by element: no reference is left and every meaning is kept. */
  lemma {:induction false} ListInlined(stored: Stored, fuel: nat, ps: seq<Predicate>)
    requires ResolveAll(stored, fuel, ps).Done?
    ensures var qs := ResolveAll(stored, fuel, ps).value;
            && |qs| == |ps|
            && forall i | 0 <= i < |ps| :: SegmentFree(qs[i]) && SameMeaning(stored, fuel, ps[i], qs[i])
  {
    if ps != [] {
      ListInlined(stored, fuel, ps[1..]);
      NoSegmentLeft(stored, fuel, ps[0]);
      forall env: Env, ctx: Ctx, programs: Go.Programs
        ensures Go.Match(env, Resolve(stored, fuel, ps[0]).value, ctx, programs)
             == MatchRefs(env, stored, fuel, ps[0], ctx, programs)
      {
        ResolvePreservesMatch(env, stored, fuel, ps[0], ctx, programs);
      }
      assert SameMeaning(stored, fuel, ps[0], Resolve(stored, fuel, ps[0]).value);
    }
  }

  // When inlining succeeds

  /** The keys that inlining `p` looks up: references anywhere, in children of any kind. */
  function References(p: Predicate): set<string>
    decreases p, 1
  {
    if p.Nil? then {}
    else if p.kind == Segment then {p.key}
    else ReferencesAll(p.of) + References(p.ofOne)
  }

  function ReferencesAll(ps: seq<Predicate>): set<string>
    decreases ps, 0
  {
    if ps == [] then {} else References(ps[0]) + ReferencesAll(ps[1..])
  }

  predicate Closed(stored: Stored) {
    forall k | k in stored :: stored[k].Node? && References(stored[k]) <= stored.Keys
  }

  /** `rank` witnesses that stored segments reference each other acyclically. */
  ghost predicate Ranks(stored: Stored, rank: map<string, nat>) {
    && rank.Keys == stored.Keys
    && forall k, r | k in stored && r in References(stored[k]) && r in stored :: rank[r] < rank[k]
  }

  ghost predicate Acyclic(stored: Stored) {
    exists rank :: Ranks(stored, rank)
  }

  ghost predicate RanksBelow(stored: Stored, rank: map<string, nat>, keys: set<string>, fuel: nat) {
    forall r | r in keys :: r in stored && r in rank && rank[r] < fuel
  }

  /** One stored segment, its references ranked below it. */
  ghost predicate KeyRanked(stored: Stored, rank: map<string, nat>, k: string) {
    k in stored && k in rank && stored[k].Node? && RanksBelow(stored, rank, References(stored[k]), rank[k])
  }

  /** The ranked keys are stored and closed under references, which always go down in rank. */
  ghost predicate AllRanked(stored: Stored, rank: map<string, nat>) {
    forall k {:trigger KeyRanked(stored, rank, k)} | k in rank :: KeyRanked(stored, rank, k)
  }

  /** The references lead into stored keys that are closed under references and free of cycles. */
  ghost predicate Grounded(stored: Stored, refs: set<string>) {
    exists rank :: AllRanked(stored, rank) && refs <= rank.Keys
  }

  lemma RanksAreRanked(stored: Stored, rank: map<string, nat>)
    requires Closed(stored) && Ranks(stored, rank)
    ensures AllRanked(stored, rank)
  {
  }

  lemma {:induction false} RankedResolves(stored: Stored, rank: map<string, nat>, p: Predicate, fuel: nat)
    requires AllRanked(stored, rank) && RanksBelow(stored, rank, References(p), fuel)
    ensures Resolve(stored, fuel, p).Done?
    decreases fuel, p, 1
  {
    if p.Node? {
      if p.kind == Segment {
        assert p.key in References(p);
        assert KeyRanked(stored, rank, p.key);
        RankedResolves(stored, rank, stored[p.key], fuel - 1);
      } else {
        RankedResolvesAll(stored, rank, p.of, fuel);
        RankedResolves(stored, rank, p.ofOne, fuel);
      }
    }
  }

  lemma {:induction false} RankedResolvesAll(stored: Stored, rank: map<string, nat>, ps: seq<Predicate>, fuel: nat)
    requires AllRanked(stored, rank) && RanksBelow(stored, rank, ReferencesAll(ps), fuel)
    ensures ResolveAll(stored, fuel, ps).Done?
    decreases fuel, ps, 0
  {
    if ps != [] {
      RankedResolves(stored, rank, ps[0], fuel);
      RankedResolvesAll(stored, rank, ps[1..], fuel);
    }
  }

  /** A successful inlining expanded every reference with the same fuel. */
  lemma {:induction false} DoneReaches(stored: Stored, fuel: nat, p: Predicate, r: string)
    requires Resolve(stored, fuel, p).Done? && r in References(p)
    ensures Resolve(stored, fuel, Ref(r)).Done?
    decreases p, 1
  {
    if p.kind != Segment {
      if r in References(p.ofOne) { DoneReaches(stored, fuel, p.ofOne, r); }
      else { DoneReachesAll(stored, fuel, p.of, r); }
    }
  }

  lemma {:induction false} DoneReachesAll(stored: Stored, fuel: nat, ps: seq<Predicate>, r: string)
    requires ResolveAll(stored, fuel, ps).Done? && r in ReferencesAll(ps)
    ensures Resolve(stored, fuel, Ref(r)).Done?
    decreases ps, 0
  {
    if r in References(ps[0]) { DoneReaches(stored, fuel, ps[0], r); }
    else { DoneReachesAll(stored, fuel, ps[1..], r); }
  }

  ghost predicate Resolves(stored: Stored, p: Predicate) {
    exists fuel: nat :: Resolve(stored, fuel, p).Done?
  }

  function LeastFuel(stored: Stored, key: string, fuel: nat): (least: nat)
    requires Resolve(stored, fuel, Ref(key)).Done?
    ensures Resolve(stored, least, Ref(key)).Done?
    ensures forall f: nat | f < least :: !Resolve(stored, f, Ref(key)).Done?
    decreases fuel
  {
    if fuel > 0 && Resolve(stored, fuel - 1, Ref(key)).Done? then LeastFuel(stored, key, fuel - 1)
    else
      assert forall f: nat | f < fuel :: !Resolve(stored, f, Ref(key)).Done? by {
        forall f: nat | f < fuel ensures !Resolve(stored, f, Ref(key)).Done? {
          if Resolve(stored, f, Ref(key)).Done? { FuelMonotone(stored, f, fuel - 1, Ref(key)); }
        }
      }
      fuel
  }

  ghost function FuelOf(stored: Stored, key: string): nat
    requires Resolves(stored, Ref(key))
  {
    var fuel: nat :| Resolve(stored, fuel, Ref(key)).Done?;
    LeastFuel(stored, key, fuel)
  }

  /** The keys that inline to an answer, ranked by how many nested expansions that takes. */
  lemma ResolvableRanked(stored: Stored) returns (rank: map<string, nat>)
    ensures AllRanked(stored, rank)
    ensures forall k :: k in rank <==> k in stored && Resolves(stored, Ref(k))
  {
    rank := map k | k in stored && Resolves(stored, Ref(k)) :: FuelOf(stored, k);
    forall k | k in rank ensures KeyRanked(stored, rank, k) {
      var fuel := rank[k];
      assert Resolve(stored, fuel, Ref(k)).Done?;
      forall r | r in References(stored[k]) ensures r in stored && r in rank && rank[r] < fuel {
        DoneReaches(stored, fuel - 1, stored[k], r);
        assert Resolve(stored, fuel - 1, Ref(r)).Done?;
      }
    }
  }

  lemma {:induction false} RankBound(rank: map<string, nat>, keys: set<string>) returns (bound: nat)
    requires keys <= rank.Keys
    ensures forall k | k in keys :: rank[k] < bound
  {
    bound := 0;
    if keys != {} {
      var k :| k in keys;
      var rest := RankBound(rank, keys - {k});
      bound := if rank[k] < rest then rest else rank[k] + 1;
    }
  }

  ghost predicate AllResolve(stored: Stored, ps: seq<Predicate>) {
    exists fuel: nat :: ResolveAll(stored, fuel, ps).Done?
  }

  /** A tree inlines to an answer exactly when its references lead into stored segments without a cycle;
      what other segments hold does not matter. */
  lemma ListResolvesIff(stored: Stored, ps: seq<Predicate>)
    ensures AllResolve(stored, ps) <==> Grounded(stored, ReferencesAll(ps))
  {
    if AllResolve(stored, ps) {
      var fuel: nat :| ResolveAll(stored, fuel, ps).Done?;
      var rank := ResolvableRanked(stored);
      forall r | r in ReferencesAll(ps) ensures r in rank {
        DoneReachesAll(stored, fuel, ps, r);
        assert Resolve(stored, fuel, Ref(r)).Done?;
      }
    }
    if Grounded(stored, ReferencesAll(ps)) {
      var rank :| AllRanked(stored, rank) && ReferencesAll(ps) <= rank.Keys;
      var bound := RankBound(rank, rank.Keys);
      forall r | r in ReferencesAll(ps) ensures r in stored { assert KeyRanked(stored, rank, r); }
      RankedResolvesAll(stored, rank, ps, bound);
    }
  }

  lemma ResolvesIff(stored: Stored, p: Predicate)
    ensures Resolves(stored, p) <==> Grounded(stored, References(p))
  {
    assert [p][1..] == [];
    assert ReferencesAll([p]) == References(p) + ReferencesAll([]);
    assert ReferencesAll([p]) == References(p);
    forall fuel: nat ensures ResolveAll(stored, fuel, [p]).Done? <==> Resolve(stored, fuel, p).Done? {
      assert ResolveAll(stored, fuel, []) == Done([]);
    }
    ListResolvesIff(stored, [p]);
  }

  /** Every stored segment inlines to an answer exactly when references stay inside the stored
      segments and form no cycle. */
  lemma AllResolveIff(stored: Stored)
    ensures (forall k | k in stored :: Resolves(stored, Ref(k))) <==> Closed(stored) && Acyclic(stored)
  {
    if forall k | k in stored :: Resolves(stored, Ref(k)) {
      var rank := ResolvableRanked(stored);
      assert rank.Keys == stored.Keys;
      forall k | k in stored ensures KeyRanked(stored, rank, k) { }
      assert Ranks(stored, rank);
    }
    if Closed(stored) && Acyclic(stored) {
      var rank :| Ranks(stored, rank);
      RanksAreRanked(stored, rank);
      forall k | k in stored ensures Resolves(stored, Ref(k)) {
        RankedResolves(stored, rank, Ref(k), rank[k] + 1);
      }
    }
  }

  // When inlining ends

  /** References between stored segments go down in rank, from every ranked one. */
  ghost predicate RanksFrom(stored: Stored, rank: map<string, nat>) {
    forall k, r | k in rank && k in stored && r in References(stored[k]) && r in stored ::
      r in rank && rank[r] < rank[k]
  }

  /** No cycle can be reached from the references; they may lead to keys that are not stored. */
  ghost predicate AcyclicFrom(stored: Stored, refs: set<string>) {
    exists rank :: RanksFrom(stored, rank) && refs * stored.Keys <= rank.Keys
  }

  lemma AcyclicFromAnywhere(stored: Stored, refs: set<string>)
    requires Acyclic(stored)
    ensures AcyclicFrom(stored, refs)
  {
    var rank :| Ranks(stored, rank);
    assert RanksFrom(stored, rank);
  }

  /** The stored keys that rank below `r`. */
  function RankedBelow(stored: Stored, rank: map<string, nat>, r: nat): set<string> {
    set k | k in stored && k in rank && rank[k] < r
  }

  /** The stored keys among `keys` rank below `r`; keys that are not stored do not matter. */
  ghost predicate StoredBelow(stored: Stored, rank: map<string, nat>, keys: set<string>, r: nat) {
    forall k | k in keys && k in stored :: k in rank && rank[k] < r
  }

  lemma FewerBelow(stored: Stored, rank: map<string, nat>, key: string, r: nat)
    requires key in stored && key in rank && rank[key] < r
    ensures |RankedBelow(stored, rank, rank[key])| < |RankedBelow(stored, rank, r)|
  {
    var less, more := RankedBelow(stored, rank, rank[key]), RankedBelow(stored, rank, r);
    assert key in more - less && less <= more - {key};
    SubsetSize(less, more - {key});
  }

  lemma {:induction false} SubsetSize(a: set<string>, b: set<string>)
    requires a <= b
    ensures |a| <= |b|
  {
    if a != {} {
      var x :| x in a;
      SubsetSize(a - {x}, b - {x});
    }
  }

  /** Nested expansions strictly descend in rank, so there are at most as many as keys below. */
  lemma {:induction false} RankedEnds(stored: Stored, rank: map<string, nat>, p: Predicate, r: nat, fuel: nat)
    requires RanksFrom(stored, rank) && StoredBelow(stored, rank, References(p), r)
    requires |RankedBelow(stored, rank, r)| <= fuel
    ensures !Resolve(stored, fuel, p).OutOfFuel?
    decreases fuel, p, 1
  {
    if p.Node? {
      if p.kind == Segment {
        if p.key in stored && !stored[p.key].Nil? {
          assert p.key in References(p);
          FewerBelow(stored, rank, p.key, r);
          RankedEnds(stored, rank, stored[p.key], rank[p.key], fuel - 1);
        }
      } else {
        RankedEndsAll(stored, rank, p.of, r, fuel);
        RankedEnds(stored, rank, p.ofOne, r, fuel);
      }
    }
  }

  lemma {:induction false} RankedEndsAll(stored: Stored, rank: map<string, nat>, ps: seq<Predicate>, r: nat, fuel: nat)
    requires RanksFrom(stored, rank) && StoredBelow(stored, rank, ReferencesAll(ps), r)
    requires |RankedBelow(stored, rank, r)| <= fuel
    ensures !ResolveAll(stored, fuel, ps).OutOfFuel?
    decreases fuel, ps, 0
  {
    if ps != [] {
      RankedEnds(stored, rank, ps[0], r, fuel);
      RankedEndsAll(stored, rank, ps[1..], r, fuel);
    }
  }

  /** Where no cycle can be reached, inlining ends, in an answer or at a key that is not stored, after at
      most as many nested expansions as there are stored segments. */
  lemma AcyclicEnds(stored: Stored, ps: seq<Predicate>)
    requires AcyclicFrom(stored, ReferencesAll(ps))
    ensures !ResolveAll(stored, |stored|, ps).OutOfFuel?
  {
    var rank :| RanksFrom(stored, rank) && ReferencesAll(ps) * stored.Keys <= rank.Keys;
    var bound := RankBound(rank, rank.Keys);
    forall k | k in ReferencesAll(ps) && k in stored ensures k in rank {
      assert k in ReferencesAll(ps) * stored.Keys;
    }
    assert RankedBelow(stored, rank, bound) <= stored.Keys;
    SubsetSize(RankedBelow(stored, rank, bound), stored.Keys);
    RankedEndsAll(stored, rank, ps, bound, |stored|);
  }

  /** And then it ends in an answer exactly if the references are grounded. */
  lemma AcyclicAnswersIff(stored: Stored, ps: seq<Predicate>)
    requires AcyclicFrom(stored, ReferencesAll(ps))
    ensures ResolveAll(stored, |stored|, ps).Done? <==> Grounded(stored, ReferencesAll(ps))
  {
    AcyclicEnds(stored, ps);
    ListResolvesIff(stored, ps);
    if AllResolve(stored, ps) {
      var fuel: nat :| ResolveAll(stored, fuel, ps).Done?;
      if fuel <= |stored| { FuelMonotoneAll(stored, fuel, |stored|, ps); }
      else { FuelMonotoneAll(stored, |stored|, fuel, ps); }
    }
  }

  /** `not` over a reference to the segment being defined. */
  function NotSelf(key: string): Predicate {
    Branch(Not, [], Ref(key))
  }

  /** Inlining a segment defined as `NotSelf` of its own key never ends. */
  lemma {:induction false} SelfReferenceLoops(key: string, fuel: nat)
    ensures Resolve(map[key := NotSelf(key)], fuel, Ref(key)).OutOfFuel?
  {
    if fuel > 0 {
      SelfReferenceLoops(key, fuel - 1);
      var stored := map[key := NotSelf(key)];
      assert ResolveAll(stored, fuel - 1, NotSelf(key).of) == Done([]);
      assert Resolve(stored, fuel - 1, NotSelf(key)).OutOfFuel?;
    }
  }
}

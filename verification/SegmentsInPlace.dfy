/** `ResolveSegments` on pointers: the tree is rewritten in place, segment bodies are decoded
    into fresh nodes, and the result is the inlining of `Segments`. */
module SegmentsInPlace {
  import opened JsonValues
  import opened Ir
  import opened Segments

  /** A heap predicate node. `own` holds the scalar fields; its children fields stay empty. */
  class Cell {
    var own: Predicate
    var of: seq<Cell?>
    var ofOne: Cell?
    ghost var Repr: set<object>

    ghost predicate Valid()
      reads this, Repr
      ensures Valid() ==> this in Repr
      decreases Repr, 0
    {
      && this in Repr
      && own.Node? && own.of == [] && own.ofOne == Nil
      && Forest(of + [ofOne], Repr - {this})
    }

    constructor (own: Predicate, of: seq<Cell?>, ofOne: Cell?, ghost region: set<object>, ghost vs: seq<Predicate>)
      requires own.Node? && own.of == [] && own.ofOne == Nil
      requires Forest(of + [ofOne], region) && vs == ValuesOf(of + [ofOne], region)
      ensures Valid() && Repr == region + {this}
      ensures ValueOf(this) == own.(of := vs[..|of|], ofOne := vs[|of|])
    {
      this.own := own;
      this.of := of;
      this.ofOne := ofOne;
      Repr := region + {this};
      new;
      assert Repr - {this} == region;
    }
  }

  /** Pairwise disjoint valid trees inside `region`; null entries are allowed. */
  ghost predicate Forest(kids: seq<Cell?>, region: set<object>)
    reads region
    decreases region, 1
  {
    && (forall i | 0 <= i < |kids| && kids[i] != null ::
          kids[i] in region && kids[i].Repr <= region && kids[i].Valid())
    && (forall i, j | 0 <= i < j < |kids| && kids[i] != null && kids[j] != null :: kids[i].Repr !! kids[j].Repr)
  }

  ghost function ReprOf(c: Cell?): set<object>
    reads c
  {
    if c == null then {} else c.Repr
  }

  ghost predicate ValidOrNull(c: Cell?)
    reads c, ReprOf(c)
  {
    c != null ==> c.Valid()
  }

  /** The predicate tree a pointer denotes. */
  ghost function ValueOf(c: Cell?): Predicate
    requires ValidOrNull(c)
    reads c, ReprOf(c)
    decreases ReprOf(c), 0
  {
    if c == null then Nil
    else
      var vs := ValuesOf(c.of + [c.ofOne], c.Repr - {c});
      c.own.(of := vs[..|c.of|], ofOne := vs[|c.of|])
  }

  ghost function ValuesOf(kids: seq<Cell?>, region: set<object>): (vs: seq<Predicate>)
    requires Forest(kids, region)
    reads region
    ensures |vs| == |kids|
    decreases region, 1, |kids|
  {
    if kids == [] then [] else [ValueOf(kids[0])] + ValuesOf(kids[1..], region)
  }

  lemma {:induction false} ValuesAt(kids: seq<Cell?>, region: set<object>)
    requires Forest(kids, region)
    ensures forall i | 0 <= i < |kids| :: ValuesOf(kids, region)[i] == ValueOf(kids[i])
    decreases |kids|
  {
    if kids != [] { ValuesAt(kids[1..], region); }
  }

  lemma ForestSnoc(kids: seq<Cell?>, region: set<object>, kid: Cell?)
    requires Forest(kids, region) && ValidOrNull(kid) && ReprOf(kid) !! region
    ensures Forest(kids + [kid], region + ReprOf(kid))
    ensures ValuesOf(kids + [kid], region + ReprOf(kid)) == ValuesOf(kids, region) + [ValueOf(kid)]
  {
    ValuesAt(kids, region);
    ValuesAt(kids + [kid], region + ReprOf(kid));
  }

  /** `json.Unmarshal` into fresh nodes. */
  method Decode(p: Predicate) returns (c: Cell?)
    ensures ValidOrNull(c) && fresh(ReprOf(c))
    ensures ValueOf(c) == p
    decreases p, 1
  {
    if p.Nil? {
      return null;
    }
    ghost var region;
    var of;
    of, region := DecodeEach(p.of);
    var ofOne := Decode(p.ofOne);
    ForestSnoc(of, region, ofOne);
    c := new Cell(p.(of := [], ofOne := Nil), of, ofOne, region + ReprOf(ofOne), p.of + [p.ofOne]);
  }

  method DecodeEach(ps: seq<Predicate>) returns (of: seq<Cell?>, ghost region: set<object>)
    ensures Forest(of, region) && fresh(region)
    ensures ValuesOf(of, region) == ps
    decreases ps, 0
  {
    of, region := [], {};
    for i := 0 to |ps|
      invariant Forest(of, region) && fresh(region)
      invariant ValuesOf(of, region) == ps[..i]
    {
      var kid := Decode(ps[i]);
      ForestSnoc(of, region, kid);
      of, region := of + [kid], region + ReprOf(kid);
    }
  }

  // Inlining a list, element by element

  /** With the first `i` elements resolved to `done`, the next one decides how the list goes on. */
  lemma {:induction false} ListStep(stored: Stored, fuel: nat, ps: seq<Predicate>, i: nat, done: seq<Predicate>)
    requires i < |ps| && ResolveAll(stored, fuel, ps[..i]) == Done(done)
    ensures |done| == i
    ensures !Resolve(stored, fuel, ps[i]).Done? ==> !ResolveAll(stored, fuel, ps).Done?
    ensures Resolve(stored, fuel, ps[i]).Done? ==>
              ResolveAll(stored, fuel, ps[..i + 1]) == Done(done + [Resolve(stored, fuel, ps[i]).value])
    decreases i
  {
    if i > 0 {
      assert ps[..i][1..] == ps[1..][..i - 1] && ps[..i + 1][1..] == ps[1..][..i];
      var rest := ResolveAll(stored, fuel, ps[1..][..i - 1]).value;
      assert done == [done[0]] + rest;
      ListStep(stored, fuel, ps[1..], i - 1, rest);
      if Resolve(stored, fuel, ps[i]).Done? {
        var v := Resolve(stored, fuel, ps[i]).value;
        assert [done[0]] + (rest + [v]) == done + [v];
      }
    } else {
      assert ps[..0] == [] && ps[..1] == [ps[0]] && ps[..1][1..] == [];
      if Resolve(stored, fuel, ps[0]).Done? {
        var v := Resolve(stored, fuel, ps[0]).value;
        assert done == [] && [v] + [] == done + [v];
      }
    }
  }

  /** Rewrites the tree under `c` and returns the pointer that replaces it. The cut-off after `fuel` nested
      expansions is not in the code; where references are acyclic it is never met. */
  method ResolveOne(stored: Stored, c: Cell?, fuel: nat, ghost p: Predicate) returns (ok: bool, r: Cell?)
    requires ValidOrNull(c) && p == ValueOf(c)
    modifies ReprOf(c)
    ensures ok <==> Resolve(stored, fuel, p).Done?
    ensures ok ==> ValidOrNull(r) && fresh(ReprOf(r) - old(ReprOf(c)))
    ensures ok ==> ValueOf(r) == Resolve(stored, fuel, p).value
    decreases fuel, p, 1
  {
    if c == null {
      return true, null;
    }
    if c.own.kind == Segment {
      if c.own.key !in stored || stored[c.own.key].Nil? {
        return false, null;
      }
      if fuel == 0 {
        return false, null;
      }
      var seg := Decode(stored[c.own.key]);
      ok, r := ResolveOne(stored, seg, fuel - 1, stored[c.own.key]);
      return;
    }
    ok := ResolveChildren(stored, c, fuel, p);
    r := c;
  }

  lemma Advance<T>(done: seq<T>, ps: seq<T>, last: T, i: nat, v: T)
    requires |done| == i < |ps|
    ensures (done + ps[i..] + [last])[i] == ps[i]
    ensures (done + ps[i..] + [last])[i := v] == (done + [v]) + ps[i + 1..] + [last]
  {
  }

  lemma ReplaceChild<T>(of: seq<T>, one: T, i: nat, r: T)
    requires i < |of|
    ensures (of + [one])[i := r] == of[i := r] + [one]
  {
  }

  lemma CellValue(c: Cell, vs: seq<Predicate>)
    requires c.Valid() && vs == ValuesOf(c.of + [c.ofOne], c.Repr - {c})
    ensures ValueOf(c) == c.own.(of := vs[..|c.of|], ofOne := vs[|c.of|])
  {
  }

  method ResolveChildren(stored: Stored, c: Cell, fuel: nat, ghost p: Predicate) returns (ok: bool)
    requires c.Valid() && p == ValueOf(c) && p.kind != Segment
    modifies c.Repr
    ensures ok <==> Resolve(stored, fuel, p).Done?
    ensures ok ==> c.Valid() && fresh(c.Repr - old(c.Repr))
    ensures ok ==> ValueOf(c) == Resolve(stored, fuel, p).value
    decreases fuel, p, 0
  {
    ghost var region;
    ok, region := ResolveOf(stored, c, fuel, p);
    if !ok {
      return;
    }
    ghost var vs := ResolveAll(stored, fuel, p.of).value + [p.ofOne];
    ok := ResolveOfOne(stored, c, region, vs, fuel);
  }

  method ResolveOfOne(stored: Stored, c: Cell, ghost region: set<object>, ghost vs: seq<Predicate>, fuel: nat)
    returns (ok: bool)
    requires c !in region && Forest(c.of + [c.ofOne], region) && vs == ValuesOf(c.of + [c.ofOne], region)
    requires c.own.Node? && c.own.of == [] && c.own.ofOne == Nil
    modifies c, region
    ensures ok <==> Resolve(stored, fuel, vs[|vs| - 1]).Done?
    ensures ok ==> c.Valid() && fresh(c.Repr - region - {c})
    ensures ok ==> ValueOf(c) == old(c.own).(of := vs[..|vs| - 1], ofOne := Resolve(stored, fuel, vs[|vs| - 1]).value)
    decreases fuel, vs[|vs| - 1], 3
  {
    var of, kids, n := c.of, c.of + [c.ofOne], |c.of|;
    assert c !in ReprOf(kids[n]);
    var r;
    ghost var region';
    ok, r, region' := ResolveKid(stored, kids, n, region, vs, fuel);
    assert c.of == of;
    if ok {
      assert kids[n := r] == of + [r];
      Attach(c, r, region', vs[n := Resolve(stored, fuel, vs[n]).value]);
    }
  }

  /** `p.OfOne = resolved`, after which the node is whole again. */
  method Attach(c: Cell, r: Cell?, ghost region: set<object>, ghost vs: seq<Predicate>)
    requires c !in region && Forest(c.of + [r], region) && vs == ValuesOf(c.of + [r], region)
    requires c.own.Node? && c.own.of == [] && c.own.ofOne == Nil
    modifies c
    ensures c.Valid() && c.Repr == region + {c}
    ensures ValueOf(c) == old(c.own).(of := vs[..|vs| - 1], ofOne := vs[|vs| - 1])
  {
    c.ofOne := r;
    c.Repr := region + {c};
    assert c.Repr - {c} == region;
    CellValue(c, vs);
  }

  /** The loop over `of`. Until the caller restores it, `c.Repr` is stale and `region` is current. */
  method ResolveOf(stored: Stored, c: Cell, fuel: nat, ghost p: Predicate)
    returns (ok: bool, ghost region: set<object>)
    requires c.Valid() && p == ValueOf(c) && p.kind != Segment
    modifies c.Repr
    ensures ok <==> ResolveAll(stored, fuel, p.of).Done?
    ensures ok ==> c.own == old(c.own) && |c.of| == old(|c.of|) == |p.of| && c !in region && fresh(region - old(c.Repr))
    ensures ok ==> Forest(c.of + [c.ofOne], region)
    ensures ok ==> ValuesOf(c.of + [c.ofOne], region) == ResolveAll(stored, fuel, p.of).value + [p.ofOne]
    decreases fuel, p, 0, 0
  {
    var n := |c.of|;
    region := c.Repr - {c};
    ghost var done: seq<Predicate> := [];
    CellKids(c);
    for i := 0 to n
      invariant c.own == old(c.own) && |c.of| == n && c !in region && fresh(region - old(c.Repr))
      invariant Forest(c.of + [c.ofOne], region)
      invariant ValuesOf(c.of + [c.ofOne], region) == done + p.of[i..] + [p.ofOne]
      invariant ResolveAll(stored, fuel, p.of[..i]) == Done(done)
    {
      ok, region, done := ResolveOfTurn(stored, c, i, region, done, fuel, p);
      if !ok {
        return;
      }
    }
    assert p.of[..n] == p.of && done + p.of[n..] == done;
    ok := true;
  }

  lemma CellKids(c: Cell)
    requires c.Valid()
    ensures ValuesOf(c.of + [c.ofOne], c.Repr - {c}) == [] + ValueOf(c).of[0..] + [ValueOf(c).ofOne]
    ensures |ValueOf(c).of| == |c.of| && ValueOf(c).of[..0] == []
  {
  }

  /** One turn of the loop. */
  method ResolveOfTurn(
    stored: Stored, c: Cell, i: nat, ghost region: set<object>, ghost done: seq<Predicate>, fuel: nat,
    ghost p: Predicate)
    returns (ok: bool, ghost region': set<object>, ghost done': seq<Predicate>)
    requires p.Node? && i < |c.of| == |p.of| && c !in region && Forest(c.of + [c.ofOne], region)
    requires ValuesOf(c.of + [c.ofOne], region) == done + p.of[i..] + [p.ofOne]
    requires ResolveAll(stored, fuel, p.of[..i]) == Done(done)
    modifies c, region
    ensures c.own == old(c.own) && |c.of| == old(|c.of|) && c !in region' && fresh(region' - region)
    ensures !ok ==> !ResolveAll(stored, fuel, p.of).Done?
    ensures ok ==> Forest(c.of + [c.ofOne], region')
    ensures ok ==> ValuesOf(c.of + [c.ofOne], region') == done' + p.of[i + 1..] + [p.ofOne]
    ensures ok ==> ResolveAll(stored, fuel, p.of[..i + 1]) == Done(done')
    decreases fuel, p, 0, 0, 0
  {
    ListStep(stored, fuel, p.of, i, done);
    ghost var v := if Resolve(stored, fuel, p.of[i]).Done? then Resolve(stored, fuel, p.of[i]).value else Nil;
    Advance(done, p.of, p.ofOne, i, v);
    done' := done + [v];
    ok, region' := ResolveOfAt(stored, c, i, region, done + p.of[i..] + [p.ofOne], fuel);
  }

  /** `p.Of[i] = resolved`. */
  method ResolveOfAt(
    stored: Stored, c: Cell, i: nat, ghost region: set<object>, ghost vs: seq<Predicate>, fuel: nat)
    returns (ok: bool, ghost region': set<object>)
    requires i < |c.of| && c !in region && Forest(c.of + [c.ofOne], region)
    requires vs == ValuesOf(c.of + [c.ofOne], region)
    modifies c, region
    ensures c.own == old(c.own) && |c.of| == old(|c.of|) && c !in region' && fresh(region' - region)
    ensures ok <==> Resolve(stored, fuel, vs[i]).Done?
    ensures ok ==> Forest(c.of + [c.ofOne], region')
    ensures ok ==> ValuesOf(c.of + [c.ofOne], region') == vs[i := Resolve(stored, fuel, vs[i]).value]
    decreases fuel, vs[i], 3
  {
    var of, kids := c.of, c.of + [c.ofOne];
    assert c !in ReprOf(kids[i]);
    var r;
    ok, r, region' := ResolveKid(stored, kids, i, region, vs, fuel);
    assert c.of == of && c.of + [c.ofOne] == kids;
    if ok {
      ReplaceChild(of, c.ofOne, i, r);
      c.of := of[i := r];
    }
  }

  lemma ForestTake(kids: seq<Cell?>, region: set<object>, i: nat)
    requires i < |kids| && Forest(kids, region)
    ensures Forest(kids[i := null], region - ReprOf(kids[i]))
    ensures ValuesOf(kids[i := null], region - ReprOf(kids[i])) == ValuesOf(kids, region)[i := Nil]
  {
    ValuesAt(kids, region);
    ValuesAt(kids[i := null], region - ReprOf(kids[i]));
  }

  lemma ForestFill(kids: seq<Cell?>, region: set<object>, i: nat, r: Cell?)
    requires i < |kids| && Forest(kids, region) && kids[i] == null
    requires ValidOrNull(r) && ReprOf(r) !! region
    ensures Forest(kids[i := r], region + ReprOf(r))
    ensures ValuesOf(kids[i := r], region + ReprOf(r)) == ValuesOf(kids, region)[i := ValueOf(r)]
  {
    ValuesAt(kids, region);
    ValuesAt(kids[i := r], region + ReprOf(r));
  }

  /** One child is resolved; its siblings are untouched. */
  method ResolveKid(
    stored: Stored, kids: seq<Cell?>, i: nat, ghost region: set<object>, ghost vs: seq<Predicate>, fuel: nat)
    returns (ok: bool, r: Cell?, ghost region': set<object>)
    requires i < |kids| && Forest(kids, region) && vs == ValuesOf(kids, region)
    modifies ReprOf(kids[i])
    ensures fresh(region' - region)
    ensures ok <==> Resolve(stored, fuel, vs[i]).Done?
    ensures ok ==> Forest(kids[i := r], region')
    ensures ok ==> ValuesOf(kids[i := r], region') == vs[i := Resolve(stored, fuel, vs[i]).value]
    decreases fuel, vs[i], 2
  {
    ghost var rest := region - ReprOf(kids[i]);
    ValuesAt(kids, region);
    ForestTake(kids, region, i);
    ok, r := ResolveOne(stored, kids[i], fuel, vs[i]);
    region' := rest;
    if ok {
      region' := rest + ReprOf(r);
      ForestFill(kids[i := null], rest, i, r);
      assert kids[i := null][i := r] == kids[i := r];
    }
  }

  // The whole tree

  /** One element of the rules slice. */
  datatype HeapRule = HeapRule(id: string, when: Cell?, value: Option<Json>)

  function Whens(rules: seq<HeapRule>): seq<Cell?> {
    seq(|rules|, i requires 0 <= i < |rules| => rules[i].when)
  }

  /** `tree.Rules[i].When = resolved`, rule by rule. `vs` are the predicates before the call. */
  method ResolveSegments(
    stored: Stored, rules: array<HeapRule>, ghost region: set<object>, ghost vs: seq<Predicate>, fuel: nat)
    returns (ok: bool, ghost region': set<object>)
    requires rules !in region && Forest(Whens(rules[..]), region) && vs == ValuesOf(Whens(rules[..]), region)
    modifies rules, region
    ensures ok <==> ResolveAll(stored, fuel, vs).Done?
    ensures forall i | 0 <= i < rules.Length :: rules[i].id == old(rules[i].id) && rules[i].value == old(rules[i].value)
    ensures ok ==> fresh(region' - region) && Forest(Whens(rules[..]), region')
    ensures ok ==> ValuesOf(Whens(rules[..]), region') == ResolveAll(stored, fuel, vs).value
  {
    region' := region;
    ghost var done: seq<Predicate> := [];
    for i := 0 to rules.Length
      invariant rules !in region' && fresh(region' - region)
      invariant forall j | 0 <= j < rules.Length :: rules[j].id == old(rules[j].id) && rules[j].value == old(rules[j].value)
      invariant Forest(Whens(rules[..]), region')
      invariant ValuesOf(Whens(rules[..]), region') == done + vs[i..]
      invariant ResolveAll(stored, fuel, vs[..i]) == Done(done)
    {
      ListStep(stored, fuel, vs, i, done);
      ghost var v := if Resolve(stored, fuel, vs[i]).Done? then Resolve(stored, fuel, vs[i]).value else Nil;
      AdvanceRule(done, vs, i, v);
      ok, region' := ResolveRuleAt(stored, rules, i, region', done + vs[i..], fuel);
      if !ok {
        return;
      }
      done := done + [v];
    }
    assert vs[..rules.Length] == vs;
    ok := true;
  }

  /** When the tree's references reach no cycle, inlining it ends. It succeeds exactly if they are
      grounded in stored segments, and then no rule holds a reference, in any position, and every rule
      matches as before on every context. */
  method ResolveAcyclic(stored: Stored, rules: array<HeapRule>, ghost region: set<object>, ghost vs: seq<Predicate>)
    returns (ok: bool, ghost region': set<object>)
    requires rules !in region && Forest(Whens(rules[..]), region) && vs == ValuesOf(Whens(rules[..]), region)
    requires AcyclicFrom(stored, ReferencesAll(vs))
    modifies rules, region
    ensures forall i | 0 <= i < rules.Length :: rules[i].id == old(rules[i].id) && rules[i].value == old(rules[i].value)
    ensures ok <==> Grounded(stored, ReferencesAll(vs))
    ensures !ok ==> ResolveAll(stored, |stored|, vs).Unresolvable?
    ensures ok ==> fresh(region' - region) && Forest(Whens(rules[..]), region')
    ensures ok ==> forall i | 0 <= i < |vs| ::
              && SegmentFree(ValuesOf(Whens(rules[..]), region')[i])
              && SameMeaning(stored, |stored|, vs[i], ValuesOf(Whens(rules[..]), region')[i])
  {
    AcyclicEnds(stored, vs);
    AcyclicAnswersIff(stored, vs);
    ok, region' := ResolveSegments(stored, rules, region, vs, |stored|);
    if ok { ListInlined(stored, |stored|, vs); }
  }

  lemma AdvanceRule<T>(done: seq<T>, ps: seq<T>, i: nat, v: T)
    requires |done| == i < |ps|
    ensures (done + ps[i..])[i] == ps[i] && (done + ps[i..])[i := v] == (done + [v]) + ps[i + 1..]
  {
  }

  method ResolveRuleAt(
    stored: Stored, rules: array<HeapRule>, i: nat, ghost region: set<object>, ghost vs: seq<Predicate>, fuel: nat)
    returns (ok: bool, ghost region': set<object>)
    requires i < rules.Length && rules !in region && Forest(Whens(rules[..]), region)
    requires vs == ValuesOf(Whens(rules[..]), region)
    modifies rules, region
    ensures rules !in region' && fresh(region' - region)
    ensures ok <==> Resolve(stored, fuel, vs[i]).Done?
    ensures forall j | 0 <= j < rules.Length :: rules[j].id == old(rules[j].id) && rules[j].value == old(rules[j].value)
    ensures ok ==> Forest(Whens(rules[..]), region')
    ensures ok ==> ValuesOf(Whens(rules[..]), region') == vs[i := Resolve(stored, fuel, vs[i]).value]
  {
    var kids := Whens(rules[..]);
    assert rules !in ReprOf(kids[i]);
    var r;
    ok, r, region' := ResolveKid(stored, kids, i, region, vs, fuel);
    assert Whens(rules[..]) == kids;
    if ok {
      rules[i] := rules[i].(when := r);
      assert Whens(rules[..]) == kids[i := r];
    }
  }
}

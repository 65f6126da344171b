/** The persisted JSON shape of the rules tree: omitempty marshalling and Go unmarshalling.
    Documents are JSON objects by member; how a member is written as text is not modelled. */
module Codec {
  import opened JsonValues
  import opened Ir

  datatype DecodeError = WrongJsonKind

  /** A predicate document. `Malformed` stands for any document with a member of the wrong kind;
      an omitted `of` is the empty list and an omitted `of_one` is `NullDoc`. */
  datatype PredicateDoc =
    | NullDoc
    | Malformed
    | ObjectDoc(
        kind: Option<Kind>, attr: Option<string>, value: Option<Json>, values: Option<seq<Json>>,
        pattern: Option<string>, salt: Option<string>, percent: Option<int>,
        of: seq<PredicateDoc>, ofOne: PredicateDoc, source: Option<string>, key: Option<string>)

  datatype RuleDoc = RuleDoc(id: Option<string>, when: PredicateDoc, value: Option<Json>)

  /** `rules` is `None` when the member is absent or `null`. */
  datatype TreeDoc =
    | MalformedTree
    | TreeDoc(valueType: Option<ValueType>, default: Option<Json>, rules: Option<seq<RuleDoc>>)

  // Marshalling

  function OmitText(s: string): Option<string> {
    if s == "" then None else Some(s)
  }

  function EncodePredicate(p: Predicate): PredicateDoc
    decreases p, 1
  {
    if p.Nil? then NullDoc
    else ObjectDoc(
      Some(p.kind), OmitText(p.attr), p.value, if p.values == [] then None else Some(p.values),
      OmitText(p.pattern), OmitText(p.salt), if p.percent == 0 then None else Some(p.percent),
      EncodeAll(p.of), EncodePredicate(p.ofOne),
      OmitText(p.source), OmitText(p.key))
  }

  function EncodeAll(ps: seq<Predicate>): (ds: seq<PredicateDoc>)
    ensures |ds| == |ps|
    decreases ps, 0
  {
    if ps == [] then [] else [EncodePredicate(ps[0])] + EncodeAll(ps[1..])
  }

  /** A nil raw message without omitempty marshals as `null`. */
  function RawOrNull(raw: Option<Json>): Option<Json> {
    if raw.Some? then raw else Some(Null)
  }

  function EncodeRules(rules: seq<Rule>): seq<RuleDoc> {
    if rules == [] then []
    else [RuleDoc(Some(rules[0].id), EncodePredicate(rules[0].when), RawOrNull(rules[0].value))]
         + EncodeRules(rules[1..])
  }

  /** A nil rules slice marshals as `null`, an empty one as `[]`. */
  function EncodeTree(t: RulesTree): TreeDoc {
    TreeDoc(Some(t.valueType), RawOrNull(t.default),
            if t.rules.None? then None else Some(EncodeRules(t.rules.value)))
  }

  // Unmarshalling: an absent member keeps the zero value.

  function Text(s: Option<string>): string {
    if s.Some? then s.value else ""
  }

  function DecodePredicate(d: PredicateDoc): Result<Predicate, DecodeError>
    decreases d, 1
  {
    match d
    case NullDoc => Ok(Nil)
    case Malformed => Err(WrongJsonKind)
    case ObjectDoc(kind, attr, value, values, pattern, salt, percent, of, ofOne, source, key) =>
      var children :- DecodeAll(of);
      var child :- DecodePredicate(ofOne);
      Ok(Node(
        if kind.Some? then kind.value else Unknown(""), Text(attr), value,
        if values.Some? then values.value else [], Text(pattern), Text(salt),
        if percent.Some? then percent.value else 0, children, child, Text(source), Text(key)))
  }

  function DecodeAll(ds: seq<PredicateDoc>): Result<seq<Predicate>, DecodeError>
    decreases ds, 0
  {
    if ds == [] then Ok([])
    else
      var first :- DecodePredicate(ds[0]);
      var rest :- DecodeAll(ds[1..]);
      Ok([first] + rest)
  }

  function DecodeRules(ds: seq<RuleDoc>): Result<seq<Rule>, DecodeError> {
    if ds == [] then Ok([])
    else
      var when :- DecodePredicate(ds[0].when);
      var rest :- DecodeRules(ds[1..]);
      Ok([Rule(Text(ds[0].id), when, ds[0].value)] + rest)
  }

  function DecodeTree(d: TreeDoc): Result<RulesTree, DecodeError> {
    match d
    case MalformedTree => Err(WrongJsonKind)
    case TreeDoc(valueType, default, rules) =>
      var rs :- if rules.None? then Ok(None) else var rs :- DecodeRules(rules.value); Ok(Some(rs));
      Ok(RulesTree(if valueType.Some? then valueType.value else TOther(""), default, rs))
  }

  // Round trip

  lemma {:induction false} PredicateRoundTrip(p: Predicate)
    ensures DecodePredicate(EncodePredicate(p)) == Ok(p)
    decreases p, 1
  {
    if p.Node? {
      AllRoundTrip(p.of);
      PredicateRoundTrip(p.ofOne);
    }
  }

  lemma {:induction false} AllRoundTrip(ps: seq<Predicate>)
    ensures DecodeAll(EncodeAll(ps)) == Ok(ps)
    decreases ps, 0
  {
    if ps != [] {
      PredicateRoundTrip(ps[0]);
      AllRoundTrip(ps[1..]);
      assert [ps[0]] + ps[1..] == ps;
      assert EncodeAll(ps)[1..] == EncodeAll(ps[1..]);
    }
  }

  lemma {:induction false} RulesRoundTrip(rules: seq<Rule>)
    requires forall r | r in rules :: r.value.Some?
    ensures DecodeRules(EncodeRules(rules)) == Ok(rules)
  {
    if rules != [] {
      PredicateRoundTrip(rules[0].when);
      RulesRoundTrip(rules[1..]);
      assert [rules[0]] + rules[1..] == rules;
      assert EncodeRules(rules)[1..] == EncodeRules(rules[1..]);
    }
  }

  /** Marshalling then unmarshalling returns the same tree exactly when no raw value is missing:
      a missing one is persisted as `null` and comes back present. */
  lemma TreeRoundTripIff(t: RulesTree)
    ensures DecodeTree(EncodeTree(t)) == Ok(t)
            <==> t.default.Some? && forall r | r in t.RuleSeq() :: r.value.Some?
  {
    DecodedValues(t.RuleSeq());
    if forall r | r in t.RuleSeq() :: r.value.Some? {
      RulesRoundTrip(t.RuleSeq());
    }
  }

  /** Marshalled rules always decode, and every decoded rule has a value. */
  lemma {:induction false} DecodedValues(rules: seq<Rule>)
    ensures DecodeRules(EncodeRules(rules)).Ok?
    ensures forall r | r in DecodeRules(EncodeRules(rules)).value :: r.value.Some?
  {
    if rules != [] {
      PredicateRoundTrip(rules[0].when);
      DecodedValues(rules[1..]);
      assert EncodeRules(rules)[1..] == EncodeRules(rules[1..]);
    }
  }
}

/** The normalised rules tree that every configuration strategy compiles to. */
module Ir {
  import opened JsonValues

  datatype ValueType = TBoolean | TString | TNumber | TObject | TOther(name: string)

  datatype Kind =
    | Eq | Neq | In | Gt | Gte | Lt | Lte | Matches | StartsWith | Rollout
    | All | Any | Not | Cel | Always | Segment | Unknown(name: string)

  /** A predicate pointer: `Nil`, or a flat node in which each kind reads its own subset of
      the fields. An absent raw JSON `value` is `None`; a literal `null` is `Some(Null)`. */
  datatype Predicate =
    | Nil
    | Node(
        kind: Kind, attr: string, value: Option<Json>, values: seq<Json>, pattern: string,
        salt: string, percent: int, of: seq<Predicate>, ofOne: Predicate, source: string,
        key: string)

  /** A node with nothing but children. */
  function Branch(kind: Kind, of: seq<Predicate>, ofOne: Predicate): Predicate {
    Node(kind, "", None, [], "", "", 0, of, ofOne, "", "")
  }

  function Ref(key: string): Predicate {
    Node(Segment, "", None, [], "", "", 0, [], Nil, "", key)
  }

  /** `starts_with(attr, 5)`, which validation accepts and every string attribute fails. */
  function BadPrefix(attr: string): Predicate {
    Node(StartsWith, attr, Some(Num(5.0)), [], "", "", 0, [], Nil, "", "")
  }

  datatype Rule = Rule(id: string, when: Predicate, value: Option<Json>)

  /** `rules` is `None` for a nil slice, which marshals as `null` rather than `[]`. */
  datatype RulesTree = RulesTree(valueType: ValueType, default: Option<Json>, rules: Option<seq<Rule>>)
  {
    function RuleSeq(): seq<Rule> {
      if rules.Some? then rules.value else []
    }
  }

  function WhensOf(rules: seq<Rule>): seq<Predicate> {
    if rules == [] then [] else [rules[0].when] + WhensOf(rules[1..])
  }

  datatype Strategy = StrategyJson | StrategyCel | StrategyTypeScript

  /** A compiled CEL program, identified by its source text. */
  datatype CelProgram = CelProgram(source: string)

  datatype Compiled = Compiled(strategy: Strategy, ir: RulesTree, celPrograms: map<string, CelProgram>)

  /** The engines the evaluators call but do not define. `celRun` yields `None` on a runtime
      error; the regular-expression compilers yield `None` on a malformed pattern. */
  datatype Env = Env(
    celCompiles: string -> bool,
    celRun: (CelProgram, Ctx) -> Option<bool>,
    goRegex: string -> Option<string -> bool>,
    jsRegex: string -> Option<string -> bool>)

  datatype Reason = ByDefault | RuleMatched | RolloutInBucket | TypeMismatch | ByError

  /** `ruleId` is empty when no rule decided. */
  datatype Decision = Decision(value: Json, reason: Reason, ruleId: string, version: int)

  /** No segment reference anywhere in the node, whatever its kind. */
  predicate SegmentFree(p: Predicate)
    decreases p, 1
  {
    p.Nil? || (p.kind != Segment && SegmentFreeAll(p.of) && SegmentFree(p.ofOne))
  }

  predicate SegmentFreeAll(ps: seq<Predicate>)
    decreases ps, 0
  {
    ps == [] || (SegmentFree(ps[0]) && SegmentFreeAll(ps[1..]))
  }
}

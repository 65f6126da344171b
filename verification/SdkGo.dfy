/** The Go SDK: a polled snapshot cache and local evaluation. */
module SdkGo {
  import opened JsonValues
  import opened Ir
  import opened Codec
  import opened Compile
  import opened GoEval

  type Flags = map<string, Compiled>

  datatype Snapshot = Snapshot(id: string, version: int, flags: Flags)

  /** What one poll of `/snapshots/latest` can come back with. */
  datatype Response =
    | TransportError
    | NotFound
    | BadStatus(code: int)
    | Undecodable
    | Body(id: string, version: int, flags: map<string, TreeDoc>)

  /** The flags the SDK can compile; the others are logged and left out. */
  function Loaded(env: Env, docs: map<string, TreeDoc>): Flags {
    map k | k in docs && CompileSource(env, StrategyCel, Document(docs[k])).Ok? ::
      CompileSource(env, StrategyCel, Document(docs[k])).value
  }

  /** The cache after one poll: only a decodable body replaces it, and then whole. */
  function AfterPoll(env: Env, snap: Option<Snapshot>, r: Response): Option<Snapshot> {
    if r.Body? then Some(Snapshot(r.id, r.version, Loaded(env, r.flags))) else snap
  }

  function SdkDecision(env: Env, snap: Option<Snapshot>, key: string, ctx: Ctx): Decision {
    if snap.None? then Decision(Null, ByError, "", 0)
    else if key !in snap.value.flags then Decision(Null, ByDefault, "", snap.value.version)
    else Evaluated(env, snap.value.flags[key], ctx, snap.value.version)
  }

  class Client {
    var snap: Option<Snapshot>

    constructor ()
      ensures snap == None
    {
      snap := None;
    }

    method PollOnce(env: Env, r: Response) returns (ok: bool)
      modifies this
      ensures snap == AfterPoll(env, old(snap), r)
      ensures ok <==> r.Body? || r.NotFound?
    {
      match r {
        case NotFound => return true;
        case Body(id, version, docs) =>
          var flags := LoadFlags(env, docs);
          snap := Some(Snapshot(id, version, flags));
          return true;
        case _ => return false;
      }
    }

    method Evaluate(env: Env, key: string, ctx: Ctx) returns (d: Decision)
      ensures d == SdkDecision(env, snap, key, ctx)
    {
      if snap.None? {
        return Decision(Null, ByError, "", 0);
      }
      if key !in snap.value.flags {
        return Decision(Null, ByDefault, "", snap.value.version);
      }
      d := GoEval.Evaluate(env, snap.value.flags[key], ctx, snap.value.version);
    }
  }

  /** The loop over the bundle, in whatever order the map yields its keys. */
  method LoadFlags(env: Env, docs: map<string, TreeDoc>) returns (flags: Flags)
    ensures flags == Loaded(env, docs)
  {
    flags := map[];
    var todo := docs.Keys;
    while todo != {}
      invariant todo <= docs.Keys
      invariant flags == map k | k in Loaded(env, docs) && k !in todo :: Loaded(env, docs)[k]
      decreases todo
    {
      var key :| key in todo;
      todo := todo - {key};
      var compiled := CompileSource(env, StrategyCel, Document(docs[key]));
      if compiled.Ok? {
        flags := flags[key := compiled.value];
      }
    }
  }

  // Whole runs

  function AfterPolls(env: Env, snap: Option<Snapshot>, rs: seq<Response>): Option<Snapshot> {
    if rs == [] then snap else AfterPoll(env, AfterPolls(env, snap, rs[..|rs| - 1]), rs[|rs| - 1])
  }

  /** The position of the last decodable body. */
  function LastBody(rs: seq<Response>): (k: Option<nat>)
    ensures k.Some? ==> k.value < |rs| && rs[k.value].Body? && forall j | k.value < j < |rs| :: !rs[j].Body?
    ensures k.None? ==> forall j | 0 <= j < |rs| :: !rs[j].Body?
  {
    var n := |rs|;
    if n == 0 then None
    else if rs[n - 1].Body? then Some(n - 1)
    else LastBody(rs[..n - 1])
  }

  /** After any run of polls the cache is the last decodable body, or what it was before the run if
      there was none: a 404, a failed request or a bad body never loses or mixes a snapshot. */
  lemma {:induction false} CacheIsLastBody(env: Env, snap: Option<Snapshot>, rs: seq<Response>)
    ensures var k := LastBody(rs);
            AfterPolls(env, snap, rs)
            == if k.None? then snap
               else Some(Snapshot(rs[k.value].id, rs[k.value].version, Loaded(env, rs[k.value].flags)))
  {
    if rs != [] { CacheIsLastBody(env, snap, rs[..|rs| - 1]); }
  }

  /** The server's answer for one stored version: it recompiles under the version's own strategy. */
  function ServerDecision(env: Env, s: Strategy, persisted: TreeDoc, ctx: Ctx, version: int): Option<Decision> {
    var c := CompileSource(env, s, Document(persisted));
    if c.Ok? then Some(Evaluated(env, c.value, ctx, version)) else None
  }

  lemma EvaluatedIgnoresStrategy(env: Env, c: Compiled, s: Strategy, ctx: Ctx, v: int, v': int)
    ensures Evaluated(env, c.(strategy := s), ctx, v') == Evaluated(env, c, ctx, v).(version := v')
  {
    var e := c.(strategy := s);
    forall i | 0 <= i < |c.ir.RuleSeq()| ensures MatchRule(env, e, ctx, i) == MatchRule(env, c, ctx, i) { }
    DeciderUnique(env, e, ctx, Decider(env, c, ctx, 0));
  }
}

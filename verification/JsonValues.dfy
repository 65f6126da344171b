/** JSON values as both runtimes see them after decoding, and dotted attribute paths. */
module JsonValues {

  datatype Option<+T> = None | Some(value: T)

  datatype Result<+T, +E> = Ok(value: T) | Err(error: E)
  {
    predicate IsFailure() { Err? }

    function PropagateFailure<U>(): Result<U, E>
      requires Err?
    {
      Err(error)
    }

    function Extract(): T
      requires Ok?
    {
      value
    }
  }

  /** A decoded JSON document. Numbers are exact, objects are finite maps. */
  datatype Json =
    | Null
    | Bool(b: bool)
    | Num(n: real)
    | Str(s: string)
    | Arr(items: seq<Json>)
    | Obj(fields: map<string, Json>)

  /** No object at any depth. Objects compare by their text, whose key order a map does not keep. */
  predicate ObjectFree(v: Json) {
    match v
    case Obj(_) => false
    case Arr(items) => forall x | x in items :: ObjectFree(x)
    case _ => true
  }

  /** An evaluation context: the top-level object of attributes. */
  type Ctx = map<string, Json>

  /** `strings.Split(path, ".")` and `path.split(".")`: always at least one part. */
  function Split(path: string): (parts: seq<string>)
    ensures |parts| >= 1
  {
    if path == "" then [""]
    else
      var rest := Split(path[1..]);
      if path[0] == '.' then [""] + rest
      else [[path[0]] + rest[0]] + rest[1..]
  }

  function Join(parts: seq<string>): string
    requires |parts| >= 1
  {
    if |parts| == 1 then parts[0] else parts[0] + "." + Join(parts[1..])
  }

  /** Joining the parts with dots gives the path back, and no part keeps a dot. */
  lemma {:induction false} SplitJoin(path: string)
    ensures Join(Split(path)) == path
    ensures forall part | part in Split(path) :: '.' !in part
  {
    if path != "" {
      SplitJoin(path[1..]);
      var rest := Split(path[1..]);
      if path[0] == '.' {
        assert ([""] + rest)[1..] == rest;
      } else {
        var parts := [[path[0]] + rest[0]] + rest[1..];
        assert parts[1..] == rest[1..];
        assert Join(parts) == [path[0]] + Join(rest);
        assert forall i | 0 <= i < |parts| :: '.' !in parts[i] by {
          assert '.' !in rest[0];
          forall i | 0 <= i < |parts| ensures '.' !in parts[i] {
            if i > 0 { assert parts[i] == rest[i]; }
          }
        }
      }
    }
  }

  lemma {:induction false} SplitPrefix(part: string, rest: string)
    requires '.' !in part
    ensures Split(part + "." + rest) == [part] + Split(rest)
  {
    var path := part + "." + rest;
    if part == "" {
      assert path[1..] == rest;
    } else {
      SplitPrefix(part[1..], rest);
      assert path[1..] == part[1..] + "." + rest;
      assert [part[0]] + part[1..] == part;
    }
  }

  lemma {:induction false} SplitWhole(part: string)
    requires '.' !in part
    ensures Split(part) == [part]
  {
    if part != "" {
      SplitWhole(part[1..]);
      assert [part[0]] + part[1..] == part;
    }
  }

  /** And splitting a join gives back parts without dots. */
  lemma {:induction false} JoinSplit(parts: seq<string>)
    requires |parts| >= 1 && forall part | part in parts :: '.' !in part
    ensures Split(Join(parts)) == parts
  {
    if |parts| == 1 {
      SplitWhole(parts[0]);
    } else {
      JoinSplit(parts[1..]);
      SplitPrefix(parts[0], Join(parts[1..]));
      assert parts[0] + "." + Join(parts[1..]) == Join(parts);
      assert [parts[0]] + parts[1..] == parts;
    }
  }
}

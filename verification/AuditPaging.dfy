/** Keyset pagination of the audit log. */
module AuditPaging {
  import opened Databases
  import opened JsonValues

  /** Time 0 is Go's zero time, which the code reads as "absent"; ids are UUIDs as numbers. */
  datatype Event = Event(ts: nat, id: nat, project: nat, action: string, actor: string)

  datatype Key = Key(ts: nat, id: nat)

  /** Empty strings and zero times do not filter. */
  datatype Filter = Filter(project: nat, action: string, actor: string, from: nat, to: nat)

  /** The primary key: no two events share an id. */
  predicate UniqueIds(s: set<Event>) {
    forall a, b | a in s && b in s && a.id == b.id :: a == b
  }

  type Table = s: set<Event> | UniqueIds(s)

  function KeyOf(e: Event): Key { Key(e.ts, e.id) }

  predicate Less(a: Key, b: Key) {
    a.ts < b.ts || (a.ts == b.ts && a.id < b.id)
  }

  predicate Passes(f: Filter, e: Event) {
    && e.project == f.project
    && (f.action == "" || e.action == f.action)
    && (f.actor == "" || e.actor == f.actor)
    && (f.from == 0 || e.ts >= f.from)
    && (f.to == 0 || e.ts < f.to)
  }

  /** A cursor at the zero time is taken for no cursor. */
  function Effective(cursor: Option<Key>): Option<Key> {
    if cursor.Some? && cursor.value.ts == 0 then None else cursor
  }

  /** Postgres compares rows; SQLite spells the comparison out. */
  predicate AfterCursor(backend: Backend, cursor: Option<Key>, e: Event): (r: bool)
    ensures r <==> Effective(cursor).Some? ==> Less(KeyOf(e), cursor.value)
  {
    var c := Effective(cursor);
    match backend
    case Postgres => c.None? || Less(KeyOf(e), c.value)
    case Sqlite => c.None? || e.ts < c.value.ts || (e.ts == c.value.ts && e.id < c.value.id)
  }

  function Selected(backend: Backend, table: Table, f: Filter, cursor: Option<Key>): Table {
    set e | e in table && Passes(f, e) && AfterCursor(backend, cursor, e)
  }

  // ORDER BY created_at DESC, id DESC

  predicate Descending(d: seq<Event>) {
    forall i, j | 0 <= i < j < |d| :: Less(KeyOf(d[j]), KeyOf(d[i]))
  }

  ghost predicate Greatest(s: set<Event>, m: Event) {
    m in s && forall e | e in s && e != m :: Less(KeyOf(e), KeyOf(m))
  }

  lemma {:induction false} HasGreatest(s: Table)
    requires s != {}
    ensures exists m :: Greatest(s, m)
    decreases |s|
  {
    var x :| x in s;
    var rest: Table := s - {x};
    assert forall e | e in s && e != x :: e in rest;
    if rest == {} {
      assert Greatest(s, x);
    } else {
      HasGreatest(rest);
      var m :| Greatest(rest, m);
      if Less(KeyOf(m), KeyOf(x)) { assert Greatest(s, x); } else { assert Greatest(s, m); }
    }
  }

  ghost function Ordered(s: Table): seq<Event>
    decreases |s|
  {
    if s == {} then []
    else
      HasGreatest(s);
      var m :| Greatest(s, m);
      [m] + Ordered(s - {m})
  }

  /** The result of the ordering, newest first, with nothing lost or added. */
  lemma {:induction false} OrderedFacts(s: Table)
    ensures Descending(Ordered(s)) && forall e :: e in Ordered(s) <==> e in s
    decreases |s|
  {
    if s != {} {
      HasGreatest(s);
      var d := Ordered(s);
      assert Greatest(s, d[0]);
      OrderedFacts(s - {d[0]});
      assert d[1..] == Ordered(s - {d[0]});
      assert d == [d[0]] + d[1..];
    }
  }

  lemma HeadAndTail(c: seq<Event>)
    requires Descending(c) && c != []
    ensures c[0] !in c[1..] && Descending(c[1..])
    ensures forall e :: e in c <==> e == c[0] || e in c[1..]
    ensures forall e | e in c[1..] :: Less(KeyOf(e), KeyOf(c[0]))
  {
    assert c == [c[0]] + c[1..];
  }

  /** A descending arrangement is determined by its elements. */
  lemma {:induction false} DescendingUnique(c: seq<Event>, d: seq<Event>)
    requires Descending(c) && Descending(d) && forall e :: e in c <==> e in d
    ensures c == d
  {
    if c == [] {
      if d != [] { HeadAndTail(d); }
    } else {
      assert c[0] in d;
      HeadAndTail(c);
      HeadAndTail(d);
      assert d[0] in c;
      DescendingUnique(c[1..], d[1..]);
      assert c == [c[0]] + c[1..] && d == [d[0]] + d[1..];
    }
  }

  /** Past position `at` come exactly the elements below the one there. */
  lemma TailIsBelow(d: seq<Event>, at: nat)
    requires Descending(d) && at < |d|
    ensures forall e :: e in d[at + 1..] <==> e in d && Less(KeyOf(e), KeyOf(d[at]))
  {
    forall e ensures e in d[at + 1..] <==> e in d && Less(KeyOf(e), KeyOf(d[at])) {
      if e in d && Less(KeyOf(e), KeyOf(d[at])) {
        var i :| 0 <= i < |d| && d[i] == e;
        assert i > at;
        assert d[at + 1..][i - at - 1] == e;
      }
    }
  }

  // The handler

  function Take(d: seq<Event>, n: int): seq<Event> {
    if n <= 0 then [] else if n <= |d| then d[..n] else d
  }

  predicate Int32(n: int) { -0x8000_0000 <= n < 0x8000_0000 }

  /** 32-bit signed wrap-around. */
  function Wrap32(n: int): (w: int)
    ensures Int32(w) && (Int32(n) ==> w == n)
  {
    if Int32(n) then n else (n + 0x8000_0000) % 0x1_0000_0000 - 0x8000_0000
  }

  /** `LIMIT n`: Postgres refuses a negative limit, SQLite reads it as none. */
  ghost function Fetch(backend: Backend, table: Table, f: Filter, cursor: Option<Key>, n: int): Option<seq<Event>>
  {
    var d := Ordered(Selected(backend, table, f, cursor));
    if n >= 0 then Some(Take(d, n)) else if backend == Postgres then None else Some(d)
  }

  datatype Answer = Page(items: seq<Event>, next: Option<Key>) | ServerError | Panic

  const MAX_INT32 := 0x7fff_ffff

  /** The row count and the index of the last row are computed in 32 bits. */
  function PageOf(rows: seq<Event>, limit: int): Answer {
    if Wrap32(|rows|) <= limit then Page(Take(rows, limit), None)
    else
      var last := Wrap32(limit - 1);
      if 0 <= last < |rows| then Page(Take(rows, limit), Some(KeyOf(rows[last]))) else Panic
  }

  method BuildPage(rows: seq<Event>, limit: int) returns (a: Answer)
    requires Int32(limit)
    ensures a == PageOf(rows, limit)
  {
    var items: seq<Event> := [];
    for i := 0 to |rows|
      invariant items == Take(rows, i) && (i > 0 ==> i <= limit)
    {
      if Wrap32(i) >= limit { break; }
      items := items + [rows[i]];
    }
    if Wrap32(|rows|) > limit {
      var last := Wrap32(limit - 1);
      if last < 0 || last >= |rows| { return Panic; }
      return Page(items, Some(KeyOf(rows[last])));
    }
    return Page(items, None);
  }

  lemma PageOfFew(rows: seq<Event>, limit: int)
    requires Int32(limit) && |rows| < MAX_INT32
    ensures PageOf(rows, limit).Panic? <==> |rows| > limit && limit < 1
  {
  }

  ghost function Respond(backend: Backend, table: Table, f: Filter, cursor: Option<Key>, limit: int): Answer
  {
    var rows := Fetch(backend, table, f, cursor, Wrap32(limit + 1));
    if rows.None? then ServerError else PageOf(rows.value, limit)
  }

  /** The handler indexes `rows[limit-1]` unguarded: on Postgres it panics exactly on limit -1, and
      on limit 0 with a row to show; SQLite adds every smaller limit. */
  lemma PanicsIff(backend: Backend, table: Table, f: Filter, cursor: Option<Key>, limit: int)
    requires Int32(limit) && |Ordered(Selected(backend, table, f, cursor))| < MAX_INT32
    ensures Respond(backend, table, f, cursor, limit).Panic?
            <==> || limit == -1
                 || (limit == 0 && Selected(backend, table, f, cursor) != {})
                 || (limit < -1 && backend == Sqlite)
  {
    var s := Selected(backend, table, f, cursor);
    OrderedEmpty(s);
    var rows := Fetch(backend, table, f, cursor, Wrap32(limit + 1));
    if rows.Some? { PageOfFew(rows.value, limit); }
  }

  lemma OrderedEmpty(s: Table)
    ensures s == {} <==> Ordered(s) == []
  {
    OrderedFacts(s);
    if s != {} { var e :| e in s; assert e in Ordered(s); }
  }

  // The walk

  /** Between two pages events are only added, and each new key is above every old one. */
  ghost predicate AppendsAfter(tables: nat -> Table, n: nat) {
    && tables(n) <= tables(n + 1)
    && forall o, e | o in tables(n) && e in tables(n + 1) && e !in tables(n) :: Less(KeyOf(o), KeyOf(e))
  }

  ghost predicate Appends(tables: nat -> Table) {
    forall n: nat :: AppendsAfter(tables, n)
  }

  /** No page of the ordered rows, except the last, ends on an event at the zero time. */
  predicate PagesDated(d: seq<Event>, limit: int)
    requires limit >= 1
  {
    |d| <= limit || (d[limit - 1].ts > 0 && PagesDated(d[limit..], limit))
  }

  /** In particular if no event is at the zero time. */
  lemma {:induction false} DatedPages(d: seq<Event>, limit: int)
    requires limit >= 1 && forall e | e in d :: e.ts > 0
    ensures PagesDated(d, limit)
    decreases |d|
  {
    if |d| > limit { DatedPages(d[limit..], limit); }
  }

  /** Nothing appended later comes after a cursor taken from the first table. */
  lemma {:induction false} LaterTablesAgree(
    backend: Backend, tables: nat -> Table, f: Filter, cursor: Event, n: nat)
    requires Appends(tables) && cursor in tables(0) && cursor.ts > 0
    ensures cursor in tables(n)
    ensures Selected(backend, tables(n), f, Some(KeyOf(cursor))) == Selected(backend, tables(0), f, Some(KeyOf(cursor)))
  {
    if n > 0 {
      LaterTablesAgree(backend, tables, f, cursor, n - 1);
      assert AppendsAfter(tables, n - 1);
      forall e | e in tables(n) && e !in tables(n - 1) ensures !AfterCursor(backend, Some(KeyOf(cursor)), e) {
        assert Less(KeyOf(cursor), KeyOf(e));
      }
    }
  }

  /** What follows position `at` of the ordered rows is what a cursor there selects. */
  lemma RestAfterCursor(backend: Backend, table: Table, f: Filter, cursor: Option<Key>, at: nat)
    requires var d := Ordered(Selected(backend, table, f, cursor));
             at < |d| && d[at].ts > 0
    ensures var d := Ordered(Selected(backend, table, f, cursor));
            Ordered(Selected(backend, table, f, Some(KeyOf(d[at])))) == d[at + 1..]
  {
    var s := Selected(backend, table, f, cursor);
    var d := Ordered(s);
    var below := Selected(backend, table, f, Some(KeyOf(d[at])));
    OrderedFacts(s);
    OrderedFacts(below);
    assert d[at] in s;
    TailIsBelow(d, at);
    BelowCursor(backend, table, f, cursor, d[at]);
    DescendingUnique(Ordered(below), d[at + 1..]);
  }

  lemma BelowCursor(backend: Backend, table: Table, f: Filter, cursor: Option<Key>, m: Event)
    requires m in Selected(backend, table, f, cursor) && m.ts > 0
    ensures forall e :: e in Selected(backend, table, f, Some(KeyOf(m)))
                        <==> e in Selected(backend, table, f, cursor) && Less(KeyOf(e), KeyOf(m))
  {
  }

  /** The handler over time: page `n` is answered from `tables(n)`. */
  ghost function Handler(backend: Backend, tables: nat -> Table, f: Filter, limit: int): (nat, Option<Key>) -> Answer {
    (n: nat, cursor: Option<Key>) => Respond(backend, tables(n), f, cursor, limit)
  }

  /** Following `next_cursor` until it is absent; `None` if that takes more than `fuel` pages or a
      page is not served. */
  function Walk(page: (nat, Option<Key>) -> Answer, cursor: Option<Key>, n: nat, fuel: nat): Option<seq<Event>>
    decreases fuel
  {
    if fuel == 0 then None
    else
      match page(n, cursor)
      case Page(items, next) =>
        if next.None? then Some(items)
        else
          var rest := Walk(page, next, n + 1, fuel - 1);
          if rest.None? then None else Some(items + rest.value)
      case _ => None
  }

  /** The page of ordered rows `d`, and a cursor when there is more. */
  function FirstPage(d: seq<Event>, limit: int): Answer
    requires limit >= 1
  {
    if |d| <= limit then Page(d, None) else Page(d[..limit], Some(KeyOf(d[limit - 1])))
  }

  lemma PageContents(backend: Backend, table: Table, f: Filter, cursor: Option<Key>, limit: int)
    requires 1 <= limit < MAX_INT32
    ensures Respond(backend, table, f, cursor, limit) == FirstPage(Ordered(Selected(backend, table, f, cursor)), limit)
  {
    var d := Ordered(Selected(backend, table, f, cursor));
    if |d| > limit {
      assert d[..limit + 1][..limit] == d[..limit] && d[..limit + 1][limit - 1] == d[limit - 1];
    }
  }

  /** At the largest limit the look-ahead wraps around: Postgres refuses the query, SQLite returns every row
      and the narrowed count never exceeds the limit. */
  lemma LargestLimit(backend: Backend, table: Table, f: Filter, cursor: Option<Key>)
    ensures Respond(backend, table, f, cursor, MAX_INT32)
         == if backend == Postgres then ServerError
            else Page(Take(Ordered(Selected(backend, table, f, cursor)), MAX_INT32), None)
  {
    assert Wrap32(MAX_INT32 + 1) < 0;
  }

  ghost predicate ServesAt(
    page: (nat, Option<Key>) -> Answer, backend: Backend, table: Table, f: Filter, limit: int, n: nat, c: Option<Key>)
    requires limit >= 1
  {
    page(n, c) == FirstPage(Ordered(Selected(backend, table, f, c)), limit)
  }

  ghost predicate Serves(
    page: (nat, Option<Key>) -> Answer, backend: Backend, tables: nat -> Table, f: Filter, limit: int)
    requires limit >= 1
  {
    forall n: nat, c: Option<Key> :: ServesAt(page, backend, tables(n), f, limit, n, c)
  }

  lemma HandlerServes(backend: Backend, tables: nat -> Table, f: Filter, limit: int)
    requires 1 <= limit < MAX_INT32
    ensures Serves(Handler(backend, tables, f, limit), backend, tables, f, limit)
  {
    forall n: nat, c: Option<Key>
      ensures ServesAt(Handler(backend, tables, f, limit), backend, tables(n), f, limit, n, c)
    {
      PageContents(backend, tables(n), f, c, limit);
    }
  }

  lemma OrderedMember(s: Table, i: nat)
    requires i < |Ordered(s)|
    ensures Ordered(s)[i] in s
  {
    OrderedFacts(s);
    assert Ordered(s)[i] in Ordered(s);
  }

  lemma WalkStep(
    page: (nat, Option<Key>) -> Answer, d: seq<Event>, limit: int, cursor: Option<Key>, n: nat, fuel: nat)
    requires limit >= 1 && fuel > 0 && page(n, cursor) == FirstPage(d, limit)
    requires |d| > limit ==> Walk(page, Some(KeyOf(d[limit - 1])), n + 1, fuel - 1) == Some(d[limit..])
    ensures Walk(page, cursor, n, fuel) == Some(d)
  {
    if |d| > limit { assert d[..limit] + d[limit..] == d; }
  }

  /** What is left to show after a cursor, as of the first page. */
  ghost function Rest(backend: Backend, tables: nat -> Table, f: Filter, cursor: Option<Key>): seq<Event> {
    Ordered(Selected(backend, tables(0), f, cursor))
  }

  /** The table of page `n` shows the same after that cursor. */
  ghost predicate Steady(backend: Backend, tables: nat -> Table, f: Filter, cursor: Option<Key>, n: nat) {
    Ordered(Selected(backend, tables(n), f, cursor)) == Rest(backend, tables, f, cursor)
  }

  /** The next page continues where this one stopped, on the table of its own moment. */
  lemma NextPage(backend: Backend, tables: nat -> Table, f: Filter, limit: int, cursor: Option<Key>, n: nat)
    requires limit >= 1 && Appends(tables) && |Rest(backend, tables, f, cursor)| > limit
    requires Rest(backend, tables, f, cursor)[limit - 1].ts > 0
    ensures var d := Rest(backend, tables, f, cursor);
            var next := Some(KeyOf(d[limit - 1]));
            Steady(backend, tables, f, next, n) && Rest(backend, tables, f, next) == d[limit..]
  {
    OrderedMember(Selected(backend, tables(0), f, cursor), limit - 1);
    RestAfterCursor(backend, tables(0), f, cursor, limit - 1);
    LaterTablesAgree(backend, tables, f, Rest(backend, tables, f, cursor)[limit - 1], n);
  }

  lemma PageOfRest(
    page: (nat, Option<Key>) -> Answer, backend: Backend, tables: nat -> Table, f: Filter, limit: int,
    cursor: Option<Key>, n: nat)
    requires limit >= 1 && Serves(page, backend, tables, f, limit) && Steady(backend, tables, f, cursor, n)
    ensures page(n, cursor) == FirstPage(Rest(backend, tables, f, cursor), limit)
  {
    assert ServesAt(page, backend, tables(n), f, limit, n, cursor);
  }

  lemma {:induction false} WalkRest(
    page: (nat, Option<Key>) -> Answer, backend: Backend, tables: nat -> Table, f: Filter, limit: int,
    cursor: Option<Key>, n: nat, fuel: nat)
    requires limit >= 1 && Serves(page, backend, tables, f, limit)
    requires Appends(tables) && Steady(backend, tables, f, cursor, n)
    requires PagesDated(Rest(backend, tables, f, cursor), limit)
    requires fuel > |Rest(backend, tables, f, cursor)|
    ensures Walk(page, cursor, n, fuel) == Some(Rest(backend, tables, f, cursor))
    decreases fuel
  {
    var d := Rest(backend, tables, f, cursor);
    PageOfRest(page, backend, tables, f, limit, cursor, n);
    if |d| > limit {
      NextPage(backend, tables, f, limit, cursor, n + 1);
      WalkRest(page, backend, tables, f, limit, Some(KeyOf(d[limit - 1])), n + 1, fuel - 1);
    }
    WalkStep(page, d, limit, cursor, n, fuel);
  }

  // A page that ends at the zero time

  lemma {:induction false} TablesGrow(tables: nat -> Table, n: nat)
    requires Appends(tables)
    ensures tables(0) <= tables(n)
  {
    if n > 0 {
      TablesGrow(tables, n - 1);
      assert AppendsAfter(tables, n - 1);
    }
  }

  lemma WalkHead(page: (nat, Option<Key>) -> Answer, d: seq<Event>, limit: int, cursor: Option<Key>, n: nat, fuel: nat)
    requires limit >= 1 && d != [] && page(n, cursor) == FirstPage(d, limit)
    requires Walk(page, cursor, n, fuel).Some?
    ensures Walk(page, cursor, n, fuel).value != [] && Walk(page, cursor, n, fuel).value[0] == d[0]
  {
  }

  lemma OrderedHead(s: Table, e: Event)
    requires e in s
    ensures Ordered(s) != [] && !Less(KeyOf(Ordered(s)[0]), KeyOf(e))
  {
    OrderedFacts(s);
    assert e in Ordered(s);
    var i :| 0 <= i < |Ordered(s)| && Ordered(s)[i] == e;
  }

  lemma NotDescending(front: seq<Event>, rest: seq<Event>)
    requires front != [] && rest != [] && !Less(KeyOf(rest[0]), KeyOf(front[0]))
    ensures !Descending(front + rest)
  {
    var d := front + rest;
    assert d[0] == front[0] && d[|front|] == rest[0];
  }

  lemma SuffixNotDescending(front: seq<Event>, rest: seq<Event>)
    requires !Descending(rest)
    ensures !Descending(front + rest)
  {
    var i, j :| 0 <= i < j < |rest| && !Less(KeyOf(rest[j]), KeyOf(rest[i]));
    var d := front + rest;
    assert d[|front| + i] == rest[i] && d[|front| + j] == rest[j];
  }

  /** A cursor at the zero time is read as none, so the walk starts over at the newest event. */
  lemma StartsOver(
    page: (nat, Option<Key>) -> Answer, backend: Backend, tables: nat -> Table, f: Filter, limit: int,
    next: Key, n: nat, fuel: nat, e: Event)
    requires limit >= 1 && Serves(page, backend, tables, f, limit) && Appends(tables) && next.ts == 0
    requires e in tables(0) && Passes(f, e) && Walk(page, Some(next), n, fuel).Some?
    ensures var v := Walk(page, Some(next), n, fuel).value; v != [] && !Less(KeyOf(v[0]), KeyOf(e))
  {
    TablesGrow(tables, n);
    var s := Selected(backend, tables(n), f, Some(next));
    assert e in s;
    OrderedHead(s, e);
    assert ServesAt(page, backend, tables(n), f, limit, n, Some(next));
    WalkHead(page, Ordered(s), limit, Some(next), n, fuel);
  }

  /** So the walk does not end, or shows events again. */
  lemma {:induction false} UndatedWalk(
    page: (nat, Option<Key>) -> Answer, backend: Backend, tables: nat -> Table, f: Filter, limit: int,
    cursor: Option<Key>, n: nat, fuel: nat)
    requires limit >= 1 && Serves(page, backend, tables, f, limit) && Appends(tables)
    requires Steady(backend, tables, f, cursor, n) && !PagesDated(Rest(backend, tables, f, cursor), limit)
    requires Walk(page, cursor, n, fuel).Some?
    ensures !Descending(Walk(page, cursor, n, fuel).value)
    decreases fuel
  {
    var d := Rest(backend, tables, f, cursor);
    var next := KeyOf(d[limit - 1]);
    PageOfRest(page, backend, tables, f, limit, cursor, n);
    var rest := Walk(page, Some(next), n + 1, fuel - 1).value;
    assert Walk(page, cursor, n, fuel).value == d[..limit] + rest;
    if next.ts == 0 {
      OrderedMember(Selected(backend, tables(0), f, cursor), 0);
      StartsOver(page, backend, tables, f, limit, next, n + 1, fuel - 1, d[0]);
      NotDescending(d[..limit], rest);
    } else {
      NextPage(backend, tables, f, limit, cursor, n + 1);
      UndatedWalk(page, backend, tables, f, limit, Some(next), n + 1, fuel - 1);
      SuffixNotDescending(d[..limit], rest);
    }
  }

  /** Exactly the filtered events of the table, newest first, each once. */
  ghost predicate Complete(all: Option<seq<Event>>, table: Table, f: Filter) {
    && all.Some? && Descending(all.value)
    && forall e :: e in all.value <==> e in table && Passes(f, e)
  }

  lemma RestIsComplete(backend: Backend, tables: nat -> Table, f: Filter)
    ensures Complete(Some(Rest(backend, tables, f, None)), tables(0), f)
  {
    OrderedFacts(Selected(backend, tables(0), f, None));
  }

  lemma PartIsIncomplete(d: seq<Event>, n: nat, table: Table, f: Filter)
    requires Complete(Some(d), table, f) && n < |d|
    ensures !Complete(Some(d[..n]), table, f)
  {
    assert d[n] in d;
    assert d[n] !in d[..n];
  }

  /** The walk at the largest limit is one page. */
  lemma LargestWalk(backend: Backend, tables: nat -> Table, f: Filter, fuel: nat)
    requires fuel > 0
    ensures Walk(Handler(backend, tables, f, MAX_INT32), None, 0, fuel)
         == if backend == Postgres then None else Some(Take(Rest(backend, tables, f, None), MAX_INT32))
  {
    LargestLimit(backend, tables(0), f, None);
  }

  /** For every filter and every 32-bit limit of at least one, while newer events keep being appended,
      following the cursors ends and yields exactly the filtered events of the first page's table, newest
      first, each once, exactly if: below the largest limit, no page but the last ends on an event at the
      zero time; at the largest one, the backend is SQLite and there are no more events than that. */
  lemma WalkIsComplete(backend: Backend, tables: nat -> Table, f: Filter, limit: int, fuel: nat)
    requires Appends(tables) && 1 <= limit <= MAX_INT32
    requires fuel > |Rest(backend, tables, f, None)|
    ensures Complete(Walk(Handler(backend, tables, f, limit), None, 0, fuel), tables(0), f)
            <==> if limit < MAX_INT32 then PagesDated(Rest(backend, tables, f, None), limit)
                 else backend == Sqlite && |Rest(backend, tables, f, None)| <= MAX_INT32
  {
    var d, page := Rest(backend, tables, f, None), Handler(backend, tables, f, limit);
    RestIsComplete(backend, tables, f);
    if limit < MAX_INT32 {
      HandlerServes(backend, tables, f, limit);
      if PagesDated(d, limit) {
        WalkRest(page, backend, tables, f, limit, None, 0, fuel);
      } else if Walk(page, None, 0, fuel).Some? {
        UndatedWalk(page, backend, tables, f, limit, None, 0, fuel);
      }
    } else {
      LargestWalk(backend, tables, f, fuel);
      if |d| > MAX_INT32 { PartIsIncomplete(d, MAX_INT32, tables(0), f); }
    }
  }

  /** With a dated table and an ordinary limit that is always. */
  lemma DatedWalkIsComplete(backend: Backend, tables: nat -> Table, f: Filter, limit: int, fuel: nat)
    requires Appends(tables) && 1 <= limit < MAX_INT32 && forall e | e in tables(0) :: e.ts > 0
    requires fuel > |Rest(backend, tables, f, None)|
    ensures Complete(Walk(Handler(backend, tables, f, limit), None, 0, fuel), tables(0), f)
  {
    var s := Selected(backend, tables(0), f, None);
    OrderedFacts(s);
    DatedPages(Ordered(s), limit);
    WalkIsComplete(backend, tables, f, limit, fuel);
  }

  /** On a table that does not change, a first page that ends at the zero time makes the walk endless. */
  lemma {:induction false} ZeroTimeLoops(
    page: (nat, Option<Key>) -> Answer, backend: Backend, table: Table, f: Filter, limit: int,
    cursor: Option<Key>, n: nat, fuel: nat)
    requires limit >= 1 && Serves(page, backend, (i: nat) => table, f, limit) && Effective(cursor).None?
    requires var d := Ordered(Selected(backend, table, f, None)); |d| > limit && d[limit - 1].ts == 0
    ensures Walk(page, cursor, n, fuel) == None
    decreases fuel
  {
    if fuel > 0 {
      var d := Ordered(Selected(backend, table, f, None));
      SameSelection(backend, table, f, cursor);
      assert ServesAt(page, backend, ((i: nat) => table)(n), f, limit, n, cursor);
      assert page(n, cursor) == FirstPage(d, limit);
      ZeroTimeLoops(page, backend, table, f, limit, Some(KeyOf(d[limit - 1])), n + 1, fuel - 1);
    }
  }

  lemma SameSelection(backend: Backend, table: Table, f: Filter, cursor: Option<Key>)
    requires Effective(cursor).None?
    ensures Selected(backend, table, f, cursor) == Selected(backend, table, f, None)
  {
  }
}

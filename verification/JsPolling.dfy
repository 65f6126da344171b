/** The JavaScript client's polling life cycle and snapshot cache. */
module JsPolling {
  import opened JsonValues

  // The poll

  datatype Snapshot<T> = Snapshot(id: string, version: int, flags: map<string, T>)

  /** What a fetch of `/snapshots/latest` settles with; `Failed` is any rejection or bad status. A
      flag of a body is `None` when compiling it throws. */
  datatype Outcome<T> = NotFound | Failed | Body(id: string, version: int, flags: map<string, Option<T>>)

  /** The snapshot a response gives; one flag that does not compile loses the whole response. */
  function Loaded<T>(o: Outcome<T>): Option<Snapshot<T>> {
    if o.Body? && forall k | k in o.flags :: o.flags[k].Some? then
      Some(Snapshot(o.id, o.version, map k | k in o.flags :: o.flags[k].value))
    else None
  }

  predicate Rejects<T>(o: Outcome<T>) {
    !o.NotFound? && Loaded(o).None?
  }

  // The life cycle

  /** `armed` are timers set and not yet fired or cleared; `handle` is the `pollTimer` variable;
      `firstPolls` are in flight for a `start()`, `timerPolls` for a timer. */
  datatype State<T> = State(
    interval: int, snapshot: Option<Snapshot<T>>, stopped: bool, armed: set<nat>, handle: Option<nat>,
    nextTimer: nat, firstPolls: nat, timerPolls: nat)

  datatype Event<T> = Start | Stop | Settle(first: bool, o: Outcome<T>) | Fire(timer: nat)

  function Scheduled<T>(s: State<T>): State<T> {
    if s.stopped || s.interval <= 0 then s
    else s.(armed := s.armed + {s.nextTimer}, handle := Some(s.nextTimer), nextTimer := s.nextTimer + 1)
  }

  function Polled<T>(s: State<T>, o: Outcome<T>): State<T> {
    if Loaded(o).Some? then s.(snapshot := Loaded(o)) else s
  }

  function Step<T>(s: State<T>, e: Event<T>): Option<State<T>> {
    match e
    case Start => Some(s.(stopped := false, firstPolls := s.firstPolls + 1))
    case Stop =>
      Some(s.(stopped := true, handle := None,
              armed := if s.handle.Some? then s.armed - {s.handle.value} else s.armed))
    case Settle(true, o) =>
      if s.firstPolls == 0 then None
      else
        var polled := Polled(s.(firstPolls := s.firstPolls - 1), o);
        Some(if Rejects(o) then polled else Scheduled(polled))
    case Settle(false, o) =>
      if s.timerPolls == 0 then None
      else Some(Scheduled(Polled(s.(timerPolls := s.timerPolls - 1), o)))
    case Fire(t) =>
      if t !in s.armed then None else Some(s.(armed := s.armed - {t}, timerPolls := s.timerPolls + 1))
  }

  function Initial<T>(interval: int): State<T> {
    State(interval, None, false, {}, None, 0, 0, 0)
  }

  function Outstanding<T>(s: State<T>): nat {
    |s.armed| + s.firstPolls + s.timerPolls
  }

  function Run<T>(s: State<T>, es: seq<Event<T>>): Option<State<T>> {
    if es == [] then Some(s)
    else
      var front := Run(s, es[..|es| - 1]);
      if front.None? then None else Step(front.value, es[|es| - 1])
  }

  /** The closure state as an object; each handler is one turn of the event loop. */
  class Client<T> {
    const interval: int
    var snapshot: Option<Snapshot<T>>
    var stopped: bool
    var armed: set<nat>
    var handle: Option<nat>
    var nextTimer: nat
    var firstPolls: nat
    var timerPolls: nat

    ghost function Now(): State<T>
      reads this
    {
      State(interval, snapshot, stopped, armed, handle, nextTimer, firstPolls, timerPolls)
    }

    constructor (interval: int)
      ensures Now() == Initial(interval)
    {
      this.interval := interval;
      snapshot, stopped, armed, handle, nextTimer := None, false, {}, None, 0;
      firstPolls, timerPolls := 0, 0;
    }

    method ScheduleNextPoll()
      modifies this
      ensures Now() == Scheduled(old(Now()))
    {
      if stopped { return; }
      if interval <= 0 { return; }
      handle := Some(nextTimer);
      armed := armed + {nextTimer};
      nextTimer := nextTimer + 1;
    }

    /** The part of `pollSnapshot` after the fetch. */
    method PollSettled(o: Outcome<T>) returns (rejected: bool)
      modifies this`snapshot
      ensures Now() == Polled(old(Now()), o)
      ensures rejected <==> Rejects(o)
    {
      if o.NotFound? { return false; }
      if o.Failed? { return true; }
      var flags: map<string, T> := map[];
      var todo := o.flags.Keys;
      while todo != {}
        invariant todo <= o.flags.Keys
        invariant forall k | k in o.flags && k !in todo :: o.flags[k].Some?
        invariant flags == map k | k in o.flags && k !in todo :: o.flags[k].value
        decreases todo
      {
        var key :| key in todo;
        var c := o.flags[key];
        if c.None? { return true; }
        todo := todo - {key};
        flags := flags[key := c.value];
      }
      assert flags == map k | k in o.flags :: o.flags[k].value;
      snapshot := Some(Snapshot(o.id, o.version, flags));
      return false;
    }

    method OnStart()
      modifies this
      ensures Step(old(Now()), Start) == Some(Now())
    {
      stopped := false;
      firstPolls := firstPolls + 1;
    }

    method OnFirstPoll(o: Outcome<T>)
      requires firstPolls > 0
      modifies this
      ensures Step(old(Now()), Settle(true, o)) == Some(Now())
    {
      firstPolls := firstPolls - 1;
      var rejected := PollSettled(o);
      if !rejected { ScheduleNextPoll(); }
    }

    method OnTimer(t: nat)
      requires t in armed
      modifies this
      ensures Step(old(Now()), Fire(t)) == Some(Now())
    {
      armed := armed - {t};
      timerPolls := timerPolls + 1;
    }

    method OnTimerPoll(o: Outcome<T>)
      requires timerPolls > 0
      modifies this
      ensures Step(old(Now()), Settle(false, o)) == Some(Now())
    {
      timerPolls := timerPolls - 1;
      var _ := PollSettled(o);
      ScheduleNextPoll();
    }

    method OnStop()
      modifies this
      ensures Step(old(Now()), Stop) == Some(Now())
    {
      stopped := true;
      if handle.Some? {
        armed := armed - {handle.value};
        handle := None;
      }
    }
  }

  // Whole runs

  /** Timer ids are fresh. */
  predicate Fresh<T>(s: State<T>) {
    (forall t | t in s.armed :: t < s.nextTimer) && (s.handle.Some? ==> s.handle.value < s.nextTimer)
  }

  predicate OneChain<T>(s: State<T>) {
    && Fresh(s)
    && Outstanding(s) <= 1
    && (forall t | t in s.armed :: s.handle == Some(t))
    && (s.stopped ==> s.armed == {})
  }

  lemma ScheduledKeeps<T>(s: State<T>)
    requires OneChain(s) && Outstanding(s) == 0
    ensures OneChain(Scheduled(s)) && Outstanding(Scheduled(s)) <= 1
  {
    assert s.armed == {};
    assert Scheduled(s).armed == {} || Scheduled(s).armed == {s.nextTimer};
  }

  lemma ArmedAlone<T>(s: State<T>, t: nat)
    requires t in s.armed && Outstanding(s) <= 1
    ensures s.armed == {t} && s.firstPolls == 0 && s.timerPolls == 0
  {
    assert |s.armed - {t}| == 0;
  }

  lemma StopKeeps<T>(s: State<T>)
    requires OneChain(s)
    ensures OneChain(Step(s, Stop).value)
  {
    if s.armed != {} {
      var t :| t in s.armed;
      ArmedAlone(s, t);
      assert {t} - {t} == {};
    }
  }

  lemma FireKeeps<T>(s: State<T>, t: nat)
    requires OneChain(s) && t in s.armed
    ensures OneChain(Step(s, Fire(t)).value)
  {
    ArmedAlone(s, t);
    assert {t} - {t} == {};
  }

  lemma SettleKeeps<T>(s: State<T>, first: bool, o: Outcome<T>)
    requires OneChain(s) && Step(s, Settle(first, o)).Some?
    ensures OneChain(Step(s, Settle(first, o)).value)
  {
    assert |s.armed| == 0;
    var polled := Polled(if first then s.(firstPolls := s.firstPolls - 1) else s.(timerPolls := s.timerPolls - 1), o);
    assert OneChain(polled) && Outstanding(polled) == 0;
    ScheduledKeeps(polled);
  }

  /** The chain stays single through every event except a `start` on top of a running one. */
  lemma StepKeepsOneChain<T>(s: State<T>, e: Event<T>)
    requires OneChain(s) && Step(s, e).Some? && (e == Start ==> Outstanding(s) == 0)
    ensures OneChain(Step(s, e).value)
  {
    match e {
      case Start =>
      case Stop => StopKeeps(s);
      case Fire(t) => FireKeeps(s, t);
      case Settle(first, o) => SettleKeeps(s, first, o);
    }
  }

  /** `start()` is only called while nothing is outstanding; one single `start` is the plain case. */
  ghost predicate StartsWhenIdle<T>(s: State<T>, es: seq<Event<T>>) {
    forall i | 0 <= i < |es| && es[i] == Start && Run(s, es[..i]).Some? :: Outstanding(Run(s, es[..i]).value) == 0
  }

  lemma {:induction false} RunKeepsOneChain<T>(s: State<T>, es: seq<Event<T>>)
    requires OneChain(s) && Run(s, es).Some? && StartsWhenIdle(s, es)
    ensures OneChain(Run(s, es).value)
  {
    if es != [] {
      var n := |es|;
      var front := es[..n - 1];
      forall i | 0 <= i < |front| && front[i] == Start && Run(s, front[..i]).Some?
        ensures Outstanding(Run(s, front[..i]).value) == 0
      {
        assert front[..i] == es[..i] && es[i] == Start;
      }
      RunKeepsOneChain(s, front);
      StepKeepsOneChain(Run(s, front).value, es[n - 1]);
    }
  }

  /** At most one poll or armed timer is outstanding, and none is armed once stopped. */
  lemma PollingIsSingle<T>(interval: int, es: seq<Event<T>>)
    requires Run(Initial(interval), es).Some? && StartsWhenIdle(Initial(interval), es)
    ensures var s := Run(Initial(interval), es).value; Outstanding(s) <= 1 && (s.stopped ==> s.armed == {})
  {
    RunKeepsOneChain(Initial(interval), es);
  }

  lemma {:induction false} OnceStarted<T>(interval: int, es: seq<Event<T>>)
    requires Run(Initial(interval), es).Some? && Start !in es
    ensures Outstanding(Run(Initial(interval), es).value) == 0
  {
    if es != [] {
      var front := es[..|es| - 1];
      OnceStarted(interval, front);
      var s := Run(Initial(interval), front).value;
      assert s.armed == {};
    }
  }

  /** With a single `start` in the run the hypothesis holds by itself. */
  lemma SingleStart<T>(interval: int, es: seq<Event<T>>)
    requires Run(Initial(interval), es).Some?
    requires forall i, j | 0 <= i < j < |es| && es[i] == Start :: es[j] != Start
    ensures var s := Run(Initial(interval), es).value; Outstanding(s) <= 1 && (s.stopped ==> s.armed == {})
  {
    forall i | 0 <= i < |es| && es[i] == Start && Run(Initial(interval), es[..i]).Some?
      ensures Outstanding(Run(Initial(interval), es[..i]).value) == 0
    {
      assert Start !in es[..i];
      OnceStarted(interval, es[..i]);
    }
    PollingIsSingle(interval, es);
  }

  /** The hypothesis is exact: a `start` keeps the chain single only when nothing is outstanding. */
  lemma StartNeedsIdle<T>(s: State<T>)
    requires OneChain(s)
    ensures OneChain(Step(s, Start).value) <==> Outstanding(s) == 0
  {
    if Outstanding(s) == 0 { StepKeepsOneChain(s, Start); }
  }

  lemma QuietStep<T>(s: State<T>, e: Event<T>)
    requires s.stopped && s.armed == {} && e != Start && Step(s, e).Some?
    ensures var after := Step(s, e).value; after.stopped && after.armed == {} && !e.Fire?
  {
  }

  /** After a `stop`, until the next `start`, the client stays stopped and no timer is armed or
      fires; only polls already in flight settle. */
  lemma {:induction false} StopIsFinal<T>(s: State<T>, es: seq<Event<T>>)
    requires OneChain(s) && Start !in es && Run(Step(s, Stop).value, es).Some?
    ensures var after := Run(Step(s, Stop).value, es).value; after.stopped && after.armed == {}
    ensures forall e | e in es :: !e.Fire?
  {
    if es == [] {
      StopKeeps(s);
    } else {
      var front, last := es[..|es| - 1], es[|es| - 1];
      assert es == front + [last];
      StopIsFinal(s, front);
      QuietStep(Run(Step(s, Stop).value, front).value, last);
    }
  }

  /** One poll or timer is outstanding and the next one will follow. */
  predicate Polling<T>(s: State<T>) {
    OneChain(s) && !s.stopped && s.interval > 0 && Outstanding(s) == 1
  }

  /** What breaks a running chain: a second `start`, a `stop`, or a first poll that rejects. */
  predicate Interrupts<T>(e: Event<T>) {
    e.Start? || e.Stop? || (e.Settle? && e.first && Rejects(e.o))
  }

  lemma ScheduledPolls<T>(s: State<T>)
    requires s.armed == {} && s.firstPolls == 0 && s.timerPolls == 0 && !s.stopped && s.interval > 0
    ensures Polling(Scheduled(s))
  {
    assert Scheduled(s).armed == {s.nextTimer};
  }

  lemma SettlePolls<T>(s: State<T>, first: bool, o: Outcome<T>)
    requires Polling(s) && Step(s, Settle(first, o)).Some?
    ensures Polling(Step(s, Settle(first, o)).value) <==> !(first && Rejects(o))
  {
    assert |s.armed| == 0;
    assert s.armed == {};
    var polled := Polled(if first then s.(firstPolls := 0) else s.(timerPolls := 0), o);
    ScheduledPolls(polled);
  }

  lemma FirePolls<T>(s: State<T>, t: nat)
    requires Polling(s) && t in s.armed
    ensures Polling(Step(s, Fire(t)).value)
  {
    FireKeeps(s, t);
    ArmedAlone(s, t);
    assert {t} - {t} == {};
  }

  /** A running chain goes on through exactly the other events, failed timer polls included. */
  lemma StepKeepsPolling<T>(s: State<T>, e: Event<T>)
    requires Polling(s) && Step(s, e).Some?
    ensures Polling(Step(s, e).value) <==> !Interrupts(e)
  {
    match e {
      case Start =>
      case Stop =>
      case Fire(t) => FirePolls(s, t);
      case Settle(first, o) => SettlePolls(s, first, o);
    }
  }

  lemma {:induction false} PollingGoesOn<T>(s: State<T>, es: seq<Event<T>>)
    requires Polling(s) && Run(s, es).Some? && forall e | e in es :: !Interrupts(e)
    ensures Polling(Run(s, es).value)
  {
    if es != [] {
      var front := es[..|es| - 1];
      PollingGoesOn(s, front);
      StepKeepsPolling(Run(s, front).value, es[|es| - 1]);
    }
  }

  /** Without a positive interval no run ever arms a timer. */
  lemma {:induction false} NoIntervalNoTimer<T>(interval: int, es: seq<Event<T>>)
    requires interval <= 0 && Run(Initial(interval), es).Some?
    ensures var s := Run(Initial(interval), es).value; s.armed == {} && s.timerPolls == 0 && s.interval <= 0
  {
    if es != [] { NoIntervalNoTimer(interval, es[..|es| - 1]); }
  }

  /** And after two starts one `stop` does not clear both timers. */
  lemma SecondStartLeaksTimer<T>(interval: int)
    requires interval > 0
    ensures var s := Run(Initial<T>(interval), [Start, Start, Settle(true, NotFound), Settle(true, NotFound), Stop]);
            s.Some? && s.value.stopped && s.value.armed == {0}
  {
    var s0: State<T> := Initial(interval);
    var e: seq<Event<T>> := [Start, Start, Settle(true, NotFound), Settle(true, NotFound), Stop];
    assert e[..4][..3] == e[..3] && e[..3][..2] == e[..2] && e[..2][..1] == e[..1] && e[..1][..0] == [];
    var s1 := Step(s0, Start).value;
    assert Run(s0, e[..1]) == Some(s1);
    var s2 := Step(s1, Start).value;
    assert Run(s0, e[..2]) == Some(s2);
    var s3 := Step(s2, Settle(true, NotFound)).value;
    assert Run(s0, e[..3]) == Some(s3) && s3.armed == {0};
    var s4 := Step(s3, Settle(true, NotFound)).value;
    assert Run(s0, e[..4]) == Some(s4) && s4.armed == {0, 1} && s4.handle == Some(1);
    assert {0, 1} - {1} == {0};
  }

  /** In every run, with any number of starts and stops, the snapshot is the last one loaded: it is
      replaced whole and never lost. */
  lemma {:induction false} SnapshotIsLastLoaded<T>(s: State<T>, es: seq<Event<T>>)
    requires Run(s, es).Some?
    ensures var last := Run(s, es).value.snapshot;
            || (last == s.snapshot && forall e | e in es :: e.Settle? ==> Loaded(e.o).None?)
            || (exists i | 0 <= i < |es| :: es[i].Settle? && Loaded(es[i].o).Some? && last == Loaded(es[i].o)
                  && forall j | i < j < |es| && es[j].Settle? :: Loaded(es[j].o).None?)
  {
    if es != [] {
      var n := |es|;
      var front, e := es[..n - 1], es[n - 1];
      SnapshotIsLastLoaded(s, front);
      var mid, after := Run(s, front).value, Run(s, es).value;
      assert es == front + [e];
      if e.Settle? && Loaded(e.o).Some? {
        assert after.snapshot == Loaded(es[n - 1].o);
      } else {
        assert after.snapshot == mid.snapshot;
        if exists i | 0 <= i < |front| :: front[i].Settle? && Loaded(front[i].o).Some? && mid.snapshot == Loaded(front[i].o)
             && forall j | i < j < |front| && front[j].Settle? :: Loaded(front[j].o).None? {
          var i :| 0 <= i < |front| && front[i].Settle? && Loaded(front[i].o).Some? && mid.snapshot == Loaded(front[i].o)
             && forall j | i < j < |front| && front[j].Settle? :: Loaded(front[j].o).None?;
          assert es[i] == front[i];
          assert forall j | i < j < n && es[j].Settle? :: Loaded(es[j].o).None?;
        }
      }
    }
  }
}

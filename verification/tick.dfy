/** The decision the scheduler's background loop takes once per second: which tasks
    to start now. The cron expression parser and evaluator (the `cron` crate) and the
    RFC 3339 clock conversions (`chrono`) are external; they enter the model as the
    parameters `Cron` and `Clock`. Instants are integer nanoseconds. */
module Tick {

  import opened Options
  import opened TaskStore
  import RunLifecycle

  const NanosPerSecond: int := 1_000_000_000

  /** How far back each tick looks for a scheduled instant, to survive sleep drift. */
  const LookBack: int := 2 * NanosPerSecond

  /** The cron library: whether `Schedule::from_str` accepts an expression, and the
      first instant `schedule.after(t).next()` yields, if any. */
  datatype Cron = Cron(parses: string -> bool, after: (string, int) -> Option<int>)

  /** The one property of the cron library the model relies on: the next occurrence
      after `t` lies strictly after `t`. */
  ghost predicate CronSound(cron: Cron) {
    forall e, t :: cron.after(e, t).Some? ==> cron.after(e, t).value > t
  }

  /** `DateTime::parse_from_rfc3339` and `to_rfc3339`. */
  datatype Clock = Clock(parse: string -> Option<int>, format: int -> string)

  /** A formatted instant parses back to itself. */
  ghost predicate ClockRoundTrips(clock: Clock) {
    forall t :: clock.parse(clock.format(t)) == Some(t)
  }

  /** chrono's `Duration::num_seconds`: whole seconds, truncated toward zero. */
  function NumSeconds(d: int): int {
    if d >= 0 then d / NanosPerSecond else -((-d) / NanosPerSecond)
  }

  /** The debounce test: no last run, an unreadable one, or one more than a whole
      second (by `num_seconds`) before `now`. */
  predicate DebounceOk(t: Task, now: int, clock: Clock) {
    match t.lastRun
    case None => true
    case Some(text) =>
      match clock.parse(text)
      case None => true
      case Some(at) => NumSeconds(now - at) > 1
  }

  /** The schedule test: enabled, a non-empty expression that parses, and a next
      occurrence after `now - 2 s` that is not later than `now`. */
  predicate Due(t: Task, now: int, cron: Cron) {
    && t.enabled
    && t.cronExpr != ""
    && cron.parses(t.cronExpr)
    && match cron.after(t.cronExpr, now - LookBack)
       case None => false
       case Some(time) => time <= now
  }

  predicate ShouldFire(t: Task, now: int, cron: Cron, clock: Clock) {
    Due(t, now, cron) && DebounceOk(t, now, clock)
  }

  /** The ids of the tasks that satisfy the tick rule. */
  ghost function FiringIds(tasks: seq<Task>, now: int, cron: Cron, clock: Clock): set<string> {
    set k | 0 <= k < |tasks| && ShouldFire(tasks[k], now, cron, clock) :: tasks[k].id
  }

  lemma FiringIdsCons(tasks: seq<Task>, now: int, cron: Cron, clock: Clock)
    requires |tasks| > 0
    ensures FiringIds(tasks, now, cron, clock) ==
      (if ShouldFire(tasks[0], now, cron, clock) then {tasks[0].id} else {})
      + FiringIds(tasks[1..], now, cron, clock)
  {
    var all := FiringIds(tasks, now, cron, clock);
    var rest := FiringIds(tasks[1..], now, cron, clock);
    forall id | id in all
      ensures id in (if ShouldFire(tasks[0], now, cron, clock) then {tasks[0].id} else {}) + rest
    {
      var k :| 0 <= k < |tasks| && ShouldFire(tasks[k], now, cron, clock) && tasks[k].id == id;
      if k > 0 { assert tasks[1..][k - 1] == tasks[k]; }
    }
    forall id | id in rest ensures id in all {
      var k :| 0 <= k < |tasks[1..]| && ShouldFire(tasks[1..][k], now, cron, clock) && tasks[1..][k].id == id;
      assert tasks[k + 1] == tasks[1..][k];
    }
  }

  /** The ids the tick collects, in task order: exactly those of the tasks that
      satisfy the tick rule. */
  function TasksToRun(tasks: seq<Task>, now: int, cron: Cron, clock: Clock): (r: seq<string>)
    ensures |r| <= |tasks|
    ensures forall id :: id in r <==> id in FiringIds(tasks, now, cron, clock)
    decreases |tasks|
  {
    if |tasks| == 0 then []
    else
      var rest := TasksToRun(tasks[1..], now, cron, clock);
      FiringIdsCons(tasks, now, cron, clock);
      if ShouldFire(tasks[0], now, cron, clock) then [tasks[0].id] + rest else rest
  }

  /** `a` stands before `b` in the list: the first task with `a` precedes the first
      task with `b`. */
  predicate Before(tasks: seq<Task>, a: string, b: string) {
    && FirstIndex(tasks, a).Some?
    && FirstIndex(tasks, b).Some?
    && FirstIndex(tasks, a).value < FirstIndex(tasks, b).value
  }

  /** Every id of `r` stands before every later one. */
  predicate InListOrder(tasks: seq<Task>, r: seq<string>) {
    forall i, j :: 0 <= i < j < |r| ==> Before(tasks, r[i], r[j])
  }

  /** Past a head with another id, `find` stops one position further on. */
  lemma FirstIndexShift(tasks: seq<Task>, x: string)
    requires |tasks| > 0 && x != tasks[0].id && x in Ids(tasks[1..])
    ensures FirstIndex(tasks, x) == Some(FirstIndex(tasks[1..], x).value + 1)
  {
  }

  /** An order on the tail carries over to the whole list, with or without the head's
      id in front. */
  lemma InListOrderCons(tasks: seq<Task>, rest: seq<string>)
    requires |tasks| > 0 && InListOrder(tasks[1..], rest)
    requires forall x | x in rest :: x != tasks[0].id && x in Ids(tasks[1..])
    ensures InListOrder(tasks, rest)
    ensures InListOrder(tasks, [tasks[0].id] + rest)
  {
    forall x | x in rest ensures FirstIndex(tasks, x) == Some(FirstIndex(tasks[1..], x).value + 1) {
      FirstIndexShift(tasks, x);
    }
    var r := [tasks[0].id] + rest;
    forall i, j | 0 <= i < j < |r| ensures Before(tasks, r[i], r[j]) {
      assert r[j] == rest[j - 1] && rest[j - 1] in rest;
      if i > 0 {
        assert r[i] == rest[i - 1] && rest[i - 1] in rest;
        assert Before(tasks[1..], rest[i - 1], rest[j - 1]);
      }
    }
    forall i, j | 0 <= i < j < |rest| ensures Before(tasks, rest[i], rest[j]) {
      assert rest[i] in rest && rest[j] in rest;
    }
  }

  /** With unique ids, every firing task is queued once, and the queue keeps the order
      of the list. */
  lemma {:induction false} TasksToRunInOrder(tasks: seq<Task>, now: int, cron: Cron, clock: Clock)
    requires UniqueIds(tasks)
    ensures InListOrder(tasks, TasksToRun(tasks, now, cron, clock))
    decreases |tasks|
  {
    if |tasks| > 0 {
      var rest := TasksToRun(tasks[1..], now, cron, clock);
      assert UniqueIds(tasks[1..]) by {
        forall i, j | 0 <= i < j < |tasks[1..]| ensures tasks[1..][i].id != tasks[1..][j].id {
          assert tasks[1..][i] == tasks[i + 1] && tasks[1..][j] == tasks[j + 1];
        }
      }
      TasksToRunInOrder(tasks[1..], now, cron, clock);
      forall x | x in rest ensures x != tasks[0].id && x in Ids(tasks[1..]) {
        assert x in FiringIds(tasks[1..], now, cron, clock);
        var k :| 0 <= k < |tasks[1..]| && ShouldFire(tasks[1..][k], now, cron, clock) && tasks[1..][k].id == x;
        assert tasks[k + 1].id == x;
      }
      InListOrderCons(tasks, rest);
    }
  }

  /** Queued once: with unique ids, the queue has no repeated id. */
  lemma TasksToRunOnce(tasks: seq<Task>, now: int, cron: Cron, clock: Clock)
    requires UniqueIds(tasks)
    ensures var r := TasksToRun(tasks, now, cron, clock);
      forall i, j :: 0 <= i < j < |r| ==> r[i] != r[j]
  {
    TasksToRunInOrder(tasks, now, cron, clock);
  }

  /** The debounce in plain terms: a parsed last run blocks the task until two full
      seconds have passed, because `num_seconds` truncates 1.999 s to 1. */
  lemma DebounceSpec(t: Task, now: int, clock: Clock)
    ensures DebounceOk(t, now, clock) <==>
      || t.lastRun.None?
      || clock.parse(t.lastRun.value).None?
      || now - clock.parse(t.lastRun.value).value >= 2 * NanosPerSecond
  {
    if t.lastRun.Some? && clock.parse(t.lastRun.value).Some? {
      var d := now - clock.parse(t.lastRun.value).value;
      if d >= 0 {
        assert d / NanosPerSecond > 1 <==> d >= 2 * NanosPerSecond;
      }
    }
  }

  /** A task fires only if the cron library reports an occurrence in the window
      `(now - 2 s, now]`. */
  lemma FireWindow(t: Task, now: int, cron: Cron, clock: Clock)
    requires CronSound(cron)
    requires ShouldFire(t, now, cron, clock)
    ensures cron.after(t.cronExpr, now - LookBack).Some?
    ensures now - LookBack < cron.after(t.cronExpr, now - LookBack).value <= now
  {
  }

  /** Disabled tasks and tasks without an expression ("manual only") never fire. */
  lemma ManualOrDisabledNeverFires(t: Task, now: int, cron: Cron, clock: Clock)
    requires !t.enabled || t.cronExpr == ""
    ensures !ShouldFire(t, now, cron, clock)
  {
  }

  /** A run that finished at `finishedAt` keeps its task from firing again until two
      seconds later, whatever the schedule says; after that, the schedule alone decides. */
  lemma FinishedRunDebounces(
    tasks: seq<Task>, id: string, clock: Clock, cron: Cron,
    finishedAt: int, result: string, now: int)
    requires ClockRoundTrips(clock)
    requires id in Ids(tasks)
    ensures
      var after := RunLifecycle.FinishRun(tasks, id, clock.format(finishedAt), result);
      var k := FirstIndex(tasks, id).value;
      ShouldFire(after[k], now, cron, clock) <==>
        Due(after[k], now, cron) && now - finishedAt >= 2 * NanosPerSecond
  {
    var after := RunLifecycle.FinishRun(tasks, id, clock.format(finishedAt), result);
    var k := FirstIndex(tasks, id).value;
    assert after[k].lastRun == Some(clock.format(finishedAt));
    assert clock.parse(clock.format(finishedAt)) == Some(finishedAt);
    DebounceSpec(after[k], now, clock);
  }

  // ---------------------------------------------------------------------------
  // a run still going at the next tick

  /** As written, `last_run` is written only when a run finishes, and the run's start
      changes only the result. So a task whose run is still going one tick later is
      queued again while its occurrence is still the next one in the window. */
  lemma RunningTaskQueuedAgain(tasks: seq<Task>, id: string, now: int, cron: Cron, clock: Clock)
    requires id in Ids(tasks)
    requires
      var t := tasks[FirstIndex(tasks, id).value];
      && ShouldFire(t, now, cron, clock)
      && DebounceOk(t, now + NanosPerSecond, clock)
      && cron.after(t.cronExpr, now + NanosPerSecond - LookBack) == cron.after(t.cronExpr, now - LookBack)
    ensures id in TasksToRun(tasks, now, cron, clock)
    ensures id in TasksToRun(RunLifecycle.BeginRun(tasks, id).tasks, now + NanosPerSecond, cron, clock)
  {
    var k := FirstIndex(tasks, id).value;
    var marked := RunLifecycle.BeginRun(tasks, id).tasks;
    assert tasks[k].id == id && id in FiringIds(tasks, now, cron, clock);
    assert marked[k] == tasks[k].(lastResult := Some(RunningMarker));
    assert ShouldFire(marked[k], now + NanosPerSecond, cron, clock);
    assert marked[k].id == id && id in FiringIds(marked, now + NanosPerSecond, cron, clock);
  }

  const Minute: int := 60 * NanosPerSecond

  /** A schedule firing at the start of every minute. */
  function EveryMinute(): Cron {
    Cron(e => true, (e, t) => Some((t / Minute + 1) * Minute))
  }

  /** A minutely task with no last run, as first saved. */
  function MinutelyTask(): Task {
    Task("a", "backup", "0 * * * * *", "backup.bat", true, None, None)
  }

  /** The minutely task is queued at 60.5 s and, with its first run marked running, again
      at 61.5 s for the same occurrence at 60 s. */
  lemma SameMinuteStartedTwice(clock: Clock)
    ensures TasksToRun([MinutelyTask()], Minute + NanosPerSecond / 2, EveryMinute(), clock) == ["a"]
    ensures
      var marked := RunLifecycle.BeginRun([MinutelyTask()], "a").tasks;
      TasksToRun(marked, Minute + 3 * NanosPerSecond / 2, EveryMinute(), clock) == ["a"]
  {
    var marked := RunLifecycle.BeginRun([MinutelyTask()], "a").tasks;
    assert marked[0] == MinutelyTask().(lastResult := Some(RunningMarker));
    assert marked == [marked[0]];
  }

  /** A task the tick queues, with `now` written as its last run. */
  function Stamp(t: Task, now: int, cron: Cron, clock: Clock): Task {
    if ShouldFire(t, now, cron, clock) then t.(lastRun := Some(clock.format(now))) else t
  }

  /** The tick with `last_run` written under the lock as it queues a task, which is what
      the loop's own comment expects to prevent a double start: the stamped list and the
      queued ids. */
  function TickCorrected(tasks: seq<Task>, now: int, cron: Cron, clock: Clock): (r: (seq<Task>, seq<string>))
    ensures r.1 == TasksToRun(tasks, now, cron, clock)
    ensures |r.0| == |tasks|
    ensures forall k :: 0 <= k < |tasks| && ShouldFire(tasks[k], now, cron, clock) ==>
      r.0[k] == tasks[k].(lastRun := Some(clock.format(now)))
    ensures forall k :: 0 <= k < |tasks| && !ShouldFire(tasks[k], now, cron, clock) ==> r.0[k] == tasks[k]
  {
    (seq(|tasks|, k requires 0 <= k < |tasks| => Stamp(tasks[k], now, cron, clock)),
     TasksToRun(tasks, now, cron, clock))
  }

  /** With the corrected tick, a task it queues does not fire again until a later
      occurrence: any later tick that fires it sees a next occurrence after `now`, and
      so after the one that fired. The run's "Running..." marker does not change this,
      since the tick rule never reads the result. */
  lemma CorrectedTickStartsOccurrenceOnce(
    tasks: seq<Task>, now: int, cron: Cron, clock: Clock, k: nat, later: int)
    requires CronSound(cron) && ClockRoundTrips(clock)
    requires k < |tasks| && ShouldFire(tasks[k], now, cron, clock)
    requires now <= later
    ensures
      var t := TickCorrected(tasks, now, cron, clock).0[k].(lastResult := Some(RunningMarker));
      ShouldFire(t, later, cron, clock) ==>
        cron.after(t.cronExpr, later - LookBack).value > cron.after(t.cronExpr, now - LookBack).value
  {
    var t := TickCorrected(tasks, now, cron, clock).0[k].(lastResult := Some(RunningMarker));
    assert t.lastRun == Some(clock.format(now)) && t.cronExpr == tasks[k].cronExpr;
    assert clock.parse(clock.format(now)) == Some(now);
    if later < now + LookBack {
      assert NumSeconds(later - now) <= 1;
    }
  }

  /** The minutely task under the corrected tick: queued at 60.5 s and not again at
      61.5 s. */
  lemma SameMinuteStartedOnce(clock: Clock)
    requires ClockRoundTrips(clock)
    ensures TickCorrected([MinutelyTask()], Minute + NanosPerSecond / 2, EveryMinute(), clock).1 == ["a"]
    ensures
      var stamped := TickCorrected([MinutelyTask()], Minute + NanosPerSecond / 2, EveryMinute(), clock).0;
      var marked := RunLifecycle.BeginRun(stamped, "a").tasks;
      TasksToRun(marked, Minute + 3 * NanosPerSecond / 2, EveryMinute(), clock) == []
  {
    var now := Minute + NanosPerSecond / 2;
    SameMinuteStartedTwice(clock);
    var stamped := TickCorrected([MinutelyTask()], now, EveryMinute(), clock).0;
    assert ShouldFire(MinutelyTask(), now, EveryMinute(), clock);
    assert stamped[0] == MinutelyTask().(lastRun := Some(clock.format(now)));
    var marked := RunLifecycle.BeginRun(stamped, "a").tasks;
    assert marked[0] == stamped[0].(lastResult := Some(RunningMarker));
    assert marked == [marked[0]];
    assert clock.parse(clock.format(now)) == Some(now);
    assert !ShouldFire(marked[0], Minute + 3 * NanosPerSecond / 2, EveryMinute(), clock);
  }
}

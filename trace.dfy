/** Sequences of handler runs. The engine runs each trigger (a user action or
    a timer tick) to completion before the next, so a history is a list of
    actions, each with the clock reading at which it ran. */
module Trace {
  import opened Config
  import opened Tasks
  import opened JsText
  import opened Heat
  import opened Lifecycle
  import opened Actions

  datatype Action =
    | Add(title: string, newId: TaskId)
    | TouchIt(id: TaskId)
    | CompleteIt(id: TaskId)
    | KillIt(id: TaskId)
    | ResurrectIt(id: TaskId)
    | Tick

  datatype Event = Event(action: Action, now: int)

  function Step(s: State, a: Action, now: int): (r: State) {
    match a
    case Add(title, id) => AddTask(s, title, id, now)
    case TouchIt(id) => Touch(s, id, now)
    case CompleteIt(id) => Complete(s, id, now)
    case KillIt(id) => Kill(s, id, now)
    case ResurrectIt(id) => Resurrect(s, id, now)
    case Tick => Sweep(s, now)
  }

  function Run(s: State, events: seq<Event>): (r: State)
    decreases |events|
  {
    if events == [] then s else Run(Step(s, events[0].action, events[0].now), events[1..])
  }

  /** The `CONFIG` score effect of one action: +10 for a completion, -5 for
      a kill, -2 for a resurrection, -5 for each natural death in a sweep,
      and nothing for an action that does not take effect. */
  function ScoreDelta(s: State, a: Action, now: int): (d: int) {
    match a
    case Add(_, _) => 0
    case TouchIt(_) => 0
    case CompleteIt(id) => if HasId(s.tasks, id) then 10 else 0
    case KillIt(id) => if HasId(s.tasks, id) then -5 else 0
    case ResurrectIt(id) => if CanResurrect(s.tasks, id) then -2 else 0
    case Tick => -5 * Deaths(s.tasks, now)
  }

  /** The `CONFIG` deltas added up along a history. */
  function TotalDelta(s: State, events: seq<Event>): (d: int)
    decreases |events|
  {
    if events == [] then 0
    else
      var e := events[0];
      ScoreDelta(s, e.action, e.now) + TotalDelta(Step(s, e.action, e.now), events[1..])
  }

  /** Each action moves the score by exactly its `CONFIG` delta. */
  lemma StepScore(s: State, a: Action, now: int)
    ensures Step(s, a, now).score == s.score + ScoreDelta(s, a, now)
  {
  }

  /** The score after any history is the starting score plus the `CONFIG`
      deltas of its actions, in order, with no drift. */
  lemma {:induction false} RunScore(s: State, events: seq<Event>)
    ensures Run(s, events).score == s.score + TotalDelta(s, events)
    decreases |events|
  {
    if events != [] {
      var e := events[0];
      StepScore(s, e.action, e.now);
      RunScore(Step(s, e.action, e.now), events[1..]);
    }
  }

  predicate StampIn(stamp: Option<int>, from: int, upTo: int) {
    stamp.Some? ==> from <= stamp.value <= upTo
  }

  /** A record consistent with a clock that reads `now`: its stamps lie
      between its creation and now, the last touch is not before creation,
      and the stamp of its current status is set. */
  predicate WellFormed(t: Task, now: int) {
    && t.createdAt <= t.lastUpdatedAt <= now
    && StampIn(t.purgatoryAt, t.createdAt, now)
    && StampIn(t.diedAt, t.createdAt, now)
    && StampIn(t.completedAt, t.createdAt, now)
    && StampIn(t.resurrectedAt, t.createdAt, now)
    && (t.status == Purgatory ==> t.purgatoryAt.Some?)
    && (t.status == Dead ==> t.diedAt.Some?)
    && (t.status == Completed ==> t.completedAt.Some?)
  }

  predicate AllWellFormed(ts: seq<Task>, now: int) {
    forall k :: 0 <= k < |ts| ==> WellFormed(ts[k], now)
  }

  lemma WellFormedLater(t: Task, now: int, later: int)
    requires WellFormed(t, now) && now <= later
    ensures WellFormed(t, later)
  {
  }

  /** What a step does to the list, position by position: the tasks that
      were there keep their place, id and creation time, their last touch
      does not move back. */
  predicate KeepsTasks(ts: seq<Task>, us: seq<Task>) {
    && |ts| <= |us|
    && forall k :: 0 <= k < |ts| ==>
         && us[k].id == ts[k].id && us[k].createdAt == ts[k].createdAt
         && us[k].lastUpdatedAt >= ts[k].lastUpdatedAt
  }

  /** Replacing one consistent record by another with the same id and
      creation time, and no earlier last touch, keeps the list consistent. */
  lemma ReplaceKeepsWellFormed(ts: seq<Task>, i: nat, t: Task, later: int)
    requires i < |ts| && AllWellFormed(ts, later) && WellFormed(t, later)
    requires t.id == ts[i].id && t.createdAt == ts[i].createdAt
    requires t.lastUpdatedAt >= ts[i].lastUpdatedAt
    ensures AllWellFormed(ts[i := t], later) && KeepsTasks(ts, ts[i := t])
  {
  }

  lemma AddKeepsWellFormed(s: State, title: string, id: TaskId, later: int)
    requires AllWellFormed(s.tasks, later)
    ensures AllWellFormed(AddTask(s, title, id, later).tasks, later)
    ensures KeepsTasks(s.tasks, AddTask(s, title, id, later).tasks)
  {
    var ts, us := s.tasks, AddTask(s, title, id, later).tasks;
    if !AllWhitespace(title) {
      forall k | 0 <= k < |us| ensures WellFormed(us[k], later) {
        if k < |ts| { assert us[k] == us[..|ts|][k]; }
      }
      forall k | 0 <= k < |ts| ensures us[k] == ts[k] {
        assert us[k] == us[..|ts|][k];
      }
    }
  }

  lemma TouchKeepsWellFormed(s: State, id: TaskId, later: int)
    requires AllWellFormed(s.tasks, later)
    ensures AllWellFormed(Touch(s, id, later).tasks, later)
    ensures KeepsTasks(s.tasks, Touch(s, id, later).tasks)
  {
    var ts := s.tasks;
    if HasId(ts, id) {
      var i := FindIndex(ts, id).value;
      ReplaceKeepsWellFormed(ts, i, ts[i].(status := Active, lastUpdatedAt := later), later);
    }
  }

  lemma CompleteKeepsWellFormed(s: State, id: TaskId, later: int)
    requires AllWellFormed(s.tasks, later)
    ensures AllWellFormed(Complete(s, id, later).tasks, later)
    ensures KeepsTasks(s.tasks, Complete(s, id, later).tasks)
  {
    var ts := s.tasks;
    if HasId(ts, id) {
      var i := FindIndex(ts, id).value;
      ReplaceKeepsWellFormed(ts, i, ts[i].(status := Completed, completedAt := Some(later)), later);
    }
  }

  lemma KillKeepsWellFormed(s: State, id: TaskId, later: int)
    requires AllWellFormed(s.tasks, later)
    ensures AllWellFormed(Kill(s, id, later).tasks, later)
    ensures KeepsTasks(s.tasks, Kill(s, id, later).tasks)
  {
    var ts := s.tasks;
    if HasId(ts, id) {
      var i := FindIndex(ts, id).value;
      ReplaceKeepsWellFormed(ts, i, Killed(ts[i], later), later);
    }
  }

  lemma ResurrectKeepsWellFormed(s: State, id: TaskId, later: int)
    requires AllWellFormed(s.tasks, later)
    ensures AllWellFormed(Resurrect(s, id, later).tasks, later)
    ensures KeepsTasks(s.tasks, Resurrect(s, id, later).tasks)
  {
    var ts := s.tasks;
    if CanResurrect(ts, id) {
      var i := FindIndex(ts, id).value;
      ReplaceKeepsWellFormed(ts, i,
        ts[i].(status := Active, lastUpdatedAt := later, resurrectedAt := Some(later)), later);
    }
  }

  lemma SweepKeepsWellFormed(s: State, later: int)
    requires AllWellFormed(s.tasks, later)
    ensures AllWellFormed(Sweep(s, later).tasks, later)
    ensures KeepsTasks(s.tasks, Sweep(s, later).tasks)
  {
    var ts, us := s.tasks, Sweep(s, later).tasks;
    forall k | 0 <= k < |ts| ensures WellFormed(us[k], later) {
      assert us[k] == Advance(ts[k], later);
    }
  }

  /** With a clock that does not run backwards, every action keeps every
      record consistent (so a dead task always has a death stamp no earlier
      than its creation), keeps each task at its place with its id, and never
      moves a last-touch stamp back. */
  lemma StepKeepsWellFormed(s: State, a: Action, now: int, later: int)
    requires AllWellFormed(s.tasks, now) && now <= later
    ensures AllWellFormed(Step(s, a, later).tasks, later)
    ensures KeepsTasks(s.tasks, Step(s, a, later).tasks)
  {
    forall k | 0 <= k < |s.tasks| ensures WellFormed(s.tasks[k], later) {
      WellFormedLater(s.tasks[k], now, later);
    }
    match a
    case Add(title, id) => AddKeepsWellFormed(s, title, id, later);
    case TouchIt(id) => TouchKeepsWellFormed(s, id, later);
    case CompleteIt(id) => CompleteKeepsWellFormed(s, id, later);
    case KillIt(id) => KillKeepsWellFormed(s, id, later);
    case ResurrectIt(id) => ResurrectKeepsWellFormed(s, id, later);
    case Tick => SweepKeepsWellFormed(s, later);
  }

  /** One hour in ms, for the scenarios below. */
  const HOUR: int := 60 * 60 * 1000

  /** Adding "Write report" to an empty engine at time 0. */
  lemma ScenarioAdded()
    ensures AddTask(State([], 0, {}), "Write report", "t1", 0)
         == State([NewTask("t1", "Write report", 0)], 0, {})
  {
    var title := "Write report";
    assert !IsWhitespace(title[0]) && !IsWhitespace(title[|title| - 1]);
  }

  /** 24h 1s later the new task is in purgatory and carries the cool warning. */
  lemma ScenarioEntersPurgatory()
    ensures var t := NewTask("t1", "Write report", 0);
      Sweep(State([t], 0, {}), 24 * HOUR + 1000)
        == State([t.(status := Purgatory, purgatoryAt := Some(24 * HOUR + 1000))], 0, {("t1", Cool)})
  {
    var t := NewTask("t1", "Write report", 0);
    var now := 24 * HOUR + 1000;
    assert [t][..0] == [];
    HeatThresholds(now);
    assert SweepWarned([t], {}, now) == StepWarned(t, {}, now) == {("t1", Cool)};
  }

  /** At 48h 1s the task dies: one death, five points lost, both its flags cleared. */
  lemma ScenarioDies()
    ensures var t := NewTask("t1", "Write report", 0).(status := Purgatory, purgatoryAt := Some(24 * HOUR + 1000));
      Sweep(State([t], 0, {("t1", Cool)}), 48 * HOUR + 1000)
        == State([t.(status := Dead, diedAt := Some(48 * HOUR + 1000), deathCount := Some(1))], -5, {})
  {
    var t := NewTask("t1", "Write report", 0).(status := Purgatory, purgatoryAt := Some(24 * HOUR + 1000));
    var now := 48 * HOUR + 1000;
    assert [t][..0] == [];
    assert SweepWarned([t], {("t1", Cool)}, now) == StepWarned(t, {("t1", Cool)}, now) == {};
  }

  /** Resurrected at 50h the task is active again with its clock restarted, at a total of -7. */
  lemma ScenarioResurrected()
    ensures var t := NewTask("t1", "Write report", 0).(status := Dead, purgatoryAt := Some(24 * HOUR + 1000),
                                                       diedAt := Some(48 * HOUR + 1000), deathCount := Some(1));
      Resurrect(State([t], -5, {}), "t1", 50 * HOUR)
        == State([t.(status := Active, lastUpdatedAt := 50 * HOUR, resurrectedAt := Some(50 * HOUR))], -7, {})
  {
    var t := NewTask("t1", "Write report", 0).(status := Dead, purgatoryAt := Some(24 * HOUR + 1000),
                                               diedAt := Some(48 * HOUR + 1000), deathCount := Some(1));
    assert FindIndex([t], "t1") == Some(0);
  }

  /** A task left alone: created at 0, in purgatory after 24h 1s with the
      score unchanged, dead after 48h 1s with one death and -5, and back to
      active on resurrection at a total of -7. */
  lemma ScenarioDecayAndResurrect()
    ensures var s0 := AddTask(State([], 0, {}), "Write report", "t1", 0);
      var s1 := Sweep(s0, 24 * HOUR + 1000);
      var s2 := Sweep(s1, 48 * HOUR + 1000);
      var s3 := Resurrect(s2, "t1", 50 * HOUR);
      && s1.tasks[0].status == Purgatory && s1.tasks[0].purgatoryAt == Some(24 * HOUR + 1000)
      && s1.score == 0
      && s2.tasks[0].status == Dead && s2.tasks[0].deathCount == Some(1) && s2.score == -5
      && s3.tasks[0].status == Active && s3.tasks[0].lastUpdatedAt == 50 * HOUR && s3.score == -7
  {
    ScenarioAdded();
    ScenarioEntersPurgatory();
    ScenarioDies();
    ScenarioResurrected();
  }

  /** A task completed at once earns +10 and no sweep, however late, moves it. */
  lemma ScenarioCompleteIsFinal(later: int)
    ensures var s0 := AddTask(State([], 0, {}), "Write report", "t1", 0);
      var s1 := Complete(s0, "t1", 0);
      && s1.score == 10 && s1.tasks[0].status == Completed
      && Sweep(s1, later).tasks == s1.tasks && Sweep(s1, later).score == 10
  {
    var title := "Write report";
    assert !IsWhitespace(title[0]);
    var s0 := AddTask(State([], 0, {}), title, "t1", 0);
    var s1 := Complete(s0, "t1", 0);
    assert FindIndex(s0.tasks, "t1") == Some(0);
    assert Deaths(s1.tasks, later) == 0;
  }

  /** A touch at 23h restarts the clock: at 24h 1s the task is still active. */
  lemma ScenarioTouchResets()
    ensures var s0 := AddTask(State([], 0, {}), "Write report", "t1", 0);
      var s1 := Touch(s0, "t1", 23 * HOUR);
      Sweep(s1, 24 * HOUR + 1000).tasks[0].status == Active
  {
    var title := "Write report";
    assert !IsWhitespace(title[0]);
    var s0 := AddTask(State([], 0, {}), title, "t1", 0);
    assert FindIndex(s0.tasks, "t1") == Some(0);
  }
}

/** The user actions of app.js (`addTask`, `touchTask`, `completeTask`,
    `killTask`, `resurrectTask`) as functions of the engine's state. Each finds
    its task by id, changes that one record and applies at most one score
    delta; an unknown id (or a blank title) leaves the state as it was. For
    `completeTask` and `killTask` this is the step the deferred callback
    commits. */
module Actions {
  import opened Config
  import opened Tasks
  import opened JsText
  import opened Heat
  import opened Lifecycle

  /** `addTask(title)` with the fresh id and the clock reading as parameters. */
  function AddTask(s: State, title: string, id: TaskId, now: int): (r: State)
    ensures AllWhitespace(title) ==> r == s
    ensures !AllWhitespace(title) ==>
      && |r.tasks| == |s.tasks| + 1 && r.tasks[..|s.tasks|] == s.tasks
      && r.tasks[|s.tasks|] == NewTask(id, Trim(title), now)
      && r.score == s.score && r.warned == s.warned
  {
    TrimEmptyIff(title);
    var t := Trim(title);
    if t == [] then s
    else
      assert (s.tasks + [NewTask(id, t, now)])[..|s.tasks|] == s.tasks;
      s.(tasks := s.tasks + [NewTask(id, t, now)])
  }

  /** `touchTask(id)`: the task found is made active whatever its status, its
      decay clock restarts now and both its warning flags are cleared. */
  function Touch(s: State, id: TaskId, now: int): (r: State)
    ensures r.score == s.score && |r.tasks| == |s.tasks|
    ensures !HasId(s.tasks, id) ==> r == s
    ensures HasId(s.tasks, id) ==>
      var i := FindIndex(s.tasks, id).value;
      && r.tasks == s.tasks[i := s.tasks[i].(status := Active, lastUpdatedAt := now)]
      && r.warned == s.warned - {(id, Cool), (id, Cold)}
  {
    match FindIndex(s.tasks, id)
    case None => s
    case Some(i) =>
      var t := s.tasks[i];
      s.(tasks := s.tasks[i := t.(lastUpdatedAt := now, status := Active)],
         warned := s.warned - {(t.id, Cool)} - {(t.id, Cold)})
  }

  /** The committed step of `completeTask(id)`: completed, stamped, +10. The
      previous status is not looked at. */
  function Complete(s: State, id: TaskId, now: int): (r: State)
    ensures r.warned == s.warned && |r.tasks| == |s.tasks|
    ensures !HasId(s.tasks, id) ==> r == s
    ensures HasId(s.tasks, id) ==>
      var i := FindIndex(s.tasks, id).value;
      && r.tasks == s.tasks[i := s.tasks[i].(status := Completed, completedAt := Some(now))]
      && r.score == s.score + POINTS_COMPLETE
  {
    match FindIndex(s.tasks, id)
    case None => s
    case Some(i) =>
      var t := s.tasks[i];
      s.(tasks := s.tasks[i := t.(status := Completed, completedAt := Some(now))],
         score := s.score + POINTS_COMPLETE)
  }

  /** The record a kill leaves: dead and stamped, every other field untouched. */
  function Killed(t: Task, now: int): (r: Task)
    ensures r.status == Dead && r.diedAt == Some(now) && r.deathCount == t.deathCount
    ensures r.id == t.id && r.title == t.title && r.createdAt == t.createdAt
    ensures r.lastUpdatedAt == t.lastUpdatedAt && r.purgatoryAt == t.purgatoryAt
    ensures r.completedAt == t.completedAt && r.resurrectedAt == t.resurrectedAt
  {
    t.(status := Dead, diedAt := Some(now))
  }

  /** The committed step of `killTask(id)`: dead, stamped, -5, and (unlike a
      natural death) neither the death count nor the warned set changes. */
  function Kill(s: State, id: TaskId, now: int): (r: State)
    ensures r.warned == s.warned && |r.tasks| == |s.tasks|
    ensures !HasId(s.tasks, id) ==> r == s
    ensures HasId(s.tasks, id) ==>
      var i := FindIndex(s.tasks, id).value;
      && r.tasks == s.tasks[i := Killed(s.tasks[i], now)]
      && r.score == s.score + POINTS_DEATH
  {
    match FindIndex(s.tasks, id)
    case None => s
    case Some(i) =>
      s.(tasks := s.tasks[i := Killed(s.tasks[i], now)], score := s.score + POINTS_DEATH)
  }

  /** Whether `resurrectTask(id)` acts: the id is known and its task is dead. */
  predicate CanResurrect(ts: seq<Task>, id: TaskId) {
    HasId(ts, id) && ts[FindIndex(ts, id).value].status == Dead
  }

  /** `resurrectTask(id)`: only a dead task comes back, active, with its decay
      clock restarted now, at a cost of 2 points; anything else is a no-op. */
  function Resurrect(s: State, id: TaskId, now: int): (r: State)
    ensures r.warned == s.warned && |r.tasks| == |s.tasks|
    ensures !CanResurrect(s.tasks, id) ==> r == s
    ensures CanResurrect(s.tasks, id) ==>
      var i := FindIndex(s.tasks, id).value;
      && r.tasks == s.tasks[i := s.tasks[i].(status := Active, lastUpdatedAt := now, resurrectedAt := Some(now))]
      && r.score == s.score + POINTS_RESURRECT
  {
    match FindIndex(s.tasks, id)
    case None => s
    case Some(i) =>
      var t := s.tasks[i];
      if t.status != Dead then s
      else
        s.(tasks := s.tasks[i := t.(status := Active, lastUpdatedAt := now, resurrectedAt := Some(now))],
           score := s.score + POINTS_RESURRECT)
  }

  /** A task just touched is at full heat with no warning flags, and no sweep
      before another 24 hours have passed moves it, wherever it was before. */
  lemma TouchRefreshes(s: State, id: TaskId, now: int, later: int)
    requires HasId(s.tasks, id) && now <= later < now + PURGATORY_MS
    ensures var i, r := FindIndex(s.tasks, id).value, Touch(s, id, now);
      && r.tasks[i].status == Active && r.tasks[i].id == id
      && HeatLevel(Elapsed(r.tasks[i], now)) == 1.0
      && (id, Cool) !in r.warned && (id, Cold) !in r.warned
      && Advance(r.tasks[i], later) == r.tasks[i]
  {
  }

  /** Touching twice at the same moment is the same as touching once. */
  lemma TouchIdempotent(s: State, id: TaskId, now: int)
    ensures Touch(Touch(s, id, now), id, now) == Touch(s, id, now)
  {
    var r := Touch(s, id, now);
    if HasId(s.tasks, id) {
      var i := FindIndex(s.tasks, id).value;
      FindIndexSameIds(s.tasks, r.tasks, id);
      assert r.tasks[i := r.tasks[i].(status := Active, lastUpdatedAt := now)] == r.tasks;
    }
  }

  /** A second resurrection in a row finds the task active and does nothing:
      no second penalty. */
  lemma ResurrectOnce(s: State, id: TaskId, now: int, later: int)
    ensures Resurrect(Resurrect(s, id, now), id, later) == Resurrect(s, id, now)
  {
    var r := Resurrect(s, id, now);
    FindIndexSameIds(s.tasks, r.tasks, id);
  }

  /** A completed task is out of the lifecycle: no later sweep changes it. */
  lemma CompletedIsFinal(s: State, id: TaskId, now: int, later: int)
    requires HasId(s.tasks, id)
    ensures var i, r := FindIndex(s.tasks, id).value, Complete(s, id, now);
      && r.tasks[i].status == Completed && r.tasks[i].completedAt == Some(now)
      && Sweep(r, later).tasks[i] == r.tasks[i]
  {
  }

  /** The one asymmetry between the two ways to die: the sweep adds a death
      to the count, a kill leaves the count as it was. Both stamp the time
      and cost the same 5 points. */
  lemma KillVersusNaturalDeath(t: Task, now: int)
    requires Dies(t, now)
    ensures DeathCount(Advance(t, now)) == DeathCount(t) + 1
    ensures DeathCount(Killed(t, now)) == DeathCount(t)
    ensures Advance(t, now).status == Killed(t, now).status == Dead
    ensures Advance(t, now).diedAt == Killed(t, now).diedAt == Some(now)
  {
  }

  /** Every action but `addTask` keeps each task's id at its place, and
      `addTask` only appends; so ids stay unique when the new id is fresh. */
  lemma ActionsKeepIds(s: State, id: TaskId, title: string, now: int)
    requires UniqueIds(s.tasks)
    ensures UniqueIds(Touch(s, id, now).tasks)
    ensures UniqueIds(Complete(s, id, now).tasks)
    ensures UniqueIds(Kill(s, id, now).tasks)
    ensures UniqueIds(Resurrect(s, id, now).tasks)
    ensures !HasId(s.tasks, id) ==> UniqueIds(AddTask(s, title, id, now).tasks)
  {
    var ts := s.tasks;
    if HasId(ts, id) {
      var i := FindIndex(ts, id).value;
      SameIdsKeepUnique(ts, Touch(s, id, now).tasks);
      SameIdsKeepUnique(ts, Complete(s, id, now).tasks);
      SameIdsKeepUnique(ts, Kill(s, id, now).tasks);
      SameIdsKeepUnique(ts, Resurrect(s, id, now).tasks);
    }
    if !HasId(ts, id) {
      AppendKeepsUnique(ts, AddTask(s, title, id, now).tasks, id);
    }
  }

  /** Appending a task whose id is new keeps ids unique. */
  lemma AppendKeepsUnique(ts: seq<Task>, us: seq<Task>, id: TaskId)
    requires UniqueIds(ts) && !HasId(ts, id)
    requires us == ts || (|us| == |ts| + 1 && us[..|ts|] == ts && us[|ts|].id == id)
    ensures UniqueIds(us)
  {
    if us != ts {
      forall a, b | 0 <= a < b < |us| ensures us[a].id != us[b].id {
        assert us[a] == us[..|ts|][a];
        if b < |ts| { assert us[b] == us[..|ts|][b]; }
      }
    }
  }

  lemma SameIdsKeepUnique(ts: seq<Task>, us: seq<Task>)
    requires UniqueIds(ts) && |us| == |ts|
    requires forall k :: 0 <= k < |ts| ==> us[k].id == ts[k].id
    ensures UniqueIds(us)
  {
  }
}

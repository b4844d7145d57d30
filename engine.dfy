/** The lifecycle engine as app.js runs it: one object owning the task list,
    the score and the warned set, whose handlers change them in place. Each
    handler is proved to leave exactly the state given by the matching
    function of the Lifecycle and Actions modules. */
module Engine {
  import opened Config
  import opened Tasks
  import opened Heat
  import opened Lifecycle
  import opened Actions

  class LifecycleEngine {
    var tasks: seq<Task>
    var score: int
    var warned: Warned

    /** Ids handed out by the id generator are never reused. */
    ghost predicate Valid()
      reads this
    {
      UniqueIds(tasks)
    }

    /** The engine's state as a value. */
    function Snapshot(): (s: State)
      reads this
    {
      State(tasks, score, warned)
    }

    /** A fresh engine: no tasks, score 0, nothing warned (what `load` yields
        when nothing was saved). */
    constructor ()
      ensures Valid() && Snapshot() == State([], 0, {})
    {
      tasks := [];
      score := 0;
      warned := {};
    }

    /** `updateScore(delta)`, its score part. */
    method UpdateScore(delta: int)
      modifies this`score
      ensures score == old(score) + delta
    {
      score := score + delta;
    }

    /** The body of the sweep's loop for the task at position `i`: the
        warning check, then the move to purgatory, then the move to death.
        Reports whether the task entered purgatory and whether it died. */
    method VisitTask(i: nat, now: int) returns (entered: bool, died: bool)
      requires i < |tasks|
      modifies this
      ensures Snapshot() == Visit(old(Snapshot()), i, now)
      ensures entered == EntersPurgatory(old(tasks)[i], now)
      ensures died == Dies(old(tasks)[i], now)
    {
      var task := tasks[i];
      entered, died := false, false;
      if task.status == Completed || task.status == Dead {
        return;
      }
      var elapsed := now - task.lastUpdatedAt;
      var heat := HeatLevel(elapsed);
      if task.status == Active {
        if heat <= WARN_COLD_THRESHOLD && (task.id, Cold) !in warned {
          warned := warned + {(task.id, Cold)};
        } else if heat <= WARN_COOL_THRESHOLD && (task.id, Cool) !in warned {
          warned := warned + {(task.id, Cool)};
        }
      }
      if task.status == Active && elapsed >= PURGATORY_MS {
        task := task.(status := Purgatory, purgatoryAt := Some(now));
        entered := true;
      }
      if task.status == Purgatory && elapsed >= DEATH_MS {
        task := task.(status := Dead, diedAt := Some(now), deathCount := Some(DeathCount(task) + 1));
        died := true;
        UpdateScore(POINTS_DEATH);
        warned := warned - {(task.id, Cool)} - {(task.id, Cold)};
      }
      tasks := tasks[i := task];
    }

    /** The loop of `checkLifecycle()`: every task visited once, in list
        order. Reports whether anything changed, whether some task died and
        whether some task entered purgatory. */
    method VisitAll(now: int) returns (changed: bool, somethingDied: bool, somethingPurgatory: bool)
      modifies this
      ensures Snapshot() == SweepUpTo(old(Snapshot()), now, |old(tasks)|)
      ensures somethingDied <==> exists k :: 0 <= k < |old(tasks)| && Dies(old(tasks)[k], now)
      ensures somethingPurgatory <==> exists k :: 0 <= k < |old(tasks)| && EntersPurgatory(old(tasks)[k], now)
      ensures changed <==> somethingDied || somethingPurgatory
    {
      ghost var s0 := Snapshot();
      ghost var ts0 := tasks;
      changed, somethingDied, somethingPurgatory := false, false, false;
      var i := 0;
      while i < |tasks|
        invariant 0 <= i <= |ts0| == |tasks|
        invariant Snapshot() == SweepUpTo(s0, now, i)
        invariant somethingDied <==> exists k :: 0 <= k < i && Dies(ts0[k], now)
        invariant somethingPurgatory <==> exists k :: 0 <= k < i && EntersPurgatory(ts0[k], now)
        invariant changed <==> somethingDied || somethingPurgatory
      {
        SweepUpToUnvisited(s0, now, i);
        var entered, died := VisitTask(i, now);
        changed := changed || entered || died;
        somethingPurgatory := somethingPurgatory || entered;
        somethingDied := somethingDied || died;
        i := i + 1;
      }
    }

    /** `checkLifecycle()` with the clock reading `now`. Reports whether
        anything changed state (the cue to save and redraw) and which single
        notice to give. */
    method CheckLifecycle(now: int) returns (changed: bool, notice: Notice)
      requires Valid()
      modifies this
      ensures Valid()
      ensures Snapshot() == Sweep(old(Snapshot()), now)
      ensures changed == Changed(old(tasks), now)
      ensures notice == NoticeOf(old(tasks), now)
    {
      ghost var s0 := Snapshot();
      var somethingDied, somethingPurgatory;
      changed, somethingDied, somethingPurgatory := VisitAll(now);
      SweepUpToComplete(s0, now);
      SweepKeepsIds(s0.tasks, now);
      DeathsPositiveIff(s0.tasks, now);
      EnteredPositiveIff(s0.tasks, now);
      notice := if somethingDied then Died else if somethingPurgatory then EnteredPurgatory else Quiet;
    }

    /** `addTask(title)`, with the id the generator hands out (one no task
        has) and the clock reading. Reports whether a task was added. */
    method AddTask(title: string, id: TaskId, now: int) returns (added: bool)
      requires Valid() && !HasId(tasks, id)
      modifies this
      ensures Valid()
      ensures Snapshot() == Actions.AddTask(old(Snapshot()), title, id, now)
      ensures added <==> !JsText.AllWhitespace(title)
    {
      ActionsKeepIds(Snapshot(), id, title, now);
      var t := JsText.Trim(title);
      JsText.TrimEmptyIff(title);
      if t == [] {
        added := false;
        return;
      }
      tasks := tasks + [NewTask(id, t, now)];
      added := true;
    }

    /** `touchTask(id)`; reports whether the id was found. */
    method TouchTask(id: TaskId, now: int) returns (found: bool)
      requires Valid()
      modifies this
      ensures Valid()
      ensures Snapshot() == Touch(old(Snapshot()), id, now)
      ensures found <==> HasId(old(tasks), id)
    {
      ActionsKeepIds(Snapshot(), id, [], now);
      var r := FindIndex(tasks, id);
      if r.None? {
        found := false;
        return;
      }
      var i := r.value;
      tasks := tasks[i := tasks[i].(lastUpdatedAt := now, status := Active)];
      warned := warned - {(tasks[i].id, Cool)} - {(tasks[i].id, Cold)};
      found := true;
    }

    /** The committed step of `completeTask(id)`; reports whether the id was found. */
    method CompleteTask(id: TaskId, now: int) returns (found: bool)
      requires Valid()
      modifies this
      ensures Valid()
      ensures Snapshot() == Complete(old(Snapshot()), id, now)
      ensures found <==> HasId(old(tasks), id)
    {
      ActionsKeepIds(Snapshot(), id, [], now);
      var r := FindIndex(tasks, id);
      if r.None? {
        found := false;
        return;
      }
      var i := r.value;
      tasks := tasks[i := tasks[i].(status := Completed, completedAt := Some(now))];
      UpdateScore(POINTS_COMPLETE);
      found := true;
    }

    /** The committed step of `killTask(id)`; reports whether the id was found. */
    method KillTask(id: TaskId, now: int) returns (found: bool)
      requires Valid()
      modifies this
      ensures Valid()
      ensures Snapshot() == Kill(old(Snapshot()), id, now)
      ensures found <==> HasId(old(tasks), id)
    {
      ActionsKeepIds(Snapshot(), id, [], now);
      var r := FindIndex(tasks, id);
      if r.None? {
        found := false;
        return;
      }
      var i := r.value;
      tasks := tasks[i := tasks[i].(status := Dead, diedAt := Some(now))];
      UpdateScore(POINTS_DEATH);
      found := true;
    }

    /** `resurrectTask(id)`; reports whether a dead task came back. */
    method ResurrectTask(id: TaskId, now: int) returns (revived: bool)
      requires Valid()
      modifies this
      ensures Valid()
      ensures Snapshot() == Resurrect(old(Snapshot()), id, now)
      ensures revived <==> CanResurrect(old(tasks), id)
    {
      ActionsKeepIds(Snapshot(), id, [], now);
      var r := FindIndex(tasks, id);
      if r.None? || tasks[r.value].status != Dead {
        revived := false;
        return;
      }
      var i := r.value;
      tasks := tasks[i := tasks[i].(status := Active, lastUpdatedAt := now, resurrectedAt := Some(now))];
      UpdateScore(POINTS_RESURRECT);
      revived := true;
    }
  }
}

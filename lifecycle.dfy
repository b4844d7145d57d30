/** The periodic sweep (app.js `checkLifecycle`) as functions of the task list:
    what one task becomes, which warnings it raises, and what the whole sweep
    does to the list, the warned set and the score. The engine's loop is
    proved to compute exactly these. */
module Lifecycle {
  import opened Config
  import opened Tasks
  import opened Heat

  /** Time since the last touch, as the sweep measures it. */
  function Elapsed(t: Task, now: int): (e: int) {
    now - t.lastUpdatedAt
  }

  /** The sweep moves this task into purgatory: it is active and 24 hours
      have passed since its last touch. */
  predicate EntersPurgatory(t: Task, now: int) {
    t.status == Active && Elapsed(t, now) >= PURGATORY_MS
  }

  /** The sweep kills this task: it is active or in purgatory and 48 hours
      have passed since its last touch (an active task passes through
      purgatory on the way, in the same sweep). */
  predicate Dies(t: Task, now: int) {
    (t.status == Active || t.status == Purgatory) && Elapsed(t, now) >= DEATH_MS
  }

  /** What the sweep does to one task record. */
  function Advance(t: Task, now: int): (r: Task)
    ensures r.id == t.id && r.title == t.title && r.createdAt == t.createdAt
    ensures r.lastUpdatedAt == t.lastUpdatedAt
    ensures r.completedAt == t.completedAt && r.resurrectedAt == t.resurrectedAt
    ensures !EntersPurgatory(t, now) && !Dies(t, now) ==> r == t
    ensures EntersPurgatory(t, now) ==> r.purgatoryAt == Some(now)
    ensures !EntersPurgatory(t, now) ==> r.purgatoryAt == t.purgatoryAt
    ensures EntersPurgatory(t, now) && !Dies(t, now) ==> r.status == Purgatory
    ensures Dies(t, now) ==>
      && r.status == Dead && r.diedAt == Some(now)
      && r.deathCount.Some? && DeathCount(r) == DeathCount(t) + 1
    ensures !Dies(t, now) ==> r.diedAt == t.diedAt && r.deathCount == t.deathCount
  {
    if t.status == Completed || t.status == Dead then t
    else
      var elapsed := now - t.lastUpdatedAt;
      var t1 := if t.status == Active && elapsed >= PURGATORY_MS
        then t.(status := Purgatory, purgatoryAt := Some(now))
        else t;
      if t1.status == Purgatory && elapsed >= DEATH_MS
      then t1.(status := Dead, diedAt := Some(now), deathCount := Some(DeathCount(t1) + 1))
      else t1
  }

  /** What the sweep does to the warned set while it visits one task: an
      active task gives the cold warning once its heat is at most 0.25, or
      else the cool warning once its heat is at most 0.5, each only if not
      already given; a task that dies loses both flags. */
  function StepWarned(t: Task, w: Warned, now: int): (r: Warned) {
    if t.status == Completed || t.status == Dead then w
    else
      var heat := HeatLevel(now - t.lastUpdatedAt);
      var w1 :=
        if t.status != Active then w
        else if heat <= WARN_COLD_THRESHOLD && (t.id, Cold) !in w then w + {(t.id, Cold)}
        else if heat <= WARN_COOL_THRESHOLD && (t.id, Cool) !in w then w + {(t.id, Cool)}
        else w;
      if Dies(t, now) then w1 - {(t.id, Cool), (t.id, Cold)} else w1
  }

  /** A visit adds at most one flag, and only one of the visited task's. */
  lemma StepWarnedAtMostOne(t: Task, w: Warned, now: int)
    ensures var r := StepWarned(t, w, now);
      r - w <= {(t.id, Cool), (t.id, Cold)} && |r - w| <= 1
  {
    var r := StepWarned(t, w, now);
    if t.status == Active {
      var heat := HeatLevel(now - t.lastUpdatedAt);
      var w1 :=
        if heat <= WARN_COLD_THRESHOLD && (t.id, Cold) !in w then w + {(t.id, Cold)}
        else if heat <= WARN_COOL_THRESHOLD && (t.id, Cool) !in w then w + {(t.id, Cool)}
        else w;
      assert w1 - w <= {(t.id, Cool)} || w1 - w <= {(t.id, Cold)};
      assert r <= w1;
    } else {
      assert r <= w;
    }
  }

  /** A visit to an active task that does not die in it (under 48 hours since
      its last touch): it gains the cold flag once 36 hours have passed,
      otherwise the cool flag once 24 hours have passed, each only if not yet
      present; it loses nothing. Twenty-four hours is also when the task moves
      into purgatory, so both gains happen in that same visit. */
  lemma StepWarnedActive(t: Task, w: Warned, now: int)
    requires t.status == Active && !Dies(t, now)
    ensures var r := StepWarned(t, w, now);
      && w <= r
      && ((t.id, Cold) in r <==> (t.id, Cold) in w || Elapsed(t, now) >= COLD_ELAPSED_MS)
      && ((t.id, Cool) in r <==>
           || (t.id, Cool) in w
           || (Elapsed(t, now) >= PURGATORY_MS
               && (Elapsed(t, now) < COLD_ELAPSED_MS || (t.id, Cold) in w)))
  {
    HeatThresholds(now - t.lastUpdatedAt);
  }

  /** What one visit does to the warned set: it touches only the visited
      task's flags and adds at most one of them; a task that dies loses both;
      an active task that does not die gains the cold flag once 36 hours have
      passed since its last touch, otherwise the cool flag once 24 hours have
      passed (the visit that moves it into purgatory). */
  lemma StepWarnedSpec(t: Task, w: Warned, now: int)
    ensures var r := StepWarned(t, w, now);
      && (forall x: (TaskId, WarnKind) :: x.0 != t.id ==> (x in r <==> x in w))
      && r - w <= {(t.id, Cool), (t.id, Cold)} && |r - w| <= 1
      && (Dies(t, now) ==> (t.id, Cool) !in r && (t.id, Cold) !in r)
      && (!Dies(t, now) && t.status != Active ==> r == w)
      && (!Dies(t, now) && t.status == Active ==>
            && w <= r
            && ((t.id, Cold) in r <==> (t.id, Cold) in w || Elapsed(t, now) >= COLD_ELAPSED_MS)
            && ((t.id, Cool) in r <==>
                 || (t.id, Cool) in w
                 || (Elapsed(t, now) >= PURGATORY_MS
                     && (Elapsed(t, now) < COLD_ELAPSED_MS || (t.id, Cold) in w))))
  {
    StepWarnedAtMostOne(t, w, now);
    if t.status == Active && !Dies(t, now) {
      StepWarnedActive(t, w, now);
    }
  }

  /** The heat warnings never come ahead of purgatory: heat 0.5 is reached at
      24 hours, the same moment the task leaves `active`, and a task in
      purgatory is never warned. So a visit adds a flag only when it moves the
      task into purgatory, and never to a task it leaves active. */
  lemma WarnOnlyOnEntry(t: Task, w: Warned, now: int)
    ensures !EntersPurgatory(t, now) ==> StepWarned(t, w, now) <= w
    ensures Advance(t, now).status == Active ==> StepWarned(t, w, now) <= w
  {
    HeatThresholds(now - t.lastUpdatedAt);
  }

  /** A visit leaves the flags of every other id alone. */
  lemma StepWarnedOther(t: Task, w: Warned, now: int, x: (TaskId, WarnKind))
    requires x.0 != t.id
    ensures x in StepWarned(t, w, now) <==> x in w
  {
  }

  /** The flags a visit leaves on its task depend only on the flags that task
      held before. */
  lemma StepWarnedLocal(t: Task, w1: Warned, w2: Warned, now: int, kind: WarnKind)
    requires forall kd: WarnKind :: (t.id, kd) in w1 <==> (t.id, kd) in w2
    ensures (t.id, kind) in StepWarned(t, w1, now) <==> (t.id, kind) in StepWarned(t, w2, now)
  {
    assert (t.id, Cool) in w1 <==> (t.id, Cool) in w2;
    assert (t.id, Cold) in w1 <==> (t.id, Cold) in w2;
  }

  /** The task list after a sweep, built up in visiting order. */
  function SweepTasks(ts: seq<Task>, now: int): (r: seq<Task>)
    ensures |r| == |ts|
    ensures forall k :: 0 <= k < |ts| ==> r[k] == Advance(ts[k], now)
  {
    if ts == [] then [] else SweepTasks(ts[..|ts| - 1], now) + [Advance(ts[|ts| - 1], now)]
  }

  /** The warned set after a sweep: each task in order updates it. */
  function SweepWarned(ts: seq<Task>, w: Warned, now: int): (r: Warned) {
    if ts == [] then w else StepWarned(ts[|ts| - 1], SweepWarned(ts[..|ts| - 1], w, now), now)
  }

  /** How many tasks the sweep kills. */
  function Deaths(ts: seq<Task>, now: int): (n: nat)
    ensures n <= |ts|
  {
    if ts == [] then 0
    else Deaths(ts[..|ts| - 1], now) + (if Dies(ts[|ts| - 1], now) then 1 else 0)
  }

  /** How many tasks the sweep moves into purgatory (those that go on to die included). */
  function Entered(ts: seq<Task>, now: int): (n: nat)
    ensures n <= |ts|
  {
    if ts == [] then 0
    else Entered(ts[..|ts| - 1], now) + (if EntersPurgatory(ts[|ts| - 1], now) then 1 else 0)
  }

  /** The death count is the number of dying positions in the list. */
  lemma DeathsAreDyingPositions(ts: seq<Task>, now: int)
    ensures Deaths(ts, now) == |set k | 0 <= k < |ts| && Dies(ts[k], now)|
  {
    DeathsAreDyingPositionsPrefix(ts, now, |ts|);
    assert ts[..|ts|] == ts;
  }

  /** The same count for the first `n` tasks. */
  lemma {:induction false} DeathsAreDyingPositionsPrefix(ts: seq<Task>, now: int, n: nat)
    requires n <= |ts|
    ensures Deaths(ts[..n], now) == |set k | 0 <= k < n && Dies(ts[k], now)|
  {
    if n > 0 {
      DeathsAreDyingPositionsPrefix(ts, now, n - 1);
      assert ts[..n][..n - 1] == ts[..n - 1];
      DyingPositionsStep(ts, now, n);
    }
  }

  lemma DyingPositionsStep(ts: seq<Task>, now: int, n: nat)
    requires 0 < n <= |ts|
    ensures |set k | 0 <= k < n && Dies(ts[k], now)|
      == |set k | 0 <= k < n - 1 && Dies(ts[k], now)| + (if Dies(ts[n - 1], now) then 1 else 0)
  {
    var c := set k | 0 <= k < n - 1 && Dies(ts[k], now);
    var b := set k | 0 <= k < n && Dies(ts[k], now);
    if Dies(ts[n - 1], now) {
      assert n - 1 !in c;
      assert b == c + {n - 1};
    } else {
      assert b == c;
    }
  }

  /** The purgatory count is the number of positions that enter purgatory. */
  lemma EnteredAreEnteringPositions(ts: seq<Task>, now: int)
    ensures Entered(ts, now) == |set k | 0 <= k < |ts| && EntersPurgatory(ts[k], now)|
  {
    EnteredAreEnteringPositionsPrefix(ts, now, |ts|);
    assert ts[..|ts|] == ts;
  }

  /** The same count for the first `n` tasks. */
  lemma {:induction false} EnteredAreEnteringPositionsPrefix(ts: seq<Task>, now: int, n: nat)
    requires n <= |ts|
    ensures Entered(ts[..n], now) == |set k | 0 <= k < n && EntersPurgatory(ts[k], now)|
  {
    if n > 0 {
      EnteredAreEnteringPositionsPrefix(ts, now, n - 1);
      assert ts[..n][..n - 1] == ts[..n - 1];
      EnteringPositionsStep(ts, now, n);
    }
  }

  lemma EnteringPositionsStep(ts: seq<Task>, now: int, n: nat)
    requires 0 < n <= |ts|
    ensures |set k | 0 <= k < n && EntersPurgatory(ts[k], now)|
      == |set k | 0 <= k < n - 1 && EntersPurgatory(ts[k], now)| + (if EntersPurgatory(ts[n - 1], now) then 1 else 0)
  {
    var c := set k | 0 <= k < n - 1 && EntersPurgatory(ts[k], now);
    var b := set k | 0 <= k < n && EntersPurgatory(ts[k], now);
    if EntersPurgatory(ts[n - 1], now) {
      assert n - 1 !in c;
      assert b == c + {n - 1};
    } else {
      assert b == c;
    }
  }

  /** Visiting one more task extends the counts and the warned set by that task's visit. */
  lemma SweepPrefixStep(ts: seq<Task>, w: Warned, now: int, i: nat)
    requires i < |ts|
    ensures Deaths(ts[..i + 1], now) == Deaths(ts[..i], now) + (if Dies(ts[i], now) then 1 else 0)
    ensures Entered(ts[..i + 1], now) == Entered(ts[..i], now) + (if EntersPurgatory(ts[i], now) then 1 else 0)
    ensures SweepWarned(ts[..i + 1], w, now) == StepWarned(ts[i], SweepWarned(ts[..i], w, now), now)
  {
    assert ts[..i + 1][..i] == ts[..i];
    assert ts[..i + 1][i] == ts[i];
  }

  /** The whole effect of one sweep on the engine's state: every death costs
      the death penalty, nothing else touches the score. */
  function Sweep(s: State, now: int): (r: State)
    ensures |r.tasks| == |s.tasks|
  {
    State(SweepTasks(s.tasks, now),
          s.score + POINTS_DEATH * Deaths(s.tasks, now),
          SweepWarned(s.tasks, s.warned, now))
  }

  /** One visit of the sweep, to the task at position `i`: the task advances,
      a death costs the death penalty, and the warned set takes the visit. */
  function Visit(s: State, i: nat, now: int): (r: State)
    requires i < |s.tasks|
    ensures |r.tasks| == |s.tasks|
  {
    var t := s.tasks[i];
    State(s.tasks[i := Advance(t, now)],
          s.score + (if Dies(t, now) then POINTS_DEATH else 0),
          StepWarned(t, s.warned, now))
  }

  /** The state part-way through a sweep of `s`, once the first `i` tasks have
      been visited in order. */
  function SweepUpTo(s: State, now: int, i: nat): (r: State)
    requires i <= |s.tasks|
    ensures |r.tasks| == |s.tasks|
  {
    if i == 0 then s else Visit(SweepUpTo(s, now, i - 1), i - 1, now)
  }

  /** After `i` visits the first `i` tasks have advanced, the rest are as they
      were, every death so far has cost the penalty and the warned set has
      taken the first `i` visits. */
  lemma {:induction false} SweepUpToClosed(s: State, now: int, i: nat)
    requires i <= |s.tasks|
    ensures SweepUpTo(s, now, i) ==
      State(SweepTasks(s.tasks[..i], now) + s.tasks[i..],
            s.score + POINTS_DEATH * Deaths(s.tasks[..i], now),
            SweepWarned(s.tasks[..i], s.warned, now))
  {
    var ts := s.tasks;
    if i == 0 {
      assert ts[..0] == [] && ts[0..] == ts;
    } else {
      var j := i - 1;
      SweepUpToClosed(s, now, j);
      var p := SweepUpTo(s, now, j);
      SweepTasksStep(ts, now, j);
      var t := p.tasks[j];
      assert t == ts[j];
      SweepPrefixStep(ts, s.warned, now, j);
      assert SweepUpTo(s, now, i) == Visit(p, j, now);
    }
  }

  /** Advancing the first unvisited task extends the visited prefix by one. */
  lemma SweepTasksStep(ts: seq<Task>, now: int, j: nat)
    requires j < |ts|
    ensures (SweepTasks(ts[..j], now) + ts[j..])[j] == ts[j]
    ensures (SweepTasks(ts[..j], now) + ts[j..])[j := Advance(ts[j], now)]
         == SweepTasks(ts[..j + 1], now) + ts[j + 1..]
  {
    var a, b := SweepTasks(ts[..j], now), SweepTasks(ts[..j + 1], now);
    var p := a + ts[j..];
    assert p[j] == ts[j..][0];
    var v, q := p[j := Advance(ts[j], now)], b + ts[j + 1..];
    forall k | 0 <= k < |ts| ensures v[k] == q[k] {
      if k < j {
        assert v[k] == a[k] == Advance(ts[..j][k], now);
        assert q[k] == b[k] == Advance(ts[..j + 1][k], now);
      } else if k == j {
        assert q[k] == b[k] == Advance(ts[..j + 1][k], now);
      } else {
        assert v[k] == ts[j..][k - j];
        assert q[k] == ts[j + 1..][k - j - 1];
      }
    }
    assert v == q;
  }

  /** The task the `i`-th visit sees is still the original one. */
  lemma SweepUpToUnvisited(s: State, now: int, i: nat)
    requires i < |s.tasks|
    ensures SweepUpTo(s, now, i).tasks[i] == s.tasks[i]
  {
    SweepUpToClosed(s, now, i);
    assert SweepUpTo(s, now, i).tasks[i] == s.tasks[i..][0];
  }

  /** Visiting every task in order is the whole sweep. */
  lemma SweepUpToComplete(s: State, now: int)
    ensures SweepUpTo(s, now, |s.tasks|) == Sweep(s, now)
  {
    SweepUpToClosed(s, now, |s.tasks|);
    assert s.tasks[..|s.tasks|] == s.tasks;
  }

  /** The one notice a sweep gives: a death outranks entry into purgatory. */
  datatype Notice = Quiet | EnteredPurgatory | Died

  function NoticeOf(ts: seq<Task>, now: int): (notice: Notice) {
    if Deaths(ts, now) > 0 then Died
    else if Entered(ts, now) > 0 then EnteredPurgatory
    else Quiet
  }

  /** The sweep asks for a save and a redraw when some task changed state. */
  predicate Changed(ts: seq<Task>, now: int) {
    Deaths(ts, now) > 0 || Entered(ts, now) > 0
  }

  lemma {:induction false} DeathsPositiveIff(ts: seq<Task>, now: int)
    ensures Deaths(ts, now) > 0 <==> exists k :: 0 <= k < |ts| && Dies(ts[k], now)
  {
    if ts != [] {
      var p := ts[..|ts| - 1];
      DeathsPositiveIff(p, now);
      if exists k :: 0 <= k < |p| && Dies(p[k], now) {
        var k :| 0 <= k < |p| && Dies(p[k], now);
        assert Dies(ts[k], now);
      }
      if exists k :: 0 <= k < |ts| && Dies(ts[k], now) {
        var k :| 0 <= k < |ts| && Dies(ts[k], now);
        if k < |p| { assert Dies(p[k], now); }
      }
    }
  }

  lemma {:induction false} EnteredPositiveIff(ts: seq<Task>, now: int)
    ensures Entered(ts, now) > 0 <==> exists k :: 0 <= k < |ts| && EntersPurgatory(ts[k], now)
  {
    if ts != [] {
      var p := ts[..|ts| - 1];
      EnteredPositiveIff(p, now);
      if exists k :: 0 <= k < |p| && EntersPurgatory(p[k], now) {
        var k :| 0 <= k < |p| && EntersPurgatory(p[k], now);
        assert EntersPurgatory(ts[k], now);
      }
      if exists k :: 0 <= k < |ts| && EntersPurgatory(ts[k], now) {
        var k :| 0 <= k < |ts| && EntersPurgatory(ts[k], now);
        if k < |p| { assert EntersPurgatory(p[k], now); }
      }
    }
  }

  /** How each task comes out of a sweep. Completed and dead tasks are never
      touched; an active task untouched for 24 hours is in purgatory, stamped
      now; one untouched for 48 hours (active or in purgatory) is dead,
      stamped now, with one more death on its count; nothing else changes. */
  lemma SweepTransitions(s: State, now: int, k: nat)
    requires k < |s.tasks|
    ensures var t, r := s.tasks[k], Sweep(s, now).tasks[k];
      && |Sweep(s, now).tasks| == |s.tasks|
      && r.id == t.id && r.title == t.title && r.createdAt == t.createdAt
      && r.lastUpdatedAt == t.lastUpdatedAt
      && (t.status == Completed || t.status == Dead ==> r == t)
      && (t.status == Active && Elapsed(t, now) < PURGATORY_MS ==> r == t)
      && (t.status == Purgatory && Elapsed(t, now) < DEATH_MS ==> r == t)
      && (t.status == Active && PURGATORY_MS <= Elapsed(t, now) < DEATH_MS ==>
            r == t.(status := Purgatory, purgatoryAt := Some(now)))
      && (t.status == Active && Elapsed(t, now) >= DEATH_MS ==>
            r == t.(status := Dead, purgatoryAt := Some(now), diedAt := Some(now),
                    deathCount := Some(DeathCount(t) + 1)))
      && (t.status == Purgatory && Elapsed(t, now) >= DEATH_MS ==>
            r == t.(status := Dead, diedAt := Some(now), deathCount := Some(DeathCount(t) + 1)))
  {
  }

  /** A sweep changes the score only by death penalties: by exactly -5 for
      each task that dies, so it never raises the score and leaves it alone
      exactly when nothing dies. */
  lemma SweepScore(s: State, now: int)
    ensures Sweep(s, now).score == s.score - 5 * Deaths(s.tasks, now)
    ensures Sweep(s, now).score <= s.score
    ensures Sweep(s, now).score == s.score <==> forall k :: 0 <= k < |s.tasks| ==> !Dies(s.tasks[k], now)
  {
    DeathsPositiveIff(s.tasks, now);
  }

  /** A sweep keeps every id at its place, so ids stay unique. */
  lemma SweepKeepsIds(ts: seq<Task>, now: int)
    requires UniqueIds(ts)
    ensures UniqueIds(SweepTasks(ts, now))
  {
    var r := SweepTasks(ts, now);
    assert forall k :: 0 <= k < |ts| ==> r[k].id == ts[k].id;
  }

  /** The sweep reports a change exactly when the task list is different afterwards. */
  lemma ChangedIff(ts: seq<Task>, now: int)
    ensures Changed(ts, now) <==> SweepTasks(ts, now) != ts
  {
    DeathsPositiveIff(ts, now);
    EnteredPositiveIff(ts, now);
    var r := SweepTasks(ts, now);
    if Changed(ts, now) {
      if exists k :: 0 <= k < |ts| && Dies(ts[k], now) {
        var k :| 0 <= k < |ts| && Dies(ts[k], now);
        assert r[k].status != ts[k].status;
      } else {
        var k :| 0 <= k < |ts| && EntersPurgatory(ts[k], now);
        assert r[k].status != ts[k].status;
      }
    } else {
      assert forall k :: 0 <= k < |ts| ==> r[k] == ts[k];
    }
  }

  /** Flags of ids that are not in the list are left as they were. */
  lemma {:induction false} SweepWarnedFrame(ts: seq<Task>, w: Warned, now: int, x: (TaskId, WarnKind))
    requires !HasId(ts, x.0)
    ensures x in SweepWarned(ts, w, now) <==> x in w
  {
    if ts != [] {
      var p := ts[..|ts| - 1];
      assert forall j :: 0 <= j < |p| ==> p[j] == ts[j];
      assert !HasId(p, x.0);
      SweepWarnedFrame(p, w, now, x);
      StepWarnedOther(ts[|ts| - 1], SweepWarned(p, w, now), now, x);
    }
  }

  /** With unique ids, the flags a task holds after the sweep are the ones its
      own visit leaves, as if it were the only task in the list. */
  lemma {:induction false} SweepWarnedAt(ts: seq<Task>, w: Warned, now: int, k: nat, kind: WarnKind)
    requires UniqueIds(ts) && k < |ts|
    ensures (ts[k].id, kind) in SweepWarned(ts, w, now) <==> (ts[k].id, kind) in StepWarned(ts[k], w, now)
  {
    var n := |ts| - 1;
    var p := ts[..n];
    var x := (ts[k].id, kind);
    if k == n {
      assert forall j :: 0 <= j < |p| ==> p[j].id == ts[j].id != ts[n].id;
      assert !HasId(p, ts[k].id);
      forall kd: WarnKind ensures (ts[k].id, kd) in SweepWarned(p, w, now) <==> (ts[k].id, kd) in w {
        SweepWarnedFrame(p, w, now, (ts[k].id, kd));
      }
      StepWarnedLocal(ts[k], SweepWarned(p, w, now), w, now, kind);
    } else {
      assert ts[n].id != x.0;
      assert p[k] == ts[k];
      SweepWarnedAt(p, w, now, k, kind);
      StepWarnedOther(ts[n], SweepWarned(p, w, now), now, x);
    }
  }

  /** Warnings over a whole sweep: each task gains at most one new flag; a
      task that dies holds neither flag afterwards; an active task under 48
      hours gains the cold flag once 36 hours have passed since its last
      touch, otherwise the cool flag once 24 hours have passed (in the sweep
      that moves it into purgatory). */
  lemma SweepWarnings(s: State, now: int, k: nat)
    requires UniqueIds(s.tasks) && k < |s.tasks|
    ensures var t, w, w' := s.tasks[k], s.warned, Sweep(s, now).warned;
      && !((t.id, Cool) in w' - w && (t.id, Cold) in w' - w)
      && (Dies(t, now) ==> (t.id, Cool) !in w' && (t.id, Cold) !in w')
      && (t.status == Active && Elapsed(t, now) < DEATH_MS ==>
            && ((t.id, Cold) in w' <==> (t.id, Cold) in w || Elapsed(t, now) >= COLD_ELAPSED_MS)
            && ((t.id, Cool) in w' <==>
                 || (t.id, Cool) in w
                 || (Elapsed(t, now) >= PURGATORY_MS
                     && (Elapsed(t, now) < COLD_ELAPSED_MS || (t.id, Cold) in w))))
  {
    var t := s.tasks[k];
    var r := StepWarned(t, s.warned, now);
    SweepWarnedAt(s.tasks, s.warned, now, k, Cool);
    SweepWarnedAt(s.tasks, s.warned, now, k, Cold);
    StepWarnedSpec(t, s.warned, now);
  }
}

/** The records the engine keeps: tasks, the warned set and the score. */
module Tasks {

  datatype Option<T> = None | Some(value: T)

  /** The four lifecycle states a task can be in; exactly one holds at a time. */
  datatype Status = Active | Purgatory | Dead | Completed

  /** Ids are opaque strings handed out at creation. */
  type TaskId = string

  /** A task record. The optional stamps are absent until the matching
      transition first happens; `deathCount` is absent until the first
      natural death. */
  datatype Task = Task(
    id: TaskId,
    title: string,
    createdAt: int,
    lastUpdatedAt: int,
    status: Status,
    purgatoryAt: Option<int>,
    diedAt: Option<int>,
    completedAt: Option<int>,
    resurrectedAt: Option<int>,
    deathCount: Option<nat>)

  /** The two warning flags a task can carry (`<id>_cool` and `<id>_cold`). */
  datatype WarnKind = Cool | Cold

  type Warned = set<(TaskId, WarnKind)>

  /** The engine's whole state: the task list in insertion order, the signed
      score and the (unsaved) set of warnings already given. */
  datatype State = State(tasks: seq<Task>, score: int, warned: Warned)

  /** `task.deathCount || 0`: a missing count counts as zero. */
  function DeathCount(t: Task): (count: nat) {
    match t.deathCount
    case None => 0
    case Some(n) => n
  }

  /** The record `addTask` creates. */
  function NewTask(id: TaskId, title: string, now: int): (t: Task)
    ensures t.id == id && t.title == title && t.status == Active
    ensures t.createdAt == now && t.lastUpdatedAt == now
    ensures t.purgatoryAt.None? && t.diedAt.None? && t.completedAt.None?
    ensures t.resurrectedAt.None? && t.deathCount.None? && DeathCount(t) == 0
  {
    Task(id, title, now, now, Active, None, None, None, None, None)
  }

  predicate HasId(ts: seq<Task>, id: TaskId) {
    exists k :: 0 <= k < |ts| && ts[k].id == id
  }

  predicate UniqueIds(ts: seq<Task>) {
    forall i, j :: 0 <= i < j < |ts| ==> ts[i].id != ts[j].id
  }

  /** `tasks.find(t => t.id === id)`: the position of the first task with that id. */
  function FindIndex(ts: seq<Task>, id: TaskId): (r: Option<nat>)
    ensures r.None? <==> !HasId(ts, id)
    ensures r.Some? ==> r.value < |ts| && ts[r.value].id == id
    ensures r.Some? ==> forall j :: 0 <= j < r.value ==> ts[j].id != id
  {
    if ts == [] then None
    else if ts[0].id == id then Some(0)
    else
      match FindIndex(ts[1..], id)
      case None => None
      case Some(j) => Some(j + 1)
  }

  /** Two lists that carry the same ids at the same places find the same task. */
  lemma {:induction false} FindIndexSameIds(ts: seq<Task>, us: seq<Task>, id: TaskId)
    requires |ts| == |us|
    requires forall k :: 0 <= k < |ts| ==> ts[k].id == us[k].id
    ensures FindIndex(ts, id) == FindIndex(us, id)
  {
    if ts != [] && ts[0].id != id {
      assert forall k :: 0 <= k < |ts| - 1 ==> ts[1..][k].id == ts[k + 1].id == us[k + 1].id == us[1..][k].id;
      FindIndexSameIds(ts[1..], us[1..], id);
    }
  }

  /** With unique ids, the task found is the only one with that id. */
  lemma FindIndexUnique(ts: seq<Task>, id: TaskId, k: nat)
    requires UniqueIds(ts) && k < |ts| && ts[k].id == id
    ensures FindIndex(ts, id) == Some(k)
  {
  }
}

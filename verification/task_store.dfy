/** The scheduler's task list: the `Task` record, the load-time reset of runs that a
    previous session left marked as running, and the add / update / delete commands.
    The list is held in memory as a vector and written back to a JSON file after every
    command; the file I/O is not part of this model. */
module TaskStore {

  import opened Options

  /** One automation task, field for field as the backend stores and serialises it. */
  datatype Task = Task(
    id: string,
    name: string,
    cronExpr: string,
    command: string,
    enabled: bool,
    lastRun: Option<string>,
    lastResult: Option<string>)

  /** The `last_result` written when a run starts. */
  const RunningMarker: string := "Running..."

  /** The `last_result` that replaces a stale running marker at start-up. */
  const InterruptedMarker: string := "Interrupted"

  /** The set of ids present in a task list. */
  function Ids(tasks: seq<Task>): set<string> {
    set k | 0 <= k < |tasks| :: tasks[k].id
  }

  /** No two tasks share an id. */
  predicate UniqueIds(tasks: seq<Task>) {
    forall i, j :: 0 <= i < j < |tasks| ==> tasks[i].id != tasks[j].id
  }

  // ---------------------------------------------------------------------------
  // load

  function ResetStale(t: Task): Task {
    if t.lastResult == Some(RunningMarker) then t.(lastResult := Some(InterruptedMarker)) else t
  }

  /** The reset `Scheduler::new` applies to the tasks it loads. */
  function ResetOnLoad(tasks: seq<Task>): (r: seq<Task>)
    ensures |r| == |tasks|
    ensures forall k :: 0 <= k < |r| ==> r[k] == ResetStale(tasks[k])
  {
    seq(|tasks|, k requires 0 <= k < |tasks| => ResetStale(tasks[k]))
  }

  /** After loading, no task is marked as running; a task that was becomes
      `"Interrupted"` and keeps every other field; all other tasks, the order and the
      count are unchanged. */
  lemma ResetOnLoadSpec(tasks: seq<Task>)
    ensures |ResetOnLoad(tasks)| == |tasks|
    ensures forall k :: 0 <= k < |tasks| ==> ResetOnLoad(tasks)[k].lastResult != Some(RunningMarker)
    ensures forall k :: 0 <= k < |tasks| && tasks[k].lastResult == Some(RunningMarker) ==>
      ResetOnLoad(tasks)[k] == tasks[k].(lastResult := Some(InterruptedMarker))
    ensures forall k :: 0 <= k < |tasks| && tasks[k].lastResult != Some(RunningMarker) ==>
      ResetOnLoad(tasks)[k] == tasks[k]
    ensures Ids(ResetOnLoad(tasks)) == Ids(tasks)
  {
    var r := ResetOnLoad(tasks);
    assert forall k :: 0 <= k < |tasks| ==> r[k].id == tasks[k].id;
    assert Ids(r) == Ids(tasks) by {
      forall x | x in Ids(tasks) ensures x in Ids(r) {
        var k :| 0 <= k < |tasks| && tasks[k].id == x;
        assert r[k].id == x;
      }
    }
  }

  /** Loading twice changes nothing more than loading once. */
  lemma ResetOnLoadIdempotent(tasks: seq<Task>)
    ensures ResetOnLoad(ResetOnLoad(tasks)) == ResetOnLoad(tasks)
  {
  }

  // ---------------------------------------------------------------------------
  // lookup and single-task rewrite

  /** The position `iter().find(|t| t.id == id)` stops at: the first task with `id`. */
  function FirstIndex(tasks: seq<Task>, id: string): (r: Option<nat>)
    ensures r.Some? ==> r.value < |tasks| && tasks[r.value].id == id
    ensures r.Some? ==> forall j :: 0 <= j < r.value ==> tasks[j].id != id
    ensures r.None? <==> id !in Ids(tasks)
    decreases |tasks|
  {
    if |tasks| == 0 then None
    else if tasks[0].id == id then Some(0)
    else
      var r := FirstIndex(tasks[1..], id);
      assert Ids(tasks) == {tasks[0].id} + Ids(tasks[1..]) by {
        forall x | x in Ids(tasks) ensures x in {tasks[0].id} + Ids(tasks[1..]) {
          var k :| 0 <= k < |tasks| && tasks[k].id == x;
          if k > 0 { assert tasks[1..][k - 1].id == x; }
        }
      }
      if r.None? then None else Some(r.value + 1)
  }

  /** The first position holding `id` is the one `find` stops at. */
  lemma {:induction false} FirstIndexAt(tasks: seq<Task>, id: string, k: nat)
    requires k < |tasks| && tasks[k].id == id
    requires forall j :: 0 <= j < k ==> tasks[j].id != id
    ensures FirstIndex(tasks, id) == Some(k)
    decreases k
  {
    if k > 0 {
      FirstIndexAt(tasks[1..], id, k - 1);
    }
  }

  /** In a list with unique ids, the first task with an id is the only one. */
  lemma FirstIndexUnique(tasks: seq<Task>, id: string, k: nat)
    requires UniqueIds(tasks)
    requires k < |tasks| && tasks[k].id == id
    ensures FirstIndex(tasks, id) == Some(k)
  {
    FirstIndexAt(tasks, id, k);
  }

  /** Applies `f` to the first task with `id`, as `iter_mut().find(..)` followed by a
      write through the found reference does; without such a task, nothing changes. */
  function ModifyFirst(tasks: seq<Task>, id: string, f: Task -> Task): (r: seq<Task>)
    ensures |r| == |tasks|
    ensures FirstIndex(tasks, id).None? ==> r == tasks
    ensures FirstIndex(tasks, id).Some? ==>
      var k := FirstIndex(tasks, id).value;
      r[k] == f(tasks[k]) && forall j :: 0 <= j < |tasks| && j != k ==> r[j] == tasks[j]
  {
    match FirstIndex(tasks, id)
    case None => tasks
    case Some(k) => tasks[k := f(tasks[k])]
  }

  // ---------------------------------------------------------------------------
  // commands

  /** `add_task`: the caller's task, with its id replaced by a freshly generated one,
      is appended. */
  function AddTask(tasks: seq<Task>, task: Task, freshId: string): (r: seq<Task>)
    ensures |r| == |tasks| + 1
    ensures r[..|tasks|] == tasks
    ensures r[|tasks|].id == freshId
    ensures r[|tasks|] == task.(id := r[|tasks|].id)
  {
    tasks + [task.(id := freshId)]
  }

  /** `update_task`: the first task whose id equals the new task's id is replaced by it. */
  function UpdateTask(tasks: seq<Task>, task: Task): (r: seq<Task>)
    ensures |r| == |tasks|
    ensures task.id !in Ids(tasks) ==> r == tasks
    ensures FirstIndex(tasks, task.id).Some? ==>
      var k := FirstIndex(tasks, task.id).value;
      r[k] == task && forall j :: 0 <= j < |tasks| && j != k ==> r[j] == tasks[j]
  {
    ModifyFirst(tasks, task.id, _ => task)
  }

  /** `delete_task`: `retain(|t| t.id != id)`. */
  function DeleteTask(tasks: seq<Task>, id: string): (r: seq<Task>)
    ensures id !in Ids(r)
    ensures forall t :: t in r <==> t in tasks && t.id != id
    ensures |r| <= |tasks|
    decreases |tasks|
  {
    if |tasks| == 0 then []
    else
      var rest := DeleteTask(tasks[1..], id);
      assert forall t :: t in tasks <==> t == tasks[0] || t in tasks[1..];
      if tasks[0].id == id then rest else [tasks[0]] + rest
  }

  // ---------------------------------------------------------------------------
  // properties relating the commands

  /** Deletion keeps the surviving tasks in their order: it distributes over
      concatenation. */
  lemma {:induction false} DeleteTaskAppend(a: seq<Task>, b: seq<Task>, id: string)
    ensures DeleteTask(a + b, id) == DeleteTask(a, id) + DeleteTask(b, id)
    decreases |a|
  {
    if |a| > 0 {
      assert (a + b)[1..] == a[1..] + b;
      DeleteTaskAppend(a[1..], b, id);
    } else {
      assert a + b == b;
    }
  }

  /** Deleting an id that is absent changes nothing. */
  lemma {:induction false} DeleteAbsent(tasks: seq<Task>, id: string)
    requires id !in Ids(tasks)
    ensures DeleteTask(tasks, id) == tasks
    decreases |tasks|
  {
    if |tasks| > 0 {
      assert tasks[0].id in Ids(tasks);
      assert Ids(tasks[1..]) <= Ids(tasks) by {
        forall x | x in Ids(tasks[1..]) ensures x in Ids(tasks) {
          var k :| 0 <= k < |tasks[1..]| && tasks[1..][k].id == x;
          assert tasks[k + 1].id == x;
        }
      }
      DeleteAbsent(tasks[1..], id);
      assert tasks == [tasks[0]] + tasks[1..];
    }
  }

  /** Deleting twice is deleting once. */
  lemma DeleteIdempotent(tasks: seq<Task>, id: string)
    ensures DeleteTask(DeleteTask(tasks, id), id) == DeleteTask(tasks, id)
  {
    DeleteAbsent(DeleteTask(tasks, id), id);
  }

  /** Adding a task under a fresh id and deleting that id restores the list. */
  lemma AddThenDelete(tasks: seq<Task>, task: Task, freshId: string)
    requires freshId !in Ids(tasks)
    ensures DeleteTask(AddTask(tasks, task, freshId), freshId) == tasks
  {
    DeleteTaskAppend(tasks, [task.(id := freshId)], freshId);
    DeleteAbsent(tasks, freshId);
  }

  /** Adding under a fresh id keeps ids unique. */
  lemma AddKeepsUnique(tasks: seq<Task>, task: Task, freshId: string)
    requires UniqueIds(tasks) && freshId !in Ids(tasks)
    ensures UniqueIds(AddTask(tasks, task, freshId))
    ensures Ids(AddTask(tasks, task, freshId)) == Ids(tasks) + {freshId}
  {
    var r := AddTask(tasks, task, freshId);
    forall i, j | 0 <= i < j < |r| ensures r[i].id != r[j].id {
      if j == |tasks| { assert r[i].id in Ids(tasks); }
    }
    assert Ids(r) == Ids(tasks) + {freshId} by {
      forall x | x in Ids(r) ensures x in Ids(tasks) + {freshId} {
        var k :| 0 <= k < |r| && r[k].id == x;
        if k < |tasks| { assert tasks[k].id == x; }
      }
      assert r[|tasks|].id == freshId;
      forall x | x in Ids(tasks) ensures x in Ids(r) {
        var k :| 0 <= k < |tasks| && tasks[k].id == x;
        assert r[k].id == x;
      }
    }
  }

  /** Updating keeps the set of ids and their uniqueness. */
  lemma UpdateKeepsIds(tasks: seq<Task>, task: Task)
    ensures Ids(UpdateTask(tasks, task)) == Ids(tasks)
    ensures UniqueIds(tasks) ==> UniqueIds(UpdateTask(tasks, task))
  {
    var r := UpdateTask(tasks, task);
    assert forall k :: 0 <= k < |tasks| ==> r[k].id == tasks[k].id;
    assert Ids(r) == Ids(tasks) by {
      forall x | x in Ids(tasks) ensures x in Ids(r) {
        var k :| 0 <= k < |tasks| && tasks[k].id == x;
        assert r[k].id == x;
      }
    }
  }

  /** Updating with the very task already stored first under its id is a no-op. */
  lemma UpdateUnchanged(tasks: seq<Task>, task: Task)
    requires FirstIndex(tasks, task.id).Some? && tasks[FirstIndex(tasks, task.id).value] == task
    ensures UpdateTask(tasks, task) == tasks
  {
  }

  /** Updating twice with the same task is updating once. */
  lemma UpdateIdempotent(tasks: seq<Task>, task: Task)
    ensures UpdateTask(UpdateTask(tasks, task), task) == UpdateTask(tasks, task)
  {
    var r := UpdateTask(tasks, task);
    UpdateKeepsIds(tasks, task);
    match FirstIndex(tasks, task.id)
    case None =>
    case Some(k) =>
      assert FirstIndex(r, task.id) == Some(k) by {
        assert forall j :: 0 <= j < k ==> r[j] == tasks[j];
      }
  }

  /** Deleting an id makes an earlier update of that id irrelevant. */
  lemma DeleteAfterUpdate(tasks: seq<Task>, task: Task)
    ensures DeleteTask(UpdateTask(tasks, task), task.id) == DeleteTask(tasks, task.id)
  {
    match FirstIndex(tasks, task.id)
    case None =>
    case Some(k) =>
      var r := UpdateTask(tasks, task);
      assert tasks == tasks[..k] + [tasks[k]] + tasks[k + 1..];
      assert r == tasks[..k] + [task] + tasks[k + 1..];
      DeleteTaskAppend(tasks[..k] + [tasks[k]], tasks[k + 1..], task.id);
      DeleteTaskAppend(tasks[..k], [tasks[k]], task.id);
      DeleteTaskAppend(tasks[..k] + [task], tasks[k + 1..], task.id);
      DeleteTaskAppend(tasks[..k], [task], task.id);
  }
}

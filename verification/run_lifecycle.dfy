/** The two writes `run_task_internal` makes to the task list around one execution,
    and the live-run table `execute_streaming` and `stop_task` share. Between the two
    writes the list may be edited by any command; the model makes that interleaving a
    parameter. */
module RunLifecycle {

  import opened Options
  import opened TaskStore

  /** What the start of a run finds: no task with the id (the run returns at once), or
      the list with the running marker written and the command to execute. */
  datatype Start = NotFound | Started(tasks: seq<Task>, command: string)

  function MarkRunning(t: Task): Task {
    t.(lastResult := Some(RunningMarker))
  }

  function RecordResult(t: Task, finishedAt: string, result: string): Task {
    t.(lastRun := Some(finishedAt), lastResult := Some(result))
  }

  /** The first critical section of `run_task_internal`. */
  function BeginRun(tasks: seq<Task>, id: string): (r: Start)
    ensures r.NotFound? <==> id !in Ids(tasks)
    ensures r.Started? ==>
      var k := FirstIndex(tasks, id).value;
      && |r.tasks| == |tasks|
      && r.command == tasks[k].command
      && r.tasks[k] == tasks[k].(lastResult := Some(RunningMarker))
      && forall j :: 0 <= j < |tasks| && j != k ==> r.tasks[j] == tasks[j]
  {
    match FirstIndex(tasks, id)
    case None => NotFound
    case Some(k) => Started(ModifyFirst(tasks, id, MarkRunning), tasks[k].command)
  }

  /** The final critical section of `run_task_internal`: the finish time and the result
      go to the first task with the id, if there still is one. */
  function FinishRun(tasks: seq<Task>, id: string, finishedAt: string, result: string): (r: seq<Task>)
    ensures |r| == |tasks|
    ensures id !in Ids(tasks) ==> r == tasks
    ensures FirstIndex(tasks, id).Some? ==>
      var k := FirstIndex(tasks, id).value;
      && r[k] == tasks[k].(lastRun := Some(finishedAt), lastResult := Some(result))
      && forall j :: 0 <= j < |tasks| && j != k ==> r[j] == tasks[j]
  {
    ModifyFirst(tasks, id, t => RecordResult(t, finishedAt, result))
  }

  /** The write the waiting loop repeats about once a second while the command runs:
      the output so far replaces the first matching task's result. */
  function PublishPartial(tasks: seq<Task>, id: string, partial: string): (r: seq<Task>)
    ensures |r| == |tasks|
    ensures id !in Ids(tasks) ==> r == tasks
    ensures FirstIndex(tasks, id).Some? ==>
      var k := FirstIndex(tasks, id).value;
      && r[k] == tasks[k].(lastResult := Some(partial))
      && forall j :: 0 <= j < |tasks| && j != k ==> r[j] == tasks[j]
  {
    ModifyFirst(tasks, id, (t: Task) => t.(lastResult := Some(partial)))
  }

  /** After the first partial write, the task no longer carries the running marker
      (unless the output so far is that very text), though the run goes on. */
  lemma PartialWriteClearsMarker(tasks: seq<Task>, id: string, partial: string)
    requires BeginRun(tasks, id).Started?
    requires partial != RunningMarker
    ensures
      var marked := BeginRun(tasks, id).tasks;
      var k := FirstIndex(tasks, id).value;
      && marked[k].lastResult == Some(RunningMarker)
      && PublishPartial(marked, id, partial)[k].lastResult != Some(RunningMarker)
  {
    var k := FirstIndex(tasks, id).value;
    var marked := BeginRun(tasks, id).tasks;
    assert forall j :: 0 <= j < k ==> marked[j] == tasks[j];
    FirstIndexAt(marked, id, k);
  }

  /** What one run leaves behind: the command it executed, if any, and the task list
      after its last write. */
  datatype RunEffect = RunEffect(executed: Option<string>, tasks: seq<Task>)

  /** One whole `run_task_internal`: `edits` is whatever the commands did to the list
      while the command ran, `execute` the result string of running a command. */
  function RunTask(
    tasks: seq<Task>, id: string, edits: seq<Task> -> seq<Task>,
    execute: string -> string, finishedAt: string): RunEffect
  {
    match BeginRun(tasks, id)
    case NotFound => RunEffect(None, tasks)
    case Started(marked, command) =>
      RunEffect(Some(command), FinishRun(edits(marked), id, finishedAt, execute(command)))
  }

  /** Starting a run for an id no task carries executes nothing and changes nothing. */
  lemma RunAbsentIsNoOp(
    tasks: seq<Task>, id: string, edits: seq<Task> -> seq<Task>,
    execute: string -> string, finishedAt: string)
    requires id !in Ids(tasks)
    ensures RunTask(tasks, id, edits, execute, finishedAt) == RunEffect(None, tasks)
  {
  }

  /** An undisturbed run executes the first matching task's command, and its only trace
      is that task's finish time and result: the running marker is overwritten. */
  lemma UndisturbedRun(tasks: seq<Task>, id: string, execute: string -> string, finishedAt: string)
    requires id in Ids(tasks)
    ensures
      var k := FirstIndex(tasks, id).value;
      var e := RunTask(tasks, id, s => s, execute, finishedAt);
      && e.executed == Some(tasks[k].command)
      && |e.tasks| == |tasks|
      && e.tasks[k] == tasks[k].(lastRun := Some(finishedAt), lastResult := Some(execute(tasks[k].command)))
      && forall j :: 0 <= j < |tasks| && j != k ==> e.tasks[j] == tasks[j]
  {
    var k := FirstIndex(tasks, id).value;
    var marked := BeginRun(tasks, id).tasks;
    assert forall j :: 0 <= j < k ==> marked[j] == tasks[j];
    FirstIndexAt(marked, id, k);
    var finished := FinishRun(marked, id, finishedAt, execute(tasks[k].command));
    assert RunTask(tasks, id, s => s, execute, finishedAt) == RunEffect(Some(tasks[k].command), finished);
  }

  /** A task deleted while its command runs stays deleted: the result is discarded. */
  lemma DeletedDuringRun(
    tasks: seq<Task>, id: string, edits: seq<Task> -> seq<Task>,
    execute: string -> string, finishedAt: string)
    requires id in Ids(tasks)
    requires id !in Ids(edits(BeginRun(tasks, id).tasks))
    ensures RunTask(tasks, id, edits, execute, finishedAt).tasks == edits(BeginRun(tasks, id).tasks)
  {
  }

  /** The same with the edit being `delete_task` itself. */
  lemma FinishAfterDelete(tasks: seq<Task>, id: string, finishedAt: string, result: string)
    ensures FinishRun(DeleteTask(tasks, id), id, finishedAt, result) == DeleteTask(tasks, id)
  {
  }

  /** A task edited while its command runs keeps the edit and receives the result. */
  lemma FinishAfterUpdate(tasks: seq<Task>, task: Task, finishedAt: string, result: string)
    requires task.id in Ids(tasks)
    ensures
      var edited := UpdateTask(tasks, task);
      var k := FirstIndex(tasks, task.id).value;
      FinishRun(edited, task.id, finishedAt, result)[k]
        == task.(lastRun := Some(finishedAt), lastResult := Some(result))
  {
    var k := FirstIndex(tasks, task.id).value;
    var edited := UpdateTask(tasks, task);
    assert FirstIndex(edited, task.id) == Some(k) by {
      assert forall j :: 0 <= j < k ==> edited[j] == tasks[j];
    }
  }

  /** Both writes keep the set of ids. */
  lemma RunWritesKeepIds(tasks: seq<Task>, id: string, finishedAt: string, result: string)
    ensures BeginRun(tasks, id).Started? ==> Ids(BeginRun(tasks, id).tasks) == Ids(tasks)
    ensures Ids(FinishRun(tasks, id, finishedAt, result)) == Ids(tasks)
  {
    var f := FinishRun(tasks, id, finishedAt, result);
    assert forall j :: 0 <= j < |tasks| ==> f[j].id == tasks[j].id;
    assert Ids(f) == Ids(tasks) by {
      forall x | x in Ids(tasks) ensures x in Ids(f) {
        var j :| 0 <= j < |tasks| && tasks[j].id == x;
        assert f[j].id == x;
      }
    }
    if BeginRun(tasks, id).Started? {
      var b := BeginRun(tasks, id).tasks;
      assert forall j :: 0 <= j < |tasks| ==> b[j].id == tasks[j].id;
      assert Ids(b) == Ids(tasks) by {
        forall x | x in Ids(tasks) ensures x in Ids(b) {
          var j :| 0 <= j < |tasks| && tasks[j].id == x;
          assert b[j].id == x;
        }
      }
    }
  }

  // ---------------------------------------------------------------------------
  // the live-run table

  /** `running.insert(id, child)`: a second run of the same id replaces the first
      run's entry, since nothing guards against two runs of one task. */
  function Register<C>(table: map<string, C>, id: string, child: C): (r: map<string, C>)
    ensures r.Keys == table.Keys + {id} && r[id] == child
    ensures forall other :: other in table && other != id ==> r[other] == table[other]
  {
    table[id := child]
  }

  /** `running.remove(&task_id)` once a run's child has exited. */
  function Unregister<C>(table: map<string, C>, id: string): (r: map<string, C>)
    ensures r.Keys == table.Keys - {id}
    ensures forall other :: other in r ==> r[other] == table[other]
  {
    table - {id}
  }

  /** The child `stop_task` kills for `id`; `None` when no run is registered, in which
      case the command returns success without doing anything. */
  function StopTarget<C>(table: map<string, C>, id: string): (r: Option<C>)
    ensures r.Some? <==> id in table
    ensures r.Some? ==> r.value == table[id]
  {
    if id in table then Some(table[id]) else None
  }

  /** Two overlapping runs of one task: while both run, stop reaches only the second
      child; once the second finishes, stop reaches neither, though the first may still
      be running. */
  lemma OverlappingRuns<C>(table: map<string, C>, id: string, first: C, second: C)
    ensures StopTarget(Register(Register(table, id, first), id, second), id) == Some(second)
    ensures StopTarget(Unregister(Register(Register(table, id, first), id, second), id), id) == None
  {
  }
}

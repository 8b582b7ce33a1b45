/** The logic of the automation page: the editor's save action and the payload it
    sends, the per-task live output buffers fed by `task-output` events, and what each
    task row shows (schedule label, result badge, run/stop button). Rendering and the
    command round trips are not modelled; a command's effect is the matching TaskStore
    or RunLifecycle function. */
module AutomationPage {

  import opened Options
  import opened Text
  import opened TaskStore
  import RunLifecycle
  import RunOutput
  import Tick
  import Numerals

  // ---------------------------------------------------------------------------
  // the editor

  /** The editor's `Partial<Task>`: every field may be missing. For `last_run` and
      `last_result` a missing field and `null` are one case, since the page treats
      them alike. */
  datatype Draft = Draft(
    id: Option<string>,
    name: Option<string>,
    cronExpr: Option<string>,
    command: Option<string>,
    enabled: Option<bool>,
    lastRun: Option<string>,
    lastResult: Option<string>)

  /** JavaScript truthiness of an optional string: present and non-empty. */
  predicate Truthy(s: Option<string>) {
    s.Some? && s.value != ""
  }

  /** `x || null` on an optional string. */
  function OrNull(s: Option<string>): (r: Option<string>)
    ensures r.Some? <==> Truthy(s)
    ensures r.Some? ==> r == s
  {
    if Truthy(s) then s else None
  }

  /** `startEdit`: the editor holds a copy of the task. */
  function StartEdit(t: Task): Draft {
    Draft(Some(t.id), Some(t.name), Some(t.cronExpr), Some(t.command), Some(t.enabled),
      t.lastRun, t.lastResult)
  }

  /** `startNew`: an enabled task with empty name, schedule and command. */
  function StartNew(): Draft {
    Draft(None, Some(""), Some(""), Some(""), Some(true), None, None)
  }

  /** The command `handleSave` invokes, with its payload. */
  datatype SaveCall = NoCall | UpdateCall(task: Task) | AddCall(task: Task)

  /** `handleSave`: nothing without a name and a command; otherwise a payload with the
      defaults filled in, sent as an update when the draft has an id and as an add
      otherwise. */
  function HandleSave(d: Draft): SaveCall {
    if !Truthy(d.name) || !Truthy(d.command) then NoCall
    else
      var payload := Task(
        if Truthy(d.id) then d.id.value else "",
        d.name.value,
        if Truthy(d.cronExpr) then d.cronExpr.value else "",
        d.command.value,
        d.enabled.GetOr(true),
        OrNull(d.lastRun),
        OrNull(d.lastResult));
      if Truthy(d.id) then UpdateCall(payload) else AddCall(payload)
  }

  /** The save's effect on the backend's list; `freshId` is the id `add_task` draws. */
  function SaveToStore(tasks: seq<Task>, call: SaveCall, freshId: string): seq<Task> {
    match call
    case NoCall => tasks
    case UpdateCall(t) => UpdateTask(tasks, t)
    case AddCall(t) => AddTask(tasks, t, freshId)
  }

  /** What `handleSave` sends, field by field. */
  lemma HandleSaveSpec(d: Draft)
    ensures HandleSave(d).NoCall? <==> !Truthy(d.name) || !Truthy(d.command)
    ensures HandleSave(d).UpdateCall? <==> Truthy(d.name) && Truthy(d.command) && Truthy(d.id)
    ensures !HandleSave(d).NoCall? ==>
      var t := HandleSave(d).task;
      && Some(t.name) == d.name && Some(t.command) == d.command
      && t.name != "" && t.command != ""
      && (t.cronExpr == "" <==> !Truthy(d.cronExpr))
      && (Truthy(d.cronExpr) ==> Some(t.cronExpr) == d.cronExpr)
      && (t.id == if Truthy(d.id) then d.id.value else "")
      && (t.enabled <==> d.enabled != Some(false))
      && (t.lastRun.Some? <==> Truthy(d.lastRun))
      && (Truthy(d.lastRun) ==> t.lastRun == d.lastRun)
      && (t.lastResult.Some? <==> Truthy(d.lastResult))
      && (Truthy(d.lastResult) ==> t.lastResult == d.lastResult)
  {
  }

  /** Opening a stored task in the editor and saving it unchanged sends the task
      itself back, provided it has an id, a name and a command and no empty timestamps
      or results (those come back as `null`). */
  lemma EditRoundTrip(t: Task)
    requires t.id != "" && t.name != "" && t.command != ""
    requires t.lastRun != Some("") && t.lastResult != Some("")
    ensures HandleSave(StartEdit(t)) == UpdateCall(t)
  {
  }

  /** ... and so leaves a list with unique ids unchanged. */
  lemma EditSaveIsNoOp(tasks: seq<Task>, k: nat, freshId: string)
    requires UniqueIds(tasks) && k < |tasks|
    requires tasks[k].id != "" && tasks[k].name != "" && tasks[k].command != ""
    requires tasks[k].lastRun != Some("") && tasks[k].lastResult != Some("")
    ensures SaveToStore(tasks, HandleSave(StartEdit(tasks[k])), freshId) == tasks
  {
    EditRoundTrip(tasks[k]);
    FirstIndexUnique(tasks, tasks[k].id, k);
    UpdateUnchanged(tasks, tasks[k]);
  }

  /** A fresh form saved without filling in a name or a command does nothing; filled
      in, it appends one enabled task under a new id. */
  lemma NewTaskSave(tasks: seq<Task>, name: string, cronExpr: string, command: string, freshId: string)
    ensures SaveToStore(tasks, HandleSave(StartNew()), freshId) == tasks
    ensures name != "" && command != "" ==>
      var d := StartNew().(name := Some(name), cronExpr := Some(cronExpr), command := Some(command));
      SaveToStore(tasks, HandleSave(d), freshId)
        == tasks + [Task(freshId, name, cronExpr, command, true, None, None)]
  {
  }

  /** The editor keeps the result the task had when editing began. If a run finishes
      meanwhile and the edit is then saved, the running marker comes back and stays:
      the row offers a stop button that reaches no process. */
  lemma StaleEditRestoresRunning(
    tasks: seq<Task>, k: nat, finishedAt: string, result: string, freshId: string)
    requires UniqueIds(tasks) && k < |tasks|
    requires tasks[k].id != "" && tasks[k].name != "" && tasks[k].command != ""
    requires tasks[k].lastResult == Some(RunningMarker)
    ensures
      var t := tasks[k];
      var finished := RunLifecycle.FinishRun(tasks, t.id, finishedAt, result);
      var saved := SaveToStore(finished, HandleSave(StartEdit(t)), freshId);
      && |saved| == |tasks|
      && finished[k].lastResult == Some(result)
      && saved[k].lastResult == Some(RunningMarker)
      && ShowsStop(saved[k])
  {
    var t := tasks[k];
    FirstIndexUnique(tasks, t.id, k);
    var finished := RunLifecycle.FinishRun(tasks, t.id, finishedAt, result);
    var d := StartEdit(t);
    assert HandleSave(d).UpdateCall?;
    var sent := HandleSave(d).task;
    assert sent.id == t.id && sent.lastResult == Some(RunningMarker);
    RunLifecycle.RunWritesKeepIds(tasks, t.id, finishedAt, result);
    assert FirstIndex(finished, t.id) == Some(k) by {
      assert forall j :: 0 <= j < k ==> finished[j] == tasks[j];
    }
  }

  // ---------------------------------------------------------------------------
  // live output

  /** The `task-output` listener: the message is appended to the task's buffer, an
      absent buffer counting as empty. */
  function OnOutput(streams: map<string, string>, id: string, msg: string): (r: map<string, string>)
    ensures r.Keys == streams.Keys + {id}
    ensures r[id] == (if id in streams then streams[id] else "") + msg
    ensures forall other :: other in streams && other != id ==> r[other] == streams[other]
  {
    streams[id := (if id in streams then streams[id] else "") + msg]
  }

  /** `handleRun`: the task's buffer is emptied before the run is requested. */
  function OnRun(streams: map<string, string>, id: string): (r: map<string, string>)
    ensures r.Keys == streams.Keys + {id} && r[id] == ""
    ensures forall other :: other in streams && other != id ==> r[other] == streams[other]
  {
    streams[id := ""]
  }

  /** The listener applied to a run's messages in order. */
  function Replay(streams: map<string, string>, id: string, msgs: seq<string>): map<string, string>
    decreases |msgs|
  {
    if |msgs| == 0 then streams
    else OnOutput(Replay(streams, id, msgs[..|msgs| - 1]), id, msgs[|msgs| - 1])
  }

  /** After a run request, the task's buffer holds exactly the concatenation of the
      messages since, and every other task's buffer is untouched. */
  lemma {:induction false} ReplayAfterRun(streams: map<string, string>, id: string, msgs: seq<string>)
    ensures id in Replay(OnRun(streams, id), id, msgs)
    ensures Replay(OnRun(streams, id), id, msgs)[id] == Concat(msgs)
    ensures forall other :: other in streams && other != id ==>
      other in Replay(OnRun(streams, id), id, msgs) && Replay(OnRun(streams, id), id, msgs)[other] == streams[other]
    decreases |msgs|
  {
    if |msgs| > 0 {
      ReplayAfterRun(streams, id, msgs[..|msgs| - 1]);
    }
  }

  /** A single reader's messages, replayed after the run request, rebuild in the page
      exactly the output the backend accumulated from that pipe. */
  lemma PageMirrorsAccumulator(
    streams: map<string, string>, id: string, chunks: seq<seq<bv8>>,
    decode: seq<bv8> -> string, lossy: seq<bv8> -> string)
    ensures
      var r := RunOutput.Flush(RunOutput.ReadAll(RunOutput.Reader("", [], []), chunks, decode), lossy);
      Replay(OnRun(streams, id), id, r.emitted)[id] == r.acc
  {
    RunOutput.ReaderEmitsWhatItAccumulates("", chunks, decode, lossy);
    var r := RunOutput.Flush(RunOutput.ReadAll(RunOutput.Reader("", [], []), chunks, decode), lossy);
    ReplayAfterRun(streams, id, r.emitted);
    assert "" + Concat(r.emitted) == Concat(r.emitted);
  }

  // ---------------------------------------------------------------------------
  // the task row

  const ManualOnlyLabel: string := "MANUAL ONLY"

  /** The schedule chip: the expression, or "MANUAL ONLY" when there is none. */
  function CronLabel(t: Task): (r: string)
    ensures r != ""
    ensures t.cronExpr != "" ==> r == t.cronExpr
    ensures t.cronExpr == "" ==> r == ManualOnlyLabel
  {
    if t.cronExpr != "" then t.cronExpr else ManualOnlyLabel
  }

  /** A task labelled manual-only by an empty expression never fires on its own. */
  lemma ManualLabelMeansNoSchedule(t: Task, now: int, cron: Tick.Cron, clock: Tick.Clock)
    ensures CronLabel(t) == ManualOnlyLabel <==> t.cronExpr == "" || t.cronExpr == ManualOnlyLabel
    ensures t.cronExpr == "" ==> !Tick.ShouldFire(t, now, cron, clock)
  {
    if t.cronExpr == "" {
      Tick.ManualOrDisabledNeverFires(t, now, cron, clock);
    }
  }

  /** What the row shows about the last result. */
  datatype Badge = NoBadge | RunningBadge | SuccessBadge | OutputBadge(isErr: bool)

  /** The badge as written: any other non-empty result is shown as output, flagged as
      an error only when it starts with "Error". */
  function ResultBadgeAsWritten(t: Task): (b: Badge)
    ensures b.NoBadge? <==> !Truthy(t.lastResult)
    ensures b.RunningBadge? <==> t.lastResult == Some(RunningMarker)
    ensures b.SuccessBadge? <==> t.lastResult == Some(RunOutput.SuccessMarker)
    ensures b.OutputBadge? ==> (b.isErr <==> StartsWith(t.lastResult.value, "Error"))
  {
    if !Truthy(t.lastResult) then NoBadge
    else if t.lastResult.value == RunningMarker then RunningBadge
    else if t.lastResult.value == RunOutput.SuccessMarker then SuccessBadge
    else OutputBadge(StartsWith(t.lastResult.value, "Error"))
  }

  /** The prefixes of every result string a failed execution produces. */
  predicate IsFailureText(s: string) {
    StartsWith(s, "Error") || StartsWith(s, "Execution Failed: ") || StartsWith(s, "Process Error: ")
  }

  /** The badge with every failure prefix recognised. */
  function ResultBadge(t: Task): (b: Badge)
    ensures b.NoBadge? <==> !Truthy(t.lastResult)
    ensures b.RunningBadge? <==> t.lastResult == Some(RunningMarker)
    ensures b.SuccessBadge? <==> t.lastResult == Some(RunOutput.SuccessMarker)
    ensures b.OutputBadge? ==> (b.isErr <==> IsFailureText(t.lastResult.value))
  {
    if !Truthy(t.lastResult) then NoBadge
    else if t.lastResult.value == RunningMarker then RunningBadge
    else if t.lastResult.value == RunOutput.SuccessMarker then SuccessBadge
    else OutputBadge(IsFailureText(t.lastResult.value))
  }

  /** The corrected badge marks every failed execution as an error, and differs from
      the written one only by marking more results as errors. */
  lemma FailuresShowAsErrors(t: Task, o: RunOutput.Outcome)
    requires t.lastResult == Some(RunOutput.ResultText(o))
    requires o.SpawnFailed? || o.WaitFailed? || (o.Exited? && !o.status.Success())
    ensures ResultBadge(t) == OutputBadge(true)
  {
    var s := RunOutput.ResultText(o);
    FailureTextRecognised(o);
    assert s != RunningMarker && s != RunOutput.SuccessMarker by {
      assert s[0] != RunningMarker[0] && s[0] != RunOutput.SuccessMarker[0];
    }
  }

  /** Every failure result starts with one of the failure prefixes. */
  lemma FailureTextRecognised(o: RunOutput.Outcome)
    requires o.SpawnFailed? || o.WaitFailed? || (o.Exited? && !o.status.Success())
    ensures IsFailureText(RunOutput.ResultText(o))
    ensures |RunOutput.ResultText(o)| > 0
    ensures RunOutput.ResultText(o)[0] == 'E' || RunOutput.ResultText(o)[0] == 'P'
  {
    match o
    case SpawnFailed(e) =>
      PrefixedText("Execution Failed: ", e);
    case WaitFailed(e, out) =>
      var head := "Process Error: " + e;
      PrefixedText("Process Error: ", e);
      FailureTextExtend(head, "\nOutput:\n");
      FailureTextExtend(head + "\nOutput:\n", RunOutput.Truncate(out));
    case Exited(status, out) =>
      var head := "Error (Exit Code " + Numerals.SignedDecimal(status.code.GetOr(-1));
      PrefixedText("Error (Exit Code ", Numerals.SignedDecimal(status.code.GetOr(-1)));
      FailureTextExtend(head, "):\n");
      FailureTextExtend(head + "):\n", RunOutput.Truncate(out));
  }

  lemma PrefixedText(prefix: string, rest: string)
    requires prefix in {"Execution Failed: ", "Process Error: ", "Error (Exit Code "}
    ensures IsFailureText(prefix + rest)
    ensures (prefix + rest)[0] == 'E' || (prefix + rest)[0] == 'P'
  {
    var s := prefix + rest;
    PrefixOfConcat(prefix, rest);
    if prefix == "Error (Exit Code " {
      assert s[..5] == prefix[..5];
    }
  }

  /** Appending to a failure text keeps it one, with the same first character. */
  lemma FailureTextExtend(s: string, t: string)
    requires IsFailureText(s)
    ensures IsFailureText(s + t)
    ensures |s + t| > 0 && (s + t)[0] == s[0]
  {
    if StartsWith(s, "Error") { StartsWithExtend(s, "Error", t); }
    else if StartsWith(s, "Execution Failed: ") { StartsWithExtend(s, "Execution Failed: ", t); }
    else { StartsWithExtend(s, "Process Error: ", t); }
  }

  lemma StartsWithExtend(s: string, prefix: string, t: string)
    requires StartsWith(s, prefix)
    ensures StartsWith(s + t, prefix)
  {
    assert (s + t)[..|prefix|] == s[..|prefix|];
  }

  lemma PrefixOfConcat(a: string, b: string)
    ensures StartsWith(a + b, a)
  {
    assert (a + b)[..|a|] == a;
  }

  /** Where the two agree and where they differ. */
  lemma BadgeRefines(t: Task)
    ensures ResultBadgeAsWritten(t).OutputBadge? <==> ResultBadge(t).OutputBadge?
    ensures !ResultBadgeAsWritten(t).OutputBadge? ==> ResultBadgeAsWritten(t) == ResultBadge(t)
    ensures ResultBadgeAsWritten(t) == OutputBadge(true) ==> ResultBadge(t) == OutputBadge(true)
  {
  }

  /** The written badge shows a command that could not even be started as "[OK]". */
  lemma SpawnFailureShownAsOk(t: Task)
    requires t.lastResult == Some(RunOutput.ResultText(RunOutput.SpawnFailed("program not found")))
    ensures ResultBadgeAsWritten(t) == OutputBadge(false)
    ensures ResultBadge(t) == OutputBadge(true)
  {
    var s := t.lastResult.value;
    assert s[..5] != "Error" by { assert s[0] == 'E' && s[1] == 'x'; }
    assert s[..18] == "Execution Failed: ";
  }

  /** The button a row offers: stop while the task is marked running, run otherwise. */
  predicate ShowsStop(t: Task) {
    t.lastResult == Some(RunningMarker)
  }

  /** In the backend list, the task offers the stop button only until the first
      partial write, about a second into the run: from then on its row offers "run",
      although `stop_task` would still reach the child. The partial write emits no
      event, so an open page shows this only once it reads the list again mid-run:
      on mount, on another run's `task-updated` event, or after a save or delete. */
  lemma StopButtonLostDuringRun<C>(
    tasks: seq<Task>, id: string, partial: string, table: map<string, C>, child: C)
    requires RunLifecycle.BeginRun(tasks, id).Started?
    requires partial != RunningMarker
    ensures
      var k := FirstIndex(tasks, id).value;
      var marked := RunLifecycle.BeginRun(tasks, id).tasks;
      && ShowsStop(marked[k])
      && !ShowsStop(RunLifecycle.PublishPartial(marked, id, partial)[k])
      && RunLifecycle.StopTarget(RunLifecycle.Register(table, id, child), id) == Some(child)
  {
    RunLifecycle.PartialWriteClearsMarker(tasks, id, partial);
  }

  /** The text of the live panel, shown only while the task is marked running: the
      task's buffer, or the task's result when the buffer is empty or absent. */
  function RunningPanelText(streams: map<string, string>, t: Task): string
    requires ShowsStop(t)
  {
    if t.id in streams && streams[t.id] != "" then streams[t.id]
    else if Truthy(t.lastResult) then t.lastResult.value
    else "Waiting for output..."
  }

  /** The stop button appears exactly with the running badge, and the panel never
      falls back to its "Waiting for output..." text: the result it would fall back
      to is the running marker itself. */
  lemma RowConsistent(streams: map<string, string>, t: Task)
    ensures ShowsStop(t) <==> ResultBadge(t).RunningBadge?
    ensures ShowsStop(t) <==> ResultBadgeAsWritten(t).RunningBadge?
    ensures ShowsStop(t) ==>
      RunningPanelText(streams, t) ==
        (if t.id in streams && streams[t.id] != "" then streams[t.id] else RunningMarker)
  {
  }
}

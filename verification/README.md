# aTools automation core, modelled in Dafny

aTools is a Tauri desktop toolbox: a Rust backend and a React front end. This
project models its automation task engine and the small pure pieces of logic
around it, and proves properties of the model.

- **Task store** (`TaskStore`): the `Task` record, the start-up reset of a stale
  `"Running..."` result to `"Interrupted"`, and the `add_task` / `update_task` /
  `delete_task` commands over the task list.
- **Tick rule** (`Tick`): the once-a-second decision of which tasks fire. The
  `cron` crate and chrono's RFC 3339 conversions are parameters of the model.
- **Run bookkeeping** (`RunLifecycle`):
  - the write at the start of a run and the write at its end;
  - the partial-output write made while a run is in progress;
  - the table of live child processes that `stop_task` consults.
- **Result string** (`RunOutput`):
  - the cut to the last 20 KiB, which counts UTF-8 bytes explicitly;
  - the classification into `Success`, `Error (Exit Code …)`, `Process Error`
    and `Execution Failed`;
  - the accumulator kept by each pipe reader.
- **Automation page** (`AutomationPage`):
  - the editor's save action and its payload;
  - the per-task live output buffers;
  - each task row's schedule label, result badge and run/stop button.
- **Backend system commands** (`NetInfo`):
  - the `netstat -ano` port table;
  - the sorted, de-duplicated `resolve_domain` answer;
  - the `0x…` window-handle format.
- **Process table** (`ProcessViewer`): the search filter, the column sort and its
  header toggle, and the ports cell.
- **Settings** (`Settings`): the theme and language restored from local storage,
  and the translation function `t`.

The helper modules provide the library behaviour the code relies on:

- `Options`: `Option` and `Result`.
- `Text`:
  - `split_whitespace`, `trim`, line splitting, `rfind`;
  - JavaScript `includes`, ASCII lower-casing and `join`.
- `Numerals`: decimal and hexadecimal rendering, and Rust's unsigned integer
  parsing with its range limit.
- `Sorting`: a stable insertion sort under a caller-supplied order,
  `Vec::dedup`, and the lexicographic order on strings.

Time is integer nanoseconds. chrono's `num_seconds` truncates toward zero, and
the model writes that out. Rust measures and slices strings by UTF-8 byte. The
model keeps strings as character sequences and computes their UTF-8 length.

Some source behaviour is not obvious from the code. The proofs establish the
following:

- **A run may execute, then write nothing.** If a task is deleted while its
  command runs, the result is discarded (`DeletedDuringRun`). If it is edited
  meanwhile, the edit is kept and the result is added to it (`FinishAfterUpdate`).
- **Overlapping runs of one task are not guarded.** Nothing prevents two runs
  of the same task. The second run's child replaces the first in the live table.
  Once the second run finishes, `stop_task` reaches neither child
  (`OverlappingRuns`).
- **The scheduler itself can start one occurrence twice.** `last_run` is written
  only when a run finishes. A scheduled run still going at the next tick is
  therefore queued again for the same occurrence (`SameMinuteStartedTwice`).
  Writing `last_run` at queue time prevents this (`TickCorrected`,
  `CorrectedTickStartsOccurrenceOnce`).
- **The Stop button can disappear during a run.** While a command runs, the
  backend overwrites the stored result with the output so far roughly once a
  second. That write sends no `task-updated` event, so an open page keeps its
  copy and the row keeps its stop button until the finish event. The page reads
  the list again on mount, on any `task-updated` event, and after its own save
  or delete. If any of these happens mid-run, such as another task starting or
  finishing, or the page being reopened, the row offers "run" instead. The child
  can still be stopped (`StopButtonLostDuringRun`).
- **A stale edit can bring back the running marker.** The editor sends back the
  result it loaded. If a run finished in between, saving restores
  `"Running..."`, which then stays (`StaleEditRestoresRunning`).
- **Blank output reads "Success" only when it is short.** A successful run reports
  `"Success"` exactly when its output is blank and at most 20 KiB, or is
  literally `Success` (`ResultTextSpec`, stated over the corrected cut). Longer
  blank output is truncated and keeps its header.
- **The reader never has anything to flush.** Each reader clears its pending
  bytes after every read, so the end-of-stream flush never emits anything
  (`ReaderEmitsWhatItAccumulates`).
- **The stdout reader's GBK fallback branches are identical.** Both produce the
  same text (`ReadersDecodeAlike`).
- **The sort comparator's `undefined` test never fires.** The backend sends a
  missing parent pid as JSON `null`, and JavaScript's `<` compares `null` as
  `0`. So the test never applies to the sortable columns (`KeyOf`).

## Model

| member | source | states |
|---|---|---|
| TaskStore.ResetOnLoadSpec | src-tauri/src/scheduler.rs:47-54 | after loading no task is marked running; a task that was becomes "Interrupted" with every other field kept; all other tasks, the order, the count and the ids are unchanged |
| TaskStore.ResetOnLoadIdempotent | src-tauri/src/scheduler.rs:47-54 | resetting an already reset list changes nothing |
| TaskStore.FirstIndex | src-tauri/src/scheduler.rs:146 | the position `find` stops at holds the id and no earlier task does; there is none exactly when no task has the id |
| TaskStore.FirstIndexAt | src-tauri/src/scheduler.rs:146 | a position holding the id with no earlier one holding it is exactly where `find` stops |
| TaskStore.AddTask | src-tauri/src/scheduler.rs:460-467 | one task is appended; every earlier task is untouched; the new task is the caller's except for the generated id |
| TaskStore.AddKeepsUnique | src-tauri/src/scheduler.rs:460-463 | adding under a fresh id keeps ids unique and adds exactly that id |
| TaskStore.AddThenDelete | src-tauri/src/scheduler.rs:460-487 | deleting the id just added restores the list |
| TaskStore.UpdateTask | src-tauri/src/scheduler.rs:470-478 | only the first task with the new task's id is replaced; the length is kept; an absent id changes nothing |
| TaskStore.UpdateKeepsIds | src-tauri/src/scheduler.rs:470-474 | an update keeps the set of ids and their uniqueness |
| TaskStore.UpdateUnchanged | src-tauri/src/scheduler.rs:472-473 | updating with the task already stored under its id is a no-op |
| TaskStore.UpdateIdempotent | src-tauri/src/scheduler.rs:470-474 | updating twice with one task equals updating once |
| TaskStore.DeleteTask | src-tauri/src/scheduler.rs:481-487 | afterwards no task has the id, and a task remains exactly when it was present with another id |
| TaskStore.DeleteTaskAppend | src-tauri/src/scheduler.rs:483 | deletion keeps the surviving tasks in their order: it distributes over concatenation |
| TaskStore.DeleteIdempotent | src-tauri/src/scheduler.rs:483 | deleting twice equals deleting once |
| TaskStore.DeleteAfterUpdate | src-tauri/src/scheduler.rs:470-487 | an update followed by deleting that id is the same as the delete alone |
| RunLifecycle.BeginRun | src-tauri/src/scheduler.rs:144-152 | an absent id starts nothing; otherwise only the first matching task's result becomes "Running..." and its command is the one run |
| RunLifecycle.FinishRun | src-tauri/src/scheduler.rs:162-168 | the finish time and result go to the first task with the id and nowhere else; with no such task the list is unchanged |
| RunLifecycle.PublishPartial | src-tauri/src/scheduler.rs:407-412 | the periodic write replaces only the first matching task's result with the output so far |
| RunLifecycle.PartialWriteClearsMarker | src-tauri/src/scheduler.rs:407-412 | after the first partial write the running task no longer carries the running marker |
| RunLifecycle.RunAbsentIsNoOp | src-tauri/src/scheduler.rs:144-152 | a run for an absent id executes nothing and changes nothing |
| RunLifecycle.UndisturbedRun | src-tauri/src/scheduler.rs:141-168 | an undisturbed run executes the task's command and leaves only its finish time and result behind |
| RunLifecycle.DeletedDuringRun | src-tauri/src/scheduler.rs:162-168 | if the task is gone when the run ends, the result is discarded and the edited list stands |
| RunLifecycle.FinishAfterDelete | src-tauri/src/scheduler.rs:162-168 | finishing after `delete_task` of the id leaves the deletion as it is |
| RunLifecycle.FinishAfterUpdate | src-tauri/src/scheduler.rs:162-168 | an edit made during the run is kept and receives the finish time and result |
| RunLifecycle.RunWritesKeepIds | src-tauri/src/scheduler.rs:144-168 | neither run write changes the set of ids |
| RunLifecycle.Register | src-tauri/src/scheduler.rs:208-211 | the id now maps to the new child, replacing any earlier one; other runs are untouched |
| RunLifecycle.Unregister | src-tauri/src/scheduler.rs:419-422 | the id is removed from the live table; other runs are untouched |
| RunLifecycle.StopTarget | src-tauri/src/scheduler.rs:503-511 | stop finds a child exactly when one is registered under the id, and it is that child |
| RunLifecycle.OverlappingRuns | src-tauri/src/scheduler.rs:208-211 | with two overlapping runs stop reaches only the second, and none once the second has finished |
| Tick.TasksToRun | src-tauri/src/scheduler.rs:92-124 | the queued ids are exactly those of the tasks that are enabled, scheduled, due in the window and past the debounce |
| Tick.TasksToRunInOrder | src-tauri/src/scheduler.rs:92-124 | with unique ids, the queue follows the order of the list: each queued id's task comes before the next one's |
| Tick.TasksToRunOnce | src-tauri/src/scheduler.rs:92-124 | with unique ids, no id is queued twice in one tick |
| Tick.DebounceSpec | src-tauri/src/scheduler.rs:106-112 | a readable last run blocks the task until two whole seconds have passed, because the difference is truncated to whole seconds |
| Tick.FireWindow | src-tauri/src/scheduler.rs:97-104 | a task fires only when the schedule has an occurrence in (now - 2 s, now] |
| Tick.ManualOrDisabledNeverFires | src-tauri/src/scheduler.rs:93-95 | disabled tasks and tasks without an expression never fire |
| Tick.FinishedRunDebounces | src-tauri/src/scheduler.rs:106-112 | after a run finishes, the task cannot fire again for two seconds; afterwards the schedule alone decides |
| Tick.RunningTaskQueuedAgain | src-tauri/src/scheduler.rs:97-119 | as written, a task queued at one tick whose run has started but not finished is queued again a second later while the same occurrence is still the next one in the window |
| Tick.SameMinuteStartedTwice | src-tauri/src/scheduler.rs:97-119 | as written, a minutely task with no last run is queued at 60.5 s and again at 61.5 s, with its first run marked running |
| Tick.TickCorrected | src-tauri/src/scheduler.rs:114-119 | (corrected) the tick queues the same ids and writes `now` as the last run of exactly the tasks it queues, leaving every other task unchanged |
| Tick.CorrectedTickStartsOccurrenceOnce | src-tauri/src/scheduler.rs:97-119 | (corrected) once queued, a task fires again only for a later occurrence than the one that fired, whatever the run writes to its result |
| Tick.SameMinuteStartedOnce | src-tauri/src/scheduler.rs:97-119 | (corrected) the minutely task is queued at 60.5 s and not at 61.5 s |
| RunOutput.BoundaryAt | src-tauri/src/scheduler.rs:435 | a reported character position starts exactly at the given byte offset |
| RunOutput.BoundaryAtComplete | src-tauri/src/scheduler.rs:435 | every byte offset where a character starts is reported; offsets inside a character are not |
| RunOutput.CeilBoundary | src-tauri/src/scheduler.rs:432-435 | the first character position at or after a byte offset |
| RunOutput.TruncateSpec | src-tauri/src/scheduler.rs:430-436 | output up to 20 KiB is kept; longer output becomes the header plus the suffix from the first character boundary that keeps at most 20 KiB (20 KiB less up to 3 bytes; one character earlier would keep more than 20 KiB), and hidden plus kept bytes add up to the whole |
| RunOutput.CutPointSpec | src-tauri/src/scheduler.rs:432-435 | the corrected cut hides at least one character and keeps between 20 KiB - 3 and 20 KiB bytes, hidden plus kept being the whole; cutting one character earlier would keep more than 20 KiB |
| RunOutput.TruncateExactWhenNoPanic | src-tauri/src/scheduler.rs:430-436 | where the byte slice does not panic, the written cut keeps exactly the last 20 KiB and the header counts exactly the bytes before them |
| RunOutput.TruncateAgrees | src-tauri/src/scheduler.rs:430-436 | wherever the byte slice does not panic, the corrected cut gives the same text |
| RunOutput.TruncateAsWrittenPanics | src-tauri/src/scheduler.rs:432-435 | 6827 copies of U+4E2D make the byte slice panic; the corrected cut hides 3 bytes |
| RunOutput.TruncateBlank | src-tauri/src/scheduler.rs:441 | the truncated text is blank exactly when the output is blank and at most 20 KiB |
| RunOutput.SuccessOrOutputSpec | src-tauri/src/scheduler.rs:441 | a successful run records "Success" exactly for blank text or the text "Success", and any non-blank text as it is |
| RunOutput.ResultTextSpec | src-tauri/src/scheduler.rs:438-449 | the result for each way an execution ends, over the corrected cut: "Success" exactly for short blank output (or the literal text), else the output; the exit-code, wait-error and spawn-failure forms |
| RunOutput.ResultTextAsWritten | src-tauri/src/scheduler.rs:430-449 | as written: no result is recorded exactly when the execution got as far as the output and the byte slice panics |
| RunOutput.ResultTextAgrees | src-tauri/src/scheduler.rs:430-449 | whenever the written code records a result, it is the one the corrected cut gives |
| RunOutput.PanicLosesResult | src-tauri/src/scheduler.rs:430-449 | with 6827 copies of U+4E2D as output, the written code records no result, whether the child exited or waiting failed |
| RunOutput.ReadersDecodeAlike | src-tauri/src/scheduler.rs:261-300 | the stdout reader's two GBK branches produce the same text as the stderr reader |
| RunOutput.ReadAllSpec | src-tauri/src/scheduler.rs:235-306 | a run of reads from nothing pending emits one decoded message per read, leaves nothing pending and appends exactly the messages to the accumulator |
| RunOutput.ReaderEmitsWhatItAccumulates | src-tauri/src/scheduler.rs:235-316 | a reader emits one decoded message per read, appends exactly their concatenation to the accumulator, and never has anything left to flush |
| AutomationPage.OrNull | src/pages/Automation.tsx:63-64 | `x \|\| null` keeps exactly the present, non-empty values |
| AutomationPage.HandleSaveSpec | src/pages/Automation.tsx:54-71 | no call without a name and a command; an update exactly when an id is set; the payload fields and their defaults (explicit `false` kept) |
| AutomationPage.EditRoundTrip | src/pages/Automation.tsx:54-97 | opening a stored task and saving it unchanged sends back the same task |
| AutomationPage.EditSaveIsNoOp | src/pages/Automation.tsx:54-71 | such a save leaves a list with unique ids unchanged |
| AutomationPage.NewTaskSave | src/pages/Automation.tsx:54-102 | an empty new form saves nothing; a filled one appends one enabled task under the fresh id |
| AutomationPage.StaleEditRestoresRunning | src/pages/Automation.tsx:94-97 | an edit opened during a run and saved after it restores "Running...", and the row then offers stop |
| AutomationPage.OnOutput | src/pages/Automation.tsx:40-46 | an output event appends to that task's buffer (starting from empty) and leaves the other buffers alone |
| AutomationPage.OnRun | src/pages/Automation.tsx:84-88 | a run request empties only that task's buffer |
| AutomationPage.ReplayAfterRun | src/pages/Automation.tsx:40-46 | after a run request the buffer holds exactly the concatenated messages since, and other buffers are untouched |
| AutomationPage.PageMirrorsAccumulator | src-tauri/src/scheduler.rs:244-249 | replaying one reader's events rebuilds in the page exactly what the backend accumulated |
| AutomationPage.CronLabel | src/pages/Automation.tsx:210 | the schedule chip shows a non-empty expression as itself and "MANUAL ONLY" for an empty one, so it is never empty |
| AutomationPage.ManualLabelMeansNoSchedule | src/pages/Automation.tsx:210 | "MANUAL ONLY" is shown for an empty expression, and such a task never fires on its own |
| AutomationPage.ResultBadgeAsWritten | src/pages/Automation.tsx:221-233 | as written: no badge for a missing or empty result, running and success badges for the two markers, otherwise output flagged as an error exactly when it starts with "Error" |
| AutomationPage.ResultBadge | src/pages/Automation.tsx:221-233 | (corrected) no badge for a missing or empty result, running and success badges for the two markers, otherwise output flagged as an error exactly for failure texts |
| AutomationPage.FailuresShowAsErrors | src/pages/Automation.tsx:221-224 | every failed execution's result gets the ERR badge (corrected) |
| AutomationPage.FailureTextRecognised | src-tauri/src/scheduler.rs:438-449 | every failure result (over the corrected cut) starts with "Error", "Process Error: " or "Execution Failed: " |
| AutomationPage.BadgeRefines | src/pages/Automation.tsx:221-233 | the written and the corrected badge differ only in flagging more outputs as errors |
| AutomationPage.SpawnFailureShownAsOk | src/pages/Automation.tsx:223-224 | as written, a command that could not start is shown as "[OK] Output" |
| AutomationPage.StopButtonLostDuringRun | src/pages/Automation.tsx:247 | in the backend list, stop is offered when the run starts but not after the first partial write, though the child is still registered; the page shows this only once it reads the list again mid-run |
| AutomationPage.RowConsistent | src/pages/Automation.tsx:234-247 | the stop button appears exactly with the running badge; the panel falls back to the running marker, never to "Waiting for output..." |
| NetInfo.ParsePort | src-tauri/src/lib.rs:41-43 | a parsed port is below 65536; an address without ':' gives no port |
| NetInfo.EntryOfTokens | src-tauri/src/lib.rs:39-43 | a row yields an entry exactly when its last token parses as a u32 pid and its second token's port as a u16, and the entry holds those values |
| NetInfo.LineEntryAsWritten | src-tauri/src/lib.rs:36-47 | as written: a line yields an entry exactly when it has at least five tokens, the first is TCP or UDP, the last is a u32 pid and the second ends in a u16 port; anything else (a header, a short row, a bad pid or port) yields none |
| NetInfo.LineEntry | src-tauri/src/lib.rs:36-47 | (corrected row test) the same, with four tokens enough for a UDP row; entries are in range |
| NetInfo.LineEntryExtends | src-tauri/src/lib.rs:37 | the corrected test accepts every row the written one does, with the same entry, and differs only on four-token UDP rows |
| NetInfo.AsWrittenDropsFourTokenRows | src-tauri/src/lib.rs:37 | as written, every four-token row is dropped |
| NetInfo.TcpRowParses | src-tauri/src/lib.rs:34-47 | a printed TCP row reads back to its pid and local port under both tests |
| NetInfo.UdpRowParses | src-tauri/src/lib.rs:34-47 | a printed UDP row reads back under the corrected test and is dropped as written |
| NetInfo.UdpRowDroppedExample | src-tauri/src/lib.rs:37 | the concrete row `UDP 0.0.0.0:5353 *:* 2468` is dropped as written |
| NetInfo.CollectSpec | src-tauri/src/lib.rs:34-48 | the collected table lists exactly the processes with a parsed row, and for each exactly the ports of its rows |
| NetInfo.PortsByPidKeys | src-tauri/src/lib.rs:24-58 | a pid is a key exactly when some line yields an entry for it |
| NetInfo.PortsByPidPorts | src-tauri/src/lib.rs:51-55 | each pid's list is strictly ascending and holds exactly the ports of its lines |
| NetInfo.UdpOnlyOutput | src-tauri/src/lib.rs:24-58 | output holding one UDP row gives an empty table as written, and that pid and port when corrected |
| NetInfo.ResolveDomain | src-tauri/src/lib.rs:131-144 | a lookup error is passed on unchanged |
| NetInfo.ResolveDomainSpec | src-tauri/src/lib.rs:135-140 | a successful lookup yields each address exactly once, in strictly ascending order |
| NetInfo.FormatHandleRoundTrip | src-tauri/src/lib.rs:83-86 | a handle prints as "0x" plus upper-case hex digits without leading zeros that read back to the handle |
| NetInfo.FormatHandleInjective | src-tauri/src/lib.rs:83-86 | distinct handles print differently |
| Numerals.ParseUnsigned | src-tauri/src/lib.rs:39 | a parsed value is below the type's limit |
| Numerals.ParseDecimalRoundTrip | src-tauri/src/lib.rs:39-43 | a printed number in range parses back, with or without a leading '+' |
| Numerals.ParseRejectsOverflow | src-tauri/src/lib.rs:42 | a number beyond the type's range does not parse |
| Numerals.ParseRejectsMinus | src-tauri/src/lib.rs:39 | a leading '-' never parses as unsigned |
| Numerals.RenderRoundTrip | src-tauri/src/lib.rs:83 | rendering gives digits that read back to the number, with no leading zero except for 0 itself |
| Sorting.Sort | src/pages/ProcessViewer.tsx:57 | sorting rearranges and never adds or loses an element |
| Sorting.SortSorted | src/pages/ProcessViewer.tsx:57-65 | under a total preorder the result is sorted |
| Sorting.Dedup | src-tauri/src/lib.rs:53 | the same elements, no longer than before, first element kept |
| Sorting.SortDedupSpec | src-tauri/src/lib.rs:51-55 | sorting then de-duplicating yields a strictly ascending list of the same elements |
| Sorting.StrLeTotalOrder | src-tauri/src/lib.rs:138 | string order is total, transitive and antisymmetric |
| Text.Tokens | src-tauri/src/lib.rs:36 | every token is non-empty and contains no whitespace |
| Text.TokensOfJoin | src-tauri/src/lib.rs:36 | splitting a whitespace-joined row of words returns the words |
| Text.Lines | src-tauri/src/lib.rs:34 | no line contains a line feed |
| Text.LinesJoin | src-tauri/src/lib.rs:34 | joining the lines with line feeds restores the text |
| Text.LastIndexOf | src-tauri/src/lib.rs:42 | the position holds the character and none follows; absence means the character does not occur |
| Text.TrimEmptyIffBlank | src-tauri/src/scheduler.rs:441 | the trimmed text is empty exactly when the text is blank |
| Text.ContainsEmpty | src/pages/ProcessViewer.tsx:55 | every string contains the empty string |
| ProcessViewer.Filter | src/pages/ProcessViewer.tsx:54-56 | the kept rows all match and each matching row is kept as often as it occurs |
| ProcessViewer.FilterEmpty | src/pages/ProcessViewer.tsx:54-56 | an empty search keeps every row in order |
| ProcessViewer.FilterAppend | src/pages/ProcessViewer.tsx:54-56 | the filter keeps relative order |
| ProcessViewer.Compare | src/pages/ProcessViewer.tsx:57-65 | the comparator answers -1, 0 or 1, and 0 exactly for equal keys |
| ProcessViewer.BeforeMeans | src/pages/ProcessViewer.tsx:57-65 | the comparator orders by the column's key, descending or ascending |
| ProcessViewer.BeforeTotalPreorder | src/pages/ProcessViewer.tsx:57-65 | the comparator is a consistent (total, transitive) order on the rows |
| ProcessViewer.DisplayedSpec | src/pages/ProcessViewer.tsx:54-65 | the table is a permutation of the matching rows, non-increasing by the key when descending and non-decreasing otherwise |
| ProcessViewer.HandleSort | src/pages/ProcessViewer.tsx:67-74 | a click always selects the clicked column |
| ProcessViewer.HandleSortToggles | src/pages/ProcessViewer.tsx:67-74 | two clicks on the current column restore the sort; a new column starts descending |
| ProcessViewer.PortsCellSpec | src/pages/ProcessViewer.tsx:134 | "-" exactly when there are no ports; otherwise it starts with the first port's leading digit; "..." exactly when there are more than three |
| ProcessViewer.PortsCellContents | src/pages/ProcessViewer.tsx:134 | with ports, the cell is the first three (or fewer) ports joined by ", ", each a canonical decimal that parses back to its port, followed by "..." exactly when there are more than three |
| Settings.InitialTheme | src/context/SettingsContext.tsx:177-180 | the hacker theme exactly when "hacker" was stored, cyberpunk otherwise |
| Settings.InitialLanguage | src/context/SettingsContext.tsx:182-185 | English exactly when "en" was stored, Chinese otherwise |
| Settings.Persist | src/context/SettingsContext.tsx:187-195 | both keys are written and no other entry changes |
| Settings.PersistRestore | src/context/SettingsContext.tsx:177-194 | every theme and language survives a restart |
| Settings.RestoreNames | src/context/SettingsContext.tsx:177-185 | a stored valid name is restored; anything else gives the defaults |
| Settings.RestoreNormalises | src/context/SettingsContext.tsx:177-194 | start-up writes back what it restored, and a restart restores the same |
| Settings.Translate | src/context/SettingsContext.tsx:197-199 | the text is the table's non-empty entry for the key, else the key; it is empty only for an empty key without an entry |
| Settings.TranslateSpec | src/context/SettingsContext.tsx:197-199 | a non-empty key never renders blank; an empty entry falls back to the key |

## Left out

- Cron expressions: the `cron` crate's parser and schedule are parameters. The
  only property relied on is that the next occurrence after `t` is later than
  `t`. No calendar semantics are claimed.
- Clock: chrono's RFC 3339 formatting and parsing are parameters. Some lemmas
  assume that a formatted instant parses back to itself. The wall clock and the
  one-second sleep are not modelled, so each tick's `now` is an input.
- Process execution is not modelled: spawning, pipes, reader threads, the
  200 ms polling loop and its timing, `try_wait`, `kill` and `taskkill`. An
  execution enters as its outcome (spawn failure, wait failure, or exit status
  plus accumulated output). The partial-output write is modelled as a single
  write.
- Output decoding is not modelled. `encoding_rs` GBK and UTF-8 decoding, and
  `from_utf8_lossy`, are parameters.
- Concurrency between the two readers is not modelled: they append to one
  accumulator in an interleaving the model does not fix. The reader lemma is
  stated per stream.
- Between the two run writes, the edits other commands make are one arbitrary
  function of the list.
- Not modelled, as I/O: JSON persistence of the task list (`save`, loading
  `tasks.json`), Tauri events, `get_tasks`, `run_task_manual`'s thread spawn,
  React rendering, `localStorage` itself, and the `data-theme` attribute.
- `add_task`'s id is a parameter, and freshness is a precondition where needed.
  uuid generation is not modelled.
- `get_processes`, `get_window_handles` (PowerShell and JSON) and the
  resolver's lookup are not modelled: their results are inputs.
- Floating point: `cpu_usage` is an integer in the model, and `formatBytes` and
  the CPU percentage text are not modelled.
- ProcessViewer.Matches: lower-cases ASCII letters only. JavaScript's
  `toLowerCase` also folds non-ASCII letters.
- Sorting.StrLe: compares code points. JavaScript's `<` on strings compares
  UTF-16 code units, which order differently only above U+FFFF.
- ProcessViewer.DisplayedSpec: states permutation and order but not stability.
  The model's insertion sort is stable, as `Array.prototype.sort` is.
- Text.Lines: splits at line feeds only. Rust's `lines()` also drops a `'\r'`
  before each line feed and yields no final empty line. Both differences vanish
  once a line is split into tokens, and the netstat parser only uses the tokens.
- RunOutput.ResultText: composes the corrected cut, so its lemmas describe the
  result the corrected code records. The written code records the same result
  except where the byte slice panics, when it records none
  (`RunOutput.ResultTextAsWritten`, `RunOutput.ResultTextAgrees`).
- Settings.Translate: a key naming an `Object.prototype` member (such as
  `"toString"`) would return that member in JavaScript. The model treats every
  key as a plain table lookup.
- DevTools, the settings page, the title bar, the sidebar, the layout and the
  tray setup are presentation only and are not modelled.
- Not modelled, because it does not exist in the code: an "already running"
  outcome. Nothing prevents two runs of one task (`OverlappingRuns`).

## Findings

| source | as written | input that shows it | evidently intended | confidence | as-written member | corrected member |
|---|---|---|---|---|---|---|
| src-tauri/src/scheduler.rs:432-435 | `&final_output[len - MAX_LOG_SIZE..]` slices at a byte offset that can fall inside a multi-byte character, which panics and discards the run's result | 6827 copies of U+4E2D (20481 bytes): the cut is at byte 1, inside the first character | cut at the next character boundary and report the bytes actually hidden | high (not executed) | RunOutput.TruncateAsWrittenPanics | RunOutput.TruncateSpec |
| src-tauri/src/lib.rs:37 | `parts.len() >= 5` for both protocols; Windows prints UDP rows without a State column, so every UDP row has four tokens and is dropped | the row `UDP 0.0.0.0:5353 *:* 2468` yields no entry, and output with only that row yields an empty table | require four tokens for UDP and five for TCP | high (not executed) | NetInfo.AsWrittenDropsFourTokenRows | NetInfo.UdpRowParses |
| src-tauri/src/scheduler.rs:114-119 | the tick relies on `last_run` to stop a second start, but `last_run` is written only when the run finishes (line 165), and the 2 s window spans two ticks, so a run still going at the next tick is started again for the same occurrence | a minutely task with no last run: queued at 60.5 s for the 60 s occurrence, then queued again at 61.5 s while its first run is marked running | write `last_run` as the tick queues the task, so that each occurrence starts one run | medium (not executed) | Tick.SameMinuteStartedTwice | Tick.CorrectedTickStartsOccurrenceOnce |
| src/pages/Automation.tsx:223-224 | only results starting with "Error" get the ERR badge, so "Execution Failed: …" and "Process Error: …" show as "[OK] Output" | the result `Execution Failed: program not found` | flag every failure result as ERR | medium (not executed) | AutomationPage.SpawnFailureShownAsOk | AutomationPage.FailuresShowAsErrors |

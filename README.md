# TuskCLI core, modelled in Dafny

TuskCLI is a small task runner. A `TuskFile.js` registers named tasks, each an
ordered list of operations (a name, a description and a callback). The command
line then runs either the requested tasks or a default action. The default
action is "run" or "build", and it can be inferred from the `scripts` of
`package.json`.

This project models the following:

- **Registry** (`Task.Registry`): the task registry, an insertion-ordered JS
  `Map` from task name to task.
- **Built-in tasks** (`Tusk`): the host object's options and the built-in
  "build" and "run" tasks.
- **Operation queue** (`OpRunner.OpRunner`):
  - it loads a task's operations into a queue keyed by operation name;
  - it runs that queue fail-fast;
  - it breaks long descriptions into lines.
- **Space builders**: the two identical helpers (`SpaceFactory`, `Spaces`).
- **Cache** (`TuskCache`): the default-action cache over `.TuskCache.json` and
  `package.json`.
- **Request handling** (`Index`): what `src/Index.ts` and `src/index.ts` do
  with a request.
- **The repository's own `tuskFile.js`** (`TuskFile`).

Both the registry and the queue are one generic ordered map,
`OrderedMap.OMap<V>`. Setting an existing key keeps its position, a new key
goes last, and deleting a key keeps the order of the others.

A callback's result is a parameter. Within one run, `respond(k, op)` is the
result of the operation invoked at position `k`. A whole request has an
environment `env(r, k, op)` indexed by the run as well, because every run calls
the callbacks afresh: the `r`-th run of a request sees `RunEnv(env, r)`. A result of `undefined` or `true`
is success. Anything else (`false`, or any other value) is failure, and the
run stops at that operation. `FailureIndex` gives the position of the first
failing operation. `FailFast` ties the run's outcome and the operations it
invoked to that position.

The modules form a dependency chain:

1. `Optional`, `Misc` and `Op` hold the value types.
2. `OrderedMap` builds on them.
3. `Task` builds on `OrderedMap`.
4. `SpaceFactory` and `Spaces` stand alone.
5. `OpRunner`, `TuskCache` and `Tusk` build on the modules above.
6. `Index` handles a request using all of them.
7. `TuskFile` is the repository's own task file, stated over `Index`.

Where the code and its comments or documentation disagree, the model follows
the code:

- `isPackageModified` is true exactly when the cache file *exists*.
- `updateDefaultAction` does nothing.
- `prepare` of an unknown name leaves the previous queue in place, and
  `runTask` ignores that and runs it anyway.
- `Report.fatal` exits with code 0.
- A request for an unknown task ends the request, but only after the earlier
  requested tasks have run.
- The `-t` option sets the TuskFile path to `undefined`.

## Model

| member | source | states |
|---|---|---|
| OrderedMap.Position | src/OpRunner.ts:43-44 | the index of a key in the insertion order is where it occurs first |
| OrderedMap.OMap.Size | src/OpRunner.ts:50-58 | `map.size` is the number of entries |
| OrderedMap.OMap.Has | src/OpRunner.ts:63-65 | `map.has(k)` is true exactly when `k` is one of the keys iterated over |
| OrderedMap.OMap.Get | src/Task.ts:13-19 | `map.get(k)` is defined exactly when `has(k)`, and then it is the stored value |
| OrderedMap.OMap.Values | src/OpRunner.ts:50-58 | `map.values()`: the stored values in key iteration order |
| OrderedMap.ValuesInOrder | src/OpRunner.ts:50-58 | `values()` has one element per entry, and its `i`-th element is the value of the `i`-th key |
| OrderedMap.OMap.Set | src/Task.ts:13-19 | `map.set(k, v)` keeps the keys distinct and in step with the entries |
| OrderedMap.OMap.Delete | src/OpRunner.ts:43-45 | `map.delete(k)` keeps the keys distinct and in step with the entries |
| OrderedMap.SetGet | src/Task.ts:13-19 | after `Map.set(k, v)`, `get(k)` is `v` and every other key reads as before |
| OrderedMap.SetOrder | src/Task.ts:13-19 | `set` on a present key keeps size and position; on a new key it grows the map by one and puts the key last |
| OrderedMap.SetValues | src/OpRunner.ts:36-38 | the values after `set` are the old values with the entry replaced in place, or with the new value appended |
| OrderedMap.SetKeepsKeys | src/Task.ts:13-19 | `set` never removes a key |
| OrderedMap.SetSame | src/Tusk.ts:69-85 | setting a key to the value it already holds leaves the map unchanged |
| OrderedMap.DeleteGet | src/OpRunner.ts:43-45 | `delete(k)` of a present key makes it absent, shrinks the map by one and leaves every other key's value |
| OrderedMap.DeleteValues | src/OpRunner.ts:43-45 | `delete(k)` of a present key removes exactly that entry from the value order and keeps the others in order |
| OrderedMap.SetAllKeyedBy | src/OpRunner.ts:19-21 | setting a sequence of values under their own keys keeps every entry stored under its own key |
| OrderedMap.LastKeyed | src/OpRunner.ts:19-21 | the value a key ends up with after a run of `set`s is the last one written under it; none when no value has that key |
| OrderedMap.LastKeyedDistinct | src/OpRunner.ts:19-21 | when no two values share a key, each value is the last one written under its key |
| OrderedMap.SetAllGet | src/OpRunner.ts:19-21 | after a run of `set`s each key reads as its last written value, or its earlier value when the run never wrote it |
| OrderedMap.SetAllKeys | src/OpRunner.ts:19-21 | after a run of `set`s the key order is the old order followed by the new keys in order of first appearance |
| OrderedMap.AppendNewSpec | src/OpRunner.ts:19-21 | appending first occurrences keeps keys distinct, keeps the existing prefix and holds exactly the old and the new keys |
| OrderedMap.FirstOccurrencesOfDistinct | src/OpRunner.ts:19-21 | with distinct keys the first-occurrence order is the written order |
| OrderedMap.FirstOccurrencesOrdered | src/OpRunner.ts:19-21 | first-occurrence order agrees with the order of each key's first appearance in the input |
| Task.Registry.constructor | src/Task.ts:3 | the registry starts as an empty map |
| Task.Registry.Define | src/Task.ts:13-19 | `Task(name, desc, ops)` stores `{name, desc, ops}` under `name`; other tasks are unchanged; a redefinition keeps its slot, a new name goes last |
| Tusk.Tusk.constructor | src/Tusk.ts:13-15 | the initial options hold only `tuskFilePath: "TuskFile.js"` |
| Tusk.Tusk.ProcessCliOptions | src/Tusk.ts:17-26 | `-t` sets the path to `undefined`, because it reads `cli.tuskFile` where the flag is `cli.tuskfile`; `-d` replaces the default action; nothing else changes |
| Tusk.WithDefaults | src/Tusk.ts:69-85 | registering the built-ins keeps every task stored under its own name |
| Tusk.RegisterDefaultTasks | src/Tusk.ts:69-85 | registers "build" and then "run" |
| Tusk.DefaultsRegistered | src/Tusk.ts:69-85 | afterwards "build" and "run" hold the built-in tasks, each with one operation of its own name and description, and every other name keeps its entry |
| Tusk.DefaultsIdempotent | src/Tusk.ts:69-85 | registering the built-ins twice is the same as once |
| OpRunner.Staged | src/OpRunner.ts:17-21 | the staged queue stores each operation under its own name |
| OpRunner.StagedQueue | src/OpRunner.ts:17-21 | the queue order is the first occurrence of each operation name, and a repeated name holds its last operation |
| OpRunner.StagedDistinct | src/OpRunner.ts:17-21 | with distinct operation names the queue is the task's operation list exactly |
| OpRunner.OpRunner.Prepare | src/OpRunner.ts:12-24 | true exactly when the task is registered; then the queue is that task's staged operations; otherwise the queue is unchanged |
| OpRunner.OpRunner.Clear | src/OpRunner.ts:29-31 | the queue becomes empty |
| OpRunner.OpRunner.Queue | src/OpRunner.ts:36-38 | the operation replaces a same-named one in place, or is appended |
| OpRunner.OpRunner.Remove | src/OpRunner.ts:43-45 | true exactly when the name was queued; the name is gone and the others keep their order |
| OpRunner.OpRunner.GetQueue | src/OpRunner.ts:50-58 | the queued operations in queue order, each under its own name |
| OpRunner.OpRunner.HasOp | src/OpRunner.ts:63-65 | true exactly when some queued operation has that name |
| Op.CallbackResult.Succeeded | src/OpRunner.ts:91-94 | a callback result counts as success exactly when it is neither `false` nor another value, that is `undefined` or `true` |
| OpRunner.FailureIndex | src/OpRunner.ts:76-104 | the first position whose callback does not return `undefined` or `true`, or the queue length |
| OpRunner.FailFast | src/OpRunner.ts:76-104 | a run invokes the queue up to and including the first failure, reporting it as failed, or all of it and completes |
| OpRunner.FailFastShape | src/OpRunner.ts:76-104 | a run invokes a prefix of its queue; it completes exactly when every callback succeeds, and otherwise names the last operation it invoked |
| OpRunner.OpRunner.Run | src/OpRunner.ts:70-107 | operations run in queue order; the run completes when all succeed and otherwise stops at the first failure, naming it |
| OpRunner.EmptyQueueCompletes | src/OpRunner.ts:70-107 | an empty queue completes without invoking anything |
| OpRunner.FailureIndexUnique | src/OpRunner.ts:76-104 | any position with all earlier operations succeeding and itself failing (or the end) is the failure index |
| OpRunner.FailureStopsRun | src/OpRunner.ts:100-103 | a failure at position k ends the run as failed at that operation, after exactly the first k+1 operations |
| OpRunner.SuccessRunsAll | src/OpRunner.ts:93-98 | when every callback succeeds, all operations run and the task completes |
| OpRunner.OpRunner.RunTask | src/OpRunner.ts:112-116 | stages the task when it is registered and otherwise keeps the old queue, then runs the queue fail-fast |
| OpRunner.Leading | src/OpRunner.ts:138 | the length of the leading whitespace run: all whitespace, followed by a non-whitespace character or the end |
| OpRunner.Trailing | src/OpRunner.ts:138 | the length of the trailing whitespace run: all whitespace, preceded by a non-whitespace character or the start |
| OpRunner.Trim | src/OpRunner.ts:138 | `trim()` is the middle slice with only whitespace outside it and none at its ends |
| OpRunner.Segments | src/OpRunner.ts:121-136 | the description cut where the counter reaches the threshold (at least one segment) |
| OpRunner.SegmentsConcat | src/OpRunner.ts:125-136 | the segments put back together are the description: no character is lost or added |
| OpRunner.SegmentsShape | src/OpRunner.ts:125-136 | the cut is `Shaped`: the first line has the threshold's width (or the whole description), middle lines one character more, the last at most that, and the counter never passes the threshold |
| OpRunner.ShortUnbroken | src/OpRunner.ts:125-136 | a description no longer than the threshold is not broken |
| OpRunner.JoinExtendLast | src/OpRunner.ts:135 | appending a character to the last line appends it to the joined text |
| OpRunner.Break | src/OpRunner.ts:128 | the inserted break is a newline followed by `SpaceFactory.make(indent)` |
| OpRunner.BreakShape | src/OpRunner.ts:128 | the break is one newline followed by exactly `max(indent, 0)` spaces |
| OpRunner.SegmentsStep | src/OpRunner.ts:126-135 | one character breaks a line exactly when the counter has reached the threshold |
| OpRunner.OpRunner.constructor | src/OpRunner.ts:7 | the queue starts empty |
| OpRunner.BreakDescription | src/OpRunner.ts:121-139 | with `threshold` defaulting to 45, the trimmed segments joined by a newline and `nameLength + opsLength + 4` spaces; a short description comes back only trimmed |
| SpaceFactory.Repeat | src/SpaceFactory.ts:2-10 | the result has `n` times the length of the unit |
| SpaceFactory.Make | src/SpaceFactory.ts:2-10 | `char` repeated `max(length, 0)` times |
| SpaceFactory.MakeSpaces | src/SpaceFactory.ts:2 | with the default character, `max(length, 0)` spaces and nothing else |
| SpaceFactory.RepeatSingle | src/SpaceFactory.ts:5-7 | repeating one character yields only that character |
| SpaceFactory.RepeatAdd | src/SpaceFactory.ts:5-7 | making `a + b` characters is making `a` and then `b` |
| Spaces.Make | src/spaces.ts:6-14 | the same result as `SpaceFactory.make` |
| TuskCache.MergeOverExisting | src/TuskCache.ts:62-65 | a supplied field overrides the stored one and an omitted field keeps it |
| TuskCache.MergeIntoNothing | src/TuskCache.ts:56-65 | without a cache file exactly the supplied fields are written |
| TuskCache.MergeIdempotent | src/TuskCache.ts:55-66 | updating twice with the same fields is updating once; updating with `{}` keeps the record |
| TuskCache.TuskCache.constructor | src/TuskCache.ts:11-12 | the two files in their given state |
| TuskCache.TuskCache.PackageExists | src/TuskCache.ts:14-16 | true exactly when `package.json` is present |
| TuskCache.TuskCache.GetPackageHash | src/TuskCache.ts:18-24 | `null` exactly without `package.json`, otherwise the digest of its contents |
| TuskCache.TuskCache.Exists | src/TuskCache.ts:68-70 | true exactly when `.TuskCache.json` is present |
| TuskCache.TuskCache.ReadCache | src/TuskCache.ts:26-33 | `null` exactly without a cache file, otherwise the stored record |
| TuskCache.TuskCache.IsPackageModified | src/TuskCache.ts:35-49 | true exactly when the cache file exists |
| TuskCache.TuskCache.UpdateDefaultAction | src/TuskCache.ts:51-53 | neither file changes |
| TuskCache.TuskCache.Update | src/TuskCache.ts:55-66 | the cache file becomes the merge of the options over the stored record (if any); `package.json` is untouched |
| TuskCache.UpdateTwice | src/TuskCache.ts:55-66 | two identical updates leave the file a single update would |
| TuskCache.Merge | src/TuskCache.ts:62-65 | a field is missing from the spread exactly when neither the stored record nor the options have it |
| Index.InferredByScripts | src/Index.ts:39-56 | an explicit run or build is kept; an absent or `infer` option takes what the scripts call for ("start" before "build"), and stays when they call for nothing |
| Index.Inferred | src/Index.ts:39-56 | the option changes only when it is absent or `infer`, and then only to the action the scripts call for |
| Index.Decide | src/Index.ts:59-79 | run and build are dispatched; an absent option gives "No default action could be inferred." and `infer` gives "An invalid default action was specified." |
| Index.DefaultDecision | src/Index.ts:39-79 | the default branch runs the explicit or inferred action; otherwise it fails with "No default action could be inferred." for an absent option and "An invalid default action was specified." for `infer` |
| Index.InferenceExamples | src/Index.ts:42-55 | only "build" gives build; "start" alone or both give run; no scripts, or no manifest, give the fatal messages |
| Index.FirstUnregistered | src/Index.ts:83-92 | the first requested name that is not registered, or the number of names |
| Index.Bootstrap | src/Index.ts:22-26 | the built-ins are registered before the TuskFile's own tasks, which are applied in order |
| Index.TuskFileOverridesBuiltins | src/Index.ts:22-26 | a TuskFile task named "build" or "run" replaces the built-in (its last definition wins); otherwise the built-in stays |
| Index.InferDefaultAction | src/Index.ts:39-56 | the option becomes the inferred action and nothing else in the options changes |
| Index.DispatchDefault | src/Index.ts:59-79 | run runs the "run" task and build the "build" task, each fail-fast; an absent option or `infer` ends fatally with exit code 0 and runs nothing |
| Index.RunDefault | src/Index.ts:37-79 | writes the inferred action to the options, then runs exactly one task "run" or "build" fail-fast, or ends fatally with exit code 0 and runs nothing |
| Index.RunRequested | src/Index.ts:81-93 | runs the requested tasks in argument order, each fail-fast over its own staged queue and with the callbacks' results of its own run, until the first unregistered name, which ends the request with "Task '…' does not exist."; the queue left behind is the last run task's staged queue, or the previous one when no task ran |
| Index.RunRegistered | src/Index.ts:85-87 | a registered name is run fail-fast over its staged queue, which the runner then holds |
| Index.HandleRequest | src/Index.ts:35-94 | no requested tasks means the default branch; otherwise the requested branch, with the options unchanged and the queue left behind stated |
| Index.HandleRequestWithNotice | src/index.ts:35-99 | as `src/Index.ts`, and the "Processing N tasks" notice is shown exactly when more than one task is requested |
| TuskFile.DeployStaged | tuskFile.js:3-19 | preparing "deploy" queues clean, build, deploy in that order |
| TuskFile.DeployFailFast | tuskFile.js:3-19 | a failing clean stops the deploy before build and publish; when all three succeed, all three run |
| TuskFile.LoadedRegistry | tuskFile.js:3-19 | loading the file registers "build", "run", "deploy" in that order and leaves the built-in "build" and "run" as they are |
| TuskFile.DeployTwice | tuskFile.js:3-19 | `deploy deploy` calls the callbacks afresh: the first run can stop at a failing clean while the second completes |

## Left out

- Console output is not modelled. This covers the coloured progress lines, the "failed" and "completed" messages, the blank lines, `Report.warn` and the multi-task notice text. A run returns its outcome and the operations it invoked instead. `BreakDescription` is modelled as a function of its inputs, but `Run` does not compute the display string.
- File-system access is replaced by an abstract two-file store (`TuskCache.TuskCache`). The `fs` calls, JSON parsing and serialisation, and the md5 digest (a function parameter) are not modelled.
- The TuskFile's existence check (src/Index.ts:14-16) is not modelled. Neither are the `global` injection and `require` of the TuskFile. The TuskFile is given as the sequence of its `Task(...)` calls.
- Commander's argument parsing (`prepareCli`) is not modelled. `-t` and `-d` arrive as already-parsed inputs. So does the fact that they take no value: commander would set `-d` to `true`, which the default branch then rejects as an invalid action.
- `--list` and `--init` are not modelled. They print the task list or write a stub TuskFile, then exit the process. Both are I/O.
- Callbacks are foreign code. Only their result is modelled, as the `respond` and `env` parameters. Their side effects are not modelled, including a callback that changes the queue while it is being iterated.
- Concurrency is not modelled. The default branch does not await `runTask`, while the requested branch awaits each task. The model runs every task to completion before the next step.
- `OpRunner.Trim`, `OpRunner.Segments`: a Dafny `string` is a sequence of Unicode code points, as `for ... of` iterates them, and no character `trim()` removes lies outside the Basic Multilingual Plane. A JavaScript string can also hold a lone surrogate, which a Dafny `string` cannot; such descriptions are not modelled.
- `SpaceFactory.Make`, `Spaces.Make`, `OpRunner.BreakDescription`: `length`, `threshold`, `opsLength` and `nameLength` are JavaScript numbers but integers here. A fractional length such as `make(2.5)` loops three times, and a fractional threshold compares differently; neither is modelled.
- `Index.RunRequested`, `OpRunner.OpRunner.Run`: a callback that throws or returns a rejected promise is not modelled. In the source, `await op.callback()` rethrows, so `run` ends without its "failed" message, and in the requested branch the remaining names never run. A callback here always resolves to one of the four `CallbackResult` values.
- `TuskCache.Merge`, `TuskCache.TuskCache.Update`: a field passed as an explicit `undefined` is not modelled. The spread copies the `undefined` and `JSON.stringify` then drops the key, so `update({defaultAction: undefined})` erases a stored action. A supplied field here is either a value or omitted, and an omitted field keeps the stored value.
- `op.desc` in `run` reads a property the `IOp` interface calls `description`. The model has one optional `desc` field.
- `Tusk.Options`: `verbose` and `bare` are declared but never set, so they stay absent.

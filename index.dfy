/** The entry point of `src/Index.ts` (and its near-identical twin `src/index.ts`):
    registration order, default-action inference and dispatch, and the loop over
    the requested tasks. `Report.fatal` prints and exits the process with code 0;
    here it ends the request with a `Fatal` exit. */
module Index {
  import opened Optional
  import opened Misc
  import opened Op
  import opened OrderedMap
  import opened Task
  import opened OpRunner
  import opened TuskCache
  import opened Tusk

  /** How handling a request ends. */
  datatype Exit = Finished | Fatal(message: string, exitCode: int)

  /** `Report.fatal` calls `process.exit(0)`. */
  const FatalExitCode: int := 0

  const NoDefaultMessage := "No default action could be inferred."
  const InvalidDefaultMessage := "An invalid default action was specified."

  function MissingTaskMessage(task: string): string {
    "Task '" + task + "' does not exist."
  }

  /** One `runTask` call made while handling the request. */
  datatype TaskRun = TaskRun(task: string, outcome: RunOutcome, invoked: seq<Op>)

  /** The parsed manifest, when `package.json` exists. */
  function ManifestPackage(file: Option<Manifest>): Option<Package> {
    if file.Some? then Some(file.value.package) else None
  }

  /** The value `Tusk.options.defaultAction` holds after the inference from
      `package.json`: only an absent or `Infer` option is replaced, and only when the
      manifest exists, has `scripts`, and has `build` or `start`. */
  function Inferred(option: Option<DefaultAction>, manifest: Option<Package>): (r: Option<DefaultAction>)
    ensures r != option ==> (option.None? || option == Some(Infer)) && r.Some? && r == ScriptsAction(manifest)
  {
    if (option.None? || option == Some(Infer)) && manifest.Some? && manifest.value.scripts.Some? then
      var scripts := manifest.value.scripts.value;
      if scripts.build.Some? && scripts.start.None? then Some(Build)
      else if scripts.start.Some? && scripts.build.None? then Some(Run)
      else if scripts.build.Some? && scripts.start.Some? then Some(Run)
      else option
    else option
  }

  /** What the manifest's scripts call for on their own: `start` wins over `build`. */
  function ScriptsAction(manifest: Option<Package>): Option<DefaultAction> {
    if manifest.None? || manifest.value.scripts.None? then None
    else if manifest.value.scripts.value.start.Some? then Some(Run)
    else if manifest.value.scripts.value.build.Some? then Some(Build)
    else None
  }

  /** Inference in one line: an explicit Run or Build is kept whatever the
      manifest says; otherwise the scripts decide, and when they cannot the
      option stays as it was. */
  lemma InferredByScripts(option: Option<DefaultAction>, manifest: Option<Package>)
    ensures option == Some(Run) || option == Some(Build) ==> Inferred(option, manifest) == option
    ensures option.None? || option == Some(Infer) ==>
      Inferred(option, manifest) == if ScriptsAction(manifest).Some? then ScriptsAction(manifest) else option
  {
  }

  /** The dispatch on the default action: what the (possibly inferred) option leads to. */
  datatype Decision = Dispatch(action: DefaultAction) | Abort(message: string)

  function Decide(action: Option<DefaultAction>): (d: Decision)
    ensures d.Dispatch? <==> action == Some(Run) || action == Some(Build)
    ensures d.Dispatch? ==> action == Some(d.action)
    ensures d.Abort? ==> d.message == if action.None? then NoDefaultMessage else InvalidDefaultMessage
  {
    match action
    case None => Abort(NoDefaultMessage)
    case Some(Run) => Dispatch(Run)
    case Some(Build) => Dispatch(Build)
    case Some(Infer) => Abort(InvalidDefaultMessage)
  }

  /** The whole default-action decision: an explicit action runs; otherwise an
      inferred one runs; otherwise an absent option is "No default action could
      be inferred." and an `Infer` option is "An invalid default action was
      specified.". */
  lemma DefaultDecision(option: Option<DefaultAction>, manifest: Option<Package>)
    ensures Decide(Inferred(option, manifest)) ==
      if option == Some(Run) || option == Some(Build) then Dispatch(option.value)
      else if ScriptsAction(manifest).Some? then Dispatch(ScriptsAction(manifest).value)
      else if option.None? then Abort(NoDefaultMessage)
      else Abort(InvalidDefaultMessage)
  {
  }

  /** With no option and a manifest declaring only `build`, the default is Build;
      with `start` declared (alone or beside `build`) it is Run. */
  lemma InferenceExamples(build: string, start: string)
    ensures Inferred(None, Some(Package(Some(PackageScripts(Some(build), None))))) == Some(Build)
    ensures Inferred(None, Some(Package(Some(PackageScripts(None, Some(start)))))) == Some(Run)
    ensures Inferred(None, Some(Package(Some(PackageScripts(Some(build), Some(start)))))) == Some(Run)
    ensures Decide(Inferred(None, Some(Package(Some(PackageScripts(None, None)))))) == Abort(NoDefaultMessage)
    ensures Decide(Inferred(None, None)) == Abort(NoDefaultMessage)
    ensures Decide(Inferred(Some(Infer), None)) == Abort(InvalidDefaultMessage)
  {
  }

  /** The position of the first requested name that is not registered, or the
      number of names when all of them are. */
  function FirstUnregistered(requested: seq<string>, tasks: OMap<Task>): (k: nat)
    ensures k <= |requested|
    ensures forall j :: 0 <= j < k ==> tasks.Has(requested[j])
    ensures k < |requested| ==> !tasks.Has(requested[k])
    decreases |requested|
  {
    if requested == [] then 0
    else
      var k := FirstUnregistered(requested[..|requested| - 1], tasks);
      if k < |requested| - 1 || !tasks.Has(requested[|requested| - 1]) then k else |requested|
  }

  /** The dispatch on the default action for a given option: the one run it starts
      (with `runTask`'s own queue behaviour), or the fatal exit. */
  ghost predicate DispatchOutcome(action: Option<DefaultAction>, tasks: OMap<Task>, before: OMap<Op>,
                                  after: OMap<Op>, respond: Respond, runs: seq<TaskRun>, exit: Exit)
  {
    match Decide(action)
    case Dispatch(a) =>
      && exit == Finished && |runs| == 1 && runs[0].task == ActionValue(a)
      && after == (if tasks.Has(ActionValue(a)) then Staged(tasks.entries[ActionValue(a)].ops) else before)
      && after.Valid() && FailFast(after.Values(), respond, runs[0].outcome, runs[0].invoked)
    case Abort(m) =>
      exit == Fatal(m, FatalExitCode) && runs == [] && after == before
  }

  /** The default-action branch: the inferred option, dispatched. */
  ghost predicate DefaultOutcome(option: Option<DefaultAction>, manifest: Option<Package>, tasks: OMap<Task>,
                                 before: OMap<Op>, after: OMap<Op>, respond: Respond, runs: seq<TaskRun>, exit: Exit)
  {
    DispatchOutcome(Inferred(option, manifest), tasks, before, after, respond, runs, exit)
  }

  /** `run` is the registered task `name` run fail-fast over its staged queue. */
  ghost predicate RanStaged(run: TaskRun, name: string, tasks: OMap<Task>, respond: Respond) {
    && run.task == name
    && tasks.Has(name)
    && FailFast(Staged(tasks.entries[name].ops).Values(), respond, run.outcome, run.invoked)
  }

  /** The requested-tasks branch: the names run in order up to the first one that
      is not registered, each over its own staged queue; that name ends the
      request fatally. A failing operation ends only its own task. The `i`-th
      run sees the callbacks' results of run `i` of the request. */
  ghost predicate RequestedOutcome(requested: seq<string>, tasks: OMap<Task>, env: RequestEnv,
                                   runs: seq<TaskRun>, exit: Exit)
  {
    var k := FirstUnregistered(requested, tasks);
    && |runs| == k
    && (forall i :: 0 <= i < k ==> RanStaged(runs[i], requested[i], tasks, RunEnv(env, i)))
    && exit == if k < |requested| then Fatal(MissingTaskMessage(requested[k]), FatalExitCode) else Finished
  }

  /** Start-up: the built-in tasks are registered first, then the TuskFile's
      own `Task(...)` calls run in order. */
  method Bootstrap(registry: Registry, tuskFile: seq<Task>)
    requires registry.Valid()
    modifies registry
    ensures registry.Valid()
    ensures registry.tasks == SetAll(WithDefaults(old(registry.tasks)), tuskFile, TaskName)
  {
    RegisterDefaultTasks(registry);
    ghost var start := registry.tasks;
    for i := 0 to |tuskFile|
      invariant registry.Valid()
      invariant registry.tasks == SetAll(start, tuskFile[..i], TaskName)
    {
      assert tuskFile[..i + 1][..i] == tuskFile[..i];
      registry.Define(tuskFile[i].name, tuskFile[i].desc, tuskFile[i].ops);
    }
    assert tuskFile[..|tuskFile|] == tuskFile;
  }

  /** A TuskFile definition of "build" or "run" replaces the built-in one: the
      TuskFile's last definition of the name wins, and without one the built-in
      stays. */
  lemma TuskFileOverridesBuiltins(m: OMap<Task>, tuskFile: seq<Task>)
    requires KeyedBy(m, TaskName)
    ensures SetAll(WithDefaults(m), tuskFile, TaskName).Get("build") ==
      if LastKeyed(tuskFile, TaskName, "build").Some? then LastKeyed(tuskFile, TaskName, "build") else Some(BuiltinBuild())
    ensures SetAll(WithDefaults(m), tuskFile, TaskName).Get("run") ==
      if LastKeyed(tuskFile, TaskName, "run").Some? then LastKeyed(tuskFile, TaskName, "run") else Some(BuiltinRun())
  {
    DefaultsRegistered(m);
    SetAllGet(WithDefaults(m), tuskFile, TaskName, "build");
    SetAllGet(WithDefaults(m), tuskFile, TaskName, "run");
  }

  /** The inference from `package.json`: when the option is absent or `infer` and `package.json`
      exists, its `scripts` choose the default action. */
  method InferDefaultAction(tusk: Tusk, cache: TuskCache)
    modifies tusk
    ensures tusk.options == old(tusk.options).(defaultAction := Inferred(old(tusk.options.defaultAction), ManifestPackage(cache.packageFile)))
  {
    if tusk.options.defaultAction.None? || tusk.options.defaultAction == Some(Infer) {
      // The inference test asks for the manifest only when the option allows inference.
      var packageExists := cache.PackageExists();
      if packageExists {
        var pckg := cache.packageFile.value.package;
        if pckg.scripts.Some? {
          var scripts := pckg.scripts.value;
          if scripts.build.Some? && scripts.start.None? {
            tusk.options := tusk.options.(defaultAction := Some(Build));
          } else if scripts.start.Some? && scripts.build.None? {
            tusk.options := tusk.options.(defaultAction := Some(Run));
          } else if scripts.build.Some? && scripts.start.Some? {
            tusk.options := tusk.options.(defaultAction := Some(Run));
          }
        }
      }
    }
  }

  /** The dispatch on the default action: run the "run" or "build" task and offer the action to the
      cache, or end fatally without running anything. */
  method DispatchDefault(action: Option<DefaultAction>, registry: Registry, runner: OpRunner,
                         cache: TuskCache, respond: Respond)
    returns (runs: seq<TaskRun>, exit: Exit)
    requires registry.Valid() && runner.Valid()
    modifies runner
    ensures runner.Valid()
    ensures DispatchOutcome(action, registry.tasks, old(runner.ops), runner.ops, respond, runs, exit)
  {
    runs := [];
    if action.Some? {
      var a := action.value;
      if a == Run {
        var outcome, invoked := runner.RunTask(registry, ActionValue(Run), respond);
        runs := [TaskRun(ActionValue(Run), outcome, invoked)];
      } else if a == Build {
        var outcome, invoked := runner.RunTask(registry, ActionValue(Build), respond);
        runs := [TaskRun(ActionValue(Build), outcome, invoked)];
      } else {
        return runs, Fatal(InvalidDefaultMessage, FatalExitCode);
      }
      cache.UpdateDefaultAction(a);
      exit := Finished;
    } else {
      exit := Fatal(NoDefaultMessage, FatalExitCode);
    }
  }

  /** The default-action branch: infer the default action into `Tusk.options`, then dispatch it. */
  method RunDefault(tusk: Tusk, registry: Registry, runner: OpRunner, cache: TuskCache, respond: Respond)
    returns (runs: seq<TaskRun>, exit: Exit)
    requires registry.Valid() && runner.Valid()
    modifies tusk, runner
    ensures runner.Valid()
    ensures tusk.options == old(tusk.options).(defaultAction := Inferred(old(tusk.options.defaultAction), ManifestPackage(cache.packageFile)))
    ensures DefaultOutcome(old(tusk.options.defaultAction), ManifestPackage(cache.packageFile), registry.tasks,
                           old(runner.ops), runner.ops, respond, runs, exit)
  {
    InferDefaultAction(tusk, cache);
    runs, exit := DispatchDefault(tusk.options.defaultAction, registry, runner, cache, respond);
  }


  /** The queue the runner holds after `runs`: the staged queue of the last task
      run, or `before` when none ran. */
  ghost function QueueAfter(before: OMap<Op>, runs: seq<TaskRun>, tasks: OMap<Task>): OMap<Op> {
    if runs != [] && tasks.Has(runs[|runs| - 1].task) then Staged(tasks.entries[runs[|runs| - 1].task].ops)
    else before
  }

  /** One turn of the requested-task loop for a registered name: `runTask(name)`,
      awaited. The queue left behind is the task's staged queue. */
  method RunRegistered(name: string, registry: Registry, runner: OpRunner, respond: Respond)
    returns (run: TaskRun)
    requires registry.Valid() && runner.Valid() && registry.tasks.Has(name)
    modifies runner
    ensures runner.Valid()
    ensures RanStaged(run, name, registry.tasks, respond)
    ensures runner.ops == Staged(registry.tasks.entries[name].ops)
  {
    var outcome, invoked := runner.RunTask(registry, name, respond);
    run := TaskRun(name, outcome, invoked);
  }

  /** The requested-task loop: each requested name in argument order; a registered one is run
      and awaited, the first unregistered one ends the request. */
  method RunRequested(requested: seq<string>, registry: Registry, runner: OpRunner, env: RequestEnv)
    returns (runs: seq<TaskRun>, exit: Exit)
    requires registry.Valid() && runner.Valid()
    modifies runner
    ensures runner.Valid()
    ensures RequestedOutcome(requested, registry.tasks, env, runs, exit)
    ensures runs == [] ==> runner.ops == old(runner.ops)
    ensures runs != [] ==> runner.ops == Staged(registry.tasks.entries[runs[|runs| - 1].task].ops)
  {
    runs := [];
    for i := 0 to |requested|
      invariant runner.Valid()
      invariant |runs| == i
      invariant forall j :: 0 <= j < i ==> RanStaged(runs[j], requested[j], registry.tasks, RunEnv(env, j))
      invariant runner.ops == QueueAfter(old(runner.ops), runs, registry.tasks)
    {
      if registry.tasks.Has(requested[i]) {
        var run := RunRegistered(requested[i], registry, runner, RunEnv(env, i));
        runs := runs + [run];
        assert runs[|runs| - 1] == run;
      } else {
        exit := Fatal(MissingTaskMessage(requested[i]), FatalExitCode);
        assert FirstUnregistered(requested, registry.tasks) == i;
        return;
      }
    }
    exit := Finished;
    assert FirstUnregistered(requested, registry.tasks) == |requested|;
  }

  /** `handleRequest()` of `src/Index.ts`: the default action when no task is
      requested, the requested tasks otherwise. The default branch makes at most
      one run, the request's run 0. */
  method HandleRequest(requested: seq<string>, tusk: Tusk, registry: Registry, runner: OpRunner,
                       cache: TuskCache, env: RequestEnv)
    returns (runs: seq<TaskRun>, exit: Exit)
    requires registry.Valid() && runner.Valid()
    modifies tusk, runner
    ensures runner.Valid()
    ensures |requested| == 0 ==>
      tusk.options == old(tusk.options).(defaultAction := Inferred(old(tusk.options.defaultAction), ManifestPackage(cache.packageFile))) &&
      DefaultOutcome(old(tusk.options.defaultAction), ManifestPackage(cache.packageFile), registry.tasks,
                     old(runner.ops), runner.ops, RunEnv(env, 0), runs, exit)
    ensures |requested| > 0 ==>
      tusk.options == old(tusk.options) && RequestedOutcome(requested, registry.tasks, env, runs, exit)
    ensures |requested| > 0 && runs == [] ==> runner.ops == old(runner.ops)
    ensures |requested| > 0 && runs != [] ==>
      runner.ops == Staged(registry.tasks.entries[runs[|runs| - 1].task].ops)
  {
    if |requested| == 0 {
      runs, exit := RunDefault(tusk, registry, runner, cache, RunEnv(env, 0));
    } else {
      runs, exit := RunRequested(requested, registry, runner, env);
    }
  }

  /** `handleRequest()` of `src/index.ts`: the same, plus the "Processing N tasks"
      notice, shown only when more than one task is requested. */
  method HandleRequestWithNotice(requested: seq<string>, tusk: Tusk, registry: Registry, runner: OpRunner,
                                 cache: TuskCache, env: RequestEnv)
    returns (notice: bool, runs: seq<TaskRun>, exit: Exit)
    requires registry.Valid() && runner.Valid()
    modifies tusk, runner
    ensures notice <==> |requested| > 1
    ensures runner.Valid()
    ensures |requested| == 0 ==>
      tusk.options == old(tusk.options).(defaultAction := Inferred(old(tusk.options.defaultAction), ManifestPackage(cache.packageFile))) &&
      DefaultOutcome(old(tusk.options.defaultAction), ManifestPackage(cache.packageFile), registry.tasks,
                     old(runner.ops), runner.ops, RunEnv(env, 0), runs, exit)
    ensures |requested| > 0 ==>
      tusk.options == old(tusk.options) && RequestedOutcome(requested, registry.tasks, env, runs, exit)
    ensures |requested| > 0 && runs == [] ==> runner.ops == old(runner.ops)
    ensures |requested| > 0 && runs != [] ==>
      runner.ops == Staged(registry.tasks.entries[runs[|runs| - 1].task].ops)
  {
    notice := |requested| > 1;
    runs, exit := HandleRequest(requested, tusk, registry, runner, cache, env);
  }
}

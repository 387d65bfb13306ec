/** The repository's own `tuskFile.js`: one `Task("deploy", ...)` registration of
    three operations. The callbacks call into the `tusk` library and are known
    here only by what they invoke. */
module TuskFile {
  import opened Optional
  import opened Op
  import opened OrderedMap
  import opened Task
  import opened OpRunner
  import opened Tusk
  import opened Index

  function CleanOp(): Op {
    Op("clean", Some("Clean output directory."), Callback("FileOps.forceRemove(\"dist\")"))
  }

  function BuildOp(): Op {
    Op("build", Some("Build the project."), Callback("ScriptOps.execute(\"tsc\", undefined, true)"))
  }

  function DeployOp(): Op {
    Op("deploy", Some("Publish package to the NPM registry."), Callback("ScriptOps.npm(\"publish\")"))
  }

  function Deploy(): Task {
    Task("deploy", Some("Publish package to the NPM registry."), [CleanOp(), BuildOp(), DeployOp()])
  }

  /** The `Task(...)` calls the file makes, in order. */
  function Registrations(): seq<Task> {
    [Deploy()]
  }

  /** Preparing "deploy" queues its three operations in the order they are
      written: clean, build, deploy. */
  lemma DeployStaged()
    ensures Staged(Deploy().ops).Values() == [CleanOp(), BuildOp(), DeployOp()]
  {
    var ks := KeysOf(Deploy().ops, OpName);
    assert ks == ["clean", "build", "deploy"];
    StagedDistinct(Deploy().ops);
  }

  /** A failing `clean` stops the deploy before the build and the publish; when
      every step succeeds all three run. */
  lemma DeployFailFast(respond: Respond, outcome: RunOutcome, invoked: seq<Op>)
    requires FailFast(Staged(Deploy().ops).Values(), respond, outcome, invoked)
    ensures !respond(0, CleanOp()).Succeeded() ==> outcome == Failed("clean") && invoked == [CleanOp()]
    ensures respond(0, CleanOp()).Succeeded() && respond(1, BuildOp()).Succeeded() && respond(2, DeployOp()).Succeeded()
            ==> outcome == Completed && invoked == [CleanOp(), BuildOp(), DeployOp()]
  {
    DeployStaged();
    var q := [CleanOp(), BuildOp(), DeployOp()];
    if !respond(0, CleanOp()).Succeeded() {
      FailureStopsRun(q, respond, 0, outcome, invoked);
    }
    if respond(0, CleanOp()).Succeeded() && respond(1, BuildOp()).Succeeded() && respond(2, DeployOp()).Succeeded() {
      SuccessRunsAll(q, respond, outcome, invoked);
    }
  }

  /** Loading the file into a fresh registry registers "build", "run" and then
      "deploy"; the built-in "build" and "run" are left as they are, because the
      file's own "build" is an operation, not a task. */
  lemma LoadedRegistry()
    ensures SetAll(WithDefaults(Empty()), Registrations(), TaskName).keys == ["build", "run", "deploy"]
    ensures SetAll(WithDefaults(Empty()), Registrations(), TaskName).Get("build") == Some(BuiltinBuild())
    ensures SetAll(WithDefaults(Empty()), Registrations(), TaskName).Get("run") == Some(BuiltinRun())
    ensures SetAll(WithDefaults(Empty()), Registrations(), TaskName).Get("deploy") == Some(Deploy())
  {
    var d := WithDefaults(Empty());
    var loaded := OMap(["build", "run", "deploy"],
                       map["build" := BuiltinBuild(), "run" := BuiltinRun(), "deploy" := Deploy()]);
    assert d == OMap(["build", "run"], map["build" := BuiltinBuild(), "run" := BuiltinRun()]);
    assert SetAll(d, Registrations(), TaskName) == loaded by {
      assert Registrations()[..0] == [];
      assert SetAll(d, Registrations(), TaskName) == d.Set("deploy", Deploy());
    }
  }

  /** `tusk deploy deploy` runs the task twice, each time calling the callbacks
      afresh: the first run can stop at a failing clean while the second
      completes, and the request still finishes normally. */
  lemma DeployTwice(tasks: OMap<Task>, env: RequestEnv, runs: seq<TaskRun>, exit: Exit)
    requires tasks.Get("deploy") == Some(Deploy())
    requires RequestedOutcome(["deploy", "deploy"], tasks, env, runs, exit)
    requires !env(0, 0, CleanOp()).Succeeded()
    requires forall k: nat, op :: env(1, k, op).Succeeded()
    ensures exit == Finished && |runs| == 2
    ensures runs[0].outcome == Failed("clean") && runs[0].invoked == [CleanOp()]
    ensures runs[1].outcome == Completed && runs[1].invoked == [CleanOp(), BuildOp(), DeployOp()]
  {
    assert FirstUnregistered(["deploy", "deploy"], tasks) == 2 by {
      assert FirstUnregistered(["deploy"], tasks) == 1 by {
        assert ["deploy"][..0] == [];
      }
      assert ["deploy", "deploy"][..1] == ["deploy"];
    }
    assert RanStaged(runs[0], "deploy", tasks, RunEnv(env, 0));
    assert RanStaged(runs[1], "deploy", tasks, RunEnv(env, 1));
    DeployFailFast(RunEnv(env, 0), runs[0].outcome, runs[0].invoked);
    DeployFailFast(RunEnv(env, 1), runs[1].outcome, runs[1].invoked);
  }
}

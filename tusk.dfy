/** The host object of `src/Tusk.ts`: the shared `options`, the `-d` override
    applied by `processCliOptions`, and the built-in task registrations. */
module Tusk {
  import opened Optional
  import opened Misc
  import opened Op
  import opened OrderedMap
  import opened Task

  /** `IOptions`. `verbose` and `bare` are declared but never assigned, so they
      stay missing; `tuskFilePath` can become `undefined` (see `ProcessCliOptions`). */
  datatype Options = Options(tuskFilePath: Option<string>, defaultAction: Option<DefaultAction>,
                             verbose: Option<bool>, bare: Option<bool>)

  /** `Tusk`, holding the one mutable `options` object. */
  class Tusk {
    var options: Options

    /** The initial `options`: `{tuskFilePath: "TuskFile.js"}`. */
    constructor ()
      ensures options == Options(Some("TuskFile.js"), None, None, None)
    {
      options := Options(Some("TuskFile.js"), None, None, None);
    }

    /** The `-t` and `-d` part of `processCliOptions()`. The `-t` test reads
        `cli.tuskfile` but the assignment reads `cli.tuskFile`, a property the
        parser never sets, so `-t` makes the path `undefined`. A given default
        action replaces the option. Nothing else changes. */
    method ProcessCliOptions(tuskfileFlag: bool, cliDefault: Option<DefaultAction>)
      modifies this
      ensures options.tuskFilePath == if tuskfileFlag then None else old(options.tuskFilePath)
      ensures options.defaultAction == if cliDefault.Some? then cliDefault else old(options.defaultAction)
      ensures options.verbose == old(options.verbose) && options.bare == old(options.bare)
    {
      if tuskfileFlag {
        options := options.(tuskFilePath := None);
      }
      if cliDefault.Some? {
        options := options.(defaultAction := cliDefault);
      }
    }
  }

  /** The built-in "build" task: one operation "build" running `npm run build`. */
  function BuiltinBuild(): Task {
    Task(ActionValue(Build), Some("Build the project"),
         [Op("build", Some("Build the project"), Callback("ScriptOps.npmBuild"))])
  }

  /** The built-in "run" task: one operation "run" running `npm start`. */
  function BuiltinRun(): Task {
    Task(ActionValue(Run), Some("Run the project"),
         [Op("run", Some("Run the project"), Callback("ScriptOps.npmStart"))])
  }

  /** The registry after `registerDefaultTasks()`. */
  function WithDefaults(m: OMap<Task>): (r: OMap<Task>)
    requires KeyedBy(m, TaskName)
    ensures KeyedBy(r, TaskName)
  {
    SetKeyedBy(m, BuiltinBuild(), TaskName);
    SetKeyedBy(m.Set("build", BuiltinBuild()), BuiltinRun(), TaskName);
    m.Set("build", BuiltinBuild()).Set("run", BuiltinRun())
  }

  /** `registerDefaultTasks()`: `Task("build", ...)` then `Task("run", ...)`. */
  method RegisterDefaultTasks(registry: Registry)
    requires registry.Valid()
    modifies registry
    ensures registry.Valid()
    ensures registry.tasks == WithDefaults(old(registry.tasks))
  {
    registry.Define(BuiltinBuild().name, BuiltinBuild().desc, BuiltinBuild().ops);
    registry.Define(BuiltinRun().name, BuiltinRun().desc, BuiltinRun().ops);
  }

  /** After `registerDefaultTasks()`, "build" and "run" hold the built-ins, each
      with exactly one operation of its own name, and every other name keeps its
      entry. */
  lemma DefaultsRegistered(m: OMap<Task>)
    requires KeyedBy(m, TaskName)
    ensures WithDefaults(m).Get("build") == Some(BuiltinBuild())
    ensures WithDefaults(m).Get("run") == Some(BuiltinRun())
    ensures BuiltinBuild().desc == Some("Build the project") && |BuiltinBuild().ops| == 1 && BuiltinBuild().ops[0].name == "build"
    ensures BuiltinRun().desc == Some("Run the project") && |BuiltinRun().ops| == 1 && BuiltinRun().ops[0].name == "run"
    ensures forall n :: n != "build" && n != "run" ==> WithDefaults(m).Get(n) == m.Get(n)
  {
  }

  /** Registering the built-ins twice leaves the registry as registering them once. */
  lemma DefaultsIdempotent(m: OMap<Task>)
    requires KeyedBy(m, TaskName)
    ensures WithDefaults(WithDefaults(m)) == WithDefaults(m)
  {
    var once := WithDefaults(m);
    SetSame(once, "build", BuiltinBuild());
    SetSame(once, "run", BuiltinRun());
  }
}

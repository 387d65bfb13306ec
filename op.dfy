/** Operations (`src/Op.ts`) and what their callbacks hand back to the runner. */
module Op {
  import opened Optional

  /** An opaque reference to a foreign callback (`ScriptOps.npmBuild`,
      `tusk.FileOps.forceRemove("dist")`, ...); only its identity is modelled. */
  datatype Callback = Callback(handle: string)

  /** `IOp`. The declared field is `description` but every writer and reader uses
      `desc`; the model keeps one optional description. */
  datatype Op = Op(name: string, desc: Option<string>, callback: Callback)

  /** The value a callback resolves to: nothing, `true`, `false`, or any other value. */
  datatype CallbackResult = Undefined | True | False | Other {

    /** The runner's success test: the value is `undefined` or `true`; `false`
        and every other value fail. */
    predicate Succeeded()
      ensures Succeeded() <==> this != False && this != Other
    {
      this == Undefined || this == True
    }
  }

  /** The environment: `respond(k, op)` is what `op`'s callback resolves to when it
      is the operation at position `k` of a run. */
  type Respond = (nat, Op) -> CallbackResult

  /** The environment of a whole request: `env(r, k, op)` is what `op`'s callback
      resolves to at position `k` of the request's `r`-th task run. Callbacks are
      foreign code invoked afresh on every run, so two runs of the same task may
      end differently. */
  type RequestEnv = (nat, nat, Op) -> CallbackResult

  /** The environment seen by the `r`-th task run of a request. */
  function RunEnv(env: RequestEnv, r: nat): Respond {
    (k: nat, op: Op) => env(r, k, op)
  }

  /** The key under which an operation is queued. */
  function OpName(op: Op): string {
    op.name
  }
}

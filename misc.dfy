/** The shared value types of `src/Misc.ts`: the default-action enumeration and
    the part of a `package.json` manifest the tool consults. */
module Misc {
  import opened Optional

  /** `DefaultAction`: the action taken when no task is requested. */
  datatype DefaultAction = Run | Build | Infer

  /** The string value of each enumeration member, which is also the name of the
      task the action dispatches ("run", "build"). */
  function ActionValue(a: DefaultAction): string {
    match a
    case Run => "run"
    case Build => "build"
    case Infer => "infer"
  }

  /** `IPackageScripts`: only the presence of `build` and `start` matters. */
  datatype PackageScripts = PackageScripts(build: Option<string>, start: Option<string>)

  /** `IPackage`: a parsed manifest whose `scripts` member may be missing. */
  datatype Package = Package(scripts: Option<PackageScripts>)
}

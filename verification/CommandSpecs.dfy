/** How a command declares itself (src/cli/command-spec.ts). */
module CommandSpecs {
  import opened Common

  type Path = seq<string>

  datatype Spec = Spec(
    path: Path, aliases: Option<seq<Path>>, destructive: bool, hidden: bool, allowedFlags: set<string>,
    repeatableFlags: set<string>, positionalArgs: seq<string>, variadicPositional: bool, browserPageTarget: bool)

  function SpecPaths(spec: Spec): seq<Path> { [spec.path] + if spec.aliases.Some? then spec.aliases.value else [] }
}

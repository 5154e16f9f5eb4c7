/** The build-graph values shared by the token-stream parser (src/parser.rs)
    and the hash cache (src/cache.rs) of the same revision. */
module Targets {
  import opened Wrappers
  import opened Wire

  /** `std::process::Command` as the tool builds it: an executable and its
      arguments in order. */
  datatype Command = Command(exec: string, args: seq<string>)

  /** A command, the hash of its text, and the hash a previous build left in
      the cache for it (src/cache.rs:20, 50). */
  datatype HashCommand = HashCommand(cmd: Command, hash: u64, cachedHash: Option<u64>)

  datatype Target = Target(path: string, cmds: seq<HashCommand>)

  /** One node of the build graph: a target and the graph indices of the
      targets it depends on. */
  datatype Node = Node(target: Target, deps: seq<nat>)
}

/**
 The relay of `run`: the child command line under the resolved toolchain and
 the mapping from the child's fate to this process's exit code.  The child
 itself is abstract: a function from the command it is given to its outcome.
 */
module Relay {
  import opened Wrappers
  import Toolchain

  /** A 32-bit signed exit code, as `ExitStatus::code` and `process::exit` use. */
  newtype i32 = x: int | -0x8000_0000 <= x < 0x8000_0000

  /** The exit code reported whenever the relay itself fails. */
  const FailureCode: i32 := 1

  /** What became of the spawned child. */
  datatype ChildOutcome =
    | SpawnError     // `Command::status` returned an error: nothing ran
    | Exited(code: i32) // the child exited normally with this code
    | Signalled      // the child ended without an exit code (killed by a signal)

  /** A program name and its arguments. */
  datatype CommandLine = CommandLine(program: string, args: seq<string>)

  /** Everything after the program's own name (`env::args().skip(1)`). */
  function Forwarded(args: seq<string>): (f: seq<string>)
    ensures |args| > 0 ==> |f| == |args| - 1 && forall k :: 0 <= k < |f| ==> f[k] == args[k + 1]
    ensures |args| == 0 ==> f == []
  {
    if |args| == 0 then [] else args[1..]
  }

  /** `rustup run <toolchain> rustfmt <forwarded arguments...>`. */
  function ChildCommand(toolchain: string, args: seq<string>): (c: CommandLine)
    ensures c.program == "rustup"
    ensures |c.args| == 3 + |Forwarded(args)|
    ensures c.args[0] == "run" && c.args[1] == toolchain && c.args[2] == "rustfmt"
    ensures c.args[3..] == Forwarded(args)
  {
    CommandLine("rustup", ["run", toolchain, "rustfmt"] + Forwarded(args))
  }

  /**
   The exit code of `run` for a given child outcome: the child's own code
   when it exited, and 1 when it could not be spawned or left no code.
   */
  function ExitCode(o: ChildOutcome): (code: i32)
    ensures code == 0 <==> o == Exited(0)
    ensures code != FailureCode ==> o == Exited(code)
    ensures !o.Exited? ==> code == FailureCode
    ensures o.Exited? ==> code == o.code
  {
    match o
    case Exited(c) => c
    case SpawnError => FailureCode
    case Signalled => FailureCode
  }

  /** One execution of `run`: the toolchain chosen, the command spawned, the exit code. */
  datatype Run = Run(toolchain: string, command: CommandLine, code: i32)

  /**
   `run`: resolve the toolchain from the configuration read (falling back to
   "stable"), spawn `rustup` with the forwarded arguments, and turn what
   became of the child into an exit code.
   */
  function RunShim(args: seq<string>, config: Result<string, Toolchain.ReadError>,
                   child: CommandLine -> ChildOutcome): (r: Run)
    ensures r.toolchain == Toolchain.Resolve(config)
    ensures r.command.program == "rustup"
    ensures |r.command.args| >= 3 && r.command.args[..3] == ["run", r.toolchain, "rustfmt"]
    ensures r.command.args[3..] == Forwarded(args)
    ensures r.code == 0 <==> child(r.command) == Exited(0)
    ensures child(r.command).Exited? ==> r.code == child(r.command).code
    ensures !child(r.command).Exited? ==> r.code == FailureCode
  {
    var toolchain := Toolchain.Resolve(config);
    var command := ChildCommand(toolchain, args);
    Run(toolchain, command, ExitCode(child(command)))
  }

  /** Nothing after the program name is dropped, added or reordered on the way to the child. */
  lemma ForwardedArgumentsVerbatim(args: seq<string>, config: Result<string, Toolchain.ReadError>,
                                   child: CommandLine -> ChildOutcome)
    requires |args| > 0
    ensures RunShim(args, config, child).command.args
            == ["run", Toolchain.Resolve(config), "rustfmt"] + args[1..]
  {
  }

  /** An unreadable configuration runs the "stable" toolchain. */
  lemma UnreadableConfigRunsStable(args: seq<string>, e: Toolchain.ReadError,
                                   child: CommandLine -> ChildOutcome)
    ensures RunShim(args, Failure(e), child).command.args[1] == Toolchain.DefaultToolchain
  {
  }
}

/**
 `main2`: the dispatch between installing the shim and relaying to the real
 formatter, and the exit code the process ends with.
 */
module Shim {
  import opened Wrappers
  import Toolchain
  import Relay
  import Installer

  /** The first argument that selects installation instead of relaying. */
  const InstallSwitch: string := "--install-the-shim"

  /** What one invocation can observe of its host. */
  datatype Host = Host(
    args: seq<string>,                                 // `env::args()`, program name first
    home: Option<Installer.Path>,                      // `dirs::home_dir()`
    exe: Option<Installer.Exe>,                        // `env::current_exe()`
    fs: Installer.FileSystem,                          // the files installation reads and writes
    config: Result<string, Toolchain.ReadError>)       // reading `.pre-commit-config.yaml`

  /** How an invocation ended. */
  datatype Outcome =
    | Installed(fs: Installer.FileSystem)              // installation completed
    | InstallPanicked(error: Installer.InstallError)   // installation panicked
    | Relayed(run: Relay.Run)                          // the real formatter was run

  /** The first argument after the program name is exactly the install switch. */
  predicate RequestsInstall(args: seq<string>) {
    |args| > 1 && args[1] == InstallSwitch
  }

  /** `main2` after logging is set up. */
  function Main2(host: Host, child: Relay.CommandLine -> Relay.ChildOutcome): (o: Outcome)
    ensures RequestsInstall(host.args) <==> !o.Relayed?
    ensures o.Relayed? ==> o.run == Relay.RunShim(host.args, host.config, child)
    ensures o.Installed? ==> Installer.Install(host.home, host.exe, host.fs) == Success(o.fs)
    ensures o.InstallPanicked? ==> Installer.Install(host.home, host.exe, host.fs) == Failure(o.error)
  {
    if RequestsInstall(host.args) then
      match Installer.Install(host.home, host.exe, host.fs)
      case Success(fs) => Installed(fs)
      case Failure(e) => InstallPanicked(e)
    else
      Relayed(Relay.RunShim(host.args, host.config, child))
  }

  /** The status the process exits with; `None` when it panics instead of returning. */
  function ExitStatus(o: Outcome): (code: Option<Relay.i32>)
    ensures code.None? <==> o.InstallPanicked?
    ensures o.Installed? ==> code == Some(0)
    ensures o.Relayed? ==> code == Some(o.run.code)
  {
    match o
    case Installed(_) => Some(0)
    case InstallPanicked(_) => None
    case Relayed(r) => Some(r.code)
  }

  /**
   Installation spawns no child: with the install switch, the outcome is the
   same whatever the child would have done.
   */
  lemma InstallSpawnsNothing(host: Host, child1: Relay.CommandLine -> Relay.ChildOutcome,
                             child2: Relay.CommandLine -> Relay.ChildOutcome)
    requires RequestsInstall(host.args)
    ensures Main2(host, child1) == Main2(host, child2)
    ensures Main2(host, child1).Installed? ==> ExitStatus(Main2(host, child1)) == Some(0)
  {
  }

  /**
   Relaying succeeds exactly when the formatter ran and exited with 0: a
   spawn failure, a signal or a non-zero code never reads as success.
   */
  lemma RelayExitsZeroOnlyOnChildSuccess(host: Host, child: Relay.CommandLine -> Relay.ChildOutcome)
    requires !RequestsInstall(host.args)
    ensures var o := Main2(host, child);
            ExitStatus(o) == Some(0) <==> child(o.run.command) == Relay.Exited(0)
  {
  }
}

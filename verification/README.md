# rustfmt-shim, modelled in Dafny

rustfmt-shim is a stand-in for `rustfmt`.  Editors and IDEs call it in place
of the real formatter.  It picks the Rust toolchain that the project's
`.pre-commit-config.yaml` pins and runs `rustup run <toolchain> rustfmt` with
the same arguments and exit code.  Run with `--install-the-shim`, it copies
itself over `~/.cargo/bin/rustfmt` and keeps the original as a backup.

This project models those three pure parts of `src/main.rs` as Dafny functions
and proves properties of them:

- `toolchain.dfy` (module `Toolchain`) covers `choose_toolchain` and the
  "stable" fallback of `run`.  The regular expression
  `rustup run(?: --install)? (\S+)` is modelled twice.  `IsMatch` is the
  pattern's language: every match with the span of group 1.  `MatchAt` is
  the regex engine's deterministic leftmost-first, greedy choice at one start
  position.  `FirstMatchFrom` is the leftmost match in the text.  The lemmas
  prove that the two models agree, and that the toolchain comes from the
  earliest match and its longest non-whitespace run.
- `relay.dfy` (module `Relay`) covers the child command line
  `rustup run <toolchain> rustfmt <args...>` and how the child's fate maps to
  the exit code.  The fates are: failed to spawn, exited with a code, or
  ended by a signal.
- `installer.dfy` (module `Installer`) covers the destination and backup
  paths and the install step.  The file system is a map from paths to bytes.
- `shim.dfy` (module `Shim`) covers the `main2` dispatch on the first
  argument and the exit status of the process.
- `wrappers.dfy` (module `Wrappers`) holds `Option` and `Result`.

Inputs that the program gets from the operating system are parameters here:

- the argument list;
- the home directory;
- the current executable's path and extension;
- the file system contents;
- the result of reading the configuration file;
- what became of the spawned child, as a function from command line to
  outcome.

Two facts about the program shape the model:

- The separators in the pattern are single literal spaces, not any whitespace.
- The child inherits the standard streams directly, so the model sees only
  its command line and what became of it.

## Model

| member | source | states |
|---|---|---|
| Toolchain.RunEnd | src/main.rs:109 | the greedy `\S+` run starting at a position: every character up to the returned end is non-whitespace, and the end is the text's end or a whitespace character |
| Toolchain.TokenAt | src/main.rs:109 | `(\S+)` at a position fails exactly when the text ends there or a whitespace character stands there; otherwise the group starts there, is non-whitespace throughout, and ends at the end of the text or at a whitespace character |
| Toolchain.MatchAt | src/main.rs:109 | a match at `i` puts group 1 after the literal `rustup run ` and inside the text, and the group is non-empty |
| Toolchain.MatchAtIsPreferredMatch | src/main.rs:109 | the engine's choice at `i` exists exactly when the pattern matches at `i`, and it is preferred to every other match there: the `--install` alternative first, then the longest `\S+` |
| Toolchain.FirstMatchFrom | src/main.rs:109 | the reported match starts at the smallest position where the pattern matches; no match is reported only when none exists at any position |
| Toolchain.Group1 | src/main.rs:110 | the captured toolchain is non-empty and contains no whitespace |
| Toolchain.ChooseToolchain | src/main.rs:106-117 | an unreadable configuration is passed on as the same error; a readable one always succeeds, with "stable" when the pattern does not occur |
| Toolchain.Resolve | src/main.rs:76-82 | the toolchain `run` uses is never empty and never contains whitespace, and it is "stable" when the configuration cannot be read |
| Toolchain.ResolveLeftmost | src/main.rs:109-110 | for the preferred match at the earliest position with any match, the toolchain is exactly that match's group 1 |
| Toolchain.ResolveWithoutMatch | src/main.rs:111-114 | a configuration in which the pattern matches nowhere gives exactly "stable" |
| Toolchain.ResolvedTokenIsMaximal | src/main.rs:109-110 | the toolchain from a match is the whole non-whitespace run: the text ends after it or the next character is whitespace |
| Toolchain.InstallFlagWithoutTokenBacktracks | src/main.rs:109 | when `--install` is not followed by a space and a non-whitespace character, the engine backtracks and the captured token begins with `--install` |
| Toolchain.ResolvePinnedVersion | src/main.rs:109-110 | after any prefix in which nothing matches, `rustup run --install ` followed by a whitespace-free token and then whitespace or the end gives exactly that token |
| Toolchain.FlagAlternativeFails | src/main.rs:109 | after `rustup run ` and a whitespace-free token other than `--install`, the `--install` alternative cannot match |
| Toolchain.ResolveChannel | src/main.rs:109-110 | after any prefix in which nothing matches, `rustup run ` followed by a whitespace-free token other than `--install` gives exactly that token |
| Toolchain.ResolveBareFlag | src/main.rs:109 | after any prefix in which nothing matches, `rustup run --install` followed by the end, or by whitespace that is not a single space before a token, gives the toolchain `--install` |
| Toolchain.ExamplePinnedVersion | src/main.rs:109-110 | `rustup run --install 1.70.0 rustfmt` gives "1.70.0" |
| Toolchain.ExampleChannel | src/main.rs:109-110 | `rustup run nightly rustfmt` gives "nightly" |
| Toolchain.ExampleBacktrack | src/main.rs:109 | `rustup run --install`, then a line break and `x`, gives "--install" |
| Toolchain.ExampleEarliestWins | src/main.rs:109 | with `rustup run nightly rustfmt` before `rustup run --install 1.70.0 rustfmt`, the result is "nightly" |
| Relay.Forwarded | src/main.rs:88 | the forwarded arguments are every argument after the program name, in order; none when the list is empty |
| Relay.ChildCommand | src/main.rs:84-88 | the child is `rustup` with `run`, the toolchain and `rustfmt`, followed by exactly the forwarded arguments |
| Relay.ExitCode | src/main.rs:90-103 | a child that exited with code `c` gives `c` unchanged; a spawn failure or a signal gives 1; so the exit code is 0 exactly when the child exited with 0 |
| Relay.RunShim | src/main.rs:75-103 | `run` spawns `rustup` with `run`, the resolved toolchain and `rustfmt`, followed by exactly the arguments after the program name; its code is the child's code when it exited, and 1 on a spawn failure or a signal |
| Relay.ForwardedArgumentsVerbatim | src/main.rs:84-88 | the child's arguments are exactly `run`, the toolchain and `rustfmt`, followed by `args[1..]` |
| Relay.UnreadableConfigRunsStable | src/main.rs:76-82 | an unreadable configuration runs the "stable" toolchain |
| Installer.DestPath | src/main.rs:53-61 | the destination lies under the home directory and is followed by `/.cargo/bin/rustfmt` (no extra separator when home already ends in one), plus `.` and the executable's extension if it has one |
| Installer.BackupPath | src/main.rs:63-65 | the backup path is exactly the destination followed by `.bk`, so it is never the destination itself |
| Installer.Install | src/main.rs:49-71 | a missing home directory fails first, then a missing executable; otherwise the only failures are the backup copy, exactly when neither backup nor destination exists, and the final copy, when the backup step succeeds but the executable is missing; it succeeds whenever the backup step succeeds and the executable exists, including when the executable is the backup the first step just made; on success only the destination and backup change, the destination holds the executable's bytes (the backup's bytes when the executable is the backup), and an existing backup is kept while a missing one gets the old destination |
| Installer.InstallTwiceKeepsFirstBackup | src/main.rs:63-70 | a second installation succeeds and keeps the first backup; when the executable is neither the destination nor the backup, it changes nothing |
| Shim.Main2 | src/main.rs:40-45 | exactly an argument 1 equal to `--install-the-shim` installs instead of relaying; installation gives the install step's result, and any other argument list gives exactly what `run` gives for it |
| Shim.ExitStatus | src/main.rs:24-26 | installation that returns exits 0, a relay exits with the relay's code, and a panicked installation returns no code |
| Shim.InstallSpawnsNothing | src/main.rs:40-42 | with the install switch, the outcome does not depend on any child, and a completed installation exits 0 |
| Shim.RelayExitsZeroOnlyOnChildSuccess | src/main.rs:90-103 | in relay mode the process exits 0 exactly when the formatter exited with 0 |

## Left out

- Logging (src/main.rs:29-38 and every `info!`/`warn!`): it only writes to a log file and does not affect results.  The panic when the log file cannot be created is not modelled.
- Real process spawning and stream inheritance: the child is an abstract function from command line to outcome.
- The operating system calls `dirs::home_dir`, `env::current_exe`, `Path::extension`, `Path::exists`, `fs::copy` and `fs::read_to_string` are inputs or map operations.  Failures involving directories or permissions are not modelled.  A copy fails only when its source file is missing.
- Toolchain.MatchAt: its own contract states only where group 1 lies.  That the choice is the leftmost-first, greedy one is stated by Toolchain.MatchAtIsPreferredMatch.
- Installer.Install: a copy whose source and target are the same path leaves the file unchanged in the model.  On a real file system that copy may truncate the file.
- Installer.DestPath: only the `/` separator is modelled.  Windows separators are not.
- Panics of `env::args` on arguments that are not valid Unicode.
- The exit code a panicking installation produces: the model only records that the installation panicked.
- src/macros.rs is not part of this model.  It only compiles the pattern lazily, and here the pattern is modelled directly.
- src/pre_commit.rs is not part of this model.  It declares data structures that `src/main.rs` never uses.

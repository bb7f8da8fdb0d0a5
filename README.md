# gradle-rust: target provisioning and the multi-target run, in Dafny

This project models the core of the gradle-rust wrapper plugin. The plugin drives
`rustup` and `cargo` (or `cross`) from Gradle. The model covers two parts.

- **The provisioning pass** (`TargetManager.ensureTargetsInstalled` / `installTargets`).
  It runs only when `cargoInstallTargets` is true. It runs `rustup target list --installed`
  and turns the output into a list of installed triples: split on newlines, drop blank lines.
  It then walks the declared targets in order. Each target that is not listed gets a message
  `Installing target "<triple>" via rustup.`. The pass then runs `rustup target add <triple>`,
  but only when the lower-cased command contains `cargo` and does not contain `cross`.
  Any non-zero exit ends the pass.
- **The run of an action** (`WrappedTask.run`). It runs the provisioning pass first. It then
  starts one process per declared target, in declaration order. Each process runs the target's
  command with `target.subcommand(action)` as arguments, the crate directory as working
  directory and the target's environment map. An unset crate with at least one target fails the run before any
  target process starts: with provisioning on, the pass fails first (its `crate.get()`); with it off,
  the run fails with "Invalid working dir." at the first target. The first non-zero exit ends the run.

Every process start goes through a scripted runner (`Process.Runner`). The runner has two
parts. `queryStdout` is what the installed-targets query prints. `exitCode(n)` is the exit
status of the n-th process started, counting from 0. Each operation therefore yields a
deterministic `Trace`: the ordered events (process starts and printed messages), the number
of processes started, and an outcome (`Done` or `Abort(error)`).

Files:

- `Text.dfy`: Kotlin's `split`, blank test, `lowercase()` and `contains`, restricted to ASCII.
- `Process.dfy`: invocations, events, the scripted runner, errors and traces.
- `Config.dfy`: the wrapper extension and the per-target options, as input values.
- `TargetManager.dfy`: the provisioning pass. It has a spec function (`Visit`, `InstallTrace`,
  `EnsureTrace`) and loop methods proved equal to it (`InstallTargets`, `EnsureTargetsInstalled`).
- `WrappedTask.dfy`: the run, with `RunEach`/`RunTrace` and the loop method `Run` proved equal to them.

The specification functions and the lines they follow (`TargetManager.kt` and `task/WrappedTask.kt`):

- `ParseInstalled` and `RemoveBlank`: `TargetManager.kt:32-34`.
- `InstallEligible`: `TargetManager.kt:42-45`.
- `VisitOne` (one target's turn): `TargetManager.kt:37-51`. `Visit` (the `forEach`): `TargetManager.kt:36-53`.
- `InstallTrace`: `TargetManager.kt:17-54`. `EnsureTrace`: `TargetManager.kt:8-15`.
- `RunOne` (one target's process): `WrappedTask.kt:21-29`. `RunEach` (the `forEach`): `WrappedTask.kt:20-30`.
- `RunTrace`: `WrappedTask.kt:17-30`.

The rows of the table below are the lemmas and methods that state properties of these functions.

Behaviour of the code worth knowing:

- The message `Installing target "<triple>" via rustup.` is printed for every target missing
  from the list, before its command is examined, so targets built with `cross` and targets
  with a null command are announced too. An eligible target's `target add` starts right after
  its message.
- The query's arguments are `target list --installed`.
- The environment map handed to the install processes is the extension's `env`. The map handed
  to a target process is `target.env`; the extension's `env` is not merged into it.
- Duplicate triples are each handled on their own, against a list that is never updated.
- An empty target list starts no target process; the run's outcome is then the pass's.
- `WrappedTask.kt:18` passes three arguments to `ensureTargetsInstalled`, which
  `TargetManager.kt:8-11` declares with two. The model has one pass that takes the
  configuration and the runner.

## Model

| member | source | states |
|---|---|---|
| `Text.Split` | src/main/kotlin/fr/stardustenterprises/gradle/rust/wrapper/TargetManager.kt:32 | splitting on `"\n"` gives at least one piece and no piece contains the separator |
| `Text.JoinSplit` | src/main/kotlin/fr/stardustenterprises/gradle/rust/wrapper/TargetManager.kt:32 | splitting loses nothing: joining the pieces with the separator gives back the output |
| `Text.SplitJoin` | src/main/kotlin/fr/stardustenterprises/gradle/rust/wrapper/TargetManager.kt:32 | lines without a newline, joined with newlines, split back into exactly those lines |
| `Text.ContainsIff` | src/main/kotlin/fr/stardustenterprises/gradle/rust/wrapper/TargetManager.kt:43-44 | `contains` holds exactly when the pattern occurs at some position |
| `TargetManager.RemoveBlank` | src/main/kotlin/fr/stardustenterprises/gradle/rust/wrapper/TargetManager.kt:34 | the kept lines are non-blank lines of the input, and there are no more of them than input lines |
| `TargetManager.RemoveBlankLines` | src/main/kotlin/fr/stardustenterprises/gradle/rust/wrapper/TargetManager.kt:32-34 | the loop that drops blank lines from the split output, in one pass, leaves exactly the reference list `RemoveBlank` (the non-blank lines in their original order) |
| `TargetManager.RemoveBlankMembers` | src/main/kotlin/fr/stardustenterprises/gradle/rust/wrapper/TargetManager.kt:34 | a line is kept if and only if it is in the input and not blank |
| `TargetManager.ParseInstalledMembers` | src/main/kotlin/fr/stardustenterprises/gradle/rust/wrapper/TargetManager.kt:32-37 | a string counts as installed if and only if it is, verbatim and untrimmed, a non-blank newline-separated piece of the query output, so membership is exact string equality |
| `TargetManager.ParseInstalledLines` | src/main/kotlin/fr/stardustenterprises/gradle/rust/wrapper/TargetManager.kt:32-34 | output printed one triple per line parses to those lines, blank ones dropped, in printed order |
| `TargetManager.EligibleIff` | src/main/kotlin/fr/stardustenterprises/gradle/rust/wrapper/TargetManager.kt:42-45 | a command is eligible for `target add` if and only if it mentions "cargo" in some letter case and nowhere mentions "cross" in any letter case |
| `TargetManager.CrossNeverEligible` | src/main/kotlin/fr/stardustenterprises/gradle/rust/wrapper/TargetManager.kt:42-45 | a command containing "cross" in any letter case is never eligible |
| `TargetManager.EligibilityExamples` | src/main/kotlin/fr/stardustenterprises/gradle/rust/wrapper/TargetManager.kt:42-45 | `cargo` is eligible; `cross`, `CROSS` and `my-cargo-cross` are not |
| `TargetManager.UpperCargoEligible` | src/main/kotlin/fr/stardustenterprises/gradle/rust/wrapper/TargetManager.kt:42-45 | the command is lower-cased before matching: `CARGO` and `Cargo` are eligible |
| `TargetManager.UpperCrossIneligible` | src/main/kotlin/fr/stardustenterprises/gradle/rust/wrapper/TargetManager.kt:42-45 | `cross` in capitals still rules a command out: `cargo-CROSS` is not eligible |
| `TargetManager.InstallTargets` | src/main/kotlin/fr/stardustenterprises/gradle/rust/wrapper/TargetManager.kt:17-54 | the loop over the targets, appending to the event log and consuming exit codes, produces exactly the trace of the pass (`InstallTrace`) |
| `TargetManager.EnsureTargetsInstalled` | src/main/kotlin/fr/stardustenterprises/gradle/rust/wrapper/TargetManager.kt:8-15 | produces the trace of the pass gated by `cargoInstallTargets.getOrElse(false)` (`EnsureTrace`) |
| `TargetManager.PassGates` | src/main/kotlin/fr/stardustenterprises/gradle/rust/wrapper/TargetManager.kt:12-30 | flag unset or false: no process and no message; unset crate: fails before any process; non-zero query exit: the query is the only process and the pass fails before any target is examined |
| `TargetManager.PassInstallFails` | src/main/kotlin/fr/stardustenterprises/gradle/rust/wrapper/TargetManager.kt:36-53 | a non-zero `target add` exit for target k ends the pass: its events are the query, the walk of the targets before k, k's message and k's `target add`, and it fails with `InstallFailed` naming k and that exit code |
| `TargetManager.PassAnnouncesAdds` | src/main/kotlin/fr/stardustenterprises/gradle/rust/wrapper/TargetManager.kt:24-51 | a pass that starts anything starts with the query, and every later `target add` comes right after the message announcing its triple |
| `TargetManager.PassCalls` | src/main/kotlin/fr/stardustenterprises/gradle/rust/wrapper/TargetManager.kt:24-51 | the number of processes the pass reports equals the number it started, so the run's processes continue the numbering |
| `TargetManager.PassAllInstalled` | src/main/kotlin/fr/stardustenterprises/gradle/rust/wrapper/TargetManager.kt:36-39 | when every declared triple is listed, the query is the only process, nothing is printed and the pass succeeds |
| `TargetManager.PassDone` | src/main/kotlin/fr/stardustenterprises/gradle/rust/wrapper/TargetManager.kt:24-53 | a completed pass starts the query, then `rustup target add <triple>` once per missing eligible target in declaration order, and prints one message per missing target in declaration order |
| `TargetManager.PassRunsOnlyRustup` | src/main/kotlin/fr/stardustenterprises/gradle/rust/wrapper/TargetManager.kt:21-51 | every process of the pass is rustup, in the crate directory, with the extension environment; its arguments are the query's or `target add` for a missing eligible declared target |
| `TargetManager.CrossTargetsNeverAdded` | src/main/kotlin/fr/stardustenterprises/gradle/rust/wrapper/TargetManager.kt:42-48 | a triple declared only by targets whose command says "cross" (any letter case) never gets `target add` |
| `TargetManager.SecondPassAddsNothing` | src/main/kotlin/fr/stardustenterprises/gradle/rust/wrapper/TargetManager.kt:24-51 | after a completed pass, a second pass whose query also lists what the first added starts only the query and succeeds |
| `TargetManager.VisitOneEvents` | src/main/kotlin/fr/stardustenterprises/gradle/rust/wrapper/TargetManager.kt:37-51 | one target's turn: a listed target prints and starts nothing; a missing one prints its message; it starts `rustup target add` exactly when it is installable, and the process count advances by the processes started; a turn completes only if the target is listed or has a command (the order of message and `target add` within the turn is stated by `VisitAnnouncesAdds`) |
| `TargetManager.VisitCalls` | src/main/kotlin/fr/stardustenterprises/gradle/rust/wrapper/TargetManager.kt:36-53 | the walk over the targets advances the process count by exactly the processes it starts |
| `TargetManager.InstallsNeverExceedMessages` | src/main/kotlin/fr/stardustenterprises/gradle/rust/wrapper/TargetManager.kt:40-51 | in every walk, complete or not, installs are at most the messages printed (each added target was also announced) |
| `TargetManager.VisitDoneMessages` | src/main/kotlin/fr/stardustenterprises/gradle/rust/wrapper/TargetManager.kt:36-40 | a completed walk prints exactly one message per missing target, eligible or not, in declaration order |
| `TargetManager.VisitDoneAdds` | src/main/kotlin/fr/stardustenterprises/gradle/rust/wrapper/TargetManager.kt:36-51 | a completed walk starts exactly `rustup target add <triple>` per missing eligible target, in declaration order |
| `TargetManager.VisitAbort` | src/main/kotlin/fr/stardustenterprises/gradle/rust/wrapper/TargetManager.kt:36-53 | a failing walk stops at some target k: earlier targets complete, target k's turn fails, and no later target is examined |
| `TargetManager.VisitOneOutcome` | src/main/kotlin/fr/stardustenterprises/gradle/rust/wrapper/TargetManager.kt:37-51 | a turn fails if and only if its target is missing and either its command is null or it is installable and `target add` exits non-zero; the error is `MissingCommand` or `InstallFailed` naming that target and exit code |
| `TargetManager.VisitFailsAt` | src/main/kotlin/fr/stardustenterprises/gradle/rust/wrapper/TargetManager.kt:36-53 | fail-fast: when the targets before k complete and target k's turn fails, the walk stops at k with k's error and examines nothing after it |
| `TargetManager.VisitAnnouncesAdds` | src/main/kotlin/fr/stardustenterprises/gradle/rust/wrapper/TargetManager.kt:40-51 | in every walk, complete or not, each `target add <triple>` comes immediately after the message announcing that triple |
| `TargetManager.VisitAllListed` | src/main/kotlin/fr/stardustenterprises/gradle/rust/wrapper/TargetManager.kt:36-39 | listed targets produce no message and no process |
| `TargetManager.VisitAddsOnlyInstallable` | src/main/kotlin/fr/stardustenterprises/gradle/rust/wrapper/TargetManager.kt:36-51 | every process the walk starts is `target add` for a declared target that is missing and whose command is eligible |
| `TargetManager.VisitDoneHasCommands` | src/main/kotlin/fr/stardustenterprises/gradle/rust/wrapper/TargetManager.kt:42 | a completed walk met a non-null command for every missing target |
| `TargetManager.VisitNothingInstallable` | src/main/kotlin/fr/stardustenterprises/gradle/rust/wrapper/TargetManager.kt:36-48 | when every target is listed or has an ineligible command, the walk starts no process and completes |
| `WrappedTask.Run` | src/main/kotlin/fr/stardustenterprises/gradle/rust/wrapper/task/WrappedTask.kt:17-30 | the method, provisioning then a loop over the targets, produces exactly the trace of the run (`RunTrace`) |
| `WrappedTask.RunPhases` | src/main/kotlin/fr/stardustenterprises/gradle/rust/wrapper/task/WrappedTask.kt:18-30 | the run's events begin with the whole provisioning pass; a failed pass is the whole run; after the pass come only target processes, of a prefix of the targets, in order |
| `WrappedTask.RunAllSucceed` | src/main/kotlin/fr/stardustenterprises/gradle/rust/wrapper/task/WrappedTask.kt:18-30 | after a completed pass, if every target exits zero, there is exactly one process per target in declaration order, each with the target's command, `subcommand(action)`, the crate directory and the target's own environment, and the run succeeds |
| `WrappedTask.RunFailsAt` | src/main/kotlin/fr/stardustenterprises/gradle/rust/wrapper/task/WrappedTask.kt:18-29 | when target k is the first to exit non-zero, targets 0..k run in order, none after k, and the run fails naming target k and its exit code |
| `WrappedTask.RunWithoutCrate` | src/main/kotlin/fr/stardustenterprises/gradle/rust/wrapper/task/WrappedTask.kt:24-27 | with an unset crate and at least one target, the run fails before any target process (with provisioning off, with "Invalid working dir." and no process at all); with no targets that error never arises |
| `WrappedTask.RunEachInvokesPrefix` | src/main/kotlin/fr/stardustenterprises/gradle/rust/wrapper/task/WrappedTask.kt:20-29 | whatever the exit codes, the loop starts the processes of a prefix of the targets, in order, each with its own command, arguments and environment |
| `WrappedTask.RunEachAllSucceed` | src/main/kotlin/fr/stardustenterprises/gradle/rust/wrapper/task/WrappedTask.kt:20-30 | all exits zero: one process per target, in order, and success |
| `WrappedTask.RunEachFailsAt` | src/main/kotlin/fr/stardustenterprises/gradle/rust/wrapper/task/WrappedTask.kt:20-29 | fail-fast: the first non-zero exit, at target k, ends the loop after k+1 processes with an error naming target k |
| `WrappedTask.SingleTargetBuild` | src/main/kotlin/fr/stardustenterprises/gradle/rust/wrapper/task/WrappedTask.kt:20-29 | one cargo target, provisioning off, `build`: exactly one process, `cargo build --target x86_64-unknown-linux-gnu` in the crate directory, and success |

## Left out

- Real process execution: Gradle's `providers.exec` and `ExecOperations.exec`, stdout capture through a byte stream, and charset decoding. The scripted runner stands in for all of it. Exit codes depend only on the position of a process in the run.
- The environment a process inherits: `environment(Map)` adds the given variables to it, and the model records only the map handed over.
- Interrupt forwarding to a running child, and concurrency in general. The plugin is sequential.
- The exception types and their messages. Failures are the `Process.Error` values.
- Kotlin's Unicode rules: `lowercase()` is modelled on ASCII letters only, and `isBlank` on the ASCII whitespace set (space, tab, LF, VT, FF, CR, U+001C to U+001F).
- `rustupCommand.get()` on an unset property: rustupCommand is taken to be set. The wrapper extension's fields are inputs whose definitions are not part of this model.
- `target.subcommand` and `target.env` are uninterpreted inputs. `subcommand` is a function field of the target and is only applied.
- A null `target.command` in the run: Gradle's reaction is not visible. The model fails the run with `MissingCommand` at that target, before its process starts and after the working-directory check. In the provisioning pass, `command!!` is modelled as failing right after the target's message is printed.
- `CleanTask` (directory deletion through commons-io), and `TestTask` and `RunTask`, which only fix the action string. SimpleTasks.kt is not part of this model.
- Build scripting and dependency constants (build.gradle.kts, buildSrc) are not part of this model.

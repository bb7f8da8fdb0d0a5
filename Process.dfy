/**
 * Processes as the core sees them: every `exec` becomes an `Invocation`
 * recorded in a trace, interleaved with the messages printed to standard
 * output. The outside world is a scripted runner: the output of the
 * installed-targets query and the exit code of the n-th process started.
 */
module Process {

  /** One process start: executable, arguments, working directory, environment. */
  datatype Invocation = Invocation(
    executable: string,
    args: seq<string>,
    workingDir: string,
    env: map<string, string>)

  /** What an observer of the run sees, in order. */
  datatype Event = Exec(invocation: Invocation) | Message(text: string)

  /**
   * The scripted process runner. Processes are numbered from 0 in the order
   * they are started; `exitCode(n)` is the exit status of process n and
   * `queryStdout` is what the installed-targets query writes.
   */
  datatype Runner = Runner(queryStdout: string, exitCode: nat -> int)

  /** The exceptions that end a pass or a run. */
  datatype Error =
    | MissingCrate                          // `crate.get()` on an unset property
    | QueryFailed(exit: int)                // non-zero exit of `target list --installed`
    | MissingCommand(triple: string)        // a target whose command is null
    | InstallFailed(triple: string, exit: int)
    | InvalidWorkingDir                     // "Invalid working dir."
    | TargetFailed(triple: string, exit: int)

  datatype Outcome = Done | Abort(error: Error)

  /**
   * The observable effect of a step: the events it produced, the number of
   * the next process to be started, and how it ended.
   */
  datatype Trace = Trace(events: seq<Event>, calls: nat, outcome: Outcome)

  /** `t` with `pre` happening before its own events. */
  function Prepend(pre: seq<Event>, t: Trace): Trace {
    t.(events := pre + t.events)
  }

  /** The process starts of an event sequence, in order. */
  function Execs(events: seq<Event>): seq<Invocation> {
    if events == [] then []
    else
      match events[0]
      case Exec(inv) => [inv] + Execs(events[1..])
      case Message(_) => Execs(events[1..])
  }

  /** The printed messages of an event sequence, in order. */
  function Messages(events: seq<Event>): seq<string> {
    if events == [] then []
    else
      match events[0]
      case Exec(_) => Messages(events[1..])
      case Message(m) => [m] + Messages(events[1..])
  }

  lemma {:induction false} ExecsAppend(a: seq<Event>, b: seq<Event>)
    ensures Execs(a + b) == Execs(a) + Execs(b)
    ensures Messages(a + b) == Messages(a) + Messages(b)
    decreases |a|
  {
    if a == [] {
      assert a + b == b;
    } else {
      assert (a + b)[0] == a[0];
      assert (a + b)[1..] == a[1..] + b;
      ExecsAppend(a[1..], b);
    }
  }
}

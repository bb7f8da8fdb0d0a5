/**
 * The action tasks (`build`, `test`, `run`): the provisioning pass, then
 * one process per declared target, in declaration order, each running the
 * target's command with the target's arguments for the action, in the
 * crate directory, with the target's environment. The first failure ends
 * the run.
 */
module WrappedTask {
  import opened Config
  import opened Process
  import TargetManager

  /** The process started for target `t` whose command is `cmd`. */
  function TargetInvocation(t: TargetOptions, cmd: string, action: string, dir: string): Invocation {
    Invocation(cmd, t.subcommand(action), dir, t.env)
  }

  /**
   * One turn of the `forEach` with `calls` processes already started. The
   * working directory is resolved while the process is being configured,
   * so an unset crate fails before anything starts; a null command cannot
   * start either.
   */
  function RunOne(t: TargetOptions, action: string, crate: Option<string>, runner: Runner, calls: nat): Trace {
    match crate
    case None => Trace([], calls, Abort(InvalidWorkingDir))
    case Some(dir) =>
      match t.command
      case None => Trace([], calls, Abort(MissingCommand(t.target)))
      case Some(cmd) =>
        var code := runner.exitCode(calls);
        Trace([Exec(TargetInvocation(t, cmd, action, dir))], calls + 1,
              if code != 0 then Abort(TargetFailed(t.target, code)) else Done)
  }

  /** The `forEach` over `ts`: one turn per target until one fails. */
  function RunEach(ts: seq<TargetOptions>, action: string, crate: Option<string>, runner: Runner, calls: nat): Trace
    decreases |ts|
  {
    if ts == [] then Trace([], calls, Done)
    else
      var first := RunOne(ts[0], action, crate, runner, calls);
      if first.outcome != Done then first
      else Prepend(first.events, RunEach(ts[1..], action, crate, runner, first.calls))
  }

  /** `run`: the provisioning pass; if it completes, the targets. */
  function RunTrace(ext: WrapperExtension, action: string, runner: Runner): Trace {
    var pass := TargetManager.EnsureTrace(ext, runner);
    if pass.outcome != Done then pass
    else Prepend(pass.events, RunEach(ext.targets, action, ext.crate, runner, pass.calls))
  }

  /** Running a non-empty list after `pre` happened: the first turn, then the rest. */
  lemma RunCons(t: TargetOptions, rest: seq<TargetOptions>, action: string, crate: Option<string>,
                runner: Runner, calls: nat, pre: seq<Event>)
    ensures var first := RunOne(t, action, crate, runner, calls);
      && (first.outcome == Done ==>
            Prepend(pre, RunEach([t] + rest, action, crate, runner, calls))
              == Prepend(pre + first.events, RunEach(rest, action, crate, runner, first.calls)))
      && (first.outcome != Done ==>
            Prepend(pre, RunEach([t] + rest, action, crate, runner, calls))
              == Trace(pre + first.events, first.calls, first.outcome))
  {
    assert ([t] + rest)[0] == t && ([t] + rest)[1..] == rest;
    var first := RunOne(t, action, crate, runner, calls);
    if first.outcome == Done {
      var tail := RunEach(rest, action, crate, runner, first.calls);
      assert pre + (first.events + tail.events) == pre + first.events + tail.events;
    }
  }

  /** `WrappedTask.run` with the action it was created for. */
  method Run(ext: WrapperExtension, action: string, runner: Runner) returns (result: Trace)
    ensures result == RunTrace(ext, action, runner)
  {
    var pass := TargetManager.EnsureTargetsInstalled(ext, runner);
    if pass.outcome != Done {
      return pass;
    }
    var events := pass.events;
    var calls := pass.calls;
    var outcome := Done;
    var i := 0;
    while i < |ext.targets| && outcome == Done
      invariant 0 <= i <= |ext.targets|
      invariant outcome == Done ==>
        RunTrace(ext, action, runner) == Prepend(events, RunEach(ext.targets[i..], action, ext.crate, runner, calls))
      invariant outcome != Done ==> RunTrace(ext, action, runner) == Trace(events, calls, outcome)
    {
      var target := ext.targets[i];
      ghost var step := RunOne(target, action, ext.crate, runner, calls);
      ghost var before := events;
      assert ext.targets[i..] == [target] + ext.targets[i + 1..];
      RunCons(target, ext.targets[i + 1..], action, ext.crate, runner, calls, events);
      if ext.crate.None? {
        outcome := Abort(InvalidWorkingDir);
      } else if target.command.None? {
        outcome := Abort(MissingCommand(target.target));
      } else {
        events := events + [Exec(TargetInvocation(target, target.command.value, action, ext.crate.value))];
        var exit := runner.exitCode(calls);
        calls := calls + 1;
        if exit != 0 {
          outcome := Abort(TargetFailed(target.target, exit));
        }
      }
      assert events == before + step.events && calls == step.calls && outcome == step.outcome;
      i := i + 1;
    }
    result := Trace(events, calls, outcome);
  }

  // ---------------------------------------------------------------------
  // Properties of the loop over the targets

  /**
   * `events` are exactly the processes of the first `m` targets, in
   * declaration order: target j's command, its arguments for `action`, the
   * crate directory and target j's own environment.
   */
  ghost predicate InvokesFirst(events: seq<Event>, ts: seq<TargetOptions>, action: string, dir: string, m: nat) {
    && m <= |ts|
    && |events| == m
    && forall j :: 0 <= j < m ==>
         ts[j].command.Some? && events[j] == Exec(TargetInvocation(ts[j], ts[j].command.value, action, dir))
  }

  lemma InvokesFirstCons(ev: Event, events: seq<Event>, ts: seq<TargetOptions>, action: string, dir: string, m: nat)
    requires |ts| > 0 && InvokesFirst(events, ts[1..], action, dir, m)
    requires ts[0].command.Some? && ev == Exec(TargetInvocation(ts[0], ts[0].command.value, action, dir))
    ensures InvokesFirst([ev] + events, ts, action, dir, m + 1)
  {
    forall j | 0 < j < m + 1 ensures ts[j] == ts[1..][j - 1] && ([ev] + events)[j] == events[j - 1] { }
  }

  /** Whatever happens, the loop starts the processes of a prefix of the targets, in order. */
  lemma {:induction false} RunEachInvokesPrefix(ts: seq<TargetOptions>, action: string, dir: string, runner: Runner, calls: nat)
    ensures var r := RunEach(ts, action, Some(dir), runner, calls);
      r.calls == calls + |r.events| && exists m: nat :: InvokesFirst(r.events, ts, action, dir, m)
    decreases |ts|
  {
    var r := RunEach(ts, action, Some(dir), runner, calls);
    if ts == [] {
      assert InvokesFirst(r.events, ts, action, dir, 0);
    } else {
      var first := RunOne(ts[0], action, Some(dir), runner, calls);
      if first.events == [] {
        assert InvokesFirst(r.events, ts, action, dir, 0);
      } else if first.outcome != Done {
        assert InvokesFirst(r.events, ts, action, dir, 1);
      } else {
        var tail := RunEach(ts[1..], action, Some(dir), runner, first.calls);
        RunEachInvokesPrefix(ts[1..], action, dir, runner, first.calls);
        var m: nat :| InvokesFirst(tail.events, ts[1..], action, dir, m);
        InvokesFirstCons(first.events[0], tail.events, ts, action, dir, m);
        assert first.events == [first.events[0]];
      }
    }
  }

  /** When every target has a command and exits zero, each target runs exactly once, in order. */
  lemma {:induction false} RunEachAllSucceed(ts: seq<TargetOptions>, action: string, dir: string, runner: Runner, calls: nat)
    requires forall j :: 0 <= j < |ts| ==> ts[j].command.Some?
    requires forall n: nat :: calls <= n < calls + |ts| ==> runner.exitCode(n) == 0
    ensures var r := RunEach(ts, action, Some(dir), runner, calls);
      r.outcome == Done && r.calls == calls + |ts| && InvokesFirst(r.events, ts, action, dir, |ts|)
    decreases |ts|
  {
    if ts != [] {
      var first := RunOne(ts[0], action, Some(dir), runner, calls);
      assert runner.exitCode(calls) == 0;
      var tail := RunEach(ts[1..], action, Some(dir), runner, calls + 1);
      RunEachAllSucceed(ts[1..], action, dir, runner, calls + 1);
      InvokesFirstCons(first.events[0], tail.events, ts, action, dir, |ts| - 1);
      assert first.events == [first.events[0]];
    }
  }

  /**
   * Fail-fast: when targets before k exit zero and target k exits non-zero,
   * exactly targets 0..k run, and the run fails naming target k and its exit code.
   */
  lemma {:induction false} RunEachFailsAt(ts: seq<TargetOptions>, action: string, dir: string, runner: Runner, calls: nat, k: nat)
    requires k < |ts|
    requires forall j :: 0 <= j <= k ==> ts[j].command.Some?
    requires forall n: nat :: calls <= n < calls + k ==> runner.exitCode(n) == 0
    requires runner.exitCode(calls + k) != 0
    ensures var r := RunEach(ts, action, Some(dir), runner, calls);
      && r.outcome == Abort(TargetFailed(ts[k].target, runner.exitCode(calls + k)))
      && r.calls == calls + k + 1
      && InvokesFirst(r.events, ts, action, dir, k + 1)
    decreases k
  {
    var first := RunOne(ts[0], action, Some(dir), runner, calls);
    if k == 0 {
      assert first.events == [first.events[0]];
    } else {
      assert runner.exitCode(calls) == 0;
      var tail := RunEach(ts[1..], action, Some(dir), runner, calls + 1);
      RunEachFailsAt(ts[1..], action, dir, runner, calls + 1, k - 1);
      InvokesFirstCons(first.events[0], tail.events, ts, action, dir, k);
      assert first.events == [first.events[0]];
    }
  }

  // ---------------------------------------------------------------------
  // Properties of the whole run

  /**
   * The provisioning pass happens first and entirely: the run's events
   * start with the pass's events, a failed pass is the whole run, and
   * everything after the pass is the processes of a prefix of the
   * targets, in order.
   */
  lemma RunPhases(ext: WrapperExtension, action: string, runner: Runner)
    ensures var pass := TargetManager.EnsureTrace(ext, runner);
      var run := RunTrace(ext, action, runner);
      && |pass.events| <= |run.events|
      && run.events[..|pass.events|] == pass.events
      && (pass.outcome != Done ==> run == pass)
      && (pass.outcome == Done && ext.crate.None? ==> run.events == pass.events)
      && (pass.outcome == Done && ext.crate.Some? ==>
            exists m: nat :: InvokesFirst(run.events[|pass.events|..], ext.targets, action, ext.crate.value, m))
  {
    var pass := TargetManager.EnsureTrace(ext, runner);
    var run := RunTrace(ext, action, runner);
    if pass.outcome == Done {
      var rest := RunEach(ext.targets, action, ext.crate, runner, pass.calls);
      assert run.events == pass.events + rest.events;
      assert run.events[|pass.events|..] == rest.events;
      if ext.crate.Some? {
        RunEachInvokesPrefix(ext.targets, action, ext.crate.value, runner, pass.calls);
      } else if ext.targets != [] {
        assert rest.events == [];
      }
    }
  }

  /**
   * With a completed pass, targets that all have a command and all exit
   * zero: one process per target, in declaration order, and success.
   */
  lemma RunAllSucceed(ext: WrapperExtension, action: string, runner: Runner)
    requires TargetManager.EnsureTrace(ext, runner).outcome == Done && ext.crate.Some?
    requires forall j :: 0 <= j < |ext.targets| ==> ext.targets[j].command.Some?
    requires var first := TargetManager.EnsureTrace(ext, runner).calls;
      forall n: nat :: first <= n < first + |ext.targets| ==> runner.exitCode(n) == 0
    ensures var pass := TargetManager.EnsureTrace(ext, runner);
      var run := RunTrace(ext, action, runner);
      && run.outcome == Done
      && run.events[..|pass.events|] == pass.events
      && InvokesFirst(run.events[|pass.events|..], ext.targets, action, ext.crate.value, |ext.targets|)
  {
    var pass := TargetManager.EnsureTrace(ext, runner);
    var rest := RunEach(ext.targets, action, ext.crate, runner, pass.calls);
    RunEachAllSucceed(ext.targets, action, ext.crate.value, runner, pass.calls);
    assert (pass.events + rest.events)[|pass.events|..] == rest.events;
  }

  /**
   * With a completed pass, when target k is the first to exit non-zero,
   * no target after k is started and the run fails naming target k.
   */
  lemma RunFailsAt(ext: WrapperExtension, action: string, runner: Runner, k: nat)
    requires TargetManager.EnsureTrace(ext, runner).outcome == Done && ext.crate.Some?
    requires k < |ext.targets|
    requires forall j :: 0 <= j <= k ==> ext.targets[j].command.Some?
    requires var first := TargetManager.EnsureTrace(ext, runner).calls;
      (forall n: nat :: first <= n < first + k ==> runner.exitCode(n) == 0) && runner.exitCode(first + k) != 0
    ensures var pass := TargetManager.EnsureTrace(ext, runner);
      var run := RunTrace(ext, action, runner);
      && run.outcome == Abort(TargetFailed(ext.targets[k].target, runner.exitCode(pass.calls + k)))
      && run.events[..|pass.events|] == pass.events
      && InvokesFirst(run.events[|pass.events|..], ext.targets, action, ext.crate.value, k + 1)
  {
    var pass := TargetManager.EnsureTrace(ext, runner);
    var rest := RunEach(ext.targets, action, ext.crate, runner, pass.calls);
    RunEachFailsAt(ext.targets, action, ext.crate.value, runner, pass.calls, k);
    assert (pass.events + rest.events)[|pass.events|..] == rest.events;
  }

  /**
   * An unset crate with at least one target fails the run before any
   * target process: with provisioning off the error is "Invalid working
   * dir." and nothing at all runs. With no targets that error never arises.
   */
  lemma RunWithoutCrate(ext: WrapperExtension, action: string, runner: Runner)
    requires ext.crate.None?
    ensures |ext.targets| > 0 ==> RunTrace(ext, action, runner).outcome.Abort?
    ensures |ext.targets| > 0 ==> RunTrace(ext, action, runner).events == TargetManager.EnsureTrace(ext, runner).events
    ensures |ext.targets| > 0 && !InstallEnabled(ext) ==>
      RunTrace(ext, action, runner) == Trace([], 0, Abort(InvalidWorkingDir))
    ensures ext.targets == [] ==> RunTrace(ext, action, runner).outcome != Abort(InvalidWorkingDir)
  {
    var pass := TargetManager.EnsureTrace(ext, runner);
    if pass.outcome == Done && |ext.targets| > 0 {
      assert pass.events + [] == pass.events;
    }
    if ext.targets == [] && pass.outcome == Done {
      assert RunTrace(ext, action, runner).outcome == Done;
    }
  }

  /**
   * The single-target scenario: provisioning off, one cargo target whose
   * `build` arguments are `build --target <triple>`, exiting zero: one
   * process with exactly those arguments in the crate directory, and success.
   */
  lemma SingleTargetBuild(dir: string, env: map<string, string>, runner: Runner)
    requires runner.exitCode(0) == 0
    ensures
      var triple := "x86_64-unknown-linux-gnu";
      var t := TargetOptions(triple, Some("cargo"), env,
                             (a: string) => if a == "build" then ["build", "--target", triple] else [a]);
      var ext := WrapperExtension(None, "rustup", Some(dir), map[], [t]);
      RunTrace(ext, "build", runner)
        == Trace([Exec(Invocation("cargo", ["build", "--target", triple], dir, env))], 1, Done)
  {
    var triple := "x86_64-unknown-linux-gnu";
    var t := TargetOptions(triple, Some("cargo"), env,
                           (a: string) => if a == "build" then ["build", "--target", triple] else [a]);
    var ext := WrapperExtension(None, "rustup", Some(dir), map[], [t]);
    assert TargetManager.EnsureTrace(ext, runner) == Trace([], 0, Done);
    assert t.subcommand("build") == ["build", "--target", triple];
    var ev := Exec(Invocation("cargo", ["build", "--target", triple], dir, env));
    assert RunOne(t, "build", Some(dir), runner, 0) == Trace([ev], 1, Done);
    assert [t][1..] == [];
    assert RunEach([t], "build", Some(dir), runner, 0) == Trace([ev], 1, Done);
  }
}

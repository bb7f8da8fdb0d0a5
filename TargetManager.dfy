/**
 * The target-provisioning pass: ask rustup which targets are installed,
 * then walk the declared targets in order, announcing every missing one
 * and asking rustup to add it when the target is built by cargo itself
 * (and not by `cross`). Any failing process ends the pass.
 */
module TargetManager {
  import opened Text
  import opened Config
  import opened Process

  const QueryArgs: seq<string> := ["target", "list", "--installed"]

  function AddArgs(triple: string): seq<string> {
    ["target", "add", triple]
  }

  function InstallMessage(triple: string): string {
    "Installing target \"" + triple + "\" via rustup."
  }

  function QueryInvocation(ext: WrapperExtension, dir: string): Invocation {
    Invocation(ext.rustupCommand, QueryArgs, dir, ext.env)
  }

  function AddInvocation(ext: WrapperExtension, dir: string, triple: string): Invocation {
    Invocation(ext.rustupCommand, AddArgs(triple), dir, ext.env)
  }

  // ---------------------------------------------------------------------
  // Parsing the output of `rustup target list --installed`

  /** The list left by `removeIf(String::isNullOrBlank)`. */
  function RemoveBlank(lines: seq<string>): (kept: seq<string>)
    ensures |kept| <= |lines|
    ensures forall k :: 0 <= k < |kept| ==> !IsBlank(kept[k]) && kept[k] in lines
    decreases |lines|
  {
    if lines == [] then []
    else if IsBlank(lines[0]) then RemoveBlank(lines[1..])
    else [lines[0]] + RemoveBlank(lines[1..])
  }

  /** `removeIf` on the split lines: one pass keeping the non-blank lines, in order. */
  method RemoveBlankLines(lines: seq<string>) returns (kept: seq<string>)
    ensures kept == RemoveBlank(lines)
  {
    kept := [];
    var i := 0;
    while i < |lines|
      invariant 0 <= i <= |lines|
      invariant RemoveBlank(lines) == kept + RemoveBlank(lines[i..])
    {
      assert lines[i..][0] == lines[i] && lines[i..][1..] == lines[i + 1..];
      if !IsBlank(lines[i]) {
        kept := kept + [lines[i]];
      }
      i := i + 1;
    }
    assert lines[i..] == [];
  }

  /** The installed triples: the lines of the query's output that are not blank. */
  function ParseInstalled(stdout: string): seq<string> {
    RemoveBlank(Split(stdout, '\n'))
  }

  lemma {:induction false} RemoveBlankMembers(lines: seq<string>, x: string)
    ensures x in RemoveBlank(lines) <==> x in lines && !IsBlank(x)
    decreases |lines|
  {
    if lines != [] {
      RemoveBlankMembers(lines[1..], x);
      assert lines == [lines[0]] + lines[1..];
    }
  }

  /**
   * A string is reported installed exactly when it is one of the
   * newline-separated pieces of the output, taken verbatim, and not blank.
   */
  lemma ParseInstalledMembers(stdout: string, x: string)
    ensures x in ParseInstalled(stdout) <==> x in Split(stdout, '\n') && !IsBlank(x)
  {
    RemoveBlankMembers(Split(stdout, '\n'), x);
  }

  /**
   * When rustup prints its targets one per line, the parsed list is those
   * lines with the blank ones dropped, in the order printed.
   */
  lemma ParseInstalledLines(lines: seq<string>)
    requires |lines| >= 1
    requires forall k :: 0 <= k < |lines| ==> '\n' !in lines[k]
    ensures ParseInstalled(Join(lines, '\n')) == RemoveBlank(lines)
  {
    SplitJoin(lines, '\n');
  }

  // ---------------------------------------------------------------------
  // Which commands get their targets installed

  /** `command.lowercase()` contains "cargo" and does not contain "cross". */
  predicate InstallEligible(command: string) {
    var c := Lower(command);
    Contains(c, "cargo") && !Contains(c, "cross")
  }

  /** `word` (lower case) occurs at position `i` of `s`, ignoring ASCII case. */
  predicate MentionsAt(s: string, word: string, i: nat) {
    i + |word| <= |s| && Lower(s[i..i + |word|]) == word
  }

  ghost predicate Mentions(s: string, word: string) {
    exists i: nat :: MentionsAt(s, word, i)
  }

  lemma LowerOccurs(s: string, word: string, i: nat)
    ensures OccursAt(Lower(s), word, i) <==> MentionsAt(s, word, i)
  {
    if i + |word| <= |s| {
      LowerSlice(s, i, i + |word|);
    }
  }

  lemma ContainsLowerIff(s: string, word: string)
    ensures Contains(Lower(s), word) <==> Mentions(s, word)
  {
    ContainsIff(Lower(s), word);
    if Contains(Lower(s), word) {
      var i: nat :| OccursAt(Lower(s), word, i);
      LowerOccurs(s, word, i);
    }
    if Mentions(s, word) {
      var i: nat :| MentionsAt(s, word, i);
      LowerOccurs(s, word, i);
    }
  }

  /**
   * A command is eligible exactly when it mentions "cargo" in some mix of
   * case and nowhere mentions "cross" in any mix of case.
   */
  lemma EligibleIff(command: string)
    ensures InstallEligible(command) <==> Mentions(command, "cargo") && !Mentions(command, "cross")
  {
    ContainsLowerIff(command, "cargo");
    ContainsLowerIff(command, "cross");
  }

  /** A command naming `cross` in any case is never eligible. */
  lemma CrossNeverEligible(command: string, i: nat)
    requires MentionsAt(command, "cross", i)
    ensures !InstallEligible(command)
  {
    EligibleIff(command);
  }

  /**
   * The rule is textual: plain `cargo` is eligible, while `cross` in any
   * case, and a cargo wrapper whose name also says "cross", are not.
   */
  lemma EligibilityExamples()
    ensures InstallEligible("cargo")
    ensures !InstallEligible("cross") && !InstallEligible("CROSS") && !InstallEligible("my-cargo-cross")
  {
    assert Lower("cargo") == "cargo";
    assert Lower("cargo")[..5] == "cargo";
    CrossNeverEligible("cross", 0);
    CrossNeverEligible("CROSS", 0);
    assert "my-cargo-cross"[9..14] == "cross";
    CrossNeverEligible("my-cargo-cross", 9);
  }

  /** Eligibility depends only on the lower-cased command. */
  lemma SameLowerSameEligibility(a: string, b: string)
    requires Lower(a) == Lower(b)
    ensures InstallEligible(a) == InstallEligible(b)
  {
  }

  lemma LowerCargo(command: string)
    requires |command| == 5
    requires command[0] in "cC" && command[1] in "aA" && command[2] in "rR" && command[3] in "gG" && command[4] in "oO"
    ensures Lower(command) == "cargo"
  {
    assert Lower(command)[0] == 'c' && Lower(command)[1] == 'a' && Lower(command)[2] == 'r';
    assert Lower(command)[3] == 'g' && Lower(command)[4] == 'o';
  }

  /** Letter case does not matter: `cargo` is matched after lower-casing. */
  lemma UpperCargoEligible()
    ensures InstallEligible("CARGO") && InstallEligible("Cargo")
  {
    EligibilityExamples();
    LowerCargo("CARGO");
    LowerCargo("Cargo");
    LowerCargo("cargo");
    SameLowerSameEligibility("CARGO", "cargo");
    SameLowerSameEligibility("Cargo", "cargo");
  }

  /** Letter case does not matter: `cross` in capitals still rules a command out. */
  lemma UpperCrossIneligible()
    ensures !InstallEligible("cargo-CROSS")
  {
    assert "cargo-CROSS"[6..11] == "CROSS";
    CrossNeverEligible("cargo-CROSS", 6);
  }

  // ---------------------------------------------------------------------
  // The pass as a function of the configuration and the runner

  /** What the walk over the targets works with once the query has succeeded. */
  datatype Setup = Setup(ext: WrapperExtension, dir: string, installed: seq<string>, runner: Runner)

  /**
   * One turn of the `forEach` with `calls` processes already started: a
   * listed target is skipped; a missing one is announced, then fails on a
   * null command, is passed over when its command is not eligible, and is
   * otherwise added with rustup, whose non-zero exit fails the pass.
   */
  function VisitOne(t: TargetOptions, s: Setup, calls: nat): Trace {
    if t.target in s.installed then Trace([], calls, Done)
    else
      var msg := Message(InstallMessage(t.target));
      match t.command
      case None => Trace([msg], calls, Abort(MissingCommand(t.target)))
      case Some(cmd) =>
        if !InstallEligible(cmd) then Trace([msg], calls, Done)
        else
          var add := Exec(AddInvocation(s.ext, s.dir, t.target));
          var code := s.runner.exitCode(calls);
          Trace([msg, add], calls + 1, if code != 0 then Abort(InstallFailed(t.target, code)) else Done)
  }

  /** The `forEach` over `ts`: one turn per target until one fails. */
  function Visit(ts: seq<TargetOptions>, s: Setup, calls: nat): Trace
    decreases |ts|
  {
    if ts == [] then Trace([], calls, Done)
    else
      var first := VisitOne(ts[0], s, calls);
      if first.outcome != Done then first
      else Prepend(first.events, Visit(ts[1..], s, first.calls))
  }

  /** Visiting a non-empty list after `pre` happened: the first turn, then the rest. */
  lemma VisitCons(t: TargetOptions, rest: seq<TargetOptions>, s: Setup, calls: nat, pre: seq<Event>)
    ensures var first := VisitOne(t, s, calls);
      && (first.outcome == Done ==>
            Prepend(pre, Visit([t] + rest, s, calls)) == Prepend(pre + first.events, Visit(rest, s, first.calls)))
      && (first.outcome != Done ==>
            Prepend(pre, Visit([t] + rest, s, calls)) == Trace(pre + first.events, first.calls, first.outcome))
  {
    assert ([t] + rest)[0] == t && ([t] + rest)[1..] == rest;
    var first := VisitOne(t, s, calls);
    if first.outcome == Done {
      var tail := Visit(rest, s, first.calls);
      assert pre + (first.events + tail.events) == pre + first.events + tail.events;
    }
  }

  /** `installTargets`: the query (process 0), then the walk. */
  function InstallTrace(ext: WrapperExtension, runner: Runner): Trace {
    match ext.crate
    case None => Trace([], 0, Abort(MissingCrate))
    case Some(dir) =>
      var query := Exec(QueryInvocation(ext, dir));
      var code := runner.exitCode(0);
      if code != 0 then Trace([query], 1, Abort(QueryFailed(code)))
      else Prepend([query], Visit(ext.targets, Setup(ext, dir, ParseInstalled(runner.queryStdout), runner), 1))
  }

  /** `ensureTargetsInstalled`: the pass, when `cargoInstallTargets` is set to true. */
  function EnsureTrace(ext: WrapperExtension, runner: Runner): Trace {
    if InstallEnabled(ext) then InstallTrace(ext, runner) else Trace([], 0, Done)
  }

  // ---------------------------------------------------------------------
  // The pass as the plugin runs it

  method InstallTargets(ext: WrapperExtension, runner: Runner) returns (result: Trace)
    ensures result == InstallTrace(ext, runner)
  {
    if ext.crate.None? {
      return Trace([], 0, Abort(MissingCrate));
    }
    var dir := ext.crate.value;
    var events := [Exec(QueryInvocation(ext, dir))];
    var code := runner.exitCode(0);
    if code != 0 {
      return Trace(events, 1, Abort(QueryFailed(code)));
    }
    var installed := RemoveBlankLines(Split(runner.queryStdout, '\n'));
    ghost var s := Setup(ext, dir, installed, runner);
    ghost var total := InstallTrace(ext, runner);
    var calls := 1;
    var outcome := Done;
    var i := 0;
    while i < |ext.targets| && outcome == Done
      invariant 0 <= i <= |ext.targets|
      invariant outcome == Done ==> total == Prepend(events, Visit(ext.targets[i..], s, calls))
      invariant outcome != Done ==> total == Trace(events, calls, outcome)
    {
      var target := ext.targets[i];
      ghost var step := VisitOne(target, s, calls);
      ghost var before := events;
      ghost var rest := ext.targets[i + 1..];
      assert ext.targets[i..] == [target] + rest;
      VisitCons(target, rest, s, calls, events);
      if target.target !in installed {
        events := events + [Message(InstallMessage(target.target))];
        match target.command {
          case None =>
            outcome := Abort(MissingCommand(target.target));
          case Some(cmd) =>
            if InstallEligible(cmd) {
              events := events + [Exec(AddInvocation(ext, dir, target.target))];
              var exit := runner.exitCode(calls);
              calls := calls + 1;
              if exit != 0 {
                outcome := Abort(InstallFailed(target.target, exit));
              }
            }
        }
      }
      assert events == before + step.events && calls == step.calls && outcome == step.outcome;
      i := i + 1;
    }
    result := Trace(events, calls, outcome);
  }

  method EnsureTargetsInstalled(ext: WrapperExtension, runner: Runner) returns (result: Trace)
    ensures result == EnsureTrace(ext, runner)
  {
    if InstallEnabled(ext) {
      result := InstallTargets(ext, runner);
    } else {
      result := Trace([], 0, Done);
    }
  }

  // ---------------------------------------------------------------------
  // Reference views of the walk

  /** The triples of the targets not reported installed, in declaration order. */
  function MissingTriples(ts: seq<TargetOptions>, installed: seq<string>): seq<string>
    decreases |ts|
  {
    if ts == [] then []
    else (if ts[0].target in installed then [] else [ts[0].target]) + MissingTriples(ts[1..], installed)
  }

  /** A missing target whose command is present and eligible. */
  predicate Installable(t: TargetOptions, installed: seq<string>) {
    t.target !in installed && t.command.Some? && InstallEligible(t.command.value)
  }

  /** The triples of the installable targets, in declaration order. */
  function InstallableTriples(ts: seq<TargetOptions>, installed: seq<string>): seq<string>
    decreases |ts|
  {
    if ts == [] then []
    else (if Installable(ts[0], installed) then [ts[0].target] else []) + InstallableTriples(ts[1..], installed)
  }

  function InstallMessages(triples: seq<string>): seq<string> {
    seq(|triples|, k requires 0 <= k < |triples| => InstallMessage(triples[k]))
  }

  function AddInvocations(ext: WrapperExtension, dir: string, triples: seq<string>): seq<Invocation> {
    seq(|triples|, k requires 0 <= k < |triples| => AddInvocation(ext, dir, triples[k]))
  }

  // ---------------------------------------------------------------------
  // Properties of the walk

  /** What one turn prints and starts. */
  lemma VisitOneEvents(t: TargetOptions, s: Setup, calls: nat)
    ensures var r := VisitOne(t, s, calls);
      && Execs(r.events) == (if Installable(t, s.installed) then [AddInvocation(s.ext, s.dir, t.target)] else [])
      && Messages(r.events) == (if t.target in s.installed then [] else [InstallMessage(t.target)])
      && r.calls == calls + |Execs(r.events)|
      && (r.outcome == Done ==> t.target in s.installed || t.command.Some?)
  {
    var msg := Message(InstallMessage(t.target));
    var add := Exec(AddInvocation(s.ext, s.dir, t.target));
    assert [msg][1..] == [] && [msg, add][1..] == [add] && [add][1..] == [];
    assert Execs([msg]) == [] && Execs([msg, add]) == [add.invocation];
    assert Messages([msg]) == [msg.text] && Messages([msg, add]) == [msg.text];
  }

  /** A walk whose first turn completes: that turn's events, then the rest of the walk's. */
  lemma VisitSplit(ts: seq<TargetOptions>, s: Setup, calls: nat)
    requires ts != [] && VisitOne(ts[0], s, calls).outcome == Done
    ensures var first := VisitOne(ts[0], s, calls);
      var tail := Visit(ts[1..], s, first.calls);
      && Visit(ts, s, calls) == Prepend(first.events, tail)
      && Execs(Visit(ts, s, calls).events) == Execs(first.events) + Execs(tail.events)
      && Messages(Visit(ts, s, calls).events) == Messages(first.events) + Messages(tail.events)
  {
    var first := VisitOne(ts[0], s, calls);
    ExecsAppend(first.events, Visit(ts[1..], s, first.calls).events);
  }

  /** Processes are numbered in the order they start: the walk starts exactly its invocations. */
  lemma {:induction false} VisitCalls(ts: seq<TargetOptions>, s: Setup, calls: nat)
    ensures Visit(ts, s, calls).calls == calls + |Execs(Visit(ts, s, calls).events)|
    decreases |ts|
  {
    if ts != [] {
      var first := VisitOne(ts[0], s, calls);
      VisitOneEvents(ts[0], s, calls);
      if first.outcome == Done {
        VisitSplit(ts, s, calls);
        VisitCalls(ts[1..], s, first.calls);
      }
    }
  }

  /**
   * Every `target add` in `events` comes right after the message that
   * announces its triple.
   */
  predicate AddsAnnounced(events: seq<Event>) {
    forall i :: 0 <= i < |events| && events[i].Exec? ==>
      && 0 < i
      && |events[i].invocation.args| == 3
      && events[i - 1] == Message(InstallMessage(events[i].invocation.args[2]))
  }

  lemma AddsAnnouncedAppend(a: seq<Event>, b: seq<Event>)
    requires AddsAnnounced(a) && AddsAnnounced(b)
    ensures AddsAnnounced(a + b)
  {
    forall i | 0 <= i < |a + b| && (a + b)[i].Exec?
      ensures 0 < i && |(a + b)[i].invocation.args| == 3
      ensures (a + b)[i - 1] == Message(InstallMessage((a + b)[i].invocation.args[2]))
    {
      if i < |a| {
        assert (a + b)[i] == a[i] && (a + b)[i - 1] == a[i - 1];
      } else {
        assert (a + b)[i] == b[i - |a|];
        assert (a + b)[i - 1] == b[i - |a| - 1];
      }
    }
  }

  /** In every walk, complete or not, each target is announced before it is added. */
  lemma {:induction false} VisitAnnouncesAdds(ts: seq<TargetOptions>, s: Setup, calls: nat)
    ensures AddsAnnounced(Visit(ts, s, calls).events)
    decreases |ts|
  {
    if ts != [] {
      var t := ts[0];
      var first := VisitOne(t, s, calls);
      assert AddsAnnounced(first.events) by {
        var msg := Message(InstallMessage(t.target));
        var add := Exec(AddInvocation(s.ext, s.dir, t.target));
        assert first.events == [] || first.events == [msg] || first.events == [msg, add];
        assert add.invocation.args[2] == t.target;
      }
      if first.outcome == Done {
        VisitSplit(ts, s, calls);
        VisitAnnouncesAdds(ts[1..], s, first.calls);
        AddsAnnouncedAppend(first.events, Visit(ts[1..], s, first.calls).events);
      }
    }
  }

  /** Every turn that adds a target also announces it, so installs never outnumber messages. */
  lemma {:induction false} InstallsNeverExceedMessages(ts: seq<TargetOptions>, s: Setup, calls: nat)
    ensures |Execs(Visit(ts, s, calls).events)| <= |Messages(Visit(ts, s, calls).events)|
    decreases |ts|
  {
    if ts != [] {
      var first := VisitOne(ts[0], s, calls);
      VisitOneEvents(ts[0], s, calls);
      if first.outcome == Done {
        VisitSplit(ts, s, calls);
        InstallsNeverExceedMessages(ts[1..], s, first.calls);
      }
    }
  }

  /** A completed walk prints one message per missing target, in declaration order. */
  lemma {:induction false} VisitDoneMessages(ts: seq<TargetOptions>, s: Setup, calls: nat)
    requires Visit(ts, s, calls).outcome == Done
    ensures Messages(Visit(ts, s, calls).events) == InstallMessages(MissingTriples(ts, s.installed))
    decreases |ts|
  {
    if ts != [] {
      var t := ts[0];
      var first := VisitOne(t, s, calls);
      assert first.outcome == Done;
      VisitOneEvents(t, s, calls);
      VisitSplit(ts, s, calls);
      VisitDoneMessages(ts[1..], s, first.calls);
      var missing := MissingTriples(ts[1..], s.installed);
      var rest := InstallMessages(missing);
      assert Messages(Visit(ts, s, calls).events) == Messages(first.events) + rest;
      if t.target !in s.installed {
        assert MissingTriples(ts, s.installed) == [t.target] + missing;
        InstallMessagesCons(t.target, missing);
      } else {
        assert MissingTriples(ts, s.installed) == missing;
        assert Messages(first.events) + rest == rest;
      }
    }
  }

  lemma InstallMessagesCons(triple: string, rest: seq<string>)
    ensures InstallMessages([triple] + rest) == [InstallMessage(triple)] + InstallMessages(rest)
  {
  }

  /**
   * A completed walk issues `rustup target add <triple>` once per
   * installable target, in declaration order, and nothing else.
   */
  lemma {:induction false} VisitDoneAdds(ts: seq<TargetOptions>, s: Setup, calls: nat)
    requires Visit(ts, s, calls).outcome == Done
    ensures Execs(Visit(ts, s, calls).events) == AddInvocations(s.ext, s.dir, InstallableTriples(ts, s.installed))
    decreases |ts|
  {
    if ts != [] {
      var t := ts[0];
      var first := VisitOne(t, s, calls);
      assert first.outcome == Done;
      VisitOneEvents(t, s, calls);
      VisitSplit(ts, s, calls);
      VisitDoneAdds(ts[1..], s, first.calls);
      var adds := InstallableTriples(ts[1..], s.installed);
      if Installable(t, s.installed) {
        AddInvocationsCons(s.ext, s.dir, t.target, adds);
      } else {
        assert [] + adds == adds;
      }
    }
  }

  lemma AddInvocationsCons(ext: WrapperExtension, dir: string, triple: string, rest: seq<string>)
    ensures AddInvocations(ext, dir, [triple] + rest)
         == [AddInvocation(ext, dir, triple)] + AddInvocations(ext, dir, rest)
  {
  }

  /**
   * A walk that fails stops at some target k: the targets before it were
   * walked without failure, target k's turn failed, and nothing after it
   * was looked at.
   */
  ghost predicate StopsAt(ts: seq<TargetOptions>, s: Setup, calls: nat, k: nat)
    requires k < |ts|
  {
    var before := Visit(ts[..k], s, calls);
    var last := VisitOne(ts[k], s, before.calls);
    && before.outcome == Done
    && last.outcome != Done
    && Visit(ts, s, calls) == Prepend(before.events, last)
  }

  /** Visiting the first j + 1 targets: the first turn, then the next j targets. */
  lemma VisitPrefixCons(ts: seq<TargetOptions>, s: Setup, calls: nat, j: nat)
    requires j < |ts| && VisitOne(ts[0], s, calls).outcome == Done
    ensures var first := VisitOne(ts[0], s, calls);
      Visit(ts[..j + 1], s, calls) == Prepend(first.events, Visit(ts[1..][..j], s, first.calls))
  {
    assert ts[..j + 1][0] == ts[0] && ts[..j + 1][1..] == ts[1..][..j];
  }

  /** A failure k turns into the rest of the walk is a failure k + 1 turns into the whole. */
  lemma StopsAtCons(ts: seq<TargetOptions>, s: Setup, calls: nat, j: nat)
    requires ts != [] && VisitOne(ts[0], s, calls).outcome == Done
    requires j < |ts| - 1 && StopsAt(ts[1..], s, VisitOne(ts[0], s, calls).calls, j)
    ensures StopsAt(ts, s, calls, j + 1)
  {
    var first := VisitOne(ts[0], s, calls);
    var before' := Visit(ts[1..][..j], s, first.calls);
    var last := VisitOne(ts[1..][j], s, before'.calls);
    VisitPrefixCons(ts, s, calls, j);
    VisitSplit(ts, s, calls);
    var before := Visit(ts[..j + 1], s, calls);
    assert before == Prepend(first.events, before');
    assert ts[j + 1] == ts[1..][j];
    assert VisitOne(ts[j + 1], s, before.calls) == last;
    calc {
      Visit(ts, s, calls);
    ==
      Prepend(first.events, Prepend(before'.events, last));
    ==  { assert first.events + (before'.events + last.events) == (first.events + before'.events) + last.events; }
      Prepend(before.events, last);
    }
  }

  lemma {:induction false} VisitAbort(ts: seq<TargetOptions>, s: Setup, calls: nat)
    requires Visit(ts, s, calls).outcome != Done
    ensures exists k: nat :: k < |ts| && StopsAt(ts, s, calls, k)
    decreases |ts|
  {
    var first := VisitOne(ts[0], s, calls);
    if first.outcome != Done {
      assert ts[..0] == [];
      assert Prepend([], first) == first;
      assert StopsAt(ts, s, calls, 0);
    } else {
      VisitAbort(ts[1..], s, first.calls);
      var j: nat :| j < |ts[1..]| && StopsAt(ts[1..], s, first.calls, j);
      StopsAtCons(ts, s, calls, j);
    }
  }

  /**
   * How one turn ends: it fails exactly when its target is missing and
   * either has a null command or is installable and `target add` exits
   * non-zero, and the error names the target and that exit code.
   */
  lemma VisitOneOutcome(t: TargetOptions, s: Setup, calls: nat)
    ensures VisitOne(t, s, calls).outcome != Done
        <==> t.target !in s.installed
             && (t.command.None? || (Installable(t, s.installed) && s.runner.exitCode(calls) != 0))
    ensures t.target !in s.installed && t.command.None? ==>
      VisitOne(t, s, calls).outcome == Abort(MissingCommand(t.target))
    ensures Installable(t, s.installed) && s.runner.exitCode(calls) != 0 ==>
      VisitOne(t, s, calls).outcome == Abort(InstallFailed(t.target, s.runner.exitCode(calls)))
  {
  }

  /**
   * Fail-fast: when the targets before k complete and target k's turn
   * fails, the walk stops there, with target k's error.
   */
  lemma {:induction false} VisitFailsAt(ts: seq<TargetOptions>, s: Setup, calls: nat, k: nat)
    requires k < |ts| && Visit(ts[..k], s, calls).outcome == Done
    requires VisitOne(ts[k], s, Visit(ts[..k], s, calls).calls).outcome != Done
    ensures StopsAt(ts, s, calls, k)
    ensures Visit(ts, s, calls).outcome == VisitOne(ts[k], s, Visit(ts[..k], s, calls).calls).outcome
    decreases k
  {
    if k == 0 {
      assert ts[..0] == [];
      assert Prepend([], VisitOne(ts[0], s, calls)) == VisitOne(ts[0], s, calls);
    } else {
      var first := VisitOne(ts[0], s, calls);
      assert ts[..k][0] == ts[0];
      assert first.outcome == Done;
      VisitPrefixCons(ts, s, calls, k - 1);
      assert ts[1..][k - 1] == ts[k];
      VisitFailsAt(ts[1..], s, first.calls, k - 1);
      StopsAtCons(ts, s, calls, k - 1);
    }
  }


  /** Targets that rustup already reports produce no message and no process. */
  lemma {:induction false} VisitAllListed(ts: seq<TargetOptions>, s: Setup, calls: nat)
    requires forall k :: 0 <= k < |ts| ==> ts[k].target in s.installed
    ensures Visit(ts, s, calls) == Trace([], calls, Done)
    decreases |ts|
  {
    if ts != [] {
      VisitAllListed(ts[1..], s, calls);
    }
  }

  /**
   * Every process the walk starts is `rustup target add` for the triple of
   * some declared target that is missing and whose command is eligible.
   */
  lemma {:induction false} VisitAddsOnlyInstallable(ts: seq<TargetOptions>, s: Setup, calls: nat)
    ensures forall inv :: inv in Execs(Visit(ts, s, calls).events) ==>
      exists k :: 0 <= k < |ts| && Installable(ts[k], s.installed) && inv == AddInvocation(s.ext, s.dir, ts[k].target)
    decreases |ts|
  {
    if ts != [] {
      var first := VisitOne(ts[0], s, calls);
      VisitOneEvents(ts[0], s, calls);
      if first.outcome == Done {
        var tail := Visit(ts[1..], s, first.calls);
        VisitSplit(ts, s, calls);
        VisitAddsOnlyInstallable(ts[1..], s, first.calls);
        forall inv | inv in Execs(tail.events)
          ensures exists k :: 0 <= k < |ts| && Installable(ts[k], s.installed) && inv == AddInvocation(s.ext, s.dir, ts[k].target)
        {
          var k :| 0 <= k < |ts[1..]| && Installable(ts[1..][k], s.installed)
                   && inv == AddInvocation(s.ext, s.dir, ts[1..][k].target);
          assert ts[k + 1] == ts[1..][k];
        }
      }
    }
  }

  /** A completed walk saw a command for every missing target. */
  lemma {:induction false} VisitDoneHasCommands(ts: seq<TargetOptions>, s: Setup, calls: nat)
    requires Visit(ts, s, calls).outcome == Done
    ensures forall k :: 0 <= k < |ts| && ts[k].target !in s.installed ==> ts[k].command.Some?
    decreases |ts|
  {
    if ts != [] {
      var first := VisitOne(ts[0], s, calls);
      VisitDoneHasCommands(ts[1..], s, first.calls);
      forall k | 1 <= k < |ts| ensures ts[k] == ts[1..][k - 1] { }
    }
  }

  /** A walk in which no missing target is installable starts no process and completes. */
  lemma {:induction false} VisitNothingInstallable(ts: seq<TargetOptions>, s: Setup, calls: nat)
    requires forall k :: 0 <= k < |ts| ==>
      ts[k].target in s.installed || (ts[k].command.Some? && !InstallEligible(ts[k].command.value))
    ensures Visit(ts, s, calls).outcome == Done
    ensures Execs(Visit(ts, s, calls).events) == []
    decreases |ts|
  {
    if ts != [] {
      VisitOneEvents(ts[0], s, calls);
      VisitSplit(ts, s, calls);
      VisitNothingInstallable(ts[1..], s, calls);
    }
  }

  lemma {:induction false} InstallableListed(ts: seq<TargetOptions>, installed: seq<string>, k: nat)
    requires k < |ts| && Installable(ts[k], installed)
    ensures ts[k].target in InstallableTriples(ts, installed)
    decreases |ts|
  {
    if k > 0 {
      InstallableListed(ts[1..], installed, k - 1);
    }
  }

  // ---------------------------------------------------------------------
  // Properties of the whole pass

  /**
   * With `cargoInstallTargets` unset or false no process is started and
   * nothing is printed; with it true, an unset crate fails before any
   * process, and a failing query is the only process of the pass.
   */
  lemma PassGates(ext: WrapperExtension, runner: Runner)
    ensures !InstallEnabled(ext) ==> EnsureTrace(ext, runner) == Trace([], 0, Done)
    ensures InstallEnabled(ext) && ext.crate.None? ==> EnsureTrace(ext, runner) == Trace([], 0, Abort(MissingCrate))
    ensures InstallEnabled(ext) && ext.crate.Some? && runner.exitCode(0) != 0 ==>
      EnsureTrace(ext, runner)
        == Trace([Exec(QueryInvocation(ext, ext.crate.value))], 1, Abort(QueryFailed(runner.exitCode(0))))
  {
  }

  /** The pass's processes are numbered 0, 1, ... in order, so the next one is number `calls`. */
  lemma PassCalls(ext: WrapperExtension, runner: Runner)
    ensures EnsureTrace(ext, runner).calls == |Execs(EnsureTrace(ext, runner).events)|
  {
    if InstallEnabled(ext) && ext.crate.Some? && runner.exitCode(0) == 0 {
      var dir := ext.crate.value;
      var s := Setup(ext, dir, ParseInstalled(runner.queryStdout), runner);
      var walk := Visit(ext.targets, s, 1);
      VisitCalls(ext.targets, s, 1);
      ExecsAppend([Exec(QueryInvocation(ext, dir))], walk.events);
    }
  }

  /** When every declared target is reported installed, the query is the only process. */
  lemma PassAllInstalled(ext: WrapperExtension, runner: Runner)
    requires InstallEnabled(ext) && ext.crate.Some? && runner.exitCode(0) == 0
    requires forall k :: 0 <= k < |ext.targets| ==> ext.targets[k].target in ParseInstalled(runner.queryStdout)
    ensures EnsureTrace(ext, runner) == Trace([Exec(QueryInvocation(ext, ext.crate.value))], 1, Done)
  {
    var s := Setup(ext, ext.crate.value, ParseInstalled(runner.queryStdout), runner);
    VisitAllListed(ext.targets, s, 1);
  }

  /**
   * A non-zero `target add` exit ends the pass: when the targets before k
   * complete and target k is installable, a failing install of k is the
   * last thing the pass does, and the pass fails naming k and the exit code.
   */
  lemma PassInstallFails(ext: WrapperExtension, runner: Runner, k: nat)
    requires InstallEnabled(ext) && ext.crate.Some? && runner.exitCode(0) == 0
    requires k < |ext.targets|
    requires var s := Setup(ext, ext.crate.value, ParseInstalled(runner.queryStdout), runner);
      && Visit(ext.targets[..k], s, 1).outcome == Done
      && Installable(ext.targets[k], s.installed)
      && runner.exitCode(Visit(ext.targets[..k], s, 1).calls) != 0
    ensures var s := Setup(ext, ext.crate.value, ParseInstalled(runner.queryStdout), runner);
      var before := Visit(ext.targets[..k], s, 1);
      var triple := ext.targets[k].target;
      var pass := EnsureTrace(ext, runner);
      && pass.outcome == Abort(InstallFailed(triple, runner.exitCode(before.calls)))
      && pass.events == [Exec(QueryInvocation(ext, ext.crate.value))] + before.events
                        + [Message(InstallMessage(triple)), Exec(AddInvocation(ext, ext.crate.value, triple))]
      && pass.calls == before.calls + 1
  {
    var s := Setup(ext, ext.crate.value, ParseInstalled(runner.queryStdout), runner);
    var before := Visit(ext.targets[..k], s, 1);
    VisitOneOutcome(ext.targets[k], s, before.calls);
    VisitFailsAt(ext.targets, s, 1, k);
  }

  /**
   * The pass starts with the query, and every later `target add` comes
   * right after the message announcing its triple.
   */
  lemma PassAnnouncesAdds(ext: WrapperExtension, runner: Runner)
    ensures var events := EnsureTrace(ext, runner).events;
      events != [] ==>
        && ext.crate.Some?
        && events[0] == Exec(QueryInvocation(ext, ext.crate.value))
        && AddsAnnounced(events[1..])
  {
    if InstallEnabled(ext) && ext.crate.Some? && runner.exitCode(0) == 0 {
      var s := Setup(ext, ext.crate.value, ParseInstalled(runner.queryStdout), runner);
      var walk := Visit(ext.targets, s, 1);
      VisitAnnouncesAdds(ext.targets, s, 1);
      assert ([Exec(QueryInvocation(ext, ext.crate.value))] + walk.events)[1..] == walk.events;
    }
  }

  /**
   * A pass that completes starts the query and then one `target add` per
   * installable target in declaration order, and prints one message per
   * missing target, eligible or not.
   */
  lemma PassDone(ext: WrapperExtension, runner: Runner)
    requires InstallEnabled(ext) && EnsureTrace(ext, runner).outcome == Done
    ensures ext.crate.Some?
    ensures var installed := ParseInstalled(runner.queryStdout);
      && Execs(EnsureTrace(ext, runner).events)
           == [QueryInvocation(ext, ext.crate.value)]
              + AddInvocations(ext, ext.crate.value, InstallableTriples(ext.targets, installed))
      && Messages(EnsureTrace(ext, runner).events) == InstallMessages(MissingTriples(ext.targets, installed))
  {
    var dir := ext.crate.value;
    var s := Setup(ext, dir, ParseInstalled(runner.queryStdout), runner);
    var query := Exec(QueryInvocation(ext, dir));
    var walk := Visit(ext.targets, s, 1);
    VisitDoneMessages(ext.targets, s, 1);
    VisitDoneAdds(ext.targets, s, 1);
    ExecsAppend([query], walk.events);
    assert Execs([query]) == [query.invocation] && Messages([query]) == [] by {
      assert [query][1..] == [];
    }
  }

  /**
   * Every process of the pass runs the rustup command in the crate
   * directory with the extension's environment: the query first, then
   * only `target add` for installable targets.
   */
  lemma PassRunsOnlyRustup(ext: WrapperExtension, runner: Runner)
    ensures forall inv :: inv in Execs(EnsureTrace(ext, runner).events) ==>
      && ext.crate.Some?
      && inv.executable == ext.rustupCommand && inv.workingDir == ext.crate.value && inv.env == ext.env
      && (inv.args == QueryArgs
          || exists k :: 0 <= k < |ext.targets| && inv.args == AddArgs(ext.targets[k].target)
                         && Installable(ext.targets[k], ParseInstalled(runner.queryStdout)))
  {
    if InstallEnabled(ext) && ext.crate.Some? {
      var dir := ext.crate.value;
      var s := Setup(ext, dir, ParseInstalled(runner.queryStdout), runner);
      var query := Exec(QueryInvocation(ext, dir));
      assert Execs([query]) == [query.invocation] by {
        assert [query][1..] == [];
      }
      if runner.exitCode(0) == 0 {
        VisitAddsOnlyInstallable(ext.targets, s, 1);
        ExecsAppend([query], Visit(ext.targets, s, 1).events);
      }
    }
  }

  /**
   * A target built with a command that names `cross`, in any case, never
   * gets a `target add`, even when rustup does not report it.
   */
  lemma CrossTargetsNeverAdded(ext: WrapperExtension, runner: Runner, triple: string)
    requires forall k :: 0 <= k < |ext.targets| && ext.targets[k].target == triple ==>
      ext.targets[k].command.Some? && Mentions(ext.targets[k].command.value, "cross")
    ensures forall inv :: inv in Execs(EnsureTrace(ext, runner).events) ==> inv.args != AddArgs(triple)
  {
    PassRunsOnlyRustup(ext, runner);
    assert QueryArgs[1] != AddArgs(triple)[1];
    forall k | 0 <= k < |ext.targets| && ext.targets[k].target == triple
      ensures !Installable(ext.targets[k], ParseInstalled(runner.queryStdout))
    {
      EligibleIff(ext.targets[k].command.value);
    }
    forall k | 0 <= k < |ext.targets| && AddArgs(ext.targets[k].target) == AddArgs(triple)
      ensures ext.targets[k].target == triple
    {
      assert AddArgs(ext.targets[k].target)[2] == AddArgs(triple)[2];
    }
  }

  /**
   * Running the pass again after it completed, with rustup now reporting
   * what it reported before plus what the first pass added, adds nothing:
   * the query is the only process of the second pass.
   */
  lemma SecondPassAddsNothing(ext: WrapperExtension, first: Runner, second: Runner)
    requires InstallEnabled(ext) && EnsureTrace(ext, first).outcome == Done
    requires second.exitCode(0) == 0
    requires forall x :: x in ParseInstalled(first.queryStdout) ==> x in ParseInstalled(second.queryStdout)
    requires forall x :: x in InstallableTriples(ext.targets, ParseInstalled(first.queryStdout)) ==>
      x in ParseInstalled(second.queryStdout)
    ensures EnsureTrace(ext, second).outcome == Done
    ensures ext.crate.Some? && Execs(EnsureTrace(ext, second).events) == [QueryInvocation(ext, ext.crate.value)]
  {
    var dir := ext.crate.value;
    var installed1 := ParseInstalled(first.queryStdout);
    var installed2 := ParseInstalled(second.queryStdout);
    var s1 := Setup(ext, dir, installed1, first);
    var s2 := Setup(ext, dir, installed2, second);
    var ts := ext.targets;
    VisitDoneHasCommands(ts, s1, 1);
    forall k | 0 <= k < |ts|
      ensures ts[k].target in installed2 || (ts[k].command.Some? && !InstallEligible(ts[k].command.value))
    {
      if ts[k].target !in installed2 && Installable(ts[k], installed1) {
        InstallableListed(ts, installed1, k);
      }
    }
    VisitNothingInstallable(ts, s2, 1);
    var query := Exec(QueryInvocation(ext, dir));
    ExecsAppend([query], Visit(ts, s2, 1).events);
    assert Execs([query]) == [query.invocation] by {
      assert [query][1..] == [];
    }
  }
}

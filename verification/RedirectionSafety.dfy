/** What the log of every run satisfies, whatever the commands and the file system do. */
module RedirectionSafety {
  import opened Prelude
  import opened ScriptIr
  import opened OutputLimit
  import opened ScriptRunner
  import EnginePath
  import ScriptParser

  // ---------------------------------------------------------------- reading a log

  /** The writes after the last command that ran. */
  ghost function WritesSince<W>(log: seq<Event<W>>): seq<Event<W>>
  {
    if log == [] || log[|log| - 1].Ran? then []
    else WritesSince(log[..|log| - 1]) + [log[|log| - 1]]
  }

  /** The record of that command. */
  ghost function LastRun<W>(log: seq<Event<W>>): (r: Option<Event<W>>)
    ensures r.Some? ==> r.value.Ran?
  {
    if log == [] then None
    else if log[|log| - 1].Ran? then Some(log[|log| - 1])
    else LastRun(log[..|log| - 1])
  }

  ghost predicate LastRunIs<W>(log: seq<Event<W>>, c: Command, code: int, stdout: string)
  {
    LastRun(log).Some? && var e := LastRun(log).value; e.command == c && e.code == code && e.stdout == stdout
  }

  /** A write a command's redirections ask for: write or append, where to, and what. */
  datatype Planned = Planned(append: bool, target: string, payload: string)

  function PayloadFor(outs: seq<Redirect>, output: string): string
  {
    if |outs| == 1 then output else ""
  }

  function PlannedFirst(outs: seq<Redirect>, output: string): Planned
    requires outs != []
  {
    Planned(outs[0].kind.OutputAppend?, outs[0].target, PayloadFor(outs, output))
  }

  /** The writes that `outs` ask for: none for the null device, nothing but the last payload. */
  function Plan(outs: seq<Redirect>, output: string): seq<Planned>
  {
    if outs == [] then []
    else
      (if EnginePath.IsNullDevice(outs[0].target) then [] else [PlannedFirst(outs, output)]) + Plan(outs[1..], output)
  }

  /** The event is the planned write: its kind, its payload, and the path that the target denoted
      in the world it was performed in. */
  ghost predicate Fulfils<W>(ops: Ops<W>, e: Event<W>, p: Planned)
  {
    && !e.Ran? && (e.Appended? <==> p.append) && e.payload == p.payload
    && ops.resolve(e.world, p.target) == Ok(e.path)
  }

  ghost predicate FulfilsAll<W>(ops: Ops<W>, done: seq<Event<W>>, plan: seq<Planned>)
  {
    |done| == |plan| && forall k :: 0 <= k < |done| ==> Fulfils(ops, done[k], plan[k])
  }

  lemma {:induction false} OneMoreFulfilled<W>(ops: Ops<W>, done: seq<Event<W>>, plan: seq<Planned>, e: Event<W>)
    requires |done| < |plan| && FulfilsAll(ops, done, plan[..|done|]) && Fulfils(ops, e, plan[|done|])
    ensures FulfilsAll(ops, done + [e], plan[..|done| + 1])
  {
    assert forall k :: 0 <= k < |done| ==> plan[..|done|][k] == plan[k];
  }

  /** What an event may be, given the log before it. A command carrying an output redirection
      runs only if the policy allows writing. A write happens only after a command that exited
      with 0, is the next one that command's redirections ask for, and respects the cap. */
  ghost predicate Permitted<W>(ops: Ops<W>, before: seq<Event<W>>, e: Event<W>)
  {
    if e.Ran? then AllowsWrite(ops.policy) || Outputs(e.command.redirs) == []
    else
      && AllowsWrite(ops.policy)
      && (Capped(ops.policy) ==> |e.payload| <= ops.policy.maxWriteBytes)
      && LastRun(before).Some?
      && var owner, done := LastRun(before).value, WritesSince(before);
         var plan := Plan(Outputs(owner.command.redirs), owner.stdout);
         && owner.code == 0 && |done| < |plan|
         && FulfilsAll(ops, done, plan[..|done|]) && Fulfils(ops, e, plan[|done|])
  }

  ghost predicate Safe<W>(ops: Ops<W>, log: seq<Event<W>>)
  {
    log == [] || (Safe(ops, log[..|log| - 1]) && Permitted(ops, log[..|log| - 1], log[|log| - 1]))
  }

  lemma {:induction false} SafeAppend<W>(ops: Ops<W>, log: seq<Event<W>>, e: Event<W>)
    requires Safe(ops, log) && Permitted(ops, log, e)
    ensures Safe(ops, log + [e])
  {
    assert (log + [e])[..|log|] == log;
  }

  lemma {:induction false} AfterRun<W>(log: seq<Event<W>>, e: Event<W>)
    requires e.Ran?
    ensures LastRun(log + [e]) == Some(e) && WritesSince(log + [e]) == []
  {
  }

  lemma {:induction false} AfterWrite<W>(log: seq<Event<W>>, e: Event<W>)
    requires !e.Ran?
    ensures LastRun(log + [e]) == LastRun(log) && WritesSince(log + [e]) == WritesSince(log) + [e]
  {
    assert (log + [e])[..|log|] == log;
  }

  // ---------------------------------------------------------------- one command

  /** The log stands right after `c`'s run, its first planned writes performed, `outs` left. */
  ghost predicate Midway<W>(ops: Ops<W>, log: seq<Event<W>>, c: Command, output: string, outs: seq<Redirect>)
  {
    && Safe(ops, log)
    && LastRunIs(log, c, 0, output)
    && (forall o :: o in outs ==> IsOutput(o))
    && var plan, n := Plan(Outputs(c.redirs), output), |WritesSince(log)|;
       n <= |plan| && FulfilsAll(ops, WritesSince(log), plan[..n]) && plan[n..] == Plan(outs, output)
  }

  /** The payload limit has been checked, or nothing is capped. */
  predicate Fits(policy: Policy, outs: seq<Redirect>, output: string)
  {
    Capped(policy) && outs != [] && !EnginePath.IsNullDevice(outs[|outs| - 1].target) ==>
      |output| <= policy.maxWriteBytes
  }

  lemma {:induction false} NextWritePermitted<W>(ops: Ops<W>, log: seq<Event<W>>, c: Command, output: string,
                                                 outs: seq<Redirect>, e: Event<W>)
    requires Midway(ops, log, c, output, outs) && AllowsWrite(ops.policy) && Fits(ops.policy, outs, output)
    requires outs != [] && !EnginePath.IsNullDevice(outs[0].target)
    requires Fulfils(ops, e, PlannedFirst(outs, output))
    ensures Midway(ops, log + [e], c, output, outs[1..])
  {
    var plan, done := Plan(Outputs(c.redirs), output), WritesSince(log);
    var n := |done|;
    assert Plan(outs, output) == [PlannedFirst(outs, output)] + Plan(outs[1..], output);
    assert plan[n] == plan[n..][0] && plan[n + 1..] == plan[n..][1..];
    OneMoreFulfilled(ops, done, plan, e);
    SafeAppend(ops, log, e);
    AfterWrite(log, e);
  }

  /** One write, or none when appending is unavailable. */
  lemma {:induction false} WriteSafe<W>(ops: Ops<W>, st: State<W>, c: Command, outs: seq<Redirect>, output: string,
                                        path: string)
    requires c.args != [] && Midway(ops, st.log, c, output, outs)
    requires outs != [] && AllowsWrite(ops.policy) && Fits(ops.policy, outs, output)
    requires !EnginePath.IsNullDevice(outs[0].target) && ops.resolve(st.world, outs[0].target) == Ok(path)
    ensures var w := Write(ops, st, c.args[0], outs[0].kind, path, PayloadFor(outs, output));
            Safe(ops, w.0.log) && (w.1.None? ==> Midway(ops, w.0.log, c, output, outs[1..]))
  {
    var payload := PayloadFor(outs, output);
    assert IsOutput(outs[0]);
    var append := outs[0].kind.OutputAppend?;
    if !(append && ops.append.None?) {
      var e := if append then Appended(st.world, path, payload) else Wrote(st.world, path, payload);
      assert Write(ops, st, c.args[0], outs[0].kind, path, payload).0.log == st.log + [e];
      NextWritePermitted(ops, st.log, c, output, outs, e);
    }
  }

  lemma {:induction false} ApplyStep<W>(ops: Ops<W>, st: State<W>, name: string, outs: seq<Redirect>, output: string)
    requires outs != [] && !EnginePath.IsNullDevice(outs[0].target)
    ensures var path := ops.resolve(st.world, outs[0].target);
            if path.Err? then
              var a := ApplyFrom(ops, st, name, outs, output); a.0 == st && a.1.Some?
            else
              var w := Write(ops, st, name, outs[0].kind, path.value, PayloadFor(outs, output));
              ApplyFrom(ops, st, name, outs, output) ==
                if w.1.Some? then w else ApplyFrom(ops, w.0, name, outs[1..], output)
  {
  }

  lemma {:induction false} WritesSafe<W>(ops: Ops<W>, st: State<W>, c: Command, outs: seq<Redirect>, output: string)
    requires c.args != [] && Midway(ops, st.log, c, output, outs)
    requires (outs != [] ==> AllowsWrite(ops.policy)) && Fits(ops.policy, outs, output)
    ensures var a := ApplyFrom(ops, st, c.args[0], outs, output);
            Safe(ops, a.0.log) && (a.1.None? ==> Midway(ops, a.0.log, c, output, []))
    decreases |outs|
  {
    if outs != [] {
      if EnginePath.IsNullDevice(outs[0].target) {
        assert Plan(outs, output) == Plan(outs[1..], output);
        WritesSafe(ops, st, c, outs[1..], output);
      } else {
        ApplyStep(ops, st, c.args[0], outs, output);
        var path := ops.resolve(st.world, outs[0].target);
        if path.Ok? {
          WriteSafe(ops, st, c, outs, output, path.value);
          var w := Write(ops, st, c.args[0], outs[0].kind, path.value, PayloadFor(outs, output));
          if w.1.None? {
            WritesSafe(ops, w.0, c, outs[1..], output);
          }
        }
      }
    }
  }

  lemma {:induction false} PreflightGuards<W>(ops: Ops<W>, w: W, name: string, redirs: seq<Redirect>)
    requires Preflight(ops, w, name, redirs).None?
    ensures AllowsWrite(ops.policy) || Outputs(redirs) == []
    decreases |redirs|
  {
    if redirs != [] {
      PreflightGuards(ops, w, name, redirs[1..]);
    }
  }

  /** Running one command keeps the log safe, whatever the command does. If the pipeline goes
      on, the command exited with 0 and every write it asks for was performed. */
  lemma {:induction false} StageSafe<W>(ops: Ops<W>, st: State<W>, c: Command, input: Input, stderr: string)
    requires c.args != [] && Safe(ops, st.log)
    ensures var (st', stage) := RunStage(ops, st, c, input, stderr);
            Safe(ops, st'.log) &&
            (stage.Continue? ==>
               LastRun(st'.log).Some? && var owner := LastRun(st'.log).value;
               owner.command == c && owner.code == 0 &&
               FulfilsAll(ops, WritesSince(st'.log), Plan(Outputs(c.redirs), owner.stdout)))
  {
    var redirected := InputFrom(ops, st.world, c.args[0], c.redirs, input);
    if redirected.Ok? && Preflight(ops, st.world, c.args[0], c.redirs).None? {
      PreflightGuards(ops, st.world, c.args[0], c.redirs);
      var (world, result) := ops.run(st.world, c.args, redirected.value.text, redirected.value.available);
      var e := Ran(st.world, c, redirected.value, result.code, result.stdout);
      SafeAppend(ops, st.log, e);
      AfterRun(st.log, e);
      FinishSafe(ops, State(world, st.log + [e]), c, result, AppendOutputText(stderr, result.stderr));
    }
  }

  lemma {:induction false} FinishSafe<W>(ops: Ops<W>, st: State<W>, c: Command, result: ExecOutput, stderr: string)
    requires c.args != [] && Safe(ops, st.log)
    requires LastRunIs(st.log, c, result.code, result.stdout) && WritesSince(st.log) == []
    requires AllowsWrite(ops.policy) || Outputs(c.redirs) == []
    ensures var (st', stage) := FinishCommand(ops, st, c, result, stderr);
            Safe(ops, st'.log) &&
            (stage.Continue? ==>
               LastRunIs(st'.log, c, 0, result.stdout) &&
               FulfilsAll(ops, WritesSince(st'.log), Plan(Outputs(c.redirs), result.stdout)))
  {
    var outs := Outputs(c.redirs);
    if result.code == 0 && PreflightPayload(ops.policy, c.redirs, result.stdout).None? {
      var plan := Plan(outs, result.stdout);
      assert plan[0..] == plan;
      assert Fits(ops.policy, outs, result.stdout);
      WritesSafe(ops, st, c, outs, result.stdout);
      FinishApplies(ops, st, c, result, stderr);
      AllFulfilled(ops, ApplyFrom(ops, st, c.args[0], outs, result.stdout).0.log, c, result.stdout);
    }
  }

  lemma {:induction false} AllFulfilled<W>(ops: Ops<W>, log: seq<Event<W>>, c: Command, output: string)
    ensures Midway(ops, log, c, output, []) ==> FulfilsAll(ops, WritesSince(log), Plan(Outputs(c.redirs), output))
  {
    var plan, n := Plan(Outputs(c.redirs), output), |WritesSince(log)|;
    if n <= |plan| && plan[n..] == [] {
      assert plan[..n] == plan;
    }
  }

  lemma {:induction false} FinishApplies<W>(ops: Ops<W>, st: State<W>, c: Command, result: ExecOutput, stderr: string)
    requires c.args != [] && result.code == 0 && PreflightPayload(ops.policy, c.redirs, result.stdout).None?
    ensures var applied := ApplyFrom(ops, st, c.args[0], Outputs(c.redirs), result.stdout);
            var finished := FinishCommand(ops, st, c, result, stderr);
            finished.0 == applied.0 && (finished.1.Continue? <==> applied.1.None?)
  {
    var applied := ApplyFrom(ops, st, c.args[0], Outputs(c.redirs), result.stdout);
    assert applied.1.Some? ==> Failing(applied.1.value, stderr).Stop?;
  }

  // ---------------------------------------------------------------- whole runs

  lemma {:induction false} PipelineFromSafe<W>(ops: Ops<W>, st: State<W>, cs: seq<Command>, input: Input,
                                               stderr: string)
    requires (forall c :: c in cs ==> c.args != []) && Safe(ops, st.log)
    ensures Safe(ops, PipelineFrom(ops, st, cs, input, stderr).0.log)
    decreases |cs|
  {
    if cs != [] {
      assert cs[0] in cs;
      StageSafe(ops, st, cs[0], input, stderr);
      var (st', stage) := RunStage(ops, st, cs[0], input, stderr);
      if stage.Continue? {
        PipelineFromSafe(ops, st', cs[1..], Input(stage.output, true), stage.stderr);
      }
    }
  }

  lemma {:induction false} LinksSafe<W>(ops: Ops<W>, st: State<W>, links: seq<ConditionalPipeline>, result: ExecOutput)
    requires RunnableLinks(links) && Safe(ops, st.log)
    ensures Safe(ops, LinksFrom(ops, st, links, result).0.log)
    decreases |links|
  {
    if links != [] {
      assert links[0] in links;
      if ShouldRun(links[0].op, result.code) {
        PipelineFromSafe(ops, st, links[0].pipeline.commands, Input("", false), "");
        var (st', next) := RunPipeline(ops, st, links[0].pipeline);
        LinksSafe(ops, st', links[1..], next);
      } else {
        LinksSafe(ops, st, links[1..], result);
      }
    }
  }

  lemma {:induction false} StatementsSafe<W>(ops: Ops<W>, st: State<W>, script: seq<Statement>, last: ExecOutput)
    requires RunnableScript(script) && Safe(ops, st.log)
    ensures Safe(ops, StatementsFrom(ops, st, script, last).0.log)
    decreases |script|
  {
    if script != [] {
      var s := script[0];
      assert s in script && s.pipelines[0] in s.pipelines;
      PipelineFromSafe(ops, st, s.pipelines[0].pipeline.commands, Input("", false), "");
      var (st', first) := RunPipeline(ops, st, s.pipelines[0].pipeline);
      LinksSafe(ops, st', s.pipelines[1..], first);
      var (st'', result) := RunStatement(ops, st, s);
      StatementsSafe(ops, st'', script[1..], result);
    }
  }

  /** The log stays safe over whole runs: every script text, every world, every behaviour of
      the commands and of the file system. */
  lemma {:induction false} RunScriptSafe<W>(ops: Ops<W>, st: State<W>, input: string)
    requires Safe(ops, st.log)
    ensures Safe(ops, RunScript(ops, st, input).0.log)
  {
    var parsed := ScriptParser.Parse(input);
    if parsed.Ok? {
      ParsedIsRunnable(input);
      StatementsSafe(ops, st, parsed.value, ExecOutput("", "", 0));
    }
  }

  lemma {:induction false} SafeMeans<W>(ops: Ops<W>, log: seq<Event<W>>, k: nat)
    requires Safe(ops, log) && k < |log|
    ensures Permitted(ops, log[..k], log[k])
    decreases |log|
  {
    if k < |log| - 1 {
      SafeMeans(ops, log[..|log| - 1], k);
      assert log[..|log| - 1][..k] == log[..k];
    }
  }

  /** Without write permission nothing is written and no command carrying an output
      redirection runs. */
  lemma {:induction false} NoWriteWithoutPermission<W>(ops: Ops<W>, world: W, input: string, k: nat)
    requires !AllowsWrite(ops.policy)
    requires k < |RunScript(ops, State(world, []), input).0.log|
    ensures var e := RunScript(ops, State(world, []), input).0.log[k];
            e.Ran? && forall r :: r in e.command.redirs ==> !IsOutput(r)
  {
    RunScriptSafe(ops, State(world, []), input);
    SafeMeans(ops, RunScript(ops, State(world, []), input).0.log, k);
  }

  /** In write-limited mode with a positive cap no redirected payload exceeds the cap. */
  lemma {:induction false} WritesWithinCap<W>(ops: Ops<W>, world: W, input: string, k: nat)
    requires Capped(ops.policy)
    requires k < |RunScript(ops, State(world, []), input).0.log|
    ensures var e := RunScript(ops, State(world, []), input).0.log[k];
            !e.Ran? ==> |e.payload| <= ops.policy.maxWriteBytes
  {
    RunScriptSafe(ops, State(world, []), input);
    SafeMeans(ops, RunScript(ops, State(world, []), input).0.log, k);
  }

  // ---------------------------------------------------------------- further guarantees

  predicate IsInput(r: Redirect) {
    r.kind.InputFile? || r.kind.InputHereDoc?
  }

  /** The input text the last input redirection provides, if it can be provided. */
  function Provided<W>(ops: Ops<W>, w: W, r: Redirect): Option<string>
    requires IsInput(r)
  {
    if r.kind.InputHereDoc? then Some(r.hereDocBody)
    else if EnginePath.IsNullDevice(r.target) then Some("")
    else
      var path := ops.resolve(w, r.target);
      if path.Err? || ops.read(w, path.value).Err? then None
      else Some(ops.read(w, path.value).value)
  }

  predicate LastInput(redirs: seq<Redirect>, k: nat)
    requires k < |redirs|
  {
    IsInput(redirs[k]) && forall j :: k < j < |redirs| ==> !IsInput(redirs[j])
  }

  /** Redirected input succeeds exactly when every input redirection can be provided, and then
      the last one wins over the earlier ones and over the pipe. */
  lemma {:induction false} LastInputWins<W>(ops: Ops<W>, w: W, name: string, redirs: seq<Redirect>, piped: Input)
    ensures var r := InputFrom(ops, w, name, redirs, piped);
            && (r.Ok? <==> forall k :: 0 <= k < |redirs| && IsInput(redirs[k]) ==> Provided(ops, w, redirs[k]).Some?)
            && (r.Ok? && (forall k :: 0 <= k < |redirs| ==> !IsInput(redirs[k])) ==> r.value == piped)
            && (r.Ok? ==> forall k :: 0 <= k < |redirs| && LastInput(redirs, k) ==>
                            r.value == Input(Provided(ops, w, redirs[k]).value, true))
    decreases |redirs|
  {
    if redirs != [] {
      var rest := redirs[1..];
      assert forall k :: 0 <= k < |rest| ==> rest[k] == redirs[k + 1];
      assert forall k :: 1 <= k < |redirs| ==> redirs[k] == rest[k - 1];
      if !IsInput(redirs[0]) {
        LastInputWins(ops, w, name, rest, piped);
      } else if Provided(ops, w, redirs[0]).Some? {
        LastInputWins(ops, w, name, rest, Input(Provided(ops, w, redirs[0]).value, true));
      }
    }
  }

  lemma {:induction false} ApplyFailureCode<W>(ops: Ops<W>, st: State<W>, name: string, outs: seq<Redirect>,
                                               output: string)
    ensures var failure := ApplyFrom(ops, st, name, outs, output).1; failure.Some? ==> failure.value.code != 0
    decreases |outs|
  {
    if outs != [] {
      ApplyFailureCode(ops, st, name, outs[1..], output);
      var path := ops.resolve(st.world, outs[0].target);
      if path.Ok? {
        var (st', failure) := Write(ops, st, name, outs[0].kind, path.value, if |outs| == 1 then output else "");
        ApplyFailureCode(ops, st', name, outs[1..], output);
      }
    }
  }

  lemma {:induction false} InputFailureCode<W>(ops: Ops<W>, w: W, name: string, redirs: seq<Redirect>, current: Input)
    ensures var r := InputFrom(ops, w, name, redirs, current); r.Err? ==> r.error.code != 0
    decreases |redirs|
  {
    if redirs != [] {
      InputFailureCode(ops, w, name, redirs[1..], current);
      if IsInput(redirs[0]) && Provided(ops, w, redirs[0]).Some? {
        InputFailureCode(ops, w, name, redirs[1..], Input(Provided(ops, w, redirs[0]).value, true));
      }
    }
  }

  lemma {:induction false} PreflightFailureCode<W>(ops: Ops<W>, w: W, name: string, redirs: seq<Redirect>)
    ensures var r := Preflight(ops, w, name, redirs); r.Some? ==> r.value.code != 0
    decreases |redirs|
  {
    if redirs != [] {
      PreflightFailureCode(ops, w, name, redirs[1..]);
    }
  }

  /** A pipeline that stops early always reports failure. */
  lemma {:induction false} StopReportsFailure<W>(ops: Ops<W>, st: State<W>, c: Command, input: Input, stderr: string)
    requires c.args != []
    ensures var stage := RunStage(ops, st, c, input, stderr).1; stage.Stop? ==> stage.result.code != 0
  {
    InputFailureCode(ops, st.world, c.args[0], c.redirs, input);
    PreflightFailureCode(ops, st.world, c.args[0], c.redirs);
    var redirected := InputFrom(ops, st.world, c.args[0], c.redirs, input);
    if redirected.Ok? {
      var (world, result) := ops.run(st.world, c.args, redirected.value.text, redirected.value.available);
      var event := Ran(st.world, c, redirected.value, result.code, result.stdout);
      ApplyFailureCode(ops, State(world, st.log + [event]), c.args[0], Outputs(c.redirs), result.stdout);
    }
  }

  /** A pipeline that reports success stays within a positive output limit. */
  lemma {:induction false} SuccessWithinLimit<W>(ops: Ops<W>, st: State<W>, cs: seq<Command>, input: Input,
                                                 stderr: string)
    requires (forall c :: c in cs ==> c.args != []) && ops.policy.maxOutputBytes > 0
    requires cs != [] || |Flattened(ExecOutput(input.text, stderr, 0))| <= ops.policy.maxOutputBytes
    ensures var out := PipelineFrom(ops, st, cs, input, stderr).1;
            out.code == 0 ==> |Flattened(out)| <= ops.policy.maxOutputBytes
    decreases |cs|
  {
    if cs != [] {
      assert cs[0] in cs;
      StopReportsFailure(ops, st, cs[0], input, stderr);
      var (st', stage) := RunStage(ops, st, cs[0], input, stderr);
      if stage.Continue? {
        var out := ExecOutput(stage.output, stage.stderr, EXIT_GENERAL);
        assert Flattened(out) == Flattened(ExecOutput(stage.output, stage.stderr, 0));
        if |Flattened(out)| <= ops.policy.maxOutputBytes {
          SuccessWithinLimit(ops, st', cs[1..], Input(stage.output, true), stage.stderr);
        }
      }
    }
  }
}

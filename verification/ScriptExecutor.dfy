/** The runner's loops, as methods on the state they change, each proved against the function
    that defines what it does. */
module ScriptExecutor {
  import opened Prelude
  import opened ScriptIr
  import opened OutputLimit
  import opened ScriptRunner
  import EnginePath
  import ScriptParser

  method ApplyInputRedirections<W>(ops: Ops<W>, world: W, name: string, redirs: seq<Redirect>, input: Input)
    returns (r: Result<Input, Failure>)
    ensures r == InputFrom(ops, world, name, redirs, input)
  {
    var current := input;
    assert redirs[0..] == redirs;
    for k := 0 to |redirs|
      invariant InputFrom(ops, world, name, redirs, input) == InputFrom(ops, world, name, redirs[k..], current)
    {
      var redir := redirs[k];
      assert redirs[k..][1..] == redirs[k + 1..];
      if redir.kind == InputHereDoc {
        current := Input(redir.hereDocBody, true);
      } else if redir.kind == InputFile {
        if EnginePath.IsNullDevice(redir.target) {
          current := Input("", true);
          continue;
        }
        var path := ops.resolve(world, redir.target);
        if path.Err? {
          return Err(Failure(name + ": " + path.error, EXIT_USAGE));
        }
        var raw := ops.read(world, path.value);
        if raw.Err? {
          return Err(Failure(name + ": " + raw.error, EXIT_GENERAL));
        }
        current := Input(raw.value, true);
      }
    }
    return Ok(current);
  }

  method PreflightOutputRedirections<W>(ops: Ops<W>, world: W, name: string, redirs: seq<Redirect>)
    returns (r: Option<Failure>)
    ensures r == Preflight(ops, world, name, redirs)
  {
    assert redirs[0..] == redirs;
    for k := 0 to |redirs|
      invariant Preflight(ops, world, name, redirs) == Preflight(ops, world, name, redirs[k..])
    {
      assert redirs[k..][1..] == redirs[k + 1..];
      var first := PreflightOne(ops, world, name, redirs[k]);
      if first.Some? {
        return first;
      }
    }
    return None;
  }

  method CollectOutputs(redirs: seq<Redirect>) returns (outs: seq<Redirect>)
    ensures outs == Outputs(redirs)
  {
    outs := [];
    assert redirs[0..] == redirs;
    for k := 0 to |redirs|
      invariant Outputs(redirs) == outs + Outputs(redirs[k..])
    {
      assert redirs[k..][1..] == redirs[k + 1..];
      if IsOutput(redirs[k]) {
        outs := outs + [redirs[k]];
      }
    }
  }

  class Runner<W> {
    const ops: Ops<W>
    var world: W
    var log: seq<Event<W>>

    constructor (ops: Ops<W>, world: W)
      ensures this.ops == ops && this.world == world && log == []
    {
      this.ops, this.world, this.log := ops, world, [];
    }

    function Now(): State<W>
      reads this
    {
      State(world, log)
    }

    method ApplyOutputRedirections(name: string, redirs: seq<Redirect>, output: string) returns (r: Option<Failure>)
      modifies this
      ensures (Now(), r) == ApplyFrom(ops, old(Now()), name, Outputs(redirs), output)
    {
      var outs := CollectOutputs(redirs);
      ghost var goal := ApplyFrom(ops, Now(), name, outs, output);
      assert outs[0..] == outs;
      for k := 0 to |outs|
        invariant goal == ApplyFrom(ops, Now(), name, outs[k..], output)
      {
        var redir := outs[k];
        assert outs[k..][1..] == outs[k + 1..];
        var payload := if k == |outs| - 1 then output else "";
        if EnginePath.IsNullDevice(redir.target) {
          continue;
        }
        var path := ops.resolve(world, redir.target);
        if path.Err? {
          return Some(Failure(name + ": " + path.error, EXIT_USAGE));
        }
        var failure := Perform(name, redir.kind, path.value, payload);
        if failure.Some? {
          return failure;
        }
      }
      return None;
    }

    method Perform(name: string, kind: RedirectKind, path: string, payload: string) returns (r: Option<Failure>)
      modifies this
      ensures (Now(), r) == Write(ops, old(Now()), name, kind, path, payload)
    {
      var status: IoStatus;
      var unsupported := NO_WRITE;
      if kind == OutputAppend {
        unsupported := NO_APPEND;
        if ops.append.None? {
          return Some(NO_APPEND);
        }
        var done := ops.append.value(world, path, payload);
        world, status, log := done.0, done.1, log + [Appended(world, path, payload)];
      } else {
        var done := ops.write(world, path, payload);
        world, status, log := done.0, done.1, log + [Wrote(world, path, payload)];
      }
      match status {
        case Done => return None;
        case Unsupported => return Some(unsupported);
        case Failed(message) => return Some(Failure(name + ": " + message, EXIT_GENERAL));
      }
    }

    /** The body of the pipeline loop, up to the output limit. */
    method RunCommand(c: Command, input: Input, stderr: string) returns (r: Stage)
      requires c.args != []
      modifies this
      ensures (Now(), r) == RunStage(ops, old(Now()), c, input, stderr)
    {
      var name := c.args[0];
      var redirected := ApplyInputRedirections(ops, world, name, c.redirs, input);
      if redirected.Err? {
        return Failing(redirected.error, stderr);
      }
      var refused := PreflightOutputRedirections(ops, world, name, c.redirs);
      if refused.Some? {
        return Failing(refused.value, stderr);
      }
      var ran := ops.run(world, c.args, redirected.value.text, redirected.value.available);
      var result := ran.1;
      world, log := ran.0, log + [Ran(world, c, redirected.value, result.code, result.stdout)];
      var gathered := AppendOutputText(stderr, result.stderr);
      if result.code != 0 {
        return Stop(result.(stderr := gathered));
      }
      var oversize := PreflightPayload(ops.policy, c.redirs, result.stdout);
      if oversize.Some? {
        return Failing(oversize.value, gathered);
      }
      var failure := ApplyOutputRedirections(name, c.redirs, result.stdout);
      if failure.Some? {
        return Failing(failure.value, gathered);
      }
      return Continue(if Outputs(c.redirs) == [] then result.stdout else "", gathered);
    }

    method ExecutePipeline(p: Pipeline) returns (r: ExecOutput)
      requires Runnable(p)
      modifies this
      ensures (Now(), r) == RunPipeline(ops, old(Now()), p)
    {
      var limit := ops.policy.maxPipelineDepth;
      if limit > 0 && |p.commands| > limit {
        return ExecOutput("execute: pipeline depth exceeds limit (" + Decimal(limit) + ")", "", EXIT_GENERAL);
      }
      var current := Input("", false);
      var stderr := "";
      ghost var goal := RunPipeline(ops, Now(), p);
      assert p.commands[0..] == p.commands;
      for k := 0 to |p.commands|
        invariant goal == PipelineFrom(ops, Now(), p.commands[k..], current, stderr)
      {
        assert p.commands[k..][1..] == p.commands[k + 1..];
        var stage := RunCommand(p.commands[k], current, stderr);
        if stage.Stop? {
          return stage.result;
        }
        current := Input(stage.output, true);
        stderr := stage.stderr;
        var out := ExecOutput(current.text, stderr, EXIT_GENERAL);
        if ops.policy.maxOutputBytes > 0 && |Flattened(out)| > ops.policy.maxOutputBytes {
          r := TruncateExecOutput(out, ops.policy.maxOutputBytes);
          return;
        }
      }
      return ExecOutput(current.text, stderr, 0);
    }

    method ExecuteStatement(s: Statement) returns (r: ExecOutput)
      requires s.pipelines != [] && RunnableLinks(s.pipelines)
      modifies this
      ensures (Now(), r) == RunStatement(ops, old(Now()), s)
    {
      assert s.pipelines[0] in s.pipelines;
      ghost var goal := RunStatement(ops, Now(), s);
      r := ExecutePipeline(s.pipelines[0].pipeline);
      for k := 1 to |s.pipelines|
        invariant goal == LinksFrom(ops, Now(), s.pipelines[k..], r)
      {
        assert s.pipelines[k..][1..] == s.pipelines[k + 1..];
        if ShouldRun(s.pipelines[k].op, r.code) {
          r := ExecutePipeline(s.pipelines[k].pipeline);
        }
      }
    }

    method ExecuteStatements(script: seq<Statement>) returns (r: ExecOutput)
      requires RunnableScript(script)
      modifies this
      ensures (Now(), r) == RunStatements(ops, old(Now()), script)
    {
      if |script| > MAX_EXECUTED_STATEMENTS {
        return ExecOutput("execute: statement count exceeds limit (" + Decimal(MAX_EXECUTED_STATEMENTS) + ")", "",
                          EXIT_GENERAL);
      }
      r := ExecOutput("", "", 0);
      ghost var goal := RunStatements(ops, Now(), script);
      assert script[0..] == script;
      for k := 0 to |script|
        invariant goal == StatementsFrom(ops, Now(), script[k..], r)
      {
        assert script[k..][1..] == script[k + 1..];
        r := ExecuteStatement(script[k]);
      }
    }

    method Execute(input: string) returns (r: ExecOutput)
      modifies this
      ensures (Now(), r) == RunScript(ops, old(Now()), input)
    {
      var parsed := ScriptParser.ParseScript(input);
      if parsed.Err? {
        return ExecOutput("execute: " + ops.parseErrorText(parsed.error), "", EXIT_USAGE);
      }
      ParsedIsRunnable(input);
      r := ExecuteStatements(parsed.value);
    }
  }
}

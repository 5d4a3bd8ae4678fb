/** Running a parsed script: pipelines, `&&` and `||`, input redirections, and output
    redirections under the write policy. Commands and the file system are arbitrary functions
    of an abstract world; every command that ran and every write is recorded in a log. */
module ScriptRunner {
  import opened Prelude
  import opened ScriptIr
  import opened OutputLimit
  import EnginePath
  import WhiteSpace
  import ScriptParser
  import ScriptPrinter
  import ScriptImage

  const EXIT_USAGE: int := 2
  const EXIT_UNSUPPORTED: int := 127
  const MAX_EXECUTED_STATEMENTS: nat := 64

  // ---------------------------------------------------------------- policy and environment

  datatype WriteMode = Disabled | ReadOnly | WriteLimited | Full | OtherMode(name: string)

  datatype Policy = Policy(mode: WriteMode, maxWriteBytes: int, maxPipelineDepth: int, maxOutputBytes: int)

  predicate AllowsWrite(p: Policy) {
    p.mode.Full? || p.mode.WriteLimited?
  }

  predicate Capped(p: Policy) {
    p.mode.WriteLimited? && p.maxWriteBytes > 0
  }

  datatype IoStatus = Done | Unsupported | Failed(message: string)

  /** What the runner calls. Any of these may behave in any way, and may depend on the world:
      a command can change the working directory that paths are resolved against. */
  datatype Ops<!W> = Ops(
    policy: Policy,
    resolve: (W, string) -> Result<string, string>,
    read: (W, string) -> Result<string, string>,
    checkWrite: Option<(W, string) -> IoStatus>,
    write: (W, string, string) -> (W, IoStatus),
    append: Option<(W, string, string) -> (W, IoStatus)>,
    run: (W, seq<string>, string, bool) -> (W, ExecOutput),
    parseErrorText: ScriptError -> string)

  /** What happened in the given world: a command ran on some input, or text was written to a path. */
  datatype Event<+W> =
    | Ran(world: W, command: Command, input: Input, code: int, stdout: string)
    | Wrote(world: W, path: string, payload: string)
    | Appended(world: W, path: string, payload: string)

  datatype State<+W> = State(world: W, log: seq<Event<W>>)

  /** A message for standard output and the exit code that goes with it. */
  datatype Failure = Failure(message: string, code: int)

  function Digits(n: nat): string
  {
    if n < 10 then [(n as char) + '0'] else Digits(n / 10) + [((n % 10) as char) + '0']
  }

  /** fmt's %d */
  function Decimal(n: int): string
  {
    if n < 0 then "-" + Digits(-n) else Digits(n)
  }

  predicate IsOutput(r: Redirect) {
    r.kind.OutputWrite? || r.kind.OutputAppend?
  }

  function Outputs(redirs: seq<Redirect>): (r: seq<Redirect>)
    ensures forall o :: o in r ==> IsOutput(o)
    ensures forall o :: o in redirs && IsOutput(o) ==> o in r
  {
    if redirs == [] then []
    else if IsOutput(redirs[0]) then [redirs[0]] + Outputs(redirs[1..])
    else Outputs(redirs[1..])
  }

  // ---------------------------------------------------------------- input redirections

  datatype Input = Input(text: string, available: bool)

  function InputFrom<W>(ops: Ops<W>, w: W, name: string, redirs: seq<Redirect>, current: Input)
    : Result<Input, Failure>
    decreases |redirs|
  {
    if redirs == [] then Ok(current)
    else
      var r, rest := redirs[0], redirs[1..];
      if r.kind.InputHereDoc? then InputFrom(ops, w, name, rest, Input(r.hereDocBody, true))
      else if !r.kind.InputFile? then InputFrom(ops, w, name, rest, current)
      else if EnginePath.IsNullDevice(r.target) then InputFrom(ops, w, name, rest, Input("", true))
      else
        var path := ops.resolve(w, r.target);
        if path.Err? then Err(Failure(name + ": " + path.error, EXIT_USAGE))
        else
          var raw := ops.read(w, path.value);
          if raw.Err? then Err(Failure(name + ": " + raw.error, EXIT_GENERAL))
          else InputFrom(ops, w, name, rest, Input(raw.value, true))
  }

  // ---------------------------------------------------------------- checks before running

  const DENIED := Failure("redirection: write is not allowed by policy", EXIT_UNSUPPORTED)
  const NO_APPEND := Failure("redirection: append is not supported", EXIT_UNSUPPORTED)
  const NO_WRITE := Failure("redirection: write is not supported", EXIT_UNSUPPORTED)

  function UnsupportedFor(kind: RedirectKind): Failure
  {
    if kind.OutputAppend? then NO_APPEND else NO_WRITE
  }

  function PreflightOne<W>(ops: Ops<W>, w: W, name: string, r: Redirect): Option<Failure>
  {
    if !IsOutput(r) then None
    else if !AllowsWrite(ops.policy) then Some(DENIED)
    else if EnginePath.IsNullDevice(r.target) then None
    else
      var path := ops.resolve(w, r.target);
      if path.Err? then Some(Failure(name + ": " + path.error, EXIT_USAGE))
      else if r.kind.OutputAppend? && ops.append.None? then Some(NO_APPEND)
      else if ops.checkWrite.None? then None
      else
        match ops.checkWrite.value(w, path.value)
        case Done => None
        case Unsupported => Some(UnsupportedFor(r.kind))
        case Failed(message) => Some(Failure(name + ": " + message, EXIT_GENERAL))
  }

  function Preflight<W>(ops: Ops<W>, w: W, name: string, redirs: seq<Redirect>): Option<Failure>
  {
    if redirs == [] then None
    else
      var first := PreflightOne(ops, w, name, redirs[0]);
      if first.Some? then first else Preflight(ops, w, name, redirs[1..])
  }

  // ---------------------------------------------------------------- checks and writes after running

  function PreflightPayload(policy: Policy, redirs: seq<Redirect>, output: string): Option<Failure>
  {
    var outs := Outputs(redirs);
    if Capped(policy) && outs != [] && !EnginePath.IsNullDevice(outs[|outs| - 1].target)
       && |output| > policy.maxWriteBytes
    then Some(Failure("redirection: write exceeds limit (" + Decimal(policy.maxWriteBytes) + " bytes)", EXIT_GENERAL))
    else None
  }

  /** One write or append, with the log entry for the call. */
  function Write<W>(ops: Ops<W>, st: State<W>, name: string, kind: RedirectKind, path: string, payload: string)
    : (State<W>, Option<Failure>)
  {
    if kind.OutputAppend? && ops.append.None? then (st, Some(NO_APPEND))
    else
      var append := kind.OutputAppend?;
      var (world, status) :=
        if append then ops.append.value(st.world, path, payload) else ops.write(st.world, path, payload);
      var event := if append then Appended(st.world, path, payload) else Wrote(st.world, path, payload);
      var failure :=
        match status
        case Done => None
        case Unsupported => Some(if append then NO_APPEND else NO_WRITE)
        case Failed(message) => Some(Failure(name + ": " + message, EXIT_GENERAL));
      (State(world, st.log + [event]), failure)
  }

  /** Only the last output redirection receives the output; the earlier ones get nothing. */
  function ApplyFrom<W>(ops: Ops<W>, st: State<W>, name: string, outs: seq<Redirect>, output: string)
    : (State<W>, Option<Failure>)
    decreases |outs|
  {
    if outs == [] then (st, None)
    else
      var r, payload := outs[0], if |outs| == 1 then output else "";
      if EnginePath.IsNullDevice(r.target) then ApplyFrom(ops, st, name, outs[1..], output)
      else
        var path := ops.resolve(st.world, r.target);
        if path.Err? then (st, Some(Failure(name + ": " + path.error, EXIT_USAGE)))
        else
          var (st', failure) := Write(ops, st, name, r.kind, path.value, payload);
          if failure.Some? then (st', failure) else ApplyFrom(ops, st', name, outs[1..], output)
  }

  // ---------------------------------------------------------------- pipelines

  predicate Blank(s: string) {
    WhiteSpace.TrimSpace(s) == ""
  }

  function AppendOutputText(base: string, addition: string): string
  {
    if Blank(base) then addition
    else if Blank(addition) then base
    else if base[|base| - 1] == '\n' then base + addition
    else base + "\n" + addition
  }

  /** What running one command of a pipeline leads to: an early result, or the text for the
      next command and the standard error gathered so far. */
  datatype Stage = Stop(result: ExecOutput) | Continue(output: string, stderr: string)

  function Failing(f: Failure, stderr: string): Stage
  {
    Stop(ExecOutput(f.message, stderr, f.code))
  }

  function FinishCommand<W>(ops: Ops<W>, st: State<W>, c: Command, result: ExecOutput, stderr: string)
    : (State<W>, Stage)
    requires c.args != []
  {
    if result.code != 0 then (st, Stop(result.(stderr := stderr)))
    else
      var oversize := PreflightPayload(ops.policy, c.redirs, result.stdout);
      if oversize.Some? then (st, Failing(oversize.value, stderr))
      else
        var outs := Outputs(c.redirs);
        var (st', failure) := ApplyFrom(ops, st, c.args[0], outs, result.stdout);
        if failure.Some? then (st', Failing(failure.value, stderr))
        else (st', Continue(if outs == [] then result.stdout else "", stderr))
  }

  function RunStage<W>(ops: Ops<W>, st: State<W>, c: Command, input: Input, stderr: string): (State<W>, Stage)
    requires c.args != []
  {
    var redirected := InputFrom(ops, st.world, c.args[0], c.redirs, input);
    if redirected.Err? then (st, Failing(redirected.error, stderr))
    else
      var refused := Preflight(ops, st.world, c.args[0], c.redirs);
      if refused.Some? then (st, Failing(refused.value, stderr))
      else
        var (world, result) := ops.run(st.world, c.args, redirected.value.text, redirected.value.available);
        var event := Ran(st.world, c, redirected.value, result.code, result.stdout);
        FinishCommand(ops, State(world, st.log + [event]), c, result, AppendOutputText(stderr, result.stderr))
  }

  function PipelineFrom<W>(ops: Ops<W>, st: State<W>, cs: seq<Command>, input: Input, stderr: string)
    : (State<W>, ExecOutput)
    requires forall c :: c in cs ==> c.args != []
    decreases |cs|
  {
    if cs == [] then (st, ExecOutput(input.text, stderr, 0))
    else
      assert cs[0] in cs;
      var (st', stage) := RunStage(ops, st, cs[0], input, stderr);
      if stage.Stop? then (st', stage.result)
      else
        var out := ExecOutput(stage.output, stage.stderr, EXIT_GENERAL);
        if ops.policy.maxOutputBytes > 0 && |Flattened(out)| > ops.policy.maxOutputBytes then
          (st', TruncatedOutput(out, ops.policy.maxOutputBytes))
        else PipelineFrom(ops, st', cs[1..], Input(stage.output, true), stage.stderr)
  }

  predicate Runnable(p: Pipeline) {
    forall c :: c in p.commands ==> c.args != []
  }

  function RunPipeline<W>(ops: Ops<W>, st: State<W>, p: Pipeline): (State<W>, ExecOutput)
    requires Runnable(p)
  {
    if ops.policy.maxPipelineDepth > 0 && |p.commands| > ops.policy.maxPipelineDepth then
      (st, ExecOutput("execute: pipeline depth exceeds limit (" + Decimal(ops.policy.maxPipelineDepth) + ")",
                      "", EXIT_GENERAL))
    else PipelineFrom(ops, st, p.commands, Input("", false), "")
  }

  // ---------------------------------------------------------------- statements

  /** Does a pipeline behind `op` run, after a pipeline that exited with `code`? */
  predicate ShouldRun(op: string, code: int) {
    if op == "&&" then code == 0 else if op == "||" then code != 0 else true
  }

  predicate RunnableLinks(links: seq<ConditionalPipeline>) {
    forall l :: l in links ==> Runnable(l.pipeline)
  }

  function LinksFrom<W>(ops: Ops<W>, st: State<W>, links: seq<ConditionalPipeline>, result: ExecOutput)
    : (State<W>, ExecOutput)
    requires RunnableLinks(links)
    decreases |links|
  {
    if links == [] then (st, result)
    else
      assert links[0] in links;
      if ShouldRun(links[0].op, result.code) then
        var (st', next) := RunPipeline(ops, st, links[0].pipeline);
        LinksFrom(ops, st', links[1..], next)
      else LinksFrom(ops, st, links[1..], result)
  }

  predicate RunnableScript(script: seq<Statement>) {
    forall s :: s in script ==> s.pipelines != [] && RunnableLinks(s.pipelines)
  }

  /** The first pipeline of a statement always runs. */
  function RunStatement<W>(ops: Ops<W>, st: State<W>, s: Statement): (State<W>, ExecOutput)
    requires s.pipelines != [] && RunnableLinks(s.pipelines)
  {
    assert s.pipelines[0] in s.pipelines;
    var (st', first) := RunPipeline(ops, st, s.pipelines[0].pipeline);
    LinksFrom(ops, st', s.pipelines[1..], first)
  }

  function StatementsFrom<W>(ops: Ops<W>, st: State<W>, script: seq<Statement>, last: ExecOutput)
    : (State<W>, ExecOutput)
    requires RunnableScript(script)
    decreases |script|
  {
    if script == [] then (st, last)
    else
      assert script[0] in script;
      var (st', result) := RunStatement(ops, st, script[0]);
      StatementsFrom(ops, st', script[1..], result)
  }

  function RunStatements<W>(ops: Ops<W>, st: State<W>, script: seq<Statement>): (State<W>, ExecOutput)
    requires RunnableScript(script)
  {
    if |script| > MAX_EXECUTED_STATEMENTS then
      (st, ExecOutput("execute: statement count exceeds limit (" + Decimal(MAX_EXECUTED_STATEMENTS) + ")", "",
                      EXIT_GENERAL))
    else StatementsFrom(ops, st, script, ExecOutput("", "", 0))
  }

  lemma {:induction false} WellFormedIsRunnable(script: seq<Statement>)
    requires ScriptPrinter.WellFormed(script)
    ensures RunnableScript(script)
  {
    forall s | s in script
      ensures s.pipelines != [] && RunnableLinks(s.pipelines)
    {
      assert ScriptPrinter.WellFormedStatement(s);
      forall l | l in s.pipelines
        ensures Runnable(l.pipeline)
      {
        if l != s.pipelines[0] {
          assert l in s.pipelines[1..];
          assert ScriptPrinter.WellFormedLink(l);
        }
      }
    }
  }

  /** Parsing makes every script runnable: no command is without a name. */
  lemma {:induction false} ParsedIsRunnable(input: string)
    requires ScriptParser.Parse(input).Ok?
    ensures RunnableScript(ScriptParser.Parse(input).value)
  {
    ScriptImage.ParsedIsWellFormed(input);
    WellFormedIsRunnable(ScriptParser.Parse(input).value);
  }

  function RunScript<W>(ops: Ops<W>, st: State<W>, input: string): (State<W>, ExecOutput)
  {
    var parsed := ScriptParser.Parse(input);
    if parsed.Err? then (st, ExecOutput("execute: " + ops.parseErrorText(parsed.error), "", EXIT_USAGE))
    else
      ParsedIsRunnable(input);
      RunStatements(ops, st, parsed.value)
  }
}

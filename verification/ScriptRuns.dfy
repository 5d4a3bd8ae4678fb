/** What a run of a script does, told without the runner's own recursion: which pipelines run, what
    each command is given and passes on, and that the log is the history of the world. */
module ScriptRuns {
  import opened Prelude
  import opened ScriptIr
  import opened OutputLimit
  import opened ScriptRunner
  import opened RedirectionSafety
  import EnginePath
  import ScriptParser

  // ---------------------------------------------------------------- && and ||

  /** The pipelines that ran, among the first `n` of a statement. */
  function Picked(links: seq<ConditionalPipeline>, did: seq<bool>, n: nat): seq<Pipeline>
    requires n <= |links| && n <= |did|
  {
    if n == 0 then []
    else if did[n - 1] then Picked(links, did, n - 1) + [links[n - 1].pipeline]
    else Picked(links, did, n - 1)
  }

  predicate AllRunnable(ps: seq<Pipeline>) {
    forall k :: 0 <= k < |ps| ==> Runnable(ps[k])
  }

  /** One pipeline after the other, whatever their exit codes; the result is the last one's. */
  function RunInOrder<W>(ops: Ops<W>, st: State<W>, ps: seq<Pipeline>): (State<W>, ExecOutput)
    requires AllRunnable(ps)
  {
    if ps == [] then (st, ExecOutput("", "", 0))
    else RunPipeline(ops, RunInOrder(ops, st, ps[..|ps| - 1]).0, ps[|ps| - 1])
  }

  lemma {:induction false} PickedIsRunnable(links: seq<ConditionalPipeline>, did: seq<bool>, n: nat)
    requires n <= |links| && n <= |did| && RunnableLinks(links)
    ensures AllRunnable(Picked(links, did, n))
    decreases n
  {
    if n > 0 {
      PickedIsRunnable(links, did, n - 1);
      assert links[n - 1] in links;
    }
  }

  ghost function ResultOf<W>(ops: Ops<W>, st: State<W>, links: seq<ConditionalPipeline>, did: seq<bool>, n: nat)
    : (State<W>, ExecOutput)
    requires n <= |links| && n <= |did| && RunnableLinks(links)
  {
    PickedIsRunnable(links, did, n);
    RunInOrder(ops, st, Picked(links, did, n))
  }

  /** Behind `&&` a pipeline runs exactly on success, behind `||` exactly on failure. */
  predicate Decided(op: string, code: int, did: bool)
  {
    && (op == "&&" ==> (did <==> code == 0))
    && (op == "||" ==> (did <==> code != 0))
    && (op != "&&" && op != "||" ==> did)
  }

  /** The first pipeline ran, and each other one ran exactly when its operator asks for it, given the
      exit code of the latest one that ran. */
  ghost predicate IsChain<W>(ops: Ops<W>, st: State<W>, links: seq<ConditionalPipeline>, did: seq<bool>)
    requires RunnableLinks(links) && 0 < |did| <= |links|
  {
    did[0] && forall k :: 1 <= k < |did| ==> LinkIs(ops, st, links, did, k)
  }

  ghost predicate LinkIs<W>(ops: Ops<W>, st: State<W>, links: seq<ConditionalPipeline>, did: seq<bool>, k: nat)
    requires RunnableLinks(links) && k < |did| <= |links|
  {
    Decided(links[k].op, ResultOf(ops, st, links, did, k).1.code, did[k])
  }

  lemma {:induction false} PickedEarlier(links: seq<ConditionalPipeline>, did: seq<bool>, more: bool, n: nat)
    requires n <= |links| && n <= |did|
    ensures Picked(links, did + [more], n) == Picked(links, did, n)
    decreases n
  {
    if n > 0 {
      PickedEarlier(links, did, more, n - 1);
    }
  }

  lemma {:induction false} ResultEarlier<W>(ops: Ops<W>, st: State<W>, links: seq<ConditionalPipeline>, did: seq<bool>,
                                            more: bool, n: nat)
    requires RunnableLinks(links) && n <= |links| && n <= |did|
    ensures ResultOf(ops, st, links, did + [more], n) == ResultOf(ops, st, links, did, n)
  {
    PickedEarlier(links, did, more, n);
  }

  lemma {:induction false} ResultNext<W>(ops: Ops<W>, st: State<W>, links: seq<ConditionalPipeline>, did: seq<bool>,
                                         n: nat)
    requires RunnableLinks(links) && n < |links| && n < |did| && links[n] in links
    ensures ResultOf(ops, st, links, did, n + 1) ==
            var now := ResultOf(ops, st, links, did, n);
            if did[n] then RunPipeline(ops, now.0, links[n].pipeline) else now
  {
    var ps := Picked(links, did, n + 1);
    PickedIsRunnable(links, did, n + 1);
    PickedIsRunnable(links, did, n);
    if did[n] {
      assert ps[..|ps| - 1] == Picked(links, did, n);
    }
  }

  lemma {:induction false} ShouldRunDecides(op: string, code: int)
    ensures Decided(op, code, ShouldRun(op, code))
  {
  }

  lemma {:induction false} ChainGrows<W>(ops: Ops<W>, st: State<W>, links: seq<ConditionalPipeline>, did: seq<bool>,
                                         more: bool)
    requires RunnableLinks(links) && 0 < |did| < |links| && IsChain(ops, st, links, did)
    requires Decided(links[|did|].op, ResultOf(ops, st, links, did, |did|).1.code, more)
    ensures IsChain(ops, st, links, did + [more])
  {
    var did' := did + [more];
    forall k | 1 <= k < |did'|
      ensures LinkIs(ops, st, links, did', k)
    {
      LinkKept(ops, st, links, did, more, k);
    }
  }

  lemma {:induction false} LinkKept<W>(ops: Ops<W>, st: State<W>, links: seq<ConditionalPipeline>, did: seq<bool>,
                                       more: bool, k: nat)
    requires RunnableLinks(links) && k <= |did| < |links|
    requires if k < |did| then LinkIs(ops, st, links, did, k)
             else Decided(links[k].op, ResultOf(ops, st, links, did, k).1.code, more)
    ensures LinkIs(ops, st, links, did + [more], k)
  {
    ResultEarlier(ops, st, links, did, more, k);
  }

  lemma {:induction false} LinksStep<W>(ops: Ops<W>, st: State<W>, links: seq<ConditionalPipeline>, n: nat,
                                        result: ExecOutput)
    requires RunnableLinks(links) && n < |links| && links[n] in links
    ensures RunnableLinks(links[n..]) && RunnableLinks(links[n + 1..])
    ensures LinksFrom(ops, st, links[n..], result) ==
            var next := if ShouldRun(links[n].op, result.code) then RunPipeline(ops, st, links[n].pipeline)
                        else (st, result);
            LinksFrom(ops, next.0, links[n + 1..], next.1)
  {
    assert links[n..][0] == links[n] && links[n..][1..] == links[n + 1..];
    assert forall l :: l in links[n..] ==> l in links;
    assert forall l :: l in links[n + 1..] ==> l in links;
  }

  lemma {:induction false} LinksChain<W>(ops: Ops<W>, st: State<W>, links: seq<ConditionalPipeline>, did0: seq<bool>)
    returns (did: seq<bool>)
    requires RunnableLinks(links) && 0 < |did0| <= |links| && IsChain(ops, st, links, did0)
    ensures |did| == |links| && IsChain(ops, st, links, did) && RunnableLinks(links[|did0|..])
    ensures var now := ResultOf(ops, st, links, did0, |did0|);
            ResultOf(ops, st, links, did, |links|) == LinksFrom(ops, now.0, links[|did0|..], now.1)
    decreases |links| - |did0|
  {
    did := did0;
    var n := |did0|;
    if n < |links| {
      var now := ResultOf(ops, st, links, did0, n);
      var more := ShouldRun(links[n].op, now.1.code);
      assert links[n] in links;
      ShouldRunDecides(links[n].op, now.1.code);
      ChainGrows(ops, st, links, did0, more);
      ResultEarlier(ops, st, links, did0, more, n);
      ResultNext(ops, st, links, did0 + [more], n);
      LinksStep(ops, now.0, links, n, now.1);
      did := LinksChain(ops, st, links, did0 + [more]);
    }
  }

  /** A statement runs some of its pipelines, the ones its operators ask for, in order; its result is
      that of the last one that ran. */
  lemma {:induction false} StatementChain<W>(ops: Ops<W>, st: State<W>, s: Statement) returns (did: seq<bool>)
    requires s.pipelines != [] && RunnableLinks(s.pipelines)
    ensures |did| == |s.pipelines| && IsChain(ops, st, s.pipelines, did)
    ensures RunStatement(ops, st, s) == ResultOf(ops, st, s.pipelines, did, |s.pipelines|)
  {
    var links := s.pipelines;
    assert links[0] in links;
    ResultNext(ops, st, links, [true], 0);
    PickedIsRunnable(links, [true], 0);
    did := LinksChain(ops, st, links, [true]);
  }

  // ---------------------------------------------------------------- statements

  /** The states and results before each statement and after the last one. */
  ghost predicate IsRun<W>(ops: Ops<W>, script: seq<Statement>, trace: seq<(State<W>, ExecOutput)>)
    requires RunnableScript(script)
  {
    && |trace| == |script| + 1
    && (forall k :: 0 <= k < |script| ==>
          script[k] in script && trace[k + 1] == RunStatement(ops, trace[k].0, script[k]))
  }

  lemma {:induction false} StatementsRun<W>(ops: Ops<W>, st: State<W>, script: seq<Statement>, last: ExecOutput)
    returns (trace: seq<(State<W>, ExecOutput)>)
    requires RunnableScript(script)
    ensures IsRun(ops, script, trace) && trace[0] == (st, last)
    ensures StatementsFrom(ops, st, script, last) == trace[|script|]
    decreases |script|
  {
    if script == [] {
      trace := [(st, last)];
    } else {
      assert script[0] in script;
      var next := RunStatement(ops, st, script[0]);
      var rest := StatementsRun(ops, next.0, script[1..], next.1);
      trace := [(st, last)] + rest;
      forall k | 0 <= k < |script|
        ensures script[k] in script && trace[k + 1] == RunStatement(ops, trace[k].0, script[k])
      {
        if k > 0 {
          assert script[1..][k - 1] in script[1..];
        }
      }
    }
  }

  /** Every statement runs, whatever the earlier ones returned, and the last one's result counts; a
      script of more than 64 statements runs nothing. */
  lemma {:induction false} ScriptRun<W>(ops: Ops<W>, st: State<W>, script: seq<Statement>)
    returns (trace: seq<(State<W>, ExecOutput)>)
    requires RunnableScript(script)
    ensures |script| > 64 ==> RunStatements(ops, st, script).0 == st && RunStatements(ops, st, script).1.code != 0
    ensures |script| <= 64 ==>
              && IsRun(ops, script, trace) && trace[0] == (st, ExecOutput("", "", 0))
              && RunStatements(ops, st, script) == trace[|script|]
  {
    trace := [];
    if |script| <= 64 {
      trace := StatementsRun(ops, st, script, ExecOutput("", "", 0));
    }
  }

  // ---------------------------------------------------------------- one command

  /** What a command reads: its last input redirection, or else what the pipe holds. */
  ghost predicate IsGiven<W>(ops: Ops<W>, w: W, redirs: seq<Redirect>, piped: Input, given: Input)
  {
    && ((forall k :: 0 <= k < |redirs| ==> !IsInput(redirs[k])) ==> given == piped)
    && (forall k :: 0 <= k < |redirs| && LastInput(redirs, k) ==>
          Provided(ops, w, redirs[k]).Some? && given == Input(Provided(ops, w, redirs[k]).value, true))
  }

  predicate RedirectsOutput(c: Command) {
    exists k :: 0 <= k < |c.redirs| && (c.redirs[k].kind.OutputWrite? || c.redirs[k].kind.OutputAppend?)
  }

  /** What the next command reads: nothing if the output was redirected. */
  function PassedOn(c: Command, stdout: string): string
  {
    if RedirectsOutput(c) then "" else stdout
  }

  lemma {:induction false} NoOutputs(redirs: seq<Redirect>)
    ensures Outputs(redirs) == [] <==> forall k :: 0 <= k < |redirs| ==> !IsOutput(redirs[k])
    decreases |redirs|
  {
    if redirs != [] {
      NoOutputs(redirs[1..]);
      assert forall k :: 1 <= k < |redirs| ==> redirs[k] == redirs[1..][k - 1];
      assert forall k :: 0 <= k < |redirs[1..]| ==> redirs[1..][k] == redirs[k + 1];
    }
  }

  /** What is known of one command of a pipeline. */
  ghost predicate StageIs<W>(ops: Ops<W>, st: State<W>, c: Command, input: Input, stderr: string, given: Input)
    requires c.args != []
  {
    var (st', stage) := RunStage(ops, st, c, input, stderr);
    var (world, result) := ops.run(st.world, c.args, given.text, given.available);
    var gathered := AppendOutputText(stderr, result.stderr);
    if stage.Continue? then
      && IsGiven(ops, st.world, c.redirs, input, given) && result.code == 0
      && stage.output == PassedOn(c, result.stdout) && stage.stderr == gathered
    else if st'.log == st.log then st' == st && stage.result.stderr == stderr
    else
      && IsGiven(ops, st.world, c.redirs, input, given) && stage.result.stderr == gathered
      && (result.code != 0 ==> stage.result == ExecOutput(result.stdout, gathered, result.code) && st'.world == world)
      && (result.code == 0 ==> RedirectsOutput(c))
  }

  lemma {:induction false} GivenIs<W>(ops: Ops<W>, w: W, name: string, redirs: seq<Redirect>, piped: Input)
    ensures var r := InputFrom(ops, w, name, redirs, piped); r.Ok? ==> IsGiven(ops, w, redirs, piped, r.value)
  {
    LastInputWins(ops, w, name, redirs, piped);
  }

  lemma {:induction false} LogsItself<W>(ops: Ops<W>, st: State<W>, c: Command, result: ExecOutput, stderr: string)
    requires c.args != []
    ensures |FinishCommand(ops, st, c, result, stderr).0.log| >= |st.log|
  {
    ApplyLogs(ops, st, c.args[0], Outputs(c.redirs), result.stdout);
  }

  lemma {:induction false} ApplyLogs<W>(ops: Ops<W>, st: State<W>, name: string, outs: seq<Redirect>, output: string)
    ensures |ApplyFrom(ops, st, name, outs, output).0.log| >= |st.log|
    decreases |outs|
  {
    if outs != [] {
      ApplyLogs(ops, st, name, outs[1..], output);
      var path := ops.resolve(st.world, outs[0].target);
      if path.Ok? {
        var next := Write(ops, st, name, outs[0].kind, path.value, if |outs| == 1 then output else "").0;
        ApplyLogs(ops, next, name, outs[1..], output);
      }
    }
  }

  lemma {:induction false} FinishIs<W>(ops: Ops<W>, st: State<W>, c: Command, result: ExecOutput, stderr: string)
    requires c.args != []
    ensures var (st', stage) := FinishCommand(ops, st, c, result, stderr);
            if stage.Continue? then
              result.code == 0 && stage.output == PassedOn(c, result.stdout) && stage.stderr == stderr
            else
              && stage.result.stderr == stderr
              && (result.code != 0 ==> stage.result == ExecOutput(result.stdout, stderr, result.code) && st' == st)
              && (result.code == 0 ==> RedirectsOutput(c))
  {
    NoOutputs(c.redirs);
    assert RedirectsOutput(c) <==> Outputs(c.redirs) != [] by {
      assert forall k :: 0 <= k < |c.redirs| ==>
          (IsOutput(c.redirs[k]) <==> c.redirs[k].kind.OutputWrite? || c.redirs[k].kind.OutputAppend?);
    }
  }

  /** One command of a pipeline: it runs on what it is given; if it exits with 0 and its redirections
      succeed the pipeline goes on with what it passes on; if not, its own output and code are the
      result. What is refused before it runs leaves everything as it was. */
  lemma {:induction false} StageLaw<W>(ops: Ops<W>, st: State<W>, c: Command, input: Input, stderr: string)
    returns (given: Input)
    requires c.args != []
    ensures StageIs(ops, st, c, input, stderr, given)
  {
    var redirected := InputFrom(ops, st.world, c.args[0], c.redirs, input);
    GivenIs(ops, st.world, c.args[0], c.redirs, input);
    given := if redirected.Ok? then redirected.value else input;
    if redirected.Ok? && Preflight(ops, st.world, c.args[0], c.redirs).None? {
      var (world, result) := ops.run(st.world, c.args, given.text, given.available);
      var event := Ran(st.world, c, given, result.code, result.stdout);
      var ran := State(world, st.log + [event]);
      FinishIs(ops, ran, c, result, AppendOutputText(stderr, result.stderr));
      LogsItself(ops, ran, c, result, AppendOutputText(stderr, result.stderr));
    }
  }

  /** Standard error is gathered with a newline between two texts, and blank texts are dropped. */
  lemma {:induction false} GatheredText(base: string, addition: string)
    ensures var r := AppendOutputText(base, addition);
            && (Blank(base) ==> r == addition)
            && (!Blank(base) && Blank(addition) ==> r == base)
            && (!Blank(base) && !Blank(addition) ==>
                  (r == base + addition && base[|base| - 1] == '\n') || r == base + "\n" + addition)
  {
  }

  // ---------------------------------------------------------------- pipelines

  /** A command of a pipeline as it ran. */
  datatype Step<+W> = Step(before: State<W>, input: Input, stderr: string)

  /** The command went on, and left this to the next one. */
  ghost predicate FlowsTo<W>(ops: Ops<W>, c: Command, now: Step<W>, next: Step<W>)
  {
    c.args != [] &&
    var (st', stage) := RunStage(ops, now.before, c, now.input, now.stderr);
    stage.Continue? && next == Step(st', Input(stage.output, true), stage.stderr)
  }

  /** Each command reads what the one before it passed on. */
  ghost predicate IsFlow<W>(ops: Ops<W>, cs: seq<Command>, steps: seq<Step<W>>)
  {
    0 < |steps| <= |cs| + 1 && forall k :: 0 <= k < |steps| - 1 ==> FlowsTo(ops, cs[k], steps[k], steps[k + 1])
  }

  predicate TooLong(policy: Policy, text: string, stderr: string) {
    policy.maxOutputBytes > 0 && |Flattened(ExecOutput(text, stderr, 1))| > policy.maxOutputBytes
  }

  /** How a pipeline ends: behind its last command, at a command that stops it, or at an output that
      exceeds the limit, which is then cut. */
  ghost predicate EndsWith<W>(ops: Ops<W>, cs: seq<Command>, steps: seq<Step<W>>, st: State<W>, out: ExecOutput)
    requires 0 < |steps| <= |cs| + 1
  {
    var n := |steps| - 1;
    var end := steps[n];
    if n > 0 && TooLong(ops.policy, end.input.text, end.stderr) then
      st == end.before && out == TruncatedOutput(ExecOutput(end.input.text, end.stderr, 1), ops.policy.maxOutputBytes)
    else if n == |cs| then st == end.before && out == ExecOutput(end.input.text, end.stderr, 0)
    else cs[n].args != [] && RunStage(ops, end.before, cs[n], end.input, end.stderr) == (st, Stop(out))
  }

  /** A pipeline runs its commands in order, each on what the one before it passed on, until it ends;
      no output before the end exceeded the limit. */
  lemma {:induction false} PipelineFlow<W>(ops: Ops<W>, st: State<W>, cs: seq<Command>, input: Input, stderr: string)
    returns (steps: seq<Step<W>>)
    requires forall c :: c in cs ==> c.args != []
    ensures IsFlow(ops, cs, steps) && steps[0] == Step(st, input, stderr)
    ensures forall k :: 1 <= k < |steps| - 1 ==> !TooLong(ops.policy, steps[k].input.text, steps[k].stderr)
    ensures var (st', out) := PipelineFrom(ops, st, cs, input, stderr); EndsWith(ops, cs, steps, st', out)
    decreases |cs|
  {
    var first := Step(st, input, stderr);
    steps := [first];
    if cs != [] {
      assert cs[0] in cs;
      var (st', stage) := RunStage(ops, st, cs[0], input, stderr);
      if stage.Continue? {
        var second := Step(st', Input(stage.output, true), stage.stderr);
        if TooLong(ops.policy, stage.output, stage.stderr) {
          FlowGrows(ops, cs, first, [second]);
          steps := [first] + [second];
        } else {
          var rest := PipelineFlow(ops, st', cs[1..], Input(stage.output, true), stage.stderr);
          FlowGrows(ops, cs, first, rest);
          steps := [first] + rest;
        }
      }
    }
  }

  lemma {:induction false} FlowGrows<W>(ops: Ops<W>, cs: seq<Command>, first: Step<W>, rest: seq<Step<W>>)
    requires cs != [] && IsFlow(ops, cs[1..], rest) && FlowsTo(ops, cs[0], first, rest[0])
    ensures IsFlow(ops, cs, [first] + rest)
  {
    var steps := [first] + rest;
    forall k | 0 <= k < |steps| - 1
      ensures FlowsTo(ops, cs[k], steps[k], steps[k + 1])
    {
      if k > 0 {
        assert cs[1..][k - 1] == cs[k] && steps[k] == rest[k - 1] && steps[k + 1] == rest[k];
      }
    }
  }

  // ---------------------------------------------------------------- the log is the history

  /** The world after an event. */
  function WorldAfter<W>(ops: Ops<W>, e: Event<W>): W
  {
    match e
    case Ran(w, c, input, _, _) => ops.run(w, c.args, input.text, input.available).0
    case Wrote(w, path, payload) => ops.write(w, path, payload).0
    case Appended(w, path, payload) => if ops.append.Some? then ops.append.value(w, path, payload).0 else w
  }

  /** The events lead from one world to the other, each in the world that the one before it left, and
      each command's record is what it returned there. */
  ghost predicate IsHistory<W>(ops: Ops<W>, start: W, log: seq<Event<W>>, end: W)
  {
    if log == [] then end == start
    else
      var e := log[|log| - 1];
      && IsHistory(ops, start, log[..|log| - 1], e.world) && end == WorldAfter(ops, e)
      && (e.Ran? ==> var r := ops.run(e.world, e.command.args, e.input.text, e.input.available).1;
                     e.code == r.code && e.stdout == r.stdout)
  }

  lemma {:induction false} HistoryGrows<W>(ops: Ops<W>, start: W, st: State<W>, e: Event<W>)
    requires IsHistory(ops, start, st.log, st.world) && e.world == st.world
    requires e.Ran? ==> var r := ops.run(e.world, e.command.args, e.input.text, e.input.available).1;
                        e.code == r.code && e.stdout == r.stdout
    ensures IsHistory(ops, start, st.log + [e], WorldAfter(ops, e))
  {
    assert (st.log + [e])[..|st.log|] == st.log;
  }

  lemma {:induction false} WriteHistory<W>(ops: Ops<W>, start: W, st: State<W>, name: string, kind: RedirectKind,
                                           path: string, payload: string)
    requires IsHistory(ops, start, st.log, st.world)
    ensures var st' := Write(ops, st, name, kind, path, payload).0; IsHistory(ops, start, st'.log, st'.world)
  {
    if !(kind.OutputAppend? && ops.append.None?) {
      HistoryGrows(ops, start, st, if kind.OutputAppend? then Appended(st.world, path, payload)
                                   else Wrote(st.world, path, payload));
    }
  }

  lemma {:induction false} ApplyHistory<W>(ops: Ops<W>, start: W, st: State<W>, name: string, outs: seq<Redirect>,
                                           output: string)
    requires IsHistory(ops, start, st.log, st.world)
    ensures var st' := ApplyFrom(ops, st, name, outs, output).0; IsHistory(ops, start, st'.log, st'.world)
    decreases |outs|
  {
    if outs != [] {
      if EnginePath.IsNullDevice(outs[0].target) {
        ApplyHistory(ops, start, st, name, outs[1..], output);
      } else if ops.resolve(st.world, outs[0].target).Ok? {
        var path, payload := ops.resolve(st.world, outs[0].target).value, if |outs| == 1 then output else "";
        WriteHistory(ops, start, st, name, outs[0].kind, path, payload);
        ApplyHistory(ops, start, Write(ops, st, name, outs[0].kind, path, payload).0, name, outs[1..], output);
      }
    }
  }

  lemma {:induction false} StageHistory<W>(ops: Ops<W>, start: W, st: State<W>, c: Command, input: Input,
                                           stderr: string)
    requires c.args != [] && IsHistory(ops, start, st.log, st.world)
    ensures var st' := RunStage(ops, st, c, input, stderr).0; IsHistory(ops, start, st'.log, st'.world)
  {
    var redirected := InputFrom(ops, st.world, c.args[0], c.redirs, input);
    if redirected.Ok? && Preflight(ops, st.world, c.args[0], c.redirs).None? {
      var given := redirected.value;
      var (world, result) := ops.run(st.world, c.args, given.text, given.available);
      var event := Ran(st.world, c, given, result.code, result.stdout);
      HistoryGrows(ops, start, st, event);
      ApplyHistory(ops, start, State(world, st.log + [event]), c.args[0], Outputs(c.redirs), result.stdout);
    }
  }

  lemma {:induction false} PipelineHistory<W>(ops: Ops<W>, start: W, st: State<W>, cs: seq<Command>, input: Input,
                                              stderr: string)
    requires (forall c :: c in cs ==> c.args != []) && IsHistory(ops, start, st.log, st.world)
    ensures var st' := PipelineFrom(ops, st, cs, input, stderr).0; IsHistory(ops, start, st'.log, st'.world)
    decreases |cs|
  {
    if cs != [] {
      assert cs[0] in cs;
      StageHistory(ops, start, st, cs[0], input, stderr);
      var (st', stage) := RunStage(ops, st, cs[0], input, stderr);
      if stage.Continue? {
        PipelineHistory(ops, start, st', cs[1..], Input(stage.output, true), stage.stderr);
      }
    }
  }

  lemma {:induction false} LinksHistory<W>(ops: Ops<W>, start: W, st: State<W>, links: seq<ConditionalPipeline>,
                                           result: ExecOutput)
    requires RunnableLinks(links) && IsHistory(ops, start, st.log, st.world)
    ensures var st' := LinksFrom(ops, st, links, result).0; IsHistory(ops, start, st'.log, st'.world)
    decreases |links|
  {
    if links != [] {
      assert links[0] in links;
      if ShouldRun(links[0].op, result.code) {
        PipelineHistory(ops, start, st, links[0].pipeline.commands, Input("", false), "");
        var (st', next) := RunPipeline(ops, st, links[0].pipeline);
        LinksHistory(ops, start, st', links[1..], next);
      } else {
        LinksHistory(ops, start, st, links[1..], result);
      }
    }
  }

  lemma {:induction false} StatementsHistory<W>(ops: Ops<W>, start: W, st: State<W>, script: seq<Statement>,
                                                last: ExecOutput)
    requires RunnableScript(script) && IsHistory(ops, start, st.log, st.world)
    ensures var st' := StatementsFrom(ops, st, script, last).0; IsHistory(ops, start, st'.log, st'.world)
    decreases |script|
  {
    if script != [] {
      var s := script[0];
      assert s in script && s.pipelines[0] in s.pipelines;
      PipelineHistory(ops, start, st, s.pipelines[0].pipeline.commands, Input("", false), "");
      var (st', first) := RunPipeline(ops, st, s.pipelines[0].pipeline);
      LinksHistory(ops, start, st', s.pipelines[1..], first);
      var (st'', result) := RunStatement(ops, st, s);
      StatementsHistory(ops, start, st'', script[1..], result);
    }
  }

  /** The log of every run is its history: replaying the commands and writes it holds, on the inputs it
      holds, leads from the first world to the last. */
  lemma {:induction false} RunScriptHistory<W>(ops: Ops<W>, world: W, input: string)
    ensures var st' := RunScript(ops, State(world, []), input).0; IsHistory(ops, world, st'.log, st'.world)
  {
    var parsed := ScriptParser.Parse(input);
    if parsed.Ok? {
      ParsedIsRunnable(input);
      StatementsHistory(ops, world, State(world, []), parsed.value, ExecOutput("", "", 0));
    }
  }

  /** Without write permission a command that redirects output is refused with code 127 before it runs,
      provided that its input redirections succeed. */
  lemma {:induction false} RefusedWrite<W>(ops: Ops<W>, st: State<W>, c: Command, input: Input, stderr: string)
    requires c.args != [] && RedirectsOutput(c) && !ops.policy.mode.Full? && !ops.policy.mode.WriteLimited?
    requires InputFrom(ops, st.world, c.args[0], c.redirs, input).Ok?
    ensures RunStage(ops, st, c, input, stderr) ==
            (st, Stop(ExecOutput("redirection: write is not allowed by policy", stderr, 127)))
  {
    var k :| 0 <= k < |c.redirs| && (c.redirs[k].kind.OutputWrite? || c.redirs[k].kind.OutputAppend?);
    PreflightDenies(ops, st.world, c.args[0], c.redirs, k);
  }

  lemma {:induction false} PreflightDenies<W>(ops: Ops<W>, w: W, name: string, redirs: seq<Redirect>, k: nat)
    requires k < |redirs| && IsOutput(redirs[k]) && !AllowsWrite(ops.policy)
    ensures Preflight(ops, w, name, redirs) == Some(DENIED)
    decreases k
  {
    if k > 0 && !IsOutput(redirs[0]) {
      PreflightDenies(ops, w, name, redirs[1..], k - 1);
    }
  }

  // ---------------------------------------------------------------- what is refused

  /** The first input redirection that cannot be provided fails the command: with code 2 if its target
      does not resolve, with code 1 if it cannot be read. */
  lemma {:induction false} InputFailsFirst<W>(ops: Ops<W>, w: W, name: string, redirs: seq<Redirect>, piped: Input)
    returns (k: nat)
    requires InputFrom(ops, w, name, redirs, piped).Err?
    ensures k < |redirs| && redirs[k].kind.InputFile? && Provided(ops, w, redirs[k]).None?
    ensures forall j :: 0 <= j < k && IsInput(redirs[j]) ==> Provided(ops, w, redirs[j]).Some?
    ensures var path, f := ops.resolve(w, redirs[k].target), InputFrom(ops, w, name, redirs, piped).error;
            if path.Err? then f == Failure(name + ": " + path.error, 2)
            else ops.read(w, path.value).Err? && f == Failure(name + ": " + ops.read(w, path.value).error, 1)
    decreases |redirs|
  {
    if IsInput(redirs[0]) && Provided(ops, w, redirs[0]).None? {
      k := 0;
    } else {
      var next := if IsInput(redirs[0]) then Input(Provided(ops, w, redirs[0]).value, true) else piped;
      k := InputFailsFirst(ops, w, name, redirs[1..], next);
      k := k + 1;
      assert forall j :: 1 <= j < k ==> redirs[j] == redirs[1..][j - 1];
    }
  }

  /** What stands against an output redirection, before the command runs. */
  ghost predicate Hindered<W>(ops: Ops<W>, w: W, r: Redirect, path: Result<string, string>)
  {
    || path.Err?
    || (r.kind.OutputAppend? && ops.append.None?)
    || (ops.checkWrite.Some? && path.Ok? && ops.checkWrite.value(w, path.value) != Done)
  }

  ghost predicate OutputRefused<W>(ops: Ops<W>, w: W, r: Redirect)
  {
    (r.kind.OutputWrite? || r.kind.OutputAppend?) &&
    ((!ops.policy.mode.Full? && !ops.policy.mode.WriteLimited?) ||
     (!EnginePath.IsNullDevice(r.target) && Hindered(ops, w, r, ops.resolve(w, r.target))))
  }

  /** A command is refused before it runs exactly if one of its output redirections is. */
  lemma {:induction false} RefusedIff<W>(ops: Ops<W>, w: W, name: string, redirs: seq<Redirect>)
    ensures Preflight(ops, w, name, redirs).Some? <==>
              exists k :: 0 <= k < |redirs| && OutputRefused(ops, w, redirs[k])
    decreases |redirs|
  {
    if redirs != [] {
      RefusedIff(ops, w, name, redirs[1..]);
      assert PreflightOne(ops, w, name, redirs[0]).Some? <==> OutputRefused(ops, w, redirs[0]);
      if k :| 0 <= k < |redirs[1..]| && OutputRefused(ops, w, redirs[1..][k]) {
        assert OutputRefused(ops, w, redirs[k + 1]);
      }
      if k :| 1 <= k < |redirs| && OutputRefused(ops, w, redirs[k]) {
        assert redirs[1..][k - 1] == redirs[k];
      }
    }
  }

  /** What is said when the file system does not take an output. */
  predicate SaysWhy(status: IoStatus, name: string, append: bool, f: Failure)
  {
    match status
    case Done => false
    case Unsupported =>
      f == Failure(
             if append then "redirection: append is not supported" else "redirection: write is not supported", 127)
    case Failed(message) => f == Failure(name + ": " + message, 1)
  }

  ghost predicate RefusedWith<W>(ops: Ops<W>, w: W, name: string, r: Redirect, f: Failure)
  {
    var path := ops.resolve(w, r.target);
    if !ops.policy.mode.Full? && !ops.policy.mode.WriteLimited? then
      f == Failure("redirection: write is not allowed by policy", 127)
    else if path.Err? then f == Failure(name + ": " + path.error, 2)
    else if r.kind.OutputAppend? && ops.append.None? then f == Failure("redirection: append is not supported", 127)
    else ops.checkWrite.Some? && SaysWhy(ops.checkWrite.value(w, path.value), name, r.kind.OutputAppend?, f)
  }

  /** And the first one that is refused says why. */
  lemma {:induction false} RefusedFirst<W>(ops: Ops<W>, w: W, name: string, redirs: seq<Redirect>) returns (k: nat)
    requires Preflight(ops, w, name, redirs).Some?
    ensures k < |redirs| && OutputRefused(ops, w, redirs[k])
    ensures forall j :: 0 <= j < k ==> !OutputRefused(ops, w, redirs[j])
    ensures RefusedWith(ops, w, name, redirs[k], Preflight(ops, w, name, redirs).value)
    decreases |redirs|
  {
    assert PreflightOne(ops, w, name, redirs[0]).Some? <==> OutputRefused(ops, w, redirs[0]);
    if OutputRefused(ops, w, redirs[0]) {
      k := 0;
    } else {
      k := RefusedFirst(ops, w, name, redirs[1..]);
      k := k + 1;
      assert forall j :: 1 <= j < k ==> redirs[j] == redirs[1..][j - 1];
    }
  }

  /** The last output redirection of a command. */
  predicate LastOutput(redirs: seq<Redirect>, k: nat)
    requires k < |redirs|
  {
    IsOutput(redirs[k]) && forall j :: k < j < |redirs| ==> !IsOutput(redirs[j])
  }

  lemma {:induction false} LastOfOutputs(redirs: seq<Redirect>, k: nat)
    requires k < |redirs| && LastOutput(redirs, k)
    ensures Outputs(redirs) != [] && Outputs(redirs)[|Outputs(redirs)| - 1] == redirs[k]
    decreases |redirs|
  {
    if k > 0 {
      assert redirs[1..][k - 1] == redirs[k];
      assert forall j :: k - 1 < j < |redirs[1..]| ==> redirs[1..][j] == redirs[j + 1];
      LastOfOutputs(redirs[1..], k - 1);
    } else {
      assert forall j :: 0 <= j < |redirs[1..]| ==> redirs[1..][j] == redirs[j + 1];
      NoOutputs(redirs[1..]);
    }
  }

  /** An output is too large to redirect exactly if writing is limited, its last target is not the null
      device, and it has more bytes than a positive limit. */
  lemma {:induction false} OversizeIff(policy: Policy, redirs: seq<Redirect>, output: string, k: nat)
    requires k < |redirs| && LastOutput(redirs, k)
    ensures PreflightPayload(policy, redirs, output).Some? <==>
              policy.mode.WriteLimited? && policy.maxWriteBytes > 0 && |output| > policy.maxWriteBytes &&
              !EnginePath.IsNullDevice(redirs[k].target)
    ensures var f := PreflightPayload(policy, redirs, output);
            f.Some? ==> f.value == Failure("redirection: write exceeds limit (" + Decimal(policy.maxWriteBytes) +
                                           " bytes)", 1)
  {
    LastOfOutputs(redirs, k);
  }

  /** A write succeeds exactly if the file system says so; an append also needs to be supported. */
  lemma {:induction false} WriteSucceedsIff<W>(ops: Ops<W>, st: State<W>, name: string, kind: RedirectKind,
                                               path: string, payload: string)
    requires kind.OutputWrite? || kind.OutputAppend?
    ensures var failure := Write(ops, st, name, kind, path, payload).1;
            failure.None? <==>
              if kind.OutputAppend? then
                ops.append.Some? && ops.append.value(st.world, path, payload).1 == Done
              else ops.write(st.world, path, payload).1 == Done
    ensures var f := Write(ops, st, name, kind, path, payload).1;
            f.Some? && kind.OutputWrite? ==> SaysWhy(ops.write(st.world, path, payload).1, name, false, f.value)
    ensures var f := Write(ops, st, name, kind, path, payload).1;
            f.Some? && kind.OutputAppend? ==>
              if ops.append.None? then f.value == Failure("redirection: append is not supported", 127)
              else SaysWhy(ops.append.value(st.world, path, payload).1, name, true, f.value)
  {
  }

  /** Each redirection succeeds, or the command fails at the first one that does not. */
  ghost predicate AllWritten<W>(ops: Ops<W>, st: State<W>, name: string, outs: seq<Redirect>, output: string)
    decreases |outs|
  {
    outs != [] ==>
      if EnginePath.IsNullDevice(outs[0].target) then AllWritten(ops, st, name, outs[1..], output)
      else
        var path, payload := ops.resolve(st.world, outs[0].target), if |outs| == 1 then output else "";
        path.Ok? &&
        var (st', failure) := Write(ops, st, name, outs[0].kind, path.value, payload);
        failure.None? && AllWritten(ops, st', name, outs[1..], output)
  }

  lemma {:induction false} AppliesIff<W>(ops: Ops<W>, st: State<W>, name: string, outs: seq<Redirect>, output: string)
    ensures ApplyFrom(ops, st, name, outs, output).1.None? <==> AllWritten(ops, st, name, outs, output)
    decreases |outs|
  {
    if outs != [] {
      if EnginePath.IsNullDevice(outs[0].target) {
        AppliesIff(ops, st, name, outs[1..], output);
      } else if ops.resolve(st.world, outs[0].target).Ok? {
        var path, payload := ops.resolve(st.world, outs[0].target).value, if |outs| == 1 then output else "";
        AppliesIff(ops, Write(ops, st, name, outs[0].kind, path, payload).0, name, outs[1..], output);
      }
    }
  }

  /** A pipeline of more commands than a positive limit runs none of them. */
  lemma {:induction false} TooDeep<W>(ops: Ops<W>, st: State<W>, p: Pipeline)
    requires Runnable(p)
    ensures var limit := ops.policy.maxPipelineDepth;
            if limit > 0 && |p.commands| > limit then
              RunPipeline(ops, st, p) ==
                (st, ExecOutput("execute: pipeline depth exceeds limit (" + Decimal(limit) + ")", "", 1))
            else RunPipeline(ops, st, p) == PipelineFrom(ops, st, p.commands, Input("", false), "")
  {
  }

  // ---------------------------------------------------------------- limits in messages

  /** The number that some digits spell. */
  function Spelled(digits: string): int
  {
    if digits == "" then 0
    else Spelled(digits[..|digits| - 1]) * 10 + (digits[|digits| - 1] as int - '0' as int)
  }

  predicate AllDigits(s: string) {
    forall k :: 0 <= k < |s| ==> '0' <= s[k] <= '9'
  }

  /** A limit is shown in decimal, without leading zeros. */
  lemma {:induction false} DecimalIs(n: nat)
    ensures AllDigits(Decimal(n)) && Spelled(Decimal(n)) == n
    ensures Decimal(n) != "" && (n > 0 ==> Decimal(n)[0] != '0')
    decreases n
  {
    var last := ((n % 10) as char) + '0';
    assert '0' <= last <= '9' && last as int - '0' as int == n % 10;
    if n < 10 {
      assert Decimal(n) == [last] && [last][..0] == "";
      assert Spelled([last]) == Spelled("") * 10 + n;
    } else {
      DecimalIs(n / 10);
      var front := Decimal(n / 10);
      assert Decimal(n) == front + [last] && (front + [last])[..|front|] == front;
    }
  }
}

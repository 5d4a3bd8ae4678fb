/** Parsing a printed script gives back the script. */
module ScriptRoundTrip {
  import opened Prelude
  import opened ScriptIr
  import opened ScriptLexer
  import opened ScriptParser
  import opened ScriptPrinter
  import ScriptPrintLex

  // ---------------------------------------------------------------- tokens carry their bodies

  lemma {:induction false} PairedConcat(a: seq<Token>, b: seq<Token>)
    requires WellPaired(a)
    ensures WellPaired(a + b) == WellPaired(b)
    ensures Delims(a + b) == Delims(a) + Delims(b)
    decreases |a|
  {
    if a == [] {
      assert a + b == b;
    } else if a[0].kind.RedirHereDocToken? {
      assert (a + b)[2..] == a[2..] + b;
      PairedConcat(a[2..], b);
      ConcatAssociates([a[1].value], Delims(a[2..]), Delims(b));
    } else {
      assert (a + b)[1..] == a[1..] + b;
      PairedConcat(a[1..], b);
    }
  }

  lemma {:induction false} DocsConcat(a: seq<Doc>, b: seq<Doc>)
    ensures DocDelims(a + b) == DocDelims(a) + DocDelims(b)
    ensures DocBodies(a + b) == DocBodies(a) + DocBodies(b)
    decreases |a|
  {
    if a == [] {
      assert a + b == b;
    } else {
      assert (a + b)[1..] == a[1..] + b;
      DocsConcat(a[1..], b);
      ConcatAssociates([a[0].delim], DocDelims(a[1..]), DocDelims(b));
      ConcatAssociates([a[0].body], DocBodies(a[1..]), DocBodies(b));
    }
  }

  /** The `<<` operators of `ts` name the delimiters of `docs`, one to one and in order. */
  predicate Carries(ts: seq<Token>, docs: seq<Doc>)
  {
    WellPaired(ts) && Delims(ts) == DocDelims(docs) && forall d :: d in docs ==> ValidDoc(d)
  }

  lemma {:induction false} CarriesConcat(ts: seq<Token>, docs: seq<Doc>, us: seq<Token>, docs': seq<Doc>)
    requires Carries(ts, docs) && Carries(us, docs')
    ensures Carries(ts + us, docs + docs')
  {
    PairedConcat(ts, us);
    DocsConcat(docs, docs');
  }

  lemma {:induction false} CarriesOperator(kind: TokenKind)
    requires !kind.WordToken? && !kind.RedirHereDocToken?
    ensures Carries([OperatorToken(kind)], [])
  {
  }

  lemma {:induction false} ArgsCarry(args: seq<string>)
    ensures Carries(ArgTokens(args), [])
    decreases |args|
  {
    if args != [] {
      ArgsCarry(args[1..]);
      var first := [Token(WordToken, args[0])];
      assert Carries(first, []);
      CarriesConcat(first, [], ArgTokens(args[1..]), []);
      var none: seq<Doc> := [];
      assert none + none == none;
    }
  }

  lemma {:induction false} RedirCarries(r: Redirect)
    requires WellFormedRedirect(r)
    ensures Carries([OperatorToken(RedirTokenKind(r.kind)), Token(WordToken, r.target)],
                    if r.kind.InputHereDoc? then [Doc(r.target, r.hereDocBody)] else [])
  {
    var ts := [OperatorToken(RedirTokenKind(r.kind)), Token(WordToken, r.target)];
    assert ts[1..] == [Token(WordToken, r.target)] && ts[2..] == [];
    if r.kind.InputHereDoc? {
      assert Delims(ts) == [r.target];
      assert DocDelims([Doc(r.target, r.hereDocBody)]) == [r.target];
      assert WellPaired(ts);
      assert ValidDoc(Doc(r.target, r.hereDocBody));
    } else {
      PairedConcat(ts[..1], ts[1..]);
      assert ts == ts[..1] + ts[1..];
    }
  }

  lemma {:induction false} RedirsCarry(redirs: seq<Redirect>)
    requires forall r :: r in redirs ==> WellFormedRedirect(r)
    ensures Carries(RedirTokens(redirs), RedirDocs(redirs))
    decreases |redirs|
  {
    if redirs != [] {
      var r := redirs[0];
      RedirsCarry(redirs[1..]);
      RedirCarries(r);
      var doc := if r.kind.InputHereDoc? then [Doc(r.target, r.hereDocBody)] else [];
      CarriesConcat([OperatorToken(RedirTokenKind(r.kind)), Token(WordToken, r.target)], doc,
                    RedirTokens(redirs[1..]), RedirDocs(redirs[1..]));
      assert doc + RedirDocs(redirs[1..]) == RedirDocs(redirs);
    }
  }

  lemma {:induction false} CommandCarries(c: Command)
    requires WellFormedCommand(c)
    ensures Carries(CommandTokens(c), CommandDocs(c))
  {
    ArgsCarry(c.args);
    RedirsCarry(c.redirs);
    CarriesConcat(ArgTokens(c.args), [], RedirTokens(c.redirs), RedirDocs(c.redirs));
    assert [] + RedirDocs(c.redirs) == RedirDocs(c.redirs);
  }

  lemma {:induction false} PipedCarry(cs: seq<Command>)
    requires forall c :: c in cs ==> WellFormedCommand(c)
    ensures Carries(PipedTokens(cs), CommandsDocs(cs))
    decreases |cs|
  {
    if cs != [] {
      PipedCarry(cs[1..]);
      CommandCarries(cs[0]);
      CarriesOperator(PipeToken);
      CarriesConcat([OperatorToken(PipeToken)], [], CommandTokens(cs[0]), CommandDocs(cs[0]));
      assert [] + CommandDocs(cs[0]) == CommandDocs(cs[0]);
      CarriesConcat([OperatorToken(PipeToken)] + CommandTokens(cs[0]), CommandDocs(cs[0]),
                    PipedTokens(cs[1..]), CommandsDocs(cs[1..]));
    }
  }

  lemma {:induction false} PipelineCarries(p: Pipeline)
    requires WellFormedPipeline(p)
    ensures Carries(PipelineTokens(p), PipelineDocs(p))
  {
    CommandCarries(p.commands[0]);
    PipedCarry(p.commands[1..]);
    CarriesConcat(CommandTokens(p.commands[0]), CommandDocs(p.commands[0]),
                  PipedTokens(p.commands[1..]), CommandsDocs(p.commands[1..]));
  }

  function LinkOperator(p: ConditionalPipeline): Token
  {
    OperatorToken(if p.op == "&&" then AndToken else OrToken)
  }

  lemma {:induction false} ChainedCarry(ps: seq<ConditionalPipeline>)
    requires forall p :: p in ps ==> WellFormedLink(p)
    ensures Carries(ChainedTokens(ps), PipelinesDocs(ps))
    decreases |ps|
  {
    if ps != [] {
      ChainedCarry(ps[1..]);
      var p := ps[0].pipeline;
      assert WellFormedLink(ps[0]);
      PipelineCarries(p);
      CarriesOperator(LinkOperator(ps[0]).kind);
      CarriesConcat([LinkOperator(ps[0])], [], PipelineTokens(p), PipelineDocs(p));
      assert [] + PipelineDocs(p) == PipelineDocs(p);
      CarriesConcat([LinkOperator(ps[0])] + PipelineTokens(p), PipelineDocs(p),
                    ChainedTokens(ps[1..]), PipelinesDocs(ps[1..]));
    }
  }

  lemma {:induction false} StatementCarries(s: Statement)
    requires WellFormedStatement(s)
    ensures Carries(StatementTokens(s), StatementDocs(s))
  {
    var p := s.pipelines[0].pipeline;
    PipelineCarries(p);
    ChainedCarry(s.pipelines[1..]);
    CarriesConcat(PipelineTokens(p), PipelineDocs(p),
                  ChainedTokens(s.pipelines[1..]), PipelinesDocs(s.pipelines[1..]));
  }

  // ---------------------------------------------------------------- tokenizing a printed script

  lemma {:induction false} ScriptLexes(script: seq<Statement>, st: Lexed)
    requires st.pending == [] && forall s :: s in script ==> WellFormedStatement(s)
    ensures TokenizeFrom(Print(script), st) ==
            Ok(Lexed(st.tokens + ScriptTokens(script), st.bodies + DocBodies(ScriptDocs(script)), []))
    decreases |script|
  {
    if script == [] {
      assert st.tokens + [] == st.tokens && st.bodies + [] == st.bodies;
    } else {
      var ts, docs := StatementTokens(script[0]), StatementDocs(script[0]);
      var next := Lexed(st.tokens + (ts + [SEMI]), st.bodies + DocBodies(docs), []);
      StatementCarries(script[0]);
      ScriptPrintLex.LineLexes(ts, docs, Print(script[1..]), st);
      ScriptLexes(script[1..], next);
      ConcatAssociates(st.tokens, ts + [SEMI], ScriptTokens(script[1..]));
      DocsConcat(docs, ScriptDocs(script[1..]));
      ConcatAssociates(st.bodies, DocBodies(docs), DocBodies(ScriptDocs(script[1..])));
    }
  }

  // ---------------------------------------------------------------- parsing the tokens back

  /** Where a command ends: at the end, or at an operator that is not a redirection. */
  predicate CommandBoundary(ts: seq<Token>)
  {
    ts != [] ==> !ts[0].kind.WordToken? && !IsRedir(ts[0].kind)
  }

  lemma {:induction false} ArgsParse(args: seq<string>, after: seq<Token>, docs: seq<string>, cmd: Command)
    ensures CommandFrom(ArgTokens(args) + after, docs, cmd) ==
            CommandFrom(after, docs, cmd.(args := cmd.args + args))
    decreases |args|
  {
    if args == [] {
      assert ArgTokens(args) + after == after;
      assert cmd.args + args == cmd.args;
    } else {
      var ts := ArgTokens(args) + after;
      assert ts[1..] == ArgTokens(args[1..]) + after;
      ArgsParse(args[1..], after, docs, cmd.(args := cmd.args + [args[0]]));
      MoveHead(cmd.args, args);
    }
  }

  lemma {:induction false} RedirParses(r: Redirect, after: seq<Token>, docs: seq<string>)
    requires WellFormedRedirect(r)
    ensures RedirFrom([OperatorToken(RedirTokenKind(r.kind)), Token(WordToken, r.target)] + after,
                      (if r.kind.InputHereDoc? then [r.hereDocBody] else []) + docs) ==
            Ok(Parsed(r, after, docs))
  {
    var ts := [OperatorToken(RedirTokenKind(r.kind)), Token(WordToken, r.target)] + after;
    assert ts[2..] == after;
    assert ([r.hereDocBody] + docs)[1..] == docs;
    assert [] + docs == docs;
  }

  lemma {:induction false} RedirsParse(redirs: seq<Redirect>, after: seq<Token>, docs: seq<string>, cmd: Command)
    requires forall r :: r in redirs ==> WellFormedRedirect(r)
    ensures CommandFrom(RedirTokens(redirs) + after, DocBodies(RedirDocs(redirs)) + docs, cmd) ==
            CommandFrom(after, docs, cmd.(redirs := cmd.redirs + redirs))
    decreases |redirs|
  {
    if redirs == [] {
      assert RedirTokens(redirs) + after == after && DocBodies(RedirDocs(redirs)) + docs == docs;
      assert cmd.redirs + redirs == cmd.redirs;
    } else {
      var r := redirs[0];
      var head := [OperatorToken(RedirTokenKind(r.kind)), Token(WordToken, r.target)];
      var body := if r.kind.InputHereDoc? then [r.hereDocBody] else [];
      var ts, ds := RedirTokens(redirs[1..]) + after, DocBodies(RedirDocs(redirs[1..])) + docs;
      ConcatAssociates(head, RedirTokens(redirs[1..]), after);
      RedirBodiesSplit(redirs, docs);
      RedirParses(r, ts, ds);
      RedirStep(head + ts, body + ds, cmd, r, ts, ds);
      RedirsParse(redirs[1..], after, docs, cmd.(redirs := cmd.redirs + [r]));
      MoveHead(cmd.redirs, redirs);
    }
  }

  lemma {:induction false} RedirBodiesSplit(redirs: seq<Redirect>, docs: seq<string>)
    requires redirs != []
    ensures DocBodies(RedirDocs(redirs)) + docs ==
            (if redirs[0].kind.InputHereDoc? then [redirs[0].hereDocBody] else []) +
            (DocBodies(RedirDocs(redirs[1..])) + docs)
  {
    if redirs[0].kind.InputHereDoc? {
      var first := [Doc(redirs[0].target, redirs[0].hereDocBody)];
      assert DocBodies(first) == [redirs[0].hereDocBody];
      DocsConcat(first, RedirDocs(redirs[1..]));
      ConcatAssociates(DocBodies(first), DocBodies(RedirDocs(redirs[1..])), docs);
    }
  }

  lemma {:induction false} RedirStep(ts: seq<Token>, ds: seq<string>, cmd: Command, r: Redirect, ts': seq<Token>,
                                     ds': seq<string>)
    requires ts != [] && IsRedir(ts[0].kind) && RedirFrom(ts, ds) == Ok(Parsed(r, ts', ds'))
    ensures CommandFrom(ts, ds, cmd) == CommandFrom(ts', ds', cmd.(redirs := cmd.redirs + [r]))
  {
  }

  lemma {:induction false} CommandParses(c: Command, after: seq<Token>, docs: seq<string>)
    requires WellFormedCommand(c) && CommandBoundary(after)
    ensures CommandFrom(CommandTokens(c) + after, DocBodies(CommandDocs(c)) + docs, Command([], [])) ==
            Ok(Parsed(c, after, docs))
  {
    var ds := DocBodies(CommandDocs(c)) + docs;
    ConcatAssociates(ArgTokens(c.args), RedirTokens(c.redirs), after);
    ArgsParse(c.args, RedirTokens(c.redirs) + after, ds, Command([], []));
    assert [] + c.args == c.args;
    RedirsParse(c.redirs, after, docs, Command(c.args, []));
    assert [] + c.redirs == c.redirs;
  }

  /** Where a pipeline ends. */
  predicate PipelineBoundary(ts: seq<Token>)
  {
    CommandBoundary(ts) && (ts != [] ==> !ts[0].kind.PipeToken?)
  }

  lemma {:induction false} PipedBoundary(cs: seq<Command>, after: seq<Token>)
    requires PipelineBoundary(after)
    ensures CommandBoundary(PipedTokens(cs) + after)
  {
  }

  lemma {:induction false} PipedSplits(cs: seq<Command>, after: seq<Token>, docs: seq<string>)
    requires cs != []
    ensures PipedTokens(cs) + after ==
            [OperatorToken(PipeToken)] + (CommandTokens(cs[0]) + (PipedTokens(cs[1..]) + after))
    ensures DocBodies(CommandsDocs(cs)) + docs ==
            DocBodies(CommandDocs(cs[0])) + (DocBodies(CommandsDocs(cs[1..])) + docs)
  {
    var pipe := [OperatorToken(PipeToken)];
    ConcatAssociates(pipe + CommandTokens(cs[0]), PipedTokens(cs[1..]), after);
    ConcatAssociates(pipe, CommandTokens(cs[0]), PipedTokens(cs[1..]) + after);
    DocsConcat(CommandDocs(cs[0]), CommandsDocs(cs[1..]));
    ConcatAssociates(DocBodies(CommandDocs(cs[0])), DocBodies(CommandsDocs(cs[1..])), docs);
  }

  lemma {:induction false} PipeStep(ts: seq<Token>, ds: seq<string>, done: seq<Command>, c: Command, ts': seq<Token>,
                                    ds': seq<string>)
    requires CommandFrom(ts, ds, Command([], [])) == Ok(Parsed(c, ts', ds'))
    ensures PipelineFrom([OperatorToken(PipeToken)] + ts, ds, done) == PipelineFrom(ts', ds', done + [c])
  {
    assert ([OperatorToken(PipeToken)] + ts)[1..] == ts;
  }

  lemma {:induction false} PipedParse(cs: seq<Command>, after: seq<Token>, docs: seq<string>, done: seq<Command>)
    requires PipelineBoundary(after) && forall c :: c in cs ==> WellFormedCommand(c)
    ensures PipelineFrom(PipedTokens(cs) + after, DocBodies(CommandsDocs(cs)) + docs, done) ==
            Ok(Parsed(Pipeline(done + cs), after, docs))
    decreases |cs|
  {
    if cs == [] {
      assert PipedTokens(cs) + after == after && DocBodies(CommandsDocs(cs)) + docs == docs;
      assert done + cs == done;
    } else {
      var rest, ds := PipedTokens(cs[1..]) + after, DocBodies(CommandsDocs(cs[1..])) + docs;
      PipedSplits(cs, after, docs);
      PipedBoundary(cs[1..], after);
      CommandParses(cs[0], rest, ds);
      PipeStep(CommandTokens(cs[0]) + rest, DocBodies(CommandDocs(cs[0])) + ds, done, cs[0], rest, ds);
      PipedParse(cs[1..], after, docs, done + [cs[0]]);
      MoveHead(done, cs);
    }
  }

  lemma {:induction false} PipelineParses(p: Pipeline, after: seq<Token>, docs: seq<string>)
    requires WellFormedPipeline(p) && PipelineBoundary(after)
    ensures PipelineExpr(PipelineTokens(p) + after, DocBodies(PipelineDocs(p)) + docs) ==
            Ok(Parsed(p, after, docs))
  {
    var c, cs := p.commands[0], p.commands[1..];
    var rest, ds := PipedTokens(cs) + after, DocBodies(CommandsDocs(cs)) + docs;
    ConcatAssociates(CommandTokens(c), PipedTokens(cs), after);
    DocsConcat(CommandDocs(c), CommandsDocs(cs));
    ConcatAssociates(DocBodies(CommandDocs(c)), DocBodies(CommandsDocs(cs)), docs);
    PipedBoundary(cs, after);
    CommandParses(c, rest, ds);
    PipedParse(cs, after, docs, [c]);
    assert [c] + cs == p.commands;
  }

  lemma {:induction false} ChainedBoundary(ps: seq<ConditionalPipeline>, after: seq<Token>)
    requires after == [] || after[0].kind.SemiToken?
    ensures PipelineBoundary(ChainedTokens(ps) + after)
  {
  }

  lemma {:induction false} ChainedSplits(ps: seq<ConditionalPipeline>, after: seq<Token>, docs: seq<string>)
    requires ps != []
    ensures ChainedTokens(ps) + after ==
            [LinkOperator(ps[0])] + (PipelineTokens(ps[0].pipeline) + (ChainedTokens(ps[1..]) + after))
    ensures DocBodies(PipelinesDocs(ps)) + docs ==
            DocBodies(PipelineDocs(ps[0].pipeline)) + (DocBodies(PipelinesDocs(ps[1..])) + docs)
  {
    var op, p := [LinkOperator(ps[0])], ps[0].pipeline;
    ConcatAssociates(op + PipelineTokens(p), ChainedTokens(ps[1..]), after);
    ConcatAssociates(op, PipelineTokens(p), ChainedTokens(ps[1..]) + after);
    DocsConcat(PipelineDocs(p), PipelinesDocs(ps[1..]));
    ConcatAssociates(DocBodies(PipelineDocs(p)), DocBodies(PipelinesDocs(ps[1..])), docs);
  }

  lemma {:induction false} ChainStep(ts: seq<Token>, ds: seq<string>, done: seq<ConditionalPipeline>,
                                     p: ConditionalPipeline,
                  ts': seq<Token>, ds': seq<string>)
    requires WellFormedLink(p) && PipelineExpr(ts, ds) == Ok(Parsed(p.pipeline, ts', ds'))
    ensures StatementFrom([LinkOperator(p)] + ts, ds, done) == StatementFrom(ts', ds', done + [p])
  {
    assert ([LinkOperator(p)] + ts)[1..] == ts;
    assert p == ConditionalPipeline(LinkOperator(p).value, p.pipeline);
  }

  lemma {:induction false} ChainedParse(ps: seq<ConditionalPipeline>, after: seq<Token>, docs: seq<string>,
                                        done: seq<ConditionalPipeline>)
    requires (after == [] || after[0].kind.SemiToken?) && forall p :: p in ps ==> WellFormedLink(p)
    ensures StatementFrom(ChainedTokens(ps) + after, DocBodies(PipelinesDocs(ps)) + docs, done) ==
            Ok(Parsed(Statement(done + ps), after, docs))
    decreases |ps|
  {
    if ps == [] {
      assert ChainedTokens(ps) + after == after && DocBodies(PipelinesDocs(ps)) + docs == docs;
      assert done + ps == done;
    } else {
      var p := ps[0].pipeline;
      assert WellFormedLink(ps[0]);
      var rest, ds := ChainedTokens(ps[1..]) + after, DocBodies(PipelinesDocs(ps[1..])) + docs;
      ChainedSplits(ps, after, docs);
      ChainedBoundary(ps[1..], after);
      PipelineParses(p, rest, ds);
      ChainStep(PipelineTokens(p) + rest, DocBodies(PipelineDocs(p)) + ds, done, ps[0], rest, ds);
      ChainedParse(ps[1..], after, docs, done + [ps[0]]);
      MoveHead(done, ps);
    }
  }

  lemma {:induction false} StatementSplits(s: Statement, after: seq<Token>, docs: seq<string>)
    requires s.pipelines != []
    ensures StatementTokens(s) + after ==
            PipelineTokens(s.pipelines[0].pipeline) + (ChainedTokens(s.pipelines[1..]) + after)
    ensures DocBodies(StatementDocs(s)) + docs ==
            DocBodies(PipelineDocs(s.pipelines[0].pipeline)) + (DocBodies(PipelinesDocs(s.pipelines[1..])) + docs)
  {
    var p, ps := s.pipelines[0].pipeline, s.pipelines[1..];
    ConcatAssociates(PipelineTokens(p), ChainedTokens(ps), after);
    DocsConcat(PipelineDocs(p), PipelinesDocs(ps));
    ConcatAssociates(DocBodies(PipelineDocs(p)), DocBodies(PipelinesDocs(ps)), docs);
  }

  lemma {:induction false} StatementRebuilds(s: Statement)
    requires WellFormedStatement(s)
    ensures Statement([ConditionalPipeline("", s.pipelines[0].pipeline)] + s.pipelines[1..]) == s
  {
    assert s.pipelines[0] == ConditionalPipeline("", s.pipelines[0].pipeline);
    MoveHead([], s.pipelines);
  }

  lemma {:induction false} StatementParses(s: Statement, after: seq<Token>, docs: seq<string>)
    requires WellFormedStatement(s) && (after == [] || after[0].kind.SemiToken?)
    ensures StatementExpr(StatementTokens(s) + after, DocBodies(StatementDocs(s)) + docs) ==
            Ok(Parsed(s, after, docs))
  {
    var p, ps := s.pipelines[0].pipeline, s.pipelines[1..];
    StatementSplits(s, after, docs);
    ChainedBoundary(ps, after);
    PipelineParses(p, ChainedTokens(ps) + after, DocBodies(PipelinesDocs(ps)) + docs);
    ChainedParse(ps, after, docs, [ConditionalPipeline("", p)]);
    StatementRebuilds(s);
  }

  lemma {:induction false} StatementStartsWithWord(s: Statement)
    requires WellFormedStatement(s)
    ensures StatementTokens(s) != [] && StatementTokens(s)[0].kind.WordToken?
  {
    var c := s.pipelines[0].pipeline.commands[0];
    assert c in s.pipelines[0].pipeline.commands;
    assert ArgTokens(c.args)[0] == Token(WordToken, c.args[0]);
    assert CommandTokens(c)[0] == Token(WordToken, c.args[0]);
  }

  lemma {:induction false} ScriptSplits(script: seq<Statement>)
    requires script != []
    ensures ScriptTokens(script) == StatementTokens(script[0]) + ([SEMI] + ScriptTokens(script[1..]))
    ensures DocBodies(ScriptDocs(script)) == DocBodies(StatementDocs(script[0])) + DocBodies(ScriptDocs(script[1..]))
  {
    ConcatAssociates(StatementTokens(script[0]), [SEMI], ScriptTokens(script[1..]));
    DocsConcat(StatementDocs(script[0]), ScriptDocs(script[1..]));
  }

  lemma {:induction false} ScriptParses(script: seq<Statement>, done: seq<Statement>)
    requires |done| + |script| <= MAX_STATEMENTS && forall s :: s in script ==> WellFormedStatement(s)
    ensures StatementsFrom(ScriptTokens(script), DocBodies(ScriptDocs(script)), done) == Ok(done + script)
    decreases |script|
  {
    if script == [] {
      assert done + script == done;
    } else {
      var s, ts, ds := script[0], ScriptTokens(script[1..]), DocBodies(ScriptDocs(script[1..]));
      ScriptSplits(script);
      StatementStartsWithWord(s);
      StatementParses(s, [SEMI] + ts, ds);
      StatementThenSemi(ScriptTokens(script), DocBodies(ScriptDocs(script)), done, s, ts, ds);
      ScriptParses(script[1..], done + [s]);
      MoveHead(done, script);
    }
  }

  lemma {:induction false} StatementThenSemi(ts: seq<Token>, ds: seq<string>, done: seq<Statement>, s: Statement,
                          ts': seq<Token>, ds': seq<string>)
    requires ts != [] && !ts[0].kind.SemiToken? && |done| < MAX_STATEMENTS
    requires StatementExpr(ts, ds) == Ok(Parsed(s, [SEMI] + ts', ds'))
    ensures StatementsFrom(ts, ds, done) == StatementsFrom(ts', ds', done + [s])
  {
    assert ([SEMI] + ts')[1..] == ts';
    assert StatementsFrom(ts, ds, done) == StatementsFrom([SEMI] + ts', ds', done + [s]);
  }

  // ---------------------------------------------------------------- main result

  /** Every well-formed tree survives printing and parsing. */
  lemma {:induction false} ParsePrinted(script: seq<Statement>)
    requires WellFormed(script)
    ensures Parse(Print(script)) == Ok(script)
  {
    var start := Lexed([], [], []);
    ScriptLexes(script, start);
    assert [] + ScriptTokens(script) == ScriptTokens(script);
    assert [] + DocBodies(ScriptDocs(script)) == DocBodies(ScriptDocs(script));
    ScriptParses(script, []);
    assert [] + script == script;
  }
}

/** The grammar: which sequences of tokens are scripts, and which script each of them is. Arguments and
    redirections of a command come in any order, and statements are any number of `;` apart. */
module ScriptGrammar {
  import opened Prelude
  import opened ScriptIr
  import opened ScriptParser
  import opened ScriptLexemes
  import ScriptLexer

  // ---------------------------------------------------------------- layouts

  datatype Part = Arg(word: string) | Redir(redir: Redirect)

  /** The parts of each command of a pipeline. */
  type PipelineParts = seq<seq<Part>>

  datatype Link = Link(op: string, pipeline: PipelineParts)

  /** A statement, and the number of `;` before it. */
  datatype Layout = Layout(semis: nat, first: PipelineParts, links: seq<Link>)

  const SEMICOLON := Token(SemiToken, ";")
  const PIPE := Token(PipeToken, "|")

  function RedirSign(kind: RedirectKind): Token
  {
    match kind
    case InputFile => Token(RedirInToken, "<")
    case OutputWrite => Token(RedirOutToken, ">")
    case OutputAppend => Token(RedirAppendToken, ">>")
    case InputHereDoc => Token(RedirHereDocToken, "<<")
  }

  function PartTokens(part: Part): seq<Token>
  {
    match part
    case Arg(word) => [Token(WordToken, word)]
    case Redir(r) => [RedirSign(r.kind), Token(WordToken, r.target)]
  }

  function PartBodies(part: Part): seq<string>
  {
    if part.Redir? && part.redir.kind.InputHereDoc? then [part.redir.hereDocBody] else []
  }

  /** The tokens of the parts, and those after them. */
  function PartsTokens(parts: seq<Part>, after: seq<Token>): seq<Token>
  {
    if parts == [] then after else PartTokens(parts[0]) + PartsTokens(parts[1..], after)
  }

  function PartsBodies(parts: seq<Part>, after: seq<string>): seq<string>
  {
    if parts == [] then after else PartBodies(parts[0]) + PartsBodies(parts[1..], after)
  }

  function ArgsOf(parts: seq<Part>): seq<string>
  {
    if parts == [] then []
    else if parts[0].Arg? then [parts[0].word] + ArgsOf(parts[1..])
    else ArgsOf(parts[1..])
  }

  function RedirsOf(parts: seq<Part>): seq<Redirect>
  {
    if parts == [] then []
    else if parts[0].Redir? then [parts[0].redir] + RedirsOf(parts[1..])
    else RedirsOf(parts[1..])
  }

  /** Its arguments in order, and its redirections in order. */
  function CommandOf(parts: seq<Part>): Command
  {
    Command(ArgsOf(parts), RedirsOf(parts))
  }

  predicate GoodParts(parts: seq<Part>)
  {
    forall k :: 0 <= k < |parts| && parts[k].Redir? && !parts[k].redir.kind.InputHereDoc? ==>
      parts[k].redir.hereDocBody == ""
  }

  predicate GoodCommand(parts: seq<Part>)
  {
    GoodParts(parts) && ArgsOf(parts) != []
  }

  function PipedTokens(commands: PipelineParts, after: seq<Token>): seq<Token>
  {
    if commands == [] then after else [PIPE] + PartsTokens(commands[0], PipedTokens(commands[1..], after))
  }

  function CommandsBodies(commands: PipelineParts, after: seq<string>): seq<string>
  {
    if commands == [] then after else PartsBodies(commands[0], CommandsBodies(commands[1..], after))
  }

  function CommandsOf(commands: PipelineParts): seq<Command>
  {
    if commands == [] then [] else [CommandOf(commands[0])] + CommandsOf(commands[1..])
  }

  predicate GoodCommands(commands: PipelineParts)
  {
    forall k :: 0 <= k < |commands| ==> GoodCommand(commands[k])
  }

  predicate GoodPipeline(p: PipelineParts)
  {
    p != [] && GoodCommands(p)
  }

  function PipelineTokens(p: PipelineParts, after: seq<Token>): seq<Token>
  {
    if p == [] then after else PartsTokens(p[0], PipedTokens(p[1..], after))
  }

  function OpToken(op: string): Token
  {
    if op == "&&" then Token(AndToken, "&&") else Token(OrToken, "||")
  }

  function LinksTokens(links: seq<Link>, after: seq<Token>): seq<Token>
  {
    if links == [] then after
    else [OpToken(links[0].op)] + PipelineTokens(links[0].pipeline, LinksTokens(links[1..], after))
  }

  function LinksBodies(links: seq<Link>, after: seq<string>): seq<string>
  {
    if links == [] then after else CommandsBodies(links[0].pipeline, LinksBodies(links[1..], after))
  }

  function LinksOf(links: seq<Link>): seq<ConditionalPipeline>
  {
    if links == [] then []
    else [ConditionalPipeline(links[0].op, Pipeline(CommandsOf(links[0].pipeline)))] + LinksOf(links[1..])
  }

  predicate GoodLinks(links: seq<Link>)
  {
    forall k :: 0 <= k < |links| ==> (links[k].op == "&&" || links[k].op == "||") && GoodPipeline(links[k].pipeline)
  }

  function StatementTokens(l: Layout, after: seq<Token>): seq<Token>
  {
    PipelineTokens(l.first, LinksTokens(l.links, after))
  }

  function StatementBodies(l: Layout, after: seq<string>): seq<string>
  {
    CommandsBodies(l.first, LinksBodies(l.links, after))
  }

  function StatementOf(l: Layout): Statement
  {
    Statement([ConditionalPipeline("", Pipeline(CommandsOf(l.first)))] + LinksOf(l.links))
  }

  predicate GoodStatement(l: Layout)
  {
    GoodPipeline(l.first) && GoodLinks(l.links)
  }

  function Semis(n: nat, after: seq<Token>): seq<Token>
  {
    if n == 0 then after else [SEMICOLON] + Semis(n - 1, after)
  }

  /** The tokens of a script that ends in `last` more `;`. */
  function ScriptTokens(layouts: seq<Layout>, last: nat): seq<Token>
  {
    if layouts == [] then Semis(last, [])
    else Semis(layouts[0].semis, StatementTokens(layouts[0], ScriptTokens(layouts[1..], last)))
  }

  function ScriptBodies(layouts: seq<Layout>): seq<string>
  {
    if layouts == [] then [] else StatementBodies(layouts[0], ScriptBodies(layouts[1..]))
  }

  function ScriptOf(layouts: seq<Layout>): (r: seq<Statement>)
    ensures |r| == |layouts|
  {
    if layouts == [] then [] else [StatementOf(layouts[0])] + ScriptOf(layouts[1..])
  }

  /** Statements are good, and all but the first are behind a `;`. */
  predicate GoodScript(layouts: seq<Layout>)
  {
    (forall k :: 0 <= k < |layouts| ==> GoodStatement(layouts[k])) &&
    (forall k :: 1 <= k < |layouts| ==> layouts[k].semis > 0)
  }

  // ---------------------------------------------------------------- commands

  /** Where a command ends. */
  predicate EndsCommand(ts: seq<Token>)
  {
    ts == [] || ts[0].kind.PipeToken? || ts[0].kind.AndToken? || ts[0].kind.OrToken? || ts[0].kind.SemiToken?
  }

  lemma {:induction false} ArgParses(word: string, ts: seq<Token>, docs: seq<string>, cmd: Command)
    ensures CommandFrom([Token(WordToken, word)] + ts, docs, cmd) ==
            CommandFrom(ts, docs, cmd.(args := cmd.args + [word]))
  {
    assert ([Token(WordToken, word)] + ts)[1..] == ts;
  }

  lemma {:induction false} RedirParses(r: Redirect, ts: seq<Token>, docs: seq<string>, cmd: Command)
    requires GoodParts([Redir(r)])
    ensures CommandFrom(PartTokens(Redir(r)) + ts, PartBodies(Redir(r)) + docs, cmd) ==
            CommandFrom(ts, docs, cmd.(redirs := cmd.redirs + [r]))
  {
    var all, ds := PartTokens(Redir(r)) + ts, PartBodies(Redir(r)) + docs;
    assert all[2..] == ts && [Redir(r)][0] == Redir(r);
    assert r.kind.InputHereDoc? ==> ds[1..] == docs;
    assert !r.kind.InputHereDoc? ==> ds == docs;
    assert RedirFrom(all, ds) == Ok(Parsed(r, ts, docs));
  }

  lemma {:induction false} PartsParse(parts: seq<Part>, after: seq<Token>, docs: seq<string>, cmd: Command)
    requires GoodParts(parts)
    ensures CommandFrom(PartsTokens(parts, after), PartsBodies(parts, docs), cmd) ==
            CommandFrom(after, docs, Command(cmd.args + ArgsOf(parts), cmd.redirs + RedirsOf(parts)))
    decreases |parts|
  {
    if parts == [] {
      assert cmd.args + [] == cmd.args && cmd.redirs + [] == cmd.redirs;
    } else {
      var rest, ts, ds := parts[1..], PartsTokens(parts[1..], after), PartsBodies(parts[1..], docs);
      assert GoodParts([parts[0]]) by {
        assert [parts[0]][0] == parts[0];
      }
      match parts[0] {
        case Arg(word) =>
          assert [] + ds == ds;
          ArgParses(word, ts, ds, cmd);
          PartsParse(rest, after, docs, cmd.(args := cmd.args + [word]));
          ConcatAssociates(cmd.args, [word], ArgsOf(rest));
        case Redir(r) =>
          RedirParses(r, ts, ds, cmd);
          PartsParse(rest, after, docs, cmd.(redirs := cmd.redirs + [r]));
          ConcatAssociates(cmd.redirs, [r], RedirsOf(rest));
      }
    }
  }

  lemma {:induction false} CommandParses(parts: seq<Part>, after: seq<Token>, docs: seq<string>)
    requires GoodCommand(parts) && EndsCommand(after)
    ensures CommandFrom(PartsTokens(parts, after), PartsBodies(parts, docs), Command([], [])) ==
            Ok(Parsed(CommandOf(parts), after, docs))
  {
    PartsParse(parts, after, docs, Command([], []));
    assert [] + ArgsOf(parts) == ArgsOf(parts) && [] + RedirsOf(parts) == RedirsOf(parts);
  }

  // ---------------------------------------------------------------- pipelines and statements

  lemma {:induction false} PipedEnds(commands: PipelineParts, after: seq<Token>)
    requires EndsCommand(after)
    ensures EndsCommand(PipedTokens(commands, after))
  {
  }

  /** Where a pipeline ends. */
  predicate EndsPipeline(ts: seq<Token>)
  {
    EndsCommand(ts) && (ts != [] ==> !ts[0].kind.PipeToken?)
  }

  lemma {:induction false} PipeStep(ts: seq<Token>, docs: seq<string>, done: seq<Command>)
    ensures PipelineFrom([PIPE] + ts, docs, done) ==
            var c := CommandFrom(ts, docs, Command([], []));
            if c.Err? then Err(c.error) else PipelineFrom(c.value.tokens, c.value.docs, done + [c.value.value])
  {
    assert ([PIPE] + ts)[1..] == ts;
  }

  lemma {:induction false} PipedParse(commands: PipelineParts, after: seq<Token>, docs: seq<string>, done: seq<Command>)
    requires GoodCommands(commands) && EndsPipeline(after)
    ensures PipelineFrom(PipedTokens(commands, after), CommandsBodies(commands, docs), done) ==
            Ok(Parsed(Pipeline(done + CommandsOf(commands)), after, docs))
    decreases |commands|
  {
    if commands == [] {
      assert done + [] == done;
    } else {
      var parts, rest := commands[0], commands[1..];
      var ts, ds := PipedTokens(rest, after), CommandsBodies(rest, docs);
      PipedEnds(rest, after);
      CommandParses(parts, ts, ds);
      PipeStep(PartsTokens(parts, ts), PartsBodies(parts, ds), done);
      PipedParse(rest, after, docs, done + [CommandOf(parts)]);
      ConcatAssociates(done, [CommandOf(parts)], CommandsOf(rest));
    }
  }

  lemma {:induction false} PipelineParses(p: PipelineParts, after: seq<Token>, docs: seq<string>)
    requires GoodPipeline(p) && EndsPipeline(after)
    ensures PipelineExpr(PipelineTokens(p, after), CommandsBodies(p, docs)) ==
            Ok(Parsed(Pipeline(CommandsOf(p)), after, docs))
  {
    var ts, ds := PipedTokens(p[1..], after), CommandsBodies(p[1..], docs);
    PipedEnds(p[1..], after);
    CommandParses(p[0], ts, ds);
    PipedParse(p[1..], after, docs, [CommandOf(p[0])]);
  }

  predicate EndsStatement(ts: seq<Token>) {
    ts == [] || ts[0].kind.SemiToken?
  }

  lemma {:induction false} LinksEnd(links: seq<Link>, after: seq<Token>)
    requires EndsStatement(after)
    ensures EndsPipeline(LinksTokens(links, after))
  {
  }

  lemma {:induction false} LinkStep(op: string, ts: seq<Token>, docs: seq<string>, done: seq<ConditionalPipeline>)
    requires op == "&&" || op == "||"
    ensures StatementFrom([OpToken(op)] + ts, docs, done) ==
            var p := PipelineExpr(ts, docs);
            if p.Err? then Err(p.error)
            else StatementFrom(p.value.tokens, p.value.docs, done + [ConditionalPipeline(op, p.value.value)])
  {
    assert ([OpToken(op)] + ts)[1..] == ts;
  }

  lemma {:induction false} LinksParse(links: seq<Link>, after: seq<Token>, docs: seq<string>,
                                      done: seq<ConditionalPipeline>)
    requires GoodLinks(links) && EndsStatement(after)
    ensures StatementFrom(LinksTokens(links, after), LinksBodies(links, docs), done) ==
            Ok(Parsed(Statement(done + LinksOf(links)), after, docs))
    decreases |links|
  {
    if links == [] {
      assert done + [] == done;
    } else {
      var link, rest := links[0], links[1..];
      var ts, ds := LinksTokens(rest, after), LinksBodies(rest, docs);
      var made := ConditionalPipeline(link.op, Pipeline(CommandsOf(link.pipeline)));
      LinksEnd(rest, after);
      PipelineParses(link.pipeline, ts, ds);
      LinkStep(link.op, PipelineTokens(link.pipeline, ts), CommandsBodies(link.pipeline, ds), done);
      LinksParse(rest, after, docs, done + [made]);
      ConcatAssociates(done, [made], LinksOf(rest));
    }
  }

  lemma {:induction false} StatementParses(l: Layout, after: seq<Token>, docs: seq<string>)
    requires GoodStatement(l) && EndsStatement(after)
    ensures StatementExpr(StatementTokens(l, after), StatementBodies(l, docs)) ==
            Ok(Parsed(StatementOf(l), after, docs))
  {
    LinksEnd(l.links, after);
    PipelineParses(l.first, LinksTokens(l.links, after), LinksBodies(l.links, docs));
    LinksParse(l.links, after, docs, [ConditionalPipeline("", Pipeline(CommandsOf(l.first)))]);
  }

  // ---------------------------------------------------------------- scripts

  lemma {:induction false} SemisSkip(n: nat, ts: seq<Token>, docs: seq<string>, done: seq<Statement>)
    ensures StatementsFrom(Semis(n, ts), docs, done) == StatementsFrom(ts, docs, done)
    decreases n
  {
    if n > 0 {
      var rest := Semis(n - 1, ts);
      assert ([SEMICOLON] + rest)[1..] == rest;
      SemisSkip(n - 1, ts, docs, done);
    }
  }

  lemma {:induction false} StatementBegins(l: Layout, after: seq<Token>)
    requires GoodStatement(l)
    ensures var ts := StatementTokens(l, after); ts != [] && !ts[0].kind.SemiToken?
  {
    var parts := l.first[0];
    assert GoodCommand(parts) && parts != [];
  }

  lemma {:induction false} ScriptEnds(layouts: seq<Layout>, last: nat)
    requires layouts == [] || layouts[0].semis > 0
    ensures EndsStatement(ScriptTokens(layouts, last))
  {
  }

  lemma {:induction false} StatementStep(ts: seq<Token>, docs: seq<string>, done: seq<Statement>)
    requires ts != [] && !ts[0].kind.SemiToken? && |done| < MAX_STATEMENTS
    ensures StatementsFrom(ts, docs, done) ==
            var s := StatementExpr(ts, docs);
            if s.Err? then Err(s.error) else StatementsFrom(s.value.tokens, s.value.docs, done + [s.value.value])
  {
  }

  lemma {:induction false} LaidOutParses(layouts: seq<Layout>, last: nat, done: seq<Statement>)
    requires GoodScript(layouts) && |done| + |layouts| <= MAX_STATEMENTS
    ensures StatementsFrom(ScriptTokens(layouts, last), ScriptBodies(layouts), done) == Ok(done + ScriptOf(layouts))
    decreases |layouts|
  {
    if layouts == [] {
      SemisSkip(last, [], [], done);
      assert done + [] == done;
    } else {
      var l, rest := layouts[0], layouts[1..];
      var after, docs := ScriptTokens(rest, last), ScriptBodies(rest);
      assert GoodScript(rest) && (rest == [] || rest[0].semis > 0);
      ScriptEnds(rest, last);
      SemisSkip(l.semis, StatementTokens(l, after), StatementBodies(l, docs), done);
      StatementBegins(l, after);
      StatementParses(l, after, docs);
      StatementStep(StatementTokens(l, after), StatementBodies(l, docs), done);
      LaidOutParses(rest, last, done + [StatementOf(l)]);
      ConcatAssociates(done, [StatementOf(l)], ScriptOf(rest));
    }
  }

  // ---------------------------------------------------------------- what parses is so laid out

  /** A word, or an operator with its own text. */
  predicate ProperToken(t: Token)
  {
    match t.kind
    case WordToken => true
    case PipeToken => t.value == "|"
    case AndToken => t.value == "&&"
    case OrToken => t.value == "||"
    case SemiToken => t.value == ";"
    case RedirInToken => t.value == "<"
    case RedirOutToken => t.value == ">"
    case RedirAppendToken => t.value == ">>"
    case RedirHereDocToken => t.value == "<<"
  }

  predicate Proper(ts: seq<Token>) {
    forall k :: 0 <= k < |ts| ==> ProperToken(ts[k])
  }

  lemma {:induction false} RedirOf(ts: seq<Token>, docs: seq<string>) returns (r: Redirect)
    requires Proper(ts) && ts != [] && IsRedir(ts[0].kind) && RedirFrom(ts, docs).Ok?
    ensures var p := RedirFrom(ts, docs).value;
            && r == p.value && GoodParts([Redir(r)]) && Proper(p.tokens)
            && ts == PartTokens(Redir(r)) + p.tokens && docs == PartBodies(Redir(r)) + p.docs
  {
    r := RedirFrom(ts, docs).value.value;
    assert ts == [ts[0], ts[1]] + ts[2..];
    assert docs != [] ==> docs == [docs[0]] + docs[1..];
    assert ProperToken(ts[0]);
  }

  lemma {:induction false} PartsOf(ts: seq<Token>, docs: seq<string>, cmd: Command) returns (parts: seq<Part>)
    requires Proper(ts) && CommandFrom(ts, docs, cmd).Ok?
    ensures var p := CommandFrom(ts, docs, cmd).value;
            && GoodParts(parts) && EndsCommand(p.tokens) && Proper(p.tokens)
            && ts == PartsTokens(parts, p.tokens) && docs == PartsBodies(parts, p.docs)
            && p.value == Command(cmd.args + ArgsOf(parts), cmd.redirs + RedirsOf(parts)) && p.value.args != []
    decreases |ts|
  {
    parts := [];
    assert cmd.args + [] == cmd.args && cmd.redirs + [] == cmd.redirs;
    if ts != [] && ts[0].kind.WordToken? {
      var others := PartsOf(ts[1..], docs, cmd.(args := cmd.args + [ts[0].value]));
      parts := [Arg(ts[0].value)] + others;
      assert parts[1..] == others && ts == [ts[0]] + ts[1..];
      ConcatAssociates(cmd.args, [ts[0].value], ArgsOf(others));
    } else if ts != [] && IsRedir(ts[0].kind) {
      var r := RedirOf(ts, docs);
      var p := RedirFrom(ts, docs).value;
      var others := PartsOf(p.tokens, p.docs, cmd.(redirs := cmd.redirs + [r]));
      parts := [Redir(r)] + others;
      assert parts[1..] == others && [Redir(r)][0] == Redir(r);
      ConcatAssociates(cmd.redirs, [r], RedirsOf(others));
    }
  }

  lemma {:induction false} CommandLaid(ts: seq<Token>, docs: seq<string>) returns (parts: seq<Part>)
    requires Proper(ts) && CommandFrom(ts, docs, Command([], [])).Ok?
    ensures var p := CommandFrom(ts, docs, Command([], [])).value;
            && GoodCommand(parts) && EndsCommand(p.tokens) && Proper(p.tokens) && p.value == CommandOf(parts)
            && ts == PartsTokens(parts, p.tokens) && docs == PartsBodies(parts, p.docs)
  {
    parts := PartsOf(ts, docs, Command([], []));
    assert [] + ArgsOf(parts) == ArgsOf(parts) && [] + RedirsOf(parts) == RedirsOf(parts);
  }

  lemma {:induction false} PipedLaid(ts: seq<Token>, docs: seq<string>, done: seq<Command>)
    returns (commands: PipelineParts)
    requires Proper(ts) && EndsCommand(ts) && PipelineFrom(ts, docs, done).Ok?
    ensures var p := PipelineFrom(ts, docs, done).value;
            && GoodCommands(commands) && EndsPipeline(p.tokens) && Proper(p.tokens)
            && p.value == Pipeline(done + CommandsOf(commands))
            && ts == PipedTokens(commands, p.tokens) && docs == CommandsBodies(commands, p.docs)
    decreases |ts|
  {
    commands := [];
    assert done + [] == done;
    if ts != [] && ts[0].kind.PipeToken? {
      var parts := CommandLaid(ts[1..], docs);
      var c := CommandFrom(ts[1..], docs, Command([], [])).value;
      var others := PipedLaid(c.tokens, c.docs, done + [c.value]);
      commands := [parts] + others;
      assert ProperToken(ts[0]) && ts == [PIPE] + ts[1..];
      assert commands[1..] == others;
      ConcatAssociates(done, [c.value], CommandsOf(others));
    }
  }

  lemma {:induction false} PipelineLaid(ts: seq<Token>, docs: seq<string>) returns (commands: PipelineParts)
    requires Proper(ts) && PipelineExpr(ts, docs).Ok?
    ensures var p := PipelineExpr(ts, docs).value;
            && GoodPipeline(commands) && EndsPipeline(p.tokens) && Proper(p.tokens)
            && p.value == Pipeline(CommandsOf(commands))
            && ts == PipelineTokens(commands, p.tokens) && docs == CommandsBodies(commands, p.docs)
  {
    var parts := CommandLaid(ts, docs);
    var c := CommandFrom(ts, docs, Command([], [])).value;
    var others := PipedLaid(c.tokens, c.docs, [c.value]);
    commands := [parts] + others;
    assert commands[1..] == others;
  }

  lemma {:induction false} LinksLaid(ts: seq<Token>, docs: seq<string>, done: seq<ConditionalPipeline>)
    returns (links: seq<Link>)
    requires Proper(ts) && EndsPipeline(ts) && StatementFrom(ts, docs, done).Ok?
    ensures var p := StatementFrom(ts, docs, done).value;
            && GoodLinks(links) && EndsStatement(p.tokens) && Proper(p.tokens)
            && p.value == Statement(done + LinksOf(links))
            && ts == LinksTokens(links, p.tokens) && docs == LinksBodies(links, p.docs)
    decreases |ts|
  {
    links := [];
    assert done + [] == done;
    if ts != [] && IsAndOr(ts[0].kind) {
      var commands := PipelineLaid(ts[1..], docs);
      var p := PipelineExpr(ts[1..], docs).value;
      var made := ConditionalPipeline(ts[0].value, p.value);
      var others := LinksLaid(p.tokens, p.docs, done + [made]);
      links := [Link(ts[0].value, commands)] + others;
      assert ProperToken(ts[0]) && ts == [OpToken(ts[0].value)] + ts[1..];
      assert links[1..] == others;
      ConcatAssociates(done, [made], LinksOf(others));
    }
  }

  lemma {:induction false} StatementLaid(ts: seq<Token>, docs: seq<string>) returns (l: Layout)
    requires Proper(ts) && StatementExpr(ts, docs).Ok?
    ensures var p := StatementExpr(ts, docs).value;
            && GoodStatement(l) && EndsStatement(p.tokens) && Proper(p.tokens) && p.value == StatementOf(l)
            && l.semis == 0 && ts == StatementTokens(l, p.tokens) && docs == StatementBodies(l, p.docs)
  {
    var first := PipelineLaid(ts, docs);
    var p := PipelineExpr(ts, docs).value;
    var links := LinksLaid(p.tokens, p.docs, [ConditionalPipeline("", p.value)]);
    l := Layout(0, first, links);
  }

  /** The leading `;`, and the rest. */
  lemma {:induction false} SemisLaid(ts: seq<Token>) returns (n: nat, rest: seq<Token>)
    requires Proper(ts)
    ensures ts == Semis(n, rest) && Proper(rest) && (rest != [] ==> !rest[0].kind.SemiToken?)
    ensures EndsStatement(ts) && rest != [] ==> n > 0
    decreases |ts|
  {
    n, rest := 0, ts;
    if ts != [] && ts[0].kind.SemiToken? {
      assert ProperToken(ts[0]) && ts == [SEMICOLON] + ts[1..];
      n, rest := SemisLaid(ts[1..]);
      n := n + 1;
    }
  }

  lemma {:induction false} ScriptLaid(ts: seq<Token>, docs: seq<string>, done: seq<Statement>)
    returns (layouts: seq<Layout>, last: nat)
    requires Proper(ts) && StatementsFrom(ts, docs, done).Ok? && |done| <= MAX_STATEMENTS
    ensures GoodScript(layouts) && |done| + |layouts| <= MAX_STATEMENTS
    ensures ts == ScriptTokens(layouts, last) && docs == ScriptBodies(layouts)
    ensures StatementsFrom(ts, docs, done).value == done + ScriptOf(layouts)
    ensures EndsStatement(ts) && layouts != [] ==> layouts[0].semis > 0
    decreases |ts|
  {
    var n, rest := SemisLaid(ts);
    SemisSkip(n, rest, docs, done);
    layouts, last := [], n;
    assert done + [] == done;
    if rest != [] {
      var l := StatementLaid(rest, docs);
      var s := StatementExpr(rest, docs).value;
      SemisShorter(n, rest);
      var others;
      others, last := ScriptLaid(s.tokens, s.docs, done + [s.value]);
      layouts := [l.(semis := n)] + others;
      assert layouts[1..] == others;
      assert StatementOf(l.(semis := n)) == StatementOf(l);
      ConcatAssociates(done, [s.value], ScriptOf(others));
    }
  }

  lemma {:induction false} SemisShorter(n: nat, rest: seq<Token>)
    ensures |rest| <= |Semis(n, rest)|
    decreases n
  {
    if n > 0 {
      SemisShorter(n - 1, rest);
    }
  }

  // ---------------------------------------------------------------- texts and scripts

  lemma {:induction false} SignIsProper(sign: string)
    ensures ProperToken(SignToken(sign))
  {
  }

  lemma {:induction false} LexIsProper(lex: Lex)
    ensures Proper(LexTokens(lex))
  {
    if lex.ASign? {
      SignIsProper(lex.sign);
    }
  }

  lemma {:induction false} ProperConcat(a: seq<Token>, b: seq<Token>)
    requires Proper(a) && Proper(b)
    ensures Proper(a + b)
  {
  }

  lemma {:induction false} SpelledAreProper(elements: seq<Element>)
    ensures Proper(AllTokens(elements))
    decreases |elements|
  {
    if elements != [] {
      LexIsProper(elements[0].lex);
      SpelledAreProper(elements[1..]);
      ProperConcat(LexTokens(elements[0].lex), AllTokens(elements[1..]));
    }
  }

  /** The text is spelled and laid out as this script. */
  ghost predicate Denotes(input: string, script: seq<Statement>)
  {
    exists layouts, last: nat ::
      && GoodScript(layouts) && |layouts| <= MAX_STATEMENTS && script == ScriptOf(layouts)
      && SpelledAs(input, ScriptTokens(layouts, last), ScriptBodies(layouts))
  }

  lemma {:induction false} TokensOfSpelling(input: string)
    requires ScriptLexer.Tokenize(input).Ok?
    ensures var lexed := ScriptLexer.Tokenize(input).value;
            SpelledAs(input, lexed.tokens, lexed.bodies) && Proper(lexed.tokens)
  {
    var start := ScriptLexer.Lexed([], [], []);
    var elements, tail := TokenizedIsSpelled(input, start);
    SpelledTokenizes(elements, tail, start);
    assert [] + AllTokens(elements) == AllTokens(elements) && [] + AllBodies(elements) == AllBodies(elements);
    SpelledAreProper(elements);
  }

  /** Parsing, for every text: the result is a script exactly if the text is spelled and laid out as
      that script. */
  lemma {:induction false} ParseIff(input: string, script: seq<Statement>)
    ensures Parse(input) == Ok(script) <==> Denotes(input, script)
  {
    if Parse(input) == Ok(script) {
      TokensOfSpelling(input);
      var lexed := ScriptLexer.Tokenize(input).value;
      var layouts, last := ScriptLaid(lexed.tokens, lexed.bodies, []);
      assert [] + ScriptOf(layouts) == ScriptOf(layouts);
    }
    if Denotes(input, script) {
      var layouts, last: nat :|
        && GoodScript(layouts) && |layouts| <= MAX_STATEMENTS && script == ScriptOf(layouts)
        && SpelledAs(input, ScriptTokens(layouts, last), ScriptBodies(layouts));
      TokenizeIff(input, ScriptTokens(layouts, last), ScriptBodies(layouts));
      LaidOutParses(layouts, last, []);
      assert [] + ScriptOf(layouts) == ScriptOf(layouts);
    }
  }
}

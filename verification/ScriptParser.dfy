/** The recursive-descent parser. It threads two cursors: one over the tokens, one over the
    heredoc bodies. The functions consume the two lists from the front; the methods are the
    program's index-based loops, proved to agree with them. */
module ScriptParser {
  import opened Prelude
  import opened ScriptIr
  import ScriptLexer

  /** A parsed piece of syntax with the tokens and the bodies left after it. */
  datatype Parsed<+T> = Parsed(value: T, tokens: seq<Token>, docs: seq<string>)

  predicate IsRedir(kind: TokenKind) {
    kind.RedirInToken? || kind.RedirOutToken? || kind.RedirAppendToken? || kind.RedirHereDocToken?
  }

  predicate IsAndOr(kind: TokenKind) {
    kind.AndToken? || kind.OrToken?
  }

  function RedirectionKind(kind: TokenKind): RedirectKind
    requires IsRedir(kind)
  {
    match kind
    case RedirInToken => InputFile
    case RedirOutToken => OutputWrite
    case RedirAppendToken => OutputAppend
    case RedirHereDocToken => InputHereDoc
  }

  // ---------------------------------------------------------------- simple commands

  /** One redirection: the operator, its target word and, for a heredoc, its body. */
  function RedirFrom(ts: seq<Token>, docs: seq<string>): (r: Result<Parsed<Redirect>, ScriptError>)
    requires ts != [] && IsRedir(ts[0].kind)
    ensures r.Ok? ==> |r.value.tokens| < |ts|
  {
    if |ts| < 2 || !ts[1].kind.WordToken? then Err(RedirectionRequiresTarget(ts[0].value))
    else if !ts[0].kind.RedirHereDocToken? then
      Ok(Parsed(Redirect(RedirectionKind(ts[0].kind), ts[1].value, ""), ts[2..], docs))
    else if docs == [] then Err(MissingHereDocBody(ts[1].value))
    else Ok(Parsed(Redirect(InputHereDoc, ts[1].value, docs[0]), ts[2..], docs[1..]))
  }

  function CommandFrom(ts: seq<Token>, docs: seq<string>, cmd: Command)
    : (r: Result<Parsed<Command>, ScriptError>)
    ensures r.Ok? ==> |r.value.tokens| <= |ts|
    ensures r.Ok? && cmd.args == [] ==> |r.value.tokens| < |ts|
    decreases |ts|
  {
    if ts == [] then
      if cmd.args == [] then Err(MissingCommand) else Ok(Parsed(cmd, ts, docs))
    else if ts[0].kind.WordToken? then
      CommandFrom(ts[1..], docs, cmd.(args := cmd.args + [ts[0].value]))
    else if IsRedir(ts[0].kind) then
      var redir :- RedirFrom(ts, docs);
      CommandFrom(redir.tokens, redir.docs, cmd.(redirs := cmd.redirs + [redir.value]))
    else if cmd.args == [] then Err(MissingCommandBefore(ts[0].value))
    else Ok(Parsed(cmd, ts, docs))
  }

  method ParseRedirection(tokens: seq<Token>, tokenIdx: nat, docs: seq<string>, docIdx: nat)
    returns (r: Result<(Redirect, nat, nat), ScriptError>)
    requires tokenIdx < |tokens| && docIdx <= |docs| && IsRedir(tokens[tokenIdx].kind)
    ensures r.Err? ==> RedirFrom(tokens[tokenIdx..], docs[docIdx..]) == Err(r.error)
    ensures r.Ok? ==> tokenIdx < r.value.1 <= |tokens| && docIdx <= r.value.2 <= |docs|
    ensures r.Ok? ==> RedirFrom(tokens[tokenIdx..], docs[docIdx..]) ==
                      Ok(Parsed(r.value.0, tokens[r.value.1..], docs[r.value.2..]))
  {
    var i := tokenIdx + 1;
    if i >= |tokens| || tokens[i].kind != WordToken {
      return Err(RedirectionRequiresTarget(tokens[tokenIdx].value));
    }
    var target := tokens[i].value;
    assert tokens[tokenIdx..][2..] == tokens[i + 1..];
    var kind := RedirectionKind(tokens[tokenIdx].kind);
    if kind == InputHereDoc {
      if docIdx >= |docs| {
        return Err(MissingHereDocBody(target));
      }
      assert docs[docIdx..][1..] == docs[docIdx + 1..];
      return Ok((Redirect(kind, target, docs[docIdx]), i + 1, docIdx + 1));
    }
    return Ok((Redirect(kind, target, ""), i + 1, docIdx));
  }

  method ParseSimpleCommand(tokens: seq<Token>, start: nat, docs: seq<string>, docStart: nat)
    returns (r: Result<(Command, nat, nat), ScriptError>)
    requires start <= |tokens| && docStart <= |docs|
    ensures r.Err? ==> CommandFrom(tokens[start..], docs[docStart..], Command([], [])) == Err(r.error)
    ensures r.Ok? ==> start < r.value.1 <= |tokens| && docStart <= r.value.2 <= |docs|
    ensures r.Ok? ==> CommandFrom(tokens[start..], docs[docStart..], Command([], [])) ==
                      Ok(Parsed(r.value.0, tokens[r.value.1..], docs[r.value.2..]))
  {
    var command := Command([], []);
    var tokenIdx, docIdx := start, docStart;
    ghost var goal := CommandFrom(tokens[start..], docs[docStart..], command);
    while tokenIdx < |tokens|
      invariant start <= tokenIdx <= |tokens| && docStart <= docIdx <= |docs|
      invariant goal == CommandFrom(tokens[tokenIdx..], docs[docIdx..], command)
    {
      var token := tokens[tokenIdx];
      assert tokens[tokenIdx..][1..] == tokens[tokenIdx + 1..];
      if token.kind == WordToken {
        command := command.(args := command.args + [token.value]);
        tokenIdx := tokenIdx + 1;
      } else if IsRedir(token.kind) {
        var redir := ParseRedirection(tokens, tokenIdx, docs, docIdx);
        if redir.Err? {
          return Err(redir.error);
        }
        command := command.(redirs := command.redirs + [redir.value.0]);
        tokenIdx, docIdx := redir.value.1, redir.value.2;
      } else {
        if |command.args| == 0 {
          return Err(MissingCommandBefore(token.value));
        }
        return Ok((command, tokenIdx, docIdx));
      }
    }
    if |command.args| == 0 {
      return Err(MissingCommand);
    }
    return Ok((command, tokenIdx, docIdx));
  }

  // ---------------------------------------------------------------- pipelines

  /** The commands after the first one, each behind a `|`. */
  function PipelineFrom(ts: seq<Token>, docs: seq<string>, commands: seq<Command>)
    : (r: Result<Parsed<Pipeline>, ScriptError>)
    ensures r.Ok? ==> |r.value.tokens| <= |ts|
    decreases |ts|
  {
    if ts == [] || !ts[0].kind.PipeToken? then Ok(Parsed(Pipeline(commands), ts, docs))
    else
      var command :- CommandFrom(ts[1..], docs, Command([], []));
      PipelineFrom(command.tokens, command.docs, commands + [command.value])
  }

  function PipelineExpr(ts: seq<Token>, docs: seq<string>): (r: Result<Parsed<Pipeline>, ScriptError>)
    ensures r.Ok? ==> |r.value.tokens| < |ts|
  {
    var command :- CommandFrom(ts, docs, Command([], []));
    PipelineFrom(command.tokens, command.docs, [command.value])
  }

  method ParsePipelineExpr(tokens: seq<Token>, start: nat, docs: seq<string>, docStart: nat)
    returns (r: Result<(Pipeline, nat, nat), ScriptError>)
    requires start <= |tokens| && docStart <= |docs|
    ensures r.Err? ==> PipelineExpr(tokens[start..], docs[docStart..]) == Err(r.error)
    ensures r.Ok? ==> start < r.value.1 <= |tokens| && docStart <= r.value.2 <= |docs|
    ensures r.Ok? ==> PipelineExpr(tokens[start..], docs[docStart..]) ==
                      Ok(Parsed(r.value.0, tokens[r.value.1..], docs[r.value.2..]))
  {
    ghost var goal := PipelineExpr(tokens[start..], docs[docStart..]);
    var command := ParseSimpleCommand(tokens, start, docs, docStart);
    if command.Err? {
      return Err(command.error);
    }
    var commands := [command.value.0];
    var tokenIdx, docIdx := command.value.1, command.value.2;
    while tokenIdx < |tokens| && tokens[tokenIdx].kind == PipeToken
      invariant start < tokenIdx <= |tokens| && docStart <= docIdx <= |docs|
      invariant goal == PipelineFrom(tokens[tokenIdx..], docs[docIdx..], commands)
    {
      assert tokens[tokenIdx..][1..] == tokens[tokenIdx + 1..];
      command := ParseSimpleCommand(tokens, tokenIdx + 1, docs, docIdx);
      if command.Err? {
        return Err(command.error);
      }
      commands := commands + [command.value.0];
      tokenIdx, docIdx := command.value.1, command.value.2;
    }
    return Ok((Pipeline(commands), tokenIdx, docIdx));
  }

  // ---------------------------------------------------------------- statements

  /** The pipelines after the first one, each behind `&&` or `||`. */
  function StatementFrom(ts: seq<Token>, docs: seq<string>, pipelines: seq<ConditionalPipeline>)
    : (r: Result<Parsed<Statement>, ScriptError>)
    ensures r.Ok? ==> |r.value.tokens| <= |ts|
    decreases |ts|
  {
    if ts == [] || !IsAndOr(ts[0].kind) then
      if ts != [] && !ts[0].kind.SemiToken? then Err(UnexpectedToken(ts[0].value))
      else Ok(Parsed(Statement(pipelines), ts, docs))
    else
      var pipeline :- PipelineExpr(ts[1..], docs);
      StatementFrom(pipeline.tokens, pipeline.docs,
                    pipelines + [ConditionalPipeline(ts[0].value, pipeline.value)])
  }

  function StatementExpr(ts: seq<Token>, docs: seq<string>): (r: Result<Parsed<Statement>, ScriptError>)
    ensures r.Ok? ==> |r.value.tokens| < |ts|
  {
    var first :- PipelineExpr(ts, docs);
    StatementFrom(first.tokens, first.docs, [ConditionalPipeline("", first.value)])
  }

  function StatementsFrom(ts: seq<Token>, docs: seq<string>, statements: seq<Statement>)
    : Result<seq<Statement>, ScriptError>
    decreases |ts|
  {
    if ts == [] then
      if docs != [] then Err(HereDocsNotConsumed) else Ok(statements)
    else if ts[0].kind.SemiToken? then StatementsFrom(ts[1..], docs, statements)
    else
      var statement :- StatementExpr(ts, docs);
      if |statements| + 1 > MAX_STATEMENTS then Err(TooManyStatements)
      else StatementsFrom(statement.tokens, statement.docs, statements + [statement.value])
  }

  method ParseStatement(tokens: seq<Token>, start: nat, docs: seq<string>, docStart: nat)
    returns (r: Result<(Statement, nat, nat), ScriptError>)
    requires start <= |tokens| && docStart <= |docs|
    ensures r.Err? ==> StatementExpr(tokens[start..], docs[docStart..]) == Err(r.error)
    ensures r.Ok? ==> start < r.value.1 <= |tokens| && docStart <= r.value.2 <= |docs|
    ensures r.Ok? ==> StatementExpr(tokens[start..], docs[docStart..]) ==
                      Ok(Parsed(r.value.0, tokens[r.value.1..], docs[r.value.2..]))
  {
    ghost var goal := StatementExpr(tokens[start..], docs[docStart..]);
    var first := ParsePipelineExpr(tokens, start, docs, docStart);
    if first.Err? {
      return Err(first.error);
    }
    var pipelines := [ConditionalPipeline("", first.value.0)];
    var tokenIdx, docIdx := first.value.1, first.value.2;
    while tokenIdx < |tokens| && IsAndOr(tokens[tokenIdx].kind)
      invariant start < tokenIdx <= |tokens| && docStart <= docIdx <= |docs|
      invariant goal == StatementFrom(tokens[tokenIdx..], docs[docIdx..], pipelines)
    {
      var opToken := tokens[tokenIdx];
      assert tokens[tokenIdx..][1..] == tokens[tokenIdx + 1..];
      var pipeline := ParsePipelineExpr(tokens, tokenIdx + 1, docs, docIdx);
      if pipeline.Err? {
        return Err(pipeline.error);
      }
      pipelines := pipelines + [ConditionalPipeline(opToken.value, pipeline.value.0)];
      tokenIdx, docIdx := pipeline.value.1, pipeline.value.2;
    }
    if tokenIdx < |tokens| && tokens[tokenIdx].kind != SemiToken {
      return Err(UnexpectedToken(tokens[tokenIdx].value));
    }
    return Ok((Statement(pipelines), tokenIdx, docIdx));
  }

  method ParseStatements(tokens: seq<Token>, docs: seq<string>)
    returns (r: Result<seq<Statement>, ScriptError>)
    ensures r == StatementsFrom(tokens, docs, [])
  {
    var statements: seq<Statement> := [];
    var tokenIdx: nat, docIdx: nat := 0, 0;
    ghost var goal := StatementsFrom(tokens, docs, []);
    assert tokens[0..] == tokens && docs[0..] == docs;
    while tokenIdx < |tokens|
      invariant tokenIdx <= |tokens| && docIdx <= |docs|
      invariant goal == StatementsFrom(tokens[tokenIdx..], docs[docIdx..], statements)
      decreases |tokens| - tokenIdx
    {
      while tokenIdx < |tokens| && tokens[tokenIdx].kind == SemiToken
        invariant tokenIdx <= |tokens|
        invariant goal == StatementsFrom(tokens[tokenIdx..], docs[docIdx..], statements)
      {
        assert tokens[tokenIdx..][1..] == tokens[tokenIdx + 1..];
        tokenIdx := tokenIdx + 1;
      }
      if tokenIdx >= |tokens| {
        break;
      }
      var statement := ParseStatement(tokens, tokenIdx, docs, docIdx);
      if statement.Err? {
        return Err(statement.error);
      }
      statements := statements + [statement.value.0];
      tokenIdx, docIdx := statement.value.1, statement.value.2;
      if |statements| > MAX_STATEMENTS {
        return Err(TooManyStatements);
      }
    }
    if docIdx != |docs| {
      return Err(HereDocsNotConsumed);
    }
    return Ok(statements);
  }

  // ---------------------------------------------------------------- whole scripts

  function Parse(input: string): Result<seq<Statement>, ScriptError>
  {
    var lexed :- ScriptLexer.Tokenize(input);
    StatementsFrom(lexed.tokens, lexed.bodies, [])
  }

  method ParseScript(input: string) returns (r: Result<seq<Statement>, ScriptError>)
    ensures r == Parse(input)
  {
    var lexed := ScriptLexer.TokenizeScript(input);
    if lexed.Err? {
      return Err(lexed.error);
    }
    r := ParseStatements(lexed.value.0, lexed.value.1);
  }
}

/** A printer for the syntax tree, and the syntax trees it can print. Nothing in the program
    prints scripts; the printer is the reference the parser is measured against.
    Every printing function takes the text that comes after what it prints. */
module ScriptPrinter {
  import opened ScriptIr
  import ScriptLexer

  // ---------------------------------------------------------------- words and tokens

  /** Inside single quotes this dialect still honours backslash escapes. */
  function EscapeByte(c: char): string
  {
    if c == '\'' || c == '\\' then ['\\', c] else [c]
  }

  function Escape(word: string, after: string): string
  {
    if word == "" then after else EscapeByte(word[0]) + Escape(word[1..], after)
  }

  function Quote(word: string, after: string): string
  {
    "'" + Escape(word, "'" + after)
  }

  function PrintToken(t: Token, after: string): string
  {
    if t.kind.WordToken? then Quote(t.value, " " + after) else t.value + (" " + after)
  }

  function PrintTokens(ts: seq<Token>, after: string): string
  {
    if ts == [] then after else PrintToken(ts[0], PrintTokens(ts[1..], after))
  }

  // ---------------------------------------------------------------- heredoc bodies

  datatype Doc = Doc(delim: string, body: string)

  /** A line ending in CR is printed with a second CR, for the scanner to trim. */
  function ProtectCr(line: string): string
  {
    if line != "" && line[|line| - 1] == '\r' then line + "\r" else line
  }

  function PrintLine(line: string, after: string): string
  {
    ProtectCr(line) + ("\n" + after)
  }

  function PrintLines(body: string, after: string): string
  {
    if body == "" then after
    else
      var n := ScriptLexer.LineEnd(body);
      PrintLine(body[..n], if n < |body| then PrintLines(body[n + 1..], after) else after)
  }

  function PrintDoc(doc: Doc, after: string): string
  {
    PrintLines(doc.body, PrintLine(doc.delim, after))
  }

  function PrintDocs(docs: seq<Doc>, after: string): string
  {
    if docs == [] then after else PrintDoc(docs[0], PrintDocs(docs[1..], after))
  }

  /** Every line of `body` ends in a newline and differs from `delim`. */
  predicate LinesAvoid(body: string, delim: string)
  {
    body != "" ==>
      var n := ScriptLexer.LineEnd(body);
      n < |body| && body[..n] != delim && LinesAvoid(body[n + 1..], delim)
  }

  /** The size check runs before a line's newline is appended, hence the extra byte. */
  predicate ValidDoc(doc: Doc)
  {
    && (forall k :: 0 <= k < |doc.delim| ==> doc.delim[k] != '\n')
    && |doc.body| <= MAX_HEREDOC_BYTES + 1 && LinesAvoid(doc.body, doc.delim)
  }

  // ---------------------------------------------------------------- token sequences

  predicate Canonical(t: Token)
  {
    t.kind.WordToken? || t.value == OperatorText(t.kind)
  }

  /** Operators carry their own text and each `<<` stands directly before a word. */
  predicate WellPaired(ts: seq<Token>)
  {
    ts != [] ==>
      Canonical(ts[0]) &&
      if ts[0].kind.RedirHereDocToken? then |ts| >= 2 && ts[1].kind.WordToken? && WellPaired(ts[2..])
      else WellPaired(ts[1..])
  }

  /** The words standing after a `<<`, in order. */
  function Delims(ts: seq<Token>): seq<string>
  {
    if ts == [] then []
    else if ts[0].kind.RedirHereDocToken? && |ts| >= 2 then [ts[1].value] + Delims(ts[2..])
    else Delims(ts[1..])
  }

  function DocDelims(docs: seq<Doc>): (r: seq<string>)
    ensures |r| == |docs|
  {
    if docs == [] then [] else [docs[0].delim] + DocDelims(docs[1..])
  }

  function DocBodies(docs: seq<Doc>): (r: seq<string>)
    ensures |r| == |docs|
  {
    if docs == [] then [] else [docs[0].body] + DocBodies(docs[1..])
  }

  // ---------------------------------------------------------------- the tokens of a tree

  function RedirTokenKind(kind: RedirectKind): TokenKind
  {
    match kind
    case InputFile => RedirInToken
    case InputHereDoc => RedirHereDocToken
    case OutputWrite => RedirOutToken
    case OutputAppend => RedirAppendToken
  }

  function OperatorToken(kind: TokenKind): Token
  {
    Token(kind, OperatorText(kind))
  }

  function ArgTokens(args: seq<string>): seq<Token>
  {
    if args == [] then [] else [Token(WordToken, args[0])] + ArgTokens(args[1..])
  }

  function RedirTokens(redirs: seq<Redirect>): seq<Token>
  {
    if redirs == [] then []
    else [OperatorToken(RedirTokenKind(redirs[0].kind)), Token(WordToken, redirs[0].target)]
         + RedirTokens(redirs[1..])
  }

  function RedirDocs(redirs: seq<Redirect>): seq<Doc>
  {
    if redirs == [] then []
    else if redirs[0].kind.InputHereDoc? then
      [Doc(redirs[0].target, redirs[0].hereDocBody)] + RedirDocs(redirs[1..])
    else RedirDocs(redirs[1..])
  }

  function CommandTokens(c: Command): seq<Token>
  {
    ArgTokens(c.args) + RedirTokens(c.redirs)
  }

  function CommandDocs(c: Command): seq<Doc>
  {
    RedirDocs(c.redirs)
  }

  /** Commands after the first, each behind a `|`. */
  function PipedTokens(cs: seq<Command>): seq<Token>
  {
    if cs == [] then [] else [OperatorToken(PipeToken)] + CommandTokens(cs[0]) + PipedTokens(cs[1..])
  }

  function CommandsDocs(cs: seq<Command>): seq<Doc>
  {
    if cs == [] then [] else CommandDocs(cs[0]) + CommandsDocs(cs[1..])
  }

  function PipelineTokens(p: Pipeline): seq<Token>
  {
    if p.commands == [] then [] else CommandTokens(p.commands[0]) + PipedTokens(p.commands[1..])
  }

  function PipelineDocs(p: Pipeline): seq<Doc>
  {
    CommandsDocs(p.commands)
  }

  /** Pipelines after the first, each behind its `&&` or `||`. */
  function ChainedTokens(ps: seq<ConditionalPipeline>): seq<Token>
  {
    if ps == [] then []
    else [OperatorToken(if ps[0].op == "&&" then AndToken else OrToken)] + PipelineTokens(ps[0].pipeline)
         + ChainedTokens(ps[1..])
  }

  function PipelinesDocs(ps: seq<ConditionalPipeline>): seq<Doc>
  {
    if ps == [] then [] else PipelineDocs(ps[0].pipeline) + PipelinesDocs(ps[1..])
  }

  function StatementTokens(s: Statement): seq<Token>
  {
    if s.pipelines == [] then []
    else PipelineTokens(s.pipelines[0].pipeline) + ChainedTokens(s.pipelines[1..])
  }

  function StatementDocs(s: Statement): seq<Doc>
  {
    PipelinesDocs(s.pipelines)
  }

  function ScriptTokens(script: seq<Statement>): seq<Token>
  {
    if script == [] then [] else StatementTokens(script[0]) + [SEMI] + ScriptTokens(script[1..])
  }

  function ScriptDocs(script: seq<Statement>): seq<Doc>
  {
    if script == [] then [] else StatementDocs(script[0]) + ScriptDocs(script[1..])
  }

  /** One line per statement, its heredoc bodies below it. */
  function PrintStatement(s: Statement, after: string): string
  {
    PrintTokens(StatementTokens(s), "\n" + PrintDocs(StatementDocs(s), after))
  }

  function Print(script: seq<Statement>): string
  {
    if script == [] then "" else PrintStatement(script[0], Print(script[1..]))
  }

  // ---------------------------------------------------------------- well-formed trees

  predicate WellFormedRedirect(r: Redirect)
  {
    if r.kind.InputHereDoc? then ValidDoc(Doc(r.target, r.hereDocBody)) else r.hereDocBody == ""
  }

  predicate WellFormedCommand(c: Command)
  {
    c.args != [] && forall r :: r in c.redirs ==> WellFormedRedirect(r)
  }

  predicate WellFormedPipeline(p: Pipeline)
  {
    p.commands != [] && forall c :: c in p.commands ==> WellFormedCommand(c)
  }

  predicate WellFormedLink(p: ConditionalPipeline)
  {
    (p.op == "&&" || p.op == "||") && WellFormedPipeline(p.pipeline)
  }

  predicate WellFormedStatement(s: Statement)
  {
    && s.pipelines != []
    && s.pipelines[0].op == ""
    && WellFormedPipeline(s.pipelines[0].pipeline)
    && forall p :: p in s.pipelines[1..] ==> WellFormedLink(p)
  }

  predicate WellFormed(script: seq<Statement>)
  {
    |script| <= MAX_STATEMENTS && forall s :: s in script ==> WellFormedStatement(s)
  }
}

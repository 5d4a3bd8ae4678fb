/** The token and syntax-tree types shared by the tokenizer, the parser and the runner.
    A Go string is a sequence of bytes; the model writes one `char` per byte. */
module ScriptIr {
  datatype TokenKind =
    | WordToken
    | PipeToken
    | AndToken
    | OrToken
    | SemiToken
    | RedirInToken
    | RedirOutToken
    | RedirAppendToken
    | RedirHereDocToken

  datatype Token = Token(kind: TokenKind, value: string)

  datatype RedirectKind = InputFile | InputHereDoc | OutputWrite | OutputAppend

  datatype Redirect = Redirect(kind: RedirectKind, target: string, hereDocBody: string)

  datatype Command = Command(args: seq<string>, redirs: seq<Redirect>)

  datatype Pipeline = Pipeline(commands: seq<Command>)

  datatype ConditionalPipeline = ConditionalPipeline(op: string, pipeline: Pipeline)

  datatype Statement = Statement(pipelines: seq<ConditionalPipeline>)

  /** One constructor per error message of the tokenizer and the parser. */
  datatype ScriptError =
    | UnsupportedAmpersand
    | DelimiterRequired
    | InvalidDelimiter(cause: ScriptError)
    | UnterminatedHereDoc(delim: string)
    | HereDocTooLarge
    | ExpectedToken
    | UnclosedQuote
    | RedirectionRequiresTarget(op: string)
    | MissingHereDocBody(delim: string)
    | MissingCommandBefore(text: string)
    | MissingCommand
    | UnexpectedToken(text: string)
    | TooManyStatements
    | HereDocsNotConsumed

  const MAX_HEREDOC_BYTES: nat := 0x40_0000
  const MAX_STATEMENTS: nat := 1024

  const SEMI := Token(SemiToken, ";")

  /** The text the tokenizer stores with an operator token. */
  function OperatorText(kind: TokenKind): string
  {
    match kind
    case WordToken => ""
    case PipeToken => "|"
    case AndToken => "&&"
    case OrToken => "||"
    case SemiToken => ";"
    case RedirInToken => "<"
    case RedirOutToken => ">"
    case RedirAppendToken => ">>"
    case RedirHereDocToken => "<<"
  }
}

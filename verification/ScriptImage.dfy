/** What the tokenizer and the parser can produce: heredoc operators and bodies stay paired
    through both, so every parsed script is well-formed and some errors cannot happen. */
module ScriptImage {
  import opened Prelude
  import opened ScriptIr
  import opened ScriptLexer
  import opened ScriptParser
  import opened ScriptPrinter
  import opened ScriptRoundTrip
  import ScriptPrintLex

  // ---------------------------------------------------------------- heredoc bodies

  lemma {:induction false} LineThenLines(line: string, others: string, delim: string)
    requires ScriptPrintLex.OneLine(line) && line != delim && LinesAvoid(others, delim)
    ensures LinesAvoid(line + ("\n" + others), delim)
  {
    var body := line + ("\n" + others);
    ScriptPrintLex.LineEndOfLine(line, others);
    assert body[..|line|] == line && body[|line| + 1..] == others;
  }

  /** The first line of the input. */
  function Line(s: string): string
  {
    TrimCr(s[..LineEnd(s)])
  }

  lemma {:induction false} LineIsOneLine(s: string)
    ensures ScriptPrintLex.OneLine(Line(s))
  {
  }

  lemma {:induction false} DelimiterLine(s: string, delim: string, acc: string)
    requires s != "" && Line(s) == delim
    ensures HereDocFrom(s, delim, acc).Ok? && HereDocFrom(s, delim, acc).value.text == acc
  {
  }

  lemma {:induction false} OtherLine(s: string, delim: string, acc: string)
    requires s != "" && Line(s) != delim && HereDocFrom(s, delim, acc).Ok?
    ensures LineEnd(s) < |s| && |acc + Line(s)| <= MAX_HEREDOC_BYTES
    ensures HereDocFrom(s, delim, acc) == HereDocFrom(s[LineEnd(s) + 1..], delim, acc + Line(s) + "\n")
  {
  }

  lemma {:induction false} Regroup(acc: string, line: string, others: string)
    ensures acc + line + "\n" + others == acc + (line + ("\n" + others))
  {
  }

  /** A body that was read consists of whole lines, none of them the delimiter. */
  lemma {:induction false} ReadBodyIsValid(s: string, delim: string, acc: string) returns (body: string)
    requires HereDocFrom(s, delim, acc).Ok? && |acc| <= MAX_HEREDOC_BYTES + 1
    ensures HereDocFrom(s, delim, acc).value.text == acc + body
    ensures |acc + body| <= MAX_HEREDOC_BYTES + 1
    ensures ScriptPrintLex.OneLine(delim) && LinesAvoid(body, delim)
    decreases |s|
  {
    var line := Line(s);
    LineIsOneLine(s);
    if line == delim {
      DelimiterLine(s, delim, acc);
      body := "";
      assert acc + body == acc;
    } else {
      OtherLine(s, delim, acc);
      var others := ReadBodyIsValid(s[LineEnd(s) + 1..], delim, acc + line + "\n");
      body := line + ("\n" + others);
      LineThenLines(line, others, delim);
      Regroup(acc, line, others);
    }
  }

  lemma {:induction false} ReadBodiesAreValid(s: string, pending: seq<string>) returns (docs: seq<Doc>)
    requires BodiesFrom(s, pending).Ok?
    ensures DocDelims(docs) == pending && DocBodies(docs) == BodiesFrom(s, pending).value.texts
    ensures forall d :: d in docs ==> ValidDoc(d)
    decreases |pending|
  {
    if pending == [] {
      docs := [];
    } else {
      var first := HereDocFrom(s, pending[0], "").value;
      var body := ReadBodyIsValid(s, pending[0], "");
      assert "" + body == body;
      var others := ReadBodiesAreValid(first.rest, pending[1..]);
      docs := [Doc(pending[0], body)] + others;
      assert docs[1..] == others;
    }
  }

  // ---------------------------------------------------------------- the tokenizer

  /** `read` holds the bodies read so far; the delimiters still owed a body are pending. */
  predicate Owes(st: Lexed, read: seq<Doc>)
  {
    && WellPaired(st.tokens)
    && Delims(st.tokens) == DocDelims(read) + st.pending
    && DocBodies(read) == st.bodies
    && forall d :: d in read ==> ValidDoc(d)
  }

  lemma {:induction false} OneTokenPairs(t: Token)
    requires Canonical(t) && !t.kind.RedirHereDocToken?
    ensures WellPaired([t]) && Delims([t]) == []
  {
  }

  lemma {:induction false} LexemePairs(s: string)
    requires s != "" && s[0] != '\n' && NextLexeme(s).Ok?
    ensures var lexeme := NextLexeme(s).value;
            WellPaired(lexeme.tokens) && Delims(lexeme.tokens) == lexeme.delims
  {
    var ts := NextLexeme(s).value.tokens;
    if s[0] == '<' && Doubled(s) {
      assert ts[2..] == [];
      assert Delims(ts) == [ts[1].value];
    } else {
      assert ts == [ts[0]];
      OneTokenPairs(ts[0]);
    }
  }

  /** Each step of the tokenizer keeps the pairing. */
  lemma {:induction false} AdvanceOwes(t: string, st: Lexed, read: seq<Doc>) returns (read': seq<Doc>)
    requires t != "" && Advance(t, st).Ok? && Owes(st, read)
    ensures Owes(Advance(t, st).value.1, read')
  {
    if t[0] == '\n' {
      var docs := ReadBodiesAreValid(t[1..], st.pending);
      read' := read + docs;
      OneTokenPairs(SEMI);
      PairedConcat(st.tokens, [SEMI]);
      DocsConcat(read, docs);
    } else {
      read' := read;
      LexemePairs(t);
      var lexeme := NextLexeme(t).value;
      PairedConcat(st.tokens, lexeme.tokens);
      ConcatAssociates(DocDelims(read), st.pending, lexeme.delims);
    }
  }

  lemma {:induction false} TokenizerCarries(s: string, st: Lexed, read: seq<Doc>) returns (docs: seq<Doc>)
    requires Owes(st, read) && TokenizeFrom(s, st).Ok?
    ensures var lexed := TokenizeFrom(s, st).value;
            Carries(lexed.tokens, docs) && DocBodies(docs) == lexed.bodies && lexed.pending == []
    decreases |s|
  {
    var t := SkipSpaces(s);
    if t == "" {
      docs := read;
      assert DocDelims(read) + [] == DocDelims(read);
    } else {
      var read' := AdvanceOwes(t, st, read);
      var next := Advance(t, st).value;
      docs := TokenizerCarries(next.0, next.1, read');
    }
  }

  /** Whenever tokenizing succeeds, every `<<` stands before its word, and those words and
      the bodies correspond one to one, in order. */
  lemma {:induction false} TokenizedPairing(s: string) returns (docs: seq<Doc>)
    requires Tokenize(s).Ok?
    ensures Carries(Tokenize(s).value.tokens, docs) && DocBodies(docs) == Tokenize(s).value.bodies
  {
    docs := TokenizerCarries(s, Lexed([], [], []), []);
  }

  // ---------------------------------------------------------------- the parser

  /** The errors a script can run into. */
  predicate Possible(e: ScriptError)
  {
    !e.MissingHereDocBody? && !e.HereDocsNotConsumed? && !e.UnexpectedToken?
    && e != RedirectionRequiresTarget("<<")
  }

  lemma {:induction false} CarriesWithoutFirst(ts: seq<Token>, docs: seq<Doc>)
    requires ts != [] && !ts[0].kind.RedirHereDocToken? && Carries(ts, docs)
    ensures Carries(ts[1..], docs)
  {
  }

  lemma {:induction false} CarriesWithoutHereDoc(ts: seq<Token>, docs: seq<Doc>)
    requires ts != [] && ts[0].kind.RedirHereDocToken? && Carries(ts, docs)
    ensures |ts| >= 2 && ts[1].kind.WordToken? && docs != [] && docs[0].delim == ts[1].value
    ensures Carries(ts[2..], docs[1..]) && DocBodies(docs)[1..] == DocBodies(docs[1..])
  {
    assert Delims(ts) == [ts[1].value] + Delims(ts[2..]);
    assert docs != [];
    assert DocDelims(docs)[1..] == DocDelims(docs[1..]);
    assert Delims(ts)[1..] == Delims(ts[2..]);
  }

  lemma {:induction false} RedirSound(ts: seq<Token>, docs: seq<Doc>) returns (docs': seq<Doc>)
    requires ts != [] && IsRedir(ts[0].kind) && Carries(ts, docs)
    ensures var r := RedirFrom(ts, DocBodies(docs));
            if r.Err? then Possible(r.error)
            else Carries(r.value.tokens, docs') && DocBodies(docs') == r.value.docs && WellFormedRedirect(r.value.value)
  {
    if ts[0].kind.RedirHereDocToken? {
      CarriesWithoutHereDoc(ts, docs);
      docs' := docs[1..];
      assert docs[0] in docs;
      assert DocBodies(docs)[0] == docs[0].body;
      assert docs[0] == Doc(ts[1].value, DocBodies(docs)[0]);
    } else {
      CarriesWithoutFirst(ts, docs);
      docs' := docs;
      if |ts| >= 2 && ts[1].kind.WordToken? {
        CarriesWithoutFirst(ts[1..], docs);
        assert ts[1..][1..] == ts[2..];
      }
    }
  }

  lemma {:induction false} CommandSound(ts: seq<Token>, docs: seq<Doc>, cmd: Command) returns (docs': seq<Doc>)
    requires Carries(ts, docs) && forall r :: r in cmd.redirs ==> WellFormedRedirect(r)
    ensures var r := CommandFrom(ts, DocBodies(docs), cmd);
            if r.Err? then Possible(r.error)
            else Carries(r.value.tokens, docs') && DocBodies(docs') == r.value.docs &&
                 CommandBoundary(r.value.tokens) && WellFormedCommand(r.value.value)
    decreases |ts|
  {
    docs' := docs;
    if ts != [] {
      if ts[0].kind.WordToken? {
        docs' := CommandSound(ts[1..], docs, cmd.(args := cmd.args + [ts[0].value]));
      } else if IsRedir(ts[0].kind) {
        docs' := RedirSound(ts, docs);
        var redir := RedirFrom(ts, DocBodies(docs));
        if redir.Ok? {
          docs' := CommandSound(redir.value.tokens, docs', cmd.(redirs := cmd.redirs + [redir.value.value]));
        }
      }
    }
  }

  lemma {:induction false} PipelineTailSound(ts: seq<Token>, docs: seq<Doc>, done: seq<Command>)
    returns (docs': seq<Doc>)
    requires Carries(ts, docs) && CommandBoundary(ts) && WellFormedPipeline(Pipeline(done))
    ensures var r := PipelineFrom(ts, DocBodies(docs), done);
            if r.Err? then Possible(r.error)
            else Carries(r.value.tokens, docs') && DocBodies(docs') == r.value.docs &&
                 PipelineBoundary(r.value.tokens) && WellFormedPipeline(r.value.value)
    decreases |ts|
  {
    docs' := docs;
    if ts != [] && ts[0].kind.PipeToken? {
      docs' := CommandSound(ts[1..], docs, Command([], []));
      var c := CommandFrom(ts[1..], DocBodies(docs), Command([], []));
      if c.Ok? {
        docs' := PipelineTailSound(c.value.tokens, docs', done + [c.value.value]);
      }
    }
  }

  lemma {:induction false} PipelineSound(ts: seq<Token>, docs: seq<Doc>) returns (docs': seq<Doc>)
    requires Carries(ts, docs)
    ensures var r := PipelineExpr(ts, DocBodies(docs));
            if r.Err? then Possible(r.error)
            else Carries(r.value.tokens, docs') && DocBodies(docs') == r.value.docs &&
                 PipelineBoundary(r.value.tokens) && WellFormedPipeline(r.value.value)
  {
    docs' := CommandSound(ts, docs, Command([], []));
    var c := CommandFrom(ts, DocBodies(docs), Command([], []));
    if c.Ok? {
      docs' := PipelineTailSound(c.value.tokens, docs', [c.value.value]);
    }
  }

  lemma {:induction false} LinkAppends(done: seq<ConditionalPipeline>, p: ConditionalPipeline)
    requires WellFormedStatement(Statement(done)) && WellFormedLink(p)
    ensures WellFormedStatement(Statement(done + [p]))
  {
    assert (done + [p])[1..] == done[1..] + [p];
  }

  lemma {:induction false} StatementTailSound(ts: seq<Token>, docs: seq<Doc>, done: seq<ConditionalPipeline>)
    returns (docs': seq<Doc>)
    requires Carries(ts, docs) && PipelineBoundary(ts) && WellFormedStatement(Statement(done))
    ensures var r := StatementFrom(ts, DocBodies(docs), done);
            if r.Err? then Possible(r.error)
            else
              Carries(r.value.tokens, docs') && DocBodies(docs') == r.value.docs && WellFormedStatement(r.value.value)
    decreases |ts|
  {
    docs' := docs;
    if ts != [] && IsAndOr(ts[0].kind) {
      docs' := PipelineSound(ts[1..], docs);
      var p := PipelineExpr(ts[1..], DocBodies(docs));
      if p.Ok? {
        var link := ConditionalPipeline(ts[0].value, p.value.value);
        LinkAppends(done, link);
        docs' := StatementTailSound(p.value.tokens, docs', done + [link]);
      }
    }
  }

  lemma {:induction false} StatementSound(ts: seq<Token>, docs: seq<Doc>) returns (docs': seq<Doc>)
    requires Carries(ts, docs)
    ensures var r := StatementExpr(ts, DocBodies(docs));
            if r.Err? then Possible(r.error)
            else
              Carries(r.value.tokens, docs') && DocBodies(docs') == r.value.docs && WellFormedStatement(r.value.value)
  {
    docs' := PipelineSound(ts, docs);
    var p := PipelineExpr(ts, DocBodies(docs));
    if p.Ok? {
      docs' := StatementTailSound(p.value.tokens, docs', [ConditionalPipeline("", p.value.value)]);
    }
  }

  lemma {:induction false} StatementsSound(ts: seq<Token>, docs: seq<Doc>, done: seq<Statement>)
    requires Carries(ts, docs) && WellFormed(done)
    ensures var r := StatementsFrom(ts, DocBodies(docs), done);
            if r.Err? then Possible(r.error) else WellFormed(r.value)
    decreases |ts|
  {
    if ts != [] {
      if ts[0].kind.SemiToken? {
        StatementsSound(ts[1..], docs, done);
      } else {
        var docs' := StatementSound(ts, docs);
        var s := StatementExpr(ts, DocBodies(docs));
        if s.Ok? && |done| < MAX_STATEMENTS {
          StatementsSound(s.value.tokens, docs', done + [s.value.value]);
        }
      }
    }
  }

  // ---------------------------------------------------------------- main results

  /** A parsed script is well-formed: in particular every command has an argument, so the
      runner may read `args[0]`. */
  lemma {:induction false} ParsedIsWellFormed(input: string)
    requires Parse(input).Ok?
    ensures WellFormed(Parse(input).value)
  {
    var lexed := Tokenize(input).value;
    var docs := TokenizedPairing(input);
    StatementsSound(lexed.tokens, docs, []);
  }

  lemma {:induction false} BodyErrorPossible(s: string, delim: string, acc: string)
    requires HereDocFrom(s, delim, acc).Err?
    ensures Possible(HereDocFrom(s, delim, acc).error)
    decreases |s|
  {
    if s != "" {
      var n, line := LineEnd(s), Line(s);
      if line == delim || |acc + line| > MAX_HEREDOC_BYTES {
      } else if n < |s| {
        BodyErrorPossible(s[n + 1..], delim, acc + line + "\n");
      } else {
        BodyErrorPossible(s[n..], delim, acc + line);
      }
    }
  }

  lemma {:induction false} BodiesErrorPossible(s: string, pending: seq<string>)
    requires BodiesFrom(s, pending).Err?
    ensures Possible(BodiesFrom(s, pending).error)
    decreases |pending|
  {
    var first := HereDocFrom(s, pending[0], "");
    if first.Err? {
      BodyErrorPossible(s, pending[0], "");
    } else {
      BodiesErrorPossible(first.value.rest, pending[1..]);
    }
  }

  lemma {:induction false} WordErrorPossible(s: string, quote: Option<char>, escaped: bool, quoted: bool, buf: string)
    requires WordFrom(s, quote, escaped, quoted, buf).Err?
    ensures Possible(WordFrom(s, quote, escaped, quoted, buf).error)
    decreases |s|
  {
    if s != "" {
      if escaped {
        WordErrorPossible(s[1..], quote, false, quoted, buf + [s[0]]);
      } else if quote.Some? {
        if s[0] == quote.value {
          WordErrorPossible(s[1..], None, false, quoted, buf);
        } else if s[0] == '\\' {
          WordErrorPossible(s[1..], quote, true, quoted, buf);
        } else {
          WordErrorPossible(s[1..], quote, false, quoted, buf + [s[0]]);
        }
      } else if s[0] == '\\' {
        WordErrorPossible(s[1..], None, true, quoted, buf);
      } else if IsQuote(s[0]) {
        WordErrorPossible(s[1..], Some(s[0]), false, true, buf);
      } else if !EndsWord(s[0]) {
        WordErrorPossible(s[1..], None, false, quoted, buf + [s[0]]);
      }
    }
  }

  lemma {:induction false} TokenizerErrorPossible(s: string, st: Lexed)
    requires TokenizeFrom(s, st).Err?
    ensures Possible(TokenizeFrom(s, st).error)
    decreases |s|
  {
    var t := SkipSpaces(s);
    if t != "" {
      var next := Advance(t, st);
      if next.Ok? {
        TokenizerErrorPossible(next.value.0, next.value.1);
      } else if t[0] == '\n' {
        BodiesErrorPossible(t[1..], st.pending);
      } else if Word(t).Err? {
        WordErrorPossible(t, None, false, false, "");
      }
    }
  }

  /** The parser's own heredoc errors and its "unexpected token" error never surface. */
  lemma {:induction false} ErrorIsPossible(input: string)
    requires Parse(input).Err?
    ensures Possible(Parse(input).error)
  {
    if Tokenize(input).Err? {
      TokenizerErrorPossible(input, Lexed([], [], []));
    } else {
      var lexed := Tokenize(input).value;
      var docs := TokenizedPairing(input);
      StatementsSound(lexed.tokens, docs, []);
    }
  }

  /** The well-formed trees are exactly the trees parsing can produce. */
  lemma {:induction false} ImageOfParser(script: seq<Statement>)
    ensures WellFormed(script) <==> exists input :: Parse(input) == Ok(script)
  {
    if WellFormed(script) {
      ParsePrinted(script);
    }
    forall input | Parse(input) == Ok(script)
      ensures WellFormed(script)
    {
      ParsedIsWellFormed(input);
    }
  }

  /** Printing what was parsed and parsing it again changes nothing. */
  lemma {:induction false} ParsePrintParse(input: string)
    requires Parse(input).Ok?
    ensures Parse(Print(Parse(input).value)) == Parse(input)
  {
    ParsedIsWellFormed(input);
    ParsePrinted(Parse(input).value);
  }
}

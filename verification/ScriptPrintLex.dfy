/** Tokenizing printed text gives back the tokens and the heredoc bodies. */
module ScriptPrintLex {
  import opened Prelude
  import opened ScriptIr
  import opened ScriptLexer
  import opened ScriptPrinter

  // ---------------------------------------------------------------- words

  /** Scanning inside single quotes. */
  function QuotedScan(s: string, buf: string): Result<Scan, ScriptError>
  {
    WordFrom(s, Some('\''), false, true, buf)
  }

  lemma {:induction false} EscapedByteScans(c: char, rest: string, buf: string)
    ensures QuotedScan(EscapeByte(c) + rest, buf) == QuotedScan(rest, buf + [c])
  {
    assert ([c] + rest)[1..] == rest;
    if c == '\'' || c == '\\' {
      var s := ['\\', c] + rest;
      assert s[1..] == [c] + rest;
      assert WordFrom(s, Some('\''), false, true, buf) == WordFrom([c] + rest, Some('\''), true, true, buf);
    }
  }

  lemma {:induction false} ClosingQuoteScans(after: string, buf: string)
    requires after != "" && EndsWord(after[0])
    ensures QuotedScan("'" + after, buf) == Ok(Scan(buf, after))
  {
    assert ("'" + after)[1..] == after;
    assert QuotedScan("'" + after, buf) == WordFrom(after, None, false, true, buf);
  }

  lemma {:induction false} EscapedWordScans(word: string, buf: string, after: string)
    requires after != "" && EndsWord(after[0])
    ensures QuotedScan(Escape(word, "'" + after), buf) == Ok(Scan(buf + word, after))
    decreases |word|
  {
    if word == "" {
      assert buf + word == buf;
      ClosingQuoteScans(after, buf);
    } else {
      var rest := Escape(word[1..], "'" + after);
      EscapedByteScans(word[0], rest, buf);
      EscapedWordScans(word[1..], buf + [word[0]], after);
      assert buf + [word[0]] + word[1..] == buf + word;
    }
  }

  /** Every word can be quoted: the scanner reads back exactly the word. */
  lemma {:induction false} QuotedWordScans(word: string, after: string)
    requires after != "" && EndsWord(after[0])
    ensures Word(Quote(word, after)) == Ok(Scan(word, after))
  {
    EscapedWordScans(word, "", after);
    assert Quote(word, after)[1..] == Escape(word, "'" + after);
    assert "" + word == word;
  }

  // ---------------------------------------------------------------- tokens

  /** The state after reading `ts` from `st`. */
  function Reads(st: Lexed, ts: seq<Token>): Lexed
  {
    Lexed(st.tokens + ts, st.bodies, st.pending + Delims(ts))
  }

  lemma {:induction false} ReadsInTwo(st: Lexed, first: seq<Token>, others: seq<Token>)
    requires Delims(first + others) == Delims(first) + Delims(others)
    ensures Reads(Reads(st, first), others) == Reads(st, first + others)
  {
    ConcatAssociates(st.tokens, first, others);
    ConcatAssociates(st.pending, Delims(first), Delims(others));
  }

  lemma {:induction false} NothingToSkip(s: string)
    requires s != "" && !IsInlineSpace(s[0])
    ensures SkipSpaces(s) == s
  {
  }

  lemma {:induction false} LeadingSpaceSkips(s: string)
    ensures SkipSpaces(" " + s) == SkipSpaces(s)
  {
    assert (" " + s)[1..] == s;
  }

  lemma {:induction false} WordLexes(word: string, after: string)
    ensures var s := Quote(word, " " + after);
            SkipSpaces(s) == s && s[0] == '\'' &&
            NextLexeme(s) == Ok(Lexeme([Token(WordToken, word)], [], " " + after))
  {
    NothingToSkip(Quote(word, " " + after));
    QuotedWordScans(word, " " + after);
  }

  lemma {:induction false} OperatorLexes(kind: TokenKind, after: string)
    requires !kind.WordToken? && !kind.RedirHereDocToken?
    ensures var s := OperatorText(kind) + (" " + after);
            SkipSpaces(s) == s && s[0] != '\n' &&
            NextLexeme(s) == Ok(Lexeme([OperatorToken(kind)], [], " " + after))
  {
    var s := OperatorText(kind) + (" " + after);
    NothingToSkip(s);
    assert s[|OperatorText(kind)|..] == " " + after;
  }

  lemma {:induction false} HereDocLexes(word: string, after: string)
    ensures var s := "<<" + (" " + Quote(word, " " + after));
            SkipSpaces(s) == s && s[0] == '<' &&
            NextLexeme(s) == Ok(Lexeme([OperatorToken(RedirHereDocToken), Token(WordToken, word)], [word], " " + after))
  {
    var target := Quote(word, " " + after);
    var s := "<<" + (" " + target);
    assert s[2..] == " " + target;
    LeadingSpaceSkips(target);
    NothingToSkip(target);
    QuotedWordScans(word, " " + after);
    NothingToSkip(s);
    assert NextLexeme(s) == HereDocLexeme(s[2..]);
  }

  /** One lexeme and the space behind it. */
  lemma {:induction false} LexemeReads(s: string, ts: seq<Token>, after: string, st: Lexed)
    requires s != "" && SkipSpaces(s) == s && s[0] != '\n'
    requires NextLexeme(s) == Ok(Lexeme(ts, Delims(ts), " " + after))
    ensures TokenizeFrom(s, st) == TokenizeFrom(after, Reads(st, ts))
  {
    LeadingSpaceSkips(after);
    assert Advance(s, st) == Ok((" " + after, Reads(st, ts)));
    assert TokenizeFrom(" " + after, Reads(st, ts)) == TokenizeFrom(after, Reads(st, ts));
  }

  lemma {:induction false} TokenReads(t: Token, after: string, st: Lexed)
    requires Canonical(t) && !t.kind.RedirHereDocToken?
    ensures TokenizeFrom(PrintToken(t, after), st) == TokenizeFrom(after, Reads(st, [t]))
  {
    assert Delims([t]) == [];
    if t.kind.WordToken? {
      WordLexes(t.value, after);
    } else {
      OperatorLexes(t.kind, after);
    }
    LexemeReads(PrintToken(t, after), [t], after, st);
  }

  lemma {:induction false} HereDocReads(op: Token, word: Token, after: string, st: Lexed)
    requires op == OperatorToken(RedirHereDocToken) && word.kind.WordToken?
    ensures TokenizeFrom(PrintToken(op, PrintToken(word, after)), st) ==
            TokenizeFrom(after, Reads(st, [op, word]))
  {
    assert Delims([op, word]) == [word.value];
    HereDocLexes(word.value, after);
    LexemeReads(PrintToken(op, PrintToken(word, after)), [op, word], after, st);
  }

  lemma {:induction false} FirstPairReads(ts: seq<Token>, after: string, st: Lexed)
    requires WellPaired(ts) && ts != [] && ts[0].kind.RedirHereDocToken?
    ensures TokenizeFrom(PrintTokens(ts, after), st) ==
            TokenizeFrom(PrintTokens(ts[2..], after), Reads(st, [ts[0], ts[1]]))
    ensures Delims(ts) == Delims([ts[0], ts[1]]) + Delims(ts[2..])
  {
    assert Delims([ts[0], ts[1]]) == [ts[1].value];
    assert ts[1..][1..] == ts[2..];
    HereDocReads(ts[0], ts[1], PrintTokens(ts[2..], after), st);
  }

  lemma {:induction false} FirstTokenReads(ts: seq<Token>, after: string, st: Lexed)
    requires WellPaired(ts) && ts != [] && !ts[0].kind.RedirHereDocToken?
    ensures TokenizeFrom(PrintTokens(ts, after), st) == TokenizeFrom(PrintTokens(ts[1..], after), Reads(st, [ts[0]]))
    ensures Delims(ts) == Delims([ts[0]]) + Delims(ts[1..])
  {
    assert Delims([ts[0]]) == [];
    TokenReads(ts[0], PrintTokens(ts[1..], after), st);
  }

  /** Printed tokens are read back one by one; their delimiters become pending. */
  lemma {:induction false} TokensLex(ts: seq<Token>, after: string, st: Lexed)
    requires WellPaired(ts)
    ensures TokenizeFrom(PrintTokens(ts, after), st) == TokenizeFrom(after, Reads(st, ts))
    decreases |ts|
  {
    if ts == [] {
      assert Reads(st, ts) == st;
    } else if ts[0].kind.RedirHereDocToken? {
      var first, others := [ts[0], ts[1]], ts[2..];
      FirstPairReads(ts, after, st);
      TokensLex(others, after, Reads(st, first));
      assert first + others == ts;
      ReadsInTwo(st, first, others);
    } else {
      var first, others := [ts[0]], ts[1..];
      FirstTokenReads(ts, after, st);
      TokensLex(others, after, Reads(st, first));
      assert first + others == ts;
      ReadsInTwo(st, first, others);
    }
  }

  // ---------------------------------------------------------------- heredoc bodies

  predicate OneLine(line: string) {
    forall k :: 0 <= k < |line| ==> line[k] != '\n'
  }

  lemma {:induction false} LineEndOfLine(line: string, after: string)
    requires OneLine(line)
    ensures LineEnd(line + ("\n" + after)) == |line|
    decreases |line|
  {
    var s := line + ("\n" + after);
    if line != "" {
      assert s[1..] == line[1..] + ("\n" + after);
      LineEndOfLine(line[1..], after);
    }
  }

  /** One printed line, followed by anything, as the scanner sees it. */
  lemma {:induction false} PrintedLineScans(line: string, after: string)
    requires OneLine(line)
    ensures var s := PrintLine(line, after);
            LineEnd(s) < |s| && TrimCr(s[..LineEnd(s)]) == line && s[LineEnd(s) + 1..] == after
  {
    var s := PrintLine(line, after);
    LineEndOfLine(ProtectCr(line), after);
    assert s[..|ProtectCr(line)|] == ProtectCr(line);
  }

  lemma {:induction false} OtherLineScans(s: string, line: string, rest: string, delim: string, acc: string)
    requires LineEnd(s) < |s| && TrimCr(s[..LineEnd(s)]) == line && s[LineEnd(s) + 1..] == rest
    requires line != delim && |acc + line| <= MAX_HEREDOC_BYTES
    ensures HereDocFrom(s, delim, acc) == HereDocFrom(rest, delim, acc + line + "\n")
  {
  }

  lemma {:induction false} BodyLineScans(line: string, after: string, delim: string, acc: string)
    requires OneLine(line) && line != delim && |acc + line| <= MAX_HEREDOC_BYTES
    ensures HereDocFrom(PrintLine(line, after), delim, acc) == HereDocFrom(after, delim, acc + line + "\n")
  {
    PrintedLineScans(line, after);
    OtherLineScans(PrintLine(line, after), line, after, delim, acc);
  }

  lemma {:induction false} ClosingLineScans(delim: string, after: string, acc: string)
    requires OneLine(delim)
    ensures HereDocFrom(PrintLine(delim, after), delim, acc) == Ok(Scan(acc, after))
  {
    PrintedLineScans(delim, after);
  }

  lemma {:induction false} LinesScan(body: string, delim: string, acc: string, after: string)
    requires OneLine(delim) && LinesAvoid(body, delim)
    requires |acc| + |body| <= MAX_HEREDOC_BYTES + 1
    ensures HereDocFrom(PrintLines(body, PrintLine(delim, after)), delim, acc) == Ok(Scan(acc + body, after))
    decreases |body|
  {
    var closing := PrintLine(delim, after);
    if body == "" {
      ClosingLineScans(delim, after, acc);
      assert acc + body == acc;
    } else {
      var n := LineEnd(body);
      var line, others := body[..n], body[n + 1..];
      BodyLineScans(line, PrintLines(others, closing), delim, acc);
      LinesScan(others, delim, acc + line + "\n", after);
      SplitAround(acc, body, n);
    }
  }

  lemma {:induction false} DocsScan(docs: seq<Doc>, after: string)
    requires forall d :: d in docs ==> ValidDoc(d)
    ensures BodiesFrom(PrintDocs(docs, after), DocDelims(docs)) == Ok(Bodies(DocBodies(docs), after))
    decreases |docs|
  {
    if docs != [] {
      assert docs[0] in docs;
      LinesScan(docs[0].body, docs[0].delim, "", PrintDocs(docs[1..], after));
      assert "" + docs[0].body == docs[0].body;
      DocsScan(docs[1..], after);
      assert DocDelims(docs)[1..] == DocDelims(docs[1..]);
    }
  }

  // ---------------------------------------------------------------- a printed line

  lemma {:induction false} NewlineAdvances(docs: seq<Doc>, after: string, st: Lexed)
    requires st.pending == DocDelims(docs)
    requires forall d :: d in docs ==> ValidDoc(d)
    ensures var s := "\n" + PrintDocs(docs, after);
            SkipSpaces(s) == s && s[0] == '\n' &&
            Advance(s, st) == Ok((after, Lexed(st.tokens + [SEMI], st.bodies + DocBodies(docs), [])))
  {
    var s := "\n" + PrintDocs(docs, after);
    NothingToSkip(s);
    assert s[1..] == PrintDocs(docs, after);
    DocsScan(docs, after);
  }

  /** A line of tokens, a newline, and the bodies its `<<` operators ask for. */
  lemma {:induction false} LineLexes(ts: seq<Token>, docs: seq<Doc>, after: string, st: Lexed)
    requires WellPaired(ts) && Delims(ts) == DocDelims(docs) && st.pending == []
    requires forall d :: d in docs ==> ValidDoc(d)
    ensures TokenizeFrom(PrintTokens(ts, "\n" + PrintDocs(docs, after)), st) ==
            TokenizeFrom(after, Lexed(st.tokens + (ts + [SEMI]), st.bodies + DocBodies(docs), []))
  {
    var rest := "\n" + PrintDocs(docs, after);
    var mid := Reads(st, ts);
    assert mid.pending == DocDelims(docs);
    ConcatAssociates(st.tokens, ts, [SEMI]);
    TokensLex(ts, rest, st);
    NewlineAdvances(docs, after, mid);
  }
}

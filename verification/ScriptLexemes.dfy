/** How a script is spelled: words, operators, heredocs and newlines, with any white space between
    them. What the tokenizer makes of every text, stated on its spelling alone. */
module ScriptLexemes {
  import opened Prelude
  import opened ScriptIr
  import opened ScriptLexer
  import opened ScriptSpelling
  import ScriptPrintLex

  // ---------------------------------------------------------------- heredoc bodies

  /** A line without its newline; a CR at its end may be added, and is not part of the line. */
  datatype LineText = LineText(text: string, cr: bool)

  /** The lines of a body and the line that closes it, which may be the last of the input. */
  datatype DocText = DocText(lines: seq<LineText>, closing: LineText, newline: bool)

  function RawLine(line: LineText): string
  {
    if line.cr then line.text + "\r" else line.text
  }

  predicate GoodLine(line: LineText)
  {
    '\n' !in line.text && (!line.cr ==> line.text == "" || line.text[|line.text| - 1] != '\r')
  }

  function SpellLines(lines: seq<LineText>, after: string): string
  {
    if lines == [] then after else RawLine(lines[0]) + ("\n" + SpellLines(lines[1..], after))
  }

  function SpellClosing(doc: DocText, after: string): string
  {
    RawLine(doc.closing) + if doc.newline then "\n" + after else after
  }

  function SpellDoc(doc: DocText, after: string): string
  {
    SpellLines(doc.lines, SpellClosing(doc, after))
  }

  function BodyText(lines: seq<LineText>): string
  {
    if lines == [] then "" else lines[0].text + ("\n" + BodyText(lines[1..]))
  }

  predicate GoodLines(lines: seq<LineText>, delim: string)
  {
    forall k :: 0 <= k < |lines| ==> GoodLine(lines[k]) && lines[k].text != delim
  }

  predicate GoodClosing(doc: DocText, after: string)
  {
    GoodLine(doc.closing) && (!doc.newline ==> after == "" && RawLine(doc.closing) != "")
  }

  /** The size check runs before a line's newline is appended, hence the extra byte. */
  predicate GoodDoc(doc: DocText, after: string)
  {
    && GoodLines(doc.lines, doc.closing.text) && GoodClosing(doc, after)
    && |BodyText(doc.lines)| <= MAX_HEREDOC_BYTES + 1
  }

  lemma {:induction false} RawScans(line: LineText, after: string)
    requires GoodLine(line)
    ensures var s := RawLine(line) + ("\n" + after);
            LineEnd(s) < |s| && TrimCr(s[..LineEnd(s)]) == line.text && s[LineEnd(s) + 1..] == after
  {
    var raw := RawLine(line);
    var s := raw + ("\n" + after);
    ScriptPrintLex.LineEndOfLine(raw, after);
    assert s[..|raw|] == raw;
  }

  lemma {:induction false} LastRawScans(line: LineText)
    requires GoodLine(line)
    ensures var s := RawLine(line); LineEnd(s) == |s| && TrimCr(s[..LineEnd(s)]) == line.text
  {
    var s := RawLine(line);
    NoLineEnd(s);
    assert s[..|s|] == s;
  }

  lemma {:induction false} NoLineEnd(s: string)
    requires '\n' !in s
    ensures LineEnd(s) == |s|
    decreases |s|
  {
    if s != "" {
      NoLineEnd(s[1..]);
    }
  }

  lemma {:induction false} DelimiterScans(s: string, delim: string, rest: string, acc: string)
    requires LineEnd(s) < |s| && TrimCr(s[..LineEnd(s)]) == delim && s[LineEnd(s) + 1..] == rest
    ensures HereDocFrom(s, delim, acc) == Ok(Scan(acc, rest))
  {
  }

  lemma {:induction false} LastDelimiterScans(s: string, delim: string, acc: string)
    requires s != "" && LineEnd(s) == |s| && TrimCr(s[..LineEnd(s)]) == delim
    ensures HereDocFrom(s, delim, acc) == Ok(Scan(acc, ""))
  {
  }

  lemma {:induction false} ClosingScans(doc: DocText, after: string, acc: string)
    requires GoodClosing(doc, after)
    ensures HereDocFrom(SpellClosing(doc, after), doc.closing.text, acc) == Ok(Scan(acc, after))
  {
    if doc.newline {
      RawScans(doc.closing, after);
      DelimiterScans(SpellClosing(doc, after), doc.closing.text, after, acc);
    } else {
      LastRawScans(doc.closing);
      assert RawLine(doc.closing) + "" == RawLine(doc.closing);
      LastDelimiterScans(RawLine(doc.closing), doc.closing.text, acc);
    }
  }

  lemma {:induction false} LinesScan(lines: seq<LineText>, doc: DocText, after: string, acc: string)
    requires GoodLines(lines, doc.closing.text) && GoodClosing(doc, after)
    requires |acc| + |BodyText(lines)| <= MAX_HEREDOC_BYTES + 1
    ensures HereDocFrom(SpellLines(lines, SpellClosing(doc, after)), doc.closing.text, acc) ==
            Ok(Scan(acc + BodyText(lines), after))
    decreases |lines|
  {
    if lines == [] {
      ClosingScans(doc, after, acc);
      assert acc + "" == acc;
    } else {
      var line, rest := lines[0], SpellLines(lines[1..], SpellClosing(doc, after));
      RawScans(line, rest);
      ScriptPrintLex.OtherLineScans(RawLine(line) + ("\n" + rest), line.text, rest, doc.closing.text, acc);
      LinesScan(lines[1..], doc, after, acc + line.text + "\n");
      Regroup(acc, line.text, BodyText(lines[1..]));
    }
  }

  lemma {:induction false} Regroup(acc: string, line: string, others: string)
    ensures acc + line + "\n" + others == acc + (line + ("\n" + others))
  {
  }

  /** A spelled body is read as its lines. */
  lemma {:induction false} SpelledDoc(doc: DocText, after: string)
    requires GoodDoc(doc, after)
    ensures HereDocFrom(SpellDoc(doc, after), doc.closing.text, "") == Ok(Scan(BodyText(doc.lines), after))
  {
    LinesScan(doc.lines, doc, after, "");
    assert "" + BodyText(doc.lines) == BodyText(doc.lines);
  }

  /** The first line of a text. */
  function FirstLine(s: string): LineText
  {
    var raw := s[..LineEnd(s)];
    if raw != "" && raw[|raw| - 1] == '\r' then LineText(raw[..|raw| - 1], true) else LineText(raw, false)
  }

  lemma {:induction false} FirstLineIs(s: string)
    ensures GoodLine(FirstLine(s)) && FirstLine(s).text == TrimCr(s[..LineEnd(s)])
    ensures RawLine(FirstLine(s)) == s[..LineEnd(s)]
    ensures LineEnd(s) < |s| ==> s == RawLine(FirstLine(s)) + ("\n" + s[LineEnd(s) + 1..])
    ensures LineEnd(s) == |s| ==> s == RawLine(FirstLine(s))
  {
    var n := LineEnd(s);
    var raw := s[..n];
    assert '\n' !in raw;
    if n < |s| {
      assert s == raw + ("\n" + s[n + 1..]);
    }
  }

  /** Whatever is read as a body is so spelled. */
  lemma {:induction false} DocOf(s: string, delim: string, acc: string) returns (doc: DocText)
    requires HereDocFrom(s, delim, acc).Ok? && |acc| <= MAX_HEREDOC_BYTES + 1
    ensures var after := HereDocFrom(s, delim, acc).value.rest;
            && doc.closing.text == delim && GoodLines(doc.lines, delim) && GoodClosing(doc, after)
            && |acc| + |BodyText(doc.lines)| <= MAX_HEREDOC_BYTES + 1
            && s == SpellDoc(doc, after)
    decreases |s|
  {
    var n, line := LineEnd(s), FirstLine(s);
    FirstLineIs(s);
    if line.text == delim {
      doc := DocText([], line, n < |s|);
      if n == |s| {
        assert s[n..] == "" && RawLine(line) + "" == RawLine(line);
      }
    } else {
      assert n < |s|;
      var later := DocOf(s[n + 1..], delim, acc + line.text + "\n");
      doc := DocText([line] + later.lines, later.closing, later.newline);
      assert doc.lines[1..] == later.lines;
      MoreLines(line, later.lines, delim);
    }
  }

  lemma {:induction false} MoreLines(line: LineText, others: seq<LineText>, delim: string)
    requires GoodLine(line) && line.text != delim && GoodLines(others, delim)
    ensures GoodLines([line] + others, delim) && |BodyText([line] + others)| == |line.text| + 1 + |BodyText(others)|
    ensures forall after :: SpellLines([line] + others, after) == RawLine(line) + ("\n" + SpellLines(others, after))
  {
    assert ([line] + others)[1..] == others;
  }

  // ---------------------------------------------------------------- words and operators

  /** A word, with a backslash at the very end of the input or without. */
  datatype Spelled = Spelled(pieces: seq<Piece>, backslash: bool)

  function SpellWord(word: Spelled, after: string): string
  {
    Spell(word.pieces, if word.backslash then "\\" + after else after)
  }

  function WordMeaning(word: Spelled): string
  {
    if word.backslash then Meaning(word.pieces) + "\\" else Meaning(word.pieces)
  }

  predicate GoodWord(word: Spelled, after: string)
  {
    GoodPieces(word.pieces) && if word.backslash then after == "" else word.pieces != [] && AtEnd(after)
  }

  lemma {:induction false} WordReads(word: Spelled, after: string)
    requires GoodWord(word, after)
    ensures Word(SpellWord(word, after)) == Ok(Scan(WordMeaning(word), after))
    ensures var s := SpellWord(word, after); s != "" && s[0] !in WORD_ENDS
  {
    if word.backslash {
      assert "\\" + "" == "\\";
      LastBackslash(word.pieces);
    } else {
      SpelledWord(word.pieces, after);
    }
    assert '\\' !in WORD_ENDS && '\'' !in WORD_ENDS && '"' !in WORD_ENDS;
    assert word.pieces != [] ==> GoodPiece(word.pieces[0]);
  }

  /** Whatever is read as a word is so spelled. */
  lemma {:induction false} WordOf(s: string) returns (word: Spelled)
    requires Word(s).Ok?
    ensures GoodWord(word, Word(s).value.rest) && s == SpellWord(word, Word(s).value.rest)
    ensures Word(s).value.text == WordMeaning(word)
  {
    var form := FormOf(s);
    FormDecides(s, form);
    word := Spelled(form.pieces, form.Dangling?);
    if form.Dangling? {
      assert "\\" + "" == "\\";
    }
  }

  /** The token that an operator stands for. */
  function SignToken(sign: string): Token
  {
    match sign
    case "|" => Token(PipeToken, "|")
    case "&&" => Token(AndToken, "&&")
    case "||" => Token(OrToken, "||")
    case "<" => Token(RedirInToken, "<")
    case ">" => Token(RedirOutToken, ">")
    case ">>" => Token(RedirAppendToken, ">>")
    case _ => Token(SemiToken, ";")
  }

  /** The operators; three of them must not run into a byte of their own. */
  predicate GoodSign(sign: string, after: string)
  {
    || sign == "&&" || sign == "||" || sign == ">>" || sign == ";"
    || ((sign == "|" || sign == "<" || sign == ">") && (after == "" || after[0] != sign[0]))
  }

  lemma {:induction false} SignReads(sign: string, after: string)
    requires GoodSign(sign, after)
    ensures var s := sign + after;
            s != "" && s[0] != '\n' && s[0] !in " \t\r" && NextLexeme(s) == Ok(Lexeme([SignToken(sign)], [], after))
  {
    var s := sign + after;
    assert s[|sign|..] == after && sign[0] !in " \t\r";
    assert |sign| == 1 ==> s[1..] == after;
    assert |sign| == 2 ==> s[2..] == after && s[1] == sign[1];
  }

  // ---------------------------------------------------------------- a whole text

  datatype Lex =
    | AWord(word: Spelled)
    | ASign(sign: string)
    | AHereDoc(gap: string, word: Spelled)
    | ANewline(docs: seq<DocText>)

  /** Some blanks, and what stands behind them. */
  datatype Element = Element(space: string, lex: Lex)

  predicate Blanks(s: string) {
    forall k :: 0 <= k < |s| ==> s[k] in " \t\r"
  }

  function SpellDocs(docs: seq<DocText>, after: string): string
  {
    if docs == [] then after else SpellDoc(docs[0], SpellDocs(docs[1..], after))
  }

  function SpellLex(lex: Lex, after: string): string
  {
    match lex
    case AWord(word) => SpellWord(word, after)
    case ASign(sign) => sign + after
    case AHereDoc(gap, word) => "<<" + (gap + SpellWord(word, after))
    case ANewline(docs) => "\n" + SpellDocs(docs, after)
  }

  /** The text of the elements; `tail` are the blanks at the very end. */
  function SpellAll(elements: seq<Element>, tail: string): string
  {
    if elements == [] then tail
    else elements[0].space + SpellLex(elements[0].lex, SpellAll(elements[1..], tail))
  }

  predicate GoodDocs(docs: seq<DocText>, pending: seq<string>, after: string)
  {
    if docs == [] then pending == []
    else
      && pending != [] && docs[0].closing.text == pending[0]
      && GoodDoc(docs[0], SpellDocs(docs[1..], after)) && GoodDocs(docs[1..], pending[1..], after)
  }

  predicate GoodLex(lex: Lex, pending: seq<string>, after: string)
  {
    match lex
    case AWord(word) => GoodWord(word, after)
    case ASign(sign) => GoodSign(sign, after)
    case AHereDoc(gap, word) => Blanks(gap) && GoodWord(word, after)
    case ANewline(docs) => GoodDocs(docs, pending, after)
  }

  /** The delimiters still owed a body behind it. */
  function Owed(lex: Lex, pending: seq<string>): seq<string>
  {
    match lex
    case AHereDoc(_, word) => pending + [WordMeaning(word)]
    case ANewline(_) => []
    case _ => pending
  }

  predicate Fits(elements: seq<Element>, tail: string, pending: seq<string>)
  {
    if elements == [] then Blanks(tail) && pending == []
    else
      var first := elements[0];
      && Blanks(first.space) && GoodLex(first.lex, pending, SpellAll(elements[1..], tail))
      && Fits(elements[1..], tail, Owed(first.lex, pending))
  }

  function LexTokens(lex: Lex): seq<Token>
  {
    match lex
    case AWord(word) => [Token(WordToken, WordMeaning(word))]
    case ASign(sign) => [SignToken(sign)]
    case AHereDoc(_, word) => [Token(RedirHereDocToken, "<<"), Token(WordToken, WordMeaning(word))]
    case ANewline(_) => [Token(SemiToken, ";")]
  }

  function DocTexts(docs: seq<DocText>): seq<string>
  {
    if docs == [] then [] else [BodyText(docs[0].lines)] + DocTexts(docs[1..])
  }

  function LexBodies(lex: Lex): seq<string>
  {
    if lex.ANewline? then DocTexts(lex.docs) else []
  }

  function AllTokens(elements: seq<Element>): seq<Token>
  {
    if elements == [] then [] else LexTokens(elements[0].lex) + AllTokens(elements[1..])
  }

  function AllBodies(elements: seq<Element>): seq<string>
  {
    if elements == [] then [] else LexBodies(elements[0].lex) + AllBodies(elements[1..])
  }

  // ---------------------------------------------------------------- tokenizing a spelling

  lemma {:induction false} BlanksSkip(space: string, s: string)
    requires Blanks(space)
    ensures SkipSpaces(space + s) == SkipSpaces(s)
    decreases |space|
  {
    if space == "" {
      assert space + s == s;
    } else {
      assert (space + s)[1..] == space[1..] + s;
      BlanksSkip(space[1..], s);
    }
  }

  lemma {:induction false} NoBlank(s: string)
    requires s != "" && s[0] !in " \t\r"
    ensures SkipSpaces(s) == s
  {
    assert " \t\r" == [' ', '\t', '\r'];
  }

  lemma {:induction false} DocsRead(docs: seq<DocText>, pending: seq<string>, after: string)
    requires GoodDocs(docs, pending, after)
    ensures BodiesFrom(SpellDocs(docs, after), pending) == Ok(Bodies(DocTexts(docs), after))
    decreases |docs|
  {
    if docs != [] {
      SpelledDoc(docs[0], SpellDocs(docs[1..], after));
      DocsRead(docs[1..], pending[1..], after);
    }
  }

  lemma {:induction false} DoubleLess(rest: string)
    ensures var s := "<<" + rest; s[0] == '<' && Doubled(s) && NextLexeme(s) == HereDocLexeme(rest)
  {
    var s := "<<" + rest;
    assert s[2..] == rest;
  }

  lemma {:induction false} DelimiterReads(gap: string, word: Spelled, after: string)
    requires Blanks(gap) && GoodWord(word, after)
    ensures var t := gap + SpellWord(word, after);
            HereDocLexeme(t) == Ok(Lexeme(LexTokens(AHereDoc(gap, word)), [WordMeaning(word)], after))
  {
    var target := SpellWord(word, after);
    WordReads(word, after);
    FirstByteOfWord(target);
    BlanksSkip(gap, target);
    NoBlank(target);
  }

  lemma {:induction false} HereDocReads(gap: string, word: Spelled, after: string)
    requires Blanks(gap) && GoodWord(word, after)
    ensures var s := "<<" + (gap + SpellWord(word, after));
            NextLexeme(s) == Ok(Lexeme(LexTokens(AHereDoc(gap, word)), [WordMeaning(word)], after))
  {
    DelimiterReads(gap, word, after);
    DoubleLess(gap + SpellWord(word, after));
  }

  lemma {:induction false} FirstByteOfWord(s: string)
    requires s != "" && s[0] !in WORD_ENDS
    ensures s[0] != '\n' && s[0] != ';' && s[0] != '&' && s[0] != '|' && s[0] != '>' && s[0] != '<'
    ensures s[0] !in " \t\r"
  {
    assert WORD_ENDS == [' ', '\t', '\r', '\n', '|', '&', ';', '<', '>'];
  }

  /** One element, as one step of the tokenizer. */
  lemma {:induction false} LexAdvances(lex: Lex, after: string, st: Lexed)
    requires GoodLex(lex, st.pending, after)
    ensures var s := SpellLex(lex, after);
            s != "" && SkipSpaces(s) == s &&
            Advance(s, st) ==
              Ok((after, Lexed(st.tokens + LexTokens(lex), st.bodies + LexBodies(lex), Owed(lex, st.pending))))
  {
    var s := SpellLex(lex, after);
    assert st.bodies + [] == st.bodies && st.pending + [] == st.pending;
    match lex {
      case AWord(word) =>
        WordReads(word, after);
        FirstByteOfWord(s);
      case ASign(sign) =>
        SignReads(sign, after);
      case AHereDoc(gap, word) =>
        HereDocReads(gap, word, after);
      case ANewline(docs) =>
        assert s[1..] == SpellDocs(docs, after);
        DocsRead(docs, st.pending, after);
    }
    NoBlank(s);
  }

  lemma {:induction false} SpelledTokenizes(elements: seq<Element>, tail: string, st: Lexed)
    requires Fits(elements, tail, st.pending)
    ensures TokenizeFrom(SpellAll(elements, tail), st) ==
            Ok(Lexed(st.tokens + AllTokens(elements), st.bodies + AllBodies(elements), []))
    decreases |elements|
  {
    if elements == [] {
      BlanksSkip(tail, "");
      assert tail + "" == tail;
      assert st.tokens + [] == st.tokens && st.bodies + [] == st.bodies;
    } else {
      var lex, after := elements[0].lex, SpellAll(elements[1..], tail);
      var next := Lexed(st.tokens + LexTokens(lex), st.bodies + LexBodies(lex), Owed(lex, st.pending));
      BlanksSkip(elements[0].space, SpellLex(lex, after));
      LexAdvances(lex, after, st);
      SpelledTokenizes(elements[1..], tail, next);
      ConcatAssociates(st.tokens, LexTokens(lex), AllTokens(elements[1..]));
      ConcatAssociates(st.bodies, LexBodies(lex), AllBodies(elements[1..]));
    }
  }

  // ---------------------------------------------------------------- what tokenizes is so spelled

  lemma {:induction false} SkippedBlanks(s: string) returns (space: string)
    ensures Blanks(space) && s == space + SkipSpaces(s)
    decreases |s|
  {
    space := "";
    if s != "" && IsInlineSpace(s[0]) {
      var more := SkippedBlanks(s[1..]);
      space := [s[0]] + more;
      assert s == [s[0]] + s[1..];
    }
  }

  lemma {:induction false} DocsOf(s: string, pending: seq<string>) returns (docs: seq<DocText>)
    requires BodiesFrom(s, pending).Ok?
    ensures var after := BodiesFrom(s, pending).value.rest;
            GoodDocs(docs, pending, after) && s == SpellDocs(docs, after)
    decreases |pending|
  {
    docs := [];
    if pending != [] {
      var first := HereDocFrom(s, pending[0], "").value;
      var doc := DocOf(s, pending[0], "");
      var others := DocsOf(first.rest, pending[1..]);
      docs := [doc] + others;
      assert docs[1..] == others;
    }
  }

  lemma {:induction false} SignOf(s: string) returns (sign: string)
    requires s != "" && s[0] in "|&;<>" && NextLexeme(s).Ok? && !(s[0] == '<' && Doubled(s))
    ensures GoodSign(sign, NextLexeme(s).value.rest) && s == sign + NextLexeme(s).value.rest
  {
    assert "|&;<>" == ['|', '&', ';', '<', '>'];
    if Doubled(s) && s[0] != ';' {
      sign := s[..2];
      assert sign == [s[0], s[0]];
      assert "&&" == ['&', '&'] && "||" == ['|', '|'] && ">>" == ['>', '>'];
    } else {
      sign := s[..1];
      assert sign == [s[0]];
    }
  }

  lemma {:induction false} DelimiterOf(t: string) returns (gap: string, word: Spelled)
    requires HereDocLexeme(t).Ok?
    ensures Blanks(gap) && GoodWord(word, HereDocLexeme(t).value.rest)
    ensures t == gap + SpellWord(word, HereDocLexeme(t).value.rest)
  {
    gap := SkippedBlanks(t);
    word := WordOf(SkipSpaces(t));
  }

  lemma {:induction false} HereDocOf(s: string) returns (lex: Lex)
    requires |s| >= 2 && s[0] == '<' && Doubled(s) && NextLexeme(s).Ok?
    ensures lex.AHereDoc? && GoodLex(lex, [], NextLexeme(s).value.rest) && s == SpellLex(lex, NextLexeme(s).value.rest)
  {
    var t := s[2..];
    assert s == "<<" + t;
    DoubleLess(t);
    var gap, word := DelimiterOf(t);
    lex := AHereDoc(gap, word);
  }

  lemma {:induction false} LexOf(t: string, st: Lexed) returns (lex: Lex)
    requires t != "" && SkipSpaces(t) == t && Advance(t, st).Ok?
    ensures GoodLex(lex, st.pending, Advance(t, st).value.0) && t == SpellLex(lex, Advance(t, st).value.0)
  {
    assert "|&;<>" == ['|', '&', ';', '<', '>'];
    if t[0] == '\n' {
      var docs := DocsOf(t[1..], st.pending);
      lex := ANewline(docs);
      assert t == "\n" + t[1..];
    } else if t[0] == '<' && Doubled(t) {
      lex := HereDocOf(t);
    } else if t[0] in "|&;<>" {
      var sign := SignOf(t);
      lex := ASign(sign);
    } else {
      var word := WordOf(t);
      lex := AWord(word);
    }
  }

  lemma {:induction false} SkipsOnce(s: string)
    ensures SkipSpaces(SkipSpaces(s)) == SkipSpaces(s)
    decreases |s|
  {
    if s != "" && IsInlineSpace(s[0]) {
      SkipsOnce(s[1..]);
    }
  }

  lemma {:induction false} TokenizedIsSpelled(s: string, st: Lexed) returns (elements: seq<Element>, tail: string)
    requires TokenizeFrom(s, st).Ok?
    ensures Fits(elements, tail, st.pending) && s == SpellAll(elements, tail)
    decreases |s|
  {
    var t := SkipSpaces(s);
    var space := SkippedBlanks(s);
    SkipsOnce(s);
    if t == "" {
      elements, tail := [], s;
      assert space + "" == space;
    } else {
      var next := Advance(t, st).value;
      var lex := LexOf(t, st);
      LexAdvances(lex, next.0, st);
      var others;
      others, tail := TokenizedIsSpelled(next.0, next.1);
      elements := [Element(space, lex)] + others;
      assert elements[1..] == others;
    }
  }

  ghost predicate SpelledAs(s: string, tokens: seq<Token>, bodies: seq<string>)
  {
    exists elements, tail ::
      && Fits(elements, tail, []) && s == SpellAll(elements, tail)
      && tokens == AllTokens(elements) && bodies == AllBodies(elements)
  }

  /** The tokenizer, for every text: it succeeds exactly on spelled texts, with their tokens and
      bodies. */
  lemma {:induction false} TokenizeIff(s: string, tokens: seq<Token>, bodies: seq<string>)
    ensures Tokenize(s) == Ok(Lexed(tokens, bodies, [])) <==> SpelledAs(s, tokens, bodies)
  {
    var start := Lexed([], [], []);
    if Tokenize(s) == Ok(Lexed(tokens, bodies, [])) {
      var elements, tail := TokenizedIsSpelled(s, start);
      SpelledTokenizes(elements, tail, start);
      assert [] + AllTokens(elements) == AllTokens(elements) && [] + AllBodies(elements) == AllBodies(elements);
    }
    forall elements, tail | Fits(elements, tail, []) && s == SpellAll(elements, tail)
      ensures Tokenize(s) == Ok(Lexed(AllTokens(elements), AllBodies(elements), []))
    {
      SpelledTokenizes(elements, tail, start);
      assert [] + AllTokens(elements) == AllTokens(elements) && [] + AllBodies(elements) == AllBodies(elements);
    }
  }
}

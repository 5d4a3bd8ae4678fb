/** The tokenizer: byte scanning, quoting, operators and deferred heredoc bodies.
    Each scanner is a function on the text still to be read; the method of the same
    purpose is the index-based loop of the program, proved to agree with it. */
module ScriptLexer {
  import opened Prelude
  import opened ScriptIr

  /** A scanned piece of text and the input left after it. */
  datatype Scan = Scan(text: string, rest: string)

  /** What the tokenizer has accumulated so far. */
  datatype Lexed = Lexed(tokens: seq<Token>, bodies: seq<string>, pending: seq<string>)

  predicate IsInlineSpace(c: char) {
    c == ' ' || c == '\t' || c == '\r'
  }

  predicate EndsWord(c: char) {
    IsInlineSpace(c) || c == '\n' || c == '|' || c == '&' || c == ';' || c == '<' || c == '>'
  }

  predicate IsQuote(c: char) {
    c == '\'' || c == '"'
  }

  // ---------------------------------------------------------------- inline spaces

  function SkipSpaces(s: string): (rest: string)
    ensures |rest| <= |s|
    ensures rest != "" ==> !IsInlineSpace(rest[0])
  {
    if s == "" || !IsInlineSpace(s[0]) then s else SkipSpaces(s[1..])
  }

  method SkipInlineSpaces(input: string, idx: nat) returns (next: nat)
    requires idx <= |input|
    ensures idx <= next <= |input|
    ensures input[next..] == SkipSpaces(input[idx..])
  {
    next := idx;
    while next < |input|
      invariant idx <= next <= |input|
      invariant SkipSpaces(input[idx..]) == SkipSpaces(input[next..])
    {
      if !IsInlineSpace(input[next]) {
        return;
      }
      assert input[next..][1..] == input[next + 1..];
      next := next + 1;
    }
  }

  // ---------------------------------------------------------------- words

  /** The rest of a shell word, from the given quoting state. Backslash escapes the next
      byte everywhere, inside single quotes too. */
  function WordFrom(s: string, quote: Option<char>, escaped: bool, quoted: bool, buf: string)
    : (r: Result<Scan, ScriptError>)
    ensures r.Ok? ==> |r.value.rest| <= |s|
    ensures r.Ok? && quote.None? && !escaped && !quoted && buf == "" ==> |r.value.rest| < |s|
  {
    if s == "" then
      if quote.Some? then Err(UnclosedQuote)
      else
        var text := if escaped then buf + "\\" else buf;
        if text == "" && !quoted then Err(ExpectedToken) else Ok(Scan(text, s))
    else if escaped then WordFrom(s[1..], quote, false, quoted, buf + [s[0]])
    else if quote.Some? then
      if s[0] == quote.value then WordFrom(s[1..], None, false, quoted, buf)
      else if s[0] == '\\' then WordFrom(s[1..], quote, true, quoted, buf)
      else WordFrom(s[1..], quote, false, quoted, buf + [s[0]])
    else if s[0] == '\\' then WordFrom(s[1..], None, true, quoted, buf)
    else if IsQuote(s[0]) then WordFrom(s[1..], Some(s[0]), false, true, buf)
    else if EndsWord(s[0]) then
      if buf == "" && !quoted then Err(ExpectedToken) else Ok(Scan(buf, s))
    else WordFrom(s[1..], None, false, quoted, buf + [s[0]])
  }

  function Word(s: string): Result<Scan, ScriptError>
  {
    WordFrom(s, None, false, false, "")
  }

  /** The scanner's position, as an index, of what `Word` calls the rest. */
  method ReadShellWord(input: string, start: nat) returns (r: Result<(string, nat), ScriptError>)
    requires start <= |input|
    ensures r.Err? <==> Word(input[start..]).Err?
    ensures r.Err? ==> Word(input[start..]) == Err(r.error)
    ensures r.Ok? ==> start < r.value.1 <= |input|
    ensures r.Ok? ==> Word(input[start..]) == Ok(Scan(r.value.0, input[r.value.1..]))
  {
    if start >= |input| {
      return Err(ExpectedToken);
    }
    var quote: Option<char> := None;
    var buf := "";
    var escaped, quoted := false, false;
    var i := start;
    while i < |input|
      invariant start <= i <= |input|
      invariant Word(input[start..]) == WordFrom(input[i..], quote, escaped, quoted, buf)
    {
      var ch := input[i];
      assert input[i..][1..] == input[i + 1..];
      if escaped {
        buf := buf + [ch];
        escaped := false;
        i := i + 1;
      } else if quote.Some? {
        if ch == quote.value {
          quote := None;
        } else if ch == '\\' {
          escaped := true;
        } else {
          buf := buf + [ch];
        }
        i := i + 1;
      } else if ch == '\\' {
        escaped := true;
        i := i + 1;
      } else if IsQuote(ch) {
        quote := Some(ch);
        quoted := true;
        i := i + 1;
      } else if EndsWord(ch) {
        if |buf| == 0 && !quoted {
          return Err(ExpectedToken);
        }
        return Ok((buf, i));
      } else {
        buf := buf + [ch];
        i := i + 1;
      }
    }
    if quote.Some? {
      return Err(UnclosedQuote);
    }
    if escaped {
      buf := buf + "\\";
    }
    if |buf| == 0 && !quoted {
      return Err(ExpectedToken);
    }
    return Ok((buf, i));
  }

  // ---------------------------------------------------------------- heredoc bodies

  function LineEnd(s: string): (n: nat)
    ensures n <= |s|
    ensures n < |s| ==> s[n] == '\n'
    ensures forall k :: 0 <= k < n ==> s[k] != '\n'
  {
    if s == "" || s[0] == '\n' then 0 else 1 + LineEnd(s[1..])
  }

  /** strings.TrimSuffix(line, "\r") */
  function TrimCr(line: string): string
  {
    if line != "" && line[|line| - 1] == '\r' then line[..|line| - 1] else line
  }

  function HereDocFrom(s: string, delim: string, body: string): (r: Result<Scan, ScriptError>)
    decreases |s|
    ensures r.Ok? ==> |r.value.rest| < |s|
  {
    if s == "" then Err(UnterminatedHereDoc(delim))
    else
      var n := LineEnd(s);
      var line := TrimCr(s[..n]);
      var rest := if n < |s| then s[n + 1..] else s[n..];
      if line == delim then Ok(Scan(body, rest))
      else if |body + line| > MAX_HEREDOC_BYTES then Err(HereDocTooLarge)
      else HereDocFrom(rest, delim, if n < |s| then body + line + "\n" else body + line)
  }

  /** One line of a body, in terms of indices: the body so far, where the next line starts, and
      whether the line was the delimiter. */
  function LineStep(input: string, i: nat, delim: string, body: string): Result<(string, nat, bool), ScriptError>
    requires i <= |input|
  {
    LineTo(input, i, i + LineEnd(input[i..]), delim, body)
  }

  function LineTo(input: string, i: nat, end: nat, delim: string, body: string)
    : Result<(string, nat, bool), ScriptError>
    requires i <= end <= |input|
  {
    var line := TrimCr(input[i..end]);
    var next := if end < |input| then end + 1 else end;
    if line == delim then Ok((body, next, true))
    else if |body + line| > MAX_HEREDOC_BYTES then Err(HereDocTooLarge)
    else Ok((if end < |input| then body + line + "\n" else body + line, next, false))
  }

  lemma {:induction false} LineSlices(input: string, i: nat, end: nat)
    requires i <= end <= |input|
    ensures input[i..][..end - i] == input[i..end] && input[i..][end - i..] == input[end..]
    ensures end < |input| ==> input[i..][end - i + 1..] == input[end + 1..]
  {
  }

  /** What a line of a body says of the whole body. */
  lemma {:induction false} HereDocLine(input: string, i: nat, delim: string, body: string)
    requires i < |input|
    ensures var step, r := LineStep(input, i, delim, body), HereDocFrom(input[i..], delim, body);
            if step.Err? then r == Err(step.error)
            else
              i < step.value.1 <= |input| &&
              r == if step.value.2 then Ok(Scan(step.value.0, input[step.value.1..]))
                   else HereDocFrom(input[step.value.1..], delim, step.value.0)
  {
    var end := i + LineEnd(input[i..]);
    LineSlices(input, i, end);
    HereDocLineTo(input, i, end, delim, body);
  }

  lemma {:induction false} HereDocLineTo(input: string, i: nat, end: nat, delim: string, body: string)
    requires i < |input| && end == i + LineEnd(input[i..])
    requires input[i..][..end - i] == input[i..end] && input[i..][end - i..] == input[end..]
    requires end < |input| ==> input[i..][end - i + 1..] == input[end + 1..]
    ensures var step, r := LineTo(input, i, end, delim, body), HereDocFrom(input[i..], delim, body);
            if step.Err? then r == Err(step.error)
            else
              i < step.value.1 <= |input| &&
              r == if step.value.2 then Ok(Scan(step.value.0, input[step.value.1..]))
                   else HereDocFrom(input[step.value.1..], delim, step.value.0)
  {
    var line := TrimCr(input[i..end]);
    if line != delim && |body + line| <= MAX_HEREDOC_BYTES {
      if end < |input| {
        assert HereDocFrom(input[i..], delim, body) == HereDocFrom(input[end + 1..], delim, body + line + "\n");
      } else {
        assert HereDocFrom(input[i..], delim, body) == HereDocFrom(input[end..], delim, body + line);
      }
    }
  }

  method SkipLine(input: string, start: nat) returns (i: nat)
    requires start <= |input|
    ensures start <= i <= |input| && LineEnd(input[start..]) == i - start
    ensures i < |input| ==> input[i] == '\n'
  {
    i := start;
    while i < |input| && input[i] != '\n'
      invariant start <= i <= |input|
      invariant LineEnd(input[start..]) == i - start + LineEnd(input[i..])
    {
      assert input[i..][1..] == input[i + 1..];
      i := i + 1;
    }
  }

  method ReadHereDocLine(input: string, lineStart: nat, delim: string, body: string)
    returns (r: Result<(string, nat, bool), ScriptError>)
    requires lineStart < |input|
    ensures r == LineStep(input, lineStart, delim, body)
  {
    var i := SkipLine(input, lineStart);
    assert LineStep(input, lineStart, delim, body) == LineTo(input, lineStart, i, delim, body);
    var line := TrimCr(input[lineStart..i]);
    if line == delim {
      return Ok((body, if i < |input| then i + 1 else i, true));
    }
    var longer := body + line;
    if |longer| > MAX_HEREDOC_BYTES {
      return Err(HereDocTooLarge);
    }
    if i < |input| && input[i] == '\n' {
      return Ok((longer + "\n", i + 1, false));
    }
    return Ok((longer, i, false));
  }

  method ReadHereDocBody(input: string, start: nat, delim: string)
    returns (r: Result<(string, nat), ScriptError>)
    requires start <= |input|
    ensures r.Err? ==> HereDocFrom(input[start..], delim, "") == Err(r.error)
    ensures r.Ok? ==> start < r.value.1 <= |input|
    ensures r.Ok? ==> HereDocFrom(input[start..], delim, "") == Ok(Scan(r.value.0, input[r.value.1..]))
  {
    var i := start;
    var body := "";
    while true
      invariant start <= i <= |input|
      invariant HereDocFrom(input[start..], delim, "") == HereDocFrom(input[i..], delim, body)
      decreases |input| - i
    {
      if i >= |input| {
        return Err(UnterminatedHereDoc(delim));
      }
      HereDocLine(input, i, delim, body);
      var line := ReadHereDocLine(input, i, delim, body);
      if line.Err? {
        return Err(line.error);
      }
      if line.value.2 {
        return Ok((line.value.0, line.value.1));
      }
      body, i := line.value.0, line.value.1;
    }
  }

  /** The bodies read after a newline, one per pending delimiter, in order. */
  datatype Bodies = Bodies(texts: seq<string>, rest: string)

  function BodiesFrom(s: string, pending: seq<string>): (r: Result<Bodies, ScriptError>)
    ensures r.Ok? ==> |r.value.rest| <= |s| && |r.value.texts| == |pending|
    decreases |pending|
  {
    if pending == [] then Ok(Bodies([], s))
    else
      var first :- HereDocFrom(s, pending[0], "");
      var others :- BodiesFrom(first.rest, pending[1..]);
      Ok(Bodies([first.text] + others.texts, others.rest))
  }

  // ---------------------------------------------------------------- the tokenizer

  /** One lexeme that is not a newline: the tokens it emits, the heredoc delimiter it
      leaves pending (if any), and the rest of the input. */
  datatype Lexeme = Lexeme(tokens: seq<Token>, delims: seq<string>, rest: string)

  function Operator(kind: TokenKind, s: string): (r: Lexeme)
    requires |OperatorText(kind)| <= |s|
    ensures |r.rest| == |s| - |OperatorText(kind)|
  {
    Lexeme([Token(kind, OperatorText(kind))], [], s[|OperatorText(kind)|..])
  }

  predicate Doubled(s: string) {
    |s| >= 2 && s[0] == s[1]
  }

  /** What follows `<<`: inline spaces and the delimiter word. */
  function HereDocLexeme(s: string): (r: Result<Lexeme, ScriptError>)
    ensures r.Ok? ==> |r.value.rest| <= |s|
  {
    var t := SkipSpaces(s);
    if t == "" || t[0] == '\n' then Err(DelimiterRequired)
    else
      var word := Word(t);
      if word.Err? then Err(InvalidDelimiter(word.error))
      else
        Ok(Lexeme([Token(RedirHereDocToken, "<<"), Token(WordToken, word.value.text)],
                  [word.value.text], word.value.rest))
  }

  function NextLexeme(s: string): (r: Result<Lexeme, ScriptError>)
    requires s != "" && s[0] != '\n'
    ensures r.Ok? ==> |r.value.rest| < |s|
  {
    if s[0] == ';' then Ok(Operator(SemiToken, s))
    else if s[0] == '&' then
      if Doubled(s) then Ok(Operator(AndToken, s)) else Err(UnsupportedAmpersand)
    else if s[0] == '|' then
      Ok(Operator(if Doubled(s) then OrToken else PipeToken, s))
    else if s[0] == '>' then
      Ok(Operator(if Doubled(s) then RedirAppendToken else RedirOutToken, s))
    else if s[0] == '<' then
      if Doubled(s) then HereDocLexeme(s[2..]) else Ok(Operator(RedirInToken, s))
    else
      var word :- Word(s);
      Ok(Lexeme([Token(WordToken, word.text)], [], word.rest))
  }

  /** What one iteration of the tokenizer's loop does to what it has accumulated. */
  function Advance(t: string, st: Lexed): (r: Result<(string, Lexed), ScriptError>)
    requires t != ""
    ensures r.Ok? ==> |r.value.0| < |t|
  {
    if t[0] == '\n' then
      var docs :- BodiesFrom(t[1..], st.pending);
      Ok((docs.rest, Lexed(st.tokens + [SEMI], st.bodies + docs.texts, [])))
    else
      var lexeme :- NextLexeme(t);
      Ok((lexeme.rest, Lexed(st.tokens + lexeme.tokens, st.bodies, st.pending + lexeme.delims)))
  }

  function TokenizeFrom(s: string, st: Lexed): Result<Lexed, ScriptError>
    decreases |s|
  {
    var t := SkipSpaces(s);
    if t == "" then
      if st.pending != [] then Err(UnterminatedHereDoc(st.pending[0])) else Ok(st)
    else
      var next :- Advance(t, st);
      TokenizeFrom(next.0, next.1)
  }

  function Tokenize(s: string): Result<Lexed, ScriptError>
  {
    TokenizeFrom(s, Lexed([], [], []))
  }

  function Prepend(texts: seq<string>, r: Result<Bodies, ScriptError>): Result<Bodies, ScriptError>
  {
    if r.Err? then r else Ok(Bodies(texts + r.value.texts, r.value.rest))
  }

  lemma {:induction false} PrependNothing(r: Result<Bodies, ScriptError>)
    ensures Prepend([], r) == r
  {
    assert r.Ok? ==> [] + r.value.texts == r.value.texts;
  }

  lemma {:induction false} BodiesStep(s: string, pending: seq<string>, texts: seq<string>, first: Scan)
    requires pending != [] && HereDocFrom(s, pending[0], "") == Ok(first)
    ensures Prepend(texts, BodiesFrom(s, pending)) ==
            Prepend(texts + [first.text], BodiesFrom(first.rest, pending[1..]))
  {
    var others := BodiesFrom(first.rest, pending[1..]);
    if others.Ok? {
      assert texts + ([first.text] + others.value.texts) == texts + [first.text] + others.value.texts;
    }
  }

  /** The bodies of all pending heredocs, read one after another from `start`. */
  method ReadPendingBodies(input: string, start: nat, pending: seq<string>)
    returns (r: Result<(seq<string>, nat), ScriptError>)
    requires start <= |input|
    ensures r.Err? ==> BodiesFrom(input[start..], pending) == Err(r.error)
    ensures r.Ok? ==> start <= r.value.1 <= |input|
    ensures r.Ok? ==> BodiesFrom(input[start..], pending) == Ok(Bodies(r.value.0, input[r.value.1..]))
  {
    var texts: seq<string> := [];
    var i := start;
    ghost var goal := BodiesFrom(input[start..], pending);
    assert pending[0..] == pending;
    PrependNothing(goal);
    for k := 0 to |pending|
      invariant start <= i <= |input|
      invariant goal == Prepend(texts, BodiesFrom(input[i..], pending[k..]))
    {
      assert pending[k..][1..] == pending[k + 1..];
      var doc := ReadHereDocBody(input, i, pending[k]);
      if doc.Err? {
        return Err(doc.error);
      }
      BodiesStep(input[i..], pending[k..], texts, Scan(doc.value.0, input[doc.value.1..]));
      texts := texts + [doc.value.0];
      i := doc.value.1;
    }
    assert texts + [] == texts;
    return Ok((texts, i));
  }

  /** The tokenizer's `switch` on the next byte, newline excepted. */
  method ReadLexeme(input: string, i: nat)
    returns (r: Result<(seq<Token>, seq<string>, nat), ScriptError>)
    requires i < |input| && input[i] != '\n'
    ensures r.Err? ==> NextLexeme(input[i..]) == Err(r.error)
    ensures r.Ok? ==> i < r.value.2 <= |input|
    ensures r.Ok? ==> NextLexeme(input[i..]) == Ok(Lexeme(r.value.0, r.value.1, input[r.value.2..]))
  {
    var doubled := i + 1 < |input| && input[i + 1] == input[i];
    assert doubled == Doubled(input[i..]);
    assert input[i..][1..] == input[i + 1..];
    assert doubled ==> input[i..][2..] == input[i + 2..];
    match input[i] {
      case ';' => return Ok(([Token(SemiToken, ";")], [], i + 1));
      case '&' =>
        if !doubled {
          return Err(UnsupportedAmpersand);
        }
        return Ok(([Token(AndToken, "&&")], [], i + 2));
      case '|' =>
        if doubled {
          return Ok(([Token(OrToken, "||")], [], i + 2));
        }
        return Ok(([Token(PipeToken, "|")], [], i + 1));
      case '>' =>
        if doubled {
          return Ok(([Token(RedirAppendToken, ">>")], [], i + 2));
        }
        return Ok(([Token(RedirOutToken, ">")], [], i + 1));
      case '<' =>
        if doubled {
          var j := SkipInlineSpaces(input, i + 2);
          if j >= |input| || input[j] == '\n' {
            return Err(DelimiterRequired);
          }
          var delim := ReadShellWord(input, j);
          if delim.Err? {
            return Err(InvalidDelimiter(delim.error));
          }
          return Ok(([Token(RedirHereDocToken, "<<"), Token(WordToken, delim.value.0)],
                     [delim.value.0], delim.value.1));
        }
        return Ok(([Token(RedirInToken, "<")], [], i + 1));
      case _ =>
        var word := ReadShellWord(input, i);
        if word.Err? {
          return Err(word.error);
        }
        return Ok(([Token(WordToken, word.value.0)], [], word.value.1));
    }
  }

  method AdvanceAt(input: string, i: nat, tokens: seq<Token>, bodies: seq<string>, pending: seq<string>)
    returns (r: Result<(nat, seq<Token>, seq<string>, seq<string>), ScriptError>)
    requires i < |input|
    ensures r.Err? ==> Advance(input[i..], Lexed(tokens, bodies, pending)) == Err(r.error)
    ensures r.Ok? ==> i < r.value.0 <= |input|
    ensures r.Ok? ==> Advance(input[i..], Lexed(tokens, bodies, pending)) ==
                      Ok((input[r.value.0..], Lexed(r.value.1, r.value.2, r.value.3)))
  {
    if input[i] == '\n' {
      assert input[i..][1..] == input[i + 1..];
      var docs := ReadPendingBodies(input, i + 1, pending);
      if docs.Err? {
        return Err(docs.error);
      }
      return Ok((docs.value.1, tokens + [SEMI], bodies + docs.value.0, []));
    }
    var lexeme := ReadLexeme(input, i);
    if lexeme.Err? {
      return Err(lexeme.error);
    }
    return Ok((lexeme.value.2, tokens + lexeme.value.0, bodies, pending + lexeme.value.1));
  }

  method TokenizeScript(input: string) returns (r: Result<(seq<Token>, seq<string>), ScriptError>)
    ensures r.Err? ==> Tokenize(input) == Err(r.error)
    ensures r.Ok? ==> Tokenize(input) == Ok(Lexed(r.value.0, r.value.1, []))
  {
    var tokens: seq<Token> := [];
    var bodies: seq<string> := [];
    var pending: seq<string> := [];
    var i := 0;
    assert input[0..] == input;
    while i < |input|
      invariant i <= |input|
      invariant Tokenize(input) == TokenizeFrom(input[i..], Lexed(tokens, bodies, pending))
      decreases |input| - i
    {
      i := SkipInlineSpaces(input, i);
      if i >= |input| {
        break;
      }
      var step := AdvanceAt(input, i, tokens, bodies, pending);
      if step.Err? {
        return Err(step.error);
      }
      i, tokens, bodies, pending := step.value.0, step.value.1, step.value.2, step.value.3;
    }
    if |pending| > 0 {
      return Err(UnterminatedHereDoc(pending[0]));
    }
    return Ok((tokens, bodies));
  }
}

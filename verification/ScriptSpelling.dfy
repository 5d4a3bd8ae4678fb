/** How a shell word is spelled: plain bytes, escaped bytes and quoted runs. What the scanner makes of
    every text, stated on its spelling alone. */
module ScriptSpelling {
  import opened Prelude
  import opened ScriptIr
  import opened ScriptLexer

  const WORD_ENDS: string := " \t\r\n|&;<>"

  /** A byte inside quotes: as it is, or behind a backslash. */
  datatype Item = Bare(c: char) | Slashed(c: char)

  /** A part of a word: a byte as it is, a byte behind a backslash, or a quoted run. */
  datatype Piece = Plain(c: char) | Escaped(c: char) | Run(quote: char, items: seq<Item>)

  // ---------------------------------------------------------------- text and meaning

  function SpellItems(items: seq<Item>, after: string): string
  {
    if items == [] then after
    else if items[0].Bare? then [items[0].c] + SpellItems(items[1..], after)
    else "\\" + [items[0].c] + SpellItems(items[1..], after)
  }

  function ItemsText(items: seq<Item>): string
  {
    if items == [] then "" else [items[0].c] + ItemsText(items[1..])
  }

  /** The text of a word, followed by `after`. */
  function Spell(pieces: seq<Piece>, after: string): string
  {
    if pieces == [] then after
    else
      var rest := Spell(pieces[1..], after);
      match pieces[0]
      case Plain(c) => [c] + rest
      case Escaped(c) => "\\" + [c] + rest
      case Run(quote, items) => [quote] + SpellItems(items, [quote] + rest)
  }

  function PieceText(piece: Piece): string
  {
    match piece
    case Plain(c) => [c]
    case Escaped(c) => [c]
    case Run(_, items) => ItemsText(items)
  }

  /** The word that is meant. */
  function Meaning(pieces: seq<Piece>): string
  {
    if pieces == [] then "" else PieceText(pieces[0]) + Meaning(pieces[1..])
  }

  predicate GoodItems(quote: char, items: seq<Item>)
  {
    forall k :: 0 <= k < |items| && items[k].Bare? ==> items[k].c != quote && items[k].c != '\\'
  }

  predicate GoodPiece(piece: Piece)
  {
    match piece
    case Plain(c) => c !in WORD_ENDS && c != '\\' && c != '\'' && c != '"'
    case Escaped(_) => true
    case Run(quote, items) => (quote == '\'' || quote == '"') && GoodItems(quote, items)
  }

  predicate GoodPieces(pieces: seq<Piece>)
  {
    forall k :: 0 <= k < |pieces| ==> GoodPiece(pieces[k])
  }

  /** Nothing follows, or a byte that ends a word. */
  predicate AtEnd(after: string) {
    after == "" || after[0] in WORD_ENDS
  }

  lemma {:induction false} WordEnds(c: char)
    ensures EndsWord(c) <==> c in WORD_ENDS
  {
    assert WORD_ENDS == [' ', '\t', '\r', '\n', '|', '&', ';', '<', '>'];
  }

  // ---------------------------------------------------------------- scanning a spelling

  lemma {:induction false} ItemsScan(quote: char, items: seq<Item>, after: string, buf: string)
    requires (quote == '\'' || quote == '"') && GoodItems(quote, items)
    ensures WordFrom(SpellItems(items, after), Some(quote), false, true, buf) ==
            WordFrom(after, Some(quote), false, true, buf + ItemsText(items))
    decreases |items|
  {
    if items == [] {
      assert buf + "" == buf;
    } else {
      var c, rest := items[0].c, SpellItems(items[1..], after);
      assert ([c] + rest)[1..] == rest;
      if items[0].Slashed? {
        var s := "\\" + [c] + rest;
        assert s[1..] == [c] + rest;
        assert WordFrom(s, Some(quote), false, true, buf) == WordFrom([c] + rest, Some(quote), true, true, buf);
      }
      ItemsScan(quote, items[1..], after, buf + [c]);
      ConcatAssociates(buf, [c], ItemsText(items[1..]));
    }
  }

  predicate HasRun(pieces: seq<Piece>) {
    exists k :: 0 <= k < |pieces| && pieces[k].Run?
  }

  lemma {:induction false} PieceScans(piece: Piece, rest: string, quoted: bool, buf: string)
    requires GoodPiece(piece)
    ensures WordFrom(Spell([piece], rest), None, false, quoted, buf) ==
            WordFrom(rest, None, false, quoted || piece.Run?, buf + PieceText(piece))
  {
    assert Spell([], rest) == rest;
    match piece {
      case Plain(c) =>
        WordEnds(c);
        assert ([c] + rest)[1..] == rest;
      case Escaped(c) =>
        var s := "\\" + [c] + rest;
        assert s[1..] == [c] + rest && ([c] + rest)[1..] == rest;
        assert WordFrom(s, None, false, quoted, buf) == WordFrom([c] + rest, None, true, quoted, buf);
      case Run(quote, items) =>
        var closing := [quote] + rest;
        var s := [quote] + SpellItems(items, closing);
        assert s[1..] == SpellItems(items, closing) && closing[1..] == rest;
        assert WordFrom(s, None, false, quoted, buf) == WordFrom(s[1..], Some(quote), false, true, buf);
        ItemsScan(quote, items, closing, buf);
    }
  }

  lemma {:induction false} SpellFirst(pieces: seq<Piece>, after: string)
    requires pieces != []
    ensures Spell(pieces, after) == Spell([pieces[0]], Spell(pieces[1..], after))
  {
    assert [pieces[0]][1..] == [];
  }

  lemma {:induction false} PiecesScan(pieces: seq<Piece>, after: string, quoted: bool, buf: string)
    requires GoodPieces(pieces)
    ensures WordFrom(Spell(pieces, after), None, false, quoted, buf) ==
            WordFrom(after, None, false, quoted || HasRun(pieces), buf + Meaning(pieces))
    decreases |pieces|
  {
    if pieces == [] {
      assert buf + "" == buf;
    } else {
      var piece, rest := pieces[0], pieces[1..];
      SpellFirst(pieces, after);
      PieceScans(piece, Spell(rest, after), quoted, buf);
      PiecesScan(rest, after, quoted || piece.Run?, buf + PieceText(piece));
      ConcatAssociates(buf, PieceText(piece), Meaning(rest));
      assert HasRun(pieces) <==> piece.Run? || HasRun(rest) by {
        assert forall k :: 0 <= k < |rest| ==> rest[k] == pieces[k + 1];
        assert forall k :: 1 <= k < |pieces| ==> pieces[k] == rest[k - 1];
      }
    }
  }

  lemma {:induction false} MeansSomething(pieces: seq<Piece>)
    requires pieces != []
    ensures Meaning(pieces) != "" || HasRun(pieces)
  {
    assert pieces[0].Run? ==> HasRun(pieces);
  }

  /** A spelled word is read as the word that is meant, and the scanner stops right behind it. */
  lemma {:induction false} SpelledWord(pieces: seq<Piece>, after: string)
    requires pieces != [] && GoodPieces(pieces) && AtEnd(after)
    ensures Word(Spell(pieces, after)) == Ok(Scan(Meaning(pieces), after))
  {
    PiecesScan(pieces, after, false, "");
    MeansSomething(pieces);
    assert "" + Meaning(pieces) == Meaning(pieces);
    if after != "" {
      WordEnds(after[0]);
    }
  }

  /** A backslash at the very end of the input stands for itself. */
  lemma {:induction false} LastBackslash(pieces: seq<Piece>)
    requires GoodPieces(pieces)
    ensures Word(Spell(pieces, "\\")) == Ok(Scan(Meaning(pieces) + "\\", ""))
  {
    PiecesScan(pieces, "\\", false, "");
    assert "" + Meaning(pieces) == Meaning(pieces);
    var quoted := HasRun(pieces);
    assert "\\"[1..] == "";
    assert WordFrom("\\", None, false, quoted, Meaning(pieces)) == WordFrom("", None, true, quoted, Meaning(pieces));
  }

  /** A quoted run that is never closed. */
  lemma {:induction false} OpenQuote(pieces: seq<Piece>, quote: char, items: seq<Item>, tail: string)
    requires GoodPieces(pieces) && (quote == '\'' || quote == '"') && GoodItems(quote, items)
    requires tail == "" || tail == "\\"
    ensures Word(Spell(pieces, [quote] + SpellItems(items, tail))) == Err(UnclosedQuote)
  {
    var s := [quote] + SpellItems(items, tail);
    PiecesScan(pieces, s, false, "");
    var quoted, buf := HasRun(pieces), "" + Meaning(pieces);
    assert s[1..] == SpellItems(items, tail);
    assert WordFrom(s, None, false, quoted, buf) == WordFrom(s[1..], Some(quote), false, true, buf);
    ItemsScan(quote, items, tail, buf);
    assert tail != "" ==> tail[1..] == "";
  }

  lemma {:induction false} NoWord(s: string)
    requires AtEnd(s)
    ensures Word(s) == Err(ExpectedToken)
  {
    if s != "" {
      WordEnds(s[0]);
    }
  }

  // ---------------------------------------------------------------- every text has one of these forms

  datatype Form =
    | Missing
    | Closed(pieces: seq<Piece>, after: string)
    | Dangling(pieces: seq<Piece>)
    | Open(pieces: seq<Piece>, quote: char, items: seq<Item>, tail: string)

  predicate HasForm(s: string, form: Form)
  {
    match form
    case Missing => AtEnd(s)
    case Closed(pieces, after) => pieces != [] && GoodPieces(pieces) && AtEnd(after) && s == Spell(pieces, after)
    case Dangling(pieces) => GoodPieces(pieces) && s == Spell(pieces, "\\")
    case Open(pieces, quote, items, tail) =>
      && GoodPieces(pieces) && (quote == '\'' || quote == '"') && GoodItems(quote, items)
      && (tail == "" || tail == "\\") && s == Spell(pieces, [quote] + SpellItems(items, tail))
  }

  /** What a text of that form is scanned as. */
  function Verdict(form: Form): Result<Scan, ScriptError>
  {
    match form
    case Missing => Err(ExpectedToken)
    case Closed(pieces, after) => Ok(Scan(Meaning(pieces), after))
    case Dangling(pieces) => Ok(Scan(Meaning(pieces) + "\\", ""))
    case Open(_, _, _, _) => Err(UnclosedQuote)
  }

  /** The bytes of a quoted run, up to its closing quote or the end of the input. */
  lemma {:induction false} RunOf(quote: char, s: string) returns (items: seq<Item>, tail: string)
    requires quote == '\'' || quote == '"'
    ensures GoodItems(quote, items) && s == SpellItems(items, tail) && |tail| <= |s|
    ensures tail == "" || tail == "\\" || tail[0] == quote
    decreases |s|
  {
    if s == "" || s == "\\" || s[0] == quote {
      items, tail := [], s;
    } else if s[0] == '\\' {
      var others;
      others, tail := RunOf(quote, s[2..]);
      items := [Slashed(s[1])] + others;
      assert items[1..] == others;
      assert s == "\\" + [s[1]] + s[2..];
    } else {
      var others;
      others, tail := RunOf(quote, s[1..]);
      items := [Bare(s[0])] + others;
      assert items[1..] == others;
      assert s == [s[0]] + s[1..];
    }
  }

  function Behind(piece: Piece, form: Form, after: string): Form
  {
    match form
    case Missing => Closed([piece], after)
    case Closed(pieces, rest) => Closed([piece] + pieces, rest)
    case Dangling(pieces) => Dangling([piece] + pieces)
    case Open(pieces, quote, items, tail) => Open([piece] + pieces, quote, items, tail)
  }

  lemma {:induction false} FormBehind(piece: Piece, rest: string, form: Form)
    requires GoodPiece(piece) && HasForm(rest, form)
    ensures HasForm(Spell([piece], rest), Behind(piece, form, rest))
  {
    if !form.Missing? {
      var pieces := [piece] + form.pieces;
      assert pieces[1..] == form.pieces && pieces[0] == piece;
      var inner := match form
        case Closed(_, after) => after
        case Dangling(_) => "\\"
        case Open(_, quote, items, tail) => [quote] + SpellItems(items, tail)
        case Missing => "";
      SpellFirst(pieces, inner);
    }
  }

  /** Every text has a form. */
  lemma {:induction false} FormOf(s: string) returns (form: Form)
    ensures HasForm(s, form)
    decreases |s|
  {
    if s == "" {
      return Missing;
    }
    var c := s[0];
    WordEnds(c);
    if EndsWord(c) {
      return Missing;
    }
    assert s == [c] + s[1..];
    if s == "\\" {
      form := Dangling([]);
    } else if c == '\\' {
      var later := FormOf(s[2..]);
      FormBehind(Escaped(s[1]), s[2..], later);
      assert s == "\\" + [s[1]] + s[2..];
      assert Spell([], s[2..]) == s[2..] && [Escaped(s[1])][1..] == [];
      form := Behind(Escaped(s[1]), later, s[2..]);
    } else if c == '\'' || c == '"' {
      var items, tail := RunOf(c, s[1..]);
      if tail == "" || tail == "\\" {
        form := Open([], c, items, tail);
      } else {
        var later := FormOf(tail[1..]);
        FormBehind(Run(c, items), tail[1..], later);
        assert tail == [c] + tail[1..];
        assert Spell([], tail[1..]) == tail[1..] && [Run(c, items)][1..] == [];
        form := Behind(Run(c, items), later, tail[1..]);
      }
    } else {
      var later := FormOf(s[1..]);
      FormBehind(Plain(c), s[1..], later);
      assert Spell([], s[1..]) == s[1..] && [Plain(c)][1..] == [];
      form := Behind(Plain(c), later, s[1..]);
    }
  }

  lemma {:induction false} FormDecides(s: string, form: Form)
    requires HasForm(s, form)
    ensures Word(s) == Verdict(form)
  {
    match form
    case Missing => NoWord(s);
    case Closed(pieces, after) => SpelledWord(pieces, after);
    case Dangling(pieces) => LastBackslash(pieces);
    case Open(pieces, quote, items, tail) => OpenQuote(pieces, quote, items, tail);
  }

  /** The scanner, for every text: its result is the one that a spelling of the text tells, and there
      always is a spelling. */
  lemma {:induction false} WordIff(s: string, r: Result<Scan, ScriptError>)
    ensures Word(s) == r <==> exists form :: HasForm(s, form) && Verdict(form) == r
  {
    var form := FormOf(s);
    FormDecides(s, form);
    forall other | HasForm(s, other)
      ensures Verdict(other) == Word(s)
    {
      FormDecides(s, other);
    }
  }
}

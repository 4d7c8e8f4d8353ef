/**
 The shell words at the start of a command line (src/cli/codex-command-classification.ts): a tokenizer with a
 limit, and every way to write its words.
 */
module ShellWords {
  import opened Common

  // ---------------------------------------------------------------- shell words

  function Mark(quote: Quote): char { if quote == Single then '\'' else '"' }

  function NonEmptyWord(word: string): seq<string> { if word == "" then [] else [word] }

  /** The words of a text, read on with `current` already collected.  A word with nothing in it is no
      word, even between quotes, and a quote left open ends with the text. */
  function Words(s: string, current: string, quote: Quote): seq<string> {
    if s == [] then NonEmptyWord(current)
    else
      var c, rest := s[0], s[1..];
      if quote != Bare then
        if c == Mark(quote) then Words(rest, current, Bare) else Words(rest, current + [c], quote)
      else if c == '"' || c == '\'' then Words(rest, current, if c == '"' then Double else Single)
      else if IsSpace(c) then NonEmptyWord(current) + Words(rest, "", Bare)
      else Words(rest, current + [c], Bare)
  }

  method TokenizeLeadingShellWords(command: string, limit: nat) returns (tokens: seq<string>)
    ensures limit > 0 ==> tokens == Take(Words(command, "", Bare), limit)
  {
    tokens := [];
    var current, quote := "", Bare;
    for i := 0 to |command|
      invariant tokens + Words(command[i..], current, quote) == Words(command, "", Bare)
      invariant limit > 0 ==> |tokens| < limit
    {
      var ch := command[i];
      assert command[i..][0] == ch && command[i..][1..] == command[i + 1..];
      if quote != Bare {
        if ch == Mark(quote) {
          quote := Bare;
        } else {
          current := current + [ch];
        }
        continue;
      }
      if ch == '"' || ch == '\'' {
        quote := if ch == '"' then Double else Single;
        continue;
      }
      if IsSpace(ch) {
        if current != "" {
          tokens := tokens + [current];
          if |tokens| >= limit {
            return;
          }
          current := "";
        }
        continue;
      }
      current := current + [ch];
    }
    if current != "" && |tokens| < limit {
      tokens := tokens + [current];
    }
  }

  /** A word as someone may write it: pieces side by side, each bare or between quotes of one kind. */
  datatype Piece = Plain(text: string) | Quoted(text: string, quote: Quote)

  ghost predicate ValidPiece(piece: Piece) {
    match piece
    case Plain(text) => text != "" && forall c :: c in text ==> !IsSpace(c) && c != '"' && c != '\''
    case Quoted(text, quote) => quote != Bare && Mark(quote) !in text
  }

  function Spelled(piece: Piece): string {
    match piece
    case Plain(text) => text
    case Quoted(text, quote) => [Mark(quote)] + text + [Mark(quote)]
  }

  ghost predicate ValidWord(word: seq<Piece>) { word != [] && forall piece :: piece in word ==> ValidPiece(piece) }

  function TextOf(word: seq<Piece>): string { if word == [] then "" else word[0].text + TextOf(word[1..]) }

  function Spelling(word: seq<Piece>): string {
    if word == [] then "" else Spelled(word[0]) + Spelling(word[1..])
  }

  ghost predicate IsBlank(s: string) { forall c :: c in s ==> IsSpace(c) }

  /** A word and the blanks in front of it. */
  datatype Spaced = Spaced(gap: string, word: seq<Piece>)

  ghost predicate ValidLine(line: seq<Spaced>) {
    && (forall w :: w in line ==> IsBlank(w.gap) && ValidWord(w.word))
    && forall i :: 0 < i < |line| ==> line[i].gap != ""
  }

  function LineText(line: seq<Spaced>): string {
    if line == [] then "" else line[0].gap + Spelling(line[0].word) + LineText(line[1..])
  }

  function LineWords(line: seq<Spaced>): seq<string> {
    if line == [] then [] else [TextOf(line[0].word)] + LineWords(line[1..])
  }

  function NotEmpty(word: string): bool { word != "" }

  lemma {:induction false} BareIsRead(text: string, rest: string, current: string)
    requires forall c :: c in text ==> !IsSpace(c) && c != '"' && c != '\''
    ensures Words(text + rest, current, Bare) == Words(rest, current + text, Bare)
  {
    hide IsSpace;
    if text == "" {
      assert text + rest == rest && current + text == current;
    } else {
      assert text[0] in text && forall c :: c in text[1..] ==> c in text;
      assert (text + rest)[0] == text[0] && (text + rest)[1..] == text[1..] + rest;
      assert current + text == (current + [text[0]]) + text[1..];
      BareIsRead(text[1..], rest, current + [text[0]]);
    }
  }

  lemma {:induction false} InsideIsRead(text: string, rest: string, current: string, quote: Quote)
    requires quote != Bare && Mark(quote) !in text
    ensures Words(text + [Mark(quote)] + rest, current, quote) == Words(rest, current + text, Bare)
  {
    var all := text + [Mark(quote)] + rest;
    if text == "" {
      assert all[0] == Mark(quote) && all[1..] == rest && current + text == current;
    } else {
      assert all[0] == text[0] && all[1..] == text[1..] + [Mark(quote)] + rest;
      assert current + text == (current + [text[0]]) + text[1..];
      InsideIsRead(text[1..], rest, current + [text[0]], quote);
    }
  }

  lemma PieceIsRead(piece: Piece, rest: string, current: string)
    requires ValidPiece(piece)
    ensures Words(Spelled(piece) + rest, current, Bare) == Words(rest, current + piece.text, Bare)
  {
    match piece
    case Plain(text) => BareIsRead(text, rest, current);
    case Quoted(text, quote) =>
      var all := Spelled(piece) + rest;
      assert all[0] == Mark(quote) && all[1..] == text + [Mark(quote)] + rest;
      InsideIsRead(text, rest, current, quote);
  }

  lemma {:induction false} WordIsRead(word: seq<Piece>, rest: string, current: string)
    requires forall piece :: piece in word ==> ValidPiece(piece)
    ensures Words(Spelling(word) + rest, current, Bare) == Words(rest, current + TextOf(word), Bare)
  {
    hide Words, ValidPiece, Spelled;
    if word == [] {
      assert Spelling(word) + rest == rest && current + TextOf(word) == current;
    } else {
      var more := Spelling(word[1..]) + rest;
      assert Spelling(word) + rest == Spelled(word[0]) + more;
      assert current + TextOf(word) == (current + word[0].text) + TextOf(word[1..]);
      PieceIsRead(word[0], more, current);
      WordIsRead(word[1..], rest, current + word[0].text);
    }
  }

  lemma {:induction false} BlanksAreRead(gap: string, rest: string)
    requires IsBlank(gap)
    ensures Words(gap + rest, "", Bare) == Words(rest, "", Bare)
  {
    if gap == "" {
      assert gap + rest == rest;
    } else {
      assert gap[0] in gap && gap[0] != '"' && gap[0] != '\'';
      hide IsSpace;
      assert forall c :: c in gap[1..] ==> c in gap;
      assert (gap + rest)[0] == gap[0] && (gap + rest)[1..] == gap[1..] + rest;
      BlanksAreRead(gap[1..], rest);
    }
  }

  lemma BlankEndsWord(gap: string, rest: string, current: string)
    requires IsBlank(gap) && gap != ""
    ensures Words(gap + rest, current, Bare) == NonEmptyWord(current) + Words(gap + rest, "", Bare)
  {
    assert gap[0] in gap;
    assert (gap + rest)[0] == gap[0] && gap[0] != '"' && gap[0] != '\'';
  }

  lemma LineSplits(line: seq<Spaced>)
    requires line != [] && ValidLine(line)
    ensures ValidLine(line[1..])
    ensures LineText(line) == line[0].gap + (Spelling(line[0].word) + LineText(line[1..]))
    ensures LineText(line[1..]) == ""
         || (line[1].gap != "" && IsBlank(line[1].gap)
             && LineText(line[1..]) == line[1].gap + (Spelling(line[1].word) + LineText(line[1..][1..])))
  {
    LineFirst(line);
    var more := line[1..];
    hide ValidWord, LineText, Spelling, IsBlank;
    forall i | 0 < i < |more| ensures more[i].gap != "" {
      assert more[i] == line[i + 1];
    }
    if more == [] {
      assert LineText(more) == "" by { NoLine(); }
    } else {
      assert more[0] == line[1] && more[0] in line;
      LineFirst(more);
    }
  }

  lemma NoLine()
    ensures LineText([]) == ""
  {
  }

  lemma LineFirst(line: seq<Spaced>)
    requires line != []
    ensures LineText(line) == line[0].gap + (Spelling(line[0].word) + LineText(line[1..]))
  {
    hide Spelling;
  }

  /** Words written in any quoting and any spacing are read back in order, except that empty ones are lost. */
  lemma {:induction false} LineIsRead(line: seq<Spaced>)
    requires ValidLine(line)
    ensures Words(LineText(line), "", Bare) == Filter(NotEmpty, LineWords(line))
  {
    if line != [] {
      LineSplits(line);
      LineIsRead(line[1..]);
      var word, rest := line[0].word, LineText(line[1..]);
      hide LineText, Spelling, TextOf, ValidLine, IsBlank, ValidWord;
      BlanksAreRead(line[0].gap, Spelling(word) + rest);
      WordIsRead(word, rest, "");
      assert "" + TextOf(word) == TextOf(word);
      if rest != "" {
        BlankEndsWord(line[1].gap, Spelling(line[1].word) + LineText(line[1..][1..]), TextOf(word));
      } else {
        NothingLeft(TextOf(word));
      }
      hide Words;
      assert Filter(NotEmpty, LineWords(line)) == NonEmptyWord(TextOf(word)) + Filter(NotEmpty, LineWords(line[1..]));
    }
  }

  lemma NothingLeft(current: string)
    ensures Words("", current, Bare) == NonEmptyWord(current) + Words("", "", Bare)
  {
  }

  // ---------------------------------------------------------------- trimming

  function TrimStart(s: string): string { if s != "" && IsSpace(s[0]) then TrimStart(s[1..]) else s }

  function TrimEnd(s: string): string {
    if s != "" && IsSpace(s[|s| - 1]) then TrimEnd(s[..|s| - 1]) else s
  }

  function Trim(s: string): string { TrimEnd(TrimStart(s)) }

  lemma {:induction false} TrimStartIs(lead: string, s: string)
    requires IsBlank(lead) && (s != "" ==> !IsSpace(s[0]))
    ensures TrimStart(lead + s) == s
  {
    if lead == "" {
      assert lead + s == s;
    } else {
      assert (lead + s)[0] == lead[0] && (lead + s)[1..] == lead[1..] + s;
      TrimStartIs(lead[1..], s);
    }
  }

  lemma {:induction false} TrimEndIs(s: string, tail: string)
    requires IsBlank(tail) && (s != "" ==> !IsSpace(s[|s| - 1]))
    ensures TrimEnd(s + tail) == s
  {
    if tail == "" {
      assert s + tail == s;
    } else {
      var all := s + tail;
      assert all[|all| - 1] == tail[|tail| - 1] && all[..|all| - 1] == s + tail[..|tail| - 1];
      TrimEndIs(s, tail[..|tail| - 1]);
    }
  }

  predicate Solid(s: string) { s != "" && !IsSpace(s[0]) && !IsSpace(s[|s| - 1]) }

  lemma PieceIsSolid(piece: Piece)
    requires ValidPiece(piece)
    ensures Solid(Spelled(piece))
  {
    if piece.Plain? {
      assert piece.text[0] in piece.text && piece.text[|piece.text| - 1] in piece.text;
    }
  }

  lemma {:induction false} WordIsSolid(word: seq<Piece>)
    requires ValidWord(word)
    ensures Solid(Spelling(word))
  {
    PieceIsSolid(word[0]);
    assert Spelling(word) == Spelled(word[0]) + Spelling(word[1..]);
    if |word| > 1 {
      WordIsSolid(word[1..]);
    } else {
      assert Spelling(word[1..]) == "";
    }
    hide Spelling, Spelled;
  }

  lemma {:induction false} LineIsSolid(line: seq<Spaced>)
    requires line != [] && ValidLine(line)
    ensures var text := LineText(line);
            |text| > |line[0].gap| && text[..|line[0].gap|] == line[0].gap
            && !IsSpace(text[|line[0].gap|]) && !IsSpace(text[|text| - 1])
  {
    hide ValidWord, LineText, Spelling, IsBlank;
    LineSplits(line);
    WordIsSolid(line[0].word);
    if |line| > 1 {
      LineIsSolid(line[1..]);
    } else {
      assert line[1..] == [];
      NoLine();
    }
    EndsAreSolid(line[0].gap, Spelling(line[0].word), LineText(line[1..]));
  }

  lemma EndsAreSolid(gap: string, word: string, more: string)
    requires Solid(word) && (more != "" ==> !IsSpace(more[|more| - 1]))
    ensures var text := gap + (word + more);
            text[..|gap|] == gap && !IsSpace(text[|gap|]) && !IsSpace(text[|text| - 1])
  {
    hide IsSpace;
  }

  lemma TrimmedLine(line: seq<Spaced>, tail: string)
    requires line != [] && ValidLine(line) && IsBlank(tail)
    ensures Words(Trim(LineText(line) + tail), "", Bare) == Filter(NotEmpty, LineWords(line))
  {
    hide Words, ValidWord, Spelling, LineText;
    var text, gap := LineText(line), line[0].gap;
    LineIsSolid(line);
    var core := text[|gap|..];
    assert text + tail == gap + (core + tail);
    TrimStartIs(gap, core + tail);
    TrimEndIs(core, tail);
    BlanksAreRead(gap, core);
    assert gap + core == text;
    LineIsRead(line);
  }

  // ---------------------------------------------------------------- every list of words

  /** The command line spells these words, in some quoting and spacing. */
  ghost predicate Spells(command: string, words: seq<string>) {
    exists line: seq<Spaced>, tail: string ::
      line != [] && ValidLine(line) && IsBlank(tail) && LineText(line) + tail == command && LineWords(line) == words
  }

  /** Every list of words can be spelled. */
  function Spelt(word: string): seq<Piece> {
    if word == "" then [Quoted("", Single)]
    else seq(|word|, i requires 0 <= i < |word| => Quoted([word[i]], if word[i] == '\'' then Double else Single))
  }

  lemma {:induction false} PiecesSpell(word: string, pieces: seq<Piece>)
    requires |pieces| == |word| && forall i :: 0 <= i < |word| ==> pieces[i].text == [word[i]]
    ensures TextOf(pieces) == word
  {
    if word != "" {
      PiecesSpell(word[1..], pieces[1..]);
    }
  }

  lemma SpeltIsWord(word: string)
    ensures ValidWord(Spelt(word)) && TextOf(Spelt(word)) == word
  {
    if word == "" {
      assert TextOf(Spelt(word)) == "";
    } else {
      PiecesSpell(word, Spelt(word));
    }
  }

  lemma {:induction false} SpeltLine(words: seq<string>) returns (line: seq<Spaced>)
    ensures ValidLine(line) && |line| == |words| && LineWords(line) == words
    ensures forall w :: w in line ==> w.gap == " "
  {
    if words == [] {
      return [];
    }
    var rest := SpeltLine(words[1..]);
    SpeltIsWord(words[0]);
    hide TextOf, ValidWord, Spelt;
    line := [Spaced(" ", Spelt(words[0]))] + rest;
    assert forall w :: w in line <==> w == line[0] || w in rest;
    assert line[1..] == rest;
    forall i | 0 < i < |line| ensures line[i].gap != "" { assert line[i] in line; }
  }

  lemma EveryListIsSpelled(words: seq<string>) returns (command: string)
    requires words != []
    ensures Spells(command, words)
  {
    var line := SpeltLine(words);
    hide ValidLine, LineText, LineWords;
    command := LineText(line) + "";
    assert IsBlank("");
  }
}

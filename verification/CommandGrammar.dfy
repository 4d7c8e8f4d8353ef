/**
 What the recovery-command tokenizer reads (src/cli/orchestration-mutation-recovery.ts): every line is a row of
 blanks, characters, escapes and quoted texts, with a quote left open at its end or not, and is read as these say.
 */
module CommandGrammar {
  import opened Common
  import opened CommandLine

  /** Inside double quotes: a character, an escaped quote or backslash, or a backslash before anything else. */
  datatype Unit = Raw(c: char) | Escaped(c: char) | SlashThen(c: char)

  datatype Symbol =
    | Blank(c: char)
    | Char(c: char)              // no blank, quote or backslash
    | Escape(c: char)            // a backslash and a space, backslash or quote
    | Slash                      // a backslash before anything else
    | InSingle(text: string)
    | InDouble(units: seq<Unit>)

  /** What follows the last symbol: nothing, or a text whose quote is never closed. */
  datatype Tail = Closed | OpenSingle(text: string) | OpenDouble(units: seq<Unit>, slash: bool)

  predicate IsEscapable(c: char) { c == ' ' || c == '\\' || c == '\'' || c == '"' }

  predicate IsQuoteOrSlash(c: char) { c == '"' || c == '\\' }

  predicate ValidUnit(unit: Unit) { unit.Escaped? <==> IsQuoteOrSlash(unit.c) }

  predicate ValidUnits(units: seq<Unit>) { forall unit :: unit in units ==> ValidUnit(unit) }

  predicate ValidSymbol(symbol: Symbol) {
    match symbol
    case Blank(c) => IsSpace(c)
    case Char(c) => !IsSpace(c) && !IsEscapable(c)
    case Escape(c) => IsEscapable(c)
    case Slash => true
    case InSingle(text) => '\'' !in text
    case InDouble(units) => ValidUnits(units)
  }

  predicate ValidTail(tail: Tail) {
    match tail
    case Closed => true
    case OpenSingle(text) => '\'' !in text
    case OpenDouble(units, _) => ValidUnits(units)
  }

  function SpelledUnit(unit: Unit): string { if unit.Raw? then [unit.c] else ['\\', unit.c] }

  function SpelledUnits(units: seq<Unit>): string {
    if units == [] then "" else SpelledUnit(units[0]) + SpelledUnits(units[1..])
  }

  function SpelledSymbol(symbol: Symbol): string {
    match symbol
    case Blank(c) => [c]
    case Char(c) => [c]
    case Escape(c) => ['\\', c]
    case Slash => "\\"
    case InSingle(text) => "'" + text + "'"
    case InDouble(units) => "\"" + SpelledUnits(units) + "\""
  }

  function SpelledTail(tail: Tail): string {
    match tail
    case Closed => ""
    case OpenSingle(text) => "'" + text
    case OpenDouble(units, slash) => "\"" + (SpelledUnits(units) + if slash then "\\" else "")
  }

  function Spelled(symbols: seq<Symbol>, tail: Tail): string {
    if symbols == [] then SpelledTail(tail) else SpelledSymbol(symbols[0]) + Spelled(symbols[1..], tail)
  }

  /** A backslash that stands for itself is not followed by what it would escape. */
  ghost predicate Valid(symbols: seq<Symbol>, tail: Tail) {
    if symbols == [] then ValidTail(tail)
    else
      && ValidSymbol(symbols[0]) && Valid(symbols[1..], tail)
      && (symbols[0].Slash? ==>
            var rest := Spelled(symbols[1..], tail); rest != "" ==> !IsEscapable(rest[0]))
  }

  function UnitText(unit: Unit): string { if unit.SlashThen? then ['\\', unit.c] else [unit.c] }

  function UnitsText(units: seq<Unit>): string {
    if units == [] then "" else UnitText(units[0]) + UnitsText(units[1..])
  }

  function TextOf(symbol: Symbol): string {
    match symbol
    case Blank(_) => ""
    case Char(c) => [c]
    case Escape(c) => [c]
    case Slash => "\\"
    case InSingle(text) => text
    case InDouble(units) => UnitsText(units)
  }

  /** The words between the blanks; a word is there as soon as any symbol of it is, be it an empty quoted text. */
  function WordsOf(symbols: seq<Symbol>, current: Option<string>): seq<string> {
    if symbols == [] then if current.Some? then [current.value] else []
    else if symbols[0].Blank? then (if current.Some? then [current.value] else []) + WordsOf(symbols[1..], None)
    else WordsOf(symbols[1..], Some((if current.Some? then current.value else "") + TextOf(symbols[0])))
  }

  /** What a line means: its words, if it has any and no quote is left open. */
  function Meaning(symbols: seq<Symbol>, tail: Tail): Option<seq<string>> {
    var words := WordsOf(symbols, None);
    if tail != Closed || words == [] then None else Some(words)
  }

  // ---------------------------------------------------------------- the tokenizer reads what lines mean

  function Current(l: Lexer): Option<string> { if l.started then Some(l.part) else None }

  predicate AtRest(l: Lexer) { l.quote == Bare && (l.started || l.part == "") }

  function Read(l: Lexer, symbol: Symbol): Lexer {
    if symbol.Blank? then if l.started then Lexer(l.parts + [l.part], "", Bare, false) else l
    else l.(part := l.part + TextOf(symbol), started := true)
  }

  lemma OneTurn(s: string, l: Lexer, used: nat)
    requires s != "" && used == Turn(s, l).1
    ensures Scan(s, l) == Scan(s[used..], Turn(s, l).0)
  {
  }

  lemma {:induction false} SingleIsRead(text: string, rest: string, l: Lexer)
    requires '\'' !in text && l.quote == Single && l.started
    ensures Scan(text + rest, l) == Scan(rest, l.(part := l.part + text))
  {
    hide Scan;
    if text == "" {
      assert text + rest == rest && l.part + text == l.part;
    } else {
      var s := text + rest;
      OneTurn(s, l, 1);
      assert s[1..] == text[1..] + rest;
      assert l.part + [text[0]] + text[1..] == l.part + text;
      SingleIsRead(text[1..], rest, l.(part := l.part + [text[0]]));
    }
  }

  lemma UnitIsRead(unit: Unit, rest: string, l: Lexer)
    requires ValidUnit(unit) && l.quote == Double && l.started
    ensures Scan(SpelledUnit(unit) + rest, l) == Scan(rest, l.(part := l.part + UnitText(unit)))
  {
    hide Scan;
    var s := SpelledUnit(unit) + rest;
    if unit.Raw? {
      OneTurn(s, l, 1);
      assert s[1..] == rest;
    } else if unit.Escaped? {
      assert EscapesDouble(s);
      OneTurn(s, l, 2);
      assert s[2..] == rest;
    } else {
      OneTurn(s, l, 1);
      var after, behind := l.(part := l.part + "\\"), s[1..];
      assert behind[0] == unit.c && behind[1..] == rest;
      OneTurn(behind, after, 1);
      assert l.part + "\\" + [unit.c] == l.part + ['\\', unit.c];
    }
  }

  lemma {:induction false} UnitsAreRead(units: seq<Unit>, rest: string, l: Lexer)
    requires ValidUnits(units) && l.quote == Double && l.started
    ensures Scan(SpelledUnits(units) + rest, l) == Scan(rest, l.(part := l.part + UnitsText(units)))
  {
    hide Scan, ValidUnit, SpelledUnit, UnitText;
    if units == [] {
      assert SpelledUnits(units) + rest == rest && l.part + UnitsText(units) == l.part;
    } else {
      var more := SpelledUnits(units[1..]) + rest;
      assert SpelledUnits(units) + rest == SpelledUnit(units[0]) + more;
      UnitIsRead(units[0], more, l);
      UnitsAreRead(units[1..], rest, l.(part := l.part + UnitText(units[0])));
      assert l.part + UnitText(units[0]) + UnitsText(units[1..]) == l.part + UnitsText(units);
    }
  }

  lemma OpensSingle(rest: string, l: Lexer)
    requires l.quote == Bare
    ensures Scan("'" + rest, l) == Scan(rest, l.(quote := Single, started := true))
  {
    assert ("'" + rest)[1..] == rest;
  }

  lemma OpensDouble(rest: string, l: Lexer)
    requires l.quote == Bare
    ensures Scan("\"" + rest, l) == Scan(rest, l.(quote := Double, started := true))
  {
    assert ("\"" + rest)[1..] == rest;
  }

  lemma Closes(rest: string, l: Lexer)
    requires l.started
    ensures l.quote == Single ==> Scan("'" + rest, l) == Scan(rest, l.(quote := Bare))
    ensures l.quote == Double ==> Scan("\"" + rest, l) == Scan(rest, l.(quote := Bare))
  {
    assert ("'" + rest)[1..] == rest && ("\"" + rest)[1..] == rest;
  }

  lemma InSingleIsRead(text: string, rest: string, l: Lexer)
    requires '\'' !in text && AtRest(l)
    ensures Scan(("'" + text + "'") + rest, l) == Scan(rest, l.(part := l.part + text, started := true))
  {
    hide Scan;
    assert ("'" + text + "'") + rest == "'" + (text + ("'" + rest));
    OpensSingle(text + ("'" + rest), l);
    SingleIsRead(text, "'" + rest, l.(quote := Single, started := true));
    Closes(rest, l.(quote := Single, started := true, part := l.part + text));
  }

  lemma InDoubleIsRead(units: seq<Unit>, rest: string, l: Lexer)
    requires ValidUnits(units) && AtRest(l)
    ensures Scan(("\"" + SpelledUnits(units) + "\"") + rest, l)
         == Scan(rest, l.(part := l.part + UnitsText(units), started := true))
  {
    hide Scan, SpelledUnits, UnitsText, ValidUnits;
    var inside := SpelledUnits(units);
    assert ("\"" + inside + "\"") + rest == "\"" + (inside + ("\"" + rest));
    OpensDouble(inside + ("\"" + rest), l);
    UnitsAreRead(units, "\"" + rest, l.(quote := Double, started := true));
    Closes(rest, l.(quote := Double, started := true, part := l.part + UnitsText(units)));
  }

  lemma SymbolIsRead(symbol: Symbol, rest: string, l: Lexer)
    requires ValidSymbol(symbol) && AtRest(l) && (symbol.Slash? && rest != "" ==> !IsEscapable(rest[0]))
    ensures Scan(SpelledSymbol(symbol) + rest, l) == Scan(rest, Read(l, symbol)) && AtRest(Read(l, symbol))
  {
    hide Scan, SpelledUnits, UnitsText, ValidUnits;
    if symbol.InSingle? {
      InSingleIsRead(symbol.text, rest, l);
    } else if symbol.InDouble? {
      InDoubleIsRead(symbol.units, rest, l);
    } else {
      PlainSymbolIsRead(symbol, rest, l);
    }
  }

  lemma PlainSymbolIsRead(symbol: Symbol, rest: string, l: Lexer)
    requires ValidSymbol(symbol) && AtRest(l) && (symbol.Slash? && rest != "" ==> !IsEscapable(rest[0]))
    requires !symbol.InSingle? && !symbol.InDouble?
    ensures Scan(SpelledSymbol(symbol) + rest, l) == Scan(rest, Read(l, symbol))
  {
    hide Scan;
    var s := SpelledSymbol(symbol) + rest;
    NoBlank();
    if symbol.Escape? {
      assert EscapesBare(s);
      OneTurn(s, l, 2);
      assert s[2..] == rest;
    } else {
      assert s[1..] == rest;
      assert symbol.Slash? ==> !EscapesBare(s);
      OneTurn(s, l, 1);
    }
  }

  lemma NoBlank()
    ensures !IsSpace('\\') && !IsSpace('\'') && !IsSpace('"')
  {
  }

  lemma TailIsRead(tail: Tail, l: Lexer)
    requires ValidTail(tail) && AtRest(l)
    ensures tail == Closed ==> Scan(SpelledTail(tail), l) == l
    ensures tail != Closed ==> Scan(SpelledTail(tail), l).quote != Bare
  {
    if tail.OpenSingle? {
      hide Scan;
      OpensSingle(tail.text, l);
      assert tail.text == tail.text + "";
      SingleIsRead(tail.text, "", l.(quote := Single, started := true));
      NothingScanned(l.(quote := Single, started := true, part := l.part + tail.text));
    } else if tail.OpenDouble? {
      hide Scan;
      var end := if tail.slash then "\\" else "";
      OpensDouble(SpelledUnits(tail.units) + end, l);
      UnitsAreRead(tail.units, end, l.(quote := Double, started := true));
      LastSlash(end, l.(quote := Double, started := true, part := l.part + UnitsText(tail.units)));
    }
  }

  lemma NothingScanned(l: Lexer)
    ensures Scan("", l) == l
  {
  }

  lemma LastSlash(end: string, l: Lexer)
    requires l.quote == Double && (end == "" || end == "\\")
    ensures Scan(end, l).quote == Double
  {
    if end != "" {
      assert end[1..] == "";
    }
  }

  lemma {:induction false} SymbolsAreRead(symbols: seq<Symbol>, tail: Tail, l: Lexer)
    requires Valid(symbols, tail) && AtRest(l)
    ensures var end := Scan(Spelled(symbols, tail), l);
            && (end.quote == Bare <==> tail == Closed)
            && (tail == Closed ==>
                  (if end.started then end.parts + [end.part] else end.parts) == l.parts + WordsOf(symbols, Current(l)))
  {
    hide Scan, ValidSymbol, SpelledSymbol, SpelledTail, ValidTail, TextOf;
    if symbols == [] {
      TailIsRead(tail, l);
    } else {
      SymbolIsRead(symbols[0], Spelled(symbols[1..], tail), l);
      SymbolsAreRead(symbols[1..], tail, Read(l, symbols[0]));
      ReadOn(symbols, l);
    }
  }

  lemma ReadOn(symbols: seq<Symbol>, l: Lexer)
    requires symbols != [] && AtRest(l)
    ensures var next := Read(l, symbols[0]);
            l.parts + WordsOf(symbols, Current(l)) == next.parts + WordsOf(symbols[1..], Current(next))
  {
    hide TextOf, WordsOf;
    WordsStep(symbols, Current(l));
    var more := WordsOf(symbols[1..], None);
    assert l.parts + ([l.part] + more) == (l.parts + [l.part]) + more && [] + more == more;
    assert "" + TextOf(symbols[0]) == TextOf(symbols[0]);
  }

  lemma WordsStep(symbols: seq<Symbol>, current: Option<string>)
    requires symbols != []
    ensures WordsOf(symbols, current)
         == if symbols[0].Blank? then (if current.Some? then [current.value] else []) + WordsOf(symbols[1..], None)
            else WordsOf(symbols[1..], Some((if current.Some? then current.value else "") + TextOf(symbols[0])))
  {
    hide TextOf;
  }

  /** The tokenizer reads a line as what it means. */
  lemma ParseIsMeaning(symbols: seq<Symbol>, tail: Tail)
    requires Valid(symbols, tail)
    ensures Parse(Spelled(symbols, tail)) == Meaning(symbols, tail)
  {
    hide Scan, WordsOf, Valid, Spelled;
    SymbolsAreRead(symbols, tail, START);
    assert [] + WordsOf(symbols, None) == WordsOf(symbols, None);
  }

  // ---------------------------------------------------------------- every line is such a row

  datatype Inside = Inside(units: seq<Unit>, closed: bool, slash: bool, rest: string)

  /** The text behind a double quote, up to the next one that is not escaped. */
  lemma {:induction false} EveryInside(s: string) returns (r: Inside)
    ensures ValidUnits(r.units) && |r.rest| <= |s|
    ensures r.closed ==> s == SpelledUnits(r.units) + ("\"" + r.rest)
    ensures !r.closed ==> s == SpelledUnits(r.units) + if r.slash then "\\" else ""
    decreases |s|
  {
    if s == "" {
      return Inside([], false, false, "");
    }
    if s[0] == '"' {
      assert s == "" + ("\"" + s[1..]);
      return Inside([], true, false, s[1..]);
    }
    if s == "\\" {
      return Inside([], false, true, "");
    }
    var unit := if s[0] != '\\' then Raw(s[0]) else if IsQuoteOrSlash(s[1]) then Escaped(s[1]) else SlashThen(s[1]);
    var behind := s[|SpelledUnit(unit)|..];
    assert s == SpelledUnit(unit) + behind;
    var more := EveryInside(behind);
    r := more.(units := [unit] + more.units);
    OneMoreUnit(unit, more.units, if more.closed then "\"" + more.rest else if more.slash then "\\" else "");
  }

  lemma OneMoreUnit(unit: Unit, units: seq<Unit>, end: string)
    requires ValidUnit(unit) && ValidUnits(units)
    ensures ValidUnits([unit] + units)
    ensures SpelledUnit(unit) + (SpelledUnits(units) + end) == SpelledUnits([unit] + units) + end
  {
    hide ValidUnit, SpelledUnit;
    var all := [unit] + units;
    assert all[1..] == units;
    assert forall other :: other in all <==> other == unit || other in units;
  }

  lemma EveryQuoted(s: string) returns (text: string, closed: bool, rest: string)
    ensures '\'' !in text && |rest| <= |s|
    ensures s == if closed then text + ("'" + rest) else text
    decreases |s|
  {
    if s == "" {
      return "", false, "";
    }
    if s[0] == '\'' {
      assert s == "" + ("'" + s[1..]);
      return "", true, s[1..];
    }
    var more;
    more, closed, rest := EveryQuoted(s[1..]);
    text := [s[0]] + more;
    if closed {
      assert [s[0]] + (more + ("'" + rest)) == text + ("'" + rest);
    }
  }

  lemma Extended(symbol: Symbol, symbols: seq<Symbol>, tail: Tail)
    requires Valid(symbols, tail) && ValidSymbol(symbol)
    requires var rest := Spelled(symbols, tail); symbol.Slash? && rest != "" ==> !IsEscapable(rest[0])
    ensures Valid([symbol] + symbols, tail)
    ensures Spelled([symbol] + symbols, tail) == SpelledSymbol(symbol) + Spelled(symbols, tail)
  {
    assert ([symbol] + symbols)[1..] == symbols;
  }

  lemma JustTail(tail: Tail)
    requires ValidTail(tail)
    ensures Valid([], tail) && Spelled([], tail) == SpelledTail(tail)
  {
  }

  lemma {:induction false} EveryLine(s: string) returns (symbols: seq<Symbol>, tail: Tail)
    ensures Valid(symbols, tail) && Spelled(symbols, tail) == s
    decreases |s|
  {
    hide Valid, Spelled;
    if s == "" {
      JustTail(Closed);
      return [], Closed;
    }
    if s[0] == '\'' {
      var text, closed, rest := EveryQuoted(s[1..]);
      assert s == "'" + s[1..];
      if !closed {
        JustTail(OpenSingle(text));
        return [], OpenSingle(text);
      }
      symbols, tail := EveryLine(rest);
      Extended(InSingle(text), symbols, tail);
      assert "'" + (text + ("'" + rest)) == ("'" + text + "'") + rest;
      return [InSingle(text)] + symbols, tail;
    }
    if s[0] == '"' {
      var r := EveryInside(s[1..]);
      assert s == "\"" + s[1..];
      if !r.closed {
        JustTail(OpenDouble(r.units, r.slash));
        return [], OpenDouble(r.units, r.slash);
      }
      symbols, tail := EveryLine(r.rest);
      Extended(InDouble(r.units), symbols, tail);
      assert "\"" + (SpelledUnits(r.units) + ("\"" + r.rest)) == ("\"" + SpelledUnits(r.units) + "\"") + r.rest;
      return [InDouble(r.units)] + symbols, tail;
    }
    NoBlank();
    var symbol :=
      if s[0] != '\\' then if IsSpace(s[0]) then Blank(s[0]) else Char(s[0])
      else if |s| > 1 && IsEscapable(s[1]) then Escape(s[1])
      else Slash;
    var behind := s[|SpelledSymbol(symbol)|..];
    symbols, tail := EveryLine(behind);
    Extended(symbol, symbols, tail);
    assert s == SpelledSymbol(symbol) + behind;
    symbols := [symbol] + symbols;
  }

  /** So every text is a line and read as what it means: nothing exactly when a quote is left open or there is no
      word, and otherwise its words. */
  lemma EveryTextIsRead(s: string)
    ensures exists symbols, tail ::
              && Valid(symbols, tail) && Spelled(symbols, tail) == s
              && Parse(s) == Meaning(symbols, tail)
  {
    var symbols, tail := EveryLine(s);
    hide Valid, Spelled;
    ParseIsMeaning(symbols, tail);
  }
}

/**
 The recovery-command tokenizer and its POSIX printer
 (src/cli/orchestration-mutation-recovery.ts), which undo each other.
 */
module CommandLine {
  import opened Common

  /** The tokenizer's variables: finished parts, the part being read, the open quote, tokenStarted. */
  datatype Lexer = Lexer(parts: seq<string>, part: string, quote: Quote, started: bool)

  const START := Lexer([], "", Bare, false)

  // A backslash takes the next character literally, when that character is one of a few.
  predicate EscapesBare(s: string) {
    |s| >= 2 && s[0] == '\\' && (s[1] == ' ' || s[1] == '\\' || s[1] == '\'' || s[1] == '"')
  }

  predicate EscapesDouble(s: string) {
    |s| >= 2 && s[0] == '\\' && (s[1] == '"' || s[1] == '\\')
  }

  /** One turn of the loop on the text still to be read: the new variables and the characters used. */
  function Turn(s: string, l: Lexer): (r: (Lexer, nat))
    requires s != []
    ensures 1 <= r.1 <= |s|
  {
    var c := s[0];
    match l.quote
    case Single =>
      (if c == '\'' then l.(quote := Bare, started := true) else l.(part := l.part + [c], started := true), 1)
    case Double =>
      if c == '"' then (l.(quote := Bare, started := true), 1)
      else if EscapesDouble(s) then (l.(part := l.part + [s[1]], started := true), 2)
      else (l.(part := l.part + [c], started := true), 1)
    case Bare =>
      if c == '\'' then (l.(quote := Single, started := true), 1)
      else if c == '"' then (l.(quote := Double, started := true), 1)
      else if IsSpace(c) then
        (if l.started then l.(parts := l.parts + [l.part], part := "", started := false) else l, 1)
      else if EscapesBare(s) then (l.(part := l.part + [s[1]], started := true), 2)
      else (l.(part := l.part + [c], started := true), 1)
  }

  function Scan(s: string, l: Lexer): Lexer {
    if s == [] then l else var (l', used) := Turn(s, l); Scan(s[used..], l')
  }

  function Finish(l: Lexer): Option<seq<string>> {
    if l.quote != Bare then None
    else
      var parts := if l.started then l.parts + [l.part] else l.parts;
      if parts == [] then None else Some(parts)
  }

  function Parse(s: string): Option<seq<string>> {
    Finish(Scan(s, START))
  }

  /** The tokenizer as the source runs it: an index that some escapes move by two. */
  method ParseCommandLine(value: string) returns (r: Option<seq<string>>)
    ensures r == Parse(value)
  {
    var parts: seq<string>, part, quote, tokenStarted := [], "", Bare, false;
    var index := 0;
    while index < |value|
      invariant index <= |value|
      invariant Scan(value[index..], Lexer(parts, part, quote, tokenStarted)) == Scan(value, START)
    {
      ghost var before := Lexer(parts, part, quote, tokenStarted);
      ghost var at := index;
      assert value[index..][0] == value[index];
      var character := value[index];
      var next := if index + 1 < |value| then [value[index + 1]] else "";
      if quote == Single {
        if character == '\'' {
          quote := Bare;
        } else {
          part := part + [character];
        }
        tokenStarted := true;
      } else if quote == Double {
        if character == '"' {
          quote := Bare;
        } else if character == '\\' && (next == "\"" || next == "\\") {
          index := index + 1;
          part := part + [value[index]];
        } else {
          part := part + [character];
        }
        tokenStarted := true;
      } else if character == '\'' || character == '"' {
        quote := if character == '\'' then Single else Double;
        tokenStarted := true;
      } else if IsSpace(character) {
        if tokenStarted {
          parts, part, tokenStarted := parts + [part], "", false;
        }
      } else if character == '\\' && (next == " " || next == "\\" || next == "'" || next == "\"") {
        index := index + 1;
        part := part + [value[index]];
        tokenStarted := true;
      } else {
        part := part + [character];
        tokenStarted := true;
      }
      index := index + 1;
      assert Turn(value[at..], before) == (Lexer(parts, part, quote, tokenStarted), index - at);
      assert value[at..][index - at..] == value[index..];
    }
    assert value[index..] == [];
    if quote != Bare {
      return None;
    }
    if tokenStarted {
      parts := parts + [part];
    }
    return if |parts| > 0 then Some(parts) else None;
  }

  // [A-Za-z0-9_./:@%+=,-]
  predicate IsPlain(c: char) {
    'A' <= c <= 'Z' || 'a' <= c <= 'z' || '0' <= c <= '9'
    || c == '_' || c == '.' || c == '/' || c == ':' || c == '@' || c == '%' || c == '+' || c == '=' || c == ','
          || c == '-'
  }

  predicate NeedsNoQuotes(w: string) {
    w != [] && forall c :: c in w ==> IsPlain(c)
  }

  // Every apostrophe becomes: close the quote, a double-quoted apostrophe, reopen the quote.
  const APOSTROPHE := "'\"'\"'"

  function EscapeApostrophes(value: string): string {
    if value == [] then []
    else (if value[0] == '\'' then APOSTROPHE else [value[0]]) + EscapeApostrophes(value[1..])
  }

  function ShellQuote(value: string): string {
    if NeedsNoQuotes(value) then value
    else "'" + EscapeApostrophes(value) + "'"
  }

  /** The POSIX branch of renderCommand. */
  function Render(parts: seq<string>): string {
    if parts == [] then ""
    else if |parts| == 1 then ShellQuote(parts[0])
    else ShellQuote(parts[0]) + " " + Render(parts[1..])
  }

  function RenderResolved(command: string, executable: string): string {
    var parts := Parse(command);
    if parts.None? || parts.value[0] != "orca" then command else Render([executable] + parts.value[1..])
  }

  // ---------------------------------------------------------------- printing one argument

  /** The tokenizer just after word w, whose characters may follow in more than one quoted piece. */
  function Reading(parts: seq<string>, w: string, quote: Quote): Lexer {
    Lexer(parts, w, quote, true)
  }

  lemma PlainIsOrdinary(c: char)
    requires IsPlain(c)
    ensures c != '\'' && c != '"' && c != '\\' && !IsSpace(c)
  {
  }

  lemma PlainTurn(c: char, rest: string, l: Lexer)
    requires IsPlain(c) && l.quote == Bare
    ensures Scan([c] + rest, l) == Scan(rest, Reading(l.parts, l.part + [c], Bare))
  {
    PlainIsOrdinary(c);
    assert ([c] + rest)[1..] == rest;
  }

  lemma SingleTurn(c: char, rest: string, l: Lexer)
    requires c != '\'' && l.quote == Single
    ensures Scan([c] + rest, l) == Scan(rest, Reading(l.parts, l.part + [c], Single))
  {
    assert ([c] + rest)[1..] == rest;
  }

  lemma {:induction false} PlainIsRead(w: string, rest: string, parts: seq<string>, part: string)
    requires forall c :: c in w ==> IsPlain(c)
    ensures Scan(w + rest, Reading(parts, part, Bare)) == Scan(rest, Reading(parts, part + w, Bare))
  {
    hide Scan, IsPlain;
    if w == [] {
      assert w + rest == rest && part + w == part;
    } else {
      assert w + rest == [w[0]] + (w[1..] + rest);
      PlainTurn(w[0], w[1..] + rest, Reading(parts, part, Bare));
      PlainIsRead(w[1..], rest, parts, part + [w[0]]);
      assert part + [w[0]] + w[1..] == part + w;
    }
  }

  // Five turns read one printed apostrophe.
  lemma ApostropheIsRead(rest: string, parts: seq<string>, part: string)
    ensures Scan(APOSTROPHE + rest, Reading(parts, part, Single)) == Scan(rest, Reading(parts, part + "'", Single))
  {
    var s1, s2, s3, s4 := "\"'\"'" + rest, "'\"'" + rest, "\"'" + rest, "'" + rest;
    assert (APOSTROPHE + rest)[1..] == s1 && s1[1..] == s2 && s2[1..] == s3 && s3[1..] == s4 && s4[1..] == rest;
    assert Scan(APOSTROPHE + rest, Reading(parts, part, Single)) == Scan(s1, Reading(parts, part, Bare));
    assert Scan(s1, Reading(parts, part, Bare)) == Scan(s2, Reading(parts, part, Double));
    assert Scan(s2, Reading(parts, part, Double)) == Scan(s3, Reading(parts, part + "'", Double));
    assert Scan(s3, Reading(parts, part + "'", Double)) == Scan(s4, Reading(parts, part + "'", Bare));
  }

  lemma EscapeFirst(w: string)
    ensures w == "" ==> EscapeApostrophes(w) == ""
    ensures w != "" ==>
              EscapeApostrophes(w) == (if w[0] == '\'' then APOSTROPHE else [w[0]]) + EscapeApostrophes(w[1..])
  {
  }

  lemma {:induction false} QuotedIsRead(w: string, rest: string, parts: seq<string>, part: string)
    ensures Scan(EscapeApostrophes(w) + rest, Reading(parts, part, Single))
         == Scan(rest, Reading(parts, part + w, Single))
  {
    hide Scan, EscapeApostrophes;
    EscapeFirst(w);
    if w == "" {
      assert "" + rest == rest && part + w == part;
    } else {
      var tail := EscapeApostrophes(w[1..]) + rest;
      if w[0] == '\'' {
        assert EscapeApostrophes(w) + rest == APOSTROPHE + tail;
        ApostropheIsRead(tail, parts, part);
      } else {
        assert EscapeApostrophes(w) + rest == [w[0]] + tail;
        SingleTurn(w[0], tail, Reading(parts, part, Single));
      }
      QuotedIsRead(w[1..], rest, parts, part + [w[0]]);
      assert part + [w[0]] + w[1..] == part + w;
    }
  }

  lemma QuoteTurns(inside: string, rest: string, parts: seq<string>, w: string)
    ensures Scan("'" + inside, Lexer(parts, "", Bare, false)) == Scan(inside, Reading(parts, "", Single))
    ensures Scan("'" + rest, Reading(parts, w, Single)) == Scan(rest, Reading(parts, w, Bare))
  {
    assert ("'" + inside)[1..] == inside && ("'" + rest)[1..] == rest;
  }

  /** Read from between words, a printed argument becomes the word in progress, whatever it contains. */
  lemma ArgumentIsRead(w: string, rest: string, parts: seq<string>)
    ensures Scan(ShellQuote(w) + rest, Lexer(parts, "", Bare, false)) == Scan(rest, Reading(parts, w, Bare))
  {
    if NeedsNoQuotes(w) {
      PlainWordIsRead(w, rest, parts);
    } else {
      hide Scan, EscapeApostrophes, NeedsNoQuotes;
      var inside := EscapeApostrophes(w) + ("'" + rest);
      assert ShellQuote(w) + rest == "'" + inside;
      QuoteTurns(inside, rest, parts, w);
      QuotedIsRead(w, "'" + rest, parts, "");
      assert "" + w == w;
    }
  }

  lemma PlainWordIsRead(w: string, rest: string, parts: seq<string>)
    requires NeedsNoQuotes(w)
    ensures Scan(w + rest, Lexer(parts, "", Bare, false)) == Scan(rest, Reading(parts, w, Bare))
  {
    hide Scan, IsPlain;
    assert w + rest == [w[0]] + (w[1..] + rest);
    PlainTurn(w[0], w[1..] + rest, Lexer(parts, "", Bare, false));
    assert "" + [w[0]] == [w[0]];
    PlainIsRead(w[1..], rest, parts, [w[0]]);
    assert [w[0]] + w[1..] == w;
  }

  lemma SpaceTurn(rest: string, parts: seq<string>, part: string)
    ensures Scan(" " + rest, Reading(parts, part, Bare)) == Scan(rest, Lexer(parts + [part], "", Bare, false))
  {
    assert (" " + rest)[1..] == rest;
  }

  lemma RenderFirst(parts: seq<string>)
    requires |parts| > 1
    ensures Render(parts) == ShellQuote(parts[0]) + (" " + Render(parts[1..]))
  {
  }

  lemma RenderOnly(w: string)
    ensures Render([w]) == ShellQuote(w) + ""
  {
  }

  lemma FirstArgument(parts: seq<string>, done: seq<string>)
    requires |parts| > 1
    ensures Scan(Render(parts), Lexer(done, "", Bare, false))
         == Scan(Render(parts[1..]), Lexer(done + [parts[0]], "", Bare, false))
  {
    var rest := Render(parts[1..]);
    RenderFirst(parts);
    ArgumentIsRead(parts[0], " " + rest, done);
    SpaceTurn(rest, done, parts[0]);
  }

  lemma OnlyArgument(w: string, done: seq<string>)
    ensures Finish(Scan(Render([w]), Lexer(done, "", Bare, false))) == Some(done + [w])
  {
    RenderOnly(w);
    ArgumentIsRead(w, "", done);
  }

  lemma {:induction false} RenderIsRead(parts: seq<string>, done: seq<string>)
    requires parts != []
    ensures Finish(Scan(Render(parts), Lexer(done, "", Bare, false))) == Some(done + parts)
  {
    hide Scan, Render, Finish;
    var w, rest := parts[0], parts[1..];
    if rest == [] {
      assert parts == [w];
      OnlyArgument(w, done);
    } else {
      FirstArgument(parts, done);
      RenderIsRead(rest, done + [w]);
      assert done + [w] + rest == done + parts;
    }
  }

  /** The printer and the tokenizer undo each other on every list of strings but the empty one. */
  lemma RoundTrip(parts: seq<string>)
    ensures Parse(Render(parts)) == if parts == [] then None else Some(parts)
  {
    if parts != [] {
      RenderIsRead(parts, []);
      assert [] + parts == parts;
    }
  }

  /** Two argument lists never print alike. */
  lemma RenderInjective(a: seq<string>, b: seq<string>)
    requires Render(a) == Render(b)
    ensures a == b
  {
    RoundTrip(a);
    RoundTrip(b);
  }
}

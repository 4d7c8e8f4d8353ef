/**
 What a shell makes of a printed recovery command (src/cli/orchestration-mutation-recovery.ts): a reference
 reader that takes a line for a simple command as the Shell Command Language does (sections 2.2 to 2.4, 2.9.1 and
 2.10.2 of IEEE Std 1003.1) and refuses any line in which a character keeps a special meaning.  What the printer
 writes means the same list of arguments to it, unless its first word means something else to a shell.
 */
module ShellReading {
  import opened Common
  import opened CommandLine

  // Characters that must be quoted to stand for themselves (section 2.2), plus some that shells in use
  // treat specially.  The section's `=` and `%` only matter in the first words, where they are looked at below.
  predicate NeedsQuoting(c: char) {
    || c == '|' || c == '&' || c == ';' || c == '<' || c == '>' || c == '(' || c == ')' || c == '$' || c == '`'
    || c == '\\' || c == '"' || c == '\'' || c == ' ' || c == '\t' || c == '\n' || c == '*' || c == '?' || c == '['
    || c == ']' || c == '#' || c == '~' || c == '!' || c == '{' || c == '}' || c == '^'
  }

  // Inside double quotes these still expand.
  predicate ExpandsInDouble(c: char) { c == '$' || c == '`' || c == '\\' || c == '!' }

  /** A field with what is left of its writing: how many characters stand before any quote, whether there is
      one, and where the first unquoted equals sign is. */
  datatype Field = Field(text: string, lead: nat, quoted: bool, equals: Option<nat>)

  const NEW := Field("", 0, false, None)

  function Opened(field: Field): Field { field.(quoted := true) }

  function Grown(field: Field, c: char, bare: bool): Field {
    Field(field.text + [c], if field.quoted then field.lead else field.lead + 1, field.quoted,
          if field.equals.None? && bare && c == '=' then Some(|field.text|) else field.equals)
  }

  /** The fields of a line none of whose characters keeps a special meaning; None for any other line. */
  function ShellFields(s: string, fields: seq<Field>, field: Option<Field>, quote: Quote): Option<seq<Field>> {
    if s == [] then
      if quote != Bare then None else Some(if field.Some? then fields + [field.value] else fields)
    else
      var c := s[0];
      var word := if field.Some? then field.value else NEW;
      match quote
      case Single =>
        if c == '\'' then ShellFields(s[1..], fields, Some(word), Bare)
        else ShellFields(s[1..], fields, Some(Grown(word, c, false)), Single)
      case Double =>
        if c == '"' then ShellFields(s[1..], fields, Some(word), Bare)
        else if ExpandsInDouble(c) then None
        else ShellFields(s[1..], fields, Some(Grown(word, c, false)), Double)
      case Bare =>
        if c == '\'' then ShellFields(s[1..], fields, Some(Opened(word)), Single)
        else if c == '"' then ShellFields(s[1..], fields, Some(Opened(word)), Double)
        else if c == ' ' then
          ShellFields(s[1..], if field.Some? then fields + [field.value] else fields, None, Bare)
        else if NeedsQuoting(c) then None
        else ShellFields(s[1..], fields, Some(Grown(word, c, true)), Bare)
  }

  predicate IsName(s: string) {
    s != "" && !('0' <= s[0] <= '9')
    && forall c :: c in s ==> 'A' <= c <= 'Z' || 'a' <= c <= 'z' || '0' <= c <= '9' || c == '_'
  }

  // Reserved words (section 2.4), with those that only some shells reserve.
  const RESERVED: set<string> :=
    {"!", "{", "}", "case", "do", "done", "elif", "else", "esac", "fi", "for", "if", "in", "then", "until", "while",
     "[[", "]]", "coproc", "function", "namespace", "select", "time"}

  /** What else one shell knows: words it reserves beyond those, and aliases. */
  datatype Shell = Shell(reserved: set<string>, aliases: set<string>)

  predicate IsReserved(word: string, shell: Shell) {
    || word in RESERVED || word in shell.reserved
    || (word != "" && word[|word| - 1] == ':' && IsName(word[..|word| - 1]))
  }

  /** What a word in front of a command's name is (section 2.10.2, rule 7): an assignment if a name stands
      before its first unquoted equals sign; a word if it has none, or starts with it; and unspecified otherwise. */
  datatype Role = Word | Assignment | Unspecified

  function RoleOf(field: Field): Role {
    match field.equals
    case None => Word
    case Some(k) =>
      if k == 0 && field.lead > 0 then Word
      else if k < field.lead && k < |field.text| && IsName(field.text[..k]) then Assignment
      else Unspecified
  }

  /** What a shell makes of a line: nothing we can say; a word that is more than a word, or may be, as it is
      reserved, an alias, a job or unspecified; or a simple command with the assignments in front of it. */
  datatype ShellReading = Unread | Special(word: string) | Simple(settings: seq<string>, argv: seq<string>)

  function Texts(fields: seq<Field>): seq<string> {
    if fields == [] then [] else [fields[0].text] + Texts(fields[1..])
  }

  predicate NamesJob(word: string) { word != "" && word[0] == '%' }

  // Past the assignments, an unquoted alias (section 2.3.1) or a job's name is not the name of a command.
  function ReadCommand(fields: seq<Field>, settings: seq<string>, shell: Shell): ShellReading {
    if fields == [] then Simple(settings, [])
    else
      var first := fields[0];
      match RoleOf(first)
      case Assignment => ReadCommand(fields[1..], settings + [first.text], shell)
      case Unspecified => Special(first.text)
      case Word =>
        if !first.quoted && (first.text in shell.aliases || NamesJob(first.text)) then Special(first.text)
        else Simple(settings, Texts(fields))
  }

  // A script is text, and text has no NUL (Text File in the Base Definitions).
  function ShellReads(s: string, shell: Shell): ShellReading {
    if '\0' in s then Unread
    else
      match ShellFields(s, [], None, Bare)
      case None => Unread
      case Some(fields) =>
        if fields != [] && !fields[0].quoted && IsReserved(fields[0].text, shell) then Special(fields[0].text)
        else ReadCommand(fields, [], shell)
  }

  /** A word that is printed bare and is more than a word in front of a command, or may be. */
  predicate Taken(word: string, shell: Shell) {
    NeedsNoQuotes(word)
    && (('=' in word && word[0] != '=') || IsReserved(word, shell) || word in shell.aliases || NamesJob(word))
  }

  // ---------------------------------------------------------------- printed commands

  /** The field a printed word becomes: bare from end to end, or quoted from the start. */
  function FieldOf(w: string): Field { if NeedsNoQuotes(w) then BareField(w) else QuotedField(w) }

  function BareField(w: string): Field { Field(w, |w|, false, FirstEquals(w)) }

  function QuotedField(w: string): Field { Field(w, 0, true, None) }

  function FirstEquals(w: string): (k: Option<nat>)
    ensures k.Some? <==> '=' in w
    ensures k.Some? ==> k.value < |w| && (k.value == 0 <==> w[0] == '=')
  {
    if w == "" then None
    else
      var before := FirstEquals(w[..|w| - 1]);
      if before.Some? then before else if w[|w| - 1] == '=' then Some(|w| - 1) else None
  }

  lemma BareGrows(part: string, c: char)
    ensures Grown(BareField(part), c, true) == BareField(part + [c])
  {
    assert (part + [c])[..|part|] == part;
  }

  lemma PlainNeedsNoQuoting(c: char)
    requires IsPlain(c)
    ensures c != '\'' && c != '"' && c != ' ' && !NeedsQuoting(c)
  {
  }

  lemma PlainField(c: char, rest: string, fields: seq<Field>, field: Option<Field>)
    requires IsPlain(c)
    ensures ShellFields([c] + rest, fields, field, Bare)
         == ShellFields(rest, fields, Some(Grown(if field.Some? then field.value else NEW, c, true)), Bare)
  {
    PlainNeedsNoQuoting(c);
    assert ([c] + rest)[1..] == rest;
  }

  lemma {:induction false} PlainIsField(w: string, rest: string, fields: seq<Field>, part: string)
    requires forall c :: c in w ==> IsPlain(c)
    ensures ShellFields(w + rest, fields, Some(BareField(part)), Bare)
         == ShellFields(rest, fields, Some(BareField(part + w)), Bare)
  {
    hide ShellFields, IsPlain;
    if w == [] {
      assert w + rest == rest && part + w == part;
    } else {
      assert w + rest == [w[0]] + (w[1..] + rest);
      PlainField(w[0], w[1..] + rest, fields, Some(BareField(part)));
      BareGrows(part, w[0]);
      PlainIsField(w[1..], rest, fields, part + [w[0]]);
      assert part + [w[0]] + w[1..] == part + w;
    }
  }

  lemma ApostropheIsField(rest: string, fields: seq<Field>, part: string)
    ensures ShellFields(APOSTROPHE + rest, fields, Some(QuotedField(part)), Single)
         == ShellFields(rest, fields, Some(QuotedField(part + "'")), Single)
  {
    var s1, s2, s3, s4 := "\"'\"'" + rest, "'\"'" + rest, "\"'" + rest, "'" + rest;
    var before, after := Some(QuotedField(part)), Some(QuotedField(part + "'"));
    assert (APOSTROPHE + rest)[1..] == s1 && s1[1..] == s2 && s2[1..] == s3 && s3[1..] == s4 && s4[1..] == rest;
    assert ShellFields(APOSTROPHE + rest, fields, before, Single) == ShellFields(s1, fields, before, Bare);
    assert ShellFields(s1, fields, before, Bare) == ShellFields(s2, fields, before, Double);
    assert ShellFields(s2, fields, before, Double) == ShellFields(s3, fields, after, Double);
    assert ShellFields(s3, fields, after, Double) == ShellFields(s4, fields, after, Bare);
  }

  lemma SingleField(c: char, rest: string, fields: seq<Field>, part: string)
    requires c != '\''
    ensures ShellFields([c] + rest, fields, Some(QuotedField(part)), Single)
         == ShellFields(rest, fields, Some(QuotedField(part + [c])), Single)
  {
    assert ([c] + rest)[1..] == rest;
  }

  lemma {:induction false} QuotedIsField(w: string, rest: string, fields: seq<Field>, part: string)
    ensures ShellFields(EscapeApostrophes(w) + rest, fields, Some(QuotedField(part)), Single)
         == ShellFields(rest, fields, Some(QuotedField(part + w)), Single)
  {
    hide ShellFields, EscapeApostrophes;
    EscapeFirst(w);
    if w == "" {
      assert "" + rest == rest && part + w == part;
    } else {
      var tail := EscapeApostrophes(w[1..]) + rest;
      if w[0] == '\'' {
        assert EscapeApostrophes(w) + rest == APOSTROPHE + tail;
        ApostropheIsField(tail, fields, part);
      } else {
        assert EscapeApostrophes(w) + rest == [w[0]] + tail;
        SingleField(w[0], tail, fields, part);
      }
      QuotedIsField(w[1..], rest, fields, part + [w[0]]);
      assert part + [w[0]] + w[1..] == part + w;
    }
  }

  lemma QuoteFields(inside: string, rest: string, fields: seq<Field>, w: string)
    ensures ShellFields("'" + inside, fields, None, Bare) ==
              ShellFields(inside, fields, Some(QuotedField("")), Single)
    ensures ShellFields("'" + rest, fields, Some(QuotedField(w)), Single)
         == ShellFields(rest, fields, Some(QuotedField(w)), Bare)
  {
    assert ("'" + inside)[1..] == inside && ("'" + rest)[1..] == rest;
  }

  /** Read from between words, a printed argument becomes the field in progress, whatever it contains. */
  lemma ArgumentIsField(w: string, rest: string, fields: seq<Field>)
    ensures ShellFields(ShellQuote(w) + rest, fields, None, Bare) == ShellFields(rest, fields, Some(FieldOf(w)), Bare)
  {
    if NeedsNoQuotes(w) {
      BareIsField(w, rest, fields);
    } else {
      hide ShellFields, EscapeApostrophes, NeedsNoQuotes;
      var inside := EscapeApostrophes(w) + ("'" + rest);
      assert ShellQuote(w) + rest == "'" + inside;
      QuoteFields(inside, rest, fields, w);
      QuotedIsField(w, "'" + rest, fields, "");
      assert "" + w == w;
    }
  }

  lemma BareIsField(w: string, rest: string, fields: seq<Field>)
    requires NeedsNoQuotes(w)
    ensures ShellFields(w + rest, fields, None, Bare) == ShellFields(rest, fields, Some(BareField(w)), Bare)
  {
    hide ShellFields, IsPlain;
    assert w + rest == [w[0]] + (w[1..] + rest);
    PlainField(w[0], w[1..] + rest, fields, None);
    BareGrows("", w[0]);
    assert NEW == BareField("") && "" + [w[0]] == [w[0]];
    PlainIsField(w[1..], rest, fields, [w[0]]);
    assert [w[0]] + w[1..] == w;
  }

  lemma SpaceEndsField(rest: string, fields: seq<Field>, field: Field)
    ensures ShellFields(" " + rest, fields, Some(field), Bare) == ShellFields(rest, fields + [field], None, Bare)
  {
    assert (" " + rest)[1..] == rest;
  }

  function FieldsOf(parts: seq<string>): seq<Field> {
    if parts == [] then [] else [FieldOf(parts[0])] + FieldsOf(parts[1..])
  }

  lemma OnlyField(w: string, done: seq<Field>)
    ensures ShellFields(Render([w]), done, None, Bare) == Some(done + [FieldOf(w)])
  {
    RenderOnly(w);
    ArgumentIsField(w, "", done);
  }

  lemma {:induction false} RenderIsFields(parts: seq<string>, done: seq<Field>)
    ensures ShellFields(Render(parts), done, None, Bare) == Some(done + FieldsOf(parts))
  {
    if parts == [] {
      assert Render(parts) == "" && done + [] == done;
    } else {
      hide ShellFields, Render, FieldOf;
      var w, rest := parts[0], parts[1..];
      if rest == [] {
        assert parts == [w] && FieldsOf(rest) == [] && FieldsOf(parts) == [FieldOf(w)];
        OnlyField(w, done);
      } else {
        RenderFirst(parts);
        ArgumentIsField(w, " " + Render(rest), done);
        SpaceEndsField(Render(rest), done, FieldOf(w));
        RenderIsFields(rest, done + [FieldOf(w)]);
        assert done + [FieldOf(w)] + FieldsOf(rest) == done + FieldsOf(parts);
      }
    }
  }

  lemma {:induction false} FieldTexts(parts: seq<string>)
    ensures Texts(FieldsOf(parts)) == parts
  {
    if parts != [] {
      FieldTexts(parts[1..]);
    }
  }

  lemma {:induction false} AssignedStays(fields: seq<Field>, settings: seq<string>, shell: Shell)
    ensures var r := ReadCommand(fields, settings, shell); r.Simple? ==> settings <= r.settings
  {
    hide RoleOf, Texts;
    if fields != [] && RoleOf(fields[0]) == Assignment {
      AssignedStays(fields[1..], settings + [fields[0].text], shell);
    }
  }

  lemma PrintedRole(word: string)
    ensures RoleOf(FieldOf(word)) == Word <==> !(NeedsNoQuotes(word) && '=' in word && word[0] != '=')
  {
    hide IsName, IsPlain;
  }

  lemma {:induction false} EscapingAddsNoNul(w: string)
    ensures '\0' in EscapeApostrophes(w) <==> '\0' in w
  {
    if w != "" {
      EscapingAddsNoNul(w[1..]);
      EscapeFirst(w);
      hide EscapeApostrophes;
      assert w == [w[0]] + w[1..];
    }
  }

  lemma QuotingAddsNoNul(w: string)
    ensures '\0' in ShellQuote(w) <==> '\0' in w
  {
    EscapingAddsNoNul(w);
    hide EscapeApostrophes;
  }

  predicate NoNul(parts: seq<string>) { forall part :: part in parts ==> '\0' !in part }

  lemma {:induction false} PrintingAddsNoNul(parts: seq<string>)
    ensures '\0' !in Render(parts) <==> NoNul(parts)
  {
    if parts != [] {
      hide ShellQuote;
      QuotingAddsNoNul(parts[0]);
      PrintingAddsNoNul(parts[1..]);
      assert forall part :: part in parts <==> part == parts[0] || part in parts[1..];
      if |parts| > 1 {
        RenderFirst(parts);
      } else {
        RenderOnly(parts[0]);
        assert parts == [parts[0]];
      }
      hide Render;
    }
  }

  /** Exactly when a shell, whatever it reserves and whatever its aliases, runs a printed command with just those
      arguments: when none of them has a NUL, and the first is not printed bare as an assignment, a word that may
      be one, a reserved word, an alias or a job.  Nothing in it expands. */
  lemma ShellReadsTheSame(parts: seq<string>, shell: Shell)
    ensures ShellReads(Render(parts), shell) == Simple([], parts)
       <==> NoNul(parts) && (parts == [] || !Taken(parts[0], shell))
  {
    PrintingAddsNoNul(parts);
    RenderIsFields(parts, []);
    FieldTexts(parts);
    hide ShellFields, Render, RoleOf, IsReserved, IsPlain, NoNul, FirstEquals;
    var fields := FieldsOf(parts);
    assert [] + fields == fields;
    if parts != [] {
      var first := fields[0];
      assert first == FieldOf(parts[0]);
      PrintedRole(parts[0]);
      if RoleOf(first) == Assignment {
        assert [] + [first.text] == [first.text];
        AssignedStays(fields[1..], [first.text], shell);
      }
    }
  }

  const PLAIN_SHELL := Shell({}, {})

  /** Lists whose first word a shell takes for an assignment, may take for one, and reserves, and one with NUL. */
  lemma AssignmentIsTaken()
    ensures Taken("A=b", PLAIN_SHELL) && ShellReads(Render(["A=b", "ls"]), PLAIN_SHELL) == Simple(["A=b"], ["ls"])
  {
    hide ShellFields, Render, Taken, IsReserved, RoleOf, IsPlain, NoNul;
    RenderIsFields(["A=b", "ls"], []);
    PrintingAddsNoNul(["A=b", "ls"]);
    var a, ls := FieldOf("A=b"), FieldOf("ls");
    TwoFields(a, ls);
    hide FieldsOf, FieldOf;
    assert [] + [a, ls] == [a, ls];
    AssignmentThenCommand(a, ls);
    hide ReadCommand;
  }

  lemma TwoFields(a: Field, ls: Field)
    requires a == FieldOf("A=b") && ls == FieldOf("ls")
    ensures FieldsOf(["A=b", "ls"]) == [a, ls] && NoNul(["A=b", "ls"])
    ensures Taken("A=b", PLAIN_SHELL) && !IsReserved("A=b", PLAIN_SHELL)
    ensures a.text == "A=b" && ls.text == "ls" && RoleOf(a) == Assignment && RoleOf(ls) == Word
  {
    PlainWords();
    assert ["A=b", "ls"][1..] == ["ls"];
    assert FieldsOf(["ls"]) == [ls];
    hide FieldsOf;
    RoleOfAssignment();
    assert FirstEquals("ls") == None;
    hide FirstEquals, IsPlain, IsReserved, IsName;
  }

  lemma PlainWords()
    ensures NeedsNoQuotes("A=b") && NeedsNoQuotes("ls") && !IsReserved("A=b", PLAIN_SHELL)
  {
  }

  lemma RoleOfAssignment()
    ensures RoleOf(BareField("A=b")) == Assignment
  {
    assert "A=b"[..2] == "A=" && "A="[..1] == "A" && "A"[..0] == "";
    assert FirstEquals("A=b") == Some(1);
    hide FirstEquals;
    assert "A=b"[..1] == "A" && IsName("A");
  }

  lemma AssignmentThenCommand(a: Field, b: Field)
    requires RoleOf(a) == Assignment && RoleOf(b) == Word && b.text == "ls"
    ensures ReadCommand([a, b], [], PLAIN_SHELL) == Simple([a.text], ["ls"])
  {
    hide RoleOf;
    assert [a, b][1..] == [b] && [b][1..] == [] && [] + [a.text] == [a.text];
    assert Texts([b]) == ["ls"];
    assert ReadCommand([b], [a.text], PLAIN_SHELL) == Simple([a.text], Texts([b]));
  }

  lemma MaybeAssignmentIsTaken()
    ensures Taken("a+=b", PLAIN_SHELL)
    ensures ShellReads(Render(["a+=b", "env"]), PLAIN_SHELL) != Simple([], ["a+=b", "env"])
  {
    assert "a+=b"[2] == '=' && "a+=b"[0] != '=';
    ShellReadsTheSame(["a+=b", "env"], PLAIN_SHELL);
    hide ShellReads, Render;
  }

  lemma ReservedIsTaken()
    ensures Taken("while", PLAIN_SHELL) && ShellReads(Render(["while"]), PLAIN_SHELL) == Special("while")
  {
    hide ShellFields, Render;
    RenderIsFields(["while"], []);
    PrintingAddsNoNul(["while"]);
    assert FieldsOf(["while"]) == [FieldOf("while")];
    assert [] + [FieldOf("while")] == [FieldOf("while")];
  }

  lemma NulIsUnread()
    ensures ShellReads(Render(["printf", "a\0b"]), PLAIN_SHELL) == Unread
  {
    hide Render;
    var parts := ["printf", "a\0b"];
    assert parts[1][1] == '\0' && parts[1] in parts;
    PrintingAddsNoNul(parts);
  }

  /**
   Resolving replaces exactly the word `orca` in front and keeps every other argument; it leaves alone any
   line that does not start with that word, and resolving again changes nothing more.  To a shell it is that
   command if and only if nothing in it has a NUL and the executable's name is not taken.
   */
  lemma ResolvedCommand(command: string, executable: string, shell: Shell)
    ensures var parts := Parse(command);
            && (parts.None? || parts.value[0] != "orca" ==> RenderResolved(command, executable) == command)
            && (parts.Some? && parts.value[0] == "orca" ==>
                  var kept := parts.value[1..];
                  && Parse(RenderResolved(command, executable)) == Some([executable] + kept)
                  && (ShellReads(RenderResolved(command, executable), shell) == Simple([], [executable] + kept)
                      <==> NoNul([executable]) && NoNul(kept) && !Taken(executable, shell)))
    ensures var once := RenderResolved(command, executable); RenderResolved(once, executable) == once
  {
    var parts := Parse(command);
    hide ShellReads, Render, Taken, Scan;
    if parts.Some? && parts.value[0] == "orca" {
      var resolved := [executable] + parts.value[1..];
      RoundTrip(resolved);
      ShellReadsTheSame(resolved, shell);
      assert resolved[1..] == parts.value[1..];
      assert forall part :: part in resolved <==> part in [executable] || part in parts.value[1..];
    }
  }
}

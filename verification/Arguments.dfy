/**
 The argv scanner and its flags (src/cli/args.ts), with the readers of repeated flags (src/cli/flags.ts).
 The set of boolean flags and the index findCliCommandIndex returns are inputs; the results hold for any.
 */
module Arguments {
  import opened Common
  import opened CommandSpecs

  /** A flag's value: `true` for a flag that came without one. */
  datatype Value = Valueless | Str(text: string)
  type Flags = map<string, Value>
  datatype Entry = Entry(name: string, value: Value)

  const SEPARATOR := '\0'
  const REPEATABLE_STRING_FLAGS := {"label", "skill"}

  // ---------------------------------------------------------------- scanning

  predicate IsOption(token: string) { |token| >= 2 && token[0] == '-' && token[1] == '-' }

  function IndexOf(s: string, c: char): (i: int)
    ensures -1 <= i < |s|
    ensures i == -1 <==> c !in s
    ensures i >= 0 ==> s[i] == c && c !in s[..i]
  {
    if s == [] then -1
    else if s[0] == c then 0
    else
      var rest := IndexOf(s[1..], c);
      assert rest >= 0 ==> s[..rest + 1] == [s[0]] + s[1..][..rest];
      if rest == -1 then -1 else rest + 1
  }

  lemma {:induction false} IndexIs(before: string, c: char, after: string)
    requires c !in before
    ensures IndexOf(before + [c] + after, c) == |before|
  {
    var s := before + [c] + after;
    if before != [] {
      assert s[0] == before[0] && s[1..] == before[1..] + [c] + after;
      IndexIs(before[1..], c, after);
    }
  }

  /** What one or two argv tokens stand for. */
  datatype Token =
    | Positional(text: string)
    | Assigned(name: string, text: string)   // --name=text
    | Valued(name: string, text: string)     // --name text
    | Alone(name: string)                    // --name

  function Shown(token: Token): seq<string> {
    match token
    case Positional(text) => [text]
    case Assigned(name, text) => ["--" + name + "=" + text]
    case Valued(name, text) => ["--" + name, text]
    case Alone(name) => ["--" + name]
  }

  function ShownAll(tokens: seq<Token>): seq<string> {
    if tokens == [] then [] else Shown(tokens[0]) + ShownAll(tokens[1..])
  }

  /** The token that starts at argv[i]; `started` says that a positional has been seen. */
  function TokenAt(argv: seq<string>, i: nat, started: bool, booleans: set<string>, commandIndex: int): Token
    requires i < |argv|
  {
    var token := argv[i];
    if !IsOption(token) then Positional(token)
    else
      var assignment := token[2..];
      var equals := IndexOf(assignment, '=');
      if equals != -1 then Assigned(assignment[..equals], assignment[equals + 1..])
      else if assignment in booleans then Alone(assignment)
      else if !started && i + 1 == commandIndex then Alone(assignment)
      else if i + 1 >= |argv| || IsOption(argv[i + 1]) then Alone(assignment)
      else Valued(assignment, argv[i + 1])
  }

  function Width(token: Token): nat { if token.Valued? then 2 else 1 }

  function Tokenize(argv: seq<string>, i: nat, started: bool, booleans: set<string>, commandIndex: int): seq<Token>
    requires i <= |argv|
    decreases |argv| - i
  {
    if i == |argv| then []
    else
      var token := TokenAt(argv, i, started, booleans, commandIndex);
      [token] + Tokenize(argv, i + Width(token), started || token.Positional?, booleans, commandIndex)
  }

  function Positionals(tokens: seq<Token>): seq<string> {
    if tokens == [] then []
    else (if tokens[0].Positional? then [tokens[0].text] else []) + Positionals(tokens[1..])
  }

  function EntryOf(token: Token): seq<Entry> {
    match token
    case Positional(_) => []
    case Assigned(name, text) => [Entry(name, Str(text))]
    case Valued(name, text) => [Entry(name, Str(text))]
    case Alone(name) => [Entry(name, Valueless)]
  }

  function Entries(tokens: seq<Token>): seq<Entry> {
    if tokens == [] then [] else EntryOf(tokens[0]) + Entries(tokens[1..])
  }

  lemma TokenizeStep(argv: seq<string>, i: nat, started: bool, booleans: set<string>, commandIndex: int)
    requires i < |argv|
    ensures var token := TokenAt(argv, i, started, booleans, commandIndex);
            && i < i + Width(token) <= |argv|
            && Tokenize(argv, i, started, booleans, commandIndex)
               == [token] + Tokenize(argv, i + Width(token), started || token.Positional?, booleans, commandIndex)
  {
    hide TokenAt;
    TokenSpelled(argv, i, started, booleans, commandIndex);
  }

  /** Nothing of argv is lost or reordered: the tokens spell it out again, whatever it is. */
  lemma {:induction false} TokensSpellArgv(argv: seq<string>, i: nat, started: bool, booleans: set<string>,
                                           commandIndex: int)
    requires i <= |argv|
    ensures ShownAll(Tokenize(argv, i, started, booleans, commandIndex)) == argv[i..]
    decreases |argv| - i
  {
    if i < |argv| {
      hide TokenAt, Shown, ShownAll, Width;
      TokenizeStep(argv, i, started, booleans, commandIndex);
      hide Tokenize;
      var token := TokenAt(argv, i, started, booleans, commandIndex);
      var next := i + Width(token);
      TokenSpelled(argv, i, started, booleans, commandIndex);
      TokensSpellArgv(argv, next, started || token.Positional?, booleans, commandIndex);
      var rest := Tokenize(argv, next, started || token.Positional?, booleans, commandIndex);
      ShownFirst(token, rest);
      Cut(argv, i, next);
    } else {
      assert argv[i..] == [];
    }
  }

  lemma ShownFirst(token: Token, rest: seq<Token>)
    ensures ShownAll([token] + rest) == Shown(token) + ShownAll(rest)
    ensures ShownAll([]) == []
  {
    hide Shown;
  }

  lemma TokenSpelled(argv: seq<string>, i: nat, started: bool, booleans: set<string>, commandIndex: int)
    requires i < |argv|
    ensures var token := TokenAt(argv, i, started, booleans, commandIndex);
            i + Width(token) <= |argv| && Shown(token) == argv[i..i + Width(token)]
  {
    hide IndexOf;
    if IsOption(argv[i]) {
      OptionSpelled(argv[i]);
    }
  }

  lemma OptionSpelled(token: string)
    requires IsOption(token)
    ensures token == "--" + token[2..]
    ensures var equals := IndexOf(token[2..], '=');
            equals != -1 ==> "--" + token[2..][..equals] + "=" + token[2..][equals + 1..] == token
  {
    hide IndexOf;
    assert token == "--" + token[2..];
  }

  /** A flag's name never has an equals sign. */
  lemma {:induction false} NamesHaveNoEquals(argv: seq<string>, i: nat, started: bool, booleans: set<string>,
                                             commandIndex: int)
    requires i <= |argv|
    ensures forall e :: e in Entries(Tokenize(argv, i, started, booleans, commandIndex)) ==> '=' !in e.name
    decreases |argv| - i
  {
    if i < |argv| {
      hide TokenAt, Width, EntryOf;
      var token := TokenAt(argv, i, started, booleans, commandIndex);
      TokenSpelled(argv, i, started, booleans, commandIndex);
      TokenNamesPlainly(argv, i, started, booleans, commandIndex);
      var rest := Tokenize(argv, i + Width(token), started || token.Positional?, booleans, commandIndex);
      NamesHaveNoEquals(argv, i + Width(token), started || token.Positional?, booleans, commandIndex);
      FirstEntry(token, rest);
    } else {
      NoTokens();
    }
  }

  lemma FirstEntry(token: Token, rest: seq<Token>)
    ensures Entries([token] + rest) == EntryOf(token) + Entries(rest)
  {
    assert ([token] + rest)[1..] == rest;
  }

  lemma TokenNamesPlainly(argv: seq<string>, i: nat, started: bool, booleans: set<string>, commandIndex: int)
    requires i < |argv|
    ensures forall e :: e in EntryOf(TokenAt(argv, i, started, booleans, commandIndex)) ==> '=' !in e.name
  {
    hide IndexOf;
  }

  /** What a list of tokens written from argv[i] on must satisfy to be read as such.  A flag takes the next word
      unless it is boolean, or stands right in front of the command, or no word but a flag or nothing follows. */
  ghost predicate Fits(tokens: seq<Token>, i: nat, started: bool, booleans: set<string>, commandIndex: int)
    decreases |tokens|
  {
    tokens == [] ||
    (&& FitsHere(tokens[0], ShownAll(tokens[1..]), i, started, booleans, commandIndex)
     && Fits(tokens[1..], i + |Shown(tokens[0])|, started || tokens[0].Positional?, booleans, commandIndex))
  }

  // One token, written at argv[i] with `rest` behind.
  ghost predicate FitsHere(token: Token, rest: seq<string>, i: nat, started: bool, booleans: set<string>,
                           commandIndex: int) {
    && (token.Positional? ==> !IsOption(token.text))
    && (!token.Positional? ==> '=' !in token.name)
    && (token.Valued? ==>
          token.name !in booleans && (started || i + 1 != commandIndex) && !IsOption(token.text))
    && (token.Alone? ==>
          token.name in booleans || (!started && i + 1 == commandIndex) || rest == [] || IsOption(rest[0]))
  }

  lemma OptionIs(name: string, text: string)
    requires '=' !in name
    ensures var bare, full := "--" + name, "--" + name + "=" + text;
            && IsOption(bare) && bare[2..] == name && IndexOf(name, '=') == -1
            && IsOption(full) && full[2..] == name + "=" + text && IndexOf(name + "=" + text, '=') == |name|
            && (name + "=" + text)[..|name|] == name && (name + "=" + text)[|name| + 1..] == text
  {
    hide IndexOf;
    IndexIs(name, '=', text);
    assert ("--" + name + "=" + text)[2..] == name + "=" + text;
    assert ("--" + name)[2..] == name;
  }

  lemma FirstShown(argv: seq<string>, i: nat, tokens: seq<Token>)
    requires i <= |argv| && argv[i..] == ShownAll(tokens) && tokens != []
    ensures var width, rest := |Shown(tokens[0])|, ShownAll(tokens[1..]);
            && 1 <= width <= 2 && width == Width(tokens[0]) && i + width <= |argv|
            && argv[i] == Shown(tokens[0])[0] && (width == 2 ==> argv[i + 1] == Shown(tokens[0])[1])
            && argv[i + width..] == rest
            && (i + width < |argv| <==> rest != []) && (rest != [] ==> argv[i + width] == rest[0])
  {
    var shown, rest := Shown(tokens[0]), ShownAll(tokens[1..]);
    assert argv[i..] == shown + rest;
    hide ShownAll;
    Behind(argv, i, shown, rest);
  }

  lemma Behind(argv: seq<string>, i: nat, shown: seq<string>, rest: seq<string>)
    requires i <= |argv| && argv[i..] == shown + rest
    ensures i + |shown| <= |argv| && argv[i + |shown|..] == rest
    ensures forall k :: 0 <= k < |shown| ==> argv[i + k] == shown[k]
    ensures if i + |shown| < |argv| then rest != [] && argv[i + |shown|] == rest[0] else rest == []
  {
    var end := i + |shown|;
    assert |argv[i..]| == |shown| + |rest|;
    assert argv[end..] == argv[i..][|shown|..];
    forall k | 0 <= k < |shown| ensures argv[i + k] == shown[k] { assert argv[i..][k] == shown[k]; }
    if end < |argv| { assert argv[end] == argv[end..][0]; }
  }

  lemma Cut(argv: seq<string>, i: nat, next: nat)
    requires i <= next <= |argv|
    ensures argv[i..] == argv[i..next] + argv[next..]
  {
  }

  lemma TokenIsRead(argv: seq<string>, i: nat, started: bool, booleans: set<string>, commandIndex: int,
                    tokens: seq<Token>)
    requires i <= |argv| && argv[i..] == ShownAll(tokens) && tokens != []
    requires Fits(tokens, i, started, booleans, commandIndex)
    ensures i < |argv| && TokenAt(argv, i, started, booleans, commandIndex) == tokens[0]
  {
    var token := tokens[0];
    FirstShown(argv, i, tokens);
    hide ShownAll, IndexOf;
    if !token.Positional? {
      OptionIs(token.name, if token.Alone? then "" else token.text);
    }
  }

  /** Tokens are read as they were written if and only if they fit; whatever argv is, what is read fits. */
  lemma {:induction false} TokensAreReadIffFit(argv: seq<string>, i: nat, started: bool, booleans: set<string>,
                                               commandIndex: int, tokens: seq<Token>)
    requires i <= |argv| && argv[i..] == ShownAll(tokens)
    ensures Tokenize(argv, i, started, booleans, commandIndex) == tokens
       <==> Fits(tokens, i, started, booleans, commandIndex)
    decreases |argv| - i
  {
    if Fits(tokens, i, started, booleans, commandIndex) {
      FittingIsRead(argv, i, started, booleans, commandIndex, tokens);
    }
    ReadFits(argv, i, started, booleans, commandIndex);
  }

  lemma {:induction false} FittingIsRead(argv: seq<string>, i: nat, started: bool, booleans: set<string>,
                                         commandIndex: int, tokens: seq<Token>)
    requires i <= |argv| && argv[i..] == ShownAll(tokens) && Fits(tokens, i, started, booleans, commandIndex)
    ensures Tokenize(argv, i, started, booleans, commandIndex) == tokens
    decreases |argv| - i
  {
    hide TokenAt, Shown, ShownAll, Width, Fits;
    if tokens != [] {
      var token := tokens[0];
      TokenIsRead(argv, i, started, booleans, commandIndex, tokens);
      FirstShown(argv, i, tokens);
      FitsOn(tokens, i, started, booleans, commandIndex);
      var next := i + Width(token);
      FittingIsRead(argv, next, started || token.Positional?, booleans, commandIndex, tokens[1..]);
      assert [token] + tokens[1..] == tokens;
    } else {
      NothingShown();
      assert argv[i..] == [];
    }
  }

  lemma NothingShown()
    ensures ShownAll([]) == []
  {
  }

  lemma FitsOn(tokens: seq<Token>, i: nat, started: bool, booleans: set<string>, commandIndex: int)
    requires tokens != [] && Fits(tokens, i, started, booleans, commandIndex)
    ensures Fits(tokens[1..], i + |Shown(tokens[0])|, started || tokens[0].Positional?, booleans, commandIndex)
  {
  }

  lemma {:induction false} ReadFits(argv: seq<string>, i: nat, started: bool, booleans: set<string>, commandIndex: int)
    requires i <= |argv|
    ensures Fits(Tokenize(argv, i, started, booleans, commandIndex), i, started, booleans, commandIndex)
    decreases |argv| - i
  {
    if i < |argv| {
      hide TokenAt, Shown, ShownAll, FitsHere, Width;
      TokenizeStep(argv, i, started, booleans, commandIndex);
      hide Tokenize;
      var token := TokenAt(argv, i, started, booleans, commandIndex);
      var next := i + Width(token);
      var rest := Tokenize(argv, next, started || token.Positional?, booleans, commandIndex);
      TokenSpelled(argv, i, started, booleans, commandIndex);
      TokensSpellArgv(argv, next, started || token.Positional?, booleans, commandIndex);
      ReadFits(argv, next, started || token.Positional?, booleans, commandIndex);
      ReadFitsHere(argv, i, started, booleans, commandIndex);
      FitsFirst(token, rest, i, started, booleans, commandIndex);
      hide Fits;
    }
  }

  lemma FitsFirst(token: Token, rest: seq<Token>, i: nat, started: bool, booleans: set<string>, commandIndex: int)
    requires FitsHere(token, ShownAll(rest), i, started, booleans, commandIndex)
    requires Fits(rest, i + |Shown(token)|, started || token.Positional?, booleans, commandIndex)
    ensures Fits([token] + rest, i, started, booleans, commandIndex)
  {
    hide FitsHere, ShownAll;
    assert ([token] + rest)[1..] == rest;
  }

  lemma ReadFitsHere(argv: seq<string>, i: nat, started: bool, booleans: set<string>, commandIndex: int)
    requires i < |argv|
    ensures var token := TokenAt(argv, i, started, booleans, commandIndex);
            && |Shown(token)| == Width(token)
            && i + Width(token) <= |argv|
            && FitsHere(token, argv[i + Width(token)..], i, started, booleans, commandIndex)
  {
    TokenSpelled(argv, i, started, booleans, commandIndex);
    hide IndexOf;
  }

  // Tokens whose spelling reads back as themselves wherever they stand.
  predicate Plain(token: Token) {
    match token
    case Positional(text) => !IsOption(text)
    case Assigned(name, _) => '=' !in name
    case _ => false
  }

  /** Any mix of bare positionals and --name=value tokens is read back as it was written, wherever the command
      stands and whatever flags are boolean; values may be empty or look like flags. */
  lemma {:induction false} PlainTokensAreRead(argv: seq<string>, i: nat, started: bool, booleans: set<string>,
                                              commandIndex: int, tokens: seq<Token>)
    requires i <= |argv| && argv[i..] == ShownAll(tokens) && forall t :: t in tokens ==> Plain(t)
    ensures Tokenize(argv, i, started, booleans, commandIndex) == tokens
  {
    PlainFits(tokens, i, started, booleans, commandIndex);
    FittingIsRead(argv, i, started, booleans, commandIndex, tokens);
  }

  lemma {:induction false} PlainFits(tokens: seq<Token>, i: nat, started: bool, booleans: set<string>,
                                     commandIndex: int)
    requires forall t :: t in tokens ==> Plain(t)
    ensures Fits(tokens, i, started, booleans, commandIndex)
    decreases |tokens|
  {
    if tokens != [] {
      assert tokens[0] in tokens && Plain(tokens[0]);
      PlainFits(tokens[1..], i + |Shown(tokens[0])|, started || tokens[0].Positional?, booleans, commandIndex);
    }
  }

  // ---------------------------------------------------------------- collecting flags

  function SetFlagValue(flags: Flags, name: string, value: string, repeatable: set<string>,
                        booleans: set<string>): Flags {
    if name in flags && flags[name] == Valueless && name in repeatable && name !in booleans then flags
    else if name in flags && flags[name].Str? && name in repeatable then
      flags[name := Str(flags[name].text + [SEPARATOR] + value)]
    else flags[name := Str(value)]
  }

  function SetEntry(flags: Flags, entry: Entry, repeatable: set<string>, booleans: set<string>): Flags {
    match entry.value
    case Str(text) => SetFlagValue(flags, entry.name, text, repeatable, booleans)
    case Valueless => flags[entry.name := Valueless]
  }

  function Collect(flags: Flags, entries: seq<Entry>, repeatable: set<string>, booleans: set<string>): Flags {
    if entries == [] then flags
    else SetEntry(Collect(flags, entries[..|entries| - 1], repeatable, booleans), entries[|entries| - 1], repeatable,
          booleans)
  }

  function Occurrences(entries: seq<Entry>, name: string): seq<Value> {
    if entries == [] then []
    else
      var last := entries[|entries| - 1];
      Occurrences(entries[..|entries| - 1], name) + if last.name == name then [last.value] else []
  }

  function Join(values: seq<Value>): string
    requires forall v :: v in values ==> v.Str?
  {
    if values == [] then ""
    else if |values| == 1 then values[0].text
    else Join(values[..|values| - 1]) + [SEPARATOR] + values[|values| - 1].text
  }

  // The values after the last valueless occurrence.
  function AfterValueless(values: seq<Value>): (r: seq<Value>)
    ensures forall v :: v in r ==> v.Str?
    ensures r != [] ==> values != [] && values[|values| - 1].Str?
    ensures (forall v :: v in values ==> v.Str?) ==> r == values
  {
    assert values != [] ==> values[|values| - 1] in values;
    if values == [] || values[|values| - 1].Valueless? then []
    else AfterValueless(values[..|values| - 1]) + [values[|values| - 1]]
  }

  /** What a flag ends up as, said from its occurrences alone: the last one, if it does not repeat; a
      missing value, if any occurrence of a repeatable string flag misses it; all of them joined otherwise. */
  function Final(values: seq<Value>, repeats: bool, boolean: bool): Value
    requires values != []
  {
    var last := values[|values| - 1];
    if !repeats then last
    else if !boolean && Valueless in values then Valueless
    else if last.Valueless? then Valueless
    else Str(Join(AfterValueless(values)))
  }

  function Lookup(flags: Flags, name: string): Option<Value> { if name in flags then Some(flags[name]) else None }

  // What one more occurrence makes of a flag.
  function Update(existing: Option<Value>, value: Value, repeats: bool, boolean: bool): Value {
    if value.Valueless? || existing.None? || !repeats then value
    else if existing.value.Valueless? then if boolean then value else Valueless
    else Str(existing.value.text + [SEPARATOR] + value.text)
  }

  lemma FinalStep(values: seq<Value>, value: Value, repeats: bool, boolean: bool)
    ensures Final(values + [value], repeats, boolean)
         == Update(FinalOf(values, repeats, boolean), value, repeats, boolean)
  {
    hide Join, AfterValueless;
    var all := values + [value];
    assert Valueless in all <==> Valueless in values || value == Valueless;
    if value.Str? {
      AfterStep(values, value);
      JoinStep(AfterValueless(values), value);
      if values != [] { LastDecides(values); }
    }
  }

  lemma AfterStep(values: seq<Value>, value: Value)
    requires value.Str?
    ensures AfterValueless(values + [value]) == AfterValueless(values) + [value]
  {
    assert (values + [value])[..|values|] == values;
  }

  lemma LastDecides(values: seq<Value>)
    requires values != []
    ensures AfterValueless(values) == [] <==> values[|values| - 1].Valueless?
  {
  }

  lemma JoinStep(values: seq<Value>, value: Value)
    requires value.Str? && forall v :: v in values ==> v.Str?
    ensures Join(values + [value]) == if values == [] then value.text else Join(values) + [SEPARATOR] + value.text
  {
    assert (values + [value])[..|values|] == values;
  }

  lemma SetEntryUpdates(flags: Flags, entry: Entry, repeatable: set<string>, booleans: set<string>, name: string)
    ensures Lookup(SetEntry(flags, entry, repeatable, booleans), name)
         == if entry.name == name
            then Some(Update(Lookup(flags, name), entry.value, name in repeatable, name in booleans))
            else Lookup(flags, name)
  {
  }

  function FinalOf(values: seq<Value>, repeats: bool, boolean: bool): Option<Value> {
    if values == [] then None else Some(Final(values, repeats, boolean))
  }

  /** The incremental collection computes exactly that, for every list of entries and every flag. */
  lemma {:induction false} CollectIsFinal(flags: Flags, entries: seq<Entry>, repeatable: set<string>,
                                          booleans: set<string>, name: string)
    requires name !in flags
    ensures Lookup(Collect(flags, entries, repeatable, booleans), name)
         == FinalOf(Occurrences(entries, name), name in repeatable, name in booleans)
  {
    hide Final, SetEntry, Update;
    if entries != [] {
      var before, last := entries[..|entries| - 1], entries[|entries| - 1];
      CollectIsFinal(flags, before, repeatable, booleans, name);
      SetEntryUpdates(Collect(flags, before, repeatable, booleans), last, repeatable, booleans, name);
      if last.name == name {
        FinalStep(Occurrences(before, name), last.value, name in repeatable, name in booleans);
      } else {
        assert Occurrences(entries, name) == Occurrences(before, name);
      }
    }
  }

  /** A later value never hides that an earlier occurrence of a repeatable string flag came without one. */
  lemma ValuelessIsNeverHidden(entries: seq<Entry>, repeatable: set<string>, booleans: set<string>, name: string)
    requires name in repeatable && name !in booleans
    ensures var r := Collect(map[], entries, repeatable, booleans);
            name in r && r[name] == Valueless <==> Valueless in Occurrences(entries, name)
  {
    CollectIsFinal(map[], entries, repeatable, booleans, name);
  }

  // ---------------------------------------------------------------- reading repeated flags

  function Split(text: string): (parts: seq<string>)
    ensures parts != []
    ensures forall part :: part in parts ==> SEPARATOR !in part
    decreases |text|
  {
    var at := IndexOf(text, SEPARATOR);
    if at == -1 then [text] else [text[..at]] + Split(text[at + 1..])
  }

  datatype Read<T> = Rejected | Ok(value: T)

  /** getOptionalStringFlag: a flag without a value is refused, an empty value counts as none. */
  function GetOptionalString(flags: Flags, name: string): Read<Option<string>> {
    if name !in flags then Ok(None)
    else
      match flags[name]
      case Valueless => Rejected
      case Str(text) => Ok(if text == "" then None else Some(text))
  }

  predicate NonEmpty(s: string) { s != "" }

  function GetRepeatedString(flags: Flags, name: string): Read<seq<string>> {
    match GetOptionalString(flags, name)
    case Rejected => Rejected
    case Ok(None) => Ok([])
    case Ok(Some(text)) => Ok(Filter(NonEmpty, Split(text)))
  }

  function SplitAll(values: seq<Value>): seq<string>
    requires forall v :: v in values ==> v.Str?
  {
    if values == [] then [] else SplitAll(values[..|values| - 1]) + Split(values[|values| - 1].text)
  }

  lemma SplitAt(before: string, after: string)
    requires SEPARATOR !in before
    ensures Split(before + [SEPARATOR] + after) == [before] + Split(after)
    ensures Split(before) == [before]
  {
    var s := before + [SEPARATOR] + after;
    IndexIs(before, SEPARATOR, after);
    assert s[..|before|] == before && s[|before| + 1..] == after;
  }

  lemma {:induction false} SplitOfConcat(a: string, b: string)
    ensures Split(a + [SEPARATOR] + b) == Split(a) + Split(b)
    decreases |a|
  {
    hide Split;
    var at := IndexOf(a, SEPARATOR);
    if at == -1 {
      SplitAt(a, b);
    } else {
      var first, rest := a[..at], a[at + 1..];
      assert a == first + [SEPARATOR] + rest;
      assert a + [SEPARATOR] + b == first + [SEPARATOR] + (rest + [SEPARATOR] + b);
      SplitAt(first, rest);
      SplitAt(first, rest + [SEPARATOR] + b);
      SplitOfConcat(rest, b);
    }
  }

  lemma {:induction false} SplitOfJoin(values: seq<Value>)
    requires values != [] && forall v :: v in values ==> v.Str?
    ensures Split(Join(values)) == SplitAll(values)
  {
    hide Split;
    var before := values[..|values| - 1];
    if |values| > 1 {
      SplitOfJoin(before);
      SplitOfConcat(Join(before), values[|values| - 1].text);
    } else {
      assert SplitAll(before) == [];
    }
  }

  function Texts(values: seq<Value>): seq<string>
    requires forall v :: v in values ==> v.Str?
  {
    seq(|values|, i requires 0 <= i < |values| => assert values[i] in values; values[i].text)
  }

  lemma {:induction false} NoSeparatorNoSplit(values: seq<Value>)
    requires forall v :: v in values ==> v.Str? && SEPARATOR !in v.text
    ensures SplitAll(values) == Texts(values)
  {
    if values != [] {
      hide Split, Texts;
      var before, last := values[..|values| - 1], values[|values| - 1];
      assert last in values;
      NoSeparatorNoSplit(before);
      SplitAt(last.text, "");
      LastText(values);
    } else {
      NoTexts();
    }
  }

  lemma LastText(values: seq<Value>)
    requires values != [] && forall v :: v in values ==> v.Str?
    ensures values[|values| - 1] in values
    ensures Texts(values) == Texts(values[..|values| - 1]) + [values[|values| - 1].text]
  {
  }

  lemma NoTexts()
    ensures Texts([]) == []
  {
  }

  /**
   A repeatable flag given only with values is read back as its non-empty values in order if and only if
   no value contains the separator; in every case it is read as the pieces between separators.
   */
  lemma RepeatedReadsBack(entries: seq<Entry>, repeatable: set<string>, booleans: set<string>, name: string)
    requires name in repeatable && Valueless !in Occurrences(entries, name)
    ensures var values := Occurrences(entries, name);
            var read := GetRepeatedString(Collect(map[], entries, repeatable, booleans), name);
            && (forall v :: v in values ==> v.Str?)
            && read == Ok(Filter(NonEmpty, SplitAll(values)))
            && (read == Ok(Filter(NonEmpty, Texts(values))) <==> forall v :: v in values ==> SEPARATOR !in v.text)
  {
    hide Split, Collect, Occurrences, Filter, Texts, SplitAll, Join, IndexOf, AfterValueless;
    var values := Occurrences(entries, name);
    forall v | v in values ensures v.Str? { assert v != Valueless; }
    CollectIsFinal(map[], entries, repeatable, booleans, name);
    SeparatorShows(values);
    if values == [] {
      NoPieces();
    } else {
      SplitOfJoin(values);
      assert values[|values| - 1] in values;
      EmptyHasNoPieces();
    }
  }

  lemma NoPieces()
    ensures Filter(NonEmpty, SplitAll([])) == []
  {
  }

  lemma EmptyHasNoPieces()
    ensures Filter(NonEmpty, Split("")) == []
  {
    assert Split("") == [""];
    assert Filter(NonEmpty, [""]) == Filter(NonEmpty, []);
  }

  // A value with a separator cannot come back from a split.
  lemma SeparatorShows(values: seq<Value>)
    requires forall v :: v in values ==> v.Str?
    ensures Filter(NonEmpty, SplitAll(values)) == Filter(NonEmpty, Texts(values))
       <==> forall v :: v in values ==> SEPARATOR !in v.text
  {
    if v :| v in values && SEPARATOR in v.text {
      var i :| 0 <= i < |values| && values[i] == v;
      assert Texts(values)[i] == v.text;
      FilterIs(NonEmpty, Texts(values), v.text);
      FilterIs(NonEmpty, SplitAll(values), v.text);
      PiecesHaveNone(values, v.text);
    } else {
      NoSeparatorNoSplit(values);
    }
  }

  lemma {:induction false} PiecesHaveNone(values: seq<Value>, piece: string)
    requires forall v :: v in values ==> v.Str?
    ensures piece in SplitAll(values) ==> SEPARATOR !in piece
  {
    if values != [] {
      PiecesHaveNone(values[..|values| - 1], piece);
    }
  }

  // ---------------------------------------------------------------- parseArgs

  predicate PrefixAt(specs: seq<Spec>, path: Path, i: nat, j: nat) {
    i < |specs| && j < |SpecPaths(specs[i])| && SpecPaths(specs[i])[j] <= path
  }

  predicate Precedes(k: nat, m: nat, i: nat, j: nat) { k < i || (k == i && m < j) }

  /** Position (i, j) has the longest prefix among the positions before (iEnd, jEnd); among equals, the first. */
  ghost predicate BestBefore(specs: seq<Spec>, path: Path, i: nat, j: nat, iEnd: nat, jEnd: nat) {
    && PrefixAt(specs, path, i, j) && Precedes(i, j, iEnd, jEnd)
    && forall k: nat, m: nat :: PrefixAt(specs, path, k, m) && Precedes(k, m, iEnd, jEnd) ==>
         && |SpecPaths(specs[k])[m]| <= |SpecPaths(specs[i])[j]|
         && (|SpecPaths(specs[k])[m]| == |SpecPaths(specs[i])[j]| ==> !Precedes(k, m, i, j))
  }

  /** The longest path that prefixes the words typed; among equals, the first declared. */
  ghost predicate LongestPrefix(specs: seq<Spec>, path: Path, best: Option<Spec>) {
    match best
    case None => forall k: nat, m: nat :: !PrefixAt(specs, path, k, m)
    case Some(spec) => exists i: nat, j: nat :: BestBefore(specs, path, i, j, |specs|, 0) && specs[i] == spec
  }

  method SpecForPathPrefix(specs: seq<Spec>, path: Path) returns (best: Option<Spec>)
    ensures LongestPrefix(specs, path, best)
  {
    best := None;
    var length := 0;
    ghost var at: nat, candidateAt: nat := 0, 0;
    for i := 0 to |specs|
      invariant best.None? ==> forall k: nat, m: nat :: PrefixAt(specs, path, k, m) ==> !Precedes(k, m, i, 0)
      invariant best.Some? ==> BestBefore(specs, path, at, candidateAt, i, 0)
                               && best.value == specs[at] && length == |SpecPaths(specs[at])[candidateAt]|
    {
      var spec := specs[i];
      var candidates := SpecPaths(spec);
      for j := 0 to |candidates|
        invariant best.None? ==> forall k: nat, m: nat :: PrefixAt(specs, path, k, m) ==> !Precedes(k, m, i, j)
        invariant best.Some? ==> BestBefore(specs, path, at, candidateAt, i, j)
                                 && best.value == specs[at] && length == |SpecPaths(specs[at])[candidateAt]|
      {
        var candidate := candidates[j];
        assert PrefixAt(specs, path, i, j) <==> candidate <= path;
        if candidate <= path && (best.None? || |candidate| > length) {
          best, length := Some(spec), |candidate|;
          at, candidateAt := i, j;
        }
      }
    }
  }

  datatype Parsed = Parsed(commandPath: seq<string>, flags: Flags)

  lemma {:induction false} OneMoreToken(done: seq<Token>, next: Token)
    ensures Positionals(done + [next]) == Positionals(done) + (if next.Positional? then [next.text] else [])
    ensures Entries(done + [next]) == Entries(done) + EntryOf(next)
  {
    hide EntryOf;
    if done == [] {
      assert done + [next] == [next];
    } else {
      assert (done + [next])[0] == done[0] && (done + [next])[1..] == done[1..] + [next];
      OneMoreToken(done[1..], next);
      assert EntryOf(done[0]) + (Entries(done[1..]) + EntryOf(next)) ==
               (EntryOf(done[0]) + Entries(done[1..])) + EntryOf(next);
    }
  }

  method ScanArgv(argv: seq<string>, booleans: set<string>, commandIndex: int)
      returns (commandPath: seq<string>, flagEntries: seq<Entry>)
    ensures var tokens := Tokenize(argv, 0, false, booleans, commandIndex);
            commandPath == Positionals(tokens) && flagEntries == Entries(tokens)
  {
    hide Positionals, Entries, IndexOf, Tokenize;
    commandPath, flagEntries := [], [];
    ghost var done: seq<Token> := [];
    NoTokens();
    var i := 0;
    while i < |argv|
      invariant i <= |argv|
      invariant commandPath == Positionals(done) && flagEntries == Entries(done)
      invariant done + Tokenize(argv, i, commandPath != [], booleans, commandIndex)
             == Tokenize(argv, 0, false, booleans, commandIndex)
    {
      ghost var next := TokenAt(argv, i, commandPath != [], booleans, commandIndex);
      OneMoreToken(done, next);
      TokenizeMore(argv, i, commandPath != [], booleans, commandIndex, done);
      done := done + [next];
      var token := argv[i];
      i := i + 1;
      if !IsOption(token) {
        commandPath := commandPath + [token];
        continue;
      }
      var assignment := token[2..];
      var equals := IndexOf(assignment, '=');
      if equals != -1 {
        flagEntries := flagEntries + [Entry(assignment[..equals], Str(assignment[equals + 1..]))];
        continue;
      }
      if assignment in booleans || (commandPath == [] && i == commandIndex) || i >= |argv| || IsOption(argv[i]) {
        flagEntries := flagEntries + [Entry(assignment, Valueless)];
        continue;
      }
      flagEntries := flagEntries + [Entry(assignment, Str(argv[i]))];
      i := i + 1;
    }
    NothingLeft(argv, commandPath != [], booleans, commandIndex, done);
  }

  lemma TokenizeMore(argv: seq<string>, i: nat, started: bool, booleans: set<string>, commandIndex: int,
                     done: seq<Token>)
    requires i < |argv|
    ensures var next := TokenAt(argv, i, started, booleans, commandIndex);
            done + Tokenize(argv, i, started, booleans, commandIndex)
            == (done + [next]) + Tokenize(argv, i + Width(next), started || next.Positional?, booleans, commandIndex)
  {
    TokenizeStep(argv, i, started, booleans, commandIndex);
    hide Tokenize, TokenAt;
  }

  lemma NothingLeft(argv: seq<string>, started: bool, booleans: set<string>, commandIndex: int, done: seq<Token>)
    ensures done + Tokenize(argv, |argv|, started, booleans, commandIndex) == done
  {
  }

  lemma NoTokens()
    ensures Positionals([]) == [] && Entries([]) == []
  {
  }

  function Repeatable(spec: Option<Spec>): set<string> {
    REPEATABLE_STRING_FLAGS + if spec.Some? then spec.value.repeatableFlags else {}
  }

  /** What parsing an argv means, with the command whose rules apply. */
  ghost predicate ParsedAs(argv: seq<string>, specs: seq<Spec>, booleans: set<string>, commandIndex: int,
                           r: Parsed, spec: Option<Spec>)
  {
    var tokens := Tokenize(argv, 0, false, booleans, commandIndex);
    && r.commandPath == Positionals(tokens)
    && LongestPrefix(specs, r.commandPath, spec)
    && r.flags == Collect(map[], Entries(tokens), Repeatable(spec), booleans)
  }

  /** parseArgs: one pass over argv, then the flags collected by the rules of the matched command. */
  method ParseArgs(argv: seq<string>, specs: seq<Spec>, booleans: set<string>, commandIndex: int) returns (r: Parsed)
    ensures exists spec :: ParsedAs(argv, specs, booleans, commandIndex, r, spec)
  {
    hide Tokenize, LongestPrefix, SetEntry;
    var commandPath, flagEntries := ScanArgv(argv, booleans, commandIndex);
    var declared := SpecForPathPrefix(specs, commandPath);
    var repeatable := Repeatable(declared);
    var flags: Flags := map[];
    for k := 0 to |flagEntries|
      invariant flags == Collect(map[], flagEntries[..k], repeatable, booleans)
    {
      assert flagEntries[..k + 1][..k] == flagEntries[..k];
      flags := SetEntry(flags, flagEntries[k], repeatable, booleans);
    }
    assert flagEntries[..|flagEntries|] == flagEntries;
    r := Parsed(commandPath, flags);
    assert ParsedAs(argv, specs, booleans, commandIndex, r, declared);
  }

  /** The values written for a flag, in order. */
  function Written(tokens: seq<Token>, name: string): seq<Value> {
    if tokens == [] then []
    else
      var token := tokens[0];
      (if token.Positional? || token.name != name then []
       else if token.Alone? then [Valueless] else [Str(token.text)]) + Written(tokens[1..], name)
  }

  lemma {:induction false} OccurrencesAreWritten(tokens: seq<Token>, name: string)
    ensures Occurrences(Entries(tokens), name) == Written(tokens, name)
  {
    if tokens != [] {
      OccurrencesAreWritten(tokens[1..], name);
      OccurrencesOfConcat(EntryOf(tokens[0]), Entries(tokens[1..]), name);
      OccurrenceOfOne(tokens[0], name);
      hide Occurrences, EntryOf;
    }
  }

  lemma OccurrenceOfOne(token: Token, name: string)
    ensures Occurrences(EntryOf(token), name)
         == if token.Positional? || token.name != name then []
            else if token.Alone? then [Valueless] else [Str(token.text)]
  {
    var entries := EntryOf(token);
    if entries != [] {
      assert entries[..0] == [] && Occurrences([], name) == [];
    }
  }

  /**
   parseArgs and the readers undo the writing of any tokens that fit: the positionals come back in order; a flag
   that does not repeat has its last value or its missing one; a flag that repeats gives its non-empty values in
   order if none has the separator, and is rejected if one is missing.
   */
  lemma ArgvReadsBack(tokens: seq<Token>, repeatable: set<string>, booleans: set<string>, commandIndex: int,
                      name: string)
    requires Fits(tokens, 0, false, booleans, commandIndex)
    ensures var read := Tokenize(ShownAll(tokens), 0, false, booleans, commandIndex);
            var flags := Collect(map[], Entries(read), repeatable, booleans);
            var values := Written(tokens, name);
            && Positionals(read) == Positionals(tokens)
            && (name !in repeatable ==>
                  Lookup(flags, name) == if values == [] then None else Some(values[|values| - 1]))
            && (name in repeatable && name !in booleans && Valueless in values ==>
                  GetRepeatedString(flags, name) == Rejected)
            && (name in repeatable && (forall v :: v in values ==> v.Str? && SEPARATOR !in v.text) ==>
                  GetRepeatedString(flags, name) == Ok(Filter(NonEmpty, Texts(values))))
  {
    hide Tokenize, ShownAll, Collect, Entries, Occurrences, Filter, Texts, Positionals, Fits, AfterValueless,
      Join, Split;
    var argv := ShownAll(tokens);
    assert argv[0..] == argv;
    FittingIsRead(argv, 0, false, booleans, commandIndex, tokens);
    OccurrencesAreWritten(tokens, name);
    CollectIsFinal(map[], Entries(tokens), repeatable, booleans, name);
    if name in repeatable && Valueless !in Written(tokens, name) {
      RepeatedReadsBack(Entries(tokens), repeatable, booleans, name);
    }
  }

  /** So it is with any mix of positionals and --name=value tokens, without the separator. */
  lemma PlainArgvReadsBack(tokens: seq<Token>, repeatable: set<string>, booleans: set<string>, commandIndex: int,
                           name: string)
    requires forall t :: t in tokens ==> Plain(t) && (t.Assigned? ==> SEPARATOR !in t.text)
    ensures var read := Tokenize(ShownAll(tokens), 0, false, booleans, commandIndex);
            var flags := Collect(map[], Entries(read), repeatable, booleans);
            var values := Written(tokens, name);
            && Positionals(read) == Positionals(tokens)
            && (forall v :: v in values ==> v.Str?)
            && (name !in repeatable ==>
                  Lookup(flags, name) == if values == [] then None else Some(values[|values| - 1]))
            && (name in repeatable ==> GetRepeatedString(flags, name) == Ok(Filter(NonEmpty, Texts(values))))
  {
    hide Tokenize, ShownAll, Collect, Entries, Filter, Texts, Positionals, Fits, GetRepeatedString;
    PlainFits(tokens, 0, false, booleans, commandIndex);
    PlainIsWritten(tokens, name);
    ArgvReadsBack(tokens, repeatable, booleans, commandIndex, name);
  }

  lemma {:induction false} PlainIsWritten(tokens: seq<Token>, name: string)
    requires forall t :: t in tokens ==> Plain(t) && (t.Assigned? ==> SEPARATOR !in t.text)
    ensures forall v :: v in Written(tokens, name) ==> v.Str? && SEPARATOR !in v.text
  {
    if tokens != [] {
      PlainIsWritten(tokens[1..], name);
      assert tokens[0] in tokens;
    }
  }

  lemma {:induction false} OccurrencesOfConcat(a: seq<Entry>, b: seq<Entry>, name: string)
    ensures Occurrences(a + b, name) == Occurrences(a, name) + Occurrences(b, name)
  {
    if b == [] {
      assert a + b == a;
    } else {
      assert (a + b)[..|a + b| - 1] == a + b[..|b| - 1];
      OccurrencesOfConcat(a, b[..|b| - 1], name);
    }
  }
}

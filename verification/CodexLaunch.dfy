/**
 From a command line to the classification of src/cli/codex-command-classification.ts: the environment
 prefix, and what the classification then sees.  `lower` stands for toLowerCase.
 */
module CodexLaunch {
  import opened Common
  import opened ShellWords
  import opened CodexCommand

  const WORD_LIMIT := 32

  // ---------------------------------------------------------------- the environment prefix

  predicate IsNameStart(c: char) { 'A' <= c <= 'Z' || 'a' <= c <= 'z' || c == '_' }

  predicate IsNameChar(c: char) { IsNameStart(c) || '0' <= c <= '9' }

  // [A-Za-z0-9_]*= at the start
  predicate NameThenEquals(s: string) { s != "" && (s[0] == '=' || (IsNameChar(s[0]) && NameThenEquals(s[1..]))) }

  predicate IsShellAssignment(token: string) { token != "" && IsNameStart(token[0]) && NameThenEquals(token[1..]) }

  /** What follows the last slash or backslash. */
  function LastSegment(command: string): (r: string)
    ensures '/' !in r && '\\' !in r
  {
    if command == "" then ""
    else
      var last := command[|command| - 1];
      if last == '/' || last == '\\' then "" else LastSegment(command[..|command| - 1]) + [last]
  }

  function Basename(command: string, lower: string -> string): string { lower(LastSegment(command)) }

  /** The executable of a command is named by its last part, with either separator in front. */
  lemma BasenameIs(directory: string, name: string, lower: string -> string)
    requires '/' !in name && '\\' !in name
    requires directory != "" ==> directory[|directory| - 1] == '/' || directory[|directory| - 1] == '\\'
    ensures Basename(directory + name, lower) == lower(name)
  {
    LastSegmentIs(directory, name);
  }

  lemma {:induction false} LastSegmentIs(directory: string, name: string)
    requires '/' !in name && '\\' !in name
    requires directory != "" ==> directory[|directory| - 1] == '/' || directory[|directory| - 1] == '\\'
    ensures LastSegment(directory + name) == name
    decreases name
  {
    var command := directory + name;
    if name == "" {
      assert command == directory;
    } else {
      var shorter := name[..|name| - 1];
      assert command[|command| - 1] == name[|name| - 1] && command[..|command| - 1] == directory + shorter;
      LastSegmentIs(directory, shorter);
      assert shorter + [name[|name| - 1]] == name;
    }
  }

  /** A shell assignment: a name, an equals sign, anything. */
  lemma AssignmentIffNamed(token: string)
    ensures IsShellAssignment(token)
       <==> exists k :: 0 < k < |token| && token[k] == '=' && IsNameStart(token[0])
                        && forall i :: 0 <= i < k ==> IsNameChar(token[i])
  {
    if token != "" {
      EqualsIffNamed(token[1..]);
      var rest := token[1..];
      if k :| 0 <= k < |rest| && rest[k] == '=' && forall i :: 0 <= i < k ==> IsNameChar(rest[i]) {
        if IsNameStart(token[0]) {
          assert token[k + 1] == '=' && forall i :: 0 < i < k + 1 ==> token[i] == rest[i - 1];
        }
      }
      if k :| 0 < k < |token| && token[k] == '=' && IsNameStart(token[0])
              && forall i :: 0 <= i < k ==> IsNameChar(token[i]) {
        assert rest[k - 1] == '=' && forall i :: 0 <= i < k - 1 ==> rest[i] == token[i + 1];
      }
    }
  }

  lemma {:induction false} EqualsIffNamed(s: string)
    ensures NameThenEquals(s)
       <==> exists k :: 0 <= k < |s| && s[k] == '=' && forall i :: 0 <= i < k ==> IsNameChar(s[i])
  {
    if s != "" {
      EqualsIffNamed(s[1..]);
      var rest := s[1..];
      if k :| 0 <= k < |rest| && rest[k] == '=' && forall i :: 0 <= i < k ==> IsNameChar(rest[i]) {
        if IsNameChar(s[0]) {
          assert s[k + 1] == '=' && forall i :: 0 < i < k + 1 ==> s[i] == rest[i - 1];
        }
      }
      if k :| 0 < k < |s| && s[k] == '=' && forall i :: 0 <= i < k ==> IsNameChar(s[i]) {
        assert rest[k - 1] == '=' && forall i :: 0 <= i < k - 1 ==> rest[i] == s[i + 1];
      }
    }
  }

  predicate StartsWith(token: string, prefix: string) { |prefix| <= |token| && token[..|prefix|] == prefix }

  function Rest(tokens: seq<string>, n: nat): seq<string> { if n <= |tokens| then tokens[n..] else [] }

  function DropAssignments(tokens: seq<string>): seq<string> {
    if tokens != [] && IsShellAssignment(tokens[0]) then DropAssignments(tokens[1..]) else tokens
  }

  predicate TakesTwo(token: string) { token == "-u" || token == "--unset" }

  predicate IsEnvWord(token: string) { IsShellAssignment(token) || StartsWith(token, "-") }

  function DropEnvWords(tokens: seq<string>): seq<string>
    decreases |tokens|
  {
    if tokens == [] || !IsEnvWord(tokens[0]) then tokens
    else DropEnvWords(Rest(tokens, if TakesTwo(tokens[0]) then 2 else 1))
  }

  function Strip(tokens: seq<string>, lower: string -> string): seq<string> {
    var remaining := DropAssignments(tokens);
    if remaining != [] && remaining[0] != "" && Basename(remaining[0], lower) == "env" then DropEnvWords(remaining[1..])
    else remaining
  }

  method StripShellLaunchPrefix(tokens: seq<string>, lower: string -> string) returns (remaining: seq<string>)
    ensures remaining == Strip(tokens, lower)
  {
    remaining := tokens;
    while remaining != [] && IsShellAssignment(remaining[0])
      invariant DropAssignments(remaining) == DropAssignments(tokens)
      decreases |remaining|
    {
      remaining := remaining[1..];
    }
    if remaining != [] && remaining[0] != "" && Basename(remaining[0], lower) == "env" {
      remaining := remaining[1..];
      ghost var behind := remaining;
      while remaining != [] && remaining[0] != ""
        invariant DropEnvWords(remaining) == DropEnvWords(behind)
        decreases |remaining|
      {
        var token := remaining[0];
        if IsShellAssignment(token) {
          remaining := remaining[1..];
          continue;
        }
        if token == "-u" || token == "--unset" {
          remaining := Rest(remaining, 2);
          continue;
        }
        if StartsWith(token, "--unset=") {
          remaining := remaining[1..];
          continue;
        }
        if StartsWith(token, "-") {
          remaining := remaining[1..];
          continue;
        }
        break;
      }
    }
  }

  /** What may stand before a command: assignments, or assignments, env and its own words. */
  datatype EnvWord = Assign(token: string) | Unset(flag: string, name: string) | Flag(token: string)
  datatype Prefix = Direct(assigns: seq<string>) | ViaEnv(assigns: seq<string>, env: string, words: seq<EnvWord>)

  ghost predicate ValidEnvWord(w: EnvWord) {
    match w
    case Assign(token) => IsShellAssignment(token)
    case Unset(flag, _) => TakesTwo(flag)
    case Flag(token) => StartsWith(token, "-") && !TakesTwo(token)
  }

  function EnvTokens(w: EnvWord): seq<string> {
    match w
    case Assign(token) => [token]
    case Unset(flag, name) => [flag, name]
    case Flag(token) => [token]
  }

  function AllEnvTokens(words: seq<EnvWord>): seq<string> {
    if words == [] then [] else EnvTokens(words[0]) + AllEnvTokens(words[1..])
  }

  ghost predicate ValidPrefix(prefix: Prefix, lower: string -> string) {
    && (forall token :: token in prefix.assigns ==> IsShellAssignment(token))
    && (prefix.ViaEnv? ==>
          && prefix.env != "" && !IsShellAssignment(prefix.env) && Basename(prefix.env, lower) == "env"
          && forall w :: w in prefix.words ==> ValidEnvWord(w))
  }

  function PrefixTokens(prefix: Prefix): seq<string> {
    match prefix
    case Direct(assigns) => assigns
    case ViaEnv(assigns, env, words) => assigns + ([env] + AllEnvTokens(words))
  }

  lemma {:induction false} AssignmentsDrop(assigns: seq<string>, rest: seq<string>)
    requires forall token :: token in assigns ==> IsShellAssignment(token)
    ensures DropAssignments(assigns + rest) == DropAssignments(rest)
  {
    if assigns == [] {
      assert assigns + rest == rest;
    } else {
      assert (assigns + rest)[0] == assigns[0] && (assigns + rest)[1..] == assigns[1..] + rest;
      AssignmentsDrop(assigns[1..], rest);
    }
  }

  lemma EnvWordDrops(w: EnvWord, rest: seq<string>)
    requires ValidEnvWord(w)
    ensures DropEnvWords(EnvTokens(w) + rest) == DropEnvWords(rest)
  {
    hide NameThenEquals;
    var all := EnvTokens(w) + rest;
    assert all[|EnvTokens(w)|..] == rest;
  }

  lemma {:induction false} EnvWordsDrop(words: seq<EnvWord>, rest: seq<string>)
    requires forall w :: w in words ==> ValidEnvWord(w)
    ensures DropEnvWords(AllEnvTokens(words) + rest) == DropEnvWords(rest)
  {
    if words == [] {
      assert AllEnvTokens(words) + rest == rest;
    } else {
      var more := AllEnvTokens(words[1..]) + rest;
      assert AllEnvTokens(words) + rest == EnvTokens(words[0]) + more;
      EnvWordDrops(words[0], more);
      EnvWordsDrop(words[1..], rest);
    }
  }

  /** Whatever environment prefix a command is launched with, the command is what remains. */
  lemma PrefixIsStripped(prefix: Prefix, command: seq<string>, lower: string -> string)
    requires ValidPrefix(prefix, lower)
    requires command != [] && command[0] != "" && !IsShellAssignment(command[0])
    requires if prefix.Direct? then Basename(command[0], lower) != "env" else !StartsWith(command[0], "-")
    ensures Strip(PrefixTokens(prefix) + command, lower) == command
  {
    hide IsShellAssignment, Basename;
    if prefix.Direct? {
      AssignmentsDrop(prefix.assigns, command);
    } else {
      var behind := AllEnvTokens(prefix.words) + command;
      assert PrefixTokens(prefix) + command == prefix.assigns + ([prefix.env] + behind);
      AssignmentsDrop(prefix.assigns, [prefix.env] + behind);
      EnvWordsDrop(prefix.words, command);
    }
  }

  // ---------------------------------------------------------------- the classification of a command line

  predicate IsCodexExecutable(command: string) {
    command == "codex" || command == "codex.exe" || command == "codex.cmd"
  }

  predicate LaunchesCodex(tokens: seq<string>, lower: string -> string) {
    tokens != [] && tokens[0] != "" && IsCodexExecutable(Basename(tokens[0], lower)) && !IsNonInteractive(tokens, lower)
  }

  function Tokens(command: string): seq<string> { Take(Words(Trim(command), "", Bare), WORD_LIMIT) }

  predicate NeedsTerminal(command: string, lower: string -> string) {
    LaunchesCodex(Strip(Tokens(command), lower), lower)
  }

  /** shouldUseRendererBackedCodexTerminal. */
  method ShouldUseRendererBackedCodexTerminal(command: Option<string>, lower: string -> string) returns (r: bool)
    ensures r <==> command.Some? && NeedsTerminal(command.value, lower)
  {
    hide Strip, IsNonInteractive, Basename, Trim, Filter;
    NoCommand(lower);
    if command.None? || command.value == "" {
      return false;
    }
    hide Words;
    var tokens := TokenizeLeadingShellWords(Trim(command.value), WORD_LIMIT);
    WordsAreNotEmpty(Trim(command.value), "", Bare);
    forall word | word in tokens ensures NotEmpty(word) {
      assert word in Words(Trim(command.value), "", Bare);
    }
    FilterAll(NotEmpty, tokens);
    tokens := StripShellLaunchPrefix(Filter(NotEmpty, tokens), lower);
    var executable := if tokens != [] && tokens[0] != "" then Basename(tokens[0], lower) else "";
    if !IsCodexExecutable(executable) {
      return false;
    }
    return !IsNonInteractive(tokens, lower);
  }

  lemma NoCommand(lower: string -> string)
    ensures !NeedsTerminal("", lower)
  {
  }

  lemma {:induction false} WordsAreNotEmpty(s: string, current: string, quote: Quote)
    ensures forall word :: word in Words(s, current, quote) ==> word != ""
    decreases |s|
  {
    if s != [] {
      var c, rest := s[0], s[1..];
      if quote != Bare {
        var closes := c == Mark(quote);
        WordsAreNotEmpty(rest, if closes then current else current + [c], if closes then Bare else quote);
      } else if c == '"' || c == '\'' {
        WordsAreNotEmpty(rest, current, if c == '"' then Double else Single);
      } else {
        WordsAreNotEmpty(rest, if IsSpace(c) then "" else current + [c], Bare);
      }
    }
  }

  lemma SpelledTokens(command: string, words: seq<string>)
    requires Spells(command, words)
    ensures Tokens(command) == Take(Filter(NotEmpty, words), WORD_LIMIT)
  {
    hide LineText, LineWords, Words, Filter, Trim, ValidLine, IsBlank, Take;
    var line: seq<Spaced>, tail: string :|
      line != [] && ValidLine(line) && IsBlank(tail) && LineText(line) + tail == command && LineWords(line) == words;
    TrimmedLine(line, tail);
  }

  ghost predicate CodexWord(executable: string, lower: string -> string) {
    IsCodexExecutable(Basename(executable, lower)) && executable != "" && !IsShellAssignment(executable)
          && !StartsWith(executable, "-")
  }

  // ---------------------------------------------------------------- the limit and the prefix

  /** What remains of the first m tokens is what remains of all of them, cut. */
  ghost predicate CutAlike(tokens: seq<string>, all: seq<string>, m: nat, part: seq<string>) {
    var k := |tokens| - |all|;
    0 <= k && m <= |tokens| && all == tokens[k..] && part == if k <= m then tokens[k..m] else []
  }

  lemma CutBehind(tokens: seq<string>, step: nat, all: seq<string>, m: nat, part: seq<string>)
    requires step <= |tokens| && m <= |tokens|
    requires CutAlike(tokens[step..], all, if m >= step then m - step else 0, part)
    ensures CutAlike(tokens, all, m, if m >= step then part else [])
  {
    var k := |tokens| - |all|;
    assert tokens[step..][k - step..] == tokens[k..];
  }

  lemma {:induction false} AssignmentsOfPart(tokens: seq<string>, m: nat)
    requires m <= |tokens|
    ensures CutAlike(tokens, DropAssignments(tokens), m, DropAssignments(tokens[..m]))
    decreases |tokens|
  {
    if tokens != [] && IsShellAssignment(tokens[0]) {
      hide IsShellAssignment, CutAlike;
      AssignmentsOfPart(tokens[1..], if m > 0 then m - 1 else 0);
      CutBehind(tokens, 1, DropAssignments(tokens), m, DropAssignments(tokens[1..][..if m > 0 then m - 1 else 0]));
      if m > 0 {
        assert tokens[..m][1..] == tokens[1..][..m - 1];
      }
    }
  }

  lemma {:induction false} EnvWordsOfPart(tokens: seq<string>, m: nat)
    requires m <= |tokens|
    ensures CutAlike(tokens, DropEnvWords(tokens), m, DropEnvWords(tokens[..m]))
    decreases |tokens|
  {
    hide DropEnvWords, IsEnvWord, TakesTwo, CutAlike;
    NothingDrops(tokens);
    NothingDrops(tokens[..m]);
    if tokens != [] && IsEnvWord(tokens[0]) {
      var step := if TakesTwo(tokens[0]) then 2 else 1;
      OneDrops(tokens);
      NothingDrops([]);
      if step > |tokens| {
        OnlyOneDrops(tokens, m);
      } else {
        var left := if m >= step then m - step else 0;
        EnvWordsOfPart(tokens[step..], left);
        CutBehind(tokens, step, DropEnvWords(tokens), m, DropEnvWords(tokens[step..][..left]));
        PartDrops(tokens, m, step);
      }
    } else {
      WholeIsCut(tokens, m);
    }
  }

  lemma WholeIsCut(tokens: seq<string>, m: nat)
    requires m <= |tokens|
    ensures CutAlike(tokens, tokens, m, tokens[..m])
  {
  }

  lemma OnlyOneDrops(tokens: seq<string>, m: nat)
    requires |tokens| == 1 && m <= 1 && IsEnvWord(tokens[0]) && TakesTwo(tokens[0])
    ensures CutAlike(tokens, DropEnvWords(tokens), m, DropEnvWords(tokens[..m]))
  {
    hide DropEnvWords, IsEnvWord, TakesTwo;
    OneDrops(tokens);
    NothingDrops([]);
    assert m == 1 ==> tokens[..m] == tokens;
  }

  lemma PartDrops(tokens: seq<string>, m: nat, step: nat)
    requires m <= |tokens| && step <= |tokens| && tokens != [] && IsEnvWord(tokens[0])
    requires step == if TakesTwo(tokens[0]) then 2 else 1
    ensures DropEnvWords(tokens[..m]) == if m >= step then DropEnvWords(tokens[step..][..m - step]) else []
  {
    hide DropEnvWords, IsEnvWord, TakesTwo;
    NothingDrops([]);
    if m > 0 {
      assert tokens[..m][0] == tokens[0];
      OneDrops(tokens[..m]);
      assert m >= step ==> tokens[..m][step..] == tokens[step..][..m - step];
    }
  }

  lemma OneDrops(tokens: seq<string>)
    requires tokens != [] && IsEnvWord(tokens[0])
    ensures DropEnvWords(tokens) == DropEnvWords(Rest(tokens, if TakesTwo(tokens[0]) then 2 else 1))
  {
  }

  lemma NothingDrops(tokens: seq<string>)
    ensures tokens == [] || !IsEnvWord(tokens[0]) ==> DropEnvWords(tokens) == tokens
  {
    hide IsEnvWord;
  }

  /** Stripping looks no further than it strips. */
  lemma StripOfPart(tokens: seq<string>, m: nat, lower: string -> string)
    requires m <= |tokens|
    ensures CutAlike(tokens, Strip(tokens, lower), m, Strip(tokens[..m], lower))
  {
    hide DropAssignments, DropEnvWords, Basename, CutAlike;
    AssignmentsOfPart(tokens, m);
    var remaining, part := DropAssignments(tokens), DropAssignments(tokens[..m]);
    RemainingIsCut(tokens, remaining, m, part);
    var k := |tokens| - |remaining|;
    if remaining != [] && remaining[0] != "" && Basename(remaining[0], lower) == "env" {
      var left := if m >= k + 1 then m - k - 1 else 0;
      EnvWordsOfPart(tokens[k + 1..], left);
      CutBehind(tokens, k + 1, DropEnvWords(tokens[k + 1..]), m, DropEnvWords(tokens[k + 1..][..left]));
    }
  }

  lemma RemainingIsCut(tokens: seq<string>, remaining: seq<string>, m: nat, part: seq<string>)
    requires CutAlike(tokens, remaining, m, part)
    ensures var k := |tokens| - |remaining|;
            && 0 <= k && (part == [] <==> m <= k)
            && (remaining != [] ==> remaining[1..] == tokens[k + 1..])
            && (part != [] ==> part[0] == remaining[0] && part[1..] == tokens[k + 1..][..m - k - 1])
  {
  }

  /** A command that starts behind `before` words of its line is codex, and none of the words in the first 32
      shows that it needs no terminal. */
  ghost predicate GivesTerminal(command: seq<string>, before: nat, lower: string -> string) {
    && command != [] && before < WORD_LIMIT && IsCodexExecutable(Basename(command[0], lower))
    && var d := DecidingWord(command, lower); d.None? || before + d.value >= WORD_LIMIT
  }

  /** The verdict on every line, whatever stands in it. */
  lemma LineVerdict(line: string, words: seq<string>, lower: string -> string)
    requires Spells(line, words)
    ensures var seen := Filter(NotEmpty, words);
            var command := Strip(seen, lower);
            |command| <= |seen| && (NeedsTerminal(line, lower) <==> GivesTerminal(command, |seen| - |command|, lower))
  {
    hide Spells, Tokens, Strip, IsNonInteractive, Basename, Filter, DecidingWord, IsCodexExecutable;
    var seen := Filter(NotEmpty, words);
    var m := if |seen| <= WORD_LIMIT then |seen| else WORD_LIMIT;
    SpelledTokens(line, words);
    assert Take(seen, WORD_LIMIT) == seen[..m];
    StripOfPart(seen, m, lower);
    var command, k := Strip(seen, lower), |seen| - |Strip(seen, lower)|;
    if k < m {
      assert seen[k..m] == command[..m - k];
      assert command[0] == seen[k] && command[0] in seen;
      FilterIs(NotEmpty, words, command[0]);
      DecidedWithin(command, m - k, lower);
    } else {
      assert Strip(seen[..m], lower) == [];
    }
  }

  // ---------------------------------------------------------------- what prefix and options change

  lemma KeptWords(before: seq<string>, executable: string, words: seq<string>)
    requires "" !in before && executable != ""
    ensures Filter(NotEmpty, before + ([executable] + words)) == before + ([executable] + Filter(NotEmpty, words))
  {
    FilterConcat(NotEmpty, before, [executable] + words);
    FilterConcat(NotEmpty, [executable], words);
    FilterAll(NotEmpty, before);
    FilterAll(NotEmpty, [executable]);
  }

  /** Options move the deciding word back by as many words as they are, and change nothing else. */
  lemma DecidingWordMoves(executable: string, options: seq<GlobalOption>, rest: seq<string>, lower: string -> string)
    requires forall option :: option in options ==> Known(option)
    ensures var d := DecidingWord([executable] + rest, lower);
            DecidingWord([executable] + (WrittenAll(options) + rest), lower)
            == if d.Some? then Some(d.value + |WrittenAll(options)|) else None
  {
    hide IsNonInteractive, WrittenAll, Known, DecidingWord;
    var run, short := WrittenAll(options), [executable] + rest;
    var d, moved := DecidingWord(short, lower), DecidingWord([executable] + (run + rest), lower);
    DecidedWithin(short, |short|, lower);
    DecidedWithin([executable] + (run + rest), 0, lower);
    SameWithin(executable, options, rest, 0, lower);
    if d.Some? {
      SameWithin(executable, options, rest, d.value, lower);
      SameWithin(executable, options, rest, d.value - 1, lower);
    }
    if moved.Some? {
      SameWithin(executable, options, rest, moved.value - |run|, lower);
    }
  }

  // The first n words behind the options reach the deciding word if and only if they do without them.
  lemma SameWithin(executable: string, options: seq<GlobalOption>, rest: seq<string>, n: nat, lower: string -> string)
    requires n <= |rest| && forall option :: option in options ==> Known(option)
    ensures var d := DecidingWord([executable] + rest, lower);
            var moved := DecidingWord([executable] + (WrittenAll(options) + rest), lower);
            d.Some? && d.value < 1 + n <==> moved.Some? && moved.value < 1 + |WrittenAll(options)| + n
  {
    hide IsNonInteractive, WrittenAll, Known, DecidingWord;
    var run, short := WrittenAll(options), [executable] + rest;
    var long := [executable] + (run + rest);
    assert long[..1 + |run| + n] == [executable] + run + rest[..n] && short[..1 + n] == [executable] + rest[..n];
    GlobalOptionsChangeNothing(executable, options, rest[..n], lower);
    DecidedWithin(short, 1 + n, lower);
    DecidedWithin(long, 1 + |run| + n, lower);
  }

  /**
   Exactly when a prefix and a run of known global options leave the verdict on a codex command line as it is,
   however both lines are quoted and spaced: with none of their words empty, when the word that decides is not
   pushed out of the first 32; and in general, when the command that is left of the long line behind its
   prefix gives the same verdict, that many words down the line.
   */
  lemma PrefixAndOptionsChangeNothingIff(long: string, plain: string, prefix: Prefix, executable: string,
                                         options: seq<GlobalOption>, rest: seq<string>, lower: string -> string)
    requires ValidPrefix(prefix, lower) && CodexWord(executable, lower)
    requires forall option :: option in options ==> Known(option)
    requires Spells(long, PrefixTokens(prefix) + ([executable] + (WrittenAll(options) + rest)))
    requires Spells(plain, [executable] + rest)
    ensures var seen := Filter(NotEmpty, PrefixTokens(prefix) + ([executable] + (WrittenAll(options) + rest)));
            var command, words := Strip(seen, lower), [executable] + Filter(NotEmpty, rest);
            && |command| <= |seen|
            && ((NeedsTerminal(long, lower) <==> NeedsTerminal(plain, lower))
                <==> (GivesTerminal(command, |seen| - |command|, lower) <==> GivesTerminal(words, 0, lower)))
    ensures "" !in PrefixTokens(prefix) && "" !in WrittenAll(options) ==>
              var d := DecidingWord([executable] + Filter(NotEmpty, rest), lower);
              var before := |PrefixTokens(prefix)|;
              (NeedsTerminal(long, lower) <==> NeedsTerminal(plain, lower))
              <==> if before >= WORD_LIMIT then d.Some? && d.value < WORD_LIMIT
                   else d.None? || d.value >= WORD_LIMIT || before + |WrittenAll(options)| + d.value < WORD_LIMIT
  {
    hide Spells, NeedsTerminal, PrefixTokens, WrittenAll, Known, Filter, CodexWord, DecidingWord, Strip, GivesTerminal;
    LineVerdict(long, PrefixTokens(prefix) + ([executable] + (WrittenAll(options) + rest)), lower);
    PlainVerdict(plain, executable, rest, lower);
    if "" !in PrefixTokens(prefix) && "" !in WrittenAll(options) {
      CommandBehind(prefix, executable, options, rest, lower);
      DecidingWordMoves(executable, options, Filter(NotEmpty, rest), lower);
      CodexGivesTerminal(executable, WrittenAll(options) + Filter(NotEmpty, rest), |PrefixTokens(prefix)|, lower);
      CodexGivesTerminal(executable, Filter(NotEmpty, rest), 0, lower);
    }
  }

  lemma CommandBehind(prefix: Prefix, executable: string, options: seq<GlobalOption>, rest: seq<string>,
                      lower: string -> string)
    requires ValidPrefix(prefix, lower) && CodexWord(executable, lower)
    requires "" !in PrefixTokens(prefix) && "" !in WrittenAll(options)
    ensures var seen := Filter(NotEmpty, PrefixTokens(prefix) + ([executable] + (WrittenAll(options) + rest)));
            var command := [executable] + (WrittenAll(options) + Filter(NotEmpty, rest));
            seen == PrefixTokens(prefix) + command && Strip(seen, lower) == command
  {
    hide PrefixTokens, WrittenAll, Filter, Strip, Basename, IsShellAssignment, StartsWith;
    var command := [executable] + (WrittenAll(options) + Filter(NotEmpty, rest));
    KeptWords(PrefixTokens(prefix), executable, WrittenAll(options) + rest);
    FilterConcat(NotEmpty, WrittenAll(options), rest);
    FilterAll(NotEmpty, WrittenAll(options));
    assert command[0] == executable;
    PrefixIsStripped(prefix, command, lower);
  }

  lemma CodexGivesTerminal(executable: string, words: seq<string>, before: nat, lower: string -> string)
    requires CodexWord(executable, lower)
    ensures var d := DecidingWord([executable] + words, lower);
            && (GivesTerminal([executable] + words, before, lower)
                <==> before < WORD_LIMIT && (d.None? || before + d.value >= WORD_LIMIT))
            && (d.Some? ==> 1 <= d.value)
  {
    hide DecidingWord, IsCodexExecutable, Basename;
    var command := [executable] + words;
    assert command[0] == executable;
    DecidedWithin(command, |command|, lower);
  }

  lemma NoPrefix(lower: string -> string)
    ensures PrefixTokens(Direct([])) == [] && ValidPrefix(Direct([]), lower)
  {
  }

  lemma PlainVerdict(plain: string, executable: string, rest: seq<string>, lower: string -> string)
    requires CodexWord(executable, lower) && Spells(plain, [executable] + rest)
    ensures NeedsTerminal(plain, lower) <==> GivesTerminal([executable] + Filter(NotEmpty, rest), 0, lower)
  {
    hide Spells, NeedsTerminal, Filter, Strip, GivesTerminal, PrefixTokens, Basename, IsShellAssignment, StartsWith;
    var command := [executable] + Filter(NotEmpty, rest);
    NoPrefix(lower);
    KeptWords([], executable, rest);
    assert [] + ([executable] + rest) == [executable] + rest && [] + command == command && command[0] == executable;
    PrefixIsStripped(Direct([]), command, lower);
    LineVerdict(plain, [executable] + rest, lower);
  }

  // ---------------------------------------------------------------- empty words

  /** Where the words behind env lead: through them all; through all but the name the last one still takes; or to
      one of them that is taken for the command. */
  datatype EnvEnd = Through | TakesNext | StopsAt(rest: seq<string>)

  function EnvReads(tokens: seq<string>): EnvEnd
    decreases |tokens|
  {
    if tokens == [] then Through
    else if !IsEnvWord(tokens[0]) then StopsAt(tokens)
    else if !TakesTwo(tokens[0]) then EnvReads(tokens[1..])
    else if |tokens| == 1 then TakesNext
    else EnvReads(tokens[2..])
  }

  function LeftBehind(end: EnvEnd, through: seq<string>, next: seq<string>, command: seq<string>): seq<string> {
    match end
    case Through => through
    case TakesNext => next
    case StopsAt(rest) => rest + command
  }

  lemma {:induction false} EnvWordsLead(tokens: seq<string>, command: seq<string>)
    ensures DropEnvWords(tokens + command)
         == LeftBehind(EnvReads(tokens), DropEnvWords(command), DropEnvWords(Rest(command, 1)), command)
    decreases |tokens|
  {
    var all := tokens + command;
    if tokens == [] {
      assert all == command;
    } else {
      hide IsEnvWord;
      assert all[0] == tokens[0];
      if IsEnvWord(tokens[0]) {
        if !TakesTwo(tokens[0]) {
          assert Rest(all, 1) == tokens[1..] + command;
          EnvWordsLead(tokens[1..], command);
        } else if |tokens| == 1 {
          assert Rest(all, 2) == Rest(command, 1);
        } else {
          assert Rest(all, 2) == tokens[2..] + command;
          EnvWordsLead(tokens[2..], command);
        }
      }
    }
  }

  /** What is left behind a prefix in which names to unset may be empty, and so lost: the command; what is left
      behind its executable, which the last -u has taken for a name; or a name that is taken for the command. */
  lemma PrefixLeads(prefix: Prefix, command: seq<string>, lower: string -> string)
    requires ValidPrefix(prefix, lower) && prefix.ViaEnv?
    requires command != [] && !IsShellAssignment(command[0]) && !StartsWith(command[0], "-")
    ensures Strip(Filter(NotEmpty, PrefixTokens(prefix)) + command, lower)
         == LeftBehind(EnvReads(Filter(NotEmpty, AllEnvTokens(prefix.words))), command, DropEnvWords(command[1..]),
                       command)
  {
    hide Filter, IsShellAssignment, Basename, StartsWith;
    var words := Filter(NotEmpty, AllEnvTokens(prefix.words));
    KeptPrefix(prefix, lower);
    assert Filter(NotEmpty, PrefixTokens(prefix)) + command == prefix.assigns + ([prefix.env] + (words + command));
    AssignmentsDrop(prefix.assigns, [prefix.env] + (words + command));
    EnvWordsLead(words, command);
  }

  lemma KeptPrefix(prefix: Prefix, lower: string -> string)
    requires ValidPrefix(prefix, lower) && prefix.ViaEnv?
    ensures Filter(NotEmpty, PrefixTokens(prefix))
         == prefix.assigns + ([prefix.env] + Filter(NotEmpty, AllEnvTokens(prefix.words)))
  {
    hide Filter;
    FilterConcat(NotEmpty, prefix.assigns, [prefix.env] + AllEnvTokens(prefix.words));
    FilterConcat(NotEmpty, [prefix.env], AllEnvTokens(prefix.words));
    FilterAll(NotEmpty, prefix.assigns);
    FilterAll(NotEmpty, [prefix.env]);
  }

  // With its value lost, the option stands in front of the next word instead.
  lemma NextWordIsValue(options: seq<GlobalOption>, name: string, rest: seq<string>)
    requires "" !in WrittenAll(options) && name in GLOBAL_FLAGS_WITH_VALUES && Filter(NotEmpty, rest) != []
    ensures var words := Filter(NotEmpty, rest);
            && WrittenAll(options + [WithValue(name, words[0])]) == WrittenAll(options) + [name, words[0]]
            && Filter(NotEmpty, WrittenAll(options) + ([name, ""] + rest))
               == WrittenAll(options + [WithValue(name, words[0])]) + words[1..]
  {
    hide Filter, WrittenAll;
    var words := Filter(NotEmpty, rest);
    ValueFlagsArePlain(name);
    WrittenLast(options, WithValue(name, words[0]));
    EmptyWordIsLost(WrittenAll(options), name, rest);
    assert WrittenAll(options) + [name, words[0]] + words[1..] == WrittenAll(options) + ([name] + words);
  }

  /** An option whose value is written as an empty word takes the next word for its value, whatever that is; the
      verdict is that on the words behind, as many words down the line. */
  lemma EmptyValueTakesNextWord(long: string, executable: string, options: seq<GlobalOption>, name: string,
                                rest: seq<string>, lower: string -> string)
    requires CodexWord(executable, lower) && "" !in WrittenAll(options)
    requires forall option :: option in options ==> Known(option)
    requires name in GLOBAL_FLAGS_WITH_VALUES && Filter(NotEmpty, rest) != []
    requires Spells(long, [executable] + (WrittenAll(options) + ([name, ""] + rest)))
    ensures var d := DecidingWord([executable] + Filter(NotEmpty, rest)[1..], lower);
            NeedsTerminal(long, lower) <==> d.None? || |WrittenAll(options)| + 2 + d.value >= WORD_LIMIT
  {
    hide Spells, NeedsTerminal, Filter, CodexWord, Known, WrittenAll, DecidingWord, GivesTerminal;
    var words := Filter(NotEmpty, rest);
    var more := options + [WithValue(name, words[0])];
    NextWordIsValue(options, name, rest);
    KnownValue(name, words[0]);
    PlainVerdict(long, executable, WrittenAll(options) + ([name, ""] + rest), lower);
    DecidingWordMoves(executable, more, words[1..], lower);
    CodexGivesTerminal(executable, WrittenAll(more) + words[1..], 0, lower);
  }

  /** So with such a value the verdict stays as it is exactly when the command is decided, or not, alike with
      and without its first word. */
  lemma EmptyValueChangesNothingIff(long: string, plain: string, executable: string, options: seq<GlobalOption>,
                                    name: string, rest: seq<string>, lower: string -> string)
    requires CodexWord(executable, lower) && "" !in WrittenAll(options)
    requires forall option :: option in options ==> Known(option)
    requires name in GLOBAL_FLAGS_WITH_VALUES && Filter(NotEmpty, rest) != []
    requires Spells(long, [executable] + (WrittenAll(options) + ([name, ""] + rest)))
    requires Spells(plain, [executable] + rest)
    ensures var words, taken := Filter(NotEmpty, rest), |WrittenAll(options)| + 2;
            var with := DecidingWord([executable] + words, lower);
            var without := DecidingWord([executable] + words[1..], lower);
            (NeedsTerminal(long, lower) <==> NeedsTerminal(plain, lower))
            <==> ((with.Some? && with.value < WORD_LIMIT) <==> (without.Some? && taken + without.value < WORD_LIMIT))
  {
    hide Spells, NeedsTerminal, Filter, CodexWord, Known, WrittenAll, DecidingWord, GivesTerminal;
    EmptyValueTakesNextWord(long, executable, options, name, rest, lower);
    PlainVerdict(plain, executable, rest, lower);
    CodexGivesTerminal(executable, Filter(NotEmpty, rest), 0, lower);
  }

  lemma KnownValue(name: string, value: string)
    requires name in GLOBAL_FLAGS_WITH_VALUES
    ensures Known(WithValue(name, value))
  {
  }

  lemma {:induction false} WrittenLast(options: seq<GlobalOption>, last: GlobalOption)
    ensures WrittenAll(options + [last]) == WrittenAll(options) + Written(last)
  {
    hide Written;
    if options == [] {
      assert options + [last] == [last] && [last][1..] == [];
    } else {
      assert (options + [last])[0] == options[0] && (options + [last])[1..] == options[1..] + [last];
      WrittenLast(options[1..], last);
    }
  }

  lemma EmptyWordIsLost(before: seq<string>, name: string, rest: seq<string>)
    requires "" !in before && name != ""
    ensures Filter(NotEmpty, before + ([name, ""] + rest)) == before + ([name] + Filter(NotEmpty, rest))
  {
    assert before + ([name, ""] + rest) == before + ([name] + ([""] + rest));
    KeptWords(before, name, [""] + rest);
    FilterConcat(NotEmpty, [""], rest);
    FilterNone(NotEmpty, [""]);
    assert [] + Filter(NotEmpty, rest) == Filter(NotEmpty, rest);
  }

  // ---------------------------------------------------------------- lines on which the verdict changes

  const CODEX := "codex"

  function Same(s: string): string { s }

  lemma CodexIsCodex()
    ensures CodexWord(CODEX, Same)
  {
    LastSegmentIs("", CODEX);
    assert "" + CODEX == CODEX;
    assert !('=' in CODEX);
    NoAssignment(CODEX[1..]);
  }

  lemma {:induction false} NoAssignment(s: string)
    requires '=' !in s
    ensures !NameThenEquals(s)
  {
    if s != "" { NoAssignment(s[1..]); }
  }

  lemma ExecDecides()
    ensures DecidingWord([CODEX] + Filter(NotEmpty, ["exec"]), Same) == Some(1)
    ensures Filter(NotEmpty, ["exec"]) == ["exec"]
  {
    FilterAll(NotEmpty, ["exec"]);
    hide Filter, FindSubcommand;
    assert [CODEX] + ["exec"] == [CODEX, "exec"];
    ExecIsFound();
    hide GlobalScan;
  }

  lemma ExecIsFound()
    ensures GlobalScan([CODEX, "exec"], 1) == Some(Found("exec", 1))
  {
    hide FindSubcommand, OptionName;
    NameIs("exec", "");
    ScanOne([CODEX, "exec"], 1, GLOBAL_FLAGS_WITH_VALUES, GLOBAL_BOOLEAN_FLAGS);
    hide NoEquals;
  }

  lemma {:induction false} SwitchesWritten(n: nat)
    ensures WrittenAll(seq(n, _ => Switch("--oss"))) == seq(n, _ => "--oss")
  {
    if n > 0 {
      assert seq(n, _ => Switch("--oss"))[1..] == seq(n - 1, _ => Switch("--oss"));
      SwitchesWritten(n - 1);
      assert seq(n, _ => "--oss") == ["--oss"] + seq(n - 1, _ => "--oss");
    }
  }

  /** codex exec needs no terminal, but with --oss written 31 times in between it is given one. */
  lemma LongRunChangesVerdict()
    ensures exists long, plain ::
              && Spells(long, [CODEX] + (seq(31, _ => "--oss") + ["exec"])) && Spells(plain, [CODEX] + ["exec"])
              && NeedsTerminal(long, Same) && !NeedsTerminal(plain, Same)
  {
    hide Spells, NeedsTerminal, CodexWord, DecidingWord, Filter, WrittenAll, GivesTerminal, PrefixTokens;
    var options := seq(31, _ => Switch("--oss"));
    SwitchesWritten(31);
    CodexIsCodex();
    ExecDecides();
    NoPrefix(Same);
    var long := EveryListIsSpelled([CODEX] + (WrittenAll(options) + ["exec"]));
    var plain := EveryListIsSpelled([CODEX] + ["exec"]);
    PlainVerdict(plain, CODEX, ["exec"], Same);
    CodexGivesTerminal(CODEX, ["exec"], 0, Same);
    assert [] + ([CODEX] + (WrittenAll(options) + ["exec"])) == [CODEX] + (WrittenAll(options) + ["exec"]);
    assert "--oss" in GLOBAL_BOOLEAN_FLAGS && !IsHelpFlag("--oss") && !IsVersionFlag("--oss");
    PrefixAndOptionsChangeNothingIff(long, plain, Direct([]), CODEX, options, ["exec"], Same);
  }

  /** And so it is with an empty model name in between. */
  lemma EmptyValueChangesVerdict()
    ensures exists long, plain ::
              && Spells(long, [CODEX, "-m", "", "exec"]) && Spells(plain, [CODEX] + ["exec"])
              && NeedsTerminal(long, Same) && !NeedsTerminal(plain, Same)
  {
    hide Spells, NeedsTerminal, CodexWord, DecidingWord, WrittenAll, Filter, GivesTerminal;
    CodexIsCodex();
    ExecDecides();
    var long := EveryListIsSpelled([CODEX, "-m", "", "exec"]);
    var plain := EveryListIsSpelled([CODEX] + ["exec"]);
    PlainVerdict(plain, CODEX, ["exec"], Same);
    CodexGivesTerminal(CODEX, ["exec"], 0, Same);
    assert WrittenAll([]) == [] by { NothingWritten(); }
    assert [CODEX] + ([] + (["-m", ""] + ["exec"])) == [CODEX, "-m", "", "exec"];
    EmptyValueTakesNextWord(long, CODEX, [], "-m", ["exec"], Same);
    assert [CODEX] + ["exec"][1..] == [CODEX];
    DecidedWithin([CODEX], 1, Same);
  }

  lemma NothingWritten()
    ensures WrittenAll([]) == []
  {
  }
}

/**
 Deciding whether a codex command line runs without a terminal
 (src/cli/codex-command-classification.ts): a scan that skips options, with sub-scans for login and cloud.
 */
module CodexCommand {
  import opened Common

  const GLOBAL_FLAGS_WITH_VALUES: set<string> :=
    {"--config", "-c", "--enable", "--disable", "--remote", "--remote-auth-token-env", "--image", "-i", "--model", "-m",
     "--local-provider", "--profile", "-p", "--sandbox", "-s", "--cd", "-C", "--add-dir", "--ask-for-approval", "-a"}
  const GLOBAL_BOOLEAN_FLAGS: set<string> :=
    {"--oss", "--dangerously-bypass-approvals-and-sandbox", "--search", "--no-alt-screen", "--no-daemon",
     "--help", "-h", "--version", "-V"}
  const LOGIN_FLAGS_WITH_VALUES: set<string> := {"-c", "--config", "--enable", "--disable"}
  const LOGIN_BOOLEAN_FLAGS: set<string> := {"--with-api-key", "--with-access-token", "--device-auth", "--help", "-h"}
  const CLOUD_FLAGS_WITH_VALUES: set<string> := {"-c", "--config", "--enable", "--disable"}
  const CLOUD_BOOLEAN_FLAGS: set<string> := {"--help", "-h", "--version", "-V"}
  const NON_INTERACTIVE: set<string> :=
    {"exec", "e", "review", "logout", "mcp", "plugin", "mcp-server", "app-server", "remote-control", "app",
     "completion", "update", "doctor", "sandbox", "debug", "execpolicy", "apply", "a", "cloud", "cloud-tasks",
     "responses-api-proxy", "stdio-to-uds", "exec-server", "features", "help", "version"}
  const NON_INTERACTIVE_CLOUD: set<string> := {"exec", "status", "list", "apply", "diff", "help"}
  const NON_INTERACTIVE_LOGIN: set<string> := {"status", "help"}

  function OptionName(token: string): string {
    if token == [] || token[0] == '=' then [] else [token[0]] + OptionName(token[1..])
  }

  predicate IsHelpFlag(token: string) { token == "--help" || token == "-h" }

  predicate IsVersionFlag(token: string) { token == "--version" || token == "-V" }

  datatype Found = Found(value: string, index: nat)

  function FindSubcommand(tokens: seq<string>, i: nat, withValues: set<string>, booleans: set<string>): Option<Found>
    decreases |tokens| - i
  {
    if i >= |tokens| then None
    else
      var token := tokens[i];
      if token == "--" then (if i + 1 < |tokens| && tokens[i + 1] != "" then Some(Found("<prompt>", i + 1)) else None)
      else
        var name := OptionName(token);
        if IsHelpFlag(name) || IsVersionFlag(name) then
          Some(Found(if IsVersionFlag(name) then "version" else "help", i))
        else if name in withValues then
          FindSubcommand(tokens, if name == token then i + 2 else i + 1, withValues, booleans)
        else if name in booleans then FindSubcommand(tokens, i + 1, withValues, booleans)
        else Some(Found(token, i))
  }

  method FindCodexSubcommand(tokens: seq<string>, startIndex: nat, withValues: set<string>, booleans: set<string>)
      returns (r: Option<Found>)
    ensures r == FindSubcommand(tokens, startIndex, withValues, booleans)
  {
    var i := startIndex;
    while i < |tokens|
      invariant FindSubcommand(tokens, i, withValues, booleans) ==
                  FindSubcommand(tokens, startIndex, withValues, booleans)
    {
      var token := tokens[i];
      if token == "--" {
        return if i + 1 < |tokens| && tokens[i + 1] != "" then Some(Found("<prompt>", i + 1)) else None;
      }
      var optionName := OptionName(token);
      if IsHelpFlag(optionName) || IsVersionFlag(optionName) {
        return Some(Found(if IsVersionFlag(optionName) then "version" else "help", i));
      }
      if optionName in withValues {
        if optionName == token {
          i := i + 1;
        }
        i := i + 1;
        continue;
      }
      if optionName in booleans {
        i := i + 1;
        continue;
      }
      return Some(Found(token, i));
    }
    return None;
  }

  predicate AnyToken(tokens: seq<string>, p: string -> bool) { exists i :: 0 <= i < |tokens| && p(tokens[i]) }

  function From(tokens: seq<string>, i: nat): seq<string> { if i <= |tokens| then tokens[i..] else [] }

  function GlobalScan(tokens: seq<string>, i: nat): Option<Found> {
    FindSubcommand(tokens, i, GLOBAL_FLAGS_WITH_VALUES, GLOBAL_BOOLEAN_FLAGS)
  }

  predicate IsToken(token: string) { token == "--with-api-key" || token == "--with-access-token" }

  predicate IsHelpOrVersion(token: string) { IsHelpFlag(token) || IsVersionFlag(token) }

  // The sub-scans that start behind the subcommand.
  predicate LoginRunsAlone(tokens: seq<string>, start: nat, lower: string -> string) {
    var login := FindSubcommand(tokens, start, LOGIN_FLAGS_WITH_VALUES, LOGIN_BOOLEAN_FLAGS);
    || AnyToken(From(tokens, start), IsToken)
    || AnyToken(From(tokens, start), IsHelpFlag)
    || (login.Some? && lower(login.value.value) in NON_INTERACTIVE_LOGIN)
  }

  predicate CloudRunsAlone(tokens: seq<string>, start: nat, lower: string -> string) {
    var cloud := FindSubcommand(tokens, start, CLOUD_FLAGS_WITH_VALUES, CLOUD_BOOLEAN_FLAGS);
    || AnyToken(From(tokens, start), IsHelpOrVersion)
    || (cloud.Some? && lower(cloud.value.value) in NON_INTERACTIVE_CLOUD)
  }

  predicate RunsAlone(value: string) { value in NON_INTERACTIVE }

  /** isNonInteractiveCodexSubcommand; `lower` stands for toLowerCase. */
  predicate IsNonInteractive(tokens: seq<string>, lower: string -> string) {
    var sub := GlobalScan(tokens, 1);
    sub.Some? &&
    var value := lower(sub.value.value);
    var start := sub.value.index + 1;
    if value == "login" then LoginRunsAlone(tokens, start, lower)
    else if value == "cloud" then CloudRunsAlone(tokens, start, lower)
    else RunsAlone(value)
  }

  /** One known global option: with its value as the next token, with it after `=`, or boolean. */
  datatype GlobalOption =
    | WithValue(name: string, value: string)
    | Assigned(name: string, value: string)
    | Switch(name: string)

  predicate Known(option: GlobalOption) {
    match option
    case WithValue(name, _) => name in GLOBAL_FLAGS_WITH_VALUES
    case Assigned(name, _) =>
      name in GLOBAL_FLAGS_WITH_VALUES + GLOBAL_BOOLEAN_FLAGS && !IsHelpFlag(name) && !IsVersionFlag(name)
    case Switch(name) => name in GLOBAL_BOOLEAN_FLAGS && !IsHelpFlag(name) && !IsVersionFlag(name)
  }

  function Written(option: GlobalOption): seq<string> {
    match option
    case WithValue(name, value) => [name, value]
    case Assigned(name, value) => [name + "=" + value]
    case Switch(name) => [name]
  }

  function WrittenAll(options: seq<GlobalOption>): seq<string> {
    if options == [] then [] else Written(options[0]) + WrittenAll(options[1..])
  }

  predicate NoEquals(s: string) { '=' !in s }

  lemma ValueFlagsArePlain(name: string)
    requires name in GLOBAL_FLAGS_WITH_VALUES
    ensures NoEquals(name) && name != "--" && !IsHelpFlag(name) && !IsVersionFlag(name)
  {
  }

  lemma BooleanFlagsArePlain(name: string)
    requires name in GLOBAL_BOOLEAN_FLAGS
    ensures NoEquals(name) && name != "--" && name !in GLOBAL_FLAGS_WITH_VALUES
  {
  }

  lemma {:induction false} NameIs(name: string, value: string)
    requires NoEquals(name)
    ensures OptionName(name) == name && OptionName(name + "=" + value) == name
  {
    if name == "" {
      assert (name + "=" + value)[0] == '=';
    } else {
      assert (name + "=" + value)[0] == name[0] && (name + "=" + value)[1..] == name[1..] + "=" + value;
      NameIs(name[1..], value);
    }
  }

  predicate KnownTo(option: GlobalOption, withValues: set<string>, booleans: set<string>) {
    && NoEquals(option.name) && option.name != "--" && !IsHelpFlag(option.name) && !IsVersionFlag(option.name)
    && (option.WithValue? ==> option.name in withValues)
    && (option.Assigned? ==> option.name in withValues || option.name in booleans)
    && (option.Switch? ==> option.name in booleans && option.name !in withValues)
  }

  // A known option is stepped over, whatever follows.
  lemma OptionIsSkipped(tokens: seq<string>, i: nat, option: GlobalOption, withValues: set<string>,
                        booleans: set<string>)
    requires KnownTo(option, withValues, booleans)
    requires i + |Written(option)| <= |tokens| && tokens[i..i + |Written(option)|] == Written(option)
    ensures FindSubcommand(tokens, i, withValues, booleans) ==
              FindSubcommand(tokens, i + |Written(option)|, withValues, booleans)
  {
    hide OptionName, IsHelpFlag, IsVersionFlag;
    var value := if option.Switch? then "" else option.value;
    NameIs(option.name, value);
    assert tokens[i] == tokens[i..i + |Written(option)|][0];
    if option.Assigned? {
      assert tokens[i] != "--" && tokens[i] != option.name by {
        assert tokens[i][|option.name|] == '=';
        assert NoEquals("--");
      }
    }
  }

  lemma Regroup(a: seq<string>, b: seq<string>, c: seq<string>, d: seq<string>)
    ensures var all := a + (b + c) + d; all == (a + b) + c + d && all[|a|..|a| + |b|] == b
  {
  }

  lemma StepOver(before: seq<string>, option: GlobalOption, rest: seq<string>, after: seq<string>,
                 withValues: set<string>, booleans: set<string>)
    requires KnownTo(option, withValues, booleans)
    ensures var next := before + Written(option);
            FindSubcommand(before + (Written(option) + rest) + after, |before|, withValues, booleans)
            == FindSubcommand(next + rest + after, |next|, withValues, booleans)
  {
    hide FindSubcommand, KnownTo, Written;
    Regroup(before, Written(option), rest, after);
    OptionIsSkipped(before + (Written(option) + rest) + after, |before|, option, withValues, booleans);
  }

  lemma {:induction false} RunIsSkipped(before: seq<string>, options: seq<GlobalOption>, after: seq<string>,
                                        withValues: set<string>, booleans: set<string>)
    requires forall option :: option in options ==> KnownTo(option, withValues, booleans)
    ensures var run := WrittenAll(options);
            FindSubcommand(before + run + after, |before|, withValues, booleans)
            == FindSubcommand(before + run + after, |before| + |run|, withValues, booleans)
    decreases |options|
  {
    if options != [] {
      hide FindSubcommand, KnownTo, Written;
      var first, rest := Written(options[0]), WrittenAll(options[1..]);
      StepOver(before, options[0], rest, after, withValues, booleans);
      RunIsSkipped(before + first, options[1..], after, withValues, booleans);
      Regroup(before, first, rest, after);
    }
  }

  lemma KnownIsKnown(option: GlobalOption)
    requires Known(option)
    ensures KnownTo(option, GLOBAL_FLAGS_WITH_VALUES, GLOBAL_BOOLEAN_FLAGS)
  {
    if option.name in GLOBAL_FLAGS_WITH_VALUES {
      ValueFlagsArePlain(option.name);
    } else {
      BooleanFlagsArePlain(option.name);
    }
  }

  function Shifted(found: Option<Found>, shift: nat): Option<Found> {
    if found.None? then None else Some(Found(found.value.value, found.value.index + shift))
  }

  lemma ScanOne(tokens: seq<string>, i: nat, withValues: set<string>, booleans: set<string>)
    requires i < |tokens|
    ensures var token, name := tokens[i], OptionName(tokens[i]);
            FindSubcommand(tokens, i, withValues, booleans)
            == if token == "--" then
                 if i + 1 < |tokens| && tokens[i + 1] != "" then Some(Found("<prompt>", i + 1)) else None
               else if IsHelpFlag(name) || IsVersionFlag(name) then
                 Some(Found(if IsVersionFlag(name) then "version" else "help", i))
               else if name in withValues then
                 FindSubcommand(tokens, if name == token then i + 2 else i + 1, withValues, booleans)
               else if name in booleans then FindSubcommand(tokens, i + 1, withValues, booleans)
               else Some(Found(token, i))
  {
    hide OptionName, IsHelpFlag, IsVersionFlag;
  }

  // Two token lists that agree from some places on are scanned alike from there.
  lemma {:induction false} ScanShifts(a: seq<string>, i: nat, b: seq<string>, shift: nat, withValues: set<string>,
                                      booleans: set<string>)
    requires |b| == |a| + shift && forall k :: i <= k < |a| ==> a[k] == b[k + shift]
    ensures FindSubcommand(b, i + shift, withValues, booleans) ==
              Shifted(FindSubcommand(a, i, withValues, booleans), shift)
    decreases |a| - i
  {
    if i < |a| {
      hide FindSubcommand, OptionName, IsHelpFlag, IsVersionFlag;
      ScanOne(a, i, withValues, booleans);
      ScanOne(b, i + shift, withValues, booleans);
      assert i + 1 < |a| ==> a[i + 1] == b[i + 1 + shift];
      if i + 1 <= |a| { ScanShifts(a, i + 1, b, shift, withValues, booleans); }
      if i + 2 <= |a| { ScanShifts(a, i + 2, b, shift, withValues, booleans); }
    }
  }

  /** Any run of known global options right after the executable leaves the verdict as it was, in the
      login and cloud scans as well. */
  lemma GlobalOptionsChangeNothing(executable: string, options: seq<GlobalOption>, rest: seq<string>,
                                   lower: string -> string)
    requires forall option :: option in options ==> Known(option)
    ensures IsNonInteractive([executable] + WrittenAll(options) + rest, lower) <==>
              IsNonInteractive([executable] + rest, lower)
  {
    hide FindSubcommand, WrittenAll, Known, KnownTo, IsNonInteractive;
    var run := WrittenAll(options);
    forall option | option in options ensures KnownTo(option, GLOBAL_FLAGS_WITH_VALUES, GLOBAL_BOOLEAN_FLAGS) {
      KnownIsKnown(option);
    }
    RunIsSkipped([executable], options, rest, GLOBAL_FLAGS_WITH_VALUES, GLOBAL_BOOLEAN_FLAGS);
    SameVerdict([executable] + rest, [executable] + run + rest, |run|, lower);
  }

  lemma SameTail(plain: seq<string>, start: nat, long: seq<string>, shift: nat)
    requires 1 <= start && |long| == |plain| + shift && forall k :: 1 <= k < |plain| ==> plain[k] == long[k + shift]
    ensures From(long, start + shift) == From(plain, start)
  {
  }

  lemma SameLogin(plain: seq<string>, start: nat, long: seq<string>, shift: nat, lower: string -> string)
    requires 1 <= start && |long| == |plain| + shift && forall k :: 1 <= k < |plain| ==> plain[k] == long[k + shift]
    ensures LoginRunsAlone(long, start + shift, lower) <==> LoginRunsAlone(plain, start, lower)
  {
    hide FindSubcommand, AnyToken, From;
    ScanShifts(plain, start, long, shift, LOGIN_FLAGS_WITH_VALUES, LOGIN_BOOLEAN_FLAGS);
    SameTail(plain, start, long, shift);
  }

  lemma SameCloud(plain: seq<string>, start: nat, long: seq<string>, shift: nat, lower: string -> string)
    requires 1 <= start && |long| == |plain| + shift && forall k :: 1 <= k < |plain| ==> plain[k] == long[k + shift]
    ensures CloudRunsAlone(long, start + shift, lower) <==> CloudRunsAlone(plain, start, lower)
  {
    hide FindSubcommand, AnyToken, From;
    ScanShifts(plain, start, long, shift, CLOUD_FLAGS_WITH_VALUES, CLOUD_BOOLEAN_FLAGS);
    SameTail(plain, start, long, shift);
  }

  // Scanning alike from the second token on, up to a shift, means the same verdict.
  lemma SameVerdict(plain: seq<string>, long: seq<string>, shift: nat, lower: string -> string)
    requires |long| == |plain| + shift && forall k :: 1 <= k < |plain| ==> plain[k] == long[k + shift]
    requires GlobalScan(long, 1) == GlobalScan(long, 1 + shift)
    ensures IsNonInteractive(long, lower) <==> IsNonInteractive(plain, lower)
  {
    hide FindSubcommand, LoginRunsAlone, CloudRunsAlone, RunsAlone;
    ScanShifts(plain, 1, long, shift, GLOBAL_FLAGS_WITH_VALUES, GLOBAL_BOOLEAN_FLAGS);
    assert GlobalScan(long, 1 + shift) == Shifted(GlobalScan(plain, 1), shift);
    hide GlobalScan;
    var sub := GlobalScan(plain, 1);
    if sub.Some? {
      SameLogin(plain, sub.value.index + 1, long, shift, lower);
      SameCloud(plain, sub.value.index + 1, long, shift, lower);
    }
  }

  // ---------------------------------------------------------------- the word that decides

  /** A scan sees what stands in the part of the words it is given. */
  lemma {:induction false} FindInPart(tokens: seq<string>, n: nat, i: nat, withValues: set<string>,
                                      booleans: set<string>)
    requires n <= |tokens|
    ensures var found := FindSubcommand(tokens, i, withValues, booleans);
            && (found.Some? ==> i <= found.value.index < |tokens|)
            && FindSubcommand(tokens[..n], i, withValues, booleans)
               == if found.Some? && found.value.index < n then found else None
    decreases |tokens| - i
  {
    hide FindSubcommand, OptionName, IsHelpFlag, IsVersionFlag;
    if i >= |tokens| {
      PastTheEnd(tokens, i, withValues, booleans);
      PastTheEnd(tokens[..n], i, withValues, booleans);
    } else {
      FindInPart(tokens, n, i + 1, withValues, booleans);
      FindInPart(tokens, n, i + 2, withValues, booleans);
      ScanOne(tokens, i, withValues, booleans);
      if i < n {
        ScanOne(tokens[..n], i, withValues, booleans);
      } else {
        PastTheEnd(tokens[..n], i, withValues, booleans);
      }
    }
  }

  lemma PastTheEnd(tokens: seq<string>, i: nat, withValues: set<string>, booleans: set<string>)
    requires i >= |tokens|
    ensures FindSubcommand(tokens, i, withValues, booleans) == None
  {
  }

  function FirstAt(tokens: seq<string>, i: nat, p: string -> bool): (k: Option<nat>)
    ensures k.Some? ==> i <= k.value < |tokens| && p(tokens[k.value])
    ensures forall j :: i <= j < (if k.Some? then k.value else |tokens|) ==> !p(tokens[j])
    decreases |tokens| - i
  {
    if i >= |tokens| then None else if p(tokens[i]) then Some(i) else FirstAt(tokens, i + 1, p)
  }

  function Earlier(a: Option<nat>, b: Option<nat>): Option<nat> {
    if a.None? then b else if b.None? || a.value <= b.value then a else b
  }

  // The place of a subcommand, if its name is one of these.
  function PlaceIf(found: Option<Found>, names: set<string>, lower: string -> string): Option<nat> {
    if found.Some? && lower(found.value.value) in names then Some(found.value.index) else None
  }

  /** The word that shows a command not to be interactive: its subcommand, or, behind login and cloud, the
      first of the flags and names that make these run alone. */
  function DecidingWord(tokens: seq<string>, lower: string -> string): Option<nat> {
    var sub := GlobalScan(tokens, 1);
    if sub.None? then None
    else
      var value, start := lower(sub.value.value), sub.value.index + 1;
      if value == "login" then
        var login := FindSubcommand(tokens, start, LOGIN_FLAGS_WITH_VALUES, LOGIN_BOOLEAN_FLAGS);
        Earlier(Earlier(FirstAt(tokens, start, IsToken), FirstAt(tokens, start, IsHelpFlag)),
                PlaceIf(login, NON_INTERACTIVE_LOGIN, lower))
      else if value == "cloud" then
        var cloud := FindSubcommand(tokens, start, CLOUD_FLAGS_WITH_VALUES, CLOUD_BOOLEAN_FLAGS);
        Earlier(FirstAt(tokens, start, IsHelpOrVersion), PlaceIf(cloud, NON_INTERACTIVE_CLOUD, lower))
      else if RunsAlone(value) then Some(sub.value.index)
      else None
  }

  lemma AnyInPart(tokens: seq<string>, n: nat, i: nat, p: string -> bool)
    requires n <= |tokens|
    ensures var k := FirstAt(tokens, i, p); AnyToken(From(tokens[..n], i), p) <==> k.Some? && k.value < n
  {
    var part, k := From(tokens[..n], i), FirstAt(tokens, i, p);
    if j :| 0 <= j < |part| && p(part[j]) {
      assert part[j] == tokens[i + j];
    }
    if k.Some? && k.value < n {
      assert part[k.value - i] == tokens[k.value];
    }
  }

  lemma LoginInPart(tokens: seq<string>, n: nat, start: nat, lower: string -> string)
    requires n <= |tokens|
    ensures var login := FindSubcommand(tokens, start, LOGIN_FLAGS_WITH_VALUES, LOGIN_BOOLEAN_FLAGS);
            var d := Earlier(Earlier(FirstAt(tokens, start, IsToken), FirstAt(tokens, start, IsHelpFlag)),
                             PlaceIf(login, NON_INTERACTIVE_LOGIN, lower));
            LoginRunsAlone(tokens[..n], start, lower) <==> d.Some? && d.value < n
  {
    hide FindSubcommand, AnyToken, From, FirstAt;
    AnyInPart(tokens, n, start, IsToken);
    AnyInPart(tokens, n, start, IsHelpFlag);
    FindInPart(tokens, n, start, LOGIN_FLAGS_WITH_VALUES, LOGIN_BOOLEAN_FLAGS);
    hide IsToken, IsHelpFlag;
  }

  lemma CloudInPart(tokens: seq<string>, n: nat, start: nat, lower: string -> string)
    requires n <= |tokens|
    ensures var cloud := FindSubcommand(tokens, start, CLOUD_FLAGS_WITH_VALUES, CLOUD_BOOLEAN_FLAGS);
            var d := Earlier(FirstAt(tokens, start, IsHelpOrVersion), PlaceIf(cloud, NON_INTERACTIVE_CLOUD, lower));
            CloudRunsAlone(tokens[..n], start, lower) <==> d.Some? && d.value < n
  {
    hide FindSubcommand, AnyToken, From, FirstAt;
    AnyInPart(tokens, n, start, IsHelpOrVersion);
    FindInPart(tokens, n, start, CLOUD_FLAGS_WITH_VALUES, CLOUD_BOOLEAN_FLAGS);
    hide IsHelpOrVersion;
  }

  lemma DecidingIsBehind(tokens: seq<string>, lower: string -> string)
    ensures var sub, d := GlobalScan(tokens, 1), DecidingWord(tokens, lower);
            && (sub.Some? ==> 1 <= sub.value.index < |tokens|)
            && (d.Some? ==> sub.Some? && sub.value.index <= d.value < |tokens|)
  {
    hide FindSubcommand, FirstAt;
    FindInPart(tokens, |tokens|, 1, GLOBAL_FLAGS_WITH_VALUES, GLOBAL_BOOLEAN_FLAGS);
    var sub := GlobalScan(tokens, 1);
    if sub.Some? {
      FindInPart(tokens, |tokens|, sub.value.index + 1, LOGIN_FLAGS_WITH_VALUES, LOGIN_BOOLEAN_FLAGS);
      FindInPart(tokens, |tokens|, sub.value.index + 1, CLOUD_FLAGS_WITH_VALUES, CLOUD_BOOLEAN_FLAGS);
    }
    hide IsToken, IsHelpFlag, IsHelpOrVersion;
  }

  /** Of a command cut off anywhere, exactly a part that reaches the deciding word is seen not to be interactive. */
  lemma DecidedWithin(tokens: seq<string>, n: nat, lower: string -> string)
    requires n <= |tokens|
    ensures var d := DecidingWord(tokens, lower);
            IsNonInteractive(tokens[..n], lower) <==> d.Some? && d.value < n
    ensures var d := DecidingWord(tokens, lower); d.Some? ==> 1 <= d.value < |tokens|
  {
    hide FindSubcommand, LoginRunsAlone, CloudRunsAlone, RunsAlone, FirstAt, Earlier, PlaceIf;
    DecidingIsBehind(tokens, lower);
    FindInPart(tokens, n, 1, GLOBAL_FLAGS_WITH_VALUES, GLOBAL_BOOLEAN_FLAGS);
    var sub := GlobalScan(tokens, 1);
    if sub.Some? && sub.value.index < n {
      LoginInPart(tokens, n, sub.value.index + 1, lower);
      CloudInPart(tokens, n, sub.value.index + 1, lower);
    }
  }

  /** So what is once seen not to be interactive stays so, however many words follow. */
  lemma NonInteractiveStays(a: seq<string>, b: seq<string>, lower: string -> string)
    requires IsNonInteractive(a, lower)
    ensures IsNonInteractive(a + b, lower)
  {
    hide IsNonInteractive, DecidingWord;
    var all := a + b;
    assert all[..|a|] == a && all[..|all|] == all;
    DecidedWithin(all, |a|, lower);
    DecidedWithin(all, |all|, lower);
  }

  // ---------------------------------------------------------------- what every command line comes to

  /** What can stand behind a run of options: nothing, an option without its value, two dashes, a request for
      help or for the version, or any other word. */
  predicate Ends(rest: seq<string>, withValues: set<string>, booleans: set<string>) {
    || rest == []
    || (|rest| == 1 && rest[0] in withValues)
    || rest[0] == "--"
    || IsInfo(rest[0])
    || IsWord(rest[0], withValues, booleans)
  }

  predicate IsInfo(token: string) { IsHelpFlag(OptionName(token)) || IsVersionFlag(OptionName(token)) }

  predicate IsWord(token: string, withValues: set<string>, booleans: set<string>) {
    token != "--" && !IsInfo(token) && OptionName(token) !in withValues && OptionName(token) !in booleans
  }

  predicate Plain(names: set<string>) { forall name :: name in names ==> NoEquals(name) && name != "--" }

  /** Every list of words is a run of options and one of these ends. */
  lemma {:induction false} EveryCommandSplits(tokens: seq<string>, withValues: set<string>, booleans: set<string>)
      returns (options: seq<GlobalOption>, rest: seq<string>)
    requires Plain(withValues + booleans)
    ensures tokens == WrittenAll(options) + rest && Ends(rest, withValues, booleans)
    ensures forall option :: option in options ==> KnownTo(option, withValues, booleans)
    decreases |tokens|
  {
    if Ends(tokens, withValues, booleans) {
      return [], tokens;
    }
    var option := FirstOption(tokens, withValues, booleans);
    options, rest := EveryCommandSplits(tokens[|Written(option)|..], withValues, booleans);
    options := [option] + options;
    hide Written, KnownTo, Ends;
    assert WrittenAll(options) == Written(option) + WrittenAll(options[1..]);
  }

  lemma FirstOption(tokens: seq<string>, withValues: set<string>, booleans: set<string>) returns (option: GlobalOption)
    requires Plain(withValues + booleans) && !Ends(tokens, withValues, booleans)
    ensures KnownTo(option, withValues, booleans)
    ensures 0 < |Written(option)| <= |tokens| && tokens == Written(option) + tokens[|Written(option)|..]
  {
    var token := tokens[0];
    var name := OptionName(token);
    NameLeads(token);
    assert name in withValues + booleans;
    if name != token {
      option := Assigned(name, token[|name| + 1..]);
    } else if name in withValues {
      option := WithValue(name, tokens[1]);
    } else {
      option := Switch(name);
    }
  }

  lemma {:induction false} NameLeads(token: string)
    ensures var name := OptionName(token); NoEquals(name) && (token == name || (name + "=" <= token))
    ensures var name := OptionName(token); token != name ==> token == name + "=" + token[|name| + 1..]
  {
    if token != "" && token[0] != '=' { NameLeads(token[1..]); }
  }

  /** What the scan answers behind any run of options: two dashes hide a prompt if a word follows, a request for
      help or the version is answered as such, any other word as it stands. */
  lemma AnswerIs(before: seq<string>, options: seq<GlobalOption>, rest: seq<string>, withValues: set<string>,
                 booleans: set<string>)
    requires forall option :: option in options ==> KnownTo(option, withValues, booleans)
    requires Ends(rest, withValues, booleans) && Plain(withValues)
    ensures var found := FindSubcommand(before + WrittenAll(options) + rest, |before|, withValues, booleans);
            var at := |before| + |WrittenAll(options)|;
            && (rest == [] || (|rest| == 1 && rest[0] in withValues && !IsInfo(rest[0])) ==> found == None)
            && (rest != [] && rest[0] == "--" ==>
                  found == if |rest| > 1 && rest[1] != "" then Some(Found("<prompt>", at + 1)) else None)
            && (rest != [] && IsInfo(rest[0]) ==>
                  found == Some(Found(if IsHelpFlag(OptionName(rest[0])) then "help" else "version", at)))
            && (rest != [] && IsWord(rest[0], withValues, booleans) ==> found == Some(Found(rest[0], at)))
  {
    hide WrittenAll, KnownTo, FindSubcommand;
    RunIsSkipped(before, options, rest, withValues, booleans);
    var tokens, at := before + WrittenAll(options) + rest, |before| + |WrittenAll(options)|;
    if rest == [] {
      PastTheEnd(tokens, at, withValues, booleans);
    } else {
      NameLeads(rest[0]);
      assert tokens[at] == rest[0] && (|rest| > 1 ==> tokens[at + 1] == rest[1]);
      ScanOne(tokens, at, withValues, booleans);
      if |rest| == 1 {
        PastTheEnd(tokens, at + 1, withValues, booleans);
        PastTheEnd(tokens, at + 2, withValues, booleans);
      }
      hide OptionName;
    }
  }

  // Lower-casing leaves the answers of a scan that are no words of the command.
  predicate KeepsAnswers(lower: string -> string) {
    lower("help") == "help" && lower("version") == "version" && lower("<prompt>") == "<prompt>"
  }

  predicate AsksHelp(rest: seq<string>) { rest != [] && rest[0] != "--" && IsHelpFlag(OptionName(rest[0])) }

  predicate AsksVersion(rest: seq<string>) { rest != [] && rest[0] != "--" && IsVersionFlag(OptionName(rest[0])) }

  predicate Names(rest: seq<string>, withValues: set<string>, booleans: set<string>, names: string -> bool,
                  lower: string -> string) {
    rest != [] && IsWord(rest[0], withValues, booleans) && names(lower(rest[0]))
  }

  predicate RunsLogin(value: string) { value in NON_INTERACTIVE_LOGIN }

  predicate RunsCloud(value: string) { value in NON_INTERACTIVE_CLOUD }

  // A scan answers with a name out of the list when one stands there or when help or version is asked for, and listed.
  lemma AnswerNames(before: seq<string>, options: seq<GlobalOption>, rest: seq<string>, withValues: set<string>,
                    booleans: set<string>, names: string -> bool, lower: string -> string)
    requires KeepsAnswers(lower) && !names("<prompt>")
    requires forall option :: option in options ==> KnownTo(option, withValues, booleans)
    requires Ends(rest, withValues, booleans) && Plain(withValues)
    ensures var found := FindSubcommand(before + WrittenAll(options) + rest, |before|, withValues, booleans);
            (found.Some? && names(lower(found.value.value)))
            <==> || (AsksHelp(rest) && names("help")) || (AsksVersion(rest) && names("version"))
                 || Names(rest, withValues, booleans, names, lower)
  {
    AnswerIs(before, options, rest, withValues, booleans);
    if rest != [] && rest[0] in withValues { NameIs(rest[0], ""); }
    HelpIsNotVersion();
    hide WrittenAll, KnownTo, FindSubcommand, OptionName, Plain, IsHelpFlag, IsVersionFlag;
  }

  lemma HelpIsNotVersion()
    ensures forall name :: IsHelpFlag(name) ==> !IsVersionFlag(name)
  {
  }

  lemma TablesArePlain()
    ensures Plain(GLOBAL_FLAGS_WITH_VALUES)
    ensures Plain(LOGIN_FLAGS_WITH_VALUES)
    ensures Plain(CLOUD_FLAGS_WITH_VALUES)
  {
    forall name | name in GLOBAL_FLAGS_WITH_VALUES ensures NoEquals(name) && name != "--" { ValueFlagsArePlain(name); }
  }

  lemma ListedAnswers()
    ensures RunsAlone("help") && RunsAlone("version") && !RunsAlone("<prompt>")
    ensures RunsLogin("help") && !RunsLogin("version") && !RunsLogin("<prompt>")
    ensures RunsCloud("help") && !RunsCloud("version") && !RunsCloud("<prompt>")
  {
  }

  predicate GlobalOptions(options: seq<GlobalOption>) {
    forall option :: option in options ==> KnownTo(option, GLOBAL_FLAGS_WITH_VALUES, GLOBAL_BOOLEAN_FLAGS)
  }

  predicate LoginOptions(options: seq<GlobalOption>) {
    forall option :: option in options ==> KnownTo(option, LOGIN_FLAGS_WITH_VALUES, LOGIN_BOOLEAN_FLAGS)
  }

  predicate CloudOptions(options: seq<GlobalOption>) {
    forall option :: option in options ==> KnownTo(option, CLOUD_FLAGS_WITH_VALUES, CLOUD_BOOLEAN_FLAGS)
  }

  predicate LoginEnds(rest: seq<string>) { Ends(rest, LOGIN_FLAGS_WITH_VALUES, LOGIN_BOOLEAN_FLAGS) }

  predicate CloudEnds(rest: seq<string>) { Ends(rest, CLOUD_FLAGS_WITH_VALUES, CLOUD_BOOLEAN_FLAGS) }

  predicate GlobalWord(token: string) { IsWord(token, GLOBAL_FLAGS_WITH_VALUES, GLOBAL_BOOLEAN_FLAGS) }

  /** The verdict on a command other than login and cloud: a request for help or the version and the listed
      subcommands run alone; a prompt, any other word, or no word at all do not. */
  lemma VerdictIs(executable: string, options: seq<GlobalOption>, rest: seq<string>, lower: string -> string)
    requires KeepsAnswers(lower) && GlobalOptions(options)
    requires Ends(rest, GLOBAL_FLAGS_WITH_VALUES, GLOBAL_BOOLEAN_FLAGS)
    requires rest != [] && GlobalWord(rest[0]) ==> lower(rest[0]) != "login" && lower(rest[0]) != "cloud"
    ensures IsNonInteractive([executable] + WrittenAll(options) + rest, lower)
       <==> AsksHelp(rest) || AsksVersion(rest)
            || (rest != [] && GlobalWord(rest[0]) && lower(rest[0]) in NON_INTERACTIVE)
  {
    TablesArePlain();
    ListedAnswers();
    AnswerIs([executable], options, rest, GLOBAL_FLAGS_WITH_VALUES, GLOBAL_BOOLEAN_FLAGS);
    AnswerNames([executable], options, rest, GLOBAL_FLAGS_WITH_VALUES, GLOBAL_BOOLEAN_FLAGS, RunsAlone, lower);
    hide WrittenAll, FindSubcommand, Plain, Ends, AsksHelp, AsksVersion, RunsAlone, LoginRunsAlone, CloudRunsAlone;
  }

  lemma AnyIsIn(tokens: seq<string>, p: string -> bool)
    ensures AnyToken(tokens, p) <==> exists token :: token in tokens && p(token)
  {
    if i :| 0 <= i < |tokens| && p(tokens[i]) { assert tokens[i] in tokens; }
  }

  // Behind the run and the subcommand stands what the second scan is given.
  lemma SubcommandIsAt(executable: string, options: seq<GlobalOption>, word: string, behind: seq<string>)
    requires GlobalOptions(options) && GlobalWord(word)
    ensures var before := [executable] + WrittenAll(options) + [word];
            var tokens := [executable] + WrittenAll(options) + ([word] + behind);
            && GlobalScan(tokens, 1) == Some(Found(word, |before| - 1))
            && tokens == before + behind && From(tokens, |before|) == behind
  {
    TablesArePlain();
    hide WrittenAll, FindSubcommand, Plain;
    AnswerIs([executable], options, [word] + behind, GLOBAL_FLAGS_WITH_VALUES, GLOBAL_BOOLEAN_FLAGS);
    hide IsWord;
  }

  lemma LoginBehind(before: seq<string>, more: seq<GlobalOption>, rest: seq<string>, lower: string -> string)
    requires KeepsAnswers(lower) && LoginOptions(more) && LoginEnds(rest)
    ensures var behind := WrittenAll(more) + rest;
            LoginRunsAlone(before + behind, |before|, lower)
            <==> || (exists token :: token in behind && IsToken(token))
                 || (exists token :: token in behind && IsHelpFlag(token))
                 || AsksHelp(rest)
                 || Names(rest, LOGIN_FLAGS_WITH_VALUES, LOGIN_BOOLEAN_FLAGS, RunsLogin, lower)
  {
    var behind := WrittenAll(more) + rest;
    hide FindSubcommand, WrittenAll, KnownTo, OptionName, IsHelpFlag, IsVersionFlag, IsToken;
    TablesArePlain();
    ListedAnswers();
    AnswerNames(before, more, rest, LOGIN_FLAGS_WITH_VALUES, LOGIN_BOOLEAN_FLAGS, RunsLogin, lower);
    assert before + behind == before + WrittenAll(more) + rest && From(before + behind, |before|) == behind;
    AnyIsIn(behind, IsToken);
    AnyIsIn(behind, IsHelpFlag);
    hide Plain, AsksHelp, AsksVersion, AnyToken, From, Names, Ends, KeepsAnswers, LoginOptions, LoginEnds;
  }

  lemma CloudBehind(before: seq<string>, more: seq<GlobalOption>, rest: seq<string>, lower: string -> string)
    requires KeepsAnswers(lower) && CloudOptions(more) && CloudEnds(rest)
    ensures var behind := WrittenAll(more) + rest;
            CloudRunsAlone(before + behind, |before|, lower)
            <==> || (exists token :: token in behind && IsHelpOrVersion(token))
                 || AsksHelp(rest)
                 || Names(rest, CLOUD_FLAGS_WITH_VALUES, CLOUD_BOOLEAN_FLAGS, RunsCloud, lower)
  {
    var behind := WrittenAll(more) + rest;
    hide FindSubcommand, WrittenAll, KnownTo, OptionName, IsHelpFlag, IsVersionFlag, IsToken;
    TablesArePlain();
    ListedAnswers();
    AnswerNames(before, more, rest, CLOUD_FLAGS_WITH_VALUES, CLOUD_BOOLEAN_FLAGS, RunsCloud, lower);
    assert before + behind == before + WrittenAll(more) + rest && From(before + behind, |before|) == behind;
    AnyIsIn(behind, IsHelpOrVersion);
    hide Plain, AsksHelp, AsksVersion, AnyToken, From, Names, Ends, KeepsAnswers, CloudOptions, CloudEnds;
    hide IsHelpOrVersion;
  }

  /** Behind login: a token or a plain request for help anywhere runs alone, and so do status and help as the
      first word. */
  lemma LoginIs(executable: string, options: seq<GlobalOption>, word: string, more: seq<GlobalOption>,
                rest: seq<string>, lower: string -> string)
    requires KeepsAnswers(lower) && lower(word) == "login" && GlobalWord(word)
    requires GlobalOptions(options) && LoginOptions(more) && LoginEnds(rest)
    ensures var behind := WrittenAll(more) + rest;
            IsNonInteractive([executable] + WrittenAll(options) + ([word] + behind), lower)
            <==> || (exists token :: token in behind && IsToken(token))
                 || (exists token :: token in behind && IsHelpFlag(token))
                 || AsksHelp(rest)
                 || Names(rest, LOGIN_FLAGS_WITH_VALUES, LOGIN_BOOLEAN_FLAGS, RunsLogin, lower)
  {
    SubcommandIsAt(executable, options, word, WrittenAll(more) + rest);
    LoginBehind([executable] + WrittenAll(options) + [word], more, rest, lower);
    hide WrittenAll, GlobalScan, LoginRunsAlone, CloudRunsAlone, RunsAlone, From, Names, AsksHelp, GlobalWord;
    hide KeepsAnswers, GlobalOptions, LoginOptions, LoginEnds, IsToken, IsHelpFlag;
  }

  /** Behind cloud: a plain request for help or the version anywhere, or one of the named subcommands. */
  lemma CloudIs(executable: string, options: seq<GlobalOption>, word: string, more: seq<GlobalOption>,
                rest: seq<string>, lower: string -> string)
    requires KeepsAnswers(lower) && lower(word) == "cloud" && GlobalWord(word)
    requires GlobalOptions(options) && CloudOptions(more) && CloudEnds(rest)
    ensures var behind := WrittenAll(more) + rest;
            IsNonInteractive([executable] + WrittenAll(options) + ([word] + behind), lower)
            <==> || (exists token :: token in behind && IsHelpOrVersion(token))
                 || AsksHelp(rest)
                 || Names(rest, CLOUD_FLAGS_WITH_VALUES, CLOUD_BOOLEAN_FLAGS, RunsCloud, lower)
  {
    SubcommandIsAt(executable, options, word, WrittenAll(more) + rest);
    CloudBehind([executable] + WrittenAll(options) + [word], more, rest, lower);
    hide WrittenAll, GlobalScan, LoginRunsAlone, CloudRunsAlone, RunsAlone, From, Names, AsksHelp, GlobalWord;
    hide KeepsAnswers, GlobalOptions, CloudOptions, CloudEnds, IsHelpOrVersion;
  }
}

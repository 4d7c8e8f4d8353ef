/**
 What parsing does behind the scan (src/cli/args.ts): words behind a command's path become flags, and the
 result is validated.  Names of boolean, global and global value flags are inputs.
 */
module Positionals {
  import opened Common
  import opened CommandSpecs
  import opened Arguments

  predicate Reads(c: Spec, base: Path, typed: Path) {
    base <= typed && (c.variadicPositional || |typed| - |base| <= |c.positionalArgs|)
  }

  predicate IsNormalized(c: Spec) { c.positionalArgs != [] || c.aliases.Some? }

  predicate ReadsAt(specs: seq<Spec>, typed: Path, i: nat, j: nat) {
    i < |specs| && IsNormalized(specs[i]) && j < |SpecPaths(specs[i])| && Reads(specs[i], SpecPaths(specs[i])[j], typed)
  }

  /** The first command, and its first path, that can read the words typed. */
  ghost predicate FirstReads(specs: seq<Spec>, typed: Path, i: nat, j: nat) {
    ReadsAt(specs, typed, i, j) && forall k: nat, m: nat :: ReadsAt(specs, typed, k, m) ==> !Precedes(k, m, i, j)
  }

  // The name of a word that the command has no name for (undefined); no scanned flag has an equals sign.
  const UNNAMED := "="

  /** The name the k-th word goes by: the last one takes all that are left. */
  function NameOf(c: Spec, k: nat): string {
    if c.positionalArgs == [] then UNNAMED
    else c.positionalArgs[if k < |c.positionalArgs| then k else |c.positionalArgs| - 1]
  }

  /** The words behind the path, as flags. */
  function Given(c: Spec, base: Path, typed: Path): seq<Entry>
    requires Reads(c, base, typed)
  {
    seq(|typed| - |base|, k requires 0 <= k < |typed| - |base| => Entry(NameOf(c, k), Str(typed[|base| + k])))
  }

  /** The k-th word behind the path goes by the k-th declared name, and all that are left by the last. */
  lemma WordsGetNames(c: Spec, base: Path, typed: Path, k: nat)
    requires Reads(c, base, typed) && k < |typed| - |base|
    ensures |Given(c, base, typed)| == |typed| - |base|
    ensures var given, args := Given(c, base, typed), c.positionalArgs;
            && given[k].value == Str(typed[|base| + k])
            && (k < |args| ==> given[k].name == args[k])
            && (k >= |args| && args != [] ==> c.variadicPositional && given[k].name == args[|args| - 1])
  {
  }

  function NotIn(flags: Flags): Entry -> bool { (e: Entry) => e.name !in flags }

  function NameIn(flags: Flags): string -> bool { (name: string) => name in flags }

  function Names(entries: seq<Entry>): seq<string> {
    seq(|entries|, k requires 0 <= k < |entries| => entries[k].name)
  }

  datatype Normal = Normal(path: seq<string>, flags: Flags, conflicts: seq<string>)

  function NormalForm(c: Spec, base: Path, parsed: Parsed, booleans: set<string>): Normal
    requires Reads(c, base, parsed.commandPath)
  {
    var given := Given(c, base, parsed.commandPath);
    Normal(c.path, Collect(parsed.flags, Filter(NotIn(parsed.flags), given), c.repeatableFlags, booleans),
           Filter(NameIn(parsed.flags), Names(given)))
  }

  // ---------------------------------------------------------------- normalizeCommandPositionals

  /** The first command that can read the words decides; if none can, everything stays as it is. */
  ghost predicate NormalizedAs(specs: seq<Spec>, parsed: Parsed, booleans: set<string>, n: Normal) {
    || (exists i: nat, j: nat :: FirstReads(specs, parsed.commandPath, i, j)
          && n == NormalForm(specs[i], SpecPaths(specs[i])[j], parsed, booleans))
    || ((forall i: nat, j: nat :: !ReadsAt(specs, parsed.commandPath, i, j))
          && n == Normal(parsed.commandPath, parsed.flags, []))
  }

  method NormalizeCommandPositionals(specs: seq<Spec>, parsed: Parsed, booleans: set<string>) returns (r: Normal)
    ensures NormalizedAs(specs, parsed, booleans, r)
  {
    hide NormalForm, Given;
    for i := 0 to |specs|
      invariant forall k: nat, m: nat :: ReadsAt(specs, parsed.commandPath, k, m) ==> !Precedes(k, m, i, 0)
    {
      var spec := specs[i];
      if spec.positionalArgs == [] && spec.aliases.None? {
        continue;
      }
      var paths := SpecPaths(spec);
      for j := 0 to |paths|
        invariant forall k: nat, m: nat :: ReadsAt(specs, parsed.commandPath, k, m) ==> !Precedes(k, m, i, j)
      {
        var base := paths[j];
        var positionalCount := |parsed.commandPath| - |base|;
        if positionalCount < 0 || (!spec.variadicPositional && positionalCount > |spec.positionalArgs|) {
          continue;
        }
        if parsed.commandPath[..|base|] != base {
          continue;
        }
        assert FirstReads(specs, parsed.commandPath, i, j);
        r := SetPositionals(spec, base, parsed, booleans);
        return;
      }
    }
    return Normal(parsed.commandPath, parsed.flags, []);
  }

  method SetPositionals(c: Spec, base: Path, parsed: Parsed, booleans: set<string>) returns (r: Normal)
    requires Reads(c, base, parsed.commandPath)
    ensures r == NormalForm(c, base, parsed, booleans)
  {
    hide Collect, Filter, SetFlagValue;
    var values := parsed.commandPath[|base|..];
    ghost var given, untyped := Given(c, base, parsed.commandPath), NotIn(parsed.flags);
    var provided: seq<string>, flags, conflicts: seq<string> := [], parsed.flags, [];
    NothingCollected(parsed.flags, c.repeatableFlags, booleans);
    for k := 0 to |values|
      invariant provided == Names(given[..k])
      invariant flags == Collect(parsed.flags, Filter(untyped, given[..k]), c.repeatableFlags, booleans)
      invariant conflicts == Filter(NameIn(parsed.flags), provided)
    {
      var name := NameOf(c, k);
      ghost var entry := given[k];
      assert entry == Entry(name, Str(values[k])) && given[..k + 1] == given[..k] + [entry];
      FilterLast(untyped, given[..k], entry);
      FilterLast(NameIn(parsed.flags), provided, name);
      assert untyped(entry) <==> name !in parsed.flags;
      provided := provided + [name];
      if name in parsed.flags {
        conflicts := conflicts + [name];
        assert Filter(untyped, given[..k]) + [] == Filter(untyped, given[..k]);
      } else {
        CollectLast(parsed.flags, Filter(untyped, given[..k]), entry, c.repeatableFlags, booleans);
        flags := SetFlagValue(flags, name, values[k], c.repeatableFlags, booleans);
      }
    }
    assert given[..|values|] == given;
    return Normal(c.path, flags, conflicts);
  }

  lemma NothingCollected(flags: Flags, repeatable: set<string>, booleans: set<string>)
    ensures Collect(flags, Filter(NotIn(flags), []), repeatable, booleans) == flags
    ensures Filter(NameIn(flags), []) == []
  {
  }

  lemma FilterLast<T>(p: T -> bool, xs: seq<T>, x: T)
    ensures Filter(p, xs + [x]) == Filter(p, xs) + if p(x) then [x] else []
  {
    FilterConcat(p, xs, [x]);
    assert Filter(p, [x]) == (if p(x) then [x] else []) + Filter(p, []);
  }

  lemma CollectLast(flags: Flags, entries: seq<Entry>, entry: Entry, repeatable: set<string>, booleans: set<string>)
    ensures Collect(flags, entries + [entry], repeatable, booleans)
         == SetEntry(Collect(flags, entries, repeatable, booleans), entry, repeatable, booleans)
  {
    assert (entries + [entry])[..|entries|] == entries;
  }

  // ---------------------------------------------------------------- what the words become

  lemma {:induction false} CollectElsewhere(flags: Flags, entries: seq<Entry>, repeatable: set<string>,
                                            booleans: set<string>, name: string)
    requires forall e :: e in entries ==> e.name != name
    ensures Lookup(Collect(flags, entries, repeatable, booleans), name) == Lookup(flags, name)
  {
    if entries != [] {
      hide SetEntry;
      var before, last := entries[..|entries| - 1], entries[|entries| - 1];
      assert last in entries;
      CollectElsewhere(flags, before, repeatable, booleans, name);
      SetEntryUpdates(Collect(flags, before, repeatable, booleans), last, repeatable, booleans, name);
    }
  }

  lemma {:induction false} FreshOccurrences(flags: Flags, entries: seq<Entry>, name: string)
    requires name !in flags
    ensures Occurrences(Filter(NotIn(flags), entries), name) == Occurrences(entries, name)
  {
    hide Filter;
    if entries == [] {
      FilterNone(NotIn(flags), entries);
    } else {
      var before, last := entries[..|entries| - 1], entries[|entries| - 1];
      FreshOccurrences(flags, before, name);
      assert entries == before + [last];
      FilterLast(NotIn(flags), before, last);
      OccurrencesLast(Filter(NotIn(flags), before), last, name);
      OccurrencesLast(before, last, name);
      assert NotIn(flags)(last) <==> last.name !in flags;
      assert Filter(NotIn(flags), before) + [] == Filter(NotIn(flags), before);
    }
  }

  lemma OccurrencesLast(entries: seq<Entry>, last: Entry, name: string)
    ensures Occurrences(entries + [last], name) ==
            Occurrences(entries, name) + if last.name == name then [last.value] else []
  {
    assert (entries + [last])[..|entries|] == entries;
  }

  /** Flag by flag: one typed as a flag keeps its value, and any other holds what the words given to its
      name make of it. */
  lemma NormalFlag(c: Spec, base: Path, parsed: Parsed, booleans: set<string>, name: string)
    requires Reads(c, base, parsed.commandPath)
    ensures Lookup(NormalForm(c, base, parsed, booleans).flags, name)
         == if name in parsed.flags then Some(parsed.flags[name])
            else FinalOf(Occurrences(Given(c, base, parsed.commandPath), name), name in c.repeatableFlags,
                  name in booleans)
  {
    hide Filter, Given, Collect, FinalOf, Occurrences;
    var given := Given(c, base, parsed.commandPath);
    var untyped := Filter(NotIn(parsed.flags), given);
    if name in parsed.flags {
      forall e | e in untyped ensures e.name != name {
        FilterIs(NotIn(parsed.flags), given, e);
      }
      CollectElsewhere(parsed.flags, untyped, c.repeatableFlags, booleans, name);
    } else {
      CollectIsFinal(parsed.flags, untyped, c.repeatableFlags, booleans, name);
      FreshOccurrences(parsed.flags, given, name);
    }
  }

  /** A word conflicts exactly when its name was typed as a flag too. */
  lemma ConflictsAreTyped(c: Spec, base: Path, parsed: Parsed, booleans: set<string>, name: string)
    requires Reads(c, base, parsed.commandPath)
    ensures name in NormalForm(c, base, parsed, booleans).conflicts
       <==> name in parsed.flags && exists e :: e in Given(c, base, parsed.commandPath) && e.name == name
  {
    hide Filter, Given;
    var given := Given(c, base, parsed.commandPath);
    FilterIs(NameIn(parsed.flags), Names(given), name);
    if e :| e in given && e.name == name {
      var k :| 0 <= k < |given| && given[k] == e;
      assert Names(given)[k] == name;
    }
  }

  // The rules of two readings agree on a flag: it comes at most once, or repeats under both or neither.
  predicate SameRule(values: seq<Value>, a: bool, b: bool) { |values| <= 1 || a == b }

  lemma RuleDecides(values: seq<Value>, a: bool, b: bool, boolean: bool)
    ensures SameRule(values, a, b) ==> FinalOf(values, a, boolean) == FinalOf(values, b, boolean)
    ensures (forall v :: v in values ==> v.Str?) && FinalOf(values, a, boolean) == FinalOf(values, b, boolean)
        ==> SameRule(values, a, b)
  {
    if |values| == 1 {
      assert values == [values[0]];
    } else if |values| > 1 && forall v :: v in values ==> v.Str? {
      assert Valueless !in values;
      assert values[|values| - 1] in values;
      JoinIsLonger(values);
    }
  }

  lemma JoinIsLonger(values: seq<Value>)
    requires |values| > 1 && forall v :: v in values ==> v.Str?
    ensures values[|values| - 1].Str? && |Join(values)| > |values[|values| - 1].text|
  {
    assert values[|values| - 1] in values;
  }

  /**
   Words behind the path mean the same as flags: take a command line that normalizes without conflicts, and
   another that carries the same flags and then each word as --name=word.  A flag whose typed values are read
   by the same rule on both lines ends up the same if and only if its words are: they are at most one, or
   the command repeats it exactly if parsing the other line does.
   */
  lemma WordsMeanFlags(specs: seq<Spec>, c: Spec, base: Path, tokens: seq<Token>, other: seq<Token>,
                       best: Option<Spec>, otherBest: Option<Spec>, booleans: set<string>, name: string)
    requires Reads(c, base, Arguments.Positionals(tokens))
    requires Entries(other) == Entries(tokens) + Given(c, base, Arguments.Positionals(tokens))
    requires LongestPrefix(specs, Arguments.Positionals(tokens), best)
    requires LongestPrefix(specs, Arguments.Positionals(other), otherBest)
    requires var flags := Collect(map[], Entries(tokens), Repeatable(best), booleans);
             NormalForm(c, base, Parsed(Arguments.Positionals(tokens), flags), booleans).conflicts == []
    requires SameRule(Occurrences(Entries(tokens), name), name in Repeatable(best), name in Repeatable(otherBest))
    ensures var flags := Collect(map[], Entries(tokens), Repeatable(best), booleans);
            var parsed := Parsed(Arguments.Positionals(tokens), flags);
            var words := Occurrences(Given(c, base, parsed.commandPath), name);
            Lookup(NormalForm(c, base, parsed, booleans).flags, name)
            == Lookup(Collect(map[], Entries(other), Repeatable(otherBest), booleans), name)
            <==> SameRule(words, name in c.repeatableFlags, name in Repeatable(otherBest))
  {
    hide Given, Collect, FinalOf, Occurrences, NormalForm, Entries, Arguments.Positionals, Reads, LongestPrefix,
          Repeatable;
    var flags := Collect(map[], Entries(tokens), Repeatable(best), booleans);
    var parsed := Parsed(Arguments.Positionals(tokens), flags);
    var given := Given(c, base, parsed.commandPath);
    NormalFlag(c, base, parsed, booleans, name);
    CollectIsFinal(map[], Entries(tokens), Repeatable(best), booleans, name);
    CollectIsFinal(map[], Entries(other), Repeatable(otherBest), booleans, name);
    OccurrencesOfConcat(Entries(tokens), given, name);
    var typed, words := Occurrences(Entries(tokens), name), Occurrences(given, name);
    SomeOrNone(typed, name in Repeatable(best), name in booleans);
    if name in flags {
      ConflictsAreTyped(c, base, parsed, booleans, name);
      NoOccurrence(given, name);
      assert typed + words == typed;
      RuleDecides(typed, name in Repeatable(best), name in Repeatable(otherBest), name in booleans);
    } else {
      assert typed + words == words;
      GivenIsText(c, base, parsed.commandPath, name);
      RuleDecides(words, name in c.repeatableFlags, name in Repeatable(otherBest), name in booleans);
    }
  }

  lemma SomeOrNone(values: seq<Value>, repeats: bool, boolean: bool)
    ensures FinalOf(values, repeats, boolean) == None <==> values == []
  {
  }

  lemma {:induction false} NoOccurrence(entries: seq<Entry>, name: string)
    requires forall e :: e in entries ==> e.name != name
    ensures Occurrences(entries, name) == []
  {
    if entries != [] {
      assert entries[|entries| - 1] in entries;
      NoOccurrence(entries[..|entries| - 1], name);
    }
  }

  lemma {:induction false} OccurrencesAreValues(entries: seq<Entry>, name: string)
    requires forall e :: e in entries ==> e.value.Str?
    ensures forall v :: v in Occurrences(entries, name) ==> v.Str?
  {
    if entries != [] {
      assert entries[|entries| - 1] in entries;
      OccurrencesAreValues(entries[..|entries| - 1], name);
    }
  }

  lemma GivenIsText(c: Spec, base: Path, typed: Path, name: string)
    requires Reads(c, base, typed)
    ensures forall v :: v in Occurrences(Given(c, base, typed), name) ==> v.Str?
  {
    OccurrencesAreValues(Given(c, base, typed), name);
  }

  /** All the words given to one name are read back in order if the flag repeats, and only the last one if
      it does not: a command that takes any number of words has to declare their name repeatable. */
  lemma WordsAreReadBack(c: Spec, base: Path, parsed: Parsed, booleans: set<string>, name: string)
    requires Reads(c, base, parsed.commandPath) && name !in parsed.flags
    ensures var words := Occurrences(Given(c, base, parsed.commandPath), name);
            var flags := NormalForm(c, base, parsed, booleans).flags;
            && (forall v :: v in words ==> v.Str?)
            && (name in c.repeatableFlags ==>
                  (GetRepeatedString(flags, name) == Ok(Filter(NonEmpty, Texts(words)))
                   <==> forall v :: v in words ==> SEPARATOR !in v.text))
            && (name !in c.repeatableFlags && words != [] ==> Lookup(flags, name) == Some(words[|words| - 1]))
  {
    hide Filter, Collect, Occurrences, NormalForm, Reads, Texts, Split, Join, AfterValueless;
    var given := Given(c, base, parsed.commandPath);
    hide Given;
    NormalFlag(c, base, parsed, booleans, name);
    GivenIsText(c, base, parsed.commandPath, name);
    CollectIsFinal(map[], given, c.repeatableFlags, booleans, name);
    if name in c.repeatableFlags {
      assert Valueless !in Occurrences(given, name);
      RepeatedReadsBack(given, c.repeatableFlags, booleans, name);
    }
  }

  // ---------------------------------------------------------------- validation

  /** Names declared elsewhere in the command line interface. */
  datatype Declared = Declared(booleans: set<string>, globals: set<string>, globalValues: set<string>)

  predicate IsSpecAt(specs: seq<Spec>, path: seq<string>, i: nat) { i < |specs| && path in SpecPaths(specs[i]) }

  ghost predicate FirstSpec(specs: seq<Spec>, path: seq<string>, i: nat) {
    IsSpecAt(specs, path, i) && forall k: nat :: IsSpecAt(specs, path, k) ==> i <= k
  }

  predicate FlagPasses(c: Spec, name: string, value: Value, d: Declared) {
    && (name in d.globalValues ==> value.Str? && value.text != "")
    && (name in d.globals || name in c.allowedFlags || (name == "page" && c.browserPageTarget))
    && (name in Repeatable(Some(c)) && name !in d.booleans ==> value.Str?)
  }

  ghost predicate Accepts(specs: seq<Spec>, n: Normal, d: Declared) {
    && n.conflicts == []
    && exists i: nat :: FirstSpec(specs, n.path, i)
                        && forall name :: name in n.flags ==> FlagPasses(specs[i], name, n.flags[name], d)
  }

  /** validateCommandAndFlags, as the question whether it lets the command line through. */
  method ValidateCommandAndFlags(specs: seq<Spec>, n: Normal, d: Declared) returns (ok: bool)
    ensures ok <==> Accepts(specs, n, d)
  {
    hide FlagPasses;
    var i := 0;
    while i < |specs| && n.path !in SpecPaths(specs[i])
      invariant i <= |specs| && forall k: nat :: IsSpecAt(specs, n.path, k) ==> i <= k
    {
      i := i + 1;
    }
    if i == |specs| {
      return false;
    }
    assert FirstSpec(specs, n.path, i);
    if n.conflicts != [] {
      return false;
    }
    var names := n.flags.Keys;
    while names != {}
      invariant names <= n.flags.Keys
      invariant forall name :: name in n.flags.Keys - names ==> FlagPasses(specs[i], name, n.flags[name], d)
      decreases |names|
    {
      var name :| name in names;
      if !FlagPasses(specs[i], name, n.flags[name], d) {
        return false;
      }
      names := names - {name};
    }
    return true;
  }

  // Normalizing leaves a flag that was typed as it is.
  lemma TypedFlagStays(specs: seq<Spec>, parsed: Parsed, booleans: set<string>, n: Normal, name: string)
    requires NormalizedAs(specs, parsed, booleans, n) && name in parsed.flags
    ensures name in n.flags && n.flags[name] == parsed.flags[name]
  {
    hide NormalForm;
    if i: nat, j: nat :| FirstReads(specs, parsed.commandPath, i, j)
                         && n == NormalForm(specs[i], SpecPaths(specs[i])[j], parsed, booleans) {
      NormalFlag(specs[i], SpecPaths(specs[i])[j], parsed, booleans, name);
    }
  }

  /** From argv to the verdict: a string flag that repeats, by the rules of the command parsing finds and of
      the one validation finds, is refused if it comes without a value anywhere, whatever values come before and
      after it and whatever words stand behind the command. */
  lemma MissingValueIsRefused(argv: seq<string>, commandIndex: int, specs: seq<Spec>, d: Declared, parsed: Parsed,
                              best: Option<Spec>, n: Normal, name: string)
    requires ParsedAs(argv, specs, d.booleans, commandIndex, parsed, best) && NormalizedAs(specs, parsed, d.booleans, n)
    requires Valueless in Occurrences(Entries(Tokenize(argv, 0, false, d.booleans, commandIndex)), name)
    requires name !in d.booleans && name in Repeatable(best)
    requires forall i: nat :: FirstSpec(specs, n.path, i) ==> name in Repeatable(Some(specs[i]))
    ensures !Accepts(specs, n, d)
  {
    hide Collect, Occurrences, NormalizedAs, Tokenize, Entries, Repeatable, LongestPrefix;
    ValuelessIsNeverHidden(Entries(Tokenize(argv, 0, false, d.booleans, commandIndex)), Repeatable(best), d.booleans,
          name);
    TypedFlagStays(specs, parsed, d.booleans, n, name);
    assert n.flags[name] == Valueless;
    assert forall i: nat :: FirstSpec(specs, n.path, i) ==> !FlagPasses(specs[i], name, Valueless, d);
  }

  /** An accepted command line has lost no word to a flag: each name a word goes by holds what the words given to
      it make, and nothing else; of several words of one name that does not repeat, that is the last. */
  lemma AcceptedKeepsWords(specs: seq<Spec>, c: Spec, base: Path, parsed: Parsed, d: Declared, k: nat)
    requires Reads(c, base, parsed.commandPath) && k < |parsed.commandPath| - |base|
    requires Accepts(specs, NormalForm(c, base, parsed, d.booleans), d)
    ensures var given := Given(c, base, parsed.commandPath);
            var name := NameOf(c, k);
            && given[k] == Entry(name, Str(parsed.commandPath[|base| + k])) && name !in parsed.flags
            && Lookup(NormalForm(c, base, parsed, d.booleans).flags, name)
               == FinalOf(Occurrences(given, name), name in c.repeatableFlags, name in d.booleans)
  {
    hide NormalForm, FinalOf, Occurrences;
    var given, name := Given(c, base, parsed.commandPath), NameOf(c, k);
    assert given[k] in given;
    ConflictsAreTyped(c, base, parsed, d.booleans, name);
    NormalFlag(c, base, parsed, d.booleans, name);
  }
}

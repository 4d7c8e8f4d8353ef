/**
 The bundle guard for entries that run without Electron (config/build-plugins/plain-node-entry-guard.ts):
 which chunks an entry can reach over a possibly cyclic import graph, and a check of each of them that
 remembers, across all entries, the code it has already found free of Electron.
 */
module EntryGuard {
  import opened Common

  datatype Chunk = Chunk(fileName: string, imports: seq<string>, dynamicImports: seq<string>, code: string)

  /** The chunks of a bundle by file name; an import may name a file that is no chunk. */
  type Bundle = b: map<string, Chunk> | forall name :: name in b ==> b[name].fileName == name witness map[]

  function Imports(chunk: Chunk): seq<string> { chunk.imports + chunk.dynamicImports }

  // ---------------------------------------------------------------- reachability

  // A set of names that holds everything a search can meet.
  ghost predicate Covers(bundle: Bundle, names: set<string>) {
    forall name, i :: name in bundle && 0 <= i < |Imports(bundle[name])| ==> Imports(bundle[name])[i] in names
  }

  ghost function AllNames(bundle: Bundle, entry: string): set<string> {
    {entry} + set name, i | name in bundle && 0 <= i < |Imports(bundle[name])| :: Imports(bundle[name])[i]
  }

  /** The chunks a search still adds; the last name of the stack is taken next. */
  ghost function Collected(bundle: Bundle, stack: seq<string>, seen: set<string>, names: set<string>): seq<Chunk>
    requires Covers(bundle, names) && forall name :: name in stack ==> name in names
    decreases names - seen, |stack|
  {
    if stack == [] then []
    else
      var name, below := stack[|stack| - 1], stack[..|stack| - 1];
      if name in seen then Collected(bundle, below, seen, names)
      else
        assert name in names - seen;
        if name !in bundle then Collected(bundle, below, seen + {name}, names)
        else [bundle[name]] + Collected(bundle, below + Imports(bundle[name]), seen + {name}, names)
  }

  method CollectReachableChunks(entry: string, bundle: Bundle) returns (reachable: seq<Chunk>)
    ensures Covers(bundle, AllNames(bundle, entry))
    ensures reachable == Collected(bundle, [entry], {}, AllNames(bundle, entry))
  {
    ghost var names := AllNames(bundle, entry);
    var seen: set<string>, stack := {}, [entry];
    reachable := [];
    while stack != []
      invariant forall name :: name in stack ==> name in names
      invariant reachable + Collected(bundle, stack, seen, names) == Collected(bundle, [entry], {}, names)
      decreases names - seen, |stack|
    {
      var fileName := stack[|stack| - 1];
      stack := stack[..|stack| - 1];
      if fileName in seen {
        continue;
      }
      assert fileName in names - seen;
      seen := seen + {fileName};
      if fileName !in bundle {
        continue;
      }
      var chunk := bundle[fileName];
      ghost var below := stack;
      reachable := reachable + [chunk];
      var imports := Imports(chunk);
      for i := 0 to |imports|
        invariant stack == below + imports[..i]
      {
        stack := stack + [imports[i]];
      }
      assert imports[..|imports|] == imports;
    }
  }

  /** A route over known chunks, one import at a time. */
  ghost predicate IsRoute(bundle: Bundle, route: seq<string>, from: string, to: string) {
    && route != [] && route[0] == from && route[|route| - 1] == to
    && (forall i :: 0 <= i < |route| ==> route[i] in bundle)
    && forall i :: 0 <= i < |route| - 1 ==>
         var chunk := bundle[route[i]]; route[i + 1] in chunk.imports || route[i + 1] in chunk.dynamicImports
  }

  ghost predicate Reaches(bundle: Bundle, from: string, to: string) {
    exists route :: IsRoute(bundle, route, from, to)
  }

  /** Every chunk collected is known, had not been seen, and is collected once. */
  lemma {:induction false} CollectedOnce(bundle: Bundle, stack: seq<string>, seen: set<string>, names: set<string>)
    requires Covers(bundle, names) && forall name :: name in stack ==> name in names
    ensures var chunks := Collected(bundle, stack, seen, names);
            && (forall c :: c in chunks ==> c.fileName in bundle && bundle[c.fileName] == c && c.fileName !in seen)
            && forall i, j :: 0 <= i < j < |chunks| ==> chunks[i].fileName != chunks[j].fileName
    decreases names - seen, |stack|
  {
    if stack != [] {
      var name, below := stack[|stack| - 1], stack[..|stack| - 1];
      if name in seen {
        CollectedOnce(bundle, below, seen, names);
      } else {
        assert name in names - seen;
        if name !in bundle {
          CollectedOnce(bundle, below, seen + {name}, names);
        } else {
          CollectedOnce(bundle, below + Imports(bundle[name]), seen + {name}, names);
          var rest := Collected(bundle, below + Imports(bundle[name]), seen + {name}, names);
          assert forall i :: 0 <= i < |rest| ==> rest[i] in rest;
        }
      }
    }
  }

  ghost predicate Has(chunks: seq<Chunk>, name: string) { exists i :: 0 <= i < |chunks| && chunks[i].fileName == name }

  /** Nothing is collected that no name on the stack reaches. */
  lemma {:induction false} CollectedIsReached(bundle: Bundle, stack: seq<string>, seen: set<string>,
                                              names: set<string>, to: string)
    requires Covers(bundle, names) && forall name :: name in stack ==> name in names
    requires Has(Collected(bundle, stack, seen, names), to)
    ensures exists from :: from in stack && Reaches(bundle, from, to)
    decreases names - seen, |stack|
  {
    var name, below := stack[|stack| - 1], stack[..|stack| - 1];
    if name in seen {
      CollectedIsReached(bundle, below, seen, names, to);
    } else {
      assert name in names - seen;
      if name !in bundle {
        CollectedIsReached(bundle, below, seen + {name}, names, to);
      } else if to == name {
        assert IsRoute(bundle, [name], name, name);
        assert name in stack;
      } else {
        var rest := Collected(bundle, below + Imports(bundle[name]), seen + {name}, names);
        assert Has(rest, to) by {
          var all := Collected(bundle, stack, seen, names);
          var i :| 0 <= i < |all| && all[i].fileName == to;
          assert rest[i - 1] == all[i];
        }
        CollectedIsReached(bundle, below + Imports(bundle[name]), seen + {name}, names, to);
        var from :| from in below + Imports(bundle[name]) && Reaches(bundle, from, to);
        if from !in below {
          var route :| IsRoute(bundle, route, from, to);
          assert IsRoute(bundle, [name] + route, name, to);
          assert name in stack;
        }
      }
    }
  }

  // What the search has still to settle: a seen chunk's imports are seen or on the stack.
  ghost predicate Pending(bundle: Bundle, stack: seq<string>, seen: set<string>) {
    forall name, next :: name in seen && name in bundle && next in Imports(bundle[name]) ==>
          next in seen || next in stack
  }

  /** Everything a name on the stack or already seen leads to has been seen or is collected. */
  lemma {:induction false} ReachedIsCollected(bundle: Bundle, stack: seq<string>, seen: set<string>, names: set<string>,
                                              from: string, route: seq<string>, to: string)
    requires Covers(bundle, names) && forall name :: name in stack ==> name in names
    requires Pending(bundle, stack, seen) && (from in stack || from in seen) && IsRoute(bundle, route, from, to)
    ensures to in seen || Has(Collected(bundle, stack, seen, names), to)
    decreases names - seen, |stack|, |route|
  {
    if from in seen {
      if |route| > 1 {
        assert route[1] in Imports(bundle[route[0]]);
        assert IsRoute(bundle, route[1..], route[1], to);
        ReachedIsCollected(bundle, stack, seen, names, route[1], route[1..], to);
      }
    } else {
      var name, below := stack[|stack| - 1], stack[..|stack| - 1];
      assert forall n :: n in stack <==> n == name || n in below;
      if name in seen {
        ReachedIsCollected(bundle, below, seen, names, from, route, to);
      } else {
        assert name in names - seen;
        var next := if name in bundle then below + Imports(bundle[name]) else below;
        ReachedIsCollected(bundle, next, seen + {name}, names, from, route, to);
        if name in bundle {
          var rest, all := Collected(bundle, next, seen + {name}, names), Collected(bundle, stack, seen, names);
          assert all == [bundle[name]] + rest;
          if to == name { assert all[0].fileName == to; }
          if i :| 0 <= i < |rest| && rest[i].fileName == to { assert all[i + 1] == rest[i]; }
        }
      }
    }
  }

  /** On any import graph the search ends, and collects each known chunk that the entry reaches exactly
      once, and nothing else. */
  lemma CollectsReachable(bundle: Bundle, entry: string)
    ensures Covers(bundle, AllNames(bundle, entry))
    ensures var chunks := Collected(bundle, [entry], {}, AllNames(bundle, entry));
            && (forall i, j :: 0 <= i < j < |chunks| ==> chunks[i].fileName != chunks[j].fileName)
            && (forall c :: c in chunks ==> c.fileName in bundle && bundle[c.fileName] == c)
            && forall name :: Has(chunks, name) <==> Reaches(bundle, entry, name)
  {
    var names := AllNames(bundle, entry);
    CollectedOnce(bundle, [entry], {}, names);
    var chunks := Collected(bundle, [entry], {}, names);
    forall name ensures Has(chunks, name) <==> Reaches(bundle, entry, name) {
      if Has(chunks, name) {
        CollectedIsReached(bundle, [entry], {}, names, name);
      }
      if Reaches(bundle, entry, name) {
        var route :| IsRoute(bundle, route, entry, name);
        ReachedIsCollected(bundle, [entry], {}, names, entry, route, name);
      }
    }
  }

  // ---------------------------------------------------------------- the check

  /** The first chunk whose code requires Electron, checked afresh. */
  function FirstOffender(chunks: seq<Chunk>, offends: string -> bool): Option<string> {
    if chunks == [] then None
    else if offends(chunks[0].code) then Some(chunks[0].fileName)
    else FirstOffender(chunks[1..], offends)
  }

  /** assertNoElectronRequire: code already found clean for the same chunk is not checked again.  The
      memory is keyed by chunk, here by file name; it is trusted only for the very code it recorded. */
  method CheckChunks(chunks: seq<Chunk>, cache0: map<string, string>, offends: string -> bool)
      returns (offender: Option<string>, cache: map<string, string>)
    requires forall c :: c in cache0 ==> !offends(cache0[c])
    ensures forall c :: c in cache ==> !offends(cache[c])
    ensures offender == FirstOffender(chunks, offends)
  {
    cache := cache0;
    for i := 0 to |chunks|
      invariant forall c :: c in cache ==> !offends(cache[c])
      invariant FirstOffender(chunks[i..], offends) == FirstOffender(chunks, offends)
    {
      assert chunks[i..][0] == chunks[i] && chunks[i..][1..] == chunks[i + 1..];
      var chunk := chunks[i];
      if chunk.fileName in cache && cache[chunk.fileName] == chunk.code {
        continue;
      }
      if offends(chunk.code) {
        return Some(chunk.fileName), cache;
      }
      cache := cache[chunk.fileName := chunk.code];
    }
    return None, cache;
  }

  /** A guarded entry: its name, and its chunk's file when the bundle has one. */
  datatype Entry = Entry(name: string, file: Option<string>)
  datatype Failure = Failure(entry: string, chunk: string)

  /** What a guard without a memory would report: the first entry that reaches an offender, and which. */
  ghost function FirstFailure(entries: seq<Entry>, bundle: Bundle, offends: string -> bool): Option<Failure> {
    if entries == [] then None
    else
      var offender := EntryOffender(entries[0], bundle, offends);
      if offender.Some? then Some(Failure(entries[0].name, offender.value))
      else FirstFailure(entries[1..], bundle, offends)
  }

  ghost function EntryOffender(entry: Entry, bundle: Bundle, offends: string -> bool): Option<string> {
    if entry.file.None? then None
    else
      CollectsReachable(bundle, entry.file.value);
      FirstOffender(Collected(bundle, [entry.file.value], {}, AllNames(bundle, entry.file.value)), offends)
  }

  /** The guarded part of writeBundle: one memory for all entries. */
  method GuardBundle(entries: seq<Entry>, bundle: Bundle, offends: string -> bool) returns (failure: Option<Failure>)
    ensures failure == FirstFailure(entries, bundle, offends)
  {
    var electronFree: map<string, string> := map[];
    for i := 0 to |entries|
      invariant forall c :: c in electronFree ==> !offends(electronFree[c])
      invariant FirstFailure(entries[i..], bundle, offends) == FirstFailure(entries, bundle, offends)
    {
      assert entries[i..][0] == entries[i] && entries[i..][1..] == entries[i + 1..];
      if entries[i].file.None? {
        continue;
      }
      var chunks := CollectReachableChunks(entries[i].file.value, bundle);
      var offender;
      offender, electronFree := CheckChunks(chunks, electronFree, offends);
      if offender.Some? {
        return Some(Failure(entries[i].name, offender.value));
      }
    }
    return None;
  }

  lemma {:induction false} OffenderIsIn(chunks: seq<Chunk>, offends: string -> bool)
    ensures var first := FirstOffender(chunks, offends);
            && (first.None? ==> forall c :: c in chunks ==> !offends(c.code))
            && (first.Some? ==> exists c :: c in chunks && c.fileName == first.value && offends(c.code))
  {
    if chunks != [] {
      OffenderIsIn(chunks[1..], offends);
      assert forall c :: c in chunks <==> c == chunks[0] || c in chunks[1..];
    }
  }

  // Nothing that the entry reaches offends.
  ghost predicate IsClean(entry: Entry, bundle: Bundle, offends: string -> bool) {
    forall name :: entry.file.Some? && Reaches(bundle, entry.file.value, name)
                   ==> name in bundle && !offends(bundle[name].code)
  }

  /** The build passes the guard exactly when no guarded entry reaches a chunk that requires Electron. */
  lemma {:induction false} GuardPassesIffClean(entries: seq<Entry>, bundle: Bundle, offends: string -> bool)
    ensures FirstFailure(entries, bundle, offends) == None
       <==> forall entry, name :: entry in entries && entry.file.Some? && Reaches(bundle, entry.file.value, name)
                                  ==> name in bundle && !offends(bundle[name].code)
  {
    if entries != [] {
      var first := entries[0];
      GuardPassesIffClean(entries[1..], bundle, offends);
      assert forall e :: e in entries <==> e == first || e in entries[1..];
      EntryIsClean(first, bundle, offends);
    }
  }

  lemma EntryIsClean(entry: Entry, bundle: Bundle, offends: string -> bool)
    ensures EntryOffender(entry, bundle, offends) == None <==> IsClean(entry, bundle, offends)
  {
    if entry.file.Some? {
      var file := entry.file.value;
      CollectsReachable(bundle, file);
      var chunks := Collected(bundle, [file], {}, AllNames(bundle, file));
      OffenderIsIn(chunks, offends);
      forall name | Reaches(bundle, file, name)
        ensures exists c :: c in chunks && c.fileName == name && name in bundle && bundle[name] == c
      {
        var i :| 0 <= i < |chunks| && chunks[i].fileName == name;
        assert chunks[i] in chunks;
      }
      forall c | c in chunks ensures Reaches(bundle, file, c.fileName) && bundle[c.fileName] == c {
        var i :| 0 <= i < |chunks| && chunks[i] == c;
        assert Has(chunks, c.fileName);
      }
    }
  }

  // The entry reaches the chunk, which offends.
  ghost predicate ReachesOffender(entry: Entry, chunk: string, bundle: Bundle, offends: string -> bool) {
    entry.file.Some? && Reaches(bundle, entry.file.value, chunk) && chunk in bundle && offends(bundle[chunk].code)
  }

  /** What a failing build names: the first entry that reaches such a chunk, and a chunk that it reaches. */
  lemma {:induction false} FirstFailureIs(entries: seq<Entry>, bundle: Bundle, offends: string -> bool)
    ensures var failure := FirstFailure(entries, bundle, offends);
            failure.Some? ==>
              exists k :: && 0 <= k < |entries| && entries[k].name == failure.value.entry
                          && ReachesOffender(entries[k], failure.value.chunk, bundle, offends)
                          && forall j :: 0 <= j < k ==> IsClean(entries[j], bundle, offends)
  {
    if entries != [] && FirstFailure(entries, bundle, offends).Some? {
      var failure := FirstFailure(entries, bundle, offends).value;
      EntryIsClean(entries[0], bundle, offends);
      if EntryOffender(entries[0], bundle, offends).Some? {
        OffenderIsReached(entries[0], bundle, offends);
        assert entries[0].name == failure.entry;
      } else {
        var rest := entries[1..];
        FirstFailureIs(rest, bundle, offends);
        assert IsClean(entries[0], bundle, offends);
        hide FirstFailure, EntryOffender, IsClean, ReachesOffender;
        var k :| && 0 <= k < |rest| && rest[k].name == failure.entry
                 && ReachesOffender(rest[k], failure.chunk, bundle, offends)
                 && forall j :: 0 <= j < k ==> IsClean(rest[j], bundle, offends);
        assert entries[k + 1] == rest[k];
        forall j | 0 <= j < k + 1 ensures IsClean(entries[j], bundle, offends) {
          if j > 0 { assert entries[j] == rest[j - 1]; }
        }
      }
    }
  }

  lemma OffenderIsReached(entry: Entry, bundle: Bundle, offends: string -> bool)
    requires EntryOffender(entry, bundle, offends).Some?
    ensures ReachesOffender(entry, EntryOffender(entry, bundle, offends).value, bundle, offends)
  {
    hide Reaches, Collected;
    var file := entry.file.value;
    CollectsReachable(bundle, file);
    var chunks := Collected(bundle, [file], {}, AllNames(bundle, file));
    OffenderIsIn(chunks, offends);
    var c :| c in chunks && c.fileName == EntryOffender(entry, bundle, offends).value && offends(c.code);
    var i :| 0 <= i < |chunks| && chunks[i] == c;
    assert Has(chunks, c.fileName);
  }
}

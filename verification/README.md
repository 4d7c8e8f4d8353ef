# Verified models of Orca's small engines

Dafny models of the parts of Orca in which something has to stay exact while state changes: the rendered
accessibility tree whose numbers are later used to act on elements, the keyboard map that has to come
back, the clipboard loop that owns file descriptors, the command lines that are printed and read again.

Each module follows one source file, in its form.  A class or a loop there is a class or a loop here; its
contract ties the new state to a function of the old one, and the lemmas are about that function.
Everything outside (AT-SPI, X11, the compositor, `poll`, `write`, the clock, the automation host) is an
input, so the results hold for whatever it does.

| module | engine |
|---|---|
| TreeRender | the tree walk with elision, caps and tab compaction in place |
| BoundedSearch | the depth- and node-limited search on a stack |
| FocusedText | replacing a selection by insert, read back, delete, read back |
| Keymap | binding missing keys and restoring the map on every exit |
| CommandLine, CommandGrammar, ShellReading | the recovery-command tokenizer and its POSIX printer, the lines it reads, and what a shell reads |
| ClipboardTransfers, ClipboardDelivery, ClipboardText | eight transfers, deadlines and descriptors under one poll loop; what it delivers; its text |
| Paging | the paging client, and the host's pager |
| Arguments, Positionals | argv to flags, positionals, normalization, validation |
| Calendar | the due-date check through day numbers (ECMA-262, section 21.4) |
| EditDistance, Suggestions | edit distance, alias families, did-you-mean |
| EntryGuard | bundle reachability with a memory shared between entries |
| TreeQuery | one-pass ancestor closure of a filtered outline |
| LocaleSubset | the named subset of a nested catalog |
| CheckoutSelection | the innermost checkout around a directory |
| ShellWords, CodexCommand, CodexLaunch | classifying a codex command line, from its text and from its words |
| CommandSpecs | how a command declares itself |
| Common | Option, quotes and blanks, and filtering |

`dafny verify dfyconfig.toml` checks everything.

## What does not hold

Six properties one might expect are false of the code.  Each is stated with an input that shows it and
with the exact condition under which it holds.

- The bounded search is not always the recursive preorder search within the depth cap.  It tests the same
  nodes in the same order, for every budget, if and only if no two walks within the cap end in one node
  (BoundedSearch.SearchIsRecursiveIffOneWalkEach), so on trees (BoundedSearch.TreeSearch).  It returns the
  same node, whatever is looked for and for every budget, if and only if the recursive search meets every
  node before it meets any twice (BoundedSearch.ReturnsTheSameIffRepeatsLast).  A node first met at the cap
  of 64 is never expanded, even if it is met again nearer to the root, and so a node two steps from the root
  can be missed (BoundedSearch.SharedNodesAreCut).
- Restoring the keyboard map can fail: it does if and only if a body that raised left keys down and the
  XTest library cannot be loaded, and then the map stays changed if and only if the text needed a key it did
  not have (Keymap.Session.Run, RestoreCanFail, NotRestoredButUnchanged).
- A POSIX shell need not run a printed recovery command with its arguments.  It does if and only if none of
  them has a NUL and the first is not printed bare as an assignment, a word that the standard lets a shell
  take for one, a reserved word, an alias or a job (ShellReading.ShellReadsTheSame, AssignmentIsTaken,
  MaybeAssignmentIsTaken, ReservedIsTaken, NulIsUnread).
- Real dates before the year 100 are refused (Calendar.EarlyYearsAreRefused); these are all the real
  dates that are (Calendar.AcceptsExactlyRealDates).
- Which workspaces are offered around a directory can depend on the order of the catalog
  (CheckoutSelection.OrderCanMatter).  It does not if and only if the innermost rows of the caller are on one
  host or, if the caller has none, every workspace of one innermost checkout is one of every other
  (CheckoutSelection.WorkspacesIgnoreOrderIffFree).
- On the level of the command line, an environment prefix and global options can change how a codex command
  is classified.  If none of their words is empty they do not if and only if the word that decides is not
  pushed out of the first 32 (CodexLaunch.PrefixAndOptionsChangeNothingIff, LongRunChangesVerdict).  Empty
  words are lost: an option takes the next word for its value (CodexLaunch.EmptyValueChangesNothingIff,
  EmptyValueChangesVerdict), and -u the next word for its name (CodexLaunch.PrefixLeads).  On the level of words options never
  change it (CodexCommand.GlobalOptionsChangeNothing).

## Model

| member | source | states |
|---|---|---|
| TreeRender.RenderIsSound | native/computer-use-linux/runtime.py:409-511 | for every finite tree, with or without compaction, the finished rendering has strictly ascending record numbers below the next one, at most 1200 records, numbered lines matching records one for one, next number = records shown + all "omitted" counts, and every record (shown or compacted away) is found again by its path |
| TreeRender.WalkKeepsSound | native/computer-use-linux/runtime.py:464-508 | the same holds after every step of the walk started from any sound state, so also between nested compactions |
| TreeRender.WalkKidsKeepsSound | native/computer-use-linux/runtime.py:482-506 | and after each child of a node |
| TreeRender.CompactKeepsSound | native/computer-use-linux/runtime.py:514-545 | compacting the tabs anywhere in a sound rendering leaves it sound, and only inactive tabs lose their record |
| TreeRender.CompactMatches | native/computer-use-linux/runtime.py:531-545 | after compaction the remaining numbered lines are still the remaining records in order, and the note counts exactly what went |
| TreeRender.CompactFoldsLongRuns | native/computer-use-linux/runtime.py:514-545 | by positions: if at least ten tabs of the depth stand from the start on, some active and some not, the lines before the first are as they were, a note with the number of inactive ones stands in its place, every other line but those follows in order, and exactly their records are lost; in every other case nothing changes |
| TreeRender.OmittedNamesLines | native/computer-use-linux/runtime.py:531-545 | the set of omitted numbers names exactly the deleted lines, wherever else in the output a line stands |
| TreeRender.FindKid | native/computer-use-linux/runtime.py:809-815 | a path extended by a child index finds that child of the node the path finds |
| TreeRender.UntruncatedNumbersAll | native/computer-use-linux/runtime.py:464-508 | a rendering that is not marked truncated has given a number to every visible node, in preorder |
| TreeRender.UncompactedIsCappedPreorder | native/computer-use-linux/runtime.py:464-506 | without compaction the walk shows exactly the first visible nodes in preorder, of depth at most 64, that fit under the node cap |
| TreeRender.VisibleIff | native/computer-use-linux/runtime.py:459-508 | the visible nodes: exactly those that are no wrappers (nothing to tell and at most one child) and that a route past no summarized or suppressed node leads to, each as deep as nodes are shown above it |
| TreeRender.Renderer.WalkNode | native/computer-use-linux/runtime.py:464-508 | the recursive walk over the shared lists, counter and flags computes the specified state |
| TreeRender.Renderer.WalkChildren | native/computer-use-linux/runtime.py:482-506 | so does the loop over the children |
| TreeRender.Renderer.CompactTabs | native/computer-use-linux/runtime.py:514-545 | in-place compaction of the shared lists computes the specified state |
| TreeRender.Renderer.DeleteInactive | native/computer-use-linux/runtime.py:531-541 | deleting from the last tab up leaves exactly the kept lines and collects exactly the deleted numbers |
| BoundedSearch.FirstDescendant | native/computer-use-linux/runtime.py:656-676 | the explicit stack returns the first passing node of the bounded search order, having tested exactly the nodes up to it |
| BoundedSearch.OrderIsBounded | native/computer-use-linux/runtime.py:656-676 | on any graph, cycles included, no node is tested twice and at most max_nodes are tested |
| BoundedSearch.OrderIsReached | native/computer-use-linux/runtime.py:669-675 | every tested node lies within max_depth steps of the root |
| BoundedSearch.FoundIsReached | native/computer-use-linux/runtime.py:656-676 | a node that is returned passes and lies within max_depth steps |
| BoundedSearch.TreeSearch | native/computer-use-linux/runtime.py:656-676 | on a finite tree the search equals a recursive preorder search limited to max_depth and the first max_nodes nodes |
| BoundedSearch.SearchIsRecursiveIffDistinct | native/computer-use-linux/runtime.py:656-676 | under any budget the search is the recursive search of everything within the depth cap if and only if that one meets no node twice within the budget |
| BoundedSearch.SearchIsRecursiveIffOneWalkEach | native/computer-use-linux/runtime.py:656-676 | it is so under every budget if and only if no two walks within the depth cap end in one node |
| BoundedSearch.ReturnsTheSameIffRepeatsLast | native/computer-use-linux/runtime.py:656-676 | the node returned is that of the recursive search, whatever is looked for and under every budget, if and only if the recursive search meets every node before it meets any twice |
| BoundedSearch.DiamondReturnsTheSame | native/computer-use-linux/runtime.py:656-676 | a graph in which two walks meet and that condition holds |
| BoundedSearch.DistinctIffOneWalkEach | native/computer-use-linux/runtime.py:656-676 | the recursive search meets no node twice exactly when no two walks end in one node |
| BoundedSearch.UnfoldIsReached | native/computer-use-linux/runtime.py:656-676 | it meets exactly the nodes that walks within the depth cap end in |
| BoundedSearch.SharedNodesAreCut | native/computer-use-linux/runtime.py:656-670 | at the depth cap of 64 that every call uses: a graph with a node two steps from the root that is not tested under any budget |
| FocusedText.TextNode.InsertFocusedText | native/computer-use-linux/runtime.py:1255-1292 | None means nothing was changed; an action means the text is the splice with the caret behind the value; a failed insert leaves the selected text; a failed deletion leaves one of two texts; a cooperating provider gets a verified action; the caret move only has to be honest where one is asked for |
| FocusedText.InsertThenDelete | native/computer-use-linux/runtime.py:1273-1284 | inserting at the end of the selection and then deleting the selection is the splice, and every length and slice that is read back is the right one |
| FocusedText.Target | native/computer-use-linux/runtime.py:1237-1252 | a selection that is answered lies inside the text |
| FocusedText.TargetIs | native/computer-use-linux/runtime.py:1237-1252 | which place is answered: the one selection from its start to its end, or the caret where there is none |
| Keymap.Session.Run | native/computer-use-linux/runtime.py:1045-1143 | how it ends, which map the body sees, and map and keys afterwards, for a setup cut short anywhere, a body that raises and a SIGTERM during the exit: the map equals the original if and only if the keys of a body that raised can be released or the text needed no key the map did not have |
| Keymap.Session.RestoreOnExit | native/computer-use-linux/runtime.py:1139-1143 | with the retry after SIGTERM, restoring succeeds exactly when releasing is possible or not needed, whenever the signal comes |
| Keymap.Session.Restore | native/computer-use-linux/runtime.py:1079-1101 | restoring puts the original map back and is idempotent; it fails, changing nothing, exactly when keys of an interrupted run are down and the XTest library cannot be loaded |
| Keymap.Session.Install | native/computer-use-linux/runtime.py:1131-1134 | a run cut short between any two steps has changed only codes already written down |
| Keymap.Session.constructor | native/computer-use-linux/runtime.py:1070-1072 | the session starts with nothing changed |
| Keymap.PatchedIsNew | native/computer-use-linux/runtime.py:1121-1134 | the map the body sees differs from the one that was read exactly when a key was missing |
| Keymap.RestoreCanFail | native/computer-use-linux/runtime.py:1085-1094 | a run from a given map that ends without restoring and leaves another map: a body that raises with a key down, and no library to release it |
| Keymap.NotRestoredButUnchanged | native/computer-use-linux/runtime.py:1085-1094 | a run that ends the same way and leaves the map as it was, as no key was missing |
| Keymap.InstalledServes | native/computer-use-linux/runtime.py:1121-1135 | during the body every needed non-zero key is bound, distinct missing keys have distinct codes that were empty and no modifiers, and no other code has changed |
| Keymap.InstalledAt | native/computer-use-linux/runtime.py:1131-1134 | each missing key is bound at its own code |
| Keymap.InstalledElsewhere | native/computer-use-linux/runtime.py:1131-1134 | and every other code is as it was |
| Keymap.SetupRefusesIff | native/computer-use-linux/runtime.py:1120-1143 | the setup refuses exactly when more keys are missing than codes are empty and no modifiers, a missing key is zero, or keys are missing and the focused text cannot be read; it reaches the body exactly when it does not refuse and is not cut before |
| CommandLine.RoundTrip | src/cli/orchestration-mutation-recovery.ts:121-182 | parseCommandLine of the posix renderCommand gives back every non-empty list of arbitrary strings, and nothing for the empty list |
| CommandLine.ParseCommandLine | src/cli/orchestration-mutation-recovery.ts:121-172 | the tokenizer loop computes the specified reading |
| CommandLine.ArgumentIsRead | src/cli/orchestration-mutation-recovery.ts:220-225 | a quoted argument is read as one part, whatever it contains and whatever follows |
| CommandGrammar.ParseIsMeaning | src/cli/orchestration-mutation-recovery.ts:121-172 | a line written as any row of bare characters, escapes, single-quoted and double-quoted pieces and blanks is read as its words, empty quoted ones kept; nothing is read exactly when a quote is left open or there is no word |
| CommandGrammar.EveryLine | src/cli/orchestration-mutation-recovery.ts:121-172 | every text is such a row |
| CommandGrammar.EveryTextIsRead | src/cli/orchestration-mutation-recovery.ts:121-172 | so every text whatever is read as what it means |
| ShellReading.ShellReadsTheSame | src/cli/orchestration-mutation-recovery.ts:174-225 | a shell that follows the Shell Command Language, whatever else it reserves and whatever its aliases, runs a printed command with exactly those arguments if and only if none has a NUL and the first is not printed bare as an assignment, a word that may be one, a reserved word, an alias or a job |
| ShellReading.ArgumentIsField | src/shared/shell/launch/shell-argument-quoting.ts:20-22 | in any context one printed argument becomes one field, bare from end to end or quoted from its start |
| ShellReading.AssignmentIsTaken | src/cli/orchestration-mutation-recovery.ts:220-225 | a command that starts with A=b is read as an assignment and the rest of it |
| ShellReading.MaybeAssignmentIsTaken | src/cli/orchestration-mutation-recovery.ts:220-225 | of a command that starts with a+=b nothing is said |
| ShellReading.NulIsUnread | src/cli/orchestration-mutation-recovery.ts:220-225 | nor of one with a NUL in it |
| ShellReading.ReservedIsTaken | src/cli/orchestration-mutation-recovery.ts:220-225 | a command named while is not read as a command |
| CommandLine.RenderInjective | src/cli/orchestration-mutation-recovery.ts:174-182 | two argument lists never print alike |
| ShellReading.ResolvedCommand | src/cli/orchestration-mutation-recovery.ts:184-195 | resolving replaces exactly a leading `orca`, keeps all other arguments, leaves other lines alone and is idempotent; a shell reads the same arguments if and only if none of them has a NUL and the executable's name is not taken |
| ClipboardTransfers.ServerIsSound | native/wayland-clipboard/wayland-clipboard.c:132-144 | in every run, under any events, poll answers, write results and clock: each descriptor's bytes are the text prefix as long as its offset, each sits in exactly one slot or was closed exactly once, and nothing was written on readiness of an earlier occupant |
| ClipboardTransfers.RunKeepsSound | native/wayland-clipboard/wayland-clipboard.c:215-265 | any run of the loop from a sound state ends in a sound state |
| ClipboardTransfers.RoundKeepsSound | native/wayland-clipboard/wayland-clipboard.c:216-262 | so does one round with its dispatches and its pass |
| ClipboardTransfers.ServeKeepsSound | native/wayland-clipboard/wayland-clipboard.c:246-261 | so does one turn for one slot |
| ClipboardTransfers.AcceptKeepsSound | native/wayland-clipboard/wayland-clipboard.c:132-144 | accepting or refusing a descriptor keeps soundness and never touches an occupied slot |
| ClipboardTransfers.AcceptTakesFirstIdle | native/wayland-clipboard/wayland-clipboard.c:132-144 | a descriptor that can be made non-blocking takes the first idle slot, at offset 0 with two seconds from now, and is not closed; otherwise the slots are unchanged and it is closed once |
| ClipboardTransfers.TurnDecides | native/wayland-clipboard/wayland-clipboard.c:246-261 | a transfer is open after its turn exactly if its deadline has not come, nothing is wrong with the descriptor and, if it was ready, the write did not fail and bytes are left; its offset and deadline then |
| ClipboardTransfers.RoundGoesOn | native/wayland-clipboard/wayland-clipboard.c:216-244 | when a round goes on and with which code the loop is left otherwise |
| ClipboardTransfers.CloseKeepsSound | native/wayland-clipboard/wayland-clipboard.c:210-213 | closing a transfer closes its descriptor once and frees the slot |
| ClipboardTransfers.WriteKeepsSound | native/wayland-clipboard/wayland-clipboard.c:253-259 | a partial write appends exactly the next bytes of the text |
| ClipboardTransfers.DispatchKeepsSound | native/wayland-clipboard/wayland-clipboard.c:244 | dispatching between poll and the pass keeps every occupied slot as it was |
| ClipboardDelivery.DeliversEverything | native/wayland-clipboard/wayland-clipboard.c:245-262 | a reader that is ready before its deadline in every round and takes at least a byte gets the whole text and one close, within as many rounds as bytes are left |
| ClipboardDelivery.RoundAccepts | native/wayland-clipboard/wayland-clipboard.c:216-262 | a round that brings a descriptor while a slot is idle leaves it in the first such slot, served from the start of the text |
| ClipboardDelivery.SendIsDelivered | native/wayland-clipboard/wayland-clipboard.c:132-144 | from the paste on, in any sound state with an idle slot: the whole text and one close, if the reader is ready and takes at least a byte in every round |
| ClipboardDelivery.FirstPasteIsDelivered | native/wayland-clipboard/wayland-clipboard.c:215-265 | so from the start of the server with the first paste |
| ClipboardTransfers.PassExpires | native/wayland-clipboard/wayland-clipboard.c:247-261 | after a pass no transfer is open that is expired, broken or complete, and an open one has progressed or is unchanged |
| ClipboardTransfers.TimeoutIsNearest | native/wayland-clipboard/wayland-clipboard.c:227-235 | the poll timeout is -1 exactly when no transfer is active, and otherwise the time to the nearest deadline |
| ClipboardTransfers.TimeoutInRange | native/wayland-clipboard/wayland-clipboard.c:227-235 | in every sound state it is -1 or lies in 0..2000 |
| ClipboardTransfers.Server.SourceSend | native/wayland-clipboard/wayland-clipboard.c:132-144 | the loop over the slot array accepts or closes as specified |
| ClipboardTransfers.Server.CloseSlot | native/wayland-clipboard/wayland-clipboard.c:210-213 | closing updates the array as specified |
| ClipboardTransfers.Server.ServeSlot | native/wayland-clipboard/wayland-clipboard.c:246-261 | one turn on the array computes the specified state |
| ClipboardTransfers.Server.ServeAll | native/wayland-clipboard/wayland-clipboard.c:245-262 | so does a pass over the eight slots |
| ClipboardTransfers.Server.PollTimeout | native/wayland-clipboard/wayland-clipboard.c:227-235 | the timeout loop computes the specified minimum |
| ClipboardTransfers.Server.ServeRound | native/wayland-clipboard/wayland-clipboard.c:216-262 | one round computes the specified state and decides to go on or to leave as specified |
| ClipboardTransfers.Server.ServeRounds | native/wayland-clipboard/wayland-clipboard.c:215-265 | the whole loop computes the specified run |
| ClipboardText.ReadText | native/wayland-clipboard/wayland-clipboard.c:197-208 | the whole input if it fits into 16 MiB, and nothing otherwise, however the input is cut into reads |
| Paging.ReadsTheWholeList | src/cli/automation-runs-paging.ts:54-75 | against the host with an unchanging history, which may refuse pages but never one of size one, exactly the whole list in order |
| Paging.ReadsEverythingThatStays | src/cli/automation-runs-paging.ts:54-75 | against a history changing between calls: no error, newest first, each run once, nothing invented, and every run that stays is read |
| Paging.ReadFromIsComplete | src/cli/automation-runs-paging.ts:59-74 | the same from any cursor on, for any page size and any set of seen cursors behind it |
| Paging.ReadAllAutomationRuns | src/cli/automation-runs-paging.ts:54-75 | the loop computes that reading and ends against every host with finitely many cursors |
| Paging.AnswersAreTold | src/cli/automation-runs-paging.ts:29-75 | against every host, by the calls made (cursor, size, answer): all pages answered, in order, if and only if no call failed with another error and none of size one was refused; otherwise thrown, as a refusal exactly when the last call is one; a size is the last one or its half after a refusal, a cursor the one the last page gave |
| Paging.ReadFromTells | src/cli/automation-runs-paging.ts:54-75 | the same from any cursor, size and earlier cursors |
| Paging.ReadShrinkingPage | src/cli/automation-runs-paging.ts:29-44 | the halving loop computes the page that gets through, or the error |
| Paging.AtMostFourRefusals | src/cli/automation-runs-paging.ts:29-44 | a whole run absorbs at most four size refusals (25, 12, 6, 3, 1) |
| Paging.RunAbsorbs | src/cli/automation-runs-paging.ts:29-44 | from any limit on, at most as many refusals as the limit can be halved |
| Paging.PageStartsPastCursor | src/shared/automation-run-cursor.ts:32-51 | a page starts at the first run past the cursor, also when the boundary run is gone |
| Paging.PaginateIsGood | src/shared/automation-run-cursor.ts:54-67 | a page is a newest-first slice past the cursor, and its next cursor is the boundary of what it covered |
| Arguments.PlainArgvReadsBack | src/cli/args.ts:67-124 | any mix of positionals and --name=value tokens reads back: positionals in order, the last value of a plain flag, the non-empty values in order of a repeatable one |
| Arguments.TokensSpellArgv | src/cli/args.ts:76-110 | the scan loses and reorders nothing: its tokens spell every argv again |
| Arguments.PlainTokensAreRead | src/cli/args.ts:76-91 | bare words and --name=value tokens are read as written wherever they stand |
| Arguments.TokensAreReadIffFit | src/cli/args.ts:76-110 | any list of tokens of all four kinds is read as written if and only if each fits its place: a flag takes the next word unless it is boolean, stands right before the command, or an option or nothing follows |
| Arguments.ArgvReadsBack | src/cli/args.ts:67-124 | any tokens that fit read back through parser and readers, with values assigned, following or missing: positionals in order, the last value of a plain flag, the values of a repeatable one in order or its rejection |
| Arguments.OccurrencesAreWritten | src/cli/args.ts:76-110 | the occurrences of a flag are those written, in order, valueless exactly where it stands alone |
| Arguments.CollectIsFinal | src/cli/args.ts:29-45 | the incremental collection gives every flag the value defined from all its occurrences at once |
| Arguments.ValuelessIsNeverHidden | src/cli/args.ts:36-39 | a repeatable string flag is valueless in the end if and only if any occurrence was |
| Arguments.RepeatedReadsBack | src/cli/flags.ts:94-102 | repeated values read back as the non-empty ones in order if and only if none contains the separator |
| Arguments.SpecForPathPrefix | src/cli/args.ts:48-65 | the longest path that prefixes the words, the first declared among equals |
| Arguments.ScanArgv | src/cli/args.ts:76-110 | the scanning loop computes the specified tokens |
| Arguments.NamesHaveNoEquals | src/cli/args.ts:82-88 | no scanned flag has an equals sign in its name |
| Arguments.ParseArgs | src/cli/args.ts:67-124 | parsing computes the positionals and the collected flags under the rules of the best matching command |
| Positionals.NormalizeCommandPositionals | src/cli/args.ts:174-210 | the first command and path that can read the words decide, or nothing changes |
| Positionals.SetPositionals | src/cli/args.ts:195-207 | the loop over the words gives the specified flags and conflicts |
| Positionals.NormalFlag | src/cli/args.ts:199-206 | flag by flag: a typed flag keeps its value, any other has what the words given to its name make of it |
| Positionals.WordsGetNames | src/cli/args.ts:195-199 | the k-th word behind the path goes to the k-th declared name, and what is left over to the last of a variadic command |
| Positionals.ConflictsAreTyped | src/cli/args.ts:202 | a word conflicts exactly when its name was typed as a flag too |
| Positionals.WordsMeanFlags | src/cli/args.ts:174-210 | words behind a command give a flag the value that --name=word gives it on another command line, under the commands parsing finds for the two, if and only if they are at most one or the two rules for repeating agree |
| Positionals.WordsAreReadBack | src/cli/args.ts:199-206 | all words of a repeatable name are read back (exactly when none contains the separator), only the last of any other |
| Positionals.ValidateCommandAndFlags | src/cli/args.ts:219-264 | accepts exactly the normalized lines with a known command, no conflict and only passing flags |
| Positionals.MissingValueIsRefused | src/cli/args.ts:36-39 | from argv to the verdict: a string flag that repeats for the commands that parsing and validating find is refused if it comes without a value anywhere, whether or not normalizing rewrites the line |
| Positionals.TypedFlagStays | src/cli/args.ts:199-206 | normalizing never changes a flag that was typed |
| Positionals.AcceptedKeepsWords | src/cli/args.ts:237-244 | an accepted line has lost no word to a flag: each name holds what the words given to it make |
| Calendar.AcceptsExactlyRealDates | src/cli/linear-request-builders.ts:85-100 | accepted if and only if the shape is YYYY-MM-DD, the date is real in the proleptic Gregorian calendar and the year is at least 100; then returned unchanged |
| Calendar.WrittenDateIsRead | src/cli/linear-request-builders.ts:85-92 | a date written as YYYY-MM-DD is read as that year, month and day |
| Calendar.WrittenDateIsAcceptedIffReal | src/cli/linear-request-builders.ts:85-100 | so of the dates that can be written exactly the real ones from the year 100 on are accepted |
| Calendar.ReadsBackIffReal | src/cli/linear-request-builders.ts:90-98 | for any three numbers, overflowing months and days included, the round trip through day numbers succeeds exactly for those dates |
| Calendar.RealDateReadsBack | src/cli/linear-request-builders.ts:91-98 | a real date survives the way to a day number and back |
| Calendar.DayReadsBack | src/cli/linear-request-builders.ts:91-98 | every day number is one real date, and its day number is that number |
| Calendar.YearLength | src/cli/linear-request-builders.ts:91 | the closed form for the first day of a year steps by 365 or 366 |
| Calendar.EarlyYearsAreRefused | src/cli/linear-request-builders.ts:91-98 | a real date of the year 50 that is refused |
| EditDistance.Levenshtein | src/shared/edit-distance.ts:1-23 | the two-row loop computes the recursive distance |
| EditDistance.DistanceIsLeast | src/shared/edit-distance.ts:1-23 | that distance is the least cost of any edit script between the two strings |
| EditDistance.NoScriptIsCheaper | src/shared/edit-distance.ts:1-23 | no script is cheaper |
| EditDistance.CheapestScript | src/shared/edit-distance.ts:1-23 | and one has that cost |
| EditDistance.DistanceBounds | src/cli/command-suggestion.ts:33 | it is at least the difference in length, and zero only for equal strings |
| Suggestions.FamiliesAreComponents | src/cli/command-suggestion.ts:15-28 | two verbs share a family exactly when a chain of destructive commands links them, and every member maps to the same set |
| Suggestions.FamiliesIgnoreOrder | src/cli/command-suggestion.ts:15-28 | the families do not depend on the order of the commands |
| Suggestions.DestructiveVerbFamilies | src/cli/command-suggestion.ts:15-28 | the merging loop computes them |
| Suggestions.LengthsLoseNoIntent | src/cli/command-suggestion.ts:30-40 | the length check before the distance changes no answer |
| Suggestions.LengthsLoseNoScore | src/cli/command-suggestion.ts:83-85 | nor does the one in suggestCommands: the ranked candidates are those of computing every distance |
| Suggestions.BestAreNearest | src/cli/command-suggestion.ts:47-53 | at most three, sorted, all at distance 1 to 3, and none left out that comes before one kept |
| Suggestions.SortSorts | src/cli/command-suggestion.ts:50 | the order by distance and label is sorted and a permutation |
| Suggestions.LabelsAreOffered | src/cli/command-suggestion.ts:61-82 | a label is offered, once, if and only if a visible command has a path of the depth typed that spells it and, if destructive, a verb linked to its own is within one edit of the last word |
| Suggestions.DestructionIsIntended | src/cli/command-suggestion.ts:56-89 | a suggestion that only destructive commands spell was meant: a verb linked to one of theirs is within one edit of the last word |
| Suggestions.SuggestCommands | src/cli/command-suggestion.ts:56-89 | the loops suggest what scoring every candidate and ranking would |
| EntryGuard.CollectsReachable | config/build-plugins/plain-node-entry-guard.ts:95-118 | on any import graph the search ends with each known chunk reachable from the entry exactly once and nothing else |
| EntryGuard.CollectReachableChunks | config/build-plugins/plain-node-entry-guard.ts:95-118 | the worklist loop computes that search |
| EntryGuard.CheckChunks | config/build-plugins/plain-node-entry-guard.ts:120-142 | with any memory of clean code the first offending chunk is the one an unmemoized check finds |
| EntryGuard.GuardBundle | config/build-plugins/plain-node-entry-guard.ts:308-333 | with one memory for all entries the guard fails for the same first entry and chunk as without |
| EntryGuard.GuardPassesIffClean | config/build-plugins/plain-node-entry-guard.ts:308-333 | it passes if and only if no guarded entry reaches a chunk that requires electron |
| EntryGuard.FirstFailureIs | config/build-plugins/plain-node-entry-guard.ts:308-333 | a failing build names the first entry that reaches an offending chunk, and an offending chunk that it reaches |
| TreeQuery.WithAncestors | src/cli/computer-tree-query.ts:40-59 | the one-pass path array keeps exactly the specified set, for any depths, jumps included |
| TreeQuery.KeepsShownAndAncestors | src/cli/computer-tree-query.ts:40-59 | that set is the shown elements and all their ancestors, transitively |
| TreeQuery.AboveIsAncestor | src/cli/computer-tree-query.ts:46-56 | standing open on the path is the same as being an ancestor by nearest shallower elements |
| TreeQuery.Query | src/cli/computer-tree-query.ts:13-33 | filtering prints the kept elements in order |
| TreeQuery.QueriedIs | src/cli/computer-tree-query.ts:23-25 | each shown element is printed with all its lines, each ancestor with its first |
| TreeQuery.ShownAreFirst | src/cli/computer-tree-query.ts:16-20 | shown are matches, as many as the cap allows, and before every other match |
| TreeQuery.QueryIsIdempotent | src/cli/computer-tree-query.ts:13-33 | filtering the kept elements again with the same query and cap keeps all of them |
| LocaleSubset.PicksExactlyNamed | config/build-plugins/main-locale-subset.ts:36-52 | the subset holds exactly the named keys in order with their texts, and no empty subtree at any depth |
| LocaleSubset.SubsetKeys | config/build-plugins/main-locale-subset.ts:132-137 | the keys of the subset are the keys of the catalog filtered by isNamed |
| LocaleSubset.PluralIsStripped | config/build-plugins/main-locale-subset.ts:10-31 | of a key in one of the six plural forms the base is left, and of any other all of it |
| LocaleSubset.SubsetIsStable | config/build-plugins/main-locale-subset.ts:36-52 | picking again from the subset gives the same catalog |
| LocaleSubset.BuildEndIsExact | config/build-plugins/main-locale-subset.ts:117-127 | the check passes exactly when every English key named outside is in the shipped subset |
| LocaleSubset.PickNamedEntries | config/build-plugins/main-locale-subset.ts:36-52 | the recursive loop computes the subset |
| CheckoutSelection.SelectEnclosingRepo | src/cli/caller-host-worktree-selection.ts:188-232 | the loops answer with the one innermost checkout in question, none, or ambiguity |
| CheckoutSelection.VerdictIgnoresOrder | src/cli/caller-host-worktree-selection.ts:188-232 | every permutation of the catalog gets the same verdict |
| CheckoutSelection.AnswerIsUnique | src/cli/caller-host-worktree-selection.ts:188-232 | a catalog has exactly one right verdict |
| CheckoutSelection.RepoOwnsInnermost | src/cli/caller-host-worktree-selection.ts:199-207 | a returned repo owns a checkout whose comparison path is the longest among all enclosing non-group rows on the caller's host |
| CheckoutSelection.EnclosingCandidates | src/cli/caller-host-worktree-selection.ts:40-58 | the loop keeps exactly the enclosing rows on the host, in order |
| CheckoutSelection.OnCallerHostIs | src/cli/caller-host-worktree-selection.ts:33-38 | which rows belong to the host of the caller |
| CheckoutSelection.EnclosingWorkspaceOwners | src/cli/caller-host-worktree-selection.ts:92-124 | the loops return exactly the caller's first innermost row, or the first row of each workspace in the checkout of the first innermost row, in order |
| CheckoutSelection.OfferedWorkspaces | src/cli/caller-host-worktree-selection.ts:92-124 | which workspaces these are: the one of that row, or all with an innermost row in that checkout |
| CheckoutSelection.WorkspacesIgnoreOrderIffFree | src/cli/caller-host-worktree-selection.ts:92-124 | the workspaces returned are the same for every order of the catalog if and only if the caller's innermost rows are on one host or, if it has none, every workspace of one innermost checkout is one of every other |
| CheckoutSelection.FreeIffOneCheckout | src/cli/caller-host-worktree-selection.ts:92-124 | where an id stands for one checkout on its host: if and only if these rows share one checkout |
| CheckoutSelection.OrderCanMatter | src/cli/caller-host-worktree-selection.ts:92-124 | two rows whose order decides which of them is returned |
| CodexCommand.GlobalOptionsChangeNothing | src/cli/codex-command-classification.ts:221-268 | any run of known global options behind the executable leaves the verdict on the words as it was, login and cloud scans included |
| CodexCommand.RunIsSkipped | src/cli/codex-command-classification.ts:191-219 | the scan steps over any such run, whatever stands around it |
| CodexCommand.ScanShifts | src/cli/codex-command-classification.ts:191-219 | words that agree from some places on are scanned alike from there |
| CodexCommand.FindInPart | src/cli/codex-command-classification.ts:191-219 | of a command cut off anywhere the scan finds just what stands in the part |
| CodexCommand.DecidedWithin | src/cli/codex-command-classification.ts:221-268 | a part of a command is non-interactive exactly when it reaches the deciding word: the subcommand, or the first flag or name behind login or cloud that runs alone |
| CodexCommand.NonInteractiveStays | src/cli/codex-command-classification.ts:221-268 | a command once seen not to be interactive stays so whatever words follow |
| CodexCommand.EveryCommandSplits | src/cli/codex-command-classification.ts:191-219 | every list of words is a run of options and one of: nothing, an option without its value, two dashes, a request for help or the version, any other word |
| CodexCommand.AnswerIs | src/cli/codex-command-classification.ts:191-219 | what the scan answers for each of them |
| CodexCommand.VerdictIs | src/cli/codex-command-classification.ts:221-268 | so the verdict on every command but login and cloud: requests for help or the version and the listed subcommands run alone, a prompt or any other word does not |
| CodexCommand.LoginIs | src/cli/codex-command-classification.ts:233-250 | and behind login: a token or a plain request for help anywhere, or status or help as the first word |
| CodexCommand.CloudIs | src/cli/codex-command-classification.ts:251-265 | and behind cloud: a plain request for help or the version anywhere, or a named subcommand |
| CodexCommand.FindCodexSubcommand | src/cli/codex-command-classification.ts:191-219 | the loop computes the specified scan |
| ShellWords.LineIsRead | src/cli/codex-command-classification.ts:87-123 | words in any quoting and spacing are read in order, and exactly the empty ones are lost |
| ShellWords.TrimmedLine | src/cli/codex-command-classification.ts:276 | so they are after trimming, with any blanks around |
| ShellWords.TokenizeLeadingShellWords | src/cli/codex-command-classification.ts:87-123 | the tokenizer loop computes the first words up to the limit |
| ShellWords.EveryListIsSpelled | src/cli/codex-command-classification.ts:87-123 | every list of words can be written so that it is read back |
| CodexLaunch.PrefixIsStripped | src/cli/codex-command-classification.ts:142-171 | whatever assignments, env and env options stand in front, the command is what remains |
| CodexLaunch.BasenameIs | src/cli/codex-command-classification.ts:125-128 | an executable is known by what stands behind the last slash or backslash |
| CodexLaunch.AssignmentIffNamed | src/cli/codex-command-classification.ts:138-140 | an assignment is a name, an equals sign and anything |
| CodexLaunch.PrefixLeads | src/cli/codex-command-classification.ts:142-171 | with names to unset that are empty, and so lost: the command remains, or what is behind its executable, or a name taken for the command, as the words behind env lead |
| CodexLaunch.StripOfPart | src/cli/codex-command-classification.ts:142-171 | of a line cut off anywhere what remains is what remains of all of it, cut |
| CodexLaunch.StripShellLaunchPrefix | src/cli/codex-command-classification.ts:142-171 | the loops on the shortened list compute that |
| CodexLaunch.ShouldUseRendererBackedCodexTerminal | src/cli/codex-command-classification.ts:270-285 | the function computes the specified classification |
| CodexLaunch.LineVerdict | src/cli/codex-command-classification.ts:270-285 | for every line of words in any quoting and spacing: the verdict is that on the command behind its launch prefix, decided only if the deciding word is among the first 32 non-empty ones |
| CodexLaunch.DecidingWordMoves | src/cli/codex-command-classification.ts:191-268 | known global options move the deciding word back by as many words as they are, and change nothing else |
| CodexLaunch.PrefixAndOptionsChangeNothingIff | src/cli/codex-command-classification.ts:270-285 | a prefix and options leave the classification of a line as it is if and only if the command behind gives the same verdict that many words down; with none of their words empty, if and only if the deciding word is not pushed out of the first 32 |
| CodexLaunch.LongRunChangesVerdict | src/cli/codex-command-classification.ts:274-276 | codex exec with --oss written 31 times in between is classified differently |
| CodexLaunch.EmptyValueTakesNextWord | src/cli/codex-command-classification.ts:104-111 | the exact verdict with an option value written as an empty word: the option takes the next word instead |
| CodexLaunch.EmptyValueChangesNothingIff | src/cli/codex-command-classification.ts:104-111 | so the classification stays as it is if and only if the command is decided alike with and without its first word |
| CodexLaunch.EmptyValueChangesVerdict | src/cli/codex-command-classification.ts:104-111 | codex exec with an empty model name in between is classified differently |

## Left out

- The source's strings are UTF-16; a character here is a Unicode character, so lone surrogates and lengths in code units are not part of this model.
- Quoting for cmd and PowerShell, and the choice of the shell from the platform and the environment.
- TreeRender: the wording of lines, roles, text snippets and plain-text subtrees; what they decide about a node (elided, summarized, suppressed, tab, marked, active) is an attribute of it. Frames are not modelled, and the finite tree is taken to stay the same during the walk.
- FocusedText: the accessibility provider is an input, and so is whether its writes are exact or without effect; the typing fallback itself is not part of this model.
- ShellReading: a shell is modelled up to the words of one simple command; what its utilities make of their arguments is not.
- Keymap: the lock file, other X clients that change the map meanwhile, and failures to read the map at the start, where nothing has been changed yet.
- ClipboardTransfers: binding to the compositor and the offer callbacks; only their effect of ending the ownership is an event.
- Paging: cursors are keys, not strings; legacy offset cursors, and the collation behind localeCompare (a run's id stands for its rank in it), are not modelled, nor is the automation filter.
- Arguments: findCliCommandIndex and the sets of boolean, global and global value flags are inputs; passthrough commands and help are not modelled.
- Positionals: which error is reported first is not modelled, only whether the line is accepted; a word the command has no name for goes by a name no flag can have.
- Calendar: a missing or valueless flag, which is refused before the date is looked at.
- Suggestions: localeCompare is given by a weight for each label; the data attached to an unknown flag.
- EntryGuard: the pattern that recognizes a require of electron is an input; the daemon's mirrored packages and its smoke load are not part of this model.
- TreeQuery: parsing the outline, lowering the needle and the note about omitted matches.
- LocaleSubset: scanning sources for keys; names that JavaScript would order as integers.
- CheckoutSelection: path resolution, containment and normalization, and the kinds of hosts, are inputs; selectors, error payloads and purposes are not modelled.
- CodexCommand: lower-casing is an input.
- CodexLaunch: the classification of claude command lines, which only looks for three kinds of flags.

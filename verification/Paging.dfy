/**
 Reading a whole run history in pages: the client (src/cli/automation-runs-paging.ts) and the host's
 pager it talks to (src/shared/automation-run-cursor.ts).

 The client is specified against any host at all: a function of the number of the call, the cursor and
 the page size.  The host is then the real pager over a history that may change between any two calls.
 */
module Paging {
  import opened Common

  const AUTOMATION_RUNS_PAGE_SIZE := 25
  const MAX_PAGE_SIZE := 100

  datatype Reply<R, C> = Page(runs: seq<R>, next: Option<C>) | TooLarge | OtherError

  type Host<!R, !C> = (nat, Option<C>, nat) -> Reply<R, C>

  // ---------------------------------------------------------------- the client

  /** One page read, with the page size that got through; absorbed counts the refusals on the way. */
  datatype PageRead<R, C> =
    | Got(runs: seq<R>, next: Option<C>, limit: nat, calls: nat, absorbed: nat)
    | PageThrown(refused: bool, calls: nat, absorbed: nat)

  function ReadPage<R, C>(host: Host<R, C>, calls: nat, cursor: Option<C>, limit: nat): (r: PageRead<R, C>)
    ensures r.calls > calls
    ensures r.Got? ==> r.limit <= limit && (limit >= 1 ==> r.limit >= 1)
    decreases limit
  {
    match host(calls, cursor, limit)
    case Page(runs, next) => Got(runs, next, limit, calls + 1, 0)
    case OtherError => PageThrown(false, calls + 1, 0)
    case TooLarge =>
      if limit <= 1 then PageThrown(true, calls + 1, 0)
      else
        var r := ReadPage(host, calls + 1, cursor, limit / 2);
        r.(absorbed := r.absorbed + 1)
  }

  datatype Result<R> = All(runs: seq<R>, calls: nat, absorbed: nat) | Thrown(refused: bool, calls: nat, absorbed: nat)

  // The host has only so many cursors to offer.
  ghost predicate Offers<R(!new), C(!new)>(host: Host<R, C>, cursors: set<C>) {
    forall calls: nat, cursor: Option<C>, limit: nat ::
      var reply := host(calls, cursor, limit);
      reply.Page? && reply.next.Some? ==> reply.next.value in cursors
  }

  /** What is read from here on: page after page until one has no cursor or one seen before. */
  ghost function ReadFrom<R(!new), C(!new)>(host: Host<R, C>, calls: nat, cursor: Option<C>, limit: nat,
                                               seen: set<C>, cursors: set<C>): (r: Result<R>)
    requires Offers(host, cursors)
    ensures r.calls > calls
    decreases cursors - seen
  {
    ReadPageOffers(host, calls, cursor, limit, cursors);
    match ReadPage(host, calls, cursor, limit)
    case PageThrown(refused, calls', absorbed) => Thrown(refused, calls', absorbed)
    case Got(runs, next, limit', calls', absorbed) =>
      if next.None? || next.value in seen then All(runs, calls', absorbed)
      else
        match ReadFrom(host, calls', next, limit', seen + {next.value}, cursors)
        case Thrown(refused, calls'', more) => Thrown(refused, calls'', absorbed + more)
        case All(rest, calls'', more) => All(runs + rest, calls'', absorbed + more)
  }

  lemma {:induction false} ReadPageOffers<R(!new), C(!new)>(host: Host<R, C>, calls: nat, cursor: Option<C>,
                                                               limit: nat, cursors: set<C>)
    requires Offers(host, cursors)
    ensures var r := ReadPage(host, calls, cursor, limit); r.Got? && r.next.Some? ==> r.next.value in cursors
    decreases limit
  {
    var reply := host(calls, cursor, limit);
    if reply.TooLarge? && limit > 1 {
      ReadPageOffers(host, calls + 1, cursor, limit / 2, cursors);
    }
  }

  method ReadShrinkingPage<R, C>(host: Host<R, C>, calls: nat, cursor: Option<C>, limit0: nat)
      returns (r: PageRead<R, C>)
    ensures r == ReadPage(host, calls, cursor, limit0)
  {
    var limit: nat, made: nat, absorbed: nat := limit0, calls, 0;
    while true
      invariant var rest := ReadPage(host, made, cursor, limit);
                ReadPage(host, calls, cursor, limit0) == rest.(absorbed := rest.absorbed + absorbed)
      decreases limit
    {
      var reply := host(made, cursor, limit);
      made := made + 1;
      match reply
      case Page(runs, next) =>
        return Got(runs, next, limit, made, absorbed);
      case OtherError =>
        return PageThrown(false, made, absorbed);
      case TooLarge =>
        if limit <= 1 {
          return PageThrown(true, made, absorbed);
        }
        limit, absorbed := limit / 2, absorbed + 1;
    }
  }

  /** readAllAutomationRuns; it ends against every host with finitely many cursors. */
  method ReadAllAutomationRuns<R(!new), C(!new, ==)>(host: Host<R, C>, ghost cursors: set<C>) returns (r: Result<R>)
    requires Offers(host, cursors)
    ensures r == ReadFrom(host, 0, None, AUTOMATION_RUNS_PAGE_SIZE, {}, cursors)
  {
    var runs: seq<R>, seen: set<C>, cursor: Option<C> := [], {}, None;
    var limit: nat, calls: nat, absorbed: nat := AUTOMATION_RUNS_PAGE_SIZE, 0, 0;
    while true
      invariant ReadFrom(host, 0, None, AUTOMATION_RUNS_PAGE_SIZE, {}, cursors)
             == match ReadFrom(host, calls, cursor, limit, seen, cursors)
                case Thrown(refused, calls', more) => Thrown(refused, calls', absorbed + more)
                case All(rest, calls', more) => All(runs + rest, calls', absorbed + more)
      decreases cursors - seen
    {
      ReadPageOffers(host, calls, cursor, limit, cursors);
      var read := ReadShrinkingPage(host, calls, cursor, limit);
      if read.PageThrown? {
        return Thrown(read.refused, read.calls, absorbed + read.absorbed);
      }
      ghost var rest := ReadFrom(host, calls, cursor, limit, seen, cursors);
      ghost var before := runs;
      calls, limit, absorbed := read.calls, read.limit, absorbed + read.absorbed;
      runs := runs + read.runs;
      if read.next.None? || read.next.value in seen {
        return All(runs, calls, absorbed);
      }
      assert forall tail :: before + (read.runs + tail) == runs + tail;
      seen := seen + {read.next.value};
      cursor := read.next;
    }
  }

  // ---------------------------------------------------------------- the calls that are made

  datatype Call<R, C> = Call(cursor: Option<C>, size: nat, reply: Reply<R, C>)

  /** The calls of a run, from call number `at` on: after a refusal of more than one the same page is asked for at
      half the size, after a page with a new cursor the next one at the same size, and then the run is over. */
  ghost predicate Goes<R(!new), C(!new)>(host: Host<R, C>, at: nat, cursor: Option<C>, size: nat, seen: set<C>,
                                         calls: seq<Call<R, C>>)
    decreases |calls|
  {
    && calls != [] && calls[0] == Call(cursor, size, host(at, cursor, size))
    && var reply, rest := calls[0].reply, calls[1..];
       if reply.TooLarge? && size > 1 then Goes(host, at + 1, cursor, size / 2, seen, rest)
       else if reply.Page? && reply.next.Some? && reply.next.value !in seen then
         Goes(host, at + 1, reply.next, size, seen + {reply.next.value}, rest)
       else rest == []
  }

  /** All the pages answered, in order. */
  function Pages<R, C>(calls: seq<Call<R, C>>): seq<R> {
    if calls == [] then [] else (if calls[0].reply.Page? then calls[0].reply.runs else []) + Pages(calls[1..])
  }

  predicate IsFatal<R, C>(call: Call<R, C>) { call.reply.OtherError? || (call.reply.TooLarge? && call.size <= 1) }

  /** A run of calls that fails nowhere gives all its pages; one that fails is thrown, as a refusal exactly when the
      last reply is one of a page of one. */
  ghost predicate Tells<R(!new), C(!new)>(calls: seq<Call<R, C>>, at: nat, r: Result<R>) {
    && calls != []
    && (r.All? <==> forall call :: call in calls ==> !IsFatal(call))
    && (r.All? ==> r.runs == Pages(calls))
    && (r.Thrown? ==> IsFatal(calls[|calls| - 1]) && (r.refused <==> calls[|calls| - 1].reply.TooLarge?))
    && r.calls == at + |calls|
  }

  lemma ReadOnce<R(!new), C(!new)>(host: Host<R, C>, at: nat, cursor: Option<C>, limit: nat, seen: set<C>,
                                   cursors: set<C>)
    requires Offers(host, cursors)
    ensures var r, reply := ReadFrom(host, at, cursor, limit, seen, cursors), host(at, cursor, limit);
            && (reply.OtherError? ==> r == Thrown(false, at + 1, 0))
            && (reply.TooLarge? && limit <= 1 ==> r == Thrown(true, at + 1, 0))
            && (reply.TooLarge? && limit > 1 ==>
                  var half := ReadFrom(host, at + 1, cursor, limit / 2, seen, cursors);
                  r == half.(absorbed := half.absorbed + 1))
            && (reply.Page? && (reply.next.None? || reply.next.value in seen) ==> r == All(reply.runs, at + 1, 0))
            && (reply.Page? && reply.next.Some? && reply.next.value !in seen ==>
                  var rest := ReadFrom(host, at + 1, reply.next, limit, seen + {reply.next.value}, cursors);
                  r == if rest.All? then rest.(runs := reply.runs + rest.runs) else rest)
  {
    ReadPageOffers(host, at, cursor, limit, cursors);
  }

  /** Whatever the host, the answer is told by the calls made. */
  lemma {:induction false} ReadFromTells<R(!new), C(!new)>(host: Host<R, C>, at: nat, cursor: Option<C>, limit: nat,
                                                           seen: set<C>, cursors: set<C>)
      returns (calls: seq<Call<R, C>>)
    requires Offers(host, cursors)
    ensures Goes(host, at, cursor, limit, seen, calls)
    ensures Tells(calls, at, ReadFrom(host, at, cursor, limit, seen, cursors))
    decreases cursors - seen, limit
  {
    var reply := host(at, cursor, limit);
    var call := Call(cursor, limit, reply);
    ReadOnce(host, at, cursor, limit, seen, cursors);
    var r := ReadFrom(host, at, cursor, limit, seen, cursors);
    hide ReadFrom, Goes, Tells;
    if reply.TooLarge? && limit > 1 {
      var rest := ReadFromTells(host, at + 1, cursor, limit / 2, seen, cursors);
      calls := [call] + rest;
      GoesOn(host, at, cursor, limit, seen, rest);
      TellsMore(call, rest, at, ReadFrom(host, at + 1, cursor, limit / 2, seen, cursors), r);
    } else if reply.Page? && reply.next.Some? && reply.next.value !in seen {
      assert reply.next.value in cursors;
      var rest := ReadFromTells(host, at + 1, reply.next, limit, seen + {reply.next.value}, cursors);
      calls := [call] + rest;
      GoesOn(host, at, cursor, limit, seen, rest);
      TellsMore(call, rest, at, ReadFrom(host, at + 1, reply.next, limit, seen + {reply.next.value}, cursors), r);
    } else {
      calls := [call];
      GoesOn(host, at, cursor, limit, seen, []);
      assert [call] + [] == [call];
      TellsOnce(call, at, r);
    }
  }

  lemma GoesOn<R(!new), C(!new)>(host: Host<R, C>, at: nat, cursor: Option<C>, limit: nat, seen: set<C>,
                                 rest: seq<Call<R, C>>)
    ensures var reply := host(at, cursor, limit);
            Goes(host, at, cursor, limit, seen, [Call(cursor, limit, reply)] + rest)
            <==> if reply.TooLarge? && limit > 1 then Goes(host, at + 1, cursor, limit / 2, seen, rest)
                 else if reply.Page? && reply.next.Some? && reply.next.value !in seen then
                   Goes(host, at + 1, reply.next, limit, seen + {reply.next.value}, rest)
                 else rest == []
  {
    var calls := [Call(cursor, limit, host(at, cursor, limit))] + rest;
    assert calls[1..] == rest;
  }

  lemma TellsOnce<R(!new), C(!new)>(call: Call<R, C>, at: nat, r: Result<R>)
    requires r == if call.reply.Page? then All(call.reply.runs, at + 1, 0) else Thrown(call.reply.TooLarge?, at + 1, 0)
    requires call.reply.TooLarge? ==> call.size <= 1
    ensures Tells([call], at, r)
  {
    assert Pages([call]) == (if call.reply.Page? then call.reply.runs else []) + Pages([call][1..]);
  }

  lemma TellsMore<R(!new), C(!new)>(call: Call<R, C>, rest: seq<Call<R, C>>, at: nat, before: Result<R>, r: Result<R>)
    requires Tells(rest, at + 1, before) && !IsFatal(call)
    requires r.All? <==> before.All?
    requires r.All? ==> r.runs == (if call.reply.Page? then call.reply.runs else []) + before.runs
    requires r.Thrown? ==> r.refused == before.refused
    requires r.calls == before.calls
    ensures Tells([call] + rest, at, r)
  {
    var calls := [call] + rest;
    assert calls[1..] == rest && calls[|calls| - 1] == rest[|rest| - 1];
    assert forall other :: other in calls <==> other == call || other in rest;
  }

  /** readAllAutomationRuns against any host: all the pages answered in order if and only if no call failed with
      another error and none of a page of one was refused; otherwise the failure of the last call. */
  lemma AnswersAreTold<R(!new), C(!new)>(host: Host<R, C>, cursors: set<C>)
    requires Offers(host, cursors)
    ensures exists calls :: Goes(host, 0, None, 25, {}, calls)
                            && Tells(calls, 0, ReadFrom(host, 0, None, AUTOMATION_RUNS_PAGE_SIZE, {}, cursors))
  {
    var calls := ReadFromTells(host, 0, None, AUTOMATION_RUNS_PAGE_SIZE, {}, cursors);
  }

  // ---------------------------------------------------------------- refusals

  function Halvings(limit: nat): nat { if limit <= 1 then 0 else 1 + Halvings(limit / 2) }

  lemma {:induction false} PageAbsorbs<R, C>(host: Host<R, C>, calls: nat, cursor: Option<C>, limit: nat)
    ensures var r := ReadPage(host, calls, cursor, limit);
            r.absorbed + (if r.Got? then Halvings(r.limit) else 0) <= Halvings(limit)
    decreases limit
  {
    if host(calls, cursor, limit).TooLarge? && limit > 1 {
      PageAbsorbs(host, calls + 1, cursor, limit / 2);
    }
  }

  lemma {:induction false} RunAbsorbs<R(!new), C(!new)>(host: Host<R, C>, calls: nat, cursor: Option<C>, limit: nat,
                                                           seen: set<C>, cursors: set<C>)
    requires Offers(host, cursors)
    ensures ReadFrom(host, calls, cursor, limit, seen, cursors).absorbed <= Halvings(limit)
    decreases cursors - seen
  {
    ReadPageOffers(host, calls, cursor, limit, cursors);
    PageAbsorbs(host, calls, cursor, limit);
    match ReadPage(host, calls, cursor, limit)
    case PageThrown(_, _, _) =>
    case Got(runs, next, limit', calls', absorbed) =>
      if next.Some? && next.value !in seen {
        RunAbsorbs(host, calls', next, limit', seen + {next.value}, cursors);
      }
  }

  /** Over a whole run, whatever the host, at most four refusals are absorbed: 25, 12, 6, 3, 1. */
  lemma AtMostFourRefusals<R(!new), C(!new)>(host: Host<R, C>, cursors: set<C>)
    requires Offers(host, cursors)
    ensures ReadFrom(host, 0, None, AUTOMATION_RUNS_PAGE_SIZE, {}, cursors).absorbed <= 4
  {
    RunAbsorbs(host, 0, None, AUTOMATION_RUNS_PAGE_SIZE, {}, cursors);
    assert Halvings(25) == 1 + Halvings(12) == 2 + Halvings(6) == 3 + Halvings(3) == 4 + Halvings(1);
  }

  // ---------------------------------------------------------------- the host's pager

  /** A run's place in the history; an id stands for its rank in the collation order of ids. */
  datatype Key = Key(createdAt: int, id: nat)
  datatype Run = Run(key: Key, body: int)

  // compareAutomationRunsNewestFirst(a, b) < 0.
  predicate Newer(a: Key, b: Key) { a.createdAt > b.createdAt || (a.createdAt == b.createdAt && a.id < b.id) }

  ghost predicate NewestFirst(runs: seq<Run>) {
    forall i, j :: 0 <= i < j < |runs| ==> Newer(runs[i].key, runs[j].key)
  }

  function FindIndex(runs: seq<Run>, p: Run -> bool): (i: int)
    ensures -1 <= i < |runs|
    ensures i >= 0 ==> p(runs[i])
    ensures forall j :: 0 <= j < (if i >= 0 then i else |runs|) ==> !p(runs[j])
  {
    if runs == [] then -1
    else if p(runs[0]) then 0
    else var rest := FindIndex(runs[1..], p); if rest == -1 then -1 else rest + 1
  }

  function PageStart(runs: seq<Run>, cursor: Option<Key>): (start: nat)
    ensures start <= |runs|
  {
    if cursor.None? then 0
    else
      var boundary := FindIndex(runs, (run: Run) => run.key == cursor.value);
      if boundary != -1 then boundary + 1
      else
        var older := FindIndex(runs, (run: Run) => Newer(cursor.value, run.key));
        if older == -1 then |runs| else older
  }

  function Paginate(runs: seq<Run>, limit: nat, cursor: Option<Key>): Reply<Run, Key> {
    var start := PageStart(runs, cursor);
    var wanted := if limit < 1 then 1 else if limit > MAX_PAGE_SIZE then MAX_PAGE_SIZE else limit;
    var end := if start + wanted < |runs| then start + wanted else |runs|;
    Page(runs[start..end], if start < end < |runs| then Some(runs[end - 1].key) else None)
  }

  // Past the cursor: everything, when there is none.
  predicate Past(cursor: Option<Key>, key: Key) { cursor.Some? ==> Newer(cursor.value, key) }

  /** Wherever the boundary run itself went, the page starts at the first run past the cursor. */
  lemma PageStartsPastCursor(runs: seq<Run>, cursor: Option<Key>)
    requires NewestFirst(runs)
    ensures var start := PageStart(runs, cursor);
            && (forall i :: 0 <= i < start ==> !Past(cursor, runs[i].key))
            && (forall i :: start <= i < |runs| ==> Past(cursor, runs[i].key))
  {
    if cursor.Some? {
      var boundary := FindIndex(runs, (run: Run) => run.key == cursor.value);
      if boundary == -1 {
        var older := FindIndex(runs, (run: Run) => Newer(cursor.value, run.key));
        if older != -1 {
          forall i | older < i < |runs| ensures Past(cursor, runs[i].key) {
            assert Newer(runs[older].key, runs[i].key);
          }
        }
      } else {
        forall i | 0 <= i < boundary ensures !Past(cursor, runs[i].key) {
          assert Newer(runs[i].key, runs[boundary].key);
        }
      }
    }
  }

  // ---------------------------------------------------------------- the two together

  /** A history that may gain and lose runs between calls, and which pages it refuses as too large. */
  datatype History = History(at: nat -> seq<Run>, tooLarge: (nat, nat) -> bool)

  function HostOf(h: History): Host<Run, Key> {
    (calls: nat, cursor: Option<Key>, limit: nat) =>
      if limit > 1 && h.tooLarge(calls, limit) then TooLarge else Paginate(h.at(calls), limit, cursor)
  }

  ghost predicate Kept(h: History, keys: set<Key>) {
    && (forall t: nat :: NewestFirst(h.at(t)))
    && (forall t: nat :: forall run :: run in h.at(t) ==> run.key in keys)
  }

  ghost predicate Has(runs: seq<Run>, key: Key) { exists i :: 0 <= i < |runs| && runs[i].key == key }

  // There at every one of the calls made.
  ghost predicate Stays(h: History, key: Key, calls: nat) { forall t: nat :: t < calls ==> Has(h.at(t), key) }

  lemma HostOffers(h: History, keys: set<Key>)
    requires Kept(h, keys)
    ensures Offers(HostOf(h), keys)
  {
    forall calls: nat, cursor: Option<Key>, limit: nat
      ensures var reply := HostOf(h)(calls, cursor, limit);
              reply.Page? && reply.next.Some? ==> reply.next.value in keys
    {
      var reply := HostOf(h)(calls, cursor, limit);
      if reply.Page? && reply.next.Some? {
        PaginateIsGood(h.at(calls), limit, cursor);
        assert reply.runs[|reply.runs| - 1] in reply.runs;
      }
    }
  }

  /** A page of a sorted history: all past the cursor, sorted, and either the whole rest of the history or
      ended by the run the next cursor names. */
  ghost predicate GoodPage(runs: seq<Run>, next: Option<Key>, cursor: Option<Key>, history: seq<Run>) {
    && NewestFirst(runs)
    && (forall run :: run in runs ==> run in history && Past(cursor, run.key))
    && (next.Some? ==> runs != [] && runs[|runs| - 1].key == next.value)
    && (forall key :: Has(history, key) && Past(cursor, key) && !Has(runs, key) ==>
          next.Some? && Newer(next.value, key))
  }

  lemma SliceIsGood(history: seq<Run>, start: nat, end: nat, cursor: Option<Key>)
    requires NewestFirst(history) && start <= end <= |history| && (start < |history| ==> start < end)
    requires forall i :: 0 <= i < start ==> !Past(cursor, history[i].key)
    requires forall i :: start <= i < |history| ==> Past(cursor, history[i].key)
    ensures var next := if start < end < |history| then Some(history[end - 1].key) else None;
            GoodPage(history[start..end], next, cursor, history)
  {
    var runs := history[start..end];
    forall run | run in runs ensures run in history && Past(cursor, run.key) {
      var i :| 0 <= i < |runs| && runs[i] == run;
      assert history[start + i] == run;
    }
    forall m | start <= m < end ensures Has(runs, history[m].key) {
      assert runs[m - start] == history[m];
    }
    forall key | Has(history, key) && Past(cursor, key) && !Has(runs, key)
      ensures end < |history| && Newer(history[end - 1].key, key)
    {
      var i :| 0 <= i < |history| && history[i].key == key;
      assert end <= i;
      assert Newer(history[end - 1].key, history[i].key);
    }
  }

  lemma PaginateIsGood(history: seq<Run>, limit: nat, cursor: Option<Key>)
    requires NewestFirst(history)
    ensures var page := Paginate(history, limit, cursor); page.Page? && GoodPage(page.runs, page.next, cursor, history)
  {
    hide GoodPage, PageStart, Past;
    PageStartsPastCursor(history, cursor);
    var start := PageStart(history, cursor);
    SliceIsGood(history, start, start + |Paginate(history, limit, cursor).runs|, cursor);
  }

  // A page refused at some sizes is read at last, from the history as it stands then.
  lemma {:induction false} HostPageIsRead(h: History, keys: set<Key>, calls: nat, cursor: Option<Key>, limit: nat)
    requires Kept(h, keys) && limit >= 1
    ensures var r := ReadPage(HostOf(h), calls, cursor, limit);
            r.Got? && r.limit >= 1 && GoodPage(r.runs, r.next, cursor, h.at(r.calls - 1))
    decreases limit
  {
    if limit > 1 && h.tooLarge(calls, limit) {
      HostPageIsRead(h, keys, calls + 1, cursor, limit / 2);
    } else {
      PaginateIsGood(h.at(calls), limit, cursor);
    }
  }

  /** What reading from a cursor brings: every run that stays throughout and lies past it, in order. */
  ghost predicate Complete(h: History, cursor: Option<Key>, r: Result<Run>) {
    && r.All?
    && NewestFirst(r.runs)
    && (forall i :: 0 <= i < |r.runs| ==> Past(cursor, r.runs[i].key))
    && (forall run :: run in r.runs ==> exists t: nat :: t < r.calls && run in h.at(t))
    && (forall key :: Stays(h, key, r.calls) && Past(cursor, key) ==> Has(r.runs, key))
  }

  lemma PagesJoin(h: History, cursor: Option<Key>, page: PageRead<Run, Key>, rest: Result<Run>)
    requires page.Got? && page.calls > 0 && page.next.Some?
               && GoodPage(page.runs, page.next, cursor, h.at(page.calls - 1))
    requires Complete(h, page.next, rest) && rest.calls > page.calls
    ensures Complete(h, cursor, All(page.runs + rest.runs, rest.calls, page.absorbed + rest.absorbed))
  {
    var runs := page.runs + rest.runs;
    var last := |page.runs| - 1;
    forall i | 0 <= i < |page.runs|
      ensures Past(cursor, page.runs[i].key) && !Newer(page.next.value, page.runs[i].key)
    {
      assert page.runs[i] in page.runs;
      if i < last { assert Newer(page.runs[i].key, page.runs[last].key); }
    }
    forall i, j | 0 <= i < j < |runs| ensures Newer(runs[i].key, runs[j].key) {
      if i < |page.runs| <= j {
        assert runs[j] == rest.runs[j - |page.runs|] && runs[i] == page.runs[i];
        assert i == last || Newer(page.runs[i].key, page.runs[last].key);
      }
    }
    forall i | 0 <= i < |runs| ensures Past(cursor, runs[i].key) {
      if i >= |page.runs| {
        assert runs[i] == rest.runs[i - |page.runs|];
        assert Past(page.next, rest.runs[i - |page.runs|].key);
        assert Past(cursor, page.runs[last].key);
      }
    }
    forall key | Stays(h, key, rest.calls) && Past(cursor, key) ensures Has(runs, key) {
      assert Has(h.at(page.calls - 1), key);
      if Has(page.runs, key) {
        var i :| 0 <= i < |page.runs| && page.runs[i].key == key;
        assert runs[i].key == key;
      } else {
        var i :| 0 <= i < |rest.runs| && rest.runs[i].key == key;
        assert runs[|page.runs| + i].key == key;
      }
    }
  }

  lemma {:induction false} ReadFromIsComplete(h: History, keys: set<Key>, calls: nat, cursor: Option<Key>,
                                              limit: nat, seen: set<Key>)
    requires Kept(h, keys) && limit >= 1 && Offers(HostOf(h), keys)
    requires forall key :: key in seen ==> cursor.Some? && !Newer(cursor.value, key)
    ensures Complete(h, cursor, ReadFrom(HostOf(h), calls, cursor, limit, seen, keys))
    decreases keys - seen
  {
    var host := HostOf(h);
    ReadPageOffers(host, calls, cursor, limit, keys);
    HostPageIsRead(h, keys, calls, cursor, limit);
    var page: PageRead<Run, Key> := ReadPage(host, calls, cursor, limit);
    var history := h.at(page.calls - 1);
    if page.next.None? {
      assert forall key :: Stays(h, key, page.calls) ==> Has(history, key);
    } else {
      var last := page.runs[|page.runs| - 1];
      assert last in page.runs && Past(cursor, last.key) && last.key == page.next.value;
      assert page.next.value !in seen;
      ReadFromIsComplete(h, keys, page.calls, page.next, page.limit, seen + {page.next.value});
      PagesJoin(h, cursor, page, ReadFrom(host, page.calls, page.next, page.limit, seen + {page.next.value}, keys));
    }
  }

  /**
   Against the host's pager, however it refuses pages of more than one run and whatever is inserted or
   pruned between calls: the client returns without error, newest first and each run at most once; every
   run was in the history at the time of some call; and every run that is there at each of them is returned.
   */
  lemma ReadsEverythingThatStays(h: History, keys: set<Key>)
    requires Kept(h, keys)
    ensures Offers(HostOf(h), keys)
    ensures Complete(h, None, ReadFrom(HostOf(h), 0, None, AUTOMATION_RUNS_PAGE_SIZE, {}, keys))
  {
    HostOffers(h, keys);
    ReadFromIsComplete(h, keys, 0, None, AUTOMATION_RUNS_PAGE_SIZE, {});
  }

  lemma {:induction false} SameKeys(a: seq<Run>, b: seq<Run>)
    requires NewestFirst(a) && NewestFirst(b)
    requires forall run :: run in a ==> run in b
    requires forall i :: 0 <= i < |b| ==> Has(a, b[i].key)
    ensures a == b
  {
    if a != [] { assert a[0] in a; }
    if b != [] { assert Has(a, b[0].key); }
    if a != [] && b != [] {
      assert forall k :: 0 < k < |a| ==> Newer(a[0].key, a[k].key);
      assert forall k :: 0 < k < |b| ==> Newer(b[0].key, b[k].key);
      assert a[0] == b[0];
      forall run | run in a[1..] ensures run in b[1..] {
        var k :| 0 <= k < |a[1..]| && a[1..][k] == run;
        assert a[k + 1] in a;
        var m :| 0 <= m < |b| && b[m] == run;
        assert b[1..][m - 1] == run;
      }
      forall k | 0 <= k < |b[1..]| ensures Has(a[1..], b[1..][k].key) {
        assert b[1..][k] == b[k + 1];
        var m :| 0 <= m < |a| && a[m].key == b[k + 1].key;
        assert a[1..][m - 1] == a[m];
      }
      SameKeys(a[1..], b[1..]);
    }
  }

  /** Against a history that does not change, the client returns exactly that list. */
  lemma ReadsTheWholeList(h: History, keys: set<Key>, list: seq<Run>)
    requires Kept(h, keys) && forall t: nat :: h.at(t) == list
    ensures Offers(HostOf(h), keys)
    ensures ReadFrom(HostOf(h), 0, None, AUTOMATION_RUNS_PAGE_SIZE, {}, keys).All?
    ensures ReadFrom(HostOf(h), 0, None, AUTOMATION_RUNS_PAGE_SIZE, {}, keys).runs == list
  {
    ReadsEverythingThatStays(h, keys);
    var r := ReadFrom(HostOf(h), 0, None, AUTOMATION_RUNS_PAGE_SIZE, {}, keys);
    forall i | 0 <= i < |list| ensures Has(r.runs, list[i].key) {
      assert Stays(h, list[i].key, r.calls);
    }
    assert h.at(0) == list;
    SameKeys(r.runs, list);
  }
}

/**
 Which checkout the current directory belongs to (src/cli/caller-host-worktree-selection.ts).  Path
 resolution, containment and normalisation, and the kinds of host ids, are inputs.
 */
module CheckoutSelection {
  import opened Common

  const LOCAL_EXECUTION_HOST_ID := "local"

  datatype Row = Row(id: string, path: string, host: Option<string>, repo: string)

  /** What the selection asks of its surroundings for one current directory and one caller. */
  datatype Place = Place(
    callerHost: string, isSsh: string -> bool,
    encloses: string -> bool,          // the row's resolved path contains the current directory
    comparison: string -> string,      // the row's path, normalised for comparison
    isGroup: string -> bool)           // the repo id stands for a project group

  function HostOf(row: Row): string { if row.host.Some? then row.host.value else LOCAL_EXECUTION_HOST_ID }

  predicate IsOnCallerHost(row: Row, p: Place) {
    if p.isSsh(p.callerHost) then HostOf(row) == p.callerHost else !p.isSsh(HostOf(row))
  }

  /** An SSH caller sees the rows of just its host; a local one sees every row that is not on an SSH host, and so
      those without a host unless "local" names one. */
  lemma OnCallerHostIs(row: Row, p: Place)
    ensures p.isSsh(p.callerHost) ==>
              (IsOnCallerHost(row, p)
               <==> row.host == Some(p.callerHost) || (row.host == None && p.callerHost == "local"))
    ensures !p.isSsh(p.callerHost) ==>
              (IsOnCallerHost(row, p)
               <==> !(row.host.Some? && p.isSsh(row.host.value)) && !(row.host.None? && p.isSsh("local")))
  {
  }

  predicate Encloses(row: Row, p: Place) { IsOnCallerHost(row, p) && p.encloses(row.path) }

  /** A checkout: rows with the same key are the same place of the same project on the same host. */
  datatype Key = Key(repo: string, host: string, comparison: string)

  function KeyOf(row: Row, p: Place): Key { Key(row.repo, HostOf(row), p.comparison(row.path)) }

  function Depth(row: Row, p: Place): nat { |p.comparison(row.path)| }

  datatype Verdict = NoRepo | Repo(id: string) | Ambiguous

  // ---------------------------------------------------------------- the answer, as a set

  predicate Candidate(row: Row, p: Place) { !p.isGroup(row.repo) && Encloses(row, p) }

  /** A candidate of the greatest depth among the rows of the catalog. */
  ghost predicate Innermost(catalog: seq<Row>, p: Place, row: Row) {
    && row in catalog && Candidate(row, p)
    && forall other :: other in catalog && Candidate(other, p) ==> Depth(other, p) <= Depth(row, p)
  }

  ghost predicate IsCallers(catalog: seq<Row>, p: Place, caller: Option<string>, key: Key) {
    exists row :: Innermost(catalog, p, row) && caller == Some(row.id) && KeyOf(row, p) == key
  }

  /** The checkouts in question: the caller's own innermost ones, or all innermost ones if it has none. */
  ghost predicate Selected(catalog: seq<Row>, p: Place, caller: Option<string>, key: Key) {
    && (exists row :: Innermost(catalog, p, row) && KeyOf(row, p) == key)
    && ((exists other :: IsCallers(catalog, p, caller, other)) ==> IsCallers(catalog, p, caller, key))
  }

  ghost predicate Answers(catalog: seq<Row>, p: Place, caller: Option<string>, verdict: Verdict) {
    match verdict
    case NoRepo => forall key :: !Selected(catalog, p, caller, key)
    case Repo(id) => exists key :: Selected(catalog, p, caller, key) && key.repo == id
                                   && forall other :: Selected(catalog, p, caller, other) ==> other == key
    case Ambiguous => exists a, b :: a != b && Selected(catalog, p, caller, a) && Selected(catalog, p, caller, b)
  }

  // ---------------------------------------------------------------- the selection

  function Enclosing(p: Place): Row -> bool { (row: Row) => Encloses(row, p) }

  method EnclosingCandidates(catalog: seq<Row>, p: Place) returns (candidates: seq<Row>)
    ensures candidates == Filter(Enclosing(p), catalog)
  {
    hide Filter;
    ghost var enclosing := Enclosing(p);
    candidates := [];
    FilterNone(enclosing, []);
    assert catalog[0..] == catalog && catalog[|catalog|..] == [];
    for i := 0 to |catalog|
      invariant candidates + Filter(enclosing, catalog[i..]) == Filter(enclosing, catalog)
    {
      FilterStep(enclosing, catalog, i);
      assert enclosing(catalog[i]) == Encloses(catalog[i], p);
      if IsOnCallerHost(catalog[i], p) && p.encloses(catalog[i].path) {
        candidates := candidates + [catalog[i]];
      }
    }
  }

  method MaxDepth(rows: seq<Row>, p: Place) returns (depth: int)
    ensures rows == [] ==> depth == -1
    ensures rows != [] ==> exists row :: row in rows && Depth(row, p) == depth
    ensures forall row :: row in rows ==> Depth(row, p) <= depth
  {
    depth := -1;
    for i := 0 to |rows|
      invariant i == 0 ==> depth == -1
      invariant i > 0 ==> exists k :: 0 <= k < i && Depth(rows[k], p) == depth
      invariant forall k :: 0 <= k < i ==> Depth(rows[k], p) <= depth
    {
      if Depth(rows[i], p) > depth {
        depth := Depth(rows[i], p);
      }
    }
  }

  function NotGroup(p: Place): Row -> bool { (row: Row) => !p.isGroup(row.repo) }

  function AtDepth(p: Place, depth: int): Row -> bool { (row: Row) => Depth(row, p) == depth }

  lemma InnermostRows(catalog: seq<Row>, p: Place, candidates: seq<Row>, depth: int, row: Row)
    requires candidates == Filter(Enclosing(p), Filter(NotGroup(p), catalog))
    requires candidates == [] ==> depth == -1
    requires candidates != [] ==> exists other :: other in candidates && Depth(other, p) == depth
    requires forall other :: other in candidates ==> Depth(other, p) <= depth
    ensures row in Filter(AtDepth(p, depth), candidates) <==> Innermost(catalog, p, row)
  {
    hide Filter;
    forall other ensures other in candidates <==> other in catalog && Candidate(other, p) {
      FilterIs(NotGroup(p), catalog, other);
      FilterIs(Enclosing(p), Filter(NotGroup(p), catalog), other);
    }
    FilterIs(AtDepth(p, depth), candidates, row);
    if candidates != [] {
      var deepest :| deepest in candidates && Depth(deepest, p) == depth;
    }
    assert Innermost(catalog, p, row) ==> row in candidates;
  }

  // The two collections of the loop: the checkouts of the candidates, and those of the caller.
  method Checkouts(candidates: seq<Row>, p: Place, caller: Option<string>)
    returns (checkouts: map<Key, Row>, callerCheckouts: set<Key>)
    ensures forall key :: key in checkouts <==> exists k :: 0 <= k < |candidates| && KeyOf(candidates[k], p) == key
    ensures forall key :: key in checkouts ==> KeyOf(checkouts[key], p) == key
    ensures forall key :: key in callerCheckouts <==> CallerAt(candidates, p, caller, key, |candidates|)
  {
    checkouts, callerCheckouts := map[], {};
    for i := 0 to |candidates|
      invariant forall key :: key in checkouts <==> exists k :: 0 <= k < i && KeyOf(candidates[k], p) == key
      invariant forall key :: key in checkouts ==> KeyOf(checkouts[key], p) == key
      invariant forall key :: key in callerCheckouts <==> CallerAt(candidates, p, caller, key, i)
    {
      var row := candidates[i];
      checkouts := checkouts[KeyOf(row, p) := row];
      if caller == Some(row.id) {
        callerCheckouts := callerCheckouts + {KeyOf(row, p)};
      }
    }
  }

  ghost predicate CallerAt(candidates: seq<Row>, p: Place, caller: Option<string>, key: Key, n: nat)
    requires n <= |candidates|
  {
    exists k :: 0 <= k < n && caller == Some(candidates[k].id) && KeyOf(candidates[k], p) == key
  }

  /** selectEnclosingRepoOnHost. */
  method SelectEnclosingRepo(catalog: seq<Row>, p: Place, caller: Option<string>) returns (verdict: Verdict)
    ensures Answers(catalog, p, caller, verdict)
  {
    hide Filter, Innermost, IsCallers, CallerAt, Answers;
    var enclosing := EnclosingCandidates(Filter(NotGroup(p), catalog), p);
    var innermostLength := MaxDepth(enclosing, p);
    var candidates := Filter(AtDepth(p, innermostLength), enclosing);
    forall row ensures row in candidates <==> Innermost(catalog, p, row) {
      InnermostRows(catalog, p, enclosing, innermostLength, row);
    }
    var checkouts, callerCheckouts := Checkouts(candidates, p, caller);
    forall key ensures key in callerCheckouts <==> IsCallers(catalog, p, caller, key) {
      CallersByPosition(catalog, p, caller, key, candidates);
    }
    forall key ensures key in checkouts <==> exists row :: Innermost(catalog, p, row) && KeyOf(row, p) == key {
      CheckoutsByPosition(catalog, p, key, candidates);
    }
    var matches := set key | key in checkouts && (callerCheckouts == {} || key in callerCheckouts);
    assert forall key :: key in matches <==> Selected(catalog, p, caller, key);
    verdict := Judge(matches);
    JudgeAnswers(catalog, p, caller, matches, verdict);
  }

  lemma CallersByPosition(catalog: seq<Row>, p: Place, caller: Option<string>, key: Key, candidates: seq<Row>)
    requires forall row :: row in candidates <==> Innermost(catalog, p, row)
    ensures CallerAt(candidates, p, caller, key, |candidates|) <==> IsCallers(catalog, p, caller, key)
  {
    hide Innermost;
    if k :| 0 <= k < |candidates| && caller == Some(candidates[k].id) && KeyOf(candidates[k], p) == key {
      assert candidates[k] in candidates;
    }
    if IsCallers(catalog, p, caller, key) {
      var row :| Innermost(catalog, p, row) && caller == Some(row.id) && KeyOf(row, p) == key;
      var k :| 0 <= k < |candidates| && candidates[k] == row;
    }
  }

  lemma CheckoutsByPosition(catalog: seq<Row>, p: Place, key: Key, candidates: seq<Row>)
    requires forall row :: row in candidates <==> Innermost(catalog, p, row)
    ensures (exists k :: 0 <= k < |candidates| && KeyOf(candidates[k], p) == key)
       <==> exists row :: Innermost(catalog, p, row) && KeyOf(row, p) == key
  {
    hide Innermost;
    if k :| 0 <= k < |candidates| && KeyOf(candidates[k], p) == key {
      assert candidates[k] in candidates;
    }
    if row :| Innermost(catalog, p, row) && KeyOf(row, p) == key {
      var k :| 0 <= k < |candidates| && candidates[k] == row;
    }
  }

  ghost predicate Judged(matches: set<Key>, verdict: Verdict) {
    match verdict
    case NoRepo => matches == {}
    case Repo(id) => exists key :: matches == {key} && key.repo == id
    case Ambiguous => exists a, b :: a in matches && b in matches && a != b
  }

  // One match names a repo, more are ambiguous.
  method Judge(matches: set<Key>) returns (verdict: Verdict)
    ensures Judged(matches, verdict)
  {
    if |matches| == 0 {
      return NoRepo;
    }
    var key :| key in matches;
    if |matches| > 1 {
      assert matches == {key} + (matches - {key});
      ghost var other :| other in matches - {key};
      return Ambiguous;
    }
    assert |matches - {key}| == 0;
    assert matches == {key};
    return Repo(key.repo);
  }

  lemma JudgeAnswers(catalog: seq<Row>, p: Place, caller: Option<string>, matches: set<Key>, verdict: Verdict)
    requires forall key :: key in matches <==> Selected(catalog, p, caller, key)
    requires Judged(matches, verdict)
    ensures Answers(catalog, p, caller, verdict)
  {
    hide Selected;
    if verdict.Repo? {
      var key :| matches == {key} && key.repo == verdict.id;
      assert key in matches;
    }
  }

  /** There is one right answer, and it depends only on which rows the catalog has: every permutation
      gets the same verdict. */
  lemma VerdictIgnoresOrder(catalog: seq<Row>, other: seq<Row>, p: Place, caller: Option<string>, a: Verdict,
                            b: Verdict)
    requires multiset(catalog) == multiset(other)
    requires Answers(catalog, p, caller, a) && Answers(other, p, caller, b)
    ensures a == b
  {
    forall row ensures row in catalog <==> row in other {
      assert row in catalog <==> row in multiset(catalog);
      assert row in other <==> row in multiset(other);
    }
    forall row ensures Innermost(catalog, p, row) <==> Innermost(other, p, row) {}
    SameSelected(catalog, other, p, caller);
    AnswerIsUnique(other, p, caller, a, b);
  }

  lemma SameSelected(catalog: seq<Row>, other: seq<Row>, p: Place, caller: Option<string>)
    requires forall row :: Innermost(catalog, p, row) <==> Innermost(other, p, row)
    ensures forall key :: Selected(catalog, p, caller, key) <==> Selected(other, p, caller, key)
    ensures forall verdict :: Answers(catalog, p, caller, verdict) <==> Answers(other, p, caller, verdict)
  {
    hide Innermost;
    forall key ensures IsCallers(catalog, p, caller, key) <==> IsCallers(other, p, caller, key) {}
  }

  lemma AnswerIsUnique(catalog: seq<Row>, p: Place, caller: Option<string>, a: Verdict, b: Verdict)
    requires Answers(catalog, p, caller, a) && Answers(catalog, p, caller, b)
    ensures a == b
  {
    hide Selected;
  }

  /** A repo is returned only if it owns a checkout that encloses the directory, on the caller's host, as
      deep as any row that is not a project group. */
  lemma RepoOwnsInnermost(catalog: seq<Row>, p: Place, caller: Option<string>, id: string)
    requires Answers(catalog, p, caller, Repo(id))
    ensures exists row :: row in catalog && row.repo == id && Candidate(row, p)
              && forall other :: other in catalog && Candidate(other, p) ==> Depth(other, p) <= Depth(row, p)
  {
    var key :| Selected(catalog, p, caller, key) && key.repo == id;
    var row :| Innermost(catalog, p, row) && KeyOf(row, p) == key;
  }

  // ---------------------------------------------------------------- workspace owners

  /** An innermost row of enclosingWorkspaceOwners, where project groups count as well. */
  ghost predicate Deepest(catalog: seq<Row>, p: Place, row: Row) {
    && row in catalog && Encloses(row, p)
    && forall other :: other in catalog && Encloses(other, p) ==> Depth(other, p) <= Depth(row, p)
  }

  ghost function DeepestOf(catalog: seq<Row>, p: Place): Row -> bool { (row: Row) => Deepest(catalog, p, row) }

  function OwnedBy(caller: Option<string>): Row -> bool { (row: Row) => caller == Some(row.id) }

  /** Row k is the first of its workspace in that checkout. */
  predicate OpensWorkspace(rows: seq<Row>, p: Place, checkout: Key, k: nat)
    requires k < |rows|
  {
    && KeyOf(rows[k], p) == checkout
    && forall j :: 0 <= j < k && KeyOf(rows[j], p) == checkout ==> rows[j].id != rows[k].id
  }

  function FirstPerWorkspace(rows: seq<Row>, p: Place, checkout: Key, n: nat): seq<Row>
    requires n <= |rows|
  {
    if n == 0 then []
    else FirstPerWorkspace(rows, p, checkout, n - 1)
         + if OpensWorkspace(rows, p, checkout, n - 1) then [rows[n - 1]] else []
  }

  /** The owners: the caller's first innermost row, or the first row of each workspace in the checkout of the
      first innermost row. */
  ghost function OwnersOf(catalog: seq<Row>, p: Place, caller: Option<string>): seq<Row> {
    var innermost := Filter(DeepestOf(catalog, p), catalog);
    var own := Filter(OwnedBy(caller), innermost);
    if own != [] then [own[0]]
    else if innermost == [] then []
    else FirstPerWorkspace(innermost, p, KeyOf(innermost[0], p), |innermost|)
  }

  /** enclosingWorkspaceOwners. */
  method EnclosingWorkspaceOwners(catalog: seq<Row>, p: Place, caller: Option<string>) returns (owners: seq<Row>)
    ensures owners == OwnersOf(catalog, p, caller)
  {
    hide Filter, Deepest, FirstPerWorkspace;
    var candidates := EnclosingCandidates(catalog, p);
    var depth := MaxDepth(candidates, p);
    var innermost := Filter(AtDepth(p, depth), candidates);
    InnermostIsDeepest(catalog, p, candidates, depth);
    var own := FirstOf(innermost, caller);
    if own.Some? {
      return [own.value];
    }
    if innermost == [] {
      return [];
    }
    owners := SameCheckout(innermost, p, KeyOf(innermost[0], p));
  }

  method FirstOf(rows: seq<Row>, caller: Option<string>) returns (own: Option<Row>)
    ensures var owned := Filter(OwnedBy(caller), rows);
            own == if owned == [] then None else Some(owned[0])
  {
    hide Filter;
    assert rows[0..] == rows;
    for i := 0 to |rows|
      invariant Filter(OwnedBy(caller), rows) == Filter(OwnedBy(caller), rows[i..])
    {
      FilterStep(OwnedBy(caller), rows, i);
      if caller == Some(rows[i].id) {
        return Some(rows[i]);
      }
      assert [] + Filter(OwnedBy(caller), rows[i + 1..]) == Filter(OwnedBy(caller), rows[i + 1..]);
    }
    FilterNone(OwnedBy(caller), rows[|rows|..]);
    return None;
  }

  // The map's keys are the workspaces met so far in the checkout.
  ghost predicate Met(rows: seq<Row>, p: Place, checkout: Key, n: nat, host: string, id: string)
    requires n <= |rows|
  {
    exists j :: 0 <= j < n && KeyOf(rows[j], p) == checkout && (HostOf(rows[j]), rows[j].id) == (host, id)
  }

  method SameCheckout(rows: seq<Row>, p: Place, checkout: Key) returns (owners: seq<Row>)
    ensures owners == FirstPerWorkspace(rows, p, checkout, |rows|)
  {
    hide Met, OpensWorkspace;
    owners := [];
    var seen: set<(string, string)> := {};
    NoneMet(rows, p, checkout);
    for i := 0 to |rows|
      invariant owners == FirstPerWorkspace(rows, p, checkout, i)
      invariant forall host, id :: (host, id) in seen <==> Met(rows, p, checkout, i, host, id)
    {
      var row := rows[i];
      MetNext(rows, p, checkout, i);
      assert OpensWorkspace(rows, p, checkout, i)
        <==> KeyOf(row, p) == checkout && !Met(rows, p, checkout, i, HostOf(row), row.id) by {
        OpensUnlessMet(rows, p, checkout, i);
      }
      if KeyOf(row, p) == checkout {
        if (HostOf(row), row.id) !in seen {
          seen := seen + {(HostOf(row), row.id)};
          owners := owners + [row];
        }
      }
    }
  }

  lemma NoneMet(rows: seq<Row>, p: Place, checkout: Key)
    ensures forall host, id :: !Met(rows, p, checkout, 0, host, id)
  {
  }

  lemma MetNext(rows: seq<Row>, p: Place, checkout: Key, i: nat)
    requires i < |rows|
    ensures forall host, id :: Met(rows, p, checkout, i + 1, host, id)
              <==> Met(rows, p, checkout, i, host, id)
                   || (KeyOf(rows[i], p) == checkout && (host, id) == (HostOf(rows[i]), rows[i].id))
  {
    hide KeyOf, HostOf;
  }

  lemma OpensUnlessMet(rows: seq<Row>, p: Place, checkout: Key, i: nat)
    requires i < |rows|
    ensures OpensWorkspace(rows, p, checkout, i)
       <==> KeyOf(rows[i], p) == checkout && !Met(rows, p, checkout, i, HostOf(rows[i]), rows[i].id)
  {
    assert forall j :: 0 <= j < i && KeyOf(rows[j], p) == checkout ==> HostOf(rows[j]) == checkout.host;
    hide HostOf;
  }

  lemma InnermostIsDeepest(catalog: seq<Row>, p: Place, candidates: seq<Row>, depth: int)
    requires candidates == Filter(Enclosing(p), catalog)
    requires candidates == [] ==> depth == -1
    requires candidates != [] ==> exists other :: other in candidates && Depth(other, p) == depth
    requires forall other :: other in candidates ==> Depth(other, p) <= depth
    ensures Filter(AtDepth(p, depth), candidates) == Filter(DeepestOf(catalog, p), catalog)
  {
    hide Filter;
    var both := (row: Row) => Depth(row, p) == depth && Encloses(row, p);
    FilterTwice(AtDepth(p, depth), Enclosing(p), both, catalog);
    forall row ensures row in candidates <==> row in catalog && Encloses(row, p) {
      FilterIs(Enclosing(p), catalog, row);
    }
    FilterSame(both, DeepestOf(catalog, p), catalog);
  }

  // ---------------------------------------------------------------- does their order matter?

  /** The workspaces that are offered: hosts with ids. */
  function Workspaces(owners: seq<Row>): set<(string, string)> {
    set owner | owner in owners :: (HostOf(owner), owner.id)
  }

  ghost predicate Owned(catalog: seq<Row>, p: Place, caller: Option<string>, row: Row) {
    Deepest(catalog, p, row) && caller == Some(row.id)
  }

  /** Workspace (host, id) has an innermost row in that checkout. */
  ghost predicate LivesIn(catalog: seq<Row>, p: Place, checkout: Key, host: string, id: string) {
    exists row :: Deepest(catalog, p, row) && KeyOf(row, p) == checkout && (HostOf(row), row.id) == (host, id)
  }

  /** If the caller owns innermost rows, they are on one host; if it owns none, every workspace of one
      innermost checkout is one of every other too. */
  ghost predicate OrderFree(catalog: seq<Row>, p: Place, caller: Option<string>) {
    if exists row :: Owned(catalog, p, caller, row) then
      forall a, b :: Owned(catalog, p, caller, a) && Owned(catalog, p, caller, b) ==> HostOf(a) == HostOf(b)
    else
      forall a, b :: Deepest(catalog, p, a) && Deepest(catalog, p, b) ==>
            LivesIn(catalog, p, KeyOf(b, p), HostOf(a), a.id)
  }

  lemma InnermostListIs(catalog: seq<Row>, p: Place)
    ensures forall row :: row in Filter(DeepestOf(catalog, p), catalog) <==> Deepest(catalog, p, row)
  {
    hide Filter;
    forall row ensures row in Filter(DeepestOf(catalog, p), catalog) <==> Deepest(catalog, p, row) {
      FilterIs(DeepestOf(catalog, p), catalog, row);
    }
  }

  lemma OwnedListIs(catalog: seq<Row>, p: Place, caller: Option<string>)
    ensures forall row :: row in Filter(OwnedBy(caller), Filter(DeepestOf(catalog, p), catalog)) <==>
              Owned(catalog, p, caller, row)
  {
    hide Filter, Deepest;
    InnermostListIs(catalog, p);
    var innermost := Filter(DeepestOf(catalog, p), catalog);
    forall row ensures row in Filter(OwnedBy(caller), innermost) <==> Owned(catalog, p, caller, row) {
      FilterIs(OwnedBy(caller), innermost, row);
    }
  }

  lemma {:induction false} EachWorkspaceOpens(rows: seq<Row>, p: Place, checkout: Key, n: nat, host: string, id: string)
    requires n <= |rows|
    ensures (host, id) in Workspaces(FirstPerWorkspace(rows, p, checkout, n)) <==> Met(rows, p, checkout, n, host, id)
  {
    hide Met, OpensWorkspace, KeyOf, HostOf;
    if n == 0 {
      NoneMet(rows, p, checkout);
    } else {
      EachWorkspaceOpens(rows, p, checkout, n - 1, host, id);
      MetNext(rows, p, checkout, n - 1);
      OpensUnlessMet(rows, p, checkout, n - 1);
      var before := FirstPerWorkspace(rows, p, checkout, n - 1);
      WorkspacesOfMore(before, rows[n - 1]);
    }
  }

  lemma WorkspacesOfMore(owners: seq<Row>, row: Row)
    ensures Workspaces(owners + [row]) == Workspaces(owners) + {(HostOf(row), row.id)}
  {
    hide HostOf;
    var all := owners + [row];
    assert forall owner :: owner in all <==> owner in owners || owner == row;
  }

  /** Which workspaces are offered: the caller's, on the host of its first innermost row; else those of the
      checkout of the first innermost row. */
  lemma OfferedWorkspaces(catalog: seq<Row>, p: Place, caller: Option<string>, host: string, id: string)
    ensures var innermost := Filter(DeepestOf(catalog, p), catalog);
            var own := Filter(OwnedBy(caller), innermost);
            (host, id) in Workspaces(OwnersOf(catalog, p, caller))
            <==> if own != [] then (host, id) == (HostOf(own[0]), own[0].id)
                 else innermost != [] && LivesIn(catalog, p, KeyOf(innermost[0], p), host, id)
  {
    hide Filter, Deepest, FirstPerWorkspace, KeyOf, HostOf, Met;
    var innermost := Filter(DeepestOf(catalog, p), catalog);
    InnermostListIs(catalog, p);
    if Filter(OwnedBy(caller), innermost) == [] && innermost != [] {
      var checkout := KeyOf(innermost[0], p);
      EachWorkspaceOpens(innermost, p, checkout, |innermost|, host, id);
      MetLives(catalog, p, innermost, checkout, host, id);
    }
  }

  lemma MetLives(catalog: seq<Row>, p: Place, innermost: seq<Row>, checkout: Key, host: string, id: string)
    requires forall row :: row in innermost <==> Deepest(catalog, p, row)
    ensures Met(innermost, p, checkout, |innermost|, host, id) <==> LivesIn(catalog, p, checkout, host, id)
  {
    hide Deepest, KeyOf, HostOf;
    if LivesIn(catalog, p, checkout, host, id) {
      var row :| Deepest(catalog, p, row) && KeyOf(row, p) == checkout && (HostOf(row), row.id) == (host, id);
      var j :| 0 <= j < |innermost| && innermost[j] == row;
    }
  }

  ghost predicate Permuted(catalog: seq<Row>, other: seq<Row>) { multiset(other) == multiset(catalog) }

  /** The workspaces offered are the same for every order of the catalog if and only if the catalog is
      OrderFree for the caller. */
  lemma WorkspacesIgnoreOrderIffFree(catalog: seq<Row>, p: Place, caller: Option<string>)
    ensures (forall other :: Permuted(catalog, other) ==>
               Workspaces(OwnersOf(other, p, caller)) == Workspaces(OwnersOf(catalog, p, caller)))
       <==> OrderFree(catalog, p, caller)
  {
    hide OwnersOf, OrderFree, Workspaces;
    if OrderFree(catalog, p, caller) {
      forall other | Permuted(catalog, other)
        ensures Workspaces(OwnersOf(other, p, caller)) == Workspaces(OwnersOf(catalog, p, caller))
      {
        FreeIsEnough(catalog, other, p, caller);
      }
    }
    if forall other :: Permuted(catalog, other) ==>
         Workspaces(OwnersOf(other, p, caller)) == Workspaces(OwnersOf(catalog, p, caller)) {
      FreeIsNeeded(catalog, p, caller);
    }
  }

  lemma FreeIsEnough(catalog: seq<Row>, other: seq<Row>, p: Place, caller: Option<string>)
    requires Permuted(catalog, other) && OrderFree(catalog, p, caller)
    ensures Workspaces(OwnersOf(other, p, caller)) == Workspaces(OwnersOf(catalog, p, caller))
  {
    hide Workspaces, OwnersOf;
    forall w: (string, string) ensures w in Workspaces(OwnersOf(other, p, caller))
                                  <==> w in Workspaces(OwnersOf(catalog, p, caller)) {
      SameOffer(catalog, other, p, caller, w.0, w.1);
    }
  }

  lemma SameOffer(catalog: seq<Row>, other: seq<Row>, p: Place, caller: Option<string>, host: string, id: string)
    requires Permuted(catalog, other) && OrderFree(catalog, p, caller)
    ensures (host, id) in Workspaces(OwnersOf(other, p, caller)) <==>
              (host, id) in Workspaces(OwnersOf(catalog, p, caller))
  {
    hide Filter, Deepest, Workspaces, OwnersOf, KeyOf, HostOf;
    SameDeepest(catalog, other, p);
    OfferedWorkspaces(catalog, p, caller, host, id);
    OfferedWorkspaces(other, p, caller, host, id);
    InnermostListIs(catalog, p);
    InnermostListIs(other, p);
    OwnedListIs(catalog, p, caller);
    OwnedListIs(other, p, caller);
    var a, b := Filter(DeepestOf(catalog, p), catalog), Filter(DeepestOf(other, p), other);
    var ownA, ownB := Filter(OwnedBy(caller), a), Filter(OwnedBy(caller), b);
    assert (ownB != [] ==> ownB[0] in ownB) && (b != [] ==> b[0] in b);
    if ownA != [] {
      assert Owned(catalog, p, caller, ownA[0]);
      assert ownA[0] in ownB;
      assert Owned(other, p, caller, ownB[0]);
    } else {
      if a != [] {
        assert a[0] in b;
        assert Deepest(catalog, p, a[0]) && Deepest(catalog, p, b[0]);
        SharedWorkspaces(catalog, p, a[0], b[0], host, id);
        SharedWorkspaces(catalog, p, b[0], a[0], host, id);
        assert LivesIn(catalog, p, KeyOf(b[0], p), host, id) <==> LivesIn(other, p, KeyOf(b[0], p), host, id);
      }
    }
  }

  lemma SharedWorkspaces(catalog: seq<Row>, p: Place, a: Row, b: Row, host: string, id: string)
    requires Deepest(catalog, p, b)
    requires forall a, b :: Deepest(catalog, p, a) && Deepest(catalog, p, b) ==>
               LivesIn(catalog, p, KeyOf(b, p), HostOf(a), a.id)
    ensures LivesIn(catalog, p, KeyOf(a, p), host, id) ==> LivesIn(catalog, p, KeyOf(b, p), host, id)
  {
    hide Deepest, KeyOf, HostOf;
    if LivesIn(catalog, p, KeyOf(a, p), host, id) {
      var row :| Deepest(catalog, p, row) && KeyOf(row, p) == KeyOf(a, p) && (HostOf(row), row.id) == (host, id);
    }
  }

  lemma FreeIsNeeded(catalog: seq<Row>, p: Place, caller: Option<string>)
    requires forall other :: Permuted(catalog, other) ==>
               Workspaces(OwnersOf(other, p, caller)) == Workspaces(OwnersOf(catalog, p, caller))
    ensures OrderFree(catalog, p, caller)
  {
    hide Deepest, OwnersOf, Workspaces, KeyOf, HostOf;
    if exists row :: Owned(catalog, p, caller, row) {
      forall a, b | Owned(catalog, p, caller, a) && Owned(catalog, p, caller, b) ensures HostOf(a) == HostOf(b) {
        var first := PutFirst(catalog, p, caller, a);
        var second := PutFirst(catalog, p, caller, b);
        assert (HostOf(a), a.id) in Workspaces(OwnersOf(second, p, caller));
      }
    } else {
      forall a, b | Deepest(catalog, p, a) && Deepest(catalog, p, b)
        ensures LivesIn(catalog, p, KeyOf(b, p), HostOf(a), a.id)
      {
        var first := PutFirst(catalog, p, caller, a);
        var second := PutFirst(catalog, p, caller, b);
        assert (HostOf(a), a.id) in Workspaces(OwnersOf(second, p, caller));
      }
    }
  }

  lemma SameDeepest(a: seq<Row>, b: seq<Row>, p: Place)
    requires Permuted(a, b)
    ensures forall row :: Deepest(a, p, row) <==> Deepest(b, p, row)
    ensures forall caller, row :: Owned(a, p, caller, row) <==> Owned(b, p, caller, row)
  {
    forall row ensures row in a <==> row in b {
      assert row in a <==> row in multiset(a);
      assert row in b <==> row in multiset(b);
    }
  }

  lemma MovedFirst(catalog: seq<Row>, i: nat)
    requires i < |catalog|
    ensures Permuted(catalog, [catalog[i]] + (catalog[..i] + catalog[i + 1..]))
  {
    assert catalog == catalog[..i] + [catalog[i]] + catalog[i + 1..];
  }

  // Any innermost row can be made the first one, and then decides what is offered.
  lemma PutFirst(catalog: seq<Row>, p: Place, caller: Option<string>, row: Row) returns (other: seq<Row>)
    requires Deepest(catalog, p, row)
    requires Owned(catalog, p, caller, row) || forall own :: !Owned(catalog, p, caller, own)
    ensures Permuted(catalog, other)
    ensures (HostOf(row), row.id) in Workspaces(OwnersOf(other, p, caller))
    ensures forall host, id :: (host, id) in Workspaces(OwnersOf(other, p, caller))
              ==> if Owned(catalog, p, caller, row) then (host, id) == (HostOf(row), row.id)
                  else LivesIn(catalog, p, KeyOf(row, p), host, id)
  {
    var i :| 0 <= i < |catalog| && catalog[i] == row;
    hide Deepest, KeyOf, HostOf, Workspaces, OwnersOf, Filter;
    other := [row] + (catalog[..i] + catalog[i + 1..]);
    MovedFirst(catalog, i);
    SameDeepest(catalog, other, p);
    FilterStep(DeepestOf(other, p), other, 0);
    assert other[0..] == other && other[0] == row;
    var innermost := Filter(DeepestOf(other, p), other);
    assert innermost[0] == row;
    FilterStep(OwnedBy(caller), innermost, 0);
    assert innermost[0..] == innermost;
    OwnedListIs(other, p, caller);
    var own := Filter(OwnedBy(caller), innermost);
    assert own != [] ==> own[0] in own;
    forall host, id ensures (host, id) in Workspaces(OwnersOf(other, p, caller))
      <==> if Owned(catalog, p, caller, row) then (host, id) == (HostOf(row), row.id)
           else LivesIn(catalog, p, KeyOf(row, p), host, id) {
      OfferedWorkspaces(other, p, caller, host, id);
    }
  }

  /** Where an id stands for one checkout on its host, that means: all innermost rows of the caller share one
      checkout, or it owns none and all innermost rows do. */
  lemma FreeIffOneCheckout(catalog: seq<Row>, p: Place, caller: Option<string>)
    requires forall a, b :: Deepest(catalog, p, a) && Deepest(catalog, p, b) && HostOf(a) == HostOf(b) && a.id == b.id
               ==> KeyOf(a, p) == KeyOf(b, p)
    ensures OrderFree(catalog, p, caller)
       <==> if exists row :: Owned(catalog, p, caller, row)
            then forall a, b :: Owned(catalog, p, caller, a) && Owned(catalog, p, caller, b) ==>
                  KeyOf(a, p) == KeyOf(b, p)
            else forall a, b :: Deepest(catalog, p, a) && Deepest(catalog, p, b) ==> KeyOf(a, p) == KeyOf(b, p)
  {
    assert forall a, b :: KeyOf(a, p) == KeyOf(b, p) ==> HostOf(a) == HostOf(b);
    hide Deepest, KeyOf, HostOf;
    if OrderFree(catalog, p, caller) && !exists row :: Owned(catalog, p, caller, row) {
      forall a, b | Deepest(catalog, p, a) && Deepest(catalog, p, b) ensures KeyOf(a, p) == KeyOf(b, p) {
        assert LivesIn(catalog, p, KeyOf(b, p), HostOf(a), a.id);
      }
    }
  }

  /** Two checkouts of one directory, offered according to which comes first. */
  lemma OrderCanMatter()
    ensures exists a: Row, b: Row, p: Place ::
              OwnersOf([a, b], p, None) == [a] && OwnersOf([b, a], p, None) == [b]
              && Workspaces([a]) != Workspaces([b])
  {
    var a, b := Row("first", "/code", None, "one"), Row("second", "/code", None, "two");
    var p := Place("local", _ => false, _ => true, path => path, _ => false);
    FirstWins(a, b, p);
    FirstWins(b, a, p);
    assert ("local", "first") in Workspaces([a]) && ("local", "first") !in Workspaces([b]);
  }

  lemma FirstWins(a: Row, b: Row, p: Place)
    requires a.repo != b.repo && Encloses(a, p) && Encloses(b, p) && Depth(a, p) == Depth(b, p)
    ensures OwnersOf([a, b], p, None) == [a]
  {
    var catalog := [a, b];
    FilterAll(DeepestOf(catalog, p), catalog);
    FilterNone(OwnedBy(None), catalog);
    hide Filter, Deepest;
    assert FirstPerWorkspace(catalog, p, KeyOf(a, p), 0) == [];
    assert OpensWorkspace(catalog, p, KeyOf(a, p), 0) && !OpensWorkspace(catalog, p, KeyOf(a, p), 1);
    assert FirstPerWorkspace(catalog, p, KeyOf(a, p), 1) == [a];
  }
}

/**
 Command suggestions for a mistyped command (src/cli/command-suggestion.ts): families of destructive
 verbs, the candidates at the right depth, and the nearest three of them.
 */
module Suggestions {
  import opened Common
  import opened CommandSpecs
  import EditDistance

  const SUGGESTION_THRESHOLD := 3
  const MAX_SUGGESTIONS := 3
  const DESTRUCTIVE_INTENT_THRESHOLD := 1

  function FinalToken(path: Path): string { if path == [] then "" else path[|path| - 1] }

  // ---------------------------------------------------------------- families of destructive verbs

  type Families = map<string, set<string>>

  function Verbs(spec: Spec): set<string> { set path | path in SpecPaths(spec) :: FinalToken(path) }

  function FamilyOf(families: Families, verb: string): set<string> {
    if verb in families then families[verb] else {verb}
  }

  function Merged(families: Families, verbs: set<string>): set<string> {
    set verb, member | verb in verbs && member in FamilyOf(families, verb) :: member
  }

  function WithFamily(families: Families, family: set<string>): Families {
    families + map verb | verb in family :: family
  }

  function AddSpec(families: Families, spec: Spec): Families {
    if !spec.destructive then families else WithFamily(families, Merged(families, Verbs(spec)))
  }

  function FamiliesOf(specs: seq<Spec>): Families {
    if specs == [] then map[] else AddSpec(FamiliesOf(specs[..|specs| - 1]), specs[|specs| - 1])
  }

  method MergeFamilies(families: Families, spec: Spec) returns (family: set<string>)
    ensures family == Merged(families, Verbs(spec))
  {
    var paths := SpecPaths(spec);
    family := {};
    for j := 0 to |paths|
      invariant forall member :: member in family <==>
                  exists k :: 0 <= k < j && member in FamilyOf(families, FinalToken(paths[k]))
    {
      family := family + FamilyOf(families, FinalToken(paths[j]));
    }
    forall member ensures member in family <==> member in Merged(families, Verbs(spec)) {
      if member in family {
        var k :| 0 <= k < |paths| && member in FamilyOf(families, FinalToken(paths[k]));
        assert paths[k] in paths && FinalToken(paths[k]) in Verbs(spec);
      }
      if member in Merged(families, Verbs(spec)) {
        var verb :| verb in Verbs(spec) && member in FamilyOf(families, verb);
        var path :| path in paths && FinalToken(path) == verb;
        var k :| 0 <= k < |paths| && paths[k] == path;
      }
    }
  }

  method AssignFamily(families: Families, family: set<string>) returns (after: Families)
    ensures after == WithFamily(families, family)
  {
    after := families;
    var left := family;
    while left != {}
      invariant left <= family
      invariant after == families + map verb | verb in family - left :: family
    {
      var verb :| verb in left;
      after := after[verb := family];
      left := left - {verb};
    }
    assert family - {} == family;
  }

  method DestructiveVerbFamilies(specs: seq<Spec>) returns (families: Families)
    ensures families == FamiliesOf(specs)
  {
    families := map[];
    for i := 0 to |specs|
      invariant families == FamiliesOf(specs[..i])
    {
      assert specs[..i + 1][..i] == specs[..i];
      if !specs[i].destructive {
        continue;
      }
      var family := MergeFamilies(families, specs[i]);
      families := AssignFamily(families, family);
    }
    assert specs[..|specs|] == specs;
  }

  /** Two verbs that one destructive command goes by. */
  ghost predicate Joined(specs: seq<Spec>, a: string, b: string) {
    exists i :: 0 <= i < |specs| && specs[i].destructive && a in Verbs(specs[i]) && b in Verbs(specs[i])
  }

  ghost predicate IsChain(specs: seq<Spec>, chain: seq<string>, a: string, b: string) {
    && |chain| >= 2 && chain[0] == a && chain[|chain| - 1] == b
    && forall i :: 0 <= i < |chain| - 1 ==> Joined(specs, chain[i], chain[i + 1])
  }

  /** Two verbs linked by a chain of destructive commands with overlapping verbs. */
  ghost predicate Linked(specs: seq<Spec>, a: string, b: string) {
    exists chain :: IsChain(specs, chain, a, b)
  }

  lemma JoinedIsLinked(specs: seq<Spec>, a: string, b: string)
    requires Joined(specs, a, b)
    ensures Linked(specs, a, b)
  {
    assert IsChain(specs, [a, b], a, b);
  }

  lemma LinkedBack(specs: seq<Spec>, a: string, b: string)
    requires Linked(specs, a, b)
    ensures Linked(specs, b, a)
  {
    var chain :| IsChain(specs, chain, a, b);
    var n := |chain|;
    var back := seq(n, i requires 0 <= i < n => chain[n - 1 - i]);
    forall i | 0 <= i < n - 1 ensures Joined(specs, back[i], back[i + 1]) {
      assert Joined(specs, chain[n - 2 - i], chain[n - 2 - i + 1]);
    }
    assert IsChain(specs, back, b, a);
  }

  lemma LinkedOn(specs: seq<Spec>, a: string, b: string, c: string)
    requires Linked(specs, a, b) && Linked(specs, b, c)
    ensures Linked(specs, a, c)
  {
    var first :| IsChain(specs, first, a, b);
    var second :| IsChain(specs, second, b, c);
    var chain := first + second[1..];
    forall i | 0 <= i < |chain| - 1 ensures Joined(specs, chain[i], chain[i + 1]) {
      if i < |first| - 1 {
        assert Joined(specs, first[i], first[i + 1]);
      } else {
        var k := i - (|first| - 1);
        assert chain[i] == second[k] && chain[i + 1] == second[k + 1];
        assert Joined(specs, second[k], second[k + 1]);
      }
    }
    assert IsChain(specs, chain, a, c);
  }

  lemma LinkedInMore(specs: seq<Spec>, a: string, b: string)
    requires specs != [] && Linked(specs[..|specs| - 1], a, b)
    ensures Linked(specs, a, b)
  {
    var before := specs[..|specs| - 1];
    var chain :| IsChain(before, chain, a, b);
    forall i | 0 <= i < |chain| - 1 ensures Joined(specs, chain[i], chain[i + 1]) {
      assert Joined(before, chain[i], chain[i + 1]);
      var k :| 0 <= k < |before| && before[k].destructive && chain[i] in Verbs(before[k])
            && chain[i + 1] in Verbs(before[k]);
      assert specs[k] == before[k];
    }
    assert IsChain(specs, chain, a, b);
  }

  // Every member of a family maps to that same family.
  ghost predicate Partition(families: Families) {
    forall a :: a in families ==> a in families[a] && forall b :: b in families[a] ==>
          b in families && families[b] == families[a]
  }

  // A merged set takes in whole families, or leaves them alone.
  ghost predicate Absorbs(families: Families, family: set<string>) {
    forall a :: a in families ==> if a in family then families[a] <= family else families[a] !! family
  }

  lemma FamilyGoesTogether(families: Families, verbs: set<string>, a: string, b: string)
    requires Partition(families) && a in families && b in families[a] && a in Merged(families, verbs)
    ensures b in Merged(families, verbs)
  {
    var v :| v in verbs && a in FamilyOf(families, v);
    assert b in FamilyOf(families, v);
  }

  lemma MergedAbsorbs(families: Families, verbs: set<string>)
    requires Partition(families)
    ensures verbs <= Merged(families, verbs) && Absorbs(families, Merged(families, verbs))
  {
    forall v | v in verbs ensures v in Merged(families, verbs) {
      assert v in FamilyOf(families, v);
    }
    hide Merged;
    forall a, b | a in families && b in families[a]
      ensures a in Merged(families, verbs) <==> b in Merged(families, verbs)
    {
      if a in Merged(families, verbs) { FamilyGoesTogether(families, verbs, a, b); }
      if b in Merged(families, verbs) { FamilyGoesTogether(families, verbs, b, a); }
    }
  }

  lemma AbsorbingKeepsPartition(families: Families, family: set<string>)
    requires Partition(families) && Absorbs(families, family)
    ensures Partition(WithFamily(families, family))
    ensures forall a :: a in families ==>
              a in WithFamily(families, family) && families[a] <= WithFamily(families, family)[a]
  {
    var after := WithFamily(families, family);
    forall a | a in after ensures a in after[a] && forall b :: b in after[a] ==> b in after && after[b] == after[a] {
      if a !in family {
        assert after[a] == families[a];
      }
    }
  }

  lemma AddKeepsPartition(families: Families, spec: Spec)
    requires Partition(families)
    ensures Partition(AddSpec(families, spec))
    ensures forall a :: a in families ==> a in AddSpec(families, spec) && families[a] <= AddSpec(families, spec)[a]
    ensures spec.destructive ==> forall v :: v in Verbs(spec) ==>
              v in AddSpec(families, spec) && Verbs(spec) <= AddSpec(families, spec)[v]
  {
    if spec.destructive {
      hide Merged, Partition, Absorbs;
      MergedAbsorbs(families, Verbs(spec));
      AbsorbingKeepsPartition(families, Merged(families, Verbs(spec)));
    }
  }

  lemma {:induction false} FamiliesArePartition(specs: seq<Spec>)
    ensures Partition(FamiliesOf(specs))
  {
    if specs != [] {
      FamiliesArePartition(specs[..|specs| - 1]);
      AddKeepsPartition(FamiliesOf(specs[..|specs| - 1]), specs[|specs| - 1]);
    }
  }

  // Sharing a family means being linked.
  lemma {:induction false} SharedIsLinked(specs: seq<Spec>, a: string, b: string)
    requires a in FamiliesOf(specs) && b in FamiliesOf(specs)[a]
    ensures Linked(specs, a, b)
    decreases |specs|, 1
  {
    hide Linked;
    var before, spec := specs[..|specs| - 1], specs[|specs| - 1];
    var families := FamiliesOf(before);
    var family := Merged(families, Verbs(spec));
    if spec.destructive && a in family {
      var v :| v in Verbs(spec) && a in FamilyOf(families, v);
      var w :| w in Verbs(spec) && b in FamilyOf(families, w);
      LinkedToVerb(specs, v, a);
      LinkedToVerb(specs, w, b);
      assert specs[|specs| - 1] == spec;
      assert Joined(specs, v, w);
      JoinedIsLinked(specs, v, w);
      LinkedBack(specs, v, a);
      LinkedOn(specs, a, v, w);
      LinkedOn(specs, a, w, b);
    } else {
      SharedIsLinked(before, a, b);
      LinkedInMore(specs, a, b);
    }
  }

  lemma {:induction false} LinkedToVerb(specs: seq<Spec>, v: string, a: string)
    requires specs != [] && specs[|specs| - 1].destructive && v in Verbs(specs[|specs| - 1])
    requires a in FamilyOf(FamiliesOf(specs[..|specs| - 1]), v)
    ensures Linked(specs, v, a)
    decreases |specs|, 0
  {
    var before := specs[..|specs| - 1];
    if v in FamiliesOf(before) {
      SharedIsLinked(before, v, a);
      LinkedInMore(specs, v, a);
    } else {
      assert Joined(specs, v, a);
      JoinedIsLinked(specs, v, a);
    }
  }

  // One step of a chain stays within a family.
  lemma {:induction false} JoinedShare(specs: seq<Spec>, a: string, b: string)
    requires Joined(specs, a, b)
    ensures var families := FamiliesOf(specs); a in families && b in families[a]
  {
    var before, spec := specs[..|specs| - 1], specs[|specs| - 1];
    FamiliesArePartition(before);
    AddKeepsPartition(FamiliesOf(before), spec);
    FamiliesArePartition(specs);
    if spec.destructive && a in Verbs(spec) && b in Verbs(spec) {
    } else {
      var i :| 0 <= i < |specs| && specs[i].destructive && a in Verbs(specs[i]) && b in Verbs(specs[i]);
      assert before[i] == specs[i];
      JoinedShare(before, a, b);
    }
  }

  lemma {:induction false} ChainShares(specs: seq<Spec>, chain: seq<string>, a: string, b: string)
    requires IsChain(specs, chain, a, b)
    ensures var families := FamiliesOf(specs); a in families && b in families[a]
  {
    JoinedShare(specs, chain[0], chain[1]);
    if |chain| > 2 {
      var rest := chain[1..];
      forall i | 0 <= i < |rest| - 1 ensures Joined(specs, rest[i], rest[i + 1]) {
        assert Joined(specs, chain[i + 1], chain[i + 2]);
      }
      ChainShares(specs, rest, chain[1], b);
      FamiliesArePartition(specs);
    }
  }

  /** The incremental merge computes connected components: two verbs share a family exactly when a chain of
      destructive commands links them, and every member of a family maps to that same set. */
  lemma FamiliesAreComponents(specs: seq<Spec>, a: string, b: string)
    ensures var families := FamiliesOf(specs);
            && (a in families && b in families[a] <==> Linked(specs, a, b))
            && (a in families && b in families[a] ==> b in families && families[b] == families[a])
  {
    FamiliesArePartition(specs);
    var families := FamiliesOf(specs);
    if a in families && b in families[a] {
      SharedIsLinked(specs, a, b);
    }
    if Linked(specs, a, b) {
      var chain :| IsChain(specs, chain, a, b);
      ChainShares(specs, chain, a, b);
    }
  }

  /** Hence the order in which the commands are registered does not matter. */
  lemma FamiliesIgnoreOrder(specs: seq<Spec>, other: seq<Spec>)
    requires multiset(specs) == multiset(other)
    ensures FamiliesOf(specs) == FamiliesOf(other)
  {
    var f, g := FamiliesOf(specs), FamiliesOf(other);
    forall a, b ensures a in f && b in f[a] <==> a in g && b in g[a] {
      FamiliesAreComponents(specs, a, b);
      FamiliesAreComponents(other, a, b);
      if Linked(specs, a, b) { SameLinks(specs, other, a, b); }
      if Linked(other, a, b) { SameLinks(other, specs, a, b); }
    }
    FamiliesArePartition(specs);
    FamiliesArePartition(other);
    forall a ensures a in f <==> a in g {
      if a in f { assert a in f[a]; }
      if a in g { assert a in g[a]; }
    }
    forall a | a in f ensures f[a] == g[a] {
      forall b ensures b in f[a] <==> b in g[a] {}
    }
  }

  lemma SameLinks(specs: seq<Spec>, other: seq<Spec>, a: string, b: string)
    requires multiset(specs) == multiset(other) && Linked(specs, a, b)
    ensures Linked(other, a, b)
  {
    var chain :| IsChain(specs, chain, a, b);
    forall i | 0 <= i < |chain| - 1 ensures Joined(other, chain[i], chain[i + 1]) {
      assert Joined(specs, chain[i], chain[i + 1]);
      var k :| 0 <= k < |specs| && specs[k].destructive && chain[i] in Verbs(specs[k])
            && chain[i + 1] in Verbs(specs[k]);
      assert specs[k] in multiset(specs);
      assert specs[k] in other;
    }
    assert IsChain(other, chain, a, b);
  }

  // ---------------------------------------------------------------- scoring

  function Join(path: Path): string {
    if path == [] then "" else if |path| == 1 then path[0] else Join(path[..|path| - 1]) + " " + path[|path| - 1]
  }

  predicate Near(a: string, b: string, limit: nat) { |a| <= |b| + limit && |b| <= |a| + limit }

  predicate Intends(token: string, verb: string) {
    EditDistance.Distance(token, verb) <= DESTRUCTIVE_INTENT_THRESHOLD
  }

  /** intendsDestruction: the lengths are compared before the distance is computed. */
  predicate IntendsDestruction(token: string, verbs: Option<set<string>>) {
    && verbs.Some?
    && exists verb :: verb in verbs.value && Near(token, verb, DESTRUCTIVE_INTENT_THRESHOLD) && Intends(token, verb)
  }

  lemma LengthsLoseNoIntent(token: string, verbs: Option<set<string>>)
    ensures IntendsDestruction(token, verbs) <==>
              verbs.Some? && exists verb :: verb in verbs.value && Intends(token, verb)
  {
    if verbs.Some? {
      forall verb | verb in verbs.value && Intends(token, verb)
        ensures Near(token, verb, DESTRUCTIVE_INTENT_THRESHOLD)
      {
        EditDistance.DistanceBounds(token, verb);
      }
    }
  }

  // A path at the depth that was typed: for one word, only the first is compared.
  function Cut(path: Path, commandPath: Path): Path {
    if |commandPath| == 1 && |path| > 1 then path[..1] else path
  }

  function Candidates(spec: Spec, commandPath: Path): seq<Path> {
    var paths := SpecPaths(spec);
    Filter((path: Path) => |path| == |commandPath|,
           seq(|paths|, i requires 0 <= i < |paths| => Cut(paths[i], commandPath)))
  }

  predicate Offered(spec: Spec, commandPath: Path, families: Families) {
    !spec.hidden
    && (spec.destructive ==> IntendsDestruction(FinalToken(commandPath),
          if FinalToken(spec.path) in families then Some(families[FinalToken(spec.path)]) else None))
  }

  // Each name once, in order of first use.
  function Fresh(labels: seq<string>, paths: seq<Path>): seq<string>
    decreases |paths|
  {
    if paths == [] then labels
    else Fresh(if Join(paths[0]) in labels then labels else labels + [Join(paths[0])], paths[1..])
  }

  function Labels(specs: seq<Spec>, commandPath: Path, families: Families, labels: seq<string>): seq<string>
    decreases |specs|
  {
    if specs == [] then labels
    else
      Labels(specs[1..], commandPath, families,
             if Offered(specs[0], commandPath, families) then Fresh(labels, Candidates(specs[0], commandPath))
             else labels)
  }

  datatype Scored = Scored(name: string, distance: nat)

  function Score(input: string, labels: seq<string>): seq<Scored> {
    if labels == [] then []
    else
      var last := labels[|labels| - 1];
      Score(input, labels[..|labels| - 1]) + [Scored(last, EditDistance.Distance(input, last))]
  }

  // Only labels of a near enough length are scored.
  function ScoreNear(input: string, labels: seq<string>): seq<Scored> {
    if labels == [] then []
    else
      var name := labels[|labels| - 1];
      ScoreNear(input, labels[..|labels| - 1])
      + if Near(input, name, SUGGESTION_THRESHOLD) then [Scored(name, EditDistance.Distance(input, name))] else []
  }

  // ---------------------------------------------------------------- ranking

  predicate Suggestible(entry: Scored) { 0 < entry.distance <= SUGGESTION_THRESHOLD }

  /** The sort order: by distance, then by the collation weight of the name (any weights at all). */
  predicate InOrder(a: Scored, b: Scored, weight: string -> real) {
    a.distance < b.distance || (a.distance == b.distance && weight(a.name) <= weight(b.name))
  }

  // A stable sort, as Array.prototype.sort is.
  function Insert(entry: Scored, sorted: seq<Scored>, weight: string -> real): seq<Scored> {
    if sorted == [] then [entry]
    else if InOrder(sorted[|sorted| - 1], entry, weight) then sorted + [entry]
    else Insert(entry, sorted[..|sorted| - 1], weight) + [sorted[|sorted| - 1]]
  }

  function Sort(entries: seq<Scored>, weight: string -> real): seq<Scored> {
    if entries == [] then [] else Insert(entries[|entries| - 1], Sort(entries[..|entries| - 1], weight), weight)
  }

  function Best(scored: seq<Scored>, weight: string -> real): seq<Scored> {
    var sorted := Sort(Filter(Suggestible, scored), weight);
    if |sorted| <= MAX_SUGGESTIONS then sorted else sorted[..MAX_SUGGESTIONS]
  }

  function LabelsOf(entries: seq<Scored>): seq<string> {
    seq(|entries|, i requires 0 <= i < |entries| => entries[i].name)
  }

  function RankByDistance(scored: seq<Scored>, weight: string -> real): seq<string> { LabelsOf(Best(scored, weight)) }

  ghost predicate Sorted(entries: seq<Scored>, weight: string -> real) {
    forall i, j :: 0 <= i < j < |entries| ==> InOrder(entries[i], entries[j], weight)
  }

  lemma {:induction false} InsertAdds(entry: Scored, sorted: seq<Scored>, weight: string -> real)
    ensures multiset(Insert(entry, sorted, weight)) == multiset(sorted) + multiset{entry}
  {
    hide InOrder;
    if sorted != [] && !InOrder(sorted[|sorted| - 1], entry, weight) {
      assert sorted == sorted[..|sorted| - 1] + [sorted[|sorted| - 1]];
      InsertAdds(entry, sorted[..|sorted| - 1], weight);
    }
  }

  lemma OrderIsTotal(a: Scored, b: Scored, weight: string -> real)
    ensures InOrder(a, b, weight) || InOrder(b, a, weight)
  {
  }

  lemma LastBounds(sorted: seq<Scored>, entry: Scored, weight: string -> real)
    requires Sorted(sorted, weight) && sorted != [] && InOrder(sorted[|sorted| - 1], entry, weight)
    ensures forall i :: 0 <= i < |sorted| ==> InOrder(sorted[i], entry, weight)
  {
  }

  lemma {:induction false} InsertSorts(entry: Scored, sorted: seq<Scored>, weight: string -> real)
    requires Sorted(sorted, weight)
    ensures Sorted(Insert(entry, sorted, weight), weight)
  {
    if sorted != [] {
      hide InOrder;
      var before, last := sorted[..|sorted| - 1], sorted[|sorted| - 1];
      if InOrder(last, entry, weight) {
        LastBounds(sorted, entry, weight);
      } else {
        InsertSorts(entry, before, weight);
        InsertAdds(entry, before, weight);
        OrderIsTotal(last, entry, weight);
        var inserted := Insert(entry, before, weight);
        forall i | 0 <= i < |inserted| ensures InOrder(inserted[i], last, weight) {
          assert inserted[i] in multiset(inserted);
          if inserted[i] != entry {
            var k :| 0 <= k < |before| && before[k] == inserted[i];
          }
        }
      }
    }
  }

  lemma {:induction false} SortSorts(entries: seq<Scored>, weight: string -> real)
    ensures Sorted(Sort(entries, weight), weight) && multiset(Sort(entries, weight)) == multiset(entries)
  {
    if entries != [] {
      var before, last := entries[..|entries| - 1], entries[|entries| - 1];
      assert entries == before + [last];
      SortSorts(before, weight);
      InsertSorts(last, Sort(before, weight), weight);
      InsertAdds(last, Sort(before, weight), weight);
    }
  }

  lemma PrefixIsNearest(sorted: seq<Scored>, n: nat, weight: string -> real)
    requires Sorted(sorted, weight) && n <= |sorted|
    ensures Sorted(sorted[..n], weight) && multiset(sorted[..n]) <= multiset(sorted)
    ensures forall kept, left :: kept in sorted[..n] && left in multiset(sorted) - multiset(sorted[..n]) ==>
              InOrder(kept, left, weight)
  {
    hide InOrder;
    assert sorted == sorted[..n] + sorted[n..];
    assert multiset(sorted) - multiset(sorted[..n]) == multiset(sorted[n..]);
    forall kept, left | kept in sorted[..n] && left in multiset(sorted[n..]) ensures InOrder(kept, left, weight) {
      var i :| 0 <= i < n && sorted[..n][i] == kept;
      var j :| 0 <= j < |sorted[n..]| && sorted[n..][j] == left;
      assert sorted[n + j] == left;
    }
  }

  /** The best are at most three, sorted, taken from the scored entries at distance 1 to 3, and none that
      is left out comes before any of them. */
  lemma BestAreNearest(scored: seq<Scored>, weight: string -> real)
    ensures var best, all := Best(scored, weight), Filter(Suggestible, scored);
            && Sorted(best, weight)
            && |best| == (if |all| <= MAX_SUGGESTIONS then |all| else MAX_SUGGESTIONS)
            && multiset(best) <= multiset(all)
            && (forall entry :: entry in best ==> entry in scored && Suggestible(entry))
            && forall kept, left :: kept in best && left in multiset(all) - multiset(best) ==>
                  InOrder(kept, left, weight)
  {
    hide InOrder, Filter, Sort;
    var all := Filter(Suggestible, scored);
    var sorted := Sort(all, weight);
    SortSorts(all, weight);
    assert |sorted| == |multiset(sorted)| == |multiset(all)| == |all|;
    var n := if |sorted| <= MAX_SUGGESTIONS then |sorted| else MAX_SUGGESTIONS;
    assert Best(scored, weight) == sorted[..n];
    PrefixIsNearest(sorted, n, weight);
    forall entry | entry in sorted[..n] ensures entry in scored && Suggestible(entry) {
      assert entry in multiset(sorted);
      FilterIs(Suggestible, scored, entry);
    }
  }

  lemma {:induction false} LengthsLoseNoScore(input: string, labels: seq<string>)
    ensures Filter(Suggestible, ScoreNear(input, labels)) == Filter(Suggestible, Score(input, labels))
  {
    if labels != [] {
      var before, name := labels[..|labels| - 1], labels[|labels| - 1];
      var entry := Scored(name, EditDistance.Distance(input, name));
      LengthsLoseNoScore(input, before);
      EditDistance.DistanceBounds(input, name);
      var near := if Near(input, name, SUGGESTION_THRESHOLD) then [entry] else [];
      FilterConcat(Suggestible, ScoreNear(input, before), near);
      FilterConcat(Suggestible, Score(input, before), [entry]);
      assert Filter(Suggestible, [entry]) == (if Suggestible(entry) then [entry] else []) + Filter(Suggestible, []);
    }
  }

  // ---------------------------------------------------------------- which labels are offered

  /** One of the command's paths, at the depth that was typed, spells the label. */
  ghost predicate SpelledBy(spec: Spec, commandPath: Path, name: string) {
    exists path :: path in SpecPaths(spec)
                   && |Cut(path, commandPath)| == |commandPath| && Join(Cut(path, commandPath)) == name
  }

  lemma CandidatesAre(spec: Spec, commandPath: Path, name: string)
    ensures (exists j :: 0 <= j < |Candidates(spec, commandPath)| && Join(Candidates(spec, commandPath)[j]) == name)
       <==> SpelledBy(spec, commandPath, name)
  {
    hide Filter, Join;
    var paths, fits := SpecPaths(spec), (path: Path) => |path| == |commandPath|;
    var cut := seq(|paths|, i requires 0 <= i < |paths| => Cut(paths[i], commandPath));
    assert Candidates(spec, commandPath) == Filter(fits, cut);
    if j :| 0 <= j < |Filter(fits, cut)| && Join(Filter(fits, cut)[j]) == name {
      var path := Filter(fits, cut)[j];
      FilterIs(fits, cut, path);
      var i :| 0 <= i < |cut| && cut[i] == path;
      assert paths[i] in paths;
    }
    if SpelledBy(spec, commandPath, name) {
      var path :| path in paths && |Cut(path, commandPath)| == |commandPath| && Join(Cut(path, commandPath)) == name;
      var i :| 0 <= i < |paths| && paths[i] == path;
      assert cut[i] == Cut(path, commandPath);
      FilterIs(fits, cut, cut[i]);
      var j :| 0 <= j < |Filter(fits, cut)| && Filter(fits, cut)[j] == cut[i];
    }
  }

  ghost predicate Different(labels: seq<string>) { forall i, j :: 0 <= i < j < |labels| ==> labels[i] != labels[j] }

  lemma {:induction false} FreshAdds(labels: seq<string>, paths: seq<Path>, name: string)
    ensures name in Fresh(labels, paths) <==> name in labels || exists j :: 0 <= j < |paths| && Join(paths[j]) == name
    ensures Different(labels) ==> Different(Fresh(labels, paths))
    decreases |paths|
  {
    hide Join;
    if paths != [] {
      var more := if Join(paths[0]) in labels then labels else labels + [Join(paths[0])];
      FreshAdds(more, paths[1..], name);
      if j :| 0 <= j < |paths| && Join(paths[j]) == name {
        assert j > 0 ==> paths[1..][j - 1] == paths[j];
      }
      if j :| 0 <= j < |paths[1..]| && Join(paths[1..][j]) == name {
        assert paths[j + 1] == paths[1..][j];
      }
    }
  }

  ghost predicate OfferedIn(specs: seq<Spec>, commandPath: Path, families: Families, name: string) {
    exists spec :: spec in specs && Offered(spec, commandPath, families) && SpelledBy(spec, commandPath, name)
  }

  lemma {:induction false} LabelsAdd(specs: seq<Spec>, commandPath: Path, families: Families, labels: seq<string>,
                                     name: string)
    ensures name in Labels(specs, commandPath, families, labels)
       <==> name in labels || OfferedIn(specs, commandPath, families, name)
    ensures Different(labels) ==> Different(Labels(specs, commandPath, families, labels))
    decreases |specs|
  {
    hide Offered, SpelledBy, Candidates, Different, Fresh;
    if specs != [] {
      var spec, rest := specs[0], specs[1..];
      var more := if Offered(spec, commandPath, families) then Fresh(labels, Candidates(spec, commandPath)) else labels;
      FreshAdds(labels, Candidates(spec, commandPath), name);
      CandidatesAre(spec, commandPath, name);
      LabelsAdd(rest, commandPath, families, more, name);
      assert forall other :: other in specs <==> other == spec || other in rest;
      assert OfferedIn(specs, commandPath, families, name)
        <==> (Offered(spec, commandPath, families) && SpelledBy(spec, commandPath, name))
             || OfferedIn(rest, commandPath, families, name);
    }
  }

  /** A label is offered, once, if and only if a command that is not hidden has a path of the depth typed that
      spells it and, where the command is destructive, a verb linked to its own is within one edit of the word
      typed last. */
  lemma LabelsAreOffered(specs: seq<Spec>, commandPath: Path, name: string)
    ensures var labels := Labels(specs, commandPath, FamiliesOf(specs), []);
            && Different(labels)
            && (name in labels
                <==> exists spec :: spec in specs && !spec.hidden && SpelledBy(spec, commandPath, name)
                                    && (spec.destructive ==> IsIntended(specs, spec, commandPath)))
  {
    hide Offered, SpelledBy, Labels, IsIntended;
    LabelsAdd(specs, commandPath, FamiliesOf(specs), [], name);
    forall spec | spec in specs
      ensures Offered(spec, commandPath, FamiliesOf(specs))
         <==> !spec.hidden && (spec.destructive ==> IsIntended(specs, spec, commandPath))
    {
      OfferedIfIntended(specs, spec, commandPath);
    }
  }

  ghost predicate IsIntended(specs: seq<Spec>, spec: Spec, commandPath: Path) {
    exists verb :: Linked(specs, FinalToken(spec.path), verb) && Intends(FinalToken(commandPath), verb)
  }

  lemma OfferedIfIntended(specs: seq<Spec>, spec: Spec, commandPath: Path)
    ensures Offered(spec, commandPath, FamiliesOf(specs))
       <==> !spec.hidden && (spec.destructive ==> IsIntended(specs, spec, commandPath))
  {
    hide FamiliesOf, Linked, Intends, IntendsDestruction;
    var families, own := FamiliesOf(specs), FinalToken(spec.path);
    forall verb ensures own in families && verb in families[own] <==> Linked(specs, own, verb) {
      FamiliesAreComponents(specs, own, verb);
    }
    LengthsLoseNoIntent(FinalToken(commandPath), if own in families then Some(families[own]) else None);
  }

  /** What is suggested, and spelled by destructive commands alone, was meant to be destructive: a verb linked to
      one of theirs is within one edit. */
  lemma DestructionIsIntended(specs: seq<Spec>, commandPath: Path, weight: string -> real, name: string)
    requires name in RankByDistance(Score(Join(commandPath), Labels(specs, commandPath, FamiliesOf(specs), [])), weight)
    requires forall spec :: spec in specs && SpelledBy(spec, commandPath, name) ==> spec.destructive
    ensures exists spec :: spec in specs && SpelledBy(spec, commandPath, name) && IsIntended(specs, spec, commandPath)
  {
    hide Labels, SpelledBy, IsIntended, Best, Score, Join;
    var input, labels := Join(commandPath), Labels(specs, commandPath, FamiliesOf(specs), []);
    var best := Best(Score(input, labels), weight);
    var i :| 0 <= i < |best| && best[i].name == name;
    assert best[i] in best;
    BestAreNearest(Score(input, labels), weight);
    ScoredIsLabel(input, labels, best[i]);
    LabelsAreOffered(specs, commandPath, name);
  }

  lemma {:induction false} ScoredIsLabel(input: string, labels: seq<string>, entry: Scored)
    requires entry in Score(input, labels)
    ensures entry.name in labels
  {
    if labels != [] {
      var before, last := labels[..|labels| - 1], labels[|labels| - 1];
      if entry in Score(input, before) {
        ScoredIsLabel(input, before, entry);
      } else {
        assert entry.name == last;
      }
    }
  }

  // ---------------------------------------------------------------- suggestCommands

  method SuggestCommands(specs: seq<Spec>, commandPath: Path, weight: string -> real) returns (suggestions: seq<string>)
    ensures var labels := Labels(specs, commandPath, FamiliesOf(specs), []);
            suggestions == RankByDistance(Score(Join(commandPath), labels), weight)
  {
    var input := Join(commandPath);
    var families := DestructiveVerbFamilies(specs);
    var seen: seq<string>, scored: seq<Scored> := [], [];
    for i := 0 to |specs|
      invariant Labels(specs[i..], commandPath, families, seen) == Labels(specs, commandPath, families, [])
      invariant scored == ScoreNear(input, seen)
    {
      assert specs[i..][0] == specs[i] && specs[i..][1..] == specs[i + 1..];
      if !Offered(specs[i], commandPath, families) {
        continue;
      }
      seen, scored := ScoreCandidates(input, Candidates(specs[i], commandPath), seen, scored);
    }
    assert specs[|specs|..] == [];
    LengthsLoseNoScore(input, seen);
    suggestions := RankByDistance(scored, weight);
  }

  method ScoreCandidates(input: string, candidates: seq<Path>, seen0: seq<string>, scored0: seq<Scored>)
      returns (seen: seq<string>, scored: seq<Scored>)
    requires scored0 == ScoreNear(input, seen0)
    ensures seen == Fresh(seen0, candidates) && scored == ScoreNear(input, seen)
  {
    seen, scored := seen0, scored0;
    for j := 0 to |candidates|
      invariant Fresh(seen, candidates[j..]) == Fresh(seen0, candidates)
      invariant scored == ScoreNear(input, seen)
    {
      assert candidates[j..][0] == candidates[j] && candidates[j..][1..] == candidates[j + 1..];
      var joined := Join(candidates[j]);
      if joined in seen {
        continue;
      }
      assert (seen + [joined])[..|seen|] == seen;
      if Near(input, joined, SUGGESTION_THRESHOLD) {
        var distance := EditDistance.Levenshtein(input, joined);
        scored := scored + [Scored(joined, distance)];
      }
      seen := seen + [joined];
    }
  }
}

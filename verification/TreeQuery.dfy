/**
 Filtering a rendered accessibility tree (src/cli/computer-tree-query.ts): the elements that match, up to
 a cap, with their ancestors, found in one pass with a stack of the open path.
 */
module TreeQuery {
  import opened Common

  /** An element line's depth and text; `extra` are the unindexed lines below it. */
  datatype Element = Element(depth: nat, text: string, extra: seq<string>)

  // ---------------------------------------------------------------- ancestors

  /** j is above i: it comes earlier, lies less deep, and nothing in between is as shallow as j. */
  ghost predicate Above(depths: seq<nat>, j: nat, i: nat) {
    j < i < |depths| && depths[j] < depths[i] && forall m :: j < m < i ==> depths[j] < depths[m]
  }

  /** The parent: the nearest earlier element of smaller depth. */
  ghost predicate Parent(depths: seq<nat>, p: nat, i: nat) {
    p < i < |depths| && depths[p] < depths[i] && forall m :: p < m < i ==> depths[i] <= depths[m]
  }

  ghost predicate Ancestor(depths: seq<nat>, j: nat, i: nat)
    decreases i
  {
    exists p :: Parent(depths, p, i) && (p == j || Ancestor(depths, j, p))
  }

  // Walking up from i - 1 to the first shallower element.
  lemma {:induction false} NearestShallower(depths: seq<nat>, j: nat, i: nat, from: nat) returns (p: nat)
    requires j <= from < i < |depths| && depths[j] < depths[i]
    requires forall m :: from < m < i ==> depths[i] <= depths[m]
    ensures j <= p && Parent(depths, p, i)
    decreases from
  {
    if depths[from] < depths[i] {
      p := from;
    } else {
      p := NearestShallower(depths, j, i, from - 1);
    }
  }

  /** The one-pass notion and the transitive one are the same relation. */
  lemma {:induction false} AboveIsAncestor(depths: seq<nat>, j: nat, i: nat)
    ensures Above(depths, j, i) <==> Ancestor(depths, j, i)
    decreases i
  {
    if Above(depths, j, i) {
      var p := NearestShallower(depths, j, i, i - 1);
      if p != j {
        assert Above(depths, j, p);
        AboveIsAncestor(depths, j, p);
      }
    }
    if Ancestor(depths, j, i) {
      var p :| Parent(depths, p, i) && (p == j || Ancestor(depths, j, p));
      if p != j {
        AboveIsAncestor(depths, j, p);
      }
    }
  }

  // ---------------------------------------------------------------- the one pass

  /** path[d] is the element at depth d that is still open before element i, if any. */
  ghost predicate OpenPath(depths: seq<nat>, path: seq<Option<nat>>, i: nat)
    requires i <= |depths|
  {
    && (forall d: nat :: d < |path| ==> Stands(depths, path, i, d))
    && (forall j: nat :: j < i && Open(depths, j, i) ==> depths[j] < |path| && path[depths[j]] == Some(j))
  }

  // path.length = Math.min(path.length, depth)
  function Truncate(path: seq<Option<nat>>, depth: nat): (r: seq<Option<nat>>)
    ensures |r| <= depth
  {
    if |path| <= depth then path else path[..depth]
  }

  // path[depth] = i, with holes up to it.
  function Put(path: seq<Option<nat>>, depth: nat, i: nat): seq<Option<nat>>
    requires |path| <= depth
  {
    path + seq(depth - |path|, _ => None) + [Some(i)]
  }

  lemma TruncatedIsAbove(depths: seq<nat>, path: seq<Option<nat>>, i: nat, j: nat)
    requires i < |depths| && OpenPath(depths, path, i)
    ensures Some(j) in Truncate(path, depths[i]) <==> Above(depths, j, i)
  {
    var open := Truncate(path, depths[i]);
    if Some(j) in open {
      var d: nat :| d < |open| && open[d] == Some(j);
      assert path[d] == Some(j) && Stands(depths, path, i, d);
    }
    if Above(depths, j, i) {
      assert Open(depths, j, i);
      assert path[depths[j]] == Some(j);
      assert open[depths[j]] == Some(j);
    }
  }

  // The two halves of OpenPath: what stands on the path, and what has to.
  ghost predicate Stands(depths: seq<nat>, path: seq<Option<nat>>, i: nat, d: nat)
    requires i <= |depths| && d < |path|
  {
    path[d].Some? ==> path[d].value < i && depths[path[d].value] == d && Open(depths, path[d].value, i)
  }

  // Nothing since j has been as shallow.
  ghost predicate Open(depths: seq<nat>, j: nat, i: nat)
    requires j < i <= |depths|
  {
    forall m :: j < m < i ==> depths[j] < depths[m]
  }

  lemma PathStaysOpen(depths: seq<nat>, path: seq<Option<nat>>, i: nat)
    requires i < |depths| && OpenPath(depths, path, i)
    ensures OpenPath(depths, Put(Truncate(path, depths[i]), depths[i], i), i + 1)
  {
    var open := Truncate(path, depths[i]);
    var next, n := Put(open, depths[i], i), i + 1;
    forall d: nat | d < |next| ensures Stands(depths, next, n, d) {
      if d < |open| {
        assert path[d] == next[d] && Stands(depths, path, i, d);
      }
    }
    forall j: nat | j < i + 1 && Open(depths, j, i + 1) ensures depths[j] < |next| && next[depths[j]] == Some(j) {
      if j < i {
        assert depths[j] < depths[i];
        assert Open(depths, j, i);
        assert path[depths[j]] == Some(j) && depths[j] < |open|;
      }
    }
  }

  ghost function Kept(depths: seq<nat>, shown: set<nat>): set<nat> {
    set k: nat | k < |depths| && (k in shown || exists i :: i in shown && Above(depths, k, i))
  }

  /** What is kept: the shown elements and their ancestors, transitively, and nothing else. */
  lemma KeepsShownAndAncestors(depths: seq<nat>, shown: set<nat>, k: nat)
    ensures k in Kept(depths, shown)
       <==> k < |depths| && (k in shown || exists i :: i in shown && Ancestor(depths, k, i))
  {
    forall i: nat ensures Above(depths, k, i) <==> Ancestor(depths, k, i) {
      AboveIsAncestor(depths, k, i);
    }
  }

  ghost function KeptBelow(depths: seq<nat>, shown: set<nat>, n: nat): set<nat> {
    set k: nat | k < n && (k in shown || exists i :: i in shown && i < n && Above(depths, k, i))
  }

  lemma KeptStep(depths: seq<nat>, shown: set<nat>, path: seq<Option<nat>>, i: nat, k: nat)
    requires i < |depths| && OpenPath(depths, path, i)
    ensures k in KeptBelow(depths, shown, i + 1)
       <==> k in KeptBelow(depths, shown, i) || (i in shown && (k == i || Some(k) in Truncate(path, depths[i])))
  {
    hide OpenPath, Truncate;
    TruncatedIsAbove(depths, path, i, k);
  }

  lemma KeptEnds(depths: seq<nat>, shown: set<nat>)
    ensures OpenPath(depths, [], 0) && KeptBelow(depths, shown, 0) == {}
    ensures KeptBelow(depths, shown, |depths|) == Kept(depths, shown)
  {
  }

  /** The elements a path names. */
  function Named(path: seq<Option<nat>>): set<nat> {
    set d | 0 <= d < |path| && path[d].Some? :: path[d].value
  }

  lemma KeptNext(depths: seq<nat>, shown: set<nat>, path: seq<Option<nat>>, i: nat)
    requires i < |depths| && OpenPath(depths, path, i)
    ensures KeptBelow(depths, shown, i + 1)
         == KeptBelow(depths, shown, i) + if i in shown then Named(Truncate(path, depths[i])) + {i} else {}
  {
    hide OpenPath, Truncate, KeptBelow;
    var open := Truncate(path, depths[i]);
    forall k: nat ensures k in KeptBelow(depths, shown, i + 1)
       <==> k in KeptBelow(depths, shown, i) || (i in shown && (k == i || k in Named(open)))
    {
      KeptStep(depths, shown, path, i, k);
      assert k in Named(open) <==> Some(k) in open;
    }
  }

  /** withAncestors, in one pass over the elements. */
  method WithAncestors(depths: seq<nat>, shown: set<nat>) returns (keep: set<nat>)
    ensures keep == Kept(depths, shown)
  {
    hide OpenPath, Kept, KeptBelow, Put, Truncate, Named;
    keep := {};
    var path: seq<Option<nat>> := [];
    KeptEnds(depths, shown);
    for i := 0 to |depths|
      invariant OpenPath(depths, path, i)
      invariant keep == KeptBelow(depths, shown, i)
    {
      PathStaysOpen(depths, path, i);
      KeptNext(depths, shown, path, i);
      var open := Truncate(path, depths[i]);
      if i in shown {
        keep := KeepAll(open, keep);
        keep := keep + {i};
      }
      path := Put(open, depths[i], i);
    }
  }

  method KeepAll(path: seq<Option<nat>>, keep0: set<nat>) returns (keep: set<nat>)
    ensures keep == keep0 + Named(path)
  {
    keep := keep0;
    for d := 0 to |path|
      invariant keep == keep0 + Named(path[..d])
    {
      assert path[..d + 1] == path[..d] + [path[d]];
      NamedStep(path[..d], path[d]);
      if path[d].Some? {
        keep := keep + {path[d].value};
      }
    }
    assert path[..|path|] == path;
  }

  lemma NamedStep(path: seq<Option<nat>>, last: Option<nat>)
    ensures Named(path + [last]) == Named(path) + if last.Some? then {last.value} else {}
  {
    var longer := path + [last];
    forall k: nat ensures k in Named(longer) <==> k in Named(path) || last == Some(k) {
      if k in Named(path) {
        var d :| 0 <= d < |path| && path[d] == Some(k);
        assert longer[d] == Some(k);
      }
      assert longer[|path|] == last;
    }
  }

  // ---------------------------------------------------------------- the query

  function Depths(elements: seq<Element>): seq<nat> {
    seq(|elements|, i requires 0 <= i < |elements| => elements[i].depth)
  }

  /** The number of matches among the first n elements. */
  function Count(elements: seq<Element>, matches: string -> bool, n: nat): nat
    requires n <= |elements|
  {
    if n == 0 then 0 else Count(elements, matches, n - 1) + if matches(elements[n - 1].text) then 1 else 0
  }

  /** An element is shown when it matches and fewer than the cap match before it. */
  predicate Shows(elements: seq<Element>, matches: string -> bool, cap: Option<nat>, i: nat)
    requires i < |elements|
  {
    matches(elements[i].text) && (cap.None? || Count(elements, matches, i) < cap.value)
  }

  function ShownOf(elements: seq<Element>, matches: string -> bool, cap: Option<nat>): set<nat> {
    set i: nat | i < |elements| && Shows(elements, matches, cap, i)
  }

  // Ascending positions below n.
  predicate Positions(picked: seq<nat>, n: nat) {
    && (forall i :: 0 <= i < |picked| ==> picked[i] < n)
    && forall i, j :: 0 <= i < j < |picked| ==> picked[i] < picked[j]
  }

  /** The numbers below n that are in a set, ascending. */
  function Pick(keep: set<nat>, n: nat): (picked: seq<nat>)
    ensures Positions(picked, n)
    ensures forall k: nat :: k in picked <==> k in keep && k < n
  {
    if n == 0 then []
    else
      var rest := Pick(keep, n - 1);
      if n - 1 in keep then rest + [n - 1] else rest
  }

  // A shown element keeps its lines, an ancestor only its first.
  function Printed(elements: seq<Element>, shown: set<nat>, picked: seq<nat>): seq<Element>
    requires Positions(picked, |elements|)
  {
    seq(|picked|, t requires 0 <= t < |picked| =>
      if picked[t] in shown then elements[picked[t]] else elements[picked[t]].(extra := []))
  }

  ghost function Queried(elements: seq<Element>, matches: string -> bool, cap: Option<nat>): seq<Element> {
    var shown := ShownOf(elements, matches, cap);
    Printed(elements, shown, Pick(Kept(Depths(elements), shown), |elements|))
  }

  /** What is printed: each kept element in turn, the shown ones with all their lines, their ancestors with the
      first alone; shown are the first matches, up to the cap. */
  lemma QueriedIs(elements: seq<Element>, matches: string -> bool, cap: Option<nat>, t: nat)
    ensures var shown, body := ShownOf(elements, matches, cap), Queried(elements, matches, cap);
            var picked := Pick(Kept(Depths(elements), shown), |elements|);
            && |body| == |picked|
            && (t < |body| ==>
                  && body[t].depth == elements[picked[t]].depth && body[t].text == elements[picked[t]].text
                  && (picked[t] in shown ==> body[t].extra == elements[picked[t]].extra)
                  && (picked[t] !in shown ==> body[t].extra == []))
  {
  }

  // The matches among the first n elements, and the shown ones.
  function MatchesBelow(elements: seq<Element>, matches: string -> bool, n: nat): set<nat>
    requires n <= |elements|
  {
    set i: nat | i < n && matches(elements[i].text)
  }

  function ShownBelow(elements: seq<Element>, matches: string -> bool, cap: Option<nat>, n: nat): set<nat>
    requires n <= |elements|
  {
    set i: nat | i < n && Shows(elements, matches, cap, i)
  }

  /** The shown elements are matches, as many as the cap allows, and no other match comes before one of them. */
  lemma ShownAreFirst(elements: seq<Element>, matches: string -> bool, cap: Option<nat>)
    ensures var shown, all := ShownOf(elements, matches, cap), set i: nat | i < |elements| && matches(elements[i].text);
            && shown <= all
            && |shown| == (if cap.Some? && cap.value < |all| then cap.value else |all|)
            && forall i, j :: i in shown && j in all && j !in shown ==> i < j
  {
    hide Count;
    var shown, all := ShownOf(elements, matches, cap), set i: nat | i < |elements| && matches(elements[i].text);
    CountIsSize(elements, matches, |elements|);
    ShownSize(elements, matches, cap, |elements|);
    assert shown == ShownBelow(elements, matches, cap, |elements|)
      && all == MatchesBelow(elements, matches, |elements|);
    forall i, j | i in shown && j in all && j !in shown ensures i < j {
      if j <= i { CountRises(elements, matches, j, i); }
    }
  }

  lemma {:induction false} CountIsSize(elements: seq<Element>, matches: string -> bool, n: nat)
    requires n <= |elements|
    ensures |MatchesBelow(elements, matches, n)| == Count(elements, matches, n)
  {
    if n > 0 {
      CountIsSize(elements, matches, n - 1);
      var before := MatchesBelow(elements, matches, n - 1);
      assert MatchesBelow(elements, matches, n) == if matches(elements[n - 1].text) then before + {n - 1} else before;
    }
  }

  lemma {:induction false} ShownSize(elements: seq<Element>, matches: string -> bool, cap: Option<nat>, n: nat)
    requires n <= |elements|
    ensures var count := Count(elements, matches, n);
            |ShownBelow(elements, matches, cap, n)| == if cap.Some? && cap.value < count then cap.value else count
  {
    if n > 0 {
      ShownSize(elements, matches, cap, n - 1);
      var before, shows := ShownBelow(elements, matches, cap, n - 1), Shows(elements, matches, cap, n - 1);
      var now := if shows then before + {n - 1} else before;
      assert ShownBelow(elements, matches, cap, n) == now by { hide Shows, Count; }
      assert |now| == |before| + if shows then 1 else 0 by { hide Shows, Count; }
    }
  }

  method Query(elements: seq<Element>, matches: string -> bool, cap: Option<nat>) returns (body: seq<Element>)
    ensures body == Queried(elements, matches, cap)
  {
    var candidates: seq<nat> := [];
    for i := 0 to |elements|
      invariant |candidates| == Count(elements, matches, i)
      invariant forall t :: 0 <= t < |candidates| ==> candidates[t] < i && Count(elements, matches, candidates[t]) == t
      invariant forall k: nat :: k in candidates <==> k < i && matches(elements[k].text)
    {
      if matches(elements[i].text) {
        candidates := candidates + [i];
      }
    }
    var shownList := if cap.None? || |candidates| <= cap.value then candidates else candidates[..cap.value];
    var shown := set k | k in shownList;
    assert shown == ShownOf(elements, matches, cap) by {
      forall i: nat ensures i in shown <==> i in ShownOf(elements, matches, cap) {
        if i in candidates {
          var t :| 0 <= t < |candidates| && candidates[t] == i;
          CountRises(elements, matches, i + 1, |elements|);
          if t < |shownList| { assert shownList[t] == i; }
          if i in shownList {
            var u :| 0 <= u < |shownList| && shownList[u] == i;
            assert candidates[u] == i;
          }
        }
      }
    }
    var keep := WithAncestors(Depths(elements), shown);
    body := Printed(elements, shown, Pick(keep, |elements|));
  }

  lemma {:induction false} CountRises(elements: seq<Element>, matches: string -> bool, m: nat, n: nat)
    requires m <= n <= |elements|
    ensures Count(elements, matches, m) <= Count(elements, matches, n)
  {
    if m < n { CountRises(elements, matches, m, n - 1); }
  }

  // What is printed matches no more often than the tree does up to the same place.
  lemma {:induction false} PrintedCounts(elements: seq<Element>, matches: string -> bool, shown: set<nat>,
                                         picked: seq<nat>, t: nat)
    requires Positions(picked, |elements|) && t < |picked|
    ensures Count(Printed(elements, shown, picked), matches, t) <= Count(elements, matches, picked[t])
  {
    if t > 0 {
      PrintedCounts(elements, matches, shown, picked, t - 1);
      CountRises(elements, matches, picked[t - 1] + 1, picked[t]);
    }
  }

  /** Of the kept elements only the shown ones match: a match above a shown element comes before it. */
  lemma KeptMatchIsShown(elements: seq<Element>, matches: string -> bool, cap: Option<nat>, k: nat)
    requires k in Kept(Depths(elements), ShownOf(elements, matches, cap))
    ensures k < |elements| && (matches(elements[k].text) <==> k in ShownOf(elements, matches, cap))
  {
    var shown := ShownOf(elements, matches, cap);
    if k !in shown {
      var i :| i in shown && Above(Depths(elements), k, i);
      CountRises(elements, matches, k, i);
    }
  }

  lemma AboveInPrinted(elements: seq<Element>, shown: set<nat>, picked: seq<nat>, t: nat, u: nat)
    requires Positions(picked, |elements|) && t < |picked| && u < |picked|
               && Above(Depths(elements), picked[t], picked[u])
    ensures Above(Depths(Printed(elements, shown, picked)), t, u)
  {
    var depths, after := Depths(elements), Depths(Printed(elements, shown, picked));
    assert forall a, b :: 0 <= a <= b < |picked| ==> picked[a] <= picked[b];
    assert t < u;
    forall m | t < m < u ensures after[t] < after[m] {
      assert picked[t] < picked[m] < picked[u];
      assert depths[picked[t]] < depths[picked[m]];
    }
    assert after[t] == depths[picked[t]] && after[u] == depths[picked[u]];
  }

  /** Filtering what was kept with the same query and cap keeps all of it, line for line. */
  lemma QueryIsIdempotent(elements: seq<Element>, matches: string -> bool, cap: Option<nat>)
    ensures var once := Queried(elements, matches, cap); Queried(once, matches, cap) == once
  {
    hide Count, Pick;
    var shown := ShownOf(elements, matches, cap);
    var keep := Kept(Depths(elements), shown);
    var picked := Pick(keep, |elements|);
    var once := Printed(elements, shown, picked);
    var again := ShownOf(once, matches, cap);
    forall t | 0 <= t < |picked| ensures t in again <==> picked[t] in shown {
      assert picked[t] in picked;
      KeptMatchIsShown(elements, matches, cap, picked[t]);
      PrintedCounts(elements, matches, shown, picked, t);
    }
    var keptAgain := Kept(Depths(once), again);
    forall t | 0 <= t < |once| ensures t in keptAgain {
      assert picked[t] in picked && picked[t] in keep;
      if picked[t] !in shown {
        var i :| i in shown && Above(Depths(elements), picked[t], i);
        assert i in picked;
        var u :| 0 <= u < |picked| && picked[u] == i;
        AboveInPrinted(elements, shown, picked, t, u);
        assert u in again;
      }
    }
    PickAll(keptAgain, |once|);
    var twice := Printed(once, again, Pick(keptAgain, |once|));
    forall t | 0 <= t < |once| ensures twice[t] == once[t] {
    }
  }

  lemma {:induction false} PickAll(keep: set<nat>, n: nat)
    requires forall t :: 0 <= t < n ==> t in keep
    ensures |Pick(keep, n)| == n && forall t :: 0 <= t < n ==> Pick(keep, n)[t] == t
  {
    if n > 0 { PickAll(keep, n - 1); }
  }
}

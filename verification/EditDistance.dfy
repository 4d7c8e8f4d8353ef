/**
 The edit distance behind command suggestions (src/shared/edit-distance.ts): a dynamic program over two
 rows that are swapped after each letter.
 */
module EditDistance {

  function Min(a: nat, b: nat): nat { if a <= b then a else b }

  /** The recursive definition, on the last letters. */
  function Distance(a: string, b: string): nat
    decreases |a| + |b|
  {
    if a == [] then |b|
    else if b == [] then |a|
    else
      var a', b' := a[..|a| - 1], b[..|b| - 1];
      Min(Min(Distance(a', b) + 1, Distance(a, b') + 1),
          Distance(a', b') + if a[|a| - 1] == b[|b| - 1] then 0 else 1)
  }

  // ---------------------------------------------------------------- what the distance means

  datatype Edit = Keep(c: char) | Insert(c: char) | Delete(c: char) | Replace(old_: char, new_: char)

  function Source(edits: seq<Edit>): string {
    if edits == [] then []
    else
      var rest := Source(edits[..|edits| - 1]);
      match edits[|edits| - 1]
      case Keep(c) => rest + [c]
      case Insert(_) => rest
      case Delete(c) => rest + [c]
      case Replace(c, _) => rest + [c]
  }

  function Target(edits: seq<Edit>): string {
    if edits == [] then []
    else
      var rest := Target(edits[..|edits| - 1]);
      match edits[|edits| - 1]
      case Keep(c) => rest + [c]
      case Insert(c) => rest + [c]
      case Delete(_) => rest
      case Replace(_, c) => rest + [c]
  }

  function Cost(edits: seq<Edit>): nat {
    if edits == [] then 0
    else Cost(edits[..|edits| - 1]) + if edits[|edits| - 1].Keep? then 0 else 1
  }

  lemma Extended(edits: seq<Edit>, edit: Edit)
    ensures Source(edits + [edit]) ==
              Source(edits) + (if edit.Insert? then [] else if edit.Replace? then [edit.old_] else [edit.c])
    ensures Target(edits + [edit]) ==
              Target(edits) + (if edit.Delete? then [] else if edit.Replace? then [edit.new_] else [edit.c])
    ensures Cost(edits + [edit]) == Cost(edits) + if edit.Keep? then 0 else 1
  {
    assert (edits + [edit])[..|edits|] == edits;
  }

  // One more letter on either side.
  lemma Step(a: string, x: char, b: string, y: char)
    ensures Distance(a + [x], b + [y])
         == Min(Min(Distance(a, b + [y]) + 1, Distance(a + [x], b) + 1), Distance(a, b) + if x == y then 0 else 1)
  {
    assert (a + [x])[..|a|] == a && (b + [y])[..|b|] == b;
  }

  lemma Edges(a: string, b: string)
    ensures a == [] ==> Distance(a, b) == |b|
    ensures b == [] ==> Distance(a, b) == |a|
  {
  }

  // A letter more on one side costs at most one edit more.
  lemma OneMore(a: string, b: string, c: char)
    ensures Distance(a + [c], b) <= Distance(a, b) + 1 && Distance(a, b + [c]) <= Distance(a, b) + 1
  {
    hide Distance;
    if b == [] {
      Edges(a, b);
      Edges(a + [c], b);
    } else {
      assert b == b[..|b| - 1] + [b[|b| - 1]];
      Step(a, c, b[..|b| - 1], b[|b| - 1]);
    }
    if a == [] {
      Edges(a, b);
      Edges(a, b + [c]);
    } else {
      assert a == a[..|a| - 1] + [a[|a| - 1]];
      Step(a[..|a| - 1], a[|a| - 1], b, c);
    }
  }

  lemma {:induction false} NoScriptIsCheaper(edits: seq<Edit>)
    ensures Distance(Source(edits), Target(edits)) <= Cost(edits)
  {
    hide Distance, Source, Target, Cost;
    if edits == [] {
      NoEdits();
    } else {
      var before, edit := edits[..|edits| - 1], edits[|edits| - 1];
      assert edits == before + [edit];
      NoScriptIsCheaper(before);
      Extended(before, edit);
      var a, b := Source(before), Target(before);
      match edit
      case Keep(c) => Step(a, c, b, c);
      case Insert(c) => OneMore(a, b, c); assert a + [] == a;
      case Delete(c) => OneMore(a, b, c); assert b + [] == b;
      case Replace(c, d) => Step(a, c, b, d);
    }
  }

  lemma NoEdits()
    ensures Source([]) == [] && Target([]) == [] && Cost([]) == 0 && Distance([], []) == 0
  {
  }

  lemma {:induction false} CheapestScript(a: string, b: string) returns (edits: seq<Edit>)
    ensures Source(edits) == a && Target(edits) == b && Cost(edits) == Distance(a, b)
    decreases |a| + |b|
  {
    hide Distance, Source, Target, Cost;
    NoEdits();
    if a == [] && b == [] {
      return [];
    }
    var a', b' := if a == [] then [] else a[..|a| - 1], if b == [] then [] else b[..|b| - 1];
    assert a != [] ==> a == a' + [a[|a| - 1]];
    assert b != [] ==> b == b' + [b[|b| - 1]];
    Edges(a, b);
    Edges(a', b);
    Edges(a, b');
    if a != [] && b != [] { Step(a', a[|a| - 1], b', b[|b| - 1]); }
    if a == [] || (b != [] && Distance(a, b) == Distance(a, b') + 1) {
      edits := CheapestScript(a, b');
      Extended(edits, Insert(b[|b| - 1]));
      edits := edits + [Insert(b[|b| - 1])];
    } else if b == [] || Distance(a, b) == Distance(a', b) + 1 {
      edits := CheapestScript(a', b);
      Extended(edits, Delete(a[|a| - 1]));
      edits := edits + [Delete(a[|a| - 1])];
    } else {
      var x, y := a[|a| - 1], b[|b| - 1];
      edits := CheapestScript(a', b');
      var last := if x == y then Keep(x) else Replace(x, y);
      Extended(edits, last);
      edits := edits + [last];
    }
  }

  ghost predicate Turns(edits: seq<Edit>, a: string, b: string) { Source(edits) == a && Target(edits) == b }

  /** The distance is the least number of insertions, deletions and replacements that turn a into b. */
  lemma DistanceIsLeast(a: string, b: string)
    ensures exists edits :: Turns(edits, a, b) && Cost(edits) == Distance(a, b)
    ensures forall edits :: Turns(edits, a, b) ==> Cost(edits) >= Distance(a, b)
  {
    var edits := CheapestScript(a, b);
    assert Turns(edits, a, b);
    forall edits | Turns(edits, a, b) ensures Cost(edits) >= Distance(a, b) {
      NoScriptIsCheaper(edits);
    }
  }

  /** It is at least the difference in length, and zero only between equal strings. */
  lemma {:induction false} DistanceBounds(a: string, b: string)
    ensures |a| - |b| <= Distance(a, b) && |b| - |a| <= Distance(a, b)
    ensures Distance(a, b) == 0 <==> a == b
    decreases |a| + |b|
  {
    hide Distance;
    Edges(a, b);
    if a != [] && b != [] {
      var a', x, b', y := a[..|a| - 1], a[|a| - 1], b[..|b| - 1], b[|b| - 1];
      assert a == a' + [x] && b == b' + [y];
      Step(a', x, b', y);
      DistanceBounds(a', b);
      DistanceBounds(a, b');
      DistanceBounds(a', b');
    }
  }

  // ---------------------------------------------------------------- the dynamic program

  lemma Cell(a: string, b: string, i: nat, j: nat)
    requires 1 <= i <= |a| && 1 <= j <= |b|
    ensures Distance(a[..i], b[..j])
         == Min(Min(Distance(a[..i - 1], b[..j]) + 1, Distance(a[..i], b[..j - 1]) + 1),
                Distance(a[..i - 1], b[..j - 1]) + if a[i - 1] == b[j - 1] then 0 else 1)
  {
    hide Distance;
    assert a[..i] == a[..i - 1] + [a[i - 1]] && b[..j] == b[..j - 1] + [b[j - 1]];
    Step(a[..i - 1], a[i - 1], b[..j - 1], b[j - 1]);
  }

  method Levenshtein(a: string, b: string) returns (distance: nat)
    ensures distance == Distance(a, b)
  {
    hide Distance, Min;
    var m, n := |a|, |b|;
    Edges(a, b);
    if m == 0 {
      return n;
    }
    if n == 0 {
      return m;
    }
    var previous := new nat[n + 1](j => j);
    var current := new nat[n + 1](_ => 0);
    forall j | 0 <= j <= n ensures Distance(a[..0], b[..j]) == j { Edges(a[..0], b[..j]); }
    for i := 1 to m + 1
      invariant previous != current && previous.Length == current.Length == n + 1
      invariant fresh(previous) && fresh(current)
      invariant forall j :: 0 <= j <= n ==> previous[j] == Distance(a[..i - 1], b[..j])
    {
      current[0] := i;
      Edges(a[..i], b[..0]);
      for j := 1 to n + 1
        invariant previous != current && previous.Length == current.Length == n + 1
        invariant forall k :: 0 <= k <= n ==> previous[k] == Distance(a[..i - 1], b[..k])
        invariant forall k :: 0 <= k < j ==> current[k] == Distance(a[..i], b[..k])
      {
        Cell(a, b, i, j);
        var cost := if a[i - 1] == b[j - 1] then 0 else 1;
        current[j] := Min(Min(previous[j] + 1, current[j - 1] + 1), previous[j - 1] + cost);
      }
      previous, current := current, previous;
    }
    assert a[..m] == a && b[..n] == b;
    return previous[n];
  }
}

/**
 The bounded search for a focused node (native/computer-use-linux/runtime.py): an explicit stack over
 a graph that may share nodes or have cycles, cut off by a node budget and a depth.
 */
module BoundedSearch {
  import opened Common

  const MAX_DEPTH := 64

  type Id = nat
  datatype Item = Item(node: Id, depth: nat)

  /** children() as lists of node identities, and the two caps. */
  datatype Space = Space(kids: Id -> seq<Id>, maxDepth: nat)

  function Items(ids: seq<Id>, depth: nat): seq<Item> {
    seq(|ids|, i requires 0 <= i < |ids| => Item(ids[i], depth))
  }

  function Expand(g: Space, item: Item): seq<Item> {
    if item.depth >= g.maxDepth then [] else Items(g.kids(item.node), item.depth + 1)
  }

  /** The nodes a search would test, in order, if none ever passed; the next item to take comes first. */
  function Order(g: Space, work: seq<Item>, seen: set<Id>, budget: nat): seq<Id>
    decreases budget, |work|
  {
    if work == [] || budget == 0 then []
    else if work[0].node in seen then Order(g, work[1..], seen, budget)
    else [work[0].node] + Order(g, Expand(g, work[0]) + work[1..], seen + {work[0].node}, budget - 1)
  }

  function First(passes: Id -> bool, ids: seq<Id>): Option<Id> {
    if ids == [] then None else if passes(ids[0]) then Some(ids[0]) else First(passes, ids[1..])
  }

  function Reverse(items: seq<Item>): seq<Item> {
    seq(|items|, i requires 0 <= i < |items| => items[|items| - 1 - i])
  }

  lemma OrderStep(g: Space, stack: seq<Item>, seen: set<Id>, budget: nat)
    requires stack != [] && budget > 0
    ensures var item, below := stack[|stack| - 1], Reverse(stack[..|stack| - 1]);
            Order(g, Reverse(stack), seen, budget)
            == if item.node in seen then Order(g, below, seen, budget)
               else [item.node] + Order(g, Expand(g, item) + below, seen + {item.node}, budget - 1)
  {
    var work := Reverse(stack);
    assert work[0] == stack[|stack| - 1] && work[1..] == Reverse(stack[..|stack| - 1]);
  }

  lemma {:induction false} FirstOfConcat(passes: Id -> bool, a: seq<Id>, b: seq<Id>)
    requires forall id :: id in a ==> !passes(id)
    ensures First(passes, a + b) == First(passes, b)
  {
    if a == [] {
      assert a + b == b;
    } else {
      assert (a + b)[0] == a[0] && (a + b)[1..] == a[1..] + b;
      FirstOfConcat(passes, a[1..], b);
    }
  }

  lemma ReverseOne(item: Item)
    ensures Reverse([item]) == [item]
  {
  }

  lemma ReverseEmpty(stack: seq<Item>)
    ensures stack == [] <==> Reverse(stack) == []
  {
  }

  lemma FirstHit(passes: Id -> bool, before: seq<Id>, id: Id, after: seq<Id>)
    requires passes(id) && forall other :: other in before ==> !passes(other)
    ensures First(passes, before + ([id] + after)) == Some(id)
  {
    FirstOfConcat(passes, before, [id] + after);
  }

  lemma FirstOfNone(passes: Id -> bool)
    ensures First(passes, []) == None
  {
  }

  /** The search as the source runs it: the stack is taken from its end, so children are pushed in
      reverse; `tested` lists the nodes that were put to the test. */
  method FirstDescendant(g: Space, root: Id, passes: Id -> bool, maxNodes: nat)
      returns (found: Option<Id>, tested: seq<Id>)
    ensures found == First(passes, Order(g, [Item(root, 0)], {}, maxNodes))
    ensures tested <= Order(g, [Item(root, 0)], {}, maxNodes)
    ensures found.Some? ==> tested != [] && tested[|tested| - 1] == found.value && passes(found.value)
    ensures found.None? ==>
              tested == Order(g, [Item(root, 0)], {}, maxNodes) && forall id :: id in tested ==> !passes(id)
  {
    hide Order, Expand, First, Reverse;
    ghost var all := Order(g, [Item(root, 0)], {}, maxNodes);
    var visitedCount, stack, seen: set<Id> := 0, [Item(root, 0)], {};
    tested := [];
    ReverseOne(Item(root, 0));
    while stack != [] && visitedCount < maxNodes
      invariant visitedCount <= maxNodes
      invariant all == tested + Order(g, Reverse(stack), seen, maxNodes - visitedCount)
      invariant forall id :: id in tested ==> !passes(id)
      decreases maxNodes - visitedCount, |stack|
    {
      OrderStep(g, stack, seen, maxNodes - visitedCount);
      var item := stack[|stack| - 1];
      stack := stack[..|stack| - 1];
      if item.node in seen {
        continue;
      }
      ghost var before := tested;
      ghost var rest := Order(g, Expand(g, item) + Reverse(stack), seen + {item.node}, maxNodes - visitedCount - 1);
      seen := seen + {item.node};
      visitedCount := visitedCount + 1;
      tested := tested + [item.node];
      assert all == before + ([item.node] + rest) == tested + rest;
      if passes(item.node) {
        FirstHit(passes, before, item.node, rest);
        return Some(item.node), tested;
      }
      stack := PushChildren(g, item, stack);
    }
    ReverseEmpty(stack);
    OrderEnds(g, Reverse(stack), seen, maxNodes - visitedCount);
    assert First(passes, []) == None by { FirstOfNone(passes); }
    assert tested + [] == tested;
    FirstOfConcat(passes, tested, []);
    return None, tested;
  }

  lemma OrderEnds(g: Space, work: seq<Item>, seen: set<Id>, budget: nat)
    requires work == [] || budget == 0
    ensures Order(g, work, seen, budget) == []
  {
  }

  method PushChildren(g: Space, item: Item, below: seq<Item>) returns (stack: seq<Item>)
    ensures Reverse(stack) == Expand(g, item) + Reverse(below)
  {
    stack := below;
    if item.depth >= g.maxDepth {
      return;
    }
    var kids := g.kids(item.node);
    var i := |kids|;
    while i > 0
      invariant 0 <= i <= |kids|
      invariant Reverse(stack) == Items(kids, item.depth + 1)[i..] + Reverse(below)
    {
      i := i - 1;
      var child := Item(kids[i], item.depth + 1);
      assert Reverse(stack + [child]) == [child] + Reverse(stack);
      assert Items(kids, item.depth + 1)[i..] == [child] + Items(kids, item.depth + 1)[i + 1..];
      stack := stack + [child];
    }
  }

  // ---------------------------------------------------------------- on any graph

  /** Whatever the graph, cycles included, no node is tested twice and the budget is never exceeded. */
  lemma {:induction false} OrderIsBounded(g: Space, work: seq<Item>, seen: set<Id>, budget: nat)
    ensures var order := Order(g, work, seen, budget);
            && |order| <= budget
            && (forall id :: id in order ==> id !in seen)
            && forall i, j :: 0 <= i < j < |order| ==> order[i] != order[j]
    decreases budget, |work|
  {
    if work == [] || budget == 0 {
    } else if work[0].node in seen {
      OrderIsBounded(g, work[1..], seen, budget);
    } else {
      OrderIsBounded(g, Expand(g, work[0]) + work[1..], seen + {work[0].node}, budget - 1);
    }
  }

  /** A walk of `depth` steps along children. */
  ghost predicate Reaches(g: Space, root: Id, id: Id, depth: nat)
    decreases depth
  {
    if depth == 0 then id == root
    else exists parent :: Reaches(g, root, parent, depth - 1) && id in g.kids(parent)
  }

  /** Every node tested lies within the depth cap of the root. */
  lemma {:induction false} OrderIsReached(g: Space, root: Id, work: seq<Item>, seen: set<Id>, budget: nat, id: Id)
    requires forall item :: item in work ==> item.depth <= g.maxDepth && Reaches(g, root, item.node, item.depth)
    requires id in Order(g, work, seen, budget)
    ensures exists depth: nat :: depth <= g.maxDepth && Reaches(g, root, id, depth)
    decreases budget, |work|
  {
    if work[0].node in seen {
      OrderIsReached(g, root, work[1..], seen, budget, id);
    } else if id == work[0].node {
      assert Reaches(g, root, id, work[0].depth);
    } else {
      var kids := Expand(g, work[0]);
      forall item | item in kids ensures item.depth <= g.maxDepth && Reaches(g, root, item.node, item.depth) {
        assert Reaches(g, root, work[0].node, item.depth - 1);
      }
      OrderIsReached(g, root, kids + work[1..], seen + {work[0].node}, budget - 1, id);
    }
  }

  lemma FoundIsReached(g: Space, root: Id, passes: Id -> bool, maxNodes: nat)
    ensures var found := First(passes, Order(g, [Item(root, 0)], {}, maxNodes));
            found.Some? ==> passes(found.value)
                            && exists depth: nat :: depth <= g.maxDepth && Reaches(g, root, found.value, depth)
  {
    var order := Order(g, [Item(root, 0)], {}, maxNodes);
    var found := First(passes, order);
    if found.Some? {
      FirstIsIn(passes, order);
      OrderIsReached(g, root, [Item(root, 0)], {}, maxNodes, found.value);
    }
  }

  lemma {:induction false} FirstIsIn(passes: Id -> bool, ids: seq<Id>)
    ensures First(passes, ids).Some? ==> First(passes, ids).value in ids && passes(First(passes, ids).value)
  {
    if ids != [] { FirstIsIn(passes, ids[1..]); }
  }

  // ---------------------------------------------------------------- against a recursive search

  /** The recursive search order of everything within n steps: a node, then below each child in turn.  A
      node stands there once for each walk that ends in it. */
  function Unfold(g: Space, id: Id, n: nat): seq<Id>
    decreases n, 0
  {
    [id] + if n == 0 then [] else UnfoldAll(g, g.kids(id), n - 1)
  }

  function UnfoldAll(g: Space, ids: seq<Id>, n: nat): seq<Id>
    decreases n, 1 + |ids|
  {
    if ids == [] then [] else Unfold(g, ids[0], n) + UnfoldAll(g, ids[1..], n)
  }

  function Left(g: Space, depth: nat): nat { if depth >= g.maxDepth then 0 else g.maxDepth - depth }

  function UnfoldWork(g: Space, work: seq<Item>): seq<Id> {
    if work == [] then [] else Unfold(g, work[0].node, Left(g, work[0].depth)) + UnfoldWork(g, work[1..])
  }

  ghost predicate Distinct(ids: seq<Id>) { forall i, j :: 0 <= i < j < |ids| ==> ids[i] != ids[j] }

  ghost predicate Apart(ids: seq<Id>, seen: set<Id>) { forall id :: id in ids ==> id !in seen }

  lemma {:induction false} UnfoldOfConcat(g: Space, a: seq<Item>, b: seq<Item>)
    ensures UnfoldWork(g, a + b) == UnfoldWork(g, a) + UnfoldWork(g, b)
  {
    hide Unfold, Left;
    if a == [] {
      assert a + b == b;
    } else {
      assert (a + b)[0] == a[0] && (a + b)[1..] == a[1..] + b;
      UnfoldOfConcat(g, a[1..], b);
    }
  }

  lemma {:induction false} UnfoldOfItems(g: Space, ids: seq<Id>, depth: nat)
    ensures UnfoldWork(g, Items(ids, depth)) == UnfoldAll(g, ids, Left(g, depth))
  {
    hide Unfold, Left;
    if ids != [] {
      assert Items(ids, depth)[1..] == Items(ids[1..], depth);
      UnfoldOfItems(g, ids[1..], depth);
    }
  }

  lemma NextUnfold(g: Space, work: seq<Item>)
    requires work != []
    ensures UnfoldWork(g, work) == [work[0].node] + UnfoldWork(g, Expand(g, work[0]) + work[1..])
  {
    hide Unfold, UnfoldWork, Expand;
    var item := work[0];
    UnfoldFirst(g, work);
    ExpandUnfold(g, item);
    UnfoldOfConcat(g, Expand(g, item), work[1..]);
    PutInFront(item.node, UnfoldWork(g, Expand(g, item)), UnfoldWork(g, work[1..]));
  }

  lemma PutInFront(id: Id, a: seq<Id>, b: seq<Id>)
    ensures ([id] + a) + b == [id] + (a + b)
  {
  }

  lemma ExpandUnfold(g: Space, item: Item)
    ensures Unfold(g, item.node, Left(g, item.depth)) == [item.node] + UnfoldWork(g, Expand(g, item))
  {
    hide UnfoldAll, UnfoldWork, Items;
    if item.depth >= g.maxDepth {
      NoWork(g);
    } else {
      UnfoldOfItems(g, g.kids(item.node), item.depth + 1);
    }
  }

  lemma NoWork(g: Space)
    ensures UnfoldWork(g, []) == []
  {
  }

  lemma UnfoldFirst(g: Space, work: seq<Item>)
    requires work != []
    ensures UnfoldWork(g, work) == Unfold(g, work[0].node, Left(g, work[0].depth)) + UnfoldWork(g, work[1..])
  {
  }

  /** Where no node comes up twice within the budget the stack tests them in that order, as far as the budget goes. */
  lemma {:induction false} OrderIsUnfold(g: Space, work: seq<Item>, seen: set<Id>, budget: nat)
    requires Distinct(Take(UnfoldWork(g, work), budget)) && Apart(Take(UnfoldWork(g, work), budget), seen)
    ensures Order(g, work, seen, budget) == Take(UnfoldWork(g, work), budget)
    decreases budget
  {
    if work == [] || budget == 0 {
      OrderEnds(g, work, seen, budget);
    } else {
      var id, next := work[0].node, Expand(g, work[0]) + work[1..];
      NextUnfold(g, work);
      hide UnfoldWork, Expand;
      var ids := UnfoldWork(g, work);
      assert ids[0] == id && ids[1..] == UnfoldWork(g, next);
      TakeOne(ids, budget);
      NoneAgain(Take(ids, budget), seen);
      assert Take(ids, budget)[1..] == Take(ids[1..], budget - 1);
      OrderIsUnfold(g, next, seen + {id}, budget - 1);
      assert Order(g, work, seen, budget) == [id] + Order(g, next, seen + {id}, budget - 1);
    }
  }

  lemma NoneAgain(ids: seq<Id>, seen: set<Id>)
    requires ids != [] && Distinct(ids) && Apart(ids, seen)
    ensures ids[0] !in seen && Distinct(ids[1..]) && Apart(ids[1..], seen + {ids[0]})
  {
  }

  lemma TakeOne(ids: seq<Id>, budget: nat)
    requires ids != [] && budget > 0
    ensures Take(ids, budget) == [ids[0]] + Take(ids[1..], budget - 1)
  {
  }

  lemma UnfoldOfRoot(g: Space, root: Id)
    ensures UnfoldWork(g, [Item(root, 0)]) == Unfold(g, root, g.maxDepth)
  {
    hide Unfold;
    assert [Item(root, 0)][1..] == [];
  }

  /** The walk that takes child number walk[0], then child walk[1] of that one, and so on. */
  function End(g: Space, from: Id, walk: seq<nat>): Option<Id>
    decreases |walk|
  {
    if walk == [] then Some(from)
    else if walk[0] < |g.kids(from)| then End(g, g.kids(from)[walk[0]], walk[1..]) else None
  }

  // No two walks of at most n steps end in one node.
  ghost predicate OneWalkEach(g: Space, from: Id, n: nat) {
    forall a, b :: |a| <= n && |b| <= n && End(g, from, a).Some? && End(g, from, a) == End(g, from, b) ==> a == b
  }

  ghost predicate WalkTo(g: Space, from: Id, n: nat, id: Id) {
    exists walk :: |walk| <= n && End(g, from, walk) == Some(id)
  }

  lemma {:induction false} UnfoldIsReached(g: Space, from: Id, n: nat, id: Id)
    ensures id in Unfold(g, from, n) <==> WalkTo(g, from, n, id)
    decreases n
  {
    hide Unfold, WalkTo;
    WalkStep(g, from, n, id);
    InUnfold(g, from, n, id);
    if n > 0 {
      var kids := g.kids(from);
      forall i | 0 <= i < |kids| ensures id in Unfold(g, kids[i], n - 1) <==> WalkTo(g, kids[i], n - 1, id) {
        UnfoldIsReached(g, kids[i], n - 1, id);
      }
    }
  }

  lemma InUnfold(g: Space, from: Id, n: nat, id: Id)
    ensures id in Unfold(g, from, n)
       <==> id == from || (n > 0 && exists i :: 0 <= i < |g.kids(from)| && id in Unfold(g, g.kids(from)[i], n - 1))
  {
    hide Unfold, UnfoldAll;
    if n == 0 {
      UnfoldNone(g, from);
    } else {
      InUnfoldAll(g, g.kids(from), n - 1, id);
      InStep(g, from, n, id);
    }
  }

  lemma UnfoldNone(g: Space, from: Id)
    ensures Unfold(g, from, 0) == [from]
  {
  }

  lemma InStep(g: Space, from: Id, n: nat, id: Id)
    requires n > 0
    ensures id in Unfold(g, from, n) <==> id == from || id in UnfoldAll(g, g.kids(from), n - 1)
  {
    UnfoldStep(g, from, n);
    hide Unfold, UnfoldAll;
  }

  // A walk is empty, or a first step and a walk from there.
  lemma WalkStep(g: Space, from: Id, n: nat, id: Id)
    ensures WalkTo(g, from, n, id)
       <==> id == from || (n > 0 && exists i :: 0 <= i < |g.kids(from)| && WalkTo(g, g.kids(from)[i], n - 1, id))
  {
    assert End(g, from, []) == Some(from);
    if WalkTo(g, from, n, id) && id != from {
      var walk :| |walk| <= n && End(g, from, walk) == Some(id);
      FirstOf(g, from, n, walk, id);
    }
    if n > 0 {
      if i :| 0 <= i < |g.kids(from)| && WalkTo(g, g.kids(from)[i], n - 1, id) {
        var walk :| |walk| <= n - 1 && End(g, g.kids(from)[i], walk) == Some(id);
        StepThenWalk(g, from, i, walk);
      }
    }
  }

  lemma UnfoldStep(g: Space, from: Id, n: nat)
    requires n > 0
    ensures Unfold(g, from, n) == [from] + UnfoldAll(g, g.kids(from), n - 1)
  {
  }

  lemma {:induction false} InUnfoldAll(g: Space, ids: seq<Id>, n: nat, id: Id)
    ensures id in UnfoldAll(g, ids, n) <==> exists i :: 0 <= i < |ids| && id in Unfold(g, ids[i], n)
  {
    hide Unfold;
    if ids != [] {
      InUnfoldAll(g, ids[1..], n, id);
      if i :| 0 <= i < |ids| && id in Unfold(g, ids[i], n) {
        assert i > 0 ==> ids[1..][i - 1] == ids[i];
      }
    }
  }

  lemma DistinctOfConcat(a: seq<Id>, b: seq<Id>)
    ensures Distinct(a + b) <==> Distinct(a) && Distinct(b) && forall id :: id in a ==> id !in b
  {
    var all := a + b;
    if Distinct(all) {
      forall i, j | 0 <= i < j < |b| ensures b[i] != b[j] {
        assert all[|a| + i] == b[i] && all[|a| + j] == b[j];
      }
      forall i, j | 0 <= i < j < |a| ensures a[i] != a[j] {
        assert all[i] == a[i] && all[j] == a[j];
      }
      forall id | id in a ensures id !in b {
        var i :| 0 <= i < |a| && a[i] == id;
        forall j | 0 <= j < |b| ensures b[j] != id {
          assert all[i] == id && all[|a| + j] == b[j];
        }
      }
    }
    if Distinct(a) && Distinct(b) && forall id :: id in a ==> id !in b {
      forall i, j | 0 <= i < j < |all| ensures all[i] != all[j] {
        if i < |a| <= j {
          assert all[i] in a && all[j] in b;
        }
      }
    }
  }

  ghost predicate Overlap(g: Space, a: Id, b: Id, n: nat) {
    exists id :: id in Unfold(g, a, n) && id in Unfold(g, b, n)
  }

  // Each child's part is free of repetition, and no two have a node in common.
  ghost predicate PartsDistinct(g: Space, ids: seq<Id>, n: nat) {
    && (forall i :: 0 <= i < |ids| ==> Distinct(Unfold(g, ids[i], n)))
    && forall i, j :: 0 <= i < j < |ids| ==> !Overlap(g, ids[i], ids[j], n)
  }

  lemma {:induction false} DistinctParts(g: Space, ids: seq<Id>, n: nat)
    ensures Distinct(UnfoldAll(g, ids, n)) <==> PartsDistinct(g, ids, n)
  {
    hide Unfold, Distinct, PartsDistinct;
    if ids == [] {
      NothingRepeats(g, n);
    } else {
      DistinctParts(g, ids[1..], n);
      DistinctOfConcat(Unfold(g, ids[0], n), UnfoldAll(g, ids[1..], n));
      OverlapsAll(g, ids[0], ids[1..], n);
      PartsStep(g, ids, n);
    }
  }

  lemma NothingRepeats(g: Space, n: nat)
    ensures Distinct([]) && PartsDistinct(g, [], n)
  {
  }

  lemma OverlapsAll(g: Space, first: Id, rest: seq<Id>, n: nat)
    ensures (forall id :: id in Unfold(g, first, n) ==> id !in UnfoldAll(g, rest, n))
       <==> forall i :: 0 <= i < |rest| ==> !Overlap(g, first, rest[i], n)
  {
    hide Unfold;
    forall id ensures id in UnfoldAll(g, rest, n) <==> exists i :: 0 <= i < |rest| && id in Unfold(g, rest[i], n) {
      InUnfoldAll(g, rest, n, id);
    }
    hide UnfoldAll;
  }

  lemma PartsStep(g: Space, ids: seq<Id>, n: nat)
    requires ids != []
    ensures PartsDistinct(g, ids, n)
       <==> && Distinct(Unfold(g, ids[0], n)) && PartsDistinct(g, ids[1..], n)
            && forall i :: 0 <= i < |ids[1..]| ==> !Overlap(g, ids[0], ids[1..][i], n)
  {
    hide Unfold, Distinct, Overlap;
    var rest := ids[1..];
    assert forall i :: 0 <= i < |rest| ==> rest[i] == ids[i + 1];
    if PartsDistinct(g, rest, n) && Distinct(Unfold(g, ids[0], n))
       && forall i :: 0 <= i < |rest| ==> !Overlap(g, ids[0], rest[i], n) {
      forall i | 0 <= i < |ids| ensures Distinct(Unfold(g, ids[i], n)) {
        assert i > 0 ==> ids[i] == rest[i - 1];
      }
      forall i, j | 0 <= i < j < |ids| ensures !Overlap(g, ids[i], ids[j], n) {
        assert ids[j] == rest[j - 1];
        assert i > 0 ==> ids[i] == rest[i - 1];
      }
    }
  }

  /** No node comes up twice exactly when no two walks end in one node. */
  lemma {:induction false} DistinctIffOneWalkEach(g: Space, from: Id, n: nat)
    ensures Distinct(Unfold(g, from, n)) <==> OneWalkEach(g, from, n)
    decreases n
  {
    hide Unfold, Distinct, OneWalkEach;
    if n == 0 {
      OneWalkAtOnce(g, from);
    } else {
      forall i | 0 <= i < |g.kids(from)|
        ensures Distinct(Unfold(g, g.kids(from)[i], n - 1)) <==> OneWalkEach(g, g.kids(from)[i], n - 1)
      {
        DistinctIffOneWalkEach(g, g.kids(from)[i], n - 1);
      }
      SplitsAgree(g, from, n);
    }
  }

  lemma OneWalkAtOnce(g: Space, from: Id)
    ensures Distinct(Unfold(g, from, 0)) && OneWalkEach(g, from, 0)
  {
    UnfoldNone(g, from);
  }

  lemma SplitsAgree(g: Space, from: Id, n: nat)
    requires n > 0
    requires forall i :: 0 <= i < |g.kids(from)| ==>
               (Distinct(Unfold(g, g.kids(from)[i], n - 1)) <==> OneWalkEach(g, g.kids(from)[i], n - 1))
    ensures Distinct(Unfold(g, from, n)) <==> OneWalkEach(g, from, n)
  {
    hide Unfold, Distinct, OneWalkEach, WalkTo, Meet, Overlap;
    var kids := g.kids(from);
    DistinctSplit(g, from, n);
    WalksSplit(g, from, n);
    forall i | 0 <= i < |kids| ensures from in Unfold(g, kids[i], n - 1) <==> WalkTo(g, kids[i], n - 1, from) {
      UnfoldIsReached(g, kids[i], n - 1, from);
    }
    forall i, j | 0 <= i < j < |kids|
      ensures Overlap(g, kids[i], kids[j], n - 1) <==> Meet(g, kids[i], kids[j], n - 1)
    {
      OverlapIsMeet(g, kids[i], kids[j], n - 1);
    }
  }

  lemma DistinctSplit(g: Space, from: Id, n: nat)
    requires n > 0
    ensures var kids := g.kids(from);
            Distinct(Unfold(g, from, n))
            <==> && (forall i :: 0 <= i < |kids| ==> Distinct(Unfold(g, kids[i], n - 1)))
                 && (forall i :: 0 <= i < |kids| ==> from !in Unfold(g, kids[i], n - 1))
                 && forall i, j :: 0 <= i < j < |kids| ==> !Overlap(g, kids[i], kids[j], n - 1)
  {
    hide Unfold, UnfoldAll, Distinct, Overlap;
    UnfoldStep(g, from, n);
    DistinctOfConcat([from], UnfoldAll(g, g.kids(from), n - 1));
    DistinctParts(g, g.kids(from), n - 1);
    InUnfoldAll(g, g.kids(from), n - 1, from);
    OneIsDistinct(from);
  }

  lemma OneIsDistinct(id: Id)
    ensures Distinct([id])
  {
  }

  ghost predicate Meet(g: Space, a: Id, b: Id, n: nat) { exists id :: WalkTo(g, a, n, id) && WalkTo(g, b, n, id) }

  lemma OverlapIsMeet(g: Space, a: Id, b: Id, n: nat)
    ensures Overlap(g, a, b, n) <==> Meet(g, a, b, n)
  {
    forall id ensures id in Unfold(g, a, n) <==> WalkTo(g, a, n, id) { UnfoldIsReached(g, a, n, id); }
    forall id ensures id in Unfold(g, b, n) <==> WalkTo(g, b, n, id) { UnfoldIsReached(g, b, n, id); }
    hide Unfold, WalkTo;
  }

  lemma WalksSplit(g: Space, from: Id, n: nat)
    requires n > 0
    ensures var kids := g.kids(from);
            OneWalkEach(g, from, n)
            <==> && (forall i :: 0 <= i < |kids| ==> OneWalkEach(g, kids[i], n - 1))
                 && (forall i :: 0 <= i < |kids| ==> !WalkTo(g, kids[i], n - 1, from))
                 && forall i, j :: 0 <= i < j < |kids| ==> !Meet(g, kids[i], kids[j], n - 1)
  {
    var kids := g.kids(from);
    hide Meet, OneWalkEach, WalkTo;
    if OneWalkEach(g, from, n) {
      forall i | 0 <= i < |kids| ensures OneWalkEach(g, kids[i], n - 1) && !WalkTo(g, kids[i], n - 1, from) {
        FirstStep(g, from, n, i);
      }
      forall i, j | 0 <= i < j < |kids| ensures !Meet(g, kids[i], kids[j], n - 1) {
        TwoFirstSteps(g, from, n, i, j);
      }
    }
    if && (forall i :: 0 <= i < |kids| ==> OneWalkEach(g, kids[i], n - 1))
       && (forall i :: 0 <= i < |kids| ==> !WalkTo(g, kids[i], n - 1, from))
       && forall i, j :: 0 <= i < j < |kids| ==> !Meet(g, kids[i], kids[j], n - 1) {
      Combined(g, from, n);
    }
  }

  lemma Combined(g: Space, from: Id, n: nat)
    requires n > 0
    requires forall i :: 0 <= i < |g.kids(from)| ==> OneWalkEach(g, g.kids(from)[i], n - 1)
    requires forall i :: 0 <= i < |g.kids(from)| ==> !WalkTo(g, g.kids(from)[i], n - 1, from)
    requires forall i, j :: 0 <= i < j < |g.kids(from)| ==> !Meet(g, g.kids(from)[i], g.kids(from)[j], n - 1)
    ensures OneWalkEach(g, from, n)
  {
    hide Meet, OneWalkEach, WalkTo, End;
    forall a, b | |a| <= n && |b| <= n && End(g, from, a).Some? && End(g, from, a) == End(g, from, b) ensures a == b {
      var id := End(g, from, a).value;
      if a != [] { FirstOf(g, from, n, a, id); }
      if b != [] { FirstOf(g, from, n, b, id); }
      if a == [] || b == [] {
        NoStep(g, from);
      } else {
        SameFirst(g, g.kids(from), n - 1, a[0], b[0], id);
        SameRest(g, g.kids(from)[a[0]], n - 1, a[1..], b[1..]);
        assert a == [a[0]] + a[1..] && b == [b[0]] + b[1..];
      }
    }
    OneWalkIs(g, from, n);
  }

  lemma OneWalkIs(g: Space, from: Id, n: nat)
    requires forall a, b :: |a| <= n && |b| <= n && End(g, from, a).Some? && End(g, from, a) == End(g, from, b) ==>
               a == b
    ensures OneWalkEach(g, from, n)
  {
  }

  lemma NoStep(g: Space, from: Id)
    ensures End(g, from, []) == Some(from)
  {
  }

  lemma FirstOf(g: Space, from: Id, n: nat, walk: seq<nat>, id: Id)
    requires 0 < |walk| <= n && End(g, from, walk) == Some(id)
    ensures walk[0] < |g.kids(from)| && End(g, g.kids(from)[walk[0]], walk[1..]) == Some(id)
    ensures WalkTo(g, g.kids(from)[walk[0]], n - 1, id)
  {
    assert |walk[1..]| <= n - 1;
  }

  lemma SameFirst(g: Space, kids: seq<Id>, n: nat, i: nat, j: nat, id: Id)
    requires i < |kids| && j < |kids| && WalkTo(g, kids[i], n, id) && WalkTo(g, kids[j], n, id)
    requires forall i, j :: 0 <= i < j < |kids| ==> !Meet(g, kids[i], kids[j], n)
    ensures i == j
  {
    hide WalkTo;
    assert Meet(g, kids[i], kids[j], n) && Meet(g, kids[j], kids[i], n);
  }

  lemma SameRest(g: Space, from: Id, n: nat, a: seq<nat>, b: seq<nat>)
    requires OneWalkEach(g, from, n) && |a| <= n && |b| <= n
    requires End(g, from, a).Some? && End(g, from, a) == End(g, from, b)
    ensures a == b
  {
  }

  lemma StepThenWalk(g: Space, from: Id, i: nat, walk: seq<nat>)
    requires i < |g.kids(from)|
    ensures End(g, from, [i] + walk) == End(g, g.kids(from)[i], walk)
  {
    assert ([i] + walk)[1..] == walk;
  }

  lemma FirstStep(g: Space, from: Id, n: nat, i: nat)
    requires n > 0 && OneWalkEach(g, from, n) && i < |g.kids(from)|
    ensures OneWalkEach(g, g.kids(from)[i], n - 1) && !WalkTo(g, g.kids(from)[i], n - 1, from)
  {
    var kid := g.kids(from)[i];
    forall a, b | |a| <= n - 1 && |b| <= n - 1 && End(g, kid, a).Some? && End(g, kid, a) == End(g, kid, b)
      ensures a == b
    {
      StepThenWalk(g, from, i, a);
      StepThenWalk(g, from, i, b);
      assert [i] + a == [i] + b;
      assert ([i] + a)[1..] == a && ([i] + b)[1..] == b;
    }
    if walk :| |walk| <= n - 1 && End(g, kid, walk) == Some(from) {
      StepThenWalk(g, from, i, walk);
      assert End(g, from, []) == Some(from);
      assert |[i] + walk| > 0;
    }
  }

  lemma TwoFirstSteps(g: Space, from: Id, n: nat, i: nat, j: nat)
    requires n > 0 && OneWalkEach(g, from, n) && i < j < |g.kids(from)|
    ensures !Meet(g, g.kids(from)[i], g.kids(from)[j], n - 1)
  {
    var x, y := g.kids(from)[i], g.kids(from)[j];
    if Meet(g, x, y, n - 1) {
      var id: Id :| WalkTo(g, x, n - 1, id) && WalkTo(g, y, n - 1, id);
      var a :| |a| <= n - 1 && End(g, x, a) == Some(id);
      var b :| |b| <= n - 1 && End(g, y, b) == Some(id);
      assert ([i] + a)[0] == i && ([j] + b)[0] == j;
      StepThenWalk(g, from, i, a);
      StepThenWalk(g, from, j, b);
    }
  }

  /** Under a given budget the search is the recursive one if and only if the part of it within the budget
      meets no node twice. */
  lemma SearchIsRecursiveIffDistinct(g: Space, root: Id, budget: nat)
    ensures Order(g, [Item(root, 0)], {}, budget) == Take(Unfold(g, root, g.maxDepth), budget)
       <==> Distinct(Take(Unfold(g, root, g.maxDepth), budget))
  {
    hide Order, Unfold, UnfoldWork;
    UnfoldOfRoot(g, root);
    OrderIsBounded(g, [Item(root, 0)], {}, budget);
    if Distinct(Take(Unfold(g, root, g.maxDepth), budget)) {
      OrderIsUnfold(g, [Item(root, 0)], {}, budget);
    }
  }

  /** The search is the recursive one, for every budget, if and only if no two walks within the depth cap
      end in one node; on a tree none do. */
  lemma SearchIsRecursiveIffOneWalkEach(g: Space, root: Id)
    ensures (forall budget: nat :: Order(g, [Item(root, 0)], {}, budget) == Take(Unfold(g, root, g.maxDepth), budget))
       <==> OneWalkEach(g, root, g.maxDepth)
  {
    hide Order, Unfold, UnfoldWork, OneWalkEach;
    var ids := Unfold(g, root, g.maxDepth);
    DistinctIffOneWalkEach(g, root, g.maxDepth);
    forall budget: nat
      ensures Order(g, [Item(root, 0)], {}, budget) == Take(ids, budget) <==> Distinct(Take(ids, budget))
    {
      SearchIsRecursiveIffDistinct(g, root, budget);
    }
    assert Take(ids, |ids|) == ids;
    if Distinct(ids) {
      assert forall budget: nat :: Distinct(Take(ids, budget));
    }
  }

  // ---------------------------------------------------------------- what is returned

  /** All the nodes there are come first, and then only some of them again. */
  ghost predicate RepeatsLast(ids: seq<Id>) { exists n :: NewThenOld(ids, n, {}) }

  // The first n are new and distinct, and what follows is among them or old.
  ghost predicate NewThenOld(ids: seq<Id>, n: nat, seen: set<Id>) {
    && n <= |ids| && Distinct(ids[..n]) && Apart(ids[..n], seen)
    && forall k :: n <= k < |ids| ==> ids[k] in ids[..n] || ids[k] in seen
  }

  lemma {:induction false} AllOld(g: Space, work: seq<Item>, seen: set<Id>, budget: nat)
    requires forall id :: id in UnfoldWork(g, work) ==> id in seen
    ensures Order(g, work, seen, budget) == []
    decreases |work|
  {
    if work != [] && budget > 0 {
      NextUnfold(g, work);
      UnfoldFirst(g, work);
      hide Unfold, UnfoldWork;
      assert work[0].node in UnfoldWork(g, work);
      AllOld(g, work[1..], seen, budget);
    }
  }

  lemma NewThenOldStep(ids: seq<Id>, n: nat, seen: set<Id>)
    requires NewThenOld(ids, n, seen) && n > 0
    ensures ids[0] !in seen && NewThenOld(ids[1..], n - 1, seen + {ids[0]})
  {
    var rest := ids[1..];
    assert ids[..n][0] == ids[0] && rest[..n - 1] == ids[..n][1..];
    NoneAgain(ids[..n], seen);
    forall k | n - 1 <= k < |rest| ensures rest[k] in rest[..n - 1] || rest[k] in seen + {ids[0]} {
      assert rest[k] == ids[k + 1];
      assert ids[..n] == [ids[0]] + rest[..n - 1];
    }
  }

  /** Then the search tests just the new ones, in that order. */
  lemma {:induction false} OrderIsNew(g: Space, work: seq<Item>, seen: set<Id>, budget: nat, n: nat)
    requires NewThenOld(UnfoldWork(g, work), n, seen)
    ensures Order(g, work, seen, budget) == Take(UnfoldWork(g, work)[..n], budget)
    decreases n
  {
    hide Order, UnfoldWork, Expand, NewThenOld;
    var ids := UnfoldWork(g, work);
    NewIsPart(ids, n, seen);
    if budget == 0 {
      OrderEnds(g, work, seen, budget);
    } else if n == 0 {
      AllOld(g, work, seen, budget);
    } else {
      NothingUnfolds(g, work);
      NextUnfold(g, work);
      NewThenOldStep(ids, n, seen);
      var next := Expand(g, work[0]) + work[1..];
      assert ids[0] == work[0].node && ids[1..] == UnfoldWork(g, next);
      OrderIsNew(g, next, seen + {ids[0]}, budget - 1, n - 1);
      OrderHead(g, work, seen, budget);
      TakeOne(ids[..n], budget);
      assert ids[..n][1..] == ids[1..][..n - 1];
    }
  }

  lemma NewIsPart(ids: seq<Id>, n: nat, seen: set<Id>)
    requires NewThenOld(ids, n, seen)
    ensures n <= |ids| && (n == 0 ==> forall id :: id in ids ==> id in seen)
  {
  }

  lemma NothingUnfolds(g: Space, work: seq<Item>)
    ensures work == [] ==> UnfoldWork(g, work) == []
  {
  }

  lemma {:induction false} FirstIgnoresOld(passes: Id -> bool, a: seq<Id>, b: seq<Id>)
    requires forall id :: id in b ==> id in a
    ensures First(passes, a + b) == First(passes, a)
  {
    if id :| id in a && passes(id) {
      FirstExists(passes, a, b);
    } else {
      FirstOfConcat(passes, a, b);
      NonePasses(passes, a);
      NonePasses(passes, b);
    }
  }

  lemma {:induction false} FirstExists(passes: Id -> bool, a: seq<Id>, b: seq<Id>)
    requires exists id :: id in a && passes(id)
    ensures First(passes, a + b) == First(passes, a)
  {
    assert (a + b)[0] == a[0] && (a + b)[1..] == a[1..] + b;
    if !passes(a[0]) {
      FirstExists(passes, a[1..], b);
    }
  }

  lemma {:induction false} NonePasses(passes: Id -> bool, ids: seq<Id>)
    ensures First(passes, ids) == None <==> forall id :: id in ids ==> !passes(id)
  {
    if ids != [] {
      NonePasses(passes, ids[1..]);
      assert forall id :: id in ids <==> id == ids[0] || id in ids[1..];
    }
  }

  // A search that did not use up its budget has nothing more to test.
  lemma {:induction false} BudgetToSpare(g: Space, work: seq<Item>, seen: set<Id>, budget: nat)
    requires |Order(g, work, seen, budget)| < budget
    ensures Order(g, work, seen, budget + 1) == Order(g, work, seen, budget)
    decreases budget, |work|
  {
    if work != [] {
      hide Expand;
      OrderHead(g, work, seen, budget);
      OrderHead(g, work, seen, budget + 1);
      hide Order;
      if work[0].node in seen {
        BudgetToSpare(g, work[1..], seen, budget);
      } else {
        BudgetToSpare(g, Expand(g, work[0]) + work[1..], seen + {work[0].node}, budget - 1);
      }
    }
  }

  ghost predicate ReturnsTheSame(g: Space, root: Id, passes: Id -> bool, budget: nat) {
    First(passes, Order(g, [Item(root, 0)], {}, budget)) == First(passes, Take(Unfold(g, root, g.maxDepth), budget))
  }

  /** The search returns what the recursive one does, whatever is looked for and whatever the budget, if and only
      if the recursive one meets every node before it meets any twice. */
  lemma ReturnsTheSameIffRepeatsLast(g: Space, root: Id)
    ensures (forall passes: Id -> bool, budget: nat :: ReturnsTheSame(g, root, passes, budget))
       <==> RepeatsLast(Unfold(g, root, g.maxDepth))
  {
    hide ReturnsTheSame, Unfold, NewThenOld;
    var ids := Unfold(g, root, g.maxDepth);
    if n: nat :| NewThenOld(ids, n, {}) {
      forall passes: Id -> bool, budget: nat ensures ReturnsTheSame(g, root, passes, budget) {
        RepeatsLastIsEnough(g, root, n, passes, budget);
      }
    }
    if !RepeatsLast(ids) {
      RepeatsLastIsNeeded(g, root);
    }
  }

  lemma RepeatsLastIsEnough(g: Space, root: Id, n: nat, passes: Id -> bool, budget: nat)
    requires NewThenOld(Unfold(g, root, g.maxDepth), n, {})
    ensures ReturnsTheSame(g, root, passes, budget)
  {
    hide Order, Unfold, UnfoldWork, First;
    var ids := Unfold(g, root, g.maxDepth);
    UnfoldOfRoot(g, root);
    OrderIsNew(g, [Item(root, 0)], {}, budget, n);
    if n < budget {
      var seen := Take(ids, budget);
      assert seen == ids[..n] + seen[n..];
      forall id | id in seen[n..] ensures id in ids[..n] {
        var k :| 0 <= k < |seen[n..]| && seen[n..][k] == id;
        assert ids[n + k] == id;
      }
      FirstIgnoresOld(passes, ids[..n], seen[n..]);
    } else {
      assert n <= |ids|;
      assert Take(ids[..n], budget) == ids[..budget] && Take(ids, budget) == ids[..budget];
    }
  }

  // The longest part in front without repetition.
  lemma {:induction false} DistinctPart(ids: seq<Id>, m: nat) returns (n: nat)
    requires m <= |ids| && Distinct(ids[..m])
    ensures m <= n <= |ids| && Distinct(ids[..n]) && (n < |ids| ==> ids[n] in ids[..n])
    decreases |ids| - m
  {
    if m == |ids| || ids[m] in ids[..m] {
      n := m;
    } else {
      assert ids[..m + 1] == ids[..m] + [ids[m]];
      OneIsDistinct(ids[m]);
      DistinctOfConcat(ids[..m], [ids[m]]);
      n := DistinctPart(ids, m + 1);
    }
  }

  lemma RepeatsLastIsNeeded(g: Space, root: Id)
    requires !RepeatsLast(Unfold(g, root, g.maxDepth))
    ensures exists passes: Id -> bool, budget: nat :: !ReturnsTheSame(g, root, passes, budget)
  {
    hide Order, Unfold, First, ReturnsTheSame;
    var ids := Unfold(g, root, g.maxDepth);
    assert ids[..0] == [];
    var n := DistinctPart(ids, 0);
    assert !NewThenOld(ids, n, {});
    var k :| n <= k < |ids| && ids[k] !in ids[..n];
    var m := FirstNew(ids, n, k);
    LaterNewIsMissed(g, root, n, m);
  }

  // The first one after n that is not among the first n.
  lemma FirstNew(ids: seq<Id>, n: nat, k: nat) returns (m: nat)
    requires n <= k < |ids| && ids[k] !in ids[..n]
    ensures n <= m <= k && ids[m] !in ids[..n] && forall j :: n <= j < m ==> ids[j] in ids[..n]
  {
    m := n;
    while ids[m] in ids[..n]
      invariant n <= m <= k && forall j :: n <= j < m ==> ids[j] in ids[..n]
      decreases k - m
    {
      m := m + 1;
    }
  }

  lemma LaterNewIsMissed(g: Space, root: Id, n: nat, m: nat)
    requires var ids := Unfold(g, root, g.maxDepth);
             && n < m < |ids| && Distinct(ids[..n]) && ids[m] !in ids[..n]
             && forall j :: n <= j < m ==> ids[j] in ids[..n]
    ensures exists passes: Id -> bool, budget: nat :: !ReturnsTheSame(g, root, passes, budget)
  {
    hide Order, Unfold, First, ReturnsTheSame;
    var ids := Unfold(g, root, g.maxDepth);
    var order := Order(g, [Item(root, 0)], {}, m);
    if id :| id in order && id !in ids[..n] {
      forall j | 0 <= j < m ensures ids[j] in ids[..n] {
        assert j < n ==> ids[..n][j] == ids[j];
      }
      assert id !in Take(ids, m);
      NotSameNodes(g, root, m, id);
    } else {
      OrderIsBounded(g, [Item(root, 0)], {}, m);
      NoMoreThan(order, ids[..n]);
      BudgetToSpare(g, [Item(root, 0)], {}, m);
      assert Take(ids, m + 1)[m] == ids[m];
      NotSameNodes(g, root, m + 1, ids[m]);
    }
  }

  lemma NotSameNodes(g: Space, root: Id, budget: nat, id: Id)
    requires !(id in Order(g, [Item(root, 0)], {}, budget) <==> id in Take(Unfold(g, root, g.maxDepth), budget))
    ensures exists passes: Id -> bool, budget: nat :: !ReturnsTheSame(g, root, passes, budget)
  {
    hide Order, Unfold;
    var same := (other: Id) => other == id;
    NonePasses(same, Order(g, [Item(root, 0)], {}, budget));
    NonePasses(same, Take(Unfold(g, root, g.maxDepth), budget));
    assert !ReturnsTheSame(g, root, same, budget);
  }

  lemma {:induction false} NoMoreThan(a: seq<Id>, b: seq<Id>)
    requires forall i, j :: 0 <= i < j < |a| ==> a[i] != a[j]
    requires forall id :: id in a ==> id in b
    ensures |a| <= |b|
  {
    if a != [] {
      var last := a[|a| - 1];
      assert last in a;
      var k :| 0 <= k < |b| && b[k] == last;
      var before, rest := a[..|a| - 1], b[..k] + b[k + 1..];
      assert b == b[..k] + [last] + b[k + 1..];
      forall id | id in before ensures id in rest {
        assert id in a && id in b;
      }
      NoMoreThan(before, rest);
    }
  }

  /** A graph in which two walks meet and yet the same is returned: 3 is a child of both children of 0. */
  lemma DiamondReturnsTheSame()
    ensures var g := Space((id: Id) => if id == 0 then [1, 2] else if id == 1 || id == 2 then [3] else [], MAX_DEPTH);
            !OneWalkEach(g, 0, MAX_DEPTH) && RepeatsLast(Unfold(g, 0, MAX_DEPTH))
  {
    var g := Space((id: Id) => if id == 0 then [1, 2] else if id == 1 || id == 2 then [3] else [], MAX_DEPTH);
    assert Unfold(g, 3, 62) == [3];
    assert UnfoldAll(g, [3], 62) == [3] + UnfoldAll(g, [3][1..], 62);
    assert Unfold(g, 1, 63) == [1, 3] && Unfold(g, 2, 63) == [2, 3];
    assert UnfoldAll(g, [2], 63) == [2, 3] + UnfoldAll(g, [2][1..], 63);
    assert [1, 2][1..] == [2];
    assert UnfoldAll(g, [1, 2], 63) == [1, 3] + [2, 3];
    var ids := Unfold(g, 0, MAX_DEPTH);
    assert ids == [0, 1, 3, 2, 3];
    assert !Distinct(ids) by { assert ids[2] == ids[4]; }
    DistinctIffOneWalkEach(g, 0, MAX_DEPTH);
    assert ids[..4] == [0, 1, 3, 2];
    assert ids[4] == ids[..4][2];
    assert NewThenOld(ids, 4, {});
  }

  // ---------------------------------------------------------------- on a tree

  datatype Tree = Tree(id: Id, kids: seq<Tree>)

  function Roots(trees: seq<Tree>): seq<Id> {
    seq(|trees|, i requires 0 <= i < |trees| => trees[i].id)
  }

  function Preorder(tree: Tree, depth: nat, maxDepth: nat): seq<Id>
    decreases tree, 0
  {
    [tree.id] + if depth >= maxDepth then [] else PreorderAll(tree.kids, depth + 1, maxDepth)
  }

  function PreorderAll(trees: seq<Tree>, depth: nat, maxDepth: nat): seq<Id>
    decreases trees, 1
  {
    if trees == [] then [] else Preorder(trees[0], depth, maxDepth) + PreorderAll(trees[1..], depth, maxDepth)
  }

  // The graph below these nodes is the tree itself.
  ghost predicate Spans(g: Space, tree: Tree)
    decreases tree
  {
    g.kids(tree.id) == Roots(tree.kids) && forall i :: 0 <= i < |tree.kids| ==> Spans(g, tree.kids[i])
  }

  lemma {:induction false} UnfoldIsPreorder(g: Space, tree: Tree, depth: nat)
    requires Spans(g, tree)
    ensures Unfold(g, tree.id, Left(g, depth)) == Preorder(tree, depth, g.maxDepth)
    decreases tree, 0
  {
    if depth < g.maxDepth {
      UnfoldIsPreorderAll(g, tree.kids, depth + 1);
    }
  }

  lemma {:induction false} UnfoldIsPreorderAll(g: Space, trees: seq<Tree>, depth: nat)
    requires forall i :: 0 <= i < |trees| ==> Spans(g, trees[i])
    ensures UnfoldAll(g, Roots(trees), Left(g, depth)) == PreorderAll(trees, depth, g.maxDepth)
    decreases trees, 1
  {
    if trees != [] {
      hide Unfold, Preorder, Spans, Left;
      assert Roots(trees)[1..] == Roots(trees[1..]);
      UnfoldIsPreorder(g, trees[0], depth);
      UnfoldIsPreorderAll(g, trees[1..], depth);
    }
  }

  /** On a finite tree the search returns what a recursive preorder search over the first maxNodes nodes
      within the depth cap returns. */
  lemma TreeSearch(g: Space, tree: Tree, passes: Id -> bool, maxNodes: nat)
    requires Spans(g, tree) && Distinct(Preorder(tree, 0, g.maxDepth))
    ensures Order(g, [Item(tree.id, 0)], {}, maxNodes) == Take(Preorder(tree, 0, g.maxDepth), maxNodes)
    ensures First(passes, Order(g, [Item(tree.id, 0)], {}, maxNodes))
         == First(passes, Take(Preorder(tree, 0, g.maxDepth), maxNodes))
  {
    hide Order, Preorder, First, Unfold, UnfoldWork, Spans;
    assert Distinct(Take(Preorder(tree, 0, g.maxDepth), maxNodes));
    UnfoldIsPreorder(g, tree, 0);
    UnfoldOfRoot(g, tree.id);
    OrderIsUnfold(g, [Item(tree.id, 0)], {}, maxNodes);
  }

  // ---------------------------------------------------------------- where it differs

  /** A chain 0, 1, ..., MAX_DEPTH, a shortcut from 0 to its last node, and one child of that node. */
  function Shortcut(id: Id): seq<Id> {
    if id == 0 then [1, MAX_DEPTH] else if id <= MAX_DEPTH then [id + 1] else []
  }

  /** With shared nodes, at the very cap every search here runs with: the last node of the chain is first
      met at the cap and so never expanded, though it is met again one step from the root; its child, two
      steps from the root, is not tested however large the budget. */
  lemma SharedNodesAreCut(budget: nat)
    ensures var g, id := Space(Shortcut, MAX_DEPTH), MAX_DEPTH + 1;
            && Reaches(g, 0, id, 2) && id in Unfold(g, 0, MAX_DEPTH)
            && id !in Order(g, [Item(0, 0)], {}, budget)
  {
    hide Order, Unfold, Reaches, Expand;
    var g, root := Space(Shortcut, MAX_DEPTH), Item(0, 0);
    ShortcutReaches(g);
    if budget == 0 {
      OrderEnds(g, [root], {}, budget);
    } else {
      ShortcutRoot(g, root);
      RootOrder(g, root, budget);
      ChainOrder(g, 1, {0}, budget - 1);
    }
  }

  lemma RootOrder(g: Space, root: Item, budget: nat)
    requires budget > 0
    ensures Order(g, [root], {}, budget) ==
              [root.node] + Order(g, Expand(g, root) + [root][1..], {root.node}, budget - 1)
  {
    hide Order, Expand;
    OrderHead(g, [root], {}, budget);
    assert {} + {root.node} == {root.node};
  }

  lemma ShortcutRoot(g: Space, root: Item)
    requires g == Space(Shortcut, MAX_DEPTH) && root == Item(0, 0)
    ensures Expand(g, root) + [root][1..] == [Item(1, 1), Item(MAX_DEPTH, 1)]
  {
    assert g.kids(0) == [1, MAX_DEPTH];
    assert [root][1..] == [];
  }

  lemma ShortcutReaches(g: Space)
    requires g == Space(Shortcut, MAX_DEPTH)
    ensures Reaches(g, 0, MAX_DEPTH + 1, 2) && MAX_DEPTH + 1 in Unfold(g, 0, MAX_DEPTH)
  {
    hide Unfold;
    assert Reaches(g, 0, 0, 0);
    assert g.kids(0) == [1, MAX_DEPTH] && g.kids(MAX_DEPTH) == [MAX_DEPTH + 1];
    assert Reaches(g, 0, MAX_DEPTH, 1);
    StepThenWalk(g, 0, 1, [0]);
    StepThenWalk(g, MAX_DEPTH, 0, []);
    assert [1] + [0] == [1, 0] && [0] + [] == [0];
    NoStep(g, MAX_DEPTH + 1);
    assert End(g, 0, [1, 0]) == Some(MAX_DEPTH + 1);
    assert WalkTo(g, 0, MAX_DEPTH, MAX_DEPTH + 1);
    UnfoldIsReached(g, 0, MAX_DEPTH, MAX_DEPTH + 1);
  }

  lemma OrderHead(g: Space, work: seq<Item>, seen: set<Id>, budget: nat)
    requires work != [] && budget > 0
    ensures Order(g, work, seen, budget)
         == if work[0].node in seen then Order(g, work[1..], seen, budget)
            else [work[0].node] + Order(g, Expand(g, work[0]) + work[1..], seen + {work[0].node}, budget - 1)
  {
  }

  lemma {:induction false} ChainOrder(g: Space, k: nat, seen: set<Id>, budget: nat)
    requires g == Space(Shortcut, MAX_DEPTH) && 1 <= k <= MAX_DEPTH
    requires forall id :: id in seen ==> id < k
    ensures MAX_DEPTH + 1 !in Order(g, [Item(k, k), Item(MAX_DEPTH, 1)], seen, budget)
    decreases MAX_DEPTH - k
  {
    hide Order;
    var last := Item(MAX_DEPTH, 1);
    var work := [Item(k, k), last];
    if budget == 0 {
      OrderEnds(g, work, seen, budget);
    } else {
      OrderHead(g, work, seen, budget);
      if k < MAX_DEPTH {
        assert Expand(g, work[0]) + work[1..] == [Item(k + 1, k + 1), last];
        ChainOrder(g, k + 1, seen + {k}, budget - 1);
      } else {
        assert Expand(g, work[0]) + work[1..] == [last];
        if budget == 1 {
          OrderEnds(g, [last], seen + {k}, 0);
        } else {
          OrderHead(g, [last], seen + {k}, budget - 1);
          assert [last][1..] == [];
          OrderEnds(g, [], seen + {k}, budget - 1);
        }
      }
    }
  }
}

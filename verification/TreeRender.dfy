/**
 The accessibility-tree renderer (native/computer-use-linux/runtime.py): a walk that numbers nodes,
 skips empty wrappers, stops at a node and a depth cap, and folds long runs of browser tabs away
 while it is still running.  The numbers and paths it prints are used later to act on elements.
 */
module TreeRender {
  import opened Common

  const MAX_NODES := 1200
  const MAX_DEPTH := 64
  const TAB_RUN := 10

  /** What the walk reads off a node; each field is the answer of one test on its role or texts. */
  datatype Info = Info(
    generic: bool,          // the role is panel, filler, unknown or section
    compactRole: bool,      // the role is one whose label stands for its children
    hasName: bool, hasId: bool, hasValue: bool, hasVisibleValue: bool,
    acts: bool,             // some action is meaningful
    plainText: bool,        // two or more snippets in a subtree of nothing but text
    tabText: bool,          // the printed line reads as a tab after its number
    markedSelected: bool,   // the printed line says it is selected
    active: bool)           // the selected state, or the value "1"

  // children() numbers the children it could read, in increasing order.
  datatype Kid = Kid(slot: nat, node: Node)
  datatype Node = Node(info: Info, kids: seq<Kid>)

  predicate Suppressed(i: Info) {
    (i.hasName || i.hasId || i.hasVisibleValue) && i.compactRole
  }

  predicate Summarized(i: Info) {
    i.generic && !i.hasName && !i.hasValue && i.plainText
  }

  function Kids(n: Node): (kids: seq<Kid>)
    ensures forall k :: k in kids ==> k in n.kids
  {
    if Suppressed(n.info) then [] else n.kids
  }

  predicate Elided(n: Node) {
    var i := n.info;
    i.generic && !(i.hasName || i.hasId || i.hasValue) && !i.acts && !Summarized(i) && |Kids(n)| <= 1
  }

  predicate Closed(n: Node) { Summarized(n.info) || Suppressed(n.info) }

  datatype Record = Record(index: nat, path: seq<nat>, node: Node)
  datatype Line = Element(depth: nat, index: nat, tab: bool, marked: bool) | Omitted(depth: nat, count: nat)

  /** The walk's shared variables; geometry holds what geometry_nodes was given, in order. */
  datatype State = State(records: seq<Record>, lines: seq<Line>, next: nat, geometry: seq<Record>, truncated: bool,
                         tooDeep: bool)

  const EMPTY := State([], [], 0, [], false, false)

  function LineOf(n: Node, index: nat, depth: nat): Line {
    Element(depth, index, n.info.tabText, n.info.markedSelected)
  }

  function Emit(s: State, n: Node, depth: nat, path: seq<nat>): State {
    var r := Record(s.next, path, n);
    s.(records := s.records + [r], lines := s.lines + [LineOf(n, s.next, depth)],
       next := s.next + 1, geometry := s.geometry + [r])
  }

  // ---------------------------------------------------------------- tab compaction

  predicate IsTab(line: Line, depth: nat) { line.Element? && line.depth == depth && line.tab }

  // records_by_index.get: the last record with the number.
  function LastRecord(records: seq<Record>, index: nat): Option<Record> {
    if records == [] then None
    else if records[|records| - 1].index == index then Some(records[|records| - 1])
    else LastRecord(records[..|records| - 1], index)
  }

  predicate IsActive(line: Line, records: seq<Record>)
    requires line.Element?
  {
    line.marked || (LastRecord(records, line.index).Some? && LastRecord(records, line.index).value.node.info.active)
  }

  predicate Drops(line: Line, depth: nat, records: seq<Record>) {
    IsTab(line, depth) && !IsActive(line, records)
  }

  function Tabs(depth: nat): Line -> bool { (line: Line) => IsTab(line, depth) }

  function Dropping(depth: nat, records: seq<Record>): Line -> bool { (line: Line) => Drops(line, depth, records) }

  function Keeping(depth: nat, records: seq<Record>): Line -> bool { (line: Line) => !Drops(line, depth, records) }

  predicate NamedBy(lines: seq<Line>, id: nat) {
    exists i :: 0 <= i < |lines| && lines[i].Element? && lines[i].index == id
  }

  function NotNamedBy(gone: seq<Line>): Record -> bool { (r: Record) => !NamedBy(gone, r.index) }

  // The position of the first tab from `at` on.
  function FirstTab(lines: seq<Line>, at: nat, depth: nat): (k: nat)
    requires at <= |lines|
    ensures at <= k <= |lines|
    ensures k < |lines| ==> IsTab(lines[k], depth)
    ensures forall i :: at <= i < k ==> !IsTab(lines[i], depth)
    decreases |lines| - at
  {
    if at == |lines| || IsTab(lines[at], depth) then at else FirstTab(lines, at + 1, depth)
  }

  /** Folding the lines from start on: inactive tabs go, and a note stands where the first tab stood. */
  function Compact(s: State, start: nat, depth: nat): (s': State)
    requires start <= |s.lines|
    ensures s.lines[..start] <= s'.lines
  {
    var first := FirstTab(s.lines, start, depth);
    var run := s.lines[first..];
    var tabs, gone := Filter(Tabs(depth), run), Filter(Dropping(depth, s.records), run);
    if |tabs| < TAB_RUN || |gone| == |tabs| || gone == [] then s
    else
      s.(records := Filter(NotNamedBy(gone), s.records),
         lines := s.lines[..first] + [Omitted(depth, |gone|)] + Filter(Keeping(depth, s.records), run))
  }

  // ---------------------------------------------------------------- the walk

  function Walk(s: State, n: Node, depth: nat, path: seq<nat>, compacting: bool): (s': State)
    ensures s.lines <= s'.lines
    decreases n, |n.kids| + 1
  {
    if |s.records| >= MAX_NODES || depth > MAX_DEPTH then
      s.(truncated := true, tooDeep := s.tooDeep || depth > MAX_DEPTH)
    else if Elided(n) then WalkKids(s, n, 0, depth, path, compacting)
    else
      var emitted := Emit(s, n, depth, path);
      if Closed(n) then emitted
      else
        var walked := WalkKids(emitted, n, 0, depth + 1, path, compacting);
        if compacting then Compact(walked, |emitted.lines|, depth + 1) else walked
  }

  function WalkKids(s: State, parent: Node, i: nat, depth: nat, path: seq<nat>, compacting: bool): (s': State)
    requires i <= |Kids(parent)|
    ensures s.lines <= s'.lines
    decreases parent, |Kids(parent)| - i
  {
    if i == |Kids(parent)| then s
    else
      var kid := Kids(parent)[i];
      WalkKids(Walk(s, kid.node, depth, path + [kid.slot], compacting), parent, i + 1, depth, path, compacting)
  }

  // ---------------------------------------------------------------- finding a node again

  // dict(children(node)).get(slot): the last child with the number.
  function KidAt(kids: seq<Kid>, slot: nat): Option<Node> {
    if kids == [] then None
    else if kids[|kids| - 1].slot == slot then Some(kids[|kids| - 1].node)
    else KidAt(kids[..|kids| - 1], slot)
  }

  function FindByPath(n: Node, path: seq<nat>): Option<Node>
    decreases |path|
  {
    if path == [] then Some(n)
    else
      var kid := KidAt(n.kids, path[0]);
      if kid.None? then None else FindByPath(kid.value, path[1..])
  }

  // What children() guarantees at every node.
  ghost predicate Numbered(n: Node)
    decreases n
  {
    && (forall i, j :: 0 <= i < j < |n.kids| ==> n.kids[i].slot < n.kids[j].slot)
    && forall i :: 0 <= i < |n.kids| ==> Numbered(n.kids[i].node)
  }

  lemma {:induction false} KidIsAt(kids: seq<Kid>, i: nat)
    requires i < |kids| && forall i, j :: 0 <= i < j < |kids| ==> kids[i].slot < kids[j].slot
    ensures KidAt(kids, kids[i].slot) == Some(kids[i].node)
  {
    if i < |kids| - 1 {
      KidIsAt(kids[..|kids| - 1], i);
    }
  }

  lemma {:induction false} FindKid(root: Node, path: seq<nat>, n: Node, slot: nat)
    requires FindByPath(root, path) == Some(n)
    ensures FindByPath(root, path + [slot]) == KidAt(n.kids, slot)
    decreases |path|
  {
    if path == [] {
      assert (path + [slot])[1..] == [];
    } else {
      assert (path + [slot])[1..] == path[1..] + [slot];
      FindKid(KidAt(root.kids, path[0]).value, path[1..], n, slot);
    }
  }

  // ---------------------------------------------------------------- what the walk keeps

  predicate IsElement(line: Line) { line.Element? }

  function Elements(lines: seq<Line>): seq<Line> { Filter(IsElement, lines) }

  function OmittedCount(lines: seq<Line>): nat {
    if lines == [] then 0 else (if lines[0].Omitted? then lines[0].count else 0) + OmittedCount(lines[1..])
  }

  ghost predicate Ascending(records: seq<Record>) {
    forall i, j :: 0 <= i < j < |records| ==> records[i].index < records[j].index
  }

  // Numbered lines and records, one for one and in order.
  ghost predicate Match(lines: seq<Line>, records: seq<Record>) {
    && |Elements(lines)| == |records|
    && forall i :: 0 <= i < |records| ==> Elements(lines)[i].Element? && Elements(lines)[i].index == records[i].index
  }

  ghost predicate InactiveTab(n: Node) { n.info.tabText && !n.info.markedSelected && !n.info.active }

  /**
   At every point of a walk below `app`: record numbers ascend and stay below the next number; there
   are at most MAX_NODES records; the numbered lines are the records, one for one and in order; every
   number given out is either still on a record or counted in an omission note; every record's path
   leads back to the node it was rendered from; the node map has every number once, agrees with the
   records still shown, and has lost no record other than an inactive tab.
   */
  ghost predicate Sound(s: State, app: Node) {
    && Ascending(s.records)
    && |s.records| <= MAX_NODES
    && Match(s.lines, s.records)
    && s.next == |s.records| + OmittedCount(s.lines)
    && |s.geometry| == s.next
    && (forall i :: 0 <= i < s.next ==> s.geometry[i].index == i)
    && (forall r :: r in s.geometry ==> FindByPath(app, r.path) == Some(r.node))
    && (forall r :: r in s.records ==> r.index < s.next && s.geometry[r.index] == r)
    && (forall r :: r in s.geometry ==> r in s.records || InactiveTab(r.node))
    && (forall line :: line in s.lines && line.Element? ==>
          line.index < s.next && line == LineOf(s.geometry[line.index].node, line.index, line.depth))
  }

  lemma {:induction false} OmittedOfConcat(a: seq<Line>, b: seq<Line>)
    ensures OmittedCount(a + b) == OmittedCount(a) + OmittedCount(b)
  {
    if a == [] {
      assert a + b == b;
    } else {
      assert (a + b)[0] == a[0] && (a + b)[1..] == a[1..] + b;
      OmittedOfConcat(a[1..], b);
    }
  }

  lemma ElementAdded(lines: seq<Line>, line: Line)
    requires line.Element?
    ensures Elements(lines + [line]) == Elements(lines) + [line]
    ensures OmittedCount(lines + [line]) == OmittedCount(lines)
  {
    FilterConcat(IsElement, lines, [line]);
    OmittedOfConcat(lines, [line]);
    assert Elements([line]) == [line] + Filter(IsElement, []);
    assert OmittedCount([line]) == 0 + OmittedCount([]);
  }

  lemma EmitKeepsSound(s: State, n: Node, depth: nat, path: seq<nat>, app: Node)
    requires Sound(s, app) && |s.records| < MAX_NODES && FindByPath(app, path) == Some(n)
    ensures Sound(Emit(s, n, depth, path), app)
  {
    var s' := Emit(s, n, depth, path);
    var line := LineOf(n, s.next, depth);
    ElementAdded(s.lines, line);
    hide Elements, OmittedCount, FindByPath, InactiveTab;
    forall i | 0 <= i < |s.records| ensures s.records[i].index < s.next {
      assert s.records[i] in s.records;
    }
  }

  // ---------------------------------------------------------------- compaction

  // Numbers that ascend down the page name their lines.
  lemma LinesAreDistinct(lines: seq<Line>, records: seq<Record>, i: nat, j: nat)
    requires Match(lines, records) && Ascending(records)
    requires i < j < |lines| && lines[i].Element? && lines[j].Element?
    ensures lines[i].index < lines[j].index
  {
    var above, below := Elements(lines[..j]), Elements(lines[j..]);
    assert lines[..j] + lines[j..] == lines;
    FilterConcat(IsElement, lines[..j], lines[j..]);
    assert Elements(lines) == above + below;
    assert lines[..j][i] == lines[i];
    FilterIs(IsElement, lines[..j], lines[i]);
    var p :| 0 <= p < |above| && above[p] == lines[i];
    assert below[0] == lines[j];
    assert Elements(lines)[p] == lines[i] && Elements(lines)[|above|] == lines[j];
  }

  /** Under Sound, a line goes exactly when its number is among the omitted ones, wherever it stands. */
  lemma OmittedNamesLines(s: State, app: Node, first: nat, depth: nat)
    requires Sound(s, app) && first <= |s.lines|
    ensures var gone := Filter(Dropping(depth, s.records), s.lines[first..]);
            && (forall line :: line in s.lines[..first] && line.Element? ==> !NamedBy(gone, line.index))
            && (forall line :: line in s.lines[first..] && line.Element? ==>
                  (Drops(line, depth, s.records) <==> NamedBy(gone, line.index)))
  {
    hide LastRecord, OmittedCount, Filter;
    var run := s.lines[first..];
    var gone := Filter(Dropping(depth, s.records), run);
    forall i | 0 <= i < |s.lines| && s.lines[i].Element?
      ensures NamedBy(gone, s.lines[i].index) <==> first <= i && Drops(s.lines[i], depth, s.records)
    {
      var line := s.lines[i];
      FilterIs(Dropping(depth, s.records), run, line);
      if k :| 0 <= k < |gone| && gone[k].Element? && gone[k].index == line.index {
        FilterIs(Dropping(depth, s.records), run, gone[k]);
        var m :| 0 <= m < |run| && run[m] == gone[k];
        assert run[m] == s.lines[first + m];
        if i < first + m { LinesAreDistinct(s.lines, s.records, i, first + m); }
        if first + m < i { LinesAreDistinct(s.lines, s.records, first + m, i); }
      }
      if first <= i && Drops(line, depth, s.records) {
        assert run[i - first] == line;
        var k :| 0 <= k < |gone| && gone[k] == line;
      }
    }
    forall line | line in run && line.Element? ensures Drops(line, depth, s.records) <==> NamedBy(gone, line.index) {
      var k :| 0 <= k < |run| && run[k] == line;
      assert run[k] == s.lines[first + k];
    }
  }

  lemma {:induction false} LastRecordFinds(records: seq<Record>, i: nat)
    requires i < |records| && Ascending(records)
    ensures LastRecord(records, records[i].index) == Some(records[i])
  {
    if i < |records| - 1 {
      LastRecordFinds(records[..|records| - 1], i);
    }
  }

  lemma OmittedAreInactive(s: State, app: Node, first: nat, depth: nat, r: Record)
    requires Sound(s, app) && first <= |s.lines|
    requires r in s.records && NamedBy(Filter(Dropping(depth, s.records), s.lines[first..]), r.index)
    ensures InactiveTab(r.node)
  {
    var run := s.lines[first..];
    var gone := Filter(Dropping(depth, s.records), run);
    var k :| 0 <= k < |gone| && gone[k].Element? && gone[k].index == r.index;
    FilterIs(Dropping(depth, s.records), run, gone[k]);
    assert gone[k] in s.lines;
    var i :| 0 <= i < |s.records| && s.records[i] == r;
    LastRecordFinds(s.records, i);
  }

  lemma {:induction false} KeptNotes(lines: seq<Line>, depth: nat, records: seq<Record>)
    ensures OmittedCount(Filter(Keeping(depth, records), lines)) == OmittedCount(lines)
  {
    if lines != [] {
      KeptNotes(lines[1..], depth, records);
      var first := if Keeping(depth, records)(lines[0]) then [lines[0]] else [];
      OmittedOfConcat(first, Filter(Keeping(depth, records), lines[1..]));
    }
  }

  // A numbered line of the page stays just when it is not named by the omitted ones.
  predicate Stays(line: Line, gone: seq<Line>) { line.Element? && !NamedBy(gone, line.index) }

  function Staying(gone: seq<Line>): Line -> bool { (line: Line) => Stays(line, gone) }

  function Going(gone: seq<Line>): Line -> bool { (line: Line) => !Stays(line, gone) }

  /** The numbered lines that compaction leaves are those of the page that are not named as omitted. */
  lemma CompactElements(s: State, app: Node, first: nat, depth: nat)
    requires Sound(s, app) && first <= |s.lines|
    ensures var run := s.lines[first..];
            var gone, kept := Filter(Dropping(depth, s.records), run), Filter(Keeping(depth, s.records), run);
            && Elements(s.lines[..first]) + Elements(kept) == Filter(Staying(gone), Elements(s.lines))
            && |gone| == |Filter(Going(gone), Elements(s.lines))|
  {
    hide Sound, LastRecord, NamedBy, Filter;
    var head, run := s.lines[..first], s.lines[first..];
    var gone := Filter(Dropping(depth, s.records), run);
    OmittedNamesLines(s, app, first, depth);
    assert head + run == s.lines;
    FilterConcat(IsElement, head, run);
    FilterConcat(Staying(gone), Elements(head), Elements(run));
    FilterConcat(Going(gone), Elements(head), Elements(run));
    ElementsOnly(head);
    ElementsOnly(run);
    FilterAll(Staying(gone), Elements(head));
    FilterNone(Going(gone), Elements(head));
    FilterTwice(IsElement, Keeping(depth, s.records), Staying(gone), run);
    FilterTwice(Staying(gone), IsElement, Staying(gone), run);
    FilterTwice(Going(gone), IsElement, Dropping(depth, s.records), run);
  }

  lemma ElementsOnly(lines: seq<Line>)
    ensures forall line :: line in Elements(lines) ==> line in lines && line.Element?
  {
    forall line | line in Elements(lines) ensures line in lines && line.Element? {
      FilterIs(IsElement, lines, line);
    }
  }

  lemma NoteAddsNoElement(head: seq<Line>, note: Line, kept: seq<Line>)
    requires note.Omitted?
    ensures Elements(head + [note] + kept) == Elements(head) + Elements(kept)
    ensures OmittedCount(head + [note] + kept) == OmittedCount(head) + note.count + OmittedCount(kept)
  {
    FilterConcat(IsElement, head, [note]);
    OmittedOfConcat(head, [note]);
    FilterConcat(IsElement, head + [note], kept);
    OmittedOfConcat(head + [note], kept);
    FilterNone(IsElement, [note]);
    assert OmittedCount([note]) == note.count + OmittedCount([]);
  }

  /** Compaction leaves lines and records matching, and the omission notes paying for what went. */
  lemma CompactMatches(s: State, app: Node, first: nat, depth: nat)
    requires Sound(s, app) && first <= |s.lines|
    ensures var run := s.lines[first..];
            var gone, kept := Filter(Dropping(depth, s.records), run), Filter(Keeping(depth, s.records), run);
            var lines, records := s.lines[..first] + [Omitted(depth, |gone|)] + kept,
                  Filter(NotNamedBy(gone), s.records);
            && Match(lines, records)
            && s.next == |records| + OmittedCount(lines)
            && forall line :: line in lines && line.Element? ==> line in s.lines
  {
    hide Filter, OmittedCount, LastRecord, NamedBy;
    var head, run := s.lines[..first], s.lines[first..];
    assert head + run == s.lines;
    var gone, kept := Filter(Dropping(depth, s.records), run), Filter(Keeping(depth, s.records), run);
    CompactElements(s, app, first, depth);
    NoteAddsNoElement(head, Omitted(depth, |gone|), kept);
    FilterParallel(Staying(gone), NotNamedBy(gone), Elements(s.lines), s.records,
                   (l: Line, r: Record) => l.Element? && l.index == r.index);
    FilterCount(Staying(gone), Going(gone), Elements(s.lines));
    OmittedOfConcat(head, run);
    KeptNotes(run, depth, s.records);
    forall line | line in kept ensures line in s.lines {
      FilterIs(Keeping(depth, s.records), run, line);
    }
  }

  // Dropping records keeps the rest in order.
  lemma {:induction false} FilterAscends(p: Record -> bool, records: seq<Record>)
    requires Ascending(records)
    ensures Ascending(Filter(p, records)) && |Filter(p, records)| <= |records|
  {
    if records != [] {
      var rest := Filter(p, records[1..]);
      FilterAscends(p, records[1..]);
      assert Filter(p, records) == (if p(records[0]) then [records[0]] else []) + rest;
      hide Filter;
      forall i | 0 <= i < |rest| ensures records[0].index < rest[i].index {
        FilterIs(p, records[1..], rest[i]);
        var k :| 0 <= k < |records[1..]| && records[1..][k] == rest[i];
        assert records[1..][k] == records[k + 1];
      }
    }
  }

  lemma CompactKeepsSound(s: State, start: nat, depth: nat, app: Node)
    requires Sound(s, app) && start <= |s.lines|
    ensures Sound(Compact(s, start, depth), app)
  {
    hide Filter, OmittedCount, LastRecord, NamedBy;
    var first := FirstTab(s.lines, start, depth);
    var gone := Filter(Dropping(depth, s.records), s.lines[first..]);
    var s' := Compact(s, start, depth);
    CompactMatches(s, app, first, depth);
    FilterAscends(NotNamedBy(gone), s.records);
    if s' != s {
      forall r | r in s'.records ensures r in s.records {
        FilterIs(NotNamedBy(gone), s.records, r);
      }
      forall r | r in s.geometry ensures r in s'.records || InactiveTab(r.node) {
        FilterIs(NotNamedBy(gone), s.records, r);
        if r in s.records && r !in s'.records {
          OmittedAreInactive(s, app, first, depth, r);
        }
      }
    }
  }

  lemma FlagsKeepSound(s: State, truncated: bool, tooDeep: bool, app: Node)
    requires Sound(s, app)
    ensures Sound(s.(truncated := truncated, tooDeep := tooDeep), app)
  {
  }

  /** The walk keeps everything Sound says, at each of its steps, with or without compaction. */
  lemma {:induction false} WalkKeepsSound(s: State, n: Node, depth: nat, path: seq<nat>, compacting: bool, app: Node)
    requires Sound(s, app) && Numbered(n) && FindByPath(app, path) == Some(n)
    ensures Sound(Walk(s, n, depth, path, compacting), app)
    decreases n, |n.kids| + 1
  {
    hide Sound, Compact;
    if |s.records| >= MAX_NODES || depth > MAX_DEPTH {
      FlagsKeepSound(s, true, s.tooDeep || depth > MAX_DEPTH, app);
    } else if Elided(n) {
      WalkKidsKeepsSound(s, n, 0, depth, path, compacting, app);
    } else {
      var emitted := Emit(s, n, depth, path);
      EmitKeepsSound(s, n, depth, path, app);
      if !Closed(n) {
        WalkKidsKeepsSound(emitted, n, 0, depth + 1, path, compacting, app);
        if compacting {
          CompactKeepsSound(WalkKids(emitted, n, 0, depth + 1, path, compacting), |emitted.lines|, depth + 1, app);
        }
      }
    }
  }

  lemma {:induction false} WalkKidsKeepsSound(s: State, n: Node, i: nat, depth: nat, path: seq<nat>,
                                              compacting: bool, app: Node)
    requires i <= |Kids(n)| && Sound(s, app) && Numbered(n) && FindByPath(app, path) == Some(n)
    ensures Sound(WalkKids(s, n, i, depth, path, compacting), app)
    decreases n, |Kids(n)| - i
  {
    hide Sound;
    if i < |Kids(n)| {
      var kid := Kids(n)[i];
      assert kid == n.kids[i];
      FindKid(app, path, n, kid.slot);
      KidIsAt(n.kids, i);
      WalkKeepsSound(s, kid.node, depth, path + [kid.slot], compacting, app);
      WalkKidsKeepsSound(Walk(s, kid.node, depth, path + [kid.slot], compacting), n, i + 1, depth, path, compacting,
            app);
    }
  }

  /** The rendered tree of a window that the application has at `path`. */
  lemma RenderIsSound(app: Node, window: Node, path: seq<nat>, compacting: bool)
    requires Numbered(window) && FindByPath(app, path) == Some(window)
    ensures Sound(Walk(EMPTY, window, 0, path, compacting), app)
  {
    WalkKeepsSound(EMPTY, window, 0, path, compacting, app);
  }

  // ---------------------------------------------------------------- which nodes are rendered

  datatype Entry = Entry(depth: nat, path: seq<nat>, node: Node)

  /** Everything there is to show below a node, in preorder and with no cap: elided wrappers vanish
      without adding depth, and nothing shows below a summarized or suppressed node. */
  function Visible(n: Node, depth: nat, path: seq<nat>): (es: seq<Entry>)
    decreases n, |n.kids| + 1
  {
    if Elided(n) then VisibleKids(n, 0, depth, path)
    else [Entry(depth, path, n)] + if Closed(n) then [] else VisibleKids(n, 0, depth + 1, path)
  }

  function VisibleKids(parent: Node, i: nat, depth: nat, path: seq<nat>): seq<Entry>
    requires i <= |Kids(parent)|
    decreases parent, |Kids(parent)| - i
  {
    if i == |Kids(parent)| then []
    else
      var kid := Kids(parent)[i];
      Visible(kid.node, depth, path + [kid.slot]) + VisibleKids(parent, i + 1, depth, path)
  }

  // Nothing to tell by itself, and nothing to hold together.
  predicate IsWrapper(n: Node) {
    && n.info.generic && !n.info.hasName && !n.info.hasId && !n.info.hasValue && !n.info.acts && !n.info.plainText
    && (|n.kids| <= 1 || Suppressed(n.info))
  }

  /** A route of child numbers from n down to m, past no node that closes what is below it; `shown` counts the
      nodes above m that are shown themselves. */
  ghost predicate Leads(n: Node, route: seq<nat>, m: Node, shown: nat)
    decreases |route|
  {
    if route == [] then n == m && shown == 0
    else
      && !Closed(n) && (!IsWrapper(n) ==> shown > 0)
      && exists i :: 0 <= i < |n.kids| && n.kids[i].slot == route[0]
                     && Leads(n.kids[i].node, route[1..], m, if IsWrapper(n) then shown else shown - 1)
  }

  // An entry below a node that is reached with this depth and path.
  ghost predicate IsBelow(n: Node, depth: nat, path: seq<nat>, e: Entry) {
    depth <= e.depth && path <= e.path && Leads(n, e.path[|path|..], e.node, e.depth - depth)
  }

  /** What is to be shown: exactly the nodes that are no wrappers and that a route leads to, each as deep as nodes
      are shown above it. */
  lemma {:induction false} VisibleIff(n: Node, depth: nat, path: seq<nat>, e: Entry)
    ensures e in Visible(n, depth, path) <==> !IsWrapper(e.node) && IsBelow(n, depth, path, e)
    decreases n, |n.kids| + 1
  {
    hide Leads, IsBelow;
    BelowIs(n, depth, path, e);
    var deeper := if IsWrapper(n) then depth else depth + 1;
    if !Closed(n) {
      VisibleKidsIff(n, 0, deeper, path, e);
    }
  }

  // Below a node stands the node itself, or, unless it is closed, what stands below a child.
  lemma BelowIs(n: Node, depth: nat, path: seq<nat>, e: Entry)
    ensures IsBelow(n, depth, path, e)
       <==> || (e.node == n && e.depth == depth && e.path == path)
            || (!Closed(n) && exists i :: 0 <= i < |n.kids| && IsBelow(n.kids[i].node,
                                            if IsWrapper(n) then depth else depth + 1, path + [n.kids[i].slot], e))
  {
    hide Closed, IsWrapper;
    var deeper := if IsWrapper(n) then depth else depth + 1;
    forall i | 0 <= i < |n.kids|
      ensures IsBelow(n.kids[i].node, deeper, path + [n.kids[i].slot], e)
         <==> && deeper <= e.depth && path <= e.path && |path| < |e.path| && e.path[|path|] == n.kids[i].slot
              && Leads(n.kids[i].node, e.path[|path|..][1..], e.node, e.depth - deeper)
    {
      if path <= e.path && |path| < |e.path| {
        assert e.path == path + [e.path[|path|]] + e.path[|path| + 1..];
        assert e.path[|path|..][1..] == e.path[|path| + 1..];
      }
      hide Leads;
    }
    if path <= e.path && |path| == |e.path| { assert e.path == path; }
  }

  lemma {:induction false} VisibleKidsIff(n: Node, i: nat, depth: nat, path: seq<nat>, e: Entry)
    requires i <= |Kids(n)|
    ensures e in VisibleKids(n, i, depth, path)
       <==> !IsWrapper(e.node) && exists j :: i <= j < |Kids(n)| &&
                                              IsBelow(Kids(n)[j].node, depth, path + [Kids(n)[j].slot], e)
    decreases n, |Kids(n)| - i
  {
    hide Leads, IsBelow, IsWrapper;
    if i < |Kids(n)| {
      var kid := Kids(n)[i];
      VisibleIff(kid.node, depth, path + [kid.slot], e);
      VisibleKidsIff(n, i + 1, depth, path, e);
      hide Visible;
    }
  }

  function EmitAll(s: State, es: seq<Entry>): State
    decreases |es|
  {
    if es == [] then s else EmitAll(Emit(s, es[0].node, es[0].depth, es[0].path), es[1..])
  }

  lemma {:induction false} EmitAllOfConcat(s: State, a: seq<Entry>, b: seq<Entry>)
    ensures EmitAll(s, a + b) == EmitAll(EmitAll(s, a), b)
    decreases |a|
  {
    if a == [] {
      assert a + b == b;
    } else {
      assert (a + b)[0] == a[0] && (a + b)[1..] == a[1..] + b;
      EmitAllOfConcat(Emit(s, a[0].node, a[0].depth, a[0].path), a[1..], b);
    }
  }

  lemma {:induction false} EmitAllCounts(s: State, es: seq<Entry>)
    ensures |EmitAll(s, es).records| == |s.records| + |es|
    ensures EmitAll(s, es).next == s.next + |es|
    decreases |es|
  {
    if es != [] {
      EmitAllCounts(Emit(s, es[0].node, es[0].depth, es[0].path), es[1..]);
    }
  }

  // Numbers and map entries do not depend on what compaction did to the records and the lines.
  predicate SameMap(s: State, t: State) { s.geometry == t.geometry && s.next == t.next }

  lemma {:induction false} EmitAllMap(s: State, t: State, es: seq<Entry>)
    requires SameMap(s, t)
    ensures SameMap(EmitAll(s, es), EmitAll(t, es))
    decreases |es|
  {
    if es != [] {
      EmitAllMap(Emit(s, es[0].node, es[0].depth, es[0].path), Emit(t, es[0].node, es[0].depth, es[0].path), es[1..]);
    }
  }

  /** A walk that does not end up truncated has numbered every visible node, in preorder; with Sound,
      whatever it no longer shows is an inactive tab. */
  lemma {:induction false} UntruncatedNumbersAll(s: State, n: Node, depth: nat, path: seq<nat>, compacting: bool)
    requires !Walk(s, n, depth, path, compacting).truncated
    ensures !s.truncated
    ensures SameMap(Walk(s, n, depth, path, compacting), EmitAll(s, Visible(n, depth, path)))
    decreases n, |n.kids| + 1
  {
    if Elided(n) {
      UntruncatedKids(s, n, 0, depth, path, compacting);
    } else {
      var emitted := Emit(s, n, depth, path);
      var below := if Closed(n) then [] else VisibleKids(n, 0, depth + 1, path);
      EmitAllOfConcat(s, [Entry(depth, path, n)], below);
      assert EmitAll(s, [Entry(depth, path, n)]) == emitted;
      if !Closed(n) {
        UntruncatedKids(emitted, n, 0, depth + 1, path, compacting);
      }
    }
  }

  lemma {:induction false} UntruncatedKids(s: State, n: Node, i: nat, depth: nat, path: seq<nat>, compacting: bool)
    requires i <= |Kids(n)|
    requires !WalkKids(s, n, i, depth, path, compacting).truncated
    ensures !s.truncated
    ensures SameMap(WalkKids(s, n, i, depth, path, compacting), EmitAll(s, VisibleKids(n, i, depth, path)))
    decreases n, |Kids(n)| - i
  {
    if i < |Kids(n)| {
      var kid := Kids(n)[i];
      var kidPath := path + [kid.slot];
      var walked := Walk(s, kid.node, depth, kidPath, compacting);
      var first, rest := Visible(kid.node, depth, kidPath), VisibleKids(n, i + 1, depth, path);
      UntruncatedKids(walked, n, i + 1, depth, path, compacting);
      UntruncatedNumbersAll(s, kid.node, depth, kidPath, compacting);
      EmitAllOfConcat(s, first, rest);
      EmitAllMap(walked, EmitAll(s, first), rest);
    }
  }

  predicate Shallow(e: Entry) { e.depth <= MAX_DEPTH }

  function Room(s: State): nat { if |s.records| >= MAX_NODES then 0 else MAX_NODES - |s.records| }

  // The same records, lines, numbers and map, whatever the flags.
  predicate SameTree(s: State, t: State) {
    s.records == t.records && s.lines == t.lines && SameMap(s, t)
  }

  lemma {:induction false} TooDeep(n: Node, depth: nat, path: seq<nat>)
    requires depth > MAX_DEPTH
    ensures Filter(Shallow, Visible(n, depth, path)) == []
    decreases n, |n.kids| + 1
  {
    if Elided(n) {
      TooDeepKids(n, 0, depth, path);
    } else if !Closed(n) {
      TooDeepKids(n, 0, depth + 1, path);
      FilterConcat(Shallow, [Entry(depth, path, n)], VisibleKids(n, 0, depth + 1, path));
    }
  }

  lemma {:induction false} TooDeepKids(n: Node, i: nat, depth: nat, path: seq<nat>)
    requires i <= |Kids(n)| && depth > MAX_DEPTH
    ensures Filter(Shallow, VisibleKids(n, i, depth, path)) == []
    decreases n, |Kids(n)| - i
  {
    if i < |Kids(n)| {
      var kid := Kids(n)[i];
      TooDeep(kid.node, depth, path + [kid.slot]);
      TooDeepKids(n, i + 1, depth, path);
      FilterConcat(Shallow, Visible(kid.node, depth, path + [kid.slot]), VisibleKids(n, i + 1, depth, path));
    }
  }

  lemma {:induction false} EmitAllSame(s: State, t: State, es: seq<Entry>)
    requires SameTree(s, t)
    ensures SameTree(EmitAll(s, es), EmitAll(t, es))
    decreases |es|
  {
    if es != [] {
      EmitAllSame(Emit(s, es[0].node, es[0].depth, es[0].path), Emit(t, es[0].node, es[0].depth, es[0].path), es[1..]);
    }
  }

  // Taking a run in two goes, the second with the room the first one left.
  lemma TakeOfConcat(s: State, a: seq<Entry>, b: seq<Entry>)
    requires |s.records| <= MAX_NODES
    ensures var first := EmitAll(s, Take(a, Room(s)));
            && |first.records| <= MAX_NODES
            && EmitAll(s, Take(a + b, Room(s))) == EmitAll(first, Take(b, Room(first)))
  {
    var taken := Take(a, Room(s));
    EmitAllCounts(s, taken);
    var rest := Take(b, Room(EmitAll(s, taken)));
    assert Take(a + b, Room(s)) == taken + rest;
    EmitAllOfConcat(s, taken, rest);
  }

  /** Without compaction the walk renders exactly the first visible nodes of an allowed depth that fit. */
  lemma {:induction false} UncompactedIsCappedPreorder(s: State, n: Node, depth: nat, path: seq<nat>)
    requires |s.records| <= MAX_NODES
    ensures SameTree(Walk(s, n, depth, path, false),
              EmitAll(s, Take(Filter(Shallow, Visible(n, depth, path)), Room(s))))
    decreases n, |n.kids| + 1
  {
    if |s.records| >= MAX_NODES {
      assert Take(Filter(Shallow, Visible(n, depth, path)), 0) == [];
    } else if depth > MAX_DEPTH {
      TooDeep(n, depth, path);
    } else if Elided(n) {
      UncompactedKids(s, n, 0, depth, path);
    } else {
      hide EmitAll, Filter, Take, VisibleKids, WalkKids;
      EmitsItselfFirst(s, n, depth, path);
      if !Closed(n) {
        UncompactedKids(Emit(s, n, depth, path), n, 0, depth + 1, path);
      }
    }
  }

  lemma EmitsItselfFirst(s: State, n: Node, depth: nat, path: seq<nat>)
    requires |s.records| < MAX_NODES && depth <= MAX_DEPTH && !Elided(n)
    ensures var emitted, capped := Emit(s, n, depth, path), Take(Filter(Shallow, Visible(n, depth, path)), Room(s));
            EmitAll(s, capped)
            == if Closed(n) then emitted
               else EmitAll(emitted, Take(Filter(Shallow, VisibleKids(n, 0, depth + 1, path)), Room(emitted)))
  {
    var self := [Entry(depth, path, n)];
    var below := if Closed(n) then [] else VisibleKids(n, 0, depth + 1, path);
    assert Visible(n, depth, path) == self + below;
    hide VisibleKids, Visible;
    FilterConcat(Shallow, self, below);
    assert Filter(Shallow, self) == self;
    TakeOfConcat(s, self, Filter(Shallow, below));
    assert Take(self, Room(s)) == self && EmitAll(s, self) == Emit(s, n, depth, path);
    assert Take(Filter(Shallow, []), Room(Emit(s, n, depth, path))) == [];
  }

  lemma {:induction false} UncompactedKids(s: State, n: Node, i: nat, depth: nat, path: seq<nat>)
    requires i <= |Kids(n)| && |s.records| <= MAX_NODES
    ensures SameTree(WalkKids(s, n, i, depth, path, false),
              EmitAll(s, Take(Filter(Shallow, VisibleKids(n, i, depth, path)), Room(s))))
    decreases n, |Kids(n)| - i
  {
    if i == |Kids(n)| {
      assert Take(Filter(Shallow, []), Room(s)) == [];
    } else {
      var kid := Kids(n)[i];
      var first, rest := Visible(kid.node, depth, path + [kid.slot]), VisibleKids(n, i + 1, depth, path);
      var walked := Walk(s, kid.node, depth, path + [kid.slot], false);
      var shown := EmitAll(s, Take(Filter(Shallow, first), Room(s)));
      UncompactedIsCappedPreorder(s, kid.node, depth, path + [kid.slot]);
      FilterConcat(Shallow, first, rest);
      TakeOfConcat(s, Filter(Shallow, first), Filter(Shallow, rest));
      UncompactedKids(walked, n, i + 1, depth, path);
      EmitAllSame(walked, shown, Take(Filter(Shallow, rest), Room(shown)));
    }
  }

  // ---------------------------------------------------------------- what compaction looks like

  /** The places from start on at which a tab of the depth stands. */
  ghost function TabPlaces(s: State, start: nat, depth: nat): set<nat> {
    set p: nat | start <= p < |s.lines| && s.lines[p].Element? && s.lines[p].depth == depth && s.lines[p].tab
  }

  /** A place whose line is marked as selected, or belongs to an active node. */
  ghost predicate ActivePlace(s: State, p: nat) {
    && p < |s.lines| && s.lines[p].Element?
    && (s.lines[p].marked || exists r :: r in s.records && r.index == s.lines[p].index && r.node.info.active)
  }

  ghost function InactivePlaces(s: State, start: nat, depth: nat): set<nat> {
    set p | p in TabPlaces(s, start, depth) && !ActivePlace(s, p)
  }

  ghost predicate Rising(places: seq<nat>) { forall i, j :: 0 <= i < j < |places| ==> places[i] < places[j] }

  /** The page after folding at `first`: unchanged before it; there a note with the number of inactive tabs; from
      there on every line but those, in order.  The records lost are those of these tabs, and nothing else is. */
  ghost predicate Folded(s: State, s': State, first: nat, depth: nat, gone: set<nat>, kept: seq<nat>) {
    && first < |s.lines| && Rising(kept)
    && (forall p: nat :: p in kept <==> first <= p < |s.lines| && p !in gone)
    && |s'.lines| == first + 1 + |kept|
    && s'.lines[..first] == s.lines[..first]
    && s'.lines[first] == Omitted(depth, |gone|)
    && (forall i :: 0 <= i < |kept| && kept[i] < |s.lines| ==> s'.lines[first + 1 + i] == s.lines[kept[i]])
    && (forall r :: r in s'.records
          <==> r in s.records
               && forall p :: p in gone && p < |s.lines| && s.lines[p].Element? ==> s.lines[p].index != r.index)
    && Ascending(s'.records)
    && s' == s.(records := s'.records, lines := s'.lines)
  }

  /** Tabs are folded exactly when ten or more stand there, some active and some not; the note takes the place of
      the first.  In every other case nothing changes. */
  lemma CompactFoldsLongRuns(s: State, app: Node, start: nat, depth: nat)
    requires Sound(s, app) && start <= |s.lines|
    ensures var tabs, gone := TabPlaces(s, start, depth), InactivePlaces(s, start, depth);
            if |tabs| >= 10 && gone != {} && gone != tabs then
              exists first, kept :: && first in tabs && (forall p :: p in tabs ==> first <= p)
                                    && Folded(s, Compact(s, start, depth), first, depth, gone, kept)
            else Compact(s, start, depth) == s
  {
    hide Sound, Filter, LastRecord, NamedBy, Folded;
    var first := FirstTab(s.lines, start, depth);
    var run := s.lines[first..];
    var tabs, gone := TabPlaces(s, start, depth), InactivePlaces(s, start, depth);
    SoundAscends(s, app);
    forall p | p in tabs ensures ActivePlace(s, p) <==> IsActive(s.lines[p], s.records) {
      ActiveByRecord(s, s.lines[p]);
    }
    assert forall p: nat :: p in tabs <==> first <= p < |s.lines| && IsTab(s.lines[p], depth);
    assert forall p: nat :: p in gone <==> first <= p < |s.lines| && Drops(s.lines[p], depth, s.records);
    PlacesOf(Tabs(depth), s.lines, first, tabs);
    PlacesOf(Dropping(depth, s.records), s.lines, first, gone);
    assert gone <= tabs;
    if |gone| == |tabs| { SameSize(gone, tabs); }
    if |tabs| >= 10 && gone != {} && gone != tabs {
      var kept := FoldedIs(s, app, start, depth, first, gone);
      assert first in tabs;
    }
  }

  lemma SoundAscends(s: State, app: Node)
    requires Sound(s, app)
    ensures Ascending(s.records)
  {
  }

  lemma SameSize(a: set<nat>, b: set<nat>)
    requires a <= b && |a| == |b|
    ensures a == b
  {
    assert b == a + (b - a);
  }

  lemma ActiveByRecord(s: State, line: Line)
    requires Ascending(s.records) && line.Element?
    ensures IsActive(line, s.records)
       <==> line.marked || exists r :: r in s.records && r.index == line.index && r.node.info.active
  {
    hide LastRecord;
    LastRecordIs(s.records, line.index);
    forall r | r in s.records && r.index == line.index ensures LastRecord(s.records, line.index) == Some(r) {
      var i :| 0 <= i < |s.records| && s.records[i] == r;
      LastRecordFinds(s.records, i);
    }
  }

  lemma {:induction false} LastRecordIs(records: seq<Record>, index: nat)
    ensures var r := LastRecord(records, index); r.Some? ==> r.value in records && r.value.index == index
  {
    if records != [] {
      LastRecordIs(records[..|records| - 1], index);
    }
  }

  // Filtering from a place on leaves as many lines as there are places that pass.
  lemma PlacesOf(p: Line -> bool, lines: seq<Line>, first: nat, places: set<nat>)
    requires first <= |lines| && forall k: nat :: k in places <==> first <= k < |lines| && p(lines[k])
    ensures |Filter(p, lines[first..])| == |places|
  {
    hide Filter;
    var kept := FilterPlaces(p, lines, first);
    CountRising(kept, places);
  }

  lemma {:induction false} FilterPlaces(p: Line -> bool, lines: seq<Line>, first: nat) returns (kept: seq<nat>)
    requires first <= |lines|
    ensures Rising(kept) && |kept| == |Filter(p, lines[first..])|
    ensures forall k: nat :: k in kept <==> first <= k < |lines| && p(lines[k])
    ensures forall i :: 0 <= i < |kept| ==> first <= kept[i] < |lines| && Filter(p, lines[first..])[i] == lines[kept[i]]
    decreases |lines| - first
  {
    if first == |lines| {
      FilterNone(p, lines[first..]);
      return [];
    }
    FilterStep(p, lines, first);
    hide Filter;
    var rest := FilterPlaces(p, lines, first + 1);
    if p(lines[first]) {
      kept := [first] + rest;
      assert forall k: nat :: k in kept <==> k == first || k in rest;
    } else {
      kept := rest;
      assert [] + Filter(p, lines[first + 1..]) == Filter(p, lines[first + 1..]);
    }
  }

  lemma {:induction false} CountRising(places: seq<nat>, all: set<nat>)
    requires Rising(places) && forall k: nat :: k in all <==> k in places
    ensures |all| == |places|
  {
    if places != [] {
      var before, last := places[..|places| - 1], places[|places| - 1];
      assert places == before + [last];
      assert last !in before;
      CountRising(before, all - {last});
      assert all == (all - {last}) + {last};
    } else {
      assert all == {};
    }
  }

  lemma FoldedIs(s: State, app: Node, start: nat, depth: nat, first: nat, gone: set<nat>) returns (kept: seq<nat>)
    requires Sound(s, app) && start <= first < |s.lines| && first == FirstTab(s.lines, start, depth)
    requires forall p: nat :: p in gone <==> first <= p < |s.lines| && Drops(s.lines[p], depth, s.records)
    requires Compact(s, start, depth) != s
    requires |gone| == |Filter(Dropping(depth, s.records), s.lines[first..])|
    ensures Folded(s, Compact(s, start, depth), first, depth, gone, kept)
  {
    hide Sound, Filter, LastRecord, NamedBy, IsActive, IsTab;
    var s', run := Compact(s, start, depth), s.lines[first..];
    var dropped := Filter(Dropping(depth, s.records), run);
    kept := FilterPlaces(Keeping(depth, s.records), s.lines, first);
    SoundAscends(s, app);
    FilterAscends(NotNamedBy(dropped), s.records);
    OmittedNamesLines(s, app, first, depth);
    forall r ensures r in s'.records
      <==> r in s.records
           && forall p :: p in gone && p < |s.lines| && s.lines[p].Element? ==> s.lines[p].index != r.index
    {
      FilterIs(NotNamedBy(dropped), s.records, r);
      NamedByPlace(s, first, depth, gone, r.index);
    }
  }

  lemma NamedByPlace(s: State, first: nat, depth: nat, gone: set<nat>, id: nat)
    requires first <= |s.lines|
    requires forall p: nat :: p in gone <==> first <= p < |s.lines| && Drops(s.lines[p], depth, s.records)
    ensures NamedBy(Filter(Dropping(depth, s.records), s.lines[first..]), id)
       <==> exists p :: p in gone && p < |s.lines| && s.lines[p].Element? && s.lines[p].index == id
  {
    hide Filter, LastRecord;
    var run, drops := s.lines[first..], Dropping(depth, s.records);
    var dropped := Filter(drops, run);
    if i :| 0 <= i < |dropped| && dropped[i].Element? && dropped[i].index == id {
      FilterIs(drops, run, dropped[i]);
      var k :| 0 <= k < |run| && run[k] == dropped[i];
      assert s.lines[first + k] == dropped[i] && first + k in gone;
    }
    if p :| p in gone && p < |s.lines| && s.lines[p].Element? && s.lines[p].index == id {
      assert run[p - first] == s.lines[p];
      FilterIs(drops, run, s.lines[p]);
      var i :| 0 <= i < |dropped| && dropped[i] == s.lines[p];
    }
  }

  // ---------------------------------------------------------------- the renderer itself

  // The tab lines of a page between two positions, by position.
  ghost predicate TabPositions(tabs: seq<nat>, lines: seq<Line>, start: nat, end: nat, depth: nat) {
    && (forall k :: 0 <= k < |tabs| ==> start <= tabs[k] < end <= |lines| && IsTab(lines[tabs[k]], depth))
    && (forall j, k :: 0 <= j < k < |tabs| ==> tabs[j] < tabs[k])
    && (forall i :: start <= i < end <= |lines| && IsTab(lines[i], depth) ==> i in tabs)
  }

  lemma PositionsStep(tabs: seq<nat>, lines: seq<Line>, start: nat, i: nat, depth: nat)
    requires start <= i < |lines| && TabPositions(tabs, lines, start, i, depth)
    ensures TabPositions(if IsTab(lines[i], depth) then tabs + [i] else tabs, lines, start, i + 1, depth)
  {
    hide IsTab;
    var more := if IsTab(lines[i], depth) then tabs + [i] else tabs;
    assert forall k :: 0 <= k < |tabs| ==> more[k] == tabs[k];
    forall p | start <= p < i + 1 && IsTab(lines[p], depth) ensures p in more {
      if p == i {
        assert more[|tabs|] == i;
      } else {
        assert p in tabs;
      }
    }
  }

  lemma TabPositionsAdjacent(tabs: seq<nat>, lines: seq<Line>, start: nat, depth: nat, j: nat)
    requires TabPositions(tabs, lines, start, |lines|, depth) && j < |tabs|
    ensures forall i :: tabs[j] < i < (if j + 1 < |tabs| then tabs[j + 1] else |lines|) ==> !IsTab(lines[i], depth)
  {
    forall i | tabs[j] < i < (if j + 1 < |tabs| then tabs[j + 1] else |lines|) ensures !IsTab(lines[i], depth) {
      forall k | 0 <= k < |tabs| ensures tabs[k] != i {
        if k < j { assert tabs[k] < tabs[j]; }
        if k > j + 1 { assert tabs[j + 1] < tabs[k]; }
      }
      assert i !in tabs;
    }
  }

  // Between one tab and the next nothing is dropped.
  lemma DropStep(lines: seq<Line>, at: nat, end: nat, depth: nat, records: seq<Record>)
    requires at < end <= |lines| && IsTab(lines[at], depth)
    requires forall i :: at < i < end ==> !IsTab(lines[i], depth)
    ensures var keep, drop := Keeping(depth, records), Dropping(depth, records);
            var drops := Drops(lines[at], depth, records);
            && Filter(keep, lines[at..])
               == (if drops then [] else [lines[at]]) + (lines[at + 1..end] + Filter(keep, lines[end..]))
            && Filter(drop, lines[at..]) == (if drops then [lines[at]] else []) + Filter(drop, lines[end..])
  {
    var between := lines[at + 1..end];
    assert lines[at..][0] == lines[at] && lines[at..][1..] == between + lines[end..];
    FilterConcat(Keeping(depth, records), between, lines[end..]);
    FilterConcat(Dropping(depth, records), between, lines[end..]);
    FilterAll(Keeping(depth, records), between);
    FilterNone(Dropping(depth, records), between);
  }

  lemma TabsStep(lines: seq<Line>, start: nat, i: nat, depth: nat)
    requires start <= i < |lines|
    ensures |Filter(Tabs(depth), lines[start..i + 1])|
         == |Filter(Tabs(depth), lines[start..i])| + if IsTab(lines[i], depth) then 1 else 0
  {
    assert lines[start..i + 1] == lines[start..i] + [lines[i]];
    FilterConcat(Tabs(depth), lines[start..i], [lines[i]]);
    assert Filter(Tabs(depth), [lines[i]]) ==
             (if IsTab(lines[i], depth) then [lines[i]] else []) + Filter(Tabs(depth), []);
  }

  lemma TabsFromFirst(lines: seq<Line>, start: nat, depth: nat, tabs: seq<nat>)
    requires start <= |lines| && TabPositions(tabs, lines, start, |lines|, depth)
    requires |tabs| == |Filter(Tabs(depth), lines[start..])|
    ensures var first := FirstTab(lines, start, depth);
            && |tabs| == |Filter(Tabs(depth), lines[first..])|
            && (|tabs| > 0 ==> tabs[0] == first)
  {
    var first := FirstTab(lines, start, depth);
    assert lines[start..first] + lines[first..] == lines[start..];
    FilterConcat(Tabs(depth), lines[start..first], lines[first..]);
    FilterNone(Tabs(depth), lines[start..first]);
    if first < |lines| { assert first in tabs; }
  }

  // The run has an active tab just when not every tab of it is dropped.
  lemma {:induction false} AllDropped(run: seq<Line>, depth: nat, records: seq<Record>)
    ensures var tabs, gone := |Filter(Tabs(depth), run)|, |Filter(Dropping(depth, records), run)|;
            gone <= tabs && (gone == tabs <==> forall l :: l in run && IsTab(l, depth) ==> !IsActive(l, records))
  {
    if run != [] {
      AllDropped(run[1..], depth, records);
      assert forall l :: l in run <==> l == run[0] || l in run[1..];
    }
  }

  lemma ActiveInRun(lines: seq<Line>, start: nat, depth: nat, tabs: seq<nat>, active: set<nat>, records: seq<Record>)
    requires TabPositions(tabs, lines, start, |lines|, depth) && tabs != []
    requires forall p :: p in active <==> p in tabs && IsActive(lines[p], records)
    ensures var run := lines[tabs[0]..];
            active == {} <==> |Filter(Dropping(depth, records), run)| == |Filter(Tabs(depth), run)|
  {
    hide Filter, LastRecord;
    var run := lines[tabs[0]..];
    AllDropped(run, depth, records);
    forall l | l in run && IsTab(l, depth) ensures exists p :: p in tabs && lines[p] == l {
      var i :| 0 <= i < |run| && run[i] == l;
      assert lines[tabs[0] + i] == l;
    }
    if p :| p in active {
      assert run[p - tabs[0]] == lines[p];
    }
  }

  lemma NothingDropped(run: seq<Line>, depth: nat, records: seq<Record>)
    requires Filter(Dropping(depth, records), run) == []
    ensures Filter(Keeping(depth, records), run) == run
  {
    forall l | l in run ensures Keeping(depth, records)(l) {
      FilterIs(Dropping(depth, records), run, l);
    }
    FilterAll(Keeping(depth, records), run);
  }

  lemma DeleteAt(lines: seq<Line>, at: nat, end: nat, tail: seq<Line>)
    requires at < end <= |lines|
    ensures var now := lines[..end] + tail;
            && now[at] == lines[at]
            && now == lines[..at] + ([lines[at]] + (lines[at + 1..end] + tail))
            && now[..at] + now[at + 1..] == lines[..at] + (lines[at + 1..end] + tail)
  {
  }

  // One step of the deletion, from the last tab up.
  lemma DeleteStep(lines: seq<Line>, at: nat, end: nat, depth: nat, records: seq<Record>)
    requires at < end <= |lines| && IsTab(lines[at], depth)
    requires forall i :: at < i < end ==> !IsTab(lines[i], depth)
    ensures var keep, drop := Keeping(depth, records), Dropping(depth, records);
            var now, drops := lines[..end] + Filter(keep, lines[end..]), !IsActive(lines[at], records);
            && now[at] == lines[at]
            && (if drops then now[..at] + now[at + 1..] else now) == lines[..at] + Filter(keep, lines[at..])
            && Filter(drop, lines[at..]) == (if drops then [lines[at]] else []) + Filter(drop, lines[end..])
  {
    DropStep(lines, at, end, depth, records);
    hide Filter, LastRecord, IsActive;
    DeleteAt(lines, at, end, Filter(Keeping(depth, records), lines[end..]));
  }

  lemma NamedByNone()
    ensures forall id :: !NamedBy([], id)
  {
  }

  lemma StaysIs(gone: seq<Line>)
    ensures forall r :: NotNamedBy(gone)(r) <==> !NamedBy(gone, r.index)
  {
  }

  class Renderer {
    var records: seq<Record>
    var lines: seq<Line>
    var nextIndex: nat
    var geometry: seq<Record>
    var truncated: bool
    var maxDepthReached: bool
    const compactBrowserTabs: bool

    constructor (compactBrowserTabs: bool)
      ensures Snapshot() == EMPTY && this.compactBrowserTabs == compactBrowserTabs
    {
      this.compactBrowserTabs := compactBrowserTabs;
      records, lines, nextIndex, geometry, truncated, maxDepthReached := [], [], 0, [], false, false;
    }

    function Snapshot(): State
      reads this
    {
      State(records, lines, nextIndex, geometry, truncated, maxDepthReached)
    }

    method WalkNode(n: Node, depth: nat, path: seq<nat>)
      modifies this
      ensures Snapshot() == Walk(old(Snapshot()), n, depth, path, compactBrowserTabs)
      decreases n, |n.kids| + 1
    {
      if |records| >= MAX_NODES || depth > MAX_DEPTH {
        truncated := true;
        if depth > MAX_DEPTH {
          maxDepthReached := true;
        }
        return;
      }
      if Elided(n) {
        WalkChildren(n, depth, path);
        return;
      }
      var item := Record(nextIndex, path, n);
      records := records + [item];
      nextIndex := nextIndex + 1;
      geometry := geometry + [item];
      lines := lines + [LineOf(n, item.index, depth)];
      if Closed(n) {
        return;
      }
      var childLineStart := |lines|;
      WalkChildren(n, depth + 1, path);
      if compactBrowserTabs {
        CompactTabs(childLineStart, depth + 1);
      }
    }

    method WalkChildren(n: Node, depth: nat, path: seq<nat>)
      modifies this
      ensures Snapshot() == WalkKids(old(Snapshot()), n, 0, depth, path, compactBrowserTabs)
      decreases n, |n.kids|
    {
      var kids := Kids(n);
      for i := 0 to |kids|
        invariant WalkKids(Snapshot(), n, i, depth, path, compactBrowserTabs)
               == WalkKids(old(Snapshot()), n, 0, depth, path, compactBrowserTabs)
      {
        WalkNode(kids[i].node, depth, path + [kids[i].slot]);
      }
    }

    method TabLines(startLine: nat, depth: nat) returns (tabs: seq<nat>)
      requires startLine <= |lines|
      ensures TabPositions(tabs, lines, startLine, |lines|, depth)
      ensures var first := FirstTab(lines, startLine, depth);
              && |tabs| == |Filter(Tabs(depth), lines[first..])|
              && (|tabs| > 0 ==> tabs[0] == first)
    {
      hide FirstTab, Filter, IsTab;
      tabs := [];
      assert lines[startLine..startLine] == [] && |Filter(Tabs(depth), [])| == 0 by { FilterNone(Tabs(depth), []); }
      assert TabPositions(tabs, lines, startLine, startLine, depth);
      hide TabPositions;
      for i := startLine to |lines|
        invariant TabPositions(tabs, lines, startLine, i, depth)
        invariant |tabs| == |Filter(Tabs(depth), lines[startLine..i])|
      {
        TabsStep(lines, startLine, i, depth);
        PositionsStep(tabs, lines, startLine, i, depth);
        if IsTab(lines[i], depth) {
          tabs := tabs + [i];
        }
      }
      assert lines[startLine..|lines|] == lines[startLine..];
      TabsFromFirst(lines, startLine, depth, tabs);
    }

    method RecordsByIndex() returns (m: map<nat, Record>)
      ensures forall id :: if id in m then LastRecord(records, id) == Some(m[id]) else LastRecord(records, id).None?
    {
      m := map[];
      for i := 0 to |records|
        invariant forall id :: LastRecord(records[..i], id) == if id in m then Some(m[id]) else None
      {
        assert records[..i + 1][..i] == records[..i];
        m := m[records[i].index := records[i]];
      }
      assert records[..|records|] == records;
    }

    method ActiveLines(tabs: seq<nat>, startLine: nat, depth: nat) returns (active: set<nat>)
      requires TabPositions(tabs, lines, startLine, |lines|, depth)
      ensures forall p :: p in active <==> p in tabs && IsActive(lines[p], records)
    {
      var byIndex := RecordsByIndex();
      active := {};
      for j := 0 to |tabs|
        invariant forall p :: p in active <==> p in tabs[..j] && IsActive(lines[p], records)
      {
        var line := lines[tabs[j]];
        if line.marked || (line.index in byIndex && byIndex[line.index].node.info.active) {
          active := active + {tabs[j]};
        }
        assert tabs[..j + 1] == tabs[..j] + [tabs[j]];
      }
      assert tabs[..|tabs|] == tabs;
    }

    /** The compaction in place. */
    method CompactTabs(startLine: nat, depth: nat)
      requires startLine <= |lines|
      modifies this
      ensures Snapshot() == Compact(old(Snapshot()), startLine, depth)
    {
      hide Filter, FirstTab;
      var tabs := TabLines(startLine, depth);
      if |tabs| < TAB_RUN {
        return;
      }
      var active := ActiveLines(tabs, startLine, depth);
      ActiveInRun(lines, startLine, depth, tabs, active, records);
      if active == {} {
        return;
      }
      ghost var run := lines[tabs[0]..];
      ghost var gone := Filter(Dropping(depth, records), run);
      var omitted, omittedCount := DeleteInactive(tabs, active, startLine, depth);
      if omittedCount <= 0 {
        NothingDropped(run, depth, records);
        return;
      }
      FilterRecords(omitted, gone);
      lines := lines[..tabs[0]] + [Omitted(depth, omittedCount)] + lines[tabs[0]..];
    }

    /** Tabs are deleted from the last to the first, so that the positions still to be visited stay right. */
    method DeleteInactive(tabs: seq<nat>, active: set<nat>, ghost startLine: nat, ghost depth: nat)
        returns (omitted: set<nat>, omittedCount: nat)
      requires TabPositions(tabs, lines, startLine, |lines|, depth) && tabs != []
      requires forall p :: p in active <==> p in tabs && IsActive(lines[p], records)
      modifies this`lines
      ensures lines == old(lines)[..tabs[0]] + Filter(Keeping(depth, records), old(lines)[tabs[0]..])
      ensures var gone := Filter(Dropping(depth, records), old(lines)[tabs[0]..]);
              omittedCount == |gone| && forall id :: id in omitted <==> NamedBy(gone, id)
    {
      hide Filter, LastRecord, IsActive, NamedBy, Keeping, Dropping;
      ghost var before, end := lines, |lines|;
      NamedByNone();
      ghost var gone: seq<Line> := [];
      FilterNone(Dropping(depth, records), lines[end..]);
      FilterAll(Keeping(depth, records), lines[end..]);
      assert before[end..] == [];
      omitted, omittedCount := {}, 0;
      var j := |tabs|;
      while j > 0
        invariant 0 <= j <= |tabs| && end == (if j < |tabs| then tabs[j] else |before|)
        invariant lines == before[..end] + Filter(Keeping(depth, records), before[end..])
        invariant gone == Filter(Dropping(depth, records), before[end..])
        invariant omittedCount == |gone| && forall id :: id in omitted <==> NamedBy(gone, id)
      {
        j := j - 1;
        var at := tabs[j];
        TabPositionsAdjacent(tabs, before, startLine, depth, j);
        DeleteStep(before, at, end, depth, records);
        if at !in active {
          NamedByCons(lines[at], gone);
          gone := [lines[at]] + gone;
          omitted := omitted + {lines[at].index};
          lines := lines[..at] + lines[at + 1..];
          omittedCount := omittedCount + 1;
        }
        end := at;
      }
    }

    method FilterRecords(omitted: set<nat>, ghost gone: seq<Line>)
      requires forall id :: id in omitted <==> NamedBy(gone, id)
      modifies this`records
      ensures records == Filter(NotNamedBy(gone), old(records))
    {
      hide NamedBy, Filter, NotNamedBy;
      ghost var stays := NotNamedBy(gone);
      assert forall r :: stays(r) <==> r.index !in omitted by { StaysIs(gone); }
      var kept: seq<Record> := [];
      assert records[0..] == records;
      for k := 0 to |records|
        invariant records == old(records)
        invariant kept + Filter(stays, records[k..]) == Filter(stays, records)
      {
        FilterStep(stays, records, k);
        ghost var rest := Filter(stays, records[k + 1..]);
        if records[k].index !in omitted {
          assert kept + ([records[k]] + rest) == (kept + [records[k]]) + rest;
          kept := kept + [records[k]];
        } else {
          assert [] + rest == rest;
        }
      }
      FilterNone(stays, records[|records|..]);
      assert kept + [] == kept;
      records := kept;
    }
  }

  lemma NamedByCons(line: Line, gone: seq<Line>)
    requires line.Element?
    ensures forall id :: NamedBy([line] + gone, id) <==> id == line.index || NamedBy(gone, id)
  {
    forall id ensures NamedBy([line] + gone, id) <==> id == line.index || NamedBy(gone, id) {
      if id == line.index { assert ([line] + gone)[0].index == id; }
      if i :| 0 <= i < |gone| && gone[i].Element? && gone[i].index == id { assert ([line] + gone)[i + 1] == gone[i]; }
    }
  }
}

/**
 Replacing the selection of a focused text node by insert-then-delete
 (native/computer-use-linux/runtime.py).  The accessibility provider is outside: any read of it may
 fail, and each write leaves whatever it leaves.  What can be promised depends only on whether the
 provider's writes are honest, that is, either exact or without effect on the text.
 */
module FocusedText {
  import opened Common

  datatype Selection = Selection(start: int, end: int)
  datatype Field = Field(text: string, caret: int, selections: seq<Selection>)

  datatype Read =
    | Caret | SelectionCount | FirstSelection | Count | Original
    | CountAfterInsert | Inserted | CountAfterDelete | Replaced | CaretAfter | CaretMoved | Final

  /** A write: what it reports (a failed call reports false) and what it leaves behind. */
  datatype Write = Write(reports: bool, after: Field)

  /** One run of the provider: which of the node's interfaces exist, which reads succeed, and the writes. */
  datatype World = World(ready: bool, answers: Read -> bool, insert: Write, delete: Write, move: Write)

  datatype Outcome = NoAction | Inserted(verified: bool) | Unconfirmed | Incomplete | CaretUnconfirmed

  /** What text_selection answers: the caret, or the one selection, with the length of the text. */
  function Target(f: Field, w: World): (r: Option<(nat, nat)>)
    ensures r.Some? ==> r.value.0 <= r.value.1 <= |f.text|
  {
    var caret := if w.answers(Caret) then f.caret else -1;
    if !w.answers(SelectionCount) || |f.selections| > 1 then None
    else if |f.selections| == 1 && (!w.answers(FirstSelection)
                                    || !(0 <= f.selections[0].start < f.selections[0].end)) then None
    else
      var (start, end) := if |f.selections| == 1 then (f.selections[0].start, f.selections[0].end) else (caret, caret);
      if start < 0 || !w.answers(Count) || end > |f.text| then None else Some((start, end))
  }

  /** Exactly when these are answered as the place to write to: the one selection, from its start to its end, or the
      caret where there is none; inside the text either way. */
  lemma TargetIs(f: Field, w: World, start: nat, end: nat)
    ensures Target(f, w) == Some((start, end))
       <==> && w.answers(SelectionCount) && w.answers(Count) && end <= |f.text|
            && (|| (f.selections == [] && w.answers(Caret) && f.caret == start == end)
                || (|f.selections| == 1 && w.answers(FirstSelection) && start < end
                    && f.selections[0] == Selection(start, end)))
  {
  }

  function WithInserted(text: string, end: nat, value: string): string
    requires end <= |text|
  {
    text[..end] + value + text[end..]
  }

  function Spliced(text: string, start: nat, end: nat, value: string): string
    requires start <= end <= |text|
  {
    text[..start] + value + text[end..]
  }

  // An honest write changes the text exactly as asked or not at all; it may move the caret anywhere.
  ghost predicate HonestInsert(f: Field, w: World, end: nat, value: string)
    requires end <= |f.text|
  {
    w.insert.after.text == f.text || w.insert.after.text == WithInserted(f.text, end, value)
  }

  ghost predicate HonestDelete(w: World, start: nat, end: nat) {
    var before, after := w.insert.after.text, w.delete.after.text;
    after == before || (start <= end <= |before| && after == before[..start] + before[end..])
  }

  ghost predicate HonestMove(w: World, before: string, caret: int) {
    w.move.after.text == before && (w.move.reports ==> w.move.after.caret == caret)
  }

  // The caret is not where it belongs once the text is, or cannot be read.
  ghost predicate MoveAsked(w: World, start: nat, end: nat, value: string) {
    !w.answers(CaretAfter) || (if start < end then w.delete.after else w.insert.after).caret != start + |value|
  }

  // Everything answers and every write is exact and says so.
  ghost predicate Cooperates(f: Field, w: World, start: nat, end: nat, value: string)
    requires start <= end <= |f.text|
  {
    && w.ready && (forall r :: w.answers(r))
    && w.insert.reports && w.insert.after.text == WithInserted(f.text, end, value)
    && (start < end ==> w.delete.reports && w.delete.after.text == Spliced(f.text, start, end, value))
    && w.move.reports && w.move.after == Field(Spliced(f.text, start, end, value), start + |value|, [])
  }

  /** Inserting before deleting: the selection is still there after the first step, and the second step
      leaves exactly the splice. */
  lemma InsertThenDelete(text: string, start: nat, end: nat, value: string)
    requires start <= end <= |text|
    ensures var inserted := WithInserted(text, end, value);
            && |inserted| == |text| + |value|
            && inserted[start..end] == text[start..end]
            && inserted[end..end + |value|] == value
            && inserted[..start] + inserted[end..] == Spliced(text, start, end, value)
            && (start == end ==> inserted == Spliced(text, start, end, value))
            && (value == "" ==> inserted == text)
            && |Spliced(text, start, end, value)| == |inserted| - (end - start)
            && Spliced(text, start, end, value)[start..start + |value|] == value
  {
    var inserted := WithInserted(text, end, value);
    assert inserted[end..] == value + text[end..];
    assert inserted[..start] == text[..start];
  }

  class TextNode {
    var field: Field

    function Slice(start: nat, end: nat): string
      reads this
      requires start <= end
    {
      if end <= |field.text| then field.text[start..end]
      else if start <= |field.text| then field.text[start..] else ""
    }

    /** insert_focused_text.  `initial` is the field before the call. */
    method InsertFocusedText(value: string, w: World) returns (r: Outcome)
      modifies this
      // no action: nothing was changed, so typing the value instead cannot double it
      ensures r == NoAction ==> field == old(field)
      ensures r != NoAction ==> w.ready && Target(old(field), w).Some?
      // an action: the caret stands after the value; over a selection the whole text has been read back,
      // so it is the splice whatever the writes did; without one an honest insert is needed
      ensures r.Inserted? ==>
                var (start, end) := Target(old(field), w).value;
                && field.caret == start + |value|
                && ((MoveAsked(w, start, end, value) ==>
                      HonestMove(w, Spliced(old(field).text, start, end, value), field.caret))
                    && (start < end || HonestInsert(old(field), w, end, value))
                    ==> field.text == Spliced(old(field).text, start, end, value))
      // an insert that is not confirmed leaves the selected text where it was
      ensures r == Unconfirmed ==>
                var (start, end) := Target(old(field), w).value;
                HonestInsert(old(field), w, end, value) ==>
                  && (field.text == old(field).text || field.text == WithInserted(old(field).text, end, value))
                  && Slice(start, end) == old(field).text[start..end]
      // a deletion that is not confirmed: the value is in, and only the selection can be gone
      ensures r == Incomplete ==>
                var (start, end) := Target(old(field), w).value;
                && start < end
                && (HonestInsert(old(field), w, end, value) && HonestDelete(w, start, end) ==>
                      || field.text == WithInserted(old(field).text, end, value)
                      || field.text == Spliced(old(field).text, start, end, value))
      ensures r == CaretUnconfirmed ==>
                var (start, end) := Target(old(field), w).value;
                && MoveAsked(w, start, end, value)
                && (HonestMove(w, Spliced(old(field).text, start, end, value), start + |value|)
                    && (start < end || HonestInsert(old(field), w, end, value))
                    ==> field.text == Spliced(old(field).text, start, end, value))
      // and a provider that cooperates gets the action, verified
      ensures var target := Target(old(field), w);
              target.Some? && Cooperates(old(field), w, target.value.0, target.value.1, value) ==>
                    r == Outcome.Inserted(true)
    {
      hide WithInserted, Spliced, Target;
      if !w.ready {
        return NoAction;
      }
      var selection := Target(field, w);
      if selection.None? {
        return NoAction;
      }
      var (start, end) := selection.value;
      InsertThenDelete(field.text, start, end, value);
      var originalCount := |field.text|;
      var original := "";
      if end > start {
        if !w.answers(Original) || |field.text| != originalCount {
          return NoAction;
        }
        original := field.text;
      }
      var insertedCount := originalCount + |value|;
      field := w.insert.after;
      if !w.insert.reports
         || !w.answers(CountAfterInsert) || |field.text| != insertedCount
         || !w.answers(Read.Inserted) || Slice(end, end + |value|) != value {
        return Unconfirmed;
      }
      assert HonestInsert(old(field), w, end, value) ==> field.text == WithInserted(old(field).text, end, value);
      if end > start {
        field := w.delete.after;
        var finalCount := insertedCount - (end - start);
        if !w.delete.reports
           || !w.answers(CountAfterDelete) || |field.text| != finalCount
           || !w.answers(Replaced) || Slice(0, finalCount) != Spliced(original, start, end, value) {
          return Incomplete;
        }
        assert field.text == field.text[0..finalCount];
      }
      var caret := start + |value|;
      if !w.answers(CaretAfter) || field.caret != caret {
        field := w.move.after;
        if !w.move.reports || !w.answers(CaretMoved) || field.caret != caret {
          return CaretUnconfirmed;
        }
      }
      return Outcome.Inserted(w.answers(Final) && Slice(start, caret) == value);
    }
  }
}

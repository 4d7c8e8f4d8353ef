/**
 Borrowing unused X11 keycodes while text is typed (native/computer-use-linux/runtime.py,
 locked_x11_keymap).  Keys the keyboard lacks are bound to empty codes, the text is typed, and the
 map is put back on every way out, including an exception or a termination between any two steps.
 */
module Keymap {
  import opened Common

  type Keysym = nat
  type Code = int
  type Row = seq<Keysym>
  type Rows = map<Code, Row>

  // ---------------------------------------------------------------- planning

  predicate IsLiteral(c: char) { c as int >= 32 && c as int != 127 }

  function KeyOf(c: char, keyval: char -> Keysym): Keysym { if (c as int) < 128 then c as int else keyval(c) }

  // dict.fromkeys: each key once, in order of first use.
  function Needed(text: string, keyval: char -> Keysym): (keys: seq<Keysym>)
    ensures forall i, j :: 0 <= i < j < |keys| ==> keys[i] != keys[j]
    ensures forall c :: c in text && IsLiteral(c) ==> KeyOf(c, keyval) in keys
    ensures forall key :: key in keys ==> exists c :: c in text && IsLiteral(c) && KeyOf(c, keyval) == key
  {
    if text == [] then []
    else
      var c := text[|text| - 1];
      var before := Needed(text[..|text| - 1], keyval);
      if IsLiteral(c) && KeyOf(c, keyval) !in before then before + [KeyOf(c, keyval)] else before
  }

  predicate Bound(rows: Rows, key: Keysym) { exists code :: code in rows && key in rows[code] }

  predicate Empty(row: Row) { forall key :: key in row ==> key == 0 }

  function Missing(needed: seq<Keysym>, rows: Rows): (keys: seq<Keysym>)
    ensures forall key :: key in keys <==> key in needed && !Bound(rows, key)
    ensures (forall i, j :: 0 <= i < j < |needed| ==> needed[i] != needed[j])
        ==> forall i, j :: 0 <= i < j < |keys| ==> keys[i] != keys[j]
  {
    if needed == [] then []
    else
      var rest := Missing(needed[1..], rows);
      if Bound(rows, needed[0]) then rest else [needed[0]] + rest
  }

  /** The codes from `low` up that nothing uses: an empty row and no modifier. */
  function Free(rows: Rows, modifiers: set<Code>, low: Code, high: Code): (codes: seq<Code>)
    requires forall code :: code in rows <==> low <= code <= high
    ensures forall code :: code in codes <==> code in rows && Empty(rows[code]) && code !in modifiers
    ensures forall i, j :: 0 <= i < j < |codes| ==> codes[i] < codes[j]
  {
    FreeFrom(rows, modifiers, low, high)
  }

  function FreeFrom(rows: Rows, modifiers: set<Code>, at: Code, high: Code): (codes: seq<Code>)
    requires forall code :: at <= code <= high ==> code in rows
    ensures forall code :: code in codes <==> at <= code <= high && Empty(rows[code]) && code !in modifiers
    ensures forall i, j :: 0 <= i < j < |codes| ==> codes[i] < codes[j]
    decreases high - at + 1
  {
    if at > high then []
    else
      var rest := FreeFrom(rows, modifiers, at + 1, high);
      assert forall i :: 0 <= i < |rest| ==> rest[i] in rest;
      (if Empty(rows[at]) && at !in modifiers then [at] else []) + rest
  }

  // One key, the rest of the row zero.
  function Binding(key: Keysym, width: nat): (row: Row)
    requires width > 0
    ensures |row| == width && row[0] == key && forall i :: 0 < i < width ==> row[i] == 0
  {
    [key] + seq(width - 1, _ => 0)
  }

  /** The map after the first k missing keys have been bound. */
  function Installed(rows: Rows, free: seq<Code>, missing: seq<Keysym>, k: nat, width: nat): Rows
    requires k <= |missing| <= |free| && (k > 0 ==> width > 0)
  {
    if k == 0 then rows else Installed(rows, free, missing, k - 1, width)[free[k - 1] := Binding(missing[k - 1], width)]
  }

  lemma {:induction false} InstalledElsewhere(rows: Rows, free: seq<Code>, missing: seq<Keysym>, k: nat, width: nat)
    requires k <= |missing| <= |free| && (k > 0 ==> width > 0)
    requires forall i :: 0 <= i < k ==> free[i] in rows
    ensures var m := Installed(rows, free, missing, k, width);
            m.Keys == rows.Keys && forall code :: code in rows && code !in free[..k] ==> m[code] == rows[code]
  {
    if k > 0 {
      hide Binding;
      InstalledElsewhere(rows, free, missing, k - 1, width);
      assert free[..k] == free[..k - 1] + [free[k - 1]];
    }
  }

  lemma {:induction false} InstalledAt(rows: Rows, free: seq<Code>, missing: seq<Keysym>, k: nat, width: nat, i: nat)
    requires i < k <= |missing| <= |free| && width > 0
    requires forall i, j :: 0 <= i < j < |free| ==> free[i] < free[j]
    ensures var m := Installed(rows, free, missing, k, width);
            free[i] in m && m[free[i]] == Binding(missing[i], width)
  {
    hide Binding;
    if i < k - 1 {
      InstalledAt(rows, free, missing, k - 1, width, i);
      assert free[i] < free[k - 1];
    }
  }

  /** While text is typed every needed key but zero is bound; each missing key has a code of its own,
      which was empty and is no modifier; and no other code has changed. */
  lemma InstalledServes(rows: Rows, modifiers: set<Code>, low: Code, high: Code, needed: seq<Keysym>, width: nat)
    requires forall code :: code in rows <==> low <= code <= high
    requires forall i, j :: 0 <= i < j < |needed| ==> needed[i] != needed[j]
    requires |Missing(needed, rows)| <= |Free(rows, modifiers, low, high)| && 0 !in Missing(needed, rows)
    requires Missing(needed, rows) != [] ==> width > 0
    ensures var missing, free := Missing(needed, rows), Free(rows, modifiers, low, high);
            var m := Installed(rows, free, missing, |missing|, width);
            && m.Keys == rows.Keys
            && (forall key :: key in needed && key != 0 ==> Bound(m, key))
            && (forall i, j :: 0 <= i < j < |missing| ==> missing[i] != missing[j] && free[i] != free[j])
            && (forall i :: 0 <= i < |missing| ==> free[i] in rows && Empty(rows[free[i]]) && free[i] !in modifiers)
            && (forall i :: 0 <= i < |missing| ==> m[free[i]] == Binding(missing[i], width))
            && (forall code :: code in rows && code !in free[..|missing|] ==> m[code] == rows[code])
  {
    var missing, free := Missing(needed, rows), Free(rows, modifiers, low, high);
    var m := Installed(rows, free, missing, |missing|, width);
    hide Installed, Missing, Free, FreeFrom, Binding;
    forall i | 0 <= i < |missing| ensures free[i] in rows { assert free[i] in free; }
    InstalledElsewhere(rows, free, missing, |missing|, width);
    forall i | 0 <= i < |missing| ensures free[i] in m && m[free[i]] == Binding(missing[i], width) {
      InstalledAt(rows, free, missing, |missing|, width, i);
    }
    forall key | key in needed && key != 0 ensures Bound(m, key) {
      if key in missing {
        var i :| 0 <= i < |missing| && missing[i] == key;
        assert free[i] in m && m[free[i]][0] == key;
      } else {
        var code :| code in rows && key in rows[code];
        assert code !in free;
        assert code in m && m[code] == rows[code];
      }
    }
  }

  /** What the setup comes to when it is cut short after so many steps: two for each missing key, one to
      record the keys held, and one to hand over to the body. */
  datatype Setup = Refuses | Cut | Runs(patched: Rows)

  function SetupOf(rows: Rows, needed: seq<Keysym>, modifiers: set<Code>, low: Code, high: Code, width: nat,
                   receipt: bool, steps: nat): Setup
    requires forall code :: code in rows <==> low <= code <= high
  {
    var missing, free := Missing(needed, rows), Free(rows, modifiers, low, high);
    if |missing| > |free| || 0 in missing || (missing != [] && !receipt) then Refuses
    else if steps < 2 * |missing| + 2 || (missing != [] && width == 0) then Cut
    else Runs(Installed(rows, free, missing, |missing|, width))
  }

  /** The map the body sees differs from the one that was read exactly when a key was missing. */
  lemma PatchedIsNew(rows: Rows, needed: seq<Keysym>, modifiers: set<Code>, low: Code, high: Code, width: nat,
                     receipt: bool, steps: nat)
    requires forall code :: code in rows <==> low <= code <= high
    ensures var setup := SetupOf(rows, needed, modifiers, low, high, width, receipt, steps);
            setup.Runs? ==> (setup.patched != rows <==> Missing(needed, rows) != [])
  {
    hide Missing, Free, FreeFrom;
    var missing, free := Missing(needed, rows), Free(rows, modifiers, low, high);
    var setup := SetupOf(rows, needed, modifiers, low, high, width, receipt, steps);
    if setup.Runs? && missing != [] {
      InstalledAt(rows, free, missing, |missing|, width, 0);
      hide Installed;
      assert setup.patched[free[0]][0] == missing[0];
      assert missing[0] in missing && free[0] in free;
    }
  }

  /** The setup refuses exactly when more keys are missing than codes are free, when a missing key is zero, or
      when keys are missing and the text that has focus cannot be read; it is cut exactly before the body. */
  lemma SetupRefusesIff(rows: Rows, needed: seq<Keysym>, modifiers: set<Code>, low: Code, high: Code, width: nat,
                        receipt: bool, steps: nat)
    requires forall code :: code in rows <==> low <= code <= high
    requires forall i, j :: 0 <= i < j < |needed| ==> needed[i] != needed[j]
    ensures var setup := SetupOf(rows, needed, modifiers, low, high, width, receipt, steps);
            var missing := set key | key in needed && forall code :: code in rows ==> key !in rows[code];
            var free := set code | code in rows && code !in modifiers && forall key :: key in rows[code] ==> key == 0;
            && (setup.Refuses? <==> |missing| > |free| || 0 in missing || (missing != {} && !receipt))
            && (setup.Runs? <==> !setup.Refuses? && steps >= 2 * |missing| + 2 && (missing != {} ==> width > 0))
  {
    hide Missing, Free, FreeFrom, Installed;
    var missing := set key | key in needed && forall code :: code in rows ==> key !in rows[code];
    var free := set code | code in rows && code !in modifiers && forall key :: key in rows[code] ==> key == 0;
    var keys, codes := Missing(needed, rows), Free(rows, modifiers, low, high);
    assert forall key :: key in keys <==> key in missing;
    SizeOf(keys, missing);
    assert forall code :: code in codes <==> code in free;
    SizeOf(codes, free);
  }

  lemma {:induction false} SizeOf(list: seq<int>, all: set<int>)
    requires forall i, j :: 0 <= i < j < |list| ==> list[i] != list[j]
    requires forall x :: x in list <==> x in all
    ensures |list| == |all|
  {
    if list != [] {
      var before, last := list[..|list| - 1], list[|list| - 1];
      assert list == before + [last] && last !in before;
      SizeOf(before, all - {last});
      assert all == (all - {last}) + {last};
    } else {
      forall x ensures x !in all { assert x !in list; }
    }
  }

  // ---------------------------------------------------------------- the session

  class Keyboard {
    var mapping: Rows
    var down: set<Code>

    method Change(code: Code, row: Row)
      modifies this`mapping
      ensures mapping == old(mapping)[code := row]
    {
      mapping := mapping[code := row];
    }
  }

  datatype Ending = Finished | Refused | Raised | Terminated | NotRestored

  /** When SIGTERM comes, if it comes during the exit. */
  datatype Arrival = Never | BeforeRestore | InRestore

  function EndingOf(setup: Setup, bodyRaises: bool, stuck: bool, sigterm: Arrival): Ending {
    if stuck then NotRestored
    else if sigterm != Never then Terminated
    else if setup.Refuses? then Refused
    else if setup.Cut? || bodyRaises then Raised
    else Finished
  }

  class Session {
    const keyboard: Keyboard
    const rows: Rows            // the map as it was read at the start
    var changed: seq<Code>
    var heldBefore: Option<set<Code>>
    var completed: bool
    var open: bool

    constructor (keyboard: Keyboard)
      ensures this.keyboard == keyboard && rows == keyboard.mapping
      ensures changed == [] && heldBefore == None && !completed && open && Valid()
    {
      this.keyboard := keyboard;
      rows := keyboard.mapping;
      changed, heldBefore, completed, open := [], None, false, true;
    }

    /** Only codes already written down in `changed` can differ from the map that was read. */
    ghost predicate Valid()
      reads this, keyboard
    {
      && keyboard.mapping.Keys == rows.Keys
      && (forall code :: code in changed ==> code in rows)
      && (forall code :: code in rows && code !in changed ==> keyboard.mapping[code] == rows[code])
      && (!open ==> keyboard.mapping == rows)
    }

    /** restore(): keys left down by an interrupted run are released, then every changed row is written
        back.  Releasing needs a library that may be absent; only then does it fail, changing nothing. */
    method Restore(canRelease: bool) returns (done: bool)
      requires Valid()
      modifies this`open, keyboard
      ensures Valid()
      ensures !old(open) ==> done && unchanged(keyboard) && !open
      ensures done ==> keyboard.mapping == rows && !open
      ensures done && old(open) ==>
                keyboard.down == if !completed && heldBefore.Some? then old(keyboard.down) * heldBefore.value
                                                     else old(keyboard.down)
      ensures !done <==> old(open) && Stuck(old(keyboard.down), canRelease)
      ensures !done ==> unchanged(keyboard) && open
    {
      if !open {
        return true;
      }
      if !completed && heldBefore.Some? {
        var newlyDown := keyboard.down - heldBefore.value;
        if newlyDown != {} {
          if !canRelease {
            return false;
          }
          keyboard.down := keyboard.down - newlyDown;
        }
        assert old(keyboard.down) - newlyDown == old(keyboard.down) * heldBefore.value;
      }
      for i := 0 to |changed|
        invariant keyboard.mapping.Keys == rows.Keys
        invariant forall code :: code in rows && code !in changed[i..] ==> keyboard.mapping[code] == rows[code]
        invariant keyboard.down == if !completed && heldBefore.Some? then old(keyboard.down) * heldBefore.value
                                   else old(keyboard.down)
      {
        keyboard.Change(changed[i], rows[changed[i]]);
        assert changed[i..] == [changed[i]] + changed[i + 1..];
      }
      assert keyboard.mapping == rows by {
        forall code | code in rows ensures keyboard.mapping[code] == rows[code] {
          assert code !in changed[|changed|..];
        }
      }
      open := false;
      return true;
    }

    /** Binds the missing keys; each code is written down before it is changed.  The run is cut short
        after `steps` of its steps: an exception or a signal can fall between any two of them. */
    method Install(free: seq<Code>, missing: seq<Keysym>, width: nat, steps: nat) returns (installed: bool)
      requires Valid() && open && changed == [] && keyboard.mapping == rows
      requires |missing| <= |free| && forall code :: code in free ==> code in rows
      modifies this`changed, keyboard`mapping
      ensures Valid()
      ensures installed ==> (missing != [] ==> width > 0)
                            && keyboard.mapping == Installed(rows, free, missing, |missing|, width)
      ensures installed <==> 2 * |missing| <= steps && (missing != [] ==> width > 0)
    {
      var left := steps;
      for k := 0 to |missing|
        invariant changed == free[..k] && 2 * k + left == steps && left >= 0
        invariant k > 0 ==> width > 0
        invariant keyboard.mapping == Installed(rows, free, missing, k, width)
        invariant Valid()
      {
        if left == 0 {
          return false;
        }
        ghost var before := keyboard.mapping;
        changed := changed + [free[k]];
        assert free[..k + 1] == free[..k] + [free[k]];
        if left == 1 || width == 0 {
          return false;
        }
        keyboard.Change(free[k], Binding(missing[k], width));
        left := left - 2;
      }
      return true;
    }

    /** The finally clause.  SIGTERM gets through once at most, as its handler ignores it from then on; if it
        comes during restore it is held back by the mask and ends that call after its work, and if it comes
        just before, nothing has been done.  Either way restore is called again. */
    method RestoreOnExit(canRelease: bool, sigterm: Arrival) returns (done: bool)
      requires Valid() && open
      modifies this`open, keyboard
      ensures Valid()
      ensures done <==> !Stuck(old(keyboard.down), canRelease)
      ensures done ==> keyboard.mapping == rows && !open
      ensures done ==> keyboard.down == if !completed && heldBefore.Some? then old(keyboard.down) * heldBefore.value
                                        else old(keyboard.down)
      ensures !done ==> unchanged(keyboard) && open
    {
      if sigterm != BeforeRestore {
        done := Restore(canRelease);
      }
      if sigterm != Never {
        done := Restore(canRelease);
      }
    }

    // Restoring needs to release keys, and cannot.
    ghost predicate Stuck(down: set<Code>, canRelease: bool)
      reads this
    {
      !completed && heldBefore.Some? && !(down <= heldBefore.value) && !canRelease
    }

    /**
     The whole context manager around one body.  Inputs are what goes wrong: after how many steps the setup
     is cut short, whether the body raises, and when SIGTERM comes during the exit.  Whatever it is, the map
     is afterwards the one that was read, unless keys of a body that raised are down and cannot be released,
     and the text needed a key the map did not have; the map the body saw serves the text.
     */
    method Run(text: string, keyval: char -> Keysym, modifiers: set<Code>, low: Code, high: Code, width: nat,
               receipt: bool, steps: nat, bodyRaises: bool, pressed: set<Code>, canRelease: bool, sigterm: Arrival)
        returns (ending: Ending, seen: Option<Rows>)
      requires Valid() && open && changed == [] && keyboard.mapping == rows && heldBefore == None && !completed
      requires forall code :: code in rows <==> low <= code <= high
      modifies this, keyboard
      ensures Valid()
      ensures var setup := SetupOf(rows, Needed(text, keyval), modifiers, low, high, width, receipt, steps);
              var stuck := setup.Runs? && bodyRaises && !(pressed <= old(keyboard.down)) && !canRelease;
              && ending == EndingOf(setup, bodyRaises, stuck, sigterm)
              && seen == (if setup.Runs? then Some(setup.patched) else None)
              && keyboard.mapping == (if stuck then setup.patched else rows)
              && (keyboard.mapping == rows <==> !stuck || Missing(Needed(text, keyval), rows) == [])
              && rows == old(keyboard.mapping)
              && keyboard.down == if setup.Runs? && (stuck || !bodyRaises) then old(keyboard.down) + pressed
                                  else old(keyboard.down)
    {
      hide Installed, Missing, Free, FreeFrom, Needed;
      seen := None;
      var needed := Needed(text, keyval);
      var missing, free := Missing(needed, rows), Free(rows, modifiers, low, high);
      var refused := |missing| > |free| || 0 in missing || (missing != [] && !receipt);
      if !refused {
        var installed := Install(free, missing, width, steps);
        if installed && steps > 2 * |missing| {
          heldBefore := Some(keyboard.down);
          if steps > 2 * |missing| + 1 {
            seen := Some(keyboard.mapping);
            keyboard.down := keyboard.down + pressed;
            completed := !bodyRaises;
          }
        }
      }
      PatchedIsNew(rows, needed, modifiers, low, high, width, receipt, steps);
      var done := RestoreOnExit(canRelease, sigterm);
      ending := if !done then NotRestored else if sigterm != Never then Terminated
                else if refused then Refused else if completed then Finished else Raised;
    }
  }

  lemma OneKeySetup(keyval: char -> Keysym)
    ensures SetupOf(map[8 := [0]], Needed("a", keyval), {}, 8, 8, 1, true, 4) == Runs(map[8 := [97]])
  {
    OneKeyNeeded(keyval);
    OneKeyMissing();
    OneKeyFree();
    hide Needed, Missing, Free;
    assert Binding(97, 1) == [97];
    assert Installed(map[8 := [0]], [8], [97], 0, 1) == map[8 := [0]];
  }

  lemma OneKeyNeeded(keyval: char -> Keysym)
    ensures Needed("a", keyval) == [97]
  {
    assert "a"[..0] == [] && Needed([], keyval) == [];
  }

  lemma OneKeyMissing()
    ensures Missing([97], map[8 := [0]]) == [97]
  {
    assert !Bound(map[8 := [0]], 97);
    assert [97][1..] == [] && Missing([], map[8 := [0]]) == [];
  }

  lemma OneKeyFree()
    ensures Free(map[8 := [0]], {}, 8, 8) == [8]
  {
    assert Empty([0]);
    assert FreeFrom(map[8 := [0]], {}, 9, 8) == [];
  }

  /** A run after which the map is not the one that was read: a body that raises with a key down, and no
      library to release it with. */
  method RestoreCanFail(keyboard: Keyboard, keyval: char -> Keysym) returns (ending: Ending)
    requires keyboard.mapping == map[8 := [0]] && keyboard.down == {}
    modifies keyboard
    ensures ending == NotRestored
    ensures keyboard.mapping == map[8 := [97]] != old(keyboard.mapping)
  {
    var session := new Session(keyboard);
    OneKeySetup(keyval);
    assert forall code :: code in session.rows <==> 8 <= code <= 8;
    hide SetupOf, Needed, Missing;
    var seen;
    ending, seen := session.Run("a", keyval, {}, 8, 8, 1, true, 4, true, {8}, false, Never);
    assert map[8 := [97]][8] != map[8 := [0]][8];
  }

  /** And a run that ends the same way although the map is: no key was missing. */
  method NotRestoredButUnchanged(keyboard: Keyboard, keyval: char -> Keysym) returns (ending: Ending)
    requires keyboard.mapping == map[8 := [97]] && keyboard.down == {}
    modifies keyboard
    ensures ending == NotRestored && keyboard.mapping == old(keyboard.mapping)
  {
    var session := new Session(keyboard);
    assert forall code :: code in session.rows <==> 8 <= code <= 8;
    NothingSetup(keyval);
    hide SetupOf;
    var seen;
    ending, seen := session.Run("", keyval, {}, 8, 8, 1, true, 2, true, {8}, false, Never);
  }

  lemma NothingSetup(keyval: char -> Keysym)
    ensures SetupOf(map[8 := [97]], Needed("", keyval), {}, 8, 8, 1, true, 2).Runs?
    ensures Missing(Needed("", keyval), map[8 := [97]]) == []
  {
  }
}

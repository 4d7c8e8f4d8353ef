/**
 What the clipboard owner's loop delivers (native/wayland-clipboard/wayland-clipboard.c): a reader that keeps
 reading gets the whole text.
 */
module ClipboardDelivery {
  import opened Common
  import opened ClipboardTransfers

  /** The pass from slot j up to, not including, slot i. */
  function ServeTo(s: State, text: seq<Byte>, j: nat, i: nat, events: seq<Events>, polled: seq<int>,
                   turns: seq<Turn>): State
    requires |events| == |polled| == |turns| == |s.slots| && j <= i <= |s.slots|
    decreases i - j
  {
    if j == i then s
    else ServeTo(Serve(s, text, j, events[j], polled[j], turns[j]), text, j + 1, i, events, polled, turns)
  }

  // The state in which a round comes to slot i.
  function ReachedIn(s: State, text: seq<Byte>, round: Round, i: nat): State
    requires i < |s.slots|
  {
    var prepared := Dispatch(s, round.pending);
    var after := Dispatch(Tick(prepared, round.waited), round.dispatched);
    ServeTo(after, text, 0, i, Reported(prepared.slots, round.answer), Polled(prepared.slots),
          TurnsFor(|after.slots|, round.turns))
  }

  /** A round in which slot i's reader is ready before its deadline and takes at least a byte. */
  ghost predicate Kind(s: State, text: seq<Byte>, round: Round, i: nat)
    requires i < |s.slots|
  {
    && round.answer.Ready? && i < |round.answer.slots| && round.answer.slots[i] == Events(true, false)
    && i < |round.turns| && round.turns[i].result.Wrote? && round.turns[i].result.count >= 1
    && ReachedIn(s, text, round, i).now + round.turns[i].elapsed < s.slots[i].deadline
  }

  // Slot i still serves descriptor k.
  ghost predicate Serves(s: State, i: nat, k: nat) { i < |s.slots| && Active(s.slots[i]) && s.slots[i].ticket == k }

  /** As long as slot i serves k, rounds are kind to it and the loop goes on. */
  ghost predicate KindRun(s: State, text: seq<Byte>, rounds: seq<Round>, i: nat, k: nat)
    decreases |rounds|
  {
    rounds != [] && Serves(s, i, k) ==>
      && !s.stopped && Kind(s, text, rounds[0], i) && RunRound(s, text, rounds[0]).1 == Continue
      && KindRun(RunRound(s, text, rounds[0]).0, text, rounds[1..], i, k)
  }

  ghost predicate Done(s: State, text: seq<Byte>, k: nat) {
    k < |s.deliveries| && !Held(s, k) && s.deliveries[k].bytes == text
  }

  lemma ServeLeavesDone(s: State, text: seq<Byte>, i: nat, events: Events, polled: int, turn: Turn, k: nat)
    requires i < |s.slots| && Done(s, text, k)
    ensures Done(Serve(s, text, i, events, polled, turn), text, k)
  {
    var s' := Serve(s, text, i, events, polled, turn);
    forall j | 0 <= j < |s'.slots| && Active(s'.slots[j]) ensures s'.slots[j].ticket != k {
      assert Active(s.slots[j]) && s'.slots[j].ticket == s.slots[j].ticket;
    }
  }

  lemma {:induction false} PassLeavesDone(s: State, text: seq<Byte>, i: nat, events: seq<Events>, polled: seq<int>,
                                          turns: seq<Turn>, k: nat)
    requires |events| == |polled| == |turns| == |s.slots| && i <= |s.slots| && Done(s, text, k)
    ensures Done(ServeFrom(s, text, i, events, polled, turns), text, k)
    decreases |s.slots| - i
  {
    if i < |s.slots| {
      hide Serve, Done;
      ServeOne(s, text, i, events[i], polled[i], turns[i]);
      ServeLeavesDone(s, text, i, events[i], polled[i], turns[i], k);
      PassLeavesDone(Serve(s, text, i, events[i], polled[i], turns[i]), text, i + 1, events, polled, turns, k);
    }
  }

  lemma {:induction false} DispatchLeavesDone(s: State, text: seq<Byte>, events: seq<Event>, k: nat)
    requires Done(s, text, k)
    ensures Done(Dispatch(s, events), text, k)
  {
    if events != [] {
      DispatchLeavesDone(s, text, events[..|events| - 1], k);
      var rest := Dispatch(s, events[..|events| - 1]);
      var s' := Dispatch(s, events);
      forall j | 0 <= j < |s'.slots| && Active(s'.slots[j]) ensures s'.slots[j].ticket != k {
        assert s'.slots[j] == rest.slots[j] || s'.slots[j].ticket == |rest.deliveries|;
      }
    }
  }

  lemma RoundLeavesDone(s: State, text: seq<Byte>, round: Round, k: nat)
    requires Done(s, text, k)
    ensures Done(RunRound(s, text, round).0, text, k)
  {
    hide ServeFrom, Dispatch, Timeout;
    var prepared := Dispatch(s, round.pending);
    DispatchLeavesDone(s, text, round.pending, k);
    var waited := Tick(prepared, round.waited);
    assert Done(waited, text, k) by { assert forall k :: Held(waited, k) <==> Held(prepared, k); }
    var after := Dispatch(waited, round.dispatched);
    DispatchLeavesDone(waited, text, round.dispatched, k);
    PassLeavesDone(after, text, 0, Reported(prepared.slots, round.answer), Polled(prepared.slots),
          TurnsFor(|after.slots|, round.turns), k);
  }

  lemma {:induction false} RunLeavesDone(s: State, text: seq<Byte>, rounds: seq<Round>, k: nat)
    requires Done(s, text, k)
    ensures Done(Run(s, text, rounds).0, text, k)
    decreases |rounds|
  {
    hide Done, RunRound;
    if !s.stopped && rounds != [] {
      RoundLeavesDone(s, text, rounds[0], k);
      if RunRound(s, text, rounds[0]).1 == Continue {
        RunLeavesDone(RunRound(s, text, rounds[0]).0, text, rounds[1..], k);
      }
    }
  }

  // The turn of slot i itself, in time, with its reader ready.
  lemma TurnServes(s: State, text: seq<Byte>, i: nat, turn: Turn)
    requires Sound(s, text) && i < |s.slots| && Active(s.slots[i]) && s.now + turn.elapsed < s.slots[i].deadline
    requires turn.result.Wrote? && turn.result.count >= 1
    ensures var slot := s.slots[i];
            var s' := Serve(s, text, i, Events(true, false), slot.ticket, turn);
            Done(s', text, slot.ticket)
            || (Serves(s', i, slot.ticket) && slot.offset < s'.slots[i].offset < |text|)
  {
    var slot := s.slots[i];
    var s1 := Tick(s, turn.elapsed);
    var count := Count(turn.result, Request(text, slot));
    OffsetFits(s, text, i);
    TickKeepsSound(s, text, turn.elapsed);
    WriteKeepsSound(s1, text, i, count, turn.elapsedAfter);
    RecordKeepsSlots(s1, slot, text, count, slot.ticket);
    var s2 := Advance(Record(s1, slot, text, count, slot.ticket), i, count, turn.elapsedAfter);
    if slot.offset + count == |text| {
      ClosesDone(s2, text, i);
    }
  }

  lemma ClosesDone(s: State, text: seq<Byte>, i: nat)
    requires Sound(s, text) && i < |s.slots| && Active(s.slots[i]) && s.slots[i].offset == |text|
    ensures Done(CloseTransfer(s, i), text, s.slots[i].ticket)
  {
    assert Serving(s, text, s.slots[i]);
    assert text[..|text|] == text;
    var s' := CloseTransfer(s, i);
    forall j | 0 <= j < |s'.slots| && Active(s'.slots[j]) ensures s'.slots[j].ticket != s.slots[i].ticket {
      assert s'.slots[j] == s.slots[j] && j != i;
    }
  }

  lemma {:induction false} PassServes(s: State, text: seq<Byte>, j: nat, events: seq<Events>, polled: seq<int>,
                                      turns: seq<Turn>, i: nat)
    requires |events| == |polled| == |turns| == |s.slots| && j <= i < |s.slots|
    requires Sound(s, text) && Current(s, j, events, polled) && Active(s.slots[i])
    requires events[i] == Events(true, false) && turns[i].result.Wrote? && turns[i].result.count >= 1
    requires ServeTo(s, text, j, i, events, polled, turns).now + turns[i].elapsed < s.slots[i].deadline
    ensures var s' := ServeFrom(s, text, j, events, polled, turns);
            Done(s', text, s.slots[i].ticket)
            || (Serves(s', i, s.slots[i].ticket) && s.slots[i].offset < s'.slots[i].offset < |text|)
    decreases i - j
  {
    hide Serve, Sound, Done;
    var s1 := Serve(s, text, j, events[j], polled[j], turns[j]);
    ServeKeepsSound(s, text, j, events[j], polled[j], turns[j]);
    if j < i {
      PassServes(s1, text, j + 1, events, polled, turns, i);
    } else {
      var k := s.slots[i].ticket;
      TurnServes(s, text, i, turns[i]);
      if Done(s1, text, k) {
        PassLeavesDone(s1, text, i + 1, events, polled, turns, k);
      } else {
        PassExpires(s1, text, i + 1, events, polled, turns);
      }
    }
  }

  lemma RoundServes(s: State, text: seq<Byte>, round: Round, i: nat, k: nat)
    requires Sound(s, text) && Serves(s, i, k) && Kind(s, text, round, i) && RunRound(s, text, round).1 == Continue
    ensures var s' := RunRound(s, text, round).0;
            Done(s', text, k) || (Serves(s', i, k) && s.slots[i].offset < s'.slots[i].offset < |text|)
  {
    hide Sound, ServeFrom, ServeTo, Dispatch, Done;
    var prepared := Dispatch(s, round.pending);
    DispatchKeepsSound(s, text, round.pending);
    var waited := Tick(prepared, round.waited);
    TickKeepsSound(prepared, text, round.waited);
    var after := Dispatch(waited, round.dispatched);
    DispatchKeepsSound(waited, text, round.dispatched);
    SlotCount(s, text);
    PassServes(after, text, 0, Reported(prepared.slots, round.answer), Polled(prepared.slots),
          TurnsFor(|after.slots|, round.turns), i);
  }

  lemma SlotCount(s: State, text: seq<Byte>)
    requires Sound(s, text)
    ensures |s.slots| == MAX_TRANSFERS
  {
  }

  /** Delivery: a reader that is ready in every round before its deadline and takes at least one byte gets the
      whole text, and its descriptor is then closed, once, within as many rounds as there are bytes left. */
  lemma {:induction false} DeliversEverything(s: State, text: seq<Byte>, rounds: seq<Round>, i: nat, k: nat)
    requires Sound(s, text) && Serves(s, i, k) && KindRun(s, text, rounds, i, k)
    requires |rounds| >= 1 && |rounds| >= |text| - s.slots[i].offset
    ensures var end := Run(s, text, rounds).0;
            k < |end.deliveries| && end.deliveries[k].bytes == text && end.deliveries[k].closes == 1
    decreases |rounds|
  {
    hide Sound, RunRound, Done, Kind;
    var s' := RunRound(s, text, rounds[0]).0;
    RoundKeepsSound(s, text, rounds[0]);
    RoundServes(s, text, rounds[0], i, k);
    if Done(s', text, k) {
      RunLeavesDone(s', text, rounds[1..], k);
      RunKeepsSound(s', text, rounds[1..]);
      DoneIsClosed(Run(s', text, rounds[1..]).0, text, k);
    } else {
      DeliversEverything(s', text, rounds[1..], i, k);
    }
  }

  lemma DoneIsClosed(s: State, text: seq<Byte>, k: nat)
    requires Sound(s, text) && Done(s, text, k)
    ensures k < |s.deliveries| && s.deliveries[k].bytes == text && s.deliveries[k].closes == 1
  {
  }

  // ---------------------------------------------------------------- from the first paste to the last byte

  lemma {:induction false} PassWaits(s: State, text: seq<Byte>, j: nat, events: seq<Events>, polled: seq<int>,
                                     turns: seq<Turn>, i: nat)
    requires |events| == |polled| == |turns| == |s.slots| && j <= i < |s.slots| && Active(s.slots[i])
    requires events[i] == CLEAR && s.slots[i].offset <= |text|
    requires ServeTo(s, text, j, i, events, polled, turns).now + turns[i].elapsed < s.slots[i].deadline
    ensures var s' := ServeFrom(s, text, j, events, polled, turns);
            i < |s'.slots| && s'.slots[i] == s.slots[i]
    decreases i - j
  {
    hide Serve;
    var s1 := Serve(s, text, j, events[j], polled[j], turns[j]);
    ServeOne(s, text, j, events[j], polled[j], turns[j]);
    if j < i {
      PassWaits(s1, text, j + 1, events, polled, turns, i);
    } else {
      TurnDecides(s, text, i, events[i], polled[i], turns[i]);
      PassExpires(s1, text, i + 1, events, polled, turns);
    }
  }

  /** A round that brings one descriptor and reaches its slot within two seconds leaves it there, untouched. */
  lemma RoundAccepts(s: State, text: seq<Byte>, round: Round, i: nat, fd: nat, elapsed: nat)
    requires Sound(s, text) && i < |s.slots| && !Active(s.slots[i]) && forall j :: 0 <= j < i ==> Active(s.slots[j])
    requires round.pending == [] && round.dispatched == [Send(fd, true, elapsed)]
    requires round.answer.Ready? && RunRound(s, text, round).1 == Continue
    requires ReachedIn(s, text, round, i).now + TurnsFor(|s.slots|, round.turns)[i].elapsed
               < s.now + round.waited + elapsed + 2000
    ensures var s', k := RunRound(s, text, round).0, |s.deliveries|;
            && Serves(s', i, k) && s'.slots[i].offset == 0 && k < |s'.deliveries| && s'.deliveries[k].fd == fd
  {
    hide Sound, ServeFrom, ServeTo, FirstIdle;
    var waited := Tick(s, round.waited);
    var ticked := Tick(waited, elapsed);
    OneEvent(s, waited, round.dispatched[0]);
    AcceptTakesFirstIdle(ticked, fd, true);
    var after := Dispatch(waited, round.dispatched);
    assert after.slots[i] == Slot(fd, 0, ticked.now + 2000, |s.deliveries|);
    PassWaits(after, text, 0, Reported(s.slots, round.answer), Polled(s.slots), TurnsFor(|after.slots|, round.turns),
              i);
    RoundKeepsSound(s, text, round);
    OpenIsServed(RunRound(s, text, round).0, text, i);
  }

  lemma OneEvent(s: State, waited: State, event: Event)
    ensures Dispatch(s, []) == s
    ensures Dispatch(waited, [event])
         == Happens(waited, event)
  {
    assert [event][..0] == [];
  }

  lemma OpenIsServed(s: State, text: seq<Byte>, i: nat)
    requires Sound(s, text) && i < |s.slots| && Active(s.slots[i])
    ensures s.slots[i].ticket < |s.deliveries| && s.deliveries[s.slots[i].ticket].fd == s.slots[i].fd
  {
    assert Serving(s, text, s.slots[i]);
  }

  // No delivery is forgotten, or taken for another descriptor's.
  ghost predicate Remembers(s: State, s': State) {
    && |s.deliveries| <= |s'.deliveries|
    && forall k :: 0 <= k < |s.deliveries| ==> s'.deliveries[k].fd == s.deliveries[k].fd
  }

  lemma {:induction false} PassRemembers(s: State, text: seq<Byte>, i: nat, events: seq<Events>, polled: seq<int>,
                                         turns: seq<Turn>)
    requires |events| == |polled| == |turns| == |s.slots| && i <= |s.slots|
    ensures Remembers(s, ServeFrom(s, text, i, events, polled, turns))
    decreases |s.slots| - i
  {
    if i < |s.slots| {
      ServeOne(s, text, i, events[i], polled[i], turns[i]);
      TurnRemembers(s, text, i, events[i], polled[i], turns[i]);
      hide Serve;
      PassRemembers(Serve(s, text, i, events[i], polled[i], turns[i]), text, i + 1, events, polled, turns);
    }
  }

  lemma TurnRemembers(s: State, text: seq<Byte>, i: nat, events: Events, polled: int, turn: Turn)
    requires i < |s.slots|
    ensures Remembers(s, Serve(s, text, i, events, polled, turn))
  {
  }

  lemma {:induction false} DispatchRemembers(s: State, events: seq<Event>)
    ensures Remembers(s, Dispatch(s, events))
  {
    if events != [] {
      DispatchRemembers(s, events[..|events| - 1]);
    }
  }

  lemma {:induction false} RunRemembers(s: State, text: seq<Byte>, rounds: seq<Round>)
    ensures Remembers(s, Run(s, text, rounds).0)
    decreases |rounds|
  {
    if !s.stopped && rounds != [] {
      RoundRemembers(s, text, rounds[0]);
      hide RunRound;
      if RunRound(s, text, rounds[0]).1.Continue? {
        RunRemembers(RunRound(s, text, rounds[0]).0, text, rounds[1..]);
      }
    }
  }

  lemma RoundRemembers(s: State, text: seq<Byte>, round: Round)
    ensures Remembers(s, RunRound(s, text, round).0)
  {
    hide Dispatch, ServeFrom;
    var prepared := Dispatch(s, round.pending);
    DispatchRemembers(s, round.pending);
    var after := Dispatch(Tick(prepared, round.waited), round.dispatched);
    DispatchRemembers(Tick(prepared, round.waited), round.dispatched);
    PassRemembers(after, text, 0, Reported(prepared.slots, round.answer), Polled(prepared.slots),
                  TurnsFor(|after.slots|, round.turns));
  }

  /** From the paste on: a descriptor that is handed over while a slot is idle, and whose reader then reads as long
      as it is served, gets the whole text and is closed once. */
  lemma SendIsDelivered(s: State, text: seq<Byte>, first: Round, rounds: seq<Round>, i: nat, fd: nat, elapsed: nat)
    requires Sound(s, text) && !s.stopped
    requires i < |s.slots| && !Active(s.slots[i]) && forall j :: 0 <= j < i ==> Active(s.slots[j])
    requires first.pending == [] && first.dispatched == [Send(fd, true, elapsed)]
    requires first.answer.Ready? && RunRound(s, text, first).1 == Continue
    requires ReachedIn(s, text, first, i).now + TurnsFor(|s.slots|, first.turns)[i].elapsed
               < s.now + first.waited + elapsed + 2000
    requires |rounds| >= 1 && |rounds| >= |text|
    requires KindRun(RunRound(s, text, first).0, text, rounds, i, |s.deliveries|)
    ensures var end, k := Run(s, text, [first] + rounds).0, |s.deliveries|;
            && k < |end.deliveries| && end.deliveries[k].fd == fd
            && end.deliveries[k].bytes == text && end.deliveries[k].closes == 1
  {
    hide Sound, RunRound, Serves, KindRun, ReachedIn;
    var s' := RunRound(s, text, first).0;
    RoundAccepts(s, text, first, i, fd, elapsed);
    RoundKeepsSound(s, text, first);
    assert ([first] + rounds)[1..] == rounds;
    assert Run(s, text, [first] + rounds) == Run(s', text, rounds);
    DeliversEverything(s', text, rounds, i, |s.deliveries|);
    RunRemembers(s', text, rounds);
  }

  /** So it is with the first paste after the start. */
  lemma FirstPasteIsDelivered(text: seq<Byte>, now: int, first: Round, rounds: seq<Round>, fd: nat, elapsed: nat)
    requires first.pending == [] && first.dispatched == [Send(fd, true, elapsed)]
             && !first.flushFails && !first.dispatchFails
    requires first.answer.Ready? && !first.answer.displayFailed && !(first.answer.input && first.readFails)
    requires TurnsFor(MAX_TRANSFERS, first.turns)[0].elapsed < 2000
    requires |rounds| >= 1 && |rounds| >= |text| && KindRun(RunRound(Start(now), text, first).0, text, rounds, 0, 0)
    ensures var end := Run(Start(now), text, [first] + rounds).0;
            && |end.deliveries| > 0 && end.deliveries[0].fd == fd
            && end.deliveries[0].bytes == text && end.deliveries[0].closes == 1
  {
    hide Sound, ServeFrom, KindRun, Run;
    ServerIsSound(text, now, []);
    NothingRun(text, now);
    RoundGoesOn(Start(now), text, first);
    OneEvent(Start(now), Tick(Start(now), first.waited), first.dispatched[0]);
    AcceptTakesFirstIdle(Tick(Tick(Start(now), first.waited), elapsed), fd, true);
    SendIsDelivered(Start(now), text, first, rounds, 0, fd, elapsed);
  }

  lemma NothingRun(text: seq<Byte>, now: int)
    ensures Run(Start(now), text, []).0 == Start(now)
  {
  }
}

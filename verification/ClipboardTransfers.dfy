/**
 The clipboard owner's transfer loop (native/wayland-clipboard/wayland-clipboard.c): eight slots, each
 sending the same text to one reader, served by a poll loop with deadlines.

 The specification is a set of functions on a state that also remembers, for every descriptor the
 compositor ever handed over, what was written to it and how often it was closed.  The class runs the
 loop on the fixed array the source uses; everything outside (the compositor's events, poll's answers,
 the results of write, the clock) comes in as a script of rounds.
 */
module ClipboardTransfers {
  import opened Common

  const MAX_TRANSFERS := 8
  const TRANSFER_TIMEOUT_MS := 2000
  const CHUNK := 65536
  const IDLE := -1

  type Byte = bv8

  /** One entry of transfers[]; `ticket` is bookkeeping: which handed-over descriptor it serves. */
  datatype Slot = Slot(fd: int, offset: nat, deadline: int, ticket: nat)

  /** What became of one handed-over descriptor; `stale` counts writes made on a readiness that poll had
      reported for another occupant of the slot. */
  datatype Delivery = Delivery(fd: int, bytes: seq<Byte>, closes: nat, stale: nat)

  datatype State = State(slots: seq<Slot>, deliveries: seq<Delivery>, now: int, stopped: bool)

  predicate Active(slot: Slot) { slot.fd != IDLE }

  // ---------------------------------------------------------------- steps

  // Time only moves forward (CLOCK_MONOTONIC).
  function Tick(s: State, elapsed: nat): State { s.(now := s.now + elapsed) }

  function FirstIdle(slots: seq<Slot>): (i: nat)
    ensures i <= |slots| && (i < |slots| ==> !Active(slots[i]))
    ensures forall j :: 0 <= j < i ==> Active(slots[j])
  {
    if slots == [] || !Active(slots[0]) then 0 else 1 + FirstIdle(slots[1..])
  }

  /** source_send: the first idle slot takes the descriptor, unless it cannot be made non-blocking;
      otherwise it is closed at once. */
  function Accept(s: State, fd: int, nonblocking: bool): (s': State)
    ensures |s'.slots| == |s.slots|
  {
    var i := FirstIdle(s.slots);
    var ticket := |s.deliveries|;
    if i < |s.slots| && nonblocking then
      s.(slots := s.slots[i := Slot(fd, 0, s.now + TRANSFER_TIMEOUT_MS, ticket)],
         deliveries := s.deliveries + [Delivery(fd, [], 0, 0)])
    else s.(deliveries := s.deliveries + [Delivery(fd, [], 1, 0)])
  }

  function CloseTransfer(s: State, i: nat): State
    requires i < |s.slots|
  {
    var k := s.slots[i].ticket;
    s.(slots := s.slots[i := s.slots[i].(fd := IDLE)],
       deliveries := if k < |s.deliveries|
                     then s.deliveries[k := s.deliveries[k].(closes := s.deliveries[k].closes + 1)]
                     else s.deliveries)
  }

  /** What poll said of one entry: POLLOUT, and any of POLLERR, POLLHUP, POLLNVAL. */
  datatype Events = Events(out: bool, failed: bool)
  datatype WriteResult = Wrote(count: nat) | WouldBlock | Failed

  /** The outside of one turn of the serving loop: time before the check, write's answer, time after it. */
  datatype Turn = Turn(elapsed: nat, result: WriteResult, elapsedAfter: nat)

  function Request(text: seq<Byte>, slot: Slot): nat {
    var remaining := if slot.offset <= |text| then |text| - slot.offset else 0;
    if remaining > CHUNK then CHUNK else remaining
  }

  // write never reports more than it was asked to write.
  function Count(result: WriteResult, request: nat): nat {
    if result.Wrote? then if result.count <= request then result.count else request else 0
  }

  function Record(s: State, slot: Slot, text: seq<Byte>, count: nat, polled: int): State {
    var k := slot.ticket;
    if k >= |s.deliveries| || slot.offset + count > |text| then s
    else
      var d := s.deliveries[k];
      s.(deliveries := s.deliveries[k := d.(bytes := d.bytes + text[slot.offset..slot.offset + count],
                                            stale := d.stale + if polled == k then 0 else 1)])
  }

  // Progress moves the offset and renews the deadline.
  function Advance(s: State, i: nat, count: nat, elapsed: nat): State
    requires i < |s.slots|
  {
    if count == 0 then s
    else
      var s' := Tick(s, elapsed);
      var slot := s.slots[i].(offset := s.slots[i].offset + count, deadline := s'.now + TRANSFER_TIMEOUT_MS);
      s'.(slots := s.slots[i := slot])
  }

  /** One turn of the serving loop for slot i; `polled` is the ticket the slot held when poll was called. */
  function Serve(s: State, text: seq<Byte>, i: nat, events: Events, polled: int, turn: Turn): State
    requires i < |s.slots|
  {
    if !Active(s.slots[i]) then s
    else
      var s1 := Tick(s, turn.elapsed);
      var slot := s.slots[i];
      if s1.now >= slot.deadline || events.failed then CloseTransfer(s1, i)
      else if !events.out then s1
      else
        var count := Count(turn.result, Request(text, slot));
        var s2 := Advance(Record(s1, slot, text, count, polled), i, count, turn.elapsedAfter);
        if slot.offset + count == |text| || turn.result.Failed? then CloseTransfer(s2, i) else s2
  }

  function ServeFrom(s: State, text: seq<Byte>, i: nat, events: seq<Events>, polled: seq<int>, turns: seq<Turn>): State
    requires |events| == |polled| == |turns| == |s.slots| && i <= |s.slots|
    decreases |s.slots| - i
  {
    if i == |s.slots| then s
    else ServeFrom(Serve(s, text, i, events[i], polled[i], turns[i]), text, i + 1, events, polled, turns)
  }

  /** The tickets that poll is asked about: -1 for an entry it skips. */
  function Polled(slots: seq<Slot>): seq<int> {
    seq(|slots|, i requires 0 <= i < |slots| => if Active(slots[i]) then slots[i].ticket else -1)
  }

  /** The shortest time to a deadline, or -1 with nothing to wait for. */
  function Timeout(slots: seq<Slot>, now: int): int {
    if slots == [] then -1
    else
      var slot := slots[|slots| - 1];
      var before := Timeout(slots[..|slots| - 1], now);
      if !Active(slot) then before
      else
        var remaining := if slot.deadline < now then 0 else slot.deadline - now;
        if before == -1 || remaining < before then remaining else before
  }

  // ---------------------------------------------------------------- rounds

  /** What a dispatch can bring: a descriptor to serve, or the end of the ownership. */
  datatype Event = Send(fd: nat, nonblocking: bool, elapsed: nat) | Stop

  function Dispatch(s: State, events: seq<Event>): (s': State)
    ensures |s'.slots| == |s.slots|
  {
    if events == [] then s
    else
      Happens(Dispatch(s, events[..|events| - 1]), events[|events| - 1])
  }

  function Happens(s: State, event: Event): (s': State)
    ensures |s'.slots| == |s.slots|
  {
    match event
    case Send(fd, nonblocking, elapsed) => Accept(Tick(s, elapsed), fd, nonblocking)
    case Stop => s.(stopped := true)
  }

  datatype Answer = Interrupted | PollFailed | Ready(input: bool, displayFailed: bool, slots: seq<Events>)

  /** Everything outside that one turn of serve's loop meets. */
  datatype Round = Round(
    pending: seq<Event>, pendingFails: bool, flushFails: bool, waited: nat,
    answer: Answer, readFails: bool, dispatched: seq<Event>, dispatchFails: bool, turns: seq<Turn>)

  datatype Verdict = Continue | Exit(code: int)

  const CLEAR := Events(false, false)

  // poll leaves the events of a negative descriptor empty.
  function Reported(slots: seq<Slot>, answer: Answer): (events: seq<Events>)
    ensures |events| == |slots|
    ensures forall i :: 0 <= i < |slots| && !Active(slots[i]) ==> events[i] == CLEAR
  {
    seq(|slots|, i requires 0 <= i < |slots| =>
      if Active(slots[i]) && answer.Ready? && i < |answer.slots| then answer.slots[i] else CLEAR)
  }

  function TurnsFor(n: nat, turns: seq<Turn>): (r: seq<Turn>)
    ensures |r| == n
  {
    seq(n, i requires 0 <= i < n => if i < |turns| then turns[i] else Turn(0, WouldBlock, 0))
  }

  function RunRound(s: State, text: seq<Byte>, round: Round): (State, Verdict) {
    var prepared := Dispatch(s, round.pending);
    if round.pending != [] && (round.pendingFails || prepared.stopped) then (prepared, Exit(0))
    else if round.flushFails then (prepared, Exit(-1))
    else
      var waited := Tick(prepared, round.waited);
      if round.answer.Ready? && round.answer.input && round.readFails then (waited, Exit(-1))
      else if round.answer.Interrupted? then (waited, Continue)
      else if round.answer.PollFailed? || round.answer.displayFailed then (waited, Exit(-1))
      else
        var after := Dispatch(waited, round.dispatched);
        if round.dispatchFails then (after, Exit(-1))
        else
          (ServeFrom(after, text, 0, Reported(prepared.slots, round.answer), Polled(prepared.slots),
                     TurnsFor(|after.slots|, round.turns)),
           Continue)
  }

  /** serve(): rounds until the ownership ends, something fails, or the script does. */
  function Run(s: State, text: seq<Byte>, rounds: seq<Round>): (State, Option<int>)
    decreases |rounds|
  {
    if s.stopped then (s, Some(0))
    else if rounds == [] then (s, None)
    else
      var (s', verdict) := RunRound(s, text, rounds[0]);
      if verdict.Exit? then (s', Some(verdict.code)) else Run(s', text, rounds[1..])
  }

  // ---------------------------------------------------------------- what every run keeps

  /**
   Every descriptor handed over so far sits in exactly one slot and is open, or is in no slot and has
   been closed exactly once; what was written to it is a prefix of the text, as long as its slot's
   offset; nothing was ever written on a stale readiness; and no deadline lies further off than the
   timeout.
   */
  ghost predicate Sound(s: State, text: seq<Byte>) {
    && |s.slots| == MAX_TRANSFERS
    && (forall i :: 0 <= i < |s.slots| && Active(s.slots[i]) ==> Serving(s, text, s.slots[i]))
    && (forall i, j :: 0 <= i < j < |s.slots| && Active(s.slots[i]) && Active(s.slots[j]) ==>
          s.slots[i].ticket != s.slots[j].ticket)
    && (forall k :: 0 <= k < |s.deliveries| ==>
          && s.deliveries[k].bytes <= text
          && s.deliveries[k].stale == 0
          && s.deliveries[k].closes == if Held(s, k) then 0 else 1)
  }

  ghost predicate Serving(s: State, text: seq<Byte>, slot: Slot) {
    && slot.ticket < |s.deliveries|
    && s.deliveries[slot.ticket].fd == slot.fd
    && slot.offset <= |text|
    && s.deliveries[slot.ticket].bytes == text[..slot.offset]
    && slot.deadline <= s.now + TRANSFER_TIMEOUT_MS
  }

  ghost predicate Held(s: State, k: nat) {
    exists i :: 0 <= i < |s.slots| && Active(s.slots[i]) && s.slots[i].ticket == k
  }

  lemma TickKeepsSound(s: State, text: seq<Byte>, elapsed: nat)
    requires Sound(s, text)
    ensures Sound(Tick(s, elapsed), text)
  {
    var s' := Tick(s, elapsed);
    assert forall k :: Held(s', k) <==> Held(s, k);
    forall i | 0 <= i < |s.slots| && Active(s.slots[i]) ensures Serving(s', text, s'.slots[i]) {
      assert Serving(s, text, s.slots[i]);
    }
  }

  lemma AcceptKeepsSound(s: State, text: seq<Byte>, fd: int, nonblocking: bool)
    requires Sound(s, text) && fd != IDLE
    ensures Sound(Accept(s, fd, nonblocking), text)
  {
    var s' := Accept(s, fd, nonblocking);
    var at := FirstIdle(s.slots);
    var ticket := |s.deliveries|;
    forall i | 0 <= i < |s.slots| && Active(s.slots[i]) ensures Serving(s', text, s.slots[i]) {
      assert Serving(s, text, s.slots[i]);
    }
    var taken := at < |s.slots| && nonblocking;
    forall k | 0 <= k < |s'.deliveries| ensures Held(s', k) <==> if k == ticket then taken else Held(s, k) {
      if taken {
        assert s'.slots[at].ticket == ticket;
      }
      if k < ticket && Held(s, k) {
        var i :| 0 <= i < |s.slots| && Active(s.slots[i]) && s.slots[i].ticket == k;
        assert s'.slots[i] == s.slots[i];
      }
      if Held(s', k) {
        var i :| 0 <= i < |s'.slots| && Active(s'.slots[i]) && s'.slots[i].ticket == k;
        assert !taken || i != at ==> s.slots[i] == s'.slots[i] && Serving(s, text, s.slots[i]);
      }
    }
  }

  lemma CloseKeepsSound(s: State, text: seq<Byte>, i: nat)
    requires Sound(s, text) && i < |s.slots| && Active(s.slots[i])
    ensures Sound(CloseTransfer(s, i), text)
  {
    var s' := CloseTransfer(s, i);
    var ticket := s.slots[i].ticket;
    assert Serving(s, text, s.slots[i]);
    forall j | 0 <= j < |s'.slots| && Active(s'.slots[j]) ensures Serving(s', text, s'.slots[j]) {
      assert Serving(s, text, s.slots[j]);
    }
    forall k | 0 <= k < |s.deliveries| ensures Held(s', k) <==> k != ticket && Held(s, k) {
      if Held(s', k) {
        var j :| 0 <= j < |s'.slots| && Active(s'.slots[j]) && s'.slots[j].ticket == k;
        assert s.slots[j] == s'.slots[j];
      }
      if k != ticket && Held(s, k) {
        var j :| 0 <= j < |s.slots| && Active(s.slots[j]) && s.slots[j].ticket == k;
        assert s'.slots[j] == s.slots[j];
      }
    }
    assert Held(s, ticket);
  }

  // Being held depends only on which tickets the active slots have.
  lemma HeldSame(s: State, s': State, k: nat)
    requires |s.slots| == |s'.slots|
    requires forall i :: 0 <= i < |s.slots| ==>
               (Active(s.slots[i]) <==> Active(s'.slots[i])) && s.slots[i].ticket == s'.slots[i].ticket
    ensures Held(s, k) <==> Held(s', k)
  {
  }

  // Writing count bytes from slot i's offset on, on the readiness of its own occupant.
  lemma WriteKeepsSound(s: State, text: seq<Byte>, i: nat, count: nat, elapsed: nat)
    requires Sound(s, text) && i < |s.slots| && Active(s.slots[i]) && s.slots[i].offset + count <= |text|
    ensures Sound(Advance(Record(s, s.slots[i], text, count, s.slots[i].ticket), i, count, elapsed), text)
  {
    var slot := s.slots[i];
    assert Serving(s, text, slot);
    var s' := Advance(Record(s, slot, text, count, slot.ticket), i, count, elapsed);
    assert text[..slot.offset] + text[slot.offset..slot.offset + count] == text[..slot.offset + count];
    forall j | 0 <= j < |s'.slots| && Active(s'.slots[j]) ensures Serving(s', text, s'.slots[j]) {
      assert Serving(s, text, s.slots[j]);
    }
    forall k | 0 <= k < |s.deliveries| ensures Held(s', k) <==> Held(s, k) {
      hide Held;
      HeldSame(s, s', k);
    }
  }

  lemma ServeKeepsSound(s: State, text: seq<Byte>, i: nat, events: Events, polled: int, turn: Turn)
    requires Sound(s, text) && i < |s.slots|
    requires events != CLEAR ==> Active(s.slots[i]) && s.slots[i].ticket == polled
    ensures Sound(Serve(s, text, i, events, polled, turn), text)
    ensures |Serve(s, text, i, events, polled, turn).slots| == |s.slots|
    ensures forall j :: 0 <= j < |s.slots| && j != i ==> Serve(s, text, i, events, polled, turn).slots[j] == s.slots[j]
  {
    hide Sound, Record;
    if Active(s.slots[i]) {
      var s1 := Tick(s, turn.elapsed);
      var slot := s.slots[i];
      TickKeepsSound(s, text, turn.elapsed);
      if s1.now >= slot.deadline || events.failed {
        CloseKeepsSound(s1, text, i);
      } else if events.out {
        var count := Count(turn.result, Request(text, slot));
        assert slot.offset <= |text| by { OffsetFits(s, text, i); }
        WriteKeepsSound(s1, text, i, count, turn.elapsedAfter);
        RecordKeepsSlots(s1, slot, text, count, polled);
        if slot.offset + count == |text| || turn.result.Failed? {
          CloseKeepsSound(Advance(Record(s1, slot, text, count, polled), i, count, turn.elapsedAfter), text, i);
        }
      }
    }
  }

  lemma OffsetFits(s: State, text: seq<Byte>, i: nat)
    requires Sound(s, text) && i < |s.slots| && Active(s.slots[i])
    ensures s.slots[i].offset <= |text|
  {
    assert Serving(s, text, s.slots[i]);
  }

  lemma RecordKeepsSlots(s: State, slot: Slot, text: seq<Byte>, count: nat, polled: int)
    ensures Record(s, slot, text, count, polled).slots == s.slots
  {
  }

  // From slot i on, whatever poll reported is about the slot's present occupant.
  ghost predicate Current(s: State, i: nat, events: seq<Events>, polled: seq<int>)
    requires |events| == |polled| == |s.slots|
  {
    forall j :: i <= j < |s.slots| && events[j] != CLEAR ==> Active(s.slots[j]) && s.slots[j].ticket == polled[j]
  }

  lemma {:induction false} ServeFromKeepsSound(s: State, text: seq<Byte>, i: nat, events: seq<Events>,
                                               polled: seq<int>, turns: seq<Turn>)
    requires |events| == |polled| == |turns| == |s.slots| && i <= |s.slots|
    requires Sound(s, text) && Current(s, i, events, polled)
    ensures Sound(ServeFrom(s, text, i, events, polled, turns), text)
    decreases |s.slots| - i
  {
    hide Sound, Serve;
    if i < |s.slots| {
      ServeKeepsSound(s, text, i, events[i], polled[i], turns[i]);
      ServeFromKeepsSound(Serve(s, text, i, events[i], polled[i], turns[i]), text, i + 1, events, polled, turns);
    }
  }

  /** Dispatching fills only idle slots: an occupied one keeps its occupant. */
  lemma {:induction false} DispatchKeepsSound(s: State, text: seq<Byte>, events: seq<Event>)
    requires Sound(s, text)
    ensures Sound(Dispatch(s, events), text)
    ensures |Dispatch(s, events).slots| == |s.slots|
    ensures forall i :: 0 <= i < |s.slots| && Active(s.slots[i]) ==> Dispatch(s, events).slots[i] == s.slots[i]
  {
    if events != [] {
      DispatchKeepsSound(s, text, events[..|events| - 1]);
      var rest := Dispatch(s, events[..|events| - 1]);
      match events[|events| - 1]
      case Send(fd, nonblocking, elapsed) =>
        TickKeepsSound(rest, text, elapsed);
        AcceptKeepsSound(Tick(rest, elapsed), text, fd, nonblocking);
      case Stop =>
        StopKeepsSound(rest, text);
    }
  }

  lemma StopKeepsSound(s: State, text: seq<Byte>)
    requires Sound(s, text)
    ensures Sound(s.(stopped := true), text)
  {
    var s' := s.(stopped := true);
    assert forall k :: Held(s', k) <==> Held(s, k);
    forall i | 0 <= i < |s.slots| && Active(s.slots[i]) ensures Serving(s', text, s'.slots[i]) {
      assert Serving(s, text, s.slots[i]);
    }
  }

  lemma RoundKeepsSound(s: State, text: seq<Byte>, round: Round)
    requires Sound(s, text)
    ensures Sound(RunRound(s, text, round).0, text)
  {
    hide Sound, ServeFrom, Dispatch;
    var prepared := Dispatch(s, round.pending);
    DispatchKeepsSound(s, text, round.pending);
    var waited := Tick(prepared, round.waited);
    TickKeepsSound(prepared, text, round.waited);
    var after := Dispatch(waited, round.dispatched);
    DispatchKeepsSound(waited, text, round.dispatched);
    ServeFromKeepsSound(after, text, 0, Reported(prepared.slots, round.answer), Polled(prepared.slots),
          TurnsFor(|after.slots|, round.turns));
  }

  /** Safety over every run: whatever the compositor, poll, write and the clock do. */
  lemma {:induction false} RunKeepsSound(s: State, text: seq<Byte>, rounds: seq<Round>)
    requires Sound(s, text)
    ensures Sound(Run(s, text, rounds).0, text)
    decreases |rounds|
  {
    hide Sound, RunRound;
    if !s.stopped && rounds != [] {
      RoundKeepsSound(s, text, rounds[0]);
      var (s', verdict) := RunRound(s, text, rounds[0]);
      if verdict.Continue? {
        RunKeepsSound(s', text, rounds[1..]);
      }
    }
  }

  function Start(now: int): State {
    State(seq(MAX_TRANSFERS, _ => Slot(IDLE, 0, 0, 0)), [], now, false)
  }

  lemma ServerIsSound(text: seq<Byte>, now: int, rounds: seq<Round>)
    ensures Sound(Run(Start(now), text, rounds).0, text)
  {
    assert Sound(Start(now), text);
    RunKeepsSound(Start(now), text, rounds);
  }

  /** The poll timeout is -1 exactly when no transfer is active; otherwise it is the time to the nearest
      deadline, between 0 and the transfer timeout. */
  lemma {:induction false} TimeoutIsNearest(slots: seq<Slot>, now: int)
    requires forall i :: 0 <= i < |slots| && Active(slots[i]) ==> slots[i].deadline <= now + TRANSFER_TIMEOUT_MS
    ensures var t := Timeout(slots, now);
            && (t == -1 <==> forall i :: 0 <= i < |slots| ==> !Active(slots[i]))
            && -1 <= t <= TRANSFER_TIMEOUT_MS
            && (forall i :: 0 <= i < |slots| && Active(slots[i]) ==> t <= 0 || now + t <= slots[i].deadline)
            && (t >= 0 ==> exists i :: 0 <= i < |slots| && Active(slots[i])
                                       && t == if slots[i].deadline < now then 0 else slots[i].deadline - now)
  {
    if slots != [] {
      TimeoutIsNearest(slots[..|slots| - 1], now);
    }
  }

  lemma TimeoutInRange(s: State, text: seq<Byte>)
    requires Sound(s, text)
    ensures Timeout(s.slots, s.now) == -1 <==> forall i :: 0 <= i < |s.slots| ==> !Active(s.slots[i])
    ensures Timeout(s.slots, s.now) != -1 ==> 0 <= Timeout(s.slots, s.now) <= TRANSFER_TIMEOUT_MS
  {
    forall i | 0 <= i < |s.slots| && Active(s.slots[i]) ensures s.slots[i].deadline <= s.now + TRANSFER_TIMEOUT_MS {
      assert Serving(s, text, s.slots[i]);
    }
    TimeoutIsNearest(s.slots, s.now);
  }

  /** A pass leaves no transfer open that has sent everything or has made no progress for the timeout. */
  lemma {:induction false} PassExpires(s: State, text: seq<Byte>, i: nat, events: seq<Events>, polled: seq<int>,
                                       turns: seq<Turn>)
    requires |events| == |polled| == |turns| == |s.slots| && i <= |s.slots|
    ensures var s' := ServeFrom(s, text, i, events, polled, turns);
            && s'.now >= s.now && |s'.slots| == |s.slots|
            && (forall j :: 0 <= j < i ==> s'.slots[j] == s.slots[j])
            && (forall j :: i <= j < |s.slots| && Active(s'.slots[j]) ==>
                  && Active(s.slots[j]) && s'.slots[j].ticket == s.slots[j].ticket
                  && s'.slots[j].deadline > s.now
                  && (s'.slots[j].offset > s.slots[j].offset || s'.slots[j] == s.slots[j])
                  && (events[j].out ==> s'.slots[j].offset != |text|)
                  && !events[j].failed)
    decreases |s.slots| - i
  {
    if i < |s.slots| {
      hide Serve;
      var served := Serve(s, text, i, events[i], polled[i], turns[i]);
      ServeOne(s, text, i, events[i], polled[i], turns[i]);
      PassExpires(served, text, i + 1, events, polled, turns);
    }
  }

  lemma ServeOne(s: State, text: seq<Byte>, i: nat, events: Events, polled: int, turn: Turn)
    requires i < |s.slots|
    ensures var s' := Serve(s, text, i, events, polled, turn);
            && s'.now >= s.now && |s'.slots| == |s.slots|
            && (forall j :: 0 <= j < |s.slots| && j != i ==> s'.slots[j] == s.slots[j])
            && (Active(s'.slots[i]) ==>
                  && Active(s.slots[i]) && s'.slots[i].ticket == s.slots[i].ticket
                  && s'.slots[i].deadline > s.now
                  && (s'.slots[i].offset > s.slots[i].offset || s'.slots[i] == s.slots[i])
                  && (events.out ==> s'.slots[i].offset != |text|)
                  && !events.failed)
  {
  }

  // ---------------------------------------------------------------- what one step does

  /** A descriptor that can be made non-blocking takes the first idle slot, from the start of the text and with
      two seconds to go; otherwise it is closed, once, and no slot changes. */
  lemma AcceptTakesFirstIdle(s: State, fd: int, nonblocking: bool)
    ensures var s' := Accept(s, fd, nonblocking);
            && (forall i: nat :: nonblocking && i < |s.slots| && s.slots[i].fd == -1
                                 && (forall j :: 0 <= j < i ==> s.slots[j].fd != -1) ==>
                  && s'.slots == s.slots[i := Slot(fd, 0, s.now + 2000, |s.deliveries|)]
                  && s'.deliveries == s.deliveries + [Delivery(fd, [], 0, 0)])
            && (!nonblocking || (forall i :: 0 <= i < |s.slots| ==> s.slots[i].fd != -1) ==>
                  s'.slots == s.slots && s'.deliveries == s.deliveries + [Delivery(fd, [], 1, 0)])
            && s'.now == s.now && s'.stopped == s.stopped
  {
    forall i: nat | i < |s.slots| && s.slots[i].fd == -1 && (forall j :: 0 <= j < i ==> s.slots[j].fd != -1)
      ensures FirstIdle(s.slots) == i
    {
      FirstIdleIs(s.slots, i);
    }
  }

  /** What the descriptor takes in one turn. */
  function Taken(text: seq<Byte>, slot: Slot, events: Events, result: WriteResult): nat {
    if !events.out || !result.Wrote? || slot.offset > |text| then 0
    else
      var left := |text| - slot.offset;
      var asked := if left < 65536 then left else 65536;
      if result.count < asked then result.count else asked
  }

  /** A transfer is open after its turn exactly if its deadline has not come, nothing is wrong with the descriptor,
      and, when it was written to, the write did not fail and something is left to send; its offset is then
      further by what was taken, and its deadline renewed if anything was. */
  lemma TurnDecides(s: State, text: seq<Byte>, i: nat, events: Events, polled: int, turn: Turn)
    requires i < |s.slots| && s.slots[i].fd != -1 && s.slots[i].offset <= |text|
    ensures var slot, s' := s.slots[i], Serve(s, text, i, events, polled, turn);
            var taken := Taken(text, slot, events, turn.result);
            && |s'.slots| == |s.slots|
            && (s'.slots[i].fd != -1
                <==> && s.now + turn.elapsed < slot.deadline && !events.failed
                     && (events.out ==> !turn.result.Failed? && slot.offset + taken < |text|))
            && (s'.slots[i].fd != -1 ==>
                  s'.slots[i] == Slot(slot.fd, slot.offset + taken,
                                      if taken > 0 then s.now + turn.elapsed + turn.elapsedAfter + 2000
                                      else slot.deadline,
                                      slot.ticket))
  {
  }

  /** When a round goes on, and with which code the loop is left otherwise. */
  lemma RoundGoesOn(s: State, text: seq<Byte>, round: Round)
    ensures var verdict := RunRound(s, text, round).1;
            var over := round.pending != [] && (round.pendingFails || s.stopped || Stop in round.pending);
            var a := round.answer;
            var failed := a.PollFailed?
                          || (a.Ready? && ((a.input && round.readFails) || a.displayFailed || round.dispatchFails));
            verdict == if over then Exit(0) else if round.flushFails || failed then Exit(-1) else Continue
  {
    StopsWhenTold(s, round.pending);
  }

  lemma {:induction false} StopsWhenTold(s: State, events: seq<Event>)
    ensures Dispatch(s, events).stopped <==> s.stopped || Stop in events
  {
    if events != [] {
      var before, last := events[..|events| - 1], events[|events| - 1];
      assert events == before + [last];
      StopsWhenTold(s, before);
    }
  }

  // ---------------------------------------------------------------- the server itself

  lemma FirstIdleIs(slots: seq<Slot>, i: nat)
    requires i < |slots| && !Active(slots[i]) && forall j :: 0 <= j < i ==> Active(slots[j])
    ensures FirstIdle(slots) == i
  {
  }

  lemma DispatchOne(s: State, events: seq<Event>, i: nat)
    requires i < |events|
    ensures Dispatch(s, events[..i + 1]) == Happens(Dispatch(s, events[..i]), events[i])
  {
    assert events[..i + 1][..i] == events[..i];
  }

  class Server {
    const text: seq<Byte>
    const transfers: array<Slot>
    var deliveries: seq<Delivery>   // bookkeeping only
    var now: int
    var stopped: bool

    constructor (text: seq<Byte>, now: int)
      ensures Snapshot() == Start(now) && this.text == text && fresh(transfers) && transfers.Length == MAX_TRANSFERS
    {
      this.text := text;
      transfers := new Slot[MAX_TRANSFERS](_ => Slot(IDLE, 0, 0, 0));
      deliveries, this.now, stopped := [], now, false;
    }

    function Snapshot(): State
      reads this, transfers
    {
      State(transfers[..], deliveries, now, stopped)
    }

    method SourceSend(fd: nat, nonblocking: bool)
      modifies this`deliveries, transfers
      ensures Snapshot() == Accept(old(Snapshot()), fd, nonblocking)
    {
      var i := 0;
      while i < transfers.Length
        invariant i <= transfers.Length
        invariant forall j :: 0 <= j < i ==> Active(transfers[j])
        invariant Snapshot() == old(Snapshot())
      {
        if !Active(transfers[i]) {
          FirstIdleIs(transfers[..], i);
          if !nonblocking {
            break;
          }
          deliveries := deliveries + [Delivery(fd, [], 0, 0)];
          transfers[i] := Slot(fd, 0, now + TRANSFER_TIMEOUT_MS, |deliveries| - 1);
          return;
        }
        i := i + 1;
      }
      deliveries := deliveries + [Delivery(fd, [], 1, 0)];
    }

    method CloseSlot(i: nat)
      requires i < transfers.Length
      modifies this`deliveries, transfers
      ensures Snapshot() == CloseTransfer(old(Snapshot()), i)
    {
      var k := transfers[i].ticket;
      transfers[i] := transfers[i].(fd := IDLE);
      if k < |deliveries| {
        deliveries := deliveries[k := deliveries[k].(closes := deliveries[k].closes + 1)];
      }
    }

    /** One turn of the serving loop. */
    method ServeSlot(i: nat, events: Events, polled: int, turn: Turn)
      requires i < transfers.Length
      modifies this`deliveries, this`now, transfers
      ensures Snapshot() == Serve(old(Snapshot()), text, i, events, polled, turn)
    {
      if !Active(transfers[i]) {
        return;
      }
      now := now + turn.elapsed;
      if now >= transfers[i].deadline || events.failed {
        CloseSlot(i);
        return;
      }
      if !events.out {
        return;
      }
      var count := Count(turn.result, Request(text, transfers[i]));
      deliveries := Record(Snapshot(), transfers[i], text, count, polled).deliveries;
      if count > 0 {
        now := now + turn.elapsedAfter;
        transfers[i] := transfers[i].(offset := transfers[i].offset + count, deadline := now + TRANSFER_TIMEOUT_MS);
      }
      if transfers[i].offset == |text| || turn.result.Failed? {
        CloseSlot(i);
      }
    }

    method PollTimeout() returns (timeout: int)
      ensures timeout == Timeout(transfers[..], now)
    {
      timeout := -1;
      for i := 0 to transfers.Length
        invariant timeout == Timeout(transfers[..i], now)
      {
        assert transfers[..i + 1][..i] == transfers[..i];
        if Active(transfers[i]) {
          var remaining := transfers[i].deadline - now;
          if remaining < 0 {
            remaining := 0;
          }
          if timeout == -1 || remaining < timeout {
            timeout := remaining;
          }
        }
      }
      assert transfers[..transfers.Length] == transfers[..];
    }

    method DispatchEvents(events: seq<Event>)
      modifies this`deliveries, this`now, this`stopped, transfers
      ensures Snapshot() == Dispatch(old(Snapshot()), events)
    {
      for i := 0 to |events|
        invariant Snapshot() == Dispatch(old(Snapshot()), events[..i])
      {
        DispatchOne(old(Snapshot()), events, i);
        match events[i]
        case Send(fd, nonblocking, elapsed) =>
          now := now + elapsed;
          SourceSend(fd, nonblocking);
        case Stop =>
          stopped := true;
      }
      assert events[..|events|] == events;
    }

    method ServeAll(events: seq<Events>, polled: seq<int>, turns: seq<Turn>)
      requires |events| == |polled| == |turns| == transfers.Length
      modifies this`deliveries, this`now, transfers
      ensures Snapshot() == ServeFrom(old(Snapshot()), text, 0, events, polled, turns)
    {
      for i := 0 to transfers.Length
        invariant ServeFrom(Snapshot(), text, i, events, polled, turns)
               == ServeFrom(old(Snapshot()), text, 0, events, polled, turns)
      {
        ServeSlot(i, events[i], polled[i], turns[i]);
      }
    }

    /** serve(): the timeout handed to poll is always one that PollTimeout promises. */
    method ServeRounds(rounds: seq<Round>) returns (code: Option<int>)
      requires Sound(Snapshot(), text)
      modifies this`deliveries, this`now, this`stopped, transfers
      ensures (Snapshot(), code) == Run(old(Snapshot()), text, rounds)
      ensures Sound(Snapshot(), text)
    {
      RunKeepsSound(Snapshot(), text, rounds);
      hide Sound, Dispatch, ServeFrom;
      var r := 0;
      while !stopped && r < |rounds|
        invariant r <= |rounds| && Sound(Snapshot(), text)
        invariant Run(Snapshot(), text, rounds[r..]) == Run(old(Snapshot()), text, rounds)
      {
        var round := rounds[r];
        assert rounds[r..][0] == round && rounds[r..][1..] == rounds[r + 1..];
        RoundKeepsSound(Snapshot(), text, round);
        var verdict := ServeRound(round);
        if verdict.Exit? {
          return Some(verdict.code);
        }
        r := r + 1;
      }
      return if stopped then Some(0) else None;
    }

    method ServeRound(round: Round) returns (verdict: Verdict)
      requires Sound(Snapshot(), text)
      modifies this`deliveries, this`now, this`stopped, transfers
      ensures (Snapshot(), verdict) == RunRound(old(Snapshot()), text, round)
    {
      hide Sound, Dispatch, ServeFrom, Reported, TurnsFor;
      ghost var start := Snapshot();
      DispatchKeepsSound(start, text, round.pending);
      DispatchEvents(round.pending);
      if round.pending != [] && (round.pendingFails || stopped) {
        return Exit(0);
      }
      if round.flushFails {
        return Exit(-1);
      }
      var fds := transfers[..];
      var timeout := PollTimeout();
      TimeoutInRange(Snapshot(), text);
      assert -1 <= timeout <= TRANSFER_TIMEOUT_MS;
      now := now + round.waited;
      match round.answer
      case Interrupted =>
        return Continue;
      case PollFailed =>
        return Exit(-1);
      case Ready(input, displayFailed, _) =>
        if input && round.readFails {
          return Exit(-1);
        }
        if displayFailed {
          return Exit(-1);
        }
        DispatchEvents(round.dispatched);
        if round.dispatchFails {
          return Exit(-1);
        }
        ServeAll(Reported(fds, round.answer), Polled(fds), TurnsFor(transfers.Length, round.turns));
        return Continue;
    }
  }
}

/** The two transitions of a slot: a user click turns the actionable button
    green, and the deadline check turns it red once its predecessor was
    clicked more than a day ago. Both rebuild the whole sequence. */
module Transitions {
  import opened Slots
  import opened Progress

  /** The slot after a click at instant `now`; other fields are kept. */
  function Stamp(b: Slot, now: int): Slot {
    b.(state := Completed, clickedAt := Some(now))
  }

  /** The slot after being declared missed at `now`; other fields are kept. */
  function Miss(b: Slot, now: int): Slot {
    b.(state := Missed, missedAt := Some(now))
  }

  /** The button's enable test: only the actionable button, and only while
      it is still white, can be pressed. */
  predicate Enabled(b: Slot, nextId: int) {
    b.id == nextId && b.state == Pending
  }

  /** The click handler: ignores any id but the actionable one, and stamps
      every slot carrying that id green at `now`. It does not look at the
      slot's state. */
  function Click(s: seq<Slot>, nextId: int, id: int, now: int): (r: seq<Slot>)
    ensures |r| == |s|
    ensures id != nextId ==> r == s
    ensures id == nextId ==> forall i :: 0 <= i < |s| && s[i].id == id ==> r[i] == Stamp(s[i], now)
    ensures forall i :: 0 <= i < |s| ==> r[i].id == s[i].id
    ensures forall i :: 0 <= i < |s| && s[i].id != id ==> r[i] == s[i]
    ensures forall i :: 0 <= i < |s| && s[i].state != Pending ==> r[i].state != Pending
  {
    if id != nextId then s
    else seq(|s|, i requires 0 <= i < |s| => if s[i].id == id then Stamp(s[i], now) else s[i])
  }

  /** Whether the slot with id `id` is overdue at `now`: its predecessor
      (id - 1) exists, is green, carries a click time that is not 0 (the
      JavaScript truthiness test treats 0 as absent) and was clicked more than
      a day before `now`. */
  predicate DeadlinePassed(prev: seq<Slot>, id: int, now: int) {
    match Find(prev, id - 1)
    case None => false
    case Some(p) =>
      p.clickedAt.Some? && p.clickedAt.value != 0 && p.state == Completed
      && now - p.clickedAt.value > Day
  }

  /** What the deadline check does to one slot of `prev`. */
  function ReconcileSlot(prev: seq<Slot>, b: Slot, nextId: int, now: int): Slot {
    if b.state != Pending then b
    else if b.id != nextId then b
    else if !DeadlinePassed(prev, b.id, now) then b
    else Miss(b, now)
  }

  /** The deadline check: the actionable white slot turns red when overdue;
      green, red and other white slots are returned unchanged. */
  function CheckTimeouts(s: seq<Slot>, nextId: int, now: int): (r: seq<Slot>)
    ensures |r| == |s|
    ensures forall i :: 0 <= i < |s| ==> r[i].id == s[i].id
    ensures forall i :: 0 <= i < |s| && s[i].state != Pending ==> r[i] == s[i]
    ensures forall i :: 0 <= i < |s| && s[i].id != nextId ==> r[i] == s[i]
    ensures forall i :: 0 <= i < |s| && r[i] != s[i] ==> r[i] == Miss(s[i], now)
  {
    seq(|s|, i requires 0 <= i < |s| => ReconcileSlot(s, s[i], nextId, now))
  }

  /** The deadline rule spelled out on a well-formed sequence: slot nextId
      is white, slot nextId - 1 exists and is green with a non-zero click
      time, and strictly more than a day has passed since. */
  predicate MissDue(s: seq<Slot>, nextId: int, now: int)
    requires WellFormed(s)
  {
    2 <= nextId <= |s|
    && s[nextId - 1].state == Pending
    && s[nextId - 2].state == Completed
    && s[nextId - 2].clickedAt.Some? && s[nextId - 2].clickedAt.value != 0
    && now - s[nextId - 2].clickedAt.value > Day
  }

  /** A click on a well-formed sequence changes at most the one slot whose
      id is clicked, and that one only when it is the actionable id. */
  lemma ClickChangesOneSlot(s: seq<Slot>, nextId: int, id: int, now: int)
    requires WellFormed(s)
    ensures Click(s, nextId, id, now)
         == if id == nextId && 1 <= id <= |s| then s[id - 1 := Stamp(s[id - 1], now)] else s
  {
    var r := Click(s, nextId, id, now);
    if id == nextId && 1 <= id <= |s| {
      var t := s[id - 1 := Stamp(s[id - 1], now)];
      forall i | 0 <= i < |s| ensures r[i] == t[i] {
        assert s[i].id == i + 1;
      }
    } else if id == nextId {
      forall i | 0 <= i < |s| ensures r[i] == s[i] {
        assert s[i].id == i + 1;
      }
    }
  }

  /** An enabled button of a reachable sequence is its first white slot. */
  lemma EnabledIsFirstPending(s: seq<Slot>, i: nat)
    requires Reachable(s)
    requires i < |s|
    requires Enabled(s[i], NextButton(s))
    ensures i == FirstPending(s)
  {
    NextButtonWellFormed(s);
  }

  /** Pressing the enabled button of a reachable sequence stamps exactly that
      slot green at `now`, keeps the sequence reachable, adds one to the
      streak and advances the next id by one (capped at 100). */
  lemma ClickEnabled(s: seq<Slot>, i: nat, now: int)
    requires Reachable(s)
    requires i < |s|
    requires Enabled(s[i], NextButton(s))
    ensures Click(s, NextButton(s), s[i].id, now) == s[i := Stamp(s[i], now)]
    ensures Reachable(Click(s, NextButton(s), s[i].id, now))
    ensures Streak(Click(s, NextButton(s), s[i].id, now)) == Streak(s) + 1
    ensures NextButton(Click(s, NextButton(s), s[i].id, now)) == Cap(NextButton(s) + 1)
  {
    EnabledIsFirstPending(s, i);
    ClickChangesOneSlot(s, NextButton(s), s[i].id, now);
    var r := s[i := Stamp(s[i], now)];
    AdvanceFirstPending(s, Stamp(s[i], now));
    NextButtonWellFormed(s);
    NextButtonWellFormed(r);
  }

  /** Without the enable test the handler re-stamps an already green slot:
      once all slots are green the next id stays capped at 100, and a click
      on 100 overwrites its click time. */
  lemma ClickWithoutGuardRestamps(s: seq<Slot>, now: int)
    requires WellFormed(s)
    requires forall i :: 0 <= i < |s| ==> s[i].state == Completed
    ensures NextButton(s) == Total
    ensures Click(s, NextButton(s), Total, now)[Total - 1].clickedAt == Some(now)
  {
    FirstPendingUnique(s, |s|);
    NextButtonWellFormed(s);
    ClickChangesOneSlot(s, Total, Total, now);
  }

  /** Reconciliation on a well-formed sequence: it changes nothing unless the
      deadline rule holds, and then touches only slot nextId, turning it red
      at `now`. */
  lemma CheckTimeoutsExact(s: seq<Slot>, nextId: int, now: int)
    requires WellFormed(s)
    ensures CheckTimeouts(s, nextId, now)
         == if MissDue(s, nextId, now) then s[nextId - 1 := Miss(s[nextId - 1], now)] else s
  {
    var r := CheckTimeouts(s, nextId, now);
    FindWellFormed(s, nextId - 1);
    forall i | 0 <= i < |s|
      ensures r[i] == if MissDue(s, nextId, now) && i == nextId - 1 then Miss(s[i], now) else s[i]
    {
      assert s[i].id == i + 1;
    }
  }

  /** Slot 1 has no predecessor and so can never be missed. */
  lemma FirstSlotNeverMissed(s: seq<Slot>, nextId: int, now: int)
    requires WellFormed(s)
    ensures CheckTimeouts(s, nextId, now)[0] == s[0]
  {
    CheckTimeoutsExact(s, nextId, now);
  }

  /** The comparison is strict: exactly 24 hours after the predecessor's
      click, nothing is missed. */
  lemma ExactlyOneDayIsInTime(s: seq<Slot>, nextId: int, now: int)
    requires WellFormed(s)
    requires 2 <= nextId <= |s|
    requires s[nextId - 2].clickedAt.Some? && now == s[nextId - 2].clickedAt.value + Day
    ensures CheckTimeouts(s, nextId, now) == s
  {
    CheckTimeoutsExact(s, nextId, now);
  }

  /** Reconciliation is idempotent for a fixed `nextId` and `now`: the slot
      it turned red is no longer white, and the predecessor it consulted is
      unchanged. */
  lemma CheckTimeoutsIdempotent(s: seq<Slot>, nextId: int, now: int)
    ensures CheckTimeouts(CheckTimeouts(s, nextId, now), nextId, now) == CheckTimeouts(s, nextId, now)
  {
    var r := CheckTimeouts(s, nextId, now);
    var rr := CheckTimeouts(r, nextId, now);
    forall i | 0 <= i < |s| ensures rr[i] == r[i] {
      if r[i] == s[i] && s[i].state == Pending && s[i].id == nextId {
        FindIndexSameIds(s, r, nextId - 1);
        var k := FindIndex(s, nextId - 1);
        assert k < |s| ==> r[k] == s[k];
        assert DeadlinePassed(r, nextId, now) == DeadlinePassed(s, nextId, now);
      }
    }
  }

  /** Reconciliation with the current next id keeps a reachable sequence
      reachable and keeps the streak; when it misses a slot, the next id
      advances by one (capped at 100). */
  lemma CheckTimeoutsReachable(s: seq<Slot>, now: int)
    requires Reachable(s)
    ensures Reachable(CheckTimeouts(s, NextButton(s), now))
    ensures Streak(CheckTimeouts(s, NextButton(s), now)) == Streak(s)
    ensures NextButton(CheckTimeouts(s, NextButton(s), now))
         == if MissDue(s, NextButton(s), now) then Cap(NextButton(s) + 1) else NextButton(s)
  {
    var n := NextButton(s);
    CheckTimeoutsExact(s, n, now);
    if MissDue(s, n, now) {
      EnabledIsFirstPending(s, n - 1);
      var r := s[n - 1 := Miss(s[n - 1], now)];
      AdvanceFirstPending(s, Miss(s[n - 1], now));
      NextButtonWellFormed(s);
      NextButtonWellFormed(r);
    }
  }

  /** A click followed by a deadline check never turns a green or red slot
      back to white, so the next id cannot move backwards. */
  lemma TransitionsAdvanceNext(s: seq<Slot>, nextId: int, id: int, now: int)
    requires WellFormed(s)
    ensures NextButton(s) <= NextButton(Click(s, nextId, id, now))
    ensures NextButton(s) <= NextButton(CheckTimeouts(s, nextId, now))
  {
    NextButtonMonotone(s, Click(s, nextId, id, now));
    NextButtonMonotone(s, CheckTimeouts(s, nextId, now));
  }

  /** The worked scenario: slot 1 clicked at t0 (non-zero); 23 hours later
      nothing is missed; 25 hours later slot 2 turns red, the next id is 3
      and the streak stays 1; clicking slot 3 then gives streak 2, because a
      red slot does not end the streak count. */
  lemma MissThenContinue(t0: int)
    requires t0 != 0
    ensures var s1 := Click(Fresh(), 1, 1, t0);
      Streak(s1) == 1 && NextButton(s1) == 2
      && CheckTimeouts(s1, 2, t0 + 23 * 60 * 60 * 1000) == s1
      && var s2 := CheckTimeouts(s1, 2, t0 + 25 * 60 * 60 * 1000);
      s2[1].state == Missed && Streak(s2) == 1 && NextButton(s2) == 3
      && Streak(Click(s2, 3, 3, t0 + 25 * 60 * 60 * 1000)) == 2
  {
    var s0 := Fresh();
    FreshDerives();
    ClickEnabled(s0, 0, t0);
    var s1 := Click(s0, 1, 1, t0);
    assert s1 == s0[0 := Stamp(s0[0], t0)];
    CheckTimeoutsExact(s1, 2, t0 + 23 * 60 * 60 * 1000);
    CheckTimeoutsExact(s1, 2, t0 + 25 * 60 * 60 * 1000);
    CheckTimeoutsReachable(s1, t0 + 25 * 60 * 60 * 1000);
    var s2 := CheckTimeouts(s1, 2, t0 + 25 * 60 * 60 * 1000);
    assert s2[2] == s0[2];
    ClickEnabled(s2, 2, t0 + 25 * 60 * 60 * 1000);
  }
}

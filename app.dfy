/** The component's state: the button sequence and the two derived counters,
    which every mutation refreshes by re-running the derivation loop. */
module App {
  import opened Slots
  import opened Progress
  import opened Transitions

  class StreakChecker {
    var buttons: seq<Slot>
    var currentStreak: nat
    var nextButtonId: int

    /** The sequence is reachable and the counters agree with it. */
    ghost predicate Valid()
      reads this
    {
      Reachable(buttons) && currentStreak == Streak(buttons) && nextButtonId == NextButton(buttons)
    }

    /** Start from a previously saved sequence, or from the fresh grid when
        nothing was saved. A saved sequence is one the component wrote, so
        it is reachable. */
    constructor (saved: Option<seq<Slot>>)
      requires saved.Some? ==> Reachable(saved.value)
      ensures Valid()
      ensures buttons == if saved.Some? then saved.value else Fresh()
    {
      var b := if saved.Some? then saved.value else Fresh();
      var streak, next := Derive(b);
      buttons := b;
      currentStreak := streak;
      nextButtonId := next;
    }

    /** The derivation effect: recompute both counters from the buttons. */
    method Refresh()
      requires Reachable(buttons)
      modifies this
      ensures Valid() && buttons == old(buttons)
    {
      currentStreak, nextButtonId := Derive(buttons);
    }

    /** Pressing the button at position `i`: a disabled button does nothing;
        the enabled one runs the click handler with the current time. */
    method PressButton(i: nat, now: int)
      requires Valid()
      requires i < |buttons|
      modifies this
      ensures Valid()
      ensures buttons == if Enabled(old(buttons[i]), old(nextButtonId))
        then Click(old(buttons), old(nextButtonId), old(buttons[i].id), now)
        else old(buttons)
      ensures Enabled(old(buttons[i]), old(nextButtonId)) ==>
        buttons == old(buttons)[i := Stamp(old(buttons[i]), now)]
        && currentStreak == old(currentStreak) + 1
        && nextButtonId == Cap(old(nextButtonId) + 1)
      ensures !Enabled(old(buttons[i]), old(nextButtonId)) ==>
        currentStreak == old(currentStreak) && nextButtonId == old(nextButtonId)
    {
      if Enabled(buttons[i], nextButtonId) {
        ClickEnabled(buttons, i, now);
        buttons := Click(buttons, nextButtonId, buttons[i].id, now);
        Refresh();
      }
    }

    /** One run of the deadline check at `now` (on mount, whenever the next
        id changes, and every minute). */
    method CheckTimeoutsAt(now: int)
      requires Valid()
      modifies this
      ensures Valid()
      ensures buttons == CheckTimeouts(old(buttons), old(nextButtonId), now)
      ensures currentStreak == old(currentStreak)
      ensures nextButtonId == if MissDue(old(buttons), old(nextButtonId), now)
        then Cap(old(nextButtonId) + 1) else old(nextButtonId)
    {
      CheckTimeoutsReachable(buttons, now);
      buttons := CheckTimeouts(buttons, nextButtonId, now);
      Refresh();
    }

    /** Reset: back to the fresh grid, streak 0 and next id 1. */
    method ResetProgress()
      modifies this
      ensures Valid()
      ensures buttons == Fresh() && currentStreak == 0 && nextButtonId == 1
    {
      FreshDerives();
      buttons := Fresh();
      Refresh();
    }
  }
}

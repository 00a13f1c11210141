/** The derivation that runs after every change of the button sequence:
    the current streak and the id of the next button to press. */
module Progress {
  import opened Slots

  /** Index of the first pending slot, or |s| when every slot is green or red. */
  function FirstPending(s: seq<Slot>): (k: nat)
    ensures k <= |s|
    ensures forall i :: 0 <= i < k ==> s[i].state != Pending
    ensures k < |s| ==> s[k].state == Pending
  {
    if s == [] then 0
    else if s[0].state == Pending then 0
    else 1 + FirstPending(s[1..])
  }

  /** Number of green slots in `s`. */
  function CountCompleted(s: seq<Slot>): (n: nat)
    ensures n <= |s|
    ensures n == |s| <==> forall i :: 0 <= i < |s| ==> s[i].state == Completed
  {
    if s == [] then 0
    else CountCompleted(s[..|s| - 1]) + (if s[|s| - 1].state == Completed then 1 else 0)
  }

  /** The streak: every green slot before the first white one. A red slot
      neither ends the scan nor adds to the count. */
  function Streak(s: seq<Slot>): nat {
    CountCompleted(s[..FirstPending(s)])
  }

  /** The scan's running next id: one past the id of the last slot before
      the first white one, or 1 when the first slot is already white. */
  function UncappedNext(s: seq<Slot>): int {
    var k := FirstPending(s);
    if k == 0 then 1 else s[k - 1].id + 1
  }

  function Cap(n: int): (r: int)
    ensures r <= Total
    ensures r == n || (n > Total && r == Total)
  {
    if n > Total then Total else n
  }

  /** The id of the actionable button. */
  function NextButton(s: seq<Slot>): int {
    Cap(UncappedNext(s))
  }

  /** The derivation loop itself: scan until the first white slot, counting
      green ones and moving the next id past every green or red slot. */
  method Derive(buttons: seq<Slot>) returns (streak: nat, nextId: int)
    ensures streak == Streak(buttons)
    ensures nextId == NextButton(buttons)
  {
    streak := 0;
    var next := 1;
    var i := 0;
    while i < |buttons|
      invariant i <= FirstPending(buttons)
      invariant streak == CountCompleted(buttons[..i])
      invariant next == if i == 0 then 1 else buttons[i - 1].id + 1
    {
      assert buttons[..i + 1][..i] == buttons[..i];
      if buttons[i].state == Completed {
        streak := streak + 1;
        next := buttons[i].id + 1;
      } else if buttons[i].state == Missed {
        next := buttons[i].id + 1;
      } else {
        break;
      }
      i := i + 1;
    }
    nextId := if next > Total then Total else next;
  }

  /** What the header shows above the grid. */
  datatype Headline = NextLabel(id: int) | AllCompleted

  function HeadlineOf(nextId: int): (h: Headline)
    ensures h == AllCompleted <==> nextId > Total
  {
    if nextId <= Total then NextLabel(nextId) else AllCompleted
  }

  /** First pending slot is determined by its two defining properties. */
  lemma FirstPendingUnique(s: seq<Slot>, k: nat)
    requires k <= |s|
    requires forall i :: 0 <= i < k ==> s[i].state != Pending
    requires k < |s| ==> s[k].state == Pending
    ensures FirstPending(s) == k
  {
  }

  /** Next-id rule on a well-formed sequence: the id of the first white slot,
      or the last id + 1 = 101 when none is white, then capped at 100; so it
      always lies in [1, 100]. */
  lemma NextButtonWellFormed(s: seq<Slot>)
    requires WellFormed(s)
    ensures UncappedNext(s) == FirstPending(s) + 1
    ensures FirstPending(s) < |s| ==> NextButton(s) == s[FirstPending(s)].id
    ensures FirstPending(s) == |s| ==> UncappedNext(s) == s[|s| - 1].id + 1 && NextButton(s) == Total
    ensures 1 <= NextButton(s) <= Total
  {
    var k := FirstPending(s);
    if k > 0 {
      assert s[k - 1].id == k;
    }
  }

  /** The "Completed!" headline can never be shown. */
  lemma AllCompletedUnreachable(s: seq<Slot>)
    requires WellFormed(s)
    ensures HeadlineOf(NextButton(s)) == NextLabel(NextButton(s))
  {
    NextButtonWellFormed(s);
  }

  /** Streak rule: the streak never exceeds the number of slots scanned, so
      it is at most the uncapped next id - 1, at most 100. */
  lemma StreakBound(s: seq<Slot>)
    requires WellFormed(s)
    ensures Streak(s) <= FirstPending(s) == UncappedNext(s) - 1 <= Total
  {
    NextButtonWellFormed(s);
  }

  /** Green slots beyond a run of pending slots at the end do not exist, so
      counting stops changing there. */
  lemma {:induction false} CountCompletedPendingTail(s: seq<Slot>, k: nat)
    requires k <= |s|
    requires forall j :: k <= j < |s| ==> s[j].state == Pending
    ensures CountCompleted(s) == CountCompleted(s[..k])
  {
    if |s| == k {
      assert s[..k] == s;
    } else {
      var p := s[..|s| - 1];
      assert p[..k] == s[..k];
      CountCompletedPendingTail(p, k);
    }
  }

  /** In a reachable sequence no green slot follows the first white one, so
      the streak is the number of green slots overall. */
  lemma StreakCountsEveryCompleted(s: seq<Slot>)
    requires Prefixed(s)
    ensures Streak(s) == CountCompleted(s)
  {
    var k := FirstPending(s);
    if k < |s| {
      forall j | k <= j < |s| ensures s[j].state == Pending {
        if j > k {
          assert s[k].state == Pending;
        }
      }
    }
    CountCompletedPendingTail(s, k);
  }

  /** Turning the first pending slot of a prefixed sequence green or red
      moves the first pending slot one further, keeps the sequence prefixed
      and adds one to the streak exactly when the slot turned green. */
  lemma AdvanceFirstPending(s: seq<Slot>, b: Slot)
    requires Prefixed(s)
    requires FirstPending(s) < |s|
    requires b.state != Pending
    ensures Prefixed(s[FirstPending(s) := b])
    ensures FirstPending(s[FirstPending(s) := b]) == FirstPending(s) + 1
    ensures Streak(s[FirstPending(s) := b]) == Streak(s) + (if b.state == Completed then 1 else 0)
  {
    var k := FirstPending(s);
    var r := s[k := b];
    forall j | k < j < |s| ensures r[j].state == Pending {
      assert s[k].state == Pending;
    }
    FirstPendingUnique(r, k + 1);
    assert r[..k + 1][..k] == s[..k];
  }

  /** The next id only grows while slots leave the pending state. */
  lemma NextButtonMonotone(s: seq<Slot>, t: seq<Slot>)
    requires WellFormed(s) && WellFormed(t)
    requires forall i :: 0 <= i < |s| && s[i].state != Pending ==> t[i].state != Pending
    ensures FirstPending(s) <= FirstPending(t)
    ensures NextButton(s) <= NextButton(t)
  {
    NextButtonWellFormed(s);
    NextButtonWellFormed(t);
  }

  /** A fresh or reset grid derives streak 0 and next id 1. */
  lemma FreshDerives()
    ensures FirstPending(Fresh()) == 0
    ensures Streak(Fresh()) == 0 && NextButton(Fresh()) == 1
  {
    FirstPendingUnique(Fresh(), 0);
  }

  /** The component's streak is not capped by a miss: green, red, green, white
      has streak 2 (a scan that stopped at the red slot would give 1). */
  lemma MissedSlotDoesNotCapStreak()
    ensures Streak([Slot(1, Completed, Some(5), None), Slot(2, Missed, None, Some(9)),
                    Slot(3, Completed, Some(10), None), Slot(4, Pending, None, None)]) == 2
  {
    var s := [Slot(1, Completed, Some(5), None), Slot(2, Missed, None, Some(9)),
              Slot(3, Completed, Some(10), None), Slot(4, Pending, None, None)];
    FirstPendingUnique(s, 3);
    assert s[..3][..2][..1] == [s[0]];
  }
}

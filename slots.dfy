/** The slot records of the streak checker: one record per button of the
    100-button grid, its colour and the instants at which it was clicked or
    declared missed. */
module Slots {

  datatype Option<T> = None | Some(value: T)

  /** The button colours: white (pending), green (completed), red (missed). */
  datatype State = Pending | Completed | Missed

  /** One button. `clickedAt` and `missedAt` are epoch milliseconds and are
      absent until the button is clicked or declared missed. */
  datatype Slot = Slot(id: int, state: State, clickedAt: Option<int>, missedAt: Option<int>)

  /** Number of buttons in the grid; also the cap on the next button id. */
  const Total: nat := 100

  /** The deadline window, 24 hours in milliseconds. */
  const Day: int := 24 * 60 * 60 * 1000

  /** The shape every sequence the component builds has: 100 slots whose ids
      are their 1-based positions. */
  predicate WellFormed(s: seq<Slot>) {
    |s| == Total && forall i :: 0 <= i < |s| ==> s[i].id == i + 1
  }

  /** A timestamp is present exactly for the state that sets it. */
  predicate SlotConsistent(b: Slot) {
    match b.state
    case Pending => b.clickedAt.None? && b.missedAt.None?
    case Completed => b.clickedAt.Some? && b.missedAt.None?
    case Missed => b.missedAt.Some? && b.clickedAt.None?
  }

  predicate Consistent(s: seq<Slot>) {
    forall i :: 0 <= i < |s| ==> SlotConsistent(s[i])
  }

  /** Once a pending slot occurs, every later slot is pending as well. */
  predicate Prefixed(s: seq<Slot>) {
    forall i, j :: 0 <= i < j < |s| && s[i].state == Pending ==> s[j].state == Pending
  }

  /** The invariant of every sequence the component can reach from a fresh
      start (and hence of every sequence it persists). */
  predicate Reachable(s: seq<Slot>) {
    WellFormed(s) && Consistent(s) && Prefixed(s)
  }

  /** The fresh grid built by the initializer and by the reset: 100 white
      buttons with ids 1..100 and no timestamps. */
  function Fresh(): (r: seq<Slot>)
    ensures Reachable(r)
    ensures forall i :: 0 <= i < |r| ==>
      r[i].state == Pending && r[i].clickedAt.None? && r[i].missedAt.None?
  {
    seq(Total, i => Slot(i + 1, Pending, None, None))
  }

  /** Index of the first slot carrying `id`, or |s| when there is none. */
  function FindIndex(s: seq<Slot>, id: int): (k: nat)
    ensures k <= |s|
    ensures forall i :: 0 <= i < k ==> s[i].id != id
    ensures k < |s| ==> s[k].id == id
  {
    if s == [] then 0
    else if s[0].id == id then 0
    else 1 + FindIndex(s[1..], id)
  }

  /** Array.prototype.find by id: the first slot with that id, if any. */
  function Find(s: seq<Slot>, id: int): (r: Option<Slot>)
    ensures r.Some? ==> r.value.id == id && r.value in s
    ensures r.None? ==> forall i :: 0 <= i < |s| ==> s[i].id != id
    ensures r.Some? ==> exists k :: 0 <= k < |s| && r.value == s[k] && forall i :: 0 <= i < k ==> s[i].id != id
  {
    var k := FindIndex(s, id);
    if k < |s| then Some(s[k]) else None
  }

  /** Searching depends on the ids alone. */
  lemma FindIndexSameIds(s: seq<Slot>, t: seq<Slot>, id: int)
    requires |s| == |t|
    requires forall i :: 0 <= i < |s| ==> s[i].id == t[i].id
    ensures FindIndex(s, id) == FindIndex(t, id)
  {
  }

  /** In a well-formed sequence the slot with id `id` sits at index id - 1. */
  lemma FindWellFormed(s: seq<Slot>, id: int)
    requires WellFormed(s)
    ensures Find(s, id) == if 1 <= id <= |s| then Some(s[id - 1]) else None
  {
    var k := FindIndex(s, id);
    if 1 <= id <= |s| {
      assert s[id - 1].id == id;
      assert k == id - 1;
    } else if k < |s| {
      assert false;
    }
  }
}

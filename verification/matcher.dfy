/**
 * The slot matcher (views.py lines 87-89): the open slots whose window
 * contains the requested [start, end), minus those of any trainer in the
 * student's capped history; the first survivor in store order is chosen.
 */
module Matcher {
  import opened Wrappers
  import opened Models

  /** The trainers of the capped history, all of them, whatever the grades. */
  function SeenTrainers(h: seq<Interview>): (ts: set<nat>)
    ensures forall iv :: iv in h ==> iv.trainer.id in ts
    ensures forall t :: t in ts ==> exists iv :: iv in h && iv.trainer.id == t
  {
    set iv | iv in h :: iv.trainer.id
  }

  /** The slot's window contains the requested one (`fromTime__lte=start, toTime__gte=end`). */
  predicate Contains(slot: AvailabilitySlot, start: Time, end: Time) {
    slot.fromTime <= start && slot.toTime >= end
  }

  predicate Candidate(slot: AvailabilitySlot, start: Time, end: Time, seen: set<nat>) {
    Contains(slot, start, end) && slot.trainer.id !in seen
  }

  /** Index of the first candidate at or after position `from`. */
  function FirstCandidateFrom(slots: seq<AvailabilitySlot>, from: nat, start: Time, end: Time, seen: set<nat>)
    : (r: Option<nat>)
    requires from <= |slots|
    ensures r.Some? ==> from <= r.value < |slots| && Candidate(slots[r.value], start, end, seen)
    ensures r.Some? ==> forall j :: from <= j < r.value ==> !Candidate(slots[j], start, end, seen)
    ensures r.None? <==> forall j :: from <= j < |slots| ==> !Candidate(slots[j], start, end, seen)
    decreases |slots| - from
  {
    if from == |slots| then None
    else if Candidate(slots[from], start, end, seen) then Some(from)
    else FirstCandidateFrom(slots, from + 1, start, end, seen)
  }

  /**
   * The matcher: the position of the first slot, in store order, that
   * contains [start, end) and belongs to a trainer outside the history, or
   * `None` when there is no such slot.
   */
  function MatchSlot(slots: seq<AvailabilitySlot>, start: Time, end: Time, h: seq<Interview>)
    : (r: Option<nat>)
    ensures r.Some? ==> r.value < |slots|
    ensures r.Some? ==> slots[r.value].fromTime <= start && slots[r.value].toTime >= end
    ensures r.Some? ==> forall iv :: iv in h ==> iv.trainer.id != slots[r.value].trainer.id
    ensures r.Some? ==> forall j :: 0 <= j < r.value ==> !Candidate(slots[j], start, end, SeenTrainers(h))
    ensures r.None? <==> forall s :: s in slots ==> !Contains(s, start, end) || s.trainer.id in SeenTrainers(h)
  {
    var r := FirstCandidateFrom(slots, 0, start, end, SeenTrainers(h));
    assert r.None? <==> forall s :: s in slots ==> !Candidate(s, start, end, SeenTrainers(h)) by {
      if r.None? {
        forall s | s in slots ensures !Candidate(s, start, end, SeenTrainers(h)) {
          var j :| 0 <= j < |slots| && slots[j] == s;
        }
      }
    }
    r
  }
}

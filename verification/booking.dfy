/**
 * The booking step, `book_time_slot` (views.py lines 41-62), as one atomic
 * transition of the store: the chosen slot is split around the booked
 * window, an ungraded interview is recorded, the slot is deleted and the
 * trainer's name is returned.
 *
 * The row lock and re-read of line 50 serialise concurrent bookings; here
 * the transition is atomic, so the re-read slot is the matched one.
 */
module Booking {
  import opened Models

  /**
   * The slots that replace `locked` after [start, end) is booked from it: a
   * leading remainder [locked.fromTime, start) unless the booking starts at
   * the slot's start, then a trailing remainder [end, locked.toTime) unless
   * it ends at the slot's end. Fresh keys start at `firstId`, in save order.
   */
  function Remainders(locked: AvailabilitySlot, start: Time, end: Time, firstId: nat): (rs: seq<AvailabilitySlot>)
    ensures |rs| == (if locked.fromTime != start then 1 else 0) + (if locked.toTime != end then 1 else 0)
    ensures forall s :: s in rs ==> s.trainer == locked.trainer && firstId <= s.id < firstId + |rs|
    ensures SlotKeysAscending(rs)
    ensures forall s :: s in rs ==>
              (s.fromTime == locked.fromTime && s.toTime == start) || (s.fromTime == end && s.toTime == locked.toTime)
    ensures (exists s :: s in rs && s.fromTime == locked.fromTime && s.toTime == start) <==> locked.fromTime != start
    ensures (exists s :: s in rs && s.fromTime == end && s.toTime == locked.toTime) <==> locked.toTime != end
    ensures |rs| == 0 <==> locked.fromTime == start && locked.toTime == end
    ensures locked.fromTime <= start && end <= locked.toTime ==> forall s :: s in rs ==> s.fromTime < s.toTime
  {
    var lead := if locked.fromTime != start then [AvailabilitySlot(firstId, locked.trainer, locked.fromTime, start)] else [];
    var trail := if locked.toTime != end then [AvailabilitySlot(firstId + |lead|, locked.trainer, end, locked.toTime)] else [];
    lead + trail
  }

  /** How many of the windows in `rs` contain instant `t`. */
  function Coverage(rs: seq<AvailabilitySlot>, t: Time): nat {
    if |rs| == 0 then 0
    else (if InWindow(t, rs[0].fromTime, rs[0].toTime) then 1 else 0) + Coverage(rs[1..], t)
  }

  /**
   * When the slot contains a non-empty booked window, the remainders and the
   * booked window cover every instant of the slot exactly once and nothing
   * outside it: they are pairwise disjoint and their union is the slot.
   */
  lemma {:induction false} RemaindersPartitionSlot(locked: AvailabilitySlot, start: Time, end: Time, firstId: nat, t: Time)
    requires locked.fromTime <= start < end <= locked.toTime
    ensures Coverage(Remainders(locked, start, end, firstId), t) + (if InWindow(t, start, end) then 1 else 0)
            == (if InWindow(t, locked.fromTime, locked.toTime) then 1 else 0)
  {
    var rs := Remainders(locked, start, end, firstId);
    var lead := AvailabilitySlot(firstId, locked.trainer, locked.fromTime, start);
    if locked.fromTime != start && locked.toTime != end {
      assert rs == [lead, AvailabilitySlot(firstId + 1, locked.trainer, end, locked.toTime)];
      assert rs[1..][1..] == [];
      assert Coverage(rs[1..], t) == (if InWindow(t, end, locked.toTime) then 1 else 0);
    } else if locked.fromTime != start {
      assert rs == [lead];
      assert rs[1..] == [];
    } else if locked.toTime != end {
      assert rs == [AvailabilitySlot(firstId, locked.trainer, end, locked.toTime)];
      assert rs[1..] == [];
    } else {
      assert rs == [];
    }
  }

  /** Deletes the row with key `id`. */
  function DeleteSlot(slots: seq<AvailabilitySlot>, id: nat): (r: seq<AvailabilitySlot>)
    ensures forall s :: s in r <==> s in slots && s.id != id
    ensures |r| <= |slots|
  {
    if |slots| == 0 then []
    else if slots[0].id == id then DeleteSlot(slots[1..], id)
    else [slots[0]] + DeleteSlot(slots[1..], id)
  }

  /** The interview a booking records: the student, the slot's trainer, the booked window, ungraded. */
  function NewInterview(id: nat, student: Student, locked: AvailabilitySlot, start: Time, end: Time): Interview {
    Interview(id, student, locked.trainer, GradeUngraded, start, end)
  }

  /**
   * Books [start, end) out of the slot at position `i`: returns the slot
   * trainer's name and the store in which that slot is replaced by its
   * remainders and exactly one ungraded interview has been appended.
   */
  function BookTimeSlot(st: Store, i: nat, student: Student, start: Time, end: Time): (r: (string, Store))
    requires i < |st.slots|
    ensures r.0 == st.slots[i].trainer.name
    ensures forall s :: s in r.1.slots <==>
              (s in st.slots && s.id != st.slots[i].id)
              || s in Remainders(st.slots[i], start, end, st.nextSlotId)
    ensures r.1.interviews
            == st.interviews + [Interview(st.nextInterviewId, student, st.slots[i].trainer, GradeUngraded, start, end)]
    ensures r.1.nextInterviewId == st.nextInterviewId + 1
    ensures st.nextSlotId <= r.1.nextSlotId <= st.nextSlotId + 2
  {
    var locked := st.slots[i];
    var rs := Remainders(locked, start, end, st.nextSlotId);
    var iv := NewInterview(st.nextInterviewId, student, locked, start, end);
    var slots' := DeleteSlot(st.slots, locked.id) + rs;
    (locked.trainer.name, Store(slots', st.interviews + [iv], st.nextSlotId + |rs|, st.nextInterviewId + 1))
  }

  /**
   * On a well-formed store, booking a slot that contains the window consumes
   * that slot for good: no row with its key remains, and the keys handed out
   * from now on are all larger than it.
   */
  lemma BookingConsumesSlot(st: Store, i: nat, student: Student, start: Time, end: Time)
    requires WellFormed(st)
    requires i < |st.slots|
    ensures var st' := BookTimeSlot(st, i, student, start, end).1;
            && (forall s :: s in st'.slots ==> s.id != st.slots[i].id)
            && st.slots[i].id < st'.nextSlotId
  {
    var st' := BookTimeSlot(st, i, student, start, end).1;
    forall s | s in st'.slots
      ensures s.id != st.slots[i].id
    {
      if s in Remainders(st.slots[i], start, end, st.nextSlotId) {
        assert st.slots[i].id < st.nextSlotId <= s.id;
      }
    }
  }

  /** Booking a slot that contains the window keeps the store's key and window invariants. */
  lemma BookingPreservesWellFormed(st: Store, i: nat, student: Student, start: Time, end: Time)
    requires WellFormed(st)
    requires i < |st.slots|
    requires st.slots[i].fromTime <= start && st.slots[i].toTime >= end
    ensures WellFormed(BookTimeSlot(st, i, student, start, end).1)
  {
    var locked := st.slots[i];
    var rs := Remainders(locked, start, end, st.nextSlotId);
    var st' := BookTimeSlot(st, i, student, start, end).1;
    DeleteKeepsTableValid(st.slots, locked.id, st.nextSlotId);
    AppendRemaindersKeepsTableValid(DeleteSlot(st.slots, locked.id), rs, st.nextSlotId);
    AppendInterviewKeepsKeys(st.interviews, NewInterview(st.nextInterviewId, student, locked, start, end), st.nextInterviewId);
  }

  /** Appending an interview under the next key keeps the interview keys ascending and below the next key. */
  lemma AppendInterviewKeepsKeys(ivs: seq<Interview>, iv: Interview, nextId: nat)
    requires forall i, j :: 0 <= i < j < |ivs| ==> ivs[i].id < ivs[j].id
    requires forall i :: 0 <= i < |ivs| ==> ivs[i].id < nextId
    requires iv.id == nextId
    ensures var all := ivs + [iv];
            && (forall i, j :: 0 <= i < j < |all| ==> all[i].id < all[j].id)
            && (forall i :: 0 <= i < |all| ==> all[i].id < nextId + 1)
  {
    var all := ivs + [iv];
    forall i, j | 0 <= i < j < |all|
      ensures all[i].id < all[j].id
    {
      assert all[i] == ivs[i];
      if j < |ivs| {
        assert all[j] == ivs[j];
      }
    }
    forall i | 0 <= i < |all|
      ensures all[i].id < nextId + 1
    {
      if i < |ivs| {
        assert all[i] == ivs[i];
      }
    }
  }

  /** Fresh rows with ascending fresh keys and non-empty windows keep a valid table valid. */
  lemma AppendRemaindersKeepsTableValid(kept: seq<AvailabilitySlot>, rs: seq<AvailabilitySlot>, firstId: nat)
    requires SlotTableValid(kept, firstId)
    requires SlotKeysAscending(rs)
    requires forall s :: s in rs ==> firstId <= s.id < firstId + |rs| && s.fromTime < s.toTime
    ensures SlotTableValid(kept + rs, firstId + |rs|)
  {
    var all := kept + rs;
    forall a, b | 0 <= a < b < |all|
      ensures all[a].id < all[b].id
    {
      if b < |kept| {
        assert all[a] == kept[a] && all[b] == kept[b];
      } else if a >= |kept| {
        assert all[a] == rs[a - |kept|] && all[b] == rs[b - |kept|];
      } else {
        assert all[a] == kept[a];
        assert all[b] == rs[b - |kept|];
        assert all[b] in rs;
      }
    }
    forall a | 0 <= a < |all|
      ensures all[a].id < firstId + |rs| && all[a].fromTime < all[a].toTime
    {
      if a < |kept| {
        assert all[a] == kept[a];
      } else {
        assert all[a] == rs[a - |kept|];
        assert all[a] in rs;
      }
    }
  }

  /** Deleting a row keeps a valid table valid. */
  lemma DeleteKeepsTableValid(slots: seq<AvailabilitySlot>, id: nat, nextId: nat)
    requires SlotTableValid(slots, nextId)
    ensures SlotTableValid(DeleteSlot(slots, id), nextId)
  {
    DeleteKeepsKeysAscending(slots, id);
    var r := DeleteSlot(slots, id);
    forall a | 0 <= a < |r|
      ensures r[a].id < nextId && r[a].fromTime < r[a].toTime
    {
      assert r[a] in slots;
      var k :| 0 <= k < |slots| && slots[k] == r[a];
    }
  }

  /** A row whose key is below every key of an ascending table can lead it. */
  lemma ConsKeysAscending(a: AvailabilitySlot, rest: seq<AvailabilitySlot>)
    requires SlotKeysAscending(rest)
    requires forall j :: 0 <= j < |rest| ==> a.id < rest[j].id
    ensures SlotKeysAscending([a] + rest)
  {
    var r := [a] + rest;
    forall i, j | 0 <= i < j < |r|
      ensures r[i].id < r[j].id
    {
      assert r[j] == rest[j - 1];
      if i > 0 {
        assert r[i] == rest[i - 1];
      }
    }
  }

  /** Deleting rows keeps the remaining keys in ascending order. */
  lemma {:induction false} DeleteKeepsKeysAscending(slots: seq<AvailabilitySlot>, id: nat)
    requires SlotKeysAscending(slots)
    ensures SlotKeysAscending(DeleteSlot(slots, id))
    decreases |slots|
  {
    if |slots| > 0 {
      DeleteKeepsKeysAscending(slots[1..], id);
      var rest := DeleteSlot(slots[1..], id);
      if slots[0].id != id {
        assert forall s :: s in slots[1..] ==> slots[0].id < s.id by {
          forall s | s in slots[1..]
            ensures slots[0].id < s.id
          {
            var k :| 0 <= k < |slots[1..]| && slots[1..][k] == s;
            assert slots[k + 1] == s;
          }
        }
        ConsKeysAscending(slots[0], rest);
      }
    }
  }
}

/**
 * The records the allocation logic reads and writes: trainers, students,
 * interviews and availability slots, plus the store that holds them and the
 * constants of the web service.
 *
 * Date-times are plain integers (an instant on one time line); the database
 * is a value holding the two tables in primary-key order together with the
 * next primary key each table hands out.
 */
module Models {

  type Time = int

  datatype Trainer = Trainer(id: nat, name: string)

  datatype Student = Student(id: nat, name: string)

  /** A booked interview; `grade` is `GradeUngraded` until someone grades it. */
  datatype Interview = Interview(
    id: nat,
    student: Student,
    trainer: Trainer,
    grade: int,
    fromTime: Time,
    toTime: Time)

  /** An open window in which a trainer can hold an interview. */
  datatype AvailabilitySlot = AvailabilitySlot(
    id: nat,
    trainer: Trainer,
    fromTime: Time,
    toTime: Time)

  /** The two tables the allocation logic touches, in primary-key order. */
  datatype Store = Store(
    slots: seq<AvailabilitySlot>,
    interviews: seq<Interview>,
    nextSlotId: nat,
    nextInterviewId: nat)

  const GradeUngraded: int := -1

  /** The cap the service ships with; every operation takes the cap as a parameter. */
  const DefaultMaxInterviewsAllowed: nat := 15

  const ErrorMaxInterviewsExceeds: string := "max interviews exhausted"
  const ErrorMaxBadInterviews: string := "too many bad interviews"
  const ErrorNoSlots: string := "no slots available"

  /** Instant `t` lies in the half-open window [from, to). */
  predicate InWindow(t: Time, from: Time, to: Time) {
    from <= t < to
  }

  /** Slots in strictly ascending primary-key order, so no two share a key. */
  ghost predicate SlotKeysAscending(slots: seq<AvailabilitySlot>) {
    forall i, j :: 0 <= i < j < |slots| ==> slots[i].id < slots[j].id
  }

  /** Keys in ascending order, all below `nextId`, and non-empty windows. */
  ghost predicate SlotTableValid(slots: seq<AvailabilitySlot>, nextId: nat) {
    && SlotKeysAscending(slots)
    && (forall i :: 0 <= i < |slots| ==> slots[i].id < nextId && slots[i].fromTime < slots[i].toTime)
  }

  /**
   * The store invariant: both tables are in ascending primary-key order
   * (so keys are unique) with every key below the next one to be handed
   * out, as the database's auto-increment keys give; and every open slot is
   * a non-empty window. The schema itself does not enforce the last part:
   * it is assumed of the store a request starts from, and booking keeps it.
   */
  ghost predicate WellFormed(st: Store) {
    && SlotTableValid(st.slots, st.nextSlotId)
    && (forall i, j :: 0 <= i < j < |st.interviews| ==> st.interviews[i].id < st.interviews[j].id)
    && (forall i :: 0 <= i < |st.interviews| ==> st.interviews[i].id < st.nextInterviewId)
  }
}

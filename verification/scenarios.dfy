/**
 * Concrete stores reduced from the repository's test cases (tests.py):
 * the last two use fewer trainers than the tests do. Each lemma states the
 * outcome the handler produces. Times count hours on one line:
 * past interviews end at 14, "now" is 100, the requested window is [13, 14)
 * of a later day written as [213, 214), slots run [210, 220).
 */
module Scenarios {
  import opened Wrappers
  import opened Models
  import opened History
  import opened Eligibility
  import opened Matcher
  import opened Booking
  import opened Views

  const Now: Time := 100
  const Pupil: Student := Student(1, "student")

  function PastInterview(id: nat, t: Trainer, grade: int): Interview {
    Interview(id, Pupil, t, grade, 13, 14)
  }

  /** Three ungraded past interviews with the cap lowered to 3: exhausted, whatever the grades (tests.py lines 82-99). */
  lemma MaxInterviewsScenario()
    ensures var t := Trainer(1, "a");
            var st := Store([], [PastInterview(1, t, -1), PastInterview(2, t, -1), PastInterview(3, t, -1)], 1, 4);
            HandleInterviewRequest(st, Request(Pupil, 213, 214), Now, 3) == (MaxInterviewsExhausted, st)
  {
    var t := Trainer(1, "a");
    var st := Store([], [PastInterview(1, t, -1), PastInterview(2, t, -1), PastInterview(3, t, -1)], 1, 4);
    AllPastKept(st.interviews, Pupil, Now);
  }

  /** Two past interviews graded 0 under the default cap: too many bad interviews (tests.py lines 102-117). */
  lemma BadInterviewsScenario()
    ensures var t := Trainer(2, "trainer2");
            var st := Store([], [PastInterview(1, t, 0), PastInterview(2, t, 0)], 1, 3);
            HandleInterviewRequest(st, Request(Pupil, 213, 214), Now, DefaultMaxInterviewsAllowed)
              == (TooManyBadInterviews, st)
  {
    var t := Trainer(2, "trainer2");
    var st := Store([], [PastInterview(1, t, 0), PastInterview(2, t, 0)], 1, 3);
    var req := Request(Pupil, 213, 214);
    AllPastKept(st.interviews, Pupil, Now);
    assert SortLatestFirst(st.interviews[1..]) == st.interviews[1..] by {
      assert st.interviews[1..][1..] == [];
    }
    assert SortLatestFirst(st.interviews) == st.interviews;
    var h := HistoryOf(st, req, Now, DefaultMaxInterviewsAllowed);
    assert h == st.interviews;
  }

  /**
   * Every fitting slot belongs to a trainer the student has met: no slots,
   * and the store is unchanged (tests.py lines 119-138).
   */
  lemma OnlySeenTrainersScenario()
    ensures var t0 := Trainer(10, "trainer0");
            var t1 := Trainer(11, "trainer1");
            var st := Store([AvailabilitySlot(1, t0, 210, 220), AvailabilitySlot(2, t1, 210, 220)],
                            [PastInterview(1, t0, 2), PastInterview(2, t1, 2)], 3, 3);
            HandleInterviewRequest(st, Request(Pupil, 213, 214), Now, DefaultMaxInterviewsAllowed)
              == (NoSlotsAvailable, st)
  {
    var t0 := Trainer(10, "trainer0");
    var t1 := Trainer(11, "trainer1");
    var st := Store([AvailabilitySlot(1, t0, 210, 220), AvailabilitySlot(2, t1, 210, 220)],
                    [PastInterview(1, t0, 2), PastInterview(2, t1, 2)], 3, 3);
    var req := Request(Pupil, 213, 214);
    AllPastKept(st.interviews, Pupil, Now);
    assert SortLatestFirst(st.interviews[1..]) == st.interviews[1..] by {
      assert st.interviews[1..][1..] == [];
    }
    assert SortLatestFirst(st.interviews) == st.interviews;
    var h := HistoryOf(st, req, Now, DefaultMaxInterviewsAllowed);
    assert h == st.interviews;
    assert SeenTrainers(h) == {10, 11};
  }

  /**
   * A fitting slot of a new trainer is booked: the response names that
   * trainer, the slot [210, 220) gives way to [210, 213) and [214, 220), and
   * an ungraded interview [213, 214) is recorded (tests.py lines 140-167).
   */
  lemma NewTrainerScenario()
    ensures var t0 := Trainer(10, "trainer0");
            var tn := Trainer(12, "newTrainer");
            var st := Store([AvailabilitySlot(1, t0, 210, 220), AvailabilitySlot(2, tn, 210, 220)],
                            [PastInterview(1, t0, 2)], 3, 2);
            HandleInterviewRequest(st, Request(Pupil, 213, 214), Now, DefaultMaxInterviewsAllowed)
              == (Booked("newTrainer"),
                  Store([AvailabilitySlot(1, t0, 210, 220), AvailabilitySlot(3, tn, 210, 213), AvailabilitySlot(4, tn, 214, 220)],
                        [PastInterview(1, t0, 2), Interview(2, Pupil, tn, GradeUngraded, 213, 214)], 5, 3))
  {
    var t0 := Trainer(10, "trainer0");
    var tn := Trainer(12, "newTrainer");
    var st := Store([AvailabilitySlot(1, t0, 210, 220), AvailabilitySlot(2, tn, 210, 220)],
                    [PastInterview(1, t0, 2)], 3, 2);
    var req := Request(Pupil, 213, 214);
    AllPastKept(st.interviews, Pupil, Now);
    var h := HistoryOf(st, req, Now, DefaultMaxInterviewsAllowed);
    assert SortLatestFirst(st.interviews) == st.interviews by {
      assert st.interviews[1..] == [];
    }
    assert h == st.interviews;
    assert SeenTrainers(h) == {10};
    assert !Candidate(st.slots[0], 213, 214, {10});
    assert Candidate(st.slots[1], 213, 214, {10});
    assert FirstCandidateFrom(st.slots, 1, 213, 214, {10}) == Some(1);
    assert MatchSlot(st.slots, 213, 214, h) == Some(1);
    var locked := st.slots[1];
    assert Remainders(locked, 213, 214, 3) == [AvailabilitySlot(3, tn, 210, 213), AvailabilitySlot(4, tn, 214, 220)];
    assert DeleteSlot(st.slots[1..], 2) == [] by {
      assert st.slots[1..][1..] == [];
    }
    assert DeleteSlot(st.slots, 2) == [st.slots[0]];
    var b := BookTimeSlot(st, 1, Pupil, 213, 214);
    assert b.0 == "newTrainer";
    assert b.1.slots == [st.slots[0]] + [AvailabilitySlot(3, tn, 210, 213), AvailabilitySlot(4, tn, 214, 220)];
    assert b.1.interviews == st.interviews + [Interview(2, Pupil, tn, GradeUngraded, 213, 214)];
    assert b.1.nextSlotId == 5 && b.1.nextInterviewId == 3;
    assert b.1.slots == [AvailabilitySlot(1, t0, 210, 220), AvailabilitySlot(3, tn, 210, 213), AvailabilitySlot(4, tn, 214, 220)];
    assert b.1.interviews == [PastInterview(1, t0, 2), Interview(2, Pupil, tn, GradeUngraded, 213, 214)];
    assert b == ("newTrainer",
            Store([AvailabilitySlot(1, t0, 210, 220), AvailabilitySlot(3, tn, 210, 213), AvailabilitySlot(4, tn, 214, 220)],
                  [PastInterview(1, t0, 2), Interview(2, Pupil, tn, GradeUngraded, 213, 214)], 5, 3));
    assert |h| == 1;
  }
}

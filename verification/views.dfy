/**
 * The request handler, `handle_interview_request` (views.py lines 79-90),
 * from an already parsed (student, start, end) onwards: the eligibility
 * checks, the matcher and the booking, in that order, each rejection leaving
 * the store as it was. The current time and the interview cap are inputs.
 */
module Views {
  import opened Wrappers
  import opened Models
  import opened History
  import opened Eligibility
  import opened Matcher
  import opened Booking

  /** A parsed booking request: the student and the requested window [start, end). */
  datatype Request = Request(student: Student, start: Time, end: Time)

  datatype Outcome =
    | MaxInterviewsExhausted
    | TooManyBadInterviews
    | NoSlotsAvailable
    | Booked(trainerName: string)

  /** The student's capped history, as the handler queries it. */
  function HistoryOf(st: Store, req: Request, now: Time, cap: nat): seq<Interview> {
    CappedHistory(st.interviews, req.student, now, cap)
  }

  function PastOf(st: Store, req: Request, now: Time): seq<Interview> {
    PastInterviews(st.interviews, req.student, now)
  }

  /**
   * One request against the store: the outcome and the store afterwards.
   * The cap check comes first, then the two-strikes check on the two latest
   * past interviews, then the matcher; only a match reaches the booking.
   */
  function HandleInterviewRequest(st: Store, req: Request, now: Time, cap: nat): (r: (Outcome, Store))
    ensures r.0 == MaxInterviewsExhausted <==> |PastOf(st, req, now)| >= cap
    ensures r.0 == TooManyBadInterviews <==>
              |PastOf(st, req, now)| < cap && TwoLatestFlunked(HistoryOf(st, req, now, cap))
    ensures r.0 == NoSlotsAvailable <==>
              && |PastOf(st, req, now)| < cap
              && !TwoLatestFlunked(HistoryOf(st, req, now, cap))
              && forall s :: s in st.slots ==>
                   !Contains(s, req.start, req.end) || s.trainer.id in SeenTrainers(HistoryOf(st, req, now, cap))
    ensures !r.0.Booked? ==> r.1 == st
    ensures r.0.Booked? ==>
              var m := MatchSlot(st.slots, req.start, req.end, HistoryOf(st, req, now, cap));
              && m.Some? && m.value < |st.slots|
              && r.0.trainerName == st.slots[m.value].trainer.name
              && r.1 == BookTimeSlot(st, m.value, req.student, req.start, req.end).1
  {
    var h := HistoryOf(st, req, now, cap);
    CappedCountReachesCap(st.interviews, req.student, now, cap);
    if |h| == cap then (MaxInterviewsExhausted, st)
    else if |h| >= 2 && GradeFlunked(h[0]) && GradeFlunked(h[1]) then (TooManyBadInterviews, st)
    else
      match MatchSlot(st.slots, req.start, req.end, h)
      case None => (NoSlotsAvailable, st)
      case Some(i) =>
        var booked := BookTimeSlot(st, i, req.student, req.start, req.end);
        (Booked(booked.0), booked.1)
  }

  /**
   * Two ungraded past interviews block the student (under the cap): the
   * sentinel guard of `grade_flunked` never fires, so ungraded counts as
   * flunked.
   */
  lemma UngradedPastInterviewsBlock(st: Store, req: Request, now: Time, cap: nat)
    requires 2 <= |PastOf(st, req, now)| < cap
    requires forall iv :: iv in PastOf(st, req, now) ==> iv.grade == GradeUngraded
    ensures HandleInterviewRequest(st, req, now, cap).0 == TooManyBadInterviews
  {
    var past := PastOf(st, req, now);
    var h := HistoryOf(st, req, now, cap);
    UnderCapHistoryIsAllPast(st.interviews, req.student, now, cap);
    assert |h| == |past| by {
      assert |multiset(h)| == |multiset(past)|;
    }
    assert h[0] in multiset(past) && h[1] in multiset(past);
    assert h[0] in past && h[1] in past;
    assert TwoLatestFlunked(h);
  }

  /** If one of the two latest past interviews has a grade above 1, the two-strikes rule lets the student through. */
  lemma OneGoodLatestInterviewDoesNotBlock(st: Store, req: Request, now: Time, cap: nat)
    requires |HistoryOf(st, req, now, cap)| >= 2
    requires HistoryOf(st, req, now, cap)[0].grade > 1 || HistoryOf(st, req, now, cap)[1].grade > 1
    ensures HandleInterviewRequest(st, req, now, cap).0 != TooManyBadInterviews
  {
  }

  /**
   * A booking takes a slot that contains the requested window, from a
   * trainer the student has not met in the capped history, and records the
   * interview with that trainer.
   */
  lemma BookedSlotFitsAndTrainerIsNew(st: Store, req: Request, now: Time, cap: nat)
    ensures var r := HandleInterviewRequest(st, req, now, cap);
            r.0.Booked? ==>
              exists s :: s in st.slots
                && s.fromTime <= req.start && s.toTime >= req.end
                && (forall iv :: iv in HistoryOf(st, req, now, cap) ==> iv.trainer.id != s.trainer.id)
                && r.0.trainerName == s.trainer.name
                && r.1.interviews == st.interviews
                     + [Interview(st.nextInterviewId, req.student, s.trainer, GradeUngraded, req.start, req.end)]
  {
    var r := HandleInterviewRequest(st, req, now, cap);
    if r.0.Booked? {
      var i := MatchSlot(st.slots, req.start, req.end, HistoryOf(st, req, now, cap)).value;
      MatchedSlotFits(st, req, HistoryOf(st, req, now, cap), i);
      assert st.slots[i] in st.slots;
    }
  }

  /** The slot at a match position fits the window and has an unseen trainer; booking it records that trainer. */
  lemma MatchedSlotFits(st: Store, req: Request, h: seq<Interview>, i: nat)
    requires MatchSlot(st.slots, req.start, req.end, h) == Some(i)
    ensures i < |st.slots|
    ensures var s := st.slots[i];
            && s.fromTime <= req.start && s.toTime >= req.end
            && (forall iv :: iv in h ==> iv.trainer.id != s.trainer.id)
            && BookTimeSlot(st, i, req.student, req.start, req.end).1.interviews
               == st.interviews + [Interview(st.nextInterviewId, req.student, s.trainer, GradeUngraded, req.start, req.end)]
  {
  }

  /**
   * On a well-formed store a booking keeps the store well-formed and
   * consumes the chosen slot: its key is gone and lies below every key
   * handed out from now on.
   */
  lemma BookingRetiresSlot(st: Store, req: Request, now: Time, cap: nat)
    requires WellFormed(st)
    ensures var r := HandleInterviewRequest(st, req, now, cap);
            && WellFormed(r.1)
            && (r.0.Booked? ==>
                  exists i :: 0 <= i < |st.slots|
                    && r.0.trainerName == st.slots[i].trainer.name
                    && st.slots[i].id < r.1.nextSlotId
                    && forall s :: s in r.1.slots ==> s.id != st.slots[i].id)
  {
    var r := HandleInterviewRequest(st, req, now, cap);
    if r.0.Booked? {
      var i := MatchSlot(st.slots, req.start, req.end, HistoryOf(st, req, now, cap)).value;
      BookingPreservesWellFormed(st, i, req.student, req.start, req.end);
      BookingConsumesSlot(st, i, req.student, req.start, req.end);
    }
  }

  /**
   * A retired slot key (handed out before, no longer in the table) stays
   * retired whatever request comes next, so no later request can book that
   * slot again: at most one booking ever consumes a given slot.
   */
  lemma RetiredSlotStaysRetired(st: Store, k: nat, req: Request, now: Time, cap: nat)
    requires WellFormed(st)
    requires k < st.nextSlotId
    requires forall s :: s in st.slots ==> s.id != k
    ensures var st' := HandleInterviewRequest(st, req, now, cap).1;
            k < st'.nextSlotId && forall s :: s in st'.slots ==> s.id != k
  {
    var r := HandleInterviewRequest(st, req, now, cap);
    if r.0.Booked? {
      var i := MatchSlot(st.slots, req.start, req.end, HistoryOf(st, req, now, cap)).value;
      forall s | s in r.1.slots
        ensures s.id != k
      {
        if s !in st.slots {
          assert s in Remainders(st.slots[i], req.start, req.end, st.nextSlotId);
        }
      }
    }
  }

  /** The HTTP response a handled request turns into. */
  datatype Response = Response(status: nat, body: string)

  /**
   * Eligibility rejections answer 410 with their own message, a failed
   * match 404, a booking 200 carrying the trainer's name.
   */
  function Respond(o: Outcome): (r: Response)
    ensures r.status == 410 <==> o == MaxInterviewsExhausted || o == TooManyBadInterviews
    ensures r.status == 404 <==> o == NoSlotsAvailable
    ensures r.status == 200 <==> o.Booked?
    ensures o.Booked? ==> r.body == o.trainerName
    ensures o == MaxInterviewsExhausted ==> r.body == ErrorMaxInterviewsExceeds
    ensures o == TooManyBadInterviews ==> r.body == ErrorMaxBadInterviews
    ensures o == NoSlotsAvailable ==> r.body == ErrorNoSlots
  {
    match o
    case MaxInterviewsExhausted => Response(410, ErrorMaxInterviewsExceeds)
    case TooManyBadInterviews => Response(410, ErrorMaxBadInterviews)
    case NoSlotsAvailable => Response(404, ErrorNoSlots)
    case Booked(name) => Response(200, name)
  }
}

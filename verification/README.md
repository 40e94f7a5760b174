# Interview-slot allocation, modelled in Dafny

This project models the core of a small Django web service that books a
student into an interview with a trainer. The core is `handle_interview_request`
and its helpers in `timetable/webservice/views.py`. It picks up once the
request has been parsed into a student, a start time and an end time. It then
does four things:

1. **Eligibility.** It reads the student's past interviews: those whose end
   time is before "now", latest end first, cut off at the cap
   `MAX_INTERVIEWS_ALLOWED`. A student whose capped count equals the cap is
   refused ("max interviews exhausted"). Otherwise, a student whose two latest
   interviews are both flunked is refused ("too many bad interviews").
2. **Matching.** It keeps the availability slots whose window contains the
   requested `[start, end)`. It drops every slot whose trainer appears in the
   capped history, whatever that interview's grade. The first survivor is
   chosen. If none survives, the answer is "no slots available".
3. **Booking** (`book_time_slot`). The chosen slot is replaced by a leading
   remainder `[slot.from, start)` and/or a trailing remainder
   `[end, slot.to)` for the same trainer. An ungraded interview is recorded.
   The original slot is deleted, and the trainer's name is returned.
4. **Response.** Each outcome maps to an HTTP status: 410, 410, 404 or 200.

Times are integers. The database is a value, `Models.Store`, that holds the
slot table, the interview table and the next primary key of each. Each
operation is a pure function from a store to an outcome and a new store. The
current time and the interview cap are parameters.

## Modules

- `wrappers.dfy` — `Option`.
- `models.dfy` — the records (`Trainer`, `Student`, `Interview`,
  `AvailabilitySlot`), the store, the constants, and the store invariant
  `WellFormed`. Its key part is what auto-increment primary keys give: each
  table is in ascending key order and every key lies below the next one to be
  handed out. Its window part (every open slot is non-empty) is not enforced
  by the schema in models.py. It is an assumption about the store a request
  starts from, and booking keeps it.
- `history.dfy` — the past-interview query: filter, latest-first sort, cap.
- `eligibility.dfy` — `grade_flunked` and the two-strikes test.
- `matcher.dfy` — the slot matcher.
- `booking.dfy` — `book_time_slot` as one atomic store transition.
- `views.dfy` — the request flow and the outcome-to-response mapping.
- `scenarios.dfy` — the repository's test cases, as concrete stores.

## How the flunk rule really behaves

`grade_flunked` tries to exempt ungraded interviews. Its guard compares the
interview record itself with the integer sentinel -1, not the record's grade.
The model writes that comparison as an equality between two tagged values,
`RecordValue(iv) == IntValue(-1)` (`Eligibility.PyValue`). A record never
equals an integer, so the guard never fires. As written, every grade up to 1
counts as flunked, and that includes the ungraded -1. The model
follows the code (`Eligibility.GradeFlunked`). The apparent intent is kept as
`Eligibility.IntendedFlunked`, which is used only to state the difference.
`Views.UngradedPastInterviewsBlock` proves the effect: a student under the cap
whose past interviews are all still ungraded (two or more of them) is refused
with "too many bad interviews".

## Choices where the source leaves the order open

- `order_by("-toTime")` does not say how interviews with equal end times are
  ordered. The model sorts stably, so store order breaks ties
  (`History.SortLatestFirst`). `History.CappedHistoryIsLatestFirst` states
  what holds whatever the tie-break.
- The matcher's query has no `ORDER BY`. The model takes the first qualifying
  slot in store (primary-key) order.
- The cap is a `nat`, because Django refuses negative slices.
- The source does not check `start < end`, and neither does the model. The
  partition property (`Booking.RemaindersPartitionSlot`) assumes a non-empty
  booked window.

## Model

| member | source | states |
|---|---|---|
| History.PastInterviews | timetable/webservice/views.py:79 | an interview is in the result exactly when it is in the table, belongs to the student and ended strictly before now, and each such interview occurs as often as in the table, so the length is the number of past rows |
| History.InsertLatestFirst | timetable/webservice/views.py:80 | inserting into a latest-first sequence yields a latest-first sequence holding exactly the old entries plus the new one |
| History.SortLatestFirst | timetable/webservice/views.py:80 | the ordering is a permutation of its input with end times non-increasing |
| History.CappedHistoryIsLatestFirst | timetable/webservice/views.py:79-80 | the capped history has min(cap, #past) entries, latest first, all of them past interviews of the student, and no past interview it leaves out ended later than one it keeps |
| History.CappedCountReachesCap | timetable/webservice/views.py:79-82 | the capped count equals the cap exactly when the student has at least cap past interviews |
| History.UnderCapHistoryIsAllPast | timetable/webservice/views.py:79-81 | under the cap, the capped history is a reordering of all the student's past interviews |
| Eligibility.FlunkedExactlyAtMostOne | timetable/webservice/views.py:25-30 | the record-versus-integer guard of line 26 never holds, so a grade above 1 is never flunked and any grade up to 1 is, the ungraded sentinel included |
| Eligibility.FlunkedAsWrittenVersusIntended | timetable/webservice/views.py:25-27 | the code's flunk test and the guard's intent disagree on exactly the ungraded interviews |
| Matcher.FirstCandidateFrom | timetable/webservice/views.py:87-88 | the result is the first position from the start point whose slot contains the window and whose trainer is not excluded; none exactly when no such position exists |
| Matcher.MatchSlot | timetable/webservice/views.py:87-89 | a chosen slot has fromTime <= start and toTime >= end, its trainer is in no interview of the history, and no earlier slot qualifies; no slot is chosen exactly when every slot either misses the window or has a seen trainer |
| Booking.Remainders | timetable/webservice/views.py:51-58 | the replacement slots belong to the slot's trainer and have fresh ascending keys; there is one leading remainder [from, start) iff from != start and one trailing remainder [end, to) iff to != end, and no other; an exact fit leaves none; inside the slot both are non-empty |
| Booking.RemaindersPartitionSlot | timetable/webservice/views.py:53-58 | for from <= start < end <= to, every instant of the slot lies in exactly one of the booked window and the remainders, and no instant outside the slot lies in any |
| Booking.DeleteSlot | timetable/webservice/views.py:61 | deletion keeps exactly the rows whose key differs from the deleted one |
| Booking.BookTimeSlot | timetable/webservice/views.py:42-62 | returns the slot trainer's name; the new slot table holds exactly the other slots and the remainders; exactly one interview (student, slot's trainer, start, end, grade -1) is appended and the rest of the interview table is unchanged |
| Booking.BookingConsumesSlot | timetable/webservice/views.py:50-61 | after booking, no slot carries the consumed slot's key and that key lies below every key handed out later |
| Booking.BookingPreservesWellFormed | timetable/webservice/views.py:53-61 | booking a slot that contains the window keeps both tables in ascending key order below the next keys and keeps slot windows non-empty |
| Views.HandleInterviewRequest | timetable/webservice/views.py:79-90 | max-interviews exactly when the student has at least cap past interviews, whatever the grades; too-many-bad exactly when under the cap with the two latest flunked; no-slots exactly when eligible and no slot qualifies; every rejection leaves the store unchanged; a booking is the first matching slot, booked |
| Views.UngradedPastInterviewsBlock | timetable/webservice/views.py:84-85 | under the cap, two or more past interviews that are all ungraded make the outcome too-many-bad-interviews |
| Views.OneGoodLatestInterviewDoesNotBlock | timetable/webservice/views.py:84-85 | a grade above 1 on either of the two latest past interviews means the outcome is not too-many-bad-interviews |
| Views.BookedSlotFitsAndTrainerIsNew | timetable/webservice/views.py:87-90 | a booking uses a slot that contains the window, from a trainer absent from the capped history, returns that trainer's name and appends exactly the ungraded interview with that trainer |
| Views.BookingRetiresSlot | timetable/webservice/views.py:41-62 | on a well-formed store a request keeps it well-formed, and a booking removes the booked slot's key for good |
| Views.RetiredSlotStaysRetired | timetable/webservice/views.py:41-62 | a retired slot key stays absent after any further request, so no slot is ever consumed twice |
| Views.Respond | timetable/webservice/views.py:82-90 | max-interviews gives 410 with "max interviews exhausted", too-many-bad gives 410 with "too many bad interviews", no-slots gives 404 with "no slots available", and a booking gives 200 carrying the trainer's name; no other outcome gets these statuses |
| Scenarios.MaxInterviewsScenario | timetable/webservice/tests.py:82-99 | three ungraded past interviews with the cap at 3 give max-interviews and leave the store unchanged |
| Scenarios.BadInterviewsScenario | timetable/webservice/tests.py:102-117 | two past interviews graded 0 give too-many-bad-interviews |
| Scenarios.OnlySeenTrainersScenario | timetable/webservice/tests.py:119-138 | fitting slots held only by seen trainers give no-slots |
| Scenarios.NewTrainerScenario | timetable/webservice/tests.py:140-167 | a fitting slot of a new trainer is booked: its name is returned, the slot splits into both remainders and an ungraded interview is recorded |

## Left out

- The HTTP method check and its 405 answer (views.py lines 73-74): this is framework dispatch.
- Request parsing: JSON decoding, the required-field check, ISO-8601 date parsing and the student lookup with its 400 answers (views.py lines 32-39, 75-78). The model starts from a parsed `Views.Request`.
- `transaction.atomic` and the `select_for_update` row lock (views.py lines 41, 50). Booking is one atomic transition of the store value. A slot row that has vanished between matching and locking raises an uncaught error in the source. That path is not modelled, so `Booking.BookTimeSlot` requires the chosen position to exist.
- The wall clock `datetime.now` (views.py line 79): "now" is a parameter.
- Time zones and date-time precision: times are integers.
- Django ORM details: query laziness, `values_list` subqueries and the `on_delete` behaviour of models.py.
- `__str__` of the models, except that the trainer's name is what the booking returns. Also `handle_ping`, admin.py and urls.py.
- Views.Respond: the 200 body is the trainer's name rather than the JSON object `{"trainer": name}`, because JSON encoding is not modelled.
- History.SortLatestFirst: breaks ties between equal end times by store order. The database leaves that order open, so this is one admissible choice, not the only one.

/**
 * The flunk predicate (views.py lines 25-30) and the two-strikes rule that
 * uses it.
 *
 * The guard meant to spare ungraded interviews compares the interview record
 * itself with the integer sentinel, not its grade. A record never equals an
 * integer, so the guard never fires: as written, every grade up to 1 counts
 * as flunked, the ungraded sentinel -1 included. `GradeFlunked` models that;
 * `IntendedFlunked` is the reading the guard was evidently written for, kept
 * only to state the difference.
 */
module Eligibility {
  import opened Models

  /**
   * The values the guard of line 26 compares: Python's `==` between an
   * interview record and an integer is a comparison of differently tagged
   * values.
   */
  datatype PyValue = IntValue(n: int) | RecordValue(record: Interview)

  /**
   * `grade_flunked` as written, with its three branches: the sentinel guard
   * compares the record (not its grade) with `GradeUngraded`, then a grade
   * above 1 passes, and everything else is a flunk.
   */
  predicate GradeFlunked(iv: Interview) {
    if RecordValue(iv) == IntValue(GradeUngraded) then false
    else if iv.grade > 1 then false
    else true
  }

  /** The guard's evident intent: an ungraded interview is not a flunk. */
  predicate IntendedFlunked(iv: Interview) {
    iv.grade != GradeUngraded && iv.grade <= 1
  }

  /**
   * The sentinel guard is dead: a record never equals an integer. Hence a
   * grade above 1 is never a flunk and every other grade is, the sentinel
   * included.
   */
  lemma FlunkedExactlyAtMostOne(iv: Interview)
    ensures RecordValue(iv) != IntValue(GradeUngraded)
    ensures iv.grade > 1 ==> !GradeFlunked(iv)
    ensures iv.grade <= 1 ==> GradeFlunked(iv)
    ensures iv.grade == GradeUngraded ==> GradeFlunked(iv)
  {
  }

  /** The code and its intent differ on exactly the ungraded interviews. */
  lemma FlunkedAsWrittenVersusIntended(iv: Interview)
    ensures GradeFlunked(iv) <==> IntendedFlunked(iv) || iv.grade == GradeUngraded
    ensures GradeFlunked(iv) != IntendedFlunked(iv) <==> iv.grade == GradeUngraded
  {
  }

  /**
   * The two-strikes test of line 84 on a latest-first history: at least two
   * entries and the two latest both flunked.
   */
  predicate TwoLatestFlunked(h: seq<Interview>) {
    |h| >= 2 && GradeFlunked(h[0]) && GradeFlunked(h[1])
  }
}

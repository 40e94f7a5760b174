/**
 * The student's interview history as the request handler reads it: the
 * interviews of that student that ended before "now", latest end first,
 * cut off after the configured cap (views.py lines 79-81).
 *
 * The database's order for two interviews with the same end time is not
 * fixed; this model breaks such ties by store order (earlier row first). The
 * lemma `CappedHistoryIsLatestFirst` states what holds whatever the tie-break.
 */
module History {
  import opened Models

  predicate IsPast(iv: Interview, student: Student, now: Time) {
    iv.student.id == student.id && iv.toTime < now
  }

  /** The student's interviews that ended strictly before `now`, in store order. */
  function PastInterviews(ivs: seq<Interview>, student: Student, now: Time): (r: seq<Interview>)
    ensures forall iv :: iv in r <==> iv in ivs && IsPast(iv, student, now)
    ensures forall iv :: multiset(r)[iv] == if IsPast(iv, student, now) then multiset(ivs)[iv] else 0
    ensures |r| <= |ivs|
  {
    if |ivs| == 0 then []
    else
      assert ivs == [ivs[0]] + ivs[1..];
      if IsPast(ivs[0], student, now) then [ivs[0]] + PastInterviews(ivs[1..], student, now)
      else PastInterviews(ivs[1..], student, now)
  }

  /** When every interview is a past one of the student, the filter keeps them all, in order. */
  lemma {:induction false} AllPastKept(ivs: seq<Interview>, student: Student, now: Time)
    requires forall iv :: iv in ivs ==> IsPast(iv, student, now)
    ensures PastInterviews(ivs, student, now) == ivs
    decreases |ivs|
  {
    if |ivs| > 0 {
      assert ivs[0] in ivs;
      assert forall iv :: iv in ivs[1..] ==> iv in ivs;
      AllPastKept(ivs[1..], student, now);
      assert PastInterviews(ivs, student, now) == [ivs[0]] + PastInterviews(ivs[1..], student, now);
      assert ivs == [ivs[0]] + ivs[1..];
    }
  }

  /** Latest end time first. */
  ghost predicate LatestFirst(s: seq<Interview>) {
    forall i, j :: 0 <= i < j < |s| ==> s[i].toTime >= s[j].toTime
  }

  /** An entry ending no earlier than every entry of a latest-first sequence can lead it. */
  lemma ConsLatestFirst(a: Interview, rest: seq<Interview>)
    requires LatestFirst(rest)
    requires forall j :: 0 <= j < |rest| ==> rest[j].toTime <= a.toTime
    ensures LatestFirst([a] + rest)
  {
    var r := [a] + rest;
    forall i, j | 0 <= i < j < |r|
      ensures r[i].toTime >= r[j].toTime
    {
      assert r[j] == rest[j - 1];
      if i > 0 {
        assert r[i] == rest[i - 1];
      }
    }
  }

  /** Places `x` into the latest-first sequence `s`, ahead of entries that end at the same time. */
  function InsertLatestFirst(x: Interview, s: seq<Interview>): (r: seq<Interview>)
    requires LatestFirst(s)
    ensures LatestFirst(r)
    ensures multiset(r) == multiset(s) + multiset{x}
    ensures r[0] == x || (|s| > 0 && r[0] == s[0])
    decreases |s|
  {
    if |s| == 0 || x.toTime >= s[0].toTime then [x] + s
    else
      var rest := InsertLatestFirst(x, s[1..]);
      assert s == [s[0]] + s[1..];
      assert forall j :: 0 <= j < |rest| ==> rest[j].toTime <= s[0].toTime by {
        assert rest[0].toTime <= s[0].toTime;
      }
      ConsLatestFirst(s[0], rest);
      [s[0]] + rest
  }

  /** The `order_by("-toTime")` of the query: a latest-first permutation of `s`. */
  function SortLatestFirst(s: seq<Interview>): (r: seq<Interview>)
    ensures LatestFirst(r)
    ensures multiset(r) == multiset(s)
    decreases |s|
  {
    if |s| == 0 then []
    else
      assert s == [s[0]] + s[1..];
      InsertLatestFirst(s[0], SortLatestFirst(s[1..]))
  }

  function Min(a: nat, b: nat): nat {
    if a <= b then a else b
  }

  /** The sliced query `[:cap]` over the student's past interviews, latest first. */
  function CappedHistory(ivs: seq<Interview>, student: Student, now: Time, cap: nat): seq<Interview> {
    var sorted := SortLatestFirst(PastInterviews(ivs, student, now));
    sorted[..Min(cap, |sorted|)]
  }

  /** In a latest-first sequence, no entry after position `k` ends later than one before it. */
  lemma TailNoLaterThanPrefix(sorted: seq<Interview>, k: nat)
    requires LatestFirst(sorted)
    requires k <= |sorted|
    ensures forall p, q :: p in sorted[k..] && q in sorted[..k] ==> p.toTime <= q.toTime
  {
    forall p, q | p in sorted[k..] && q in sorted[..k]
      ensures p.toTime <= q.toTime
    {
      var j :| 0 <= j < |sorted[k..]| && sorted[k..][j] == p;
      var i :| 0 <= i < |sorted[..k]| && sorted[..k][i] == q;
      assert sorted[i] == q && sorted[k + j] == p;
    }
  }

  /** Cutting a latest-first sequence after `k` entries keeps its `k` latest entries. */
  lemma PrefixKeepsLatest(sorted: seq<Interview>, k: nat)
    requires LatestFirst(sorted)
    requires k <= |sorted|
    ensures forall p: Interview, q: Interview ::
              p in multiset(sorted) - multiset(sorted[..k]) && q in sorted[..k] ==> p.toTime <= q.toTime
  {
    assert sorted == sorted[..k] + sorted[k..];
    assert multiset(sorted) - multiset(sorted[..k]) == multiset(sorted[k..]);
    TailNoLaterThanPrefix(sorted, k);
  }

  /** The capped history is the first min(cap, #past) entries of a latest-first permutation of the past. */
  lemma CappedHistoryIsSortedPrefix(ivs: seq<Interview>, student: Student, now: Time, cap: nat)
    ensures var past := PastInterviews(ivs, student, now);
            var sorted := SortLatestFirst(past);
            && |sorted| == |past|
            && CappedHistory(ivs, student, now, cap) == sorted[..Min(cap, |past|)]
  {
    var past := PastInterviews(ivs, student, now);
    assert |multiset(SortLatestFirst(past))| == |multiset(past)|;
  }

  /** A prefix of a permutation of `past` is a sub-multiset of `past`, hence made of its entries. */
  lemma PrefixOfPermutation(sorted: seq<Interview>, past: seq<Interview>, k: nat)
    requires multiset(sorted) == multiset(past)
    requires k <= |sorted|
    ensures multiset(sorted[..k]) <= multiset(past)
    ensures forall iv :: iv in sorted[..k] ==> iv in past
  {
    assert sorted == sorted[..k] + sorted[k..];
    assert multiset(sorted) == multiset(sorted[..k]) + multiset(sorted[k..]);
    forall iv | iv in sorted[..k]
      ensures iv in past
    {
      assert iv in multiset(sorted[..k]);
      assert iv in multiset(past);
    }
  }

  /**
   * Whatever the tie-break: the capped history holds min(cap, #past) of the
   * student's past interviews, latest first, and no past interview it leaves
   * out ended later than one it keeps.
   */
  lemma CappedHistoryIsLatestFirst(ivs: seq<Interview>, student: Student, now: Time, cap: nat)
    ensures var past := PastInterviews(ivs, student, now);
            var h := CappedHistory(ivs, student, now, cap);
            && |h| == Min(cap, |past|)
            && LatestFirst(h)
            && multiset(h) <= multiset(past)
            && (forall iv :: iv in h ==> iv in ivs && IsPast(iv, student, now))
            && (forall p: Interview, q: Interview ::
                  p in multiset(past) - multiset(h) && q in h ==> p.toTime <= q.toTime)
  {
    var past := PastInterviews(ivs, student, now);
    var sorted := SortLatestFirst(past);
    CappedHistoryIsSortedPrefix(ivs, student, now, cap);
    var k := Min(cap, |sorted|);
    var h := sorted[..k];
    PrefixOfPermutation(sorted, past, k);
    forall iv | iv in h
      ensures iv in ivs && IsPast(iv, student, now)
    {
      assert iv in past;
    }
    assert LatestFirst(h);
    PrefixKeepsLatest(sorted, k);
  }

  /** The capped count reaches the cap exactly when the student has at least `cap` past interviews. */
  lemma CappedCountReachesCap(ivs: seq<Interview>, student: Student, now: Time, cap: nat)
    ensures |CappedHistory(ivs, student, now, cap)| == cap
            <==> |PastInterviews(ivs, student, now)| >= cap
  {
    CappedHistoryIsLatestFirst(ivs, student, now, cap);
  }

  /** Under the cap, the capped history is a reordering of all the student's past interviews. */
  lemma UnderCapHistoryIsAllPast(ivs: seq<Interview>, student: Student, now: Time, cap: nat)
    requires |PastInterviews(ivs, student, now)| < cap
    ensures multiset(CappedHistory(ivs, student, now, cap)) == multiset(PastInterviews(ivs, student, now))
  {
    CappedHistoryIsSortedPrefix(ivs, student, now, cap);
    var sorted := SortLatestFirst(PastInterviews(ivs, student, now));
    assert sorted[..Min(cap, |sorted|)] == sorted;
  }
}

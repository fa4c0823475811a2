/** The conflict test of schedule_builder.py (time_to_int, conflict): two
    sections conflict iff some meeting of one and some meeting of the other
    fall on the same day and overlap as half-open intervals
    [start, end), compared through time_to_int. */
module Conflicts {
  import opened Times
  import opened Domain

  function Max(a: int, b: int): int { if a >= b then a else b }

  function Min(a: int, b: int): int { if a <= b then a else b }

  /** The test inside the loops: same day and max(s1, s2) < min(e1, e2). */
  predicate SlotsOverlap(t1: TimeSlot, t2: TimeSlot)
    requires IntSlot(t1) && IntSlot(t2)
  {
    t1.day == t2.day
    && Max(TimeToInt(t1.start), TimeToInt(t2.start)) < Min(TimeToInt(t1.end), TimeToInt(t2.end))
  }

  /** The inner loop `for t2 in c2.times`, returning at the first overlap. */
  function OverlapsAny(t1: TimeSlot, ts2: seq<TimeSlot>): (r: bool)
    requires IntSlot(t1) && IntSlots(ts2)
    ensures r <==> exists j :: 0 <= j < |ts2| && SlotsOverlap(t1, ts2[j])
  {
    if ts2 == [] then false
    else if SlotsOverlap(t1, ts2[0]) then true
    else
      assert forall j :: 1 <= j < |ts2| ==> ts2[j] == ts2[1..][j - 1];
      OverlapsAny(t1, ts2[1..])
  }

  /** The outer loop `for t1 in c1.times`. */
  function AnyOverlap(ts1: seq<TimeSlot>, ts2: seq<TimeSlot>): (r: bool)
    requires IntSlots(ts1) && IntSlots(ts2)
    ensures r <==> exists i, j :: 0 <= i < |ts1| && 0 <= j < |ts2| && SlotsOverlap(ts1[i], ts2[j])
  {
    if ts1 == [] then false
    else if OverlapsAny(ts1[0], ts2) then true
    else
      assert forall i :: 1 <= i < |ts1| ==> ts1[i] == ts1[1..][i - 1];
      AnyOverlap(ts1[1..], ts2)
  }

  /** conflict(c1, c2) */
  function Conflict(c1: Class, c2: Class): (r: bool)
    requires IntTimes(c1) && IntTimes(c2)
    ensures r <==> exists i, j :: 0 <= i < |c1.times| && 0 <= j < |c2.times|
                                 && SlotsOverlap(c1.times[i], c2.times[j])
  {
    assert IntSlots(c1.times) && IntSlots(c2.times);
    AnyOverlap(c1.times, c2.times)
  }

  /** The conflict test does not depend on argument order. */
  lemma ConflictSymmetric(a: Class, b: Class)
    requires IntTimes(a) && IntTimes(b)
    ensures Conflict(a, b) == Conflict(b, a)
  {
    if Conflict(a, b) {
      ConflictSwap(a, b);
    }
    if Conflict(b, a) {
      ConflictSwap(b, a);
    }
  }

  lemma ConflictSwap(a: Class, b: Class)
    requires IntTimes(a) && IntTimes(b) && Conflict(a, b)
    ensures Conflict(b, a)
  {
    var i, j :| 0 <= i < |a.times| && 0 <= j < |b.times| && SlotsOverlap(a.times[i], b.times[j]);
    OverlapSymmetric(a.times[i], b.times[j]);
  }

  lemma OverlapSymmetric(t1: TimeSlot, t2: TimeSlot)
    requires IntSlot(t1) && IntSlot(t2)
    ensures SlotsOverlap(t1, t2) == SlotsOverlap(t2, t1)
  {
  }

  /** Sections that never meet on a common day do not conflict. */
  lemma NoCommonDayNoConflict(a: Class, b: Class)
    requires IntTimes(a) && IntTimes(b)
    requires forall i, j :: 0 <= i < |a.times| && 0 <= j < |b.times| ==> a.times[i].day != b.times[j].day
    ensures !Conflict(a, b)
  {
  }

  /** A meeting ending exactly when the other starts does not overlap it,
      in either argument order. */
  lemma BackToBackNoOverlap(t1: TimeSlot, t2: TimeSlot)
    requires IntSlot(t1) && IntSlot(t2)
    requires TimeToInt(t1.end) == TimeToInt(t2.start)
    ensures !SlotsOverlap(t1, t2) && !SlotsOverlap(t2, t1)
  {
  }

  /** Sections whose same-day meetings all end before or exactly when the
      other one starts do not conflict. */
  lemma SeparatedNoConflict(a: Class, b: Class)
    requires IntTimes(a) && IntTimes(b)
    requires forall i, j :: 0 <= i < |a.times| && 0 <= j < |b.times| && a.times[i].day == b.times[j].day ==>
               TimeToInt(a.times[i].end) <= TimeToInt(b.times[j].start)
               || TimeToInt(b.times[j].end) <= TimeToInt(a.times[i].start)
    ensures !Conflict(a, b)
  {
  }

  /** The minute x lies in the half-open interval [start, end) of `t`. */
  predicate Covers(t: TimeSlot, x: int)
    requires IntSlot(t)
  {
    TimeToInt(t.start) <= x < TimeToInt(t.end)
  }

  /** The overlap test means exactly: same day and some instant in both
      half-open intervals. */
  lemma OverlapMeansSharedInstant(t1: TimeSlot, t2: TimeSlot)
    requires IntSlot(t1) && IntSlot(t2)
    ensures SlotsOverlap(t1, t2) <==> t1.day == t2.day && exists x :: Covers(t1, x) && Covers(t2, x)
  {
    if SlotsOverlap(t1, t2) {
      var x := Max(TimeToInt(t1.start), TimeToInt(t2.start));
      assert Covers(t1, x) && Covers(t2, x);
    }
  }

  /** Two sections conflict iff some same-day pair of their meetings shares
      an instant: every positive overlap is a conflict and nothing else is. */
  lemma ConflictMeansSharedInstant(a: Class, b: Class)
    requires IntTimes(a) && IntTimes(b)
    ensures Conflict(a, b) <==>
      exists i, j, x :: 0 <= i < |a.times| && 0 <= j < |b.times| && a.times[i].day == b.times[j].day
                        && Covers(a.times[i], x) && Covers(b.times[j], x)
  {
    if Conflict(a, b) {
      ConflictHasSharedInstant(a, b);
    }
    if exists i, j, x :: 0 <= i < |a.times| && 0 <= j < |b.times| && a.times[i].day == b.times[j].day
                        && Covers(a.times[i], x) && Covers(b.times[j], x) {
      var i, j, x :| 0 <= i < |a.times| && 0 <= j < |b.times| && a.times[i].day == b.times[j].day
                     && Covers(a.times[i], x) && Covers(b.times[j], x);
      SharedInstantConflict(a, b, i, j, x);
    }
  }

  lemma SharedInstantConflict(a: Class, b: Class, i: nat, j: nat, x: int)
    requires IntTimes(a) && IntTimes(b) && i < |a.times| && j < |b.times|
    requires a.times[i].day == b.times[j].day && IntSlot(a.times[i]) && IntSlot(b.times[j])
    requires Covers(a.times[i], x) && Covers(b.times[j], x)
    ensures Conflict(a, b)
  {
    OverlapMeansSharedInstant(a.times[i], b.times[j]);
  }

  lemma ConflictHasSharedInstant(a: Class, b: Class)
    requires IntTimes(a) && IntTimes(b) && Conflict(a, b)
    ensures exists i, j, x :: 0 <= i < |a.times| && 0 <= j < |b.times| && a.times[i].day == b.times[j].day
                              && Covers(a.times[i], x) && Covers(b.times[j], x)
  {
    var i, j :| 0 <= i < |a.times| && 0 <= j < |b.times| && SlotsOverlap(a.times[i], b.times[j]);
    OverlapMeansSharedInstant(a.times[i], b.times[j]);
    var x :| Covers(a.times[i], x) && Covers(b.times[j], x);
  }

  /** On zero-padded "HH:MM" times the time_to_int test is the same test on
      minutes since midnight. */
  lemma OverlapInMinutes(t1: TimeSlot, t2: TimeSlot)
    requires IsClock(t1.start) && IsClock(t1.end) && IsClock(t2.start) && IsClock(t2.end)
    ensures IntSlot(t1) && IntSlot(t2)
    ensures IsHourMinute(t1.start) && IsHourMinute(t1.end) && IsHourMinute(t2.start) && IsHourMinute(t2.end)
    ensures SlotsOverlap(t1, t2) <==>
      t1.day == t2.day && Max(Minutes(t1.start), Minutes(t2.start)) < Min(Minutes(t1.end), Minutes(t2.end))
  {
    ClockOrder(t1.start, t1.end);
    ClockOrder(t2.start, t2.end);
    ClockOrder(t1.start, t2.end);
    ClockOrder(t2.start, t1.end);
    ClockOrder(t1.start, t2.start);
    ClockOrder(t1.end, t2.end);
  }
}

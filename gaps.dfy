/** total_gap_time: the meetings of a schedule are bucketed by day (a
    defaultdict(list), keys in first-seen order), each day's (start, end)
    pairs are sorted, and the idle time between consecutive pairs,
    max(0, next.start - prev.end), is summed over all days.

    The source works in hour fractions h + m/60; this model works in exact
    minutes since midnight (Hours converts), so a gap of 1 hour is 60. */
module Gaps {
  import opened Times
  import opened Domain

  /** A meeting as (start, end) in minutes since midnight. */
  type Span = (int, int)

  // ----- Sorting the (start, end) pairs -----

  /** Python's tuple order on pairs. */
  predicate SpanLe(a: Span, b: Span)
  {
    a.0 < b.0 || (a.0 == b.0 && a.1 <= b.1)
  }

  predicate SortedSpans(t: seq<Span>)
  {
    forall i, j :: 0 <= i < j < |t| ==> SpanLe(t[i], t[j])
  }

  function Insert(x: Span, t: seq<Span>): seq<Span>
  {
    if t == [] then [x] else if SpanLe(x, t[0]) then [x] + t else [t[0]] + Insert(x, t[1..])
  }

  lemma {:induction false} InsertSorted(x: Span, t: seq<Span>)
    requires SortedSpans(t)
    ensures SortedSpans(Insert(x, t)) && multiset(Insert(x, t)) == multiset(t) + multiset{x}
  {
    if t == [] {
    } else if SpanLe(x, t[0]) {
      SortedCons(x, t);
    } else {
      var r := Insert(x, t[1..]);
      InsertSorted(x, t[1..]);
      forall k | 0 <= k < |r| ensures SpanLe(t[0], r[k]) {
        assert r[k] in multiset(r);
        if r[k] != x {
          assert r[k] in multiset(t[1..]);
        }
      }
      SortedCons(t[0], r);
      assert t == [t[0]] + t[1..];
    }
  }

  /** A pair no greater than any element of a sorted list can go in front. */
  lemma SortedCons(y: Span, r: seq<Span>)
    requires SortedSpans(r)
    requires forall k :: 0 <= k < |r| ==> SpanLe(y, r[k])
    ensures SortedSpans([y] + r)
  {
    assert forall k :: 0 < k < |r| + 1 ==> ([y] + r)[k] == r[k - 1];
  }

  /** times.sort(): the pairs in tuple order, as a permutation of the input. */
  function SortSpans(t: seq<Span>): (r: seq<Span>)
    ensures SortedSpans(r) && multiset(r) == multiset(t)
  {
    if t == [] then []
    else
      var rest := SortSpans(t[1..]);
      InsertSorted(t[0], rest);
      assert t == [t[0]] + t[1..];
      Insert(t[0], rest)
  }

  /** Sorting is determined by its input's contents: any sorted permutation
      of `t` is SortSpans(t), so the model and list.sort agree. */
  lemma {:induction false} SortedUnique(a: seq<Span>, b: seq<Span>)
    requires SortedSpans(a) && SortedSpans(b) && multiset(a) == multiset(b)
    ensures a == b
  {
    if a != [] {
      SortedHeads(a, b);
      MultisetTail(a);
      MultisetTail(b);
      SortedUnique(a[1..], b[1..]);
    }
  }

  lemma MultisetTail<T>(a: seq<T>)
    requires a != []
    ensures multiset(a[1..]) == multiset(a) - multiset{a[0]}
  {
    assert a == [a[0]] + a[1..];
  }

  /** Two sorted permutations of one another start alike. */
  lemma SortedHeads(a: seq<Span>, b: seq<Span>)
    requires SortedSpans(a) && SortedSpans(b) && multiset(a) == multiset(b) && a != []
    ensures b != [] && a[0] == b[0]
  {
    assert a[0] in multiset(b);
    var i :| 0 <= i < |b| && b[i] == a[0];
    assert b[0] in multiset(a);
    var j :| 0 <= j < |a| && a[j] == b[0];
    if i > 0 {
      assert SpanLe(b[0], b[i]);
    }
    if j > 0 {
      assert SpanLe(a[0], a[j]);
    }
  }

  // ----- Summing the idle time -----

  /** The gaps between consecutive pairs, each clipped at 0. */
  function SumGaps(t: seq<Span>): (g: int)
    ensures g >= 0
  {
    if |t| <= 1 then 0
    else SumGaps(t[..|t| - 1]) + Max0(t[|t| - 1].0 - t[|t| - 2].1)
  }

  function Max0(x: int): int { if x >= 0 then x else 0 }

  /** The total length of the pairs. */
  function Busy(t: seq<Span>): int
  {
    if t == [] then 0 else Busy(t[..|t| - 1]) + (t[|t| - 1].1 - t[|t| - 1].0)
  }

  lemma BusySnoc(t: seq<Span>, x: Span)
    ensures Busy(t + [x]) == Busy(t) + (x.1 - x.0)
  {
    assert (t + [x])[..|t|] == t;
  }

  /** Consecutive meetings neither overlap nor run backwards. */
  predicate Sequential(t: seq<Span>)
  {
    (forall i :: 0 <= i < |t| ==> t[i].0 <= t[i].1)
    && forall i :: 0 <= i < |t| - 1 ==> t[i].1 <= t[i + 1].0
  }

  /** On a day whose meetings follow one another without overlapping, the
      summed gap is the idle time between the first start and the last end:
      the span of the day minus the time spent in class. */
  lemma {:induction false} GapIsIdleTime(t: seq<Span>)
    requires |t| >= 1 && Sequential(t)
    ensures SumGaps(t) == (t[|t| - 1].1 - t[0].0) - Busy(t)
  {
    var init := t[..|t| - 1];
    if |t| == 1 {
      assert init == [];
    } else {
      assert Sequential(init);
      GapIsIdleTime(init);
      assert init[|init| - 1] == t[|t| - 2] && init[0] == t[0];
    }
  }

  // ----- The meetings of a schedule, by day -----

  predicate HourMinuteMeetings(ms: seq<TimeSlot>)
  {
    forall k :: 0 <= k < |ms| ==> IsHourMinute(ms[k].start) && IsHourMinute(ms[k].end)
  }

  /** (sh + sm/60, eh + em/60), in minutes. */
  function SpanOf(t: TimeSlot): Span
    requires IsHourMinute(t.start) && IsHourMinute(t.end)
  {
    (Minutes(t.start), Minutes(t.end))
  }

  /** The keys of by_day: the meeting days in first-seen order. */
  function DaysOf(ms: seq<TimeSlot>): seq<string>
  {
    if ms == [] then []
    else
      var seen := DaysOf(ms[..|ms| - 1]);
      var day := ms[|ms| - 1].day;
      if day in seen then seen else seen + [day]
  }

  /** by_day[d]: the pairs of day `d`'s meetings, in meeting order. */
  function SpansOn(ms: seq<TimeSlot>, d: string): seq<Span>
    requires HourMinuteMeetings(ms)
  {
    if ms == [] then []
    else
      var last := ms[|ms| - 1];
      SpansOn(ms[..|ms| - 1], d) + (if last.day == d then [SpanOf(last)] else [])
  }

  /** The summed gaps of the listed days. */
  function GapOver(days: seq<string>, ms: seq<TimeSlot>): (g: int)
    requires HourMinuteMeetings(ms)
    ensures g >= 0
  {
    if days == [] then 0
    else GapOver(days[..|days| - 1], ms) + SumGaps(SortSpans(SpansOn(ms, days[|days| - 1])))
  }

  lemma MeetingsReadable(schedule: seq<Class>)
    requires HourMinuteSchedule(schedule)
    ensures HourMinuteMeetings(Meetings(schedule))
  {
    MeetingsHourMinute(schedule);
    var ms := Meetings(schedule);
    assert forall k :: 0 <= k < |ms| ==> ms[k] in ms;
  }

  /** total_gap_time(schedule), in minutes; never negative. */
  function TotalGap(schedule: seq<Class>): (g: int)
    requires HourMinuteSchedule(schedule)
    ensures g >= 0
  {
    MeetingsReadable(schedule);
    var ms := Meetings(schedule);
    GapOver(DaysOf(ms), ms)
  }

  /** total_gap_time: the by_day buckets are filled in one pass over the
      meetings, then each bucket is sorted and its gaps are added up. */
  method TotalGapTime(schedule: seq<Class>) returns (gap: int)
    requires HourMinuteSchedule(schedule)
    ensures gap == TotalGap(schedule)
  {
    var days, byDay := BucketByDay(schedule);
    assert forall k :: 0 <= k < |days| ==> days[k] in days;
    gap := SumOverDays(days, byDay, Meetings(schedule));
  }

  /** The second loop of total_gap_time: for each bucket, in key order,
      sort it and add up its gaps. */
  method SumOverDays(days: seq<string>, byDay: map<string, seq<Span>>, ghost ms: seq<TimeSlot>) returns (gap: int)
    requires HourMinuteMeetings(ms)
    requires forall k :: 0 <= k < |days| ==> days[k] in byDay && byDay[days[k]] == SpansOn(ms, days[k])
    ensures gap == GapOver(days, ms)
  {
    gap := 0;
    for d := 0 to |days|
      invariant gap == GapOver(days[..d], ms)
    {
      var day := days[d];
      var times := SortSpans(byDay[day]);
      var dayGap := SumDayGaps(times);
      assert days[..d + 1][..d] == days[..d] && days[..d + 1][d] == day;
      gap := gap + dayGap;
    }
    assert days[..|days|] == days;
  }

  /** `days` and `byDay` are by_day after appending the meetings `ms`. */
  ghost predicate BucketsOf(days: seq<string>, byDay: map<string, seq<Span>>, ms: seq<TimeSlot>)
  {
    HourMinuteMeetings(ms)
    && days == DaysOf(ms)
    && (forall d :: d in byDay <==> d in days)
    && forall d :: d in byDay ==> byDay[d] == SpansOn(ms, d)
  }

  /** The first loop of total_gap_time: by_day[ts.day].append(...) for every
      meeting, keys in first-seen order. */
  method BucketByDay(schedule: seq<Class>) returns (days: seq<string>, byDay: map<string, seq<Span>>)
    requires HourMinuteSchedule(schedule)
    ensures BucketsOf(days, byDay, Meetings(schedule))
  {
    days := [];
    byDay := map[];
    assert schedule[..0] == [];
    for i := 0 to |schedule|
      invariant BucketsOf(days, byDay, Meetings(schedule[..i]))
    {
      assert schedule[..i + 1][..i] == schedule[..i];
      assert HourMinuteTimes(schedule[i]);
      days, byDay := BucketMeetings(days, byDay, Meetings(schedule[..i]), schedule[i].times);
    }
    assert schedule[..|schedule|] == schedule;
  }

  /** The inner loop `for ts in cls.times` of the first loop. */
  method BucketMeetings(days0: seq<string>, byDay0: map<string, seq<Span>>, ghost before: seq<TimeSlot>,
                        times: seq<TimeSlot>)
    returns (days: seq<string>, byDay: map<string, seq<Span>>)
    requires BucketsOf(days0, byDay0, before)
    requires HourMinuteMeetings(times)
    ensures BucketsOf(days, byDay, before + times)
  {
    days, byDay := days0, byDay0;
    ghost var ms := before;
    assert before + times[..0] == before;
    for k := 0 to |times|
      invariant ms == before + times[..k]
      invariant BucketsOf(days, byDay, ms)
    {
      days, byDay := AddMeeting(days, byDay, ms, times[k]);
      ms := ms + [times[k]];
      PrefixSnoc(before, times, k);
    }
    assert times[..|times|] == times;
  }

  lemma PrefixSnoc<T>(a: seq<T>, b: seq<T>, k: int)
    requires 0 <= k < |b|
    ensures a + b[..k + 1] == (a + b[..k]) + [b[k]]
  {
    assert b[..k + 1] == b[..k] + [b[k]];
  }

  /** by_day[ts.day].append((start, end)) for one meeting. */
  method AddMeeting(days0: seq<string>, byDay0: map<string, seq<Span>>, ghost ms: seq<TimeSlot>, ts: TimeSlot)
    returns (days: seq<string>, byDay: map<string, seq<Span>>)
    requires BucketsOf(days0, byDay0, ms)
    requires IsHourMinute(ts.start) && IsHourMinute(ts.end)
    ensures BucketsOf(days, byDay, ms + [ts])
  {
    BucketStep(days0, byDay0, ms, ts);
    var span := SpanOf(ts);
    if ts.day in byDay0 {
      days, byDay := days0, byDay0[ts.day := byDay0[ts.day] + [span]];
    } else {
      days, byDay := days0 + [ts.day], byDay0[ts.day := [span]];
    }
  }

  /** One by_day[ts.day].append(...) keeps the buckets those of the
      meetings seen so far. */
  lemma BucketStep(days: seq<string>, byDay: map<string, seq<Span>>, ms: seq<TimeSlot>, ts: TimeSlot)
    requires BucketsOf(days, byDay, ms)
    requires IsHourMinute(ts.start) && IsHourMinute(ts.end)
    ensures ts.day in byDay ==> BucketsOf(days, byDay[ts.day := byDay[ts.day] + [SpanOf(ts)]], ms + [ts])
    ensures ts.day !in byDay ==> BucketsOf(days + [ts.day], byDay[ts.day := [SpanOf(ts)]], ms + [ts])
  {
    var ms' := ms + [ts];
    assert ms'[..|ms|] == ms;
    assert HourMinuteMeetings(ms');
    if ts.day !in byDay {
      SpansOnAbsent(ms, ts.day);
    }
  }

  /** The inner loop `for i in range(len(times) - 1)` over one sorted day. */
  method SumDayGaps(times: seq<Span>) returns (gap: int)
    ensures gap == SumGaps(times)
  {
    gap := 0;
    var i := 0;
    while i + 1 < |times|
      invariant 0 <= i && (times == [] ==> i == 0) && (times != [] ==> i < |times|)
      invariant gap == (if times == [] then 0 else SumGaps(times[..i + 1]))
    {
      assert times[..i + 2][..i + 1] == times[..i + 1];
      gap := gap + Max0(times[i + 1].0 - times[i].1);
      i := i + 1;
    }
    assert times != [] ==> times[..i + 1] == times;
  }

  /** A day with no meeting yet has an empty bucket. */
  lemma {:induction false} SpansOnAbsent(ms: seq<TimeSlot>, d: string)
    requires HourMinuteMeetings(ms) && d !in DaysOf(ms)
    ensures SpansOn(ms, d) == []
  {
    if ms != [] {
      SpansOnAbsent(ms[..|ms| - 1], d);
    }
  }

  // ----- Properties of the gap score -----

  /** A day none of whose meetings shares its day with another has at most
      one pair. */
  lemma {:induction false} DistinctDaysAtMostOne(ms: seq<TimeSlot>, d: string)
    requires HourMinuteMeetings(ms)
    requires forall i, j :: 0 <= i < j < |ms| ==> ms[i].day != ms[j].day
    ensures |SpansOn(ms, d)| <= 1
  {
    if ms != [] {
      var init := ms[..|ms| - 1];
      DistinctDaysAtMostOne(init, d);
      if ms[|ms| - 1].day == d {
        assert forall i :: 0 <= i < |init| ==> init[i] == ms[i];
        NoMeetingOnDay(init, d);
      } else {
        assert SpansOn(ms, d) == SpansOn(init, d) + [];
      }
    }
  }

  lemma {:induction false} NoMeetingOnDay(ms: seq<TimeSlot>, d: string)
    requires HourMinuteMeetings(ms)
    requires forall i :: 0 <= i < |ms| ==> ms[i].day != d
    ensures SpansOn(ms, d) == []
  {
    if ms != [] {
      NoMeetingOnDay(ms[..|ms| - 1], d);
    }
  }

  lemma {:induction false} GapOverZero(days: seq<string>, ms: seq<TimeSlot>)
    requires HourMinuteMeetings(ms)
    requires forall d :: |SpansOn(ms, d)| <= 1
    ensures GapOver(days, ms) == 0
  {
    if days != [] {
      GapOverZero(days[..|days| - 1], ms);
      var t := SpansOn(ms, days[|days| - 1]);
      assert |SortSpans(t)| == |multiset(t)| == |t|;
    }
  }

  /** When each day has at most one meeting the gap score is 0. */
  lemma OneMeetingPerDayNoGap(schedule: seq<Class>)
    requires HourMinuteSchedule(schedule)
    requires forall i, j :: 0 <= i < j < |Meetings(schedule)| ==> Meetings(schedule)[i].day != Meetings(schedule)[j].day
    ensures TotalGap(schedule) == 0
  {
    MeetingsReadable(schedule);
    var ms := Meetings(schedule);
    forall d ensures |SpansOn(ms, d)| <= 1 {
      DistinctDaysAtMostOne(ms, d);
    }
    GapOverZero(DaysOf(ms), ms);
  }

  /** Two meetings on one day, listed in either order: the score is the
      idle time from the end of the one that sorts first to the start of the
      other, or 0 if they touch or overlap. */
  lemma TwoMeetingsOneDay(schedule: seq<Class>, m1: TimeSlot, m2: TimeSlot)
    requires HourMinuteSchedule(schedule)
    requires Meetings(schedule) == [m1, m2] && m1.day == m2.day
    requires IsHourMinute(m1.start) && IsHourMinute(m1.end) && IsHourMinute(m2.start) && IsHourMinute(m2.end)
    ensures var s1, s2 := SpanOf(m1), SpanOf(m2);
            TotalGap(schedule) == if SpanLe(s1, s2) then Max0(s2.0 - s1.1) else Max0(s1.0 - s2.1)
  {
    assert TotalGap(schedule) == SumGaps(SortSpans([SpanOf(m1), SpanOf(m2)])) by {
      TotalGapOfMeetings(schedule, [m1, m2]);
      TwoMeetingsGapOver(m1, m2);
    }
    TwoSpansGap(SpanOf(m1), SpanOf(m2));
  }

  lemma TotalGapOfMeetings(schedule: seq<Class>, ms: seq<TimeSlot>)
    requires HourMinuteSchedule(schedule) && Meetings(schedule) == ms
    ensures HourMinuteMeetings(ms) && TotalGap(schedule) == GapOver(DaysOf(ms), ms)
  {
    MeetingsReadable(schedule);
  }

  lemma TwoMeetingsGapOver(m1: TimeSlot, m2: TimeSlot)
    requires m1.day == m2.day
    requires IsHourMinute(m1.start) && IsHourMinute(m1.end) && IsHourMinute(m2.start) && IsHourMinute(m2.end)
    ensures HourMinuteMeetings([m1, m2])
    ensures GapOver(DaysOf([m1, m2]), [m1, m2]) == SumGaps(SortSpans([SpanOf(m1), SpanOf(m2)]))
  {
    TwoMeetingsBuckets(m1, m2);
    GapOverOneDay([m1, m2], m1.day);
  }

  lemma GapOverOneDay(ms: seq<TimeSlot>, d: string)
    requires HourMinuteMeetings(ms)
    ensures GapOver([d], ms) == SumGaps(SortSpans(SpansOn(ms, d)))
  {
    assert [d][..0] == [];
  }

  /** Sorting two spans puts either one first; the gap is then measured
      from the first one's end. */
  lemma TwoSpansGap(s1: Span, s2: Span)
    ensures SumGaps(SortSpans([s1, s2])) == if SpanLe(s1, s2) then Max0(s2.0 - s1.1) else Max0(s1.0 - s2.1)
  {
    assert [s1, s2][1..] == [s2] && [s2][1..] == [];
    assert SortSpans([s2]) == [s2];
    if SpanLe(s1, s2) {
      assert SortSpans([s1, s2]) == [s1, s2];
      SumGapsPair(s1, s2);
    } else {
      assert SortSpans([s1, s2]) == [s2, s1];
      SumGapsPair(s2, s1);
    }
  }

  lemma SumGapsPair(a: Span, b: Span)
    ensures SumGaps([a, b]) == Max0(b.0 - a.1)
  {
    assert [a, b][..1] == [a];
  }

  /** The by_day buckets of two meetings on one day. */
  lemma TwoMeetingsBuckets(m1: TimeSlot, m2: TimeSlot)
    requires m1.day == m2.day
    requires IsHourMinute(m1.start) && IsHourMinute(m1.end) && IsHourMinute(m2.start) && IsHourMinute(m2.end)
    ensures HourMinuteMeetings([m1, m2])
    ensures DaysOf([m1, m2]) == [m1.day]
    ensures SpansOn([m1, m2], m1.day) == [SpanOf(m1), SpanOf(m2)]
  {
    var ms := [m1, m2];
    assert ms[..1] == [m1] && [m1][..0] == [];
    assert DaysOf([m1]) == [m1.day];
    assert SpansOn([m1], m1.day) == [SpanOf(m1)];
  }

  /** 09:00-10:00 and 11:00-12:00 on one day: a gap of one hour. */
  lemma GapExampleOneHour(c1: Class, c2: Class)
    requires c1.times == [TimeSlot("Mon", "09:00", "10:00")]
    requires c2.times == [TimeSlot("Mon", "11:00", "12:00")]
    ensures HourMinuteSchedule([c1, c2])
    ensures TotalGap([c1, c2]) == 60 && Hours(TotalGap([c1, c2])) == 1.0
  {
    ExampleSchedule(c1, c2);
  }

  /** 09:00-10:00 and 10:00-11:00 on one day: back to back, no gap. */
  lemma GapExampleBackToBack(c1: Class, c2: Class)
    requires c1.times == [TimeSlot("Mon", "09:00", "10:00")]
    requires c2.times == [TimeSlot("Mon", "10:00", "11:00")]
    ensures HourMinuteSchedule([c1, c2])
    ensures TotalGap([c1, c2]) == 0
  {
    ExampleSchedule(c1, c2);
  }

  /** The readings of a two-class, one-meeting-each schedule of "HH:MM" times. */
  lemma ExampleSchedule(c1: Class, c2: Class)
    requires |c1.times| == 1 && |c2.times| == 1
    requires IsClock(c1.times[0].start) && IsClock(c1.times[0].end)
    requires IsClock(c2.times[0].start) && IsClock(c2.times[0].end)
    requires c1.times[0].day == c2.times[0].day
    requires ClockMinute(c1.times[0].start) == 0 && ClockMinute(c1.times[0].end) == 0
    requires ClockMinute(c2.times[0].start) == 0 && ClockMinute(c2.times[0].end) == 0
    requires ClockHour(c1.times[0].start) < ClockHour(c2.times[0].start)
    ensures HourMinuteSchedule([c1, c2])
    ensures TotalGap([c1, c2]) == 60 * Max0(ClockHour(c2.times[0].start) - ClockHour(c1.times[0].end))
  {
    var m1, m2 := c1.times[0], c2.times[0];
    ClockReadings(m1.start);
    ClockReadings(m1.end);
    ClockReadings(m2.start);
    ClockReadings(m2.end);
    assert ClockTimes(c1) && ClockTimes(c2);
    ClockTimesReadable(c1);
    ClockTimesReadable(c2);
    TwoClassMeetings(c1, c2);
    assert SpanLe(SpanOf(m1), SpanOf(m2));
    TwoMeetingsOneDay([c1, c2], m1, m2);
  }

  lemma TwoClassMeetings(c1: Class, c2: Class)
    requires |c1.times| == 1 && |c2.times| == 1
    ensures Meetings([c1, c2]) == [c1.times[0], c2.times[0]]
  {
    var s := [c1, c2];
    assert s[..1] == [c1] && s[..1][..0] == [];
    assert Meetings(s[..1]) == [] + c1.times;
    assert Meetings(s) == c1.times + c2.times;
  }
}

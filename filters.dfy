/** passes_filters: a schedule passes a dictionary of named constraints iff
    it passes each recognised one; keys the function does not know are
    ignored. The dictionary is its list of (key, value) items in insertion
    order. The GUI fills the values from integer and floating-point widgets
    (a list of day names for "no_days"); here every number is a `real`. */
module Filters {
  import opened Text
  import opened Times
  import opened Domain
  import opened Gaps
  import Grouping

  const Early := "08:15"
  const Late := "16:15"
  const MarathonEnd := "18:15"

  datatype FilterValue = Number(n: real) | DayList(days: seq<string>)

  type Filters = seq<(string, FilterValue)>

  // ----- What each rule measures, on the meetings of the schedule -----

  /** Meetings starting exactly at 08:15. */
  function EarlyCount(ms: seq<TimeSlot>): nat
  {
    if ms == [] then 0
    else EarlyCount(ms[..|ms| - 1]) + (if ms[|ms| - 1].start == Early then 1 else 0)
  }

  /** Meetings whose end compares >= "16:15" as a string. */
  function LateCount(ms: seq<TimeSlot>): nat
  {
    if ms == [] then 0
    else LateCount(ms[..|ms| - 1]) + (if !StrLess(ms[|ms| - 1].end, Late) then 1 else 0)
  }

  /** {t.day for c in schedule for t in c.times} */
  function DaysOn(ms: seq<TimeSlot>): set<string>
  {
    set k | 0 <= k < |ms| :: ms[k].day
  }

  /** Some meeting falls on one of the listed days. */
  predicate OnListedDay(ms: seq<TimeSlot>, days: seq<string>)
  {
    exists k :: 0 <= k < |ms| && ms[k].day in days
  }

  /** by_day[d] of the max_daily rule: minutes in class on day `d`. */
  function DayMinutes(ms: seq<TimeSlot>, d: string): int
    requires HourMinuteMeetings(ms)
  {
    Busy(SpansOn(ms, d))
  }

  /** Some meeting day has more than `limit` hours in class. */
  predicate TooLongDay(ms: seq<TimeSlot>, limit: real)
    requires HourMinuteMeetings(ms)
  {
    exists d :: d in DaysOn(ms) && Hours(DayMinutes(ms, d)) > limit
  }

  /** A meeting on day `d` starts exactly at 08:15 and one ends exactly at 18:15. */
  predicate IsMarathon(ms: seq<TimeSlot>, d: string)
  {
    (exists k :: 0 <= k < |ms| && ms[k].day == d && ms[k].start == Early)
    && (exists k :: 0 <= k < |ms| && ms[k].day == d && ms[k].end == MarathonEnd)
  }

  function MarathonDaySet(ms: seq<TimeSlot>): set<string>
  {
    set d | d in DaysOn(ms) && IsMarathon(ms, d)
  }

  // ----- The rules -----

  predicate IsNumberKey(key: string)
  {
    key == "max_early" || key == "max_days" || key == "max_gap" || key == "max_daily"
    || key == "max_late" || key == "max_marathon_days"
  }

  predicate IsKnownKey(key: string)
  {
    IsNumberKey(key) || key == "no_days"
  }

  /** The rule can be evaluated: its value has the type the comparison
      needs, and the hour-based rules can split every time into hour and
      minute (otherwise the source raises). */
  predicate Applicable(schedule: seq<Class>, key: string, v: FilterValue)
  {
    (key == "no_days" ==> v.DayList?)
    && (IsNumberKey(key) ==> v.Number?)
    && ((key == "max_gap" || key == "max_daily") ==> HourMinuteSchedule(schedule))
  }

  predicate WellFormed(schedule: seq<Class>, filters: Filters)
  {
    forall i :: 0 <= i < |filters| ==> Applicable(schedule, filters[i].0, filters[i].1)
  }

  /** The branch of passes_filters for one (key, value) item. */
  predicate PassesOne(schedule: seq<Class>, key: string, v: FilterValue)
    requires Applicable(schedule, key, v)
  {
    var ms := Meetings(schedule);
    if key == "max_early" then !(EarlyCount(ms) as real > v.n)
    else if key == "no_days" then !OnListedDay(ms, v.days)
    else if key == "max_days" then !(|DaysOn(ms)| as real > v.n)
    else if key == "max_gap" then !(Hours(TotalGap(schedule)) > v.n)
    else if key == "max_daily" then
      MeetingsReadable(schedule);
      !TooLongDay(ms, v.n)
    else if key == "max_late" then !(LateCount(ms) as real > v.n)
    else if key == "max_marathon_days" then !(|MarathonDaySet(ms)| as real > v.n)
    else true
  }

  /** The meaning of passes_filters: every item's rule holds. */
  predicate PassesAll(schedule: seq<Class>, filters: Filters)
    requires WellFormed(schedule, filters)
  {
    forall i :: 0 <= i < |filters| ==> PassesOne(schedule, filters[i].0, filters[i].1)
  }

  // ----- passes_filters and its loops -----

  /** passes_filters: the rules in dictionary order, returning False at the
      first one that fails. */
  method PassesFilters(schedule: seq<Class>, filters: Filters) returns (ok: bool)
    requires WellFormed(schedule, filters)
    ensures ok == PassesAll(schedule, filters)
  {
    var ms := Meetings(schedule);
    for i := 0 to |filters|
      invariant forall j :: 0 <= j < i ==> PassesOne(schedule, filters[j].0, filters[j].1)
    {
      var (f, val) := filters[i];
      assert Applicable(schedule, f, val);
      if f == "max_early" {
        var earlyCount := EarlyCount(ms);
        if earlyCount as real > val.n {
          return false;
        }
      } else if f == "no_days" {
        var hit := MeetsOnListedDay(schedule, val.days);
        if hit {
          return false;
        }
      } else if f == "max_days" {
        var daysOn := DaysOn(ms);
        if |daysOn| as real > val.n {
          return false;
        }
      } else if f == "max_gap" {
        var gap := TotalGapTime(schedule);
        if Hours(gap) > val.n {
          return false;
        }
      } else if f == "max_daily" {
        var byDay := DailyMinutes(schedule);
        if exists d :: d in byDay && Hours(byDay[d]) > val.n {
          return false;
        }
      } else if f == "max_late" {
        var lateCount := LateCount(ms);
        if lateCount as real > val.n {
          return false;
        }
      } else if f == "max_marathon_days" {
        var marathonCount := MarathonCount(schedule);
        if marathonCount as real > val.n {
          return false;
        }
      }
    }
    return true;
  }

  /** The no_days loops: `for c in schedule: for t in c.times`, visiting the
      meetings of the schedule in order and returning at the first meeting
      on a listed day. */
  method MeetsOnListedDay(schedule: seq<Class>, days: seq<string>) returns (hit: bool)
    ensures hit == OnListedDay(Meetings(schedule), days)
  {
    var ms := Meetings(schedule);
    for k := 0 to |ms|
      invariant forall j :: 0 <= j < k ==> ms[j].day !in days
    {
      if ms[k].day in days {
        return true;
      }
    }
    return false;
  }

  /** The max_daily loops: by_day[t.day] += end - start over the meetings. */
  method DailyMinutes(schedule: seq<Class>) returns (byDay: map<string, int>)
    requires HourMinuteSchedule(schedule)
    ensures HourMinuteMeetings(Meetings(schedule))
    ensures byDay == DailyMap(Meetings(schedule))
    ensures forall d :: d in byDay <==> d in DaysOn(Meetings(schedule))
    ensures forall d :: d in byDay ==> byDay[d] == DayMinutes(Meetings(schedule), d)
  {
    MeetingsReadable(schedule);
    byDay := DailyOver(Meetings(schedule));
    DailyMapMeaning(Meetings(schedule));
  }

  /** The body of the max_daily loops, run over the meetings in order. */
  method DailyOver(ms: seq<TimeSlot>) returns (byDay: map<string, int>)
    requires HourMinuteMeetings(ms)
    ensures byDay == DailyMap(ms)
  {
    byDay := map[];
    for k := 0 to |ms|
      invariant byDay == DailyMap(ms[..k])
    {
      var t := ms[k];
      assert ms[..k + 1][..k] == ms[..k];
      var hours := if t.day in byDay then byDay[t.day] else 0;  // defaultdict(float)
      byDay := byDay[t.day := hours + (Minutes(t.end) - Minutes(t.start))];
    }
    assert ms[..|ms|] == ms;
  }

  /** by_day after one `+=` per meeting of `ms`, in order. */
  function DailyMap(ms: seq<TimeSlot>): map<string, int>
    requires HourMinuteMeetings(ms)
  {
    if ms == [] then map[]
    else
      var t := ms[|ms| - 1];
      var m := DailyMap(ms[..|ms| - 1]);
      m[t.day := (if t.day in m then m[t.day] else 0) + (Minutes(t.end) - Minutes(t.start))]
  }

  /** by_day has exactly the meeting days as keys, each mapped to its
      minutes in class. */
  lemma {:induction false} DailyMapMeaning(ms: seq<TimeSlot>)
    requires HourMinuteMeetings(ms)
    ensures DailyOf(DailyMap(ms), ms)
  {
    if ms != [] {
      var init, t := ms[..|ms| - 1], ms[|ms| - 1];
      DailyMapMeaning(init);
      DailyStep(DailyMap(init), init, t);
      assert ms == init + [t];
    }
  }

  /** `byDay` is the max_daily by_day after the meetings `ms`. */
  ghost predicate DailyOf(byDay: map<string, int>, ms: seq<TimeSlot>)
  {
    HourMinuteMeetings(ms)
    && (forall d :: d in byDay <==> d in DaysOn(ms))
    && forall d :: d in byDay ==> byDay[d] == DayMinutes(ms, d)
  }

  /** One `by_day[t.day] += ...` keeps DailyOf. */
  lemma DailyStep(byDay: map<string, int>, ms: seq<TimeSlot>, t: TimeSlot)
    requires DailyOf(byDay, ms) && IsHourMinute(t.start) && IsHourMinute(t.end)
    ensures DailyOf(byDay[t.day := (if t.day in byDay then byDay[t.day] else 0) + (Minutes(t.end) - Minutes(t.start))],
                    ms + [t])
  {
    var byDay' := byDay[t.day := (if t.day in byDay then byDay[t.day] else 0) + (Minutes(t.end) - Minutes(t.start))];
    DaysOnSnoc(ms, t);
    DayMinutesSnoc(ms, t, t.day);
    forall d | d in byDay' ensures byDay'[d] == DayMinutes(ms + [t], d) {
      DailyValueStep(byDay, ms, t, d);
    }
  }

  /** The entry of one day after `by_day[t.day] += ...`. */
  lemma DailyValueStep(byDay: map<string, int>, ms: seq<TimeSlot>, t: TimeSlot, d: string)
    requires DailyOf(byDay, ms) && IsHourMinute(t.start) && IsHourMinute(t.end)
    requires d == t.day || d in byDay
    ensures HourMinuteMeetings(ms + [t])
    ensures byDay[t.day := (if t.day in byDay then byDay[t.day] else 0) + (Minutes(t.end) - Minutes(t.start))][d]
            == DayMinutes(ms + [t], d)
  {
    DayMinutesSnoc(ms, t, d);
    if d == t.day && t.day !in byDay {
      forall i | 0 <= i < |ms| ensures ms[i].day != t.day {
        assert ms[i].day in DaysOn(ms);
      }
      NoMeetingOnDay(ms, t.day);
    }
  }

  lemma DaysOnSnoc(ms: seq<TimeSlot>, t: TimeSlot)
    ensures DaysOn(ms + [t]) == DaysOn(ms) + {t.day}
  {
    var p := ms + [t];
    forall d | d in DaysOn(p) ensures d in DaysOn(ms) + {t.day} {
      var k :| 0 <= k < |p| && p[k].day == d;
      if k < |ms| {
        assert p[k] == ms[k];
      }
    }
    forall d | d in DaysOn(ms) + {t.day} ensures d in DaysOn(p) {
      if d in DaysOn(ms) {
        var k :| 0 <= k < |ms| && ms[k].day == d;
        assert p[k] == ms[k];
      } else {
        assert p[|ms|] == t;
      }
    }
  }

  lemma DayMinutesSnoc(ms: seq<TimeSlot>, t: TimeSlot, d: string)
    requires HourMinuteMeetings(ms) && IsHourMinute(t.start) && IsHourMinute(t.end)
    ensures HourMinuteMeetings(ms + [t])
    ensures DayMinutes(ms + [t], d) == DayMinutes(ms, d) + (if t.day == d then Minutes(t.end) - Minutes(t.start) else 0)
  {
    var p := ms + [t];
    assert p[..|ms|] == ms && p[|ms|] == t;
    assert HourMinuteMeetings(p);
    if t.day == d {
      assert SpansOn(p, d) == SpansOn(ms, d) + [SpanOf(t)];
      BusySnoc(SpansOn(ms, d), SpanOf(t));
    } else {
      assert SpansOn(p, d) == SpansOn(ms, d) + [];
      assert SpansOn(p, d) == SpansOn(ms, d);
    }
  }

  /** The max_marathon_days loops: day_extremes[t.day].append(t) over the
      meetings, then one count per day with an 08:15 start and an 18:15 end. */
  method MarathonCount(schedule: seq<Class>) returns (marathonCount: nat)
    ensures marathonCount == |MarathonDaySet(Meetings(schedule))|
  {
    var ms := Meetings(schedule);
    var days: seq<string> := [];
    var dayExtremes: map<string, seq<TimeSlot>> := map[];
    for k := 0 to |ms|
      invariant ExtremesOf(dayExtremes, days, ms[..k])
    {
      var t := ms[k];
      assert ms[..k + 1] == ms[..k] + [t];
      ExtremesStep(dayExtremes, days, ms[..k], t);
      if t.day in dayExtremes {
        dayExtremes := dayExtremes[t.day := dayExtremes[t.day] + [t]];
      } else {
        days := days + [t.day];
        dayExtremes := dayExtremes[t.day := [t]];
      }
    }
    assert ms[..|ms|] == ms;
    assert ExtremesOf(dayExtremes, days, ms);
    marathonCount := 0;
    for i := 0 to |days|
      invariant marathonCount == CountMarathon(days[..i], ms)
    {
      var day := days[i];
      assert day in days;
      var times := dayExtremes[day];
      assert times == MeetingsOn(ms, day);
      var hasEarly := exists j :: 0 <= j < |times| && times[j].start == Early;
      var hasLate := exists j :: 0 <= j < |times| && times[j].end == MarathonEnd;
      MeetingsOnMarathon(ms, day);
      assert hasEarly && hasLate <==> IsMarathon(ms, day);
      assert days[..i + 1][..i] == days[..i];
      if hasEarly && hasLate {
        marathonCount := marathonCount + 1;
      }
    }
    assert days[..|days|] == days;
    MarathonCountIsSetSize(ms);
  }

  /** `dayExtremes` and its key order `days` after the meetings `ms`. */
  ghost predicate ExtremesOf(dayExtremes: map<string, seq<TimeSlot>>, days: seq<string>, ms: seq<TimeSlot>)
  {
    days == DaysOf(ms)
    && (forall d :: d in dayExtremes <==> d in days)
    && forall d :: d in dayExtremes ==> dayExtremes[d] == MeetingsOn(ms, d)
  }

  /** One `day_extremes[t.day].append(t)` keeps ExtremesOf. */
  lemma ExtremesStep(dayExtremes: map<string, seq<TimeSlot>>, days: seq<string>, ms: seq<TimeSlot>, t: TimeSlot)
    requires ExtremesOf(dayExtremes, days, ms)
    ensures t.day in dayExtremes ==> ExtremesOf(dayExtremes[t.day := dayExtremes[t.day] + [t]], days, ms + [t])
    ensures t.day !in dayExtremes ==> ExtremesOf(dayExtremes[t.day := [t]], days + [t.day], ms + [t])
  {
    var p := ms + [t];
    assert p[..|ms|] == ms && p[|ms|] == t;
    if t.day !in dayExtremes {
      MeetingsOnAbsent(ms, t.day);
    }
  }

  /** day_extremes[d]: the meetings of day `d`, in order. */
  function MeetingsOn(ms: seq<TimeSlot>, d: string): seq<TimeSlot>
  {
    if ms == [] then []
    else MeetingsOn(ms[..|ms| - 1], d) + (if ms[|ms| - 1].day == d then [ms[|ms| - 1]] else [])
  }

  lemma {:induction false} MeetingsOnMembers(ms: seq<TimeSlot>, d: string, t: TimeSlot)
    ensures t in MeetingsOn(ms, d) <==> t in ms && t.day == d
  {
    if ms != [] {
      var init := ms[..|ms| - 1];
      MeetingsOnMembers(init, d, t);
      assert ms == init + [ms[|ms| - 1]];
    }
  }

  lemma {:induction false} MeetingsOnAbsent(ms: seq<TimeSlot>, d: string)
    requires d !in DaysOf(ms)
    ensures MeetingsOn(ms, d) == []
  {
    if ms != [] {
      MeetingsOnAbsent(ms[..|ms| - 1], d);
    }
  }

  /** has_early and has_late over day_extremes[d] are the two halves of
      IsMarathon. */
  lemma MeetingsOnMarathon(ms: seq<TimeSlot>, d: string)
    ensures ((exists j :: 0 <= j < |MeetingsOn(ms, d)| && MeetingsOn(ms, d)[j].start == Early)
             && (exists j :: 0 <= j < |MeetingsOn(ms, d)| && MeetingsOn(ms, d)[j].end == MarathonEnd))
            == IsMarathon(ms, d)
  {
    var times := MeetingsOn(ms, d);
    if exists j :: 0 <= j < |times| && times[j].start == Early {
      var j :| 0 <= j < |times| && times[j].start == Early;
      MeetingsOnMembers(ms, d, times[j]);
    }
    if exists j :: 0 <= j < |times| && times[j].end == MarathonEnd {
      var j :| 0 <= j < |times| && times[j].end == MarathonEnd;
      MeetingsOnMembers(ms, d, times[j]);
    }
    if IsMarathon(ms, d) {
      MarathonDayHasBoth(ms, d);
    }
  }

  lemma MarathonDayHasBoth(ms: seq<TimeSlot>, d: string)
    requires IsMarathon(ms, d)
    ensures exists j :: 0 <= j < |MeetingsOn(ms, d)| && MeetingsOn(ms, d)[j].start == Early
    ensures exists j :: 0 <= j < |MeetingsOn(ms, d)| && MeetingsOn(ms, d)[j].end == MarathonEnd
  {
    var times := MeetingsOn(ms, d);
    var k :| 0 <= k < |ms| && ms[k].day == d && ms[k].start == Early;
    MeetingsOnMembers(ms, d, ms[k]);
    var j :| 0 <= j < |times| && times[j] == ms[k];
    var k' :| 0 <= k' < |ms| && ms[k'].day == d && ms[k'].end == MarathonEnd;
    MeetingsOnMembers(ms, d, ms[k']);
    var j' :| 0 <= j' < |times| && times[j'] == ms[k'];
  }

  /** The number of listed days that are marathon days. */
  function CountMarathon(days: seq<string>, ms: seq<TimeSlot>): nat
  {
    if days == [] then 0
    else CountMarathon(days[..|days| - 1], ms) + (if IsMarathon(ms, days[|days| - 1]) then 1 else 0)
  }

  lemma {:induction false} CountMarathonDistinct(days: seq<string>, ms: seq<TimeSlot>)
    requires Grouping.Distinct(days)
    ensures CountMarathon(days, ms) == |set d | d in days && IsMarathon(ms, d)|
  {
    if days != [] {
      var init, last := days[..|days| - 1], days[|days| - 1];
      assert Grouping.Distinct(init) by {
        forall i, j | 0 <= i < j < |init| ensures init[i] != init[j] {
          assert init[i] == days[i] && init[j] == days[j];
        }
      }
      CountMarathonDistinct(init, ms);
      assert last !in init by {
        forall i | 0 <= i < |init| ensures init[i] != last {
          assert init[i] == days[i];
        }
      }
      MarathonSetSnoc(init, last, ms);
      assert days == init + [last];
    }
  }

  /** The marathon days among `init + [last]`, for a `last` not in `init`. */
  lemma MarathonSetSnoc(init: seq<string>, last: string, ms: seq<TimeSlot>)
    requires last !in init
    ensures |set d | d in init + [last] && IsMarathon(ms, d)|
            == |set d | d in init && IsMarathon(ms, d)| + (if IsMarathon(ms, last) then 1 else 0)
  {
    var a := set d | d in init && IsMarathon(ms, d);
    var b := set d | d in init + [last] && IsMarathon(ms, d);
    assert last !in a;
    if IsMarathon(ms, last) {
      assert b == a + {last};
    } else {
      assert b == a;
    }
  }

  lemma {:induction false} DaysOfMembers(ms: seq<TimeSlot>)
    ensures forall d :: d in DaysOf(ms) <==> d in DaysOn(ms)
    ensures Grouping.Distinct(DaysOf(ms))
  {
    if ms != [] {
      var init := ms[..|ms| - 1];
      DaysOfMembers(init);
      assert DaysOn(ms) == DaysOn(init) + {ms[|ms| - 1].day};
    }
  }

  lemma MarathonCountIsSetSize(ms: seq<TimeSlot>)
    ensures CountMarathon(DaysOf(ms), ms) == |MarathonDaySet(ms)|
  {
    DaysOfMembers(ms);
    CountMarathonDistinct(DaysOf(ms), ms);
    assert (set d | d in DaysOf(ms) && IsMarathon(ms, d)) == MarathonDaySet(ms);
  }

  // ----- Properties of the filter -----

  /** No filters: every schedule passes. */
  lemma NoFiltersPass(schedule: seq<Class>)
    ensures WellFormed(schedule, []) && PassesAll(schedule, [])
  {
  }

  /** Adding an item is adding its rule as one more conjunct. */
  lemma PassesAllSnoc(schedule: seq<Class>, filters: Filters, key: string, v: FilterValue)
    requires WellFormed(schedule, filters) && Applicable(schedule, key, v)
    ensures WellFormed(schedule, filters + [(key, v)])
    ensures PassesAll(schedule, filters + [(key, v)]) == (PassesAll(schedule, filters) && PassesOne(schedule, key, v))
  {
    var f := filters + [(key, v)];
    assert forall i :: 0 <= i < |filters| ==> f[i] == filters[i];
    assert f[|filters|] == (key, v);
  }

  /** An unrecognised key changes nothing. */
  lemma UnknownKeyIgnored(schedule: seq<Class>, filters: Filters, key: string, v: FilterValue)
    requires WellFormed(schedule, filters) && !IsKnownKey(key)
    ensures WellFormed(schedule, filters + [(key, v)])
    ensures PassesAll(schedule, filters + [(key, v)]) == PassesAll(schedule, filters)
  {
    PassesAllSnoc(schedule, filters, key, v);
  }

  /** The verdict depends only on which items there are, not on their order. */
  lemma OrderIndependent(schedule: seq<Class>, f1: Filters, f2: Filters)
    requires WellFormed(schedule, f1)
    requires forall x :: x in f1 <==> x in f2
    ensures WellFormed(schedule, f2)
    ensures PassesAll(schedule, f1) == PassesAll(schedule, f2)
  {
    forall j | 0 <= j < |f2| ensures Applicable(schedule, f2[j].0, f2[j].1) {
      assert f2[j] in f1;
    }
    if PassesAll(schedule, f1) {
      forall j | 0 <= j < |f2| ensures PassesOne(schedule, f2[j].0, f2[j].1) {
        assert f2[j] in f1;
      }
    }
    if PassesAll(schedule, f2) {
      forall j | 0 <= j < |f1| ensures PassesOne(schedule, f1[j].0, f1[j].1) {
        assert f1[j] in f2;
      }
    }
  }

  /** Every bound is an upper limit: a schedule within bound n is within
      any larger bound. */
  lemma BoundMonotone(schedule: seq<Class>, key: string, n: real, m: real)
    requires IsNumberKey(key) && n <= m
    requires Applicable(schedule, key, Number(n)) && PassesOne(schedule, key, Number(n))
    ensures Applicable(schedule, key, Number(m)) && PassesOne(schedule, key, Number(m))
  {
    if key == "max_daily" {
      MeetingsReadable(schedule);
    }
  }

  /** no_days rejects exactly the schedules with a meeting on a listed day. */
  lemma NoDaysMeaning(schedule: seq<Class>, days: seq<string>)
    ensures Applicable(schedule, "no_days", DayList(days))
    ensures PassesOne(schedule, "no_days", DayList(days)) <==>
      forall i, k :: 0 <= i < |schedule| && 0 <= k < |schedule[i].times| ==> schedule[i].times[k].day !in days
  {
    var ms := Meetings(schedule);
    MeetingsMembers(schedule);
    if exists k :: 0 <= k < |ms| && ms[k].day in days {
      var k :| 0 <= k < |ms| && ms[k].day in days;
      assert ms[k] in ms;
    }
    if exists i, k :: 0 <= i < |schedule| && 0 <= k < |schedule[i].times| && schedule[i].times[k].day in days {
      var i, k :| 0 <= i < |schedule| && 0 <= k < |schedule[i].times| && schedule[i].times[k].day in days;
      var t := schedule[i].times[k];
      assert t in ms;
    }
  }

  /** max_days bounds the number of distinct meeting days: a schedule
      meeting on three different days fails max_days = 2. */
  lemma ThreeDaysFailMaxTwo(schedule: seq<Class>, a: int, b: int, c: int)
    requires 0 <= a < |Meetings(schedule)| && 0 <= b < |Meetings(schedule)| && 0 <= c < |Meetings(schedule)|
    requires Meetings(schedule)[a].day != Meetings(schedule)[b].day
    requires Meetings(schedule)[b].day != Meetings(schedule)[c].day
    requires Meetings(schedule)[a].day != Meetings(schedule)[c].day
    ensures Applicable(schedule, "max_days", Number(2.0))
    ensures !PassesOne(schedule, "max_days", Number(2.0))
  {
    var ms := Meetings(schedule);
    var three := {ms[a].day, ms[b].day, ms[c].day};
    assert three <= DaysOn(ms);
    assert |three| == 3;
    SubsetCard(three, DaysOn(ms));
  }

  /** ... while a schedule whose meetings all fall on two days passes it. */
  lemma TwoDaysPassMaxTwo(schedule: seq<Class>, d1: string, d2: string)
    requires forall k :: 0 <= k < |Meetings(schedule)| ==> Meetings(schedule)[k].day == d1 || Meetings(schedule)[k].day == d2
    ensures Applicable(schedule, "max_days", Number(2.0))
    ensures PassesOne(schedule, "max_days", Number(2.0))
  {
    var ms := Meetings(schedule);
    assert DaysOn(ms) <= {d1, d2};
    SubsetCard(DaysOn(ms), {d1, d2});
    if d1 == d2 {
      assert {d1, d2} == {d1};
    }
  }

  lemma SubsetCard(a: set<string>, b: set<string>)
    requires a <= b
    ensures |a| <= |b|
  {
    assert b == a + (b - a);
  }

  /** On "HH:MM" times, the max_early test is 08:15 in minutes (495). */
  lemma EarlyInMinutes(t: TimeSlot)
    requires IsClock(t.start)
    ensures IsHourMinute(t.start)
    ensures t.start == Early <==> Minutes(t.start) == 8 * 60 + 15
  {
    ClockOrder(t.start, Early);
    ClockReadings(Early);
  }

  /** On "HH:MM" times, the max_late string test is an end at or after
      16:15 in minutes (975). */
  lemma LateInMinutes(t: TimeSlot)
    requires IsClock(t.end)
    ensures IsHourMinute(t.end)
    ensures !StrLess(t.end, Late) <==> Minutes(t.end) >= 16 * 60 + 15
  {
    ClockOrder(t.end, Late);
    ClockReadings(Late);
  }

  /** On "HH:MM" times, a marathon day needs an end of exactly 18:15 (1095),
      not merely a late one. */
  lemma MarathonEndInMinutes(t: TimeSlot)
    requires IsClock(t.end)
    ensures IsHourMinute(t.end)
    ensures t.end == MarathonEnd <==> Minutes(t.end) == 18 * 60 + 15
  {
    ClockOrder(t.end, MarathonEnd);
    ClockReadings(MarathonEnd);
  }

  /** A single class that meets Monday 08:15-18:30 is a late meeting but
      makes no marathon day: the end must equal 18:15. */
  lemma LateButNoMarathon(c: Class)
    requires c.times == [TimeSlot("Mon", "08:15", "18:30")]
    ensures LateCount(Meetings([c])) == 1
    ensures EarlyCount(Meetings([c])) == 1
    ensures MarathonDaySet(Meetings([c])) == {}
  {
    var ms := Meetings([c]);
    assert [c][..0] == [];
    assert ms == Meetings([c][..0]) + [c][0].times;
    assert ms == c.times;
    assert ms[..0] == [];
    StrLessFive("18:30", Late);
    assert "18:30"[0] == Late[0] && "18:30"[1] == '8' && Late[1] == '6';
    assert !StrLess("18:30", Late);
    assert "18:30"[3] != MarathonEnd[3];
    assert ms[0].end != MarathonEnd;
    assert !IsMarathon(ms, "Mon");
    assert DaysOn(ms) == {"Mon"};
  }

  /** The marathon count never exceeds the number of meeting days. */
  lemma MarathonAtMostDays(ms: seq<TimeSlot>)
    ensures |MarathonDaySet(ms)| <= |DaysOn(ms)|
  {
    SubsetCard(MarathonDaySet(ms), DaysOn(ms));
  }

  // ----- The filtered list of apply_filters -----

  /** Every rule applies to every schedule in the list. */
  predicate AllWellFormed(schedules: seq<seq<Class>>, filters: Filters)
  {
    forall s :: s in schedules ==> WellFormed(s, filters)
  }

  lemma AllWellFormedInit(schedules: seq<seq<Class>>, filters: Filters)
    requires AllWellFormed(schedules, filters) && schedules != []
    ensures AllWellFormed(schedules[..|schedules| - 1], filters)
    ensures WellFormed(schedules[|schedules| - 1], filters)
  {
    var init := schedules[..|schedules| - 1];
    forall x | x in init ensures WellFormed(x, filters) {
      var i :| 0 <= i < |init| && init[i] == x;
      assert schedules[i] == x;
    }
  }

  /** [s for s in schedules if passes_filters(s, filters)] */
  function Filtered(schedules: seq<seq<Class>>, filters: Filters): (r: seq<seq<Class>>)
    requires AllWellFormed(schedules, filters)
    ensures forall s :: s in r ==> s in schedules && PassesAll(s, filters)
  {
    if schedules == [] then []
    else
      var init, last := schedules[..|schedules| - 1], schedules[|schedules| - 1];
      AllWellFormedInit(schedules, filters);
      Filtered(init, filters) + (if PassesAll(last, filters) then [last] else [])
  }

  /** A schedule is kept iff it is in the input and passes. */
  lemma {:induction false} FilteredMembers(schedules: seq<seq<Class>>, filters: Filters, s: seq<Class>)
    requires AllWellFormed(schedules, filters)
    ensures s in Filtered(schedules, filters) <==> s in schedules && PassesAll(s, filters)
  {
    if schedules != [] {
      var init := schedules[..|schedules| - 1];
      AllWellFormedInit(schedules, filters);
      FilteredMembers(init, filters, s);
      assert schedules == init + [schedules[|schedules| - 1]];
    }
  }

  /** The kept schedules stay in their original order. */
  lemma {:induction false} FilteredInOrder(schedules: seq<seq<Class>>, filters: Filters)
    requires AllWellFormed(schedules, filters)
    ensures Grouping.IsSubsequence(Filtered(schedules, filters), schedules)
  {
    if schedules != [] {
      var init, last := schedules[..|schedules| - 1], schedules[|schedules| - 1];
      AllWellFormedInit(schedules, filters);
      FilteredInOrder(init, filters);
      Grouping.SubsequenceSnoc(Filtered(init, filters), init, last, PassesAll(last, filters));
      assert init + [last] == schedules;
      assert Filtered(init, filters) + [] == Filtered(init, filters);
    }
  }

  /** Filtering twice is filtering once. */
  lemma {:induction false} FilteredIdempotent(schedules: seq<seq<Class>>, filters: Filters)
    requires AllWellFormed(schedules, filters)
    ensures Filtered(Filtered(schedules, filters), filters) == Filtered(schedules, filters)
  {
    if schedules != [] {
      var init, last := schedules[..|schedules| - 1], schedules[|schedules| - 1];
      AllWellFormedInit(schedules, filters);
      FilteredIdempotent(init, filters);
      var r := Filtered(init, filters);
      if PassesAll(last, filters) {
        assert (r + [last])[..|r|] == r;
      } else {
        assert r + [] == r;
      }
    }
  }
}

/** The records of the schedule builder (schedule_builder.py, TimeSlot and
    Class): immutable values, with clock times kept as the strings read from
    the class file. */
module Domain {
  import opened Times

  datatype Option<+T> = None | Some(value: T)

  /** One weekly meeting: a day name ("Mon" .. "Fri") and start/end times. */
  datatype TimeSlot = TimeSlot(day: string, start: string, end: string)

  /** A section of a course; `name` is the course, `section` the section id. */
  datatype Class = Class(name: string, section: string, description: Option<string>,
                         teacher: string, times: seq<TimeSlot>)

  /** Both times of the meeting go through time_to_int. */
  predicate IntSlot(t: TimeSlot)
  {
    IsIntText(t.start) && IsIntText(t.end)
  }

  predicate IntSlots(ts: seq<TimeSlot>)
  {
    forall k :: 0 <= k < |ts| ==> IntSlot(ts[k])
  }

  /** Every time of every meeting can go through time_to_int. */
  predicate IntTimes(c: Class)
  {
    IntSlots(c.times)
  }

  /** Every time of every meeting splits into hour and minute. */
  predicate HourMinuteTimes(c: Class)
  {
    forall k :: 0 <= k < |c.times| ==> IsHourMinute(c.times[k].start) && IsHourMinute(c.times[k].end)
  }

  /** Every time of every meeting is a zero-padded "HH:MM". */
  predicate ClockTimes(c: Class)
  {
    forall k :: 0 <= k < |c.times| ==> IsClock(c.times[k].start) && IsClock(c.times[k].end)
  }

  /** A zero-padded "HH:MM" class can be read both ways. */
  lemma ClockTimesReadable(c: Class)
    requires ClockTimes(c)
    ensures IntTimes(c) && HourMinuteTimes(c)
  {
    forall k | 0 <= k < |c.times|
      ensures IsIntText(c.times[k].start) && IsIntText(c.times[k].end)
      ensures IsHourMinute(c.times[k].start) && IsHourMinute(c.times[k].end)
    {
      ClockReadable(c.times[k].start);
      ClockReadable(c.times[k].end);
    }
  }

  predicate HourMinuteSchedule(schedule: seq<Class>)
  {
    forall i :: 0 <= i < |schedule| ==> HourMinuteTimes(schedule[i])
  }

  /** The meetings of a schedule in the order of the source's nested loops
      `for c in schedule: for t in c.times`. */
  function Meetings(schedule: seq<Class>): seq<TimeSlot>
  {
    if schedule == [] then []
    else Meetings(schedule[..|schedule| - 1]) + schedule[|schedule| - 1].times
  }

  /** A meeting of the flattened list is a meeting of some class and back. */
  lemma {:induction false} MeetingsMembers(schedule: seq<Class>)
    ensures forall i, k :: 0 <= i < |schedule| && 0 <= k < |schedule[i].times| ==>
              schedule[i].times[k] in Meetings(schedule)
    ensures forall t :: t in Meetings(schedule) ==>
              exists i, k :: 0 <= i < |schedule| && 0 <= k < |schedule[i].times| && schedule[i].times[k] == t
  {
    if schedule != [] {
      var init := schedule[..|schedule| - 1];
      MeetingsMembers(init);
      forall i, k | 0 <= i < |schedule| && 0 <= k < |schedule[i].times|
        ensures schedule[i].times[k] in Meetings(schedule)
      {
        if i < |init| {
          assert schedule[i] == init[i];
        }
      }
      forall t | t in Meetings(schedule)
        ensures exists i, k :: 0 <= i < |schedule| && 0 <= k < |schedule[i].times| && schedule[i].times[k] == t
      {
        if t in Meetings(init) {
          var i, k :| 0 <= i < |init| && 0 <= k < |init[i].times| && init[i].times[k] == t;
          assert schedule[i] == init[i];
        } else {
          var last := schedule[|schedule| - 1];
          var k :| 0 <= k < |last.times| && last.times[k] == t;
        }
      }
    }
  }

  /** Every meeting of a schedule whose classes split into hour and minute
      splits too. */
  lemma MeetingsHourMinute(schedule: seq<Class>)
    requires HourMinuteSchedule(schedule)
    ensures forall t :: t in Meetings(schedule) ==> IsHourMinute(t.start) && IsHourMinute(t.end)
  {
    MeetingsMembers(schedule);
  }
}

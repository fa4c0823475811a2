# Course schedule builder — a verified Dafny model

This project models the scheduling core of `schedule_builder.py`:

- the time test and the conflict check between two course sections;
- the grouping of sections by course;
- the backtracking search that yields every conflict-free way to pick one
  section per course;
- the gap score;
- the named-filter predicate;
- the two result-list operations of the GUI class (sort by gap, apply
  filters);
- the per-line rules that turn a line of `classes.txt` into a `Class` or a
  reported problem.

Modules, one per component:

| file | module | what it holds |
|---|---|---|
| `text.dfy` | `Text` | `str.strip`, `str.split` on one character, `int()` on digits, Python string order |
| `times.dfy` | `Times` | the three readings of a clock time: `time_to_int`, `split(":")` into minutes, and the string itself. Bridge lemmas show that they agree on zero-padded `HH:MM` |
| `domain.dfy` | `Domain` | `TimeSlot`, `Class`, and the meetings of a schedule in loop order |
| `conflicts.dfy` | `Conflicts` | `conflict` and its half-open overlap semantics |
| `grouping.dfy` | `Grouping` | `group_by_course` as a loop over a map, with key order kept explicitly |
| `search.dfy` | `Search` | `generate_schedules` as two mutually recursive functions that thread `count_ref`, proved equal to a lexicographic product filter |
| `gaps.dfy` | `Gaps` | `total_gap_time` as its loops, in exact minutes |
| `filters.dfy` | `Filters` | `passes_filters` as its loops, its meaning as a conjunction, and the list comprehension of `apply_filters` |
| `ranking.dfy` | `Ranking` | the stable sort by gap of `sort_gap` |
| `scheduler.dfy` | `Scheduler` | the GUI's two result lists as a class with `Generate`, `SortGap`, `ApplyFilters`, `Reload` |
| `parser.dfy` | `Parser` | one line of the class file becomes `Skipped`, `Rejected(reason)` or `Accepted(class)`, plus the loop over all lines |

Modelling choices:

- Times stay strings, as in the source. Each use reads them the way the
  source does:
  - `conflict` uses `int(t.replace(":", ""))`;
  - gap scoring and daily hours use `split(":")` into hour and minute. The
    model keeps exact minutes `60*h + m` where the source keeps the float
    `h + m/60`. `Hours` converts minutes to the `real` hours that the
    filter bounds are compared with;
  - the 08:15 / 16:15 / 18:15 filters compare the strings themselves.
- The model requires every time of every section it reads to be readable:
  by `int()` after removing colons (`IntTimes`, for the conflict test) or
  by the `h, m` unpacking (`HourMinuteSchedule`, for gap scoring and daily
  hours). This is more than the source reads. `conflict` reads only the
  times of same-day pairs and stops at the first overlap, so a time such as
  "TBA" on a day no other section meets on does not make the source raise.
  Such inputs are outside the model (see "Left out").
- A filter dictionary is its list of `(key, value)` items in insertion
  order. Values are `Number(real)` or `DayList(seq<string>)`.
- The generator's shared counter `count_ref[0]` is threaded through
  `Search`/`TryEach` and returned in a `Run` next to the yielded schedules.

## Model

| member | source | states |
|---|---|---|
| `Times.TimeToInt` | schedule_builder.py:45-46 | `int()` of the text with every ":" removed, as a decimal numeral |
| `Times.Minutes` | schedule_builder.py:87-89 | the `split(":")` reading of a time: 60 × the hour field plus the minute field, in minutes since midnight |
| `Times.ClockReadings` | schedule_builder.py:45-46 | for a zero-padded "HH:MM" time, `time_to_int` gives 100·HH+MM, the split reading gives 60·HH+MM minutes, and the hour value is HH + MM/60 |
| `Times.ClockOrder` | schedule_builder.py:45-46 | on "HH:MM" times, `time_to_int` order, minute order and Python string order coincide, and string equality is minute equality |
| `Domain.Meetings` | schedule_builder.py:85-86 | the schedule's meetings flattened class by class in schedule order, each class's `times` in list order |
| `Domain.MeetingsMembers` | schedule_builder.py:105 | the flattened `for c in schedule for t in c.times` list holds exactly the meetings of the schedule's classes |
| `Conflicts.SlotsOverlap` | schedule_builder.py:51-54 | two meetings overlap iff they are on the same day and `max(s1,s2) < min(e1,e2)` under `time_to_int` |
| `Conflicts.OverlapsAny` | schedule_builder.py:50-55 | the inner loop: one meeting overlaps some meeting of the other section's list |
| `Conflicts.Conflict` | schedule_builder.py:48-56 | two sections conflict iff some meeting pair has the same day and `max(s1,s2) < min(e1,e2)` under `time_to_int` |
| `Conflicts.AnyOverlap` | schedule_builder.py:49-55 | the outer loop with early return finds an overlapping pair iff one exists |
| `Conflicts.ConflictSymmetric` | schedule_builder.py:48-56 | `conflict(a, b) == conflict(b, a)` |
| `Conflicts.NoCommonDayNoConflict` | schedule_builder.py:51 | sections with no meeting day in common never conflict |
| `Conflicts.BackToBackNoOverlap` | schedule_builder.py:54 | a meeting that ends exactly when the other starts does not overlap it, in either order |
| `Conflicts.SeparatedNoConflict` | schedule_builder.py:48-56 | sections whose same-day meetings are all separated or touching do not conflict |
| `Conflicts.ConflictMeansSharedInstant` | schedule_builder.py:48-56 | conflict iff some same-day pair of meetings shares an instant of their half-open intervals, so every positive overlap is a conflict |
| `Conflicts.OverlapInMinutes` | schedule_builder.py:52-54 | on "HH:MM" times the `time_to_int` overlap test is the same test on minutes since midnight |
| `Grouping.CourseNames` | schedule_builder.py:58-62 | the keys of the `defaultdict`: each course name once, in first-seen order |
| `Grouping.SectionsOf` | schedule_builder.py:60-61 | the bucket of one name: the input sections with that name, in input order |
| `Grouping.GroupByCourse` | schedule_builder.py:58-62 | the keys are the course names in first-seen order, and each key's bucket is the input's sections of that course in input order |
| `Grouping.CourseNamesMembers` | schedule_builder.py:58-62 | a name is a key iff some input section carries it |
| `Grouping.CourseNamesDistinct` | schedule_builder.py:58-62 | no key is listed twice |
| `Grouping.CourseNamesFirstSeenOrder` | schedule_builder.py:58-62 | keys are ordered by the position where each name first occurs |
| `Grouping.SectionsOfCounts` | schedule_builder.py:60-61 | every section occurrence lands in the bucket of its own name, as often as it occurs in the input, and in no other bucket |
| `Grouping.SectionsOfInOrder` | schedule_builder.py:60-61 | each bucket is a subsequence of the input, holding only sections of its course |
| `Search.Admissible` | schedule_builder.py:76 | a section conflicts with none of the sections already chosen |
| `Search.ConflictFree` | schedule_builder.py:76 | no two sections of a schedule conflict, the invariant each accepted choice keeps |
| `Search.AllSchedules` | schedule_builder.py:393 | the list of schedules a top-level call yields, from index 0, an empty choice and a counter at 0 |
| `Search.Search` | schedule_builder.py:64-73 | the counter ends at its start value plus the number of schedules yielded |
| `Search.TryEach` | schedule_builder.py:75-77 | the counter ends at its start value plus the number of schedules yielded by the candidate loop |
| `Search.SearchIsExtensions` | schedule_builder.py:64-77 | one call yields exactly the conflict-free continuations of the current choice over the product of the remaining courses' lists, in product order |
| `Search.SearchYieldsIndexChoices` | schedule_builder.py:64-77 | the yielded schedules are the sections picked by the conflict-free index vectors, in lexicographic order of the index vectors |
| `Search.IndexChoicesIncreasing` | schedule_builder.py:64-77 | those index vectors are strictly increasing lexicographically, so each choice is yielded exactly once, in that order |
| `Search.IndexChoicesMembers` | schedule_builder.py:75-77 | an index vector is chosen iff it picks one section per course and the picked sections are pairwise conflict-free |
| `Search.SearchSound` | schedule_builder.py:64-77 | every yielded schedule has one entry per course, entry i drawn from course i's sections, and no two entries conflict |
| `Search.SearchComplete` | schedule_builder.py:64-77 | every conflict-free choice of one section per course is yielded |
| `Search.NoCoursesOneEmptySchedule` | schedule_builder.py:70-73 | with no courses exactly one empty schedule is yielded and the counter ends at 1 |
| `Search.EmptyCourseNoSchedules` | schedule_builder.py:75-77 | a course without sections makes the generator yield nothing |
| `Search.TwoCourseExample` | schedule_builder.py:64-77 | courses [a, b] and [x, y] where only a and x conflict yield [a, y], [b, x], [b, y] in that order, and the counter ends at 3 |
| `Search.SecondCourse` | schedule_builder.py:75-77 | after a first choice c, the second course's sections are yielded in list order, exactly those that do not conflict with c |
| `Gaps.SpanOf` | schedule_builder.py:87-89 | a meeting as its (start, end) pair in minutes since midnight |
| `Gaps.SpansOn` | schedule_builder.py:84-89 | the `by_day` list of one day: that day's (start, end) pairs in meeting order |
| `Gaps.SumGaps` | schedule_builder.py:93-94 | the sum over consecutive pairs of `max(0, next start − previous end)` |
| `Gaps.SortSpans` | schedule_builder.py:92 | `times.sort()` gives a tuple-ordered permutation of the day's (start, end) pairs |
| `Gaps.SortedUnique` | schedule_builder.py:92 | any two sorted permutations of the same pairs are equal, so the sort's result is determined |
| `Gaps.GapIsIdleTime` | schedule_builder.py:93-94 | on a day of non-overlapping meetings the summed gap is the span from first start to last end minus the time in class |
| `Gaps.TotalGap` | schedule_builder.py:83-95 | the gap score is never negative |
| `Gaps.TotalGapTime` | schedule_builder.py:83-95 | the bucket-sort-sum loops compute the gap score |
| `Gaps.BucketByDay` | schedule_builder.py:84-89 | after the first loop `by_day` has the meeting days as keys in first-seen order and, under each day, that day's (start, end) minute pairs in meeting order |
| `Gaps.SumOverDays` | schedule_builder.py:90-94 | the second loop adds up, per day in key order, the gaps of the sorted bucket |
| `Gaps.SumDayGaps` | schedule_builder.py:93-94 | the inner loop sums `max(0, next.start - prev.end)` over consecutive pairs |
| `Gaps.OneMeetingPerDayNoGap` | schedule_builder.py:83-95 | when no two meetings share a day the score is 0 |
| `Gaps.TwoMeetingsOneDay` | schedule_builder.py:83-95 | two meetings on one day, listed in either order, score the idle time from the end of the one whose (start, end) sorts first to the start of the other, or 0 when they touch or overlap |
| `Gaps.GapExampleOneHour` | schedule_builder.py:83-95 | 09:00-10:00 and 11:00-12:00 on one day score 60 minutes, i.e. 1.0 hour |
| `Gaps.GapExampleBackToBack` | schedule_builder.py:83-95 | 09:00-10:00 and 10:00-11:00 on one day score 0 |
| `Filters.PassesOne` | schedule_builder.py:103-148 | the branch for one (key, value) item: each of the seven keys compares its count, day set, gap or per-day time with the value, and any other key passes |
| `Filters.PassesAll` | schedule_builder.py:102-149 | every item of the filter dictionary passes its branch |
| `Filters.EarlyCount` | schedule_builder.py:105 | the number of meetings whose start is exactly "08:15" |
| `Filters.LateCount` | schedule_builder.py:130 | the number of meetings whose end is not below "16:15" in string order |
| `Filters.DaysOn` | schedule_builder.py:114 | the set of days the schedule meets on |
| `Filters.DayMinutes` | schedule_builder.py:121-126 | the summed lengths, in minutes, of one day's meetings |
| `Filters.IsMarathon` | schedule_builder.py:140-144 | a day has a meeting starting at "08:15" and a meeting ending at "18:15" |
| `Filters.PassesFilters` | schedule_builder.py:102-149 | the loop over the items with early `return False` answers exactly whether every item's rule holds |
| `Filters.MeetsOnListedDay` | schedule_builder.py:108-112 | the no_days loops return at the first meeting on a listed day, iff there is one |
| `Filters.DailyMinutes` | schedule_builder.py:120-126 | `by_day` of max_daily maps each meeting day, and only those, to its minutes in class |
| `Filters.DailyOver` | schedule_builder.py:122-126 | the `+=` loop over the meetings in order builds the per-day map `DailyMap` |
| `Filters.DailyMapMeaning` | schedule_builder.py:121-126 | the per-day map has the meeting days as keys, and each maps to the summed lengths of that day's meetings in minutes |
| `Filters.MarathonCount` | schedule_builder.py:133-147 | `marathon_count` is the number of days that have a meeting starting at "08:15" and one ending at "18:15" |
| `Filters.NoFiltersPass` | schedule_builder.py:102-149 | with no filters every schedule passes |
| `Filters.PassesAllSnoc` | schedule_builder.py:102-149 | adding an item adds its rule as one more conjunct |
| `Filters.UnknownKeyIgnored` | schedule_builder.py:102-149 | an item whose key is none of the seven changes nothing |
| `Filters.OrderIndependent` | schedule_builder.py:102-149 | the verdict depends on which items are present, not on their order |
| `Filters.BoundMonotone` | schedule_builder.py:104-148 | for every numeric rule, passing with bound n implies passing with any bound m ≥ n |
| `Filters.NoDaysMeaning` | schedule_builder.py:108-112 | no_days passes iff no meeting of any class falls on a listed day |
| `Filters.ThreeDaysFailMaxTwo` | schedule_builder.py:113-116 | a schedule meeting on three different days fails max_days = 2 |
| `Filters.TwoDaysPassMaxTwo` | schedule_builder.py:113-116 | a schedule whose meetings all fall on at most two days passes max_days = 2 |
| `Filters.EarlyInMinutes` | schedule_builder.py:105 | on "HH:MM" times, starting at "08:15" is starting at minute 495 |
| `Filters.LateInMinutes` | schedule_builder.py:130 | on "HH:MM" times, `end >= "16:15"` is ending at minute 975 or later |
| `Filters.MarathonEndInMinutes` | schedule_builder.py:142 | on "HH:MM" times, a marathon end is exactly minute 1095 (18:15), by equality |
| `Filters.LateButNoMarathon` | schedule_builder.py:129-147 | Mon 08:15-18:30 counts as early and late but makes no marathon day |
| `Filters.MarathonAtMostDays` | schedule_builder.py:133-147 | the marathon count never exceeds the number of meeting days |
| `Filters.Filtered` | schedule_builder.py:459 | every kept schedule is an input schedule that passes |
| `Filters.FilteredMembers` | schedule_builder.py:459 | a schedule is kept iff it is an input schedule and passes |
| `Filters.FilteredInOrder` | schedule_builder.py:459 | the kept schedules keep their original relative order |
| `Filters.FilteredIdempotent` | schedule_builder.py:459 | filtering the filtered list again changes nothing |
| `Ranking.SortByKey` | schedule_builder.py:422 | a stable insertion sort of (key, item) pairs by key, the order `list.sort(key=...)` gives |
| `Ranking.ScoreAll` | schedule_builder.py:410-413 | each schedule paired with its gap score, in list order |
| `Ranking.ByGap` | schedule_builder.py:410-424 | the schedules reordered by score: score all, sort by key, keep the items |
| `Ranking.SortByKeySortedPermutation` | schedule_builder.py:422 | the key sort is non-decreasing in key and a permutation |
| `Ranking.SortByKeyStable` | schedule_builder.py:422 | pairs with equal keys keep their relative order |
| `Ranking.ByGapPermutation` | schedule_builder.py:410-424 | sort_gap keeps the same schedules, each as often as before |
| `Ranking.ByGapSorted` | schedule_builder.py:410-424 | after sort_gap the gap scores never decrease along the list |
| `Ranking.ByGapStable` | schedule_builder.py:410-424 | schedules with equal gap score keep their relative order |
| `Scheduler.Grouped` | schedule_builder.py:388 | the grouped map: each course name mapped to its sections |
| `Scheduler.Generated` | schedule_builder.py:384-394 | no schedules without class data, otherwise every schedule the generator yields over the grouped courses in key order |
| `Scheduler.GroupedMembers` | schedule_builder.py:58-62 | a bucket holds only input sections of its own course |
| `Scheduler.ScoreSchedules` | schedule_builder.py:410-413 | the scoring loop pairs each schedule with its gap score, in order |
| `Scheduler.KeepPassing` | schedule_builder.py:459 | the comprehension computes the filtered list |
| `Scheduler.Scheduler.constructor` | schedule_builder.py:269-270 | both result lists start empty |
| `Scheduler.Scheduler.Reload` | schedule_builder.py:254-258 | reload empties both result lists |
| `Scheduler.Scheduler.Generate` | schedule_builder.py:380-400 | `schedules` becomes everything the generator yields over the grouped courses (nothing without class data), `filtered` is emptied, and the final counter equals the number of schedules |
| `Scheduler.Scheduler.SortGap` | schedule_builder.py:402-424 | `schedules` becomes its stable re-sort by gap score, `filtered` is unchanged, and nothing happens on an empty list |
| `Scheduler.Scheduler.ApplyFilters` | schedule_builder.py:440-460 | `filtered` becomes the passing schedules in order, `schedules` is unchanged, and nothing happens on an empty list |
| `Scheduler.NoClassesNoSchedules` | schedule_builder.py:384-386 | without class data generate keeps no schedule, although the generator alone would yield one empty schedule |
| `Scheduler.GeneratedSound` | schedule_builder.py:380-400 | every generated schedule takes one input section per course, in first-seen course order, with no two conflicting |
| `Scheduler.GeneratedComplete` | schedule_builder.py:380-400 | every conflict-free choice of one input section per course is generated |
| `Text.Strip` | schedule_builder.py:175 | `str.strip()`: the text without leading and trailing whitespace |
| `Text.Split` | schedule_builder.py:180 | `str.split(sep)`: the pieces between occurrences of the separator, one more piece than separators |
| `Text.StrLess` | schedule_builder.py:130 | Python's lexicographic string order on code points |
| `Text.JoinSplit` | schedule_builder.py:180 | joining the pieces of `split("_")` gives the line back |
| `Text.SplitJoin` | schedule_builder.py:180 | splitting a join of "_"-free pieces gives the pieces back |
| `Text.StripShape` | schedule_builder.py:175 | `strip()` leaves the slice between leading and trailing whitespace, with no whitespace at its own ends |
| `Parser.ParseLine` | schedule_builder.py:175-225 | the outcome of one line: skipped when blank or a comment, else rejected with the first failing rule's reason, else the class it describes |
| `Parser.AcceptedOf` | schedule_builder.py:217-225 | the classes of the accepted lines, in file order |
| `Parser.ProblemsOf` | schedule_builder.py:174-215 | a (line number, stripped line, reason) problem for each rejected line, in file order, numbered from 1 |
| `Parser.ParseRecord` | schedule_builder.py:175-225 | the loop body for one line decides the line's outcome |
| `Parser.ReadTimes` | schedule_builder.py:199-215 | the triple loop is ok iff every start and end contains ":", and then yields one meeting per triple in order |
| `Parser.ParseLines` | schedule_builder.py:174-225 | `classes` and `problems` are the accepted classes and the numbered problems of the lines, in order |
| `Parser.LinesAccounted` | schedule_builder.py:174-225 | every line ends up in exactly one of: an accepted class, a problem, or skipped; the three counts add up to the number of lines |
| `Parser.ProblemsReportLines` | schedule_builder.py:174-215 | each problem names a rejected line by its 1-based number, with that line's stripped text and its rejection reason |
| `Parser.ProblemsInLineOrder` | schedule_builder.py:174-215 | problem line numbers are at most the number of lines and strictly increase along the list |
| `Parser.RejectedReported` | schedule_builder.py:174-215 | every rejected line appears among the problems with its number, text and reason |
| `Parser.SkippedIff` | schedule_builder.py:177-178 | a line is skipped iff it is blank or starts with "#" after stripping |
| `Parser.FieldCountRules` | schedule_builder.py:180-197 | fewer than 6 underscores is "Too few fields"; otherwise a count not divisible by 3 is "not grouped in triples" |
| `Parser.BadTimeIff` | schedule_builder.py:199-215 | a line that passes the counts is rejected for its time format iff some start or end lacks ":" |
| `Parser.AcceptedShape` | schedule_builder.py:187-225 | an accepted line has (fields−4)/3 ≥ 1 meetings, every time with ":", and no description iff the field is "none" |
| `Parser.AcceptedIsFormat` | schedule_builder.py:180-225 | an accepted line, stripped, is exactly its class written back in the file format |
| `Parser.FormatIsAccepted` | schedule_builder.py:175-225 | a well-formed class written in the file format is read back unchanged |

## Left out

- The Tkinter GUI is not modelled: widgets, checkbox variables, status text, message boxes and `update_idletasks` progress calls. Building the filter dictionary from widgets (schedule_builder.py:443-457) is the caller of `ApplyFilters`, which takes that dictionary as a parameter.
- Plotting, PDF export and `plot_random`'s random pick are not modelled. They are rendering, file output and randomness.
- File access in `get_all_classes` is not modelled: the existence check, the mtime cache, reading `classes.txt`, writing `fix_me.txt` and its preview text. `Parser.ParseLines` takes the file's lines as a parameter. `Scheduler.Scheduler.Generate` takes the returned classes as a parameter.
- Times are not modelled as floating point. The source's hour fractions `h + m/60` become exact minutes (`Hours` converts to `real`). IEEE rounding of the float sums is not modelled.
- Filters.PassesFilters: because `max_gap` is compared in exact minutes, a gap the source's doubles round upwards can pass here yet fail in the source. In IEEE double arithmetic, a 14:10 to 16:10 gap is (16 + 10/60) − (14 + 10/60) = 2.0000000000000018 hours. The source therefore rejects it under `max_gap = 2.0`, a value the spinbox offers, but the model computes 120 minutes, exactly 2.0 hours, and passes it. `max_daily` sums hour fractions the same way and can differ likewise.
- Ranking.ByGapStable: states stability for schedules whose exact gap scores are equal. The source's float scores can still differ for such schedules. A 10-minute gap is 0.16666666666666785 hours from 09:10 to 09:20 but 0.16666666666666607 hours from 10:00 to 10:10. So `sort_gap` may put a schedule with the second gap ahead of one listed earlier with the first gap, while the model keeps their order.
- Python's `int()` is modelled only on plain decimal digits. Signs, surrounding whitespace, digit separators and non-ASCII digits would be accepted by the source; the model excludes them through the `IntTimes` and `HourMinuteSchedule` preconditions. A time that the source would crash on is likewise a precondition, not an error result.
- Conflicts.Conflict: requires every time of both sections to be `int()`-readable (`IntTimes`). The source reads only the times of same-day pairs, up to the first overlap, so it also answers for some sections with unreadable times on other days; those are not modelled.
- Search.Search: requires every section in the catalogue to have readable times (`IntCatalog`), because it calls `Conflict`. The source would also run on a catalogue whose unreadable times are never compared, for example a single course; that case is not modelled.
- Scheduler.Scheduler.Generate: requires readable times of every class (`IntClasses`), for the same reason as `Search.Search`.
- Filters.PassesFilters: requires every item to be evaluable (`WellFormed`). The source raises on a bad time only when it reaches the max_gap or max_daily item, so an earlier failing item would return False first.
- Filters.PassesFilters: Python's mixed int/float comparisons are modelled as comparisons on `real`.
- `generate_schedules` is modelled as a fully evaluated result, not as a lazy generator. A caller that stops consuming early is not modelled.
- `print` of the detected course names and the every-10th progress update in `generate` are not modelled.

/** The result lists that SchedulerGUI keeps, self.schedules and
    self.filtered_schedules, and the three operations that rewrite them:
    generate, sort_gap and apply_filters (plus the clearing done by
    reload_classes). Widgets, status text and message boxes are not part
    of the model; a message box that ends an operation early is a return
    that leaves the lists as they are. */
module Scheduler {
  import opened Domain
  import opened Conflicts
  import opened Grouping
  import opened Search
  import opened Gaps
  import opened Filters
  import opened Ranking

  /** group_by_course(classes) as a dictionary. */
  function Grouped(classes: seq<Class>): map<string, seq<Class>>
  {
    map n | n in CourseNames(classes) :: SectionsOf(classes, n)
  }

  /** A bucket holds sections of the input and only of its own course. */
  lemma GroupedMembers(classes: seq<Class>, name: string, c: Class)
    requires c in Candidates(Grouped(classes), name)
    ensures c in classes && c.name == name
  {
    SectionsOfCounts(classes, name, c);
    assert multiset(SectionsOf(classes, name))[c] > 0;
  }

  lemma GroupedInt(classes: seq<Class>)
    requires IntClasses(classes)
    ensures IntCatalog(Grouped(classes))
  {
    forall n | n in Grouped(classes) ensures IntClasses(Grouped(classes)[n]) {
      forall k | 0 <= k < |Grouped(classes)[n]| ensures IntTimes(Grouped(classes)[n][k]) {
        GroupedMembers(classes, n, Grouped(classes)[n][k]);
      }
    }
  }

  /** What generate leaves in self.schedules: nothing when there is no
      class data, otherwise every schedule the generator yields over the
      grouped courses, in course order. */
  function Generated(classes: seq<Class>): seq<seq<Class>>
    requires IntClasses(classes)
  {
    GroupedInt(classes);
    if classes == [] then [] else AllSchedules(CourseNames(classes), Grouped(classes))
  }

  class Scheduler {
    var schedules: seq<seq<Class>>
    var filtered: seq<seq<Class>>

    constructor()
      ensures schedules == [] && filtered == []
    {
      schedules := [];
      filtered := [];
    }

    /** reload_classes: both result lists are emptied. */
    method Reload()
      modifies this
      ensures schedules == [] && filtered == []
    {
      schedules := [];
      filtered := [];
    }

    /** generate, with the classes that get_all_classes returned; `count`
        is the final count_ref[0] (0 when there is no class data). */
    method Generate(classes: seq<Class>) returns (count: nat)
      requires IntClasses(classes)
      modifies this
      ensures schedules == Generated(classes) && filtered == []
      ensures count == |schedules|
    {
      schedules := [];
      filtered := [];
      if classes == [] {
        return 0;
      }
      var grouped := GroupByCourse(classes);
      assert grouped.sections == Grouped(classes);
      GroupedInt(classes);
      var run := Search.Search(grouped.names, grouped.sections, 0, [], 0);
      var found: seq<seq<Class>> := [];
      for k := 0 to |run.schedules|
        invariant found == run.schedules[..k]
      {
        found := found + [run.schedules[k]];
      }
      assert run.schedules[..|run.schedules|] == run.schedules;
      schedules := found;
      count := run.count;
    }

    /** sort_gap: without schedules nothing happens; otherwise each
        schedule is scored by total_gap_time and the list is re-sorted by
        score with a stable sort. */
    method SortGap()
      requires Scorable(schedules)
      modifies this
      ensures schedules == ByGap(old(schedules)) && filtered == old(filtered)
    {
      var current := schedules;
      if current == [] {
        return;
      }
      var scored := ScoreSchedules(current);
      scored := SortByKey(scored);
      schedules := Items(scored);
    }

    /** apply_filters with the filter list the widgets produced: without
        schedules nothing happens; otherwise filtered_schedules becomes the
        schedules that pass, in their order. */
    method ApplyFilters(filters: Filters)
      requires AllWellFormed(schedules, filters)
      modifies this
      ensures schedules == old(schedules)
      ensures filtered == if schedules == [] then old(filtered) else Filtered(schedules, filters)
    {
      var current := schedules;
      if current == [] {
        return;
      }
      var kept := KeepPassing(current, filters);
      filtered := kept;
    }
  }

  /** The scoring loop of sort_gap: (total_gap_time(sched), sched) for
      each schedule, in order. */
  method ScoreSchedules(schedules: seq<seq<Class>>) returns (scored: seq<Scored<seq<Class>>>)
    requires Scorable(schedules)
    ensures scored == ScoreAll(schedules)
  {
    ghost var all := ScoreAll(schedules);
    scored := [];
    for i := 0 to |schedules|
      invariant scored == all[..i]
    {
      var gap := TotalGapTime(schedules[i]);
      assert all[i] == (gap, schedules[i]);
      assert all[..i + 1] == all[..i] + [all[i]];
      scored := scored + [(gap, schedules[i])];
    }
    assert all[..|schedules|] == all;
  }

  /** [s for s in schedules if passes_filters(s, filters)] */
  method KeepPassing(schedules: seq<seq<Class>>, filters: Filters) returns (kept: seq<seq<Class>>)
    requires AllWellFormed(schedules, filters)
    ensures kept == Filtered(schedules, filters)
  {
    kept := [];
    for k := 0 to |schedules|
      invariant kept == Filtered(schedules[..k], filters)
    {
      assert schedules[..k + 1][..k] == schedules[..k];
      var ok := PassesFilters(schedules[k], filters);
      if ok {
        kept := kept + [schedules[k]];
      }
    }
    assert schedules[..|schedules|] == schedules;
  }

  // ----- generate as a whole -----

  /** Without class data generate leaves no schedule, although the
      generator on no courses would yield one empty schedule. */
  lemma NoClassesNoSchedules()
    ensures Generated([]) == []
    ensures Search.Search([], Grouped([]), 0, [], 0).schedules == [[]]
  {
  }

  /** Every generated schedule takes, for each course in first-seen order,
      one of that course's sections from the input, and no two of its
      sections conflict. */
  lemma GeneratedSound(classes: seq<Class>, s: seq<Class>)
    requires IntClasses(classes) && s in Generated(classes)
    ensures classes != []
    ensures |s| == |CourseNames(classes)|
    ensures forall i :: 0 <= i < |s| ==> s[i] in classes && s[i].name == CourseNames(classes)[i]
    ensures forall i, j :: 0 <= i < |s| && 0 <= j < |s| && i != j ==> !Conflict(s[i], s[j])
  {
    GroupedInt(classes);
    SearchSound(CourseNames(classes), Grouped(classes), s);
    forall i | 0 <= i < |s| ensures s[i] in classes && s[i].name == CourseNames(classes)[i] {
      GroupedMembers(classes, CourseNames(classes)[i], s[i]);
    }
  }

  /** Every conflict-free choice of one input section per course, in
      first-seen course order, is generated. */
  lemma GeneratedComplete(classes: seq<Class>, s: seq<Class>)
    requires IntClasses(classes) && classes != []
    requires |s| == |CourseNames(classes)|
    requires forall i :: 0 <= i < |s| ==> s[i] in classes && s[i].name == CourseNames(classes)[i]
    requires ConflictFree(s)
    ensures s in Generated(classes)
  {
    GroupedInt(classes);
    var names := CourseNames(classes);
    forall i | 0 <= i < |s| ensures s[i] in Candidates(Grouped(classes), names[i]) {
      SectionsOfCounts(classes, names[i], s[i]);
      assert multiset(SectionsOf(classes, names[i]))[s[i]] > 0;
    }
    SearchComplete(names, Grouped(classes), s);
  }
}

/** The re-ordering done by sort_gap: each schedule is paired with its gap
    score, the pairs are sorted by score with Python's stable list.sort,
    and the schedules are read back in the new order. */
module Ranking {
  import opened Domain
  import opened Gaps

  /** (score, item) pairs. */
  type Scored<T> = (int, T)

  // ----- A stable sort by key -----

  /** Puts `x` before the first pair whose key is not smaller, so that `x`
      stays ahead of the pairs with its key. */
  function InsertByKey<T>(x: Scored<T>, t: seq<Scored<T>>): seq<Scored<T>>
  {
    if t == [] then [x]
    else if x.0 <= t[0].0 then [x] + t
    else [t[0]] + InsertByKey(x, t[1..])
  }

  /** list.sort(key=lambda x: x[0]) */
  function SortByKey<T>(s: seq<Scored<T>>): seq<Scored<T>>
  {
    if s == [] then [] else InsertByKey(s[0], SortByKey(s[1..]))
  }

  predicate KeySorted<T>(t: seq<Scored<T>>)
  {
    forall i, j :: 0 <= i < j < |t| ==> t[i].0 <= t[j].0
  }

  /** The pairs with key `g`, in order. */
  function WithKey<T>(s: seq<Scored<T>>, g: int): seq<Scored<T>>
  {
    if s == [] then [] else (if s[0].0 == g then [s[0]] else []) + WithKey(s[1..], g)
  }

  lemma InsertByKeyProperties<T>(x: Scored<T>, t: seq<Scored<T>>)
    requires KeySorted(t)
    ensures KeySorted(InsertByKey(x, t))
    ensures multiset(InsertByKey(x, t)) == multiset{x} + multiset(t)
  {
    InsertByKeySorted(x, t);
    InsertByKeyPermutation(x, t);
  }

  lemma {:induction false} InsertByKeySorted<T>(x: Scored<T>, t: seq<Scored<T>>)
    requires KeySorted(t)
    ensures KeySorted(InsertByKey(x, t))
  {
    if t != [] && x.0 > t[0].0 {
      InsertByKeySorted(x, t[1..]);
      InsertByKeyBound(x, t[1..], t[0].0);
      KeyCons(t[0], InsertByKey(x, t[1..]));
    } else if t != [] {
      KeyCons(x, t);
    }
  }

  lemma {:induction false} InsertByKeyPermutation<T>(x: Scored<T>, t: seq<Scored<T>>)
    ensures multiset(InsertByKey(x, t)) == multiset{x} + multiset(t)
  {
    if t != [] && x.0 > t[0].0 {
      InsertByKeyPermutation(x, t[1..]);
      assert t == [t[0]] + t[1..];
    }
  }

  /** A lower bound on all keys survives an insertion that respects it. */
  lemma {:induction false} InsertByKeyBound<T>(x: Scored<T>, t: seq<Scored<T>>, b: int)
    requires b <= x.0 && forall k :: 0 <= k < |t| ==> b <= t[k].0
    ensures forall k :: 0 <= k < |InsertByKey(x, t)| ==> b <= InsertByKey(x, t)[k].0
  {
    if t != [] && x.0 > t[0].0 {
      InsertByKeyBound(x, t[1..], b);
      var r := InsertByKey(x, t[1..]);
      assert forall k :: 0 < k < |r| + 1 ==> ([t[0]] + r)[k] == r[k - 1];
    }
  }

  /** A pair whose key bounds every key of a sorted list can go in front. */
  lemma KeyCons<T>(y: Scored<T>, r: seq<Scored<T>>)
    requires KeySorted(r) && forall k :: 0 <= k < |r| ==> y.0 <= r[k].0
    ensures KeySorted([y] + r)
  {
    assert forall k :: 0 < k < |r| + 1 ==> ([y] + r)[k] == r[k - 1];
  }

  /** The sort is sorted by key and a permutation. */
  lemma {:induction false} SortByKeySortedPermutation<T>(s: seq<Scored<T>>)
    ensures KeySorted(SortByKey(s))
    ensures multiset(SortByKey(s)) == multiset(s)
  {
    if s != [] {
      SortByKeySortedPermutation(s[1..]);
      InsertByKeyProperties(s[0], SortByKey(s[1..]));
      assert s == [s[0]] + s[1..];
    }
  }

  lemma {:induction false} InsertByKeyStable<T>(x: Scored<T>, t: seq<Scored<T>>, g: int)
    ensures WithKey(InsertByKey(x, t), g) == (if x.0 == g then [x] else []) + WithKey(t, g)
  {
    if t != [] {
      if x.0 <= t[0].0 {
        assert ([x] + t)[1..] == t;
      } else {
        InsertByKeyStable(x, t[1..], g);
        assert ([t[0]] + InsertByKey(x, t[1..]))[1..] == InsertByKey(x, t[1..]);
      }
    }
  }

  /** The sort is stable: the pairs of each key keep their relative order. */
  lemma {:induction false} SortByKeyStable<T>(s: seq<Scored<T>>, g: int)
    ensures WithKey(SortByKey(s), g) == WithKey(s, g)
  {
    if s != [] {
      SortByKeyStable(s[1..], g);
      InsertByKeyStable(s[0], SortByKey(s[1..]), g);
    }
  }

  // ----- Sorting schedules by gap score -----

  predicate Scorable(schedules: seq<seq<Class>>)
  {
    forall k :: 0 <= k < |schedules| ==> HourMinuteSchedule(schedules[k])
  }

  /** scored_schedules: (total_gap_time(sched), sched) in input order. */
  function ScoreAll(schedules: seq<seq<Class>>): (r: seq<Scored<seq<Class>>>)
    requires Scorable(schedules)
    ensures |r| == |schedules|
  {
    seq(|schedules|, k requires 0 <= k < |schedules| => (TotalGap(schedules[k]), schedules[k]))
  }

  /** [item[1] for item in scored] */
  function Items<T>(t: seq<Scored<T>>): (r: seq<T>)
    ensures |r| == |t| && forall k :: 0 <= k < |t| ==> r[k] == t[k].1
  {
    seq(|t|, k requires 0 <= k < |t| => t[k].1)
  }

  /** The schedules as sort_gap leaves them. */
  function ByGap(schedules: seq<seq<Class>>): seq<seq<Class>>
    requires Scorable(schedules)
  {
    Items(SortByKey(ScoreAll(schedules)))
  }

  /** Every pair carries its own schedule's gap score. */
  predicate Scores(t: seq<Scored<seq<Class>>>)
  {
    forall k :: 0 <= k < |t| ==> HourMinuteSchedule(t[k].1) && t[k].0 == TotalGap(t[k].1)
  }

  lemma SortedScores(schedules: seq<seq<Class>>)
    requires Scorable(schedules)
    ensures Scores(SortByKey(ScoreAll(schedules)))
  {
    var s := ScoreAll(schedules);
    var t := SortByKey(s);
    SortByKeySortedPermutation(s);
    forall k | 0 <= k < |t| ensures HourMinuteSchedule(t[k].1) && t[k].0 == TotalGap(t[k].1) {
      assert t[k] in multiset(s);
      var j :| 0 <= j < |s| && s[j] == t[k];
    }
  }

  /** When every pair holding `x` carries key `g`, the items hold `x` as
      often as the pairs hold (g, x). */
  lemma {:induction false} ItemsCount<T>(t: seq<Scored<T>>, x: T, g: int)
    requires forall k :: 0 <= k < |t| && t[k].1 == x ==> t[k].0 == g
    ensures multiset(Items(t))[x] == multiset(t)[(g, x)]
  {
    if t != [] {
      var rest := t[1..];
      forall k | 0 <= k < |rest| && rest[k].1 == x ensures rest[k].0 == g {
        assert rest[k] == t[k + 1];
      }
      ItemsCount(rest, x, g);
      ItemsTail(t);
      HeadCount(t, (g, x));
      HeadCount(Items(t), x);
    }
  }

  lemma ItemsTail<T>(t: seq<Scored<T>>)
    requires t != []
    ensures Items(t) != [] && Items(t)[0] == t[0].1 && Items(t)[1..] == Items(t[1..])
  {
  }

  /** Occurrences of `y` in a non-empty sequence: its head, then its tail. */
  lemma HeadCount<U>(s: seq<U>, y: U)
    requires s != []
    ensures multiset(s)[y] == (if s[0] == y then 1 else 0) + multiset(s[1..])[y]
  {
    assert s == [s[0]] + s[1..];
    assert multiset(s) == multiset{s[0]} + multiset(s[1..]);
  }

  /** sort_gap only reorders: the same schedules, as often as before. */
  lemma ByGapPermutation(schedules: seq<seq<Class>>)
    requires Scorable(schedules)
    ensures multiset(ByGap(schedules)) == multiset(schedules)
  {
    var s := ScoreAll(schedules);
    var t := SortByKey(s);
    SortByKeySortedPermutation(s);
    SortedScores(schedules);
    assert Items(s) == schedules;
    forall x ensures multiset(Items(t))[x] == multiset(Items(s))[x] {
      if HourMinuteSchedule(x) {
        ItemsCount(t, x, TotalGap(x));
        ItemsCount(s, x, TotalGap(x));
      } else {
        assert forall k :: 0 <= k < |t| ==> Items(t)[k] != x;
        assert forall k :: 0 <= k < |schedules| ==> schedules[k] != x;
      }
    }
  }

  /** After sort_gap the gap scores never decrease. */
  lemma ByGapSorted(schedules: seq<seq<Class>>)
    requires Scorable(schedules)
    ensures Scorable(ByGap(schedules))
    ensures forall i, j :: 0 <= i < j < |ByGap(schedules)| ==> TotalGap(ByGap(schedules)[i]) <= TotalGap(ByGap(schedules)[j])
  {
    SortByKeySortedPermutation(ScoreAll(schedules));
    SortedScores(schedules);
  }

  /** The schedules with gap score `g`, in order. */
  function WithGap(schedules: seq<seq<Class>>, g: int): seq<seq<Class>>
    requires Scorable(schedules)
  {
    if schedules == [] then []
    else (if TotalGap(schedules[0]) == g then [schedules[0]] else []) + WithGap(schedules[1..], g)
  }

  lemma {:induction false} ItemsWithKey(t: seq<Scored<seq<Class>>>, g: int)
    requires Scores(t)
    ensures Scorable(Items(t)) && Items(WithKey(t, g)) == WithGap(Items(t), g)
  {
    if t != [] {
      var rest := t[1..];
      assert Scores(rest);
      ItemsWithKey(rest, g);
      var it := Items(t);
      assert it[0] == t[0].1 && it[1..] == Items(rest);
      assert TotalGap(it[0]) == t[0].0;
      var head := if t[0].0 == g then [t[0]] else [];
      ItemsAppend(head, WithKey(rest, g));
      assert Items(head) == if TotalGap(it[0]) == g then [it[0]] else [];
    }
  }

  lemma ItemsAppend<T>(a: seq<Scored<T>>, b: seq<Scored<T>>)
    ensures Items(a + b) == Items(a) + Items(b)
  {
  }

  /** Schedules with equal gap scores keep their original relative order. */
  lemma ByGapStable(schedules: seq<seq<Class>>, g: int)
    requires Scorable(schedules)
    ensures Scorable(ByGap(schedules))
    ensures WithGap(ByGap(schedules), g) == WithGap(schedules, g)
  {
    var s := ScoreAll(schedules);
    SortByKeyStable(s, g);
    SortedScores(schedules);
    assert Scores(s);
    ItemsWithKey(SortByKey(s), g);
    ItemsWithKey(s, g);
    assert Items(s) == schedules;
  }
}

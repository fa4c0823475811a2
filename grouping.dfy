/** group_by_course: one pass over the sections, appending each to the list
    kept under its course name in a defaultdict(list). A Python dict keeps
    its keys in insertion order, and the search later walks
    list(grouped.keys()), so the model keeps that order explicitly. */
module Grouping {
  import opened Domain

  /** The grouped sections: course names in dict key order, and the
      section list under each name. */
  datatype Catalog = Catalog(names: seq<string>, sections: map<string, seq<Class>>)

  /** Course names in the order each is first seen. */
  function CourseNames(classes: seq<Class>): seq<string>
  {
    if classes == [] then []
    else
      var seen := CourseNames(classes[..|classes| - 1]);
      var name := classes[|classes| - 1].name;
      if name in seen then seen else seen + [name]
  }

  /** The sections of course `name`, in input order. */
  function SectionsOf(classes: seq<Class>, name: string): seq<Class>
  {
    if classes == [] then []
    else
      var last := classes[|classes| - 1];
      SectionsOf(classes[..|classes| - 1], name) + (if last.name == name then [last] else [])
  }

  /** group_by_course */
  method GroupByCourse(classes: seq<Class>) returns (g: Catalog)
    ensures g.names == CourseNames(classes)
    ensures forall n :: n in g.sections <==> n in g.names
    ensures forall n :: n in g.sections ==> g.sections[n] == SectionsOf(classes, n)
  {
    var names: seq<string> := [];
    var d: map<string, seq<Class>> := map[];
    for i := 0 to |classes|
      invariant names == CourseNames(classes[..i])
      invariant forall n :: n in d <==> n in names
      invariant forall n :: n in d ==> d[n] == SectionsOf(classes[..i], n)
    {
      var c := classes[i];
      assert classes[..i + 1][..i] == classes[..i];
      if c.name in d {
        d := d[c.name := d[c.name] + [c]];
      } else {
        names := names + [c.name];
        d := d[c.name := [c]];
        assert SectionsOf(classes[..i], c.name) == [] by {
          SectionsOfAbsent(classes[..i], c.name);
        }
      }
    }
    assert classes[..|classes|] == classes;
    g := Catalog(names, d);
  }

  /** A name that is never seen has an empty bucket. */
  lemma {:induction false} SectionsOfAbsent(classes: seq<Class>, name: string)
    requires name !in CourseNames(classes)
    ensures SectionsOf(classes, name) == []
  {
    if classes != [] {
      SectionsOfAbsent(classes[..|classes| - 1], name);
    }
  }

  /** The key list names every course of the input, and nothing else. */
  lemma {:induction false} CourseNamesMembers(classes: seq<Class>, name: string)
    ensures name in CourseNames(classes) <==> exists i :: 0 <= i < |classes| && classes[i].name == name
  {
    if classes != [] {
      var init := classes[..|classes| - 1];
      CourseNamesMembers(init, name);
      if exists i :: 0 <= i < |init| && init[i].name == name {
        var i :| 0 <= i < |init| && init[i].name == name;
        assert classes[i] == init[i];
      }
      if exists i :: 0 <= i < |classes| && classes[i].name == name {
        var i :| 0 <= i < |classes| && classes[i].name == name;
        if i < |init| {
          assert init[i] == classes[i];
        }
      }
    }
  }

  predicate Distinct<T(==)>(s: seq<T>)
  {
    forall i, j :: 0 <= i < j < |s| ==> s[i] != s[j]
  }

  /** No course name is listed twice. */
  lemma {:induction false} CourseNamesDistinct(classes: seq<Class>)
    ensures Distinct(CourseNames(classes))
  {
    if classes != [] {
      CourseNamesDistinct(classes[..|classes| - 1]);
    }
  }

  /** `p` is the position where `name` first occurs in the input. */
  predicate FirstSeenAt(classes: seq<Class>, name: string, p: int)
  {
    0 <= p < |classes| && classes[p].name == name
    && forall q :: 0 <= q < p ==> classes[q].name != name
  }

  /** Keys come in the order their names are first seen. */
  lemma {:induction false} CourseNamesFirstSeenOrder(classes: seq<Class>, k1: int, k2: int, p1: int, p2: int)
    requires 0 <= k1 < k2 < |CourseNames(classes)|
    requires FirstSeenAt(classes, CourseNames(classes)[k1], p1)
    requires FirstSeenAt(classes, CourseNames(classes)[k2], p2)
    ensures p1 < p2
  {
    var init := classes[..|classes| - 1];
    var seen := CourseNames(init);
    var last := |classes| - 1;
    CourseNamesDistinct(classes);
    if k2 < |seen| {
      assert CourseNames(classes)[k1] == seen[k1] && CourseNames(classes)[k2] == seen[k2];
      FirstSeenInPrefix(classes, seen[k1], p1);
      FirstSeenInPrefix(classes, seen[k2], p2);
      CourseNamesFirstSeenOrder(init, k1, k2, p1, p2);
    } else {
      // the second name is the last section's and new there
      assert CourseNames(classes)[k2] == classes[last].name;
      assert classes[last].name !in seen;
      CourseNamesMembers(init, classes[last].name);
      assert forall i :: 0 <= i < |init| ==> init[i] == classes[i];
      assert p2 == last;
      assert CourseNames(classes)[k1] == seen[k1];
      assert p1 != last;
    }
  }

  /** A name already seen before the last section was first seen there. */
  lemma FirstSeenInPrefix(classes: seq<Class>, name: string, p: int)
    requires classes != []
    requires name in CourseNames(classes[..|classes| - 1])
    requires FirstSeenAt(classes, name, p)
    ensures p < |classes| - 1 && FirstSeenAt(classes[..|classes| - 1], name, p)
  {
    var init := classes[..|classes| - 1];
    CourseNamesMembers(init, name);
    var i :| 0 <= i < |init| && init[i].name == name;
    assert classes[i].name == name;
  }

  /** Every occurrence of a section lies in the bucket of its own course
      and in no other: the bucket of `name` holds each section named `name`
      as often as the input does, and nothing else. */
  lemma {:induction false} SectionsOfCounts(classes: seq<Class>, name: string, c: Class)
    ensures multiset(SectionsOf(classes, name))[c] == if c.name == name then multiset(classes)[c] else 0
  {
    if classes != [] {
      var init := classes[..|classes| - 1];
      SectionsOfCounts(init, name, c);
      assert classes == init + [classes[|classes| - 1]];
    }
  }

  /** Each bucket lists its course's sections in input order: it is the
      input with the other courses' sections left out. */
  lemma {:induction false} SectionsOfInOrder(classes: seq<Class>, name: string)
    ensures IsSubsequence(SectionsOf(classes, name), classes)
    ensures forall k :: 0 <= k < |SectionsOf(classes, name)| ==> SectionsOf(classes, name)[k].name == name
  {
    if classes != [] {
      var init := classes[..|classes| - 1];
      var last := classes[|classes| - 1];
      SectionsOfInOrder(init, name);
      SubsequenceSnoc(SectionsOf(init, name), init, last, last.name == name);
      assert init + [last] == classes;
      var r := SectionsOf(classes, name);
      assert SectionsOf(init, name) + [] == SectionsOf(init, name);
      assert r == if last.name == name then SectionsOf(init, name) + [last] else SectionsOf(init, name);
      assert forall k :: 0 <= k < |SectionsOf(init, name)| ==> r[k] == SectionsOf(init, name)[k];
    }
  }

  /** `sub` is `s` with some elements left out, order kept. */
  predicate IsSubsequence<T(==)>(sub: seq<T>, s: seq<T>)
  {
    if sub == [] then true
    else if s == [] then false
    else if sub[|sub| - 1] == s[|s| - 1] then IsSubsequence(sub[..|sub| - 1], s[..|s| - 1])
    else IsSubsequence(sub, s[..|s| - 1])
  }

  lemma {:induction false} SubsequenceSnoc<T>(sub: seq<T>, s: seq<T>, x: T, keep: bool)
    requires IsSubsequence(sub, s)
    ensures IsSubsequence(if keep then sub + [x] else sub, s + [x])
  {
    assert (s + [x])[..|s|] == s;
    if keep {
      assert (sub + [x])[..|sub|] == sub;
    } else if sub != [] && sub[|sub| - 1] == x {
      SubsequenceOfInit(sub, s);
    }
  }

  /** A subsequence of `s` ending in x also has its prefix before x in `s`. */
  lemma {:induction false} SubsequenceOfInit<T>(sub: seq<T>, s: seq<T>)
    requires sub != [] && IsSubsequence(sub, s)
    ensures IsSubsequence(sub[..|sub| - 1], s)
    decreases |s|, 0
  {
    if s != [] {
      if sub[|sub| - 1] == s[|s| - 1] {
        SubsequenceWeaken(sub[..|sub| - 1], s[..|s| - 1], s[|s| - 1]);
        assert s[..|s| - 1] + [s[|s| - 1]] == s;
      } else {
        SubsequenceOfInit(sub, s[..|s| - 1]);
        SubsequenceWeaken(sub[..|sub| - 1], s[..|s| - 1], s[|s| - 1]);
        assert s[..|s| - 1] + [s[|s| - 1]] == s;
      }
    }
  }

  lemma {:induction false} SubsequenceWeaken<T>(sub: seq<T>, s: seq<T>, x: T)
    requires IsSubsequence(sub, s)
    ensures IsSubsequence(sub, s + [x])
    decreases |s|, 1
  {
    assert (s + [x])[..|s|] == s;
    if sub != [] && sub[|sub| - 1] == x {
      SubsequenceOfInit(sub, s);
    }
  }
}

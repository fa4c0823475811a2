/** generate_schedules: depth-first backtracking that picks one section per
    course, in course order, admitting a candidate only when it conflicts
    with no section already chosen, and yielding every complete choice.

    The generator becomes the pair of mutually recursive functions Search
    (one call of generate_schedules) and TryEach (its loop over the current
    course's sections). The shared counter count_ref is threaded through
    both as `count`, bumped once per yield. */
module Search {
  import opened Domain
  import opened Conflicts

  /** courses[name] on a defaultdict(list): a missing name has no sections. */
  function Candidates(courses: map<string, seq<Class>>, name: string): seq<Class>
  {
    if name in courses then courses[name] else []
  }

  predicate IntClasses(cs: seq<Class>)
  {
    forall k :: 0 <= k < |cs| ==> IntTimes(cs[k])
  }

  predicate IntCatalog(courses: map<string, seq<Class>>)
  {
    forall n :: n in courses ==> IntClasses(courses[n])
  }

  /** all(not conflict(section, c) for c in current) */
  predicate Admissible(section: Class, current: seq<Class>)
    requires IntTimes(section) && IntClasses(current)
  {
    forall k :: 0 <= k < |current| ==> !Conflict(section, current[k])
  }

  /** No section conflicts with one before it, tested in the order the
      search tests them (the later section first). */
  predicate ConflictFree(s: seq<Class>)
  {
    IntClasses(s) && forall i, j :: 0 <= i < j < |s| ==> !Conflict(s[j], s[i])
  }

  /** What a (fully consumed) run of the generator produces: the schedules
      yielded, in order, and the final value of count_ref[0]. */
  datatype Run = Run(schedules: seq<seq<Class>>, count: nat)

  /** generate_schedules(course_names, courses, idx, current, count_ref)
      with count_ref[0] == count on entry. */
  function Search(names: seq<string>, courses: map<string, seq<Class>>, idx: nat,
                  current: seq<Class>, count: nat): (r: Run)
    requires idx <= |names| && IntCatalog(courses) && IntClasses(current)
    ensures r.count == count + |r.schedules|
    decreases |names| - idx, 1
  {
    if idx == |names| then Run([current], count + 1)
    else TryEach(names, courses, idx, current, Candidates(courses, names[idx]), count)
  }

  /** The loop `for section in courses[course_names[idx]]`, over the
      candidates still to try. */
  function TryEach(names: seq<string>, courses: map<string, seq<Class>>, idx: nat,
                   current: seq<Class>, cands: seq<Class>, count: nat): (r: Run)
    requires idx < |names| && IntCatalog(courses) && IntClasses(current) && IntClasses(cands)
    ensures r.count == count + |r.schedules|
    decreases |names| - idx, 0, |cands|
  {
    if cands == [] then Run([], count)
    else
      var first :=
        if Admissible(cands[0], current)
        then
          assert IntClasses(current + [cands[0]]);
          Search(names, courses, idx + 1, current + [cands[0]], count)
        else Run([], count);
      var rest := TryEach(names, courses, idx, current, cands[1..], first.count);
      Run(first.schedules + rest.schedules, rest.count)
  }

  /** The top-level call generate_schedules(names, grouped, count_ref=[0]). */
  function AllSchedules(names: seq<string>, courses: map<string, seq<Class>>): seq<seq<Class>>
    requires IntCatalog(courses)
  {
    Search(names, courses, 0, [], 0).schedules
  }

  // ----- The reference enumeration: a lexicographic product -----

  /** The candidate lists in course order. */
  function Lists(names: seq<string>, courses: map<string, seq<Class>>): (ls: seq<seq<Class>>)
    ensures |ls| == |names|
    ensures forall i :: 0 <= i < |names| ==> ls[i] == Candidates(courses, names[i])
  {
    seq(|names|, i requires 0 <= i < |names| => Candidates(courses, names[i]))
  }

  /** Each element of `p` with `x` put in front. */
  function Prepend<T>(x: T, p: seq<seq<T>>): seq<seq<T>>
  {
    seq(|p|, k requires 0 <= k < |p| => [x] + p[k])
  }

  /** For each choice from `l`, in order, every continuation from `p`. */
  function Combine<T>(l: seq<T>, p: seq<seq<T>>): seq<seq<T>>
  {
    if l == [] then [] else Prepend(l[0], p) + Combine(l[1..], p)
  }

  /** All ways of choosing one element per list, the first list's choice
      varying slowest. */
  function Product<T>(ls: seq<seq<T>>): seq<seq<T>>
  {
    if ls == [] then [[]] else Combine(ls[0], Product(ls[1..]))
  }

  /** The continuations `t` in `p` whose schedule current + t is
      conflict-free, as current + t, in order. */
  function Extensions(current: seq<Class>, p: seq<seq<Class>>): seq<seq<Class>>
  {
    if p == [] then []
    else (if ConflictFree(current + p[0]) then [current + p[0]] else []) + Extensions(current, p[1..])
  }

  lemma {:induction false} ExtensionsAppend(current: seq<Class>, a: seq<seq<Class>>, b: seq<seq<Class>>)
    ensures Extensions(current, a + b) == Extensions(current, a) + Extensions(current, b)
  {
    if a == [] {
      assert a + b == b;
    } else {
      AppendCons(a, b);
      ExtensionsAppend(current, a[1..], b);
      var h := if ConflictFree(current + a[0]) then [current + a[0]] else [];
      assert Extensions(current, a + b) == h + Extensions(current, a[1..] + b);
      assert Extensions(current, a) == h + Extensions(current, a[1..]);
      AppendAssoc(h, Extensions(current, a[1..]), Extensions(current, b));
    }
  }

  lemma AppendAssoc<T>(x: seq<T>, y: seq<T>, z: seq<T>)
    ensures x + (y + z) == (x + y) + z
  {
  }

  lemma AppendCons<T>(a: seq<T>, b: seq<T>)
    requires a != []
    ensures (a + b)[0] == a[0] && (a + b)[1..] == a[1..] + b
  {
  }

  /** A prefix of a conflict-free schedule is conflict-free. */
  lemma FreePrefix(u: seq<Class>, t: seq<Class>)
    requires ConflictFree(u + t)
    ensures ConflictFree(u)
  {
    assert forall k :: 0 <= k < |u| ==> (u + t)[k] == u[k];
    assert IntClasses(u);
    forall i, j | 0 <= i < j < |u| ensures !Conflict(u[j], u[i]) {
      assert (u + t)[i] == u[i] && (u + t)[j] == u[j];
    }
  }

  /** Extending a conflict-free schedule keeps it conflict-free exactly when
      the new section is admissible. */
  lemma FreeSnoc(current: seq<Class>, x: Class)
    requires ConflictFree(current) && IntTimes(x)
    ensures ConflictFree(current + [x]) <==> Admissible(x, current)
  {
    var s := current + [x];
    assert forall k :: 0 <= k < |current| ==> s[k] == current[k];
    assert s[|current|] == x;
  }

  lemma {:induction false} ExtensionsPrepend(current: seq<Class>, x: Class, p: seq<seq<Class>>)
    requires ConflictFree(current) && IntTimes(x)
    ensures Extensions(current, Prepend(x, p)) == if Admissible(x, current) then Extensions(current + [x], p) else []
  {
    if p != [] {
      var q := Prepend(x, p);
      assert q[0] == [x] + p[0];
      assert q[1..] == Prepend(x, p[1..]);
      ExtensionsPrepend(current, x, p[1..]);
      assert current + q[0] == (current + [x]) + p[0];
      FreeSnoc(current, x);
      if ConflictFree((current + [x]) + p[0]) {
        FreePrefix(current + [x], p[0]);
      }
    }
  }

  /** One call of the generator yields exactly the conflict-free
      continuations of the prefix over the product of the remaining
      courses' candidate lists, in product order. */
  lemma {:induction false} SearchIsExtensions(names: seq<string>, courses: map<string, seq<Class>>, idx: nat,
                                              current: seq<Class>, count: nat)
    requires idx <= |names| && IntCatalog(courses) && ConflictFree(current)
    ensures Search(names, courses, idx, current, count).schedules
            == Extensions(current, Product(Lists(names, courses)[idx..]))
    decreases |names| - idx, 1
  {
    var ls := Lists(names, courses);
    if idx == |names| {
      assert ls[idx..] == [];
      assert current + [] == current;
    } else {
      assert ls[idx..][0] == Candidates(courses, names[idx]);
      assert ls[idx..][1..] == ls[idx + 1..];
      TryEachIsExtensions(names, courses, idx, current, Candidates(courses, names[idx]), count);
    }
  }

  lemma {:induction false} TryEachIsExtensions(names: seq<string>, courses: map<string, seq<Class>>, idx: nat,
                                               current: seq<Class>, cands: seq<Class>, count: nat)
    requires idx < |names| && IntCatalog(courses) && ConflictFree(current) && IntClasses(cands)
    ensures TryEach(names, courses, idx, current, cands, count).schedules
            == Extensions(current, Combine(cands, Product(Lists(names, courses)[idx + 1..])))
    decreases |names| - idx, 0, |cands|
  {
    if cands != [] {
      var p := Product(Lists(names, courses)[idx + 1..]);
      var x := cands[0];
      assert Combine(cands, p) == Prepend(x, p) + Combine(cands[1..], p);
      ExtensionsAppend(current, Prepend(x, p), Combine(cands[1..], p));
      ExtensionsPrepend(current, x, p);
      var first :=
        if Admissible(x, current)
        then Search(names, courses, idx + 1, current + [x], count)
        else Run([], count);
      if Admissible(x, current) {
        FreeSnoc(current, x);
        SearchIsExtensions(names, courses, idx + 1, current + [x], count);
      }
      assert first.schedules == Extensions(current, Prepend(x, p));
      assert IntClasses(cands[1..]);
      TryEachIsExtensions(names, courses, idx, current, cands[1..], first.count);
      assert TryEach(names, courses, idx, current, cands, count).schedules
             == first.schedules + TryEach(names, courses, idx, current, cands[1..], first.count).schedules;
    }
  }

  // ----- Choices of section indices -----

  function Range(n: nat): (r: seq<nat>)
    ensures |r| == n && forall i :: 0 <= i < n ==> r[i] == i
  {
    seq(n, i requires 0 <= i < n => i)
  }

  /** For each course, the range of its section indices. */
  function Ranges<T>(ls: seq<seq<T>>): (r: seq<seq<nat>>)
    ensures |r| == |ls| && forall i :: 0 <= i < |ls| ==> r[i] == Range(|ls[i]|)
  {
    seq(|ls|, i requires 0 <= i < |ls| => Range(|ls[i]|))
  }

  /** `v` chooses one valid index per list. */
  predicate Fits<T>(ls: seq<seq<T>>, v: seq<nat>)
  {
    |v| == |ls| && forall i :: 0 <= i < |v| ==> v[i] < |ls[i]|
  }

  /** The sections chosen by index vector `v`. */
  function Pick<T>(ls: seq<seq<T>>, v: seq<nat>): (s: seq<T>)
    requires Fits(ls, v)
    ensures |s| == |v| && forall i :: 0 <= i < |v| ==> s[i] == ls[i][v[i]]
  {
    seq(|v|, i requires 0 <= i < |v| => ls[i][v[i]])
  }

  predicate AllFit<T>(ls: seq<seq<T>>, vs: seq<seq<nat>>)
  {
    forall k :: 0 <= k < |vs| ==> Fits(ls, vs[k])
  }

  function PickAll<T>(ls: seq<seq<T>>, vs: seq<seq<nat>>): (r: seq<seq<T>>)
    requires AllFit(ls, vs)
    ensures |r| == |vs| && forall k :: 0 <= k < |vs| ==> r[k] == Pick(ls, vs[k])
  {
    seq(|vs|, k requires 0 <= k < |vs| => Pick(ls, vs[k]))
  }

  /** The index vectors whose chosen sections are conflict-free, in order. */
  function FreeChoices(ls: seq<seq<Class>>, vs: seq<seq<nat>>): (r: seq<seq<nat>>)
    requires AllFit(ls, vs)
    ensures AllFit(ls, r)
  {
    if vs == [] then []
    else (if ConflictFree(Pick(ls, vs[0])) then [vs[0]] else []) + FreeChoices(ls, vs[1..])
  }

  /** The conflict-free choices of section indices in lexicographic order. */
  function IndexChoices(ls: seq<seq<Class>>): (r: seq<seq<nat>>)
    ensures AllFit(ls, r)
  {
    ProductMembers(Ranges(ls));
    RangesFit(ls, Product(Ranges(ls)));
    FreeChoices(ls, Product(Ranges(ls)))
  }

  lemma RangesFit<T>(ls: seq<seq<T>>, vs: seq<seq<nat>>)
    requires forall t :: t in vs <==> |t| == |Ranges(ls)| && forall i :: 0 <= i < |t| ==> t[i] in Ranges(ls)[i]
    ensures AllFit(ls, vs)
  {
    forall k | 0 <= k < |vs| ensures Fits(ls, vs[k]) {
      var v := vs[k];
      assert v in vs;
      forall i | 0 <= i < |v| ensures v[i] < |ls[i]| {
        assert v[i] in Range(|ls[i]|);
      }
    }
  }

  // ----- Membership in the product -----

  lemma PrependMembers<T>(x: T, p: seq<seq<T>>, e: seq<T>)
    ensures e in Prepend(x, p) <==> |e| > 0 && e[0] == x && e[1..] in p
  {
    if e in Prepend(x, p) {
      var k :| 0 <= k < |p| && Prepend(x, p)[k] == e;
      assert e[1..] == p[k];
    }
    if |e| > 0 && e[0] == x && e[1..] in p {
      var k :| 0 <= k < |p| && p[k] == e[1..];
      assert Prepend(x, p)[k] == e;
    }
  }

  lemma {:induction false} CombineMembers<T>(l: seq<T>, p: seq<seq<T>>, e: seq<T>)
    ensures e in Combine(l, p) <==> |e| > 0 && e[0] in l && e[1..] in p
  {
    if l != [] {
      PrependMembers(l[0], p, e);
      CombineMembers(l[1..], p, e);
      assert e in Prepend(l[0], p) + Combine(l[1..], p) <==> e in Prepend(l[0], p) || e in Combine(l[1..], p);
      assert |e| > 0 ==> (e[0] in l <==> e[0] == l[0] || e[0] in l[1..]);
    }
  }

  /** The product holds exactly the sequences choosing one element of each
      list. */
  lemma {:induction false} ProductMembers<T>(ls: seq<seq<T>>)
    ensures forall t :: t in Product(ls) <==> |t| == |ls| && forall i :: 0 <= i < |t| ==> t[i] in ls[i]
  {
    if ls != [] {
      ProductMembers(ls[1..]);
      forall t ensures t in Product(ls) <==> |t| == |ls| && forall i :: 0 <= i < |t| ==> t[i] in ls[i] {
        CombineMembers(ls[0], Product(ls[1..]), t);
        if |t| == |ls| {
          assert forall i :: 1 <= i < |t| ==> t[1..][i - 1] == t[i] && ls[1..][i - 1] == ls[i];
        }
      }
    }
  }

  // ----- The product of the candidate lists is the picks of the index product -----

  function Select<T>(l: seq<T>, idxs: seq<nat>): (r: seq<T>)
    requires forall k :: 0 <= k < |idxs| ==> idxs[k] < |l|
    ensures |r| == |idxs| && forall k :: 0 <= k < |idxs| ==> r[k] == l[idxs[k]]
  {
    seq(|idxs|, k requires 0 <= k < |idxs| => l[idxs[k]])
  }

  lemma PickAllAppend<T>(ls: seq<seq<T>>, a: seq<seq<nat>>, b: seq<seq<nat>>)
    requires AllFit(ls, a) && AllFit(ls, b)
    ensures AllFit(ls, a + b) && PickAll(ls, a + b) == PickAll(ls, a) + PickAll(ls, b)
  {
    assert forall k :: 0 <= k < |a + b| ==> (a + b)[k] == (if k < |a| then a[k] else b[k - |a|]);
  }

  lemma PickPrepend<T>(l: seq<T>, r: seq<seq<T>>, j: nat, vs: seq<seq<nat>>)
    requires j < |l| && AllFit(r, vs)
    ensures AllFit([l] + r, Prepend(j, vs))
    ensures PickAll([l] + r, Prepend(j, vs)) == Prepend(l[j], PickAll(r, vs))
  {
    var ls := [l] + r;
    forall k | 0 <= k < |vs| ensures Fits(ls, Prepend(j, vs)[k]) && Pick(ls, Prepend(j, vs)[k]) == [l[j]] + Pick(r, vs[k]) {
      var v := Prepend(j, vs)[k];
      assert v == [j] + vs[k];
      assert forall i :: 1 <= i < |v| ==> v[i] == vs[k][i - 1] && ls[i] == r[i - 1];
    }
  }

  lemma {:induction false} CombinePicks<T>(l: seq<T>, r: seq<seq<T>>, idxs: seq<nat>, vs: seq<seq<nat>>)
    requires forall k :: 0 <= k < |idxs| ==> idxs[k] < |l|
    requires AllFit(r, vs)
    ensures AllFit([l] + r, Combine(idxs, vs))
    ensures PickAll([l] + r, Combine(idxs, vs)) == Combine(Select(l, idxs), PickAll(r, vs))
  {
    if idxs != [] {
      PickPrepend(l, r, idxs[0], vs);
      CombinePicks(l, r, idxs[1..], vs);
      PickAllAppend([l] + r, Prepend(idxs[0], vs), Combine(idxs[1..], vs));
      assert Select(l, idxs)[0] == l[idxs[0]];
      assert Select(l, idxs)[1..] == Select(l, idxs[1..]);
    }
  }

  /** Enumerating the product of the lists is enumerating the product of
      their index ranges and picking. */
  lemma {:induction false} ProductIsPicks<T>(ls: seq<seq<T>>)
    ensures AllFit(ls, Product(Ranges(ls)))
    ensures Product(ls) == PickAll(ls, Product(Ranges(ls)))
  {
    if ls == [] {
      assert Ranges(ls) == [];
      assert Pick(ls, []) == [];
    } else {
      var l, r := ls[0], ls[1..];
      assert ls == [l] + r;
      assert Ranges(ls)[0] == Range(|l|);
      assert Ranges(ls)[1..] == Ranges(r);
      ProductIsPicks(r);
      CombinePicks(l, r, Range(|l|), Product(Ranges(r)));
      assert Select(l, Range(|l|)) == l;
    }
  }

  // ----- Lexicographic order of index vectors -----

  /** `a` comes strictly before `b` in lexicographic order. */
  predicate LexLess(a: seq<nat>, b: seq<nat>)
  {
    |a| > 0 && |b| > 0 && (a[0] < b[0] || (a[0] == b[0] && LexLess(a[1..], b[1..])))
  }

  predicate StrictlyIncreasing(vs: seq<seq<nat>>)
  {
    forall i, j :: 0 <= i < j < |vs| ==> LexLess(vs[i], vs[j])
  }

  lemma IncreasingAppend(a: seq<seq<nat>>, b: seq<seq<nat>>)
    requires StrictlyIncreasing(a) && StrictlyIncreasing(b)
    requires forall i, j :: 0 <= i < |a| && 0 <= j < |b| ==> LexLess(a[i], b[j])
    ensures StrictlyIncreasing(a + b)
  {
    assert forall k :: 0 <= k < |a + b| ==> (a + b)[k] == (if k < |a| then a[k] else b[k - |a|]);
  }

  lemma PrependIncreasing(x: nat, p: seq<seq<nat>>)
    requires StrictlyIncreasing(p)
    ensures StrictlyIncreasing(Prepend(x, p))
  {
    forall i, j | 0 <= i < j < |p| ensures LexLess(Prepend(x, p)[i], Prepend(x, p)[j]) {
      assert Prepend(x, p)[i][1..] == p[i] && Prepend(x, p)[j][1..] == p[j];
    }
  }

  lemma {:induction false} CombineIncreasing(idxs: seq<nat>, p: seq<seq<nat>>)
    requires forall i, j :: 0 <= i < j < |idxs| ==> idxs[i] < idxs[j]
    requires StrictlyIncreasing(p)
    ensures StrictlyIncreasing(Combine(idxs, p))
  {
    if idxs != [] {
      var x := idxs[0];
      var tail := Combine(idxs[1..], p);
      PrependIncreasing(x, p);
      CombineIncreasing(idxs[1..], p);
      forall i, j | 0 <= i < |Prepend(x, p)| && 0 <= j < |tail| ensures LexLess(Prepend(x, p)[i], tail[j]) {
        CombineMembers(idxs[1..], p, tail[j]);
        assert tail[j] in tail;
        var k :| 0 <= k < |idxs[1..]| && idxs[1..][k] == tail[j][0];
        assert idxs[k + 1] == tail[j][0];
      }
      IncreasingAppend(Prepend(x, p), tail);
    }
  }

  lemma {:induction false} ProductRangesIncreasing(ls: seq<seq<nat>>)
    requires forall i :: 0 <= i < |ls| ==> forall a, b :: 0 <= a < b < |ls[i]| ==> ls[i][a] < ls[i][b]
    ensures StrictlyIncreasing(Product(ls))
  {
    if ls != [] {
      ProductRangesIncreasing(ls[1..]);
      CombineIncreasing(ls[0], Product(ls[1..]));
    }
  }

  lemma {:induction false} FreeChoicesMembers(ls: seq<seq<Class>>, vs: seq<seq<nat>>, v: seq<nat>)
    requires AllFit(ls, vs)
    ensures v in FreeChoices(ls, vs) <==> v in vs && Fits(ls, v) && ConflictFree(Pick(ls, v))
  {
    if vs != [] {
      FreeChoicesMembers(ls, vs[1..], v);
      assert v in vs <==> v == vs[0] || v in vs[1..];
    }
  }

  lemma {:induction false} FreeChoicesIncreasing(ls: seq<seq<Class>>, vs: seq<seq<nat>>)
    requires AllFit(ls, vs) && StrictlyIncreasing(vs)
    ensures StrictlyIncreasing(FreeChoices(ls, vs))
  {
    if vs != [] {
      var tail := FreeChoices(ls, vs[1..]);
      FreeChoicesIncreasing(ls, vs[1..]);
      forall j | 0 <= j < |tail| ensures LexLess(vs[0], tail[j]) {
        FreeChoicesMembers(ls, vs[1..], tail[j]);
        assert tail[j] in tail;
        var k :| 0 <= k < |vs[1..]| && vs[1..][k] == tail[j];
        assert vs[k + 1] == tail[j];
      }
      IncreasingAppend(if ConflictFree(Pick(ls, vs[0])) then [vs[0]] else [], tail);
    }
  }

  lemma {:induction false} ExtensionsOfPicks(ls: seq<seq<Class>>, vs: seq<seq<nat>>)
    requires AllFit(ls, vs)
    ensures Extensions([], PickAll(ls, vs)) == PickAll(ls, FreeChoices(ls, vs))
  {
    if vs != [] {
      var p := PickAll(ls, vs);
      PickAllCons(ls, vs);
      assert [] + p[0] == p[0];
      assert Extensions([], p) == (if ConflictFree(p[0]) then [p[0]] else []) + Extensions([], p[1..]);
      assert AllFit(ls, vs[1..]);
      ExtensionsOfPicks(ls, vs[1..]);
      var head := if ConflictFree(Pick(ls, vs[0])) then [vs[0]] else [];
      PickAllAppend(ls, head, FreeChoices(ls, vs[1..]));
      assert PickAll(ls, head) == if ConflictFree(Pick(ls, vs[0])) then [Pick(ls, vs[0])] else [];
    }
  }

  lemma PickAllCons<T>(ls: seq<seq<T>>, vs: seq<seq<nat>>)
    requires AllFit(ls, vs) && vs != []
    ensures AllFit(ls, vs[1..])
    ensures PickAll(ls, vs)[0] == Pick(ls, vs[0]) && PickAll(ls, vs)[1..] == PickAll(ls, vs[1..])
  {
    assert forall k :: 0 <= k < |vs| - 1 ==> vs[1..][k] == vs[k + 1];
  }

  // ----- What the generator yields -----

  /** The schedules yielded are the sections picked by the conflict-free
      index choices, taken in lexicographic order of the index vectors
      (the first course's index varying slowest). */
  lemma SearchYieldsIndexChoices(names: seq<string>, courses: map<string, seq<Class>>)
    requires IntCatalog(courses)
    ensures AllSchedules(names, courses) == PickAll(Lists(names, courses), IndexChoices(Lists(names, courses)))
  {
    var ls := Lists(names, courses);
    assert ConflictFree([]);
    SearchIsExtensions(names, courses, 0, [], 0);
    assert ls[0..] == ls;
    ProductIsPicks(ls);
    ExtensionsOfPicks(ls, Product(Ranges(ls)));
  }

  /** The conflict-free index choices are strictly increasing in
      lexicographic order, so each is yielded once and in that order. */
  lemma IndexChoicesIncreasing(ls: seq<seq<Class>>)
    ensures StrictlyIncreasing(IndexChoices(ls))
  {
    ProductRangesIncreasing(Ranges(ls));
    ProductIsPicks(ls);
    FreeChoicesIncreasing(ls, Product(Ranges(ls)));
  }

  /** An index vector is among the choices iff it picks one section per
      course and the picked sections are conflict-free. */
  lemma IndexChoicesMembers(ls: seq<seq<Class>>, v: seq<nat>)
    ensures v in IndexChoices(ls) <==> Fits(ls, v) && ConflictFree(Pick(ls, v))
  {
    ProductIsPicks(ls);
    FreeChoicesMembers(ls, Product(Ranges(ls)), v);
    RangesProductMembers(ls, v);
  }

  /** The index product holds exactly the vectors that fit. */
  lemma RangesProductMembers<T>(ls: seq<seq<T>>, v: seq<nat>)
    ensures v in Product(Ranges(ls)) <==> Fits(ls, v)
  {
    ProductMembers(Ranges(ls));
    if Fits(ls, v) {
      forall i | 0 <= i < |v| ensures v[i] in Ranges(ls)[i] {
        assert Range(|ls[i]|)[v[i]] == v[i];
      }
    }
    if v in Product(Ranges(ls)) {
      forall i | 0 <= i < |v| ensures v[i] < |ls[i]| {
        assert v[i] in Range(|ls[i]|);
      }
    }
  }

  /** Soundness: every yielded schedule has one section per course, the
      i-th drawn from course i's candidates, and no two of its sections
      conflict (in either order). */
  lemma SearchSound(names: seq<string>, courses: map<string, seq<Class>>, s: seq<Class>)
    requires IntCatalog(courses)
    requires s in AllSchedules(names, courses)
    ensures |s| == |names|
    ensures forall i :: 0 <= i < |s| ==> s[i] in Candidates(courses, names[i])
    ensures IntClasses(s) && forall i, j :: 0 <= i < |s| && 0 <= j < |s| && i != j ==> !Conflict(s[i], s[j])
  {
    var ls := Lists(names, courses);
    SearchYieldsIndexChoices(names, courses);
    var k :| 0 <= k < |IndexChoices(ls)| && PickAll(ls, IndexChoices(ls))[k] == s;
    var v := IndexChoices(ls)[k];
    IndexChoicesMembers(ls, v);
    forall i, j | 0 <= i < |s| && 0 <= j < |s| && i != j ensures !Conflict(s[i], s[j]) {
      if i < j {
        ConflictSymmetric(s[i], s[j]);
      }
    }
  }

  /** Completeness: every conflict-free choice of one candidate per course is
      yielded. */
  lemma SearchComplete(names: seq<string>, courses: map<string, seq<Class>>, s: seq<Class>)
    requires IntCatalog(courses)
    requires |s| == |names|
    requires forall i :: 0 <= i < |s| ==> s[i] in Candidates(courses, names[i])
    requires ConflictFree(s)
    ensures s in AllSchedules(names, courses)
  {
    SearchYieldsIndexChoices(names, courses);
    ChoiceIsPicked(Lists(names, courses), s);
  }

  /** A conflict-free choice of one element from each list is among the
      picks of the index choices. */
  lemma ChoiceIsPicked(ls: seq<seq<Class>>, s: seq<Class>)
    requires |s| == |ls|
    requires forall i :: 0 <= i < |s| ==> s[i] in ls[i]
    requires ConflictFree(s)
    ensures s in PickAll(ls, IndexChoices(ls))
  {
    var v: seq<nat> := seq(|s|, i requires 0 <= i < |s| =>
                             var j :| 0 <= j < |ls[i]| && ls[i][j] == s[i]; j);
    assert Pick(ls, v) == s;
    IndexChoicesMembers(ls, v);
    var k :| 0 <= k < |IndexChoices(ls)| && IndexChoices(ls)[k] == v;
    assert PickAll(ls, IndexChoices(ls))[k] == s;
  }

  /** With no courses the generator yields exactly one, empty, schedule and
      the counter ends at 1. */
  lemma NoCoursesOneEmptySchedule(courses: map<string, seq<Class>>)
    requires IntCatalog(courses)
    ensures Search([], courses, 0, [], 0) == Run([[]], 1)
  {
  }

  lemma {:induction false} ProductWithEmptyList<T>(ls: seq<seq<T>>, i: int)
    requires 0 <= i < |ls| && ls[i] == []
    ensures Product(ls) == []
  {
    if i > 0 {
      ProductWithEmptyList(ls[1..], i - 1);
      assert Product(ls[1..]) == [];
      CombineEmptyTail(ls[0]);
    }
  }

  lemma {:induction false} CombineEmptyTail<T>(l: seq<T>)
    ensures Combine(l, []) == []
  {
    if l != [] {
      CombineEmptyTail(l[1..]);
    }
  }

  /** A course without sections makes the generator yield nothing. */
  lemma EmptyCourseNoSchedules(names: seq<string>, courses: map<string, seq<Class>>, i: int)
    requires IntCatalog(courses)
    requires 0 <= i < |names| && Candidates(courses, names[i]) == []
    ensures AllSchedules(names, courses) == []
  {
    var ls := Lists(names, courses);
    assert ConflictFree([]);
    SearchIsExtensions(names, courses, 0, [], 0);
    assert ls[0..] == ls;
    ProductWithEmptyList(ls, i);
  }

  /** Two courses whose candidate lists are [a, b] and [x, y], where only a
      and x conflict: the generator yields [a, y], [b, x], [b, y] in that
      order, and the counter ends at 3. */
  lemma TwoCourseExample(names: seq<string>, courses: map<string, seq<Class>>, a: Class, b: Class, x: Class, y: Class)
    requires |names| == 2 && IntCatalog(courses)
    requires Candidates(courses, names[0]) == [a, b] && Candidates(courses, names[1]) == [x, y]
    requires IntTimes(a) && IntTimes(b) && IntTimes(x) && IntTimes(y)
    requires Conflict(x, a) && !Conflict(y, a) && !Conflict(x, b) && !Conflict(y, b)
    ensures Search(names, courses, 0, [], 0) == Run([[a, y], [b, x], [b, y]], 3)
  {
    FirstCourse(names, courses, a, b);
    ExampleFirstSection(names, courses, a, x, y);
    ExampleSecondSection(names, courses, b, x, y);
    var ra, rb := Run([[a, y]], 1), Run([[b, x], [b, y]], 3);
    assert Search(names, courses, 0, [], 0) == Run(ra.schedules + rb.schedules, rb.count);
    assert ra.schedules + rb.schedules == [[a, y], [b, x], [b, y]];
  }

  /** In the two-course example, `a` conflicts with `x` only. */
  lemma ExampleFirstSection(names: seq<string>, courses: map<string, seq<Class>>, a: Class, x: Class, y: Class)
    requires |names| == 2 && IntCatalog(courses) && Candidates(courses, names[1]) == [x, y]
    requires IntTimes(a) && IntTimes(x) && IntTimes(y)
    requires Conflict(x, a) && !Conflict(y, a)
    ensures Search(names, courses, 1, [a], 0) == Run([[a, y]], 1)
  {
    SecondCourse(names, courses, a, x, y, 0);
    assert [] + [[a, y]] == [[a, y]];
  }

  /** In the two-course example, `b` conflicts with neither x nor y. */
  lemma ExampleSecondSection(names: seq<string>, courses: map<string, seq<Class>>, b: Class, x: Class, y: Class)
    requires |names| == 2 && IntCatalog(courses) && Candidates(courses, names[1]) == [x, y]
    requires IntTimes(b) && IntTimes(x) && IntTimes(y)
    requires !Conflict(x, b) && !Conflict(y, b)
    ensures Search(names, courses, 1, [b], 1) == Run([[b, x], [b, y]], 3)
  {
    SecondCourse(names, courses, b, x, y, 1);
  }

  /** The top level of the two-course example: both sections of the first
      course are admissible against the empty choice, so the run is the run
      after `a` followed by the run after `b`. */
  lemma FirstCourse(names: seq<string>, courses: map<string, seq<Class>>, a: Class, b: Class)
    requires |names| == 2 && IntCatalog(courses) && Candidates(courses, names[0]) == [a, b]
    requires IntTimes(a) && IntTimes(b)
    ensures var ra := Search(names, courses, 1, [a], 0);
            var rb := Search(names, courses, 1, [b], ra.count);
            Search(names, courses, 0, [], 0) == Run(ra.schedules + rb.schedules, rb.count)
  {
    assert [] + [a] == [a] && [] + [b] == [b];
    assert Admissible(a, []) && Admissible(b, []);
    assert [a, b][1..] == [b] && [b][1..] == [];
    var ra := Search(names, courses, 1, [a], 0);
    var rb := Search(names, courses, 1, [b], ra.count);
    assert TryEach(names, courses, 0, [], [b], ra.count) == Run(rb.schedules + [], rb.count);
  }

  /** The second level of the two-course example: after choosing `c` for
      the first course, each of x, y that does not conflict with `c` is
      yielded, in order. */
  lemma SecondCourse(names: seq<string>, courses: map<string, seq<Class>>, c: Class, x: Class, y: Class, count: nat)
    requires |names| == 2 && IntCatalog(courses) && Candidates(courses, names[1]) == [x, y]
    requires IntTimes(c) && IntTimes(x) && IntTimes(y)
    ensures Search(names, courses, 1, [c], count).schedules
            == (if Conflict(x, c) then [] else [[c, x]]) + (if Conflict(y, c) then [] else [[c, y]])
    ensures Search(names, courses, 1, [c], count).count
            == count + (if Conflict(x, c) then 0 else 1) + (if Conflict(y, c) then 0 else 1)
  {
    var cx := if Conflict(x, c) then count else count + 1;
    LastCandidate(names, courses, c, x, count);
    LastCandidate(names, courses, c, y, cx);
    TryEachCons(names, courses, c, x, y, count);
  }

  /** The loop over [x, y] is the loop over [x] followed by the loop over [y]. */
  lemma TryEachCons(names: seq<string>, courses: map<string, seq<Class>>, c: Class, x: Class, y: Class, count: nat)
    requires |names| == 2 && IntCatalog(courses)
    requires IntTimes(c) && IntTimes(x) && IntTimes(y)
    ensures IntClasses([c]) && IntClasses([x]) && IntClasses([x, y]) && IntClasses([y])
    ensures Search(names, courses, 1, [c], count) == TryEach(names, courses, 1, [c], Candidates(courses, names[1]), count)
    ensures TryEach(names, courses, 1, [c], [x, y], count)
            == var first := TryEach(names, courses, 1, [c], [x], count);
               var rest := TryEach(names, courses, 1, [c], [y], first.count);
               Run(first.schedules + rest.schedules, rest.count)
  {
    assert IntClasses([c]) && IntClasses([x]) && IntClasses([x, y]) && IntClasses([y]);
    assert [x, y][1..] == [y] && [x][1..] == [] && [x, y][0] == x && [x][0] == x;
    var first := if Admissible(x, [c]) then Search(names, courses, 2, [c] + [x], count) else Run([], count);
    assert TryEach(names, courses, 1, [c], [x], count) == Run(first.schedules + [], first.count);
    assert first.schedules + [] == first.schedules;
  }

  /** Trying the last candidate `y` after choosing `c`. */
  lemma LastCandidate(names: seq<string>, courses: map<string, seq<Class>>, c: Class, y: Class, count: nat)
    requires |names| == 2 && IntCatalog(courses)
    requires IntTimes(c) && IntTimes(y)
    ensures TryEach(names, courses, 1, [c], [y], count)
            == if Conflict(y, c) then Run([], count) else Run([[c, y]], count + 1)
  {
    assert IntClasses([c]) && [c][0] == c;
    assert Admissible(y, [c]) == !Conflict(y, c);
    assert [y][1..] == [];
    assert [c] + [y] == [c, y];
  }
}

/** The per-line rules of get_all_classes: a line of classes.txt is
    stripped, skipped when blank or a "#" comment, split on "_" into
    Course_Section_Description_Teacher followed by Day_Start_End triples,
    and either becomes a Class or is reported as a problem with its
    (1-based) line number, its stripped text and a reason. */
module Parser {
  import opened Text
  import opened Domain

  const TooFewFields := "Too few fields"
  const NotInTriples := "Day/Time info not grouped in triples"
  const BadTimeFormat := "Invalid time format (expected HH:MM)"

  /** What one line contributes. */
  datatype LineOutcome = Skipped | Rejected(reason: string) | Accepted(c: Class)

  /** An entry of `problems`: (lineno, line, reason). */
  datatype Problem = Problem(lineno: nat, text: string, reason: string)

  // ----- The meetings part of a line -----

  /** The triples of `rem`, read as meetings in order. */
  function Slots(rem: seq<string>): seq<TimeSlot>
  {
    if |rem| < 3 then []
    else Slots(rem[..|rem| - 3]) + [TimeSlot(rem[|rem| - 3], rem[|rem| - 2], rem[|rem| - 1])]
  }

  /** Every start and end field of the triples contains ":". */
  predicate AllColons(rem: seq<string>)
  {
    if |rem| < 3 then true
    else AllColons(rem[..|rem| - 3]) && ':' in rem[|rem| - 2] && ':' in rem[|rem| - 1]
  }

  /** The fields of the meetings, day/start/end after one another. */
  function SlotFields(ts: seq<TimeSlot>): (r: seq<string>)
    ensures |r| == 3 * |ts|
  {
    if ts == [] then []
    else var last := ts[|ts| - 1]; SlotFields(ts[..|ts| - 1]) + [last.day, last.start, last.end]
  }

  /** Writing meetings as fields and reading them back gives the meetings. */
  lemma {:induction false} SlotsOfFields(ts: seq<TimeSlot>)
    ensures Slots(SlotFields(ts)) == ts
  {
    if ts != [] {
      var init := ts[..|ts| - 1];
      SlotsOfFields(init);
      var f := SlotFields(ts);
      assert f[..|f| - 3] == SlotFields(init);
      assert ts == init + [ts[|ts| - 1]];
    }
  }

  /** Reading triples as meetings and writing them back gives the fields. */
  lemma {:induction false} FieldsOfSlots(rem: seq<string>)
    requires |rem| % 3 == 0
    ensures SlotFields(Slots(rem)) == rem
    ensures 3 * |Slots(rem)| == |rem|
  {
    if |rem| >= 3 {
      var init := rem[..|rem| - 3];
      FieldsOfSlots(init);
      var ts := Slots(rem);
      assert ts[..|ts| - 1] == Slots(init);
      assert rem == init + [rem[|rem| - 3], rem[|rem| - 2], rem[|rem| - 1]];
    }
  }

  /** The meetings of the triples all have ":" in their times exactly when
      the fields do. */
  lemma {:induction false} AllColonsSlots(rem: seq<string>)
    ensures AllColons(rem) <==> forall k :: 0 <= k < |Slots(rem)| ==> ':' in Slots(rem)[k].start && ':' in Slots(rem)[k].end
  {
    if |rem| >= 3 {
      var init := rem[..|rem| - 3];
      AllColonsSlots(init);
      assert AllColons(init) ==> forall k :: 0 <= k < |Slots(init)| ==> ':' in Slots(init)[k].start;
      assert AllColons(init) ==> forall k :: 0 <= k < |Slots(init)| ==> ':' in Slots(init)[k].end;
      var s, t := Slots(rem), Slots(init);
      var last := TimeSlot(rem[|rem| - 3], rem[|rem| - 2], rem[|rem| - 1]);
      assert s == t + [last];
      assert forall k :: 0 <= k < |t| ==> s[k] == t[k];
      assert s[|t|] == last;
      if AllColons(rem) {
        assert AllColons(init) && ':' in last.start && ':' in last.end;
        forall k | 0 <= k < |s| ensures ':' in s[k].start && ':' in s[k].end {
          if k < |t| {
            assert s[k] == t[k];
            assert ':' in t[k].start && ':' in t[k].end;
          } else {
            assert s[k] == last;
          }
        }
      }
    }
  }

  function DescriptionField(d: Option<string>): string
  {
    match d
    case None => "none"
    case Some(s) => s
  }

  // ----- One line -----

  /** The outcome of one raw line of the file. */
  function ParseLine(raw: string): LineOutcome
  {
    var line := Strip(raw);
    if line == [] || line[0] == '#' then Skipped
    else
      var parts := Split(line, '_');
      if |parts| < 7 then Rejected(TooFewFields)
      else
        var rem := parts[4..];
        if |rem| % 3 != 0 then Rejected(NotInTriples)
        else if !AllColons(rem) then Rejected(BadTimeFormat)
        else Accepted(Class(parts[0], parts[1], if parts[2] == "none" then None else Some(parts[2]),
                            parts[3], Slots(rem)))
  }

  /** The loop body of get_all_classes for one line. */
  method ParseRecord(raw: string) returns (outcome: LineOutcome)
    ensures outcome == ParseLine(raw)
  {
    var line := Strip(raw);
    if line == [] || line[0] == '#' {
      return Skipped;
    }
    var parts := Split(line, '_');
    if |parts| < 7 {
      return Rejected(TooFewFields);
    }
    var description := if parts[2] == "none" then None else Some(parts[2]);
    var remaining := parts[4..];
    if |remaining| % 3 != 0 {
      return Rejected(NotInTriples);
    }
    var times, ok := ReadTimes(remaining);
    if !ok {
      return Rejected(BadTimeFormat);
    }
    return Accepted(Class(parts[0], parts[1], description, parts[3], times));
  }

  /** The triple loop `for i in range(0, len(remaining), 3)` with its `ok`
      flag: the meetings, or not ok at the first time without ":". */
  method ReadTimes(remaining: seq<string>) returns (times: seq<TimeSlot>, ok: bool)
    requires |remaining| % 3 == 0
    ensures ok == AllColons(remaining)
    ensures ok ==> times == Slots(remaining)
  {
    times := [];
    ok := true;
    var i := 0;
    while i < |remaining|
      invariant 0 <= i <= |remaining| && i % 3 == 0
      invariant ok && times == Slots(remaining[..i]) && AllColons(remaining[..i])
    {
      var day, start, end := remaining[i], remaining[i + 1], remaining[i + 2];
      var next := remaining[..i + 3];
      assert next[..i] == remaining[..i];
      if ':' !in start || ':' !in end {
        ColonsPrefix(remaining, i + 3);
        ok := false;
        break;
      }
      times := times + [TimeSlot(day, start, end)];
      i := i + 3;
    }
    if ok {
      assert remaining[..i] == remaining;
    }
  }

  /** A triple without ":" anywhere spoils the whole line. */
  lemma {:induction false} ColonsPrefix(rem: seq<string>, n: int)
    requires 3 <= n <= |rem| && n % 3 == 0 && |rem| % 3 == 0
    requires !AllColons(rem[..n])
    ensures !AllColons(rem)
    decreases |rem| - n
  {
    if n < |rem| {
      assert rem[..n + 3][..n] == rem[..n];
      ColonsPrefix(rem, n + 3);
    } else {
      assert rem[..n] == rem;
    }
  }

  // ----- The whole file -----

  /** The classes that the lines yield, in order. */
  function AcceptedOf(lines: seq<string>): seq<Class>
  {
    if lines == [] then []
    else
      var out := ParseLine(lines[|lines| - 1]);
      AcceptedOf(lines[..|lines| - 1]) + (if out.Accepted? then [out.c] else [])
  }

  /** The problems the lines raise, numbered from 1 over all lines. */
  function ProblemsOf(lines: seq<string>): seq<Problem>
  {
    if lines == [] then []
    else
      var out := ParseLine(lines[|lines| - 1]);
      ProblemsOf(lines[..|lines| - 1])
      + (if out.Rejected? then [Problem(|lines|, Strip(lines[|lines| - 1]), out.reason)] else [])
  }

  /** The parsing loop of get_all_classes
      `for lineno, line in enumerate(f, start=1)`, without the file. */
  method ParseLines(lines: seq<string>) returns (classes: seq<Class>, problems: seq<Problem>)
    ensures classes == AcceptedOf(lines)
    ensures problems == ProblemsOf(lines)
  {
    classes, problems := [], [];
    for idx := 0 to |lines|
      invariant classes == AcceptedOf(lines[..idx])
      invariant problems == ProblemsOf(lines[..idx])
    {
      assert lines[..idx + 1][..idx] == lines[..idx];
      var outcome := ParseRecord(lines[idx]);
      match outcome {
        case Skipped =>
        case Rejected(reason) =>
          problems := problems + [Problem(idx + 1, Strip(lines[idx]), reason)];
        case Accepted(c) =>
          classes := classes + [c];
      }
    }
    assert lines[..|lines|] == lines;
  }

  /** The number of skipped (blank or comment) lines. */
  function SkippedCount(lines: seq<string>): nat
  {
    if lines == [] then 0
    else SkippedCount(lines[..|lines| - 1]) + (if ParseLine(lines[|lines| - 1]).Skipped? then 1 else 0)
  }

  /** Every line is accepted, reported as a problem, or skipped, and only
      one of these. */
  lemma {:induction false} LinesAccounted(lines: seq<string>)
    ensures |AcceptedOf(lines)| + |ProblemsOf(lines)| + SkippedCount(lines) == |lines|
  {
    if lines != [] {
      LinesAccounted(lines[..|lines| - 1]);
    }
  }

  /** `p` reports line number `p.lineno` (counted from 1): that line is
      rejected, and `p` holds its stripped text and the reason. */
  predicate ReportsLine(lines: seq<string>, p: Problem)
  {
    1 <= p.lineno <= |lines|
    && var out := ParseLine(lines[p.lineno - 1]);
       out.Rejected? && p == Problem(p.lineno, Strip(lines[p.lineno - 1]), out.reason)
  }

  /** Each problem reports a rejected line by its number. */
  lemma {:induction false} ProblemsReportLines(lines: seq<string>)
    ensures forall k :: 0 <= k < |ProblemsOf(lines)| ==> ReportsLine(lines, ProblemsOf(lines)[k])
  {
    if lines != [] {
      var init := lines[..|lines| - 1];
      ProblemsReportLines(init);
      var ps, all := ProblemsOf(init), ProblemsOf(lines);
      forall k | 0 <= k < |all| ensures ReportsLine(lines, all[k]) {
        if k < |ps| {
          assert all[k] == ps[k];
          assert lines[ps[k].lineno - 1] == init[ps[k].lineno - 1];
        }
      }
    }
  }

  /** The line numbers of the problems increase along the list. */
  lemma {:induction false} ProblemsInLineOrder(lines: seq<string>)
    ensures forall k :: 0 <= k < |ProblemsOf(lines)| ==> ProblemsOf(lines)[k].lineno <= |lines|
    ensures forall k, l :: 0 <= k < l < |ProblemsOf(lines)| ==> ProblemsOf(lines)[k].lineno < ProblemsOf(lines)[l].lineno
  {
    if lines != [] {
      var init := lines[..|lines| - 1];
      ProblemsInLineOrder(init);
      var ps, all := ProblemsOf(init), ProblemsOf(lines);
      forall k | 0 <= k < |ps| ensures all[k] == ps[k] {
      }
    }
  }

  /** Every rejected line is reported. */
  lemma {:induction false} RejectedReported(lines: seq<string>, i: nat)
    requires i < |lines| && ParseLine(lines[i]).Rejected?
    ensures Problem(i + 1, Strip(lines[i]), ParseLine(lines[i]).reason) in ProblemsOf(lines)
  {
    var init := lines[..|lines| - 1];
    if i < |lines| - 1 {
      assert init[i] == lines[i];
      RejectedReported(init, i);
    }
  }

  // ----- Properties of the line rules -----

  /** Blank lines and comment lines, after stripping, are skipped, and
      nothing else is. */
  lemma SkippedIff(raw: string)
    ensures ParseLine(raw) == Skipped <==> Strip(raw) == [] || Strip(raw)[0] == '#'
  {
  }

  /** The number of "_" separators decides the field-count checks: fewer
      than six is "Too few fields", and a count that is not a multiple of
      three leaves Day/Start/End not grouped in triples. */
  lemma FieldCountRules(raw: string)
    requires Strip(raw) != [] && Strip(raw)[0] != '#'
    ensures ParseLine(raw) == Rejected(TooFewFields) <==> Occurrences(Strip(raw), '_') < 6
    ensures ParseLine(raw) == Rejected(NotInTriples) <==>
              Occurrences(Strip(raw), '_') >= 6 && Occurrences(Strip(raw), '_') % 3 != 0
  {
  }

  /** A line that passes the count checks is rejected for its times exactly
      when some start or end lacks ":". */
  lemma BadTimeIff(raw: string)
    requires Strip(raw) != [] && Strip(raw)[0] != '#'
    requires Occurrences(Strip(raw), '_') >= 6 && Occurrences(Strip(raw), '_') % 3 == 0
    ensures ParseLine(raw) == Rejected(BadTimeFormat) <==>
      exists k :: 0 <= k < |Slots(Split(Strip(raw), '_')[4..])| &&
        (':' !in Slots(Split(Strip(raw), '_')[4..])[k].start || ':' !in Slots(Split(Strip(raw), '_')[4..])[k].end)
  {
    var parts := Split(Strip(raw), '_');
    var rem := parts[4..];
    assert |parts| >= 7 && |rem| % 3 == 0;
    assert ParseLine(raw).Rejected? <==> !AllColons(rem);
    assert ParseLine(raw).Rejected? ==> ParseLine(raw).reason == BadTimeFormat;
    AllColonsSlots(rem);
  }

  /** An accepted line has at least one meeting, one per triple, every
      time with ":", and no description exactly when the field is "none". */
  lemma AcceptedShape(raw: string)
    requires ParseLine(raw).Accepted?
    ensures var c := ParseLine(raw).c;
            var parts := Split(Strip(raw), '_');
            |c.times| >= 1 && 3 * |c.times| + 4 == |parts|
            && (c.description == None <==> parts[2] == "none")
            && forall k :: 0 <= k < |c.times| ==> ':' in c.times[k].start && ':' in c.times[k].end
  {
    var parts := Split(Strip(raw), '_');
    FieldsOfSlots(parts[4..]);
    AllColonsSlots(parts[4..]);
  }

  // ----- Round trip with the file format -----

  /** The line a class is written as in classes.txt. */
  function Format(c: Class): string
  {
    Join(Fields(c), '_')
  }

  function Fields(c: Class): (r: seq<string>)
    ensures |r| == 4 + 3 * |c.times|
  {
    [c.name, c.section, DescriptionField(c.description), c.teacher] + SlotFields(c.times)
  }

  /** An accepted line is, after stripping, exactly the format of its class. */
  lemma AcceptedIsFormat(raw: string)
    requires ParseLine(raw).Accepted?
    ensures Format(ParseLine(raw).c) == Strip(raw)
  {
    var line := Strip(raw);
    var parts := Split(line, '_');
    var c := ParseLine(raw).c;
    FieldsOfSlots(parts[4..]);
    assert DescriptionField(c.description) == parts[2];
    assert Fields(c) == parts[..4] + parts[4..];
    assert parts[..4] + parts[4..] == parts;
    JoinSplit(line, '_');
  }

  /** A class whose fields hold no "_", with at least one meeting, every
      time containing ":", a description other than "none" and a line that
      begins with neither whitespace nor "#" and ends without whitespace,
      is read back from its formatted line unchanged. */
  lemma FormatIsAccepted(c: Class)
    requires forall k :: 0 <= k < |Fields(c)| ==> '_' !in Fields(c)[k]
    requires c.times != [] && c.description != Some("none")
    requires forall k :: 0 <= k < |c.times| ==> ':' in c.times[k].start && ':' in c.times[k].end
    requires c.name != [] && !IsSpace(c.name[0]) && c.name[0] != '#'
    requires var e := c.times[|c.times| - 1].end; e != [] && !IsSpace(e[|e| - 1])
    ensures ParseLine(Format(c)) == Accepted(c)
  {
    var fs := Fields(c);
    var line := Format(c);
    FormatEnds(c);
    StripStripped(line);
    SplitJoin(fs, '_');
    assert Split(Strip(line), '_') == fs;
    var rem := fs[4..];
    assert rem == SlotFields(c.times);
    TimesOfFields(c, rem);
  }

  lemma {:induction false} TimesOfFields(c: Class, rem: seq<string>)
    requires rem == SlotFields(c.times)
    requires forall k :: 0 <= k < |c.times| ==> ':' in c.times[k].start && ':' in c.times[k].end
    ensures |rem| % 3 == 0 && AllColons(rem) && Slots(rem) == c.times
  {
    SlotsOfFields(c.times);
    assert Slots(rem) == c.times;
    AllColonsSlots(rem);
  }

  /** The formatted line starts with the first character of the course
      name and ends with the last character of the last end time. */
  lemma FormatEnds(c: Class)
    requires c.times != [] && c.name != []
    requires var e := c.times[|c.times| - 1].end; e != []
    ensures var line := Format(c); var e := c.times[|c.times| - 1].end;
            line != [] && line[0] == c.name[0] && line[|line| - 1] == e[|e| - 1]
  {
    var fs := Fields(c);
    SlotFieldsLast(c.times);
    assert fs[|fs| - 1] == c.times[|c.times| - 1].end;
    JoinEnds(fs, '_');
  }

  lemma SlotFieldsLast(ts: seq<TimeSlot>)
    requires ts != []
    ensures SlotFields(ts)[3 * |ts| - 1] == ts[|ts| - 1].end
  {
  }

  /** The first and last characters of a join whose first and last pieces
      are non-empty. */
  lemma JoinEnds(parts: seq<string>, sep: char)
    requires |parts| > 0 && parts[0] != [] && parts[|parts| - 1] != []
    ensures |Join(parts, sep)| > 0
    ensures Join(parts, sep)[0] == parts[0][0]
    ensures Join(parts, sep)[|Join(parts, sep)| - 1] == parts[|parts| - 1][|parts[|parts| - 1]| - 1]
  {
    JoinLast(parts, sep);
  }

  lemma {:induction false} JoinLast(parts: seq<string>, sep: char)
    requires |parts| > 0 && parts[|parts| - 1] != []
    ensures |Join(parts, sep)| > 0
    ensures Join(parts, sep)[|Join(parts, sep)| - 1] == parts[|parts| - 1][|parts[|parts| - 1]| - 1]
  {
    if |parts| > 1 {
      JoinLast(parts[1..], sep);
    }
  }
}

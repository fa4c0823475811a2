/** The three ways the schedule builder reads a clock-time string:
    - time_to_int: ":" removed, the rest read as one integer ("09:30" is 930),
      used by the conflict test;
    - split(":") into hour and minute, used by gap scoring and daily hours,
      which the source turns into hour fractions h + m/60 and this model keeps
      as exact minutes 60*h + m;
    - the string itself, compared with == or Python's string order by the
      08:15 / 16:15 / 18:15 filters.
    For zero-padded "HH:MM" times the three readings order times alike. */
module Times {
  import opened Text

  /** t.replace(":", "") */
  function RemoveColons(t: string): (r: string)
    ensures ':' !in r
    ensures |r| == |t| - Occurrences(t, ':')
  {
    if t == [] then [] else (if t[0] == ':' then [] else [t[0]]) + RemoveColons(t[1..])
  }

  /** int(t.replace(":", "")) succeeds. */
  predicate IsIntText(t: string)
  {
    IsDecimal(RemoveColons(t))
  }

  /** time_to_int */
  function TimeToInt(t: string): nat
    requires IsIntText(t)
  {
    DecimalValue(RemoveColons(t))
  }

  /** `h, m = map(int, t.split(":"))` succeeds. */
  predicate IsHourMinute(t: string)
  {
    var p := Split(t, ':');
    |p| == 2 && IsDecimal(p[0]) && IsDecimal(p[1])
  }

  /** Minutes since midnight, 60*h + m, of an "h:m" text. */
  function Minutes(t: string): nat
    requires IsHourMinute(t)
  {
    var p := Split(t, ':');
    60 * DecimalValue(p[0]) + DecimalValue(p[1])
  }

  /** A duration in minutes read in hours, the unit of the source's
      gap and daily-hours values. */
  function Hours(minutes: int): real
  {
    minutes as real / 60.0
  }

  /** A zero-padded "HH:MM" time with minutes below 60. */
  predicate IsClock(t: string)
  {
    |t| == 5 && IsDigit(t[0]) && IsDigit(t[1]) && t[2] == ':' && '0' <= t[3] <= '5' && IsDigit(t[4])
  }

  function ClockHour(t: string): nat
    requires IsClock(t)
  {
    10 * DigitValue(t[0]) + DigitValue(t[1])
  }

  function ClockMinute(t: string): (m: nat)
    requires IsClock(t)
    ensures m < 60
  {
    10 * DigitValue(t[3]) + DigitValue(t[4])
  }

  /** What each reading gives for an "HH:MM" time. */
  lemma ClockReadings(t: string)
    requires IsClock(t)
    ensures IsIntText(t) && TimeToInt(t) == 100 * ClockHour(t) + ClockMinute(t)
    ensures IsHourMinute(t) && Minutes(t) == 60 * ClockHour(t) + ClockMinute(t)
    ensures Hours(Minutes(t)) == ClockHour(t) as real + ClockMinute(t) as real / 60.0
  {
    ClockDigits(t);
    ClockFields(t);
    DecimalTwo(t[0], t[1]);
    DecimalTwo(t[3], t[4]);
  }

  /** Removing the colon of "HH:MM" leaves the four digits, read as HHMM. */
  lemma ClockDigits(t: string)
    requires IsClock(t)
    ensures RemoveColons(t) == [t[0], t[1], t[3], t[4]]
    ensures AllDigits(RemoveColons(t))
    ensures DecimalValue(RemoveColons(t)) == 100 * ClockHour(t) + ClockMinute(t)
  {
    var t1, t2, t3, t4 := t[1..], t[2..], t[3..], t[4..];
    assert t4[1..] == [] && t3[1..] == t4 && t2[1..] == t3 && t1[1..] == t2 && t[1..] == t1;
    assert t4 == [t[4]] && t3 == [t[3], t[4]];
    assert RemoveColons(t4) == [t[4]];
    assert RemoveColons(t3) == [t[3], t[4]];
    assert RemoveColons(t2) == [t[3], t[4]];
    assert RemoveColons(t1) == [t[1], t[3], t[4]];
    var digits := [t[0], t[1], t[3], t[4]];
    assert RemoveColons(t) == digits;
    DecimalFour(t[0], t[1], t[3], t[4]);
  }

  /** int() of a four-digit string. */
  lemma DecimalFour(a: char, b: char, c: char, d: char)
    requires IsDigit(a) && IsDigit(b) && IsDigit(c) && IsDigit(d)
    ensures AllDigits([a, b, c, d])
    ensures DecimalValue([a, b, c, d]) == 100 * (10 * DigitValue(a) + DigitValue(b)) + 10 * DigitValue(c) + DigitValue(d)
  {
    var digits := [a, b, c, d];
    DecimalTwo(a, b);
    assert digits[..3][..2] == [a, b];
    assert digits[..3] == [a, b, c];
    assert DecimalValue(digits[..3]) == 10 * DecimalValue([a, b]) + DigitValue(c);
    assert DecimalValue(digits) == 10 * DecimalValue(digits[..3]) + DigitValue(d);
  }

  /** Splitting "HH:MM" on ":" gives "HH" and "MM". */
  lemma ClockFields(t: string)
    requires IsClock(t)
    ensures Split(t, ':') == [t[..2], t[3..]]
    ensures t[..2] == [t[0], t[1]] && t[3..] == [t[3], t[4]]
  {
    var t1, t2, t3, t4 := t[1..], t[2..], t[3..], t[4..];
    assert t4[1..] == [] && t3[1..] == t4 && t2[1..] == t3 && t1[1..] == t2 && t[1..] == t1;
    assert t4 == [t[4]] && t3 == [t[3], t[4]];
    var hh := t[..2];
    assert hh == [t[0], t[1]];
    assert t1[0] == t[1] && t2[0] == ':' && t3[0] == t[3] && t4[0] == t[4];
    assert Split(t4[1..], ':') == [[]];
    assert [t[4]] + [] == [t[4]];
    assert Split(t4, ':') == [[t[4]]];
    assert [t[3]] + [t[4]] == t3;
    assert Split(t3, ':') == [t3];
    assert Split(t2, ':') == [[], t3];
    assert [t[1]] + [] == [t[1]];
    assert Split(t1, ':') == [[t[1]], t3];
    assert [t[0]] + [t[1]] == hh && [[t[1]], t3][0] == [t[1]] && [[t[1]], t3][1..] == [t3];
  }

  /** int() of a two-digit string. */
  lemma DecimalTwo(c: char, d: char)
    requires IsDigit(c) && IsDigit(d)
    ensures AllDigits([c, d]) && DecimalValue([c, d]) == 10 * DigitValue(c) + DigitValue(d)
  {
    assert [c, d][..1] == [c] && [c][..0] == [];
    assert DecimalValue([c]) == DigitValue(c);
    assert DecimalValue([c, d]) == 10 * DecimalValue([c]) + DigitValue(d);
  }

  /** Every "HH:MM" time can be read both as an integer and as hour and minute. */
  lemma ClockReadable(t: string)
    requires IsClock(t)
    ensures IsIntText(t) && IsHourMinute(t)
  {
    ClockReadings(t);
  }

  /** For "HH:MM" times the integer reading, the minute reading and the
      string order agree, and equal strings are exactly equal minutes. */
  lemma ClockOrder(a: string, b: string)
    requires IsClock(a) && IsClock(b)
    ensures IsIntText(a) && IsHourMinute(a) && IsIntText(b) && IsHourMinute(b)
    ensures TimeToInt(a) < TimeToInt(b) <==> Minutes(a) < Minutes(b)
    ensures StrLess(a, b) <==> Minutes(a) < Minutes(b)
    ensures a == b <==> Minutes(a) == Minutes(b)
  {
    ClockReadings(a);
    ClockReadings(b);
    DigitOrder(a[0], b[0]);
    DigitOrder(a[1], b[1]);
    DigitOrder(a[3], b[3]);
    DigitOrder(a[4], b[4]);
    var ha, hb, ma, mb := ClockHour(a), ClockHour(b), ClockMinute(a), ClockMinute(b);
    assert Minutes(a) < Minutes(b) <==> ha < hb || (ha == hb && ma < mb);
    assert ha < hb <==> a[0] < b[0] || (a[0] == b[0] && a[1] < b[1]);
    assert ma < mb <==> a[3] < b[3] || (a[3] == b[3] && a[4] < b[4]);
    StrLessFive(a, b);
    if Minutes(a) == Minutes(b) {
      assert ha == hb && ma == mb;
      assert a == [a[0], a[1], a[2], a[3], a[4]];
      assert b == [b[0], b[1], b[2], b[3], b[4]];
    }
  }

  /** Python's string order on two five-character strings, written out. */
  lemma StrLessFive(a: string, b: string)
    requires |a| == 5 && |b| == 5
    ensures StrLess(a, b) <==>
      a[0] < b[0] || (a[0] == b[0] && (a[1] < b[1] || (a[1] == b[1] && (a[2] < b[2] || (a[2] == b[2] &&
      (a[3] < b[3] || (a[3] == b[3] && a[4] < b[4])))))))
  {
    assert a[4..][1..] == [] && b[4..][1..] == [];
    assert StrLess(a[4..], b[4..]) <==> a[4] < b[4];
    assert a[3..][1..] == a[4..] && b[3..][1..] == b[4..];
    assert StrLess(a[3..], b[3..]) <==> a[3] < b[3] || (a[3] == b[3] && a[4] < b[4]);
    assert a[2..][1..] == a[3..] && b[2..][1..] == b[3..];
    assert StrLess(a[2..], b[2..]) <==> a[2] < b[2] || (a[2] == b[2] && StrLess(a[3..], b[3..]));
    assert a[1..][1..] == a[2..] && b[1..][1..] == b[2..];
    assert StrLess(a[1..], b[1..]) <==> a[1] < b[1] || (a[1] == b[1] && StrLess(a[2..], b[2..]));
  }

  lemma DigitOrder(c: char, d: char)
    requires IsDigit(c) && IsDigit(d)
    ensures c < d <==> DigitValue(c) < DigitValue(d)
    ensures c == d <==> DigitValue(c) == DigitValue(d)
  {
  }
}

/**
 * Time-of-day utilities of the period controller (`getTimeParts`, `isValidTime`,
 * `getTimeInMinutes`): a clock text `"HH:MM"` is split on `':'` and each field is read
 * with `Number`, so a malformed field is NaN.
 */
module TimeOfDay {
  import opened JsNumber
  import opened Text

  datatype TimeParts = TimeParts(hours: Num, minutes: Num)

  /** `getTimeParts`: fields 0 and 1 of the split; a missing minutes field is NaN. */
  function GetTimeParts(s: string): TimeParts {
    var fields := Split(s, ':');
    TimeParts(ToNumber(fields[0]), if |fields| >= 2 then ToNumber(fields[1]) else NaN)
  }

  /** `isValidTime`: every comparison with NaN is false. */
  predicate IsValidTime(p: TimeParts) {
    GreaterEq(p.hours, Finite(0)) && LessEq(p.hours, Finite(23)) &&
    GreaterEq(p.minutes, Finite(0)) && LessEq(p.minutes, Finite(59))
  }

  /** `getTimeInMinutes`: `hours * 60 + minutes`, NaN when either field is. */
  function GetTimeInMinutes(s: string): Num {
    var p := GetTimeParts(s);
    Add(Mul(p.hours, Finite(60)), p.minutes)
  }

  /** The clock text a client sends for `h:m`, two digits each. */
  function ClockText(h: nat, m: nat): string {
    Decimal(h, 2) + ":" + Decimal(m, 2)
  }

  lemma {:induction false} SplitNoSep(s: string, sep: char)
    requires sep !in s
    ensures Split(s, sep) == [s]
  {
    if |s| > 0 {
      SplitNoSep(s[1..], sep);
      assert [s[0]] + s[1..] == s;
    }
  }

  lemma {:induction false} SplitPair(a: string, b: string, sep: char)
    requires sep !in a && sep !in b
    ensures Split(a + [sep] + b, sep) == [a, b]
  {
    var s := a + [sep] + b;
    if |a| == 0 {
      assert s == [sep] + b;
      assert s[1..] == b;
      SplitNoSep(b, sep);
    } else {
      assert s[0] == a[0];
      assert s[1..] == a[1..] + [sep] + b;
      SplitPair(a[1..], b, sep);
      assert [a[0]] + a[1..] == a;
    }
  }

  lemma DigitsHaveNoColon(s: string)
    requires IsDigits(s)
    ensures ':' !in s
  {
  }

  /** Reading back a formatted clock text gives its hour and minute. */
  lemma ClockTextRoundTrip(h: nat, m: nat)
    ensures GetTimeParts(ClockText(h, m)) == TimeParts(Finite(h), Finite(m))
  {
    var a, b := Decimal(h, 2), Decimal(m, 2);
    DigitsHaveNoColon(a);
    DigitsHaveNoColon(b);
    SplitPair(a, b, ':');
    assert ClockText(h, m) == a + [':'] + b;
    DecimalRoundTrip(h, 2);
    DecimalRoundTrip(m, 2);
  }

  /**
   * A clock text is accepted exactly when its hour is in 0..23 and its minute in 0..59,
   * and then it stands for `h * 60 + m` minutes.
   */
  lemma ClockTextValidity(h: nat, m: nat)
    ensures IsValidTime(GetTimeParts(ClockText(h, m))) <==> h <= 23 && m <= 59
    ensures GetTimeInMinutes(ClockText(h, m)) == Finite(h * 60 + m)
  {
    ClockTextRoundTrip(h, m);
  }

  /** A valid time lies within the day: 00:00..23:59 is 0..1439 minutes. */
  lemma ValidTimeMinutes(s: string)
    requires IsValidTime(GetTimeParts(s))
    ensures GetTimeInMinutes(s).Finite?
    ensures GetTimeInMinutes(s).value ==
      GetTimeParts(s).hours.value * 60 + GetTimeParts(s).minutes.value
    ensures 0 <= GetTimeInMinutes(s).value <= 1439
  {
    var p := GetTimeParts(s);
    assert 0 <= p.hours.value * 60 <= 23 * 60;
  }

  /**
   * Comparing minute counts of valid times is comparing the clock readings: one valid time
   * is earlier than another exactly when its (hour, minute) pair is lexicographically less.
   */
  lemma MinutesFollowClockOrder(s: string, t: string)
    requires IsValidTime(GetTimeParts(s)) && IsValidTime(GetTimeParts(t))
    ensures Less(GetTimeInMinutes(s), GetTimeInMinutes(t)) <==>
      var p, q := GetTimeParts(s), GetTimeParts(t);
      p.hours.value < q.hours.value ||
      (p.hours.value == q.hours.value && p.minutes.value < q.minutes.value)
  {
    var p, q := GetTimeParts(s), GetTimeParts(t);
    var h1, m1, h2, m2 := p.hours.value, p.minutes.value, q.hours.value, q.minutes.value;
    if h1 < h2 {
      assert h1 * 60 + 60 <= h2 * 60;
    } else if h1 > h2 {
      assert h2 * 60 + 60 <= h1 * 60;
    }
  }
}

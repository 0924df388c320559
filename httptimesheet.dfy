/**
 * `POST timesheet/:year/:month/:day` of the older controller set: reject a closed month,
 * check each period's hours, order and pairwise overlap, then either merge every period
 * into the first release stored on that date or create one release per period. Instants
 * are milliseconds since the epoch, as `new Date(text).getTime()` returns them (`NaN`
 * for a text that does not parse); local time is taken to be UTC.
 */
module HttpTimesheet {
  import opened Wrappers
  import opened JsNumber
  import opened Calendar
  import opened Store

  /** One element of the request body's `period` array, with both texts read as instants. */
  datatype StampedPeriod = StampedPeriod(start: Num, end: Num, description: string)

  /** A period after the holiday replacement, once both ends are known to be valid dates. */
  datatype Adjusted = Adjusted(start: int, end: int, description: string)

  // ---------------------------------------------------------------------------
  // The month-closed rule.

  /**
   * `new Date(year, month - 1) < new Date(now.getFullYear(), now.getMonth(), 1)`: both sides
   * are first-of-month instants, so the test compares month counts; `month` may lie
   * outside 1..12, which the `Date` constructor carries into the year.
   */
  predicate IsMonthClosed(year: int, month: int, nowYear: int, nowMonth: int) {
    year * 12 + (month - 1) < nowYear * 12 + (nowMonth - 1)
  }

  /** For calendar months, a month is closed exactly when it comes before the current one. */
  lemma MonthClosedIsEarlier(year: int, month: int, nowYear: int, nowMonth: int)
    requires 1 <= month <= 12 && 1 <= nowMonth <= 12
    ensures IsMonthClosed(year, month, nowYear, nowMonth) <==>
      year < nowYear || (year == nowYear && month < nowMonth)
  {
    if year < nowYear {
      assert year * 12 + 12 <= nowYear * 12;
    } else if year > nowYear {
      assert nowYear * 12 + 12 <= year * 12;
    }
  }

  /** The current month is open, and a thirteenth month is the next year's first. */
  lemma MonthClosedEdges(year: int, month: int)
    ensures !IsMonthClosed(year, month, year, month)
    ensures IsMonthClosed(year, 13, year + 1, 2) && !IsMonthClosed(year, 13, year + 1, 1)
  {
  }

  // ---------------------------------------------------------------------------
  // The three request checks.

  /** `getHours()`: the hour of the day of an instant, `NaN` for an invalid date. */
  function HourOfDay(t: Num): (h: Num)
    ensures h.Finite? <==> t.Finite?
    ensures h.Finite? ==> 0 <= h.value <= 23
  {
    match t
    case NaN => NaN
    case Finite(ms) => Finite((ms / MsPerHour) % 24)
  }

  /** The `startHour < 0 || startHour > 23 || endHour < 0 || endHour > 23` test. */
  predicate BadHour(p: StampedPeriod) {
    var sh, eh := HourOfDay(p.start), HourOfDay(p.end);
    Less(sh, Finite(0)) || Greater(sh, Finite(23)) || Less(eh, Finite(0)) || Greater(eh, Finite(23))
  }

  /** The hour-range check can never fail: `getHours` is 0..23, or `NaN`, which fails no comparison. */
  lemma NoBadHour(p: StampedPeriod)
    ensures !BadHour(p)
  {
    var sh, eh := HourOfDay(p.start), HourOfDay(p.end);
    assert sh.Finite? ==> 0 <= sh.value <= 23;
    assert eh.Finite? ==> 0 <= eh.value <= 23;
  }

  /** `endTime <= startTime`: an empty or inverted period; false when either is `NaN`. */
  predicate NotAfter(p: StampedPeriod) {
    LessEq(p.end, p.start)
  }

  /**
   * The pairwise test for `i < j`: the first period's start lies in `[start2, end2)` or
   * its end in `(start2, end2]`. It does not look at the later period's ends.
   */
  predicate PairOverlaps(a: StampedPeriod, b: StampedPeriod) {
    (GreaterEq(a.start, b.start) && Less(a.start, b.end)) ||
    (Greater(a.end, b.start) && LessEq(a.end, b.end))
  }

  predicate AnyBadHour(ps: seq<StampedPeriod>) {
    exists i :: 0 <= i < |ps| && BadHour(ps[i])
  }

  predicate AnyNotAfter(ps: seq<StampedPeriod>) {
    exists i :: 0 <= i < |ps| && NotAfter(ps[i])
  }

  predicate AnyPairOverlap(ps: seq<StampedPeriod>) {
    exists i, j :: 0 <= i < j < |ps| && PairOverlaps(ps[i], ps[j])
  }

  /** The request passes all three checks. */
  predicate ChecksPass(ps: seq<StampedPeriod>) {
    !AnyBadHour(ps) && !AnyNotAfter(ps) && !AnyPairOverlap(ps)
  }

  /** The two `forEach` checks and the nested overlap loop of `handle`, in that order. */
  method CheckPeriods(ps: seq<StampedPeriod>) returns (r: Outcome<Failure>)
    ensures r == Fail(InvalidTimeRange) <==> AnyBadHour(ps)
    ensures r == Fail(EndNotAfterStart) <==> !AnyBadHour(ps) && AnyNotAfter(ps)
    ensures r == Fail(RangesOverlap) <==> !AnyBadHour(ps) && !AnyNotAfter(ps) && AnyPairOverlap(ps)
    ensures r == Pass <==> ChecksPass(ps)
  {
    var i := 0;
    while i < |ps|
      invariant 0 <= i <= |ps|
      invariant forall k :: 0 <= k < i ==> !BadHour(ps[k])
    {
      var startHour := HourOfDay(ps[i].start);
      var endHour := HourOfDay(ps[i].end);
      if Less(startHour, Finite(0)) || Greater(startHour, Finite(23)) ||
         Less(endHour, Finite(0)) || Greater(endHour, Finite(23)) {
        return Fail(InvalidTimeRange);
      }
      i := i + 1;
    }
    i := 0;
    while i < |ps|
      invariant 0 <= i <= |ps|
      invariant forall k :: 0 <= k < i ==> !NotAfter(ps[k])
    {
      if LessEq(ps[i].end, ps[i].start) {
        return Fail(EndNotAfterStart);
      }
      i := i + 1;
    }
    i := 0;
    while i < |ps|
      invariant 0 <= i <= |ps|
      invariant forall a, b :: 0 <= a < i && a < b < |ps| ==> !PairOverlaps(ps[a], ps[b])
    {
      var j := i + 1;
      while j < |ps|
        invariant i + 1 <= j <= |ps|
        invariant forall b :: i < b < j ==> !PairOverlaps(ps[i], ps[b])
      {
        var start1, end1 := ps[i].start, ps[i].end;
        var start2, end2 := ps[j].start, ps[j].end;
        if (GreaterEq(start1, start2) && Less(start1, end2)) || (Greater(end1, start2) && LessEq(end1, end2)) {
          assert PairOverlaps(ps[i], ps[j]);
          return Fail(RangesOverlap);
        }
        j := j + 1;
      }
      i := i + 1;
    }
    return Pass;
  }

  /** Both ends of a period read as valid dates. */
  predicate Stamped(p: StampedPeriod) {
    p.start.Finite? && p.end.Finite?
  }

  /** Two valid periods share an instant. */
  predicate Intersect(a: StampedPeriod, b: StampedPeriod)
    requires Stamped(a) && Stamped(b)
  {
    a.start.value < b.end.value && b.start.value < a.end.value
  }

  /**
   * For non-empty periods, the test taken in both directions is exactly intersection; taken
   * in one direction it misses only the case where the first period strictly contains the
   * second.
   */
  lemma PairOverlapsMeaning(a: StampedPeriod, b: StampedPeriod)
    requires Stamped(a) && Stamped(b) && a.start.value < a.end.value && b.start.value < b.end.value
    ensures PairOverlaps(a, b) || PairOverlaps(b, a) <==> Intersect(a, b)
    ensures Intersect(a, b) && !PairOverlaps(a, b) <==>
      a.start.value < b.start.value && b.end.value < a.end.value
  {
  }

  /**
   * A request that passes, with every end a valid date, holds periods that are pairwise
   * disjoint except where an earlier period strictly contains a later one.
   */
  lemma PassedPeriodsDisjointOrNested(ps: seq<StampedPeriod>, i: int, j: int)
    requires ChecksPass(ps) && 0 <= i < j < |ps| && Stamped(ps[i]) && Stamped(ps[j])
    ensures !Intersect(ps[i], ps[j]) ||
      (ps[i].start.value < ps[j].start.value && ps[j].end.value < ps[i].end.value)
  {
    assert !NotAfter(ps[i]) && !NotAfter(ps[j]);
    assert !PairOverlaps(ps[i], ps[j]);
    PairOverlapsMeaning(ps[i], ps[j]);
  }

  /** 00:00-10:00 then 02:00-05:00 is accepted, the other order is rejected. */
  lemma ContainmentOrderMatters()
    ensures var outer, inner := StampedPeriod(Finite(0), Finite(10 * MsPerHour), ""),
                                StampedPeriod(Finite(2 * MsPerHour), Finite(5 * MsPerHour), "");
      ChecksPass([outer, inner]) && !ChecksPass([inner, outer])
  {
    var outer, inner := StampedPeriod(Finite(0), Finite(10 * MsPerHour), ""),
                        StampedPeriod(Finite(2 * MsPerHour), Finite(5 * MsPerHour), "");
    NoBadHour(outer);
    NoBadHour(inner);
    var ok, bad := [outer, inner], [inner, outer];
    assert !AnyBadHour(ok) && !AnyNotAfter(ok);
    assert PairOverlaps(bad[0], bad[1]);
  }

  // ---------------------------------------------------------------------------
  // The holiday replacement.

  /** The day number of an instant, the day its `toISOString()` names. */
  function DayOf(t: int): int {
    t / MsPerDay
  }

  /** `holidays.some((holiday) => holiday.date === start.toISOString().slice(0, 10))`. */
  predicate IsHolidayStart(holidays: seq<Holiday>, year: int, start: int) {
    exists i :: 0 <= i < |holidays| && holidays[i].year == year && DaysFromCivil(holidays[i].date) == DayOf(start)
  }

  /**
   * The `map` over the periods: a holiday period becomes 08:00-12:00 on its start's day;
   * `toISOString()` on an invalid date throws, which happens for an invalid start, and for
   * an invalid end that is kept.
   */
  function AdjustPeriod(holidays: seq<Holiday>, year: int, p: StampedPeriod): (r: Result<Adjusted, Failure>)
    ensures r.Failure? ==> r.error == InvalidDate
    ensures r.Success? <==> p.start.Finite? && (p.end.Finite? || IsHolidayStart(holidays, year, p.start.value))
    ensures r.Success? ==> r.value.description == p.description
    ensures r.Success? && !IsHolidayStart(holidays, year, p.start.value) ==>
      r.value.start == p.start.value && r.value.end == p.end.value
  {
    if p.start.NaN? then Failure(InvalidDate)
    else if IsHolidayStart(holidays, year, p.start.value) then
      var midnight := DayOf(p.start.value) * MsPerDay;
      Success(Adjusted(midnight + 8 * MsPerHour, midnight + 12 * MsPerHour, p.description))
    else if p.end.NaN? then Failure(InvalidDate)
    else Success(Adjusted(p.start.value, p.end.value, p.description))
  }

  /** `body.period.map(...)`: the first period that throws aborts the whole map. */
  function AdjustAll(holidays: seq<Holiday>, year: int, ps: seq<StampedPeriod>): (r: Result<seq<Adjusted>, Failure>)
    ensures r.Success? ==> |r.value| == |ps|
    ensures r.Success? <==> forall k :: 0 <= k < |ps| ==> AdjustPeriod(holidays, year, ps[k]).Success?
    ensures r.Success? ==> forall k :: 0 <= k < |ps| ==> r.value[k] == AdjustPeriod(holidays, year, ps[k]).value
    ensures r.Failure? ==> r.error == InvalidDate
  {
    if |ps| == 0 then Success([])
    else
      match AdjustAll(holidays, year, ps[..|ps| - 1])
      case Failure(e) => Failure(e)
      case Success(init) =>
        match AdjustPeriod(holidays, year, ps[|ps| - 1])
        case Failure(e) => Failure(e)
        case Success(a) => Success(init + [a])
  }

  /**
   * A holiday period is replaced outright by 08:00-12:00 of its start's day, whatever
   * the submitted times (it is not clipped to them), and so counts four hours.
   */
  lemma HolidayReplacement(holidays: seq<Holiday>, year: int, p: StampedPeriod)
    requires p.start.Finite? && IsHolidayStart(holidays, year, p.start.value)
    ensures AdjustPeriod(holidays, year, p).Success?
    ensures var a := AdjustPeriod(holidays, year, p).value;
      && DayOf(a.start) == DayOf(p.start.value) && DayOf(a.end) == DayOf(p.start.value)
      && a.start % MsPerDay == 8 * MsPerHour && a.end % MsPerDay == 12 * MsPerHour
      && RowHours(a) == 4
  {
  }

  // ---------------------------------------------------------------------------
  // The two write paths.

  /** `differenceInHours(end, start)` of an adjusted period. */
  function RowHours(a: Adjusted): int {
    TruncDiv(a.end - a.start, MsPerHour)
  }

  /** `differenceInHours` of a submitted period; `NaN` when either end is invalid. */
  function PeriodHours(p: StampedPeriod): (h: Num)
    ensures h.Finite? <==> Stamped(p)
  {
    if Stamped(p) then Finite(TruncDiv(p.end.value - p.start.value, MsPerHour)) else NaN
  }

  /** The sum `calculateTotalTime` accumulates, in submission order. */
  function SumHours(ps: seq<StampedPeriod>): Num {
    if |ps| == 0 then Finite(0) else Add(SumHours(ps[..|ps| - 1]), PeriodHours(ps[|ps| - 1]))
  }

  /** The sum is a number exactly when every period has two valid ends. */
  lemma {:induction false} SumHoursFinite(ps: seq<StampedPeriod>)
    ensures SumHours(ps).Finite? <==> forall k :: 0 <= k < |ps| ==> Stamped(ps[k])
  {
    if |ps| > 0 {
      SumHoursFinite(ps[..|ps| - 1]);
      assert forall k :: 0 <= k < |ps| - 1 ==> ps[..|ps| - 1][k] == ps[k];
    }
  }

  /** The sum of a concatenation is the sum of the sums. */
  lemma {:induction false} SumHoursAppend(ps: seq<StampedPeriod>, qs: seq<StampedPeriod>)
    ensures SumHours(ps + qs) == Add(SumHours(ps), SumHours(qs))
    decreases |qs|
  {
    if |qs| == 0 {
      assert ps + qs == ps;
    } else {
      assert (ps + qs)[..|ps + qs| - 1] == ps + qs[..|qs| - 1];
      SumHoursAppend(ps, qs[..|qs| - 1]);
    }
  }

  /** `calculateTotalTime`. */
  method CalculateTotalTime(periods: seq<StampedPeriod>) returns (totalTime: Num)
    ensures totalTime == SumHours(periods)
  {
    totalTime := Finite(0);
    var i := 0;
    while i < |periods|
      invariant 0 <= i <= |periods|
      invariant totalTime == SumHours(periods[..i])
    {
      assert periods[..i + 1][..i] == periods[..i];
      var timeDifference := PeriodHours(periods[i]);
      totalTime := Add(totalTime, timeDifference);
      i := i + 1;
    }
    assert periods[..|periods|] == periods;
  }

  /**
   * The merge path stores the unadjusted sum: holiday work submitted as 06:00-20:00 is
   * kept as 08:00-12:00 but counted as fourteen hours.
   */
  lemma MergedTotalIgnoresReplacement(holidays: seq<Holiday>, year: int, day: int)
    requires exists i :: 0 <= i < |holidays| && holidays[i].year == year && DaysFromCivil(holidays[i].date) == day
    ensures var p := StampedPeriod(Finite(day * MsPerDay + 6 * MsPerHour), Finite(day * MsPerDay + 20 * MsPerHour), "");
      && SumHours([p]) == Finite(14)
      && AdjustPeriod(holidays, year, p) ==
           Success(Adjusted(day * MsPerDay + 8 * MsPerHour, day * MsPerDay + 12 * MsPerHour, ""))
  {
    var p := StampedPeriod(Finite(day * MsPerDay + 6 * MsPerHour), Finite(day * MsPerDay + 20 * MsPerHour), "");
    assert DayOf(p.start.value) == day;
    assert [p][..0] == [];
  }

  /** `release.findFirst({ where: { date } })`: the first release on that date, of any user. */
  function FindFirstOnDate(releases: seq<Release>, date: Date): (r: Option<Release>)
    ensures r.Some? ==>
      exists k :: 0 <= k < |releases| && releases[k] == r.value && r.value.date == date &&
                  forall l :: 0 <= l < k ==> releases[l].date != date
    ensures r.None? <==> forall k :: 0 <= k < |releases| ==> releases[k].date != date
  {
    if |releases| == 0 then None
    else if releases[0].date == date then Some(releases[0])
    else
      var r := FindFirstOnDate(releases[1..], date);
      assert forall k :: 0 <= k < |releases| - 1 ==> releases[1..][k] == releases[k + 1];
      r
  }

  /** The rows `createTimesheet` writes, one per period, numbered from `firstId`. */
  function NewRows(adjusted: seq<Adjusted>, firstId: nat, user: UserId, date: Date): seq<Release> {
    seq(|adjusted|, k requires 0 <= k < |adjusted| =>
      Release(firstId + k, user, date, false, Finite(RowHours(adjusted[k])),
              Iso(adjusted[k].start), Iso(adjusted[k].end), adjusted[k].description))
  }

  /** The release merged into by `updateTimesheet`: the last period's texts, the summed total. */
  function Merged(releases: seq<Release>, id: Id, total: Num, adjusted: seq<Adjusted>): seq<Release> {
    if |adjusted| == 0 then releases
    else
      var last := adjusted[|adjusted| - 1];
      UpdateRelease(releases, id, total, Iso(last.start), Iso(last.end), last.description)
  }

  /** `createTimesheet`'s `for` loop: one new release per adjusted period. */
  method CreateRows(db: Database, user: UserId, date: Date, adjusted: seq<Adjusted>)
    requires db.Valid()
    modifies db
    ensures db.Valid()
    ensures db.releases == old(db.releases) + NewRows(adjusted, old(db.nextId), user, date)
    ensures db.nextId == old(db.nextId) + |adjusted|
    ensures db.holidays == old(db.holidays) && db.payments == old(db.payments)
    ensures db.bankHours == old(db.bankHours) && db.users == old(db.users)
  {
    ghost var firstId := db.nextId;
    var i := 0;
    while i < |adjusted|
      invariant 0 <= i <= |adjusted|
      invariant db.releases == old(db.releases) + NewRows(adjusted[..i], firstId, user, date)
      invariant db.nextId == firstId + i
      invariant db.Valid()
      invariant db.holidays == old(db.holidays) && db.payments == old(db.payments)
      invariant db.bankHours == old(db.bankHours) && db.users == old(db.users)
    {
      var period := adjusted[i];
      var timeDifference := TruncDiv(period.end - period.start, MsPerHour);
      var row := Release(db.nextId, user, date, false, Finite(timeDifference),
                         Iso(period.start), Iso(period.end), period.description);
      AppendKeepsIdsFresh(db.releases, db.nextId, row);
      assert NewRows(adjusted[..i + 1], firstId, user, date) == NewRows(adjusted[..i], firstId, user, date) + [row];
      db.releases := db.releases + [row];
      db.nextId := db.nextId + 1;
      i := i + 1;
    }
    assert adjusted[..|adjusted|] == adjusted;
  }

  /** `updateTimesheet`'s `for` loop: every period overwrites the same release in turn. */
  method MergeRows(db: Database, id: Id, total: Num, adjusted: seq<Adjusted>)
    requires db.Valid()
    modifies db
    ensures db.Valid()
    ensures db.releases == Merged(old(db.releases), id, total, adjusted)
    ensures db.nextId == old(db.nextId)
    ensures db.holidays == old(db.holidays) && db.payments == old(db.payments)
    ensures db.bankHours == old(db.bankHours) && db.users == old(db.users)
  {
    var i := 0;
    while i < |adjusted|
      invariant 0 <= i <= |adjusted|
      invariant db.releases == Merged(old(db.releases), id, total, adjusted[..i])
      invariant db.nextId == old(db.nextId)
      invariant db.Valid()
      invariant db.holidays == old(db.holidays) && db.payments == old(db.payments)
      invariant db.bankHours == old(db.bankHours) && db.users == old(db.users)
    {
      var period := adjusted[i];
      UpdateKeepsIdsFresh(db.releases, db.nextId, id, total, Iso(period.start), Iso(period.end), period.description);
      if i > 0 {
        var prev := adjusted[i - 1];
        UpdateReleaseLastWins(old(db.releases), id, total, Iso(prev.start), Iso(prev.end), prev.description,
                              total, Iso(period.start), Iso(period.end), period.description);
      }
      db.releases := UpdateRelease(db.releases, id, total, Iso(period.start), Iso(period.end), period.description);
      assert adjusted[..i + 1][i] == period;
      i := i + 1;
    }
    assert adjusted[..|adjusted|] == adjusted;
  }

  /** `handle`; `nowYear`/`nowMonth` are the calendar month of `new Date()`. */
  method HttpCreateTimesheet(db: Database, resources: Resources, caller: UserId, year: int, month: int,
                             day: int, nowYear: int, nowMonth: int, periods: seq<StampedPeriod>)
    returns (r: Outcome<Failure>)
    requires db.Valid()
    modifies db
    ensures db.Valid()
    ensures db.holidays == old(db.holidays) && db.payments == old(db.payments)
    ensures db.bankHours == old(db.bankHours) && db.users == old(db.users)
    ensures r.Fail? ==> db.releases == old(db.releases) && db.nextId == old(db.nextId)
    ensures "POST_TIMESHEET" !in resources ==> r == Fail(Forbidden)
    ensures "POST_TIMESHEET" in resources && IsMonthClosed(year, month, nowYear, nowMonth) ==>
      r == Fail(MonthClosed)
    ensures "POST_TIMESHEET" in resources && !IsMonthClosed(year, month, nowYear, nowMonth) ==>
      && (AnyBadHour(periods) ==> r == Fail(InvalidTimeRange))
      && (!AnyBadHour(periods) && AnyNotAfter(periods) ==> r == Fail(EndNotAfterStart))
      && (!AnyBadHour(periods) && !AnyNotAfter(periods) && AnyPairOverlap(periods) ==> r == Fail(RangesOverlap))
    ensures "POST_TIMESHEET" in resources && !IsMonthClosed(year, month, nowYear, nowMonth) && ChecksPass(periods) ==>
      var date := Date(year, month, day);
      var adjusted := AdjustAll(old(db.holidays), year, periods);
      && (adjusted.Failure? ==> r == Fail(InvalidDate))
      && (adjusted.Success? ==> r == Pass)
      && (adjusted.Success? && FindFirstOnDate(old(db.releases), date).Some? ==>
            db.releases == Merged(old(db.releases), FindFirstOnDate(old(db.releases), date).value.id,
                                  SumHours(periods), adjusted.value) &&
            db.nextId == old(db.nextId))
      && (adjusted.Success? && FindFirstOnDate(old(db.releases), date).None? ==>
            db.releases == old(db.releases) + NewRows(adjusted.value, old(db.nextId), caller, date) &&
            db.nextId == old(db.nextId) + |periods|)
  {
    if "POST_TIMESHEET" !in resources {
      return Fail(Forbidden);
    }
    if IsMonthClosed(year, month, nowYear, nowMonth) {
      return Fail(MonthClosed);
    }
    var check := CheckPeriods(periods);
    if check.Fail? {
      return check;
    }
    var date := Date(year, month, day);
    var existingTimesheet := FindFirstOnDate(db.releases, date);
    if existingTimesheet.Some? {
      var total := CalculateTotalTime(periods);
      var adjusted := AdjustAll(db.holidays, year, periods);
      if adjusted.Failure? {
        return Fail(adjusted.error);
      }
      MergeRows(db, existingTimesheet.value.id, total, adjusted.value);
    } else {
      var adjusted := AdjustAll(db.holidays, year, periods);
      if adjusted.Failure? {
        return Fail(adjusted.error);
      }
      CreateRows(db, caller, date, adjusted.value);
    }
    return Pass;
  }
}

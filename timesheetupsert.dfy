/**
 * `POST timesheet/:year/:month/:day` of the JWT-guarded period controller: validate the
 * periods, then write them one at a time, clamping holiday work to 08:00-17:00 and either
 * overwriting the caller's release with the period's id or creating a new one.
 */
module TimesheetUpsert {
  import opened Wrappers
  import opened JsNumber
  import opened Calendar
  import opened Store
  import opened TimeOfDay
  import opened PeriodValidation

  const WorkdayStart: int := 8 * 60
  const WorkdayEnd: int := 17 * 60

  datatype Span = Span(start: int, end: int)

  /** On a holiday the period is cut to the default workday window 08:00-17:00. */
  function AdjustForHoliday(isHoliday: bool, s: Span): Span {
    if !isHoliday then s
    else Span(if s.start < WorkdayStart then WorkdayStart else s.start,
              if s.end > WorkdayEnd then WorkdayEnd else s.end)
  }

  /** The clamp never widens a period and, on a holiday, keeps it inside the window. */
  lemma AdjustForHolidayBounds(isHoliday: bool, s: Span)
    ensures var r := AdjustForHoliday(isHoliday, s);
      && (isHoliday ==> r.start == (if s.start < WorkdayStart then WorkdayStart else s.start))
      && (isHoliday ==> r.end == (if s.end > WorkdayEnd then WorkdayEnd else s.end))
      && (isHoliday ==> WorkdayStart <= r.start && r.end <= WorkdayEnd)
      && r.start >= s.start && r.end <= s.end
      && (!isHoliday ==> r == s)
  {
  }

  /** Clamping an already clamped period changes nothing. */
  lemma AdjustForHolidayIdempotent(isHoliday: bool, s: Span)
    ensures AdjustForHoliday(isHoliday, AdjustForHoliday(isHoliday, s)) == AdjustForHoliday(isHoliday, s)
  {
  }

  /** `differenceInHours(end, start)` for two instants of one day, in minutes. */
  function HoursBetween(s: Span): int {
    TruncDiv(s.end - s.start, 60)
  }

  /** The minute of the day `new Date(year, month - 1, day, hours, minutes)` names. */
  function MinuteOfDay(p: TimeParts): int
    requires IsValidTime(p)
  {
    p.hours.value * 60 + p.minutes.value
  }

  /** Both clock texts of a period pass `isValidTime`. */
  predicate TimesValid(p: Period) {
    IsValidTime(GetTimeParts(p.start)) && IsValidTime(GetTimeParts(p.end))
  }

  /** The period's span after the holiday clamp. */
  function WorkedSpan(isHoliday: bool, p: Period): Span
    requires TimesValid(p)
  {
    AdjustForHoliday(isHoliday, Span(MinuteOfDay(GetTimeParts(p.start)), MinuteOfDay(GetTimeParts(p.end))))
  }

  /**
   * The total recorded for a valid period is its length in whole hours, truncated; on a
   * holiday it never exceeds the nine hours of the workday window.
   */
  lemma RecordedHoursBounds(isHoliday: bool, p: Period)
    requires TimesValid(p)
    ensures var w := WorkedSpan(isHoliday, p);
      var h := HoursBetween(w);
      && (w.start <= w.end ==> 0 <= h && h * 60 <= w.end - w.start < h * 60 + 60)
      && (isHoliday ==> h <= 9)
  {
  }

  /** A period given as two formatted clock readings spans their minute counts. */
  lemma ClockPeriodSpan(isHoliday: bool, h1: nat, m1: nat, h2: nat, m2: nat)
    requires h1 <= 23 && m1 <= 59 && h2 <= 23 && m2 <= 59
    ensures var p := Period(None, Clock(h1, m1), Clock(h2, m2), "");
      TimesValid(p) &&
      WorkedSpan(isHoliday, p) == AdjustForHoliday(isHoliday, Span(h1 * 60 + m1, h2 * 60 + m2))
  {
    var p := Period(None, Clock(h1, m1), Clock(h2, m2), "");
    ClockTextRoundTrip(h1, m1);
    ClockTextRoundTrip(h2, m2);
    SpanOfParts(isHoliday, p, h1, m1, h2, m2);
  }

  lemma SpanOfParts(isHoliday: bool, p: Period, h1: nat, m1: nat, h2: nat, m2: nat)
    requires h1 <= 23 && m1 <= 59 && h2 <= 23 && m2 <= 59
    requires GetTimeParts(p.start) == TimeParts(Finite(h1), Finite(m1))
    requires GetTimeParts(p.end) == TimeParts(Finite(h2), Finite(m2))
    ensures TimesValid(p) && WorkedSpan(isHoliday, p) == AdjustForHoliday(isHoliday, Span(h1 * 60 + m1, h2 * 60 + m2))
  {
  }

  /**
   * Holiday work from 06:00 to 20:00 counts nine hours, the same period on a working day
   * fourteen, and holiday work from 18:00 to 20:00, which lies wholly after the window,
   * ends up with its end before its start and counts minus one hour.
   */
  lemma HolidayClampScenarios()
    ensures var p := Period(None, Clock(6, 0), Clock(20, 0), "");
      TimesValid(p) && HoursBetween(WorkedSpan(true, p)) == 9 && HoursBetween(WorkedSpan(false, p)) == 14
    ensures var p := Period(None, Clock(18, 0), Clock(20, 0), "");
      TimesValid(p) && HoursBetween(WorkedSpan(true, p)) == -1
  {
    ClockPeriodSpan(true, 6, 0, 20, 0);
    ClockPeriodSpan(false, 6, 0, 20, 0);
    ClockPeriodSpan(true, 18, 0, 20, 0);
    assert TruncDiv(-60, 60) == -1;
  }

  /** `holidays.some(...)` over `getHolidays(year)`: a holiday row of that year on that date. */
  predicate IsHolidayOn(holidays: seq<Holiday>, year: int, date: Date) {
    exists i :: 0 <= i < |holidays| && holidays[i].year == year && holidays[i].date == date
  }

  /** `release.findMany({ where: { date, id_user } })`, in store order. */
  function ReleasesOn(releases: seq<Release>, user: UserId, date: Date): (r: seq<Release>)
    ensures forall k :: 0 <= k < |r| ==> r[k] in releases && r[k].user == user && r[k].date == date
    ensures forall k :: 0 <= k < |releases| && releases[k].user == user && releases[k].date == date ==>
      releases[k] in r
  {
    if |releases| == 0 then []
    else
      var init, last := releases[..|releases| - 1], releases[|releases| - 1];
      assert forall k :: 0 <= k < |init| ==> init[k] == releases[k];
      ReleasesOn(init, user, date) + (if last.user == user && last.date == date then [last] else [])
  }

  /** `existingTimesheets.find((ts) => ts.id === period.id)`; an absent id matches nothing. */
  function FindById(existing: seq<Release>, id: Option<Id>): (r: Option<Release>)
    ensures r.Some? ==> r.value in existing && id == Some(r.value.id)
    ensures r.None? ==> forall k :: 0 <= k < |existing| ==> id != Some(existing[k].id)
  {
    if |existing| == 0 then None
    else if id == Some(existing[0].id) then Some(existing[0])
    else FindById(existing[1..], id)
  }

  /** What the loop of `handle` reads but does not change. */
  datatype Target = Target(user: UserId, date: Date, isHoliday: bool, existing: seq<Release>)

  /** The release table, the identifier counter, and whether the loop has thrown. */
  datatype Progress = Progress(releases: seq<Release>, nextId: nat, failed: bool)

  /** One iteration of the loop of `handle`. */
  function UpsertStep(st: Progress, t: Target, p: Period): Progress {
    if st.failed then st
    else if !TimesValid(p) then st.(failed := true)
    else
      var total := Finite(HoursBetween(WorkedSpan(t.isHoliday, p)));
      match FindById(t.existing, p.id)
      case Some(ex) =>
        st.(releases := UpdateRelease(st.releases, ex.id, total, Raw(p.start), Raw(p.end), p.description))
      case None =>
        st.(releases := st.releases + [Release(st.nextId, t.user, t.date, t.isHoliday, total,
                                               Raw(p.start), Raw(p.end), p.description)],
            nextId := st.nextId + 1)
  }

  /** The loop of `handle` over `ps`, in order. */
  function UpsertAll(st: Progress, t: Target, ps: seq<Period>): Progress {
    if |ps| == 0 then st else UpsertStep(UpsertAll(st, t, ps[..|ps| - 1]), t, ps[|ps| - 1])
  }

  /** A valid period's step is the update or the append `StorePeriod` performs. */
  lemma StepStores(st: Progress, t: Target, p: Period, total: Num)
    requires !st.failed && TimesValid(p) && total == Finite(HoursBetween(WorkedSpan(t.isHoliday, p)))
    ensures FindById(t.existing, p.id).Some? ==>
      UpsertStep(st, t, p) == Progress(UpdateRelease(st.releases, FindById(t.existing, p.id).value.id, total,
                                                      Raw(p.start), Raw(p.end), p.description), st.nextId, false)
    ensures FindById(t.existing, p.id).None? ==>
      UpsertStep(st, t, p) == Progress(st.releases + [Release(st.nextId, t.user, t.date, t.isHoliday, total,
                                                               Raw(p.start), Raw(p.end), p.description)],
                                       st.nextId + 1, false)
  {
  }

  /**
   * The effect of one period: a period whose id names a release of the snapshot
   * overwrites that release's total, times and description and leaves its holiday flag
   * alone; any other period appends a new release flagged with `isHoliday`. Either way
   * the total is the truncated whole-hour length of the clamped period.
   */
  lemma UpsertStepEffect(st: Progress, t: Target, p: Period)
    requires !st.failed && TimesValid(p)
    ensures var r := UpsertStep(st, t, p);
      var total := Finite(TruncDiv(WorkedSpan(t.isHoliday, p).end - WorkedSpan(t.isHoliday, p).start, 60));
      && !r.failed
      && (FindById(t.existing, p.id).Some? ==>
            var id := FindById(t.existing, p.id).value.id;
            && r.nextId == st.nextId && |r.releases| == |st.releases|
            && forall k :: 0 <= k < |st.releases| ==>
                 if st.releases[k].id == id
                 then r.releases[k] == st.releases[k].(total := total, startHour := Raw(p.start),
                                                      endHour := Raw(p.end), description := p.description)
                      && r.releases[k].holiday == st.releases[k].holiday
                 else r.releases[k] == st.releases[k])
      && (FindById(t.existing, p.id).None? ==>
            r.nextId == st.nextId + 1 &&
            r.releases == st.releases + [Release(st.nextId, t.user, t.date, t.isHoliday, total,
                                                 Raw(p.start), Raw(p.end), p.description)])
  {
    StepStores(st, t, p, Finite(HoursBetween(WorkedSpan(t.isHoliday, p))));
  }

  /** Once the loop has thrown, the remaining periods change nothing. */
  lemma {:induction false} FailedStaysPut(st: Progress, t: Target, ps: seq<Period>, i: int)
    requires 0 <= i < |ps| && UpsertAll(st, t, ps[..i + 1]).failed
    ensures UpsertAll(st, t, ps) == UpsertAll(st, t, ps[..i + 1])
    decreases |ps| - i
  {
    if i + 1 < |ps| {
      assert ps[..|ps| - 1][..i + 1] == ps[..i + 1];
      FailedStaysPut(st, t, ps[..|ps| - 1], i);
    } else {
      assert ps[..i + 1] == ps;
    }
  }

  /**
   * Periods are written one at a time: when period `k` is the first with an out-of-range
   * time, the call throws with exactly the writes of periods `0..k-1` applied.
   */
  lemma {:induction false} FirstInvalidStops(st: Progress, t: Target, ps: seq<Period>, k: int)
    requires !st.failed
    requires 0 <= k < |ps| && !TimesValid(ps[k])
    requires forall j :: 0 <= j < k ==> TimesValid(ps[j])
    ensures UpsertAll(st, t, ps) == UpsertAll(st, t, ps[..k]).(failed := true)
    ensures !UpsertAll(st, t, ps[..k]).failed
  {
    NoFailureOnValid(st, t, ps[..k]);
    assert ps[..k + 1][..k] == ps[..k];
    FailedStaysPut(st, t, ps, k);
  }

  lemma {:induction false} NoFailureOnValid(st: Progress, t: Target, ps: seq<Period>)
    requires !st.failed
    requires forall j :: 0 <= j < |ps| ==> TimesValid(ps[j])
    ensures !UpsertAll(st, t, ps).failed
  {
    if |ps| > 0 {
      NoFailureOnValid(st, t, ps[..|ps| - 1]);
    }
  }

  /**
   * The snapshot's identifiers were handed out already, and each names only releases of
   * the target user and date.
   */
  ghost predicate SnapshotOwned(releases: seq<Release>, nextId: nat, t: Target) {
    forall e, k :: e in t.existing && 0 <= k < |releases| && releases[k].id == e.id ==>
      e.id < nextId && releases[k].user == t.user && releases[k].date == t.date
  }

  /** What one step keeps of the table: the facts `UpsertKeepsOtherRows` chains together. */
  ghost predicate KeepsRows(before: Progress, after: Progress, t: Target) {
    && |after.releases| >= |before.releases|
    && after.nextId - before.nextId == |after.releases| - |before.releases|
    && forall k :: 0 <= k < |before.releases| ==>
         && after.releases[k].id == before.releases[k].id
         && after.releases[k].user == before.releases[k].user
         && after.releases[k].date == before.releases[k].date
         && after.releases[k].holiday == before.releases[k].holiday
         && (before.releases[k].user != t.user || before.releases[k].date != t.date ==>
               after.releases[k] == before.releases[k])
  }

  /** Keeping rows composes. */
  lemma KeepsRowsTrans(a: Progress, b: Progress, c: Progress, t: Target)
    requires KeepsRows(a, b, t) && KeepsRows(b, c, t)
    ensures KeepsRows(a, c, t)
  {
  }

  /** One step keeps the snapshot owned and the other rows intact. */
  lemma UpsertStepKeepsRows(st: Progress, t: Target, p: Period)
    requires SnapshotOwned(st.releases, st.nextId, t)
    requires forall e :: e in t.existing ==> e.id < st.nextId
    ensures SnapshotOwned(UpsertStep(st, t, p).releases, UpsertStep(st, t, p).nextId, t)
    ensures KeepsRows(st, UpsertStep(st, t, p), t)
  {
    if !st.failed && TimesValid(p) {
      var total := Finite(HoursBetween(WorkedSpan(t.isHoliday, p)));
      StepStores(st, t, p, total);
      match FindById(t.existing, p.id)
      case Some(ex) =>
        UpdateKeepsRows(st, t, ex, total, Raw(p.start), Raw(p.end), p.description);
      case None =>
        AppendKeepsRows(st, t, Release(st.nextId, t.user, t.date, t.isHoliday, total,
                                       Raw(p.start), Raw(p.end), p.description));
    } else {
      assert KeepsRows(st, st, t);
    }
  }

  /** Overwriting a snapshot row keeps the rows of other users and dates. */
  lemma UpdateKeepsRows(st: Progress, t: Target, ex: Release, total: Num, s: TimeText, e: TimeText, d: string)
    requires SnapshotOwned(st.releases, st.nextId, t) && ex in t.existing
    ensures var r := Progress(UpdateRelease(st.releases, ex.id, total, s, e, d), st.nextId, false);
      SnapshotOwned(r.releases, r.nextId, t) && KeepsRows(st, r, t)
  {
    var r := UpdateRelease(st.releases, ex.id, total, s, e, d);
    assert |r| == |st.releases|;
    forall k | 0 <= k < |st.releases|
      ensures r[k].id == st.releases[k].id && r[k].user == st.releases[k].user
      ensures r[k].date == st.releases[k].date && r[k].holiday == st.releases[k].holiday
      ensures st.releases[k].user != t.user || st.releases[k].date != t.date ==> r[k] == st.releases[k]
    {
      if st.releases[k].user != t.user || st.releases[k].date != t.date {
        assert st.releases[k].id != ex.id;
      }
    }
  }

  /** Appending a row with a fresh identifier for the target keeps the snapshot owned. */
  lemma AppendKeepsRows(st: Progress, t: Target, row: Release)
    requires SnapshotOwned(st.releases, st.nextId, t)
    requires forall e :: e in t.existing ==> e.id < st.nextId
    requires row.id == st.nextId && row.user == t.user && row.date == t.date
    ensures var r := Progress(st.releases + [row], st.nextId + 1, false);
      SnapshotOwned(r.releases, r.nextId, t) && KeepsRows(st, r, t)
  {
    var r := st.releases + [row];
    forall e, k | e in t.existing && 0 <= k < |r| && r[k].id == e.id
      ensures e.id < st.nextId + 1 && r[k].user == t.user && r[k].date == t.date
    {
      if k < |st.releases| {
        assert r[k] == st.releases[k];
      }
    }
  }

  /**
   * Writes never touch another user's or another date's release, existing rows keep their
   * identity, and each new row consumes one fresh identifier.
   */
  lemma {:induction false} UpsertKeepsOtherRows(st: Progress, t: Target, ps: seq<Period>)
    requires SnapshotOwned(st.releases, st.nextId, t)
    requires forall e :: e in t.existing ==> e.id < st.nextId
    ensures var r := UpsertAll(st, t, ps);
      && SnapshotOwned(r.releases, r.nextId, t)
      && |r.releases| >= |st.releases|
      && r.nextId - st.nextId == |r.releases| - |st.releases|
      && forall k :: 0 <= k < |st.releases| ==>
           && r.releases[k].id == st.releases[k].id
           && r.releases[k].user == st.releases[k].user
           && r.releases[k].date == st.releases[k].date
           && r.releases[k].holiday == st.releases[k].holiday
           && (st.releases[k].user != t.user || st.releases[k].date != t.date ==>
                 r.releases[k] == st.releases[k])
  {
    if |ps| == 0 {
      assert KeepsRows(st, st, t);
    } else {
      var mid := UpsertAll(st, t, ps[..|ps| - 1]);
      UpsertKeepsOtherRows(st, t, ps[..|ps| - 1]);
      assert KeepsRows(st, mid, t);
      UpsertStepKeepsRows(mid, t, ps[|ps| - 1]);
      KeepsRowsTrans(st, mid, UpsertStep(mid, t, ps[|ps| - 1]), t);
    }
  }

  /** The clock arithmetic of the loop body: the minutes of both times, clamped on a holiday. */
  method ComputeSpan(period: Period, isHoliday: bool) returns (startTime: int, endTime: int)
    requires TimesValid(period)
    ensures Span(startTime, endTime) == WorkedSpan(isHoliday, period)
  {
    var startParts := GetTimeParts(period.start);
    var endParts := GetTimeParts(period.end);
    startTime := startParts.hours.value * 60 + startParts.minutes.value;
    endTime := endParts.hours.value * 60 + endParts.minutes.value;
    if isHoliday {
      if startTime < WorkdayStart {
        startTime := WorkdayStart;
      }
      if endTime > WorkdayEnd {
        endTime := WorkdayEnd;
      }
    }
  }

  /** `release.update` of the snapshot row the period names, or `release.create` of a new one. */
  method StorePeriod(db: Database, t: Target, period: Period, total: Num)
    requires db.Valid()
    modifies db
    ensures db.Valid()
    ensures db.holidays == old(db.holidays) && db.payments == old(db.payments)
    ensures db.bankHours == old(db.bankHours) && db.users == old(db.users)
    ensures FindById(t.existing, period.id).Some? ==>
      db.nextId == old(db.nextId) &&
      db.releases == UpdateRelease(old(db.releases), FindById(t.existing, period.id).value.id, total,
                                   Raw(period.start), Raw(period.end), period.description)
    ensures FindById(t.existing, period.id).None? ==>
      db.nextId == old(db.nextId) + 1 &&
      db.releases == old(db.releases) + [Release(old(db.nextId), t.user, t.date, t.isHoliday, total,
                                                 Raw(period.start), Raw(period.end), period.description)]
  {
    var existingTimesheet := FindById(t.existing, period.id);
    if existingTimesheet.Some? {
      UpdateKeepsIdsFresh(db.releases, db.nextId, existingTimesheet.value.id, total,
                          Raw(period.start), Raw(period.end), period.description);
      db.releases := UpdateRelease(db.releases, existingTimesheet.value.id, total,
                                   Raw(period.start), Raw(period.end), period.description);
    } else {
      var row := Release(db.nextId, t.user, t.date, t.isHoliday, total,
                         Raw(period.start), Raw(period.end), period.description);
      AppendKeepsIdsFresh(db.releases, db.nextId, row);
      db.releases := db.releases + [row];
      db.nextId := db.nextId + 1;
    }
  }

  /** One pass of the loop body of `handle`: check the times, clamp, then update or create. */
  method WritePeriod(db: Database, t: Target, holidays: seq<Holiday>, year: int, period: Period)
    returns (ok: bool)
    requires db.Valid()
    requires t.isHoliday == IsHolidayOn(holidays, year, t.date)
    modifies db
    ensures db.Valid()
    ensures db.holidays == old(db.holidays) && db.payments == old(db.payments)
    ensures db.bankHours == old(db.bankHours) && db.users == old(db.users)
    ensures Progress(db.releases, db.nextId, !ok) ==
            UpsertStep(Progress(old(db.releases), old(db.nextId), false), t, period)
  {
    if !IsValidTime(GetTimeParts(period.start)) || !IsValidTime(GetTimeParts(period.end)) {
      return false;
    }
    var isHoliday := exists k :: 0 <= k < |holidays| && holidays[k].year == year && holidays[k].date == t.date;
    var startTime, endTime := ComputeSpan(period, isHoliday);
    var timeDifference := TruncDiv(endTime - startTime, 60);
    StepStores(Progress(db.releases, db.nextId, false), t, period, Finite(timeDifference));
    StorePeriod(db, t, period, Finite(timeDifference));
    return true;
  }

  /** The `for` loop of `handle`: the periods are written in request order. */
  method WritePeriods(db: Database, t: Target, holidays: seq<Holiday>, year: int, periods: seq<Period>)
    returns (ok: bool)
    requires db.Valid()
    requires t.isHoliday == IsHolidayOn(holidays, year, t.date)
    modifies db
    ensures db.Valid()
    ensures db.holidays == old(db.holidays) && db.payments == old(db.payments)
    ensures db.bankHours == old(db.bankHours) && db.users == old(db.users)
    ensures Progress(db.releases, db.nextId, !ok) ==
            UpsertAll(Progress(old(db.releases), old(db.nextId), false), t, periods)
  {
    ghost var st0 := Progress(db.releases, db.nextId, false);
    var i := 0;
    while i < |periods|
      invariant 0 <= i <= |periods|
      invariant Progress(db.releases, db.nextId, false) == UpsertAll(st0, t, periods[..i])
      invariant db.Valid()
      invariant db.holidays == old(db.holidays) && db.payments == old(db.payments)
      invariant db.bankHours == old(db.bankHours) && db.users == old(db.users)
    {
      assert periods[..i + 1][..i] == periods[..i];
      var written := WritePeriod(db, t, holidays, year, periods[i]);
      if !written {
        FailedStaysPut(st0, t, periods, i);
        return false;
      }
      i := i + 1;
    }
    assert periods[..|periods|] == periods;
    return true;
  }

  /** `handle` of the period controller. */
  method CreateTimesheet(db: Database, resources: Resources, caller: UserId,
                         year: int, month: int, day: int, periods: seq<Period>)
    returns (r: Outcome<Failure>)
    requires db.Valid()
    modifies db
    ensures db.Valid()
    ensures db.holidays == old(db.holidays) && db.payments == old(db.payments)
    ensures db.bankHours == old(db.bankHours) && db.users == old(db.users)
    ensures "POST_TIMESHEET" !in resources ==>
      r == Fail(Forbidden) && db.releases == old(db.releases) && db.nextId == old(db.nextId)
    ensures "POST_TIMESHEET" in resources && AnyInverted(periods) ==>
      r == Fail(InvertedPeriod) && db.releases == old(db.releases) && db.nextId == old(db.nextId)
    ensures "POST_TIMESHEET" in resources && !AnyInverted(periods) && !PeriodsAccepted(periods) ==>
      r == Fail(OverlappingPeriods) && db.releases == old(db.releases) && db.nextId == old(db.nextId)
    ensures "POST_TIMESHEET" in resources && PeriodsAccepted(periods) ==>
      var date := Date(year, month, day);
      var t := Target(caller, date, IsHolidayOn(old(db.holidays), year, date),
                      ReleasesOn(old(db.releases), caller, date));
      var fin := UpsertAll(Progress(old(db.releases), old(db.nextId), false), t, periods);
      && db.releases == fin.releases && db.nextId == fin.nextId
      && r == (if fin.failed then Fail(TimeOutOfRange) else Pass)
  {
    if "POST_TIMESHEET" !in resources {
      return Fail(Forbidden);
    }
    var date := Date(year, month, day);
    var existing := ReleasesOn(db.releases, caller, date);
    var holidays := db.holidays;
    var check := ValidatePeriods(periods);
    if check.Fail? {
      return check;
    }
    var onHoliday := exists k :: 0 <= k < |holidays| && holidays[k].year == year && holidays[k].date == date;
    var ok := WritePeriods(db, Target(caller, date, onHoliday, existing), holidays, year, periods);
    r := if ok then Pass else Fail(TimeOutOfRange);
  }
}

/**
 * The holiday calendar the timesheet controllers read: bulk creation guarded by a
 * duplicate-date check, replacement of one year's holidays, and the listing grouped by
 * year.
 */
module HolidayCalendar {
  import opened Wrappers
  import opened Calendar
  import opened Text
  import opened Store

  // ---------------------------------------------------------------------------
  // Creation.

  /** Some stored holiday, of any year, falls on `d`. */
  predicate DateStored(holidays: seq<Holiday>, d: Date) {
    exists k :: 0 <= k < |holidays| && holidays[k].date == d
  }

  /** `holiday.findMany({ where: { date: { in: days } } })` returns a row. */
  predicate AnyStored(holidays: seq<Holiday>, days: seq<Date>) {
    exists i :: 0 <= i < |days| && DateStored(holidays, days[i])
  }

  /** `days.map((day) => ({ id: uuidv4(), year, date: new Date(day) }))`. */
  function NewHolidays(year: nat, days: seq<Date>, firstId: nat): seq<Holiday> {
    seq(|days|, k requires 0 <= k < |days| => Holiday(firstId + k, year, days[k]))
  }

  /** `handle` of the unguarded controller: reject known dates, else insert one row per day. */
  method InsertHolidays(db: Database, year: nat, days: seq<Date>) returns (r: Outcome<Failure>)
    requires db.Valid()
    modifies db
    ensures db.Valid()
    ensures db.releases == old(db.releases) && db.payments == old(db.payments)
    ensures db.bankHours == old(db.bankHours) && db.users == old(db.users)
    ensures AnyStored(old(db.holidays), days) ==>
      r == Fail(HolidayExists) && db.holidays == old(db.holidays) && db.nextId == old(db.nextId)
    ensures !AnyStored(old(db.holidays), days) ==>
      r == Pass && db.holidays == old(db.holidays) + NewHolidays(year, days, old(db.nextId)) &&
      db.nextId == old(db.nextId) + |days|
  {
    var existing := exists i :: 0 <= i < |days| && exists k :: 0 <= k < |db.holidays| && db.holidays[k].date == days[i];
    if existing {
      return Fail(HolidayExists);
    }
    db.holidays := db.holidays + NewHolidays(year, days, db.nextId);
    db.nextId := db.nextId + |days|;
    return Pass;
  }

  /** `handle` of the guarded controller: the same, behind `POST_HOLIDAY`. */
  method CreateHoliday(db: Database, resources: Resources, year: nat, days: seq<Date>) returns (r: Outcome<Failure>)
    requires db.Valid()
    modifies db
    ensures db.Valid()
    ensures db.releases == old(db.releases) && db.payments == old(db.payments)
    ensures db.bankHours == old(db.bankHours) && db.users == old(db.users)
    ensures "POST_HOLIDAY" !in resources ==>
      r == Fail(Forbidden) && db.holidays == old(db.holidays) && db.nextId == old(db.nextId)
    ensures "POST_HOLIDAY" in resources && AnyStored(old(db.holidays), days) ==>
      r == Fail(HolidayExists) && db.holidays == old(db.holidays) && db.nextId == old(db.nextId)
    ensures "POST_HOLIDAY" in resources && !AnyStored(old(db.holidays), days) ==>
      r == Pass && db.holidays == old(db.holidays) + NewHolidays(year, days, old(db.nextId)) &&
      db.nextId == old(db.nextId) + |days|
  {
    if "POST_HOLIDAY" !in resources {
      return Fail(Forbidden);
    }
    r := InsertHolidays(db, year, days);
  }

  /** No two stored holidays share a date. */
  predicate DatesUnique(holidays: seq<Holiday>) {
    forall i, j :: 0 <= i < j < |holidays| ==> holidays[i].date != holidays[j].date
  }

  /**
   * The duplicate check keeps dates unique only when the request itself repeats no day:
   * it consults the stored rows alone.
   */
  lemma InsertKeepsDatesUnique(holidays: seq<Holiday>, year: nat, days: seq<Date>, firstId: nat)
    requires DatesUnique(holidays) && !AnyStored(holidays, days)
    ensures DatesUnique(holidays + NewHolidays(year, days, firstId)) <==>
      forall i, j :: 0 <= i < j < |days| ==> days[i] != days[j]
  {
    var all := holidays + NewHolidays(year, days, firstId);
    if forall i, j :: 0 <= i < j < |days| ==> days[i] != days[j] {
      forall i, j | 0 <= i < j < |all|
        ensures all[i].date != all[j].date
      {
        if j >= |holidays| && i < |holidays| {
          assert all[j].date == days[j - |holidays|];
          assert !DateStored(holidays, days[j - |holidays|]);
        }
      }
    } else {
      var i, j :| 0 <= i < j < |days| && days[i] == days[j];
      assert all[|holidays| + i].date == all[|holidays| + j].date;
    }
  }

  /** A day given twice in one request is inserted twice. */
  lemma RepeatedDayAccepted(holidays: seq<Holiday>, year: nat, d: Date, firstId: nat)
    requires !DateStored(holidays, d)
    ensures !AnyStored(holidays, [d, d])
    ensures NewHolidays(year, [d, d], firstId) == [Holiday(firstId, year, d), Holiday(firstId + 1, year, d)]
  {
  }

  // ---------------------------------------------------------------------------
  // Replacement of one year.

  /** `holiday.deleteMany({ where: { year } })`. */
  function WithoutYear(holidays: seq<Holiday>, year: nat): (r: seq<Holiday>)
    ensures forall k :: 0 <= k < |r| ==> r[k].year != year && r[k] in holidays
  {
    if |holidays| == 0 then []
    else
      var init, last := holidays[..|holidays| - 1], holidays[|holidays| - 1];
      WithoutYear(init, year) + (if last.year == year then [] else [last])
  }

  /** The dates of one year's holidays, in store order. */
  function DatesOfYear(holidays: seq<Holiday>, year: nat): seq<Date> {
    if |holidays| == 0 then []
    else
      var init, last := holidays[..|holidays| - 1], holidays[|holidays| - 1];
      DatesOfYear(init, year) + (if last.year == year then [last.date] else [])
  }

  lemma {:induction false} DatesOfYearAppend(a: seq<Holiday>, b: seq<Holiday>, year: nat)
    ensures DatesOfYear(a + b, year) == DatesOfYear(a, year) + DatesOfYear(b, year)
    decreases |b|
  {
    if |b| == 0 {
      assert a + b == a;
    } else {
      assert (a + b)[..|a + b| - 1] == a + b[..|b| - 1];
      DatesOfYearAppend(a, b[..|b| - 1], year);
    }
  }

  lemma {:induction false} DatesOfYearWithout(holidays: seq<Holiday>, year: nat, other: nat)
    ensures DatesOfYear(WithoutYear(holidays, year), other) ==
      if other == year then [] else DatesOfYear(holidays, other)
  {
    if |holidays| > 0 {
      var init, last := holidays[..|holidays| - 1], holidays[|holidays| - 1];
      DatesOfYearWithout(init, year, other);
      DatesOfYearAppend(WithoutYear(init, year), if last.year == year then [] else [last], other);
      assert [last][..0] == [];
    }
  }

  lemma {:induction false} DatesOfYearNew(year: nat, days: seq<Date>, firstId: nat, other: nat)
    ensures DatesOfYear(NewHolidays(year, days, firstId), other) == if other == year then days else []
  {
    if |days| > 0 {
      var rows := NewHolidays(year, days, firstId);
      var init := days[..|days| - 1];
      NewHolidaysInit(year, days, firstId);
      DatesOfYearNew(year, init, firstId, other);
      assert DatesOfYear(rows, other) ==
        DatesOfYear(NewHolidays(year, init, firstId), other) + (if year == other then [days[|days| - 1]] else []);
      assert days == init + [days[|days| - 1]];
    }
  }

  lemma NewHolidaysInit(year: nat, days: seq<Date>, firstId: nat)
    requires |days| > 0
    ensures var rows := NewHolidays(year, days, firstId);
      rows[..|rows| - 1] == NewHolidays(year, days[..|days| - 1], firstId) &&
      rows[|rows| - 1].year == year && rows[|rows| - 1].date == days[|days| - 1]
  {
  }

  /** The table after `handle` of the update controller. */
  function ReplaceYear(holidays: seq<Holiday>, year: nat, days: seq<Date>, firstId: nat): seq<Holiday> {
    WithoutYear(holidays, year) + NewHolidays(year, days, firstId)
  }

  /**
   * Afterwards that year's holidays are exactly the given days, in order, and every other
   * year's holidays are the ones stored before.
   */
  lemma ReplaceYearEffect(holidays: seq<Holiday>, year: nat, days: seq<Date>, firstId: nat, other: nat)
    ensures DatesOfYear(ReplaceYear(holidays, year, days, firstId), year) == days
    ensures other != year ==>
      DatesOfYear(ReplaceYear(holidays, year, days, firstId), other) == DatesOfYear(holidays, other)
  {
    DatesOfYearAppend(WithoutYear(holidays, year), NewHolidays(year, days, firstId), year);
    DatesOfYearWithout(holidays, year, year);
    DatesOfYearNew(year, days, firstId, year);
    DatesOfYearAppend(WithoutYear(holidays, year), NewHolidays(year, days, firstId), other);
    DatesOfYearWithout(holidays, year, other);
    DatesOfYearNew(year, days, firstId, other);
  }

  /** Replacing a year twice with the same days leaves every year as one replacement does. */
  lemma ReplaceYearIdempotent(holidays: seq<Holiday>, year: nat, days: seq<Date>, n1: nat, n2: nat, other: nat)
    ensures DatesOfYear(ReplaceYear(ReplaceYear(holidays, year, days, n1), year, days, n2), other) ==
            DatesOfYear(ReplaceYear(holidays, year, days, n1), other)
  {
    var once := ReplaceYear(holidays, year, days, n1);
    ReplaceYearEffect(holidays, year, days, n1, other);
    ReplaceYearEffect(once, year, days, n2, other);
  }

  /** `handle` of the update controller: delete the year's rows, then insert the days. */
  method UpdateHoliday(db: Database, resources: Resources, year: nat, days: seq<Date>) returns (r: Outcome<Failure>)
    requires db.Valid()
    modifies db
    ensures db.Valid()
    ensures db.releases == old(db.releases) && db.payments == old(db.payments)
    ensures db.bankHours == old(db.bankHours) && db.users == old(db.users)
    ensures "PUT_HOLIDAY" !in resources ==>
      r == Fail(Forbidden) && db.holidays == old(db.holidays) && db.nextId == old(db.nextId)
    ensures "PUT_HOLIDAY" in resources ==>
      r == Pass && db.holidays == ReplaceYear(old(db.holidays), year, days, old(db.nextId)) &&
      db.nextId == old(db.nextId) + |days|
  {
    if "PUT_HOLIDAY" !in resources {
      return Fail(Forbidden);
    }
    db.holidays := WithoutYear(db.holidays, year);
    db.holidays := db.holidays + NewHolidays(year, days, db.nextId);
    db.nextId := db.nextId + |days|;
    return Pass;
  }

  // ---------------------------------------------------------------------------
  // Listing grouped by year.

  /** One value of the accumulator: a year and its formatted days. */
  datatype YearGroup = YearGroup(year: nat, days: seq<string>)

  /** The formatted days of one year's holidays, in store order. */
  function DaysOfYear(holidays: seq<Holiday>, year: nat): seq<string> {
    if |holidays| == 0 then []
    else
      var init, last := holidays[..|holidays| - 1], holidays[|holidays| - 1];
      DaysOfYear(init, year) + (if last.year == year then [DateToStrBR(last.date)] else [])
  }

  /** The years present among the holidays. */
  function YearsOf(holidays: seq<Holiday>): set<nat> {
    set k | 0 <= k < |holidays| :: holidays[k].year
  }

  function GroupYears(groups: seq<YearGroup>): set<nat> {
    set j | 0 <= j < |groups| :: groups[j].year
  }

  /** The number of days over all groups. */
  function TotalDays(groups: seq<YearGroup>): nat {
    if |groups| == 0 then 0 else TotalDays(groups[..|groups| - 1]) + |groups[|groups| - 1].days|
  }

  predicate YearsAscending(groups: seq<YearGroup>) {
    forall a, b :: 0 <= a < b < |groups| ==> groups[a].year < groups[b].year
  }

  lemma {:induction false} TotalDaysAppend(a: seq<YearGroup>, b: seq<YearGroup>)
    ensures TotalDays(a + b) == TotalDays(a) + TotalDays(b)
    decreases |b|
  {
    if |b| == 0 {
      assert a + b == a;
    } else {
      assert (a + b)[..|a + b| - 1] == a + b[..|b| - 1];
      TotalDaysAppend(a, b[..|b| - 1]);
    }
  }

  /** Replacing one group by `g` changes the total by the difference of their sizes. */
  lemma TotalDaysReplace(groups: seq<YearGroup>, j: int, g: YearGroup)
    requires 0 <= j < |groups|
    ensures TotalDays(groups[j := g]) + |groups[j].days| == TotalDays(groups) + |g.days|
  {
    assert groups == groups[..j] + [groups[j]] + groups[j + 1..];
    assert groups[j := g] == groups[..j] + [g] + groups[j + 1..];
    TotalDaysAppend(groups[..j] + [groups[j]], groups[j + 1..]);
    TotalDaysAppend(groups[..j], [groups[j]]);
    TotalDaysAppend(groups[..j] + [g], groups[j + 1..]);
    TotalDaysAppend(groups[..j], [g]);
    assert [g][..0] == [] && [groups[j]][..0] == [];
  }

  /** The position a new year takes among ascending groups. */
  function InsertPos(groups: seq<YearGroup>, year: nat): (p: nat)
    requires YearsAscending(groups)
    ensures p <= |groups|
    ensures forall j :: 0 <= j < p ==> groups[j].year < year
    ensures forall j :: p <= j < |groups| ==> groups[j].year >= year
  {
    if |groups| == 0 || groups[0].year >= year then 0
    else
      assert YearsAscending(groups[1..]);
      1 + InsertPos(groups[1..], year)
  }

  /** What the listing promises of its groups, for the holidays `hs`. */
  predicate GroupsDescribe(groups: seq<YearGroup>, hs: seq<Holiday>) {
    && YearsAscending(groups)
    && GroupYears(groups) == YearsOf(hs)
    && (forall j :: 0 <= j < |groups| ==> groups[j].days == DaysOfYear(hs, groups[j].year))
    && TotalDays(groups) == |hs|
  }

  /**
   * The `reduce` of both list controllers, followed by `Object.values`: the years are
   * integer-like keys, so the groups come out in ascending year order.
   */
  method GroupByYear(holidays: seq<Holiday>) returns (groups: seq<YearGroup>)
    ensures YearsAscending(groups)
    ensures forall y :: y in GroupYears(groups) <==> exists k :: 0 <= k < |holidays| && holidays[k].year == y
    ensures forall j :: 0 <= j < |groups| ==> groups[j].days == DaysOfYear(holidays, groups[j].year)
    ensures TotalDays(groups) == |holidays|
    ensures forall j :: 0 <= j < |groups| ==> |groups[j].days| > 0
  {
    groups := [];
    var i := 0;
    while i < |holidays|
      invariant 0 <= i <= |holidays|
      invariant GroupsDescribe(groups, holidays[..i])
    {
      var holiday := holidays[i];
      var date := DateToStrBR(holiday.date);
      SliceSnoc(holidays, i);
      groups := AddToGroup(groups, holidays[..i], holiday, date);
      i := i + 1;
    }
    assert holidays[..|holidays|] == holidays;
    GroupsDescribeMeaning(groups, holidays);
    GroupsNonEmpty(groups, holidays);
  }

  /** The description spelled out: ascending years, exactly the years present, their days, every row once. */
  lemma GroupsDescribeMeaning(groups: seq<YearGroup>, hs: seq<Holiday>)
    requires GroupsDescribe(groups, hs)
    ensures YearsAscending(groups)
    ensures forall y :: y in GroupYears(groups) <==> exists k :: 0 <= k < |hs| && hs[k].year == y
    ensures forall j :: 0 <= j < |groups| ==> groups[j].days == DaysOfYear(hs, groups[j].year)
    ensures TotalDays(groups) == |hs|
  {
    forall y ensures y in GroupYears(groups) <==> exists k :: 0 <= k < |hs| && hs[k].year == y {
      assert y in GroupYears(groups) <==> y in YearsOf(hs);
    }
  }

  lemma YearsOfAppend(hs: seq<Holiday>, h: Holiday)
    ensures YearsOf(hs + [h]) == YearsOf(hs) + {h.year}
  {
    var hs' := hs + [h];
    forall y | y in YearsOf(hs') ensures y in YearsOf(hs) + {h.year} {
      var k :| 0 <= k < |hs'| && hs'[k].year == y;
      if k < |hs| { assert hs[k].year == y; }
    }
    forall y | y in YearsOf(hs) ensures y in YearsOf(hs') {
      var k :| 0 <= k < |hs| && hs[k].year == y;
      assert hs'[k].year == y;
    }
    assert hs'[|hs|].year == h.year;
  }

  lemma DaysOfYearAppend(hs: seq<Holiday>, h: Holiday, year: nat)
    ensures DaysOfYear(hs + [h], year) == DaysOfYear(hs, year) + (if h.year == year then [DateToStrBR(h.date)] else [])
  {
    assert (hs + [h])[..|hs|] == hs;
  }

  /** Replacing a group by one of the same year keeps the set of years. */
  lemma GroupYearsUpdate(groups: seq<YearGroup>, j: int, g: YearGroup)
    requires 0 <= j < |groups| && groups[j].year == g.year
    ensures GroupYears(groups[j := g]) == GroupYears(groups)
  {
    var next := groups[j := g];
    forall y | y in GroupYears(groups) ensures y in GroupYears(next) {
      var l :| 0 <= l < |groups| && groups[l].year == y;
      assert next[l].year == y;
    }
    forall y | y in GroupYears(next) ensures y in GroupYears(groups) {
      var l :| 0 <= l < |next| && next[l].year == y;
      assert groups[l].year == y;
    }
  }

  /** Pushing a day onto the group of its year. */
  lemma PushKeepsDescription(groups: seq<YearGroup>, hs: seq<Holiday>, h: Holiday, j: int)
    requires GroupsDescribe(groups, hs) && 0 <= j < |groups| && groups[j].year == h.year
    ensures GroupsDescribe(groups[j := YearGroup(h.year, groups[j].days + [DateToStrBR(h.date)])], hs + [h])
  {
    var g := YearGroup(h.year, groups[j].days + [DateToStrBR(h.date)]);
    var next := groups[j := g];
    TotalDaysReplace(groups, j, g);
    YearsOfAppend(hs, h);
    GroupYearsUpdate(groups, j, g);
    assert h.year in GroupYears(groups);
    forall l | 0 <= l < |next| ensures next[l].days == DaysOfYear(hs + [h], next[l].year) {
      DaysOfYearAppend(hs, h, next[l].year);
      if l != j {
        assert next[l] == groups[l] && groups[l].year != h.year;
      }
    }
    AscendingUpdate(groups, j, g);
  }

  /** Replacing a group by one of the same year keeps the years ascending. */
  lemma AscendingUpdate(groups: seq<YearGroup>, j: int, g: YearGroup)
    requires YearsAscending(groups) && 0 <= j < |groups| && groups[j].year == g.year
    ensures YearsAscending(groups[j := g])
  {
  }

  /** Inserting a one-day group for a year not seen before keeps the years ascending. */
  lemma InsertKeepsAscending(groups: seq<YearGroup>, g: YearGroup)
    requires YearsAscending(groups) && g.year !in GroupYears(groups)
    ensures var p := InsertPos(groups, g.year);
      YearsAscending(groups[..p] + [g] + groups[p..])
  {
    var p := InsertPos(groups, g.year);
    var next := groups[..p] + [g] + groups[p..];
    InsertIndex(groups, p, g);
    forall a, b | 0 <= a < b < |next|
      ensures next[a].year < next[b].year
    {
      if a == p {
        assert groups[b - 1].year in GroupYears(groups);
      }
    }
  }

  /** Where each element lands when `g` is inserted at `p`. */
  lemma InsertIndex(groups: seq<YearGroup>, p: int, g: YearGroup)
    requires 0 <= p <= |groups|
    ensures |groups[..p] + [g] + groups[p..]| == |groups| + 1
    ensures forall k :: 0 <= k < |groups| + 1 ==>
      (groups[..p] + [g] + groups[p..])[k] == if k < p then groups[k] else if k == p then g else groups[k - 1]
  {
  }

  /** Inserting a group adds its days to the total. */
  lemma TotalDaysInsert(groups: seq<YearGroup>, p: int, g: YearGroup)
    requires 0 <= p <= |groups|
    ensures TotalDays(groups[..p] + [g] + groups[p..]) == TotalDays(groups) + |g.days|
  {
    assert groups == groups[..p] + groups[p..];
    TotalDaysAppend(groups[..p] + [g], groups[p..]);
    TotalDaysAppend(groups[..p], [g]);
    TotalDaysAppend(groups[..p], groups[p..]);
    assert [g][..0] == [];
  }

  /** Inserting a group adds its year to the years present. */
  lemma GroupYearsInsert(groups: seq<YearGroup>, p: int, g: YearGroup)
    requires 0 <= p <= |groups|
    ensures GroupYears(groups[..p] + [g] + groups[p..]) == GroupYears(groups) + {g.year}
  {
    var next := groups[..p] + [g] + groups[p..];
    forall y | y in GroupYears(next) ensures y in GroupYears(groups) + {g.year} {
      var l :| 0 <= l < |next| && next[l].year == y;
      if l < p {
        assert groups[l] == next[l];
      } else if l > p {
        assert groups[l - 1] == next[l];
      }
    }
    forall y | y in GroupYears(groups) ensures y in GroupYears(next) {
      var l :| 0 <= l < |groups| && groups[l].year == y;
      if l < p {
        assert next[l] == groups[l];
      } else {
        assert next[l + 1] == groups[l];
      }
    }
    assert next[p] == g;
  }

  /** Opening the group of a year not seen before. */
  lemma OpenKeepsDescription(groups: seq<YearGroup>, hs: seq<Holiday>, h: Holiday)
    requires GroupsDescribe(groups, hs) && h.year !in GroupYears(groups)
    ensures var p := InsertPos(groups, h.year);
      GroupsDescribe(groups[..p] + [YearGroup(h.year, [DateToStrBR(h.date)])] + groups[p..], hs + [h])
  {
    var p := InsertPos(groups, h.year);
    var g := YearGroup(h.year, [DateToStrBR(h.date)]);
    var next := groups[..p] + [g] + groups[p..];
    InsertKeepsAscending(groups, g);
    YearsOfAppend(hs, h);
    NoDaysWithoutYear(hs, h.year);
    TotalDaysInsert(groups, p, g);
    GroupYearsInsert(groups, p, g);
    forall l | 0 <= l < |next| ensures next[l].days == DaysOfYear(hs + [h], next[l].year) {
      DaysOfYearAppend(hs, h, next[l].year);
      if l < p {
        assert next[l] == groups[l];
      } else if l > p {
        assert next[l] == groups[l - 1];
      }
    }
  }

  /** Extending a prefix by one element. */
  lemma SliceSnoc<T>(s: seq<T>, i: int)
    requires 0 <= i < |s|
    ensures s[..i + 1] == s[..i] + [s[i]]
  {
  }

  /** `acc[year]`: the position of the year's entry, or `|groups|` when it has none. */
  method FindYear(groups: seq<YearGroup>, year: nat) returns (j: int)
    ensures 0 <= j <= |groups|
    ensures j < |groups| ==> groups[j].year == year
    ensures forall l :: 0 <= l < j ==> groups[l].year != year
  {
    j := 0;
    while j < |groups| && groups[j].year != year
      invariant 0 <= j <= |groups|
      invariant forall l :: 0 <= l < j ==> groups[l].year != year
    {
      j := j + 1;
    }
  }

  /** One step of the `reduce`: create the year's entry if missing, then push the day. */
  method AddToGroup(groups: seq<YearGroup>, hs: seq<Holiday>, holiday: Holiday, date: string)
    returns (next: seq<YearGroup>)
    requires GroupsDescribe(groups, hs) && date == DateToStrBR(holiday.date)
    ensures GroupsDescribe(next, hs + [holiday])
  {
    var year := holiday.year;
    var j := FindYear(groups, year);
    if j < |groups| {
      PushKeepsDescription(groups, hs, holiday, j);
      next := groups[j := YearGroup(year, groups[j].days + [date])];
    } else {
      OpenKeepsDescription(groups, hs, holiday);
      var p := InsertPos(groups, year);
      next := groups[..p] + [YearGroup(year, [date])] + groups[p..];
    }
  }

  lemma {:induction false} NoDaysWithoutYear(hs: seq<Holiday>, year: nat)
    requires year !in YearsOf(hs)
    ensures DaysOfYear(hs, year) == []
  {
    if |hs| > 0 {
      var init := hs[..|hs| - 1];
      assert YearsOf(init) <= YearsOf(hs) by {
        forall y | y in YearsOf(init) ensures y in YearsOf(hs) {
          var k :| 0 <= k < |init| && init[k].year == y;
          assert hs[k].year == y;
        }
      }
      NoDaysWithoutYear(init, year);
      assert hs[|hs| - 1].year in YearsOf(hs);
    }
  }

  /** A year that occurs has at least one day. */
  lemma {:induction false} DaysOfYearPresent(hs: seq<Holiday>, year: nat)
    requires year in YearsOf(hs)
    ensures |DaysOfYear(hs, year)| > 0
  {
    var init, last := hs[..|hs| - 1], hs[|hs| - 1];
    if last.year != year {
      var k :| 0 <= k < |hs| && hs[k].year == year;
      assert init[k].year == year;
      DaysOfYearPresent(init, year);
    }
  }

  /** No group of a description is empty. */
  lemma GroupsNonEmpty(groups: seq<YearGroup>, hs: seq<Holiday>)
    requires GroupsDescribe(groups, hs)
    ensures forall j :: 0 <= j < |groups| ==> |groups[j].days| > 0
  {
    forall j | 0 <= j < |groups| ensures |groups[j].days| > 0 {
      assert groups[j].year in GroupYears(groups);
      DaysOfYearPresent(hs, groups[j].year);
    }
  }

  /** `handle` of the guarded list controller. */
  method ListHolidays(db: Database, resources: Resources) returns (r: Result<seq<YearGroup>, Failure>)
    ensures "GET_HOLIDAY" !in resources ==> r == Failure(Forbidden)
    ensures "GET_HOLIDAY" in resources ==> r.Success? && GroupsDescribe(r.value, db.holidays)
    ensures "GET_HOLIDAY" in resources ==> forall j :: 0 <= j < |r.value| ==> |r.value[j].days| > 0
  {
    if "GET_HOLIDAY" !in resources {
      return Failure(Forbidden);
    }
    var groups := GroupByYear(db.holidays);
    assert GroupYears(groups) == YearsOf(db.holidays);
    GroupsNonEmpty(groups, db.holidays);
    return Success(groups);
  }
}

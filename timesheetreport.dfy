/**
 * `GET timesheet/:year/:month` and `GET user/:id/report/:year/:month`: every release of
 * one user, grouped by date in order of first appearance, each day projected from its
 * first release, next to the month's payment fields when a payment exists.
 */
module TimesheetReport {
  import opened Wrappers
  import opened JsNumber
  import opened Calendar
  import opened Store

  /** One entry of a day's `period` list. */
  datatype PeriodView = PeriodView(start: TimeText, end: TimeText, description: string)

  /** One accumulator entry of the `reduce`. */
  datatype DayGroup = DayGroup(date: Date, periods: seq<PeriodView>)

  /** One element of `days`. */
  datatype DayEntry = DayEntry(date: Date, businessDay: bool, period: seq<PeriodView>, total: Num)

  /** The response; `total`/`balance` are `None` where the source answers `''`. */
  datatype Report = Report(closed: string, month: int, year: int, total: Option<Num>, balance: Option<Num>,
                           days: seq<DayEntry>)

  function View(r: Release): PeriodView {
    PeriodView(r.startHour, r.endHour, r.description)
  }

  /**
   * `release.findMany({ where: { id_user } })` followed by the `filter`, whose callback
   * returns an object and so keeps every row.
   */
  function UserReleases(releases: seq<Release>, user: UserId): (r: seq<Release>)
    ensures forall k :: 0 <= k < |r| ==> r[k] in releases && r[k].user == user
    ensures forall k :: 0 <= k < |releases| && releases[k].user == user ==> releases[k] in r
  {
    if |releases| == 0 then []
    else
      var init, last := releases[..|releases| - 1], releases[|releases| - 1];
      assert forall k :: 0 <= k < |init| ==> init[k] == releases[k];
      UserReleases(init, user) + (if last.user == user then [last] else [])
  }

  /** The dates of `rels` in order of first appearance: the keys of the accumulator. */
  function DistinctDates(rels: seq<Release>): seq<Date> {
    if |rels| == 0 then []
    else
      var init, last := rels[..|rels| - 1], rels[|rels| - 1];
      DistinctDates(init) + (if last.date in DistinctDates(init) then [] else [last.date])
  }

  /** The views of the releases on `d`, in store order. */
  function PeriodsOn(rels: seq<Release>, d: Date): seq<PeriodView> {
    if |rels| == 0 then []
    else
      var init, last := rels[..|rels| - 1], rels[|rels| - 1];
      PeriodsOn(init, d) + (if last.date == d then [View(last)] else [])
  }

  /** The keys are distinct and are exactly the dates that occur. */
  lemma {:induction false} DistinctDatesMeaning(rels: seq<Release>)
    ensures forall a, b :: 0 <= a < b < |DistinctDates(rels)| ==> DistinctDates(rels)[a] != DistinctDates(rels)[b]
    ensures forall d :: d in DistinctDates(rels) <==> exists k :: 0 <= k < |rels| && rels[k].date == d
  {
    if |rels| > 0 {
      var init := rels[..|rels| - 1];
      DistinctDatesMeaning(init);
      assert forall k :: 0 <= k < |init| ==> init[k] == rels[k];
    }
  }

  /** A date with no release has no periods. */
  lemma {:induction false} PeriodsOnAbsent(rels: seq<Release>, d: Date)
    requires d !in DistinctDates(rels)
    ensures PeriodsOn(rels, d) == []
  {
    if |rels| > 0 {
      var init := rels[..|rels| - 1];
      assert d !in DistinctDates(init);
      PeriodsOnAbsent(init, d);
    }
  }

  /** The number of periods over all groups. */
  function TotalPeriods(groups: seq<DayGroup>): nat {
    if |groups| == 0 then 0 else TotalPeriods(groups[..|groups| - 1]) + |groups[|groups| - 1].periods|
  }

  lemma {:induction false} TotalPeriodsAppend(a: seq<DayGroup>, b: seq<DayGroup>)
    ensures TotalPeriods(a + b) == TotalPeriods(a) + TotalPeriods(b)
    decreases |b|
  {
    if |b| == 0 {
      assert a + b == a;
    } else {
      assert (a + b)[..|a + b| - 1] == a + b[..|b| - 1];
      TotalPeriodsAppend(a, b[..|b| - 1]);
    }
  }

  lemma TotalPeriodsReplace(groups: seq<DayGroup>, j: int, g: DayGroup)
    requires 0 <= j < |groups|
    ensures TotalPeriods(groups[j := g]) + |groups[j].periods| == TotalPeriods(groups) + |g.periods|
  {
    assert groups == groups[..j] + [groups[j]] + groups[j + 1..];
    assert groups[j := g] == groups[..j] + [g] + groups[j + 1..];
    TotalPeriodsAppend(groups[..j] + [groups[j]], groups[j + 1..]);
    TotalPeriodsAppend(groups[..j], [groups[j]]);
    TotalPeriodsAppend(groups[..j] + [g], groups[j + 1..]);
    TotalPeriodsAppend(groups[..j], [g]);
    assert [g][..0] == [] && [groups[j]][..0] == [];
  }

  /** What the accumulator holds after the releases `rels`. */
  predicate GroupsDescribe(groups: seq<DayGroup>, rels: seq<Release>) {
    && |groups| == |DistinctDates(rels)|
    && (forall j :: 0 <= j < |groups| ==>
          groups[j].date == DistinctDates(rels)[j] && groups[j].periods == PeriodsOn(rels, groups[j].date))
    && TotalPeriods(groups) == |rels|
  }

  /** Pushing a release onto the group of its date. */
  lemma PushKeepsDescription(groups: seq<DayGroup>, rels: seq<Release>, r: Release, j: int)
    requires GroupsDescribe(groups, rels) && 0 <= j < |groups| && groups[j].date == r.date
    ensures GroupsDescribe(groups[j := DayGroup(r.date, groups[j].periods + [View(r)])], rels + [r])
  {
    var all := rels + [r];
    assert all[..|all| - 1] == rels;
    assert r.date in DistinctDates(rels);
    assert DistinctDates(all) == DistinctDates(rels);
    DistinctDatesMeaning(rels);
    var ng := groups[j := DayGroup(r.date, groups[j].periods + [View(r)])];
    forall l | 0 <= l < |ng| ensures ng[l].date == DistinctDates(all)[l] && ng[l].periods == PeriodsOn(all, ng[l].date) {
      assert PeriodsOn(all, ng[l].date) == PeriodsOn(rels, ng[l].date) + (if r.date == ng[l].date then [View(r)] else []);
      if l != j {
        assert groups[l].date != r.date;
      }
    }
    TotalPeriodsReplace(groups, j, DayGroup(r.date, groups[j].periods + [View(r)]));
  }

  /** Opening the group of a date not seen before. */
  lemma OpenKeepsDescription(groups: seq<DayGroup>, rels: seq<Release>, r: Release)
    requires GroupsDescribe(groups, rels) && forall j :: 0 <= j < |groups| ==> groups[j].date != r.date
    ensures GroupsDescribe(groups + [DayGroup(r.date, [View(r)])], rels + [r])
  {
    var all := rels + [r];
    assert all[..|all| - 1] == rels;
    assert forall j :: 0 <= j < |DistinctDates(rels)| ==> DistinctDates(rels)[j] != r.date;
    PeriodsOnAbsent(rels, r.date);
    TotalPeriodsAppend(groups, [DayGroup(r.date, [View(r)])]);
    assert [DayGroup(r.date, [View(r)])][..0] == [];
  }

  /** The `reduce` that groups the periods by date. */
  method GroupByDate(rels: seq<Release>) returns (groups: seq<DayGroup>)
    ensures GroupsDescribe(groups, rels)
  {
    groups := [];
    var i := 0;
    while i < |rels|
      invariant 0 <= i <= |rels|
      invariant GroupsDescribe(groups, rels[..i])
    {
      assert rels[..i + 1] == rels[..i] + [rels[i]];
      var period := rels[i];
      var j := 0;
      while j < |groups| && groups[j].date != period.date
        invariant 0 <= j <= |groups|
        invariant forall l :: 0 <= l < j ==> groups[l].date != period.date
      {
        j := j + 1;
      }
      if j < |groups| {
        PushKeepsDescription(groups, rels[..i], period, j);
        groups := groups[j := DayGroup(period.date, groups[j].periods + [View(period)])];
      } else {
        OpenKeepsDescription(groups, rels[..i], period);
        groups := groups + [DayGroup(period.date, [View(period)])];
      }
      i := i + 1;
    }
    assert rels[..|rels|] == rels;
  }

  /** `filteredPeriods.find(...)`: the first release on `d`. */
  function FirstOn(rels: seq<Release>, d: Date): (r: Option<Release>)
    ensures r.Some? ==> r.value in rels && r.value.date == d
    ensures r.None? <==> forall k :: 0 <= k < |rels| ==> rels[k].date != d
    ensures r.Some? ==> exists k :: 0 <= k < |rels| && rels[k] == r.value &&
                                    forall l :: 0 <= l < k ==> rels[l].date != d
  {
    if |rels| == 0 then None
    else if rels[0].date == d then Some(rels[0])
    else
      assert forall k :: 1 <= k < |rels| ==> rels[1..][k - 1] == rels[k];
      var r := FirstOn(rels[1..], d);
      assert r.Some? ==> exists k :: 1 <= k < |rels| && rels[k] == r.value &&
                                     forall l :: 0 <= l < k ==> rels[l].date != d by {
        if r.Some? {
          var k :| 0 <= k < |rels[1..]| && rels[1..][k] == r.value &&
                   forall l :: 0 <= l < k ==> rels[1..][l].date != d;
          assert forall l :: 1 <= l < k + 1 ==> rels[l] == rels[1..][l - 1];
          assert rels[k + 1] == r.value && forall l :: 0 <= l < k + 1 ==> rels[l].date != d;
        }
      }
      r
  }

  /** `payment.findFirst({ where: { id_user, year, month } })`. */
  function FindPayment(payments: seq<Payment>, user: UserId, year: int, month: int): (r: Option<Payment>)
    ensures r.Some? ==> r.value in payments && r.value.user == user && r.value.year == year && r.value.month == month
    ensures r.None? <==> forall k :: 0 <= k < |payments| ==>
      !(payments[k].user == user && payments[k].year == year && payments[k].month == month)
  {
    if |payments| == 0 then None
    else if payments[0].user == user && payments[0].year == year && payments[0].month == month then Some(payments[0])
    else
      assert forall k :: 1 <= k < |payments| ==> payments[1..][k - 1] == payments[k];
      FindPayment(payments[1..], user, year, month)
  }

  /** The `Object.keys(groupedPeriods).map(...)` projection of one group. */
  method DayOf(rels: seq<Release>, group: DayGroup) returns (e: DayEntry)
    requires exists k :: 0 <= k < |rels| && rels[k].date == group.date
    ensures DayMatches(e, rels, group)
  {
    var dayPeriod := FirstOn(rels, group.date);
    e := DayEntry(group.date, !dayPeriod.value.holiday, group.periods, dayPeriod.value.total);
  }

  /** `e` is the projection of `group`: its date and periods, and the first release's flag and total. */
  predicate DayMatches(e: DayEntry, rels: seq<Release>, group: DayGroup) {
    && e.date == group.date && e.period == group.periods
    && FirstOn(rels, group.date).Some?
    && e.businessDay == !FirstOn(rels, group.date).value.holiday
    && e.total == FirstOn(rels, group.date).value.total
  }

  /** `Object.keys(groupedPeriods).map(...)`: one entry per group, in group order. */
  method DaysOf(rels: seq<Release>, groups: seq<DayGroup>) returns (days: seq<DayEntry>)
    requires forall l :: 0 <= l < |groups| ==> exists k :: 0 <= k < |rels| && rels[k].date == groups[l].date
    ensures |days| == |groups|
    ensures forall l :: 0 <= l < |groups| ==> DayMatches(days[l], rels, groups[l])
  {
    days := [];
    var j := 0;
    while j < |groups|
      invariant 0 <= j <= |groups|
      invariant |days| == j
      invariant forall l :: 0 <= l < j ==> DayMatches(days[l], rels, groups[l])
    {
      var e := DayOf(rels, groups[j]);
      days := days + [e];
      j := j + 1;
    }
  }

  /** The response both endpoints give for `user`'s releases and `(year, month)`. */
  predicate ReportDescribes(r: Report, releases: seq<Release>, payments: seq<Payment>, user: UserId,
                            year: int, month: int) {
    var rels := UserReleases(releases, user);
    var pay := FindPayment(payments, user, year, month);
    && r.closed == ""
    && r.month == (if pay.Some? then pay.value.month else month)
    && r.year == (if pay.Some? then pay.value.year else year)
    && r.total == (if pay.Some? then Some(pay.value.totalHours) else None)
    && r.balance == (if pay.Some? then Some(pay.value.totalValue) else None)
    && (|rels| == 0 ==> r.days == [])
    && |r.days| == |DistinctDates(rels)|
    && forall j :: 0 <= j < |r.days| ==>
         && r.days[j].date == DistinctDates(rels)[j]
         && r.days[j].period == PeriodsOn(rels, r.days[j].date)
         && FirstOn(rels, r.days[j].date).Some?
         && r.days[j].businessDay == !FirstOn(rels, r.days[j].date).value.holiday
         && r.days[j].total == FirstOn(rels, r.days[j].date).value.total
  }

  /** The shared body of both endpoints, for the releases of `user`. */
  method ReportFor(db: Database, user: UserId, year: int, month: int) returns (r: Report)
    ensures ReportDescribes(r, db.releases, db.payments, user, year, month)
  {
    var periodsResponse := UserReleases(db.releases, user);
    var paymentResponse := FindPayment(db.payments, user, year, month);
    var m := if paymentResponse.Some? then paymentResponse.value.month else month;
    var y := if paymentResponse.Some? then paymentResponse.value.year else year;
    var total := if paymentResponse.Some? then Some(paymentResponse.value.totalHours) else None;
    var balance := if paymentResponse.Some? then Some(paymentResponse.value.totalValue) else None;
    if |periodsResponse| == 0 {
      return Report("", m, y, total, balance, []);
    }
    var groups := GroupByDate(periodsResponse);
    DistinctDatesMeaning(periodsResponse);
    forall l | 0 <= l < |groups| ensures exists k :: 0 <= k < |periodsResponse| && periodsResponse[k].date == groups[l].date {
      assert groups[l].date in DistinctDates(periodsResponse);
    }
    var days := DaysOf(periodsResponse, groups);
    return Report("", m, y, total, balance, days);
  }

  /** The grouping determined by `rels`: one group per distinct date, in first-appearance order. */
  function CanonicalGroups(rels: seq<Release>): (g: seq<DayGroup>)
    ensures |g| == |DistinctDates(rels)|
  {
    seq(|DistinctDates(rels)|, j requires 0 <= j < |DistinctDates(rels)| =>
      DayGroup(DistinctDates(rels)[j], PeriodsOn(rels, DistinctDates(rels)[j])))
  }

  /** Any accumulator that describes `rels` is the canonical grouping. */
  lemma GroupsDescribeUnique(groups: seq<DayGroup>, rels: seq<Release>)
    requires GroupsDescribe(groups, rels)
    ensures groups == CanonicalGroups(rels)
  {
  }

  /** The canonical grouping counts every release once. */
  lemma {:induction false} CanonicalGroupsDescribe(rels: seq<Release>)
    ensures GroupsDescribe(CanonicalGroups(rels), rels)
  {
    if |rels| == 0 {
      return;
    }
    var init, last := rels[..|rels| - 1], rels[|rels| - 1];
    assert rels == init + [last];
    CanonicalGroupsDescribe(init);
    var g := CanonicalGroups(init);
    if last.date in DistinctDates(init) {
      var j :| 0 <= j < |DistinctDates(init)| && DistinctDates(init)[j] == last.date;
      PushKeepsDescription(g, init, last, j);
      GroupsDescribeUnique(g[j := DayGroup(last.date, g[j].periods + [View(last)])], rels);
    } else {
      OpenKeepsDescription(g, init, last);
      GroupsDescribeUnique(g + [DayGroup(last.date, [View(last)])], rels);
    }
  }

  /** The days without their per-day fields. */
  function Grouping(days: seq<DayEntry>): (g: seq<DayGroup>)
    ensures |g| == |days|
  {
    seq(|days|, j requires 0 <= j < |days| => DayGroup(days[j].date, days[j].period))
  }

  /** Over all days the report lists every release of the user exactly once, and no day is empty. */
  lemma ReportCountsEveryRelease(r: Report, releases: seq<Release>, payments: seq<Payment>, user: UserId,
                                 year: int, month: int)
    requires ReportDescribes(r, releases, payments, user, year, month)
    ensures TotalPeriods(Grouping(r.days)) == |UserReleases(releases, user)|
    ensures forall j :: 0 <= j < |r.days| ==> |r.days[j].period| > 0
  {
    var rels := UserReleases(releases, user);
    assert Grouping(r.days) == CanonicalGroups(rels);
    CanonicalGroupsDescribe(rels);
    DistinctDatesMeaning(rels);
    forall j | 0 <= j < |r.days| ensures |r.days[j].period| > 0 {
      var d := r.days[j].date;
      assert d in DistinctDates(rels);
      var k :| 0 <= k < |rels| && rels[k].date == d;
      PeriodsOnPresent(rels, d, k);
    }
  }

  lemma {:induction false} PeriodsOnPresent(rels: seq<Release>, d: Date, k: int)
    requires 0 <= k < |rels| && rels[k].date == d
    ensures |PeriodsOn(rels, d)| > 0
  {
    if k < |rels| - 1 {
      assert rels[..|rels| - 1][k] == rels[k];
      PeriodsOnPresent(rels[..|rels| - 1], d, k);
    }
  }

  /** `getTimesheet` of the timesheet controller: the caller's own releases. */
  method ListTimesheet(db: Database, resources: Resources, caller: UserId, year: int, month: int)
    returns (r: Result<Report, Failure>)
    ensures "GET_TIMESHEET" !in resources ==> r == Failure(Forbidden)
    ensures "GET_TIMESHEET" in resources ==>
      r.Success? && ReportDescribes(r.value, db.releases, db.payments, caller, year, month)
  {
    if "GET_TIMESHEET" !in resources {
      return Failure(Forbidden);
    }
    var report := ReportFor(db, caller, year, month);
    return Success(report);
  }

  /** `getTimesheet` of the report controller: the releases of the path `id`. */
  method GetUserReport(db: Database, resources: Resources, id: UserId, year: int, month: int)
    returns (r: Result<Report, Failure>)
    ensures "GET_USER" !in resources ==> r == Failure(Forbidden)
    ensures "GET_USER" in resources ==>
      r.Success? && ReportDescribes(r.value, db.releases, db.payments, id, year, month)
  {
    if "GET_USER" !in resources {
      return Failure(Forbidden);
    }
    var report := ReportFor(db, id, year, month);
    return Success(report);
  }
}

/**
 * `PATCH user/:id/report/:year/:month/closed`: refuse a second closure of the same month,
 * sum the user's hours for that month, price them at the user's hourly rate and store one
 * payment snapshot together with the user's bank-hours balance.
 */
module MonthlyClosure {
  import opened Wrappers
  import opened JsNumber
  import opened Calendar
  import opened Store

  /** What `handle` returns; an absent user leaves its fields `undefined` (`None`). */
  datatype Receipt = Receipt(
    name: Option<string>, team: Option<string>, bankHours: Option<bool>,
    year: int, month: int, payDate: int, payHour: Option<int>, payTotal: Num)

  /** `payment.findFirst({ where: { id_user, month, year } })` finds a row. */
  predicate PaymentExistsFor(payments: seq<Payment>, user: UserId, year: int, month: int) {
    exists k :: 0 <= k < |payments| && payments[k].user == user && payments[k].year == year &&
                payments[k].month == month
  }

  /** The filter callback: the release's date lies in `(year, month)`. */
  predicate InMonth(r: Release, year: int, month: int) {
    r.date.year == year && r.date.month == month
  }

  /** `release.findMany({ where: { id_user } })` followed by the month filter, in store order. */
  function MonthReleases(releases: seq<Release>, user: UserId, year: int, month: int): (r: seq<Release>)
    ensures forall k :: 0 <= k < |r| ==> r[k] in releases && r[k].user == user && InMonth(r[k], year, month)
    ensures forall k :: 0 <= k < |releases| && releases[k].user == user && InMonth(releases[k], year, month) ==>
      releases[k] in r
  {
    if |releases| == 0 then []
    else
      var init, last := releases[..|releases| - 1], releases[|releases| - 1];
      assert forall k :: 0 <= k < |init| ==> init[k] == releases[k];
      MonthReleases(init, user, year, month) +
        (if last.user == user && InMonth(last, year, month) then [last] else [])
  }

  /** `reduce((sum, period) => sum + Number(period.total), 0)`. */
  function SumTotals(releases: seq<Release>): Num {
    if |releases| == 0 then Finite(0)
    else Add(SumTotals(releases[..|releases| - 1]), releases[|releases| - 1].total)
  }

  /** `totalHours` of `handle`. */
  function MonthTotal(releases: seq<Release>, user: UserId, year: int, month: int): Num {
    SumTotals(MonthReleases(releases, user, year, month))
  }

  /** Summing is additive over concatenation. */
  lemma {:induction false} SumTotalsAppend(a: seq<Release>, b: seq<Release>)
    ensures SumTotals(a + b) == Add(SumTotals(a), SumTotals(b))
    decreases |b|
  {
    if |b| == 0 {
      assert a + b == a;
    } else {
      assert (a + b)[..|a + b| - 1] == a + b[..|b| - 1];
      SumTotalsAppend(a, b[..|b| - 1]);
    }
  }

  /** The sum is a number exactly when every summed total is one, and then it adds them up. */
  lemma {:induction false} SumTotalsFinite(rs: seq<Release>)
    ensures SumTotals(rs).Finite? <==> forall k :: 0 <= k < |rs| ==> rs[k].total.Finite?
  {
    if |rs| > 0 {
      SumTotalsFinite(rs[..|rs| - 1]);
      assert forall k :: 0 <= k < |rs| - 1 ==> rs[..|rs| - 1][k] == rs[k];
    }
  }

  /** Storing a release of another user or another month leaves the month's total alone. */
  lemma MonthTotalIgnoresOthers(releases: seq<Release>, r: Release, user: UserId, year: int, month: int)
    requires r.user != user || !InMonth(r, year, month)
    ensures MonthTotal(releases + [r], user, year, month) == MonthTotal(releases, user, year, month)
  {
    assert (releases + [r])[..|releases|] == releases;
    assert MonthReleases(releases + [r], user, year, month) == MonthReleases(releases, user, year, month);
  }

  /** Storing a release of that user and month adds its total. */
  lemma MonthTotalCountsOwn(releases: seq<Release>, r: Release, user: UserId, year: int, month: int)
    requires r.user == user && InMonth(r, year, month)
    ensures MonthTotal(releases + [r], user, year, month) == Add(MonthTotal(releases, user, year, month), r.total)
  {
    assert (releases + [r])[..|releases|] == releases;
    SumTotalsAppend(MonthReleases(releases, user, year, month), [r]);
    assert [r][..0] == [];
  }

  /** Releases with equal totals sum to that total times their number. */
  lemma {:induction false} SumTotalsUniform(rs: seq<Release>, hours: int)
    requires forall k :: 0 <= k < |rs| ==> rs[k].total == Finite(hours)
    ensures SumTotals(rs) == Finite(hours * |rs|)
  {
    if |rs| > 0 {
      SumTotalsUniform(rs[..|rs| - 1], hours);
    }
  }

  /** `user?.hourValue || 0`: the rate the value is computed with. */
  function HourRate(users: map<UserId, User>, id: UserId): int {
    if id in users then users[id].hourValue else 0
  }

  /** `Number(user?.hourValue)`: `NaN` for a missing user. */
  function HourValue(users: map<UserId, User>, id: UserId): (v: Num)
    ensures v.Finite? <==> id in users
  {
    if id in users then Finite(users[id].hourValue) else NaN
  }

  /** `bankHour.findUnique({ where: { id_user } })` and `Number(userBankHour?.hour)`. */
  function CurrentTimeBank(rows: seq<BankHour>, user: UserId): (v: Num)
    ensures v.Finite? <==> exists k :: 0 <= k < |rows| && rows[k].user == user
    ensures forall k :: 0 <= k < |rows| && rows[k].user == user && BankRowsUnique(rows) ==> v == Finite(rows[k].hour)
  {
    if |rows| == 0 then NaN
    else if rows[0].user == user then Finite(rows[0].hour)
    else
      assert forall k :: 1 <= k < |rows| ==> rows[1..][k - 1] == rows[k];
      CurrentTimeBank(rows[1..], user)
  }

  /** The snapshot `payment.create` stores. */
  function Snapshot(db: Database, id: Id, user: UserId, year: int, month: int, now: int): Payment
    reads db
  {
    var total := MonthTotal(db.releases, user, year, month);
    Payment(id, user, year, month, total, Mul(total, Finite(HourRate(db.users, user))),
            HourValue(db.users, user), now, CurrentTimeBank(db.bankHours, user))
  }

  /** Adding a payment for a new key keeps one payment per (user, year, month). */
  lemma AppendPaymentKeepsKeysUnique(payments: seq<Payment>, p: Payment)
    requires PaymentKeysUnique(payments) && !PaymentExistsFor(payments, p.user, p.year, p.month)
    ensures PaymentKeysUnique(payments + [p])
    ensures PaymentExistsFor(payments + [p], p.user, p.year, p.month)
  {
    assert (payments + [p])[|payments|] == p;
  }

  /** `handle`; `now` is the instant `new Date()` reads. */
  method CloseUserReport(db: Database, resources: Resources, id: UserId, year: int, month: int, now: int)
    returns (r: Result<Receipt, Failure>)
    requires db.Valid()
    modifies db
    ensures db.Valid()
    ensures db.releases == old(db.releases) && db.holidays == old(db.holidays)
    ensures db.bankHours == old(db.bankHours) && db.users == old(db.users)
    ensures "PATCH_USER" !in resources ==>
      r == Failure(Forbidden) && db.payments == old(db.payments) && db.nextId == old(db.nextId)
    ensures "PATCH_USER" in resources && PaymentExistsFor(old(db.payments), id, year, month) ==>
      r == Failure(PaymentExists) && db.payments == old(db.payments) && db.nextId == old(db.nextId)
    ensures "PATCH_USER" in resources && !PaymentExistsFor(old(db.payments), id, year, month) ==>
      var p := Payment(old(db.nextId), id, year, month, MonthTotal(old(db.releases), id, year, month),
                       Mul(MonthTotal(old(db.releases), id, year, month), Finite(HourRate(old(db.users), id))),
                       HourValue(old(db.users), id), now, CurrentTimeBank(old(db.bankHours), id));
      && db.payments == old(db.payments) + [p]
      && db.nextId == old(db.nextId) + 1
      && PaymentExistsFor(db.payments, id, year, month)
      && r.Success? && r.value.payTotal == p.totalValue
      && r.value.year == year && r.value.month == month && r.value.payDate == now
      && (id in old(db.users) ==>
            r.value.name == Some(old(db.users)[id].name) && r.value.team == Some(old(db.users)[id].team) &&
            r.value.bankHours == Some(old(db.users)[id].hasBankHours) &&
            r.value.payHour == Some(old(db.users)[id].hourValue))
      && (id !in old(db.users) ==>
            r.value.name == None && r.value.team == None && r.value.bankHours == None && r.value.payHour == None)
  {
    if "PATCH_USER" !in resources {
      return Failure(Forbidden);
    }
    if PaymentExistsFor(db.payments, id, year, month) {
      return Failure(PaymentExists);
    }
    var user: Option<User> := if id in db.users then Some(db.users[id]) else None;
    var payment := Snapshot(db, db.nextId, id, year, month, now);
    AppendPaymentKeepsKeysUnique(db.payments, payment);
    db.payments := db.payments + [payment];
    db.nextId := db.nextId + 1;
    r := Success(Receipt(
      if user.Some? then Some(user.value.name) else None,
      if user.Some? then Some(user.value.team) else None,
      if user.Some? then Some(user.value.hasBankHours) else None,
      year, month, now,
      if user.Some? then Some(user.value.hourValue) else None,
      payment.totalValue));
  }

  /** Closing the same month twice: the second call is refused and the first snapshot stays. */
  method CloseTwice(db: Database, resources: Resources, id: UserId, year: int, month: int, now: int, later: int)
    returns (first: Result<Receipt, Failure>, second: Result<Receipt, Failure>)
    requires db.Valid() && "PATCH_USER" in resources
    modifies db
    ensures second == Failure(PaymentExists)
    ensures db.releases == old(db.releases) && db.holidays == old(db.holidays)
    ensures db.bankHours == old(db.bankHours) && db.users == old(db.users)
    ensures first.Failure? ==> first == Failure(PaymentExists) && db.payments == old(db.payments)
    ensures first.Success? ==>
      db.payments == old(db.payments) + [Payment(old(db.nextId), id, year, month,
        MonthTotal(old(db.releases), id, year, month),
        Mul(MonthTotal(old(db.releases), id, year, month), Finite(HourRate(old(db.users), id))),
        HourValue(old(db.users), id), now, CurrentTimeBank(old(db.bankHours), id))]
  {
    first := CloseUserReport(db, resources, id, year, month, now);
    second := CloseUserReport(db, resources, id, year, month, later);
  }

  /**
   * Twenty working days of eight hours in May 2024 at a rate of 50 give 160 hours and a
   * value of 8000, whatever other months hold.
   */
  lemma MayClosureScenario(rs: seq<Release>, user: UserId)
    requires |MonthReleases(rs, user, 2024, 5)| == 20
    requires forall r :: r in rs && r.user == user && InMonth(r, 2024, 5) ==> r.total == Finite(8)
    ensures MonthTotal(rs, user, 2024, 5) == Finite(160)
    ensures Mul(MonthTotal(rs, user, 2024, 5), Finite(50)) == Finite(8000)
  {
    SumTotalsUniform(MonthReleases(rs, user, 2024, 5), 8);
  }
}

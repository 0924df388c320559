/**
 * The relational store the controllers read and write through Prisma: one table per
 * entity, kept in store order, and a counter that hands out fresh row identifiers
 * (it stands in for `uuidv4()`, whose only relevant property is that each identifier
 * is new).
 */
module Store {
  import opened JsNumber
  import opened Calendar

  type Id = nat
  type UserId = string

  /** The JWT's resource list, as a set of permission names. */
  type Resources = set<string>

  /**
   * The text kept in a release's `start_hour`/`end_hour` column: the `"HH:MM"` text the
   * client sent, or the ISO-8601 rendering (`toISOString()`) of an instant.
   */
  datatype TimeText = Raw(text: string) | Iso(instant: int)

  /** A work period ("release"). `total` is stored as `String(hours)`. */
  datatype Release = Release(
    id: Id, user: UserId, date: Date, holiday: bool, total: Num,
    startHour: TimeText, endHour: TimeText, description: string)

  datatype Holiday = Holiday(id: Id, year: nat, date: Date)

  /** A monthly closure snapshot. */
  datatype Payment = Payment(
    id: Id, user: UserId, year: int, month: int, totalHours: Num, totalValue: Num,
    hourValue: Num, paymentDate: int, currentTimeBank: Num)

  /** A user's compensatory-hours balance and the date and text of its last adjustment. */
  datatype BankHour = BankHour(id: Id, user: UserId, date: Date, hour: int, description: string)

  /** The user columns the engine reads; `hourValue` is in hundredths of the currency unit. */
  datatype User = User(id: UserId, name: string, team: string, hasBankHours: bool, hourValue: int)

  /** The exceptions the controllers throw, one per distinct message. */
  datatype Failure =
    | Forbidden            // ForbiddenException('Access denied')
    | InvertedPeriod       // BadRequestException('The period values are inverted')
    | OverlappingPeriods   // BadRequestException('Overlapping values are not allowed')
    | TimeOutOfRange       // Error('Period values cannot exceed 00:00 and 23:59')
    | MonthClosed          // BadRequestException('Month is closed')
    | InvalidTimeRange     // BadRequestException('Invalid time range')
    | EndNotAfterStart     // BadRequestException('End time must be greater than start time')
    | RangesOverlap        // BadRequestException('Time ranges cannot overlap')
    | InvalidDate          // RangeError('Invalid time value') from toISOString
    | PaymentExists        // ConflictException('User payments already exists.')
    | HolidayExists        // BadRequestException('Holiday already exists ...')

  /** Release identifiers are unique and were all handed out by the counter. */
  ghost predicate ReleaseIdsFresh(releases: seq<Release>, nextId: nat) {
    && (forall i :: 0 <= i < |releases| ==> releases[i].id < nextId)
    && (forall i, j :: 0 <= i < j < |releases| ==> releases[i].id != releases[j].id)
  }

  /** At most one payment per (user, year, month). */
  ghost predicate PaymentKeysUnique(payments: seq<Payment>) {
    forall i, j :: 0 <= i < j < |payments| ==>
      !(payments[i].user == payments[j].user && payments[i].year == payments[j].year &&
        payments[i].month == payments[j].month)
  }

  /** At most one bank-hours row per user. */
  ghost predicate BankRowsUnique(rows: seq<BankHour>) {
    forall i, j :: 0 <= i < j < |rows| ==> rows[i].user != rows[j].user
  }

  /** `release.update({ where: { id }, data: { total, start_hour, end_hour, description } })`:
   * the row with that identifier takes the new values; every other row is left alone. */
  function UpdateRelease(releases: seq<Release>, id: Id, total: Num, startHour: TimeText,
                         endHour: TimeText, description: string): seq<Release>
  {
    seq(|releases|, k requires 0 <= k < |releases| =>
      if releases[k].id == id
      then releases[k].(total := total, startHour := startHour, endHour := endHour,
                        description := description)
      else releases[k])
  }

  /** Writing the same row twice leaves only the second write visible. */
  lemma UpdateReleaseLastWins(releases: seq<Release>, id: Id, t1: Num, s1: TimeText, e1: TimeText,
                              d1: string, t2: Num, s2: TimeText, e2: TimeText, d2: string)
    ensures UpdateRelease(UpdateRelease(releases, id, t1, s1, e1, d1), id, t2, s2, e2, d2) ==
            UpdateRelease(releases, id, t2, s2, e2, d2)
  {
  }

  /** An update in place keeps release identifiers unique and below the counter. */
  lemma UpdateKeepsIdsFresh(releases: seq<Release>, nextId: nat, id: Id, total: Num,
                            startHour: TimeText, endHour: TimeText, description: string)
    requires ReleaseIdsFresh(releases, nextId)
    ensures ReleaseIdsFresh(UpdateRelease(releases, id, total, startHour, endHour, description), nextId)
  {
  }

  /** A row carrying the counter's identifier keeps identifiers unique once the counter moves on. */
  lemma AppendKeepsIdsFresh(releases: seq<Release>, nextId: nat, row: Release)
    requires ReleaseIdsFresh(releases, nextId) && row.id == nextId
    ensures ReleaseIdsFresh(releases + [row], nextId + 1)
  {
  }

  class Database {
    var releases: seq<Release>
    var holidays: seq<Holiday>
    var payments: seq<Payment>
    var bankHours: seq<BankHour>
    var users: map<UserId, User>
    var nextId: nat

    ghost predicate Valid()
      reads this
    {
      && ReleaseIdsFresh(releases, nextId)
      && PaymentKeysUnique(payments)
      && BankRowsUnique(bankHours)
    }

    constructor (users: map<UserId, User>)
      ensures Valid()
      ensures releases == [] && holidays == [] && payments == [] && bankHours == []
      ensures this.users == users && nextId == 0
    {
      releases, holidays, payments, bankHours := [], [], [], [];
      this.users := users;
      nextId := 0;
    }
  }
}

/**
 * Calendar dates as `(year, month, day)` triples with a 1-based month, the form in which
 * the controllers build them (`new Date(year, month - 1, day)`). Local time is taken to
 * be UTC.
 */
module Calendar {
  import opened Text

  datatype Date = Date(year: int, month: int, day: int)

  const MsPerMinute: int := 60000
  const MsPerHour: int := 3600000
  const MsPerDay: int := 86400000

  /**
   * The number of days from 1970-01-01 to `d` in the proleptic Gregorian calendar
   * (the `days_from_civil` algorithm); the day an epoch-millisecond instant falls on is
   * `instant / MsPerDay`.
   */
  function DaysFromCivil(d: Date): int {
    var y := if d.month <= 2 then d.year - 1 else d.year;
    var era := y / 400;
    var yoe := y - era * 400;
    var mp := if d.month > 2 then d.month - 3 else d.month + 9;
    var doy := (153 * mp + 2) / 5 + d.day - 1;
    var doe := yoe * 365 + yoe / 4 - yoe / 100 + doy;
    era * 146097 + doe - 719468
  }

  /** A possibly negative integer in decimal, zero-padded to `width` digits. */
  function SignedDecimal(n: int, width: nat): string {
    if n >= 0 then Decimal(n, width) else "-" + Decimal(-n, width)
  }

  /** `dateToStrBR`: the `dd/MM/yyyy` rendering of a date. */
  function DateToStrBR(d: Date): string {
    SignedDecimal(d.day, 2) + "/" + SignedDecimal(d.month, 2) + "/" + SignedDecimal(d.year, 4)
  }
}

/** JavaScript `Date` values as integer milliseconds since 1970-01-01T00:00:00Z, and the few
    things the components ask of them: the UTC day and time of day, the UTC calendar date,
    the date strings built from it, and parsing of the `YYYY-MM-DDTHH:MM:SSZ` strings the
    scheduler builds (the date-time form of section 5.6 of RFC 3339). */
module Calendar {
  import opened Wrappers
  import opened Text

  const MsPerSecond: int := 1000
  const MsPerMinute: int := 60_000
  const MsPerHour: int := 3_600_000
  const MsPerDay: int := 86_400_000

  /** The number of the UTC day that contains instant `t` (days since the epoch, rounded down). */
  function UtcDay(t: int): int {
    t / MsPerDay
  }

  /** Milliseconds since UTC midnight: what `getUTCHours`, `getUTCMinutes`, `getUTCSeconds`
      and `getUTCMilliseconds` of `t` spell out together. */
  function TimeOfDay(t: int): (r: int)
    ensures 0 <= r < MsPerDay
  {
    t % MsPerDay
  }

  /** UTC midnight of the day that contains `t`. */
  function DayStart(t: int): int {
    UtcDay(t) * MsPerDay
  }

  /** `getUTCHours()`, `getUTCMinutes()`, `getUTCSeconds()`, `getUTCMilliseconds()`
      (ECMAScript's HourFromTime, MinFromTime, SecFromTime and msFromTime). */
  function UtcHours(t: int): int { t / 3_600_000 % 24 }
  function UtcMinutes(t: int): int { t / 60_000 % 60 }
  function UtcSeconds(t: int): int { t / 1000 % 60 }
  function UtcMilliseconds(t: int): int { t % 1000 }

  lemma DayDecomposition(t: int)
    ensures t == DayStart(t) + TimeOfDay(t)
  {
  }

  // ---------------------------------------------------------------------------
  // Calendar dates (proleptic Gregorian, as ECMAScript prescribes)

  datatype CivilDate = CivilDate(year: int, month: int, day: int)

  /** The UTC calendar date of day number `z` (`getUTCFullYear`, `getUTCMonth() + 1`,
      `getUTCDate()`), by the usual era/day-of-era decomposition. */
  function CivilFromDays(z: int): CivilDate {
    var shifted := z + 719468;
    var era := shifted / 146097;
    var doe := shifted % 146097;
    var yoe := (doe - doe / 1460 + doe / 36524 - doe / 146096) / 365;
    var doy := doe - (365 * yoe + yoe / 4 - yoe / 100);
    var mp := (5 * doy + 2) / 153;
    var d := doy - (153 * mp + 2) / 5 + 1;
    var m := if mp < 10 then mp + 3 else mp - 9;
    CivilDate(yoe + era * 400 + (if m <= 2 then 1 else 0), m, d)
  }

  /** The day number of a calendar date; a day past the end of its month runs on into the
      next month, as ECMAScript's MakeDay does. */
  function DaysFromCivil(year: int, month: int, day: int): int {
    var y := if month <= 2 then year - 1 else year;
    var era := y / 400;
    var yoe := y % 400;
    var mp := if month > 2 then month - 3 else month + 9;
    var doy := (153 * mp + 2) / 5 + day - 1;
    var doe := yoe * 365 + yoe / 4 - yoe / 100 + doy;
    era * 146097 + doe - 719468
  }

  /** The day key the scheduler builds for a date: `${year}-${MM}-${DD}` from the UTC fields,
      month and day left-padded to two digits, the year written as it is. */
  function DayKey(t: int): string {
    var c := CivilFromDays(UtcDay(t));
    IntToString(c.year) + "-" + PadStart(IntToString(c.month), 2, '0') + "-" +
    PadStart(IntToString(c.day), 2, '0')
  }

  /** `t.toISOString().split("T")[0]`: the UTC date, the year in four digits for years 0 to
      9999 and otherwise signed in six. */
  function IsoDatePart(t: int): string {
    var c := CivilFromDays(UtcDay(t));
    var year :=
      if 0 <= c.year <= 9999 then PadStart(NatToString(c.year), 4, '0')
      else if c.year < 0 then "-" + PadStart(NatToString(-c.year), 6, '0')
      else "+" + PadStart(NatToString(c.year), 6, '0');
    year + "-" + PadStart(NatToString(c.month), 2, '0') + "-" + PadStart(NatToString(c.day), 2, '0')
  }

  // ---------------------------------------------------------------------------
  // The string shapes the code tests with regular expressions

  /** `/^\d{4}-\d{2}-\d{2}$/` */
  predicate IsDateShape(s: string) {
    |s| == 10 && AllDigits(s[0..4]) && s[4] == '-' && AllDigits(s[5..7]) && s[7] == '-' &&
    AllDigits(s[8..10])
  }

  /** `/^\d{2}:\d{2}$/` */
  predicate IsTimeShape(s: string) {
    |s| == 5 && AllDigits(s[0..2]) && s[2] == ':' && AllDigits(s[3..5])
  }

  /** `/^\d{2}:\d{2}:\d{2}$/` */
  predicate IsTimeWithSecondsShape(s: string) {
    |s| == 8 && IsTimeShape(s[..5]) && s[5] == ':' && AllDigits(s[6..8])
  }

  /** `YYYY-MM-DDTHH:MM:SSZ` */
  predicate IsUtcDateTimeShape(s: string) {
    |s| == 20 && IsDateShape(s[..10]) && s[10] == 'T' && IsTimeWithSecondsShape(s[11..19]) &&
    s[19] == 'Z'
  }

  /** The fields of a well-shaped `YYYY-MM-DDTHH:MM:SSZ` string. */
  datatype DateTimeFields = DateTimeFields(year: nat, month: nat, day: nat, hour: nat, minute: nat, second: nat)

  function Fields(s: string): DateTimeFields
    requires IsUtcDateTimeShape(s)
  {
    assert s[..10][5..7] == s[5..7] && s[..10][8..10] == s[8..10];
    assert s[11..19][..5] == s[11..16];
    assert s[11..16][0..2] == s[11..13];
    assert s[11..16][3..5] == s[14..16];
    assert s[11..19][6..8] == s[17..19];
    DateTimeFields(DigitsValue(s[0..4]), DigitsValue(s[5..7]), DigitsValue(s[8..10]),
                   DigitsValue(s[11..13]), DigitsValue(s[14..16]), DigitsValue(s[17..19]))
  }

  /** The ranges `Date` accepts for the fields: a month of 1 to 12, a day of 1 to 31 (larger
      days of short months run on into the next month), 24:00:00 as the end of the day. */
  predicate InRange(f: DateTimeFields) {
    1 <= f.month <= 12 && 1 <= f.day <= 31 && f.minute <= 59 && f.second <= 59 &&
    (f.hour < 24 || (f.hour == 24 && f.minute == 0 && f.second == 0))
  }

  /** `new Date(s).getTime()` for a string that should read `YYYY-MM-DDTHH:MM:SSZ`; `None` is
      an Invalid Date, whose time value is NaN. */
  function ParseUtcDateTime(s: string): (r: Option<int>)
    ensures r.Some? ==> IsUtcDateTimeShape(s) && InRange(Fields(s))
  {
    if !IsUtcDateTimeShape(s) then None
    else
      var f := Fields(s);
      if !InRange(f) then None
      else Some(DaysFromCivil(f.year, f.month, f.day) * MsPerDay +
                f.hour * MsPerHour + f.minute * MsPerMinute + f.second * MsPerSecond)
  }

  /** The instant `hour` hours and `minute` minutes after `midnight`. */
  function AtTimeOfDay(midnight: int, hour: int, minute: int): int {
    midnight + hour * MsPerHour + minute * MsPerMinute
  }

  /** `new Date(`${day}T00:00:00Z`).getTime()`: UTC midnight of a day key, if it is a valid date. */
  function Midnight(day: string): Option<int> {
    ParseUtcDateTime(day + "T00:00:00Z")
  }

  /** A date, `T`, an `HH:MM` time and `:00Z` make a well-shaped string with those fields. */
  lemma DateTimeStringFields(day: string, hm: string)
    requires IsDateShape(day) && IsTimeShape(hm)
    ensures var s := day + "T" + hm + ":00Z";
      && IsUtcDateTimeShape(s) && s[..10] == day
      && Fields(s) == DateTimeFields(DigitsValue(day[0..4]), DigitsValue(day[5..7]), DigitsValue(day[8..10]),
                                     DigitsValue(hm[0..2]), DigitsValue(hm[3..5]), 0)
  {
    var s := day + "T" + hm + ":00Z";
    var t := hm + ":00";
    assert s[..10] == day;
    assert s[11..19] == t;
    assert t[..5] == hm && t[6..8] == "00";
    assert "00"[..1] == "0" && "0"[..0] == "";
    assert IsTimeWithSecondsShape(t);
    assert s[0..4] == day[0..4] && s[5..7] == day[5..7] && s[8..10] == day[8..10];
    assert s[11..13] == hm[0..2] && s[14..16] == hm[3..5] && s[17..19] == "00";
  }

  /** Parsing a date, `T`, an `HH:MM` time and `:00Z` succeeds exactly when the fields are in
      range, and then gives the instant those fields name. */
  lemma ParseDateAndTime(day: string, hm: string, hour: nat, minute: nat)
    requires IsDateShape(day) && IsTimeShape(hm)
    requires DigitsValue(hm[0..2]) == hour && DigitsValue(hm[3..5]) == minute
    ensures var r := ParseUtcDateTime(day + "T" + hm + ":00Z");
      var y, m, d := DigitsValue(day[0..4]), DigitsValue(day[5..7]), DigitsValue(day[8..10]);
      && (r.Some? <==> InRange(DateTimeFields(y, m, d, hour, minute, 0)))
      && (r.Some? ==> r.value == DaysFromCivil(y, m, d) * MsPerDay + hour * MsPerHour + minute * MsPerMinute)
  {
    DateTimeStringFields(day, hm);
  }

  /** On a date that is valid at midnight, `HH:MM` (before 24:00) denotes the instant that
      many hours and minutes after midnight. */
  lemma ParseAtTimeOfDay(day: string, hm: string, hour: nat, minute: nat)
    requires IsDateShape(day) && IsTimeShape(hm)
    requires Midnight(day).Some?
    requires DigitsValue(hm[0..2]) == hour < 24 && DigitsValue(hm[3..5]) == minute <= 59
    ensures var r := ParseUtcDateTime(day + "T" + hm + ":00Z");
      r.Some? && r.value == AtTimeOfDay(Midnight(day).value, hour, minute)
  {
    var y, m, d := DigitsValue(day[0..4]), DigitsValue(day[5..7]), DigitsValue(day[8..10]);
    assert InRange(DateTimeFields(y, m, d, 0, 0, 0)) && Midnight(day).value == DaysFromCivil(y, m, d) * MsPerDay by {
      var midnight := "00:00";
      assert midnight[0..2] == "00" && midnight[3..5] == "00";
      assert "00"[..1] == "0" && "0"[..0] == "";
      assert day + "T00:00:00Z" == day + "T" + midnight + ":00Z";
      ParseDateAndTime(day, midnight, 0, 0);
    }
    ParseDateAndTime(day, hm, hour, minute);
  }
}

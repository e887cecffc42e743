/** The repair of availability rows whose times were stored on 1970-01-01
    (`fix_user_availability_dates.ts`): each row is moved onto the UTC day of its interview
    date and keeps its UTC time of day. The tables are arrays updated in place; the queries
    become reads of those arrays, the `update .. where id = ..` statements loops over them,
    and a failing database call is the `DbFault` parameter. */
module AvailabilityDateFix {
  import opened Wrappers
  import opened Seqs
  import opened Calendar
  import opened Records

  // ---------------------------------------------------------------------------
  // Moving an instant onto another day

  /** The four UTC fields spell out the time of day. */
  lemma UtcFieldsSpellTimeOfDay(t: int)
    ensures 0 <= UtcHours(t) < 24 && 0 <= UtcMinutes(t) < 60 && 0 <= UtcSeconds(t) < 60
    ensures 0 <= UtcMilliseconds(t) < 1000
    ensures UtcHours(t) * MsPerHour + UtcMinutes(t) * MsPerMinute + UtcSeconds(t) * MsPerSecond +
            UtcMilliseconds(t) == TimeOfDay(t)
  {
    var t1, t2, t3, t4 := t / 1000, t / 60_000, t / 3_600_000, t / 86_400_000;
    assert t2 == t1 / 60;
    assert t3 == t2 / 60;
    assert t4 == t3 / 24;
    assert t == 1000 * t1 + t % 1000;
    assert t1 == 60 * t2 + t1 % 60;
    assert t2 == 60 * t3 + t2 % 60;
    assert t3 == 24 * t4 + t3 % 24;
    assert TimeOfDay(t) == t - 86_400_000 * t4;
  }

  /** The UTC fields of an instant depend only on its time of day. */
  lemma UtcFieldsOfTimeOfDay(t: int, u: int)
    requires TimeOfDay(t) == TimeOfDay(u)
    ensures UtcHours(t) == UtcHours(u) && UtcMinutes(t) == UtcMinutes(u)
    ensures UtcSeconds(t) == UtcSeconds(u) && UtcMilliseconds(t) == UtcMilliseconds(u)
  {
    UtcFieldsOfDay(t);
    UtcFieldsOfDay(u);
  }

  /** Each UTC field is read off the time of day just as it is off the whole instant. */
  lemma UtcFieldsOfDay(t: int)
    ensures var x := TimeOfDay(t);
      && UtcHours(t) == x / 3_600_000 && UtcMinutes(t) == x / 60_000 % 60
      && UtcSeconds(t) == x / 1000 % 60 && UtcMilliseconds(t) == x % 1000
  {
    UtcFieldsSpellTimeOfDay(t);
    var h, m, sec, ms := UtcHours(t), UtcMinutes(t), UtcSeconds(t), UtcMilliseconds(t);
    var x := TimeOfDay(t);
    assert x == 1000 * (3600 * h + 60 * m + sec) + ms;
    QuotientOf(x, 1000, 3600 * h + 60 * m + sec, ms);
    QuotientOf(3600 * h + 60 * m + sec, 60, 60 * h + m, sec);
    assert x == 60_000 * (60 * h + m) + (1000 * sec + ms);
    QuotientOf(x, 60_000, 60 * h + m, 1000 * sec + ms);
    QuotientOf(60 * h + m, 60, h, m);
    assert x == 3_600_000 * h + (60_000 * m + 1000 * sec + ms);
    QuotientOf(x, 3_600_000, h, 60_000 * m + 1000 * sec + ms);
  }

  /** Euclidean division is unique: `a == d * q + r` with `0 <= r < d` fixes `a / d` and `a % d`. */
  lemma QuotientOf(a: int, d: int, q: int, r: int)
    requires d > 0 && a == d * q + r && 0 <= r < d
    ensures a / d == q && a % d == r
  {
    var q', r' := a / d, a % d;
    assert d * q' + r' == d * q + r;
    if q' > q {
      assert d * q' >= d * (q + 1) by {
        MulMonotone(d, q + 1, q');
      }
    } else if q' < q {
      assert d * q >= d * (q' + 1) by {
        MulMonotone(d, q' + 1, q);
      }
    }
  }

  lemma MulMonotone(d: int, a: int, b: int)
    requires d > 0 && a <= b
    ensures d * a <= d * b
  {
    assert d * b - d * a == d * (b - a);
  }

  /** `new Date(day)` followed by `setUTCHours(h, m, s, ms)`: the UTC day of `day` at that
      time (ECMAScript's MakeDate of the day and MakeTime of the four fields). */
  function SetUtcHours(day: int, h: int, m: int, s: int, ms: int): int {
    DayStart(day) + h * MsPerHour + m * MsPerMinute + s * MsPerSecond + ms
  }

  /** The instant on the UTC day of `day` at the UTC time of day of `time`. */
  function Recombine(day: int, time: int): int {
    SetUtcHours(day, UtcHours(time), UtcMinutes(time), UtcSeconds(time), UtcMilliseconds(time))
  }

  /** A day number and a time of day name exactly one instant. */
  lemma DayAndTimeOfDay(k: int, x: int)
    requires 0 <= x < MsPerDay
    ensures UtcDay(k * MsPerDay + x) == k && TimeOfDay(k * MsPerDay + x) == x
  {
  }

  /** The recombined instant lies on the UTC day of `day` and keeps the UTC hours, minutes,
      seconds and milliseconds of `time`. */
  lemma RecombineParts(day: int, time: int)
    ensures var r := Recombine(day, time);
      && UtcDay(r) == UtcDay(day) && TimeOfDay(r) == TimeOfDay(time)
      && UtcHours(r) == UtcHours(time) && UtcMinutes(r) == UtcMinutes(time)
      && UtcSeconds(r) == UtcSeconds(time) && UtcMilliseconds(r) == UtcMilliseconds(time)
  {
    UtcFieldsSpellTimeOfDay(time);
    assert Recombine(day, time) == UtcDay(day) * MsPerDay + TimeOfDay(time);
    DayAndTimeOfDay(UtcDay(day), TimeOfDay(time));
    UtcFieldsOfTimeOfDay(Recombine(day, time), time);
  }

  /** Moving an already moved instant to the same day again changes nothing, and neither
      does moving it by its own time of day. */
  lemma RecombineIdempotent(day: int, time: int)
    ensures Recombine(day, Recombine(day, time)) == Recombine(day, time)
    ensures Recombine(Recombine(day, time), time) == Recombine(day, time)
  {
    var r := Recombine(day, time);
    RecombineParts(day, time);
    RecombineParts(day, r);
    RecombineParts(r, time);
    DayDecomposition(r);
    DayDecomposition(Recombine(day, r));
    DayDecomposition(Recombine(r, time));
  }

  // ---------------------------------------------------------------------------
  // The interview-date map

  /** The map `allInterviewDates.forEach(id => map.set(id.id, id.date))` builds: a later
      date with the same id overwrites an earlier one. */
  function DateMapOf(dates: seq<InterviewDate>): map<string, int>
    decreases |dates|
  {
    if dates == [] then map[]
    else DateMapOf(dates[..|dates| - 1])[dates[|dates| - 1].id := dates[|dates| - 1].date]
  }

  /** The map knows exactly the ids of the interview dates, and gives each the date of the
      last interview date with that id. */
  lemma {:induction false} DateMapLookup(dates: seq<InterviewDate>)
    ensures forall id :: id in DateMapOf(dates) <==> exists d :: d in dates && d.id == id
    ensures forall k :: 0 <= k < |dates| && (forall j :: k < j < |dates| ==> dates[j].id != dates[k].id) ==>
      DateMapOf(dates)[dates[k].id] == dates[k].date
    decreases |dates|
  {
    if dates != [] {
      var init, last := dates[..|dates| - 1], dates[|dates| - 1];
      DateMapLookup(init);
      assert dates == init + [last];
      forall id | id in DateMapOf(dates) ensures exists d :: d in dates && d.id == id {
        if id != last.id {
          assert DateMapOf(dates) == DateMapOf(init)[last.id := last.date];
          assert id in DateMapOf(init);
          var d :| d in init && d.id == id;
          assert d in dates;
        }
      }
      forall k | 0 <= k < |dates| - 1 && (forall j :: k < j < |dates| ==> dates[j].id != dates[k].id)
        ensures DateMapOf(dates)[dates[k].id] == dates[k].date
      {
        assert init[k] == dates[k];
      }
    }
  }

  /** `interviewDateMap`, filled one interview date at a time. */
  method BuildDateMap(dates: seq<InterviewDate>) returns (m: map<string, int>)
    ensures m == DateMapOf(dates)
  {
    m := map[];
    for i := 0 to |dates|
      invariant m == DateMapOf(dates[..i])
    {
      assert dates[..i + 1][..i] == dates[..i];
      m := m[dates[i].id := dates[i].date];
    }
    assert dates[..|dates|] == dates;
  }

  // ---------------------------------------------------------------------------
  // What happens to one row

  /** What a fix run returns. */
  datatype FixResult = FixSucceeded(fixed: nat, skipped: nat) | FixFailed(error: string)

  /** `error instanceof Error ? error.message : "Unknown error"` */
  function ErrorMessage(e: Thrown): string {
    match e
    case ErrorValue(message) => message
    case OtherValue => "Unknown error"
  }

  /** The result of a run over `selected` rows of which `fixable` are moved: a failing
      query, or a failing update that is reached, turns it into a failure. */
  function Outcome(fault: DbFault, fixable: nat, selected: nat): FixResult
    requires fixable <= selected
  {
    match fault
    case NoFault => FixSucceeded(fixable, selected - fixable)
    case FailQuery(e) => FixFailed(ErrorMessage(e))
    case FailUpdate(n, e) =>
      if n < fixable then FixFailed(ErrorMessage(e)) else FixSucceeded(fixable, selected - fixable)
  }

  /** The interview date a user availability is moved to, or `None` when the row is
      skipped: its interview date id is missing or empty, it lacks a time, or the id names
      no interview date. */
  function UserTargetDate(row: UserAvailability, dateMap: map<string, int>): (r: Option<int>)
    ensures r.Some? ==> row.startTime.Some? && row.endTime.Some?
  {
    if row.interviewDateId.None? || row.interviewDateId.value == "" || row.startTime.None? || row.endTime.None? then None
    else if row.interviewDateId.value !in dateMap then None
    else Some(dateMap[row.interviewDateId.value])
  }

  /** The columns the update writes. */
  function MoveUserRow(row: UserAvailability, date: int, start: int, end: int, now: int): UserAvailability {
    row.(date := Some(date), startTime := Some(start), endTime := Some(end), updatedAt := now)
  }

  /** A user availability after the fix. */
  function FixUserRow(row: UserAvailability, dateMap: map<string, int>, now: int): UserAvailability {
    match UserTargetDate(row, dateMap)
    case None => row
    case Some(date) => MoveUserRow(row, date, Recombine(date, row.startTime.value), Recombine(date, row.endTime.value), now)
  }

  /** A skipped row is left as it is; a fixed row gets the interview date as its date, its
      times on that date's UTC day with their UTC time of day kept, and nothing else but
      `updatedAt` changes. */
  lemma FixUserRowEffect(row: UserAvailability, dates: seq<InterviewDate>, now: int)
    ensures var m := DateMapOf(dates);
      var id := row.interviewDateId;
      var r := FixUserRow(row, m, now);
      && (UserTargetDate(row, m).None? <==>
            id.None? || id.value == "" || row.startTime.None? || row.endTime.None? ||
            forall d :: d in dates ==> d.id != id.value)
      && (UserTargetDate(row, m).None? ==> r == row)
      && (UserTargetDate(row, m).Some? ==>
            && r.id == row.id && r.userId == row.userId && r.interviewDateId == id && r.updatedAt == now
            && r.date == Some(m[id.value])
            && r.startTime.Some? && UtcDay(r.startTime.value) == UtcDay(m[id.value])
            && TimeOfDay(r.startTime.value) == TimeOfDay(row.startTime.value)
            && r.endTime.Some? && UtcDay(r.endTime.value) == UtcDay(m[id.value])
            && TimeOfDay(r.endTime.value) == TimeOfDay(row.endTime.value))
  {
    var m := DateMapOf(dates);
    DateMapLookup(dates);
    match UserTargetDate(row, m)
    case None =>
    case Some(date) =>
      RecombineParts(date, row.startTime.value);
      RecombineParts(date, row.endTime.value);
  }

  /** Running the fix over a fixed row again changes only `updatedAt`. */
  lemma FixUserRowIdempotent(row: UserAvailability, dateMap: map<string, int>, now: int, later: int)
    ensures FixUserRow(FixUserRow(row, dateMap, now), dateMap, later) == FixUserRow(row, dateMap, later)
  {
    match UserTargetDate(row, dateMap)
    case None =>
    case Some(date) =>
      RecombineIdempotent(date, row.startTime.value);
      RecombineIdempotent(date, row.endTime.value);
  }

  /** The number of rows the fix moves. */
  function FixableUserRows(rows: seq<UserAvailability>, dateMap: map<string, int>): (n: nat)
    ensures n <= |rows|
    decreases |rows|
  {
    if rows == [] then 0
    else FixableUserRows(rows[..|rows| - 1], dateMap) + (if UserTargetDate(rows[|rows| - 1], dateMap).Some? then 1 else 0)
  }

  lemma {:induction false} FixableUserRowsPrefix(rows: seq<UserAvailability>, dateMap: map<string, int>, k: nat)
    requires k <= |rows|
    ensures FixableUserRows(rows[..k], dateMap) <= FixableUserRows(rows, dateMap)
    decreases |rows| - k
  {
    if k < |rows| {
      assert rows[..k + 1][..k] == rows[..k];
      FixableUserRowsPrefix(rows, dateMap, k + 1);
    } else {
      assert rows[..k] == rows;
    }
  }

  predicate HasInterviewDateId(row: UserAvailability) {
    row.interviewDateId.Some?
  }

  /** `update user_availabilities set date, start_time, end_time, updated_at where id = id` */
  method MoveUserRowsById(table: array<UserAvailability>, id: string, date: int, start: int, end: int, now: int)
    modifies table
    ensures forall j :: 0 <= j < table.Length ==>
      table[j] == if old(table[j]).id == id then MoveUserRow(old(table[j]), date, start, end, now) else old(table[j])
  {
    for j := 0 to table.Length
      invariant forall i :: 0 <= i < j ==>
        table[i] == if old(table[i]).id == id then MoveUserRow(old(table[i]), date, start, end, now) else old(table[i])
      invariant forall i :: j <= i < table.Length ==> table[i] == old(table[i])
    {
      if table[j].id == id {
        table[j] := MoveUserRow(table[j], date, start, end, now);
      }
    }
  }

  /** The table `t` holds the fixed form of every original row that is among the rows
      `done` already processed, and every other original row as it was. */
  ghost predicate UserRowsFixedFor(t: seq<UserAvailability>, orig: seq<UserAvailability>, done: seq<UserAvailability>,
                                   dateMap: map<string, int>, now: int) {
    |t| == |orig| &&
    forall j :: 0 <= j < |t| ==> t[j] == if orig[j] in done then FixUserRow(orig[j], dateMap, now) else orig[j]
  }

  /** Skipping a row keeps the table right. */
  lemma UserSkipStep(t: seq<UserAvailability>, orig: seq<UserAvailability>, done: seq<UserAvailability>,
                     row: UserAvailability, dateMap: map<string, int>, now: int)
    requires UserRowsFixedFor(t, orig, done, dateMap, now)
    requires UserTargetDate(row, dateMap).None?
    ensures UserRowsFixedFor(t, orig, done + [row], dateMap, now)
  {
  }

  /** Updating the rows with a selected row's id to its fixed columns keeps the table right. */
  lemma UserMoveStep(before: seq<UserAvailability>, after: seq<UserAvailability>, orig: seq<UserAvailability>,
                     done: seq<UserAvailability>, row: UserAvailability, dateMap: map<string, int>, now: int, date: int)
    requires UserRowsFixedFor(before, orig, done, dateMap, now)
    requires UniqueUserRowIds(orig) && row in orig
    requires UserTargetDate(row, dateMap) == Some(date)
    requires |after| == |before|
    requires forall j :: 0 <= j < |before| ==>
      after[j] == if before[j].id == row.id
                  then MoveUserRow(before[j], date, Recombine(date, row.startTime.value), Recombine(date, row.endTime.value), now)
                  else before[j]
    ensures UserRowsFixedFor(after, orig, done + [row], dateMap, now)
  {
    var i :| 0 <= i < |orig| && orig[i] == row;
    forall j | 0 <= j < |after|
      ensures after[j] == if orig[j] in done + [row] then FixUserRow(orig[j], dateMap, now) else orig[j]
    {
      if orig[j].id == row.id {
        assert j == i;
      }
    }
  }

  /** What processing one row comes to. */
  datatype Step = Skipped | Moved | Failed(error: string)

  /** The body of the loop of `fixUserAvailabilityDates` for one selected row, after
      `fixed` rows have been moved: skip the row, or fail on its update, or move it. */
  method ProcessUserRow(table: array<UserAvailability>, row: UserAvailability, dateMap: map<string, int>,
                        now: int, fault: DbFault, fixed: nat, ghost orig: seq<UserAvailability>,
                        ghost done: seq<UserAvailability>)
    returns (step: Step)
    requires UserRowsFixedFor(table[..], orig, done, dateMap, now)
    requires UniqueUserRowIds(orig) && row in orig
    modifies table
    ensures step.Skipped? <==> UserTargetDate(row, dateMap).None?
    ensures step.Failed? <==> UserTargetDate(row, dateMap).Some? && fault.FailUpdate? && fault.n == fixed
    ensures step.Failed? ==> step.error == ErrorMessage(fault.thrown) && table[..] == old(table[..])
    ensures !step.Failed? ==> UserRowsFixedFor(table[..], orig, done + [row], dateMap, now)
  {
    if row.interviewDateId.None? || row.interviewDateId.value == "" || row.startTime.None? || row.endTime.None? {
      UserSkipStep(table[..], orig, done, row, dateMap, now);
      return Skipped;
    }
    if row.interviewDateId.value !in dateMap {
      UserSkipStep(table[..], orig, done, row, dateMap, now);
      return Skipped;
    }
    var date := dateMap[row.interviewDateId.value];
    var newStart := Recombine(date, row.startTime.value);
    var newEnd := Recombine(date, row.endTime.value);
    if fault.FailUpdate? && fault.n == fixed {
      return Failed(ErrorMessage(fault.thrown));
    }
    ghost var before := table[..];
    MoveUserRowsById(table, row.id, date, newStart, newEnd, now);
    UserMoveStep(before, table[..], orig, done, row, dateMap, now, date);
    return Moved;
  }

  /** The loop of `fixUserAvailabilityDates` over the selected `rows` of the table. */
  method FixUserRows(table: array<UserAvailability>, rows: seq<UserAvailability>, dateMap: map<string, int>,
                     now: int, fault: DbFault, ghost orig: seq<UserAvailability>)
    returns (result: FixResult)
    requires table[..] == orig && UniqueUserRowIds(orig)
    requires forall row :: row in rows ==> row in orig
    requires !fault.FailQuery?
    modifies table
    ensures result == Outcome(fault, FixableUserRows(rows, dateMap), |rows|)
    ensures result.FixSucceeded? ==> UserRowsFixedFor(table[..], orig, rows, dateMap, now)
    ensures exists done :: UserRowsFixedFor(table[..], orig, done, dateMap, now)
  {
    var fixed, skipped := 0, 0;
    for k := 0 to |rows|
      invariant fixed + skipped == k
      invariant fixed == FixableUserRows(rows[..k], dateMap)
      invariant fault.FailUpdate? ==> fault.n >= fixed
      invariant UserRowsFixedFor(table[..], orig, rows[..k], dateMap, now)
    {
      assert rows[..k + 1] == rows[..k] + [rows[k]];
      assert rows[..k + 1][..k] == rows[..k];
      var step := ProcessUserRow(table, rows[k], dateMap, now, fault, fixed, orig, rows[..k]);
      match step
      case Skipped =>
        skipped := skipped + 1;
      case Moved =>
        fixed := fixed + 1;
      case Failed(error) =>
        FixableUserRowsPrefix(rows, dateMap, k + 1);
        return FixFailed(error);
    }
    assert rows[..|rows|] == rows;
    result := FixSucceeded(fixed, skipped);
  }

  /** Once all rows with an interview date id are processed, every row is fixed: the rest
      have no interview date id, which the fix skips. */
  lemma AllUserRowsFixed(t: seq<UserAvailability>, orig: seq<UserAvailability>, dateMap: map<string, int>, now: int)
    requires UserRowsFixedFor(t, orig, Filter(orig, HasInterviewDateId), dateMap, now)
    ensures forall j :: 0 <= j < |t| ==> t[j] == FixUserRow(orig[j], dateMap, now)
  {
  }

  /** `fixUserAvailabilityDates`: over the rows that have an interview date id, moves each
      row that has both times and names a known interview date onto that date, counting
      the rows it fixed and the rows it skipped. `now` is the clock reading written to
      `updatedAt`. On success every row is fixed; after a failure every row is either as it
      was or fixed. */
  method FixUserAvailabilityDates(table: array<UserAvailability>, interviewDates: seq<InterviewDate>, now: int, fault: DbFault)
    returns (result: FixResult)
    requires UniqueUserRowIds(table[..])
    modifies table
    ensures var selected := Filter(old(table[..]), HasInterviewDateId);
      result == Outcome(fault, FixableUserRows(selected, DateMapOf(interviewDates)), |selected|)
    ensures result.FixSucceeded? ==>
      forall j :: 0 <= j < table.Length ==> table[j] == FixUserRow(old(table[j]), DateMapOf(interviewDates), now)
    ensures fault.FailQuery? ==> table[..] == old(table[..])
    ensures forall j :: 0 <= j < table.Length ==>
      table[j] == old(table[j]) || table[j] == FixUserRow(old(table[j]), DateMapOf(interviewDates), now)
  {
    if fault.FailQuery? {
      return FixFailed(ErrorMessage(fault.thrown));
    }
    ghost var orig := table[..];
    var rows := Filter(table[..], HasInterviewDateId);
    var dateMap := BuildDateMap(interviewDates);
    result := FixUserRows(table, rows, dateMap, now, fault, orig);
    if result.FixSucceeded? {
      AllUserRowsFixed(table[..], orig, dateMap, now);
    }
  }

  // ---------------------------------------------------------------------------
  // Rushee availabilities
  //
  // The rushee fix compares dates through `isoDate`, which the migration instantiates with
  // `t => t.toISOString().split("T")[0]` (`Calendar.IsoDatePart`); the facts below hold for
  // any such date-key function.

  /** `availability.date?.toISOString().split("T")[0]`, with `None` for `undefined`. */
  function IsoDateKey(date: Option<int>, isoDate: int -> string): Option<string> {
    if date.Some? then Some(isoDate(date.value)) else None
  }

  /** `allInterviewDates.find(id => id.date.toISOString().split("T")[0] === key)` */
  function FirstOnIsoDate(dates: seq<InterviewDate>, isoDate: int -> string, key: Option<string>): (r: Option<InterviewDate>)
    ensures r.Some? ==> r.value in dates
    decreases |dates|
  {
    if dates == [] then None
    else if Some(isoDate(dates[0].date)) == key then Some(dates[0])
    else FirstOnIsoDate(dates[1..], isoDate, key)
  }

  /** The search finds nothing exactly when no interview date has the key, and otherwise
      the first one that has it. */
  lemma {:induction false} FirstOnIsoDateIsFirst(dates: seq<InterviewDate>, isoDate: int -> string, key: Option<string>)
    ensures var r := FirstOnIsoDate(dates, isoDate, key);
      && (r.None? <==> forall d :: d in dates ==> Some(isoDate(d.date)) != key)
      && (r.Some? ==> exists k :: 0 <= k < |dates| && dates[k] == r.value && Some(isoDate(dates[k].date)) == key &&
                        forall j :: 0 <= j < k ==> Some(isoDate(dates[j].date)) != key)
    decreases |dates|
  {
    if dates != [] && Some(isoDate(dates[0].date)) != key {
      var rest := dates[1..];
      FirstOnIsoDateIsFirst(rest, isoDate, key);
      assert dates == [dates[0]] + rest;
      var r := FirstOnIsoDate(rest, isoDate, key);
      if r.Some? {
        var k :| 0 <= k < |rest| && rest[k] == r.value && Some(isoDate(rest[k].date)) == key &&
                 forall j :: 0 <= j < k ==> Some(isoDate(rest[j].date)) != key;
        assert dates[k + 1] == rest[k];
        assert forall j :: 0 <= j < k + 1 ==> Some(isoDate(dates[j].date)) != key by {
          forall j | 0 <= j < k + 1 ensures Some(isoDate(dates[j].date)) != key {
            if j > 0 {
              assert dates[j] == rest[j - 1];
            }
          }
        }
      }
    }
  }

  /** The interview date a rushee availability is moved to, or `None` when the row is
      skipped: it lacks a time, or no interview date has the same ISO date. */
  function RusheeTarget(row: RusheeAvailability, dates: seq<InterviewDate>, isoDate: int -> string): (r: Option<InterviewDate>)
    ensures r.Some? ==> row.startTime.Some? && row.endTime.Some?
  {
    if row.startTime.None? || row.endTime.None? then None
    else FirstOnIsoDate(dates, isoDate, IsoDateKey(row.date, isoDate))
  }

  /** The columns the rushee update writes. */
  function MoveRusheeRow(row: RusheeAvailability, d: InterviewDate, start: int, end: int, now: int): RusheeAvailability {
    row.(interviewDateId := Some(d.id), date := Some(d.date), startTime := Some(start), endTime := Some(end), updatedAt := now)
  }

  /** A rushee availability after the fix. */
  function FixRusheeRow(row: RusheeAvailability, dates: seq<InterviewDate>, isoDate: int -> string, now: int): RusheeAvailability {
    match RusheeTarget(row, dates, isoDate)
    case None => row
    case Some(d) => MoveRusheeRow(row, d, Recombine(d.date, row.startTime.value), Recombine(d.date, row.endTime.value), now)
  }

  /** A rushee availability is moved to the first interview date with the same ISO date,
      which then becomes its interview date; one without a date never matches. A skipped
      row is left as it is. */
  lemma FixRusheeRowEffect(row: RusheeAvailability, dates: seq<InterviewDate>, isoDate: int -> string, now: int)
    ensures var target := RusheeTarget(row, dates, isoDate);
      var r := FixRusheeRow(row, dates, isoDate, now);
      && (row.date.None? ==> target.None?)
      && (target.None? <==>
            row.startTime.None? || row.endTime.None? || row.date.None? ||
            forall d :: d in dates ==> isoDate(d.date) != isoDate(row.date.value))
      && (target.None? ==> r == row)
      && (target.Some? ==>
            && row.date.Some?
            && (exists k :: 0 <= k < |dates| && dates[k] == target.value &&
                 isoDate(dates[k].date) == isoDate(row.date.value) &&
                 forall j :: 0 <= j < k ==> isoDate(dates[j].date) != isoDate(row.date.value))
            && r.id == row.id && r.rusheeId == row.rusheeId && r.updatedAt == now
            && r.interviewDateId == Some(target.value.id) && r.date == Some(target.value.date)
            && r.startTime.Some? && UtcDay(r.startTime.value) == UtcDay(target.value.date)
            && TimeOfDay(r.startTime.value) == TimeOfDay(row.startTime.value)
            && r.endTime.Some? && UtcDay(r.endTime.value) == UtcDay(target.value.date)
            && TimeOfDay(r.endTime.value) == TimeOfDay(row.endTime.value))
  {
    if row.startTime.Some? && row.endTime.Some? {
      FirstOnIsoDateIsFirst(dates, isoDate, IsoDateKey(row.date, isoDate));
      match RusheeTarget(row, dates, isoDate)
      case None =>
      case Some(d) =>
        RecombineParts(d.date, row.startTime.value);
        RecombineParts(d.date, row.endTime.value);
    }
  }

  /** Running the fix over a fixed rushee row again changes only `updatedAt`. */
  lemma FixRusheeRowIdempotent(row: RusheeAvailability, dates: seq<InterviewDate>, isoDate: int -> string, now: int, later: int)
    ensures FixRusheeRow(FixRusheeRow(row, dates, isoDate, now), dates, isoDate, later) == FixRusheeRow(row, dates, isoDate, later)
  {
    match RusheeTarget(row, dates, isoDate)
    case None =>
    case Some(d) =>
      var moved := FixRusheeRow(row, dates, isoDate, now);
      FirstOnIsoDateIsFirst(dates, isoDate, IsoDateKey(row.date, isoDate));
      assert IsoDateKey(moved.date, isoDate) == IsoDateKey(row.date, isoDate);
      assert RusheeTarget(moved, dates, isoDate) == Some(d);
      RecombineIdempotent(d.date, row.startTime.value);
      RecombineIdempotent(d.date, row.endTime.value);
  }

  /** The number of rushee rows the fix moves. */
  function FixableRusheeRows(rows: seq<RusheeAvailability>, dates: seq<InterviewDate>, isoDate: int -> string): (n: nat)
    ensures n <= |rows|
    decreases |rows|
  {
    if rows == [] then 0
    else FixableRusheeRows(rows[..|rows| - 1], dates, isoDate) + (if RusheeTarget(rows[|rows| - 1], dates, isoDate).Some? then 1 else 0)
  }

  lemma {:induction false} FixableRusheeRowsPrefix(rows: seq<RusheeAvailability>, dates: seq<InterviewDate>, isoDate: int -> string, k: nat)
    requires k <= |rows|
    ensures FixableRusheeRows(rows[..k], dates, isoDate) <= FixableRusheeRows(rows, dates, isoDate)
    decreases |rows| - k
  {
    if k < |rows| {
      assert rows[..k + 1][..k] == rows[..k];
      FixableRusheeRowsPrefix(rows, dates, isoDate, k + 1);
    } else {
      assert rows[..k] == rows;
    }
  }

  /** `update rushee_availabilities set interview_date_id, date, start_time, end_time,
      updated_at where id = id` */
  method MoveRusheeRowsById(table: array<RusheeAvailability>, id: string, d: InterviewDate, start: int, end: int, now: int)
    modifies table
    ensures forall j :: 0 <= j < table.Length ==>
      table[j] == if old(table[j]).id == id then MoveRusheeRow(old(table[j]), d, start, end, now) else old(table[j])
  {
    for j := 0 to table.Length
      invariant forall i :: 0 <= i < j ==>
        table[i] == if old(table[i]).id == id then MoveRusheeRow(old(table[i]), d, start, end, now) else old(table[i])
      invariant forall i :: j <= i < table.Length ==> table[i] == old(table[i])
    {
      if table[j].id == id {
        table[j] := MoveRusheeRow(table[j], d, start, end, now);
      }
    }
  }

  /** The rushee table holds the fixed form of the original rows among `done` and every
      other original row as it was. */
  ghost predicate RusheeRowsFixedFor(t: seq<RusheeAvailability>, orig: seq<RusheeAvailability>,
                                     done: seq<RusheeAvailability>, dates: seq<InterviewDate>, isoDate: int -> string, now: int) {
    |t| == |orig| &&
    forall j :: 0 <= j < |t| ==> t[j] == if orig[j] in done then FixRusheeRow(orig[j], dates, isoDate, now) else orig[j]
  }

  lemma RusheeSkipStep(t: seq<RusheeAvailability>, orig: seq<RusheeAvailability>, done: seq<RusheeAvailability>,
                       row: RusheeAvailability, dates: seq<InterviewDate>, isoDate: int -> string, now: int)
    requires RusheeRowsFixedFor(t, orig, done, dates, isoDate, now)
    requires RusheeTarget(row, dates, isoDate).None?
    ensures RusheeRowsFixedFor(t, orig, done + [row], dates, isoDate, now)
  {
  }

  lemma RusheeMoveStep(before: seq<RusheeAvailability>, after: seq<RusheeAvailability>, orig: seq<RusheeAvailability>,
                       done: seq<RusheeAvailability>, row: RusheeAvailability, dates: seq<InterviewDate>, isoDate: int -> string, now: int,
                       d: InterviewDate)
    requires RusheeRowsFixedFor(before, orig, done, dates, isoDate, now)
    requires UniqueRusheeRowIds(orig) && row in orig
    requires RusheeTarget(row, dates, isoDate) == Some(d)
    requires |after| == |before|
    requires forall j :: 0 <= j < |before| ==>
      after[j] == if before[j].id == row.id
                  then MoveRusheeRow(before[j], d, Recombine(d.date, row.startTime.value), Recombine(d.date, row.endTime.value), now)
                  else before[j]
    ensures RusheeRowsFixedFor(after, orig, done + [row], dates, isoDate, now)
  {
    var i :| 0 <= i < |orig| && orig[i] == row;
    var start, end := Recombine(d.date, row.startTime.value), Recombine(d.date, row.endTime.value);
    var fixedRow := FixRusheeRow(row, dates, isoDate, now);
    assert fixedRow == MoveRusheeRow(row, d, start, end, now);
    assert MoveRusheeRow(fixedRow, d, start, end, now) == fixedRow;
    forall j | 0 <= j < |after|
      ensures after[j] == if orig[j] in done + [row] then FixRusheeRow(orig[j], dates, isoDate, now) else orig[j]
    {
      if orig[j].id == row.id {
        assert j == i;
        assert before[j] == row || before[j] == fixedRow;
        assert after[j] == fixedRow;
      } else {
        assert orig[j] != row;
        assert after[j] == before[j];
      }
    }
  }

  /** The body of the loop of `fixRusheeAvailabilityDates` for one row. */
  method ProcessRusheeRow(table: array<RusheeAvailability>, row: RusheeAvailability, dates: seq<InterviewDate>, isoDate: int -> string,
                          now: int, fault: DbFault, fixed: nat, ghost orig: seq<RusheeAvailability>,
                          ghost done: seq<RusheeAvailability>)
    returns (step: Step)
    requires RusheeRowsFixedFor(table[..], orig, done, dates, isoDate, now)
    requires UniqueRusheeRowIds(orig) && row in orig
    modifies table
    ensures step.Skipped? <==> RusheeTarget(row, dates, isoDate).None?
    ensures step.Failed? <==> RusheeTarget(row, dates, isoDate).Some? && fault.FailUpdate? && fault.n == fixed
    ensures step.Failed? ==> step.error == ErrorMessage(fault.thrown) && table[..] == old(table[..])
    ensures !step.Failed? ==> RusheeRowsFixedFor(table[..], orig, done + [row], dates, isoDate, now)
  {
    if row.startTime.None? || row.endTime.None? {
      RusheeSkipStep(table[..], orig, done, row, dates, isoDate, now);
      return Skipped;
    }
    var key := IsoDateKey(row.date, isoDate);
    var matching := FirstOnIsoDate(dates, isoDate, key);
    if matching.None? {
      RusheeSkipStep(table[..], orig, done, row, dates, isoDate, now);
      return Skipped;
    }
    var d := matching.value;
    var newStart := Recombine(d.date, row.startTime.value);
    var newEnd := Recombine(d.date, row.endTime.value);
    if fault.FailUpdate? && fault.n == fixed {
      return Failed(ErrorMessage(fault.thrown));
    }
    ghost var before := table[..];
    MoveRusheeRowsById(table, row.id, d, newStart, newEnd, now);
    RusheeMoveStep(before, table[..], orig, done, row, dates, isoDate, now, d);
    return Moved;
  }

  /** The loop of `fixRusheeAvailabilityDates` over the rows of the table. */
  method FixRusheeRows(table: array<RusheeAvailability>, rows: seq<RusheeAvailability>, dates: seq<InterviewDate>, isoDate: int -> string,
                       now: int, fault: DbFault, ghost orig: seq<RusheeAvailability>)
    returns (result: FixResult)
    requires table[..] == orig && UniqueRusheeRowIds(orig)
    requires forall row :: row in rows ==> row in orig
    requires !fault.FailQuery?
    modifies table
    ensures result == Outcome(fault, FixableRusheeRows(rows, dates, isoDate), |rows|)
    ensures result.FixSucceeded? ==> RusheeRowsFixedFor(table[..], orig, rows, dates, isoDate, now)
    ensures exists done :: RusheeRowsFixedFor(table[..], orig, done, dates, isoDate, now)
  {
    var fixed, skipped := 0, 0;
    for k := 0 to |rows|
      invariant fixed + skipped == k
      invariant fixed == FixableRusheeRows(rows[..k], dates, isoDate)
      invariant fault.FailUpdate? ==> fault.n >= fixed
      invariant RusheeRowsFixedFor(table[..], orig, rows[..k], dates, isoDate, now)
    {
      assert rows[..k + 1] == rows[..k] + [rows[k]];
      assert rows[..k + 1][..k] == rows[..k];
      var step := ProcessRusheeRow(table, rows[k], dates, isoDate, now, fault, fixed, orig, rows[..k]);
      match step
      case Skipped =>
        skipped := skipped + 1;
      case Moved =>
        fixed := fixed + 1;
      case Failed(error) =>
        FixableRusheeRowsPrefix(rows, dates, isoDate, k + 1);
        return FixFailed(error);
    }
    assert rows[..|rows|] == rows;
    result := FixSucceeded(fixed, skipped);
  }

  /** `fixRusheeAvailabilityDates`: over every rushee availability, moves each row that has
      both times onto the first interview date with the same ISO date, which also becomes
      its interview date. */
  method FixRusheeAvailabilityDates(table: array<RusheeAvailability>, interviewDates: seq<InterviewDate>, now: int, fault: DbFault)
    returns (result: FixResult)
    requires UniqueRusheeRowIds(table[..])
    modifies table
    ensures result == Outcome(fault, FixableRusheeRows(old(table[..]), interviewDates, IsoDatePart), table.Length)
    ensures result.FixSucceeded? ==>
      forall j :: 0 <= j < table.Length ==> table[j] == FixRusheeRow(old(table[j]), interviewDates, IsoDatePart, now)
    ensures fault.FailQuery? ==> table[..] == old(table[..])
    ensures forall j :: 0 <= j < table.Length ==>
      table[j] == old(table[j]) || table[j] == FixRusheeRow(old(table[j]), interviewDates, IsoDatePart, now)
  {
    if fault.FailQuery? {
      return FixFailed(ErrorMessage(fault.thrown));
    }
    ghost var orig := table[..];
    var rows := table[..];
    result := FixRusheeRows(table, rows, interviewDates, IsoDatePart, now, fault, orig);
  }

  /** `runAvailabilityDateFix`: the user fix, then the rushee fix whatever the user fix
      returned, with both results; each table ends as its own fix leaves it. */
  method RunAvailabilityDateFix(users: array<UserAvailability>, rushees: array<RusheeAvailability>,
                                interviewDates: seq<InterviewDate>, now: int, userFault: DbFault, rusheeFault: DbFault)
    returns (userResult: FixResult, rusheeResult: FixResult)
    requires UniqueUserRowIds(users[..]) && UniqueRusheeRowIds(rushees[..])
    modifies users, rushees
    ensures var selected := Filter(old(users[..]), HasInterviewDateId);
      userResult == Outcome(userFault, FixableUserRows(selected, DateMapOf(interviewDates)), |selected|)
    ensures rusheeResult == Outcome(rusheeFault, FixableRusheeRows(old(rushees[..]), interviewDates, IsoDatePart), rushees.Length)
    ensures userResult.FixSucceeded? ==>
      forall j :: 0 <= j < users.Length ==> users[j] == FixUserRow(old(users[j]), DateMapOf(interviewDates), now)
    ensures rusheeResult.FixSucceeded? ==>
      forall j :: 0 <= j < rushees.Length ==> rushees[j] == FixRusheeRow(old(rushees[j]), interviewDates, IsoDatePart, now)
    ensures userFault.FailQuery? ==> users[..] == old(users[..])
    ensures rusheeFault.FailQuery? ==> rushees[..] == old(rushees[..])
    ensures forall j :: 0 <= j < users.Length ==>
      users[j] == old(users[j]) || users[j] == FixUserRow(old(users[j]), DateMapOf(interviewDates), now)
    ensures forall j :: 0 <= j < rushees.Length ==>
      rushees[j] == old(rushees[j]) || rushees[j] == FixRusheeRow(old(rushees[j]), interviewDates, IsoDatePart, now)
  {
    userResult := FixUserAvailabilityDates(users, interviewDates, now, userFault);
    rusheeResult := FixRusheeAvailabilityDates(rushees, interviewDates, now, rusheeFault);
  }
}

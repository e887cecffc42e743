/** The migration of user availabilities to interview-date references
    (`migrate_availabilities.ts`): every row without an interview date id is given the id
    of an interview date on its date whose window contains the row's times. The tables are
    arrays updated in place; the queries become reads of those arrays, the
    `update .. where id = ..` statement a loop over the table, and a failing database call
    the `MigrationFault` parameter. */
module AvailabilityMigration {
  import opened Wrappers
  import opened Seqs
  import opened Records

  /** Where a run meets a failing database call, if anywhere: the query selecting the rows,
      the `n`-th lookup of a matching interview date, or the `n`-th update (both counting
      from 0). */
  datatype MigrationFault =
    | Clean
    | FailSelect(thrown: Thrown)
    | FailLookup(n: nat, thrown: Thrown)
    | FailWrite(n: nat, thrown: Thrown)

  /** What a run comes to: the `{migrated, skipped, total}` it returns, or the error it
      rethrows. */
  datatype MigrationResult = Migrated(migrated: nat, skipped: nat, total: nat) | Rethrown(thrown: Thrown)

  /** `isNull(userAvailabilities.interviewDateId)`: the rows the migration selects. */
  predicate NeedsMigration(row: UserAvailability) {
    row.interviewDateId.None?
  }

  /** The row has a date and both times, so the migration looks for a match. */
  predicate HasDateAndTimes(row: UserAvailability) {
    row.date.Some? && row.startTime.Some? && row.endTime.Some?
  }

  /** `eq(date) && lte(startTime) && gte(endTime)`: the interview date is on the day and its
      window contains the times. */
  predicate Covers(d: InterviewDate, date: int, start: int, end: int) {
    d.date == date && d.startTime <= start && d.endTime >= end
  }

  /** The matching query with `.limit(1)`, taking the interview dates in table order. */
  function FirstCovering(dates: seq<InterviewDate>, date: int, start: int, end: int): (r: Option<InterviewDate>)
    ensures r.Some? ==> r.value in dates && Covers(r.value, date, start, end)
    decreases |dates|
  {
    if dates == [] then None
    else if Covers(dates[0], date, start, end) then Some(dates[0])
    else FirstCovering(dates[1..], date, start, end)
  }

  /** The query finds nothing exactly when no interview date covers the times, and
      otherwise the first one that does. */
  lemma {:induction false} FirstCoveringIsFirst(dates: seq<InterviewDate>, date: int, start: int, end: int)
    ensures var r := FirstCovering(dates, date, start, end);
      && (r.None? <==> forall d :: d in dates ==> !Covers(d, date, start, end))
      && (r.Some? ==> exists k :: 0 <= k < |dates| && dates[k] == r.value &&
                        forall j :: 0 <= j < k ==> !Covers(dates[j], date, start, end))
    decreases |dates|
  {
    if dates != [] && !Covers(dates[0], date, start, end) {
      var rest := dates[1..];
      FirstCoveringIsFirst(rest, date, start, end);
      assert dates == [dates[0]] + rest;
      var r := FirstCovering(rest, date, start, end);
      if r.Some? {
        var k :| 0 <= k < |rest| && rest[k] == r.value &&
                 forall j :: 0 <= j < k ==> !Covers(rest[j], date, start, end);
        assert dates[k + 1] == rest[k];
        forall j | 0 <= j < k + 1 ensures !Covers(dates[j], date, start, end) {
          if j > 0 {
            assert dates[j] == rest[j - 1];
          }
        }
      }
    }
  }

  /** The interview date a selected row is migrated to, or `None` when it is skipped: it
      lacks its date or a time, or no interview date covers it. */
  function MigrationTarget(row: UserAvailability, dates: seq<InterviewDate>): (r: Option<InterviewDate>)
    ensures r.Some? ==> HasDateAndTimes(row)
  {
    if !HasDateAndTimes(row) then None
    else FirstCovering(dates, row.date.value, row.startTime.value, row.endTime.value)
  }

  /** The columns the update writes. */
  function SetInterviewDate(row: UserAvailability, id: string, now: int): UserAvailability {
    row.(interviewDateId := Some(id), updatedAt := now)
  }

  /** A selected row after the migration. */
  function MigrateRow(row: UserAvailability, dates: seq<InterviewDate>, now: int): UserAvailability {
    match MigrationTarget(row, dates)
    case None => row
    case Some(d) => SetInterviewDate(row, d.id, now)
  }

  /** A row is skipped, and left as it is, exactly when it lacks its date or a time or no
      interview date covers it. A migrated row refers to the first interview date on its
      date whose window contains its times, and keeps every column but the interview date
      id and `updatedAt`. */
  lemma MigrateRowEffect(row: UserAvailability, dates: seq<InterviewDate>, now: int)
    ensures var target := MigrationTarget(row, dates);
      var r := MigrateRow(row, dates, now);
      && (target.None? <==>
            !HasDateAndTimes(row) ||
            forall d :: d in dates ==> !Covers(d, row.date.value, row.startTime.value, row.endTime.value))
      && (target.None? ==> r == row)
      && (target.Some? ==>
            && target.value in dates
            && target.value.date == row.date.value
            && target.value.startTime <= row.startTime.value && row.endTime.value <= target.value.endTime
            && (exists k :: 0 <= k < |dates| && dates[k] == target.value &&
                  forall j :: 0 <= j < k ==> !Covers(dates[j], row.date.value, row.startTime.value, row.endTime.value))
            && r.interviewDateId == Some(target.value.id) && r.updatedAt == now
            && r.id == row.id && r.userId == row.userId && r.date == row.date
            && r.startTime == row.startTime && r.endTime == row.endTime)
  {
    if HasDateAndTimes(row) {
      FirstCoveringIsFirst(dates, row.date.value, row.startTime.value, row.endTime.value);
    }
  }

  /** A migrated row is not selected by a later run; a skipped row is, and is skipped
      again. So a second run over the same interview dates changes nothing more. */
  lemma MigrateRowTwice(row: UserAvailability, dates: seq<InterviewDate>, now: int, later: int)
    requires NeedsMigration(row)
    ensures var r := MigrateRow(row, dates, now);
      && (MigrationTarget(row, dates).Some? <==> !NeedsMigration(r))
      && (NeedsMigration(r) ==> MigrateRow(r, dates, later) == r)
  {
  }

  // ---------------------------------------------------------------------------
  // Counting

  /** The number of rows for which the migration looks up a matching interview date. */
  function LookedUpRows(rows: seq<UserAvailability>): (n: nat)
    ensures n <= |rows|
    decreases |rows|
  {
    if rows == [] then 0
    else LookedUpRows(rows[..|rows| - 1]) + (if HasDateAndTimes(rows[|rows| - 1]) then 1 else 0)
  }

  /** The number of rows the migration updates. */
  function MigratableRows(rows: seq<UserAvailability>, dates: seq<InterviewDate>): (n: nat)
    ensures n <= LookedUpRows(rows)
    decreases |rows|
  {
    if rows == [] then 0
    else MigratableRows(rows[..|rows| - 1], dates) + (if MigrationTarget(rows[|rows| - 1], dates).Some? then 1 else 0)
  }

  lemma {:induction false} LookedUpRowsPrefix(rows: seq<UserAvailability>, k: nat)
    requires k <= |rows|
    ensures LookedUpRows(rows[..k]) <= LookedUpRows(rows)
    decreases |rows| - k
  {
    if k < |rows| {
      assert rows[..k + 1][..k] == rows[..k];
      LookedUpRowsPrefix(rows, k + 1);
    } else {
      assert rows[..k] == rows;
    }
  }

  lemma {:induction false} MigratableRowsPrefix(rows: seq<UserAvailability>, dates: seq<InterviewDate>, k: nat)
    requires k <= |rows|
    ensures MigratableRows(rows[..k], dates) <= MigratableRows(rows, dates)
    decreases |rows| - k
  {
    if k < |rows| {
      assert rows[..k + 1][..k] == rows[..k];
      MigratableRowsPrefix(rows, dates, k + 1);
    } else {
      assert rows[..k] == rows;
    }
  }

  /** The result of a run over the `selected` rows: every selected row is counted once, as
      migrated or as skipped, unless a failing call that the run reaches is rethrown. */
  function Outcome(fault: MigrationFault, selected: seq<UserAvailability>, dates: seq<InterviewDate>): (r: MigrationResult)
    ensures r.Migrated? ==> r.migrated + r.skipped == r.total == |selected|
    ensures r.Migrated? ==> r.migrated == MigratableRows(selected, dates)
    ensures r.Rethrown? <==>
      || fault.FailSelect?
      || (fault.FailLookup? && fault.n < LookedUpRows(selected))
      || (fault.FailWrite? && fault.n < MigratableRows(selected, dates))
  {
    var done := Migrated(MigratableRows(selected, dates), |selected| - MigratableRows(selected, dates), |selected|);
    match fault
    case Clean => done
    case FailSelect(e) => Rethrown(e)
    case FailLookup(n, e) => if n < LookedUpRows(selected) then Rethrown(e) else done
    case FailWrite(n, e) => if n < MigratableRows(selected, dates) then Rethrown(e) else done
  }

  // ---------------------------------------------------------------------------
  // The run over the table

  /** `update user_availabilities set interview_date_id, updated_at where id = rowId` */
  method SetInterviewDateById(table: array<UserAvailability>, rowId: string, id: string, now: int)
    modifies table
    ensures forall j :: 0 <= j < table.Length ==>
      table[j] == if old(table[j]).id == rowId then SetInterviewDate(old(table[j]), id, now) else old(table[j])
  {
    for j := 0 to table.Length
      invariant forall i :: 0 <= i < j ==>
        table[i] == if old(table[i]).id == rowId then SetInterviewDate(old(table[i]), id, now) else old(table[i])
      invariant forall i :: j <= i < table.Length ==> table[i] == old(table[i])
    {
      if table[j].id == rowId {
        table[j] := SetInterviewDate(table[j], id, now);
      }
    }
  }

  /** The table `t` holds the migrated form of every original row among the rows `done`
      already processed, and every other original row as it was. */
  ghost predicate RowsMigratedFor(t: seq<UserAvailability>, orig: seq<UserAvailability>, done: seq<UserAvailability>,
                                  dates: seq<InterviewDate>, now: int) {
    |t| == |orig| &&
    forall j :: 0 <= j < |t| ==> t[j] == if orig[j] in done then MigrateRow(orig[j], dates, now) else orig[j]
  }

  /** Skipping a row keeps the table right. */
  lemma SkipStep(t: seq<UserAvailability>, orig: seq<UserAvailability>, done: seq<UserAvailability>,
                 row: UserAvailability, dates: seq<InterviewDate>, now: int)
    requires RowsMigratedFor(t, orig, done, dates, now)
    requires MigrationTarget(row, dates).None?
    ensures RowsMigratedFor(t, orig, done + [row], dates, now)
  {
  }

  /** Updating the rows with a selected row's id to its interview date keeps the table right. */
  lemma MigrateStep(before: seq<UserAvailability>, after: seq<UserAvailability>, orig: seq<UserAvailability>,
                    done: seq<UserAvailability>, row: UserAvailability, dates: seq<InterviewDate>, now: int,
                    d: InterviewDate)
    requires RowsMigratedFor(before, orig, done, dates, now)
    requires UniqueUserRowIds(orig) && row in orig
    requires MigrationTarget(row, dates) == Some(d)
    requires |after| == |before|
    requires forall j :: 0 <= j < |before| ==>
      after[j] == if before[j].id == row.id then SetInterviewDate(before[j], d.id, now) else before[j]
    ensures RowsMigratedFor(after, orig, done + [row], dates, now)
  {
    var i :| 0 <= i < |orig| && orig[i] == row;
    forall j | 0 <= j < |after|
      ensures after[j] == if orig[j] in done + [row] then MigrateRow(orig[j], dates, now) else orig[j]
    {
      if orig[j].id == row.id {
        assert j == i;
      }
    }
  }

  /** What processing one row comes to. */
  datatype Step = Skipped | Updated | Failed(thrown: Thrown)

  /** The body of the migration loop for one selected row, after `lookups` lookups and
      `updates` updates: skip it for missing data, fail on its lookup, skip it for want of
      a match, fail on its update, or migrate it. */
  method ProcessRow(table: array<UserAvailability>, row: UserAvailability, dates: seq<InterviewDate>, now: int,
                    fault: MigrationFault, lookups: nat, updates: nat,
                    ghost orig: seq<UserAvailability>, ghost done: seq<UserAvailability>)
    returns (step: Step)
    requires RowsMigratedFor(table[..], orig, done, dates, now)
    requires UniqueUserRowIds(orig) && row in orig
    modifies table
    ensures step.Failed? <==>
      || (HasDateAndTimes(row) && fault.FailLookup? && fault.n == lookups)
      || (MigrationTarget(row, dates).Some? && fault.FailWrite? && fault.n == updates)
    ensures step.Failed? ==> step.thrown == fault.thrown && table[..] == old(table[..])
    ensures !step.Failed? ==> (step.Skipped? <==> MigrationTarget(row, dates).None?)
    ensures !step.Failed? ==> RowsMigratedFor(table[..], orig, done + [row], dates, now)
  {
    if row.date.None? || row.startTime.None? || row.endTime.None? {
      SkipStep(table[..], orig, done, row, dates, now);
      return Skipped;
    }
    if fault.FailLookup? && fault.n == lookups {
      return Failed(fault.thrown);
    }
    var matching := FirstCovering(dates, row.date.value, row.startTime.value, row.endTime.value);
    if matching.None? {
      SkipStep(table[..], orig, done, row, dates, now);
      return Skipped;
    }
    if fault.FailWrite? && fault.n == updates {
      return Failed(fault.thrown);
    }
    ghost var before := table[..];
    SetInterviewDateById(table, row.id, matching.value.id, now);
    MigrateStep(before, table[..], orig, done, row, dates, now, matching.value);
    return Updated;
  }

  /** The loop of `migrateUserAvailabilities` over the selected `rows` of the table. */
  method MigrateRows(table: array<UserAvailability>, rows: seq<UserAvailability>, dates: seq<InterviewDate>,
                     now: int, fault: MigrationFault, ghost orig: seq<UserAvailability>)
    returns (result: MigrationResult)
    requires table[..] == orig && UniqueUserRowIds(orig)
    requires forall row :: row in rows ==> row in orig
    requires !fault.FailSelect?
    modifies table
    ensures result == Outcome(fault, rows, dates)
    ensures result.Migrated? ==> RowsMigratedFor(table[..], orig, rows, dates, now)
    ensures exists done :: RowsMigratedFor(table[..], orig, done, dates, now)
  {
    var lookups, migrated, skipped := 0, 0, 0;
    for k := 0 to |rows|
      invariant migrated + skipped == k
      invariant lookups == LookedUpRows(rows[..k])
      invariant migrated == MigratableRows(rows[..k], dates)
      invariant fault.FailLookup? ==> fault.n >= lookups
      invariant fault.FailWrite? ==> fault.n >= migrated
      invariant RowsMigratedFor(table[..], orig, rows[..k], dates, now)
    {
      assert rows[..k + 1] == rows[..k] + [rows[k]];
      assert rows[..k + 1][..k] == rows[..k];
      var step := ProcessRow(table, rows[k], dates, now, fault, lookups, migrated, orig, rows[..k]);
      if step.Failed? {
        LookedUpRowsPrefix(rows, k + 1);
        MigratableRowsPrefix(rows, dates, k + 1);
        return Rethrown(step.thrown);
      }
      if HasDateAndTimes(rows[k]) {
        lookups := lookups + 1;
      }
      if step.Updated? {
        migrated := migrated + 1;
      } else {
        skipped := skipped + 1;
      }
    }
    assert rows[..|rows|] == rows;
    result := Migrated(migrated, skipped, |rows|);
  }

  /** Once all selected rows are processed, every row is in its migrated form: the others
      already have an interview date id and are not touched. */
  lemma AllRowsMigrated(t: seq<UserAvailability>, orig: seq<UserAvailability>, dates: seq<InterviewDate>, now: int)
    requires RowsMigratedFor(t, orig, Filter(orig, NeedsMigration), dates, now)
    ensures forall j :: 0 <= j < |t| ==>
      t[j] == if NeedsMigration(orig[j]) then MigrateRow(orig[j], dates, now) else orig[j]
  {
  }

  /** `migrateUserAvailabilities`: over the rows without an interview date id, gives each
      row that has its date and times the id of an interview date that covers it, counting
      migrated and skipped rows. `now` is the clock reading written to `updatedAt`. On
      success every selected row is migrated; after a failure every row is either as it was
      or migrated. */
  method MigrateUserAvailabilities(table: array<UserAvailability>, dates: seq<InterviewDate>, now: int,
                                   fault: MigrationFault)
    returns (result: MigrationResult)
    requires UniqueUserRowIds(table[..])
    modifies table
    ensures result == Outcome(fault, Filter(old(table[..]), NeedsMigration), dates)
    ensures result.Migrated? ==> forall j :: 0 <= j < table.Length ==>
      table[j] == if NeedsMigration(old(table[j])) then MigrateRow(old(table[j]), dates, now) else old(table[j])
    ensures fault.FailSelect? ==> table[..] == old(table[..])
    ensures forall j :: 0 <= j < table.Length ==>
      table[j] == old(table[j]) || table[j] == MigrateRow(old(table[j]), dates, now)
  {
    if fault.FailSelect? {
      return Rethrown(fault.thrown);
    }
    ghost var orig := table[..];
    var rows := Filter(table[..], NeedsMigration);
    result := MigrateRows(table, rows, dates, now, fault, orig);
    if result.Migrated? {
      AllRowsMigrated(table[..], orig, dates, now);
    }
  }
}

/** The form that shows what the resume parser read (`RusheePreviewForm.tsx`): the
    normalisers that turn the parser's strings into values for the date and time inputs
    and back into the server's timestamp strings, and the form's state (the rushee's
    details and the editable list of availability rows) with its edit, remove, add and
    submit operations. `new Date(s)` is the parameter `parse` (its time value, `None` for
    NaN) and the local calendar date of an instant the parameter `localDate`, since both
    depend on the engine and the time zone. */
module PreviewForm {
  import opened Wrappers
  import opened Text
  import opened Seqs
  import opened Calendar
  import opened Records

  // ---------------------------------------------------------------------------
  // Normalisers

  /** `formatTimeForInput`: a time for an `<input type="time">` (`HH:MM`), or "". */
  function FormatTimeForInput(s: string, parse: string -> Option<int>): string {
    if s == "" then ""
    else if IsTimeShape(s) then s
    else if IsTimeWithSecondsShape(s) then s[..5]
    else match parse(s)
      case None => ""
      case Some(t) => PadStart(NatToString(UtcHours(t)), 2, '0') + ":" + PadStart(NatToString(UtcMinutes(t)), 2, '0')
  }

  /** What the time normaliser gives is "" or an `HH:MM` string, so a second pass leaves it
      as it is. A string that is already `HH:MM` is kept, an `HH:MM:SS` string loses its
      seconds, and anything else that parses is written as the UTC hours and minutes of the
      instant, which read back as those numbers. */
  lemma FormatTimeForInputShape(s: string, parse: string -> Option<int>)
    ensures var r := FormatTimeForInput(s, parse);
      && (r == "" || IsTimeShape(r))
      && FormatTimeForInput(r, parse) == r
      && (s == "" ==> r == "")
      && (IsTimeShape(s) ==> r == s)
      && (IsTimeWithSecondsShape(s) ==> r == s[..5])
      && (s != "" && !IsTimeShape(s) && !IsTimeWithSecondsShape(s) ==>
            && (r == "" <==> parse(s).None?)
            && (parse(s).Some? ==>
                  DigitsValue(r[0..2]) == UtcHours(parse(s).value) && DigitsValue(r[3..5]) == UtcMinutes(parse(s).value)))
  {
    if s != "" && !IsTimeShape(s) && !IsTimeWithSecondsShape(s) && parse(s).Some? {
      UtcTimeString(parse(s).value);
    } else if IsTimeWithSecondsShape(s) {
      assert IsTimeShape(s[..5]);
    }
  }

  /** The `HH:MM` string of the UTC hours and minutes of an instant is `HH:MM` and reads
      back as those numbers. */
  lemma UtcTimeString(t: int)
    ensures var r := PadStart(NatToString(UtcHours(t)), 2, '0') + ":" + PadStart(NatToString(UtcMinutes(t)), 2, '0');
      IsTimeShape(r) && DigitsValue(r[0..2]) == UtcHours(t) && DigitsValue(r[3..5]) == UtcMinutes(t)
  {
    var hh, mm := PadStart(NatToString(UtcHours(t)), 2, '0'), PadStart(NatToString(UtcMinutes(t)), 2, '0');
    TwoDigits(UtcHours(t));
    TwoDigits(UtcMinutes(t));
    TimeString(hh, mm);
  }

  lemma TimeString(hh: string, mm: string)
    requires |hh| == 2 && |mm| == 2 && AllDigits(hh) && AllDigits(mm)
    ensures var r := hh + ":" + mm;
      IsTimeShape(r) && r[0..2] == hh && r[3..5] == mm
  {
    var r := hh + ":" + mm;
    assert r[0..2] == hh && r[3..5] == mm;
  }

  /** `formatDateForInput`: a date for an `<input type="date">` (`YYYY-MM-DD`), or "". */
  function FormatDateForInput(s: string, parse: string -> Option<int>, localDate: int -> CivilDate): string {
    if s == "" then ""
    else if IsDateShape(s) then s
    else match parse(s)
      case None => ""
      case Some(t) =>
        var c := localDate(t);
        IntToString(c.year) + "-" + PadStart(IntToString(c.month), 2, '0') + "-" + PadStart(IntToString(c.day), 2, '0')
  }

  /** A `YYYY-MM-DD` string is kept and "" stays "". Anything else that parses is written
      from its local date, which is `YYYY-MM-DD` again, and so kept by a second pass, when
      the year has four digits and month and day are below 100. */
  lemma FormatDateForInputShape(s: string, parse: string -> Option<int>, localDate: int -> CivilDate)
    ensures var r := FormatDateForInput(s, parse, localDate);
      && (s == "" ==> r == "")
      && (IsDateShape(s) ==> r == s)
      && (s != "" && !IsDateShape(s) ==> (r == "" <==> parse(s).None?))
      && (s != "" && !IsDateShape(s) && parse(s).Some? ==>
            var c := localDate(parse(s).value);
            1000 <= c.year <= 9999 && 0 <= c.month < 100 && 0 <= c.day < 100 ==>
              && IsDateShape(r)
              && DigitsValue(r[0..4]) == c.year && DigitsValue(r[5..7]) == c.month && DigitsValue(r[8..10]) == c.day
              && FormatDateForInput(r, parse, localDate) == r)
  {
    if s != "" && !IsDateShape(s) && parse(s).Some? {
      var c := localDate(parse(s).value);
      if 1000 <= c.year <= 9999 && 0 <= c.month < 100 && 0 <= c.day < 100 {
        LocalDateString(c);
      }
    }
  }

  /** The `${year}-${month}-${day}` string of a date with a four-digit year and month and day
      below 100 is `YYYY-MM-DD` and reads back as the date. */
  lemma LocalDateString(c: CivilDate)
    requires 1000 <= c.year <= 9999 && 0 <= c.month < 100 && 0 <= c.day < 100
    ensures var r := IntToString(c.year) + "-" + PadStart(IntToString(c.month), 2, '0') + "-" +
                     PadStart(IntToString(c.day), 2, '0');
      && IsDateShape(r)
      && DigitsValue(r[0..4]) == c.year && DigitsValue(r[5..7]) == c.month && DigitsValue(r[8..10]) == c.day
  {
    var yyyy := NatToString(c.year);
    var mm, dd := PadStart(NatToString(c.month), 2, '0'), PadStart(NatToString(c.day), 2, '0');
    assert IntToString(c.year) == yyyy;
    assert PadStart(IntToString(c.month), 2, '0') == mm && PadStart(IntToString(c.day), 2, '0') == dd;
    FourDigits(c.year);
    DigitsValueOfNatToString(c.year);
    TwoDigits(c.month);
    TwoDigits(c.day);
    DateString(yyyy, mm, dd);
  }

  lemma DateString(yyyy: string, mm: string, dd: string)
    requires |yyyy| == 4 && |mm| == 2 && |dd| == 2 && AllDigits(yyyy) && AllDigits(mm) && AllDigits(dd)
    ensures var r := yyyy + "-" + mm + "-" + dd;
      IsDateShape(r) && r[0..4] == yyyy && r[5..7] == mm && r[8..10] == dd
  {
    var r := yyyy + "-" + mm + "-" + dd;
    assert r[0..4] == yyyy && r[5..7] == mm && r[8..10] == dd;
  }

  /** A year from 1000 to 9999 is written with four digits. */
  lemma FourDigits(n: nat)
    requires 1000 <= n <= 9999
    ensures |NatToString(n)| == 4
  {
    assert NatToString(n) == NatToString(n / 10) + [DigitChar(n % 10)];
    assert NatToString(n / 10) == NatToString(n / 100) + [DigitChar(n / 10 % 10)];
    assert NatToString(n / 100) == NatToString(n / 1000) + [DigitChar(n / 100 % 10)];
    assert |NatToString(n / 1000)| == 1;
  }

  /** `formatTimeForServer`: the date, `T`, the time and `:00.000Z`, or "" when either part
      is empty. */
  function FormatTimeForServer(time: string, date: string): string {
    if time == "" || date == "" then "" else date + "T" + time + ":00.000Z"
  }

  /** For a `YYYY-MM-DD` date and an `HH:MM` time the server string is the date-time of
      section 5.6 of RFC 3339 with those fields, zero seconds and a zero fraction, in the
      24 characters `toISOString` writes; the date and the time can be read back from it. */
  lemma FormatTimeForServerShape(time: string, date: string)
    requires IsDateShape(date) && IsTimeShape(time)
    ensures var r := FormatTimeForServer(time, date);
      var s := date + "T" + time + ":00Z";
      && |r| == 24 && r == s[..19] + ".000Z"
      && IsUtcDateTimeShape(s)
      && Fields(s) == DateTimeFields(DigitsValue(date[0..4]), DigitsValue(date[5..7]), DigitsValue(date[8..10]),
                                     DigitsValue(time[0..2]), DigitsValue(time[3..5]), 0)
      && r[..10] == date && r[11..16] == time
  {
    DateTimeStringFields(date, time);
    var s := date + "T" + time + ":00Z";
    assert s[..19] == date + "T" + time + ":00";
  }

  // ---------------------------------------------------------------------------
  // The rows of the form

  /** An availability row of the form: the three input values. */
  datatype FormRow = FormRow(date: string, startTime: string, endTime: string)

  /** The fields a row edit names. */
  datatype RowField = DateField | StartTimeField | EndTimeField

  /** The fields a rushee edit names. */
  datatype RusheeField = NameField | EmailField | PhoneNumberField | MajorField

  /** An availability as submitted: the date and the two server timestamp strings. */
  datatype ServerRow = ServerRow(date: string, startTime: string, endTime: string)

  /** What submitting sends to the save action. */
  datatype Submission = Submission(
    name: string, email: string, phoneNumber: string, major: string, availabilities: seq<ServerRow>)

  const BlankRow := FormRow("", "", "")

  /** A parsed availability as the form first shows it. */
  function InitialRow(a: ParsedAvailability, parse: string -> Option<int>, localDate: int -> CivilDate): FormRow {
    FormRow(FormatDateForInput(a.date, parse, localDate), FormatTimeForInput(a.startTime, parse),
            FormatTimeForInput(a.endTime, parse))
  }

  /** `{ ...avail, [field]: value }` */
  function SetField(row: FormRow, field: RowField, value: string): FormRow {
    match field
    case DateField => row.(date := value)
    case StartTimeField => row.(startTime := value)
    case EndTimeField => row.(endTime := value)
  }

  /** `avail.date && avail.startTime && avail.endTime`: the row is kept on submit. */
  predicate IsComplete(row: FormRow) {
    row.date != "" && row.startTime != "" && row.endTime != ""
  }

  function ToServerRow(row: FormRow): ServerRow {
    ServerRow(row.date, FormatTimeForServer(row.startTime, row.date), FormatTimeForServer(row.endTime, row.date))
  }

  /** `validAvailabilities`: the complete rows, in order, with their times converted. */
  function ValidAvailabilities(rows: seq<FormRow>): seq<ServerRow> {
    Map(Filter(rows, IsComplete), ToServerRow)
  }

  /** Submitting keeps exactly the complete rows, in their order: a row more at the end
      adds its converted form when it is complete and nothing otherwise. Every submitted
      row has a date and two non-empty timestamps on that date. */
  lemma {:induction false} ValidAvailabilitiesSnoc(rows: seq<FormRow>, row: FormRow)
    ensures ValidAvailabilities(rows + [row]) ==
      ValidAvailabilities(rows) + (if IsComplete(row) then [ToServerRow(row)] else [])
  {
    FilterSnoc(rows, row, IsComplete);
    var before := Filter(rows, IsComplete);
    var extra := if IsComplete(row) then [row] else [];
    assert Map(before + extra, ToServerRow) == Map(before, ToServerRow) + Map(extra, ToServerRow);
  }

  /** `v` is what row `row` is submitted as: its date, and its times on that date. */
  predicate SubmittedAs(row: FormRow, v: ServerRow) {
    IsComplete(row) && v == ToServerRow(row) &&
    v.startTime == row.date + "T" + row.startTime + ":00.000Z" &&
    v.endTime == row.date + "T" + row.endTime + ":00.000Z"
  }

  /** Nothing is submitted exactly when no row is complete; every submitted row comes from
      a complete row, with its date kept and its times converted on that date. */
  lemma ValidAvailabilitiesSpec(rows: seq<FormRow>)
    ensures ValidAvailabilities(rows) == [] <==> forall row :: row in rows ==> !IsComplete(row)
    ensures forall v :: v in ValidAvailabilities(rows) ==> exists row :: row in rows && SubmittedAs(row, v)
  {
    var kept := Filter(rows, IsComplete);
    if ValidAvailabilities(rows) == [] {
      assert kept == [];
    } else {
      assert kept[0] in kept;
    }
    forall v | v in ValidAvailabilities(rows) ensures exists row :: row in rows && SubmittedAs(row, v) {
      var i :| 0 <= i < |kept| && ValidAvailabilities(rows)[i] == v;
      assert kept[i] in kept;
      assert SubmittedAs(kept[i], v);
    }
  }

  /** The rows after `handleAvailabilityChange(index, field, value)`. */
  function EditRows(rows: seq<FormRow>, index: int, field: RowField, value: string): seq<FormRow> {
    seq(|rows|, i requires 0 <= i < |rows| => if i == index then SetField(rows[i], field, value) else rows[i])
  }

  /** The rows after `removeAvailability(index)`. */
  function RemoveRow(rows: seq<FormRow>, index: int): seq<FormRow> {
    if 0 <= index < |rows| then rows[..index] + rows[index + 1..] else rows
  }

  /** Adding a blank row changes what is submitted in no way, and neither does removing a
      row that is not complete. */
  lemma BlankRowsAreNotSubmitted(rows: seq<FormRow>, index: int)
    ensures ValidAvailabilities(rows + [BlankRow]) == ValidAvailabilities(rows)
    ensures 0 <= index < |rows| && !IsComplete(rows[index]) ==>
      ValidAvailabilities(RemoveRow(rows, index)) == ValidAvailabilities(rows)
  {
    ValidAvailabilitiesSnoc(rows, BlankRow);
    if 0 <= index < |rows| && !IsComplete(rows[index]) {
      RemoveIncomplete(rows, index);
    }
  }

  lemma {:induction false} RemoveIncomplete(rows: seq<FormRow>, index: nat)
    requires index < |rows| && !IsComplete(rows[index])
    ensures ValidAvailabilities(RemoveRow(rows, index)) == ValidAvailabilities(rows)
    decreases |rows|
  {
    var init := rows[..|rows| - 1];
    var last := rows[|rows| - 1];
    assert rows == init + [last];
    if index == |rows| - 1 {
      assert RemoveRow(rows, index) == init;
      ValidAvailabilitiesSnoc(init, last);
    } else {
      RemoveIncomplete(init, index);
      assert RemoveRow(rows, index) == RemoveRow(init, index) + [last];
      ValidAvailabilitiesSnoc(RemoveRow(init, index), last);
      ValidAvailabilitiesSnoc(init, last);
    }
  }

  // ---------------------------------------------------------------------------
  // The form's state

  class RusheePreviewForm {
    var name: string
    var email: string
    var phoneNumber: string
    var major: string
    var availabilities: seq<FormRow>

    /** The form as it first shows the parsed data: missing or empty optional details
        become "", and every availability is normalised for the inputs. */
    constructor (parsed: ParsedResponse, parse: string -> Option<int>, localDate: int -> CivilDate)
      ensures name == parsed.rushee.name && email == parsed.rushee.email
      ensures phoneNumber == parsed.rushee.phoneNumber.GetOr("") && major == parsed.rushee.major.GetOr("")
      ensures |availabilities| == |parsed.availabilities|
      ensures forall i :: 0 <= i < |availabilities| ==>
        availabilities[i] == InitialRow(parsed.availabilities[i], parse, localDate)
    {
      name := parsed.rushee.name;
      email := parsed.rushee.email;
      phoneNumber := parsed.rushee.phoneNumber.GetOr("");
      major := parsed.rushee.major.GetOr("");
      availabilities := seq(|parsed.availabilities|, i requires 0 <= i < |parsed.availabilities| =>
        InitialRow(parsed.availabilities[i], parse, localDate));
    }

    /** `handleRusheeDataChange`: sets the named detail and nothing else. */
    method HandleRusheeDataChange(field: RusheeField, value: string)
      modifies this
      ensures name == (if field == NameField then value else old(name))
      ensures email == (if field == EmailField then value else old(email))
      ensures phoneNumber == (if field == PhoneNumberField then value else old(phoneNumber))
      ensures major == (if field == MajorField then value else old(major))
      ensures availabilities == old(availabilities)
    {
      match field
      case NameField => name := value;
      case EmailField => email := value;
      case PhoneNumberField => phoneNumber := value;
      case MajorField => major := value;
    }

    /** `handleAvailabilityChange`: sets one field of row `index`; the other rows, the other
        fields and the number of rows stay, and an index outside the list changes nothing. */
    method HandleAvailabilityChange(index: int, field: RowField, value: string)
      modifies this
      ensures availabilities == EditRows(old(availabilities), index, field, value)
      ensures |availabilities| == |old(availabilities)|
      ensures forall i :: 0 <= i < |availabilities| && i != index ==> availabilities[i] == old(availabilities[i])
      ensures 0 <= index < |availabilities| ==>
        availabilities[index] == SetField(old(availabilities[index]), field, value)
      ensures name == old(name) && email == old(email) && phoneNumber == old(phoneNumber) && major == old(major)
    {
      availabilities := EditRows(availabilities, index, field, value);
    }

    /** `removeAvailability`: drops exactly row `index`, keeping the others in order. */
    method RemoveAvailability(index: int)
      modifies this
      ensures availabilities == RemoveRow(old(availabilities), index)
      ensures 0 <= index < |old(availabilities)| ==>
        |availabilities| == |old(availabilities)| - 1 &&
        (forall i :: 0 <= i < index ==> availabilities[i] == old(availabilities[i])) &&
        (forall i :: index <= i < |availabilities| ==> availabilities[i] == old(availabilities[i + 1]))
      ensures name == old(name) && email == old(email) && phoneNumber == old(phoneNumber) && major == old(major)
    {
      availabilities := RemoveRow(availabilities, index);
    }

    /** `addAvailability`: appends one blank row. */
    method AddAvailability()
      modifies this
      ensures availabilities == old(availabilities) + [BlankRow]
      ensures name == old(name) && email == old(email) && phoneNumber == old(phoneNumber) && major == old(major)
    {
      availabilities := availabilities + [BlankRow];
    }

    /** `handleSubmit`: what is sent to the save action, or `None` when no row is complete,
        in which case nothing is sent. */
    function SubmitPayload(): (r: Option<Submission>)
      reads this
      ensures r.None? <==> forall row :: row in availabilities ==> !IsComplete(row)
      ensures r.Some? ==>
        r.value.name == name && r.value.email == email && r.value.phoneNumber == phoneNumber &&
        r.value.major == major && r.value.availabilities == ValidAvailabilities(availabilities)
    {
      ValidAvailabilitiesSpec(availabilities);
      var valid := ValidAvailabilities(availabilities);
      if valid == [] then None else Some(Submission(name, email, phoneNumber, major, valid))
    }

    /** The submit button is disabled while the save is pending, when the name or the email
        is empty, or when there are no rows. */
    predicate SubmitDisabled(isPending: bool)
      reads this
    {
      isPending || name == "" || email == "" || |availabilities| == 0
    }

    /** An enabled button with only complete rows submits them all. An enabled button does
        not by itself mean something is sent: rows may all be incomplete. */
    lemma EnabledSubmit(isPending: bool)
      requires !SubmitDisabled(isPending)
      requires forall row :: row in availabilities ==> IsComplete(row)
      ensures SubmitPayload().Some?
      ensures |SubmitPayload().value.availabilities| == |availabilities|
    {
      FilterAll(availabilities, IsComplete);
      assert availabilities[0] in availabilities;
    }
  }
}

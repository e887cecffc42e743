/** The interview grid (`InterviewScheduler.tsx`): one tab per interview date, one row per
    rushee, one column per half-hour slot from 9:00 to 21:00, and for every cell the decision
    whether the rushee is free, which interviewers could take the slot, and whether it is
    already booked. */
module InterviewScheduler {
  import opened Wrappers
  import opened Text
  import opened Seqs
  import opened Calendar
  import opened Records
  import opened TimeSlotCell

  const FirstHour := 9
  const EndHour := 21
  /** `addMinutes(slotStart, 30)` */
  const SlotLength := 1_800_000
  /** An assignment books a slot when it starts less than this many milliseconds away. */
  const BookingTolerance := 1000

  const NoInterviewDatesText := "No interview dates found. Please create interview dates first."
  const NoRusheesText := "No rushees found. Please add rushees first."

  // ---------------------------------------------------------------------------
  // The slot labels

  /** `${hour}:00` or `${hour}:30`. */
  function SlotLabel(hour: int, half: bool): string {
    IntToString(hour) + ":" + (if half then "30" else "00")
  }

  /** The labels `generateTimeSlots` produces: two per hour from `startHour` up to but not
      including `endHour`. */
  function TimeSlots(startHour: int, endHour: int): seq<string> {
    var n := if startHour < endHour then 2 * (endHour - startHour) else 0;
    seq(n, i => SlotLabel(startHour + i / 2, i % 2 == 1))
  }

  /** `generateTimeSlots`: the on-the-hour and half-past labels of every hour in turn. */
  method GenerateTimeSlots(startHour: int, endHour: int) returns (slots: seq<string>)
    ensures |slots| == if startHour < endHour then 2 * (endHour - startHour) else 0
    ensures forall i :: 0 <= i < |slots| ==> slots[i] == SlotLabel(startHour + i / 2, i % 2 == 1)
    ensures slots == TimeSlots(startHour, endHour)
  {
    slots := [];
    var hour := startHour;
    while hour < endHour
      invariant startHour <= hour
      invariant startHour < endHour ==> hour <= endHour
      invariant startHour >= endHour ==> hour == startHour
      invariant |slots| == 2 * (hour - startHour)
      invariant forall i :: 0 <= i < |slots| ==> slots[i] == SlotLabel(startHour + i / 2, i % 2 == 1)
    {
      slots := slots + [IntToString(hour) + ":00"];
      slots := slots + [IntToString(hour) + ":30"];
      hour := hour + 1;
    }
  }

  /** The grid runs from "9:00" to "20:30" in 24 half-hour steps. */
  lemma GridSlots()
    ensures |TimeSlots(FirstHour, EndHour)| == 24
    ensures TimeSlots(FirstHour, EndHour)[0] == "9:00"
    ensures TimeSlots(FirstHour, EndHour)[23] == "20:30"
  {
    assert IntToString(9) == "9";
    assert NatToString(2) == "2";
    assert IntToString(20) == NatToString(2) + "0";
  }

  /** `padTime`: the text before the first `:` and the text after it (up to any second `:`),
      each left-padded with zeros to two characters. `None` when there is no `:`, where the
      code would call `padStart` on `undefined` and throw. */
  function PadTime(slot: string): (r: Option<string>)
    ensures r.None? <==> ':' !in slot
  {
    IncludesChar(slot, ':');
    var parts := Split(slot, ':');
    if |parts| < 2 then None
    else Some(PadStart(parts[0], 2, '0') + ":" + PadStart(parts[1], 2, '0'))
  }

  /** `padTime` of `hour:minute` pads each side on its own and leaves longer ones alone. */
  lemma PadTimeOfParts(hour: string, minute: string)
    requires ':' !in hour && ':' !in minute
    ensures PadTime(hour + ":" + minute) == Some(PadStart(hour, 2, '0') + ":" + PadStart(minute, 2, '0'))
  {
    assert [hour, minute][1..] == [minute];
    assert Join([hour, minute], ":") == hour + ":" + minute;
    SplitJoin([hour, minute], ':');
  }

  /** The decimal form of an hour below 100 has at most two digits and no `:`. */
  lemma ShortHour(hour: nat)
    requires hour < 100
    ensures |NatToString(hour)| <= 2 && ':' !in NatToString(hour)
  {
    var h := NatToString(hour);
    if hour >= 10 {
      assert h == NatToString(hour / 10) + [DigitChar(hour % 10)];
    }
    forall k | 0 <= k < |h| ensures h[k] != ':' {
      assert IsDigit(h[k]);
    }
  }

  /** The two minute fields the grid uses, read as numbers. */
  lemma MinuteDigits(half: bool)
    ensures var m := if half then "30" else "00";
      AllDigits(m) && DigitsValue(m) == (if half then 30 else 0)
  {
    if half {
      assert "30"[..1] == "3" && "3"[..0] == "";
    } else {
      assert "00"[..1] == "0" && "0"[..0] == "";
    }
  }

  /** Two digits, `:` and two digits make a well-formed `HH:MM` with those values. */
  lemma TimeShapeOfParts(hh: string, mm: string, hour: nat, minute: nat)
    requires |hh| == 2 && AllDigits(hh) && DigitsValue(hh) == hour
    requires |mm| == 2 && AllDigits(mm) && DigitsValue(mm) == minute
    ensures IsTimeShape(hh + ":" + mm)
    ensures DigitsValue((hh + ":" + mm)[0..2]) == hour
    ensures DigitsValue((hh + ":" + mm)[3..5]) == minute
  {
    var p := hh + ":" + mm;
    assert |p| == 5 && p[2] == ':';
    assert p[0..2] == hh;
    assert p[3..5] == mm;
  }

  /** A label of a two-digit hour pads to a well-formed `HH:MM` naming that hour and minute. */
  lemma SlotLabelPadded(hour: nat, half: bool)
    requires hour < 100
    ensures PadTime(SlotLabel(hour, half)).Some?
    ensures var p := PadTime(SlotLabel(hour, half)).value;
      && IsTimeShape(p)
      && DigitsValue(p[0..2]) == hour
      && DigitsValue(p[3..5]) == (if half then 30 else 0)
  {
    var h := NatToString(hour);
    var mm := if half then "30" else "00";
    var hh := PadStart(h, 2, '0');
    assert |hh| == 2 && AllDigits(hh) && DigitsValue(hh) == hour by {
      ShortHour(hour);
      PaddedNatValue(hour, 2);
    }
    assert PadTime(SlotLabel(hour, half)) == Some(hh + ":" + mm) by {
      ShortHour(hour);
      PadTimeOfParts(h, mm);
      assert PadStart(mm, 2, '0') == mm;
    }
    MinuteDigits(half);
    TimeShapeOfParts(hh, mm, hour, if half then 30 else 0);
  }

  /** Every grid label pads to a well-formed `HH:MM` naming the hour and minute the slot
      starts at. */
  lemma GridLabelPadded(i: nat)
    requires i < 24
    ensures PadTime(TimeSlots(FirstHour, EndHour)[i]).Some?
    ensures var p := PadTime(TimeSlots(FirstHour, EndHour)[i]).value;
      && IsTimeShape(p)
      && DigitsValue(p[0..2]) == FirstHour + i / 2
      && DigitsValue(p[3..5]) == 30 * (i % 2)
  {
    var hour, half := FirstHour + i / 2, i % 2 == 1;
    assert TimeSlots(FirstHour, EndHour)[i] == SlotLabel(hour, half);
    assert (if half then 30 else 0) == 30 * (i % 2);
    SlotLabelPadded(hour, half);
  }

  // ---------------------------------------------------------------------------
  // Slot instants

  /** `new Date(`${date}T${padTime(slot)}:00Z`).getTime()`; `None` is an Invalid Date. */
  function SlotStart(day: string, slot: string): Option<int> {
    match PadTime(slot)
    case None => None
    case Some(padded) => ParseUtcDateTime(day + "T" + padded + ":00Z")
  }

  /** `addMinutes(slotStart, 30)`; an Invalid Date stays invalid. */
  function SlotEnd(slotStart: Option<int>): Option<int> {
    match slotStart
    case None => None
    case Some(t) => Some(t + SlotLength)
  }

  /** A slot whose label pads to `HH:MM` on a valid day starts that many hours and minutes
      after the day's midnight. */
  lemma SlotStartAt(day: string, slot: string, hour: nat, minute: nat)
    requires Midnight(day).Some?
    requires PadTime(slot).Some? && IsTimeShape(PadTime(slot).value)
    requires DigitsValue(PadTime(slot).value[0..2]) == hour < 24
    requires DigitsValue(PadTime(slot).value[3..5]) == minute <= 59
    ensures SlotStart(day, slot).Some? && SlotStart(day, slot).value == AtTimeOfDay(Midnight(day).value, hour, minute)
  {
    assert IsDateShape(day) by {
      var a := day + "T00:00:00Z";
      assert IsUtcDateTimeShape(a);
      assert a[..10] == day;
    }
    ParseAtTimeOfDay(day, PadTime(slot).value, hour, minute);
  }

  /** Where grid slot `i` starts, in milliseconds after midnight: 9:00 plus 30 minutes a slot. */
  function GridOffset(i: int): int {
    (FirstHour * 60 + 30 * i) * MsPerMinute
  }

  /** The hour and minute of grid label `i` name the instant `GridOffset(i)` after midnight. */
  lemma GridOffsetOfLabel(midnight: int, i: nat)
    ensures AtTimeOfDay(midnight, FirstHour + i / 2, 30 * (i % 2)) == midnight + GridOffset(i)
  {
    assert i == 2 * (i / 2) + i % 2;
  }

  /** Slot `i` of a valid day starts `9:00 + 30·i` minutes after that day's midnight. */
  lemma GridSlotStart(day: string, i: nat)
    requires i < 24
    requires Midnight(day).Some?
    ensures var start := SlotStart(day, TimeSlots(FirstHour, EndHour)[i]);
      start.Some? && start.value == Midnight(day).value + GridOffset(i)
  {
    var slot, midnight := TimeSlots(FirstHour, EndHour)[i], Midnight(day).value;
    var hour, minute := FirstHour + i / 2, 30 * (i % 2);
    assert SlotStart(day, slot).Some? && SlotStart(day, slot).value == AtTimeOfDay(midnight, hour, minute) by {
      GridLabelPadded(i);
      SlotStartAt(day, slot, hour, minute);
    }
    GridOffsetOfLabel(midnight, i);
  }

  /** A slot that starts `GridOffset(i)` after midnight ends where slot `i + 1` starts. */
  lemma SlotEndOffset(start: Option<int>, midnight: int, i: nat)
    requires start.Some? && start.value == midnight + GridOffset(i)
    ensures SlotEnd(start).Some? && SlotEnd(start).value == midnight + GridOffset(i + 1)
  {
  }

  /** The slots of a valid day follow each other without gap or overlap: each ends where
      the next begins, and the last ends at 21:00. */
  lemma GridSlotsContiguous(day: string, i: nat)
    requires i < 24
    requires Midnight(day).Some?
    ensures var slots := TimeSlots(FirstHour, EndHour);
      var end := SlotEnd(SlotStart(day, slots[i]));
      && end.Some?
      && (i + 1 < 24 ==> SlotStart(day, slots[i + 1]).Some? && end.value == SlotStart(day, slots[i + 1]).value)
      && (i == 23 ==> end.value == Midnight(day).value + EndHour * MsPerHour)
  {
    var slots, midnight := TimeSlots(FirstHour, EndHour), Midnight(day).value;
    GridSlotStart(day, i);
    SlotEndOffset(SlotStart(day, slots[i]), midnight, i);
    if i + 1 < 24 {
      GridSlotStart(day, i + 1);
    } else {
      assert GridOffset(i + 1) == EndHour * MsPerHour;
    }
  }

  // ---------------------------------------------------------------------------
  // Tabs and the rows that belong to each day

  /** The day key of an interview date. */
  function DateKey(d: InterviewDate): string {
    DayKey(d.date)
  }

  /** `distinctDates`: the day keys sorted by character codes (duplicates are kept). */
  function DistinctDates(dates: seq<InterviewDate>): (r: seq<string>)
    ensures |r| == |dates|
    ensures multiset(r) == multiset(Map(dates, DateKey))
  {
    var r := SortBy(Map(dates, DateKey), StrLe);
    assert |r| == |multiset(r)| == |multiset(Map(dates, DateKey))| == |dates|;
    r
  }

  /** The tabs come in ascending order and there is one per interview date. */
  lemma DistinctDatesSorted(dates: seq<InterviewDate>)
    ensures var r := DistinctDates(dates);
      && (forall i, j :: 0 <= i < j < |r| ==> StrLe(r[i], r[j]))
      && (forall d :: d in dates ==> DateKey(d) in r)
      && (forall k :: k in r ==> exists d :: d in dates && DateKey(d) == k)
  {
    SortedKeys(dates, DateKey);
  }

  /** A nullable date falls on the given day key; a null date falls on no day. */
  predicate OnDay(date: Option<int>, day: string) {
    date.Some? && DayKey(date.value) == day
  }

  function RusheeAvailabilitiesForDay(avs: seq<RusheeAvailability>, day: string): seq<RusheeAvailability> {
    Filter(avs, (a: RusheeAvailability) => OnDay(a.date, day))
  }

  function UserAvailabilitiesForDay(uas: seq<UserAvailabilityExtended>, day: string): seq<UserAvailabilityExtended> {
    Filter(uas, (ua: UserAvailabilityExtended) => OnDay(ua.row.date, day))
  }

  /** `interviewDates.find(id => id.id === interviewDateId)` */
  function InterviewDateById(dates: seq<InterviewDate>, id: string): Option<InterviewDate> {
    Find(dates, (d: InterviewDate) => d.id == id)
  }

  /** An assignment belongs to a day through the first interview date with its id; one
      whose id matches no interview date belongs to no day. */
  predicate AssignmentOnDay(dates: seq<InterviewDate>, a: InterviewAssignment, day: string) {
    var d := InterviewDateById(dates, a.interviewDateId);
    d.Some? && DayKey(d.value.date) == day
  }

  function AssignmentsForDay(asgs: seq<InterviewAssignment>, dates: seq<InterviewDate>, day: string): seq<InterviewAssignment> {
    Filter(asgs, (a: InterviewAssignment) => AssignmentOnDay(dates, a, day))
  }

  /** The interview date handed to the cells of a day: the first one on that day. */
  function InterviewDateForDay(dates: seq<InterviewDate>, day: string): (r: Option<InterviewDate>)
    ensures r.Some? ==> r.value in dates && DayKey(r.value.date) == day
    ensures r.None? <==> forall d :: d in dates ==> DayKey(d.date) != day
  {
    Find(dates, (d: InterviewDate) => DayKey(d.date) == day)
  }

  // ---------------------------------------------------------------------------
  // Matching a cell

  /** The window holds the whole slot. */
  predicate Contains(start: int, end: int, slotStart: int) {
    start <= slotStart && end >= slotStart + SlotLength
  }

  /** The window and the slot share more than an end point. */
  predicate Overlaps(start: int, end: int, slotStart: int) {
    start < slotStart + SlotLength && end > slotStart
  }

  /** A window that holds the slot also overlaps it. */
  lemma ContainsImpliesOverlaps(start: int, end: int, slotStart: int)
    requires Contains(start, end, slotStart)
    ensures Overlaps(start, end, slotStart)
  {
  }

  /** The rushee's availability has both times and holds the slot (an Invalid Date slot is
      held by nothing, as every comparison with NaN is false). */
  predicate RusheeCovers(a: RusheeAvailability, rusheeId: string, slotStart: Option<int>) {
    a.rusheeId == rusheeId && a.startTime.Some? && a.endTime.Some? && slotStart.Some? &&
    Contains(a.startTime.value, a.endTime.value, slotStart.value)
  }

  /** An interviewer availability has both times and overlaps the slot; whose it is does not
      matter. */
  predicate Offers(ua: UserAvailabilityExtended, slotStart: Option<int>) {
    ua.row.startTime.Some? && ua.row.endTime.Some? && slotStart.Some? &&
    Overlaps(ua.row.startTime.value, ua.row.endTime.value, slotStart.value)
  }

  function Abs(x: int): nat {
    if x < 0 then -x else x
  }

  /** The assignment is for the rushee and starts within a second of the slot. */
  predicate Books(a: InterviewAssignment, rusheeId: string, slotStart: Option<int>) {
    a.rusheeId == rusheeId && slotStart.Some? && Abs(a.startTime - slotStart.value) < BookingTolerance
  }

  /** Everything the grid needs. */
  datatype SchedulerInput = SchedulerInput(
    interviewDates: seq<InterviewDate>,
    rushees: seq<Rushee>,
    rusheeAvailabilities: seq<RusheeAvailability>,
    userAvailabilities: seq<UserAvailabilityExtended>,
    interviewAssignments: seq<InterviewAssignment>)

  /** The props of the cell for `rushee` on `day` at the slot starting at `start`. */
  function CellAt(input: SchedulerInput, day: string, rushee: Rushee, start: Option<int>): CellProps {
    var booking := Find(AssignmentsForDay(input.interviewAssignments, input.interviewDates, day),
                        (a: InterviewAssignment) => Books(a, rushee.id, start));
    var covering := Filter(RusheeAvailabilitiesForDay(input.rusheeAvailabilities, day),
                           (a: RusheeAvailability) => RusheeCovers(a, rushee.id, start));
    var offered := Filter(UserAvailabilitiesForDay(input.userAvailabilities, day),
                          (ua: UserAvailabilityExtended) => Offers(ua, start));
    CellProps(|covering| > 0, covering, offered, start, rushee.id,
              InterviewDateForDay(input.interviewDates, day), booking.Some?, booking)
  }

  /** The props of the cell for `rushee` at slot label `slot` on `day`. */
  function Cell(input: SchedulerInput, day: string, rushee: Rushee, slot: string): CellProps {
    CellAt(input, day, rushee, SlotStart(day, slot))
  }

  /** The cell lists exactly the rushee's availabilities on that day that hold the slot. */
  lemma CellCovering(input: SchedulerInput, day: string, rushee: Rushee, start: Option<int>)
    ensures var c := CellAt(input, day, rushee, start);
      forall a :: a in c.rusheeAvailabilities <==>
        a in input.rusheeAvailabilities && OnDay(a.date, day) && RusheeCovers(a, rushee.id, start)
  {
  }

  /** The rushee is available exactly when one of their availabilities on that day holds
      the slot. */
  lemma CellAvailability(input: SchedulerInput, day: string, rushee: Rushee, start: Option<int>)
    ensures var c := CellAt(input, day, rushee, start);
      c.isAvailable <==>
        exists a :: a in input.rusheeAvailabilities && OnDay(a.date, day) && RusheeCovers(a, rushee.id, start)
  {
    var c := CellAt(input, day, rushee, start);
    assert c.isAvailable == (|c.rusheeAvailabilities| > 0);
    CellCovering(input, day, rushee, start);
    if c.isAvailable {
      assert c.rusheeAvailabilities[0] in c.rusheeAvailabilities;
    }
  }

  /** The interviewers offered are exactly those with an availability that day overlapping
      the slot. */
  lemma CellInterviewers(input: SchedulerInput, day: string, rushee: Rushee, start: Option<int>)
    ensures var c := CellAt(input, day, rushee, start);
      forall ua :: ua in c.userAvailabilities <==>
        ua in input.userAvailabilities && OnDay(ua.row.date, day) && Offers(ua, start)
  {
  }

  /** Every interviewer whose availability that day holds the whole slot is offered. */
  lemma ContainingInterviewerOffered(
    input: SchedulerInput, day: string, rushee: Rushee, start: Option<int>, ua: UserAvailabilityExtended)
    requires ua in input.userAvailabilities && OnDay(ua.row.date, day)
    requires ua.row.startTime.Some? && ua.row.endTime.Some? && start.Some?
    requires Contains(ua.row.startTime.value, ua.row.endTime.value, start.value)
    ensures ua in CellAt(input, day, rushee, start).userAvailabilities
  {
    ContainsImpliesOverlaps(ua.row.startTime.value, ua.row.endTime.value, start.value);
    CellInterviewers(input, day, rushee, start);
  }

  /** The slot is scheduled exactly when some assignment of that day books it, and the cell
      carries the first such assignment in the given order. */
  lemma CellBooking(input: SchedulerInput, day: string, rushee: Rushee, start: Option<int>)
    ensures var c := CellAt(input, day, rushee, start);
      var ofDay := AssignmentsForDay(input.interviewAssignments, input.interviewDates, day);
      && (c.scheduled <==> c.existingAssignment.Some?)
      && (c.scheduled <==>
            exists a :: a in input.interviewAssignments && AssignmentOnDay(input.interviewDates, a, day) && Books(a, rushee.id, start))
      && (c.existingAssignment.Some? ==>
            exists k :: 0 <= k < |ofDay| && ofDay[k] == c.existingAssignment.value &&
              Books(ofDay[k], rushee.id, start) &&
              forall j :: 0 <= j < k ==> !Books(ofDay[j], rushee.id, start))
  {
    var c := CellAt(input, day, rushee, start);
    var ofDay := AssignmentsForDay(input.interviewAssignments, input.interviewDates, day);
    var p := (a: InterviewAssignment) => Books(a, rushee.id, start);
    assert c.existingAssignment == Find(ofDay, p);
    FindFirst(ofDay, p);
    if c.existingAssignment.Some? {
      var a := c.existingAssignment.value;
      assert a in ofDay && Books(a, rushee.id, start);
    }
  }

  // ---------------------------------------------------------------------------
  // The whole grid

  datatype RusheeRow = RusheeRow(rusheeId: string, name: string, cells: seq<CellProps>)

  datatype DayPanel = DayPanel(day: string, slots: seq<string>, rows: seq<RusheeRow>)

  datatype SchedulerView =
    | NoInterviewDatesMessage
    | NoRusheesMessage
    | DayTabs(defaultDay: string, panels: seq<DayPanel>)

  /** The content of one day's tab: a row per rushee, a cell per slot. */
  function Panel(input: SchedulerInput, day: string): (p: DayPanel)
    ensures p.day == day
  {
    var slots := TimeSlots(FirstHour, EndHour);
    DayPanel(day, slots, Rows(input, day, slots))
  }

  /** A row per rushee, in the given order, with the cell of each slot. */
  function Rows(input: SchedulerInput, day: string, slots: seq<string>): seq<RusheeRow> {
    seq(|input.rushees|, r requires 0 <= r < |input.rushees| =>
      RusheeRow(input.rushees[r].id, input.rushees[r].name,
        seq(|slots|, s requires 0 <= s < |slots| => Cell(input, day, input.rushees[r], slots[s]))))
  }

  /** `InterviewScheduler`. */
  function Render(input: SchedulerInput): SchedulerView {
    var days := DistinctDates(input.interviewDates);
    if |days| == 0 then NoInterviewDatesMessage
    else if |input.rushees| == 0 then NoRusheesMessage
    else DayTabs(days[0], seq(|days|, i requires 0 <= i < |days| => Panel(input, days[i])))
  }

  /** A day's tab has the 24 slots of the grid, a row per rushee in the given order and a
      cell per slot in each row. */
  lemma PanelShape(input: SchedulerInput, day: string)
    ensures var p := Panel(input, day);
      && p.day == day && |p.slots| == 24 && |p.rows| == |input.rushees|
      && forall r :: 0 <= r < |input.rushees| ==>
           p.rows[r].rusheeId == input.rushees[r].id && |p.rows[r].cells| == 24 &&
           forall k :: 0 <= k < 24 ==> p.rows[r].cells[k] == Cell(input, day, input.rushees[r], p.slots[k])
  {
    GridSlots();
  }

  /** Without interview dates the grid shows its first message, and without rushees its
      second; otherwise it shows the tabs. */
  lemma RenderMessages(input: SchedulerInput)
    ensures Render(input).NoInterviewDatesMessage? <==> |input.interviewDates| == 0
    ensures Render(input).NoRusheesMessage? <==> |input.interviewDates| > 0 && |input.rushees| == 0
    ensures Render(input).DayTabs? <==> |input.interviewDates| > 0 && |input.rushees| > 0
  {
  }

  /** With dates and rushees the grid shows one tab per interview date, the first one open,
      and the tab of day `k` is `Panel(input, k)`. */
  lemma RenderTabs(input: SchedulerInput)
    requires |input.interviewDates| > 0 && |input.rushees| > 0
    ensures var v := Render(input);
      && v.DayTabs?
      && |v.panels| == |input.interviewDates|
      && v.defaultDay == v.panels[0].day
      && (forall i :: 0 <= i < |v.panels| ==> v.panels[i] == Panel(input, v.panels[i].day))
  {
  }

  /** The tabs come in ascending order of day keys, and every interview date's day has a
      tab. */
  lemma RenderTabsOrder(input: SchedulerInput)
    requires |input.interviewDates| > 0 && |input.rushees| > 0
    ensures var v := Render(input);
      && v.DayTabs?
      && (forall i, j :: 0 <= i < j < |v.panels| ==> StrLe(v.panels[i].day, v.panels[j].day))
      && (forall d :: d in input.interviewDates ==> exists i :: 0 <= i < |v.panels| && v.panels[i].day == DateKey(d))
  {
    var days := DistinctDates(input.interviewDates);
    var v := Render(input);
    assert forall i :: 0 <= i < |days| ==> v.panels[i].day == days[i];
    DistinctDatesSorted(input.interviewDates);
    forall d | d in input.interviewDates
      ensures exists i :: 0 <= i < |v.panels| && v.panels[i].day == DateKey(d)
    {
      var i :| 0 <= i < |days| && days[i] == DateKey(d);
      assert v.panels[i].day == DateKey(d);
    }
  }
}

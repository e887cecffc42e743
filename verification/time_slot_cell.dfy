/** One cell of the grid (`TimeSlotCell.tsx`): a scheduled slot shows the assigned pair and
    offers to remove the assignment, an available slot opens the scheduling popover, any
    other slot is an empty box. */
module TimeSlotCell {
  import opened Wrappers
  import opened Text
  import opened Records
  import opened SchedulePopover

  const ScheduledColor := "bg-green-500"
  const DefaultColor := "bg-gray-100"

  /** What the grid hands to a cell. */
  datatype CellProps = CellProps(
    isAvailable: bool,
    rusheeAvailabilities: seq<RusheeAvailability>,
    userAvailabilities: seq<UserAvailabilityExtended>,
    slot: Option<int>,
    rusheeId: string,
    interviewDate: Option<InterviewDate>,
    scheduled: bool,
    existingAssignment: Option<InterviewAssignment>)

  /** What a cell renders as. */
  datatype Cell =
    | ScheduledSlot(existingAssignment: Option<InterviewAssignment>, title: string, bgColor: string)
    | AvailableSlot(popover: PopoverProps)
    | EmptySlot(title: string, bgColor: string)

  /** One line of the hover text; `formatTime` stands for date-fns `format(.., "p")`. A
      missing time reads as `new Date(null)`, the epoch. */
  function AvailabilityLine(a: RusheeAvailability, formatTime: int -> string): string {
    "Available: " + formatTime(a.startTime.GetOr(0)) + " - " + formatTime(a.endTime.GetOr(0))
  }

  /** The hover text: one line per availability of the rushee that covers the slot, or
      nothing when the rushee is not available. */
  function Title(isAvailable: bool, avs: seq<RusheeAvailability>, formatTime: int -> string): string {
    if isAvailable then Join(seq(|avs|, i requires 0 <= i < |avs| => AvailabilityLine(avs[i], formatTime)), "\n")
    else ""
  }

  /** Splitting the hover text at line breaks gives back one line per availability, as long
      as the formatted times hold no line break themselves. */
  lemma TitleLines(avs: seq<RusheeAvailability>, formatTime: int -> string)
    requires |avs| > 0
    requires forall t :: '\n' !in formatTime(t)
    ensures var lines := Split(Title(true, avs, formatTime), '\n');
      && |lines| == |avs|
      && forall i :: 0 <= i < |avs| ==> lines[i] == AvailabilityLine(avs[i], formatTime)
  {
    var lines := seq(|avs|, i requires 0 <= i < |avs| => AvailabilityLine(avs[i], formatTime));
    forall p | p in lines ensures '\n' !in p {
      var i :| 0 <= i < |lines| && lines[i] == p;
      var start, end := avs[i].startTime.GetOr(0), avs[i].endTime.GetOr(0);
      assert '\n' !in formatTime(start) && '\n' !in formatTime(end);
      assert p == "Available: " + formatTime(start) + " - " + formatTime(end);
    }
    SplitJoin(lines, '\n');
  }

  /** `TimeSlotCell`: a scheduled slot wins over an available one. */
  function RenderCell(p: CellProps, formatTime: int -> string): (c: Cell)
    ensures c.ScheduledSlot? <==> p.scheduled
    ensures c.AvailableSlot? <==> !p.scheduled && p.isAvailable
    ensures c.ScheduledSlot? ==> c.bgColor == ScheduledColor && c.existingAssignment == p.existingAssignment
    ensures c.EmptySlot? ==> c.bgColor == DefaultColor && c.title == ""
    ensures c.AvailableSlot? ==>
      c.popover == PopoverProps(p.rusheeAvailabilities, p.userAvailabilities, true, p.slot, p.rusheeId, p.interviewDate)
  {
    var title := Title(p.isAvailable, p.rusheeAvailabilities, formatTime);
    var bgColor := if p.scheduled then ScheduledColor else DefaultColor;
    if p.scheduled then ScheduledSlot(p.existingAssignment, title, bgColor)
    else if p.isAvailable then
      AvailableSlot(PopoverProps(p.rusheeAvailabilities, p.userAvailabilities, p.isAvailable, p.slot, p.rusheeId, p.interviewDate))
    else EmptySlot(title, bgColor)
  }

  /** A missing name renders as nothing. */
  function NameText(user: Option<User>): string {
    if user.Some? && user.value.name.Some? then user.value.name.value else ""
  }

  /** The pair written inside a scheduled cell: shown only when the assignment and both
      interviewers are known. */
  function InterviewerNames(existing: Option<InterviewAssignment>): (r: Option<string>)
    ensures r.Some? <==> existing.Some? && existing.value.interviewer1.Some? && existing.value.interviewer2.Some?
    ensures r.Some? ==> StartsWith(r.value, NameText(existing.value.interviewer1))
  {
    if existing.Some? && existing.value.interviewer1.Some? && existing.value.interviewer2.Some? then
      Some(NameText(existing.value.interviewer1) + " & " + NameText(existing.value.interviewer2))
    else None
  }

  /** The cell of a scheduled slot, with its "Remove assignment?" popover. */
  class ScheduledCell {
    const existingAssignment: Option<InterviewAssignment>
    const title: string
    const bgColor: string
    var isDeleting: bool

    constructor (existingAssignment: Option<InterviewAssignment>, title: string, bgColor: string)
      ensures this.existingAssignment == existingAssignment && this.title == title && this.bgColor == bgColor
      ensures !isDeleting
    {
      this.existingAssignment := existingAssignment;
      this.title := title;
      this.bgColor := bgColor;
      isDeleting := false;
    }

    /** The caption of the remove button, which (like the cancel button) is disabled while a
        removal is in flight. */
    function RemoveCaption(): string
      reads this
    {
      if isDeleting then "..." else "Remove"
    }

    /** `handleDelete`, with `outcome` what the delete action answers. Returns the id of the
        assignment it asked to delete, if any. Whatever the answer, the cell leaves the
        deleting state; failures are only logged. */
    method HandleDelete(outcome: ActionOutcome) returns (deleted: Option<string>)
      modifies this
      ensures existingAssignment.None? ==> deleted.None? && isDeleting == old(isDeleting)
      ensures existingAssignment.Some? ==> deleted == Some(existingAssignment.value.id) && !isDeleting
    {
      if existingAssignment.None? {
        return None;
      }
      isDeleting := true;
      deleted := Some(existingAssignment.value.id);
      isDeleting := false;
    }
  }
}

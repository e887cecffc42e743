/** The popover of an available cell (`SchedulePopover.tsx`): it lists the interviewers who
    can take the slot, lets the administrator tick at most two of them, and submits the pair
    as a new interview assignment. */
module SchedulePopover {
  import opened Wrappers
  import opened Seqs
  import opened Records

  const SelectExactlyTwo := "Please select exactly 2 users."
  const DateNotFound := "Interview date not found."
  const CreateFailed := "Failed to create interview assignment"
  const UnexpectedError := "An unexpected error occurred"
  const UnknownUser := "Unknown User"
  const NoInterviewers := "No interviewers available in this timeslot."

  /** What an available cell hands to its popover. */
  datatype PopoverProps = PopoverProps(
    rusheeAvailabilities: seq<RusheeAvailability>,
    userAvailabilities: seq<UserAvailabilityExtended>,
    isAvailable: bool,
    slot: Option<int>,
    rusheeId: string,
    interviewDate: Option<InterviewDate>)

  // ---------------------------------------------------------------------------
  // Selecting interviewers

  /** The selection after a checkbox of `userId` changes to `checked`: ticking adds the user
      only while fewer than two are selected, unticking removes every occurrence. */
  function Toggle(selected: seq<string>, userId: string, checked: bool): (r: seq<string>)
    ensures |selected| <= 2 ==> |r| <= 2
    ensures checked && |selected| < 2 ==> r == selected + [userId]
    ensures checked && |selected| >= 2 ==> r == selected
    ensures !checked ==> forall u :: u in r <==> u in selected && u != userId
  {
    if checked then
      (if |selected| < 2 then selected + [userId] else selected)
    else
      Filter(selected, u => u != userId)
  }

  /** Unticking drops every occurrence of the user and keeps every other user as often as
      they were selected. */
  lemma UntickRemovesAll(selected: seq<string>, userId: string)
    ensures multiset(Toggle(selected, userId, false)) == multiset(selected)[userId := 0]
  {
    var p := (u: string) => u != userId;
    forall x ensures multiset(Toggle(selected, userId, false))[x] == multiset(selected)[userId := 0][x] {
      FilterMultiset(selected, p, x);
    }
  }

  /** Unticking keeps the order of the rest: it works piece by piece, a concatenation
      unticking to the concatenation of its parts, and a single entry staying exactly when
      it is another user. */
  lemma UntickKeepsOrder(front: seq<string>, back: seq<string>, userId: string, other: string)
    ensures Toggle(front + back, userId, false) == Toggle(front, userId, false) + Toggle(back, userId, false)
    ensures Toggle([other], userId, false) == (if other == userId then [] else [other])
  {
    FilterAppend(front, back, u => u != userId);
    assert [other][1..] == [];
  }

  datatype CheckboxEvent = CheckboxEvent(userId: string, checked: bool)

  /** The selection after a series of checkbox changes. */
  function Replay(selected: seq<string>, events: seq<CheckboxEvent>): seq<string>
    decreases |events|
  {
    if events == [] then selected
    else Replay(Toggle(selected, events[0].userId, events[0].checked), events[1..])
  }

  /** However the checkboxes are clicked, no more than two interviewers are ever selected. */
  lemma {:induction false} ReplayKeepsAtMostTwo(selected: seq<string>, events: seq<CheckboxEvent>)
    requires |selected| <= 2
    ensures |Replay(selected, events)| <= 2
    decreases |events|
  {
    if events != [] {
      ReplayKeepsAtMostTwo(Toggle(selected, events[0].userId, events[0].checked), events[1..]);
    }
  }

  // ---------------------------------------------------------------------------
  // Submitting

  /** The form data sent to the action that creates the assignment (`slot` is the instant
      that `toISOString` writes out; the selection is sent as a JSON array). */
  datatype AssignmentRequest = AssignmentRequest(
    slot: int, rusheeId: string, interviewDateId: string, selectedUsers: seq<string>)

  /** The selection and the error message once the action has answered. */
  function Settle(selected: seq<string>, outcome: ActionOutcome): (r: (seq<string>, string))
    ensures r.1 == "" <==> outcome.Resolved? && outcome.success
    ensures r.0 == (if outcome.Resolved? && outcome.success then [] else selected)
    ensures outcome.Resolved? && !outcome.success ==>
      r.1 == (if outcome.message.Some? && outcome.message.value != "" then outcome.message.value else CreateFailed)
    ensures outcome.Threw? ==> r.1 == UnexpectedError
  {
    match outcome
    case Resolved(true, _) => ([], "")
    case Resolved(false, message) =>
      (selected, if message.Some? && message.value != "" then message.value else CreateFailed)
    case Threw => (selected, UnexpectedError)
  }

  class SchedulePopover {
    const userAvailabilities: seq<UserAvailabilityExtended>
    const slot: Option<int>
    const rusheeId: string
    const interviewDate: Option<InterviewDate>
    var selectedUsers: seq<string>
    var error: string
    var isSubmitting: bool

    ghost predicate Valid()
      reads this
    {
      |selectedUsers| <= 2
    }

    constructor (props: PopoverProps)
      ensures Valid()
      ensures userAvailabilities == props.userAvailabilities && slot == props.slot
      ensures rusheeId == props.rusheeId && interviewDate == props.interviewDate
      ensures selectedUsers == [] && error == "" && !isSubmitting
    {
      userAvailabilities := props.userAvailabilities;
      slot := props.slot;
      rusheeId := props.rusheeId;
      interviewDate := props.interviewDate;
      selectedUsers := [];
      error := "";
      isSubmitting := false;
    }

    /** `handleCheckboxChange`: ticking also clears the error, when it takes effect. */
    method HandleCheckboxChange(userId: string, checked: bool)
      requires Valid()
      modifies this
      ensures Valid()
      ensures selectedUsers == Toggle(old(selectedUsers), userId, checked)
      ensures error == (if checked && |old(selectedUsers)| < 2 then "" else old(error))
      ensures isSubmitting == old(isSubmitting)
    {
      if checked {
        if |selectedUsers| < 2 {
          selectedUsers := selectedUsers + [userId];
          error := "";
        }
      } else {
        selectedUsers := Filter(selectedUsers, u => u != userId);
      }
    }

    /** `handleSubmit`, with `outcome` what the create action answers. Returns the request
        sent to the action, if one was sent. Writing the slot with `toISOString` throws for
        an Invalid Date, which lands in the same `catch` as a failing action. */
    method HandleSubmit(outcome: ActionOutcome) returns (request: Option<AssignmentRequest>)
      requires Valid()
      modifies this
      ensures Valid()
      ensures |old(selectedUsers)| != 2 ==>
        request.None? && error == SelectExactlyTwo &&
        selectedUsers == old(selectedUsers) && isSubmitting == old(isSubmitting)
      ensures |old(selectedUsers)| == 2 && interviewDate.None? ==>
        request.None? && error == DateNotFound &&
        selectedUsers == old(selectedUsers) && isSubmitting == old(isSubmitting)
      ensures |old(selectedUsers)| == 2 && interviewDate.Some? && slot.None? ==>
        request.None? && error == UnexpectedError &&
        selectedUsers == old(selectedUsers) && !isSubmitting
      ensures |old(selectedUsers)| == 2 && interviewDate.Some? && slot.Some? ==>
        request == Some(AssignmentRequest(slot.value, rusheeId, interviewDate.value.id, old(selectedUsers))) &&
        (selectedUsers, error) == Settle(old(selectedUsers), outcome) && !isSubmitting
    {
      request := None;
      if |selectedUsers| != 2 {
        error := SelectExactlyTwo;
        return;
      }
      if interviewDate.None? {
        error := DateNotFound;
        return;
      }
      isSubmitting := true;
      error := "";
      if slot.None? {
        error := UnexpectedError;
      } else {
        request := Some(AssignmentRequest(slot.value, rusheeId, interviewDate.value.id, selectedUsers));
        var settled := Settle(selectedUsers, outcome);
        selectedUsers := settled.0;
        error := settled.1;
      }
      isSubmitting := false;
    }
  }

  // ---------------------------------------------------------------------------
  // What the popover shows

  /** The label of an interviewer: the user's name, else the email, else "Unknown User"
      (an empty name or email counts as missing). */
  function DisplayName(user: Option<User>): (r: string)
    ensures r != ""
    ensures user.Some? && user.value.name.Some? && user.value.name.value != "" ==> r == user.value.name.value
    ensures user.Some? && (user.value.name.None? || user.value.name.value == "") && user.value.email != "" ==>
      r == user.value.email
    ensures user.Some? && (user.value.name.None? || user.value.name.value == "") && user.value.email == "" ==>
      r == UnknownUser
    ensures user.None? ==> r == UnknownUser
  {
    if user.Some? && user.value.name.Some? && user.value.name.value != "" then user.value.name.value
    else if user.Some? && user.value.email != "" then user.value.email
    else UnknownUser
  }

  /** Orders availabilities by the labels of their users, with `compare` standing for
      `localeCompare` (negative, zero or positive). */
  function ByDisplayName(compare: (string, string) -> int): (UserAvailabilityExtended, UserAvailabilityExtended) -> bool {
    (a: UserAvailabilityExtended, b: UserAvailabilityExtended) => compare(DisplayName(a.user), DisplayName(b.user)) <= 0
  }

  /** The interviewers in the order the popover lists them. */
  function SortedInterviewers(userAvs: seq<UserAvailabilityExtended>, compare: (string, string) -> int): seq<UserAvailabilityExtended> {
    SortBy(userAvs, ByDisplayName(compare))
  }

  /** When `compare` orders labels consistently, the list is ordered by label and holds
      exactly the given availabilities. */
  lemma SortedInterviewersOrdered(userAvs: seq<UserAvailabilityExtended>, compare: (string, string) -> int)
    requires TotalPreorder((x: string, y: string) => compare(x, y) <= 0)
    ensures var r := SortedInterviewers(userAvs, compare);
      && multiset(r) == multiset(userAvs)
      && forall i, j :: 0 <= i < j < |r| ==> compare(DisplayName(r[i].user), DisplayName(r[j].user)) <= 0
  {
    var le := ByDisplayName(compare);
    var strLe := (x: string, y: string) => compare(x, y) <= 0;
    forall a, b ensures le(a, b) || le(b, a) {
      var x, y := DisplayName(a.user), DisplayName(b.user);
      assert strLe(x, y) || strLe(y, x);
    }
    forall a, b, c | le(a, b) && le(b, c) ensures le(a, c) {
      var x, y, z := DisplayName(a.user), DisplayName(b.user), DisplayName(c.user);
      assert strLe(x, y) && strLe(y, z);
      assert strLe(x, z);
    }
    SortBySorted(userAvs, le);
  }

  datatype InterviewerOption = InterviewerOption(
    availabilityId: string, userId: string, caption: string, checked: bool, disabled: bool)

  datatype PopoverBody =
    | NoInterviewersMessage
    | InterviewerForm(
        options: seq<InterviewerOption>, error: Option<string>, selectedCount: nat,
        submitDisabled: bool, submitLabel: string)

  function OptionFor(ua: UserAvailabilityExtended, selected: seq<string>): InterviewerOption {
    var checked := ua.row.userId in selected;
    InterviewerOption(ua.row.id, ua.row.userId, DisplayName(ua.user), checked, !checked && |selected| >= 2)
  }

  /** The body of the popover for a given state. */
  function PopoverView(
    userAvs: seq<UserAvailabilityExtended>, selected: seq<string>, error: string,
    isSubmitting: bool, compare: (string, string) -> int): (v: PopoverBody)
    ensures v.NoInterviewersMessage? <==> |userAvs| == 0
    ensures v.InterviewerForm? ==> |v.options| == |userAvs|
  {
    if |userAvs| == 0 then NoInterviewersMessage
    else
      var sorted := SortedInterviewers(userAvs, compare);
      assert |sorted| == |multiset(sorted)| == |multiset(userAvs)| == |userAvs|;
      InterviewerForm(
        seq(|sorted|, i requires 0 <= i < |sorted| => OptionFor(sorted[i], selected)),
        if error == "" then None else Some(error),
        |selected|,
        isSubmitting || |selected| != 2,
        if isSubmitting then "Scheduling..." else "Schedule Interview")
  }

  /** Every available interviewer gets a checkbox; with two selected every other checkbox is
      disabled, with fewer none is; the button is disabled exactly while submitting or
      without exactly two selected. */
  lemma PopoverViewOptions(
    userAvs: seq<UserAvailabilityExtended>, selected: seq<string>, error: string,
    isSubmitting: bool, compare: (string, string) -> int)
    requires |userAvs| > 0
    ensures var v := PopoverView(userAvs, selected, error, isSubmitting, compare);
      && (forall ua :: ua in userAvs ==> exists i :: 0 <= i < |v.options| && v.options[i].availabilityId == ua.row.id)
      && (forall i :: 0 <= i < |v.options| ==> (v.options[i].checked <==> v.options[i].userId in selected))
      && (forall i :: 0 <= i < |v.options| ==> (v.options[i].disabled <==> !v.options[i].checked && |selected| >= 2))
      && (v.submitDisabled <==> isSubmitting || |selected| != 2)
      && v.submitLabel == (if isSubmitting then "Scheduling..." else "Schedule Interview")
      && v.selectedCount == |selected|
      && (v.error.Some? <==> error != "")
      && (v.error.Some? ==> v.error.value == error)
  {
    var sorted := SortedInterviewers(userAvs, compare);
    var v := PopoverView(userAvs, selected, error, isSubmitting, compare);
    forall ua | ua in userAvs
      ensures exists i :: 0 <= i < |v.options| && v.options[i].availabilityId == ua.row.id
    {
      assert ua in multiset(userAvs);
      assert ua in multiset(sorted);
      var i :| 0 <= i < |sorted| && sorted[i] == ua;
      assert v.options[i] == OptionFor(sorted[i], selected);
    }
  }
}

/** The records the scheduler and the migrations work on (the shapes of `src/lib/types.ts`),
    with every `Date` as integer milliseconds and every nullable column as an `Option`.
    Only the columns some modelled code reads or writes are kept. */
module Records {
  import opened Wrappers

  /** An interview day: its date and its interviewing window. */
  datatype InterviewDate = InterviewDate(id: string, date: int, startTime: int, endTime: int)

  /** A member of the organisation; only the name may be missing. */
  datatype User = User(id: string, name: Option<string>, email: string)

  datatype Rushee = Rushee(
    id: string, name: string, email: string, phoneNumber: Option<string>, major: Option<string>)

  /** A row of `rushee_availabilities`. */
  datatype RusheeAvailability = RusheeAvailability(
    id: string, rusheeId: string, interviewDateId: Option<string>,
    date: Option<int>, startTime: Option<int>, endTime: Option<int>, updatedAt: int)

  /** A row of `user_availabilities`. */
  datatype UserAvailability = UserAvailability(
    id: string, userId: string, interviewDateId: Option<string>,
    date: Option<int>, startTime: Option<int>, endTime: Option<int>, updatedAt: int)

  /** A user availability joined with its user (`UserAvailabilityExtended`). */
  datatype UserAvailabilityExtended = UserAvailabilityExtended(row: UserAvailability, user: Option<User>)

  /** An interview assignment joined with its rushee and both interviewers
      (`InterviewAssignmentExtended`); a join that found nothing is `None`. */
  datatype InterviewAssignment = InterviewAssignment(
    id: string, rusheeId: string, interviewDateId: string, startTime: int, endTime: int,
    interviewer1Id: string, interviewer2Id: string,
    rushee: Option<Rushee>, interviewer1: Option<User>, interviewer2: Option<User>)

  /** What awaiting a server action gives: the `{success, message}` it resolves to, or an
      exception. The actions themselves (creating and deleting assignments) are not part of
      this model. */
  datatype ActionOutcome = Resolved(success: bool, message: Option<string>) | Threw

  /** What the resume parser returns (`PythonApiResponse`): the rushee's details and the
      availabilities it read, every field a string. */
  datatype ParsedRushee = ParsedRushee(name: string, email: string, phoneNumber: Option<string>, major: Option<string>)
  datatype ParsedAvailability = ParsedAvailability(date: string, startTime: string, endTime: string)
  datatype ParsedResponse = ParsedResponse(rushee: ParsedRushee, availabilities: seq<ParsedAvailability>)

  /** A value a database call throws: an `Error` with its message, or anything else. */
  datatype Thrown = ErrorValue(message: string) | OtherValue

  /** Where a run of a migration meets a failing database call, if anywhere: one of the
      queries it starts with, or its `n`-th update (counting from 0). The database itself
      is not part of this model. */
  datatype DbFault = NoFault | FailQuery(thrown: Thrown) | FailUpdate(n: nat, thrown: Thrown)

  /** The ids of a table's rows are distinct (`id` is the primary key). */
  predicate UniqueUserRowIds(rows: seq<UserAvailability>) {
    forall i, j :: 0 <= i < j < |rows| ==> rows[i].id != rows[j].id
  }

  predicate UniqueRusheeRowIds(rows: seq<RusheeAvailability>) {
    forall i, j :: 0 <= i < j < |rows| ==> rows[i].id != rows[j].id
  }
}

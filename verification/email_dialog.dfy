/** The e-mail dialog of `src/components/interview-scheduler/EmailDialog.tsx`: the addresses
    to copy and the two letters for an interview assignment. Only the variable parts of a
    letter are kept (its greeting and its labelled fields); how the interview's date and
    time are spelled (date-fns `format`) is given by the parameters `formatDate` and
    `formatTime`, applied to the assignment's start. */
module EmailDialog {
  import opened Wrappers
  import opened Text
  import opened Records

  /** `assignment.rushee?.email || ""`. */
  function RusheeEmail(a: InterviewAssignment): (r: string)
    ensures r != "" <==> a.rushee.Some? && a.rushee.value.email != ""
    ensures r != "" ==> r == a.rushee.value.email
  {
    if a.rushee.Some? && a.rushee.value.email != "" then a.rushee.value.email else ""
  }

  /** An interviewer's e-mail, `""` when there is no interviewer. */
  function InterviewerEmail(u: Option<User>): string {
    if u.Some? then u.value.email else ""
  }

  /** The addresses shown for the brothers: interviewer 1's, then interviewer 2's, each only
      when present and non-empty, separated by `", "`. */
  function BrothersEmailsText(a: InterviewAssignment): string {
    var e1, e2 := InterviewerEmail(a.interviewer1), InterviewerEmail(a.interviewer2);
    if e1 != "" && e2 != "" then e1 + ", " + e2 else e1 + e2
  }

  /** `getBrothersEmails`: push each non-empty address, then join with `", "`. */
  method GetBrothersEmails(a: InterviewAssignment) returns (r: string)
    ensures r == BrothersEmailsText(a)
  {
    var emails: seq<string> := [];
    if a.interviewer1.Some? && a.interviewer1.value.email != "" {
      emails := emails + [a.interviewer1.value.email];
    }
    if a.interviewer2.Some? && a.interviewer2.value.email != "" {
      emails := emails + [a.interviewer2.value.email];
    }
    r := Join(emails, ", ");
    if |emails| == 2 {
      JoinCons(emails[0], [emails[1]], ", ");
      assert emails == [emails[0]] + [emails[1]];
    }
  }

  /** The addresses that are listed, in order. */
  function ListedEmails(a: InterviewAssignment): (r: seq<string>)
    ensures |r| <= 2
    ensures forall i :: 0 <= i < |r| ==> r[i] != ""
  {
    var e1, e2 := InterviewerEmail(a.interviewer1), InterviewerEmail(a.interviewer2);
    (if e1 != "" then [e1] else []) + (if e2 != "" then [e2] else [])
  }

  /** When no address contains `", "` itself, splitting the text on `", "` gives back the
      listed addresses: nothing is lost or merged. */
  lemma BrothersEmailsSplit(a: InterviewAssignment)
    requires ListedEmails(a) != []
    requires !Includes(InterviewerEmail(a.interviewer1), ", ") && !Includes(InterviewerEmail(a.interviewer2), ", ")
    ensures SplitOn(BrothersEmailsText(a), ", ") == ListedEmails(a)
  {
    var e1, e2 := InterviewerEmail(a.interviewer1), InterviewerEmail(a.interviewer2);
    var s := BrothersEmailsText(a);
    if e1 != "" && e2 != "" {
      assert s == e1 + ", " + e2;
      assert OccursAt(s, ", ", |e1|);
      forall k | 0 <= k < |e1| ensures !OccursAt(s, ", ", k) {
        if k + 2 <= |e1| {
          assert s[k..k + 2] == e1[k..k + 2];
          assert !OccursAt(e1, ", ", k);
        } else {
          assert s[k + 1] == ',';
          assert s[k..k + 2][1] == s[k + 1];
        }
      }
      IndexOfIsFirst(s, ", ", |e1|);
      assert s[..|e1|] == e1;
      assert s[|e1| + 2..] == e2;
      assert SplitOn(e2, ", ") == [e2];
      assert SplitOn(s, ", ") == [e1] + SplitOn(e2, ", ");
    } else if e1 != "" {
      assert s == e1 && ListedEmails(a) == [e1];
    } else {
      assert s == e2 && ListedEmails(a) == [e2];
    }
  }

  /** A letter reduced to what varies: its greeting line and its labelled fields, or no
      letter at all (the empty template). */
  datatype Letter = NoLetter | Letter(greeting: string, fields: seq<(string, string)>)

  /** `generateRusheeEmail`: nothing without a rushee; otherwise addressed to the rushee by
      name, with the interview's date, time (Pacific), place and attire. */
  function RusheeLetter(a: InterviewAssignment, formatDate: int -> string, formatTime: int -> string): (r: Letter)
    ensures r.NoLetter? <==> a.rushee.None?
    ensures r.Letter? ==> StartsWith(r.greeting, "Hello " + a.rushee.value.name + ",")
  {
    if a.rushee.None? then NoLetter
    else
      var greeting := "Hello " + a.rushee.value.name + ",";
      assert greeting[..|greeting|] == greeting;
      Letter(greeting, [
        ("Date", formatDate(a.startTime)),
        ("Time", formatTime(a.startTime) + " PT"),
        ("Location", "Dr. Martin Luther King Jr. Library | 8th Floor"),
        ("Attire", "Business Casual")])
  }

  /** `generateBrothersEmail`: nothing unless the rushee and both interviewers are joined;
      otherwise it names the rushee and gives the interview's date, time and room. */
  function BrothersLetter(a: InterviewAssignment, formatDate: int -> string, formatTime: int -> string): (r: Letter)
    ensures r.NoLetter? <==> a.rushee.None? || a.interviewer1.None? || a.interviewer2.None?
    ensures r.Letter? ==> ("Name", a.rushee.value.name) in r.fields
  {
    if a.rushee.None? || a.interviewer1.None? || a.interviewer2.None? then NoLetter
    else
      var fields := [
        ("Name", a.rushee.value.name),
        ("Date", formatDate(a.startTime)),
        ("Time", formatTime(a.startTime) + " PT"),
        ("Location", "MLK Jr. Library Room #804")];
      assert fields[0] in fields;
      Letter("Hello Brothers,", fields)
  }

  /** The two letters give the interview's date and time in the same words. */
  lemma LettersAgree(a: InterviewAssignment, formatDate: int -> string, formatTime: int -> string)
    requires BrothersLetter(a, formatDate, formatTime).Letter?
    ensures RusheeLetter(a, formatDate, formatTime).Letter?
    ensures RusheeLetter(a, formatDate, formatTime).fields[..2] == BrothersLetter(a, formatDate, formatTime).fields[1..3]
  {
  }

  datatype Tab = RusheeTab | BrothersTab

  /** The dialog's state: which letter's tab is open. */
  class EmailDialogState {
    var activeTab: Tab

    /** The rushee's letter is shown first. */
    constructor()
      ensures activeTab == RusheeTab
    {
      activeTab := RusheeTab;
    }

    method SetActiveTab(t: Tab)
      modifies this
      ensures activeTab == t
    {
      activeTab := t;
    }

    /** The letter in the open tab: the text area is empty when the open tab's letter lacks
        a join it needs; the rushee tab greets the rushee by name, the brothers tab greets
        the brothers and names the rushee. */
    function ShownLetter(a: InterviewAssignment, formatDate: int -> string, formatTime: int -> string): (r: Letter)
      reads this
      ensures r.NoLetter? <==>
        a.rushee.None? || (activeTab == BrothersTab && (a.interviewer1.None? || a.interviewer2.None?))
      ensures r.Letter? && activeTab == RusheeTab ==> StartsWith(r.greeting, "Hello " + a.rushee.value.name + ",")
      ensures r.Letter? && activeTab == BrothersTab ==>
        r.greeting == "Hello Brothers," && ("Name", a.rushee.value.name) in r.fields
    {
      match activeTab
      case RusheeTab => RusheeLetter(a, formatDate, formatTime)
      case BrothersTab => BrothersLetter(a, formatDate, formatTime)
    }
  }
}

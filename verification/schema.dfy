/** The validation rules of `src/lib/zod/schema.ts`. A schema's verdict is the list of
    issues it reports, each with the path of the offending field and its message; the
    input is accepted exactly when that list is empty. Zod's own e-mail and date-time
    string tests are the parameters `isEmail` and `isDatetime`. */
module ValidationSchema {
  import opened Wrappers
  import opened Text
  import opened Calendar
  import opened Records

  datatype Issue = Issue(path: seq<string>, message: string)

  // ---------------------------------------------------------------------------
  // insertUserAvailabilitySchema

  /** A field checked by `z.date()`: missing, not a `Date`, or a `Date` whose time value may
      be NaN (`None`). */
  datatype DateInput = Missing | NotADate | DateValue(time: Option<int>)

  datatype UserAvailabilityInput = UserAvailabilityInput(date: DateInput, startTime: DateInput, endTime: DateInput)

  /** The issue `z.date({required_error, invalid_type_error})` reports for a field, if any;
      an Invalid Date gets zod's own message. */
  function DateIssues(field: string, d: DateInput, required: string, invalidType: string): (r: seq<Issue>)
    ensures r == [] <==> d.DateValue? && d.time.Some?
    ensures forall i :: 0 <= i < |r| ==> r[i].path == [field]
  {
    match d
    case Missing => [Issue([field], required)]
    case NotADate => [Issue([field], invalidType)]
    case DateValue(None) => [Issue([field], "Invalid date")]
    case DateValue(Some(_)) => []
  }

  const EndBeforeStart := "End time must be after start time"

  /** The object's field checks, then, only when all of them pass, the refinement. */
  function UserAvailabilityIssues(a: UserAvailabilityInput): seq<Issue> {
    var fields :=
      DateIssues("date", a.date, "Date is required", "Invalid date format") +
      DateIssues("startTime", a.startTime, "Start time is required", "Invalid start time format") +
      DateIssues("endTime", a.endTime, "End time is required", "Invalid end time format");
    if fields != [] then fields
    else if a.endTime.time.value > a.startTime.time.value then []
    else [Issue(["endTime"], EndBeforeStart)]
  }

  /** A user availability is accepted exactly when its three fields are valid dates and the
      end is after the start; with valid dates the only possible complaint is the order,
      reported on `endTime`. */
  lemma UserAvailabilityAccepted(a: UserAvailabilityInput)
    ensures var valid := a.date.DateValue? && a.date.time.Some? && a.startTime.DateValue? && a.startTime.time.Some? &&
                         a.endTime.DateValue? && a.endTime.time.Some?;
      && (UserAvailabilityIssues(a) == [] <==> valid && a.endTime.time.value > a.startTime.time.value)
      && (valid && a.endTime.time.value <= a.startTime.time.value ==>
            UserAvailabilityIssues(a) == [Issue(["endTime"], EndBeforeStart)])
  {
    var d := DateIssues("date", a.date, "Date is required", "Invalid date format");
    var s := DateIssues("startTime", a.startTime, "Start time is required", "Invalid start time format");
    var e := DateIssues("endTime", a.endTime, "End time is required", "Invalid end time format");
    assert d + s + e == [] <==> d == [] && s == [] && e == [] by {
      if d + s + e == [] {
        assert |d + s + e| == |d| + |s| + |e|;
      }
    }
  }

  // ---------------------------------------------------------------------------
  // rusheeSchema

  const MaxLength := 255

  /** `z.string().min(1, ..).max(255, ..)` on the name and `z.string().email(..).max(255, ..)`
      on the e-mail; every check runs, so several issues may be reported. */
  function RusheeIssues(r: ParsedRushee, isEmail: string -> bool): seq<Issue> {
    (if |r.name| < 1 then [Issue(["name"], "Name is required")] else []) +
    (if |r.name| > MaxLength then [Issue(["name"], "Name is too long")] else []) +
    (if !isEmail(r.email) then [Issue(["email"], "Invalid email format")] else []) +
    (if |r.email| > MaxLength then [Issue(["email"], "Email is too long")] else [])
  }

  /** A rushee is accepted exactly when the name has 1 to 255 characters and the e-mail is
      an e-mail address of at most 255; phone number and major may be missing. */
  lemma RusheeAccepted(r: ParsedRushee, isEmail: string -> bool)
    ensures RusheeIssues(r, isEmail) == [] <==> 1 <= |r.name| <= MaxLength && isEmail(r.email) && |r.email| <= MaxLength
    ensures forall phone: Option<string>, major: Option<string> ::
      RusheeIssues(r.(phoneNumber := phone, major := major), isEmail) == RusheeIssues(r, isEmail)
  {
  }

  // ---------------------------------------------------------------------------
  // availabilitySchema

  const BadDate := "Invalid date format (YYYY-MM-DD)"

  /** The date must match `/^\d{4}-\d{2}-\d{2}$/`, which checks the shape only, and both
      times must pass zod's date-time test. */
  function AvailabilityIssues(a: ParsedAvailability, isDatetime: string -> bool): seq<Issue> {
    (if !IsDateShape(a.date) then [Issue(["date"], BadDate)] else []) +
    (if !isDatetime(a.startTime) then [Issue(["startTime"], "Invalid start time format")] else []) +
    (if !isDatetime(a.endTime) then [Issue(["endTime"], "Invalid end time format")] else [])
  }

  /** An availability is accepted exactly when its date is `dddd-dd-dd` and both times are
      date-times; the date is not checked for a real month or day, so `2024-13-45` passes. */
  lemma AvailabilityAccepted(a: ParsedAvailability, isDatetime: string -> bool)
    ensures AvailabilityIssues(a, isDatetime) == [] <==>
      IsDateShape(a.date) && isDatetime(a.startTime) && isDatetime(a.endTime)
    ensures IsDateShape("2024-13-45")
  {
    var s := "2024-13-45";
    assert s[0..4] == "2024" && s[5..7] == "13" && s[8..10] == "45";
  }

  // ---------------------------------------------------------------------------
  // pythonApiResponseSchema

  /** The issues of the availabilities `avs`, each path led by `availabilities` and the
      element's index. */
  function AvailabilitiesIssues(avs: seq<ParsedAvailability>, isDatetime: string -> bool): seq<Issue>
    decreases |avs|
  {
    if avs == [] then []
    else
      var k := |avs| - 1;
      AvailabilitiesIssues(avs[..k], isDatetime) + Prefixed(["availabilities", NatToString(k)], AvailabilityIssues(avs[k], isDatetime))
  }

  function Prefixed(prefix: seq<string>, issues: seq<Issue>): (r: seq<Issue>)
    ensures |r| == |issues|
  {
    seq(|issues|, i requires 0 <= i < |issues| => Issue(prefix + issues[i].path, issues[i].message))
  }

  function ResponseIssues(p: ParsedResponse, isEmail: string -> bool, isDatetime: string -> bool): seq<Issue> {
    Prefixed(["rushee"], RusheeIssues(p.rushee, isEmail)) + AvailabilitiesIssues(p.availabilities, isDatetime)
  }

  /** The availabilities raise no issue exactly when each of them is accepted. */
  lemma {:induction false} AvailabilitiesAccepted(avs: seq<ParsedAvailability>, isDatetime: string -> bool)
    ensures AvailabilitiesIssues(avs, isDatetime) == [] <==>
      forall i :: 0 <= i < |avs| ==> AvailabilityIssues(avs[i], isDatetime) == []
    decreases |avs|
  {
    if avs != [] {
      var k := |avs| - 1;
      AvailabilitiesAccepted(avs[..k], isDatetime);
      var rest := AvailabilitiesIssues(avs[..k], isDatetime);
      var last := Prefixed(["availabilities", NatToString(k)], AvailabilityIssues(avs[k], isDatetime));
      assert AvailabilitiesIssues(avs, isDatetime) == rest + last;
      assert rest + last == [] <==> rest == [] && last == [] by {
        assert |rest + last| == |rest| + |last|;
      }
      assert forall i :: 0 <= i < k ==> avs[..k][i] == avs[i];
    }
  }

  /** A parser response is accepted exactly when its rushee and every availability are. */
  lemma ResponseAccepted(p: ParsedResponse, isEmail: string -> bool, isDatetime: string -> bool)
    ensures ResponseIssues(p, isEmail, isDatetime) == [] <==>
      RusheeIssues(p.rushee, isEmail) == [] &&
      forall i :: 0 <= i < |p.availabilities| ==> AvailabilityIssues(p.availabilities[i], isDatetime) == []
  {
    AvailabilitiesAccepted(p.availabilities, isDatetime);
    var a := Prefixed(["rushee"], RusheeIssues(p.rushee, isEmail));
    var b := AvailabilitiesIssues(p.availabilities, isDatetime);
    assert |a + b| == |a| + |b|;
  }

  // ---------------------------------------------------------------------------
  // fileUploadSchema

  /** An uploaded `File`: its MIME type and its size in bytes. */
  datatype UploadedFile = UploadedFile(mimeType: string, size: nat)

  const PdfType := "application/pdf"
  const MaxUploadBytes := 10 * 1024 * 1024

  /** Both refinements run, so a large non-PDF file gets both messages. */
  function FileIssues(f: UploadedFile): seq<Issue> {
    (if f.mimeType != PdfType then [Issue(["file"], "Only PDF files are allowed")] else []) +
    (if !(f.size <= MaxUploadBytes) then [Issue(["file"], "File size must be less than 10MB")] else [])
  }

  /** A file is accepted exactly when it is a PDF of at most 10 MiB; a PDF of exactly
      10 MiB passes (despite the message's "less than"), one byte more does not. */
  lemma FileAccepted(f: UploadedFile)
    ensures FileIssues(f) == [] <==> f.mimeType == PdfType && f.size <= 10_485_760
    ensures FileIssues(UploadedFile(PdfType, 10_485_760)) == []
    ensures FileIssues(UploadedFile(PdfType, 10_485_761)) != []
  {
  }
}

/** The "My Interviews" card of `src/components/dashboard/Interviews.tsx`: one entry per
    interview of the signed-in member, showing the day, the times, the interviewee and the
    partner interviewer. How dates and times are spelled (`formatDateForDisplay`,
    `formatTimeUTC`) is given by the parameters `formatDate` and `formatTime`. */
module Interviews {
  import opened Wrappers

  datatype Person = Person(id: string, name: string, email: string)
  datatype Interviewee = Interviewee(name: string, major: Option<string>)

  /** An interview with its joins; a join that found nothing is `None`. */
  datatype Interview = Interview(
    id: string, interviewer1Id: string, interviewer2Id: string, startTime: int, endTime: int,
    rushee: Option<Interviewee>, interviewer1: Option<Person>, interviewer2: Option<Person>,
    interviewDate: Option<int>)

  /** The joins agree with the ids they were made on. */
  predicate ConsistentlyJoined(iv: Interview) {
    (iv.interviewer1.Some? ==> iv.interviewer1.value.id == iv.interviewer1Id) &&
    (iv.interviewer2.Some? ==> iv.interviewer2.value.id == iv.interviewer2Id)
  }

  /** The partner as the card computes it: with both interviewers joined, interviewer 1
      unless its id equals the interview's own `interviewer1Id`, else interviewer 2; with
      one joined, that one. */
  function Partner(iv: Interview): (r: Option<Person>)
    ensures r.None? <==> iv.interviewer1.None? && iv.interviewer2.None?
    ensures r.Some? ==> r == iv.interviewer1 || r == iv.interviewer2
  {
    if iv.interviewer1.Some? && iv.interviewer2.Some? then
      if iv.interviewer1.value.id != iv.interviewer1Id then iv.interviewer1 else iv.interviewer2
    else if iv.interviewer1.Some? then iv.interviewer1
    else iv.interviewer2
  }

  /** For consistently joined data the card's partner is interviewer 2 whenever there is
      one, so a viewer who is interviewer 2 is shown as their own partner. */
  lemma PartnerIgnoresViewer(iv: Interview)
    requires ConsistentlyJoined(iv)
    ensures iv.interviewer2.Some? ==> Partner(iv) == iv.interviewer2
    ensures var i1, i2 := Person("u1", "Ann", "a@x"), Person("u2", "Bo", "b@x");
      var viewer2 := Interview("iv", "u1", "u2", 0, 0, None, Some(i1), Some(i2), None);
      ConsistentlyJoined(viewer2) && Partner(viewer2) == Some(i2)
  {
  }

  /** The partner as the card evidently means it, "the other interviewer": the test on
      interviewer 1 is made against the viewer's id instead of the interview's own. */
  function PartnerOf(iv: Interview, viewerId: string): (r: Option<Person>)
    ensures r.None? <==> iv.interviewer1.None? && iv.interviewer2.None?
    ensures r.Some? ==> r == iv.interviewer1 || r == iv.interviewer2
  {
    if iv.interviewer1.Some? && iv.interviewer2.Some? then
      if iv.interviewer1.value.id != viewerId then iv.interviewer1 else iv.interviewer2
    else if iv.interviewer1.Some? then iv.interviewer1
    else iv.interviewer2
  }

  /** With both interviewers joined, distinct, and the viewer one of them, the partner is
      the other one; when the viewer is interviewer 1 this is what the card shows. */
  lemma PartnerIsTheOther(iv: Interview, viewerId: string)
    requires iv.interviewer1.Some? && iv.interviewer2.Some?
    requires iv.interviewer1.value.id != iv.interviewer2.value.id
    requires viewerId == iv.interviewer1.value.id || viewerId == iv.interviewer2.value.id
    ensures PartnerOf(iv, viewerId).Some? && PartnerOf(iv, viewerId).value.id != viewerId
    ensures viewerId == iv.interviewer1.value.id ==> PartnerOf(iv, viewerId) == iv.interviewer2
    ensures viewerId == iv.interviewer2.value.id ==> PartnerOf(iv, viewerId) == iv.interviewer1
    ensures ConsistentlyJoined(iv) && viewerId == iv.interviewer1Id ==> PartnerOf(iv, viewerId) == Partner(iv)
  {
  }

  /** What one entry shows. */
  datatype CardView = CardView(
    title: string, times: string, interviewee: string, major: Option<string>, partner: Option<string>)

  /** One entry, as the card builds it, with `partner` the partner chosen for it. */
  function CardWith(iv: Interview, partner: Option<Person>, formatDate: int -> string, formatTime: int -> string): CardView {
    CardView(
      if iv.interviewDate.Some? then formatDate(iv.interviewDate.value) else "No date",
      formatTime(iv.startTime) + " - " + formatTime(iv.endTime),
      if iv.rushee.Some? && iv.rushee.value.name != "" then iv.rushee.value.name else "Unknown",
      if iv.rushee.Some? && iv.rushee.value.major.Some? && iv.rushee.value.major.value != "" then iv.rushee.value.major else None,
      if partner.Some? then Some(partner.value.name) else None)
  }

  /** The entry the card shows, with the partner as written. */
  function InterviewCard(iv: Interview, formatDate: int -> string, formatTime: int -> string): CardView {
    CardWith(iv, Partner(iv), formatDate, formatTime)
  }

  /** The entry with the corrected partner, for a viewer with id `viewerId`. */
  function CorrectedInterviewCard(iv: Interview, viewerId: string, formatDate: int -> string, formatTime: int -> string): CardView {
    CardWith(iv, PartnerOf(iv, viewerId), formatDate, formatTime)
  }

  /** The entry's fallbacks: "No date" exactly when the day did not join, "Unknown" exactly
      when there is no rushee name, a major exactly when the rushee has a non-empty one,
      and a partner line exactly when some interviewer joined. For consistently joined
      data with both interviewers that line names interviewer 2, whoever is looking. */
  lemma InterviewCardFallbacks(iv: Interview, formatDate: int -> string, formatTime: int -> string)
    ensures var c := InterviewCard(iv, formatDate, formatTime);
      && (iv.interviewDate.None? ==> c.title == "No date")
      && (iv.interviewDate.Some? ==> c.title == formatDate(iv.interviewDate.value))
      && c.times == formatTime(iv.startTime) + " - " + formatTime(iv.endTime)
      && (iv.rushee.None? || iv.rushee.value.name == "" ==> c.interviewee == "Unknown")
      && (iv.rushee.Some? && iv.rushee.value.name != "" ==> c.interviewee == iv.rushee.value.name)
      && (c.major.Some? <==> iv.rushee.Some? && iv.rushee.value.major.Some? && iv.rushee.value.major.value != "")
      && (c.major.Some? ==> c.major == iv.rushee.value.major)
      && (c.partner.None? <==> iv.interviewer1.None? && iv.interviewer2.None?)
      && (c.partner.Some? ==>
            (iv.interviewer1.Some? && c.partner.value == iv.interviewer1.value.name) ||
            (iv.interviewer2.Some? && c.partner.value == iv.interviewer2.value.name))
      && (ConsistentlyJoined(iv) && iv.interviewer2.Some? ==> c.partner == Some(iv.interviewer2.value.name))
  {
    if ConsistentlyJoined(iv) {
      PartnerIgnoresViewer(iv);
    }
  }

  /** Both interviewers joined, and they are two different people. */
  predicate DistinctPair(iv: Interview) {
    iv.interviewer1.Some? && iv.interviewer2.Some? && iv.interviewer1.value.id != iv.interviewer2.value.id
  }

  /** The corrected entry differs from the card's only in the partner line, which names the
      other interviewer of the viewer when both joined and are distinct. */
  lemma CorrectedInterviewCardPartner(iv: Interview, viewerId: string, formatDate: int -> string, formatTime: int -> string)
    ensures var c, d := CorrectedInterviewCard(iv, viewerId, formatDate, formatTime), InterviewCard(iv, formatDate, formatTime);
      c.(partner := d.partner) == d
    ensures DistinctPair(iv) && viewerId == iv.interviewer2.value.id ==>
      CorrectedInterviewCard(iv, viewerId, formatDate, formatTime).partner == Some(iv.interviewer1.value.name)
    ensures DistinctPair(iv) && viewerId == iv.interviewer1.value.id ==>
      CorrectedInterviewCard(iv, viewerId, formatDate, formatTime).partner == Some(iv.interviewer2.value.name)
  {
    if DistinctPair(iv) && (viewerId == iv.interviewer1.value.id || viewerId == iv.interviewer2.value.id) {
      PartnerIsTheOther(iv, viewerId);
    }
  }

  /** The card's body: a message when there are no interviews, else one entry each. */
  datatype InterviewsView = NoInterviews(message: string) | Entries(cards: seq<CardView>)

  function InterviewsCard(interviews: seq<Interview>, formatDate: int -> string, formatTime: int -> string): (r: InterviewsView)
    ensures r.NoInterviews? <==> interviews == []
    ensures r.NoInterviews? ==> r.message == "You have no scheduled interviews"
    ensures r.Entries? ==> |r.cards| == |interviews|
    ensures r.Entries? ==>
      forall i :: 0 <= i < |interviews| ==> r.cards[i] == InterviewCard(interviews[i], formatDate, formatTime)
  {
    if |interviews| == 0 then NoInterviews("You have no scheduled interviews")
    else Entries(seq(|interviews|, i requires 0 <= i < |interviews| => InterviewCard(interviews[i], formatDate, formatTime)))
  }
}

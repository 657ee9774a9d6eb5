/** The family history page: the "Add Story" form, the row its submission
    inserts into `family_history`, and the member a story links to on the
    timeline. Fetching and rendering the timeline are outside the model. */
module FamilyHistory {
  import opened Common
  import opened Records
  import opened Text

  const TitleRequired := "Title is required"
  const AddFailed := "Failed to add story"

  /** The form's fields at one moment (`memberId` is "" for "None"). */
  datatype StoryFields = StoryFields(title: string, body: string, eventDate: string, memberId: Id)

  /** The argument the form passes to `onSubmit`. */
  datatype StoryData = StoryData(title: string, body: string, eventDate: string, memberId: Option<Id>)

  /** A `family_history` row as inserted; absent fields are stored as null. */
  datatype HistoryRow = HistoryRow(
    familyId: Id,
    title: string,
    body: Option<string>,
    eventDate: Option<string>,
    memberId: Option<Id>,
    createdBy: Id)

  /** What the form submits for its fields: nothing when the title is all
      white space; otherwise the title as typed (not trimmed), body and date
      as typed, and the member only when one is chosen. */
  function StoryFor(f: StoryFields): (d: Option<StoryData>)
    ensures d.None? <==> Trim(f.title) == ""
    ensures d.Some? ==> d.value.title == f.title && d.value.body == f.body && d.value.eventDate == f.eventDate
    ensures d.Some? ==> (d.value.memberId.None? <==> f.memberId == "")
    ensures d.Some? && f.memberId != "" ==> d.value.memberId == Some(f.memberId)
  {
    if Trim(f.title) == "" then None
    else Some(StoryData(f.title, f.body, f.eventDate, Truthy(f.memberId)))
  }

  /** `handleAddHistory`'s row: none without a family in the route or a
      signed-in user; otherwise the story with empty body, date and member
      stored as null, created by the user. */
  function InsertRow(familyId: Option<Id>, userId: Option<Id>, d: StoryData): (row: Option<HistoryRow>)
    ensures row.None? <==> familyId.None? || familyId.value == "" || userId.None?
    ensures row.Some? ==> row.value.familyId == familyId.value && row.value.createdBy == userId.value
    ensures row.Some? ==> row.value.title == d.title
    ensures row.Some? ==> (row.value.body.None? <==> d.body == "") && (row.value.eventDate.None? <==> d.eventDate == "")
    ensures row.Some? ==> (row.value.memberId.None? <==> d.memberId.None? || d.memberId.value == "")
  {
    if familyId.None? || familyId.value == "" || userId.None? then None
    else
      var memberId := if d.memberId.Some? then Truthy(d.memberId.value) else None;
      Some(HistoryRow(familyId.value, d.title, Truthy(d.body), Truthy(d.eventDate), memberId, userId.value))
  }

  /** How `handleAddHistory` ends, as the form and the page see it. */
  datatype AddResult = AddResult(inserted: Option<HistoryRow>, outcome: CallOutcome, closeForm: bool)

  /** `handleAddHistory`: without a family or user it returns quietly
      (resolved, nothing inserted, the form stays open); otherwise it inserts
      the row, and an insert error is passed on to the form while success
      closes it. */
  function AddHistory(familyId: Option<Id>, userId: Option<Id>, d: StoryData, insert: CallOutcome): (r: AddResult)
    ensures r.inserted == InsertRow(familyId, userId, d)
    ensures r.inserted.None? ==> r.outcome.Resolved? && !r.closeForm
    ensures r.inserted.Some? ==> r.outcome == insert && (r.closeForm <==> insert.Resolved?)
  {
    var row := InsertRow(familyId, userId, d);
    if row.None? then AddResult(None, Resolved, false)
    else AddResult(row, insert, insert.Resolved?)
  }

  /** What the form stores, end to end: a story submitted from the form is
      saved with a title that is not all white space, exactly as typed, and
      with null for each field left empty, including the member. */
  lemma StoredStory(f: StoryFields, familyId: Id, userId: Id)
    requires Trim(f.title) != "" && familyId != ""
    ensures StoryFor(f).Some?
    ensures InsertRow(Some(familyId), Some(userId), StoryFor(f).value) ==
      Some(HistoryRow(familyId, f.title, Truthy(f.body), Truthy(f.eventDate), Truthy(f.memberId), userId))
    ensures Trim(InsertRow(Some(familyId), Some(userId), StoryFor(f).value).value.title) != ""
  {
  }

  /** The member shown on a story's timeline entry: looked up (first match
      by id) only when the row has a member id. */
  function LinkedMember(members: seq<Member>, row: HistoryRow): (m: Option<Member>)
    ensures row.memberId.None? || row.memberId.value == "" ==> m.None?
    ensures m.Some? ==> m.value in members && Some(m.value.id) == row.memberId
  {
    if row.memberId.Some? && row.memberId.value != "" then Find(members, row.memberId.value) else None
  }

  /** A story saved with a member chosen from the list links back to a
      member with that id; one saved with "None" links to no one. */
  lemma LinkedAfterStore(members: seq<Member>, f: StoryFields, familyId: Id, userId: Id)
    requires Trim(f.title) != "" && familyId != ""
    ensures var row := InsertRow(Some(familyId), Some(userId), StoryFor(f).value).value;
      (f.memberId == "" ==> LinkedMember(members, row).None?) &&
      ((exists m :: m in members && m.id == f.memberId) && f.memberId != "" ==>
        LinkedMember(members, row).Some? && LinkedMember(members, row).value.id == f.memberId)
  {
    StoredStory(f, familyId, userId);
  }

  /** The "Add Story" form. */
  class AddStoryForm {
    var title: string
    var body: string
    var eventDate: string
    var memberId: Id
    var loading: bool
    var error: string

    function Fields(): StoryFields
      reads this
    {
      StoryFields(title, body, eventDate, memberId)
    }

    /** The form as it opens: every field empty, not loading, no error. */
    constructor()
      ensures Fields() == StoryFields("", "", "", "")
      ensures !loading && error == ""
    {
      title, body, eventDate, memberId := "", "", "", "";
      loading := false;
      error := "";
    }

    /** `handleSubmit`. A title that is all white space records the error
        and calls nothing. Otherwise the story for the fields is passed to
        `onSubmit` with `loading` set while the call runs, and the form
        records the call's error message (or the default) when it fails;
        `loading` is false again afterwards either way. */
    method Submit(outcome: CallOutcome) returns (sent: Option<StoryData>, loadingDuringCall: bool)
      modifies this
      ensures Fields() == old(Fields())
      ensures sent == StoryFor(old(Fields()))
      ensures sent.None? ==> error == TitleRequired && loading == old(loading) && !loadingDuringCall
      ensures sent.Some? ==> loadingDuringCall && !loading
      ensures sent.Some? && outcome.Resolved? ==> error == ""
      ensures sent.Some? && outcome.Rejected? ==> error == Pick(outcome.message, AddFailed)
    {
      loadingDuringCall := false;
      if Trim(title) == "" {
        error := TitleRequired;
        sent := None;
        return;
      }
      loading := true;
      error := "";
      sent := Some(StoryData(title, body, eventDate, Truthy(memberId)));
      loadingDuringCall := loading;
      match outcome {
        case Resolved =>
        case Rejected(message) =>
          error := Pick(message, AddFailed);
      }
      loading := false;
    }
  }

  /** Submitting the form into the page: without a family or user the form
      neither closes nor shows an error; an insert failure shows its message
      (or the default) and keeps the form open. */
  lemma SubmitThroughPage(f: StoryFields, familyId: Option<Id>, userId: Option<Id>, insert: CallOutcome)
    requires Trim(f.title) != ""
    ensures var r := AddHistory(familyId, userId, StoryFor(f).value, insert);
      (familyId.None? || familyId.value == "" || userId.None? ==>
         r.inserted.None? && r.outcome == Resolved && !r.closeForm) &&
      (familyId.Some? && familyId.value != "" && userId.Some? && insert.Rejected? ==>
         r.inserted.Some? && r.outcome == insert && !r.closeForm)
  {
  }
}

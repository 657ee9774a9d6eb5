/** The "Add Family Member" form: its fields, the handlers that update
    them, the duplicate-suggestion panel and the submit handler, which
    either links an existing person or creates a new one. */
module AddMemberModal {
  import opened Common
  import opened Text

  const NameRequired := "Please enter a name or select an existing person."
  const AddFailed := "Failed to add member"

  /** The new person's fields as submitted. */
  datatype PersonData = PersonData(
    canonicalName: string,
    birthDate: Option<string>,
    deathDate: Option<string>,
    gender: Option<string>,
    occupation: Option<string>)

  /** The argument of `onSubmit`. */
  datatype Submission = Submission(
    personData: Option<PersonData>,
    displayName: Option<string>,
    notes: Option<string>,
    isLiving: bool,
    existingPersonId: Option<Id>)

  /** All the form's fields at one moment. */
  datatype Fields = Fields(
    name: string,
    birthDate: string,
    deathDate: string,
    gender: string,
    occupation: string,
    displayName: string,
    notes: string,
    isLiving: bool,
    error: string,
    selectedExistingPerson: Option<Id>)

  /** A selection is in force when it holds a non-empty person id. */
  predicate Linking(selected: Option<Id>)
  {
    selected.Some? && selected.value != ""
  }

  /** The duplicate query runs for names longer than two characters. */
  predicate DuplicateQueryEnabled(name: string)
  {
    |name| > 2
  }

  /** The argument passed to `onSubmit` for the given fields: the selected
      person with no person data when linking, otherwise new person data
      with the trimmed name; empty optional fields are sent as absent. */
  function SubmissionFor(f: Fields): (s: Submission)
    ensures Linking(f.selectedExistingPerson) ==>
      s.existingPersonId == f.selectedExistingPerson && s.personData.None?
    ensures !Linking(f.selectedExistingPerson) ==> s.existingPersonId.None? && s.personData.Some?
    ensures s.personData.Some? ==> s.personData.value == PersonData(
      Trim(f.name), Truthy(f.birthDate), Truthy(f.deathDate), Truthy(f.gender), Truthy(f.occupation))
    ensures s.displayName == Truthy(f.displayName) && s.notes == Truthy(f.notes) && s.isLiving == f.isLiving
  {
    if Linking(f.selectedExistingPerson) then
      Submission(None, Truthy(f.displayName), Truthy(f.notes), f.isLiving, f.selectedExistingPerson)
    else
      Submission(
        Some(PersonData(Trim(f.name), Truthy(f.birthDate), Truthy(f.deathDate), Truthy(f.gender), Truthy(f.occupation))),
        Truthy(f.displayName), Truthy(f.notes), f.isLiving, None)
  }

  /** The submit check: a name that is not all white space, or a selection. */
  predicate CanSubmit(f: Fields)
  {
    Trim(f.name) != "" || Linking(f.selectedExistingPerson)
  }

  /** Submitting never creates a person whose name is empty or starts or
      ends with white space, and never sends a death date for a living
      person when the form keeps its living/death-date rule. */
  lemma SubmissionWellFormed(f: Fields)
    requires CanSubmit(f)
    requires f.isLiving ==> f.deathDate == ""
    ensures var s := SubmissionFor(f);
      s.personData.Some? ==>
        s.personData.value.canonicalName != "" &&
        !IsSpace(s.personData.value.canonicalName[0]) &&
        !IsSpace(s.personData.value.canonicalName[|s.personData.value.canonicalName| - 1]) &&
        (f.isLiving ==> s.personData.value.deathDate.None?)
  {
  }

  class Form {
    var name: string
    var birthDate: string
    var deathDate: string
    var gender: string
    var occupation: string
    var displayName: string
    var notes: string
    var isLiving: bool
    var error: string
    var selectedExistingPerson: Option<Id>
    /** Set once `onClose` has been called. */
    var closeRequested: bool

    function State(): Fields
      reads this
    {
      Fields(name, birthDate, deathDate, gender, occupation, displayName, notes, isLiving, error, selectedExistingPerson)
    }

    /** A living person has no death date: the death-date input is disabled
        while "Living" is checked and checking it clears the date. */
    predicate Valid()
      reads this
    {
      isLiving ==> deathDate == ""
    }

    /** The panel of similar people shows with no selection and a name
        longer than two characters. */
    predicate DuplicatePanelShown()
      reads this
    {
      !Linking(selectedExistingPerson) && |name| > 2
    }

    /** The form as it opens: every text field empty, "Living" checked, no selection. */
    constructor()
      ensures State() == Fields("", "", "", "", "", "", "", true, "", None)
      ensures !closeRequested
      ensures Valid()
    {
      name, birthDate, deathDate, gender, occupation := "", "", "", "", "";
      displayName, notes := "", "";
      isLiving := true;
      error := "";
      selectedExistingPerson := None;
      closeRequested := false;
    }

    /** Typing a name replaces it and drops any selection. */
    method TypeName(value: string)
      requires Valid()
      modifies this
      ensures State() == old(State()).(name := value, selectedExistingPerson := None)
      ensures closeRequested == old(closeRequested)
      ensures Valid()
    {
      name := value;
      selectedExistingPerson := None;
    }

    /** Picking a suggested person selects it and shows its name. */
    method SelectExisting(personId: Id, personName: string)
      requires Valid()
      modifies this
      ensures State() == old(State()).(name := personName, selectedExistingPerson := Some(personId))
      ensures closeRequested == old(closeRequested)
      ensures Valid()
    {
      selectedExistingPerson := Some(personId);
      name := personName;
    }

    /** "Clear" drops the selection and keeps the name. */
    method ClearSelection()
      requires Valid()
      modifies this
      ensures State() == old(State()).(selectedExistingPerson := None)
      ensures closeRequested == old(closeRequested)
      ensures Valid()
    {
      selectedExistingPerson := None;
    }

    /** Entering a death date; a non-empty one unchecks "Living". */
    method EnterDeathDate(value: string)
      requires Valid()
      modifies this
      ensures State() == old(State()).(deathDate := value, isLiving := if value != "" then false else old(isLiving))
      ensures closeRequested == old(closeRequested)
      ensures Valid()
    {
      deathDate := value;
      if value != "" {
        isLiving := false;
      }
    }

    /** Toggling "Living"; checking it clears the death date. */
    method SetLiving(checked: bool)
      requires Valid()
      modifies this
      ensures State() == old(State()).(isLiving := checked, deathDate := if checked then "" else old(deathDate))
      ensures closeRequested == old(closeRequested)
      ensures Valid()
    {
      isLiving := checked;
      if checked {
        deathDate := "";
      }
    }

    /** `handleSubmit`. Without a usable name or a selection it records the
        error and calls nothing. Otherwise it calls `onSubmit` once with the
        submission for the current fields; on success it requests closing,
        on failure it records the error's message or the default one. */
    method Submit(outcome: CallOutcome) returns (sent: Option<Submission>)
      requires Valid()
      modifies this
      ensures !CanSubmit(old(State())) ==>
        sent.None? && error == NameRequired && closeRequested == old(closeRequested)
      ensures CanSubmit(old(State())) ==> sent == Some(SubmissionFor(old(State())))
      ensures CanSubmit(old(State())) && outcome.Resolved? ==> error == "" && closeRequested
      ensures CanSubmit(old(State())) && outcome.Rejected? ==>
        error == Pick(outcome.message, AddFailed) && closeRequested == old(closeRequested)
      ensures State() == old(State()).(error := error)
      ensures Valid()
    {
      error := "";
      if !CanSubmit(State()) {
        error := NameRequired;
        return None;
      }
      sent := Some(SubmissionFor(State()));
      match outcome {
        case Resolved =>
          closeRequested := true;
        case Rejected(message) =>
          error := Pick(message, AddFailed);
      }
    }
  }

  /** Whenever the panel of similar people shows, the query that fills it is enabled. */
  lemma PanelImpliesQuery(f: Form)
    requires f.DuplicatePanelShown()
    ensures DuplicateQueryEnabled(f.name)
  {
  }

  /** Picking a suggestion (whose id is never empty) hides the panel, keeps
      the form submittable and makes the submit link that person rather
      than create one. */
  lemma SelectionLinks(f: Fields, personId: Id, personName: string)
    requires personId != ""
    ensures var g := f.(name := personName, selectedExistingPerson := Some(personId));
      CanSubmit(g) && SubmissionFor(g).existingPersonId == Some(personId) && SubmissionFor(g).personData.None?
  {
  }
}

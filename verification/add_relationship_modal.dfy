/** The "Add Relationship" form: a parent, a child and a relation type
    chosen from the family's members, checked on submit, with each list
    disabling the member chosen in the other. */
module AddRelationshipModal {
  import opened Common
  import opened Records
  import FamilyView

  const SelectBoth := "Please select both parent and child."
  const OwnParent := "A person cannot be their own parent."
  const AddFailed := "Failed to add relationship"

  /** The argument of `onSubmit`. */
  datatype RelationshipRequest = RelationshipRequest(parentMemberId: Id, childMemberId: Id, relationType: string)

  /** The submit check: both sides chosen first, then distinct. */
  function Validate(parentId: Id, childId: Id): (err: Option<string>)
    ensures err == Some(SelectBoth) <==> parentId == "" || childId == ""
    ensures err == Some(OwnParent) <==> parentId != "" && childId != "" && parentId == childId
    ensures err.None? <==> parentId != "" && childId != "" && parentId != childId
  {
    if parentId == "" || childId == "" then Some(SelectBoth)
    else if parentId == childId then Some(OwnParent)
    else None
  }

  /** A member's entry text: the shown name ('Unknown' when there is none),
      followed by ` (b. YEAR)` when the person has a birth date; `yearOf`
      stands for the year read from the date. */
  function MemberLabel(m: Member, yearOf: string -> string): (text: string)
    ensures var name := ShownName(m, "Unknown");
      |name| <= |text| && text[..|name|] == name &&
      (|text| > |name| <==> Truthy(Pick(PersonField(m, (p: Person) => p.birthDate), "")).Some?)
    ensures var name, birth := ShownName(m, "Unknown"), Pick(PersonField(m, (p: Person) => p.birthDate), "");
      (birth != "" ==> text == name + " (b. " + yearOf(birth) + ")") && (birth == "" ==> text == name)
  {
    var name := ShownName(m, "Unknown");
    var birth := PersonField(m, (p: Person) => p.birthDate);
    if birth.Some? && birth.value != "" then name + " (b. " + yearOf(birth.value) + ")" else name
  }

  /** One entry of a member drop-down: the member's id and whether it is disabled. */
  datatype MemberOption = MemberOption(id: Id, disabled: bool)

  /** The member entries of a drop-down, in member order; the entry equal to
      the other list's current choice is disabled. */
  function Options(members: seq<Member>, otherChoice: Id): (opts: seq<MemberOption>)
    ensures |opts| == |members|
    ensures forall i :: 0 <= i < |members| ==>
      opts[i].id == members[i].id && (opts[i].disabled <==> members[i].id == otherChoice)
    decreases |members|
  {
    if members == [] then []
    else [MemberOption(members[0].id, members[0].id == otherChoice)] + Options(members[1..], otherChoice)
  }

  /** Choosing only enabled member entries never gives the own-parent
      error: a pair chosen that way passes the check. */
  lemma EnabledChoicesValidate(members: seq<Member>, parentId: Id, childId: Id)
    requires forall m :: m in members ==> m.id != ""
    requires exists o :: o in Options(members, childId) && !o.disabled && o.id == parentId
    requires exists i :: 0 <= i < |members| && members[i].id == childId
    ensures Validate(parentId, childId).None?
  {
    var opts := Options(members, childId);
    var o :| o in opts && !o.disabled && o.id == parentId;
    var k :| 0 <= k < |opts| && opts[k] == o;
    assert members[k] in members;
    var i :| 0 <= i < |members| && members[i].id == childId;
    assert members[i] in members;
  }

  /** With members of distinct, non-empty ids, "Add Relationship" is enabled
      exactly when the form can be completed: some parent and child among
      the members pass the check. */
  lemma EnabledIffPairExists(members: seq<Member>)
    requires forall i :: 0 <= i < |members| ==> members[i].id != ""
    requires forall i, j :: 0 <= i < j < |members| ==> members[i].id != members[j].id
    ensures FamilyView.AddRelationshipEnabled(members) <==>
      exists i, j :: 0 <= i < |members| && 0 <= j < |members| && Validate(members[i].id, members[j].id).None?
  {
    if FamilyView.AddRelationshipEnabled(members) {
      assert Validate(members[0].id, members[1].id).None?;
    }
  }

  class Form {
    var parentId: Id
    var childId: Id
    var relationType: string
    var error: string
    /** Set once `onClose` has been called. */
    var closeRequested: bool

    /** The form as it opens: the preselected member (if any) as parent, no
        child, relation type 'biological', no error. */
    constructor(preselectedMemberId: Option<Id>)
      ensures parentId == Pick(preselectedMemberId, "") && childId == ""
      ensures relationType == "biological" && error == "" && !closeRequested
    {
      parentId := Pick(preselectedMemberId, "");
      childId := "";
      relationType := "biological";
      error := "";
      closeRequested := false;
    }

    method ChooseParent(id: Id)
      modifies this
      ensures parentId == id
      ensures childId == old(childId) && relationType == old(relationType) && error == old(error)
      ensures closeRequested == old(closeRequested)
    {
      parentId := id;
    }

    method ChooseChild(id: Id)
      modifies this
      ensures childId == id
      ensures parentId == old(parentId) && relationType == old(relationType) && error == old(error)
      ensures closeRequested == old(closeRequested)
    {
      childId := id;
    }

    method ChooseRelationType(t: string)
      modifies this
      ensures relationType == t
      ensures parentId == old(parentId) && childId == old(childId) && error == old(error)
      ensures closeRequested == old(closeRequested)
    {
      relationType := t;
    }

    /** `handleSubmit`: a failed check records its message and calls
        nothing; otherwise `onSubmit` gets exactly the chosen parent, child
        and type, and the form closes on success or records the error's
        message (or the default) on failure. */
    method Submit(outcome: CallOutcome) returns (sent: Option<RelationshipRequest>)
      modifies this
      ensures parentId == old(parentId) && childId == old(childId) && relationType == old(relationType)
      ensures Validate(parentId, childId).Some? ==>
        sent.None? && error == Validate(parentId, childId).value && closeRequested == old(closeRequested)
      ensures Validate(parentId, childId).None? ==>
        sent == Some(RelationshipRequest(parentId, childId, relationType))
      ensures Validate(parentId, childId).None? && outcome.Resolved? ==> error == "" && closeRequested
      ensures Validate(parentId, childId).None? && outcome.Rejected? ==>
        error == Pick(outcome.message, AddFailed) && closeRequested == old(closeRequested)
    {
      error := "";
      var check := Validate(parentId, childId);
      if check.Some? {
        error := check.value;
        return None;
      }
      sent := Some(RelationshipRequest(parentId, childId, relationType));
      match outcome {
        case Resolved =>
          closeRequested := true;
        case Rejected(message) =>
          error := Pick(message, AddFailed);
      }
    }
  }
}

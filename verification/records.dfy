/** The rows the pages and hooks read, reduced to the fields they use.

    Two shapes of relationship row are read by the application: the
    layout hook and the profile page read parent/child/type fields, while
    the declared `Relationship` interface and the member list read
    member_1/member_2/type/subtype fields. Each module reads the shape its
    source file reads. */
module Records {
  import opened Common

  /** A person row (`persons` table), as far as the modelled code reads it. */
  datatype Person = Person(
    id: Id,
    canonicalName: string,
    birthDate: Option<string>,
    deathDate: Option<string>,
    gender: Option<string>,
    occupation: Option<string>,
    photoUrl: Option<string>)

  /** A family member row joined with its person (`person` may be missing). */
  datatype Member = Member(
    id: Id,
    personId: Id,
    displayName: Option<string>,
    notes: Option<string>,
    isLiving: bool,
    person: Option<Person>)

  /** A relationship row as read through parent_member_id / child_member_id / relation_type. */
  datatype ParentLink = ParentLink(
    id: Id,
    parentMemberId: Id,
    childMemberId: Id,
    relationType: string)

  /** A relationship row as declared: member_1_id / member_2_id / relationship_type / relation_subtype. */
  datatype Relationship = Relationship(
    id: Id,
    member1Id: Id,
    member2Id: Id,
    relationshipType: string,
    relationSubtype: string)

  /** `m.person?.canonical_name`. */
  function CanonicalName(m: Member): Option<string>
  {
    if m.person.Some? then Some(m.person.value.canonicalName) else None
  }

  /** `m.person?.<field>` for the optional person fields. */
  function PersonField(m: Member, field: Person -> Option<string>): Option<string>
  {
    if m.person.Some? then field(m.person.value) else None
  }

  /** `m.display_name || m.person?.canonical_name || fallback`. */
  function ShownName(m: Member, fallback: string): (r: string)
    ensures m.displayName.Some? && m.displayName.value != "" ==> r == m.displayName.value
    ensures (m.displayName.None? || m.displayName.value == "") ==> r == Pick(CanonicalName(m), fallback)
  {
    Pick(m.displayName, Pick(CanonicalName(m), fallback))
  }

  /** `members.find(m => m.id === id)`: the FIRST member with that id. */
  function Find(members: seq<Member>, id: Id): (r: Option<Member>)
    ensures r.None? <==> forall m :: m in members ==> m.id != id
    ensures r.Some? ==> r.value in members && r.value.id == id
    ensures r.Some? ==> exists i :: 0 <= i < |members| && members[i] == r.value
                                   && forall j :: 0 <= j < i ==> members[j].id != id
    decreases |members|
  {
    if members == [] then None
    else if members[0].id == id then Some(members[0])
    else
      var r := Find(members[1..], id);
      if r.Some? then
        assert forall j :: 1 <= j < |members| ==> members[j] == members[1..][j - 1];
        r
      else r
  }
}

/** The member profile page: the parents, children and siblings derived
    from the relationship rows, the cards actually rendered for them, and
    the update sent when an edit is saved. Relationship rows are read
    through parent / child / relation type. */
module MemberProfile {
  import opened Common
  import opened Records

  // ---------------------------------------------------------------------
  // Parents and children
  // ---------------------------------------------------------------------

  /** A relationship row paired with the member found at its other end (if any). */
  datatype LinkedRow = LinkedRow(link: ParentLink, member: Option<Member>)

  /** The rows whose child is the member, in row order. */
  function RowsAsChild(rels: seq<ParentLink>, memberId: Id): (rows: seq<ParentLink>)
    ensures SubsequenceOf(rows, rels)
    ensures forall r :: r in rows <==> r in rels && r.childMemberId == memberId
    decreases |rels|
  {
    if rels == [] then []
    else
      var rest := RowsAsChild(rels[1..], memberId);
      if rels[0].childMemberId == memberId then [rels[0]] + rest
      else
        SubsequenceOfTail(rest, rels);
        rest
  }

  /** The rows whose parent is the member, in row order. */
  function RowsAsParent(rels: seq<ParentLink>, memberId: Id): (rows: seq<ParentLink>)
    ensures SubsequenceOf(rows, rels)
    ensures forall r :: r in rows <==> r in rels && r.parentMemberId == memberId
    decreases |rels|
  {
    if rels == [] then []
    else
      var rest := RowsAsParent(rels[1..], memberId);
      if rels[0].parentMemberId == memberId then [rels[0]] + rest
      else
        SubsequenceOfTail(rest, rels);
        rest
  }

  /** The child-row filter keeps each row as often as it is listed: it maps
      a concatenation to the concatenation of the two filtered lists, and a
      one-row list to itself or to `[]`. */
  lemma {:induction false} RowsAsChildAppend(a: seq<ParentLink>, b: seq<ParentLink>, memberId: Id)
    ensures RowsAsChild(a + b, memberId) == RowsAsChild(a, memberId) + RowsAsChild(b, memberId)
    ensures |a| == 1 ==> RowsAsChild(a, memberId) == (if a[0].childMemberId == memberId then a else [])
    decreases |a|
  {
    if a != [] {
      assert (a + b)[0] == a[0] && (a + b)[1..] == a[1..] + b;
      RowsAsChildAppend(a[1..], b, memberId);
      if |a| == 1 {
        assert a[1..] == [];
      }
    } else {
      assert a + b == b;
    }
  }

  /** The same for the parent-row filter. */
  lemma {:induction false} RowsAsParentAppend(a: seq<ParentLink>, b: seq<ParentLink>, memberId: Id)
    ensures RowsAsParent(a + b, memberId) == RowsAsParent(a, memberId) + RowsAsParent(b, memberId)
    ensures |a| == 1 ==> RowsAsParent(a, memberId) == (if a[0].parentMemberId == memberId then a else [])
    decreases |a|
  {
    if a != [] {
      assert (a + b)[0] == a[0] && (a + b)[1..] == a[1..] + b;
      RowsAsParentAppend(a[1..], b, memberId);
      if |a| == 1 {
        assert a[1..] == [];
      }
    } else {
      assert a + b == b;
    }
  }

  /** Each row is a parent row of its child exactly when it is a child row of its parent. */
  lemma RowsAsChildAndParent(rels: seq<ParentLink>, r: ParentLink)
    ensures r in RowsAsChild(rels, r.childMemberId) <==> r in RowsAsParent(rels, r.parentMemberId)
  {
  }

  /** Pairs each row with the first member whose id is `side` of the row. */
  function Resolve(rows: seq<ParentLink>, members: seq<Member>, side: ParentLink -> Id): (linked: seq<LinkedRow>)
    ensures |linked| == |rows|
    ensures forall i :: 0 <= i < |rows| ==> linked[i].link == rows[i] && linked[i].member == Find(members, side(rows[i]))
    decreases |rows|
  {
    if rows == [] then []
    else [LinkedRow(rows[0], Find(members, side(rows[0])))] + Resolve(rows[1..], members, side)
  }

  /** `parents`: the rows whose child is the member, each with its parent member. */
  function Parents(rels: seq<ParentLink>, members: seq<Member>, memberId: Id): (parents: seq<LinkedRow>)
    ensures |parents| == |RowsAsChild(rels, memberId)|
    ensures forall i :: 0 <= i < |parents| ==>
      parents[i].link == RowsAsChild(rels, memberId)[i] &&
      parents[i].link.childMemberId == memberId &&
      parents[i].member == Find(members, parents[i].link.parentMemberId)
  {
    var rows := RowsAsChild(rels, memberId);
    assert forall i :: 0 <= i < |rows| ==> rows[i] in rows;
    Resolve(rows, members, (r: ParentLink) => r.parentMemberId)
  }

  /** `children`: the rows whose parent is the member, each with its child member. */
  function Children(rels: seq<ParentLink>, members: seq<Member>, memberId: Id): (children: seq<LinkedRow>)
    ensures |children| == |RowsAsParent(rels, memberId)|
    ensures forall i :: 0 <= i < |children| ==>
      children[i].link == RowsAsParent(rels, memberId)[i] &&
      children[i].link.parentMemberId == memberId &&
      children[i].member == Find(members, children[i].link.childMemberId)
  {
    var rows := RowsAsParent(rels, memberId);
    assert forall i :: 0 <= i < |rows| ==> rows[i] in rows;
    Resolve(rows, members, (r: ParentLink) => r.childMemberId)
  }

  /** A relation card: the member shown and the relation type printed on it. */
  datatype Card = Card(member: Member, relationType: string)

  /** The cards rendered for parents or children: rows whose member was not
      found render nothing; the others keep their order. */
  function Cards(linked: seq<LinkedRow>): (cards: seq<Card>)
    ensures |cards| <= |linked|
    ensures forall c :: c in cards <==>
      exists e :: e in linked && e.member == Some(c.member) && e.link.relationType == c.relationType
    decreases |linked|
  {
    if linked == [] then []
    else
      var e := linked[0];
      var rest := Cards(linked[1..]);
      if e.member.Some? then [Card(e.member.value, e.link.relationType)] + rest else rest
  }

  /** When every related member is found, one card is rendered per row. */
  lemma {:induction false} AllResolvedAllShown(linked: seq<LinkedRow>)
    requires forall e :: e in linked ==> e.member.Some?
    ensures |Cards(linked)| == |linked|
    decreases |linked|
  {
    if linked != [] {
      assert linked[0] in linked;
      assert forall e :: e in linked[1..] ==> e in linked;
      AllResolvedAllShown(linked[1..]);
    }
  }

  /** Every entry renders in place: a found member gives one card with the
      row's relation type, a missing one nothing, and the cards of joined
      lists are the joined cards, so cards keep the rows' order. */
  lemma {:induction false} CardsAppend(a: seq<LinkedRow>, b: seq<LinkedRow>)
    ensures Cards(a + b) == Cards(a) + Cards(b)
    ensures |a| == 1 ==>
      Cards(a) == (if a[0].member.Some? then [Card(a[0].member.value, a[0].link.relationType)] else [])
    decreases |a|
  {
    if a != [] {
      var e := a[0];
      var head := if e.member.Some? then [Card(e.member.value, e.link.relationType)] else [];
      assert (a + b)[0] == e && (a + b)[1..] == a[1..] + b;
      assert Cards(a + b) == head + Cards(a[1..] + b);
      assert Cards(a) == head + Cards(a[1..]);
      CardsAppend(a[1..], b);
    } else {
      assert a + b == b;
    }
  }

  // ---------------------------------------------------------------------
  // Siblings
  // ---------------------------------------------------------------------

  /** `parents.some(p => p.parent_member_id === parentId)`. */
  function SomeParentIs(parents: seq<LinkedRow>, parentId: Id): (b: bool)
    ensures b <==> exists p :: p in parents && p.link.parentMemberId == parentId
    decreases |parents|
  {
    if parents == [] then false
    else parents[0].link.parentMemberId == parentId || SomeParentIs(parents[1..], parentId)
  }

  /** `relationships.some(r => r.child_member_id === id && <r's parent is one of `parents`>)`. */
  function HasSharedParent(rels: seq<ParentLink>, parents: seq<LinkedRow>, id: Id): (b: bool)
    ensures b <==> exists r :: r in rels && r.childMemberId == id && SomeParentIs(parents, r.parentMemberId)
    decreases |rels|
  {
    if rels == [] then false
    else (rels[0].childMemberId == id && SomeParentIs(parents, rels[0].parentMemberId))
         || HasSharedParent(rels[1..], parents, id)
  }

  /** The members other than `memberId` that share a parent row with it, in member order. */
  function SiblingFilter(members: seq<Member>, rels: seq<ParentLink>, parents: seq<LinkedRow>, memberId: Id): (r: seq<Member>)
    ensures SubsequenceOf(r, members)
    ensures forall m :: m in r <==> m in members && m.id != memberId && HasSharedParent(rels, parents, m.id)
    decreases |members|
  {
    if members == [] then []
    else
      var m := members[0];
      var rest := SiblingFilter(members[1..], rels, parents, memberId);
      if m.id != memberId && HasSharedParent(rels, parents, m.id) then [m] + rest
      else
        SubsequenceOfTail(rest, members);
        rest
  }

  /** The sibling filter keeps each qualifying member as often as it is
      listed: it maps a concatenation to the concatenation of the two
      filtered lists, and a one-member list to itself or to `[]`. */
  lemma {:induction false} SiblingFilterAppend(a: seq<Member>, b: seq<Member>, rels: seq<ParentLink>,
                                               parents: seq<LinkedRow>, memberId: Id)
    ensures SiblingFilter(a + b, rels, parents, memberId) ==
              SiblingFilter(a, rels, parents, memberId) + SiblingFilter(b, rels, parents, memberId)
    ensures |a| == 1 ==>
              SiblingFilter(a, rels, parents, memberId) ==
                (if a[0].id != memberId && HasSharedParent(rels, parents, a[0].id) then a else [])
    decreases |a|
  {
    if a != [] {
      assert (a + b)[0] == a[0] && (a + b)[1..] == a[1..] + b;
      SiblingFilterAppend(a[1..], b, rels, parents, memberId);
      if |a| == 1 {
        assert a[1..] == [];
      }
    } else {
      assert a + b == b;
    }
  }

  /** Two members share a parent: some row has `id` as child and some row has
      `memberId` as child, both with the same parent. */
  ghost predicate ShareParent(rels: seq<ParentLink>, id: Id, memberId: Id)
  {
    exists r, p :: r in rels && p in rels && r.childMemberId == id && p.childMemberId == memberId
                   && p.parentMemberId == r.parentMemberId
  }

  /** `siblings`: empty when the member has no parent row, otherwise the other
      members sharing one of its parents, in member order. */
  function Siblings(rels: seq<ParentLink>, members: seq<Member>, memberId: Id): (siblings: seq<Member>)
    ensures RowsAsChild(rels, memberId) == [] ==> siblings == []
    ensures SubsequenceOf(siblings, members)
    ensures forall m :: m in siblings ==> m.id != memberId
    ensures forall m :: m in siblings <==> m in members && m.id != memberId && ShareParent(rels, m.id, memberId)
  {
    var parents := Parents(rels, members, memberId);
    if |parents| > 0 then
      var r := SiblingFilter(members, rels, parents, memberId);
      SharedParentMeaning(rels, members, memberId);
      r
    else
      assert RowsAsChild(rels, memberId) == [];
      assert forall p :: p in rels ==> p.childMemberId != memberId;
      []
  }

  /** The search over rows and parents means "shares a parent with the member". */
  lemma SharedParentMeaning(rels: seq<ParentLink>, members: seq<Member>, memberId: Id)
    ensures forall id :: HasSharedParent(rels, Parents(rels, members, memberId), id) <==> ShareParent(rels, id, memberId)
  {
    var parents := Parents(rels, members, memberId);
    var rows := RowsAsChild(rels, memberId);
    forall pid ensures SomeParentIs(parents, pid) <==> exists p :: p in rels && p.childMemberId == memberId && p.parentMemberId == pid {
      if SomeParentIs(parents, pid) {
        var e :| e in parents && e.link.parentMemberId == pid;
        var i :| 0 <= i < |parents| && parents[i] == e;
        assert rows[i] in rows;
      }
      if p :| p in rels && p.childMemberId == memberId && p.parentMemberId == pid {
        assert p in rows;
        var i :| 0 <= i < |rows| && rows[i] == p;
        assert parents[i] in parents;
      }
    }
  }

  /** With no repeated members, no sibling is listed twice. */
  lemma SiblingsDistinct(rels: seq<ParentLink>, members: seq<Member>, memberId: Id)
    requires Distinct(members)
    ensures Distinct(Siblings(rels, members, memberId))
  {
    SubsequenceDistinct(Siblings(rels, members, memberId), members);
  }

  // ---------------------------------------------------------------------
  // Editing and saving
  // ---------------------------------------------------------------------

  /** The edit form's fields. */
  datatype EditData = EditData(
    canonicalName: string,
    birthDate: string,
    deathDate: string,
    gender: string,
    occupation: string,
    displayName: string,
    notes: string,
    isLiving: bool)

  /** The form as filled from a loaded member: absent or empty values become "". */
  function EditDataOf(m: Member): (d: EditData)
    ensures d.isLiving == m.isLiving
    ensures d.displayName == Pick(m.displayName, "") && d.notes == Pick(m.notes, "")
    ensures d.canonicalName == Pick(CanonicalName(m), "")
    ensures d.birthDate == Pick(PersonField(m, (p: Person) => p.birthDate), "")
    ensures d.deathDate == Pick(PersonField(m, (p: Person) => p.deathDate), "")
    ensures d.gender == Pick(PersonField(m, (p: Person) => p.gender), "")
    ensures d.occupation == Pick(PersonField(m, (p: Person) => p.occupation), "")
  {
    EditData(
      Pick(CanonicalName(m), ""),
      Pick(PersonField(m, (p: Person) => p.birthDate), ""),
      Pick(PersonField(m, (p: Person) => p.deathDate), ""),
      Pick(PersonField(m, (p: Person) => p.gender), ""),
      Pick(PersonField(m, (p: Person) => p.occupation), ""),
      Pick(m.displayName, ""),
      Pick(m.notes, ""),
      m.isLiving)
  }

  datatype MemberUpdates = MemberUpdates(displayName: Option<string>, notes: Option<string>, isLiving: bool)

  datatype PersonUpdates = PersonUpdates(
    canonicalName: string,
    birthDate: Option<string>,
    deathDate: Option<string>,
    gender: Option<string>,
    occupation: Option<string>)

  /** The arguments of the member update mutation. */
  datatype SavePayload = SavePayload(memberId: Id, personId: Id, updates: MemberUpdates, personUpdates: PersonUpdates)

  /** `handleSave`: nothing is sent when the member is not loaded; otherwise
      empty optional fields are sent as absent and the canonical name as it
      stands, even when empty. */
  function SaveFor(member: Option<Member>, d: EditData): (payload: Option<SavePayload>)
    ensures member.None? <==> payload.None?
    ensures payload.Some? ==> payload.value.memberId == member.value.id && payload.value.personId == member.value.personId
    ensures payload.Some? ==> payload.value.personUpdates.canonicalName == d.canonicalName
    ensures payload.Some? ==> payload.value.updates.isLiving == d.isLiving
    ensures payload.Some? ==> payload.value.updates.displayName == Truthy(d.displayName)
    ensures payload.Some? ==> payload.value.updates.notes == Truthy(d.notes)
    ensures payload.Some? ==> var pu := payload.value.personUpdates;
      pu.birthDate == Truthy(d.birthDate) && pu.deathDate == Truthy(d.deathDate)
      && pu.gender == Truthy(d.gender) && pu.occupation == Truthy(d.occupation)
  {
    if member.None? then None
    else
      var m := member.value;
      Some(SavePayload(
        m.id,
        m.personId,
        MemberUpdates(Truthy(d.displayName), Truthy(d.notes), d.isLiving),
        PersonUpdates(d.canonicalName, Truthy(d.birthDate), Truthy(d.deathDate), Truthy(d.gender), Truthy(d.occupation))))
  }

  /** An optional text field with no empty string stored in it. */
  predicate NoEmpty(o: Option<string>)
  {
    o.None? || o.value != ""
  }

  /** Saving the form unchanged sends back what was loaded: each optional
      field as stored (given no field holds an empty string) and the
      liveness flag. */
  lemma SaveUnchangedRoundTrip(m: Member)
    requires m.person.Some?
    requires NoEmpty(m.displayName) && NoEmpty(m.notes)
    requires var p := m.person.value;
      NoEmpty(p.birthDate) && NoEmpty(p.deathDate) && NoEmpty(p.gender) && NoEmpty(p.occupation)
    ensures var payload := SaveFor(Some(m), EditDataOf(m));
      payload.Some? &&
      payload.value.updates == MemberUpdates(m.displayName, m.notes, m.isLiving) &&
      payload.value.personUpdates == PersonUpdates(
        m.person.value.canonicalName, m.person.value.birthDate, m.person.value.deathDate,
        m.person.value.gender, m.person.value.occupation)
  {
  }
}

/** The family page: the member search box, the per-member relationship
    look-ups shown on each card, and the creation of the relationships
    chosen in the "Add Member" form once the new member exists.
    Relationship rows are read through member_1 / member_2 / type. */
module FamilyView {
  import opened Common
  import opened Records
  import opened Text

  // ---------------------------------------------------------------------
  // Member search
  // ---------------------------------------------------------------------

  /** The text a member is searched by: display name, else canonical name, else "". */
  function SearchText(m: Member): string
  {
    ShownName(m, "")
  }

  /** The member matches the query when the lower-cased query occurs in the
      lower-cased search text; `lower` stands for `toLowerCase`. */
  predicate Matches(m: Member, query: string, lower: string -> string)
  {
    Includes(lower(SearchText(m)), lower(query))
  }

  /** `filteredMembers`: the members matching the search box, in list order. */
  function FilteredMembers(members: seq<Member>, query: string, lower: string -> string): (r: seq<Member>)
    ensures SubsequenceOf(r, members)
    ensures forall m :: m in r <==> m in members && Matches(m, query, lower)
    decreases |members|
  {
    if members == [] then []
    else
      var rest := FilteredMembers(members[1..], query, lower);
      if Matches(members[0], query, lower) then [members[0]] + rest
      else
        SubsequenceOfTail(rest, members);
        rest
  }

  /** The filter keeps each matching member as often as it is listed: it
      maps a concatenation to the concatenation of the two filtered lists,
      and a one-member list to itself or to `[]`. */
  lemma {:induction false} FilteredMembersAppend(a: seq<Member>, b: seq<Member>, query: string, lower: string -> string)
    ensures FilteredMembers(a + b, query, lower) == FilteredMembers(a, query, lower) + FilteredMembers(b, query, lower)
    ensures |a| == 1 ==> FilteredMembers(a, query, lower) == (if Matches(a[0], query, lower) then a else [])
    decreases |a|
  {
    if a != [] {
      assert (a + b)[0] == a[0] && (a + b)[1..] == a[1..] + b;
      FilteredMembersAppend(a[1..], b, query, lower);
      if |a| == 1 {
        assert a[1..] == [];
      }
    } else {
      assert a + b == b;
    }
  }

  /** An empty search box keeps every member, in order (lower-casing leaves
      the empty string empty). */
  lemma {:induction false} EmptyQueryKeepsAll(members: seq<Member>, lower: string -> string)
    requires lower("") == ""
    ensures FilteredMembers(members, "", lower) == members
    decreases |members|
  {
    if members != [] {
      assert OccursAt(lower(SearchText(members[0])), "", 0);
      EmptyQueryKeepsAll(members[1..], lower);
    }
  }

  // ---------------------------------------------------------------------
  // Relationship look-ups on a member card
  // ---------------------------------------------------------------------

  /** The name shown for a related member id: the first member with that id,
      by display name, else canonical name, else 'Unknown'; 'Unknown' when
      no member has that id. */
  function NameOf(members: seq<Member>, id: Id): (name: string)
    ensures Find(members, id).None? ==> name == "Unknown"
    ensures Find(members, id).Some? ==> name == ShownName(Find(members, id).value, "Unknown")
  {
    var found := Find(members, id);
    if found.Some? then ShownName(found.value, "Unknown") else "Unknown"
  }

  /** The shown names of a list of ids, one per id, in order. */
  function NamesOf(members: seq<Member>, ids: seq<Id>): (names: seq<string>)
    ensures |names| == |ids|
    ensures forall i :: 0 <= i < |ids| ==> names[i] == NameOf(members, ids[i])
    decreases |ids|
  {
    if ids == [] then [] else [NameOf(members, ids[0])] + NamesOf(members, ids[1..])
  }

  /** The member_1 ids of the parent_child rows whose member_2 is `id`, in row order. */
  function ParentIds(rels: seq<Relationship>, id: Id): (ids: seq<Id>)
    ensures |ids| <= |rels|
    ensures forall x :: x in ids <==>
      exists r :: r in rels && r.relationshipType == "parent_child" && r.member2Id == id && r.member1Id == x
    decreases |rels|
  {
    if rels == [] then []
    else
      var r := rels[0];
      var rest := ParentIds(rels[1..], id);
      if r.relationshipType == "parent_child" && r.member2Id == id then [r.member1Id] + rest else rest
  }

  /** The member_2 ids of the parent_child rows whose member_1 is `id`, in row order. */
  function ChildIds(rels: seq<Relationship>, id: Id): (ids: seq<Id>)
    ensures |ids| <= |rels|
    ensures forall x :: x in ids <==>
      exists r :: r in rels && r.relationshipType == "parent_child" && r.member1Id == id && r.member2Id == x
    decreases |rels|
  {
    if rels == [] then []
    else
      var r := rels[0];
      var rest := ChildIds(rels[1..], id);
      if r.relationshipType == "parent_child" && r.member1Id == id then [r.member2Id] + rest else rest
  }

  /** Every row contributes its own entries in place: look-ups over joined
      row lists are the joined look-ups, so each matching row gives exactly
      one entry, in row order. */
  lemma {:induction false} ParentChildIdsAppend(a: seq<Relationship>, b: seq<Relationship>, id: Id)
    ensures ParentIds(a + b, id) == ParentIds(a, id) + ParentIds(b, id)
    ensures ChildIds(a + b, id) == ChildIds(a, id) + ChildIds(b, id)
    decreases |a|
  {
    if a != [] {
      assert (a + b)[1..] == a[1..] + b;
      ParentChildIdsAppend(a[1..], b, id);
    } else {
      assert a + b == b;
    }
  }

  /** X is listed among the parents of Y exactly when Y is listed among the children of X. */
  lemma ParentChildDual(rels: seq<Relationship>, x: Id, y: Id)
    ensures x in ParentIds(rels, y) <==> y in ChildIds(rels, x)
  {
  }

  /** `getParentNames`: one name per parent_child row whose member_2 is the member. */
  function ParentNames(rels: seq<Relationship>, members: seq<Member>, memberId: Id): (names: seq<string>)
    ensures |names| == |ParentIds(rels, memberId)|
    ensures forall i :: 0 <= i < |names| ==> names[i] == NameOf(members, ParentIds(rels, memberId)[i])
  {
    NamesOf(members, ParentIds(rels, memberId))
  }

  /** `getChildrenNames`: one name per parent_child row whose member_1 is the member. */
  function ChildrenNames(rels: seq<Relationship>, members: seq<Member>, memberId: Id): (names: seq<string>)
    ensures |names| == |ChildIds(rels, memberId)|
    ensures forall i :: 0 <= i < |names| ==> names[i] == NameOf(members, ChildIds(rels, memberId)[i])
  {
    NamesOf(members, ChildIds(rels, memberId))
  }

  /** The row links x and y, in either order. */
  predicate Joins(r: Relationship, x: Id, y: Id)
  {
    (r.member1Id == x && r.member2Id == y) || (r.member1Id == y && r.member2Id == x)
  }

  /** The opposite endpoints of the rows of type `kind` that touch `id`:
      member_2 when member_1 is `id`, member_1 otherwise. */
  function CounterpartIds(rels: seq<Relationship>, kind: string, id: Id): (ids: seq<Id>)
    ensures |ids| <= |rels|
    ensures forall x :: x in ids <==> exists r :: r in rels && r.relationshipType == kind && Joins(r, x, id)
    decreases |rels|
  {
    if rels == [] then []
    else
      var r := rels[0];
      var rest := CounterpartIds(rels[1..], kind, id);
      if r.relationshipType == kind && (r.member1Id == id || r.member2Id == id) then
        [if r.member1Id == id then r.member2Id else r.member1Id] + rest
      else rest
  }

  /** Spouse and sibling links read the same from both ends: X is listed
      for Y exactly when Y is listed for X. */
  lemma CounterpartSymmetric(rels: seq<Relationship>, kind: string, x: Id, y: Id)
    ensures x in CounterpartIds(rels, kind, y) <==> y in CounterpartIds(rels, kind, x)
  {
    forall r | r in rels && r.relationshipType == kind
      ensures Joins(r, x, y) <==> Joins(r, y, x)
    {
    }
  }

  /** Every row contributes its own entry in place: a row of the kind that
      touches `id` gives exactly its other end, any other row nothing, and
      the look-up over joined row lists is the joined look-ups, so the ids
      come one per matching row, in row order. */
  lemma {:induction false} CounterpartIdsAppend(a: seq<Relationship>, b: seq<Relationship>, kind: string, id: Id)
    ensures CounterpartIds(a + b, kind, id) == CounterpartIds(a, kind, id) + CounterpartIds(b, kind, id)
    ensures |a| == 1 ==>
      CounterpartIds(a, kind, id) ==
        (if a[0].relationshipType != kind then []
         else if a[0].member1Id == id then [a[0].member2Id]
         else if a[0].member2Id == id then [a[0].member1Id]
         else [])
    decreases |a|
  {
    if a != [] {
      var r := a[0];
      var head := if r.relationshipType == kind && (r.member1Id == id || r.member2Id == id)
                  then [if r.member1Id == id then r.member2Id else r.member1Id] else [];
      assert (a + b)[0] == r && (a + b)[1..] == a[1..] + b;
      assert CounterpartIds(a + b, kind, id) == head + CounterpartIds(a[1..] + b, kind, id);
      assert CounterpartIds(a, kind, id) == head + CounterpartIds(a[1..], kind, id);
      CounterpartIdsAppend(a[1..], b, kind, id);
    } else {
      assert a + b == b;
    }
  }

  /** `getSpouseNames`: one name per spouse row touching the member. */
  function SpouseNames(rels: seq<Relationship>, members: seq<Member>, memberId: Id): (names: seq<string>)
    ensures |names| == |CounterpartIds(rels, "spouse", memberId)|
    ensures forall i :: 0 <= i < |names| ==> names[i] == NameOf(members, CounterpartIds(rels, "spouse", memberId)[i])
  {
    NamesOf(members, CounterpartIds(rels, "spouse", memberId))
  }

  /** `getSiblingNames`: one name per sibling row touching the member. */
  function SiblingNames(rels: seq<Relationship>, members: seq<Member>, memberId: Id): (names: seq<string>)
    ensures |names| == |CounterpartIds(rels, "sibling", memberId)|
    ensures forall i :: 0 <= i < |names| ==> names[i] == NameOf(members, CounterpartIds(rels, "sibling", memberId)[i])
  {
    NamesOf(members, CounterpartIds(rels, "sibling", memberId))
  }

  // ---------------------------------------------------------------------
  // Relationships created together with a new member
  // ---------------------------------------------------------------------

  /** One relationship chosen in the "Add Member" form. */
  datatype NewRelationship = NewRelationship(
    relatedMemberId: Id,
    relationshipType: string,
    direction: string,
    relationSubtype: string)

  /** The arguments of one relationship mutation. */
  datatype RelationshipInsert = RelationshipInsert(
    member1Id: Id,
    member2Id: Id,
    relationshipType: string,
    relationSubtype: string)

  /** The new member is the child exactly for a parent_child entry whose
      direction is 'new_is_child'. */
  predicate NewIsChild(entry: NewRelationship)
  {
    entry.relationshipType == "parent_child" && entry.direction == "new_is_child"
  }

  /** The mutation issued for one entry: member_1 is the parent for
      parent_child rows, so a new child goes second; every other entry puts
      the new member first. */
  function InsertFor(entry: NewRelationship, newId: Id): (ins: RelationshipInsert)
    ensures ins.relationshipType == entry.relationshipType && ins.relationSubtype == entry.relationSubtype
    ensures NewIsChild(entry) ==> ins.member1Id == entry.relatedMemberId && ins.member2Id == newId
    ensures !NewIsChild(entry) ==> ins.member1Id == newId && ins.member2Id == entry.relatedMemberId
  {
    if NewIsChild(entry) then
      RelationshipInsert(entry.relatedMemberId, newId, entry.relationshipType, entry.relationSubtype)
    else
      RelationshipInsert(newId, entry.relatedMemberId, entry.relationshipType, entry.relationSubtype)
  }

  /** Read through the parent/child look-ups, a created parent_child row
      makes the related member a parent of the new member exactly when the
      direction is 'new_is_child', and a child of it otherwise; a spouse or
      sibling row links the two either way. */
  lemma InsertedLinkReads(entry: NewRelationship, newId: Id)
    requires entry.relatedMemberId != newId
    ensures var row := AsRow(InsertFor(entry, newId));
      entry.relationshipType == "parent_child" ==>
        (entry.relatedMemberId in ParentIds([row], newId) <==> entry.direction == "new_is_child") &&
        (entry.relatedMemberId in ChildIds([row], newId) <==> entry.direction != "new_is_child")
    ensures var row := AsRow(InsertFor(entry, newId));
      entry.relatedMemberId in CounterpartIds([row], entry.relationshipType, newId) &&
      newId in CounterpartIds([row], entry.relationshipType, entry.relatedMemberId)
  {
    var row := AsRow(InsertFor(entry, newId));
    assert row in [row];
    assert Joins(row, entry.relatedMemberId, newId) && Joins(row, newId, entry.relatedMemberId);
  }

  /** The row a mutation would store (the row id is assigned by the database). */
  function AsRow(ins: RelationshipInsert): (row: Relationship)
    ensures row.member1Id == ins.member1Id && row.member2Id == ins.member2Id
    ensures row.relationshipType == ins.relationshipType && row.relationSubtype == ins.relationSubtype
  {
    Relationship("", ins.member1Id, ins.member2Id, ins.relationshipType, ins.relationSubtype)
  }

  /** The mutations planned for the chosen entries, one per entry, in order. */
  function PlannedInserts(entries: seq<NewRelationship>, newId: Id): (plan: seq<RelationshipInsert>)
    ensures |plan| == |entries|
    ensures forall i :: 0 <= i < |entries| ==> plan[i] == InsertFor(entries[i], newId)
    decreases |entries|
  {
    if entries == [] then [] else [InsertFor(entries[0], newId)] + PlannedInserts(entries[1..], newId)
  }

  /** Whether relationships are created at all: a non-empty list and a new
      member with a (truthy) id. */
  predicate CreatesRelationships(entries: Option<seq<NewRelationship>>, newId: Option<Id>)
  {
    entries.Some? && |entries.value| > 0 && newId.Some? && newId.value != ""
  }

  /** The relationship loop of the "Add Member" submit handler. The mutations
      are awaited one after another; `succeeds` says which calls the server
      accepts, and the first rejected call ends the loop (its error
      propagates to the form). Returns the calls issued, in order, and
      whether one failed. */
  method CreateRelationships(entries: Option<seq<NewRelationship>>, newId: Option<Id>,
                             succeeds: RelationshipInsert -> bool)
    returns (issued: seq<RelationshipInsert>, failed: bool)
    ensures !CreatesRelationships(entries, newId) ==> issued == [] && !failed
    ensures CreatesRelationships(entries, newId) ==> issued <= PlannedInserts(entries.value, newId.value)
    ensures CreatesRelationships(entries, newId) && !failed ==> issued == PlannedInserts(entries.value, newId.value)
    ensures forall i :: 0 <= i < |issued| - 1 ==> succeeds(issued[i])
    ensures !failed ==> forall i :: 0 <= i < |issued| ==> succeeds(issued[i])
    ensures failed ==> issued != [] && !succeeds(issued[|issued| - 1])
  {
    issued := [];
    failed := false;
    if !CreatesRelationships(entries, newId) {
      return;
    }
    var list := entries.value;
    ghost var plan := PlannedInserts(list, newId.value);
    var k := 0;
    while k < |list| && !failed
      invariant 0 <= k <= |list|
      invariant |issued| == k && forall i :: 0 <= i < k ==> issued[i] == plan[i]
      invariant forall i :: 0 <= i < k - 1 ==> succeeds(issued[i])
      invariant k > 0 ==> (failed <==> !succeeds(issued[k - 1]))
      invariant k == 0 ==> !failed
    {
      var ins := InsertFor(list[k], newId.value);
      assert ins == plan[k];
      issued := issued + [ins];
      failed := !succeeds(ins);
      k := k + 1;
    }
    assert issued == plan[..k];
    assert !failed ==> k == |plan|;
  }

  /** The "Add Relationship" button is enabled only with at least two members. */
  predicate AddRelationshipEnabled(members: seq<Member>)
  {
    |members| >= 2
  }
}

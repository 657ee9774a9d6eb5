# Family-Tree core, modelled in Dafny

This project models the logic at the heart of the Family-Tree web
application. Families keep members, parent/child links between them,
spouse and sibling links, photos and stories. The model covers:

- **The tree layout** (`buildTree` in `useTreeLayout.ts`). It builds the
  child→parents and parent→children maps, picks the root members and runs
  a breadth-first search from them that assigns each member a generation.
  It then groups ids into one row per generation, places each row as a
  strip centred on x = 0, and emits one styled edge per parent/child link.
  This part is imperative: the queue, the visited set, the generation map
  and the node list are filled step by step, and the model proves its
  loops against specification functions.
- **The family page** (`FamilyView.tsx`): the member search, the parent,
  child, spouse and sibling name look-ups, and the loop that creates the
  relationships of a newly added member.
- **The member profile** (`MemberProfile.tsx`): parents, children and
  siblings derived from the parent/child links, and the save payload.
- **The two forms**, "Add Member" and "Add Relationship". Each is a class
  whose fields the event handlers update, plus its submit check and payload.
- **The photo hook** (`usePhotoUpload.ts`): the file checks, the storage
  path built on upload and the path recovered from a public URL on delete.
- **The history page** (`FamilyHistory.tsx`): the "Add Story" form and the
  row it inserts.
- **The CSV text** written by the member export (`exportTree.ts`).

The modules are:

| module | models |
|---|---|
| `Common` | `Option`, `Result`, the outcome of an awaited call, JavaScript's `a \|\| b` on strings |
| `Records` | the member, person and relationship rows, as the code reads them |
| `Text` | the JavaScript string operations used: `trim`, `indexOf`/`includes`, `split`, `join` |
| `TreeLayout` | adjacency maps, roots and the breadth-first search |
| `TreeBuild` | rows, positions, edges and the whole `buildTree` |
| `FamilyView` | the family page |
| `MemberProfile` | the member profile |
| `AddMemberModal` | the "Add Member" form |
| `AddRelationshipModal` | the "Add Relationship" form |
| `PhotoUpload` | the photo hook |
| `FamilyHistory` | the history page |
| `CsvExport` | the CSV text |

Some operations leave the program: `toLowerCase`, `Date.now()`,
`getFullYear()` and every database or storage call. These become
parameters:

- a `lower: string -> string` function;
- a `stamp` string;
- a `yearOf` function;
- a `CallOutcome` saying whether the awaited call resolved or was rejected,
  with the error's message if any.

Three places where the code behaves differently from what one might
expect. The model follows the code in each.

- **New relationships are never sent.** The "Add Member" form's `onSubmit`
  never passes a `relationships` field, so the relationship loop in
  `FamilyView.tsx:313-338` has nothing to iterate over. It is modelled as
  written, for whatever list it receives.
- **The delete path.** The path is the text between the first
  `/member-photos/` and the next one (`split(...)[1]`), not everything after
  the first.
- **Quiet history insert.** Without a family in the route or a signed-in
  user, `handleAddHistory` returns quietly: the story form stays open and
  shows no error.

## Model

| member | source | states |
|---|---|---|
| Common.Pick | src/pages/FamilyView.tsx:46 | `a \|\| b` on an optional string: the first operand when it is a non-empty string, otherwise the second |
| Common.Truthy | src/pages/MemberProfile.tsx:76-87 | `s \|\| undefined`: nothing exactly when the string is empty, otherwise the string itself |
| Records.ShownName | src/pages/FamilyView.tsx:71 | the display name when it is non-empty, otherwise the canonical name, otherwise the fallback |
| Records.Find | src/pages/MemberProfile.tsx:28 | `find` by id: nothing exactly when no member has the id; otherwise a member with that id, taken from the list |
| Text.Trim | src/components/AddMemberModal.tsx:41 | `trim()`: a slice of the input with white space only before and after it, and it neither starts nor ends with white space |
| Text.TrimEmpty | src/components/AddMemberModal.tsx:41 | a string trims to "" exactly when every character is white space |
| Text.TrimIdempotent | src/pages/FamilyHistory.tsx:187 | trimming twice gives what trimming once gives |
| Text.IndexOf | src/hooks/usePhotoUpload.ts:63-64 | `indexOf`: the first position where the text occurs, and none when it occurs nowhere |
| Text.Includes | src/hooks/usePhotoUpload.ts:63 | `includes` holds exactly when the text occurs at some position |
| Text.Split | src/hooks/usePhotoUpload.ts:21 | `split` on one character: at least one piece, and a single piece (the input itself) exactly when the separator does not occur |
| Text.SplitAt | src/hooks/usePhotoUpload.ts:64 | a piece free of the separator, the separator and a rest split into that piece followed by the split of the rest |
| Text.SplitLast | src/hooks/usePhotoUpload.ts:21 | the last piece of a split (`pop()`) is a suffix without the separator, preceded by the separator unless it is the whole input |
| Text.SplitJoin | src/utils/exportTree.ts:81-84 | splitting a `join` of separator-free pieces gives back the pieces |
| TreeLayout.ParentsOfMembership | src/hooks/useTreeLayout.ts:41-51 | p is listed as a parent of c exactly when some relationship has parent p and child c |
| TreeLayout.ChildrenOfMembership | src/hooks/useTreeLayout.ts:41-51 | c is listed as a child of p exactly when some relationship has parent p and child c |
| TreeLayout.ChildToParentsContents | src/hooks/useTreeLayout.ts:41-51 | the child→parents map has a key exactly for each child id in the links, holding its parents in link order, repeats kept |
| TreeLayout.ParentToChildrenContents | src/hooks/useTreeLayout.ts:41-51 | the parent→children map has a key exactly for each parent id in the links, holding its children in link order, repeats kept |
| TreeLayout.BuildAdjacency | src/hooks/useTreeLayout.ts:38-51 | the `forEach` loop fills both maps: each key is present exactly when a link names it, and each entry lists the link ends in link order |
| TreeLayout.MemberIds | src/hooks/useTreeLayout.ts:56 | one id per member, in member order |
| TreeLayout.RootIdsExact | src/hooks/useTreeLayout.ts:54-56 | the roots are exactly the member ids that are no link's child, kept in member order |
| TreeLayout.NoRootsExactly | src/hooks/useTreeLayout.ts:54-56 | there are no roots exactly when every member is some link's child |
| TreeLayout.StartIds | src/hooks/useTreeLayout.ts:59 | the start ids are member ids and non-empty for a non-empty family; they are all member ids when there are no roots, otherwise exactly the roots |
| TreeLayout.NewVisitsMeaning | src/hooks/useTreeLayout.ts:66-83 | what a `forEach` that pushes each not-yet-visited id appends: every entry at the one generation, no id twice, and exactly the ids of the list that were not visited before |
| TreeLayout.NewVisitsShrink | src/hooks/useTreeLayout.ts:78-83 | each appended entry is a newly visited id, so the ids left to visit fall by exactly the number of entries appended |
| TreeLayout.SeedQueue | src/hooks/useTreeLayout.ts:66-71 | the queue is the start ids in order with repeats dropped, each at generation 0, and the visited set is exactly the start ids |
| TreeLayout.PosOfIndexed | src/hooks/useTreeLayout.ts:66-83 | a queue that repeats no id has a position map giving each queued id its index |
| TreeLayout.SeededState | src/hooks/useTreeLayout.ts:66-71 | before the first dequeue the search invariant holds: every start id is queued once at generation 0 with a one-id path, and nothing is dequeued yet |
| TreeLayout.EnqueueChild | src/hooks/useTreeLayout.ts:79-82 | a child not yet visited is appended at the parent's generation + 1; a visited child leaves the queue as it was; the child is visited afterwards either way |
| TreeLayout.EnqueueChildren | src/hooks/useTreeLayout.ts:77-83 | the queue gains exactly the children not visited before, the first occurrence of each, in adjacency order, at the dequeued entry's generation + 1; afterwards every child is visited |
| TreeLayout.OfferStep | src/hooks/useTreeLayout.ts:78-83 | offering the next child moves the queue and the visited set from their values after k children to their values after k + 1 |
| TreeLayout.OfferedAll | src/hooks/useTreeLayout.ts:78-83 | once all children are offered, the appended entries are those for the whole child list, and the visited set has gained every child |
| TreeLayout.SearchStep | src/hooks/useTreeLayout.ts:73-84 | the search's outcome is unchanged by one turn of the loop: dequeuing the head and appending its unvisited children |
| TreeLayout.ExpandKeepsState | src/hooks/useTreeLayout.ts:73-84 | one turn of the loop keeps the search invariant with one more entry dequeued. The invariant: each id queued once, start ids at generation 0, generations never decreasing, every child of a dequeued entry queued within one generation of it, and each entry reached by a path of its generation's length. The turn also keeps the waiting entries within one generation of the next one, and unvisited ids plus queue length stay constant, so the loop ends even when links form a cycle |
| TreeLayout.AppendedState | src/hooks/useTreeLayout.ts:79-82 | appending fresh children of the head, each one generation below it and reached by the head's path extended by it, keeps the search invariant |
| TreeLayout.AppendedIndexed | src/hooks/useTreeLayout.ts:79-82 | appending fresh distinct ids keeps every queued id at its index and indexes the new ones |
| TreeLayout.LayeredMonotone | src/hooks/useTreeLayout.ts:73-84 | when no queue entry has a lower generation than the one before it, generations never decrease between any two positions |
| TreeLayout.ReachedWithin | src/hooks/useTreeLayout.ts:62-84 | when every start has generation 0 and every queued id's children are queued within one generation, the end of any parent→child path from a start is queued with a generation below the path's length |
| TreeLayout.DrainedSearch | src/hooks/useTreeLayout.ts:73-84 | once the queue is drained, each queued id's generation is its distance from the start ids, every id a path reaches is queued, no id is queued twice, and generations never decrease |
| TreeLayout.Drain | src/hooks/useTreeLayout.ts:73-84 | the `while` loop: the drained queue, which is the order in which the loop sets generation-map entries, is exactly what the search yields from the seeded queue. Its ids are distinct, each generation is the id's distance, every reachable id is present, and generations never decrease |
| TreeLayout.Bfs | src/hooks/useTreeLayout.ts:62-84 | the entries the search stores, in the order it stores them: the start ids, then the unvisited children of each dequeued entry in adjacency order. Ids are distinct, each generation is the id's shortest-path distance from the start ids, every reachable id is present, and generations never decrease |
| TreeLayout.FillUnreached | src/hooks/useTreeLayout.ts:87-91 | the search's entries unchanged, then each member id not yet in the map, once, in member order, at generation 0; ids stay distinct and every member is present |
| TreeLayout.FilledEntries | src/hooks/useTreeLayout.ts:87-91 | the search's entries followed by the unreached member ids repeat no id, keep the search's entries first, give the rest generation 0, and include every member |
| TreeLayout.SearchedPlaced | src/hooks/useTreeLayout.ts:62-91 | every entry of the filled map either has its shortest distance as its generation, or is an unreached member at generation 0 |
| TreeLayout.SearchedCovered | src/hooks/useTreeLayout.ts:62-91 | filling keeps every id a path reaches in the map |
| TreeLayout.Generations | src/hooks/useTreeLayout.ts:62-91 | the generation map in insertion order: the search's entries in the order stored, then the unreached members in member order. It has one entry per id, covers every member and every reachable id, and gives each id its distance, or 0 for an unreached member |
| TreeBuild.IdsAt | src/hooks/useTreeLayout.ts:94-99 | the row of generation g holds exactly the ids whose entry has generation g |
| TreeBuild.GenKeys | src/hooks/useTreeLayout.ts:94-99 | the generations used, each once, exactly those of some entry |
| TreeBuild.OneGeneration | src/hooks/useTreeLayout.ts:94-99 | with distinct ids an id has a single generation |
| TreeBuild.IdsAtDistinct | src/hooks/useTreeLayout.ts:94-99 | with distinct ids no row repeats an id |
| TreeBuild.GroupRowsContents | src/hooks/useTreeLayout.ts:94-99 | grouping has a row exactly for each generation used, and the row of g holds the ids of generation g in map order |
| TreeBuild.GroupByGeneration | src/hooks/useTreeLayout.ts:94-99 | the grouping loop: its keys are the generations in first-seen order, and each row holds the ids of its generation in map order |
| TreeBuild.MemberMap | src/hooks/useTreeLayout.ts:102 | the id→member map has a key exactly for each member id |
| TreeBuild.MemberMapLastWins | src/hooks/useTreeLayout.ts:102 | the member stored for an id is a member of the list with that id |
| TreeBuild.RowStartX | src/hooks/useTreeLayout.ts:106-107 | twice a row's start x is minus the row's total width (n slots of 260 less one gap of 60) |
| TreeBuild.RowCentred | src/hooks/useTreeLayout.ts:106-116 | slot i's left edge mirrors the right edge of slot n-1-i about x = 0 |
| TreeBuild.SlotXValue | src/hooks/useTreeLayout.ts:116 | slot i of a row of n lies at x = 30 − 130n + 260i, so the row spans [30 − 130n, 130n − 30] |
| TreeBuild.SlotsApart | src/hooks/useTreeLayout.ts:116 | a later slot lies at least a node width and a gap after an earlier one |
| TreeBuild.LayoutMembership | src/hooks/useTreeLayout.ts:105-126 | a node is placed exactly for each row id that is a member, at its row's y and its slot's x |
| TreeBuild.LayoutNodeIds | src/hooks/useTreeLayout.ts:105-126 | with rows that partition distinct ids, node ids are distinct and are exactly the member ids found in a row |
| TreeBuild.NodesApart | src/hooks/useTreeLayout.ts:116-117 | two different nodes on one row are at least a node width and a gap apart |
| TreeBuild.PositionNodes | src/hooks/useTreeLayout.ts:105-126 | the nested `forEach` loops push exactly the node list of the layout function, row after row in key order |
| TreeBuild.StrokeColor | src/hooks/useTreeLayout.ts:136-138 | biological → #3b82f6, adopted → #8b5cf6, step → #f59e0b, anything else → #6b7280, each an if-and-only-if |
| TreeBuild.EdgeLabel | src/hooks/useTreeLayout.ts:141 | no label exactly for 'biological'; otherwise the relation type |
| TreeBuild.Edges | src/hooks/useTreeLayout.ts:129-142 | one edge per relationship, in relationship order |
| TreeBuild.EdgesFollowRelationships | src/hooks/useTreeLayout.ts:129-142 | edge i has the link's id, runs from its parent to its child, is a non-animated smoothstep of width 2, and is unlabelled exactly when it has the biological colour |
| TreeBuild.RowsPartition | src/hooks/useTreeLayout.ts:94-99 | with distinct ids each row is free of repeats and no id lies in two rows |
| TreeBuild.MembersInRows | src/hooks/useTreeLayout.ts:87-99 | every member id lies in some row |
| TreeBuild.LayoutIds | src/hooks/useTreeLayout.ts:87-126 | node ids are distinct and are exactly the member ids |
| TreeBuild.RowOfY | src/hooks/useTreeLayout.ts:117 | y = 220g, and g is recovered from y |
| TreeBuild.NodeFacts | src/hooks/useTreeLayout.ts:116-121 | the node for index i of row g shows its member, is a root exactly when no link names it as a child, lies in its generation's row, and its x is slot i of a row as long as row g |
| TreeBuild.LayoutNodes | src/hooks/useTreeLayout.ts:105-126 | every node shows its member, lies in its generation's row at its own index's slot of that row, and any two nodes are apart |
| TreeBuild.PlaceGenerations | src/hooks/useTreeLayout.ts:93-126 | from a generation map with one entry per id covering every member: rows group it by generation in first-seen order, the nodes are exactly their layout, one node per member id, each showing its member in its generation's row at its slot, and no two nodes overlap |
| TreeBuild.BuildTree | src/hooks/useTreeLayout.ts:34-145 | no members: no nodes and no edges. Otherwise the generation map is exactly the search's entries in the order stored, then the unreached members in member order. It has one entry per id, covering every member and every reachable id, each at its BFS distance or 0 if unreached. The rows group it by generation, and the nodes are exactly the layout of those rows. So every member id gets exactly one node, showing the last member with that id, and `isRoot` holds exactly when no link names the id as a child. A node's y is its generation's row, and its x is slot i of that row (30 − 130n + 260i for n ids), where i is its own index in the row. No two nodes overlap, and there is one edge per link |
| FamilyView.FilteredMembersAppend | src/pages/FamilyView.tsx:45-48 | the search keeps each matching member as often as it is listed: filtering a concatenation filters each part, and one member gives itself or nothing |
| FamilyView.FilteredMembers | src/pages/FamilyView.tsx:45-48 | the search result keeps member order and holds exactly the members whose lower-cased name (display, else canonical, else "") contains the lower-cased query |
| FamilyView.EmptyQueryKeepsAll | src/pages/FamilyView.tsx:45-48 | an empty query keeps every member |
| FamilyView.NameOf | src/pages/FamilyView.tsx:70-71 | a member's shown name, or 'Unknown' when no member has the id |
| FamilyView.NamesOf | src/pages/FamilyView.tsx:66-82 | one name per id, in order |
| FamilyView.ParentIds | src/pages/FamilyView.tsx:66-73 | x is listed exactly when a parent_child link has x as member 1 and the member as member 2 |
| FamilyView.ChildIds | src/pages/FamilyView.tsx:75-82 | x is listed exactly when a parent_child link has the member as member 1 and x as member 2 |
| FamilyView.ParentChildIdsAppend | src/pages/FamilyView.tsx:66-82 | both look-ups distribute over concatenated link lists, so order follows the links |
| FamilyView.ParentChildDual | src/pages/FamilyView.tsx:66-82 | x is listed as a parent of y exactly when y is listed as a child of x |
| FamilyView.ParentNames | src/pages/FamilyView.tsx:66-73 | one name per parent link of the member, 'Unknown' for a parent not among the members |
| FamilyView.ChildrenNames | src/pages/FamilyView.tsx:75-82 | one name per child link of the member, 'Unknown' for a child not among the members |
| FamilyView.CounterpartIds | src/pages/FamilyView.tsx:84-102 | x is listed exactly when a link of the kind joins x and the member, in either direction |
| FamilyView.CounterpartSymmetric | src/pages/FamilyView.tsx:84-102 | x is listed for y exactly when y is listed for x |
| FamilyView.CounterpartIdsAppend | src/pages/FamilyView.tsx:84-102 | a matching link contributes exactly its other end and any other link nothing, and look-ups over joined link lists are joined: one id per matching link, in link order |
| FamilyView.SpouseNames | src/pages/FamilyView.tsx:84-92 | one name per spouse link of the member, naming the other end |
| FamilyView.SiblingNames | src/pages/FamilyView.tsx:94-102 | one name per sibling link of the member, naming the other end |
| FamilyView.InsertFor | src/pages/FamilyView.tsx:317-331 | 'new_is_child' gives (related, new); every other direction and type gives (new, related); type and subtype pass through |
| FamilyView.InsertedLinkReads | src/pages/FamilyView.tsx:317-331 | the inserted row, read back with the page's parent/child look-ups, makes the new member the related member's child or parent as the direction says |
| FamilyView.AsRow | src/pages/FamilyView.tsx:332-337 | the stored link has the insert's ends, type and subtype |
| FamilyView.PlannedInserts | src/pages/FamilyView.tsx:313-338 | one insert per entry, in entry order |
| FamilyView.CreateRelationships | src/pages/FamilyView.tsx:313-338 | nothing is issued unless the list is non-empty and the new member has an id; otherwise inserts are issued in order, as planned, stopping at the first failure |
| MemberProfile.RowsAsChild | src/pages/MemberProfile.tsx:45-50 | exactly the links whose child is the member, in link order |
| MemberProfile.RowsAsParent | src/pages/MemberProfile.tsx:52-57 | exactly the links whose parent is the member, in link order |
| MemberProfile.RowsAsChildAppend | src/pages/MemberProfile.tsx:45-50 | each link whose child is the member is kept as often as it is listed: filtering a concatenation filters each part, and one link gives itself or nothing |
| MemberProfile.RowsAsParentAppend | src/pages/MemberProfile.tsx:52-57 | each link whose parent is the member is kept as often as it is listed, in the same sense |
| MemberProfile.RowsAsChildAndParent | src/pages/MemberProfile.tsx:45-57 | a link is among its child's parent rows exactly when it is among its parent's child rows |
| MemberProfile.Resolve | src/pages/MemberProfile.tsx:45-57 | each link is paired with the first member whose id matches the chosen end |
| MemberProfile.Parents | src/pages/MemberProfile.tsx:45-50 | one entry per link whose child is the member, paired with the parent member, if any |
| MemberProfile.Children | src/pages/MemberProfile.tsx:52-57 | one entry per link whose parent is the member, paired with the child member, if any |
| MemberProfile.Cards | src/pages/MemberProfile.tsx:273 | a card is shown exactly for each entry whose member was found |
| MemberProfile.AllResolvedAllShown | src/pages/MemberProfile.tsx:302 | when every entry's member is found, every entry gets a card |
| MemberProfile.CardsAppend | src/pages/MemberProfile.tsx:273 | an entry with a found member gives one card with its relation type and any other entry nothing, and the cards of joined lists are joined: cards keep the rows' order |
| MemberProfile.SomeParentIs | src/pages/MemberProfile.tsx:64 | holds exactly when one of the member's parent rows has that parent |
| MemberProfile.HasSharedParent | src/pages/MemberProfile.tsx:62-65 | holds exactly when some link makes the id a child of one of the member's parents |
| MemberProfile.SiblingFilterAppend | src/pages/MemberProfile.tsx:60-66 | each other member sharing a parent row is kept as often as it is listed: filtering a concatenation filters each part, and one member gives itself or nothing |
| MemberProfile.SiblingFilter | src/pages/MemberProfile.tsx:60-66 | keeps member order and holds exactly the other members sharing a parent row |
| MemberProfile.Siblings | src/pages/MemberProfile.tsx:59-67 | empty when the member has no parents; otherwise the other members that share a parent with it, in member order |
| MemberProfile.SharedParentMeaning | src/pages/MemberProfile.tsx:59-67 | the code's test through the parent rows is the same as "some parent of the member is also a parent of the id" |
| MemberProfile.SiblingsDistinct | src/pages/MemberProfile.tsx:59-67 | with a member list free of repeats, no sibling is listed twice |
| MemberProfile.EditDataOf | src/pages/MemberProfile.tsx:30-43 | the edit fields start from the member's and person's values, "" where absent |
| MemberProfile.SaveFor | src/pages/MemberProfile.tsx:69-95 | nothing without a member; otherwise the member and person updates with empty optional strings as undefined and the canonical name unchanged |
| MemberProfile.SaveUnchangedRoundTrip | src/pages/MemberProfile.tsx:30-95 | saving unedited fields writes back the values the member had |
| AddMemberModal.SubmissionFor | src/components/AddMemberModal.tsx:47-66 | with a selected person: its id and no person data; otherwise person data with the trimmed name and empty optional fields as undefined |
| AddMemberModal.SubmissionWellFormed | src/components/AddMemberModal.tsx:41-66 | a submittable form that creates a person sends a non-empty name with no white space at either end, and a living person gets no death date |
| AddMemberModal.Form.constructor | src/components/AddMemberModal.tsx:23-33 | the form opens empty, living, with no selection and no error |
| AddMemberModal.Form.TypeName | src/components/AddMemberModal.tsx:122 | typing sets the name and clears the selection; nothing else changes |
| AddMemberModal.Form.SelectExisting | src/components/AddMemberModal.tsx:74-77 | selecting sets the selection and the name; nothing else changes |
| AddMemberModal.Form.ClearSelection | src/components/AddMemberModal.tsx:79-81 | only the selection is cleared |
| AddMemberModal.Form.EnterDeathDate | src/components/AddMemberModal.tsx:187 | a non-empty death date also unchecks "Living"; living members never keep a death date |
| AddMemberModal.Form.SetLiving | src/components/AddMemberModal.tsx:242 | checking "Living" clears the death date |
| AddMemberModal.Form.Submit | src/components/AddMemberModal.tsx:37-72 | a blank name without a selection sets the error and sends nothing; otherwise the payload is sent, and the form closes on success or records the message (or the default) on failure |
| AddMemberModal.PanelImpliesQuery | src/components/AddMemberModal.tsx:131 | the duplicate panel shows only when the duplicate query is enabled (`useDuplicateDetection.ts:17`) |
| AddMemberModal.SelectionLinks | src/components/AddMemberModal.tsx:74-77 | after selecting a person the form can be submitted and links that person |
| AddRelationshipModal.Validate | src/components/AddRelationshipModal.tsx:33-40 | 'Please select both…' exactly when a side is missing; 'A person cannot be their own parent.' exactly when both are chosen and equal; no error otherwise |
| AddRelationshipModal.MemberLabel | src/components/AddRelationshipModal.tsx:54-58 | the shown name ('Unknown' if none), followed by ` (b. YEAR)` with the birth date's year exactly when the person has a non-empty birth date |
| AddRelationshipModal.Options | src/components/AddRelationshipModal.tsx:92 | one entry per member, disabled exactly when it is the other list's choice |
| AddRelationshipModal.EnabledChoicesValidate | src/components/AddRelationshipModal.tsx:92-110 | a parent picked among enabled entries and a child among the members never trip the check |
| AddRelationshipModal.EnabledIffPairExists | src/pages/FamilyView.tsx:189 | with distinct non-empty ids, the button is enabled exactly when some pair of members passes the check |
| AddRelationshipModal.Form.constructor | src/components/AddRelationshipModal.tsx:24-27 | the parent is the preselected id or "", no child, type 'biological', no error |
| AddRelationshipModal.Form.ChooseParent | src/components/AddRelationshipModal.tsx:86 | only the parent changes |
| AddRelationshipModal.Form.ChooseChild | src/components/AddRelationshipModal.tsx:104 | only the child changes |
| AddRelationshipModal.Form.ChooseRelationType | src/components/AddRelationshipModal.tsx:122 | only the type changes |
| AddRelationshipModal.Form.Submit | src/components/AddRelationshipModal.tsx:29-52 | a failed check records its message and sends nothing; otherwise exactly (parent, child, type) is sent, and the form closes on success or records the message (or the default) on failure |
| PhotoUpload.CheckFile | src/hooks/usePhotoUpload.ts:14-19 | a non-image type is rejected before the size is looked at; above 5 MiB is too large; accepted exactly when both checks pass |
| PhotoUpload.SizeBoundary | src/hooks/usePhotoUpload.ts:17 | exactly 5 MiB is accepted and one byte more is rejected |
| PhotoUpload.ExtensionAfterLastDot | src/hooks/usePhotoUpload.ts:21 | the extension is the lower-cased text after the last dot, or 'jpg' when that is empty |
| PhotoUpload.ExtensionWithoutDot | src/hooks/usePhotoUpload.ts:21 | a name without a dot gives the whole lower-cased name, or 'jpg' when that is empty |
| PhotoUpload.StoragePath | src/hooks/usePhotoUpload.ts:22 | the path is person id, '/', stamp, '.', extension |
| PhotoUpload.StoragePathParts | src/hooks/usePhotoUpload.ts:22 | the path splits at '/' into the person id and the file name, whose extension is the one given |
| PhotoUpload.SplitLastOfJoin | src/hooks/usePhotoUpload.ts:21-22 | the file name's text after its last dot is the extension |
| PhotoUpload.DeletePath | src/hooks/usePhotoUpload.ts:63-67 | a path exactly when the URL contains '/member-photos/', and the path itself does not contain it |
| PhotoUpload.DeletePathRoundTrip | src/hooks/usePhotoUpload.ts:63-67 | a URL made of a prefix, the marker and a path recovers the path |
| PhotoUpload.DeletePathBetween | src/hooks/usePhotoUpload.ts:63-67 | a URL holding the marker twice gives the text between the first and the second marker, not everything after the first |
| PhotoUpload.FirstOccurrence | src/hooks/usePhotoUpload.ts:63-64 | an occurrence with none before it is the position `indexOf` finds |
| PhotoUpload.PhotoHook.constructor | src/hooks/usePhotoUpload.ts:5-6 | not uploading, no error |
| PhotoUpload.PhotoHook.Upload | src/hooks/usePhotoUpload.ts:8-57 | a failed check records its message and stores nothing; otherwise the file is stored at the computed path, and only after a successful store is the update setting photo_url to the public URL sent; a storage or update failure records the message and re-throws; success of both returns the public URL; `uploading` ends false either way |
| PhotoUpload.PhotoHook.Delete | src/hooks/usePhotoUpload.ts:59-80 | removal is attempted only when a path is extracted. If that awaited call rejects, its message (or the default) is recorded, a failure is returned and no update is sent. Otherwise the update clearing photo_url is sent; it clears photo_url only when it succeeds, and its failure records its message (or the default) and returns a failure |
| FamilyHistory.StoryFor | src/pages/FamilyHistory.tsx:185-191 | nothing for a blank title; otherwise the untrimmed title, body and date, and the member only when one is chosen |
| FamilyHistory.InsertRow | src/pages/FamilyHistory.tsx:43-52 | no row without a family or user; otherwise empty body, date and member stored as null, created by the user |
| FamilyHistory.AddHistory | src/pages/FamilyHistory.tsx:42-58 | without a family or user it returns quietly and the form stays open; otherwise the insert's error is passed on, and success closes the form |
| FamilyHistory.StoredStory | src/pages/FamilyHistory.tsx:42-58 | a story submitted from the form is stored with a non-blank title as typed and null for each empty field |
| FamilyHistory.LinkedMember | src/pages/FamilyHistory.tsx:111 | a member is looked up only when the story has a member id, and the one found has that id |
| FamilyHistory.LinkedAfterStore | src/pages/FamilyHistory.tsx:111 | a story stored with a chosen member links back to a member with that id; one stored with "None" links to no one |
| FamilyHistory.AddStoryForm.constructor | src/pages/FamilyHistory.tsx:177-183 | every field empty, not loading, no error |
| FamilyHistory.AddStoryForm.Submit | src/pages/FamilyHistory.tsx:185-197 | a blank title sets 'Title is required' and sends nothing; otherwise the story is sent while loading, a failure records its message (or the default), and loading ends false |
| FamilyHistory.SubmitThroughPage | src/pages/FamilyHistory.tsx:42-58 | without a family or user the form neither closes nor shows an error; an insert failure keeps it open and passes on the error |
| CsvExport.CleanNotes | src/utils/exportTree.ts:78 | same length; each ',' becomes ';' and each newline a space; the result has neither |
| CsvExport.CleanNotesIdempotent | src/utils/exportTree.ts:78 | cleaning twice is cleaning once |
| CsvExport.Cells | src/utils/exportTree.ts:70-79 | eight cells per member: absent fields as "", 'Yes'/'No' for living, cleaned notes |
| CsvExport.Quote | src/utils/exportTree.ts:83 | the cell between two double quotes |
| CsvExport.QuoteAll | src/utils/exportTree.ts:83 | each cell quoted, in order |
| CsvExport.RowLines | src/utils/exportTree.ts:70-83 | one line per member, in member order |
| CsvExport.CsvContent | src/utils/exportTree.ts:65-84 | 'No members to export' exactly for a missing or empty list; otherwise the header line and the member lines joined by newlines |
| CsvExport.HeadersPlain | src/utils/exportTree.ts:69 | the column names hold only letters and spaces |
| CsvExport.HeaderLineCells | src/utils/exportTree.ts:69-82 | the header line splits at commas back into the eight names and holds no newline |
| CsvExport.NoTrailingNewline | src/utils/exportTree.ts:81-84 | the text ends with the last member's closing quote, never a newline |
| CsvExport.RowCells | src/utils/exportTree.ts:83 | a member line splits at commas into exactly its eight quoted cells, when no field holds a comma |
| CsvExport.LinesSplit | src/utils/exportTree.ts:81-84 | newline-free lines joined by newlines split back into those lines |
| CsvExport.CsvLines | src/utils/exportTree.ts:81-84 | the export splits at newlines into the header and one line per member, in order, when no field holds a newline |

## Left out

- Database, storage and RPC calls (the Supabase client and react-query caching) are network I/O. Their outcomes are parameters, and the rows they return are inputs.
- React rendering, routing and the presentational files (landing, sign-in, dashboard, tree canvas) are display only. So are the gender, role and colour look-ups.
- PNG, JPEG and PDF export and the CSV download are DOM, canvas and file work. Only the CSV text is modelled.
- Date parsing, `getFullYear`, locale formatting and `Date.now()` are outside the model. They appear as the `yearOf` and `stamp` parameters.
- `toLowerCase` is Unicode case mapping. It is the parameter `lower`, with no property assumed except where a lemma states one.
- Async ordering and concurrent updates are not modelled. Each handler is modelled by its sequential effect; the awaited call's outcome is a parameter.
- Fetching and ordering the history timeline is a query. Only the row a story inserts and the member it links to are modelled.
- The plain `onChange` setters of the story form (title, body, date, member) are not modelled. The form's fields are read as they stand when it is submitted.
- MemberProfile's `isEditing` and `saving` flags are not modelled. Only the payload a save sends is modelled.
- The mismatch between the field names read by the layout and profile and the `Relationship` interface is wiring between files. Each file is modelled against the fields it reads.
- AddMemberModal's duplicate-detection query is I/O. Only the condition that enables it is modelled.
- AddMemberModal.PanelImpliesQuery: a name's length is counted in characters (code points). JavaScript's `name.length` counts UTF-16 code units, so the two differ for names with characters outside the Basic Multilingual Plane.
- PhotoUpload.PhotoHook.Upload and Delete take the outcomes of the storage call and the update as parameters. The public URL is a parameter too. Delete's removal result is read only as resolved or rejected, since the code ignores the error it returns.
- CsvExport.RowCells: the export does not escape quotes, commas or newlines inside cells. So this lemma requires comma-free fields; the CSV parse is not stated for fields that contain commas.
- CsvExport.CsvLines: requires newline-free fields for the same reason. The notes cell needs no such requirement.
- TreeBuild.BuildTree: `x`, `y` and the node width are plain integers. Their division by 2 is exact (130n − 30), so no floating point arises.

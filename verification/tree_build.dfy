/** The second half of the layout hook: grouping the generation map by
    generation, placing each row of nodes centred on x = 0, building the
    styled edges, and `BuildTree`, which runs the whole computation. */
module TreeBuild {
  import opened Common
  import opened Records
  import opened TreeLayout

  // ---------------------------------------------------------------------
  // Grouping the generation map by generation
  // ---------------------------------------------------------------------

  /** The ids whose entry has generation `g`, in generation-map order. */
  function IdsAt(genMap: seq<Visit>, g: nat): (ids: seq<Id>)
    ensures forall x :: x in ids <==> Visit(x, g) in genMap
    decreases |genMap|
  {
    if genMap == [] then []
    else
      var prefix, last := genMap[..|genMap| - 1], genMap[|genMap| - 1];
      assert genMap == prefix + [last];
      IdsAt(prefix, g) + (if last.gen == g then [last.id] else [])
  }

  /** The generations in order of first appearance in the generation map:
      the key order of a JavaScript Map filled by walking the entries. */
  function GenKeys(genMap: seq<Visit>): (keys: seq<nat>)
    ensures Distinct(keys)
    ensures forall g :: g in keys <==> exists v :: v in genMap && v.gen == g
    decreases |genMap|
  {
    if genMap == [] then []
    else
      var prefix, last := genMap[..|genMap| - 1], genMap[|genMap| - 1];
      assert genMap == prefix + [last];
      var keys := GenKeys(prefix);
      if last.gen in keys then keys else keys + [last.gen]
  }

  lemma IdsAtSnoc(genMap: seq<Visit>, v: Visit, g: nat)
    ensures IdsAt(genMap + [v], g) == IdsAt(genMap, g) + (if v.gen == g then [v.id] else [])
  {
    assert (genMap + [v])[..|genMap|] == genMap;
  }

  lemma GenKeysSnoc(genMap: seq<Visit>, v: Visit)
    ensures GenKeys(genMap + [v]) == if v.gen in GenKeys(genMap) then GenKeys(genMap) else GenKeys(genMap) + [v.gen]
  {
    assert (genMap + [v])[..|genMap|] == genMap;
  }

  /** A generation with no key has an empty row. */
  lemma IdsAtAbsent(genMap: seq<Visit>, g: nat)
    requires g !in GenKeys(genMap)
    ensures IdsAt(genMap, g) == []
  {
    var ids := IdsAt(genMap, g);
    assert forall k :: 0 <= k < |ids| ==> Visit(ids[k], g) in genMap;
  }

  /** With distinct ids in the generation map, an id has one generation, so
      it sits in one row only. */
  lemma OneGeneration(genMap: seq<Visit>, x: Id, g: nat, h: nat)
    requires Distinct(IdsOf(genMap))
    requires Visit(x, g) in genMap && Visit(x, h) in genMap
    ensures g == h
  {
    var i :| 0 <= i < |genMap| && genMap[i] == Visit(x, g);
    var j :| 0 <= j < |genMap| && genMap[j] == Visit(x, h);
    assert IdsOf(genMap)[i] == IdsOf(genMap)[j];
  }

  /** With distinct ids in the generation map, each row lists distinct ids. */
  lemma {:induction false} IdsAtDistinct(genMap: seq<Visit>, g: nat)
    requires Distinct(IdsOf(genMap))
    ensures Distinct(IdsAt(genMap, g))
    decreases |genMap|
  {
    if genMap != [] {
      var prefix, last := genMap[..|genMap| - 1], genMap[|genMap| - 1];
      assert genMap == prefix + [last];
      assert IdsOf(prefix) == IdsOf(genMap)[..|genMap| - 1];
      IdsAtDistinct(prefix, g);
      IdsAtSnoc(prefix, last, g);
      assert last.id !in IdsOf(prefix);
    }
  }

  /** The rows map after walking the generation map: each entry's id is
      appended to the row of its generation, the row created on first use. */
  function GroupRows(genMap: seq<Visit>): map<nat, seq<Id>>
    decreases |genMap|
  {
    if genMap == [] then map[]
    else
      var prefix, last := genMap[..|genMap| - 1], genMap[|genMap| - 1];
      var rows := GroupRows(prefix);
      if last.gen in rows then rows[last.gen := rows[last.gen] + [last.id]] else rows[last.gen := [last.id]]
  }

  lemma GroupRowsSnoc(prefix: seq<Visit>, v: Visit)
    ensures GroupRows(prefix + [v]) ==
      if v.gen in GroupRows(prefix) then GroupRows(prefix)[v.gen := GroupRows(prefix)[v.gen] + [v.id]]
      else GroupRows(prefix)[v.gen := [v.id]]
  {
    assert (prefix + [v])[..|prefix|] == prefix;
  }

  /** Appending entry `v` keeps generation `g`'s row and key in step: its
      row exists exactly when its key does, and lists its ids in order. */
  lemma GroupRowsAt(prefix: seq<Visit>, v: Visit, g: nat)
    requires v.gen in GroupRows(prefix) <==> v.gen in GenKeys(prefix)
    requires g in GroupRows(prefix) <==> g in GenKeys(prefix)
    requires g in GroupRows(prefix) ==> GroupRows(prefix)[g] == IdsAt(prefix, g)
    ensures g in GroupRows(prefix + [v]) <==> g in GenKeys(prefix + [v])
    ensures g in GroupRows(prefix + [v]) ==> GroupRows(prefix + [v])[g] == IdsAt(prefix + [v], g)
  {
    GroupRowsSnoc(prefix, v);
    GenKeysSnoc(prefix, v);
    IdsAtSnoc(prefix, v, g);
    if g == v.gen && v.gen !in GenKeys(prefix) {
      IdsAtAbsent(prefix, g);
    }
  }

  /** The rows map has a row exactly for each generation key, and each row
      lists that generation's ids in generation-map order. */
  lemma {:induction false} GroupRowsContents(genMap: seq<Visit>)
    ensures forall g :: g in GroupRows(genMap) <==> g in GenKeys(genMap)
    ensures forall g :: g in GroupRows(genMap) ==> GroupRows(genMap)[g] == IdsAt(genMap, g)
    decreases |genMap|
  {
    if genMap != [] {
      var prefix, last := genMap[..|genMap| - 1], genMap[|genMap| - 1];
      assert genMap == prefix + [last];
      GroupRowsContents(prefix);
      forall g ensures g in GroupRows(genMap) <==> g in GenKeys(genMap)
        ensures g in GroupRows(genMap) ==> GroupRows(genMap)[g] == IdsAt(genMap, g)
      {
        GroupRowsAt(prefix, last, g);
      }
    }
  }

  /** A generation has a row exactly when it has a key. */
  lemma GroupRowsHasKey(genMap: seq<Visit>, g: nat)
    ensures g in GroupRows(genMap) <==> g in GenKeys(genMap)
  {
    GroupRowsContents(genMap);
  }

  /** Walks the generation map and appends each id to the row of its
      generation, creating the row (and its key) on first use. */
  method GroupByGeneration(genMap: seq<Visit>) returns (rows: map<nat, seq<Id>>, keys: seq<nat>)
    ensures keys == GenKeys(genMap)
    ensures forall g :: g in rows <==> g in keys
    ensures forall g :: g in rows ==> rows[g] == IdsAt(genMap, g)
  {
    rows, keys := map[], [];
    ghost var done: seq<Visit> := [];
    var i := 0;
    while i < |genMap|
      invariant 0 <= i <= |genMap| && done == genMap[..i]
      invariant rows == GroupRows(done) && keys == GenKeys(done)
    {
      var v := genMap[i];
      GroupRowsHasKey(done, v.gen);
      GroupRowsSnoc(done, v);
      GenKeysSnoc(done, v);
      if v.gen in rows {
        rows := rows[v.gen := rows[v.gen] + [v.id]];
      } else {
        rows := rows[v.gen := [v.id]];
        keys := keys + [v.gen];
      }
      done := done + [v];
      i := i + 1;
    }
    assert done == genMap;
    GroupRowsContents(genMap);
  }

  // ---------------------------------------------------------------------
  // The member map
  // ---------------------------------------------------------------------

  lemma MemberIdsSnoc(members: seq<Member>, m: Member)
    ensures MemberIds(members + [m]) == MemberIds(members) + [m.id]
  {
  }

  /** `new Map(members.map(m => [m.id, m]))`: keyed by id, one entry per
      distinct member id. */
  function MemberMap(members: seq<Member>): (mm: map<Id, Member>)
    ensures forall x :: x in mm <==> x in MemberIds(members)
    decreases |members|
  {
    if members == [] then map[]
    else
      var prefix, last := members[..|members| - 1], members[|members| - 1];
      assert members == prefix + [last];
      MemberIdsSnoc(prefix, last);
      MemberMap(prefix)[last.id := last]
  }

  /** When two members share an id, the map holds the later one: the entry
      for `x` is the last member with id `x`. */
  lemma {:induction false} MemberMapLastWins(members: seq<Member>, x: Id)
    requires x in MemberMap(members)
    ensures exists j :: 0 <= j < |members| && members[j] == MemberMap(members)[x] && members[j].id == x
                        && forall k :: j < k < |members| ==> members[k].id != x
    decreases |members|
  {
    var prefix, last := members[..|members| - 1], members[|members| - 1];
    assert members == prefix + [last];
    if last.id == x {
      assert members[|members| - 1] == MemberMap(members)[x];
    } else {
      MemberMapLastWins(prefix, x);
      var j :| 0 <= j < |prefix| && prefix[j] == MemberMap(prefix)[x] && prefix[j].id == x
               && forall k :: j < k < |prefix| ==> prefix[k].id != x;
      assert members[j] == MemberMap(members)[x];
    }
  }

  // ---------------------------------------------------------------------
  // Positions
  // ---------------------------------------------------------------------

  /** Distance between the left edges of neighbouring nodes in a row. */
  const SlotPitch := NodeWidth + HorizontalGap

  /** Distance between the tops of neighbouring rows. */
  const RowPitch := NodeHeight + VerticalGap

  /** `-totalWidth / 2` for a row of `n` slots, where the total width is
      `n` slots less one gap. That width is even, so the halving is exact. */
  function RowStartX(n: nat): (x: int)
    ensures 2 * x == -(n * SlotPitch - HorizontalGap)
  {
    -(n * SlotPitch - HorizontalGap) / 2
  }

  /** The x coordinate of slot `i` in a row of `n` slots. */
  function SlotX(n: nat, i: nat): int
  {
    RowStartX(n) + i * SlotPitch
  }

  /** Each row is centred on x = 0: slot `i` and its mirror slot `n - 1 - i`
      lie symmetrically about it. */
  lemma RowCentred(n: nat, i: nat)
    requires i < n
    ensures SlotX(n, i) + NodeWidth == -SlotX(n, n - 1 - i)
  {
    assert (n - 1 - i) * SlotPitch == n * SlotPitch - SlotPitch - i * SlotPitch;
  }

  /** Slot `i` of a row of `n` slots is at x = 30 - 130n + 260i, so a
      non-empty row spans [30 - 130n, 130n - 30]. */
  lemma SlotXValue(n: nat, i: nat)
    ensures SlotX(n, i) == 30 - 130 * n + 260 * i
    ensures n > 0 ==> SlotX(n, 0) == 30 - 130 * n && SlotX(n, n - 1) + NodeWidth == 130 * n - 30
  {
    assert n * SlotPitch == 260 * n && i * SlotPitch == 260 * i;
    assert (n - 1) * SlotPitch == 260 * n - 260;
  }

  /** A later slot lies at least one node width and one gap further right. */
  lemma SlotsApart(n: nat, i: nat, j: nat)
    requires i < j
    ensures SlotX(n, i) + NodeWidth + HorizontalGap <= SlotX(n, j)
  {
    assert j * SlotPitch - i * SlotPitch == (j - i) * SlotPitch;
  }

  /** A positioned node: its member, and whether it has no parents. */
  datatype TreeNode = TreeNode(id: Id, kind: string, x: int, y: int, member: Member, isRoot: bool)

  function NodeIds(nodes: seq<TreeNode>): (ids: seq<Id>)
    ensures |ids| == |nodes|
    ensures forall i :: 0 <= i < |nodes| ==> ids[i] == nodes[i].id
  {
    seq(|nodes|, i requires 0 <= i < |nodes| => nodes[i].id)
  }

  lemma NodeIdsConcat(a: seq<TreeNode>, b: seq<TreeNode>)
    ensures NodeIds(a + b) == NodeIds(a) + NodeIds(b)
  {
  }

  /** The node for slot `i` of row `g`, whose ids are `ids`. */
  function NodeAt(ids: seq<Id>, i: nat, g: nat, memberMap: map<Id, Member>, childToParents: Adjacency): TreeNode
    requires i < |ids| && ids[i] in memberMap
  {
    TreeNode(ids[i], "familyMember", SlotX(|ids|, i), g * RowPitch, memberMap[ids[i]], ids[i] !in childToParents)
  }

  /** The nodes for the first `k` slots of row `g`. A slot whose id is not a
      member gets no node but keeps its place in the row. */
  function RowNodes(ids: seq<Id>, k: nat, g: nat, memberMap: map<Id, Member>, childToParents: Adjacency): seq<TreeNode>
    requires k <= |ids|
    decreases k
  {
    if k == 0 then []
    else
      RowNodes(ids, k - 1, g, memberMap, childToParents)
      + (if ids[k - 1] in memberMap then [NodeAt(ids, k - 1, g, memberMap, childToParents)] else [])
  }

  /** The nodes of all rows, row by row in key order. */
  function Layout(keys: seq<nat>, rows: map<nat, seq<Id>>, memberMap: map<Id, Member>, childToParents: Adjacency)
    : seq<TreeNode>
    decreases |keys|
  {
    if keys == [] then []
    else
      var g := keys[|keys| - 1];
      Layout(keys[..|keys| - 1], rows, memberMap, childToParents)
      + (if g in rows then RowNodes(rows[g], |rows[g]|, g, memberMap, childToParents) else [])
  }

  lemma {:induction false} RowNodesMembership(ids: seq<Id>, k: nat, g: nat, memberMap: map<Id, Member>,
                                              childToParents: Adjacency)
    requires k <= |ids|
    ensures forall nd :: nd in RowNodes(ids, k, g, memberMap, childToParents) <==>
              exists i :: 0 <= i < k && ids[i] in memberMap && nd == NodeAt(ids, i, g, memberMap, childToParents)
    decreases k
  {
    if k > 0 {
      RowNodesMembership(ids, k - 1, g, memberMap, childToParents);
    }
  }

  /** A node is in the layout exactly when it is the node of some slot of
      some row whose id is a member. */
  lemma {:induction false} LayoutMembership(keys: seq<nat>, rows: map<nat, seq<Id>>, memberMap: map<Id, Member>,
                                            childToParents: Adjacency)
    ensures forall nd :: nd in Layout(keys, rows, memberMap, childToParents) <==>
              exists g, i :: g in keys && g in rows && 0 <= i < |rows[g]| && rows[g][i] in memberMap
                             && nd == NodeAt(rows[g], i, g, memberMap, childToParents)
    decreases |keys|
  {
    if keys != [] {
      var prefix, g := keys[..|keys| - 1], keys[|keys| - 1];
      assert keys == prefix + [g];
      LayoutMembership(prefix, rows, memberMap, childToParents);
      if g in rows {
        RowNodesMembership(rows[g], |rows[g]|, g, memberMap, childToParents);
      }
    }
  }

  /** Without repeated ids in a row, the row's node ids are its member ids,
      each once. */
  lemma {:induction false} RowNodeIds(ids: seq<Id>, k: nat, g: nat, memberMap: map<Id, Member>,
                                      childToParents: Adjacency)
    requires k <= |ids| && Distinct(ids)
    ensures Distinct(NodeIds(RowNodes(ids, k, g, memberMap, childToParents)))
    ensures forall x :: x in NodeIds(RowNodes(ids, k, g, memberMap, childToParents)) <==> x in ids[..k] && x in memberMap
    decreases k
  {
    if k > 0 {
      var prefix := RowNodes(ids, k - 1, g, memberMap, childToParents);
      var last := if ids[k - 1] in memberMap then [NodeAt(ids, k - 1, g, memberMap, childToParents)] else [];
      RowNodeIds(ids, k - 1, g, memberMap, childToParents);
      assert RowNodes(ids, k, g, memberMap, childToParents) == prefix + last;
      NodeIdsConcat(prefix, last);
      assert NodeIds(last) == if ids[k - 1] in memberMap then [ids[k - 1]] else [];
      assert ids[..k] == ids[..k - 1] + [ids[k - 1]];
      assert ids[k - 1] !in ids[..k - 1];
      DistinctConcat(NodeIds(prefix), NodeIds(last));
      forall x ensures x in NodeIds(prefix + last) <==> x in ids[..k] && x in memberMap {
        assert x in ids[..k] <==> x in ids[..k - 1] || x == ids[k - 1];
      }
    }
  }

  /** With distinct keys, rows without repeats and no id in two rows, the
      layout's node ids are the rows' member ids, each once. */
  lemma {:induction false} LayoutNodeIds(keys: seq<nat>, rows: map<nat, seq<Id>>, memberMap: map<Id, Member>,
                                         childToParents: Adjacency)
    requires Distinct(keys)
    requires forall g :: g in rows ==> Distinct(rows[g])
    requires forall g, h, x :: g in rows && h in rows && g != h && x in rows[g] ==> x !in rows[h]
    ensures Distinct(NodeIds(Layout(keys, rows, memberMap, childToParents)))
    ensures forall x :: x in NodeIds(Layout(keys, rows, memberMap, childToParents)) <==>
              x in memberMap && exists g :: g in keys && g in rows && x in rows[g]
    decreases |keys|
  {
    if keys != [] {
      var prefix, g := keys[..|keys| - 1], keys[|keys| - 1];
      assert keys == prefix + [g];
      assert Distinct(prefix) by {
        forall i, j | 0 <= i < j < |prefix| ensures prefix[i] != prefix[j] {
          assert prefix[i] == keys[i] && prefix[j] == keys[j];
        }
      }
      assert g !in prefix;
      LayoutNodeIds(prefix, rows, memberMap, childToParents);
      var before := Layout(prefix, rows, memberMap, childToParents);
      var row := if g in rows then RowNodes(rows[g], |rows[g]|, g, memberMap, childToParents) else [];
      if g in rows {
        RowNodeIds(rows[g], |rows[g]|, g, memberMap, childToParents);
        assert rows[g][..|rows[g]|] == rows[g];
      }
      NodeIdsConcat(before, row);
      DistinctConcat(NodeIds(before), NodeIds(row));
    }
  }

  /** Two different nodes on one row are at least a node width and a gap
      apart, so no two nodes overlap. */
  lemma NodesApart(keys: seq<nat>, rows: map<nat, seq<Id>>, memberMap: map<Id, Member>, childToParents: Adjacency,
                   a: TreeNode, b: TreeNode)
    requires a in Layout(keys, rows, memberMap, childToParents) && b in Layout(keys, rows, memberMap, childToParents)
    requires a != b && a.y == b.y
    ensures a.x + SlotPitch <= b.x || b.x + SlotPitch <= a.x
  {
    LayoutMembership(keys, rows, memberMap, childToParents);
    var g, i :| g in keys && g in rows && 0 <= i < |rows[g]| && rows[g][i] in memberMap
                && a == NodeAt(rows[g], i, g, memberMap, childToParents);
    var h, j :| h in keys && h in rows && 0 <= j < |rows[h]| && rows[h][j] in memberMap
                && b == NodeAt(rows[h], j, h, memberMap, childToParents);
    assert g == h;
    if i < j {
      SlotsApart(|rows[g]|, i, j);
    } else {
      SlotsApart(|rows[g]|, j, i);
    }
  }

  /** Lays out the rows in key order: row `g` at y = g * RowPitch, its slots
      from `RowStartX` one `SlotPitch` apart, one node per member id. */
  method PositionNodes(keys: seq<nat>, rows: map<nat, seq<Id>>, memberMap: map<Id, Member>, childToParents: Adjacency)
    returns (nodes: seq<TreeNode>)
    ensures nodes == Layout(keys, rows, memberMap, childToParents)
  {
    nodes := [];
    var r := 0;
    while r < |keys|
      invariant 0 <= r <= |keys|
      invariant nodes == Layout(keys[..r], rows, memberMap, childToParents)
    {
      var g := keys[r];
      assert keys[..r + 1][..r] == keys[..r];
      if g in rows {
        var ids := rows[g];
        var startX := RowStartX(|ids|);
        ghost var before := nodes;
        var i := 0;
        while i < |ids|
          invariant 0 <= i <= |ids|
          invariant nodes == before + RowNodes(ids, i, g, memberMap, childToParents)
        {
          var id := ids[i];
          if id in memberMap {
            nodes := nodes + [TreeNode(id, "familyMember", startX + i * SlotPitch, g * RowPitch, memberMap[id],
                                       id !in childToParents)];
          }
          i := i + 1;
        }
      }
      r := r + 1;
    }
    assert keys[..|keys|] == keys;
  }

  // ---------------------------------------------------------------------
  // Edges
  // ---------------------------------------------------------------------

  /** A parent-to-child edge with its drawing style. */
  datatype TreeEdge = TreeEdge(
    id: Id,
    source: Id,
    target: Id,
    kind: string,
    animated: bool,
    stroke: string,
    strokeWidth: nat,
    labelText: Option<string>)

  /** The edge colour of a relation type: blue for biological, violet for
      adopted, amber for step, grey for anything else. */
  function StrokeColor(relationType: string): (color: string)
    ensures color == "#3b82f6" <==> relationType == "biological"
    ensures color == "#8b5cf6" <==> relationType == "adopted"
    ensures color == "#f59e0b" <==> relationType == "step"
    ensures color == "#6b7280" <==> relationType !in {"biological", "adopted", "step"}
  {
    if relationType == "biological" then "#3b82f6"
    else if relationType == "adopted" then "#8b5cf6"
    else if relationType == "step" then "#f59e0b"
    else "#6b7280"
  }

  /** Every relation type but biological is written on its edge. */
  function EdgeLabel(relationType: string): (text: Option<string>)
    ensures text.None? <==> relationType == "biological"
    ensures text.Some? ==> text.value == relationType
  {
    if relationType != "biological" then Some(relationType) else None
  }

  function EdgeOf(rel: ParentLink): TreeEdge
  {
    TreeEdge(rel.id, rel.parentMemberId, rel.childMemberId, "smoothstep", false,
             StrokeColor(rel.relationType), 2, EdgeLabel(rel.relationType))
  }

  /** One edge per relationship, in relationship order. */
  function Edges(relationships: seq<ParentLink>): (edges: seq<TreeEdge>)
    ensures |edges| == |relationships|
    ensures forall i :: 0 <= i < |relationships| ==> edges[i] == EdgeOf(relationships[i])
  {
    seq(|relationships|, i requires 0 <= i < |relationships| => EdgeOf(relationships[i]))
  }

  /** Each edge runs from the relationship's parent to its child, keeps its
      id, and is unlabelled exactly when it is drawn blue; a labelled edge
      shows its relation type. */
  lemma EdgesFollowRelationships(relationships: seq<ParentLink>, i: nat)
    requires i < |relationships|
    ensures var e, r := Edges(relationships)[i], relationships[i];
            && e.id == r.id && e.source == r.parentMemberId && e.target == r.childMemberId
            && (e.labelText.None? <==> e.stroke == "#3b82f6")
            && (e.labelText.Some? ==> e.labelText.value == r.relationType && e.stroke == StrokeColor(r.relationType))
            && e.kind == "smoothstep" && !e.animated && e.strokeWidth == 2
  {
  }

  // ---------------------------------------------------------------------
  // The whole layout
  // ---------------------------------------------------------------------

  /** The node shows the last member with its id, and it is a root exactly
      when no relationship names it as a child. */
  predicate ShowsMember(members: seq<Member>, relationships: seq<ParentLink>, nd: TreeNode)
  {
    && nd.id in MemberMap(members) && nd.member == MemberMap(members)[nd.id]
    && nd.kind == "familyMember"
    && (nd.isRoot <==> forall r :: r in relationships ==> r.childMemberId != nd.id)
  }

  /** The node's row is its generation: its distance from the start ids, or
      0 for a member no path reaches. */
  ghost predicate InGenerationRow(members: seq<Member>, relationships: seq<ParentLink>, nd: TreeNode)
  {
    && nd.y >= 0 && nd.y % RowPitch == 0
    && Placed(ParentToChildren(relationships), StartIds(members, ChildToParents(relationships)), members,
              Visit(nd.id, nd.y / RowPitch))
  }

  /** The node sits in its own slot of its generation's row: the row of
      generation y / RowPitch holds the node's id at some index `i`, and x
      is slot `i` of a row that many ids long, centred on x = 0. */
  ghost predicate InSlot(rows: map<nat, seq<Id>>, nd: TreeNode)
  {
    && nd.y >= 0
    && var g := nd.y / RowPitch;
       && g in rows
       && exists i :: 0 <= i < |rows[g]| && rows[g][i] == nd.id && nd.x == SlotX(|rows[g]|, i)
  }

  /** Two nodes are the same node, or on different rows, or at least a node
      width and a gap apart. */
  predicate Apart(a: TreeNode, b: TreeNode)
  {
    a == b || a.y != b.y || a.x + SlotPitch <= b.x || b.x + SlotPitch <= a.x
  }

  /** The layout hook's `buildTree`. With no members there is nothing to
      draw. Otherwise the search's generation map (`genMap`) has one entry
      per id, covering every member and every id a path reaches, each at
      its distance from the start ids or, unreached, at 0; `rows` groups it
      by generation in map order, and the nodes are exactly the layout of
      those rows. So every member id gets exactly one node, showing the last
      member with that id; a node is a root exactly when no relationship
      names it as a child; its row is its generation; its x is its slot in
      that row, centred on x = 0; no two nodes overlap; and every
      relationship gets an edge. */
  method BuildTree(members: seq<Member>, relationships: seq<ParentLink>)
    returns (nodes: seq<TreeNode>, edges: seq<TreeEdge>,
             ghost genMap: seq<Visit>, ghost rows: map<nat, seq<Id>>, ghost keys: seq<nat>)
    ensures members == [] ==> nodes == [] && edges == [] && genMap == []
    ensures members != [] ==> edges == Edges(relationships)
    ensures members != [] ==>
              genMap == GenerationMap(members, StartIds(members, ChildToParents(relationships)), ParentToChildren(relationships))
    ensures Distinct(IdsOf(genMap))
    ensures forall m :: m in members ==> m.id in IdsOf(genMap)
    ensures forall j :: 0 <= j < |genMap| ==>
              Placed(ParentToChildren(relationships), StartIds(members, ChildToParents(relationships)), members, genMap[j])
    ensures members != [] ==>
              forall path :: IsPath(ParentToChildren(relationships), StartIds(members, ChildToParents(relationships)), path)
                ==> path[|path| - 1] in IdsOf(genMap)
    ensures keys == GenKeys(genMap)
    ensures forall g :: g in rows <==> g in keys
    ensures forall g :: g in rows ==> rows[g] == IdsAt(genMap, g)
    ensures nodes == Layout(keys, rows, MemberMap(members), ChildToParents(relationships))
    ensures Distinct(NodeIds(nodes))
    ensures forall x :: x in NodeIds(nodes) <==> x in MemberIds(members)
    ensures forall nd :: nd in nodes ==>
              ShowsMember(members, relationships, nd) && InGenerationRow(members, relationships, nd) && InSlot(rows, nd)
    ensures forall a, b :: a in nodes && b in nodes ==> Apart(a, b)
  {
    if |members| == 0 {
      return [], [], [], map[], [];
    }
    var childToParents, parentToChildren := BuildAdjacency(relationships);
    var starts := StartIds(members, childToParents);
    var order := Generations(members, starts, parentToChildren);
    nodes, rows, keys := PlaceGenerations(members, relationships, childToParents, order);
    edges := Edges(relationships);
    genMap := order;
  }

  /** The second half of `buildTree`: groups a generation map that has one
      entry per id, covering every member, by generation, and positions one
      node per member id, row by row. Each node shows the last member with
      its id, sits in the row of its generation at its slot, and no two
      nodes overlap. */
  method PlaceGenerations(members: seq<Member>, relationships: seq<ParentLink>, childToParents: Adjacency,
                          genMap: seq<Visit>)
    returns (nodes: seq<TreeNode>, rows: map<nat, seq<Id>>, keys: seq<nat>)
    requires childToParents == ChildToParents(relationships)
    requires forall c :: c in childToParents <==> exists r :: r in relationships && r.childMemberId == c
    requires Distinct(IdsOf(genMap))
    requires forall m :: m in members ==> m.id in IdsOf(genMap)
    requires forall j :: 0 <= j < |genMap| ==>
               Placed(ParentToChildren(relationships), StartIds(members, childToParents), members, genMap[j])
    ensures keys == GenKeys(genMap)
    ensures forall g :: g in rows <==> g in keys
    ensures forall g :: g in rows ==> rows[g] == IdsAt(genMap, g)
    ensures nodes == Layout(keys, rows, MemberMap(members), childToParents)
    ensures Distinct(NodeIds(nodes))
    ensures forall x :: x in NodeIds(nodes) <==> x in MemberIds(members)
    ensures forall nd :: nd in nodes ==>
              ShowsMember(members, relationships, nd) && InGenerationRow(members, relationships, nd) && InSlot(rows, nd)
    ensures forall a, b :: a in nodes && b in nodes ==> Apart(a, b)
  {
    rows, keys := GroupByGeneration(genMap);
    var memberMap := MemberMap(members);
    nodes := PositionNodes(keys, rows, memberMap, childToParents);
    LayoutIds(members, genMap, rows, keys, memberMap, childToParents);
    LayoutNodes(members, relationships, genMap, rows, keys, memberMap, childToParents);
  }

  /** The rows of a generation map with distinct ids: each row without
      repeats, and an id found in two rows means the rows are the same. */
  lemma RowsPartition(genMap: seq<Visit>, rows: map<nat, seq<Id>>)
    requires Distinct(IdsOf(genMap))
    requires forall g :: g in rows ==> rows[g] == IdsAt(genMap, g)
    ensures forall g :: g in rows ==> Distinct(rows[g])
    ensures forall g, h, x :: g in rows && h in rows && x in rows[g] && x in rows[h] ==> g == h
  {
    forall g | g in rows ensures Distinct(rows[g]) {
      IdsAtDistinct(genMap, g);
    }
    forall g, h, x | g in rows && h in rows && x in rows[g] && x in rows[h] ensures g == h {
      OneGeneration(genMap, x, g, h);
    }
  }

  /** Every member id is in the row of its generation. */
  lemma MembersInRows(members: seq<Member>, genMap: seq<Visit>, rows: map<nat, seq<Id>>, keys: seq<nat>)
    requires forall m :: m in members ==> m.id in IdsOf(genMap)
    requires keys == GenKeys(genMap)
    requires forall g :: g in rows <==> g in keys
    requires forall g :: g in rows ==> rows[g] == IdsAt(genMap, g)
    ensures forall x :: x in MemberIds(members) ==> exists g :: g in keys && g in rows && x in rows[g]
  {
    forall x | x in MemberIds(members)
      ensures exists g :: g in keys && g in rows && x in rows[g]
    {
      var k :| 0 <= k < |members| && MemberIds(members)[k] == x;
      assert members[k] in members;
      var j :| 0 <= j < |genMap| && IdsOf(genMap)[j] == x;
      var g := genMap[j].gen;
      assert genMap[j] in genMap && genMap[j] == Visit(x, g);
      assert g in keys;
      assert x in IdsAt(genMap, g);
    }
  }

  /** Every member id gets exactly one node. */
  lemma LayoutIds(members: seq<Member>, genMap: seq<Visit>, rows: map<nat, seq<Id>>, keys: seq<nat>,
                  memberMap: map<Id, Member>, childToParents: Adjacency)
    requires Distinct(IdsOf(genMap))
    requires forall m :: m in members ==> m.id in IdsOf(genMap)
    requires keys == GenKeys(genMap)
    requires forall g :: g in rows <==> g in keys
    requires forall g :: g in rows ==> rows[g] == IdsAt(genMap, g)
    requires memberMap == MemberMap(members)
    ensures Distinct(NodeIds(Layout(keys, rows, memberMap, childToParents)))
    ensures forall x :: x in NodeIds(Layout(keys, rows, memberMap, childToParents)) <==> x in MemberIds(members)
  {
    RowsPartition(genMap, rows);
    LayoutNodeIds(keys, rows, memberMap, childToParents);
    MembersInRows(members, genMap, rows, keys);
  }

  /** A row's y coordinate gives back its generation. */
  lemma RowOfY(g: nat)
    ensures g * RowPitch == 220 * g
    ensures (g * RowPitch) % RowPitch == 0 && (g * RowPitch) / RowPitch == g
  {
  }

  /** The node of slot `i` in row `g` shows its member, sits in its
      generation's row and in a slot. */
  lemma NodeFacts(members: seq<Member>, relationships: seq<ParentLink>, genMap: seq<Visit>,
                  rows: map<nat, seq<Id>>, ids: seq<Id>, i: nat, g: nat, memberMap: map<Id, Member>, childToParents: Adjacency)
    requires forall c :: c in childToParents <==> exists r :: r in relationships && r.childMemberId == c
    requires childToParents == ChildToParents(relationships)
    requires forall j :: 0 <= j < |genMap| ==>
               Placed(ParentToChildren(relationships), StartIds(members, childToParents), members, genMap[j])
    requires g in rows && rows[g] == ids && ids == IdsAt(genMap, g)
    requires memberMap == MemberMap(members)
    requires i < |ids| && ids[i] in memberMap
    ensures var nd := NodeAt(ids, i, g, memberMap, childToParents);
            ShowsMember(members, relationships, nd) && InGenerationRow(members, relationships, nd) && InSlot(rows, nd)
  {
    var nd := NodeAt(ids, i, g, memberMap, childToParents);
    RowOfY(g);
    assert Visit(nd.id, g) in genMap;
    var j :| 0 <= j < |genMap| && genMap[j] == Visit(nd.id, g);
    assert Visit(nd.id, nd.y / RowPitch) == genMap[j];
    assert Placed(ParentToChildren(relationships), StartIds(members, ChildToParents(relationships)), members, genMap[j]);
    assert InGenerationRow(members, relationships, nd);
    assert nd.x == SlotX(|ids|, i);
  }

  /** Every node shows its member, sits in its generation's row and in a
      slot, and no two nodes overlap. */
  lemma LayoutNodes(members: seq<Member>, relationships: seq<ParentLink>, genMap: seq<Visit>,
                    rows: map<nat, seq<Id>>, keys: seq<nat>, memberMap: map<Id, Member>, childToParents: Adjacency)
    requires childToParents == ChildToParents(relationships)
    requires forall c :: c in childToParents <==> exists r :: r in relationships && r.childMemberId == c
    requires forall j :: 0 <= j < |genMap| ==>
               Placed(ParentToChildren(relationships), StartIds(members, childToParents), members, genMap[j])
    requires forall g :: g in rows ==> rows[g] == IdsAt(genMap, g)
    requires memberMap == MemberMap(members)
    ensures forall nd :: nd in Layout(keys, rows, memberMap, childToParents) ==>
              ShowsMember(members, relationships, nd) && InGenerationRow(members, relationships, nd) && InSlot(rows, nd)
    ensures forall a, b ::
              a in Layout(keys, rows, memberMap, childToParents) && b in Layout(keys, rows, memberMap, childToParents)
              ==> Apart(a, b)
  {
    var nodes := Layout(keys, rows, memberMap, childToParents);
    LayoutMembership(keys, rows, memberMap, childToParents);
    forall nd | nd in nodes
      ensures ShowsMember(members, relationships, nd) && InGenerationRow(members, relationships, nd) && InSlot(rows, nd)
    {
      var g, i :| g in keys && g in rows && 0 <= i < |rows[g]| && rows[g][i] in memberMap
                  && nd == NodeAt(rows[g], i, g, memberMap, childToParents);
      NodeFacts(members, relationships, genMap, rows, rows[g], i, g, memberMap, childToParents);
    }
    forall a, b | a in nodes && b in nodes ensures Apart(a, b) {
      if a != b && a.y == b.y {
        NodesApart(keys, rows, memberMap, childToParents, a, b);
      }
    }
  }
}

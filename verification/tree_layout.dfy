/** The family-tree layout of the tree page: relationships become
    child-to-parents and parent-to-children adjacency lists, generations are
    assigned by a breadth-first search from the root members, each
    generation becomes one horizontal row of equally spaced nodes centred on
    x = 0, and every relationship becomes one styled edge.

    JavaScript `Map`s that are only looked up are Dafny maps; the maps whose
    iteration order matters (the generation map and the rows map) carry
    their insertion order explicitly. */
module TreeLayout {
  import opened Common
  import opened Records

  const NodeWidth := 200
  const NodeHeight := 120
  const HorizontalGap := 60
  const VerticalGap := 100

  /** child id -> parent ids, or parent id -> child ids, one entry per relationship. */
  type Adjacency = map<Id, seq<Id>>

  /** `adj.get(k) || []`. */
  function Lookup(adj: Adjacency, k: Id): seq<Id>
  {
    if k in adj then adj[k] else []
  }

  // ---------------------------------------------------------------------
  // Adjacency
  // ---------------------------------------------------------------------

  /** The parents recorded for child `c`, one per relationship naming `c` as
      child, in relationship order (duplicates kept). */
  function ParentsOf(rels: seq<ParentLink>, c: Id): seq<Id>
    decreases |rels|
  {
    if rels == [] then []
    else
      var r := rels[|rels| - 1];
      ParentsOf(rels[..|rels| - 1], c) + (if r.childMemberId == c then [r.parentMemberId] else [])
  }

  /** The children recorded for parent `p`, one per relationship naming `p`
      as parent, in relationship order (duplicates kept). */
  function ChildrenOf(rels: seq<ParentLink>, p: Id): seq<Id>
    decreases |rels|
  {
    if rels == [] then []
    else
      var r := rels[|rels| - 1];
      ChildrenOf(rels[..|rels| - 1], p) + (if r.parentMemberId == p then [r.childMemberId] else [])
  }

  /** The `childToParents` map after the relationships have been added in order. */
  function ChildToParents(rels: seq<ParentLink>): Adjacency
    decreases |rels|
  {
    if rels == [] then map[]
    else
      var m := ChildToParents(rels[..|rels| - 1]);
      var r := rels[|rels| - 1];
      m[r.childMemberId := Lookup(m, r.childMemberId) + [r.parentMemberId]]
  }

  /** The `parentToChildren` map after the relationships have been added in order. */
  function ParentToChildren(rels: seq<ParentLink>): Adjacency
    decreases |rels|
  {
    if rels == [] then map[]
    else
      var m := ParentToChildren(rels[..|rels| - 1]);
      var r := rels[|rels| - 1];
      m[r.parentMemberId := Lookup(m, r.parentMemberId) + [r.childMemberId]]
  }

  /** `p` is listed among the parents of `c` exactly when some relationship
      links parent `p` to child `c`. */
  lemma {:induction false} ParentsOfMembership(rels: seq<ParentLink>, c: Id, p: Id)
    ensures p in ParentsOf(rels, c) <==> exists r :: r in rels && r.childMemberId == c && r.parentMemberId == p
    decreases |rels|
  {
    if rels != [] {
      var init := rels[..|rels| - 1];
      ParentsOfMembership(init, c, p);
      assert rels == init + [rels[|rels| - 1]];
    }
  }

  /** `c` is listed among the children of `p` exactly when some relationship
      links parent `p` to child `c`. */
  lemma {:induction false} ChildrenOfMembership(rels: seq<ParentLink>, p: Id, c: Id)
    ensures c in ChildrenOf(rels, p) <==> exists r :: r in rels && r.childMemberId == c && r.parentMemberId == p
    decreases |rels|
  {
    if rels != [] {
      var init := rels[..|rels| - 1];
      ChildrenOfMembership(init, p, c);
      assert rels == init + [rels[|rels| - 1]];
    }
  }

  /** The map holds a key exactly for the ids named as a child, and each
      key's list is that child's parents in relationship order. */
  lemma {:induction false} ChildToParentsContents(rels: seq<ParentLink>, c: Id)
    ensures c in ChildToParents(rels) <==> exists r :: r in rels && r.childMemberId == c
    ensures Lookup(ChildToParents(rels), c) == ParentsOf(rels, c)
    decreases |rels|
  {
    if rels != [] {
      var init := rels[..|rels| - 1];
      ChildToParentsContents(init, c);
      assert rels == init + [rels[|rels| - 1]];
    }
  }

  /** The map holds a key exactly for the ids named as a parent, and each
      key's list is that parent's children in relationship order. */
  lemma {:induction false} ParentToChildrenContents(rels: seq<ParentLink>, p: Id)
    ensures p in ParentToChildren(rels) <==> exists r :: r in rels && r.parentMemberId == p
    ensures Lookup(ParentToChildren(rels), p) == ChildrenOf(rels, p)
    decreases |rels|
  {
    if rels != [] {
      var init := rels[..|rels| - 1];
      ParentToChildrenContents(init, p);
      assert rels == init + [rels[|rels| - 1]];
    }
  }

  /** Builds both adjacency maps in one pass over the relationships. */
  method BuildAdjacency(rels: seq<ParentLink>) returns (childToParents: Adjacency, parentToChildren: Adjacency)
    ensures childToParents == ChildToParents(rels)
    ensures parentToChildren == ParentToChildren(rels)
    ensures forall c :: c in childToParents <==> exists r :: r in rels && r.childMemberId == c
    ensures forall c :: Lookup(childToParents, c) == ParentsOf(rels, c)
    ensures forall p :: p in parentToChildren <==> exists r :: r in rels && r.parentMemberId == p
    ensures forall p :: Lookup(parentToChildren, p) == ChildrenOf(rels, p)
  {
    childToParents, parentToChildren := map[], map[];
    var i := 0;
    while i < |rels|
      invariant 0 <= i <= |rels|
      invariant childToParents == ChildToParents(rels[..i])
      invariant parentToChildren == ParentToChildren(rels[..i])
    {
      var rel := rels[i];
      var parents := Lookup(childToParents, rel.childMemberId);
      parents := parents + [rel.parentMemberId];
      childToParents := childToParents[rel.childMemberId := parents];
      var children := Lookup(parentToChildren, rel.parentMemberId);
      children := children + [rel.childMemberId];
      parentToChildren := parentToChildren[rel.parentMemberId := children];
      assert rels[..i + 1][..i] == rels[..i];
      i := i + 1;
    }
    assert rels[..|rels|] == rels;
    forall c
      ensures c in childToParents <==> exists r :: r in rels && r.childMemberId == c
      ensures Lookup(childToParents, c) == ParentsOf(rels, c)
      ensures c in parentToChildren <==> exists r :: r in rels && r.parentMemberId == c
      ensures Lookup(parentToChildren, c) == ChildrenOf(rels, c)
    {
      ChildToParentsContents(rels, c);
      ParentToChildrenContents(rels, c);
    }
  }

  // ---------------------------------------------------------------------
  // Roots and start ids
  // ---------------------------------------------------------------------

  /** `members.map(m => m.id)`. */
  function MemberIds(members: seq<Member>): (ids: seq<Id>)
    ensures |ids| == |members|
    ensures forall i :: 0 <= i < |members| ==> ids[i] == members[i].id
  {
    seq(|members|, i requires 0 <= i < |members| => members[i].id)
  }

  /** The ids of the members with no recorded parent, in member order. */
  function RootIds(members: seq<Member>, childToParents: Adjacency): (roots: seq<Id>)
    decreases |members|
  {
    if members == [] then []
    else
      (if members[0].id !in childToParents then [members[0].id] else [])
      + RootIds(members[1..], childToParents)
  }

  /** The root list holds exactly the member ids that have no entry in
      `childToParents`, without changing their order. */
  lemma {:induction false} RootIdsExact(members: seq<Member>, childToParents: Adjacency)
    ensures forall x :: x in RootIds(members, childToParents) <==> x in MemberIds(members) && x !in childToParents
    ensures SubsequenceOf(RootIds(members, childToParents), MemberIds(members))
    decreases |members|
  {
    if members != [] {
      RootIdsExact(members[1..], childToParents);
      assert MemberIds(members) == [members[0].id] + MemberIds(members[1..]);
      var rest := RootIds(members[1..], childToParents);
      if members[0].id !in childToParents {
        assert ([members[0].id] + rest)[1..] == rest;
      } else {
        assert MemberIds(members)[1..] == MemberIds(members[1..]);
        assert RootIds(members, childToParents) == rest;
        SubsequenceOfTail(rest, MemberIds(members));
      }
    }
  }

  /** There are no roots exactly when every member has a recorded parent. */
  lemma NoRootsExactly(members: seq<Member>, childToParents: Adjacency)
    ensures RootIds(members, childToParents) == [] <==> forall m :: m in members ==> m.id in childToParents
  {
    RootIdsExact(members, childToParents);
    var roots := RootIds(members, childToParents);
    if roots != [] {
      assert roots[0] in MemberIds(members);
      var i :| 0 <= i < |members| && MemberIds(members)[i] == roots[0];
      assert members[i] in members;
    } else {
      forall m | m in members ensures m.id in childToParents {
        var i :| 0 <= i < |members| && members[i] == m;
        assert MemberIds(members)[i] == m.id;
      }
    }
  }

  /** The ids the search starts from: the roots, or every member when no
      member is a root. */
  function StartIds(members: seq<Member>, childToParents: Adjacency): (starts: seq<Id>)
    ensures forall x :: x in starts ==> x in MemberIds(members)
    ensures |members| > 0 ==> |starts| > 0
    ensures (forall m :: m in members ==> m.id in childToParents) ==> starts == MemberIds(members)
    ensures (exists m :: m in members && m.id !in childToParents) ==>
              forall x :: x in starts <==> x in MemberIds(members) && x !in childToParents
  {
    RootIdsExact(members, childToParents);
    NoRootsExactly(members, childToParents);
    var roots := RootIds(members, childToParents);
    if |roots| > 0 then roots else MemberIds(members)
  }

  // ---------------------------------------------------------------------
  // Generations: breadth-first search from the start ids
  // ---------------------------------------------------------------------

  /** A queue entry and a generation-map entry: an id and its generation. */
  datatype Visit = Visit(id: Id, gen: nat)

  function IdsOf(vs: seq<Visit>): (ids: seq<Id>)
    ensures |ids| == |vs|
    ensures forall i :: 0 <= i < |vs| ==> ids[i] == vs[i].id
    ensures forall v :: v in vs ==> v.id in ids
  {
    seq(|vs|, i requires 0 <= i < |vs| => vs[i].id)
  }

  lemma IdsOfSnoc(vs: seq<Visit>, v: Visit)
    ensures IdsOf(vs + [v]) == IdsOf(vs) + [v.id]
  {
  }

  /** The ids of the entries, as a set: the `visited` set of the search. */
  function IdSet(vs: seq<Visit>): set<Id>
  {
    set x | x in IdsOf(vs)
  }

  /** The entries a `forEach` over `ids` appends when it adds, at generation
      `gen`, each id that is neither in `seen` nor added earlier in the same
      walk: the first occurrence of every unseen id, in the order of `ids`. */
  function NewVisits(ids: seq<Id>, seen: set<Id>, gen: nat): seq<Visit>
    decreases |ids|
  {
    if ids == [] then []
    else
      var init, x := NewVisits(ids[..|ids| - 1], seen, gen), ids[|ids| - 1];
      if x in seen || x in IdsOf(init) then init else init + [Visit(x, gen)]
  }

  /** The appended entries are all at generation `gen`, repeat no id, and
      hold exactly the ids of `ids` not in `seen`. */
  lemma {:induction false} NewVisitsMeaning(ids: seq<Id>, seen: set<Id>, gen: nat)
    ensures forall j :: 0 <= j < |NewVisits(ids, seen, gen)| ==> NewVisits(ids, seen, gen)[j].gen == gen
    ensures Distinct(IdsOf(NewVisits(ids, seen, gen)))
    ensures forall x :: x in IdsOf(NewVisits(ids, seen, gen)) <==> x in ids && x !in seen
    decreases |ids|
  {
    if ids != [] {
      var prefix, x := ids[..|ids| - 1], ids[|ids| - 1];
      assert ids == prefix + [x];
      NewVisitsMeaning(prefix, seen, gen);
      var init := NewVisits(prefix, seen, gen);
      IdsOfSnoc(init, Visit(x, gen));
      if !(x in seen || x in IdsOf(init)) {
        DistinctConcat(IdsOf(init), [x]);
      }
    }
  }

  /** Adding `x` to `ids` adds at most its one first occurrence. */
  lemma NewVisitsSnoc(ids: seq<Id>, seen: set<Id>, gen: nat, x: Id)
    ensures NewVisits(ids + [x], seen, gen) ==
      (if x in seen || x in IdsOf(NewVisits(ids, seen, gen)) then NewVisits(ids, seen, gen)
       else NewVisits(ids, seen, gen) + [Visit(x, gen)])
  {
    assert (ids + [x])[..|ids|] == ids;
  }

  /** One step of a walk over `ids` that appends the unseen ones to
      `base`: with `added` the entries appended for the first `k` ids, and
      `present` telling whether `ids[k]` was seen or already added, the
      queue after the step is `base` followed by the entries for `k + 1` ids. */
  lemma NewVisitsStep(ids: seq<Id>, k: nat, seen: set<Id>, gen: nat, added: seq<Visit>, base: seq<Visit>,
                      known: set<Id>, prev: seq<Visit>, queue: seq<Visit>)
    requires k < |ids| && added == NewVisits(ids[..k], seen, gen) && prev == base + added
    requires ids[k] in known <==> ids[k] in seen || ids[k] in IdsOf(added)
    requires ids[k] in known ==> queue == prev
    requires ids[k] !in known ==> queue == prev + [Visit(ids[k], gen)]
    ensures queue == base + NewVisits(ids[..k + 1], seen, gen)
  {
    assert ids[..k + 1] == ids[..k] + [ids[k]];
    NewVisitsSnoc(ids[..k], seen, gen, ids[k]);
    if ids[k] !in known {
      assert (base + added) + [Visit(ids[k], gen)] == base + (added + [Visit(ids[k], gen)]);
    }
  }

  /** The same step for a walk that starts from an empty queue. */
  lemma NewVisitsFirstStep(ids: seq<Id>, k: nat, gen: nat, added: seq<Visit>, present: bool, queue: seq<Visit>)
    requires k < |ids| && added == NewVisits(ids[..k], {}, gen)
    requires present <==> ids[k] in IdsOf(added)
    requires queue == if present then added else added + [Visit(ids[k], gen)]
    ensures queue == NewVisits(ids[..k + 1], {}, gen)
  {
    assert ids[..k + 1] == ids[..k] + [ids[k]];
    NewVisitsSnoc(ids[..k], {}, gen, ids[k]);
  }

  /** The search from `head` is the search from `head + 1` on the queue
      extended by the children of the entry at `head` not yet visited. */
  lemma SearchStep(parentToChildren: Adjacency, universe: set<Id>, queue: seq<Visit>, pos: map<Id, nat>,
                   visited: set<Id>, head: nat, queue': seq<Visit>, order: seq<Visit>)
    requires head < |queue| && Indexed(queue, pos) && pos.Keys == visited
    requires ClosedUnder(parentToChildren, universe)
    requires queue' == Expand(parentToChildren, queue, visited, head)
    requires SearchYields(parentToChildren, universe, queue, head, order)
    ensures SearchYields(parentToChildren, universe, queue', head + 1, order)
  {
    IndexedIdSet(queue, pos);
  }

  /** A walk over all of `ids` has covered the whole list. */
  lemma NewVisitsAll(ids: seq<Id>, seen: set<Id>, gen: nat)
    ensures NewVisits(ids[..|ids|], seen, gen) == NewVisits(ids, seen, gen)
  {
    assert ids[..|ids|] == ids;
  }

  /** Every entry appended is a newly visited id of `universe`: the ids left
      to visit shrink by exactly the number of entries appended. */
  lemma {:induction false} NewVisitsShrink(ids: seq<Id>, seen: set<Id>, gen: nat, universe: set<Id>)
    requires forall x :: x in ids ==> x in universe
    ensures |universe - (seen + IdSet(NewVisits(ids, seen, gen)))| + |NewVisits(ids, seen, gen)| == |universe - seen|
    decreases |ids|
  {
    if ids != [] {
      var prefix, x := ids[..|ids| - 1], ids[|ids| - 1];
      assert ids == prefix + [x];
      NewVisitsShrink(prefix, seen, gen, universe);
      NewVisitsSnoc(prefix, seen, gen, x);
      var init := NewVisits(prefix, seen, gen);
      if !(x in seen || x in IdsOf(init)) {
        IdsOfSnoc(init, Visit(x, gen));
        assert IdSet(init + [Visit(x, gen)]) == IdSet(init) + {x};
        assert seen + IdSet(init + [Visit(x, gen)]) == (seen + IdSet(init)) + {x};
        VisitShrinks(universe, seen + IdSet(init), x);
      }
    }
  }

  /** A parent-to-child path: it begins at a start id and each next id is a
      listed child of the one before. */
  ghost predicate IsPath(parentToChildren: Adjacency, starts: seq<Id>, path: seq<Id>)
  {
    && |path| > 0 && path[0] in starts
    && forall i :: 0 <= i < |path| - 1 ==> path[i + 1] in Lookup(parentToChildren, path[i])
  }

  /** `path` leads from a start id to `x` in `g` steps. */
  ghost predicate PathTo(parentToChildren: Adjacency, starts: seq<Id>, path: seq<Id>, x: Id, g: nat)
  {
    IsPath(parentToChildren, starts, path) && |path| == g + 1 && path[g] == x
  }

  /** `g` is the number of steps of a shortest path from a start id to `x`. */
  ghost predicate IsDistance(parentToChildren: Adjacency, starts: seq<Id>, x: Id, g: nat)
  {
    && (exists path :: PathTo(parentToChildren, starts, path, x, g))
    && forall path :: IsPath(parentToChildren, starts, path) && path[|path| - 1] == x ==> g < |path|
  }

  /** No path from a start id ends at `x`. */
  ghost predicate Unreachable(parentToChildren: Adjacency, starts: seq<Id>, x: Id)
  {
    forall path :: IsPath(parentToChildren, starts, path) ==> path[|path| - 1] != x
  }

  lemma PathSnoc(parentToChildren: Adjacency, starts: seq<Id>, path: seq<Id>, c: Id)
    requires IsPath(parentToChildren, starts, path)
    requires c in Lookup(parentToChildren, path[|path| - 1])
    ensures IsPath(parentToChildren, starts, path + [c])
  {
    var q := path + [c];
    forall i | 0 <= i < |q| - 1 ensures q[i + 1] in Lookup(parentToChildren, q[i]) {
      if i < |path| - 1 {
        assert q[i] == path[i] && q[i + 1] == path[i + 1];
      }
    }
  }

  lemma PathPrefix(parentToChildren: Adjacency, starts: seq<Id>, path: seq<Id>)
    requires IsPath(parentToChildren, starts, path) && |path| > 1
    ensures IsPath(parentToChildren, starts, path[..|path| - 1])
  {
    var q := path[..|path| - 1];
    forall i | 0 <= i < |q| - 1 ensures q[i + 1] in Lookup(parentToChildren, q[i]) {
      assert q[i] == path[i] && q[i + 1] == path[i + 1];
    }
  }

  /** A finite set holding every id the search can ever enqueue: the start
      ids and every listed child. Its size bounds the number of enqueues. */
  ghost function Universe(starts: seq<Id>, parentToChildren: Adjacency): (universe: set<Id>)
    ensures forall x :: x in starts ==> x in universe
    ensures ClosedUnder(parentToChildren, universe)
  {
    (set x | x in starts) + (set p, c | p in parentToChildren && c in parentToChildren[p] :: c)
  }

  /** The search from the entry at `head` on: dequeue it, append its
      children not yet visited at the next generation, and go on until the
      queue is drained. The result is the whole queue, which is the order in
      which the search stores ids in the generation map. */
  ghost function Search(parentToChildren: Adjacency, universe: set<Id>, queue: seq<Visit>, head: nat): seq<Visit>
    requires head <= |queue|
    requires ClosedUnder(parentToChildren, universe)
    decreases |universe - IdSet(queue)| + |queue| - head
  {
    if head == |queue| then queue
    else
      ExpandShrinks(parentToChildren, universe, queue, head);
      Search(parentToChildren, universe, Expand(parentToChildren, queue, IdSet(queue), head), head + 1)
  }

  /** One step of the search leaves as many fewer ids to visit as entries
      it appends. */
  lemma ExpandShrinks(parentToChildren: Adjacency, universe: set<Id>, queue: seq<Visit>, head: nat)
    requires head < |queue| && ClosedUnder(parentToChildren, universe)
    ensures |universe - IdSet(Expand(parentToChildren, queue, IdSet(queue), head))|
            + |Expand(parentToChildren, queue, IdSet(queue), head)| == |universe - IdSet(queue)| + |queue|
  {
    var children := Lookup(parentToChildren, queue[head].id);
    var added := NewVisits(children, IdSet(queue), queue[head].gen + 1);
    NewVisitsShrink(children, IdSet(queue), queue[head].gen + 1, universe);
    IdSetAppend(queue, added);
  }

  /** Every child listed in `parentToChildren` lies in `universe`. */
  ghost predicate ClosedUnder(parentToChildren: Adjacency, universe: set<Id>)
  {
    forall p, c :: c in Lookup(parentToChildren, p) ==> c in universe
  }

  /** Going on with the search from `queue`, `head` entries of it dequeued,
      yields `order`. */
  ghost predicate SearchYields(parentToChildren: Adjacency, universe: set<Id>, queue: seq<Visit>, head: nat,
                               order: seq<Visit>)
    requires head <= |queue|
    requires ClosedUnder(parentToChildren, universe)
  {
    Search(parentToChildren, universe, queue, head) == order
  }

  /** The search from the seeded queue yields the dequeue order. */
  lemma SearchSeeded(starts: seq<Id>, parentToChildren: Adjacency, queue: seq<Visit>)
    requires queue == NewVisits(starts, {}, 0)
    ensures SearchYields(parentToChildren, Universe(starts, parentToChildren), queue, 0, BfsOrder(starts, parentToChildren))
  {
  }

  /** A drained search yields its queue. */
  lemma SearchDrained(parentToChildren: Adjacency, universe: set<Id>, queue: seq<Visit>, order: seq<Visit>)
    requires ClosedUnder(parentToChildren, universe)
    requires SearchYields(parentToChildren, universe, queue, |queue|, order)
    ensures queue == order
  {
  }

  /** The queue once the entry at `head` is dequeued and each of its children
      not in `visited` is appended, in the order listed, one generation below
      it. */
  ghost function Expand(parentToChildren: Adjacency, queue: seq<Visit>, visited: set<Id>, head: nat): seq<Visit>
    requires head < |queue|
  {
    queue + NewVisits(Lookup(parentToChildren, queue[head].id), visited, queue[head].gen + 1)
  }

  lemma IdSetAppend(a: seq<Visit>, b: seq<Visit>)
    ensures IdSet(a + b) == IdSet(a) + IdSet(b)
  {
    assert IdsOf(a + b) == IdsOf(a) + IdsOf(b);
  }

  /** The order in which the breadth-first search dequeues ids: the start
      ids, each once, at generation 0, then the children of each dequeued
      entry not visited before, in adjacency order. */
  ghost function BfsOrder(starts: seq<Id>, parentToChildren: Adjacency): seq<Visit>
  {
    Search(parentToChildren, Universe(starts, parentToChildren), NewVisits(starts, {}, 0), 0)
  }

  /** The generation map in its insertion order: the search's entries, then
      each member id the search did not reach, once, at generation 0. */
  ghost function GenerationMap(members: seq<Member>, starts: seq<Id>, parentToChildren: Adjacency): seq<Visit>
  {
    var order := BfsOrder(starts, parentToChildren);
    order + NewVisits(MemberIds(members), IdSet(order), 0)
  }

  /** `pos` gives the queue index of every enqueued id, and every id is enqueued once. */
  ghost predicate Indexed(queue: seq<Visit>, pos: map<Id, nat>)
  {
    && (forall x :: x in pos ==> pos[x] < |queue| && queue[pos[x]].id == x)
    && (forall j :: 0 <= j < |queue| ==> queue[j].id in pos && pos[queue[j].id] == j)
  }

  /** The indexed ids are exactly the queue's ids. */
  lemma IndexedIdSet(queue: seq<Visit>, pos: map<Id, nat>)
    requires Indexed(queue, pos)
    ensures pos.Keys == IdSet(queue)
  {
    forall x | x in IdsOf(queue) ensures x in pos {
      var j :| 0 <= j < |queue| && IdsOf(queue)[j] == x;
    }
    forall x | x in pos ensures x in IdsOf(queue) {
      assert IdsOf(queue)[pos[x]] == x;
    }
  }

  /** Generations never decrease along the queue. */
  ghost predicate Layered(queue: seq<Visit>)
  {
    forall i, j {:trigger queue[i], queue[j]} :: 0 <= i && j == i + 1 && j < |queue| ==> queue[i].gen <= queue[j].gen
  }

  lemma {:induction false} LayeredMonotone(queue: seq<Visit>, i: nat, j: nat)
    requires Layered(queue) && i <= j < |queue|
    ensures queue[i].gen <= queue[j].gen
    decreases j - i
  {
    if i < j {
      LayeredMonotone(queue, i, j - 1);
    }
  }

  /** The children of the first `n` dequeued entries are all enqueued, at most
      one generation below their parent. */
  ghost predicate Closed(parentToChildren: Adjacency, queue: seq<Visit>, pos: map<Id, nat>, n: nat)
    requires n <= |queue|
  {
    forall i, c :: 0 <= i < n && c in Lookup(parentToChildren, queue[i].id) ==>
      c in pos && pos[c] < |queue| && queue[pos[c]].gen <= queue[i].gen + 1
  }

  /** `paths[j]` is a path of `queue[j].gen` steps to `queue[j].id`. */
  ghost predicate Witnessed(parentToChildren: Adjacency, starts: seq<Id>, queue: seq<Visit>, paths: seq<seq<Id>>)
  {
    && |paths| == |queue|
    && forall j :: 0 <= j < |queue| ==> PathTo(parentToChildren, starts, paths[j], queue[j].id, queue[j].gen)
  }

  /** What holds of the search between two dequeues: `head` entries have
      been dequeued and their children enqueued. */
  ghost predicate SearchState(parentToChildren: Adjacency, starts: seq<Id>, queue: seq<Visit>, paths: seq<seq<Id>>,
                              pos: map<Id, nat>, visited: set<Id>, universe: set<Id>, head: nat)
  {
    && head <= |queue|
    && Indexed(queue, pos) && pos.Keys == visited && visited <= universe
    && (forall s :: s in starts ==> s in pos && queue[pos[s]].gen == 0)
    && Layered(queue)
    && Closed(parentToChildren, queue, pos, head)
    && Witnessed(parentToChildren, starts, queue, paths)
  }

  /** The entries still waiting are at most one generation below the next one. */
  ghost predicate Frontier(queue: seq<Visit>, head: nat)
  {
    head < |queue| ==> Bounded(queue, head, queue[head].gen + 1)
  }

  /** No entry from `head` on lies below generation `g`. */
  ghost predicate Bounded(queue: seq<Visit>, head: nat, g: nat)
  {
    forall j :: head <= j < |queue| ==> queue[j].gen <= g
  }

  /** Once the queue is drained and closed, every path ends at an enqueued id
      whose generation is below the path's length. */
  lemma {:induction false} ReachedWithin(parentToChildren: Adjacency, starts: seq<Id>, queue: seq<Visit>,
                                         pos: map<Id, nat>, path: seq<Id>)
    requires Indexed(queue, pos)
    requires forall s :: s in starts ==> s in pos && queue[pos[s]].gen == 0
    requires Closed(parentToChildren, queue, pos, |queue|)
    requires IsPath(parentToChildren, starts, path)
    ensures path[|path| - 1] in pos && queue[pos[path[|path| - 1]]].gen < |path|
    decreases |path|
  {
    if |path| > 1 {
      var prefix := path[..|path| - 1];
      PathPrefix(parentToChildren, starts, path);
      ReachedWithin(parentToChildren, starts, queue, pos, prefix);
      var p := path[|path| - 2];
      assert prefix[|prefix| - 1] == p;
      assert path[|path| - 1] in Lookup(parentToChildren, queue[pos[p]].id);
    }
  }

  /** Seeds the queue with the start ids at generation 0, each id once, in
      the order listed, and marks them visited. */
  method SeedQueue(starts: seq<Id>) returns (queue: seq<Visit>, visited: set<Id>)
    ensures queue == NewVisits(starts, {}, 0)
    ensures visited == IdSet(queue)
    ensures forall x :: x in visited <==> x in starts
    ensures forall j :: 0 <= j < |queue| ==> queue[j].gen == 0
  {
    queue, visited := [], {};
    var i := 0;
    while i < |starts|
      invariant 0 <= i <= |starts|
      invariant queue == NewVisits(starts[..i], {}, 0)
      invariant visited == IdSet(queue)
    {
      var id := starts[i];
      ghost var (q0, present) := (queue, id in visited);
      if id !in visited {
        IdsOfSnoc(queue, Visit(id, 0));
        queue := queue + [Visit(id, 0)];
        visited := visited + {id};
      }
      NewVisitsFirstStep(starts, i, 0, q0, present, queue);
      i := i + 1;
    }
    NewVisitsAll(starts, {}, 0);
    NewVisitsMeaning(starts, {}, 0);
  }

  /** The index of each id in a queue that repeats none: the last index at
      which it occurs. */
  ghost function PosOf(queue: seq<Visit>): map<Id, nat>
    decreases |queue|
  {
    if queue == [] then map[]
    else PosOf(queue[..|queue| - 1])[queue[|queue| - 1].id := |queue| - 1]
  }

  /** In a queue that repeats no id, `PosOf` indexes every entry. */
  lemma {:induction false} PosOfIndexed(queue: seq<Visit>)
    requires Distinct(IdsOf(queue))
    ensures Indexed(queue, PosOf(queue))
    decreases |queue|
  {
    if queue != [] {
      var init, v := queue[..|queue| - 1], queue[|queue| - 1];
      assert IdsOf(init) == IdsOf(queue)[..|init|];
      PosOfIndexed(init);
      var p := PosOf(init);
      IndexedIdSet(init, p);
      PushIndexed(init, p, v.id, v.gen);
      assert queue == init + [Visit(v.id, v.gen)];
    }
  }

  /** Appending an entry with a fresh id, indexed at the end, keeps the
      queue indexed. */
  lemma PushIndexed(queue: seq<Visit>, pos: map<Id, nat>, c: Id, g: nat)
    requires Indexed(queue, pos) && c !in pos
    ensures Indexed(queue + [Visit(c, g)], pos[c := |queue|])
  {
  }

  /** A queue indexed by `pos` repeats no id. */
  lemma IndexedDistinct(queue: seq<Visit>, pos: map<Id, nat>)
    requires Indexed(queue, pos)
    ensures Distinct(IdsOf(queue))
  {
    forall i, j | 0 <= i < j < |queue| ensures IdsOf(queue)[i] != IdsOf(queue)[j] {
      assert pos[queue[i].id] == i && pos[queue[j].id] == j;
    }
  }

  /** The seeded queue, with a one-id path to each start id, is the search
      state before the first dequeue. */
  lemma SeededState(parentToChildren: Adjacency, starts: seq<Id>, universe: set<Id>, queue: seq<Visit>)
    returns (paths: seq<seq<Id>>, pos: map<Id, nat>)
    requires forall x :: x in starts ==> x in universe
    requires queue == NewVisits(starts, {}, 0)
    ensures SearchState(parentToChildren, starts, queue, paths, pos, IdSet(queue), universe, 0)
    ensures Frontier(queue, 0)
  {
    NewVisitsMeaning(starts, {}, 0);
    PosOfIndexed(queue);
    pos := PosOf(queue);
    IndexedIdSet(queue, pos);
    paths := seq(|queue|, j requires 0 <= j < |queue| => [queue[j].id]);
    forall j | 0 <= j < |queue| ensures PathTo(parentToChildren, starts, paths[j], queue[j].id, queue[j].gen) {
      assert queue[j].id == IdsOf(queue)[j];
    }
  }

  /** Offers child `c` of an entry of generation `gen`: a child not yet
      visited is marked visited and queued one generation below; a visited
      one changes nothing. */
  method EnqueueChild(queue: seq<Visit>, visited: set<Id>, gen: nat, c: Id)
    returns (queue': seq<Visit>, visited': set<Id>)
    ensures c in visited ==> queue' == queue
    ensures c !in visited ==> queue' == queue + [Visit(c, gen + 1)]
    ensures visited' == visited + {c}
  {
    queue', visited' := queue, visited;
    if c !in visited {
      visited' := visited + {c};
      queue' := queue + [Visit(c, gen + 1)];
      IdsOfSnoc(queue, Visit(c, gen + 1));
    }
  }

  /** Dequeues the entry at `head` and offers each of its children, in the
      order listed: the queue gains the unvisited ones, once each, one
      generation below, and every child ends up visited. */
  method EnqueueChildren(parentToChildren: Adjacency, queue: seq<Visit>, visited: set<Id>, head: nat)
    returns (queue': seq<Visit>, visited': set<Id>)
    requires head < |queue|
    ensures queue' == Expand(parentToChildren, queue, visited, head)
    ensures visited' == visited + (set c | c in Lookup(parentToChildren, queue[head].id))
  {
    var v := queue[head];
    var children := Lookup(parentToChildren, v.id);
    queue', visited' := queue, visited;
    var k := 0;
    while k < |children|
      invariant 0 <= k <= |children|
      invariant queue' == queue + Offered(children, k, visited, v.gen + 1)
      invariant visited' == visited + IdSet(Offered(children, k, visited, v.gen + 1))
    {
      ghost var (prev, known) := (queue', visited');
      queue', visited' := EnqueueChild(queue', visited', v.gen, children[k]);
      OfferStep(children, k, visited, v.gen + 1, queue, prev, known, queue', visited');
      k := k + 1;
    }
    OfferedAll(children, visited, v.gen + 1);
  }

  /** The entries appended once the first `k` of `ids` are offered. */
  ghost function Offered(ids: seq<Id>, k: nat, seen: set<Id>, gen: nat): seq<Visit>
    requires k <= |ids|
  {
    NewVisits(ids[..k], seen, gen)
  }

  /** Offering `ids[k]`: the queue and the visited set go on to those for
      `k + 1` ids. */
  lemma OfferStep(ids: seq<Id>, k: nat, seen: set<Id>, gen: nat, base: seq<Visit>, prev: seq<Visit>, known: set<Id>,
                  queue: seq<Visit>, visited: set<Id>)
    requires k < |ids|
    requires prev == base + Offered(ids, k, seen, gen) && known == seen + IdSet(Offered(ids, k, seen, gen))
    requires ids[k] in known ==> queue == prev
    requires ids[k] !in known ==> queue == prev + [Visit(ids[k], gen)]
    requires visited == known + {ids[k]}
    ensures queue == base + Offered(ids, k + 1, seen, gen)
    ensures visited == seen + IdSet(Offered(ids, k + 1, seen, gen))
  {
    var added := Offered(ids, k, seen, gen);
    NewVisitsStep(ids, k, seen, gen, added, base, known, prev, queue);
    assert ids[..k + 1] == ids[..k] + [ids[k]];
    NewVisitsSnoc(ids[..k], seen, gen, ids[k]);
    IdsOfSnoc(added, Visit(ids[k], gen));
  }

  /** Once every id is offered, the queue has gained the unseen ones and
      every id is visited. */
  lemma OfferedAll(ids: seq<Id>, seen: set<Id>, gen: nat)
    ensures Offered(ids, |ids|, seen, gen) == NewVisits(ids, seen, gen)
    ensures seen + IdSet(Offered(ids, |ids|, seen, gen)) == seen + (set c | c in ids)
  {
    assert ids[..|ids|] == ids;
    NewVisitsMeaning(ids, seen, gen);
  }

  /** Expanding the entry at `head` keeps the search state with `head + 1`
      entries dequeued, and leaves as many fewer ids to visit as it appends. */
  lemma ExpandKeepsState(parentToChildren: Adjacency, starts: seq<Id>, queue: seq<Visit>, paths: seq<seq<Id>>,
                         pos: map<Id, nat>, visited: set<Id>, universe: set<Id>, head: nat,
                         queue': seq<Visit>, visited': set<Id>)
    returns (paths': seq<seq<Id>>, pos': map<Id, nat>)
    requires head < |queue| && ClosedUnder(parentToChildren, universe)
    requires SearchState(parentToChildren, starts, queue, paths, pos, visited, universe, head)
    requires Frontier(queue, head)
    requires queue' == Expand(parentToChildren, queue, visited, head)
    requires visited' == visited + (set c | c in Lookup(parentToChildren, queue[head].id))
    ensures SearchState(parentToChildren, starts, queue', paths', pos', visited', universe, head + 1)
    ensures Frontier(queue', head + 1)
    ensures |universe - visited'| + |queue'| == |universe - visited| + |queue|
  {
    var children, g := Lookup(parentToChildren, queue[head].id), queue[head].gen + 1;
    var added := NewVisits(children, visited, g);
    NewVisitsMeaning(children, visited, g);
    paths', pos' := AppendedState(parentToChildren, starts, queue, paths, pos, visited, universe, head, added);
    assert visited' == visited + IdSet(added);
    HeadClosed(parentToChildren, starts, queue, pos, visited, queue', paths', pos', visited', universe, head);
    HeadFrontier(queue, queue', head);
    AppendedMeasure(universe, queue, visited, pos, children, g, queue', visited', pos');
  }

  /** Appending the unvisited children of the entry at `head`, each with the
      head's path extended by it, keeps the search state and leaves every
      entry from `head` on within one generation of the appended ones. */
  lemma AppendedState(parentToChildren: Adjacency, starts: seq<Id>, queue: seq<Visit>, paths: seq<seq<Id>>,
                      pos: map<Id, nat>, visited: set<Id>, universe: set<Id>, head: nat, added: seq<Visit>)
    returns (paths': seq<seq<Id>>, pos': map<Id, nat>)
    requires head < |queue| && ClosedUnder(parentToChildren, universe)
    requires SearchState(parentToChildren, starts, queue, paths, pos, visited, universe, head)
    requires Frontier(queue, head)
    requires Distinct(IdsOf(added)) && forall j :: 0 <= j < |added| ==> added[j].gen == queue[head].gen + 1
    requires forall x :: x in IdsOf(added) ==> x in Lookup(parentToChildren, queue[head].id) && x !in visited
    ensures SearchState(parentToChildren, starts, queue + added, paths', pos', visited + IdSet(added), universe, head)
    ensures Bounded(queue + added, head, queue[head].gen + 1)
  {
    var children, g := Lookup(parentToChildren, queue[head].id), queue[head].gen + 1;
    pos' := AppendedIndexed(queue, pos, added);
    paths' := paths + seq(|added|, i requires 0 <= i < |added| => paths[head] + [added[i].id]);
    AppendedLayered(queue, head, g, added);
    AppendedClosed(parentToChildren, queue, pos, pos', head, added);
    AppendedStarts(starts, queue, pos, pos', added);
    AppendedWitnessed(parentToChildren, starts, queue, paths, head, added, paths');
    forall x | x in IdsOf(added) ensures x in universe {
      assert x in children;
    }
  }

  /** Appending entries with fresh, distinct ids to an indexed queue gives
      an indexed queue that keeps every old index. */
  lemma AppendedIndexed(queue: seq<Visit>, pos: map<Id, nat>, added: seq<Visit>) returns (pos': map<Id, nat>)
    requires Indexed(queue, pos) && Distinct(IdsOf(added))
    requires forall x :: x in IdsOf(added) ==> x !in pos
    ensures Indexed(queue + added, pos') && pos'.Keys == pos.Keys + IdSet(added)
    ensures forall x :: x in pos ==> x in pos' && pos'[x] == pos[x]
  {
    IndexedDistinct(queue, pos);
    IndexedIdSet(queue, pos);
    assert IdsOf(queue + added) == IdsOf(queue) + IdsOf(added);
    DistinctConcat(IdsOf(queue), IdsOf(added));
    PosOfIndexed(queue + added);
    pos' := PosOf(queue + added);
    IndexedIdSet(queue + added, pos');
    IdSetAppend(queue, added);
    forall x | x in pos ensures x in pos' && pos'[x] == pos[x] {
      assert (queue + added)[pos[x]] == queue[pos[x]];
    }
  }

  /** Appending entries of generation `g`, at least that of every waiting
      entry, keeps generations non-decreasing and bounded by `g`. */
  lemma AppendedLayered(queue: seq<Visit>, head: nat, g: nat, added: seq<Visit>)
    requires head < |queue| && Layered(queue) && Bounded(queue, head, g)
    requires forall j :: 0 <= j < |added| ==> added[j].gen == g
    ensures Layered(queue + added) && Bounded(queue + added, head, g)
  {
  }

  /** Appending entries leaves the children of the first `head` entries
      where they were. */
  lemma AppendedClosed(parentToChildren: Adjacency, queue: seq<Visit>, pos: map<Id, nat>, pos': map<Id, nat>,
                       head: nat, added: seq<Visit>)
    requires head <= |queue| && Indexed(queue, pos) && Closed(parentToChildren, queue, pos, head)
    requires forall x :: x in pos ==> x in pos' && pos'[x] == pos[x]
    ensures Closed(parentToChildren, queue + added, pos', head)
  {
    var q := queue + added;
    forall i, x | 0 <= i < head && x in Lookup(parentToChildren, q[i].id)
      ensures x in pos' && pos'[x] < |q| && q[pos'[x]].gen <= q[i].gen + 1
    {
      assert q[i] == queue[i];
      assert q[pos[x]] == queue[pos[x]];
    }
  }

  /** Appending entries keeps every start id at generation 0. */
  lemma AppendedStarts(starts: seq<Id>, queue: seq<Visit>, pos: map<Id, nat>, pos': map<Id, nat>, added: seq<Visit>)
    requires Indexed(queue, pos)
    requires forall s :: s in starts ==> s in pos && queue[pos[s]].gen == 0
    requires forall x :: x in pos ==> x in pos' && pos'[x] == pos[x]
    ensures forall s :: s in starts ==> s in pos' && (queue + added)[pos'[s]].gen == 0
  {
    forall s | s in starts ensures s in pos' && (queue + added)[pos'[s]].gen == 0 {
      assert (queue + added)[pos[s]] == queue[pos[s]];
    }
  }

  /** Each appended child of the entry at `head` is reached by the head's
      path extended by it, one step longer. */
  lemma AppendedWitnessed(parentToChildren: Adjacency, starts: seq<Id>, queue: seq<Visit>, paths: seq<seq<Id>>,
                          head: nat, added: seq<Visit>, paths': seq<seq<Id>>)
    requires head < |queue| && Witnessed(parentToChildren, starts, queue, paths)
    requires forall x :: x in IdsOf(added) ==> x in Lookup(parentToChildren, queue[head].id)
    requires forall j :: 0 <= j < |added| ==> added[j].gen == queue[head].gen + 1
    requires paths' == paths + seq(|added|, i requires 0 <= i < |added| => paths[head] + [added[i].id])
    ensures Witnessed(parentToChildren, starts, queue + added, paths')
  {
    var q := queue + added;
    forall j | 0 <= j < |q| ensures PathTo(parentToChildren, starts, paths'[j], q[j].id, q[j].gen) {
      if j < |queue| {
        assert paths'[j] == paths[j] && q[j] == queue[j];
      } else {
        var a := added[j - |queue|];
        assert a.id == IdsOf(added)[j - |queue|];
        PathSnoc(parentToChildren, starts, paths[head], a.id);
        assert paths'[j] == paths[head] + [a.id] && q[j] == a;
      }
    }
  }

  /** The first `k` children are enqueued at most one generation below the entry at `head`. */
  ghost predicate Handled(queue: seq<Visit>, pos: map<Id, nat>, head: nat, children: seq<Id>, k: nat)
    requires head < |queue| && k <= |children|
  {
    forall i :: 0 <= i < k ==>
      children[i] in pos && pos[children[i]] < |queue| && queue[pos[children[i]]].gen <= queue[head].gen + 1
  }

  /** Visiting a new id of the universe leaves one fewer id to visit. */
  lemma VisitShrinks(universe: set<Id>, visited: set<Id>, c: Id)
    requires c in universe && c !in visited
    ensures |universe - (visited + {c})| + 1 == |universe - visited|
  {
    assert universe - (visited + {c}) == (universe - visited) - {c};
  }

  /** Once every child of the entry at `head` is enqueued within one
      generation of it, the first `head + 1` entries are closed. */
  lemma CloseHead(parentToChildren: Adjacency, queue: seq<Visit>, pos: map<Id, nat>, head: nat)
    requires head < |queue|
    requires Closed(parentToChildren, queue, pos, head)
    requires Handled(queue, pos, head, Lookup(parentToChildren, queue[head].id), |Lookup(parentToChildren, queue[head].id)|)
    ensures Closed(parentToChildren, queue, pos, head + 1)
  {
    var children := Lookup(parentToChildren, queue[head].id);
    forall i, c | 0 <= i < head + 1 && c in Lookup(parentToChildren, queue[i].id)
      ensures c in pos && pos[c] < |queue| && queue[pos[c]].gen <= queue[i].gen + 1
    {
      if i == head {
        var k :| 0 <= k < |children| && children[k] == c;
      }
    }
  }

  /** In a layered queue whose entries from `head - 1` on are within one
      generation of the entry at `head - 1`, the frontier holds at `head`. */
  lemma LayeredFrontier(queue: seq<Visit>, head: nat)
    requires 0 < head <= |queue| && Layered(queue)
    requires Bounded(queue, head - 1, queue[head - 1].gen + 1)
    ensures Frontier(queue, head)
  {
  }

  /** Once every child of the entry at `head` has been offered, the first
      `head + 1` entries are closed. */
  lemma HeadClosed(parentToChildren: Adjacency, starts: seq<Id>, queue: seq<Visit>, pos: map<Id, nat>, visited: set<Id>,
                   queue': seq<Visit>, paths': seq<seq<Id>>, pos': map<Id, nat>, visited': set<Id>,
                   universe: set<Id>, head: nat)
    requires head < |queue| && Indexed(queue, pos) && pos.Keys == visited && Layered(queue) && Frontier(queue, head)
    requires SearchState(parentToChildren, starts, queue', paths', pos', visited', universe, head)
    requires queue' == queue + NewVisits(Lookup(parentToChildren, queue[head].id), visited, queue[head].gen + 1)
    ensures SearchState(parentToChildren, starts, queue', paths', pos', visited', universe, head + 1)
  {
    var children := Lookup(parentToChildren, queue[head].id);
    assert queue'[head] == queue[head];
    ChildrenHandled(queue, pos, visited, head, children, queue', pos');
    CloseHead(parentToChildren, queue', pos', head);
  }

  /** Once every child of the entry at `head` has been offered, the entries
      after it are within one generation of the next one. */
  lemma HeadFrontier(queue: seq<Visit>, queue': seq<Visit>, head: nat)
    requires head < |queue| <= |queue'| && queue'[head] == queue[head] && Layered(queue')
    requires Bounded(queue', head, queue[head].gen + 1)
    ensures Frontier(queue', head + 1)
  {
    LayeredFrontier(queue', head + 1);
  }

  /** Once the unseen children of the entry at `head` are appended, every
      child is enqueued at most one generation below that entry: an old one
      lies within the frontier, a new one is exactly one generation below. */
  lemma ChildrenHandled(queue: seq<Visit>, pos: map<Id, nat>, visited: set<Id>, head: nat, children: seq<Id>,
                        queue': seq<Visit>, pos': map<Id, nat>)
    requires head < |queue| && Indexed(queue, pos) && pos.Keys == visited && Layered(queue) && Frontier(queue, head)
    requires Indexed(queue', pos') && queue' == queue + NewVisits(children, visited, queue[head].gen + 1)
    ensures Handled(queue', pos', head, children, |children|)
  {
    var added := NewVisits(children, visited, queue[head].gen + 1);
    NewVisitsMeaning(children, visited, queue[head].gen + 1);
    assert queue'[head] == queue[head];
    forall i | 0 <= i < |children|
      ensures children[i] in pos' && pos'[children[i]] < |queue'| && queue'[pos'[children[i]]].gen <= queue'[head].gen + 1
    {
      var c := children[i];
      if c in visited {
        var j := pos[c];
        assert queue'[j] == queue[j];
        if j < head {
          LayeredMonotone(queue, j, head);
        }
      } else {
        var k :| 0 <= k < |added| && IdsOf(added)[k] == c;
        assert queue'[|queue| + k] == added[k];
      }
    }
  }

  /** Appending the unseen children leaves as many fewer ids to visit as
      entries were appended. */
  lemma AppendedMeasure(universe: set<Id>, queue: seq<Visit>, visited: set<Id>, pos: map<Id, nat>,
                        children: seq<Id>, gen: nat, queue': seq<Visit>, visited': set<Id>, pos': map<Id, nat>)
    requires forall c :: c in children ==> c in universe
    requires Indexed(queue, pos) && pos.Keys == visited
    requires Indexed(queue', pos') && pos'.Keys == visited'
    requires queue' == queue + NewVisits(children, visited, gen)
    ensures |universe - visited'| + |queue'| == |universe - visited| + |queue|
  {
    var added := NewVisits(children, visited, gen);
    IndexedIdSet(queue, pos);
    IndexedIdSet(queue', pos');
    IdSetAppend(queue, added);
    NewVisitsShrink(children, visited, gen, universe);
  }

  /** When the queue is drained, each entry's generation is its distance and
      every id a path reaches was enqueued. */
  lemma DrainedSearch(parentToChildren: Adjacency, starts: seq<Id>, queue: seq<Visit>, paths: seq<seq<Id>>,
                      pos: map<Id, nat>, visited: set<Id>, universe: set<Id>, head: nat)
    requires SearchState(parentToChildren, starts, queue, paths, pos, visited, universe, head) && head == |queue|
    ensures forall i :: 0 <= i < |queue| ==> IsDistance(parentToChildren, starts, queue[i].id, queue[i].gen)
    ensures forall path :: IsPath(parentToChildren, starts, path) ==> path[|path| - 1] in IdsOf(queue)
    ensures Distinct(IdsOf(queue))
    ensures forall i, j :: 0 <= i <= j < |queue| ==> queue[i].gen <= queue[j].gen
  {
    forall i, j | 0 <= i < j < |queue| ensures IdsOf(queue)[i] != IdsOf(queue)[j] {
      assert pos[queue[i].id] == i && pos[queue[j].id] == j;
    }
    forall i, j | 0 <= i <= j < |queue| ensures queue[i].gen <= queue[j].gen {
      LayeredMonotone(queue, i, j);
    }
    forall i | 0 <= i < |queue|
      ensures IsDistance(parentToChildren, starts, queue[i].id, queue[i].gen)
    {
      assert PathTo(parentToChildren, starts, paths[i], queue[i].id, queue[i].gen);
      forall path | IsPath(parentToChildren, starts, path) && path[|path| - 1] == queue[i].id
        ensures queue[i].gen < |path|
      {
        ReachedWithin(parentToChildren, starts, queue, pos, path);
      }
    }
    forall path | IsPath(parentToChildren, starts, path)
      ensures path[|path| - 1] in IdsOf(queue)
    {
      ReachedWithin(parentToChildren, starts, queue, pos, path);
      assert IdsOf(queue)[pos[path[|path| - 1]]] == path[|path| - 1];
    }
  }

  /** The breadth-first search: every id is enqueued at most once, each
      enqueued id's generation is its distance from the start ids, and every
      id a path reaches is enqueued. The returned entries, in order, are
      what the search stores in the generation map. */
  method Bfs(starts: seq<Id>, parentToChildren: Adjacency) returns (order: seq<Visit>)
    ensures Distinct(IdsOf(order))
    ensures forall i :: 0 <= i < |order| ==> IsDistance(parentToChildren, starts, order[i].id, order[i].gen)
    ensures forall path :: IsPath(parentToChildren, starts, path) ==> path[|path| - 1] in IdsOf(order)
    ensures forall i, j :: 0 <= i <= j < |order| ==> order[i].gen <= order[j].gen
    ensures order == BfsOrder(starts, parentToChildren)
  {
    ghost var universe := Universe(starts, parentToChildren);
    var queue, visited := SeedQueue(starts);
    ghost var paths, pos := SeededState(parentToChildren, starts, universe, queue);
    SearchSeeded(starts, parentToChildren, queue);
    order := Drain(parentToChildren, starts, queue, visited, paths, pos, universe, BfsOrder(starts, parentToChildren));
  }

  /** Dequeues entries until the queue is drained, enqueueing the unvisited
      children of each; what the search yields from the seeded queue is what
      ends up in the queue. */
  method Drain(parentToChildren: Adjacency, starts: seq<Id>, queue: seq<Visit>, visited: set<Id>,
               ghost paths: seq<seq<Id>>, ghost pos: map<Id, nat>, ghost universe: set<Id>, ghost target: seq<Visit>)
    returns (order: seq<Visit>)
    requires ClosedUnder(parentToChildren, universe)
    requires SearchState(parentToChildren, starts, queue, paths, pos, visited, universe, 0)
    requires Frontier(queue, 0)
    requires SearchYields(parentToChildren, universe, queue, 0, target)
    ensures order == target
    ensures Distinct(IdsOf(order))
    ensures forall i :: 0 <= i < |order| ==> IsDistance(parentToChildren, starts, order[i].id, order[i].gen)
    ensures forall path :: IsPath(parentToChildren, starts, path) ==> path[|path| - 1] in IdsOf(order)
    ensures forall i, j :: 0 <= i <= j < |order| ==> order[i].gen <= order[j].gen
  {
    var queue, visited, paths, pos, head := queue, visited, paths, pos, 0;
    while head < |queue|
      invariant SearchState(parentToChildren, starts, queue, paths, pos, visited, universe, head)
      invariant Frontier(queue, head)
      invariant SearchYields(parentToChildren, universe, queue, head, target)
      decreases |universe - visited| + |queue| - head
    {
      ghost var (q0, w0, ps0, p0) := (queue, visited, paths, pos);
      queue, visited := EnqueueChildren(parentToChildren, queue, visited, head);
      paths, pos := ExpandKeepsState(parentToChildren, starts, q0, ps0, p0, w0, universe, head, queue, visited);
      SearchStep(parentToChildren, universe, q0, p0, w0, head, queue, target);
      head := head + 1;
    }
    DrainedSearch(parentToChildren, starts, queue, paths, pos, visited, universe, head);
    SearchDrained(parentToChildren, universe, queue, target);
    order := queue;
  }

  /** How a generation-map entry got its generation: by the search, as its
      distance from the start ids, or by the fill, as generation 0 for a
      member no path reaches. */
  ghost predicate Placed(parentToChildren: Adjacency, starts: seq<Id>, members: seq<Member>, v: Visit)
  {
    || IsDistance(parentToChildren, starts, v.id, v.gen)
    || (v.gen == 0 && v.id in MemberIds(members) && Unreachable(parentToChildren, starts, v.id))
  }

  /** Gives generation 0 to every member the search did not reach, appending
      the new entries after the search's in member order, each id once. */
  method FillUnreached(order: seq<Visit>, members: seq<Member>) returns (genMap: seq<Visit>)
    requires Distinct(IdsOf(order))
    ensures Distinct(IdsOf(genMap))
    ensures |order| <= |genMap| && genMap[..|order|] == order
    ensures forall j :: |order| <= j < |genMap| ==>
              genMap[j].gen == 0 && genMap[j].id !in IdsOf(order) && genMap[j].id in MemberIds(members)
    ensures forall m :: m in members ==> m.id in IdsOf(genMap)
    ensures genMap == order + NewVisits(MemberIds(members), IdSet(order), 0)
  {
    genMap := order;
    var ids := MemberIds(members);
    var i := 0;
    while i < |members|
      invariant 0 <= i <= |members|
      invariant genMap == order + NewVisits(ids[..i], IdSet(order), 0)
    {
      var m := members[i];
      ghost var (added, prev) := (NewVisits(ids[..i], IdSet(order), 0), genMap);
      IdSetAppend(order, added);
      assert m.id == ids[i];
      if m.id !in IdsOf(genMap) {
        genMap := genMap + [Visit(m.id, 0)];
      }
      NewVisitsStep(ids, i, IdSet(order), 0, added, order, IdSet(prev), prev, genMap);
      i := i + 1;
    }
    NewVisitsAll(ids, IdSet(order), 0);
    FilledEntries(order, members, genMap);
  }

  /** The search's entries followed by the unreached member ids: no id
      twice, the search's entries first, then members at generation 0 that
      the search did not reach, and every member somewhere. */
  lemma FilledEntries(order: seq<Visit>, members: seq<Member>, genMap: seq<Visit>)
    requires Distinct(IdsOf(order))
    requires genMap == order + NewVisits(MemberIds(members), IdSet(order), 0)
    ensures Distinct(IdsOf(genMap))
    ensures |order| <= |genMap| && genMap[..|order|] == order
    ensures forall j :: |order| <= j < |genMap| ==>
              genMap[j].gen == 0 && genMap[j].id !in IdsOf(order) && genMap[j].id in MemberIds(members)
    ensures forall m :: m in members ==> m.id in IdsOf(genMap)
  {
    var added := NewVisits(MemberIds(members), IdSet(order), 0);
    NewVisitsMeaning(MemberIds(members), IdSet(order), 0);
    assert IdsOf(genMap) == IdsOf(order) + IdsOf(added);
    DistinctConcat(IdsOf(order), IdsOf(added));
    forall j | |order| <= j < |genMap|
      ensures genMap[j].gen == 0 && genMap[j].id !in IdsOf(order) && genMap[j].id in MemberIds(members)
    {
      assert genMap[j] == added[j - |order|];
      assert IdsOf(added)[j - |order|] == genMap[j].id;
    }
    forall m | m in members ensures m.id in IdsOf(genMap) {
      var k :| 0 <= k < |members| && members[k] == m;
      assert MemberIds(members)[k] == m.id;
    }
  }

  /** The search's entries followed by unreached members at generation 0
      are all placed. */
  lemma SearchedPlaced(parentToChildren: Adjacency, starts: seq<Id>, members: seq<Member>,
                       order: seq<Visit>, genMap: seq<Visit>)
    requires forall i :: 0 <= i < |order| ==> IsDistance(parentToChildren, starts, order[i].id, order[i].gen)
    requires forall path :: IsPath(parentToChildren, starts, path) ==> path[|path| - 1] in IdsOf(order)
    requires |order| <= |genMap| && genMap[..|order|] == order
    requires forall j :: |order| <= j < |genMap| ==>
      genMap[j].gen == 0 && genMap[j].id !in IdsOf(order) && genMap[j].id in MemberIds(members)
    ensures forall j :: 0 <= j < |genMap| ==> Placed(parentToChildren, starts, members, genMap[j])
  {
    forall j | 0 <= j < |genMap| ensures Placed(parentToChildren, starts, members, genMap[j]) {
      if j < |order| {
        assert genMap[j] == genMap[..|order|][j];
      } else {
        forall path | IsPath(parentToChildren, starts, path) ensures path[|path| - 1] != genMap[j].id {
        }
      }
    }
  }

  /** Every id a path reaches keeps its entry once the search's entries
      lead the generation map. */
  lemma SearchedCovered(parentToChildren: Adjacency, starts: seq<Id>, order: seq<Visit>, genMap: seq<Visit>)
    requires forall path :: IsPath(parentToChildren, starts, path) ==> path[|path| - 1] in IdsOf(order)
    requires |order| <= |genMap| && genMap[..|order|] == order
    ensures forall path :: IsPath(parentToChildren, starts, path) ==> path[|path| - 1] in IdsOf(genMap)
  {
    forall path | IsPath(parentToChildren, starts, path) ensures path[|path| - 1] in IdsOf(genMap) {
      var x := path[|path| - 1];
      var k :| 0 <= k < |order| && IdsOf(order)[k] == x;
      assert genMap[k] == genMap[..|order|][k];
      assert IdsOf(genMap)[k] == x;
    }
  }

  /** The generation map: the search's entries in dequeue order, then the
      unreached members at generation 0. Every member gets exactly one entry,
      and every entry's generation is its distance from the start ids, or 0
      for a member no path reaches. */
  method Generations(members: seq<Member>, starts: seq<Id>, parentToChildren: Adjacency)
    returns (genMap: seq<Visit>)
    ensures Distinct(IdsOf(genMap))
    ensures forall m :: m in members ==> m.id in IdsOf(genMap)
    ensures forall j :: 0 <= j < |genMap| ==> Placed(parentToChildren, starts, members, genMap[j])
    ensures forall path :: IsPath(parentToChildren, starts, path) ==> path[|path| - 1] in IdsOf(genMap)
    ensures genMap == GenerationMap(members, starts, parentToChildren)
  {
    var order := Bfs(starts, parentToChildren);
    genMap := FillUnreached(order, members);
    SearchedPlaced(parentToChildren, starts, members, order, genMap);
    SearchedCovered(parentToChildren, starts, order, genMap);
  }
}

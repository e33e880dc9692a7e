/**
 Searches that go by the separators alone, and what they find once a separator stands behind a neighbour of the node
 it was split off from: the keys of a gap are looked for in the wrong subtree, all others are found as before.
 */
module BTreeStrays {
  import opened Base
  import opened BTreeLevels
  import opened BTreeGrowth
  import opened BTreeOrder
  import opened BTreeSeparators
  import opened SortedEntries

  /** Where a search for key ends h levels below a node. */
  function Descend(nodes: Nodes, id: PageId, key: Key, h: nat): PageId
    decreases h
  {
    if h == 0 || !IsInternal(nodes, id) then id
    else Descend(nodes, nodes[id].children[ChildFor(nodes[id].keys, key)], key, h - 1)
  }

  /** The search meets sorted internal nodes on its way and ends in a sorted leaf. */
  predicate Walkable(nodes: Nodes, id: PageId, key: Key, h: nat)
    decreases h
  {
    && id in nodes
    && if h == 0 then nodes[id].Leaf? && Sorted(nodes[id].entries)
       else
         && IsInternal(nodes, id) && NonDecreasing(nodes[id].keys)
         && Walkable(nodes, nodes[id].children[ChildFor(nodes[id].keys, key)], key, h - 1)
  }

  /** One step, on the node that this child belongs to. */
  lemma {:induction false} WalkStep(nodes: Nodes, id: PageId, key: Key, h: nat, child: PageId)
    requires IsInternal(nodes, id) && NonDecreasing(nodes[id].keys) && h > 0
    requires child == nodes[id].children[ChildFor(nodes[id].keys, key)]
    ensures Walkable(nodes, id, key, h) <==> Walkable(nodes, child, key, h - 1)
    ensures Descend(nodes, id, key, h) == Descend(nodes, child, key, h - 1)
  {
  }

  lemma {:induction false} WalkEnd(nodes: Nodes, leaves: Level, i: nat, key: Key)
    requires i < |leaves| && LeafOK(nodes, leaves, i) && Sorted(LeafEntries(nodes, leaves[i].id))
    ensures Walkable(nodes, leaves[i].id, key, 0) && Descend(nodes, leaves[i].id, key, 0) == leaves[i].id
  {
  }

  // ---------------------------------------------------------------- along the bounds

  lemma {:induction false} StepDown(nodes: Nodes, lower: Level, upper: Level, j: nat, key: Key) returns (i: nat)
    requires Link(nodes, lower, upper) && Los(lower, 0) && Covers(upper, j, key)
    ensures IsInternal(nodes, upper[j].id) && NonDecreasing(nodes[upper[j].id].keys) && Covers(lower, i, key)
    ensures lower[i].id == nodes[upper[j].id].children[ChildFor(nodes[upper[j].id].keys, key)]
  {
    hide Flatten, ParentsOK, Run, Los;
    assert upper[j] in upper;
    var n := nodes[upper[j].id];
    var off := KidsRun(nodes, lower, upper, j, n.keys, n.children);
    RunSorted(lower, upper, j, off, n.keys, n.children);
    ChildForFound(n.keys, key);
    i := DescendStep(nodes, lower, upper, j, key, ChildFor(n.keys, key));
  }

  /** A search that starts in the node over key ends in the leaf over key. */
  lemma {:induction false} WalkFrom(nodes: Nodes, levels: seq<Level>, m: nat, j: nat, key: Key)
    requires m < |levels| && Covers(levels[m], j, key) && LinksExcept(nodes, levels, -1)
    requires LeavesOK(nodes, levels[0]) && WeaklyOrdered(nodes, levels[0])
    ensures Walkable(nodes, levels[m][j].id, key, m)
    ensures levels[0] != [] && Descend(nodes, levels[m][j].id, key, m) == levels[0][CoverOf(levels[0], key)].id
  {
    hide Link, Walkable, Descend;
    if m == 0 {
      CoverOfIs(levels[0], j, key);
      LeafSorted(nodes, levels[0], j);
      WalkEnd(nodes, levels[0], j, key);
    } else {
      LosEverywhere(nodes, levels, -1, 0, m - 1);
      assert Link(nodes, levels[m - 1], levels[m - 1 + 1]);
      var i := StepDown(nodes, levels[m - 1], levels[m], j, key);
      WalkFrom(nodes, levels, m - 1, i, key);
      WalkStep(nodes, levels[m][j].id, key, m, levels[m - 1][i].id);
    }
  }

  /** A search for a key past the node's own bounds ends in its last leaf, and finds nothing above the bound. */
  lemma {:induction false} WalkLast(nodes: Nodes, levels: seq<Level>, m: nat, j: nat, lo: Key, key: Key)
    requires m < |levels| && j + 1 < |levels[m]| && levels[m][j + 1].lo <= lo <= key && LinksExcept(nodes, levels, -1)
    requires LeavesOK(nodes, levels[0]) && WeaklyOrdered(nodes, levels[0])
    ensures Walkable(nodes, levels[m][j].id, key, m)
    ensures levels[0] != [] && AllBelow(LeafEntries(nodes, Descend(nodes, levels[m][j].id, key, m)), lo + 1)
  {
    hide Link, Walkable, Descend;
    if m == 0 {
      LeafSorted(nodes, levels[0], j);
      WalkEnd(nodes, levels[0], j, key);
      assert LeafOrdered(nodes, levels[0], j, 1);
    } else {
      LosEverywhere(nodes, levels, -1, 0, m - 1);
      assert Link(nodes, levels[m - 1], levels[m - 1 + 1]);
      var i := LastChild(nodes, levels[m - 1], levels[m], j, lo, key);
      WalkLast(nodes, levels, m - 1, i, lo, key);
      WalkStep(nodes, levels[m][j].id, key, m, levels[m - 1][i].id);
    }
  }

  lemma {:induction false} LastChild(nodes: Nodes, lower: Level, upper: Level, j: nat, lo: Key, key: Key)
    returns (i: nat)
    requires Link(nodes, lower, upper) && Los(lower, 0) && j + 1 < |upper| && upper[j + 1].lo <= lo <= key
    ensures IsInternal(nodes, upper[j].id) && NonDecreasing(nodes[upper[j].id].keys)
    ensures i + 1 < |lower| && lower[i + 1].lo <= lo
    ensures lower[i].id == nodes[upper[j].id].children[ChildFor(nodes[upper[j].id].keys, key)]
  {
    hide Flatten, ParentsOK;
    assert upper[j] in upper;
    var n := nodes[upper[j].id];
    var off := KidsRun(nodes, lower, upper, j, n.keys, n.children);
    RunSorted(lower, upper, j, off, n.keys, n.children);
    i := off + |n.keys|;
    assert lower[off + |n.keys|] == Expand(upper[j].lo, n.keys, n.children)[|n.keys|];
    assert n.keys != [] ==> n.keys[|n.keys| - 1] == lower[i].lo <= lower[i + 1].lo;
  }

  // ---------------------------------------------------------------- past the misplaced separator

  /** Where a search ends: for a key of the gap in a leaf without any key above its start, for others over the key. */
  ghost predicate Strays(nodes: Nodes, id: PageId, h: nat, leaves: Level, gap: Gap, key: Key) {
    && leaves != [] && Walkable(nodes, id, key, h)
    && var leaf := Descend(nodes, id, key, h);
    && (gap.lo <= key < gap.hi ==> AllBelow(LeafEntries(nodes, leaf), gap.lo + 1))
    && (key < gap.lo || gap.hi <= key ==> leaf == leaves[CoverOf(leaves, key)].id)
  }

  lemma {:induction false} StrayStep(nodes: Nodes, id: PageId, h: nat, leaves: Level, gap: Gap, key: Key,
                                     child: PageId)
    requires IsInternal(nodes, id) && NonDecreasing(nodes[id].keys) && h > 0
    requires child == nodes[id].children[ChildFor(nodes[id].keys, key)]
    requires Strays(nodes, child, h - 1, leaves, gap, key)
    ensures Strays(nodes, id, h, leaves, gap, key)
  {
    hide Walkable, Descend;
    WalkStep(nodes, id, key, h, child);
  }

  /** The node g, which is child i's parent, got x at pos: behind c, the place of the node x was split off from. */
  ghost predicate PutBehind(nodes: Nodes, nodes': Nodes, flat: Level, upper: Level, i: nat, j: nat, c: nat, pos: nat,
                            x: Ref)
  {
    && Link(nodes, flat, upper) && At(nodes, upper, i, j, c) && IsInternal(nodes, upper[j].id)
    && UniqueIds(upper) && Los(upper, 0) && Los(flat, 0)
    && i < |flat| && flat[i].lo <= x.lo && (i + 1 < |flat| ==> x.lo <= flat[i + 1].lo)
    && var g := upper[j].id;
    && c < pos && Found(nodes[g].keys, x.lo, pos)
    && nodes' == nodes[g := WithChild(nodes[g], pos, x.lo, x.id)]
  }

  lemma InsertKeepsSorted(keys: seq<Key>, pos: nat, lo: Key)
    requires NonDecreasing(keys) && Found(keys, lo, pos)
    ensures NonDecreasing(InsertAt(keys, pos, lo))
  {
  }

  /** Every other search takes the child it took before. */
  lemma StaysBelow(keys: seq<Key>, children: seq<PageId>, lo: Key, pos: nat, q: PageId, key: Key, was: nat)
    requires |children| == |keys| + 1 && NonDecreasing(keys) && Found(keys, lo, pos) && Found(keys, key, was)
    requires !(lo <= key && was == pos)
    ensures var now := if key < lo then was else was + 1;
      Found(InsertAt(keys, pos, lo), key, now) && InsertAt(children, pos + 1, q)[now] == children[was]
  {
    var grown := InsertAt(keys, pos, lo);
    assert pos < was ==> keys[pos] <= key;
    assert was < pos ==> key < keys[was];
    assert forall a :: 0 <= a < |grown| ==>
      grown[a] == if a < pos then keys[a] else if a == pos then lo else keys[a - 1];
  }

  /** The child a search takes in the grown node. */
  lemma {:induction false} GrownChild(nodes: Nodes, nodes': Nodes, flat: Level, upper: Level, i: nat, j: nat, c: nat,
                                      pos: nat, x: Ref, key: Key)
    requires PutBehind(nodes, nodes', flat, upper, i, j, c, pos, x)
    ensures var g := upper[j].id;
      && NonDecreasing(nodes[g].keys)
      && IsInternal(nodes', g) && NonDecreasing(nodes'[g].keys)
      && nodes'[g].children[ChildFor(nodes'[g].keys, key)] ==
         if x.lo <= key && ChildFor(nodes[g].keys, key) == pos then x.id
         else nodes[g].children[ChildFor(nodes[g].keys, key)]
  {
    hide Link, Los, UniqueIds, Found, NonDecreasing, Run;
    var keys, children := nodes[upper[j].id].keys, nodes[upper[j].id].children;
    var off := RunAt(nodes, flat, upper, i, j, c);
    RunSorted(flat, upper, j, off, keys, children);
    PosWithin(keys, x.lo, pos);
    InsertKeepsSorted(keys, pos, x.lo);
    ChildForFound(keys, key);
    var grown := InsertAt(keys, pos, x.lo);
    ChildForFound(grown, key);
    var was := ChildFor(keys, key);
    if x.lo <= key && was == pos {
      TakesOver(keys, children, x.lo, pos, x.id, key, ChildFor(grown, key));
    } else {
      StaysBelow(keys, children, x.lo, pos, x.id, key, was);
      FoundIs(grown, key, if key < x.lo then was else was + 1);
    }
  }

  lemma {:induction false} PosWithin(keys: seq<Key>, lo: Key, pos: nat)
    requires Found(keys, lo, pos)
    ensures pos <= |keys| && ChildFor(keys, lo) == pos
  {
    FoundIs(keys, lo, pos);
  }

  /** The gap is where searches through the grown node end in the new child. */
  lemma {:induction false} GapIs(nodes: Nodes, nodes': Nodes, flat: Level, upper: Level, i: nat, j: nat, c: nat,
                                 pos: nat, x: Ref, a: nat, key: Key)
    requires PutBehind(nodes, nodes', flat, upper, i, j, c, pos, x) && Covers(upper, a, key)
    ensures var gap := GapIn(nodes[upper[j].id].keys, Upper(upper, j), x.lo);
      if a == j && x.lo <= key && ChildFor(nodes[upper[j].id].keys, key) == pos
      then x.lo == gap.lo <= key < gap.hi
      else !(gap.lo <= key < gap.hi)
  {
    hide Link, UniqueIds;
    var keys, children := nodes[upper[j].id].keys, nodes[upper[j].id].children;
    var off := RunAt(nodes, flat, upper, i, j, c);
    RunSorted(flat, upper, j, off, keys, children);
    PosWithin(keys, x.lo, pos);
    ChildForFound(keys, key);
    var kids := Expand(upper[j].lo, keys, children);
    assert flat[off + 0] == kids[0];
    assert flat[off + (c + 1)] == kids[c + 1];
    assert flat[off].lo <= flat[i].lo;
    if a != j && x.lo <= key < Upper(upper, j) {
      assert Covers(upper, j, key);
      CoverOfIs(upper, j, key);
      CoverOfIs(upper, a, key);
    }
    assert pos < |keys| ==> flat[off + (pos + 1)] == kids[pos + 1];
    assert pos < |keys| && j + 1 < |upper| ==> keys[pos] <= upper[j + 1].lo;
    if a == j && key < Upper(upper, j) && x.lo <= key && (pos < |keys| ==> key < keys[pos]) {
      FoundIs(keys, key, pos);
    }
  }

  /** Without the new node, a search takes the same way. */
  lemma FlatCovers(level: Level, i: nat, a: nat, key: Key) returns (b: nat)
    requires i + 2 < |level| && Los(level, 0) && Covers(RemoveAt(level, i + 1), a, key)
    requires level[i + 2].lo == level[i + 1].lo
    ensures Covers(level, b, key) && level[b] == RemoveAt(level, i + 1)[a]
  {
    b := if a <= i then a else a + 1;
  }

  /** The neighbour on the right has the same bound. */
  lemma {:induction false} NeighbourTied(nodes: Nodes, nodes': Nodes, flat: Level, upper: Level, i: nat, j: nat,
                                         c: nat, pos: nat, x: Ref)
    requires PutBehind(nodes, nodes', flat, upper, i, j, c, pos, x)
    ensures i + 1 < |flat| && flat[i + 1].lo == x.lo
    ensures j < |upper| && IsInternal(nodes, upper[j].id) && nodes[upper[j].id].children != []
  {
    hide Link, UniqueIds;
    var keys, children := nodes[upper[j].id].keys, nodes[upper[j].id].children;
    var off := RunAt(nodes, flat, upper, i, j, c);
    assert flat[off + (c + 1)] == Expand(upper[j].lo, keys, children)[c + 1];
  }

  /** A search that reached the level of the grown node. */
  lemma {:induction false} StrayAt(nodes: Nodes, nodes': Nodes, lower: seq<Level>, k: nat, upper: Level, i: nat,
                                   j: nat, c: nat, pos: nat, x: Ref, a: nat, key: Key)
    requires |lower| == k + 1 && i + 1 < |lower[k]| && x == lower[k][i + 1]
    requires PutBehind(nodes, nodes', RemoveAt(lower[k], i + 1), upper, i, j, c, pos, x)
    requires LinksExcept(nodes', lower, -1) && LeavesOK(nodes', lower[0]) && WeaklyOrdered(nodes', lower[0])
    requires Covers(upper, a, key)
    ensures Strays(nodes', upper[a].id, k + 1, lower[0], GapIn(nodes[upper[j].id].keys, Upper(upper, j), x.lo), key)
  {
    hide LinksExcept, LeavesOK, Los, Walkable, Descend, GapIn, Link, UniqueIds, At, Found;
    var flat := RemoveAt(lower[k], i + 1);
    NeighbourTied(nodes, nodes', flat, upper, i, j, c, pos, x);
    var g := upper[j].id;
    var gap := GapIn(nodes[g].keys, Upper(upper, j), x.lo);
    LosEverywhere(nodes', lower, -1, 0, k);
    GapIs(nodes, nodes', flat, upper, i, j, c, pos, x, a, key);
    GrownChild(nodes, nodes', flat, upper, i, j, c, pos, x, key);
    if a == j && x.lo <= key && ChildFor(nodes[g].keys, key) == pos {
      WalkLast(nodes', lower, k, i + 1, x.lo, key);
      StrayStep(nodes', g, k + 1, lower[0], gap, key, x.id);
    } else {
      var b := StepDown(nodes, flat, upper, a, key);
      if a != j {
        OtherNode(nodes, nodes', flat, upper, i, j, c, pos, x, a);
      }
      var b' := FlatCovers(lower[k], i, b, key);
      WalkFrom(nodes', lower, k, b', key);
      StrayStep(nodes', upper[a].id, k + 1, lower[0], gap, key, flat[b].id);
    }
  }

  lemma OtherNode(nodes: Nodes, nodes': Nodes, flat: Level, upper: Level, i: nat, j: nat, c: nat, pos: nat, x: Ref,
                  a: nat)
    requires PutBehind(nodes, nodes', flat, upper, i, j, c, pos, x) && a < |upper| && a != j
    requires IsInternal(nodes, upper[a].id)
    ensures IsInternal(nodes', upper[a].id) && nodes'[upper[a].id] == nodes[upper[a].id]
  {
  }

  /** A search from a level above it. */
  lemma {:induction false} StrayFrom(nodes: Nodes, nodes': Nodes, levels: seq<Level>, k: nat, i: nat, j: nat, c: nat,
                                     pos: nat, x: Ref, m: nat, a: nat, key: Key)
    requires k + 1 <= m < |levels| && i + 1 < |levels[k]| && x == levels[k][i + 1]
    requires PutBehind(nodes, nodes', RemoveAt(levels[k], i + 1), levels[k + 1], i, j, c, pos, x)
    requires LinksExcept(nodes', levels, k) && LeavesOK(nodes', levels[0]) && WeaklyOrdered(nodes', levels[0])
    requires (forall q :: k < q < |levels| ==> Los(levels[q], 0)) && Covers(levels[m], a, key)
    ensures var gap := GapIn(nodes[levels[k + 1][j].id].keys, Upper(levels[k + 1], j), x.lo);
      Strays(nodes', levels[m][a].id, m, levels[0], gap, key)
  {
    hide PutBehind, LeavesOK, Los, Link, Strays, GapIn;
    NeighbourTied(nodes, nodes', RemoveAt(levels[k], i + 1), levels[k + 1], i, j, c, pos, x);
    if m == k + 1 {
      assert levels[..k + 1][0] == levels[0] && levels[..k + 1][k] == levels[k];
      StrayAt(nodes, nodes', levels[..k + 1], k, levels[k + 1], i, j, c, pos, x, a, key);
    } else {
      assert Link(nodes', levels[m - 1], levels[m - 1 + 1]);
      var b := StepDown(nodes', levels[m - 1], levels[m], a, key);
      StrayFrom(nodes, nodes', levels, k, i, j, c, pos, x, m - 1, b, key);
      StrayStep(nodes', levels[m][a].id, m, levels[0],
                GapIn(nodes[levels[k + 1][j].id].keys, Upper(levels[k + 1], j), x.lo), key, levels[m - 1][b].id);
    }
  }

  /** All searches of a tree. */
  ghost predicate Strayed(nodes: Nodes, root: PageId, leaves: Level, h: nat, gap: Gap) {
    forall key: Key :: Strays(nodes, root, h, leaves, gap, key)
  }

  /**
   A parent with room takes a separator it already holds: from now on the searches for the keys of the gap end in the
   new child, which has none of them, and all others end where they ended before.
   */
  lemma {:induction false} TieStrays(nodes: Nodes, nodes': Nodes, root: PageId, levels: seq<Level>,
                                     rank: map<PageId, nat>, k: nat, up: nat, i: nat, j: nat, c: nat, pos: nat,
                                     x: Ref, goal: Key)
    requires Pending(nodes, root, levels, rank, k, i) && Fits(levels, k, i, goal) && up == k + 1 < |levels|
    requires x == levels[k][i + 1] && At(nodes, levels[up], i, j, c) && WeaklyOrdered(nodes, levels[0])
    requires Ties(nodes, levels[up], goal, x.lo)
    requires IsInternal(nodes, levels[up][j].id) && Found(nodes[levels[up][j].id].keys, x.lo, pos)
    requires var g := levels[up][j].id; nodes' == nodes[g := WithChild(nodes[g], pos, x.lo, x.id)]
    ensures Strayed(nodes', root, levels[0], |levels| - 1, GapOver(nodes, levels[up], goal, x.lo))
    ensures LeavesOK(nodes', levels[0]) && SameLeaves(nodes, nodes', levels[0])
  {
    hide MinFill, Los, Link, Strays, GapIn, WeaklyOrdered, Covers, PutBehind, Fits, Ties, Pending;
    hide LinksExcept, LeavesOK, Flatten, SameLeaves;
    TiedPutBehind(nodes, nodes', root, levels, rank, k, up, i, j, c, pos, x, goal);
    TiedElsewhere(nodes, nodes', root, levels, rank, k, up, i, j, c, pos, x);
    var gap := GapOver(nodes, levels[up], goal, x.lo);
    var h := |levels| - 1;
    forall key: Key ensures Strays(nodes', root, h, levels[0], gap, key) {
      TopCovers(levels, root, key);
      StrayFrom(nodes, nodes', levels, k, i, j, c, pos, x, h, 0, key);
    }
  }

  lemma {:induction false} TiedPutBehind(nodes: Nodes, nodes': Nodes, root: PageId, levels: seq<Level>,
                                         rank: map<PageId, nat>, k: nat, up: nat, i: nat, j: nat, c: nat, pos: nat,
                                         x: Ref, goal: Key)
    requires Pending(nodes, root, levels, rank, k, i) && Fits(levels, k, i, goal) && up == k + 1 < |levels|
    requires x == levels[k][i + 1] && At(nodes, levels[up], i, j, c) && Ties(nodes, levels[up], goal, x.lo)
    requires IsInternal(nodes, levels[up][j].id) && Found(nodes[levels[up][j].id].keys, x.lo, pos)
    requires var g := levels[up][j].id; nodes' == nodes[g := WithChild(nodes[g], pos, x.lo, x.id)]
    ensures PutBehind(nodes, nodes', RemoveAt(levels[k], i + 1), levels[up], i, j, c, pos, x)
    ensures forall q :: k < q < |levels| ==> Los(levels[q], 0)
    ensures CoverOf(levels[up], goal) == j && i + 1 < |levels[k]| && levels[|levels| - 1] == [Ref(0, root)]
  {
    hide MinFill, Los, Link, Covers, Run, Found, LinksExcept, LeavesOK, Flatten, Ties;
    var flat, upper, g := RemoveAt(levels[k], i + 1), levels[up], levels[up][j].id;
    FlatBounds(levels, k, i, goal);
    var off := RunAt(nodes, flat, upper, i, j, c);
    ParentCovers(flat, upper, j, off, nodes[g].keys, nodes[g].children, i, c, goal);
    CoverOfIs(upper, j, goal);
    TiedBehind(nodes, flat, upper, i, j, off, c, pos, x, goal);
  }

  lemma {:induction false} TiedElsewhere(nodes: Nodes, nodes': Nodes, root: PageId, levels: seq<Level>,
                                         rank: map<PageId, nat>, k: nat, up: nat, i: nat, j: nat, c: nat, pos: nat,
                                         x: Ref)
    requires Pending(nodes, root, levels, rank, k, i) && up == k + 1 < |levels| && x == levels[k][i + 1]
    requires At(nodes, levels[up], i, j, c) && IsInternal(nodes, levels[up][j].id)
    requires pos <= |nodes[levels[up][j].id].keys|
    requires var g := levels[up][j].id; nodes' == nodes[g := WithChild(nodes[g], pos, x.lo, x.id)]
    ensures LinksExcept(nodes', levels, k) && LeavesOK(nodes', levels[0]) && SameLeaves(nodes, nodes', levels[0])
    ensures WeaklyOrdered(nodes, levels[0]) ==> WeaklyOrdered(nodes', levels[0])
  {
    hide MinFill, Los, Link, Flatten, WeaklyOrdered, SameLeaves, LeavesOK;
    var upper, g := levels[up], levels[up][j].id;
    PendingStored(nodes, root, levels, rank, k, i);
    assert upper[j] in upper && rank[g] == up;
    LeavesElsewhere(nodes, nodes', levels, rank, g);
    LeavesKept(nodes, nodes', levels[0], g);
    forall m | 0 <= m < |levels| - 1 && m != k ensures Link(nodes', levels[m], levels[m + 1]) {
      ParentTakesOther(nodes, nodes', levels, rank, k, upper[j], m);
    }
  }

  lemma PendingStored(nodes: Nodes, root: PageId, levels: seq<Level>, rank: map<PageId, nat>, k: nat, i: nat)
    requires Pending(nodes, root, levels, rank, k, i)
    ensures forall m, r :: 0 <= m < |levels| && r in levels[m] ==> r.id in nodes
  {
    hide ParentsOK, Flatten, MinFill, Distinct;
    AllPresent(nodes, levels, k);
  }

  lemma TopCovers(levels: seq<Level>, root: PageId, key: Key)
    requires levels != [] && levels[|levels| - 1] == [Ref(0, root)]
    ensures Covers(levels[|levels| - 1], 0, key) && levels[|levels| - 1][0].id == root
  {
  }

  lemma {:induction false} LeavesKept(nodes: Nodes, nodes': Nodes, leaves: Level, g: PageId)
    requires IsInternal(nodes, g) && g in nodes' && nodes'[g].Internal? && nodes' == nodes[g := nodes'[g]]
    ensures SameLeaves(nodes, nodes', leaves)
    ensures WeaklyOrdered(nodes, leaves) ==> WeaklyOrdered(nodes', leaves)
  {
    OrderFrame(nodes, nodes', leaves);
  }

  /** A parent that holds the separator finds it right of the node it comes from. */
  lemma {:induction false} TiedBehind(nodes: Nodes, flat: Level, upper: Level, i: nat, j: nat, off: nat, c: nat,
                                      pos: nat, x: Ref, goal: Key)
    requires j < |upper| && CoverOf(upper, goal) == j && Ties(nodes, upper, goal, x.lo)
    requires IsInternal(nodes, upper[j].id) && Found(nodes[upper[j].id].keys, x.lo, pos)
    requires Run(flat, upper, j, off, nodes[upper[j].id].keys, nodes[upper[j].id].children)
    requires Los(flat, 0) && off + c == i < |flat| && flat[i].lo <= goal && c < |nodes[upper[j].id].children|
    ensures c < pos
  {
    var keys := nodes[upper[j].id].keys;
    var d :| 0 <= d < |keys| && keys[d] == x.lo;
    assert flat[off + (d + 1)] == Expand(upper[j].lo, keys, nodes[upper[j].id].children)[d + 1];
  }
}

/** The index: insertion with cascading splits, lazy deletion, point lookup and range scan. */
module BPlusTrees {
  import opened Base
  import opened BTreeLevels
  import opened BTreeGrowth
  import opened BTreeHeight
  import opened BTreeOrder
  import opened BTreeSeparators
  import opened BTreeStrays
  import opened SortedEntries
  import opened IndexNodes
  import opened IndexPool
  import opened Pins

  lemma SameLeavesTake(nodes: Nodes, nodes': Nodes, leaves: Level, p: PageId)
    requires IsInternal(nodes, p) && p in nodes' && nodes'[p].Internal? && nodes' == nodes[p := nodes'[p]]
    ensures SameLeaves(nodes, nodes', leaves)
  {
  }

  lemma SameLeavesHalved(nodes: Nodes, nodes': Nodes, leaves: Level, p: PageId, q: PageId, n: Node)
    requires Halved(nodes, nodes', p, q, n) && IsInternal(nodes, p)
    requires forall r :: r in leaves ==> r.id in nodes
    ensures SameLeaves(nodes, nodes', leaves)
  {
  }

  lemma SameLeavesRooted(nodes: Nodes, nodes': Nodes, leaves: Level, root: PageId, x: Ref, q: PageId)
    requires Rooted(nodes, nodes', root, x, q)
    requires forall r :: r in leaves ==> r.id in nodes
    ensures SameLeaves(nodes, nodes', leaves)
  {
  }

  /** The parent of a node that waits for a new sibling, and the node's position in it. */
  lemma FindParent(nodes: Nodes, root: PageId, levels: seq<Level>, rank: map<PageId, nat>, k: nat, up: nat, i: nat,
                   goal: Key)
    returns (j: nat, c: nat)
    requires Pending(nodes, root, levels, rank, k, i) && Fits(levels, k, i, goal) && up == k + 1 < |levels|
    ensures At(nodes, levels[up], i, j, c) && IsInternal(nodes, levels[up][j].id)
    ensures nodes[levels[k][i].id].parent == levels[up][j].id != INVALID_PAGE_ID
    ensures 1 <= |nodes[levels[up][j].id].keys| <= INTERNAL_MAX && c <= |nodes[levels[up][j].id].keys|
    ensures NonDecreasing(nodes[levels[up][j].id].keys)
  {
    hide Flatten;
    var lower, upper := RemoveAt(levels[k], i + 1), levels[up];
    assert lower[i] == levels[k][i];
    j, c := Locate(nodes, upper, i);
    var p := upper[j];
    assert p in upper;
    LeftParent(nodes, lower, upper, i, j, c);
    var off := |Flatten(nodes, upper[..j])|;
    KidsBefore(nodes, lower, upper, j, off, nodes[p.id].keys, nodes[p.id].children);
    SegmentKeysSorted(lower, off, p.lo, nodes[p.id].keys, nodes[p.id].children);
  }

  /** The binary search for the new separator ends right after the left node. */
  lemma FindPosition(nodes: Nodes, root: PageId, levels: seq<Level>, rank: map<PageId, nat>, k: nat, up: nat, i: nat,
                     j: nat, c: nat, pos: nat, goal: Key)
    requires Pending(nodes, root, levels, rank, k, i) && Fits(levels, k, i, goal) && Lands(nodes, levels, k, i)
    requires up == k + 1 < |levels|
    requires At(nodes, levels[up], i, j, c) && IsInternal(nodes, levels[up][j].id)
    requires Found(nodes[levels[up][j].id].keys, levels[k][i + 1].lo, pos)
    ensures pos == c
  {
    hide Flatten;
    var lower, upper := RemoveAt(levels[k], i + 1), levels[up];
    var p := upper[j];
    var off := |Flatten(nodes, upper[..j])|;
    assert LandsIn(nodes, p.id, c, levels[k][i + 1].lo);
    KidsBefore(nodes, lower, upper, j, off, nodes[p.id].keys, nodes[p.id].children);
    ChildPosition(lower, off, p.lo, nodes[p.id].keys, nodes[p.id].children, c, levels[k][i + 1].lo, pos);
  }

  /** The children of a split node are all stored. */
  lemma ChildrenStored(nodes: Nodes, root: PageId, levels: seq<Level>, rank: map<PageId, nat>, k: nat, up: nat,
                       i: nat, j: nat, c: nat, p: Ref, l: Ref, n: Node)
    requires Pending(nodes, root, levels, rank, k, i) && up == k + 1 < |levels| && At(nodes, levels[up], i, j, c)
    requires p == levels[up][j] && l == levels[k][i + 1] && n == WithChild(nodes[p.id], c, l.lo, l.id)
    ensures forall x :: x in n.children ==> x in nodes && x != p.id
  {
    hide Flatten;
    GrownChildren(nodes, levels[k], levels[up], i, j, c, p, l, n);
    assert p in levels[up] && rank[p.id] == up;
    forall x | x in n.children ensures x != p.id {
      var r :| r in levels[k] && r.id == x;
      assert rank[x] == k;
    }
  }

  class BPlusTree {
    const pool: IndexPages
    var root: PageId
    ghost var levels: seq<Level>
    ghost var rank: map<PageId, nat>

    /** The tree's shape, whatever the keys. */
    ghost predicate Shaped()
      reads this, pool
    {
      && pool.Valid()
      && root != INVALID_PAGE_ID && levels != []
      && Structure(pool.nodes, root, levels, rank)
    }

    /** Well-formed up to equal keys on both sides of a separator. */
    ghost predicate Valid()
      reads this, pool
    {
      if root == INVALID_PAGE_ID then pool.Valid() && levels == []
      else Shaped() && levels[0] != [] && levels[0][0].lo == 0 && WeaklyOrdered(pool.nodes, levels[0])
    }

    ghost predicate WellFormed()
      reads this, pool
    {
      Valid() && (root != INVALID_PAGE_ID ==> Ordered(pool.nodes, levels[0]))
    }

    /** The entries in leaf-chain order. */
    ghost function Contents(): seq<Entry>
      requires Valid()
      reads this, pool
    {
      if root == INVALID_PAGE_ID then [] else Entries(pool.nodes, levels[0])
    }

    /** The entries a lookup of key reads: those in the one leaf its search ends in. */
    ghost function Reached(key: Key): seq<Entry>
      requires Valid()
      reads this, pool
    {
      if root == INVALID_PAGE_ID then [] else Seen(pool.nodes, levels[0], key)
    }

    /** A lookup of key finds every entry stored under it. */
    ghost predicate FindsAll(key: Key)
      requires Valid()
      reads this, pool
    {
      Reached(key) == Range(Contents(), key, key)
    }

    ghost predicate LookupsComplete()
      requires Valid()
      reads this, pool
    {
      forall key: Key :: FindsAll(key)
    }

    /** All lookups are complete exactly when no entry stands in front of an equal separator. */
    lemma CompleteWithoutStraddler()
      requires Valid()
      ensures LookupsComplete() <==> root == INVALID_PAGE_ID || NoStraddle(pool.nodes, levels[0])
      ensures WellFormed() ==> LookupsComplete()
    {
      hide Stored, Allocated, Structure, Ordered, WeaklyOrdered, NoStraddle, Entries, Range, Seen;
      if root == INVALID_PAGE_ID {
        forall key: Key ensures FindsAll(key) {
          RangeNone([], key, key);
        }
      } else {
        LookupsCompleteIff(pool.nodes, levels[0]);
        forall key: Key ensures FindsAll(key) <==> LookupComplete(pool.nodes, levels[0], key) {
        }
        if Ordered(pool.nodes, levels[0]) {
          OrderedIsWeak(pool.nodes, levels[0]);
        }
      }
    }

    /** True from the start and kept by insertion: no leaf but a lone one is below the size a split leaves. */
    ghost predicate Filled()
      requires Valid()
      reads this, pool
    {
      root != INVALID_PAGE_ID ==> HalfFull(pool.nodes, levels[0])
    }

    /** A tree of height h >= 2 has at least 2 * 254^(h-2) leaves, and 406 * 254^(h-2) entries if it is filled. */
    lemma HeightBound()
      requires Valid() && |levels| >= 2
      ensures |levels[0]| >= 2 * Power(FANOUT_MIN, |levels| - 2)
      ensures Filled() ==> |Contents()| >= 406 * Power(FANOUT_MIN, |levels| - 2)
    {
      hide Structure, Entries, WeaklyOrdered, Stored, Allocated;
      LevelAtLeast(pool.nodes, root, levels, rank, 0);
      if Filled() {
        EntriesAtLeast(pool.nodes, levels[0]);
      }
    }

    constructor (pool: IndexPages)
      requires pool.Valid()
      ensures WellFormed() && this.pool == pool && root == INVALID_PAGE_ID && Contents() == [] && Filled()
    {
      this.pool := pool;
      root := INVALID_PAGE_ID;
      levels := [];
      rank := map[];
    }

    // -------------------------------------------------------------- descent

    /** The separators lead a search for key to a leaf. */
    ghost predicate Walks(key: Key)
      reads this, pool
    {
      && pool.Valid() && root != INVALID_PAGE_ID && levels != []
      && Walkable(pool.nodes, root, key, |levels| - 1)
    }

    ghost function Ends(key: Key): PageId
      requires levels != []
      reads this, pool
    {
      Descend(pool.nodes, root, key, |levels| - 1)
    }

    /** They do so in a valid tree, and the leaf is the one over key. */
    lemma SearchEnds(key: Key) returns (j: nat)
      requires Valid() && root != INVALID_PAGE_ID
      ensures Walks(key) && Covers(levels[0], j, key) && Ends(key) == levels[0][j].id
      ensures LeafOK(pool.nodes, levels[0], j)
    {
      hide Stored, Allocated, Link, LeafOrdered, FewAtBound, Distinct, MinFill, Walkable, Descend, Los;
      TopCovers(levels, root, key);
      WalkFrom(pool.nodes, levels, |levels| - 1, 0, key);
      CoverExists(levels[0], key);
      j := CoverOf(levels[0], key);
    }

    /** The child that a search takes in a pinned internal node. */
    method ChildOf(page: PageId, key: Key, ghost k: nat) returns (child: PageId)
      requires pool.Valid() && k > 0 && Walkable(pool.nodes, page, key, k)
      ensures Walkable(pool.nodes, child, key, k - 1)
      ensures Descend(pool.nodes, page, key, k) == Descend(pool.nodes, child, key, k - 1)
      ensures child in pool.pages && child in pool.nodes && (pool.nodes[child].Leaf? <==> k == 1)
    {
      hide Stored, Allocated, Walkable, Descend;
      WalkHere(pool.pages, pool.nodes, page, key, k);
      var node := pool.ReadInternal(page);
      var idx := node.FindChild(key);
      child := node.Children()[idx];
      FoundIs(node.Keys(), key, idx);
      WalkStep(pool.nodes, page, key, k, child);
      WalkHere(pool.pages, pool.nodes, child, key, k - 1);
    }

    method FindLeafPage(key: Key) returns (page: PageId)
      requires Walks(key) && pool.Held() < pool.frames && pool.unannounced == {}
      modifies pool`pins, pool`unannounced
      ensures pool.pins == old(pool.pins) + multiset{page} && pool.Held() <= old(pool.Held()) + 1
      ensures page == Ends(key) && Walkable(pool.nodes, page, key, 0)
      ensures pool.unannounced == {}
    {
      hide Stored, Allocated, Walkable, Descend, HeldPages;
      ghost var k, end := |levels| - 1, Ends(key);
      page := root;
      WalkHere(pool.pages, pool.nodes, page, key, k);
      var ok := pool.Fetch(root);
      var isLeaf := pool.IsLeaf(page);
      while !isLeaf
        invariant 0 <= k < |levels| && Walkable(pool.nodes, page, key, k)
        invariant Descend(pool.nodes, page, key, k) == end
        invariant pool.pins == old(pool.pins) + multiset{page} && pool.Held() <= old(pool.Held()) + 1
        invariant page in pool.nodes && (isLeaf <==> k == 0) && pool.unannounced == {}
        decreases k
        modifies pool`pins, pool`unannounced
      {
        var child := ChildOf(page, key, k);
        pool.Unpin(page, false);
        assert pool.pins == old(pool.pins);
        page, k := child, k - 1;
        ok := pool.Fetch(page);
        isLeaf := pool.IsLeaf(page);
      }
      WalkHere(pool.pages, pool.nodes, page, key, 0);
    }

    // -------------------------------------------------------------- splits above the leaves

    /** Fetches a node, overwrites its parent pointer and releases it. */
    method PatchParentOf(id: PageId, p: PageId)
      requires pool.Valid() && id in pool.nodes && (id in pool.pins || pool.Held() < pool.frames)
      modifies pool`pins, pool`pages, pool`nodes, pool`unannounced
      ensures pool.Valid() && pool.pins == old(pool.pins) && pool.pages.Keys == old(pool.pages.Keys)
      ensures pool.nodes == old(pool.nodes)[id := old(pool.nodes)[id].(parent := p)]
      ensures pool.unannounced == old(pool.unannounced) - {id}
    {
      hide Stored, Allocated, HeldPages;
      PageOf(pool.pages, pool.nodes, id);
      var ok := pool.Fetch(id);
      pool.SetParent(id, p);
      pool.Unpin(id, true);
    }

    /** Overwrites the parent pointer of every listed child. */
    method Adopt(children: seq<PageId>, p: PageId)
      requires pool.Valid() && pool.Held() < pool.frames
      requires forall x :: x in children ==> x in pool.nodes
      modifies pool`pins, pool`pages, pool`nodes, pool`unannounced
      ensures pool.Valid() && pool.pins == old(pool.pins) && pool.pages.Keys == old(pool.pages.Keys)
      ensures pool.nodes == Reparent(old(pool.nodes), children, p)
      ensures pool.unannounced <= old(pool.unannounced)
    {
      hide Stored, Allocated, Reparent, HeldPages;
      ghost var before := pool.nodes;
      ReparentNone(before, p);
      for i := 0 to |children|
        invariant pool.Valid() && pool.pins == old(pool.pins) && pool.pages.Keys == old(pool.pages.Keys)
        invariant pool.nodes == Reparent(before, children[..i], p) && pool.unannounced <= old(pool.unannounced)
      {
        ReparentOne(before, children[..i], children[i], p);
        assert children[..i + 1] == children[..i] + [children[i]];
        PatchParentOf(children[i], p);
      }
      assert children[..|children|] == children;
    }

    /** Fills the empty page newId with an internal node. */
    method InitInternal(newId: PageId, parent: PageId, keys: seq<Key>, children: seq<PageId>)
      requires pool.Valid() && newId in pool.pages
      requires 1 <= |keys| <= INTERNAL_MAX && |children| == |keys| + 1
      modifies pool`pages, pool`nodes, pool`unannounced
      ensures pool.Valid() && pool.pages.Keys == old(pool.pages.Keys)
      ensures newId in pool.nodes && pool.nodes == old(pool.nodes)[newId := pool.nodes[newId]]
      ensures pool.nodes[newId].Internal? && pool.nodes[newId].parent == parent
      ensures pool.nodes[newId].keys == keys && pool.nodes[newId].children == children
      ensures pool.unannounced == old(pool.unannounced) + {newId}
    {
      hide Stored, Allocated, HeldPages;
      var node := new InternalNode(pool.pages[newId]);
      node.parent := parent;
      node.numKeys := |keys|;
      node.keys := keys;
      node.children := children;
      assert node.Keys() == keys && node.Children() == children;
      pool.WriteInternal(newId, node);
    }

    /** Splits a full internal node into itself and a new right sibling; the middle separator goes up. */
    method SplitInternal(id: PageId, node: InternalNode, pos: nat, key: Key, rightId: PageId, ghost n: Node)
      returns (pushUp: Key, newId: PageId)
      requires pool.Valid() && id in pool.nodes && node.Valid()
      requires pool.nodes[id] == Internal(node.parent, node.next, node.Keys(), node.Children())
      requires node.numKeys == INTERNAL_MAX == |node.keys| && |node.children| == INTERNAL_MAX + 1
      requires pos <= INTERNAL_MAX && n == WithChild(pool.nodes[id], pos, key, rightId)
      requires forall x :: x in n.children ==> x in pool.nodes && x != id
      requires pool.Held() + 2 <= pool.frames && pool.Spare() > 0
      modifies pool, node
      ensures pool.Valid() && Halved(old(pool.nodes), pool.nodes, id, newId, n) && pushUp == n.keys[MID]
      ensures pool.pins == old(pool.pins) + multiset{newId} && pool.Spare() == old(pool.Spare()) - 1
      ensures pool.Held() <= old(pool.Held()) + 1
      ensures pool.unannounced <= old(pool.unannounced) + {id, newId}
    {
      hide Stored, Allocated, HeldPages, Halved;
      PagesOf(pool.pages, pool.nodes);
      var keys := InsertAt(node.Keys(), pos, key);
      var children := InsertAt(node.Children(), pos + 1, rightId);
      pushUp := keys[|keys| / 2];
      var page := pool.NewPage();
      newId := page.value;
      WriteHalves(id, node, newId, keys, children, n);
    }

    /** The left half back into the node, the right half into the new page, whose children are re-parented first. */
    method WriteHalves(id: PageId, node: InternalNode, newId: PageId, keys: seq<Key>, children: seq<PageId>,
                       ghost n: Node)
      requires pool.Valid() && id in pool.nodes && newId in pool.pages && newId !in pool.nodes
      requires newId != INVALID_PAGE_ID
      requires node.Valid() && node.numKeys == INTERNAL_MAX && node.parent == pool.nodes[id].parent
      requires |keys| == INTERNAL_MAX + 1 && |children| == |keys| + 1
      requires n.Internal? && n.keys == keys && n.children == children && n.parent == node.parent
      requires forall x :: x in children ==> x in pool.nodes
      requires pool.Held() < pool.frames
      modifies pool`pins, pool`pages, pool`nodes, node, pool`unannounced
      ensures pool.Valid() && Halved(old(pool.nodes), pool.nodes, id, newId, n) && pool.pins == old(pool.pins)
      ensures pool.unannounced <= old(pool.unannounced) + {id, newId}
    {
      hide Stored, Allocated, Reparent, HeldPages, Halved;
      ghost var before := pool.nodes;
      PageOf(pool.pages, before, id);
      var mid := |keys| / 2;
      node.KeepFirst(keys[..mid], children[..mid + 1]);
      Adopt(children[mid + 1..], newId);
      ghost var adopted := pool.nodes;
      pool.WriteInternal(id, node);
      InitInternal(newId, node.parent, keys[mid + 1..], children[mid + 1..]);
      HalvedBy(before, adopted, pool.nodes, id, newId, n);
    }

    method CreateNewRoot(leftId: PageId, splitKey: Key, rightId: PageId)
      requires pool.Valid() && pool.Held() < pool.frames && pool.Spare() > 0
      requires leftId in pool.nodes && rightId in pool.nodes && leftId in pool.pins && rightId in pool.pins
      modifies this`root, pool
      ensures pool.Valid() && Rooted(old(pool.nodes), pool.nodes, leftId, Ref(splitKey, rightId), root)
      ensures pool.pins == old(pool.pins) && pool.Spare() == old(pool.Spare()) - 1
      ensures pool.unannounced <= old(pool.unannounced)
    {
      hide Stored, Allocated, HeldPages, Rooted;
      ghost var before := pool.nodes;
      PagesOf(pool.pages, before);
      var page := pool.NewPage();
      var newId := page.value;
      InitInternal(newId, INVALID_PAGE_ID, [splitKey], [leftId, rightId]);
      ghost var made := pool.nodes[newId];
      PatchParentOf(leftId, newId);
      PatchParentOf(rightId, newId);
      root := newId;
      pool.Unpin(newId, true);
      RootedBy(before, pool.nodes, leftId, Ref(splitKey, rightId), newId, made);
    }

    /**
     rightId was split off leftId, the node over goal at level k, and its separator has no place in the parent
     yet.
     */
    ghost predicate Waiting(k: nat, i: nat, leftId: PageId, key: Key, rightId: PageId, goal: Key, course: Option<Gap>)
      reads this, pool
    {
      && pool.Valid() && root != INVALID_PAGE_ID
      && Pending(pool.nodes, root, levels, rank, k, i)
      && Fits(levels, k, i, goal) && Heads(pool.nodes, levels, k, i, goal, course)
      && (course.Some? ==> WeaklyOrdered(pool.nodes, levels[0]))
      && levels[k][i].id == leftId && levels[k][i + 1] == Ref(key, rightId)
    }

    /** The leaves are chained as before, and all searches but those for keys of the gap reach the leaf over the key. */
    ghost predicate Astray(gap: Gap)
      reads this, pool
    {
      && pool.Valid() && root != INVALID_PAGE_ID && levels != []
      && LeavesOK(pool.nodes, levels[0]) && Strayed(pool.nodes, root, levels[0], |levels| - 1, gap)
    }

    /** How the splits end. */
    ghost predicate Arrived(course: Option<Gap>)
      reads this, pool
    {
      if course.None? then Shaped() else Astray(course.value)
    }

    /** The separator goes into a parent that has room. */
    method TakeSeparator(parentId: PageId, node: InternalNode, pos: nat, key: Key, rightId: PageId,
                         ghost k: nat, ghost up: nat, ghost i: nat, ghost j: nat, ghost c: nat, leftId: PageId,
                         ghost goal: Key, ghost course: Option<Gap>)
      requires Waiting(k, i, leftId, key, rightId, goal, course) && up == k + 1 < |levels|
      requires At(pool.nodes, levels[up], i, j, c) && parentId == levels[up][j].id && IsInternal(pool.nodes, parentId)
      requires node.Valid() && node.numKeys < INTERNAL_MAX && Found(node.Keys(), key, pos)
      requires Lands(pool.nodes, levels, k, i) ==> pos == c
      requires pool.nodes[parentId] == Internal(node.parent, node.next, node.Keys(), node.Children())
      modifies pool`pages, pool`nodes, node, pool`unannounced
      ensures Arrived(course) && SameLeaves(old(pool.nodes), pool.nodes, levels[0])
      ensures pool.pages.Keys == old(pool.pages.Keys)
      ensures pool.unannounced <= old(pool.unannounced) + {parentId}
    {
      hide Stored, Allocated, HeldPages, Flatten, Fits, Lands, Heads, Course, Ties, GapOver, WeaklyOrdered;
      hide Strayed, LeavesOK, SameLeaves, LinksExcept, Link, Distinct, MinFill, IsFull;
      ghost var before := pool.nodes;
      PageOf(pool.pages, before, parentId);
      RoomDecides(before, root, levels, rank, k, up, i, j, c, goal, course);
      node.InsertAfter(pos, key, rightId);
      pool.WriteInternal(parentId, node);
      assert pool.nodes[parentId] == WithChild(before[parentId], pos, key, rightId);
      if course.None? {
        ParentTakes(before, pool.nodes, root, levels, rank, k, i, j, pos);
        SameLeavesTake(before, pool.nodes, levels[0], parentId);
      } else {
        TieStrays(before, pool.nodes, root, levels, rank, k, up, i, j, c, pos, levels[k][i + 1], goal);
      }
    }

    /** A full parent is split; its own new sibling then waits one level higher. */
    method SplitParent(parentId: PageId, node: InternalNode, pos: nat, key: Key, rightId: PageId,
                       ghost k: nat, ghost up: nat, ghost i: nat, ghost j: nat, leftId: PageId,
                       ghost goal: Key, ghost course: Option<Gap>)
      returns (pushUp: Key, newId: PageId)
      requires Waiting(k, i, leftId, key, rightId, goal, course) && up == k + 1 < |levels|
      requires At(pool.nodes, levels[up], i, j, pos) && parentId == levels[up][j].id && IsInternal(pool.nodes, parentId)
      requires node.Valid() && node.numKeys == INTERNAL_MAX == |node.keys| && |node.children| == INTERNAL_MAX + 1
      requires pool.nodes[parentId] == Internal(node.parent, node.next, node.Keys(), node.Children())
      requires pos <= node.numKeys && pool.Held() + 2 <= pool.frames && pool.Spare() > 0
      modifies pool, node, this`levels, this`rank
      ensures Waiting(up, j, parentId, pushUp, newId, goal, course)
      ensures SameLeaves(old(pool.nodes), pool.nodes, levels[0])
      ensures |levels| == old(|levels|) && levels[..up] == old(levels[..up])
      ensures pool.pins == old(pool.pins) + multiset{newId} && pool.Spare() == old(pool.Spare()) - 1
      ensures NodeCount(levels) == old(NodeCount(levels)) + 1
      ensures pool.Held() <= old(pool.Held()) + 1
      ensures pool.unannounced <= old(pool.unannounced) + {parentId, newId}
    {
      hide Stored, Allocated, HeldPages, Flatten, Halved, Link, LeavesOK, Distinct, MinFill, LinksExcept;
      hide SameLeaves, Fits, Lands, Heads, Course, WeaklyOrdered;
      ghost var before, was := pool.nodes, levels;
      ghost var p, l := levels[up][j], levels[k][i + 1];
      ghost var n := WithChild(before[parentId], pos, key, rightId);
      ChildrenStored(before, root, levels, rank, k, up, i, j, pos, p, l, n);
      pushUp, newId := SplitInternal(parentId, node, pos, key, rightId, n);
      ghost var x := Ref(pushUp, newId);
      levels := levels[up := InsertAt(levels[up], j + 1, x)];
      NodeCountSet(was, up, levels[up]);
      SplitWaits(before, pool.nodes, root, was, levels, rank, k, up, i, j, pos, p, l, x, n, goal, course);
      rank := rank[newId := up];
    }

    /** The root was split: a new root above both halves. */
    method GrowRoot(leftId: PageId, key: Key, rightId: PageId, ghost k: nat, ghost i: nat, ghost goal: Key,
                    ghost course: Option<Gap>)
      requires Waiting(k, i, leftId, key, rightId, goal, course) && k == |levels| - 1
      requires pool.Held() < pool.frames && pool.Spare() > 0
      requires leftId in pool.pins && rightId in pool.pins
      modifies this, pool
      ensures Arrived(course) && SameLeaves(old(pool.nodes), pool.nodes, levels[0]) && pool.pins == old(pool.pins)
      ensures levels == old(levels) + [[Ref(0, root)]] && pool.Spare() == old(pool.Spare()) - 1
      ensures NodeCount(levels) == old(NodeCount(levels)) + 1
      ensures pool.unannounced <= old(pool.unannounced)
    {
      hide Stored, Allocated, HeldPages, Flatten, Rooted, Heads, Astray;
      ghost var before, was, oldRoot := pool.nodes, levels, root;
      ghost var x := Ref(key, rightId);
      NoWayUp(before, levels, k, i, goal, course);
      CreateNewRoot(leftId, key, rightId);
      levels := levels + [[Ref(0, root)]];
      NodeCountAppend(was, [Ref(0, root)]);
      RootGrows(before, pool.nodes, oldRoot, was, levels, rank, k, i, x, root);
      LeavesStored(before, oldRoot, was, rank, k, i);
      SameLeavesRooted(before, pool.nodes, levels[0], oldRoot, x, root);
      rank := rank[root := k + 1];
      RootedFresh(before, pool.nodes, oldRoot, x, root);
    }

    /** Pins the parent and finds the position of the new separator: right after the left node, if it lands there. */
    method FetchParent(parentId: PageId, key: Key, ghost k: nat, ghost up: nat, ghost i: nat, ghost leftId: PageId,
                       ghost rightId: PageId, ghost goal: Key, ghost course: Option<Gap>)
      returns (node: InternalNode, pos: nat, ghost j: nat, ghost c: nat)
      requires Waiting(k, i, leftId, key, rightId, goal, course) && up == k + 1 < |levels|
      requires pool.Held() < pool.frames
      requires leftId in pool.nodes && parentId == pool.nodes[leftId].parent
      modifies pool`pins
      ensures pool.pins == old(pool.pins) + multiset{parentId} && pool.Held() <= old(pool.Held()) + 1
      ensures At(pool.nodes, levels[up], i, j, c) && parentId == levels[up][j].id && IsInternal(pool.nodes, parentId)
      ensures fresh(node) && node.Valid() && |node.keys| == node.numKeys && |node.children| == node.numKeys + 1
      ensures pool.nodes[parentId] == Internal(node.parent, node.next, node.Keys(), node.Children())
      ensures Found(node.Keys(), key, pos) && pos <= node.numKeys <= INTERNAL_MAX
      ensures Lands(pool.nodes, levels, k, i) ==> pos == c
    {
      hide Stored, Allocated, HeldPages, Flatten, Structure, Pending, Fits, Lands, Heads;
      TopParent(pool.nodes, root, levels, rank, k, i, goal);
      j, c := FindParent(pool.nodes, root, levels, rank, k, up, i, goal);
      PageOf(pool.pages, pool.nodes, parentId);
      var ok := pool.Fetch(parentId);
      node := pool.ReadInternal(parentId);
      pos := node.FindChild(key);
      if Lands(pool.nodes, levels, k, i) {
        FindPosition(pool.nodes, root, levels, rank, k, up, i, j, c, pos, goal);
      }
    }

    /** Puts a separator into the parent of a split node; splits the parent, and so on up, where it is full. */
    method InsertIntoParent(leftId: PageId, splitKey: Key, rightId: PageId, ghost k: nat, ghost i: nat,
                            ghost goal: Key, ghost course: Option<Gap>)
      requires Waiting(k, i, leftId, splitKey, rightId, goal, course)
      requires pool.Held() + 2 * (|levels| - 1 - k) + 1 <= pool.frames && pool.Spare() >= |levels| - k
      requires leftId in pool.pins && rightId in pool.pins
      modifies this, pool
      ensures Arrived(course) && SameLeaves(old(pool.nodes), pool.nodes, levels[0]) && pool.pins == old(pool.pins)
      ensures old(|levels|) <= |levels| <= old(|levels|) + 1 && levels[..k + 1] == old(levels[..k + 1])
      ensures pool.Spare() >= old(pool.Spare()) - (old(|levels|) - k)
      ensures pool.Spare() + NodeCount(levels) == old(pool.Spare()) + old(NodeCount(levels))
      ensures pool.unannounced <= old(pool.unannounced)
      decreases |levels| - k, 2
    {
      hide Stored, Allocated, HeldPages, Flatten, Structure, Pending, SameLeaves, At, Fits, Lands, Heads, Course;
      hide WeaklyOrdered, Found, TakesTied, LeavesOK, Strayed;
      TopParent(pool.nodes, root, levels, rank, k, i, goal);
      var parentId := pool.ParentOf(leftId);
      if parentId == INVALID_PAGE_ID {
        GrowRoot(leftId, splitKey, rightId, k, i, goal, course);
      } else {
        ghost var up := k + 1;
        var node, pos;
        ghost var j, c;
        node, pos, j, c := FetchParent(parentId, splitKey, k, up, i, leftId, rightId, goal, course);
        TakeOrSplit(parentId, node, pos, splitKey, rightId, k, up, i, j, c, leftId, goal, course);
        pool.Unpin(parentId, true);
        assert pool.pins == old(pool.pins);
      }
    }

    /** The parent takes the separator if it has room, and is split if it has none. */
    method TakeOrSplit(parentId: PageId, node: InternalNode, pos: nat, key: Key, rightId: PageId,
                       ghost k: nat, ghost up: nat, ghost i: nat, ghost j: nat, ghost c: nat, leftId: PageId,
                       ghost goal: Key, ghost course: Option<Gap>)
      requires Waiting(k, i, leftId, key, rightId, goal, course) && up == k + 1 < |levels|
      requires At(pool.nodes, levels[up], i, j, c) && parentId == levels[up][j].id && IsInternal(pool.nodes, parentId)
      requires node.Valid() && |node.keys| == node.numKeys && |node.children| == node.numKeys + 1
      requires pool.nodes[parentId] == Internal(node.parent, node.next, node.Keys(), node.Children())
      requires Found(node.Keys(), key, pos) && pos <= node.numKeys <= INTERNAL_MAX
      requires (Lands(pool.nodes, levels, k, i) ==> pos == c) && parentId in pool.pins
      requires pool.Held() + 2 * (|levels| - 1 - k) <= pool.frames && pool.Spare() >= |levels| - k
      modifies this, pool, node
      ensures Arrived(course) && SameLeaves(old(pool.nodes), pool.nodes, levels[0]) && pool.pins == old(pool.pins)
      ensures old(|levels|) <= |levels| <= old(|levels|) + 1 && levels[..up] == old(levels[..up])
      ensures pool.Spare() >= old(pool.Spare()) - (old(|levels|) - k)
      ensures pool.Spare() + NodeCount(levels) == old(pool.Spare()) + old(NodeCount(levels))
      ensures pool.unannounced <= old(pool.unannounced) + {parentId}
      decreases |levels| - k, 1
    {
      hide Stored, Allocated, HeldPages, Flatten, Structure, Pending, SameLeaves, At, Fits, Lands, Heads, Course;
      hide WeaklyOrdered, Found, TakesTied, LeavesOK, Strayed;
      if !node.IsFull() {
        TakeSeparator(parentId, node, pos, key, rightId, k, up, i, j, c, leftId, goal, course);
      } else {
        RoomDecides(pool.nodes, root, levels, rank, k, up, i, j, c, goal, course);
        SplitUpwards(parentId, node, pos, key, rightId, k, up, i, j, leftId, goal, course);
      }
    }

    /** The full parent is split and its separator carried on to the next level. */
    method SplitUpwards(parentId: PageId, node: InternalNode, pos: nat, key: Key, rightId: PageId,
                        ghost k: nat, ghost up: nat, ghost i: nat, ghost j: nat, leftId: PageId,
                        ghost goal: Key, ghost course: Option<Gap>)
      requires Waiting(k, i, leftId, key, rightId, goal, course) && up == k + 1 < |levels|
      requires At(pool.nodes, levels[up], i, j, pos) && parentId == levels[up][j].id && IsInternal(pool.nodes, parentId)
      requires node.Valid() && node.numKeys == INTERNAL_MAX == |node.keys| && |node.children| == INTERNAL_MAX + 1
      requires pool.nodes[parentId] == Internal(node.parent, node.next, node.Keys(), node.Children())
      requires pos <= node.numKeys && parentId in pool.pins
      requires pool.Held() + 2 * (|levels| - 1 - k) <= pool.frames && pool.Spare() >= |levels| - k
      modifies this, pool, node
      ensures Arrived(course) && SameLeaves(old(pool.nodes), pool.nodes, levels[0]) && pool.pins == old(pool.pins)
      ensures old(|levels|) <= |levels| <= old(|levels|) + 1 && levels[..up] == old(levels[..up])
      ensures pool.Spare() >= old(pool.Spare()) - (old(|levels|) - k)
      ensures pool.Spare() + NodeCount(levels) == old(pool.Spare()) + old(NodeCount(levels))
      ensures pool.unannounced <= old(pool.unannounced) + {parentId}
      decreases |levels| - k, 0
    {
      hide Stored, Allocated, HeldPages, Flatten, Link, LeavesOK, Distinct, MinFill, SameLeaves, LinksExcept;
      hide At, Fits, Lands, Heads, Pending, Structure, WeaklyOrdered, Strayed;
      ghost var before, was := pool.nodes, levels;
      var pushUp, newId := SplitParent(parentId, node, pos, key, rightId, k, up, i, j, leftId, goal, course);
      ghost var mid, split := pool.nodes, levels;
      InsertIntoParent(parentId, pushUp, newId, up, j, goal, course);
      PrefixSame(levels, split, was, up);
      SameLeavesChain(before, mid, pool.nodes, levels[0]);
      pool.Unpin(newId, true);
      assert pool.pins == old(pool.pins);
    }

    // -------------------------------------------------------------- insertion

    /** The leaf that would take the key is full. */
    ghost predicate Splits(key: Key)
      requires Valid()
      reads this, pool
    {
      root != INVALID_PAGE_ID && |LeafEntries(pool.nodes, levels[0][CoverOf(levels[0], key)].id)| >= LEAF_MAX
    }

    /** The leaf that would take the entry is full, and its split would cut a run of equal keys. */
    ghost predicate CutsRun(key: Key, rid: RID)
      requires Valid()
      reads this, pool
    {
      && root != INVALID_PAGE_ID
      && Cuts(LeafEntries(pool.nodes, levels[0][CoverOf(levels[0], key)].id), Entry(key, rid))
    }

    /**
     The leaf that would take the key is full, and the splits above it would push up a separator that its new parent
     holds already, right of the node that is split.
     */
    ghost predicate Misplaces(key: Key)
      requires Valid()
      reads this, pool
    {
      Splits(key) && !Clear(pool.nodes, levels, 0, key)
    }

    /** The keys that separator takes over: from itself up to the next one in its parent. */
    ghost function Taken(key: Key): Gap
      requires Valid() && Misplaces(key)
      reads this, pool
    {
      var m := TieAt(pool.nodes, levels, 0, key).value;
      GapOver(pool.nodes, levels[m + 1], key, PushOf(pool.nodes, levels[m], key))
    }

    /** The parent that holds it is full as well, so that it is split around the misplaced separator. */
    ghost predicate Derails(key: Key)
      requires Valid()
      reads this, pool
    {
      Misplaces(key) && IsFull(pool.nodes, levels[TieAt(pool.nodes, levels, 0, key).value + 1], key)
    }

    /** What insertion has in front of it. */
    lemma CourseOf(key: Key) returns (course: Option<Gap>)
      requires Valid() && !Derails(key)
      ensures course == if Misplaces(key) then Some(Taken(key)) else None
      ensures Splits(key) ==> Course(pool.nodes, levels, 0, key, course)
    {
      hide Stored, Allocated, Structure, WeaklyOrdered, TieAt, IsFull, Ties, GapOver;
      course := if Misplaces(key) then Some(Taken(key)) else None;
    }

    /** That takes three levels and equal separators. */
    lemma NeverMisplaces(key: Key)
      requires Valid() && (WellFormed() || |levels| <= 2)
      ensures !Misplaces(key)
    {
      hide Stored, Allocated, Structure, Ordered, WeaklyOrdered, IsFull, Tied;
      if Splits(key) && |levels| > 2 {
        StrictlyOrdered(pool.nodes, levels[0]);
        StrictIsClear(pool.nodes, root, levels, rank, 0, key);
      }
    }

    /** What happens then: up to some level m the nodes over the key are full, and the split there goes wrong. */
    lemma MisplacedSeparator(key: Key) returns (m: nat)
      requires Valid() && Misplaces(key)
      ensures 0 < m < |levels| - 1 && forall q :: 0 < q <= m ==> IsFull(pool.nodes, levels[q], key)
      ensures LandsElsewhere(pool.nodes, levels[m], levels[m + 1], key)
    {
      hide Stored, Allocated, Structure, IsFull, Tied, Clear, LandsElsewhere, LeafOrdered, FewAtBound, Los;
      m := TiedAt(pool.nodes, levels, 0, key);
      TiedLandsElsewhere(pool.nodes, root, levels, rank, m, key);
    }

    /** Distinct keys meet the condition for insertion by themselves. */
    lemma DistinctInsertCutsNothing(key: Key, rid: RID)
      requires Valid() && DistinctKeys(Contents()) && forall e :: e in Contents() ==> e.key != key
      ensures !CutsRun(key, rid)
    {
      hide Stored, Allocated, Structure, WeaklyOrdered, Entries, Cuts, DistinctKeys, CoverOf;
      if root != INVALID_PAGE_ID {
        DistinctTreeNeverCuts(pool.nodes, levels[0], CoverOf(levels[0], key), Entry(key, rid));
      }
    }

    /** The first entry makes a leaf that is the root. */
    method InsertFirst(key: Key, rid: RID)
      requires Valid() && root == INVALID_PAGE_ID && pool.Held() < pool.frames && pool.Spare() > 0
      modifies this, pool
      ensures WellFormed() && root != INVALID_PAGE_ID && pool.pins == old(pool.pins)
      ensures Contents() == [Entry(key, rid)] && |levels| == 1 && Filled() && pool.Spare() == old(pool.Spare()) - 1
      ensures NodeCount(levels) == 1
      ensures pool.unannounced <= old(pool.unannounced)
    {
      hide Stored, Allocated, HeldPages, Structure, Ordered;
      var page := pool.NewPage();
      root := page.value;
      WriteFirstLeaf(key, rid);
      pool.Unpin(root, true);
      levels, rank := [[Ref(0, root)]], map[root := 0];
      FirstLeaf(pool.nodes, root, Entry(key, rid));
      OrderedIsWeak(pool.nodes, levels[0]);
    }

    method WriteFirstLeaf(key: Key, rid: RID)
      requires pool.Valid() && root in pool.pages
      modifies pool`pages, pool`nodes, pool`unannounced
      ensures pool.Valid() && root in pool.nodes
      ensures pool.nodes[root] == Leaf(INVALID_PAGE_ID, INVALID_PAGE_ID, [Entry(key, rid)])
      ensures pool.unannounced == old(pool.unannounced) + {root}
    {
      hide Stored, Allocated;
      var leaf := new LeafNode(pool.pages[root]);
      leaf.parent, leaf.numKeys, leaf.next := INVALID_PAGE_ID, 0, INVALID_PAGE_ID;
      leaf.keys, leaf.rids := [], [];
      var ok := leaf.Insert(key, rid);
      InsertedAlone(Entry(key, rid));
      pool.WriteLeaf(root, leaf);
    }

    /** The leaf has room. */
    method InsertIntoLeaf(page: PageId, leaf: LeafNode, key: Key, rid: RID, ghost j: nat)
      requires Valid() && root != INVALID_PAGE_ID && Covers(levels[0], j, key) && page == levels[0][j].id
      requires LeafOK(pool.nodes, levels[0], j) && leaf.Valid() && leaf.numKeys <= LEAF_MAX
      requires leaf.parent == pool.nodes[page].parent && leaf.next == pool.nodes[page].next
      requires leaf.Entries() == SortedInsert(pool.nodes[page].entries, Entry(key, rid))
      modifies pool`pages, pool`nodes, pool`unannounced
      ensures Valid() && Inserted(old(Contents()), Contents(), Entry(key, rid))
      ensures LookupComplete(old(pool.nodes), levels[0], key) ==>
        Contents() == SortedInsert(old(Contents()), Entry(key, rid))
      ensures Ordered(pool.nodes, levels[0]) <==> Ordered(old(pool.nodes), levels[0])
      ensures NoStraddle(pool.nodes, levels[0]) <==> NoStraddle(old(pool.nodes), levels[0])
      ensures old(Filled()) ==> Filled()
      ensures pool.unannounced == old(pool.unannounced) + {page}
    {
      hide Stored, Allocated, HeldPages, Structure, Ordered, WeaklyOrdered, NoStraddle, SortedInsert, Entries, HalfFull;
      hide LookupComplete;
      ghost var before := pool.nodes;
      PageOf(pool.pages, before, page);
      pool.WriteLeaf(page, leaf);
      LeafTakes(before, pool.nodes, root, levels, rank, j, Entry(key, rid), pool.nodes[page]);
    }

    /** Fills the empty page newId with a leaf. */
    method InitLeaf(newId: PageId, parent: PageId, next: PageId, keys: seq<Key>, rids: seq<RID>)
      requires pool.Valid() && newId in pool.pages && |keys| == |rids| <= LEAF_MAX
      modifies pool`pages, pool`nodes, pool`unannounced
      ensures pool.Valid() && pool.pages.Keys == old(pool.pages.Keys)
      ensures pool.nodes == old(pool.nodes)[newId := Leaf(parent, next, Zip(keys, rids))]
      ensures pool.unannounced == old(pool.unannounced) + {newId}
    {
      hide Stored, Allocated;
      var leaf := new LeafNode(pool.pages[newId]);
      leaf.parent, leaf.next := parent, next;
      leaf.keys, leaf.rids := keys, rids;
      leaf.numKeys := |keys|;
      pool.WriteLeaf(newId, leaf);
    }

    /** Writes the two halves of a full leaf and links the new right leaf into the chain. */
    method WriteLeafHalves(page: PageId, leaf: LeafNode, newId: PageId, keys: seq<Key>, rids: seq<RID>,
                           ghost all: seq<Entry>)
      requires pool.Valid() && page in pool.nodes && newId in pool.pages && newId !in pool.nodes
      requires newId != INVALID_PAGE_ID
      requires leaf.Valid() && pool.nodes[page] == Leaf(leaf.parent, leaf.next, leaf.Entries())
      requires |keys| == |rids| == LEAF_MAX + 1 && all == Zip(keys, rids)
      modifies pool`pages, pool`nodes, leaf, pool`unannounced
      ensures pool.Valid() && LeafCut(old(pool.nodes), pool.nodes, page, newId, all)
      ensures pool.pages.Keys == old(pool.pages.Keys)
      ensures pool.unannounced <= old(pool.unannounced) + {page, newId}
    {
      hide Stored, Allocated, HeldPages, Zip;
      PageOf(pool.pages, pool.nodes, page);
      var splitPos := |keys| / 2;
      ghost var next := leaf.next;
      ZipIs(keys[..splitPos], rids[..splitPos], all[..splitPos]);
      ZipIs(keys[splitPos..], rids[splitPos..], all[splitPos..]);
      var oldNext := leaf.next;
      leaf.keys, leaf.rids := keys[..splitPos], rids[..splitPos];
      leaf.numKeys := splitPos;
      leaf.next := newId;
      pool.WriteLeaf(page, leaf);
      InitLeaf(newId, leaf.parent, oldNext, keys[splitPos..], rids[splitPos..]);
    }

    /** Splits a full leaf around the new entry and carries the separator up. */
    method SplitLeaf(page: PageId, leaf: LeafNode, key: Key, rid: RID, ghost j: nat, ghost course: Option<Gap>)
      requires Valid() && root != INVALID_PAGE_ID && Covers(levels[0], j, key) && page == levels[0][j].id
      requires Course(pool.nodes, levels, 0, key, course)
      requires LeafOK(pool.nodes, levels[0], j) && leaf.Valid() && leaf.numKeys == LEAF_MAX
      requires pool.nodes[page] == Leaf(leaf.parent, leaf.next, leaf.Entries())
      requires page in pool.pins && pool.Held() + 2 * |levels| <= pool.frames && pool.Spare() > |levels|
      modifies this, pool, leaf
      ensures root != INVALID_PAGE_ID && pool.pins == old(pool.pins)
      ensures if course.None? then Valid() else Astray(course.value)
      ensures levels != [] && WeaklyOrdered(pool.nodes, levels[0])
      ensures Inserted(old(Contents()), Entries(pool.nodes, levels[0]), Entry(key, rid))
      ensures LookupComplete(old(pool.nodes), old(levels[0]), key) ==>
        Entries(pool.nodes, levels[0]) == SortedInsert(old(Contents()), Entry(key, rid))
      ensures var cuts := Cuts(old(pool.nodes[page].entries), Entry(key, rid));
        && (Ordered(pool.nodes, levels[0]) <==> Ordered(old(pool.nodes), old(levels[0])) && !cuts)
        && (NoStraddle(pool.nodes, levels[0]) <==> NoStraddle(old(pool.nodes), old(levels[0])) && !cuts)
      ensures old(|levels|) <= |levels| <= old(|levels|) + 1 && pool.Spare() >= old(pool.Spare()) - (old(|levels|) + 1)
      ensures pool.Spare() + NodeCount(levels) == old(pool.Spare()) + old(NodeCount(levels))
      ensures old(Filled()) ==> HalfFull(pool.nodes, levels[0])
      ensures pool.unannounced <= old(pool.unannounced) + {page}
    {
      hide Stored, Allocated, HeldPages, Structure, Ordered, WeaklyOrdered, NoStraddle, SortedInsert, Entries, LeafCut;
      hide SameLeaves, Pending, Fits, Heads, Course, Cuts, HalfFull, LookupComplete, Strayed, LeavesOK, NodeCount;
      hide Inserted;
      ghost var before, was := pool.nodes, levels;
      ghost var e := Entry(key, rid);
      LeafSorted(before, levels[0], j);
      var newId, splitKey;
      newId, splitKey := CutLeaf(page, leaf, key, rid);
      ghost var all := SortedInsert(before[page].entries, e);
      ghost var x := Ref(splitKey, newId);
      levels := levels[0 := InsertAt(levels[0], j + 1, x)];
      NodeCountSet(was, 0, levels[0]);
      rank := rank[newId := 0];
      ghost var mid, leaves := pool.nodes, levels[0];
      LeafIsSplit(before, mid, root, was, levels, old(rank), j, was[0][j], x, e, all, course);
      InsertIntoParent(page, splitKey, newId, 0, j, key, course);
      assert levels[..1][0] == leaves;
      OrderFrame(mid, pool.nodes, levels[0]);
      HalfFullSame(mid, pool.nodes, levels[0]);
      pool.Unpin(newId, true);
      assert pool.pins == old(pool.pins);
    }

    /** The part of a leaf split that touches the two leaves only. */
    method CutLeaf(page: PageId, leaf: LeafNode, key: Key, rid: RID) returns (newId: PageId, splitKey: Key)
      requires pool.Valid() && page in pool.nodes && leaf.Valid() && leaf.numKeys == LEAF_MAX && Sorted(leaf.Entries())
      requires pool.nodes[page] == Leaf(leaf.parent, leaf.next, leaf.Entries())
      requires pool.Held() < pool.frames && pool.Spare() > 0
      modifies pool, leaf
      ensures pool.Valid() && pool.pins == old(pool.pins) + multiset{newId} && pool.Held() <= old(pool.Held()) + 1
      ensures pool.Spare() == old(pool.Spare()) - 1
      ensures var all := SortedInsert(old(leaf.Entries()), Entry(key, rid));
              LeafCut(old(pool.nodes), pool.nodes, page, newId, all) && splitKey == all[LEAF_MID].key
      ensures pool.unannounced <= old(pool.unannounced) + {page, newId}
    {
      hide Stored, Allocated, HeldPages, Sorted, FirstFrom, LowerBound, LeafCut, InsertAt, Zip;
      ghost var s := leaf.Entries();
      PagesOf(pool.pages, pool.nodes);
      var pos := leaf.FindKeyPosition(key);
      LowerBoundIs(s, key, pos);
      var keys := InsertAt(leaf.keys, pos, key);
      var rids := InsertAt(leaf.rids, pos, rid);
      ghost var all := InsertAt(s, pos, Entry(key, rid));
      ZipIs(keys, rids, all);
      var r := pool.NewPage();
      newId := r.value;
      splitKey := keys[|keys| / 2];
      assert all[LEAF_MID].key == keys[LEAF_MID];
      WriteLeafHalves(page, leaf, newId, keys, rids, all);
    }

    /** The leaf takes the entry or is split around it. */
    method InsertInto(page: PageId, key: Key, rid: RID, ghost j: nat, ghost course: Option<Gap>)
      requires Valid() && root != INVALID_PAGE_ID && Covers(levels[0], j, key) && page == levels[0][j].id
      requires LeafOK(pool.nodes, levels[0], j)
      requires
        if |pool.nodes[page].entries| >= LEAF_MAX then Course(pool.nodes, levels, 0, key, course) else course.None?
      requires page in pool.pins && pool.Held() + 2 * |levels| <= pool.frames && pool.Spare() > |levels|
      modifies this, pool
      ensures root != INVALID_PAGE_ID && pool.pins == old(pool.pins)
      ensures if course.None? then Valid() else Astray(course.value)
      ensures levels != [] && WeaklyOrdered(pool.nodes, levels[0])
      ensures Inserted(old(Contents()), Entries(pool.nodes, levels[0]), Entry(key, rid))
      ensures LookupComplete(old(pool.nodes), old(levels[0]), key) ==>
        Entries(pool.nodes, levels[0]) == SortedInsert(old(Contents()), Entry(key, rid))
      ensures var cuts := Cuts(old(pool.nodes[page].entries), Entry(key, rid));
        && (Ordered(pool.nodes, levels[0]) <==> Ordered(old(pool.nodes), old(levels[0])) && !cuts)
        && (NoStraddle(pool.nodes, levels[0]) <==> NoStraddle(old(pool.nodes), old(levels[0])) && !cuts)
      ensures old(|levels|) <= |levels| <= old(|levels|) + 1 && pool.Spare() >= old(pool.Spare()) - (old(|levels|) + 1)
      ensures pool.Spare() + NodeCount(levels) == old(pool.Spare()) + old(NodeCount(levels))
      ensures |old(pool.nodes[page].entries)| < LEAF_MAX ==> levels == old(levels) && pool.Spare() == old(pool.Spare())
      ensures old(Filled()) ==> HalfFull(pool.nodes, levels[0])
      ensures pool.unannounced <= old(pool.unannounced) + {page}
    {
      hide Stored, Allocated, HeldPages, Structure, Ordered, WeaklyOrdered, NoStraddle, Entries, HalfFull, Course;
      hide LookupComplete, Strayed, LeavesOK;
      var leaf := pool.ReadLeaf(page);
      LeafSorted(pool.nodes, levels[0], j);
      var done := leaf.Insert(key, rid);
      if done {
        InsertIntoLeaf(page, leaf, key, rid, j);
      } else {
        SplitLeaf(page, leaf, key, rid, j, course);
      }
    }

    /**
     Adds one entry.  The strict order, and with it the completeness of every lookup, lasts exactly as long as no
     leaf split cuts a run of equal keys.  Where a separator is misplaced, the entry is in the chain all the same, and
     from then on the keys that separator takes over are looked for in the wrong leaf.
     */
    method Insert(key: Key, rid: RID) returns (ok: bool)
      requires Valid() && !Derails(key)
      requires pool.Held() + 2 * |levels| + 1 <= pool.frames && pool.Spare() > |levels|
      requires pool.unannounced == {}
      modifies this, pool
      ensures ok && root != INVALID_PAGE_ID && pool.pins == old(pool.pins)
      ensures !old(Misplaces(key)) ==> Valid() && Inserted(old(Contents()), Contents(), Entry(key, rid))
      ensures !old(Misplaces(key)) && old(FindsAll(key)) ==>
        Contents() == SortedInsert(old(Contents()), Entry(key, rid))
      ensures !old(Misplaces(key)) ==>
        && (WellFormed() <==> old(WellFormed()) && !old(CutsRun(key, rid)))
        && (LookupsComplete() <==> old(LookupsComplete()) && !old(CutsRun(key, rid)))
        && (old(Filled()) ==> Filled())
      ensures old(Misplaces(key)) ==>
        && Astray(old(Taken(key))) && WeaklyOrdered(pool.nodes, levels[0])
        && Inserted(old(Contents()), Entries(pool.nodes, levels[0]), Entry(key, rid))
      ensures old(|levels|) <= |levels| <= old(|levels|) + 1 && pool.Spare() >= old(pool.Spare()) - (old(|levels|) + 1)
      ensures pool.Spare() + NodeCount(levels) == old(pool.Spare()) + old(NodeCount(levels))
      ensures old(root) != INVALID_PAGE_ID && !old(Splits(key)) ==>
        levels == old(levels) && pool.Spare() == old(pool.Spare())
      ensures pool.unannounced == {}
    {
      hide Stored, Allocated, HeldPages, Structure, Ordered, WeaklyOrdered, NoStraddle, Entries, Cuts, HalfFull, Clear;
      hide Seen, Range, SortedInsert, CoverOf, LookupsComplete, Inserted, Course, Taken, Strayed, LeavesOK, Walkable;
      CompleteWithoutStraddler();
      if root == INVALID_PAGE_ID {
        InsertFirst(key, rid);
        InsertedAlone(Entry(key, rid));
        CompleteWithoutStraddler();
        return true;
      }
      ghost var course := CourseOf(key);
      ghost var j := SearchEnds(key);
      var page := FindLeafPage(key);
      LeafOver(pool.nodes, levels[0], j, key);
      InsertInto(page, key, rid, j, course);
      pool.Unpin(page, true);
      assert pool.pins == old(pool.pins);
      if course.None? {
        CompleteWithoutStraddler();
      }
      ok := true;
    }

    /** The keys a misplaced separator takes over are no longer found, whatever is stored under them. */
    lemma GapIsMissed(gap: Gap, key: Key)
      requires Astray(gap) && gap.lo < key < gap.hi
      ensures Misses(key)
    {
      hide Stored, Allocated, LeavesOK, Walkable, Descend, Range;
      assert Strays(pool.nodes, root, |levels| - 1, levels[0], gap, key);
      RangeNone(LeafEntries(pool.nodes, Ends(key)), key, key);
    }

    /** All other keys are looked for in the leaf over them, as before. */
    lemma {:induction false} OthersAreFound(gap: Gap, key: Key)
      requires Astray(gap) && !(gap.lo <= key < gap.hi)
      ensures Walks(key) && levels[0] != [] && Ends(key) == levels[0][CoverOf(levels[0], key)].id
    {
      hide Stored, Allocated, LeavesOK, Walkable, Descend;
      assert Strays(pool.nodes, root, |levels| - 1, levels[0], gap, key);
    }

    // -------------------------------------------------------------- deletion

    /** Removes the entry from its leaf and rewrites the page if something was removed. */
    method DeleteAt(page: PageId, key: Key, rid: RID, ghost j: nat) returns (deleted: bool)
      requires Valid() && root != INVALID_PAGE_ID && Covers(levels[0], j, key) && page == levels[0][j].id
      requires LeafOK(pool.nodes, levels[0], j)
      modifies pool`pages, pool`nodes, pool`unannounced
      ensures Valid() && deleted == (Entry(key, rid) in Seen(old(pool.nodes), levels[0], key))
      ensures Removed(old(Contents()), Contents(), Entry(key, rid), deleted)
      ensures LookupComplete(old(pool.nodes), levels[0], key) ==>
        && deleted == (Entry(key, rid) in old(Contents()))
        && Contents() == RemoveFirst(old(Contents()), Entry(key, rid))
      ensures Ordered(old(pool.nodes), levels[0]) ==> Ordered(pool.nodes, levels[0])
      ensures NoStraddle(old(pool.nodes), levels[0]) ==> NoStraddle(pool.nodes, levels[0])
      ensures pool.unannounced == old(pool.unannounced) + if deleted then {page} else {}
      ensures pool.pages.Keys == old(pool.pages.Keys)
    {
      hide Stored, Allocated, HeldPages, Structure, Ordered, WeaklyOrdered, NoStraddle, Entries, RemoveFirst;
      hide LookupComplete, Seen, Removed;
      ghost var e := Entry(key, rid);
      ghost var before := pool.nodes;
      var leaf := pool.ReadLeaf(page);
      LeafSorted(before, levels[0], j);
      deleted := leaf.Delete(key, rid);
      RemoveFirstShrinks(before[page].entries, e);
      if deleted {
        PageOf(pool.pages, before, page);
        pool.WriteLeaf(page, leaf);
      } else {
        RemoveFirstAbsent(before[page].entries, e);
        assert pool.nodes == before[page := before[page]];
      }
      LeafLoses(before, pool.nodes, root, levels, rank, j, e, pool.nodes[page]);
    }

    /** Removes one copy of the entry if a lookup of its key reads one; no node is ever merged. */
    method Delete(key: Key, rid: RID) returns (deleted: bool)
      requires Valid() && pool.Held() < pool.frames
      requires pool.unannounced == {}
      modifies pool
      ensures Valid() && pool.pins == old(pool.pins)
      ensures deleted == (Entry(key, rid) in old(Reached(key)))
      ensures Removed(old(Contents()), Contents(), Entry(key, rid), deleted)
      ensures old(FindsAll(key)) ==>
        && deleted == (Entry(key, rid) in old(Contents()))
        && Contents() == RemoveFirst(old(Contents()), Entry(key, rid))
      ensures old(WellFormed()) ==> WellFormed()
      ensures old(LookupsComplete()) ==> LookupsComplete()
      ensures pool.Spare() == old(pool.Spare()) && pool.pages.Keys == old(pool.pages.Keys)
      ensures pool.unannounced == {}
    {
      hide Stored, Allocated, HeldPages, Structure, Ordered, WeaklyOrdered, NoStraddle, Entries, RemoveFirst;
      hide Seen, Range, LookupsComplete, Removed, Within, Walkable, Descend, Covers, CoverOf;
      CompleteWithoutStraddler();
      if root == INVALID_PAGE_ID {
        NothingRemoved(Entry(key, rid));
        return false;
      }
      ghost var j := SearchEnds(key);
      var page := FindLeafPage(key);
      deleted := DeleteAt(page, key, rid, j);
      pool.Unpin(page, deleted);
      assert pool.pins == old(pool.pins);
      CompleteWithoutStraddler();
    }

    // -------------------------------------------------------------- lookup

    /** All RIDs of a key in one pinned leaf, and the leaf after it. */
    method FindInPage(page: PageId, key: Key) returns (found: seq<RID>, next: PageId)
      requires pool.Valid() && page in pool.nodes && pool.nodes[page].Leaf? && Sorted(pool.nodes[page].entries)
      ensures found == RidsOf(Range(LeafEntries(pool.nodes, page), key, key)) && next == pool.nodes[page].next
    {
      hide Stored, Allocated, HeldPages, Range, RidsOf;
      var leaf := pool.ReadLeaf(page);
      found := leaf.FindAll(key);
      next := leaf.next;
    }

    /** Whether the first entry of a leaf has the key. */
    method StartsWith(page: PageId, key: Key) returns (b: bool)
      requires pool.Valid() && page in pool.nodes && pool.nodes[page].Leaf?
      ensures b <==> pool.nodes[page].entries != [] && pool.nodes[page].entries[0].key == key
    {
      hide Stored, Allocated;
      var leaf := pool.ReadLeaf(page);
      b := leaf.numKeys > 0 && leaf.keys[0] == key;
    }

    /** The matches in one more leaf, if its first key is the one looked for. */
    method MatchesIn(page: PageId, key: Key, ghost m: nat) returns (same: bool, found: seq<RID>, next: PageId)
      requires Valid() && root != INVALID_PAGE_ID && m < |levels[0]| && page == levels[0][m].id
      requires pool.Held() < pool.frames
      requires pool.unannounced == {}
      modifies pool`pins, pool`unannounced
      ensures pool.pins == old(pool.pins)
      ensures same <==> StartsAt(pool.nodes, page, key)
      ensures same ==> found == RidsOf(Range(LeafEntries(pool.nodes, page), key, key))
      ensures same ==> next == if m + 1 < |levels[0]| then levels[0][m + 1].id else INVALID_PAGE_ID
      ensures pool.unannounced == {}
    {
      hide Stored, Allocated, HeldPages, Structure, WeaklyOrdered, Range, RidsOf;
      LeafIndex(root, pool.nodes, levels, rank, m);
      PageOf(pool.pages, pool.nodes, page);
      var ok := pool.Fetch(page);
      same := StartsWith(page, key);
      if same {
        LeafSorted(pool.nodes, levels[0], m);
        found, next := FindInPage(page, key);
      } else {
        found, next := [], INVALID_PAGE_ID;
      }
      pool.Unpin(page, false);
      assert pool.pins == old(pool.pins);
    }

    /** If there are matches, follows the chain while leaves start with the key, to the first one that does not. */
    method FollowDuplicates(first: seq<RID>, start: PageId, key: Key, ghost j: nat)
      returns (results: seq<RID>, ghost m: nat)
      requires pool.Valid() && pool.Held() < pool.frames && pool.unannounced == {}
      requires first != [] ==> Valid() && root != INVALID_PAGE_ID && j < |levels[0]|
      requires first != [] ==> first == RidsOf(Range(Entries(pool.nodes, levels[0][j..j + 1]), key, key))
      requires first != [] ==> start == if j + 1 < |levels[0]| then levels[0][j + 1].id else INVALID_PAGE_ID
      modifies pool`pins, pool`unannounced
      ensures pool.pins == old(pool.pins) && pool.unannounced == {}
      ensures first == [] ==> results == [] && m == j + 1
      ensures first != [] ==>
        && j < m <= |levels[0]| && results == RidsOf(Range(Entries(pool.nodes, levels[0][j..m]), key, key))
        && (forall q :: j < q < m ==> StartsAt(pool.nodes, levels[0][q].id, key))
        && (m < |levels[0]| ==> !StartsAt(pool.nodes, levels[0][m].id, key))
    {
      hide Stored, Allocated, HeldPages, Structure, WeaklyOrdered, Range, RidsOf, Entries, StartsAt;
      m := j + 1;
      var next := start;
      results := first;
      ghost var leaves := if first != [] then levels[0] else [];
      while next != INVALID_PAGE_ID && results != []
        invariant pool.pins == old(pool.pins) && pool.unannounced == {}
        invariant first == [] ==> results == [] && m == j + 1
        invariant first != [] ==> results != [] && j < m <= |leaves|
        invariant first != [] ==> next == if m < |leaves| then leaves[m].id else INVALID_PAGE_ID
        invariant first != [] ==> results == RidsOf(Range(Entries(pool.nodes, leaves[j..m]), key, key))
        invariant first != [] ==> forall q :: j < q < m ==> StartsAt(pool.nodes, leaves[q].id, key)
        decreases |leaves| - m
        modifies pool`pins, pool`unannounced
      {
        LeafIndex(root, pool.nodes, levels, rank, m);
        var same, more, after := MatchesIn(next, key, m);
        if !same {
          break;
        }
        ScanNext(pool.nodes, leaves, j, m, key, key);
        RidsConcat(Range(Entries(pool.nodes, leaves[j..m]), key, key),
                   Range(LeafEntries(pool.nodes, leaves[m].id), key, key));
        results, next := results + more, after;
        m := m + 1;
      }
      if first != [] {
        LeafIndex(root, pool.nodes, levels, rank, m);
      }
    }

    /** The search for key ends in a leaf without an entry under it. */
    ghost predicate Misses(key: Key)
      reads this, pool
    {
      Walks(key) && Range(LeafEntries(pool.nodes, Ends(key)), key, key) == []
    }

    /** The RIDs of the entries under a key in the leaf its search ends in: all of them if none stands further left. */
    method Lookup(key: Key) returns (results: seq<RID>)
      requires (Valid() || Misses(key)) && pool.Held() < pool.frames
      requires pool.unannounced == {}
      modifies pool`pins, pool`unannounced
      ensures pool.pins == old(pool.pins)
      ensures Valid() ==> results == RidsOf(Reached(key))
      ensures Valid() ==> exists missed :: Range(Contents(), key, key) == missed + Reached(key)
      ensures Valid() ==> (FindsAll(key) <==> results == RidsOf(Range(Contents(), key, key)))
      ensures Misses(key) ==> results == []
      ensures pool.unannounced == {}
    {
      hide Stored, Allocated, HeldPages, Structure, Ordered, WeaklyOrdered, Entries, Range, RidsOf, Covers, Seen;
      hide Walkable, Descend;
      RidsNone();
      if root == INVALID_PAGE_ID {
        RangeNone([], key, key);
        assert Range(Contents(), key, key) == [] + Reached(key);
        return [];
      }
      ghost var j := 0;
      if Valid() {
        j := SearchEnds(key);
      }
      var page := FindLeafPage(key);
      WalkHere(pool.pages, pool.nodes, page, key, 0);
      var first, next := FindInPage(page, key);
      pool.Unpin(page, false);
      assert pool.pins == old(pool.pins);
      if Valid() {
        CoversIn(levels[0], j, key);
        LookupTail(pool.nodes, levels[0], j, j + 1, key);
      }
      ghost var m;
      results, m := FollowDuplicates(first, next, key, j);
      if Valid() {
        LookupTail(pool.nodes, levels[0], j, m, key);
        LookupContents(pool.nodes, levels[0], j, key);
        ghost var missed := Range(Entries(pool.nodes, levels[0][..j]), key, key);
        assert Range(Contents(), key, key) == missed + Reached(key);
        RidsConcat(missed, Reached(key));
      }
    }

    // -------------------------------------------------------------- range scan

    /** The part of a range in one pinned leaf, whether the scan is over, and the leaf after it. */
    method ScanPage(page: PageId, low: Key, high: Key, ghost m: nat) returns (part: seq<Entry>, past: bool,
                    next: PageId)
      requires Valid() && root != INVALID_PAGE_ID && m < |levels[0]| && page == levels[0][m].id
      ensures part == Range(LeafEntries(pool.nodes, page), low, high)
      ensures past ==> exists e :: e in LeafEntries(pool.nodes, page) && high < e.key
      ensures next == if m + 1 < |levels[0]| then levels[0][m + 1].id else INVALID_PAGE_ID
      ensures next != INVALID_PAGE_ID ==> next in pool.pages
      ensures m + 1 < |levels[0]| ==> next != INVALID_PAGE_ID
    {
      hide Stored, Allocated, HeldPages, Structure, WeaklyOrdered, Range;
      LeafIndex(root, pool.nodes, levels, rank, m);
      LeafIndex(root, pool.nodes, levels, rank, m + 1);
      var leaf := pool.ReadLeaf(page);
      LeafSorted(pool.nodes, levels[0], m);
      part, past := ScanLeaf(leaf, low, high);
      next := leaf.next;
      PagesOf(pool.pages, pool.nodes);
    }

    /**
     The entries with low <= key <= high in key order; what may be missing at the front are the entries with key low
     that a lookup of low misses as well.
     */
    method RangeScan(low: Key, high: Key) returns (results: seq<Entry>)
      requires Valid() && pool.Held() < pool.frames
      requires pool.unannounced == {}
      modifies pool`pins, pool`unannounced
      ensures pool.pins == old(pool.pins)
      ensures exists missed ::
        Range(Contents(), low, high) == missed + results && forall e :: e in missed ==> e.key == low
      ensures results == Range(Contents(), low, high) <==> high < low || FindsAll(low)
      ensures pool.unannounced == {}
    {
      hide Stored, Allocated, HeldPages, Structure, Ordered, WeaklyOrdered, Entries, Range, Covers, Seen;
      results := [];
      if root == INVALID_PAGE_ID {
        RangeNone([], low, high);
        RangeNone([], low, low);
        assert Range(Contents(), low, high) == [] + results;
        return;
      }
      ghost var j := SearchEnds(low);
      var page := FindLeafPage(low);
      CoversIn(levels[0], j, low);
      ScanStart(pool.nodes, levels[0], j, low, high);
      results := ScanChain(page, j, low, high, old(pool.pins));
      ghost var missed := Range(Entries(pool.nodes, levels[0][..j]), low, high);
      assert Range(Contents(), low, high) == missed + results;
    }

    /**
     Reads the chain from the pinned leaf on until a key is too large or the chain ends, and releases the last
     leaf.
     */
    method ScanChain(start: PageId, ghost j: nat, low: Key, high: Key, ghost base: multiset<PageId>)
      returns (results: seq<Entry>)
      requires Valid() && root != INVALID_PAGE_ID && j < |levels[0]| && start == levels[0][j].id
      requires pool.pins == base + multiset{start} && |HeldPages(base)| < pool.frames
      requires pool.unannounced == {}
      modifies pool`pins, pool`unannounced
      ensures pool.pins == base && results == Range(Entries(pool.nodes, levels[0][j..]), low, high)
      ensures pool.unannounced == {}
    {
      hide Stored, Allocated, HeldPages, Structure, WeaklyOrdered, Entries, Range;
      ghost var leaves, m := levels[0], j;
      var page := start;
      results := [];
      assert leaves[j..j] == [];
      NoEntries(pool.nodes);
      RangeNone([], low, high);
      while true
        invariant j <= m < |leaves| && page == leaves[m].id && pool.pins == base + multiset{page}
        invariant pool.unannounced == {}
        invariant results == Range(Entries(pool.nodes, leaves[j..m]), low, high)
        decreases |leaves| - m
        modifies pool`pins, pool`unannounced
      {
        var part, past, next := ReadAndRelease(page, low, high, m, base);
        ScanNext(pool.nodes, leaves, j, m, low, high);
        results := results + part;
        if past {
          ScanStop(pool.nodes, leaves, j, m, low, high);
          return;
        }
        if next == INVALID_PAGE_ID {
          assert leaves[j..m + 1] == leaves[j..];
          return;
        }
        m, page := m + 1, next;
        var ok := pool.Fetch(page);
      }
    }

    method ReadAndRelease(page: PageId, low: Key, high: Key, ghost m: nat, ghost base: multiset<PageId>)
      returns (part: seq<Entry>, past: bool, next: PageId)
      requires Valid() && root != INVALID_PAGE_ID && m < |levels[0]| && page == levels[0][m].id
      requires pool.pins == base + multiset{page}
      requires pool.unannounced == {}
      modifies pool`pins, pool`unannounced
      ensures pool.pins == base && part == Range(LeafEntries(pool.nodes, page), low, high)
      ensures past ==> exists e :: e in LeafEntries(pool.nodes, page) && high < e.key
      ensures next == if m + 1 < |levels[0]| then levels[0][m + 1].id else INVALID_PAGE_ID
      ensures next != INVALID_PAGE_ID ==> next in pool.pages
      ensures m + 1 < |levels[0]| ==> next != INVALID_PAGE_ID
      ensures pool.unannounced == {}
    {
      hide Stored, Allocated, HeldPages, Structure, WeaklyOrdered, Range;
      part, past, next := ScanPage(page, low, high, m);
      pool.Unpin(page, false);
      assert pool.pins == base;
    }

    /** The part of the range in one leaf, and whether a key above it was met. */
    static method ScanLeaf(leaf: LeafNode, low: Key, high: Key) returns (part: seq<Entry>, past: bool)
      requires leaf.Valid() && Sorted(leaf.Entries())
      ensures part == Range(leaf.Entries(), low, high)
      ensures past ==> exists e :: e in leaf.Entries() && high < e.key
    {
      hide Range;
      var s := leaf.Entries();
      var start := leaf.FindKeyPosition(low);
      part, past := [], false;
      RangeNone(s[..start], low, high);
      for i := start to leaf.numKeys
        invariant part == Range(s[..i], low, high)
      {
        assert s[i] == Entry(leaf.keys[i], leaf.rids[i]);
        if leaf.keys[i] > high {
          RangeNone(s[i..], low, high);
          assert s == s[..i] + s[i..];
          RangeConcat(s[..i], s[i..], low, high);
          assert s[i] in s;
          return part, true;
        }
        RangeNext(s, i, low, high);
        part := part + [Entry(leaf.keys[i], leaf.rids[i])];
      }
      assert s[..leaf.numKeys] == s;
    }
  }

  lemma PrefixSame(a: seq<Level>, b: seq<Level>, c: seq<Level>, up: nat)
    requires 0 < up < |b| == |c| && up < |a| && a[..up + 1] == b[..up + 1] && b[..up] == c[..up]
    ensures a[..up] == c[..up] && a[0] == b[0] == c[0]
  {
  }

  lemma InsertedAlone(e: Entry)
    ensures SortedInsert([], e) == [e] && Zip([], []) == [] && Inserted([], [e], e)
  {
  }

  lemma {:induction false} NothingRemoved(e: Entry)
    ensures RemoveFirst([], e) == [] && Removed([], [], e, false)
  {
  }

  lemma {:induction false} FirstLeaf(nodes: Nodes, root: PageId, e: Entry)
    requires root != INVALID_PAGE_ID && root in nodes && nodes[root] == Leaf(INVALID_PAGE_ID, INVALID_PAGE_ID, [e])
    ensures Structure(nodes, root, [[Ref(0, root)]], map[root := 0])
    ensures Ordered(nodes, [Ref(0, root)]) && Entries(nodes, [Ref(0, root)]) == [e]
  {
  }

  lemma LeafUnique(nodes: Nodes, root: PageId, levels: seq<Level>, rank: map<PageId, nat>)
    requires Structure(nodes, root, levels, rank)
    ensures |levels| > 0 && UniqueIds(levels[0]) && forall r :: r in levels[0] ==> r.id in nodes
  {
    AllPresent(nodes, levels, -1);
  }

  lemma LeafIndex(root: PageId, nodes: Nodes, levels: seq<Level>, rank: map<PageId, nat>, m: nat)
    requires Structure(nodes, root, levels, rank)
    ensures m < |levels[0]| ==> LeafOK(nodes, levels[0], m)
    ensures forall i :: 0 <= i < |levels[0]| ==> levels[0][i].id != INVALID_PAGE_ID
  {
  }

  /** The first entry of the leaf has the key. */
  predicate StartsAt(nodes: Nodes, id: PageId, key: Key) {
    var s := LeafEntries(nodes, id);
    s != [] && s[0].key == key
  }

  lemma {:induction false} LeafOver(nodes: Nodes, leaves: Level, j: nat, key: Key)
    requires WeaklyOrdered(nodes, leaves) && Covers(leaves, j, key) && LeafOK(nodes, leaves, j)
    ensures leaves[CoverOf(leaves, key)] == leaves[j]
    ensures LeafEntries(nodes, leaves[j].id) == nodes[leaves[j].id].entries
  {
    CoverOfIs(leaves, j, key);
  }

  lemma CoversIn(leaves: Level, j: nat, key: Key)
    requires Covers(leaves, j, key)
    ensures j < |leaves|
  {
  }

  lemma {:induction false} LeafTakes(nodes: Nodes, nodes': Nodes, root: PageId, levels: seq<Level>,
                                     rank: map<PageId, nat>, j: nat, e: Entry, n: Node)
    requires Structure(nodes, root, levels, rank) && WeaklyOrdered(nodes, levels[0]) && Covers(levels[0], j, e.key)
    requires LeafOK(nodes, levels[0], j) && nodes' == nodes[levels[0][j].id := n]
    requires n.Leaf? && |n.entries| <= LEAF_MAX && n.entries == SortedInsert(nodes[levels[0][j].id].entries, e)
    requires n.parent == nodes[levels[0][j].id].parent && n.next == nodes[levels[0][j].id].next
    ensures Structure(nodes', root, levels, rank) && WeaklyOrdered(nodes', levels[0])
    ensures Ordered(nodes', levels[0]) <==> Ordered(nodes, levels[0])
    ensures NoStraddle(nodes', levels[0]) <==> NoStraddle(nodes, levels[0])
    ensures Inserted(Entries(nodes, levels[0]), Entries(nodes', levels[0]), e)
    ensures LookupComplete(nodes, levels[0], e.key) ==>
      Entries(nodes', levels[0]) == SortedInsert(Entries(nodes, levels[0]), e)
    ensures HalfFull(nodes, levels[0]) ==> HalfFull(nodes', levels[0])
  {
    hide Structure, Entries, SortedInsert, Ordered, WeaklyOrdered, NoStraddle, HalfFull, LookupComplete, Inserted;
    LeafUnique(nodes, root, levels, rank);
    LeafChanges(nodes, nodes', root, levels, rank, j, n);
    OthersSame(nodes, nodes', levels[0], j);
    HalfFullTakes(nodes, nodes', levels[0], j, e);
    InsertOrdered(nodes, nodes', levels[0], j, e);
    EntriesOne(nodes', levels[0][j]);
    InsertContents(nodes, nodes', levels[0], j, e, [levels[0][j]]);
    LevelAround(levels[0], j);
  }

  lemma {:induction false} LeafLoses(nodes: Nodes, nodes': Nodes, root: PageId, levels: seq<Level>,
                                     rank: map<PageId, nat>, j: nat, e: Entry, n: Node)
    requires Structure(nodes, root, levels, rank) && WeaklyOrdered(nodes, levels[0]) && Covers(levels[0], j, e.key)
    requires LeafOK(nodes, levels[0], j) && nodes' == nodes[levels[0][j].id := n]
    requires n.Leaf? && |n.entries| <= LEAF_MAX && n.entries == RemoveFirst(nodes[levels[0][j].id].entries, e)
    requires n.parent == nodes[levels[0][j].id].parent && n.next == nodes[levels[0][j].id].next
    ensures Structure(nodes', root, levels, rank) && WeaklyOrdered(nodes', levels[0])
    ensures Ordered(nodes, levels[0]) ==> Ordered(nodes', levels[0])
    ensures NoStraddle(nodes, levels[0]) ==> NoStraddle(nodes', levels[0])
    ensures e in nodes[levels[0][j].id].entries <==> e in Seen(nodes, levels[0], e.key)
    ensures Removed(Entries(nodes, levels[0]), Entries(nodes', levels[0]), e, e in Seen(nodes, levels[0], e.key))
    ensures LookupComplete(nodes, levels[0], e.key) ==>
      && Entries(nodes', levels[0]) == RemoveFirst(Entries(nodes, levels[0]), e)
      && (e in Entries(nodes, levels[0]) <==> e in Seen(nodes, levels[0], e.key))
  {
    hide Structure, Entries, RemoveFirst, Ordered, WeaklyOrdered, NoStraddle, LookupComplete, Seen, Removed;
    LeafUnique(nodes, root, levels, rank);
    LeafChanges(nodes, nodes', root, levels, rank, j, n);
    OthersSame(nodes, nodes', levels[0], j);
    DeleteOrdered(nodes, nodes', levels[0], j, e);
    DeleteContents(nodes, nodes', levels[0], j, e);
  }

  lemma {:induction false} RemoveFirstShrinks(s: seq<Entry>, e: Entry)
    ensures |RemoveFirst(s, e)| <= |s|
  {
    RemoveFirstMultiset(s, e);
    assert |multiset(RemoveFirst(s, e))| <= |multiset(s)|;
  }

  lemma {:induction false} RidsConcat(a: seq<Entry>, b: seq<Entry>)
    ensures RidsOf(a + b) == RidsOf(a) + RidsOf(b)
  {
  }

  /** Everything a leaf split leaves behind for the cascade, and what it did to order and contents. */
  lemma {:induction false} LeafIsSplit(nodes: Nodes, nodes': Nodes, root: PageId, levels: seq<Level>,
                                       levels': seq<Level>, rank: map<PageId, nat>, j: nat, l: Ref, x: Ref, e: Entry,
                                       all: seq<Entry>, course: Option<Gap>)
    requires Structure(nodes, root, levels, rank) && WeaklyOrdered(nodes, levels[0]) && Covers(levels[0], j, e.key)
    requires Course(nodes, levels, 0, e.key, course)
    requires l == levels[0][j] && LeafOK(nodes, levels[0], j) && |nodes[l.id].entries| == LEAF_MAX
    requires all == SortedInsert(nodes[l.id].entries, e) && x.lo == all[LEAF_MID].key
    requires LeafCut(nodes, nodes', l.id, x.id, all)
    requires levels' == levels[0 := InsertAt(levels[0], j + 1, x)]
    ensures Pending(nodes', root, levels', rank[x.id := 0], 0, j)
    ensures Fits(levels', 0, j, e.key) && Heads(nodes', levels', 0, j, e.key, course)
    ensures levels'[0][j] == l && levels'[0][j + 1] == x && levels'[0][0] == levels[0][0]
    ensures WeaklyOrdered(nodes', levels'[0])
    ensures Ordered(nodes', levels'[0]) <==> Ordered(nodes, levels[0]) && !Cuts(nodes[l.id].entries, e)
    ensures NoStraddle(nodes', levels'[0]) <==> NoStraddle(nodes, levels[0]) && !Cuts(nodes[l.id].entries, e)
    ensures Inserted(Entries(nodes, levels[0]), Entries(nodes', levels'[0]), e)
    ensures LookupComplete(nodes, levels[0], e.key) ==>
      Entries(nodes', levels'[0]) == SortedInsert(Entries(nodes, levels[0]), e)
    ensures HalfFull(nodes, levels[0]) ==> HalfFull(nodes', levels'[0])
  {
    hide Structure, Pending, Entries, Fits, Heads, Course;
    hide Flatten, HalfFull, LookupComplete, Inserted, NoStraddle, Ordered;
    LeafUnique(nodes, root, levels, rank);
    LeafSplits(nodes, nodes', root, levels, levels', rank, j, l, x, all);
    CutOthers(nodes, nodes', levels[0], j, l, x, all);
    HalfFullSplit(nodes, nodes', levels[0], levels'[0], j, all, x);
    SplitOrderedIff(nodes, nodes', levels[0], levels'[0], j, e, all, x);
    SplitCut(nodes, levels[0], j, e, all);
    CutContents(nodes, nodes', levels[0], levels'[0], j, l, x, e, all);
    FitsCut(nodes, nodes', root, levels, levels', rank, j, l, x, all, e.key, course);
  }

  lemma CutOthers(nodes: Nodes, nodes': Nodes, leaves: Level, j: nat, l: Ref, x: Ref, all: seq<Entry>)
    requires j < |leaves| && l == leaves[j] && LeafCut(nodes, nodes', l.id, x.id, all) && x.lo == all[LEAF_MID].key
    requires UniqueIds(leaves) && forall r :: r in leaves ==> r.id in nodes
    ensures LeafHalved(nodes, nodes', leaves, InsertAt(leaves, j + 1, x), j, all, x)
    ensures forall r :: r in leaves[..j] || r in leaves[j + 1..] ==>
      LeafEntries(nodes', r.id) == LeafEntries(nodes, r.id)
  {
  }

  lemma {:induction false} CutContents(nodes: Nodes, nodes': Nodes, leaves: Level, leaves': Level, j: nat, l: Ref,
                                       x: Ref, e: Entry, all: seq<Entry>)
    requires WeaklyOrdered(nodes, leaves) && Covers(leaves, j, e.key)
    requires l == leaves[j] && leaves' == InsertAt(leaves, j + 1, x)
    requires LeafHalved(nodes, nodes', leaves, leaves', j, all, x) && all == SortedInsert(LeafEntries(nodes, l.id), e)
    requires forall r :: r in leaves[..j] || r in leaves[j + 1..] ==>
      LeafEntries(nodes', r.id) == LeafEntries(nodes, r.id)
    ensures Inserted(Entries(nodes, leaves), Entries(nodes', leaves'), e)
    ensures LookupComplete(nodes, leaves, e.key) ==> Entries(nodes', leaves') == SortedInsert(Entries(nodes, leaves), e)
  {
    hide Entries, WeaklyOrdered, SortedInsert, LookupComplete, Inserted;
    EntriesTwo(nodes', l, x);
    assert all[..LEAF_MID] + all[LEAF_MID..] == all;
    InsertContents(nodes, nodes', leaves, j, e, [l, x]);
    InsertAsMiddle(leaves, j, x);
  }

  lemma RootedFresh(nodes: Nodes, nodes': Nodes, root: PageId, x: Ref, q: PageId)
    requires Rooted(nodes, nodes', root, x, q)
    ensures q != INVALID_PAGE_ID
  {
  }

  lemma SameLeavesChain(a: Nodes, b: Nodes, c: Nodes, leaves: Level)
    requires SameLeaves(a, b, leaves) && SameLeaves(b, c, leaves)
    ensures SameLeaves(a, c, leaves)
  {
  }

  /** What a parent's split leaves to do one level up. */
  lemma {:induction false} SplitWaits(nodes: Nodes, nodes': Nodes, root: PageId, levels: seq<Level>,
                                      levels': seq<Level>, rank: map<PageId, nat>, k: nat, up: nat, i: nat, j: nat,
                                      c: nat, p: Ref, l: Ref, x: Ref, n: Node, goal: Key, course: Option<Gap>)
    requires Pending(nodes, root, levels, rank, k, i) && Fits(levels, k, i, goal)
    requires Heads(nodes, levels, k, i, goal, course)
    requires up == k + 1 < |levels| && At(nodes, levels[up], i, j, c) && IsInternal(nodes, levels[up][j].id)
    requires p == levels[up][j] && l == levels[k][i + 1] && n == WithChild(nodes[p.id], c, l.lo, l.id)
    requires |nodes[p.id].keys| == INTERNAL_MAX && Halved(nodes, nodes', p.id, x.id, n) && x.lo == n.keys[MID]
    requires levels' == levels[up := InsertAt(levels[up], j + 1, x)]
    ensures Pending(nodes', root, levels', rank[x.id := up], up, j)
    ensures Fits(levels', up, j, goal) && Heads(nodes', levels', up, j, goal, course)
    ensures levels'[up][j] == p && levels'[up][j + 1] == x && levels'[0] == levels[0]
    ensures SameLeaves(nodes, nodes', levels[0])
    ensures WeaklyOrdered(nodes, levels[0]) ==> WeaklyOrdered(nodes', levels[0])
  {
    hide Pending, Fits, Heads, Course, Lands, Flatten, Halved, WeaklyOrdered, SameLeaves;
    RoomDecides(nodes, root, levels, rank, k, up, i, j, c, goal, course);
    ParentSplits(nodes, nodes', root, levels, levels', rank, k, up, i, j, c, p, l, x, n);
    FitsUp(nodes, nodes', root, levels, levels', rank, k, up, i, j, c, p, l, x, n, goal, course);
    LeavesStored(nodes, root, levels, rank, k, i);
    SameLeavesHalved(nodes, nodes', levels[0], p.id, x.id, n);
    OrderFrame(nodes, nodes', levels[0]);
  }

  lemma LeavesStored(nodes: Nodes, root: PageId, levels: seq<Level>, rank: map<PageId, nat>, k: nat, i: nat)
    requires Pending(nodes, root, levels, rank, k, i)
    ensures forall r :: r in levels[0] ==> r.id in nodes
  {
    forall r | r in levels[0] ensures r.id in nodes {
      var a :| 0 <= a < |levels[0]| && levels[0][a] == r;
      assert LeafOK(nodes, levels[0], a);
    }
  }

  /** Only the root has no parent. */
  lemma TopParent(nodes: Nodes, root: PageId, levels: seq<Level>, rank: map<PageId, nat>, k: nat, i: nat, goal: Key)
    requires Pending(nodes, root, levels, rank, k, i) && Fits(levels, k, i, goal)
    ensures k < |levels| && i + 1 < |levels[k]| && levels[k][i].id in nodes
    ensures nodes[levels[k][i].id].parent == INVALID_PAGE_ID <==> k == |levels| - 1
  {
    if k < |levels| - 1 {
      var j, c := FindParent(nodes, root, levels, rank, k, k + 1, i, goal);
    }
  }

  lemma RootedBy(before: Nodes, after: Nodes, left: PageId, x: Ref, q: PageId, made: Node)
    requires q !in before && q != INVALID_PAGE_ID && left in before && x.id in before
    requires made.Internal? && made.parent == INVALID_PAGE_ID && made.keys == [x.lo] && made.children == [left, x.id]
    requires var one := before[q := made][left := before[left].(parent := q)];
             after == one[x.id := one[x.id].(parent := q)]
    ensures Rooted(before, after, left, x, q)
  {
  }

  lemma ReparentNone(nodes: Nodes, p: PageId)
    ensures Reparent(nodes, [], p) == nodes
  {
  }

  lemma ReparentOne(nodes: Nodes, s: seq<PageId>, x: PageId, p: PageId)
    requires x in nodes
    ensures Reparent(nodes, s + [x], p) == Reparent(nodes, s, p)[x := Reparent(nodes, s, p)[x].(parent := p)]
  {
  }

  lemma PagesOf(pages: map<PageId, seq<Byte>>, nodes: Nodes)
    requires Stored(pages, nodes)
    ensures forall id :: id in nodes ==> id in pages
  {
  }

  lemma HalvedBy(before: Nodes, adopted: Nodes, after: Nodes, p: PageId, q: PageId, n: Node)
    requires p in before && q !in before && q != INVALID_PAGE_ID
    requires n.Internal? && |n.keys| == INTERNAL_MAX + 1 && |n.children| == |n.keys| + 1
    requires n.parent == before[p].parent
    requires adopted == Reparent(before, n.children[MID + 1..], q)
    requires p in after && q in after && after == adopted[p := after[p]][q := after[q]]
    requires after[p].Internal? && after[p].parent == n.parent
    requires after[p].keys == n.keys[..MID] && after[p].children == n.children[..MID + 1]
    requires after[q].Internal? && after[q].parent == n.parent
    requires after[q].keys == n.keys[MID + 1..] && after[q].children == n.children[MID + 1..]
    ensures Halved(before, after, p, q, n)
  {
  }

  lemma PageOf(pages: map<PageId, seq<Byte>>, nodes: Nodes, id: PageId)
    requires Stored(pages, nodes) && id in nodes
    ensures id in pages
  {
  }

  /** The node a search stands on. */
  lemma {:induction false} WalkHere(pages: map<PageId, seq<Byte>>, nodes: Nodes, id: PageId, key: Key, h: nat)
    requires Stored(pages, nodes) && Walkable(nodes, id, key, h)
    ensures id in pages && id in nodes && (nodes[id].Leaf? <==> h == 0)
    ensures h == 0 ==> Descend(nodes, id, key, h) == id && Sorted(nodes[id].entries)
    ensures h > 0 ==> IsInternal(nodes, id) && NonDecreasing(nodes[id].keys)
  {
  }
}

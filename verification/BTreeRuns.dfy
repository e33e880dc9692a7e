/** A run of insertions after which a lookup no longer finds all that is stored. */
module BTreeRuns {
  import opened Base
  import opened BTreeLevels
  import opened BTreeGrowth
  import opened BTreeOrder
  import opened BPlusTrees
  import opened SortedEntries
  import opened IndexPool

  /** A tree of one leaf whose entries all have this key. */
  ghost predicate OneKey(tree: BPlusTree, key: Key, n: nat)
    reads tree, tree.pool
  {
    && tree.Valid() && |tree.levels| <= 1 && |tree.Contents()| == n
    && forall e :: e in tree.Contents() ==> e.key == key
  }

  /** In a tree of one leaf, that leaf holds everything and takes the key. */
  lemma LoneLeaf(tree: BPlusTree, key: Key, rid: RID, n: nat)
    requires OneKey(tree, key, n)
    ensures tree.Splits(key) <==> n >= LEAF_MAX
    ensures tree.CutsRun(key, rid) <==> n >= LEAF_MAX
    ensures !tree.Misplaces(key)
  {
    hide Stored, Allocated, Structure, WeaklyOrdered, Entries, CoverOf, SortedInsert;
    tree.NeverMisplaces(key);
    if tree.root != INVALID_PAGE_ID {
      var leaves := tree.levels[0];
      OneLevel(tree.pool.nodes, tree.root, tree.levels, tree.rank);
      assert leaves == [leaves[0]];
      EntriesOne(tree.pool.nodes, leaves[0]);
      assert CoverOf(leaves, key) == 0;
      if n >= LEAF_MAX {
        EqualRunIsCut(tree.Contents(), Entry(key, rid));
      }
    }
  }

  lemma OneLevel(nodes: Nodes, root: PageId, levels: seq<Level>, rank: map<PageId, nat>)
    requires Structure(nodes, root, levels, rank) && |levels| <= 1
    ensures |levels[0]| == 1
  {
  }

  /** Where all entries have one key, only that key can be looked up incompletely. */
  lemma {:induction false} OnlyThisKey(tree: BPlusTree, key: Key)
    requires tree.Valid() && forall e :: e in tree.Contents() ==> e.key == key
    ensures forall other: Key :: other != key ==> tree.FindsAll(other)
    ensures tree.LookupsComplete() <==> tree.FindsAll(key)
    ensures Range(tree.Contents(), key, key) == tree.Contents()
  {
    hide Stored, Allocated, Structure, WeaklyOrdered, Entries, Range, Seen, CoverOf;
    RangeAll(tree.Contents(), key, key);
    forall other: Key | other != key ensures tree.FindsAll(other) {
      RangeNone(tree.Contents(), other, other);
      if tree.root != INVALID_PAGE_ID {
        var leaves := tree.levels[0];
        CoverExists(leaves, other);
        LookupContents(tree.pool.nodes, leaves, CoverOf(leaves, other), other);
      }
    }
  }

  /** The entries of one key that fill a leaf; the tree finds them all. */
  method FillLeaf(pool: IndexPages, key: Key, rids: seq<RID>) returns (tree: BPlusTree)
    requires pool.Valid() && pool.Held() + 3 <= pool.frames && pool.Spare() >= 3 && |rids| <= LEAF_MAX
    requires pool.unannounced == {}
    modifies pool
    ensures fresh(tree) && tree.pool == pool && OneKey(tree, key, |rids|) && tree.LookupsComplete()
    ensures pool.pins == old(pool.pins) && pool.Spare() >= old(pool.Spare()) - 1
    ensures pool.unannounced == {}
  {
    hide Stored, Allocated, Inserted;
    tree := new BPlusTree(pool);
    tree.CompleteWithoutStraddler();
    for i := 0 to |rids|
      invariant fresh(tree) && tree.pool == pool && OneKey(tree, key, i) && tree.LookupsComplete()
      invariant pool.pins == old(pool.pins) && pool.Spare() >= old(pool.Spare()) - 1 && pool.unannounced == {}
      invariant tree.root == INVALID_PAGE_ID ==> pool.Spare() == old(pool.Spare())
    {
      AddEqual(tree, key, rids[i], i);
    }
  }

  method AddEqual(tree: BPlusTree, key: Key, rid: RID, ghost n: nat)
    requires OneKey(tree, key, n) && n < LEAF_MAX && tree.LookupsComplete()
    requires tree.pool.Held() + 3 <= tree.pool.frames && tree.pool.Spare() >= 2
    requires tree.pool.unannounced == {}
    modifies tree, tree.pool
    ensures OneKey(tree, key, n + 1) && tree.LookupsComplete() && tree.root != INVALID_PAGE_ID
    ensures tree.pool.pins == old(tree.pool.pins)
    ensures tree.pool.Spare() >= old(tree.pool.Spare()) - if old(tree.root) == INVALID_PAGE_ID then 1 else 0
    ensures tree.pool.unannounced == {}
  {
    hide Stored, Allocated, Structure, WeaklyOrdered, Entries, Seen, Range;
    LoneLeaf(tree, key, rid, n);
    ghost var before := tree.Contents();
    var ok := tree.Insert(key, rid);
    InsertedMembers(before, tree.Contents(), Entry(key, rid));
  }

  /**
   A failing run: 406 entries of one key are all found, one more and a lookup of the key loses some of them, though
   all 407 are still stored.
   */
  method LoseEqualKeys(pool: IndexPages, key: Key, rids: seq<RID>, last: RID)
    returns (tree: BPlusTree, before: seq<RID>, after: seq<RID>)
    requires pool.Valid() && pool.Held() + 3 <= pool.frames && pool.Spare() >= 3 && |rids| == LEAF_MAX
    requires pool.unannounced == {}
    modifies pool
    ensures fresh(tree) && tree.pool == pool && tree.Valid() && pool.pins == old(pool.pins)
    ensures |tree.Contents()| == LEAF_MAX + 1 && forall e :: e in tree.Contents() ==> e.key == key
    ensures |before| == LEAF_MAX && |after| < LEAF_MAX + 1 && !tree.FindsAll(key)
    ensures pool.unannounced == {}
  {
    hide Stored, Allocated, Structure, WeaklyOrdered, Entries, Seen, Range;
    tree := FillLeaf(pool, key, rids);
    before := LookupOnly(tree, key);
    CutOnce(tree, key, last);
    after := LookupOnly(tree, key);
  }

  /** Looks up the only key of a tree. */
  method LookupOnly(tree: BPlusTree, key: Key) returns (results: seq<RID>)
    requires tree.Valid() && tree.pool.Held() < tree.pool.frames
    requires forall e :: e in tree.Contents() ==> e.key == key
    requires tree.pool.unannounced == {}
    modifies tree.pool`pins, tree.pool`unannounced
    ensures tree.pool.pins == old(tree.pool.pins)
    ensures if tree.LookupsComplete() then |results| == |tree.Contents()| else |results| < |tree.Contents()|
    ensures tree.LookupsComplete() <==> tree.FindsAll(key)
    ensures tree.pool.unannounced == {}
  {
    hide Stored, Allocated, Structure, WeaklyOrdered, Entries, Seen, Range;
    OnlyThisKey(tree, key);
    results := tree.Lookup(key);
    ghost var missed :| Range(tree.Contents(), key, key) == missed + tree.Reached(key);
  }

  method CutOnce(tree: BPlusTree, key: Key, rid: RID)
    requires OneKey(tree, key, LEAF_MAX)
    requires tree.pool.Held() + 3 <= tree.pool.frames && tree.pool.Spare() >= 2
    requires tree.pool.unannounced == {}
    modifies tree, tree.pool
    ensures tree.Valid() && !tree.LookupsComplete() && tree.pool.pins == old(tree.pool.pins)
    ensures |tree.Contents()| == LEAF_MAX + 1 && forall e :: e in tree.Contents() ==> e.key == key
    ensures tree.pool.unannounced == {}
  {
    hide Stored, Allocated, Structure, WeaklyOrdered, Entries, Seen, Range;
    LoneLeaf(tree, key, rid, LEAF_MAX);
    ghost var before := tree.Contents();
    var ok := tree.Insert(key, rid);
    InsertedMembers(before, tree.Contents(), Entry(key, rid));
  }
}

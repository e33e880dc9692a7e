/** How many leaves and entries a tree of a given height has at least. */
module BTreeHeight {
  import opened Base
  import opened BTreeLevels
  import opened BTreeGrowth
  import opened BTreeOrder
  import opened SortedEntries

  const FANOUT_MIN := 254

  function Power(b: nat, n: nat): (r: nat)
    ensures b > 0 ==> r > 0
  {
    if n == 0 then 1 else b * Power(b, n - 1)
  }

  lemma {:induction false} FlattenGrows(nodes: Nodes, upper: Level, least: nat)
    requires forall r :: r in upper ==> IsInternal(nodes, r.id) && |nodes[r.id].keys| + 1 >= least
    ensures |Flatten(nodes, upper)| >= least * |upper|
  {
    if upper != [] {
      var rest := upper[1..];
      assert upper[0] in upper && |Kids(nodes, upper[0])| >= least;
      assert |Flatten(nodes, upper)| == |Kids(nodes, upper[0])| + |Flatten(nodes, rest)|;
      hide Flatten, Kids, IsInternal;
      FlattenGrows(nodes, rest, least);
      Times(least, |rest|);
    }
  }

  lemma Times(a: nat, n: nat)
    ensures a * (n + 1) == a * n + a
  {
  }

  /** Each level has at least 254 times as many nodes as the level above it, the one below the root at least two. */
  lemma {:induction false} LevelAtLeast(nodes: Nodes, root: PageId, levels: seq<Level>, rank: map<PageId, nat>, k: nat)
    requires Structure(nodes, root, levels, rank) && k <= |levels| - 2
    ensures |levels[k]| >= 2 * Power(FANOUT_MIN, |levels| - 2 - k)
    decreases |levels| - k
  {
    if k == |levels| - 2 {
      LevelFanOut(nodes, root, levels, rank, k, 2);
    } else {
      LevelAtLeast(nodes, root, levels, rank, k + 1);
      LevelFanOut(nodes, root, levels, rank, k, FANOUT_MIN);
      hide Structure;
      var p := Power(FANOUT_MIN, |levels| - 3 - k);
      assert Power(FANOUT_MIN, |levels| - 2 - k) == FANOUT_MIN * p;
      assert |levels[k]| >= FANOUT_MIN * |levels[k + 1]|;
    }
  }

  lemma LevelFanOut(nodes: Nodes, root: PageId, levels: seq<Level>, rank: map<PageId, nat>, k: nat, least: nat)
    requires Structure(nodes, root, levels, rank) && k <= |levels| - 2
    requires least == if k == |levels| - 2 then 2 else FANOUT_MIN
    ensures |levels[k]| >= least * |levels[k + 1]|
    ensures k == |levels| - 2 ==> |levels[k + 1]| == 1
  {
    hide Flatten, LeavesOK, Distinct, ParentsOK;
    var upper := levels[k + 1];
    assert Link(nodes, levels[k], upper);
    FlattenGrows(nodes, upper, least);
  }

  // ---------------------------------------------------------------- leaves that were never emptied

  /** One leaf, or each at least as full as the left half of a split. */
  predicate HalfFull(nodes: Nodes, leaves: Level) {
    |leaves| == 1 || forall i :: 0 <= i < |leaves| ==> |LeafEntries(nodes, leaves[i].id)| >= LEAF_MID
  }

  lemma {:induction false} EntriesAtLeast(nodes: Nodes, leaves: Level)
    requires forall i :: 0 <= i < |leaves| ==> |LeafEntries(nodes, leaves[i].id)| >= LEAF_MID
    ensures |Entries(nodes, leaves)| >= LEAF_MID * |leaves|
  {
    if leaves != [] {
      var rest := leaves[1..];
      forall i | 0 <= i < |rest| ensures |LeafEntries(nodes, rest[i].id)| >= LEAF_MID {
        assert rest[i] == leaves[i + 1];
      }
      EntriesAtLeast(nodes, rest);
      assert |LeafEntries(nodes, leaves[0].id)| >= LEAF_MID;
    }
  }

  lemma HalfFullTakes(nodes: Nodes, nodes': Nodes, leaves: Level, j: nat, e: Entry)
    requires j < |leaves| && LeafEntries(nodes', leaves[j].id) == SortedInsert(LeafEntries(nodes, leaves[j].id), e)
    requires forall i :: 0 <= i < |leaves| && i != j ==>
      LeafEntries(nodes', leaves[i].id) == LeafEntries(nodes, leaves[i].id)
    ensures HalfFull(nodes, leaves) ==> HalfFull(nodes', leaves)
  {
  }

  lemma HalfFullSplit(nodes: Nodes, nodes': Nodes, leaves: Level, leaves': Level, j: nat, all: seq<Entry>, x: Ref)
    requires LeafHalved(nodes, nodes', leaves, leaves', j, all, x)
    ensures HalfFull(nodes, leaves) ==> HalfFull(nodes', leaves')
  {
  }

  lemma HalfFullSame(nodes: Nodes, nodes': Nodes, leaves: Level)
    requires SameLeaves(nodes, nodes', leaves)
    ensures HalfFull(nodes, leaves) ==> HalfFull(nodes', leaves)
  {
  }
}

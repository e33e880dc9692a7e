/**
 The shape of the index: nodes by page id, read level by level from the leaves up.

 A level is the left-to-right sequence of the nodes at one height.  Each node is
 paired with its lower bound: the separator that stands to its left, 0 for the
 leftmost node.  Expanding every internal node of a level into its children gives
 the level below, so "all leaves have the same depth" and "the leaf chain is the
 in-order leaf sequence" are part of the shape.
 */
module BTreeLevels {
  import opened Base

  type Key = U32
  datatype RID = RID(pageId: PageId, slotId: U16)
  datatype Entry = Entry(key: Key, rid: RID)

  datatype Node =
    | Leaf(parent: PageId, next: PageId, entries: seq<Entry>)
    | Internal(parent: PageId, next: PageId, keys: seq<Key>, children: seq<PageId>)

  type Nodes = map<PageId, Node>

  const LEAF_MAX := 406
  const INTERNAL_MAX := 507
  const INTERNAL_MIN := 253

  datatype Ref = Ref(lo: Key, id: PageId)
  type Level = seq<Ref>

  // ---------------------------------------------------------------- expansion

  /** The children from position c on, each with the separator on its left. */
  function ExpandFrom(lo: Key, keys: seq<Key>, children: seq<PageId>, c: nat): (r: Level)
    requires |children| == |keys| + 1 && c <= |children|
    ensures |r| == |children| - c
    ensures forall m {:trigger r[m]} :: 0 <= m < |r| ==>
      r[m].id == children[c + m] && r[m].lo == if c + m == 0 then lo else keys[c + m - 1]
    decreases |children| - c
  {
    if c == |children| then []
    else [Ref(if c == 0 then lo else keys[c - 1], children[c])] + ExpandFrom(lo, keys, children, c + 1)
  }

  /** The children of an internal node, each with the separator on its left. */
  function Expand(lo: Key, keys: seq<Key>, children: seq<PageId>): (r: Level)
    requires |children| == |keys| + 1
    ensures |r| == |children|
    ensures forall c {:trigger r[c]} :: 0 <= c < |r| ==>
      r[c].id == children[c] && r[c].lo == if c == 0 then lo else keys[c - 1]
  {
    ExpandFrom(lo, keys, children, 0)
  }

  predicate IsInternal(nodes: Nodes, id: PageId) {
    id in nodes && nodes[id].Internal? && |nodes[id].children| == |nodes[id].keys| + 1
  }

  function Kids(nodes: Nodes, r: Ref): Level {
    if IsInternal(nodes, r.id) then Expand(r.lo, nodes[r.id].keys, nodes[r.id].children) else []
  }

  function Flatten(nodes: Nodes, upper: Level): Level {
    if upper == [] then [] else Kids(nodes, upper[0]) + Flatten(nodes, upper[1..])
  }

  lemma {:induction false} FlattenConcat(nodes: Nodes, a: Level, b: Level)
    ensures Flatten(nodes, a + b) == Flatten(nodes, a) + Flatten(nodes, b)
  {
    if a == [] {
      assert a + b == b;
    } else {
      assert (a + b)[1..] == a[1..] + b;
      FlattenConcat(nodes, a[1..], b);
    }
  }

  lemma {:induction false} FlattenFrame(nodes: Nodes, nodes': Nodes, upper: Level)
    requires forall r :: r in upper ==> Kids(nodes', r) == Kids(nodes, r)
    ensures Flatten(nodes', upper) == Flatten(nodes, upper)
  {
    if upper != [] {
      assert upper[0] in upper;
      FlattenFrame(nodes, nodes', upper[1..]);
    }
  }

  /** Splits a flattened level around its j-th node. */
  lemma {:induction false} FlattenAround(nodes: Nodes, upper: Level, j: nat)
    requires j < |upper|
    ensures Flatten(nodes, upper) ==
            Flatten(nodes, upper[..j]) + Kids(nodes, upper[j]) + Flatten(nodes, upper[j + 1..])
  {
    assert upper == upper[..j] + [upper[j]] + upper[j + 1..];
    FlattenConcat(nodes, upper[..j] + [upper[j]], upper[j + 1..]);
    FlattenConcat(nodes, upper[..j], [upper[j]]);
    assert Flatten(nodes, [upper[j]]) == Kids(nodes, upper[j]);
  }

  /** Every position of a flattened level is child c of some node j. */
  lemma {:induction false} Locate(nodes: Nodes, upper: Level, i: nat) returns (j: nat, c: nat)
    requires i < |Flatten(nodes, upper)|
    ensures j < |upper| && c < |Kids(nodes, upper[j])|
    ensures |Flatten(nodes, upper[..j])| + c == i
    ensures Flatten(nodes, upper)[i] == Kids(nodes, upper[j])[c]
  {
    var n := |Kids(nodes, upper[0])|;
    if i < n {
      j, c := 0, i;
      assert upper[..0] == [];
    } else {
      var j', c' := Locate(nodes, upper[1..], i - n);
      j, c := j' + 1, c';
      LocateShift(nodes, upper, j');
      assert upper[j] == upper[1..][j'];
    }
  }

  lemma {:induction false} LocateShift(nodes: Nodes, upper: Level, j: nat)
    requires j < |upper|
    ensures |Flatten(nodes, upper[..j + 1])| == |Kids(nodes, upper[0])| + |Flatten(nodes, upper[1..][..j])|
  {
    assert upper[..j + 1][0] == upper[0];
    assert upper[..j + 1][1..] == upper[1..][..j];
  }

  // ---------------------------------------------------------------- the links between levels

  predicate UpperOK(nodes: Nodes, upper: Level) {
    forall r :: r in upper ==> IsInternal(nodes, r.id) && 1 <= |nodes[r.id].keys| <= INTERNAL_MAX
  }

  /** The children of p are stored and name p as their parent. */
  predicate Adopts(nodes: Nodes, p: PageId)
    requires IsInternal(nodes, p)
  {
    forall c :: c in nodes[p].children ==> c in nodes && nodes[c].parent == p
  }

  /** Every stored parent id is the real parent. */
  predicate ParentsOK(nodes: Nodes, upper: Level) {
    forall r :: r in upper && IsInternal(nodes, r.id) ==> Adopts(nodes, r.id)
  }

  predicate Link(nodes: Nodes, lower: Level, upper: Level) {
    UpperOK(nodes, upper) && ParentsOK(nodes, upper) && Flatten(nodes, upper) == lower
  }

  /** Equal up to the parent pointers of the nodes. */
  predicate SameBody(a: Node, b: Node) {
    b.(parent := a.parent) == a
  }

  lemma KidsSame(nodes: Nodes, nodes': Nodes, r: Ref)
    requires IsInternal(nodes, r.id) && r.id in nodes' && SameBody(nodes[r.id], nodes'[r.id])
    ensures IsInternal(nodes', r.id) && Kids(nodes', r) == Kids(nodes, r)
    ensures nodes'[r.id].keys == nodes[r.id].keys && nodes'[r.id].children == nodes[r.id].children
  {
  }

  /** The parent pointers of n's children are the same in both maps. */
  predicate SameParents(nodes: Nodes, nodes': Nodes, n: Node)
    requires n.Internal?
  {
    forall c :: c in n.children ==> c in nodes && c in nodes' && nodes'[c].parent == nodes[c].parent
  }

  lemma LinkFrame(nodes: Nodes, nodes': Nodes, lower: Level, upper: Level)
    requires Link(nodes, lower, upper)
    requires forall r :: r in upper ==>
      r.id in nodes' && SameBody(nodes[r.id], nodes'[r.id]) && SameParents(nodes, nodes', nodes[r.id])
    ensures Link(nodes', lower, upper)
  {
    forall r | r in upper
      ensures IsInternal(nodes', r.id) && Kids(nodes', r) == Kids(nodes, r)
      ensures nodes'[r.id].keys == nodes[r.id].keys
      ensures Adopts(nodes', r.id)
    {
      KidsSame(nodes, nodes', r);
      assert Adopts(nodes, r.id);
    }
    FlattenFrame(nodes, nodes', upper);
  }

  /** The bounds of a level grow by at least gap: 1 says strictly, 0 says weakly. */
  predicate Los(level: Level, gap: nat) {
    forall a, b :: 0 <= a < b < |level| ==> level[a].lo + gap <= level[b].lo
  }

  predicate UniqueIds(level: Level) {
    forall a, b :: 0 <= a < b < |level| ==> level[a].id != level[b].id
  }

  /** Bounds that grow along a level grow along the level above it. */
  lemma {:induction false} LosUp(nodes: Nodes, upper: Level, gap: nat)
    requires UpperOK(nodes, upper) && Los(Flatten(nodes, upper), gap)
    ensures Los(upper, gap)
    ensures upper != [] ==> Flatten(nodes, upper) != [] && Flatten(nodes, upper)[0].lo == upper[0].lo
  {
    if upper != [] {
      var flat, rest := Flatten(nodes, upper), Flatten(nodes, upper[1..]);
      var n := |Kids(nodes, upper[0])|;
      assert upper[0] in upper;
      assert UpperOK(nodes, upper[1..]);
      LosTail(flat, n, gap);
      assert flat[n..] == rest;
      LosUp(nodes, upper[1..], gap);
      if |upper| > 1 {
        assert flat[0].lo + gap <= flat[n].lo;
        assert rest[0] == flat[n];
        LosPrepend(upper, gap);
      }
    }
  }

  lemma LosTail(level: Level, n: nat, gap: nat)
    requires Los(level, gap) && n <= |level|
    ensures Los(level[n..], gap)
  {
  }

  lemma LosPrepend(level: Level, gap: nat)
    requires |level| > 1 && Los(level[1..], gap) && level[0].lo + gap <= level[1].lo
    ensures Los(level, gap)
  {
  }

  lemma {:induction false} FirstBound(nodes: Nodes, upper: Level)
    requires upper != [] && IsInternal(nodes, upper[0].id)
    ensures Flatten(nodes, upper) != [] && Flatten(nodes, upper)[0].lo == upper[0].lo
  {
  }

  // ---------------------------------------------------------------- the whole tree

  predicate LeafOK(nodes: Nodes, leaves: Level, i: nat)
    requires i < |leaves|
  {
    && leaves[i].id in nodes && nodes[leaves[i].id].Leaf?
    && |nodes[leaves[i].id].entries| <= LEAF_MAX
    && nodes[leaves[i].id].next == if i + 1 < |leaves| then leaves[i + 1].id else INVALID_PAGE_ID
  }

  /** The leaf chain is the leaf level, left to right. */
  predicate LeavesOK(nodes: Nodes, leaves: Level) {
    forall i :: 0 <= i < |leaves| ==> LeafOK(nodes, leaves, i)
  }

  /** No page is used twice: ids are distinct along a level, and rank tells the levels apart. */
  predicate Distinct(levels: seq<Level>, rank: map<PageId, nat>) {
    && (forall k :: 0 <= k < |levels| ==> UniqueIds(levels[k]))
    && (forall k, r :: 0 <= k < |levels| && r in levels[k] ==>
          r.id != INVALID_PAGE_ID && r.id in rank && rank[r.id] == k)
  }

  /** Every internal node below the root keeps at least 253 separators. */
  predicate MinFill(nodes: Nodes, levels: seq<Level>) {
    forall k, r :: 1 <= k < |levels| - 1 && r in levels[k] && IsInternal(nodes, r.id) ==>
      |nodes[r.id].keys| >= INTERNAL_MIN
  }

  predicate LinksExcept(nodes: Nodes, levels: seq<Level>, hole: int) {
    forall m :: 0 <= m < |levels| - 1 && m != hole ==> Link(nodes, levels[m], levels[m + 1])
  }

  predicate Structure(nodes: Nodes, root: PageId, levels: seq<Level>, rank: map<PageId, nat>) {
    && |levels| >= 1
    && levels[|levels| - 1] == [Ref(0, root)]
    && root in nodes && nodes[root].parent == INVALID_PAGE_ID
    && LinksExcept(nodes, levels, -1)
    && LeavesOK(nodes, levels[0])
    && Distinct(levels, rank)
    && MinFill(nodes, levels)
  }

  // ---------------------------------------------------------------- how many nodes

  function NodeCount(levels: seq<Level>): nat {
    if levels == [] then 0 else |levels[0]| + NodeCount(levels[1..])
  }

  lemma {:induction false} NodeCountSet(levels: seq<Level>, k: nat, level: Level)
    requires k < |levels|
    ensures NodeCount(levels[k := level]) == NodeCount(levels) - |levels[k]| + |level|
  {
    if k == 0 {
      assert levels[0 := level][1..] == levels[1..];
    } else {
      assert levels[k := level][1..] == levels[1..][k - 1 := level];
      NodeCountSet(levels[1..], k - 1, level);
    }
  }

  lemma {:induction false} NodeCountAppend(levels: seq<Level>, level: Level)
    ensures NodeCount(levels + [level]) == NodeCount(levels) + |level|
  {
    if levels == [] {
      assert levels + [level] == [level] && [level][1..] == [];
    } else {
      assert (levels + [level])[1..] == levels[1..] + [level];
      NodeCountAppend(levels[1..], level);
    }
  }
}

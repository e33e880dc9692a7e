/**
 A tree on which an insertion misplaces a separator: three levels, a left node whose separators are 1 to 253 and then
 254 times the root's own separator 1000, and a full first leaf.  One entry more in that leaf, and the entry with key
 2000 on the far right is no longer found.
 */
module BTreeTies {
  import opened Base
  import opened Bytes
  import opened BTreeLevels
  import opened BTreeGrowth
  import opened BTreeOrder
  import opened BTreeSeparators
  import opened BTreeStrays
  import opened BPlusTrees
  import opened SortedEntries
  import opened IndexPool
  import opened Pins
  import Codec = NodeCodec

  const ROOT: PageId := 1
  const LEFT: PageId := 2
  const RIGHT: PageId := 3
  const FIRST_LEAF := 4
  const LEAVES := 762
  const PAGES := 766
  const SEPARATOR: Key := 1000
  const FAR_KEY: Key := 2000

  function LeafLo(i: nat): Key {
    if i <= 253 then i else SEPARATOR
  }

  function LeftKeys(): seq<Key> {
    seq(INTERNAL_MAX, i requires 0 <= i < INTERNAL_MAX => LeafLo(i + 1))
  }

  function RightKeys(): seq<Key> {
    seq(INTERNAL_MIN, i requires 0 <= i < INTERNAL_MIN => SEPARATOR)
  }

  function Ids(first: nat, n: nat): (s: seq<PageId>)
    requires first + n <= PAGES
    ensures |s| == n && forall i {:trigger s[i]} :: 0 <= i < n ==> s[i] == first + i
  {
    seq(n, i requires 0 <= i < n => first + i)
  }

  function LeafLevel(): (s: Level)
    ensures |s| == LEAVES && forall i {:trigger s[i]} :: 0 <= i < LEAVES ==> s[i] == Ref(LeafLo(i), FIRST_LEAF + i)
  {
    seq(LEAVES, i requires 0 <= i < LEAVES => Ref(LeafLo(i), FIRST_LEAF + i))
  }

  function Levels(): seq<Level> {
    [LeafLevel(), [Ref(0, LEFT), Ref(SEPARATOR, RIGHT)], [Ref(0, ROOT)]]
  }

  function RankOf(id: PageId): nat {
    if id == ROOT then 2 else if id < FIRST_LEAF then 1 else 0
  }

  function Rank(): map<PageId, nat> {
    map id: PageId | 1 <= id < PAGES :: RankOf(id)
  }

  /** The entries of leaf i: the first one is full of key 0, the last one holds the far key. */
  function EntriesOf(rids: seq<RID>, far: RID, i: nat): seq<Entry> {
    if i == 0 then seq(|rids|, a requires 0 <= a < |rids| => Entry(0, rids[a]))
    else if i == LEAVES - 1 then [Entry(FAR_KEY, far)]
    else []
  }

  function NodeOf(rids: seq<RID>, far: RID, id: PageId): Node
    requires 1 <= id < PAGES
  {
    if id == ROOT then Internal(INVALID_PAGE_ID, INVALID_PAGE_ID, [SEPARATOR], [LEFT, RIGHT])
    else if id == LEFT then Internal(ROOT, INVALID_PAGE_ID, LeftKeys(), Ids(FIRST_LEAF, INTERNAL_MAX + 1))
    else if id == RIGHT then
      Internal(ROOT, INVALID_PAGE_ID, RightKeys(), Ids(FIRST_LEAF + INTERNAL_MAX + 1, INTERNAL_MIN + 1))
    else
      Leaf(if id < FIRST_LEAF + INTERNAL_MAX + 1 then LEFT else RIGHT,
           if id + 1 < PAGES then id + 1 else INVALID_PAGE_ID,
           EntriesOf(rids, far, id - FIRST_LEAF))
  }

  function NodesOf(rids: seq<RID>, far: RID): Nodes {
    map id: PageId | 1 <= id < PAGES :: NodeOf(rids, far, id)
  }

  // ---------------------------------------------------------------- it is a tree

  lemma {:induction false} LeavesLinked(rids: seq<RID>, far: RID)
    ensures Link(NodesOf(rids, far), LeafLevel(), Levels()[1])
  {
    var nodes, upper := NodesOf(rids, far), Levels()[1];
    assert upper[1..] == [upper[1]] && upper[1..][1..] == [];
    assert Flatten(nodes, upper[1..]) == Kids(nodes, upper[1]);
    assert Flatten(nodes, upper) == Kids(nodes, upper[0]) + Kids(nodes, upper[1]);
    assert Flatten(nodes, upper) == LeafLevel();
    assert UpperOK(nodes, upper);
    assert Adopts(nodes, LEFT) && Adopts(nodes, RIGHT);
    assert ParentsOK(nodes, upper);
  }

  lemma {:induction false} RootLinked(rids: seq<RID>, far: RID)
    ensures Link(NodesOf(rids, far), Levels()[1], Levels()[2])
  {
    var nodes, upper := NodesOf(rids, far), Levels()[2];
    assert upper[1..] == [];
    assert Flatten(nodes, upper) == Kids(nodes, upper[0]);
    assert Flatten(nodes, upper) == Levels()[1];
  }

  lemma {:induction false} IsTree(rids: seq<RID>, far: RID)
    requires |rids| == LEAF_MAX
    ensures Structure(NodesOf(rids, far), ROOT, Levels(), Rank())
  {
    hide Link;
    LeavesLinked(rids, far);
    RootLinked(rids, far);
    assert LeavesOK(NodesOf(rids, far), LeafLevel());
    TreeDistinct();
    assert MinFill(NodesOf(rids, far), Levels());
  }

  lemma TreeDistinct()
    ensures Distinct(Levels(), Rank())
  {
  }

  lemma {:induction false} IsOrdered(rids: seq<RID>, far: RID)
    requires |rids| == LEAF_MAX
    ensures WeaklyOrdered(NodesOf(rids, far), LeafLevel())
  {
    var nodes, leaves := NodesOf(rids, far), LeafLevel();
    forall i | 0 <= i < LEAVES ensures LeafOrdered(nodes, leaves, i, 1) && FewAtBound(nodes, leaves, i) {
      assert LeafEntries(nodes, leaves[i].id) == EntriesOf(rids, far, i);
    }
  }

  // ---------------------------------------------------------------- what it holds and where it ties

  lemma {:induction false} TiesAtRoot(rids: seq<RID>, far: RID)
    ensures TieAt(NodesOf(rids, far), Levels(), 0, 0) == Some(1)
    ensures var push := PushOf(NodesOf(rids, far), Levels()[1], 0);
      GapOver(NodesOf(rids, far), Levels()[2], 0, push) == Gap(SEPARATOR, 0x1_0000_0000)
    ensures !IsFull(NodesOf(rids, far), Levels()[2], 0)
  {
    var nodes, levels := NodesOf(rids, far), Levels();
    assert CoverOf(levels[1], 0) == 0 && CoverOf(levels[2], 0) == 0;
    assert nodes[LEFT].keys[TIE] == SEPARATOR;
    assert nodes[ROOT].keys == [SEPARATOR] && [SEPARATOR][0] == SEPARATOR;
  }

  lemma {:induction false} LeavesOver(rids: seq<RID>, far: RID)
    requires |rids| == LEAF_MAX
    ensures var nodes, leaves := NodesOf(rids, far), LeafLevel();
      && |LeafEntries(nodes, leaves[CoverOf(leaves, 0)].id)| == LEAF_MAX
      && Seen(nodes, leaves, FAR_KEY) == [Entry(FAR_KEY, far)]
      && Entry(FAR_KEY, far) in Entries(nodes, leaves)
  {
    hide Entries;
    var nodes, leaves := NodesOf(rids, far), LeafLevel();
    CoverOfIs(leaves, 0, 0);
    CoverOfIs(leaves, LEAVES - 1, FAR_KEY);
    var last := LeafEntries(nodes, leaves[LEAVES - 1].id);
    assert last == [Entry(FAR_KEY, far)];
    RangeAll(last, FAR_KEY, FAR_KEY);
    LeafIsStretch(nodes, leaves, LEAVES - 1);
    assert last[0] in Entries(nodes, leaves);
  }

  // ---------------------------------------------------------------- the failing run

  function PagesOf(rids: seq<RID>, far: RID): map<PageId, seq<Byte>>
    requires |rids| == LEAF_MAX
  {
    map id: PageId | 1 <= id < PAGES :: PageOf(NodeOf(rids, far, id))
  }

  function PageOf(n: Node): seq<Byte> {
    if Codec.Fits(n) then Codec.Encode(n, Zeros(PAGE_SIZE)) else Zeros(PAGE_SIZE)
  }

  lemma PagesStored(rids: seq<RID>, far: RID)
    requires |rids| == LEAF_MAX
    ensures Stored(PagesOf(rids, far), NodesOf(rids, far)) && Allocated(PagesOf(rids, far), [], PAGES)
  {
    hide Codec.Decode, Codec.Encode, Zeros;
    forall id: PageId | 1 <= id < PAGES
      ensures Codec.Fits(NodeOf(rids, far, id))
      ensures Codec.Decode(PageOf(NodeOf(rids, far, id))) == Some(NodeOf(rids, far, id))
    {
      Codec.DecodeEncode(NodeOf(rids, far, id), Zeros(PAGE_SIZE));
    }
  }

  /** The tree on pages of its own. */
  method BuildTree(frames: nat, rids: seq<RID>, far: RID) returns (tree: BPlusTree)
    requires |rids| == LEAF_MAX
    ensures fresh(tree) && fresh(tree.pool) && tree.Valid() && tree.root == ROOT
    ensures tree.pool.nodes == NodesOf(rids, far) && tree.levels == Levels()
    ensures tree.pool.frames == frames && tree.pool.pins == multiset{} && tree.pool.unannounced == {}
    ensures tree.pool.Spare() == INVALID_PAGE_ID - PAGES
  {
    hide Stored, Allocated, Structure, WeaklyOrdered;
    var pool := new IndexPages(frames, PAGES);
    tree := new BPlusTree(pool);
    pool.pages := PagesOf(rids, far);
    pool.nodes := NodesOf(rids, far);
    tree.root := ROOT;
    tree.levels, tree.rank := Levels(), Rank();
    PagesStored(rids, far);
    IsTree(rids, far);
    IsOrdered(rids, far);
  }

  /** One more entry with key 0 splits the first leaf and then the left node, whose separator the root holds already. */
  method AddZero(tree: BPlusTree, rids: seq<RID>, far: RID, rid: RID)
    requires |rids| == LEAF_MAX && tree.Valid() && tree.root == ROOT
    requires tree.pool.nodes == NodesOf(rids, far) && tree.levels == Levels()
    requires tree.pool.frames >= 7 && tree.pool.pins == multiset{} && tree.pool.unannounced == {}
    requires tree.pool.Spare() > 3
    modifies tree, tree.pool
    ensures tree.pool.pins == multiset{} && tree.pool.unannounced == {} && tree.levels != []
    ensures tree.Misses(FAR_KEY) && Entry(FAR_KEY, far) in Entries(tree.pool.nodes, tree.levels[0])
  {
    hide Stored, Allocated, Structure, WeaklyOrdered, Entries, Range, TieAt, Walkable, Seen, NodesOf, Levels;
    FirstLevel();
    LeavesOver(rids, far);
    TiesAtRoot(rids, far);
    NoPins();
    ghost var stored := tree.Contents();
    assert tree.Misplaces(0) && !tree.Derails(0) && tree.Taken(0) == Gap(SEPARATOR, 0x1_0000_0000);
    var ok := tree.Insert(0, rid);
    InsertedMembers(stored, Entries(tree.pool.nodes, tree.levels[0]), Entry(0, rid));
    tree.GapIsMissed(Gap(SEPARATOR, 0x1_0000_0000), FAR_KEY);
  }

  lemma NoPins()
    ensures HeldPages(multiset{}) == {}
  {
  }

  /**
   A failing run: the far entry is found, an entry with key 0 is inserted, and the far entry is still stored but no
   longer found.
   */
  method LoseFarEntry(frames: nat, rids: seq<RID>, far: RID, rid: RID)
    returns (tree: BPlusTree, before: seq<RID>, after: seq<RID>)
    requires frames >= 7 && |rids| == LEAF_MAX
    ensures before == [far] && after == []
    ensures fresh(tree) && tree.levels != [] && Entry(FAR_KEY, far) in Entries(tree.pool.nodes, tree.levels[0])
  {
    hide Stored, Allocated, Structure, WeaklyOrdered, Entries, Range, TieAt, Walkable, NodesOf, Levels;
    tree := BuildTree(frames, rids, far);
    LeavesOver(rids, far);
    NoPins();
    FirstLevel();
    before := tree.Lookup(FAR_KEY);
    AddZero(tree, rids, far, rid);
    after := tree.Lookup(FAR_KEY);
  }

  lemma FirstLevel()
    ensures |Levels()| == 3 && Levels()[0] == LeafLevel()
  {
  }
}

/**
 Where a separator lands on its way up.  A parent looks its new separator up by key,
 so the new child stands behind the one it was split from only if no equal separator
 stands between them.  On a tree whose separators are all different this is always
 so; on a tree with equal separators it takes the conditions of this module.
 */
module BTreeSeparators {
  import opened Base
  import opened BTreeLevels
  import opened BTreeGrowth
  import opened BTreeOrder

  /** levels[k][i + 1] was split off levels[k][i], the node over key, and its bound lies between its neighbours'. */
  predicate Fits(levels: seq<Level>, k: nat, i: nat, key: Key)
    requires k < |levels| && i + 1 < |levels[k]|
  {
    && Los(RemoveAt(levels[k], i + 1), 0) && Covers(RemoveAt(levels[k], i + 1), i, key)
    && levels[k][i].lo <= levels[k][i + 1].lo
    && (i + 2 < |levels[k]| ==> levels[k][i + 1].lo <= levels[k][i + 2].lo)
    && forall m :: k < m < |levels| ==> Los(levels[m], 0)
  }

  /** In the parent, the separator of levels[k][i + 1] stands below the one it has to precede. */
  ghost predicate Lands(nodes: Nodes, levels: seq<Level>, k: nat, i: nat)
    requires k < |levels| && i + 1 < |levels[k]|
  {
    k + 1 < |levels| ==> LandsUnder(nodes, levels[k + 1], i, levels[k][i + 1].lo)
  }

  ghost predicate LandsUnder(nodes: Nodes, upper: Level, i: nat, lo: Key) {
    forall j: nat, c: nat :: At(nodes, upper, i, j, c) ==> LandsIn(nodes, upper[j].id, c, lo)
  }

  predicate LandsIn(nodes: Nodes, p: PageId, c: nat, key: Key) {
    IsInternal(nodes, p) && c < |nodes[p].keys| ==> key < nodes[p].keys[c]
  }

  // ---------------------------------------------------------------- what an insertion may meet on its way up

  const TIE := INTERNAL_MAX - MID

  predicate IsFull(nodes: Nodes, level: Level, key: Key) {
    && level != []
    && var p := level[CoverOf(level, key)].id;
       IsInternal(nodes, p) && |nodes[p].keys| == INTERNAL_MAX
  }

  /** The node over key holds this separator, which is above key. */
  predicate Ties(nodes: Nodes, level: Level, key: Key, lo: Key) {
    && key < lo && level != []
    && var g := level[CoverOf(level, key)].id;
       IsInternal(nodes, g) && lo in nodes[g].keys
  }

  /** What the full node over key pushes up when a child is added behind the one over key, if that is above key. */
  function PushOf(nodes: Nodes, level: Level, key: Key): Key
    requires IsFull(nodes, level, key)
  {
    nodes[level[CoverOf(level, key)].id].keys[TIE]
  }

  /** The full node over key pushes up a separator above key that its parent already holds. */
  predicate Tied(nodes: Nodes, level: Level, above: Level, key: Key)
    requires IsFull(nodes, level, key)
  {
    Ties(nodes, above, key, PushOf(nodes, level, key))
  }

  /** The first level where a new node at level k makes a full node over key push up such a separator. */
  function TieAt(nodes: Nodes, levels: seq<Level>, k: nat, key: Key): (m: Option<nat>)
    ensures m.Some? ==>
      && k < m.value < |levels| - 1 && IsFull(nodes, levels[m.value], key)
      && Tied(nodes, levels[m.value], levels[m.value + 1], key)
    decreases |levels| - k
  {
    if k + 2 < |levels| && IsFull(nodes, levels[k + 1], key) then
      if Tied(nodes, levels[k + 1], levels[k + 2], key) then Some(k + 1) else TieAt(nodes, levels, k + 1, key)
    else None
  }

  predicate Clear(nodes: Nodes, levels: seq<Level>, k: nat, key: Key) {
    TieAt(nodes, levels, k, key).None?
  }

  /** The position a search for key takes in a node. */
  function ChildFor(keys: seq<Key>, key: Key): (pos: nat)
    ensures pos <= |keys|
  {
    if keys == [] || keys[|keys| - 1] <= key then |keys| else ChildFor(keys[..|keys| - 1], key)
  }

  lemma {:induction false} ChildForFound(keys: seq<Key>, key: Key)
    requires NonDecreasing(keys)
    ensures Found(keys, key, ChildFor(keys, key))
  {
    if keys != [] && key < keys[|keys| - 1] {
      ChildForFound(keys[..|keys| - 1], key);
    }
  }

  lemma {:induction false} FoundIs(keys: seq<Key>, key: Key, pos: nat)
    requires Found(keys, key, pos)
    ensures ChildFor(keys, key) == pos
  {
    if keys != [] && key < keys[|keys| - 1] {
      FoundIs(keys[..|keys| - 1], key, pos);
    }
  }

  /** The keys that a child put in at lo takes over: from lo up to the next separator. */
  datatype Gap = Gap(lo: Key, hi: int)

  function GapIn(keys: seq<Key>, upper: int, lo: Key): Gap {
    var pos := ChildFor(keys, lo);
    Gap(lo, if pos < |keys| then keys[pos] else upper)
  }

  function GapOver(nodes: Nodes, level: Level, key: Key, lo: Key): Gap
    requires Ties(nodes, level, key, lo)
  {
    var j := CoverOf(level, key);
    GapIn(nodes[level[j].id].keys, Upper(level, j), lo)
  }

  /** The node over key has room for a tied separator, which takes these keys over. */
  predicate TakesTied(nodes: Nodes, level: Level, key: Key, lo: Key, course: Option<Gap>) {
    && Ties(nodes, level, key, lo) && !IsFull(nodes, level, key)
    && course == Some(GapOver(nodes, level, key, lo))
  }

  /**
   Where the splits above a new node at level k end: with every separator in its place, or with one that takes over
   the keys of a gap, put into a node that has room.
   */
  predicate Course(nodes: Nodes, levels: seq<Level>, k: nat, key: Key, course: Option<Gap>) {
    match TieAt(nodes, levels, k, key)
    case None => course.None?
    case Some(m) => TakesTied(nodes, levels[m + 1], key, PushOf(nodes, levels[m], key), course)
  }

  /** The same for levels[k][i + 1], which is about to go into its parent. */
  ghost predicate Heads(nodes: Nodes, levels: seq<Level>, k: nat, i: nat, key: Key, course: Option<Gap>)
    requires k < |levels| && i + 1 < |levels[k]|
  {
    || (Lands(nodes, levels, k, i) && Course(nodes, levels, k, key, course))
    || (k + 1 < |levels| && TakesTied(nodes, levels[k + 1], key, levels[k][i + 1].lo, course))
  }

  /** Nodes with the same keys and children at every level above k. */
  predicate SameAbove(nodes: Nodes, nodes': Nodes, levels: seq<Level>, levels': seq<Level>, k: nat) {
    && |levels'| == |levels|
    && (forall m :: k < m < |levels| ==> levels'[m] == levels[m])
    && (forall m, r :: k < m < |levels| && r in levels[m] ==>
          r.id in nodes && r.id in nodes' && SameBody(nodes[r.id], nodes'[r.id]))
  }

  lemma {:induction false} TieFrame(nodes: Nodes, nodes': Nodes, levels: seq<Level>, levels': seq<Level>, k: nat,
                                    key: Key)
    requires SameAbove(nodes, nodes', levels, levels', k)
    ensures TieAt(nodes', levels', k, key) == TieAt(nodes, levels, k, key)
    decreases |levels| - k
  {
    hide SameAbove;
    SameFurther(nodes, nodes', levels, levels', k);
    if k + 2 < |levels| {
      TieFrame(nodes, nodes', levels, levels', k + 1, key);
      SameLevel(nodes, nodes', levels, levels', k, k + 1, key);
      SameLevel(nodes, nodes', levels, levels', k, k + 2, key);
    }
  }

  lemma SameFurther(nodes: Nodes, nodes': Nodes, levels: seq<Level>, levels': seq<Level>, k: nat)
    requires SameAbove(nodes, nodes', levels, levels', k)
    ensures SameAbove(nodes, nodes', levels, levels', k + 1) && |levels'| == |levels|
  {
  }

  lemma {:induction false} CourseFrame(nodes: Nodes, nodes': Nodes, levels: seq<Level>, levels': seq<Level>, k: nat,
                                       key: Key, course: Option<Gap>)
    requires SameAbove(nodes, nodes', levels, levels', k)
    ensures Course(nodes', levels', k, key, course) <==> Course(nodes, levels, k, key, course)
  {
    hide TieAt, SameAbove, GapIn;
    TieFrame(nodes, nodes', levels, levels', k, key);
    var m := TieAt(nodes, levels, k, key);
    if m.Some? {
      SameLevel(nodes, nodes', levels, levels', k, m.value, key);
      SameLevel(nodes, nodes', levels, levels', k, m.value + 1, key);
    }
  }

  lemma {:induction false} SameLevel(nodes: Nodes, nodes': Nodes, levels: seq<Level>, levels': seq<Level>, k: nat,
                                     m: nat, key: Key)
    requires SameAbove(nodes, nodes', levels, levels', k) && k < m < |levels|
    ensures levels'[m] == levels[m]
    ensures levels[m] != [] ==>
      var p := levels[m][CoverOf(levels[m], key)].id;
      (IsInternal(nodes', p) <==> IsInternal(nodes, p)) && (IsInternal(nodes, p) ==> nodes'[p].keys == nodes[p].keys)
  {
    SameOver(nodes, nodes', levels[m], key);
  }

  lemma {:induction false} SameOver(nodes: Nodes, nodes': Nodes, level: Level, key: Key)
    requires forall r :: r in level ==> r.id in nodes && r.id in nodes' && SameBody(nodes[r.id], nodes'[r.id])
    ensures level != [] ==>
      var p := level[CoverOf(level, key)].id;
      (IsInternal(nodes', p) <==> IsInternal(nodes, p)) && (IsInternal(nodes, p) ==> nodes'[p].keys == nodes[p].keys)
  {
    if level != [] {
      assert level[CoverOf(level, key)] in level;
    }
  }

  // ---------------------------------------------------------------- one level up

  /** The parent of the node over key is over key as well. */
  lemma ParentCovers(flat: Level, upper: Level, j: nat, off: nat, keys: seq<Key>, children: seq<PageId>, i: nat,
                     c: nat, key: Key)
    requires Run(flat, upper, j, off, keys, children) && c < |children| && off + c == i
    requires Los(flat, 0) && Covers(flat, i, key)
    ensures Covers(upper, j, key)
  {
    var kids := Expand(upper[j].lo, keys, children);
    assert flat[off + 0] == kids[0];
    assert flat[off + 0].lo <= flat[i].lo;
    if j + 1 < |upper| {
      assert flat[i + 1].lo <= flat[off + |children|].lo;
    }
  }

  lemma {:induction false} RunAt(nodes: Nodes, flat: Level, upper: Level, i: nat, j: nat, c: nat) returns (off: nat)
    requires Link(nodes, flat, upper) && At(nodes, upper, i, j, c)
    ensures IsInternal(nodes, upper[j].id) && c < |nodes[upper[j].id].children| && off + c == i
    ensures Run(flat, upper, j, off, nodes[upper[j].id].keys, nodes[upper[j].id].children)
  {
    hide Flatten, ParentsOK, Segment, AfterRun, Expand;
    off := |Flatten(nodes, upper[..j])|;
    var p := upper[j].id;
    assert upper[j] in upper;
    assert j + 1 < |upper| ==> upper[j + 1] in upper;
    KidsBefore(nodes, flat, upper, j, off, nodes[p].keys, nodes[p].children);
    KidsAfter(nodes, flat, upper, j, off + |nodes[p].children|);
  }

  /** The pushed-up separator lies between p's own bound and the bound of p's right neighbour. */
  lemma PushedBounds(flat: Level, upper: Level, off: nat, i: nat, j: nat, c: nat, l: Ref, keys: seq<Key>,
                     children: seq<PageId>, key: Key, push: Key)
    requires Run(flat, upper, j, off, keys, children) && c < |children| && off + c == i
    requires Los(flat, 0) && flat[i].lo <= l.lo && (i + 1 < |flat| ==> l.lo <= flat[i + 1].lo) && flat[i].lo <= key
    requires c < |keys| ==> l.lo < keys[c]
    requires |keys| == INTERNAL_MAX && push == InsertAt(keys, c, l.lo)[MID]
    ensures upper[j].lo <= push && (j + 1 < |upper| ==> push <= upper[j + 1].lo)
    ensures push <= key || (j + 1 < |upper| ==> push < upper[j + 1].lo) || (key < keys[TIE] && push == keys[TIE])
    ensures key < keys[TIE] ==> push == keys[TIE]
  {
    var kids := Expand(upper[j].lo, keys, children);
    var next := off + |children|;
    assert flat[off + 0] == kids[0];
    assert flat[off + c] == kids[c];
    assert flat[off + MID] == kids[MID];
    assert flat[off + (MID + 1)] == kids[MID + 1];
    if j + 1 < |upper| {
      assert i + 1 <= next;
      assert flat[i + 1].lo <= flat[next].lo;
    }
  }

  /** A bound that is not above key, or below its neighbour's, or not in the parent at all is placed right. */
  lemma {:induction false} LandsBy(nodes: Nodes, levels: seq<Level>, k: nat, i: nat, key: Key)
    requires k < |levels| && i + 1 < |levels[k]| && Fits(levels, k, i, key)
    requires k + 1 < |levels| ==> Link(nodes, RemoveAt(levels[k], i + 1), levels[k + 1])
    requires var lo := levels[k][i + 1].lo;
      || (i + 2 < |levels[k]| ==> lo < levels[k][i + 2].lo)
      || (k + 1 < |levels| ==> !Ties(nodes, levels[k + 1], key, lo))
    ensures Lands(nodes, levels, k, i)
  {
    hide Flatten, Link, Run;
    if k + 1 < |levels| {
      var flat, upper := RemoveAt(levels[k], i + 1), levels[k + 1];
      forall j: nat, c: nat | At(nodes, upper, i, j, c) ensures LandsIn(nodes, upper[j].id, c, levels[k][i + 1].lo) {
        var off := RunAt(nodes, flat, upper, i, j, c);
        ParentCovers(flat, upper, j, off, nodes[upper[j].id].keys, nodes[upper[j].id].children, i, c, key);
        CoverOfIs(upper, j, key);
        LandsByRun(flat, upper, j, off, nodes[upper[j].id].keys, nodes[upper[j].id].children, i, c, key,
                   levels[k][i + 1].lo);
      }
    }
  }

  lemma LandsByRun(flat: Level, upper: Level, j: nat, off: nat, keys: seq<Key>, children: seq<PageId>, i: nat, c: nat,
                   key: Key, lo: Key)
    requires Run(flat, upper, j, off, keys, children) && c < |children| && off + c == i && Covers(flat, i, key)
    requires i + 1 < |flat| ==> lo <= flat[i + 1].lo
    requires lo <= key || (i + 1 < |flat| ==> lo < flat[i + 1].lo) || lo !in keys
    ensures c < |keys| ==> lo < keys[c]
  {
    if c < |keys| {
      assert flat[off + (c + 1)] == Expand(upper[j].lo, keys, children)[c + 1];
    }
  }

  lemma FullParent(nodes: Nodes, nodes': Nodes, p: PageId, q: PageId, n: Node, c: nat, l: Ref)
    requires IsInternal(nodes, p) && c <= |nodes[p].keys| && n == WithChild(nodes[p], c, l.lo, l.id)
    requires Halved(nodes, nodes', p, q, n)
    ensures |nodes[p].keys| == INTERNAL_MAX && n.keys == InsertAt(nodes[p].keys, c, l.lo)
  {
  }

  /** The level around a new node, without it. */
  lemma FlatBounds(levels: seq<Level>, k: nat, i: nat, key: Key)
    requires k < |levels| && i + 1 < |levels[k]| && Fits(levels, k, i, key)
    ensures var flat, l := RemoveAt(levels[k], i + 1), levels[k][i + 1];
      && Los(flat, 0) && Covers(flat, i, key) && i < |flat| && flat[i].lo <= key
      && flat[i].lo <= l.lo && (i + 1 < |flat| ==> l.lo <= flat[i + 1].lo)
  {
  }

  lemma AboveSplit(nodes: Nodes, nodes': Nodes, root: PageId, levels: seq<Level>, levels': seq<Level>,
                   rank: map<PageId, nat>, k: nat, up: nat, i: nat, j: nat, p: Ref, x: Ref, n: Node)
    requires Pending(nodes, root, levels, rank, k, i) && up == k + 1 < |levels|
    requires j < |levels[up]| && p == levels[up][j] && Halved(nodes, nodes', p.id, x.id, n)
    requires levels' == levels[up := InsertAt(levels[up], j + 1, x)]
    ensures SameAbove(nodes, nodes', levels, levels', up)
  {
    hide Flatten, ParentsOK, Los, MinFill, LeavesOK, LinksExcept;
    assert p in levels[up] && rank[p.id] == up;
    AllPresent(nodes, levels, k);
    forall m, r | up < m < |levels| && r in levels[m]
      ensures r.id in nodes && r.id in nodes' && SameBody(nodes[r.id], nodes'[r.id])
    {
      assert rank[r.id] == m;
    }
  }

  /** A course one level up: either the split of the full node over key brings about the tie, or that lies ahead. */
  lemma {:induction false} CourseUp(nodes: Nodes, nodes': Nodes, levels: seq<Level>, levels': seq<Level>, k: nat,
                                    up: nat, key: Key, course: Option<Gap>)
    requires Course(nodes, levels, k, key, course) && up == k + 1 < |levels|
    requires SameAbove(nodes, nodes', levels, levels', up)
    requires IsFull(nodes, levels[up], key)
    ensures var push := PushOf(nodes, levels[up], key);
      if up + 1 < |levels| && Ties(nodes, levels[up + 1], key, push)
      then TakesTied(nodes', levels'[up + 1], key, push, course)
      else
        && Course(nodes', levels', up, key, course)
        && (up + 1 < |levels| ==> !Ties(nodes', levels'[up + 1], key, push))
  {
    hide SameAbove, GapIn;
    CourseFrame(nodes, nodes', levels, levels', up, key, course);
    if up + 1 < |levels| {
      SameLevel(nodes, nodes', levels, levels', up, up + 1, key);
    }
  }

  /** The separator an internal split pushes up fits into the level above and keeps the course. */
  lemma FitsUp(nodes: Nodes, nodes': Nodes, root: PageId, levels: seq<Level>, levels': seq<Level>,
               rank: map<PageId, nat>, k: nat, up: nat, i: nat, j: nat, c: nat, p: Ref, l: Ref, x: Ref, n: Node,
               key: Key, course: Option<Gap>)
    requires Pending(nodes, root, levels, rank, k, i) && Fits(levels, k, i, key)
    requires Lands(nodes, levels, k, i) && Course(nodes, levels, k, key, course)
    requires up == k + 1 < |levels| && At(nodes, levels[up], i, j, c)
    requires p == levels[up][j] && l == levels[k][i + 1] && n == WithChild(nodes[p.id], c, l.lo, l.id)
    requires Halved(nodes, nodes', p.id, x.id, n) && x.lo == n.keys[MID]
    requires levels' == levels[up := InsertAt(levels[up], j + 1, x)]
    requires Pending(nodes', root, levels', rank[x.id := up], up, j)
    ensures Fits(levels', up, j, key) && Heads(nodes', levels', up, j, key, course)
  {
    hide Flatten, Link, Los, Covers, Course, TakesTied, Ties, Halved, Run, Distinct, MinFill, LeavesOK, LinksExcept;
    var flat, upper := RemoveAt(levels[k], i + 1), levels[up];
    FlatBounds(levels, k, i, key);
    var off := RunAt(nodes, flat, upper, i, j, c);
    var keys, children := nodes[p.id].keys, nodes[p.id].children;
    ParentCovers(flat, upper, j, off, keys, children, i, c, key);
    FullParent(nodes, nodes', p.id, x.id, n, c, l);
    assert LandsIn(nodes, upper[j].id, c, l.lo);
    PushedBounds(flat, upper, off, i, j, c, l, keys, children, key, x.lo);
    RemoveInserted(upper, j + 1, x);
    CoverOfIs(upper, j, key);
    assert Fits(levels', up, j, key);
    AboveSplit(nodes, nodes', root, levels, levels', rank, k, up, i, j, p, x, n);
    CourseUp(nodes, nodes', levels, levels', k, up, key, course);
    if up + 1 < |levels| && Ties(nodes, levels[up + 1], key, keys[TIE]) {
      TiesAbove(nodes, levels[up + 1], key, keys[TIE]);
    } else {
      NoTieBelow(nodes', levels', up, key, x.lo);
      LandsBy(nodes', levels', up, j, key);
    }
  }

  lemma TiesAbove(nodes: Nodes, level: Level, key: Key, lo: Key)
    requires Ties(nodes, level, key, lo)
    ensures key < lo
  {
  }

  lemma NoTieBelow(nodes: Nodes, levels: seq<Level>, k: nat, key: Key, lo: Key)
    ensures k + 1 < |levels| && lo <= key ==> !Ties(nodes, levels[k + 1], key, lo)
  {
  }

  /** What the parent's room says about the course. */
  lemma {:induction false} RoomDecides(nodes: Nodes, root: PageId, levels: seq<Level>, rank: map<PageId, nat>, k: nat,
                                       up: nat, i: nat, j: nat, c: nat, key: Key, course: Option<Gap>)
    requires Pending(nodes, root, levels, rank, k, i) && Fits(levels, k, i, key)
    requires Heads(nodes, levels, k, i, key, course)
    requires up == k + 1 < |levels| && At(nodes, levels[up], i, j, c) && IsInternal(nodes, levels[up][j].id)
    ensures if |nodes[levels[up][j].id].keys| == INTERNAL_MAX
      then Lands(nodes, levels, k, i) && Course(nodes, levels, k, key, course)
      else if course.None? then Lands(nodes, levels, k, i)
      else TakesTied(nodes, levels[up], key, levels[k][i + 1].lo, course)
  {
    hide Flatten, Link, Los, Covers, Ties, Run, Distinct, MinFill, LeavesOK, LinksExcept, Lands;
    var flat, upper := RemoveAt(levels[k], i + 1), levels[up];
    FlatBounds(levels, k, i, key);
    var off := RunAt(nodes, flat, upper, i, j, c);
    var p := nodes[upper[j].id];
    ParentCovers(flat, upper, j, off, p.keys, p.children, i, c, key);
    CoverOfIs(upper, j, key);
  }

  /** Above the root there is no way further. */
  lemma {:induction false} NoWayUp(nodes: Nodes, levels: seq<Level>, k: nat, i: nat, key: Key, course: Option<Gap>)
    requires k + 1 == |levels| && i + 1 < |levels[k]| && Heads(nodes, levels, k, i, key, course)
    ensures course.None?
  {
  }

  /** The separator of a leaf split fits and lands behind its leaf. */
  lemma {:induction false} FitsCut(nodes: Nodes, nodes': Nodes, root: PageId, levels: seq<Level>, levels': seq<Level>,
                rank: map<PageId, nat>, j: nat, l: Ref, x: Ref, all: seq<Entry>, key: Key, course: Option<Gap>)
    requires Structure(nodes, root, levels, rank) && Los(levels[0], 0) && Covers(levels[0], j, key)
    requires Course(nodes, levels, 0, key, course)
    requires l == levels[0][j] && LeafCut(nodes, nodes', l.id, x.id, all)
    requires levels[0][j].lo <= x.lo && (j + 1 < |levels[0]| ==> x.lo < levels[0][j + 1].lo)
    requires levels' == levels[0 := InsertAt(levels[0], j + 1, x)]
    requires Pending(nodes', root, levels', rank[x.id := 0], 0, j)
    ensures Fits(levels', 0, j, key) && Heads(nodes', levels', 0, j, key, course)
  {
    hide Flatten, Link, Los, Covers, Course, LeafCut, Distinct, MinFill, LeavesOK;
    RemoveInserted(levels[0], j + 1, x);
    forall m | 0 < m < |levels'| ensures Los(levels'[m], 0) {
      LosEverywhere(nodes, levels, -1, 0, m);
    }
    AboveCut(nodes, nodes', root, levels, levels', rank, l, x, all);
    CourseFrame(nodes, nodes', levels, levels', 0, key, course);
    assert j + 2 < |levels'[0]| ==> levels'[0][j + 2] == levels[0][j + 1];
    LandsBy(nodes', levels', 0, j, key);
  }

  lemma AboveCut(nodes: Nodes, nodes': Nodes, root: PageId, levels: seq<Level>, levels': seq<Level>,
                 rank: map<PageId, nat>, l: Ref, x: Ref, all: seq<Entry>)
    requires Structure(nodes, root, levels, rank) && l in levels[0] && LeafCut(nodes, nodes', l.id, x.id, all)
    requires |levels'| == |levels| && forall m :: 0 < m < |levels| ==> levels'[m] == levels[m]
    ensures SameAbove(nodes, nodes', levels, levels', 0)
  {
    hide Link, MinFill, LeavesOK;
    assert rank[l.id] == 0;
    AllPresent(nodes, levels, -1);
    forall m, r | 0 < m < |levels| && r in levels[m]
      ensures r.id in nodes && r.id in nodes' && SameBody(nodes[r.id], nodes'[r.id])
    {
      assert rank[r.id] == m;
    }
  }

  // ---------------------------------------------------------------- when it goes wrong, and when it cannot

  /** Where the nodes over key stand: p in its level, and as child c of the node over key one level up. */
  lemma OverKey(nodes: Nodes, root: PageId, levels: seq<Level>, rank: map<PageId, nat>, k: nat, key: Key)
    returns (j: nat, i: nat, c: nat, off: nat)
    requires Structure(nodes, root, levels, rank) && Los(levels[0], 0) && k + 1 < |levels|
    requires levels[0] != [] && levels[0][0].lo == 0
    ensures j == CoverOf(levels[k], key) && Covers(levels[k], j, key)
    ensures i == CoverOf(levels[k + 1], key) && Covers(levels[k + 1], i, key) && IsInternal(nodes, levels[k + 1][i].id)
    ensures var keys, children := nodes[levels[k + 1][i].id].keys, nodes[levels[k + 1][i].id].children;
      && Run(levels[k], levels[k + 1], i, off, keys, children) && off + c == j
      && Found(keys, key, c) && NonDecreasing(keys)
  {
    hide Flatten, ParentsOK, LeavesOK, Distinct, MinFill, Run, Los, Covers, Found;
    FirstBoundAt(nodes, levels, k);
    FirstBoundAt(nodes, levels, k + 1);
    LosEverywhere(nodes, levels, -1, 0, k);
    LosEverywhere(nodes, levels, -1, 0, k + 1);
    CoverExists(levels[k], key);
    CoverExists(levels[k + 1], key);
    j, i := CoverOf(levels[k], key), CoverOf(levels[k + 1], key);
    assert Link(nodes, levels[k], levels[k + 1]);
    assert levels[k + 1][i] in levels[k + 1];
    var n := nodes[levels[k + 1][i].id];
    off := KidsRun(nodes, levels[k], levels[k + 1], i, n.keys, n.children);
    RunSorted(levels[k], levels[k + 1], i, off, n.keys, n.children);
    c := ChildFor(n.keys, key);
    ChildForFound(n.keys, key);
    CoverKid(levels[k], levels[k + 1], i, off, n.keys, n.children, key, c, off + c);
    CoverOfIs(levels[k], off + c, key);
  }

  lemma RunSorted(lower: Level, upper: Level, j: nat, off: nat, keys: seq<Key>, children: seq<PageId>)
    requires Run(lower, upper, j, off, keys, children) && Los(lower, 0)
    ensures NonDecreasing(keys)
  {
    SegmentKeysSorted(lower, off, upper[j].lo, keys, children);
  }

  /** Every level starts at the bound 0. */
  lemma {:induction false} FirstBoundAt(nodes: Nodes, levels: seq<Level>, m: nat)
    requires LinksExcept(nodes, levels, -1) && m < |levels| && Los(levels[0], 0)
    requires levels[0] != [] && levels[0][0].lo == 0
    ensures levels[m] != [] && levels[m][0].lo == 0
  {
    if m > 0 {
      FirstBoundAt(nodes, levels, m - 1);
      assert Link(nodes, levels[m - 1], levels[m - 1 + 1]);
      LosEverywhere(nodes, levels, -1, 0, m - 1);
      LosUp(nodes, levels[m], 0);
      FlattenNone(nodes);
    }
  }

  lemma {:induction false} FlattenNone(nodes: Nodes)
    ensures Flatten(nodes, []) == []
  {
  }

  /** Separators that grow strictly are never tied. */
  lemma {:induction false} StrictIsClear(nodes: Nodes, root: PageId, levels: seq<Level>, rank: map<PageId, nat>, k: nat,
                                         key: Key)
    requires Structure(nodes, root, levels, rank) && Los(levels[0], 1)
    requires levels[0] != [] && levels[0][0].lo == 0
    ensures Clear(nodes, levels, k, key)
    decreases |levels| - k
  {
    hide Structure, IsFull, Tied;
    if k + 2 < |levels| && IsFull(nodes, levels[k + 1], key) {
      StrictIsClear(nodes, root, levels, rank, k + 1, key);
      StrictNotTied(nodes, root, levels, rank, k + 1, key);
    }
  }

  lemma StrictNotTied(nodes: Nodes, root: PageId, levels: seq<Level>, rank: map<PageId, nat>, k: nat, key: Key)
    requires Structure(nodes, root, levels, rank) && Los(levels[0], 1) && 0 < k < |levels| - 1
    requires levels[0] != [] && levels[0][0].lo == 0 && IsFull(nodes, levels[k], key)
    ensures !Tied(nodes, levels[k], levels[k + 1], key)
  {
    hide Flatten, ParentsOK, LeavesOK, Distinct, MinFill, Covers;
    var j, i, c, off := OverKey(nodes, root, levels, rank, k, key);
    var j', i', c', off' := OverKey(nodes, root, levels, rank, k - 1, key);
    LosEverywhere(nodes, levels, -1, 1, k - 1);
    NeighbourAbove(levels[k], levels[k + 1], i, off, nodes[levels[k + 1][i].id].keys,
                   nodes[levels[k + 1][i].id].children, c, key);
    PushBelow(levels[k - 1], levels[k], j, off', nodes[levels[k][j].id].keys, nodes[levels[k][j].id].children);
  }

  /** The parent's separators above key start with the bound on the right of the node over key. */
  lemma NeighbourAbove(lower: Level, upper: Level, i: nat, off: nat, keys: seq<Key>, children: seq<PageId>, c: nat,
                       key: Key)
    requires Run(lower, upper, i, off, keys, children) && Found(keys, key, c) && NonDecreasing(keys)
    ensures forall x :: x in keys && key < x ==> off + c + 1 < |lower| && lower[off + c + 1].lo <= x
    ensures c < |keys| ==> off + c + 1 < |lower| && lower[off + c + 1].lo == keys[c]
  {
    if c < |keys| {
      assert lower[off + (c + 1)] == Expand(upper[i].lo, keys, children)[c + 1];
    }
  }

  lemma PushBelow(lower: Level, upper: Level, j: nat, off: nat, keys: seq<Key>, children: seq<PageId>)
    requires Run(lower, upper, j, off, keys, children) && Los(lower, 1) && |keys| == INTERNAL_MAX
    ensures j + 1 < |upper| ==> keys[TIE] < upper[j + 1].lo
  {
    assert lower[off + (TIE + 1)] == Expand(upper[j].lo, keys, children)[TIE + 1];
  }

  /**
   The split of p, the node over key in this level, pushes up a separator whose place in p's parent is not right behind
   p: the parent's search for it ends further right.
   */
  ghost predicate LandsElsewhere(nodes: Nodes, level: Level, above: Level, key: Key) {
    && level != [] && above != []
    && var p, g := level[CoverOf(level, key)].id, above[CoverOf(above, key)].id;
    && IsInternal(nodes, p) && |nodes[p].keys| == INTERNAL_MAX && IsInternal(nodes, g)
    && exists push: Key, c: nat :: PushedUp(nodes[p].keys, key, push) && Behind(nodes[g], p, push, c)
  }

  /** Whatever child is added behind the one over key, the middle separator is push. */
  ghost predicate PushedUp(keys: seq<Key>, key: Key, push: Key)
    requires |keys| == INTERNAL_MAX
  {
    forall at: nat, lo: Key {:trigger InsertAt(keys, at, lo)} ::
      Found(keys, key, at) ==> InsertAt(keys, at, lo)[MID] == push
  }

  /** p is child c of g, and a search of g for push ends behind it. */
  ghost predicate Behind(g: Node, p: PageId, push: Key, c: nat)
    requires g.Internal?
  {
    c < |g.children| && g.children[c] == p && forall pos: nat :: Found(g.keys, push, pos) ==> pos > c
  }

  /** What happens otherwise. */
  lemma TiedLandsElsewhere(nodes: Nodes, root: PageId, levels: seq<Level>, rank: map<PageId, nat>, k: nat, key: Key)
    requires Structure(nodes, root, levels, rank) && Los(levels[0], 0) && 0 < k < |levels| - 1
    requires levels[0] != [] && levels[0][0].lo == 0
    requires IsFull(nodes, levels[k], key) && Tied(nodes, levels[k], levels[k + 1], key)
    ensures LandsElsewhere(nodes, levels[k], levels[k + 1], key)
  {
    hide Flatten, ParentsOK, LeavesOK, Distinct, MinFill, Covers;
    var j, i, c, off := OverKey(nodes, root, levels, rank, k, key);
    var p, g := levels[k][j].id, nodes[levels[k + 1][i].id];
    var push := nodes[p].keys[TIE];
    assert levels[k][off + c] == Expand(levels[k + 1][i].lo, g.keys, g.children)[c];
    NeighbourAbove(levels[k], levels[k + 1], i, off, g.keys, g.children, c, key);
    assert PushedUp(nodes[p].keys, key, push) && Behind(g, p, push, c);
  }

  /** Where the way up is not clear: every node over key is full up to level m, and there the separator is tied. */
  lemma {:induction false} TiedAt(nodes: Nodes, levels: seq<Level>, k: nat, key: Key) returns (m: nat)
    requires !Clear(nodes, levels, k, key)
    ensures TieAt(nodes, levels, k, key) == Some(m)
    ensures k < m < |levels| - 1 && forall q :: k < q <= m ==> IsFull(nodes, levels[q], key)
    ensures Tied(nodes, levels[m], levels[m + 1], key)
    decreases |levels| - k
  {
    if Tied(nodes, levels[k + 1], levels[k + 2], key) {
      m := k + 1;
    } else {
      m := TiedAt(nodes, levels, k + 1, key);
    }
  }

  /** A child put in at a found position takes over every search that ended in the child it was put behind. */
  lemma TakesOver(keys: seq<Key>, children: seq<PageId>, push: Key, pos: nat, q: PageId, key: Key, found: nat)
    requires |children| == |keys| + 1 && NonDecreasing(keys) && Found(keys, push, pos)
    requires Found(InsertAt(keys, pos, push), key, found)
    ensures push <= key && Found(keys, key, pos) ==> InsertAt(children, pos + 1, q)[found] == q
  {
    var grown := InsertAt(keys, pos, push);
    assert grown[pos] == push;
    assert pos < |keys| ==> grown[pos + 1] == keys[pos];
  }
}

/**
 One level of a split cascade.  A split at level k has put a new right node after
 position i; the lemmas say what is left to repair after the parent took the new
 separator, after the parent was split itself, and after a new root was made.
 */
module BTreeGrowth {
  import opened Base
  import opened BTreeLevels

  /** The tree is whole except that levels[k][i + 1] has no entry in its parent yet. */
  predicate Pending(nodes: Nodes, root: PageId, levels: seq<Level>, rank: map<PageId, nat>, k: nat, i: nat) {
    && k < |levels| && i + 1 < |levels[k]|
    && root in nodes && nodes[root].parent == INVALID_PAGE_ID
    && LinksExcept(nodes, levels, k)
    && LeavesOK(nodes, levels[0])
    && Distinct(levels, rank)
    && MinFill(nodes, levels)
    && levels[k][i].id in nodes && levels[k][i + 1].id in nodes
    && nodes[levels[k][i + 1].id].parent == nodes[levels[k][i].id].parent
    && if k == |levels| - 1
       then PendingTop(nodes, root, levels[k], k)
       else levels[|levels| - 1] == [Ref(0, root)] && Link(nodes, RemoveAt(levels[k], i + 1), levels[k + 1])
  }

  predicate PendingTop(nodes: Nodes, root: PageId, top: Level, k: nat) {
    && |top| == 2 && top[0] == Ref(0, root)
    && (k > 0 ==> forall r :: r in top ==> IsInternal(nodes, r.id) && |nodes[r.id].keys| >= INTERNAL_MIN)
  }

  /** The child at position c of parent j in the level above is the node at position i. */
  predicate At(nodes: Nodes, upper: Level, i: nat, j: nat, c: nat) {
    && j < |upper| && c < |Kids(nodes, upper[j])|
    && |Flatten(nodes, upper[..j])| + c == i
  }

  // ---------------------------------------------------------------- node transformations

  function Reparent(nodes: Nodes, ids: seq<PageId>, p: PageId): (r: Nodes)
    ensures r.Keys == nodes.Keys
    ensures forall id :: id in nodes ==> SameBody(nodes[id], r[id])
    ensures forall id :: id in nodes ==> r[id].parent == if id in ids then p else nodes[id].parent
  {
    map id | id in nodes :: if id in ids then nodes[id].(parent := p) else nodes[id]
  }

  lemma ExpandInsert(lo: Key, keys: seq<Key>, children: seq<PageId>, c: nat, key: Key, id: PageId)
    requires |children| == |keys| + 1 && c <= |keys|
    ensures Expand(lo, InsertAt(keys, c, key), InsertAt(children, c + 1, id))
         == InsertAt(Expand(lo, keys, children), c + 1, Ref(key, id))
  {
  }

  /** Splitting an internal node at separator m moves that separator up and loses nothing. */
  lemma ExpandSplit(lo: Key, keys: seq<Key>, children: seq<PageId>, m: nat)
    requires |children| == |keys| + 1 && m < |keys|
    ensures Expand(lo, keys, children) ==
            Expand(lo, keys[..m], children[..m + 1]) + Expand(keys[m], keys[m + 1..], children[m + 1..])
  {
  }

  lemma InsertMiddle<T>(a: seq<T>, b: seq<T>, d: seq<T>, c: nat, x: T)
    requires c <= |b|
    ensures InsertAt(a + b + d, |a| + c, x) == a + InsertAt(b, c, x) + d
  {
  }

  /** Replacing node j by the nodes mid, whose children are node j's children with one more. */
  lemma {:induction false} FlattenReplace(nodes: Nodes, nodes': Nodes, a: Level, p: Ref, b: Level, mid: Level,
                                          c: nat, x: Ref, pos: nat)
    requires c <= |Kids(nodes, p)| && pos == |Flatten(nodes, a)| + c
    requires forall r :: r in a || r in b ==> Kids(nodes', r) == Kids(nodes, r)
    requires Flatten(nodes', mid) == InsertAt(Kids(nodes, p), c, x)
    ensures pos <= |Flatten(nodes, a + [p] + b)|
    ensures Flatten(nodes', a + mid + b) == InsertAt(Flatten(nodes, a + [p] + b), pos, x)
  {
    FlattenFrame(nodes, nodes', a);
    FlattenFrame(nodes, nodes', b);
    FlattenConcat(nodes', a + mid, b);
    FlattenConcat(nodes', a, mid);
    FlattenConcat(nodes, a + [p], b);
    FlattenConcat(nodes, a, [p]);
    assert Flatten(nodes, [p]) == Kids(nodes, p);
    InsertMiddle(Flatten(nodes, a), Kids(nodes, p), Flatten(nodes, b), c, x);
  }

  // ---------------------------------------------------------------- where the separator goes

  predicate Segment(flat: Level, off: nat, kids: Level) {
    && off + |kids| <= |flat|
    && forall d :: 0 <= d < |kids| ==> flat[off + d] == kids[d]
  }

  lemma {:induction false} KidsSegment(nodes: Nodes, upper: Level, j: nat)
    requires j < |upper|
    ensures Segment(Flatten(nodes, upper), |Flatten(nodes, upper[..j])|, Kids(nodes, upper[j]))
  {
    FlattenAround(nodes, upper, j);
    ConcatSegment(Flatten(nodes, upper[..j]), Kids(nodes, upper[j]), Flatten(nodes, upper[j + 1..]));
  }

  lemma ConcatSegment(a: Level, b: Level, d: Level)
    ensures Segment(a + b + d, |a|, b)
  {
  }

  predicate NonDecreasing(keys: seq<Key>) {
    forall a, b :: 0 <= a < b < |keys| ==> keys[a] <= keys[b]
  }

  lemma SegmentKeysSorted(flat: Level, off: nat, lo: Key, keys: seq<Key>, children: seq<PageId>)
    requires |children| == |keys| + 1 && Los(flat, 0) && Segment(flat, off, Expand(lo, keys, children))
    ensures NonDecreasing(keys)
  {
    var kids := Expand(lo, keys, children);
    forall a, b | 0 <= a < b < |keys| ensures keys[a] <= keys[b] {
      assert flat[off + (a + 1)] == kids[a + 1] && flat[off + (b + 1)] == kids[b + 1];
    }
  }

  /** pos is where a binary search for key ends: the child whose range holds key. */
  predicate Found(keys: seq<Key>, key: Key, pos: nat) {
    && pos <= |keys|
    && (forall a :: 0 <= a < pos ==> keys[a] <= key)
    && (forall a :: pos <= a < |keys| ==> key < keys[a])
  }

  /** A separator that fits after child c is found at position c. */
  lemma ChildPosition(flat: Level, off: nat, lo: Key, keys: seq<Key>, children: seq<PageId>, c: nat, key: Key, pos: nat)
    requires |children| == |keys| + 1 && Segment(flat, off, Expand(lo, keys, children))
    requires c < |children| && Found(keys, key, pos)
    requires flat[off + c].lo <= key && (c < |keys| ==> key < keys[c])
    ensures pos == c
  {
    assert flat[off + c] == Expand(lo, keys, children)[c];
  }

  /** The children of node j fill a run of the level below that starts at off. */
  predicate Run(lower: Level, upper: Level, j: nat, off: nat, keys: seq<Key>, children: seq<PageId>) {
    && j < |upper| && |children| == |keys| + 1
    && Segment(lower, off, Expand(upper[j].lo, keys, children))
    && AfterRun(lower, upper, j, off + |children|)
  }

  predicate AfterRun(lower: Level, upper: Level, j: nat, next: nat) {
    if j + 1 < |upper| then next < |lower| && lower[next].lo == upper[j + 1].lo else next == |lower|
  }

  lemma {:induction false} KidsAfter(nodes: Nodes, lower: Level, upper: Level, j: nat, next: nat)
    requires j < |upper| && lower == Flatten(nodes, upper)
    requires j + 1 < |upper| ==> IsInternal(nodes, upper[j + 1].id)
    requires next == |Flatten(nodes, upper[..j])| + |Kids(nodes, upper[j])|
    ensures AfterRun(lower, upper, j, next)
  {
    FlattenAround(nodes, upper, j);
    var rest := upper[j + 1..];
    if rest != [] {
      FirstBound(nodes, rest);
    }
    AfterConcat(lower, Flatten(nodes, upper[..j]), Kids(nodes, upper[j]), Flatten(nodes, rest), upper, j, next);
  }

  lemma AfterConcat(lower: Level, a: Level, kids: Level, b: Level, upper: Level, j: nat, next: nat)
    requires lower == a + kids + b && next == |a| + |kids|
    requires if j + 1 < |upper| then b != [] && b[0].lo == upper[j + 1].lo else b == []
    ensures AfterRun(lower, upper, j, next)
  {
  }

  lemma {:induction false} KidsBefore(nodes: Nodes, lower: Level, upper: Level, j: nat, off: nat, keys: seq<Key>,
                                      children: seq<PageId>)
    requires j < |upper| && lower == Flatten(nodes, upper) && off == |Flatten(nodes, upper[..j])|
    requires IsInternal(nodes, upper[j].id)
    requires keys == nodes[upper[j].id].keys && children == nodes[upper[j].id].children
    ensures Segment(lower, off, Expand(upper[j].lo, keys, children))
  {
    KidsSegment(nodes, upper, j);
  }

  lemma KidsRun(nodes: Nodes, lower: Level, upper: Level, j: nat, keys: seq<Key>, children: seq<PageId>)
    returns (off: nat)
    requires Link(nodes, lower, upper) && j < |upper|
    requires IsInternal(nodes, upper[j].id)
    requires keys == nodes[upper[j].id].keys && children == nodes[upper[j].id].children
    ensures Run(lower, upper, j, off, keys, children)
  {
    hide Flatten;
    off := |Flatten(nodes, upper[..j])|;
    KidsBefore(nodes, lower, upper, j, off, keys, children);
    assert j + 1 < |upper| ==> upper[j + 1] in upper;
    KidsAfter(nodes, lower, upper, j, off + |children|);
  }

  lemma CoverKid(lower: Level, upper: Level, j: nat, off: nat, keys: seq<Key>, children: seq<PageId>,
                 key: Key, pos: nat, i: nat)
    requires Run(lower, upper, j, off, keys, children) && Covers(upper, j, key)
    requires Found(keys, key, pos) && i == off + pos
    ensures i < |lower| && lower[i].id == children[pos] && Covers(lower, i, key)
  {
    var kids := Expand(upper[j].lo, keys, children);
    assert lower[off + pos] == kids[pos];
    assert pos + 1 < |kids| ==> lower[off + (pos + 1)] == kids[pos + 1];
  }

  /** Following the found child keeps the search key between the node's bounds. */
  lemma DescendStep(nodes: Nodes, lower: Level, upper: Level, j: nat, key: Key, pos: nat) returns (i: nat)
    requires Link(nodes, lower, upper) && j < |upper| && Covers(upper, j, key)
    requires IsInternal(nodes, upper[j].id) && Found(nodes[upper[j].id].keys, key, pos)
    ensures i < |lower| && lower[i].id == nodes[upper[j].id].children[pos] && Covers(lower, i, key)
  {
    var off := KidsRun(nodes, lower, upper, j, nodes[upper[j].id].keys, nodes[upper[j].id].children);
    i := off + pos;
    CoverKid(lower, upper, j, off, nodes[upper[j].id].keys, nodes[upper[j].id].children, key, pos, i);
  }

  predicate Covers(level: Level, j: nat, key: Key) {
    j < |level| && level[j].lo <= key && (j + 1 < |level| ==> key < level[j + 1].lo)
  }

  /** The position of the node over key: the last one whose bound is not above it. */
  function CoverOf(level: Level, key: Key): (j: nat)
    ensures level != [] ==> j < |level|
  {
    if |level| <= 1 then 0
    else if level[|level| - 1].lo <= key then |level| - 1
    else CoverOf(level[..|level| - 1], key)
  }

  lemma {:induction false} CoverExists(level: Level, key: Key)
    requires level != [] && level[0].lo <= key
    ensures Covers(level, CoverOf(level, key), key)
  {
    if |level| > 1 && key < level[|level| - 1].lo {
      CoverExists(level[..|level| - 1], key);
    }
  }

  lemma {:induction false} CoverOfIs(level: Level, j: nat, key: Key)
    requires Los(level, 0) && Covers(level, j, key)
    ensures CoverOf(level, key) == j
  {
    if |level| > 1 && key < level[|level| - 1].lo {
      CoverOfIs(level[..|level| - 1], j, key);
    }
  }

  // ---------------------------------------------------------------- the parent takes the separator

  /** The node's own two vectors after a child was put in after position c. */
  function WithChild(n: Node, c: nat, key: Key, child: PageId): Node
    requires n.Internal? && |n.children| == |n.keys| + 1 && c <= |n.keys|
  {
    n.(keys := InsertAt(n.keys, c, key), children := InsertAt(n.children, c + 1, child))
  }

  lemma {:induction false} WithChildKids(nodes: Nodes, nodes': Nodes, p: Ref, c: nat, key: Key, child: PageId)
    requires IsInternal(nodes, p.id) && c < |Kids(nodes, p)|
    requires p.id in nodes' && nodes'[p.id] == WithChild(nodes[p.id], c, key, child)
    ensures Kids(nodes', p) == InsertAt(Kids(nodes, p), c + 1, Ref(key, child))
    ensures Flatten(nodes', [p]) == Kids(nodes', p)
  {
  }

  /** A link whose nodes are all untouched survives a change elsewhere. */
  lemma OtherLink(nodes: Nodes, nodes': Nodes, levels: seq<Level>, m: nat)
    requires m + 1 < |levels| && Link(nodes, levels[m], levels[m + 1])
    requires forall r :: r in levels[m + 1] ==> r.id in nodes' && SameBody(nodes[r.id], nodes'[r.id])
    requires forall r :: r in levels[m] ==> r.id in nodes && r.id in nodes' && nodes'[r.id].parent == nodes[r.id].parent
    ensures Link(nodes', levels[m], levels[m + 1])
  {
    forall r | r in levels[m + 1] ensures SameParents(nodes, nodes', nodes[r.id]) {
      forall c | c in nodes[r.id].children
        ensures c in nodes && c in nodes' && nodes'[c].parent == nodes[c].parent
      {
        ChildInLower(nodes, levels[m + 1], r, c);
      }
    }
    LinkFrame(nodes, nodes', levels[m], levels[m + 1]);
  }

  lemma {:induction false} ChildInLower(nodes: Nodes, upper: Level, r: Ref, c: PageId)
    requires r in upper && IsInternal(nodes, r.id) && c in nodes[r.id].children
    ensures exists x :: x in Flatten(nodes, upper) && x.id == c
  {
    if upper[0] == r {
      var d :| 0 <= d < |nodes[r.id].children| && nodes[r.id].children[d] == c;
      assert Kids(nodes, r)[d].id == c;
      assert Kids(nodes, r)[d] in Flatten(nodes, upper);
    } else {
      ChildInLower(nodes, upper[1..], r, c);
    }
  }

  lemma InsertRemove<T>(s: seq<T>, i: nat)
    requires i < |s|
    ensures InsertAt(RemoveAt(s, i), i, s[i]) == s
  {
  }

  /** The node at position i is a child of p, so p is its stored parent. */
  lemma LeftParent(nodes: Nodes, lower: Level, upper: Level, i: nat, j: nat, c: nat)
    requires Link(nodes, lower, upper) && At(nodes, upper, i, j, c)
    ensures i < |lower| && lower[i] == Kids(nodes, upper[j])[c]
    ensures lower[i].id in nodes && nodes[lower[i].id].parent == upper[j].id
  {
    KidsSegment(nodes, upper, j);
    var kids := Kids(nodes, upper[j]);
    assert kids[c].id == nodes[upper[j].id].children[c];
    assert upper[j] in upper && Adopts(nodes, upper[j].id);
  }

  lemma SplitLevel(level: Level, j: nat)
    requires j < |level| && UniqueIds(level)
    ensures level == level[..j] + [level[j]] + level[j + 1..]
    ensures forall r :: r in level[..j] || r in level[j + 1..] ==> r in level && r.id != level[j].id
  {
  }

  lemma {:induction false} NewFlatten(nodes: Nodes, nodes': Nodes, upper: Level, a: Level, p: Ref, b: Level, c: nat,
                                      x: Ref,
                   lower: Level, pos: nat)
    requires upper == a + [p] + b && pos == |Flatten(nodes, a)| + c + 1
    requires IsInternal(nodes, p.id) && c < |Kids(nodes, p)|
    requires forall r :: r in a || r in b ==> r.id != p.id
    requires nodes' == nodes[p.id := WithChild(nodes[p.id], c, x.lo, x.id)]
    requires pos < |lower| && lower[pos] == x && Flatten(nodes, upper) == RemoveAt(lower, pos)
    ensures Flatten(nodes', upper) == lower
  {
    WithChildKids(nodes, nodes', p, c, x.lo, x.id);
    forall r | r in a || r in b ensures Kids(nodes', r) == Kids(nodes, r) {
      assert r.id != p.id;
    }
    FlattenReplace(nodes, nodes', a, p, b, [p], c + 1, x, pos);
    InsertRemove(lower, pos);
  }

  lemma NewParents(nodes: Nodes, nodes': Nodes, upper: Level, p: Ref, c: nat, x: Ref)
    requires p in upper && UpperOK(nodes, upper) && ParentsOK(nodes, upper) && c < |Kids(nodes, p)|
    requires x.id in nodes && nodes[x.id].parent == p.id
    requires nodes' == nodes[p.id := WithChild(nodes[p.id], c, x.lo, x.id)]
    ensures ParentsOK(nodes', upper)
  {
  }

  lemma NewUpper(nodes: Nodes, nodes': Nodes, upper: Level, p: Ref, c: nat, x: Ref)
    requires p in upper && UpperOK(nodes, upper) && c < |Kids(nodes, p)|
    requires |nodes[p.id].keys| < INTERNAL_MAX
    requires nodes' == nodes[p.id := WithChild(nodes[p.id], c, x.lo, x.id)]
    ensures UpperOK(nodes', upper)
  {
  }

  lemma {:induction false} NewLink(nodes: Nodes, nodes': Nodes, lower: Level, upper: Level, a: Level, p: Ref,
                                   b: Level, i: nat, c: nat)
    requires i + 1 < |lower| && Link(nodes, RemoveAt(lower, i + 1), upper)
    requires upper == a + [p] + b && p in upper && (forall r :: r in a || r in b ==> r.id != p.id)
    requires |Flatten(nodes, a)| + c == i && c < |Kids(nodes, p)|
    requires lower[i + 1].id in nodes && nodes[lower[i + 1].id].parent == p.id
    requires |nodes[p.id].keys| < INTERNAL_MAX
    requires nodes' == nodes[p.id := WithChild(nodes[p.id], c, lower[i + 1].lo, lower[i + 1].id)]
    ensures Link(nodes', lower, upper)
  {
    NewParents(nodes, nodes', upper, p, c, lower[i + 1]);
    NewUpper(nodes, nodes', upper, p, c, lower[i + 1]);
    NewFlatten(nodes, nodes', upper, a, p, b, c, lower[i + 1], lower, i + 1);
  }

  /** Every node of every level is stored. */
  lemma AllPresent(nodes: Nodes, levels: seq<Level>, hole: int)
    requires |levels| > 0 && LeavesOK(nodes, levels[0]) && LinksExcept(nodes, levels, hole)
    requires 0 <= hole < |levels| - 1 ==> UpperOK(nodes, levels[hole + 1])
    ensures forall m, r :: 0 <= m < |levels| && r in levels[m] ==> r.id in nodes
  {
    forall m, r | 0 <= m < |levels| && r in levels[m] ensures r.id in nodes {
      if m == 0 {
        var i :| 0 <= i < |levels[0]| && levels[0][i] == r;
        assert LeafOK(nodes, levels[0], i);
      } else if m - 1 != hole {
        assert Link(nodes, levels[m - 1], levels[m - 1 + 1]);
      }
    }
  }

  lemma ParentTakes(nodes: Nodes, nodes': Nodes, root: PageId, levels: seq<Level>, rank: map<PageId, nat>,
                    k: nat, i: nat, j: nat, c: nat)
    requires Pending(nodes, root, levels, rank, k, i) && k + 1 < |levels|
    requires At(nodes, levels[k + 1], i, j, c)
    requires var p := levels[k + 1][j].id;
      && |nodes[p].keys| < INTERNAL_MAX
      && nodes' == nodes[p := WithChild(nodes[p], c, levels[k][i + 1].lo, levels[k][i + 1].id)]
    ensures Structure(nodes', root, levels, rank)
  {
    var p := levels[k + 1][j];
    LeftParent(nodes, RemoveAt(levels[k], i + 1), levels[k + 1], i, j, c);
    AllPresent(nodes, levels, k);
    SplitLevel(levels[k + 1], j);
    NewLink(nodes, nodes', levels[k], levels[k + 1], levels[k + 1][..j], p, levels[k + 1][j + 1..], i, c);
    forall m | 0 <= m < |levels| - 1 && m != k ensures Link(nodes', levels[m], levels[m + 1]) {
      ParentTakesOther(nodes, nodes', levels, rank, k, p, m);
    }
    assert LinksExcept(nodes', levels, -1);
    assert p in levels[k + 1] && rank[p.id] == k + 1;
    LeavesElsewhere(nodes, nodes', levels, rank, p.id);
    MinFillGrows(nodes, nodes', levels, p.id);
  }

  lemma LeavesElsewhere(nodes: Nodes, nodes': Nodes, levels: seq<Level>, rank: map<PageId, nat>, p: PageId)
    requires |levels| > 0 && LeavesOK(nodes, levels[0]) && Distinct(levels, rank)
    requires p in rank && rank[p] > 0 && p in nodes' && nodes' == nodes[p := nodes'[p]]
    ensures LeavesOK(nodes', levels[0])
  {
    forall i | 0 <= i < |levels[0]| ensures LeafOK(nodes', levels[0], i) {
      assert LeafOK(nodes, levels[0], i);
      assert levels[0][i] in levels[0];
    }
  }

  lemma MinFillGrows(nodes: Nodes, nodes': Nodes, levels: seq<Level>, p: PageId)
    requires MinFill(nodes, levels) && IsInternal(nodes, p) && p in nodes' && nodes' == nodes[p := nodes'[p]]
    requires nodes'[p].Internal? && |nodes'[p].keys| >= |nodes[p].keys|
    ensures MinFill(nodes', levels)
  {
  }

  lemma ParentTakesOther(nodes: Nodes, nodes': Nodes, levels: seq<Level>, rank: map<PageId, nat>, k: nat, p: Ref,
                         m: nat)
    requires Distinct(levels, rank) && k + 1 < |levels| && p in levels[k + 1] && m + 1 < |levels| && m != k
    requires Link(nodes, levels[m], levels[m + 1])
    requires p.id in nodes && p.id in nodes' && nodes' == nodes[p.id := nodes'[p.id]]
    requires nodes'[p.id].parent == nodes[p.id].parent
    requires forall r :: r in levels[m] ==> r.id in nodes
    ensures Link(nodes', levels[m], levels[m + 1])
  {
    forall r | r in levels[m + 1] ensures r.id in nodes' && SameBody(nodes[r.id], nodes'[r.id]) {
      assert rank[r.id] == m + 1;
    }
    OtherLink(nodes, nodes', levels, m);
  }

  // ---------------------------------------------------------------- the parent is split itself

  const MID := 254

  /** p keeps the first 254 separators of n, q gets the last 253 with their children. */
  predicate Halved(nodes: Nodes, nodes': Nodes, p: PageId, q: PageId, n: Node) {
    && p in nodes && q !in nodes && q != INVALID_PAGE_ID
    && n.Internal? && |n.keys| == INTERNAL_MAX + 1 && |n.children| == |n.keys| + 1
    && n.parent == nodes[p].parent
    && nodes'.Keys == nodes.Keys + {q}
    && nodes'[p].Internal? && nodes'[p].parent == n.parent
    && nodes'[p].keys == n.keys[..MID] && nodes'[p].children == n.children[..MID + 1]
    && nodes'[q].Internal? && nodes'[q].parent == n.parent
    && nodes'[q].keys == n.keys[MID + 1..] && nodes'[q].children == n.children[MID + 1..]
    && forall id :: id in nodes && id != p ==>
         && SameBody(nodes[id], nodes'[id])
         && nodes'[id].parent == if id in n.children[MID + 1..] then q else nodes[id].parent
  }

  lemma {:induction false} HalvedKids(nodes: Nodes, nodes': Nodes, p: Ref, q: PageId, n: Node)
    requires Halved(nodes, nodes', p.id, q, n)
    ensures Flatten(nodes', [p, Ref(n.keys[MID], q)]) == Expand(p.lo, n.keys, n.children)
  {
    var r := Ref(n.keys[MID], q);
    assert [p, r][1..] == [r] && [r][1..] == [];
    assert Flatten(nodes', [r]) == Kids(nodes', r);
    assert Flatten(nodes', [p, r]) == Kids(nodes', p) + Kids(nodes', r);
    ExpandSplit(p.lo, n.keys, n.children, MID);
  }

  lemma SegmentIds(lower: Level, off: nat, lo: Key, keys: seq<Key>, children: seq<PageId>)
    requires |children| == |keys| + 1 && UniqueIds(lower) && Segment(lower, off, Expand(lo, keys, children))
    ensures NoDup(children)
    ensures forall x :: x in children ==> exists r :: r in lower && r.id == x
  {
    var kids := Expand(lo, keys, children);
    forall a, b | 0 <= a < b < |children| ensures children[a] != children[b] {
      assert lower[off + a] == kids[a] && lower[off + b] == kids[b];
    }
    forall x | x in children ensures exists r :: r in lower && r.id == x {
      var a :| 0 <= a < |children| && children[a] == x;
      assert lower[off + a] == kids[a];
    }
  }

  /** With the new child, p's children are a run of the lower level. */
  lemma GrownSegment(nodes: Nodes, lower: Level, upper: Level, i: nat, j: nat, c: nat)
    requires i + 1 < |lower| && Link(nodes, RemoveAt(lower, i + 1), upper) && At(nodes, upper, i, j, c)
    ensures var n := WithChild(nodes[upper[j].id], c, lower[i + 1].lo, lower[i + 1].id);
            i >= c && Segment(lower, i - c, Expand(upper[j].lo, n.keys, n.children))
  {
    var p := upper[j];
    KidsSegment(nodes, upper, j);
    assert p in upper;
    ExpandInsert(p.lo, nodes[p.id].keys, nodes[p.id].children, c, lower[i + 1].lo, lower[i + 1].id);
    InsertSegment(lower, i, i - c, Kids(nodes, p), c);
  }

  lemma InsertSegment(lower: Level, i: nat, off: nat, kids: Level, c: nat)
    requires off + c == i && c < |kids| && i + 1 < |lower|
    requires Segment(RemoveAt(lower, i + 1), off, kids)
    ensures Segment(lower, off, InsertAt(kids, c + 1, lower[i + 1]))
  {
  }

  lemma {:induction false} SplitFlatten(nodes: Nodes, nodes': Nodes, upper: Level, a: Level, p: Ref, b: Level,
                                        q: PageId, n: Node,
                     c: nat, x: Ref, lower: Level, mid: Level, upper': Level, pos: nat)
    requires Halved(nodes, nodes', p.id, q, n)
    requires upper == a + [p] + b && mid == [p, Ref(n.keys[MID], q)] && upper' == a + mid + b
    requires c < |Kids(nodes, p)| && pos == |Flatten(nodes, a)| + c + 1
    requires Expand(p.lo, n.keys, n.children) == InsertAt(Kids(nodes, p), c + 1, x)
    requires forall r :: r in a || r in b ==> r.id != p.id && IsInternal(nodes, r.id)
    requires pos < |lower| && lower[pos] == x && Flatten(nodes, upper) == RemoveAt(lower, pos)
    ensures Flatten(nodes', upper') == lower
  {
    HalvedKids(nodes, nodes', p, q, n);
    SplitFrame(nodes, nodes', a, p, q, n);
    SplitFrame(nodes, nodes', b, p, q, n);
    FlattenReplace(nodes, nodes', a, p, b, mid, c + 1, x, pos);
    InsertRemove(lower, pos);
  }

  lemma SplitFrame(nodes: Nodes, nodes': Nodes, a: Level, p: Ref, q: PageId, n: Node)
    requires Halved(nodes, nodes', p.id, q, n)
    requires forall r :: r in a ==> r.id != p.id && IsInternal(nodes, r.id)
    ensures forall r :: r in a ==> Kids(nodes', r) == Kids(nodes, r)
  {
  }

  lemma SplitParents(nodes: Nodes, nodes': Nodes, upper: Level, upper': Level, p: Ref, q: PageId, n: Node)
    requires Halved(nodes, nodes', p.id, q, n) && NoDup(n.children)
    requires UpperOK(nodes, upper) && ParentsOK(nodes, upper) && p in upper
    requires forall x :: x in n.children ==> x in nodes && x != p.id && nodes[x].parent == p.id
    requires forall r :: r in upper' ==> r == p || r.id == q || (r in upper && r.id != p.id)
    ensures ParentsOK(nodes', upper') && UpperOK(nodes', upper')
  {
    forall r | r in upper' ensures IsInternal(nodes', r.id) && 1 <= |nodes'[r.id].keys| <= INTERNAL_MAX {
      if r in upper && r.id != p.id {
        KidsSame(nodes, nodes', r);
      }
    }
    forall r | r in upper' && IsInternal(nodes', r.id) ensures Adopts(nodes', r.id) {
      if r == p {
        KeptAdopted(nodes, nodes', p.id, q, n);
      } else if r.id != q {
        KidsSame(nodes, nodes', r);
        assert Adopts(nodes, r.id);
        forall x | x in nodes'[r.id].children ensures x in nodes' && nodes'[x].parent == r.id {
          assert x in nodes && nodes[x].parent == r.id && x !in n.children;
        }
      } else {
        GivenAdopted(nodes, nodes', p.id, q, n);
      }
    }
  }

  lemma KeptAdopted(nodes: Nodes, nodes': Nodes, p: PageId, q: PageId, n: Node)
    requires Halved(nodes, nodes', p, q, n) && NoDup(n.children)
    requires forall x :: x in n.children ==> x in nodes && x != p && nodes[x].parent == p
    ensures IsInternal(nodes', p) && Adopts(nodes', p)
  {
  }

  lemma GivenAdopted(nodes: Nodes, nodes': Nodes, p: PageId, q: PageId, n: Node)
    requires Halved(nodes, nodes', p, q, n)
    requires forall x :: x in n.children ==> x in nodes && x != p && nodes[x].parent == p
    ensures IsInternal(nodes', q) && Adopts(nodes', q)
  {
  }

  lemma InsertAsMiddle(level: Level, j: nat, x: Ref)
    requires j < |level|
    ensures InsertAt(level, j + 1, x) == level[..j] + [level[j], x] + level[j + 1..]
    ensures forall r :: r in InsertAt(level, j + 1, x) <==> r in level || r == x
  {
  }

  /** What the grown parent's children are: stored, distinct, one level down, and pointing at p. */
  lemma GrownChildren(nodes: Nodes, lower: Level, upper: Level, i: nat, j: nat, c: nat, p: Ref, l: Ref, n: Node)
    requires i + 1 < |lower| && Link(nodes, RemoveAt(lower, i + 1), upper) && At(nodes, upper, i, j, c)
    requires p == upper[j] && l == lower[i + 1] && UniqueIds(lower)
    requires l.id in nodes && lower[i].id in nodes && nodes[l.id].parent == nodes[lower[i].id].parent
    requires n == WithChild(nodes[p.id], c, l.lo, l.id)
    ensures nodes[l.id].parent == p.id && NoDup(n.children)
    ensures forall x :: x in n.children ==> x in nodes && nodes[x].parent == p.id && exists r :: r in lower && r.id == x
  {
    GrownSegment(nodes, lower, upper, i, j, c);
    SegmentIds(lower, i - c, p.lo, n.keys, n.children);
    LeftParent(nodes, RemoveAt(lower, i + 1), upper, i, j, c);
    assert p in upper && Adopts(nodes, p.id);
    forall x | x in n.children ensures x in nodes && nodes[x].parent == p.id {
      if x != l.id {
        assert x in nodes[p.id].children;
      }
    }
  }

  lemma ReplacedOnly(upper: Level, j: nat, p: Ref, x: Ref, upper': Level)
    requires j < |upper| && UniqueIds(upper) && p == upper[j] && upper' == InsertAt(upper, j + 1, x)
    ensures forall r :: r in upper' ==> r == p || r == x || (r in upper && r.id != p.id)
  {
  }

  lemma SplitLink(nodes: Nodes, nodes': Nodes, lower: Level, upper: Level, upper': Level, i: nat, j: nat, c: nat,
                  p: Ref, l: Ref, q: PageId, n: Node)
    requires i + 1 < |lower| && Link(nodes, RemoveAt(lower, i + 1), upper) && UniqueIds(upper)
    requires At(nodes, upper, i, j, c) && p == upper[j] && l == lower[i + 1]
    requires n == WithChild(nodes[p.id], c, l.lo, l.id)
    requires Halved(nodes, nodes', p.id, q, n) && NoDup(n.children)
    requires forall x :: x in n.children ==> x in nodes && x != p.id && nodes[x].parent == p.id
    requires upper' == InsertAt(upper, j + 1, Ref(n.keys[MID], q))
    ensures Link(nodes', lower, upper')
  {
    assert p in upper;
    ReplacedOnly(upper, j, p, Ref(n.keys[MID], q), upper');
    SplitParents(nodes, nodes', upper, upper', p, q, n);
    SplitLinkFlatten(nodes, nodes', lower, upper, upper', i, j, c, p, l, q, n);
  }

  lemma {:induction false} SplitLinkFlatten(nodes: Nodes, nodes': Nodes, lower: Level, upper: Level, upper': Level,
                                            i: nat, j: nat, c: nat,
                         p: Ref, l: Ref, q: PageId, n: Node)
    requires i + 1 < |lower| && UpperOK(nodes, upper) && Flatten(nodes, upper) == RemoveAt(lower, i + 1)
    requires UniqueIds(upper) && At(nodes, upper, i, j, c) && p == upper[j] && l == lower[i + 1]
    requires p in upper && n == WithChild(nodes[p.id], c, l.lo, l.id)
    requires Halved(nodes, nodes', p.id, q, n)
    requires upper' == InsertAt(upper, j + 1, Ref(n.keys[MID], q))
    ensures Flatten(nodes', upper') == lower
  {
    SplitLevel(upper, j);
    InsertAsMiddle(upper, j, Ref(n.keys[MID], q));
    ExpandInsert(p.lo, nodes[p.id].keys, nodes[p.id].children, c, l.lo, l.id);
    SplitFlatten(nodes, nodes', upper, upper[..j], p, upper[j + 1..], q, n, c, l, lower,
                 [p, Ref(n.keys[MID], q)], upper', i + 1);
  }

  lemma SplitOther(nodes: Nodes, nodes': Nodes, levels: seq<Level>, rank: map<PageId, nat>, k: nat, p: Ref, q: PageId,
                   n: Node, m: nat)
    requires Halved(nodes, nodes', p.id, q, n)
    requires Distinct(levels, rank) && k + 1 < |levels| && p in levels[k + 1] && m + 1 < |levels| && m != k
    requires Link(nodes, levels[m], levels[m + 1])
    requires forall x :: x in n.children ==> x in rank && rank[x] == k
    requires forall r :: r in levels[m] ==> r.id in nodes
    ensures Link(nodes', levels[m], levels[m + 1])
  {
    forall r | r in levels[m + 1] ensures r.id in nodes' && SameBody(nodes[r.id], nodes'[r.id]) {
      assert rank[r.id] == m + 1;
    }
    forall r | r in levels[m] ensures r.id in nodes' && nodes'[r.id].parent == nodes[r.id].parent {
      assert rank[r.id] == m;
      assert r.id !in n.children;
    }
    OtherLink(nodes, nodes', levels, m);
  }

  lemma SplitDistinct(levels: seq<Level>, levels': seq<Level>, rank: map<PageId, nat>, k: nat, j: nat, x: Ref)
    requires Distinct(levels, rank) && k < |levels| && j < |levels[k]|
    requires x.id != INVALID_PAGE_ID && forall m, r :: 0 <= m < |levels| && r in levels[m] ==> r.id != x.id
    requires levels' == levels[k := InsertAt(levels[k], j + 1, x)]
    ensures Distinct(levels', rank[x.id := k])
  {
  }

  lemma SplitMinFill(nodes: Nodes, nodes': Nodes, levels: seq<Level>, levels': seq<Level>, k: nat, j: nat, x: Ref,
                     n: Node)
    requires k < |levels| && j < |levels[k]| && MinFill(nodes, levels)
    requires Halved(nodes, nodes', levels[k][j].id, x.id, n)
    requires levels' == levels[k := InsertAt(levels[k], j + 1, x)]
    requires forall m, r :: 0 <= m < |levels| && r in levels[m] ==> r.id in nodes
    ensures MinFill(nodes', levels')
  {
  }

  lemma SplitLeaves(nodes: Nodes, nodes': Nodes, levels: seq<Level>, rank: map<PageId, nat>, p: PageId, q: PageId,
                    n: Node)
    requires |levels| > 0 && LeavesOK(nodes, levels[0]) && Distinct(levels, rank)
    requires p in rank && rank[p] > 0 && Halved(nodes, nodes', p, q, n)
    ensures LeavesOK(nodes', levels[0])
  {
    forall i | 0 <= i < |levels[0]| ensures LeafOK(nodes', levels[0], i) {
      assert LeafOK(nodes, levels[0], i);
      assert levels[0][i] in levels[0];
    }
  }

  lemma SplitLevels(nodes: Nodes, nodes': Nodes, root: PageId, levels: seq<Level>, levels': seq<Level>,
                    rank: map<PageId, nat>, k: nat, i: nat, j: nat, c: nat, p: Ref, l: Ref, x: Ref, n: Node)
    requires Pending(nodes, root, levels, rank, k, i) && k + 1 < |levels| && At(nodes, levels[k + 1], i, j, c)
    requires p == levels[k + 1][j] && l == levels[k][i + 1] && n == WithChild(nodes[p.id], c, l.lo, l.id)
    requires Halved(nodes, nodes', p.id, x.id, n) && x.lo == n.keys[MID]
    requires levels' == levels[k + 1 := InsertAt(levels[k + 1], j + 1, x)]
    ensures p in levels[k + 1] && rank[p.id] == k + 1
    ensures forall m, r :: 0 <= m < |levels| && r in levels[m] ==> r.id in nodes
    ensures forall y :: y in n.children ==> y in rank && rank[y] == k
    ensures Link(nodes', levels[k], levels'[k + 1])
  {
    AllPresent(nodes, levels, k);
    GrownChildren(nodes, levels[k], levels[k + 1], i, j, c, p, l, n);
    SplitLink(nodes, nodes', levels[k], levels[k + 1], levels'[k + 1], i, j, c, p, l, x.id, n);
  }

  /** After a full parent was split, the cascade stands one level higher. */
  lemma ParentSplits(nodes: Nodes, nodes': Nodes, root: PageId, levels: seq<Level>, levels': seq<Level>,
                     rank: map<PageId, nat>, k: nat, up: nat, i: nat, j: nat, c: nat, p: Ref, l: Ref, x: Ref, n: Node)
    requires Pending(nodes, root, levels, rank, k, i) && up == k + 1 < |levels| && At(nodes, levels[up], i, j, c)
    requires p == levels[up][j] && l == levels[k][i + 1] && n == WithChild(nodes[p.id], c, l.lo, l.id)
    requires Halved(nodes, nodes', p.id, x.id, n) && x.lo == n.keys[MID]
    requires levels' == levels[up := InsertAt(levels[up], j + 1, x)]
    ensures Pending(nodes', root, levels', rank[x.id := up], up, j)
  {
    SplitLevels(nodes, nodes', root, levels, levels', rank, k, i, j, c, p, l, x, n);
    SplitDistinct(levels, levels', rank, up, j, x);
    SplitMinFill(nodes, nodes', levels, levels', up, j, x, n);
    SplitLeaves(nodes, nodes', levels, rank, p.id, x.id, n);
    SplitLinks(nodes, nodes', levels, levels', rank, up, j, p, x, n);
    SplitRoot(nodes, nodes', root, levels, rank, up, p, x, n);
    SplitTop(levels, levels', root, up, j, p, x);
  }

  lemma SplitTop(levels: seq<Level>, levels': seq<Level>, root: PageId, up: nat, j: nat, p: Ref, x: Ref)
    requires up < |levels| && j < |levels[up]| && p == levels[up][j]
    requires levels[|levels| - 1] == [Ref(0, root)]
    requires levels' == levels[up := InsertAt(levels[up], j + 1, x)]
    ensures j + 1 < |levels'[up]| && levels'[up][j] == p && levels'[up][j + 1] == x
    ensures if up == |levels| - 1 then levels'[up] == [p, x] else levels'[|levels'| - 1] == [Ref(0, root)]
  {
  }

  lemma SplitLinks(nodes: Nodes, nodes': Nodes, levels: seq<Level>, levels': seq<Level>, rank: map<PageId, nat>,
                   up: nat, j: nat, p: Ref, x: Ref, n: Node)
    requires 0 < up < |levels| && j < |levels[up]| && p in levels[up] && Halved(nodes, nodes', p.id, x.id, n)
    requires Distinct(levels, rank) && LinksExcept(nodes, levels, up - 1)
    requires forall m, r :: 0 <= m < |levels| && r in levels[m] ==> r.id in nodes
    requires forall y :: y in n.children ==> y in rank && rank[y] == up - 1
    requires levels' == levels[up := InsertAt(levels[up], j + 1, x)]
    requires Link(nodes', levels[up - 1], levels'[up])
    ensures LinksExcept(nodes', levels', up)
    ensures up + 1 < |levels'| ==> Link(nodes', RemoveAt(levels'[up], j + 1), levels'[up + 1])
  {
    hide Link;
    forall m | 0 <= m < |levels| - 1 && m != up - 1 ensures Link(nodes', levels[m], levels[m + 1]) {
      SplitOther(nodes, nodes', levels, rank, up - 1, p, x.id, n, m);
    }
    RemoveInserted(levels[up], j + 1, x);
    LinksMoved(nodes', levels, levels', up);
  }

  lemma LinksMoved(nodes: Nodes, levels: seq<Level>, levels': seq<Level>, up: nat)
    requires 0 < up < |levels| == |levels'| && levels' == levels[up := levels'[up]]
    requires LinksExcept(nodes, levels, up - 1)
    requires Link(nodes, levels[up - 1], levels'[up])
    ensures LinksExcept(nodes, levels', up)
  {
  }

  lemma RemoveInserted<T>(s: seq<T>, i: nat, x: T)
    requires i <= |s|
    ensures RemoveAt(InsertAt(s, i, x), i) == s
  {
  }

  lemma SplitRoot(nodes: Nodes, nodes': Nodes, root: PageId, levels: seq<Level>, rank: map<PageId, nat>,
                  up: nat, p: Ref, x: Ref, n: Node)
    requires 0 < up < |levels| && p in levels[up] && Distinct(levels, rank) && Halved(nodes, nodes', p.id, x.id, n)
    requires levels[|levels| - 1] == [Ref(0, root)] && root in nodes && nodes[root].parent == INVALID_PAGE_ID
    requires forall y :: y in n.children ==> y in rank && rank[y] == up - 1
    ensures root in nodes' && nodes'[root].parent == INVALID_PAGE_ID
    ensures nodes'[x.id].parent == nodes'[p.id].parent
    ensures up == |levels| - 1 ==> p == Ref(0, root) && PendingTop(nodes', root, [p, x], up)
  {
  }

  // ---------------------------------------------------------------- the root is split

  /** A new root q above the old root and its new right sibling x. */
  predicate Rooted(nodes: Nodes, nodes': Nodes, root: PageId, x: Ref, q: PageId) {
    && q !in nodes && q != INVALID_PAGE_ID
    && nodes'.Keys == nodes.Keys + {q}
    && nodes'[q].Internal? && nodes'[q].parent == INVALID_PAGE_ID
    && nodes'[q].keys == [x.lo] && nodes'[q].children == [root, x.id]
    && forall id :: id in nodes ==>
         && SameBody(nodes[id], nodes'[id])
         && nodes'[id].parent == if id == root || id == x.id then q else nodes[id].parent
  }

  lemma RootLink(nodes: Nodes, nodes': Nodes, root: PageId, top: Level, q: PageId)
    requires |top| == 2 && top[0] == Ref(0, root) && Rooted(nodes, nodes', root, top[1], q)
    requires root in nodes && top[1].id in nodes
    ensures Link(nodes', top, [Ref(0, q)])
  {
  }

  lemma RootOther(nodes: Nodes, nodes': Nodes, root: PageId, levels: seq<Level>, rank: map<PageId, nat>,
                  top: nat, q: PageId, m: nat)
    requires top < |levels| && |levels[top]| == 2 && levels[top][0] == Ref(0, root)
    requires Rooted(nodes, nodes', root, levels[top][1], q) && Distinct(levels, rank) && m < top
    requires Link(nodes, levels[m], levels[m + 1]) && forall r :: r in levels[m] ==> r.id in nodes
    ensures Link(nodes', levels[m], levels[m + 1])
  {
    assert levels[top][0] in levels[top] && levels[top][1] in levels[top];
    forall r | r in levels[m] ensures r.id in nodes' && nodes'[r.id].parent == nodes[r.id].parent {
      assert rank[r.id] == m;
    }
    forall r | r in levels[m + 1] ensures r.id in nodes' && SameBody(nodes[r.id], nodes'[r.id]) {
    }
    OtherLink(nodes, nodes', levels, m);
  }

  /** After the root was split and a new root made, the tree is whole and one level higher. */
  lemma RootGrows(nodes: Nodes, nodes': Nodes, root: PageId, levels: seq<Level>, levels': seq<Level>,
                  rank: map<PageId, nat>, k: nat, i: nat, x: Ref, q: PageId)
    requires Pending(nodes, root, levels, rank, k, i) && k == |levels| - 1 && x == levels[k][1]
    requires Rooted(nodes, nodes', root, x, q)
    requires levels' == levels + [[Ref(0, q)]]
    ensures Structure(nodes', q, levels', rank[q := k + 1])
  {
    AllPresent(nodes, levels, k);
    RootLink(nodes, nodes', root, levels[k], q);
    forall m | 0 <= m < |levels'| - 1 ensures Link(nodes', levels'[m], levels'[m + 1]) {
      if m < k {
        RootOther(nodes, nodes', root, levels, rank, k, q, m);
      }
    }
    RootDistinct(nodes, levels, levels', rank, q);
    RootMinFill(nodes, nodes', root, levels, levels', x, q);
    RootLeaves(nodes, nodes', root, levels[0], x, q);
  }

  lemma RootDistinct(nodes: Nodes, levels: seq<Level>, levels': seq<Level>, rank: map<PageId, nat>, q: PageId)
    requires Distinct(levels, rank) && q !in nodes && q != INVALID_PAGE_ID && levels' == levels + [[Ref(0, q)]]
    requires forall m, r :: 0 <= m < |levels| && r in levels[m] ==> r.id in nodes
    ensures Distinct(levels', rank[q := |levels|])
  {
  }

  lemma RootLeaves(nodes: Nodes, nodes': Nodes, root: PageId, leaves: Level, x: Ref, q: PageId)
    requires LeavesOK(nodes, leaves) && Rooted(nodes, nodes', root, x, q)
    ensures LeavesOK(nodes', leaves)
  {
    forall i | 0 <= i < |leaves| ensures LeafOK(nodes', leaves, i) {
      assert LeafOK(nodes, leaves, i);
    }
  }

  lemma RootMinFill(nodes: Nodes, nodes': Nodes, root: PageId, levels: seq<Level>, levels': seq<Level>, x: Ref,
                    q: PageId)
    requires |levels| > 0 && MinFill(nodes, levels) && levels' == levels + [[Ref(0, q)]]
    requires Rooted(nodes, nodes', root, x, q)
    requires PendingTop(nodes, root, levels[|levels| - 1], |levels| - 1)
    requires forall m, r :: 0 <= m < |levels| && r in levels[m] ==> r.id in nodes
    ensures MinFill(nodes', levels')
  {
  }

  // ---------------------------------------------------------------- a leaf is split

  const LEAF_MID := 203

  /** Leaf l keeps the first 203 entries and links to the new leaf q with the rest. */
  predicate LeafCut(nodes: Nodes, nodes': Nodes, l: PageId, q: PageId, all: seq<Entry>) {
    && l in nodes && nodes[l].Leaf? && q !in nodes && q != INVALID_PAGE_ID && |all| == LEAF_MAX + 1
    && nodes' == nodes[l := Leaf(nodes[l].parent, q, all[..LEAF_MID])]
                      [q := Leaf(nodes[l].parent, nodes[l].next, all[LEAF_MID..])]
  }

  lemma CutChain(nodes: Nodes, nodes': Nodes, leaves: Level, leaves': Level, j: nat, x: Ref, all: seq<Entry>)
    requires LeavesOK(nodes, leaves) && UniqueIds(leaves) && j < |leaves|
    requires LeafCut(nodes, nodes', leaves[j].id, x.id, all)
    requires leaves' == InsertAt(leaves, j + 1, x)
    ensures LeavesOK(nodes', leaves')
  {
    forall i | 0 <= i < |leaves'| ensures LeafOK(nodes', leaves', i) {
      var was := if i <= j then i else i - 1;
      assert LeafOK(nodes, leaves, was);
      assert leaves[was].id in nodes && leaves[was].id != x.id;
      if i < j {
        assert leaves[i].id != leaves[j].id && leaves'[i + 1] == leaves[i + 1];
      } else if i == j {
        assert leaves'[i + 1] == x;
      } else {
        if i > j + 1 {
          assert leaves[j].id != leaves[was].id;
        }
        if i + 1 < |leaves'| {
          assert leaves'[i + 1] == leaves[was + 1];
        }
      }
    }
  }

  lemma CutOther(nodes: Nodes, nodes': Nodes, levels: seq<Level>, rank: map<PageId, nat>, l: Ref, q: PageId,
                 all: seq<Entry>, m: nat)
    requires LeafCut(nodes, nodes', l.id, q, all) && Distinct(levels, rank)
    requires m + 1 < |levels| && l in levels[0] && Link(nodes, levels[m], levels[m + 1])
    requires forall r :: r in levels[m] ==> r.id in nodes
    ensures Link(nodes', levels[m], levels[m + 1])
  {
    hide Flatten, ParentsOK;
    forall r | r in levels[m + 1] ensures r.id in nodes' && SameBody(nodes[r.id], nodes'[r.id]) {
      assert rank[r.id] == m + 1;
    }
    OtherLink(nodes, nodes', levels, m);
  }

  lemma CutMinFill(nodes: Nodes, nodes': Nodes, levels: seq<Level>, levels': seq<Level>, l: PageId, q: PageId,
                   all: seq<Entry>)
    requires |levels'| == |levels| > 0 && LeafCut(nodes, nodes', l, q, all) && MinFill(nodes, levels)
    requires levels' == levels[0 := levels'[0]]
    ensures MinFill(nodes', levels')
  {
  }

  /** After a leaf was split, its new right sibling waits for an entry in the parent. */
  lemma LeafSplits(nodes: Nodes, nodes': Nodes, root: PageId, levels: seq<Level>, levels': seq<Level>,
                   rank: map<PageId, nat>, j: nat, l: Ref, x: Ref, all: seq<Entry>)
    requires Structure(nodes, root, levels, rank) && j < |levels[0]| && l == levels[0][j]
    requires LeafCut(nodes, nodes', l.id, x.id, all)
    requires levels' == levels[0 := InsertAt(levels[0], j + 1, x)]
    ensures Pending(nodes', root, levels', rank[x.id := 0], 0, j)
  {
    hide Link;
    assert l in levels[0] && rank[l.id] == 0;
    AllPresent(nodes, levels, -1);
    CutChain(nodes, nodes', levels[0], levels'[0], j, x, all);
    SplitDistinct(levels, levels', rank, 0, j, x);
    CutMinFill(nodes, nodes', levels, levels', l.id, x.id, all);
    forall m | 0 <= m < |levels| - 1 ensures Link(nodes', levels[m], levels[m + 1]) {
      CutOther(nodes, nodes', levels, rank, l, x.id, all, m);
    }
    RemoveInserted(levels[0], j + 1, x);
    CutTop(levels, levels', root, j, l, x);
    assert root == l.id || root != x.id;
  }

  lemma CutTop(levels: seq<Level>, levels': seq<Level>, root: PageId, j: nat, l: Ref, x: Ref)
    requires |levels| > 0 && j < |levels[0]| && l == levels[0][j] && levels[|levels| - 1] == [Ref(0, root)]
    requires levels' == levels[0 := InsertAt(levels[0], j + 1, x)]
    ensures j + 1 < |levels'[0]| && levels'[0][j] == l && levels'[0][j + 1] == x
    ensures if |levels| == 1 then levels'[0] == [Ref(0, root), x] else levels'[|levels'| - 1] == [Ref(0, root)]
  {
  }

  // ---------------------------------------------------------------- changes inside one leaf

  lemma LeafChanges(nodes: Nodes, nodes': Nodes, root: PageId, levels: seq<Level>, rank: map<PageId, nat>, j: nat,
                    n: Node)
    requires Structure(nodes, root, levels, rank) && j < |levels[0]| && LeafOK(nodes, levels[0], j)
    requires n.Leaf? && |n.entries| <= LEAF_MAX
    requires nodes' == nodes[levels[0][j].id := n]
    requires n.parent == nodes[levels[0][j].id].parent && n.next == nodes[levels[0][j].id].next
    ensures Structure(nodes', root, levels, rank)
  {
    hide Link;
    var l := levels[0][j];
    assert l in levels[0] && rank[l.id] == 0;
    AllPresent(nodes, levels, -1);
    forall m | 0 <= m < |levels| - 1 && m != -1 ensures Link(nodes', levels[m], levels[m + 1]) {
      LeafChangesOther(nodes, nodes', levels, rank, l, n, m);
    }
    forall k, r | 1 <= k < |levels| - 1 && r in levels[k] && IsInternal(nodes', r.id)
      ensures |nodes'[r.id].keys| >= INTERNAL_MIN
    {
      assert IsInternal(nodes, r.id);
    }
    forall i | 0 <= i < |levels[0]| ensures LeafOK(nodes', levels[0], i) {
      assert LeafOK(nodes, levels[0], i);
      assert i != j ==> levels[0][i].id != l.id;
    }
  }

  lemma LeafChangesOther(nodes: Nodes, nodes': Nodes, levels: seq<Level>, rank: map<PageId, nat>, l: Ref, n: Node,
                         m: nat)
    requires Distinct(levels, rank) && m + 1 < |levels| && l in levels[0] && Link(nodes, levels[m], levels[m + 1])
    requires l.id in nodes && nodes' == nodes[l.id := n] && n.parent == nodes[l.id].parent
    requires forall r :: r in levels[m] ==> r.id in nodes
    ensures Link(nodes', levels[m], levels[m + 1])
  {
    hide Flatten, ParentsOK;
    forall r | r in levels[m + 1] ensures r.id in nodes' && SameBody(nodes[r.id], nodes'[r.id]) {
      assert rank[r.id] == m + 1;
    }
    OtherLink(nodes, nodes', levels, m);
  }

  // ---------------------------------------------------------------- bounds at every level

  /** Bounds that grow along the leaves grow at every height. */
  lemma {:induction false} LosEverywhere(nodes: Nodes, levels: seq<Level>, hole: int, gap: nat, m: nat)
    requires LinksExcept(nodes, levels, hole) && hole < 0 && m < |levels| && Los(levels[0], gap)
    ensures Los(levels[m], gap)
  {
    if m > 0 {
      LosEverywhere(nodes, levels, hole, gap, m - 1);
      assert Link(nodes, levels[m - 1], levels[m - 1 + 1]);
      LosUp(nodes, levels[m], gap);
    }
  }
}

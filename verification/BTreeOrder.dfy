/**
 The contents of the index: the entries of the leaves from left to right, and the
 order that keys, separators and leaves keep among each other.
 */
module BTreeOrder {
  import opened Base
  import opened BTreeLevels
  import opened BTreeGrowth
  import opened SortedEntries

  function LeafEntries(nodes: Nodes, id: PageId): seq<Entry> {
    if id in nodes && nodes[id].Leaf? then nodes[id].entries else []
  }

  function Entries(nodes: Nodes, leaves: Level): seq<Entry> {
    if leaves == [] then [] else LeafEntries(nodes, leaves[0].id) + Entries(nodes, leaves[1..])
  }

  /** The exclusive upper bound of leaf i: the next separator, or past the largest key. */
  function Upper(leaves: Level, i: nat): int
    requires i < |leaves|
  {
    if i + 1 < |leaves| then leaves[i + 1].lo else 0x1_0000_0000
  }

  /** Leaf i is sorted and every key lies between its separators; with slack 1 also on the upper one. */
  predicate LeafOrdered(nodes: Nodes, leaves: Level, i: nat, slack: nat)
    requires i < |leaves|
  {
    var s := LeafEntries(nodes, leaves[i].id);
    Sorted(s) && AllFrom(s, leaves[i].lo) && AllBelow(s, Upper(leaves, i) + slack)
  }

  /** child[i] < key[i] <= child[i+1] for all separators. */
  predicate Ordered(nodes: Nodes, leaves: Level) {
    Los(leaves, 1) && forall i :: 0 <= i < |leaves| ==> LeafOrdered(nodes, leaves, i, 0)
  }

  /** No more entries stand at the upper bound than the left half of a split takes. */
  predicate FewAtBound(nodes: Nodes, leaves: Level, i: nat)
    requires i < |leaves|
  {
    var s := LeafEntries(nodes, leaves[i].id);
    forall a :: 0 <= a < |s| - LEAF_MID ==> s[a].key < Upper(leaves, i)
  }

  /** The same with child[i] <= key[i]: what is left when a split cuts a run of equal keys. */
  predicate WeaklyOrdered(nodes: Nodes, leaves: Level) {
    && Los(leaves, 0)
    && forall i :: 0 <= i < |leaves| ==> LeafOrdered(nodes, leaves, i, 1) && FewAtBound(nodes, leaves, i)
  }

  /** No entry sits in front of a separator with an equal key. */
  predicate NoStraddle(nodes: Nodes, leaves: Level) {
    forall i :: 0 <= i < |leaves| ==> AllBelow(LeafEntries(nodes, leaves[i].id), Upper(leaves, i))
  }

  lemma OrderedIsWeak(nodes: Nodes, leaves: Level)
    requires Ordered(nodes, leaves)
    ensures WeaklyOrdered(nodes, leaves) && NoStraddle(nodes, leaves)
  {
    forall i | 0 <= i < |leaves|
      ensures LeafOrdered(nodes, leaves, i, 1) && FewAtBound(nodes, leaves, i)
      ensures AllBelow(LeafEntries(nodes, leaves[i].id), Upper(leaves, i))
    {
      assert LeafOrdered(nodes, leaves, i, 0);
    }
  }

  /** The strict order is the weak one with separators that all differ and no entry in front of an equal one. */
  lemma StrictlyOrdered(nodes: Nodes, leaves: Level)
    requires WeaklyOrdered(nodes, leaves)
    ensures Ordered(nodes, leaves) <==> Los(leaves, 1) && NoStraddle(nodes, leaves)
  {
    if Ordered(nodes, leaves) {
      OrderedIsWeak(nodes, leaves);
    }
    if Los(leaves, 1) && NoStraddle(nodes, leaves) {
      forall i | 0 <= i < |leaves| ensures LeafOrdered(nodes, leaves, i, 0) {
        assert LeafOrdered(nodes, leaves, i, 1);
        assert AllBelow(LeafEntries(nodes, leaves[i].id), Upper(leaves, i));
      }
    }
  }

  // ---------------------------------------------------------------- contents around one leaf

  lemma {:induction false} EntriesConcat(nodes: Nodes, a: Level, b: Level)
    ensures Entries(nodes, a + b) == Entries(nodes, a) + Entries(nodes, b)
  {
    if a == [] {
      assert a + b == b;
    } else {
      var rest := a[1..];
      assert (a + b)[1..] == rest + b;
      EntriesConcat(nodes, rest, b);
      ConcatAssoc(LeafEntries(nodes, a[0].id), Entries(nodes, rest), Entries(nodes, b));
    }
  }

  lemma {:induction false} EntriesFrame(nodes: Nodes, nodes': Nodes, leaves: Level)
    requires forall r :: r in leaves ==> LeafEntries(nodes', r.id) == LeafEntries(nodes, r.id)
    ensures Entries(nodes', leaves) == Entries(nodes, leaves)
  {
    if leaves != [] {
      assert leaves[0] in leaves;
      EntriesFrame(nodes, nodes', leaves[1..]);
    }
  }

  lemma {:induction false} EntriesAround(nodes: Nodes, a: Level, mid: Level, b: Level)
    ensures Entries(nodes, a + mid + b) == Entries(nodes, a) + Entries(nodes, mid) + Entries(nodes, b)
  {
    EntriesConcat(nodes, a + mid, b);
    EntriesConcat(nodes, a, mid);
  }

  lemma {:induction false} EntriesOne(nodes: Nodes, r: Ref)
    ensures Entries(nodes, [r]) == LeafEntries(nodes, r.id)
  {
  }

  lemma {:induction false} EntriesTwo(nodes: Nodes, r: Ref, x: Ref)
    ensures Entries(nodes, [r, x]) == LeafEntries(nodes, r.id) + LeafEntries(nodes, x.id)
  {
    assert [r, x] == [r] + [x];
    EntriesConcat(nodes, [r], [x]);
    EntriesOne(nodes, r);
    EntriesOne(nodes, x);
  }

  lemma {:induction false} EntriesOwner(nodes: Nodes, leaves: Level, e: Entry) returns (i: nat)
    requires e in Entries(nodes, leaves)
    ensures i < |leaves| && e in LeafEntries(nodes, leaves[i].id)
  {
    if e in LeafEntries(nodes, leaves[0].id) {
      i := 0;
    } else {
      var k := EntriesOwner(nodes, leaves[1..], e);
      i := k + 1;
    }
  }

  // ---------------------------------------------------------------- bounds on both sides

  /** What stands left of leaf j is below its bound (not above it, when weakly ordered). */
  lemma {:induction false} LeftBelow(nodes: Nodes, leaves: Level, j: nat, slack: nat)
    requires Los(leaves, 0) && j < |leaves|
    requires forall i :: 0 <= i < |leaves| ==> LeafOrdered(nodes, leaves, i, slack)
    ensures AllBelow(Entries(nodes, leaves[..j]), leaves[j].lo + slack)
  {
    hide Entries;
    forall e | e in Entries(nodes, leaves[..j]) ensures e.key < leaves[j].lo + slack {
      var i := EntriesOwner(nodes, leaves[..j], e);
      assert LeafOrdered(nodes, leaves, i, slack);
      assert leaves[i + 1].lo <= leaves[j].lo;
    }
  }

  /** What stands right of leaf j starts at the next separator. */
  lemma RightFrom(nodes: Nodes, leaves: Level, j: nat, slack: nat)
    requires Los(leaves, 0) && j < |leaves|
    requires forall i :: 0 <= i < |leaves| ==> LeafOrdered(nodes, leaves, i, slack)
    ensures AllFrom(Entries(nodes, leaves[j + 1..]), Upper(leaves, j))
  {
    hide Entries;
    forall e | e in Entries(nodes, leaves[j + 1..]) ensures Upper(leaves, j) <= e.key {
      var i := EntriesOwner(nodes, leaves[j + 1..], e);
      assert LeafOrdered(nodes, leaves, j + 1 + i, slack);
      assert leaves[j + 1].lo <= leaves[j + 1 + i].lo;
    }
  }

  lemma LevelAround(leaves: Level, j: nat)
    requires j < |leaves|
    ensures leaves == leaves[..j] + [leaves[j]] + leaves[j + 1..]
  {
  }

  lemma {:induction false} EntriesSorted(nodes: Nodes, leaves: Level)
    requires WeaklyOrdered(nodes, leaves)
    ensures Sorted(Entries(nodes, leaves))
  {
    EntriesSortedTo(nodes, leaves, |leaves|);
    assert leaves[..|leaves|] == leaves;
  }

  lemma {:induction false} EntriesSortedTo(nodes: Nodes, leaves: Level, n: nat)
    requires WeaklyOrdered(nodes, leaves) && n <= |leaves|
    ensures Sorted(Entries(nodes, leaves[..n]))
  {
    hide Entries, FewAtBound, Upper;
    if n == 0 {
      NoEntries(nodes);
      assert leaves[..n] == [];
    } else {
      EntriesSortedTo(nodes, leaves, n - 1);
      LeftBelow(nodes, leaves, n - 1, 1);
      assert leaves[..n] == leaves[..n - 1] + [leaves[n - 1]];
      EntriesConcat(nodes, leaves[..n - 1], [leaves[n - 1]]);
      EntriesOne(nodes, leaves[n - 1]);
      assert LeafOrdered(nodes, leaves, n - 1, 1);
      SortedConcat(Entries(nodes, leaves[..n - 1]), LeafEntries(nodes, leaves[n - 1].id), leaves[n - 1].lo);
    }
  }

  lemma SortedConcat(a: seq<Entry>, b: seq<Entry>, key: Key)
    requires Sorted(a) && Sorted(b) && AllBelow(a, key + 1) && AllFrom(b, key)
    ensures Sorted(a + b)
  {
  }

  // ---------------------------------------------------------------- point lookups

  /** The entries with this key in the leaf a search for it ends in. */
  function Seen(nodes: Nodes, leaves: Level, key: Key): seq<Entry> {
    if leaves == [] then [] else Range(LeafEntries(nodes, leaves[CoverOf(leaves, key)].id), key, key)
  }

  /** A point lookup reads only that leaf. */
  predicate LookupComplete(nodes: Nodes, leaves: Level, key: Key) {
    Seen(nodes, leaves, key) == Range(Entries(nodes, leaves), key, key)
  }

  /** The entries with this key that lie outside the leaf a search ends in: those left of it. */
  lemma {:induction false} LookupContents(nodes: Nodes, leaves: Level, j: nat, key: Key)
    requires WeaklyOrdered(nodes, leaves) && Covers(leaves, j, key)
    ensures Seen(nodes, leaves, key) == Range(LeafEntries(nodes, leaves[j].id), key, key)
    ensures Range(Entries(nodes, leaves), key, key) ==
            Range(Entries(nodes, leaves[..j]), key, key) + Seen(nodes, leaves, key)
    ensures LookupComplete(nodes, leaves, key) <==> Range(Entries(nodes, leaves[..j]), key, key) == []
  {
    hide Entries, Range, CoverOf;
    var a, b := leaves[..j], leaves[j + 1..];
    LevelAround(leaves, j);
    CoverOfIs(leaves, j, key);
    EntriesAround(nodes, a, [leaves[j]], b);
    EntriesOne(nodes, leaves[j]);
    RightFrom(nodes, leaves, j, 1);
    RangeConcat(Entries(nodes, a) + LeafEntries(nodes, leaves[j].id), Entries(nodes, b), key, key);
    RangeConcat(Entries(nodes, a), LeafEntries(nodes, leaves[j].id), key, key);
    RangeNone(Entries(nodes, b), key, key);
  }

  /** A lookup is complete exactly when nothing with its key stands left of its leaf. */
  lemma {:induction false} CompleteIff(nodes: Nodes, leaves: Level, j: nat, key: Key)
    requires WeaklyOrdered(nodes, leaves) && Covers(leaves, j, key)
    ensures AllBelow(Entries(nodes, leaves[..j]), key + 1) && AllFrom(Entries(nodes, leaves[j + 1..]), key + 1)
    ensures LookupComplete(nodes, leaves, key) <==> AllBelow(Entries(nodes, leaves[..j]), key)
  {
    hide Entries, Range, LookupComplete;
    LookupContents(nodes, leaves, j, key);
    LeftBelow(nodes, leaves, j, 1);
    RightFrom(nodes, leaves, j, 1);
    RangeEmpty(Entries(nodes, leaves[..j]), key, key);
  }

  /** An entry in front of an equal separator is not found. */
  lemma StraddlerMissed(nodes: Nodes, leaves: Level, i: nat, e: Entry)
    requires WeaklyOrdered(nodes, leaves) && i < |leaves| && leaves[0].lo == 0
    requires e in LeafEntries(nodes, leaves[i].id) && Upper(leaves, i) <= e.key
    ensures !LookupComplete(nodes, leaves, e.key)
  {
    hide Entries, LookupComplete, CoverOf;
    CoverExists(leaves, e.key);
    var j := CoverOf(leaves, e.key);
    CompleteIff(nodes, leaves, j, e.key);
    assert LeafOrdered(nodes, leaves, i, 1);
    assert leaves[i + 1].lo <= e.key;
    var a := leaves[..j];
    assert a == a[..i] + [a[i]] + a[i + 1..];
    EntriesAround(nodes, a[..i], [a[i]], a[i + 1..]);
    EntriesOne(nodes, a[i]);
    assert e in Entries(nodes, a);
  }

  lemma LookupFindsAll(nodes: Nodes, leaves: Level, j: nat, key: Key)
    requires WeaklyOrdered(nodes, leaves) && NoStraddle(nodes, leaves) && Covers(leaves, j, key)
    ensures LookupComplete(nodes, leaves, key)
  {
    hide Entries, LookupComplete;
    CompleteIff(nodes, leaves, j, key);
    forall e | e in Entries(nodes, leaves[..j]) ensures e.key < key {
      var i := EntriesOwner(nodes, leaves[..j], e);
      assert AllBelow(LeafEntries(nodes, leaves[i].id), Upper(leaves, i));
      assert leaves[i + 1].lo <= leaves[j].lo;
    }
  }

  /**
   Point lookups find every stored RID for every key exactly when no entry sits in
   front of a separator with an equal key.
   */
  lemma LookupsCompleteIff(nodes: Nodes, leaves: Level)
    requires WeaklyOrdered(nodes, leaves) && leaves != [] && leaves[0].lo == 0
    ensures NoStraddle(nodes, leaves) <==> forall key: Key :: LookupComplete(nodes, leaves, key)
  {
    hide LookupComplete, WeaklyOrdered, CoverOf;
    if NoStraddle(nodes, leaves) {
      forall key: Key ensures LookupComplete(nodes, leaves, key) {
        CoverExists(leaves, key);
        LookupFindsAll(nodes, leaves, CoverOf(leaves, key), key);
      }
    } else {
      var i: nat :| i < |leaves| && !AllBelow(LeafEntries(nodes, leaves[i].id), Upper(leaves, i));
      var e :| e in LeafEntries(nodes, leaves[i].id) && Upper(leaves, i) <= e.key;
      StraddlerMissed(nodes, leaves, i, e);
    }
  }

  // ---------------------------------------------------------------- insertion and removal in one leaf

  /**
   Replacing leaf j by leaves that hold its entries and the new one adds that entry to the whole list, in front of
   all equal keys if a lookup finds these.
   */
  lemma {:induction false} InsertContents(nodes: Nodes, nodes': Nodes, leaves: Level, j: nat, e: Entry, mid: Level)
    requires WeaklyOrdered(nodes, leaves) && Covers(leaves, j, e.key)
    requires forall r :: r in leaves[..j] || r in leaves[j + 1..] ==>
      LeafEntries(nodes', r.id) == LeafEntries(nodes, r.id)
    requires Entries(nodes', mid) == SortedInsert(LeafEntries(nodes, leaves[j].id), e)
    ensures Inserted(Entries(nodes, leaves), Entries(nodes', leaves[..j] + mid + leaves[j + 1..]), e)
    ensures LookupComplete(nodes, leaves, e.key) ==>
      Entries(nodes', leaves[..j] + mid + leaves[j + 1..]) == SortedInsert(Entries(nodes, leaves), e)
  {
    hide Entries, SortedInsert, LookupComplete;
    var a, b := leaves[..j], leaves[j + 1..];
    LevelAround(leaves, j);
    EntriesFrame(nodes, nodes', a);
    EntriesFrame(nodes, nodes', b);
    EntriesAround(nodes', a, mid, b);
    EntriesAround(nodes, a, [leaves[j]], b);
    EntriesOne(nodes, leaves[j]);
    CompleteIff(nodes, leaves, j, e.key);
    assert LeafOrdered(nodes, leaves, j, 1);
    var s := LeafEntries(nodes, leaves[j].id);
    InsertedInMiddle(Entries(nodes, a), s, Entries(nodes, b), e);
    if LookupComplete(nodes, leaves, e.key) {
      InsertInMiddle(Entries(nodes, a), s, Entries(nodes, b), e);
    }
  }

  /**
   Removing the entry from leaf j removes it from the whole list if it stands in leaf j; it is the first copy, and
   there is none elsewhere, if a lookup finds all entries with its key.
   */
  lemma {:induction false} DeleteContents(nodes: Nodes, nodes': Nodes, leaves: Level, j: nat, e: Entry)
    requires WeaklyOrdered(nodes, leaves) && Covers(leaves, j, e.key)
    requires forall r :: r in leaves[..j] || r in leaves[j + 1..] ==>
      LeafEntries(nodes', r.id) == LeafEntries(nodes, r.id)
    requires LeafEntries(nodes', leaves[j].id) == RemoveFirst(LeafEntries(nodes, leaves[j].id), e)
    ensures e in LeafEntries(nodes, leaves[j].id) <==> e in Seen(nodes, leaves, e.key)
    ensures Removed(Entries(nodes, leaves), Entries(nodes', leaves), e, e in Seen(nodes, leaves, e.key))
    ensures LookupComplete(nodes, leaves, e.key) ==>
      && Entries(nodes', leaves) == RemoveFirst(Entries(nodes, leaves), e)
      && (e in Entries(nodes, leaves) <==> e in Seen(nodes, leaves, e.key))
  {
    hide Entries, RemoveFirst, LookupComplete, Seen;
    var a, b := leaves[..j], leaves[j + 1..];
    LevelAround(leaves, j);
    EntriesFrame(nodes, nodes', a);
    EntriesFrame(nodes, nodes', b);
    EntriesAround(nodes', a, [leaves[j]], b);
    EntriesAround(nodes, a, [leaves[j]], b);
    EntriesOne(nodes, leaves[j]);
    EntriesOne(nodes', leaves[j]);
    CompleteIff(nodes, leaves, j, e.key);
    LookupContents(nodes, leaves, j, e.key);
    var s := LeafEntries(nodes, leaves[j].id);
    InRange(s, e);
    RemovedInMiddle(Entries(nodes, a), s, Entries(nodes, b), e);
    if LookupComplete(nodes, leaves, e.key) {
      RemoveFirstInMiddle(Entries(nodes, a), s, Entries(nodes, b), e);
    }
  }

  // ---------------------------------------------------------------- how order survives

  /** Insertion into the leaf over the key changes nothing in how the tree is ordered. */
  lemma InsertOrdered(nodes: Nodes, nodes': Nodes, leaves: Level, j: nat, e: Entry)
    requires WeaklyOrdered(nodes, leaves) && Covers(leaves, j, e.key)
    requires forall i :: 0 <= i < |leaves| && i != j ==>
      LeafEntries(nodes', leaves[i].id) == LeafEntries(nodes, leaves[i].id)
    requires LeafEntries(nodes', leaves[j].id) == SortedInsert(LeafEntries(nodes, leaves[j].id), e)
    ensures WeaklyOrdered(nodes', leaves)
    ensures Ordered(nodes', leaves) <==> Ordered(nodes, leaves)
    ensures NoStraddle(nodes', leaves) <==> NoStraddle(nodes, leaves)
  {
    hide SortedInsert, Los, Ordered, Upper, Sorted;
    forall i | 0 <= i < |leaves|
      ensures LeafOrdered(nodes', leaves, i, 1) && FewAtBound(nodes', leaves, i)
      ensures AllBelow(LeafEntries(nodes', leaves[i].id), Upper(leaves, i))
         <==> AllBelow(LeafEntries(nodes, leaves[i].id), Upper(leaves, i))
    {
      assert LeafOrdered(nodes, leaves, i, 1) && FewAtBound(nodes, leaves, i);
      if i == j {
        CoverBounds(leaves, j, e.key);
        InsertBounds(LeafEntries(nodes, leaves[j].id), e, leaves[j].lo, Upper(leaves, j));
      }
    }
    StrictlyOrdered(nodes, leaves);
    StrictlyOrdered(nodes', leaves);
  }

  lemma CoverBounds(leaves: Level, j: nat, key: Key)
    requires Covers(leaves, j, key)
    ensures j < |leaves| && leaves[j].lo <= key < Upper(leaves, j)
  {
  }

  /** All but the last 203 entries lie below the bound. */
  predicate MostBelow(s: seq<Entry>, bound: int) {
    forall a :: 0 <= a < |s| - LEAF_MID ==> s[a].key < bound
  }

  lemma InsertBounds(s: seq<Entry>, e: Entry, lo: int, hi: int)
    requires Sorted(s) && AllFrom(s, lo) && AllBelow(s, hi + 1) && MostBelow(s, hi) && lo <= e.key < hi
    ensures var s' := SortedInsert(s, e);
      && Sorted(s') && AllFrom(s', lo) && AllBelow(s', hi + 1) && MostBelow(s', hi)
      && (AllBelow(s', hi) <==> AllBelow(s, hi))
  {
    SortedInsertSorted(s, e);
    LowerBoundFinds(s, e.key);
    forall x ensures x in SortedInsert(s, e) <==> x == e || x in s {
      SortedInsertMember(s, e, x);
    }
  }

  lemma {:induction false} RemoveBounds(s: seq<Entry>, e: Entry, lo: int, hi: int)
    requires Sorted(s) && AllFrom(s, lo) && AllBelow(s, hi + 1) && MostBelow(s, hi)
    ensures var s' := RemoveFirst(s, e);
      && Sorted(s') && AllFrom(s', lo) && AllBelow(s', hi + 1) && MostBelow(s', hi)
      && (AllBelow(s, hi) ==> AllBelow(s', hi))
  {
    if e in s {
      var p := IndexOf(s, e);
      RemoveFirstAt(s, e, p);
    } else {
      RemoveFirstAbsent(s, e);
    }
  }

  /** Removal keeps every order the tree has. */
  lemma {:induction false} DeleteOrdered(nodes: Nodes, nodes': Nodes, leaves: Level, j: nat, e: Entry)
    requires WeaklyOrdered(nodes, leaves) && j < |leaves|
    requires forall i :: 0 <= i < |leaves| && i != j ==>
      LeafEntries(nodes', leaves[i].id) == LeafEntries(nodes, leaves[i].id)
    requires LeafEntries(nodes', leaves[j].id) == RemoveFirst(LeafEntries(nodes, leaves[j].id), e)
    ensures WeaklyOrdered(nodes', leaves)
    ensures Ordered(nodes, leaves) ==> Ordered(nodes', leaves)
    ensures NoStraddle(nodes, leaves) ==> NoStraddle(nodes', leaves)
  {
    hide RemoveFirst, Los, Ordered, Upper, Sorted;
    forall i | 0 <= i < |leaves|
      ensures LeafOrdered(nodes', leaves, i, 1) && FewAtBound(nodes', leaves, i)
      ensures AllBelow(LeafEntries(nodes, leaves[i].id), Upper(leaves, i)) ==>
        AllBelow(LeafEntries(nodes', leaves[i].id), Upper(leaves, i))
    {
      assert LeafOrdered(nodes, leaves, i, 1) && FewAtBound(nodes, leaves, i);
      if i == j {
        RemoveBounds(LeafEntries(nodes, leaves[j].id), e, leaves[j].lo, Upper(leaves, j));
      }
    }
    StrictlyOrdered(nodes, leaves);
    StrictlyOrdered(nodes', leaves);
  }

  /** leaf j was full; it keeps all[..203] and the new leaf x gets the rest. */
  predicate LeafHalved(nodes: Nodes, nodes': Nodes, leaves: Level, leaves': Level, j: nat, all: seq<Entry>, x: Ref) {
    && j < |leaves| && |all| == LEAF_MAX + 1
    && x.lo == all[LEAF_MID].key
    && leaves' == InsertAt(leaves, j + 1, x)
    && LeafEntries(nodes', leaves[j].id) == all[..LEAF_MID]
    && LeafEntries(nodes', x.id) == all[LEAF_MID..]
    && forall i :: 0 <= i < |leaves| && i != j ==> LeafEntries(nodes', leaves[i].id) == LeafEntries(nodes, leaves[i].id)
  }

  lemma HalfMembers(all: seq<Entry>)
    requires |all| == LEAF_MAX + 1 && Sorted(all)
    ensures Sorted(all[..LEAF_MID]) && Sorted(all[LEAF_MID..])
    ensures forall e :: e in all[..LEAF_MID] ==> e in all && e.key <= all[LEAF_MID - 1].key
    ensures forall e :: e in all[LEAF_MID..] ==> e in all && all[LEAF_MID].key <= e.key
    ensures all[LEAF_MID - 1] in all[..LEAF_MID] && all[LEAF_MID - 1].key <= all[LEAF_MID].key
  {
  }

  /** The bounds of the two halves, from those of the leaf that was split around e. */
  lemma HalfBounds(s: seq<Entry>, e: Entry, all: seq<Entry>, lo: int, hi: int)
    requires Sorted(s) && AllFrom(s, lo) && AllBelow(s, hi + 1) && MostBelow(s, hi) && lo <= e.key < hi
    requires all == SortedInsert(s, e) && |all| == LEAF_MAX + 1
    ensures var left, right, cut := all[..LEAF_MID], all[LEAF_MID..], all[LEAF_MID].key;
      && lo <= all[LEAF_MID - 1].key <= cut < hi
      && Sorted(left) && AllFrom(left, lo) && AllBelow(left, cut + 1) && MostBelow(left, cut)
      && Sorted(right) && AllFrom(right, cut) && AllBelow(right, hi + 1) && MostBelow(right, hi)
      && (AllBelow(left, cut) <==> all[LEAF_MID - 1].key < cut)
      && (AllBelow(right, hi) <==> AllBelow(s, hi))
  {
    hide SortedInsert;
    InsertBounds(s, e, lo, hi);
    HalfMembers(all);
    assert all[LEAF_MID] in all && all[LEAF_MID - 1] in all;
    assert AllBelow(all[LEAF_MID..], hi) ==> AllBelow(all, hi) by {
      assert all == all[..LEAF_MID] + all[LEAF_MID..];
    }
  }

  /** How one leaf of the new level is ordered. */
  lemma SplitLeafOrdered(nodes: Nodes, nodes': Nodes, leaves: Level, leaves': Level, j: nat, e: Entry,
                         all: seq<Entry>, x: Ref, i: nat)
    requires WeaklyOrdered(nodes, leaves) && Covers(leaves, j, e.key) && i < |leaves'|
    requires LeafHalved(nodes, nodes', leaves, leaves', j, all, x)
    requires all == SortedInsert(LeafEntries(nodes, leaves[j].id), e)
    ensures LeafOrdered(nodes', leaves', i, 1) && FewAtBound(nodes', leaves', i)
    ensures var below := AllBelow(LeafEntries(nodes', leaves'[i].id), Upper(leaves', i));
      if i == j then below <==> all[LEAF_MID - 1].key < all[LEAF_MID].key
      else
        var was := if i < j then i else i - 1;
        below <==> AllBelow(LeafEntries(nodes, leaves[was].id), Upper(leaves, was))
  {
    hide SortedInsert, Los, AllBelow, AllFrom, Sorted;
    var was := if i <= j then i else i - 1;
    assert LeafOrdered(nodes, leaves, was, 1) && FewAtBound(nodes, leaves, was);
    if i == j || i == j + 1 {
      CoverBounds(leaves, j, e.key);
      HalfBounds(LeafEntries(nodes, leaves[j].id), e, all, leaves[j].lo, Upper(leaves, j));
    }
  }

  lemma SplitLos(leaves: Level, leaves': Level, j: nat, x: Ref)
    requires Los(leaves, 0) && j < |leaves| && leaves' == InsertAt(leaves, j + 1, x)
    requires leaves[j].lo <= x.lo < Upper(leaves, j)
    ensures Los(leaves', 0) && (Los(leaves', 1) <==> Los(leaves, 1) && leaves[j].lo < x.lo)
  {
    if Los(leaves', 1) {
      forall a, b | 0 <= a < b < |leaves| ensures leaves[a].lo + 1 <= leaves[b].lo {
        var a', b' := if a <= j then a else a + 1, if b <= j then b else b + 1;
        assert leaves'[a'] == leaves[a] && leaves'[b'] == leaves[b];
      }
      assert leaves'[j] == leaves[j];
    }
  }

  /**
   A leaf split keeps the strict order, and the lookups complete, exactly when it does not cut a run of equal
   keys.
   */
  lemma SplitOrderedIff(nodes: Nodes, nodes': Nodes, leaves: Level, leaves': Level, j: nat, e: Entry,
                        all: seq<Entry>, x: Ref)
    requires WeaklyOrdered(nodes, leaves) && Covers(leaves, j, e.key)
    requires LeafHalved(nodes, nodes', leaves, leaves', j, all, x)
    requires all == SortedInsert(LeafEntries(nodes, leaves[j].id), e)
    ensures WeaklyOrdered(nodes', leaves')
    ensures Ordered(nodes', leaves') <==> Ordered(nodes, leaves) && all[LEAF_MID - 1].key < all[LEAF_MID].key
    ensures NoStraddle(nodes', leaves') <==> NoStraddle(nodes, leaves) && all[LEAF_MID - 1].key < all[LEAF_MID].key
    ensures leaves[j].lo <= x.lo < Upper(leaves, j)
  {
    hide SortedInsert, Ordered, LeafOrdered, FewAtBound, AllBelow, Los, Upper;
    SplitCut(nodes, leaves, j, e, all);
    SplitLos(leaves, leaves', j, x);
    forall i | 0 <= i < |leaves'| ensures LeafOrdered(nodes', leaves', i, 1) && FewAtBound(nodes', leaves', i) {
      SplitLeafOrdered(nodes, nodes', leaves, leaves', j, e, all, x, i);
    }
    SplitStraddle(nodes, nodes', leaves, leaves', j, e, all, x);
    StrictlyOrdered(nodes, leaves);
    StrictlyOrdered(nodes', leaves');
  }

  lemma SplitCut(nodes: Nodes, leaves: Level, j: nat, e: Entry, all: seq<Entry>)
    requires WeaklyOrdered(nodes, leaves) && Covers(leaves, j, e.key) && |all| == LEAF_MAX + 1
    requires all == SortedInsert(LeafEntries(nodes, leaves[j].id), e)
    ensures j < |leaves| && leaves[j].lo <= all[LEAF_MID - 1].key <= all[LEAF_MID].key < Upper(leaves, j)
  {
    hide SortedInsert, Los;
    assert LeafOrdered(nodes, leaves, j, 1) && FewAtBound(nodes, leaves, j);
    CoverBounds(leaves, j, e.key);
    HalfBounds(LeafEntries(nodes, leaves[j].id), e, all, leaves[j].lo, Upper(leaves, j));
  }

  lemma SplitStraddle(nodes: Nodes, nodes': Nodes, leaves: Level, leaves': Level, j: nat, e: Entry,
                      all: seq<Entry>, x: Ref)
    requires WeaklyOrdered(nodes, leaves) && Covers(leaves, j, e.key)
    requires LeafHalved(nodes, nodes', leaves, leaves', j, all, x)
    requires all == SortedInsert(LeafEntries(nodes, leaves[j].id), e)
    ensures NoStraddle(nodes', leaves') <==> NoStraddle(nodes, leaves) && all[LEAF_MID - 1].key < all[LEAF_MID].key
  {
    hide SortedInsert, WeaklyOrdered, AllBelow, Upper;
    forall i: nat | i < |leaves'|
      ensures var below := AllBelow(LeafEntries(nodes', leaves'[i].id), Upper(leaves', i));
        if i == j then below <==> all[LEAF_MID - 1].key < all[LEAF_MID].key
        else
          var was := if i < j then i else i - 1;
          below <==> AllBelow(LeafEntries(nodes, leaves[was].id), Upper(leaves, was))
    {
      SplitLeafOrdered(nodes, nodes', leaves, leaves', j, e, all, x, i);
    }
    if NoStraddle(nodes', leaves') {
      assert AllBelow(LeafEntries(nodes', leaves'[j].id), Upper(leaves', j));
      forall i | 0 <= i < |leaves| ensures AllBelow(LeafEntries(nodes, leaves[i].id), Upper(leaves, i)) {
        var now := if i < j then i else i + 1;
        assert AllBelow(LeafEntries(nodes', leaves'[now].id), Upper(leaves', now));
      }
    }
  }

  /** Putting e into the full leaf s would cut a run of equal keys in two. */
  predicate Cuts(s: seq<Entry>, e: Entry) {
    && |s| >= LEAF_MAX
    && SortedInsert(s, e)[LEAF_MID - 1].key == SortedInsert(s, e)[LEAF_MID].key
  }

  predicate DistinctKeys(s: seq<Entry>) {
    forall a, b :: 0 <= a < b < |s| ==> s[a].key < s[b].key
  }

  /** Keys that are all different are never cut. */
  lemma DistinctKeysNeverCut(s: seq<Entry>, e: Entry)
    requires DistinctKeys(s) && forall x :: x in s ==> x.key != e.key
    ensures !Cuts(s, e)
  {
  }

  /** A full leaf of one key cannot take that key again without being cut. */
  lemma EqualRunIsCut(s: seq<Entry>, e: Entry)
    requires |s| >= LEAF_MAX && forall x :: x in s ==> x.key == e.key
    ensures Cuts(s, e)
  {
  }

  /** Each leaf's entries are a stretch of the contents. */
  lemma {:induction false} LeafIsStretch(nodes: Nodes, leaves: Level, j: nat)
    requires j < |leaves|
    ensures var at := |Entries(nodes, leaves[..j])|;
            var s := LeafEntries(nodes, leaves[j].id);
            at + |s| <= |Entries(nodes, leaves)| && Entries(nodes, leaves)[at..at + |s|] == s
  {
    EntriesAround(nodes, leaves[..j], [leaves[j]], leaves[j + 1..]);
    LevelAround(leaves, j);
    EntriesOne(nodes, leaves[j]);
  }

  /** In a tree of distinct keys, no leaf split for a new key cuts anything. */
  lemma {:induction false} DistinctTreeNeverCuts(nodes: Nodes, leaves: Level, j: nat, e: Entry)
    requires j < |leaves| && DistinctKeys(Entries(nodes, leaves))
    requires forall x :: x in Entries(nodes, leaves) ==> x.key != e.key
    ensures !Cuts(LeafEntries(nodes, leaves[j].id), e)
  {
    hide Entries, Cuts;
    LeafIsStretch(nodes, leaves, j);
    var s, all, at := LeafEntries(nodes, leaves[j].id), Entries(nodes, leaves), |Entries(nodes, leaves[..j])|;
    forall i | 0 <= i < |s| ensures s[i] == all[at + i] {
      assert all[at..at + |s|][i] == all[at + i];
    }
    DistinctKeysNeverCut(s, e);
  }

  predicate SameLeaves(nodes: Nodes, nodes': Nodes, leaves: Level) {
    forall r :: r in leaves ==> LeafEntries(nodes', r.id) == LeafEntries(nodes, r.id)
  }

  lemma {:induction false} OrderFrame(nodes: Nodes, nodes': Nodes, leaves: Level)
    requires SameLeaves(nodes, nodes', leaves)
    ensures Entries(nodes', leaves) == Entries(nodes, leaves)
    ensures Ordered(nodes', leaves) <==> Ordered(nodes, leaves)
    ensures WeaklyOrdered(nodes', leaves) <==> WeaklyOrdered(nodes, leaves)
    ensures NoStraddle(nodes', leaves) <==> NoStraddle(nodes, leaves)
  {
    hide Entries, Los;
    EntriesFrame(nodes, nodes', leaves);
    forall i | 0 <= i < |leaves| ensures LeafEntries(nodes', leaves[i].id) == LeafEntries(nodes, leaves[i].id) {
      assert leaves[i] in leaves;
    }
    SameOrder(nodes, nodes', leaves);
  }

  lemma SameOrder(nodes: Nodes, nodes': Nodes, leaves: Level)
    requires forall i :: 0 <= i < |leaves| ==> LeafEntries(nodes', leaves[i].id) == LeafEntries(nodes, leaves[i].id)
    ensures Ordered(nodes', leaves) <==> Ordered(nodes, leaves)
    ensures WeaklyOrdered(nodes', leaves) <==> WeaklyOrdered(nodes, leaves)
    ensures NoStraddle(nodes', leaves) <==> NoStraddle(nodes, leaves)
  {
    hide Los, Sorted, AllFrom, AllBelow, Upper;
    forall i | 0 <= i < |leaves|
      ensures LeafOrdered(nodes', leaves, i, 0) <==> LeafOrdered(nodes, leaves, i, 0)
      ensures LeafOrdered(nodes', leaves, i, 1) <==> LeafOrdered(nodes, leaves, i, 1)
      ensures FewAtBound(nodes', leaves, i) <==> FewAtBound(nodes, leaves, i)
    {
    }
  }

  /** The other leaves of a level, by position and by membership. */
  lemma OthersSame(nodes: Nodes, nodes': Nodes, leaves: Level, j: nat)
    requires j < |leaves| && UniqueIds(leaves)
    requires forall id :: id in nodes && id != leaves[j].id ==> id in nodes' && nodes'[id] == nodes[id]
    requires forall r :: r in leaves ==> r.id in nodes
    ensures forall i :: 0 <= i < |leaves| && i != j ==>
      LeafEntries(nodes', leaves[i].id) == LeafEntries(nodes, leaves[i].id)
    ensures forall r :: r in leaves[..j] || r in leaves[j + 1..] ==>
      LeafEntries(nodes', r.id) == LeafEntries(nodes, r.id)
  {
  }

  // ---------------------------------------------------------------- range scans

  lemma LeafSorted(nodes: Nodes, leaves: Level, m: nat)
    requires WeaklyOrdered(nodes, leaves) && m < |leaves|
    ensures Sorted(LeafEntries(nodes, leaves[m].id))
  {
    assert LeafOrdered(nodes, leaves, m, 1);
  }

  /**
   What a scan that starts in the leaf over lo leaves out on its left: the entries with key lo that a lookup
   misses.
   */
  lemma {:induction false} ScanStart(nodes: Nodes, leaves: Level, j: nat, lo: Key, hi: Key)
    requires WeaklyOrdered(nodes, leaves) && Covers(leaves, j, lo)
    ensures Range(Entries(nodes, leaves), lo, hi) ==
            Range(Entries(nodes, leaves[..j]), lo, hi) + Range(Entries(nodes, leaves[j..]), lo, hi)
    ensures forall e :: e in Range(Entries(nodes, leaves[..j]), lo, hi) ==> e.key == lo
    ensures Range(Entries(nodes, leaves[..j]), lo, hi) == [] <==> hi < lo || LookupComplete(nodes, leaves, lo)
  {
    hide Entries, Range, LookupComplete;
    var a := Entries(nodes, leaves[..j]);
    assert leaves == leaves[..j] + leaves[j..];
    EntriesConcat(nodes, leaves[..j], leaves[j..]);
    RangeConcat(a, Entries(nodes, leaves[j..]), lo, hi);
    CompleteIff(nodes, leaves, j, lo);
    RangeMember(a, lo, hi);
    RangeEmpty(a, lo, hi);
  }

  /** One more leaf of the scan. */
  lemma {:induction false} ScanNext(nodes: Nodes, leaves: Level, j: nat, m: nat, lo: Key, hi: Key)
    requires j <= m < |leaves|
    ensures Range(Entries(nodes, leaves[j..m + 1]), lo, hi) ==
            Range(Entries(nodes, leaves[j..m]), lo, hi) + Range(LeafEntries(nodes, leaves[m].id), lo, hi)
  {
    hide Entries, Range;
    assert leaves[j..m + 1] == leaves[j..m] + [leaves[m]];
    EntriesConcat(nodes, leaves[j..m], [leaves[m]]);
    EntriesOne(nodes, leaves[m]);
    RangeConcat(Entries(nodes, leaves[j..m]), LeafEntries(nodes, leaves[m].id), lo, hi);
  }

  /** Once a key above hi was seen, the leaves further right hold nothing of the range. */
  lemma {:induction false} ScanStop(nodes: Nodes, leaves: Level, j: nat, m: nat, lo: Key, hi: Key)
    requires WeaklyOrdered(nodes, leaves) && j <= m < |leaves|
    requires exists e :: e in LeafEntries(nodes, leaves[m].id) && hi < e.key
    ensures Range(Entries(nodes, leaves[j..]), lo, hi) == Range(Entries(nodes, leaves[j..m + 1]), lo, hi)
  {
    hide Entries, Range;
    assert leaves[j..] == leaves[j..m + 1] + leaves[m + 1..];
    EntriesConcat(nodes, leaves[j..m + 1], leaves[m + 1..]);
    assert LeafOrdered(nodes, leaves, m, 1);
    RightFrom(nodes, leaves, m, 1);
    if m + 1 < |leaves| {
      RangeNone(Entries(nodes, leaves[m + 1..]), lo, hi);
    } else {
      assert leaves[m + 1..] == [];
      NoEntries(nodes);
      RangeNone(Entries(nodes, leaves[m + 1..]), lo, hi);
    }
    RangeConcat(Entries(nodes, leaves[j..m + 1]), Entries(nodes, leaves[m + 1..]), lo, hi);
  }

  lemma {:induction false} NoEntries(nodes: Nodes)
    ensures Entries(nodes, []) == []
  {
  }

  /** No leaf right of the one a lookup ends in holds the key. */
  lemma {:induction false} LookupTail(nodes: Nodes, leaves: Level, j: nat, m: nat, key: Key)
    requires WeaklyOrdered(nodes, leaves) && Covers(leaves, j, key) && j < m <= |leaves|
    ensures Range(Entries(nodes, leaves[j..m]), key, key) == Range(LeafEntries(nodes, leaves[j].id), key, key)
    decreases m
  {
    hide Entries, Range;
    ScanNext(nodes, leaves, j, m - 1, key, key);
    if m == j + 1 {
      assert leaves[j..j] == [];
      NoEntries(nodes);
      RangeNone(Entries(nodes, leaves[j..j]), key, key);
    } else {
      LookupTail(nodes, leaves, j, m - 1, key);
      assert LeafOrdered(nodes, leaves, m - 1, 1);
      assert leaves[j + 1].lo <= leaves[m - 1].lo;
      RangeNone(LeafEntries(nodes, leaves[m - 1].id), key, key);
    }
  }
}

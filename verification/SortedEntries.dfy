/**
 What the index means: one list of (key, RID) entries in key order.  Insertion goes
 in front of the entries with an equal key, removal takes the first equal entry and
 a range is the run of entries whose keys lie between two bounds.
 */
module SortedEntries {
  import opened Base
  import opened BTreeLevels

  predicate Sorted(s: seq<Entry>) {
    forall a, b :: 0 <= a < b < |s| ==> s[a].key <= s[b].key
  }

  predicate AllBelow(s: seq<Entry>, key: int) {
    forall e :: e in s ==> e.key < key
  }

  predicate AllFrom(s: seq<Entry>, key: int) {
    forall e :: e in s ==> key <= e.key
  }

  /** pos is where a binary search for key ends in a leaf: the first entry not below key. */
  predicate FirstFrom(s: seq<Entry>, key: Key, pos: nat) {
    && pos <= |s|
    && (forall a :: 0 <= a < pos ==> s[a].key < key)
    && (forall a :: pos <= a < |s| ==> key <= s[a].key)
  }

  function LowerBound(s: seq<Entry>, key: Key): (pos: nat)
    ensures pos <= |s|
  {
    if s == [] || key <= s[0].key then 0 else 1 + LowerBound(s[1..], key)
  }

  lemma {:induction false} LowerBoundIs(s: seq<Entry>, key: Key, pos: nat)
    requires FirstFrom(s, key, pos)
    ensures LowerBound(s, key) == pos
  {
    if pos > 0 {
      assert FirstFrom(s[1..], key, pos - 1);
      LowerBoundIs(s[1..], key, pos - 1);
    }
  }

  lemma {:induction false} LowerBoundFinds(s: seq<Entry>, key: Key)
    requires Sorted(s)
    ensures FirstFrom(s, key, LowerBound(s, key))
  {
    if s != [] && s[0].key < key {
      LowerBoundFinds(s[1..], key);
      var n := LowerBound(s[1..], key);
      forall a | 0 <= a < n + 1 ensures s[a].key < key {
        assert a > 0 ==> s[a] == s[1..][a - 1];
      }
      forall a | n + 1 <= a < |s| ensures key <= s[a].key {
        assert s[a] == s[1..][a - 1];
      }
    }
  }

  // ---------------------------------------------------------------- insertion

  function SortedInsert(s: seq<Entry>, e: Entry): seq<Entry> {
    InsertAt(s, LowerBound(s, e.key), e)
  }

  lemma SortedInsertSorted(s: seq<Entry>, e: Entry)
    requires Sorted(s)
    ensures Sorted(SortedInsert(s, e))
  {
    LowerBoundFinds(s, e.key);
  }

  lemma SortedInsertMultiset(s: seq<Entry>, e: Entry)
    ensures multiset(SortedInsert(s, e)) == multiset(s) + multiset{e}
  {
    var n := LowerBound(s, e.key);
    assert s == s[..n] + s[n..];
  }

  lemma SortedInsertMember(s: seq<Entry>, e: Entry, x: Entry)
    ensures x in SortedInsert(s, e) <==> x == e || x in s
  {
  }

  /** Inserting into a list whose ends lie outside the new key is inserting into its middle. */
  lemma InsertInMiddle(a: seq<Entry>, mid: seq<Entry>, b: seq<Entry>, e: Entry)
    requires AllBelow(a, e.key) && Sorted(mid) && AllFrom(b, e.key)
    ensures SortedInsert(a + mid + b, e) == a + SortedInsert(mid, e) + b
  {
    LowerBoundFinds(mid, e.key);
    var n := LowerBound(mid, e.key);
    var s := a + mid + b;
    forall k | 0 <= k < |a| + n ensures s[k].key < e.key {
      assert k < |a| ==> s[k] in a;
    }
    forall k | |a| + n <= k < |s| ensures e.key <= s[k].key {
      assert k >= |a| + |mid| ==> s[k] in b;
    }
    LowerBoundIs(s, e.key, |a| + n);
  }

  /** after has the entries of before and one e more. */
  predicate Inserted(before: seq<Entry>, after: seq<Entry>, e: Entry) {
    multiset(after) == multiset(before) + multiset{e}
  }

  lemma InsertedMembers(before: seq<Entry>, after: seq<Entry>, e: Entry)
    requires Inserted(before, after, e)
    ensures |after| == |before| + 1 && forall x :: x in after <==> x == e || x in before
  {
    assert |multiset(after)| == |multiset(before)| + 1;
    forall x ensures x in after <==> x == e || x in before {
      assert x in after <==> x in multiset(after);
      assert x in before <==> x in multiset(before);
    }
  }

  lemma InsertedInMiddle(a: seq<Entry>, mid: seq<Entry>, b: seq<Entry>, e: Entry)
    ensures Inserted(a + mid + b, a + SortedInsert(mid, e) + b, e)
  {
    SortedInsertMultiset(mid, e);
  }

  // ---------------------------------------------------------------- removal

  function RemoveFirst(s: seq<Entry>, e: Entry): seq<Entry> {
    if s == [] then [] else if s[0] == e then s[1..] else [s[0]] + RemoveFirst(s[1..], e)
  }

  lemma {:induction false} RemoveFirstAt(s: seq<Entry>, e: Entry, p: nat)
    requires p < |s| && s[p] == e && forall k :: 0 <= k < p ==> s[k] != e
    ensures RemoveFirst(s, e) == RemoveAt(s, p)
  {
    if p > 0 {
      RemoveFirstAt(s[1..], e, p - 1);
      assert RemoveAt(s, p) == [s[0]] + RemoveAt(s[1..], p - 1);
    }
  }

  lemma {:induction false} RemoveFirstAbsent(s: seq<Entry>, e: Entry)
    requires e !in s
    ensures RemoveFirst(s, e) == s
  {
    if s != [] {
      RemoveFirstAbsent(s[1..], e);
    }
  }

  lemma {:induction false} RemoveFirstMultiset(s: seq<Entry>, e: Entry)
    ensures multiset(RemoveFirst(s, e)) == multiset(s) - multiset{e}
  {
    if s != [] {
      assert s == [s[0]] + s[1..];
      RemoveFirstMultiset(s[1..], e);
    }
  }

  lemma {:induction false} RemoveFirstInMiddle(a: seq<Entry>, mid: seq<Entry>, b: seq<Entry>, e: Entry)
    requires e !in a && e !in b
    ensures RemoveFirst(a + mid + b, e) == a + RemoveFirst(mid, e) + b
  {
    if e in mid {
      var p := IndexOf(mid, e);
      RemoveFirstAt(mid, e, p);
      var s := a + mid + b;
      forall k | 0 <= k < |a| + p ensures s[k] != e {
        assert k < |a| ==> s[k] in a;
      }
      RemoveFirstAt(s, e, |a| + p);
      assert RemoveAt(s, |a| + p) == a + RemoveAt(mid, p) + b;
    } else {
      RemoveFirstAbsent(mid, e);
      RemoveFirstAbsent(a + mid + b, e);
    }
  }

  /** after has the entries of before, less one e if there was one to remove. */
  predicate Removed(before: seq<Entry>, after: seq<Entry>, e: Entry, found: bool) {
    if found then e in before && multiset(after) == multiset(before) - multiset{e} else after == before
  }

  lemma {:induction false} RemovedInMiddle(a: seq<Entry>, mid: seq<Entry>, b: seq<Entry>, e: Entry)
    ensures Removed(a + mid + b, a + RemoveFirst(mid, e) + b, e, e in mid)
  {
    if e in mid {
      RemoveFirstMultiset(mid, e);
      assert e in multiset(mid);
    } else {
      RemoveFirstAbsent(mid, e);
    }
  }

  lemma {:induction false} IndexOf(s: seq<Entry>, e: Entry) returns (p: nat)
    requires e in s
    ensures p < |s| && s[p] == e && forall k :: 0 <= k < p ==> s[k] != e
  {
    if s[0] == e {
      p := 0;
    } else {
      var q := IndexOf(s[1..], e);
      p := q + 1;
      forall k | 0 <= k < p ensures s[k] != e {
        assert k > 0 ==> s[k] == s[1..][k - 1];
      }
    }
  }

  /** Deleting what was just inserted gives the list back, entry for entry. */
  lemma {:induction false} RemoveUndoesInsert(s: seq<Entry>, e: Entry)
    requires Sorted(s)
    ensures RemoveFirst(SortedInsert(s, e), e) == s
  {
    LowerBoundFinds(s, e.key);
    var p := LowerBound(s, e.key);
    RemoveFirstAt(SortedInsert(s, e), e, p);
    assert RemoveAt(SortedInsert(s, e), p) == s;
  }

  // ---------------------------------------------------------------- ranges

  predicate Within(e: Entry, lo: Key, hi: Key) {
    lo <= e.key <= hi
  }

  function Kept(e: Entry, lo: Key, hi: Key): seq<Entry> {
    if Within(e, lo, hi) then [e] else []
  }

  /** The entries with lo <= key <= hi, in order. */
  function Range(s: seq<Entry>, lo: Key, hi: Key): seq<Entry> {
    if s == [] then [] else Kept(s[0], lo, hi) + Range(s[1..], lo, hi)
  }

  function RidsOf(s: seq<Entry>): (r: seq<RID>)
    ensures |r| == |s| && forall a :: 0 <= a < |s| ==> r[a] == s[a].rid
  {
    if s == [] then [] else [s[0].rid] + RidsOf(s[1..])
  }

  lemma {:induction false} RangeConcat(s: seq<Entry>, t: seq<Entry>, lo: Key, hi: Key)
    ensures Range(s + t, lo, hi) == Range(s, lo, hi) + Range(t, lo, hi)
  {
    if s == [] {
      assert s + t == t;
    } else {
      var rest := s[1..];
      assert (s + t)[1..] == rest + t;
      RangeConcat(rest, t, lo, hi);
      ConcatAssoc(Kept(s[0], lo, hi), Range(rest, lo, hi), Range(t, lo, hi));
    }
  }

  lemma ConcatAssoc(a: seq<Entry>, b: seq<Entry>, c: seq<Entry>)
    ensures (a + b) + c == a + (b + c)
  {
  }

  lemma {:induction false} RangeNone(s: seq<Entry>, lo: Key, hi: Key)
    requires forall e :: e in s ==> !Within(e, lo, hi)
    ensures Range(s, lo, hi) == []
  {
    if s != [] {
      assert s[0] in s;
      RangeNone(s[1..], lo, hi);
    }
  }

  lemma {:induction false} RangeAll(s: seq<Entry>, lo: Key, hi: Key)
    requires forall e :: e in s ==> Within(e, lo, hi)
    ensures Range(s, lo, hi) == s
  {
    if s != [] {
      assert s[0] in s;
      RangeAll(s[1..], lo, hi);
    }
  }

  lemma {:induction false} RangeEmpty(s: seq<Entry>, lo: Key, hi: Key)
    ensures Range(s, lo, hi) == [] <==> forall e :: e in s ==> !Within(e, lo, hi)
  {
    if Range(s, lo, hi) == [] {
      forall e | e in s ensures !Within(e, lo, hi) {
        RangeMultiset(s, lo, hi, e);
      }
    } else {
      RangeMember(s, lo, hi);
      assert Range(s, lo, hi)[0] in s;
    }
  }

  lemma {:induction false} InRange(s: seq<Entry>, e: Entry)
    ensures e in Range(s, e.key, e.key) <==> e in s
  {
    RangeMultiset(s, e.key, e.key, e);
    assert e in multiset(Range(s, e.key, e.key)) <==> e in multiset(s);
  }

  /** A range holds exactly the entries with a key in it, each as often as it is stored. */
  lemma {:induction false} RangeMultiset(s: seq<Entry>, lo: Key, hi: Key, e: Entry)
    ensures multiset(Range(s, lo, hi))[e] == if Within(e, lo, hi) then multiset(s)[e] else 0
  {
    if s != [] {
      assert s == [s[0]] + s[1..];
      RangeMultiset(s[1..], lo, hi, e);
    }
  }

  lemma {:induction false} RangeMember(s: seq<Entry>, lo: Key, hi: Key)
    ensures forall e :: e in Range(s, lo, hi) ==> e in s && Within(e, lo, hi)
  {
    if s != [] {
      RangeMember(s[1..], lo, hi);
    }
  }

  lemma {:induction false} RangeSorted(s: seq<Entry>, lo: Key, hi: Key)
    requires Sorted(s)
    ensures Sorted(Range(s, lo, hi))
  {
    if s != [] {
      var rest := Range(s[1..], lo, hi);
      RangeSorted(s[1..], lo, hi);
      RangeMember(s[1..], lo, hi);
      assert Sorted(rest);
      forall x | x in rest ensures s[0].key <= x.key {
        var k :| 0 <= k < |s[1..]| && s[1..][k] == x;
        assert s[k + 1] == x;
      }
      var all := Range(s, lo, hi);
      if Within(s[0], lo, hi) {
        assert all == [s[0]] + rest;
        forall a, b | 0 <= a < b < |all| ensures all[a].key <= all[b].key {
          assert all[b] == rest[b - 1] && rest[b - 1] in rest;
          assert a > 0 ==> all[a] == rest[a - 1];
        }
      } else {
        assert all == rest;
      }
    }
  }
}

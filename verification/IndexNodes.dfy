/**
 The two node objects of the index.  Each is read from a page, changed in memory and
 written back into a page.
 */
module IndexNodes {
  import opened Base
  import opened Bytes
  import opened BTreeLevels
  import opened SortedEntries
  import Growth = BTreeGrowth
  import Codec = NodeCodec

  /** The entries two parallel vectors stand for. */
  function Zip(keys: seq<Key>, rids: seq<RID>): (s: seq<Entry>)
    requires |keys| == |rids|
    ensures |s| == |keys|
    ensures forall a {:trigger s[a]} :: 0 <= a < |s| ==> s[a] == Entry(keys[a], rids[a])
  {
    if keys == [] then [] else [Entry(keys[0], rids[0])] + Zip(keys[1..], rids[1..])
  }

  lemma {:induction false} ZipIs(keys: seq<Key>, rids: seq<RID>, s: seq<Entry>)
    requires |keys| == |rids| == |s|
    requires forall a :: 0 <= a < |s| ==> s[a] == Entry(keys[a], rids[a])
    ensures Zip(keys, rids) == s
  {
  }

  class LeafNode {
    var parent: PageId
    var numKeys: U16
    var next: PageId
    var keys: seq<Key>
    var rids: seq<RID>

    predicate Valid()
      reads this
    {
      numKeys == |keys| == |rids|
    }

    function Entries(): seq<Entry>
      requires Valid()
      reads this
    {
      Zip(keys, rids)
    }

    /** Reads the node out of a page; a page that was just allocated reads as an empty leaf. */
    constructor (page: seq<Byte>)
      ensures Valid()
      ensures parent == Get4(page, Codec.PARENT_AT) && next == Get4(page, Codec.NEXT_AT)
      ensures Entries() == Codec.DecodeEntries(page, Codec.PAYLOAD_AT, Get2(page, Codec.COUNT_AT))
    {
      parent := Get4(page, Codec.PARENT_AT);
      numKeys := Get2(page, Codec.COUNT_AT);
      next := Get4(page, Codec.NEXT_AT);
      keys, rids := [], [];
      new;
      hide Get4, Get2;
      var offset, i := Codec.PAYLOAD_AT, 0;
      while i < numKeys
        invariant i <= numKeys && offset == Codec.PAYLOAD_AT + 10 * i
        invariant parent == Get4(page, Codec.PARENT_AT) && next == Get4(page, Codec.NEXT_AT)
        invariant numKeys == Get2(page, Codec.COUNT_AT)
        invariant |keys| == |rids| == i && Zip(keys, rids) == Codec.DecodeEntries(page, Codec.PAYLOAD_AT, i)
      {
        ghost var before := Zip(keys, rids);
        keys := keys + [Get4(page, offset)];
        rids := rids + [RID(Get4(page, offset + 4), Get2(page, offset + 8))];
        ZipIs(keys, rids, before + [Codec.EntryAt(page, offset)]);
        Codec.DecodeEntriesNext(page, Codec.PAYLOAD_AT, i);
        offset, i := offset + 10, i + 1;
      }
    }

    predicate IsFull()
      reads this
    {
      numKeys >= LEAF_MAX
    }

    method FindKeyPosition(key: Key) returns (pos: nat)
      requires Valid() && Sorted(Entries())
      ensures FirstFrom(Entries(), key, pos)
    {
      var lo, hi := 0, numKeys;
      while lo < hi
        invariant 0 <= lo <= hi <= numKeys
        invariant forall a :: 0 <= a < lo ==> Entries()[a].key < key
        invariant forall a :: hi <= a < numKeys ==> key <= Entries()[a].key
      {
        var mid := lo + (hi - lo) / 2;
        assert Entries()[mid].key == keys[mid];
        if keys[mid] < key {
          lo := mid + 1;
        } else {
          hi := mid;
        }
      }
      pos := lo;
    }

    method Insert(key: Key, rid: RID) returns (ok: bool)
      requires Valid() && Sorted(Entries())
      modifies this`keys, this`rids, this`numKeys
      ensures Valid() && ok == !old(IsFull())
      ensures Entries() == if ok then SortedInsert(old(Entries()), Entry(key, rid)) else old(Entries())
    {
      if IsFull() {
        return false;
      }
      ghost var before := Entries();
      var pos := FindKeyPosition(key);
      LowerBoundIs(before, key, pos);
      keys := InsertAt(keys, pos, key);
      rids := InsertAt(rids, pos, rid);
      numKeys := numKeys + 1;
      ZipIs(keys, rids, InsertAt(before, pos, Entry(key, rid)));
      ok := true;
    }

    method Delete(key: Key, rid: RID) returns (found: bool)
      requires Valid() && Sorted(Entries())
      modifies this`keys, this`rids, this`numKeys
      ensures Valid() && found == (Entry(key, rid) in old(Entries()))
      ensures Entries() == RemoveFirst(old(Entries()), Entry(key, rid))
    {
      ghost var before := Entries();
      ghost var e := Entry(key, rid);
      var pos := FindKeyPosition(key);
      while pos < numKeys && keys[pos] == key
        invariant pos <= numKeys
        invariant Valid() && Entries() == before
        invariant forall a :: 0 <= a < pos ==> before[a] != e
        invariant forall a :: pos <= a < |before| ==> key <= before[a].key
        modifies this`keys, this`rids, this`numKeys
      {
        assert before[pos] == Entry(keys[pos], rids[pos]);
        if rids[pos] == rid {
          keys := RemoveAt(keys, pos);
          rids := RemoveAt(rids, pos);
          numKeys := numKeys - 1;
          ZipIs(keys, rids, RemoveAt(before, pos));
          RemoveFirstAt(before, e, pos);
          return true;
        }
        pos := pos + 1;
      }
      forall a | 0 <= a < |before| ensures before[a] != e {
        if a >= pos {
          assert before[pos].key == keys[pos];
          assert before[pos].key <= before[a].key;
        }
      }
      RemoveFirstAbsent(before, e);
      found := false;
    }

    method FindAll(key: Key) returns (results: seq<RID>)
      requires Valid() && Sorted(Entries())
      ensures results == RidsOf(Range(Entries(), key, key))
    {
      hide Range, RidsOf;
      var s := Entries();
      results := [];
      var pos := FindKeyPosition(key);
      RangeNone(s[..pos], key, key);
      RidsNone();
      while pos < numKeys && keys[pos] == key
        invariant pos <= numKeys == |s|
        invariant results == RidsOf(Range(s[..pos], key, key))
        invariant forall a :: pos <= a < |s| ==> key <= s[a].key
      {
        RangeNext(s, pos, key, key);
        results := results + [rids[pos]];
        pos := pos + 1;
      }
      forall e | e in s[pos..] ensures !Within(e, key, key) {
        assert s[pos].key == keys[pos];
        assert s[pos].key <= e.key;
      }
      RangeNone(s[pos..], key, key);
      assert s == s[..pos] + s[pos..];
      RangeConcat(s[..pos], s[pos..], key, key);
    }

    method SerializeToPage(page: seq<Byte>) returns (out: seq<Byte>)
      requires Valid() && |page| == PAGE_SIZE && numKeys <= LEAF_MAX
      ensures out == Codec.Encode(Leaf(parent, next, Entries()), page)
    {
      hide WriteAt, Le4, Le2;
      var s := Entries();
      ghost var head := Codec.HeaderBytes(Codec.LEAF_TYPE, parent, numKeys, next);
      out := WriteAt(page, Codec.NODE_START, [Codec.LEAF_TYPE] + Le4(parent) + Le2(numKeys) + Le4(next));
      var offset, i := Codec.PAYLOAD_AT, 0;
      while i < numKeys
        invariant i <= numKeys && offset == Codec.PAYLOAD_AT + 10 * i && |out| == PAGE_SIZE
        invariant out == WriteAt(page, Codec.NODE_START, head + Codec.LeafBytes(s[..i]))
      {
        ghost var done := head + Codec.LeafBytes(s[..i]);
        assert s[i] == Entry(keys[i], rids[i]);
        assert s[..i + 1] == s[..i] + [s[i]];
        Codec.LeafBytesNext(s[..i], s[i]);
        WriteTwice(page, Codec.NODE_START, done, Codec.EntryBytes(s[i]));
        Codec.Assoc(head, Codec.LeafBytes(s[..i]), Codec.EntryBytes(s[i]));
        out := WriteAt(out, offset, Le4(keys[i]) + Le4(rids[i].pageId) + Le2(rids[i].slotId));
        offset, i := offset + 10, i + 1;
      }
      assert s[..i] == s;
    }
  }

  lemma RidsNone()
    ensures RidsOf([]) == []
  {
  }

  lemma {:induction false} RangeNext(s: seq<Entry>, pos: nat, lo: Key, hi: Key)
    requires pos < |s| && Within(s[pos], lo, hi)
    ensures Range(s[..pos + 1], lo, hi) == Range(s[..pos], lo, hi) + [s[pos]]
    ensures RidsOf(Range(s[..pos + 1], lo, hi)) == RidsOf(Range(s[..pos], lo, hi)) + [s[pos].rid]
  {
    assert s[..pos + 1] == s[..pos] + [s[pos]];
    RangeConcat(s[..pos], [s[pos]], lo, hi);
    assert Range([s[pos]], lo, hi) == [s[pos]];
  }

  class InternalNode {
    var parent: PageId
    var numKeys: U16
    var next: PageId
    var keys: seq<Key>
    var children: seq<PageId>

    /** The vectors may be longer than the node: only numKeys separators count. */
    predicate Valid()
      reads this
    {
      numKeys <= |keys| && numKeys < |children|
    }

    function Keys(): seq<Key>
      requires Valid()
      reads this
    {
      keys[..numKeys]
    }

    function Children(): seq<PageId>
      requires Valid()
      reads this
    {
      children[..numKeys + 1]
    }

    constructor (page: seq<Byte>)
      ensures Valid() && |keys| == numKeys && |children| == numKeys + 1
      ensures parent == Get4(page, Codec.PARENT_AT) && next == Get4(page, Codec.NEXT_AT)
      ensures numKeys == Get2(page, Codec.COUNT_AT)
      ensures Keys() == Codec.DecodeKeys(page, Codec.PAYLOAD_AT, numKeys)
      ensures numKeys > 0 ==> Children() == Codec.DecodeChildren(page, Codec.PAYLOAD_AT, numKeys)
    {
      parent := Get4(page, Codec.PARENT_AT);
      numKeys := Get2(page, Codec.COUNT_AT);
      next := Get4(page, Codec.NEXT_AT);
      keys, children := [], [];
      new;
      hide Get4, Get2;
      var offset, i := Codec.PAYLOAD_AT, 0;
      while i < numKeys
        invariant i <= numKeys && offset == Codec.PAYLOAD_AT + 8 * i
        invariant parent == Get4(page, Codec.PARENT_AT) && next == Get4(page, Codec.NEXT_AT)
        invariant numKeys == Get2(page, Codec.COUNT_AT)
        invariant |keys| == |children| == i && keys == Codec.DecodeKeys(page, Codec.PAYLOAD_AT, i)
        invariant children + [Get4(page, offset)] == Codec.DecodeChildren(page, Codec.PAYLOAD_AT, i)
      {
        Codec.DecodeChildrenNext(page, Codec.PAYLOAD_AT, i);
        children := children + [Get4(page, offset)];
        keys := keys + [Get4(page, offset + 4)];
        offset, i := offset + 8, i + 1;
      }
      if numKeys > 0 {
        children := children + [Get4(page, offset)];
      } else {
        children := children + [0];
      }
    }

    predicate IsFull()
      reads this
    {
      numKeys >= INTERNAL_MAX
    }

    method FindChild(key: Key) returns (pos: nat)
      requires Valid() && Growth.NonDecreasing(Keys())
      ensures Growth.Found(Keys(), key, pos)
    {
      var lo, hi := 0, numKeys;
      while lo < hi
        invariant 0 <= lo <= hi <= numKeys
        invariant forall a :: 0 <= a < lo ==> Keys()[a] <= key
        invariant forall a :: hi <= a < numKeys ==> key < Keys()[a]
      {
        var mid := lo + (hi - lo) / 2;
        assert Keys()[mid] == keys[mid];
        if keys[mid] <= key {
          lo := mid + 1;
        } else {
          hi := mid;
        }
      }
      pos := lo;
    }

    method InsertAfter(pos: nat, key: Key, rightChild: PageId)
      requires Valid() && pos <= numKeys < INTERNAL_MAX
      modifies this`keys, this`children, this`numKeys
      ensures Valid()
      ensures Keys() == InsertAt(old(Keys()), pos, key)
      ensures Children() == InsertAt(old(Children()), pos + 1, rightChild)
    {
      keys := InsertAt(keys, pos, key);
      children := InsertAt(children, pos + 1, rightChild);
      numKeys := numKeys + 1;
    }

    /** Overwrites the front of both vectors; what stands behind it is cut off by the new key count. */
    method KeepFirst(ks: seq<Key>, cs: seq<PageId>)
      requires Valid() && |ks| <= numKeys && |cs| == |ks| + 1
      modifies this`keys, this`children, this`numKeys
      ensures Valid() && Keys() == ks && Children() == cs
    {
      numKeys := |ks|;
      keys := ks + keys[|ks|..];
      children := cs + children[|cs|..];
    }

    method SerializeToPage(page: seq<Byte>) returns (out: seq<Byte>)
      requires Valid() && |page| == PAGE_SIZE && 1 <= numKeys <= INTERNAL_MAX
      ensures out == Codec.Encode(Internal(parent, next, Keys(), Children()), page)
    {
      hide WriteAt, Le4, Le2;
      ghost var ks, cs := Keys(), Children();
      ghost var head := Codec.HeaderBytes(Codec.INTERNAL_TYPE, parent, numKeys, next);
      out := WriteAt(page, Codec.NODE_START, [Codec.INTERNAL_TYPE] + Le4(parent) + Le2(numKeys) + Le4(next));
      var offset, i := Codec.PAYLOAD_AT, 0;
      while i < numKeys
        invariant i <= numKeys && offset == Codec.PAYLOAD_AT + 8 * i && |out| == PAGE_SIZE
        invariant out == WriteAt(page, Codec.NODE_START, head + Codec.PairBytes(ks[..i], cs[..i]))
      {
        ghost var done := head + Codec.PairBytes(ks[..i], cs[..i]);
        assert ks[..i + 1] == ks[..i] + [keys[i]] && cs[..i + 1] == cs[..i] + [children[i]];
        Codec.PairBytesNext(ks[..i], cs[..i], keys[i], children[i]);
        WriteTwice(page, Codec.NODE_START, done, Le4(children[i]) + Le4(keys[i]));
        Codec.Assoc(head, Codec.PairBytes(ks[..i], cs[..i]), Le4(children[i]) + Le4(keys[i]));
        out := WriteAt(out, offset, Le4(children[i]) + Le4(keys[i]));
        offset, i := offset + 8, i + 1;
      }
      ghost var done := head + Codec.PairBytes(ks[..i], cs[..i]);
      Codec.ChildBytesPairs(ks, cs);
      assert ks[..i] == ks;
      WriteTwice(page, Codec.NODE_START, done, Le4(children[numKeys]));
      Codec.Assoc(head, Codec.PairBytes(ks, cs[..i]), Le4(children[numKeys]));
      out := WriteAt(out, offset, Le4(children[numKeys]));
    }
  }
}

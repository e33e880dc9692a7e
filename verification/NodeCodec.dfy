/**
 How index nodes lie in a page: after the 20 bytes of the page header come the type
 byte, the parent, the number of keys, the next leaf and the payload.
 */
module NodeCodec {
  import opened Base
  import opened Bytes
  import opened BTreeLevels

  const NODE_START := 20
  const PARENT_AT := 21
  const COUNT_AT := 25
  const NEXT_AT := 27
  const PAYLOAD_AT := 31

  const INTERNAL_TYPE: Byte := 1
  const LEAF_TYPE: Byte := 2

  // ---------------------------------------------------------------- encoding

  function EntryBytes(e: Entry): (b: seq<Byte>)
    ensures |b| == 10
  {
    Le4(e.key) + Le4(e.rid.pageId) + Le2(e.rid.slotId)
  }

  function LeafBytes(entries: seq<Entry>): (b: seq<Byte>)
    ensures |b| == 10 * |entries|
  {
    if entries == [] then [] else EntryBytes(entries[0]) + LeafBytes(entries[1..])
  }

  function ChildBytes(keys: seq<Key>, children: seq<PageId>): (b: seq<Byte>)
    requires |children| == |keys| + 1
    ensures |b| == 8 * |keys| + 4
  {
    if keys == [] then Le4(children[0])
    else Le4(children[0]) + Le4(keys[0]) + ChildBytes(keys[1..], children[1..])
  }

  function HeaderBytes(kind: Byte, parent: PageId, count: U16, next: PageId): (b: seq<Byte>)
    ensures |b| == 11
  {
    [kind] + Le4(parent) + Le2(count) + Le4(next)
  }

  /** The nodes the tree stores: within the page, and with a separator if internal. */
  predicate Fits(n: Node) {
    match n
    case Leaf(_, _, entries) => |entries| <= LEAF_MAX
    case Internal(_, _, keys, children) => 1 <= |keys| <= INTERNAL_MAX && |children| == |keys| + 1
  }

  function NodeBytes(n: Node): (b: seq<Byte>)
    requires Fits(n)
    ensures |b| <= PAGE_SIZE - NODE_START
  {
    match n
    case Leaf(parent, next, entries) => HeaderBytes(LEAF_TYPE, parent, |entries|, next) + LeafBytes(entries)
    case Internal(parent, next, keys, children) =>
      HeaderBytes(INTERNAL_TYPE, parent, |keys|, next) + ChildBytes(keys, children)
  }

  /** The page with the node written over it; its first 20 bytes and what follows the node stay. */
  function Encode(n: Node, page: seq<Byte>): (b: seq<Byte>)
    requires Fits(n) && |page| == PAGE_SIZE
    ensures |b| == PAGE_SIZE
  {
    WriteAt(page, NODE_START, NodeBytes(n))
  }

  // ---------------------------------------------------------------- decoding

  function EntryAt(b: seq<Byte>, off: nat): Entry {
    Entry(Get4(b, off), RID(Get4(b, off + 4), Get2(b, off + 8)))
  }

  function DecodeEntries(b: seq<Byte>, off: nat, n: nat): (s: seq<Entry>)
    ensures |s| == n
    decreases n
  {
    if n == 0 then [] else [EntryAt(b, off)] + DecodeEntries(b, off + 10, n - 1)
  }

  function DecodeKeys(b: seq<Byte>, off: nat, n: nat): (s: seq<Key>)
    ensures |s| == n
    decreases n
  {
    if n == 0 then [] else [Get4(b, off + 4)] + DecodeKeys(b, off + 8, n - 1)
  }

  function DecodeChildren(b: seq<Byte>, off: nat, n: nat): (s: seq<PageId>)
    ensures |s| == n + 1
    decreases n
  {
    if n == 0 then [Get4(b, off)] else [Get4(b, off)] + DecodeChildren(b, off + 8, n - 1)
  }

  function Decode(b: seq<Byte>): Option<Node> {
    var count := Get2(b, COUNT_AT);
    if Get1(b, NODE_START) == LEAF_TYPE then
      Some(Leaf(Get4(b, PARENT_AT), Get4(b, NEXT_AT), DecodeEntries(b, PAYLOAD_AT, count)))
    else if Get1(b, NODE_START) == INTERNAL_TYPE then
      Some(Internal(Get4(b, PARENT_AT), Get4(b, NEXT_AT),
                    DecodeKeys(b, PAYLOAD_AT, count), DecodeChildren(b, PAYLOAD_AT, count)))
    else None
  }

  // ---------------------------------------------------------------- round trips

  lemma {:induction false} DecodeLeafBytes(b: seq<Byte>, off: nat, entries: seq<Entry>)
    requires Holds(b, off, LeafBytes(entries))
    ensures DecodeEntries(b, off, |entries|) == entries
    decreases entries
  {
    hide Holds, Get4, Get2, Le4, Le2;
    if entries != [] {
      var e, rest := entries[0], entries[1..];
      HoldsPart(b, off, EntryBytes(e), LeafBytes(rest));
      DecodeLeafBytes(b, off + 10, rest);
      DecodeEntryBytes(b, off, e);
    }
  }

  lemma DecodeEntryBytes(b: seq<Byte>, off: nat, e: Entry)
    requires Holds(b, off, EntryBytes(e))
    ensures EntryAt(b, off) == e
  {
  }

  lemma {:induction false} DecodeChildBytes(b: seq<Byte>, off: nat, keys: seq<Key>, children: seq<PageId>)
    requires |children| == |keys| + 1 && Holds(b, off, ChildBytes(keys, children))
    ensures DecodeKeys(b, off, |keys|) == keys && DecodeChildren(b, off, |keys|) == children
    decreases keys
  {
    hide Holds, Get4, Le4;
    if keys == [] {
      Get4Le4(b, off, children[0]);
    } else {
      HoldsPart(b, off, Le4(children[0]) + Le4(keys[0]), ChildBytes(keys[1..], children[1..]));
      HoldsPart(b, off, Le4(children[0]), Le4(keys[0]));
      Get4Le4(b, off, children[0]);
      Get4Le4(b, off + 4, keys[0]);
      DecodeChildBytes(b, off + 8, keys[1..], children[1..]);
    }
  }

  lemma DecodeHeader(b: seq<Byte>, kind: Byte, parent: PageId, count: U16, next: PageId)
    requires Holds(b, NODE_START, HeaderBytes(kind, parent, count, next))
    ensures Get1(b, NODE_START) == kind && Get4(b, PARENT_AT) == parent
    ensures Get2(b, COUNT_AT) == count && Get4(b, NEXT_AT) == next
  {
    hide Get4, Get2, Le4, Le2;
    HoldsPart(b, NODE_START, [kind] + Le4(parent) + Le2(count), Le4(next));
    HoldsPart(b, NODE_START, [kind] + Le4(parent), Le2(count));
    HoldsPart(b, NODE_START, [kind], Le4(parent));
    assert b[NODE_START..NODE_START + 1][0] == kind;
    Get4Le4(b, PARENT_AT, parent);
    Get2Le2(b, COUNT_AT, count);
    Get4Le4(b, NEXT_AT, next);
  }

  /** Reading a node back gives the node that was written. */
  lemma DecodeEncode(n: Node, page: seq<Byte>)
    requires Fits(n) && |page| == PAGE_SIZE
    ensures Decode(Encode(n, page)) == Some(n)
  {
    hide Holds, Get4, Get2, Le4, Le2, WriteAt, HeaderBytes;
    var b := Encode(n, page);
    match n
    case Leaf(parent, next, entries) =>
      HoldsPart(b, NODE_START, HeaderBytes(LEAF_TYPE, parent, |entries|, next), LeafBytes(entries));
      DecodeHeader(b, LEAF_TYPE, parent, |entries|, next);
      DecodeLeafBytes(b, PAYLOAD_AT, entries);
    case Internal(parent, next, keys, children) =>
      HoldsPart(b, NODE_START, HeaderBytes(INTERNAL_TYPE, parent, |keys|, next), ChildBytes(keys, children));
      DecodeHeader(b, INTERNAL_TYPE, parent, |keys|, next);
      DecodeChildBytes(b, PAYLOAD_AT, keys, children);
  }

  /** Where a node's fields stand in its page. */
  lemma {:induction false} NodeLayout(n: Node, page: seq<Byte>)
    requires Fits(n) && |page| == PAGE_SIZE
    ensures Encode(n, page)[..20] == page[..20] && NodeStands(Encode(n, page), n)
  {
    assert Encode(n, page)[..20] == page[..20];
    hide Encode, Decode, NodeStands;
    DecodeEncode(n, page);
    Stands(Encode(n, page), n);
  }

  predicate NodeStands(b: seq<Byte>, n: Node)
    requires |b| == PAGE_SIZE
  {
    && b[20] == (if n.Leaf? then 2 else 1) && Get4(b, 21) == n.parent && Get4(b, 27) == n.next
    && Get2(b, 25) == (if n.Leaf? then |n.entries| else |n.keys|)
    && (n.Leaf? ==> forall i :: 0 <= i < |n.entries| ==> EntryStands(b, n.entries[i], 31 + 10 * i))
    && (n.Internal? ==> forall i :: 0 <= i < |n.children| ==> Get4(b, 31 + 8 * i) == n.children[i])
    && (n.Internal? ==> forall i :: 0 <= i < |n.keys| ==> Get4(b, 35 + 8 * i) == n.keys[i])
  }

  lemma {:induction false} Stands(b: seq<Byte>, n: Node)
    requires |b| == PAGE_SIZE && Decode(b) == Some(n)
    ensures NodeStands(b, n)
  {
    hide Get4, Get2, DecodeEntries, DecodeKeys, DecodeChildren, EntryStands;
    if n.Leaf? {
      forall i | 0 <= i < |n.entries| ensures EntryStands(b, n.entries[i], 31 + 10 * i) {
        EntriesAt(b, PAYLOAD_AT, |n.entries|, i);
      }
    } else {
      forall i | 0 <= i < |n.children|
        ensures Get4(b, 31 + 8 * i) == n.children[i] && (i < |n.keys| ==> Get4(b, 35 + 8 * i) == n.keys[i])
      {
        ChildrenAt(b, PAYLOAD_AT, |n.keys|, i);
      }
    }
  }

  /** Ten bytes: the key, the page and the slot. */
  predicate EntryStands(b: seq<Byte>, e: Entry, at: nat) {
    Get4(b, at) == e.key && Get4(b, at + 4) == e.rid.pageId && Get2(b, at + 8) == e.rid.slotId
  }

  lemma {:induction false} EntriesAt(b: seq<Byte>, off: nat, n: nat, i: nat)
    requires i < n
    ensures EntryStands(b, DecodeEntries(b, off, n)[i], off + 10 * i)
    decreases n
  {
    hide Get4, Get2;
    if i > 0 {
      EntriesAt(b, off + 10, n - 1, i - 1);
    }
  }

  lemma {:induction false} ChildrenAt(b: seq<Byte>, off: nat, n: nat, i: nat)
    requires i <= n
    ensures DecodeChildren(b, off, n)[i] == Get4(b, off + 8 * i)
    ensures i < n ==> DecodeKeys(b, off, n)[i] == Get4(b, off + 8 * i + 4)
    decreases n
  {
    hide Get4;
    if i > 0 {
      ChildrenAt(b, off + 8, n - 1, i - 1);
    }
  }

  // ---------------------------------------------------------------- writes that touch no payload

  predicate SameFrom(b: seq<Byte>, b': seq<Byte>, off: nat) {
    |b| == |b'| && forall k :: off <= k < |b| ==> b'[k] == b[k]
  }

  lemma {:induction false} EntriesSameFrom(b: seq<Byte>, b': seq<Byte>, off: nat, n: nat)
    requires SameFrom(b, b', off)
    ensures DecodeEntries(b', off, n) == DecodeEntries(b, off, n)
    decreases n
  {
    if n > 0 {
      EntriesSameFrom(b, b', off + 10, n - 1);
    }
  }

  lemma {:induction false} ChildrenSameFrom(b: seq<Byte>, b': seq<Byte>, off: nat, n: nat)
    requires SameFrom(b, b', off)
    ensures DecodeKeys(b', off, n) == DecodeKeys(b, off, n)
    ensures DecodeChildren(b', off, n) == DecodeChildren(b, off, n)
    decreases n
  {
    if n > 0 {
      ChildrenSameFrom(b, b', off + 8, n - 1);
    }
  }

  /** Rewriting the page header leaves the node in the page as it was. */
  lemma HeaderKeepsNode(b: seq<Byte>, b': seq<Byte>)
    requires SameFrom(b, b', NODE_START)
    ensures Decode(b') == Decode(b)
  {
    EntriesSameFrom(b, b', PAYLOAD_AT, Get2(b, COUNT_AT));
    ChildrenSameFrom(b, b', PAYLOAD_AT, Get2(b, COUNT_AT));
  }

  /** Overwriting the four parent bytes changes the parent and nothing else. */
  lemma PatchParent(b: seq<Byte>, n: Node, p: PageId)
    requires |b| == PAGE_SIZE && Decode(b) == Some(n)
    ensures Decode(WriteAt(b, PARENT_AT, Le4(p))) == Some(n.(parent := p))
  {
    hide Le4;
    var r := WriteAt(b, PARENT_AT, Le4(p));
    PatchElsewhere(b, p);
    Get4Le4(r, PARENT_AT, p);
    EntriesSameFrom(b, r, PAYLOAD_AT, Get2(b, COUNT_AT));
    ChildrenSameFrom(b, r, PAYLOAD_AT, Get2(b, COUNT_AT));
  }

  lemma PatchElsewhere(b: seq<Byte>, p: PageId)
    requires |b| == PAGE_SIZE
    ensures var r := WriteAt(b, PARENT_AT, Le4(p));
            r[NODE_START] == b[NODE_START] && SameFrom(b, r, COUNT_AT)
  {
  }

  // ---------------------------------------------------------------- one element more

  lemma {:induction false} DecodeEntriesNext(b: seq<Byte>, off: nat, n: nat)
    ensures DecodeEntries(b, off, n + 1) == DecodeEntries(b, off, n) + [EntryAt(b, off + 10 * n)]
    decreases n
  {
    hide EntryAt;
    if n > 0 {
      DecodeEntriesNext(b, off + 10, n - 1);
      assert off + 10 + 10 * (n - 1) == off + 10 * n;
      assert DecodeEntries(b, off, n) == [EntryAt(b, off)] + DecodeEntries(b, off + 10, n - 1);
    }
  }

  lemma {:induction false} DecodeKeysNext(b: seq<Byte>, off: nat, n: nat)
    ensures DecodeKeys(b, off, n + 1) == DecodeKeys(b, off, n) + [Get4(b, off + 8 * n + 4)]
    decreases n
  {
    hide Get4;
    if n > 0 {
      DecodeKeysNext(b, off + 8, n - 1);
      assert off + 8 + 8 * (n - 1) == off + 8 * n;
    }
  }

  lemma {:induction false} DecodeChildrenNext(b: seq<Byte>, off: nat, n: nat)
    ensures DecodeKeys(b, off, n + 1) == DecodeKeys(b, off, n) + [Get4(b, off + 8 * n + 4)]
    ensures DecodeChildren(b, off, n + 1) == DecodeChildren(b, off, n) + [Get4(b, off + 8 * n + 8)]
    decreases n
  {
    hide Get4, DecodeKeys;
    DecodeKeysNext(b, off, n);
    if n > 0 {
      DecodeChildrenNext(b, off + 8, n - 1);
      assert off + 8 + 8 * (n - 1) == off + 8 * n;
    }
  }

  lemma {:induction false} LeafBytesNext(s: seq<Entry>, e: Entry)
    ensures LeafBytes(s + [e]) == LeafBytes(s) + EntryBytes(e)
  {
    if s == [] {
      assert [e][1..] == [];
      assert s + [e] == [e];
    } else {
      var rest := s[1..];
      assert (s + [e])[1..] == rest + [e];
      LeafBytesNext(rest, e);
      Assoc(EntryBytes(s[0]), LeafBytes(rest), EntryBytes(e));
    }
  }

  /** All pairs but the last child: what the loop over the separators has written. */
  function PairBytes(keys: seq<Key>, children: seq<PageId>): (b: seq<Byte>)
    requires |children| == |keys|
    ensures |b| == 8 * |keys|
  {
    if keys == [] then [] else Le4(children[0]) + Le4(keys[0]) + PairBytes(keys[1..], children[1..])
  }

  lemma {:induction false} PairBytesNext(keys: seq<Key>, children: seq<PageId>, key: Key, child: PageId)
    requires |children| == |keys|
    ensures PairBytes(keys + [key], children + [child]) == PairBytes(keys, children) + (Le4(child) + Le4(key))
  {
    hide Le4;
    if keys == [] {
      assert [key][1..] == [] && [child][1..] == [];
      assert keys + [key] == [key] && children + [child] == [child];
    } else {
      var ks, cs := keys[1..], children[1..];
      assert (keys + [key])[1..] == ks + [key] && (children + [child])[1..] == cs + [child];
      PairBytesNext(ks, cs, key, child);
      Assoc(Le4(children[0]) + Le4(keys[0]), PairBytes(ks, cs), Le4(child) + Le4(key));
    }
  }

  lemma {:induction false} ChildBytesPairs(keys: seq<Key>, children: seq<PageId>)
    requires |children| == |keys| + 1
    ensures ChildBytes(keys, children) == PairBytes(keys, children[..|keys|]) + Le4(children[|keys|])
  {
    hide Le4;
    if keys != [] {
      var ks, cs := keys[1..], children[1..];
      ChildBytesPairs(ks, cs);
      assert children[..|keys|][1..] == cs[..|ks|];
      Assoc(Le4(children[0]) + Le4(keys[0]), PairBytes(ks, cs[..|ks|]), Le4(cs[|ks|]));
    }
  }

  lemma Assoc(a: seq<Byte>, b: seq<Byte>, c: seq<Byte>)
    ensures (a + b) + c == a + (b + c)
  {
  }
}

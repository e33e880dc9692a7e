/**
 The pages of one index as the tree sees them through the buffer pool: page bytes by
 id, a pin per outstanding reference, and a fixed number of frames.  A fetch fails
 only when every frame holds another pinned page.
 */
module IndexPool {
  import opened Base
  import opened Bytes
  import opened BTreeLevels
  import opened IndexNodes
  import opened Pins
  import Codec = NodeCodec

  /** Every node is what its page decodes to. */
  ghost predicate Stored(pages: map<PageId, seq<Byte>>, nodes: Nodes) {
    forall id :: id in nodes ==>
      id in pages && |pages[id]| == PAGE_SIZE && Codec.Decode(pages[id]) == Some(nodes[id]) && Codec.Fits(nodes[id])
  }

  /** Live and free pages lie below the page count and do not overlap. */
  ghost predicate Allocated(pages: map<PageId, seq<Byte>>, free: seq<PageId>, pageCount: nat) {
    && pageCount <= INVALID_PAGE_ID
    && NoDup(free)
    && (forall id :: id in free ==> id < pageCount && id !in pages)
    && (forall id :: id in pages ==> id < pageCount && |pages[id]| == PAGE_SIZE)
  }

  class IndexPages {
    const frames: nat
    var pages: map<PageId, seq<Byte>>
    var pins: multiset<PageId>
    var free: seq<PageId>
    var pageCount: nat
    ghost var nodes: Nodes
    /** Pages written since they were last released as dirty. */
    ghost var unannounced: set<PageId>

    ghost predicate Valid()
      reads this
    {
      Stored(pages, nodes) && Allocated(pages, free, pageCount)
    }

    /** No pages yet; the first pageCount ids are taken by others. */
    constructor (frames: nat, pageCount: nat)
      requires pageCount <= INVALID_PAGE_ID
      ensures Valid() && this.frames == frames && this.pageCount == pageCount
      ensures pages == map[] && nodes == map[] && pins == multiset{} && free == [] && unannounced == {}
    {
      this.frames := frames;
      this.pageCount := pageCount;
      pages, nodes, pins, free, unannounced := map[], map[], multiset{}, [], {};
    }

    /** Frames taken by pinned pages. */
    function Held(): nat
      reads `pins
    {
      |HeldPages(pins)|
    }

    /** How many pages can still be allocated. */
    ghost function Spare(): int
      reads `free, `pageCount
    {
      |free| + INVALID_PAGE_ID - pageCount
    }

    method Fetch(id: PageId) returns (ok: bool)
      requires Valid()
      modifies this`pins
      ensures ok <==> id in pages && (id in old(pins) || old(Held()) < frames)
      ensures pins == if ok then old(pins) + multiset{id} else old(pins)
      ensures Held() <= old(Held()) + 1
    {
      HeldGrows(pins, id);
      ok := id in pages && (id in pins || Held() < frames);
      if ok {
        pins := pins + multiset{id};
      }
    }

    /** Gives a pin back; a page that was written has to be released as dirty, or the write may be lost. */
    method Unpin(id: PageId, isDirty: bool)
      requires id in pins && (id in unannounced ==> isDirty)
      modifies this`pins, this`unannounced
      ensures pins == old(pins) - multiset{id}
      ensures unannounced == if isDirty then old(unannounced) - {id} else old(unannounced)
    {
      pins := pins - multiset{id};
      unannounced := if isDirty then unannounced - {id} else unannounced;
    }

    /** A zeroed page that no one uses, pinned. */
    method NewPage() returns (r: Option<PageId>)
      requires Valid() && Spare() > 0
      modifies this
      ensures Valid() && nodes == old(nodes) && unannounced == old(unannounced)
      ensures r.Some? <==> old(Held()) < frames
      ensures r.Some? ==>
        && r.value !in old(pages) && r.value != INVALID_PAGE_ID
        && pages == old(pages)[r.value := Zeros(PAGE_SIZE)]
        && pins == old(pins) + multiset{r.value}
        && Spare() == old(Spare()) - 1
      ensures r.Some? ==>
        && r.value == NextPage(old(free), old(pageCount)) && free == BelowTop(old(free))
        && pageCount == old(pageCount) + if old(free) == [] then 1 else 0
      ensures r.None? ==> free == old(free) && pageCount == old(pageCount)
      ensures r.None? ==> pages == old(pages) && pins == old(pins) && Spare() == old(Spare())
      ensures Held() <= old(Held()) + 1
    {
      if Held() >= frames {
        return None;
      }
      var id: PageId;
      if free != [] {
        id := free[0];
        assert forall x :: x in free[1..] ==> x in free && x != id;
        free := free[1..];
      } else {
        id := pageCount;
        pageCount := pageCount + 1;
      }
      HeldGrows(pins, id);
      pages := pages[id := Zeros(PAGE_SIZE)];
      pins := pins + multiset{id};
      r := Some(id);
    }

    method ReadLeaf(id: PageId) returns (leaf: LeafNode)
      requires Valid() && id in nodes && nodes[id].Leaf?
      ensures fresh(leaf) && leaf.Valid()
      ensures nodes[id] == Leaf(leaf.parent, leaf.next, leaf.Entries())
    {
      hide Get1, Get2, Get4, Codec.DecodeEntries;
      leaf := new LeafNode(pages[id]);
    }

    method ReadInternal(id: PageId) returns (n: InternalNode)
      requires Valid() && id in nodes && nodes[id].Internal?
      ensures fresh(n) && n.Valid() && |n.keys| == n.numKeys && |n.children| == n.numKeys + 1
      ensures nodes[id] == Internal(n.parent, n.next, n.Keys(), n.Children())
    {
      hide Get1, Get2, Get4, Codec.DecodeKeys, Codec.DecodeChildren;
      n := new InternalNode(pages[id]);
    }

    /** The type byte of the page. */
    method IsLeaf(id: PageId) returns (b: bool)
      requires Valid() && id in nodes
      ensures b == nodes[id].Leaf?
    {
      b := Get1(pages[id], Codec.NODE_START) == Codec.LEAF_TYPE;
    }

    /** The parent bytes of the page. */
    method ParentOf(id: PageId) returns (p: PageId)
      requires Valid() && id in nodes
      ensures p == nodes[id].parent
    {
      p := Get4(pages[id], Codec.PARENT_AT);
    }

    method WriteLeaf(id: PageId, leaf: LeafNode)
      requires Valid() && id in pages && leaf.Valid() && leaf.numKeys <= LEAF_MAX
      modifies this`pages, this`nodes, this`unannounced
      ensures Valid() && nodes == old(nodes)[id := Leaf(leaf.parent, leaf.next, leaf.Entries())]
      ensures unannounced == old(unannounced) + {id}
      ensures pages.Keys == old(pages.Keys) && forall q :: q in pages && q != id ==> pages[q] == old(pages)[q]
    {
      hide Codec.Decode, Codec.Encode;
      ghost var n := Leaf(leaf.parent, leaf.next, leaf.Entries());
      Codec.DecodeEncode(n, pages[id]);
      var bytes := leaf.SerializeToPage(pages[id]);
      pages, nodes, unannounced := pages[id := bytes], nodes[id := n], unannounced + {id};
    }

    method WriteInternal(id: PageId, node: InternalNode)
      requires Valid() && id in pages && node.Valid() && 1 <= node.numKeys <= INTERNAL_MAX
      modifies this`pages, this`nodes, this`unannounced
      ensures Valid() && nodes == old(nodes)[id := Internal(node.parent, node.next, node.Keys(), node.Children())]
      ensures unannounced == old(unannounced) + {id}
      ensures pages.Keys == old(pages.Keys) && forall q :: q in pages && q != id ==> pages[q] == old(pages)[q]
    {
      hide Codec.Decode, Codec.Encode;
      ghost var n := Internal(node.parent, node.next, node.Keys(), node.Children());
      Codec.DecodeEncode(n, pages[id]);
      var bytes := node.SerializeToPage(pages[id]);
      pages, nodes, unannounced := pages[id := bytes], nodes[id := n], unannounced + {id};
    }

    /** Overwrites the four parent bytes of the page in place. */
    method SetParent(id: PageId, p: PageId)
      requires Valid() && id in nodes
      modifies this`pages, this`nodes, this`unannounced
      ensures Valid() && nodes == old(nodes)[id := old(nodes)[id].(parent := p)]
      ensures unannounced == old(unannounced) + {id}
      ensures pages.Keys == old(pages.Keys) && forall q :: q in pages && q != id ==> pages[q] == old(pages)[q]
    {
      hide Codec.Decode;
      Codec.PatchParent(pages[id], nodes[id], p);
      pages := pages[id := WriteAt(pages[id], Codec.PARENT_AT, Le4(p))];
      nodes, unannounced := nodes[id := nodes[id].(parent := p)], unannounced + {id};
    }
  }
}

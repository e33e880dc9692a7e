/**
 The index's pool of pages is the buffer pool seen from above: run side by side, the two
 give the same answers and stay in step, whatever is evicted and written back below.
 */
module PoolLayers {
  import opened Base
  import opened Bytes
  import opened SlotMap
  import opened PageCodec
  import opened BTreeLevels
  import opened BufferFrames
  import opened BufferPool
  import opened Disk
  import opened IndexNodes
  import opened IndexPool
  import opened Pins
  import NodeCodec

  /** A page without slots that holds the same node: behind the page header the bytes agree. */
  ghost predicate SameNode(shown: seq<Byte>, page: seq<Byte>) {
    && |shown| == |page| == PAGE_SIZE
    && DecodeHeader(shown).numSlots == 0
    && shown[HEADER_SIZE..] == page[HEADER_SIZE..]
  }

  /** The same live pages, and the same node in each of them but the excepted one. */
  ghost predicate Shows(view: imap<PageId, seq<Byte>>, pages: map<PageId, seq<Byte>>, but: Option<PageId>) {
    && (forall p: PageId :: p in pages <==> p in view)
    && (forall p: PageId :: p in pages ==> |view[p]| == PAGE_SIZE && DecodeHeader(view[p]).numSlots == 0)
    && (forall p: PageId :: p in pages && but != Some(p) ==> SameNode(view[p], pages[p]))
  }

  ghost predicate SamePins(s: PoolState, pins: multiset<PageId>) {
    forall p: PageId :: pins[p] == PinsOf(s, p)
  }

  /** Pages, pins, free pages and unannounced writes above are those below; page `but` was written above only. */
  ghost predicate InStep(bp: BufferPoolManager, ip: IndexPages, but: Option<PageId>)
    reads bp, bp.disk, bp.replacer, ip
  {
    && bp.Valid() && ip.Valid() && bp.poolSize == ip.frames
    && Shows(bp.View(), ip.pages, but) && SamePins(bp.State(), ip.pins)
    && ip.free == bp.disk.free && ip.pageCount == |bp.disk.file|
    && ip.unannounced == bp.pending + (if but.Some? then {but.value} else {})
  }

  /** The frames that held pages take are the frames of the pinned pages. */
  lemma HeldArePinned(s: PoolState, pins: multiset<PageId>)
    requires SamePins(s, pins)
    ensures HeldPages(pins) == PinnedPages(s)
  {
    forall p: PageId ensures p in HeldPages(pins) <==> p in PinnedPages(s) {
      assert pins[p] == PinsOf(s, p);
    }
  }

  lemma {:induction false} SameNodeDecodes(shown: seq<Byte>, page: seq<Byte>)
    requires SameNode(shown, page)
    ensures NodeCodec.Decode(shown) == NodeCodec.Decode(page)
  {
    hide NodeCodec.Decode, DecodeHeader;
    forall k | HEADER_SIZE <= k < PAGE_SIZE ensures shown[k] == page[k] {
      assert shown[HEADER_SIZE..][k - HEADER_SIZE] == page[HEADER_SIZE..][k - HEADER_SIZE];
    }
    NodeCodec.HeaderKeepsNode(page, shown);
  }

  /** Every node of the tree can be read from the bytes the buffer pool shows. */
  lemma NodesShown(bp: BufferPoolManager, ip: IndexPages, p: PageId)
    requires InStep(bp, ip, None) && p in ip.nodes
    ensures p in bp.View() && NodeCodec.Decode(bp.View()[p]) == Some(ip.nodes[p])
  {
    hide NodeCodec.Decode, DecodeHeader, IndexPool.Allocated;
    SameNodeDecodes(bp.View()[p], ip.pages[p]);
  }

  // ---------------------------------------------------------------- fetch and release

  /** The pages above are the live pages below. */
  lemma LivePages(s: PoolState, pages: map<PageId, seq<Byte>>, but: Option<PageId>, p: PageId)
    requires Mapped(s.frames, s.table) && Shows(Seen(s), pages, but)
    ensures p in pages <==> 1 <= p < |s.file| && p !in s.diskFree
  {
    assert p in pages <==> p in Seen(s);
  }

  lemma PinsGrow(s: PoolState, s': PoolState, pins: multiset<PageId>, p: PageId)
    requires SamePins(s, pins) && PinsOf(s', p) == PinsOf(s, p) + 1
    requires forall q :: q != p ==> PinsOf(s', q) == PinsOf(s, q)
    ensures SamePins(s', pins + multiset{p})
  {
    forall q: PageId ensures (pins + multiset{p})[q] == PinsOf(s', q) {
      assert pins[q] == PinsOf(s, q);
    }
  }

  lemma PinsShrink(s: PoolState, s': PoolState, pins: multiset<PageId>, p: PageId)
    requires SamePins(s, pins) && p in pins
    requires PinsOf(s', p) == PinsOf(s, p) - 1 && forall q :: q != p ==> PinsOf(s', q) == PinsOf(s, q)
    ensures SamePins(s', pins - multiset{p})
  {
    forall q: PageId ensures (pins - multiset{p})[q] == PinsOf(s', q) {
      assert pins[q] == PinsOf(s, q);
    }
  }

  lemma PinsStay(s: PoolState, s': PoolState, pins: multiset<PageId>)
    requires SamePins(s, pins) && forall q :: PinsOf(s', q) == PinsOf(s, q)
    ensures SamePins(s', pins)
  {
    forall q: PageId ensures pins[q] == PinsOf(s', q) {
      assert pins[q] == PinsOf(s, q);
    }
  }

  lemma PinnedHere(s: PoolState, pins: multiset<PageId>, p: PageId)
    requires SamePins(s, pins)
    ensures p in pins <==> PinsOf(s, p) > 0
  {
    assert pins[p] == PinsOf(s, p);
  }

  /** Both give out the page, or neither does. */
  method FetchBoth(bp: BufferPoolManager, ip: IndexPages, p: PageId) returns (frame: Option<nat>, ok: bool)
    requires InStep(bp, ip, None)
    // a page on the free stack is fetched by no one
    requires p < |bp.disk.file| ==> p in ip.pages
    modifies bp`frames, bp`meta, bp`pageTable, bp`freeList, bp.replacer, bp.disk`file, ip`pins
    ensures InStep(bp, ip, None) && (ok <==> frame.Some?)
  {
    hide Shows, SamePins, Stored, IndexPool.Allocated, Sound, Seen;
    hide FileHolds, PinsOf, PinnedPages, HeldPages, Hit, Missed;
    ghost var s, pins := bp.State(), ip.pins;
    HeldArePinned(s, pins);
    PinnedHere(s, pins, p);
    MappedAlways(s);
    LivePages(s, ip.pages, None, p);
    frame := bp.FetchPage(p);
    ok := ip.Fetch(p);
    if ok {
      forall q | q != p ensures PinsOf(bp.State(), q) == PinsOf(s, q) {
        assert bp.PinCount(q) == old(bp.PinCount(q));
      }
      PinsGrow(s, bp.State(), pins, p);
    } else {
      forall q ensures PinsOf(bp.State(), q) == PinsOf(s, q) {
        assert bp.PinCount(q) == old(bp.PinCount(q));
      }
      PinsStay(s, bp.State(), pins);
    }
  }

  lemma MappedAlways(s: PoolState)
    requires Sound(s, None)
    ensures Mapped(s.frames, s.table)
  {
  }

  /** Both take back a pin. */
  method UnpinBoth(bp: BufferPoolManager, ip: IndexPages, p: PageId, isDirty: bool) returns (ok: bool)
    requires InStep(bp, ip, None) && p in ip.pins
    requires p in ip.unannounced ==> isDirty
    modifies bp`meta, bp`pending, bp.replacer, ip`pins, ip`unannounced
    ensures InStep(bp, ip, None) && ok
  {
    hide Shows, SamePins, Stored, IndexPool.Allocated, Sound, Seen, FileHolds, PinsOf, UnpinStep;
    ghost var s, pins := bp.State(), ip.pins;
    PinnedHere(s, pins, p);
    ok := bp.UnpinPage(p, isDirty);
    ip.Unpin(p, isDirty);
    forall q | q != p ensures PinsOf(bp.State(), q) == PinsOf(s, q) {
      assert bp.PinCount(q) == old(bp.PinCount(q));
    }
    PinsShrink(s, bp.State(), pins, p);
  }

  // ---------------------------------------------------------------- new pages

  lemma {:induction false} FreshShown(p: PageId)
    ensures SameNode(ToBytes(FreshImage(p)), Zeros(PAGE_SIZE))
  {
    var img := FreshImage(p);
    FromToBytes(img);
    ToBytesKeepsTail(img, HEADER_SIZE);
    assert DecodeHeader(ToBytes(img)) == FromBytes(ToBytes(img)).header;
  }

  lemma ShowsNew(view: imap<PageId, seq<Byte>>, pages: map<PageId, seq<Byte>>, p: PageId, shown: seq<Byte>,
                 page: seq<Byte>)
    requires Shows(view, pages, None) && SameNode(shown, page)
    ensures Shows(view[p := shown], pages[p := page], None)
  {
    hide DecodeHeader;
  }

  /** Both hand out the same new page, or both fail because every frame is held. */
  method NewBoth(bp: BufferPoolManager, ip: IndexPages) returns (below: Option<PageId>, above: Option<PageId>)
    requires InStep(bp, ip, None) && |bp.disk.file| + 1 < INVALID_PAGE_ID
    modifies bp`frames, bp`meta, bp`pageTable, bp`freeList, bp.replacer, bp.disk, ip
    ensures InStep(bp, ip, None) && below == above
  {
    hide Shows, SamePins, Stored, IndexPool.Allocated, Sound, Seen, FileHolds, PinsOf, PinnedPages, HeldPages;
    hide ToBytes, FreshImage, SameNode;
    ghost var s, pins := bp.State(), ip.pins;
    HeldArePinned(s, pins);
    MappedAlways(s);
    ghost var view, pages := bp.View(), ip.pages;
    below := bp.NewPage();
    above := ip.NewPage();
    if below.Some? {
      NotPinnedBefore(s, below.value);
      forall q | q != below.value ensures PinsOf(bp.State(), q) == PinsOf(s, q) {
        assert bp.PinCount(q) == old(bp.PinCount(q));
      }
      PinsGrow(s, bp.State(), pins, below.value);
      FreshShown(below.value);
      ShowsNew(view, pages, below.value, ToBytes(FreshImage(below.value)), Zeros(PAGE_SIZE));
    }
  }

  // ---------------------------------------------------------------- writing a node

  /** The frame's image with the node written behind the page header. */
  function WithNode(img: PageImage, page: seq<Byte>): PageImage
    requires |img.bytes| == |page| == PAGE_SIZE
  {
    img.(bytes := img.bytes[..HEADER_SIZE] + page[HEADER_SIZE..])
  }

  lemma {:induction false} WithNodeShown(img: PageImage, page: seq<Byte>)
    requires Coded(img) && |page| == PAGE_SIZE && DecodeHeader(ToBytes(img)).numSlots == 0
    ensures Coded(WithNode(img, page)) && SameNode(ToBytes(WithNode(img, page)), page)
  {
    FromToBytes(img);
    assert img.header == DecodeHeader(ToBytes(img));
    var after := WithNode(img, page);
    FromToBytes(after);
    assert DecodeHeader(ToBytes(after)) == FromBytes(ToBytes(after)).header;
    ToBytesKeepsTail(after, HEADER_SIZE);
    var shown := ToBytes(after);
    forall k | 0 <= k < PAGE_SIZE - HEADER_SIZE ensures shown[HEADER_SIZE..][k] == page[HEADER_SIZE..][k] {
      assert after.bytes[HEADER_SIZE + k] == page[HEADER_SIZE + k];
    }
  }

  lemma ShowsWritten(view: imap<PageId, seq<Byte>>, pages: map<PageId, seq<Byte>>, p: PageId, shown: seq<Byte>)
    requires Shows(view, pages, Some(p)) && p in pages && SameNode(shown, pages[p])
    ensures Shows(view[p := shown], pages, None)
  {
    hide DecodeHeader;
  }

  /** What the holder of a page wrote into its node above is written into the frame below. */
  method StoreNode(bp: BufferPoolManager, ip: IndexPages, p: PageId)
    requires InStep(bp, ip, Some(p)) && p in ip.pages && p in ip.pins
    modifies bp`frames, bp`pending
    ensures InStep(bp, ip, None)
  {
    hide SamePins, Stored, Sound, Seen, FileHolds, PinsOf, ToBytes, DecodeHeader, Coded, Shows;
    MappedAlways(bp.State());
    ghost var s, view := bp.State(), bp.View();
    PinnedHere(s, ip.pins, p);
    HeldResident(s, p);
    ghost var img := bp.frames[bp.pageTable[p]];
    ShownSlotless(view, ip.pages, p);
    PageSized(ip.pages, ip.free, ip.pageCount, p);
    WithNodeShown(img, ip.pages[p]);
    FrameSized(img);
    bp.WriteHeld(p, WithNode(bp.frames[bp.pageTable[p]], ip.pages[p]));
    ShowsWritten(view, ip.pages, p, ToBytes(WithNode(img, ip.pages[p])));
    PinsStayWritten(s, bp.State(), ip.pins);
  }

  lemma FrameSized(img: PageImage)
    requires Coded(img)
    ensures |img.bytes| == PAGE_SIZE
  {
  }

  lemma PageSized(pages: map<PageId, seq<Byte>>, free: seq<PageId>, pageCount: nat, p: PageId)
    requires IndexPool.Allocated(pages, free, pageCount) && p in pages
    ensures |pages[p]| == PAGE_SIZE
  {
  }

  lemma ShownSlotless(view: imap<PageId, seq<Byte>>, pages: map<PageId, seq<Byte>>, p: PageId)
    requires Shows(view, pages, Some(p)) && p in pages
    ensures p in view && DecodeHeader(view[p]).numSlots == 0
  {
  }

  /** A pinned page is in memory, and its frame's image is what callers see. */
  lemma HeldResident(s: PoolState, p: PageId)
    requires Sound(s, None) && PinsOf(s, p) > 0
    ensures p in s.table && s.table[p] < |s.frames| && Coded(s.frames[s.table[p]]) && Mapped(s.frames, s.table)
    ensures p in Seen(s) && Seen(s)[p] == ToBytes(s.frames[s.table[p]])
  {
  }

  /** A write changes no pin. */
  lemma PinsStayWritten(s: PoolState, s': PoolState, pins: multiset<PageId>)
    requires SamePins(s, pins) && s'.table == s.table && s'.meta == s.meta
    ensures SamePins(s', pins)
  {
    PinsStay(s, s', pins);
  }

  /** A leaf written above and below. */
  method WriteLeafBoth(bp: BufferPoolManager, ip: IndexPages, p: PageId, leaf: LeafNode)
    requires InStep(bp, ip, None) && p in ip.pages && p in ip.pins && leaf.Valid() && leaf.numKeys <= LEAF_MAX
    modifies bp`frames, bp`pending, ip`pages, ip`nodes, ip`unannounced
    ensures InStep(bp, ip, None)
    ensures ip.nodes == old(ip.nodes)[p := Leaf(leaf.parent, leaf.next, leaf.Entries())]
  {
    hide SamePins, Stored, IndexPool.Allocated, Sound, Seen, FileHolds, PinsOf, ToBytes, DecodeHeader, Shows;
    ghost var pages := ip.pages;
    ip.WriteLeaf(p, leaf);
    MappedAlways(bp.State());
    ShowsBut(bp.View(), pages, ip.pages, p);
    StoreNode(bp, ip, p);
  }

  /** An internal node written above and below. */
  method WriteInternalBoth(bp: BufferPoolManager, ip: IndexPages, p: PageId, node: InternalNode)
    requires InStep(bp, ip, None) && p in ip.pages && p in ip.pins && node.Valid() && 1 <= node.numKeys <= INTERNAL_MAX
    modifies bp`frames, bp`pending, ip`pages, ip`nodes, ip`unannounced
    ensures InStep(bp, ip, None)
    ensures ip.nodes == old(ip.nodes)[p := Internal(node.parent, node.next, node.Keys(), node.Children())]
  {
    hide SamePins, Stored, IndexPool.Allocated, Sound, Seen, FileHolds, PinsOf, ToBytes, DecodeHeader, Shows;
    ghost var pages := ip.pages;
    ip.WriteInternal(p, node);
    MappedAlways(bp.State());
    ShowsBut(bp.View(), pages, ip.pages, p);
    StoreNode(bp, ip, p);
  }

  /** Four parent bytes changed above, the page written below. */
  method SetParentBoth(bp: BufferPoolManager, ip: IndexPages, p: PageId, parent: PageId)
    requires InStep(bp, ip, None) && p in ip.nodes && p in ip.pages && p in ip.pins
    modifies bp`frames, bp`pending, ip`pages, ip`nodes, ip`unannounced
    ensures InStep(bp, ip, None)
    ensures ip.nodes == old(ip.nodes)[p := old(ip.nodes)[p].(parent := parent)]
  {
    hide SamePins, Stored, IndexPool.Allocated, Sound, Seen, FileHolds, PinsOf, ToBytes, DecodeHeader, Shows;
    ghost var pages := ip.pages;
    ip.SetParent(p, parent);
    MappedAlways(bp.State());
    ShowsBut(bp.View(), pages, ip.pages, p);
    StoreNode(bp, ip, p);
  }

  lemma ShowsBut(view: imap<PageId, seq<Byte>>, pages: map<PageId, seq<Byte>>, pages': map<PageId, seq<Byte>>,
                 p: PageId)
    requires Shows(view, pages, None) && pages'.Keys == pages.Keys
    requires forall q :: q in pages && q != p ==> pages'[q] == pages[q]
    ensures Shows(view, pages', Some(p))
  {
    hide DecodeHeader;
    forall q: PageId ensures q in pages' <==> q in view {
      assert q in pages'.Keys <==> q in pages.Keys;
    }
  }

  // ---------------------------------------------------------------- the start

  /** A new database file, the pool over it and the empty pool of the index start in step. */
  method StartBoth(frames: nat) returns (bp: BufferPoolManager, ip: IndexPages)
    requires frames > 0
    ensures fresh(bp) && fresh(ip) && InStep(bp, ip, None)
  {
    hide Sound, Seen, FileHolds, ToBytes, DecodeHeader;
    var disk := new DiskManager.InitializeNewFile();
    bp := new BufferPoolManager(frames, disk);
    ip := new IndexPages(frames, 1);
    MappedAlways(bp.State());
    forall p: PageId ensures p !in bp.View() {
      assert !disk.Live(p);
    }
  }
}

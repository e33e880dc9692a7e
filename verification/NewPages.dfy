/** A new page from the buffer pool, read back as a page object: at once, and after any traffic through the pool. */
module NewPages {
  import opened Base
  import opened SlotMap
  import opened PageCodec
  import opened SlottedPage
  import opened Disk
  import opened BufferFrames
  import opened BufferPool

  /** The page object that a holder of page p sees. */
  method PageHeld(bp: BufferPoolManager, p: PageId) returns (page: Page)
    requires bp.Valid() && p in bp.pageTable && NewlyFormatted(bp.View()[p], p)
    ensures fresh(page) && fresh(page.data) && page.Valid() && page.View() == PageView([], 4076)
    ensures page.pageId == p && page.nextPageId == INVALID_PAGE_ID && page.flags == 0
  {
    hide Sound, FileHolds, NewlyFormatted;
    AtTable(bp.State(), p);
    FrameShown(bp.State(), p);
    page := ReadNewPage(ToBytes(bp.frames[bp.pageTable[p]]), p);
  }

  /** Fetches a page and lets go of it again. */
  method Pass(bp: BufferPoolManager, q: PageId)
    requires bp.Valid() && bp.pending == {} && (q < |bp.disk.file| ==> bp.disk.Live(q))
    modifies bp`frames, bp`meta, bp`pageTable, bp`freeList, bp`pending, bp.replacer, bp.disk`file
    ensures bp.Valid() && bp.pending == {} && bp.View() == old(bp.View()) && |bp.disk.file| == old(|bp.disk.file|)
    ensures forall p :: bp.PinCount(p) == old(bp.PinCount(p))
  {
    hide Sound, Seen, FileHolds, PinsOf, PinnedPages, Hit, Missed, UnpinStep;
    var f := bp.FetchPage(q);
    if f.Some? {
      var ok := bp.UnpinPage(q, false);
    }
  }

  method PassAll(bp: BufferPoolManager, others: seq<PageId>)
    requires bp.Valid() && bp.pending == {} && forall q :: q in others ==> bp.disk.Live(q)
    modifies bp`frames, bp`meta, bp`pageTable, bp`freeList, bp`pending, bp.replacer, bp.disk`file
    ensures bp.Valid() && bp.pending == {} && bp.View() == old(bp.View()) && |bp.disk.file| == old(|bp.disk.file|)
    ensures forall p :: bp.PinCount(p) == old(bp.PinCount(p))
  {
    hide Seen, FileHolds, PinsOf, Accounts, Synced, DiskReadable, ResidentLive;
    for i := 0 to |others|
      invariant bp.Valid() && bp.pending == {} && bp.View() == old(bp.View()) && |bp.disk.file| == old(|bp.disk.file|)
      invariant forall p :: bp.PinCount(p) == old(bp.PinCount(p))
    {
      assert others[i] in others;
      Pass(bp, others[i]);
    }
  }

  /** Makes a new page, looks at it and lets go of it as it is. */
  method MakeAndRelease(bp: BufferPoolManager) returns (p: Option<PageId>, page: Option<Page>)
    requires bp.Valid() && bp.pending == {} && |bp.disk.file| + 1 < INVALID_PAGE_ID
    modifies bp`frames, bp`meta, bp`pageTable, bp`freeList, bp`pending, bp.replacer, bp.disk
    ensures bp.Valid() && bp.pending == {}
    ensures p.Some? <==> |PinnedPages(old(bp.State()))| < bp.poolSize
    ensures p.Some? <==> page.Some?
    ensures p.Some? ==>
      && EmptyPage(page.value, p.value) && fresh(page.value) && fresh(page.value.data)
      && p.value in bp.View() && NewlyFormatted(bp.View()[p.value], p.value)
    ensures forall q :: bp.PinCount(q) == old(bp.PinCount(q))
    ensures forall q: PageId :: old(bp.disk.Live(q)) || p == Some(q) ==> bp.disk.Live(q)
  {
    hide Sound, Seen, FileHolds, PinsOf, PinnedPages, UnpinStep, NewlyFormatted;
    ghost var before := bp.State();
    SeenAreLive(before);
    p := bp.NewPage();
    page := None;
    if p.Some? {
      NotPinnedBefore(before, p.value);
      SeenAreLive(bp.State());
      var held := PageHeld(bp, p.value);
      page := Some(held);
      var ok := bp.UnpinPage(p.value, false);
    }
  }

  /**
   A new page is released as it is, any pages are fetched and released, so that it may leave memory and come back, and
   then it is fetched again: it is still an empty page with all its room.
   */
  method NewPageReadBack(bp: BufferPoolManager, others: seq<PageId>)
    returns (p: Option<PageId>, first: Option<Page>, again: Option<Page>)
    requires bp.Valid() && bp.pending == {} && |bp.disk.file| + 1 < INVALID_PAGE_ID
    requires forall q :: q in others ==> bp.disk.Live(q)
    modifies bp`frames, bp`meta, bp`pageTable, bp`freeList, bp`pending, bp.replacer, bp.disk
    ensures p.Some? <==> |PinnedPages(old(bp.State()))| < bp.poolSize
    ensures p.Some? <==> first.Some?
    ensures p.Some? <==> again.Some?
    ensures p.Some? ==> EmptyPage(first.value, p.value) && EmptyPage(again.value, p.value)
  {
    hide Sound, Seen, FileHolds, PinsOf, PinnedPages, Hit, Missed, NewlyFormatted;
    ghost var before := bp.State();
    p, first := MakeAndRelease(bp);
    again := None;
    if p.Some? {
      PassAll(bp, others);
      forall q ensures PinsOf(bp.State(), q) == PinsOf(before, q) {
        assert bp.PinCount(q) == old(bp.PinCount(q));
      }
      SamePinned(before, bp.State());
      var f := bp.FetchPage(p.value);
      var page := PageHeld(bp, p.value);
      again := Some(page);
    }
  }

  lemma SeenAreLive(s: PoolState)
    requires Sound(s, None)
    ensures forall q: PageId :: q in Seen(s) <==> 1 <= q < |s.file| && q !in s.diskFree
  {
  }

  lemma SamePinned(s: PoolState, s': PoolState)
    requires forall q :: PinsOf(s', q) == PinsOf(s, q)
    ensures PinnedPages(s') == PinnedPages(s)
  {
    forall q ensures q in PinnedPages(s') <==> q in PinnedPages(s) {
      assert PinsOf(s', q) == PinsOf(s, q);
    }
  }

  /** A well-formed page without records, with all room free, that ends its chain. */
  ghost predicate EmptyPage(page: Page, p: PageId)
    reads page, page.data
  {
    && page.Valid() && page.View() == PageView([], 4076)
    && page.pageId == p && page.nextPageId == INVALID_PAGE_ID && page.flags == 0
  }
}

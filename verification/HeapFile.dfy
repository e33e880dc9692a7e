/**
 The heap file: records addressed by RID on a chain of slotted pages, with a directory of pages that may have
 room.
 */
module HeapFiles {
  import opened Base
  import opened SlotMap
  import opened BTreeLevels
  import opened Counting
  import opened Pins
  import opened Recency
  import opened HeapRows
  import opened HeapSpace

  /** The data pages as the heap file sees them through the buffer pool. */
  class DataPool {
    const frames: nat
    var pages: DataPages
    var pins: multiset<PageId>

    function Held(): nat
      reads this
    {
      |HeldPages(pins)|
    }

    method Fetch(p: PageId) returns (ok: bool)
      modifies this`pins
      ensures ok <==> p in pages && (p in old(pins) || old(Held()) < frames)
      ensures pins == if ok then old(pins) + multiset{p} else old(pins)
      ensures Held() <= old(Held()) + 1
    {
      HeldGrows(pins, p);
      ok := p in pages && (p in pins || Held() < frames);
      if ok {
        pins := pins + multiset{p};
      }
    }

    method Unpin(p: PageId)
      requires p in pins
      modifies this`pins
      ensures pins == old(pins) - multiset{p}
    {
      pins := pins - multiset{p};
    }

    /** A formatted page that no one uses, pinned. */
    method NewPage() returns (r: Option<PageId>)
      requires |pages| < INVALID_PAGE_ID
      modifies this
      ensures r.Some? <==> old(Held()) < frames
      ensures r.Some? ==>
          && r.value !in old(pages) && r.value != INVALID_PAGE_ID
          && pages == old(pages)[r.value := DataPage(FORMATTED, INVALID_PAGE_ID)]
          && pins == old(pins) + multiset{r.value}
      ensures r.None? ==> pages == old(pages) && pins == old(pins)
      ensures Held() <= old(Held()) + 1
    {
      if Held() >= frames {
        return None;
      }
      FreshIdExists(pages);
      var p: PageId :| p !in pages && p != INVALID_PAGE_ID;
      HeldGrows(pins, p);
      pages := pages[p := DataPage(FORMATTED, INVALID_PAGE_ID)];
      pins := pins + multiset{p};
      r := Some(p);
    }

    /** The holder of a page changes its records. */
    method SetView(p: PageId, v: PageView)
      requires p in pages && p in pins
      modifies this`pages
      ensures pages == old(pages)[p := old(pages)[p].(view := v)]
    {
      pages := pages[p := pages[p].(view := v)];
    }

    method SetNextPageId(p: PageId, next: PageId)
      requires p in pages && p in pins
      modifies this`pages
      ensures pages == old(pages)[p := old(pages)[p].(next := next)]
    {
      pages := pages[p := pages[p].(next := next)];
    }
  }

  class HeapFile {
    const pool: DataPool
    var firstPageId: PageId
    var lastPageId: PageId
    var recordCount: int
    var pageCount: nat
    var pagesWithSpace: seq<PageId>
    ghost var chain: seq<PageId>
    /** How far the count lags behind the records: by one for each update of a record that was not there. */
    ghost var drift: nat

    /** Well-formed up to extra records that the count does not show yet. */
    ghost predicate Counted(extra: int)
      reads this, pool
    {
      && AllSized(pool.pages) && Linked(pool.pages, chain)
      && firstPageId == chain[0] && lastPageId == chain[|chain| - 1] && pageCount == |chain|
      && recordCount + extra == LiveTotal(pool.pages, chain)
      && NoDup(pagesWithSpace) && forall p :: p in pagesWithSpace ==> p in chain
    }

    ghost predicate Valid()
      reads this, pool
    {
      Counted(drift)
    }

    /** The pool holds the pages of this heap and no others. */
    ghost predicate Owns()
      reads this, pool
    {
      forall p :: p in pool.pages ==> p in chain
    }

    /** At most n pages more, all of them at the end of this heap's chain. */
    twostate predicate Grown(n: nat)
      reads this, pool
    {
      && old(|pool.pages|) <= |pool.pages| <= old(|pool.pages|) + n && old(chain) <= chain
      && (old(Owns()) ==> Owns()) && drift == old(drift)
    }

    /** The stored records by RID. */
    ghost function Heap(): imap<RID, Record>
      reads this, pool
    {
      Stored(pool.pages, chain)
    }

    /** Where the records lie, and which pages are asked for room. */
    ghost function Layout(): Space
      reads this, pool
    {
      Space(pool.pages, chain, pagesWithSpace)
    }

    /** Makes a heap file of one empty page. */
    constructor Create(pool: DataPool)
      requires AllSized(pool.pages) && |pool.pages| < INVALID_PAGE_ID && pool.Held() < pool.frames
      modifies pool
      ensures Valid() && this.pool == pool && pool.pins == old(pool.pins)
      ensures Heap() == imap[]
      ensures recordCount == 0 && pageCount == 1 && drift == 0 && |pool.pages| == old(|pool.pages|) + 1
      ensures firstPageId !in old(pool.pages) && chain == pagesWithSpace == [firstPageId]
      ensures pool.pages == old(pool.pages)[firstPageId := DataPage(FORMATTED, INVALID_PAGE_ID)]
      ensures old(pool.pages) == map[] ==> Owns()
    {
      this.pool := pool;
      var r := pool.NewPage();
      var p := r.value;
      pool.Unpin(p);
      firstPageId, lastPageId := p, p;
      recordCount, pageCount := 0, 1;
      pagesWithSpace := [p];
      chain := [p];
      drift := 0;
      new;
      hide Linked, AllSized, LiveTotal, Stored, HeldPages;
      assert pool.pages.Keys == old(pool.pages.Keys) + {p};
      assert pool.pins == old(pool.pins);
      OneEmptyPage(old(pool.pages), p);
    }

    /** Looks at one page of the chain. */
    static method Visit(pool: DataPool, p: PageId) returns (live: nat, roomy: bool, next: PageId)
      requires p in pool.pages && pool.Held() < pool.frames
      modifies pool`pins
      ensures pool.pins == old(pool.pins)
      ensures live == LiveCount(pool.pages[p].view.records) && roomy == HasRoom(pool.pages[p].view, 64)
      ensures next == pool.pages[p].next
    {
      var ok := pool.Fetch(p);
      live := LiveCount(pool.pages[p].view.records);
      roomy := HasRoom(pool.pages[p].view, 64);
      next := pool.pages[p].next;
      pool.Unpin(p);
      assert pool.pins == old(pool.pins);
    }

    /** Reopens a heap file by walking its chain from the first page. */
    constructor Open(pool: DataPool, firstPageId: PageId, ghost chain: seq<PageId>)
      requires AllSized(pool.pages) && Linked(pool.pages, chain) && firstPageId == chain[0]
      requires pool.Held() < pool.frames
      modifies pool`pins
      ensures Valid() && this.pool == pool && this.chain == chain && pool.pins == old(pool.pins)
      ensures Heap() == Stored(pool.pages, chain) && pagesWithSpace == RoomyPages(pool.pages, chain)
    {
      NoDupChain(pool.pages, chain);
      assert chain[..0] == [] && LiveTotal(pool.pages, []) == 0;
      hide Linked, AllSized, LiveTotal, Stored, HeldPages;
      var current, last, count, visited := firstPageId, firstPageId, 0, 0;
      var space: seq<PageId> := [];
      while current != INVALID_PAGE_ID
        invariant visited <= |chain| && current == PageAt(chain, visited)
        invariant count == LiveTotal(pool.pages, chain[..visited])
        invariant visited > 0 ==> last == chain[visited - 1]
        invariant NoDup(space) && forall p :: p in space ==> p in chain[..visited]
        invariant space == RoomyPages(pool.pages, chain[..visited])
        invariant pool.pins == old(pool.pins) && pool.pages == old(pool.pages)
        decreases |chain| - visited
      {
        VisitNext(pool.pages, chain, visited);
        var live, roomy, next := Visit(pool, current);
        visited := visited + 1;
        count := count + live;
        if roomy {
          space := space + [current];
        }
        last, current := current, next;
      }
      ChainEnd(pool.pages, chain, visited);
      this.pool := pool;
      this.firstPageId, lastPageId := firstPageId, last;
      recordCount, pageCount := count, visited;
      pagesWithSpace := space;
      this.chain := chain;
      drift := 0;
    }

    // -------------------------------------------------------------- pages

    method LinkPage(last: PageId, p: PageId)
      requires last in pool.pages && pool.Held() < pool.frames
      modifies pool`pages, pool`pins
      ensures pool.pins == old(pool.pins)
      ensures pool.pages == old(pool.pages)[last := old(pool.pages)[last].(next := p)]
    {
      var ok := pool.Fetch(last);
      pool.SetNextPageId(last, p);
      pool.Unpin(last);
      assert pool.pins == old(pool.pins);
    }

    /** Adds an empty page at the end of the chain. */
    method AllocateNewPage() returns (p: PageId)
      requires Valid() && |pool.pages| < INVALID_PAGE_ID && pool.Held() + 2 <= pool.frames
      modifies this, pool
      ensures Valid() && pool.pins == old(pool.pins) && |pool.pages| == old(|pool.pages|) + 1
      ensures p in chain && p in pool.pages && pool.pages[p].view == FORMATTED
      ensures Appended(old(Layout()), p, Layout())
      ensures Heap() == old(Heap())
      ensures recordCount == old(recordCount) && Grown(1)
    {
      hide AllSized, Linked, LiveTotal, Stored, HeldPages;
      LastIn(pool.pages, chain);
      p := AppendPage(lastPageId);
      AppendFinds(old(pool.pages), chain, lastPageId, p);
      lastPageId := p;
      pageCount := pageCount + 1;
      pagesWithSpace := pagesWithSpace + [p];
      chain := chain + [p];
    }

    /** Makes a page and links it behind the last one. */
    method AppendPage(last: PageId) returns (p: PageId)
      requires last in pool.pages && |pool.pages| < INVALID_PAGE_ID && pool.Held() + 2 <= pool.frames
      modifies pool
      ensures pool.pins == old(pool.pins) && p !in old(pool.pages) && p != INVALID_PAGE_ID
      ensures var mid := old(pool.pages)[p := DataPage(FORMATTED, INVALID_PAGE_ID)];
              pool.pages == mid[last := mid[last].(next := p)]
      ensures |pool.pages| == old(|pool.pages|) + 1
    {
      var r := pool.NewPage();
      p := r.value;
      LinkPage(last, p);
      pool.Unpin(p);
      assert pool.pins == old(pool.pins);
      assert pool.pages.Keys == old(pool.pages.Keys) + {p};
    }

    /** A page of the heap that says it has room, or a new one. */
    method FindPageWithSpace(length: U16) returns (p: PageId)
      requires Valid() && |pool.pages| < INVALID_PAGE_ID && pool.Held() + 2 <= pool.frames
      modifies this, pool
      ensures Valid() && pool.pins == old(pool.pins) && Grown(1)
      ensures p in chain && p in pool.pages && Found(old(Layout()), length, p, Layout())
      ensures HasRoom(pool.pages[p].view, length) || pool.pages[p].view == FORMATTED
      ensures Heap() == old(Heap())
      ensures recordCount == old(recordCount)
    {
      hide AllSized, Linked, LiveTotal, Stored, Appended;
      ghost var before, at := pagesWithSpace, 0;
      while pagesWithSpace != []
        invariant Valid() && pool.pins == old(pool.pins) && pool.pages == old(pool.pages)
        invariant recordCount == old(recordCount) && chain == old(chain)
        invariant at <= |before| && pagesWithSpace == before[at..]
        invariant forall k :: 0 <= k < at ==> !Roomy(pool.pages, before[k], length)
        decreases |pagesWithSpace|
        modifies this`pagesWithSpace, pool`pins
      {
        p := pagesWithSpace[0];
        InChain(pool.pages, chain, p);
        var fits := AskPage(p, length);
        if fits {
          assert FirstRoomy(old(Layout()), length, at);
          return;
        }
        // no longer enough room: the page leaves the directory
        pagesWithSpace := pagesWithSpace[1..];
        at := at + 1;
      }
      assert Layout() == old(Layout()).(directory := []);
      p := AllocateNewPage();
    }

    /** Fetches a page, asks it for room and releases it. */
    method AskPage(p: PageId, length: U16) returns (fits: bool)
      requires p in pool.pages && pool.Held() < pool.frames
      modifies pool`pins
      ensures pool.pins == old(pool.pins) && fits == HasRoom(pool.pages[p].view, length)
    {
      var ok := pool.Fetch(p);
      fits := HasRoom(pool.pages[p].view, length);
      pool.Unpin(p);
      assert pool.pins == old(pool.pins);
    }

    // -------------------------------------------------------------- records

    /** Inserts into a pinned page of the heap; the record is not counted yet. */
    method InsertInPage(p: PageId, data: Record) returns (slot: Option<U16>)
      requires Valid() && p in chain && p in pool.pages && p in pool.pins
      modifies pool`pages
      ensures slot.Some? <==> CanInsert(old(pool.pages)[p].view, data)
      ensures pool.pages.Keys == old(pool.pages.Keys)
      ensures pool.pages == WithView(old(pool.pages), p, Insert(old(pool.pages)[p].view, data))
      ensures slot.Some? ==> slot.value == FirstEmpty(old(pool.pages)[p].view.records)
      ensures slot.None? ==> Valid() && Heap() == old(Heap()) && pool.pages == old(pool.pages)
      ensures slot.Some? ==>
          Counted(drift + 1) && RID(p, slot.value) !in old(Heap()) && Heap() == old(Heap())[RID(p, slot.value) := data]
    {
      hide AllSized, Linked, LiveTotal, Stored;
      var v := pool.pages[p].view;
      if !CanInsert(v, data) {
        assert WithView(pool.pages, p, v) == pool.pages;
        return None;
      }
      InsertFinds(pool.pages, chain, p, data);
      slot := Some(FirstEmpty(v.records));
      pool.SetView(p, Insert(v, data));
    }

    /**
     Stores a record under a new RID.  Only empty records and those too large for any page
     are refused.
     */
    method InsertRecord(data: Record) returns (rid: Option<RID>)
      requires Valid() && |data| < 0x1_0000
      requires |pool.pages| + 1 < INVALID_PAGE_ID && pool.Held() + 2 <= pool.frames
      modifies this, pool
      ensures Valid() && pool.pins == old(pool.pins) && Grown(2)
      ensures rid.Some? <==> 1 <= |data| <= MAX_RECORD
      ensures rid.Some? ==> rid.value !in old(Heap()) && Heap() == old(Heap())[rid.value := data]
      ensures rid.None? ==> Heap() == old(Heap())
      ensures recordCount == old(recordCount) + if rid.Some? then 1 else 0
      ensures InsertDone(old(Layout()), data, rid, Layout())
    {
      hide AllSized, Linked, LiveTotal, Stored, Found, Appended, Noted, Stocked, HasRoom;
      if |data| == 0 {
        return None;
      }
      ghost var s := Layout();
      var target := FindPageWithSpace(|data|);
      ghost var p, mid := target, Layout();
      SizedAt(pool.pages, target);
      WhatFits(pool.pages[target].view, data);
      rid := InsertInto(target, data);
      if rid.None? {
        // full despite the directory: only for a record that is too large
        target := AllocateNewPage();
        SizedAt(pool.pages, target);
        WhatFits(pool.pages[target].view, data);
        ghost var end := Layout();
        rid := InsertInto(target, data);
        assert Appended(mid, target, end);
      }
      assert InsertedVia(s, data, rid, Layout(), p, mid);
    }

    /** One try on one page, with the bookkeeping if it succeeds. */
    method InsertInto(p: PageId, data: Record) returns (rid: Option<RID>)
      requires Valid() && p in chain && p in pool.pages && pool.Held() < pool.frames
      modifies this, pool
      ensures Valid() && pool.pins == old(pool.pins) && pool.pages.Keys == old(pool.pages.Keys) && chain == old(chain)
      ensures drift == old(drift) && Grown(0)
      ensures rid.Some? <==> CanInsert(old(pool.pages)[p].view, data)
      ensures rid.Some? ==> rid.value !in old(Heap()) && Heap() == old(Heap())[rid.value := data]
      ensures rid.None? ==> Heap() == old(Heap())
      ensures recordCount == old(recordCount) + if rid.Some? then 1 else 0
      ensures rid.Some? ==>
        TakenAt(old(Layout()), p, rid) && Layout() == Noted(Stocked(old(Layout()), p, data), p)
      ensures rid.None? ==> Layout() == old(Layout())
    {
      hide AllSized, Linked, LiveTotal, Stored, CanInsert, HasRoom, Insert, NoDup;
      var ok := pool.Fetch(p);
      var slot := InsertInPage(p, data);
      if slot.Some? {
        NoteSpace(p);
        recordCount := recordCount + 1;
        rid := Some(RID(p, slot.value));
      } else {
        rid := None;
      }
      pool.Unpin(p);
      assert pool.pins == old(pool.pins);
    }

    /** A page without room for 64 bytes leaves the directory. */
    method NoteSpace(p: PageId)
      requires p in pool.pages && NoDup(pagesWithSpace)
      modifies this`pagesWithSpace
      ensures NoDup(pagesWithSpace) && forall q :: q in pagesWithSpace ==> q in old(pagesWithSpace)
      ensures Layout() == Noted(old(Layout()), p)
    {
      if !HasRoom(pool.pages[p].view, 64) {
        WithoutNoDup(pagesWithSpace, p);
        pagesWithSpace := Without(pagesWithSpace, p);
      }
    }

    /** Removes the record under a RID of this heap, or reports that there is none. */
    method DeleteRecord(rid: RID) returns (deleted: bool)
      requires Valid() && pool.Held() < pool.frames
      // the RID is one of this heap, or its page does not exist at all
      requires rid.pageId in chain || rid.pageId !in pool.pages
      modifies this, pool
      ensures Valid() && pool.pins == old(pool.pins) && chain == old(chain) && pool.pages.Keys == old(pool.pages.Keys)
      ensures deleted == (rid in old(Heap())) && Heap() == old(Heap()) - {rid}
      ensures recordCount == old(recordCount) - (if deleted then 1 else 0) && drift == old(drift)
      ensures !deleted ==> Layout() == old(Layout())
      ensures deleted ==> rid.pageId in old(pool.pages) && Dropped(old(Layout()), rid, Layout())
    {
      hide AllSized, Linked, LiveTotal, Stored, HeldPages, NoDup;
      if rid.pageId == INVALID_PAGE_ID {
        NothingThere(rid);
        return false;
      }
      var ok := pool.Fetch(rid.pageId);
      if !ok {
        NothingThere(rid);
        return false;
      }
      deleted := DeletePinned(rid);
      pool.Unpin(rid.pageId);
      assert pool.pins == old(pool.pins);
    }

    /** No record is stored under a RID outside the chain. */
    lemma NothingThere(rid: RID)
      requires Valid() && (rid.pageId !in pool.pages || rid.pageId == INVALID_PAGE_ID)
      ensures rid.pageId !in chain && rid !in Heap() && Heap() - {rid} == Heap()
    {
      NotInChain(pool.pages, chain, rid.pageId);
      StoredInChain(pool.pages, chain, rid);
    }

    method DeletePinned(rid: RID) returns (deleted: bool)
      requires Valid() && rid.pageId in chain && rid.pageId in pool.pages && rid.pageId in pool.pins
      modifies this`recordCount, this`pagesWithSpace, pool`pages
      ensures Valid() && pool.pages.Keys == old(pool.pages.Keys)
      ensures deleted == (rid in old(Heap())) && Heap() == old(Heap()) - {rid}
      ensures recordCount == old(recordCount) - if deleted then 1 else 0
      ensures !deleted ==> Layout() == old(Layout())
      ensures deleted ==> Dropped(old(Layout()), rid, Layout())
    {
      hide AllSized, Linked, LiveTotal, Stored, Delete;
      deleted := DeleteInPage(rid);
      if deleted {
        NoteDeletion(rid.pageId);
      }
    }

    /** One record less, and a page that may have room again. */
    method NoteDeletion(p: PageId)
      requires Counted(drift - 1) && p in chain
      modifies this`recordCount, this`pagesWithSpace
      ensures Valid() && recordCount == old(recordCount) - 1
      ensures pagesWithSpace == old(pagesWithSpace) + if p in old(pagesWithSpace) then [] else [p]
    {
      recordCount := recordCount - 1;
      if p !in pagesWithSpace {
        pagesWithSpace := pagesWithSpace + [p];
      }
    }

    /** Deletes on a pinned page of the heap; the count still shows the record. */
    method DeleteInPage(rid: RID) returns (deleted: bool)
      requires Valid() && rid.pageId in chain && rid.pageId in pool.pages && rid.pageId in pool.pins
      modifies pool`pages
      ensures deleted == (rid in old(Heap())) && Heap() == old(Heap()) - {rid}
      ensures pool.pages == WithView(old(pool.pages), rid.pageId, Delete(old(pool.pages)[rid.pageId].view, rid.slotId))
      ensures Counted(if deleted then drift - 1 else drift) && (!deleted ==> pool.pages == old(pool.pages))
    {
      hide AllSized, Linked, LiveTotal;
      var v := pool.pages[rid.pageId].view;
      deleted := Get(v.records, rid.slotId).Some?;
      if !deleted {
        assert WithView(pool.pages, rid.pageId, v) == pool.pages;
        return;
      }
      DeleteFinds(pool.pages, chain, rid.pageId, rid.slotId);
      pool.SetView(rid.pageId, Delete(v, rid.slotId));
    }

    /** Returns the record under a RID; while the caller reads it, its page stays pinned. */
    method GetRecord(rid: RID) returns (data: Option<Record>)
      requires Valid() && pool.Held() < pool.frames
      modifies pool`pins
      ensures data == if rid.pageId == INVALID_PAGE_ID then None else Get(Records(pool.pages, rid.pageId), rid.slotId)
      // pages of other heaps are read as well
      ensures rid.pageId in chain || rid.pageId !in pool.pages ==>
        data == if rid in Heap() then Some(Heap()[rid]) else None
      ensures pool.pins == if data.Some? then old(pool.pins) + multiset{rid.pageId} else old(pool.pins)
    {
      if rid.pageId == INVALID_PAGE_ID {
        NotInChain(pool.pages, chain, rid.pageId);
        return None;
      }
      var ok := pool.Fetch(rid.pageId);
      if !ok {
        NotInChain(pool.pages, chain, rid.pageId);
        return None;
      }
      data := Get(pool.pages[rid.pageId].view.records, rid.slotId);
      if data.None? {
        pool.Unpin(rid.pageId);
        assert pool.pins == old(pool.pins);
      }
    }

    /**
     Replaces a record, in its slot if the page can hold the new version and else under a
     new RID.  The old version is deleted first, so a new one that no page takes leaves neither.
     A RID without a record gets the data stored under another RID, and the count wrong.
     */
    method UpdateRecord(rid: RID, data: Record) returns (now: Option<RID>)
      requires Valid() && |data| < 0x1_0000 && (rid.pageId in chain || rid.pageId !in pool.pages)
      // never so for a record that no page takes, nor for one that is not there
      requires rid.pageId in pool.pages ==> !Overruns(pool.pages[rid.pageId].view, rid.slotId, |data|)
      requires |pool.pages| + 1 < INVALID_PAGE_ID && pool.Held() + 2 <= pool.frames
      modifies this, pool
      ensures Valid() && pool.pins == old(pool.pins)
      ensures old(|pool.pages|) <= |pool.pages| <= old(|pool.pages|) + 2 && old(chain) <= chain
      ensures old(Owns()) ==> Owns()
      ensures rid.pageId !in old(chain) ==>
        now.None? && Heap() == old(Heap()) && recordCount == old(recordCount) && drift == old(drift)
      ensures rid.pageId in old(chain) ==> UpdateDone(old(pool.pages), old(Heap()), Heap(), rid, data, now)
      ensures rid in old(Heap()) ==> (now.Some? <==> |data| <= MAX_RECORD)
      ensures rid in old(Heap()) ==>
        drift == old(drift) && recordCount == old(recordCount) - if now.Some? then 0 else 1
      ensures rid.pageId in old(chain) && rid !in old(Heap()) ==>
        drift == old(drift) + 1 && recordCount == old(recordCount) - if now.Some? then 0 else 1
      ensures rid.pageId !in old(pool.pages) || rid.pageId == INVALID_PAGE_ID ==> Layout() == old(Layout())
      ensures rid.pageId in old(chain) ==>
        rid.pageId in old(pool.pages) && ReplaceDone(old(Layout()), rid, data, now, Layout())
    {
      hide AllSized, Linked, LiveTotal, Stored, Overruns, UpdateDone, HeldPages, NoDup, InsertDone;
      if rid.pageId == INVALID_PAGE_ID {
        NothingThere(rid);
        return None;
      }
      var ok := pool.Fetch(rid.pageId);
      if !ok {
        NothingThere(rid);
        return None;
      }
      now := UpdatePinned(rid, data, old(pool.pins));
    }

    /** The update proper, on a page that is pinned once more for it. */
    method UpdatePinned(rid: RID, data: Record, ghost base: multiset<PageId>) returns (now: Option<RID>)
      requires Valid() && |data| < 0x1_0000 && rid.pageId in chain && rid.pageId in pool.pages
      requires !Overruns(pool.pages[rid.pageId].view, rid.slotId, |data|)
      requires |pool.pages| + 1 < INVALID_PAGE_ID
      requires pool.pins == base + multiset{rid.pageId} && |HeldPages(base)| + 2 <= pool.frames
      modifies this, pool
      ensures Valid() && pool.pins == base
      ensures old(|pool.pages|) <= |pool.pages| <= old(|pool.pages|) + 2 && old(chain) <= chain
      ensures old(Owns()) ==> Owns()
      ensures UpdateDone(old(pool.pages), old(Heap()), Heap(), rid, data, now)
      ensures rid in old(Heap()) ==> (now.Some? <==> |data| <= MAX_RECORD)
      ensures drift == old(drift) + if rid in old(Heap()) then 0 else 1
      ensures recordCount == old(recordCount) - if now.Some? then 0 else 1
      ensures ReplaceDone(old(Layout()), rid, data, now, Layout())
    {
      hide AllSized, Linked, LiveTotal, Stored, CanUpdate, Overruns, UpdateDone, NoDup, InsertDone, Update, Delete;
      ghost var pages, heap := pool.pages, Heap();
      StoredInChain(pool.pages, chain, rid);
      if rid in Heap() {
        SizedAt(pool.pages, rid.pageId);
        OverlongNeverFits(pool.pages[rid.pageId].view, rid.slotId, |data|);
      }
      var ok := UpdateInPage(rid, data);
      if ok {
        pool.Unpin(rid.pageId);
        assert pool.pins == base;
        DoneInPlace(pages, heap, rid, data);
        return Some(rid);
      }
      DropPinned(rid);
      assert pool.pins == base;
      now := InsertRecord(data);
      DoneElsewhere(pages, heap, Heap(), rid, data, now);
    }

    /** Removes the record, if there is one, and its pin; the count goes down in any case. */
    method DropPinned(rid: RID)
      requires Valid() && rid.pageId in chain && rid.pageId in pool.pages && rid.pageId in pool.pins
      modifies this`recordCount, this`drift, pool`pages, pool`pins
      ensures Valid() && Heap() == old(Heap()) - {rid} && recordCount == old(recordCount) - 1
      ensures drift == old(drift) + if rid in old(Heap()) then 0 else 1
      ensures pool.pins == old(pool.pins) - multiset{rid.pageId} && pool.pages.Keys == old(pool.pages.Keys)
      ensures pool.pages == WithView(old(pool.pages), rid.pageId, Delete(old(pool.pages)[rid.pageId].view, rid.slotId))
    {
      hide AllSized, Linked, LiveTotal, Stored, Delete;
      var deleted := DeleteInPage(rid);
      recordCount := recordCount - 1;
      drift := drift + if deleted then 0 else 1;
      pool.Unpin(rid.pageId);
    }

    /** Updates on a pinned page of the heap, if the page can hold the new version. */
    method UpdateInPage(rid: RID, data: Record) returns (ok: bool)
      requires Valid() && rid.pageId in chain && rid.pageId in pool.pages && rid.pageId in pool.pins
      requires !Overruns(pool.pages[rid.pageId].view, rid.slotId, |data|)
      modifies pool`pages
      ensures Valid() && ok == CanUpdate(old(pool.pages)[rid.pageId].view, rid.slotId, |data|)
      ensures (ok ==> rid in old(Heap())) && Heap() == if ok then old(Heap())[rid := data] else old(Heap())
      ensures pool.pages.Keys == old(pool.pages.Keys) && (!ok ==> pool.pages == old(pool.pages))
      ensures ok ==>
        pool.pages == WithView(old(pool.pages), rid.pageId, Update(old(pool.pages)[rid.pageId].view, rid.slotId, data))
    {
      hide AllSized, Linked, LiveTotal, Stored, Overruns;
      var v := pool.pages[rid.pageId].view;
      ok := CanUpdate(v, rid.slotId, |data|);
      if ok {
        StoredInChain(pool.pages, chain, rid);
        UpdateFinds(pool.pages, chain, rid.pageId, rid.slotId, data);
        pool.SetView(rid.pageId, Update(v, rid.slotId, data));
      }
    }

    // -------------------------------------------------------------- scanning

    method Begin() returns (it: HeapFileIterator)
      requires Valid() && pool.Held() < pool.frames
      modifies pool`pins
      ensures Valid() && it.Valid() && fresh(it) && FewSlots(pool.pages) && it.Rest() == Rows(pool.pages, chain)
      ensures it.pool == pool && it.chain == chain && it.base == old(pool.pins)
    {
      it := new HeapFileIterator(pool, firstPageId, chain);
    }

    /**
     A full scan meets every stored record exactly once, page after page along the chain, and
     leaves no page pinned.
     */
    method Scan() returns (rows: seq<Row>)
      requires Valid() && pool.Held() < pool.frames
      modifies pool`pins
      ensures FewSlots(pool.pages) && rows == Rows(pool.pages, chain)
      ensures |rows| == recordCount + drift && pool.pins == old(pool.pins)
      ensures forall row :: row in rows <==> row.rid in Heap() && Heap()[row.rid] == row.data
      ensures forall a, b :: 0 <= a < b < |rows| ==> rows[a].rid != rows[b].rid
    {
      var it := Begin();
      rows := Drain(it);
      ScanMeetsAll();
    }

    lemma ScanMeetsAll()
      requires Valid()
      ensures FewSlots(pool.pages)
      ensures var rows := Rows(pool.pages, chain);
              && |rows| == recordCount + drift
              && (forall row :: row in rows <==> row.rid in Heap() && Heap()[row.rid] == row.data)
              && forall a, b :: 0 <= a < b < |rows| ==> rows[a].rid != rows[b].rid
    {
      SizedFew(pool.pages);
      NoDupChain(pool.pages, chain);
      RowsAre(pool.pages, chain);
    }

    static method Drain(it: HeapFileIterator) returns (rows: seq<Row>)
      requires it.Valid()
      modifies it, it.pool`pins
      ensures rows == old(it.Rest()) && it.pool.pins == it.base
    {
      hide Linked, AllSized, HeldPages, RowsFrom, Rows, FewSlots, Find, Get, Records, NoDup;
      rows := [];
      ghost var all, rest := it.Rest(), it.Rest();
      while it.valid
        invariant it.Valid() && rest == it.Rest() && rows + rest == all
        decreases |rest|
      {
        var row := it.GetRecord();
        it.Next();
        assert rows + rest == (rows + [row]) + rest[1..];
        rows, rest := rows + [row], rest[1..];
      }
    }

    // -------------------------------------------------------------- bulk insertion

    /** One record of a batch, on the pinned page if it fits and else on another page that is pinned instead. */
    method BulkStep(current: PageId, data: Record, ghost base: multiset<PageId>) returns (next: PageId,
                    rid: Option<RID>)
      requires Valid() && current in chain && current in pool.pages && |data| < 0x1_0000
      requires pool.pins == base + multiset{current} && |HeldPages(base)| + 2 <= pool.frames
      requires |pool.pages| < INVALID_PAGE_ID
      modifies this, pool
      ensures Valid() && next in chain && next in pool.pages && pool.pins == base + multiset{next}
      ensures Grown(1)
      ensures rid.Some? <==> 1 <= |data| <= MAX_RECORD
      ensures rid.Some? ==> rid.value !in old(Heap()) && Heap() == old(Heap())[rid.value := data]
      ensures rid.None? ==> Heap() == old(Heap())
      ensures recordCount == old(recordCount) + if rid.Some? then 1 else 0
      ensures BatchStep(old(Layout()), current, data, rid, Layout(), next)
    {
      hide AllSized, Linked, LiveTotal, Stored, CanInsert, HasRoom, NoDup, WithView, Insert;
      SizedAt(pool.pages, current);
      WhatFits(pool.pages[current].view, data);
      var slot := InsertInPage(current, data);
      if slot.Some? {
        recordCount := recordCount + 1;
        return current, Some(RID(current, slot.value));
      }
      next, rid := BulkElsewhere(current, data, base);
    }

    /** The page is full: it leaves the directory, and another page takes its place. */
    method BulkElsewhere(current: PageId, data: Record, ghost base: multiset<PageId>)
      returns (next: PageId, rid: Option<RID>)
      requires Valid() && |data| < 0x1_0000 && current in pool.pages
      requires pool.pins == base + multiset{current} && |HeldPages(base)| + 2 <= pool.frames
      requires |pool.pages| < INVALID_PAGE_ID
      modifies this, pool
      ensures Valid() && next in chain && next in pool.pages && pool.pins == base + multiset{next}
      ensures Grown(1)
      ensures rid.Some? <==> 1 <= |data| <= MAX_RECORD
      ensures rid.Some? ==> rid.value !in old(Heap()) && Heap() == old(Heap())[rid.value := data]
      ensures rid.None? ==> Heap() == old(Heap())
      ensures recordCount == old(recordCount) + if rid.Some? then 1 else 0
      ensures !CanInsert(old(pool.pages)[current].view, data) ==>
        BatchStep(old(Layout()), current, data, rid, Layout(), next)
    {
      hide AllSized, Linked, LiveTotal, Stored, CanInsert, HasRoom, NoDup, Found, Stocked, TakenAt, HeldPages;
      ghost var s := Layout();
      ForgetPage(current);
      assert pool.pins == base;
      assert Layout() == s.(directory := Without(s.directory, current));
      next := FindPageWithSpace(|data|);
      ghost var mid := Layout();
      rid := PinAndInsert(next, data);
      assert MovedOn(s, current, data, rid, Layout(), next, mid);
    }

    /** Pins a page that was found for the record, and stores it there. */
    method PinAndInsert(p: PageId, data: Record) returns (rid: Option<RID>)
      requires Valid() && p in chain && p in pool.pages && |data| < 0x1_0000 && pool.Held() < pool.frames
      requires HasRoom(pool.pages[p].view, |data|) || pool.pages[p].view == FORMATTED
      modifies this`recordCount, pool
      ensures Valid() && pool.pins == old(pool.pins) + multiset{p} && Grown(0)
      ensures pool.pages.Keys == old(pool.pages.Keys)
      ensures rid.Some? <==> CanInsert(old(pool.pages)[p].view, data)
      ensures rid.Some? <==> 1 <= |data| <= MAX_RECORD
      ensures rid.Some? ==> rid.value !in old(Heap()) && Heap() == old(Heap())[rid.value := data]
      ensures rid.None? ==> Heap() == old(Heap())
      ensures recordCount == old(recordCount) + if rid.Some? then 1 else 0
      ensures rid.Some? ==> TakenAt(old(Layout()), p, rid) && Layout() == Stocked(old(Layout()), p, data)
      ensures rid.None? ==> Layout() == old(Layout())
    {
      hide AllSized, Linked, LiveTotal, Stored, CanInsert, HasRoom, NoDup, WithView, Insert;
      SizedAt(pool.pages, p);
      WhatFits(pool.pages[p].view, data);
      var ok := pool.Fetch(p);
      var slot := InsertInPage(p, data);
      rid := None;
      if slot.Some? {
        recordCount := recordCount + 1;
        rid := Some(RID(p, slot.value));
      }
    }

    /** Releases a page and takes it out of the directory. */
    method ForgetPage(p: PageId)
      requires Valid() && p in pool.pins
      modifies this`pagesWithSpace, pool`pins
      ensures Valid() && Heap() == old(Heap()) && pool.pins == old(pool.pins) - multiset{p}
      ensures pagesWithSpace == Without(old(pagesWithSpace), p)
    {
      hide AllSized, Linked, LiveTotal, Stored;
      pool.Unpin(p);
      WithoutNoDup(pagesWithSpace, p);
      pagesWithSpace := Without(pagesWithSpace, p);
    }

    /** Each record gets its own new RID, except empty ones and those too large for any page. */
    method BulkInsert(records: seq<Record>) returns (rids: seq<Option<RID>>, ghost stages: seq<Stage>)
      requires Valid() && forall i :: 0 <= i < |records| ==> |records[i]| < 0x1_0000
      requires |pool.pages| + |records| < INVALID_PAGE_ID && pool.Held() + 2 <= pool.frames
      modifies this, pool
      ensures Valid() && pool.pins == old(pool.pins) && |rids| == |records| && Grown(|records| + 1)
      ensures forall i :: 0 <= i < |rids| ==> (rids[i].Some? <==> 1 <= |records[i]| <= MAX_RECORD)
      ensures Heap() == AddAll(old(Heap()), rids, records) && AllNew(old(Heap()), rids, records)
      ensures BatchDone(old(Layout()), records, rids, stages, Layout())
    {
      hide AllSized, Linked, LiveTotal, Stored, HasRoom, AddAll, AllNew, HeldPages, Counted, Found, StageDone, Noted;
      hide BatchStep, CanInsert, NoDup;
      var current := StartBatch();
      ghost var base, heap := old(pool.pins), old(Heap());
      rids, stages := [], [Stage(Layout(), current)];
      AddNone(heap);
      ghost var done: seq<Record> := [];
      ghost var first := stages[0];
      for i := 0 to |records|
        invariant |rids| == i && done == records[..i] && Valid() && current in chain && current in pool.pages
        invariant pool.pins == base + multiset{current} && Grown(i + 1)
        invariant forall k :: 0 <= k < i ==> (rids[k].Some? <==> 1 <= |records[k]| <= MAX_RECORD)
        invariant Heap() == AddAll(heap, rids, done) && AllNew(heap, rids, done)
        invariant |stages| == i + 1 && stages[i] == Stage(Layout(), current) && stages[0] == first
        invariant forall k :: 0 <= k < i ==> StageDone(stages[k], records[k], rids[k], stages[k + 1])
      {
        var rid;
        current, rid := BulkStep(current, records[i], base);
        AddAllNext(heap, rids, rid, done, records[i]);
        StageTaken(stages[i], records[i], rid, Stage(Layout(), current));
        rids, done, stages := rids + [rid], done + [records[i]], stages + [Stage(Layout(), current)];
      }
      assert done == records;
      EndBatch(current, base);
    }

    /** Pins a page that has space for 64 bytes. */
    method StartBatch() returns (current: PageId)
      requires Valid() && |pool.pages| < INVALID_PAGE_ID && pool.Held() + 2 <= pool.frames
      modifies this, pool
      ensures Valid() && Heap() == old(Heap()) && current in chain && current in pool.pages
      ensures pool.pins == old(pool.pins) + multiset{current} && Grown(1)
      ensures recordCount == old(recordCount) && Found(old(Layout()), LEAST_ROOM, current, Layout())
    {
      hide AllSized, Linked, LiveTotal, Stored, HasRoom;
      current := FindPageWithSpace(64);
      var ok := pool.Fetch(current);
    }

    method EndBatch(current: PageId, ghost base: multiset<PageId>)
      requires Valid() && current in pool.pages && pool.pins == base + multiset{current}
      modifies this`pagesWithSpace, pool`pins
      ensures Valid() && Heap() == old(Heap()) && pool.pins == base && Layout() == Noted(old(Layout()), current)
    {
      hide AllSized, Linked, LiveTotal, Stored, HasRoom;
      NoteSpace(current);
      pool.Unpin(current);
      assert pool.pins == base;
    }
  }

  lemma StageTaken(a: Stage, data: Record, rid: Option<RID>, b: Stage)
    requires |data| < 0x1_0000 && BatchStep(a.space, a.current, data, rid, b.space, b.current)
    ensures StageDone(a, data, rid, b)
  {
  }

  /** The heap after a batch: one insert after the other. */
  ghost function AddAll(heap: imap<RID, Record>, rids: seq<Option<RID>>, records: seq<Record>): imap<RID, Record>
    requires |rids| == |records|
  {
    if rids == [] then heap
    else
      var n := |rids| - 1;
      var before := AddAll(heap, rids[..n], records[..n]);
      if rids[n].Some? then before[rids[n].value := records[n]] else before
  }

  lemma {:induction false} AddNone(heap: imap<RID, Record>)
    ensures AddAll(heap, [], []) == heap && AllNew(heap, [], [])
  {
  }

  lemma {:induction false} AddAllNext(heap: imap<RID, Record>, rids: seq<Option<RID>>, rid: Option<RID>,
                                      records: seq<Record>, data: Record)
    requires |rids| == |records|
    ensures var before := AddAll(heap, rids, records);
            && AddAll(heap, rids + [rid], records + [data]) == (if rid.Some? then before[rid.value := data] else before)
            && (AllNew(heap, rids, records) && (rid.Some? ==> rid.value !in before) ==>
                  AllNew(heap, rids + [rid], records + [data]))
  {
  }

  /** Each RID was free when its record was inserted. */
  ghost predicate AllNew(heap: imap<RID, Record>, rids: seq<Option<RID>>, records: seq<Record>)
    requires |rids| == |records|
  {
    rids != [] ==>
      var n := |rids| - 1;
      && AllNew(heap, rids[..n], records[..n])
      && (rids[n].Some? ==> rids[n].value !in AddAll(heap, rids[..n], records[..n]))
  }

  lemma {:induction false} OneEmptyPage(pages: DataPages, p: PageId)
    requires AllSized(pages) && p != INVALID_PAGE_ID
    ensures var pages' := pages[p := DataPage(FORMATTED, INVALID_PAGE_ID)];
      AllSized(pages') && Linked(pages', [p]) && LiveTotal(pages', [p]) == 0 && Stored(pages', [p]) == imap[]
  {
    var pages' := pages[p := DataPage(FORMATTED, INVALID_PAGE_ID)];
    assert LinkedAt(pages', [p], 0);
    assert Records(pages', p) == [] && [p][1..] == [];
  }

  lemma LastIn(pages: DataPages, chain: seq<PageId>)
    requires Linked(pages, chain)
    ensures chain != [] && chain[|chain| - 1] in pages
  {
    InChain(pages, chain, chain[|chain| - 1]);
  }

  lemma StoredInChain(pages: DataPages, chain: seq<PageId>, r: RID)
    ensures r in Stored(pages, chain) <==> Find(pages, chain, r).Some?
    ensures r in Stored(pages, chain) ==> r.pageId in chain && Stored(pages, chain)[r] == Find(pages, chain, r).value
  {
  }

  /** What an update leaves behind: the new version in place, or under another RID, or neither version. */
  ghost predicate UpdateDone(pages: DataPages, heap: imap<RID, Record>, heap': imap<RID, Record>, rid: RID,
                             data: Record, now: Option<RID>)
  {
    var inPlace := rid.pageId in pages && CanUpdate(pages[rid.pageId].view, rid.slotId, |data|);
    && (now.Some? <==> inPlace || 1 <= |data| <= MAX_RECORD)
    && (inPlace ==> now == Some(rid))
    && (now.Some? && !inPlace ==> now.value !in heap - {rid})
    && heap' == if now.Some? then (heap - {rid})[now.value := data] else heap - {rid}
  }

  lemma DoneInPlace(pages: DataPages, heap: imap<RID, Record>, rid: RID, data: Record)
    requires rid.pageId in pages && CanUpdate(pages[rid.pageId].view, rid.slotId, |data|)
    ensures UpdateDone(pages, heap, heap[rid := data], rid, data, Some(rid))
  {
    assert heap[rid := data] == (heap - {rid})[rid := data];
  }

  lemma DoneElsewhere(pages: DataPages, heap: imap<RID, Record>, heap': imap<RID, Record>, rid: RID, data: Record,
                      now: Option<RID>)
    requires rid.pageId in pages && !CanUpdate(pages[rid.pageId].view, rid.slotId, |data|)
    requires now.Some? <==> 1 <= |data| <= MAX_RECORD
    requires now.Some? ==> now.value !in heap - {rid} && heap' == (heap - {rid})[now.value := data]
    requires now.None? ==> heap' == heap - {rid}
    ensures UpdateDone(pages, heap, heap', rid, data, now)
  {
  }

  lemma NotInChain(pages: DataPages, chain: seq<PageId>, p: PageId)
    requires Linked(pages, chain) && (p !in pages || p == INVALID_PAGE_ID)
    ensures p !in chain
  {
    if p in chain {
      InChain(pages, chain, p);
    }
  }

  // ---------------------------------------------------------------- scanning

  lemma {:induction false} FirstRows(pages: DataPages, chain: seq<PageId>)
    requires FewSlots(pages) && chain != []
    ensures RowsFrom(pages, chain, 0, 0) == Rows(pages, chain)
  {
  }

  lemma RowsLive(pages: DataPages, chain: seq<PageId>, at: nat, s: nat)
    requires FewSlots(pages) && at < |chain| && Get(Records(pages, chain[at]), s).Some?
    ensures RowsFrom(pages, chain, at, s) ==
            [Row(RID(chain[at], s), Get(Records(pages, chain[at]), s).value)] + RowsFrom(pages, chain, at, s + 1)
  {
  }

  lemma RowsSkip(pages: DataPages, chain: seq<PageId>, at: nat, s: nat)
    requires FewSlots(pages) && at < |chain| && s < |Records(pages, chain[at])| && Records(pages, chain[at])[s].None?
    ensures RowsFrom(pages, chain, at, s) == RowsFrom(pages, chain, at, s + 1)
  {
  }

  /** Behind the last slot of a page come the rows of the next page. */
  lemma RowsNextPage(pages: DataPages, chain: seq<PageId>, at: nat, s: nat)
    requires FewSlots(pages) && Linked(pages, chain) && at < |chain| && s >= |Records(pages, chain[at])|
    ensures chain[at] in pages && pages[chain[at]].next == PageAt(chain, at + 1)
    ensures PageAt(chain, at + 1) == INVALID_PAGE_ID <==> at + 1 == |chain|
    ensures RowsFrom(pages, chain, at, s) == if at + 1 < |chain| then RowsFrom(pages, chain, at + 1, 0) else []
  {
    assert LinkedAt(pages, chain, at);
    if at + 1 < |chain| {
      assert LinkedAt(pages, chain, at + 1);
      assert chain[at + 1..][1..] == chain[at + 2..];
    }
  }

  /** A cursor over all records; it holds a pin on the page it stands on. */
  class HeapFileIterator {
    const pool: DataPool
    var currentPageId: PageId
    var currentSlot: nat
    var valid: bool
    ghost const chain: seq<PageId>
    ghost var at: nat
    ghost const base: multiset<PageId>

    /** The chain is in order, and the only pin beyond the others is on the page the cursor stands on. */
    ghost predicate Valid()
      reads this, pool
    {
      && Linked(pool.pages, chain) && AllSized(pool.pages) && |HeldPages(base)| < pool.frames
      && if valid then
           && at < |chain| && currentPageId == chain[at] && pool.pins == base + multiset{currentPageId}
           && Get(Records(pool.pages, currentPageId), currentSlot).Some?
         else pool.pins == base
    }

    /** The rows still to come, the current one first. */
    ghost function Rest(): (rows: seq<Row>)
      requires Valid()
      reads this, pool
      ensures valid <==> rows != []
    {
      SizedFew(pool.pages);
      if valid then
        RowsLive(pool.pages, chain, at, currentSlot);
        RowsFrom(pool.pages, chain, at, currentSlot)
      else []
    }

    constructor (pool: DataPool, firstPageId: PageId, ghost chain: seq<PageId>)
      requires Linked(pool.pages, chain) && AllSized(pool.pages) && firstPageId == chain[0]
      requires pool.Held() < pool.frames
      modifies pool`pins
      ensures Valid() && FewSlots(pool.pages) && Rest() == Rows(pool.pages, chain)
      ensures this.pool == pool && this.chain == chain && base == old(pool.pins)
    {
      this.pool := pool;
      this.chain := chain;
      base := pool.pins;
      currentPageId := firstPageId;
      currentSlot, at, valid := 0, 0, false;
      new;
      hide Linked, AllSized, HeldPages, Rows, RowsFrom;
      SizedFew(pool.pages);
      NoDupChain(pool.pages, chain);
      FirstRows(pool.pages, chain);
      InChain(pool.pages, chain, currentPageId);
      var ok := pool.Fetch(currentPageId);
      if Get(Records(pool.pages, currentPageId), 0).Some? {
        valid := true;
      } else {
        AdvanceToNextRecord();
      }
    }

    /** The row under the cursor. */
    method GetRecord() returns (row: Row)
      requires Valid() && valid
      ensures Rest() != [] && row == Rest()[0]
    {
      SizedFew(pool.pages);
      RowsLive(pool.pages, chain, at, currentSlot);
      row := Row(RID(currentPageId, currentSlot), pool.pages[currentPageId].view.records[currentSlot].value);
    }

    method Next()
      requires Valid()
      modifies this`currentPageId, this`currentSlot, this`valid, this`at, pool`pins
      ensures Valid() && Rest() == if old(valid) then old(Rest())[1..] else []
    {
      if !valid {
        return;
      }
      hide Linked, AllSized, HeldPages, RowsFrom;
      SizedFew(pool.pages);
      RowsLive(pool.pages, chain, at, currentSlot);
      assert Rest()[1..] == RowsFrom(pool.pages, chain, at, currentSlot + 1);
      AdvanceToNextRecord();
    }

    /** The first live slot of the current page from the given one on. */
    method SkipEmpty(from: nat) returns (slot: nat)
      requires AllSized(pool.pages) && at < |chain| && currentPageId == chain[at] && currentPageId in pool.pages
      ensures FewSlots(pool.pages)
      ensures RowsFrom(pool.pages, chain, at, slot) == RowsFrom(pool.pages, chain, at, from)
      ensures Get(Records(pool.pages, currentPageId), slot).Some? || slot >= |Records(pool.pages, currentPageId)|
    {
      hide RowsFrom;
      SizedFew(pool.pages);
      slot := from;
      while slot < |pool.pages[currentPageId].view.records| && pool.pages[currentPageId].view.records[slot].None?
        invariant RowsFrom(pool.pages, chain, at, slot) == RowsFrom(pool.pages, chain, at, from)
        decreases |pool.pages[currentPageId].view.records| - slot
      {
        RowsSkip(pool.pages, chain, at, slot);
        slot := slot + 1;
      }
    }

    method EnterPage(next: PageId)
      requires Linked(pool.pages, chain) && at + 1 < |chain| && next == chain[at + 1]
      requires pool.pins == base && |HeldPages(base)| < pool.frames
      modifies this`currentPageId, this`at, pool`pins
      ensures currentPageId == next && currentPageId in pool.pages && at == old(at) + 1
      ensures pool.pins == base + multiset{next}
    {
      hide Linked, HeldPages;
      InChain(pool.pages, chain, next);
      var ok := pool.Fetch(next);
      currentPageId, at := next, at + 1;
    }

    /** Releases a page that has been read to its end and pins the next one, if there is one. */
    method LeavePage(ghost slot: nat) returns (more: bool)
      requires Linked(pool.pages, chain) && FewSlots(pool.pages) && |HeldPages(base)| < pool.frames
      requires at < |chain| && currentPageId == chain[at] && currentPageId in pool.pages
      requires slot >= |Records(pool.pages, currentPageId)| && pool.pins == base + multiset{currentPageId}
      modifies this`currentPageId, this`at, pool`pins
      ensures more ==>
        && at == old(at) + 1 < |chain| && currentPageId == chain[at] && currentPageId in pool.pages
        && pool.pins == base + multiset{currentPageId}
        && RowsFrom(pool.pages, chain, at, 0) == old(RowsFrom(pool.pages, chain, at, slot))
      ensures !more ==> pool.pins == base && old(RowsFrom(pool.pages, chain, at, slot)) == []
    {
      hide Linked, FewSlots, HeldPages, RowsFrom;
      RowsNextPage(pool.pages, chain, at, slot);
      var next := pool.pages[currentPageId].next;
      pool.Unpin(currentPageId);
      assert pool.pins == base;
      more := next != INVALID_PAGE_ID;
      if more {
        EnterPage(next);
      }
    }

    /** Moves to the next live record on this page or a later one, or releases the last page and ends. */
    method AdvanceToNextRecord()
      requires Linked(pool.pages, chain) && AllSized(pool.pages) && FewSlots(pool.pages)
      requires |HeldPages(base)| < pool.frames
      requires at < |chain| && currentPageId == chain[at] && pool.pins == base + multiset{currentPageId}
      modifies this`currentPageId, this`currentSlot, this`valid, this`at, pool`pins
      ensures Valid() && Rest() == old(RowsFrom(pool.pages, chain, at, currentSlot + 1))
    {
      hide Linked, AllSized, HeldPages, RowsFrom;
      ghost var goal := RowsFrom(pool.pages, chain, at, currentSlot + 1);
      InChain(pool.pages, chain, currentPageId);
      var slot: nat;
      slot := SkipEmpty(currentSlot + 1);
      while slot >= |pool.pages[currentPageId].view.records|
        invariant at < |chain| && currentPageId == chain[at] && currentPageId in pool.pages
        invariant pool.pins == base + multiset{currentPageId}
        invariant RowsFrom(pool.pages, chain, at, slot) == goal
        invariant Get(Records(pool.pages, currentPageId), slot).Some? || slot >= |Records(pool.pages, currentPageId)|
        decreases |chain| - at
      {
        var more := LeavePage(slot);
        if !more {
          valid := false;
          return;
        }
        slot := SkipEmpty(0);
      }
      currentSlot := slot;
      valid := true;
    }
  }

  function PageAt(chain: seq<PageId>, i: nat): PageId {
    if i < |chain| then chain[i] else INVALID_PAGE_ID
  }

  lemma {:induction false} VisitNext(pages: DataPages, chain: seq<PageId>, i: nat)
    requires Linked(pages, chain) && i <= |chain| && PageAt(chain, i) != INVALID_PAGE_ID
    ensures i < |chain| && chain[i] in pages && chain[i] !in chain[..i] && pages[chain[i]].next == PageAt(chain, i + 1)
    ensures LiveTotal(pages, chain[..i + 1]) == LiveTotal(pages, chain[..i]) + LiveCount(pages[chain[i]].view.records)
    ensures chain[..i + 1] == chain[..i] + [chain[i]]
  {
    assert LinkedAt(pages, chain, i);
    assert chain[..i + 1] == chain[..i] + [chain[i]];
    LiveTotalAppend(pages, chain[..i], chain[i]);
  }

  lemma ChainEnd(pages: DataPages, chain: seq<PageId>, i: nat)
    requires Linked(pages, chain) && i <= |chain| && PageAt(chain, i) == INVALID_PAGE_ID
    ensures i == |chain| && chain[..i] == chain
  {
    assert i < |chain| ==> LinkedAt(pages, chain, i);
  }

  lemma InChain(pages: DataPages, chain: seq<PageId>, p: PageId)
    requires Linked(pages, chain) && p in chain
    ensures p in pages && p != INVALID_PAGE_ID
  {
    var i :| 0 <= i < |chain| && chain[i] == p;
    assert LinkedAt(pages, chain, i);
  }

  lemma FreshIdExists(pages: DataPages)
    requires |pages| < INVALID_PAGE_ID
    ensures exists p: PageId :: p !in pages && p != INVALID_PAGE_ID
  {
    var n := INVALID_PAGE_ID;
    if forall p: PageId :: p in pages || p == n {
      var ids := Below(n);
      forall x | x in ids ensures x in pages.Keys {
        var p: PageId := x;
        assert p in pages;
      }
      SubsetCount(ids, pages.Keys);
    }
  }
}

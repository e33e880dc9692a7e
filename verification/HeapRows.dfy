/** A heap of records: data pages linked into a chain, and the rows a scan of them meets. */
module HeapRows {
  import opened Base
  import opened SlotMap
  import opened BTreeLevels

  datatype DataPage = DataPage(view: PageView, next: PageId)
  type DataPages = map<PageId, DataPage>

  datatype Row = Row(rid: RID, data: Record)

  /** The largest record a freshly formatted page takes. */
  const MAX_RECORD := PAGE_SIZE - HEADER_SIZE - SLOT_ENTRY_SIZE

  /** The slot directory, the records and the free space fit in the page. */
  predicate Sized(v: PageView) {
    v.free <= CompactFree(v.records)
  }

  lemma SizedKept(v: PageView, data: Record, s: nat)
    requires Sized(v)
    ensures Sized(Insert(v, data)) && Sized(Delete(v, s))
    ensures !Overruns(v, s, |data|) ==> Sized(Update(v, s, data))
  {
    hide TotalLength, FirstEmpty;
    var free := FirstEmpty(v.records);
    if free < |v.records| {
      TotalLengthSet(v.records, free, Some(data));
    } else {
      TotalLengthAppend(v.records, Some(data));
    }
    if s < |v.records| {
      TotalLengthSet(v.records, s, None);
      TotalLengthSet(v.records, s, Some(data));
    }
  }

  // ---------------------------------------------------------------- the chain

  predicate LinkedAt(pages: DataPages, chain: seq<PageId>, i: nat)
    requires i < |chain|
  {
    && chain[i] in pages && chain[i] != INVALID_PAGE_ID && Sized(pages[chain[i]].view)
    && pages[chain[i]].next == if i + 1 < |chain| then chain[i + 1] else INVALID_PAGE_ID
  }

  /** The chain visits distinct pages from first to last, each naming the next. */
  ghost predicate Linked(pages: DataPages, chain: seq<PageId>) {
    && chain != [] && NoDup(chain)
    && forall i :: 0 <= i < |chain| ==> LinkedAt(pages, chain, i)
  }

  /** The pages decide the chain: there is only one that starts at a given page. */
  lemma {:induction false} ChainUnique(pages: DataPages, a: seq<PageId>, b: seq<PageId>, n: nat)
    requires Linked(pages, a) && Linked(pages, b) && a[0] == b[0] && n <= |a|
    ensures n <= |b| && a[..n] == b[..n]
  {
    if n > 1 {
      ChainUnique(pages, a, b, n - 1);
      assert LinkedAt(pages, a, n - 2) && LinkedAt(pages, b, n - 2) && a[n - 2] == b[n - 2];
      assert LinkedAt(pages, a, n - 1);
    }
  }

  /** A page keeps its place when its records change. */
  lemma LinkedFrame(pages: DataPages, chain: seq<PageId>, p: PageId, v: PageView)
    requires Linked(pages, chain) && p in pages && Sized(v)
    ensures Linked(pages[p := pages[p].(view := v)], chain)
  {
    var pages' := pages[p := pages[p].(view := v)];
    forall i | 0 <= i < |chain| ensures LinkedAt(pages', chain, i) {
      assert LinkedAt(pages, chain, i);
    }
  }

  lemma LinkedAppend(pages: DataPages, chain: seq<PageId>, last: PageId, p: PageId)
    requires Linked(pages, chain) && last == chain[|chain| - 1] && p !in pages && p != INVALID_PAGE_ID
    ensures last in pages && p !in chain
    ensures Linked(pages[p := DataPage(FORMATTED, INVALID_PAGE_ID)][last := pages[last].(next := p)], chain + [p])
  {
    assert LinkedAt(pages, chain, |chain| - 1);
    forall q | q in chain ensures q in pages {
      var i :| 0 <= i < |chain| && chain[i] == q;
      assert LinkedAt(pages, chain, i);
    }
    var pages' := pages[p := DataPage(FORMATTED, INVALID_PAGE_ID)][last := pages[last].(next := p)];
    var chain' := chain + [p];
    forall i | 0 <= i < |chain'| ensures LinkedAt(pages', chain', i) {
      if i < |chain| {
        assert LinkedAt(pages, chain, i);
      }
    }
  }

  // ---------------------------------------------------------------- records by RID

  function Records(pages: DataPages, p: PageId): Slots {
    if p in pages then pages[p].view.records else []
  }

  /** The record under a RID; none outside the chain. */
  function Find(pages: DataPages, chain: seq<PageId>, r: RID): Option<Record> {
    if r.pageId in chain then Get(Records(pages, r.pageId), r.slotId) else None
  }

  function PageRows(p: PageId, records: Slots, s: nat): seq<Row>
    requires s <= |records| <= 0x1_0000
    decreases |records| - s
  {
    if s == |records| then []
    else (if records[s].Some? then [Row(RID(p, s), records[s].value)] else []) + PageRows(p, records, s + 1)
  }

  predicate FewSlots(pages: DataPages) {
    forall p :: p in pages ==> |pages[p].view.records| <= 0x1_0000
  }

  /** All rows, page after page along the chain and slot after slot in each. */
  function Rows(pages: DataPages, chain: seq<PageId>): seq<Row>
    requires FewSlots(pages)
  {
    if chain == [] then [] else PageRows(chain[0], Records(pages, chain[0]), 0) + Rows(pages, chain[1..])
  }

  /** The rows from one slot of one page on. */
  function RowsFrom(pages: DataPages, chain: seq<PageId>, at: nat, s: nat): seq<Row>
    requires FewSlots(pages) && at < |chain|
  {
    var records := Records(pages, chain[at]);
    (if s <= |records| then PageRows(chain[at], records, s) else []) + Rows(pages, chain[at + 1..])
  }

  function LiveTotal(pages: DataPages, chain: seq<PageId>): nat {
    if chain == [] then 0 else LiveCount(Records(pages, chain[0])) + LiveTotal(pages, chain[1..])
  }

  lemma {:induction false} PageRowsCount(p: PageId, records: Slots, s: nat)
    requires s <= |records| <= 0x1_0000
    ensures |PageRows(p, records, s)| == LiveCount(records[s..])
    decreases |records| - s
  {
    if s < |records| {
      PageRowsCount(p, records, s + 1);
      assert records[s..][1..] == records[s + 1..];
    }
  }

  lemma {:induction false} PageRowsMembers(p: PageId, records: Slots, s: nat, row: Row)
    requires s <= |records| <= 0x1_0000
    ensures row in PageRows(p, records, s) <==>
            row.rid.pageId == p && s <= row.rid.slotId && Get(records, row.rid.slotId) == Some(row.data)
    decreases |records| - s
  {
    if s < |records| {
      PageRowsMembers(p, records, s + 1, row);
    }
  }

  predicate SlotsGrow(rows: seq<Row>) {
    forall a, b :: 0 <= a < b < |rows| ==> rows[a].rid.slotId < rows[b].rid.slotId
  }

  lemma {:induction false} PageRowsGrow(p: PageId, records: Slots, s: nat)
    requires s <= |records| <= 0x1_0000
    ensures SlotsGrow(PageRows(p, records, s))
    decreases |records| - s
  {
    if s < |records| {
      PageRowsGrow(p, records, s + 1);
      var rest := PageRows(p, records, s + 1);
      forall i | 0 <= i < |rest| ensures s < rest[i].rid.slotId {
        PageRowsMembers(p, records, s + 1, rest[i]);
      }
    }
  }

  lemma SizedFew(pages: DataPages)
    requires AllSized(pages)
    ensures FewSlots(pages)
  {
  }

  /** A scan meets every live record exactly once, and there are as many rows as live records. */
  lemma {:induction false} RowsAre(pages: DataPages, chain: seq<PageId>)
    requires FewSlots(pages) && NoDup(chain)
    ensures |Rows(pages, chain)| == LiveTotal(pages, chain)
    ensures forall row :: row in Rows(pages, chain) <==> Find(pages, chain, row.rid) == Some(row.data)
    ensures forall a, b :: 0 <= a < b < |Rows(pages, chain)| ==> Rows(pages, chain)[a].rid != Rows(pages, chain)[b].rid
  {
    if chain != [] {
      var p, rest := chain[0], chain[1..];
      RowsAre(pages, rest);
      PageRowsCount(p, Records(pages, p), 0);
      PageRowsGrow(p, Records(pages, p), 0);
      assert Records(pages, p)[0..] == Records(pages, p);
      forall row {
        PageRowsMembers(p, Records(pages, p), 0, row);
      }
      var front, back := PageRows(p, Records(pages, p), 0), Rows(pages, rest);
      assert p !in rest;
      var all := front + back;
      forall a, b | 0 <= a < b < |all| ensures all[a].rid != all[b].rid {
        if a < |front| {
          assert all[a] in front;
        }
        if b >= |front| {
          assert all[b] in back;
        }
      }
    }
  }

  /** Changing one page of the chain changes the total by that page's live records. */
  lemma {:induction false} LiveTotalSet(pages: DataPages, chain: seq<PageId>, p: PageId, page: DataPage)
    requires NoDup(chain)
    ensures LiveTotal(pages[p := page], chain) ==
            LiveTotal(pages, chain) +
              if p in chain then LiveCount(page.view.records) - LiveCount(Records(pages, p)) else 0
  {
    if chain != [] {
      LiveTotalSet(pages, chain[1..], p, page);
      assert chain[0] !in chain[1..];
    }
  }

  lemma {:induction false} LiveTotalAppend(pages: DataPages, chain: seq<PageId>, p: PageId)
    ensures LiveTotal(pages, chain + [p]) == LiveTotal(pages, chain) + LiveCount(Records(pages, p))
  {
    if chain == [] {
      assert chain + [p] == [p] && [p][1..] == [];
    } else {
      assert (chain + [p])[1..] == chain[1..] + [p];
      LiveTotalAppend(pages, chain[1..], p);
    }
  }

  /** A page with room for a record takes it, and no page takes a longer record than a fresh one. */
  lemma WhatFits(v: PageView, data: Record)
    requires Sized(v)
    ensures CanInsert(v, data) ==> 1 <= |data| <= MAX_RECORD
    ensures 1 <= |data| <= MAX_RECORD && (HasRoom(v, |data|) || v == FORMATTED) ==> CanInsert(v, data)
  {
  }

  /** No page holds a record longer than a fresh page takes, nor does an update make one. */
  lemma OverlongNeverFits(v: PageView, s: nat, length: nat)
    requires Sized(v) && Get(v.records, s).Some?
    ensures |Get(v.records, s).value| <= MAX_RECORD
    ensures length > MAX_RECORD ==> !CanUpdate(v, s, length) && !Overruns(v, s, length)
    ensures !CanUpdate(v, s, length) ==> length > 0
  {
    TotalLengthSet(v.records, s, None);
  }

  // ---------------------------------------------------------------- one record changed

  predicate AllSized(pages: DataPages) {
    forall p :: p in pages ==> Sized(pages[p].view)
  }

  lemma NoPagesSized()
    ensures AllSized(map[])
  {
  }

  lemma SizedAt(pages: DataPages, p: PageId)
    requires AllSized(pages) && p in pages
    ensures Sized(pages[p].view)
  {
  }

  /** The page with its records exchanged. */
  function WithView(pages: DataPages, p: PageId, v: PageView): DataPages
    requires p in pages
  {
    pages[p := pages[p].(view := v)]
  }

  /** What the heap stores. */
  ghost function Stored(pages: DataPages, chain: seq<PageId>): imap<RID, Record> {
    imap r: RID | Find(pages, chain, r).Some? :: Find(pages, chain, r).value
  }

  /** One slot of one page of the chain is all that differs. */
  ghost predicate SlotDiffers(a: Slots, b: Slots, s: nat, x: Option<Record>) {
    forall k: nat :: Get(b, k) == if k == s then x else Get(a, k)
  }

  lemma StoredSet(pages: DataPages, chain: seq<PageId>, p: PageId, page: DataPage, s: U16, x: Option<Record>)
    requires p in pages && p in chain && SlotDiffers(pages[p].view.records, page.view.records, s, x)
    ensures RID(p, s) in Stored(pages, chain) <==> Get(pages[p].view.records, s).Some?
    ensures Stored(pages[p := page], chain) ==
            if x.Some? then Stored(pages, chain)[RID(p, s) := x.value] else Stored(pages, chain) - {RID(p, s)}
  {
    forall r: RID ensures Find(pages[p := page], chain, r) == if r == RID(p, s) then x else Find(pages, chain, r) {
      FindSet(pages, chain, p, page, s, x, r);
    }
    hide Find;
  }

  lemma FindSet(pages: DataPages, chain: seq<PageId>, p: PageId, page: DataPage, s: U16, x: Option<Record>, r: RID)
    requires p in pages && p in chain && SlotDiffers(pages[p].view.records, page.view.records, s, x)
    ensures Find(pages[p := page], chain, r) == if r == RID(p, s) then x else Find(pages, chain, r)
    ensures Find(pages, chain, RID(p, s)) == Get(pages[p].view.records, s)
  {
  }

  lemma NoDupChain(pages: DataPages, chain: seq<PageId>)
    requires Linked(pages, chain)
    ensures NoDup(chain) && chain != []
  {
  }

  lemma {:induction false} InsertFinds(pages: DataPages, chain: seq<PageId>, p: PageId, data: Record)
    requires Linked(pages, chain) && AllSized(pages) && p in chain && p in pages && CanInsert(pages[p].view, data)
    ensures var v := pages[p].view;
            var s := FirstEmpty(v.records);
            && s < 0x1_0000 && RID(p, s) !in Stored(pages, chain)
            && Stored(WithView(pages, p, Insert(v, data)), chain) == Stored(pages, chain)[RID(p, s) := data]
            && LiveTotal(WithView(pages, p, Insert(v, data)), chain) == LiveTotal(pages, chain) + 1
            && Linked(WithView(pages, p, Insert(v, data)), chain) && AllSized(WithView(pages, p, Insert(v, data)))
  {
    var v := pages[p].view;
    var s, v' := FirstEmpty(v.records), Insert(v, data);
    hide Stored, Linked, FirstEmpty;
    StoredSet(pages, chain, p, pages[p].(view := v'), s, Some(data));
    SizedKept(v, data, s);
    LinkedFrame(pages, chain, p, v');
    NoDupChain(pages, chain);
    LiveTotalSet(pages, chain, p, pages[p].(view := v'));
    if s < |v.records| {
      LiveCountSet(v.records, s, Some(data));
    } else {
      LiveCountAppend(v.records, Some(data));
    }
  }

  lemma {:induction false} DeleteFinds(pages: DataPages, chain: seq<PageId>, p: PageId, s: U16)
    requires Linked(pages, chain) && AllSized(pages) && p in chain && p in pages && Get(pages[p].view.records, s).Some?
    ensures var v := pages[p].view;
            && Stored(WithView(pages, p, Delete(v, s)), chain) == Stored(pages, chain) - {RID(p, s)}
            && LiveTotal(WithView(pages, p, Delete(v, s)), chain) == LiveTotal(pages, chain) - 1
            && Linked(WithView(pages, p, Delete(v, s)), chain) && AllSized(WithView(pages, p, Delete(v, s)))
  {
    var v := pages[p].view;
    hide Stored, Linked;
    StoredSet(pages, chain, p, pages[p].(view := Delete(v, s)), s, None);
    SizedKept(v, [], s);
    LinkedFrame(pages, chain, p, Delete(v, s));
    NoDupChain(pages, chain);
    LiveTotalSet(pages, chain, p, pages[p].(view := Delete(v, s)));
    LiveCountSet(v.records, s, None);
  }

  lemma {:induction false} UpdateFinds(pages: DataPages, chain: seq<PageId>, p: PageId, s: U16, data: Record)
    requires Linked(pages, chain) && AllSized(pages) && p in chain && p in pages
    requires CanUpdate(pages[p].view, s, |data|) && !Overruns(pages[p].view, s, |data|)
    ensures var v := pages[p].view;
            && Stored(WithView(pages, p, Update(v, s, data)), chain) == Stored(pages, chain)[RID(p, s) := data]
            && LiveTotal(WithView(pages, p, Update(v, s, data)), chain) == LiveTotal(pages, chain)
            && Linked(WithView(pages, p, Update(v, s, data)), chain) && AllSized(WithView(pages, p, Update(v, s, data)))
  {
    var v := pages[p].view;
    hide Stored, Linked;
    StoredSet(pages, chain, p, pages[p].(view := Update(v, s, data)), s, Some(data));
    SizedKept(v, data, s);
    LinkedFrame(pages, chain, p, Update(v, s, data));
    NoDupChain(pages, chain);
    LiveTotalSet(pages, chain, p, pages[p].(view := Update(v, s, data)));
    LiveCountSet(v.records, s, Some(data));
  }

  /** A fresh page at the end of the chain adds no record. */
  lemma AppendFinds(pages: DataPages, chain: seq<PageId>, last: PageId, p: PageId)
    requires Linked(pages, chain) && AllSized(pages) && last == chain[|chain| - 1]
    requires p !in pages && p != INVALID_PAGE_ID
    ensures chain != [] && last in pages && p !in chain && p != last
    ensures var pages' := pages[p := DataPage(FORMATTED, INVALID_PAGE_ID)][last := pages[last].(next := p)];
            && Linked(pages', chain + [p]) && AllSized(pages')
            && LiveTotal(pages', chain + [p]) == LiveTotal(pages, chain)
            && Stored(pages', chain + [p]) == Stored(pages, chain)
  {
    LinkedAppend(pages, chain, last, p);
    var mid := pages[p := DataPage(FORMATTED, INVALID_PAGE_ID)];
    LiveTotalSet(pages, chain, p, mid[p]);
    LiveTotalSet(mid, chain, last, pages[last].(next := p));
    LiveTotalAppend(mid[last := pages[last].(next := p)], chain, p);
    var pages' := mid[last := pages[last].(next := p)];
    forall r: RID ensures Find(pages', chain + [p], r) == Find(pages, chain, r) {
    }
  }
}

/** Whole runs of a heap file: any sequence of insertions, batches, deletions and updates. */
module HeapRuns {
  import opened Base
  import opened SlotMap
  import opened BTreeLevels
  import opened HeapRows
  import opened HeapSpace
  import opened Recency
  import opened HeapFiles

  datatype HeapOp =
    | Put(data: Record)
    | PutAll(records: seq<Record>)
    | Drop(rid: RID)
    | Replace(rid: RID, data: Record)

  datatype Outcome =
    | Inserted(rids: seq<Option<RID>>)
    | Dropped(gone: bool)
    | Replaced(now: Option<RID>)

  type Heap = imap<RID, Record>

  predicate Short(data: Record) {
    |data| < 0x1_0000
  }

  predicate Issuable(op: HeapOp) {
    match op
    case Put(data) => Short(data)
    case PutAll(records) => forall i :: 0 <= i < |records| ==> Short(records[i])
    case Drop(_) => true
    case Replace(_, data) => Short(data)
  }

  /** What one operation makes of the stored records. */
  ghost predicate StepDone(before: Heap, op: HeapOp, out: Outcome, after: Heap) {
    match op
    case Put(data) =>
      out.Inserted? && |out.rids| == 1 && PutDone(before, [data], out.rids, after)
    case PutAll(records) =>
      out.Inserted? && |out.rids| == |records| && PutDone(before, records, out.rids, after)
    case Drop(rid) =>
      out == Dropped(rid in before) && after == before - {rid}
    case Replace(rid, data) =>
      && out.Replaced?
      && (rid in before ==> (out.now.Some? <==> |data| <= MAX_RECORD))
      && (out.now.Some? ==> out.now.value !in before - {rid} && after == (before - {rid})[out.now.value := data])
      && (out.now.None? ==> after == before - {rid})
  }

  /** Each record that some page takes got an RID of its own that was free, and no other did. */
  ghost predicate PutDone(before: Heap, records: seq<Record>, rids: seq<Option<RID>>, after: Heap)
    requires |rids| == |records|
  {
    && (forall i :: 0 <= i < |rids| ==> (rids[i].Some? <==> 1 <= |records[i]| <= MAX_RECORD))
    && AllNew(before, rids, records) && after == AddAll(before, rids, records)
  }

  lemma {:induction false} OnePut(before: Heap, data: Record, rid: Option<RID>, after: Heap)
    requires rid.Some? <==> 1 <= |data| <= MAX_RECORD
    requires rid.Some? ==> rid.value !in before && after == before[rid.value := data]
    requires rid.None? ==> after == before
    ensures PutDone(before, [data], [rid], after)
  {
    AddNone(before);
    AddAllNext(before, [], rid, [], data);
    assert [] + [rid] == [rid] && [] + [data] == [data];
  }

  /** The pages an operation adds at most. */
  function PagesFor(op: HeapOp): nat {
    match op
    case Put(_) => 2
    case PutAll(records) => |records| + 1
    case Drop(_) => 0
    case Replace(_, _) => 2
  }

  function PagesForAll(ops: seq<HeapOp>): nat {
    if ops == [] then 0 else PagesForAll(ops[..|ops| - 1]) + PagesFor(ops[|ops| - 1])
  }

  lemma {:induction false} PagesForPrefix(ops: seq<HeapOp>, i: nat)
    requires i < |ops|
    ensures PagesForAll(ops[..i + 1]) == PagesForAll(ops[..i]) + PagesFor(ops[i]) <= PagesForAll(ops)
    decreases |ops| - i
  {
    assert ops[..i + 1][..i] == ops[..i];
    if i + 1 < |ops| {
      PagesForPrefix(ops, i + 1);
    } else {
      assert ops[..i + 1] == ops;
    }
  }

  /** The update would overrun its page, which leaves no heap to speak of. */
  predicate Breaks(pages: DataPages, op: HeapOp) {
    op.Replace? && op.rid.pageId in pages && Overruns(pages[op.rid.pageId].view, op.rid.slotId, |op.data|)
  }

  /** One operation of a client. */
  method Issue(heap: HeapFile, op: HeapOp) returns (out: Outcome)
    requires heap.Valid() && heap.Owns() && Issuable(op) && !Breaks(heap.pool.pages, op)
    requires |heap.pool.pages| + PagesFor(op) < INVALID_PAGE_ID && heap.pool.Held() + 2 <= heap.pool.frames
    modifies heap, heap.pool
    ensures heap.Valid() && heap.Owns() && heap.pool.pins == old(heap.pool.pins)
    ensures |heap.pool.pages| <= old(|heap.pool.pages|) + PagesFor(op)
    ensures StepDone(old(heap.Heap()), op, out, heap.Heap())
    ensures (op.Replace? && op.rid !in old(heap.Heap())) || heap.drift == old(heap.drift)
  {
    hide AllSized, Linked, LiveTotal, HeapRows.Stored, Overruns, PutDone, CanUpdate;
    match op
    case Put(data) =>
      ghost var before := heap.Heap();
      var rid := heap.InsertRecord(data);
      OnePut(before, data, rid, heap.Heap());
      out := Inserted([rid]);
    case PutAll(records) =>
      out := IssueBatch(heap, records);
    case Drop(rid) =>
      var gone := heap.DeleteRecord(rid);
      out := Dropped(gone);
    case Replace(rid, data) =>
      ghost var before := heap.Heap();
      OutsideHeap(heap, rid);
      var now := heap.UpdateRecord(rid, data);
      assert rid !in before ==> before - {rid} == before;
      out := Replaced(now);
  }

  lemma OutsideHeap(heap: HeapFile, rid: RID)
    requires heap.Valid()
    ensures rid.pageId !in heap.chain ==> rid !in heap.Heap()
  {
    StoredInChain(heap.pool.pages, heap.chain, rid);
  }

  method IssueBatch(heap: HeapFile, records: seq<Record>) returns (out: Outcome)
    requires heap.Valid() && heap.Owns() && forall i :: 0 <= i < |records| ==> Short(records[i])
    requires |heap.pool.pages| + |records| < INVALID_PAGE_ID && heap.pool.Held() + 2 <= heap.pool.frames
    modifies heap, heap.pool
    ensures heap.Valid() && heap.Owns() && heap.pool.pins == old(heap.pool.pins) && heap.drift == old(heap.drift)
    ensures |heap.pool.pages| <= old(|heap.pool.pages|) + |records| + 1
    ensures out.Inserted? && |out.rids| == |records| && PutDone(old(heap.Heap()), records, out.rids, heap.Heap())
  {
    hide AllSized, Linked, LiveTotal, HeapRows.Stored, AddAll, AllNew;
    assert forall i :: 0 <= i < |records| ==> Short(records[i]);
    var rids, stages := heap.BulkInsert(records);
    out := Inserted(rids);
  }

  /** The stored records from state to state, as the outcomes say. */
  ghost predicate RunDone(heaps: seq<Heap>, ops: seq<HeapOp>, outs: seq<Outcome>) {
    && |heaps| == |outs| + 1 && |outs| <= |ops|
    && forall i :: 0 <= i < |outs| ==> StepDone(heaps[i], ops[i], outs[i], heaps[i + 1])
  }

  /**
   Any run on a new heap, up to the first update that would overrun its page: every step does what it says to the
   stored records, the heap stays whole, no pin is left, and the count is right unless records were updated that were
   not there.
   */
  method Run(pool: DataPool, ops: seq<HeapOp>) returns (heap: HeapFile, outs: seq<Outcome>, ghost heaps: seq<Heap>)
    requires pool.pages == map[] && pool.Held() + 2 <= pool.frames && PagesForAll(ops) + 2 < INVALID_PAGE_ID
    requires forall i :: 0 <= i < |ops| ==> Issuable(ops[i])
    modifies pool
    ensures fresh(heap) && heap.pool == pool && heap.Valid() && heap.Owns() && pool.pins == old(pool.pins)
    ensures RunDone(heaps, ops, outs) && heaps[0] == imap[] && heaps[|outs|] == heap.Heap()
    ensures |outs| < |ops| ==> Breaks(pool.pages, ops[|outs|])
    ensures (forall i :: 0 <= i < |outs| && ops[i].Replace? ==> ops[i].rid in heaps[i]) ==> heap.drift == 0
  {
    hide AllSized, Linked, LiveTotal, HeapRows.Stored, StepDone, Issuable;
    NoPagesSized();
    heap := new HeapFile.Create(pool);
    outs, heaps := [], [heap.Heap()];
    while |outs| < |ops| && !Breaks(pool.pages, ops[|outs|])
      invariant fresh(heap) && heap.pool == pool && heap.Valid() && heap.Owns() && pool.pins == old(pool.pins)
      invariant RunDone(heaps, ops, outs) && heaps[0] == imap[] && heaps[|outs|] == heap.Heap()
      invariant |pool.pages| <= 1 + PagesForAll(ops[..|outs|])
      invariant (forall i :: 0 <= i < |outs| && ops[i].Replace? ==> ops[i].rid in heaps[i]) ==> heap.drift == 0
      decreases |ops| - |outs|
    {
      ghost var i := |outs|;
      PagesForPrefix(ops, i);
      assert Issuable(ops[i]);
      var out := Issue(heap, ops[|outs|]);
      RunNext(heaps, ops, outs, out, heap.Heap());
      outs, heaps := outs + [out], heaps + [heap.Heap()];
    }
  }

  lemma RunNext(heaps: seq<Heap>, ops: seq<HeapOp>, outs: seq<Outcome>, out: Outcome, after: Heap)
    requires RunDone(heaps, ops, outs) && |outs| < |ops| && StepDone(heaps[|outs|], ops[|outs|], out, after)
    ensures RunDone(heaps + [after], ops, outs + [out])
  {
  }

  // ---------------------------------------------------------------- records that fit one page

  /** What records take of a page, each with its slot. */
  function Cost(records: seq<Record>): nat {
    if records == [] then 0 else Cost(records[..|records| - 1]) + |records[|records| - 1]| + 4
  }

  /** They fit an empty page together, and all but the last leave the room that keeps a page in the directory. */
  predicate FitTogether(records: seq<Record>) {
    && (forall i :: 0 <= i < |records| ==> records[i] != [] && Cost(records[..i + 1]) <= 4076)
    && (forall i :: 0 < i < |records| ==> Cost(records[..i]) + 64 + 4 <= 4076)
  }

  function AllLive(records: seq<Record>): Slots {
    seq(|records|, i requires 0 <= i < |records| => Some(records[i]))
  }

  /** A heap of one page that holds these records, in its directory as long as there is room for 64 bytes. */
  predicate OnePage(s: Space, p: PageId, records: seq<Record>) {
    && Cost(records) <= 4076
    && s.pages == map[p := DataPage(PageView(AllLive(records), 4076 - Cost(records)), INVALID_PAGE_ID)]
    && s.chain == [p] && s.directory == if Cost(records) + 64 + 4 <= 4076 then [p] else []
  }

  lemma {:induction false} OnePageTakes(s: Space, p: PageId, records: seq<Record>, data: Record, rid: Option<RID>,
                                        s': Space)
    requires OnePage(s, p, records) && data != [] && Cost(records) + |data| + 4 <= 4076
    requires Cost(records) + 64 + 4 <= 4076 && InsertDone(s, data, rid, s')
    ensures rid.Some? && rid.value.pageId == p && rid.value.slotId == |records| && OnePage(s', p, records + [data])
  {
    hide HasRoom, Insert, AllLive, FirstEmpty, Cost, Appended;
    LiveView(records, |data|);
    assert FirstRoomy(s, |data|, 0);
    FirstOnly(s, |data|, 0);
    var q, mid :| InsertedVia(s, data, rid, s', q, mid);
    assert mid == s && q == p;
    LiveNext(records, data);
    LiveView(records + [data], 64);
    var after := PageView(AllLive(records + [data]), 4076 - Cost(records + [data]));
    assert Stocked(s, p, data).pages == map[p := DataPage(after, INVALID_PAGE_ID)];
    assert Without([p], p) == [];
  }

  /** The page's next slot, and whether it says it has room. */
  lemma {:induction false} LiveView(records: seq<Record>, length: U16)
    requires Cost(records) <= 4076 && length <= 4076
    ensures FirstEmpty(AllLive(records)) == |records| == |AllLive(records)|
    ensures HasRoom(PageView(AllLive(records), 4076 - Cost(records)), length) <==> Cost(records) + length + 4 <= 4076
  {
    hide Cost;
    FirstEmptyIs(AllLive(records), |records|);
  }

  lemma {:induction false} LiveNext(records: seq<Record>, data: Record)
    requires data != [] && Cost(records) + |data| + 4 <= 4076
    ensures Cost(records + [data]) == Cost(records) + |data| + 4
    ensures Insert(PageView(AllLive(records), 4076 - Cost(records)), data) ==
            PageView(AllLive(records + [data]), 4076 - Cost(records + [data]))
  {
    assert (records + [data])[..|records|] == records;
    FirstEmptyIs(AllLive(records), |records|);
    assert AllLive(records + [data]) == AllLive(records) + [Some(data)];
  }

  /** Records that fit one page together all go to the first page, into one slot after the other, and none is added. */
  method FillFirstPage(pool: DataPool, records: seq<Record>) returns (heap: HeapFile, rids: seq<Option<RID>>)
    requires pool.pages == map[] && pool.Held() + 2 <= pool.frames && FitTogether(records)
    modifies pool
    ensures heap.Valid() && heap.pool == pool && pool.pins == old(pool.pins)
    ensures |rids| == |records|
    ensures forall i :: 0 <= i < |rids| ==>
      rids[i].Some? && rids[i].value.pageId == heap.firstPageId && rids[i].value.slotId == i
    ensures heap.pageCount == 1 && |pool.pages| == 1 && heap.recordCount == |records|
  {
    hide AllSized, Linked, LiveTotal, HeapRows.Stored, InsertDone, OnePage, AllLive;
    NoPagesSized();
    heap := new HeapFile.Create(pool);
    rids := [];
    ghost var p := heap.firstPageId;
    NoRecords(heap.Layout(), p);
    for i := 0 to |records|
      invariant fresh(heap) && heap.pool == pool && heap.Valid() && pool.pins == old(pool.pins)
      invariant heap.firstPageId == p && OnePage(heap.Layout(), p, records[..i])
      invariant |rids| == i && heap.recordCount == i
      invariant forall k :: 0 <= k < i ==> rids[k].Some? && rids[k].value.pageId == p && rids[k].value.slotId == k
    {
      assert records[..i + 1][..i] == records[..i] && records[..i + 1] == records[..i] + [records[i]];
      OnePageIs(heap.Layout(), p, records[..i]);
      ghost var s := heap.Layout();
      var rid := heap.InsertRecord(records[i]);
      OnePageTakes(s, p, records[..i], records[i], rid, heap.Layout());
      OnePageIs(heap.Layout(), p, records[..i + 1]);
      rids := rids + [rid];
    }
    OnePageIs(heap.Layout(), p, records[..|records|]);
  }

  lemma OnePageIs(s: Space, p: PageId, records: seq<Record>)
    requires OnePage(s, p, records)
    ensures |s.pages| == 1 && s.chain == [p]
  {
  }

  lemma {:induction false} NoRecords(s: Space, p: PageId)
    requires s == Space(map[p := DataPage(FORMATTED, INVALID_PAGE_ID)], [p], [p])
    ensures OnePage(s, p, [])
  {
    assert AllLive([]) == [];
  }

  // ---------------------------------------------------------------- an update that loses its record

  /** A record of 100 bytes is stored and then updated to 4073 bytes, which no page takes: the heap is empty. */
  method LoseLongUpdate(pool: DataPool, short: Record, long: Record) returns (heap: HeapFile, now: Option<RID>)
    requires pool.pages == map[] && pool.Held() + 2 <= pool.frames && |short| == 100 && |long| == 4073
    modifies pool
    ensures heap.Valid() && heap.pool == pool && now.None? && heap.Heap() == imap[] && heap.recordCount == 0
  {
    hide AllSized, Linked, LiveTotal, HeapRows.Stored, Overruns, CanUpdate, UpdateDone, InsertDone, ReplaceDone;
    NoPagesSized();
    heap := new HeapFile.Create(pool);
    var rid := heap.InsertRecord(short);
    Overlong(heap, rid.value, |long|);
    ghost var pages, one := pool.pages, heap.Heap();
    now := heap.UpdateRecord(rid.value, long);
    GoneAgain(pages, one, heap.Heap(), rid.value, short, long);
  }

  lemma Overlong(heap: HeapFile, rid: RID, length: nat)
    requires heap.Valid() && rid in heap.Heap() && length > MAX_RECORD
    ensures rid.pageId in heap.chain
    ensures rid.pageId in heap.pool.pages ==> !Overruns(heap.pool.pages[rid.pageId].view, rid.slotId, length)
  {
    StoredInChain(heap.pool.pages, heap.chain, rid);
    if rid.pageId in heap.pool.pages {
      SizedAt(heap.pool.pages, rid.pageId);
      OverlongNeverFits(heap.pool.pages[rid.pageId].view, rid.slotId, length);
    }
  }

  lemma GoneAgain(pages: DataPages, one: Heap, after: Heap, rid: RID, short: Record, long: Record)
    requires one == (imap[])[rid := short] && UpdateDone(pages, one, after, rid, long, None)
    ensures after == imap[]
  {
    assert one - {rid} == imap[];
  }

  /** An update of a record that was deleted: the data is stored, and the count does not show it. */
  method MiscountUpdate(pool: DataPool, first: Record, data: Record) returns (heap: HeapFile, now: Option<RID>)
    requires pool.pages == map[] && pool.Held() + 2 <= pool.frames
    requires 1 <= |first| <= MAX_RECORD && 1 <= |data| <= MAX_RECORD
    modifies pool
    ensures heap.Valid() && heap.pool == pool && heap.recordCount == 0
    ensures now.Some? && heap.Heap() == (imap[])[now.value := data]
  {
    hide AllSized, Linked, LiveTotal, HeapRows.Stored, CanUpdate, UpdateDone, ReplaceDone, Overruns;
    var rid;
    heap, rid := StoreAndDrop(pool, first);
    NotThere(heap, rid, |data|);
    ghost var pages, before := pool.pages, heap.Heap();
    now := heap.UpdateRecord(rid, data);
    StoredAnew(pages, before, heap.Heap(), rid, data, now);
  }

  method StoreAndDrop(pool: DataPool, first: Record) returns (heap: HeapFile, rid: RID)
    requires pool.pages == map[] && pool.Held() + 2 <= pool.frames && 1 <= |first| <= MAX_RECORD
    modifies pool
    ensures fresh(heap) && heap.Valid() && heap.pool == pool && heap.recordCount == 0 && heap.Heap() == imap[]
    ensures rid.pageId in heap.chain && pool.pins == old(pool.pins) && |pool.pages| <= 3
  {
    hide AllSized, Linked, LiveTotal, HeapRows.Stored, InsertDone, HeapSpace.Dropped;
    NoPagesSized();
    heap := new HeapFile.Create(pool);
    var stored := heap.InsertRecord(first);
    rid := stored.value;
    StoredHere(heap, rid);
    var gone := heap.DeleteRecord(rid);
  }

  lemma StoredHere(heap: HeapFile, rid: RID)
    requires heap.Valid() && rid in heap.Heap()
    ensures rid.pageId in heap.chain
  {
    StoredInChain(heap.pool.pages, heap.chain, rid);
  }

  lemma NotThere(heap: HeapFile, rid: RID, length: nat)
    requires heap.Valid() && rid !in heap.Heap() && rid.pageId in heap.chain
    ensures rid.pageId in heap.pool.pages
    ensures !Overruns(heap.pool.pages[rid.pageId].view, rid.slotId, length)
    ensures !CanUpdate(heap.pool.pages[rid.pageId].view, rid.slotId, length)
  {
    StoredInChain(heap.pool.pages, heap.chain, rid);
    InChain(heap.pool.pages, heap.chain, rid.pageId);
  }

  lemma StoredAnew(pages: DataPages, before: Heap, after: Heap, rid: RID, data: Record, now: Option<RID>)
    requires before == imap[] && UpdateDone(pages, before, after, rid, data, now)
    requires rid.pageId in pages && !CanUpdate(pages[rid.pageId].view, rid.slotId, |data|)
    requires 1 <= |data| <= MAX_RECORD
    ensures now.Some? && after == (imap[])[now.value := data]
  {
  }
}

/**
 Where a heap file puts its records: the pages, their chain, and the directory of pages that may have room, as each
 operation leaves them.
 */
module HeapSpace {
  import opened Base
  import opened SlotMap
  import opened BTreeLevels
  import opened HeapRows
  import opened Recency

  datatype Space = Space(pages: DataPages, chain: seq<PageId>, directory: seq<PageId>)

  /** The length below which a page counts as full. */
  const LEAST_ROOM := 64

  predicate Roomy(pages: DataPages, p: PageId, length: U16) {
    p in pages && HasRoom(pages[p].view, length)
  }

  /** The first page of the directory that says it has room stands at this place. */
  predicate FirstRoomy(s: Space, length: U16, at: nat) {
    && at < |s.directory| && Roomy(s.pages, s.directory[at], length)
    && forall k :: 0 <= k < at ==> !Roomy(s.pages, s.directory[k], length)
  }

  predicate NoneRoomy(s: Space, length: U16) {
    forall p :: p in s.directory ==> !Roomy(s.pages, p, length)
  }

  /** p is a new, empty page at the end of the chain and of the directory. */
  predicate Appended(s: Space, p: PageId, s': Space) {
    && p !in s.pages && p != INVALID_PAGE_ID && s.chain != []
    && var last := s.chain[|s.chain| - 1];
    && last in s.pages
    && s'.pages == s.pages[p := DataPage(FORMATTED, INVALID_PAGE_ID)][last := s.pages[last].(next := p)]
    && s'.chain == s.chain + [p] && s'.directory == s.directory + [p]
  }

  /**
   p is the first page of the directory with room, and those in front of it have left the directory; or, if none
   has room, all have left it and p is a new page.
   */
  ghost predicate Found(s: Space, length: U16, p: PageId, s': Space) {
    || (exists at: nat :: FirstRoomy(s, length, at) && p == s.directory[at]
          && s' == s.(directory := s.directory[at..]))
    || (NoneRoomy(s, length) && Appended(s.(directory := []), p, s'))
  }

  /** A page that is full by now leaves the directory. */
  function Noted(s: Space, p: PageId): Space {
    if Roomy(s.pages, p, LEAST_ROOM) then s else s.(directory := Without(s.directory, p))
  }

  function Stocked(s: Space, p: PageId, data: Record): Space
    requires p in s.pages
  {
    s.(pages := WithView(s.pages, p, Insert(s.pages[p].view, data)))
  }

  /** The RID of the record that page p takes next. */
  predicate TakenAt(s: Space, p: PageId, rid: Option<RID>) {
    p in s.pages && rid.Some? && rid.value.pageId == p && rid.value.slotId == FirstEmpty(s.pages[p].view.records)
  }

  // ---------------------------------------------------------------- single records

  ghost predicate InsertedVia(s: Space, data: Record, rid: Option<RID>, s': Space, p: PageId, mid: Space)
    requires |data| < 0x1_0000
  {
    && Found(s, |data|, p, mid)
    && if |data| <= MAX_RECORD then TakenAt(mid, p, rid) && s' == Noted(Stocked(mid, p, data), p)
       else rid.None? && exists q :: Appended(mid, q, s')
  }

  /** One insertion: the page found takes the record; for one that no page takes, one more page is added in vain. */
  ghost predicate InsertDone(s: Space, data: Record, rid: Option<RID>, s': Space)
    requires |data| < 0x1_0000
  {
    if data == [] then rid.None? && s' == s
    else exists p, mid :: InsertedVia(s, data, rid, s', p, mid)
  }

  /** One deletion; a page that has left the directory comes back at its end. */
  predicate Dropped(s: Space, rid: RID, s': Space)
    requires rid.pageId in s.pages
  {
    && s'.pages == WithView(s.pages, rid.pageId, Delete(s.pages[rid.pageId].view, rid.slotId))
    && s'.chain == s.chain
    && s'.directory == s.directory + if rid.pageId in s.directory then [] else [rid.pageId]
  }

  /** An update: in place where the page can hold it, else a deletion that the directory misses and an insertion. */
  ghost predicate ReplaceDone(s: Space, rid: RID, data: Record, now: Option<RID>, s': Space)
    requires |data| < 0x1_0000 && rid.pageId in s.pages && !Overruns(s.pages[rid.pageId].view, rid.slotId, |data|)
  {
    var v := s.pages[rid.pageId].view;
    if CanUpdate(v, rid.slotId, |data|) then
      now == Some(rid) && s' == s.(pages := WithView(s.pages, rid.pageId, Update(v, rid.slotId, data)))
    else InsertDone(s.(pages := WithView(s.pages, rid.pageId, Delete(v, rid.slotId))), data, now, s')
  }

  // ---------------------------------------------------------------- batches

  ghost predicate MovedOn(s: Space, current: PageId, data: Record, rid: Option<RID>, s': Space, next: PageId,
                          mid: Space)
    requires |data| < 0x1_0000
  {
    && Found(s.(directory := Without(s.directory, current)), |data|, next, mid) && next in mid.pages
    && if CanInsert(mid.pages[next].view, data) then TakenAt(mid, next, rid) && s' == Stocked(mid, next, data)
       else rid.None? && s' == mid
  }

  /** One record of a batch: on the current page if it fits there, else that page leaves the directory for another. */
  ghost predicate BatchStep(s: Space, current: PageId, data: Record, rid: Option<RID>, s': Space, next: PageId)
    requires |data| < 0x1_0000
  {
    && current in s.pages
    && if CanInsert(s.pages[current].view, data)
       then next == current && TakenAt(s, current, rid) && s' == Stocked(s, current, data)
       else exists mid :: MovedOn(s, current, data, rid, s', next, mid)
  }

  /** A batch from state to state, each with its current page. */
  datatype Stage = Stage(space: Space, current: PageId)

  ghost predicate StageDone(a: Stage, data: Record, rid: Option<RID>, b: Stage) {
    |data| < 0x1_0000 && BatchStep(a.space, a.current, data, rid, b.space, b.current)
  }

  ghost predicate BatchDone(s: Space, records: seq<Record>, rids: seq<Option<RID>>, stages: seq<Stage>, s': Space) {
    && |rids| == |records| && |stages| == |records| + 1
    && Found(s, LEAST_ROOM, stages[0].current, stages[0].space)
    && (forall i :: 0 <= i < |records| ==> StageDone(stages[i], records[i], rids[i], stages[i + 1]))
    && s' == Noted(stages[|records|].space, stages[|records|].current)
  }

  // ---------------------------------------------------------------- what this means for a client

  /** Where an inserted record goes, and when the heap grows for it. */
  lemma {:induction false} InsertTarget(s: Space, data: Record, rid: Option<RID>, s': Space)
    requires 1 <= |data| <= MAX_RECORD && InsertDone(s, data, rid, s')
    ensures rid.Some? && rid.value.pageId in s'.pages
    ensures forall at: nat {:trigger FirstRoomy(s, |data|, at)} :: FirstRoomy(s, |data|, at) ==>
      && rid.value.pageId == s.directory[at] && s'.chain == s.chain && s'.pages.Keys == s.pages.Keys
      && var was := s.pages[rid.value.pageId].view.records;
      && Get(was, rid.value.slotId).None? && forall k: nat :: k < rid.value.slotId ==> Get(was, k).Some?
    ensures NoneRoomy(s, |data|) ==>
      && rid.value.pageId !in s.pages && rid.value.slotId == 0
      && s'.chain == s.chain + [rid.value.pageId] && s'.pages.Keys == s.pages.Keys + {rid.value.pageId}
    ensures rid.value.pageId in s'.directory <==> Roomy(s'.pages, rid.value.pageId, LEAST_ROOM)
  {
    hide HasRoom, Insert;
    var p, mid :| InsertedVia(s, data, rid, s', p, mid);
    if at: nat :| FirstRoomy(s, |data|, at) {
      FirstOnly(s, |data|, at);
      assert s.directory[at] in s.directory;
      assert mid.directory[0] == p;
    }
  }

  lemma FirstOnly(s: Space, length: U16, at: nat)
    requires FirstRoomy(s, length, at)
    ensures forall k: nat {:trigger FirstRoomy(s, length, k)} :: FirstRoomy(s, length, k) ==> k == at
    ensures !NoneRoomy(s, length)
  {
    assert s.directory[at] in s.directory;
  }

  /** There is always one or the other. */
  lemma {:induction false} RoomyOrNone(s: Space, length: U16) returns (at: nat)
    ensures FirstRoomy(s, length, at) || NoneRoomy(s, length)
  {
    at := 0;
    while at < |s.directory| && !Roomy(s.pages, s.directory[at], length)
      invariant at <= |s.directory|
      invariant forall k :: 0 <= k < at ==> !Roomy(s.pages, s.directory[k], length)
    {
      at := at + 1;
    }
  }

  /** The pages of a chain that have room, in chain order. */
  function RoomyPages(pages: DataPages, chain: seq<PageId>): seq<PageId> {
    if chain == [] then []
    else
      var n := |chain| - 1;
      RoomyPages(pages, chain[..n]) + if Roomy(pages, chain[n], LEAST_ROOM) then [chain[n]] else []
  }

  /** p stands before q. */
  ghost predicate Before(chain: seq<PageId>, p: PageId, q: PageId) {
    exists i, j :: 0 <= i < j < |chain| && chain[i] == p && chain[j] == q
  }

  lemma {:induction false} RoomyPagesAre(pages: DataPages, chain: seq<PageId>)
    requires NoDup(chain)
    ensures forall p :: p in RoomyPages(pages, chain) <==> p in chain && Roomy(pages, p, LEAST_ROOM)
    ensures forall a, b :: 0 <= a < b < |RoomyPages(pages, chain)| ==>
      Before(chain, RoomyPages(pages, chain)[a], RoomyPages(pages, chain)[b])
  {
    hide Roomy;
    if chain != [] {
      var n := |chain| - 1;
      var front, roomy := RoomyPages(pages, chain[..n]), RoomyPages(pages, chain);
      RoomyPagesAre(pages, chain[..n]);
      forall a, b | 0 <= a < b < |roomy| ensures Before(chain, roomy[a], roomy[b]) {
        if b < |front| {
          assert Before(chain[..n], front[a], front[b]);
          BeforeMore(chain, n, front[a], front[b]);
        } else {
          assert front[a] in chain[..n];
          LastBehind(chain, front[a]);
        }
      }
    }
  }

  lemma BeforeMore(chain: seq<PageId>, n: nat, p: PageId, q: PageId)
    requires n <= |chain| && Before(chain[..n], p, q)
    ensures Before(chain, p, q)
  {
    var i, j :| 0 <= i < j < n && chain[..n][i] == p && chain[..n][j] == q;
    assert chain[i] == p && chain[j] == q;
  }

  lemma LastBehind(chain: seq<PageId>, p: PageId)
    requires chain != [] && p in chain[..|chain| - 1]
    ensures Before(chain, p, chain[|chain| - 1])
  {
    var i :| 0 <= i < |chain| - 1 && chain[..|chain| - 1][i] == p;
    assert chain[i] == p;
  }
}

/**
 Redo recovery: the log is read from its start, and each change is applied to its page unless the slot says it
 already was.
 */
module Recovery {
  import opened Base
  import opened Bytes
  import opened SlotMap
  import opened SlottedPage
  import opened LogRecords
  import opened LogStream
  import opened LogManagement
  import opened Redo

  // ---------------------------------------------------------------- records as changes

  /** Update records can be taken apart. */
  predicate Readable(r: LogRecord) {
    WellFormed(r) && (r.kind == UPDATE_RECORD ==> HoldsUpdate(r.payload))
  }

  predicate AllReadable(records: seq<LogRecord>) {
    forall i :: 0 <= i < |records| ==> Readable(records[i])
  }

  /** The change a record asks for; page allocations and checkpoints change no page. */
  function ChangeOf(r: LogRecord): Option<Change>
    requires Readable(r)
  {
    if r.kind == INSERT_RECORD then Some(Change(r.pageId, Ins(r.slotId, r.payload)))
    else if r.kind == DELETE_RECORD then Some(Change(r.pageId, Del(r.slotId)))
    else if r.kind == UPDATE_RECORD then Some(Change(r.pageId, Upd(r.slotId, GetUpdateNew(r))))
    else None
  }

  function ChangesOf(records: seq<LogRecord>): seq<Change>
    requires AllReadable(records)
  {
    if records == [] then []
    else
      var c := ChangeOf(records[0]);
      (if c.Some? then [c.value] else []) + ChangesOf(records[1..])
  }

  lemma {:induction false} ChangesOfAppend(records: seq<LogRecord>, r: LogRecord)
    requires AllReadable(records) && Readable(r)
    ensures AllReadable(records + [r])
    ensures ChangesOf(records + [r]) ==
            ChangesOf(records) + if ChangeOf(r).Some? then [ChangeOf(r).value] else []
    decreases records
  {
    hide Readable, ChangeOf;
    if records == [] {
      assert records + [r] == [r];
    } else {
      assert (records + [r])[1..] == records[1..] + [r];
      ChangesOfAppend(records[1..], r);
    }
  }

  /** Whether redoing a record counts: an insert into an occupied slot or a change of an empty one does not. */
  function Counts(pages: Pages, r: LogRecord): nat {
    if r.kind == NEW_PAGE_RECORD then 1
    else if r.pageId !in pages then 0
    else
      var live := Get(pages[r.pageId].records, r.slotId).Some?;
      if r.kind == INSERT_RECORD then if live then 0 else 1
      else if r.kind == DELETE_RECORD || r.kind == UPDATE_RECORD then if live then 1 else 0
      else 0
  }

  ghost predicate RecordSafe(pages: Pages, r: LogRecord)
    requires Readable(r)
  {
    var c := ChangeOf(r);
    c.Some? && c.value.pageId in pages ==> Safe(pages[c.value.pageId], c.value.op)
  }

  function RedoStep(pages: Pages, r: LogRecord): Pages
    requires Readable(r) && RecordSafe(pages, r)
  {
    if ChangeOf(r).Some? then RedoChange(pages, ChangeOf(r).value) else pages
  }

  lemma {:induction false} RedoStepNext(pages: Pages, records: seq<LogRecord>)
    requires AllReadable(records) && records != [] && AllSafe(pages, ChangesOf(records))
    ensures Readable(records[0]) && RecordSafe(pages, records[0]) && AllReadable(records[1..])
    ensures AllSafe(RedoStep(pages, records[0]), ChangesOf(records[1..]))
    ensures RedoAll(RedoStep(pages, records[0]), ChangesOf(records[1..])) == RedoAll(pages, ChangesOf(records))
  {
    assert Readable(records[0]);
    hide AllSafe, Readable;
    var c, rest := ChangeOf(records[0]), ChangesOf(records[1..]);
    if c.Some? {
      assert ChangesOf(records)[0] == c.value && ChangesOf(records)[1..] == rest;
      AllSafeNext(pages, ChangesOf(records));
    } else {
      assert ChangesOf(records) == rest;
    }
  }

  lemma {:induction false} NothingLeft(pages: Pages)
    ensures ChangesOf([]) == [] && AllSafe(pages, []) && RedoAll(pages, []) == pages && CountAll(pages, []) == 0
  {
  }

  ghost function CountAll(pages: Pages, records: seq<LogRecord>): nat
    requires AllReadable(records) && AllSafe(pages, ChangesOf(records))
    decreases records
  {
    if records == [] then 0
    else
      RedoStepNext(pages, records);
      Counts(pages, records[0]) + CountAll(RedoStep(pages, records[0]), records[1..])
  }

  lemma {:induction false} CountFirst(pages: Pages, records: seq<LogRecord>)
    requires AllReadable(records) && records != [] && AllSafe(pages, ChangesOf(records))
    ensures Readable(records[0]) && RecordSafe(pages, records[0])
    ensures AllSafe(RedoStep(pages, records[0]), ChangesOf(records[1..]))
    ensures CountAll(pages, records) == Counts(pages, records[0]) + CountAll(RedoStep(pages, records[0]), records[1..])
  {
    RedoStepNext(pages, records);
  }

  lemma CheckpointRecords()
    ensures var b := MakeCheckpointBegin(0);
      Readable(b) && ChangeOf(b) == None && b == LogRecord(21, 0, 5, 0xFFFF_FFFF, 0, 0, [])
    ensures var e := MakeCheckpointEnd(0, []);
      && Readable(e) && ChangeOf(e) == None && e == LogRecord(25, 0, 6, 0xFFFF_FFFF, 0, 4, [0, 0, 0, 0])
      && GetDirtyPageTable(e) == []
  {
    hide GetDirtyPageTable, MakeCheckpointEnd;
    EmptyTable(0);
  }

  /** Neither of the two changes a page or counts, wherever they stand at the end of a log. */
  lemma {:induction false} CheckpointAddsNothing(pages: Pages, records: seq<LogRecord>, b: LogRecord, e: LogRecord)
    requires AllReadable(records) && AllSafe(pages, ChangesOf(records))
    requires Readable(b) && b.kind == 5 && Readable(e) && e.kind == 6
    ensures AllReadable(records + [b, e]) && ChangesOf(records + [b, e]) == ChangesOf(records)
    ensures CountAll(pages, records + [b, e]) == CountAll(pages, records)
    decreases records
  {
    NoCount(pages, b);
    NoCount(pages, e);
    hide Readable, ChangeOf, AllSafe, CountAll, RedoStep, RecordSafe;
    ChangesOfAppend(records, b);
    ChangesOfAppend(records + [b], e);
    assert records + [b, e] == (records + [b]) + [e];
    assert ChangesOf(records + [b, e]) == ChangesOf(records);
    if records == [] {
      assert [b, e][1..] == [e] && [e][1..] == [];
      CountFirst(pages, [b, e]);
      CountFirst(pages, [e]);
      NothingLeft(pages);
    } else {
      CountFirst(pages, records);
      CountFirst(pages, records + [b, e]);
      assert (records + [b, e])[1..] == records[1..] + [b, e];
      CheckpointAddsNothing(RedoStep(pages, records[0]), records[1..], b, e);
    }
  }

  lemma NoCount(pages: Pages, r: LogRecord)
    requires Readable(r) && (r.kind == 5 || r.kind == 6)
    ensures RecordSafe(pages, r) && RedoStep(pages, r) == pages && Counts(pages, r) == 0 && ChangeOf(r).None?
  {
  }

  /** A new page, or a change of a page that can be fetched. */
  predicate Asks(known: set<PageId>, r: LogRecord) {
    r.kind == 4 || (1 <= r.kind <= 3 && r.pageId in known)
  }

  function AskedOf(known: set<PageId>, records: seq<LogRecord>): seq<LogRecord> {
    if records == [] then []
    else (if Asks(known, records[0]) then [records[0]] else []) + AskedOf(known, records[1..])
  }

  /** Pages as they were when the log began, with room for its replay. */
  ghost predicate FromTheStart(pages: Pages, records: seq<LogRecord>)
    requires AllReadable(records)
  {
    && AllTake(pages, ChangesOf(records))
    && forall p :: p in pages ==> WellLogged(pages[p].records, LogOf(ChangesOf(records), p))
  }

  /** From such pages every new page and every change of a known page counts, and nothing else. */
  lemma {:induction false} WholeLogCounts(pages: Pages, records: seq<LogRecord>)
    requires AllReadable(records) && FromTheStart(pages, records)
    ensures AllSafe(pages, ChangesOf(records))
    ensures CountAll(pages, records) == |AskedOf(pages.Keys, records)|
    decreases records
  {
    AllTakeSafe(pages, ChangesOf(records));
    if records == [] {
      NothingLeft(pages);
    } else {
      hide Readable, CountAll, AllSafe;
      CountFirst(pages, records);
      StartNext(pages, records);
      WholeLogCounts(RedoStep(pages, records[0]), records[1..]);
    }
  }

  lemma {:induction false} StartNext(pages: Pages, records: seq<LogRecord>)
    requires AllReadable(records) && records != [] && FromTheStart(pages, records)
    requires RecordSafe(pages, records[0])
    ensures AllReadable(records[1..]) && FromTheStart(RedoStep(pages, records[0]), records[1..])
    ensures RedoStep(pages, records[0]).Keys == pages.Keys
    ensures Counts(pages, records[0]) == if Asks(pages.Keys, records[0]) then 1 else 0
  {
    assert Readable(records[0]);
    var c, rest, next := ChangeOf(records[0]), ChangesOf(records[1..]), RedoStep(pages, records[0]);
    if c.Some? && c.value.pageId in pages {
      var p := c.value.pageId;
      assert ChangesOf(records) == [c.value] + rest && ([c.value] + rest)[1..] == rest;
      var own := LogOf(ChangesOf(records), p);
      assert own[0] == c.value.op && own[1..] == LogOf(rest, p);
      TakenStep(pages[p], c.value.op);
      forall q | q in pages ensures LogOf(ChangesOf(records), q) == if q == p then own else LogOf(rest, q) {
      }
    } else if c.Some? {
      assert ChangesOf(records) == [c.value] + rest && ([c.value] + rest)[1..] == rest;
      forall q | q in pages ensures LogOf(ChangesOf(records), q) == LogOf(rest, q) {
      }
    } else {
      assert ChangesOf(records) == rest;
    }
  }

  /** A change that finds the page as it was logged, and room, does what it did. */
  lemma TakenStep(v: PageView, op: Op)
    requires Logged(v.records, op) && Takes(v, op)
    ensures Safe(v, op) && RedoOne(v, op).records == Step(v.records, op)
    ensures op.Ins? <==> Get(v.records, op.slot).None?
  {
  }

  lemma {:induction false} ReadableParts(records: seq<LogRecord>, k: nat)
    requires AllReadable(records) && k <= |records|
    ensures AllReadable(records[..k]) && AllReadable(records[k..]) && AllWellFormed(records)
  {
  }

  lemma {:induction false} ChangesOfSplit(records: seq<LogRecord>, k: nat)
    requires AllReadable(records) && k <= |records|
    ensures AllReadable(records[..k]) && AllReadable(records[k..])
    ensures ChangesOf(records) == ChangesOf(records[..k]) + ChangesOf(records[k..])
    decreases k
  {
    ReadableParts(records, k);
    if k == 0 {
      assert records[..0] == [] && records[0..] == records;
    } else {
      ReadableParts(records, k - 1);
      ChangesOfSplit(records, k - 1);
      ChangesOfAppend(records[..k - 1], records[k - 1]);
      assert records[..k] == records[..k - 1] + [records[k - 1]];
      assert records[k - 1..][0] == records[k - 1] && records[k - 1..][1..] == records[k..];
      hide Readable, ChangeOf;
      Regroup(ChangesOf(records[..k - 1]), records[k - 1], ChangesOf(records[k..]));
    }
  }

  lemma Regroup(a: seq<Change>, r: LogRecord, b: seq<Change>)
    requires Readable(r)
    ensures var c := if ChangeOf(r).Some? then [ChangeOf(r).value] else []; a + (c + b) == (a + c) + b
  {
  }

  /** The records wholly inside the first n bytes of the log file. */
  function Survivors(records: seq<LogRecord>, n: nat): (s: seq<LogRecord>)
    requires AllReadable(records)
    ensures AllReadable(s)
  {
    ReadableParts(records, WholeCount(records, n));
    records[..WholeCount(records, n)]
  }

  /** The part of the surviving log that concerns page p. */
  function Own(records: seq<LogRecord>, n: nat, p: PageId): seq<Op>
    requires AllReadable(records)
  {
    LogOf(ChangesOf(Survivors(records, n)), p)
  }

  /** What a crash leaves of a run: pages on disk that show prefixes of what survived, with room for its replay. */
  ghost predicate Crashed(records: seq<LogRecord>, n: nat, pages: Pages)
    requires AllReadable(records)
  {
    && AllTake(pages, ChangesOf(Survivors(records, n)))
    && forall p :: p in pages ==>
         WellLogged([], LogOf(ChangesOf(records), p)) && ShowsPrefix(pages[p].records, Own(records, n, p))
  }

  /** Each page has the records that the surviving part of the run gave it. */
  ghost predicate Restored(records: seq<LogRecord>, n: nat, pages: Pages)
    requires AllReadable(records)
  {
    forall p :: p in pages ==>
      WellLogged([], Own(records, n, p)) && Same(pages[p].records, Final([], Own(records, n, p)))
  }

  /** What survives of a page's own part of the log is a prefix of it. */
  lemma {:induction false} SurvivorsWellLogged(records: seq<LogRecord>, n: nat, p: PageId)
    requires AllReadable(records) && WellLogged([], LogOf(ChangesOf(records), p))
    ensures WellLogged([], Own(records, n, p))
  {
    hide ChangesOf, WellLogged, LogOf, Readable;
    ReadableParts(records, 0);
    var k := WholeCount(records, n);
    ChangesOfSplit(records, k);
    var own, lost := ChangesOf(records[..k]), ChangesOf(records[k..]);
    LogOfConcat(own, lost, p);
    assert LogOf(own + lost, p)[..|LogOf(own, p)|] == LogOf(own, p);
    WellLoggedPrefix([], LogOf(ChangesOf(records), p), |LogOf(own, p)|);
  }

  /**
   Crash and recovery from end to end.  The log file is cut at any byte n; each page on disk
   shows a prefix of its own part of the records that survived.  What recovery reads from the
   file and replays leaves every page with the records the surviving log stands for.
   */
  lemma {:induction false} CrashRecovery(records: seq<LogRecord>, n: nat, file: seq<Byte>, pages: Pages)
    requires AllReadable(records) && AllWellFormed(records) && n <= |Concat(records)| && file == Concat(records)[..n]
    requires Crashed(records, n, pages)
    ensures Framed(file) && Parsed(file) == Survivors(records, n)
    ensures var log := ChangesOf(Survivors(records, n));
      AllSafe(pages, log) && Restored(records, n, RedoAll(pages, log))
  {
    TornTail(records, n);
    assert Parsed(file) == Survivors(records, n);
    hide Framed, Parsed, Concat, ChangesOf, Survivors, WellLogged;
    hide Final, Same, ShowsPrefix, LogOf, RedoAll, AllTake, AllSafe;
    hide Readable, WellFormed, WholeCount;
    forall p | p in pages ensures WellLogged([], Own(records, n, p)) {
      SurvivorsWellLogged(records, n, p);
    }
    RecoveryRestoresPages(pages, ChangesOf(Survivors(records, n)));
  }

  // ---------------------------------------------------------------- the recovery manager

  class RecoveryManager {
    const log: LogManager
    /** The pages that can be fetched, each an object of its own. */
    const pages: map<PageId, Page>
    var redoCount: nat

    ghost function PageObjects(): set<object> {
      (set p | p in pages :: pages[p] as object) + (set p | p in pages :: pages[p].data as object)
    }

    ghost predicate Apart() {
      forall p, q :: p in pages && q in pages && p != q ==> pages[p] != pages[q] && pages[p].data != pages[q].data
    }

    ghost predicate Valid()
      reads PageObjects()
    {
      Apart() && forall p :: p in pages ==> pages[p].Valid()
    }

    ghost function Views(): (v: Pages)
      requires Valid()
      reads PageObjects()
      ensures v.Keys == pages.Keys
    {
      map p | p in pages :: pages[p].View()
    }

    constructor (log: LogManager, pages: map<PageId, Page>)
      ensures this.log == log && this.pages == pages && redoCount == 0
    {
      this.log := log;
      this.pages := pages;
      redoCount := 0;
    }

    // -------------------------------------------------------------- logging

    method Append(r: LogRecord) returns (lsn: nat)
      requires log.Valid() && AllReadable(log.records) && Readable(r)
      modifies log, log.buffer
      ensures log.Valid() && AllReadable(log.records) && log.records == old(log.records) + [r]
      ensures lsn == StartOf(log.records, |old(log.records)|)
      ensures ChangesOf(log.records) ==
              old(ChangesOf(log.records)) + if ChangeOf(r).Some? then [ChangeOf(r).value] else []
      ensures lsn == |old(log.Bytes())| && log.Bytes() == old(log.Bytes()) + Serialize(r)
    {
      ghost var before := log.records;
      lsn := log.AppendLogRecord(r);
      ChangesOfAppend(before, r);
      assert log.records[..|before|] == before;
    }

    method LogInsert(pageId: PageId, slotId: U16, data: Payload) returns (lsn: nat)
      requires log.Valid() && AllReadable(log.records)
      modifies log, log.buffer
      ensures log.Valid() && AllReadable(log.records)
      ensures log.records == old(log.records) + [LogRecord(21 + |data|, 0, 1, pageId, slotId, |data|, data)]
      ensures lsn == StartOf(log.records, |old(log.records)|) == |old(log.Bytes())|
      ensures |log.Bytes()| == |old(log.Bytes())| + 21 + |data|
      ensures ChangesOf(log.records) == old(ChangesOf(log.records)) + [Change(pageId, Ins(slotId, data))]
    {
      lsn := Append(MakeInsert(0, pageId, slotId, data));
    }

    method LogDelete(pageId: PageId, slotId: U16, oldData: Payload) returns (lsn: nat)
      requires log.Valid() && AllReadable(log.records)
      modifies log, log.buffer
      ensures log.Valid() && AllReadable(log.records)
      ensures log.records == old(log.records) + [LogRecord(21 + |oldData|, 0, 2, pageId, slotId, |oldData|, oldData)]
      ensures lsn == StartOf(log.records, |old(log.records)|) == |old(log.Bytes())|
      ensures |log.Bytes()| == |old(log.Bytes())| + 21 + |oldData|
      ensures ChangesOf(log.records) == old(ChangesOf(log.records)) + [Change(pageId, Del(slotId))]
    {
      lsn := Append(MakeDelete(0, pageId, slotId, oldData));
    }

    method LogUpdate(pageId: PageId, slotId: U16, oldData: Payload, newData: Payload) returns (lsn: nat)
      requires log.Valid() && AllReadable(log.records) && 4 + |oldData| + |newData| < 0x1_0000
      modifies log, log.buffer
      ensures log.Valid() && AllReadable(log.records)
      ensures log.records == old(log.records) +
              [LogRecord(25 + |oldData| + |newData|, 0, 3, pageId, slotId, 4 + |oldData| + |newData|,
                         Le2(|oldData|) + (oldData + (Le2(|newData|) + newData)))]
      ensures lsn == StartOf(log.records, |old(log.records)|) == |old(log.Bytes())|
      ensures |log.Bytes()| == |old(log.Bytes())| + 25 + |oldData| + |newData|
      ensures ChangesOf(log.records) == old(ChangesOf(log.records)) + [Change(pageId, Upd(slotId, newData))]
    {
      UpdateRoundTrip(0, pageId, slotId, oldData, newData);
      lsn := Append(MakeUpdate(0, pageId, slotId, oldData, newData));
    }

    method LogNewPage(pageId: PageId) returns (lsn: nat)
      requires log.Valid() && AllReadable(log.records)
      modifies log, log.buffer
      ensures log.Valid() && AllReadable(log.records)
      ensures log.records == old(log.records) + [LogRecord(21, 0, 4, pageId, 0, 0, [])]
      ensures lsn == StartOf(log.records, |old(log.records)|) == |old(log.Bytes())|
      ensures |log.Bytes()| == |old(log.Bytes())| + 21
      ensures ChangesOf(log.records) == old(ChangesOf(log.records))
    {
      lsn := Append(MakeNewPage(0, pageId));
    }

    /** The two checkpoint records, the second with no dirty pages, and everything logged so far in the file. */
    method Checkpoint()
      requires log.Valid() && AllReadable(log.records)
      modifies log, log.buffer
      ensures log.Valid() && AllReadable(log.records) && log.file == Concat(log.records)
      ensures log.records == old(log.records) +
              [LogRecord(21, 0, 5, 0xFFFF_FFFF, 0, 0, []), LogRecord(25, 0, 6, 0xFFFF_FFFF, 0, 4, [0, 0, 0, 0])]
      ensures GetDirtyPageTable(log.records[|log.records| - 1]) == []
      ensures ChangesOf(log.records) == old(ChangesOf(log.records))
    {
      hide *;
      CheckpointRecords();
      var begin := Append(MakeCheckpointBegin(0));
      var end := Append(MakeCheckpointEnd(0, []));
      log.Flush();
    }

    // -------------------------------------------------------------- recovery

    /** Replays the whole log, as far as it can be read, on the pages and returns how many records had to be redone. */
    method Recover() returns (count: nat)
      requires Valid() && log.Open() && Separate() && Framed(log.Bytes()) && AllReadable(Parsed(log.Bytes()))
      requires AllSafe(Views(), ChangesOf(Parsed(log.Bytes())))
      modifies this`redoCount, PageObjects(), log`file, log`bufferOffset, log`flushedLsn, log`inFile
      ensures Valid() && log.Open() && log.Bytes() == old(log.Bytes())
      ensures Views() == RedoAll(old(Views()), ChangesOf(Parsed(old(log.Bytes()))))
      ensures count == redoCount == CountAll(old(Views()), Parsed(old(log.Bytes())))
      ensures FromTheStart(old(Views()), Parsed(old(log.Bytes()))) ==>
        count == |AskedOf(pages.Keys, Parsed(old(log.Bytes())))|
      ensures old(log.Valid()) ==> log.Valid() && Parsed(old(log.Bytes())) == log.records
    {
      hide Page.Valid, Page.View, RedoAll, CountAll, AllSafe, ChangesOf, Readable, Framed, Parsed, FromTheStart;
      if FromTheStart(Views(), Parsed(log.Bytes())) {
        WholeLogCounts(Views(), Parsed(log.Bytes()));
      }
      var it := log.Begin();
      count := RecoverFrom(it);
    }

    /**
     Restart after a crash that left the first n bytes of the log file.  Each page ends with the records the original
     run gave it, as far as that run is in the part of the log that survived.
     */
    method RecoverAfterCrash(ghost records: seq<LogRecord>, ghost n: nat) returns (count: nat)
      requires Valid() && log.Open() && Separate() && AllReadable(records) && AllWellFormed(records)
      requires n <= |Concat(records)| && log.Bytes() == Concat(records)[..n]
      requires Crashed(records, n, Views())
      modifies this`redoCount, PageObjects(), log`file, log`bufferOffset, log`flushedLsn, log`inFile
      ensures Valid() && log.Open() && log.Bytes() == old(log.Bytes())
      ensures Restored(records, n, Views())
    {
      hide Page.Valid, Page.View, RedoAll, CountAll, AllSafe, ChangesOf, Framed, Parsed, Concat, Survivors, Crashed;
      hide Restored, Readable, WellFormed, PageObjects;
      CrashRecovery(records, n, log.Bytes(), Views());
      count := Recover();
    }

    /** The log and the pages share no objects. */
    ghost predicate Separate() {
      log !in PageObjects() && log.buffer !in PageObjects() && this !in PageObjects() && (this as object) != log
    }

    method RecoverFrom(it: LogIterator) returns (count: nat)
      requires Valid() && it.Valid() && it !in PageObjects() && this !in PageObjects() && (this as object) != it
      requires AllReadable(it.Rest()) && AllSafe(Views(), ChangesOf(it.Rest()))
      modifies this`redoCount, PageObjects(), it
      ensures Valid()
      ensures Views() == RedoAll(old(Views()), ChangesOf(old(it.Rest())))
      ensures count == redoCount == CountAll(old(Views()), old(it.Rest()))
    {
      hide *;
      redoCount := 0;
      ghost var views, rest := Views(), it.Rest();
      while it.valid
        invariant Valid() && it.Valid() && views == Views() && rest == it.Rest()
        invariant AllReadable(rest) && AllSafe(views, ChangesOf(rest))
        invariant RedoAll(views, ChangesOf(rest)) == RedoAll(old(Views()), ChangesOf(old(it.Rest())))
        invariant redoCount + CountAll(views, rest) == CountAll(old(Views()), old(it.Rest()))
        decreases |rest|
      {
        RedoStepNext(views, rest);
        CountFirst(views, rest);
        RedoNext(it);
        views, rest := RedoStep(views, rest[0]), rest[1..];
      }
      NothingLeft(views);
      count := redoCount;
    }

    method RedoNext(it: LogIterator)
      requires Valid() && it.Valid() && it !in PageObjects() && this !in PageObjects() && (this as object) != it
      requires it.valid && Readable(it.Rest()[0]) && RecordSafe(Views(), it.Rest()[0])
      modifies this`redoCount, PageObjects(), it
      ensures Valid() && it.Valid()
      ensures Views() == RedoStep(old(Views()), old(it.Rest()[0])) && it.Rest() == old(it.Rest())[1..]
      ensures redoCount == old(redoCount) + Counts(old(Views()), old(it.Rest()[0]))
    {
      hide Page.Valid, Page.View, RedoStep, RecordSafe, Counts, Readable, Framed, Parsed, HasRecord;
      RedoRecord(it.current);
      label redone:
      it.Next();
      PagesSame@redone();
    }

    /** No page changed. */
    twostate lemma PagesSame()
      requires old(Valid()) && forall p :: p in pages ==> unchanged(pages[p]) && unchanged(pages[p].data)
      ensures Valid() && Views() == old(Views())
    {
      hide Page.Valid, Page.View;
      forall p | p in pages ensures pages[p].Valid() && pages[p].View() == old(pages[p].View()) {
        assert unchanged(pages[p]) && unchanged(pages[p].data);
      }
    }

    lemma Owned(p: PageId)
      requires p in pages
      ensures pages[p] in PageObjects() && pages[p].data in PageObjects()
    {
    }

    /** Only page p changed. */
    twostate lemma PageChanged(p: PageId)
      requires p in pages && old(Valid()) && pages[p].Valid()
      requires forall q :: q in pages && q != p ==> unchanged(pages[q]) && unchanged(pages[q].data)
      ensures Valid() && Views() == old(Views())[p := pages[p].View()]
    {
      hide Page.Valid, Page.View;
      forall q | q in pages && q != p ensures pages[q].Valid() && pages[q].View() == old(pages[q].View()) {
        assert unchanged(pages[q]) && unchanged(pages[q].data);
      }
    }

    method RedoRecord(r: LogRecord)
      requires Valid() && Readable(r) && RecordSafe(Views(), r) && this !in PageObjects()
      modifies this`redoCount, PageObjects()
      ensures Valid() && Views() == RedoStep(old(Views()), r)
      ensures redoCount == old(redoCount) + Counts(old(Views()), r)
      ensures redoCount == old(redoCount) || redoCount == old(redoCount) + 1
      ensures redoCount == old(redoCount) + 1 <==>
        || r.kind == NEW_PAGE_RECORD
        || (r.pageId in pages && r.kind == INSERT_RECORD && Get(old(Views())[r.pageId].records, r.slotId).None?)
        || (r.pageId in pages && (r.kind == DELETE_RECORD || r.kind == UPDATE_RECORD)
              && Get(old(Views())[r.pageId].records, r.slotId).Some?)
    {
      hide Page.Valid, Page.View, PageObjects, RedoOne, Safe;
      if r.kind == NEW_PAGE_RECORD {
        redoCount := redoCount + 1;
        return;
      }
      var c := ChangeOf(r);
      if c.None? || r.pageId !in pages {
        return;
      }
      Owned(r.pageId);
      var redone := RedoOnPage(pages[r.pageId], c.value.op);
      PageChanged(r.pageId);
      if redone {
        redoCount := redoCount + 1;
      }
    }
  }

  /** Applies a change to its page unless the slot shows that it was applied before. */
  method RedoOnPage(page: Page, op: Op) returns (redone: bool)
    requires page.Valid() || page.Blank()
    requires (page.Valid() ==> Safe(page.View(), op)) && (!op.Del? ==> |op.data| < 0x1_0000)
    modifies page, page.data
    ensures old(page.Valid()) ==> page.Valid() && page.View() == RedoOne(old(page.View()), op)
    ensures old(page.Valid()) ==> (redone <==> (op.Ins? <==> Get(old(page.View()).records, op.slot).None?))
    ensures old(page.Blank()) ==> page.Blank() && (redone <==> op.Ins?)
  {
    hide Page.Valid, Page.View, Page.Blank;
    var existing := page.GetRecord(op.slot);
    redone := false;
    match op
    case Ins(_, data) =>
      // the record goes to whatever slot the page gives it
      if existing.None? {
        var slot := page.InsertRecord(data);
        redone := true;
      }
    case Del(s) =>
      if existing.Some? {
        var ok := page.DeleteRecord(s);
        redone := true;
      }
    case Upd(s, data) =>
      if existing.Some? {
        var ok := page.UpdateRecord(s, data);
        redone := true;
      }
  }

  /**
   A page that was never formatted, as it is read from a file of zeros: redo brings nothing back on it, whatever the
   log says, and yet counts every insert as redone.
   */
  method RedoOnUnformatted(pageId: PageId, log: seq<Op>) returns (page: Page, count: nat)
    requires forall j :: 0 <= j < |log| && !log[j].Del? ==> |log[j].data| < 0x1_0000
    ensures page.Blank()
    ensures count == |InsertsOf(log)|
  {
    page := ReadZeros(pageId);
    count := 0;
    for i := 0 to |log|
      invariant page.Blank() && fresh(page) && fresh(page.data)
      invariant count == |InsertsOf(log[..i])|
    {
      var redone := RedoOnPage(page, log[i]);
      InsertsOfNext(log, i);
      if redone {
        count := count + 1;
      }
    }
    assert log[..|log|] == log;
  }

  function InsertsOf(log: seq<Op>): seq<Op> {
    if log == [] then []
    else InsertsOf(log[..|log| - 1]) + if log[|log| - 1].Ins? then [log[|log| - 1]] else []
  }

  lemma InsertsOfNext(log: seq<Op>, i: nat)
    requires i < |log|
    ensures InsertsOf(log[..i + 1]) == InsertsOf(log[..i]) + if log[i].Ins? then [log[i]] else []
  {
    assert log[..i + 1][..i] == log[..i];
  }
}

/** Log records and their bytes: a 21-byte header that starts with the record's whole size, then a payload. */
module LogRecords {
  import opened Base
  import opened Bytes

  type U64 = x: int | 0 <= x < 0x1_0000_0000_0000_0000
  type Payload = b: seq<Byte> | |b| < 0x1_0000 witness []

  const LOG_HEADER_SIZE := 21

  const INVALID_RECORD: Byte := 0
  const INSERT_RECORD: Byte := 1
  const DELETE_RECORD: Byte := 2
  const UPDATE_RECORD: Byte := 3
  const NEW_PAGE_RECORD: Byte := 4
  const CHECKPOINT_BEGIN_RECORD: Byte := 5
  const CHECKPOINT_END_RECORD: Byte := 6

  datatype LogRecord = LogRecord(totalSize: U32, lsn: U64, kind: Byte, pageId: PageId, slotId: U16,
                                 payloadSize: U16, payload: Payload)

  /** What every factory below makes: the sizes match the payload, and the type is a real one. */
  predicate WellFormed(r: LogRecord) {
    && |r.payload| == r.payloadSize
    && r.totalSize == LOG_HEADER_SIZE + r.payloadSize
    && r.kind != INVALID_RECORD
  }

  // ---------------------------------------------------------------- factories

  function Make(kind: Byte, lsn: U64, pageId: PageId, slotId: U16, payload: Payload): LogRecord {
    LogRecord(LOG_HEADER_SIZE + |payload|, lsn, kind, pageId, slotId, |payload|, payload)
  }

  function MakeInsert(lsn: U64, pageId: PageId, slotId: U16, data: Payload): LogRecord {
    Make(INSERT_RECORD, lsn, pageId, slotId, data)
  }

  function MakeDelete(lsn: U64, pageId: PageId, slotId: U16, oldData: Payload): LogRecord {
    Make(DELETE_RECORD, lsn, pageId, slotId, oldData)
  }

  /** The payload holds both versions, each behind its length; its own size must fit 16 bits. */
  function MakeUpdate(lsn: U64, pageId: PageId, slotId: U16, oldData: Payload, newData: Payload): LogRecord
    requires 4 + |oldData| + |newData| < 0x1_0000
  {
    Make(UPDATE_RECORD, lsn, pageId, slotId, Le2(|oldData|) + (oldData + (Le2(|newData|) + newData)))
  }

  function MakeNewPage(lsn: U64, pageId: PageId): LogRecord {
    Make(NEW_PAGE_RECORD, lsn, pageId, 0, [])
  }

  function MakeCheckpointBegin(lsn: U64): LogRecord {
    Make(CHECKPOINT_BEGIN_RECORD, lsn, INVALID_PAGE_ID, 0, [])
  }

  datatype DirtyPage = DirtyPage(pageId: PageId, lsn: U64)

  function Le8(v: U64): (b: seq<Byte>)
    ensures |b| == 8
  {
    Le4(v % 0x1_0000_0000) + Le4(v / 0x1_0000_0000)
  }

  function Get8(b: seq<Byte>, off: nat): U64 {
    Get4(b, off) + 0x1_0000_0000 * Get4(b, off + 4)
  }

  function TableBytes(dirty: seq<DirtyPage>): (b: seq<Byte>)
    ensures |b| == 12 * |dirty|
  {
    if dirty == [] then [] else Le4(dirty[0].pageId) + (Le8(dirty[0].lsn) + TableBytes(dirty[1..]))
  }

  function MakeCheckpointEnd(lsn: U64, dirty: seq<DirtyPage>): LogRecord
    requires 4 + 12 * |dirty| < 0x1_0000
  {
    Make(CHECKPOINT_END_RECORD, lsn, INVALID_PAGE_ID, 0, Le4(|dirty|) + TableBytes(dirty))
  }

  // ---------------------------------------------------------------- accessors

  /** The two versions of an update, found by their lengths. */
  function GetUpdateOld(r: LogRecord): seq<Byte>
    requires HoldsUpdate(r.payload)
  {
    r.payload[2..2 + Get2(r.payload, 0)]
  }

  function GetUpdateNew(r: LogRecord): seq<Byte>
    requires HoldsUpdate(r.payload)
  {
    var at := 4 + Get2(r.payload, 0);
    r.payload[at..at + Get2(r.payload, at - 2)]
  }

  /** Both lengths in the payload stay inside it. */
  predicate HoldsUpdate(payload: seq<Byte>) {
    var at := 4 + Get2(payload, 0);
    at <= |payload| && at + Get2(payload, at - 2) <= |payload|
  }

  function DecodeTable(b: seq<Byte>, off: nat, n: nat): (s: seq<DirtyPage>)
    ensures |s| == n
    decreases n
  {
    if n == 0 then [] else [DirtyPage(Get4(b, off), Get8(b, off + 4))] + DecodeTable(b, off + 12, n - 1)
  }

  function GetDirtyPageTable(r: LogRecord): seq<DirtyPage> {
    if r.payload == [] then [] else DecodeTable(r.payload, 4, Get4(r.payload, 0))
  }

  // ---------------------------------------------------------------- bytes

  function HeaderBytes(r: LogRecord): (b: seq<Byte>)
    ensures |b| == LOG_HEADER_SIZE
  {
    Le4(r.totalSize) + (Le8(r.lsn) + ([r.kind] + (Le4(r.pageId) + (Le2(r.slotId) + Le2(r.payloadSize)))))
  }

  function Serialize(r: LogRecord): (b: seq<Byte>)
    requires WellFormed(r)
    ensures |b| == r.totalSize
  {
    HeaderBytes(r) + r.payload
  }

  /** Reads a record from a buffer that holds at least its header; a payload that would not fit is left empty. */
  function Deserialize(b: seq<Byte>): LogRecord
    requires LOG_HEADER_SIZE <= |b|
  {
    var size := Get2(b, 19);
    LogRecord(Get4(b, 0), Get8(b, 4), Get1(b, 12), Get4(b, 13), Get2(b, 17), size,
              if LOG_HEADER_SIZE + size <= |b| then b[LOG_HEADER_SIZE..LOG_HEADER_SIZE + size] else [])
  }

  // ---------------------------------------------------------------- round trips

  lemma Get8Le8(b: seq<Byte>, off: nat, v: U64)
    requires Holds(b, off, Le8(v))
    ensures Get8(b, off) == v
  {
    hide Holds, Get4, Le4;
    HoldsPart(b, off, Le4(v % 0x1_0000_0000), Le4(v / 0x1_0000_0000));
    Get4Le4(b, off, v % 0x1_0000_0000);
    Get4Le4(b, off + 4, v / 0x1_0000_0000);
  }

  lemma DecodeHeaderBytes(b: seq<Byte>, r: LogRecord)
    requires Holds(b, 0, HeaderBytes(r))
    ensures Get4(b, 0) == r.totalSize && Get8(b, 4) == r.lsn && Get1(b, 12) == r.kind
    ensures Get4(b, 13) == r.pageId && Get2(b, 17) == r.slotId && Get2(b, 19) == r.payloadSize
  {
    hide Get4, Get2, Get8, Le4, Le2, Le8;
    var f5 := Le2(r.slotId) + Le2(r.payloadSize);
    var f4 := Le4(r.pageId) + f5;
    var f3 := [r.kind] + f4;
    var f2 := Le8(r.lsn) + f3;
    HoldsPart(b, 0, Le4(r.totalSize), f2);
    HoldsPart(b, 4, Le8(r.lsn), f3);
    HoldsPart(b, 12, [r.kind], f4);
    HoldsPart(b, 13, Le4(r.pageId), f5);
    HoldsPart(b, 17, Le2(r.slotId), Le2(r.payloadSize));
    Get4Le4(b, 0, r.totalSize);
    Get8Le8(b, 4, r.lsn);
    assert b[12..13][0] == b[12];
    Get4Le4(b, 13, r.pageId);
    Get2Le2(b, 17, r.slotId);
    Get2Le2(b, 19, r.payloadSize);
  }

  lemma DeserializeSerialize(r: LogRecord)
    requires WellFormed(r)
    ensures Deserialize(Serialize(r)) == r
  {
  }

  /** The records of an insert, a delete and a new page, as they are made and as they are read back. */
  lemma RecordsReadBack(lsn: U64, pageId: PageId, slotId: U16, data: Payload)
    ensures Deserialize(Serialize(MakeInsert(lsn, pageId, slotId, data))) ==
            LogRecord(21 + |data|, lsn, 1, pageId, slotId, |data|, data)
    ensures Deserialize(Serialize(MakeDelete(lsn, pageId, slotId, data))) ==
            LogRecord(21 + |data|, lsn, 2, pageId, slotId, |data|, data)
    ensures Deserialize(Serialize(MakeNewPage(lsn, pageId))) == LogRecord(21, lsn, 4, pageId, 0, 0, [])
    ensures Deserialize(Serialize(MakeCheckpointBegin(lsn))) == LogRecord(21, lsn, 5, 0xFFFF_FFFF, 0, 0, [])
  {
    hide Serialize, Deserialize;
    DeserializeSerialize(MakeInsert(lsn, pageId, slotId, data));
    DeserializeSerialize(MakeDelete(lsn, pageId, slotId, data));
    DeserializeSerialize(MakeNewPage(lsn, pageId));
    DeserializeSerialize(MakeCheckpointBegin(lsn));
  }

  /** The header's fields lie at fixed bytes of a record, and its payload behind them. */
  lemma RecordBytes(r: LogRecord)
    requires WellFormed(r)
    ensures var b := Serialize(r);
      && |b| == 21 + |r.payload| && b[21..] == r.payload && b[12] == r.kind
      && Get4(b, 0) == |b| && Get8(b, 4) == r.lsn && Get4(b, 13) == r.pageId
      && Get2(b, 17) == r.slotId && Get2(b, 19) == |r.payload|
  {
    hide Get4, Get2, Get8, HeaderBytes;
    DecodeHeaderBytes(Serialize(r), r);
  }

  /** Both versions of an update come back from the payload as they went in, each behind two bytes for its length. */
  lemma UpdateRoundTrip(lsn: U64, pageId: PageId, slotId: U16, oldData: Payload, newData: Payload)
    requires 4 + |oldData| + |newData| < 0x1_0000
    ensures var r := MakeUpdate(lsn, pageId, slotId, oldData, newData);
            && WellFormed(r) && HoldsUpdate(r.payload)
            && GetUpdateOld(r) == oldData && GetUpdateNew(r) == newData
            && r.kind == 3 && r.lsn == lsn && r.pageId == pageId && r.slotId == slotId
            && r.totalSize == 25 + |oldData| + |newData|
            && r.payload == Le2(|oldData|) + (oldData + (Le2(|newData|) + newData))
  {
  }

  lemma {:induction false} DecodeTableBytes(b: seq<Byte>, off: nat, dirty: seq<DirtyPage>)
    requires Holds(b, off, TableBytes(dirty))
    ensures DecodeTable(b, off, |dirty|) == dirty
    decreases dirty
  {
    hide Holds, Get4, Get8, Le4, Le8;
    if dirty != [] {
      var d, rest := dirty[0], dirty[1..];
      HoldsPart(b, off, Le4(d.pageId), Le8(d.lsn) + TableBytes(rest));
      HoldsPart(b, off + 4, Le8(d.lsn), TableBytes(rest));
      Get4Le4(b, off, d.pageId);
      Get8Le8(b, off + 4, d.lsn);
      DecodeTableBytes(b, off + 12, rest);
    }
  }

  lemma {:induction false} TableAt(b: seq<Byte>, off: nat, n: nat, i: nat)
    requires i < n
    ensures DecodeTable(b, off, n)[i] == DirtyPage(Get4(b, off + 12 * i), Get8(b, off + 12 * i + 4))
    decreases n
  {
    hide Get4, Get8;
    if i > 0 {
      TableAt(b, off + 12, n - 1, i - 1);
    }
  }

  lemma DirtyPageTableRoundTrip(lsn: U64, dirty: seq<DirtyPage>)
    requires 4 + 12 * |dirty| < 0x1_0000
    ensures var r := MakeCheckpointEnd(lsn, dirty);
            && WellFormed(r) && GetDirtyPageTable(r) == dirty
            && r.kind == 6 && r.lsn == lsn && r.pageId == 0xFFFF_FFFF && r.slotId == 0
            && r.totalSize == 25 + 12 * |dirty| && Get4(r.payload, 0) == |dirty|
            && forall i :: 0 <= i < |dirty| ==>
                 Get4(r.payload, 4 + 12 * i) == dirty[i].pageId && Get8(r.payload, 8 + 12 * i) == dirty[i].lsn
  {
    hide Get4, Get8, Le4, DecodeTable, TableBytes;
    var r := MakeCheckpointEnd(lsn, dirty);
    var p := r.payload;
    assert p[0..|p|] == Le4(|dirty|) + TableBytes(dirty);
    HoldsPart(p, 0, Le4(|dirty|), TableBytes(dirty));
    Get4Le4(p, 0, |dirty|);
    DecodeTableBytes(p, 4, dirty);
    forall i | 0 <= i < |dirty|
      ensures Get4(p, 4 + 12 * i) == dirty[i].pageId && Get8(p, 8 + 12 * i) == dirty[i].lsn
    {
      TableAt(p, 4, |dirty|, i);
    }
  }

  /** The record a checkpoint ends with names no dirty page. */
  lemma {:induction false} EmptyTable(lsn: U64)
    ensures MakeCheckpointEnd(lsn, []) == LogRecord(25, lsn, 6, 0xFFFF_FFFF, 0, 4, [0, 0, 0, 0])
    ensures GetDirtyPageTable(MakeCheckpointEnd(lsn, [])) == []
  {
    hide GetDirtyPageTable;
    DirtyPageTableRoundTrip(lsn, []);
    assert Le4(0) == [0, 0, 0, 0];
  }
}

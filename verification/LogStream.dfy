/** The log file as a sequence of records back to back, and what a sequential reader makes of any file. */
module LogStream {
  import opened Base
  import opened Bytes
  import opened LogRecords

  predicate AllWellFormed(records: seq<LogRecord>) {
    forall i :: 0 <= i < |records| ==> WellFormed(records[i])
  }

  function Concat(records: seq<LogRecord>): seq<Byte>
    requires AllWellFormed(records)
  {
    if records == [] then [] else Serialize(records[0]) + Concat(records[1..])
  }

  lemma {:induction false} ConcatAppend(a: seq<LogRecord>, b: seq<LogRecord>)
    requires AllWellFormed(a) && AllWellFormed(b)
    ensures AllWellFormed(a + b) && Concat(a + b) == Concat(a) + Concat(b)
    decreases a
  {
    if a == [] {
      assert a + b == b;
    } else {
      hide Serialize;
      assert (a + b)[1..] == a[1..] + b;
      ConcatAppend(a[1..], b);
      var x, y, z := Serialize(a[0]), Concat(a[1..]), Concat(b);
      assert x + (y + z) == (x + y) + z;
    }
  }

  lemma ConcatOne(r: LogRecord)
    requires WellFormed(r)
    ensures AllWellFormed([r]) && Concat([r]) == Serialize(r)
  {
  }

  /** Where record k starts. */
  function StartOf(records: seq<LogRecord>, k: nat): nat
    requires AllWellFormed(records) && k <= |records|
  {
    |Concat(records[..k])|
  }

  lemma {:induction false} ConcatSplit(records: seq<LogRecord>, k: nat)
    requires AllWellFormed(records) && k <= |records|
    ensures Concat(records) == Concat(records[..k]) + Concat(records[k..])
    ensures StartOf(records, k) <= |Concat(records)| && Concat(records)[StartOf(records, k)..] == Concat(records[k..])
  {
    assert records == records[..k] + records[k..];
    ConcatAppend(records[..k], records[k..]);
  }

  lemma HoldsMiddle(s: seq<Byte>, a: seq<Byte>, b: seq<Byte>, c: seq<Byte>)
    requires s == (a + b) + c
    ensures Holds(s, |a|, b)
  {
  }

  /** Record k stands in the stream at its start, and the next one starts behind it. */
  lemma {:induction false} RecordStands(records: seq<LogRecord>, k: nat)
    requires AllWellFormed(records) && k < |records|
    ensures StartOf(records, k + 1) == StartOf(records, k) + records[k].totalSize <= |Concat(records)|
    ensures Holds(Concat(records), StartOf(records, k), Serialize(records[k]))
  {
    var before, r := records[..k], records[k];
    assert records[..k + 1] == before + [r];
    ConcatOne(r);
    ConcatAppend(before, [r]);
    ConcatSplit(records, k + 1);
    hide Concat, Serialize, Holds;
    HoldsMiddle(Concat(records), Concat(before), Serialize(r), Concat(records[k + 1..]));
  }

  // ---------------------------------------------------------------- reading

  /** The size field of the record at the front; 0 if fewer than four bytes are left. */
  function FrontSize(file: seq<Byte>): nat {
    if |file| < 4 then 0 else Get4(file, 0)
  }

  /** A whole record of a real type is at the front. */
  predicate HasRecord(file: seq<Byte>)
    requires Framed(file)
  {
    && 0 < FrontSize(file) <= |file|
    && Deserialize(file[..FrontSize(file)]).kind != INVALID_RECORD
  }

  /** No record that a reader meets claims to be shorter than a header. */
  predicate Framed(file: seq<Byte>)
    decreases |file|
  {
    var size := FrontSize(file);
    0 < size <= |file| ==> LOG_HEADER_SIZE <= size && Framed(file[size..])
  }

  /** What the reader yields: records from the front, until one is cut short or is not a record. */
  function Parsed(file: seq<Byte>): (s: seq<LogRecord>)
    requires Framed(file)
    ensures HasRecord(file) <==> s != []
    decreases |file|
  {
    if !HasRecord(file) then []
    else [Deserialize(file[..FrontSize(file)])] + Parsed(file[FrontSize(file)..])
  }

  /** How many records lie wholly within the first n bytes. */
  function WholeCount(records: seq<LogRecord>, n: nat): (k: nat)
    requires AllWellFormed(records)
    ensures k <= |records|
    decreases records
  {
    if records == [] || n < records[0].totalSize then 0
    else 1 + WholeCount(records[1..], n - records[0].totalSize)
  }

  lemma StartShift(records: seq<LogRecord>, k: nat)
    requires AllWellFormed(records) && k < |records|
    ensures StartOf(records, k + 1) == records[0].totalSize + StartOf(records[1..], k)
  {
    assert records[..k + 1][1..] == records[1..][..k];
  }

  /** The count is what its name says. */
  lemma {:induction false} WholeCountIs(records: seq<LogRecord>, n: nat)
    requires AllWellFormed(records)
    ensures StartOf(records, WholeCount(records, n)) <= n
    ensures WholeCount(records, n) < |records| ==> n < StartOf(records, WholeCount(records, n) + 1)
    decreases records
  {
    if records != [] && n >= records[0].totalSize {
      var rest := records[1..];
      WholeCountIs(rest, n - records[0].totalSize);
      var k := WholeCount(rest, n - records[0].totalSize);
      hide WholeCount;
      StartShift(records, k);
      if k < |rest| {
        StartShift(records, k + 1);
      }
    } else if records != [] {
      StartShift(records, 0);
    }
  }

  lemma FrontOf(r: LogRecord, tail: seq<Byte>)
    requires WellFormed(r)
    ensures FrontSize(Serialize(r) + tail) == r.totalSize
    ensures (Serialize(r) + tail)[..r.totalSize] == Serialize(r) && (Serialize(r) + tail)[r.totalSize..] == tail
  {
  }

  /** Cut inside its first record, the stream yields nothing. */
  lemma TornFirst(r: LogRecord, tail: seq<Byte>, n: nat)
    requires WellFormed(r) && n < r.totalSize <= |Serialize(r) + tail|
    ensures var file := (Serialize(r) + tail)[..n]; Framed(file) && Parsed(file) == []
  {
  }

  /** A whole record at the front is what the reader yields first. */
  lemma {:induction false} ParsedFirst(r: LogRecord, tail: seq<Byte>)
    requires WellFormed(r) && Framed(tail)
    ensures Framed(Serialize(r) + tail) && Parsed(Serialize(r) + tail) == [r] + Parsed(tail)
  {
    FrontOf(r, tail);
    DeserializeSerialize(r);
    hide Serialize, Deserialize, FrontSize;
    assert Framed(Serialize(r) + tail);
    assert HasRecord(Serialize(r) + tail);
  }

  /**
   Torn tail: whatever byte the stream is cut at, the reader yields exactly the records
   that are wholly inside the cut, in order.
   */
  lemma {:induction false} TornTail(records: seq<LogRecord>, n: nat)
    requires AllWellFormed(records) && n <= |Concat(records)|
    ensures Framed(Concat(records)[..n])
    ensures Parsed(Concat(records)[..n]) == records[..WholeCount(records, n)]
    decreases records
  {
    hide Framed, Parsed, Serialize, Deserialize;
    if records == [] {
      EmptyStream();
    } else if n < records[0].totalSize {
      TornFirst(records[0], Concat(records[1..]), n);
    } else {
      var r, rest, m := records[0], records[1..], n - records[0].totalSize;
      TornTail(rest, m);
      ParsedFirst(r, Concat(rest)[..m]);
      CutBehind(Serialize(r), Concat(rest), n);
      TakeFirst(records, WholeCount(rest, m));
    }
  }

  lemma EmptyStream()
    ensures Framed([]) && Parsed([]) == []
  {
  }

  lemma CutBehind(a: seq<Byte>, b: seq<Byte>, n: nat)
    requires |a| <= n <= |a + b|
    ensures (a + b)[..n] == a + b[..n - |a|]
  {
  }

  lemma TakeFirst(records: seq<LogRecord>, k: nat)
    requires k < |records|
    ensures [records[0]] + records[1..][..k] == records[..k + 1]
  {
  }

  lemma {:induction false} WholeCountAll(records: seq<LogRecord>)
    requires AllWellFormed(records)
    ensures WholeCount(records, |Concat(records)|) == |records|
    decreases records
  {
    if records != [] {
      WholeCountAll(records[1..]);
    }
  }

  /** An uncut log is read back completely; from where record k starts, the reader yields the rest. */
  lemma {:induction false} ReadsBack(records: seq<LogRecord>, k: nat)
    requires AllWellFormed(records) && k <= |records|
    ensures StartOf(records, k) <= |Concat(records)|
    ensures var rest := Concat(records)[StartOf(records, k)..]; Framed(rest) && Parsed(rest) == records[k..]
  {
    ConcatSplit(records, k);
    var rest := records[k..];
    TornTail(rest, |Concat(rest)|);
    WholeCountAll(rest);
    assert Concat(rest)[..|Concat(rest)|] == Concat(rest) && rest[..|rest|] == rest;
  }

  // ---------------------------------------------------------------- behind a torn record

  /** What a reader makes of any bytes behind whole records. */
  lemma {:induction false} ParsedBehind(rs: seq<LogRecord>, tail: seq<Byte>)
    requires AllWellFormed(rs) && Framed(tail)
    ensures Framed(Concat(rs) + tail) && Parsed(Concat(rs) + tail) == rs + Parsed(tail)
    decreases rs
  {
    hide Framed, Parsed, Serialize;
    if rs == [] {
      assert [] + tail == tail;
    } else {
      var r, rest := rs[0], rs[1..];
      ParsedBehind(rest, tail);
      ParsedFirst(r, Concat(rest) + tail);
      assert Concat(rs) + tail == Serialize(r) + (Concat(rest) + tail);
      assert rs + Parsed(tail) == [r] + (rest + Parsed(tail));
    }
  }

  /** A size field that reaches past the end: nothing is read. */
  lemma {:induction false} TooShort(file: seq<Byte>, size: nat)
    requires FrontSize(file) == size > |file|
    ensures Framed(file) && Parsed(file) == []
  {
  }

  lemma TornFront(r: LogRecord, n: nat, more: seq<Byte>)
    requires WellFormed(r) && 4 <= n < r.totalSize
    ensures FrontSize(Serialize(r)[..n] + more) == r.totalSize
  {
  }

  /** Whatever follows a torn record is hidden while it does not fill the gap. */
  lemma {:induction false} TornRecordHides(rs: seq<LogRecord>, r: LogRecord, n: nat, more: seq<Byte>)
    requires AllWellFormed(rs) && WellFormed(r) && 4 <= n && n + |more| < r.totalSize
    ensures var file := Concat(rs) + (Serialize(r)[..n] + more); Framed(file) && Parsed(file) == rs
  {
    hide Framed, Parsed, Serialize, FrontSize;
    TornFront(r, n, more);
    TooShort(Serialize(r)[..n] + more, r.totalSize);
    ParsedBehind(rs, Serialize(r)[..n] + more);
  }

  /** The record that is read once the gap is filled: what was written of r, and then other bytes. */
  function Garbled(r: LogRecord, n: nat, more: seq<Byte>): LogRecord
    requires WellFormed(r) && n <= r.totalSize <= n + |more|
  {
    Deserialize(Serialize(r)[..n] + more[..r.totalSize - n])
  }

  /** Once the gap is filled, one garbled record is read instead of those that filled it. */
  lemma {:induction false} FilledGapGarbles(rs: seq<LogRecord>, r: LogRecord, n: nat, more: seq<Byte>)
    requires AllWellFormed(rs) && WellFormed(r) && 4 <= n < r.totalSize <= n + |more|
    requires Framed(more[r.totalSize - n..])
    ensures Framed(Concat(rs) + (Serialize(r)[..n] + more))
    ensures Parsed(Concat(rs) + (Serialize(r)[..n] + more)) == rs +
      if Garbled(r, n, more).kind == INVALID_RECORD then []
      else [Garbled(r, n, more)] + Parsed(more[r.totalSize - n..])
  {
    hide Serialize, Deserialize;
    var gap := r.totalSize - n;
    var tail := Serialize(r)[..n] + more;
    TornFront(r, n, more);
    assert tail[..r.totalSize] == Serialize(r)[..n] + more[..gap];
    assert tail[r.totalSize..] == more[gap..];
    hide FrontSize;
    assert Framed(tail);
    ParsedBehind(rs, tail);
  }

  /** If the header of r was written, it is taken for r with part of its payload overwritten. */
  lemma GarbledPayload(r: LogRecord, n: nat, more: seq<Byte>)
    requires WellFormed(r) && LOG_HEADER_SIZE <= n <= r.totalSize <= n + |more|
    ensures Garbled(r, n, more) == r.(payload := r.payload[..n - LOG_HEADER_SIZE] + more[..r.totalSize - n])
  {
    hide Get4, Get2, Get8, Le4, Le2, Le8, HeaderBytes;
    var gap := r.totalSize - n;
    var b := Serialize(r)[..n] + more[..gap];
    assert b[..LOG_HEADER_SIZE] == HeaderBytes(r);
    assert b[LOG_HEADER_SIZE..] == r.payload[..n - LOG_HEADER_SIZE] + more[..gap];
    assert b[0..LOG_HEADER_SIZE] == b[..LOG_HEADER_SIZE];
    DecodeHeaderBytes(b, r);
    assert b[LOG_HEADER_SIZE..LOG_HEADER_SIZE + r.payloadSize] == b[LOG_HEADER_SIZE..];
  }
}

/** The write-ahead log: appends through a 64 KB buffer, and reading the file back. */
module LogManagement {
  import opened Base
  import opened Bytes
  import opened LogRecords
  import opened LogStream

  const LOG_BUFFER_SIZE := 0x1_0000

  /** pwrite: writes inside the file or extends it. */
  function PWrite(file: seq<Byte>, off: nat, bytes: seq<Byte>): (r: seq<Byte>)
    requires off <= |file|
    ensures |r| == if off + |bytes| <= |file| then |file| else off + |bytes|
    ensures Holds(r, off, bytes) && r[..off] == file[..off]
  {
    if off + |bytes| <= |file| then WriteAt(file, off, bytes) else file[..off] + bytes
  }

  class LogManager {
    var file: seq<Byte>
    const buffer: array<Byte>
    var bufferOffset: nat
    var nextLsn: nat
    var flushedLsn: nat
    /** All records of the log, and how many of them are wholly in the file. */
    ghost var records: seq<LogRecord>
    ghost var inFile: nat

    /** The file and what the buffer still holds behind it. */
    ghost function Bytes(): seq<Byte>
      requires bufferOffset <= buffer.Length
      reads this, buffer
    {
      file + buffer[..bufferOffset]
    }

    /** The state of any open log, whatever its file holds. */
    ghost predicate Open()
      reads this, buffer
    {
      && buffer.Length == LOG_BUFFER_SIZE
      && bufferOffset <= LOG_BUFFER_SIZE
      && flushedLsn == |file|
      && nextLsn == flushedLsn + bufferOffset
    }

    /** A log of whole records. */
    ghost predicate Valid()
      reads this, buffer
    {
      && Open()
      && AllWellFormed(records)
      && Bytes() == Concat(records)
      && inFile <= |records|
      && |file| == StartOf(records, inFile)
    }

    /** Opens a file; if it holds whole records, these are the log. */
    constructor (content: seq<Byte>, ghost held: seq<LogRecord>)
      ensures Open() && fresh(buffer) && Bytes() == file == content && bufferOffset == 0
      ensures records == held && inFile == |held|
      ensures AllWellFormed(held) && content == Concat(held) ==> Valid()
    {
      file := content;
      buffer := new Byte[LOG_BUFFER_SIZE](_ => 0);
      bufferOffset := 0;
      nextLsn := |content|;
      flushedLsn := |content|;
      records := held;
      inFile := |held|;
      new;
      assert held[..|held|] == held;
      assert file + buffer[..0] == file;
    }

    /** Appends a record and returns the byte offset where it stands, in the buffer or the file. */
    method AppendLogRecord(r: LogRecord) returns (lsn: nat)
      requires Open() && WellFormed(r)
      modifies this, buffer
      ensures Open() && Bytes() == old(Bytes()) + Serialize(r) && lsn == |old(Bytes())| && old(file) <= file
      ensures records == old(records) + [r]
      ensures old(Valid()) ==> Valid() && lsn == StartOf(records, |old(records)|) && old(inFile) <= inFile
      // the buffer is written out only when the record does not fit behind what it holds
      ensures file == if |old(Bytes())| - |old(file)| + r.totalSize <= 0x1_0000 then old(file)
                      else if r.totalSize <= 0x1_0000 then old(Bytes()) else Bytes()
    {
      var bytes := Serialize(r);
      var size := |bytes|;
      lsn := nextLsn;
      if bufferOffset + size > LOG_BUFFER_SIZE {
        FlushBuffer();
      }
      if size > LOG_BUFFER_SIZE {
        WriteThrough(r, bytes);
      } else {
        WriteToBuffer(r, bytes);
      }
      assert records[..|old(records)|] == old(records);
    }

    /** A record too long for the buffer goes to the file at once. */
    method WriteThrough(r: LogRecord, bytes: seq<Byte>)
      requires Open() && WellFormed(r) && bytes == Serialize(r) && bufferOffset == 0
      modifies this`file, this`nextLsn, this`flushedLsn, this`records, this`inFile
      ensures Open() && Bytes() == old(Bytes()) + bytes && file == old(file) + bytes && records == old(records) + [r]
      ensures old(Valid()) ==> Valid() && inFile == |records|
    {
      hide Concat, Serialize;
      assert file + buffer[..0] == file;
      file := PWrite(file, nextLsn, bytes);
      nextLsn := nextLsn + |bytes|;
      flushedLsn := nextLsn;
      records := records + [r];
      inFile := |records|;
      assert file + buffer[..0] == file;
      assert records[..|records|] == records;
      if old(Valid()) {
        AppendsTo(old(records), r);
      }
    }

    method WriteToBuffer(r: LogRecord, bytes: seq<Byte>)
      requires Open() && WellFormed(r) && bytes == Serialize(r) && bufferOffset + |bytes| <= LOG_BUFFER_SIZE
      modifies this`bufferOffset, this`nextLsn, this`records, buffer
      ensures Open() && Bytes() == old(Bytes()) + bytes && records == old(records) + [r]
      ensures old(Valid()) ==> Valid()
    {
      hide Concat, Serialize;
      ghost var held := buffer[..bufferOffset];
      CopyIn(bytes);
      assert file + (held + bytes) == (file + held) + bytes;
      bufferOffset := bufferOffset + |bytes|;
      nextLsn := nextLsn + |bytes|;
      records := records + [r];
      if old(Valid()) {
        AppendsTo(old(records), r);
        assert old(records)[..inFile] == records[..inFile];
      }
    }

    /** memcpy behind what the buffer holds. */
    method CopyIn(bytes: seq<Byte>)
      requires bufferOffset + |bytes| <= buffer.Length
      modifies buffer
      ensures buffer[..bufferOffset + |bytes|] == old(buffer[..bufferOffset]) + bytes
    {
      for k := 0 to |bytes|
        invariant buffer[..bufferOffset + k] == old(buffer[..bufferOffset]) + bytes[..k]
      {
        buffer[bufferOffset + k] := bytes[k];
        assert buffer[..bufferOffset + k + 1] == buffer[..bufferOffset + k] + [bytes[k]];
        assert bytes[..k + 1] == bytes[..k] + [bytes[k]];
      }
      assert bytes[..|bytes|] == bytes;
    }

    method FlushBuffer()
      requires Open()
      modifies this`file, this`bufferOffset, this`flushedLsn, this`inFile
      ensures Open() && bufferOffset == 0 && file == Bytes() == old(Bytes()) && old(file) <= file
      ensures old(Valid()) ==> Valid() && inFile == |records|
    {
      assert records[..|records|] == records;
      inFile := |records|;
      if bufferOffset == 0 {
        assert file + buffer[..0] == file;
        return;
      }
      file := PWrite(file, flushedLsn, buffer[..bufferOffset]);
      flushedLsn := flushedLsn + bufferOffset;
      bufferOffset := 0;
      assert file + buffer[..0] == file;
    }

    /** Writes everything out, so the file holds the whole log. */
    method Flush()
      requires Open()
      modifies this`file, this`bufferOffset, this`flushedLsn, this`inFile
      ensures Open() && bufferOffset == 0 && file == Bytes() == old(Bytes()) && old(file) <= file
      ensures old(Valid()) ==> Valid() && inFile == |records|
    {
      FlushBuffer();
    }

    /** Afterwards every byte up to lsn, and every record that starts there or before, is in the file. */
    method FlushUpTo(lsn: nat)
      requires Open()
      modifies this`file, this`bufferOffset, this`flushedLsn, this`inFile
      ensures Open() && Bytes() == old(Bytes()) && old(file) <= file
      ensures file == if lsn < old(flushedLsn) then old(file) else Bytes()
      ensures old(Valid()) ==>
        && Valid() && old(inFile) <= inFile
        && forall k :: 0 <= k < |records| && StartOf(records, k) <= lsn ==> k < inFile
    {
      assert bufferOffset == 0 ==> file + buffer[..0] == file;
      if lsn >= flushedLsn && bufferOffset > 0 {
        FlushBuffer();
      } else if old(Valid()) {
        forall k | 0 <= k < |records| && StartOf(records, k) <= lsn ensures k < inFile {
          if inFile <= k {
            StartsGrow(records, inFile, k);
            RecordStands(records, k);
          }
        }
      }
    }

    // -------------------------------------------------------------- reading

    /** Reading any log from its start yields the whole records in front of the first torn one. */
    method Begin() returns (it: LogIterator)
      requires Open() && Framed(Bytes())
      modifies this`file, this`bufferOffset, this`flushedLsn, this`inFile
      ensures Open() && file == Bytes() == old(Bytes()) && fresh(it) && it.Valid() && it.Rest() == Parsed(Bytes())
      ensures old(Valid()) ==> Valid() && it.Rest() == records
    {
      hide Framed, Parsed, Concat;
      Flush();
      if old(Valid()) {
        WholeLog(records);
      }
      it := new LogIterator(file, 0);
      assert file[0..] == file;
    }

    /** Reading from a returned LSN yields the record appended there and all later ones. */
    method BeginAt(startLsn: nat) returns (it: LogIterator)
      requires Open() && Framed(From(Bytes(), startLsn))
      modifies this`file, this`bufferOffset, this`flushedLsn, this`inFile
      ensures Open() && file == Bytes() == old(Bytes()) && fresh(it) && it.Valid()
      ensures it.Rest() == Parsed(From(Bytes(), startLsn))
      ensures old(Valid()) ==>
        Valid() && forall k: nat :: k <= |records| && startLsn == StartOf(records, k) ==> it.Rest() == records[k..]
    {
      hide Framed, Parsed, Concat;
      Flush();
      it := new LogIterator(file, startLsn);
      if old(Valid()) {
        forall k: nat | k <= |records| && startLsn == StartOf(records, k) ensures it.Rest() == records[k..] {
          ReadsBack(records, k);
        }
      }
    }
  }

  /** What lies from an offset on; nothing behind the end. */
  function From(file: seq<Byte>, offset: nat): seq<Byte> {
    if offset <= |file| then file[offset..] else []
  }

  lemma {:induction false} WholeLog(records: seq<LogRecord>)
    requires AllWellFormed(records)
    ensures Framed(Concat(records)) && Parsed(Concat(records)) == records
  {
    ReadsBack(records, 0);
    assert records[..0] == [] && records[0..] == records && Concat(records)[0..] == Concat(records);
  }

  /**
   A log file whose last record was torn, opened again: what is appended is not read back while it does not fill the
   gap, though each append returns an LSN.
   */
  method AppendBehindTear(content: seq<Byte>, more: seq<LogRecord>, ghost rs: seq<LogRecord>, ghost r: LogRecord,
                          ghost n: nat)
    returns (log: LogManager, it: LogIterator)
    requires AllWellFormed(rs) && WellFormed(r) && AllWellFormed(more) && 4 <= n && n + |Concat(more)| < r.totalSize
    requires content == Concat(rs) + Serialize(r)[..n]
    ensures fresh(log) && log.Open() && log.file == content + Concat(more)
    ensures fresh(it) && it.Valid() && it.Rest() == rs
  {
    hide Concat, Serialize, Framed, Parsed;
    log := new LogManager(content, []);
    AppendNothing(content, more);
    for i := 0 to |more|
      invariant fresh(log) && fresh(log.buffer) && log.Open()
      invariant log.Bytes() == content + Concat(more[..i])
    {
      var lsn := log.AppendLogRecord(more[i]);
      AppendsTo(more[..i], more[i]);
      assert more[..i + 1] == more[..i] + [more[i]];
    }
    assert more[..|more|] == more;
    TornRecordHides(rs, r, n, Concat(more));
    assert content + Concat(more) == Concat(rs) + (Serialize(r)[..n] + Concat(more));
    it := log.Begin();
  }

  lemma {:induction false} AppendNothing(content: seq<Byte>, more: seq<LogRecord>)
    ensures AllWellFormed(more[..0]) && content + Concat(more[..0]) == content
  {
    assert more[..0] == [];
  }

  /** A cursor over the log file as it was when the cursor was made. */
  class LogIterator {
    const file: seq<Byte>
    var offset: nat
    var current: LogRecord
    var valid: bool

    ghost function Ahead(): seq<Byte>
      reads this
    {
      From(file, offset)
    }

    ghost predicate Valid()
      reads this
    {
      && Framed(Ahead())
      && (valid <==> HasRecord(Ahead()))
      && (valid ==> current == Deserialize(Ahead()[..FrontSize(Ahead())]))
    }

    /** The records still to come, the current one first. */
    ghost function Rest(): (s: seq<LogRecord>)
      requires Valid()
      reads this
      ensures valid <==> s != []
      ensures valid ==> current == s[0]
    {
      Parsed(Ahead())
    }

    constructor (file: seq<Byte>, start: nat)
      requires Framed(From(file, start))
      ensures Valid() && Rest() == Parsed(From(file, start)) && this.file == file
    {
      this.file := file;
      offset := start;
      valid := false;
      current := Make(INVALID_RECORD, 0, INVALID_PAGE_ID, 0, []);
      new;
      ReadCurrentRecord();
    }

    method Next()
      requires Valid()
      modifies this
      ensures Valid()
      ensures Rest() == if old(valid) then old(Rest())[1..] else []
    {
      if !valid {
        return;
      }
      var size := current.totalSize;
      SizeOfFront(Ahead());
      assert file[offset..][size..] == file[offset + size..];
      offset := offset + size;
      ReadCurrentRecord();
    }

    method ReadCurrentRecord()
      requires Framed(Ahead())
      modifies this`valid, this`current
      ensures Valid()
    {
      valid := false;
      if offset >= |file| {
        return;
      }
      if offset + 4 > |file| {
        return;
      }
      var size := Get4(file[offset..], 0);
      if size == 0 {
        return;
      }
      if offset + size > |file| {
        return;
      }
      var bytes := file[offset..][..size];
      current := Deserialize(bytes);
      valid := current.kind != INVALID_RECORD;
    }
  }

  // ---------------------------------------------------------------- lemmas

  lemma {:induction false} AppendsTo(records: seq<LogRecord>, r: LogRecord)
    requires AllWellFormed(records) && WellFormed(r)
    ensures AllWellFormed(records + [r]) && Concat(records + [r]) == Concat(records) + Serialize(r)
  {
    ConcatOne(r);
    ConcatAppend(records, [r]);
  }

  lemma {:induction false} StartsGrow(records: seq<LogRecord>, j: nat, k: nat)
    requires AllWellFormed(records) && j <= k <= |records|
    ensures StartOf(records, j) <= StartOf(records, k)
    decreases k - j
  {
    hide Concat, Serialize;
    if j < k {
      RecordStands(records, k - 1);
      StartsGrow(records, j, k - 1);
    }
  }

  /** The record read at the front knows its own size. */
  lemma {:induction false} SizeOfFront(file: seq<Byte>)
    requires Framed(file) && HasRecord(file)
    ensures Deserialize(file[..FrontSize(file)]).totalSize == FrontSize(file)
  {
  }
}

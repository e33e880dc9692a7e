/** The slotted page: one 4096-byte buffer, a header and a slot directory, changed in place. */
module SlottedPage {
  import opened Base
  import opened SlotMap
  import opened Bytes
  import opened PageLayout
  import opened PageCodec

  lemma CopiedRecord(bytes: seq<Byte>, slot: Slot, data: Record)
    requires slot.End() <= |bytes| && |data| == slot.length && !slot.IsEmpty()
    requires forall k :: 0 <= k < |data| ==> bytes[slot.offset + k] == data[k]
    ensures RecordAt(bytes, slot) == Some(data)
  {
    assert bytes[slot.offset..slot.End()] == data;
  }

  lemma WriteAtIs(before: seq<Byte>, after: seq<Byte>, off: nat, part: seq<Byte>)
    requires |before| == |after| && off + |part| <= |before|
    requires forall k :: 0 <= k < |part| ==> after[off + k] == part[k]
    requires forall k :: 0 <= k < |after| && !(off <= k < off + |part|) ==> after[k] == before[k]
    ensures after == WriteAt(before, off, part)
  {
  }

  function SetEntry(slots: seq<Slot>, s: nat, w: Slot): seq<Slot>
    requires s <= |slots|
  {
    if s < |slots| then slots[s := w] else slots + [w]
  }

  /** A record written over slot s, apart from all others, changes that record only. */
  lemma {:induction false} WrittenRecords(slots: seq<Slot>, slots': seq<Slot>, bytes: seq<Byte>, bytes': seq<Byte>,
                                          s: nat, w: Slot, data: Record)
    requires s <= |slots| && slots' == SetEntry(slots, s, w)
    requires |bytes| == |bytes'| == PAGE_SIZE && w.End() <= PAGE_SIZE && |data| == w.length && !w.IsEmpty()
    requires forall k :: 0 <= k < |data| ==> bytes'[w.offset + k] == data[k]
    requires forall k :: 0 <= k < PAGE_SIZE && !(w.offset <= k < w.End()) ==> bytes'[k] == bytes[k]
    requires forall i :: 0 <= i < |slots| && i != s && !slots[i].IsEmpty() ==> Apart(slots[i], w)
    ensures RecordsOf(slots', bytes') == SetSlot(RecordsOf(slots, bytes), s, Some(data))
  {
    CopiedRecord(bytes', w, data);
    forall i | 0 <= i < |slots'| && i != s ensures RecordAt(bytes', slots'[i]) == RecordAt(bytes, slots[i]) {
      if !slots[i].IsEmpty() {
        assert Apart(slots[i], w);
        RecordSame(bytes, bytes', slots[i]);
      }
    }
    RecordsAre(slots', bytes', SetSlot(RecordsOf(slots, bytes), s, Some(data)));
  }

  lemma {:induction false} InsertedRecords(slots: seq<Slot>, freeEnd: nat, bytes: seq<Byte>, bytes': seq<Byte>,
                                           s: nat, w: Slot, data: Record)
    requires Laid(slots, freeEnd) && freeEnd <= PAGE_SIZE && s <= |slots| && (s < |slots| ==> slots[s].IsEmpty())
    requires |bytes| == |bytes'| == PAGE_SIZE && w.End() == freeEnd && |data| == w.length && !w.IsEmpty()
    requires forall k :: 0 <= k < |data| ==> bytes'[w.offset + k] == data[k]
    requires forall k :: 0 <= k < PAGE_SIZE && !(w.offset <= k < w.End()) ==> bytes'[k] == bytes[k]
    ensures var slots' := SetEntry(slots, s, w);
            && Laid(slots', w.offset)
            && RecordsOf(slots', bytes') == SetSlot(RecordsOf(slots, bytes), s, Some(data))
            && LiveCount(RecordsOf(slots', bytes')) == LiveCount(RecordsOf(slots, bytes)) + 1
  {
    var slots' := SetEntry(slots, s, w);
    LaidInFront(slots, slots', freeEnd, s, w);
    forall i | 0 <= i < |slots| && i != s && !slots[i].IsEmpty() ensures Apart(slots[i], w) {
      assert InData(slots[i], freeEnd);
    }
    WrittenRecords(slots, slots', bytes, bytes', s, w, data);
    if s < |slots| {
      LiveCountSet(RecordsOf(slots, bytes), s, Some(data));
    } else {
      LiveCountAppend(RecordsOf(slots, bytes), Some(data));
    }
  }

  class Page {
    const data: array<Byte>
    var pageId: PageId
    var nextPageId: PageId
    var flags: U16
    var numSlots: U16
    var freeOffset: U16
    var freeEnd: U16
    var numRecords: U16
    var slots: seq<Slot>

    ghost predicate Valid()
      reads this, data
    {
      && data.Length == PAGE_SIZE
      && |slots| == numSlots
      && freeOffset == HEADER_SIZE + SLOT_ENTRY_SIZE * numSlots
      && freeOffset <= freeEnd <= PAGE_SIZE
      && Laid(slots, freeEnd)
      && numRecords == LiveCount(RecordsOf(slots, data[..]))
    }

    /** What a buffer of zeros decodes to: a page that was never formatted. */
    ghost predicate Blank()
      reads this, data
    {
      && data.Length == PAGE_SIZE
      && slots == [] && numSlots == 0 && numRecords == 0 && freeOffset == 0 && freeEnd == 0
    }

    ghost function View(): (v: PageView)
      requires Valid()
      reads this, data
    {
      PageView(RecordsOf(slots, data[..]), freeEnd - freeOffset)
    }

    constructor (pageId: PageId)
      ensures Valid() && View() == FORMATTED && fresh(data) && data[..] == Zeros(PAGE_SIZE)
      ensures this.pageId == pageId && nextPageId == INVALID_PAGE_ID && flags == 0
    {
      data := new Byte[PAGE_SIZE](_ => 0);
      this.pageId := pageId;
      nextPageId := INVALID_PAGE_ID;
      flags := 0;
      numSlots, freeOffset, freeEnd, numRecords := 0, HEADER_SIZE, PAGE_SIZE, 0;
      slots := [];
      new;
      assert data[..] == Zeros(PAGE_SIZE);
    }

    /** The first empty slot, or the number of slots if there is none. */
    method FindEmptySlot() returns (s: nat)
      requires Valid() || Blank()
      ensures s <= numSlots && (Valid() ==> s == FirstEmpty(View().records))
    {
      s := 0;
      while s < numSlots && !slots[s].IsEmpty()
        invariant s <= numSlots
        invariant forall k :: 0 <= k < s ==> !slots[k].IsEmpty()
      {
        s := s + 1;
      }
      if Valid() {
        ghost var rs := View().records;
        forall k | 0 <= k < s ensures rs[k].Some? {
          assert InData(slots[k], freeEnd);
        }
        FirstEmptyIs(rs, s);
      }
    }

    /** Takes the first empty slot if there is room; a page that was never formatted has none. */
    method InsertRecord(bytes: Record) returns (slot: Option<nat>)
      requires (Valid() || Blank()) && |bytes| < 0x1_0000
      modifies this`numSlots, this`freeOffset, this`freeEnd, this`numRecords, this`slots, data
      ensures old(Valid()) ==>
        Valid() && View() == Insert(old(View()), bytes) && slot == InsertSlot(old(View()), bytes)
      ensures old(Blank()) ==> Blank() && slot.None? && data[..] == old(data[..])
    {
      var length := |bytes|;
      if length == 0 {
        return None;
      }
      var s := FindEmptySlot();
      var overhead := if s < numSlots then 0 else SLOT_ENTRY_SIZE;
      if length + overhead > freeEnd - freeOffset {
        return None;
      }
      hide Valid, View;
      PlaceRecord(s, bytes);
      slot := Some(s);
    }

    /** Writes a record in front of the others and enters it in slot s. */
    method PlaceRecord(s: nat, bytes: Record)
      requires Valid() && s == FirstEmpty(View().records) && bytes != []
      requires InsertCost(View().records, bytes) <= View().free
      modifies this`numSlots, this`freeOffset, this`freeEnd, this`numRecords, this`slots, data
      ensures Valid() && View().records == SetSlot(old(View()).records, s, Some(bytes))
      ensures View().free == old(View()).free - InsertCost(old(View()).records, bytes)
    {
      ghost var before, was := data[..], slots;
      var offset := freeEnd - |bytes|;
      WriteBytes(offset, bytes);
      var entry := Slot(offset, |bytes|);
      InsertedRecords(was, freeEnd, before, data[..], s, entry, bytes);
      hide RecordsOf, Laid, LiveCount;
      EnterSlot(s, entry);
    }

    method EnterSlot(s: nat, entry: Slot)
      requires s <= numSlots == |slots| && freeOffset == HEADER_SIZE + SLOT_ENTRY_SIZE * numSlots
      requires freeOffset + SLOT_ENTRY_SIZE <= PAGE_SIZE || s < numSlots
      requires numRecords <= numSlots && numRecords < PAGE_SIZE
      modifies this`numSlots, this`freeOffset, this`freeEnd, this`numRecords, this`slots
      ensures slots == SetEntry(old(slots), s, entry) && |slots| == numSlots
      ensures freeOffset == HEADER_SIZE + SLOT_ENTRY_SIZE * numSlots
      ensures freeEnd == entry.offset && numRecords == old(numRecords) + 1
    {
      if s < numSlots {
        slots := slots[s := entry];
      } else {
        slots := slots + [entry];
        numSlots := numSlots + 1;
        freeOffset := freeOffset + SLOT_ENTRY_SIZE;
      }
      freeEnd := entry.offset;
      numRecords := numRecords + 1;
    }

    /** memcpy into the buffer. */
    method WriteBytes(offset: nat, bytes: Record)
      requires offset + |bytes| <= data.Length == PAGE_SIZE
      modifies data
      ensures forall k :: 0 <= k < |bytes| ==> data[offset + k] == bytes[k]
      ensures forall k :: 0 <= k < PAGE_SIZE && !(offset <= k < offset + |bytes|) ==> data[k] == old(data[k])
    {
      for k := 0 to |bytes|
        invariant forall m :: 0 <= m < k ==> data[offset + m] == bytes[m]
        invariant forall m :: 0 <= m < PAGE_SIZE && !(offset <= m < offset + k) ==> data[m] == old(data[m])
      {
        data[offset + k] := bytes[k];
      }
    }

    method DeleteRecord(s: nat) returns (ok: bool)
      requires Valid() || Blank()
      modifies this`numRecords, this`slots
      ensures old(Valid()) ==>
        Valid() && View() == Delete(old(View()), s) && ok == Get(old(View()).records, s).Some?
      ensures old(Blank()) ==> Blank() && !ok
    {
      if s >= numSlots || slots[s].IsEmpty() {
        return false;
      }
      ghost var was, view := slots, View();
      assert InData(slots[s], freeEnd);
      LaidShrunk(slots, freeEnd, s, NO_SLOT);
      slots := slots[s := NO_SLOT];
      RecordsAre(slots, data[..], view.records[s := None]);
      LiveCountSet(view.records, s, None);
      numRecords := numRecords - 1;
      ok := true;
    }

    method GetRecord(s: nat) returns (r: Option<Record>)
      requires Valid() || Blank()
      ensures Valid() ==> r == Get(View().records, s)
      ensures Blank() ==> r == None
    {
      if s >= numSlots || slots[s].IsEmpty() {
        return None;
      }
      assert InData(slots[s], freeEnd);
      r := Some(data[slots[s].offset..slots[s].End()]);
      assert data[..][slots[s].offset..slots[s].End()] == data[slots[s].offset..slots[s].End()];
    }

    /**
     Rewrites a record.  The guard compares only the growth with the free space, so
     the page stays well-formed exactly when the update does not overrun it.
     */
    method UpdateRecord(s: nat, bytes: Record) returns (ok: bool)
      requires (Valid() || Blank()) && |bytes| < 0x1_0000
      // a longer overrun would leave the buffer, which has no meaning in the original
      requires Valid() && Overruns(View(), s, |bytes|) ==> |bytes| <= freeEnd
      modifies this`freeEnd, this`slots, data
      ensures old(Valid()) ==>
        && ok == CanUpdate(old(View()), s, |bytes|)
        && (Valid() <==> !Overruns(old(View()), s, |bytes|))
        && (!Overruns(old(View()), s, |bytes|) ==> View() == Update(old(View()), s, bytes))
      ensures old(Blank()) ==> Blank() && !ok && data[..] == old(data[..])
    {
      if s >= numSlots || slots[s].IsEmpty() {
        return false;
      }
      assert InData(slots[s], freeEnd);
      var length := |bytes|;
      if length <= slots[s].length {
        UpdateInPlace(s, bytes);
        return true;
      }
      if length - slots[s].length > GetFreeSpace() {
        return false;
      }
      MoveToFront(s, bytes);
      ok := true;
    }

    method UpdateInPlace(s: nat, bytes: Record)
      requires Valid() && s < |slots| && !slots[s].IsEmpty() && |bytes| <= slots[s].length
      modifies this`slots, data
      ensures Valid() && View() == PageView(old(View()).records[s := Some(bytes)], old(View()).free)
    {
      ghost var before, was, view := data[..], slots, View();
      assert InData(slots[s], freeEnd);
      var entry := Slot(slots[s].offset, |bytes|);
      WriteBytes(entry.offset, bytes);
      LaidShrunk(slots, freeEnd, s, entry);
      slots := slots[s := entry];
      forall i | 0 <= i < |was| && i != s && !was[i].IsEmpty() ensures Apart(was[i], entry) {
        assert if i < s then Apart(was[i], was[s]) else Apart(was[s], was[i]);
      }
      WrittenRecords(was, slots, before, data[..], s, entry, bytes);
      LiveCountSet(view.records, s, Some(bytes));
    }

    method MoveToFront(s: nat, bytes: Record)
      requires Valid() && s < |slots| && !slots[s].IsEmpty() && 0 < |bytes| <= freeEnd
      modifies this`freeEnd, this`slots, data
      ensures Valid() <==> |bytes| <= old(View()).free
      ensures Valid() ==> View() == PageView(old(View()).records[s := Some(bytes)], old(View()).free - |bytes|)
    {
      ghost var before, was, view := data[..], slots, View();
      assert InData(slots[s], freeEnd);
      var offset := freeEnd - |bytes|;
      WriteBytes(offset, bytes);
      var entry := Slot(offset, |bytes|);
      if offset >= freeOffset {
        LaidInFront(slots, slots[s := entry], freeEnd, s, entry);
        forall i | 0 <= i < |was| && i != s && !was[i].IsEmpty() ensures Apart(was[i], entry) {
          assert InData(was[i], freeEnd);
        }
        WrittenRecords(was, was[s := entry], before, data[..], s, entry, bytes);
        LiveCountSet(view.records, s, Some(bytes));
      }
      slots := slots[s := entry];
      freeEnd := offset;
    }

    function GetFreeSpace(): nat
      reads this
    {
      if freeEnd <= freeOffset then 0 else freeEnd - freeOffset
    }

    /** Whether an insert of that many bytes would succeed, and for which lengths that answer is right. */
    method HasSpaceFor(length: U16) returns (b: bool)
      requires Valid()
      ensures b <==> HasRoom(View(), length)
      ensures forall bytes: Record :: |bytes| == length ==>
        ((b <==> CanInsert(View(), bytes)) <==> AnswersRight(View(), length))
    {
      hide FirstEmpty, RecordsOf, Laid, LiveCount, CanInsert, AnswersRight;
      HasRoomIff(View(), length);
      var s := FindEmptySlot();
      var total := length;
      if s == numSlots {
        total := (total + SLOT_ENTRY_SIZE) % 0x1_0000;
      }
      b := GetFreeSpace() >= total;
    }

    // -------------------------------------------------------------- serialization

    ghost function Image(): (p: PageImage)
      reads this, data
    {
      PageImage(Header(pageId, numSlots, freeOffset, freeEnd, numRecords, nextPageId, flags), slots, data[..])
    }

    /** Writes the header and the slot directory into the buffer, in front of the records. */
    method SerializeToBuffer()
      requires Coded(Image())
      modifies data
      ensures Image() == old(Image()).(bytes := ToBytes(old(Image())))
      ensures old(Valid()) ==> Valid() && View() == old(View())
    {
      hide ToBytes, RecordsOf, LiveCount;
      ghost var was := Image();
      WriteImage();
      if old(Valid()) {
        LaidHigher(was.slots, was.header.freeOffset, was.header.freeEnd);
        hide Laid;
        FromToBytes(was);
      }
    }

    method WriteImage()
      requires Coded(Image())
      modifies data
      ensures data[..] == ToBytes(old(Image()))
    {
      WriteBlock(0, HeaderBytes(Header(pageId, numSlots, freeOffset, freeEnd, numRecords, nextPageId, flags)));
      WriteDirectory();
    }

    method WriteBlock(off: nat, part: seq<Byte>)
      requires off + |part| <= data.Length == PAGE_SIZE
      modifies data
      ensures data[..] == WriteAt(old(data[..]), off, part)
    {
      ghost var before := data[..];
      WriteBytes(off, part);
      WriteAtIs(before, data[..], off, part);
    }

    method WriteDirectory()
      requires Coded(Image())
      modifies data
      ensures data[..] == WriteAt(old(data[..]), HEADER_SIZE, DirectoryBytes(slots))
    {
      hide DirectoryBytes, WriteAt, SlotBytes;
      ghost var was := data[..];
      for i := 0 to numSlots
        invariant HEADER_SIZE + SLOT_ENTRY_SIZE * i <= data.Length == PAGE_SIZE
        invariant data[..] == WriteAt(was, HEADER_SIZE, DirectoryBytes(slots[..i]))
      {
        WriteBlock(HEADER_SIZE + SLOT_ENTRY_SIZE * i, SlotBytes(slots[i]));
        DirectoryNext(slots, i);
        WriteTwice(was, HEADER_SIZE, DirectoryBytes(slots[..i]), SlotBytes(slots[i]));
      }
      assert slots[..numSlots] == slots;
    }

    /** Copies a page's bytes into the buffer. */
    method Fill(bytes: seq<Byte>)
      requires data.Length == |bytes| == PAGE_SIZE
      modifies data
      ensures data[..] == bytes
    {
      for k := 0 to |bytes|
        invariant data[..k] == bytes[..k]
      {
        data[k] := bytes[k];
        assert data[..k + 1] == data[..k] + [bytes[k]] && bytes[..k + 1] == bytes[..k] + [bytes[k]];
      }
      assert data[..|bytes|] == data[..] && bytes[..|bytes|] == bytes;
    }

    /** Reads the header and the slot directory from the buffer. */
    method DeserializeFromBuffer()
      requires data.Length == PAGE_SIZE && DirectoryFits(DecodeHeader(data[..]).numSlots)
      modifies this
      ensures Image() == FromBytes(data[..])
    {
      var h := DecodeHeader(data[..]);
      pageId, numSlots, freeOffset, freeEnd := h.pageId, h.numSlots, h.freeOffset, h.freeEnd;
      numRecords, nextPageId, flags := h.numRecords, h.nextPageId, h.flags;
      slots := [];
      for i := 0 to numSlots
        modifies this`slots
        invariant slots == DecodeDirectory(data[..], HEADER_SIZE, i)
      {
        DecodeDirectoryNext(data[..], HEADER_SIZE, i);
        var pos := HEADER_SIZE + SLOT_ENTRY_SIZE * i;
        slots := slots + [Slot(Get2(data[..], pos), Get2(data[..], pos + 2))];
      }
    }

    // -------------------------------------------------------------- compaction

    /** Moves all live records to the end of the page, in offset order, and keeps every slot number. */
    method Compact()
      requires Valid()
      modifies this`freeEnd, this`slots, data
      ensures Valid() && View().records == old(View()).records
      ensures View().free == CompactFree(old(View()).records) >= old(View()).free
    {
      hide Laid, RecordsOf, LiveCount, TotalLength;
      var writePos := PackAll();
      freeEnd := writePos;
    }

    /** Packs the live records against the end of the buffer. */
    method PackAll() returns (writePos: nat)
      requires Valid()
      modifies this`slots, data
      ensures |slots| == numSlots && freeEnd <= writePos <= PAGE_SIZE && Laid(slots, writePos)
      ensures RecordsOf(slots, data[..]) == old(View()).records
      ensures writePos == PAGE_SIZE - TotalLength(old(View()).records)
    {
      hide RecordsOf, LiveCount, TotalLength, LiveFrom, SortDescending, Packing;
      ghost var was, bytes := slots, data[..];
      var live := CollectLive();
      var order := SortDescending(live);
      PackStart(was, bytes, freeEnd, order);
      writePos := Pack(order);
      PackDone(was, slots, bytes, data[..], freeEnd, order, writePos);
    }

    /** No page with these records has more free space than compaction leaves. */
    lemma FreeAtMost()
      requires Valid()
      ensures View().free <= CompactFree(View().records)
    {
      var order := SortDescending(LiveFrom(slots, 0));
      PackStart(slots, data[..], freeEnd, order);
      RoomForAll(slots, freeEnd, order, |order|);
      assert order[..|order|] == order;
      SortDescendingSorts(LiveFrom(slots, 0)) by {
        LiveFromIs(slots, 0);
      }
      PackedLength(slots, data[..], freeEnd);
    }

    method Pack(order: seq<LiveRecord>) returns (writePos: nat)
      requires data.Length == PAGE_SIZE
      requires Packing(slots, slots, data[..], data[..], freeEnd, order, 0, PAGE_SIZE)
      modifies this`slots, data
      ensures Packing(old(slots), slots, old(data[..]), data[..], freeEnd, order, |order|, writePos)
    {
      hide Packing;
      ghost var was := slots;
      var temp := data[..];
      writePos := PAGE_SIZE;
      for m := 0 to |order|
        invariant Packing(was, slots, temp, data[..], freeEnd, order, m, writePos)
        modifies this`slots, data
      {
        writePos := PackOne(was, temp, order, m, writePos);
      }
    }

    /** Moves one record to just below writePos. */
    method PackOne(ghost was: seq<Slot>, temp: seq<Byte>, order: seq<LiveRecord>, m: nat, writePos: nat)
      returns (next: nat)
      requires m < |order| && data.Length == PAGE_SIZE
      requires Packing(was, slots, temp, data[..], freeEnd, order, m, writePos)
      modifies this`slots, data
      ensures Packing(was, slots, temp, data[..], freeEnd, order, m + 1, next)
    {
      var rec := order[m];
      ghost var packedBytes, packedSlots := data[..], slots;
      PackRoom(was, freeEnd, order, m, writePos);
      hide Packing;
      next := writePos - rec.slot.length;
      var piece := temp[rec.slot.offset..rec.slot.End()];
      WriteBytes(next, piece);
      slots := slots[rec.slotId := Slot(next, rec.slot.length)];
      PackNext(was, packedSlots, slots, temp, packedBytes, data[..], freeEnd, order, m, writePos, next, piece);
    }

    method CollectLive() returns (live: seq<LiveRecord>)
      requires Valid()
      ensures live == LiveFrom(slots, 0)
    {
      live := [];
      for i := 0 to numSlots
        invariant live + LiveFrom(slots, i) == LiveFrom(slots, 0)
      {
        if !slots[i].IsEmpty() {
          live := live + [LiveRecord(i, slots[i])];
        }
      }
    }
  }

  // ---------------------------------------------------------------- the packing loop

  /** The live slots of was in descending order. */
  ghost predicate LiveOrder(was: seq<Slot>, order: seq<LiveRecord>) {
    && Descending(order) && DistinctSlots(order)
    && forall x :: x in order <==> x.slotId < |was| && x.slot == was[x.slotId] && !x.slot.IsEmpty()
  }

  /** The first m of them are packed down to writePos, the others are untouched and lie below it. */
  ghost predicate Packing(was: seq<Slot>, slots: seq<Slot>, temp: seq<Byte>, bytes: seq<Byte>, freeEnd: nat,
                          order: seq<LiveRecord>, m: nat, writePos: int) {
    && m <= |order| && |slots| == |was| && |temp| == |bytes| == PAGE_SIZE && 0 < freeEnd <= PAGE_SIZE
    && Laid(was, freeEnd) && LiveOrder(was, order)
    && freeEnd <= writePos <= PAGE_SIZE && writePos == PAGE_SIZE - SumLengths(order[..m])
    && Waiting(slots, order, m, writePos)
    && AllPacked(slots, temp, bytes, order, m, writePos)
    && Waiting(was, order, m, writePos)
    && (forall i :: 0 <= i < |was| && was[i].IsEmpty() ==> slots[i].IsEmpty())
  }

  predicate Waiting(slots: seq<Slot>, order: seq<LiveRecord>, m: nat, writePos: int) {
    forall q :: m <= q < |order| ==>
      order[q].slotId < |slots| && slots[order[q].slotId] == order[q].slot && order[q].slot.End() <= writePos
  }

  predicate AllPacked(slots: seq<Slot>, temp: seq<Byte>, bytes: seq<Byte>, order: seq<LiveRecord>, m: nat,
                      writePos: int)
    requires m <= |order|
  {
    && (forall q :: 0 <= q < m ==> Packed(slots, temp, bytes, order[q], writePos))
    && (forall q, r :: 0 <= q < r < m ==> slots[order[r].slotId].End() <= slots[order[q].slotId].offset)
  }

  /** One packed record: same length and bytes, now at or behind writePos. */
  predicate Packed(slots: seq<Slot>, temp: seq<Byte>, bytes: seq<Byte>, x: LiveRecord, writePos: int) {
    && x.slotId < |slots|
    && slots[x.slotId].length == x.slot.length
    && writePos <= slots[x.slotId].offset && slots[x.slotId].End() <= PAGE_SIZE
    && RecordAt(bytes, slots[x.slotId]) == RecordAt(temp, x.slot)
  }

  lemma {:induction false} PackStart(slots: seq<Slot>, temp: seq<Byte>, freeEnd: nat, order: seq<LiveRecord>)
    requires Laid(slots, freeEnd) && 0 < freeEnd <= PAGE_SIZE && |temp| == PAGE_SIZE
    requires order == SortDescending(LiveFrom(slots, 0))
    ensures Packing(slots, slots, temp, temp, freeEnd, order, 0, PAGE_SIZE)
  {
    LiveFromIs(slots, 0);
    SortDescendingSorts(LiveFrom(slots, 0));
    assert order[..0] == [];
    forall q | 0 <= q < |order|
      ensures order[q].slot.End() <= PAGE_SIZE && order[q].slotId < |slots| && slots[order[q].slotId] == order[q].slot
    {
      assert order[q] in order;
      assert InData(slots[order[q].slotId], freeEnd);
    }
  }

  /** The next record ends below writePos, and all after it end where it will then begin. */
  lemma PackRoom(was: seq<Slot>, freeEnd: nat, order: seq<LiveRecord>, m: nat, writePos: int)
    requires Laid(was, freeEnd) && LiveOrder(was, order) && m < |order| && Waiting(was, order, m, writePos)
    ensures order[m].slotId < |was| && InData(order[m].slot, freeEnd) && !order[m].slot.IsEmpty()
    ensures freeEnd <= writePos - order[m].slot.length
    ensures forall q :: m < q < |order| ==> order[q].slot.End() <= writePos - order[m].slot.length
  {
  }

  /** However the records lie, packing the first m of them stays clear of the others. */
  lemma {:induction false} RoomForAll(was: seq<Slot>, freeEnd: nat, order: seq<LiveRecord>, m: nat)
    requires Laid(was, freeEnd) && LiveOrder(was, order) && Waiting(was, order, 0, PAGE_SIZE)
    requires m <= |order| && freeEnd <= PAGE_SIZE
    ensures freeEnd <= PAGE_SIZE - SumLengths(order[..m]) && Waiting(was, order, m, PAGE_SIZE - SumLengths(order[..m]))
  {
    if m > 0 {
      RoomForAll(was, freeEnd, order, m - 1);
      PackRoom(was, freeEnd, order, m - 1, PAGE_SIZE - SumLengths(order[..m - 1]));
      SumLengthsNext(order, m - 1);
    } else {
      assert order[..0] == [];
    }
  }

  predicate SameFrom(bytes: seq<Byte>, bytes': seq<Byte>, from: int) {
    |bytes| == |bytes'| && forall k :: 0 <= k < |bytes| && from <= k ==> bytes'[k] == bytes[k]
  }

  lemma PackedAgain(slots: seq<Slot>, slots': seq<Slot>, temp: seq<Byte>, bytes: seq<Byte>, bytes': seq<Byte>,
                    x: LiveRecord, from: int, to: int)
    requires Packed(slots, temp, bytes, x, from) && to <= from && |slots'| == |slots|
    requires slots'[x.slotId] == slots[x.slotId]
    requires SameFrom(bytes, bytes', from)
    ensures Packed(slots', temp, bytes', x, to)
  {
    RecordSame(bytes, bytes', slots[x.slotId]);
  }

  lemma AllPackedNext(slots: seq<Slot>, slots': seq<Slot>, temp: seq<Byte>, bytes: seq<Byte>, bytes': seq<Byte>,
                      order: seq<LiveRecord>, m: nat, from: int, to: int)
    requires m < |order| && AllPacked(slots, temp, bytes, order, m, from)
    requires DistinctSlots(order) && order[m].slotId < |slots| && to + order[m].slot.length == from
    requires 0 <= to && from <= PAGE_SIZE && SameFrom(bytes, bytes', from)
    requires slots' == slots[order[m].slotId := Slot(to, order[m].slot.length)]
    requires RecordAt(bytes', slots'[order[m].slotId]) == RecordAt(temp, order[m].slot)
    ensures AllPacked(slots', temp, bytes', order, m + 1, to)
  {
    hide RecordAt, SameFrom;
    forall q | 0 <= q < m
      ensures Packed(slots', temp, bytes', order[q], to) && slots'[order[q].slotId] == slots[order[q].slotId]
    {
      assert Packed(slots, temp, bytes, order[q], from);
      PackedAgain(slots, slots', temp, bytes, bytes', order[q], from, to);
    }
    forall q | 0 <= q < m ensures from <= slots'[order[q].slotId].offset {
      assert Packed(slots, temp, bytes, order[q], from);
    }
    hide Packed;
    forall q, r | 0 <= q < r < m + 1
      ensures slots'[order[r].slotId].End() <= slots'[order[q].slotId].offset
    {
    }
    assert Packed(slots', temp, bytes', order[m], to);
  }

  lemma PackNext(was: seq<Slot>, slots: seq<Slot>, slots': seq<Slot>, temp: seq<Byte>, bytes: seq<Byte>,
                 bytes': seq<Byte>,
                 freeEnd: nat, order: seq<LiveRecord>, m: nat, from: int, to: int, piece: Record)
    requires m < |order| && Packing(was, slots, temp, bytes, freeEnd, order, m, from)
    requires order[m].slotId < |slots| && freeEnd <= to == from - order[m].slot.length
    requires slots' == slots[order[m].slotId := Slot(to, order[m].slot.length)]
    requires order[m].slot.End() <= |temp| && |bytes'| == PAGE_SIZE
    requires piece == temp[order[m].slot.offset..order[m].slot.End()]
    requires forall k :: 0 <= k < |piece| ==> bytes'[to + k] == piece[k]
    requires forall k :: 0 <= k < PAGE_SIZE && !(to <= k < to + |piece|) ==> bytes'[k] == bytes[k]
    ensures Packing(was, slots', temp, bytes', freeEnd, order, m + 1, to)
  {
    var c := order[m];
    PackRoom(was, freeEnd, order, m, from);
    CopiedRecord(bytes', slots'[c.slotId], piece);
    assert SameFrom(bytes, bytes', from);
    AllPackedNext(slots, slots', temp, bytes, bytes', order, m, from, to);
    SumLengthsNext(order, m);
    hide RecordAt, SumLengths, Laid, Descending, AllPacked;
    forall q | m + 1 <= q < |order| ensures slots'[order[q].slotId] == order[q].slot {
      assert order[q].slotId != c.slotId;
    }
    assert Waiting(slots', order, m + 1, to);
    assert c in order;
  }

  lemma {:induction false} PackedLength(was: seq<Slot>, temp: seq<Byte>, freeEnd: nat)
    requires Laid(was, freeEnd) && |temp| == PAGE_SIZE
    ensures SumLengths(LiveFrom(was, 0)) == TotalLength(RecordsOf(was, temp))
  {
    assert was[0..] == was;
    LaidHigher(was, 0, freeEnd);
    LiveLengths(was, temp, 0);
  }

  lemma {:induction false} PackDone(was: seq<Slot>, slots: seq<Slot>, temp: seq<Byte>, bytes: seq<Byte>, freeEnd: nat,
                 order: seq<LiveRecord>, writePos: int)
    requires Packing(was, slots, temp, bytes, freeEnd, order, |order|, writePos)
    requires order == SortDescending(LiveFrom(was, 0))
    ensures Laid(slots, writePos) && |slots| == |was| && RecordsOf(slots, bytes) == RecordsOf(was, temp)
    ensures freeEnd <= writePos == PAGE_SIZE - TotalLength(RecordsOf(was, temp))
  {
    assert order[..|order|] == order;
    LiveFromIs(was, 0);
    SortDescendingSorts(LiveFrom(was, 0));
    PackedLength(was, temp, freeEnd);
    forall i | 0 <= i < |was| ensures RecordAt(bytes, slots[i]) == RecordAt(temp, was[i]) {
      if !was[i].IsEmpty() {
        var q := PackedIndex(was, order, i);
        assert Packed(slots, temp, bytes, order[q], writePos);
      }
    }
    RecordsAre(slots, bytes, RecordsOf(was, temp));
    forall i | 0 <= i < |slots| && !slots[i].IsEmpty() ensures InData(slots[i], writePos) {
      var q := PackedIndex(was, order, i);
      assert Packed(slots, temp, bytes, order[q], writePos);
    }
    forall i, j | 0 <= i < j < |slots| && !slots[i].IsEmpty() && !slots[j].IsEmpty() ensures Apart(slots[i], slots[j]) {
      var q := PackedIndex(was, order, i);
      var r := PackedIndex(was, order, j);
      assert Packed(slots, temp, bytes, order[q], writePos) && Packed(slots, temp, bytes, order[r], writePos);
      assert if q < r then slots[j].End() <= slots[i].offset else slots[i].End() <= slots[j].offset;
    }
  }

  lemma PackedIndex(was: seq<Slot>, order: seq<LiveRecord>, i: nat) returns (q: nat)
    requires i < |was| && !was[i].IsEmpty()
    requires forall x :: x in order <==> x.slotId < |was| && x.slot == was[x.slotId] && !x.slot.IsEmpty()
    ensures q < |order| && order[q].slotId == i && order[q].slot == was[i]
  {
    assert LiveRecord(i, was[i]) in order;
    q :| 0 <= q < |order| && order[q] == LiveRecord(i, was[i]);
  }

  // ---------------------------------------------------------------- an update that breaks its page

  /**
   Two inserts leave 50 free bytes; an update that adds 30 bytes to the first record is let through and writes its 70
   bytes over the slot directory and the header.
   */
  method OverrunPage(pageId: PageId, a: Record, b: Record, longer: Record) returns (page: Page, ok: bool)
    requires |a| == 40 && |b| == 3978 && |longer| == 70
    ensures ok && !page.Valid()
  {
    page := TwoRecords(pageId, a, b);
    assert Overruns(page.View(), 0, 70);
    ok := page.UpdateRecord(0, longer);
  }

  method TwoRecords(pageId: PageId, a: Record, b: Record) returns (page: Page)
    requires |a| == 40 && |b| == 3978
    ensures fresh(page) && fresh(page.data) && page.Valid() && page.View() == PageView([Some(a), Some(b)], 50)
  {
    hide Insert;
    TwoInserts(a, b);
    page := new Page(pageId);
    var first := page.InsertRecord(a);
    var second := page.InsertRecord(b);
  }

  lemma TwoInserts(a: Record, b: Record)
    requires |a| == 40 && |b| == 3978
    ensures Insert(PageView([], 4076), a) == PageView([Some(a)], 4032)
    ensures Insert(PageView([Some(a)], 4032), b) == PageView([Some(a), Some(b)], 50)
  {
    FirstEmptyIs([Some(a)], 1);
  }

  /** A page object read from a page's bytes. */
  method ReadPage(bytes: seq<Byte>) returns (page: Page)
    requires |bytes| == PAGE_SIZE && DirectoryFits(DecodeHeader(bytes).numSlots)
    ensures fresh(page) && fresh(page.data) && page.data[..] == bytes && page.Image() == FromBytes(bytes)
  {
    page := new Page(0);
    page.Fill(bytes);
    page.DeserializeFromBuffer();
  }

  /** Read from the bytes of a new page it is an empty page with all its room, the last of its chain. */
  method ReadNewPage(bytes: seq<Byte>, p: PageId) returns (page: Page)
    requires NewlyFormatted(bytes, p)
    ensures fresh(page) && fresh(page.data) && page.data[..] == bytes
    ensures page.Valid() && page.View() == PageView([], 4076)
    ensures page.pageId == p && page.nextPageId == INVALID_PAGE_ID && page.flags == 0
  {
    hide Get2, Get4;
    page := ReadPage(bytes);
    assert page.slots == [] && RecordsOf([], bytes) == [];
  }

  /** A page read from a buffer of zeros. */
  method ReadZeros(pageId: PageId) returns (page: Page)
    ensures fresh(page) && fresh(page.data) && page.Blank() && page.data[..] == Zeros(PAGE_SIZE)
  {
    page := new Page(pageId);
    ZerosDecoded(page.data[..]);
    page.DeserializeFromBuffer();
  }
}

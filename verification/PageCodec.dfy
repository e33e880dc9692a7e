/**
 How a page's header and slot directory lie in its own buffer: 18 header bytes, two
 bytes of padding, then four bytes for each slot.
 */
module PageCodec {
  import opened Base
  import opened Bytes
  import opened SlotMap
  import opened PageLayout
  import NodeCodec

  datatype Header = Header(pageId: PageId, numSlots: U16, freeOffset: U16, freeEnd: U16, numRecords: U16,
                           nextPageId: PageId, flags: U16)

  /** A page in memory: the fields beside the buffer, and the buffer. */
  datatype PageImage = PageImage(header: Header, slots: seq<Slot>, bytes: seq<Byte>)

  /** The directory has as many slots as the header says and fits the buffer. */
  predicate Coded(p: PageImage) {
    && |p.bytes| == PAGE_SIZE
    && |p.slots| == p.header.numSlots
    && DirectoryFits(p.header.numSlots)
  }

  predicate DirectoryFits(numSlots: nat) {
    HEADER_SIZE + SLOT_ENTRY_SIZE * numSlots <= PAGE_SIZE
  }

  function HeaderBytes(h: Header): (b: seq<Byte>)
    ensures |b| == 18
  {
    Le4(h.pageId) + (Le2(h.numSlots) + (Le2(h.freeOffset) + (Le2(h.freeEnd) + (Le2(h.numRecords)
      + (Le4(h.nextPageId) + Le2(h.flags))))))
  }

  function SlotBytes(s: Slot): (b: seq<Byte>)
    ensures |b| == SLOT_ENTRY_SIZE
  {
    Le2(s.offset) + Le2(s.length)
  }

  function DirectoryBytes(slots: seq<Slot>): (b: seq<Byte>)
    ensures |b| == SLOT_ENTRY_SIZE * |slots|
  {
    if slots == [] then [] else SlotBytes(slots[0]) + DirectoryBytes(slots[1..])
  }

  /** The buffer after the header and the directory are written into it. */
  function ToBytes(p: PageImage): (b: seq<Byte>)
    requires Coded(p)
    ensures |b| == PAGE_SIZE
  {
    WriteAt(WriteAt(p.bytes, 0, HeaderBytes(p.header)), HEADER_SIZE, DirectoryBytes(p.slots))
  }

  function DecodeHeader(b: seq<Byte>): Header {
    Header(Get4(b, 0), Get2(b, 4), Get2(b, 6), Get2(b, 8), Get2(b, 10), Get4(b, 12), Get2(b, 16))
  }

  function DecodeDirectory(b: seq<Byte>, off: nat, n: nat): (s: seq<Slot>)
    ensures |s| == n
    decreases n
  {
    if n == 0 then [] else [Slot(Get2(b, off), Get2(b, off + 2))] + DecodeDirectory(b, off + SLOT_ENTRY_SIZE, n - 1)
  }

  function FromBytes(b: seq<Byte>): PageImage {
    PageImage(DecodeHeader(b), DecodeDirectory(b, HEADER_SIZE, DecodeHeader(b).numSlots), b)
  }

  // ---------------------------------------------------------------- decoding what was written

  lemma DecodeHeaderBytes(b: seq<Byte>, h: Header)
    requires Holds(b, 0, HeaderBytes(h))
    ensures DecodeHeader(b) == h
  {
    hide Holds, Get4, Get2, Le4, Le2;
    var f6 := Le4(h.nextPageId) + Le2(h.flags);
    var f5 := Le2(h.numRecords) + f6;
    var f4 := Le2(h.freeEnd) + f5;
    var f3 := Le2(h.freeOffset) + f4;
    var f2 := Le2(h.numSlots) + f3;
    HoldsPart(b, 0, Le4(h.pageId), f2);
    HoldsPart(b, 4, Le2(h.numSlots), f3);
    HoldsPart(b, 6, Le2(h.freeOffset), f4);
    HoldsPart(b, 8, Le2(h.freeEnd), f5);
    HoldsPart(b, 10, Le2(h.numRecords), f6);
    HoldsPart(b, 12, Le4(h.nextPageId), Le2(h.flags));
    Get4Le4(b, 0, h.pageId);
    Get2Le2(b, 4, h.numSlots);
    Get2Le2(b, 6, h.freeOffset);
    Get2Le2(b, 8, h.freeEnd);
    Get2Le2(b, 10, h.numRecords);
    Get4Le4(b, 12, h.nextPageId);
    Get2Le2(b, 16, h.flags);
  }

  lemma {:induction false} DecodeDirectoryBytes(b: seq<Byte>, off: nat, slots: seq<Slot>)
    requires Holds(b, off, DirectoryBytes(slots))
    ensures DecodeDirectory(b, off, |slots|) == slots
    decreases slots
  {
    hide Holds, Get2, Le2;
    if slots != [] {
      var s, rest := slots[0], slots[1..];
      HoldsPart(b, off, SlotBytes(s), DirectoryBytes(rest));
      HoldsPart(b, off, Le2(s.offset), Le2(s.length));
      Get2Le2(b, off, s.offset);
      Get2Le2(b, off + 2, s.length);
      DecodeDirectoryBytes(b, off + SLOT_ENTRY_SIZE, rest);
    }
  }

  /** Serializing and reading back gives the same header and slots, and the same record in each slot. */
  lemma FromToBytes(p: PageImage)
    requires Coded(p)
    ensures FromBytes(ToBytes(p)) == p.(bytes := ToBytes(p))
    ensures Laid(p.slots, HEADER_SIZE + SLOT_ENTRY_SIZE * |p.slots|) ==>
              RecordsOf(p.slots, ToBytes(p)) == RecordsOf(p.slots, p.bytes)
  {
    var h, d := HeaderBytes(p.header), DirectoryBytes(p.slots);
    var mid := WriteAt(p.bytes, 0, h);
    HoldsElsewhere(mid, 0, h, HEADER_SIZE, d);
    DecodeHeaderBytes(ToBytes(p), p.header);
    DecodeDirectoryBytes(ToBytes(p), HEADER_SIZE, p.slots);
    var end := HEADER_SIZE + SLOT_ENTRY_SIZE * |p.slots|;
    if Laid(p.slots, end) {
      ToBytesKeepsTail(p, end);
      RecordsSame(p.slots, p.bytes, ToBytes(p), end);
    }
  }

  /** Where the header's fields and the slots stand in a page that was written. */
  lemma {:induction false} FieldsStand(p: PageImage)
    requires Coded(p)
    ensures var b := ToBytes(p);
      && Get4(b, 0) == p.header.pageId && Get2(b, 4) == |p.slots| && Get2(b, 6) == p.header.freeOffset
      && Get2(b, 8) == p.header.freeEnd && Get2(b, 10) == p.header.numRecords
      && Get4(b, 12) == p.header.nextPageId && Get2(b, 16) == p.header.flags
      && forall i :: 0 <= i < |p.slots| ==>
           Get2(b, 20 + 4 * i) == p.slots[i].offset && Get2(b, 22 + 4 * i) == p.slots[i].length
  {
    hide Get2, Get4, ToBytes, DecodeDirectory, DecodeHeader, RecordsOf, Laid;
    var b := ToBytes(p);
    FromToBytes(p);
    assert DecodeHeader(b) == p.header && DecodeDirectory(b, HEADER_SIZE, |p.slots|) == p.slots;
    HeaderStands(b);
    forall i | 0 <= i < |p.slots|
      ensures Get2(b, 20 + 4 * i) == p.slots[i].offset && Get2(b, 22 + 4 * i) == p.slots[i].length
    {
      SlotAt(b, HEADER_SIZE, |p.slots|, i);
    }
  }

  lemma HeaderStands(b: seq<Byte>)
    ensures var h := DecodeHeader(b);
      && Get4(b, 0) == h.pageId && Get2(b, 4) == h.numSlots && Get2(b, 6) == h.freeOffset && Get2(b, 8) == h.freeEnd
      && Get2(b, 10) == h.numRecords && Get4(b, 12) == h.nextPageId && Get2(b, 16) == h.flags
  {
    hide Get2, Get4;
  }

  lemma {:induction false} SlotAt(b: seq<Byte>, off: nat, n: nat, i: nat)
    requires i < n
    ensures DecodeDirectory(b, off, n)[i] == Slot(Get2(b, off + 4 * i), Get2(b, off + 4 * i + 2))
    decreases n
  {
    hide Get2;
    if i > 0 {
      SlotAt(b, off + SLOT_ENTRY_SIZE, n - 1, i - 1);
    }
  }

  /** Bytes behind the directory are not written. */
  lemma ToBytesKeepsTail(p: PageImage, end: nat)
    requires Coded(p) && end == HEADER_SIZE + SLOT_ENTRY_SIZE * |p.slots|
    ensures forall k :: end <= k < PAGE_SIZE ==> ToBytes(p)[k] == p.bytes[k]
  {
  }

  lemma {:induction false} DirectoryNext(slots: seq<Slot>, i: nat)
    requires i < |slots|
    ensures DirectoryBytes(slots[..i + 1]) == DirectoryBytes(slots[..i]) + SlotBytes(slots[i])
    decreases i
  {
    hide SlotBytes;
    var t := slots[1..];
    if i > 0 {
      DirectoryNext(t, i - 1);
      assert slots[..i + 1][1..] == t[..i] && slots[..i][1..] == t[..i - 1];
    } else {
      assert slots[..1][1..] == [] && slots[..0] == [];
    }
  }

  lemma {:induction false} DecodeDirectoryNext(b: seq<Byte>, off: nat, n: nat)
    ensures DecodeDirectory(b, off, n + 1) ==
            DecodeDirectory(b, off, n) +
              [Slot(Get2(b, off + SLOT_ENTRY_SIZE * n), Get2(b, off + SLOT_ENTRY_SIZE * n + 2))]
    decreases n
  {
    hide Get2;
    if n > 0 {
      DecodeDirectoryNext(b, off + SLOT_ENTRY_SIZE, n - 1);
    }
  }

  // ---------------------------------------------------------------- writing what was decoded

  lemma Le2Get2(b: seq<Byte>, off: nat)
    requires off + 2 <= |b|
    ensures Holds(b, off, Le2(Get2(b, off)))
  {
  }

  lemma Le4Get4(b: seq<Byte>, off: nat)
    requires off + 4 <= |b|
    ensures Holds(b, off, Le4(Get4(b, off)))
  {
    hide Holds, Get2, Le2;
    Le2Get2(b, off);
    Le2Get2(b, off + 2);
    HoldsJoin(b, off, Le2(Get2(b, off)), Le2(Get2(b, off + 2)));
  }

  lemma HoldsDecodedHeader(b: seq<Byte>)
    requires |b| == PAGE_SIZE
    ensures Holds(b, 0, HeaderBytes(DecodeHeader(b)))
  {
    hide Holds, Get4, Get2, Le4, Le2;
    var h := DecodeHeader(b);
    var f6 := Le4(h.nextPageId) + Le2(h.flags);
    var f5 := Le2(h.numRecords) + f6;
    var f4 := Le2(h.freeEnd) + f5;
    var f3 := Le2(h.freeOffset) + f4;
    var f2 := Le2(h.numSlots) + f3;
    Le4Get4(b, 0);
    Le2Get2(b, 4);
    Le2Get2(b, 6);
    Le2Get2(b, 8);
    Le2Get2(b, 10);
    Le4Get4(b, 12);
    Le2Get2(b, 16);
    HoldsJoin(b, 12, Le4(h.nextPageId), Le2(h.flags));
    HoldsJoin(b, 10, Le2(h.numRecords), f6);
    HoldsJoin(b, 8, Le2(h.freeEnd), f5);
    HoldsJoin(b, 6, Le2(h.freeOffset), f4);
    HoldsJoin(b, 4, Le2(h.numSlots), f3);
    HoldsJoin(b, 0, Le4(h.pageId), f2);
  }

  lemma {:induction false} HoldsDecodedDirectory(b: seq<Byte>, off: nat, n: nat)
    requires off + SLOT_ENTRY_SIZE * n <= |b|
    ensures Holds(b, off, DirectoryBytes(DecodeDirectory(b, off, n)))
    decreases n
  {
    if n > 0 {
      hide Holds, Get2, Le2;
      var s, rest := Slot(Get2(b, off), Get2(b, off + 2)), DecodeDirectory(b, off + SLOT_ENTRY_SIZE, n - 1);
      HoldsDecodedDirectory(b, off + SLOT_ENTRY_SIZE, n - 1);
      Le2Get2(b, off);
      Le2Get2(b, off + 2);
      HoldsJoin(b, off, Le2(s.offset), Le2(s.length));
      HoldsJoin(b, off, SlotBytes(s), DirectoryBytes(rest));
      assert ([s] + rest)[1..] == rest;
    }
  }

  lemma WriteSame(b: seq<Byte>, off: nat, part: seq<Byte>)
    requires Holds(b, off, part)
    ensures WriteAt(b, off, part) == b
  {
  }

  /** A buffer read into memory and written out again is the same buffer, whatever it holds. */
  lemma ToFromBytes(b: seq<Byte>)
    requires |b| == PAGE_SIZE && DirectoryFits(DecodeHeader(b).numSlots)
    ensures Coded(FromBytes(b)) && ToBytes(FromBytes(b)) == b
  {
    HoldsDecodedHeader(b);
    HoldsDecodedDirectory(b, HEADER_SIZE, DecodeHeader(b).numSlots);
    WriteSame(b, 0, HeaderBytes(DecodeHeader(b)));
    WriteSame(b, HEADER_SIZE, DirectoryBytes(FromBytes(b).slots));
  }

  /** A page without slots only gets its header written, so an index node in it stays what it is. */
  lemma NodeSurvives(p: PageImage)
    requires Coded(p) && p.header.numSlots == 0
    ensures NodeCodec.Decode(ToBytes(p)) == NodeCodec.Decode(p.bytes)
  {
    ToBytesKeepsTail(p, HEADER_SIZE);
    NodeCodec.HeaderKeepsNode(p.bytes, ToBytes(p));
  }

  /** The header of a page just formatted: no slots, free from byte 20 to the end, and no page behind it. */
  predicate NewlyFormatted(b: seq<Byte>, p: PageId) {
    && |b| == PAGE_SIZE && Get4(b, 0) == p && Get2(b, 4) == 0 && Get2(b, 6) == 20 && Get2(b, 8) == 4096
    && Get2(b, 10) == 0 && Get4(b, 12) == 0xFFFF_FFFF && Get2(b, 16) == 0
  }

  /** A buffer of zeros decodes to a header of zeros and no slots. */
  lemma {:induction false} ZerosDecoded(b: seq<Byte>)
    requires |b| == PAGE_SIZE && forall k :: 0 <= k < |b| ==> b[k] == 0
    ensures FromBytes(b).slots == [] && DecodeHeader(b) == Header(0, 0, 0, 0, 0, 0, 0)
  {
  }
}

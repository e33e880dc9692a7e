/** Where records lie in a page: slots of offset and length into the page's bytes. */
module PageLayout {
  import opened Base
  import opened SlotMap

  datatype Slot = Slot(offset: U16, length: U16) {
    predicate IsEmpty() {
      offset == 0 && length == 0
    }

    function End(): int {
      offset + length
    }
  }

  const NO_SLOT := Slot(0, 0)

  function RecordAt(bytes: seq<Byte>, slot: Slot): Option<Record> {
    if slot.IsEmpty() then None
    else if slot.End() <= |bytes| then Some(bytes[slot.offset..slot.End()])
    else None
  }

  /** The records the slots stand for. */
  function RecordsOf(slots: seq<Slot>, bytes: seq<Byte>): (r: Slots)
    ensures |r| == |slots|
    ensures forall i {:trigger r[i]} :: 0 <= i < |r| ==> r[i] == RecordAt(bytes, slots[i])
  {
    if slots == [] then [] else [RecordAt(bytes, slots[0])] + RecordsOf(slots[1..], bytes)
  }

  lemma {:induction false} RecordsAre(slots: seq<Slot>, bytes: seq<Byte>, r: Slots)
    requires |r| == |slots|
    requires forall i :: 0 <= i < |r| ==> r[i] == RecordAt(bytes, slots[i])
    ensures RecordsOf(slots, bytes) == r
  {
  }

  predicate Apart(a: Slot, b: Slot) {
    a.End() <= b.offset || b.End() <= a.offset
  }

  predicate InData(s: Slot, freeEnd: int) {
    freeEnd <= s.offset && s.End() <= PAGE_SIZE
  }

  /** Live records lie in the data region and do not overlap. */
  predicate Laid(slots: seq<Slot>, freeEnd: int) {
    && (forall i :: 0 <= i < |slots| && !slots[i].IsEmpty() ==> InData(slots[i], freeEnd))
    && (forall i, j :: 0 <= i < j < |slots| && !slots[i].IsEmpty() && !slots[j].IsEmpty() ==> Apart(slots[i], slots[j]))
  }

  lemma LaidHigher(slots: seq<Slot>, low: int, high: int)
    requires Laid(slots, high) && low <= high
    ensures Laid(slots, low)
  {
  }

  /** A live slot whose record was put in front of all others. */
  lemma LaidInFront(slots: seq<Slot>, slots': seq<Slot>, freeEnd: nat, s: nat, new_: Slot)
    requires Laid(slots, freeEnd) && freeEnd <= PAGE_SIZE
    requires s <= |slots| && slots' == if s < |slots| then slots[s := new_] else slots + [new_]
    requires new_.End() == freeEnd
    ensures Laid(slots', new_.offset)
  {
  }

  /** A slot made shorter or empty keeps the layout. */
  lemma LaidShrunk(slots: seq<Slot>, freeEnd: int, s: nat, new_: Slot)
    requires Laid(slots, freeEnd) && s < |slots|
    requires new_.IsEmpty() || (!slots[s].IsEmpty() && new_.offset == slots[s].offset && new_.length <= slots[s].length)
    ensures Laid(slots[s := new_], freeEnd)
  {
  }

  /** A record is its bytes, so writes outside its extent leave it alone. */
  lemma RecordSame(bytes: seq<Byte>, bytes': seq<Byte>, slot: Slot)
    requires |bytes| == |bytes'|
    requires forall k :: slot.offset <= k < slot.End() && k < |bytes| ==> bytes'[k] == bytes[k]
    ensures RecordAt(bytes', slot) == RecordAt(bytes, slot)
  {
    if slot.End() <= |bytes| {
      assert bytes'[slot.offset..slot.End()] == bytes[slot.offset..slot.End()];
    }
  }

  /** Bytes from the data region on fix all records. */
  lemma {:induction false} RecordsSame(slots: seq<Slot>, bytes: seq<Byte>, bytes': seq<Byte>, freeEnd: int)
    requires Laid(slots, freeEnd) && |bytes| == |bytes'| == PAGE_SIZE
    requires forall k :: freeEnd <= k < PAGE_SIZE && 0 <= k ==> bytes'[k] == bytes[k]
    ensures RecordsOf(slots, bytes') == RecordsOf(slots, bytes)
  {
    forall i | 0 <= i < |slots| ensures RecordAt(bytes', slots[i]) == RecordAt(bytes, slots[i]) {
      if !slots[i].IsEmpty() {
        assert InData(slots[i], freeEnd);
        RecordSame(bytes, bytes', slots[i]);
      }
    }
    RecordsAre(slots, bytes', RecordsOf(slots, bytes));
  }

  // ---------------------------------------------------------------- the live records in compaction order

  datatype LiveRecord = LiveRecord(slotId: nat, slot: Slot)

  /** The live slots from i on, in slot order. */
  function LiveFrom(slots: seq<Slot>, i: nat): (r: seq<LiveRecord>)
    requires i <= |slots|
    decreases |slots| - i
  {
    if i == |slots| then []
    else if slots[i].IsEmpty() then LiveFrom(slots, i + 1)
    else [LiveRecord(i, slots[i])] + LiveFrom(slots, i + 1)
  }

  lemma {:induction false} LiveFromIs(slots: seq<Slot>, i: nat)
    requires i <= |slots|
    ensures forall x :: x in LiveFrom(slots, i) <==>
      i <= x.slotId < |slots| && x.slot == slots[x.slotId] && !x.slot.IsEmpty()
    ensures DistinctSlots(LiveFrom(slots, i))
    decreases |slots| - i
  {
    if i < |slots| {
      LiveFromIs(slots, i + 1);
    }
  }

  predicate DistinctSlots(s: seq<LiveRecord>) {
    forall a, b :: 0 <= a < b < |s| ==> s[a].slotId != s[b].slotId
  }

  /** Records nearer the end of the page come first. */
  predicate Descending(s: seq<LiveRecord>) {
    forall a, b :: 0 <= a < b < |s| ==> s[b].slot.offset <= s[a].slot.offset
  }

  function SumLengths(s: seq<LiveRecord>): nat {
    if s == [] then 0 else s[0].slot.length + SumLengths(s[1..])
  }

  function InsertDescending(s: seq<LiveRecord>, x: LiveRecord): (r: seq<LiveRecord>)
    ensures |r| == |s| + 1
  {
    if s == [] || s[0].slot.offset <= x.slot.offset then [x] + s else [s[0]] + InsertDescending(s[1..], x)
  }

  lemma {:induction false} InsertDescendingMembers(s: seq<LiveRecord>, x: LiveRecord)
    ensures forall y :: y in InsertDescending(s, x) <==> y == x || y in s
    ensures SumLengths(InsertDescending(s, x)) == SumLengths(s) + x.slot.length
  {
    if s != [] && s[0].slot.offset > x.slot.offset {
      var rest := InsertDescending(s[1..], x);
      InsertDescendingMembers(s[1..], x);
      assert s == [s[0]] + s[1..];
      assert ([s[0]] + rest)[1..] == rest;
    } else {
      assert ([x] + s)[1..] == s;
    }
  }

  /** First-element view of the two list properties. */
  lemma OrderedByFirst(s: seq<LiveRecord>)
    requires s != []
    requires Descending(s[1..]) && DistinctSlots(s[1..])
    requires forall y :: y in s[1..] ==> y.slot.offset <= s[0].slot.offset && y.slotId != s[0].slotId
    ensures Descending(s) && DistinctSlots(s)
  {
  }

  lemma FirstOrdered(s: seq<LiveRecord>)
    requires s != [] && Descending(s) && DistinctSlots(s)
    ensures Descending(s[1..]) && DistinctSlots(s[1..])
    ensures forall y :: y in s[1..] ==> y.slot.offset <= s[0].slot.offset && y.slotId != s[0].slotId
  {
  }

  lemma Singleton(x: LiveRecord)
    ensures Descending([x]) && DistinctSlots([x])
  {
  }

  lemma {:induction false} InsertDescendingOrdered(s: seq<LiveRecord>, x: LiveRecord)
    requires Descending(s) && DistinctSlots(s) && forall y :: y in s ==> y.slotId != x.slotId
    ensures Descending(InsertDescending(s, x)) && DistinctSlots(InsertDescending(s, x))
  {
    var r := InsertDescending(s, x);
    hide Descending, DistinctSlots;
    if s == [] {
      assert r == [x];
      Singleton(x);
    } else if s[0].slot.offset <= x.slot.offset {
      FirstOrdered(s);
      assert r[1..] == s;
      assert s == [s[0]] + s[1..];
      OrderedByFirst(r);
    } else {
      FirstOrdered(s);
      assert forall y :: y in s[1..] ==> y in s;
      InsertDescendingOrdered(s[1..], x);
      InsertDescendingMembers(s[1..], x);
      assert r[1..] == InsertDescending(s[1..], x);
      OrderedByFirst(r);
    }
  }

  /** The records sorted by original offset, largest first. */
  function SortDescending(s: seq<LiveRecord>): (r: seq<LiveRecord>)
    ensures |r| == |s|
  {
    if s == [] then [] else InsertDescending(SortDescending(s[1..]), s[0])
  }

  lemma {:induction false} SortDescendingSorts(s: seq<LiveRecord>)
    requires DistinctSlots(s)
    ensures Descending(SortDescending(s)) && DistinctSlots(SortDescending(s))
    ensures forall y :: y in SortDescending(s) <==> y in s
    ensures SumLengths(SortDescending(s)) == SumLengths(s)
  {
    if s != [] {
      assert s == [s[0]] + s[1..];
      SortDescendingSorts(s[1..]);
      InsertDescendingMembers(SortDescending(s[1..]), s[0]);
      InsertDescendingOrdered(SortDescending(s[1..]), s[0]);
    }
  }

  lemma {:induction false} LiveLengths(slots: seq<Slot>, bytes: seq<Byte>, i: nat)
    requires i <= |slots| && |bytes| == PAGE_SIZE && Laid(slots, 0)
    ensures SumLengths(LiveFrom(slots, i)) == TotalLength(RecordsOf(slots[i..], bytes))
    decreases |slots| - i
  {
    if i < |slots| {
      LiveLengths(slots, bytes, i + 1);
      assert slots[i..][1..] == slots[i + 1..] && slots[i..][0] == slots[i];
      if !slots[i].IsEmpty() {
        assert InData(slots[i], 0);
        var live := LiveFrom(slots, i);
        assert live[1..] == LiveFrom(slots, i + 1);
      }
    }
  }

  lemma {:induction false} SumLengthsNext(s: seq<LiveRecord>, n: nat)
    requires n < |s|
    ensures SumLengths(s[..n + 1]) == SumLengths(s[..n]) + s[n].slot.length
  {
    if n == 0 {
      assert s[..1][1..] == [];
    } else {
      assert s[..n + 1][1..] == s[1..][..n] && s[..n][1..] == s[1..][..n - 1];
      SumLengthsNext(s[1..], n - 1);
    }
  }
}

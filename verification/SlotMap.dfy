/**
 What a slotted page means: records by slot number, and the bytes left between the
 slot directory and the record data.  Where the bytes lie does not matter here.
 */
module SlotMap {
  import opened Base

  type Record = seq<Byte>
  type Slots = seq<Option<Record>>

  const SLOT_ENTRY_SIZE := 4
  const HEADER_SIZE := 20

  datatype PageView = PageView(records: Slots, free: nat)

  const FORMATTED := PageView([], PAGE_SIZE - HEADER_SIZE)

  /** The record in slot s; none when the slot was never made or is empty. */
  function Get(records: Slots, s: nat): Option<Record> {
    if s < |records| then records[s] else None
  }

  /** The slot an insert takes: the first empty one, or a new one at the end. */
  function FirstEmpty(records: Slots): (s: nat)
    ensures s <= |records|
    ensures s < |records| ==> records[s].None?
    ensures forall k :: 0 <= k < s ==> records[k].Some?
  {
    if records == [] || records[0].None? then 0 else 1 + FirstEmpty(records[1..])
  }

  lemma {:induction false} FirstEmptyIs(records: Slots, s: nat)
    requires s <= |records| && (s < |records| ==> records[s].None?)
    requires forall k :: 0 <= k < s ==> records[k].Some?
    ensures FirstEmpty(records) == s
  {
  }

  function SetSlot(records: Slots, s: nat, r: Option<Record>): Slots
    requires s <= |records|
  {
    if s < |records| then records[s := r] else records + [r]
  }

  /** Bytes an insert of data takes out of the free space. */
  function InsertCost(records: Slots, data: Record): nat {
    |data| + if FirstEmpty(records) < |records| then 0 else SLOT_ENTRY_SIZE
  }

  predicate CanInsert(v: PageView, data: Record) {
    data != [] && InsertCost(v.records, data) <= v.free
  }

  /** The question HasSpaceFor answers; its 16-bit sum wraps around. */
  predicate HasRoom(v: PageView, length: U16) {
    (length + InsertCost(v.records, [])) % 0x1_0000 <= v.free
  }

  /**
   Whether that answer is right: not for the empty record that would fit, nor for a length that wraps to one that
   fits.
   */
  predicate AnswersRight(v: PageView, length: U16) {
    if length == 0 then InsertCost(v.records, []) > v.free
    else if FirstEmpty(v.records) < |v.records| || length < 0x1_0000 - SLOT_ENTRY_SIZE then true
    else length + SLOT_ENTRY_SIZE - 0x1_0000 > v.free
  }

  lemma HasRoomIff(v: PageView, length: U16)
    requires v.free <= PAGE_SIZE - HEADER_SIZE
    ensures forall data: Record :: |data| == length ==>
      ((HasRoom(v, length) <==> CanInsert(v, data)) <==> AnswersRight(v, length))
  {
    hide FirstEmpty;
    forall data: Record | |data| == length
      ensures (HasRoom(v, length) <==> CanInsert(v, data)) <==> AnswersRight(v, length)
    {
      assert InsertCost(v.records, data) == length + InsertCost(v.records, []);
    }
  }

  /** An empty page says it has room for 65535 bytes, and does not take them. */
  lemma HasRoomWraps(data: Record)
    requires |data| == 65535
    ensures HasRoom(FORMATTED, |data|) && !CanInsert(FORMATTED, data)
  {
  }

  function Insert(v: PageView, data: Record): PageView {
    if CanInsert(v, data)
    then PageView(SetSlot(v.records, FirstEmpty(v.records), Some(data)), v.free - InsertCost(v.records, data))
    else v
  }

  function InsertSlot(v: PageView, data: Record): Option<nat> {
    if CanInsert(v, data) then Some(FirstEmpty(v.records)) else None
  }

  function Delete(v: PageView, s: nat): PageView {
    if Get(v.records, s).Some? then v.(records := v.records[s := None]) else v
  }

  /** A growing update is let through when the growth fits, but writes the whole record. */
  predicate Overruns(v: PageView, s: nat, len: nat) {
    Get(v.records, s).Some? &&
    var was := |Get(v.records, s).value|;
    was < len && len - was <= v.free < len
  }

  predicate CanUpdate(v: PageView, s: nat, len: nat) {
    Get(v.records, s).Some? &&
    var was := |Get(v.records, s).value|;
    len <= was || len - was <= v.free
  }

  /** 50 free bytes and a record of 100 bytes: an update to 120 bytes is let through, and does not fit. */
  lemma GrowthOverruns(a: Record, b: Record)
    requires |a| == 100 && |b| == 3918
    ensures var v := Insert(Insert(FORMATTED, a), b);
      v.free == 50 && CanUpdate(v, 0, 120) && Overruns(v, 0, 120)
  {
    var one := Insert(FORMATTED, a);
    assert one == PageView([Some(a)], 3972);
    FirstEmptyIs(one.records, 1);
    assert Insert(one, b) == PageView([Some(a), Some(b)], 50);
  }

  function UpdateCost(v: PageView, s: nat, len: nat): nat
    requires CanUpdate(v, s, len)
  {
    if len <= |Get(v.records, s).value| then 0 else len
  }

  function Update(v: PageView, s: nat, data: Record): PageView
    requires !Overruns(v, s, |data|)
  {
    if CanUpdate(v, s, |data|)
    then PageView(v.records[s := Some(data)], v.free - UpdateCost(v, s, |data|))
    else v
  }

  function TotalLength(records: Slots): nat {
    if records == [] then 0
    else (if records[0].Some? then |records[0].value| else 0) + TotalLength(records[1..])
  }

  function LiveCount(records: Slots): (n: nat)
    ensures n <= |records|
  {
    if records == [] then 0 else (if records[0].Some? then 1 else 0) + LiveCount(records[1..])
  }

  /** The free space after compaction: nothing but the header, the slots and the live bytes is used. */
  function CompactFree(records: Slots): int {
    PAGE_SIZE - HEADER_SIZE - SLOT_ENTRY_SIZE * |records| - TotalLength(records)
  }

  lemma {:induction false} LiveCountSet(records: Slots, s: nat, r: Option<Record>)
    requires s < |records|
    ensures LiveCount(records[s := r]) ==
            LiveCount(records) - (if records[s].Some? then 1 else 0) + (if r.Some? then 1 else 0)
  {
    var after := records[s := r];
    if s > 0 {
      assert after[1..] == records[1..][s - 1 := r];
      LiveCountSet(records[1..], s - 1, r);
    } else {
      assert after[1..] == records[1..];
    }
  }

  lemma {:induction false} LiveCountAppend(records: Slots, r: Option<Record>)
    ensures LiveCount(records + [r]) == LiveCount(records) + if r.Some? then 1 else 0
  {
    if records == [] {
      assert records + [r] == [r];
      assert [r][1..] == [];
    } else {
      assert (records + [r])[1..] == records[1..] + [r];
      LiveCountAppend(records[1..], r);
    }
  }

  function LengthOf(r: Option<Record>): nat {
    if r.Some? then |r.value| else 0
  }

  lemma {:induction false} TotalLengthSet(records: Slots, s: nat, r: Option<Record>)
    requires s < |records|
    ensures TotalLength(records[s := r]) == TotalLength(records) - LengthOf(records[s]) + LengthOf(r)
    ensures LengthOf(records[s]) <= TotalLength(records)
  {
    var after := records[s := r];
    if s > 0 {
      assert after[1..] == records[1..][s - 1 := r];
      TotalLengthSet(records[1..], s - 1, r);
    } else {
      assert after[1..] == records[1..];
    }
  }

  lemma {:induction false} TotalLengthAppend(records: Slots, r: Option<Record>)
    ensures TotalLength(records + [r]) == TotalLength(records) + LengthOf(r)
  {
    if records == [] {
      assert records + [r] == [r] && [r][1..] == [];
    } else {
      assert (records + [r])[1..] == records[1..] + [r];
      TotalLengthAppend(records[1..], r);
    }
  }

  // ---------------------------------------------------------------- the page as a finite map

  /** The live records by slot number. */
  function AsMap(records: Slots): map<nat, Record> {
    map s: nat | s < |records| && records[s].Some? :: records[s].value
  }

  /** An insert adds one record under a slot that was free, the lowest one, and takes its bytes from the free space. */
  lemma InsertAdds(v: PageView, data: Record)
    requires CanInsert(v, data)
    ensures var s := FirstEmpty(v.records);
            && s !in AsMap(v.records) && (forall k: nat :: k < s ==> k in AsMap(v.records))
            && AsMap(Insert(v, data).records) == AsMap(v.records)[s := data]
            && Insert(v, data).free + |data| + (if s < |v.records| then 0 else 4) == v.free
            && |Insert(v, data).records| == |v.records| + if s < |v.records| then 0 else 1
  {
    var s := FirstEmpty(v.records);
    var before, after := AsMap(v.records), AsMap(Insert(v, data).records);
    forall k: nat ensures k in after <==> k == s || k in before {
    }
    assert after == before[s := data];
  }

  /** A record fits as long as its bytes and, where no slot is empty, the four of a new slot are free. */
  lemma InsertLimit(v: PageView, data: Record)
    ensures (forall k :: 0 <= k < |v.records| ==> v.records[k].Some?) ==>
      (CanInsert(v, data) <==> 1 <= |data| && |data| + 4 <= v.free)
    ensures (exists k :: 0 <= k < |v.records| && v.records[k].None?) ==>
      (CanInsert(v, data) <==> 1 <= |data| <= v.free)
    ensures !CanInsert(v, data) ==> Insert(v, data) == v && InsertSlot(v, data).None?
  {
  }

  lemma DeleteRemoves(v: PageView, s: nat)
    ensures AsMap(Delete(v, s).records) == AsMap(v.records) - {s}
    ensures Delete(v, s).free == v.free && |Delete(v, s).records| == |v.records|
  {
  }

  /** An update replaces one record; the bytes of one that grew come out of the free space. */
  lemma UpdateReplaces(v: PageView, s: nat, data: Record)
    requires CanUpdate(v, s, |data|) && !Overruns(v, s, |data|)
    ensures s in AsMap(v.records) && AsMap(Update(v, s, data).records) == AsMap(v.records)[s := data]
    ensures |Update(v, s, data).records| == |v.records|
    ensures Update(v, s, data).free + (if |data| <= |AsMap(v.records)[s]| then 0 else |data|) == v.free
  {
  }

  /** The longest update that is let through is the one that grows a record by all that is free. */
  lemma UpdateLimit(v: PageView, s: nat, len: nat)
    ensures CanUpdate(v, s, len) <==> s in AsMap(v.records) && len <= |AsMap(v.records)[s]| + v.free
    ensures forall data: Record :: |data| == len && !CanUpdate(v, s, len) && !Overruns(v, s, len) ==>
      Update(v, s, data) == v
  {
  }

  /** The record count of the header is the size of the map. */
  lemma {:induction false} CountIsSize(records: Slots)
    ensures LiveCount(records) == |AsMap(records)|
  {
    if records == [] {
      assert AsMap(records) == map[];
    } else {
      var n := |records| - 1;
      var front, last := records[..n], records[n];
      CountIsSize(front);
      LiveCountAppend(front, last);
      assert records == front + [last];
      assert AsMap(records) == if last.Some? then AsMap(front)[n := last.value] else AsMap(front);
    }
  }
}

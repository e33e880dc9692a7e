/** The bookkeeping of the buffer pool: which page is in which frame, and what callers see of the pages. */
module BufferFrames {
  import opened Base
  import opened Bytes
  import opened SlotMap
  import opened PageCodec
  import opened Disk

  datatype FrameMeta = FrameMeta(pageId: PageId, pinCount: nat, dirty: bool) {
    predicate IsOccupied() {
      pageId != INVALID_PAGE_ID
    }
  }

  const EMPTY_FRAME := FrameMeta(INVALID_PAGE_ID, 0, false)

  type Table = map<PageId, nat>

  // ---------------------------------------------------------------- accounting

  /**
   An occupied frame is the one the page table names for its page, and the replacer lists it
   exactly when nobody holds it; any other frame is on the free list.
   */
  predicate Accounted(meta: seq<FrameMeta>, table: Table, free: seq<nat>, lru: seq<nat>, f: nat)
    requires f < |meta|
  {
    if meta[f].IsOccupied() then
      && meta[f].pageId in table && table[meta[f].pageId] == f
      && f !in free
      && (f in lru <==> meta[f].pinCount == 0)
    else f in free && f !in lru && meta[f] == EMPTY_FRAME
  }

  /** A frame just taken from the free list or the replacer belongs to neither. */
  predicate InTransit(meta: seq<FrameMeta>, table: Table, free: seq<nat>, lru: seq<nat>, f: nat)
    requires f < |meta|
  {
    && f !in free && f !in lru && meta[f].pinCount == 0
    && (meta[f].IsOccupied() ==> meta[f].pageId in table && table[meta[f].pageId] == f)
    && (!meta[f].IsOccupied() ==> meta[f] == EMPTY_FRAME)
  }

  /** All frames are accounted for but the one in transit, if there is one. */
  ghost predicate Accounts(meta: seq<FrameMeta>, table: Table, free: seq<nat>, lru: seq<nat>, transit: Option<nat>) {
    && NoDup(free) && NoDup(lru)
    && (forall f :: f in free || f in lru ==> f < |meta|)
    && (transit.Some? ==> transit.value < |meta| && InTransit(meta, table, free, lru, transit.value))
    && (forall f :: 0 <= f < |meta| && transit != Some(f) ==> Accounted(meta, table, free, lru, f))
    && (forall p :: p in table ==> p != INVALID_PAGE_ID && table[p] < |meta| && meta[table[p]].pageId == p)
  }

  lemma TakeFree(meta: seq<FrameMeta>, table: Table, free: seq<nat>, lru: seq<nat>)
    requires Accounts(meta, table, free, lru, None) && free != []
    ensures Accounts(meta, table, free[1..], lru, Some(free[0])) && !meta[free[0]].IsOccupied()
  {
    var f := free[0];
    assert f in free && Accounted(meta, table, free, lru, f);
    assert forall g :: g in free[1..] ==> g in free;
    forall g | 0 <= g < |meta| && g != f ensures Accounted(meta, table, free[1..], lru, g) {
      assert Accounted(meta, table, free, lru, g);
      assert g in free <==> g in free[1..];
    }
  }

  lemma TakeLast(meta: seq<FrameMeta>, table: Table, free: seq<nat>, lru: seq<nat>)
    requires Accounts(meta, table, free, lru, None) && lru != []
    ensures Accounts(meta, table, free, lru[..|lru| - 1], Some(lru[|lru| - 1])) && meta[lru[|lru| - 1]].IsOccupied()
  {
    var n := |lru| - 1;
    var f := lru[n];
    assert f in lru && Accounted(meta, table, free, lru, f);
    assert forall g :: g in lru[..n] ==> g in lru;
    forall g | 0 <= g < |meta| && g != f ensures Accounted(meta, table, free, lru[..n], g) {
      assert Accounted(meta, table, free, lru, g);
      assert g in lru <==> g in lru[..n] by {
        assert lru == lru[..n] + [f];
      }
    }
  }

  /** The evicted page leaves the table, its frame is empty and still in transit. */
  lemma Vacate(meta: seq<FrameMeta>, table: Table, free: seq<nat>, lru: seq<nat>, f: nat)
    requires Accounts(meta, table, free, lru, Some(f)) && meta[f].IsOccupied()
    ensures Accounts(meta[f := EMPTY_FRAME], table - {meta[f].pageId}, free, lru, Some(f))
  {
  }

  lemma GiveBack(meta: seq<FrameMeta>, table: Table, free: seq<nat>, lru: seq<nat>, f: nat)
    requires Accounts(meta, table, free, lru, Some(f)) && !meta[f].IsOccupied()
    ensures Accounts(meta, table, free + [f], lru, None)
  {
  }

  /** A frame in transit becomes the home of a page that had none. */
  lemma Occupy(meta: seq<FrameMeta>, table: Table, free: seq<nat>, lru: seq<nat>, f: nat, m: FrameMeta)
    requires Accounts(meta, table, free, lru, Some(f)) && !meta[f].IsOccupied()
    requires m.IsOccupied() && m.pageId !in table && m.pinCount > 0
    ensures Accounts(meta[f := m], table[m.pageId := f], free, lru, None)
  {
  }

  /** Metadata of a frame that stays with its page and on its side of the replacer. */
  lemma Remark(meta: seq<FrameMeta>, table: Table, free: seq<nat>, lru: seq<nat>, transit: Option<nat>, f: nat,
               m: FrameMeta)
    requires Accounts(meta, table, free, lru, transit) && f < |meta| && meta[f].IsOccupied()
    requires m.pageId == meta[f].pageId && (m.pinCount == 0 <==> meta[f].pinCount == 0)
    ensures Accounts(meta[f := m], table, free, lru, transit)
  {
  }

  /** First pin: the frame leaves the replacer. */
  lemma Pin(meta: seq<FrameMeta>, table: Table, free: seq<nat>, lru: seq<nat>, lru': seq<nat>, f: nat, m: FrameMeta)
    requires Accounts(meta, table, free, lru, None) && f < |meta| && meta[f].IsOccupied()
    requires m.pageId == meta[f].pageId && m.pinCount > 0
    requires NoDup(lru') && forall g :: g in lru' <==> g in lru && g != f
    ensures Accounts(meta[f := m], table, free, lru', None)
  {
  }

  /** Last unpin: the frame enters the replacer. */
  lemma Unpin(meta: seq<FrameMeta>, table: Table, free: seq<nat>, lru: seq<nat>, f: nat, m: FrameMeta)
    requires Accounts(meta, table, free, lru, None) && f < |meta| && meta[f].IsOccupied() && meta[f].pinCount > 0
    requires m.pageId == meta[f].pageId && m.pinCount == 0
    ensures f !in lru && Accounts(meta[f := m], table, free, [f] + lru, None)
  {
    var meta', lru' := meta[f := m], [f] + lru;
    assert Accounted(meta, table, free, lru, f);
    forall g | 0 <= g < |meta| ensures Accounted(meta', table, free, lru', g) {
      assert Accounted(meta, table, free, lru, g);
    }
  }

  /** The frame of a deleted page goes straight to the free list. */
  lemma Release(meta: seq<FrameMeta>, table: Table, free: seq<nat>, lru: seq<nat>, lru': seq<nat>, f: nat)
    requires Accounts(meta, table, free, lru, None) && f < |meta| && meta[f].IsOccupied()
    requires NoDup(lru') && forall g :: g in lru' <==> g in lru && g != f
    ensures Accounts(meta[f := EMPTY_FRAME], table - {meta[f].pageId}, free + [f], lru', None)
  {
    var meta', table', free' := meta[f := EMPTY_FRAME], table - {meta[f].pageId}, free + [f];
    assert Accounted(meta, table, free, lru, f);
    forall g | 0 <= g < |meta| ensures Accounted(meta', table', free', lru', g) {
      assert Accounted(meta, table, free, lru, g);
    }
  }

  /** Every frame is on the free list, in the replacer or pinned, and only one of these. */
  lemma ThreeWays(meta: seq<FrameMeta>, table: Table, free: seq<nat>, lru: seq<nat>, f: nat)
    requires Accounts(meta, table, free, lru, None) && f < |meta|
    ensures f in free ==> f !in lru && meta[f].pinCount == 0
    ensures f in lru ==> f !in free && meta[f].pinCount == 0
    ensures meta[f].pinCount > 0 ==> f !in free && f !in lru
    ensures f in free || f in lru || meta[f].pinCount > 0
    ensures f !in free <==> exists p :: p in table && table[p] == f
  {
    assert Accounted(meta, table, free, lru, f);
  }

  // ---------------------------------------------------------------- what callers see

  /** Every resident page has an encodable image in a frame of its own. */
  ghost predicate Mapped(frames: seq<PageImage>, table: Table) {
    && (forall p :: p in table ==> table[p] < |frames| && Coded(frames[table[p]]))
    && (forall p, q :: p in table && q in table && p != q ==> table[p] != table[q])
  }

  /** The bytes of page p: what its frame would write, or else what the disk holds. */
  ghost function ShownAt(frames: seq<PageImage>, table: Table, file: File, p: PageId): seq<Byte>
    requires Mapped(frames, table) && p < |file|
  {
    if p in table then ToBytes(frames[table[p]]) else file[p]
  }

  /** All live pages with their bytes. */
  ghost function Shown(frames: seq<PageImage>, table: Table, file: File, free: seq<PageId>): imap<PageId, seq<Byte>>
    requires Mapped(frames, table)
  {
    imap p: PageId | 1 <= p < |file| && p !in free :: ShownAt(frames, table, file, p)
  }

  /** An image and the same image with its own bytes written into its buffer mean the same page. */
  lemma WrittenImage(img: PageImage)
    requires Coded(img)
    ensures Coded(img.(bytes := ToBytes(img))) && ToBytes(img.(bytes := ToBytes(img))) == ToBytes(img)
    ensures DirectoryFits(DecodeHeader(ToBytes(img)).numSlots)
  {
    FromToBytes(img);
    assert DecodeHeader(ToBytes(img)) == FromBytes(ToBytes(img)).header;
    ToFromBytes(ToBytes(img));
  }

  lemma WriteBackShows(frames: seq<PageImage>, table: Table, file: File, free: seq<PageId>, p: PageId, img: PageImage)
    requires Mapped(frames, table) && p in table && p < |file|
    requires Coded(img) && ToBytes(img) == ToBytes(frames[table[p]])
    ensures Mapped(frames[table[p] := img], table)
    ensures Shown(frames[table[p] := img], table, file[p := ToBytes(img)], free) == Shown(frames, table, file, free)
  {
    hide ToBytes, Coded;
  }

  lemma EvictShows(frames: seq<PageImage>, table: Table, file: File, free: seq<PageId>, p: PageId)
    requires Mapped(frames, table) && p in table && p < |file| && ToBytes(frames[table[p]]) == file[p]
    ensures Mapped(frames, table - {p})
    ensures Shown(frames, table - {p}, file, free) == Shown(frames, table, file, free)
  {
  }

  /** A page in a frame of its own becomes visible, and no other page changes. */
  lemma NewShows(frames: seq<PageImage>, table: Table, file: File, free: seq<PageId>,
                 file': File, free': seq<PageId>, p: PageId, f: nat, img: PageImage)
    requires Mapped(frames, table) && p !in table && Coded(img)
    requires f < |frames| && (forall q :: q in table ==> table[q] != f)
    requires 1 <= p < |file'| && p !in free' && |file| <= |file'|
    requires forall q: PageId :: 1 <= q < |file'| && q !in free' <==> q == p || (1 <= q < |file| && q !in free)
    requires forall q :: 1 <= q < |file| && q != p ==> file'[q] == file[q]
    ensures Mapped(frames[f := img], table[p := f])
    ensures Shown(frames[f := img], table[p := f], file', free') == Shown(frames, table, file, free)[p := ToBytes(img)]
  {
    hide ToBytes, Coded;
    var frames', table' := frames[f := img], table[p := f];
    forall q | q in table' ensures table'[q] < |frames'| && Coded(frames'[table'[q]]) {
      assert q != p ==> q in table;
    }
  }

  /** Reading a live page from disk into a frame shows what was there before. */
  lemma LoadShows(frames: seq<PageImage>, table: Table, file: File, free: seq<PageId>, p: PageId, f: nat)
    requires Mapped(frames, table) && p !in table && 1 <= p < |file| && p !in free && |file[p]| == PAGE_SIZE
    requires f < |frames| && (forall q :: q in table ==> table[q] != f)
    requires DirectoryFits(DecodeHeader(file[p]).numSlots)
    ensures Coded(FromBytes(file[p])) && ToBytes(FromBytes(file[p])) == file[p]
    ensures Mapped(frames[f := FromBytes(file[p])], table[p := f])
    ensures Shown(frames[f := FromBytes(file[p])], table[p := f], file, free) == Shown(frames, table, file, free)
  {
    ToFromBytes(file[p]);
    NewShows(frames, table, file, free, file, free, p, f, FromBytes(file[p]));
  }

  /** A page that is freed disappears, and no other page changes. */
  lemma DeleteShows(frames: seq<PageImage>, table: Table, file: File, free: seq<PageId>, file': File, p: PageId)
    requires Mapped(frames, table) && |file'| == |file|
    requires forall q :: 1 <= q < |file| && q != p ==> file'[q] == file[q]
    ensures Mapped(frames, table - {p})
    ensures Shown(frames, table - {p}, file', [p] + free) == Shown(frames, table, file, free) - {p}
  {
  }

  lemma RewriteShows(frames: seq<PageImage>, table: Table, file: File, free: seq<PageId>, p: PageId, img: PageImage)
    requires Mapped(frames, table) && p in table && Coded(img) && 1 <= p < |file| && p !in free
    ensures Mapped(frames[table[p] := img], table)
    ensures Shown(frames[table[p] := img], table, file, free) == Shown(frames, table, file, free)[p := ToBytes(img)]
  {
    hide ToBytes, Coded;
  }

  // ---------------------------------------------------------------- the whole state of a pool

  datatype PoolState = PoolState(frames: seq<PageImage>, meta: seq<FrameMeta>, free: seq<nat>, lru: seq<nat>,
                                 table: Table,
                                 file: File, diskFree: seq<PageId>, pending: set<PageId>)

  predicate ResidentLive(table: Table, file: File, free: seq<PageId>) {
    forall p :: p in table ==> 1 <= p < |file| && p !in free
  }

  ghost predicate DiskReadable(file: File, free: seq<PageId>) {
    forall p: PageId :: 1 <= p < |file| && p !in free ==> DirectoryFits(DecodeHeader(file[p]).numSlots)
  }

  /** A frame that is neither dirty nor written by a holder who has yet to say so equals its page on disk. */
  ghost predicate Synced(meta: seq<FrameMeta>, frames: seq<PageImage>, table: Table, file: File, pending: set<PageId>)
    requires Mapped(frames, table) && |meta| == |frames|
  {
    forall p :: p in table && p < |file| ==>
      meta[table[p]].dirty || p in pending || ToBytes(frames[table[p]]) == file[p]
  }

  /** Only pages that are held can have unannounced writes. */
  predicate PendingPinned(meta: seq<FrameMeta>, table: Table, pending: set<PageId>) {
    forall p :: p in pending ==> p in table && table[p] < |meta| && meta[table[p]].pinCount > 0
  }

  ghost predicate Sound(s: PoolState, transit: Option<nat>) {
    && |s.frames| == |s.meta|
    && Accounts(s.meta, s.table, s.free, s.lru, transit)
    && Mapped(s.frames, s.table)
    && WholePages(s.file)
    && ResidentLive(s.table, s.file, s.diskFree)
    && DiskReadable(s.file, s.diskFree)
    && Synced(s.meta, s.frames, s.table, s.file, s.pending)
    && PendingPinned(s.meta, s.table, s.pending)
  }

  ghost function Seen(s: PoolState): imap<PageId, seq<Byte>>
    requires Mapped(s.frames, s.table)
  {
    Shown(s.frames, s.table, s.file, s.diskFree)
  }

  /** The frame is occupied and the page table agrees. */
  predicate Home(s: PoolState, f: nat) {
    f < |s.meta| && s.meta[f].IsOccupied() && s.meta[f].pageId in s.table && s.table[s.meta[f].pageId] == f
  }

  /** The invariants beside accounting and visibility, for one step that moves page p into or within frame f. */
  lemma PlacedRest(s: PoolState, s': PoolState, p: PageId, f: nat)
    requires Sound(s, Some(f)) && p !in s.table && f < |s.meta| && (forall q :: q in s.table ==> s.table[q] != f)
    requires s'.table == s.table[p := f] && s'.pending == s.pending && |s'.meta| == |s.meta| == |s'.frames|
    requires forall g :: 0 <= g < |s.meta| && g != f ==> s'.meta[g] == s.meta[g] && s'.frames[g] == s.frames[g]
    requires 1 <= p < |s'.file| && p !in s'.diskFree && WholePages(s'.file) && Mapped(s'.frames, s'.table)
    requires |s.file| <= |s'.file| && forall q :: 1 <= q < |s.file| && q != p ==> s'.file[q] == s.file[q]
    requires forall q: PageId :: 1 <= q < |s'.file| && q !in s'.diskFree <==>
      q == p || (1 <= q < |s.file| && q !in s.diskFree)
    requires Coded(s'.frames[f]) && (s'.meta[f].dirty || ToBytes(s'.frames[f]) == s'.file[p])
    requires DirectoryFits(DecodeHeader(s'.file[p]).numSlots)
    ensures ResidentLive(s'.table, s'.file, s'.diskFree) && DiskReadable(s'.file, s'.diskFree)
    ensures Synced(s'.meta, s'.frames, s'.table, s'.file, s'.pending) && PendingPinned(s'.meta, s'.table, s'.pending)
  {
    hide ToBytes, Coded, DecodeHeader, DirectoryFits, Accounts;
    forall q | q in s'.pending ensures q in s'.table && s'.table[q] < |s'.meta| && s'.meta[s'.table[q]].pinCount > 0 {
      assert q in s.table;
    }
  }

  // ---------------------------------------------------------------- steps

  lemma TakeFreeStep(s: PoolState)
    requires Sound(s, None) && s.free != []
    ensures var s' := s.(free := s.free[1..]);
            && Sound(s', Some(s.free[0])) && s.free[0] < |s.meta| && !s.meta[s.free[0]].IsOccupied()
            && Seen(s') == Seen(s)
  {
    TakeFree(s.meta, s.table, s.free, s.lru);
    hide Accounts, Shown;
  }

  lemma TakeLastStep(s: PoolState)
    requires Sound(s, None) && s.lru != []
    ensures var n := |s.lru| - 1;
            var s' := s.(lru := s.lru[..n]);
            Sound(s', Some(s.lru[n])) && s.lru[n] < |s.meta| && Home(s', s.lru[n]) && Seen(s') == Seen(s)
  {
    TakeLast(s.meta, s.table, s.free, s.lru);
    hide Shown;
  }

  /** The frame's page written to disk, its dirty flag cleared. */
  function WrittenBack(s: PoolState, f: nat, bytes: seq<Byte>): PoolState
    requires f < |s.meta| == |s.frames| && s.meta[f].pageId < |s.file|
  {
    s.(frames := s.frames[f := s.frames[f].(bytes := bytes)],
       meta := s.meta[f := s.meta[f].(dirty := false)],
       file := s.file[s.meta[f].pageId := bytes])
  }

  lemma WriteBackStep(s: PoolState, transit: Option<nat>, f: nat)
    requires Sound(s, transit) && Home(s, f)
    ensures Coded(s.frames[f]) && 1 <= s.meta[f].pageId < |s.file| && s.meta[f].pageId !in s.diskFree
    ensures var s' := WrittenBack(s, f, ToBytes(s.frames[f]));
            Sound(s', transit) && Home(s', f) && Seen(s') == Seen(s)
            && Coded(s'.frames[f]) && ToBytes(s'.frames[f]) == s'.file[s.meta[f].pageId]
  {
    var p, img := s.meta[f].pageId, s.frames[f];
    assert Coded(img);
    var img' := img.(bytes := ToBytes(img));
    WrittenImage(img);
    hide ToBytes, Coded, DecodeHeader, DirectoryFits, Shown, Accounted, InTransit;
    WriteBackShows(s.frames, s.table, s.file, s.diskFree, p, img');
    Remark(s.meta, s.table, s.free, s.lru, transit, f, s.meta[f].(dirty := false));
    hide Accounts, Synced, PendingPinned, ResidentLive, DiskReadable, Mapped;
    WrittenBackRest(s, transit, f, ToBytes(img));
  }

  lemma WrittenBackRest(s: PoolState, transit: Option<nat>, f: nat, bytes: seq<Byte>)
    requires Sound(s, transit) && Home(s, f) && |bytes| == PAGE_SIZE && DirectoryFits(DecodeHeader(bytes).numSlots)
    requires s.meta[f].pageId < |s.file| && f < |s.frames|
    requires var img' := s.frames[f].(bytes := bytes); Coded(img') && ToBytes(img') == bytes
    ensures var s' := WrittenBack(s, f, bytes);
            && Mapped(s'.frames, s'.table) && WholePages(s'.file)
            && ResidentLive(s'.table, s'.file, s'.diskFree) && DiskReadable(s'.file, s'.diskFree)
            && Synced(s'.meta, s'.frames, s'.table, s'.file, s'.pending) && PendingPinned(s'.meta, s'.table, s'.pending)
  {
    hide ToBytes, Coded, DecodeHeader, DirectoryFits, Accounted, InTransit;
  }

  /** A clean page that nobody holds leaves its frame. */
  function Vacated(s: PoolState, f: nat): PoolState
    requires f < |s.meta|
  {
    s.(meta := s.meta[f := EMPTY_FRAME], table := s.table - {s.meta[f].pageId})
  }

  lemma VacateStep(s: PoolState, f: nat)
    requires Sound(s, Some(f)) && Home(s, f) && !s.meta[f].dirty
    ensures var s' := Vacated(s, f);
            Sound(s', Some(f)) && !s'.meta[f].IsOccupied() && Seen(s') == Seen(s)
  {
    var p := s.meta[f].pageId;
    assert p !in s.pending && ToBytes(s.frames[f]) == s.file[p];
    Vacate(s.meta, s.table, s.free, s.lru, f);
    VacatedRest(s, f, p);
    hide Accounts, Mapped, Synced, PendingPinned, ResidentLive, DiskReadable, Shown, ToBytes;
    EvictShows(s.frames, s.table, s.file, s.diskFree, p);
  }

  lemma VacatedRest(s: PoolState, f: nat, p: PageId)
    requires Sound(s, Some(f)) && Home(s, f) && p == s.meta[f].pageId && p !in s.pending
    ensures var s' := Vacated(s, f);
            && Mapped(s'.frames, s'.table)
            && ResidentLive(s'.table, s'.file, s'.diskFree)
            && Synced(s'.meta, s'.frames, s'.table, s'.file, s'.pending) && PendingPinned(s'.meta, s'.table, s'.pending)
  {
    hide ToBytes, Coded, DecodeHeader, DirectoryFits, Accounts;
  }

  function Loaded(s: PoolState, p: PageId, f: nat): PoolState
    requires f < |s.meta| == |s.frames| && p < |s.file|
  {
    s.(frames := s.frames[f := FromBytes(s.file[p])], meta := s.meta[f := FrameMeta(p, 1, false)],
       table := s.table[p := f])
  }

  lemma FreeOfPages(s: PoolState, f: nat)
    requires Sound(s, Some(f)) && !s.meta[f].IsOccupied()
    ensures forall q :: q in s.table ==> s.table[q] != f
  {
  }

  lemma LoadStep(s: PoolState, p: PageId, f: nat)
    requires Sound(s, Some(f)) && !s.meta[f].IsOccupied() && p !in s.table
    requires 1 <= p < |s.file| && p !in s.diskFree && p != INVALID_PAGE_ID
    ensures var s' := Loaded(s, p, f); Sound(s', None) && Seen(s') == Seen(s)
  {
    FreeOfPages(s, f);
    hide Accounts, Mapped, Shown, Synced, PendingPinned, ToBytes, FromBytes, Coded, DecodeHeader, DirectoryFits;
    Occupy(s.meta, s.table, s.free, s.lru, f, FrameMeta(p, 1, false));
    LoadShows(s.frames, s.table, s.file, s.diskFree, p, f);
    PlacedRest(s, Loaded(s, p, f), p, f);
  }

  /** The page as NewPage sets it up in its frame. */
  function FreshImage(p: PageId): (img: PageImage)
    ensures Coded(img)
  {
    PageImage(Header(p, 0, HEADER_SIZE, PAGE_SIZE, 0, INVALID_PAGE_ID, 0), [], Zeros(PAGE_SIZE))
  }

  lemma {:induction false} FreshIsFormatted(p: PageId)
    ensures NewlyFormatted(ToBytes(FreshImage(p)), p)
  {
    hide ToBytes, Get2, Get4;
    FieldsStand(FreshImage(p));
  }

  function Created(s: PoolState, p: PageId, f: nat, file: File, diskFree: seq<PageId>): PoolState
    requires f < |s.meta| == |s.frames|
  {
    s.(frames := s.frames[f := FreshImage(p)], meta := s.meta[f := FrameMeta(p, 1, true)], table := s.table[p := f],
       file := file, diskFree := diskFree)
  }

  /** What the disk manager's AllocatePage promises. */
  ghost predicate Allocated(file: File, free: seq<PageId>, file': File, free': seq<PageId>, p: PageId) {
    && 1 <= p < |file'| && p !in free' && !(p < |file| && p !in free) && |file| <= |file'| && WholePages(file')
    && (forall q: PageId :: 1 <= q < |file'| && q !in free' <==> q == p || (1 <= q < |file| && q !in free))
    && (forall q :: 1 <= q < |file| && q != p ==> file'[q] == file[q])
    && file'[p] == Zeros(PAGE_SIZE) && p != INVALID_PAGE_ID
  }

  lemma CreateStep(s: PoolState, p: PageId, f: nat, file': File, free': seq<PageId>)
    requires Sound(s, Some(f)) && !s.meta[f].IsOccupied() && Allocated(s.file, s.diskFree, file', free', p)
    ensures p !in s.table && p !in Seen(s)
    ensures var s' := Created(s, p, f, file', free');
            Sound(s', None) && Seen(s') == Seen(s)[p := ToBytes(FreshImage(p))]
  {
    FreeOfPages(s, f);
    assert DirectoryFits(DecodeHeader(file'[p]).numSlots);
    hide Accounts, Mapped, Synced, PendingPinned, ToBytes, Coded, DecodeHeader, DirectoryFits, FreshImage;
    Occupy(s.meta, s.table, s.free, s.lru, f, FrameMeta(p, 1, true));
    NewShows(s.frames, s.table, s.file, s.diskFree, file', free', p, f, FreshImage(p));
    PlacedRest(s, Created(s, p, f, file', free'), p, f);
    hide DiskReadable;
  }

  function Rewritten(s: PoolState, p: PageId, img: PageImage): PoolState
    requires p in s.table && s.table[p] < |s.frames|
  {
    s.(frames := s.frames[s.table[p] := img], pending := s.pending + {p})
  }

  lemma RewriteStep(s: PoolState, p: PageId, img: PageImage)
    requires Sound(s, None) && p in s.table && s.meta[s.table[p]].pinCount > 0 && Coded(img)
    ensures var s' := Rewritten(s, p, img);
            Sound(s', None) && Seen(s') == Seen(s)[p := ToBytes(img)]
  {
    hide ToBytes, Coded, DecodeHeader, DirectoryFits, Shown, Accounts, DiskReadable;
    RewriteShows(s.frames, s.table, s.file, s.diskFree, p, img);
    var s' := Rewritten(s, p, img);
    assert Synced(s'.meta, s'.frames, s'.table, s'.file, s'.pending);
  }

  /** New metadata for a resident page, with the replacer and the unannounced writes to match. */
  function Marked(s: PoolState, f: nat, m: FrameMeta, lru: seq<nat>, pending: set<PageId>): PoolState
    requires f < |s.meta|
  {
    s.(meta := s.meta[f := m], lru := lru, pending := pending)
  }

  lemma MarkStep(s: PoolState, f: nat, m: FrameMeta, lru: seq<nat>, pending: set<PageId>)
    requires Sound(s, None) && Home(s, f) && m.pageId == s.meta[f].pageId
    requires Accounts(s.meta[f := m], s.table, s.free, lru, None)
    requires pending <= s.pending && s.pending - {m.pageId} <= pending
    requires m.pageId in s.pending && m.pageId !in pending ==> m.dirty
    requires s.meta[f].dirty ==> m.dirty
    requires m.pinCount == 0 ==> m.pageId !in pending
    ensures var s' := Marked(s, f, m, lru, pending);
            Sound(s', None) && Seen(s') == Seen(s)
  {
    hide ToBytes, Coded, DecodeHeader, DirectoryFits, Shown, Accounted, InTransit;
    forall p | p in s.table && p != m.pageId ensures s.table[p] != f {
    }
    hide Accounts;
  }

  function Deleted(s: PoolState, f: nat, lru: seq<nat>, file: File): PoolState
    requires f < |s.meta|
  {
    var p := s.meta[f].pageId;
    s.(meta := s.meta[f := EMPTY_FRAME], free := s.free + [f], lru := lru, table := s.table - {p},
       file := file, diskFree := [p] + s.diskFree)
  }

  lemma DeleteStep(s: PoolState, f: nat, lru: seq<nat>, file': File)
    requires Sound(s, None) && Home(s, f) && s.meta[f].pinCount == 0 && |file'| == |s.file| && WholePages(file')
    requires NoDup(lru) && forall g :: g in lru <==> g in s.lru && g != f
    requires forall q :: 1 <= q < |s.file| && q != s.meta[f].pageId ==> file'[q] == s.file[q]
    ensures var s' := Deleted(s, f, lru, file');
            Sound(s', None) && Seen(s') == Seen(s) - {s.meta[f].pageId}
  {
    var p := s.meta[f].pageId;
    Release(s.meta, s.table, s.free, s.lru, lru, f);
    forall q | q in s.table && q != p ensures s.table[q] != f {
    }
    DeletedRest(s, Deleted(s, f, lru, file'), p, f);
    hide Accounts, Mapped, Synced, PendingPinned, ResidentLive, DiskReadable, Shown;
    DeleteShows(s.frames, s.table, s.file, s.diskFree, file', p);
  }

  lemma DeletedRest(s: PoolState, s': PoolState, p: PageId, f: nat)
    requires Sound(s, None) && f < |s.meta| && (p in s.table ==> s.meta[f].pinCount == 0)
    requires forall q :: q in s.table && q != p ==> s.table[q] != f
    requires p in s.table ==> s.table[p] == f
    requires s'.table == s.table - {p} && s'.pending == s.pending && s'.frames == s.frames && |s'.meta| == |s.meta|
    requires forall g :: 0 <= g < |s.meta| && g != f ==> s'.meta[g] == s.meta[g]
    requires |s.file| == |s'.file| && (forall q :: 1 <= q < |s.file| && q != p ==> s'.file[q] == s.file[q])
    requires s'.diskFree == [p] + s.diskFree
    ensures Mapped(s'.frames, s'.table)
    ensures ResidentLive(s'.table, s'.file, s'.diskFree) && DiskReadable(s'.file, s'.diskFree)
    ensures Synced(s'.meta, s'.frames, s'.table, s'.file, s'.pending) && PendingPinned(s'.meta, s'.table, s'.pending)
  {
    hide ToBytes, Coded, DecodeHeader, DirectoryFits, Accounts;
    assert p !in s.pending;
  }

  /** A live page that is not in memory is freed on disk. */
  lemma DeleteOnDiskStep(s: PoolState, p: PageId, file': File)
    requires Sound(s, None) && p !in s.table && |file'| == |s.file| && WholePages(file')
    requires forall q :: 1 <= q < |s.file| && q != p ==> file'[q] == s.file[q]
    ensures var s' := s.(file := file', diskFree := [p] + s.diskFree);
            Sound(s', None) && Seen(s') == Seen(s) - {p}
  {
    hide ToBytes, Coded, DecodeHeader, DirectoryFits, Shown, Accounts;
    DeleteShows(s.frames, s.table, s.file, s.diskFree, file', p);
    assert s.table - {p} == s.table;
  }
}

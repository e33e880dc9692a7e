/** A write-back page cache with pins, dirty flags and least-recently-used eviction over the disk manager. */
module BufferPool {
  import opened Base
  import opened Bytes
  import opened PageCodec
  import opened Disk
  import opened BufferFrames
  import opened Counting
  import opened Recency

  /** The frames that nobody holds, the most recently released first. */
  class LruReplacer {
    var list: seq<nat>

    constructor ()
      ensures list == []
    {
      list := [];
    }

    method RecordAccess(f: nat)
      modifies this
      ensures list == [f] + Without(old(list), f)
    {
      list := [f] + Without(list, f);
    }

    method Remove(f: nat)
      modifies this
      ensures list == Without(old(list), f)
    {
      list := Without(list, f);
    }

    /** Takes the frame released longest ago. */
    method Evict() returns (victim: Option<nat>)
      modifies this
      ensures if old(list) == [] then victim.None? && list == []
              else victim == Some(old(list)[|old(list)| - 1]) && list == old(list)[..|old(list)| - 1]
    {
      if list == [] {
        return None;
      }
      victim := Some(list[|list| - 1]);
      list := list[..|list| - 1];
    }
  }

  class BufferPoolManager {
    const poolSize: nat
    const disk: DiskManager
    const replacer: LruReplacer
    var frames: seq<PageImage>
    var meta: seq<FrameMeta>
    var freeList: seq<nat>
    var pageTable: Table
    /** Pages written by a holder who has not released them as dirty yet. */
    ghost var pending: set<PageId>

    ghost function State(): PoolState
      reads this, disk, replacer
    {
      PoolState(frames, meta, freeList, replacer.list, pageTable, disk.file, disk.free, pending)
    }

    ghost predicate Ready(transit: Option<nat>)
      reads this, disk, replacer
    {
      disk.Valid() && |frames| == |meta| == poolSize > 0 && Sound(State(), transit)
    }

    ghost predicate Valid()
      reads this, disk, replacer
    {
      Ready(None)
    }

    /** All live pages and their bytes, wherever they are. */
    ghost function View(): imap<PageId, seq<Byte>>
      requires Mapped(frames, pageTable)
      reads this, disk, replacer
    {
      Seen(State())
    }

    ghost function PinCount(p: PageId): nat
      reads this, disk, replacer
    {
      PinsOf(State(), p)
    }

    constructor (poolSize: nat, disk: DiskManager)
      requires poolSize > 0 && disk.Valid() && DiskReadable(disk.file, disk.free)
      ensures Valid() && fresh(replacer) && this.disk == disk && this.poolSize == poolSize
      ensures pageTable == map[] && pending == {} && replacer.list == []
      ensures forall p: PageId :: p in View() <==> disk.Live(p)
      ensures forall p: PageId :: disk.Live(p) ==> View()[p] == disk.file[p]
    {
      this.poolSize := poolSize;
      this.disk := disk;
      replacer := new LruReplacer();
      frames := seq(poolSize, _ => FreshImage(INVALID_PAGE_ID));
      meta := seq(poolSize, _ => EMPTY_FRAME);
      freeList := seq(poolSize, i => i);
      pageTable := map[];
      pending := {};
      new;
      forall f | 0 <= f < poolSize ensures Accounted(meta, pageTable, freeList, replacer.list, f) {
        assert freeList[f] == f;
      }
    }

    // -------------------------------------------------------------- frames

    /** Writes the frame's page to disk and clears its dirty flag. */
    method WriteBack(ghost transit: Option<nat>, f: nat)
      requires Ready(transit) && Home(State(), f)
      modifies this`frames, this`meta, disk`file
      ensures Ready(transit) && Home(State(), f) && View() == old(View())
      ensures Coded(old(frames)[f]) && State() == WrittenBack(old(State()), f, ToBytes(old(frames)[f]))
      ensures Coded(frames[f]) && ToBytes(frames[f]) == disk.file[meta[f].pageId]
      ensures (forall q :: PinCount(q) == old(PinCount(q))) && |disk.file| == old(|disk.file|)
    {
      hide Sound, Seen, ToBytes, Coded, FileHolds;
      WriteBackStep(State(), transit, f);
      var p := meta[f].pageId;
      frames := frames[f := frames[f].(bytes := ToBytes(frames[f]))];
      var ok := disk.WritePage(p, frames[f].bytes);
      meta := meta[f := meta[f].(dirty := false)];
    }

    method EvictFrame(f: nat)
      requires Ready(Some(f)) && Home(State(), f)
      modifies this`frames, this`meta, this`pageTable, disk`file
      ensures Ready(Some(f)) && View() == old(View())
      ensures meta == old(meta)[f := EMPTY_FRAME] && pageTable == old(pageTable) - {old(meta)[f].pageId}
      ensures |disk.file| == old(|disk.file|)
    {
      hide Sound, Seen, ToBytes, Coded;
      if meta[f].dirty {
        WriteBack(Some(f), f);
      }
      VacateStep(State(), f);
      pageTable := pageTable - {meta[f].pageId};
      meta := meta[f := EMPTY_FRAME];
    }

    /** An empty frame: from the free list, or else by evicting the page released longest ago. */
    method FindFreeFrame() returns (f: Option<nat>)
      requires Valid()
      modifies this`frames, this`meta, this`pageTable, this`freeList, replacer, disk`file
      ensures f.None? <==> old(freeList) == [] && old(replacer.list) == []
      ensures f.None? ==> State() == old(State())
      ensures f.Some? ==> Ready(f) && f.value < |meta| && !meta[f.value].IsOccupied() && View() == old(View())
      ensures old(freeList) != [] ==>
          && f == Some(old(freeList)[0]) && freeList == old(freeList)[1..]
          && replacer.list == old(replacer.list) && meta == old(meta) && pageTable == old(pageTable)
      ensures old(freeList) == [] && f.Some? ==>
          var n := |old(replacer.list)| - 1;
          && f.value == old(replacer.list)[n] && freeList == [] && replacer.list == old(replacer.list)[..n]
          && f.value < |old(meta)| && meta == old(meta)[f.value := EMPTY_FRAME]
          && pageTable == old(pageTable) - {old(meta)[f.value].pageId}
      ensures |disk.file| == old(|disk.file|)
    {
      hide Sound, Seen, FileHolds, Home;
      if freeList != [] {
        TakeFreeStep(State());
        f := Some(freeList[0]);
        freeList := freeList[1..];
        return;
      }
      ghost var before := State();
      var victim := replacer.Evict();
      if victim.None? {
        return None;
      }
      TakeLastStep(before);
      EvictFrame(victim.value);
      f := victim;
    }
  
    // -------------------------------------------------------------- page access

    /**
     Pins page p, reading it into a frame first if it is not in memory.  Fails only for a page
     beyond the end of the file, or when every frame is pinned.
     */
    method FetchPage(p: PageId) returns (f: Option<nat>)
      requires Valid() && (p < |disk.file| ==> disk.Live(p))
      modifies this`frames, this`meta, this`pageTable, this`freeList, replacer, disk`file
      ensures Valid() && View() == old(View()) && |disk.file| == old(|disk.file|)
      ensures f.None? <==>
          p !in old(pageTable) && (p >= |disk.file| || (old(freeList) == [] && old(replacer.list) == []))
      ensures f.Some? <==>
          p < |disk.file| && (old(PinCount(p)) > 0 || |PinnedPages(old(State()))| < poolSize)
      ensures f.Some? ==> p in pageTable && pageTable[p] == f.value && f.value < |meta|
      ensures f.Some? ==> PinCount(p) == old(PinCount(p)) + 1 && forall q :: q != p ==> PinCount(q) == old(PinCount(q))
      ensures f.None? ==> forall q :: PinCount(q) == old(PinCount(q))
      ensures p in old(pageTable) ==> Hit(old(State()), State(), p)
      ensures p !in old(pageTable) && f.Some? ==> Missed(old(State()), State(), p, f.value)
    {
      hide Sound, Seen, Shown, PinsOf, FileHolds, PinnedPages;
      FrameAvailable(State());
      FetchOutcome(State(), p);
      if p in pageTable {
        var held := PinResident(p);
        return Some(held);
      }
      f := FindFreeFrame();
      if f.None? {
        return;
      }
      var bytes := disk.ReadPage(p);
      if bytes.None? {
        EmptiedPins(old(State()), State(), f.value);
        ReturnFrame(f.value);
        return None;
      }
      Load(p, f.value, bytes.value);
      PlacedPins(old(State()), State(), p, f.value, false);
    }

    method ReturnFrame(f: nat)
      requires Ready(Some(f)) && f < |meta| && !meta[f].IsOccupied()
      modifies this`freeList
      ensures Valid() && View() == old(View()) && forall q :: PinCount(q) == old(PinCount(q))
    {
      GiveBack(meta, pageTable, freeList, replacer.list, f);
      freeList := freeList + [f];
    }

    method Load(p: PageId, f: nat, bytes: seq<Byte>)
      requires Ready(Some(f)) && f < |meta| && !meta[f].IsOccupied() && p !in pageTable
      requires disk.Live(p) && bytes == disk.file[p]
      modifies this`frames, this`meta, this`pageTable
      ensures Valid() && View() == old(View()) && |old(frames)| == |old(meta)|
      ensures State() == Loaded(old(State()), p, f)
    {
      hide Sound, Seen, FileHolds;
      FileIs(disk.file, disk.free);
      LoadStep(State(), p, f);
      frames := frames[f := FromBytes(bytes)];
      meta := meta[f := FrameMeta(p, 1, false)];
      pageTable := pageTable[p := f];
    }

    method PinResident(p: PageId) returns (f: nat)
      requires Valid() && p in pageTable
      modifies this`meta, replacer
      ensures Valid() && View() == old(View()) && f == pageTable[p] && f < |meta|
      ensures PinCount(p) == old(PinCount(p)) + 1 && forall q :: q != p ==> PinCount(q) == old(PinCount(q))
      ensures Hit(old(State()), State(), p)
    {
      hide Sound, Seen, FileHolds, Accounts;
      AtTable(State(), p);
      f := pageTable[p];
      var m := meta[f].(pinCount := meta[f].pinCount + 1);
      ghost var before := State();
      meta := meta[f := m];
      if m.pinCount == 1 {
        WithoutNoDup(replacer.list, f);
        replacer.Remove(f);
        Pin(before.meta, pageTable, freeList, before.lru, replacer.list, f, m);
      } else {
        Remark(before.meta, pageTable, freeList, replacer.list, None, f, m);
      }
      MarkStep(before, f, m, replacer.list, pending);
      HitPins(before, State(), p);
    }

    /** The client changes a page it holds, through the pointer it got. */
    method WriteHeld(p: PageId, img: PageImage)
      requires Valid() && p in pageTable && PinCount(p) > 0 && Coded(img)
      modifies this`frames, this`pending
      ensures Valid() && View() == old(View())[p := ToBytes(img)]
      ensures p in pageTable && pageTable[p] < |frames| && frames[pageTable[p]] == img
      ensures pending == old(pending) + {p}
    {
      hide Sound, Seen, FileHolds, ToBytes, Coded;
      AtTable(State(), p);
      RewriteStep(State(), p, img);
      frames := frames[pageTable[p] := img];
      pending := pending + {p};
    }

    /**
     Releases one pin.  Holders that wrote to the page must say so before the last of them lets
     go of it: then its bytes are the page's bytes from now on, whatever is evicted.
     */
    method UnpinPage(p: PageId, isDirty: bool) returns (ok: bool)
      requires Valid()
      requires p in pending && PinCount(p) == 1 ==> isDirty || meta[pageTable[p]].dirty
      modifies this`meta, this`pending, replacer
      ensures Valid() && View() == old(View())
      ensures ok <==> old(PinCount(p)) > 0
      ensures ok ==> PinCount(p) == old(PinCount(p)) - 1 && forall q :: q != p ==> PinCount(q) == old(PinCount(q))
      ensures ok ==> UnpinStep(old(State()), State(), p, isDirty)
      ensures !ok ==> State() == old(State())
      ensures pending == if ok && (isDirty || PinCount(p) == 0) then old(pending) - {p} else old(pending)
    {
      hide Sound, Seen, FileHolds, Accounts;
      if p !in pageTable {
        return false;
      }
      AtTable(State(), p);
      var f := pageTable[p];
      if meta[f].pinCount == 0 {
        return false;
      }
      ghost var before := State();
      var m := FrameMeta(p, meta[f].pinCount - 1, meta[f].dirty || isDirty);
      meta := meta[f := m];
      pending := if isDirty || m.pinCount == 0 then pending - {p} else pending;
      if m.pinCount == 0 {
        Unpin(before.meta, pageTable, freeList, before.lru, f, m);
        replacer.RecordAccess(f);
        WithoutAbsent(before.lru, f);
      } else {
        Remark(before.meta, pageTable, freeList, replacer.list, None, f, m);
      }
      MarkStep(before, f, m, replacer.list, pending);
      ReleasedPins(before, State(), p, isDirty);
      ok := true;
    }

    /** The pages in memory that nobody holds, the most recently released first. */
    ghost function Released(): seq<PageId>
      reads this, replacer
    {
      PagesIn(replacer.list, meta)
    }

    /**
     One access: a fetch, released at once.  Between accesses nobody holds a page.  The pages
     in memory then change like a least-recently-used list of as many entries as frames.
     */
    method Access(p: PageId) returns (hit: bool)
      requires Valid() && disk.Live(p) && NobodyHolds(State())
      modifies this`frames, this`meta, this`pageTable, this`freeList, this`pending, replacer, disk`file
      ensures Valid() && View() == old(View()) && NobodyHolds(State())
      ensures hit <==> p in old(Released())
      ensures |disk.file| == old(|disk.file|)
      ensures Released() == Touch(poolSize, old(Released()), p)
      ensures forall q :: q in pageTable <==> q in Released()
    {
      hide Sound, Seen, FileHolds, Accounts, Hit, Missed, UnpinStep, PagesIn, NobodyHolds, Mapped;
      ghost var s0 := State();
      Residents(s0);
      SomeFrame(s0);
      hit := p in pageTable;
      var f := FetchPage(p);
      ghost var s1 := State();
      var ok := UnpinPage(p, false);
      if hit {
        AccessHit(s0, s1, State(), p);
      } else {
        AccessMiss(s0, s1, State(), p, f.value);
      }
      Residents(State());
    }

    /** Any run of accesses on an empty pool: what is in memory afterwards, and how many of them were hits. */
    method AccessRun(accesses: seq<PageId>) returns (hits: nat)
      requires Valid() && NobodyHolds(State()) && Released() == []
      requires forall p :: p in accesses ==> disk.Live(p)
      modifies this`frames, this`meta, this`pageTable, this`freeList, this`pending, replacer, disk`file
      ensures Valid() && View() == old(View())
      ensures Released() == PoolAfter(poolSize, accesses) && hits == Hits(poolSize, accesses)
    {
      hide Seen, FileHolds, PagesIn, Accounts, Synced, DiskReadable, NobodyHolds;
      hits := 0;
      for i := 0 to |accesses|
        invariant Valid() && View() == old(View()) && NobodyHolds(State())
        invariant |disk.file| == old(|disk.file|)
        invariant Released() == PoolAfter(poolSize, accesses[..i]) && hits == Hits(poolSize, accesses[..i])
      {
        assert accesses[..i + 1][..i] == accesses[..i];
        assert accesses[i] in accesses;
        var hit := Access(accesses[i]);
        hits := hits + if hit then 1 else 0;
      }
      assert accesses[..|accesses|] == accesses;
    }

    // -------------------------------------------------------------- creating and deleting

    /** Adds one live page, empty and pinned once, in memory only until it is written back. */
    method NewPage() returns (r: Option<PageId>)
      requires Valid() && |disk.file| + 1 < INVALID_PAGE_ID
      modifies this`frames, this`meta, this`pageTable, this`freeList, replacer, disk
      ensures Valid()
      ensures r.Some? <==> |PinnedPages(old(State()))| < poolSize
      ensures r.None? ==> State() == old(State())
      ensures r.Some? ==> r.value !in old(View()) && View() == old(View())[r.value := ToBytes(FreshImage(r.value))]
      ensures r.Some? ==> r.value in pageTable && PinCount(r.value) == 1
      ensures r.Some? ==> forall q :: q != r.value ==> PinCount(q) == old(PinCount(q))
      ensures r.Some? ==> r.value == NextPage(old(disk.free), old(|disk.file|)) && disk.free == BelowTop(old(disk.free))
      ensures r.Some? ==> |disk.file| == old(|disk.file|) + if old(disk.free) == [] then 1 else 0
      ensures r.Some? ==> NewlyFormatted(View()[r.value], r.value) && disk.Live(r.value)
      ensures r.Some? ==> Placed(old(State()), State(), r.value, pageTable[r.value], true)
    {
      hide Sound, Seen, Shown, PinsOf, FileHolds, FreshImage, ToBytes, PinnedPages, NewlyFormatted;
      FrameAvailable(State());
      ResidentsSeen(State());
      var f := FindFreeFrame();
      if f.None? {
        return None;
      }
      ghost var before := State();
      var p := disk.AllocatePage();
      AllocatedPages(before.file, before.diskFree, disk.file, disk.free, p);
      CreateStep(before, p, f.value, disk.file, disk.free);
      frames := frames[f.value := FreshImage(p)];
      meta := meta[f.value := FrameMeta(p, 1, true)];
      pageTable := pageTable[p := f.value];
      r := Some(p);
      PlacedPins(old(State()), State(), p, f.value, true);
      FreshIsFormatted(p);
    }

    /**
     Frees a page that nobody holds; the header page and pages beyond the file are refused.  A page that is free
     already is not, and that alone breaks the stack of free pages.
     */
    method DeletePage(p: PageId) returns (ok: bool)
      requires Valid()
      modifies this`meta, this`pageTable, this`freeList, replacer, disk
      ensures ok <==> old(PinCount(p)) == 0 && 1 <= p < old(|disk.file|)
      ensures Valid() <==> !ok || p !in old(disk.free)
      ensures Valid() ==> View() == if ok then old(View()) - {p} else old(View())
      ensures (forall q :: PinCount(q) == old(PinCount(q))) && |disk.file| == old(|disk.file|)
      ensures disk.free == if ok then [p] + old(disk.free) else old(disk.free)
      ensures ok && p in old(pageTable) ==> EmptiedFrame(old(State()), State(), p)
      ensures !ok || p !in old(pageTable) ==>
        && meta == old(meta) && freeList == old(freeList) && replacer.list == old(replacer.list)
        && pageTable == old(pageTable)
    {
      hide Sound, Seen, FileHolds;
      if p !in pageTable {
        ok := DeleteOnDisk(p);
        return;
      }
      AtTable(State(), p);
      var f := pageTable[p];
      if meta[f].pinCount > 0 {
        return false;
      }
      DeleteResident(p, f);
      ok := true;
    }

    method DeleteResident(p: PageId, f: nat)
      requires Valid() && p in pageTable && f == pageTable[p] && f < |meta| && meta[f].pinCount == 0
      modifies this`meta, this`pageTable, this`freeList, replacer, disk
      ensures Valid() && 1 <= p < old(|disk.file|) && View() == old(View()) - {p}
      ensures (forall q :: PinCount(q) == old(PinCount(q))) && |disk.file| == old(|disk.file|)
      ensures disk.free == [p] + old(disk.free) && EmptiedFrame(old(State()), State(), p)
    {
      hide Sound, Seen, FileHolds;
      ghost var before := State();
      AtTable(before, p);
      WithoutNoDup(replacer.list, f);
      replacer.Remove(f);
      var ok := disk.DeallocatePage(p);
      FileIs(disk.file, disk.free);
      DeleteStep(before, f, replacer.list, disk.file);
      pageTable := pageTable - {p};
      meta := meta[f := EMPTY_FRAME];
      freeList := freeList + [f];
    }

    method DeleteOnDisk(p: PageId) returns (ok: bool)
      requires Valid() && p !in pageTable
      modifies disk
      ensures ok == (1 <= p < old(|disk.file|))
      ensures Valid() <==> !ok || p !in old(disk.free)
      ensures Valid() ==> View() == if ok then old(View()) - {p} else old(View())
      ensures |disk.file| == old(|disk.file|) && disk.free == if ok then [p] + old(disk.free) else old(disk.free)
    {
      hide Sound, Seen, FileHolds;
      ghost var before := State();
      ok := disk.DeallocatePage(p);
      if ok && p !in before.diskFree {
        FileIs(disk.file, disk.free);
        DeleteOnDiskStep(before, p, disk.file);
      }
    }

    // -------------------------------------------------------------- flushing

    method FlushPage(p: PageId) returns (ok: bool)
      requires Valid()
      modifies this`frames, this`meta, disk`file
      ensures Valid() && View() == old(View()) && ok == (p in pageTable) && pageTable == old(pageTable)
      ensures (forall q :: PinCount(q) == old(PinCount(q))) && |disk.file| == old(|disk.file|)
      ensures ok ==> p < |disk.file| && p in View() && disk.file[p] == View()[p]
      ensures forall q :: 0 <= q < |disk.file| && (!ok || q != p) ==> disk.file[q] == old(disk.file)[q]
      ensures ok ==>
        var f := pageTable[p]; f < |old(meta)| && meta == old(meta)[f := old(meta)[f].(dirty := false)]
      ensures !ok ==> meta == old(meta)
    {
      if p !in pageTable {
        return false;
      }
      hide Sound, FileHolds, ToBytes, Coded, PinsOf, WrittenBack, Seen;
      ghost var s, f := State(), pageTable[p];
      AtTable(s, p);
      WriteBack(None, pageTable[p]);
      WrittenBackOnly(s, f, ToBytes(s.frames[f]));
      FrameShown(State(), p);
      ok := true;
    }

    /** Afterwards the disk holds every live page as callers see it, but for writes not announced yet. */
    method FlushAllPages()
      requires Valid()
      modifies this`frames, this`meta, disk`file
      ensures Valid() && View() == old(View()) && |disk.file| == old(|disk.file|)
      ensures pageTable == old(pageTable) && forall q :: PinCount(q) == old(PinCount(q))
      ensures forall p :: p in View() && p !in pending ==> p < |disk.file| && disk.file[p] == View()[p]
      ensures |meta| == |old(meta)| && forall f :: 0 <= f < |meta| ==> meta[f] == old(meta)[f].(dirty := false)
    {
      hide Seen, FileHolds, Home, Accounts, Mapped, Synced, DiskReadable;
      var f := 0;
      while f < poolSize
        invariant f <= poolSize && Valid() && View() == old(View()) && |disk.file| == old(|disk.file|)
        invariant pageTable == old(pageTable) && forall q :: PinCount(q) == old(PinCount(q))
        invariant forall g :: 0 <= g < f ==> !meta[g].dirty
        invariant |meta| == |old(meta)| == poolSize
        invariant forall g :: 0 <= g < poolSize ==>
          meta[g] == old(meta)[g].(dirty := if g < f then false else old(meta)[g].dirty)
      {
        if meta[f].IsOccupied() && meta[f].dirty {
          AtHome(State(), f);
          WriteBack(None, f);
        }
        EmptyIsClean(State(), f);
        f := f + 1;
      }
      CleanMeansWritten(State());
    }
  }

  lemma WrittenBackOnly(s: PoolState, f: nat, bytes: seq<Byte>)
    requires f < |s.meta| == |s.frames| && s.meta[f].pageId < |s.file|
    ensures var s' := WrittenBack(s, f, bytes);
      && s'.meta == s.meta[f := s.meta[f].(dirty := false)] && s'.table == s.table && |s'.file| == |s.file|
      && forall q :: 0 <= q < |s.file| && q != s.meta[f].pageId ==> s'.file[q] == s.file[q]
  {
  }

  /** Page p's frame is empty and the last of the free list. */
  predicate EmptiedFrame(s: PoolState, s': PoolState, p: PageId) {
    && p in s.table && s.table[p] < |s.meta|
    && var f := s.table[p];
    && s'.meta == s.meta[f := EMPTY_FRAME] && s'.free == s.free + [f] && s'.lru == Without(s.lru, f)
    && s'.table == s.table - {p}
  }

  function PinsOf(s: PoolState, p: PageId): nat {
    if p in s.table && s.table[p] < |s.meta| then s.meta[s.table[p]].pinCount else 0
  }

  /** The pages somebody holds. */
  function PinnedPages(s: PoolState): set<PageId> {
    set p | p in s.table && PinsOf(s, p) > 0
  }

  /** Free frames, evictable frames and frames of held pages make up the pool. */
  lemma FramesAddUp(s: PoolState)
    requires Sound(s, None)
    ensures |s.free| + |s.lru| + |PinnedPages(s)| == |s.meta|
  {
    var held := PinnedPages(s);
    var frames := Images(held, s.table);
    ImageCount(held, s.table);
    forall f: nat
      ensures f in s.free || f in s.lru || f in frames <==> f < |s.meta|
      ensures (f in s.free ==> f !in s.lru && f !in frames) && (f in s.lru ==> f !in frames)
    {
      if f < |s.meta| {
        assert Accounted(s.meta, s.table, s.free, s.lru, f);
        if s.meta[f].pinCount > 0 {
          assert s.meta[f].pageId in held;
        }
      }
    }
    ThreeCount(s.free, s.lru, frames, |s.meta|);
  }

  /** A frame can be had unless every frame is held. */
  lemma FrameAvailable(s: PoolState)
    requires Sound(s, None)
    ensures s.free == [] && s.lru == [] <==> |PinnedPages(s)| == |s.meta|
    ensures |PinnedPages(s)| <= |s.meta|
    ensures forall p :: p in s.table && PinsOf(s, p) == 0 ==> s.lru != []
  {
    FramesAddUp(s);
    forall p | p in s.table && PinsOf(s, p) == 0 ensures s.lru != [] {
      assert Accounted(s.meta, s.table, s.free, s.lru, s.table[p]);
    }
  }

  lemma FetchOutcome(s: PoolState, p: PageId)
    requires Sound(s, None)
    ensures p in s.table ==> p < |s.file|
    ensures p !in s.table ==> PinsOf(s, p) == 0
    ensures p in s.table ==> PinsOf(s, p) > 0 || |PinnedPages(s)| < |s.meta|
  {
    FrameAvailable(s);
  }

  lemma AtTable(s: PoolState, p: PageId)
    requires Sound(s, None) && p in s.table
    ensures s.table[p] < |s.meta| == |s.frames| && Home(s, s.table[p]) && s.meta[s.table[p]].pageId == p
    ensures 1 <= p < |s.file| && p !in s.diskFree && NoDup(s.lru) && Accounts(s.meta, s.table, s.free, s.lru, None)
    ensures p in s.pending ==> s.meta[s.table[p]].pinCount > 0
  {
  }

  lemma FileIs(file: File, free: seq<PageId>)
    requires FileHolds(file, free)
    ensures WholePages(file) && 1 <= |file| < INVALID_PAGE_ID
  {
  }

  lemma AtHome(s: PoolState, f: nat)
    requires Sound(s, None) && f < |s.meta| && s.meta[f].IsOccupied()
    ensures Home(s, f)
  {
    assert Accounted(s.meta, s.table, s.free, s.lru, f);
  }

  lemma EmptyIsClean(s: PoolState, f: nat)
    requires Sound(s, None) && f < |s.meta|
    ensures !s.meta[f].IsOccupied() ==> !s.meta[f].dirty
  {
    assert Accounted(s.meta, s.table, s.free, s.lru, f);
  }

  lemma CleanMeansWritten(s: PoolState)
    requires Sound(s, None) && forall f :: 0 <= f < |s.meta| ==> !s.meta[f].dirty
    ensures forall p :: p in Seen(s) && p !in s.pending ==> p < |s.file| && s.file[p] == Seen(s)[p]
  {
  }

  /** An unpin: the last one puts the frame in front of the replacer. */
  predicate UnpinStep(s: PoolState, s': PoolState, p: PageId, isDirty: bool) {
    && p in s.table && s.table[p] < |s.meta|
    && var f, m := s.table[p], s.meta[s.table[p]];
      && m.pinCount > 0
      && s'.meta == s.meta[f := FrameMeta(p, m.pinCount - 1, m.dirty || isDirty)]
      && s'.lru == (if m.pinCount == 1 then [f] + s.lru else s.lru)
      && s'.table == s.table && s'.free == s.free
  }

  lemma ReleasedPins(s: PoolState, s': PoolState, p: PageId, isDirty: bool)
    requires Sound(s, None) && UnpinStep(s, s', p, isDirty)
    ensures PinsOf(s', p) == PinsOf(s, p) - 1 && forall q :: q != p ==> PinsOf(s', q) == PinsOf(s, q)
  {
  }

  /** The allocation contract in terms of page sets. */
  lemma AllocatedPages(file: File, free: seq<PageId>, file': File, free': seq<PageId>, p: PageId)
    requires FileHolds(file, free) && FileHolds(file', free')
    requires if free != [] then p == free[0] && free' == free[1..] && |file'| == |file|
             else p == |file| && free' == [] && |file'| == |file| + 1
    requires 1 <= p < |file'| && p !in free' && file'[p] == Zeros(PAGE_SIZE)
    requires forall q :: 1 <= q < |file| && q != p ==> file'[q] == file[q]
    ensures Allocated(file, free, file', free', p)
  {
  }

  lemma HitPins(s: PoolState, s': PoolState, p: PageId)
    requires Sound(s, None) && Hit(s, s', p)
    ensures PinsOf(s', p) == PinsOf(s, p) + 1 && forall q :: q != p ==> PinsOf(s', q) == PinsOf(s, q)
  {
  }

  /** What is seen of a page in memory is what its frame would write. */
  lemma FrameShown(s: PoolState, p: PageId)
    requires Sound(s, None) && p in s.table
    ensures p < |s.file| && p in Seen(s) && s.table[p] < |s.frames| && Coded(s.frames[s.table[p]])
    ensures Seen(s)[p] == ToBytes(s.frames[s.table[p]])
  {
  }

  lemma NotPinnedBefore(s: PoolState, p: PageId)
    requires Sound(s, None) && p !in Seen(s)
    ensures PinsOf(s, p) == 0
  {
    ResidentsSeen(s);
  }

  lemma ResidentsSeen(s: PoolState)
    requires Sound(s, None)
    ensures forall p :: p in s.table ==> p in Seen(s)
  {
  }

  /** A frame was emptied, or was empty already, and the page that left it was not pinned. */
  lemma EmptiedPins(s: PoolState, s': PoolState, f: nat)
    requires Sound(s, None)
    requires s.free != [] ==> s'.meta == s.meta && s'.table == s.table
    requires s.free == [] ==>
      && s.lru != [] && f == s.lru[|s.lru| - 1] && f < |s.meta|
      && s'.meta == s.meta[f := EMPTY_FRAME] && s'.table == s.table - {s.meta[f].pageId}
    ensures forall q :: PinsOf(s', q) == PinsOf(s, q)
  {
    if s.free == [] {
      assert f in s.lru;
      assert Accounted(s.meta, s.table, s.free, s.lru, f);
    }
  }

  /** The page that made room was not pinned. */
  lemma PlacedPins(s: PoolState, s': PoolState, p: PageId, f: nat, dirty: bool)
    requires Sound(s, None) && Placed(s, s', p, f, dirty) && p !in s.table
    ensures PinsOf(s', p) == PinsOf(s, p) + 1 == 1 && forall q :: q != p ==> PinsOf(s', q) == PinsOf(s, q)
  {
    if s.free != [] {
      assert f in s.free;
    } else {
      assert f in s.lru;
    }
    assert Accounted(s.meta, s.table, s.free, s.lru, f);
  }

  /** A fetch that found its page in memory. */
  predicate Hit(s: PoolState, s': PoolState, p: PageId) {
    && p in s.table && s.table[p] < |s.meta|
    && var f, m := s.table[p], s.meta[s.table[p]];
      && s'.meta == s.meta[f := m.(pinCount := m.pinCount + 1)]
      && s'.lru == (if m.pinCount == 0 then Without(s.lru, f) else s.lru)
      && s'.frames == s.frames && s'.table == s.table && s'.free == s.free
  }

  /** Page p went into an empty frame or into that of the page released longest ago. */
  predicate Placed(s: PoolState, s': PoolState, p: PageId, f: nat, dirty: bool) {
    && f < |s.meta| && p in s'.table && s'.table[p] == f && s'.meta == s.meta[f := FrameMeta(p, 1, dirty)]
    && if s.free != [] then f == s.free[0] && s'.free == s.free[1..] && s'.lru == s.lru && s'.table == s.table[p := f]
      else
        && s.lru != [] && f == s.lru[|s.lru| - 1] && s'.free == [] && s'.lru == s.lru[..|s.lru| - 1]
        && s'.table == (s.table - {s.meta[f].pageId})[p := f]
  }

  /** A fetch that had to load its page. */
  predicate Missed(s: PoolState, s': PoolState, p: PageId, f: nat) {
    Placed(s, s', p, f, false)
  }

  // ---------------------------------------------------------------- accesses as a list of pages

  predicate NobodyHolds(s: PoolState) {
    forall f :: 0 <= f < |s.meta| ==> s.meta[f].pinCount == 0
  }

  function PagesIn(frames: seq<nat>, meta: seq<FrameMeta>): (r: seq<PageId>)
    ensures |r| == |frames|
  {
    if frames == [] then []
    else [if frames[0] < |meta| then meta[frames[0]].pageId else INVALID_PAGE_ID] + PagesIn(frames[1..], meta)
  }

  lemma {:induction false} PagesInAt(frames: seq<nat>, meta: seq<FrameMeta>, i: nat)
    requires i < |frames| && frames[i] < |meta|
    ensures PagesIn(frames, meta)[i] == meta[frames[i]].pageId
  {
    if i > 0 {
      PagesInAt(frames[1..], meta, i - 1);
    }
  }

  /** With nobody holding a page, the pages in memory are those in the replacer. */
  lemma Residents(s: PoolState)
    requires Sound(s, None) && NobodyHolds(s)
    ensures forall q :: q in s.table <==> q in PagesIn(s.lru, s.meta)
    ensures |s.lru| + |s.free| == |s.meta|
    ensures forall f :: f in s.lru ==> f < |s.meta|
  {
    var pages := PagesIn(s.lru, s.meta);
    forall q | q in s.table ensures q in pages {
      var f := s.table[q];
      assert Accounted(s.meta, s.table, s.free, s.lru, f);
      var i :| 0 <= i < |s.lru| && s.lru[i] == f;
      PagesInAt(s.lru, s.meta, i);
      assert pages[i] == q;
    }
    forall q | q in pages ensures q in s.table {
      var i :| 0 <= i < |pages| && pages[i] == q;
      assert s.lru[i] in s.lru;
      PagesInAt(s.lru, s.meta, i);
      assert Accounted(s.meta, s.table, s.free, s.lru, s.lru[i]);
    }
    forall f: nat ensures f in s.lru || f in s.free <==> f < |s.meta|
                  ensures f in s.lru ==> f !in s.free {
      if f < |s.meta| {
        assert Accounted(s.meta, s.table, s.free, s.lru, f);
      }
    }
    SplitCount(s.lru, s.free, |s.meta|);
  }

  lemma {:induction false} PagesInSame(frames: seq<nat>, meta: seq<FrameMeta>, meta': seq<FrameMeta>)
    requires |meta| == |meta'| && forall f :: f in frames && f < |meta| ==> meta'[f].pageId == meta[f].pageId
    ensures PagesIn(frames, meta') == PagesIn(frames, meta)
  {
    if frames != [] {
      PagesInSame(frames[1..], meta, meta');
    }
  }

  lemma {:induction false} PagesInWithout(frames: seq<nat>, meta: seq<FrameMeta>, f: nat)
    requires f < |meta| && forall g :: g in frames ==> g < |meta| && (meta[g].pageId == meta[f].pageId ==> g == f)
    ensures PagesIn(Without(frames, f), meta) == Without(PagesIn(frames, meta), meta[f].pageId)
  {
    if frames != [] {
      assert forall g :: g in frames[1..] ==> g in frames;
      PagesInWithout(frames[1..], meta, f);
      var pages := PagesIn(frames, meta);
      assert frames[0] in frames;
      assert pages[1..] == PagesIn(frames[1..], meta);
      if frames[0] != f {
        var rest := Without(frames[1..], f);
        assert ([frames[0]] + rest)[1..] == rest;
      }
    }
  }

  lemma HitThenUnpin(s0: PoolState, s1: PoolState, s2: PoolState, p: PageId)
    requires NobodyHolds(s0) && Hit(s0, s1, p) && UnpinStep(s1, s2, p, false)
    ensures NobodyHolds(s2) && |s2.meta| == |s0.meta| && s2.lru == [s0.table[p]] + Without(s0.lru, s0.table[p])
    ensures forall f :: 0 <= f < |s0.meta| ==> s2.meta[f].pageId == s0.meta[f].pageId || f == s0.table[p]
    ensures s2.meta[s0.table[p]].pageId == p
  {
  }

  lemma MissThenUnpin(s0: PoolState, s1: PoolState, s2: PoolState, p: PageId, f: nat)
    requires NobodyHolds(s0) && Missed(s0, s1, p, f) && UnpinStep(s1, s2, p, false) && s1.table[p] == f
    ensures NobodyHolds(s2) && |s2.meta| == |s0.meta| && s2.lru == [f] + s1.lru
    ensures forall g :: 0 <= g < |s0.meta| ==> s2.meta[g].pageId == s0.meta[g].pageId || g == f
    ensures s2.meta[f].pageId == p
  {
  }

  lemma {:induction false} PagesInFront(f: nat, rest: seq<nat>, meta: seq<FrameMeta>)
    requires f < |meta|
    ensures PagesIn([f] + rest, meta) == [meta[f].pageId] + PagesIn(rest, meta)
  {
  }

  lemma AccessHit(s0: PoolState, s1: PoolState, s2: PoolState, p: PageId)
    requires Sound(s0, None) && NobodyHolds(s0) && p in s0.table
    requires Hit(s0, s1, p) && UnpinStep(s1, s2, p, false)
    ensures NobodyHolds(s2)
    ensures PagesIn(s2.lru, s2.meta) == Touch(|s0.meta|, PagesIn(s0.lru, s0.meta), p)
  {
    Residents(s0);
    HitThenUnpin(s0, s1, s2, p);
    var f, rest := s0.table[p], Without(s0.lru, s0.table[p]);
    AccountedAt(s0, f);
    assert f in s0.lru && s0.meta[f].pageId == p;
    forall g | g in s0.lru ensures s0.meta[g].pageId == p ==> g == f {
      AccountedAt(s0, g);
    }
    hide Sound, Hit, UnpinStep, NobodyHolds, PagesIn, Without;
    PagesInWithout(s0.lru, s0.meta, f);
    PagesInSame(rest, s0.meta, s2.meta);
    PagesInFront(f, rest, s2.meta);
    WithoutLength(s0.lru, f);
  }

  lemma AccountedAt(s: PoolState, f: nat)
    requires Sound(s, None) && f < |s.meta|
    ensures Accounted(s.meta, s.table, s.free, s.lru, f) && NoDup(s.lru)
    ensures forall p :: p in s.table ==>
      s.table[p] < |s.meta| && s.meta[s.table[p]].pageId == p && s.meta[s.table[p]].IsOccupied()
  {
  }

  lemma AccessMiss(s0: PoolState, s1: PoolState, s2: PoolState, p: PageId, f: nat)
    requires Sound(s0, None) && NobodyHolds(s0) && p !in s0.table && |s0.meta| > 0
    requires Missed(s0, s1, p, f) && UnpinStep(s1, s2, p, false) && s1.table[p] == f
    ensures NobodyHolds(s2)
    ensures PagesIn(s2.lru, s2.meta) == Touch(|s0.meta|, PagesIn(s0.lru, s0.meta), p)
  {
    Residents(s0);
    MissThenUnpin(s0, s1, s2, p, f);
    MissKeeps(s0, s1, p, f);
    hide Sound, Missed, UnpinStep, NobodyHolds, PagesIn, Without;
    var pages := PagesIn(s0.lru, s0.meta);
    WithoutAbsent(pages, p);
    PagesInSame(s1.lru, s0.meta, s2.meta);
    PagesInFront(f, s1.lru, s2.meta);
    TakeCons(p, pages, |s0.meta|);
  }

  /** The frame came from the free list and nothing is pushed out, or it held the last page of a full pool. */
  lemma MissKeeps(s0: PoolState, s1: PoolState, p: PageId, f: nat)
    requires Sound(s0, None) && NobodyHolds(s0) && Missed(s0, s1, p, f) && |s0.meta| > 0
    ensures f !in s1.lru
    ensures PagesIn(s1.lru, s0.meta) == Take(PagesIn(s0.lru, s0.meta), |s0.meta| - 1)
  {
    hide PagesIn;
    Residents(s0);
    AccountedAt(s0, f);
    hide Sound;
    if s0.free != [] {
      assert f in s0.free;
    } else {
      PagesInTake(s0.lru, s0.meta, |s0.lru| - 1);
    }
  }

  lemma {:induction false} PagesInTake(frames: seq<nat>, meta: seq<FrameMeta>, n: nat)
    requires n <= |frames|
    ensures PagesIn(frames[..n], meta) == PagesIn(frames, meta)[..n]
  {
    if n > 0 {
      PagesInTake(frames[1..], meta, n - 1);
      assert frames[..n][1..] == frames[1..][..n - 1];
    }
  }

  /** A pool has a frame to give as long as somebody is not holding one. */
  lemma SomeFrame(s: PoolState)
    requires Sound(s, None) && NobodyHolds(s)
    ensures |s.meta| > 0 ==> s.free != [] || s.lru != []
    ensures s.pending == {}
  {
    Residents(s);
  }
}

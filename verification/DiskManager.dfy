/**
 The database file: an array of pages, the first one the header, with the free pages chained through their own
 bytes.
 */
module Disk {
  import opened Base
  import opened Bytes
  import opened Counting

  const MAGIC: U32 := 0x434F_5552
  const VERSION: U32 := 1

  type File = seq<seq<Byte>>

  predicate WholePages(file: File) {
    forall i :: 0 <= i < |file| ==> |file[i]| == PAGE_SIZE
  }

  /** The page the chain goes on to from position i of the stack. */
  function NextFree(stack: seq<PageId>, i: nat): PageId {
    if i < |stack| then stack[i] else INVALID_PAGE_ID
  }

  /** The first four bytes of every free page name the one below it on the stack. */
  predicate Chained(file: File, stack: seq<PageId>) {
    forall i :: 0 <= i < |stack| ==> ChainedAt(file, stack, i)
  }

  predicate ChainedAt(file: File, stack: seq<PageId>, i: nat)
    requires i < |stack|
  {
    1 <= stack[i] < |file| && Get4(file[stack[i]], 0) == NextFree(stack, i + 1)
  }

  function HeaderPage(pageCount: U32, head: PageId, freeCount: U32): (b: seq<Byte>)
    ensures |b| == PAGE_SIZE
  {
    WriteAt(Zeros(PAGE_SIZE), 0, HeaderBytes(pageCount, head, freeCount))
  }

  function HeaderBytes(pageCount: U32, head: PageId, freeCount: U32): (b: seq<Byte>)
    ensures |b| == 20
  {
    Le4(MAGIC) + (Le4(VERSION) + (Le4(pageCount) + (Le4(head) + Le4(freeCount))))
  }

  lemma HeaderRoundTrip(pageCount: U32, head: PageId, freeCount: U32)
    ensures var b := HeaderPage(pageCount, head, freeCount);
            && Get4(b, 0) == MAGIC && Get4(b, 4) == VERSION && Get4(b, 8) == pageCount
            && Get4(b, 12) == head && Get4(b, 16) == freeCount
  {
    hide Get4, Le4, WriteAt, Zeros;
    var b := HeaderPage(pageCount, head, freeCount);
    var f3 := Le4(head) + Le4(freeCount);
    var f2 := Le4(pageCount) + f3;
    HoldsPart(b, 0, Le4(MAGIC), Le4(VERSION) + f2);
    HoldsPart(b, 4, Le4(VERSION), f2);
    HoldsPart(b, 8, Le4(pageCount), f3);
    HoldsPart(b, 12, Le4(head), Le4(freeCount));
    Get4Le4(b, 0, MAGIC);
    Get4Le4(b, 4, VERSION);
    Get4Le4(b, 8, pageCount);
    Get4Le4(b, 12, head);
    Get4Le4(b, 16, freeCount);
  }

  /** What a database file with this stack of free pages looks like. */
  ghost predicate FileHolds(file: File, stack: seq<PageId>) {
    && 1 <= |file| < INVALID_PAGE_ID
    && WholePages(file)
    && NoDup(stack) && Chained(file, stack) && |stack| < |file|
    && file[0] == HeaderPage(|file|, NextFree(stack, 0), |stack|)
  }

  /** The bytes of the file alone determine the stack, so a reopened file has the same one. */
  lemma FileDeterminesStack(file: File, a: seq<PageId>, b: seq<PageId>)
    requires FileHolds(file, a) && FileHolds(file, b)
    ensures a == b
  {
    HeaderRoundTrip(|file|, NextFree(a, 0), |a|);
    HeaderRoundTrip(|file|, NextFree(b, 0), |b|);
    SameChain(file, a, b, |a|);
    assert a[..|a|] == a && b[..|b|] == b;
  }

  lemma {:induction false} SameChain(file: File, a: seq<PageId>, b: seq<PageId>, n: nat)
    requires Chained(file, a) && Chained(file, b) && |a| == |b| && n <= |a|
    requires NextFree(a, 0) == NextFree(b, 0)
    ensures a[..n] == b[..n] && NextFree(a, n) == NextFree(b, n)
  {
    if n > 0 {
      SameChain(file, a, b, n - 1);
      assert ChainedAt(file, a, n - 1) && ChainedAt(file, b, n - 1);
      assert a[..n] == a[..n - 1] + [a[n - 1]] && b[..n] == b[..n - 1] + [b[n - 1]];
    }
  }

  /** Pages that are not on the stack can be written without touching the chain. */
  lemma ChainedElsewhere(file: File, file': File, stack: seq<PageId>)
    requires Chained(file, stack) && |file| <= |file'|
    requires forall p :: p in stack && p < |file| ==> file'[p] == file[p]
    ensures Chained(file', stack)
  {
    forall i | 0 <= i < |stack| ensures ChainedAt(file', stack, i) {
      assert ChainedAt(file, stack, i);
      assert stack[i] in stack;
    }
  }

  lemma ChainedPop(file: File, stack: seq<PageId>)
    requires stack != [] && Chained(file, stack) && NoDup(stack)
    ensures 1 <= stack[0] < |file| && Get4(file[stack[0]], 0) == NextFree(stack[1..], 0)
    ensures Chained(file, stack[1..]) && NoDup(stack[1..]) && stack[0] !in stack[1..]
  {
    assert ChainedAt(file, stack, 0);
    forall i | 0 <= i < |stack[1..]| ensures ChainedAt(file, stack[1..], i) {
      assert ChainedAt(file, stack, i + 1);
    }
  }

  lemma ChainedPush(file: File, stack: seq<PageId>, p: PageId)
    requires Chained(file, stack) && NoDup(stack) && p !in stack && 1 <= p < |file|
    requires Get4(file[p], 0) == NextFree(stack, 0)
    ensures Chained(file, [p] + stack) && NoDup([p] + stack)
  {
    var s := [p] + stack;
    forall i | 0 <= i < |s| ensures ChainedAt(file, s, i) {
      if i > 0 {
        assert ChainedAt(file, stack, i - 1);
      }
    }
  }

  /** Distinct page ids from 1 on are fewer than the pages. */
  lemma StackShorter(file: File, stack: seq<PageId>)
    requires 1 <= |file| && Chained(file, stack) && NoDup(stack)
    ensures |stack| < |file|
  {
    var s: seq<nat> := [0] + stack;
    forall i | 0 <= i < |stack| ensures 1 <= stack[i] < |file| {
      assert ChainedAt(file, stack, i);
    }
    forall x | x in s ensures x < |file| {
      var i :| 0 <= i < |s| && s[i] == x;
      assert i > 0 ==> s[i] == stack[i - 1];
    }
    AtMost(s, |file|);
  }

  class DiskManager {
    var file: File
    var pageCount: U32
    var freeListHead: PageId
    var freePageCount: U32
    /** The free pages, the one to be handed out next first. */
    ghost var free: seq<PageId>

    ghost predicate Valid()
      reads this
    {
      && FileHolds(file, free)
      && pageCount == |file| && freeListHead == NextFree(free, 0) && freePageCount == |free|
    }

    /** A page that holds data of its own: neither the header nor free. */
    ghost predicate Live(p: PageId)
      reads this
    {
      1 <= p < |file| && p !in free
    }

    constructor InitializeNewFile()
      ensures Valid() && free == [] && |file| == 1
    {
      file := [HeaderPage(1, INVALID_PAGE_ID, 0)];
      pageCount, freeListHead, freePageCount := 1, INVALID_PAGE_ID, 0;
      free := [];
    }

    /** Opens a file written earlier; the header page alone says where the free pages are. */
    constructor Open(file: File, ghost stack: seq<PageId>)
      requires FileHolds(file, stack)
      ensures Valid() && this.file == file && free == stack
    {
      this.file := file;
      pageCount := Get4(file[0], 8);
      freeListHead := Get4(file[0], 12);
      freePageCount := Get4(file[0], 16);
      free := stack;
      HeaderRoundTrip(|file|, NextFree(stack, 0), |stack|);
    }

    /** Opens an existing file; one that is empty or has another magic number is refused. */
    static method OpenFile(file: File, ghost stack: seq<PageId>) returns (disk: Option<DiskManager>)
      requires WholePages(file) && (file != [] && Get4(file[0], 0) == MAGIC ==> FileHolds(file, stack))
      ensures disk.Some? <==> file != [] && Get4(file[0], 0) == MAGIC
      ensures disk.Some? ==>
        fresh(disk.value) && disk.value.Valid() && disk.value.file == file && disk.value.free == stack
    {
      if file == [] || Get4(file[0], 0) != MAGIC {
        return None;
      }
      var d := new DiskManager.Open(file, stack);
      disk := Some(d);
    }

    method ReadPage(p: PageId) returns (bytes: Option<seq<Byte>>)
      requires Valid()
      ensures bytes == if p < |file| then Some(file[p]) else None
    {
      if p >= pageCount {
        return None;
      }
      bytes := Some(file[p]);
    }

    /** Overwrites any page of the file; the chain of free pages stays whole if the page is live. */
    method WritePage(p: PageId, bytes: seq<Byte>) returns (ok: bool)
      requires Valid() && |bytes| == PAGE_SIZE
      modifies this`file
      ensures ok == (p < old(|file|))
      ensures file == if ok then old(file)[p := bytes] else old(file)
      ensures !ok || Live(p) ==> Valid()
    {
      if p >= pageCount {
        return false;
      }
      if Live(p) {
        ChainedElsewhere(file, file[p := bytes], free);
      }
      file := file[p := bytes];
      ok := true;
    }

    /**
     Takes the page on top of the free stack, or one more at the end of the file.  It was
     not live before, reads as zeros, and no other page but the header changes.
     */
    method AllocatePage() returns (p: PageId)
      requires Valid() && |file| + 1 < INVALID_PAGE_ID
      modifies this
      ensures Valid() && Live(p) && !old(Live(p))
      ensures if old(free) != [] then p == old(free)[0] && free == old(free)[1..] && |file| == old(|file|)
              else p == old(|file|) && free == [] && |file| == old(|file|) + 1
      ensures file[p] == Zeros(PAGE_SIZE)
      ensures forall q :: 1 <= q < old(|file|) && q != p ==> file[q] == old(file)[q]
    {
      if freeListHead != INVALID_PAGE_ID {
        p := freeListHead;
        ChainedPop(file, free);
        freeListHead := Get4(file[p], 0);
        freePageCount := freePageCount - 1;
        ghost var rest := free[1..];
        ChainedElsewhere(file, file[p := Zeros(PAGE_SIZE)], rest);
        file := file[p := Zeros(PAGE_SIZE)];
        free := rest;
      } else {
        EmptyStack(file, free);
        p := pageCount;
        pageCount := pageCount + 1;
        file := file + [Zeros(PAGE_SIZE)];
      }
      WriteHeader();
    }

    /**
     Puts the page on top of the free stack; the header and pages beyond the file are refused.  A page that is free
     already is taken once more, and only that breaks the stack.
     */
    method DeallocatePage(p: PageId) returns (ok: bool)
      requires Valid()
      modifies this
      ensures ok == (1 <= p < |file|) && |file| == old(|file|)
      ensures Valid() <==> !ok || p !in old(free)
      ensures free == if ok then [p] + old(free) else old(free)
      ensures !ok ==> file == old(file)
      ensures forall q :: 1 <= q < |file| && q != p ==> file[q] == old(file)[q]
      ensures ok ==> file[p] == Le4(if old(free) == [] then INVALID_PAGE_ID else old(free)[0]) + Zeros(PAGE_SIZE - 4)
    {
      if p == 0 || p >= pageCount {
        return false;
      }
      hide FileHolds, Linked, WriteAt, Zeros, Le4;
      var bytes := WriteAt(Zeros(PAGE_SIZE), 0, Le4(freeListHead));
      Pushed(file, free, p, bytes);
      FreedBytes(freeListHead);
      file := file[p := bytes];
      free := [p] + free;
      freeListHead := p;
      freePageCount := freePageCount + 1;
      WriteHeader();
      ok := true;
      NotTwice(file, free);
    }

    method WriteHeader()
      requires 1 <= |file|
      modifies this`file
      ensures file == old(file)[0 := HeaderPage(pageCount, freeListHead, freePageCount)]
      ensures Linked(old(file), pageCount, freeListHead, freePageCount, free) ==> Valid()
    {
      var after := file[0 := HeaderPage(pageCount, freeListHead, freePageCount)];
      if Linked(file, pageCount, freeListHead, freePageCount, free) {
        forall p | p in free ensures p != 0 {
          var i :| 0 <= i < |free| && free[i] == p;
          assert ChainedAt(file, free, i);
        }
        ChainedElsewhere(file, after, free);
      }
      file := after;
    }
  }

  /** Everything a header page describes but the header page itself. */
  ghost predicate Linked(file: File, pageCount: U32, head: PageId, freeCount: U32, stack: seq<PageId>) {
    && 1 <= |file| < INVALID_PAGE_ID && WholePages(file)
    && NoDup(stack) && Chained(file, stack) && |stack| < |file|
    && pageCount == |file| && head == NextFree(stack, 0) && freeCount == |stack|
  }

  /** A free page holds the next one's number in its first four bytes, and zeros. */
  lemma FreedBytes(next: PageId)
    ensures WriteAt(Zeros(PAGE_SIZE), 0, Le4(next)) == Le4(next) + Zeros(PAGE_SIZE - 4)
  {
  }

  lemma Pushed(file: File, stack: seq<PageId>, p: PageId, bytes: seq<Byte>)
    requires FileHolds(file, stack) && 1 <= p < |file| && bytes == WriteAt(Zeros(PAGE_SIZE), 0, Le4(NextFree(stack, 0)))
    ensures |stack| + 1 < 0x1_0000_0000
    ensures p !in stack ==> Linked(file[p := bytes], |file|, p, |stack| + 1, [p] + stack)
    ensures p in stack ==> !NoDup([p] + stack)
  {
    var after := [p] + stack;
    if p in stack {
      var i: nat :| i < |stack| && stack[i] == p;
      assert after[0] == after[i + 1];
    } else {
      Get4Le4(bytes, 0, NextFree(stack, 0));
      ChainedElsewhere(file, file[p := bytes], stack);
      ChainedPush(file[p := bytes], stack, p);
      StackShorter(file[p := bytes], after);
    }
  }

  lemma NotTwice(file: File, stack: seq<PageId>)
    ensures !NoDup(stack) ==> !FileHolds(file, stack)
  {
  }

  /** No page has the invalid id, so a stack without a top is empty. */
  lemma EmptyStack(file: File, stack: seq<PageId>)
    requires Chained(file, stack) && |file| < INVALID_PAGE_ID && NextFree(stack, 0) == INVALID_PAGE_ID
    ensures stack == []
  {
    assert |stack| > 0 ==> ChainedAt(file, stack, 0);
  }
}

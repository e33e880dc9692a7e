/** Integer widths, page identifiers and the one result type the layers share. */
module Base {
  type Byte = x: int | 0 <= x < 0x100
  type U16 = x: int | 0 <= x < 0x1_0000
  type U32 = x: int | 0 <= x < 0x1_0000_0000
  type PageId = U32

  const PAGE_SIZE := 4096
  const INVALID_PAGE_ID: PageId := 0xFFFF_FFFF

  datatype Option<+T> = None | Some(value: T)

  /** The sequence with x put in front of position i. */
  function InsertAt<T>(s: seq<T>, i: nat, x: T): (r: seq<T>)
    requires i <= |s|
    ensures |r| == |s| + 1 && r[i] == x
    ensures forall m {:trigger r[m]} :: 0 <= m < i ==> r[m] == s[m]
    ensures forall m {:trigger r[m]} :: i < m < |r| ==> r[m] == s[m - 1]
  {
    s[..i] + [x] + s[i..]
  }

  /** The sequence without its element at position i. */
  function RemoveAt<T>(s: seq<T>, i: nat): (r: seq<T>)
    requires i < |s|
    ensures |r| == |s| - 1
    ensures forall m {:trigger r[m]} :: 0 <= m < i ==> r[m] == s[m]
    ensures forall m {:trigger r[m]} :: i <= m < |r| ==> r[m] == s[m + 1]
  {
    s[..i] + s[i + 1..]
  }

  /** The page handed out next: the top of the free stack, or else the end of the file. */
  function NextPage(free: seq<PageId>, pageCount: nat): nat {
    if free != [] then free[0] else pageCount
  }

  /** The free stack without its top. */
  function BelowTop(free: seq<PageId>): seq<PageId> {
    if free != [] then free[1..] else []
  }

  ghost predicate NoDup<T(!new)>(s: seq<T>) {
    forall a, b :: 0 <= a < b < |s| ==> s[a] != s[b]
  }
}

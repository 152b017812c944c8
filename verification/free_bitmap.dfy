/** The free-block bitmap and its first-fit allocator (`allocate_block_FBM`,
    `deallocate_block_FBM`).  Entry `k` is `true` when block `k` is free (the
    C array holds 1) and `false` when it is in use (0). */
module FreeBitmap {
  import opened Layout
  import opened Search

  datatype Allocation = Allocation(bitmap: seq<bool>, block: int)

  function IsFree(): bool -> bool {
    (flag: bool) => flag
  }

  /** Lines 62-71: take the lowest free block and mark it used; -1 when the
      bitmap has no free entry. */
  function Allocate(bitmap: seq<bool>): (a: Allocation)
    ensures |a.bitmap| == |bitmap|
    ensures a.block == -1 <==> forall k | 0 <= k < |bitmap| :: !bitmap[k]
    ensures a.block == -1 ==> a.bitmap == bitmap
    ensures a.block != -1 ==>
      && 0 <= a.block < |bitmap|
      && bitmap[a.block]
      && (forall k | 0 <= k < a.block :: !bitmap[k])
      && !a.bitmap[a.block]
      && (forall k | 0 <= k < |bitmap| && k != a.block :: a.bitmap[k] == bitmap[k])
  {
    var i := First(bitmap, IsFree());
    if i == -1 then Allocation(bitmap, -1)
    else Allocation(bitmap[i := false], i)
  }

  /** Lines 74-76: mark block `k` free, whatever it was before. */
  function Deallocate(bitmap: seq<bool>, k: int): (r: seq<bool>)
    requires 0 <= k < |bitmap|
    ensures |r| == |bitmap| && r[k]
    ensures forall j | 0 <= j < |bitmap| && j != k :: r[j] == bitmap[j]
  {
    bitmap[k := true]
  }

  /** Freeing the block just allocated gives back the bitmap allocation started from. */
  lemma DeallocateUndoesAllocate(bitmap: seq<bool>)
    requires Allocate(bitmap).block != -1
    ensures Deallocate(Allocate(bitmap).bitmap, Allocate(bitmap).block) == bitmap
  {
    var a := Allocate(bitmap);
    assert Deallocate(a.bitmap, a.block) == bitmap;
  }

  /** Allocation only ever turns free entries into used ones. */
  lemma AllocateOnlyClaims(bitmap: seq<bool>)
    ensures forall k | 0 <= k < |bitmap| :: Allocate(bitmap).bitmap[k] ==> bitmap[k]
  {
  }
}

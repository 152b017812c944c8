/** `sfs_remove`. */
module Remove {
  import opened Layout
  import opened Records
  import opened BlockDevice
  import opened IndexBlock
  import opened FreeBitmap
  import opened State
  import opened Search
  import opened OpenClose

  /** Either the C code runs to a status, or it reaches
      `free_bitmap_array[k]` with `k` outside the bitmap (or reads slot 256 or
      beyond of the index array), whose behaviour C leaves undefined. */
  datatype Removal = Removed(fs: FileSystem, status: int) | Undefined

  /** What the loop of lines 475-493 carries: bitmap, inode and device. */
  datatype Clearing = Clearing(bitmap: seq<bool>, node: Inode, device: Device)

  datatype Cleared = Done(c: Clearing) | Stuck

  /** The flush of lines 499-501 writes three regions: directory, bitmap,
      inode table. */
  const RegionWrites := 3

  predicate ClearingShaped(c: Clearing) {
    |c.bitmap| == BlockCount && |c.node.direct| == DirectPointers && WellFormed(c.device)
  }

  /** The index array the loop loads for an indirect block: the index block,
      or all zeros when the read fails (the scratch block was just zeroed). */
  function Entries(d: Device, node: Inode): (e: seq<int>)
    requires WellFormed(d)
    ensures |e| == IndirectPointers
  {
    Decode(ReadBlock(d, node.indirect, ZeroBlock()))
  }

  /** The block the loop zeroes and frees for logical block `k`. */
  function ClearedBlock(node: Inode, entries: seq<int>, k: int): int
    requires |node.direct| == DirectPointers && |entries| == IndirectPointers
    requires 0 <= k < DirectPointers + IndirectPointers
  {
    if k < DirectPointers then node.direct[k] else entries[k - DirectPointers]
  }

  /** The pointer the loop loads for logical block `k`. */
  function Pointer(c: Clearing, k: int): int
    requires ClearingShaped(c) && 0 <= k < DirectPointers + IndirectPointers
  {
    ClearedBlock(c.node, Entries(c.device, c.node), k)
  }

  /** The round over block `i` of device block `ptr` (lines 478-491): the
      block is zeroed and freed, and a direct pointer is reset to -1; the
      reset of an index slot only touches the local array and is lost. */
  function Next(c: Clearing, i: nat, ptr: int): (next: Clearing)
    requires ClearingShaped(c) && 0 <= ptr < BlockCount
    ensures ClearingShaped(next)
    ensures next.node.size == c.node.size && next.node.indirect == c.node.indirect
    ensures forall k | 0 <= k < DirectPointers ::
      next.node.direct[k] == if k == i then Unallocated else c.node.direct[k]
    ensures next.device.inodeRegion == c.device.inodeRegion
    ensures next.device.directoryRegion == c.device.directoryRegion
    ensures next.device.bitmapRegion == c.device.bitmapRegion
    ensures forall b | 0 <= b < BlockCount :: next.bitmap[b] == (c.bitmap[b] || b == ptr)
    ensures forall b | 0 <= b < BlockCount ::
      next.device.blocks[b] == if b == ptr then ZeroBlock() else c.device.blocks[b]
  {
    var node := if i < DirectPointers then c.node.(direct := c.node.direct[i := Unallocated]) else c.node;
    Clearing(Deallocate(c.bitmap, ptr), node, WriteBlock(c.device, ptr, ZeroBlock()))
  }

  /** Whether the corrected loop (`guard`) skips block `i`: its pointer is -1,
      or it is an indirect block of a file without an index block. */
  predicate Skips(c: Clearing, i: int, guard: bool)
    requires ClearingShaped(c) && 0 <= i < DirectPointers + IndirectPointers
  {
    guard && ((i >= DirectPointers && !IsBlockIndex(c.node.indirect)) || Pointer(c, i) == Unallocated)
  }

  /** One round of the loop of lines 475-493, over logical block `i`.  The
      round gets stuck on a pointer outside the device (the write of zeros
      there does nothing, then `deallocate_block_FBM` writes outside the
      bitmap) and on block 268 or later (past the 256-entry index array). */
  function Round(c: Clearing, i: nat, guard: bool): (r: Cleared)
    requires ClearingShaped(c)
    ensures r.Done? ==> ClearingShaped(r.c) && r.c.node.size == c.node.size && r.c.node.indirect == c.node.indirect
    ensures r.Done? ==> r.c.device.inodeRegion == c.device.inodeRegion
    ensures r.Done? ==> r.c.device.directoryRegion == c.device.directoryRegion
    ensures r.Done? ==> r.c.device.bitmapRegion == c.device.bitmapRegion
    ensures r.Done? ==> forall k | 0 <= k < DirectPointers ::
      r.c.node.direct[k] == if k == i && !(guard && c.node.direct[k] == Unallocated)
                            then Unallocated else c.node.direct[k]
  {
    if i >= DirectPointers + IndirectPointers then Stuck
    else if Skips(c, i, guard) then Done(c)
    else if !IsBlockIndex(Pointer(c, i)) then Stuck
    else Done(Next(c, i, Pointer(c, i)))
  }

  /** The loop of lines 475-493 from logical block `i` to `last`. */
  function ClearFrom(c: Clearing, last: int, i: nat, guard: bool): (r: Cleared)
    requires ClearingShaped(c)
    decreases last + 1 - i
    ensures r.Done? ==> ClearingShaped(r.c) && r.c.node.size == c.node.size && r.c.node.indirect == c.node.indirect
    ensures r.Done? ==> r.c.device.inodeRegion == c.device.inodeRegion
    ensures r.Done? ==> r.c.device.directoryRegion == c.device.directoryRegion
    ensures r.Done? ==> r.c.device.bitmapRegion == c.device.bitmapRegion
    ensures r.Done? ==> forall k | 0 <= k < DirectPointers ::
      r.c.node.direct[k] == if i <= k <= last && !(guard && c.node.direct[k] == Unallocated)
                            then Unallocated else c.node.direct[k]
  {
    if i > last then Done(c)
    else match Round(c, i, guard)
      case Stuck => Stuck
      case Done(c') => ClearFrom(c', last, i + 1, guard)
  }

  /** Lines 462-468: every descriptor on inode `ino` becomes (-1, -1). */
  function CloseAllOn(descriptors: seq<Descriptor>, ino: int): (r: seq<Descriptor>)
    requires ino != Unallocated
    ensures |r| == |descriptors|
    ensures forall j | 0 <= j < |r| ::
      && r[j].inode != ino
      && (descriptors[j].inode != ino ==> r[j] == descriptors[j])
      && (descriptors[j].inode == ino ==> r[j] == ClosedDescriptor())
  {
    seq(|descriptors|, j requires 0 <= j < |descriptors| =>
      if descriptors[j].inode == ino then ClosedDescriptor() else descriptors[j])
  }

  /** Lines 494-509, after the loop has left `c`: the index block is freed
      (undefined when the pointer is outside the device; the corrected loop
      skips a -1 pointer), the inode loses its index pointer, and the three
      tables are written back in the order directory, bitmap, inode table.
      `flushed` is the number of those writes that succeed before the first
      failure; the `&&` of lines 499-501 skips the writes after a failure. */
  function Finish(fs: FileSystem, ino: int, clear: int, c: Clearing, guard: bool, flushed: nat): (r: Removal)
    requires Valid(fs) && 0 <= ino < TableLength && 0 <= clear < TableLength
    requires ClearingShaped(c) && c.node.size == fs.inodes[ino].size
    ensures r.Removed? <==> IsBlockIndex(c.node.indirect) || (guard && c.node.indirect == Unallocated)
    ensures r.Removed? ==> Valid(r.fs) && r.fs.nextName == fs.nextName
    ensures r.Removed? ==> r.status == (if flushed >= RegionWrites then 1 else 0)
    ensures r.Removed? ==>
      && r.fs.device.directoryRegion == (if flushed >= 1 then r.fs.directory else c.device.directoryRegion)
      && r.fs.device.bitmapRegion == (if flushed >= 2 then r.fs.bitmap else c.device.bitmapRegion)
      && r.fs.device.inodeRegion == (if flushed >= 3 then r.fs.inodes else c.device.inodeRegion)
    ensures r.Removed? && flushed >= RegionWrites ==> Synced(r.fs)
    ensures r.Removed? ==>
      && r.fs.directory[clear].inode == Unallocated && r.fs.directory[clear].name == ""
      && r.fs.directory[clear].used == fs.directory[clear].used
      && forall k | 0 <= k < TableLength && k != clear :: r.fs.directory[k] == fs.directory[k]
    ensures r.Removed? ==> forall j | 0 <= j < MaxOpenFiles ::
      && (fs.descriptors[j].inode == ino ==> r.fs.descriptors[j] == ClosedDescriptor())
      && (fs.descriptors[j].inode != ino ==> r.fs.descriptors[j] == fs.descriptors[j])
    ensures r.Removed? ==>
      && r.fs.inodes[ino] == c.node.(indirect := Unallocated)
      && (forall n | 0 <= n < TableLength && n != ino :: r.fs.inodes[n] == fs.inodes[n])
    ensures r.Removed? ==> forall b | 0 <= b < BlockCount ::
      r.fs.bitmap[b] == (c.bitmap[b] || b == c.node.indirect)
    ensures r.Removed? ==> r.fs.device.blocks == c.device.blocks
  {
    if !IsBlockIndex(c.node.indirect) && !(guard && c.node.indirect == Unallocated) then Undefined
    else
      var directory := fs.directory[clear := fs.directory[clear].(inode := Unallocated, name := "")];
      var descriptors := CloseAllOn(fs.descriptors, ino);
      var bitmap := if IsBlockIndex(c.node.indirect) then Deallocate(c.bitmap, c.node.indirect) else c.bitmap;
      var inodes := fs.inodes[ino := c.node.(indirect := Unallocated)];
      var device := c.device.(
        directoryRegion := if flushed >= 1 then directory else c.device.directoryRegion,
        bitmapRegion := if flushed >= 2 then bitmap else c.device.bitmapRegion,
        inodeRegion := if flushed >= 3 then inodes else c.device.inodeRegion);
      Removed(FileSystem(bitmap, inodes, directory, descriptors, fs.nextName, device),
        if flushed >= RegionWrites then 1 else 0)
  }

  /** Lines 441-513 with the slot whose inode is removed (`lookup`) and the
      slot that is cleared (`clear`) given separately. */
  function RemoveAt(fs: FileSystem, lookup: int, clear: int, guard: bool, flushed: nat): (r: Removal)
    requires Valid(fs) && 0 <= lookup < TableLength && 0 <= clear < TableLength
    requires fs.directory[lookup].inode != Unallocated
    ensures r.Removed? ==> Valid(r.fs) && r.fs.nextName == fs.nextName
    ensures r.Removed? ==> r.status == (if flushed >= RegionWrites then 1 else 0)
    ensures r.Removed? ==>
      && r.fs.device.directoryRegion == (if flushed >= 1 then r.fs.directory else fs.device.directoryRegion)
      && r.fs.device.bitmapRegion == (if flushed >= 2 then r.fs.bitmap else fs.device.bitmapRegion)
      && r.fs.device.inodeRegion == (if flushed >= 3 then r.fs.inodes else fs.device.inodeRegion)
    ensures r.Removed? && flushed >= RegionWrites ==> Synced(r.fs)
    ensures r.Removed? ==>
      && r.fs.directory[clear].inode == Unallocated && r.fs.directory[clear].name == ""
      && r.fs.directory[clear].used == fs.directory[clear].used
      && forall k | 0 <= k < TableLength && k != clear :: r.fs.directory[k] == fs.directory[k]
    ensures r.Removed? ==> forall j | 0 <= j < MaxOpenFiles ::
      && (fs.descriptors[j].inode == fs.directory[lookup].inode ==> r.fs.descriptors[j] == ClosedDescriptor())
      && (fs.descriptors[j].inode != fs.directory[lookup].inode ==> r.fs.descriptors[j] == fs.descriptors[j])
    ensures r.Removed? ==>
      var ino := fs.directory[lookup].inode;
      && r.fs.inodes[ino].size == fs.inodes[ino].size
      && r.fs.inodes[ino].indirect == Unallocated
      && (forall k | 0 <= k < DirectPointers ::
            r.fs.inodes[ino].direct[k]
            == if k <= fs.inodes[ino].size / BlockSize then Unallocated else fs.inodes[ino].direct[k])
      && (forall n | 0 <= n < TableLength && n != ino :: r.fs.inodes[n] == fs.inodes[n])
  {
    var ino := fs.directory[lookup].inode;
    var node := fs.inodes[ino];
    match ClearFrom(Clearing(fs.bitmap, node, fs.device), node.size / BlockSize, 0, guard)
    case Stuck => Undefined
    case Done(c) => Finish(fs, ino, clear, c, guard, flushed)
  }

  /** `sfs_remove(name)`.  The inode is taken from the LAST entry carrying the
      name (lines 444-447) but the FIRST entry carrying it is cleared (lines
      453-459); `used` is never reset and the inode keeps its size.
      `flushed` is the number of the three region writes of lines 499-501
      that succeed before the first failure. */
  function Remove(fs: FileSystem, name: string, flushed: nat): (r: Removal)
    requires Valid(fs)
    ensures r.Removed? ==> Valid(r.fs)
    ensures (r.Removed? && r.status == -1)
      <==> forall i | IsLastNamed(fs, name, i) :: fs.directory[i].inode == Unallocated
    ensures r.Removed? && r.status == -1 ==> r.fs == fs
    ensures r.Removed? && r.status != -1 ==> r.status == (if flushed >= RegionWrites then 1 else 0)
    ensures r.Removed? && r.status == 1 ==> Synced(r.fs)
    ensures r.Removed? && r.status == 0 ==> r.fs.device.inodeRegion == fs.device.inodeRegion
    ensures forall i, j | IsLastNamed(fs, name, i) && IsFirstNamed(fs, name, j) && fs.directory[i].inode != Unallocated ::
      r.Removed? ==>
        && r.fs.directory[j].inode == Unallocated && r.fs.directory[j].name == ""
        && r.fs.directory[j].used == fs.directory[j].used
        && (forall k | 0 <= k < TableLength && k != j :: r.fs.directory[k] == fs.directory[k])
        && (forall d | 0 <= d < MaxOpenFiles ::
              && (fs.descriptors[d].inode == fs.directory[i].inode ==> r.fs.descriptors[d] == ClosedDescriptor())
              && (fs.descriptors[d].inode != fs.directory[i].inode ==> r.fs.descriptors[d] == fs.descriptors[d]))
        && r.fs.inodes[fs.directory[i].inode].size == fs.inodes[fs.directory[i].inode].size
  {
    var last := Last(fs.directory, Named(name));
    assert forall i | IsLastNamed(fs, name, i) :: i == last by {
      forall i | IsLastNamed(fs, name, i) ensures i == last {
        assert Named(name)(fs.directory[i]);
      }
    }
    assert forall j | IsFirstNamed(fs, name, j) :: j == First(fs.directory, Named(name)) by {
      forall j | IsFirstNamed(fs, name, j) ensures j == First(fs.directory, Named(name)) {
        assert Named(name)(fs.directory[j]);
      }
    }
    if last == -1 || fs.directory[last].inode == Unallocated then Removed(fs, -1)
    else RemoveAt(fs, last, First(fs.directory, Named(name)), false, flushed)
  }

  /** Is slot `i` the last directory entry carrying `name`? */
  predicate IsLastNamed(fs: FileSystem, name: string, i: int)
    requires TablesShaped(fs)
  {
    0 <= i < TableLength && fs.directory[i].name == name
    && forall k | i < k < TableLength :: fs.directory[k].name != name
  }

  /** Is slot `i` the first directory entry carrying `name`? */
  predicate IsFirstNamed(fs: FileSystem, name: string, i: int)
    requires TablesShaped(fs)
  {
    0 <= i < TableLength && fs.directory[i].name == name
    && forall k | 0 <= k < i :: fs.directory[k].name != name
  }

  /** The outcome of `Remove` in the terms of the directory: not found exactly
      when no entry carries the name or the last one is unbound; otherwise the
      inode of the last carrier is removed and the first carrier is cleared. */
  lemma RemoveLooksUpLastClearsFirst(fs: FileSystem, name: string, flushed: nat)
    requires Valid(fs)
    ensures var r := Remove(fs, name, flushed);
      (r.Removed? && r.status == -1)
      <==> forall i | IsLastNamed(fs, name, i) :: fs.directory[i].inode == Unallocated
    ensures var r := Remove(fs, name, flushed);
      r.Removed? && r.status == -1 ==> r.fs == fs
    ensures forall i, j | IsLastNamed(fs, name, i) && IsFirstNamed(fs, name, j) && fs.directory[i].inode != Unallocated ::
      Remove(fs, name, flushed) == RemoveAt(fs, i, j, false, flushed)
  {
    var last := Last(fs.directory, Named(name));
    forall i | IsLastNamed(fs, name, i) ensures i == last {
      assert Named(name)(fs.directory[i]);
    }
    if last != -1 {
      assert IsLastNamed(fs, name, last);
      var first := First(fs.directory, Named(name));
      assert IsFirstNamed(fs, name, first);
      forall j | IsFirstNamed(fs, name, j) ensures j == first {
        assert Named(name)(fs.directory[j]);
      }
    }
  }

  /** A round over a device block other than the index block leaves the
      index pointer and every later pointer as they were. */
  lemma NextKeepsPointers(c: Clearing, i: nat, ptr: int)
    requires ClearingShaped(c) && IsBlockIndex(ptr) && ptr != c.node.indirect
    ensures Next(c, i, ptr).node.indirect == c.node.indirect
    ensures Entries(Next(c, i, ptr).device, Next(c, i, ptr).node) == Entries(c.device, c.node)
    ensures forall k | i < k < DirectPointers + IndirectPointers :: Pointer(Next(c, i, ptr), k) == Pointer(c, k)
  {
  }

  /** The as-written loop from logical block `i` to `|targets| - 1` visits
      the blocks `targets[i..]`, none of them the index block. */
  predicate Visits(c: Clearing, i: nat, targets: seq<int>)
    requires ClearingShaped(c)
  {
    && i <= |targets| <= DirectPointers + IndirectPointers
    && forall k | i <= k < |targets| :: Pointer(c, k) == targets[k] && targets[k] != c.node.indirect
  }

  /** The as-written rounds from `i` on are defined exactly when every
      visited block is a device block. */
  lemma {:induction false} ClearFromDefined(c: Clearing, i: nat, targets: seq<int>)
    requires ClearingShaped(c) && Visits(c, i, targets)
    ensures ClearFrom(c, |targets| - 1, i, false).Done? <==> forall k | i <= k < |targets| :: IsBlockIndex(targets[k])
    decreases |targets| - i
  {
    if i < |targets| {
      VisitedRound(c, i, targets);
      if IsBlockIndex(targets[i]) {
        var next := Next(c, i, targets[i]);
        assert ClearFrom(c, |targets| - 1, i, false) == ClearFrom(next, |targets| - 1, i + 1, false);
        ClearFromDefined(next, i + 1, targets);
      } else {
        assert ClearFrom(c, |targets| - 1, i, false) == Stuck;
      }
    }
  }

  /** The as-written round over a visited block gets stuck exactly on a
      pointer outside the device, and otherwise leaves the later visits as
      they were. */
  lemma VisitedRound(c: Clearing, i: nat, targets: seq<int>)
    requires ClearingShaped(c) && Visits(c, i, targets) && i < |targets|
    ensures Round(c, i, false) == if IsBlockIndex(targets[i]) then Done(Next(c, i, targets[i])) else Stuck
    ensures IsBlockIndex(targets[i]) ==> Visits(Next(c, i, targets[i]), i + 1, targets)
  {
    if IsBlockIndex(targets[i]) {
      NextKeepsPointers(c, i, targets[i]);
    }
  }

  /** Defined as-written rounds from `i` on free exactly the visited blocks. */
  lemma {:induction false} ClearFromBitmap(c: Clearing, i: nat, targets: seq<int>)
    requires ClearingShaped(c) && Visits(c, i, targets)
    requires ClearFrom(c, |targets| - 1, i, false).Done?
    ensures forall b | 0 <= b < BlockCount ::
      ClearFrom(c, |targets| - 1, i, false).c.bitmap[b] == (c.bitmap[b] || b in targets[i..])
    decreases |targets| - i
  {
    if i < |targets| {
      var next := Next(c, i, targets[i]);
      NextKeepsPointers(c, i, targets[i]);
      assert ClearFrom(c, |targets| - 1, i, false) == ClearFrom(next, |targets| - 1, i + 1, false);
      ClearFromBitmap(next, i + 1, targets);
      assert targets[i..] == [targets[i]] + targets[i + 1..];
    }
  }

  /** Defined as-written rounds from `i` on zero exactly the visited blocks. */
  lemma {:induction false} ClearFromBlocks(c: Clearing, i: nat, targets: seq<int>)
    requires ClearingShaped(c) && Visits(c, i, targets)
    requires ClearFrom(c, |targets| - 1, i, false).Done?
    ensures forall b | 0 <= b < BlockCount ::
      ClearFrom(c, |targets| - 1, i, false).c.device.blocks[b]
      == if b in targets[i..] then ZeroBlock() else c.device.blocks[b]
    decreases |targets| - i
  {
    if i < |targets| {
      var next := Next(c, i, targets[i]);
      NextKeepsPointers(c, i, targets[i]);
      assert ClearFrom(c, |targets| - 1, i, false) == ClearFrom(next, |targets| - 1, i + 1, false);
      ClearFromBlocks(next, i + 1, targets);
      forall b | 0 <= b < BlockCount
        ensures ClearFrom(c, |targets| - 1, i, false).c.device.blocks[b]
                == if b in targets[i..] then ZeroBlock() else c.device.blocks[b]
      {
        assert b in targets[i..] <==> b == targets[i] || b in targets[i + 1..];
      }
    }
  }

  /** The blocks a file's removal visits, in order: its direct pointers and
      the slots of the index block the indirect pointer designates (zeros
      when it designates none), up to the block holding byte `size`. */
  function VisitedBlocks(fs: FileSystem, node: Inode): (v: seq<int>)
    requires Valid(fs) && |node.direct| == DirectPointers && 0 <= node.size
    requires node.size / BlockSize < DirectPointers + IndirectPointers
    ensures |v| == node.size / BlockSize + 1
    ensures forall k | 0 <= k < |v| :: v[k] == Pointer(Clearing(fs.bitmap, node, fs.device), k)
  {
    seq(node.size / BlockSize + 1, k requires 0 <= k <= node.size / BlockSize =>
      ClearedBlock(node, Entries(fs.device, node), k))
  }

  /** No block the removal frees is the file's own index block. */
  predicate SparesIndex(fs: FileSystem, node: Inode)
    requires Valid(fs) && |node.direct| == DirectPointers && 0 <= node.size
  {
    node.size / BlockSize < DirectPointers + IndirectPointers
    && node.indirect !in VisitedBlocks(fs, node)
  }

  /** A removal is the loop over the inode's blocks followed by `Finish`,
      or undefined when the loop gets stuck. */
  lemma RemoveAtIsLoopThenFinish(fs: FileSystem, lookup: int, clear: int, guard: bool, flushed: nat)
    requires Valid(fs) && 0 <= lookup < TableLength && 0 <= clear < TableLength
    requires fs.directory[lookup].inode != Unallocated
    ensures var ino := fs.directory[lookup].inode;
      var node := fs.inodes[ino];
      var cleared := ClearFrom(Clearing(fs.bitmap, node, fs.device), node.size / BlockSize, 0, guard);
      RemoveAt(fs, lookup, clear, guard, flushed)
        == if cleared.Stuck? then Undefined else Finish(fs, ino, clear, cleared.c, guard, flushed)
  {
  }

  /** Removing the inode bound at `lookup`: the removal is defined exactly
      when the index pointer and every visited pointer name device blocks;
      then those blocks and the index block become free, the visited blocks
      are zeroed, and no other flag or block changes. */
  lemma RemoveFreesFileBlocks(fs: FileSystem, lookup: int, clear: int, flushed: nat)
    requires Valid(fs) && 0 <= lookup < TableLength && 0 <= clear < TableLength
    requires fs.directory[lookup].inode != Unallocated
    requires SparesIndex(fs, fs.inodes[fs.directory[lookup].inode])
    ensures var node := fs.inodes[fs.directory[lookup].inode];
      RemoveAt(fs, lookup, clear, false, flushed).Removed?
      <==> IsBlockIndex(node.indirect) && forall b | b in VisitedBlocks(fs, node) :: IsBlockIndex(b)
    ensures var node := fs.inodes[fs.directory[lookup].inode];
      var r := RemoveAt(fs, lookup, clear, false, flushed);
      r.Removed? ==>
        && (forall b | 0 <= b < BlockCount ::
              r.fs.bitmap[b] == (fs.bitmap[b] || b == node.indirect || b in VisitedBlocks(fs, node)))
        && (forall b | 0 <= b < BlockCount ::
              r.fs.device.blocks[b] == if b in VisitedBlocks(fs, node) then ZeroBlock() else fs.device.blocks[b])
  {
    var node := fs.inodes[fs.directory[lookup].inode];
    var targets := VisitedBlocks(fs, node);
    var c := Clearing(fs.bitmap, node, fs.device);
    var cleared := ClearFrom(c, |targets| - 1, 0, false);
    RemoveAtIsLoopThenFinish(fs, lookup, clear, false, flushed);
    assert targets[0..] == targets;
    assert Visits(c, 0, targets);
    ClearFromDefined(c, 0, targets);
    if ClearFrom(c, |targets| - 1, 0, false).Done? {
      ClearFromBitmap(c, 0, targets);
      ClearFromBlocks(c, 0, targets);
    }
  }

  /** Removing a file that has no index block (every file until its
      thirteenth block is written) frees block -1: undefined behaviour. */
  lemma RemoveWithoutIndexBlockIsUndefined(fs: FileSystem, name: string, flushed: nat, i: int)
    requires Valid(fs) && IsLastNamed(fs, name, i) && fs.directory[i].inode != Unallocated
    requires fs.inodes[fs.directory[i].inode].indirect == Unallocated
    ensures Remove(fs, name, flushed) == Undefined
  {
    RemoveLooksUpLastClearsFirst(fs, name, flushed);
    var j := First(fs.directory, Named(name));
    assert Named(name)(fs.directory[i]);
    assert IsFirstNamed(fs, name, j);
    assert Remove(fs, name, flushed) == RemoveAt(fs, i, j, false, flushed);
  }

  /** With two entries carrying the name, the removal frees the inode of the
      later one but clears the earlier one: the later entry stays bound to an
      inode that has lost its index block, and the earlier file is gone from
      the directory although its inode is untouched. */
  lemma RemoveClearsOtherEntry(fs: FileSystem, name: string, flushed: nat, i: int, j: int)
    requires Valid(fs) && 0 <= i < j && IsFirstNamed(fs, name, i) && IsLastNamed(fs, name, j)
    requires fs.directory[j].inode != Unallocated && fs.directory[i].inode != fs.directory[j].inode
    ensures var r := Remove(fs, name, flushed);
      r.Removed? ==>
        && r.fs.directory[j] == fs.directory[j]
        && r.fs.inodes[fs.directory[j].inode].indirect == Unallocated
        && r.fs.directory[i].inode == Unallocated
        && (fs.directory[i].inode != Unallocated ==>
              r.fs.inodes[fs.directory[i].inode] == fs.inodes[fs.directory[i].inode])
  {
    RemoveLooksUpLastClearsFirst(fs, name, flushed);
    var r := Remove(fs, name, flushed);
    assert r == RemoveAt(fs, j, i, false, flushed);
  }

  /** `sfs_remove` as evidently intended: the entry whose inode is removed is
      the entry cleared, and unallocated pointers are skipped rather than
      freed. */
  function RemoveFixed(fs: FileSystem, name: string, flushed: nat): (r: Removal)
    requires Valid(fs)
    ensures r.Removed? ==> Valid(r.fs)
    ensures (r.Removed? && r.status == -1)
      <==> forall i | IsLastNamed(fs, name, i) :: fs.directory[i].inode == Unallocated
    ensures r.Removed? && r.status == -1 ==> r.fs == fs
    ensures forall i | IsLastNamed(fs, name, i) && fs.directory[i].inode != Unallocated ::
      r.Removed? ==>
        && r.fs.directory[i].inode == Unallocated && r.fs.directory[i].name == ""
        && (forall k | 0 <= k < TableLength && k != i :: r.fs.directory[k] == fs.directory[k])
        && forall j | 0 <= j < MaxOpenFiles :: r.fs.descriptors[j].inode != fs.directory[i].inode
  {
    var last := Last(fs.directory, Named(name));
    assert forall i | IsLastNamed(fs, name, i) :: i == last by {
      forall i | IsLastNamed(fs, name, i) ensures i == last {
        assert Named(name)(fs.directory[i]);
      }
    }
    if last == -1 || fs.directory[last].inode == Unallocated then Removed(fs, -1)
    else RemoveAt(fs, last, last, true, flushed)
  }

  /** From logical block `i` on, the pointers the corrected loop loads are
      `targets`, and each one it does not skip is -1 or a device block other
      than the index block. */
  predicate SoundFrom(c: Clearing, i: nat, targets: seq<int>)
    requires ClearingShaped(c)
  {
    && i <= |targets| <= DirectPointers + IndirectPointers
    && forall k | i <= k < |targets| && (k < DirectPointers || IsBlockIndex(c.node.indirect)) ::
      && Pointer(c, k) == targets[k]
      && (targets[k] == Unallocated || (IsBlockIndex(targets[k]) && targets[k] != c.node.indirect))
  }

  /** A round the corrected loop skips changes nothing. */
  lemma GuardedSkip(c: Clearing, i: nat, targets: seq<int>)
    requires ClearingShaped(c) && SoundFrom(c, i, targets) && i < |targets|
    requires Skips(c, i, true)
    ensures ClearFrom(c, |targets| - 1, i, true) == ClearFrom(c, |targets| - 1, i + 1, true)
    ensures SoundFrom(c, i + 1, targets)
  {
  }

  /** A round the corrected loop does not skip frees a device block and
      keeps the later pointers sound. */
  lemma GuardedStep(c: Clearing, i: nat, targets: seq<int>)
    requires ClearingShaped(c) && SoundFrom(c, i, targets) && i < |targets|
    requires !Skips(c, i, true)
    ensures IsBlockIndex(targets[i])
    ensures ClearFrom(c, |targets| - 1, i, true) == ClearFrom(Next(c, i, targets[i]), |targets| - 1, i + 1, true)
    ensures SoundFrom(Next(c, i, targets[i]), i + 1, targets)
  {
    NextKeepsPointers(c, i, targets[i]);
  }

  /** The corrected loop is defined whenever every pointer it does not skip
      is -1 or a device block other than the index block. */
  lemma {:induction false} GuardedClearDefined(c: Clearing, i: nat, targets: seq<int>)
    requires ClearingShaped(c) && SoundFrom(c, i, targets)
    ensures ClearFrom(c, |targets| - 1, i, true).Done?
    decreases |targets| - i
  {
    if i < |targets| {
      var next: Clearing;
      if Skips(c, i, true) {
        GuardedSkip(c, i, targets);
        next := c;
      } else {
        GuardedStep(c, i, targets);
        next := Next(c, i, targets[i]);
      }
      GuardedClearDefined(next, i + 1, targets);
    }
  }

  /** Every pointer the removal of `node` visits and does not skip is -1 or a
      device block other than the index block, and the index pointer itself
      is -1 or a device block. */
  predicate PointersSound(fs: FileSystem, node: Inode)
    requires Valid(fs) && |node.direct| == DirectPointers && 0 <= node.size
  {
    && node.size / BlockSize < DirectPointers + IndirectPointers
    && (node.indirect == Unallocated || IsBlockIndex(node.indirect))
    && SoundFrom(Clearing(fs.bitmap, node, fs.device), 0, VisitedBlocks(fs, node))
  }

  /** The corrected removal of the inode bound at `lookup`, when its pointers
      are sound, reaches a status. */
  lemma GuardedRemoveDefined(fs: FileSystem, lookup: int, clear: int, flushed: nat)
    requires Valid(fs) && 0 <= lookup < TableLength && 0 <= clear < TableLength
    requires fs.directory[lookup].inode != Unallocated
    requires PointersSound(fs, fs.inodes[fs.directory[lookup].inode])
    ensures RemoveAt(fs, lookup, clear, true, flushed).Removed?
  {
    var node := fs.inodes[fs.directory[lookup].inode];
    GuardedClearDefined(Clearing(fs.bitmap, node, fs.device), 0, VisitedBlocks(fs, node));
  }

  /** The corrected removal of a found file with sound pointers is defined:
      it always reaches a status. */
  lemma RemoveFixedDefined(fs: FileSystem, name: string, flushed: nat, i: int)
    requires Valid(fs) && IsLastNamed(fs, name, i) && fs.directory[i].inode != Unallocated
    requires PointersSound(fs, fs.inodes[fs.directory[i].inode])
    ensures RemoveFixed(fs, name, flushed).Removed?
    ensures RemoveFixed(fs, name, flushed).status == (if flushed >= RegionWrites then 1 else 0)
  {
    assert Named(name)(fs.directory[i]);
    assert Last(fs.directory, Named(name)) == i;
    GuardedRemoveDefined(fs, i, i, flushed);
  }
}

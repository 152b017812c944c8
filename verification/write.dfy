/** `sfs_fwrite`. */
module Write {
  import opened Layout
  import opened Records
  import opened BlockDevice
  import opened IndexBlock
  import opened FreeBitmap
  import opened State
  import opened Extent
  import opened Optional

  /** What the loop of lines 271-341 carries from block to block: the bitmap,
      the inode being written (`inode` points into the table, so its pointer
      updates are in place), the device, the scratch block `temp_block`, the
      local copy `indirect_pointers_array`, the flag
      `bool_for_indirect_pointers_array` and `amt_written`. */
  datatype Progress = Progress(
    bitmap: seq<bool>,
    node: Inode,
    device: Device,
    temp: Block,
    index: seq<int>,
    indexTouched: bool,
    written: int)

  /** The loop either runs to its end or stops at a failed allocation
      (`return -1` at lines 283, 303 and 328) with what it had done so far. */
  datatype Outcome = Finished(p: Progress) | OutOfSpace(p: Progress)

  predicate Shaped(p: Progress) {
    && |p.bitmap| == BlockCount
    && |p.node.direct| == DirectPointers
    && WellFormed(p.device)
    && IsBlock(p.temp)
    && |p.index| == IndirectPointers
    && AllInt32(p.index)
  }

  /** What a step may change: it only claims free blocks, only fills pointer
      slots that held -1, and leaves the size and the table regions alone. */
  predicate Extends(p: Progress, q: Progress)
    requires Shaped(p) && Shaped(q)
  {
    && (forall k | 0 <= k < BlockCount :: q.bitmap[k] ==> p.bitmap[k])
    && q.node.size == p.node.size
    && (forall k | 0 <= k < DirectPointers && p.node.direct[k] != Unallocated :: q.node.direct[k] == p.node.direct[k])
    && (p.node.indirect != Unallocated ==> q.node.indirect == p.node.indirect)
    && q.device.inodeRegion == p.device.inodeRegion
    && q.device.directoryRegion == p.device.directoryRegion
    && q.device.bitmapRegion == p.device.bitmapRegion
  }

  lemma ExtendsTransitive(p: Progress, q: Progress, r: Progress)
    requires Shaped(p) && Shaped(q) && Shaped(r) && Extends(p, q) && Extends(q, r)
    ensures Extends(p, r)
  {
  }

  /** Lines 289-293 and 334-336: read block `ptr` into the scratch block, copy
      `chunk` in at `offset` and write it back. */
  function CopyInto(p: Progress, ptr: int, offset: int, chunk: seq<byte>): (q: Progress)
    requires Shaped(p) && 0 <= offset && offset + |chunk| <= BlockSize
    ensures Shaped(q) && Extends(p, q)
    ensures q.written == p.written + |chunk|
    ensures q.bitmap == p.bitmap && q.node == p.node && q.index == p.index
    ensures IsBlockIndex(ptr) ==> forall k | 0 <= k < |chunk| :: q.device.blocks[ptr][offset + k] == chunk[k]
    ensures forall b | 0 <= b < BlockCount && b != ptr :: q.device.blocks[b] == p.device.blocks[b]
  {
    var t := Splice(ReadBlock(p.device, ptr, p.temp), offset, chunk);
    p.(temp := t, device := WriteBlock(p.device, ptr, t), written := p.written + |chunk|)
  }

  /** Lines 277-293: block `i` is addressed by direct pointer `i`, allocated
      first if it is -1. */
  function WriteDirect(p: Progress, i: int, offset: int, chunk: seq<byte>): (o: Outcome)
    requires Shaped(p) && 0 <= i < DirectPointers
    requires 0 <= offset && offset + |chunk| <= BlockSize
    ensures Shaped(o.p) && Extends(p, o.p)
    ensures o.p.indexTouched == p.indexTouched
    ensures o.OutOfSpace? ==> o.p == p && forall k | 0 <= k < BlockCount :: !p.bitmap[k]
    ensures o.Finished? ==> o.p.written == p.written + |chunk| && o.p.node.direct[i] != Unallocated
    ensures o.Finished? ==> forall j | 0 <= j < DirectPointers && j != i :: o.p.node.direct[j] == p.node.direct[j]
    ensures o.Finished? && p.node.direct[i] == Unallocated ==>
      IsBlockIndex(o.p.node.direct[i]) && p.bitmap[o.p.node.direct[i]] && !o.p.bitmap[o.p.node.direct[i]]
    ensures o.Finished? ==> forall b | 0 <= b < BlockCount && b != o.p.node.direct[i] ::
      o.p.bitmap[b] == p.bitmap[b] && o.p.device.blocks[b] == p.device.blocks[b]
    ensures o.Finished? && IsBlockIndex(o.p.node.direct[i]) ==>
      forall k | 0 <= k < |chunk| :: o.p.device.blocks[o.p.node.direct[i]][offset + k] == chunk[k]
  {
    if p.node.direct[i] == Unallocated then
      var a := Allocate(p.bitmap);
      if a.block < 0 then OutOfSpace(p)
      else Finished(CopyInto(p.(bitmap := a.bitmap, node := p.node.(direct := p.node.direct[i := a.block])), a.block, offset, chunk))
    else Finished(CopyInto(p, p.node.direct[i], offset, chunk))
  }

  /** Lines 317-336: reload the index array from the index block, allocate
      slot `i - 12` if it is -1, and copy into the block it names.  The
      reload replaces the local array, so a slot filled while visiting an
      earlier block of the same call, and not yet written back, is lost. */
  function WriteSlot(p: Progress, i: int, offset: int, chunk: seq<byte>): (o: Outcome)
    requires Shaped(p) && DirectPointers <= i < DirectPointers + IndirectPointers
    requires 0 <= offset && offset + |chunk| <= BlockSize
    ensures Shaped(o.p) && Extends(p, o.p)
    ensures o.p.node == p.node && o.p.indexTouched == p.indexTouched
    ensures o.OutOfSpace? ==> forall k | 0 <= k < BlockCount :: !o.p.bitmap[k]
    ensures o.Finished? ==> o.p.written == p.written + |chunk| && o.p.index[i - DirectPointers] != Unallocated
    ensures IsBlockIndex(p.node.indirect) ==>
      forall k | 0 <= k < IndirectPointers && k != i - DirectPointers :: o.p.index[k] == Decode(p.device.blocks[p.node.indirect])[k]
    ensures o.Finished? ==> forall b | 0 <= b < BlockCount && b != o.p.index[i - DirectPointers] ::
      o.p.bitmap[b] == p.bitmap[b] && o.p.device.blocks[b] == p.device.blocks[b]
    ensures o.Finished? && IsBlockIndex(o.p.index[i - DirectPointers]) ==>
      forall k | 0 <= k < |chunk| :: o.p.device.blocks[o.p.index[i - DirectPointers]][offset + k] == chunk[k]
  {
    var t := ReadBlock(p.device, p.node.indirect, p.temp);
    var index := Decode(t);
    var loaded := p.(temp := t, index := index);
    var slot := i - DirectPointers;
    if index[slot] == Unallocated then
      var a := Allocate(loaded.bitmap);
      if a.block < 0 then OutOfSpace(loaded)
      else Finished(CopyInto(loaded.(bitmap := a.bitmap, index := index[slot := a.block]), a.block, offset, chunk))
    else Finished(CopyInto(loaded, index[slot], offset, chunk))
  }

  /** Lines 296-312: allocate an index block, fill the index array with -1
      and store it there.  `None` when no block is free. */
  function NewIndexBlock(p: Progress): (q: Option<Progress>)
    requires Shaped(p) && p.node.indirect == Unallocated
    ensures q.Some? ==> Shaped(q.value) && Extends(p, q.value)
    ensures q.Some? ==> IsBlockIndex(q.value.node.indirect) && p.bitmap[q.value.node.indirect]
    ensures q.Some? ==> q.value.index == EmptyIndex() && q.value.device.blocks[q.value.node.indirect] == Encode(EmptyIndex())
    ensures q.Some? ==> q.value.written == p.written && q.value.indexTouched == p.indexTouched
    ensures q.None? ==> forall k | 0 <= k < BlockCount :: !p.bitmap[k]
  {
    var a := Allocate(p.bitmap);
    if a.block < 0 then None
    else
      var empty := EmptyIndex();
      EncodeIndexIsBlock(empty);
      var t := Encode(empty);
      Some(p.(
        bitmap := a.bitmap,
        node := p.node.(indirect := a.block),
        index := empty,
        temp := t,
        device := WriteBlock(p.device, a.block, t)))
  }

  /** Allocating the index block writes no block but the index block. */
  lemma NewIndexBlockKeepsOtherBlocks(p: Progress)
    requires Shaped(p) && p.node.indirect == Unallocated
    ensures var q := NewIndexBlock(p);
      q.Some? ==> forall b | 0 <= b < BlockCount && b != q.value.node.indirect :: q.value.device.blocks[b] == p.device.blocks[b]
  {
  }

  /** Lines 294-337: block `i` is addressed through the indirect pointer.  A
      missing index block is allocated and filled with -1 first. */
  function WriteIndirect(p: Progress, i: int, offset: int, chunk: seq<byte>): (o: Outcome)
    requires Shaped(p) && DirectPointers <= i < DirectPointers + IndirectPointers
    requires 0 <= offset && offset + |chunk| <= BlockSize
    ensures Shaped(o.p) && Extends(p, o.p) && o.p.indexTouched
    ensures o.OutOfSpace? ==> forall k | 0 <= k < BlockCount :: !o.p.bitmap[k]
    ensures o.Finished? ==> o.p.written == p.written + |chunk| && o.p.node.indirect != Unallocated
    ensures o.Finished? ==> forall b | 0 <= b < BlockCount && b != o.p.index[i - DirectPointers] && b != o.p.node.indirect ::
      o.p.device.blocks[b] == p.device.blocks[b]
    ensures o.Finished? && IsBlockIndex(o.p.index[i - DirectPointers]) ==>
      forall k | 0 <= k < |chunk| :: o.p.device.blocks[o.p.index[i - DirectPointers]][offset + k] == chunk[k]
  {
    var touched := p.(indexTouched := true);
    if p.node.indirect == Unallocated then
      match NewIndexBlock(touched)
      case None => OutOfSpace(touched)
      case Some(q) =>
        NewIndexBlockKeepsOtherBlocks(touched);
        WriteSlot(q, i, offset, chunk)
    else WriteSlot(touched, i, offset, chunk)
  }

  /** One pass of the loop of lines 271-341: the window of block `i`, cut from `buf` at `amt_written`, goes to a direct or an indirect block. */
  function BlockStep(p: Progress, buf: seq<byte>, rw: int, len: int, i: int): (o: Outcome)
    requires Shaped(p) && 0 <= rw && 0 <= len <= |buf| && rw + len < MaxFileSize
    requires FirstBlock(rw) <= i <= LastBlock(rw, len)
    requires p.written == Before(rw, len, i)
    ensures Shaped(o.p) && Extends(p, o.p)
    ensures o.Finished? ==> o.p.written == p.written + Span(rw, len, i)
    ensures o.OutOfSpace? ==> forall k | 0 <= k < BlockCount :: !o.p.bitmap[k]
    ensures p.indexTouched ==> o.p.indexTouched
  {
    WindowInBlock(rw, len, i);
    BeforeAdvances(rw, len, i);
    var offset := Offset(rw, len, i);
    var chunk := buf[p.written..p.written + Span(rw, len, i)];
    if i < DirectPointers then WriteDirect(p, i, offset, chunk) else WriteIndirect(p, i, offset, chunk)
  }

  /** A finished pass over block `i` left `chunk` at `offset` in the block
      it targets: direct pointer `i` below block 12, index slot `i - 12`
      from there on. */
  predicate Lands(o: Outcome, i: int, offset: int, chunk: seq<byte>)
    requires Shaped(o.p) && 0 <= i < DirectPointers + IndirectPointers
  {
    var target := if i < DirectPointers then o.p.node.direct[i] else o.p.index[i - DirectPointers];
    o.Finished? && IsBlockIndex(target) ==>
      && 0 <= offset && offset + |chunk| <= BlockSize
      && forall k | 0 <= k < |chunk| :: o.p.device.blocks[target][offset + k] == chunk[k]
  }

  lemma DirectLands(p: Progress, i: int, offset: int, chunk: seq<byte>)
    requires Shaped(p) && 0 <= i < DirectPointers
    requires 0 <= offset && offset + |chunk| <= BlockSize
    ensures Lands(WriteDirect(p, i, offset, chunk), i, offset, chunk)
  {
  }

  lemma IndirectLands(p: Progress, i: int, offset: int, chunk: seq<byte>)
    requires Shaped(p) && DirectPointers <= i < DirectPointers + IndirectPointers
    requires 0 <= offset && offset + |chunk| <= BlockSize
    ensures Lands(WriteIndirect(p, i, offset, chunk), i, offset, chunk)
  {
  }

  /** A completed pass leaves the window of block `i`, cut from `buf` at the
      bytes written so far, in the block it targets, whether that block is
      reached directly or through the index. */
  lemma BlockStepStoresWindow(p: Progress, buf: seq<byte>, rw: int, len: int, i: int)
    requires Shaped(p) && 0 <= rw && 0 <= len <= |buf| && rw + len < MaxFileSize
    requires FirstBlock(rw) <= i <= LastBlock(rw, len)
    requires p.written == Before(rw, len, i)
    ensures (WindowInBlock(rw, len, i); BeforeAdvances(rw, len, i);
      Lands(BlockStep(p, buf, rw, len, i), i, Offset(rw, len, i), buf[p.written..p.written + Span(rw, len, i)]))
  {
    WindowInBlock(rw, len, i);
    BeforeAdvances(rw, len, i);
    var offset := Offset(rw, len, i);
    var chunk := buf[p.written..p.written + Span(rw, len, i)];
    if i < DirectPointers {
      DirectLands(p, i, offset, chunk);
      assert BlockStep(p, buf, rw, len, i) == WriteDirect(p, i, offset, chunk);
    } else {
      IndirectLands(p, i, offset, chunk);
      assert BlockStep(p, buf, rw, len, i) == WriteIndirect(p, i, offset, chunk);
    }
  }

  /** Below the twelfth block a pass of the loop is the direct branch. */
  lemma BlockStepIsDirect(p: Progress, buf: seq<byte>, rw: int, len: int, i: int)
    requires Shaped(p) && 0 <= rw && 0 <= len <= |buf| && rw + len < MaxFileSize
    requires FirstBlock(rw) <= i <= LastBlock(rw, len) && i < DirectPointers
    requires p.written == Before(rw, len, i)
    ensures (WindowInBlock(rw, len, i); BeforeAdvances(rw, len, i);
      BlockStep(p, buf, rw, len, i) == WriteDirect(p, i, Offset(rw, len, i), buf[p.written..p.written + Span(rw, len, i)]))
  {
  }

  /** The loop of lines 271-341 from block `i` on. */
  function WriteFrom(p: Progress, buf: seq<byte>, rw: int, len: int, i: int): (o: Outcome)
    requires Shaped(p) && 0 <= rw && 0 <= len <= |buf| && rw + len < MaxFileSize
    requires FirstBlock(rw) <= i <= LastBlock(rw, len) + 1
    requires i <= LastBlock(rw, len) ==> p.written == Before(rw, len, i)
    decreases LastBlock(rw, len) + 1 - i
    ensures Shaped(o.p) && Extends(p, o.p)
    ensures o.Finished? ==> o.p.written == p.written + SpanTotal(rw, len, i)
    ensures o.OutOfSpace? ==> forall k | 0 <= k < BlockCount :: !o.p.bitmap[k]
    ensures p.indexTouched ==> o.p.indexTouched
  {
    if i > LastBlock(rw, len) then Finished(p)
    else
      match BlockStep(p, buf, rw, len, i)
      case OutOfSpace(q) => OutOfSpace(q)
      case Finished(q) =>
        BeforeAdvances(rw, len, i);
        var r := WriteFrom(q, buf, rw, len, i + 1);
        ExtendsTransitive(p, q, r.p);
        r
  }

  /** Line 255: cut the length so that the write ends at the maximum file size. */
  function Truncate(rw: int, length: int): (len: int)
    ensures rw + length > MaxFileSize ==> rw + len == MaxFileSize
    ensures rw + length <= MaxFileSize ==> len == length
  {
    if length + rw > MaxFileSize then MaxFileSize - rw else length
  }

  /** A write is free of undefined behaviour when the cursor is not negative and
      the (truncated) range ends before block 268: visiting block 268 reads
      slot 256 of the 256-entry index array (line 324). */
  predicate WriteDefined(rw: int, length: int) {
    0 <= rw && rw + Truncate(rw, length) < MaxFileSize
  }

  /** Truncation can never produce a defined write: a truncated range ends
      exactly at `MaxFileSize`, and its last visited block is 268, so the
      empty window on it goes through indirect slot 256. */
  lemma TruncatedWriteReachesSlot256(rw: int, length: int)
    requires 0 <= rw && rw + length > MaxFileSize
    ensures !WriteDefined(rw, length)
    ensures 0 <= Truncate(rw, length) ==>
      LastBlock(rw, Truncate(rw, length)) - DirectPointers == IndirectPointers
  {
  }

  /** Lines 246-363.  `scratch` is the uninitialised block `malloc` returns.
      On success the index array is written back (lines 344-347), the cursor
      advances, the size grows to the cursor, and the bitmap and inode table
      are flushed.  On a failed allocation the pointers and blocks claimed so
      far stay in memory, and neither the cursor, the size nor the regions
      change. */
  function Write(fs: FileSystem, fd: int, buf: seq<byte>, length: int, scratch: Block): (r: Step)
    requires Valid(fs) && 0 <= fd < MaxOpenFiles && 0 <= length <= |buf| && IsBlock(scratch)
    requires IsOpen(fs, fd) ==> WriteDefined(fs.descriptors[fd].rw, length)
    ensures Valid(r.fs)
    ensures !IsOpen(fs, fd) ==> r == Step(fs, -1)
    ensures r.fs.directory == fs.directory && r.fs.nextName == fs.nextName
    ensures forall k | 0 <= k < BlockCount :: r.fs.bitmap[k] ==> fs.bitmap[k]
    ensures IsOpen(fs, fd) ==>
      var ino := fs.descriptors[fd].inode;
      var rw := fs.descriptors[fd].rw;
      && (r.status == -1 || r.status == length)
      && (forall n | 0 <= n < TableLength && n != ino :: r.fs.inodes[n] == fs.inodes[n])
      && (r.status == length ==>
            && r.fs.descriptors == fs.descriptors[fd := Descriptor(ino, rw + length)]
            && r.fs.inodes[ino].size == Max(fs.inodes[ino].size, rw + length)
            && (Synced(fs) ==> Synced(r.fs)))
      && (r.status == -1 ==>
            && r.fs.descriptors == fs.descriptors
            && r.fs.inodes[ino].size == fs.inodes[ino].size
            && r.fs.device.inodeRegion == fs.device.inodeRegion
            && r.fs.device.bitmapRegion == fs.device.bitmapRegion
            && forall k | 0 <= k < BlockCount :: !r.fs.bitmap[k])
  {
    if fs.descriptors[fd].inode == Unallocated then Step(fs, -1)
    else
      var len := Truncate(fs.descriptors[fd].rw, length);
      assert len == length;
      WriteOpen(fs, fd, buf, len, scratch)
  }

  /** Lines 257-363: the write on an open file, `len` bytes after truncation. */
  function WriteOpen(fs: FileSystem, fd: int, buf: seq<byte>, len: int, scratch: Block): (r: Step)
    requires Valid(fs) && 0 <= fd < MaxOpenFiles && IsOpen(fs, fd) && 0 <= len <= |buf| && IsBlock(scratch)
    requires 0 <= fs.descriptors[fd].rw && fs.descriptors[fd].rw + len < MaxFileSize
    ensures Valid(r.fs)
    ensures r.fs.directory == fs.directory && r.fs.nextName == fs.nextName
    ensures forall k | 0 <= k < BlockCount :: r.fs.bitmap[k] ==> fs.bitmap[k]
    ensures var ino := fs.descriptors[fd].inode;
      var rw := fs.descriptors[fd].rw;
      && (r.status == -1 || r.status == len)
      && (forall n | 0 <= n < TableLength && n != ino :: r.fs.inodes[n] == fs.inodes[n])
      && (r.status == len ==>
            && r.fs.descriptors == fs.descriptors[fd := Descriptor(ino, rw + len)]
            && r.fs.inodes[ino].size == Max(fs.inodes[ino].size, rw + len)
            && (Synced(fs) ==> Synced(r.fs)))
      && (r.status == -1 ==>
            && r.fs.descriptors == fs.descriptors
            && r.fs.inodes[ino].size == fs.inodes[ino].size
            && r.fs.device.inodeRegion == fs.device.inodeRegion
            && r.fs.device.bitmapRegion == fs.device.bitmapRegion
            && forall k | 0 <= k < BlockCount :: !r.fs.bitmap[k])
  {
    var rw := fs.descriptors[fd].rw;
    BeforeAdvances(rw, len, FirstBlock(rw));
    SpansCoverRange(rw, len);
    Conclude(fs, fd, WriteFrom(Start(fs, fs.descriptors[fd].inode, scratch), buf, rw, len, FirstBlock(rw)), rw + len)
  }

  /** After the loop: a failed allocation returns at once, a complete loop
      commits with the cursor at `cursor`. */
  function Conclude(fs: FileSystem, fd: int, o: Outcome, cursor: int): (r: Step)
    requires Valid(fs) && 0 <= fd < MaxOpenFiles && IsOpen(fs, fd) && Shaped(o.p) && 0 <= cursor
    requires o.p.node.size == fs.inodes[fs.descriptors[fd].inode].size
    requires o.p.device.inodeRegion == fs.device.inodeRegion
    requires o.p.device.directoryRegion == fs.device.directoryRegion
    requires o.p.device.bitmapRegion == fs.device.bitmapRegion
    ensures Valid(r.fs)
    ensures o.OutOfSpace? ==> r == Abandon(fs, fs.descriptors[fd].inode, o.p)
    ensures o.Finished? ==> r == Commit(fs, fd, o.p, cursor)
  {
    match o
    case OutOfSpace(q) => Abandon(fs, fs.descriptors[fd].inode, q)
    case Finished(q) => Commit(fs, fd, q, cursor)
  }

  /** The loop's state before its first pass: nothing written, the file's
      inode, and the local index array not yet loaded.  Its initial contents
      are never observed: every path that reads it loads it from the index
      block first. */
  function Start(fs: FileSystem, ino: int, scratch: Block): (p: Progress)
    requires Valid(fs) && 0 <= ino < TableLength && IsBlock(scratch)
    ensures Shaped(p) && p.written == 0 && !p.indexTouched
    ensures p.bitmap == fs.bitmap && p.node == fs.inodes[ino] && p.device == fs.device
  {
    Progress(fs.bitmap, fs.inodes[ino], fs.device, scratch, EmptyIndex(), false, 0)
  }

  /** A write of an open file is the loop followed by a commit or an abandon. */
  lemma WriteIsLoop(fs: FileSystem, fd: int, buf: seq<byte>, length: int, scratch: Block)
    requires Valid(fs) && 0 <= fd < MaxOpenFiles && 0 <= length <= |buf| && IsBlock(scratch)
    requires IsOpen(fs, fd) && WriteDefined(fs.descriptors[fd].rw, length)
    requires fs.descriptors[fd].rw + length <= MaxFileSize
    ensures var rw := fs.descriptors[fd].rw;
      Write(fs, fd, buf, length, scratch)
        == Conclude(fs, fd, WriteFrom(Start(fs, fs.descriptors[fd].inode, scratch), buf, rw, length, FirstBlock(rw)), rw + length)
  {
    assert Truncate(fs.descriptors[fd].rw, length) == length;
    assert Write(fs, fd, buf, length, scratch) == WriteOpen(fs, fd, buf, length, scratch);
  }

  /** Lines 281-284, 300-303 and 325-328: a failed allocation returns -1 at
      once; the blocks and pointers claimed so far stay in memory, while the
      cursor, the size and the table regions stay as they were. */
  function Abandon(fs: FileSystem, ino: int, q: Progress): (r: Step)
    requires Valid(fs) && 0 <= ino < TableLength && Shaped(q)
    requires q.node.size == fs.inodes[ino].size
    requires q.device.directoryRegion == fs.device.directoryRegion
    requires q.device.inodeRegion == fs.device.inodeRegion && q.device.bitmapRegion == fs.device.bitmapRegion
    ensures Valid(r.fs) && r.status == -1
    ensures r.fs.directory == fs.directory && r.fs.nextName == fs.nextName && r.fs.descriptors == fs.descriptors
    ensures r.fs.bitmap == q.bitmap && r.fs.inodes[ino] == q.node
    ensures forall n | 0 <= n < TableLength && n != ino :: r.fs.inodes[n] == fs.inodes[n]
    ensures r.fs.device.inodeRegion == fs.device.inodeRegion && r.fs.device.bitmapRegion == fs.device.bitmapRegion
  {
    Step(fs.(bitmap := q.bitmap, inodes := fs.inodes[ino := q.node], device := q.device), -1)
  }

  /** Lines 343-362 after a complete loop: the index array goes back to the
      index block if an indirect block was visited, the cursor moves to
      `cursor`, the size grows to it, and the bitmap and inode table are
      flushed; the status is the number of bytes written. */
  function Commit(fs: FileSystem, fd: int, q: Progress, cursor: int): (r: Step)
    requires Valid(fs) && 0 <= fd < MaxOpenFiles && IsOpen(fs, fd) && Shaped(q) && 0 <= cursor
    requires q.node.size == fs.inodes[fs.descriptors[fd].inode].size
    requires q.device.directoryRegion == fs.device.directoryRegion
    ensures Valid(r.fs) && r.status == q.written
    ensures r.fs.directory == fs.directory && r.fs.nextName == fs.nextName && r.fs.bitmap == q.bitmap
    ensures r.fs.descriptors == fs.descriptors[fd := Descriptor(fs.descriptors[fd].inode, cursor)]
    ensures forall n | 0 <= n < TableLength && n != fs.descriptors[fd].inode :: r.fs.inodes[n] == fs.inodes[n]
    ensures r.fs.inodes[fs.descriptors[fd].inode].size == Max(q.node.size, cursor)
    ensures r.fs.inodes[fs.descriptors[fd].inode].direct == q.node.direct
    ensures r.fs.inodes[fs.descriptors[fd].inode].indirect == q.node.indirect
    ensures !q.indexTouched ==> r.fs.device.blocks == q.device.blocks
    ensures q.indexTouched && IsBlockIndex(q.node.indirect) ==> r.fs.device.blocks[q.node.indirect] == Encode(q.index)
    ensures forall b | 0 <= b < BlockCount && b != q.node.indirect :: r.fs.device.blocks[b] == q.device.blocks[b]
    ensures Synced(fs) ==> Synced(r.fs)
  {
    EncodeIndexIsBlock(q.index);
    var device := if q.indexTouched then WriteBlock(q.device, q.node.indirect, Encode(q.index)) else q.device;
    var node := if cursor > q.node.size then q.node.(size := cursor) else q.node;
    var inodes := fs.inodes[fs.descriptors[fd].inode := node];
    Step(FileSystem(
        q.bitmap,
        inodes,
        fs.directory,
        fs.descriptors[fd := fs.descriptors[fd].(rw := cursor)],
        fs.nextName,
        device.(bitmapRegion := q.bitmap, inodeRegion := inodes)),
      q.written)
  }

  /** Two consecutive indirect blocks of one call whose slots `s` and `s + 1`
      are both empty on the device: the second visit reloads the index
      block, which never received the first allocation, so slot `s` reads
      -1 again although its block has been claimed from the bitmap. */
  lemma WriteSlotLosesEarlierSlot(p: Progress, s: int, chunk1: seq<byte>, chunk2: seq<byte>)
    requires Shaped(p) && 0 <= s && s + 1 < IndirectPointers
    requires IsBlockIndex(p.node.indirect) && !p.bitmap[p.node.indirect]
    requires Decode(p.device.blocks[p.node.indirect])[s] == Unallocated
    requires |chunk1| <= BlockSize && |chunk2| <= BlockSize
    ensures var o1 := WriteSlot(p, DirectPointers + s, 0, chunk1);
      o1.Finished? ==>
        && o1.p.index[s] != Unallocated
        && !o1.p.bitmap[o1.p.index[s]] && p.bitmap[o1.p.index[s]]
        && WriteSlot(o1.p, DirectPointers + s + 1, 0, chunk2).p.index[s] == Unallocated
  {
    var o1 := WriteSlot(p, DirectPointers + s, 0, chunk1);
    if o1.Finished? {
      assert o1.p.device.blocks[p.node.indirect] == p.device.blocks[p.node.indirect];
    }
  }

  /** The evidently intended slot step: the index array is the one in
      memory, so every other slot keeps what earlier blocks put there. */
  function WriteSlotKept(p: Progress, i: int, offset: int, chunk: seq<byte>): (o: Outcome)
    requires Shaped(p) && DirectPointers <= i < DirectPointers + IndirectPointers
    requires 0 <= offset && offset + |chunk| <= BlockSize
    ensures Shaped(o.p) && Extends(p, o.p)
    ensures o.p.node == p.node
    ensures forall k | 0 <= k < IndirectPointers && k != i - DirectPointers :: o.p.index[k] == p.index[k]
    ensures p.index[i - DirectPointers] != Unallocated ==> o.p.index == p.index
    ensures o.OutOfSpace? ==> forall k | 0 <= k < BlockCount :: !o.p.bitmap[k]
    ensures o.Finished? ==> o.p.written == p.written + |chunk| && o.p.index[i - DirectPointers] != Unallocated
  {
    var slot := i - DirectPointers;
    if p.index[slot] == Unallocated then
      var a := Allocate(p.bitmap);
      if a.block < 0 then OutOfSpace(p)
      else Finished(CopyInto(p.(bitmap := a.bitmap, index := p.index[slot := a.block]), a.block, offset, chunk))
    else Finished(CopyInto(p, p.index[slot], offset, chunk))
  }

  /** The evidently intended preparation of the index array: allocate and
      clear a missing index block, or load an existing one, but only on the
      first indirect block of the call; afterwards the array in memory is
      kept.  `None` when the index block cannot be allocated. */
  function PrepareIndex(p: Progress): (q: Option<Progress>)
    requires Shaped(p)
    ensures q.Some? ==> Shaped(q.value) && Extends(p, q.value) && q.value.indexTouched
    ensures q.Some? ==> q.value.written == p.written && q.value.node.indirect != Unallocated
    ensures q.Some? && p.indexTouched ==> q.value.index == p.index
    ensures q.None? ==> forall k | 0 <= k < BlockCount :: !p.bitmap[k]
  {
    if p.node.indirect == Unallocated then
      match NewIndexBlock(p)
      case None => None
      case Some(q) => Some(q.(index := if p.indexTouched then p.index else q.index, indexTouched := true))
    else if p.indexTouched then Some(p)
    else
      var t := ReadBlock(p.device, p.node.indirect, p.temp);
      Some(p.(temp := t, index := Decode(t), indexTouched := true))
  }

  /** The evidently intended indirect step: prepare the index array, then
      fill the slot in memory. */
  function WriteIndirectKept(p: Progress, i: int, offset: int, chunk: seq<byte>): (o: Outcome)
    requires Shaped(p) && DirectPointers <= i < DirectPointers + IndirectPointers
    requires 0 <= offset && offset + |chunk| <= BlockSize
    ensures Shaped(o.p) && Extends(p, o.p) && o.p.indexTouched
    ensures p.indexTouched ==> forall k | 0 <= k < IndirectPointers && k != i - DirectPointers :: o.p.index[k] == p.index[k]
    ensures o.OutOfSpace? ==> forall k | 0 <= k < BlockCount :: !o.p.bitmap[k]
    ensures o.Finished? ==> o.p.written == p.written + |chunk| && o.p.index[i - DirectPointers] != Unallocated
  {
    match PrepareIndex(p)
    case None => OutOfSpace(p.(indexTouched := true))
    case Some(q) => WriteSlotKept(q, i, offset, chunk)
  }

  /** With the corrected step, a slot filled on one indirect block of a call
      is still filled after the next one. */
  lemma KeptSlotSurvivesNextBlock(p: Progress, s: int, chunk1: seq<byte>, chunk2: seq<byte>)
    requires Shaped(p) && 0 <= s && s + 1 < IndirectPointers
    requires |chunk1| <= BlockSize && |chunk2| <= BlockSize
    ensures var o1 := WriteIndirectKept(p, DirectPointers + s, 0, chunk1);
      o1.Finished? ==>
        && o1.p.index[s] != Unallocated
        && WriteIndirectKept(o1.p, DirectPointers + s + 1, 0, chunk2).p.index[s] == o1.p.index[s]
  {
  }
}

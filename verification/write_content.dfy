/** What `sfs_fwrite` leaves on the device, and reading it back with
    `sfs_fread`, for writes that stay within the twelve direct blocks. */
module WriteContent {
  import opened Layout
  import opened Records
  import opened BlockDevice
  import opened State
  import opened Extent
  import IndexBlock
  import Write
  import Read
  import Seek

  /** Every direct pointer of `node` that is set names a device block the
      bitmap marks used, and no two of them name the same block. */
  predicate DirectSound(bitmap: seq<bool>, node: Inode)
    requires |bitmap| == BlockCount && |node.direct| == DirectPointers
  {
    && (forall k | 0 <= k < DirectPointers && node.direct[k] != Unallocated ::
          IsBlockIndex(node.direct[k]) && !bitmap[node.direct[k]])
    && (forall j, k | 0 <= j < k < DirectPointers && node.direct[j] != Unallocated ::
          node.direct[j] != node.direct[k])
  }

  /** The first `n` bytes of `buf` are on the device at file positions
      `rw .. rw + n - 1`, through the direct pointers of `node`. */
  predicate Stored(d: Device, node: Inode, buf: seq<byte>, rw: int, n: int)
    requires WellFormed(d) && |node.direct| == DirectPointers
    requires 0 <= rw && 0 <= n <= |buf| && rw + n <= DirectPointers * BlockSize
  {
    forall k | 0 <= k < n :: StoredAt(d, node, buf, rw, k)
  }

  /** Byte `k` of `buf` is on the device at file position `rw + k`. */
  predicate StoredAt(d: Device, node: Inode, buf: seq<byte>, rw: int, k: int)
    requires WellFormed(d) && |node.direct| == DirectPointers
    requires 0 <= rw && 0 <= k < |buf| && rw + k < DirectPointers * BlockSize
  {
    && IsBlockIndex(node.direct[(rw + k) / BlockSize])
    && d.blocks[node.direct[(rw + k) / BlockSize]][(rw + k) % BlockSize] == buf[k]
  }

  /** A stored byte stays stored when its block and its pointer stay, and
      only block `ptr`, which is not its block, changes. */
  lemma StoredAtFrame(d: Device, node: Inode, d': Device, node': Inode, buf: seq<byte>, rw: int, k: int, ptr: int)
    requires WellFormed(d) && |node.direct| == DirectPointers && WellFormed(d') && |node'.direct| == DirectPointers
    requires 0 <= rw && 0 <= k < |buf| && rw + k < DirectPointers * BlockSize
    requires StoredAt(d, node, buf, rw, k)
    requires node'.direct[(rw + k) / BlockSize] == node.direct[(rw + k) / BlockSize] != ptr
    requires forall b | 0 <= b < BlockCount && b != ptr :: d'.blocks[b] == d.blocks[b]
    ensures StoredAt(d', node', buf, rw, k)
  {
  }

  /** Two adjacent stored stretches make one. */
  lemma StoredJoin(d: Device, node: Inode, buf: seq<byte>, rw: int, a: int, n: int)
    requires WellFormed(d) && |node.direct| == DirectPointers
    requires 0 <= rw && 0 <= a <= n <= |buf| && rw + n <= DirectPointers * BlockSize
    requires forall k | 0 <= k < a :: StoredAt(d, node, buf, rw, k)
    requires forall k | a <= k < n :: StoredAt(d, node, buf, rw, k)
    ensures Stored(d, node, buf, rw, n)
  {
  }

  /** The block the step over direct block `i` writes is no other direct
      block of the file, and the direct pointers stay sound. */
  lemma DirectStepSound(p: Write.Progress, i: int, offset: int, chunk: seq<byte>)
    requires Write.Shaped(p) && 0 <= i < DirectPointers && 0 <= offset && offset + |chunk| <= BlockSize
    requires DirectSound(p.bitmap, p.node)
    ensures var o := Write.WriteDirect(p, i, offset, chunk);
      o.Finished? ==>
        && IsBlockIndex(o.p.node.direct[i])
        && (forall j | 0 <= j < DirectPointers && j != i && p.node.direct[j] != Unallocated ::
              p.node.direct[j] != o.p.node.direct[i])
        && DirectSound(o.p.bitmap, o.p.node)
  {
    var o := Write.WriteDirect(p, i, offset, chunk);
    if o.Finished? {
      var ptr := o.p.node.direct[i];
      forall j | 0 <= j < DirectPointers && j != i && p.node.direct[j] != Unallocated
        ensures p.node.direct[j] != ptr
      {
        if p.node.direct[i] == Unallocated {
          assert p.bitmap[ptr] && !p.bitmap[p.node.direct[j]];
        } else if j < i {
          assert p.node.direct[j] != p.node.direct[i];
        } else {
          assert p.node.direct[i] != p.node.direct[j];
        }
      }
    }
  }

  /** The bytes stored before block `i`'s window stay stored when their
      pointers stay and only block `ptr`, none of theirs, changes. */
  lemma StepKeepsEarlier(d: Device, node: Inode, d': Device, node': Inode, buf: seq<byte>, rw: int, len: int, i: int, ptr: int)
    requires WellFormed(d) && |node.direct| == DirectPointers && WellFormed(d') && |node'.direct| == DirectPointers
    requires 0 <= rw && 0 <= len <= |buf| && LastBlock(rw, len) < DirectPointers
    requires FirstBlock(rw) <= i <= LastBlock(rw, len)
    requires Stored(d, node, buf, rw, Before(rw, len, i))
    requires forall j | 0 <= j < DirectPointers && j != i :: node'.direct[j] == node.direct[j]
    requires forall j | 0 <= j < DirectPointers && j != i && node.direct[j] != Unallocated :: node.direct[j] != ptr
    requires forall b | 0 <= b < BlockCount && b != ptr :: d'.blocks[b] == d.blocks[b]
    ensures forall k | 0 <= k < Before(rw, len, i) :: StoredAt(d', node', buf, rw, k)
  {
    forall k | 0 <= k < Before(rw, len, i)
      ensures StoredAt(d', node', buf, rw, k)
    {
      BeforeInEarlierBlocks(rw, len, i, k);
      assert StoredAt(d, node, buf, rw, k);
      StoredAtFrame(d, node, d', node', buf, rw, k, ptr);
    }
  }

  /** The window of block `i`, cut from `buf` and copied into the block
      direct pointer `i` names, stores its part of `buf`. */
  lemma StepStoresWindow(d: Device, node: Inode, buf: seq<byte>, rw: int, len: int, i: int, chunk: seq<byte>)
    requires WellFormed(d) && |node.direct| == DirectPointers
    requires 0 <= rw && 0 <= len <= |buf| && LastBlock(rw, len) < DirectPointers
    requires FirstBlock(rw) <= i <= LastBlock(rw, len)
    requires IsBlockIndex(node.direct[i])
    requires 0 <= Before(rw, len, i) && Before(rw, len, i) + Span(rw, len, i) <= len
    requires chunk == buf[Before(rw, len, i)..Before(rw, len, i) + Span(rw, len, i)]
    requires forall k | 0 <= k < |chunk| :: d.blocks[node.direct[i]][Offset(rw, len, i) + k] == chunk[k]
    ensures forall k | Before(rw, len, i) <= k < Before(rw, len, i) + Span(rw, len, i) :: StoredAt(d, node, buf, rw, k)
  {
    forall k | Before(rw, len, i) <= k < Before(rw, len, i) + Span(rw, len, i)
      ensures StoredAt(d, node, buf, rw, k)
    {
      var m := k - Before(rw, len, i);
      WindowPosition(rw, len, i, m);
      assert d.blocks[node.direct[i]][Offset(rw, len, i) + m] == chunk[m] == buf[k];
    }
  }

  /** After a step that copies `chunk` into the block direct pointer `i`
      names, a block no other direct pointer names, the range up to the end
      of block `i`'s window is stored. */
  lemma StepStored(d: Device, node: Inode, d': Device, node': Inode, buf: seq<byte>, rw: int, len: int, i: int, chunk: seq<byte>)
    requires WellFormed(d) && |node.direct| == DirectPointers && WellFormed(d') && |node'.direct| == DirectPointers
    requires 0 <= rw && 0 <= len <= |buf| && LastBlock(rw, len) < DirectPointers
    requires FirstBlock(rw) <= i <= LastBlock(rw, len)
    requires 0 <= Before(rw, len, i) && Before(rw, len, i) + Span(rw, len, i) <= len
    requires Stored(d, node, buf, rw, Before(rw, len, i))
    requires IsBlockIndex(node'.direct[i])
    requires forall j | 0 <= j < DirectPointers && j != i :: node'.direct[j] == node.direct[j]
    requires forall j | 0 <= j < DirectPointers && j != i && node.direct[j] != Unallocated :: node.direct[j] != node'.direct[i]
    requires forall b | 0 <= b < BlockCount && b != node'.direct[i] :: d'.blocks[b] == d.blocks[b]
    requires chunk == buf[Before(rw, len, i)..Before(rw, len, i) + Span(rw, len, i)]
    requires forall k | 0 <= k < |chunk| :: d'.blocks[node'.direct[i]][Offset(rw, len, i) + k] == chunk[k]
    ensures Stored(d', node', buf, rw, Before(rw, len, i) + Span(rw, len, i))
  {
    StepKeepsEarlier(d, node, d', node', buf, rw, len, i, node'.direct[i]);
    StepStoresWindow(d', node', buf, rw, len, i, chunk);
    StoredJoin(d', node', buf, rw, Before(rw, len, i), Before(rw, len, i) + Span(rw, len, i));
  }

  /** Lines 277-293 on block `i` with its window `chunk` of `buf`. */
  lemma DirectWriteStores(p: Write.Progress, buf: seq<byte>, rw: int, len: int, i: int, chunk: seq<byte>)
    requires Write.Shaped(p) && 0 <= rw && 0 <= len <= |buf| && LastBlock(rw, len) < DirectPointers
    requires FirstBlock(rw) <= i <= LastBlock(rw, len)
    requires 0 <= Before(rw, len, i) && Before(rw, len, i) + Span(rw, len, i) <= len
    requires 0 <= Offset(rw, len, i) && Offset(rw, len, i) + Span(rw, len, i) <= BlockSize
    requires chunk == buf[Before(rw, len, i)..Before(rw, len, i) + Span(rw, len, i)]
    requires DirectSound(p.bitmap, p.node) && Stored(p.device, p.node, buf, rw, Before(rw, len, i))
    ensures var o := Write.WriteDirect(p, i, Offset(rw, len, i), chunk);
      o.Finished? ==>
        && DirectSound(o.p.bitmap, o.p.node)
        && Stored(o.p.device, o.p.node, buf, rw, Before(rw, len, i) + Span(rw, len, i))
  {
    var o := Write.WriteDirect(p, i, Offset(rw, len, i), chunk);
    DirectStepSound(p, i, Offset(rw, len, i), chunk);
    if o.Finished? {
      StepStored(p.device, p.node, o.p.device, o.p.node, buf, rw, len, i, chunk);
    }
  }

  /** One direct block of the loop of lines 271-341: the bytes stored so far
      stay where they are, the block's window receives its part of `buf`,
      and the direct pointers stay sound. */
  lemma DirectStepStores(p: Write.Progress, buf: seq<byte>, rw: int, len: int, i: int)
    requires Write.Shaped(p) && 0 <= rw && 0 <= len <= |buf| && rw + len < MaxFileSize
    requires FirstBlock(rw) <= i <= LastBlock(rw, len) && LastBlock(rw, len) < DirectPointers
    requires p.written == Before(rw, len, i)
    requires DirectSound(p.bitmap, p.node) && Stored(p.device, p.node, buf, rw, Before(rw, len, i))
    ensures var o := Write.BlockStep(p, buf, rw, len, i);
      o.Finished? ==>
        && DirectSound(o.p.bitmap, o.p.node)
        && Stored(o.p.device, o.p.node, buf, rw, Before(rw, len, i) + Span(rw, len, i))
        && o.p.indexTouched == p.indexTouched
  {
    Write.BlockStepIsDirect(p, buf, rw, len, i);
    DirectChunkStores(p, buf, rw, len, i);
  }

  /** `DirectWriteStores` with the window cut at `amt_written`. */
  lemma DirectChunkStores(p: Write.Progress, buf: seq<byte>, rw: int, len: int, i: int)
    requires Write.Shaped(p) && 0 <= rw && 0 <= len <= |buf| && rw + len < MaxFileSize
    requires FirstBlock(rw) <= i <= LastBlock(rw, len) && LastBlock(rw, len) < DirectPointers
    requires p.written == Before(rw, len, i)
    requires DirectSound(p.bitmap, p.node) && Stored(p.device, p.node, buf, rw, Before(rw, len, i))
    ensures (WindowInBlock(rw, len, i); BeforeAdvances(rw, len, i);
      var o := Write.WriteDirect(p, i, Offset(rw, len, i), buf[p.written..p.written + Span(rw, len, i)]);
      o.Finished? ==>
        && DirectSound(o.p.bitmap, o.p.node)
        && Stored(o.p.device, o.p.node, buf, rw, Before(rw, len, i) + Span(rw, len, i))
        && o.p.indexTouched == p.indexTouched)
  {
    WindowInBlock(rw, len, i);
    BeforeAdvances(rw, len, i);
    DirectWriteStores(p, buf, rw, len, i, buf[p.written..p.written + Span(rw, len, i)]);
  }


  /** The loop of lines 271-341 from block `i` on, for a range inside the
      direct blocks: a finished loop leaves the whole range on the device and
      never touches the index array. */
  lemma {:induction false} WriteFromStores(p: Write.Progress, buf: seq<byte>, rw: int, len: int, i: int)
    requires Write.Shaped(p) && 0 <= rw && 0 <= len <= |buf| && rw + len < MaxFileSize
    requires LastBlock(rw, len) < DirectPointers
    requires FirstBlock(rw) <= i <= LastBlock(rw, len) + 1
    requires i <= LastBlock(rw, len) ==> p.written == Before(rw, len, i)
    requires DirectSound(p.bitmap, p.node)
    requires Stored(p.device, p.node, buf, rw, if i <= LastBlock(rw, len) then Before(rw, len, i) else len)
    decreases LastBlock(rw, len) + 1 - i
    ensures var o := Write.WriteFrom(p, buf, rw, len, i);
      o.Finished? ==>
        && DirectSound(o.p.bitmap, o.p.node)
        && Stored(o.p.device, o.p.node, buf, rw, len)
        && o.p.indexTouched == p.indexTouched
  {
    if i <= LastBlock(rw, len) {
      BeforeAdvances(rw, len, i);
      var o1 := Write.BlockStep(p, buf, rw, len, i);
      DirectStepStores(p, buf, rw, len, i);
      if o1.Finished? {
        assert Write.WriteFrom(p, buf, rw, len, i) == Write.WriteFrom(o1.p, buf, rw, len, i + 1);
        WriteFromStores(o1.p, buf, rw, len, i + 1);
      }
    }
  }

  /** A stored byte is what the read path finds at its position, on any
      device with the same blocks and any inode with the same pointers. */
  lemma StoredResolves(d: Device, node: Inode, d': Device, node': Inode, buf: seq<byte>, rw: int, k: int)
    requires WellFormed(d) && |node.direct| == DirectPointers && WellFormed(d') && |node'.direct| == DirectPointers
    requires 0 <= rw && 0 <= k < |buf| && rw + k < DirectPointers * BlockSize
    requires StoredAt(d, node, buf, rw, k)
    requires d'.blocks == d.blocks && node'.direct == node.direct
    ensures Read.Resolves(d', node', rw + k) && Read.ByteAt(d', node', rw + k) == buf[k]
  {
    assert DataBlock(d', node', (rw + k) / BlockSize) == node.direct[(rw + k) / BlockSize];
  }

  /** A write of `length` bytes on descriptor `fd` that stays inside the
      direct blocks of a file whose direct pointers are sound. */
  predicate DirectWrite(fs: FileSystem, fd: int, buf: seq<byte>, length: int, scratch: Block) {
    && Valid(fs) && 0 <= fd < MaxOpenFiles && 0 <= length <= |buf| && IsBlock(scratch)
    && IsOpen(fs, fd) && 0 <= fs.descriptors[fd].rw
    && fs.descriptors[fd].rw + length < DirectPointers * BlockSize
    && DirectSound(fs.bitmap, fs.inodes[fs.descriptors[fd].inode])
  }

  /** What the loop leaves behind that the commit after it needs: the
      file's size and the table regions as they were. */
  predicate Committable(fs: FileSystem, ino: int, o: Write.Outcome)
    requires Valid(fs) && 0 <= ino < TableLength
  {
    && Write.Shaped(o.p)
    && o.p.node.size == fs.inodes[ino].size
    && o.p.device.inodeRegion == fs.device.inodeRegion
    && o.p.device.directoryRegion == fs.device.directoryRegion
    && o.p.device.bitmapRegion == fs.device.bitmapRegion
  }

  /** Lines 343-362: committing a loop that stored a range and never
      touched the index array leaves the range readable from the file. */
  lemma CommitStores(fs: FileSystem, fd: int, buf: seq<byte>, length: int, scratch: Block, o: Write.Outcome)
    requires DirectWrite(fs, fd, buf, length, scratch) && Committable(fs, fs.descriptors[fd].inode, o)
    requires o.Finished? ==> !o.p.indexTouched && Stored(o.p.device, o.p.node, buf, fs.descriptors[fd].rw, length)
    ensures var rw := fs.descriptors[fd].rw;
      var r := Write.Conclude(fs, fd, o, rw + length);
      var node := r.fs.inodes[fs.descriptors[fd].inode];
      r.status == length ==>
        forall p | rw <= p < rw + length ::
          && Read.Resolves(r.fs.device, node, p)
          && Read.ByteAt(r.fs.device, node, p) == buf[p - rw]
  {
    var rw := fs.descriptors[fd].rw;
    if o.Finished? {
      var r := Write.Commit(fs, fd, o.p, rw + length);
      var node := r.fs.inodes[fs.descriptors[fd].inode];
      forall p | rw <= p < rw + length
        ensures Read.Resolves(r.fs.device, node, p)
        ensures Read.ByteAt(r.fs.device, node, p) == buf[p - rw]
      {
        assert StoredAt(o.p.device, o.p.node, buf, rw, p - rw);
        StoredResolves(o.p.device, o.p.node, r.fs.device, node, buf, rw, p - rw);
      }
    }
  }


  /** The whole loop of lines 271-341 over a range inside the direct blocks,
      from the state the write starts in. */
  lemma LoopStores(fs: FileSystem, fd: int, buf: seq<byte>, length: int, scratch: Block) returns (o: Write.Outcome)
    requires DirectWrite(fs, fd, buf, length, scratch)
    ensures o == Write.WriteFrom(Write.Start(fs, fs.descriptors[fd].inode, scratch), buf, fs.descriptors[fd].rw, length, FirstBlock(fs.descriptors[fd].rw))
    ensures Committable(fs, fs.descriptors[fd].inode, o)
    ensures o.Finished? ==> !o.p.indexTouched && Stored(o.p.device, o.p.node, buf, fs.descriptors[fd].rw, length)
  {
    var rw := fs.descriptors[fd].rw;
    var start := Write.Start(fs, fs.descriptors[fd].inode, scratch);
    BeforeAdvances(rw, length, FirstBlock(rw));
    WriteFromStores(start, buf, rw, length, FirstBlock(rw));
    o := Write.WriteFrom(start, buf, rw, length, FirstBlock(rw));
  }


  /** The loop and the commit after it, for a range inside the direct
      blocks: a write that returns `length` leaves the range readable. */
  lemma ConcludeStores(fs: FileSystem, fd: int, buf: seq<byte>, length: int, scratch: Block)
    requires DirectWrite(fs, fd, buf, length, scratch)
    ensures var rw := fs.descriptors[fd].rw;
      var o := Write.WriteFrom(Write.Start(fs, fs.descriptors[fd].inode, scratch), buf, rw, length, FirstBlock(rw));
      var r := Write.Conclude(fs, fd, o, rw + length);
      var node := r.fs.inodes[fs.descriptors[fd].inode];
      r.status == length ==>
        forall p | rw <= p < rw + length ::
          && Read.Resolves(r.fs.device, node, p)
          && Read.ByteAt(r.fs.device, node, p) == buf[p - rw]
  {
    var o := LoopStores(fs, fd, buf, length, scratch);
    CommitStores(fs, fd, buf, length, scratch, o);
  }


  /** Lines 246-363 for a write that ends within the direct blocks of a file
      whose direct pointers are sound: when it returns `length`, every byte of
      `buf` is on the device at its position in the file. */
  lemma WriteStoresBytes(fs: FileSystem, fd: int, buf: seq<byte>, length: int, scratch: Block)
    requires Valid(fs) && 0 <= fd < MaxOpenFiles && 0 <= length <= |buf| && IsBlock(scratch)
    requires IsOpen(fs, fd) && 0 <= fs.descriptors[fd].rw
    requires fs.descriptors[fd].rw + length < DirectPointers * BlockSize
    requires DirectSound(fs.bitmap, fs.inodes[fs.descriptors[fd].inode])
    ensures var r := Write.Write(fs, fd, buf, length, scratch);
      var node := r.fs.inodes[fs.descriptors[fd].inode];
      r.status == length ==>
        var rw := fs.descriptors[fd].rw;
        forall p | rw <= p < rw + length ::
          && Read.Resolves(r.fs.device, node, p)
          && Read.ByteAt(r.fs.device, node, p) == buf[p - rw]
  {
    ConcludeStores(fs, fd, buf, length, scratch);
    Write.WriteIsLoop(fs, fd, buf, length, scratch);
  }

  /** Write `length` bytes, seek back to where the write started, and read
      `length` bytes: the read returns what was written.  The seek is the
      corrected one, which clamps against the descriptor's own file. */
  lemma WriteSeekReadRoundTrip(fs: FileSystem, fd: int, buf: seq<byte>, length: int, scratch: Block, scratch2: Block)
    requires Valid(fs) && 0 <= fd < MaxOpenFiles && 0 <= length <= |buf| && IsBlock(scratch) && IsBlock(scratch2)
    requires IsOpen(fs, fd) && 0 <= fs.descriptors[fd].rw
    requires fs.descriptors[fd].rw + length < DirectPointers * BlockSize
    requires DirectSound(fs.bitmap, fs.inodes[fs.descriptors[fd].inode])
    ensures var w := Write.Write(fs, fd, buf, length, scratch);
      w.status == length ==>
        var s := Seek.SeekOwnFile(w.fs, fd, fs.descriptors[fd].rw);
        var r := Read.Read(s.fs, fd, length, scratch2);
        r.status == length && r.data == buf[..length]
  {
    WriteStoresBytes(fs, fd, buf, length, scratch);
  }
}

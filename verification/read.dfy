/** `sfs_fread`. */
module Read {
  import opened Layout
  import opened Records
  import opened BlockDevice
  import opened IndexBlock
  import opened State
  import opened Extent

  /** The result of `sfs_fread`: the new state, the status and the bytes
      copied into the caller's buffer. */
  datatype ReadStep = ReadStep(fs: FileSystem, status: int, data: seq<byte>)

  /** Does byte `p` of the file resolve to a block of the device? */
  predicate Resolves(d: Device, node: Inode, p: int)
    requires WellFormed(d) && |node.direct| == DirectPointers && 0 <= p < MaxFileSize
  {
    IsBlockIndex(DataBlock(d, node, p / BlockSize))
  }

  /** Byte `p` of the file as the device holds it. */
  function ByteAt(d: Device, node: Inode, p: int): byte
    requires WellFormed(d) && |node.direct| == DirectPointers && 0 <= p < MaxFileSize
    requires Resolves(d, node, p)
  {
    d.blocks[DataBlock(d, node, p / BlockSize)][p % BlockSize]
  }

  /** Line 378: when the request runs past the file's size, the length becomes
      the size itself, not the `size - rw` bytes that are left. */
  function ReadLength(rw: int, length: int, size: int): (len: int)
    ensures rw + length > size ==> len == size
    ensures rw + length <= size ==> len == length
  {
    if rw + length > size then size else length
  }

  /** A read is free of undefined behaviour when the cursor is not negative,
      the sum `rw_pointer + length` of line 378 does not overflow a C `int`,
      and the clamped range ends before block 268, whose indirect slot 256 is
      past the end of the 256-entry index array. */
  predicate ReadDefined(rw: int, length: int, size: int) {
    && 0 <= rw
    && IsInt32(rw + length)
    && 0 <= ReadLength(rw, length, size)
    && rw + ReadLength(rw, length, size) < MaxFileSize
  }

  /** The block the loop of lines 387-411 holds in `temp` when it visits
      block `i`: the direct block, or the block named by slot `i - 12` of the
      index block.  Each failed `read_blocks` keeps the previous contents. */
  function LoadBlock(d: Device, node: Inode, i: int, temp: Block): (t: Block)
    requires WellFormed(d) && |node.direct| == DirectPointers && IsBlock(temp)
    requires 0 <= i < DirectPointers + IndirectPointers
    ensures IsBlock(t)
    ensures IsBlockIndex(DataBlock(d, node, i)) ==> t == d.blocks[DataBlock(d, node, i)]
  {
    if i < DirectPointers then ReadBlock(d, node.direct[i], temp)
    else
      var t1 := ReadBlock(d, node.indirect, temp);
      var index := Decode(t1);
      ReadBlock(d, index[i - DirectPointers], t1)
  }

  /** Lines 387-411 from block `i` on: the windows of the visited blocks,
      concatenated.  `temp` is the scratch buffer. */
  function ReadFrom(d: Device, node: Inode, rw: int, len: int, i: int, temp: Block): (data: seq<byte>)
    requires WellFormed(d) && |node.direct| == DirectPointers && IsBlock(temp)
    requires 0 <= rw && 0 <= len && rw + len < MaxFileSize
    requires FirstBlock(rw) <= i <= LastBlock(rw, len) + 1
    decreases LastBlock(rw, len) + 1 - i
    ensures |data| == SpanTotal(rw, len, i)
  {
    if i > LastBlock(rw, len) then []
    else
      WindowInBlock(rw, len, i);
      var t := LoadBlock(d, node, i, temp);
      t[Offset(rw, len, i)..End(rw, len, i)] + ReadFrom(d, node, rw, len, i + 1, t)
  }

  /** Byte `k` gathered from block `i` on, when its position resolves on the
      device, is the file's byte at that position. */
  lemma {:induction false} ReadFromByte(d: Device, node: Inode, rw: int, len: int, i: int, temp: Block, k: int)
    requires WellFormed(d) && |node.direct| == DirectPointers && IsBlock(temp)
    requires 0 <= rw && 0 <= len && rw + len < MaxFileSize
    requires FirstBlock(rw) <= i <= LastBlock(rw, len)
    requires 0 <= k < len - Before(rw, len, i)
    requires Resolves(d, node, rw + Before(rw, len, i) + k)
    decreases LastBlock(rw, len) + 1 - i
    ensures (SpanTotalFrom(rw, len, i);
      && k < |ReadFrom(d, node, rw, len, i, temp)|
      && ReadFrom(d, node, rw, len, i, temp)[k] == ByteAt(d, node, rw + Before(rw, len, i) + k))
  {
    WindowInBlock(rw, len, i);
    BeforeAdvances(rw, len, i);
    SpanTotalFrom(rw, len, i);
    var t := LoadBlock(d, node, i, temp);
    var window := t[Offset(rw, len, i)..End(rw, len, i)];
    var rest := ReadFrom(d, node, rw, len, i + 1, t);
    assert ReadFrom(d, node, rw, len, i, temp) == window + rest;
    if k < |window| {
      WindowPosition(rw, len, i, k);
    } else {
      ReadFromByte(d, node, rw, len, i + 1, t, k - |window|);
      assert rw + Before(rw, len, i + 1) + (k - |window|) == rw + Before(rw, len, i) + k;
    }
  }

  /** Every byte gathered from block `i` on that resolves on the device is the
      file's byte at the matching position. */
  lemma ReadFromContent(d: Device, node: Inode, rw: int, len: int, i: int, temp: Block)
    requires WellFormed(d) && |node.direct| == DirectPointers && IsBlock(temp)
    requires 0 <= rw && 0 <= len && rw + len < MaxFileSize
    requires FirstBlock(rw) <= i <= LastBlock(rw, len)
    ensures Before(rw, len, i) + |ReadFrom(d, node, rw, len, i, temp)| == len
    ensures forall k | 0 <= k < |ReadFrom(d, node, rw, len, i, temp)| && Resolves(d, node, rw + Before(rw, len, i) + k) ::
      ReadFrom(d, node, rw, len, i, temp)[k] == ByteAt(d, node, rw + Before(rw, len, i) + k)
  {
    SpanTotalFrom(rw, len, i);
    forall k | 0 <= k < |ReadFrom(d, node, rw, len, i, temp)| && Resolves(d, node, rw + Before(rw, len, i) + k)
      ensures ReadFrom(d, node, rw, len, i, temp)[k] == ByteAt(d, node, rw + Before(rw, len, i) + k)
    {
      ReadFromByte(d, node, rw, len, i, temp, k);
    }
  }

  /** Lines 365-419.  `scratch` is the uninitialised block `malloc` returns. */
  function Read(fs: FileSystem, fd: int, length: int, scratch: Block): (r: ReadStep)
    requires Valid(fs) && 0 <= fd < MaxOpenFiles && IsBlock(scratch)
    requires IsOpen(fs, fd) ==>
      ReadDefined(fs.descriptors[fd].rw, length, fs.inodes[fs.descriptors[fd].inode].size)
    ensures Valid(r.fs)
    ensures !IsOpen(fs, fd) ==> r == ReadStep(fs, -1, [])
    ensures IsOpen(fs, fd) ==>
      var ino := fs.descriptors[fd].inode;
      var rw := fs.descriptors[fd].rw;
      var len := ReadLength(rw, length, fs.inodes[ino].size);
      && r.status == len
      && r.fs == fs.(descriptors := fs.descriptors[fd := Descriptor(ino, rw + len)])
      && |r.data| == len
      && forall k | 0 <= k < len && Resolves(fs.device, fs.inodes[ino], rw + k) ::
           r.data[k] == ByteAt(fs.device, fs.inodes[ino], rw + k)
  {
    if fs.descriptors[fd].inode == Unallocated then ReadStep(fs, -1, [])
    else
      var rw := fs.descriptors[fd].rw;
      ReadOpen(fs, fd, ReadLength(rw, length, fs.inodes[fs.descriptors[fd].inode].size), scratch)
  }

  /** Lines 381-419: the read on an open file, `len` bytes after the clamp. */
  function ReadOpen(fs: FileSystem, fd: int, len: int, scratch: Block): (r: ReadStep)
    requires Valid(fs) && 0 <= fd < MaxOpenFiles && IsOpen(fs, fd) && IsBlock(scratch)
    requires 0 <= fs.descriptors[fd].rw && 0 <= len && fs.descriptors[fd].rw + len < MaxFileSize
    ensures Valid(r.fs)
    ensures var ino := fs.descriptors[fd].inode;
      var rw := fs.descriptors[fd].rw;
      && r.status == len
      && r.fs == fs.(descriptors := fs.descriptors[fd := Descriptor(ino, rw + len)])
      && |r.data| == len
      && forall k | 0 <= k < len && Resolves(fs.device, fs.inodes[ino], rw + k) ::
           r.data[k] == ByteAt(fs.device, fs.inodes[ino], rw + k)
  {
    var node := fs.inodes[fs.descriptors[fd].inode];
    var rw := fs.descriptors[fd].rw;
    SpansCoverRange(rw, len);
    BeforeAdvances(rw, len, FirstBlock(rw));
    var data := ReadFrom(fs.device, node, rw, len, FirstBlock(rw), scratch);
    ReadFromContent(fs.device, node, rw, len, FirstBlock(rw), scratch);
    MoveCursorKeepsValid(fs, fd, rw + len);
    ReadStep(fs.(descriptors := fs.descriptors[fd := fs.descriptors[fd].(rw := rw + len)]), |data|, data)
  }

  /** As written, a read that starts inside the file and asks for more than
      is left gets `size` bytes, ending `rw` bytes past the end of the file. */
  lemma ReadCanRunPastEnd(rw: int, length: int, size: int)
    requires 0 < rw <= size && rw + length > size
    ensures rw + ReadLength(rw, length, size) == size + rw > size
  {
  }

  /** The clamp evidently intended: a read stops at the end of the file, so
      a request running past it gets the `size - rw` bytes that are left. */
  function ReadLengthToEnd(rw: int, length: int, size: int): (len: int)
    requires 0 <= rw <= size && 0 <= length
    ensures 0 <= len <= length && rw + len <= size
    ensures rw + length <= size ==> len == length
    ensures rw + length > size ==> rw + len == size
  {
    if rw + length > size then size - rw else length
  }

  /** From the start of a file the two clamps agree. */
  lemma ClampsAgreeAtStart(length: int, size: int)
    requires 0 <= size && 0 <= length
    ensures ReadLength(0, length, size) == ReadLengthToEnd(0, length, size)
  {
  }

  /** On the whole state: a read from cursor `rw > 0` that asks for more than
      is left moves the cursor past the end of the file. */
  lemma ReadMovesCursorPastEnd(fs: FileSystem, fd: int, length: int, scratch: Block)
    requires Valid(fs) && 0 <= fd < MaxOpenFiles && IsBlock(scratch) && IsOpen(fs, fd)
    requires ReadDefined(fs.descriptors[fd].rw, length, fs.inodes[fs.descriptors[fd].inode].size)
    requires var rw := fs.descriptors[fd].rw;
      0 < rw <= fs.inodes[fs.descriptors[fd].inode].size < rw + length
    ensures var r := Read(fs, fd, length, scratch);
      r.fs.descriptors[fd].rw > fs.inodes[fs.descriptors[fd].inode].size
  {
  }
}

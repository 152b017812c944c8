/** `sfs_fseek`, as written and as evidently intended. */
module Seek {
  import opened Layout
  import opened Records
  import opened State

  /** Lines 421-438.  The clamp of line 431 reads `inode_table[fileID]`: the
      inode whose number equals the descriptor index, not the inode the
      descriptor is bound to. */
  function Seek(fs: FileSystem, fd: int, offset: int): (r: Step)
    requires Valid(fs) && 0 <= fd < MaxOpenFiles
    ensures Valid(r.fs)
    ensures !IsOpen(fs, fd) ==> r == Step(fs, -1)
    ensures IsOpen(fs, fd) ==>
      && r.status == 0
      && var rw := r.fs.descriptors[fd].rw;
      && r.fs == fs.(descriptors := fs.descriptors[fd := Descriptor(fs.descriptors[fd].inode, rw)])
      && (offset < 0 ==> rw == 0)
      && (offset >= 0 ==> rw <= offset && rw <= fs.inodes[fd].size && (rw == offset || rw == fs.inodes[fd].size))
  {
    if fs.descriptors[fd].inode == Unallocated then Step(fs, -1)
    else
      var rw := if offset >= 0 then (if offset > fs.inodes[fd].size then fs.inodes[fd].size else offset) else 0;
      Step(fs.(descriptors := fs.descriptors[fd := fs.descriptors[fd].(rw := rw)]), 0)
  }

  /** As written, seeking on descriptor `fd` when inode slot `fd` is free
      leaves the cursor at -1, before the start of the file. */
  lemma SeekCanLeaveCursorNegative(fs: FileSystem, fd: int, offset: int)
    requires Valid(fs) && 0 <= fd < MaxOpenFiles && IsOpen(fs, fd)
    requires fs.inodes[fd].size == Unallocated && offset >= 0
    ensures Seek(fs, fd, offset).fs.descriptors[fd].rw == -1
  {
  }

  /** As written, a seek within the descriptor's own file can be cut short by
      the size of an unrelated file. */
  lemma SeekClampsAgainstOtherFile(fs: FileSystem, fd: int, offset: int)
    requires Valid(fs) && 0 <= fd < MaxOpenFiles && IsOpen(fs, fd)
    requires 0 <= offset && fs.inodes[fd].size < offset <= fs.inodes[fs.descriptors[fd].inode].size
    ensures Seek(fs, fd, offset).fs.descriptors[fd].rw < offset
  {
  }

  /** The seek the comments of lines 428-430 describe: clamp against the
      descriptor's own inode. */
  function SeekOwnFile(fs: FileSystem, fd: int, offset: int): (r: Step)
    requires Valid(fs) && 0 <= fd < MaxOpenFiles
    ensures Valid(r.fs)
    ensures !IsOpen(fs, fd) ==> r == Step(fs, -1)
    ensures IsOpen(fs, fd) ==>
      var size := fs.inodes[fs.descriptors[fd].inode].size;
      var rw := r.fs.descriptors[fd].rw;
      && r.status == 0
      && 0 <= rw <= size
      && (0 <= offset <= size ==> rw == offset)
      && (offset < 0 ==> rw == 0)
      && (offset > size ==> rw == size)
      && r.fs == fs.(descriptors := fs.descriptors[fd := Descriptor(fs.descriptors[fd].inode, rw)])
  {
    if fs.descriptors[fd].inode == Unallocated then Step(fs, -1)
    else
      var size := fs.inodes[fs.descriptors[fd].inode].size;
      var rw := if offset >= 0 then (if offset > size then size else offset) else 0;
      Step(fs.(descriptors := fs.descriptors[fd := fs.descriptors[fd].(rw := rw)]), 0)
  }

  /** The two agree whenever descriptor `fd` happens to be bound to inode `fd`. */
  lemma SeekAgreesWhenIndicesCoincide(fs: FileSystem, fd: int, offset: int)
    requires Valid(fs) && 0 <= fd < MaxOpenFiles
    requires fs.descriptors[fd].inode == fd
    ensures Seek(fs, fd, offset) == SeekOwnFile(fs, fd, offset)
  {
  }
}

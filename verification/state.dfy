/** The whole in-memory state of the file system (the C globals) together
    with the device, and the invariants every operation relies on. */
module State {
  import opened Layout
  import opened Records
  import opened BlockDevice
  import opened IndexBlock

  /** `free_bitmap_array`, `inode_table`, `directory_table`,
      `file_descriptor_table`, `current_directory_filename`, and the device. */
  datatype FileSystem = FileSystem(
    bitmap: seq<bool>,
    inodes: seq<Inode>,
    directory: seq<DirEntry>,
    descriptors: seq<Descriptor>,
    nextName: int,
    device: Device)

  /** The result of an operation that returns a C `int` status. */
  datatype Step = Step(fs: FileSystem, status: int)

  /** An inode number as stored in a directory entry or descriptor: -1 or a table slot. */
  predicate IsInodeRef(n: int) {
    n == Unallocated || 0 <= n < TableLength
  }

  predicate TablesShaped(fs: FileSystem) {
    && |fs.bitmap| == BlockCount
    && |fs.inodes| == TableLength
    && (forall n | 0 <= n < |fs.inodes| :: |fs.inodes[n].direct| == DirectPointers)
    && |fs.directory| == TableLength
    && |fs.descriptors| == MaxOpenFiles
  }

  /** Every bound directory entry names an allocated inode (size >= 0). */
  predicate DirectoryBound(fs: FileSystem)
    requires TablesShaped(fs)
  {
    forall i | 0 <= i < |fs.directory| ::
      IsInodeRef(fs.directory[i].inode)
      && (fs.directory[i].inode != Unallocated ==> fs.inodes[fs.directory[i].inode].size >= 0)
  }

  /** Every bound descriptor names an allocated inode; a free one is (-1, -1). */
  predicate DescriptorsBound(fs: FileSystem)
    requires TablesShaped(fs)
  {
    forall j | 0 <= j < |fs.descriptors| ::
      IsInodeRef(fs.descriptors[j].inode)
      && (fs.descriptors[j].inode != Unallocated ==> fs.inodes[fs.descriptors[j].inode].size >= 0)
      && (fs.descriptors[j].inode == Unallocated ==> fs.descriptors[j].rw == Unallocated)
  }

  /** The facts that keep every C array access of the operations in bounds. */
  predicate Valid(fs: FileSystem) {
    && TablesShaped(fs)
    && DirectoryBound(fs)
    && DescriptorsBound(fs)
    && 0 <= fs.nextName
    && WellFormed(fs.device)
  }

  /** The table regions on the device hold the in-memory tables (write-through). */
  predicate Synced(fs: FileSystem) {
    && fs.device.inodeRegion == fs.inodes
    && fs.device.directoryRegion == fs.directory
    && fs.device.bitmapRegion == fs.bitmap
  }

  /** The physical block that holds logical block `i` of a file, as far as the
      pointers resolve: a direct pointer, or slot `i - 12` of the index block
      the indirect pointer designates; -1 when the indirect pointer designates
      no block of the device. */
  function DataBlock(d: Device, node: Inode, i: int): int
    requires WellFormed(d) && |node.direct| == DirectPointers
    requires 0 <= i < DirectPointers + IndirectPointers
  {
    if i < DirectPointers then node.direct[i]
    else if IsBlockIndex(node.indirect) then Decode(d.blocks[node.indirect])[i - DirectPointers]
    else Unallocated
  }

  /** Is descriptor `j` bound? */
  predicate IsOpen(fs: FileSystem, j: int)
    requires TablesShaped(fs) && 0 <= j < MaxOpenFiles
  {
    fs.descriptors[j].inode != Unallocated
  }

  /** Moving the cursor of a bound descriptor keeps the state valid. */
  lemma MoveCursorKeepsValid(fs: FileSystem, fd: int, rw: int)
    requires Valid(fs) && 0 <= fd < MaxOpenFiles && IsOpen(fs, fd)
    ensures Valid(fs.(descriptors := fs.descriptors[fd := fs.descriptors[fd].(rw := rw)]))
  {
  }
}

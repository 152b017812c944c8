/** `mksfs`: formatting a fresh volume (fresh != 0) and mounting an existing
    one (fresh == 0). */
module Format {
  import opened Layout
  import opened Records
  import opened BlockDevice
  import opened State

  /** Lines 93-99: the initial flag of bitmap entry `i` (`true` = free).  The
      last condition starts at 4096 - 16 - 1, so 17 tail blocks are reserved. */
  function InitialFlag(i: int): bool {
    var flag := true;
    var flag := if i == 0 then false else flag;
    var flag := if 1 <= i <= InodeBlocks then false else flag;
    var flag := if InodeBlocks + 1 <= i <= InodeBlocks + DirectoryBlocks then false else flag;
    if i >= BlockCount - FreeBitmapBlocks - 1 then false else flag
  }

  /** The file system right after `mksfs(1)`.  `blank` is the device as
      `init_fresh_disk` leaves it; formatting does not touch its data blocks. */
  function Format(blank: Device): (fs: FileSystem)
    requires WellFormed(blank)
    ensures Valid(fs) && Synced(fs)
    ensures forall k | 0 <= k < BlockCount :: fs.bitmap[k] <==> 11 <= k < 4079
    ensures fs.directory[0] == DirEntry(true, 0, "") && fs.inodes[0].size == 0
    ensures forall n | 0 <= n < TableLength ::
      && (forall p | 0 <= p < DirectPointers :: fs.inodes[n].direct[p] == Unallocated)
      && fs.inodes[n].indirect == Unallocated
    ensures forall n | 1 <= n < TableLength :: fs.inodes[n].size == Unallocated
    ensures forall i | 1 <= i < TableLength :: !fs.directory[i].used && fs.directory[i].inode == Unallocated && fs.directory[i].name == ""
    ensures forall j | 0 <= j < MaxOpenFiles :: fs.descriptors[j] == Descriptor(-1, -1)
    ensures fs.nextName == 0
    ensures fs.device.blocks == blank.blocks
  {
    var bitmap := seq(BlockCount, InitialFlag);
    var free := FreeInode();
    var inodes := seq(TableLength, n => if n == 0 then free.(size := 0) else free);
    var directory := seq(TableLength, i => if i == 0 then DirEntry(true, 0, "") else DirEntry(false, Unallocated, ""));
    var descriptors := seq(MaxOpenFiles, _ => ClosedDescriptor());
    var device := blank.(inodeRegion := inodes, directoryRegion := directory, bitmapRegion := bitmap);
    FileSystem(bitmap, inodes, directory, descriptors, 0, device)
  }

  /** Lines 139-149: reload the three tables from their regions and restart
      enumeration.  The descriptor table is not touched: it keeps whatever the
      process held in memory. */
  function Mount(fs: FileSystem): (fs': FileSystem)
    ensures Synced(fs')
    ensures fs'.nextName == 0
    ensures fs'.descriptors == fs.descriptors && fs'.device == fs.device
    ensures fs'.inodes == fs.device.inodeRegion && fs'.directory == fs.device.directoryRegion
    ensures fs'.bitmap == fs.device.bitmapRegion
  {
    fs.(
      inodes := fs.device.inodeRegion,
      directory := fs.device.directoryRegion,
      bitmap := fs.device.bitmapRegion,
      nextName := 0)
  }

  /** `mksfs(formatNew)`. */
  function MakeFs(fs: FileSystem, formatNew: bool, blank: Device): (fs': FileSystem)
    requires WellFormed(blank)
    ensures formatNew ==> fs' == Format(blank)
    ensures !formatNew ==> fs' == Mount(fs)
  {
    if formatNew then Format(blank) else Mount(fs)
  }

  /** Remounting a write-through state changes nothing but the enumeration
      cursor: every table it reloads is the one in memory. */
  lemma MountRestoresSynced(fs: FileSystem)
    requires Synced(fs)
    ensures Mount(fs) == fs.(nextName := 0)
  {
  }

  /** A freshly formatted volume mounts back to itself. */
  lemma MountAfterFormat(blank: Device)
    requires WellFormed(blank)
    ensures Mount(Format(blank)) == Format(blank)
  {
    MountRestoresSynced(Format(blank));
  }

  /** Mounting a valid, write-through state yields a valid state. */
  lemma MountKeepsValid(fs: FileSystem)
    requires Valid(fs) && Synced(fs)
    ensures Valid(Mount(fs))
  {
    MountRestoresSynced(fs);
  }
}

/** `sfs_fopen` and `sfs_fclose`. */
module OpenClose {
  import opened Layout
  import opened Records
  import opened BlockDevice
  import opened State
  import opened Search

  function Named(name: string): DirEntry -> bool {
    (e: DirEntry) => e.name == name
  }

  function BoundTo(ino: int): Descriptor -> bool {
    (d: Descriptor) => d.inode == ino
  }

  function FreeEntry(): DirEntry -> bool {
    (e: DirEntry) => e.inode == Unallocated
  }

  function FreeInodeSlot(): Inode -> bool {
    (node: Inode) => node.size == Unallocated
  }

  predicate HasDescriptorFor(fs: FileSystem, ino: int) {
    exists j | 0 <= j < |fs.descriptors| :: fs.descriptors[j].inode == ino
  }

  predicate HasFreeDescriptor(fs: FileSystem) {
    HasDescriptorFor(fs, Unallocated)
  }

  /** An entry at which the scan of lines 161-180 stops: it carries the name
      and either its inode already has a descriptor or some descriptor is free. */
  function OpensAt(fs: FileSystem, name: string): DirEntry -> bool {
    (e: DirEntry) => e.name == name && (HasDescriptorFor(fs, e.inode) || HasFreeDescriptor(fs))
  }

  /** The directory slot `sfs_fopen(name)` returns through, or -1 when it goes
      on to create a new file. */
  function OpenTarget(fs: FileSystem, name: string): int {
    First(fs.directory, OpensAt(fs, name))
  }

  /** With a descriptor free, an entry carrying the name but bound to no inode
      would make line 167 read `inode_table[-1]`; the first entry carrying the
      name must then be bound. */
  predicate OpenDefined(fs: FileSystem, name: string)
    requires TablesShaped(fs)
  {
    HasFreeDescriptor(fs) ==>
      var m := First(fs.directory, Named(name));
      m == -1 || fs.directory[m].inode != Unallocated
  }

  predicate IsFirstFreeEntry(fs: FileSystem, d: int)
    requires TablesShaped(fs)
  {
    && 0 <= d < TableLength
    && fs.directory[d].inode == Unallocated
    && forall k | 0 <= k < d :: fs.directory[k].inode != Unallocated
  }

  predicate IsFirstFreeInode(fs: FileSystem, n: int)
    requires TablesShaped(fs)
  {
    && 0 <= n < TableLength
    && fs.inodes[n].size == Unallocated
    && forall k | 0 <= k < n :: fs.inodes[k].size != Unallocated
  }

  predicate IsFirstFreeDescriptor(fs: FileSystem, f: int)
    requires TablesShaped(fs)
  {
    && 0 <= f < MaxOpenFiles
    && fs.descriptors[f].inode == Unallocated
    && forall k | 0 <= k < f :: fs.descriptors[k].inode != Unallocated
  }

  /** `r` is the outcome of attaching a descriptor to inode `ino`: the lowest
      descriptor already bound to it, or else the lowest free one, now bound to
      `ino` with its cursor at the inode's size (append position). */
  ghost predicate Attaches(fs: FileSystem, ino: int, r: Step)
    requires TablesShaped(fs) && 0 <= ino < TableLength
  {
    && 0 <= r.status < MaxOpenFiles
    && (HasDescriptorFor(fs, ino) ==>
          fs.descriptors[r.status].inode == ino
          && forall k | 0 <= k < r.status :: fs.descriptors[k].inode != ino)
    && (!HasDescriptorFor(fs, ino) ==> IsFirstFreeDescriptor(fs, r.status))
    && r.fs == fs.(descriptors := fs.descriptors[r.status := Descriptor(ino, fs.inodes[ino].size)])
  }

  /** `r` is the outcome of creating `name` in free directory slot `d` with
      free inode `n` (lines 213-231). */
  ghost predicate Creates(fs: FileSystem, name: string, d: int, n: int, r: Step)
    requires TablesShaped(fs) && 0 <= d < TableLength && 0 <= n < TableLength
  {
    var inodes := fs.inodes[n := fs.inodes[n].(size := 0)];
    var directory := fs.directory[d := DirEntry(true, n, name)];
    var created := fs.(
      inodes := inodes,
      directory := directory,
      device := fs.device.(inodeRegion := inodes, directoryRegion := directory));
    && (HasFreeDescriptor(fs) ==> forall f | IsFirstFreeDescriptor(fs, f) ::
          r == Step(created.(descriptors := fs.descriptors[f := Descriptor(n, 0)]), f))
    && (!HasFreeDescriptor(fs) ==> r == Step(created, -1))
  }

  /** Lines 182-231: create a file called `name`.  When the file is created
      but no descriptor is free, the new entry and inode stay and -1 is returned. */
  function Create(fs: FileSystem, name: string): (r: Step)
    requires Valid(fs)
    ensures (forall i | 0 <= i < TableLength :: fs.directory[i].inode != Unallocated) ==> r == Step(fs, -1)
    ensures && (exists i | 0 <= i < TableLength :: fs.directory[i].inode == Unallocated)
            && (forall n | 0 <= n < TableLength :: fs.inodes[n].size != Unallocated)
            ==> r == Step(fs, -1)
    ensures forall d, n | IsFirstFreeEntry(fs, d) && IsFirstFreeInode(fs, n) :: Creates(fs, name, d, n, r)
    ensures Valid(r.fs)
  {
    var d := First(fs.directory, FreeEntry());
    if d == -1 then Step(fs, -1)
    else
      var n := First(fs.inodes, FreeInodeSlot());
      if n == -1 then Step(fs, -1)
      else
        var inodes := fs.inodes[n := fs.inodes[n].(size := 0)];
        var directory := fs.directory[d := DirEntry(true, n, name)];
        var created := fs.(
          inodes := inodes,
          directory := directory,
          device := fs.device.(inodeRegion := inodes, directoryRegion := directory));
        var f := First(fs.descriptors, BoundTo(Unallocated));
        if f == -1 then Step(created, -1)
        else Step(created.(descriptors := fs.descriptors[f := Descriptor(n, 0)]), f)
  }

  /** The directory scan of lines 161-180 from slot `i` on. */
  function OpenFrom(fs: FileSystem, name: string, i: nat): (r: Step)
    requires Valid(fs) && i <= TableLength
    requires HasFreeDescriptor(fs) ==>
      var m := FirstFrom(fs.directory, Named(name), i);
      m == -1 || fs.directory[m].inode != Unallocated
    decreases TableLength - i
    ensures var t := FirstFrom(fs.directory, OpensAt(fs, name), i);
      && (t == -1 ==> r == Create(fs, name))
      && (t != -1 ==> 0 <= fs.directory[t].inode && Attaches(fs, fs.directory[t].inode, r))
  {
    if i == |fs.directory| then Create(fs, name)
    else if fs.directory[i].name != name then OpenFrom(fs, name, i + 1)
    else
      var ino := fs.directory[i].inode;
      var j := First(fs.descriptors, BoundTo(ino));
      if j != -1 then
        Step(fs.(descriptors := fs.descriptors[j := fs.descriptors[j].(rw := fs.inodes[ino].size)]), j)
      else
        var f := First(fs.descriptors, BoundTo(Unallocated));
        if f != -1 then
          Step(fs.(descriptors := fs.descriptors[f := Descriptor(ino, fs.inodes[ino].size)]), f)
        else OpenFrom(fs, name, i + 1)
  }

  /** `sfs_fopen(name)`. */
  function Open(fs: FileSystem, name: string): (r: Step)
    requires Valid(fs) && OpenDefined(fs, name)
    ensures |name| >= MaxFileName ==> r == Step(fs, -1)
    ensures |name| < MaxFileName && OpenTarget(fs, name) == -1 ==> r == Create(fs, name)
    ensures |name| < MaxFileName && OpenTarget(fs, name) != -1 ==>
      var ino := fs.directory[OpenTarget(fs, name)].inode;
      0 <= ino && Attaches(fs, ino, r)
    ensures Valid(r.fs)
  {
    if |name| >= MaxFileName then Step(fs, -1)
    else OpenFrom(fs, name, 0)
  }

  /** `sfs_fclose(fileID)`. */
  function Close(fs: FileSystem, fd: int): (r: Step)
    requires Valid(fs) && 0 <= fd < MaxOpenFiles
    ensures !IsOpen(fs, fd) ==> r == Step(fs, -1)
    ensures IsOpen(fs, fd) ==> r == Step(fs.(descriptors := fs.descriptors[fd := ClosedDescriptor()]), 0)
    ensures Valid(r.fs)
  {
    if fs.descriptors[fd].inode == Unallocated then Step(fs, -1)
    else Step(fs.(descriptors := fs.descriptors[fd := Descriptor(Unallocated, Unallocated)]), 0)
  }

  /** Reopening an open file (lines 164-169): the first entry carrying the name
      is bound to `ino`, and `j` is the lowest descriptor bound to `ino`.  The
      same descriptor comes back with its cursor moved to the file's size, and
      nothing else changes. */
  lemma ReopenReturnsSameDescriptor(fs: FileSystem, name: string, j: int)
    requires Valid(fs) && |name| < MaxFileName
    requires var m := First(fs.directory, Named(name));
      m != -1 && fs.directory[m].inode != Unallocated
    requires 0 <= j < MaxOpenFiles
    requires fs.descriptors[j].inode == fs.directory[First(fs.directory, Named(name))].inode
    requires forall k | 0 <= k < j :: fs.descriptors[k].inode != fs.descriptors[j].inode
    ensures OpenDefined(fs, name)
    ensures var ino := fs.descriptors[j].inode;
      Open(fs, name) == Step(fs.(descriptors := fs.descriptors[j := Descriptor(ino, fs.inodes[ino].size)]), j)
  {
    var m := First(fs.directory, Named(name));
    var ino := fs.directory[m].inode;
    assert HasDescriptorFor(fs, ino);
    assert OpensAt(fs, name)(fs.directory[m]);
    assert forall k | 0 <= k < m :: !OpensAt(fs, name)(fs.directory[k]) by {
      forall k | 0 <= k < m ensures !OpensAt(fs, name)(fs.directory[k]) {
        assert !Named(name)(fs.directory[k]);
      }
    }
    assert OpenTarget(fs, name) == m;
  }

  /** Duplicate entry when descriptors run out (lines 172-186): every entry
      carrying the name is bound to an inode without a descriptor and no
      descriptor is free, so the scan falls through and a second entry with the
      same name is created; -1 is returned although the tables changed. */
  lemma DuplicateEntryWhenNoDescriptorFree(fs: FileSystem, name: string, i: int, d: int, n: int)
    requires Valid(fs) && |name| < MaxFileName
    requires !HasFreeDescriptor(fs)
    requires forall k | 0 <= k < TableLength && fs.directory[k].name == name ::
      !HasDescriptorFor(fs, fs.directory[k].inode)
    requires 0 <= i < TableLength && fs.directory[i].name == name && fs.directory[i].inode != Unallocated
    requires IsFirstFreeEntry(fs, d) && IsFirstFreeInode(fs, n)
    ensures OpenDefined(fs, name)
    ensures var r := Open(fs, name);
      && r.status == -1
      && d != i
      && r.fs.directory[d] == DirEntry(true, n, name)
      && r.fs.directory[i] == fs.directory[i]
      && r.fs.descriptors == fs.descriptors
  {
    assert forall k | 0 <= k < TableLength :: !OpensAt(fs, name)(fs.directory[k]);
    assert OpenTarget(fs, name) == -1;
    var r := Open(fs, name);
    assert r == Create(fs, name);
    assert Creates(fs, name, d, n, r);
  }

  /** A successful `sfs_fopen` binds the descriptor it returns and leaves
      every other descriptor as it was. */
  lemma OpenBindsOneDescriptor(fs: FileSystem, name: string)
    requires Valid(fs) && OpenDefined(fs, name)
    requires Open(fs, name).status != -1
    ensures var r := Open(fs, name);
      && 0 <= r.status < MaxOpenFiles
      && r.fs.descriptors[r.status].inode != Unallocated
      && forall k | 0 <= k < MaxOpenFiles && k != r.status :: r.fs.descriptors[k] == fs.descriptors[k]
  {
    var r := Open(fs, name);
    if !(|name| < MaxFileName && OpenTarget(fs, name) != -1) {
      var d := First(fs.directory, FreeEntry());
      var n := First(fs.inodes, FreeInodeSlot());
      assert IsFirstFreeEntry(fs, d) && IsFirstFreeInode(fs, n);
      assert Creates(fs, name, d, n, r);
      var f := First(fs.descriptors, BoundTo(Unallocated));
      assert IsFirstFreeDescriptor(fs, f);
    }
  }

  /** Closing the descriptor that `sfs_fopen` has just bound to a file with no
      other descriptor gives back the descriptor table opening started from. */
  lemma CloseUndoesOpen(fs: FileSystem, name: string)
    requires Valid(fs) && OpenDefined(fs, name)
    requires Open(fs, name).status != -1
    requires fs.descriptors[Open(fs, name).status].inode == Unallocated
    ensures Close(Open(fs, name).fs, Open(fs, name).status).fs.descriptors == fs.descriptors
  {
    var r := Open(fs, name);
    OpenBindsOneDescriptor(fs, name);
    assert fs.descriptors[r.status] == ClosedDescriptor();
    assert Close(r.fs, r.status).fs.descriptors == r.fs.descriptors[r.status := ClosedDescriptor()];
  }
}

/** The three record types held in the file system's tables. */
module Records {
  import opened Layout

  /** `inode`: size in bytes (-1 marks a free inode), 12 direct block pointers
      and one indirect pointer, each -1 when no block is attached. */
  datatype Inode = Inode(size: int, direct: seq<int>, indirect: int)

  /** `directoryEntry`: the `used` flag (written, never consulted), the bound
      inode (-1 when the slot is free) and the name without its terminator. */
  datatype DirEntry = DirEntry(used: bool, inode: int, name: string)

  /** `fileDescriptorEntry`: the bound inode (-1 when the slot is free) and the
      read/write cursor. */
  datatype Descriptor = Descriptor(inode: int, rw: int)

  /** The inode every slot holds after formatting, before slot 0 becomes the root. */
  function FreeInode(): (node: Inode)
    ensures node.size == Unallocated && node.indirect == Unallocated
    ensures |node.direct| == DirectPointers
    ensures forall p | 0 <= p < DirectPointers :: node.direct[p] == Unallocated
  {
    Inode(Unallocated, seq(DirectPointers, _ => Unallocated), Unallocated)
  }

  /** The state of a descriptor slot after format, close or remove: (-1, -1). */
  function ClosedDescriptor(): Descriptor {
    Descriptor(Unallocated, Unallocated)
  }
}

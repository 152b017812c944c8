/** The block device behind the file system.  Only `read_blocks` and
    `write_blocks` of single data or index blocks are modelled block by block;
    the three table regions (inode table, directory table, free bitmap) are
    kept as the typed tables last flushed to them. */
module BlockDevice {
  import opened Layout
  import opened Records

  datatype Device = Device(
    blocks: seq<Block>,
    inodeRegion: seq<Inode>,
    directoryRegion: seq<DirEntry>,
    bitmapRegion: seq<bool>)

  /** 4096 blocks of 1024 bytes each. */
  predicate WellFormed(d: Device) {
    && |d.blocks| == BlockCount
    && forall k | 0 <= k < |d.blocks| :: IsBlock(d.blocks[k])
  }

  /** `read_blocks(k, 1, buffer)`: the buffer receives block `k`; a read outside
      the device fails and leaves the buffer as it was. */
  function ReadBlock(d: Device, k: int, buffer: Block): (b: Block)
    requires WellFormed(d) && IsBlock(buffer)
    ensures IsBlock(b)
    ensures IsBlockIndex(k) ==> b == d.blocks[k]
    ensures !IsBlockIndex(k) ==> b == buffer
  {
    if 0 <= k < |d.blocks| then d.blocks[k] else buffer
  }

  /** `write_blocks(k, 1, b)`: block `k` receives `b`; a write outside the
      device fails and changes nothing. */
  function WriteBlock(d: Device, k: int, b: Block): (d': Device)
    requires WellFormed(d) && IsBlock(b)
    ensures WellFormed(d')
    ensures IsBlockIndex(k) ==> d'.blocks[k] == b
    ensures forall j | 0 <= j < |d.blocks| && j != k :: d'.blocks[j] == d.blocks[j]
    ensures !IsBlockIndex(k) ==> d' == d
    ensures d'.inodeRegion == d.inodeRegion && d'.directoryRegion == d.directoryRegion
    ensures d'.bitmapRegion == d.bitmapRegion
  {
    if 0 <= k < |d.blocks| then d.(blocks := d.blocks[k := b]) else d
  }

  /** Reading a block back returns what was last written to it. */
  lemma ReadAfterWrite(d: Device, k: int, b: Block, buffer: Block)
    requires WellFormed(d) && IsBlock(b) && IsBlock(buffer) && IsBlockIndex(k)
    ensures ReadBlock(WriteBlock(d, k, b), k, buffer) == b
  {
  }
}

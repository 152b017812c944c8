/** Fixed geometry of the simple file system (SFS): block size, table sizes and
    the block indices of the metadata regions.  Every C array of the original is
    a sequence of exactly one of these lengths in the model. */
module Layout {

  /** Bytes per block. */
  const BlockSize: int := 1024
  /** Blocks on the device. */
  const BlockCount: int := 4096
  /** Blocks occupied by the free-block bitmap region. */
  const FreeBitmapBlocks: int := 16
  /** (12 + 256) blocks of 1024 bytes. */
  const MaxFileSize: int := 274432
  /** Name buffer length: 15 characters plus the terminator. */
  const MaxFileName: int := 16
  /** Blocks occupied by the inode table region. */
  const InodeBlocks: int := 7
  /** Blocks occupied by the directory table region. */
  const DirectoryBlocks: int := 3
  /** Slots in both the inode table and the directory table. */
  const TableLength: int := 126
  /** Slots in the open-file descriptor table. */
  const MaxOpenFiles: int := 16
  /** Direct block pointers per inode. */
  const DirectPointers: int := 12
  /** Block pointers held by one indirect index block (BLOCK_SIZE / sizeof(int)). */
  const IndirectPointers: int := 256
  /** The sentinel for "no block", "no inode" and "unbound descriptor". */
  const Unallocated: int := -1

  /** First block of the inode table region (block 0 is the superblock). */
  const InodeRegionStart: int := 1
  /** First block of the directory table region. */
  const DirectoryRegionStart: int := InodeBlocks + 1
  /** First block of the free-bitmap region; the `- 1` makes it 4079, not 4080. */
  const BitmapRegionStart: int := BlockCount - FreeBitmapBlocks - 1

  /** A byte of a block or of a caller's buffer. */
  type byte = x: int | 0 <= x < 256

  /** The contents of one block; well-formed blocks hold exactly `BlockSize` bytes. */
  type Block = seq<byte>

  predicate IsBlock(b: Block) {
    |b| == BlockSize
  }

  /** A block index the device can read or write. */
  predicate IsBlockIndex(k: int) {
    0 <= k < BlockCount
  }

  /** The buffer produced by `memset(temp_block, 0, BLOCK_SIZE)`. */
  function ZeroBlock(): (b: Block)
    ensures IsBlock(b)
    ensures forall k | 0 <= k < |b| :: b[k] == 0
  {
    seq(BlockSize, _ => 0)
  }

  /** `memcpy(block + offset, chunk, |chunk|)`: overwrite a window of a block. */
  function Splice(b: Block, offset: int, chunk: seq<byte>): (r: Block)
    requires 0 <= offset && offset + |chunk| <= |b|
    ensures |r| == |b|
    ensures forall k | 0 <= k < |chunk| :: r[offset + k] == chunk[k]
    ensures forall k | 0 <= k < |b| && !(offset <= k < offset + |chunk|) :: r[k] == b[k]
  {
    b[..offset] + chunk + b[offset + |chunk|..]
  }

  function Max(a: int, b: int): int {
    if a < b then b else a
  }
}

/** The per-block arithmetic shared by `sfs_fwrite` and `sfs_fread`: a byte
    range `[rw, rw + len)` is visited block by block from `rw / 1024` to
    `(rw + len) / 1024` inclusive, block `i` contributing the window
    `[Offset(i), End(i))` of its bytes. */
module Extent {
  import opened Layout

  function FirstBlock(rw: int): int
    requires 0 <= rw
  {
    rw / BlockSize
  }

  /** The last block visited.  When `rw + len` is a multiple of 1024 this is the
      block just after the range, visited with an empty window. */
  function LastBlock(rw: int, len: int): (b: int)
    requires 0 <= rw && 0 <= len
    ensures FirstBlock(rw) <= b
  {
    (rw + len) / BlockSize
  }

  /** Lines 273 and 389: the window starts mid-block only in the first block. */
  function Offset(rw: int, len: int, i: int): int
    requires 0 <= rw && 0 <= len
  {
    if i == FirstBlock(rw) then rw % BlockSize else 0
  }

  /** Lines 274 and 390: the window ends mid-block only in the last block. */
  function End(rw: int, len: int, i: int): int
    requires 0 <= rw && 0 <= len
  {
    if i == LastBlock(rw, len) then (rw + len) % BlockSize else BlockSize
  }

  /** Lines 275 and 391: bytes transferred in block `i`. */
  function Span(rw: int, len: int, i: int): int
    requires 0 <= rw && 0 <= len
  {
    End(rw, len, i) - Offset(rw, len, i)
  }

  /** Each visited window lies inside its block. */
  lemma WindowInBlock(rw: int, len: int, i: int)
    requires 0 <= rw && 0 <= len
    requires FirstBlock(rw) <= i <= LastBlock(rw, len)
    ensures 0 <= Offset(rw, len, i) <= End(rw, len, i) <= BlockSize
  {
  }

  /** Bytes of the range that lie before the window of block `i`; equivalently
      the caller-buffer index where block `i`'s window starts. */
  function Before(rw: int, len: int, i: int): (b: int)
    requires 0 <= rw && 0 <= len
    ensures i == FirstBlock(rw) ==> b == 0
  {
    BlockSize * i + Offset(rw, len, i) - rw
  }

  /** The buffer position advances by exactly one window per block visited. */
  lemma BeforeAdvances(rw: int, len: int, i: int)
    requires 0 <= rw && 0 <= len
    requires FirstBlock(rw) <= i <= LastBlock(rw, len)
    ensures Before(rw, len, FirstBlock(rw)) == 0
    ensures 0 <= Before(rw, len, i)
    ensures i < LastBlock(rw, len) ==> Before(rw, len, i + 1) == Before(rw, len, i) + Span(rw, len, i)
    ensures Before(rw, len, i) + Span(rw, len, i) <= len
    ensures i == LastBlock(rw, len) ==> Before(rw, len, i) + Span(rw, len, i) == len
  {
  }

  /** The sum of the windows of blocks `i .. LastBlock`. */
  function SpanTotal(rw: int, len: int, i: int): int
    requires 0 <= rw && 0 <= len
    decreases LastBlock(rw, len) + 1 - i
  {
    if i > LastBlock(rw, len) then 0 else Span(rw, len, i) + SpanTotal(rw, len, i + 1)
  }

  /** From block `i` on, the windows add up to what is left of the range. */
  lemma {:induction false} SpanTotalFrom(rw: int, len: int, i: int)
    requires 0 <= rw && 0 <= len
    requires FirstBlock(rw) <= i <= LastBlock(rw, len) + 1
    decreases LastBlock(rw, len) + 1 - i
    ensures SpanTotal(rw, len, i) == if i > LastBlock(rw, len) then 0 else len - Before(rw, len, i)
  {
    if i <= LastBlock(rw, len) {
      SpanTotalFrom(rw, len, i + 1);
      BeforeAdvances(rw, len, i);
    }
  }

  /** The per-block byte counts over `FirstBlock .. LastBlock` add up to `len`. */
  lemma SpansCoverRange(rw: int, len: int)
    requires 0 <= rw && 0 <= len
    ensures SpanTotal(rw, len, FirstBlock(rw)) == len
  {
    SpanTotalFrom(rw, len, FirstBlock(rw));
    BeforeAdvances(rw, len, FirstBlock(rw));
  }

  /** Byte `rw + k` of the range lies in block `(rw + k) / 1024`, inside that
      block's window, at buffer position `k`. */
  lemma PositionInWindow(rw: int, len: int, k: int)
    requires 0 <= rw && 0 <= len && 0 <= k < len
    ensures var i := (rw + k) / BlockSize;
      && FirstBlock(rw) <= i <= LastBlock(rw, len)
      && Offset(rw, len, i) <= (rw + k) % BlockSize < End(rw, len, i)
      && Before(rw, len, i) + ((rw + k) % BlockSize - Offset(rw, len, i)) == k
  {
  }

  /** The bytes before block `i`'s window lie in earlier blocks. */
  lemma BeforeInEarlierBlocks(rw: int, len: int, i: int, k: int)
    requires 0 <= rw && 0 <= len
    requires FirstBlock(rw) <= i <= LastBlock(rw, len)
    requires 0 <= k < Before(rw, len, i)
    ensures (rw + k) / BlockSize < i
  {
  }

  /** Byte `k` of block `i`'s window is byte `Offset + k` of block `i`. */
  lemma WindowPosition(rw: int, len: int, i: int, k: int)
    requires 0 <= rw && 0 <= len
    requires FirstBlock(rw) <= i <= LastBlock(rw, len)
    requires 0 <= k < Span(rw, len, i)
    ensures (rw + Before(rw, len, i) + k) / BlockSize == i
    ensures (rw + Before(rw, len, i) + k) % BlockSize == Offset(rw, len, i) + k
  {
    WindowInBlock(rw, len, i);
    var p := rw + Before(rw, len, i) + k;
    assert p == BlockSize * i + (Offset(rw, len, i) + k);
  }
}

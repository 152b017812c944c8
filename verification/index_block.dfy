/** The indirect index block: 256 C `int` block pointers copied byte for byte
    into a 1024-byte block (`memcpy(temp_block, indirect_pointers_array, ...)`
    and back).  The model fixes the host layout as 32-bit little-endian two's
    complement. */
module IndexBlock {
  import opened Layout

  const Two31: int := 0x8000_0000
  const Two32: int := 0x1_0000_0000

  predicate IsInt32(x: int) {
    -Two31 <= x < Two31
  }

  predicate AllInt32(s: seq<int>) {
    forall k | 0 <= k < |s| :: IsInt32(s[k])
  }

  /** The four bytes of one `int`, least significant first. */
  function EncodeInt(x: int): (b: seq<byte>)
    requires IsInt32(x)
    ensures |b| == 4
  {
    var u := if x < 0 then x + Two32 else x;
    var q1 := u / 256;
    var q2 := q1 / 256;
    [u % 256, q1 % 256, q2 % 256, q2 / 256]
  }

  /** The `int` whose bytes, least significant first, are `b`. */
  function DecodeInt(b: seq<byte>): (x: int)
    requires |b| == 4
    ensures IsInt32(x)
  {
    var u: int := b[0] as int + 256 * (b[1] as int + 256 * (b[2] as int + 256 * b[3] as int));
    if u >= Two31 then u - Two32 else u
  }

  lemma DivMod256(n: int, q: int, r: int)
    requires n == 256 * q + r && 0 <= r < 256
    ensures n / 256 == q && n % 256 == r
  {
  }

  lemma DecodeEncodeInt(x: int)
    requires IsInt32(x)
    ensures DecodeInt(EncodeInt(x)) == x
  {
    var u := if x < 0 then x + Two32 else x;
    var q1 := u / 256;
    var q2 := q1 / 256;
    assert u == u % 256 + 256 * q1;
    assert q1 == q1 % 256 + 256 * q2;
    assert q2 == q2 % 256 + 256 * (q2 / 256);
  }

  lemma EncodeDecodeInt(b: seq<byte>)
    requires |b| == 4
    ensures EncodeInt(DecodeInt(b)) == b
  {
    var u: int := b[0] as int + 256 * (b[1] as int + 256 * (b[2] as int + 256 * b[3] as int));
    DivMod256(u, b[1] as int + 256 * (b[2] as int + 256 * b[3] as int), b[0]);
    DivMod256(b[1] as int + 256 * (b[2] as int + 256 * b[3] as int), b[2] as int + 256 * b[3] as int, b[1]);
    DivMod256(b[2] as int + 256 * b[3] as int, b[3], b[2]);
    DivMod256(b[3], 0, b[3]);
  }

  /** The bytes of an array of `int`s, in array order. */
  function Encode(ptrs: seq<int>): (b: seq<byte>)
    requires AllInt32(ptrs)
    ensures |b| == 4 * |ptrs|
  {
    if |ptrs| == 0 then [] else EncodeInt(ptrs[0]) + Encode(ptrs[1..])
  }

  /** The array of `int`s whose bytes are `b`. */
  function Decode(b: seq<byte>): (ptrs: seq<int>)
    requires |b| % 4 == 0
    ensures |ptrs| == |b| / 4
    ensures AllInt32(ptrs)
  {
    if |b| == 0 then [] else [DecodeInt(b[..4])] + Decode(b[4..])
  }

  /** Storing an index array and loading it back yields the same array. */
  lemma {:induction false} DecodeEncode(ptrs: seq<int>)
    requires AllInt32(ptrs)
    ensures Decode(Encode(ptrs)) == ptrs
  {
    if |ptrs| > 0 {
      var b := Encode(ptrs);
      assert b[..4] == EncodeInt(ptrs[0]);
      assert b[4..] == Encode(ptrs[1..]);
      DecodeEncodeInt(ptrs[0]);
      DecodeEncode(ptrs[1..]);
    }
  }

  /** Loading a block as an index array and storing it back rewrites the same bytes. */
  lemma {:induction false} EncodeDecode(b: seq<byte>)
    requires |b| % 4 == 0
    ensures Encode(Decode(b)) == b
  {
    if |b| > 0 {
      EncodeDecodeInt(b[..4]);
      EncodeDecode(b[4..]);
      assert b == b[..4] + b[4..];
    }
  }

  /** The index block written when the indirect pointer is first allocated
      (lines 308-314): every slot holds the sentinel. */
  function EmptyIndex(): (ptrs: seq<int>)
    ensures |ptrs| == IndirectPointers && AllInt32(ptrs)
    ensures forall k | 0 <= k < |ptrs| :: ptrs[k] == Unallocated
  {
    seq(IndirectPointers, _ => Unallocated)
  }

  /** Decoding a block gives exactly `IndirectPointers` slots. */
  lemma DecodeBlockLength(b: Block)
    requires IsBlock(b)
    ensures |Decode(b)| == IndirectPointers
  {
  }

  /** Encoding a full index array gives a block. */
  lemma EncodeIndexIsBlock(ptrs: seq<int>)
    requires |ptrs| == IndirectPointers && AllInt32(ptrs)
    ensures IsBlock(Encode(ptrs))
  {
  }
}

/** Disk blocks, and how an indirect block holds 128 block numbers as little-endian integers. */
module Blocks {

  const BLOCK_SIZE := 512

  type byte = x: int | 0 <= x < 256

  /** The C type int. */
  type int32 = x: int | -0x8000_0000 <= x < 0x8000_0000

  type Block = b: seq<byte> | |b| == BLOCK_SIZE witness seq(BLOCK_SIZE, _ => 0)

  const INDIRECT := 128

  type BlockMap = m: seq<int32> | |m| == INDIRECT witness seq(INDIRECT, _ => 0)

  /** The i-th byte of an integer in memory, two's complement, least significant byte first. */
  function IntByte(x: int32, i: nat): byte
    requires i < 4
  {
    var u := if x < 0 then x + 0x1_0000_0000 else x;
    if i == 0 then u % 256
    else if i == 1 then u / 256 % 256
    else if i == 2 then u / 65536 % 256
    else u / 16777216
  }

  function IntOf(b0: byte, b1: byte, b2: byte, b3: byte): int32 {
    var u := b0 + 256 * b1 + 65536 * b2 + 16777216 * b3;
    if u < 0x8000_0000 then u else u - 0x1_0000_0000
  }

  lemma IntRoundTrip(x: int32)
    ensures IntOf(IntByte(x, 0), IntByte(x, 1), IntByte(x, 2), IntByte(x, 3)) == x
  {
    var u := if x < 0 then x + 0x1_0000_0000 else x;
    assert u / 65536 == u / 256 / 256 && u / 16777216 == u / 65536 / 256;
  }

  function Encode(m: BlockMap): (b: Block)
    ensures forall i :: 0 <= i < BLOCK_SIZE ==> b[i] == IntByte(m[i / 4], i % 4)
  {
    seq(BLOCK_SIZE, i requires 0 <= i < BLOCK_SIZE => IntByte(m[i / 4], i % 4))
  }

  function Decode(b: Block): (m: BlockMap)
    ensures forall i :: 0 <= i < INDIRECT ==> m[i] == IntOf(b[4 * i], b[4 * i + 1], b[4 * i + 2], b[4 * i + 3])
  {
    seq(INDIRECT, i requires 0 <= i < INDIRECT => IntOf(b[4 * i], b[4 * i + 1], b[4 * i + 2], b[4 * i + 3]))
  }

  /** Writing a map of block numbers to a block and reading it back. */
  lemma DecodeEncode(m: BlockMap)
    ensures Decode(Encode(m)) == m
  {
    hide IntByte, IntOf;
    forall i | 0 <= i < INDIRECT ensures Decode(Encode(m))[i] == m[i] {
      IntRoundTrip(m[i]);
      assert (4 * i) / 4 == i && (4 * i + 1) / 4 == i && (4 * i + 2) / 4 == i && (4 * i + 3) / 4 == i;
    }
  }
}

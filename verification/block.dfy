/** A block: the unit cached by the buffer manager. */
module Blocks {
  import opened Bytes

  /** Size of a block in bytes. */
  const BLOCK_SIZE: nat := 4096

  /** The block buffer `[u8; BLOCK_SIZE]`: exactly `BLOCK_SIZE` bytes. */
  type BlockData = s: seq<u8> | |s| == BLOCK_SIZE witness Zeroes(BLOCK_SIZE)

  datatype Block = Block(data: BlockData, usedSpace: nat, pinned: nat)

  /** `Block::new`: a zeroed buffer with nothing used and no pins. */
  function NewBlock(): (b: Block)
    ensures |b.data| == BLOCK_SIZE && AllZero(b.data)
    ensures b.usedSpace == 0 && b.pinned == 0
  {
    Block(Zeroes(BLOCK_SIZE), 0, 0)
  }
}

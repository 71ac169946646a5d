/**
 * The buffer manager: a bounded cache of blocks keyed by block identifier, with a
 * FIFO queue of unfixed identifiers from which eviction victims are taken.
 */
module BufferManagement {
  import opened Wrappers
  import opened Blocks

  class BufferManager {
    /** Capacity in blocks; never changed after construction. */
    const maxBlocks: nat
    /** Resident blocks by identifier. */
    var blocks: map<nat, Block>
    /** Identifiers that may be evicted, oldest first. */
    var unfixed: seq<nat>

    /** The cache never holds more blocks than its capacity. */
    ghost predicate Valid()
      reads this
    {
      |blocks| <= maxBlocks
    }

    /** `BufferManager::new`: an empty cache of the given capacity. */
    constructor (capacity: nat)
      ensures Valid()
      ensures maxBlocks == capacity && blocks == map[] && unfixed == []
    {
      maxBlocks := capacity;
      blocks := map[];
      unfixed := [];
    }

    /** `blocks_free`: how many more blocks fit; the subtraction needs the capacity invariant. */
    function BlocksFree(): (n: nat)
      reads this
      requires Valid()
      ensures n + |blocks| == maxBlocks
    {
      maxBlocks - |blocks|
    }

    /** `memory_free`: the free capacity in bytes, a whole number of blocks. */
    function MemoryFree(): (n: nat)
      reads this
      requires Valid()
      ensures n % BLOCK_SIZE == 0 && n / BLOCK_SIZE == BlocksFree()
      ensures n + |blocks| * BLOCK_SIZE == maxBlocks * BLOCK_SIZE
    {
      BlocksFree() * BLOCK_SIZE
    }

    /**
     * `get_block`: a hit returns the resident block and changes nothing. A miss inserts a
     * fresh zeroed block, first evicting the front of `unfixed` when the cache is full.
     * The source unwraps both the pop and the removal, so a full miss needs a resident
     * identifier at the front of `unfixed`. The eviction's `write_to_disk` has no effect.
     */
    method GetBlock(id: nat) returns (b: Block)
      requires Valid()
      requires id !in blocks && |blocks| == maxBlocks ==> |unfixed| > 0 && unfixed[0] in blocks
      modifies this
      ensures Valid()
      ensures id in blocks && blocks[id] == b
      ensures id in old(blocks) ==>
                b == old(blocks)[id] && blocks == old(blocks) && unfixed == old(unfixed)
      ensures id !in old(blocks) ==> b == NewBlock()
      ensures id !in old(blocks) && old(BlocksFree()) > 0 ==>
                blocks == old(blocks)[id := NewBlock()] && unfixed == old(unfixed) &&
                BlocksFree() == old(BlocksFree()) - 1
      ensures id !in old(blocks) && old(BlocksFree()) == 0 ==>
                unfixed == old(unfixed)[1..] &&
                blocks == (old(blocks) - {old(unfixed)[0]})[id := NewBlock()] &&
                BlocksFree() == 0
    {
      if id in blocks {
        return blocks[id];
      }
      if BlocksFree() == 0 {
        var victim := unfixed[0];
        unfixed := unfixed[1..];
        assert (blocks - {victim}).Keys == blocks.Keys - {victim};
        blocks := blocks - {victim};
      }
      b := NewBlock();
      blocks := blocks[id := b];
    }

    /**
     * `allocate_empty_block`: fails iff no block is free. The insertion into the cache is
     * commented out in the source, so a success reserves nothing and no state changes.
     */
    method AllocateEmptyBlock() returns (r: Result<Block, ()>)
      requires Valid()
      ensures r.Failure? <==> BlocksFree() == 0
      ensures r.Success? ==> r.value == NewBlock()
    {
      if BlocksFree() == 0 {
        return Failure(());
      }
      return Success(NewBlock());
    }
  }

  /**
   * The `allocate_blocks` unit test replayed on the model of the code as written: on a cache of ten
   * blocks, eleven allocations in a row all succeed and ten blocks stay free, whereas the
   * test expects the eleventh to fail and `blocks_free` to count down.
   */
  method AllocateElevenOnTen() returns (outcomes: seq<bool>, free: nat)
    ensures |outcomes| == 11 && forall i :: 0 <= i < 11 ==> outcomes[i]
    ensures free == 10
  {
    var mm := new BufferManager(10);
    outcomes := [];
    var i := 0;
    while i < 11
      invariant 0 <= i <= 11 && |outcomes| == i
      invariant forall j :: 0 <= j < i ==> outcomes[j]
      invariant mm.Valid() && mm.BlocksFree() == 10
    {
      var r := mm.AllocateEmptyBlock();
      outcomes := outcomes + [r.Success?];
      i := i + 1;
    }
    free := mm.BlocksFree();
  }
}

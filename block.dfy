/** The block device the file system lives on (devices/block.c is not part
    of this model): a sequence of sectors of BLOCK_SECTOR_SIZE bytes. */
module Block {
  import opened Bytes

  const BLOCK_SECTOR_SIZE: nat := 512

  function Zeros(n: nat): (z: seq<byte>)
    ensures |z| == n && forall i :: 0 <= i < n ==> z[i] == 0
  {
    seq(n, _ => 0)
  }

  /** Every sector holds exactly one block of bytes. */
  ghost predicate Sized(blocks: seq<seq<byte>>)
  {
    forall s :: 0 <= s < |blocks| ==> |blocks[s]| == BLOCK_SECTOR_SIZE
  }

  class Device {
    var blocks: seq<seq<byte>>

    ghost predicate Valid()
      reads this
    {
      Sized(blocks)
    }

    /** A device of the given size with every sector zero. */
    constructor (size: nat)
      ensures Valid() && |blocks| == size
      ensures forall s :: 0 <= s < size ==> blocks[s] == Zeros(BLOCK_SECTOR_SIZE)
    {
      blocks := seq(size, _ => Zeros(BLOCK_SECTOR_SIZE));
    }
  }
}

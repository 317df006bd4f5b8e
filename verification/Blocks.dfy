/** Blocks, block addresses and the constants of kernel/include/param.h. */
module Blocks {

  type byte = bv8

  /** kernel/include/param.h:16, 24 */
  const BLK_SZ: nat := 4096
  const BITS_PER_BLK: nat := 32768

  /** `b_count`, `i_count` and `f_count` are unsigned bytes (kernel/include/fs.h:120, 137, 154). */
  const MAX_COUNT: nat := 255

  type Block = s: seq<byte> | |s| == BLK_SZ witness seq(BLK_SZ, _ => 0)

  function ZeroBlock(): (b: Block)
    ensures forall i :: 0 <= i < BLK_SZ ==> b[i] == 0
  {
    seq(BLK_SZ, _ => 0)
  }

  datatype Addr = Addr(dev: nat, blk: nat)

  /** The tag of an empty buffer (kernel/fs/block.c:49-53). */
  const NO_ADDR := Addr(0, 0)

  datatype Option<+T> = None | Some(value: T)

  type Disk = map<Addr, Block>

  /** Writing back what is there changes nothing. */
  lemma SameBlock(v: Disk, a: Addr)
    requires a in v
    ensures v[a := v[a]] == v
  {
  }
}

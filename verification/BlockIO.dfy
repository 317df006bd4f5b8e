/**
 * The calls of kernel/fs/block.c as the rest of the kernel sees them: each states what the caller holds
 * and what block `a` now reads as, in place of the state of the table.
 */
module BlockIO {
  import opened Blocks
  import opened CacheSpec
  import opened CacheClient
  import opened BufferCache

  method OpenBlock(bt: BufferTable, a: Addr) returns (h: nat)
    requires Ready(bt.State()) && a in View(bt.State())
    modifies bt, bt.blocks
    ensures Holding(old(bt.State()), bt.State(), h, a)
    ensures h < bt.blocks.Length && bt.blocks[h].data == View(old(bt.State()))[a]
  {
    Opened(bt.State(), a);
    hide Holding, View;
    var b := bt.Bread(a);
    h := b.value;
  }

  method OpenZero(bt: BufferTable, a: Addr) returns (h: nat)
    requires Ready(bt.State()) && a in View(bt.State())
    modifies bt, bt.blocks
    ensures Holding(old(bt.State()), bt.State(), h, a)
    ensures h < bt.blocks.Length && bt.blocks[h].data == ZeroBlock() && bt.blocks[h].dirty
  {
    Zeroed(bt.State(), a);
    hide Holding, View, ZeroBlock;
    var b := bt.Bzero(a);
    h := b.value;
  }

  method StoreByte(bt: BufferTable, h: nat, i: nat, v: byte, ghost c: Cache, ghost a: Addr)
    requires Holding(c, bt.State(), h, a) && i < BLK_SZ
    modifies bt.blocks
    ensures Holding(c, bt.State(), h, a)
    ensures h < bt.blocks.Length && bt.blocks[h].dirty
    ensures bt.blocks[h].data == old(bt.blocks[h].data)[i := v]
  {
    HoldingLive(c, bt.State(), h, a);
    hide Holding;
    Stored(c, bt.State(), h, a, i, v);
    bt.Store(h, i, v);
  }

  method CloseBlock(bt: BufferTable, h: nat, ghost c: Cache, ghost a: Addr)
    requires Ready(c) && Holding(c, bt.State(), h, a)
    modifies bt.blocks
    ensures Ready(bt.State()) && SameUse(c, bt.State())
    ensures View(bt.State()) == View(c)[a := old(bt.blocks[h].data)]
  {
    HoldingLive(c, bt.State(), h, a);
    hide Holding, Ready, SameUse, View;
    Released(c, bt.State(), h, a);
    bt.Brelease(h);
  }

  /** A clean block is left as it is, still held. */
  method WriteBlock(bt: BufferTable, h: nat, ghost c: Cache, ghost a: Addr)
    requires Ready(c) && Holding(c, bt.State(), h, a) && h < bt.blocks.Length
    modifies bt, bt.blocks
    ensures old(bt.blocks[h].dirty) ==> Ready(bt.State()) && SameUse(c, bt.State())
    ensures old(bt.blocks[h].dirty) ==> View(bt.State()) == View(c)[a := old(bt.blocks[h].data)]
    ensures old(bt.blocks[h].dirty) ==> a in bt.disk && bt.disk[a] == old(bt.blocks[h].data)
    ensures old(bt.blocks[h].dirty) && old(bt.blocks[h].count) == 1 ==> Blank(bt.blocks[h]) && !Cached(bt.State(), a)
    ensures old(bt.blocks[h].dirty) && old(bt.blocks[h].count) > 1 ==>
      bt.blocks[h] == old(bt.blocks[h]).(dirty := false, count := old(bt.blocks[h].count) - 1)
    ensures !old(bt.blocks[h].dirty) ==> bt.State() == old(bt.State())
  {
    HoldingLive(c, bt.State(), h, a);
    hide Holding, Ready, SameUse, View, Blank, Cached;
    if bt.blocks[h].dirty {
      Written(c, bt.State(), h, a);
    }
    bt.Bwrite(h);
  }
}

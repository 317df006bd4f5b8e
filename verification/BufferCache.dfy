/** The buffer table of kernel/fs/block.c, updated in place. */
module BufferCache {
  import opened Blocks
  import opened CacheSpec

  /**
   * The global `buffer` table (kernel/include/fs.h:232-235) over the disk. A `struct buffer *` is an
   * index into `blocks`. The constructor's argument stands for NR_BUF.
   */
  class BufferTable {
    var disk: Disk
    const blocks: array<Buffer>

    ghost function State(): Cache
      reads this, blocks
    {
      Cache(disk, blocks[..])
    }

    constructor (nrBuf: nat, disk: Disk)
      requires NO_ADDR !in disk
      ensures fresh(blocks) && blocks.Length == nrBuf && this.disk == disk
      ensures Inv(State()) && View(State()) == disk
      ensures forall i :: 0 <= i < nrBuf ==> blocks[i] == Empty()
    {
      this.disk := disk;
      blocks := new Buffer[nrBuf](_ => Empty());
      new;
      assert forall a :: a in disk ==> !Cached(State(), a);
      forall a | a in disk ensures ViewAt(State(), a) == disk[a] {
        ViewOfDisk(State(), a);
      }
    }

    /** kernel/fs/block.c:139-164 */
    method Bget(a: Addr) returns (r: Option<nat>)
      modifies this, blocks
      ensures match CacheSpec.Bget(old(State()), a)
              case None => r == None && State() == old(State())
              case Some((c, h)) => r == Some(h) && State() == c
    {
      var i := 0;
      while i < blocks.Length
        invariant i <= blocks.Length
        invariant FindTag(blocks[..], a, 0) == FindTag(blocks[..], a, i)
      {
        if blocks[i].addr == a {
          return Some(i);
        }
        i := i + 1;
      }
      i := 0;
      while i < blocks.Length
        invariant i <= blocks.Length
        invariant State() == old(State())
        invariant FindFree(blocks[..], 0) == FindFree(blocks[..], i)
      {
        if blocks[i].count == 0 {
          if blocks[i].dirty {
            disk := disk[blocks[i].addr := blocks[i].data];
          }
          blocks[i] := blocks[i].(addr := a, dirty := false);
          return Some(i);
        }
        i := i + 1;
      }
      return None;
    }

    /** kernel/fs/block.c:20-31 */
    method Bread(a: Addr) returns (r: Option<nat>)
      requires a in disk && Inv(State())
      modifies this, blocks
      ensures match CacheSpec.Bread(old(State()), a)
              case None => r == None
              case Some((c, h)) => r == Some(h) && State() == c
    {
      ghost var before := State();
      r := Bget(a);
      if r == None {
        return;
      }
      var h := r.value;
      BgetInv(before, a);
      if blocks[h].count == MAX_COUNT {
        return None;
      }
      if blocks[h].count == 0 {
        if blocks[h].dirty {
          disk := disk[blocks[h].addr := blocks[h].data];
        }
        blocks[h] := blocks[h].(data := disk[blocks[h].addr], dirty := false);
      }
      blocks[h] := blocks[h].(count := blocks[h].count + 1);
    }

    /** bget, zeroed and taken, for a block just allocated: kernel/fs/block.c:103, 127-137. */
    method Bzero(a: Addr) returns (r: Option<nat>)
      modifies this, blocks
      ensures match CacheSpec.Bzero(old(State()), a)
              case None => r == None
              case Some((c, h)) => r == Some(h) && State() == c
    {
      r := Bget(a);
      if r == None {
        return;
      }
      var h := r.value;
      if blocks[h].count == MAX_COUNT {
        return None;
      }
      blocks[h] := Buffer(ZeroBlock(), a, true, blocks[h].count + 1);
    }

    /** `b->b_data[i] = v; b->b_dirty = 1`, as in kernel/fs/read_write.c:122, 127 */
    method Store(h: nat, i: nat, v: byte)
      requires Live(State(), h) && i < BLK_SZ
      modifies blocks
      ensures State() == CacheSpec.Store(old(State()), h, i, v)
    {
      blocks[h] := blocks[h].(data := blocks[h].data[i := v], dirty := true);
    }

    /** kernel/fs/block.c:36-56 */
    method Bwrite(h: nat)
      requires Live(State(), h)
      modifies this, blocks
      ensures State() == CacheSpec.Bwrite(old(State()), h)
    {
      if !blocks[h].dirty {
        return;
      }
      disk := disk[blocks[h].addr := blocks[h].data];
      blocks[h] := blocks[h].(dirty := false, count := blocks[h].count - 1);
      if blocks[h].count == 0 {
        blocks[h] := Buffer(ZeroBlock(), NO_ADDR, false, 0);
      }
    }

    /** kernel/fs/block.c:68-79 */
    method Brelease(h: nat)
      requires Live(State(), h)
      modifies blocks
      ensures State() == CacheSpec.Brelease(old(State()), h)
    {
      blocks[h] := blocks[h].(count := blocks[h].count - 1);
    }
  }
}

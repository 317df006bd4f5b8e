/** The file calls of kernel/fs/read_write.c over the inode and buffer caches. */
module FileSys {
  import opened Blocks
  import opened CacheSpec
  import opened CacheClient
  import opened BlockIO
  import opened DiskInodes
  import Bitmap
  import opened FreeMap
  import opened Volume
  import opened InodeSpec
  import opened InodeCache
  import opened FsState
  import opened Files
  import opened FileSteps

  /** `struct file` (kernel/include/fs.h:150-159), less its lock; `inode` is an index into the inode cache. */
  datatype File = File(mode: nat, flag: nat, count: nat, off: nat, inode: nat)

  datatype Whence = SeekCur | SeekEnd | SeekSet

  /** The offset sys_seek computes. */
  function SeekTo(off: nat, offset: int, whence: Whence): int {
    match whence
    case SeekCur => off + offset
    case SeekEnd => off - offset
    case SeekSet => offset
  }

  /** A live entry of the open-file table: its inode is in use and the cursor is inside it. */
  ghost predicate OpenFile(sbs: Supers, v: Disk, es: seq<Inode>, f: File) {
    && f.count <= MAX_COUNT
    && (f.count > 0 ==> InUse(sbs, v, es, f.inode) && f.off <= es[f.inode].din.size)
  }

  /** The open-file table: live entries are well formed and no two of them name one inode. */
  ghost predicate FilesOpen(sbs: Supers, v: Disk, es: seq<Inode>, files: seq<File>) {
    && (forall f :: 0 <= f < |files| ==> OpenFile(sbs, v, es, files[f]))
    && (forall f, g :: 0 <= f < g < |files| && files[f].count > 0 && files[g].count > 0 ==>
         files[f].inode != files[g].inode)
  }

  /** What a descriptor leads to: a file, and a place in it. */
  datatype Cursor = Cursor(id: InoId, off: nat)

  /** The live entries of the open-file table. */
  ghost function OpenOf(files: seq<File>, es: seq<Inode>): map<nat, Cursor> {
    map f: nat | f < |files| && files[f].count > 0 && files[f].inode < |es| ::
      Cursor(es[files[f].inode].id, files[f].off)
  }

  class FileSystem {
    const it: InodeTable
    const files: array<File>
    ghost var own: map<Addr, Owner>

    constructor (it: InodeTable, nrFiles: nat, ghost own: map<Addr, Owner>)
      requires Ready(it.bt.State()) && Core(it.sbs, View(it.bt.State()), it.inodes[..], own)
      ensures this.it == it && fresh(files) && files.Length == nrFiles && this.own == own
      ensures Valid() && forall f :: 0 <= f < nrFiles ==> files[f].count == 0
    {
      hide Ready, Core, View;
      this.it, this.own := it, own;
      files := new File[nrFiles](_ => File(0, 0, 0, 0, 0));
    }

    ghost function V(): Disk
      reads this, it, it.bt, it.bt.blocks
    {
      View(it.bt.State())
    }

    /** The files, free blocks and free inode numbers of the machine. */
    ghost function S(): State
      reads this, it, it.bt, it.bt.blocks, it.inodes
    {
      Abs(it.sbs, V(), it.inodes[..])
    }

    /** Holds even while a block is being worked on. */
    ghost predicate Consistent()
      reads this, it, it.bt, it.bt.blocks, it.inodes
    {
      Core(it.sbs, V(), it.inodes[..], own)
    }

    ghost predicate Valid()
      reads this, it, it.bt, it.bt.blocks, it.inodes, files
    {
      && Ready(it.bt.State())
      && Consistent()
      && FilesOpen(it.sbs, V(), it.inodes[..], files[..])
    }

    ghost predicate Used(i: nat)
      reads this, it, it.bt, it.bt.blocks, it.inodes
    {
      InUse(it.sbs, V(), it.inodes[..], i)
    }

    /**
     * The block of slot `k` of entry `i`, opened; a slot that has none is given a free block first
     * (kernel/fs/read_write.c:115, 129; kernel/fs/block.c:81-112). `None`: the device has no free block.
     */
    method OpenSlot(i: nat, k: nat, ghost off: nat) returns (h: Option<nat>, ghost c: Cache)
      requires Ready(it.bt.State()) && Consistent() && Used(i) && k < NADDR
      requires i < it.inodes.Length && off <= it.inodes[i].din.size
      modifies this`own, it.bt, it.bt.blocks, it.inodes
      ensures Consistent() && Used(i) && Grew(old(it.inodes[..]), it.inodes[..])
      ensures it.inodes[i].din.size == old(it.inodes[i].din.size)
      ensures |old(it.inodes[i].din.addr)| == NADDR
      ensures h.None? ==> Ready(it.bt.State()) && SameUse(old(it.bt.State()), it.bt.State()) && S() == old(S())
      ensures h.None? ==> it.inodes[..] == old(it.inodes[..]) && it.inodes[i].din.addr[k] == 0
      ensures h.None? ==> it.inodes[i].id.dev < |S().free| && S().free[it.inodes[i].id.dev] == {}
      ensures h.Some? ==> WroteTaking(it.sbs, old(S()), S(), it.inodes[i].id, off, [], NewSlot(old(it.inodes[i].din.addr), k))
      ensures h.Some? ==> Ready(c) && SameUse(old(it.bt.State()), c) && SlotHeld(c, i, k, h.value)
    {
      hide Ready, Holding, View, Core, InUse, Abs, WroteTaking, SameUse, BitWritten, IsChoice, MapOnDisk, Grew, ZeroBlock,
        InUse, Bitmap.IsFirst, FreeSet;
      ghost var v, es, own0 := V(), it.inodes[..], own;
      InUseFacts(it.sbs, v, es, own, i);
      GrewSelf(es);
      SameUseSelf(it.bt.State());
      c := it.bt.State();
      var e := it.inodes[i];
      var dev := e.id.dev;
      if e.din.addr[k] == 0 {
        FreeMapOnDisk(it.sbs, v, es, own, dev);
        var p := ClaimPos(it.bt, dev, it.sbs[dev].freeBlk, it.sbs[dev].freeBlkLen);
        if p.None? {
          NoneLeft(it.sbs, v, es, own, i);
          return None, c;
        }
        c := it.bt.State();
        ghost var w := View(c);
        ChoiceIsFree(v, dev, it.sbs[dev].freeBlk, p.value);
        ChoiceIsFirst(v, dev, it.sbs[dev].freeBlk, it.sbs[dev].freeBlkLen, p.value);
        GrowStep(it.sbs, v, w, es, own, i, k, p.value, off);
        var a := Addr(dev, p.value);
        var z := OpenZero(it.bt, a);
        HoldingView(c, it.bt.State(), z, a);
        var d := e.din.(addr := e.din.addr[k := p.value]);
        GrewEdit(es, i, d);
        it.inodes[i] := e.(din := d, dirty := true);
        own := own[a := Owner(e.id, k)];
        assert it.inodes[..] == Edited(es, i, d);
        h := Some(z);
      } else {
        var a := Addr(dev, e.din.addr[k]);
        SlotOnDisk(it.sbs, v, es, own, i, k);
        StillTaking(it.sbs, v, es, own, i, off);
        var b := OpenBlock(it.bt, a);
        HoldingView(c, it.bt.State(), b, a);
        SameBlock(v, a);
        h := Some(b);
      }
    }

    /** Buffer `h` is open, since `c`, on the block of slot `k` of entry `i`. */
    ghost predicate SlotHeld(c: Cache, i: nat, k: nat, h: nat)
      reads this, it, it.bt, it.bt.blocks, it.inodes
    {
      && i < it.inodes.Length && k < |it.inodes[i].din.addr| && it.inodes[i].din.addr[k] != 0
      && Holding(c, it.bt.State(), h, Addr(it.inodes[i].id.dev, it.inodes[i].din.addr[k]))
      && h < it.bt.blocks.Length
    }

    /** Between the bytes of a transfer: no block is held, or the block under the cursor is, opened since `c`. */
    ghost predicate Held(i: nat, off: nat, b: Option<nat>, c: Cache, c0: Cache)
      reads this, it, it.bt, it.bt.blocks, it.inodes
    {
      if b.None? then Ready(it.bt.State()) && SameUse(c0, it.bt.State())
      else Ready(c) && SameUse(c0, c) && off / BLK_SZ < NADDR && SlotHeld(c, i, off / BLK_SZ, b.value)
    }

    /** The cursor cannot move on: the file is as long as files get, or the next byte has no block and its device is full. */
    ghost predicate NoMore(i: nat, off: nat)
      requires i < it.inodes.Length
      reads this, it, it.bt, it.bt.blocks, it.inodes
    {
      off == MAX_SIZE ||
      (&& off / BLK_SZ < |it.inodes[i].din.addr| && it.inodes[i].din.addr[off / BLK_SZ] == 0
       && it.inodes[i].id.dev < |S().free| && S().free[it.inodes[i].id.dev] == {})
    }

    /** One turn of the loop of sys_write: store byte `off` of the file and let the file grow to hold it. */
    method StoreSlot(i: nat, off: nat, x: byte, h: nat, ghost c: Cache)
      requires Consistent() && Used(i) && i < it.inodes.Length
      requires off / BLK_SZ < NADDR && off <= it.inodes[i].din.size && SlotHeld(c, i, off / BLK_SZ, h)
      modifies it.bt.blocks, it.inodes
      ensures Consistent() && Used(i) && Grew(old(it.inodes[..]), it.inodes[..])
      ensures SlotHeld(c, i, off / BLK_SZ, h)
      ensures it.inodes[i].din.size > off
      ensures WroteTaking(it.sbs, old(S()), S(), it.inodes[i].id, off, [x], {})
    {
      hide Holding, View, Core, InUse, Abs, WroteTaking, Grew;
      ghost var v, es := V(), it.inodes[..];
      InUseFacts(it.sbs, v, es, own, i);
      var e := it.inodes[i];
      ghost var a := Addr(e.id.dev, e.din.addr[off / BLK_SZ]);
      StoreStep(it.sbs, v, es, own, i, off, x);
      HoldingData(c, it.bt.State(), h, a);
      StoreByte(it.bt, h, off % BLK_SZ, x, c, a);
      HoldingData(c, it.bt.State(), h, a);
      Twice(View(c), v, a, it.bt.blocks[h].data);
      GrewEdit(es, i, Grown(e.din, off + 1));
      it.inodes[i] := e.(din := Grown(e.din, off + 1), dirty := true);
      assert it.inodes[..] == Edited(es, i, Grown(e.din, off + 1));
    }

    /** Gives the block held back. */
    method CloseSlot(i: nat, k: nat, h: nat, ghost c: Cache)
      requires Consistent() && Ready(c) && SlotHeld(c, i, k, h)
      modifies it.bt.blocks
      ensures Ready(it.bt.State()) && SameUse(c, it.bt.State()) && V() == old(V())
    {
      hide Ready, Holding, View, SameUse, Core;
      ghost var a := Addr(it.inodes[i].id.dev, it.inodes[i].din.addr[k]);
      HoldingView(c, it.bt.State(), h, a);
      CloseBlock(it.bt, h, c, a);
    }

    lemma NothingHeld(i: nat, off: nat, c: Cache, c0: Cache)
      requires Ready(it.bt.State()) && SameUse(c0, it.bt.State())
      ensures Held(i, off, None, c, c0)
    {
      hide Ready, SameUse, SlotHeld;
    }

    /** The last block of a transfer is given back. */
    method Finish(i: nat, off: nat, b: Option<nat>, ghost c: Cache, ghost c0: Cache)
      requires Consistent() && Held(i, off, b, c, c0)
      modifies it.bt.blocks
      ensures Ready(it.bt.State()) && SameUse(c0, it.bt.State()) && V() == old(V())
    {
      hide Ready, SameUse, SlotHeld, View, Core;
      if b.Some? {
        CloseSlot(i, off / BLK_SZ, b.value, c);
        SameUseTrans(c0, c, it.bt.State());
      }
    }

    /** One turn of the loop of sys_write: the next block is entered if need be, and let go when it is full. */
    method WriteTurn(f: nat, i: nat, x: byte, b: Option<nat>, ghost c: Cache, ghost c0: Cache, ghost off0: nat,
                     ghost bs: seq<byte>, ghost s0: State, ghost es0: seq<Inode>)
      returns (b': Option<nat>, ghost c': Cache, more: bool)
      requires Consistent() && Used(i) && f < files.Length && i < it.inodes.Length && Grew(es0, it.inodes[..])
      requires files[f].off == off0 + |bs| <= it.inodes[i].din.size
      requires Wrote(it.sbs, s0, S(), it.inodes[i].id, off0, bs)
      requires Held(i, files[f].off, b, c, c0)
      modifies this`own, it.bt, it.bt.blocks, it.inodes, files
      ensures Consistent() && Used(i) && Grew(es0, it.inodes[..]) && it.inodes[i].id == old(it.inodes[i].id)
      ensures files[f].off <= it.inodes[i].din.size
      ensures Wrote(it.sbs, s0, S(), it.inodes[i].id, off0, if more then bs + [x] else bs)
      ensures more ==> files[..] == old(files[..])[f := old(files[f]).(off := old(files[f].off) + 1)]
      ensures !more ==> files[..] == old(files[..]) && b'.None?
      ensures !more ==> NoMore(i, files[f].off)
      ensures Held(i, files[f].off, b', c', c0)
    {
      hide Ready, View, Core, InUse, Abs, Wrote, Grew, SameUse, SlotHeld, FilesOpen, InSlot;
      b', c' := b, c;
      if b.None? {
        if files[f].off / BLK_SZ >= NADDR {
          AtLimit(it.sbs, V(), it.inodes[..], own, i, files[f].off);
          return b', c', false;
        }
        b', c' := Enter(f, i, off0, bs, c0, s0, es0);
        if b'.None? {
          return b', c', false;
        }
      } else {
        HeldSlot(c, i, files[f].off / BLK_SZ, b.value);
        InUseFacts(it.sbs, V(), it.inodes[..], own, i);
        NoNewSlot(it.sbs, s0, S(), it.inodes[i].id, off0, bs);
      }
      PutNext(f, i, x, b'.value, c', off0, bs, s0, es0);
      if files[f].off % BLK_SZ == 0 {
        CloseSlot(i, (files[f].off - 1) / BLK_SZ, b'.value, c');
        SameUseTrans(c0, c', it.bt.State());
        b' := None;
      }
      more := true;
    }

    /** kernel/fs/read_write.c:82-136 */
    method SysWrite(f: nat, buf: seq<byte>) returns (count: nat)
      requires Valid() && f < files.Length && files[f].count > 0
      modifies this`own, it.bt, it.bt.blocks, it.inodes, files
      ensures Valid() && SameUse(old(it.bt.State()), it.bt.State()) && Grew(old(it.inodes[..]), it.inodes[..])
      ensures files[..] == old(files[..])[f := old(files[f]).(off := old(files[f].off) + count)]
      ensures count <= |buf|
      ensures old(files[f].inode) < it.inodes.Length
      ensures var id := it.inodes[files[f].inode].id;
        && Wrote(it.sbs, old(S()), S(), id, old(files[f].off), buf[..count])
        && id in old(S()).ino && id.dev < |old(S()).free|
        && AsMuchAsFits(old(S()), id, old(files[f].off), |buf|, count)
    {
      hide Ready, View, Core, InUse, Abs, Wrote, Grew, SameUse, SlotHeld, FilesOpen, FileSystem.Held, AsMuchAsFits;
      ghost var c0, v0, es0, s0, files0 := it.bt.State(), V(), it.inodes[..], S(), files[..];
      var i := files[f].inode;
      OpenFileFacts(it.sbs, v0, es0, files[..], f);
      ghost var id, off0 := it.inodes[i].id, files[f].off;
      GrewSelf(es0);
      SameUseSelf(c0);
      StillWrote(it.sbs, v0, es0, own, i, off0);
      assert buf[..0] == [];
      var b: Option<nat> := None;
      ghost var c := c0;
      NothingHeld(i, off0, c, c0);
      count := 0;
      while count < |buf|
        invariant count <= |buf| && i < it.inodes.Length && f < files.Length
        invariant Consistent() && Used(i) && Grew(es0, it.inodes[..]) && it.inodes[i].id == id
        invariant files[..] == files0[f := files0[f].(off := off0 + count)]
        invariant off0 + count <= it.inodes[i].din.size
        invariant Wrote(it.sbs, s0, S(), id, off0, buf[..count])
        invariant Held(i, files[f].off, b, c, c0)
      {
        var more;
        b, c, more := WriteTurn(f, i, buf[count], b, c, c0, off0, buf[..count], s0, es0);
        if !more {
          StoppedHere(s0, i, files[f].off, off0, buf[..count], |buf|);
          break;
        }
        assert buf[..count] + [buf[count]] == buf[..count + 1];
        count := count + 1;
      }
      if count == |buf| {
        InUseFacts(it.sbs, V(), it.inodes[..], own, i);
        Stops(it.sbs, s0, S(), id, off0, buf[..count], |buf|);
      }
      Finish(i, files[f].off, b, c, c0);
      FilesStayOpen(it.sbs, v0, es0, V(), it.inodes[..], id, off0, buf[..count], files0);
      CursorMoved(it.sbs, V(), it.inodes[..], files0, f, off0 + count, files[..]);
    }

    /** Where the cursor cannot move on, as much is stored as there was room for. */
    lemma StoppedHere(s0: State, i: nat, off: nat, off0: nat, bs: seq<byte>, len: nat)
      requires Consistent() && Used(i) && i < it.inodes.Length && NoMore(i, off) && off == off0 + |bs| && |bs| <= len
      requires Wrote(it.sbs, s0, S(), it.inodes[i].id, off0, bs) && off <= it.inodes[i].din.size
      ensures var id := it.inodes[i].id;
        id in s0.ino && id.dev < |s0.free| && AsMuchAsFits(s0, id, off0, len, |bs|)
    {
      hide Core, Abs, Wrote, AsMuchAsFits;
      InUseFacts(it.sbs, V(), it.inodes[..], own, i);
      Stops(it.sbs, s0, S(), it.inodes[i].id, off0, bs, len);
    }

    lemma HeldSlot(c: Cache, i: nat, k: nat, h: nat)
      requires SlotHeld(c, i, k, h)
      ensures i < it.inodes.Length && k < |it.inodes[i].din.addr| && it.inodes[i].din.addr[k] != 0
    {
      hide Holding;
    }

    /** The next block of the write. */
    method Enter(f: nat, i: nat, ghost off0: nat, ghost bs: seq<byte>, ghost c0: Cache, ghost s0: State,
                 ghost es0: seq<Inode>) returns (b: Option<nat>, ghost c: Cache)
      requires Ready(it.bt.State()) && SameUse(c0, it.bt.State()) && Consistent() && Used(i)
      requires f < files.Length && i < it.inodes.Length && Grew(es0, it.inodes[..])
      requires files[f].off == off0 + |bs| <= it.inodes[i].din.size && files[f].off / BLK_SZ < NADDR
      requires Wrote(it.sbs, s0, S(), it.inodes[i].id, off0, bs)
      modifies this`own, it.bt, it.bt.blocks, it.inodes
      ensures Consistent() && Used(i) && Grew(es0, it.inodes[..]) && it.inodes[i].id == old(it.inodes[i].id)
      ensures files[f].off <= it.inodes[i].din.size
      ensures b.None? ==> Ready(it.bt.State()) && SameUse(c0, it.bt.State()) && NoMore(i, files[f].off)
      ensures b.None? ==> Wrote(it.sbs, s0, S(), it.inodes[i].id, off0, bs)
      ensures b.Some? ==> InSlot(it.sbs, s0, S(), it.inodes[i].id, off0, bs)
      ensures b.Some? ==> Ready(c) && SameUse(c0, c) && SlotHeld(c, i, files[f].off / BLK_SZ, b.value)
    {
      hide Ready, View, Core, InUse, Abs, Wrote, WroteTaking, Grew, SameUse, SlotHeld, InSlot;
      ghost var d, es, s := it.bt.State(), it.inodes[..], S();
      InUseFacts(it.sbs, V(), es, own, i);
      b, c := OpenSlot(i, files[f].off / BLK_SZ, files[f].off);
      GrewTags(es, it.inodes[..], i);
      GrewMore(es0, es, it.inodes[..]);
      if b.None? {
        SameUseTrans(c0, d, it.bt.State());
      } else {
        NextSlot(it.sbs, s0, s, S(), it.inodes[i].id, off0, bs);
        SameUseTrans(c0, d, c);
      }
    }

    /** `b->b_data[i++] = buf[count++]; f->f_off++`, with the file size following the cursor. */
    method PutNext(f: nat, i: nat, x: byte, h: nat, ghost c: Cache, ghost off0: nat, ghost bs: seq<byte>, ghost s0: State,
                   ghost es0: seq<Inode>)
      requires Consistent() && Used(i) && f < files.Length && i < it.inodes.Length && Grew(es0, it.inodes[..])
      requires files[f].off == off0 + |bs| <= it.inodes[i].din.size && files[f].off / BLK_SZ < NADDR
      requires SlotHeld(c, i, files[f].off / BLK_SZ, h)
      requires InSlot(it.sbs, s0, S(), it.inodes[i].id, off0, bs)
      modifies it.bt.blocks, it.inodes, files
      ensures Consistent() && Used(i) && Grew(es0, it.inodes[..]) && it.inodes[i].id == old(it.inodes[i].id)
      ensures files[..] == old(files[..])[f := old(files[f]).(off := old(files[f].off) + 1)]
      ensures Wrote(it.sbs, s0, S(), it.inodes[i].id, off0, bs + [x])
      ensures files[f].off <= it.inodes[i].din.size
      ensures SlotHeld(c, i, old(files[f].off) / BLK_SZ, h)
    {
      hide Ready, View, Core, InUse, Abs, Wrote, WroteTaking, Grew, SameUse, SlotHeld, InSlot;
      ghost var es, s := it.inodes[..], S();
      StoreSlot(i, files[f].off, x, h, c);
      GrewTags(es, it.inodes[..], i);
      GrewMore(es0, es, it.inodes[..]);
      NextByte(it.sbs, s0, s, S(), it.inodes[i].id, off0, bs, x);
      files[f] := files[f].(off := files[f].off + 1);
    }

    /** Opens the block of slot `k` to read it: kernel/fs/read_write.c:52, 66. */
    method OpenToRead(i: nat, k: nat) returns (h: nat, ghost c: Cache)
      requires Ready(it.bt.State()) && Consistent() && Used(i) && i < it.inodes.Length
      requires k < NADDR && k * BLK_SZ < it.inodes[i].din.size
      modifies it.bt, it.bt.blocks
      ensures V() == old(V()) && c == old(it.bt.State()) && SlotHeld(c, i, k, h)
    {
      hide Ready, Holding, View, Core, InUse, Abs;
      ghost var v := V();
      InUseFacts(it.sbs, v, it.inodes[..], own, i);
      c := it.bt.State();
      var a := Addr(it.inodes[i].id.dev, it.inodes[i].din.addr[k]);
      SlotOnDisk(it.sbs, v, it.inodes[..], own, i, k);
      h := OpenBlock(it.bt, a);
      HoldingView(c, it.bt.State(), h, a);
      SameBlock(v, a);
    }

    /** The byte under the cursor, taken from the block held. */
    method ReadSlot(i: nat, off: nat, h: nat, ghost c: Cache) returns (x: byte)
      requires Consistent() && Used(i) && i < it.inodes.Length
      requires off < it.inodes[i].din.size && off / BLK_SZ < NADDR && SlotHeld(c, i, off / BLK_SZ, h)
      ensures it.inodes[i].id in S().ino && |S().ino[it.inodes[i].id].addr| == NADDR
      ensures off < |Content(S(), it.inodes[i].id)| && x == Content(S(), it.inodes[i].id)[off]
    {
      hide Holding, View, Core, InUse, FreeBlks, FreeInos, Inos;
      ghost var a := Addr(it.inodes[i].id.dev, it.inodes[i].din.addr[off / BLK_SZ]);
      InUseFacts(it.sbs, V(), it.inodes[..], own, i);
      SlotOnDisk(it.sbs, V(), it.inodes[..], own, i, off / BLK_SZ);
      HoldingData(c, it.bt.State(), h, a);
      x := it.bt.blocks[h].data[off % BLK_SZ];
    }

    /** The caller's buffer is not one of the kernel's tables. */
    ghost predicate Private(buf: array<byte>)
      reads this, it, it.bt
    {
      buf as object !in {files as object, it.inodes, it.bt.blocks}
    }

    /** The first `count` bytes of `buf` are those of the file from `off0` on; the rest is as it was. */
    ghost predicate Copied(buf: seq<byte>, content: seq<byte>, off0: nat, count: nat, buf0: seq<byte>) {
      && count <= |buf0| && off0 + count <= |content|
      && buf == content[off0..off0 + count] + buf0[count..]
    }

    lemma CopiedNone(content: seq<byte>, off0: nat, buf0: seq<byte>)
      requires off0 <= |content|
      ensures Copied(buf0, content, off0, 0, buf0)
    {
    }

    lemma CopiedOne(buf: seq<byte>, content: seq<byte>, off0: nat, count: nat, buf0: seq<byte>)
      requires Copied(buf, content, off0, count, buf0) && count < |buf0| && off0 + count < |content|
      ensures |buf| == |buf0| && Copied(buf[count := content[off0 + count]], content, off0, count + 1, buf0)
    {
    }

    /** `buf[count++] = b->b_data[i++]; f->f_off++` */
    method GetNext(f: nat, i: nat, buf: array<byte>, count: nat, h: nat, ghost c: Cache, ghost content: seq<byte>,
                   ghost off0: nat, ghost buf0: seq<byte>)
      requires Consistent() && Used(i) && i < it.inodes.Length && f < files.Length && count < buf.Length == |buf0| && Private(buf)
      requires it.inodes[i].id in S().ino && |S().ino[it.inodes[i].id].addr| == NADDR
      requires content == Content(S(), it.inodes[i].id) && |content| == it.inodes[i].din.size
      requires files[f].off == off0 + count < |content| && files[f].off / BLK_SZ < NADDR
      requires SlotHeld(c, i, files[f].off / BLK_SZ, h)
      requires Copied(buf[..], content, off0, count, buf0)
      modifies files, buf
      ensures files[..] == old(files[..])[f := old(files[f]).(off := old(files[f].off) + 1)]
      ensures Copied(buf[..], content, off0, count + 1, buf0)
    {
      hide Ready, View, Core, InUse, Abs, SlotHeld, Content, Copied;
      var x := ReadSlot(i, files[f].off, h, c);
      CopiedOne(buf[..], content, off0, count, buf0);
      ghost var was := buf[..];
      buf[count] := x;
      assert buf[..] == was[count := x];
      files[f] := files[f].(off := files[f].off + 1);
    }

    /** One turn of the loop of sys_read: the block under the cursor is opened if need be, and let go at its end. */
    method ReadTurn(f: nat, i: nat, buf: array<byte>, count: nat, b: Option<nat>, ghost c: Cache, ghost c0: Cache,
                    ghost content: seq<byte>, ghost off0: nat, ghost buf0: seq<byte>)
      returns (b': Option<nat>, ghost c': Cache)
      requires Consistent() && Used(i) && i < it.inodes.Length && f < files.Length && count < buf.Length == |buf0| && Private(buf)
      requires it.inodes[i].id in S().ino && |S().ino[it.inodes[i].id].addr| == NADDR
      requires content == Content(S(), it.inodes[i].id) && |content| == it.inodes[i].din.size <= MAX_SIZE
      requires files[f].off == off0 + count < |content|
      requires Copied(buf[..], content, off0, count, buf0)
      requires Held(i, files[f].off, b, c, c0)
      modifies it.bt, it.bt.blocks, files, buf
      ensures V() == old(V()) && S() == old(S()) && Consistent() && Used(i)
      ensures files[..] == old(files[..])[f := old(files[f]).(off := old(files[f].off) + 1)]
      ensures Copied(buf[..], content, off0, count + 1, buf0)
      ensures Held(i, files[f].off, b', c', c0)
    {
      hide Ready, View, Core, InUse, Abs, SameUse, SlotHeld, Content, FilesOpen, Copied;
      b', c' := b, c;
      if b.None? {
        var h;
        h, c' := OpenToRead(i, files[f].off / BLK_SZ);
        b' := Some(h);
      }
      GetNext(f, i, buf, count, b'.value, c', content, off0, buf0);
      if files[f].off % BLK_SZ == 0 {
        CloseSlot(i, (files[f].off - 1) / BLK_SZ, b'.value, c');
        SameUseTrans(c0, c', it.bt.State());
        b' := None;
      }
    }

    /** The loop of sys_read: kernel/fs/read_write.c:56-70. */
    method ReadBytes(f: nat, i: nat, buf: array<byte>, n: nat, ghost content: seq<byte>)
      requires Ready(it.bt.State()) && Consistent() && Used(i) && i < it.inodes.Length && f < files.Length
      requires n <= buf.Length && Private(buf)
      requires it.inodes[i].id in S().ino && |S().ino[it.inodes[i].id].addr| == NADDR
      requires content == Content(S(), it.inodes[i].id) && |content| == it.inodes[i].din.size <= MAX_SIZE
      requires files[f].off + n <= |content|
      modifies it.bt, it.bt.blocks, files, buf
      ensures Ready(it.bt.State()) && SameUse(old(it.bt.State()), it.bt.State()) && V() == old(V())
      ensures files[..] == old(files[..])[f := old(files[f]).(off := old(files[f].off) + n)]
      ensures Copied(buf[..], content, old(files[f].off), n, old(buf[..]))
    {
      hide Ready, View, Core, InUse, Abs, SameUse, SlotHeld, Content, FilesOpen, FileSystem.Held, Copied;
      ghost var c0, v0, s0, es0, files0, buf0 := it.bt.State(), V(), S(), it.inodes[..], files[..], buf[..];
      ghost var off0, c := files[f].off, c0;
      SameUseSelf(c0);
      NothingHeld(i, off0, c, c0);
      CopiedNone(content, off0, buf0);
      var b: Option<nat> := None;
      var count := 0;
      while count < n
        invariant count <= n && V() == v0 && S() == s0 && Consistent() && Used(i) && it.inodes[..] == es0
        invariant files[..] == files0[f := files0[f].(off := off0 + count)]
        invariant Copied(buf[..], content, off0, count, buf0)
        invariant Held(i, files[f].off, b, c, c0)
        modifies it.bt, it.bt.blocks, files, buf
      {
        b, c := ReadTurn(f, i, buf, count, b, c, c0, content, off0, buf0);
        count := count + 1;
      }
      Finish(i, files[f].off, b, c, c0);
    }

    /** kernel/fs/read_write.c:14-73 */
    method SysRead(f: nat, buf: array<byte>, buffsize: nat) returns (count: nat)
      requires Valid() && f < files.Length && files[f].count > 0 && buffsize <= buf.Length && Private(buf)
      modifies it.bt, it.bt.blocks, files, buf
      ensures Valid() && SameUse(old(it.bt.State()), it.bt.State())
      ensures V() == old(V()) && it.inodes[..] == old(it.inodes[..]) && S() == old(S())
      ensures files[..] == old(files[..])[f := old(files[f]).(off := old(files[f].off) + count)]
      ensures files[f].inode < it.inodes.Length
      ensures var id := it.inodes[files[f].inode].id;
        && id in S().ino && |S().ino[id].addr| == NADDR
        && var content := Content(S(), id);
        && old(files[f].off) <= |content|
        && count == (if old(files[f].off) + buffsize <= |content| then buffsize else |content| - old(files[f].off))
        && buf[..] == content[old(files[f].off)..old(files[f].off) + count] + old(buf[..])[count..]
    {
      hide Ready, View, Core, InUse, Abs, SameUse, Content, FilesOpen;
      ghost var v0, es0, files0 := V(), it.inodes[..], files[..];
      var i := files[f].inode;
      OpenFileFacts(it.sbs, v0, es0, files0, f);
      AbsIno(it.sbs, v0, es0, own, i);
      var size := it.inodes[i].din.size;
      count := if files[f].off + buffsize >= size then size - files[f].off else buffsize;
      ReadBytes(f, i, buf, count, Content(S(), it.inodes[i].id));
      CursorMoved(it.sbs, v0, es0, files0, f, files0[f].off + count, files[..]);
    }

    /**
     * kernel/fs/read_write.c:145-191, as coded: SEEK_END counts back from the cursor, and offset 0 is refused
     * like every offset outside the file. `None` is its panic.
     */
    method SysSeek(f: nat, offset: int, whence: Whence) returns (r: Option<nat>)
      requires Valid() && f < files.Length && files[f].count > 0
      modifies files
      ensures Valid() && files[f].inode < it.inodes.Length
      ensures var off, size := SeekTo(old(files[f].off), offset, whence), it.inodes[files[f].inode].din.size;
        && (r.Some? <==> 0 < off < size)
        && (r.Some? ==> r.value == off)
        && files[..] == old(files[..])[f := old(files[f]).(off := if r.Some? then off else old(files[f].off))]
    {
      hide Ready, View, Core, InUse, FilesOpen;
      OpenFileFacts(it.sbs, V(), it.inodes[..], files[..], f);
      var off := SeekTo(files[f].off, offset, whence);
      if off <= 0 || off >= it.inodes[files[f].inode].din.size {
        return None;
      }
      ghost var files0 := files[..];
      files[f] := files[f].(off := off);
      CursorMoved(it.sbs, V(), it.inodes[..], files0, f, off, files[..]);
      r := Some(off);
    }

    /**
     * A client: write, put the cursor back, read. The seek is refused exactly when the write began at offset 0
     * or nothing lies beyond the place it began.
     */
    method WriteSeekRead(f: nat, bs: seq<byte>, buf: array<byte>) returns (n: nat, back: bool, m: nat)
      requires Valid() && f < files.Length && files[f].count > 0 && |bs| <= buf.Length && Private(buf)
      modifies this`own, it.bt, it.bt.blocks, it.inodes, files, buf
      ensures Valid() && old(files[f].inode) < it.inodes.Length
      ensures var id := old(it.inodes[files[f].inode].id);
        id in old(S()).ino && id.dev < |old(S()).free| && AsMuchAsFits(old(S()), id, old(files[f].off), |bs|, n)
      ensures back <==> 0 < old(files[f].off) < it.inodes[old(files[f].inode)].din.size
      ensures back ==> m == n && buf[..n] == bs[..n]
    {
      hide Ready, View, Core, InUse, Abs, SameUse, Wrote, Content, Grew, FilesOpen, AsMuchAsFits;
      var off := files[f].off;
      OpenFileFacts(it.sbs, V(), it.inodes[..], files[..], f);
      ghost var s0, i, id := S(), files[f].inode, it.inodes[files[f].inode].id;
      n := SysWrite(f, bs);
      GrewTags(old(it.inodes[..]), it.inodes[..], i);
      WroteBytes(it.sbs, s0, S(), id, off, bs[..n]);
      ghost var content := Content(S(), id);
      var r := SysSeek(f, off, SeekSet);
      back := r.Some?;
      m := 0;
      if back {
        m := SysRead(f, buf, n);
        assert buf[..n] == content[off..off + n];
      }
    }

    // ---------- Inodes come and go ----------

    /** Frees the blocks of entry `i`, one slot at a time: the plan of kernel/fs/inode.c:122-125. */
    method DropBlocks(i: nat)
      requires Ready(it.bt.State()) && Consistent() && InHand(it.inodes[..], i) && i < it.inodes.Length
      modifies this`own, it.bt, it.bt.blocks, it.inodes
      ensures Ready(it.bt.State()) && SameUse(old(it.bt.State()), it.bt.State())
      ensures Consistent() && InHand(it.inodes[..], i)
      ensures |it.inodes[i].din.addr| == NADDR && forall k :: 0 <= k < NADDR ==> it.inodes[i].din.addr[k] == 0
      ensures it.inodes[..] == Edited(old(it.inodes[..]), i, it.inodes[i].din)
      ensures old(CanEmpty(i)) && S() == Emptied(old(S()), old(it.inodes[i].id), NADDR)
    {
      hide Ready, View, Core, InUse, Abs, SameUse, Emptied, ZeroUpto;
      ghost var c0, s0, es0, id := it.bt.State(), S(), it.inodes[..], it.inodes[i].id;
      InHandFacts(it.sbs, V(), it.inodes[..], own, i);
      SameUseSelf(c0);
      Truncate(i);
      var k := 0;
      while k < NADDR
        invariant k <= NADDR
        invariant Ready(it.bt.State()) && SameUse(c0, it.bt.State()) && Consistent() && InHand(it.inodes[..], i)
        invariant it.inodes[..] == Edited(es0, i, it.inodes[i].din)
        invariant it.inodes[i].din.size == 0 && it.inodes[i].din.addr == ZeroUpto(s0.ino[id].addr, k)
        invariant S() == Emptied(s0, id, k)
      {
        ghost var c := it.bt.State();
        EmptiedNext(s0, id, k);
        if it.inodes[i].din.addr[k] != 0 {
          NotBlank(it.sbs, V(), it.inodes[..], own, i);
          DropOne(i, k);
          UsedTag(it.sbs, V(), it.inodes[..], i);
          SameUseTrans(c0, c, it.bt.State());
        } else {
          assert it.inodes[i].din.addr[k := 0] == it.inodes[i].din.addr;
        }
        k := k + 1;
      }
      AllZeroed(s0.ino[id].addr);
    }

    /** Entry `i` names an inode of this state. */
    ghost predicate CanEmpty(i: nat)
      reads this, it, it.bt, it.bt.blocks, it.inodes
    {
      && i < it.inodes.Length && it.inodes[i].id in S().ino
      && |S().ino[it.inodes[i].id].addr| == NADDR && it.inodes[i].id.dev < |S().free|
    }

    /** An inode about to be freed has no contents. */
    method Truncate(i: nat)
      requires Consistent() && InHand(it.inodes[..], i) && i < it.inodes.Length
      modifies it.inodes
      ensures Consistent() && InHand(it.inodes[..], i)
      ensures it.inodes[..] == Edited(old(it.inodes[..]), i, old(it.inodes[i].din).(size := 0))
      ensures old(CanEmpty(i)) && S() == Emptied(old(S()), old(it.inodes[i].id), 0)
      ensures it.inodes[i].din.addr == ZeroUpto(old(S()).ino[old(it.inodes[i].id)].addr, 0)
    {
      hide View, Core, InUse, Abs, Emptied, ZeroUpto;
      ghost var s0, es0, id := S(), it.inodes[..], it.inodes[i].id;
      InHandFacts(it.sbs, V(), it.inodes[..], own, i);
      TruncStep(it.sbs, V(), it.inodes[..], own, i);
      it.inodes[i] := it.inodes[i].(din := it.inodes[i].din.(size := 0), dirty := true);
      assert it.inodes[..] == Edited(es0, i, es0[i].din.(size := 0));
      EmptiedStart(s0, id);
    }

    /** bfree of the block in slot `k`, and the slot cleared. */
    method DropOne(i: nat, k: nat)
      requires Ready(it.bt.State()) && Consistent() && Used(i) && i < it.inodes.Length && k < NADDR
      requires |it.inodes[i].din.addr| == NADDR && it.inodes[i].din.addr[k] != 0 && it.inodes[i].din.size == 0
      modifies this`own, it.bt, it.bt.blocks, it.inodes
      ensures Ready(it.bt.State()) && SameUse(old(it.bt.State()), it.bt.State())
      ensures Consistent() && Used(i)
      ensures it.inodes[..] == Edited(old(it.inodes[..]), i, old(it.inodes[i].din).(addr := old(it.inodes[i].din.addr)[k := 0]))
      ensures old(CanEmpty(i)) && S() == DropBlock(old(S()), old(it.inodes[i].id), k)
    {
      hide Ready, View, Core, InUse, Abs, SameUse, BitWritten;
      ghost var v, es, own0 := V(), it.inodes[..], own;
      var e := it.inodes[i];
      InUseFacts(it.sbs, v, es, own, i);
      SlotBit(it.sbs, v, es, own, i, k);
      ReleasePos(it.bt, e.id.dev, it.sbs[e.id.dev].freeBlk, e.din.addr[k]);
      DropStep(it.sbs, v, V(), es, own, i, k);
      it.inodes[i] := e.(din := e.din.(addr := e.din.addr[k := 0]), dirty := true);
      own := own - {Addr(e.id.dev, e.din.addr[k])};
      assert it.inodes[..] == Edited(es, i, e.din.(addr := e.din.addr[k := 0]));
    }

    /** Gives up one use of entry `i`; the last use an open file relies on must stay. */
    method PutInodeUse(i: nat)
      requires Valid() && i < it.inodes.Length && it.inodes[i].id.num != 0 && it.inodes[i].count > 0
      requires it.inodes[i].count > 1 || !NamedByFile(files[..], i)
      modifies it.bt, it.bt.blocks, it.inodes
      ensures Valid() && SameUse(old(it.bt.State()), it.bt.State()) && S() == old(S())
      ensures it.inodes[..] == LessUsed(old(it.inodes[..]), i)
    {
      hide Ready, View, Core, InUse, Abs, SameUse, SameButTables, SameInodes, Mounted, ICacheInv, FilesOpen;
      ghost var v0, es0 := V(), it.inodes[..];
      CoreParts(it.sbs, v0, es0, own);
      it.Iput(i);
      PutSame(it.sbs, v0, es0, V(), it.inodes[..], own);
      FilesAfterPut(it.sbs, v0, es0, V(), it.inodes[..], i, files[..]);
    }

    /** Takes one use of inode `id`: iget, for the layers above. */
    method GetInodeUse(id: InoId) returns (r: Option<nat>)
      requires Valid() && ValidId(it.sbs, id)
      modifies it.bt, it.bt.blocks, it.inodes
      ensures Valid() && SameUse(old(it.bt.State()), it.bt.State()) && S() == old(S())
      ensures r.None? <==> NoRoom(old(it.inodes[..]), id)
      ensures r.None? ==> it.inodes[..] == old(it.inodes[..])
      ensures r.Some? ==> Gets(old(it.inodes[..]), it.inodes[..], r.value, id)
    {
      hide Ready, View, Core, InUse, Abs, SameUse, SameButTables, SameInodes, Mounted, ICacheInv, FilesOpen, Gets, NoRoom;
      ghost var c0, v0, es0 := it.bt.State(), V(), it.inodes[..];
      CoreParts(it.sbs, v0, es0, own);
      r := it.Iget(id);
      if r.Some? {
        GotSame(it.sbs, v0, es0, V(), it.inodes[..], own, r.value, id);
        SameNumbers(it.sbs, v0, es0, V(), it.inodes[..]);
        FilesAfterGet(it.sbs, v0, es0, V(), it.inodes[..], r.value, id, files[..]);
      }
    }

    /**
     * kernel/fs/open_close.c:94-123. The caller's own use of entry `i` becomes the table's; when the table has
     * the inode already, it is given up. `None`: no free entry, or the entry's count is full.
     */
    method Fget(i: nat, flags: nat) returns (r: Option<nat>)
      requires Valid() && Used(i) && i < it.inodes.Length && Spare(it.inodes[..], files[..], i)
      modifies it.bt, it.bt.blocks, it.inodes, files
      ensures Valid() && SameUse(old(it.bt.State()), it.bt.State()) && S() == old(S())
      ensures r.None? ==> files[..] == old(files[..]) && it.inodes[..] == old(it.inodes[..])
      ensures r.None? <==> FilesFull(old(files[..]), i)
      ensures r.Some? ==> GotFile(old(files[..]), files[..], r.value, i)
      ensures r.Some? && !NamedByFile(old(files[..]), i) ==>
        files[r.value] == File(old(it.inodes[i].din.mode), flags, 1, 0, i) && it.inodes[..] == old(it.inodes[..])
      ensures r.Some? && !NamedByFile(old(files[..]), i) ==> forall f :: 0 <= f < r.value ==> old(files[..])[f].count > 0
      ensures r.Some? && NamedByFile(old(files[..]), i) ==> it.inodes[..] == LessUsed(old(it.inodes[..]), i)
    {
      hide Ready, View, Core, InUse, Abs, SameUse, FilesOpen;
      ghost var v0, es0, files0 := V(), it.inodes[..], files[..];
      SameUseSelf(it.bt.State());
      OnceNamed(it.sbs, v0, es0, files0);
      var empty: Option<nat> := None;
      var f := 0;
      while f < files.Length
        invariant f <= files.Length
        invariant forall g :: 0 <= g < f ==> files[g].count == 0 || files[g].inode != i
        invariant empty.None? ==> forall g :: 0 <= g < f ==> files[g].count > 0
        invariant empty.Some? ==> empty.value < f && files[empty.value].count == 0
        invariant empty.Some? ==> forall g :: 0 <= g < empty.value ==> files[g].count > 0
      {
        if files[f].count > 0 && files[f].inode == i {
          if files[f].count == MAX_COUNT {
            return None;
          }
          files[f] := files[f].(count := files[f].count + 1);
          CountMoved(it.sbs, v0, es0, files0, f, files0[f].count + 1, files[..]);
          UsedTag(it.sbs, v0, es0, i);
          PutInodeUse(i);
          return Some(f);
        } else if empty.None? && files[f].count == 0 {
          empty := Some(f);
        }
        f := f + 1;
      }
      if empty.None? {
        return None;
      }
      files[empty.value] := File(it.inodes[i].din.mode, flags, 1, 0, i);
      FileAdded(it.sbs, v0, es0, files0, empty.value, i, files[..]);
      return empty;
    }

    /** The work of sys_close under the table's lock: kernel/fs/open_close.c:80-87. */
    method Fput(f: nat)
      requires Valid() && f < files.Length && files[f].count > 0
      modifies it.bt, it.bt.blocks, it.inodes, files
      ensures Valid() && SameUse(old(it.bt.State()), it.bt.State()) && S() == old(S())
      ensures old(files[f].count) > 1 ==>
        && files[..] == old(files[..])[f := old(files[f]).(count := old(files[f].count) - 1)]
        && it.inodes[..] == old(it.inodes[..])
      ensures old(files[f].count) == 1 ==>
        && files[..] == old(files[..])[f := File(0, 0, 0, 0, 0)]
        && old(files[f].inode) < it.inodes.Length && old(it.inodes[files[f].inode].count) > 0
        && it.inodes[..] == LessUsed(old(it.inodes[..]), old(files[f].inode))
    {
      hide Ready, View, Core, InUse, Abs, SameUse, FilesOpen;
      ghost var v0, es0, files0 := V(), it.inodes[..], files[..];
      SameUseSelf(it.bt.State());
      OnceNamed(it.sbs, v0, es0, files0);
      OpenFileFacts(it.sbs, v0, es0, files0, f);
      var i := files[f].inode;
      UsedTag(it.sbs, v0, es0, i);
      if files[f].count > 1 {
        files[f] := files[f].(count := files[f].count - 1);
        CountMoved(it.sbs, v0, es0, files0, f, files0[f].count - 1, files[..]);
      } else {
        files[f] := File(0, 0, 0, 0, 0);
        FileGone(it.sbs, v0, es0, files0, f, files[..]);
        PutInodeUse(i);
      }
    }

    /**
     * kernel/fs/inode.c:112-130, carried out as its comments say: the blocks and the number become free, the
     * inode is zeroed on disk, and no entry of the cache names it any more.
     */
    method Ifree(i: nat)
      requires Valid() && i < it.inodes.Length && it.inodes[i].id.num != 0 && it.inodes[i].count > 0
      requires forall f :: 0 <= f < files.Length && files[f].count > 0 ==> files[f].inode != i
      modifies this`own, it.bt, it.bt.blocks, it.inodes
      ensures Valid() && SameUse(old(it.bt.State()), it.bt.State())
      ensures it.inodes[..] == Wiped(old(it.inodes[..]), i)
      ensures old(CanEmpty(i)) && old(it.inodes[i].id.dev < |S().freeIno|)
      ensures S() == Unlinked(Emptied(old(S()), old(it.inodes[i].id), NADDR), old(it.inodes[i].id))
    {
      hide Ready, View, Core, InUse, Abs, SameUse, Emptied, BitWritten, WriteIno, InoBlk, Unlinked, Wiped, AllZero,
        InTable, FilesOpen;
      ghost var c0, v0, es0, s0 := it.bt.State(), V(), it.inodes[..], S();
      InHandFacts(it.sbs, v0, es0, own, i);
      EntriesDiffer(it.sbs, v0, es0, own, i);
      DropBlocks(i);
      ghost var c1, v1, es1 := it.bt.State(), V(), it.inodes[..];
      var id := it.inodes[i].id;
      InHandFacts(it.sbs, v1, es1, own, i);
      CorePlaced(it.sbs, v1, es1, own, id);
      var zeros := Zeros();
      it.PutInode(id, zeros);
      ghost var c2 := it.bt.State();
      SameUseTrans(c0, c1, c2);
      NumBit(it.sbs, v1, View(c2), id, zeros);
      ReleasePos(it.bt, id.dev, it.sbs[id.dev].freeIno, id.num);
      SameUseTrans(c0, c2, it.bt.State());
      WipeStep(it.sbs, v1, V(), es1, own, i, zeros);
      WipedTwice(es0, i, es1[i].din);
      WipedIs(es1, i);
      it.inodes[i] := Inode(NO_INODE, NO_ID, false, 0);
      assert it.inodes[..] == Wiped(es0, i);
      UnlinkedNumbers(s0, id);
      FilesOutlive(it.sbs, v0, es0, V(), it.inodes[..], i, files[..]);
    }

    /**
     * kernel/fs/inode.c:85-110, claiming the number it finds, which is the choice of the scan. When iget has no room for
     * that inode the number is given back, and every byte of the disk is as it was.
     */
    method Ialloc(dev: nat) returns (r: Option<nat>)
      requires Valid() && dev < |it.sbs|
      modifies it.bt, it.bt.blocks, it.inodes
      ensures Valid() && SameUse(old(it.bt.State()), it.bt.State())
      ensures r.None? ==> S() == old(S()) && it.inodes[..] == old(it.inodes[..])
      ensures dev < |old(S()).freeIno|
      ensures r.None? <==> NoNumberFor(old(S()).freeIno[dev], old(it.inodes[..]), dev)
      ensures r.Some? ==> Used(r.value) && r.value < it.inodes.Length && it.inodes[r.value].id.dev == dev
      ensures r.Some? ==> var num := it.inodes[r.value].id.num;
        && Gets(old(it.inodes[..]), it.inodes[..], r.value, InoId(dev, num))
        && Bitmap.IsFirst(old(S()).freeIno[dev], num)
        && S() == old(S()).(freeIno := old(S()).freeIno[dev := old(S()).freeIno[dev] - {num}])
        && it.inodes[r.value].din == NO_INODE
    {
      hide Ready, View, Core, InUse, Abs, SameUse, BitWritten, IsChoice, IsFree, MapOnDisk, Gets, NoRoom, FreeSet, NO_INODE,
        SameButTables, SameInodes, Mounted, ICacheInv, FilesOpen, NoNumberFor, Bitmap.IsFirst;
      ghost var c0, v0, es0, s0 := it.bt.State(), V(), it.inodes[..], S();
      CoreShape(it.sbs, v0, es0, own);
      NumMapOnDisk(it.sbs, v0, es0, own, dev);
      var start := it.sbs[dev].freeIno;
      var p := ClaimPos(it.bt, dev, start, it.sbs[dev].freeInoLen);
      if p.None? {
        FreeIs(it.sbs, v0, es0, dev);
        NoneFor(s0.freeIno[dev], es0, dev);
        return None;
      }
      ghost var c1, v1 := it.bt.State(), V();
      ChoiceIsFree(v0, dev, start, p.value);
      ChoiceIsFirst(v0, dev, start, it.sbs[dev].freeInoLen, p.value);
      NumberStep(it.sbs, v0, v1, es0, own, dev, p.value);
      CoreParts(it.sbs, v1, es0, own);
      NumberFor(s0.freeIno[dev], es0, dev, p.value);
      r := it.Iget(InoId(dev, p.value));
      if r.None? {
        NumBack(it.sbs, v1, dev, p.value, v0);
        ReleasePos(it.bt, dev, start, p.value);
        ReleaseUndoesClaim(v0, v1, V(), dev, start, p.value);
        SameUseTrans(c0, c1, it.bt.State());
      } else {
        SameUseTrans(c0, c1, it.bt.State());
        ghost var id, i := InoId(dev, p.value), r.value;
        GotSame(it.sbs, v1, es0, V(), it.inodes[..], own, i, id);
        NumbersShrink(it.sbs, v0, es0, V(), it.inodes[..], id);
        GotInUse(it.sbs, V(), it.inodes[..], es0, i, id);
        FilesAfterGet(it.sbs, v0, es0, V(), it.inodes[..], i, id, files[..]);
      }
    }
  }

  function Zeros(): (s: seq<byte>)
    ensures |s| == DINODE_SZ && AllZero(s)
  {
    seq(DINODE_SZ, _ => 0)
  }

  lemma CoreParts(sbs: Supers, v: Disk, es: seq<Inode>, own: map<Addr, Owner>)
    requires Core(sbs, v, es, own)
    ensures Mounted(sbs, v) && ICacheInv(sbs, v, es)
  {
  }

  lemma NumMapOnDisk(sbs: Supers, v: Disk, es: seq<Inode>, own: map<Addr, Owner>, dev: nat)
    requires Core(sbs, v, es, own) && dev < |sbs|
    ensures MapOnDisk(v, dev, sbs[dev].freeIno, sbs[dev].freeInoLen)
  {
  }

  /** No number is free, or there is no room in core for the inode of the one the scan chooses. */
  ghost predicate NoNumberFor(nums: set<nat>, es: seq<Inode>, dev: nat) {
    nums == {} || exists num :: Bitmap.IsFirst(nums, num) && NoRoom(es, InoId(dev, num))
  }

  lemma NoneFor(nums: set<nat>, es: seq<Inode>, dev: nat)
    ensures nums == {} ==> NoNumberFor(nums, es, dev)
  {
  }

  lemma NumberFor(nums: set<nat>, es: seq<Inode>, dev: nat, num: nat)
    requires Bitmap.IsFirst(nums, num)
    ensures NoNumberFor(nums, es, dev) <==> NoRoom(es, InoId(dev, num))
  {
    hide NoRoom;
    assert num in nums;
    Bitmap.FirstExists(nums);
  }

  lemma NumBack(sbs: Supers, v: Disk, dev: nat, p: nat, v0: Disk)
    requires dev < |sbs| && BitWritten(v0, v, dev, sbs[dev].freeIno, p, false)
    ensures MapBlock(dev, sbs[dev].freeIno, p) in v
  {
  }

  lemma NumbersShrink(sbs: Supers, v: Disk, es: seq<Inode>, w: Disk, fs: seq<Inode>, id: InoId)
    requires var s, t := Abs(sbs, v, es), Abs(sbs, w, fs);
      id.dev < |s.freeIno| && t.freeIno == s.freeIno[id.dev := s.freeIno[id.dev] - {id.num}]
    ensures id.dev < |sbs| && id.num !in Abs(sbs, w, fs).freeIno[id.dev]
    ensures forall d :: 0 <= d < |sbs| ==> FreeInos(sbs, w)[d] <= FreeInos(sbs, v)[d]
  {
  }

  /** iget changes no state: the entry it returns is the inode asked for, as it was. */
  lemma GotSame(sbs: Supers, v: Disk, es: seq<Inode>, w: Disk, fs: seq<Inode>, own: map<Addr, Owner>, i: nat, id: InoId)
    requires Core(sbs, v, es, own) && id.num != 0
    requires Mounted(sbs, w) && ICacheInv(sbs, w, fs)
    requires SameButTables(sbs, v, w) && SameInodes(sbs, v, es, w, fs) && Gets(es, fs, i, id)
    ensures Core(sbs, w, fs, own) && Abs(sbs, w, fs) == Abs(sbs, v, es)
    ensures i < |fs| && fs[i].id == id && id in Abs(sbs, v, es).ino && Abs(sbs, v, es).ino[id] == fs[i].din
    ensures i < |es| && (es[i].id == id ==> fs[i].din == es[i].din)
  {
    hide InoAt, Mounted, ICacheInv, Sound, SameButTables, SameInodes, FreeBlks, FreeInos, DataOf, Inos;
    AlikeAbs(sbs, v, es, w, fs);
    EntryAbs(sbs, w, fs, i);
    if es[i].id == id {
      EntryAbs(sbs, v, es, i);
    }
  }

  lemma GotInUse(sbs: Supers, w: Disk, fs: seq<Inode>, es: seq<Inode>, i: nat, id: InoId)
    requires Gets(es, fs, i, id) && id.num != 0 && id.dev < |sbs| && id.num !in Abs(sbs, w, fs).freeIno[id.dev]
    ensures i < |fs| && fs[i].id == id && InUse(sbs, w, fs, i)
  {
  }

  /** Open files stay open when an entry nobody used, or the same inode, is handed out again. */
  lemma FilesAfterGet(sbs: Supers, v: Disk, es: seq<Inode>, w: Disk, fs: seq<Inode>, i: nat, id: InoId, files: seq<File>)
    requires Gets(es, fs, i, id) && (es[i].id == id ==> fs[i].din == es[i].din)
    requires forall d :: 0 <= d < |sbs| ==> FreeInos(sbs, w)[d] <= FreeInos(sbs, v)[d]
    requires FilesOpen(sbs, v, es, files)
    ensures FilesOpen(sbs, w, fs, files)
  {
  }

  lemma CorePlaced(sbs: Supers, v: Disk, es: seq<Inode>, own: map<Addr, Owner>, id: InoId)
    requires Core(sbs, v, es, own) && ValidId(sbs, id)
    ensures Mounted(sbs, v) && InoBlk(sbs, id) in v
  {
    InoBlkInTable(sbs, v, id);
  }

  lemma NumBit(sbs: Supers, v: Disk, w: Disk, id: InoId, bs: seq<byte>)
    requires Mounted(sbs, v) && ValidId(sbs, id) && InoBlk(sbs, id) in v && |bs| == DINODE_SZ
    requires w == WriteIno(sbs, v, id, bs)
    ensures MapBlock(id.dev, sbs[id.dev].freeIno, id.num) in w
  {
  }

  lemma WipedTwice(es: seq<Inode>, i: nat, d: DInode)
    requires i < |es|
    ensures Wiped(Edited(es, i, d), i) == Wiped(es, i)
  {
  }

  lemma WipedIs(es: seq<Inode>, i: nat)
    requires i < |es|
    ensures Wiped(es, i) == es[i := Inode(NO_INODE, NO_ID, false, 0)]
  {
  }

  /** No two entries of the cache hold the same inode. */
  lemma EntriesDiffer(sbs: Supers, v: Disk, es: seq<Inode>, own: map<Addr, Owner>, i: nat)
    requires Core(sbs, v, es, own) && i < |es| && es[i].id.num != 0
    ensures forall j :: 0 <= j < |es| && j != i ==> es[j].id != es[i].id
  {
    hide EntryOk, Sound, Mounted;
  }

  lemma CoreShape(sbs: Supers, v: Disk, es: seq<Inode>, own: map<Addr, Owner>)
    requires Core(sbs, v, es, own)
    ensures |Abs(sbs, v, es).freeIno| == |sbs| && |Abs(sbs, v, es).free| == |sbs|
  {
  }

  /** Open files are not touched by freeing an inode none of them names. */
  lemma FilesOutlive(sbs: Supers, v: Disk, es: seq<Inode>, w: Disk, fs: seq<Inode>, i: nat, files: seq<File>)
    requires i < |es| && fs == Wiped(es, i) && es[i].id.num != 0 && es[i].id.dev < |sbs|
    requires forall j :: 0 <= j < |es| && j != i ==> es[j].id != es[i].id
    requires FilesOpen(sbs, v, es, files)
    requires forall f :: 0 <= f < |files| && files[f].count > 0 ==> files[f].inode != i
    requires var s, t, id := Abs(sbs, v, es), Abs(sbs, w, fs), es[i].id;
      id.dev < |s.freeIno| && t.freeIno == s.freeIno[id.dev := s.freeIno[id.dev] + {id.num}]
    ensures FilesOpen(sbs, w, fs, files)
  {
    hide Inos, DataOf, FreeBlks, FreeSet;
    assert |FreeInos(sbs, v)| == |sbs|;
  }

  /** Some live entry names inode entry `i`. */
  ghost predicate NamedByFile(files: seq<File>, i: nat) {
    exists f :: 0 <= f < |files| && files[f].count > 0 && files[f].inode == i
  }

  /** A process holds a use of entry `i` besides the one an open file may hold. */
  ghost predicate Spare(es: seq<Inode>, files: seq<File>, i: nat) {
    i < |es| && es[i].count > if NamedByFile(files, i) then 1 else 0
  }

  function LessUsed(es: seq<Inode>, i: nat): seq<Inode>
    requires i < |es| && es[i].count > 0
  {
    es[i := es[i].(dirty := false, count := es[i].count - 1)]
  }

  /** What fget does to the table: a live entry of the inode gets one more user, or a free entry its first. */
  ghost predicate GotFile(old_: seq<File>, new_: seq<File>, f: nat, i: nat) {
    && |new_| == |old_| && f < |old_|
    && new_ == old_[f := new_[f]]
    && new_[f].inode == i
    && (if NamedByFile(old_, i) then
          old_[f].count > 0 && new_[f] == old_[f].(count := old_[f].count + 1)
        else
          old_[f].count == 0 && new_[f].count == 1 && new_[f].off == 0)
  }

  ghost predicate FilesFull(files: seq<File>, i: nat) {
    if NamedByFile(files, i) then
      exists f :: 0 <= f < |files| && files[f].inode == i && files[f].count == MAX_COUNT
    else
      forall f :: 0 <= f < |files| ==> files[f].count > 0
  }

  lemma OnceNamed(sbs: Supers, v: Disk, es: seq<Inode>, files: seq<File>)
    requires FilesOpen(sbs, v, es, files)
    ensures forall f, g :: 0 <= f < g < |files| && files[f].count > 0 && files[g].count > 0 ==>
      files[f].inode != files[g].inode
    ensures forall f :: 0 <= f < |files| ==> files[f].count <= MAX_COUNT
  {
  }

  lemma UsedTag(sbs: Supers, v: Disk, es: seq<Inode>, i: nat)
    requires InUse(sbs, v, es, i)
    ensures i < |es| && es[i].id.num != 0 && es[i].count > 0
  {
  }

  lemma CountMoved(sbs: Supers, v: Disk, es: seq<Inode>, files: seq<File>, f: nat, n: nat, moved: seq<File>)
    requires FilesOpen(sbs, v, es, files) && f < |files| && files[f].count > 0 && 0 < n <= MAX_COUNT
    requires moved == files[f := files[f].(count := n)]
    ensures FilesOpen(sbs, v, es, moved)
  {
  }

  lemma FileAdded(sbs: Supers, v: Disk, es: seq<Inode>, files: seq<File>, f: nat, i: nat, moved: seq<File>)
    requires FilesOpen(sbs, v, es, files) && f < |files| && InUse(sbs, v, es, i) && !NamedByFile(files, i)
    requires |moved| == |files| && moved == files[f := moved[f]]
    requires moved[f].inode == i && moved[f].count == 1 && moved[f].off == 0
    ensures FilesOpen(sbs, v, es, moved)
  {
  }

  lemma FileGone(sbs: Supers, v: Disk, es: seq<Inode>, files: seq<File>, f: nat, moved: seq<File>)
    requires FilesOpen(sbs, v, es, files) && f < |files| && files[f].count > 0 && moved == files[f := File(0, 0, 0, 0, 0)]
    ensures FilesOpen(sbs, v, es, moved) && !NamedByFile(moved, files[f].inode)
  {
  }

  lemma PutSame(sbs: Supers, v: Disk, es: seq<Inode>, w: Disk, fs: seq<Inode>, own: map<Addr, Owner>)
    requires Core(sbs, v, es, own) && Mounted(sbs, w) && ICacheInv(sbs, w, fs)
    requires SameButTables(sbs, v, w) && SameInodes(sbs, v, es, w, fs)
    ensures Core(sbs, w, fs, own) && Abs(sbs, w, fs) == Abs(sbs, v, es) && FreeInos(sbs, w) == FreeInos(sbs, v)
  {
    hide InoAt, Mounted, ICacheInv, Sound, SameButTables, SameInodes, FreeBlks, FreeInos, DataOf, Inos;
    AlikeAbs(sbs, v, es, w, fs);
  }

  lemma FilesAfterPut(sbs: Supers, v: Disk, es: seq<Inode>, w: Disk, fs: seq<Inode>, i: nat, files: seq<File>)
    requires FilesOpen(sbs, v, es, files) && FreeInos(sbs, w) == FreeInos(sbs, v)
    requires i < |es| && es[i].count > 0 && fs == LessUsed(es, i)
    requires es[i].count > 1 || !NamedByFile(files, i)
    ensures FilesOpen(sbs, w, fs, files)
  {
  }

  lemma SameNumbers(sbs: Supers, v: Disk, es: seq<Inode>, w: Disk, fs: seq<Inode>)
    requires Abs(sbs, v, es) == Abs(sbs, w, fs)
    ensures forall d :: 0 <= d < |sbs| ==> FreeInos(sbs, w)[d] <= FreeInos(sbs, v)[d]
  {
  }

  lemma UnlinkedNumbers(s: State, id: InoId)
    requires id in s.ino && NADDR <= |s.ino[id].addr| && id.dev < |s.free| && id.dev < |s.freeIno|
    ensures Unlinked(Emptied(s, id, NADDR), id).freeIno == s.freeIno[id.dev := s.freeIno[id.dev] + {id.num}]
  {
  }

  /** Open files lead where they did when the entries they name keep their inodes. */
  lemma OpenKept(files: seq<File>, es: seq<Inode>, fs: seq<Inode>)
    requires |fs| == |es|
    requires forall f :: 0 <= f < |files| && files[f].count > 0 && files[f].inode < |es| ==>
      fs[files[f].inode].id == es[files[f].inode].id
    ensures OpenOf(files, fs) == OpenOf(files, es)
  {
  }

  /** An entry an open file names is in use, so iget does not recycle it. */
  lemma OpenAfterGet(sbs: Supers, v: Disk, es: seq<Inode>, fs: seq<Inode>, files: seq<File>, i: nat, id: InoId)
    requires FilesOpen(sbs, v, es, files) && Gets(es, fs, i, id)
    ensures OpenOf(files, fs) == OpenOf(files, es)
  {
    hide FreeInos, OpenOf;
    forall f | 0 <= f < |files| && files[f].count > 0 && files[f].inode < |es|
      ensures fs[files[f].inode].id == es[files[f].inode].id
    {
      assert OpenFile(sbs, v, es, files[f]);
    }
    OpenKept(files, es, fs);
  }

  lemma OpenAfterPut(files: seq<File>, es: seq<Inode>, i: nat)
    requires i < |es| && es[i].count > 0
    ensures OpenOf(files, LessUsed(es, i)) == OpenOf(files, es)
  {
  }

  /** Moving one cursor inside its file leaves the table well formed. */
  lemma CursorMoved(sbs: Supers, v: Disk, es: seq<Inode>, files: seq<File>, f: nat, off: nat, moved: seq<File>)
    requires FilesOpen(sbs, v, es, files)
    requires f < |files| && files[f].inode < |es| && off <= es[files[f].inode].din.size
    requires moved == files[f := files[f].(off := off)]
    ensures FilesOpen(sbs, v, es, moved)
  {
  }

  lemma WroteBytes(sbs: Supers, s: State, t: State, id: InoId, off: nat, bs: seq<byte>)
    requires Wrote(sbs, s, t, id, off, bs)
    ensures id in t.ino && |t.ino[id].addr| == NADDR
    ensures off + |bs| <= |Content(t, id)| && Content(t, id)[off..off + |bs|] == bs
  {
  }

  lemma AllZeroed(addr: seq<nat>)
    requires |addr| == NADDR
    ensures forall k :: 0 <= k < NADDR ==> ZeroUpto(addr, NADDR)[k] == 0
  {
  }

  lemma AbsIno(sbs: Supers, v: Disk, es: seq<Inode>, own: map<Addr, Owner>, i: nat)
    requires Core(sbs, v, es, own) && InUse(sbs, v, es, i)
    ensures var s, id := Abs(sbs, v, es), es[i].id;
      id in s.ino && |s.ino[id].addr| == NADDR && |Content(s, id)| == es[i].din.size <= MAX_SIZE
  {
    InUseFacts(sbs, v, es, own, i);
  }

  lemma GrewTags(es: seq<Inode>, fs: seq<Inode>, i: nat)
    requires Grew(es, fs) && i < |es|
    ensures i < |fs| && fs[i].id == es[i].id && fs[i].din.size >= es[i].din.size
  {
  }

  lemma OpenFileFacts(sbs: Supers, v: Disk, es: seq<Inode>, files: seq<File>, f: nat)
    requires FilesOpen(sbs, v, es, files) && f < |files| && files[f].count > 0
    ensures InUse(sbs, v, es, files[f].inode) && files[f].inode < |es| && files[f].off <= es[files[f].inode].din.size
  {
  }

  /** A cursor past the last slot is at the largest size a file can have. */
  lemma AtLimit(sbs: Supers, v: Disk, es: seq<Inode>, own: map<Addr, Owner>, i: nat, off: nat)
    requires Core(sbs, v, es, own) && InUse(sbs, v, es, i) && off <= es[i].din.size && off / BLK_SZ >= NADDR
    ensures off == MAX_SIZE
  {
    hide Core;
    InUseFacts(sbs, v, es, own, i);
    hide Fits, Abs;
  }

  /** Files open before a write are open after it. */
  lemma FilesStayOpen(sbs: Supers, v: Disk, es: seq<Inode>, w: Disk, fs: seq<Inode>, id: InoId, off: nat, bs: seq<byte>,
                      files: seq<File>)
    requires Wrote(sbs, Abs(sbs, v, es), Abs(sbs, w, fs), id, off, bs) && Grew(es, fs)
    requires FilesOpen(sbs, v, es, files)
    ensures FilesOpen(sbs, w, fs, files)
  {
    hide Inos, DataOf, FreeBlks, FreeInos, Splice, ContentOf;
  }

  /** Storing through the handle is storing into the block, whatever was stored through it before. */
  lemma Twice(u: Disk, v: Disk, a: Addr, b: Block)
    requires a in u && a in v && v == u[a := v[a]]
    ensures v[a := b] == u[a := b]
  {
  }

  lemma HoldingData(c: Cache, d: Cache, h: nat, a: Addr)
    requires Holding(c, d, h, a)
    ensures h < |d.bufs| && a in View(c) && View(d) == View(c)[a := d.bufs[h].data] && View(d)[a] == d.bufs[h].data
  {
  }

  lemma HoldingView(c: Cache, d: Cache, h: nat, a: Addr)
    requires Holding(c, d, h, a)
    ensures h < |d.bufs| && View(d) == View(c)[a := d.bufs[h].data]
  {
  }

  /** The free map of a device is on its disk. */
  lemma FreeMapOnDisk(sbs: Supers, v: Disk, es: seq<Inode>, own: map<Addr, Owner>, dev: nat)
    requires Core(sbs, v, es, own) && dev < |sbs|
    ensures MapOnDisk(v, dev, sbs[dev].freeBlk, sbs[dev].freeBlkLen)
  {
  }

  /** With no free block the write stops where it is. */
  lemma NoneLeft(sbs: Supers, v: Disk, es: seq<Inode>, own: map<Addr, Owner>, i: nat)
    requires Core(sbs, v, es, own) && InUse(sbs, v, es, i)
    requires FreeSet(v, es[i].id.dev, sbs[es[i].id.dev].freeBlk, sbs[es[i].id.dev].freeBlkLen) == {}
    ensures es[i].id.dev < |Abs(sbs, v, es).free| && Abs(sbs, v, es).free[es[i].id.dev] == {}
  {
    hide Core, Inos, DataOf, FreeSet;
  }

  lemma StillWrote(sbs: Supers, v: Disk, es: seq<Inode>, own: map<Addr, Owner>, i: nat, off: nat)
    requires Core(sbs, v, es, own) && InUse(sbs, v, es, i) && off <= es[i].din.size
    ensures Wrote(sbs, Abs(sbs, v, es), Abs(sbs, v, es), es[i].id, off, [])
  {
    hide Wrote, Core, Abs, Shaped;
    InUseFacts(sbs, v, es, own, i);
    WroteNothing(sbs, Abs(sbs, v, es), es[i].id, off);
  }

  lemma StillTaking(sbs: Supers, v: Disk, es: seq<Inode>, own: map<Addr, Owner>, i: nat, off: nat)
    requires Core(sbs, v, es, own) && InUse(sbs, v, es, i) && off <= es[i].din.size
    ensures WroteTaking(sbs, Abs(sbs, v, es), Abs(sbs, v, es), es[i].id, off, [], {})
  {
    hide WroteTaking, Core, Abs;
    StillWrote(sbs, v, es, own, i, off);
    var s, id := Abs(sbs, v, es), es[i].id;
    assert Wrote(sbs, s, s, id, off, []);
    assert Missing(s.ino[id].addr, off, 0) == {};
  }
}

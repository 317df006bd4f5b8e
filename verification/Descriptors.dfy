/** File descriptors: sys_open, sys_close and fdget of kernel/fs/open_close.c. */
module Descriptors {
  import opened Blocks
  import opened CacheClient
  import opened InodeSpec
  import opened FsState
  import opened FileSteps
  import opened FileSys

  /** kernel/include/param.h:9 */
  const NR_OFILES: nat := 128

  /** Slot `fd` of `p_filp` in the process `pid` (kernel/include/sched.h:94). */
  datatype Desc = Desc(pid: nat, fd: nat)

  /** The slots that point at entry `f`. */
  function Users(filp: map<Desc, nat>, f: nat): set<Desc> {
    set d | d in filp && filp[d] == f
  }

  /** Every slot points into the table, and every entry counts the slots that point at it. */
  ghost predicate Counted(filp: map<Desc, nat>, files: seq<File>) {
    && (forall d :: d in filp ==> d.fd < NR_OFILES && filp[d] < |files|)
    && (forall f :: 0 <= f < |files| ==> files[f].count == |Users(filp, f)|)
  }

  /** The process has no descriptor left to give out. */
  ghost predicate NoSlot(filp: map<Desc, nat>, pid: nat) {
    forall fd :: 3 <= fd < NR_OFILES ==> Desc(pid, fd) in filp
  }

  ghost predicate IsLowest(filp: map<Desc, nat>, pid: nat, fd: nat) {
    && 3 <= fd < NR_OFILES && Desc(pid, fd) !in filp
    && (forall k :: 3 <= k < fd ==> Desc(pid, k) in filp)
  }

  lemma SlotAdded(filp: map<Desc, nat>, files: seq<File>, d: Desc, f: nat, after: seq<File>)
    requires Counted(filp, files) && d !in filp && d.fd < NR_OFILES && f < |files|
    requires |after| == |files| && after == files[f := after[f]] && after[f].count == files[f].count + 1
    ensures Counted(filp[d := f], after)
  {
    var now := filp[d := f];
    forall g | 0 <= g < |after| ensures after[g].count == |Users(now, g)| {
      if g == f {
        assert Users(now, f) == Users(filp, f) + {d};
      } else {
        assert Users(now, g) == Users(filp, g);
      }
    }
  }

  lemma SlotRemoved(filp: map<Desc, nat>, files: seq<File>, d: Desc, after: seq<File>)
    requires Counted(filp, files) && d in filp
    requires var f := filp[d]; |after| == |files| && after == files[f := after[f]] && after[f].count == files[f].count - 1
    ensures Counted(filp - {d}, after)
  {
    var now, f := filp - {d}, filp[d];
    forall g | 0 <= g < |after| ensures after[g].count == |Users(now, g)| {
      if g == f {
        assert Users(filp, f) == Users(now, f) + {d};
      } else {
        assert Users(now, g) == Users(filp, g);
      }
    }
  }

  lemma NoneOpen(files: seq<File>)
    requires forall f :: 0 <= f < |files| ==> files[f].count == 0
    ensures Counted(map[], files)
  {
    forall f | 0 <= f < |files| ensures Users(map[], f) == {} { }
  }

  /** `p_filp` of every process, over the open-file table. An absent slot is NULL. */
  class DescriptorTable {
    const fs: FileSystem
    var filp: map<Desc, nat>

    ghost predicate Valid()
      reads this, fs, fs.it, fs.it.bt, fs.it.bt.blocks, fs.it.inodes, fs.files
    {
      fs.Valid() && Counted(filp, fs.files[..])
    }

    constructor (fs: FileSystem)
      requires fs.Valid() && forall f :: 0 <= f < fs.files.Length ==> fs.files[f].count == 0
      ensures this.fs == fs && filp == map[] && Valid()
    {
      hide Counted, FileSystem.Valid;
      this.fs := fs;
      filp := map[];
      new;
      NoneOpen(fs.files[..]);
    }

    /** kernel/fs/open_close.c:125-137 */
    method Fdget(pid: nat) returns (r: Option<nat>)
      ensures r.None? <==> NoSlot(filp, pid)
      ensures r.Some? ==> IsLowest(filp, pid, r.value)
    {
      var fd := 3;
      while fd < NR_OFILES
        invariant 3 <= fd <= NR_OFILES
        invariant forall k :: 3 <= k < fd ==> Desc(pid, k) in filp
      {
        if Desc(pid, fd) !in filp {
          return Some(fd);
        }
        fd := fd + 1;
      }
      return None;
    }

    /**
     * kernel/fs/open_close.c:41-57, from the inode namei found on: the caller's use of entry `i` passes to the
     * open file, or is given up when the open fails or finds the file open already.
     */
    method SysOpen(pid: nat, i: nat, flags: nat) returns (r: Option<nat>)
      requires Valid() && fs.Used(i) && i < fs.it.inodes.Length && Spare(fs.it.inodes[..], fs.files[..], i)
      modifies this, fs.it.bt, fs.it.bt.blocks, fs.it.inodes, fs.files
      ensures Valid() && fs.S() == old(fs.S()) && SameUse(old(fs.it.bt.State()), fs.it.bt.State())
      ensures r.None? <==> FilesFull(old(fs.files[..]), i) || NoSlot(old(filp), pid)
      ensures r.None? ==> filp == old(filp)
      ensures r.Some? ==> IsLowest(old(filp), pid, r.value)
      ensures r.Some? ==> var d := Desc(pid, r.value);
        && d in filp && filp == old(filp)[d := filp[d]]
        && GotFile(old(fs.files[..]), fs.files[..], filp[d], i)
      ensures NamedByFile(old(fs.files[..]), i) || r.None? ==>
        old(fs.it.inodes[i].count) > 0 && fs.it.inodes[..] == LessUsed(old(fs.it.inodes[..]), i)
      ensures !NamedByFile(old(fs.files[..]), i) && r.Some? ==>
        fs.it.inodes[..] == old(fs.it.inodes[..])
        && fs.files[filp[Desc(pid, r.value)]] == File(old(fs.it.inodes[i].din.mode), flags, 1, 0, i)
      ensures r.None? ==> OpenOf(fs.files[..], fs.it.inodes[..]) == old(OpenOf(fs.files[..], fs.it.inodes[..]))
    {
      hide Counted, GotFile, FilesFull, NamedByFile, Spare, LessUsed, Abs, InUse, FileSystem.Valid, FileSystem.S, OpenOf,
        SameUse;
      ghost var c0, files0, es0 := fs.it.bt.State(), fs.files[..], fs.it.inodes[..];
      SpareUse(es0, files0, i);
      UsedTag(fs.it.sbs, fs.V(), es0, i);
      OpenAfterPut(files0, es0, i);
      var f := fs.Fget(i, flags);
      ghost var c1 := fs.it.bt.State();
      if f.None? {
        fs.PutInodeUse(i);
        SameUseTrans(c0, c1, fs.it.bt.State());
        return None;
      }
      ghost var files1 := fs.files[..];
      GotFileFacts(files0, files1, f.value, i);
      var fd := Fdget(pid);
      if fd.None? {
        fs.Fput(f.value);
        SameUseTrans(c0, c1, fs.it.bt.State());
        CountsBack(filp, files0, fs.files[..], f.value);
        OpenBack(files0, fs.files[..], es0, f.value);
        OpenAfterPut(fs.files[..], es0, i);
        return None;
      }
      SlotAdded(filp, files0, Desc(pid, fd.value), f.value, files1);
      filp := filp[Desc(pid, fd.value) := f.value];
      return fd;
    }

    /** kernel/fs/open_close.c:67-92, with the slot cleared. `false` is its panic. */
    method SysClose(pid: nat, fd: int) returns (ok: bool)
      requires Valid()
      modifies this, fs.it.bt, fs.it.bt.blocks, fs.it.inodes, fs.files
      ensures Valid() && fs.S() == old(fs.S()) && SameUse(old(fs.it.bt.State()), fs.it.bt.State())
      ensures ok <==> 0 <= fd < NR_OFILES && Desc(pid, fd) in old(filp)
      ensures !ok ==> filp == old(filp) && fs.files[..] == old(fs.files[..]) && fs.it.inodes[..] == old(fs.it.inodes[..])
      ensures ok ==>
        Closed(old(filp), old(fs.files[..]), old(fs.it.inodes[..]), filp, fs.files[..], fs.it.inodes[..], Desc(pid, fd))
    {
      hide Abs, LessUsed, FileSystem.Valid, FileSystem.S, Counted, SameUse;
      ghost var es0 := fs.it.inodes[..];
      SameUseSelf(fs.it.bt.State());
      if fd >= NR_OFILES || fd < 0 || Desc(pid, fd) !in filp {
        return false;
      }
      var d := Desc(pid, fd);
      var f := filp[d];
      ghost var files0, filp0 := fs.files[..], filp;
      LiveSlot(filp, files0, d);
      fs.Fput(f);
      SlotRemoved(filp, files0, d, fs.files[..]);
      filp := filp - {d};
      LastUser(filp0, files0, d);
      assert Closed(filp0, files0, es0, filp, fs.files[..], fs.it.inodes[..], d);
      return true;
    }
  }

  /** Slot `d` closed: the inode loses a use when, and only when, no slot points at the entry any more. */
  ghost predicate Closed(filp: map<Desc, nat>, files: seq<File>, es: seq<Inode>, filp': map<Desc, nat>, files': seq<File>,
                         es': seq<Inode>, d: Desc)
  {
    && d in filp && filp' == filp - {d}
    && filp[d] < |files| && |files'| == |files|
    && var f := filp[d];
      if Users(filp', f) == {} then
        && files[f].inode < |es| && es[files[f].inode].count > 0
        && es' == LessUsed(es, files[f].inode) && files' == files[f := File(0, 0, 0, 0, 0)]
      else
        es' == es && files' == files[f := files[f].(count := |Users(filp', f)|)]
  }

  lemma SpareUse(es: seq<Inode>, files: seq<File>, i: nat)
    requires Spare(es, files, i)
    ensures i < |es| && es[i].count > 0 && (es[i].count > 1 || !NamedByFile(files, i))
  {
  }

  lemma GotFileFacts(files: seq<File>, after: seq<File>, f: nat, i: nat)
    requires GotFile(files, after, f, i)
    ensures |after| == |files| && f < |files| && after == files[f := after[f]] && after[f].inode == i
    ensures after[f].count == files[f].count + 1
    ensures NamedByFile(files, i) ==> files[f].count > 0 && after[f] == files[f].(count := files[f].count + 1)
    ensures !NamedByFile(files, i) ==> files[f].count == 0
  {
  }

  lemma CountsBack(filp: map<Desc, nat>, files: seq<File>, after: seq<File>, f: nat)
    requires Counted(filp, files) && |after| == |files| && f < |files|
    requires after == files[f := after[f]] && after[f].count == files[f].count
    ensures Counted(filp, after)
  {
  }

  /** An entry given out and given back leads nowhere new. */
  lemma OpenBack(files: seq<File>, after: seq<File>, es: seq<Inode>, f: nat)
    requires |after| == |files| && f < |files| && after == files[f := after[f]]
    requires after[f].count == files[f].count && (files[f].count > 0 ==> after[f] == files[f])
    ensures OpenOf(after, es) == OpenOf(files, es)
  {
  }

  /** A slot that is set points at a live entry. */
  lemma LiveSlot(filp: map<Desc, nat>, files: seq<File>, d: Desc)
    requires Counted(filp, files) && d in filp
    ensures filp[d] < |files| && files[filp[d]].count > 0
  {
    assert d in Users(filp, filp[d]);
  }

  /** The last slot is the one that leaves no users. */
  lemma LastUser(filp: map<Desc, nat>, files: seq<File>, d: Desc)
    requires Counted(filp, files) && d in filp
    ensures files[filp[d]].count == 1 <==> Users(filp - {d}, filp[d]) == {}
    ensures |Users(filp - {d}, filp[d])| == files[filp[d]].count - 1
  {
    var f := filp[d];
    assert Users(filp, f) == Users(filp - {d}, f) + {d};
  }
}

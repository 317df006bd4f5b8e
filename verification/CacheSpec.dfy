/** The block buffer cache of kernel/fs/block.c as a function of its state. */
module CacheSpec {
  import opened Blocks

  /** `struct buffer` (kernel/include/fs.h:130-143), less its lock. */
  datatype Buffer = Buffer(data: Block, addr: Addr, dirty: bool, count: nat)

  function Empty(): Buffer {
    Buffer(ZeroBlock(), NO_ADDR, false, 0)
  }

  datatype Cache = Cache(disk: Disk, bufs: seq<Buffer>)

  // ---------- The two scans of bget ----------

  function FindTag(bufs: seq<Buffer>, a: Addr, i: nat): (r: nat)
    requires i <= |bufs|
    ensures i <= r <= |bufs|
    ensures r < |bufs| ==> bufs[r].addr == a
    ensures forall j :: i <= j < r ==> bufs[j].addr != a
    decreases |bufs| - i
  {
    if i == |bufs| || bufs[i].addr == a then i else FindTag(bufs, a, i + 1)
  }

  function FindFree(bufs: seq<Buffer>, i: nat): (r: nat)
    requires i <= |bufs|
    ensures i <= r <= |bufs|
    ensures r < |bufs| ==> bufs[r].count == 0
    ensures forall j :: i <= j < r ==> bufs[j].count != 0
    decreases |bufs| - i
  {
    if i == |bufs| || bufs[i].count == 0 then i else FindFree(bufs, i + 1)
  }

  // ---------- Invariant and abstraction ----------

  ghost predicate Tags(c: Cache) {
    && NO_ADDR !in c.disk
    && (forall i :: 0 <= i < |c.bufs| && c.bufs[i].addr != NO_ADDR ==> c.bufs[i].addr in c.disk)
    && (forall i :: 0 <= i < |c.bufs| && c.bufs[i].addr == NO_ADDR ==> c.bufs[i] == Empty())
    && (forall i, j :: 0 <= i < j < |c.bufs| && c.bufs[i].addr == c.bufs[j].addr ==> c.bufs[i].addr == NO_ADDR)
    && (forall i :: 0 <= i < |c.bufs| ==> c.bufs[i].count <= MAX_COUNT)
  }

  /** Every clean buffer but number `h` holds what its disk block holds. */
  ghost predicate CleanBut(c: Cache, h: int)
    requires Tags(c)
  {
    forall i :: 0 <= i < |c.bufs| && i != h && c.bufs[i].addr != NO_ADDR && !c.bufs[i].dirty ==>
      c.bufs[i].data == c.disk[c.bufs[i].addr]
  }

  ghost predicate Inv(c: Cache) {
    Tags(c) && CleanBut(c, -1)
  }

  /** What a reader of block `a` is entitled to see: cached data if present, else disk. */
  function ViewAt(c: Cache, a: Addr): Block
    requires a in c.disk
  {
    var i := FindTag(c.bufs, a, 0);
    if i < |c.bufs| then c.bufs[i].data else c.disk[a]
  }

  /** The disk an uncached machine would have. */
  function View(c: Cache): Disk {
    map a | a in c.disk :: ViewAt(c, a)
  }

  /** A buffer some process is using: its handle is live. */
  predicate Live(c: Cache, h: nat) {
    h < |c.bufs| && c.bufs[h].count > 0 && c.bufs[h].addr != NO_ADDR
  }

  // ---------- Operations ----------

  function Flush(disk: Disk, b: Buffer): Disk {
    if b.dirty then disk[b.addr := b.data] else disk
  }

  /** kernel/fs/block.c:139-164; `None` is its panic. */
  function Bget(c: Cache, a: Addr): (r: Option<(Cache, nat)>)
    ensures r.Some? ==> |r.value.0.bufs| == |c.bufs| && r.value.1 < |c.bufs| && r.value.0.bufs[r.value.1].addr == a
  {
    var t := FindTag(c.bufs, a, 0);
    if t < |c.bufs| then Some((c, t))
    else
      var f := FindFree(c.bufs, 0);
      if f < |c.bufs| then
        Some((Cache(Flush(c.disk, c.bufs[f]), c.bufs[f := c.bufs[f].(addr := a, dirty := false)]), f))
      else None
  }

  /** First use of a buffer: flush, then read the block in; kernel/fs/block.c:25-28. */
  function Load(c: Cache, h: nat): Cache
    requires h < |c.bufs| && c.bufs[h].addr in c.disk
  {
    var b := c.bufs[h];
    var disk := Flush(c.disk, b);
    Cache(disk, c.bufs[h := b.(data := disk[b.addr], dirty := false)])
  }

  function Bump(c: Cache, h: nat): Cache
    requires h < |c.bufs|
  {
    c.(bufs := c.bufs[h := c.bufs[h].(count := c.bufs[h].count + 1)])
  }

  /** kernel/fs/block.c:20-31 */
  function Bread(c: Cache, a: Addr): (r: Option<(Cache, nat)>)
    requires a in c.disk
    ensures r.Some? ==> |r.value.0.bufs| == |c.bufs| && r.value.1 < |c.bufs| && r.value.0.bufs[r.value.1].addr == a
  {
    match Bget(c, a)
    case None => None
    case Some((c1, h)) =>
      if c1.bufs[h].count == MAX_COUNT then None
      else if c1.bufs[h].count == 0 then Some((Bump(Load(c1, h), h), h))
      else Some((Bump(c1, h), h))
  }

  /** bget for a block whose contents do not matter: zero it instead of reading it (kernel/fs/block.c:103, 127-137). */
  function Bzero(c: Cache, a: Addr): (r: Option<(Cache, nat)>)
    ensures r.Some? ==> |r.value.0.bufs| == |c.bufs| && r.value.1 < |c.bufs| && r.value.0.bufs[r.value.1].addr == a
  {
    match Bget(c, a)
    case None => None
    case Some((c1, h)) =>
      if c1.bufs[h].count == MAX_COUNT then None
      else Some((c1.(bufs := c1.bufs[h := Buffer(ZeroBlock(), a, true, c1.bufs[h].count + 1)]), h))
  }

  /** A store through a handle: `b->b_data[i] = v` together with `b->b_dirty = 1`. */
  function Store(c: Cache, h: nat, i: nat, v: byte): Cache
    requires Live(c, h) && i < BLK_SZ
  {
    var b := c.bufs[h];
    c.(bufs := c.bufs[h := b.(data := b.data[i := v], dirty := true)])
  }

  /** kernel/fs/block.c:36-56 */
  function Bwrite(c: Cache, h: nat): Cache
    requires Live(c, h)
  {
    var b := c.bufs[h];
    if !b.dirty then c
    else
      Cache(c.disk[b.addr := b.data],
            c.bufs[h := if b.count == 1 then Empty() else b.(dirty := false, count := b.count - 1)])
  }

  /** kernel/fs/block.c:68-79 */
  function Brelease(c: Cache, h: nat): Cache
    requires Live(c, h)
  {
    c.(bufs := c.bufs[h := c.bufs[h].(count := c.bufs[h].count - 1)])
  }

  // ---------- What each operation does to the view ----------

  ghost predicate Cached(c: Cache, a: Addr) {
    exists i :: 0 <= i < |c.bufs| && c.bufs[i].addr == a
  }

  lemma ViewOfTag(c: Cache, i: nat)
    requires Tags(c) && i < |c.bufs| && c.bufs[i].addr != NO_ADDR
    ensures FindTag(c.bufs, c.bufs[i].addr, 0) == i
    ensures ViewAt(c, c.bufs[i].addr) == c.bufs[i].data
  {
  }

  lemma ViewOfDisk(c: Cache, a: Addr)
    requires a in c.disk && !Cached(c, a)
    ensures ViewAt(c, a) == c.disk[a]
  {
  }

  /** Changing buffer `h` alone (and disk blocks that `h` shadowed) leaves every view but those of its two tags. */
  lemma ViewElsewhere(c: Cache, d: Cache, h: nat, x: Addr)
    requires Tags(c) && Tags(d) && c.disk.Keys == d.disk.Keys && x in c.disk
    requires h < |c.bufs| && |c.bufs| == |d.bufs|
    requires forall i :: 0 <= i < |c.bufs| && i != h ==> d.bufs[i] == c.bufs[i]
    requires x != c.bufs[h].addr && x != d.bufs[h].addr
    requires d.disk[x] == c.disk[x]
    ensures ViewAt(d, x) == ViewAt(c, x)
  {
  }

  /** bget keeps the invariant, except that a recycled buffer still holds another block's data. */
  lemma BgetInv(c: Cache, a: Addr)
    requires Inv(c) && a in c.disk && Bget(c, a).Some?
    ensures var (d, h) := Bget(c, a).value;
      && Tags(d) && CleanBut(d, h)
      && d.disk.Keys == c.disk.Keys
      && |d.bufs| == |c.bufs| && h < |c.bufs| && d.bufs[h].addr == a
      && (forall i :: 0 <= i < |c.bufs| && i != h ==> d.bufs[i] == c.bufs[i])
      && (c.bufs[h].addr == a ==> d == c)
      && (c.bufs[h].addr != a ==> !Cached(c, a) && c.bufs[h].count == d.bufs[h].count == 0 && !d.bufs[h].dirty)
      && (c.bufs[h].addr != a ==> forall i :: 0 <= i < h ==> c.bufs[i].count > 0)
  {
  }

  lemma BgetView(c: Cache, a: Addr, x: Addr)
    requires Inv(c) && a in c.disk && Bget(c, a).Some? && x in c.disk
    ensures var (d, h) := Bget(c, a).value;
      && x in d.disk
      && (x != a ==> ViewAt(d, x) == ViewAt(c, x))
      && (c.bufs[h].addr != a ==> d.disk[a] == ViewAt(c, a))
  {
    BgetInv(c, a);
    var (d, h) := Bget(c, a).value;
    if c.bufs[h].addr != a {
      ViewOfDisk(c, a);
      var old_tag := c.bufs[h].addr;
      if x == old_tag {
        ViewOfTag(c, h);
        assert !Cached(d, x);
        ViewOfDisk(d, x);
      } else if x != a {
        ViewElsewhere(c, d, h, x);
      }
    }
  }

  /** What every handle operation leaves alone: the disk's extent, and every buffer in use but `h`. */
  ghost predicate Touches(c: Cache, d: Cache, h: nat) {
    && d.disk.Keys == c.disk.Keys
    && |d.bufs| == |c.bufs| && h < |c.bufs|
    && (forall i :: 0 <= i < |c.bufs| && i != h ==> d.bufs[i] == c.bufs[i])
  }

  /** Re-filling a buffer that keeps its tag keeps the tags, and every view but its own. */
  lemma SameTag(c: Cache, d: Cache, h: nat)
    requires Tags(c) && Touches(c, d, h)
    requires d.bufs[h].addr == c.bufs[h].addr != NO_ADDR && d.bufs[h].count <= MAX_COUNT
    ensures Tags(d)
  {
  }

  lemma SameTagView(c: Cache, d: Cache, h: nat)
    requires Tags(c) && Tags(d) && Touches(c, d, h)
    requires d.bufs[h].addr == c.bufs[h].addr != NO_ADDR
    requires forall x :: x in c.disk && x != c.bufs[h].addr ==> d.disk[x] == c.disk[x]
    ensures forall x :: x in c.disk && x != c.bufs[h].addr ==> ViewAt(d, x) == ViewAt(c, x)
    ensures c.bufs[h].addr in c.disk
    ensures ViewAt(c, c.bufs[h].addr) == c.bufs[h].data && ViewAt(d, c.bufs[h].addr) == d.bufs[h].data
  {
    assert c.bufs[h].addr in c.disk;
    hide Tags, FindTag;
    ViewOfTag(c, h);
    ViewOfTag(d, h);
    forall x | x in c.disk && x != c.bufs[h].addr ensures ViewAt(d, x) == ViewAt(c, x) {
      ViewElsewhere(c, d, h, x);
    }
  }

  lemma CleanKept(c: Cache, d: Cache, h: nat)
    requires Tags(c) && Tags(d) && Touches(c, d, h) && CleanBut(c, h)
    requires forall i :: 0 <= i < |c.bufs| && i != h && c.bufs[i].addr != NO_ADDR ==>
      d.disk[c.bufs[i].addr] == c.disk[c.bufs[i].addr]
    requires d.bufs[h].addr != NO_ADDR && !d.bufs[h].dirty ==> d.bufs[h].data == d.disk[d.bufs[h].addr]
    ensures Inv(d)
  {
  }

  lemma LoadEffect(c: Cache, h: nat)
    requires Tags(c) && CleanBut(c, h) && h < |c.bufs| && c.bufs[h].addr in c.disk
    ensures var d := Load(c, h);
      && Inv(d) && Touches(c, d, h)
      && d.bufs[h] == c.bufs[h].(data := if c.bufs[h].dirty then c.bufs[h].data else c.disk[c.bufs[h].addr],
                                 dirty := false)
      && (forall x :: x in c.disk && x != c.bufs[h].addr ==> ViewAt(d, x) == ViewAt(c, x))
      && ViewAt(d, c.bufs[h].addr) == d.bufs[h].data
  {
    var d := Load(c, h);
    SameTag(c, d, h);
    OtherTags(c, h);
    hide Tags, FindTag;
    SameTagView(c, d, h);
    CleanKept(c, d, h);
  }

  lemma OtherTags(c: Cache, h: nat)
    requires Tags(c) && h < |c.bufs| && c.bufs[h].addr != NO_ADDR
    ensures forall i :: 0 <= i < |c.bufs| && i != h && c.bufs[i].addr != NO_ADDR ==> c.bufs[i].addr != c.bufs[h].addr
  {
  }

  lemma BumpEffect(c: Cache, h: nat)
    requires Inv(c) && h < |c.bufs| && c.bufs[h].addr != NO_ADDR && c.bufs[h].count < MAX_COUNT
    ensures var d := Bump(c, h);
      && Inv(d) && Touches(c, d, h) && View(d) == View(c)
      && d.bufs[h] == c.bufs[h].(count := c.bufs[h].count + 1)
  {
    var d := Bump(c, h);
    SameTag(c, d, h);
    hide Tags, FindTag;
    SameTagView(c, d, h);
    CleanKept(c, d, h);
  }

  /** After bget, the buffer holds the view of `a`, or the disk block underneath it does. */
  lemma BgetHolds(c: Cache, a: Addr)
    requires Inv(c) && a in c.disk && Bget(c, a).Some?
    ensures var (d, h) := Bget(c, a).value;
      && Touches(c, d, h) && Tags(d) && CleanBut(d, h)
      && d.bufs[h].addr == a && d.bufs[h].count == c.bufs[h].count
      && (if d.bufs[h].dirty then d.bufs[h].data else d.disk[a]) == ViewAt(c, a)
      && (forall x :: x in c.disk && x != a ==> ViewAt(d, x) == ViewAt(c, x))
  {
    BgetInv(c, a);
    BgetView(c, a, a);
    var (d, h) := Bget(c, a).value;
    if c.bufs[h].addr == a {
      ViewOfTag(c, h);
    }
    hide Tags, FindTag, CleanBut, Inv, Bget;
    forall x | x in c.disk && x != a ensures ViewAt(d, x) == ViewAt(c, x) {
      BgetView(c, a, x);
    }
  }

  /** After bget, loading a buffer nobody uses restores the invariant and the whole view. */
  lemma LoadAfterBget(c: Cache, a: Addr)
    requires Inv(c) && a in c.disk && Bget(c, a).Some?
    requires var (c1, h) := Bget(c, a).value; c1.bufs[h].count == 0
    ensures var (c1, h) := Bget(c, a).value; var d := Load(c1, h);
      && Inv(d) && Touches(c, d, h) && View(d) == View(c)
      && d.bufs[h].addr == a && d.bufs[h].data == View(c)[a] && !d.bufs[h].dirty && d.bufs[h].count == 0
  {
    hide Tags, FindTag, CleanBut, Inv, Bget, Load, ViewAt;
    BgetHolds(c, a);
    var (c1, h) := Bget(c, a).value;
    LoadEffect(c1, h);
  }

  /** bread hands out a buffer that carries `a` and shows its view, takes one use of it, and changes no view. */
  lemma BreadEffect(c: Cache, a: Addr)
    requires Inv(c) && a in c.disk && Bread(c, a).Some?
    ensures var (d, h) := Bread(c, a).value;
      && Inv(d) && Touches(c, d, h) && View(d) == View(c)
      && d.bufs[h].addr == a && d.bufs[h].data == View(c)[a]
      && d.bufs[h].count == c.bufs[h].count + 1
      && (c.bufs[h].addr == a || c.bufs[h].count == 0)
      && (c.bufs[h].count > 0 ==> d.bufs[h] == c.bufs[h].(count := c.bufs[h].count + 1))
      && (c.bufs[h].count == 0 ==> !d.bufs[h].dirty)
  {
    BgetInv(c, a);
    var (c1, h) := Bget(c, a).value;
    assert NO_ADDR != a;
    if c1.bufs[h].count == 0 {
      LoadAfterBget(c, a);
      BumpEffect(Load(c1, h), h);
    } else {
      assert c.bufs[h].count < MAX_COUNT;
      ViewOfTag(c, h);
      BumpEffect(c1, h);
    }
  }

  lemma BzeroFill(c: Cache, a: Addr)
    requires Inv(c) && a in c.disk && Bzero(c, a).Some?
    ensures Bget(c, a).Some? && a != NO_ADDR
    ensures var (c1, h) := Bget(c, a).value; var (d, k) := Bzero(c, a).value;
      && k == h && Tags(c1) && Tags(d) && Touches(c1, d, h) && d.disk == c1.disk && c1.bufs[h].addr == a
      && d.bufs[h] == Buffer(ZeroBlock(), a, true, c1.bufs[h].count + 1) && c1.bufs[h].count < MAX_COUNT
  {
    hide ZeroBlock, CleanBut;
    BgetInv(c, a);
    var (c1, h) := Bget(c, a).value;
    SameTag(c1, Bzero(c, a).value.0, h);
  }

  lemma BzeroEffect(c: Cache, a: Addr)
    requires Inv(c) && a in c.disk && Bzero(c, a).Some?
    ensures var (d, h) := Bzero(c, a).value;
      && Inv(d) && Touches(c, d, h) && View(d) == View(c)[a := ZeroBlock()]
      && d.bufs[h] == Buffer(ZeroBlock(), a, true, c.bufs[h].count + 1)
      && c.bufs[h].count < MAX_COUNT
  {
    hide Tags, FindTag, Bget, Bzero, CleanBut, ZeroBlock, Inv, ViewAt;
    BzeroFill(c, a);
    BgetHolds(c, a);
    var (c1, h) := Bget(c, a).value;
    var (d, _) := Bzero(c, a).value;
    OtherTags(c1, h);
    SameTagView(c1, d, h);
    CleanKept(c1, d, h);
  }

  lemma StoreEffect(c: Cache, h: nat, i: nat, v: byte)
    requires Inv(c) && Live(c, h) && i < BLK_SZ
    ensures var d := Store(c, h, i, v); var a := c.bufs[h].addr;
      && Inv(d) && Touches(c, d, h)
      && View(d) == View(c)[a := View(c)[a][i := v]]
      && d.bufs[h] == c.bufs[h].(data := View(c)[a][i := v], dirty := true)
  {
    var d := Store(c, h, i, v);
    SameTag(c, d, h);
    hide Tags, FindTag;
    SameTagView(c, d, h);
    CleanKept(c, d, h);
  }

  lemma BreleaseEffect(c: Cache, h: nat)
    requires Inv(c) && Live(c, h)
    ensures var d := Brelease(c, h);
      && Inv(d) && Touches(c, d, h) && View(d) == View(c)
      && d.bufs[h] == c.bufs[h].(count := c.bufs[h].count - 1)
  {
    var d := Brelease(c, h);
    SameTag(c, d, h);
    hide Tags, FindTag;
    SameTagView(c, d, h);
    CleanKept(c, d, h);
  }

  /** Nothing of a block is left in the buffer: no tag, no byte, no user. */
  ghost predicate Blank(b: Buffer) {
    && b.addr == Addr(0, 0) && b.count == 0 && !b.dirty
    && (forall i :: 0 <= i < BLK_SZ ==> b.data[i] == 0)
  }

  /**
   * bwrite puts a dirty buffer on the disk and drops one use of it. If that was the last, the buffer is blank and the
   * block is cached nowhere; if not, the buffer keeps its block, its contents and its other users.
   */
  lemma BwriteEffect(c: Cache, h: nat)
    requires Inv(c) && Live(c, h)
    ensures var d := Bwrite(c, h); var b := c.bufs[h];
      && Inv(d) && Touches(c, d, h) && View(d) == View(c)
      && (!b.dirty ==> d == c)
      && (b.dirty ==> d.disk == c.disk[b.addr := View(c)[b.addr]])
      && (b.dirty && b.count > 1 ==> d.bufs[h] == b.(dirty := false, count := b.count - 1))
      && (b.dirty && b.count == 1 ==> Blank(d.bufs[h]) && !Cached(d, b.addr))
  {
    BwriteShown(c, h);
    var d := Bwrite(c, h);
    var a := c.bufs[h].addr;
    if c.bufs[h].dirty {
      OtherTags(c, h);
      if c.bufs[h].count > 1 {
        SameTag(c, d, h);
        hide Tags, FindTag;
        SameTagView(c, d, h);
        CleanKept(c, d, h);
      } else {
        BwriteLast(c, h);
      }
    } else {
      ViewOfTag(c, h);
    }
  }

  /** What bwrite puts on the disk is what everyone saw, and what it leaves in the table. */
  lemma BwriteShown(c: Cache, h: nat)
    requires Inv(c) && Live(c, h)
    ensures c.bufs[h].addr in c.disk && View(c)[c.bufs[h].addr] == c.bufs[h].data
    ensures c.bufs[h].dirty && c.bufs[h].count == 1 ==> Blank(Bwrite(c, h).bufs[h]) && !Cached(Bwrite(c, h), c.bufs[h].addr)
  {
    ViewOfTag(c, h);
    if c.bufs[h].dirty && c.bufs[h].count == 1 {
      WipeTags(c, h);
    }
  }

  lemma WipeTags(c: Cache, h: nat)
    requires Tags(c) && h < |c.bufs| && c.bufs[h].addr != NO_ADDR
    ensures var d := Cache(c.disk[c.bufs[h].addr := c.bufs[h].data], c.bufs[h := Empty()]);
      Tags(d) && !Cached(d, c.bufs[h].addr)
  {
  }

  lemma BwriteLast(c: Cache, h: nat)
    requires Inv(c) && Live(c, h) && c.bufs[h].dirty && c.bufs[h].count == 1
    ensures var d := Bwrite(c, h); Inv(d) && View(d) == View(c) && d.disk[c.bufs[h].addr] == View(c)[c.bufs[h].addr]
  {
    var d := Bwrite(c, h);
    var a := c.bufs[h].addr;
    WipeTags(c, h);
    OtherTags(c, h);
    assert d.disk.Keys == c.disk.Keys && a in d.disk && a != NO_ADDR;
    hide Tags, FindTag, Bwrite, ViewAt, Cached;
    assert Touches(c, d, h) && d.bufs[h] == Empty();
    ViewOfTag(c, h);
    CleanKept(c, d, h);
    ViewOfDisk(d, a);
    forall x | x in c.disk && x != a ensures ViewAt(d, x) == ViewAt(c, x) {
      ViewElsewhere(c, d, h, x);
    }
  }
}

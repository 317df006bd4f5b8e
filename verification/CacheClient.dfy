/**
 * How a kernel routine uses the buffer cache: it opens one block, stores into it and gives it back.
 * `Holding` is what it knows in between.
 */
module CacheClient {
  import opened Blocks
  import opened CacheSpec

  /** Nobody is short of a buffer: bread cannot panic. */
  ghost predicate Ready(c: Cache) {
    && Inv(c)
    && (exists i :: 0 <= i < |c.bufs| && c.bufs[i].count == 0)
    && (forall i :: 0 <= i < |c.bufs| ==> c.bufs[i].count < MAX_COUNT)
  }

  /** Two caches of one machine between calls: same disk extent, same uses of every buffer. */
  ghost predicate SameUse(c: Cache, d: Cache) {
    && d.disk.Keys == c.disk.Keys
    && |d.bufs| == |c.bufs|
    && (forall i :: 0 <= i < |c.bufs| ==> d.bufs[i].count == c.bufs[i].count)
  }

  /** Since `c`, block `a` was opened as buffer `h`, and nothing but `a` was stored into. */
  ghost predicate Holding(c: Cache, d: Cache, h: nat, a: Addr) {
    && Inv(d)
    && d.disk.Keys == c.disk.Keys
    && |d.bufs| == |c.bufs| && Live(d, h)
    && a in c.disk && d.bufs[h].addr == a
    && d.bufs[h].count == c.bufs[h].count + 1
    && (forall i :: 0 <= i < |c.bufs| && i != h ==> d.bufs[i].count == c.bufs[i].count)
    && View(d) == View(c)[a := d.bufs[h].data]
  }

  lemma HoldingLive(c: Cache, d: Cache, h: nat, a: Addr)
    requires Holding(c, d, h, a)
    ensures Live(d, h) && d.bufs[h].addr == a
  {
  }

  lemma ReadyBread(c: Cache, a: Addr)
    requires Ready(c) && a in c.disk
    ensures Bread(c, a).Some?
  {
  }

  lemma NotEmptyTag(c: Cache, a: Addr)
    requires Inv(c) && a in c.disk
    ensures a != NO_ADDR
  {
  }

  lemma Opened(c: Cache, a: Addr)
    requires Ready(c) && a in c.disk
    ensures Bread(c, a).Some?
    ensures var (d, h) := Bread(c, a).value; Holding(c, d, h, a) && d.bufs[h].data == View(c)[a]
  {
    ReadyBread(c, a);
    NotEmptyTag(c, a);
    BreadEffect(c, a);
    hide Inv, Bread, ViewAt;
    assert View(c)[a := View(c)[a]] == View(c);
  }

  /** The same for a block zeroed instead of read: the caller then holds `a` as it was plus a block of zeros. */
  lemma Zeroed(c: Cache, a: Addr)
    requires Ready(c) && a in c.disk
    ensures Bzero(c, a).Some?
    ensures var (d, h) := Bzero(c, a).value; Holding(c, d, h, a) && d.bufs[h].data == ZeroBlock() && d.bufs[h].dirty
  {
    ReadyBread(c, a);
    NotEmptyTag(c, a);
    assert Bget(c, a).Some? && Bget(c, a).value.0.bufs[Bget(c, a).value.1].count < MAX_COUNT;
    BzeroEffect(c, a);
    hide Inv, Bget, View, ZeroBlock;
  }

  lemma Stored(c: Cache, d: Cache, h: nat, a: Addr, i: nat, v: byte)
    requires Holding(c, d, h, a) && i < BLK_SZ
    ensures var e := Store(d, h, i, v); Holding(c, e, h, a) && e.bufs[h].data == d.bufs[h].data[i := v] && e.bufs[h].dirty
  {
    StoreEffect(d, h, i, v);
    hide Inv, View;
  }

  lemma Released(c: Cache, d: Cache, h: nat, a: Addr)
    requires Ready(c) && Holding(c, d, h, a)
    ensures var e := Brelease(d, h);
      Ready(e) && SameUse(c, e) && View(e) == View(c)[a := d.bufs[h].data]
  {
    BreleaseEffect(d, h);
    hide Inv, View;
    StillReady(c, Brelease(d, h));
  }

  lemma StillReady(c: Cache, e: Cache)
    requires Ready(c) && SameUse(c, e) && Inv(e)
    ensures Ready(e)
  {
  }

  lemma Written(c: Cache, d: Cache, h: nat, a: Addr)
    requires Ready(c) && Holding(c, d, h, a) && d.bufs[h].dirty
    ensures var e := Bwrite(d, h);
      && Ready(e) && SameUse(c, e) && View(e) == View(c)[a := d.bufs[h].data] && a in e.disk && e.disk[a] == d.bufs[h].data
      && (d.bufs[h].count == 1 ==> Blank(e.bufs[h]) && !Cached(e, a))
      && (d.bufs[h].count > 1 ==> e.bufs[h] == d.bufs[h].(dirty := false, count := d.bufs[h].count - 1))
  {
    BwriteEffect(d, h);
    BwriteShown(d, h);
    hide Inv, View, Blank, Cached;
    StillReady(c, Bwrite(d, h));
  }

  lemma SameUseSelf(c: Cache)
    ensures SameUse(c, c)
  {
  }

  lemma SameUseTrans(c: Cache, d: Cache, e: Cache)
    requires SameUse(c, d) && SameUse(d, e)
    ensures SameUse(c, e)
  {
  }
}

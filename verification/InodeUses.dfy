/** Uses of inodes in core: who holds how many, and when there is no room for one more. */
module InodeUses {
  import opened Blocks
  import opened Volume
  import opened InodeSpec
  import opened InodeCache
  import opened FileSteps
  import opened FileSys
  import opened Files
  import opened Tally

  /** How many users inode `id` has in core. */
  function Uses(es: seq<Inode>, id: InoId): nat {
    var i := FindIno(es, id, 0);
    if i < |es| then es[i].count else 0
  }

  /** One use of `id` more, and every other inode used as before. */
  ghost predicate OneMore(es: seq<Inode>, fs: seq<Inode>, id: InoId) {
    forall x: InoId :: x.num != 0 ==> Uses(fs, x) == Uses(es, x) + if x == id then 1 else 0
  }

  ghost predicate SameUses(es: seq<Inode>, fs: seq<Inode>) {
    forall x: InoId :: x.num != 0 ==> Uses(fs, x) == Uses(es, x)
  }

  lemma UsesOfEntry(es: seq<Inode>, i: nat)
    requires Distinct(es) && i < |es| && es[i].id.num != 0
    ensures Uses(es, es[i].id) == es[i].count
  {
  }

  lemma UsesOfNone(es: seq<Inode>, id: InoId)
    requires forall i :: 0 <= i < |es| ==> es[i].id != id
    ensures Uses(es, id) == 0
  {
  }

  lemma GetsOneMore(es: seq<Inode>, fs: seq<Inode>, i: nat, id: InoId)
    requires Distinct(es) && Distinct(fs) && Gets(es, fs, i, id) && id.num != 0
    ensures OneMore(es, fs, id)
  {
    hide FindIno;
    forall x: InoId | x.num != 0 ensures Uses(fs, x) == Uses(es, x) + if x == id then 1 else 0 {
      GetsUses(es, fs, i, id, x);
    }
  }

  lemma GetsUses(es: seq<Inode>, fs: seq<Inode>, i: nat, id: InoId, x: InoId)
    requires Distinct(es) && Distinct(fs) && Gets(es, fs, i, id) && id.num != 0 && x.num != 0
    ensures Uses(fs, x) == Uses(es, x) + if x == id then 1 else 0
  {
    var r := FindIno(es, x, 0);
    assert forall j :: 0 <= j < |es| && j != i ==> fs[j] == es[j];
    if x == id {
      UsesOfEntry(fs, i);
      if es[i].id == id {
        UsesOfEntry(es, i);
      } else {
        forall j | 0 <= j < |es| ensures es[j].id != x {
          assert j != i ==> fs[j] == es[j];
        }
        UsesOfNone(es, x);
      }
    } else if r < |es| && r != i {
      assert fs[r] == es[r];
      UsesOfEntry(fs, r);
    } else {
      UsesOfNone(fs, x);
    }
  }

  lemma PutBack(es: seq<Inode>, fs: seq<Inode>, i: nat)
    requires Distinct(fs) && i < |fs| && fs[i].id.num != 0 && fs[i].count > 0 && OneMore(es, fs, fs[i].id)
    ensures SameUses(es, LessUsed(fs, i))
  {
    UsesOfEntry(fs, i);
    var gs := LessUsed(fs, i);
    forall x: InoId | x.num != 0 ensures Uses(gs, x) == Uses(es, x) {
      SameFind(fs, gs, x);
      assert Uses(fs, x) == Uses(es, x) + if x == fs[i].id then 1 else 0;
      var r := FindIno(fs, x, 0);
      assert r < |fs| && r == i ==> x == fs[i].id;
    }
  }

  lemma OneMoreAfter(es: seq<Inode>, fs: seq<Inode>, gs: seq<Inode>, i: nat, id: InoId)
    requires Distinct(fs) && Distinct(gs) && SameUses(es, fs) && Gets(fs, gs, i, id) && id.num != 0
    ensures OneMore(es, gs, id)
  {
    hide Uses, Distinct, Gets;
    GetsOneMore(fs, gs, i, id);
    forall x: InoId | x.num != 0 ensures Uses(gs, x) == Uses(es, x) + if x == id then 1 else 0 {
      assert Uses(fs, x) == Uses(es, x);
    }
  }

  // ---------- Room ----------

  /** No inode twice, and no users of an empty entry. */
  ghost predicate Orderly(es: seq<Inode>) {
    && Distinct(es)
    && (forall i :: 0 <= i < |es| ==> es[i].count <= MAX_COUNT && (es[i].count > 0 ==> es[i].id.num != 0))
  }

  lemma CoreOrderly(sbs: Supers, v: Disk, es: seq<Inode>, own: map<Addr, Owner>)
    requires Core(sbs, v, es, own)
    ensures Orderly(es)
  {
    assert forall i :: 0 <= i < |es| ==> EntryOk(sbs, v, es[i]);
  }

  ghost predicate AllInUse(es: seq<Inode>) {
    forall i :: 0 <= i < |es| ==> es[i].count != 0
  }

  /** Room, told from uses. */
  lemma NoRoomIs(es: seq<Inode>, id: InoId)
    requires Orderly(es) && id.num != 0
    ensures NoRoom(es, id) <==> Uses(es, id) == MAX_COUNT || (Uses(es, id) == 0 && AllInUse(es))
  {
    var r := FindIno(es, id, 0);
    if r < |es| {
      UsesOfEntry(es, r);
    } else {
      UsesOfNone(es, id);
    }
  }

  function Tallied(es: seq<Inode>): (us: seq<Use<InoId>>)
    ensures |us| == |es| && forall i :: 0 <= i < |us| ==> us[i] == Use(es[i].id, es[i].count)
  {
    seq(|es|, i requires 0 <= i < |es| => Use(es[i].id, es[i].count))
  }

  lemma InUseIs(es: seq<Inode>, id: InoId)
    requires Orderly(es)
    ensures id in TagsInUse(Tallied(es)) <==> id.num != 0 && Uses(es, id) > 0
  {
    var us, r := Tallied(es), FindIno(es, id, 0);
    if id in TagsInUse(us) {
      var i :| 0 <= i < |us| && us[i].count > 0 && us[i].tag == id;
      UsesOfEntry(es, i);
    }
    if id.num != 0 && Uses(es, id) > 0 {
      assert us[r].tag in TagsInUse(us);
    }
  }

  /** Where the inodes in use are kept makes no difference to whether all entries are. */
  lemma SameFull(es: seq<Inode>, fs: seq<Inode>)
    requires Orderly(es) && Orderly(fs) && |fs| == |es| && SameUses(es, fs)
    ensures AllInUse(es) <==> AllInUse(fs)
  {
    hide Uses, TagsInUse, Orderly;
    TalliedApart(es);
    TalliedApart(fs);
    forall id
      ensures id in TagsInUse(Tallied(es)) <==> id in TagsInUse(Tallied(fs))
    {
      InUseIs(es, id);
      InUseIs(fs, id);
    }
    assert TagsInUse(Tallied(es)) == TagsInUse(Tallied(fs));
    AllUsedIff(Tallied(es));
    AllUsedIff(Tallied(fs));
    FullTally(es);
    FullTally(fs);
  }

  lemma TalliedApart(es: seq<Inode>)
    requires Orderly(es)
    ensures TagsApart(Tallied(es))
  {
  }

  lemma FullTally(es: seq<Inode>)
    ensures AllInUse(es) <==> forall k :: 0 <= k < |Tallied(es)| ==> Tallied(es)[k].count > 0
  {
    assert forall k :: 0 <= k < |es| ==> (Tallied(es)[k].count > 0 <==> es[k].count != 0);
  }

  /** So a walk that holds nothing finds room exactly where there was room when it started. */
  lemma SameRoom(es: seq<Inode>, fs: seq<Inode>, id: InoId)
    requires Orderly(es) && Orderly(fs) && |fs| == |es| && SameUses(es, fs) && id.num != 0
    ensures NoRoom(es, id) <==> NoRoom(fs, id)
  {
    hide Uses, Orderly, NoRoom, AllInUse;
    SameFull(es, fs);
    NoRoomIs(es, id);
    NoRoomIs(fs, id);
  }

  // ---------- Entries in use stay ----------

  /** An entry that was in use holds the inode it held. */
  ghost predicate UsedStay(es: seq<Inode>, fs: seq<Inode>) {
    && |fs| == |es|
    && (forall i :: 0 <= i < |es| && es[i].count > 0 ==> fs[i].id == es[i].id)
  }

  lemma StayAfterGet(es0: seq<Inode>, es: seq<Inode>, fs: seq<Inode>, i: nat, id: InoId)
    requires Orderly(es0) && Orderly(es) && UsedStay(es0, es) && SameUses(es0, es) && Gets(es, fs, i, id)
    ensures UsedStay(es0, fs)
  {
    hide Uses;
    if es0[i].count > 0 {
      UsesOfEntry(es0, i);
      UsesOfEntry(es, i);
    }
  }

  lemma StayAfterPut(es0: seq<Inode>, es: seq<Inode>, i: nat)
    requires UsedStay(es0, es) && i < |es| && es[i].count > 0
    ensures UsedStay(es0, LessUsed(es, i))
  {
  }
}

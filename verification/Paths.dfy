/** Path names and directory entries: what kernel/fs/namei.c looks for, and where. */
module Paths {
  import opened Blocks
  import Octets
  import opened DiskInodes
  import opened Volume
  import opened FsState
  import opened Files

  const SLASH: byte := 47

  type Name = seq<byte>

  // ---------- Components ----------

  /** Where the component that starts at `i` ends: the next slash, or the end of the path. */
  function EndOf(path: seq<byte>, i: nat): (e: nat)
    requires i <= |path|
    ensures i <= e <= |path|
    ensures forall j :: i <= j < e ==> path[j] != SLASH
    ensures e < |path| ==> path[e] == SLASH
    decreases |path| - i
  {
    if i == |path| || path[i] == SLASH then i else EndOf(path, i + 1)
  }

  /** The components of a relative path; a final slash adds none. */
  function Components(path: seq<byte>): seq<Name>
    decreases |path|
  {
    if path == [] then []
    else
      var e := EndOf(path, 0);
      [path[..e]] + if e < |path| then Components(path[e + 1..]) else []
  }

  lemma {:induction false} EndIs(path: seq<byte>, i: nat, e: nat)
    requires i <= e <= |path| && (forall j :: i <= j < e ==> path[j] != SLASH) && (e < |path| ==> path[e] == SLASH)
    ensures EndOf(path, i) == e
    decreases e - i
  {
  }

  lemma EndOfSuffix(path: seq<byte>, i: nat)
    requires i <= |path|
    ensures EndOf(path[i..], 0) == EndOf(path, i) - i
  {
  }

  /** Joining two paths with a slash joins their components, whatever the second path is. */
  lemma {:induction false} ComponentsJoin(p: seq<byte>, q: seq<byte>)
    requires p != [] && p[|p| - 1] != SLASH
    ensures Components(p + [SLASH] + q) == Components(p) + Components(q)
    decreases |p|
  {
    var path, e := p + [SLASH] + q, EndOf(p, 0);
    EndIs(path, 0, e);
    hide EndOf;
    assert path[..e] == p[..e];
    if e < |p| {
      assert path[e + 1..] == p[e + 1..] + [SLASH] + q;
      ComponentsJoin(p[e + 1..], q);
    } else {
      assert path[e + 1..] == q;
    }
  }

  function ByteOf(c: char): (b: byte)
    requires c < 256 as char
    ensures b as int == c as int
  {
    Octets.ByteOfNumber(c as nat);
    c as int as byte
  }

  /** A path as it is typed. */
  function Text(s: string): (bs: seq<byte>)
    requires forall k :: 0 <= k < |s| ==> s[k] < 256 as char
    ensures |bs| == |s| && forall k :: 0 <= k < |s| ==> bs[k] as int == s[k] as int
  {
    seq(|s|, k requires 0 <= k < |s| => ByteOf(s[k]))
  }

  /** Components are what stands between slashes; each slash ends one, even an empty one. */
  lemma TypedPath(p: string, q: string)
    requires (forall k :: 0 <= k < |p| ==> p[k] < 256 as char && p[k] != '/') && forall k :: 0 <= k < |q| ==> q[k] < 256 as char
    ensures Components(Text(p + "/" + q)) == [Text(p)] + Components(Text(q))
    ensures p != "" ==> Components(Text(p)) == [Text(p)]
  {
    var path := Text(p + "/" + q);
    assert SLASH as int == '/' as int;
    EndIs(path, 0, |p|);
    EndIs(Text(p), 0, |p|);
    assert path[..|p|] == Text(p) && path[|p| + 1..] == Text(q);
    assert Text(p)[..|p|] == Text(p);
  }

  // ---------- Directory entries ----------

  /** `struct dirent` (kernel/include/fs.h:71-74): an 8-byte inode number and 25 bytes of name, padded to 40. */
  const DIRENT_SZ: nat := 40
  const MAX_NAME: nat := 25
  const DENT_PER_BLK: nat := 102

  function EntryNum(b: Block, j: nat): nat
    requires j < DENT_PER_BLK
  {
    Number(b[DIRENT_SZ * j..DIRENT_SZ * j + 8])
  }

  function NameField(b: Block, j: nat): (s: seq<byte>)
    requires j < DENT_PER_BLK
    ensures |s| == MAX_NAME
  {
    b[DIRENT_SZ * j + 8..DIRENT_SZ * j + 8 + MAX_NAME]
  }

  /** The field holds `name`, ended by a zero byte unless it fills the field. */
  predicate HoldsName(field: seq<byte>, name: Name) {
    && |name| <= |field| && field[..|name|] == name
    && (|name| < |field| ==> field[|name|] == 0)
  }

  predicate EntryIs(b: Block, j: nat, name: Name)
    requires j < DENT_PER_BLK
  {
    EntryNum(b, j) != 0 && HoldsName(NameField(b, j), name)
  }

  /** A field holds one name only, as names have no zero bytes. */
  lemma OneName(field: seq<byte>, x: Name, y: Name)
    requires HoldsName(field, x) && HoldsName(field, y)
    requires (forall i :: 0 <= i < |x| ==> x[i] != 0) && (forall i :: 0 <= i < |y| ==> y[i] != 0)
    ensures x == y
  {
  }

  /** The number of the first entry of a block, from entry `j` on, that has the name. */
  function FindInBlock(b: Block, name: Name, j: nat): Option<nat>
    requires j <= DENT_PER_BLK
    decreases DENT_PER_BLK - j
  {
    if j == DENT_PER_BLK then None
    else if EntryIs(b, j, name) then Some(EntryNum(b, j))
    else FindInBlock(b, name, j + 1)
  }

  /** The same over the blocks of a directory, from slot `k` on. */
  function FindInSlots(dev: nat, addr: seq<nat>, data: Disk, name: Name, k: nat): Option<nat>
    requires k <= |addr|
    decreases |addr| - k
  {
    if k == |addr| then None
    else if addr[k] != 0 && Addr(dev, addr[k]) in data && FindInBlock(data[Addr(dev, addr[k])], name, 0).Some? then
      FindInBlock(data[Addr(dev, addr[k])], name, 0)
    else FindInSlots(dev, addr, data, name, k + 1)
  }

  /** Entry `e` of slot `k` is, and no entry before it is, one with the name. */
  ghost predicate IsFirst(dev: nat, addr: seq<nat>, data: Disk, name: Name, k: nat, e: nat) {
    && Named(dev, addr, data, name, k, e)
    && (forall j, i :: 0 <= j < k && 0 <= i < DENT_PER_BLK ==> !Named(dev, addr, data, name, j, i))
    && (forall i :: 0 <= i < e ==> !Named(dev, addr, data, name, k, i))
  }

  predicate Named(dev: nat, addr: seq<nat>, data: Disk, name: Name, k: nat, e: nat) {
    && k < |addr| && e < DENT_PER_BLK
    && addr[k] != 0 && Addr(dev, addr[k]) in data && EntryIs(data[Addr(dev, addr[k])], e, name)
  }

  ghost predicate IsFirstOf(b: Block, name: Name, j: nat, e: nat) {
    j <= e < DENT_PER_BLK && EntryIs(b, e, name) && forall i :: j <= i < e ==> !EntryIs(b, i, name)
  }

  /** The number of the first entry, in order of slots and entries, with the name. */
  ghost predicate IsFirstNumber(dev: nat, addr: seq<nat>, data: Disk, name: Name, n: nat) {
    exists k: nat, e: nat :: IsFirst(dev, addr, data, name, k, e) && n == EntryNum(data[Addr(dev, addr[k])], e)
  }

  /** The search of a block stops at the first entry with the name. */
  lemma {:induction false} FindInBlockIs(b: Block, name: Name, j: nat)
    requires j <= DENT_PER_BLK
    ensures match FindInBlock(b, name, j)
      case None => forall i :: j <= i < DENT_PER_BLK ==> !EntryIs(b, i, name)
      case Some(n) => exists e :: IsFirstOf(b, name, j, e) && n == EntryNum(b, e)
    decreases DENT_PER_BLK - j
  {
    hide EntryIs, EntryNum;
    if j < DENT_PER_BLK {
      if EntryIs(b, j, name) {
        assert IsFirstOf(b, name, j, j);
      } else {
        FindInBlockIs(b, name, j + 1);
        if FindInBlock(b, name, j + 1).Some? {
          var e :| IsFirstOf(b, name, j + 1, e) && FindInBlock(b, name, j + 1).value == EntryNum(b, e);
          assert IsFirstOf(b, name, j, e);
        }
      }
    }
  }

  lemma {:induction false} FindFrom(dev: nat, addr: seq<nat>, data: Disk, name: Name, k: nat)
    requires k <= |addr|
    requires forall j, i :: 0 <= j < k && 0 <= i < DENT_PER_BLK ==> !Named(dev, addr, data, name, j, i)
    ensures match FindInSlots(dev, addr, data, name, k)
      case None => forall j, e :: 0 <= j < |addr| && 0 <= e < DENT_PER_BLK ==> !Named(dev, addr, data, name, j, e)
      case Some(n) => IsFirstNumber(dev, addr, data, name, n)
    decreases |addr| - k
  {
    hide EntryIs, EntryNum, FindInBlock;
    if k < |addr| {
      if addr[k] != 0 && Addr(dev, addr[k]) in data {
        FindInBlockIs(data[Addr(dev, addr[k])], name, 0);
        if FindInBlock(data[Addr(dev, addr[k])], name, 0).Some? {
          var b := data[Addr(dev, addr[k])];
          var e :| IsFirstOf(b, name, 0, e) && FindInBlock(b, name, 0).value == EntryNum(b, e);
          assert IsFirst(dev, addr, data, name, k, e);
          return;
        }
      }
      FindFrom(dev, addr, data, name, k + 1);
    }
  }

  /** A directory search yields the number of the first entry, in order of slots and entries, with the name. */
  lemma FindIsFirst(dev: nat, addr: seq<nat>, data: Disk, name: Name)
    ensures match FindInSlots(dev, addr, data, name, 0)
      case None => forall k, e :: 0 <= k < |addr| && 0 <= e < DENT_PER_BLK ==> !Named(dev, addr, data, name, k, e)
      case Some(n) => IsFirstNumber(dev, addr, data, name, n)
  {
    hide FindInSlots;
    FindFrom(dev, addr, data, name, 0);
  }

  // ---------- Directories written out ----------

  datatype Dirent = Dirent(num: nat, name: Name)

  predicate NoZeros(s: seq<byte>) {
    forall i :: 0 <= i < |s| ==> s[i] != 0
  }

  predicate WfDirent(e: Dirent) {
    e.num < Pow256(8) && |e.name| <= 25 && NoZeros(e.name)
  }

  function Nulls(n: nat): (s: seq<byte>)
    ensures |s| == n && forall i :: 0 <= i < n ==> s[i] == 0
  {
    seq(n, _ => 0)
  }

  /** An entry as C lays it out: the number, the name up to the end of its field, the padding. */
  function EntryBytes(e: Dirent): (s: seq<byte>)
    requires WfDirent(e)
    ensures |s| == 40
  {
    DiskInodes.Bytes(e.num, 8) + e.name + Nulls(25 - |e.name|) + Nulls(7)
  }

  function DirBytes(es: seq<Dirent>): (s: seq<byte>)
    requires forall e :: e in es ==> WfDirent(e)
    ensures |s| == 40 * |es|
  {
    if es == [] then [] else EntryBytes(es[0]) + DirBytes(es[1..])
  }

  /** A block with these entries, and no others. */
  ghost predicate HoldsEntries(b: Block, es: seq<Dirent>) {
    && |es| <= 102 && (forall e :: e in es ==> WfDirent(e))
    && b[..40 * |es|] == DirBytes(es)
    && (forall i :: 40 * |es| <= i < BLK_SZ ==> b[i] == 0)
  }

  /** The number of the first entry in use with the name. */
  function FirstNamed(es: seq<Dirent>, name: Name): Option<nat> {
    if es == [] then None
    else if es[0].num != 0 && es[0].name == name then Some(es[0].num)
    else FirstNamed(es[1..], name)
  }

  lemma {:induction false} DirAt(es: seq<Dirent>, j: nat)
    requires (forall e :: e in es ==> WfDirent(e)) && j < |es|
    ensures DirBytes(es)[40 * j..40 * j + 40] == EntryBytes(es[j])
    decreases j
  {
    hide EntryBytes, WfDirent;
    if j > 0 {
      DirAt(es[1..], j - 1);
      assert DirBytes(es)[40 * j..40 * j + 40] == DirBytes(es[1..])[40 * (j - 1)..40 * (j - 1) + 40];
    }
  }

  /** The entry at `j` is the one written there. */
  lemma EntryAt(b: Block, es: seq<Dirent>, j: nat, name: Name)
    requires HoldsEntries(b, es) && j < |es| && NoZeros(name)
    ensures EntryNum(b, j) == es[j].num
    ensures EntryIs(b, j, name) <==> es[j].num != 0 && es[j].name == name
  {
    var e := es[j];
    assert e in es && WfDirent(e);
    DirAt(es, j);
    NumberOfBytes(e.num, 8);
    FieldHolds(e.name, name);
    hide DirBytes, EntryBytes, DiskInodes.Bytes, Number, Pow256, HoldsName, Nulls;
    SubOf(b, 0, b[..40 * |es|], 40 * j, 40);
    EntrySlices(b, e, j);
  }

  lemma EntrySlices(b: Block, e: Dirent, j: nat)
    requires WfDirent(e) && j < DENT_PER_BLK && b[40 * j..40 * j + 40] == EntryBytes(e)
    ensures b[40 * j..40 * j + 8] == DiskInodes.Bytes(e.num, 8)
    ensures NameField(b, j) == e.name + Nulls(25 - |e.name|)
  {
    EntryParts(e);
    hide EntryBytes, DiskInodes.Bytes, Pow256, Nulls;
    SubOf(b, 40 * j, EntryBytes(e), 0, 8);
    SubOf(b, 40 * j, EntryBytes(e), 8, 25);
  }

  lemma EntryParts(e: Dirent)
    requires WfDirent(e)
    ensures EntryBytes(e)[0..8] == DiskInodes.Bytes(e.num, 8)
    ensures EntryBytes(e)[8..33] == e.name + Nulls(25 - |e.name|)
  {
    hide DiskInodes.Bytes, Nulls, Pow256;
  }

  lemma FieldHolds(kept: Name, name: Name)
    requires |kept| <= 25 && NoZeros(kept) && NoZeros(name)
    ensures HoldsName(kept + Nulls(25 - |kept|), name) <==> kept == name
  {
    var field := kept + Nulls(25 - |kept|);
    assert field[..|kept|] == kept;
    assert HoldsName(field, kept);
    if HoldsName(field, name) {
      OneName(field, kept, name);
    }
  }

  lemma NoEntry(b: Block, es: seq<Dirent>, j: nat, name: Name)
    requires HoldsEntries(b, es) && |es| <= j < DENT_PER_BLK
    ensures !EntryIs(b, j, name)
  {
    var s := b[40 * j..40 * j + 8];
    assert AllZero(s);
    NumberOfZeros(s);
  }

  lemma {:induction false} FindFromEntry(b: Block, es: seq<Dirent>, name: Name, j: nat)
    requires HoldsEntries(b, es) && NoZeros(name) && j <= DENT_PER_BLK
    ensures FindInBlock(b, name, j) == if j <= |es| then FirstNamed(es[j..], name) else None
    decreases DENT_PER_BLK - j
  {
    hide EntryIs, EntryNum, HoldsEntries;
    if j < DENT_PER_BLK {
      FindFromEntry(b, es, name, j + 1);
      if j < |es| {
        EntryAt(b, es, j, name);
        assert es[j..][1..] == es[j + 1..];
      } else {
        NoEntry(b, es, j, name);
      }
    } else {
      EntriesFit(b, es);
    }
  }

  lemma EntriesFit(b: Block, es: seq<Dirent>)
    requires HoldsEntries(b, es)
    ensures |es| <= DENT_PER_BLK
  {
  }

  /** Searching a directory block finds what was written: the number of the first entry in use with the name. */
  lemma DirectoryReadsBack(b: Block, es: seq<Dirent>, name: Name)
    requires HoldsEntries(b, es) && NoZeros(name)
    ensures FindInBlock(b, name, 0) == FirstNamed(es, name)
  {
    hide HoldsEntries, FindInBlock, FirstNamed;
    FindFromEntry(b, es, name, 0);
    assert es[0..] == es;
  }

  /** Such a block there is, for every list of entries that fits one. */
  lemma DirectoryExists(es: seq<Dirent>) returns (b: Block)
    requires |es| <= 102 && forall e :: e in es ==> WfDirent(e)
    ensures HoldsEntries(b, es)
  {
    hide DirBytes;
    b := DirBytes(es) + Nulls(4096 - 40 * |es|);
  }

  /** The inode a directory has under a name; `None` when it has none, or names a number outside the table. */
  ghost function Lookup(sbs: Supers, s: State, dir: InoId, name: Name): Option<InoId> {
    if dir !in s.ino then None
    else
      match FindInSlots(dir.dev, s.ino[dir].addr, s.data, name, 0)
      case None => None
      case Some(n) => if ValidId(sbs, InoId(dir.dev, n)) then Some(InoId(dir.dev, n)) else None
  }

  // ---------- Walking ----------

  /** What a path name means: one lookup per component, each in the directory the one before found. */
  ghost function Walk(sbs: Supers, s: State, from: InoId, names: seq<Name>): Option<InoId>
    decreases |names|
  {
    if names == [] then Some(from)
    else
      match Lookup(sbs, s, from, names[0])
      case None => None
      case Some(next) => Walk(sbs, s, next, names[1..])
  }

  /** The walk reaches its end, found or not, without needing an inode there is no room for. */
  ghost predicate CanWalk(sbs: Supers, s: State, full: iset<InoId>, from: InoId, names: seq<Name>)
    decreases |names|
  {
    && from !in full
    && (names == [] ||
        match Lookup(sbs, s, from, names[0])
        case None => true
        case Some(next) => CanWalk(sbs, s, full, next, names[1..]))
  }

  lemma {:induction false} WalkJoin(sbs: Supers, s: State, from: InoId, xs: seq<Name>, ys: seq<Name>)
    ensures Walk(sbs, s, from, xs + ys) ==
      match Walk(sbs, s, from, xs)
      case None => None
      case Some(mid) => Walk(sbs, s, mid, ys)
    decreases |xs|
  {
    if xs == [] {
      assert xs + ys == ys;
    } else {
      assert (xs + ys)[0] == xs[0] && (xs + ys)[1..] == xs[1..] + ys;
      match Lookup(sbs, s, from, xs[0])
      case None =>
      case Some(next) => WalkJoin(sbs, s, next, xs[1..], ys);
    }
  }

  /** Walking "p/q" is walking q from where p leads. */
  lemma WalkPath(sbs: Supers, s: State, from: InoId, p: seq<byte>, q: seq<byte>)
    requires p != [] && p[|p| - 1] != SLASH
    ensures Walk(sbs, s, from, Components(p + [SLASH] + q)) ==
      match Walk(sbs, s, from, Components(p))
      case None => None
      case Some(mid) => Walk(sbs, s, mid, Components(q))
  {
    ComponentsJoin(p, q);
    WalkJoin(sbs, s, from, Components(p), Components(q));
  }
}

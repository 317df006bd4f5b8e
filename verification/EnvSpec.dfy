/** The shell's environment as a value: a row of slots with holes that stands for a finite map. */
module EnvSpec {
  /** busybox/shell/sh.h:16, env.c:128, env.c:100 */
  const MAX_ENV := 15
  const PROTECTED := 6
  const NAME_SZ := 32

  /** The bytes the code allocates for a value (env.c:86). */
  const VALUE_SZ := 256

  datatype Slot = Hole | Bound(name: string, value: string)

  /** How a call ends. `Overread` and `Overflow` are a read and a store past the end of a block of memory. */
  datatype Status = Done | Invalid | TooBig | Overread | Overflow

  /** What strncpy keeps of a name: all 32 characters leave no room for a terminator. */
  function Cut(name: string): string {
    if |name| <= NAME_SZ then name else name[..NAME_SZ]
  }

  /** What comparing a name kept in a field with another shows. */
  datatype Match = Same | Differs | PastEnd

  function Compare(kept: string, name: string): Match {
    if |kept| < NAME_SZ then if kept == name then Same else Differs
    else if |name| >= NAME_SZ && kept[..NAME_SZ] == name[..NAME_SZ] then PastEnd
    else Differs
  }

  /** The slot whose comparison with the name does not just say that they differ. */
  predicate Names(t: seq<Slot>, i: int, name: string) {
    0 <= i < |t| && t[i].Bound? && Compare(t[i].name, name) != Differs
  }

  function Find(t: seq<Slot>, name: string, from: nat := 0): (i: nat)
    requires from <= |t|
    ensures from <= i <= |t| && forall k :: from <= k < i ==> !Names(t, k, name)
    ensures i < |t| ==> Names(t, i, name)
    decreases |t| - from
  {
    if from == |t| || Names(t, from, name) then from else Find(t, name, from + 1)
  }

  function Vacant(t: seq<Slot>, from: nat := 0): (i: nat)
    requires from <= |t|
    ensures from <= i <= |t| && forall k :: from <= k < i ==> t[k].Bound?
    ensures i < |t| ==> t[i].Hole?
    decreases |t| - from
  {
    if from == |t| || t[from].Hole? then from else Vacant(t, from + 1)
  }

  datatype Reply = Found(value: string) | Absent | ReadPast

  function Lookup(t: seq<Slot>, name: string): Reply {
    var i := Find(t, name);
    if i == |t| then Absent else if Compare(t[i].name, name) == Same then Found(t[i].value) else ReadPast
  }

  /** The slot of the name wherever it is, else the first hole. */
  function Set(t: seq<Slot>, name: string, value: string): (seq<Slot>, Status) {
    var i, h := Find(t, name), Vacant(t);
    if i < |t| then if Compare(t[i].name, name) == Same then (t[i := Bound(name, value)], Done) else (t, Overread)
    else if h < |t| then (t[h := Bound(Cut(name), value)], Done)
    else (t, TooBig)
  }

  function Unset(t: seq<Slot>, name: string): (seq<Slot>, Status) {
    var i := Find(t, name);
    if i < |t| && Compare(t[i].name, name) == PastEnd then (t, Overread)
    else if PROTECTED <= i < |t| then (t[i := Hole], Done)
    else (t, Invalid)
  }

  // ---------- The map a table stands for ----------

  /** Every name has its terminator, and no two slots have the same one. */
  predicate Distinct(t: seq<Slot>) {
    && (forall i :: 0 <= i < |t| && t[i].Bound? ==> |t[i].name| < NAME_SZ)
    && (forall i, j :: 0 <= i < j < |t| && t[i].Bound? && t[j].Bound? ==> t[i].name != t[j].name)
  }

  predicate Good(t: seq<Slot>) {
    && |t| == MAX_ENV
    && Distinct(t)
    && (forall i :: 0 <= i < PROTECTED ==> t[i].Bound?)
  }

  ghost function View(t: seq<Slot>): map<string, string>
    requires Distinct(t)
  {
    map i | 0 <= i < |t| && t[i].Bound? :: t[i].name := t[i].value
  }

  lemma ViewAt(t: seq<Slot>, name: string)
    requires Distinct(t)
    ensures Lookup(t, name) == if name in View(t) then Found(View(t)[name]) else Absent
    ensures name in View(t) <==> Find(t, name) < |t|
  {
    var i := Find(t, name);
    if i < |t| {
      assert t[i].name in View(t);
    }
    if name in View(t) {
      var k :| 0 <= k < |t| && t[k].Bound? && t[k].name == name;
      assert Names(t, k, name);
    }
  }

  lemma SameViews(t: seq<Slot>, m: map<string, string>)
    requires Distinct(t)
    requires forall name :: Lookup(t, name) == if name in m then Found(m[name]) else Absent
    ensures View(t) == m
  {
    hide View, Lookup;
    forall name
      ensures name in View(t) <==> name in m
      ensures name in m ==> name in View(t) && View(t)[name] == m[name]
    {
      ViewAt(t, name);
    }
  }

  lemma OnlySlot(t: seq<Slot>, name: string, i: nat)
    requires Distinct(t) && Names(t, i, name)
    ensures Find(t, name) == i
  {
  }

  lemma NotThere(t: seq<Slot>, name: string)
    requires forall k :: 0 <= k < |t| ==> !Names(t, k, name)
    ensures Find(t, name) == |t|
  {
  }

  /** Filling one slot with a name found nowhere else binds that name, and changes no other lookup. */
  lemma Filled(t: seq<Slot>, i: nat, name: string, value: string, other: string)
    requires Distinct(t) && i < |t| && (forall k :: 0 <= k < |t| && Names(t, k, name) ==> k == i)
    requires |name| < NAME_SZ
    requires t[i].Bound? ==> t[i].name == name
    ensures var u := t[i := Bound(name, value)];
            Distinct(u) && Lookup(u, other) == if other == name then Found(value) else Lookup(t, other)
  {
    var u := t[i := Bound(name, value)];
    forall j, k | 0 <= j < k < |u| && u[j].Bound? && u[k].Bound?
      ensures u[j].name != u[k].name
    {
      assert Names(u, j, u[j].name) && Names(u, k, u[k].name);
      assert j != i ==> Names(t, j, u[j].name);
      assert k != i ==> Names(t, k, u[k].name);
    }
    assert Names(u, i, name);
    OnlySlot(u, name, i);
    var f := Find(t, other);
    if other != name {
      if f < |t| {
        assert Names(u, f, other);
        OnlySlot(u, other, f);
      } else {
        assert forall k :: 0 <= k < |u| && Names(u, k, other) ==> Names(t, k, other);
        NotThere(u, other);
      }
    }
  }

  /** Emptying one slot forgets its name, and changes no other lookup. */
  lemma Emptied(t: seq<Slot>, i: nat, name: string, other: string)
    requires Distinct(t) && Names(t, i, name)
    ensures var u := t[i := Hole];
            Distinct(u) && Lookup(u, other) == if other == name then Absent else Lookup(t, other)
  {
    var u := t[i := Hole];
    OnlySlot(t, name, i);
    var f := Find(t, other);
    if other != name && f < |t| {
      assert Names(u, f, other);
      OnlySlot(u, other, f);
    } else {
      forall k | 0 <= k < |u|
        ensures !Names(u, k, other)
      {
        if Names(u, k, other) {
          OnlySlot(t, other, k);
        }
      }
      NotThere(u, other);
    }
  }

  // ---------- Counting ----------

  function BoundCount(t: seq<Slot>): (n: nat)
    ensures n <= |t| && (n < |t| <==> exists k :: 0 <= k < |t| && t[k].Hole?)
  {
    if t == [] then 0
    else
      assert forall k :: 0 <= k < |t| ==> t[k] == if k < |t| - 1 then t[..|t| - 1][k] else t[|t| - 1];
      BoundCount(t[..|t| - 1]) + if t[|t| - 1].Bound? then 1 else 0
  }

  lemma ViewMore(t: seq<Slot>)
    requires Distinct(t) && t != []
    ensures var s, x := t[..|t| - 1], t[|t| - 1];
            && Distinct(s)
            && View(t) == (if x.Bound? then View(s)[x.name := x.value] else View(s))
            && (x.Bound? ==> x.name !in View(s))
  {
  }

  lemma {:induction false} Count(t: seq<Slot>)
    requires Distinct(t)
    ensures |View(t)| == BoundCount(t)
    decreases |t|
  {
    hide Distinct, View;
    if t == [] {
      NoNames(t);
    } else {
      ViewMore(t);
      Count(t[..|t| - 1]);
    }
  }

  lemma NoNames(t: seq<Slot>)
    requires t == [] && Distinct(t)
    ensures View(t) == map[]
  {
  }

  /** There is a hole exactly when the map has fewer names than the table has slots. */
  lemma RoomLeft(t: seq<Slot>)
    requires Distinct(t)
    ensures |View(t)| <= |t| && (|View(t)| < |t| <==> Vacant(t) < |t|)
  {
    hide View;
    Count(t);
    assert Vacant(t) < |t| ==> t[Vacant(t)].Hole?;
  }

  // ---------- Runs ----------

  datatype Op = SetOp(name: string, value: string) | UnsetOp(name: string)

  function Step(t: seq<Slot>, op: Op): (seq<Slot>, Status) {
    match op
    case SetOp(name, value) => Set(t, name, value)
    case UnsetOp(name) => Unset(t, name)
  }

  /** The names in the protected slots. */
  function Kept(t: seq<Slot>): set<string>
    requires |t| >= PROTECTED
  {
    set i | 0 <= i < PROTECTED && t[i].Bound? :: t[i].name
  }

  /** The same operation on a map with room for so many names, some of which stay. */
  function MapStep(m: map<string, string>, room: nat, kept: set<string>, op: Op): (map<string, string>, Status) {
    match op
    case SetOp(name, value) =>
      if name in m || |m| < room then (m[name := value], Done) else (m, TooBig)
    case UnsetOp(name) =>
      if name in m && name !in kept then (m - {name}, Done) else (m, Invalid)
  }

  predicate Fits(op: Op) {
    op.SetOp? ==> |op.name| < NAME_SZ
  }

  lemma SetRefines(t: seq<Slot>, name: string, value: string)
    requires Good(t) && |name| < NAME_SZ
    ensures var (u, status) := Set(t, name, value);
            && Good(u) && Kept(u) == Kept(t)
            && (View(u), status) == MapStep(View(t), MAX_ENV, Kept(t), SetOp(name, value))
  {
    hide View, Lookup;
    RoomLeft(t);
    ViewAt(t, name);
    var (u, status) := Set(t, name, value);
    if status == Done {
      var i := if Find(t, name) < |t| then Find(t, name) else Vacant(t);
      assert u == t[i := Bound(name, value)];
      forall k | 0 <= k < |t| && Names(t, k, name)
        ensures k == i
      {
        OnlySlot(t, name, k);
      }
      Filled(t, i, name, value, name);
      forall other
        ensures Lookup(u, other) ==
          if other in View(t)[name := value] then Found(View(t)[name := value][other]) else Absent
      {
        Filled(t, i, name, value, other);
        ViewAt(t, other);
      }
      SameViews(u, View(t)[name := value]);
      KeptFilled(t, i, name, value);
    }
  }

  lemma KeptFilled(t: seq<Slot>, i: nat, name: string, value: string)
    requires Good(t) && i < |t| && (t[i].Bound? ==> t[i].name == name)
    ensures Kept(t[i := Bound(name, value)]) == Kept(t)
  {
    var u := t[i := Bound(name, value)];
    forall k | 0 <= k < PROTECTED
      ensures u[k].Bound? && t[k].Bound? && u[k].name == t[k].name
    {
    }
  }

  lemma UnsetRefines(t: seq<Slot>, name: string)
    requires Good(t)
    ensures var (u, status) := Unset(t, name);
            && Good(u) && Kept(u) == Kept(t)
            && (View(u), status) == MapStep(View(t), MAX_ENV, Kept(t), UnsetOp(name))
  {
    hide View, Lookup;
    ViewAt(t, name);
    KeptAt(t, name);
    var (u, status) := Unset(t, name);
    var i := Find(t, name);
    if status == Done {
      Emptied(t, i, name, name);
      forall other
        ensures Lookup(u, other) == if other in View(t) - {name} then Found((View(t) - {name})[other]) else Absent
      {
        Emptied(t, i, name, other);
        ViewAt(t, other);
      }
      SameViews(u, View(t) - {name});
      KeptEmptied(t, i);
    }
  }

  lemma KeptEmptied(t: seq<Slot>, i: nat)
    requires Good(t) && PROTECTED <= i < |t|
    ensures Kept(t[i := Hole]) == Kept(t)
  {
    var u := t[i := Hole];
    forall k | 0 <= k < PROTECTED
      ensures u[k].Bound? && t[k].Bound? && u[k].name == t[k].name
    {
    }
  }

  lemma KeptAt(t: seq<Slot>, name: string)
    requires Good(t)
    ensures name in Kept(t) <==> Find(t, name) < PROTECTED
  {
    var i := Find(t, name);
    if i < PROTECTED {
      assert t[i].name in Kept(t);
    }
    if name in Kept(t) {
      var k :| 0 <= k < PROTECTED && t[k].Bound? && t[k].name == name;
      OnlySlot(t, name, k);
    }
  }

  function Run(t: seq<Slot>, ops: seq<Op>): (seq<Slot>, seq<Status>)
    decreases |ops|
  {
    if ops == [] then (t, []) else
      var (u, status) := Step(t, ops[0]);
      var (v, more) := Run(u, ops[1..]);
      (v, [status] + more)
  }

  function MapRun(m: map<string, string>, room: nat, kept: set<string>, ops: seq<Op>): (map<string, string>, seq<Status>)
    decreases |ops|
  {
    if ops == [] then (m, []) else
      var (u, status) := MapStep(m, room, kept, ops[0]);
      var (v, more) := MapRun(u, room, kept, ops[1..]);
      (v, [status] + more)
  }

  lemma {:induction false} RunOfFits(t: seq<Slot>, ops: seq<Op>)
    requires Good(t) && AllFit(t, ops)
    ensures var (u, answers) := Run(t, ops);
            && Good(u) && Kept(u) == Kept(t)
            && (View(u), answers) == MapRun(View(t), MAX_ENV, Kept(t), ops)
    decreases |ops|
  {
    hide Good, View, Set, Unset, Kept, MapStep, Distinct;
    GoodIs(t);
    if ops != [] {
      match ops[0] {
        case SetOp(name, value) => SetRefinesIff(t, name, value);
        case UnsetOp(name) => UnsetRefines(t, name);
      }
      RunOfFits(Step(t, ops[0]).0, ops[1..]);
    }
  }

  /** Some name has lost its terminator. */
  predicate Broken(t: seq<Slot>) {
    exists i :: 0 <= i < |t| && t[i].Bound? && |t[i].name| >= NAME_SZ
  }

  lemma StepBreaks(t: seq<Slot>, op: Op)
    requires if Good(t) then !Fits(op) && Step(t, op).1 != TooBig else Broken(t)
    ensures Broken(Step(t, op).0)
  {
    var u := Step(t, op).0;
    if Good(t) {
      NotThere(t, op.name);
      assert u[Vacant(t)].Bound?;
    } else {
      var i :| 0 <= i < |t| && t[i].Bound? && |t[i].name| >= NAME_SZ;
      assert u[i] == t[i];
    }
  }

  lemma {:induction false} StaysBroken(t: seq<Slot>, ops: seq<Op>)
    requires Broken(t)
    ensures !Good(Run(t, ops).0)
    decreases |ops|
  {
    if ops != [] {
      hide Step, Set, Unset, Broken;
      BrokenIsBad(t);
      StepBreaks(t, ops[0]);
      StaysBroken(Step(t, ops[0]).0, ops[1..]);
    }
  }

  lemma BrokenIsBad(t: seq<Slot>)
    requires Broken(t)
    ensures !Good(t)
  {
  }

  /** Every set along the run is for a name that keeps its terminator, or is refused. */
  predicate AllFit(t: seq<Slot>, ops: seq<Op>)
    decreases |ops|
  {
    ops == [] || ((Fits(ops[0]) || Step(t, ops[0]).1 == TooBig) && AllFit(Step(t, ops[0]).0, ops[1..]))
  }

  lemma {:induction false} RunBreaks(t: seq<Slot>, ops: seq<Op>)
    requires Good(t) && !AllFit(t, ops)
    ensures !Good(Run(t, ops).0)
    decreases |ops|
  {
    hide Set, Unset, Good, Broken, View, Kept, MapStep;
    GoodIs(t);
    var u := Step(t, ops[0]).0;
    if Fits(ops[0]) || Step(t, ops[0]).1 == TooBig {
      match ops[0] {
        case SetOp(name, value) => SetRefinesIff(t, name, value);
        case UnsetOp(name) => UnsetRefines(t, name);
      }
      RunBreaks(u, ops[1..]);
    } else {
      StepBreaks(t, ops[0]);
      StaysBroken(u, ops[1..]);
    }
  }

  /**
   * Over a run the table answers as a map with room for MAX_ENV names would, the last value set being the one found,
   * each name taking one slot, the protected names staying and a set failing only for a new name with no room left, if
   * and only if every name that gets a slot has fewer than 32 characters.
   */
  lemma RunRefines(t: seq<Slot>, ops: seq<Op>)
    requires Good(t)
    ensures var (u, answers) := Run(t, ops);
            Good(u) && Kept(u) == Kept(t) && (View(u), answers) == MapRun(View(t), MAX_ENV, Kept(t), ops)
            <==> AllFit(t, ops)
  {
    hide Good, View, Run, MapRun, AllFit, Kept;
    GoodIs(t);
    if AllFit(t, ops) {
      RunOfFits(t, ops);
    } else {
      RunBreaks(t, ops);
    }
  }

  lemma GoodIs(t: seq<Slot>)
    requires Good(t)
    ensures |t| == MAX_ENV && Distinct(t)
  {
  }

  // ---------- The table at the start ----------

  function BootNames(): (names: seq<string>)
    ensures |names| == 8
  {
    ["USER", "UID", "GID", "HOME", "PATH", "PWD", "?", "SHELL"]
  }

  /** What init_env leaves (busybox/shell/sh.c:145-169). */
  function Boot(envp: seq<string>): (t: seq<Slot>)
    requires |envp| > 7
    ensures |t| == MAX_ENV
  {
    seq(MAX_ENV, i requires 0 <= i => if i < 8 then Bound(BootNames()[i], envp[i]) else Hole)
  }

  lemma BootIsGood(envp: seq<string>)
    requires |envp| > 7
    ensures Good(Boot(envp))
    ensures {"USER", "UID", "GID", "HOME", "PATH", "PWD"} == Kept(Boot(envp))
  {
    var t, names := Boot(envp), BootNames();
    assert |names[0]| == 4 && |names[1]| == 3 && |names[2]| == 3 && |names[3]| == 4;
    assert |names[4]| == 4 && |names[5]| == 3 && |names[6]| == 1 && |names[7]| == 5;
    assert names[0][0] == 'U' && names[3][0] == 'H' && names[4][1] == 'A' && names[5][1] == 'W';
    assert names[1][0] == 'U' && names[2][0] == 'G' && names[5][0] == 'P' && names[4][0] == 'P';
    forall k | 0 <= k < PROTECTED
      ensures t[k].Bound? && t[k].name == names[k]
    {
    }
    assert t[0].name in Kept(t) && t[1].name in Kept(t) && t[2].name in Kept(t);
    assert t[3].name in Kept(t) && t[4].name in Kept(t) && t[5].name in Kept(t);
  }

  // ---------- Names that do not fit ----------

  /** The 32 bytes strncpy leaves: the name, and zeros if there is room for them. */
  function Field(name: string): (f: seq<char>)
    ensures |f| == NAME_SZ
  {
    seq(NAME_SZ, i requires 0 <= i => if i < |name| then name[i] else '\0')
  }

  /** strcmp of a field, byte by byte, with a string that ends after its last character. */
  function StrCmp(field: seq<char>, name: string, i: nat := 0): Match
    requires i <= |name|
    decreases |name| - i
  {
    if i >= |field| then PastEnd
    else if i == |name| then if field[i] == '\0' then Same else Differs
    else if field[i] != name[i] then Differs
    else StrCmp(field, name, i + 1)
  }

  lemma {:induction false} StrCmpFrom(kept: string, name: string, i: nat)
    requires |kept| <= NAME_SZ && '\0' !in kept && '\0' !in name
    requires i <= |name| && i <= |kept| && kept[..i] == name[..i]
    ensures StrCmp(Field(kept), name, i) == Compare(kept, name)
    decreases |name| - i
  {
    if i < |name| && i < NAME_SZ {
      assert name[i] in name;
      if i < |kept| && kept[i] == name[i] {
        assert kept[..i + 1] == kept[..i] + [kept[i]] && name[..i + 1] == name[..i] + [name[i]];
        StrCmpFrom(kept, name, i + 1);
      } else if i < |kept| {
        assert |name| >= NAME_SZ ==> kept[i] == kept[..][i] && name[..NAME_SZ][i] == name[i];
      }
    } else if i < |kept| {
      assert kept[i] in kept;
    }
  }

  /** The comparison in one step is strcmp on the bytes of the field. */
  lemma CompareIsStrCmp(kept: string, name: string)
    requires |kept| <= NAME_SZ && '\0' !in kept && '\0' !in name
    ensures StrCmp(Field(kept), name) == Compare(kept, name)
  {
    StrCmpFrom(kept, name, 0);
  }

  /**
   * A new name keeps its terminator if and only if it has fewer than 32 characters; then it is found with its value,
   * and otherwise the next search for it reads past the end of its field.
   */
  lemma FoundIffFits(t: seq<Slot>, name: string, value: string)
    requires Good(t) && Set(t, name, value).1 == Done
    ensures Lookup(Set(t, name, value).0, name) == if |name| < NAME_SZ then Found(value) else ReadPast
  {
    var u := Set(t, name, value).0;
    if |name| < NAME_SZ {
      SetRefines(t, name, value);
      ViewAt(u, name);
    } else {
      assert |Cut(name)| == NAME_SZ && Cut(name)[..NAME_SZ] == name[..NAME_SZ];
      NotThere(t, name);
      assert Names(u, Vacant(t), name);
      assert forall k :: 0 <= k < |u| && k != Vacant(t) ==> !Names(u, k, name);
    }
  }

  /** So the table stands for a map after a set if and only if the name has its terminator, or was refused. */
  lemma SetRefinesIff(t: seq<Slot>, name: string, value: string)
    requires Good(t)
    ensures var (u, status) := Set(t, name, value);
            Good(u) && Kept(u) == Kept(t) && (View(u), status) == MapStep(View(t), MAX_ENV, Kept(t), SetOp(name, value))
            <==> |name| < NAME_SZ || status == TooBig
  {
    hide View;
    if |name| < NAME_SZ {
      SetRefines(t, name, value);
    } else {
      NotThere(t, name);
      ViewAt(t, name);
      RoomLeft(t);
      assert |Cut(name)| == NAME_SZ;
      var (u, status) := Set(t, name, value);
      assert status == Done ==> u[Vacant(t)].Bound? && |u[Vacant(t)].name| == NAME_SZ;
    }
  }

  lemma BootSlot(envp: seq<string>, i: nat)
    requires |envp| > 7 && i < 8
    ensures Lookup(Boot(envp), BootNames()[i]) == Found(envp[i])
  {
    BootIsGood(envp);
    hide Find, Compare, BootNames;
    var t := Boot(envp);
    Terminated(t, i);
    OnlySlot(t, t[i].name, i);
  }

  lemma Terminated(t: seq<Slot>, i: nat)
    requires Good(t) && i < |t| && t[i].Bound?
    ensures Distinct(t) && Compare(t[i].name, t[i].name) == Same && Names(t, i, t[i].name)
  {
  }

  /** The name each of the caller's values gets (busybox/shell/sh.h:9-16, sh.c:156-163). */
  lemma BootMeans(envp: seq<string>)
    requires |envp| > 7
    ensures var t := Boot(envp);
      && Lookup(t, "USER") == Found(envp[0]) && Lookup(t, "UID") == Found(envp[1]) && Lookup(t, "GID") == Found(envp[2])
      && Lookup(t, "HOME") == Found(envp[3]) && Lookup(t, "PATH") == Found(envp[4]) && Lookup(t, "PWD") == Found(envp[5])
      && Lookup(t, "?") == Found(envp[6]) && Lookup(t, "SHELL") == Found(envp[7])
  {
    hide Lookup, Boot;
    for i := 0 to 8
      invariant forall k :: 0 <= k < i ==> Lookup(Boot(envp), BootNames()[k]) == Found(envp[k])
    {
      BootSlot(envp, i);
    }
  }

  // ---------- The scans as written ----------

  /** One scan that takes whichever comes first, the name or a hole (busybox/shell/env.c:97-110). */
  function SetAsWritten(t: seq<Slot>, name: string, value: string, i: nat := 0): (seq<Slot>, Status)
    requires i <= |t|
    decreases |t| - i
  {
    if i == |t| then (t, TooBig)
    else if t[i].Hole? then (t[i := Bound(Cut(name), value)], Done)
    else if Compare(t[i].name, name) == Same then (t[i := Bound(name, value)], Done)
    else if Compare(t[i].name, name) == PastEnd then (t, Overread)
    else SetAsWritten(t, name, value, i + 1)
  }

  lemma {:induction false} ScanFinds(t: seq<Slot>, name: string, value: string, i: nat)
    requires i <= |t|
    ensures var f, h := Find(t, name, i), Vacant(t, i);
            SetAsWritten(t, name, value, i) ==
            if h < f then (t[h := Bound(Cut(name), value)], Done)
            else if f == |t| then (t, TooBig)
            else if Compare(t[f].name, name) == Same then (t[f := Bound(name, value)], Done)
            else (t, Overread)
    decreases |t| - i
  {
    if i < |t| {
      ScanFinds(t, name, value, i + 1);
    }
  }

  /** The single scan does what it should unless a hole lies before the slot of the name. */
  lemma AsWrittenIff(t: seq<Slot>, name: string, value: string)
    ensures SetAsWritten(t, name, value) == Set(t, name, value) <==> !(Vacant(t) < Find(t, name) < |t|)
  {
    ScanFinds(t, name, value, 0);
    var f, h := Find(t, name), Vacant(t);
    if h < f < |t| {
      assert t[h := Bound(Cut(name), value)][h].Bound? && t[h].Hole?;
    }
  }

  datatype Outcome = At(i: nat) | Missing | NullName | Stray

  /** Comparing with every name in turn, a hole's null pointer included (env.c:126-127, echo.c:16-17). */
  function SeekAsWritten(t: seq<Slot>, name: string, i: nat := 0): Outcome
    requires i <= |t|
    decreases |t| - i
  {
    if i == |t| then Missing
    else if t[i].Hole? then NullName
    else if Compare(t[i].name, name) == Same then At(i)
    else if Compare(t[i].name, name) == PastEnd then Stray
    else SeekAsWritten(t, name, i + 1)
  }

  /** The scans of unset and echo reach a null name if and only if a hole lies before the name, or at all when it is absent. */
  lemma {:induction false} SeekIff(t: seq<Slot>, name: string, i: nat)
    requires i <= |t|
    ensures var f := Find(t, name, i);
            SeekAsWritten(t, name, i) ==
            if Vacant(t, i) < f then NullName
            else if f == |t| then Missing
            else if Compare(t[f].name, name) == Same then At(f)
            else Stray
    decreases |t| - i
  {
    if i < |t| {
      SeekIff(t, name, i + 1);
    }
  }

  // ---------- Where the scans as written go wrong ----------

  lemma FirstSlot(t: seq<Slot>, name: string, i: nat)
    requires i < |t| && t[i].Bound? && t[i].name == name && |name| < NAME_SZ
    requires forall k :: 0 <= k < i ==> !Names(t, k, name)
    ensures Find(t, name) == i && Compare(t[i].name, name) == Same
  {
    assert Names(t, i, name);
  }

  lemma FirstHole(t: seq<Slot>, i: nat)
    requires i < |t| && t[i].Hole? && forall k :: 0 <= k < i ==> t[k].Bound?
    ensures Vacant(t) == i
  {
  }

  lemma NotAtBoot(envp: seq<string>, name: string)
    requires |envp| > 7 && |name| < NAME_SZ && name !in BootNames()
    ensures forall k :: 0 <= k < MAX_ENV ==> !Names(Boot(envp), k, name)
    ensures forall k :: 0 <= k < 8 ==> Boot(envp)[k].Bound?
    ensures forall k :: 8 <= k < MAX_ENV ==> Boot(envp)[k].Hole?
  {
    var t, names := Boot(envp), BootNames();
    assert |names[0]| == 4 && |names[1]| == 3 && |names[2]| == 3 && |names[3]| == 4;
    assert |names[4]| == 4 && |names[5]| == 3 && |names[6]| == 1 && |names[7]| == 5;
    assert forall k :: 0 <= k < 8 ==> t[k].name == names[k] && names[k] != name;
  }

  /**
   * From the start, set `a`, set `b`, unset `a`, set `b`: as written the last call binds `b` a second time, in the hole
   * `a` left, and the scan for `b` before it meets the null name there.
   */
  lemma BoundTwice(envp: seq<string>, a: string, b: string, x: string, y: string, z: string)
    requires |envp| > 7 && a != b && |a| < NAME_SZ && |b| < NAME_SZ && a !in BootNames() && b !in BootNames()
    ensures var t1 := SetAsWritten(Boot(envp), a, x).0; var t2 := SetAsWritten(t1, b, y).0;
      && |t2| == MAX_ENV && SeekAsWritten(t2, a) == At(8)
      && var t3 := t2[8 := Hole]; var t4 := SetAsWritten(t3, b, z).0;
         && SeekAsWritten(t3, b) == NullName
         && |t4| == MAX_ENV && t4[8] == Bound(b, z) && t4[9] == Bound(b, y) && !Good(t4)
  {
    hide SetAsWritten, SeekAsWritten, Find, Vacant, Boot, Compare;
    var t := Boot(envp);
    NotAtBoot(envp, a);
    NotAtBoot(envp, b);
    NotThere(t, a);
    FirstHole(t, 8);
    ScanFinds(t, a, x, 0);
    var t1 := t[8 := Bound(a, x)];
    OtherName(a, b);
    OtherName(b, a);
    StillNot(t, 8, Bound(a, x), t1, b, MAX_ENV);
    NotThere(t1, b);
    FirstHole(t1, 9);
    ScanFinds(t1, b, y, 0);
    var t2 := t1[9 := Bound(b, y)];
    StillNot(t, 8, Bound(a, x), t1, a, 8);
    StillNot(t1, 9, Bound(b, y), t2, a, 8);
    FirstSlot(t2, a, 8);
    FirstHole(t2, 10);
    SeekIff(t2, a, 0);
    var t3 := t2[8 := Hole];
    StillNot(t1, 9, Bound(b, y), t2, b, 9);
    StillNot(t2, 8, Hole, t3, b, 9);
    FirstSlot(t3, b, 9);
    FirstHole(t3, 8);
    SeekIff(t3, b, 0);
    ScanFinds(t3, b, z, 0);
  }

  lemma StillNot(t: seq<Slot>, i: nat, s: Slot, u: seq<Slot>, name: string, n: nat)
    requires i < |t| && u == t[i := s] && n <= |t| && forall k :: 0 <= k < n && k != i ==> !Names(t, k, name)
    requires s.Bound? && i < n ==> Compare(s.name, name) == Differs
    ensures forall k :: 0 <= k < n ==> !Names(u, k, name)
  {
    forall k | 0 <= k < n
      ensures !Names(u, k, name)
    {
      assert k != i ==> !Names(t, k, name);
    }
  }

  lemma OtherName(a: string, b: string)
    requires a != b && |a| < NAME_SZ
    ensures Compare(a, b) == Differs
  {
  }
}

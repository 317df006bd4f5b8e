/** busybox/shell/env.c: the environment table of the shell, two arrays changed in place. */
module EnvTable {
  import opened Blocks
  import opened EnvSpec
  import Words

  /** The arguments from one on, each followed by a space (busybox/shell/env.c:89-94). */
  function Joined(argv: seq<string>): string {
    if argv == [] then "" else argv[0] + " " + Joined(argv[1..])
  }

  /** The words joined with single spaces, and one space more. */
  lemma {:induction false} JoinedIs(argv: seq<string>)
    requires argv != []
    ensures Joined(argv) == Words.Join(argv) + " "
    decreases |argv|
  {
    if |argv| > 1 {
      JoinedIs(argv[1..]);
      assert argv[0] + " " + (Words.Join(argv[1..]) + " ") == argv[0] + " " + Words.Join(argv[1..]) + " ";
    } else {
      assert argv[1..] == [];
    }
  }

  class Environment {
    const names: array<Option<string>>
    const values: array<string>

    ghost predicate Valid()
      reads this, names, values
    {
      && names.Length == values.Length == MAX_ENV
      && Good(State())
    }

    function SlotAt(i: nat): Slot
      requires i < names.Length <= values.Length
      reads names, values
    {
      if names[i] == None then Hole else Bound(names[i].value, values[i])
    }

    ghost function State(): (t: seq<Slot>)
      requires names.Length <= values.Length
      reads names, values
      ensures |t| == names.Length && forall i :: 0 <= i < |t| ==> t[i] == SlotAt(i)
    {
      seq(names.Length, i requires 0 <= i < names.Length reads names, values => SlotAt(i))
    }

    /** init_env (busybox/shell/sh.c:145-169). */
    constructor (envp: seq<string>)
      requires |envp| > 7
      ensures Valid() && fresh(names) && fresh(values)
      ensures State() == Boot(envp)
    {
      names := new Option<string>[MAX_ENV](i => if 0 <= i < 8 then Some(BootNames()[i]) else None);
      values := new string[MAX_ENV](i requires 0 <= i => if i < 8 then envp[i] else "");
      new;
      BootIsGood(envp);
      assert State() == Boot(envp);
    }

    /** The slot of a name: the search of env_unset and of echo, passing over holes. */
    method Seek(name: string) returns (i: nat)
      requires names.Length <= values.Length
      ensures i == Find(State(), name)
    {
      i := 0;
      while i < names.Length && (names[i] == None || Compare(names[i].value, name) == Differs)
        invariant i <= names.Length && Find(State(), name) == Find(State(), name, i)
      {
        i := i + 1;
      }
    }

    /** Writes one slot. */
    method Put(i: nat, name: Option<string>, value: string)
      requires names.Length == values.Length && i < names.Length
      modifies values, names
      ensures names.Length == values.Length
      ensures State() == old(State())[i := if name == None then Hole else Bound(name.value, value)]
    {
      ghost var t := State();
      names[i] := name;
      values[i] := value;
      assert State() == t[i := if name == None then Hole else Bound(name.value, value)];
    }

    /** The first hole. */
    method FindHole() returns (i: nat)
      requires names.Length <= values.Length
      ensures i == Vacant(State())
    {
      i := 0;
      while i < names.Length && names[i] != None
        invariant i <= names.Length && Vacant(State()) == Vacant(State(), i)
      {
        i := i + 1;
      }
    }

    /** The arguments from one on, appended to the value one at a time; `None` is a store past the end of its block. */
    method JoinArgs(argv: seq<string>) returns (value: Option<string>)
      requires argv != []
      ensures value == if |Joined(argv[1..])| < VALUE_SZ then Some(Joined(argv[1..])) else None
    {
      var text, k := "", 1;
      assert Joined(argv[1..]) == text + Joined(argv[1..]);
      while k < |argv|
        invariant 1 <= k <= |argv| && |text| < VALUE_SZ
        invariant Joined(argv[1..]) == text + Joined(argv[k..])
      {
        assert argv[k..][1..] == argv[k + 1..];
        text := text + argv[k] + " ";
        k := k + 1;
        if |text| >= VALUE_SZ {
          return None;
        }
      }
      assert argv[k..] == [] && text + Joined([]) == text;
      return Some(text);
    }

    /** env_set (busybox/shell/env.c:74-114), searching the whole table for the name before taking a hole. */
    method EnvSet(argv: seq<string>) returns (status: Status)
      requires names.Length == values.Length == MAX_ENV
      modifies values, names
      ensures names.Length == values.Length == MAX_ENV
      ensures if |argv| < 2 then State() == old(State()) && status == Invalid
              else if |Joined(argv[1..])| >= VALUE_SZ then State() == old(State()) && status == Overflow
              else (State(), status) == Set(old(State()), argv[0], Joined(argv[1..]))
      ensures old(Valid()) && (|argv| > 0 ==> |argv[0]| < NAME_SZ) ==> Valid()
    {
      hide Good, Find, Vacant, Joined, Cut, View, Compare;
      if |argv| < 2 {
        return Invalid;
      }
      var joined := JoinArgs(argv);
      if joined == None {
        return Overflow;
      }
      var name, value := argv[0], joined.value;
      if Good(State()) && |name| < NAME_SZ {
        SetRefines(State(), name, value);
      }
      var i := Seek(name);
      if i < names.Length {
        if Compare(names[i].value, name) == PastEnd {
          return Overread;
        }
        MatchIsSame(names[i].value, name);
        Put(i, Some(name), value);
        return Done;
      }
      var h := FindHole();
      if h < names.Length {
        Put(h, Some(Cut(name)), value);
        return Done;
      }
      return TooBig;
    }

    /** env_unset (busybox/shell/env.c:116-143). */
    method EnvUnset(argv: seq<string>) returns (status: Status)
      requires names.Length == values.Length == MAX_ENV
      modifies values, names
      ensures names.Length == values.Length == MAX_ENV
      ensures if argv == [] then State() == old(State()) && status == Invalid
              else (State(), status) == Unset(old(State()), argv[0])
      ensures old(Valid()) ==> Valid()
    {
      hide Good, Find, View, Compare;
      if argv == [] {
        return Invalid;
      }
      if Good(State()) {
        UnsetRefines(State(), argv[0]);
      }
      var i := Seek(argv[0]);
      if i < names.Length && Compare(names[i].value, argv[0]) == PastEnd {
        return Overread;
      }
      if i == names.Length || i < PROTECTED {
        return Invalid;
      }
      Put(i, None, "");
      return Done;
    }

    /** What echo prints for "$name" (busybox/shell/echo.c:13-20). */
    method Echo(name: string) returns (reply: Reply)
      requires names.Length == values.Length == MAX_ENV
      ensures reply == Lookup(State(), name)
      ensures Valid() ==> reply == if name in View(State()) then Found(View(State())[name]) else Absent
    {
      if Valid() {
        ViewAt(State(), name);
      }
      var i := Seek(name);
      if i == names.Length {
        return Absent;
      }
      reply := if Compare(names[i].value, name) == Same then Found(values[i]) else ReadPast;
    }
  }

  lemma MatchIsSame(kept: string, name: string)
    ensures Compare(kept, name) == Same ==> kept == name
  {
  }
}

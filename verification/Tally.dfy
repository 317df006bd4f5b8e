/** Tables of tagged entries with use counts: how many entries are in use, told from the tags in use. */
module Tally {
  datatype Use<T> = Use(tag: T, count: nat)

  /** The tags somebody is using. */
  ghost function TagsInUse<T>(us: seq<Use<T>>): set<T> {
    set i | 0 <= i < |us| && us[i].count > 0 :: us[i].tag
  }

  function UsedCount<T>(us: seq<Use<T>>): (n: nat)
    ensures n <= |us| && (n == |us| <==> forall k :: 0 <= k < |us| ==> us[k].count > 0)
  {
    if us == [] then 0
    else
      assert forall k :: 0 <= k < |us| ==> us[k] == if k < |us| - 1 then us[..|us| - 1][k] else us[|us| - 1];
      UsedCount(us[..|us| - 1]) + if us[|us| - 1].count > 0 then 1 else 0
  }

  /** No tag is in use twice. */
  ghost predicate TagsApart<T>(us: seq<Use<T>>) {
    forall i, j :: 0 <= i < j < |us| && us[i].count > 0 && us[j].count > 0 ==> us[i].tag != us[j].tag
  }

  lemma OneMoreUsed<T>(us: seq<Use<T>>)
    requires us != [] && TagsApart(us)
    ensures var s, u := us[..|us| - 1], us[|us| - 1];
      && TagsApart(s)
      && TagsInUse(us) == (if u.count > 0 then TagsInUse(s) + {u.tag} else TagsInUse(s))
      && (u.count > 0 ==> u.tag !in TagsInUse(s))
  {
  }

  lemma {:induction false} CountUsed<T>(us: seq<Use<T>>)
    requires TagsApart(us)
    ensures |TagsInUse(us)| == UsedCount(us)
    decreases |us|
  {
    hide TagsApart, TagsInUse;
    if us == [] {
      NoneUsed(us);
    } else {
      OneMoreUsed(us);
      CountUsed(us[..|us| - 1]);
    }
  }

  lemma NoneUsed<T>(us: seq<Use<T>>)
    requires us == []
    ensures TagsInUse(us) == {}
  {
  }

  /** Every entry is in use exactly when as many tags are in use as there are entries. */
  lemma AllUsedIff<T>(us: seq<Use<T>>)
    requires TagsApart(us)
    ensures |TagsInUse(us)| <= |us|
    ensures |TagsInUse(us)| == |us| <==> forall k :: 0 <= k < |us| ==> us[k].count > 0
  {
    hide TagsApart, TagsInUse;
    CountUsed(us);
  }
}

/** The checkpoint upgrader: every registered upgrade that a checkpoint lacks is applied after the upgrades it
    depends on, in rounds; checkpoints of the old numbered kind are first given the tags of their versions. */
module CptUpgrader {
  import opened Options

  type Tag = string

  /** For every registered tag, the tags its upgrade depends on. */
  type Registry = map<Tag, seq<Tag>>

  // ---------------------------------------------------------------- the rounds

  predicate IsReady(depends: seq<Tag>, tags: set<Tag>)
  {
    forall i :: 0 <= i < |depends| ==> depends[i] in tags
  }

  method Ready(depends: seq<Tag>, tags: set<Tag>) returns (r: bool)
    ensures r == IsReady(depends, tags)
  {
    for i := 0 to |depends|
      invariant IsReady(depends[..i], tags)
    {
      if depends[i] !in tags {
        return false;
      }
    }
    assert depends[..|depends|] == depends;
    return true;
  }

  /** Nothing outside `tags` can be applied any more. */
  predicate Closed(reg: Registry, tags: set<Tag>)
  {
    forall t :: t in reg && IsReady(reg[t], tags) ==> t in tags
  }

  /** `last` is the least set of tags that has `first` and is closed. */
  ghost predicate Least(reg: Registry, first: set<Tag>, last: set<Tag>)
  {
    && first <= last && Closed(reg, last)
    && forall s: set<Tag> :: first <= s && Closed(reg, s) ==> last <= s
  }

  function Set(log: seq<Tag>): set<Tag> { set t | t in log }

  /** A legal history: missing upgrades, each once, each after everything it depends on. */
  ghost predicate InOrder(reg: Registry, first: set<Tag>, log: seq<Tag>)
  {
    && (forall i :: 0 <= i < |log| ==> Applicable(reg, first, log, i))
    && forall i, j :: 0 <= i < j < |log| ==> log[i] != log[j]
  }

  ghost predicate Applicable(reg: Registry, first: set<Tag>, log: seq<Tag>, i: nat)
    requires i < |log|
  {
    log[i] in reg && log[i] !in first && IsReady(reg[log[i]], first + Set(log[..i]))
  }

  /** The state between two upgrades. */
  ghost predicate Progress(reg: Registry, first: set<Tag>, tags: set<Tag>, log: seq<Tag>)
  {
    InOrder(reg, first, log) && tags == first + Set(log)
  }

  lemma ProgressNext(reg: Registry, first: set<Tag>, tags: set<Tag>, log: seq<Tag>, t: Tag)
    requires Progress(reg, first, tags, log) && t in reg && t !in tags && IsReady(reg[t], tags)
    ensures Progress(reg, first, tags + {t}, log + [t])
  {
    var next := log + [t];
    forall i | 0 <= i < |next|
      ensures Applicable(reg, first, next, i)
    {
      assert next[..i] == log[..i];
      assert i < |log| ==> Applicable(reg, first, log, i);
      assert log[..|log|] == log;
    }
    assert Set(next) == Set(log) + {t};
  }

  /** Everything in a legal history belongs to every closed set that has the first tags. */
  lemma {:induction false} HistoryInside(reg: Registry, first: set<Tag>, log: seq<Tag>, s: set<Tag>, n: nat)
    requires InOrder(reg, first, log) && first <= s && Closed(reg, s) && n <= |log|
    ensures Set(log[..n]) <= s
  {
    if n > 0 {
      HistoryInside(reg, first, log, s, n - 1);
      assert Applicable(reg, first, log, n - 1);
      assert IsReady(reg[log[n - 1]], s);
      assert log[..n] == log[..n - 1] + [log[n - 1]];
    }
  }

  lemma StuckIsLeast(reg: Registry, first: set<Tag>, tags: set<Tag>, log: seq<Tag>)
    requires Progress(reg, first, tags, log) && Closed(reg, tags)
    ensures Least(reg, first, tags)
  {
    forall s: set<Tag> | first <= s && Closed(reg, s)
      ensures tags <= s
    {
      HistoryInside(reg, first, log, s, |log|);
      assert log[..|log|] == log;
    }
  }

  lemma NoneReady(reg: Registry, tags: set<Tag>, toApply: set<Tag>)
    requires toApply == reg.Keys - tags && forall t :: t in toApply ==> !IsReady(reg[t], tags)
    ensures Closed(reg, tags) && (reg.Keys <= tags <==> toApply == {})
  {
    forall t | t in reg && IsReady(reg[t], tags)
      ensures t in tags
    {
      assert t in toApply || t in tags;
    }
    forall t | t in reg.Keys && toApply == {}
      ensures t in tags
    {
      assert t !in toApply;
    }
  }

  /** The rounds of process_file. The order within a round is not determined. */
  method ApplyAll(reg: Registry, first: set<Tag>) returns (ok: bool, tags: set<Tag>, log: seq<Tag>)
    ensures InOrder(reg, first, log) && tags == first + Set(log)
    ensures Least(reg, first, tags)
    ensures ok <==> reg.Keys <= tags
    ensures reg.Keys <= first ==> log == []
  {
    tags, log := first, [];
    var toApply := reg.Keys - tags;
    while toApply != {}
      invariant Progress(reg, first, tags, log) && toApply == reg.Keys - tags
      invariant reg.Keys <= first ==> log == []
      decreases toApply
    {
      var ready := set t | t in toApply && IsReady(reg[t], tags);
      assert forall t :: t in toApply && IsReady(reg[t], tags) ==> t in ready;
      if ready == {} {
        NoneReady(reg, tags, toApply);
        StuckIsLeast(reg, first, tags, log);
        return false, tags, log;
      }
      tags, log := ApplyRound(reg, first, tags, log, ready);
      toApply := toApply - ready;
      assert ready <= reg.Keys;
    }
    NoneReady(reg, tags, toApply);
    StuckIsLeast(reg, first, tags, log);
    ok := true;
  }

  method ApplyRound(reg: Registry, ghost first: set<Tag>, tags0: set<Tag>, log0: seq<Tag>, ready: set<Tag>)
    returns (tags: set<Tag>, log: seq<Tag>)
    requires Progress(reg, first, tags0, log0)
    requires forall t :: t in ready ==> t in reg && t !in tags0 && IsReady(reg[t], tags0)
    ensures Progress(reg, first, tags, log) && tags == tags0 + ready
  {
    tags, log := tags0, log0;
    var rest := ready;
    while rest != {}
      invariant Progress(reg, first, tags, log) && rest <= ready && tags == tags0 + (ready - rest)
    {
      var t :| t in rest;
      ProgressNext(reg, first, tags, log, t);
      tags, log, rest := tags + {t}, log + [t], rest - {t};
    }
  }

  /** Any two runs end with the same tags, whatever the order within their rounds. */
  lemma EndIsUnique(reg: Registry, first: set<Tag>, a: set<Tag>, b: set<Tag>)
    requires Least(reg, first, a) && Least(reg, first, b)
    ensures a == b
  {
  }

  /** A knot: missing upgrades, each waiting for another of them or for a tag that nothing provides. */
  ghost predicate Knot(reg: Registry, first: set<Tag>, c: set<Tag>)
  {
    && c != {} && c <= reg.Keys - first
    && forall t :: t in c ==> exists i :: 0 <= i < |reg[t]| && reg[t][i] !in first && (reg[t][i] in c || reg[t][i] !in reg)
  }

  /** The run fails if and only if the missing upgrades have a knot. */
  lemma FailsIffKnot(reg: Registry, first: set<Tag>, last: set<Tag>)
    requires Least(reg, first, last)
    ensures !(reg.Keys <= last) <==> exists c :: Knot(reg, first, c)
  {
    if !(reg.Keys <= last) {
      assert Knot(reg, first, reg.Keys - last) by {
        forall t | t in reg.Keys - last
          ensures exists i :: 0 <= i < |reg[t]| && reg[t][i] !in first
                              && (reg[t][i] in reg.Keys - last || reg[t][i] !in reg)
        {
          assert !IsReady(reg[t], last);
        }
      }
    }
    forall c | Knot(reg, first, c)
      ensures !(reg.Keys <= last)
    {
      assert Closed(reg, first + (reg.Keys - c));
      assert last <= first + (reg.Keys - c);
      var t :| t in c;
      assert t in reg && t !in last;
    }
  }

  // ---------------------------------------------------------------- which upgrades come after which

  /** Every legal history can be continued up to the least closed set. */
  lemma Saturate(reg: Registry, first: set<Tag>, tags: set<Tag>, log: seq<Tag>) returns (all: set<Tag>, full: seq<Tag>)
    requires Progress(reg, first, tags, log)
    ensures Progress(reg, first, all, full) && Least(reg, first, all)
    decreases reg.Keys - tags
  {
    if t :| t in reg.Keys - tags && IsReady(reg[t], tags) {
      ProgressNext(reg, first, tags, log, t);
      assert t in reg.Keys - tags && t !in reg.Keys - (tags + {t});
      all, full := Saturate(reg, first, tags + {t}, log + [t]);
    } else {
      StuckIsLeast(reg, first, tags, log);
      all, full := tags, log;
    }
  }

  /** Whenever x is applied, y is there. */
  ghost predicate AlwaysAfter(reg: Registry, first: set<Tag>, x: Tag, y: Tag)
  {
    forall log, j :: InOrder(reg, first, log) && 0 <= j < |log| && log[j] == x ==> y in first + Set(log[..j])
  }

  /** A history is a legal one without y up to its first y. */
  lemma BeforeOnly(reg: Registry, first: set<Tag>, y: Tag, log: seq<Tag>, n: nat)
    requires InOrder(reg, first, log) && n <= |log| && y !in log[..n]
    ensures InOrder(reg - {y}, first, log[..n])
  {
    var head := log[..n];
    forall i | 0 <= i < n
      ensures Applicable(reg - {y}, first, head, i)
    {
      assert head[..i] == log[..i] && head[i] == log[i];
      assert Applicable(reg, first, log, i);
    }
  }

  lemma StillInOrder(reg: Registry, first: set<Tag>, y: Tag, log: seq<Tag>)
    requires InOrder(reg - {y}, first, log)
    ensures InOrder(reg, first, log) && y !in log
  {
    forall i | 0 <= i < |log|
      ensures Applicable(reg, first, log, i) && log[i] != y
    {
      assert Applicable(reg - {y}, first, log, i);
    }
  }

  lemma ReachedWithout(reg: Registry, first: set<Tag>, x: Tag, y: Tag, last: set<Tag>, log: seq<Tag>, j: nat)
    requires x != y && Least(reg - {y}, first, last)
    requires InOrder(reg, first, log) && j < |log| && log[j] == x && y !in log[..j]
    ensures x in last
  {
    var head := log[..j + 1];
    assert head == log[..j] + [x];
    BeforeOnly(reg, first, y, log, j + 1);
    HistoryInside(reg - {y}, first, head, last, j + 1);
    assert head[..j + 1] == head && head[j] == x && x in Set(head);
  }

  /** The order of two missing upgrades is settled in all legal histories if and only if the later one cannot be
      reached without the earlier. */
  lemma AlwaysAfterIff(reg: Registry, first: set<Tag>, x: Tag, y: Tag, last: set<Tag>)
    requires x != y && x !in first && y !in first && Least(reg - {y}, first, last)
    ensures AlwaysAfter(reg, first, x, y) <==> x !in last
  {
    forall log, j | InOrder(reg, first, log) && 0 <= j < |log| && log[j] == x && x !in last
      ensures y in Set(log[..j])
    {
      if y !in log[..j] {
        ReachedWithout(reg, first, x, y, last, log, j);
      }
    }
    if x in last {
      var all, full := Saturate(reg - {y}, first, first, []);
      EndIsUnique(reg - {y}, first, all, last);
      StillInOrder(reg, first, y, full);
      var j :| 0 <= j < |full| && full[j] == x;
      assert y !in Set(full[..j]);
    }
  }

  // ---------------------------------------------------------------- loading the upgraders

  /** What one upgrader file defines, after its missing attributes are filled in. */
  datatype Upgrader = Upgrader(tag: Tag, depends: seq<Tag>, legacyVersion: Option<int>)

  /** The dictionary of versions refers to objects that have those versions. */
  ghost predicate Versions(made: seq<Upgrader>, legacy: map<int, nat>)
  {
    forall v :: v in legacy ==> legacy[v] < |made| && made[legacy[v]].legacyVersion == Some(v)
  }

  /** The dictionary of tags refers to objects that have those tags. */
  ghost predicate Tags(made: seq<Upgrader>, byTag: map<Tag, nat>)
  {
    forall t :: t in byTag ==> byTag[t] < |made| && made[byTag[t]].tag == t
  }

  function Dependences(made: seq<Upgrader>, byTag: map<Tag, nat>): Registry
    requires Tags(made, byTag)
  {
    map t | t in byTag :: made[byTag[t]].depends
  }

  function VersionNames(made: seq<Upgrader>, legacy: map<int, nat>): map<int, Tag>
    requires Versions(made, legacy)
  {
    map v | v in legacy :: made[legacy[v]].tag
  }

  /** The versions 3 to end - 1 are there, and 2 as well if there are any. */
  ghost predicate Run(legacy: map<int, nat>, end: int)
  {
    end >= 3 && (forall v :: 3 <= v < end ==> v in legacy) && (end > 3 ==> 2 in legacy)
  }

  ghost predicate RunEnds(legacy: map<int, nat>, end: int) { Run(legacy, end) && end !in legacy }

  ghost predicate Link(made: seq<Upgrader>, legacy: map<int, nat>, v: int)
    requires Versions(made, legacy)
  {
    v in legacy && v - 1 in legacy && made[legacy[v]].depends == [made[legacy[v - 1]].tag]
  }

  /** `made` is `was` with the versions 3 to end - 1 linked and nothing else changed. */
  ghost predicate Linked(was: seq<Upgrader>, made: seq<Upgrader>, legacy: map<int, nat>, end: int)
    requires Versions(made, legacy)
  {
    && |made| == |was|
    && (forall v :: 3 <= v < end ==> Link(made, legacy, v))
    && (forall k :: 0 <= k < |made| ==> made[k] == was[k].(depends := made[k].depends))
    && forall k :: 0 <= k < |made| ==> made[k] == was[k] || InRun(made[k], legacy, k, end)
  }

  /** Object k is the one found by a version from 3 to end - 1. */
  predicate InRun(u: Upgrader, legacy: map<int, nat>, k: nat, end: int)
  {
    && u.legacyVersion.Some? && 3 <= u.legacyVersion.value < end
    && u.legacyVersion.value in legacy && legacy[u.legacyVersion.value] == k
  }

  lemma LinkedNext(was: seq<Upgrader>, made: seq<Upgrader>, legacy: map<int, nat>, i: int)
    requires Versions(made, legacy) && Run(legacy, i) && Linked(was, made, legacy, i)
    requires i in legacy && i - 1 in legacy
    ensures var next := made[legacy[i] := made[legacy[i]].(depends := [made[legacy[i - 1]].tag])];
            Versions(next, legacy) && Linked(was, next, legacy, i + 1)
  {
    var next := made[legacy[i] := made[legacy[i]].(depends := [made[legacy[i - 1]].tag])];
    forall v | 3 <= v < i
      ensures Link(next, legacy, v)
    {
      assert Link(made, legacy, v);
    }
  }

  class Upgraders {
    /** The objects made so far; the dictionaries refer to them by position. */
    var made: seq<Upgrader>
    var byTag: map<Tag, nat>
    var legacy: map<int, nat>

    ghost predicate Valid()
      reads this
    {
      && Tags(made, byTag)
      && Versions(made, legacy)
    }

    constructor ()
      ensures Valid() && made == [] && byTag == map[] && legacy == map[]
    {
      made, byTag, legacy := [], map[], map[];
    }

    method Add(u: Upgrader)
      requires Valid()
      modifies this
      ensures Valid() && made == old(made) + [u] && byTag == old(byTag)[u.tag := old(|made|)]
      ensures legacy == match u.legacyVersion case None => old(legacy) case Some(v) => old(legacy)[v := old(|made|)]
    {
      var n := |made|;
      made := made + [u];
      if u.legacyVersion.Some? {
        legacy := legacy[u.legacyVersion.value := n];
      }
      byTag := byTag[u.tag := n];
    }

    /** Makes each legacy upgrade depend on the one before. It fails only when version 3 is there and version 2
        is not. */
    method LinkLegacy() returns (ok: bool)
      requires Valid()
      modifies this
      ensures Valid() && byTag == old(byTag) && legacy == old(legacy)
      ensures ok <==> 3 !in legacy || 2 in legacy
      ensures ok ==> exists end :: RunEnds(legacy, end) && Linked(old(made), made, legacy, end)
      ensures !ok ==> made == old(made)
    {
      var i := 3;
      ghost var rest := legacy.Keys;
      while i in legacy
        invariant Valid() && byTag == old(byTag) && legacy == old(legacy)
        invariant Run(legacy, i) && Linked(old(made), made, legacy, i)
        invariant rest == set v | v in legacy && !(3 <= v < i)
        invariant i == 3 ==> made == old(made)
        decreases rest
      {
        if i - 1 !in legacy {
          return false;
        }
        ghost var before := made;
        var k, tag := legacy[i], made[legacy[i - 1]].tag;
        made := made[k := made[k].(depends := [tag])];
        LinkedNext(old(made), before, legacy, i);
        i, rest := i + 1, rest - {i};
      }
      ok := true;
      assert RunEnds(legacy, i);
    }

    /** What the dictionaries say, by tag and by version. */
    function Registered(): Registry
      requires Valid()
      reads this
    {
      Dependences(made, byTag)
    }

    function Names(): map<int, Tag>
      requires Valid()
      reads this
    {
      VersionNames(made, legacy)
    }

    /** When no later file took over the tag of a legacy upgrade, the registry has the whole chain. */
    lemma LinkedIsChain(was: seq<Upgrader>, end: int)
      requires Valid() && Run(legacy, end) && Linked(was, made, legacy, end)
      requires forall v :: v in legacy ==> made[legacy[v]].tag in byTag && byTag[made[legacy[v]].tag] == legacy[v]
      ensures Chain(Registered(), Names(), end)
    {
      forall v | 3 <= v < end
        ensures ChainLink(Registered(), Names(), v)
      {
        assert Link(made, legacy, v);
      }
    }
  }

  // ---------------------------------------------------------------- the order of the numbered versions

  /** The upgrade of version v depends on that of version v - 1 and nothing else. */
  ghost predicate ChainLink(reg: Registry, names: map<int, Tag>, v: int)
  {
    v in names && v - 1 in names && names[v] in reg && reg[names[v]] == [names[v - 1]]
  }

  ghost predicate Chain(reg: Registry, names: map<int, Tag>, end: int)
  {
    forall v :: 3 <= v < end ==> ChainLink(reg, names, v)
  }

  ghost predicate DownClosed(names: map<int, Tag>, first: set<Tag>, end: int)
  {
    forall v :: 3 <= v < end && v in names && v - 1 in names && names[v] in first ==> names[v - 1] in first
  }

  lemma {:induction false} EarlierHeld(reg: Registry, names: map<int, Tag>, first: set<Tag>, end: int, a: int, b: int)
    requires Chain(reg, names, end) && DownClosed(names, first, end) && 2 <= a <= b < end
    requires b in names && names[b] in first
    ensures a in names && names[a] in first
    decreases b - a
  {
    if a < b {
      assert ChainLink(reg, names, b);
      EarlierHeld(reg, names, first, end, a, b - 1);
    }
  }

  /** In every legal history, when the upgrade of version b is applied, every earlier version is already there. */
  lemma {:induction false} VersionsInOrder(reg: Registry, names: map<int, Tag>, first: set<Tag>, log: seq<Tag>,
                                           end: int, a: int, b: int, j: nat)
    requires Chain(reg, names, end) && DownClosed(names, first, end) && InOrder(reg, first, log)
    requires 2 <= a < b < end && b in names && j < |log| && log[j] == names[b]
    ensures a in names && names[a] in first + Set(log[..j])
    decreases b
  {
    assert ChainLink(reg, names, b) && Applicable(reg, first, log, j);
    var dep := reg[log[j]][0];
    assert dep == names[b - 1] && dep in first + Set(log[..j]);
    if dep in first {
      EarlierHeld(reg, names, first, end, a, b - 1);
    } else if a < b - 1 {
      var i :| 0 <= i < j && log[..j][i] == dep;
      VersionsInOrder(reg, names, first, log, end, a, b - 1, i);
      assert log[..i] <= log[..j];
      assert forall t :: t in log[..i] ==> t in log[..j];
    }
  }

  /** The tags of the versions 2 to v of the numbered scheme. */
  function VersionTags(names: map<int, Tag>, v: int): set<Tag>
    decreases v
  {
    if v < 2 then {} else VersionTags(names, v - 1) + if v in names then {names[v]} else {}
  }

  lemma {:induction false} VersionTagsMembers(names: map<int, Tag>, w: int, t: Tag)
    ensures t in VersionTags(names, w) <==> exists v :: 2 <= v <= w && v in names && names[v] == t
    decreases w
  {
    if w >= 2 {
      VersionTagsMembers(names, w - 1, t);
    }
  }

  /** A checkpoint of the numbered kind starts from a down-closed set, when the versions have their own tags. */
  lemma VersionTagsDownClosed(names: map<int, Tag>, w: int, end: int)
    requires forall u, v :: u in names && v in names && u != v ==> names[u] != names[v]
    ensures DownClosed(names, VersionTags(names, w), end)
  {
    forall v | 3 <= v < end && v in names && v - 1 in names && names[v] in VersionTags(names, w)
      ensures names[v - 1] in VersionTags(names, w)
    {
      VersionTagsMembers(names, w, names[v]);
      VersionTagsMembers(names, w, names[v - 1]);
    }
  }
}

/** process_file on the version information of a checkpoint, from the upgrader files to the rewritten text. */
module CptFile {
  import opened Options
  import opened ConfigText
  import opened CptUpgrader

  /** The version information that the parser has for a checkpoint; `globals` says whether there is a section to put
      tags in. */
  datatype Checkpoint = Checkpoint(cptVer: Option<int>, versionTags: Option<string>, globals: bool)

  datatype Outcome =
    | NoVersion                                      // neither kind of version information
    | UnknownVersion                                 // no upgrade for one of the numbered versions
    | Unreadable                                     // the tags cannot be interpolated
    | Unresolvable                                   // dependences that cannot be met
    | NothingToDo
    | Refused                                        // set finds a bad percent sign
    | NoSection                                      // or none, but no section
    | Rewritten(text: string, log: seq<Tag>)

  ghost predicate Numbered(names: map<int, Tag>, v: int) { forall i :: 2 <= i <= v ==> i in names }

  method ConvertVersion(names: map<int, Tag>, v: int) returns (r: Option<set<Tag>>)
    ensures r.Some? <==> Numbered(names, v)
    ensures r.Some? ==> r.value == VersionTags(names, v)
  {
    var tags: set<Tag> := {};
    for i := 2 to if v < 2 then 2 else v + 1
      invariant Numbered(names, i - 1) && tags == VersionTags(names, i - 1)
    {
      if i !in names {
        return None;
      }
      tags := tags + {names[i]};
    }
    r := Some(tags);
  }

  /** The tags a checkpoint starts from, when process_file finds any. */
  ghost function FirstTags(names: map<int, Tag>, c: Checkpoint): Option<set<Tag>>
  {
    if c.cptVer.Some? then if Numbered(names, c.cptVer.value) then Some(VersionTags(names, c.cptVer.value)) else None
    else if c.versionTags.Some? && Interpolate(c.versionTags.value).Some? then
      Some(Set(Words(Interpolate(c.versionTags.value).value)))
    else None
  }

  method Enumerate(s: set<Tag>) returns (e: seq<Tag>)
    ensures Set(e) == s && |e| == |s|
  {
    e := [];
    var rest := s;
    while rest != {}
      invariant rest <= s && Set(e) == s - rest && |e| == |s| - |rest|
    {
      var t :| t in rest;
      assert Set(e + [t]) == Set(e) + {t};
      e, rest := e + [t], rest - {t};
    }
  }

  /** `text` lists the tags, in some order. */
  ghost predicate Lists(text: string, tags: set<Tag>) { exists e :: Set(e) == tags && text == Join(e) }

  /** What becomes of the tags: set looks for bad percent signs first and for the section then. Which signs it finds
      can depend on the order of the tags only when these have parentheses. */
  ghost predicate Stored(tags: set<Tag>, section: bool, r: Outcome)
  {
    && (r.Refused? ==> exists text :: Lists(text, tags) && !SetAccepts(text))
    && (r.NoSection? ==> !section && exists text :: Lists(text, tags) && SetAccepts(text))
    && (r.Rewritten? ==> section && Lists(r.text, tags) && SetAccepts(r.text))
    && (NoReferences(tags) && (r.Refused? || r.NoSection? || r.Rewritten?) ==>
          (r.Refused? <==> exists t :: t in tags && !SetAccepts(t)))
  }

  predicate NoReferences(tags: set<Tag>) { forall t :: t in tags ==> '(' !in t }

  /** Each outcome up to the upgrades if and only if its cause; the others are for a list of tags to be stored. In a
      rewritten file the upgrades applied are exactly the missing ones, each after what it depends on. */
  ghost predicate Settled(reg: Registry, names: map<int, Tag>, c: Checkpoint, r: Outcome)
  {
    && (r.NoVersion? <==> c.cptVer.None? && c.versionTags.None?)
    && (r.UnknownVersion? <==> c.cptVer.Some? && !Numbered(names, c.cptVer.value))
    && (r.Unreadable? <==> c.cptVer.None? && c.versionTags.Some? && Interpolate(c.versionTags.value).None?)
    && (FirstTags(names, c).None? ==> r.NoVersion? || r.UnknownVersion? || r.Unreadable?)
    && (FirstTags(names, c).Some? ==>
          var first := FirstTags(names, c).value;
          && (r.Rewritten? ==> InOrder(reg, first, r.log) && Set(r.log) == reg.Keys - first)
          && (r.Unresolvable? <==> exists k :: Knot(reg, first, k))
          && (r.NothingToDo? <==> c.cptVer.None? && reg.Keys <= first)
          && Stored(first + reg.Keys, c.globals || c.versionTags.Some?, r))
  }

  /** process_file. Upgrades are recorded in the order applied. */
  method ProcessFile(reg: Registry, names: map<int, Tag>, c: Checkpoint) returns (r: Outcome)
    ensures Settled(reg, names, c, r)
  {
    var change, first := false, {};
    if c.cptVer.Some? {
      var converted := ConvertVersion(names, c.cptVer.value);
      if converted.None? {
        return UnknownVersion;
      }
      first, change := converted.value, true;
    } else if c.versionTags.Some? {
      var text := Interpolate(c.versionTags.value);
      if text.None? {
        return Unreadable;
      }
      first := Set(Words(text.value));
    } else {
      return NoVersion;
    }
    r := Upgrade(reg, first, change, c.globals || c.versionTags.Some?);
  }

  /** The part after the tags are known. */
  method Upgrade(reg: Registry, first: set<Tag>, change0: bool, section: bool) returns (r: Outcome)
    ensures !r.NoVersion? && !r.UnknownVersion? && !r.Unreadable?
    ensures r.Unresolvable? <==> exists k :: Knot(reg, first, k)
    ensures r.NothingToDo? <==> !change0 && reg.Keys <= first
    ensures Stored(first + reg.Keys, section, r)
    ensures r.Rewritten? ==> InOrder(reg, first, r.log) && Set(r.log) == reg.Keys - first
  {
    var ok, tags, log := ApplyAll(reg, first);
    FailsIffKnot(reg, first, tags);
    if !ok {
      return Unresolvable;
    }
    LogIsMissing(reg, first, tags, log);
    if !change0 && log == [] {
      return NothingToDo;
    }
    var e := Enumerate(tags);
    var text := Join(e);
    assert Lists(text, first + reg.Keys);
    ListAccepted(e, tags);
    r := if !SetAccepts(text) then Refused else if !section then NoSection else Rewritten(text, log);
  }

  lemma ListAccepted(e: seq<Tag>, tags: set<Tag>)
    requires Set(e) == tags
    ensures NoReferences(tags) ==> (SetAccepts(Join(e)) <==> forall t :: t in tags ==> SetAccepts(t))
  {
    if NoReferences(tags) {
      assert forall i :: 0 <= i < |e| ==> e[i] in Set(e);
      JoinAccepted(e);
    }
  }

  lemma LogIsMissing(reg: Registry, first: set<Tag>, tags: set<Tag>, log: seq<Tag>)
    requires InOrder(reg, first, log) && tags == first + Set(log) && reg.Keys <= tags
    requires Least(reg, first, tags)
    ensures Set(log) == reg.Keys - first && tags == first + reg.Keys && (log == [] <==> reg.Keys <= first)
    ensures reg.Keys <= first ==> !exists k :: Knot(reg, first, k)
  {
    forall t | t in Set(log)
      ensures t in reg && t !in first
    {
      var i :| 0 <= i < |log| && log[i] == t;
      assert Applicable(reg, first, log, i);
    }
    assert log != [] ==> log[0] in Set(log);
    FailsIffKnot(reg, first, tags);
  }

  // ---------------------------------------------------------------- a second run

  /** The rewritten file as the next run reads it. */
  function Reload(text: string): Checkpoint { Checkpoint(None, Some(Reloaded(text)), true) }

  /** No comment or quote sign, and no parenthesis that a reference would need. */
  predicate Tame(t: Tag) { ';' !in t && '"' !in t && '(' !in t }

  /** A tag that comes back as it was: a word without percent signs. */
  ghost predicate Plain(t: Tag) { Word(t) && Percents(t) == 0 }

  lemma MostPercents(s: set<Tag>) returns (m: Tag)
    requires s != {}
    ensures m in s && forall t :: t in s ==> Percents(t) <= Percents(m)
    decreases s
  {
    m :| m in s;
    if s != {m} {
      var other := MostPercents(s - {m});
      if Percents(other) > Percents(m) {
        m := other;
      }
    }
  }

  lemma ListedText(text: string, tags: set<Tag>, e: seq<Tag>)
    requires Set(e) == tags && text == Join(e) && SetAccepts(text) && forall t :: t in tags ==> Tame(t)
    ensures Interpolate(text).Some? && Interpolate(Reloaded(text)).Some?
    ensures Words(Interpolate(Reloaded(text)).value) == Words(Interpolate(text).value)
  {
    forall i | 0 <= i < |e|
      ensures Tame(e[i])
    {
      assert e[i] in Set(e);
    }
    JoinChars(e, ';');
    JoinChars(e, '"');
    JoinChars(e, '(');
    AcceptedIsReadable(text);
    ReloadedKeeps(text);
  }

  /** Interpolation halves percent signs, so tags with the most of them cannot all come back. */
  lemma ReadBackHasNoPercents(reg: Registry, first: set<Tag>, e: seq<Tag>)
    requires Set(e) == first + reg.Keys && Interpolate(Join(e)).Some?
    requires reg.Keys <= Set(Words(Interpolate(Join(e)).value)) && forall t :: t in first ==> Percents(t) == 0
    ensures forall t :: t in reg ==> Percents(t) == 0
  {
    if reg.Keys != {} {
      var m := MostPercents(reg.Keys);
      assert m in Set(Words(Interpolate(Join(e)).value));
      var x := WordComesFromTag(e, m);
      assert x in Set(e);
    }
  }

  /** Of a tame text in which only registered tags have percent signs, all registered tags are read back if and only
      if they are plain. */
  lemma AllReadBackIff(reg: Registry, names: map<int, Tag>, text: string, first: set<Tag>)
    requires Lists(text, first + reg.Keys) && SetAccepts(text)
    requires forall t :: t in first + reg.Keys ==> Tame(t)
    requires forall t :: t in first ==> Percents(t) == 0
    ensures FirstTags(names, Reload(text)).Some?
    ensures reg.Keys <= FirstTags(names, Reload(text)).value <==> forall t :: t in reg ==> Plain(t)
  {
    var e :| Set(e) == first + reg.Keys && text == Join(e);
    ListedText(text, first + reg.Keys, e);
    var back := Words(Interpolate(text).value);
    SplitGivesWords(Interpolate(text).value, "");
    if forall t :: t in reg ==> Plain(t) {
      forall t | t in reg.Keys
        ensures t in Set(back)
      {
        assert t in Set(e);
        PlainWordSurvives(e, t);
      }
    }
    if reg.Keys <= Set(back) {
      ReadBackHasNoPercents(reg, first, e);
      forall t | t in reg
        ensures Plain(t)
      {
        assert t in Set(back);
      }
    }
  }

  /** A second run on what the first has written finds nothing to do if and only if the registered tags are plain,
      provided no tag has signs that start comments, quotes or references and only registered tags have percent
      signs. A run that changes nothing gives the same outcome again, whatever is decided before tags are put
      together, and the rest too unless there are references. */
  method ProcessTwice(reg: Registry, names: map<int, Tag>, c: Checkpoint) returns (one: Outcome, two: Outcome)
    ensures Settled(reg, names, c, one)
    ensures Settled(reg, names, if one.Rewritten? then Reload(one.text) else c, two)
    ensures one.Rewritten? ==>
              && FirstTags(names, c).Some?
              && var first := FirstTags(names, c).value;
                 (forall t :: t in first + reg.Keys ==> Tame(t)) && (forall t :: t in first ==> Percents(t) == 0) ==>
                   (two == NothingToDo <==> forall t :: t in reg ==> Plain(t))
    ensures !one.Rewritten? && !one.Refused? && !one.NoSection? ==> two == one
    ensures one.Refused? || one.NoSection? ==>
              FirstTags(names, c).Some? && (NoReferences(FirstTags(names, c).value + reg.Keys) ==> two == one)
  {
    one := ProcessFile(reg, names, c);
    if one.Rewritten? {
      ghost var first := FirstTags(names, c).value;
      if (forall t :: t in first + reg.Keys ==> Tame(t)) && (forall t :: t in first ==> Percents(t) == 0) {
        AllReadBackIff(reg, names, one.text, first);
      }
      two := ProcessFile(reg, names, Reload(one.text));
    } else {
      two := ProcessFile(reg, names, c);
    }
  }

  // ---------------------------------------------------------------- from the upgrader files

  /** The last of the files that define an upgrade of its version. */
  ghost predicate Current(files: seq<Upgrader>, i: nat)
    requires i < |files|
  {
    files[i].legacyVersion.Some? && forall j :: i < j < |files| ==> files[j].legacyVersion != files[i].legacyVersion
  }

  /** No later file takes over the tag of a numbered upgrade. */
  ghost predicate OwnTags(files: seq<Upgrader>)
  {
    forall i, j :: 0 <= i < j < |files| && Current(files, i) ==> files[i].tag != files[j].tag
  }

  /** The dictionaries after loading: by its tag, and by its version if it has one, the last of the files with it is
      found. */
  ghost predicate Loaded(files: seq<Upgrader>, byTag: map<Tag, nat>, legacy: map<int, nat>)
  {
    && (forall i :: 0 <= i < |files| ==>
          && files[i].tag in byTag && i <= byTag[files[i].tag] < |files|
          && files[byTag[files[i].tag]].tag == files[i].tag)
    && (forall i :: 0 <= i < |files| && files[i].legacyVersion.Some? ==>
          var v := files[i].legacyVersion.value;
          && v in legacy && i <= legacy[v] < |files| && files[legacy[v]].legacyVersion == Some(v))
  }

  method LoadAll(files: seq<Upgrader>) returns (u: Upgraders)
    ensures fresh(u) && u.Valid() && u.made == files && Loaded(files, u.byTag, u.legacy)
  {
    u := new Upgraders();
    for i := 0 to |files|
      invariant fresh(u) && u.Valid() && u.made == files[..i] && Loaded(files[..i], u.byTag, u.legacy)
    {
      LoadedNext(files, u.byTag, u.legacy, i);
      assert files[..i + 1] == files[..i] + [files[i]];
      u.Add(files[i]);
    }
    assert files[..|files|] == files;
  }

  lemma LoadedNext(files: seq<Upgrader>, byTag: map<Tag, nat>, legacy: map<int, nat>, i: nat)
    requires i < |files| && Loaded(files[..i], byTag, legacy)
    ensures var next := match files[i].legacyVersion case None => legacy case Some(v) => legacy[v := i];
            Loaded(files[..i + 1], byTag[files[i].tag := i], next)
  {
    assert files[..i + 1] == files[..i] + [files[i]];
  }

  /** No later file has the tag. */
  ghost predicate Found(files: seq<Upgrader>, i: nat)
    requires i < |files|
  {
    forall j :: i < j < |files| ==> files[j].tag != files[i].tag
  }

  /** What load_all makes of the files: versions are named by the last file that has them, and tags are registered
      with the dependences of the last file that has them, or with the version before if that is the file of a
      version in the unbroken run from 2. */
  ghost predicate LoadedFrom(files: seq<Upgrader>, reg: Registry, names: map<int, Tag>)
  {
    && names.Keys == (set u | u in files && u.legacyVersion.Some? :: u.legacyVersion.value)
    && reg.Keys == (set u | u in files :: u.tag)
    && (forall i :: 0 <= i < |files| && Current(files, i) ==> names[files[i].legacyVersion.value] == files[i].tag)
    && forall i :: 0 <= i < |files| && Found(files, i) ==> reg[files[i].tag] == DependsAs(files, names, i)
  }

  ghost function DependsAs(files: seq<Upgrader>, names: map<int, Tag>, i: nat): seq<Tag>
    requires i < |files|
  {
    if Current(files, i) && files[i].legacyVersion.value >= 3 && Unbroken(names, files[i].legacyVersion.value)
    then [names[files[i].legacyVersion.value - 1]] else files[i].depends
  }

  lemma FoundOf(files: seq<Upgrader>, t: Tag) returns (i: nat)
    requires exists u :: u in files && u.tag == t
    ensures i < |files| && files[i].tag == t && Found(files, i)
  {
    i := |files| - 1;
    while files[i].tag != t
      invariant i < |files| && forall j :: i < j < |files| ==> files[j].tag != t
      invariant exists u :: u in files[..i + 1] && u.tag == t
      decreases i
    {
      assert files[..i + 1] == files[..i] + [files[i]];
      i := i - 1;
    }
  }

  lemma CurrentOf(files: seq<Upgrader>, v: int) returns (i: nat)
    requires exists u :: u in files && u.legacyVersion == Some(v)
    ensures i < |files| && files[i].legacyVersion == Some(v) && Current(files, i)
  {
    i := |files| - 1;
    while files[i].legacyVersion != Some(v)
      invariant i < |files| && forall j :: i < j < |files| ==> files[j].legacyVersion != Some(v)
      invariant exists u :: u in files[..i + 1] && u.legacyVersion == Some(v)
      decreases i
    {
      assert files[..i + 1] == files[..i] + [files[i]];
      i := i - 1;
    }
  }

  /** The files determine what is loaded. */
  lemma LoadedOnce(files: seq<Upgrader>, reg: Registry, names: map<int, Tag>, reg': Registry, names': map<int, Tag>)
    requires LoadedFrom(files, reg, names) && LoadedFrom(files, reg', names')
    ensures reg == reg' && names == names'
  {
    forall v | v in names
      ensures names[v] == names'[v]
    {
      var u :| u in files && u.legacyVersion.Some? && u.legacyVersion.value == v;
      assert u.legacyVersion == Some(v);
      var i := CurrentOf(files, v);
    }
    assert names == names';
    forall t | t in reg
      ensures reg[t] == reg'[t]
    {
      var i := FoundOf(files, t);
    }
  }

  /** Every version from 2 up to b has an upgrade. */
  ghost predicate Unbroken(names: map<int, Tag>, b: int) { forall v :: 2 <= v <= b ==> v in names }

  /** Whenever the upgrade of a version is applied, all earlier versions are there. */
  ghost predicate Chronological(names: map<int, Tag>, first: set<Tag>, log: seq<Tag>)
  {
    forall a, b, j :: 2 <= a < b && b in names && Unbroken(names, b) && 0 <= j < |log| && log[j] == names[b] ==>
      Present(names, first, log, a, j)
  }

  ghost predicate Present(names: map<int, Tag>, first: set<Tag>, log: seq<Tag>, a: int, j: nat)
    requires j <= |log|
  {
    a in names && names[a] in first + Set(log[..j])
  }

  lemma UnbrokenIsRun(legacy: map<int, nat>, names: map<int, Tag>, end: int, b: int)
    requires names.Keys == legacy.Keys && RunEnds(legacy, end) && Unbroken(names, b)
    ensures b < end
  {
    assert end !in names.Keys;
  }

  lemma InChronology(reg: Registry, legacy: map<int, nat>, names: map<int, Tag>, end: int, w: int, log: seq<Tag>)
    requires names.Keys == legacy.Keys && RunEnds(legacy, end) && Chain(reg, names, end)
    requires forall u, v :: u in names && v in names && u != v ==> names[u] != names[v]
    requires InOrder(reg, VersionTags(names, w), log)
    ensures Chronological(names, VersionTags(names, w), log)
  {
    var first := VersionTags(names, w);
    forall a, b, j | 2 <= a < b && b in names && Unbroken(names, b) && 0 <= j < |log| && log[j] == names[b]
      ensures Present(names, first, log, a, j)
    {
      UnbrokenIsRun(legacy, names, end, b);
      VersionTagsDownClosed(names, w, end);
      VersionsInOrder(reg, names, first, log, end, a, b, j);
    }
  }

  /** load_all and then process_file on a checkpoint of version w: the look-up of version 2 fails exactly when
      version 3 is there without it; otherwise, if the file is rewritten, the versions were applied in order,
      unless a later file has taken over the tag of one. */
  method UpgradeNumbered(files: seq<Upgrader>, w: int, globals: bool)
    returns (r: Option<Outcome>, reg: Registry, names: map<int, Tag>)
    ensures LoadedFrom(files, reg, names)
    ensures r.Some? <==> 3 !in names || 2 in names
    ensures r.Some? ==> Settled(reg, names, Checkpoint(Some(w), None, globals), r.value)
    ensures r.Some? && r.value.Rewritten? && OwnTags(files) ==> Chronological(names, VersionTags(names, w), r.value.log)
  {
    var u := LoadAll(files);
    var linked := u.LinkLegacy();
    reg, names := u.Registered(), u.Names();
    if !linked {
      RunIsUnbroken(u.legacy, names, 3);
      LoadedIs(files, u.made, u.byTag, u.legacy, 3);
      return None, reg, names;
    }
    ghost var end :| RunEnds(u.legacy, end) && Linked(files, u.made, u.legacy, end);
    RunIsUnbroken(u.legacy, names, end);
    LoadedIs(files, u.made, u.byTag, u.legacy, end);
    var outcome := ProcessFile(reg, names, Checkpoint(Some(w), None, globals));
    if outcome.Rewritten? && OwnTags(files) {
      NamesApart(files, u, end);
      u.LinkedIsChain(files, end);
      InChronology(reg, u.legacy, names, end, w, outcome.log);
    }
    r := Some(outcome);
  }

  /** Which versions are in the unbroken run: those the loop links, or none if it fails. */
  lemma RunIsUnbroken(legacy: map<int, nat>, names: map<int, Tag>, end: int)
    requires names.Keys == legacy.Keys && (RunEnds(legacy, end) || (end == 3 && 2 !in legacy))
    ensures forall v :: v >= 3 ==> (Unbroken(names, v) <==> v < end)
  {
    forall v | v >= 3
      ensures Unbroken(names, v) <==> v < end
    {
      assert RunEnds(legacy, end) ==> end !in names.Keys;
      assert 2 !in legacy ==> 2 !in names.Keys;
    }
  }

  /** The objects after linking, as the dictionaries find them, are what the files say. */
  lemma LoadedIs(files: seq<Upgrader>, made: seq<Upgrader>, byTag: map<Tag, nat>, legacy: map<int, nat>, end: int)
    requires Tags(made, byTag) && Versions(made, legacy)
    requires Loaded(files, byTag, legacy) && Linked(files, made, legacy, end)
    requires forall v :: v >= 3 ==> (Unbroken(VersionNames(made, legacy), v) <==> v < end)
    ensures LoadedFrom(files, Dependences(made, byTag), VersionNames(made, legacy))
  {
    LoadedKeys(files, made, byTag, legacy, end);
    forall i | 0 <= i < |files| && Current(files, i)
      ensures VersionNames(made, legacy)[files[i].legacyVersion.value] == files[i].tag
    {
      LoadedVersion(files, made, legacy, byTag, end, i);
    }
    forall i | 0 <= i < |files| && Found(files, i)
      ensures Dependences(made, byTag)[files[i].tag] == DependsAs(files, VersionNames(made, legacy), i)
    {
      FoundIs(files, byTag, legacy, i);
      LoadedDepends(files, made, byTag, legacy, end, i);
    }
  }

  lemma FoundIs(files: seq<Upgrader>, byTag: map<Tag, nat>, legacy: map<int, nat>, i: nat)
    requires Loaded(files, byTag, legacy) && i < |files| && Found(files, i)
    ensures files[i].tag in byTag && byTag[files[i].tag] == i
  {
  }

  lemma LoadedKeys(files: seq<Upgrader>, made: seq<Upgrader>, byTag: map<Tag, nat>, legacy: map<int, nat>, end: int)
    requires Tags(made, byTag) && Versions(made, legacy)
    requires Loaded(files, byTag, legacy) && Linked(files, made, legacy, end)
    ensures VersionNames(made, legacy).Keys == (set u | u in files && u.legacyVersion.Some? :: u.legacyVersion.value)
    ensures Dependences(made, byTag).Keys == (set u | u in files :: u.tag)
  {
    forall t | t in byTag
      ensures exists u :: u in files && u.tag == t
    {
      assert made[byTag[t]] == files[byTag[t]].(depends := made[byTag[t]].depends);
      assert files[byTag[t]] in files;
    }
    forall v | v in legacy
      ensures exists u :: u in files && u.legacyVersion == Some(v)
    {
      assert made[legacy[v]] == files[legacy[v]].(depends := made[legacy[v]].depends);
      assert files[legacy[v]] in files;
    }
  }

  lemma LoadedVersion(files: seq<Upgrader>, made: seq<Upgrader>, legacy: map<int, nat>, byTag: map<Tag, nat>, end: int,
                      i: nat)
    requires Versions(made, legacy) && Loaded(files, byTag, legacy) && Linked(files, made, legacy, end)
    requires i < |files| && files[i].legacyVersion.Some?
    ensures files[i].legacyVersion.value in legacy
    ensures legacy[files[i].legacyVersion.value] == i <==> Current(files, i)
    ensures made[i].tag == files[i].tag && made[i].legacyVersion == files[i].legacyVersion
  {
    assert made[i] == files[i].(depends := made[i].depends);
  }

  lemma LoadedDepends(files: seq<Upgrader>, made: seq<Upgrader>, byTag: map<Tag, nat>, legacy: map<int, nat>, end: int,
                      i: nat)
    requires Tags(made, byTag) && Versions(made, legacy)
    requires Loaded(files, byTag, legacy) && Linked(files, made, legacy, end)
    requires forall v :: v >= 3 ==> (Unbroken(VersionNames(made, legacy), v) <==> v < end)
    requires i < |files|
    ensures made[i].depends == DependsAs(files, VersionNames(made, legacy), i)
  {
    assert made[i] == files[i] || InRun(made[i], legacy, i, end);
    if files[i].legacyVersion.None? {
      assert made[i].legacyVersion.None?;
    } else {
      var v := files[i].legacyVersion.value;
      LoadedVersion(files, made, legacy, byTag, end, i);
      if Current(files, i) && 3 <= v < end {
        assert Link(made, legacy, v);
      }
    }
  }

  /** The object found by a version is the object found by its tag, and no two versions share one. */
  lemma NamesApart(files: seq<Upgrader>, u: Upgraders, end: int)
    requires OwnTags(files) && u.Valid() && Loaded(files, u.byTag, u.legacy) && Linked(files, u.made, u.legacy, end)
    ensures forall v :: v in u.legacy ==>
              u.made[u.legacy[v]].tag in u.byTag && u.byTag[u.made[u.legacy[v]].tag] == u.legacy[v]
    ensures forall a, b :: a in u.Names() && b in u.Names() && a != b ==> u.Names()[a] != u.Names()[b]
  {
    forall v | v in u.legacy
      ensures u.made[u.legacy[v]].tag in u.byTag && u.byTag[u.made[u.legacy[v]].tag] == u.legacy[v]
    {
      FoundByTag(files, u, end, v);
    }
    forall a, b | a in u.Names() && b in u.Names() && a != b
      ensures u.Names()[a] != u.Names()[b]
    {
      assert u.made[u.legacy[a]].legacyVersion != u.made[u.legacy[b]].legacyVersion;
    }
  }

  lemma FoundByTag(files: seq<Upgrader>, u: Upgraders, end: int, v: int)
    requires OwnTags(files) && u.Valid() && Loaded(files, u.byTag, u.legacy) && Linked(files, u.made, u.legacy, end)
    requires v in u.legacy
    ensures u.made[u.legacy[v]].tag in u.byTag && u.byTag[u.made[u.legacy[v]].tag] == u.legacy[v]
  {
    var i := u.legacy[v];
    assert u.made[i] == files[i].(depends := u.made[i].depends);
    assert Current(files, i);
    var j := u.byTag[files[i].tag];
    assert i <= j && files[j].tag == files[i].tag;
  }

  /** A third file with the tag of version 3 and without its dependence: the upgrade of version 3 may then come
      before that of version 2. */
  lemma TakenOverTag(a: Upgrader, b: Upgrader, c: Upgrader, reg: Registry, names: map<int, Tag>)
    requires a.legacyVersion == Some(2) && b.legacyVersion == Some(3) && c.legacyVersion == None
    requires a.tag != b.tag == c.tag && a.depends == c.depends == [] && LoadedFrom([a, b, c], reg, names)
    ensures !OwnTags([a, b, c]) && names == map[2 := a.tag, 3 := b.tag]
    ensures InOrder(reg, {}, [c.tag, a.tag]) && !Chronological(names, {}, [c.tag, a.tag])
    ensures !AlwaysAfter(reg, {}, names[3], names[2])
  {
    var log, files := [c.tag, a.tag], [a, b, c];
    assert Current(files, 0) && Current(files, 1) && files[1].tag == files[2].tag;
    assert names.Keys == {2, 3} by {
      assert forall u :: u in files <==> u == a || u == b || u == c;
      assert files[0] in files && files[1] in files;
    }
    assert Found(files, 0) && Found(files, 2);
    assert reg[files[0].tag] == [] && reg[files[2].tag] == [];
    assert Applicable(reg, {}, log, 0) && Applicable(reg, {}, log, 1);
    assert Unbroken(names, 3) && log[0] == names[3] && log[..0] == [];
    assert !Present(names, {}, log, 2, 0);
  }
}

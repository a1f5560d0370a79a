/** How a list of tags passes through a SafeConfigParser: joined with spaces, checked for percent signs when it is
    set, cut at comments when the file is read, interpolated when it is got, and split into words again. */
module ConfigText {
  import opened Options

  // ---------------------------------------------------------------- words

  predicate Space(c: char) { c == ' ' || '\t' <= c <= '\r' }

  /** A tag that survives being written between spaces. */
  ghost predicate Word(t: string) { t != "" && forall i :: 0 <= i < |t| ==> !Space(t[i]) }

  /** The words of a text, as the parameterless str.split finds them; `word` is the one being read. */
  function Split(s: string, word: string): seq<string>
    decreases |s|
  {
    if s == "" then (if word == "" then [] else [word])
    else if Space(s[0]) then (if word == "" then [] else [word]) + Split(s[1..], "")
    else Split(s[1..], word + [s[0]])
  }

  function Words(s: string): seq<string> { Split(s, "") }

  function Join(tags: seq<string>): string
  {
    if tags == [] then "" else if |tags| == 1 then tags[0] else tags[0] + [' '] + Join(tags[1..])
  }

  lemma {:induction false} SplitAtSpace(a: string, c: char, b: string, word: string)
    requires Space(c)
    ensures Split(a + [c] + b, word) == Split(a, word) + Split(b, "")
    decreases |a|
  {
    var s := a + [c] + b;
    if a == "" {
      assert s[0] == c && s[1..] == b;
    } else {
      assert s[0] == a[0] && s[1..] == a[1..] + [c] + b;
      SplitAtSpace(a[1..], c, b, if Space(a[0]) then "" else word + [a[0]]);
    }
  }

  lemma {:induction false} SplitWord(t: string, word: string)
    requires word + t != "" && forall i :: 0 <= i < |t| ==> !Space(t[i])
    ensures Split(t, word) == [word + t]
    decreases |t|
  {
    if t == "" {
      assert word + t == word;
    } else {
      assert word + [t[0]] + t[1..] == word + t;
      SplitWord(t[1..], word + [t[0]]);
    }
  }

  lemma WordIsItself(t: string)
    requires Word(t)
    ensures Words(t) == [t]
  {
    SplitWord(t, "");
    assert "" + t == t;
  }

  lemma {:induction false} SplitGivesWords(s: string, word: string)
    requires forall i :: 0 <= i < |word| ==> !Space(word[i])
    ensures forall t :: t in Split(s, word) ==> Word(t)
    decreases |s|
  {
    if s != "" {
      SplitGivesWords(s[1..], if Space(s[0]) then "" else word + [s[0]]);
    }
  }

  // ---------------------------------------------------------------- percent signs

  /** get: two percent signs stand for one. None is an error, and also a reference to another option, which is not
      resolved here. */
  function Interpolate(s: string): Option<string>
  {
    if s == "" then Some("")
    else if s[0] != '%' then
      match Interpolate(s[1..]) case None => None case Some(r) => Some([s[0]] + r)
    else if |s| > 1 && s[1] == '%' then
      match Interpolate(s[2..]) case None => None case Some(r) => Some(['%'] + r)
    else None
  }

  /** str.replace('%%', ''). */
  function WithoutPairs(s: string): string
  {
    if s == "" then ""
    else if |s| > 1 && s[0] == '%' && s[1] == '%' then WithoutPairs(s[2..])
    else [s[0]] + WithoutPairs(s[1..])
  }

  function ParenAt(s: string, i: nat): (k: nat)
    requires i <= |s|
    ensures i <= k <= |s|
    decreases |s| - i
  {
    if i == |s| || s[i] == ')' then i else ParenAt(s, i + 1)
  }

  /** The length of the reference %(name)s at the start of a text, 0 if there is none. */
  function RefLength(s: string): (n: nat)
    ensures n <= |s|
    ensures n > 0 ==> '(' in s
  {
    if |s| > 1 && s[0] == '%' && s[1] == '(' then
      var k := ParenAt(s, 2);
      if k > 2 && k + 1 < |s| && s[k + 1] == 's' then k + 2 else 0
    else 0
  }

  function WithoutRefs(s: string): string
    decreases |s|
  {
    if s == "" then ""
    else if RefLength(s) > 0 then WithoutRefs(s[RefLength(s)..])
    else [s[0]] + WithoutRefs(s[1..])
  }

  /** set: what is left without pairs and references must have no percent sign. */
  predicate SetAccepts(s: string) { '%' !in WithoutRefs(WithoutPairs(s)) }

  lemma {:induction false} PairsOrNothing(s: string)
    ensures Interpolate(s).Some? <==> '%' !in WithoutPairs(s)
    ensures forall c :: c in WithoutPairs(s) ==> c in s
    decreases |s|
  {
    if s != "" {
      if |s| > 1 && s[0] == '%' && s[1] == '%' {
        PairsOrNothing(s[2..]);
      } else {
        PairsOrNothing(s[1..]);
      }
    }
  }

  lemma {:induction false} NoRefs(s: string)
    requires '(' !in s
    ensures WithoutRefs(s) == s
  {
    if s != "" {
      NoRefs(s[1..]);
    }
  }

  /** Without references, a text can be got exactly when it can be set. */
  lemma AcceptedIsReadable(s: string)
    requires '(' !in s
    ensures SetAccepts(s) <==> Interpolate(s).Some?
  {
    PairsOrNothing(s);
    NoRefs(WithoutPairs(s));
  }

  lemma {:induction false} InterpolateAtSpace(a: string, c: char, b: string)
    requires Space(c)
    ensures var (x, y) := (Interpolate(a), Interpolate(b));
            Interpolate(a + [c] + b) == if x.Some? && y.Some? then Some(x.value + [c] + y.value) else None
    decreases |a|
  {
    var s := a + [c] + b;
    if a == "" {
      assert s[0] == c && s[1..] == b;
      assert Interpolate(b).Some? ==> "" + [c] + Interpolate(b).value == [c] + Interpolate(b).value;
    } else if a[0] != '%' {
      assert s[0] == a[0] && s[1..] == a[1..] + [c] + b;
      InterpolateAtSpace(a[1..], c, b);
      AssociativeThree([a[0]], Interpolate(a[1..]), c, Interpolate(b));
    } else if |a| > 1 && a[1] == '%' {
      assert s[0] == '%' && s[1] == '%' && s[2..] == a[2..] + [c] + b;
      InterpolateAtSpace(a[2..], c, b);
      AssociativeThree("%", Interpolate(a[2..]), c, Interpolate(b));
    } else {
      assert s[0] == '%' && s[1] != '%';
    }
  }

  lemma AssociativeThree(a: string, x: Option<string>, c: char, y: Option<string>)
    ensures x.Some? && y.Some? ==> a + (x.value + [c] + y.value) == (a + x.value) + [c] + y.value
  {
  }

  function Percents(s: string): nat
  {
    if s == "" then 0 else (if s[0] == '%' then 1 else 0) + Percents(s[1..])
  }

  lemma {:induction false} InterpolationHalves(s: string)
    requires Interpolate(s).Some?
    ensures 2 * Percents(Interpolate(s).value) == Percents(s)
    decreases |s|
  {
    if s != "" {
      if s[0] != '%' {
        InterpolationHalves(s[1..]);
        assert ([s[0]] + Interpolate(s[1..]).value)[1..] == Interpolate(s[1..]).value;
      } else {
        InterpolationHalves(s[2..]);
        assert (['%'] + Interpolate(s[2..]).value)[1..] == Interpolate(s[2..]).value;
        assert s[1..][1..] == s[2..];
      }
    }
  }

  lemma {:induction false} NoPercentIsItself(t: string)
    requires Percents(t) == 0
    ensures Interpolate(t) == Some(t)
  {
    if t != "" {
      NoPercentIsItself(t[1..]);
      assert t == [t[0]] + t[1..];
    }
  }

  lemma {:induction false} PercentsSum(a: string, b: string)
    ensures Percents(a + b) == Percents(a) + Percents(b)
  {
    if a == "" {
      assert a + b == b;
    } else {
      PercentsSum(a[1..], b);
      assert (a + b)[1..] == a[1..] + b;
    }
  }

  lemma {:induction false} WordPercents(s: string, word: string, w: string)
    requires w in Split(s, word)
    ensures Percents(w) <= Percents(word) + Percents(s)
    decreases |s|
  {
    if s != "" {
      if Space(s[0]) {
        if w in Split(s[1..], "") {
          WordPercents(s[1..], "", w);
        }
      } else {
        WordPercents(s[1..], word + [s[0]], w);
        PercentsSum(word, [s[0]]);
        assert [s[0]][1..] == "";
      }
    }
  }

  // ---------------------------------------------------------------- writing and reading the file

  function IndexOf(s: string, c: char): (k: nat)
    ensures k <= |s| && (k == |s| <==> c !in s) && (k < |s| ==> s[k] == c) && c !in s[..k]
  {
    if s == "" || s[0] == c then 0 else 1 + IndexOf(s[1..], c)
  }

  /** A semicolon after white space starts a comment; only the first semicolon is looked at, and in front of a
      leading one Python finds the last character. */
  function Cut(s: string): string
  {
    var k := IndexOf(s, ';');
    if k == |s| then s
    else if Space(if k == 0 then s[|s| - 1] else s[k - 1]) then s[..k]
    else s
  }

  function TrimLeft(s: string): string { if s != "" && Space(s[0]) then TrimLeft(s[1..]) else s }

  function TrimRight(s: string): string
  {
    if s != "" && Space(s[|s| - 1]) then TrimRight(s[..|s| - 1]) else s
  }

  /** The value that the parser has after the file with this text has been read again. */
  function Reloaded(s: string): string
  {
    var v := TrimRight(Cut(TrimLeft(s)));
    if v == "\"\"" then "" else v
  }

  lemma {:induction false} TrimLeftKeeps(s: string)
    ensures Interpolate(TrimLeft(s)).Some? <==> Interpolate(s).Some?
    ensures Interpolate(s).Some? ==> Words(Interpolate(TrimLeft(s)).value) == Words(Interpolate(s).value)
    ensures forall c :: c in TrimLeft(s) ==> c in s
  {
    if s != "" && Space(s[0]) {
      TrimLeftKeeps(s[1..]);
      var rest := Interpolate(s[1..]);
      if rest.Some? {
        assert ([s[0]] + rest.value)[1..] == rest.value;
      }
    }
  }

  lemma {:induction false} TrimRightKeeps(s: string)
    ensures Interpolate(TrimRight(s)).Some? <==> Interpolate(s).Some?
    ensures Interpolate(s).Some? ==> Words(Interpolate(TrimRight(s)).value) == Words(Interpolate(s).value)
    ensures forall c :: c in TrimRight(s) ==> c in s
  {
    if s != "" && Space(s[|s| - 1]) {
      var init, c := s[..|s| - 1], s[|s| - 1];
      TrimRightKeeps(init);
      assert s == init + [c] + "";
      InterpolateAtSpace(init, c, "");
      if Interpolate(init).Some? {
        SplitAtSpace(Interpolate(init).value, c, "", "");
      }
    }
  }

  /** Reading the file back changes nothing that matters in a text without semicolons and quotes. */
  lemma ReloadedKeeps(s: string)
    requires ';' !in s && '"' !in s
    ensures Interpolate(Reloaded(s)).Some? <==> Interpolate(s).Some?
    ensures Interpolate(s).Some? ==> Words(Interpolate(Reloaded(s)).value) == Words(Interpolate(s).value)
  {
    TrimLeftKeeps(s);
    assert Cut(TrimLeft(s)) == TrimLeft(s);
    TrimRightKeeps(TrimLeft(s));
    var v := TrimRight(TrimLeft(s));
    assert |v| == 2 ==> v[0] in v;
  }

  // ---------------------------------------------------------------- a list of tags

  lemma {:induction false} JoinChars(tags: seq<string>, c: char)
    requires c != ' ' && forall i :: 0 <= i < |tags| ==> c !in tags[i]
    ensures c !in Join(tags)
  {
    if |tags| > 1 {
      JoinChars(tags[1..], c);
    }
  }

  lemma {:induction false} JoinReadable(tags: seq<string>)
    ensures Interpolate(Join(tags)).Some? <==> forall i :: 0 <= i < |tags| ==> Interpolate(tags[i]).Some?
  {
    if |tags| > 1 {
      InterpolateAtSpace(tags[0], ' ', Join(tags[1..]));
      JoinReadable(tags[1..]);
      assert forall i :: 1 <= i < |tags| ==> tags[i] == tags[1..][i - 1];
    }
  }

  /** Without references, a joined list can be set if and only if each of its tags can. */
  lemma JoinAccepted(tags: seq<string>)
    requires forall i :: 0 <= i < |tags| ==> '(' !in tags[i]
    ensures SetAccepts(Join(tags)) <==> forall i :: 0 <= i < |tags| ==> SetAccepts(tags[i])
  {
    JoinChars(tags, '(');
    AcceptedIsReadable(Join(tags));
    JoinReadable(tags);
    forall i | 0 <= i < |tags|
      ensures SetAccepts(tags[i]) <==> Interpolate(tags[i]).Some?
    {
      AcceptedIsReadable(tags[i]);
    }
  }

  /** The words of a joined and interpolated list are those of its tags. */
  lemma JoinedNext(tags: seq<string>)
    requires |tags| > 0 && Interpolate(Join(tags)).Some?
    ensures Interpolate(tags[0]).Some? && Interpolate(Join(tags[1..])).Some?
    ensures Words(Interpolate(Join(tags)).value)
            == Words(Interpolate(tags[0]).value) + Words(Interpolate(Join(tags[1..])).value)
  {
    if |tags| > 1 {
      InterpolateAtSpace(tags[0], ' ', Join(tags[1..]));
      SplitAtSpace(Interpolate(tags[0]).value, ' ', Interpolate(Join(tags[1..])).value, "");
    } else {
      assert tags[1..] == [];
    }
  }

  lemma {:induction false} WordComesFromTag(tags: seq<string>, w: string) returns (x: string)
    requires Interpolate(Join(tags)).Some? && w in Words(Interpolate(Join(tags)).value)
    ensures x in tags && 2 * Percents(w) <= Percents(x)
  {
    if tags == [] {
      x := "";
    } else {
      JoinedNext(tags);
      if w in Words(Interpolate(tags[0]).value) {
        x := tags[0];
        WordPercents(Interpolate(x).value, "", w);
        InterpolationHalves(x);
      } else {
        x := WordComesFromTag(tags[1..], w);
      }
    }
  }

  lemma {:induction false} PlainWordSurvives(tags: seq<string>, t: string)
    requires Interpolate(Join(tags)).Some? && t in tags && Word(t) && Percents(t) == 0
    ensures t in Words(Interpolate(Join(tags)).value)
  {
    JoinedNext(tags);
    if t == tags[0] {
      NoPercentIsItself(t);
      WordIsItself(t);
    } else {
      PlainWordSurvives(tags[1..], t);
    }
  }

  // ---------------------------------------------------------------- tags that do not survive

  /** Doubled percent signs are accepted and come back halved; a single one is refused; a semicolon at the start of
      a tag cuts off that tag and all that follow; a single tag of two quotes comes back as nothing. */
  lemma OddTags()
    ensures SetAccepts("a%%b") && Interpolate("a%%b") == Some("a%b")
    ensures !SetAccepts("a%b")
    ensures Reloaded("a ;b c") == "a"
    ensures Reloaded("\"\"") == ""
  {
    Halved();
    Refused();
    CutShort();
    var q := "\"\"";
    assert IndexOf(q, ';') == 2 by {
      assert ';' !in q;
    }
  }

  lemma Halved()
    ensures SetAccepts("a%%b") && Interpolate("a%%b") == Some("a%b")
  {
    var s := "a%%b";
    assert s[1..] == "%%b" && "%%b"[2..] == "b" && "b"[1..] == "";
    NoPercentIsItself("b");
    assert ['%'] + "b" == "%b" && ['a'] + "%b" == "a%b";
    assert Interpolate("%%b") == Some("%b");
    assert WithoutPairs("b") == "b" && WithoutPairs("%%b") == "b" && WithoutPairs(s) == "ab";
    NoRefs("ab");
  }

  lemma Refused()
    ensures !SetAccepts("a%b")
  {
    var s := "a%b";
    assert s[1..] == "%b" && "%b"[1..] == "b" && "b"[1..] == "";
    assert WithoutPairs("b") == "b" && WithoutPairs("%b") == "%b" && WithoutPairs(s) == s;
    NoRefs(s);
    assert s[1] == '%';
  }

  lemma CutShort()
    ensures Reloaded("a ;b c") == "a"
  {
    var s := "a ;b c";
    var (rest, last) := (s[1..], s[2..]);
    assert rest[1..] == last && IndexOf(last, ';') == 0 && IndexOf(rest, ';') == 1 && IndexOf(s, ';') == 2;
    var kept := s[..2];
    assert Cut(s) == kept && kept[..1] == "a" && TrimRight("a") == "a";
  }
}

/** The port binder of the configuration reader: connections, listed once from each side, are sorted and made in
    one pass, each as soon as both of its ports are next in line. */
module PortBinder {
  import opened Options

  datatype Port = Port(obj: string, name: string, index: nat)

  datatype Connection = Connection(from: Port, to: Port)

  type Key = (string, string)

  function KeyOf(p: Port): Key { (p.obj, p.name) }

  function Flip(c: Connection): Connection { Connection(c.to, c.from) }

  predicate Self(c: Connection) { c.from == c.to }

  // ---------------------------------------------------------------- one pass

  /** How many ends of the connections made so far are at the port `k`: the value of its counter. */
  function Count(made: seq<Connection>, k: Key): nat
  {
    if made == [] then 0
    else
      var c := made[|made| - 1];
      Count(made[..|made| - 1], k) + (if KeyOf(c.from) == k then 1 else 0) + if KeyOf(c.to) == k then 1 else 0
  }

  /** Both ports of `c` are next in line. */
  predicate Bindable(made: seq<Connection>, c: Connection)
  {
    Count(made, KeyOf(c.from)) == c.from.index && Count(made, KeyOf(c.to)) == c.to.index
  }

  /** What one pass over the first n connections makes. */
  function Made(s: seq<Connection>, n: nat): seq<Connection>
    requires n <= |s|
  {
    if n == 0 then []
    else
      var made := Made(s, n - 1);
      if Bindable(made, s[n - 1]) then made + [s[n - 1]] else made
  }

  /** Every connection was bindable when it was made. */
  ghost predicate Ordered(made: seq<Connection>)
  {
    forall j :: 0 <= j < |made| ==> Bindable(made[..j], made[j])
  }

  lemma OrderedSnoc(made: seq<Connection>, c: Connection)
    requires Ordered(made) && Bindable(made, c)
    ensures Ordered(made + [c])
  {
    var next := made + [c];
    forall j | 0 <= j < |next|
      ensures Bindable(next[..j], next[j])
    {
      assert next[..j] == made[..j];
      assert made[..|made|] == made;
    }
  }

  lemma OrderedPrefix(made: seq<Connection>, n: nat)
    requires Ordered(made) && n <= |made|
    ensures Ordered(made[..n])
  {
    forall j | 0 <= j < n
      ensures Bindable(made[..n][..j], made[..n][j])
    {
      assert made[..n][..j] == made[..j];
    }
  }

  lemma {:induction false} MadeInOrder(s: seq<Connection>, n: nat)
    requires n <= |s|
    ensures Ordered(Made(s, n))
  {
    if n > 0 {
      MadeInOrder(s, n - 1);
      var made, c := Made(s, n - 1), s[n - 1];
      if Bindable(made, c) {
        OrderedSnoc(made, c);
      }
    }
  }

  lemma {:induction false} MadeBefore(s: seq<Connection>, n: nat, c: Connection)
    requires n <= |s| && c in Made(s, n)
    ensures c in s[..n]
  {
    if c == s[n - 1] {
      assert s[..n][n - 1] == c;
    } else {
      MadeBefore(s, n - 1, c);
      assert s[..n] == s[..n - 1] + [s[n - 1]];
    }
  }

  lemma MadeIsOrdered(s: seq<Connection>, n: nat)
    requires n <= |s|
    ensures Ordered(Made(s, n)) && forall c :: c in Made(s, n) ==> c in s[..n]
  {
    MadeInOrder(s, n);
    forall c | c in Made(s, n)
      ensures c in s[..n]
    {
      MadeBefore(s, n, c);
    }
  }

  // ---------------------------------------------------------------- what an ordered list has

  function Ends(made: seq<Connection>): set<Port>
  {
    if made == [] then {} else Ends(made[..|made| - 1]) + {made[|made| - 1].from, made[|made| - 1].to}
  }

  lemma {:induction false} EndsMembers(made: seq<Connection>, p: Port)
    ensures p in Ends(made) <==> exists j :: 0 <= j < |made| && (made[j].from == p || made[j].to == p)
  {
    if made != [] {
      var n := |made| - 1;
      EndsMembers(made[..n], p);
      assert p in Ends(made[..n]) ==> exists j :: 0 <= j < n && (made[j].from == p || made[j].to == p) by {
        if p in Ends(made[..n]) {
          var j :| 0 <= j < n && (made[..n][j].from == p || made[..n][j].to == p);
          assert made[j] == made[..n][j];
        }
      }
      forall j | 0 <= j < |made| && (made[j].from == p || made[j].to == p)
        ensures p in Ends(made)
      {
        if j < n {
          assert made[..n][j] == made[j];
        }
      }
    }
  }

  /** A port that has been used is behind its counter. */
  lemma {:induction false} UsedIsBehind(made: seq<Connection>, p: Port)
    requires Ordered(made) && p in Ends(made)
    ensures p.index < Count(made, KeyOf(p))
  {
    var n := |made| - 1;
    OrderedPrefix(made, n);
    assert Bindable(made[..n], made[n]);
    if p in Ends(made[..n]) {
      UsedIsBehind(made[..n], p);
    }
  }

  lemma UsedOnce(made: seq<Connection>, i: nat, j: nat, p: Port)
    requires Ordered(made) && i < j < |made| && (made[i].from == p || made[i].to == p)
    ensures made[j].from != p && made[j].to != p
  {
    assert made[..j][i] == made[i];
    EndsMembers(made[..j], p);
    OrderedPrefix(made, j);
    UsedIsBehind(made[..j], p);
    assert Bindable(made[..j], made[j]);
  }

  /** No port is used twice; so no connection is made twice, from the same side or from the other. */
  lemma NoPortTwice(made: seq<Connection>, i: nat, j: nat)
    requires Ordered(made) && i < j < |made|
    ensures {made[i].from, made[i].to} !! {made[j].from, made[j].to}
    ensures made[i] != made[j] && made[i] != Flip(made[j])
  {
    UsedOnce(made, i, j, made[i].from);
    UsedOnce(made, i, j, made[i].to);
  }

  ghost predicate NoSelf(s: seq<Connection>) { forall j :: 0 <= j < |s| ==> !Self(s[j]) }

  /** Without self-connections a port's counter is exactly one past the indices used: the ports 0, 1, 2, ... of a
      key are used in that order and without gaps. */
  lemma {:induction false} UsedIffBehind(made: seq<Connection>, p: Port)
    requires Ordered(made) && NoSelf(made)
    ensures p in Ends(made) <==> p.index < Count(made, KeyOf(p))
  {
    if made != [] {
      var n := |made| - 1;
      OrderedPrefix(made, n);
      UsedIffBehind(made[..n], p);
      assert Bindable(made[..n], made[n]) && !Self(made[n]);
    }
  }

  function Selfs(made: seq<Connection>): nat
  {
    if made == [] then 0 else Selfs(made[..|made| - 1]) + if Self(made[|made| - 1]) then 1 else 0
  }

  lemma {:induction false} EndsCount(made: seq<Connection>)
    requires Ordered(made)
    ensures |Ends(made)| == 2 * |made| - Selfs(made)
  {
    if made != [] {
      var n := |made| - 1;
      var c := made[n];
      OrderedPrefix(made, n);
      EndsCount(made[..n]);
      assert Bindable(made[..n], c);
      forall p | p in {c.from, c.to}
        ensures p !in Ends(made[..n])
      {
        if p in Ends(made[..n]) {
          UsedIsBehind(made[..n], p);
        }
      }
      var ends := {c.from, c.to};
      assert |ends| == if Self(c) then 1 else 2;
      assert Ends(made[..n]) !! ends && Ends(made) == Ends(made[..n]) + ends;
    }
  }

  lemma {:induction false} SelfsOf(made: seq<Connection>)
    ensures Selfs(made) == 0 <==> NoSelf(made)
  {
    if made != [] {
      var n := |made| - 1;
      SelfsOf(made[..n]);
      assert forall j :: 0 <= j < n ==> made[..n][j] == made[j];
    }
  }

  // ---------------------------------------------------------------- the half-count check

  /** Every connection is listed from both sides. */
  ghost predicate Symmetric(s: seq<Connection>) { forall c :: c in s ==> Flip(c) in s }

  /** Every port is listed once as a source. */
  ghost predicate OnceAsSource(s: seq<Connection>)
  {
    forall i, j :: 0 <= i < j < |s| ==> s[i].from != s[j].from
  }

  ghost predicate AllMade(s: seq<Connection>, made: seq<Connection>)
  {
    forall c :: c in s ==> c in made || Flip(c) in made
  }

  function Sources(s: seq<Connection>): set<Port>
  {
    if s == [] then {} else Sources(s[..|s| - 1]) + {s[|s| - 1].from}
  }

  lemma {:induction false} SourcesMembers(s: seq<Connection>, p: Port)
    ensures p in Sources(s) <==> exists c :: c in s && c.from == p
  {
    if s != [] {
      var n := |s| - 1;
      assert s == s[..n] + [s[n]];
      SourcesMembers(s[..n], p);
    }
  }

  lemma {:induction false} SourcesCount(s: seq<Connection>)
    requires OnceAsSource(s)
    ensures |Sources(s)| == |s|
  {
    if s != [] {
      var n := |s| - 1;
      SourcesCount(s[..n]);
      SourcesMembers(s[..n], s[n].from);
    }
  }

  lemma SourceDetermines(s: seq<Connection>, c: Connection, d: Connection)
    requires OnceAsSource(s) && c in s && d in s && c.from == d.from
    ensures c == d
  {
    var i :| 0 <= i < |s| && s[i] == c;
    var j :| 0 <= j < |s| && s[j] == d;
  }

  ghost predicate Within(s: seq<Connection>, made: seq<Connection>) { forall c :: c in made ==> c in s }

  lemma EndsAreSources(s: seq<Connection>, made: seq<Connection>)
    requires Symmetric(s) && Within(s, made)
    ensures Ends(made) <= Sources(s)
  {
    forall p | p in Ends(made)
      ensures p in Sources(s)
    {
      EndsMembers(made, p);
      var j :| 0 <= j < |made| && (made[j].from == p || made[j].to == p);
      assert made[j] in s && Flip(made[j]) in s;
      SourcesMembers(s, p);
    }
  }

  /** A connection whose source has been used has been made. */
  lemma UsedIsMade(s: seq<Connection>, made: seq<Connection>, c: Connection)
    requires Symmetric(s) && OnceAsSource(s) && Within(s, made) && c in s && c.from in Ends(made)
    ensures c in made || Flip(c) in made
  {
    EndsMembers(made, c.from);
    var j :| 0 <= j < |made| && (made[j].from == c.from || made[j].to == c.from);
    assert made[j] in s && Flip(made[j]) in s;
    if made[j].from == c.from {
      SourceDetermines(s, made[j], c);
    } else {
      SourceDetermines(s, Flip(made[j]), c);
      assert Flip(c) == made[j];
    }
  }

  lemma AllMadeIffAllUsed(s: seq<Connection>, made: seq<Connection>)
    requires Symmetric(s) && OnceAsSource(s) && Within(s, made)
    ensures AllMade(s, made) <==> Ends(made) == Sources(s)
  {
    EndsAreSources(s, made);
    forall p | p in Sources(s) && AllMade(s, made)
      ensures p in Ends(made)
    {
      SourcesMembers(s, p);
      EndsMembers(made, p);
    }
    forall c | c in s && Ends(made) == Sources(s)
      ensures c in made || Flip(c) in made
    {
      SourcesMembers(s, c.from);
      UsedIsMade(s, made, c);
    }
  }

  lemma SubsetSizes<T>(a: set<T>, b: set<T>)
    requires a <= b
    ensures a == b <==> |a| == |b|
  {
    assert b == a + (b - a);
    assert |b| == |a| + |b - a|;
  }

  /** When the check passes, every connection has been made (and, by NoPortTwice, once) if and only if the list
      has no self-connection; without self-connections the check passes exactly when every one has been made. */
  lemma HalfCountCheck(s: seq<Connection>, made: seq<Connection>)
    requires Symmetric(s) && OnceAsSource(s) && Within(s, made) && Ordered(made)
    ensures 2 * |made| == |s| ==> (AllMade(s, made) <==> NoSelf(s))
    ensures NoSelf(s) ==> (2 * |made| == |s| <==> AllMade(s, made))
  {
    EndsCount(made);
    SourcesCount(s);
    AllMadeIffAllUsed(s, made);
    EndsAreSources(s, made);
    SubsetSizes(Ends(made), Sources(s));
    SelfsOf(made);
    assert NoSelf(s) ==> NoSelf(made) by {
      if NoSelf(s) {
        forall j | 0 <= j < |made|
          ensures !Self(made[j])
        {
          assert made[j] in s;
        }
      }
    }
    assert AllMade(s, made) && NoSelf(made) ==> NoSelf(s) by {
      if AllMade(s, made) && NoSelf(made) {
        forall j | 0 <= j < |s|
          ensures !Self(s[j])
        {
          assert s[j] in s;
          assert Self(s[j]) ==> Flip(s[j]) == s[j];
        }
      }
    }
  }

  // ---------------------------------------------------------------- how good one pass is

  /** The connections of s at the positions in `chosen`, among the first n. */
  function Select(s: seq<Connection>, chosen: set<nat>, n: nat): seq<Connection>
    requires n <= |s|
  {
    if n == 0 then []
    else if n - 1 in chosen then Select(s, chosen, n - 1) + [s[n - 1]]
    else Select(s, chosen, n - 1)
  }

  lemma {:induction false} SelectWithin(s: seq<Connection>, chosen: set<nat>, n: nat)
    requires n <= |s|
    ensures Within(s, Select(s, chosen, n)) && (NoSelf(s) ==> NoSelf(Select(s, chosen, n)))
  {
    if n > 0 {
      SelectWithin(s, chosen, n - 1);
    }
  }

  lemma NotUsedIsNext(s: seq<Connection>, made: seq<Connection>, t: seq<Connection>, p: Port)
    requires Ordered(made) && NoSelf(made) && Ordered(t) && NoSelf(t) && Ends(t) <= Ends(made)
    requires Count(t, KeyOf(p)) == p.index && p !in Ends(made)
    ensures Count(made, KeyOf(p)) == p.index
  {
    UsedIffBehind(made, p);
    if p.index > 0 {
      var before := p.(index := p.index - 1);
      UsedIffBehind(t, before);
      UsedIffBehind(made, before);
    }
  }

  /** Whatever another choice has made by some point of the pass, the greedy one has made too. */
  lemma {:induction false} GreedyKeepsUp(s: seq<Connection>, chosen: set<nat>, n: nat)
    requires Symmetric(s) && OnceAsSource(s) && NoSelf(s) && n <= |s| && Ordered(Select(s, chosen, n))
    ensures Ends(Select(s, chosen, n)) <= Ends(Made(s, n))
  {
    if n > 0 {
      if n - 1 in chosen {
        OrderedSplit(Select(s, chosen, n - 1), s[n - 1]);
        GreedyKeepsUp(s, chosen, n - 1);
        SelectWithin(s, chosen, n - 1);
        ChosenStep(s, n - 1, Select(s, chosen, n - 1));
      } else {
        GreedyKeepsUp(s, chosen, n - 1);
        MadeGrows(s, n - 1);
      }
    }
  }

  lemma ChosenStep(s: seq<Connection>, n: nat, t: seq<Connection>)
    requires Symmetric(s) && OnceAsSource(s) && NoSelf(s) && n < |s|
    requires Ordered(t) && NoSelf(t) && Bindable(t, s[n]) && Ends(t) <= Ends(Made(s, n))
    ensures Ends(t + [s[n]]) <= Ends(Made(s, n + 1))
  {
    MadeWithin(s, n);
    GreedyStep(s, Made(s, n), t, s[n]);
    MadeGrows(s, n);
    EndsSnoc(t, s[n]);
  }

  lemma MadeGrows(s: seq<Connection>, n: nat)
    requires n < |s|
    ensures Ends(Made(s, n)) <= Ends(Made(s, n + 1))
    ensures Bindable(Made(s, n), s[n]) ==> {s[n].from, s[n].to} <= Ends(Made(s, n + 1))
  {
    EndsSnoc(Made(s, n), s[n]);
  }

  lemma EndsSnoc(made: seq<Connection>, c: Connection)
    ensures Ends(made + [c]) == Ends(made) + {c.from, c.to}
  {
    assert (made + [c])[..|made|] == made;
  }

  lemma OrderedSplit(t: seq<Connection>, c: Connection)
    requires Ordered(t + [c])
    ensures Ordered(t) && Bindable(t, c)
  {
    var next := t + [c];
    assert next[..|t|] == t && Bindable(next[..|t|], next[|t|]);
    OrderedPrefix(next, |t|);
  }

  lemma MadeWithin(s: seq<Connection>, n: nat)
    requires n <= |s|
    ensures Ordered(Made(s, n)) && Within(s, Made(s, n)) && (NoSelf(s) ==> NoSelf(Made(s, n)))
  {
    MadeIsOrdered(s, n);
    assert forall j :: 0 <= j < |Made(s, n)| ==> Made(s, n)[j] in s;
  }

  lemma GreedyStep(s: seq<Connection>, made: seq<Connection>, t: seq<Connection>, c: Connection)
    requires Symmetric(s) && OnceAsSource(s) && Within(s, made) && c in s
    requires Ordered(made) && NoSelf(made) && Ordered(t) && NoSelf(t) && Ends(t) <= Ends(made) && Bindable(t, c)
    ensures Bindable(made, c) || {c.from, c.to} <= Ends(made)
  {
    if c.from in Ends(made) {
      UsedIsMade(s, made, c);
      BothEnds(made, c);
    } else if c.to in Ends(made) {
      UsedIsMade(s, made, Flip(c));
      BothEnds(made, c);
    } else {
      NotUsedIsNext(s, made, t, c.from);
      NotUsedIsNext(s, made, t, c.to);
    }
  }

  lemma BothEnds(made: seq<Connection>, c: Connection)
    requires c in made || Flip(c) in made
    ensures {c.from, c.to} <= Ends(made)
  {
    EndsMembers(made, c.from);
    EndsMembers(made, c.to);
  }

  /** The positions at which the pass makes a connection. */
  ghost function Taken(s: seq<Connection>): set<nat>
  {
    set n: nat | n < |s| && Bindable(Made(s, n), s[n])
  }

  /** The choice agrees with the pass on connection i. */
  ghost predicate Agrees(s: seq<Connection>, chosen: set<nat>, i: nat)
    requires i < |s|
  {
    i in chosen <==> Bindable(Made(s, i), s[i])
  }

  lemma TakenAgrees(s: seq<Connection>, i: nat)
    requires i < |s|
    ensures Agrees(s, Taken(s), i)
  {
  }

  lemma TakenIsMade(s: seq<Connection>, n: nat)
    requires n <= |s|
    ensures Select(s, Taken(s), n) == Made(s, n)
  {
    forall i | 0 <= i < n
      ensures Agrees(s, Taken(s), i)
    {
      TakenAgrees(s, i);
    }
    SelectIsMade(s, Taken(s), n);
  }

  lemma {:induction false} SelectIsMade(s: seq<Connection>, chosen: set<nat>, n: nat)
    requires n <= |s| && forall i :: 0 <= i < n ==> Agrees(s, chosen, i)
    ensures Select(s, chosen, n) == Made(s, n)
  {
    if n > 0 {
      SelectIsMade(s, chosen, n - 1);
      assert Agrees(s, chosen, n - 1);
    }
  }

  /** A choice of positions whose connections, made in the order of the list, are every connection in order. */
  ghost predicate OnePass(s: seq<Connection>, chosen: set<nat>)
  {
    Ordered(Select(s, chosen, |s|)) && AllMade(s, Select(s, chosen, |s|))
  }

  /** The greedy pass succeeds if and only if some choice of one of the two listings of each connection does. */
  lemma GreedyIsBest(s: seq<Connection>)
    requires Symmetric(s) && OnceAsSource(s) && NoSelf(s)
    ensures 2 * |Made(s, |s|)| == |s| <==> exists chosen :: OnePass(s, chosen)
  {
    var made := Made(s, |s|);
    MadeWithin(s, |s|);
    HalfCountCheck(s, made);
    TakenIsMade(s, |s|);
    assert AllMade(s, made) ==> OnePass(s, Taken(s));
    forall chosen | OnePass(s, chosen)
      ensures AllMade(s, made)
    {
      GreedyKeepsUp(s, chosen, |s|);
      SelectWithin(s, chosen, |s|);
      AllMadeIffAllUsed(s, Select(s, chosen, |s|));
      AllMadeIffAllUsed(s, made);
      EndsAreSources(s, made);
    }
  }

  // ---------------------------------------------------------------- sorting

  function CmpStr(a: string, b: string): int
  {
    if a == "" then (if b == "" then 0 else -1)
    else if b == "" then 1
    else if a[0] < b[0] then -1
    else if b[0] < a[0] then 1
    else CmpStr(a[1..], b[1..])
  }

  /** The strings agree up to position k, where the first ends or has the smaller character. */
  ghost predicate SmallerAt(a: string, b: string, k: nat)
  {
    && k <= |a| && k < |b| && (forall j :: 0 <= j < k ==> a[j] == b[j])
    && (k == |a| || a[k] < b[k])
  }

  /** The comparison is the lexicographic one. */
  lemma {:induction false} CmpStrIsLexicographic(a: string, b: string)
    ensures CmpStr(a, b) < 0 <==> exists k: nat :: SmallerAt(a, b, k)
  {
    if a == "" {
      assert b != "" ==> SmallerAt(a, b, 0);
    } else if b != "" && a[0] == b[0] {
      CmpStrIsLexicographic(a[1..], b[1..]);
      forall k: nat | SmallerAt(a[1..], b[1..], k)
        ensures SmallerAt(a, b, k + 1)
      {
        assert forall j :: 1 <= j < k + 1 ==> a[j] == a[1..][j - 1] && b[j] == b[1..][j - 1];
      }
      forall k: nat | SmallerAt(a, b, k)
        ensures k > 0 && SmallerAt(a[1..], b[1..], k - 1)
      {
        assert !SmallerAt(a, b, 0);
      }
    } else if b != "" {
      assert a[0] < b[0] ==> SmallerAt(a, b, 0);
    }
  }

  function CmpPort(a: Port, b: Port): int
  {
    if CmpStr(a.obj, b.obj) != 0 then CmpStr(a.obj, b.obj)
    else if CmpStr(a.name, b.name) != 0 then CmpStr(a.name, b.name)
    else a.index - b.index
  }

  predicate Le(c: Connection, d: Connection)
  {
    if CmpPort(c.from, d.from) != 0 then CmpPort(c.from, d.from) < 0 else CmpPort(c.to, d.to) <= 0
  }

  lemma {:induction false} CmpStrFacts(a: string, b: string)
    ensures CmpStr(a, b) == -CmpStr(b, a) && (CmpStr(a, b) == 0 <==> a == b)
  {
    if a != "" && b != "" && a[0] == b[0] {
      CmpStrFacts(a[1..], b[1..]);
      assert a == [a[0]] + a[1..] && b == [b[0]] + b[1..];
    }
  }

  lemma {:induction false} CmpStrTransitive(a: string, b: string, c: string)
    requires CmpStr(a, b) <= 0 && CmpStr(b, c) <= 0
    ensures CmpStr(a, c) <= 0
  {
    if a != "" && b != "" && c != "" && a[0] == b[0] == c[0] {
      CmpStrTransitive(a[1..], b[1..], c[1..]);
    }
  }

  lemma CmpPortFacts(a: Port, b: Port)
    ensures CmpPort(a, b) == -CmpPort(b, a) && (CmpPort(a, b) == 0 <==> a == b)
  {
    CmpStrFacts(a.obj, b.obj);
    CmpStrFacts(a.name, b.name);
  }

  lemma CmpPortTransitive(a: Port, b: Port, c: Port)
    requires CmpPort(a, b) <= 0 && CmpPort(b, c) <= 0
    ensures CmpPort(a, c) <= 0
  {
    CmpStrFacts(a.obj, b.obj);
    CmpStrFacts(b.obj, c.obj);
    CmpStrFacts(a.obj, c.obj);
    CmpStrFacts(a.name, b.name);
    CmpStrFacts(b.name, c.name);
    CmpStrFacts(a.name, c.name);
    CmpStrTransitive(a.obj, b.obj, c.obj);
    if a.obj == b.obj == c.obj {
      CmpStrTransitive(a.name, b.name, c.name);
    }
  }

  /** The first string comes first in the dictionary. */
  ghost predicate Smaller(a: string, b: string) { exists k: nat :: SmallerAt(a, b, k) }

  /** By object, then by port, then by index. */
  ghost predicate PortBefore(a: Port, b: Port)
  {
    || Smaller(a.obj, b.obj)
    || (a.obj == b.obj && (Smaller(a.name, b.name) || (a.name == b.name && a.index < b.index)))
  }

  /** Connections are sorted by their sources, and with the same source by their targets. */
  lemma SortOrderIs(c: Connection, d: Connection)
    ensures Le(c, d) <==> PortBefore(c.from, d.from) || (c.from == d.from && (PortBefore(c.to, d.to) || c.to == d.to))
  {
    CmpPortIs(c.from, d.from);
    CmpPortIs(c.to, d.to);
    CmpPortFacts(c.from, d.from);
    CmpPortFacts(c.to, d.to);
  }

  lemma CmpPortIs(a: Port, b: Port)
    ensures CmpPort(a, b) < 0 <==> PortBefore(a, b)
  {
    CmpStrFacts(a.obj, b.obj);
    CmpStrFacts(a.name, b.name);
    CmpStrIsLexicographic(a.obj, b.obj);
    CmpStrIsLexicographic(a.name, b.name);
    CmpStrIsLexicographic(b.obj, b.obj);
  }

  lemma LeTotal(c: Connection, d: Connection)
    ensures Le(c, d) || Le(d, c)
  {
    CmpPortFacts(c.from, d.from);
    CmpPortFacts(c.to, d.to);
  }

  lemma LeTransitive(c: Connection, d: Connection, e: Connection)
    requires Le(c, d) && Le(d, e)
    ensures Le(c, e)
  {
    CmpPortFacts(c.from, d.from);
    CmpPortFacts(d.from, e.from);
    CmpPortFacts(c.from, e.from);
    CmpPortTransitive(c.from, d.from, e.from);
    if c.from == d.from == e.from {
      CmpPortTransitive(c.to, d.to, e.to);
    }
  }

  ghost predicate Sorted(s: seq<Connection>) { forall i, j :: 0 <= i < j < |s| ==> Le(s[i], s[j]) }

  function Insert(s: seq<Connection>, c: Connection): seq<Connection>
  {
    if s == [] then [c] else if Le(c, s[0]) then [c] + s else [s[0]] + Insert(s[1..], c)
  }

  function SortConnections(s: seq<Connection>): seq<Connection>
  {
    if s == [] then [] else Insert(SortConnections(s[1..]), s[0])
  }

  lemma SortedCons(c: Connection, s: seq<Connection>)
    requires Sorted(s) && forall d :: d in s ==> Le(c, d)
    ensures Sorted([c] + s)
  {
    var t := [c] + s;
    forall i, j | 0 <= i < j < |t|
      ensures Le(t[i], t[j])
    {
      assert t[j] == s[j - 1] && (i > 0 ==> t[i] == s[i - 1]);
    }
  }

  lemma {:induction false} InsertKeeps(s: seq<Connection>, c: Connection)
    ensures multiset(Insert(s, c)) == multiset(s) + multiset{c}
  {
    if s != [] {
      assert s == [s[0]] + s[1..];
      InsertKeeps(s[1..], c);
    }
  }

  lemma {:induction false} InsertSorted(s: seq<Connection>, c: Connection)
    requires Sorted(s)
    ensures Sorted(Insert(s, c))
  {
    if s != [] {
      LeTotal(c, s[0]);
      if Le(c, s[0]) {
        forall d | d in s
          ensures Le(c, d)
        {
          var j :| 0 <= j < |s| && s[j] == d;
          if j > 0 {
            LeTransitive(c, s[0], s[j]);
          }
        }
        SortedCons(c, s);
      } else {
        InsertSorted(s[1..], c);
        InsertKeeps(s[1..], c);
        forall d | d in Insert(s[1..], c)
          ensures Le(s[0], d)
        {
          assert d in multiset(Insert(s[1..], c));
        }
        SortedCons(s[0], Insert(s[1..], c));
      }
    }
  }

  lemma {:induction false} SortFacts(s: seq<Connection>)
    ensures Sorted(SortConnections(s)) && multiset(SortConnections(s)) == multiset(s)
  {
    if s != [] {
      SortFacts(s[1..]);
      InsertSorted(SortConnections(s[1..]), s[0]);
      InsertKeeps(SortConnections(s[1..]), s[0]);
      assert s == [s[0]] + s[1..];
    }
  }

  lemma {:induction false} SortOfSorted(s: seq<Connection>)
    requires Sorted(s)
    ensures SortConnections(s) == s
  {
    if s != [] {
      SortOfSorted(s[1..]);
      assert |s| > 1 ==> Le(s[0], s[1..][0]);
      assert s == [s[0]] + s[1..];
    }
  }

  lemma {:induction false} SortedByNeighbours(s: seq<Connection>)
    requires forall i :: 0 <= i < |s| - 1 ==> Before(s, i)
    ensures Sorted(s)
  {
    if |s| > 1 {
      var rest := s[1..];
      forall i | 0 <= i < |rest| - 1
        ensures Before(rest, i)
      {
        assert Before(s, i + 1);
      }
      SortedByNeighbours(rest);
      assert Before(s, 0);
      forall j | 0 <= j < |rest|
        ensures Le(s[0], rest[j])
      {
        if j > 0 {
          LeTransitive(s[0], rest[0], rest[j]);
        }
      }
      SortedCons(s[0], rest);
      assert s == [s[0]] + rest;
    }
  }

  ghost predicate Before(s: seq<Connection>, i: nat)
    requires i + 1 < |s|
  {
    Le(s[i], s[i + 1])
  }

  // ---------------------------------------------------------------- the method

  datatype Outcome = Bound(made: seq<Connection>) | CannotOrder | UnknownPort

  function Known(conns: seq<Connection>): set<Key> { set c | c in conns :: KeyOf(c.from) }

  /** The pass with its dictionary look-ups, None when one of them fails. */
  function Pass(s: seq<Connection>, known: set<Key>, n: nat): Option<seq<Connection>>
    requires n <= |s|
  {
    if n == 0 then Some([])
    else if Pass(s, known, n - 1).None? then None
    else Tried(Pass(s, known, n - 1).value, s[n - 1], known)
  }

  /** One connection of the pass. */
  function Tried(made: seq<Connection>, c: Connection, known: set<Key>): Option<seq<Connection>>
  {
    if Count(made, KeyOf(c.from)) != c.from.index then Some(made)
    else if KeyOf(c.to) !in known then None
    else if Count(made, KeyOf(c.to)) != c.to.index then Some(made)
    else Some(made + [c])
  }

  lemma {:induction false} PassIsMade(s: seq<Connection>, known: set<Key>, n: nat)
    requires n <= |s| && forall c :: c in s ==> KeyOf(c.to) in known
    ensures Pass(s, known, n) == Some(Made(s, n))
  {
    if n > 0 {
      PassIsMade(s, known, n - 1);
      assert s[n - 1] in s;
    }
  }

  ghost predicate Counts(indices: map<Key, nat>, known: set<Key>, made: seq<Connection>)
  {
    indices.Keys == known && forall k :: k in known ==> indices[k] == Count(made, k)
  }

  method InitIndices(conns: seq<Connection>) returns (indices: map<Key, nat>)
    ensures Counts(indices, Known(conns), [])
  {
    indices := map[];
    for i := 0 to |conns|
      invariant indices.Keys == Known(conns[..i]) && forall k :: k in indices ==> indices[k] == 0
    {
      KnownNext(conns, i);
      indices := indices[KeyOf(conns[i].from) := 0];
    }
    assert conns[..|conns|] == conns;
  }

  method Increment(indices: map<Key, nat>, made: seq<Connection>, c: Connection, ghost known: set<Key>)
    returns (next: map<Key, nat>)
    requires Counts(indices, known, made) && KeyOf(c.from) in known && KeyOf(c.to) in known
    ensures Counts(next, known, made + [c])
  {
    next := indices[KeyOf(c.from) := indices[KeyOf(c.from)] + 1];
    next := next[KeyOf(c.to) := next[KeyOf(c.to)] + 1];
    assert (made + [c])[..|made|] == made;
  }

  /** The body of the binding loop. */
  method Try(indices: map<Key, nat>, made: seq<Connection>, c: Connection, ghost known: set<Key>)
    returns (r: Option<seq<Connection>>, next: map<Key, nat>)
    requires Counts(indices, known, made) && KeyOf(c.from) in known
    ensures r == Tried(made, c, known) && (r.Some? ==> Counts(next, known, r.value))
  {
    r, next := Some(made), indices;
    if indices[KeyOf(c.from)] == c.from.index {
      if KeyOf(c.to) !in indices {
        return None, indices;
      }
      if indices[KeyOf(c.to)] == c.to.index {
        next := Increment(indices, made, c, known);
        r := Some(made + [c]);
      }
    }
  }

  /** What bind_ports comes to: the outcome of the pass over the sorted list. */
  function Binding(conns: seq<Connection>): Outcome
  {
    var s := SortConnections(conns);
    match Pass(s, Known(conns), |s|)
    case None => UnknownPort
    case Some(made) => if 2 * |made| == |conns| then Bound(made) else CannotOrder
  }

  /** The source of connection i is next in line when its turn comes, and its target is nowhere a source. */
  ghost predicate Dangles(s: seq<Connection>, i: nat)
  {
    && i < |s| && Count(Made(s, i), KeyOf(s[i].from)) == s[i].from.index
    && forall c :: c in s ==> KeyOf(c.from) != KeyOf(s[i].to)
  }

  ghost predicate SomeDangles(s: seq<Connection>, n: nat) { exists i :: 0 <= i < n && Dangles(s, i) }

  lemma {:induction false} PassUnlessDangling(s: seq<Connection>, known: set<Key>, n: nat)
    requires n <= |s| && forall k :: k in known <==> exists c :: c in s && KeyOf(c.from) == k
    ensures Pass(s, known, n) == if SomeDangles(s, n) then None else Some(Made(s, n))
  {
    if n > 0 {
      PassUnlessDangling(s, known, n - 1);
      assert SomeDangles(s, n) <==> SomeDangles(s, n - 1) || Dangles(s, n - 1);
      var to := KeyOf(s[n - 1].to);
      assert to in known <==> exists c :: c in s && KeyOf(c.from) == to;
    }
  }

  /** On any list: a connection that dangles ends the binder; otherwise it makes what is bindable in sorted order, and
      accepts exactly if that is half of the list. */
  lemma OutcomeIs(conns: seq<Connection>)
    ensures var s := SortConnections(conns);
            Binding(conns) == if SomeDangles(s, |s|) then UnknownPort
                              else if 2 * |Made(s, |s|)| == |conns| then Bound(Made(s, |s|)) else CannotOrder
  {
    var s := SortConnections(conns);
    SortFacts(conns);
    forall k
      ensures k in Known(conns) <==> exists c :: c in s && KeyOf(c.from) == k
    {
      assert forall c :: c in s <==> c in multiset(s);
      assert forall c :: c in conns <==> c in multiset(conns);
    }
    PassUnlessDangling(s, Known(conns), |s|);
  }

  method BindPorts(conns: seq<Connection>) returns (r: Outcome)
    ensures r == Binding(conns)
    ensures var s := SortConnections(conns);
            r == if SomeDangles(s, |s|) then UnknownPort
                 else if 2 * |Made(s, |s|)| == |conns| then Bound(Made(s, |s|)) else CannotOrder
  {
    OutcomeIs(conns);
    var indices := InitIndices(conns);
    ghost var known := Known(conns);
    var s, made := SortConnections(conns), [];
    for i := 0 to |s|
      invariant Pass(s, known, i) == Some(made) && Counts(indices, known, made)
    {
      SortedAreKnown(conns, s[i]);
      var next;
      next, indices := Try(indices, made, s[i], known);
      if next.None? {
        PassStops(s, known, i + 1, |s|);
        return UnknownPort;
      }
      made := next.value;
    }
    r := if 2 * |made| == |conns| then Bound(made) else CannotOrder;
  }

  lemma SortedAreKnown(conns: seq<Connection>, c: Connection)
    requires c in SortConnections(conns)
    ensures KeyOf(c.from) in Known(conns)
  {
    SortFacts(conns);
    assert c in multiset(SortConnections(conns));
  }

  lemma KnownNext(conns: seq<Connection>, i: nat)
    requires i < |conns|
    ensures Known(conns[..i + 1]) == Known(conns[..i]) + {KeyOf(conns[i].from)}
  {
    assert conns[..i + 1] == conns[..i] + [conns[i]];
  }

  lemma {:induction false} PassStops(s: seq<Connection>, known: set<Key>, i: nat, n: nat)
    requires i <= n <= |s| && Pass(s, known, i).None?
    ensures Pass(s, known, n).None?
  {
    if i < n {
      PassStops(s, known, i, n - 1);
    }
  }

  lemma {:induction false} SourcesCountIff(s: seq<Connection>)
    ensures |Sources(s)| <= |s| && (|Sources(s)| == |s| ==> OnceAsSource(s))
  {
    if s != [] {
      var n := |s| - 1;
      SourcesCountIff(s[..n]);
      SourcesMembers(s[..n], s[n].from);
      if |Sources(s)| == |s| {
        forall i, j | 0 <= i < j < |s|
          ensures s[i].from != s[j].from
        {
          assert s[..n][i] == s[i];
          assert j < n ==> s[..n][j] == s[j];
        }
      }
    }
  }

  /** What matters about a connection list does not depend on its order. */
  lemma SameList(s: seq<Connection>, t: seq<Connection>)
    requires multiset(s) == multiset(t) && Symmetric(s) && OnceAsSource(s)
    ensures |s| == |t| && Symmetric(t) && OnceAsSource(t) && (NoSelf(s) ==> NoSelf(t))
    ensures forall made :: AllMade(s, made) <==> AllMade(t, made)
  {
    assert |multiset(s)| == |s| && |multiset(t)| == |t|;
    assert forall c :: c in t <==> c in multiset(t);
    assert forall c :: c in s <==> c in multiset(s);
    forall p
      ensures p in Sources(s) <==> p in Sources(t)
    {
      SourcesMembers(s, p);
      SourcesMembers(t, p);
    }
    assert Sources(s) == Sources(t);
    SourcesCount(s);
    SourcesCountIff(t);
    assert NoSelf(s) ==> forall j :: 0 <= j < |t| ==> t[j] in s;
  }

  lemma SymmetricOutcome(conns: seq<Connection>, r: Outcome)
    requires Symmetric(conns) && OnceAsSource(conns) && NoSelf(conns) && r == Binding(conns)
    ensures r != UnknownPort
    ensures r.Bound? ==> Ordered(r.made) && AllMade(conns, r.made) && Within(conns, r.made)
    ensures r.Bound? <==> exists chosen :: OnePass(SortConnections(conns), chosen)
  {
    var s := SortConnections(conns);
    SortFacts(conns);
    SameList(conns, s);
    assert forall c :: c in s <==> c in multiset(s);
    forall c | c in s
      ensures KeyOf(c.to) in Known(conns)
    {
      assert c in multiset(conns);
      assert Flip(c) in conns && KeyOf(Flip(c).from) == KeyOf(c.to);
    }
    PassIsMade(s, Known(conns), |s|);
    MadeWithin(s, |s|);
    GreedyIsBest(s);
    HalfCountCheck(s, Made(s, |s|));
    assert forall c :: c in Made(s, |s|) ==> c in multiset(conns);
  }

  /** The binder on the lists its documentation asks for: it never misses a port; if it binds, every connection
      is made once and each port's connections in index order; and it binds exactly when some choice of one
      listing of each connection, in sorted order, would do. */
  method BindSymmetric(conns: seq<Connection>) returns (r: Outcome)
    requires Symmetric(conns) && OnceAsSource(conns) && NoSelf(conns)
    ensures r != UnknownPort
    ensures r.Bound? ==> Ordered(r.made) && AllMade(conns, r.made) && Within(conns, r.made)
    ensures r.Bound? <==> exists chosen :: OnePass(SortConnections(conns), chosen)
  {
    r := BindPorts(conns);
    SymmetricOutcome(conns, r);
  }

  // ---------------------------------------------------------------- gathering

  /** The peers of one port, as the configuration lists them. */
  datatype PortPeers = PortPeers(name: string, peers: seq<Port>)

  datatype Object = Object(name: string, ports: seq<PortPeers>)

  function OfPort(o: string, p: PortPeers): (s: seq<Connection>)
    ensures |s| == |p.peers|
  {
    seq(|p.peers|, i requires 0 <= i < |p.peers| => Connection(Port(o, p.name, i), p.peers[i]))
  }

  function OfObject(o: Object, n: nat): seq<Connection>
    requires n <= |o.ports|
  {
    if n == 0 then [] else OfObject(o, n - 1) + OfPort(o.name, o.ports[n - 1])
  }

  function OfAll(objects: seq<Object>, n: nat): seq<Connection>
    requires n <= |objects|
  {
    if n == 0 then [] else OfAll(objects, n - 1) + OfObject(objects[n - 1], |objects[n - 1].ports|)
  }

  method GatherPortConnections(o: Object) returns (parsed: seq<Connection>)
    ensures parsed == OfObject(o, |o.ports|)
  {
    parsed := [];
    for n := 0 to |o.ports|
      invariant parsed == OfObject(o, n)
    {
      var port := o.ports[n];
      for index := 0 to |port.peers|
        invariant parsed == OfObject(o, n) + OfPort(o.name, port)[..index]
      {
        assert OfPort(o.name, port)[..index + 1] == OfPort(o.name, port)[..index] + [OfPort(o.name, port)[index]];
        parsed := parsed + [Connection(Port(o.name, port.name, index), port.peers[index])];
      }
      assert OfPort(o.name, port)[..|port.peers|] == OfPort(o.name, port);
    }
  }

  /** Object names are dictionary keys, and so are the port names of an object. */
  ghost predicate DistinctNames(objects: seq<Object>)
  {
    && (forall i, j :: 0 <= i < j < |objects| ==> objects[i].name != objects[j].name)
    && forall i :: 0 <= i < |objects| ==> DistinctPorts(objects[i])
  }

  ghost predicate DistinctPorts(o: Object)
  {
    forall i, j :: 0 <= i < j < |o.ports| ==> o.ports[i].name != o.ports[j].name
  }

  lemma OnceAppend(a: seq<Connection>, b: seq<Connection>)
    requires OnceAsSource(a) && OnceAsSource(b) && forall c, d :: c in a && d in b ==> c.from != d.from
    ensures OnceAsSource(a + b)
  {
    forall i, j | 0 <= i < j < |a + b|
      ensures (a + b)[i].from != (a + b)[j].from
    {
      if i < |a| <= j {
        assert (a + b)[i] in a && (a + b)[j] in b;
      }
    }
  }

  lemma {:induction false} ObjectOnce(o: Object, n: nat)
    requires n <= |o.ports| && DistinctPorts(o)
    ensures OnceAsSource(OfObject(o, n))
    ensures forall c :: c in OfObject(o, n) ==>
              c.from.obj == o.name && exists i :: 0 <= i < n && c.from.name == o.ports[i].name
  {
    if n > 0 {
      ObjectOnce(o, n - 1);
      var last := OfPort(o.name, o.ports[n - 1]);
      assert forall k :: 0 <= k < |last| ==> last[k].from == Port(o.name, o.ports[n - 1].name, k);
      forall c | c in last
        ensures c.from.obj == o.name && c.from.name == o.ports[n - 1].name
      {
        var k :| 0 <= k < |last| && last[k] == c;
      }
      OnceAppend(OfObject(o, n - 1), last);
    }
  }

  /** What is gathered lists every port once as a source. */
  lemma {:induction false} GatheredOnce(objects: seq<Object>, n: nat)
    requires n <= |objects| && DistinctNames(objects)
    ensures OnceAsSource(OfAll(objects, n))
    ensures forall c :: c in OfAll(objects, n) ==> exists i :: 0 <= i < n && c.from.obj == objects[i].name
  {
    if n > 0 {
      GatheredOnce(objects, n - 1);
      ObjectOnce(objects[n - 1], |objects[n - 1].ports|);
      OnceAppend(OfAll(objects, n - 1), OfObject(objects[n - 1], |objects[n - 1].ports|));
    }
  }

  /** The configuration lists `to` as a peer of the port `from`: some object has that port, and `to` is at its index. */
  ghost predicate Lists(objects: seq<Object>, from: Port, to: Port)
  {
    exists i :: 0 <= i < |objects| && ObjectLists(objects[i], from, to)
  }

  ghost predicate ObjectLists(o: Object, from: Port, to: Port)
  {
    o.name == from.obj && exists k :: 0 <= k < |o.ports| && PortLists(o.ports[k], from, to)
  }

  predicate PortLists(p: PortPeers, from: Port, to: Port)
  {
    p.name == from.name && from.index < |p.peers| && p.peers[from.index] == to
  }

  lemma OfPortIff(o: string, p: PortPeers, c: Connection)
    ensures c in OfPort(o, p) <==> o == c.from.obj && PortLists(p, c.from, c.to)
  {
    var s := OfPort(o, p);
    if c in s {
      var k :| 0 <= k < |s| && s[k] == c;
    }
    if o == c.from.obj && PortLists(p, c.from, c.to) {
      assert s[c.from.index] == c;
    }
  }

  lemma {:induction false} OfObjectIff(o: Object, n: nat, c: Connection)
    requires n <= |o.ports|
    ensures c in OfObject(o, n) <==>
      o.name == c.from.obj && exists k :: 0 <= k < n && PortLists(o.ports[k], c.from, c.to)
  {
    if n > 0 {
      OfObjectIff(o, n - 1, c);
      OfPortIff(o.name, o.ports[n - 1], c);
    }
  }

  lemma {:induction false} OfAllIff(objects: seq<Object>, n: nat, c: Connection)
    requires n <= |objects|
    ensures c in OfAll(objects, n) <==> exists i :: 0 <= i < n && ObjectLists(objects[i], c.from, c.to)
  {
    if n > 0 {
      OfAllIff(objects, n - 1, c);
      OfObjectIff(objects[n - 1], |objects[n - 1].ports|, c);
    }
  }

  /** Exactly the connections that the configuration lists are gathered. */
  lemma GatheredIff(objects: seq<Object>, c: Connection)
    ensures c in OfAll(objects, |objects|) <==> Lists(objects, c.from, c.to)
  {
    OfAllIff(objects, |objects|, c);
  }

  /** Every listed peer lists the port back, at the index that was named. */
  ghost predicate Mutual(objects: seq<Object>)
  {
    forall p, q :: Lists(objects, p, q) ==> Lists(objects, q, p)
  }

  /** What is gathered is listed from both sides exactly when the configuration is mutual. */
  lemma GatheredSymmetricIff(objects: seq<Object>)
    ensures Symmetric(OfAll(objects, |objects|)) <==> Mutual(objects)
  {
    var s := OfAll(objects, |objects|);
    forall p, q
      ensures Lists(objects, p, q) <==> Connection(p, q) in s
    {
      GatheredIff(objects, Connection(p, q));
    }
    if Symmetric(s) {
      forall p, q | Lists(objects, p, q)
        ensures Lists(objects, q, p)
      {
        assert Flip(Connection(p, q)) in s;
      }
    }
    if Mutual(objects) {
      forall c | c in s
        ensures Flip(c) in s
      {
        assert c == Connection(c.from, c.to) && Lists(objects, c.to, c.from);
      }
    }
  }

  /** No port has itself as a peer. */
  ghost predicate NoLoops(objects: seq<Object>) { forall p :: !Lists(objects, p, p) }

  lemma GatheredNoSelf(objects: seq<Object>)
    requires NoLoops(objects)
    ensures NoSelf(OfAll(objects, |objects|))
  {
    forall c | c in OfAll(objects, |objects|)
      ensures !Self(c)
    {
      GatheredIff(objects, c);
    }
  }

  /** Every listed connection is made, from one of its sides, and nothing else is. */
  ghost predicate MakesAll(objects: seq<Object>, made: seq<Connection>)
  {
    && (forall p, q :: Lists(objects, p, q) ==> Connection(p, q) in made || Connection(q, p) in made)
    && forall c :: c in made ==> Lists(objects, c.from, c.to)
  }

  lemma MakesAllListed(objects: seq<Object>, made: seq<Connection>)
    requires AllMade(OfAll(objects, |objects|), made) && Within(OfAll(objects, |objects|), made)
    ensures MakesAll(objects, made)
  {
    forall p, q | Lists(objects, p, q)
      ensures Connection(p, q) in made || Connection(q, p) in made
    {
      GatheredIff(objects, Connection(p, q));
      assert Flip(Connection(p, q)) == Connection(q, p);
    }
    forall c | c in made
      ensures Lists(objects, c.from, c.to)
    {
      GatheredIff(objects, c);
    }
  }

  /** The end of find_all_objects: gather the connections of all objects and bind them. A mutual configuration in
      which no port is its own peer is bound completely or refused, and never misses a port. */
  method BindObjects(objects: seq<Object>) returns (r: Outcome)
    requires DistinctNames(objects)
    ensures Mutual(objects) && NoLoops(objects) ==> r != UnknownPort
    ensures Mutual(objects) && NoLoops(objects) && r.Bound? ==> Ordered(r.made) && MakesAll(objects, r.made)
    ensures Mutual(objects) && NoLoops(objects) ==>
      (r.Bound? <==> exists chosen :: OnePass(SortConnections(OfAll(objects, |objects|)), chosen))
  {
    var conns := [];
    for n := 0 to |objects|
      invariant conns == OfAll(objects, n)
    {
      var parsed := GatherPortConnections(objects[n]);
      conns := conns + parsed;
    }
    GatheredOnce(objects, |objects|);
    GatheredSymmetricIff(objects);
    r := BindPorts(conns);
    if Mutual(objects) && NoLoops(objects) {
      GatheredNoSelf(objects);
      SymmetricOutcome(conns, r);
      if r.Bound? {
        MakesAllListed(objects, r.made);
      }
    }
  }

  // ---------------------------------------------------------------- two lists that go wrong

  lemma MadeNext(s: seq<Connection>, n: nat, made: seq<Connection>)
    requires n < |s| && Made(s, n) == made
    ensures Made(s, n + 1) == if Bindable(made, s[n]) then made + [s[n]] else made
  {
  }

  function EndsAt(c: Connection, k: Key): nat
  {
    (if KeyOf(c.from) == k then 1 else 0) + if KeyOf(c.to) == k then 1 else 0
  }

  lemma ShortCounts(x: Connection, y: Connection, z: Connection, k: Key)
    ensures Count([], k) == 0 && Count([x], k) == EndsAt(x, k) && Count([x, y], k) == EndsAt(x, k) + EndsAt(y, k)
    ensures Count([x, y, z], k) == EndsAt(x, k) + EndsAt(y, k) + EndsAt(z, k)
  {
    assert [x, y, z][..2] == [x, y] && [x, y][..1] == [x] && [x][..0] == [];
  }

  /** The self-connections of a.p[0] and b.p[0], and a.p[1]-x.p[0] from both sides. */
  function SelfList(a: string, b: string, x: string, p: string): seq<Connection>
  {
    [Connection(Port(a, p, 0), Port(a, p, 0)), Connection(Port(a, p, 1), Port(x, p, 0)),
     Connection(Port(b, p, 0), Port(b, p, 0)), Connection(Port(x, p, 0), Port(a, p, 1))]
  }

  /** The names come in this order. */
  predicate InOrder(names: seq<string>)
  {
    forall i, j :: 0 <= i < j < |names| ==> CmpStr(names[i], names[j]) < 0
  }

  lemma NamesDiffer(a: string, b: string)
    requires CmpStr(a, b) < 0
    ensures a != b
  {
    CmpStrFacts(a, b);
  }

  /** Connections are in order when their sources are: another object, or a later port of the same. */
  lemma SourceOrder(c: Connection, d: Connection)
    requires c.from.name == d.from.name
    requires CmpStr(c.from.obj, d.from.obj) < 0 || (c.from.obj == d.from.obj && c.from.index < d.from.index)
    ensures Le(c, d)
  {
    CmpStrFacts(c.from.obj, d.from.obj);
    CmpStrFacts(c.from.name, d.from.name);
  }

  lemma SelfListMade(a: string, b: string, x: string, p: string)
    requires a != b && b != x && a != x
    ensures var s := SelfList(a, b, x, p);
            Made(s, 4) == [s[0], s[2]]
  {
    var s := SelfList(a, b, x, p);
    ShortCounts(s[0], s[2], s[3], (a, p));
    ShortCounts(s[0], s[2], s[3], (b, p));
    MadeNext(s, 0, []);
    MadeNext(s, 1, [s[0]]);
    MadeNext(s, 2, [s[0]]);
    MadeNext(s, 3, [s[0], s[2]]);
  }

  lemma SelfListSorted(a: string, b: string, x: string, p: string)
    requires InOrder([a, b, x])
    ensures Sorted(SelfList(a, b, x, p)) && a != b && b != x && a != x
  {
    var s, names := SelfList(a, b, x, p), [a, b, x];
    assert CmpStr(names[0], names[1]) < 0 && CmpStr(names[1], names[2]) < 0 && CmpStr(names[0], names[2]) < 0;
    NamesDiffer(a, b);
    NamesDiffer(b, x);
    NamesDiffer(a, x);
    SourceOrder(s[0], s[1]);
    SourceOrder(s[1], s[2]);
    SourceOrder(s[2], s[3]);
    SortedByNeighbours(s);
  }

  /** Two self-connections count like two connections and hide one that is never made: the binder is satisfied with
      the self-connections alone. */
  lemma SelfConnectionsHideOthers(a: string, b: string, x: string, p: string)
    requires InOrder([a, b, x])
    ensures var s := SelfList(a, b, x, p);
            && Symmetric(s) && OnceAsSource(s)
            && Binding(s) == Bound([s[0], s[2]]) && !AllMade(s, [s[0], s[2]])
  {
    var s := SelfList(a, b, x, p);
    SelfListSorted(a, b, x, p);
    SymmetricBy(s, [0, 3, 2, 1]);
    SelfListMade(a, b, x, p);
    SortedBinding(s);
    assert s[1] in s;
  }

  /** The binder on a sorted symmetric list. */
  lemma SortedBinding(s: seq<Connection>)
    requires Sorted(s) && Symmetric(s)
    ensures Binding(s) == if 2 * |Made(s, |s|)| == |s| then Bound(Made(s, |s|)) else CannotOrder
  {
    SortOfSorted(s);
    SymmetricPass(s);
  }

  /** On a symmetric list the pass never meets an unknown port. */
  lemma SymmetricPass(s: seq<Connection>)
    requires Symmetric(s)
    ensures Pass(s, Known(s), |s|) == Some(Made(s, |s|))
  {
    forall c | c in s
      ensures KeyOf(c.to) in Known(s)
    {
      assert Flip(c) in s && KeyOf(Flip(c).from) == KeyOf(c.to);
    }
    PassIsMade(s, Known(s), |s|);
  }

  /** The connections a.p[0]-b.p[1], a.p[1]-e.p[0], b.p[0]-c.p[1] and c.p[0]-d.p[0], from both sides; in sorted
      order when a < b < c < d < e. */
  function Tangle(a: string, b: string, c: string, d: string, e: string, p: string): seq<Connection>
  {
    [Connection(Port(a, p, 0), Port(b, p, 1)), Connection(Port(a, p, 1), Port(e, p, 0)),
     Connection(Port(b, p, 0), Port(c, p, 1)), Connection(Port(b, p, 1), Port(a, p, 0)),
     Connection(Port(c, p, 0), Port(d, p, 0)), Connection(Port(c, p, 1), Port(b, p, 0)),
     Connection(Port(d, p, 0), Port(c, p, 0)), Connection(Port(e, p, 0), Port(a, p, 1))]
  }

  predicate Different(a: string, b: string, c: string, d: string, e: string)
  {
    a != b && a != c && a != d && a != e && b != c && b != d && b != e && c != d && c != e && d != e
  }

  /** Symmetry, checked position by position. */
  lemma SymmetricBy(s: seq<Connection>, partner: seq<nat>)
    requires |partner| == |s| && forall i :: 0 <= i < |s| ==> partner[i] < |s|
    requires forall i :: 0 <= i < |s| ==> s[partner[i]] == Flip(s[i])
    ensures Symmetric(s)
  {
    forall c | c in s
      ensures Flip(c) in s
    {
      var i :| 0 <= i < |s| && s[i] == c;
      assert s[partner[i]] == Flip(c);
    }
  }

  lemma TangleOnce(a: string, b: string, c: string, d: string, e: string, p: string)
    requires Different(a, b, c, d, e)
    ensures OnceAsSource(Tangle(a, b, c, d, e, p))
  {
    var s := Tangle(a, b, c, d, e, p);
    forall i, j | 0 <= i < j < |s|
      ensures s[i].from != s[j].from
    {
      var names := [a, a, b, b, c, c, d, e];
      assert s[i].from.obj == names[i] && s[j].from.obj == names[j];
      assert s[i].from.index == (if i < 6 then i % 2 else 0) && s[j].from.index == if j < 6 then j % 2 else 0;
    }
  }

  lemma TangleIsGoverned(a: string, b: string, c: string, d: string, e: string, p: string)
    requires Different(a, b, c, d, e)
    ensures var s := Tangle(a, b, c, d, e, p);
            Symmetric(s) && OnceAsSource(s) && NoSelf(s)
  {
    TangleOnce(a, b, c, d, e, p);
    SymmetricBy(Tangle(a, b, c, d, e, p), [3, 7, 5, 0, 6, 2, 4, 1]);
  }

  /** The first four connections all wait for something. */
  lemma TangleWaits(a: string, b: string, c: string, d: string, e: string, p: string)
    requires Different(a, b, c, d, e)
    ensures Made(Tangle(a, b, c, d, e, p), 4) == []
  {
    var s := Tangle(a, b, c, d, e, p);
    MadeNext(s, 0, []);
    MadeNext(s, 1, []);
    MadeNext(s, 2, []);
    MadeNext(s, 3, []);
  }

  lemma TangleMade(a: string, b: string, c: string, d: string, e: string, p: string)
    requires Different(a, b, c, d, e)
    ensures var s := Tangle(a, b, c, d, e, p);
            Made(s, 8) == [s[4], s[5]]
  {
    var s := Tangle(a, b, c, d, e, p);
    TangleWaits(a, b, c, d, e, p);
    ShortCounts(s[4], s[5], s[0], (a, p));
    ShortCounts(s[4], s[5], s[0], (b, p));
    ShortCounts(s[4], s[5], s[0], (c, p));
    ShortCounts(s[4], s[5], s[0], (d, p));
    MadeNext(s, 4, []);
    MadeNext(s, 5, [s[4]]);
    MadeNext(s, 6, [s[4], s[5]]);
    MadeNext(s, 7, [s[4], s[5]]);
  }

  lemma TangleHasAnOrder(a: string, b: string, c: string, d: string, e: string, p: string)
    requires Different(a, b, c, d, e)
    ensures var s := Tangle(a, b, c, d, e, p);
            var t := [s[4], s[2], s[0], s[1]];
            Ordered(t) && AllMade(s, t) && Within(s, t)
  {
    var s := Tangle(a, b, c, d, e, p);
    var t := [s[4], s[2], s[0], s[1]];
    ShortCounts(t[0], t[1], t[2], (a, p));
    ShortCounts(t[0], t[1], t[2], (b, p));
    ShortCounts(t[0], t[1], t[2], (c, p));
    ShortCounts(t[0], t[1], t[2], (d, p));
    ShortCounts(t[0], t[1], t[2], (e, p));
    assert t[..0] == [] && t[..1] == [t[0]] && t[..2] == [t[0], t[1]] && t[..3] == [t[0], t[1], t[2]];
    assert Flip(s[3]) == t[2] && Flip(s[7]) == t[3] && Flip(s[5]) == t[1] && Flip(s[6]) == t[0];
  }

  lemma TangleSorted(a: string, b: string, c: string, d: string, e: string, p: string)
    requires InOrder([a, b, c, d, e])
    ensures Sorted(Tangle(a, b, c, d, e, p))
  {
    var s, names := Tangle(a, b, c, d, e, p), [a, b, c, d, e];
    assert CmpStr(names[0], names[1]) < 0 && CmpStr(names[1], names[2]) < 0;
    assert CmpStr(names[2], names[3]) < 0 && CmpStr(names[3], names[4]) < 0;
    SourceOrder(s[0], s[1]);
    SourceOrder(s[1], s[2]);
    SourceOrder(s[2], s[3]);
    SourceOrder(s[3], s[4]);
    SourceOrder(s[4], s[5]);
    SourceOrder(s[5], s[6]);
    SourceOrder(s[6], s[7]);
    SortedByNeighbours(s);
  }

  lemma InOrderDiffer(names: seq<string>)
    requires InOrder(names)
    ensures forall i, j :: 0 <= i < j < |names| ==> names[i] != names[j]
  {
    forall i, j | 0 <= i < j < |names|
      ensures names[i] != names[j]
    {
      NamesDiffer(names[i], names[j]);
    }
  }

  lemma FiveDiffer(a: string, b: string, c: string, d: string, e: string)
    requires InOrder([a, b, c, d, e])
    ensures Different(a, b, c, d, e)
  {
    var names := [a, b, c, d, e];
    InOrderDiffer(names);
    assert names[0] == a && names[1] == b && names[2] == c && names[3] == d && names[4] == e;
  }

  /** A list whose connections can all be made in some order, and which the binder refuses. */
  lemma SomeOrdersAreMissed(a: string, b: string, c: string, d: string, e: string, p: string)
    requires InOrder([a, b, c, d, e])
    ensures var s := Tangle(a, b, c, d, e, p);
            && Symmetric(s) && OnceAsSource(s) && NoSelf(s)
            && (exists t :: Ordered(t) && AllMade(s, t) && Within(s, t))
            && Binding(s) == CannotOrder
  {
    var s := Tangle(a, b, c, d, e, p);
    FiveDiffer(a, b, c, d, e);
    TangleSorted(a, b, c, d, e, p);
    SortOfSorted(s);
    TangleIsGoverned(a, b, c, d, e, p);
    TangleHasAnOrder(a, b, c, d, e, p);
    TangleMade(a, b, c, d, e, p);
    SymmetricPass(s);
  }

  /** Both are about lists that exist. */
  lemma NamesInOrder()
    ensures InOrder(["a", "b", "c", "d", "e"]) && InOrder(["a", "b", "x"])
  {
  }
}

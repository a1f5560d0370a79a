/** The memory tester's tree: from a list of fan-outs and a list of tester counts, a recursive builder makes
    crossbar subsystems, caches and testers, counting the subsystems of every level as it goes. */
module MemTree {
  import opened Options

  const BLOCK_SIZE := 64

  // ---------------------------------------------------------------- closed forms

  /** The product of the first k fan-outs. */
  function Prod(cs: seq<nat>, k: nat): nat
    requires k <= |cs|
  {
    if k == 0 then 1 else Prod(cs, k - 1) * cs[k - 1]
  }

  /** The testers of the first n levels from memory: each level's count times its number of subsystems. */
  function Total(cs: seq<nat>, ts: seq<nat>, n: nat): nat
    requires n <= |ts| <= |cs| + 1
  {
    if n == 0 then 0 else Total(cs, ts, n - 1) + ts[n - 1] * Prod(cs, n - 1)
  }

  method NumTesters(cs: seq<nat>, ts: seq<nat>) returns (total: nat)
    requires |ts| == |cs| + 1
    ensures total == Total(cs, ts, |ts|)
  {
    var multiplier := [1];
    for i := 0 to |cs|
      invariant |multiplier| == i + 1 && forall k :: 0 <= k <= i ==> multiplier[k] == Prod(cs, k)
    {
      multiplier := multiplier + [multiplier[|multiplier| - 1] * cs[i]];
    }
    total := 0;
    for i := 0 to |ts|
      invariant total == Total(cs, ts, i)
    {
      total := total + ts[i] * multiplier[i];
    }
  }

  lemma {:induction false} ProdCons(cs: seq<nat>, k: nat)
    requires k < |cs|
    ensures Prod(cs, k + 1) == cs[0] * Prod(cs[1..], k)
  {
    if k > 0 {
      ProdCons(cs, k - 1);
      var a, b, c := cs[0], Prod(cs[1..], k - 1), cs[k];
      assert cs[1..][k - 1] == c && Prod(cs, k + 1) == Prod(cs, k) * c;
      assert a * b * c == a * (b * c);
    }
  }

  /** The testers of the whole tree, by recursion on its levels. */
  function Subtree(cs: seq<nat>, ts: seq<nat>): nat
    requires |ts| == |cs| + 1
  {
    if cs == [] then ts[0] else ts[0] + cs[0] * Subtree(cs[1..], ts[1..])
  }

  lemma {:induction false} TotalCons(cs: seq<nat>, ts: seq<nat>, n: nat)
    requires n < |ts| == |cs| + 1 && |cs| > 0
    ensures Total(cs, ts, n + 1) == ts[0] + cs[0] * Total(cs[1..], ts[1..], n)
  {
    if n == 0 {
      assert Total(cs, ts, 1) == Total(cs, ts, 0) + ts[0] * Prod(cs, 0);
    } else {
      TotalCons(cs, ts, n - 1);
      ProdCons(cs, n - 1);
      Distribute(cs[0], Total(cs[1..], ts[1..], n - 1), ts[n], Prod(cs[1..], n - 1));
    }
  }

  lemma Distribute(a: nat, x: nat, t: nat, p: nat)
    ensures a * x + t * (a * p) == a * (x + t * p)
  {
    assert t * (a * p) == a * (t * p);
  }

  /** The sum over levels is the recursive count. */
  lemma {:induction false} TotalIsSubtree(cs: seq<nat>, ts: seq<nat>)
    requires |ts| == |cs| + 1
    ensures Total(cs, ts, |ts|) == Subtree(cs, ts)
  {
    if cs == [] {
      assert Total(cs, ts, 1) == Total(cs, ts, 0) + ts[0] * Prod(cs, 0);
    } else {
      TotalIsSubtree(cs[1..], ts[1..]);
      TotalCons(cs, ts, |ts| - 1);
    }
  }

  /** The caches of the tree proper on the first n levels: as many as the subsystems they lead up to. */
  function Trees(cs: seq<nat>, n: nat): nat
    requires n <= |cs|
  {
    if n == 0 then 0 else Trees(cs, n - 1) + Prod(cs, n)
  }

  /** The caches of the whole tree, by recursion on its levels: each subsystem with a crossbar has one for every
      subtree and one for every tester of its own. */
  function CacheCount(cs: seq<nat>, ts: seq<nat>): nat
    requires |ts| == |cs| + 1
  {
    if cs == [] then 0 else cs[0] + ts[0] + cs[0] * CacheCount(cs[1..], ts[1..])
  }

  lemma {:induction false} TreesCons(cs: seq<nat>, n: nat)
    requires n < |cs|
    ensures Trees(cs, n + 1) == cs[0] + cs[0] * Trees(cs[1..], n)
  {
    ProdCons(cs, n);
    if n == 0 {
      assert Trees(cs, 1) == Trees(cs, 0) + Prod(cs, 1);
    } else {
      TreesCons(cs, n - 1);
      DistributeSum(cs[0], Trees(cs[1..], n - 1), Prod(cs[1..], n));
    }
  }

  lemma DistributeSum(a: nat, x: nat, y: nat)
    ensures a * (x + y) == a * x + a * y
  {
  }

  /** One cache for every subsystem but the lowest, and one for every tester below the uppermost level. */
  lemma {:induction false} CachesAre(cs: seq<nat>, ts: seq<nat>)
    requires |ts| == |cs| + 1
    ensures CacheCount(cs, ts) == Trees(cs, |cs|) + Total(cs, ts, |cs|)
  {
    if cs != [] {
      CachesAre(cs[1..], ts[1..]);
      TreesCons(cs, |cs| - 1);
      TotalCons(cs, ts, |cs| - 1);
      DistributeSum(cs[0], Trees(cs[1..], |cs| - 1), Total(cs[1..], ts[1..], |cs| - 1));
    }
  }

  // ---------------------------------------------------------------- prototypes

  datatype Cache = Cache(size: nat, assoc: nat, mshrs: nat, latency: nat)

  function Scaled(c: Cache, scale: nat): Cache { Cache(c.size * scale, c.assoc * scale, c.mshrs * scale, c.latency * 10) }

  /** The prototype after the first k scalings. */
  function Proto(l1: Cache, cs: seq<nat>, k: nat): Cache
    requires k <= |cs|
  {
    if k == 0 then l1 else Scaled(Proto(l1, cs, k - 1), cs[k - 1])
  }

  function Pow10(k: nat): nat { if k == 0 then 1 else Pow10(k - 1) * 10 }

  /** The L1 cache grown by the first k fan-outs: size, associativity and misses in flight by their product, the
      latency tenfold for each. */
  predicate ScaledUp(l1: Cache, cs: seq<nat>, k: nat, c: Cache)
    requires k <= |cs|
  {
    && c.size == l1.size * Prod(cs, k) && c.assoc == l1.assoc * Prod(cs, k) && c.mshrs == l1.mshrs * Prod(cs, k)
    && c.latency == l1.latency * Pow10(k)
  }

  /** One prototype per level, the largest first. */
  method MakePrototypes(l1: Cache, cs: seq<nat>) returns (protos: seq<Cache>)
    requires |cs| > 0
    ensures |protos| == |cs|
    ensures forall j :: 0 <= j < |cs| ==> protos[j] == Proto(l1, cs, |cs| - 1 - j)
    ensures forall j :: 0 <= j < |cs| ==> ScaledUp(l1, cs, |cs| - 1 - j, protos[j])
  {
    protos := [l1];
    for i := 0 to |cs| - 1
      invariant |protos| == i + 1 && forall j :: 0 <= j <= i ==> protos[j] == Proto(l1, cs, i - j)
    {
      protos := [Scaled(protos[0], cs[i])] + protos;
    }
    forall j | 0 <= j < |cs|
      ensures ScaledUp(l1, cs, |cs| - 1 - j, protos[j])
    {
      ProtoGrows(l1, cs, |cs| - 1 - j);
    }
  }

  lemma {:induction false} ProtoGrows(l1: Cache, cs: seq<nat>, k: nat)
    requires k <= |cs|
    ensures ScaledUp(l1, cs, k, Proto(l1, cs, k))
  {
    if k > 0 {
      ProtoGrows(l1, cs, k - 1);
      Associate(l1.size, Prod(cs, k - 1), cs[k - 1]);
      Associate(l1.assoc, Prod(cs, k - 1), cs[k - 1]);
      Associate(l1.mshrs, Prod(cs, k - 1), cs[k - 1]);
      Associate(l1.latency, Pow10(k - 1), 10);
    }
  }

  lemma Associate(a: nat, b: nat, c: nat)
    ensures (a * b) * c == a * (b * c)
  {
  }

  // ---------------------------------------------------------------- the builder

  /** The subsystems made so far have the names (level, index) for the indices below each level's counter, each
      name once. */
  ghost predicate Named(log: seq<(nat, nat)>, next: seq<nat>)
  {
    && (forall i, j {:trigger NamesDiffer(log, i, j)} :: 0 <= i < j < |log| ==> NamesDiffer(log, i, j))
    && forall e {:trigger NameCounted(log, next, e)} :: NameCounted(log, next, e)
  }

  ghost predicate NamesDiffer(log: seq<(nat, nat)>, i: nat, j: nat)
    requires i < |log| && j < |log|
  {
    log[i] != log[j]
  }

  ghost predicate NameCounted(log: seq<(nat, nat)>, next: seq<nat>, e: (nat, nat))
  {
    e in log <==> e.0 < |next| && e.1 < next[e.0]
  }

  lemma NamedNext(log: seq<(nat, nat)>, next: seq<nat>, level: nat)
    requires Named(log, next) && level < |next|
    ensures Named(log + [(level, next[level])], next[level := next[level] + 1]) && (level, next[level]) !in log
  {
    var e := (level, next[level]);
    var log', next' := log + [e], next[level := next[level] + 1];
    assert NameCounted(log, next, e);
    forall i, j | 0 <= i < j < |log'|
      ensures NamesDiffer(log', i, j)
    {
      assert j < |log| ==> NamesDiffer(log, i, j);
    }
    forall f
      ensures NameCounted(log', next', f)
    {
      assert NameCounted(log, next, f);
    }
  }

  /** How far a subtree of the given level moves the counters. */
  ghost function Moved(next: seq<nat>, ncaches: seq<nat>, level: nat, times: nat): (r: seq<nat>)
    requires |ncaches| == level < |next|
    ensures |r| == |next|
  {
    seq(|next|, l requires 0 <= l < |next| => next[l] + Gain(ncaches, level, times, l))
  }

  /** The subsystems on level l of `times` subtrees of the given level. */
  ghost function Gain(ncaches: seq<nat>, level: nat, times: nat, l: nat): nat
    requires |ncaches| == level
  {
    if l <= level then times * Prod(ncaches, level - l) else 0
  }

  lemma MovedOnce(next: seq<nat>, ncaches: seq<nat>, level: nat, times: nat)
    requires |ncaches| == level < |next|
    ensures Moved(Moved(next, ncaches, level, times), ncaches, level, 1) == Moved(next, ncaches, level, times + 1)
  {
    forall l | 0 <= l < |next|
      ensures Moved(Moved(next, ncaches, level, times), ncaches, level, 1)[l] == Moved(next, ncaches, level, times + 1)[l]
    {
      if l <= level {
        var p := Prod(ncaches, level - l);
        assert (times + 1) * p == times * p + p;
      }
    }
  }

  lemma MovedNone(next: seq<nat>, ncaches: seq<nat>, level: nat)
    requires |ncaches| == level < |next|
    ensures Moved(next, ncaches, level, 0) == next
  {
  }

  lemma MovedSubtrees(next: seq<nat>, ncaches: seq<nat>, level: nat)
    requires |ncaches| == level < |next| && level > 0
    ensures Moved(next[level := next[level] + 1], ncaches[1..], level - 1, ncaches[0]) == Moved(next, ncaches, level, 1)
  {
    forall l | 0 <= l < |next|
      ensures Moved(next[level := next[level] + 1], ncaches[1..], level - 1, ncaches[0])[l]
              == Moved(next, ncaches, level, 1)[l]
    {
      if l < level {
        ProdCons(ncaches, level - 1 - l);
      } else {
        assert Prod(ncaches, 0) == 1;
      }
    }
  }

  // ---------------------------------------------------------------- connections

  /** Where a tester's port goes, and what a cache has on its side towards the testers. */
  datatype Socket = ToCache(cache: nat) | ToXbar(level: nat, index: nat)
  datatype Peer = Tester(tester: nat) | Xbar(level: nat, index: nat)

  /** How many testers and caches there are, what each cache was cloned from, and how they are connected: each cache's
      memory side to the crossbar of a subsystem. */
  datatype Wiring = Wiring(testers: nat, caches: nat, kinds: seq<Cache>, testerPort: map<nat, Socket>,
                           cpuSide: map<nat, Peer>, memSide: map<nat, (nat, nat)>)

  /** Only objects that exist are connected. */
  ghost predicate Bounded<V>(m: map<nat, V>, n: nat) { forall k :: k in m ==> k < n }

  /** Testers and caches that are connected to each other agree on it. */
  ghost predicate Agree(testerPort: map<nat, Socket>, cpuSide: map<nat, Peer>)
  {
    && (forall t :: t in testerPort && testerPort[t].ToCache? ==>
          testerPort[t].cache in cpuSide && cpuSide[testerPort[t].cache] == Tester(t))
    && (forall c :: c in cpuSide && cpuSide[c].Tester? ==>
          cpuSide[c].tester in testerPort && testerPort[cpuSide[c].tester] == ToCache(c))
  }

  ghost predicate Sound(w: Wiring)
  {
    && Bounded(w.testerPort, w.testers) && Bounded(w.cpuSide, w.caches) && Bounded(w.memSide, w.caches)
    && Agree(w.testerPort, w.cpuSide)
  }

  /** What a tree is built to: fan-outs and tester counts from memory up, and the prototypes of the caches. */
  datatype Plan = Plan(cs: seq<nat>, ts: seq<nat>, protos: seq<Cache>, l1: Cache)
  {
    predicate Ok()
    {
      && |ts| == |cs| + 1 && ts[|cs|] > 0
      && |protos| == |cs| && (protos != [] ==> protos[|protos| - 1] == l1)
    }

    /** How many subtrees and how many testers a subsystem of level l has; its own kind of cache. */
    function Fan(l: nat): nat requires Ok() && 1 <= l <= |cs| { cs[|cs| - l] }
    function Own(l: nat): nat requires Ok() && l <= |cs| { ts[|cs| - l] }
    function Kind(l: nat): Cache requires Ok() && 1 <= l <= |cs| { protos[|cs| - l] }

    /** On the uppermost level there is a crossbar only for more than one tester. */
    predicate HasXbar(l: nat) requires Ok() { l > 0 || Own(0) > 1 }
  }

  /** The caches of a crossbar are numbered from `base` on: first those that lead up to crossbars of the next level (or
      to a single tester on top), of the kind of the level, and then L1 caches with a tester each. */
  ghost predicate CacheFits(w: Wiring, log: seq<(nat, nat)>, base: map<(nat, nat), nat>, plan: Plan, c: nat)
    requires plan.Ok() && c in w.memSide
  {
    var e: (nat, nat) := w.memSide[c];
    && c < |w.kinds| && 1 <= e.0 <= |plan.cs| && e in base
    && base[e] <= c < base[e] + plan.Fan(e.0) + plan.Own(e.0)
    && if c < base[e] + plan.Fan(e.0) then TreeCache(w, log, plan, c, e.0) else TesterCache(w, plan, c)
  }

  ghost predicate TreeCache(w: Wiring, log: seq<(nat, nat)>, plan: Plan, c: nat, l: nat)
    requires plan.Ok() && c < |w.kinds| && 1 <= l <= |plan.cs|
  {
    && w.kinds[c] == plan.Kind(l)
    && (c in w.cpuSide ==>
          match w.cpuSide[c]
          case Xbar(level, index) => level + 1 == l && (level, index) in log && plan.HasXbar(level)
          case Tester(_) => l == 1 && plan.Own(0) == 1)
  }

  ghost predicate TesterCache(w: Wiring, plan: Plan, c: nat)
    requires c < |w.kinds|
  {
    w.kinds[c] == plan.l1 && c in w.cpuSide && w.cpuSide[c].Tester?
  }

  /** The crossbar of a subsystem has room for its caches. */
  ghost predicate BaseFits(base: map<(nat, nat), nat>, log: seq<(nat, nat)>, plan: Plan, caches: nat, e: (nat, nat))
    requires plan.Ok() && e in base
  {
    e in log && 1 <= e.0 <= |plan.cs| && base[e] + plan.Fan(e.0) + plan.Own(e.0) <= caches
  }

  /** Two crossbars share no cache. */
  ghost predicate Apart(base: map<(nat, nat), nat>, plan: Plan, e: (nat, nat), f: (nat, nat))
    requires plan.Ok() && e in base && f in base && 1 <= e.0 <= |plan.cs| && 1 <= f.0 <= |plan.cs|
  {
    || base[e] + plan.Fan(e.0) + plan.Own(e.0) <= base[f]
    || base[f] + plan.Fan(f.0) + plan.Own(f.0) <= base[e]
  }

  ghost predicate HasBase(base: map<(nat, nat), nat>, e: (nat, nat)) { e in base }

  /** The crossbars are those of the subsystems recorded. */
  ghost predicate Bases(base: map<(nat, nat), nat>, log: seq<(nat, nat)>, plan: Plan, caches: nat)
    requires plan.Ok()
  {
    && (forall e {:trigger BaseFits(base, log, plan, caches, e)} :: e in base ==> BaseFits(base, log, plan, caches, e))
    && (forall e, f {:trigger Apart(base, plan, e, f)} ::
          e in base && f in base && e != f && BaseFits(base, log, plan, caches, e) && BaseFits(base, log, plan, caches, f)
          ==> Apart(base, plan, e, f))
    && forall e {:trigger HasBase(base, e)} :: e in log && e.0 > 0 ==> HasBase(base, e)
  }

  /** No crossbar is on two caches. */
  ghost predicate Single(cpuSide: map<nat, Peer>)
  {
    forall c, d {:trigger Differ(cpuSide, c, d)} :: c in cpuSide && d in cpuSide && c != d ==> Differ(cpuSide, c, d)
  }

  ghost predicate Differ(cpuSide: map<nat, Peer>, c: nat, d: nat)
    requires c in cpuSide && d in cpuSide
  {
    cpuSide[c].Xbar? ==> cpuSide[c] != cpuSide[d]
  }

  ghost predicate OnCache(cpuSide: map<nat, Peer>, e: (nat, nat))
  {
    exists c :: c in cpuSide && cpuSide[c] == Xbar(e.0, e.1)
  }

  /** Every crossbar but the lowest is on a cache. */
  ghost predicate Hung(cpuSide: map<nat, Peer>, log: seq<(nat, nat)>, plan: Plan)
    requires plan.Ok()
  {
    forall e {:trigger OnCache(cpuSide, e)} :: e in log && e.0 < |plan.cs| && plan.HasXbar(e.0) ==> OnCache(cpuSide, e)
  }

  /** Testers on a crossbar are on one of the uppermost level. */
  ghost predicate Ports(testerPort: map<nat, Socket>, log: seq<(nat, nat)>, plan: Plan)
    requires plan.Ok()
  {
    forall t {:trigger PortFits(testerPort, log, plan, t)} :: t in testerPort ==> PortFits(testerPort, log, plan, t)
  }

  ghost predicate PortFits(testerPort: map<nat, Socket>, log: seq<(nat, nat)>, plan: Plan, t: nat)
    requires plan.Ok() && t in testerPort
  {
    testerPort[t].ToXbar? ==> testerPort[t].level == 0 && (0, testerPort[t].index) in log && plan.HasXbar(0)
  }

  /** The testers on crossbar i of the uppermost level are the ones from number s on, as many as planned. */
  ghost predicate XbarTesters(testerPort: map<nat, Socket>, plan: Plan, i: nat, s: nat)
    requires plan.Ok()
  {
    forall t :: (t in testerPort && testerPort[t] == ToXbar(0, i)) <==> s <= t < s + plan.Own(0)
  }

  ghost predicate HasTesters(testerPort: map<nat, Socket>, plan: Plan, i: nat)
    requires plan.Ok()
  {
    exists s :: XbarTesters(testerPort, plan, i, s)
  }

  /** Every crossbar of the uppermost level has its testers. */
  ghost predicate Manned(testerPort: map<nat, Socket>, log: seq<(nat, nat)>, plan: Plan)
    requires plan.Ok()
  {
    forall i {:trigger HasTesters(testerPort, plan, i)} ::
      (0, i) in log && plan.HasXbar(0) ==> HasTesters(testerPort, plan, i)
  }

  ghost predicate OnXbar(w: Wiring, c: nat) { c in w.memSide }

  ghost predicate Placed(w: Wiring, log: seq<(nat, nat)>, base: map<(nat, nat), nat>, plan: Plan)
    requires plan.Ok()
  {
    && |w.kinds| == w.caches && (forall c {:trigger OnXbar(w, c)} :: c in w.cpuSide ==> OnXbar(w, c))
    && forall c {:trigger CacheFits(w, log, base, plan, c)} :: c in w.memSide ==> CacheFits(w, log, base, plan, c)
  }

  /** What has been connected so far is part of a tree to the plan, with the subsystems recorded. */
  ghost predicate Tree(w: Wiring, log: seq<(nat, nat)>, base: map<(nat, nat), nat>, plan: Plan)
  {
    && plan.Ok() && Placed(w, log, base, plan) && Bases(base, log, plan, w.caches)
    && Single(w.cpuSide) && Hung(w.cpuSide, log, plan) && Ports(w.testerPort, log, plan)
    && Manned(w.testerPort, log, plan)
  }

  ghost predicate Extends(a: map<(nat, nat), nat>, b: map<(nat, nat), nat>)
  {
    forall e :: e in a ==> e in b && b[e] == a[e]
  }

  lemma ExtendsThrough(a: map<(nat, nat), nat>, b: map<(nat, nat), nat>, c: map<(nat, nat), nat>)
    requires Extends(a, b) && Extends(b, c)
    ensures Extends(a, c)
  {
  }

  /** A cache that waits for what comes on its tester side, one level above the crossbar it is on. */
  ghost predicate Waiting(w: Wiring, c: nat, level: nat)
  {
    c < w.caches && c !in w.cpuSide && c in w.memSide && w.memSide[c].0 == level + 1
  }

  /** The caches lo to hi - 1 are clones of the given one. */
  ghost predicate Clones(kinds: seq<Cache>, lo: nat, hi: nat, kind: Cache)
  {
    hi <= |kinds| && forall c :: lo <= c < hi ==> kinds[c] == kind
  }

  /** `b` has connections for lo to hi - 1 and for from to to - 1 beyond those of `a`, which it has unchanged. */
  ghost predicate Grew<V>(a: map<nat, V>, b: map<nat, V>, lo: nat, hi: nat, from: nat, to: nat)
  {
    && (forall k :: k in b <==> k in a || lo <= k < hi || from <= k < to)
    && (forall k :: k in a ==> k in b && b[k] == a[k])
  }

  /** Everything made between `a` and `b` is connected in `b`, as are the tester sides of the caches cpu.0 to cpu.1 - 1
      and the memory sides of mem.0 to mem.1 - 1; nothing that was connected before has been connected again. */
  ghost predicate Wired(a: Wiring, b: Wiring, cpu: (nat, nat), mem: (nat, nat))
  {
    && a.testers <= b.testers && a.caches <= b.caches && a.kinds <= b.kinds
    && Grew(a.testerPort, b.testerPort, a.testers, b.testers, 0, 0)
    && Grew(a.cpuSide, b.cpuSide, a.caches, b.caches, cpu.0, cpu.1)
    && Grew(a.memSide, b.memSide, a.caches, b.caches, mem.0, mem.1)
  }

  lemma GrewTwice<V>(a: map<nat, V>, b: map<nat, V>, c: map<nat, V>, lo: nat, mid: nat, hi: nat,
                     e: (nat, nat), f: (nat, nat), g: (nat, nat))
    requires lo <= mid <= hi && Grew(a, b, lo, mid, e.0, e.1) && Grew(b, c, mid, hi, f.0, f.1)
    requires forall k: nat :: Within(k, g) <==> Within(k, e) || Within(k, f)
    ensures Grew(a, c, lo, hi, g.0, g.1)
  {
    forall k: nat
      ensures k in c <==> k in a || lo <= k < hi || g.0 <= k < g.1
    {
      assert Within(k, g) <==> Within(k, e) || Within(k, f);
    }
  }

  predicate Within(k: nat, e: (nat, nat)) { e.0 <= k < e.1 }

  /** Everything is connected. */
  ghost predicate Complete(w: Wiring)
  {
    && Sound(w) && (forall t: nat :: t in w.testerPort <==> t < w.testers)
    && forall c: nat :: (c in w.cpuSide <==> c < w.caches) && (c in w.memSide <==> c < w.caches)
  }

  /** None of the connections lo to hi - 1 has been made. */
  ghost predicate Free<V>(m: map<nat, V>, lo: nat, hi: nat) { forall k :: lo <= k < hi ==> k !in m }

  /** The caches from number c0 on are made for the subtrees of subsystem e and not connected. */
  ghost predicate Roomy(w: Wiring, plan: Plan, e: (nat, nat), c0: nat)
    requires plan.Ok() && 1 <= e.0 <= |plan.cs|
  {
    var end := c0 + plan.Fan(e.0);
    && end <= w.caches && Clones(w.kinds, c0, end, plan.Kind(e.0))
    && Free(w.cpuSide, c0, end) && Free(w.memSide, c0, end)
  }

  class Builder {
    const plan: Plan
    const next: array<nat>
    var log: seq<(nat, nat)>
    var w: Wiring
    ghost var base: map<(nat, nat), nat>   // the number of the first cache of each crossbar

    ghost predicate Valid()
      reads this, next
    {
      && plan.Ok() && next.Length == |plan.ts|
      && Named(log, next[..]) && Sound(w) && Tree(w, log, base, plan)
    }

    /** Subsystem `e` has just been recorded and is not connected yet. */
    ghost predicate Pending(e: (nat, nat), before: seq<(nat, nat)>)
      reads this, next
    {
      && plan.Ok() && next.Length == |plan.ts|
      && Named(log, next[..]) && Sound(w) && log == before + [e] && e !in before && Tree(w, before, base, plan)
    }

    constructor (plan: Plan)
      requires plan.Ok()
      ensures Valid() && this.plan == plan && fresh(next)
      ensures next[..] == seq(|plan.ts|, _ => 0)
      ensures w == Wiring(0, 0, [], map[], map[], map[]) && log == []
    {
      this.plan := plan;
      next := new nat[|plan.ts|](_ => 0);
      log, w, base := [], Wiring(0, 0, [], map[], map[], map[]), map[];
    }

    /** Numbers and records a subsystem of the given level. */
    method NewSubsystem(level: nat) returns (index: nat)
      requires Valid() && level <= |plan.cs|
      modifies next, `log
      ensures Pending((level, index), old(log))
      ensures index == old(next[level]) && next[..] == old(next[..])[level := index + 1]
    {
      index := next[level];
      next[level] := next[level] + 1;
      log := log + [(level, index)];
      NamedNext(old(log), old(next[..]), level);
      assert next[..] == old(next[..])[level := index + 1];
    }

    /** make_cache_level. It fails only without a cache to connect the uppermost level to. Every object made is
        connected, none twice, to make part of a tree to the plan; the counters move by the number of subsystems of
        the subtree on each level. */
    method MakeCacheLevel(ncaches: seq<nat>, prototypes: seq<Cache>, level: nat, nextCache: Option<nat>,
                          ghost ts: seq<nat>) returns (ok: bool)
      requires Valid() && level <= |plan.cs| && ts == plan.ts[|plan.cs| - level..]
      requires ncaches == plan.cs[|plan.cs| - level..] && prototypes == plan.protos[|plan.cs| - level..]
      requires if nextCache.Some? then Waiting(w, nextCache.value, level) else level == |plan.cs|
      modifies this, next
      ensures ok <==> level > 0 || nextCache.Some?
      ensures ok ==> Valid() && Extends(old(base), base)
      ensures ok ==> Grown(old(next[..]), next[..], old(w), w, ncaches, ts, 1,
                           NextSide(nextCache), (0, 0))
      decreases level, 3
    {
      if level == 0 && nextCache.None? {
        return false;
      }
      ghost var n0 := next[..];
      var index := NewSubsystem(level);
      var ntesters := plan.ts[|plan.cs| - level];
      if level != 0 {
        MakeXbarLevel(ncaches, prototypes, level, nextCache, index, ntesters, ts, n0, old(log));
      } else {
        w := WireTop(w, ntesters, nextCache.value, index, old(log), base, plan);
        TopGrown(n0, next[..], old(w), w, ncaches, ts, NextSide(nextCache));
      }
      ok := true;
    }

    /** The rest of make_cache_level for a level with a crossbar. */
    method MakeXbarLevel(ncaches: seq<nat>, prototypes: seq<Cache>, level: nat, nextCache: Option<nat>, index: nat,
                         ntesters: nat, ghost ts: seq<nat>, ghost n0: seq<nat>, ghost before: seq<(nat, nat)>)
      requires Pending((level, index), before) && 0 < level <= |plan.cs| && ts == plan.ts[|plan.cs| - level..]
      requires ncaches == plan.cs[|plan.cs| - level..] && prototypes == plan.protos[|plan.cs| - level..]
      requires if nextCache.Some? then Waiting(w, nextCache.value, level) else level == |plan.cs|
      requires ntesters == plan.Own(level)
      requires |n0| == next.Length && next[..] == n0[level := n0[level] + 1]
      modifies this, next
      ensures Valid() && Extends(old(base), base)
      ensures Grown(n0, next[..], old(w), w, ncaches, ts, 1,
                    NextSide(nextCache), (0, 0))
      decreases level, 2
    {
      var t0, c0, e := w.testers, w.caches, (level, index);
      ghost var n1 := next[..];
      var n := |plan.cs|;
      TailOf(plan.cs, ncaches, n - level, n - (level - 1));
      TailOf(plan.protos, prototypes, n - level, n - (level - 1));
      TailOf(plan.ts, ts, n - level, n - (level - 1));
      ghost var enlarged := MakeTreeCaches(prototypes[0], ncaches[0], ncaches[1..], prototypes[1..], e, nextCache, ntesters,
                                           c0, before, ts[1..], n1);
      Finish(ncaches, e, nextCache, ntesters, t0, c0, ts, n0, n1, old(w), enlarged);
    }

    /** Connects the testers of a level. */
    method Finish(ncaches: seq<nat>, e: (nat, nat), ghost nextCache: Option<nat>, ntesters: nat, t0: nat, c0: nat,
                  ghost ts: seq<nat>, ghost n0: seq<nat>, ghost n1: seq<nat>, ghost w0: Wiring, ghost enlarged: Wiring)
      requires Valid() && e in base && base[e] == c0 == w0.caches == |w0.kinds| && t0 == w0.testers
      requires 0 < e.0 == |ncaches| <= |plan.cs| && |n0| == |plan.ts| && n1 == n0[|ncaches| := n0[|ncaches|] + 1]
      requires Sound(w0) && (nextCache.Some? ==> nextCache.value < w0.caches && nextCache.value !in w0.cpuSide)
      requires |ts| == |ncaches| + 1 && ntesters == ts[0] == plan.Own(e.0) && ncaches[0] == plan.Fan(e.0)
      requires enlarged == LevelEnlarged(w0, nextCache, e, plan)
      requires Grown(n1, next[..], enlarged, w, ncaches[1..], ts[1..], ncaches[0],
                     (c0, c0 + ncaches[0]), (c0, c0 + ncaches[0]))
      modifies `w
      ensures Valid() && Grown(n0, next[..], w0, w, ncaches, ts, 1, NextSide(nextCache), (0, 0))
    {
      ghost var n2 := next[..];
      w := FinishLevel(w, ntesters, t0, c0, e, log, base, plan, n0, n1, n2, w0, enlarged, ncaches, ts, nextCache);
      assert next[..] == n2;
    }

    /** Makes the testers and caches of a level and the subtrees of its tree caches. */
    method MakeTreeCaches(proto: Cache, fan: nat, rest: seq<nat>, prototypes: seq<Cache>, e: (nat, nat),
                          nextCache: Option<nat>, ntesters: nat, c0: nat, ghost before: seq<(nat, nat)>,
                          ghost ts: seq<nat>, ghost n0: seq<nat>) returns (ghost enlarged: Wiring)
      requires Pending(e, before) && 0 < e.0 <= |plan.cs| && n0 == next[..] && c0 == w.caches
      requires proto == plan.Kind(e.0) && fan == plan.Fan(e.0) && ntesters == plan.Own(e.0)
      requires rest == plan.cs[|plan.cs| - (e.0 - 1)..] && prototypes == plan.protos[|plan.cs| - (e.0 - 1)..]
      requires ts == plan.ts[|plan.cs| - (e.0 - 1)..]
      requires if nextCache.Some? then Waiting(w, nextCache.value, e.0) else e.0 == |plan.cs|
      modifies this, next
      ensures Valid() && Extends(old(base), base) && e in base && base[e] == c0
      ensures enlarged == LevelEnlarged(old(w), nextCache, e, plan)
      ensures Grown(n0, next[..], enlarged, w, rest, ts, fan, (c0, c0 + fan), (c0, c0 + fan))
      decreases e.0, 1
    {
      ghost var b0 := base;
      Enlarge(proto, fan, e, nextCache, ntesters, before);
      enlarged := w;
      assert next[..] == n0;
      MakeSubtrees(fan, rest, prototypes, e.0 - 1, c0, e, ts, n0, enlarged, b0);
    }

    /** Makes testers and caches, and puts the crossbar on the next cache. */
    method Enlarge(proto: Cache, n: nat, e: (nat, nat), nextCache: Option<nat>, ntesters: nat,
                   ghost before: seq<(nat, nat)>)
      requires Pending(e, before) && 0 < e.0 <= |plan.cs|
      requires proto == plan.Kind(e.0) && n == plan.Fan(e.0) && ntesters == plan.Own(e.0)
      requires if nextCache.Some? then Waiting(w, nextCache.value, e.0) else e.0 == |plan.cs|
      modifies `w, `base
      ensures Valid() && base == old(base)[e := old(w.caches)] && Extends(old(base), base)
      ensures w == LevelEnlarged(old(w), nextCache, e, plan)
      ensures Roomy(w, plan, e, old(w.caches))
    {
      var kinds := LevelKinds(proto, n, plan.l1, ntesters);
      EnlargedSound(w, nextCache, Xbar(e.0, e.1), ntesters, kinds);
      EnlargedTree(w, before, base, plan, nextCache, e);
      assert e in base ==> BaseFits(base, before, plan, w.caches, e);
      w := Enlarged(w, nextCache, Xbar(e.0, e.1), ntesters, kinds);
      base := base[e := old(w.caches)];
    }

    /** The loop over the tree caches of a subsystem: each is connected to the crossbar and gets its subtree. */
    method MakeSubtrees(count: nat, ncaches: seq<nat>, prototypes: seq<Cache>, level: nat, c0: nat, e: (nat, nat),
                        ghost ts: seq<nat>, ghost n0: seq<nat>, ghost first: Wiring, ghost b0: map<(nat, nat), nat>)
      requires Valid() && level < |plan.cs| && ts == plan.ts[|plan.cs| - level..]
      requires e.0 == level + 1 && e in base && base[e] == c0 && count == plan.Fan(e.0)
      requires ncaches == plan.cs[|plan.cs| - level..] && prototypes == plan.protos[|plan.cs| - level..]
      requires Roomy(w, plan, e, c0) && n0 == next[..] && first == w && Extends(b0, base)
      modifies this, next
      ensures Valid() && Extends(b0, base) && e in base && base[e] == c0
      ensures Grown(n0, next[..], first, w, ncaches, ts, count, (c0, c0 + count), (c0, c0 + count))
      decreases level, 5
    {
      NothingGrown(n0, w, ncaches, ts, c0);
      for i := 0 to count
        invariant Valid() && Extends(b0, base) && e in base && base[e] == c0
        invariant Grown(n0, next[..], first, w, ncaches, ts, i, (c0, c0 + i), (c0, c0 + i))
      {
        MakeSubtree(ncaches, prototypes, level, c0, i, e, ts, n0, first, count, b0);
      }
    }

    /** Tree cache i with its subtree. */
    method MakeSubtree(ncaches: seq<nat>, prototypes: seq<Cache>, level: nat, c0: nat, i: nat, e: (nat, nat),
                       ghost ts: seq<nat>, ghost n0: seq<nat>, ghost first: Wiring, ghost count: nat,
                       ghost b0: map<(nat, nat), nat>)
      requires Valid() && level < |plan.cs| && ts == plan.ts[|plan.cs| - level..]
      requires e.0 == level + 1 && e in base && base[e] == c0 && count == plan.Fan(e.0)
      requires ncaches == plan.cs[|plan.cs| - level..] && prototypes == plan.protos[|plan.cs| - level..]
      requires |n0| == next.Length && i < count && Roomy(first, plan, e, c0)
      requires Grown(n0, next[..], first, w, ncaches, ts, i, (c0, c0 + i), (c0, c0 + i)) && Extends(b0, base)
      modifies this, next
      ensures Valid() && Extends(b0, base) && e in base && base[e] == c0
      ensures Grown(n0, next[..], first, w, ncaches, ts, i + 1, (c0, c0 + (i + 1)), (c0, c0 + (i + 1)))
      decreases level, 4
    {
      ghost var n1, before, b1 := next[..], w, base;
      FreshCache(first, w, c0, i, count);
      AttachedSound(w, c0 + i, e);
      AttachedTree(w, log, base, plan, c0 + i, e);
      w := Attached(w, c0 + i, e);
      ghost var attached := w;
      assert next[..] == n1;
      var _ := MakeCacheLevel(ncaches, prototypes, level, Some(c0 + i), ts);
      SubtreeGrown(n0, n1, next[..], first, before, attached, w, ncaches, ts, c0, i);
      ExtendsThrough(b0, b1, base);
    }
  }

  /** What follows the first element of the rest of a list. */
  lemma TailOf<T>(s: seq<T>, t: seq<T>, i: nat, j: nat)
    requires i < |s| && t == s[i..] && j == i + 1
    ensures t != [] && t[0] == s[i] && t[1..] == s[j..]
  {
  }

  /** What `times` subtrees of a level add: subsystems, testers, caches, and connections. */
  ghost predicate Grown(n0: seq<nat>, n1: seq<nat>, w0: Wiring, w1: Wiring, ncaches: seq<nat>, ts: seq<nat>,
                        times: nat, cpu: (nat, nat), mem: (nat, nat))
    requires |ncaches| < |n0| && |ts| == |ncaches| + 1
  {
    && n1 == Moved(n0, ncaches, |ncaches|, times) && w1.testers == w0.testers + times * Subtree(ncaches, ts)
    && w1.caches == w0.caches + times * CacheCount(ncaches, ts) && Wired(w0, w1, cpu, mem)
  }

  lemma NothingGrown(n: seq<nat>, w: Wiring, ncaches: seq<nat>, ts: seq<nat>, c0: nat)
    requires |ncaches| < |n| && |ts| == |ncaches| + 1
    ensures Grown(n, n, w, w, ncaches, ts, 0, (c0, c0), (c0, c0))
  {
    MovedNone(n, ncaches, |ncaches|);
    assert 0 * Subtree(ncaches, ts) == 0 && 0 * CacheCount(ncaches, ts) == 0;
  }

  lemma SubtreeGrown(n0: seq<nat>, n1: seq<nat>, n2: seq<nat>, first: Wiring, before: Wiring, attached: Wiring,
                     after: Wiring, ncaches: seq<nat>, ts: seq<nat>, c0: nat, i: nat)
    requires |ncaches| < |n0| && |ts| == |ncaches| + 1
    requires Grown(n0, n1, first, before, ncaches, ts, i, (c0, c0 + i), (c0, c0 + i))
    requires Wired(before, attached, (0, 0), (c0 + i, c0 + i + 1))
    requires attached.testers == before.testers && attached.caches == before.caches
    requires Grown(n1, n2, attached, after, ncaches, ts, 1, NextSide(Some(c0 + i)), (0, 0))
    ensures Grown(n0, n2, first, after, ncaches, ts, i + 1, (c0, c0 + i + 1), (c0, c0 + i + 1))
  {
    MovedOnce(n0, ncaches, |ncaches|, i);
    OneMore(i, Subtree(ncaches, ts));
    OneMore(i, CacheCount(ncaches, ts));
    SubtreeWired(first, before, attached, after, c0, i);
  }

  lemma TopGrown(n0: seq<nat>, n1: seq<nat>, w0: Wiring, w1: Wiring, ncaches: seq<nat>, ts: seq<nat>, cpu: (nat, nat))
    requires |ncaches| == 0 < |n0| && |ts| == 1 && n1 == n0[0 := n0[0] + 1]
    requires w1.testers == w0.testers + ts[0] && w1.caches == w0.caches && Wired(w0, w1, cpu, (0, 0))
    ensures Grown(n0, n1, w0, w1, ncaches, ts, 1, cpu, (0, 0))
  {
    assert Prod(ncaches, 0) == 1;
    assert n1 == Moved(n0, ncaches, 0, 1);
  }

  lemma LevelGrown(n0: seq<nat>, n1: seq<nat>, n2: seq<nat>, w0: Wiring, enlarged: Wiring, grown: Wiring, w: Wiring,
                   ncaches: seq<nat>, ts: seq<nat>, t0: nat, c0: nat, nextCache: Option<nat>, peer: Peer, kinds: seq<Cache>)
    requires 0 < |ncaches| < |n0| && |ts| == |ncaches| + 1 && n1 == n0[|ncaches| := n0[|ncaches|] + 1]
    requires Sound(w0) && (nextCache.Some? ==> nextCache.value < w0.caches && nextCache.value !in w0.cpuSide)
    requires |kinds| == ncaches[0] + ts[0] && enlarged == Enlarged(w0, nextCache, peer, ts[0], kinds)
    requires t0 == w0.testers && c0 == w0.caches
    requires Grown(n1, n2, enlarged, grown, ncaches[1..], ts[1..], ncaches[0],
                   (c0, c0 + ncaches[0]), (c0, c0 + ncaches[0]))
    requires TestersAdded(grown, w, t0, c0 + ncaches[0], ts[0])
    ensures Grown(n0, n2, w0, w, ncaches, ts, 1, NextSide(nextCache), (0, 0))
  {
    MovedSubtrees(n0, ncaches, |ncaches|);
    LevelWired(w0, enlarged, grown, w, nextCache, peer, ts[0], ncaches[0], kinds);
  }

  /** The testers of a level, after its subtrees. */
  method FinishLevel(grown: Wiring, ntesters: nat, t0: nat, c0: nat, e: (nat, nat), ghost log: seq<(nat, nat)>,
                     ghost base: map<(nat, nat), nat>, ghost plan: Plan, ghost n0: seq<nat>, ghost n1: seq<nat>,
                     ghost n2: seq<nat>, ghost w0: Wiring, ghost enlarged: Wiring, ncaches: seq<nat>,
                     ghost ts: seq<nat>, ghost nextCache: Option<nat>) returns (w: Wiring)
    requires 0 < |ncaches| < |n0| && |ts| == |ncaches| + 1 && n1 == n0[|ncaches| := n0[|ncaches|] + 1]
    requires Sound(w0) && (nextCache.Some? ==> nextCache.value < w0.caches && nextCache.value !in w0.cpuSide)
    requires Sound(grown) && Tree(grown, log, base, plan) && e in base && base[e] == c0 && 1 <= e.0 <= |plan.cs|
    requires c0 == w0.caches == |w0.kinds| && t0 == w0.testers
    requires ntesters == ts[0] == plan.Own(e.0) && ncaches[0] == plan.Fan(e.0)
    requires enlarged == LevelEnlarged(w0, nextCache, e, plan)
    requires Grown(n1, n2, enlarged, grown, ncaches[1..], ts[1..], ncaches[0],
                   (c0, c0 + ncaches[0]), (c0, c0 + ncaches[0]))
    ensures Sound(w) && Tree(w, log, base, plan)
    ensures Grown(n0, n2, w0, w, ncaches, ts, 1, NextSide(nextCache), (0, 0))
  {
    ghost var peer, kinds := Xbar(e.0, e.1), LevelKinds(plan.Kind(e.0), plan.Fan(e.0), plan.l1, plan.Own(e.0));
    LevelFree(n1, n2, w0, enlarged, grown, ncaches, ts, t0, c0, nextCache, peer, kinds);
    TesterClones(w0, enlarged, grown, nextCache, e, plan);
    w := WireTesters(grown, ntesters, t0, c0 + ncaches[0], e, log, base, plan);
    LevelGrown(n0, n1, n2, w0, enlarged, grown, w, ncaches, ts, t0, c0, nextCache, peer, kinds);
  }

  lemma TesterClones(w0: Wiring, enlarged: Wiring, grown: Wiring, nextCache: Option<nat>, e: (nat, nat), plan: Plan)
    requires plan.Ok() && 1 <= e.0 <= |plan.cs| && enlarged == LevelEnlarged(w0, nextCache, e, plan)
    requires |w0.kinds| == w0.caches && enlarged.kinds <= grown.kinds
    ensures var c0 := w0.caches + plan.Fan(e.0); Clones(grown.kinds, c0, c0 + plan.Own(e.0), plan.l1)
  {
  }

  /** What is left for the testers of a level after its subtrees. */
  lemma LevelFree(n1: seq<nat>, n2: seq<nat>, w0: Wiring, enlarged: Wiring, grown: Wiring, ncaches: seq<nat>, ts: seq<nat>,
                  t0: nat, c0: nat, nextCache: Option<nat>, peer: Peer, kinds: seq<Cache>)
    requires Sound(w0) && peer.Xbar? && (nextCache.Some? ==> nextCache.value < w0.caches && nextCache.value !in w0.cpuSide)
    requires 0 < |ncaches| <= |n1| && |ts| == |ncaches| + 1 && |kinds| == ncaches[0] + ts[0]
    requires enlarged == Enlarged(w0, nextCache, peer, ts[0], kinds) && t0 == w0.testers && c0 == w0.caches
    requires Grown(n1, n2, enlarged, grown, ncaches[1..], ts[1..], ncaches[0],
                   (c0, c0 + ncaches[0]), (c0, c0 + ncaches[0]))
    ensures t0 + ts[0] <= grown.testers && c0 + ncaches[0] + ts[0] <= grown.caches
    ensures Free(grown.testerPort, t0, t0 + ts[0])
    ensures Free(grown.cpuSide, c0 + ncaches[0], c0 + ncaches[0] + ts[0])
    ensures Free(grown.memSide, c0 + ncaches[0], c0 + ncaches[0] + ts[0])
  {
    EnlargedSound(w0, nextCache, peer, ts[0], kinds);
  }

  lemma OneMore(i: nat, x: nat)
    ensures (i + 1) * x == i * x + x
  {
  }

  /** Room for new testers and caches, and the crossbar on the next cache if there is one. */
  function Enlarged(w: Wiring, nextCache: Option<nat>, peer: Peer, testers: nat, kinds: seq<Cache>): Wiring
  {
    w.(testers := w.testers + testers, caches := w.caches + |kinds|, kinds := w.kinds + kinds,
       cpuSide := if nextCache.Some? then w.cpuSide[nextCache.value := peer] else w.cpuSide)
  }

  /** The caches of a level: those of the tree, and then those of its testers. */
  function LevelKinds(proto: Cache, n: nat, l1: Cache, testers: nat): seq<Cache>
  {
    seq(n, _ => proto) + seq(testers, _ => l1)
  }

  /** What a subsystem with a crossbar makes: testers and caches, and the connection of its crossbar. */
  ghost function LevelEnlarged(w: Wiring, nextCache: Option<nat>, e: (nat, nat), plan: Plan): Wiring
    requires plan.Ok() && 1 <= e.0 <= |plan.cs|
  {
    Enlarged(w, nextCache, Xbar(e.0, e.1), plan.Own(e.0),
             LevelKinds(plan.Kind(e.0), plan.Fan(e.0), plan.l1, plan.Own(e.0)))
  }

  /** The tester side of the next cache, as an interval. */
  function NextSide(nextCache: Option<nat>): (nat, nat)
  {
    if nextCache.Some? then (nextCache.value, nextCache.value + 1) else (0, 0)
  }

  /** A new crossbar, on the cache that waits for it. */
  lemma EnlargedTree(w: Wiring, log: seq<(nat, nat)>, base: map<(nat, nat), nat>, plan: Plan, nextCache: Option<nat>,
                     e: (nat, nat))
    requires Sound(w) && Tree(w, log, base, plan) && e !in log && 1 <= e.0 <= |plan.cs|
    requires if nextCache.Some? then Waiting(w, nextCache.value, e.0) else e.0 == |plan.cs|
    ensures Tree(LevelEnlarged(w, nextCache, e, plan), log + [e], base[e := w.caches], plan)
  {
    var r := LevelEnlarged(w, nextCache, e, plan);
    EnlargedPlaced(w, log, base, plan, nextCache, e);
    EnlargedBases(base, log, plan, w.caches, e);
    if nextCache.Some? {
      NewPeer(w, log, base, plan, nextCache.value, e);
      assert r.cpuSide[nextCache.value] == Xbar(e.0, e.1);
    }
    HungMore(w.cpuSide, r.cpuSide, log, plan, e);
    PortsMore(w.testerPort, log, plan, e);
    MannedMore(w.testerPort, w.testerPort, log, plan, e);
  }

  /** New testers leave the crossbars of other testers as they were. */
  lemma MannedMore(a: map<nat, Socket>, b: map<nat, Socket>, log: seq<(nat, nat)>, plan: Plan, e: (nat, nat))
    requires plan.Ok() && Manned(a, log, plan) && forall t :: t in a ==> t in b && b[t] == a[t]
    requires forall t :: t in b && t !in a && b[t].ToXbar? ==> (0, b[t].index) !in log
    requires e.0 == 0 && plan.HasXbar(0) ==> HasTesters(b, plan, e.1)
    ensures Manned(b, log + [e], plan) && Manned(b, log, plan)
  {
    forall i | (0, i) in log && plan.HasXbar(0)
      ensures HasTesters(b, plan, i)
    {
      assert HasTesters(a, plan, i);
      var s :| XbarTesters(a, plan, i, s);
      assert XbarTesters(b, plan, i, s);
    }
    forall i | (0, i) in log + [e] && plan.HasXbar(0)
      ensures HasTesters(b, plan, i)
    {
      assert (0, i) in log || (0, i) == e;
    }
  }

  lemma EnlargedPlaced(w: Wiring, log: seq<(nat, nat)>, base: map<(nat, nat), nat>, plan: Plan, nextCache: Option<nat>,
                       e: (nat, nat))
    requires Sound(w) && Tree(w, log, base, plan) && e !in log && 1 <= e.0 <= |plan.cs|
    requires nextCache.Some? ==> Waiting(w, nextCache.value, e.0)
    ensures Placed(LevelEnlarged(w, nextCache, e, plan), log + [e], base[e := w.caches], plan)
  {
    var r := LevelEnlarged(w, nextCache, e, plan);
    forall c | c in r.memSide
      ensures CacheFits(r, log + [e], base[e := w.caches], plan, c)
    {
      assert CacheFits(w, log, base, plan, c);
      assert BaseFits(base, log, plan, w.caches, w.memSide[c]);
    }
    forall c | c in r.cpuSide
      ensures OnXbar(r, c)
    {
      assert c in w.cpuSide ==> OnXbar(w, c);
    }
  }

  lemma EnlargedBases(base: map<(nat, nat), nat>, log: seq<(nat, nat)>, plan: Plan, caches: nat, e: (nat, nat))
    requires plan.Ok() && Bases(base, log, plan, caches) && e !in log && 1 <= e.0 <= |plan.cs|
    ensures Bases(base[e := caches], log + [e], plan, caches + plan.Fan(e.0) + plan.Own(e.0))
  {
    var now, room := base[e := caches], caches + plan.Fan(e.0) + plan.Own(e.0);
    forall f | f in now
      ensures BaseFits(now, log + [e], plan, room, f)
    {
      assert f != e ==> BaseFits(base, log, plan, caches, f);
    }
    forall f, g | f in now && g in now && f != g
      ensures 1 <= f.0 <= |plan.cs| && 1 <= g.0 <= |plan.cs| && Apart(now, plan, f, g)
    {
      assert f != e ==> BaseFits(base, log, plan, caches, f);
      assert g != e ==> BaseFits(base, log, plan, caches, g);
      assert f != e && g != e ==> Apart(base, plan, f, g);
    }
    forall f | f in log + [e] && f.0 > 0
      ensures HasBase(now, f)
    {
      assert f != e ==> HasBase(base, f);
    }
  }

  /** A crossbar that has just been recorded is on no cache yet. */
  lemma NewPeer(w: Wiring, log: seq<(nat, nat)>, base: map<(nat, nat), nat>, plan: Plan, c: nat, e: (nat, nat))
    requires Tree(w, log, base, plan) && e !in log && c !in w.cpuSide
    ensures Single(w.cpuSide[c := Xbar(e.0, e.1)])
  {
    forall d | d in w.cpuSide
      ensures w.cpuSide[d] != Xbar(e.0, e.1)
    {
      assert OnXbar(w, d);
      assert CacheFits(w, log, base, plan, d);
    }
    SingleMore(w.cpuSide, c, Xbar(e.0, e.1));
  }

  lemma SingleMore(cpuSide: map<nat, Peer>, c: nat, peer: Peer)
    requires Single(cpuSide) && c !in cpuSide && (peer.Xbar? ==> forall d :: d in cpuSide ==> cpuSide[d] != peer)
    ensures Single(cpuSide[c := peer])
  {
    var now := cpuSide[c := peer];
    forall a, b | a in now && b in now && a != b
      ensures Differ(now, a, b)
    {
      assert a != c && b != c ==> Differ(cpuSide, a, b);
    }
  }

  lemma HungMore(a: map<nat, Peer>, b: map<nat, Peer>, log: seq<(nat, nat)>, plan: Plan, e: (nat, nat))
    requires plan.Ok() && Hung(a, log, plan) && forall c :: c in a ==> c in b && b[c] == a[c]
    requires e.0 < |plan.cs| && plan.HasXbar(e.0) ==> OnCache(b, e)
    ensures Hung(b, log + [e], plan)
  {
    HungStays(a, b, log, plan);
    forall f | f in log + [e] && f.0 < |plan.cs| && plan.HasXbar(f.0)
      ensures OnCache(b, f)
    {
    }
  }

  lemma HungStays(a: map<nat, Peer>, b: map<nat, Peer>, log: seq<(nat, nat)>, plan: Plan)
    requires plan.Ok() && Hung(a, log, plan) && forall c :: c in a ==> c in b && b[c] == a[c]
    ensures Hung(b, log, plan)
  {
    forall f | f in log && f.0 < |plan.cs| && plan.HasXbar(f.0)
      ensures OnCache(b, f)
    {
      assert OnCache(a, f);
    }
  }

  lemma PortsMore(testerPort: map<nat, Socket>, log: seq<(nat, nat)>, plan: Plan, e: (nat, nat))
    requires plan.Ok() && Ports(testerPort, log, plan)
    ensures Ports(testerPort, log + [e], plan)
  {
    forall t | t in testerPort
      ensures PortFits(testerPort, log + [e], plan, t)
    {
      assert PortFits(testerPort, log, plan, t);
    }
  }

  lemma EnlargedSound(w: Wiring, nextCache: Option<nat>, peer: Peer, testers: nat, kinds: seq<Cache>)
    requires Sound(w) && peer.Xbar? && (nextCache.Some? ==> nextCache.value < w.caches && nextCache.value !in w.cpuSide)
    ensures Sound(Enlarged(w, nextCache, peer, testers, kinds))
    ensures var r := Enlarged(w, nextCache, peer, testers, kinds);
            && Free(r.testerPort, w.testers, r.testers)
            && Free(r.cpuSide, w.caches, r.caches) && Free(r.memSide, w.caches, r.caches)
  {
  }

  lemma FreshCache(first: Wiring, w: Wiring, c0: nat, i: nat, count: nat)
    requires Wired(first, w, (c0, c0 + i), (c0, c0 + i)) && i < count && c0 + count <= first.caches
    requires Free(first.cpuSide, c0, c0 + count) && Free(first.memSide, c0, c0 + count)
    ensures c0 + i < w.caches && c0 + i !in w.cpuSide && c0 + i !in w.memSide
  {
  }

  function Attached(w: Wiring, c: nat, sub: (nat, nat)): Wiring { w.(memSide := w.memSide[c := sub]) }

  lemma AttachedSound(w: Wiring, c: nat, sub: (nat, nat))
    requires Sound(w) && c < w.caches && c !in w.memSide
    ensures Sound(Attached(w, c, sub)) && Wired(w, Attached(w, c, sub), (0, 0), (c, c + 1))
  {
  }

  lemma AttachedTree(w: Wiring, log: seq<(nat, nat)>, base: map<(nat, nat), nat>, plan: Plan, c: nat, e: (nat, nat))
    requires Tree(w, log, base, plan) && c < w.caches && c !in w.cpuSide && c !in w.memSide
    requires e in base && 1 <= e.0 <= |plan.cs| && base[e] <= c < base[e] + plan.Fan(e.0) && w.kinds[c] == plan.Kind(e.0)
    ensures Tree(Attached(w, c, e), log, base, plan)
  {
    var r := Attached(w, c, e);
    forall k | k in r.memSide
      ensures CacheFits(r, log, base, plan, k)
    {
      assert k != c ==> CacheFits(w, log, base, plan, k);
    }
    forall k | k in r.cpuSide
      ensures OnXbar(r, k)
    {
      assert OnXbar(w, k);
    }
  }

  lemma SubtreeWired(first: Wiring, before: Wiring, attached: Wiring, after: Wiring, c0: nat, i: nat)
    requires Wired(first, before, (c0, c0 + i), (c0, c0 + i))
    requires Wired(before, attached, (0, 0), (c0 + i, c0 + i + 1))
    requires attached.testers == before.testers && attached.caches == before.caches
    requires Wired(attached, after, (c0 + i, c0 + i + 1), (0, 0))
    ensures Wired(first, after, (c0, c0 + i + 1), (c0, c0 + i + 1))
  {
    var one, all, none := (c0 + i, c0 + i + 1), (c0, c0 + i + 1), (0, 0);
    var t1, t2, c1, c2 := before.testers, after.testers, before.caches, after.caches;
    GrewTwice(before.testerPort, attached.testerPort, after.testerPort, t1, t1, t2, none, none, none);
    GrewTwice(first.testerPort, before.testerPort, after.testerPort, first.testers, t1, t2, none, none, none);
    GrewTwice(before.cpuSide, attached.cpuSide, after.cpuSide, c1, c1, c2, none, one, one);
    GrewTwice(first.cpuSide, before.cpuSide, after.cpuSide, first.caches, c1, c2, (c0, c0 + i), one, all);
    GrewTwice(before.memSide, attached.memSide, after.memSide, c1, c1, c2, one, none, one);
    GrewTwice(first.memSide, before.memSide, after.memSide, first.caches, c1, c2, (c0, c0 + i), one, all);
  }

  /** The testers of a subsystem with a crossbar: each gets its own cache, which goes on the crossbar. */
  method WireTesters(w0: Wiring, count: nat, t0: nat, c0: nat, e: (nat, nat), ghost log: seq<(nat, nat)>,
                     ghost base: map<(nat, nat), nat>, ghost plan: Plan) returns (w: Wiring)
    requires Sound(w0) && t0 + count <= w0.testers && c0 + count <= w0.caches
    requires Free(w0.testerPort, t0, t0 + count)
    requires Free(w0.cpuSide, c0, c0 + count) && Free(w0.memSide, c0, c0 + count)
    requires Tree(w0, log, base, plan) && e in base && 1 <= e.0 <= |plan.cs|
    requires c0 == base[e] + plan.Fan(e.0) && count == plan.Own(e.0)
    requires Clones(w0.kinds, c0, c0 + count, plan.l1)
    ensures Sound(w) && TestersAdded(w0, w, t0, c0, count) && Tree(w, log, base, plan)
  {
    w := w0;
    for i := 0 to count
      invariant Sound(w) && TestersAdded(w0, w, t0, c0, i) && Tree(w, log, base, plan)
    {
      ghost var before := w;
      w := AddTester(w0, w, t0, c0, i, count, e);
      TesterTree(before, w, log, base, plan, t0 + i, c0 + i, e);
    }
  }

  /** One more cache, with a tester. */
  lemma TesterTree(w: Wiring, r: Wiring, log: seq<(nat, nat)>, base: map<(nat, nat), nat>, plan: Plan, t: nat, c: nat,
                   e: (nat, nat))
    requires Tree(w, log, base, plan) && e in base && c !in w.cpuSide && c < w.caches && w.kinds[c] == plan.l1
    requires t !in w.testerPort
    requires 1 <= e.0 <= |plan.cs| && base[e] + plan.Fan(e.0) <= c < base[e] + plan.Fan(e.0) + plan.Own(e.0)
    requires r == w.(testerPort := w.testerPort[t := ToCache(c)], cpuSide := w.cpuSide[c := Tester(t)],
                     memSide := w.memSide[c := e])
    ensures Tree(r, log, base, plan)
  {
    TesterPlaced(w, r, log, base, plan, t, c, e);
    SingleMore(w.cpuSide, c, Tester(t));
    HungStays(w.cpuSide, r.cpuSide, log, plan);
    forall k | k in r.testerPort
      ensures PortFits(r.testerPort, log, plan, k)
    {
      assert k != t ==> PortFits(w.testerPort, log, plan, k);
    }
    MannedMore(w.testerPort, r.testerPort, log, plan, e);
  }

  lemma TesterPlaced(w: Wiring, r: Wiring, log: seq<(nat, nat)>, base: map<(nat, nat), nat>, plan: Plan, t: nat, c: nat,
                     e: (nat, nat))
    requires plan.Ok() && Placed(w, log, base, plan) && e in base && c !in w.cpuSide && c < w.caches
    requires 1 <= e.0 <= |plan.cs| && base[e] + plan.Fan(e.0) <= c < base[e] + plan.Fan(e.0) + plan.Own(e.0)
    requires r == w.(testerPort := w.testerPort[t := ToCache(c)], cpuSide := w.cpuSide[c := Tester(t)],
                     memSide := w.memSide[c := e]) && w.kinds[c] == plan.l1
    ensures Placed(r, log, base, plan)
  {
    forall k | k in r.memSide
      ensures CacheFits(r, log, base, plan, k)
    {
      assert k != c ==> CacheFits(w, log, base, plan, k);
    }
    forall k | k in r.cpuSide
      ensures OnXbar(r, k)
    {
      assert k != c ==> OnXbar(w, k);
    }
  }

  ghost predicate TestersAdded(a: Wiring, b: Wiring, t0: nat, c0: nat, count: nat)
  {
    && b.testers == a.testers && b.caches == a.caches && b.kinds == a.kinds
    && Grew(a.testerPort, b.testerPort, t0, t0 + count, 0, 0)
    && Grew(a.cpuSide, b.cpuSide, c0, c0 + count, 0, 0) && Grew(a.memSide, b.memSide, c0, c0 + count, 0, 0)
  }

  /** Connects tester t0 + i with cache c0 + i, and that cache with the crossbar. */
  method AddTester(ghost first: Wiring, w: Wiring, t0: nat, c0: nat, i: nat, ghost count: nat, sub: (nat, nat))
    returns (r: Wiring)
    requires Sound(w) && i < count && t0 + count <= w.testers && c0 + count <= w.caches
    requires Free(first.testerPort, t0, t0 + count)
    requires Free(first.cpuSide, c0, c0 + count) && Free(first.memSide, c0, c0 + count)
    requires TestersAdded(first, w, t0, c0, i)
    ensures Sound(r) && TestersAdded(first, r, t0, c0, i + 1)
    ensures c0 + i !in w.cpuSide && t0 + i !in w.testerPort
    ensures r == w.(testerPort := w.testerPort[t0 + i := ToCache(c0 + i)], cpuSide := w.cpuSide[c0 + i := Tester(t0 + i)],
                    memSide := w.memSide[c0 + i := sub])
  {
    GrewOne(first.testerPort, w.testerPort, t0, i, count, w.testers, ToCache(c0 + i));
    GrewOne(first.cpuSide, w.cpuSide, c0, i, count, w.caches, Tester(t0 + i));
    GrewOne(first.memSide, w.memSide, c0, i, count, w.caches, sub);
    AgreeMore(w.testerPort, w.cpuSide, t0 + i, c0 + i);
    r := w.(testerPort := w.testerPort[t0 + i := ToCache(c0 + i)], cpuSide := w.cpuSide[c0 + i := Tester(t0 + i)],
            memSide := w.memSide[c0 + i := sub]);
  }

  lemma GrewOne<V>(a: map<nat, V>, b: map<nat, V>, lo: nat, i: nat, count: nat, n: nat, v: V)
    requires Grew(a, b, lo, lo + i, 0, 0) && Free(a, lo, lo + count) && i < count && lo + count <= n && Bounded(b, n)
    ensures lo + i !in b && Grew(a, b[lo + i := v], lo, lo + i + 1, 0, 0) && Bounded(b[lo + i := v], n)
  {
  }

  lemma AgreeMore(testerPort: map<nat, Socket>, cpuSide: map<nat, Peer>, t: nat, c: nat)
    requires Agree(testerPort, cpuSide) && t !in testerPort && c !in cpuSide
    ensures Agree(testerPort[t := ToCache(c)], cpuSide[c := Tester(t)])
  {
  }

  lemma GrewAround<V>(a: map<nat, V>, b: map<nat, V>, c: map<nat, V>, d: map<nat, V>, lo: nat, mid: nat, end: nat, hi: nat,
                      e: (nat, nat))
    requires lo <= mid <= end <= hi
    requires Grew(a, b, e.0, e.1, 0, 0) && Grew(b, c, end, hi, lo, mid) && Grew(c, d, mid, end, 0, 0)
    ensures Grew(a, d, lo, hi, e.0, e.1)
  {
  }

  lemma EnlargedGrew(w: Wiring, nextCache: Option<nat>, peer: Peer, testers: nat, kinds: seq<Cache>)
    requires nextCache.Some? ==> nextCache.value !in w.cpuSide
    ensures var (e, side) := (Enlarged(w, nextCache, peer, testers, kinds), NextSide(nextCache));
            && Grew(w.testerPort, e.testerPort, 0, 0, 0, 0) && Grew(w.cpuSide, e.cpuSide, side.0, side.1, 0, 0)
            && Grew(w.memSide, e.memSide, 0, 0, 0, 0)
  {
  }

  lemma LevelWired(w0: Wiring, enlarged: Wiring, grown: Wiring, w: Wiring, nextCache: Option<nat>, peer: Peer,
                   ntesters: nat, n: nat, kinds: seq<Cache>)
    requires Sound(w0) && (nextCache.Some? ==> nextCache.value < w0.caches && nextCache.value !in w0.cpuSide)
    requires enlarged == Enlarged(w0, nextCache, peer, ntesters, kinds) && |kinds| == n + ntesters
    requires Wired(enlarged, grown, (w0.caches, w0.caches + n), (w0.caches, w0.caches + n))
    requires TestersAdded(grown, w, w0.testers, w0.caches + n, ntesters)
    ensures Wired(w0, w, NextSide(nextCache), (0, 0))
  {
    var (c, t) := (w0.caches, w0.testers);
    var next := NextSide(nextCache);
    EnlargedGrew(w0, nextCache, peer, ntesters, kinds);
    GrewAround(w0.testerPort, enlarged.testerPort, grown.testerPort, w.testerPort, t, t, t + ntesters, w.testers, (0, 0));
    GrewAround(w0.cpuSide, enlarged.cpuSide, grown.cpuSide, w.cpuSide, c, c + n, c + n + ntesters, w.caches, next);
    GrewAround(w0.memSide, enlarged.memSide, grown.memSide, w.memSide, c, c + n, c + n + ntesters, w.caches, (0, 0));
  }

  /** The testers of the uppermost level: on a crossbar behind the next cache, or a single one on the cache itself. */
  method WireTop(w0: Wiring, ntesters: nat, nextCache: nat, index: nat, ghost log: seq<(nat, nat)>,
                 ghost base: map<(nat, nat), nat>, ghost plan: Plan) returns (w: Wiring)
    requires Sound(w0) && Tree(w0, log, base, plan) && (0, index) !in log
    requires ntesters == plan.Own(0) && Waiting(w0, nextCache, 0)
    ensures Sound(w) && Tree(w, log + [(0, index)], base, plan)
    ensures w.testers == w0.testers + ntesters && w.caches == w0.caches
    ensures Wired(w0, w, (nextCache, nextCache + 1), (0, 0))
  {
    if ntesters > 1 {
      w := WireTopXbar(w0, ntesters, nextCache, index);
      NewPeer(w0, log, base, plan, nextCache, (0, index));
      NewTesters(w0, w, log, plan, index);
    } else {
      AgreeMore(w0.testerPort, w0.cpuSide, w0.testers, nextCache);
      SingleMore(w0.cpuSide, nextCache, Tester(w0.testers));
      w := w0.(testers := w0.testers + 1, testerPort := w0.testerPort[w0.testers := ToCache(nextCache)],
               cpuSide := w0.cpuSide[nextCache := Tester(w0.testers)]);
    }
    TopTree(w0, w, log, base, plan, nextCache, index);
  }

  lemma TopTree(w: Wiring, r: Wiring, log: seq<(nat, nat)>, base: map<(nat, nat), nat>, plan: Plan, c: nat, index: nat)
    requires Tree(w, log, base, plan) && Waiting(w, c, 0)
    requires r.kinds == w.kinds && r.caches == w.caches && r.memSide == w.memSide && c in r.cpuSide
    requires r.cpuSide == w.cpuSide[c := r.cpuSide[c]] && Single(r.cpuSide)
    requires if plan.HasXbar(0) then r.cpuSide[c] == Xbar(0, index) else r.cpuSide[c].Tester?
    requires forall t :: t in r.testerPort ==>
      (t in w.testerPort && r.testerPort[t] == w.testerPort[t])
      || (if plan.HasXbar(0) then r.testerPort[t] == ToXbar(0, index) else r.testerPort[t].ToCache?)
    requires (forall t :: t in w.testerPort ==> t in r.testerPort && r.testerPort[t] == w.testerPort[t])
    requires (0, index) !in log && (plan.HasXbar(0) ==> HasTesters(r.testerPort, plan, index))
    ensures Tree(r, log + [(0, index)], base, plan)
  {
    TopPlaced(w, r, log, base, plan, c, index);
    TopBases(base, log, plan, w.caches, index);
    HungMore(w.cpuSide, r.cpuSide, log, plan, (0, index));
    forall t | t in r.testerPort
      ensures PortFits(r.testerPort, log + [(0, index)], plan, t)
    {
      assert t in w.testerPort ==> PortFits(w.testerPort, log, plan, t);
    }
    MannedMore(w.testerPort, r.testerPort, log, plan, (0, index));
  }

  /** The crossbar just recorded has no other testers. */
  lemma NewTesters(w: Wiring, r: Wiring, log: seq<(nat, nat)>, plan: Plan, index: nat)
    requires plan.Ok() && Ports(w.testerPort, log, plan) && (0, index) !in log
    requires Grew(w.testerPort, r.testerPort, w.testers, w.testers + plan.Own(0), 0, 0) && Bounded(w.testerPort, w.testers)
    requires forall t :: t in r.testerPort && t !in w.testerPort ==> r.testerPort[t] == ToXbar(0, index)
    ensures HasTesters(r.testerPort, plan, index)
  {
    forall t | t in w.testerPort
      ensures w.testerPort[t] != ToXbar(0, index)
    {
      assert PortFits(w.testerPort, log, plan, t);
    }
    assert XbarTesters(r.testerPort, plan, index, w.testers);
  }

  lemma TopBases(base: map<(nat, nat), nat>, log: seq<(nat, nat)>, plan: Plan, caches: nat, index: nat)
    requires plan.Ok() && Bases(base, log, plan, caches)
    ensures Bases(base, log + [(0, index)], plan, caches)
  {
    var now := log + [(0, index)];
    forall e | e in base
      ensures BaseFits(base, now, plan, caches, e)
    {
      assert BaseFits(base, log, plan, caches, e);
    }
    forall e, f | e in base && f in base && e != f
      ensures 1 <= e.0 <= |plan.cs| && 1 <= f.0 <= |plan.cs| && Apart(base, plan, e, f)
    {
      assert BaseFits(base, log, plan, caches, e) && BaseFits(base, log, plan, caches, f);
    }
    forall e | e in now && e.0 > 0
      ensures HasBase(base, e)
    {
      assert e in log;
    }
  }

  /** The uppermost cache of a branch fits a crossbar, or a single tester. */
  lemma TopPlaced(w: Wiring, r: Wiring, log: seq<(nat, nat)>, base: map<(nat, nat), nat>, plan: Plan, c: nat, index: nat)
    requires plan.Ok() && Placed(w, log, base, plan) && Waiting(w, c, 0)
    requires r.kinds == w.kinds && r.caches == w.caches && r.memSide == w.memSide && c in r.cpuSide
    requires r.cpuSide == w.cpuSide[c := r.cpuSide[c]]
    requires if plan.HasXbar(0) then r.cpuSide[c] == Xbar(0, index) else r.cpuSide[c].Tester?
    ensures Placed(r, log + [(0, index)], base, plan)
  {
    forall k | k in r.memSide
      ensures CacheFits(r, log + [(0, index)], base, plan, k)
    {
      assert CacheFits(w, log, base, plan, k);
    }
    forall k | k in r.cpuSide
      ensures OnXbar(r, k)
    {
      assert k != c ==> OnXbar(w, k);
    }
  }

  method WireTopXbar(w0: Wiring, ntesters: nat, nextCache: nat, index: nat) returns (w: Wiring)
    requires Sound(w0) && nextCache < w0.caches && nextCache !in w0.cpuSide
    ensures Sound(w) && w.testers == w0.testers + ntesters && Wired(w0, w, (nextCache, nextCache + 1), (0, 0))
    ensures w.kinds == w0.kinds && w.caches == w0.caches && w.memSide == w0.memSide
    ensures w.cpuSide == w0.cpuSide[nextCache := Xbar(0, index)]
    ensures forall t :: t in w.testerPort && t !in w0.testerPort ==> w.testerPort[t] == ToXbar(0, index)
  {
    var cpuSide: map<nat, Peer> := w0.cpuSide[nextCache := Xbar(0, index)];
    var ports: map<nat, Socket> := w0.testerPort;
    for i := 0 to ntesters
      invariant Grew(w0.testerPort, ports, w0.testers, w0.testers + i, 0, 0) && Agree(ports, cpuSide)
      invariant forall t :: t in ports && t !in w0.testerPort ==> ports[t] == ToXbar(0, index)
    {
      assert w0.testers + i !in ports;
      ports := ports[w0.testers + i := ToXbar(0, index)];
    }
    w := w0.(testers := w0.testers + ntesters, testerPort := ports, cpuSide := cpuSide);
  }

  // ---------------------------------------------------------------- the script

  datatype Error = NoCaches | WrongLength | NoTopTesters | NegativeTesters | TooFewCaches | TooManyTesters

  datatype Result =
    | Rejected(error: Error)
    | Built(plan: Plan, wiring: Wiring, subsystems: seq<(nat, nat)>, counters: seq<nat>)

  predicate Accepted(cs: seq<int>, ts: seq<int>)
  {
    && 1 <= |cs| == |ts| - 1 && ts[|ts| - 1] != 0
    && (forall i :: 0 <= i < |ts| ==> ts[i] >= 0) && (forall i :: 0 <= i < |cs| ==> cs[i] >= 1)
    && Total(cs, ts, |ts|) <= BLOCK_SIZE
  }

  /** The fault that a rejected tree is reported for: the first of these that it has. */
  predicate Fault(cs: seq<int>, ts: seq<int>, error: Error)
  {
    match error
    case NoCaches => |cs| == 0
    case WrongLength => |cs| > 0 && |ts| != |cs| + 1
    case NoTopTesters => |cs| > 0 && |ts| == |cs| + 1 && ts[|cs|] == 0
    case NegativeTesters => |cs| > 0 && |ts| == |cs| + 1 && ts[|cs|] != 0 && exists i :: 0 <= i < |ts| && ts[i] < 0
    case TooFewCaches =>
      && |cs| > 0 && |ts| == |cs| + 1 && ts[|cs|] != 0 && (forall i :: 0 <= i < |ts| ==> ts[i] >= 0)
      && exists i :: 0 <= i < |cs| && cs[i] < 1
    case TooManyTesters =>
      && |cs| > 0 && |ts| == |cs| + 1 && ts[|cs|] != 0 && (forall i :: 0 <= i < |ts| ==> ts[i] >= 0)
      && (forall i :: 0 <= i < |cs| ==> cs[i] >= 1) && Total(cs, ts, |ts|) > BLOCK_SIZE
  }

  /** The caches of a crossbar are the ones from number s on, one for every subtree and one for every tester. */
  ghost predicate XbarCaches(w: Wiring, plan: Plan, e: (nat, nat), s: nat)
    requires plan.Ok() && 1 <= e.0 <= |plan.cs| && Complete(w)
  {
    && s + plan.Fan(e.0) + plan.Own(e.0) <= w.caches == |w.kinds|
    && (forall c :: 0 <= c < w.caches ==> OnThis(w, plan, e, s, c))
    && forall c :: s <= c < s + plan.Fan(e.0) + plan.Own(e.0) ==> CacheIs(w, plan, e, s, c)
  }

  ghost predicate OnThis(w: Wiring, plan: Plan, e: (nat, nat), s: nat, c: nat)
    requires plan.Ok() && 1 <= e.0 <= |plan.cs| && c in w.memSide
  {
    w.memSide[c] == e <==> s <= c < s + plan.Fan(e.0) + plan.Own(e.0)
  }

  /** The cache of a subtree has a crossbar of the next level on its other side, or on top a single tester, and is the
      L1 cache grown by the first fan-outs; the others are L1 caches with a tester each. */
  ghost predicate CacheIs(w: Wiring, plan: Plan, e: (nat, nat), s: nat, c: nat)
    requires plan.Ok() && 1 <= e.0 <= |plan.cs| && c in w.cpuSide && c < |w.kinds|
  {
    if c < s + plan.Fan(e.0) then
      && ScaledUp(plan.l1, plan.cs, e.0 - 1, w.kinds[c])
      && if plan.HasXbar(e.0 - 1) then w.cpuSide[c].Xbar? && w.cpuSide[c].level + 1 == e.0 else w.cpuSide[c].Tester?
    else w.kinds[c] == plan.l1 && w.cpuSide[c].Tester?
  }

  ghost predicate HasCaches(w: Wiring, plan: Plan, e: (nat, nat))
    requires plan.Ok() && 1 <= e.0 <= |plan.cs| && Complete(w)
  {
    exists s :: XbarCaches(w, plan, e, s)
  }

  /** A cache is connected to subsystems that exist. */
  ghost predicate CacheNamed(w: Wiring, subsystems: seq<(nat, nat)>, plan: Plan, c: nat)
    requires c in w.memSide && c in w.cpuSide
  {
    && w.memSide[c] in subsystems && 1 <= w.memSide[c].0 <= |plan.cs|
    && (w.cpuSide[c].Xbar? ==> (w.cpuSide[c].level, w.cpuSide[c].index) in subsystems)
  }

  /** The crossbars, caches and testers form a tree: connections go to subsystems that exist, every crossbar has its
      caches and testers, and every crossbar but the lowest is on exactly one cache. */
  ghost predicate IsTree(w: Wiring, subsystems: seq<(nat, nat)>, plan: Plan)
    requires plan.Ok() && Complete(w)
  {
    && (forall c :: 0 <= c < w.caches ==> CacheNamed(w, subsystems, plan, c))
    && Ports(w.testerPort, subsystems, plan)
    && (forall e :: e in subsystems && 1 <= e.0 <= |plan.cs| ==> HasCaches(w, plan, e))
    && Hung(w.cpuSide, subsystems, plan) && Single(w.cpuSide) && Manned(w.testerPort, subsystems, plan)
  }

  lemma XbarCachesAre(w: Wiring, log: seq<(nat, nat)>, base: map<(nat, nat), nat>, plan: Plan, e: (nat, nat))
    requires Complete(w) && Tree(w, log, base, plan) && e in base
    requires Scaling(plan)
    ensures 1 <= e.0 <= |plan.cs| && XbarCaches(w, plan, e, base[e])
  {
    assert BaseFits(base, log, plan, w.caches, e);
    ProtoGrows(plan.l1, plan.cs, e.0 - 1);
    assert plan.Kind(e.0) == Proto(plan.l1, plan.cs, e.0 - 1);
    forall c: nat | c < w.caches
      ensures OnThis(w, plan, e, base[e], c)
    {
      OneXbar(w, log, base, plan, e, c);
    }
    forall c | base[e] <= c < base[e] + plan.Fan(e.0) + plan.Own(e.0)
      ensures CacheIs(w, plan, e, base[e], c)
    {
      OneXbar(w, log, base, plan, e, c);
      assert CacheFits(w, log, base, plan, c);
    }
  }

  /** A cache is on the crossbar in whose room it is. */
  lemma OneXbar(w: Wiring, log: seq<(nat, nat)>, base: map<(nat, nat), nat>, plan: Plan, e: (nat, nat), c: nat)
    requires Complete(w) && Tree(w, log, base, plan) && e in base && c < w.caches && 1 <= e.0 <= |plan.cs|
    ensures w.memSide[c] == e <==> base[e] <= c < base[e] + plan.Fan(e.0) + plan.Own(e.0)
  {
    var f := w.memSide[c];
    assert CacheFits(w, log, base, plan, c);
    assert BaseFits(base, log, plan, w.caches, e) && BaseFits(base, log, plan, w.caches, f);
    assert e != f ==> Apart(base, plan, e, f);
  }

  lemma TreeIsTree(w: Wiring, log: seq<(nat, nat)>, base: map<(nat, nat), nat>, plan: Plan)
    requires Complete(w) && Tree(w, log, base, plan)
    requires Scaling(plan)
    ensures IsTree(w, log, plan)
  {
    forall c: nat | c < w.caches
      ensures CacheNamed(w, log, plan, c)
    {
      assert CacheFits(w, log, base, plan, c);
      assert BaseFits(base, log, plan, w.caches, w.memSide[c]);
    }
    forall e | e in log && 1 <= e.0 <= |plan.cs|
      ensures HasCaches(w, plan, e)
    {
      assert HasBase(base, e);
      XbarCachesAre(w, log, base, plan, e);
    }
  }

  /** The checks and the top-level call. The tree is built if and only if the specification is accepted; it has
      exactly the number of testers that was checked, every tester and both sides of every cache are connected, it has
      a cache for every subsystem but the lowest and for every tester below the uppermost level, connected as a tree,
      its subsystems have distinct names, and the counter of each level ends at the product of the fan-outs between
      memory and that level. */
  method BuildTree(cs: seq<int>, ts: seq<int>, l1: Cache) returns (r: Result)
    ensures r.Built? <==> Accepted(cs, ts)
    ensures r.Rejected? ==> Fault(cs, ts, r.error)
    ensures r.Built? ==>
              && r.wiring.testers == Total(cs, ts, |ts|) <= BLOCK_SIZE
              && r.wiring.caches == Trees(cs, |cs|) + Total(cs, ts, |cs|)
              && Complete(r.wiring) && r.plan.Ok() && (r.plan.cs, r.plan.ts, r.plan.l1) == (cs, ts, l1)
              && IsTree(r.wiring, r.subsystems, r.plan)
              && Named(r.subsystems, r.counters) && |r.counters| == |ts|
              && forall l :: 0 <= l < |ts| ==> r.counters[l] == Prod(cs, |cs| - l)
  {
    if |cs| < 1 {
      return Rejected(NoCaches);
    }
    if |cs| != |ts| - 1 {
      return Rejected(WrongLength);
    }
    if ts[|ts| - 1] == 0 {
      return Rejected(NoTopTesters);
    }
    for i := 0 to |ts|
      invariant forall k :: 0 <= k < i ==> ts[k] >= 0
    {
      if ts[i] < 0 {
        return Rejected(NegativeTesters);
      }
    }
    for i := 0 to |cs|
      invariant forall k :: 0 <= k < i ==> cs[k] >= 1
    {
      if cs[i] < 1 {
        return Rejected(TooFewCaches);
      }
    }
    var total := NumTesters(cs, ts);
    if total > BLOCK_SIZE {
      return Rejected(TooManyTesters);
    }
    var protos := MakePrototypes(l1, cs);
    var plan := Plan(cs, ts, protos, l1);
    var wiring, subsystems, counters := Build(plan);
    TotalIsSubtree(cs, ts);
    CachesAre(cs, ts);
    r := Built(plan, wiring, subsystems, counters);
  }

  /** The prototypes are the L1 cache scaled by the fan-outs. */
  ghost predicate Scaling(plan: Plan)
    requires plan.Ok()
  {
    forall j :: 0 <= j < |plan.cs| ==> plan.protos[j] == Proto(plan.l1, plan.cs, |plan.cs| - 1 - j)
  }

  /** The top-level call. */
  method Build(plan: Plan) returns (wiring: Wiring, subsystems: seq<(nat, nat)>, counters: seq<nat>)
    requires plan.Ok() && plan.cs != [] && Scaling(plan)
    ensures wiring.testers == Subtree(plan.cs, plan.ts) && wiring.caches == CacheCount(plan.cs, plan.ts)
    ensures Complete(wiring) && IsTree(wiring, subsystems, plan)
    ensures Named(subsystems, counters) && |counters| == |plan.ts|
    ensures forall l :: 0 <= l < |counters| ==> counters[l] == Prod(plan.cs, |plan.cs| - l)
  {
    var b := new Builder(plan);
    ghost var start, none := b.next[..], b.w;
    var n := |plan.cs|;
    assert plan.cs[n - n..] == plan.cs && plan.protos[n - n..] == plan.protos && plan.ts[n - n..] == plan.ts;
    var _ := b.MakeCacheLevel(plan.cs, plan.protos, n, None, plan.ts);
    wiring, subsystems, counters := b.w, b.log, b.next[..];
    WholeGrown(start, counters, none, wiring, subsystems, b.base, plan);
  }

  /** What the top-level call leaves. */
  lemma WholeGrown(start: seq<nat>, counters: seq<nat>, none: Wiring, w: Wiring, log: seq<(nat, nat)>,
                   base: map<(nat, nat), nat>, plan: Plan)
    requires none == Wiring(0, 0, [], map[], map[], map[]) && plan.Ok() && start == seq(|plan.ts|, _ => 0)
    requires Sound(w) && Tree(w, log, base, plan) && Scaling(plan)
    requires Grown(start, counters, none, w, plan.cs, plan.ts, 1, NextSide(None), (0, 0))
    ensures w.testers == Subtree(plan.cs, plan.ts) && w.caches == CacheCount(plan.cs, plan.ts)
    ensures Complete(w) && IsTree(w, log, plan)
    ensures forall l :: 0 <= l < |counters| ==> counters[l] == Prod(plan.cs, |plan.cs| - l)
  {
    IsComplete(none, w);
    TreeIsTree(w, log, base, plan);
    CountersFromZero(start, plan.cs);
  }

  lemma IsComplete(none: Wiring, w: Wiring)
    requires none == Wiring(0, 0, [], map[], map[], map[]) && Sound(w) && Wired(none, w, (0, 0), (0, 0))
    ensures Complete(w)
  {
  }

  lemma CountersFromZero(start: seq<nat>, cs: seq<nat>)
    requires start == seq(|cs| + 1, _ => 0)
    ensures forall l :: 0 <= l <= |cs| ==> Moved(start, cs, |cs|, 1)[l] == Prod(cs, |cs| - l)
  {
  }
}

/** The print queue of the O3 pipeline viewer: instructions retire out of order, are queued up to
    `max` of them, and are sorted and printed down to `min` each time the queue overflows. */
module ReorderBuffer {

  datatype Inst = Inst(sn: int, fetch: int, retire: int, text: string)

  /** The boundaries given on the command line; zero means no boundary. */
  datatype Filter = Filter(snStart: int, snStop: int, tickStart: int, tickStop: int, onlyCommitted: bool)

  predicate Keep(f: Filter, x: Inst)
  {
    && !(f.snStart > 0 && x.sn < f.snStart)
    && !(f.snStop > 0 && x.sn > f.snStop)
    && !(f.tickStart > 0 && x.fetch < f.tickStart)
    && !(f.tickStop > 0 && x.fetch > f.tickStop)
    && !(f.onlyCommitted && x.retire == 0)
  }

  function Kept(f: Filter, s: seq<Inst>): seq<Inst>
  {
    if s == [] then []
    else Kept(f, s[..|s| - 1]) + if Keep(f, s[|s| - 1]) then [s[|s| - 1]] else []
  }

  // ---------------------------------------------------------------- list.sort by sequence number

  /** `x` goes after everything that is not above it. */
  function Insert(s: seq<Inst>, x: Inst): (r: seq<Inst>)
    ensures |r| == |s| + 1
  {
    if s == [] || s[|s| - 1].sn <= x.sn then s + [x]
    else Insert(s[..|s| - 1], x) + [s[|s| - 1]]
  }

  function StableSort(s: seq<Inst>): (r: seq<Inst>)
    ensures |r| == |s|
  {
    if s == [] then [] else Insert(StableSort(s[..|s| - 1]), s[|s| - 1])
  }

  ghost predicate Sorted(s: seq<Inst>)
  {
    forall i, j :: 0 <= i < j < |s| ==> s[i].sn <= s[j].sn
  }

  /** The instructions with one sequence number, in order. */
  function Alike(s: seq<Inst>, sn: int): seq<Inst>
  {
    if s == [] then []
    else Alike(s[..|s| - 1], sn) + if s[|s| - 1].sn == sn then [s[|s| - 1]] else []
  }

  lemma {:induction false} InsertKeepsAll(s: seq<Inst>, x: Inst)
    ensures multiset(Insert(s, x)) == multiset(s) + multiset{x}
  {
    if s != [] && s[|s| - 1].sn > x.sn {
      var init, last := s[..|s| - 1], s[|s| - 1];
      InsertKeepsAll(init, x);
      assert s == init + [last];
    }
  }

  lemma SortedSnoc(s: seq<Inst>, x: Inst)
    requires Sorted(s) && forall y :: y in s ==> y.sn <= x.sn
    ensures Sorted(s + [x])
  {
  }

  lemma SortedLast(s: seq<Inst>, y: Inst)
    requires Sorted(s) && y in s
    ensures y.sn <= s[|s| - 1].sn
  {
  }

  lemma {:induction false} InsertKeepsSorted(s: seq<Inst>, x: Inst)
    requires Sorted(s)
    ensures Sorted(Insert(s, x)) && multiset(Insert(s, x)) == multiset(s) + multiset{x}
    ensures forall y :: y in Insert(s, x) ==> y in s || y == x
  {
    InsertKeepsAll(s, x);
    forall y | y in Insert(s, x)
      ensures y in s || y == x
    {
      assert y in multiset(Insert(s, x));
    }
    if s == [] || s[|s| - 1].sn <= x.sn {
      forall y | y in s
        ensures y.sn <= x.sn
      {
        SortedLast(s, y);
      }
      SortedSnoc(s, x);
    } else {
      var init, last := s[..|s| - 1], s[|s| - 1];
      InsertKeepsSorted(init, x);
      forall y | y in Insert(init, x)
        ensures y.sn <= last.sn
      {
        assert y in init ==> y in s;
        if y != x {
          SortedLast(s, y);
        }
      }
      SortedSnoc(Insert(init, x), last);
    }
  }

  lemma {:induction false} InsertAlike(s: seq<Inst>, x: Inst, sn: int)
    requires Sorted(s)
    ensures Alike(Insert(s, x), sn) == Alike(s, sn) + if x.sn == sn then [x] else []
  {
    if s == [] || s[|s| - 1].sn <= x.sn {
      AlikeNext(s, x, sn);
    } else {
      var init, last := s[..|s| - 1], s[|s| - 1];
      InsertAlike(init, x, sn);
      AlikeNext(Insert(init, x), last, sn);
      EitherAlike(Alike(init, sn), x, last, sn);
    }
  }

  lemma EitherAlike(a: seq<Inst>, x: Inst, last: Inst, sn: int)
    requires x.sn < last.sn
    ensures var (one, other) := (if x.sn == sn then [x] else [], if last.sn == sn then [last] else []);
            (a + one) + other == (a + other) + one
  {
  }

  lemma AlikeNext(s: seq<Inst>, x: Inst, sn: int)
    ensures Alike(s + [x], sn) == Alike(s, sn) + if x.sn == sn then [x] else []
  {
    assert (s + [x])[..|s|] == s;
  }

  lemma {:induction false} SortIsSorted(s: seq<Inst>)
    ensures Sorted(StableSort(s)) && multiset(StableSort(s)) == multiset(s)
  {
    if s != [] {
      var init, x := s[..|s| - 1], s[|s| - 1];
      SortIsSorted(init);
      InsertKeepsSorted(StableSort(init), x);
      assert s == init + [x];
    }
  }

  lemma {:induction false} SortIsStable(s: seq<Inst>, sn: int)
    ensures Alike(StableSort(s), sn) == Alike(s, sn)
  {
    if s != [] {
      var init, x := s[..|s| - 1], s[|s| - 1];
      SortIsStable(init, sn);
      SortIsSorted(init);
      InsertAlike(StableSort(init), x, sn);
    }
  }

  lemma {:induction false} SortOfSorted(s: seq<Inst>)
    requires Sorted(s)
    ensures StableSort(s) == s
  {
    if s != [] {
      SortOfSorted(s[..|s| - 1]);
      assert s == s[..|s| - 1] + [s[|s| - 1]];
    }
  }

  lemma {:induction false} InsertAfter(a: seq<Inst>, b: seq<Inst>, x: Inst)
    requires forall i :: 0 <= i < |a| ==> a[i].sn <= x.sn
    ensures Insert(a + b, x) == a + Insert(b, x)
  {
    if b == [] {
      assert a + b == a;
    } else {
      var init, last := b[..|b| - 1], b[|b| - 1];
      assert (a + b)[..|a + b| - 1] == a + init;
      if last.sn > x.sn {
        InsertAfter(a, init, x);
        assert a + Insert(b, x) == (a + Insert(init, x)) + [last];
      }
    }
  }

  // ---------------------------------------------------------------- the queue

  /** What has left the queue, in order, and what is in it. */
  datatype Buffer = Buffer(drained: seq<Inst>, queue: seq<Inst>)

  /** How many instructions leave a queue of the given length. */
  function Excess(length: nat, lower: nat): nat { if length > lower then length - lower else 0 }

  function Drain(b: Buffer, lower: nat): Buffer
  {
    var n := Excess(|b.queue|, lower);
    Buffer(b.drained + StableSort(b.queue)[..n], StableSort(b.queue)[n..])
  }

  function Enqueue(b: Buffer, x: Inst, max: nat, min: nat): Buffer
  {
    var queued := b.(queue := b.queue + [x]);
    if |queued.queue| > max then Drain(queued, min) else queued
  }

  function Feed(trace: seq<Inst>, max: nat, min: nat): Buffer
  {
    if trace == [] then Buffer([], [])
    else Enqueue(Feed(trace[..|trace| - 1], max, min), trace[|trace| - 1], max, min)
  }

  /** The whole trace up to the end of file: the order in which instructions leave the queue. */
  function Output(trace: seq<Inst>, max: nat, min: nat): seq<Inst>
  {
    Drain(Feed(trace, max, min), 0).drained
  }

  lemma KeptOne(f: Filter, s: seq<Inst>, x: Inst)
    ensures Kept(f, s + [x]) == Kept(f, s) + if Keep(f, x) then [x] else []
  {
    assert (s + [x])[..|s|] == s;
  }

  lemma DrainOne(a: seq<Inst>, s: seq<Inst>, k: nat)
    requires k < |s|
    ensures s[k..][0] == s[k] && s[k..][1..] == s[k + 1..]
    ensures (a + s[..k]) + [s[k]] == a + s[..k + 1]
  {
  }

  class Viewer {
    const max: nat
    const min: nat
    const filter: Filter
    var queue: seq<Inst>
    var printed: seq<Inst>
    ghost var drained: seq<Inst>

    constructor (max: nat, min: nat, filter: Filter)
      ensures this.max == max && this.min == min && this.filter == filter
      ensures queue == [] && printed == [] && drained == []
    {
      this.max, this.min, this.filter := max, min, filter;
      queue, printed, drained := [], [], [];
    }

    ghost function State(): Buffer
      reads this
    {
      Buffer(drained, queue)
    }

    /** The filters of print_insts. */
    method Dropped(item: Inst) returns (dropped: bool)
      ensures dropped <==> !Keep(filter, item)
    {
      if filter.snStart > 0 && item.sn < filter.snStart {
        return true; // earlier than the starting sequence number
      }
      if filter.snStop > 0 && item.sn > filter.snStop {
        return true; // later than the ending sequence number
      }
      if filter.tickStart > 0 && item.fetch < filter.tickStart {
        return true; // earlier than the starting tick
      }
      if filter.tickStop > 0 && item.fetch > filter.tickStop {
        return true; // later than the ending tick
      }
      if filter.onlyCommitted && item.retire == 0 {
        return true; // never committed
      }
      dropped := false;
    }

    /** print_insts. */
    method PrintInsts(lower: nat)
      requires printed == Kept(filter, drained)
      modifies this
      ensures State() == Drain(old(State()), lower) && printed == Kept(filter, drained)
    {
      queue := StableSort(queue);
      ghost var sorted := queue;
      ghost var k := 0;
      while |queue| > lower
        invariant 0 <= k <= |sorted| && queue == sorted[k..] && drained == old(drained) + sorted[..k]
        invariant k > 0 ==> |queue| >= lower
        invariant printed == Kept(filter, drained)
      {
        var item := queue[0];
        queue := queue[1..];
        KeptOne(filter, drained, item);
        DrainOne(old(drained), sorted, k);
        drained := drained + [item];
        k := k + 1;
        var dropped := Dropped(item);
        if dropped {
          continue;
        }
        printed := printed + [item];
      }
    }

    /** queue_inst. */
    method QueueInst(x: Inst)
      requires printed == Kept(filter, drained)
      modifies this
      ensures State() == Enqueue(old(State()), x, max, min) && printed == Kept(filter, drained)
    {
      queue := queue + [x];
      if |queue| > max {
        PrintInsts(min);
      }
    }

    /** process_trace on the lines of a trace. At the first fetch beyond the stopping point it calls print_insts with
        an argument missing, which ends the script: what has been printed by then is all there is. Otherwise the
        printed lines are the kept ones of all instructions from the starting point on. */
    method ProcessTrace(lines: seq<Line>, drift: nat) returns (crashed: bool)
      requires queue == [] && printed == [] && drained == []
      modifies this
      ensures var (insts, stopped) := Collect(FromStart(lines, filter), NOTHING, Stop(filter, drift, max));
              && crashed == stopped
              && printed == Kept(filter, if stopped then Feed(insts, max, min).drained else Output(insts, max, min))
              && exists s: nat, e: nat :: Window(lines, filter, drift, max, s, e) && Queued(lines[s..], e, insts)
                                && crashed == (s + e < |lines|)
    {
      var region := SkipToStart(lines, filter);
      var stop := Stop(filter, drift, max);
      WindowIs(lines, filter, drift, max);
      ghost var seen: seq<Inst> := [];
      ghost var all := Collect(region, NOTHING, stop);
      var cur := NOTHING;
      assert region[0..] == region && seen + all.0 == all.0;
      for i := 0 to |region|
        invariant State() == Feed(seen, max, min) && printed == Kept(filter, drained)
        invariant var rest := Collect(region[i..], cur, stop); all == (seen + rest.0, rest.1)
      {
        assert region[i..][0] == region[i] && region[i..][1..] == region[i + 1..];
        match region[i]
        case Fetch(tick, sn, text) =>
          if Beyond(stop, tick, sn) {
            assert seen + [] == seen;
            return true;
          }
          cur := Inst(sn, tick, cur.retire, text);
        case Retire(tick) =>
          cur := Retired(cur, tick);
          assert (seen + [cur])[..|seen|] == seen;
          QueueInst(cur);
          AssociativeOne(seen, cur, Collect(region[i + 1..], cur, stop).0);
          seen := seen + [cur];
        case Stage(_) =>
        case Other =>
      }
      assert seen + [] == seen;
      PrintInsts(0);
      crashed := false;
    }
  }

  // ---------------------------------------------------------------- the lines of a trace

  /** A line: the fetch or the retirement of an instruction, another pipeline stage, or something else. */
  datatype Line = Fetch(tick: int, sn: int, text: string) | Retire(tick: int) | Stage(tick: int) | Other

  /** Where the viewer stops, zero for nowhere: the bounds with their allowance for disorder. */
  datatype StopAt = StopAt(tick: int, sn: int)

  const NOTHING := Inst(0, 0, 0, "")

  function Stop(f: Filter, drift: nat, max: nat): StopAt
  {
    StopAt(if f.tickStop > 0 then f.tickStop + drift else 0, if f.snStop > 0 then f.snStop + max else 0)
  }

  predicate Beyond(stop: StopAt, tick: int, sn: int)
  {
    (stop.tick != 0 && tick > stop.tick) || (stop.sn != 0 && sn > stop.sn)
  }

  /** An instruction that retires at tick 0 was squashed, and is marked. */
  function Retired(cur: Inst, tick: int): Inst
  {
    cur.(retire := tick, text := if tick == 0 then "-----" + cur.text else cur.text)
  }

  /** The instructions that the main loop queues, and whether it meets the stopping point. */
  function Collect(lines: seq<Line>, cur: Inst, stop: StopAt): (seq<Inst>, bool)
  {
    if lines == [] then ([], false)
    else
      match lines[0]
      case Fetch(tick, sn, text) =>
        if Beyond(stop, tick, sn) then ([], true) else Collect(lines[1..], Inst(sn, tick, cur.retire, text), stop)
      case Retire(tick) =>
        var (rest, stopped) := Collect(lines[1..], Retired(cur, tick), stop);
        ([Retired(cur, tick)] + rest, stopped)
      case _ => Collect(lines[1..], cur, stop)
  }

  lemma AssociativeOne(a: seq<Inst>, x: Inst, b: seq<Inst>)
    ensures a + ([x] + b) == (a + [x]) + b
  {
  }

  /** A line from which the viewer starts looking. */
  predicate Starts(f: Filter, l: Line)
  {
    if f.tickStart != 0 then
      match l
      case Other => false
      case _ => l.tick >= f.tickStart
    else if f.snStart != 0 then l.Fetch? && l.sn >= f.snStart
    else true
  }

  function DropUntil(lines: seq<Line>, f: Filter): seq<Line>
  {
    if lines == [] || Starts(f, lines[0]) then lines else DropUntil(lines[1..], f)
  }

  function DropToFetch(lines: seq<Line>): seq<Line>
  {
    if lines == [] || lines[0].Fetch? then lines else DropToFetch(lines[1..])
  }

  /** The lines from the first fetch at or after the starting point. */
  function FromStart(lines: seq<Line>, f: Filter): seq<Line> { DropToFetch(DropUntil(lines, f)) }

  /** The two skipping loops of process_trace. */
  method SkipToStart(lines: seq<Line>, f: Filter) returns (region: seq<Line>)
    ensures region == FromStart(lines, f)
  {
    var i := 0;
    while i < |lines| && !Starts(f, lines[i])
      invariant 0 <= i <= |lines| && DropUntil(lines, f) == DropUntil(lines[i..], f)
    {
      assert lines[i..][1..] == lines[i + 1..];
      i := i + 1;
    }
    ghost var rest := lines[i..];
    assert i < |lines| ==> lines[i..][0] == lines[i];
    while i < |lines| && !lines[i].Fetch?
      invariant 0 <= i <= |lines| && DropToFetch(rest) == DropToFetch(lines[i..])
    {
      assert lines[i..][1..] == lines[i + 1..];
      i := i + 1;
    }
    region := lines[i..];
    assert i < |lines| ==> region[0] == lines[i];
  }

  /** When the viewer comes to the end of the trace, it has queued exactly the instructions that retire from the
      starting point on; it stops early exactly at a fetch beyond the stopping point. */
  lemma {:induction false} StopsIff(lines: seq<Line>, cur: Inst, stop: StopAt)
    ensures Collect(lines, cur, stop).1 <==>
              exists i :: 0 <= i < |lines| && lines[i].Fetch? && Beyond(stop, lines[i].tick, lines[i].sn)
    ensures !Collect(lines, cur, stop).1 ==> |Collect(lines, cur, stop).0| == Retirements(lines)
  {
    if lines != [] {
      var rest := lines[1..];
      var next := match lines[0]
        case Fetch(tick, sn, text) => Inst(sn, tick, cur.retire, text)
        case Retire(tick) => Retired(cur, tick)
        case _ => cur;
      StopsIff(rest, next, stop);
      assert forall i :: 0 <= i < |rest| ==> rest[i] == lines[i + 1];
      assert forall i :: 1 <= i < |lines| ==> lines[i] == rest[i - 1];
    }
  }

  function Retirements(lines: seq<Line>): nat
  {
    if lines == [] then 0 else (if lines[0].Retire? then 1 else 0) + Retirements(lines[1..])
  }

  // ---------------------------------------------------------------- which instructions are queued

  /** The lines from the first fetch that is not before the starting point. */
  ghost predicate StartsAt(lines: seq<Line>, f: Filter, s: nat)
  {
    && s <= |lines| && (s < |lines| ==> Reached(lines, f, s))
    && forall j :: 0 <= j < s ==> !Reached(lines, f, j)
  }

  /** Line `j` is a fetch, and it or a line before it lets the viewer start. */
  ghost predicate Reached(lines: seq<Line>, f: Filter, j: nat)
  {
    j < |lines| && lines[j].Fetch? && exists i :: 0 <= i <= j && NotBefore(f, lines[i])
  }

  /** The line is not before the first tick, if that is given, or else is the fetch of an instruction that is not
      before the first one, if that is given. */
  predicate NotBefore(f: Filter, l: Line)
  {
    && (f.tickStart != 0 ==> !l.Other? && f.tickStart <= l.tick)
    && (f.tickStart == 0 && f.snStart != 0 ==> l.Fetch? && f.snStart <= l.sn)
  }

  lemma StartsIff(f: Filter, l: Line)
    ensures Starts(f, l) <==> NotBefore(f, l)
  {
  }

  lemma {:induction false} FirstStart(lines: seq<Line>, f: Filter) returns (i: nat)
    ensures i <= |lines| && DropUntil(lines, f) == lines[i..] && (i < |lines| ==> NotBefore(f, lines[i]))
    ensures forall k :: 0 <= k < i ==> !NotBefore(f, lines[k])
  {
    if lines != [] {
      StartsIff(f, lines[0]);
    }
    if lines == [] || Starts(f, lines[0]) {
      i := 0;
    } else {
      var rest := FirstStart(lines[1..], f);
      i := rest + 1;
      assert forall k :: 1 <= k < i ==> lines[k] == lines[1..][k - 1];
    }
  }

  lemma {:induction false} FirstFetch(lines: seq<Line>) returns (i: nat)
    ensures i <= |lines| && DropToFetch(lines) == lines[i..] && (i < |lines| ==> lines[i].Fetch?)
    ensures forall k :: 0 <= k < i ==> !lines[k].Fetch?
  {
    if lines == [] || lines[0].Fetch? {
      i := 0;
    } else {
      var rest := FirstFetch(lines[1..]);
      i := rest + 1;
      assert forall k :: 1 <= k < i ==> lines[k] == lines[1..][k - 1];
    }
  }

  lemma FromStartIs(lines: seq<Line>, f: Filter) returns (s: nat)
    ensures StartsAt(lines, f, s) && FromStart(lines, f) == lines[s..]
  {
    var i := FirstStart(lines, f);
    var j := FirstFetch(lines[i..]);
    s := i + j;
    assert forall k :: i <= k < s ==> lines[k] == lines[i..][k - i];
    assert s < |lines| ==> lines[s] == lines[i..][j];
  }

  /** A fetch beyond the stopping point and its allowance. */
  predicate Past(f: Filter, drift: nat, max: nat, l: Line)
  {
    && l.Fetch?
    && ((f.tickStop > 0 && l.tick > f.tickStop + drift) || (f.snStop > 0 && l.sn > f.snStop + max))
  }

  /** Line `e` is the first fetch beyond the stopping point, or the end. */
  ghost predicate EndsAt(lines: seq<Line>, f: Filter, drift: nat, max: nat, e: nat)
  {
    && e <= |lines| && (e < |lines| ==> Past(f, drift, max, lines[e]))
    && forall j :: 0 <= j < e ==> !Past(f, drift, max, lines[j])
  }

  /** Line `f` is the last fetch before line `i`. */
  ghost predicate FetchedAt(lines: seq<Line>, i: nat, f: nat)
  {
    f < i <= |lines| && lines[f].Fetch? && forall j :: f < j < i ==> !lines[j].Fetch?
  }

  function Squashes(lines: seq<Line>): nat
  {
    if lines == [] then 0
    else Squashes(lines[..|lines| - 1]) + if lines[|lines| - 1] == Retire(0) then 1 else 0
  }

  /** The mark is put in front once for every retirement at tick 0. */
  function Marked(n: nat, text: string): string
  {
    if n == 0 then text else "-----" + Marked(n - 1, text)
  }

  /** What retires at line `i`: the instruction fetched last, with that line's tick. */
  ghost predicate RetiresAt(lines: seq<Line>, i: nat, x: Inst)
  {
    && i < |lines| && lines[i].Retire? && x.retire == lines[i].tick
    && exists f :: FetchedAt(lines, i, f) && FetchIs(lines, i, f, x)
  }

  ghost predicate FetchIs(lines: seq<Line>, i: nat, f: nat, x: Inst)
    requires f < i < |lines|
  {
    && lines[f].Fetch? && x.sn == lines[f].sn && x.fetch == lines[f].tick
    && x.text == Marked(Squashes(lines[f..i + 1]), lines[f].text)
  }

  /** The k-th instruction is what retires at the k-th retirement before line `e`. */
  ghost predicate Queued(lines: seq<Line>, e: nat, insts: seq<Inst>)
  {
    && e <= |lines| && |insts| == Retirements(lines[..e])
    && forall i :: 0 <= i < e && lines[i].Retire? ==> QueuedAt(lines, i, insts)
  }

  ghost predicate QueuedAt(lines: seq<Line>, i: nat, insts: seq<Inst>)
  {
    i < |lines| && Retirements(lines[..i]) < |insts| && RetiresAt(lines, i, insts[Retirements(lines[..i])])
  }

  /** What the main loop remembers after some lines. */
  function Remembered(lines: seq<Line>, cur: Inst): Inst
  {
    if lines == [] then cur else Next(Remembered(lines[..|lines| - 1], cur), lines[|lines| - 1])
  }

  function Next(cur: Inst, l: Line): Inst
  {
    match l
    case Fetch(tick, sn, text) => Inst(sn, tick, cur.retire, text)
    case Retire(tick) => Retired(cur, tick)
    case _ => cur
  }

  lemma {:induction false} RememberedFirst(lines: seq<Line>, cur: Inst)
    requires lines != []
    ensures Remembered(lines, cur) == Remembered(lines[1..], Next(cur, lines[0]))
  {
    if |lines| > 1 {
      var init := lines[..|lines| - 1];
      RememberedFirst(init, cur);
      assert init[1..] == lines[1..][..|lines| - 2];
    }
  }

  lemma {:induction false} RetirementsNext(lines: seq<Line>, i: nat)
    requires i < |lines|
    ensures Retirements(lines[..i + 1]) == Retirements(lines[..i]) + if lines[i].Retire? then 1 else 0
  {
    if i == 0 {
      assert lines[..1] == [lines[0]] && lines[..1][1..] == [] && lines[..0] == [];
    } else {
      RetirementsNext(lines[1..], i - 1);
      assert lines[..i + 1][1..] == lines[1..][..i] && lines[..i][1..] == lines[1..][..i - 1];
    }
  }

  lemma {:induction false} SquashesNext(lines: seq<Line>, f: nat, i: nat)
    requires f <= i < |lines|
    ensures Squashes(lines[f..i + 1]) == Squashes(lines[f..i]) + if lines[i] == Retire(0) then 1 else 0
  {
    assert lines[f..i + 1][..i - f] == lines[f..i];
  }

  /** After the fetch at `f` and until the next one, its sequence number, tick and text are remembered. */
  lemma {:induction false} RememberedIs(lines: seq<Line>, cur: Inst, i: nat, f: nat)
    requires FetchedAt(lines, i, f)
    ensures var x := Remembered(lines[..i], cur);
            x.sn == lines[f].sn && x.fetch == lines[f].tick && x.text == Marked(Squashes(lines[f..i]), lines[f].text)
  {
    assert lines[..i][..i - 1] == lines[..i - 1] && lines[..i][i - 1] == lines[i - 1];
    SquashesNext(lines, f, i - 1);
    if f == i - 1 {
      assert lines[f..f] == [];
    } else {
      RememberedIs(lines, cur, i - 1, f);
    }
  }

  lemma {:induction false} LastFetch(lines: seq<Line>, i: nat) returns (f: nat)
    requires i <= |lines| && exists k :: 0 <= k < i && lines[k].Fetch?
    ensures FetchedAt(lines, i, f)
  {
    if lines[i - 1].Fetch? {
      f := i - 1;
    } else {
      f := LastFetch(lines, i - 1);
    }
  }

  /** No fetch among the first `e` lines is beyond the stopping point. */
  ghost predicate Before(lines: seq<Line>, stop: StopAt, e: nat)
  {
    e <= |lines| && forall j :: 0 <= j < e && lines[j].Fetch? ==> !Beyond(stop, lines[j].tick, lines[j].sn)
  }

  lemma {:induction false} CollectAt(lines: seq<Line>, cur: Inst, stop: StopAt, i: nat)
    requires i < |lines| && lines[i].Retire? && Before(lines, stop, i)
    ensures var insts, k := Collect(lines, cur, stop).0, Retirements(lines[..i]);
            k < |insts| && insts[k] == Remembered(lines[..i + 1], cur)
  {
    RememberedFirst(lines[..i + 1], cur);
    assert lines[..i + 1][0] == lines[0] && lines[..i + 1][1..] == lines[1..][..i];
    if i == 0 {
      assert lines[1..][..0] == [];
    } else {
      assert lines[..i][0] == lines[0] && lines[..i][1..] == lines[1..][..i - 1];
      CollectAt(lines[1..], Next(cur, lines[0]), stop, i - 1);
    }
  }

  lemma {:induction false} CollectLength(lines: seq<Line>, cur: Inst, stop: StopAt, e: nat)
    requires Before(lines, stop, e)
    requires e < |lines| ==> lines[e].Fetch? && Beyond(stop, lines[e].tick, lines[e].sn)
    ensures var (insts, stopped) := Collect(lines, cur, stop);
            |insts| == Retirements(lines[..e]) && stopped == (e < |lines|)
  {
    if e > 0 {
      assert lines[..e][0] == lines[0] && lines[..e][1..] == lines[1..][..e - 1];
      CollectLength(lines[1..], Next(cur, lines[0]), stop, e - 1);
    }
  }

  lemma QueuedHere(lines: seq<Line>, cur: Inst, stop: StopAt, i: nat)
    requires i < |lines| && lines[i].Retire? && Before(lines, stop, i) && lines[0].Fetch?
    ensures QueuedAt(lines, i, Collect(lines, cur, stop).0)
  {
    CollectAt(lines, cur, stop, i);
    var f := LastFetch(lines, i);
    RememberedIs(lines, cur, i + 1, f);
    assert lines[..i + 1][..i] == lines[..i];
    var x := Remembered(lines[..i + 1], cur);
    assert x.retire == lines[i].tick;
    assert FetchIs(lines, i, f, x);
  }

  lemma PastIff(f: Filter, drift: nat, max: nat, l: Line)
    ensures Past(f, drift, max, l) <==> l.Fetch? && Beyond(Stop(f, drift, max), l.tick, l.sn)
  {
  }

  /** From a fetch on, exactly the instructions that retire before the first fetch beyond the stopping point are
      queued, in the order of their retirement; the loop stops there if there is such a fetch. */
  lemma CollectIs(lines: seq<Line>, f: Filter, drift: nat, max: nat, e: nat)
    requires EndsAt(lines, f, drift, max, e) && (lines != [] ==> lines[0].Fetch?)
    ensures var (insts, stopped) := Collect(lines, NOTHING, Stop(f, drift, max));
            Queued(lines, e, insts) && stopped == (e < |lines|)
  {
    var stop := Stop(f, drift, max);
    forall j | 0 <= j < |lines|
      ensures Past(f, drift, max, lines[j]) <==> lines[j].Fetch? && Beyond(stop, lines[j].tick, lines[j].sn)
    {
      PastIff(f, drift, max, lines[j]);
    }
    CollectLength(lines, NOTHING, stop, e);
    var insts := Collect(lines, NOTHING, stop).0;
    forall i | 0 <= i < e && lines[i].Retire?
      ensures QueuedAt(lines, i, insts)
    {
      QueuedHere(lines, NOTHING, stop, i);
    }
  }

  /** The viewer looks at `e` lines from line `s` on. */
  ghost predicate Window(lines: seq<Line>, f: Filter, drift: nat, max: nat, s: nat, e: nat)
  {
    StartsAt(lines, f, s) && EndsAt(lines[s..], f, drift, max, e)
  }

  lemma {:induction false} FirstPast(lines: seq<Line>, f: Filter, drift: nat, max: nat) returns (e: nat)
    ensures EndsAt(lines, f, drift, max, e)
  {
    if lines == [] || Past(f, drift, max, lines[0]) {
      e := 0;
    } else {
      var rest := FirstPast(lines[1..], f, drift, max);
      e := rest + 1;
      assert forall k :: 1 <= k < |lines| ==> lines[k] == lines[1..][k - 1];
    }
  }

  lemma WindowIs(lines: seq<Line>, f: Filter, drift: nat, max: nat)
    ensures var (insts, stopped) := Collect(FromStart(lines, f), NOTHING, Stop(f, drift, max));
            exists s: nat, e: nat :: Window(lines, f, drift, max, s, e) && Queued(lines[s..], e, insts)
                           && stopped == (s + e < |lines|)
  {
    var s := FromStartIs(lines, f);
    var e := FirstPast(lines[s..], f, drift, max);
    assert s < |lines| ==> lines[s..][0] == lines[s];
    CollectIs(lines[s..], f, drift, max, e);
    assert Window(lines, f, drift, max, s, e);
  }

  /** An instruction that retires once is marked exactly when it retires at tick 0. */
  lemma FirstRetirementMark(lines: seq<Line>, i: nat, f: nat, x: Inst)
    requires FetchedAt(lines, i, f) && i < |lines| && lines[i].Retire? && FetchIs(lines, i, f, x)
    requires forall j :: f < j < i ==> !lines[j].Retire?
    ensures x.text == if lines[i].tick == 0 then "-----" + lines[f].text else lines[f].text
  {
    SquashesNext(lines, f, i);
    NoSquash(lines, f, i);
    assert lines[i] == Retire(0) <==> lines[i].tick == 0;
    assert Marked(0, lines[f].text) == lines[f].text;
  }

  lemma {:induction false} NoSquash(lines: seq<Line>, f: nat, i: nat)
    requires f <= i <= |lines| && forall j :: f <= j < i ==> !lines[j].Retire?
    ensures Squashes(lines[f..i]) == 0
  {
    if f < i {
      SquashesNext(lines, f, i - 1);
      NoSquash(lines, f, i - 1);
    } else {
      assert lines[f..i] == [];
    }
  }

  // ---------------------------------------------------------------- how much disorder is repaired

  /** Instructions that arrive inverted are at most `m` places apart. */
  ghost predicate Bounded(trace: seq<Inst>, m: nat)
  {
    forall i, j :: 0 <= i < j < |trace| && trace[i].sn > trace[j].sn ==> j - i <= m
  }

  function CountAbove(s: seq<Inst>, v: int): nat
  {
    if s == [] then 0
    else CountAbove(s[..|s| - 1], v) + if s[|s| - 1].sn > v then 1 else 0
  }

  lemma {:induction false} InsertCount(s: seq<Inst>, x: Inst, v: int)
    ensures CountAbove(Insert(s, x), v) == CountAbove(s, v) + if x.sn > v then 1 else 0
  {
    if s == [] || s[|s| - 1].sn <= x.sn {
      assert (s + [x])[..|s|] == s;
    } else {
      var init, last := s[..|s| - 1], s[|s| - 1];
      InsertCount(init, x, v);
      assert (Insert(init, x) + [last])[..|s|] == Insert(init, x);
    }
  }

  lemma {:induction false} SortCount(s: seq<Inst>, v: int)
    ensures CountAbove(StableSort(s), v) == CountAbove(s, v)
  {
    if s != [] {
      SortCount(s[..|s| - 1], v);
      InsertCount(StableSort(s[..|s| - 1]), s[|s| - 1], v);
    }
  }

  /** At most the last `m` places can be above `v`. */
  lemma {:induction false} CountAtMost(s: seq<Inst>, v: int, m: nat)
    requires forall i :: 0 <= i < |s| && s[i].sn > v ==> |s| - i <= m
    ensures CountAbove(s, v) <= m
  {
    if s != [] {
      if m == 0 {
        CountAtMost(s[..|s| - 1], v, 0);
      } else {
        CountAtMost(s[..|s| - 1], v, m - 1);
      }
    }
  }

  lemma {:induction false} CountAtLeast(s: seq<Inst>, v: int, t: nat)
    requires Sorted(s) && t < |s| && s[t].sn > v
    ensures CountAbove(s, v) >= |s| - t
  {
    if t < |s| - 1 {
      CountAtLeast(s[..|s| - 1], v, t);
    }
  }

  /** If at least `m` instructions wait behind those that have left the queue, the next arrival is not
      below any of the latter. */
  lemma NextIsNotBelow(trace: seq<Inst>, k: nat, m: nat, drained: seq<Inst>, queue: seq<Inst>, t: nat)
    requires Bounded(trace, m) && k < |trace| && t < |drained| && |queue| >= m
    requires StableSort(trace[..k]) == drained + StableSort(queue)
    ensures drained[t].sn <= trace[k].sn
  {
    var v, sorted := trace[k].sn, StableSort(trace[..k]);
    if drained[t].sn > v {
      SortIsSorted(trace[..k]);
      SortCount(trace[..k], v);
      CountAtMost(trace[..k], v, m);
      CountAtLeast(sorted, v, t);
      assert false;
    }
  }

  /** What has left the queue followed by the sorted queue is the sorted trace, and enough wait. */
  ghost predicate Sorting(b: Buffer, trace: seq<Inst>, min: nat)
  {
    StableSort(trace) == b.drained + StableSort(b.queue) && (b.drained != [] ==> |b.queue| >= min)
  }

  lemma ArrivalKeepsOrder(b: Buffer, trace: seq<Inst>, x: Inst)
    requires StableSort(trace) == b.drained + StableSort(b.queue)
    requires forall t :: 0 <= t < |b.drained| ==> b.drained[t].sn <= x.sn
    ensures StableSort(trace + [x]) == b.drained + StableSort(b.queue + [x])
  {
    assert (trace + [x])[..|trace|] == trace && (b.queue + [x])[..|b.queue|] == b.queue;
    InsertAfter(b.drained, StableSort(b.queue), x);
  }

  lemma EnqueueSorts(b: Buffer, trace: seq<Inst>, x: Inst, max: nat, min: nat)
    requires Sorting(b, trace, min)
    requires forall t :: 0 <= t < |b.drained| ==> b.drained[t].sn <= x.sn
    ensures Sorting(Enqueue(b, x, max, min), trace + [x], min)
  {
    var queued := b.(queue := b.queue + [x]);
    ArrivalKeepsOrder(b, trace, x);
    if |queued.queue| > max {
      DrainSorts(queued, trace + [x], min);
    } else {
      assert Enqueue(b, x, max, min) == queued;
    }
  }

  lemma DrainSorts(b: Buffer, trace: seq<Inst>, min: nat)
    requires StableSort(trace) == b.drained + StableSort(b.queue) && (b.drained != [] ==> |b.queue| >= min)
    ensures Sorting(Drain(b, min), trace, min)
  {
    DrainKeepsOrder(b, min);
  }

  lemma FeedNext(init: seq<Inst>, x: Inst, max: nat, min: nat)
    ensures Feed(init + [x], max, min) == Enqueue(Feed(init, max, min), x, max, min)
  {
    assert (init + [x])[..|init|] == init;
  }

  lemma NoneAbove(init: seq<Inst>, x: Inst, b: Buffer, min: nat)
    requires Bounded(init + [x], min) && Sorting(b, init, min)
    ensures forall t :: 0 <= t < |b.drained| ==> b.drained[t].sn <= x.sn
  {
    assert (init + [x])[..|init|] == init;
    forall t | 0 <= t < |b.drained|
      ensures b.drained[t].sn <= x.sn
    {
      NextIsNotBelow(init + [x], |init|, min, b.drained, b.queue, t);
    }
  }

  lemma {:induction false} FeedIsSorting(trace: seq<Inst>, max: nat, min: nat)
    requires Bounded(trace, min)
    ensures Sorting(Feed(trace, max, min), trace, min)
  {
    if trace != [] {
      var init, x := trace[..|trace| - 1], trace[|trace| - 1];
      assert trace == init + [x];
      FeedIsSorting(init, max, min);
      NoneAbove(init, x, Feed(init, max, min), min);
      EnqueueSorts(Feed(init, max, min), init, x, max, min);
      FeedNext(init, x, max, min);
    }
  }

  lemma SplitAt(a: seq<Inst>, s: seq<Inst>, n: nat)
    requires n <= |s|
    ensures (a + s[..n]) + s[n..] == a + s
  {
  }

  lemma SuffixSorted(s: seq<Inst>, n: nat)
    requires Sorted(s) && n <= |s|
    ensures StableSort(s[n..]) == s[n..]
  {
    SortOfSorted(s[n..]);
  }

  /** Draining moves a prefix of the sorted queue. */
  lemma DrainKeepsOrder(b: Buffer, lower: nat)
    ensures var d := Drain(b, lower);
            d.drained + StableSort(d.queue) == b.drained + StableSort(b.queue) == d.drained + d.queue
  {
    var n := Excess(|b.queue|, lower);
    SortIsSorted(b.queue);
    SuffixSorted(StableSort(b.queue), n);
    SplitAt(b.drained, StableSort(b.queue), n);
  }

  /** If inverted instructions are at most `min` places apart in the trace, everything leaves the queue
      exactly in the order of a stable sort of the whole trace. */
  lemma BoundedDisorderIsRepaired(trace: seq<Inst>, max: nat, min: nat)
    requires Bounded(trace, min)
    ensures Output(trace, max, min) == StableSort(trace)
  {
    FeedIsSorting(trace, max, min);
    DrainKeepsOrder(Feed(trace, max, min), 0);
  }

  /** What has left the queue and what is still in it. */
  ghost function Contents(b: Buffer): multiset<Inst> { multiset(b.drained + b.queue) }

  lemma SnocMultiset(init: seq<Inst>, x: Inst, trace: seq<Inst>)
    requires trace != [] && init == trace[..|trace| - 1] && x == trace[|trace| - 1]
    ensures multiset(trace) == multiset(init) + multiset{x}
  {
    assert trace == init + [x];
  }

  /** Whatever the disorder, every queued instruction leaves the queue exactly once. */
  lemma {:induction false} FeedConserves(trace: seq<Inst>, max: nat, min: nat)
    ensures Contents(Feed(trace, max, min)) == multiset(trace)
  {
    if trace != [] {
      var init, x := trace[..|trace| - 1], trace[|trace| - 1];
      FeedConserves(init, max, min);
      EnqueueConserves(Feed(init, max, min), x, max, min);
      SnocMultiset(init, x, trace);
    }
  }

  lemma EnqueueConserves(b: Buffer, x: Inst, max: nat, min: nat)
    ensures Contents(Enqueue(b, x, max, min)) == Contents(b) + multiset{x}
  {
    var queued := b.(queue := b.queue + [x]);
    assert b.drained + queued.queue == (b.drained + b.queue) + [x];
    DrainConserves(queued, min);
  }

  lemma DrainConserves(b: Buffer, lower: nat)
    ensures Contents(Drain(b, lower)) == Contents(b)
  {
    SortIsSorted(b.queue);
    SplitAt(b.drained, StableSort(b.queue), Excess(|b.queue|, lower));
  }

  lemma OutputIsPermutation(trace: seq<Inst>, max: nat, min: nat)
    ensures multiset(Output(trace, max, min)) == multiset(trace)
  {
    FeedConserves(trace, max, min);
    var b := Feed(trace, max, min);
    DrainConserves(b, 0);
    assert Drain(b, 0).drained + Drain(b, 0).queue == Output(trace, max, min);
  }

  lemma {:induction false} KeptMembers(f: Filter, s: seq<Inst>, x: Inst)
    ensures multiset(Kept(f, s))[x] == if Keep(f, x) then multiset(s)[x] else 0
  {
    if s != [] {
      KeptMembers(f, s[..|s| - 1], x);
      assert s == s[..|s| - 1] + [s[|s| - 1]];
    }
  }

  /** Filtering keeps the order, so the printed lines are in sequence order too. */
  lemma {:induction false} KeptSorted(f: Filter, s: seq<Inst>, bound: int)
    requires Sorted(s) && forall i :: 0 <= i < |s| ==> s[i].sn <= bound
    ensures Sorted(Kept(f, s)) && forall i :: 0 <= i < |Kept(f, s)| ==> Kept(f, s)[i].sn <= bound
  {
    if s != [] {
      KeptSorted(f, s[..|s| - 1], s[|s| - 1].sn);
    }
  }

  /** What is printed: every instruction of the trace once, unless its own filters drop it; and in
      sequence order whenever the disorder of the trace is within the threshold. */
  lemma PrintedLines(f: Filter, trace: seq<Inst>, max: nat, min: nat, x: Inst)
    ensures multiset(Kept(f, Output(trace, max, min)))[x] == if Keep(f, x) then multiset(trace)[x] else 0
    ensures Bounded(trace, min) ==>
      Kept(f, Output(trace, max, min)) == Kept(f, StableSort(trace)) && Sorted(Kept(f, Output(trace, max, min)))
  {
    OutputIsPermutation(trace, max, min);
    KeptMembers(f, Output(trace, max, min), x);
    if Bounded(trace, min) && trace != [] {
      BoundedDisorderIsRepaired(trace, max, min);
      SortIsSorted(trace);
      KeptSorted(f, StableSort(trace), StableSort(trace)[|trace| - 1].sn);
    }
  }

  // ---------------------------------------------------------------- the threshold is exact

  function Numbered(sn: int): Inst { Inst(sn, 0, 0, "") }

  function Counting(n: nat): (s: seq<Inst>)
    ensures |s| == n && forall i :: 0 <= i < n ==> s[i] == Numbered(i + 1)
  {
    if n == 0 then [] else Counting(n - 1) + [Numbered(n)]
  }

  /** The queue length that a drain needs to have any effect. */
  function Reach(max: nat, min: nat): nat { if max < min then min else max }

  lemma {:induction false} FeedShort(trace: seq<Inst>, max: nat, min: nat)
    requires |trace| <= Reach(max, min) && Sorted(trace)
    ensures Feed(trace, max, min) == Buffer([], trace)
  {
    if trace != [] {
      var init := trace[..|trace| - 1];
      FeedShort(init, max, min);
      assert init + [trace[|trace| - 1]] == trace;
      SortOfSorted(trace);
      assert trace[..0] == [] && [] + trace[..0] == [] && trace[0..] == trace;
    }
  }

  lemma CountingFeed(max: nat, min: nat)
    ensures var (first, n) := (Counting(Reach(max, min) + 1), Reach(max, min) + 1 - min);
            Feed(first, max, min) == Buffer(first[..n], first[n..])
  {
    SortedFeed(Counting(Reach(max, min) + 1), Reach(max, min), max, min);
  }

  lemma SortedFeed(first: seq<Inst>, e: nat, max: nat, min: nat)
    requires |first| == e + 1 && e == Reach(max, min) && Sorted(first)
    ensures Feed(first, max, min) == Buffer(first[..e + 1 - min], first[e + 1 - min..])
  {
    var init, x := first[..e], first[e];
    assert init + [x] == first;
    FeedShort(init, max, min);
    DrainSorted(first, e, max, min);
    FeedNext(init, x, max, min);
  }

  /** One more instruction than the queue can keep, in order. */
  lemma DrainSorted(first: seq<Inst>, e: nat, max: nat, min: nat)
    requires |first| == e + 1 && e == Reach(max, min) && Sorted(first)
    ensures Enqueue(Buffer([], first[..e]), first[e], max, min) == Buffer(first[..e + 1 - min], first[e + 1 - min..])
  {
    assert first[..e] + [first[e]] == first;
    SortOfSorted(first);
    DrainAll(first, e + 1 - min, min);
  }

  lemma DrainAll(queue: seq<Inst>, n: nat, min: nat)
    requires StableSort(queue) == queue && n == Excess(|queue|, min)
    ensures Drain(Buffer([], queue), min) == Buffer(queue[..n], queue[n..])
  {
    assert [] + queue[..n] == queue[..n];
  }

  /** What has left the queue stays the beginning of the output. */
  lemma OutputExtends(init: seq<Inst>, x: Inst, max: nat, min: nat)
    ensures Feed(init, max, min).drained <= Output(init + [x], max, min)
  {
    FeedNext(init, x, max, min);
  }

  lemma LateArrival(out: seq<Inst>, trace: seq<Inst>, n: nat, x: Inst)
    requires multiset(out) == multiset(trace) && n <= |trace| && n <= |out| && out[..n] == trace[..n]
    requires x in trace[n..]
    ensures exists k :: n <= k < |out| && out[k] == x
  {
    var head, late, rest := out[..n], out[n..], trace[n..];
    assert out == head + late && trace == head + rest;
    assert multiset(head + late) == multiset(head) + multiset(late);
    assert multiset(head + rest) == multiset(head) + multiset(rest);
    assert (multiset(head) + multiset(late))[x] == (multiset(head) + multiset(rest))[x];
    assert x in multiset(rest);
    assert x in multiset(late);
    var j :| 0 <= j < |out[n..]| && out[n..][j] == x;
    assert out[n + j] == x;
  }

  lemma CountingBounded(max: nat, min: nat)
    ensures Bounded(Counting(Reach(max, min) + 1) + [Numbered(Reach(max, min) - min)], min + 1)
  {
  }

  /** One place more is too much: for any thresholds there is a trace whose inverted instructions are at most
      `min + 1` places apart and that leaves the queue out of order. */
  lemma OnePlaceMoreIsTooMuch(max: nat, min: nat)
    ensures var trace := Counting(Reach(max, min) + 1) + [Numbered(Reach(max, min) - min)];
            Bounded(trace, min + 1) && !Sorted(Output(trace, max, min))
  {
    var e := Reach(max, min);
    CountingBounded(max, min);
    CountingFeed(max, min);
    LateOutput(Counting(e + 1), Numbered(e - min), e + 1 - min, max, min);
  }

  lemma LateOutput(first: seq<Inst>, x: Inst, n: nat, max: nat, min: nat)
    requires 0 < n <= |first| && Feed(first, max, min).drained == first[..n] && first[n - 1].sn > x.sn
    ensures !Sorted(Output(first + [x], max, min))
  {
    OutputExtends(first, x, max, min);
    OutputIsPermutation(first + [x], max, min);
    TooLate(Output(first + [x], max, min), first, n, x);
  }

  lemma TooLate(out: seq<Inst>, first: seq<Inst>, n: nat, x: Inst)
    requires 0 < n <= |first| && first[..n] <= out && multiset(out) == multiset(first + [x])
    requires first[n - 1].sn > x.sn
    ensures !Sorted(out)
  {
    var trace := first + [x];
    assert trace[..n] == first[..n] == out[..n];
    assert trace[n..][|first| - n] == x;
    LateArrival(out, trace, n, x);
    assert out[..n][n - 1] == first[..n][n - 1];
  }
}

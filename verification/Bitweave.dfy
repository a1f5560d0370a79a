/** The bit-sliced range query: lane k of word w of every slice row holds one bit of a value, slice 0
    the most significant. Two constants are compared with all values at once by operations on rows. */
module Bitweave {
  import opened Bits

  /** A DRAM row of words. */
  type Row = seq<Word>

  function RowAnd(a: Row, b: Row): (r: Row)
    requires |a| == |b|
    ensures |r| == |a|
  {
    seq(|a|, i requires 0 <= i < |a| => AndW(a[i], b[i]))
  }

  function RowOr(a: Row, b: Row): (r: Row)
    requires |a| == |b|
    ensures |r| == |a|
  {
    seq(|a|, i requires 0 <= i < |a| => OrW(a[i], b[i]))
  }

  function RowNot(a: Row): (r: Row)
    ensures |r| == |a|
  {
    seq(|a|, i requires 0 <= i < |a| => NotW(a[i]))
  }

  // ---------------------------------------------------------------- one lane

  /** The four mask bits of a lane. */
  datatype Lane = Lane(eq1: bool, eq2: bool, lt: bool, gt: bool)

  /** One slice on one lane: `v` is the value's bit, `t1` and `t2` the constants' bits. */
  function LaneStep(l: Lane, v: bool, t1: bool, t2: bool): Lane
  {
    Lane(l.eq1 && v == t1, l.eq2 && v == t2, l.lt || (l.eq2 && !v && t2), l.gt || (l.eq1 && v && !t1))
  }

  function LaneRun(l: Lane, v: seq<bool>, c1: seq<bool>, c2: seq<bool>): Lane
    requires |v| == |c1| == |c2|
  {
    if v == [] then l
    else
      var n := |v| - 1;
      LaneStep(LaneRun(l, v[..n], c1[..n], c2[..n]), v[n], c1[n], c2[n])
  }

  /** A number by its bits, most significant first. */
  function Value(bits: seq<bool>): nat
  {
    if bits == [] then 0
    else 2 * Value(bits[..|bits| - 1]) + if bits[|bits| - 1] then 1 else 0
  }

  lemma {:induction false} ValueInjective(a: seq<bool>, b: seq<bool>)
    requires |a| == |b| && Value(a) == Value(b)
    ensures a == b
  {
    if a != [] {
      var n := |a| - 1;
      ValueInjective(a[..n], b[..n]);
      assert a == a[..n] + [a[n]] && b == b[..n] + [b[n]];
    }
  }

  /** After the slices of a pass, a lane that was enabled has `gt` exactly when its value exceeds the first
      constant and `lt` exactly when it is below the second; other lanes have neither. */
  lemma {:induction false} LaneCompares(on: bool, v: seq<bool>, c1: seq<bool>, c2: seq<bool>)
    requires |v| == |c1| == |c2|
    ensures var l := LaneRun(Lane(on, on, false, false), v, c1, c2);
            && (l.gt <==> on && Value(v) > Value(c1)) && (l.lt <==> on && Value(v) < Value(c2))
            && (l.eq1 <==> on && Value(v) == Value(c1)) && (l.eq2 <==> on && Value(v) == Value(c2))
  {
    if v != [] {
      var n := |v| - 1;
      LaneCompares(on, v[..n], c1[..n], c2[..n]);
    }
  }

  /** A lane whose equality bits tell the truth is left alone by a whole pass. */
  lemma {:induction false} SettledLaneStays(l: Lane, v: seq<bool>, c1: seq<bool>, c2: seq<bool>)
    requires |v| == |c1| == |c2| && (l.eq1 ==> v == c1) && (l.eq2 ==> v == c2)
    ensures LaneRun(l, v, c1, c2) == l
  {
    if v != [] {
      var n := |v| - 1;
      SettledLaneStays(l, v[..n], c1[..n], c2[..n]);
    }
  }

  // ---------------------------------------------------------------- rows

  /** The mask rows that belong to one row of values. */
  datatype Masks = Masks(eq1: Row, eq2: Row, lt: Row, gt: Row)

  predicate Wide(m: Masks, n: nat) { |m.eq1| == |m.eq2| == |m.lt| == |m.gt| == n }

  /** The four cases of the query loop on one row. */
  function StepRow(m: Masks, vec: Row, t1: bool, t2: bool): (r: Masks)
    requires Wide(m, |vec|)
    ensures Wide(r, |vec|)
  {
    var neg := RowNot(vec);
    if !t1 && !t2 then
      Masks(RowAnd(m.eq1, neg), RowAnd(m.eq2, neg), m.lt, RowOr(m.gt, RowAnd(m.eq1, vec)))
    else if t1 && !t2 then
      Masks(RowAnd(m.eq1, vec), RowAnd(m.eq2, neg), m.lt, m.gt)
    else if !t1 && t2 then
      Masks(RowAnd(m.eq1, neg), RowAnd(m.eq2, vec), RowOr(m.lt, RowAnd(m.eq2, neg)), RowOr(m.gt, RowAnd(m.eq1, vec)))
    else
      Masks(RowAnd(m.eq1, vec), RowAnd(m.eq2, vec), RowOr(m.lt, RowAnd(m.eq2, neg)), m.gt)
  }

  ghost predicate AllWide(slices: seq<Row>, n: nat)
  {
    forall j :: 0 <= j < |slices| ==> |slices[j]| == n
  }

  function RunRow(m: Masks, slices: seq<Row>, c1: Word, c2: Word, width: nat): (r: Masks)
    requires Wide(m, width) && AllWide(slices, width)
    ensures Wide(r, width)
  {
    if slices == [] then m
    else
      var n := |slices| - 1;
      StepRow(RunRow(m, slices[..n], c1, c2, width), slices[n], Bit(c1, n), Bit(c2, n))
  }

  function LaneAt(m: Masks, w: nat, k: nat): Lane
    requires Wide(m, |m.eq1|) && w < |m.eq1|
  {
    Lane(Bit(m.eq1[w], k), Bit(m.eq2[w], k), Bit(m.lt[w], k), Bit(m.gt[w], k))
  }

  /** The row operations carry out LaneStep on every lane. */
  lemma StepRowLanes(m: Masks, vec: Row, t1: bool, t2: bool, w: nat, k: nat)
    requires Wide(m, |vec|) && w < |vec| && k < 32
    ensures LaneAt(StepRow(m, vec, t1, t2), w, k) == LaneStep(LaneAt(m, w, k), Bit(vec[w], k), t1, t2)
  {
    var v, neg := vec[w], NotW(vec[w]);
    Lanes(v, v, k);
    Lanes(m.eq1[w], v, k);
    Lanes(m.eq1[w], neg, k);
    Lanes(m.eq2[w], v, k);
    Lanes(m.eq2[w], neg, k);
    Lanes(m.gt[w], AndW(m.eq1[w], v), k);
    Lanes(m.lt[w], AndW(m.eq2[w], neg), k);
  }

  /** The bits of the value in lane (w, k), and the bits of a constant that the query uses. */
  function LaneBits(slices: seq<Row>, w: nat, k: nat): (s: seq<bool>)
    requires forall j :: 0 <= j < |slices| ==> w < |slices[j]|
    ensures |s| == |slices|
  {
    seq(|slices|, j requires 0 <= j < |slices| => Bit(slices[j][w], k))
  }

  function ConstBits(c: Word, n: nat): (s: seq<bool>)
    ensures |s| == n
  {
    seq(n, j requires 0 <= j < n => Bit(c, j))
  }

  lemma LaneRunNext(l: Lane, slices: seq<Row>, c1: Word, c2: Word, w: nat, k: nat, n: nat)
    requires n < |slices| && forall j :: 0 <= j < |slices| ==> w < |slices[j]|
    ensures LaneRun(l, LaneBits(slices[..n + 1], w, k), ConstBits(c1, n + 1), ConstBits(c2, n + 1))
            == LaneStep(LaneRun(l, LaneBits(slices[..n], w, k), ConstBits(c1, n), ConstBits(c2, n)),
                        Bit(slices[n][w], k), Bit(c1, n), Bit(c2, n))
  {
    assert LaneBits(slices[..n + 1], w, k)[..n] == LaneBits(slices[..n], w, k);
    assert ConstBits(c1, n + 1)[..n] == ConstBits(c1, n) && ConstBits(c2, n + 1)[..n] == ConstBits(c2, n);
  }

  lemma {:induction false} RunRowLanes(m: Masks, slices: seq<Row>, c1: Word, c2: Word, width: nat, w: nat, k: nat)
    requires Wide(m, width) && AllWide(slices, width) && w < width && k < 32
    ensures var n := |slices|;
            LaneAt(RunRow(m, slices, c1, c2, width), w, k)
            == LaneRun(LaneAt(m, w, k), LaneBits(slices, w, k), ConstBits(c1, n), ConstBits(c2, n))
  {
    if slices != [] {
      var n := |slices| - 1;
      assert slices[..n + 1] == slices;
      RunRowLanes(m, slices[..n], c1, c2, width, w, k);
      StepRowLanes(RunRow(m, slices[..n], c1, c2, width), slices[n], Bit(c1, n), Bit(c2, n), w, k);
      LaneRunNext(LaneAt(m, w, k), slices, c1, c2, w, k, n);
    }
  }

  // ---------------------------------------------------------------- the query

  function Zeros(n: nat): Row { seq(n, _ => 0) }

  /** The masks before the query, with the lanes of `enabled` switched on. */
  function Start(enabled: Row): (m: Masks)
    ensures Wide(m, |enabled|)
  {
    Masks(enabled, enabled, Zeros(|enabled|), Zeros(|enabled|))
  }

  /** The value in lane (w, k), and a constant as the query reads it: its bit 0 is the most significant. */
  function LaneValue(slices: seq<Row>, w: nat, k: nat): nat
    requires forall j :: 0 <= j < |slices| ==> w < |slices[j]|
  {
    Value(LaneBits(slices, w, k))
  }

  function ConstValue(c: Word, n: nat): nat { Value(ConstBits(c, n)) }

  /** Every lane that is enabled ends with `gt` set iff its value exceeds c1 and `lt` set iff it is below c2. */
  lemma QueryCompares(enabled: Row, slices: seq<Row>, c1: Word, c2: Word, w: nat, k: nat)
    requires AllWide(slices, |enabled|) && w < |enabled| && k < 32
    ensures var m := RunRow(Start(enabled), slices, c1, c2, |enabled|);
            var (on, v) := (Bit(enabled[w], k), LaneValue(slices, w, k));
            && (Bit(m.gt[w], k) <==> on && v > ConstValue(c1, |slices|))
            && (Bit(m.lt[w], k) <==> on && v < ConstValue(c2, |slices|))
            && (Bit(m.eq1[w], k) <==> on && v == ConstValue(c1, |slices|))
            && (Bit(m.eq2[w], k) <==> on && v == ConstValue(c2, |slices|))
  {
    RunRowLanes(Start(enabled), slices, c1, c2, |enabled|, w, k);
    BitZero(k);
    LaneCompares(Bit(enabled[w], k), LaneBits(slices, w, k), ConstBits(c1, |slices|), ConstBits(c2, |slices|));
    assert LaneAt(Start(enabled), w, k) == Lane(Bit(enabled[w], k), Bit(enabled[w], k), false, false);
  }

  lemma SecondPassLane(enabled: Row, slices: seq<Row>, c1: Word, c2: Word, w: nat, k: nat)
    requires AllWide(slices, |enabled|) && w < |enabled| && k < 32
    ensures var m := RunRow(Start(enabled), slices, c1, c2, |enabled|);
            LaneAt(RunRow(m, slices, c1, c2, |enabled|), w, k) == LaneAt(m, w, k)
  {
    var n, v := |slices|, LaneBits(slices, w, k);
    var m := RunRow(Start(enabled), slices, c1, c2, |enabled|);
    QueryCompares(enabled, slices, c1, c2, w, k);
    if Bit(m.eq1[w], k) {
      ValueInjective(v, ConstBits(c1, n));
    }
    if Bit(m.eq2[w], k) {
      ValueInjective(v, ConstBits(c2, n));
    }
    RunRowLanes(m, slices, c1, c2, |enabled|, w, k);
    SettledLaneStays(LaneAt(m, w, k), v, ConstBits(c1, n), ConstBits(c2, n));
  }

  lemma SameRows(a: Row, b: Row)
    requires |a| == |b| && forall w, k :: 0 <= w < |a| && 0 <= k < 32 ==> Bit(a[w], k) == Bit(b[w], k)
    ensures a == b
  {
    forall w | 0 <= w < |a|
      ensures a[w] == b[w]
    {
      SameLanes(a[w], b[w]);
    }
  }

  lemma SameMasks(a: Masks, b: Masks, n: nat)
    requires Wide(a, n) && Wide(b, n)
    requires forall w, k :: 0 <= w < n && 0 <= k < 32 ==> LaneAt(a, w, k) == LaneAt(b, w, k)
    ensures a == b
  {
    forall w, k | 0 <= w < n && 0 <= k < 32
      ensures Bit(a.eq1[w], k) == Bit(b.eq1[w], k) && Bit(a.eq2[w], k) == Bit(b.eq2[w], k)
      ensures Bit(a.lt[w], k) == Bit(b.lt[w], k) && Bit(a.gt[w], k) == Bit(b.gt[w], k)
    {
      assert LaneAt(a, w, k) == LaneAt(b, w, k);
    }
    SameRows(a.eq1, b.eq1);
    SameRows(a.eq2, b.eq2);
    SameRows(a.lt, b.lt);
    SameRows(a.gt, b.gt);
  }

  /** A second pass over the same slices, from masks that were not reset, changes nothing. */
  lemma SecondPassIsIdle(enabled: Row, slices: seq<Row>, c1: Word, c2: Word)
    requires AllWide(slices, |enabled|)
    ensures var m := RunRow(Start(enabled), slices, c1, c2, |enabled|);
            RunRow(m, slices, c1, c2, |enabled|) == m
  {
    var m := RunRow(Start(enabled), slices, c1, c2, |enabled|);
    var again := RunRow(m, slices, c1, c2, |enabled|);
    forall w, k | 0 <= w < |enabled| && 0 <= k < 32
      ensures LaneAt(again, w, k) == LaneAt(m, w, k)
    {
      SecondPassLane(enabled, slices, c1, c2, w, k);
    }
    SameMasks(again, m, |enabled|);
  }
}

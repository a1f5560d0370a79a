/** The vector form of the query. Its output vectors share memory with its input vectors, and it adds to the
    result after every slice, not after the last one. */
module BitweaveBaseline {
  import opened Arith
  import opened Bits
  import opened Bitweave
  import opened BitweaveQuery

  function RowXor(a: Row, b: Row): (r: Row)
    requires |a| == |b|
    ensures |r| == |a|
  {
    seq(|a|, i requires 0 <= i < |a| => XorW(a[i], b[i]))
  }

  /** A constant's bit spread over a vector. */
  function Spread(t: bool, n: nat): (r: Row)
    ensures |r| == n
  {
    if t then AllOnes(n) else Zeros(n)
  }

  /** The general formula for one slice; a1 and a2 are the constants' bits spread over vectors. */
  function StepGeneral(m: Masks, vec: Row, a1: Row, a2: Row): (r: Masks)
    requires Wide(m, |vec|) && |a1| == |a2| == |vec|
    ensures Wide(r, |vec|)
  {
    Masks(RowAnd(m.eq1, RowNot(RowXor(vec, a1))),
          RowAnd(m.eq2, RowNot(RowXor(vec, a2))),
          RowOr(m.lt, RowAnd(RowAnd(m.eq2, a2), RowNot(vec))),
          RowOr(m.gt, RowAnd(RowAnd(m.eq1, RowNot(a1)), vec)))
  }

  lemma SpreadBit(t: bool, n: nat, w: nat, k: nat)
    requires w < n && k < 32
    ensures Bit(Spread(t, n)[w], k) == t
  {
    BitZero(k);
    AllOnesBit(k);
  }

  lemma GreaterLane(e: Word, v: Word, a: Word, m: Word, k: nat)
    requires k < 32
    ensures Bit(OrW(m, AndW(AndW(e, NotW(a)), v)), k) <==> Bit(m, k) || (Bit(e, k) && !Bit(a, k) && Bit(v, k))
    ensures Bit(OrW(m, AndW(AndW(e, a), NotW(v))), k) <==> Bit(m, k) || (Bit(e, k) && Bit(a, k) && !Bit(v, k))
  {
    Lanes(m, AndW(AndW(e, NotW(a)), v), k);
    Lanes(AndW(e, NotW(a)), v, k);
    Lanes(e, NotW(a), k);
    Lanes(a, a, k);
    Lanes(m, AndW(AndW(e, a), NotW(v)), k);
    Lanes(AndW(e, a), NotW(v), k);
    Lanes(e, a, k);
    Lanes(v, v, k);
  }

  lemma EqualLane(e: Word, v: Word, a: Word, k: nat)
    requires k < 32
    ensures Bit(AndW(e, NotW(XorW(v, a))), k) <==> Bit(e, k) && Bit(v, k) == Bit(a, k)
  {
    Lanes(e, NotW(XorW(v, a)), k);
    Lanes(XorW(v, a), 0, k);
    Lanes(v, a, k);
  }

  lemma GeneralLanes(m: Masks, vec: Row, t1: bool, t2: bool, w: nat, k: nat)
    requires Wide(m, |vec|) && w < |vec| && k < 32
    ensures LaneAt(StepGeneral(m, vec, Spread(t1, |vec|), Spread(t2, |vec|)), w, k)
            == LaneStep(LaneAt(m, w, k), Bit(vec[w], k), t1, t2)
  {
    var a1, a2 := Spread(t1, |vec|), Spread(t2, |vec|);
    SpreadBit(t1, |vec|, w, k);
    SpreadBit(t2, |vec|, w, k);
    EqualLane(m.eq1[w], vec[w], a1[w], k);
    EqualLane(m.eq2[w], vec[w], a2[w], k);
    GreaterLane(m.eq1[w], vec[w], a1[w], m.gt[w], k);
    GreaterLane(m.eq2[w], vec[w], a2[w], m.lt[w], k);
  }

  /** With the constants spread out, the general formula is the four-case step of the row program. */
  lemma GeneralIsFourCases(m: Masks, vec: Row, t1: bool, t2: bool)
    requires Wide(m, |vec|)
    ensures StepGeneral(m, vec, Spread(t1, |vec|), Spread(t2, |vec|)) == StepRow(m, vec, t1, t2)
  {
    var a, b := StepGeneral(m, vec, Spread(t1, |vec|), Spread(t2, |vec|)), StepRow(m, vec, t1, t2);
    forall w, k | 0 <= w < |vec| && 0 <= k < 32
      ensures LaneAt(a, w, k) == LaneAt(b, w, k)
    {
      GeneralLanes(m, vec, t1, t2, w, k);
      StepRowLanes(m, vec, t1, t2, w, k);
    }
    SameMasks(a, b, |vec|);
  }

  // ---------------------------------------------------------------- the program

  /** The masks of a block after its first n slices, all lanes enabled. */
  ghost function Block(block: seq<Row>, c1: Word, c2: Word, width: nat, n: nat): (m: Masks)
    requires AllWide(block, width) && n <= |block|
    ensures Wide(m, width)
  {
    RunRow(Start(AllOnes(width)), block[..n], c1, c2, width)
  }

  lemma BlockNext(block: seq<Row>, c1: Word, c2: Word, width: nat, n: nat)
    requires AllWide(block, width) && n < |block|
    ensures Block(block, c1, c2, width, n + 1)
            == StepGeneral(Block(block, c1, c2, width, n), block[n], Spread(Bit(c1, n), width), Spread(Bit(c2, n), width))
  {
    assert block[..n + 1][..n] == block[..n];
    GeneralIsFourCases(Block(block, c1, c2, width, n), block[n], Bit(c1, n), Bit(c2, n));
  }

  /** The hit mask of a block after its first n slices. */
  ghost function Mask(block: seq<Row>, c1: Word, c2: Word, width: nat, n: nat): (r: Row)
    requires AllWide(block, width) && n <= |block|
    ensures |r| == width
  {
    var m := Block(block, c1, c2, width, n);
    RowAnd(m.gt, m.lt)
  }

  ghost function Hits(block: seq<Row>, c1: Word, c2: Word, width: nat, n: nat): nat
    requires AllWide(block, width) && n <= |block|
  {
    RowHits(AllOnes(width), block[..n], c1, c2, width)
  }

  lemma BlockCount(block: seq<Row>, c1: Word, c2: Word, width: nat, n: nat)
    requires AllWide(block, width) && n <= |block|
    ensures RowSum(Mask(block, c1, c2, width, n), width) == Hits(block, c1, c2, width, n)
  {
    var m := Block(block, c1, c2, width, n);
    RowCount(AllOnes(width), block[..n], c1, c2);
    AndCommutes(m.gt, m.lt);
  }

  lemma AndCommutes(a: Row, b: Row)
    requires |a| == |b|
    ensures RowAnd(a, b) == RowAnd(b, a)
  {
    forall w, k | 0 <= w < |a| && 0 <= k < 32
      ensures Bit(RowAnd(a, b)[w], k) == Bit(RowAnd(b, a)[w], k)
    {
      Lanes(a[w], b[w], k);
      Lanes(b[w], a[w], k);
    }
    SameRows(RowAnd(a, b), RowAnd(b, a));
  }

  /** What the program adds up for a block: the hits of every prefix of its slices. */
  ghost function Added(block: seq<Row>, c1: Word, c2: Word, width: nat, n: nat): nat
    requires AllWide(block, width) && n <= |block|
  {
    if n == 0 then 0 else Added(block, c1, c2, width, n - 1) + Hits(block, c1, c2, width, n)
  }

  ghost function BlockAt(data: seq<Row>, length: nat, i: nat): (b: seq<Row>)
    requires i * length + length <= |data|
    ensures |b| == length
  {
    data[i * length..i * length + length]
  }

  lemma BlockInside(length: nat, blocks: nat, i: nat)
    requires i < blocks
    ensures i * length + length <= blocks * length && (length > 0 ==> i <= i * length)
  {
    MulMonotone(i + 1, blocks, length);
    if length > 0 {
      MulMonotone(1, length, i);
    }
  }

  ghost function TotalAdded(data: seq<Row>, c1: Word, c2: Word, width: nat, length: nat, blocks: nat, n: nat): nat
    requires |data| == blocks * length && AllWide(data, width) && n <= blocks
  {
    if n == 0 then 0
    else
      BlockInside(length, blocks, n - 1);
      TotalAdded(data, c1, c2, width, length, blocks, n - 1) + Added(BlockAt(data, length, n - 1), c1, c2, width, length)
  }

  /** One slice of a block: the new masks and the hit mask so far. */
  method QuerySlice(m: Masks, vec: Row, c1: Word, c2: Word, width: nat, ghost block: seq<Row>, j: nat)
    returns (next: Masks, mask: Row)
    requires AllWide(block, width) && j < |block| && vec == block[j] && m == Block(block, c1, c2, width, j)
    ensures next == Block(block, c1, c2, width, j + 1) && mask == Mask(block, c1, c2, width, j + 1)
  {
    BlockNext(block, c1, c2, width, j);
    next := StepGeneral(m, vec, Spread(Bit(c1, j), width), Spread(Bit(c2, j), width));
    mask := RowAnd(next.gt, next.lt);
  }

  method CountMask(mask: Row, ghost block: seq<Row>, c1: Word, c2: Word, width: nat, n: nat) returns (count: nat)
    requires AllWide(block, width) && n <= |block| && mask == Mask(block, c1, c2, width, n)
    ensures count == Hits(block, c1, c2, width, n)
  {
    count := SumRow(mask);
    BlockCount(block, c1, c2, width, n);
  }

  /** The inner loop on one block: it reads the block's vectors and writes vector i, which may be the first of them. */
  method QueryBlock(vals: array<Row>, c1: Word, c2: Word, width: nat, start: nat, length: nat, i: nat) returns (sum: nat)
    requires start + length <= vals.Length && AllWide(vals[..][start..start + length], width)
    requires length > 0 ==> i <= start
    modifies vals
    ensures sum == Added(old(vals[..])[start..start + length], c1, c2, width, length)
    ensures length > 0 ==> vals[i] == Mask(old(vals[..])[start..start + length], c1, c2, width, length)
    ensures forall p :: 0 <= p < vals.Length && p != i ==> vals[p] == old(vals[p])
  {
    ghost var b := vals[..][start..start + length];
    var m := Start(AllOnes(width));
    sum := 0;
    for j := 0 to length
      invariant m == Block(b, c1, c2, width, j) && sum == Added(b, c1, c2, width, j)
      invariant forall p :: 0 <= p < vals.Length && (p != i || j == 0) ==> vals[p] == old(vals[p])
      invariant j > 0 ==> vals[i] == Mask(b, c1, c2, width, j)
    {
      var vec := vals[start + j];
      assert vec == b[j];
      var mask;
      m, mask := QuerySlice(m, vec, c1, c2, width, b, j);
      vals[i] := mask;
      var s := CountMask(vals[i], b, c1, c2, width, j + 1);
      sum := sum + s;
    }
  }

  /** Vector i of `now` is the hit mask of block i of `data`. */
  ghost predicate Written(now: seq<Row>, data: seq<Row>, c1: Word, c2: Word, width: nat, length: nat, blocks: nat, i: nat)
    requires |now| == |data| == blocks * length && AllWide(data, width) && length > 0 && i < blocks
  {
    BlockInside(length, blocks, i);
    now[i] == Mask(BlockAt(data, length, i), c1, c2, width, length)
  }

  ghost predicate WrittenTo(now: seq<Row>, data: seq<Row>, c1: Word, c2: Word, width: nat, length: nat, blocks: nat, n: nat)
    requires |now| == |data| == blocks * length && AllWide(data, width) && length > 0 && n <= blocks
  {
    forall i :: 0 <= i < n ==> Written(now, data, c1, c2, width, length, blocks, i)
  }

  /** The state before block i: the blocks to come hold the original data, the earlier outputs are written. */
  ghost predicate Progress(now: seq<Row>, data: seq<Row>, c1: Word, c2: Word, width: nat, length: nat, blocks: nat, i: nat)
    requires |data| == blocks * length && AllWide(data, width) && i <= blocks
  {
    && |now| == |data|
    && (forall p :: i <= p < |now| ==> now[p] == data[p])
    && (length > 0 ==> WrittenTo(now, data, c1, c2, width, length, blocks, i))
  }

  lemma BlockIsOriginal(now: seq<Row>, data: seq<Row>, c1: Word, c2: Word, width: nat, length: nat, blocks: nat,
                        i: nat, start: nat)
    requires |data| == blocks * length && AllWide(data, width) && i < blocks && start == i * length
    requires Progress(now, data, c1, c2, width, length, blocks, i)
    ensures start + length <= |now| == |data| && (length > 0 ==> i <= start)
    ensures now[start..start + length] == data[start..start + length]
    ensures AllWide(now[start..start + length], width)
  {
    BlockInside(length, blocks, i);
  }

  ghost predicate Changed(now: seq<Row>, next: seq<Row>, i: nat)
  {
    |next| == |now| && forall p :: 0 <= p < |now| && p != i ==> next[p] == now[p]
  }

  lemma BlockDone(now: seq<Row>, next: seq<Row>, data: seq<Row>, c1: Word, c2: Word, width: nat,
                  length: nat, blocks: nat, i: nat, block: seq<Row>)
    requires |data| == blocks * length && AllWide(data, width) && i < blocks
    requires Progress(now, data, c1, c2, width, length, blocks, i) && Changed(now, next, i)
    requires i * length + length <= |data| && block == BlockAt(data, length, i) && AllWide(block, width)
    requires length > 0 ==> i < |now| && next[i] == Mask(block, c1, c2, width, length)
    ensures Progress(next, data, c1, c2, width, length, blocks, i + 1)
    ensures TotalAdded(data, c1, c2, width, length, blocks, i + 1)
            == TotalAdded(data, c1, c2, width, length, blocks, i) + Added(block, c1, c2, width, length)
  {
    if length > 0 {
      forall q | 0 <= q < i + 1
        ensures Written(next, data, c1, c2, width, length, blocks, q)
      {
        BlockInside(length, blocks, q);
        assert q < i ==> Written(now, data, c1, c2, width, length, blocks, q);
      }
    }
  }

  /** The outer loop's body on block i. */
  method QueryNext(vals: array<Row>, c1: Word, c2: Word, width: nat, length: nat, blocks: nat, i: nat,
                   ghost data: seq<Row>) returns (sum: nat)
    requires |data| == blocks * length && AllWide(data, width) && i < blocks
    requires Progress(vals[..], data, c1, c2, width, length, blocks, i)
    modifies vals
    ensures Progress(vals[..], data, c1, c2, width, length, blocks, i + 1)
    ensures TotalAdded(data, c1, c2, width, length, blocks, i + 1)
            == TotalAdded(data, c1, c2, width, length, blocks, i) + sum
  {
    ghost var now := vals[..];
    var start := i * length;
    BlockIsOriginal(now, data, c1, c2, width, length, blocks, i, start);
    sum := QueryBlock(vals, c1, c2, width, start, length, i);
    assert Changed(now, vals[..], i);
    BlockDone(now, vals[..], data, c1, c2, width, length, blocks, i, data[start..start + length]);
  }

  /** One iteration of the query. Every vector it reads still holds the data the query started with; afterwards
      vector i holds the hit mask of block i and the vectors past the outputs are unchanged. */
  method Query(vals: array<Row>, c1: Word, c2: Word, width: nat, length: nat, blocks: nat) returns (result: nat)
    requires vals.Length == blocks * length && AllWide(vals[..], width)
    modifies vals
    ensures result == TotalAdded(old(vals[..]), c1, c2, width, length, blocks, blocks)
    ensures length > 0 ==> WrittenTo(vals[..], old(vals[..]), c1, c2, width, length, blocks, blocks)
    ensures forall p :: blocks <= p < vals.Length ==> vals[p] == old(vals[p])
  {
    ghost var data := vals[..];
    result := 0;
    for i := 0 to blocks
      invariant Progress(vals[..], data, c1, c2, width, length, blocks, i)
      invariant result == TotalAdded(data, c1, c2, width, length, blocks, i)
    {
      var s := QueryNext(vals, c1, c2, width, length, blocks, i, data);
      result := result + s;
    }
  }

  // ---------------------------------------------------------------- what the result counts

  /** A lane that is a hit on a prefix of the slices stays one. */
  lemma HitStays(block: seq<Row>, c1: Word, c2: Word, width: nat, w: nat, k: nat, n: nat)
    requires AllWide(block, width) && n < |block| && w < width
    requires Hit(AllOnes(width), block[..n], c1, c2, w, k)
    ensures Hit(AllOnes(width), block[..n + 1], c1, c2, w, k)
  {
    var v := LaneBits(block, w, k);
    assert LaneBits(block[..n], w, k) == v[..n] && LaneBits(block[..n + 1], w, k) == v[..n + 1];
    ValueNext(v, n);
    assert ConstBits(c1, n + 1)[..n] == ConstBits(c1, n) && ConstBits(c2, n + 1)[..n] == ConstBits(c2, n);
  }

  lemma {:induction false} WordHitsGrow(block: seq<Row>, c1: Word, c2: Word, width: nat, w: nat, n: nat, k: nat)
    requires AllWide(block, width) && n < |block| && w < width
    ensures WordHits(AllOnes(width), block[..n], c1, c2, w, k) <= WordHits(AllOnes(width), block[..n + 1], c1, c2, w, k)
  {
    if k > 0 {
      WordHitsGrow(block, c1, c2, width, w, n, k - 1);
      if Hit(AllOnes(width), block[..n], c1, c2, w, k - 1) {
        HitStays(block, c1, c2, width, w, k - 1, n);
      }
    }
  }

  lemma {:induction false} RowHitsGrow(block: seq<Row>, c1: Word, c2: Word, width: nat, n: nat, w: nat)
    requires AllWide(block, width) && n < |block| && w <= width
    ensures RowHits(AllOnes(width), block[..n], c1, c2, w) <= RowHits(AllOnes(width), block[..n + 1], c1, c2, w)
  {
    if w > 0 {
      RowHitsGrow(block, c1, c2, width, n, w - 1);
      WordHitsGrow(block, c1, c2, width, w - 1, n, 32);
    }
  }

  lemma {:induction false} NoHitsBefore(block: seq<Row>, c1: Word, c2: Word, width: nat, n: nat)
    requires AllWide(block, width) && n <= |block|
    ensures Added(block, c1, c2, width, n) == 0 <==> Hits(block, c1, c2, width, n) == 0
  {
    if n > 0 {
      NoHitsBefore(block, c1, c2, width, n - 1);
      RowHitsGrow(block, c1, c2, width, n - 1, width);
    } else {
      NoHitsAtAll(block, c1, c2, width, width);
    }
  }

  lemma {:induction false} NoWordHits(block: seq<Row>, c1: Word, c2: Word, width: nat, w: nat, k: nat)
    requires AllWide(block, width) && w < width
    ensures WordHits(AllOnes(width), block[..0], c1, c2, w, k) == 0
  {
    if k > 0 {
      NoWordHits(block, c1, c2, width, w, k - 1);
    }
  }

  lemma {:induction false} NoHitsAtAll(block: seq<Row>, c1: Word, c2: Word, width: nat, w: nat)
    requires AllWide(block, width) && w <= width
    ensures RowHits(AllOnes(width), block[..0], c1, c2, w) == 0
  {
    if w > 0 {
      NoHitsAtAll(block, c1, c2, width, w - 1);
      NoWordHits(block, c1, c2, width, w - 1, 32);
    }
  }

  /** The program's sum for a block is never less than its number of hits, and equals it if and only if no lane
      was already strictly between the constants one slice before the last. */
  lemma BlockSumIsHitsIff(block: seq<Row>, c1: Word, c2: Word, width: nat)
    requires AllWide(block, width) && |block| > 0
    ensures Added(block, c1, c2, width, |block|) >= Hits(block, c1, c2, width, |block|)
    ensures Added(block, c1, c2, width, |block|) == Hits(block, c1, c2, width, |block|)
            <==> Hits(block, c1, c2, width, |block| - 1) == 0
  {
    NoHitsBefore(block, c1, c2, width, |block| - 1);
  }

  ghost function TotalTrue(data: seq<Row>, c1: Word, c2: Word, width: nat, length: nat, blocks: nat, n: nat): nat
    requires |data| == blocks * length && AllWide(data, width) && n <= blocks
  {
    if n == 0 then 0
    else
      BlockInside(length, blocks, n - 1);
      TotalTrue(data, c1, c2, width, length, blocks, n - 1) + Hits(BlockAt(data, length, n - 1), c1, c2, width, length)
  }

  /** Block i has no lane that is decided before the last slice. */
  ghost predicate DecidedLate(data: seq<Row>, c1: Word, c2: Word, width: nat, length: nat, blocks: nat, i: nat)
    requires |data| == blocks * length && AllWide(data, width) && i < blocks && length > 0
  {
    BlockInside(length, blocks, i);
    Hits(BlockAt(data, length, i), c1, c2, width, length - 1) == 0
  }

  /** The sum of an iteration is the number of values in range if and only if every block is decided late. */
  lemma {:induction false} SumIsHitsIff(data: seq<Row>, c1: Word, c2: Word, width: nat, length: nat, blocks: nat, n: nat)
    requires |data| == blocks * length && AllWide(data, width) && length > 0 && n <= blocks
    ensures TotalAdded(data, c1, c2, width, length, blocks, n) >= TotalTrue(data, c1, c2, width, length, blocks, n)
    ensures TotalAdded(data, c1, c2, width, length, blocks, n) == TotalTrue(data, c1, c2, width, length, blocks, n)
            <==> forall i :: 0 <= i < n ==> DecidedLate(data, c1, c2, width, length, blocks, i)
  {
    if n > 0 {
      SumIsHitsIff(data, c1, c2, width, length, blocks, n - 1);
      BlockInside(length, blocks, n - 1);
      BlockSumIsHitsIff(BlockAt(data, length, n - 1), c1, c2, width);
      assert DecidedLate(data, c1, c2, width, length, blocks, n - 1) <==>
             Hits(BlockAt(data, length, n - 1), c1, c2, width, length - 1) == 0;
    }
  }

  lemma {:induction false} HitIsCounted(enabled: Row, slices: seq<Row>, c1: Word, c2: Word, w: nat, n: nat)
    requires w < |enabled| && AllWide(slices, |enabled|) && n > 0 && Hit(enabled, slices, c1, c2, w, 0)
    ensures WordHits(enabled, slices, c1, c2, w, n) > 0
  {
    if n > 1 {
      HitIsCounted(enabled, slices, c1, c2, w, n - 1);
    }
  }

  /** Three slices of one word, the value 010 in lane 0, compared with 000 and 111: after two slices it is in
      range already, so the program counts it twice. */
  lemma EarlyDecisionIsCountedTwice()
    ensures var block: seq<Row> := [[0], [1], [0]];
            Added(block, 0, 7, 1, 3) > Hits(block, 0, 7, 1, 3)
  {
    var block: seq<Row> := [[0], [1], [0]];
    var two := block[..2];
    assert two == [[0], [1]];
    SpreadBit(true, 1, 0, 0);
    assert LaneBits(two, 0, 0) == [false, true] && ConstBits(0, 2) == [false, false] && ConstBits(7, 2) == [true, true];
    TwoBits(false, true);
    TwoBits(false, false);
    TwoBits(true, true);
    HitIsCounted(AllOnes(1), two, 0, 7, 0, 32);
    assert RowHits(AllOnes(1), two, 0, 7, 0) == 0;
    BlockSumIsHitsIff(block, 0, 7, 1);
  }
}

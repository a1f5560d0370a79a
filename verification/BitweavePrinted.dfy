/** The vector program as a whole: its two iterations, of which the second works on what the first has overwritten
    and is the one that is printed. */
module BitweavePrinted {
  import opened Arith
  import opened Bits
  import opened Bitweave
  import opened BitweaveQuery
  import opened BitweaveBaseline

  // ---------------------------------------------------------------- both iterations

  ghost function MaskAt(data: seq<Row>, c1: Word, c2: Word, width: nat, length: nat, blocks: nat, i: nat): (r: Row)
    requires |data| == blocks * length && AllWide(data, width) && i < blocks
    ensures |r| == width
  {
    BlockInside(length, blocks, i);
    Mask(BlockAt(data, length, i), c1, c2, width, length)
  }

  /** The vectors after an iteration: the first ones are the hit masks of the blocks. */
  ghost function Overwritten(data: seq<Row>, c1: Word, c2: Word, width: nat, length: nat, blocks: nat): (r: seq<Row>)
    requires |data| == blocks * length && AllWide(data, width)
    ensures |r| == |data| && AllWide(r, width)
  {
    seq(|data|, p requires 0 <= p < |data| =>
      if p < blocks then MaskAt(data, c1, c2, width, length, blocks, p) else data[p])
  }

  /** The program: `printed` is the sum of the second iteration. */
  method Program(vals: array<Row>, c1: Word, c2: Word, width: nat, length: nat, blocks: nat)
    returns (first: nat, printed: nat)
    requires vals.Length == blocks * length && AllWide(vals[..], width)
    modifies vals
    ensures first == TotalAdded(old(vals[..]), c1, c2, width, length, blocks, blocks)
    ensures printed == Printed(old(vals[..]), c1, c2, width, length, blocks)
  {
    ghost var data := vals[..];
    first := Query(vals, c1, c2, width, length, blocks);
    IsOverwritten(vals[..], data, c1, c2, width, length, blocks);
    printed := Query(vals, c1, c2, width, length, blocks);
  }

  ghost function Printed(data: seq<Row>, c1: Word, c2: Word, width: nat, length: nat, blocks: nat): nat
    requires |data| == blocks * length && AllWide(data, width)
  {
    TotalAdded(Overwritten(data, c1, c2, width, length, blocks), c1, c2, width, length, blocks, blocks)
  }

  lemma IsOverwritten(now: seq<Row>, data: seq<Row>, c1: Word, c2: Word, width: nat, length: nat, blocks: nat)
    requires |now| == |data| == blocks * length && AllWide(data, width)
    requires length > 0 ==> WrittenTo(now, data, c1, c2, width, length, blocks, blocks)
    requires forall p :: blocks <= p < |data| ==> now[p] == data[p]
    ensures now == Overwritten(data, c1, c2, width, length, blocks)
  {
    forall p | 0 <= p < |data|
      ensures now[p] == Overwritten(data, c1, c2, width, length, blocks)[p]
    {
      if p < blocks {
        assert length > 0;
        assert Written(now, data, c1, c2, width, length, blocks, p);
      }
    }
  }

  /** A block past the overwritten vectors is counted alike in both iterations. */
  lemma UntouchedBlock(data: seq<Row>, c1: Word, c2: Word, width: nat, length: nat, blocks: nat, i: nat)
    requires |data| == blocks * length && AllWide(data, width) && i < blocks && blocks <= i * length
    ensures i * length + length <= |data|
    ensures BlockAt(Overwritten(data, c1, c2, width, length, blocks), length, i) == BlockAt(data, length, i)
  {
    BlockInside(length, blocks, i);
  }

  /** When the hit masks are what the vectors held before, the printed number is that of the first iteration, which
      is the number of values in range if and only if every block is decided late. */
  lemma PrintedIfUnchanged(data: seq<Row>, c1: Word, c2: Word, width: nat, length: nat, blocks: nat)
    requires |data| == blocks * length && AllWide(data, width) && length > 0
    requires forall i :: 0 <= i < blocks && i < |data| ==> data[i] == MaskAt(data, c1, c2, width, length, blocks, i)
    ensures Printed(data, c1, c2, width, length, blocks) == TotalAdded(data, c1, c2, width, length, blocks, blocks)
    ensures Printed(data, c1, c2, width, length, blocks) == TotalTrue(data, c1, c2, width, length, blocks, blocks)
            <==> forall i :: 0 <= i < blocks ==> DecidedLate(data, c1, c2, width, length, blocks, i)
  {
    assert Overwritten(data, c1, c2, width, length, blocks) == data;
    SumIsHitsIff(data, c1, c2, width, length, blocks, blocks);
  }

  // ---------------------------------------------------------------- block by block

  /** The printed number is the number of values in range. */
  ghost predicate Right(data: seq<Row>, c1: Word, c2: Word, width: nat, length: nat, blocks: nat)
    requires |data| == blocks * length && AllWide(data, width)
  {
    Printed(data, c1, c2, width, length, blocks) == TotalTrue(data, c1, c2, width, length, blocks, blocks)
  }

  /** What a block as it is read in the second iteration adds to the number printed, beyond its values in range. */
  ghost function Excess(data: seq<Row>, c1: Word, c2: Word, width: nat, length: nat, blocks: nat, i: nat): int
    requires |data| == blocks * length && AllWide(data, width) && i < blocks
  {
    BlockInside(length, blocks, i);
    Added(BlockAt(Overwritten(data, c1, c2, width, length, blocks), length, i), c1, c2, width, length)
      - Hits(BlockAt(data, length, i), c1, c2, width, length)
  }

  lemma UntouchedExcess(data: seq<Row>, c1: Word, c2: Word, width: nat, length: nat, blocks: nat, i: nat)
    requires |data| == blocks * length && AllWide(data, width) && length > 0 && i < blocks <= i * length
    ensures Excess(data, c1, c2, width, length, blocks, i) >= 0
    ensures Excess(data, c1, c2, width, length, blocks, i) == 0 <==> DecidedLate(data, c1, c2, width, length, blocks, i)
  {
    UntouchedBlock(data, c1, c2, width, length, blocks, i);
    BlockSumIsHitsIff(BlockAt(data, length, i), c1, c2, width);
  }

  lemma ExcessNext(data: seq<Row>, c1: Word, c2: Word, width: nat, length: nat, blocks: nat, n: nat)
    requires |data| == blocks * length && AllWide(data, width) && n < blocks
    ensures var now := Overwritten(data, c1, c2, width, length, blocks);
            TotalAdded(now, c1, c2, width, length, blocks, n + 1) - TotalTrue(data, c1, c2, width, length, blocks, n + 1)
            == TotalAdded(now, c1, c2, width, length, blocks, n) - TotalTrue(data, c1, c2, width, length, blocks, n)
               + Excess(data, c1, c2, width, length, blocks, n)
  {
  }

  lemma {:induction false} NoExcess(data: seq<Row>, c1: Word, c2: Word, width: nat, length: nat, blocks: nat, n: nat)
    requires |data| == blocks * length && AllWide(data, width) && n <= blocks
    requires forall i :: 0 <= i < n ==> Excess(data, c1, c2, width, length, blocks, i) >= 0
    ensures var off := TotalAdded(Overwritten(data, c1, c2, width, length, blocks), c1, c2, width, length, blocks, n)
                       - TotalTrue(data, c1, c2, width, length, blocks, n);
            off >= 0 && (off == 0 <==> forall i :: 0 <= i < n ==> Excess(data, c1, c2, width, length, blocks, i) == 0)
  {
    if n > 0 {
      NoExcess(data, c1, c2, width, length, blocks, n - 1);
      ExcessNext(data, c1, c2, width, length, blocks, n - 1);
    }
  }

  /** The overwritten blocks add what they should, and the others are decided late. */
  ghost predicate AllBlocksRight(data: seq<Row>, c1: Word, c2: Word, width: nat, length: nat, blocks: nat)
    requires |data| == blocks * length && AllWide(data, width) && length > 0
  {
    forall i :: 0 <= i < blocks ==>
      if i * length < blocks then Excess(data, c1, c2, width, length, blocks, i) == 0
      else DecidedLate(data, c1, c2, width, length, blocks, i)
  }

  lemma NoExcessAnywhere(data: seq<Row>, c1: Word, c2: Word, width: nat, length: nat, blocks: nat)
    requires |data| == blocks * length && AllWide(data, width) && length > 0
    ensures AllBlocksRight(data, c1, c2, width, length, blocks)
            <==> forall i :: 0 <= i < blocks ==> Excess(data, c1, c2, width, length, blocks, i) == 0
  {
    forall i | 0 <= i < blocks && blocks <= i * length
      ensures Excess(data, c1, c2, width, length, blocks, i) == 0 <==> DecidedLate(data, c1, c2, width, length, blocks, i)
    {
      UntouchedExcess(data, c1, c2, width, length, blocks, i);
    }
  }

  /** For given data: the printed number is right if every block is, and when no overwritten block adds less than its
      values in range, it is right only then. */
  lemma PrintedBlockwise(data: seq<Row>, c1: Word, c2: Word, width: nat, length: nat, blocks: nat)
    requires |data| == blocks * length && AllWide(data, width) && length > 0
    ensures AllBlocksRight(data, c1, c2, width, length, blocks) ==> Right(data, c1, c2, width, length, blocks)
    ensures (forall i :: 0 <= i < blocks && i * length < blocks ==> Excess(data, c1, c2, width, length, blocks, i) >= 0) ==>
              (Right(data, c1, c2, width, length, blocks) <==> AllBlocksRight(data, c1, c2, width, length, blocks))
  {
    NoExcessAnywhere(data, c1, c2, width, length, blocks);
    if AllBlocksRight(data, c1, c2, width, length, blocks) {
      NoExcess(data, c1, c2, width, length, blocks, blocks);
    } else if forall i :: 0 <= i < blocks && i * length < blocks ==> Excess(data, c1, c2, width, length, blocks, i) >= 0 {
      forall i | 0 <= i < blocks
        ensures Excess(data, c1, c2, width, length, blocks, i) >= 0
      {
        if blocks <= i * length {
          UntouchedExcess(data, c1, c2, width, length, blocks, i);
        }
      }
      NoExcess(data, c1, c2, width, length, blocks, blocks);
    }
  }

  /** What the second iteration reads in a lane of vector p: if the vector is overwritten, whether the same lane of
      block p is in range, and otherwise the original bit. */
  lemma SecondReads(data: seq<Row>, c1: Word, c2: Word, width: nat, length: nat, blocks: nat, p: nat, w: nat, k: nat)
    requires |data| == blocks * length && AllWide(data, width) && p < |data| && w < width && k < 32
    ensures Bit(Overwritten(data, c1, c2, width, length, blocks)[p][w], k) <==>
            if p < blocks then HitIn(data, c1, c2, width, length, blocks, p, w, k) else Bit(data[p][w], k)
  {
    if p < blocks {
      BlockInside(length, blocks, p);
      MaskIsHit(BlockAt(data, length, p), c1, c2, width, w, k);
    }
  }

  ghost predicate HitIn(data: seq<Row>, c1: Word, c2: Word, width: nat, length: nat, blocks: nat, i: nat, w: nat, k: nat)
    requires |data| == blocks * length && AllWide(data, width) && i < blocks && w < width
  {
    BlockInside(length, blocks, i);
    Hit(AllOnes(width), BlockAt(data, length, i), c1, c2, w, k)
  }

  lemma MaskIsHit(block: seq<Row>, c1: Word, c2: Word, width: nat, w: nat, k: nat)
    requires AllWide(block, width) && w < width && k < 32
    ensures Bit(Mask(block, c1, c2, width, |block|)[w], k) <==> Hit(AllOnes(width), block, c1, c2, w, k)
  {
    assert block[..|block|] == block;
    var m := Block(block, c1, c2, width, |block|);
    InRangeLane(AllOnes(width), block, c1, c2, w, k);
    Lanes(m.gt[w], m.lt[w], k);
    Lanes(m.lt[w], m.gt[w], k);
  }

  /** The block as read in the second iteration has as many values in range as the block had, and none of them is
      decided before the last slice. */
  ghost predicate BlockKept(data: seq<Row>, c1: Word, c2: Word, width: nat, length: nat, blocks: nat, i: nat)
    requires |data| == blocks * length && AllWide(data, width) && length > 0 && i < blocks
  {
    && HitsIn(Overwritten(data, c1, c2, width, length, blocks), c1, c2, width, length, blocks, i)
       == HitsIn(data, c1, c2, width, length, blocks, i)
    && DecidedLate(Overwritten(data, c1, c2, width, length, blocks), c1, c2, width, length, blocks, i)
  }

  ghost function HitsIn(data: seq<Row>, c1: Word, c2: Word, width: nat, length: nat, blocks: nat, i: nat): nat
    requires |data| == blocks * length && AllWide(data, width) && i < blocks
  {
    BlockInside(length, blocks, i);
    Hits(BlockAt(data, length, i), c1, c2, width, length)
  }

  lemma ExcessIff(data: seq<Row>, c1: Word, c2: Word, width: nat, length: nat, blocks: nat, i: nat)
    requires |data| == blocks * length && AllWide(data, width) && length > 0 && i < blocks
    requires HitsIn(Overwritten(data, c1, c2, width, length, blocks), c1, c2, width, length, blocks, i)
             >= HitsIn(data, c1, c2, width, length, blocks, i)
    ensures Excess(data, c1, c2, width, length, blocks, i) >= 0
    ensures Excess(data, c1, c2, width, length, blocks, i) == 0 <==> BlockKept(data, c1, c2, width, length, blocks, i)
  {
    BlockInside(length, blocks, i);
    BlockSumIsHitsIff(BlockAt(Overwritten(data, c1, c2, width, length, blocks), length, i), c1, c2, width);
  }

  /** If overwriting takes no value out of range in any block, the printed number is right if and only if it puts none
      in range either and all values read are decided late. */
  lemma PrintedByHits(data: seq<Row>, c1: Word, c2: Word, width: nat, length: nat, blocks: nat)
    requires |data| == blocks * length && AllWide(data, width) && length > 0
    requires forall i :: 0 <= i < blocks ==>
      HitsIn(Overwritten(data, c1, c2, width, length, blocks), c1, c2, width, length, blocks, i)
      >= HitsIn(data, c1, c2, width, length, blocks, i)
    ensures Right(data, c1, c2, width, length, blocks)
            <==> forall i :: 0 <= i < blocks ==> BlockKept(data, c1, c2, width, length, blocks, i)
  {
    forall i | 0 <= i < blocks
      ensures Excess(data, c1, c2, width, length, blocks, i) >= 0
      ensures Excess(data, c1, c2, width, length, blocks, i) == 0 <==> BlockKept(data, c1, c2, width, length, blocks, i)
    {
      ExcessIff(data, c1, c2, width, length, blocks, i);
    }
    NoExcess(data, c1, c2, width, length, blocks, blocks);
  }

  // ---------------------------------------------------------------- rows with all lanes alike

  lemma {:induction false} WordAlike(enabled: Row, slices: seq<Row>, c1: Word, c2: Word, w: nat, n: nat, h: bool)
    requires w < |enabled| && AllWide(slices, |enabled|)
    requires forall k :: 0 <= k < n ==> Hit(enabled, slices, c1, c2, w, k) == h
    ensures WordHits(enabled, slices, c1, c2, w, n) == if h then n else 0
  {
    if n > 0 {
      WordAlike(enabled, slices, c1, c2, w, n - 1, h);
    }
  }

  lemma {:induction false} RowAlike(enabled: Row, slices: seq<Row>, c1: Word, c2: Word, n: nat, h: bool)
    requires n <= |enabled| && AllWide(slices, |enabled|)
    requires forall w, k :: 0 <= w < n && 0 <= k < 32 ==> Hit(enabled, slices, c1, c2, w, k) == h
    ensures RowHits(enabled, slices, c1, c2, n) == if h then 32 * n else 0
  {
    if n > 0 {
      RowAlike(enabled, slices, c1, c2, n - 1, h);
      WordAlike(enabled, slices, c1, c2, n - 1, 32, h);
    }
  }

  /** Vectors that have the same bit in all lanes. */
  function Flat(bits: seq<bool>, width: nat): (r: seq<Row>)
    ensures |r| == |bits| && AllWide(r, width)
  {
    seq(|bits|, j requires 0 <= j < |bits| => Spread(bits[j], width))
  }

  predicate Between(bits: seq<bool>, c1: Word, c2: Word)
  {
    ConstValue(c1, |bits|) < Value(bits) < ConstValue(c2, |bits|)
  }

  lemma FlatHit(bits: seq<bool>, width: nat, c1: Word, c2: Word, w: nat, k: nat)
    requires w < width && k < 32
    ensures Hit(AllOnes(width), Flat(bits, width), c1, c2, w, k) == Between(bits, c1, c2)
  {
    AllOnesBit(k);
    forall j | 0 <= j < |bits|
      ensures LaneBits(Flat(bits, width), w, k)[j] == bits[j]
    {
      SpreadBit(bits[j], width, w, k);
    }
    assert LaneBits(Flat(bits, width), w, k) == bits;
  }

  lemma FlatHits(bits: seq<bool>, width: nat, c1: Word, c2: Word, n: nat)
    requires n <= |bits|
    ensures Hits(Flat(bits, width), c1, c2, width, n) == if Between(bits[..n], c1, c2) then 32 * width else 0
  {
    assert Flat(bits, width)[..n] == Flat(bits[..n], width);
    forall w, k | 0 <= w < width && 0 <= k < 32
      ensures Hit(AllOnes(width), Flat(bits[..n], width), c1, c2, w, k) == Between(bits[..n], c1, c2)
    {
      FlatHit(bits[..n], width, c1, c2, w, k);
    }
    RowAlike(AllOnes(width), Flat(bits[..n], width), c1, c2, width, Between(bits[..n], c1, c2));
  }

  lemma FlatMask(bits: seq<bool>, width: nat, c1: Word, c2: Word)
    ensures Mask(Flat(bits, width), c1, c2, width, |bits|) == Spread(Between(bits, c1, c2), width)
  {
    var flat := Flat(bits, width);
    var mask, want := Mask(flat, c1, c2, width, |bits|), Spread(Between(bits, c1, c2), width);
    forall w, k | 0 <= w < width && 0 <= k < 32
      ensures Bit(mask[w], k) == Bit(want[w], k)
    {
      MaskIsHit(flat, c1, c2, width, w, k);
      FlatHit(bits, width, c1, c2, w, k);
      SpreadBit(Between(bits, c1, c2), width, w, k);
    }
    SameRows(mask, want);
  }

  lemma FlatBlock(bits: seq<bool>, width: nat, length: nat, i: nat)
    requires i * length + length <= |bits|
    ensures BlockAt(Flat(bits, width), length, i) == Flat(bits[i * length..i * length + length], width)
  {
  }

  ghost function BitsAt(bits: seq<bool>, length: nat, blocks: nat, i: nat): (b: seq<bool>)
    requires |bits| == blocks * length && i < blocks
    ensures |b| == length
  {
    BlockInside(length, blocks, i);
    bits[i * length..i * length + length]
  }

  /** Flat vectors stay flat: an iteration on them is an iteration on single bits. */
  lemma FlatOverwritten(bits: seq<bool>, after: seq<bool>, width: nat, c1: Word, c2: Word, length: nat, blocks: nat)
    requires |bits| == |after| == blocks * length
    requires forall p :: 0 <= p < |bits| ==>
               after[p] == if p < blocks then Between(BitsAt(bits, length, blocks, p), c1, c2) else bits[p]
    ensures Overwritten(Flat(bits, width), c1, c2, width, length, blocks) == Flat(after, width)
  {
    var data := Flat(bits, width);
    forall p | 0 <= p < |bits|
      ensures Overwritten(data, c1, c2, width, length, blocks)[p] == Flat(after, width)[p]
    {
      if p < blocks {
        BlockInside(length, blocks, p);
        FlatBlock(bits, width, length, p);
        FlatMask(BitsAt(bits, length, blocks, p), width, c1, c2);
      }
    }
  }

  lemma FlatBlockHits(bits: seq<bool>, width: nat, c1: Word, c2: Word, length: nat, blocks: nat, i: nat, n: nat)
    requires |bits| == blocks * length && i < blocks && n <= length
    ensures i * length + length <= |bits|
    ensures Hits(BlockAt(Flat(bits, width), length, i), c1, c2, width, n)
            == if Between(BitsAt(bits, length, blocks, i)[..n], c1, c2) then 32 * width else 0
  {
    BlockInside(length, blocks, i);
    FlatBlock(bits, width, length, i);
    FlatHits(BitsAt(bits, length, blocks, i), width, c1, c2, n);
  }

  // ---------------------------------------------------------------- when the printed number is right

  lemma ConstNext(c: Word, n: nat)
    ensures ConstValue(c, n + 1) == 2 * ConstValue(c, n) + if Bit(c, n) then 1 else 0
  {
    assert ConstBits(c, n + 1)[..n] == ConstBits(c, n);
  }

  lemma {:induction false} ZeroValue(bits: seq<bool>)
    requires forall j :: 0 <= j < |bits| ==> !bits[j]
    ensures Value(bits) == 0
  {
    if bits != [] {
      ZeroValue(bits[..|bits| - 1]);
    }
  }

  lemma {:induction false} BetweenStays(bits: seq<bool>, c1: Word, c2: Word, m: nat, n: nat)
    requires m <= n <= |bits| && Between(bits[..m], c1, c2)
    ensures Between(bits[..n], c1, c2)
    decreases n
  {
    if m < n {
      BetweenStays(bits, c1, c2, m, n - 1);
      ValueNext(bits, n - 1);
      ConstNext(c1, n - 1);
      ConstNext(c2, n - 1);
    }
  }

  /** Nothing lies strictly between two numbers of one bit, or of none. */
  lemma ShortIsNeverBetween(bits: seq<bool>, c1: Word, c2: Word)
    requires |bits| <= 1
    ensures !Between(bits, c1, c2)
  {
    ShortValue(bits);
    ShortValue(ConstBits(c2, |bits|));
  }

  lemma ShortValue(bits: seq<bool>)
    requires |bits| <= 1
    ensures Value(bits) <= 1
  {
    assert |bits| == 1 ==> bits[..0] == [];
  }

  lemma TwoBitsBetween(a: bool, b: bool)
    ensures Between([a, b], 0, 3) <==> a != b
  {
    TwoBits(a, b);
    TwoBits(false, false);
    TwoBits(true, true);
    assert ConstBits(0, 2) == [false, false] && ConstBits(3, 2) == [true, true];
  }

  lemma ShortHits(block: seq<Row>, c1: Word, c2: Word, width: nat, n: nat)
    requires AllWide(block, width) && n <= |block| && (n <= 1 || width == 0)
    ensures Hits(block, c1, c2, width, n) == 0
  {
    forall w, k | 0 <= w < width && 0 <= k < 32
      ensures !Hit(AllOnes(width), block[..n], c1, c2, w, k)
    {
      ShortIsNeverBetween(LaneBits(block[..n], w, k), c1, c2);
    }
    RowAlike(AllOnes(width), block[..n], c1, c2, width, false);
  }

  lemma {:induction false} ShortAdded(block: seq<Row>, c1: Word, c2: Word, width: nat, n: nat)
    requires AllWide(block, width) && n <= |block| && (n <= 1 || width == 0)
    ensures Added(block, c1, c2, width, n) == 0
  {
    if n > 0 {
      ShortAdded(block, c1, c2, width, n - 1);
      ShortHits(block, c1, c2, width, n);
    }
  }

  lemma {:induction false} ShortTotals(data: seq<Row>, c1: Word, c2: Word, width: nat, length: nat, blocks: nat, n: nat)
    requires |data| == blocks * length && AllWide(data, width) && n <= blocks && (length <= 1 || width == 0)
    ensures TotalAdded(data, c1, c2, width, length, blocks, n) == TotalTrue(data, c1, c2, width, length, blocks, n) == 0
  {
    if n > 0 {
      ShortTotals(data, c1, c2, width, length, blocks, n - 1);
      ShortBlock(data, c1, c2, width, length, blocks, n - 1);
    }
  }

  lemma ShortBlock(data: seq<Row>, c1: Word, c2: Word, width: nat, length: nat, blocks: nat, i: nat)
    requires |data| == blocks * length && AllWide(data, width) && i < blocks && (length <= 1 || width == 0)
    ensures i * length + length <= |data|
    ensures Added(BlockAt(data, length, i), c1, c2, width, length) == 0
    ensures Hits(BlockAt(data, length, i), c1, c2, width, length) == 0
  {
    BlockInside(length, blocks, i);
    var block := BlockAt(data, length, i);
    ShortAdded(block, c1, c2, width, length);
    ShortHits(block, c1, c2, width, length);
  }

  /** Values of three bits or more: the first block has only its top bit set. Its hit mask is its own first vector,
      so both iterations see the same data, and both count it once too often. */
  function TopBit(size: nat): (bits: seq<bool>)
    ensures |bits| == size
  {
    seq(size, p => p == 0)
  }

  lemma TopBitAt(length: nat, blocks: nat, i: nat, j: nat)
    requires i < blocks && j < length
    ensures BitsAt(TopBit(blocks * length), length, blocks, i)[j] <==> i == 0 && j == 0
  {
    BlockInside(length, blocks, i);
    if i > 0 {
      MulMonotone(1, i, length);
    }
  }

  lemma TopBitBlocks(length: nat, blocks: nat, i: nat, n: nat)
    requires length >= 2 && i < blocks && 2 <= n <= length
    ensures Between(BitsAt(TopBit(blocks * length), length, blocks, i)[..n], 0, 3) <==> i == 0
  {
    var b := BitsAt(TopBit(blocks * length), length, blocks, i);
    TopBitAt(length, blocks, i, 0);
    TopBitAt(length, blocks, i, 1);
    if i == 0 {
      assert b[..2] == [true, false];
      TwoBitsBetween(true, false);
      BetweenStays(b, 0, 3, 2, n);
    } else {
      forall j | 0 <= j < n
        ensures !b[..n][j]
      {
        TopBitAt(length, blocks, i, j);
      }
      ZeroValue(b[..n]);
    }
  }

  lemma LongValuesGoWrong(width: nat, length: nat, blocks: nat)
    requires length >= 3 && blocks > 0 && width > 0
    ensures !Right(Flat(TopBit(blocks * length), width), 0, 3, width, length, blocks)
  {
    var bits := TopBit(blocks * length);
    var data := Flat(bits, width);
    forall p | 0 <= p < |bits| && p < blocks
      ensures bits[p] == Between(BitsAt(bits, length, blocks, p), 0, 3)
    {
      TopBitBlocks(length, blocks, p, length);
      assert BitsAt(bits, length, blocks, p)[..length] == BitsAt(bits, length, blocks, p);
    }
    FlatOverwritten(bits, bits, width, 0, 3, length, blocks);
    TopBitIsEarly(width, length, blocks);
    SumIsHitsIff(data, 0, 3, width, length, blocks, blocks);
  }

  lemma TopBitIsEarly(width: nat, length: nat, blocks: nat)
    requires length >= 3 && blocks > 0 && width > 0
    ensures !DecidedLate(Flat(TopBit(blocks * length), width), 0, 3, width, length, blocks, 0)
  {
    TopBitBlocks(length, blocks, 0, length - 1);
    FlatBlockHits(TopBit(blocks * length), width, 0, 3, length, blocks, 0, length - 1);
  }

  /** Values of two bits: every value is 01, and the second iteration finds 11 in the blocks it has overwritten. */
  function Odd(size: nat): (bits: seq<bool>)
    ensures |bits| == size
  {
    seq(size, p => p % 2 == 1)
  }

  function OddAfter(size: nat, blocks: nat): (bits: seq<bool>)
    ensures |bits| == size
  {
    seq(size, p => p < blocks || p % 2 == 1)
  }

  lemma OddBlocks(blocks: nat, i: nat)
    requires i < blocks
    ensures BitsAt(Odd(blocks * 2), 2, blocks, i) == [false, true]
    ensures BitsAt(OddAfter(blocks * 2, blocks), 2, blocks, i) == [2 * i < blocks, true]
  {
    BlockInside(2, blocks, i);
    var size, p := blocks * 2, i * 2;
    var before, after := BitsAt(Odd(size), 2, blocks, i), BitsAt(OddAfter(size, blocks), 2, blocks, i);
    Parity(i);
    assert before[0] == Odd(size)[p] && before[1] == Odd(size)[p + 1];
    assert after[0] == OddAfter(size, blocks)[p] && after[1] == OddAfter(size, blocks)[p + 1];
  }

  lemma Parity(i: nat)
    ensures i * 2 % 2 == 0 && (i * 2 + 1) % 2 == 1
  {
  }

  lemma OneMoreBlock(n: nat, x: nat)
    requires n > 0
    ensures n * x == (n - 1) * x + x
  {
  }

  lemma OddOverwritten(width: nat, blocks: nat)
    ensures Overwritten(Flat(Odd(blocks * 2), width), 0, 3, width, 2, blocks) == Flat(OddAfter(blocks * 2, blocks), width)
  {
    var bits := Odd(blocks * 2);
    forall p | 0 <= p < |bits| && p < blocks
      ensures Between(BitsAt(bits, 2, blocks, p), 0, 3)
    {
      OddBlocks(blocks, p);
      TwoBitsBetween(false, true);
    }
    FlatOverwritten(bits, OddAfter(blocks * 2, blocks), width, 0, 3, 2, blocks);
  }

  lemma {:induction false} OddTrue(width: nat, blocks: nat, n: nat)
    requires n <= blocks
    ensures TotalTrue(Flat(Odd(blocks * 2), width), 0, 3, width, 2, blocks, n) == n * (32 * width)
  {
    if n > 0 {
      OddTrue(width, blocks, n - 1);
      OddBlocks(blocks, n - 1);
      TwoBitsBetween(false, true);
      FlatBlockHits(Odd(blocks * 2), width, 0, 3, 2, blocks, n - 1, 2);
      assert [false, true][..2] == [false, true];
      OneMoreBlock(n, 32 * width);
    }
  }

  lemma OddAdded(width: nat, blocks: nat, i: nat)
    requires i < blocks
    ensures i * 2 + 2 <= blocks * 2
    ensures Added(BlockAt(Flat(OddAfter(blocks * 2, blocks), width), 2, i), 0, 3, width, 2)
            == if 2 * i < blocks then 0 else 32 * width
  {
    var bits := OddAfter(blocks * 2, blocks);
    var block := BlockAt(Flat(bits, width), 2, i);
    OddBlocks(blocks, i);
    TwoBitsBetween(2 * i < blocks, true);
    FlatBlockHits(bits, width, 0, 3, 2, blocks, i, 2);
    assert [2 * i < blocks, true][..2] == [2 * i < blocks, true];
    ShortAdded(block, 0, 3, width, 1);
    assert Added(block, 0, 3, width, 2) == Added(block, 0, 3, width, 1) + Hits(block, 0, 3, width, 2);
  }

  lemma {:induction false} OddTotal(width: nat, blocks: nat, n: nat)
    requires 0 < n <= blocks
    ensures TotalAdded(Flat(OddAfter(blocks * 2, blocks), width), 0, 3, width, 2, blocks, n) <= (n - 1) * (32 * width)
  {
    OddAdded(width, blocks, n - 1);
    if n > 1 {
      OddTotal(width, blocks, n - 1);
      OneMoreBlock(n - 1, 32 * width);
    } else {
      assert TotalAdded(Flat(OddAfter(blocks * 2, blocks), width), 0, 3, width, 2, blocks, 0) == 0;
    }
  }

  lemma TwoBitValuesGoWrong(width: nat, blocks: nat)
    requires blocks > 0 && width > 0
    ensures var data := Flat(Odd(blocks * 2), width);
            && Printed(data, 0, 3, width, 2, blocks) < TotalTrue(data, 0, 3, width, 2, blocks, blocks)
            && TotalAdded(data, 0, 3, width, 2, blocks, blocks) == TotalTrue(data, 0, 3, width, 2, blocks, blocks)
  {
    var data := Flat(Odd(blocks * 2), width);
    OddOverwritten(width, blocks);
    OddTotal(width, blocks, blocks);
    OddTrue(width, blocks, blocks);
    OneMoreBlock(blocks, 32 * width);
    forall i | 0 <= i < blocks
      ensures DecidedLate(data, 0, 3, width, 2, blocks, i)
    {
      BlockInside(2, blocks, i);
      ShortHits(BlockAt(data, 2, i), 0, 3, width, 1);
    }
    SumIsHitsIff(data, 0, 3, width, 2, blocks, blocks);
  }

  /** The program prints the number of values in range for all data and all constants if and only if the values
      have at most one bit or there are none. */
  lemma PrintedRightIff(width: nat, length: nat, blocks: nat)
    ensures length <= 1 || blocks == 0 || width == 0 <==>
      forall data: seq<Row>, c1: Word, c2: Word :: |data| == blocks * length && AllWide(data, width) ==>
        Right(data, c1, c2, width, length, blocks)
  {
    if length <= 1 || blocks == 0 || width == 0 {
      forall data: seq<Row>, c1: Word, c2: Word | |data| == blocks * length && AllWide(data, width)
        ensures Right(data, c1, c2, width, length, blocks)
      {
        if blocks > 0 {
          ShortTotals(data, c1, c2, width, length, blocks, blocks);
          ShortTotals(Overwritten(data, c1, c2, width, length, blocks), c1, c2, width, length, blocks, blocks);
        }
      }
    } else if length == 2 {
      TwoBitValuesGoWrong(width, blocks);
      assert !Right(Flat(Odd(blocks * length), width), 0, 3, width, length, blocks);
    } else {
      LongValuesGoWrong(width, length, blocks);
    }
  }
}

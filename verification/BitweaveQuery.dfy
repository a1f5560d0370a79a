/** What the bit-sliced query counts, and the row program: it keeps its masks in arrays of DRAM rows and updates
    them in place with row operations. */
module BitweaveQuery {
  import opened Bits
  import opened Bitweave

  // ---------------------------------------------------------------- counting lanes

  /** Lane (w, k) is enabled and its value is strictly between the two constants. */
  predicate Hit(enabled: Row, slices: seq<Row>, c1: Word, c2: Word, w: nat, k: nat)
    requires w < |enabled| && forall j :: 0 <= j < |slices| ==> w < |slices[j]|
  {
    Bit(enabled[w], k) && ConstValue(c1, |slices|) < LaneValue(slices, w, k) < ConstValue(c2, |slices|)
  }

  ghost function WordHits(enabled: Row, slices: seq<Row>, c1: Word, c2: Word, w: nat, n: nat): nat
    requires w < |enabled| && AllWide(slices, |enabled|)
  {
    if n == 0 then 0
    else WordHits(enabled, slices, c1, c2, w, n - 1) + if Hit(enabled, slices, c1, c2, w, n - 1) then 1 else 0
  }

  ghost function RowHits(enabled: Row, slices: seq<Row>, c1: Word, c2: Word, n: nat): nat
    requires n <= |enabled| && AllWide(slices, |enabled|)
  {
    if n == 0 then 0
    else RowHits(enabled, slices, c1, c2, n - 1) + WordHits(enabled, slices, c1, c2, n - 1, 32)
  }

  /** The program's count of a row: the population counts of its first n words. */
  function RowSum(r: Row, n: nat): nat
    requires n <= |r|
  {
    if n == 0 then 0 else RowSum(r, n - 1) + UPopcount(r[n - 1])
  }

  method SumRow(r: Row) returns (sum: nat)
    ensures sum == RowSum(r, |r|)
  {
    sum := 0;
    for j := 0 to |r|
      invariant sum == RowSum(r, j)
    {
      sum := sum + UPopcount(r[j]);
    }
  }

  lemma {:induction false} CountSnoc(x: nat, n: nat)
    ensures Count(x, n + 1) == Count(x, n) + if Bit(x, n) then 1 else 0
  {
    if n > 0 {
      CountSnoc(x / 2, n - 1);
    }
  }

  lemma {:induction false} WordCount(x: Word, enabled: Row, slices: seq<Row>, c1: Word, c2: Word, w: nat, n: nat)
    requires w < |enabled| && AllWide(slices, |enabled|)
    requires forall k :: 0 <= k < n ==> Bit(x, k) == Hit(enabled, slices, c1, c2, w, k)
    ensures Count(x, n) == WordHits(enabled, slices, c1, c2, w, n)
  {
    if n > 0 {
      WordCount(x, enabled, slices, c1, c2, w, n - 1);
      CountSnoc(x, n - 1);
      assert Bit(x, n - 1) == Hit(enabled, slices, c1, c2, w, n - 1);
    }
  }

  /** A lane of `lt & gt` after a pass is set exactly for the hits. */
  lemma InRangeLane(enabled: Row, slices: seq<Row>, c1: Word, c2: Word, w: nat, k: nat)
    requires AllWide(slices, |enabled|) && w < |enabled| && k < 32
    ensures var m := RunRow(Start(enabled), slices, c1, c2, |enabled|);
            Bit(AndW(m.lt[w], m.gt[w]), k) == Hit(enabled, slices, c1, c2, w, k)
  {
    var m := RunRow(Start(enabled), slices, c1, c2, |enabled|);
    QueryCompares(enabled, slices, c1, c2, w, k);
    Lanes(m.lt[w], m.gt[w], k);
  }

  lemma InRangeWord(enabled: Row, slices: seq<Row>, c1: Word, c2: Word, w: nat)
    requires AllWide(slices, |enabled|) && w < |enabled|
    ensures var m := RunRow(Start(enabled), slices, c1, c2, |enabled|);
            UPopcount(AndW(m.lt[w], m.gt[w])) == WordHits(enabled, slices, c1, c2, w, 32)
  {
    var m := RunRow(Start(enabled), slices, c1, c2, |enabled|);
    var x := AndW(m.lt[w], m.gt[w]);
    forall k | 0 <= k < 32
      ensures Bit(x, k) == Hit(enabled, slices, c1, c2, w, k)
    {
      InRangeLane(enabled, slices, c1, c2, w, k);
    }
    WordCount(x, enabled, slices, c1, c2, w, 32);
    UPopcountIsCount(x);
  }

  lemma {:induction false} SumOfWords(r: Row, enabled: Row, slices: seq<Row>, c1: Word, c2: Word, n: nat)
    requires AllWide(slices, |enabled|) && n <= |enabled| == |r|
    requires forall w :: 0 <= w < |r| ==> UPopcount(r[w]) == WordHits(enabled, slices, c1, c2, w, 32)
    ensures RowSum(r, n) == RowHits(enabled, slices, c1, c2, n)
  {
    if n > 0 {
      SumOfWords(r, enabled, slices, c1, c2, n - 1);
    }
  }

  /** The program's count of `lt & gt` after a pass is the number of hits. */
  lemma RowCount(enabled: Row, slices: seq<Row>, c1: Word, c2: Word)
    requires AllWide(slices, |enabled|)
    ensures var m := RunRow(Start(enabled), slices, c1, c2, |enabled|);
            RowSum(RowAnd(m.lt, m.gt), |enabled|) == RowHits(enabled, slices, c1, c2, |enabled|)
  {
    var m := RunRow(Start(enabled), slices, c1, c2, |enabled|);
    var r := RowAnd(m.lt, m.gt);
    forall w | 0 <= w < |enabled|
      ensures UPopcount(r[w]) == WordHits(enabled, slices, c1, c2, w, 32)
    {
      InRangeWord(enabled, slices, c1, c2, w);
    }
    SumOfWords(r, enabled, slices, c1, c2, |enabled|);
  }

  // ---------------------------------------------------------------- the row program

  /** Row i of every slice. */
  function Column(vals: seq<seq<Row>>, i: nat): (c: seq<Row>)
    requires forall j :: 0 <= j < |vals| ==> i < |vals[j]|
    ensures |c| == |vals|
  {
    seq(|vals|, j requires 0 <= j < |vals| => vals[j][i])
  }

  ghost predicate Rectangular(vals: seq<seq<Row>>, rows: nat, width: nat)
  {
    forall j :: 0 <= j < |vals| ==> |vals[j]| == rows && AllWide(vals[j], width)
  }

  lemma ColumnWide(vals: seq<seq<Row>>, rows: nat, width: nat, i: nat)
    requires Rectangular(vals, rows, width) && i < rows
    ensures AllWide(Column(vals, i), width)
  {
  }

  /** The masks as the row program sets them up: the integer 1 in every word of meq1 and meq2. */
  function Ones(width: nat): (r: Row)
    ensures |r| == width
  {
    seq(width, _ => 1)
  }

  /** Row i's masks after the first n slices, from masks m. */
  ghost function After(m: Masks, vals: seq<seq<Row>>, c1: Word, c2: Word, rows: nat, width: nat, i: nat, n: nat): (r: Masks)
    requires Wide(m, width) && Rectangular(vals, rows, width) && i < rows && n <= |vals|
    ensures Wide(r, width)
  {
    ColumnWide(vals, rows, width, i);
    RunRow(m, Column(vals, i)[..n], c1, c2, width)
  }

  lemma AfterNext(m: Masks, vals: seq<seq<Row>>, c1: Word, c2: Word, rows: nat, width: nat, i: nat, n: nat)
    requires Wide(m, width) && Rectangular(vals, rows, width) && i < rows && n < |vals|
    ensures After(m, vals, c1, c2, rows, width, i, n + 1)
            == StepRow(After(m, vals, c1, c2, rows, width, i, n), vals[n][i], Bit(c1, n), Bit(c2, n))
  {
    ColumnWide(vals, rows, width, i);
    assert Column(vals, i)[..n + 1][..n] == Column(vals, i)[..n];
  }

  /** The hits of the first n rows, when the lanes of `enabled` are switched on in every row. */
  ghost function TotalHits(enabled: Row, vals: seq<seq<Row>>, c1: Word, c2: Word, rows: nat, n: nat): nat
    requires Rectangular(vals, rows, |enabled|) && n <= rows
  {
    if n == 0 then 0
    else
      ColumnWide(vals, rows, |enabled|, n - 1);
      TotalHits(enabled, vals, c1, c2, rows, n - 1) + RowHits(enabled, Column(vals, n - 1), c1, c2, |enabled|)
  }

  class Buddy {
    const rows: nat
    const width: nat
    const meq1: array<Row>
    const meq2: array<Row>
    const mlt: array<Row>
    const mgt: array<Row>
    const neg: array<Row>
    const tmp: array<Row>
    const output: array<Row>

    ghost predicate Separate()
    {
      && rows == meq1.Length == meq2.Length == mlt.Length == mgt.Length == neg.Length == tmp.Length == output.Length
      && meq1 !in {meq2, mlt, mgt, neg, tmp, output} && meq2 !in {mlt, mgt, neg, tmp, output}
      && mlt !in {mgt, neg, tmp, output} && mgt !in {neg, tmp, output} && neg !in {tmp, output} && tmp != output
    }

    ghost predicate Valid()
      reads meq1, meq2, mlt, mgt
    {
      Separate() && forall i :: 0 <= i < rows ==> Wide(MasksAt(i), width)
    }

    function MasksAt(i: nat): Masks
      requires Separate() && i < rows
      reads meq1, meq2, mlt, mgt
    {
      Masks(meq1[i], meq2[i], mlt[i], mgt[i])
    }

    constructor (rows: nat, width: nat)
      ensures Valid() && this.rows == rows && this.width == width
      ensures fresh(meq1) && fresh(meq2) && fresh(mlt) && fresh(mgt) && fresh(neg) && fresh(tmp) && fresh(output)
      ensures forall i :: 0 <= i < rows ==> MasksAt(i) == Start(Ones(width))
    {
      this.rows, this.width := rows, width;
      meq1, meq2 := new Row[rows](_ => Ones(width)), new Row[rows](_ => Ones(width));
      mlt, mgt := new Row[rows](_ => Zeros(width)), new Row[rows](_ => Zeros(width));
      neg, tmp, output := new Row[rows](_ => []), new Row[rows](_ => []), new Row[rows](_ => []);
    }

    /** The row operations of one of the four cases, on row i. */
    method StepAt(i: nat, vec: Row, t1: bool, t2: bool)
      requires Valid() && i < rows && |vec| == width && neg[i] == RowNot(vec)
      modifies meq1, meq2, mlt, mgt, tmp
      ensures Separate() && MasksAt(i) == StepRow(old(MasksAt(i)), vec, t1, t2)
      ensures forall k :: 0 <= k < rows && k != i ==> MasksAt(k) == old(MasksAt(k))
    {
      assert Wide(MasksAt(i), width);
      if !t1 && !t2 {
        tmp[i] := RowAnd(meq1[i], vec);
        mgt[i] := RowOr(mgt[i], tmp[i]);
        meq1[i] := RowAnd(meq1[i], neg[i]);
        meq2[i] := RowAnd(meq2[i], neg[i]);
      } else if t1 && !t2 {
        meq1[i] := RowAnd(meq1[i], vec);
        meq2[i] := RowAnd(meq2[i], neg[i]);
      } else if !t1 && t2 {
        tmp[i] := RowAnd(meq1[i], vec);
        mgt[i] := RowOr(mgt[i], tmp[i]);
        tmp[i] := RowAnd(meq2[i], neg[i]);
        mlt[i] := RowOr(mlt[i], tmp[i]);
        meq1[i] := RowAnd(meq1[i], neg[i]);
        meq2[i] := RowAnd(meq2[i], vec);
      } else {
        tmp[i] := RowAnd(meq2[i], neg[i]);
        mlt[i] := RowOr(mlt[i], tmp[i]);
        meq1[i] := RowAnd(meq1[i], vec);
        meq2[i] := RowAnd(meq2[i], vec);
      }
    }

    /** One slice: first the complement of every row, then the row operations of every row. */
    method StepSlice(slice: seq<Row>, t1: bool, t2: bool)
      requires Valid() && |slice| == rows && AllWide(slice, width)
      modifies meq1, meq2, mlt, mgt, tmp, neg
      ensures Valid()
      ensures forall i :: 0 <= i < rows ==> Wide(old(MasksAt(i)), width)
      ensures forall i :: 0 <= i < rows ==> MasksAt(i) == StepRow(old(MasksAt(i)), slice[i], t1, t2)
    {
      for i := 0 to rows
        invariant forall k :: 0 <= k < i ==> neg[k] == RowNot(slice[k])
        invariant forall k :: 0 <= k < rows ==> MasksAt(k) == old(MasksAt(k))
      {
        neg[i] := RowNot(slice[i]);
      }
      for i := 0 to rows
        invariant forall k :: 0 <= k < rows ==> neg[k] == RowNot(slice[k])
        invariant forall k :: 0 <= k < i ==> MasksAt(k) == StepRow(old(MasksAt(k)), slice[k], t1, t2)
        invariant forall k :: i <= k < rows ==> MasksAt(k) == old(MasksAt(k))
      {
        StepAt(i, slice[i], t1, t2);
      }
    }

    /** One iteration of the query over all slices. */
    method Pass(vals: seq<seq<Row>>, c1: Word, c2: Word)
      requires Valid() && Rectangular(vals, rows, width)
      modifies meq1, meq2, mlt, mgt, tmp, neg
      ensures Valid()
      ensures forall i :: 0 <= i < rows ==> Wide(old(MasksAt(i)), width)
      ensures forall i :: 0 <= i < rows ==>
                MasksAt(i) == After(old(MasksAt(i)), vals, c1, c2, rows, width, i, |vals|)
    {
      for j := 0 to |vals|
        invariant Valid()
        invariant forall i :: 0 <= i < rows ==> Wide(old(MasksAt(i)), width)
        invariant forall i :: 0 <= i < rows ==>
                    MasksAt(i) == After(old(MasksAt(i)), vals, c1, c2, rows, width, i, j)
      {
        StepSlice(vals[j], Bit(c1, j), Bit(c2, j));
        forall i | 0 <= i < rows
          ensures MasksAt(i) == After(old(MasksAt(i)), vals, c1, c2, rows, width, i, j + 1)
        {
          AfterNext(old(MasksAt(i)), vals, c1, c2, rows, width, i, j);
        }
      }
    }

    ghost function Total(n: nat): nat
      requires Valid() && n <= rows
      reads meq1, meq2, mlt, mgt
    {
      if n == 0 then 0 else Total(n - 1) + RowTotal(n - 1)
    }

    ghost function RowTotal(i: nat): nat
      requires Valid() && i < rows
      reads meq1, meq2, mlt, mgt
    {
      assert Wide(MasksAt(i), width);
      RowSum(RowAnd(mlt[i], mgt[i]), width)
    }

    /** Row i of the output is the intersection of the two comparison masks. */
    ghost predicate OutputAt(i: nat)
      requires Separate() && i < rows
      reads meq1, meq2, mlt, mgt, output
    {
      Wide(MasksAt(i), width) && output[i] == RowAnd(mlt[i], mgt[i])
    }

    /** The output rows and their population count. */
    method CountResult() returns (result: nat)
      requires Valid()
      modifies output
      ensures Valid() && result == Total(rows)
      ensures forall i :: 0 <= i < rows ==> MasksAt(i) == old(MasksAt(i))
      ensures forall i :: 0 <= i < rows ==> OutputAt(i)
    {
      result := 0;
      for i := 0 to rows
        invariant Valid() && result == Total(i)
        invariant forall k :: 0 <= k < i ==> OutputAt(k)
      {
        var sum := CountRow(i);
        result := result + sum;
      }
    }

    /** The output of one row and its population count. */
    method CountRow(i: nat) returns (sum: nat)
      requires Valid() && i < rows
      modifies output
      ensures OutputAt(i) && sum == RowTotal(i)
      ensures forall k :: 0 <= k < rows && k != i && old(OutputAt(k)) ==> OutputAt(k)
    {
      assert Wide(MasksAt(i), width);
      output[i] := RowAnd(mlt[i], mgt[i]);
      sum := SumRow(output[i]);
    }

    lemma {:induction false} TotalIsHits(vals: seq<seq<Row>>, c1: Word, c2: Word, n: nat)
      requires Valid() && Rectangular(vals, rows, width) && n <= rows
      requires forall i :: 0 <= i < rows ==>
                 MasksAt(i) == After(Start(Ones(width)), vals, c1, c2, rows, width, i, |vals|)
      ensures Total(n) == TotalHits(Ones(width), vals, c1, c2, rows, n)
    {
      if n > 0 {
        TotalIsHits(vals, c1, c2, n - 1);
        AfterCount(MasksAt(n - 1), vals, c1, c2, rows, width, n - 1);
      }
    }
  }

  lemma AfterCount(m: Masks, vals: seq<seq<Row>>, c1: Word, c2: Word, rows: nat, width: nat, i: nat)
    requires Rectangular(vals, rows, width) && i < rows
    requires m == After(Start(Ones(width)), vals, c1, c2, rows, width, i, |vals|)
    ensures AllWide(Column(vals, i), width)
    ensures RowSum(RowAnd(m.lt, m.gt), width) == RowHits(Ones(width), Column(vals, i), c1, c2, width)
  {
    ColumnWide(vals, rows, width, i);
    assert Column(vals, i)[..|vals|] == Column(vals, i);
    RowCount(Ones(width), Column(vals, i), c1, c2);
  }

  lemma PassTwice(vals: seq<seq<Row>>, c1: Word, c2: Word, rows: nat, width: nat, i: nat)
    requires Rectangular(vals, rows, width) && i < rows
    ensures var m := After(Start(Ones(width)), vals, c1, c2, rows, width, i, |vals|);
            After(m, vals, c1, c2, rows, width, i, |vals|) == m
  {
    ColumnWide(vals, rows, width, i);
    assert Column(vals, i)[..|vals|] == Column(vals, i);
    SecondPassIsIdle(Ones(width), Column(vals, i), c1, c2);
  }

  /** The whole row program: both iterations count the hits among the lanes it enables. That is the number of all
      values in range if and only if none of those is in a lane other than lane 0 of its word. */
  method RunQuery(vals: seq<seq<Row>>, c1: Word, c2: Word, rows: nat, width: nat) returns (first: nat, result: nat)
    requires Rectangular(vals, rows, width)
    ensures result == first == TotalHits(Ones(width), vals, c1, c2, rows, rows)
    ensures result == TotalHits(AllOnes(width), vals, c1, c2, rows, rows) <==> OnlyLaneZero(vals, c1, c2, rows, width)
  {
    var b := new Buddy(rows, width);
    b.Pass(vals, c1, c2);
    b.TotalIsHits(vals, c1, c2, rows);
    first := b.CountResult();
    label Second:
    b.Pass(vals, c1, c2);
    forall i | 0 <= i < rows
      ensures b.MasksAt(i) == After(Start(Ones(width)), vals, c1, c2, rows, width, i, |vals|)
    {
      PassTwice(vals, c1, c2, rows, width, i);
      assert b.MasksAt(i) == After(old@Second(b.MasksAt(i)), vals, c1, c2, rows, width, i, |vals|);
    }
    b.TotalIsHits(vals, c1, c2, rows);
    result := b.CountResult();
    CountIsAllIff(vals, c1, c2, rows, width, rows);
  }

  // ---------------------------------------------------------------- the lanes that are left out

  /** Every lane switched on. */
  function AllOnes(width: nat): (r: Row)
    ensures |r| == width
  {
    seq(width, _ => NotW(0))
  }

  lemma AllOnesBit(k: nat)
    requires k < 32
    ensures Bit(NotW(0), k)
  {
    BitZero(k);
    Lanes(0, 0, k);
  }

  lemma OneBit(k: nat)
    ensures Bit(1, k) <==> k == 0
  {
    if k > 0 {
      BitZero(k - 1);
    }
  }

  /** The integer 1 switches on lane 0 only. */
  lemma OnesHit(width: nat, slices: seq<Row>, c1: Word, c2: Word, w: nat, k: nat)
    requires w < width && AllWide(slices, width) && k < 32
    ensures Hit(Ones(width), slices, c1, c2, w, k) <==> k == 0 && Hit(AllOnes(width), slices, c1, c2, w, k)
  {
    AllOnesBit(k);
    OneBit(k);
  }

  ghost predicate OnlyLaneZeroOf(width: nat, slices: seq<Row>, c1: Word, c2: Word, w: nat, n: nat)
    requires w < width && AllWide(slices, width)
  {
    forall k :: 1 <= k < n ==> !Hit(AllOnes(width), slices, c1, c2, w, k)
  }

  lemma {:induction false} WordIsAllIff(width: nat, slices: seq<Row>, c1: Word, c2: Word, w: nat, n: nat)
    requires w < width && AllWide(slices, width) && n <= 32
    ensures var (some, all) := (WordHits(Ones(width), slices, c1, c2, w, n), WordHits(AllOnes(width), slices, c1, c2, w, n));
            some <= all && (some == all <==> OnlyLaneZeroOf(width, slices, c1, c2, w, n))
  {
    if n > 0 {
      WordIsAllIff(width, slices, c1, c2, w, n - 1);
      OnesHit(width, slices, c1, c2, w, n - 1);
    }
  }

  ghost predicate OnlyLaneZeroIn(width: nat, slices: seq<Row>, c1: Word, c2: Word, n: nat)
    requires n <= width && AllWide(slices, width)
  {
    forall w :: 0 <= w < n ==> OnlyLaneZeroOf(width, slices, c1, c2, w, 32)
  }

  /** In a row, the lanes that the program looks at give the number of all values in range if and only if no other
      lane has one. */
  lemma {:induction false} RowIsAllIff(width: nat, slices: seq<Row>, c1: Word, c2: Word, n: nat)
    requires n <= width && AllWide(slices, width)
    ensures var (some, all) := (RowHits(Ones(width), slices, c1, c2, n), RowHits(AllOnes(width), slices, c1, c2, n));
            some <= all && (some == all <==> OnlyLaneZeroIn(width, slices, c1, c2, n))
  {
    if n > 0 {
      RowIsAllIff(width, slices, c1, c2, n - 1);
      WordIsAllIff(width, slices, c1, c2, n - 1, 32);
    }
  }

  ghost predicate OnlyLaneZeroAt(vals: seq<seq<Row>>, c1: Word, c2: Word, rows: nat, width: nat, i: nat)
    requires Rectangular(vals, rows, width) && i < rows
  {
    ColumnWide(vals, rows, width, i);
    OnlyLaneZeroIn(width, Column(vals, i), c1, c2, width)
  }

  /** No value outside lane 0 of its word is in range. */
  ghost predicate OnlyLaneZero(vals: seq<seq<Row>>, c1: Word, c2: Word, rows: nat, width: nat)
    requires Rectangular(vals, rows, width)
  {
    forall i :: 0 <= i < rows ==> OnlyLaneZeroAt(vals, c1, c2, rows, width, i)
  }

  /** The same for the first n rows of the whole table. */
  lemma {:induction false} CountIsAllIff(vals: seq<seq<Row>>, c1: Word, c2: Word, rows: nat, width: nat, n: nat)
    requires Rectangular(vals, rows, width) && n <= rows
    ensures var some := TotalHits(Ones(width), vals, c1, c2, rows, n);
            var all := TotalHits(AllOnes(width), vals, c1, c2, rows, n);
            && some <= all
            && (some == all <==> forall i :: 0 <= i < n ==> OnlyLaneZeroAt(vals, c1, c2, rows, width, i))
  {
    if n > 0 {
      CountIsAllIff(vals, c1, c2, rows, width, n - 1);
      ColumnWide(vals, rows, width, n - 1);
      RowIsAllIff(width, Column(vals, n - 1), c1, c2, width);
      assert OnlyLaneZeroAt(vals, c1, c2, rows, width, n - 1)
             <==> OnlyLaneZeroIn(width, Column(vals, n - 1), c1, c2, width);
    }
  }

  /** One row of one word, two slices: the value 01 in lane 1, between 00 and 11, is not counted. */
  lemma LaneOneIsMissed()
    ensures var vals: seq<seq<Row>> := [[[0]], [[2]]];
            && Rectangular(vals, 1, 1) && !OnlyLaneZero(vals, 0, 3, 1, 1)
            && TotalHits(Ones(1), vals, 0, 3, 1, 1) < TotalHits(AllOnes(1), vals, 0, 3, 1, 1)
  {
    var vals: seq<seq<Row>> := [[[0]], [[2]]];
    var slices := Column(vals, 0);
    assert slices == [[0], [2]];
    assert LaneBits(slices, 0, 1) == [false, true];
    assert ConstBits(0, 2) == [false, false] && ConstBits(3, 2) == [true, true];
    TwoBits(false, true);
    TwoBits(false, false);
    TwoBits(true, true);
    AllOnesBit(1);
    assert Hit(AllOnes(1), slices, 0, 3, 0, 1);
    assert !OnlyLaneZeroOf(1, slices, 0, 3, 0, 32);
    assert !OnlyLaneZeroAt(vals, 0, 3, 1, 1, 0);
    CountIsAllIff(vals, 0, 3, 1, 1, 1);
  }

  lemma ValueNext(bits: seq<bool>, n: nat)
    requires n < |bits|
    ensures Value(bits[..n + 1]) == 2 * Value(bits[..n]) + if bits[n] then 1 else 0
  {
    assert bits[..n + 1][..n] == bits[..n];
  }

  lemma TwoBits(a: bool, b: bool)
    ensures Value([a, b]) == (if a then 2 else 0) + if b then 1 else 0
  {
    var bits := [a, b];
    assert bits[..2] == bits && bits[..0] == [];
    ValueNext(bits, 0);
    ValueNext(bits, 1);
  }
}

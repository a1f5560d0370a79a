/** The Internet checksum of dnet/ip.h (section 2 of RFC 1071): a sum of 16-bit words computed by
    Duff's device, folded and complemented. */
module IpChecksum {
  import opened Bytes

  const INT_MAX := 0x7fff_ffff
  const IP_LEN_MAX := 65535

  function Value16(b0: byte, b1: byte, order: ByteOrder): (w: nat)
    ensures w <= 65535
  {
    if order.Lsb? then b0 + 256 * b1 else 256 * b0 + b1
  }

  /** The 16-bit word that the host reads at word index `i`. */
  function Word(mem: seq<byte>, i: nat, order: ByteOrder): nat
    requires 2 * i + 1 < |mem|
  {
    Value16(mem[2 * i], mem[2 * i + 1], order)
  }

  function SumWords(mem: seq<byte>, n: nat, order: ByteOrder): nat
    requires 2 * n <= |mem|
  {
    if n == 0 then 0 else SumWords(mem, n - 1, order) + Word(mem, n - 1, order)
  }

  // ---------------------------------------------------------------- ip_cksum_add

  /** How many words the unrolled loop reads when `sn` are asked for. */
  function DuffWords(sn: nat): nat { if sn == 0 then 16 else sn }

  /** htons(b << 8): an odd last byte as a word of the host. */
  function LastByte(b: byte, order: ByteOrder): nat { if order.Lsb? then b else 256 * b }

  /** What ip_cksum_add adds. */
  function DuffSum(mem: seq<byte>, len: nat, order: ByteOrder): nat
    requires 2 * DuffWords(len / 2) + len % 2 <= |mem|
  {
    SumWords(mem, DuffWords(len / 2), order) + if len % 2 == 1 then LastByte(mem[2 * DuffWords(len / 2)], order) else 0
  }

  /** A signed 32-bit int. */
  type int32 = x: int | -0x8000_0000 <= x <= INT_MAX

  /** The int that a two's complement machine has for a sum. */
  function Wrap(x: int): int32 { (x + 0x8000_0000) % 0x1_0000_0000 - 0x8000_0000 }

  lemma WrapAdd(a: int, w: int)
    ensures Wrap(Wrap(a) + w) == Wrap(a + w)
  {
    var k := (a + 0x8000_0000) / 0x1_0000_0000;
    assert Wrap(a) + w + 0x8000_0000 == a + w + 0x8000_0000 - 0x1_0000_0000 * k;
    WrapShift(a + w + 0x8000_0000, k);
  }

  lemma WrapShift(x: int, k: int)
    ensures (x - 0x1_0000_0000 * k) % 0x1_0000_0000 == x % 0x1_0000_0000
  {
  }

  /** The words of the first round, and of the rounds after the current one when `n` is the counter. */
  function FirstRound(sn: nat): nat { if sn % 16 == 0 then 16 else sn % 16 }

  function Later(n: int): nat { if n > 1 then 16 * (n - 1) else 0 }

  lemma RoundsAddUp(sn: nat)
    ensures FirstRound(sn) + Later((sn + 15) / 16) == DuffWords(sn)
  {
    var q, m := sn / 16, sn % 16;
    assert sn == 16 * q + m && (sn + 15) / 16 == if m == 0 then q else q + 1;
  }

  /** One round of the unrolled loop: `round` words from word `sp` on. */
  method AddRound(mem: seq<byte>, sp: nat, round: nat, cksum1: int32, ghost cksum0: int32, order: ByteOrder)
    returns (cksum: int32)
    requires 2 * (sp + round) <= |mem| && cksum1 == Wrap(cksum0 + SumWords(mem, sp, order))
    ensures cksum == Wrap(cksum0 + SumWords(mem, sp + round, order))
  {
    cksum := cksum1;
    for i := sp to sp + round
      invariant cksum == Wrap(cksum0 + SumWords(mem, i, order))
    {
      WrapAdd(cksum0 + SumWords(mem, i, order), Word(mem, i, order));
      cksum := Wrap(cksum + Word(mem, i, order));
    }
  }

  /** The do-while loop: a first round and then rounds of 16 while the counter is positive. */
  method AddWords(mem: seq<byte>, n0: nat, round0: nat, cksum0: int32, order: ByteOrder, ghost words: nat)
    returns (cksum: int32)
    requires round0 + Later(n0) == words && 2 * words <= |mem|
    ensures cksum == Wrap(cksum0 + SumWords(mem, words, order))
  {
    cksum := cksum0;
    var n, sp, round, again := n0 as int, 0, round0, true;
    while again
      invariant 0 <= sp <= words && cksum == Wrap(cksum0 + SumWords(mem, sp, order))
      invariant if again then sp + round + Later(n) == words else sp == words
      decreases again, n
    {
      cksum := AddRound(mem, sp, round, cksum, cksum0, order);
      sp := sp + round;
      n := n - 1;
      round := 16;
      again := n > 0;
    }
  }

  /** ip_cksum_add on the memory from `buf` on. The switch enters the unrolled loop so that the first
      round adds sn % 16 words and every further one 16; with fewer than two bytes it still makes a
      round of 16. The accumulator wraps around where a sum leaves the int range, which C leaves undefined. */
  method CksumAdd(mem: seq<byte>, len: nat, cksum0: int32, order: ByteOrder) returns (cksum: int32)
    requires 2 * DuffWords(len / 2) + len % 2 <= |mem|
    ensures cksum == Wrap(cksum0 + DuffSum(mem, len, order))
    ensures cksum0 + DuffSum(mem, len, order) <= INT_MAX ==> cksum == cksum0 + DuffSum(mem, len, order)
  {
    var sn := len / 2;
    var words := DuffWords(sn);
    RoundsAddUp(sn);
    cksum := AddWords(mem, (sn + 15) / 16, FirstRound(sn), cksum0, order, words);
    if len % 2 == 1 {
      var last := mem[2 * words]; // where the loop has left the word pointer
      WrapAdd(cksum0 + SumWords(mem, words, order), LastByte(last, order));
      cksum := Wrap(cksum + LastByte(last, order));
    }
  }

  /** The buffer padded with a zero byte to whole words. */
  function Padded(mem: seq<byte>, len: nat): (s: seq<byte>)
    requires len <= |mem|
    ensures |s| == (len + 1) / 2 * 2
  {
    if len % 2 == 1 then mem[..len] + [0] else mem[..len]
  }

  lemma {:induction false} SameWordsSameSum(a: seq<byte>, b: seq<byte>, n: nat, order: ByteOrder)
    requires 2 * n <= |a| && 2 * n <= |b| && a[..2 * n] == b[..2 * n]
    ensures SumWords(a, n, order) == SumWords(b, n, order)
  {
    if n > 0 {
      assert a[..2 * (n - 1)] == a[..2 * n][..2 * (n - 1)];
      SameWordsSameSum(a, b, n - 1, order);
      assert a[2 * n - 2] == a[..2 * n][2 * n - 2] && a[2 * n - 1] == a[..2 * n][2 * n - 1];
    }
  }

  lemma PaddedEven(mem: seq<byte>, sn: nat, order: ByteOrder)
    requires 2 * sn <= |mem|
    ensures SumWords(Padded(mem, 2 * sn), sn, order) == SumWords(mem, sn, order)
  {
    SameWordsSameSum(mem, Padded(mem, 2 * sn), sn, order);
  }

  lemma PaddedOdd(mem: seq<byte>, sn: nat, order: ByteOrder)
    requires 2 * sn + 1 <= |mem|
    ensures SumWords(Padded(mem, 2 * sn + 1), sn + 1, order)
            == SumWords(mem, sn, order) + LastByte(mem[2 * sn], order)
  {
    var p := Padded(mem, 2 * sn + 1);
    SameWordsSameSum(mem, p, sn, order);
    assert Word(p, sn, order) == LastByte(mem[2 * sn], order);
  }

  lemma DuffEven(mem: seq<byte>, len: nat, sn: nat, order: ByteOrder)
    requires sn > 0 && len == 2 * sn <= |mem|
    ensures DuffSum(mem, len, order) == SumWords(mem, sn, order)
  {
    assert len / 2 == sn && len % 2 == 0;
  }

  lemma DuffOdd(mem: seq<byte>, len: nat, sn: nat, order: ByteOrder)
    requires sn > 0 && len == 2 * sn + 1 <= |mem|
    ensures DuffSum(mem, len, order) == SumWords(mem, sn, order) + LastByte(mem[2 * sn], order)
  {
    assert len / 2 == sn && len % 2 == 1;
  }

  /** For two or more bytes the result is the plain sum of the zero-padded buffer, on either byte order. */
  lemma DuffIsPlainSum(mem: seq<byte>, len: nat, order: ByteOrder)
    requires 2 <= len <= |mem|
    ensures DuffSum(mem, len, order) == SumWords(Padded(mem, len), (len + 1) / 2, order)
  {
    var sn := len / 2;
    if len == 2 * sn {
      DuffEven(mem, len, sn, order);
      PaddedEven(mem, sn, order);
    } else {
      DuffOdd(mem, len, sn, order);
      PaddedOdd(mem, sn, order);
    }
  }

  lemma {:induction false} SumOfOnes(size: nat, n: nat, order: ByteOrder)
    requires 2 * n <= size
    ensures SumWords(Fill(1, size), n, order) == 257 * n
  {
    if n > 0 {
      SumOfOnes(size, n - 1, order);
    }
  }

  lemma ShortSum(size: nat, len: nat, order: ByteOrder)
    requires len < 2 && len <= size
    ensures SumWords(Padded(Fill(1, size), len), (len + 1) / 2, order) <= 256
  {
    var p := Padded(Fill(1, size), len);
    if len == 1 {
      assert p[0] == 1 && p[1] == 0 && (len + 1) / 2 == 1;
      assert SumWords(p, 0, order) == 0 && SumWords(p, 1, order) == SumWords(p, 0, order) + Word(p, 0, order);
    }
  }

  lemma LongSum(size: nat, len: nat, words: nat, order: ByteOrder)
    requires words == DuffWords(len / 2) && 2 * words + len % 2 <= size
    ensures DuffSum(Fill(1, size), len, order) >= 257 * words
  {
    SumOfOnes(size, words, order);
  }

  /** With fewer than two bytes the sum takes in sixteen words beyond the buffer. */
  lemma ShortBufferReadsBeyond(len: nat, order: ByteOrder)
    requires len < 2
    ensures DuffSum(Fill(1, 33), len, order) != SumWords(Padded(Fill(1, 33), len), (len + 1) / 2, order)
  {
    ShortSum(33, len, order);
    LongSum(33, len, DuffWords(len / 2), order);
  }

  /** The sum is that of the buffer alone, whatever follows it in memory, if and only if there are two bytes. */
  lemma PlainSumIff(len: nat, order: ByteOrder)
    ensures len >= 2 <==>
      forall mem :: 2 * DuffWords(len / 2) + len % 2 <= |mem| && len <= |mem| ==>
        DuffSum(mem, len, order) == SumWords(Padded(mem, len), (len + 1) / 2, order)
  {
    if len >= 2 {
      forall mem | 2 * DuffWords(len / 2) + len % 2 <= |mem| && len <= |mem|
        ensures DuffSum(mem, len, order) == SumWords(Padded(mem, len), (len + 1) / 2, order)
      {
        DuffIsPlainSum(mem, len, order);
      }
    } else {
      ShortBufferReadsBeyond(len, order);
      assert |Fill(1, 33)| == 33;
    }
  }

  lemma {:induction false} SumBound(mem: seq<byte>, n: nat, order: ByteOrder)
    requires 2 * n <= |mem|
    ensures SumWords(mem, n, order) <= 65535 * n
  {
    if n > 0 {
      SumBound(mem, n - 1, order);
    }
  }

  /** Starting from zero, no partial sum of an IP packet overflows the signed 32-bit accumulator. */
  lemma NoOverflow(mem: seq<byte>, len: nat, k: nat, order: ByteOrder)
    requires 2 <= len <= IP_LEN_MAX && len <= |mem| && k <= len / 2
    ensures SumWords(mem, k, order) <= INT_MAX
    ensures len % 2 == 1 ==> SumWords(mem, len / 2, order) + LastByte(mem[len - 1], order) <= INT_MAX
  {
    SumBound(mem, k, order);
    SumBound(mem, len / 2, order);
  }

  // ---------------------------------------------------------------- ip_cksum_carry

  /** ip_cksum_carry: shifts of a signed value round down, and `& 0xffff` is the remainder. */
  function Carry(x: int): (c: nat)
    ensures c <= 65535
  {
    var y := x / 65536 + x % 65536;
    65535 - (y + y / 65536) % 65536
  }

  /** The one's complement sum: the representative of `x` modulo 65535, never 0 unless `x` is. */
  function Fold(x: nat): (f: nat)
    ensures f <= 65535 && (f == 0 <==> x == 0)
  {
    if x == 0 then 0 else (x - 1) % 65535 + 1
  }

  lemma FoldUnique(x: nat, f: nat, k: int)
    requires x > 0 && 0 < f <= 65535 && x == f + 65535 * k
    ensures Fold(x) == f
  {
    assert x - 1 == (f - 1) + 65535 * k;
  }

  /** Folding twice and complementing gives the complement of the one's complement sum. */
  lemma CarryIsComplement(x: nat)
    requires x <= INT_MAX
    ensures Carry(x) == 65535 - Fold(x)
  {
    var h, l := x / 65536, x % 65536;
    var y := h + l;
    if x > 0 {
      if y < 65536 {
        assert y / 65536 == 0;
        FoldUnique(x, y, h);
      } else {
        assert y / 65536 == 1;
        FoldUnique(x, y - 65535, h + 1);
      }
    }
  }

  /** A receiver accepts, that is, gets zero, exactly when the sum is a positive multiple of 65535. */
  lemma AcceptedIff(x: nat)
    requires x <= INT_MAX
    ensures Carry(x) == 0 <==> x > 0 && x % 65535 == 0
  {
    CarryIsComplement(x);
    if x > 0 {
      var q, r := (x - 1) / 65535, (x - 1) % 65535;
      if r == 65534 {
        RemainderIs(x, 0, q + 1);
      } else {
        RemainderIs(x, r + 1, q);
      }
    }
  }

  lemma RemainderIs(x: nat, r: nat, k: nat)
    requires r < 65535 && x == r + 65535 * k
    ensures x % 65535 == r
  {
  }

  // ---------------------------------------------------------------- byte order

  function Swap(w: nat): (s: nat)
    requires w <= 65535
    ensures s <= 65535
  {
    w % 256 * 256 + w / 256
  }

  function SwapBytes(mem: seq<byte>): (s: seq<byte>)
    requires |mem| % 2 == 0
    ensures |s| == |mem|
  {
    seq(|mem|, i requires 0 <= i < |mem| => if i % 2 == 0 then mem[i + 1] else mem[i - 1])
  }

  lemma SwappedWord(mem: seq<byte>, i: nat, order: ByteOrder)
    requires |mem| % 2 == 0 && 2 * i + 1 < |mem|
    ensures Word(SwapBytes(mem), i, order) == Swap(Word(mem, i, order))
  {
    assert SwapBytes(mem)[2 * i] == mem[2 * i + 1] && SwapBytes(mem)[2 * i + 1] == mem[2 * i];
    SwappedValue(mem[2 * i], mem[2 * i + 1], order);
  }

  lemma SwappedValue(b0: byte, b1: byte, order: ByteOrder)
    ensures Value16(b1, b0, order) == Swap(Value16(b0, b1, order))
  {
  }

  lemma SwapIs(w: nat)
    requires w <= 65535
    ensures Swap(w) == 256 * w - 65535 * (w / 256) && (Swap(w) == 0 <==> w == 0)
  {
  }

  /** Swapping the bytes of every word multiplies the sum by 256, modulo 65535. */
  lemma {:induction false} SwappedSum(mem: seq<byte>, n: nat, order: ByteOrder) returns (k: nat)
    requires |mem| % 2 == 0 && 2 * n <= |mem|
    ensures SumWords(SwapBytes(mem), n, order) == 256 * SumWords(mem, n, order) - 65535 * k
    ensures SumWords(SwapBytes(mem), n, order) == 0 <==> SumWords(mem, n, order) == 0
  {
    if n == 0 {
      k := 0;
    } else {
      k := SwappedSum(mem, n - 1, order);
      var w := Word(mem, n - 1, order);
      SwappedWord(mem, n - 1, order);
      SwapIs(w);
      SumNext(mem, n - 1, order);
      SumNext(SwapBytes(mem), n - 1, order);
      k := k + w / 256;
    }
  }

  lemma SumNext(mem: seq<byte>, n: nat, order: ByteOrder)
    requires 2 * n + 1 < |mem|
    ensures SumWords(mem, n + 1, order) == SumWords(mem, n, order) + Word(mem, n, order)
  {
  }

  /** Byte-swapping every word byte-swaps the checksum. */
  lemma SwapCommutes(mem: seq<byte>, order: ByteOrder)
    requires |mem| % 2 == 0
    requires SumWords(mem, |mem| / 2, order) <= INT_MAX && SumWords(SwapBytes(mem), |mem| / 2, order) <= INT_MAX
    ensures Carry(SumWords(SwapBytes(mem), |mem| / 2, order)) == Swap(Carry(SumWords(mem, |mem| / 2, order)))
  {
    var n := |mem| / 2;
    var x, y := SumWords(mem, n, order), SumWords(SwapBytes(mem), n, order);
    var k := SwappedSum(mem, n, order);
    CarryIsComplement(x);
    CarryIsComplement(y);
    FoldSwaps(x, y, k);
  }

  lemma FoldSwaps(x: nat, y: nat, k: int)
    requires y == 256 * x - 65535 * k && (y == 0 <==> x == 0)
    ensures Fold(y) == Swap(Fold(x)) && Swap(65535 - Fold(x)) == 65535 - Fold(y)
  {
    var f := Fold(x);
    SwapIs(f);
    if x > 0 {
      var j := (x - 1) / 65535;
      assert x == f + 65535 * j;
      FoldUnique(y, Swap(f), 256 * j - k + f / 256);
    }
  }

  /** Hosts of either byte order store the same two checksum bytes for the same packet, of even or odd length. */
  lemma ByteOrderIndependent(mem: seq<byte>, len: nat)
    requires 2 <= len <= |mem| && DuffSum(mem, len, Lsb) <= INT_MAX && DuffSum(mem, len, Msb) <= INT_MAX
    ensures StoreWord(Carry(DuffSum(mem, len, Lsb)), Lsb) == StoreWord(Carry(DuffSum(mem, len, Msb)), Msb)
  {
    DuffIsPlainSum(mem, len, Lsb);
    DuffIsPlainSum(mem, len, Msb);
    EvenByteOrder(Padded(mem, len));
  }

  lemma EvenByteOrder(mem: seq<byte>)
    requires |mem| % 2 == 0
    requires SumWords(mem, |mem| / 2, Lsb) <= INT_MAX && SumWords(mem, |mem| / 2, Msb) <= INT_MAX
    ensures StoreWord(Carry(SumWords(mem, |mem| / 2, Lsb)), Lsb)
            == StoreWord(Carry(SumWords(mem, |mem| / 2, Msb)), Msb)
  {
    BigIsSwapped(mem, |mem| / 2);
    SwapCommutes(mem, Lsb);
    StoreSwapped(Carry(SumWords(mem, |mem| / 2, Lsb)));
  }

  lemma StoreSwapped(w: nat)
    requires w <= 65535
    ensures StoreWord(w, Lsb) == StoreWord(Swap(w), Msb)
  {
    assert Swap(w) / 256 == w % 256 && Swap(w) % 256 == w / 256;
  }

  lemma {:induction false} BigIsSwapped(mem: seq<byte>, n: nat)
    requires |mem| % 2 == 0 && 2 * n <= |mem|
    ensures SumWords(mem, n, Msb) == SumWords(SwapBytes(mem), n, Lsb)
  {
    if n > 0 {
      BigIsSwapped(mem, n - 1);
    }
  }

  // ---------------------------------------------------------------- inserting the checksum

  /** The two bytes that a host stores for a word. */
  function StoreWord(w: nat, order: ByteOrder): (s: seq<byte>)
    requires w <= 65535
    ensures |s| == 2 && Value16(s[0], s[1], order) == w
  {
    if order.Lsb? then [w % 256, w / 256] else [w / 256, w % 256]
  }

  function WithWord(mem: seq<byte>, i: nat, w: nat, order: ByteOrder): (s: seq<byte>)
    requires 2 * i + 1 < |mem| && w <= 65535
    ensures |s| == |mem|
  {
    mem[2 * i := StoreWord(w, order)[0]][2 * i + 1 := StoreWord(w, order)[1]]
  }

  lemma {:induction false} SumWithWord(mem: seq<byte>, i: nat, w: nat, n: nat, order: ByteOrder)
    requires 2 * i + 1 < |mem| && w <= 65535 && 2 * n <= |mem|
    ensures SumWords(WithWord(mem, i, w, order), n, order)
            == SumWords(mem, n, order) + if i < n then w - Word(mem, i, order) else 0
  {
    if n > 0 {
      SumWithWord(mem, i, w, n - 1, order);
    }
  }

  lemma PaddedWithWord(mem: seq<byte>, len: nat, i: nat, w: nat, order: ByteOrder)
    requires 2 * i + 1 < len <= |mem| && w <= 65535
    ensures Padded(WithWord(mem, i, w, order), len) == WithWord(Padded(mem, len), i, w, order)
    ensures Word(Padded(mem, len), i, order) == Word(mem, i, order)
  {
  }

  /** Storing the computed checksum in a zeroed word of the packet makes the recomputed checksum zero. */
  lemma InsertedChecksumVerifies(mem: seq<byte>, len: nat, i: nat, order: ByteOrder)
    requires 2 * i + 1 < len <= |mem| && Word(mem, i, order) == 0
    requires DuffSum(mem, len, order) + Carry(DuffSum(mem, len, order)) <= INT_MAX
    ensures var c := Carry(DuffSum(mem, len, order));
            Carry(DuffSum(WithWord(mem, i, c, order), len, order)) == 0
  {
    var x := DuffSum(mem, len, order);
    WordAdds(mem, len, i, Carry(x), order);
    ComplementVerifies(x);
  }

  lemma WordAdds(mem: seq<byte>, len: nat, i: nat, w: nat, order: ByteOrder)
    requires 2 * i + 1 < len <= |mem| && Word(mem, i, order) == 0 && w <= 65535
    ensures DuffSum(WithWord(mem, i, w, order), len, order) == DuffSum(mem, len, order) + w
  {
    DuffIsPlainSum(mem, len, order);
    DuffIsPlainSum(WithWord(mem, i, w, order), len, order);
    PaddedWithWord(mem, len, i, w, order);
    SumWithWord(Padded(mem, len), i, w, (len + 1) / 2, order);
  }

  lemma ComplementVerifies(x: nat)
    requires x + Carry(x) <= INT_MAX
    ensures Carry(x + Carry(x)) == 0
  {
    CarryIsComplement(x);
    ComplementFolds(x);
    CarryIsComplement(x + Carry(x));
  }

  lemma ComplementFolds(x: nat)
    ensures Fold(x + (65535 - Fold(x))) == 65535
  {
    var j := if x == 0 then 0 else (x - 1) / 65535;
    assert x == Fold(x) + 65535 * j;
    FoldUnique(x + (65535 - Fold(x)), 65535, j);
  }
}

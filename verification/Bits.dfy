/** 32-bit words as natural numbers: the bitwise operators by their binary digits, and the
    multiply-based population count. */
module Bits {
  import opened Arith

  const WORD := 0x1_0000_0000

  type Word = w: nat | w < WORD

  /** Bit `k` of `x`. */
  predicate Bit(x: nat, k: nat)
  {
    if k == 0 then x % 2 == 1 else Bit(x / 2, k - 1)
  }

  function And(x: nat, y: nat): (z: nat)
    ensures z <= x && z <= y
  {
    if x == 0 || y == 0 then 0 else (x % 2) * (y % 2) + 2 * And(x / 2, y / 2)
  }

  function Or(x: nat, y: nat): nat
    decreases x + y
  {
    if x == 0 then y else if y == 0 then x
    else (if x % 2 == 1 || y % 2 == 1 then 1 else 0) + 2 * Or(x / 2, y / 2)
  }

  function Xor(x: nat, y: nat): nat
    decreases x + y
  {
    if x == 0 then y else if y == 0 then x
    else (if x % 2 != y % 2 then 1 else 0) + 2 * Xor(x / 2, y / 2)
  }

  lemma {:induction false} BitZero(k: nat)
    ensures !Bit(0, k)
  {
    if k > 0 {
      BitZero(k - 1);
    }
  }

  lemma {:induction false} BitAnd(x: nat, y: nat, k: nat)
    ensures Bit(And(x, y), k) <==> Bit(x, k) && Bit(y, k)
    decreases k
  {
    if x == 0 || y == 0 {
      BitZero(k);
    } else {
      AndHalves(x, y);
      if k > 0 {
        BitAnd(x / 2, y / 2, k - 1);
      }
    }
  }

  lemma AndHalves(x: nat, y: nat)
    requires x != 0 && y != 0
    ensures And(x, y) / 2 == And(x / 2, y / 2) && (And(x, y) % 2 == 1 <==> x % 2 == 1 && y % 2 == 1)
  {
    var a, b := x % 2, y % 2;
    assert a * b == if a == 1 && b == 1 then 1 else 0;
  }

  lemma {:induction false} AndItself(x: nat)
    ensures And(x, x) == x
  {
    if x > 0 {
      AndItself(x / 2);
      BinaryDigits(x);
      AndDigit(x % 2, x / 2, x % 2, x / 2);
      BitSquare(x % 2);
    }
  }

  lemma BitSquare(b: nat)
    requires b < 2
    ensures b * b == b
  {
  }

  /** The test `a != 0 && (a & (a - 1)) == 0`. */
  lemma {:induction false} Pow2Test(a: nat)
    ensures IsPow2(a) <==> a != 0 && And(a, a - 1) == 0
  {
    if a > 1 {
      var q := a / 2;
      if a % 2 == 0 {
        Pow2Test(q);
        AndDigit(0, q, 1, q - 1);
        assert a == 0 + 2 * q && a - 1 == 1 + 2 * (q - 1);
      } else {
        AndItself(q);
        AndDigit(1, q, 0, q);
        assert a == 1 + 2 * q && a - 1 == 0 + 2 * q;
      }
    }
  }

  lemma {:induction false} BitOr(x: nat, y: nat, k: nat)
    ensures Bit(Or(x, y), k) <==> Bit(x, k) || Bit(y, k)
    decreases k
  {
    if x == 0 || y == 0 {
      BitZero(k);
    } else {
      var low, high := if x % 2 == 1 || y % 2 == 1 then 1 else 0, Or(x / 2, y / 2);
      assert Or(x, y) == low + 2 * high;
      if k > 0 {
        BitOr(x / 2, y / 2, k - 1);
        assert (low + 2 * high) / 2 == high;
      }
    }
  }

  lemma {:induction false} BitXor(x: nat, y: nat, k: nat)
    ensures Bit(Xor(x, y), k) <==> Bit(x, k) != Bit(y, k)
    decreases k
  {
    if x == 0 || y == 0 {
      BitZero(k);
    } else {
      var low, high := if x % 2 != y % 2 then 1 else 0, Xor(x / 2, y / 2);
      assert Xor(x, y) == low + 2 * high;
      if k > 0 {
        BitXor(x / 2, y / 2, k - 1);
        assert (low + 2 * high) / 2 == high;
      }
    }
  }

  lemma {:induction false} XorBound(x: nat, y: nat, n: nat)
    requires x < Pow2(n) && y < Pow2(n)
    ensures Xor(x, y) < Pow2(n)
    decreases n
  {
    if x != 0 && y != 0 {
      XorBound(x / 2, y / 2, n - 1);
    }
  }

  lemma {:induction false} OrBound(x: nat, y: nat, n: nat)
    requires x < Pow2(n) && y < Pow2(n)
    ensures Or(x, y) < Pow2(n)
    decreases n
  {
    if x != 0 && y != 0 {
      OrBound(x / 2, y / 2, n - 1);
    }
  }

  lemma {:induction false} BitComplement(x: nat, n: nat, k: nat)
    requires x < Pow2(n) && k < n
    ensures Bit(Pow2(n) - 1 - x, k) <==> !Bit(x, k)
    decreases n
  {
    if k > 0 {
      BitComplement(x / 2, n - 1, k - 1);
    }
    HalfComplement(x, Pow2(n - 1));
  }

  lemma HalfComplement(x: nat, p: nat)
    requires x < 2 * p
    ensures (2 * p - 1 - x) / 2 == p - 1 - x / 2 && ((2 * p - 1 - x) % 2 == 1 <==> x % 2 == 0)
  {
    var q, r := x / 2, x % 2;
    assert 2 * p - 1 - x == 2 * (p - 1 - q) + (1 - r);
  }

  /** Numbers below 2^n with the same first n bits are equal. */
  lemma {:induction false} SameBits(x: nat, y: nat, n: nat)
    requires x < Pow2(n) && y < Pow2(n) && forall k :: 0 <= k < n ==> Bit(x, k) == Bit(y, k)
    ensures x == y
    decreases n
  {
    if n > 0 {
      assert Bit(x, 0) == Bit(y, 0);
      forall k | 0 <= k < n - 1
        ensures Bit(x / 2, k) == Bit(y / 2, k)
      {
        assert Bit(x, k + 1) == Bit(y, k + 1);
      }
      SameBits(x / 2, y / 2, n - 1);
    }
  }

  lemma Pow2Word()
    ensures Pow2(32) == WORD
  {
    assert Pow2(8) == 256;
    assert Pow2(16) == 65536;
    assert Pow2(24) == 0x100_0000;
  }

  // ---------------------------------------------------------------- operators on words

  function AndW(x: Word, y: Word): Word { And(x, y) }
  function OrW(x: Word, y: Word): Word { WordBounds(x, y); Or(x, y) }
  function XorW(x: Word, y: Word): Word { WordBounds(x, y); Xor(x, y) }
  function NotW(x: Word): Word { WORD - 1 - x }

  lemma WordBounds(x: Word, y: Word)
    ensures Or(x, y) < WORD && Xor(x, y) < WORD
  {
    Pow2Word();
    OrBound(x, y, 32);
    XorBound(x, y, 32);
  }

  /** What the operators do to each of the 32 lanes of a word. */
  lemma Lanes(x: Word, y: Word, k: nat)
    requires k < 32
    ensures Bit(AndW(x, y), k) <==> Bit(x, k) && Bit(y, k)
    ensures Bit(OrW(x, y), k) <==> Bit(x, k) || Bit(y, k)
    ensures Bit(XorW(x, y), k) <==> Bit(x, k) != Bit(y, k)
    ensures Bit(NotW(x), k) <==> !Bit(x, k)
  {
    BitAnd(x, y, k);
    BitOr(x, y, k);
    BitXor(x, y, k);
    Pow2Word();
    BitComplement(x, 32, k);
  }

  /** Words with the same lanes are equal. */
  lemma SameLanes(x: Word, y: Word)
    requires forall k :: 0 <= k < 32 ==> Bit(x, k) == Bit(y, k)
    ensures x == y
  {
    Pow2Word();
    SameBits(x, y, 32);
  }

  // ---------------------------------------------------------------- upopcount

  function Sub(x: Word, y: Word): Word { if x >= y then x - y else x + WORD - y }

  /** upopcount, statement by statement. */
  function Fold1(val: Word): Word { Sub(val, And(val / 2, 0x55555555)) }
  function Fold2(v: Word): Word { (And(v, 0x33333333) + And(v / 4, 0x33333333)) % WORD }
  function Fold3(w: Word): nat { And((w + w / 16) % WORD, 0x0F0F0F0F) * 0x01010101 % WORD / 0x100_0000 }

  function UPopcount(val: Word): nat { Fold3(Fold2(Fold1(val))) }

  /** The number of ones among the first `n` bits. */
  function Count(x: nat, n: nat): nat
  {
    if n == 0 then 0 else x % 2 + Count(x / 2, n - 1)
  }

  /** The masks 0x55..., 0x33... and 0x0F0F... with `n` digits in base 4, 16 and 256. */
  function Mask5(n: nat): nat { if n == 0 then 0 else 1 + 4 * Mask5(n - 1) }
  function Mask3(n: nat): nat { if n == 0 then 0 else 3 + 16 * Mask3(n - 1) }
  function MaskF(n: nat): nat { if n == 0 then 0 else 15 + 256 * MaskF(n - 1) }

  /** Numbers whose digits in base 4, 16 and 256 are the sums of adjacent digits of half the width. */
  function Pairs(x: nat, n: nat): nat { if n == 0 then 0 else x % 2 + x / 2 % 2 + 4 * Pairs(x / 4, n - 1) }
  function Nibbles(x: nat, n: nat): nat { if n == 0 then 0 else x % 4 + x / 4 % 4 + 16 * Nibbles(x / 16, n - 1) }
  function Bytes(x: nat, n: nat): nat { if n == 0 then 0 else x % 16 + x / 16 % 16 + 256 * Bytes(x / 256, n - 1) }

  /** The sums of the first `n` digits in base 4, 16 and 256. */
  function Sum4(x: nat, n: nat): nat decreases n { if n == 0 then 0 else x % 4 + Sum4(x / 4, n - 1) }
  function Sum16(x: nat, n: nat): nat decreases n { if n == 0 then 0 else x % 16 + Sum16(x / 16, n - 1) }
  function Sum256(x: nat, n: nat): nat decreases n { if n == 0 then 0 else x % 256 + Sum256(x / 256, n - 1) }

  /** And, one binary digit at a time. */
  lemma AndDigit(a: nat, x: nat, b: nat, y: nat)
    requires a < 2 && b < 2
    ensures And(a + 2 * x, b + 2 * y) == a * b + 2 * And(x, y)
  {
  }

  lemma AndZeroDigit(a: nat, x: nat, y: nat)
    requires a < 2
    ensures And(a + 2 * x, 2 * y) == 2 * And(x, y)
  {
    AndDigit(a, x, 0, y);
  }

  lemma AndOneDigit(a: nat, x: nat, y: nat)
    requires a < 2
    ensures And(a + 2 * x, 1 + 2 * y) == a + 2 * And(x, y)
  {
    AndDigit(a, x, 1, y);
  }

  lemma AndTwoBits(a: nat, b: nat, x: nat, m: nat)
    requires a < 2 && b < 2
    ensures And(a + 2 * b + 4 * x, 1 + 4 * m) == a + 4 * And(x, m)
  {
    AndOneDigit(a, b + 2 * x, 2 * m);
    AndZeroDigit(b, x, m);
  }

  lemma AndTwoZeros(t: nat, x: nat, m: nat)
    requires t < 4
    ensures And(t + 4 * x, 4 * m) == 4 * And(x, m)
  {
    AndZeroDigit(t % 2, t / 2 + 2 * x, 2 * m);
    AndZeroDigit(t / 2, x, m);
  }

  lemma AndTwoOnes(t: nat, x: nat, m: nat)
    requires t < 4
    ensures And(t + 4 * x, 3 + 4 * m) == t + 4 * And(x, m)
  {
    AndOneDigit(t % 2, t / 2 + 2 * x, 1 + 2 * m);
    AndOneDigit(t / 2, x, m);
  }

  lemma AndFourBits(t: nat, u: nat, x: nat, m: nat)
    requires t < 4 && u < 4
    ensures And(t + 4 * u + 16 * x, 3 + 16 * m) == t + 16 * And(x, m)
  {
    AndTwoOnes(t, u + 4 * x, 4 * m);
    AndTwoZeros(u, x, m);
  }

  lemma AndFourOnes(t: nat, x: nat, m: nat)
    requires t < 16
    ensures And(t + 16 * x, 15 + 16 * m) == t + 16 * And(x, m)
  {
    AndTwoOnes(t % 4, t / 4 + 4 * x, 3 + 4 * m);
    AndTwoOnes(t / 4, x, m);
  }

  lemma AndFourZeros(t: nat, x: nat, m: nat)
    requires t < 16
    ensures And(t + 16 * x, 16 * m) == 16 * And(x, m)
  {
    var a, b := t % 4, t / 4;
    assert t == a + 4 * b && b < 4;
    AndFourZeroDigits(a, b, x, m);
  }

  lemma AndFourZeroDigits(a: nat, b: nat, x: nat, m: nat)
    requires a < 4 && b < 4
    ensures And(a + 4 * b + 16 * x, 16 * m) == 16 * And(x, m)
  {
    AndTwoZeros(a, b + 4 * x, 4 * m);
    AndTwoZeros(b, x, m);
    assert a + 4 * b + 16 * x == a + 4 * (b + 4 * x) && 16 * m == 4 * (4 * m);
  }

  lemma AndEightBits(t: nat, u: nat, x: nat, m: nat)
    requires t < 16 && u < 16
    ensures And(t + 16 * u + 256 * x, 15 + 256 * m) == t + 256 * And(x, m)
  {
    AndFourOnes(t, u + 16 * x, 16 * m);
    AndFourZeros(u, x, m);
  }

  lemma AndByte(z: nat, t: nat, u: nat, x: nat, m: nat)
    requires t < 16 && u < 16 && z == t + 16 * u + 256 * x
    ensures And(z, 15 + 256 * m) == t + 256 * And(x, m)
  {
    AndEightBits(t, u, x, m);
  }

  /** The same with the digits named by their quotients and remainders. */
  lemma AndMask3(x: nat, n: nat)
    requires n > 0
    ensures And(x, Mask3(n)) == x % 4 + 16 * And(x / 16, Mask3(n - 1))
  {
    FourDigits(x);
    AndFourBits(x % 4, x / 4 % 4, x / 16, Mask3(n - 1));
  }

  lemma FourDigits(x: nat)
    ensures x == x % 4 + 4 * (x / 4 % 4) + 16 * (x / 16)
  {
    var h := x / 4;
    assert x == x % 4 + 4 * h && h == h % 4 + 4 * (h / 4) && h / 4 == x / 16;
  }

  // ---------------------------------------------------------------- the three folding steps

  lemma {:induction false} FirstStep(x: nat, n: nat)
    requires x < Pow2(2 * n)
    ensures And(x / 2, Mask5(n)) + Pairs(x, n) == x
    decreases n
  {
    if n > 0 {
      var q := x / 4;
      BinaryDigits(x);
      assert Pow2(2 * n) == 4 * Pow2(2 * (n - 1));
      FirstStep(q, n - 1);
      FirstDigits(x / 2, x / 2 % 2, q, Mask5(n - 1));
    }
  }

  lemma BinaryDigits(x: nat)
    ensures x == x % 2 + 2 * (x / 2) && x / 2 == x / 2 % 2 + 2 * (x / 4)
  {
    var h := x / 2;
    assert h == h % 2 + 2 * (h / 2) && h / 2 == x / 4;
  }

  lemma FirstDigits(h: nat, b: nat, q: nat, m: nat)
    requires h == b + 2 * q && b < 2
    ensures And(h, 1 + 4 * m) == b + 4 * And(q / 2, m)
  {
    AndTwoBits(b, q % 2, q / 2, m);
    assert h == b + 2 * (q % 2) + 4 * (q / 2);
  }

  lemma {:induction false} SecondStep(v: nat, n: nat)
    ensures And(v, Mask3(n)) + And(v / 4, Mask3(n)) == Nibbles(v, n)
    decreases n
  {
    if n > 0 {
      SecondStep(v / 16, n - 1);
      AndMask3(v, n);
      AndMask3(v / 4, n);
      assert v / 4 / 16 == v / 16 / 4;
    }
  }

  /** All the first `n` base-16 digits are at most 6, and there are no others. */
  predicate SmallNibbles(w: nat, n: nat)
    decreases n
  {
    if n == 0 then w == 0 else w % 16 <= 6 && SmallNibbles(w / 16, n - 1)
  }

  lemma SmallNibblesTwice(w: nat, n: nat)
    requires n >= 2 && SmallNibbles(w, n)
    ensures w % 16 <= 6 && w / 16 % 16 <= 6 && SmallNibbles(w / 256, n - 2)
  {
    assert w / 16 / 16 == w / 256;
  }

  lemma SmallDigit(d: nat, w: nat, n: nat)
    requires d <= 6 && n > 0 && SmallNibbles(w, n - 1)
    ensures SmallNibbles(d + 16 * w, n)
  {
    LastDigit(d, w, 16);
  }

  lemma SmallFirst(w: nat, n: nat)
    requires SmallNibbles(w, n)
    ensures w % 16 <= 6
  {
  }

  lemma TwoDigits(w: nat)
    ensures w == w % 16 + 16 * (w / 16) && w / 16 == w / 16 % 16 + 16 * (w / 256)
  {
    var h := w / 16;
    assert h == h % 16 + 16 * (h / 16) && h / 16 == w / 256;
  }

  /** Adding to each digit the next one. */
  lemma DigitsAdded(w: nat)
    ensures var q := w / 256;
            w + w / 16 == (w % 16 + w / 16 % 16) + 16 * (w / 16 % 16 + q % 16) + 256 * (q + q / 16)
  {
    TwoDigits(w);
    TwoDigits(w / 256);
  }

  lemma {:induction false} ThirdStep(w: nat, n: nat)
    requires SmallNibbles(w, 2 * n)
    ensures And(w + w / 16, MaskF(n)) == Bytes(w, n)
    decreases n
  {
    if n > 0 {
      var q := w / 256;
      SmallNibblesTwice(w, 2 * n);
      SmallFirst(q, 2 * n - 2);
      ThirdStep(q, n - 1);
      AddedByte(w, MaskF(n - 1));
    }
  }

  lemma AddedByte(w: nat, m: nat)
    requires w % 16 <= 6 && w / 16 % 16 <= 6 && w / 256 % 16 <= 6
    ensures And(w + w / 16, 15 + 256 * m) == w % 16 + w / 16 % 16 + 256 * And(w / 256 + w / 256 / 16, m)
  {
    var q := w / 256;
    DigitsAdded(w);
    AndByte(w + w / 16, w % 16 + w / 16 % 16, w / 16 % 16 + q % 16, q + q / 16, m);
  }

  // ---------------------------------------------------------------- digit sums

  lemma Count2(x: nat, n: nat)
    requires n >= 2
    ensures Count(x, n) == x % 2 + x / 2 % 2 + Count(x / 4, n - 2)
  {
    assert x / 2 / 2 == x / 4;
  }

  lemma {:induction false} PairsSum(x: nat, n: nat)
    ensures Sum4(Pairs(x, n), n) == Count(x, 2 * n)
    decreases n
  {
    if n > 0 {
      var rest := Pairs(x / 4, n - 1);
      PairsSum(x / 4, n - 1);
      Count2(x, 2 * n);
      SumDigit4(x % 2 + x / 2 % 2, rest, n);
    }
  }

  lemma LastDigit(d: nat, x: nat, base: nat)
    requires d < base && base in {4, 16, 256}
    ensures (d + base * x) % base == d && (d + base * x) / base == x
  {
  }

  lemma SumDigit4(d: nat, x: nat, n: nat)
    requires d < 4 && n > 0
    ensures Sum4(d + 4 * x, n) == d + Sum4(x, n - 1)
  {
    LastDigit(d, x, 4);
  }

  lemma SumDigit16(d: nat, x: nat, n: nat)
    requires d < 16 && n > 0
    ensures Sum16(d + 16 * x, n) == d + Sum16(x, n - 1)
  {
    LastDigit(d, x, 16);
  }

  lemma SumDigit256(d: nat, x: nat, n: nat)
    requires d < 256 && n > 0
    ensures Sum256(d + 256 * x, n) == d + Sum256(x, n - 1)
  {
    LastDigit(d, x, 256);
  }

  lemma Sum4Twice(v: nat, n: nat)
    requires n >= 2
    ensures Sum4(v, n) == v % 4 + v / 4 % 4 + Sum4(v / 16, n - 2)
  {
    assert v / 4 / 4 == v / 16;
  }

  lemma Sum16Twice(w: nat, n: nat)
    requires n >= 2
    ensures Sum16(w, n) == w % 16 + w / 16 % 16 + Sum16(w / 256, n - 2)
  {
    assert w / 16 / 16 == w / 256;
  }

  lemma {:induction false} NibblesSum(v: nat, n: nat)
    ensures Sum16(Nibbles(v, n), n) == Sum4(v, 2 * n) && SmallNibbles(Nibbles(v, n), n)
    decreases n
  {
    if n > 0 {
      var d, rest := v % 4 + v / 4 % 4, Nibbles(v / 16, n - 1);
      NibblesSum(v / 16, n - 1);
      Sum4Twice(v, 2 * n);
      SumDigit16(d, rest, n);
      SmallDigit(d, rest, n);
    }
  }

  lemma {:induction false} BytesSum(w: nat, n: nat)
    ensures Sum256(Bytes(w, n), n) == Sum16(w, 2 * n)
    decreases n
  {
    if n > 0 {
      BytesSum(w / 256, n - 1);
      Sum16Twice(w, 2 * n);
      var d, rest := w % 16 + w / 16 % 16, Bytes(w / 256, n - 1);
      SumDigit256(d, rest, n);
      assert Bytes(w, n) == d + 256 * rest;
    }
  }

  // ---------------------------------------------------------------- all together

  lemma Masks()
    ensures Mask5(16) == 0x55555555 && Mask3(8) == 0x33333333 && MaskF(4) == 0x0F0F0F0F
  {
    assert Mask5(4) == 0x55 && Mask5(8) == 0x5555 && Mask5(12) == 0x555555;
    assert Mask3(4) == 0x3333;
  }

  lemma {:induction false} SmallNibblesBound(w: nat, n: nat)
    requires SmallNibbles(w, n)
    ensures 15 * w <= 6 * (Pow2(4 * n) - 1)
    decreases n
  {
    if n > 0 {
      SmallNibblesBound(w / 16, n - 1);
      assert Pow2(4 * n) == 4 * Pow2(4 * n - 2) == 16 * Pow2(4 * (n - 1));
    }
  }

  /** The top byte of the product with 0x01010101 is the sum of the four bytes. */
  lemma MultiplySums(c0: nat, c1: nat, c2: nat, c3: nat)
    requires c0 <= 30 && c1 <= 30 && c2 <= 30 && c3 <= 30
    ensures (c0 + 256 * c1 + 65536 * c2 + 0x100_0000 * c3) * 0x01010101 % WORD / 0x100_0000 == c0 + c1 + c2 + c3
  {
    var low := c0 + 256 * (c0 + c1) + 65536 * (c0 + c1 + c2);
    var sum := c0 + c1 + c2 + c3;
    var high := (c1 + c2 + c3) + 256 * (c2 + c3) + 65536 * c3;
    var p := sum * 0x100_0000 + low;
    DivUnique((c0 + 256 * c1 + 65536 * c2 + 0x100_0000 * c3) * 0x01010101, WORD, high, p);
    DivUnique(p, 0x100_0000, sum, low);
  }

  lemma ByteStep(w: nat, n: nat) returns (c: nat)
    requires n > 0
    ensures c <= 30 && Bytes(w, n) == c + 256 * Bytes(w / 256, n - 1)
    ensures Sum256(Bytes(w, n), n) == c + Sum256(Bytes(w / 256, n - 1), n - 1)
  {
    c := w % 16 + w / 16 % 16;
    SumDigit256(c, Bytes(w / 256, n - 1), n);
  }

  lemma BytesSummed(w: nat)
    ensures Bytes(w, 4) * 0x01010101 % WORD / 0x100_0000 == Sum256(Bytes(w, 4), 4)
  {
    var c0 := ByteStep(w, 4);
    var c1 := ByteStep(w / 256, 3);
    var c2 := ByteStep(w / 256 / 256, 2);
    var c3 := ByteStep(w / 256 / 256 / 256, 1);
    MultiplySums(c0, c1, c2, c3);
  }

  // The digit counts are parameters here, so that the sums stay folded in the proofs.

  lemma Fold1IsPairs(val: Word, n: nat)
    requires Mask5(n) == 0x55555555 && Pow2(2 * n) == WORD
    ensures Fold1(val) == Pairs(val, n)
  {
    FirstStep(val, n);
  }

  lemma NibblesBound(v: nat, n: nat)
    requires Pow2(4 * n) == WORD
    ensures 15 * Nibbles(v, n) <= 6 * (WORD - 1)
  {
    NibblesSum(v, n);
    SmallNibblesBound(Nibbles(v, n), n);
  }

  lemma SmallModulo(x: nat)
    requires x < WORD
    ensures x % WORD == x
  {
  }

  lemma Fold2IsNibbles(v: Word, n: nat)
    requires Mask3(n) == 0x33333333 && Pow2(4 * n) == WORD
    ensures Fold2(v) == Nibbles(v, n)
  {
    SecondStep(v, n);
    NibblesBound(v, n);
    SmallModulo(Nibbles(v, n));
  }

  lemma Fold3IsBytes(w: Word, n: nat)
    requires MaskF(n) == 0x0F0F0F0F && SmallNibbles(w, 2 * n) && 15 * w <= 6 * (WORD - 1)
    ensures Fold3(w) == Bytes(w, n) * 0x01010101 % WORD / 0x100_0000
  {
    ThirdStep(w, n);
    SmallModulo(w + w / 16);
  }

  /** The multiply-based population count of a word is its number of ones. */
  lemma UPopcountIsCount(val: Word)
    ensures UPopcount(val) == Count(val, 32)
  {
    UPopcountSteps(val, 16, 8, 4);
  }

  lemma UPopcountSteps(val: Word, n16: nat, n8: nat, n4: nat)
    requires n16 == 2 * n8 && n8 == 2 * n4 && 4 * n4 == 16
    ensures UPopcount(val) == Count(val, 2 * n16)
  {
    var v, w := Fold1(val), Fold2(Fold1(val));
    assert Mask5(n16) == 0x55555555 && Mask3(n8) == 0x33333333 && MaskF(n4) == 0x0F0F0F0F by { Masks(); }
    assert Pow2(2 * n16) == Pow2(4 * n8) == WORD by { Pow2Word(); }
    Fold1IsPairs(val, n16);
    PairsSum(val, n16);
    Fold2IsNibbles(v, n8);
    NibblesSum(v, n8);
    NibblesBound(v, n8);
    Fold3IsBytes(w, n4);
    BytesSummed(w);
    BytesSum(w, n4);
  }
}
